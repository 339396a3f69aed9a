/**
 * src/controllers/resultatSelectionController.js: the lottery that fills a session's selection
 * from its active registrations (at most seven winners, the first three official and the rest
 * substitutes), and the manual entry of one selection result.
 */
module Selection {
  import opened Tables
  import opened Calendar
  import opened Http
  import opened Db
  import Inscriptions

  /** The two values of `type_selection`. */
  const Officiel: string := "officiel"
  const Suppleant: string := "suppl\U{00E9}ant"

  /** The lottery fills at most this many places. */
  const Places: nat := 7

  /** Of which this many are official places. */
  const OfficialPlaces: nat := 3

  /** Fewer active registrations than this and the lottery is refused. */
  const MinCandidates: nat := 3

  function Min(a: nat, b: nat): (m: nat)
    ensures m <= a && m <= b && (m == a || m == b)
  {
    if a <= b then a else b
  }

  predicate Distinct(ids: seq<Id>) {
    forall i, j :: 0 <= i < j < |ids| ==> ids[i] != ids[j]
  }

  // ---------------------------------------------------------------------------------------
  // The candidates: SELECT employee_id FROM inscription WHERE session_id = $1 AND statut = 'active'
  // ---------------------------------------------------------------------------------------

  function SessionAndStatus(i: Inscription): (Id, string) {
    (i.sessionId, i.statut)
  }

  function EmployeeIds(rows: seq<Inscription>): (r: seq<Id>)
    ensures |r| == |rows|
    ensures forall i :: 0 <= i < |r| ==> r[i] == rows[i].employeeId
  {
    seq(|rows|, i requires 0 <= i < |rows| => rows[i].employeeId)
  }

  /** The employees with an active registration for the session, in table order. */
  function Candidates(inscriptions: seq<Inscription>, sessionId: Id): (r: seq<Id>)
    ensures |r| == |Where(inscriptions, SessionAndStatus, (sessionId, "active"))| <= |inscriptions|
    ensures forall e :: e in r <==>
      exists x :: x in inscriptions && x.sessionId == sessionId && x.statut == "active" && x.employeeId == e
  {
    var rows := Where(inscriptions, SessionAndStatus, (sessionId, "active"));
    assert forall e :: e in EmployeeIds(rows) ==> exists x :: x in rows && x.employeeId == e by {
      forall e | e in EmployeeIds(rows) ensures exists x :: x in rows && x.employeeId == e {
        var k :| 0 <= k < |rows| && EmployeeIds(rows)[k] == e;
        assert rows[k] in rows;
      }
    }
    assert forall x :: x in rows ==> x.employeeId in EmployeeIds(rows) by {
      forall x | x in rows ensures x.employeeId in EmployeeIds(rows) {
        var k :| 0 <= k < |rows| && rows[k] == x;
        assert EmployeeIds(rows)[k] == x.employeeId;
      }
    }
    EmployeeIds(rows)
  }

  /** An employee registered at most once per session is a candidate at most once. */
  lemma CandidatesDistinct(inscriptions: seq<Inscription>, sessionId: Id)
    requires Inscriptions.PairsUnique(inscriptions)
    ensures Distinct(Candidates(inscriptions, sessionId))
  {
    var rows := Where(inscriptions, SessionAndStatus, (sessionId, "active"));
    SelectKeepsPairwise(inscriptions, Inscriptions.DifferentPair, SessionAndStatus, (sessionId, "active"));
    forall i, j | 0 <= i < j < |rows| ensures rows[i].employeeId != rows[j].employeeId {
      assert rows[i] in rows && rows[j] in rows;
      assert Inscriptions.DifferentPair(rows[i], rows[j]);
    }
  }

  /** A sequence is free of repeats exactly when no value occurs twice in it. */
  lemma {:induction false} DistinctByCount(ids: seq<Id>)
    ensures Distinct(ids) <==> forall e :: multiset(ids)[e] <= 1
  {
    if ids != [] {
      var h, t := ids[0], ids[1..];
      assert ids == [h] + t;
      DistinctByCount(t);
      assert multiset(ids) == multiset{h} + multiset(t);
      if Distinct(ids) {
        assert Distinct(t) by {
          forall i, j | 0 <= i < j < |t| ensures t[i] != t[j] {
            assert t[i] == ids[i + 1] && t[j] == ids[j + 1];
          }
        }
        forall k | 0 <= k < |t| ensures t[k] != h {
          assert t[k] == ids[k + 1];
        }
      } else {
        var i, j :| 0 <= i < j < |ids| && ids[i] == ids[j];
        if i == 0 {
          assert t[j - 1] == h;
          assert multiset(t)[h] >= 1;
          assert multiset(ids)[h] >= 2;
        } else {
          assert t[i - 1] == t[j - 1];
          var e :| multiset(t)[e] > 1;
          assert multiset(ids)[e] > 1;
        }
      }
    }
  }

  /** Reordering a sequence keeps it free of repeats. */
  lemma PermutationKeepsDistinct(a: seq<Id>, b: seq<Id>)
    requires multiset(a) == multiset(b) && Distinct(a)
    ensures Distinct(b)
  {
    DistinctByCount(a);
    DistinctByCount(b);
  }

  // ---------------------------------------------------------------------------------------
  // The lottery's outcome
  // ---------------------------------------------------------------------------------------

  /** Draw `i` (from 0) is an official place among the first three. */
  function KindOf(i: nat): (k: string)
    ensures k == Officiel || k == Suppleant
  {
    if i < OfficialPlaces then Officiel else Suppleant
  }

  /** The first `n` rows the insertion loop adds, keys taken from `nextId` on. */
  function Batch(nextId: Id, sessionId: Id, shuffled: seq<Id>, at: Instant, n: nat): (r: seq<SelectionResult>)
    requires n <= |shuffled|
    ensures |r| == n
  {
    seq(n, i requires 0 <= i < n => SelectionResult(nextId + i, sessionId, shuffled[i], KindOf(i), i + 1, at))
  }

  /** Each pass of the insertion loop adds the next row of the batch. */
  lemma BatchStep(nextId: Id, sessionId: Id, shuffled: seq<Id>, at: Instant, n: nat)
    requires n < |shuffled|
    ensures Batch(nextId, sessionId, shuffled, at, n + 1)
      == Batch(nextId, sessionId, shuffled, at, n) + [SelectionResult(nextId + n, sessionId, shuffled[n], KindOf(n), n + 1, at)]
  {
  }

  /** The results table after the lottery for `sessionId` drew `shuffled`. */
  function Generate(results: seq<SelectionResult>, nextId: Id, sessionId: Id, shuffled: seq<Id>, at: Instant)
    : seq<SelectionResult>
  {
    WhereNot(results, ResultSession, sessionId) + Batch(nextId, sessionId, shuffled, at, Min(Places, |shuffled|))
  }

  /** The selection of one session, as `getResultatSelectionsBySession` reads it. */
  function SessionResults(results: seq<SelectionResult>, sessionId: Id): seq<SelectionResult> {
    Where(results, ResultSession, sessionId)
  }

  /** After the lottery, the session's selection is exactly the new draw: the old one is gone. */
  lemma GeneratedSelection(results: seq<SelectionResult>, nextId: Id, sessionId: Id, shuffled: seq<Id>, at: Instant)
    ensures SessionResults(Generate(results, nextId, sessionId, shuffled, at), sessionId)
      == Batch(nextId, sessionId, shuffled, at, Min(Places, |shuffled|))
  {
    var kept := WhereNot(results, ResultSession, sessionId);
    var batch := Batch(nextId, sessionId, shuffled, at, Min(Places, |shuffled|));
    WhereAppend(kept, batch, ResultSession, sessionId);
    WhereEmpty(kept, ResultSession, sessionId);
    WhereAll(batch, ResultSession, sessionId);
  }

  /**
   * The session gets min(7, N) places for N candidates, ranked 1, 2, ... in draw order with no
   * rank skipped or repeated, all stamped with the one date of the draw.
   */
  lemma GeneratedRanks(results: seq<SelectionResult>, nextId: Id, sessionId: Id, shuffled: seq<Id>, at: Instant)
    ensures var rows := SessionResults(Generate(results, nextId, sessionId, shuffled, at), sessionId);
      && |rows| == Min(Places, |shuffled|)
      && (forall i :: 0 <= i < |rows| ==> rows[i].rank == i + 1 && rows[i].date == at)
  {
    GeneratedSelection(results, nextId, sessionId, shuffled, at);
  }

  /**
   * Drawn from a reordering of the session's candidates, the lottery fills min(7, N) places for
   * the N candidates, ranked 1 to min(7, N).
   */
  lemma GeneratedPlaces(
    inscriptions: seq<Inscription>, results: seq<SelectionResult>, nextId: Id, sessionId: Id,
    shuffled: seq<Id>, at: Instant)
    requires multiset(shuffled) == multiset(Candidates(inscriptions, sessionId))
    ensures var rows := SessionResults(Generate(results, nextId, sessionId, shuffled, at), sessionId);
      && |rows| == Min(Places, |Candidates(inscriptions, sessionId)|)
      && (forall i :: 0 <= i < |rows| ==> rows[i].rank == i + 1)
  {
    GeneratedRanks(results, nextId, sessionId, shuffled, at);
    PermutationLength(shuffled, Candidates(inscriptions, sessionId));
  }

  /** A place is official exactly when its rank is 1, 2 or 3, and a substitute place otherwise. */
  lemma GeneratedKinds(results: seq<SelectionResult>, nextId: Id, sessionId: Id, shuffled: seq<Id>, at: Instant)
    ensures forall x :: x in SessionResults(Generate(results, nextId, sessionId, shuffled, at), sessionId) ==>
      && (x.kind == Officiel <==> 1 <= x.rank <= 3)
      && (x.kind == Suppleant <==> 4 <= x.rank <= 7)
  {
    GeneratedSelection(results, nextId, sessionId, shuffled, at);
  }

  /**
   * The winners are candidates of the session, and, when nobody is registered twice for it, no
   * employee wins two places.
   */
  lemma GeneratedWinners(
    inscriptions: seq<Inscription>, results: seq<SelectionResult>, nextId: Id, sessionId: Id,
    shuffled: seq<Id>, at: Instant)
    requires multiset(shuffled) == multiset(Candidates(inscriptions, sessionId))
    ensures var rows := SessionResults(Generate(results, nextId, sessionId, shuffled, at), sessionId);
      forall x :: x in rows ==> x.employeeId in Candidates(inscriptions, sessionId)
    ensures var rows := SessionResults(Generate(results, nextId, sessionId, shuffled, at), sessionId);
      Inscriptions.PairsUnique(inscriptions) ==>
        forall i, j :: 0 <= i < j < |rows| ==> rows[i].employeeId != rows[j].employeeId
  {
    GeneratedSelection(results, nextId, sessionId, shuffled, at);
    var rows := SessionResults(Generate(results, nextId, sessionId, shuffled, at), sessionId);
    forall x | x in rows ensures x.employeeId in Candidates(inscriptions, sessionId) {
      var k :| 0 <= k < |rows| && rows[k] == x;
      assert x.employeeId == shuffled[k];
      assert shuffled[k] in multiset(shuffled);
    }
    if Inscriptions.PairsUnique(inscriptions) {
      CandidatesDistinct(inscriptions, sessionId);
      PermutationKeepsDistinct(Candidates(inscriptions, sessionId), shuffled);
    }
  }

  /** The lottery of one session leaves every other session's selection as it was. */
  lemma GenerateKeepsOtherSessions(
    results: seq<SelectionResult>, nextId: Id, sessionId: Id, shuffled: seq<Id>, at: Instant, other: Id)
    requires other != sessionId
    ensures SessionResults(Generate(results, nextId, sessionId, shuffled, at), other) == SessionResults(results, other)
  {
    var kept := WhereNot(results, ResultSession, sessionId);
    var batch := Batch(nextId, sessionId, shuffled, at, Min(Places, |shuffled|));
    WhereAppend(kept, batch, ResultSession, other);
    WhereEmpty(batch, ResultSession, other);
    WhereAfterWhereNot(results, ResultSession, sessionId, other);
  }

  // ---------------------------------------------------------------------------------------
  // One employee per session in the results
  // ---------------------------------------------------------------------------------------

  predicate DifferentPair(a: SelectionResult, b: SelectionResult) {
    !(a.sessionId == b.sessionId && a.employeeId == b.employeeId)
  }

  /** `SELECT 1 FROM resultat_selection WHERE session_id = $1 AND employee_id = $2`. */
  predicate AlreadySelectedFor(results: seq<SelectionResult>, sessionId: Id, employeeId: Id) {
    exists i :: 0 <= i < |results| && results[i].sessionId == sessionId && results[i].employeeId == employeeId
  }

  /** No employee holds two places in one session's selection. */
  ghost predicate SelectedOnce(results: seq<SelectionResult>) {
    Pairwise(results, DifferentPair)
  }

  /** When the candidates are distinct, a lottery keeps every employee to one place per session. */
  lemma GenerateKeepsSelectedOnce(
    inscriptions: seq<Inscription>, results: seq<SelectionResult>, nextId: Id, sessionId: Id,
    shuffled: seq<Id>, at: Instant)
    requires SelectedOnce(results) && Inscriptions.PairsUnique(inscriptions)
    requires multiset(shuffled) == multiset(Candidates(inscriptions, sessionId))
    ensures SelectedOnce(Generate(results, nextId, sessionId, shuffled, at))
  {
    var kept := WhereNot(results, ResultSession, sessionId);
    var batch := Batch(nextId, sessionId, shuffled, at, Min(Places, |shuffled|));
    DeleteKeepsPairwise(results, DifferentPair, ResultSession, sessionId);
    CandidatesDistinct(inscriptions, sessionId);
    PermutationKeepsDistinct(Candidates(inscriptions, sessionId), shuffled);
    assert Pairwise(batch, DifferentPair) by {
      forall i, j | 0 <= i < j < |batch| ensures DifferentPair(batch[i], batch[j]) {
        assert batch[i].employeeId == shuffled[i] && batch[j].employeeId == shuffled[j];
      }
    }
    PairwiseAppend(kept, batch, DifferentPair);
  }

  /** A result the duplicate query lets through keeps every employee to one place per session. */
  lemma CreateKeepsSelectedOnce(results: seq<SelectionResult>, row: SelectionResult)
    requires SelectedOnce(results) && !AlreadySelectedFor(results, row.sessionId, row.employeeId)
    ensures SelectedOnce(results + [row])
  {
    forall x | x in results ensures DifferentPair(x, row) {
      var k :| 0 <= k < |results| && results[k] == x;
    }
    PairwiseAppend(results, [row], DifferentPair);
  }

  // ---------------------------------------------------------------------------------------
  // generateSelectionForSession
  // ---------------------------------------------------------------------------------------

  /** Reordering keeps the length. */
  lemma PermutationLength(a: seq<Id>, b: seq<Id>)
    requires multiset(a) == multiset(b)
    ensures |a| == |b|
  {
    assert |multiset(a)| == |multiset(b)|;
  }

  /** The insertion loop: rows 1 to `n` of the draw, each with the next key. */
  method InsertDraw(db: Database, sessionId: Id, shuffled: seq<Id>, n: nat, now: Instant)
    requires db.Valid() && n <= |shuffled|
    modifies db`results, db`nextResultId
    ensures db.Valid()
    ensures db.results == old(db.results) + Batch(old(db.nextResultId), sessionId, shuffled, now, n)
    ensures db.nextResultId == old(db.nextResultId) + n
  {
    var firstId := db.nextResultId;
    var i := 0;
    while i < n
      invariant 0 <= i <= n
      invariant db.results == old(db.results) + Batch(firstId, sessionId, shuffled, now, i)
      invariant db.nextResultId == firstId + i
      invariant db.Valid()
    {
      var kind := if i < OfficialPlaces then Officiel else Suppleant;
      var row := SelectionResult(db.nextResultId, sessionId, shuffled[i], kind, i + 1, now);
      BatchStep(firstId, sessionId, shuffled, now, i);
      InsertKeepsKeys(db.results, ResultKey, db.nextResultId, row);
      db.results := db.results + [row];
      db.nextResultId := db.nextResultId + 1;
      i := i + 1;
    }
  }

  /**
   * `shuffled` is the order `sort(() => Math.random() - 0.5)` left the candidates in: some
   * reordering of them, which the caller supplies. `now` is the draw's `new Date()`.
   */
  method GenerateSelectionForSession(db: Database, sessionId: Id, shuffled: seq<Id>, now: Instant)
    returns (resp: Response)
    requires db.Valid()
    requires multiset(shuffled) == multiset(Candidates(db.inscriptions, sessionId))
    modifies db`results, db`nextResultId
    ensures db.Valid()
    ensures resp ==
      if |Candidates(db.inscriptions, sessionId)| < MinCandidates then BadRequest(TooFewCandidates) else Created
    ensures resp == Created ==>
      && db.results == Generate(old(db.results), old(db.nextResultId), sessionId, shuffled, now)
      && db.nextResultId == old(db.nextResultId) + Min(Places, |shuffled|)
    ensures resp != Created ==> db.results == old(db.results) && db.nextResultId == old(db.nextResultId)
  {
    var candidates := Candidates(db.inscriptions, sessionId);
    if |candidates| < MinCandidates {
      return BadRequest(TooFewCandidates);
    }
    PermutationLength(shuffled, candidates);
    DeleteKeepsKeys(db.results, ResultKey, db.nextResultId, ResultSession, sessionId);
    db.results := WhereNot(db.results, ResultSession, sessionId);
    InsertDraw(db, sessionId, shuffled, Min(Places, |shuffled|), now);
    resp := Created;
  }

  // ---------------------------------------------------------------------------------------
  // createResultatSelection
  // ---------------------------------------------------------------------------------------

  /** The body of a manual entry; `0`, `""` and `None` are absent fields. */
  datatype SelectionRequest = SelectionRequest(
    sessionId: Id, employeeId: Id, kind: string, rank: int, date: Option<Instant>)

  predicate Complete(req: SelectionRequest) {
    req.sessionId != 0 && req.employeeId != 0 && req.kind != "" && req.rank != 0 && req.date.Some?
  }

  function RowOf(id: Id, req: SelectionRequest): SelectionResult
    requires req.date.Some?
  {
    SelectionResult(id, req.sessionId, req.employeeId, req.kind, req.rank, req.date.value)
  }

  /** The checks in the handler's order, on the tables before the insert; `Created` lets it through. */
  function CreateOutcome(
    employees: seq<Employee>, sessions: seq<Session>, results: seq<SelectionResult>, req: SelectionRequest)
    : (r: Response)
    ensures r == Created <==>
      && Complete(req) && (req.kind == Officiel || req.kind == Suppleant)
      && Has(sessions, SessionKey, req.sessionId) && Has(employees, EmployeeKey, req.employeeId)
      && !AlreadySelectedFor(results, req.sessionId, req.employeeId)
    ensures r != Created ==> r.BadRequest? || r == Conflict(AlreadySelected)
    ensures r == Conflict(AlreadySelected) <==>
      && Complete(req) && req.kind in [Officiel, Suppleant]
      && Has(sessions, SessionKey, req.sessionId) && Has(employees, EmployeeKey, req.employeeId)
      && AlreadySelectedFor(results, req.sessionId, req.employeeId)
  {
    if !Complete(req) then BadRequest(MissingFields)
    else if req.kind !in [Officiel, Suppleant] then BadRequest(InvalidType)
    else if !Has(sessions, SessionKey, req.sessionId) then BadRequest(InvalidReference(SessionTable))
    else if !Has(employees, EmployeeKey, req.employeeId) then BadRequest(InvalidReference(EmployeeTable))
    else if AlreadySelectedFor(results, req.sessionId, req.employeeId) then Conflict(AlreadySelected)
    else Created
  }

  /**
   * A manual entry checks neither the rank against the kind nor the seven places: an official
   * place at rank 9 is accepted, which the lottery never produces.
   */
  lemma ManualEntryIgnoresRank()
    ensures var employees := [Employee(1, "Benali", "Amina", "amina@naftal.dz", "h", "0550000000", "AB123456",
                                       "DG", "RH", "employee", true, None, None, None, None)];
      var sessions := [Session(1, "Juillet", Date(2025, 7, 1), Date(2025, 7, 10), 1, 1)];
      var req := SelectionRequest(1, 1, Officiel, 9, Some(0));
      CreateOutcome(employees, sessions, [], req) == Created && !(1 <= req.rank <= 3)
  {
    var employees := [Employee(1, "Benali", "Amina", "amina@naftal.dz", "h", "0550000000", "AB123456",
                               "DG", "RH", "employee", true, None, None, None, None)];
    var sessions := [Session(1, "Juillet", Date(2025, 7, 1), Date(2025, 7, 10), 1, 1)];
    assert SessionKey(sessions[0]) == 1 && EmployeeKey(employees[0]) == 1;
  }

  method CreateSelectionResult(db: Database, req: SelectionRequest) returns (resp: Response)
    requires db.Valid()
    modifies db`results, db`nextResultId
    ensures db.Valid()
    ensures resp == CreateOutcome(db.employees, db.sessions, old(db.results), req)
    ensures resp == Created ==>
      db.results == old(db.results) + [RowOf(old(db.nextResultId), req)] && db.nextResultId == old(db.nextResultId) + 1
    ensures resp != Created ==> db.results == old(db.results) && db.nextResultId == old(db.nextResultId)
    ensures SelectedOnce(old(db.results)) ==> SelectedOnce(db.results)
  {
    if !Complete(req) {
      return BadRequest(MissingFields);
    }
    if req.kind !in [Officiel, Suppleant] {
      return BadRequest(InvalidType);
    }
    if !Has(db.sessions, SessionKey, req.sessionId) {
      return BadRequest(InvalidReference(SessionTable));
    }
    if !Has(db.employees, EmployeeKey, req.employeeId) {
      return BadRequest(InvalidReference(EmployeeTable));
    }
    if AlreadySelectedFor(db.results, req.sessionId, req.employeeId) {
      return Conflict(AlreadySelected);
    }
    var row := RowOf(db.nextResultId, req);
    InsertKeepsKeys(db.results, ResultKey, db.nextResultId, row);
    if SelectedOnce(db.results) {
      CreateKeepsSelectedOnce(db.results, row);
    }
    db.results := db.results + [row];
    db.nextResultId := db.nextResultId + 1;
    resp := Created;
  }
}
