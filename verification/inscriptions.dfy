/**
 * src/controllers/inscriptionController.js: employees' registrations for sessions, refused after
 * the registration deadline of the session's period, at most one per (employee, session) pair.
 */
module Inscriptions {
  import opened Tables
  import opened Calendar
  import opened Http
  import opened Db
  import Periodes

  // ---------------------------------------------------------------------------------------
  // The deadline gate
  // ---------------------------------------------------------------------------------------

  /** `LEFT JOIN periode p ON s.periode_id = p.id`: the deadline of session `s`, null without a period. */
  function DeadlineOf(periodes: seq<Periode>, s: Session): (r: Option<ValidDate>)
    ensures r.Some? <==> Has(periodes, PeriodeKey, s.periodeId)
    ensures r.Some? ==> exists p :: p in periodes && p.id == s.periodeId && p.deadline == r.value
  {
    match First(periodes, PeriodeKey, s.periodeId)
    case None => None
    case Some(p) => Some(p.deadline)
  }

  /** The deadline joined to session `sessionId`, null when the session or its period is missing. */
  function SessionDeadline(sessions: seq<Session>, periodes: seq<Periode>, sessionId: Id): Option<ValidDate> {
    match First(sessions, SessionKey, sessionId)
    case None => None
    case Some(s) => DeadlineOf(periodes, s)
  }

  /**
   * `deadline && now > new Date(deadline)`: a deadline exists and `now` is strictly after its
   * first instant, midnight UTC.
   */
  predicate PastDeadline(deadline: Option<ValidDate>, now: Instant) {
    deadline.Some? && now > Midnight(deadline.value)
  }

  /**
   * The session lookup and the deadline gate create and update share: 404 for an unknown
   * session, 400 when its deadline has passed, `None` when registration for it is allowed.
   */
  function SessionRefusal(sessions: seq<Session>, periodes: seq<Periode>, sessionId: Id, now: Instant)
    : (r: Option<Response>)
    ensures r.None? <==> Has(sessions, SessionKey, sessionId) && !PastDeadline(SessionDeadline(sessions, periodes, sessionId), now)
    ensures r == Some(NotFound(SessionTable)) <==> !Has(sessions, SessionKey, sessionId)
    ensures r.Some? ==> r == Some(NotFound(SessionTable)) || r == Some(BadRequest(DeadlinePassed))
  {
    if !Has(sessions, SessionKey, sessionId) then Some(NotFound(SessionTable))
    else if PastDeadline(SessionDeadline(sessions, periodes, sessionId), now) then Some(BadRequest(DeadlinePassed))
    else None
  }

  /** `SELECT s.*, p.date_limite_inscription FROM session s LEFT JOIN periode p ...`, then the gate. */
  method CheckSession(db: Database, sessionId: Id, now: Instant) returns (refusal: Option<Response>)
    ensures refusal == SessionRefusal(db.sessions, db.periodes, sessionId, now)
  {
    var session := First(db.sessions, SessionKey, sessionId);
    if session.None? {
      return Some(NotFound(SessionTable));
    }
    var deadline := DeadlineOf(db.periodes, session.value);
    if deadline.Some? && now > Midnight(deadline.value) {
      return Some(BadRequest(DeadlinePassed));
    }
    refusal := None;
  }

  /**
   * The gate is stricter than the registration window: an inscription that passes it at an
   * instant of day `today` falls on a day the window reports open.
   */
  lemma AcceptedInscriptionWithinWindow(today: ValidDate, deadline: ValidDate, now: Instant)
    requires Midnight(today) <= now < Midnight(today) + MsPerDay
    requires !PastDeadline(Some(deadline), now)
    ensures Periodes.RegistrationOpen("open", today, deadline)
  {
    Periodes.RegistrationOpenIff("open", today, deadline);
    if Before(deadline, today) {
      MidnightMono(deadline, today);
    }
  }

  /**
   * The two tests disagree on the deadline day itself: after its first millisecond the window
   * still reports open while inscriptions are refused.
   */
  lemma DeadlineDayWindowOpenGateShut(deadline: ValidDate, now: Instant)
    requires Midnight(deadline) < now < Midnight(deadline) + MsPerDay
    ensures Periodes.RegistrationOpen("open", deadline, deadline)
    ensures PastDeadline(Some(deadline), now)
  {
    Periodes.DeadlineDayOpen(deadline);
  }

  /**
   * The gate reads only the deadline, never the period's status: a session of a `closed` period
   * takes inscriptions up to the deadline while the window reports that period closed.
   */
  lemma GateIgnoresStatus(s: Session, p: Periode, today: ValidDate, now: Instant)
    requires s.periodeId == p.id && p.statut == "closed" && now <= Midnight(p.deadline)
    ensures SessionRefusal([s], [p], s.id, now) == None
    ensures Periodes.RegistrationStatus([p], p.id, today) == Some(false)
  {
    assert First([s], SessionKey, s.id) == Some(s);
    assert First([p], PeriodeKey, p.id) == Some(p);
    assert Has([s], SessionKey, s.id) by { assert SessionKey([s][0]) == s.id; }
  }

  /** A session whose period is missing joins a null deadline, so the gate never shuts for it. */
  lemma GateOpenWithoutPeriod(s: Session, now: Instant)
    ensures SessionRefusal([s], [], s.id, now) == None
  {
    assert First([s], SessionKey, s.id) == Some(s);
    assert Has([s], SessionKey, s.id) by { assert SessionKey([s][0]) == s.id; }
  }

  // ---------------------------------------------------------------------------------------
  // (employee, session) pairs
  // ---------------------------------------------------------------------------------------

  /** `SELECT id FROM inscription WHERE employee_id = $1 AND session_id = $2`. */
  predicate PairTaken(inscriptions: seq<Inscription>, employeeId: Id, sessionId: Id) {
    exists i :: 0 <= i < |inscriptions| && inscriptions[i].employeeId == employeeId && inscriptions[i].sessionId == sessionId
  }

  /** The same query with `AND id != $3`. */
  predicate PairTakenByOther(inscriptions: seq<Inscription>, employeeId: Id, sessionId: Id, id: Id) {
    exists i :: 0 <= i < |inscriptions| && inscriptions[i].employeeId == employeeId
      && inscriptions[i].sessionId == sessionId && inscriptions[i].id != id
  }

  predicate SamePair(a: Inscription, b: Inscription) {
    a.employeeId == b.employeeId && a.sessionId == b.sessionId
  }

  predicate DifferentPair(a: Inscription, b: Inscription) {
    !SamePair(a, b)
  }

  /** No employee is registered twice for one session. */
  ghost predicate PairsUnique(inscriptions: seq<Inscription>) {
    Pairwise(inscriptions, DifferentPair)
  }

  lemma CreateKeepsPairsUnique(inscriptions: seq<Inscription>, row: Inscription)
    requires PairsUnique(inscriptions) && !PairTaken(inscriptions, row.employeeId, row.sessionId)
    ensures PairsUnique(inscriptions + [row])
  {
    var r := inscriptions + [row];
    forall i, j | 0 <= i < j < |r| ensures !SamePair(r[i], r[j]) {
      assert r[i] == inscriptions[i];
      if j < |inscriptions| {
        assert r[j] == inscriptions[j];
      }
    }
  }

  /** Rewriting row `id` with a pair no other row holds keeps the pairs unique. */
  lemma UpdateKeepsPairsUnique(inscriptions: seq<Inscription>, id: Id, row: Inscription)
    requires KeysDistinct(inscriptions, InscriptionKey) && PairsUnique(inscriptions)
    requires row.id == id && !PairTakenByOther(inscriptions, row.employeeId, row.sessionId, id)
    ensures PairsUnique(SetWhere(inscriptions, InscriptionKey, id, row))
  {
    var r := SetWhere(inscriptions, InscriptionKey, id, row);
    forall i, j | 0 <= i < j < |r| ensures !SamePair(r[i], r[j]) {
      assert InscriptionKey(inscriptions[i]) != InscriptionKey(inscriptions[j]);
      if inscriptions[i].id == id {
        assert r[i] == row && r[j] == inscriptions[j];
      } else if inscriptions[j].id == id {
        assert r[j] == row && r[i] == inscriptions[i];
      }
    }
  }

  /** Rewriting row `id` with its own pair keeps the pairs unique, whatever else changes. */
  lemma SamePairUpdateKeepsPairsUnique(inscriptions: seq<Inscription>, id: Id, row: Inscription)
    requires KeysDistinct(inscriptions, InscriptionKey) && PairsUnique(inscriptions)
    requires exists k :: 0 <= k < |inscriptions| && inscriptions[k].id == id && SamePair(inscriptions[k], row)
    requires row.id == id
    ensures PairsUnique(SetWhere(inscriptions, InscriptionKey, id, row))
  {
    var k :| 0 <= k < |inscriptions| && inscriptions[k].id == id && SamePair(inscriptions[k], row);
    forall i | 0 <= i < |inscriptions| && inscriptions[i].employeeId == row.employeeId
      && inscriptions[i].sessionId == row.sessionId
      ensures inscriptions[i].id == id
    {
      if i != k {
        assert SamePair(inscriptions[i], inscriptions[k]);
        assert false;
      }
    }
    UpdateKeepsPairsUnique(inscriptions, id, row);
  }

  // ---------------------------------------------------------------------------------------
  // createInscription
  // ---------------------------------------------------------------------------------------

  /** `statut || 'active'`. */
  function StatusOrActive(statut: string): (s: string)
    ensures s != ""
    ensures statut != "" ==> s == statut
  {
    if statut == "" then "active" else statut
  }

  /** `now` is the instant of the request, `new Date()`. */
  method CreateInscription(db: Database, employeeId: Id, sessionId: Id, statut: string, now: Instant)
    returns (resp: Response)
    requires db.Valid()
    modifies db`inscriptions, db`nextInscriptionId
    ensures db.Valid()
    ensures resp ==
      if !Has(db.employees, EmployeeKey, employeeId) then NotFound(EmployeeTable)
      else if SessionRefusal(db.sessions, db.periodes, sessionId, now).Some? then
        SessionRefusal(db.sessions, db.periodes, sessionId, now).value
      else if PairTaken(old(db.inscriptions), employeeId, sessionId) then Conflict(AlreadyRegistered)
      else Created
    ensures resp == Created ==>
      && db.inscriptions == old(db.inscriptions) + [Inscription(old(db.nextInscriptionId), employeeId, sessionId, now, StatusOrActive(statut))]
      && db.nextInscriptionId == old(db.nextInscriptionId) + 1
    ensures resp != Created ==>
      db.inscriptions == old(db.inscriptions) && db.nextInscriptionId == old(db.nextInscriptionId)
    ensures PairsUnique(old(db.inscriptions)) ==> PairsUnique(db.inscriptions)
  {
    var date := now;
    if !Has(db.employees, EmployeeKey, employeeId) {
      return NotFound(EmployeeTable);
    }
    var refusal := CheckSession(db, sessionId, date);
    if refusal.Some? {
      return refusal.value;
    }
    if PairTaken(db.inscriptions, employeeId, sessionId) {
      return Conflict(AlreadyRegistered);
    }
    var row := Inscription(db.nextInscriptionId, employeeId, sessionId, date, StatusOrActive(statut));
    Insert(db, row);
    resp := Created;
  }

  /** `INSERT INTO inscription ... RETURNING *` of a row the handler has checked. */
  method Insert(db: Database, row: Inscription)
    requires db.Valid() && row.id == db.nextInscriptionId
    modifies db`inscriptions, db`nextInscriptionId
    ensures db.Valid()
    ensures db.inscriptions == old(db.inscriptions) + [row] && db.nextInscriptionId == old(db.nextInscriptionId) + 1
    ensures PairsUnique(old(db.inscriptions)) && !PairTaken(old(db.inscriptions), row.employeeId, row.sessionId) ==>
      PairsUnique(db.inscriptions)
  {
    InsertKeepsKeys(db.inscriptions, InscriptionKey, db.nextInscriptionId, row);
    if PairsUnique(db.inscriptions) && !PairTaken(db.inscriptions, row.employeeId, row.sessionId) {
      CreateKeepsPairsUnique(db.inscriptions, row);
    }
    db.inscriptions := db.inscriptions + [row];
    db.nextInscriptionId := db.nextInscriptionId + 1;
  }

  // ---------------------------------------------------------------------------------------
  // updateInscription
  // ---------------------------------------------------------------------------------------

  /** The body of an update; `0`, `None` and `""` are omitted fields, which keep their old values. */
  datatype InscriptionUpdate = InscriptionUpdate(
    employeeId: Id, sessionId: Id, date: Option<Instant>, statut: string)

  /** The row an accepted update writes over `old`. */
  function Merged(current: Inscription, req: InscriptionUpdate): (r: Inscription)
    ensures r.id == current.id
    ensures req.employeeId == 0 && req.sessionId == 0 ==> SamePair(r, current)
  {
    Inscription(
      current.id,
      if req.employeeId != 0 then req.employeeId else current.employeeId,
      if req.sessionId != 0 then req.sessionId else current.sessionId,
      if req.date.Some? then req.date.value else current.date,
      if req.statut != "" then req.statut else current.statut)
  }

  /** The outcome of an update, in the order the handler checks. */
  function UpdateOutcome(
    employees: seq<Employee>, sessions: seq<Session>, periodes: seq<Periode>, inscriptions: seq<Inscription>,
    id: Id, req: InscriptionUpdate, now: Instant): Response
  {
    match First(inscriptions, InscriptionKey, id)
    case None => NotFound(InscriptionTable)
    case Some(current) =>
      if req.employeeId != 0 && !Has(employees, EmployeeKey, req.employeeId) then NotFound(EmployeeTable)
      else if req.sessionId != 0 && SessionRefusal(sessions, periodes, req.sessionId, now).Some? then
        SessionRefusal(sessions, periodes, req.sessionId, now).value
      else
        var row := Merged(current, req);
        if (req.employeeId != 0 || req.sessionId != 0) && PairTakenByOther(inscriptions, row.employeeId, row.sessionId, id)
        then Conflict(AlreadyRegistered)
        else Ok
  }

  /**
   * Only a change of session meets the deadline gate: changing the status or date alone of an
   * existing inscription succeeds however late it is.
   */
  lemma StatusOnlyUpdateAlwaysAccepted(
    employees: seq<Employee>, sessions: seq<Session>, periodes: seq<Periode>, inscriptions: seq<Inscription>,
    id: Id, req: InscriptionUpdate, now: Instant)
    requires req.employeeId == 0 && req.sessionId == 0
    ensures UpdateOutcome(employees, sessions, periodes, inscriptions, id, req, now) ==
      if Has(inscriptions, InscriptionKey, id) then Ok else NotFound(InscriptionTable)
  {
  }

  /** An accepted update never gives a session an inscription for an unknown employee it did not have. */
  lemma UpdateChecksNewReferences(
    employees: seq<Employee>, sessions: seq<Session>, periodes: seq<Periode>, inscriptions: seq<Inscription>,
    id: Id, req: InscriptionUpdate, now: Instant)
    requires UpdateOutcome(employees, sessions, periodes, inscriptions, id, req, now) == Ok
    ensures req.employeeId != 0 ==> Has(employees, EmployeeKey, req.employeeId)
    ensures req.sessionId != 0 ==>
      Has(sessions, SessionKey, req.sessionId) && !PastDeadline(SessionDeadline(sessions, periodes, req.sessionId), now)
  {
  }

  method UpdateInscription(db: Database, id: Id, req: InscriptionUpdate, now: Instant) returns (resp: Response)
    requires db.Valid()
    modifies db`inscriptions
    ensures db.Valid()
    ensures resp == UpdateOutcome(db.employees, db.sessions, db.periodes, old(db.inscriptions), id, req, now)
    ensures resp == Ok ==>
      && Has(old(db.inscriptions), InscriptionKey, id)
      && db.inscriptions == SetWhere(old(db.inscriptions), InscriptionKey, id,
                                     Merged(First(old(db.inscriptions), InscriptionKey, id).value, req))
    ensures resp != Ok ==> db.inscriptions == old(db.inscriptions)
    ensures PairsUnique(old(db.inscriptions)) ==> PairsUnique(db.inscriptions)
  {
    var existing := First(db.inscriptions, InscriptionKey, id);
    if existing.None? {
      return NotFound(InscriptionTable);
    }
    if req.employeeId != 0 {
      if !Has(db.employees, EmployeeKey, req.employeeId) {
        return NotFound(EmployeeTable);
      }
    }
    if req.sessionId != 0 {
      var refusal := CheckSession(db, req.sessionId, now);
      if refusal.Some? {
        return refusal.value;
      }
    }
    var row := Merged(existing.value, req);
    if req.employeeId != 0 || req.sessionId != 0 {
      if PairTakenByOther(db.inscriptions, row.employeeId, row.sessionId, id) {
        return Conflict(AlreadyRegistered);
      }
    }
    Rewrite(db, existing.value, row);
    resp := Ok;
  }

  /** `UPDATE inscription SET ... WHERE id = $5` with a row the handler has checked. */
  method Rewrite(db: Database, current: Inscription, row: Inscription)
    requires db.Valid() && current in db.inscriptions && row.id == current.id
    requires SamePair(row, current) || !PairTakenByOther(db.inscriptions, row.employeeId, row.sessionId, row.id)
    modifies db`inscriptions
    ensures db.Valid()
    ensures db.inscriptions == SetWhere(old(db.inscriptions), InscriptionKey, row.id, row)
    ensures PairsUnique(old(db.inscriptions)) ==> PairsUnique(db.inscriptions)
  {
    var k :| 0 <= k < |db.inscriptions| && db.inscriptions[k] == current;
    UpdateKeepsKeys(db.inscriptions, InscriptionKey, db.nextInscriptionId, row.id, row);
    if PairsUnique(db.inscriptions) {
      if SamePair(row, current) {
        SamePairUpdateKeepsPairsUnique(db.inscriptions, row.id, row);
      } else {
        UpdateKeepsPairsUnique(db.inscriptions, row.id, row);
      }
    }
    db.inscriptions := SetWhere(db.inscriptions, InscriptionKey, row.id, row);
  }

  // ---------------------------------------------------------------------------------------
  // deleteInscription
  // ---------------------------------------------------------------------------------------

  method DeleteInscription(db: Database, id: Id, now: Instant) returns (resp: Response)
    requires db.Valid()
    modifies db`inscriptions
    ensures db.Valid()
    ensures resp ==
      match First(old(db.inscriptions), InscriptionKey, id)
      case None => NotFound(InscriptionTable)
      case Some(ins) =>
        if PastDeadline(SessionDeadline(db.sessions, db.periodes, ins.sessionId), now) then BadRequest(DeadlinePassed)
        else Ok
    ensures resp == Ok ==> db.inscriptions == WhereNot(old(db.inscriptions), InscriptionKey, id)
    ensures resp != Ok ==> db.inscriptions == old(db.inscriptions)
    ensures PairsUnique(old(db.inscriptions)) ==> PairsUnique(db.inscriptions)
  {
    var existing := First(db.inscriptions, InscriptionKey, id);
    if existing.None? {
      return NotFound(InscriptionTable);
    }
    var deadline := SessionDeadline(db.sessions, db.periodes, existing.value.sessionId);
    if deadline.Some? && now > Midnight(deadline.value) {
      return BadRequest(DeadlinePassed);
    }
    DeleteKeepsKeys(db.inscriptions, InscriptionKey, db.nextInscriptionId, InscriptionKey, id);
    DeleteKeepsPairsUnique(db.inscriptions, id);
    db.inscriptions := WhereNot(db.inscriptions, InscriptionKey, id);
    resp := Ok;
  }

  lemma DeleteKeepsPairsUnique(inscriptions: seq<Inscription>, id: Id)
    ensures PairsUnique(inscriptions) ==> PairsUnique(WhereNot(inscriptions, InscriptionKey, id))
  {
    if PairsUnique(inscriptions) {
      DeleteKeepsPairwise(inscriptions, DifferentPair, InscriptionKey, id);
    }
  }
}
