/**
 * src/controllers/sessionController.js: sessions at a destination within a period, and the
 * rule that two sessions at one destination may not share a day.
 */
module Sessions {
  import opened Tables
  import opened Calendar
  import opened Http
  import opened Db

  /** The body of a create or update request; `None`, `""` and `0` are absent fields. */
  datatype SessionRequest = SessionRequest(
    nom: string,
    debut: Option<ValidDate>,
    fin: Option<ValidDate>,
    destinationId: Id,
    periodeId: Id)

  predicate Complete(req: SessionRequest) {
    req.nom != "" && req.debut.Some? && req.fin.Some? && req.destinationId != 0 && req.periodeId != 0
  }

  /**
   * Every field present, then `new Date(date_debut) >= new Date(date_fin)` refused. The period
   * handlers apply the same rule to their own columns (`Periodes.RequestError`); the two are kept
   * apart because each handler defines it on its own request and may change independently.
   */
  function RequestError(req: SessionRequest): (r: Option<Response>)
    ensures r.None? <==> Complete(req) && Before(req.debut.value, req.fin.value)
    ensures r.Some? ==> Code(r.value) == 400
    ensures !Complete(req) ==> r == Some(BadRequest(MissingFields))
  {
    if !Complete(req) then Some(BadRequest(MissingFields))
    else
      MidnightOrder(req.debut.value, req.fin.value);
      if Midnight(req.debut.value) >= Midnight(req.fin.value) then Some(BadRequest(InvalidDateOrder))
      else None
  }

  function RowOf(id: Id, req: SessionRequest): Session
    requires Complete(req)
  {
    Session(id, req.nom, req.debut.value, req.fin.value, req.destinationId, req.periodeId)
  }

  // ---------------------------------------------------------------------------------------
  // The overlap rule
  // ---------------------------------------------------------------------------------------

  /** `destination_id = $1 AND NOT ($3 < date_debut OR $2 > date_fin)` for an existing session `s`. */
  predicate Overlaps(s: Session, destinationId: Id, debut: ValidDate, fin: ValidDate) {
    s.destinationId == destinationId && !(Before(fin, s.debut) || Before(s.fin, debut))
  }

  /** The overlap query returns a row. */
  predicate Conflicts(sessions: seq<Session>, destinationId: Id, debut: ValidDate, fin: ValidDate) {
    exists i :: 0 <= i < |sessions| && Overlaps(sessions[i], destinationId, debut, fin)
  }

  /** `b` would have been refused had `a` been in the table when `b` was created. */
  predicate Clash(a: Session, b: Session) {
    Overlaps(a, b.destinationId, b.debut, b.fin)
  }

  /** No two sessions at one destination share a day. */
  predicate NonOverlapping(sessions: seq<Session>) {
    forall i, j :: 0 <= i < j < |sessions| ==> !Clash(sessions[i], sessions[j])
  }

  /** The query's test is the intersection of the closed intervals [debut, fin], endpoints included. */
  lemma OverlapsIff(s: Session, destinationId: Id, debut: ValidDate, fin: ValidDate)
    ensures Overlaps(s, destinationId, debut, fin) <==>
      s.destinationId == destinationId && OnOrBefore(s.debut, fin) && OnOrBefore(debut, s.fin)
  {
  }

  /** Sessions that only share their first or last day overlap. */
  lemma SharedEndpointOverlaps(s: Session, debut: ValidDate, fin: ValidDate)
    requires OnOrBefore(debut, fin) && OnOrBefore(s.debut, s.fin)
    requires fin == s.debut || debut == s.fin
    ensures Overlaps(s, s.destinationId, debut, fin)
  {
  }

  /** Sessions at different destinations never conflict, whatever their dates. */
  lemma OtherDestinationNeverConflicts(sessions: seq<Session>, destinationId: Id, debut: ValidDate, fin: ValidDate)
    requires forall i :: 0 <= i < |sessions| ==> sessions[i].destinationId != destinationId
    ensures !Conflicts(sessions, destinationId, debut, fin)
  {
  }

  /** The test does not depend on which of the two sessions was created first. */
  lemma ClashSymmetric(a: Session, b: Session)
    ensures Clash(a, b) <==> Clash(b, a)
  {
  }

  /** A session the overlap query lets through keeps the destinations free of double bookings. */
  lemma CreateKeepsNonOverlapping(sessions: seq<Session>, row: Session)
    requires NonOverlapping(sessions)
    requires !Conflicts(sessions, row.destinationId, row.debut, row.fin)
    ensures NonOverlapping(sessions + [row])
  {
    var r := sessions + [row];
    forall i, j | 0 <= i < j < |r| ensures !Clash(r[i], r[j]) {
      if j == |sessions| {
        assert r[j] == row && r[i] == sessions[i];
      } else {
        assert r[i] == sessions[i] && r[j] == sessions[j];
      }
    }
  }

  /** `updateSession` has no overlap test: moving a session onto another's dates is accepted. */
  lemma UpdateCanBreakNonOverlapping()
    ensures var d1, d2, d3, d4 := Date(2025, 7, 1), Date(2025, 7, 10), Date(2025, 8, 1), Date(2025, 8, 10);
      var before := [Session(1, "A", d1, d2, 1, 1), Session(2, "B", d3, d4, 1, 1)];
      var after := SetWhere(before, SessionKey, 2, Session(2, "B", d1, d2, 1, 1));
      NonOverlapping(before) && !NonOverlapping(after)
  {
    var d1, d2, d3, d4 := Date(2025, 7, 1), Date(2025, 7, 10), Date(2025, 8, 1), Date(2025, 8, 10);
    var before := [Session(1, "A", d1, d2, 1, 1), Session(2, "B", d3, d4, 1, 1)];
    var after := SetWhere(before, SessionKey, 2, Session(2, "B", d1, d2, 1, 1));
    assert after[0] == before[0];
    assert after[1] == Session(2, "B", d1, d2, 1, 1);
    assert Clash(after[0], after[1]);
  }

  // ---------------------------------------------------------------------------------------
  // createSession, updateSession, deleteSession
  // ---------------------------------------------------------------------------------------

  method CreateSession(db: Database, req: SessionRequest) returns (resp: Response)
    requires db.Valid()
    modifies db`sessions, db`nextSessionId
    ensures db.Valid()
    ensures RequestError(req).Some? ==> Some(resp) == RequestError(req)
    ensures RequestError(req).None? ==>
      resp == (if !Has(db.destinations, DestinationKey, req.destinationId) then BadRequest(InvalidReference(DestinationTable))
        else if !Has(db.periodes, PeriodeKey, req.periodeId) then BadRequest(InvalidReference(PeriodeTable))
        else if Conflicts(old(db.sessions), req.destinationId, req.debut.value, req.fin.value) then Conflict(SessionOverlap)
        else Created)
    ensures resp == Created ==>
      db.sessions == old(db.sessions) + [RowOf(old(db.nextSessionId), req)] && db.nextSessionId == old(db.nextSessionId) + 1
    ensures resp != Created ==> db.sessions == old(db.sessions) && db.nextSessionId == old(db.nextSessionId)
    ensures NonOverlapping(old(db.sessions)) ==> NonOverlapping(db.sessions)
  {
    var error := RequestError(req);
    if error.Some? {
      return error.value;
    }
    if !Has(db.destinations, DestinationKey, req.destinationId) {
      return BadRequest(InvalidReference(DestinationTable));
    }
    if !Has(db.periodes, PeriodeKey, req.periodeId) {
      return BadRequest(InvalidReference(PeriodeTable));
    }
    if Conflicts(db.sessions, req.destinationId, req.debut.value, req.fin.value) {
      return Conflict(SessionOverlap);
    }
    var row := RowOf(db.nextSessionId, req);
    InsertKeepsKeys(db.sessions, SessionKey, db.nextSessionId, row);
    if NonOverlapping(db.sessions) {
      CreateKeepsNonOverlapping(db.sessions, row);
    }
    db.sessions := db.sessions + [row];
    db.nextSessionId := db.nextSessionId + 1;
    resp := Created;
  }

  method UpdateSession(db: Database, id: Id, req: SessionRequest) returns (resp: Response)
    requires db.Valid()
    modifies db`sessions
    ensures db.Valid()
    ensures RequestError(req).Some? ==> Some(resp) == RequestError(req)
    ensures RequestError(req).None? ==>
      resp == (if !Has(db.destinations, DestinationKey, req.destinationId) then BadRequest(InvalidReference(DestinationTable))
        else if !Has(db.periodes, PeriodeKey, req.periodeId) then BadRequest(InvalidReference(PeriodeTable))
        else if !Has(old(db.sessions), SessionKey, id) then NotFound(SessionTable)
        else Ok)
    ensures resp == Ok ==> db.sessions == SetWhere(old(db.sessions), SessionKey, id, RowOf(id, req))
    ensures resp != Ok ==> db.sessions == old(db.sessions)
  {
    var error := RequestError(req);
    if error.Some? {
      return error.value;
    }
    if !Has(db.destinations, DestinationKey, req.destinationId) {
      return BadRequest(InvalidReference(DestinationTable));
    }
    if !Has(db.periodes, PeriodeKey, req.periodeId) {
      return BadRequest(InvalidReference(PeriodeTable));
    }
    if !Has(db.sessions, SessionKey, id) {
      return NotFound(SessionTable);
    }
    UpdateKeepsKeys(db.sessions, SessionKey, db.nextSessionId, id, RowOf(id, req));
    db.sessions := SetWhere(db.sessions, SessionKey, id, RowOf(id, req));
    resp := Ok;
  }

  method DeleteSession(db: Database, id: Id) returns (resp: Response)
    requires db.Valid()
    modifies db`sessions
    ensures db.Valid()
    ensures resp == (if Has(old(db.sessions), SessionKey, id) then Ok else NotFound(SessionTable))
    ensures db.sessions == WhereNot(old(db.sessions), SessionKey, id)
  {
    if !Has(db.sessions, SessionKey, id) {
      WhereNotKeepsAll(db.sessions, SessionKey, id);
      return NotFound(SessionTable);
    }
    DeleteKeepsKeys(db.sessions, SessionKey, db.nextSessionId, SessionKey, id);
    db.sessions := WhereNot(db.sessions, SessionKey, id);
    resp := Ok;
  }
}
