/**
 * src/controllers/periodeController.js: registration periods, the validation their create and
 * update share, and the registration-status test.
 */
module Periodes {
  import opened Tables
  import opened Calendar
  import opened Http
  import opened Db

  /** The body of a create or update request; `None` and `""` are absent fields. */
  datatype PeriodeRequest = PeriodeRequest(
    nom: string,
    debut: Option<ValidDate>,
    fin: Option<ValidDate>,
    deadline: Option<ValidDate>,
    statut: string)

  predicate Complete(req: PeriodeRequest) {
    req.nom != "" && req.debut.Some? && req.fin.Some? && req.deadline.Some? && req.statut != ""
  }

  /**
   * The checks create and update make before touching the table: every field present, then
   * `new Date(debut) >= new Date(fin)` refused. `None` when the request passes.
   */
  function RequestError(req: PeriodeRequest): (r: Option<Response>)
    ensures r.None? <==> Complete(req) && Before(req.debut.value, req.fin.value)
    ensures r.Some? ==> Code(r.value) == 400
    ensures !Complete(req) ==> r == Some(BadRequest(MissingFields))
  {
    if !Complete(req) then Some(BadRequest(MissingFields))
    else
      MidnightOrder(req.debut.value, req.fin.value);
      if Midnight(req.debut.value) >= Midnight(req.fin.value) then Some(BadRequest(InvalidDateOrder))
      else None
  }

  function RowOf(id: Id, req: PeriodeRequest): Periode
    requires Complete(req)
  {
    Periode(id, req.nom, req.debut.value, req.fin.value, req.deadline.value, req.statut)
  }

  // ---------------------------------------------------------------------------------------
  // checkRegistrationStatus
  // ---------------------------------------------------------------------------------------

  /**
   * `statut === 'open' && today <= date_limite_inscription`, both dates as `YYYY-MM-DD` strings
   * and `today` the UTC date of the request.
   */
  predicate RegistrationOpen(statut: string, today: ValidDate, deadline: ValidDate) {
    statut == "open" && JsLessEq(Iso(today), Iso(deadline))
  }

  /** The string test is the calendar test: open on every day up to and including the deadline. */
  lemma RegistrationOpenIff(statut: string, today: ValidDate, deadline: ValidDate)
    ensures RegistrationOpen(statut, today, deadline) <==> statut == "open" && OnOrBefore(today, deadline)
  {
    IsoLessEq(today, deadline);
  }

  /** The deadline day itself is still open. */
  lemma DeadlineDayOpen(deadline: ValidDate)
    ensures RegistrationOpen("open", deadline, deadline)
  {
    JsLessIrreflexive(Iso(deadline));
  }

  /** The registration status of period `id`: `None` is the 404, otherwise `isRegistrationOpen`. */
  function RegistrationStatus(periodes: seq<Periode>, id: Id, today: ValidDate): (r: Option<bool>)
    ensures r.None? <==> !Has(periodes, PeriodeKey, id)
    ensures r == Some(true) ==>
      exists p :: p in periodes && p.id == id && p.statut == "open" && OnOrBefore(today, p.deadline)
    ensures r == Some(false) ==>
      exists p :: p in periodes && p.id == id && (p.statut != "open" || Before(p.deadline, today))
  {
    match First(periodes, PeriodeKey, id)
    case None => None
    case Some(p) =>
      RegistrationOpenIff(p.statut, today, p.deadline);
      Some(RegistrationOpen(p.statut, today, p.deadline))
  }

  // ---------------------------------------------------------------------------------------
  // createPeriode, updatePeriode, deletePeriode
  // ---------------------------------------------------------------------------------------

  method CreatePeriode(db: Database, req: PeriodeRequest) returns (resp: Response)
    requires db.Valid()
    modifies db`periodes, db`nextPeriodeId
    ensures db.Valid()
    ensures resp == Created <==> RequestError(req).None?
    ensures resp != Created ==> Some(resp) == RequestError(req)
    ensures resp == Created ==>
      db.periodes == old(db.periodes) + [RowOf(old(db.nextPeriodeId), req)] && db.nextPeriodeId == old(db.nextPeriodeId) + 1
    ensures resp != Created ==> db.periodes == old(db.periodes) && db.nextPeriodeId == old(db.nextPeriodeId)
  {
    var error := RequestError(req);
    if error.Some? {
      return error.value;
    }
    var row := RowOf(db.nextPeriodeId, req);
    InsertKeepsKeys(db.periodes, PeriodeKey, db.nextPeriodeId, row);
    db.periodes := db.periodes + [row];
    db.nextPeriodeId := db.nextPeriodeId + 1;
    resp := Created;
  }

  method UpdatePeriode(db: Database, id: Id, req: PeriodeRequest) returns (resp: Response)
    requires db.Valid()
    modifies db`periodes
    ensures db.Valid()
    ensures RequestError(req).Some? ==> Some(resp) == RequestError(req)
    ensures RequestError(req).None? ==> resp == (if Has(old(db.periodes), PeriodeKey, id) then Ok else NotFound(PeriodeTable))
    ensures resp == Ok ==> db.periodes == SetWhere(old(db.periodes), PeriodeKey, id, RowOf(id, req))
    ensures resp != Ok ==> db.periodes == old(db.periodes)
  {
    var error := RequestError(req);
    if error.Some? {
      return error.value;
    }
    if !Has(db.periodes, PeriodeKey, id) {
      return NotFound(PeriodeTable);
    }
    UpdateKeepsKeys(db.periodes, PeriodeKey, db.nextPeriodeId, id, RowOf(id, req));
    db.periodes := SetWhere(db.periodes, PeriodeKey, id, RowOf(id, req));
    resp := Ok;
  }

  method DeletePeriode(db: Database, id: Id) returns (resp: Response)
    requires db.Valid()
    modifies db`periodes
    ensures db.Valid()
    ensures resp == (if Has(old(db.periodes), PeriodeKey, id) then Ok else NotFound(PeriodeTable))
    ensures db.periodes == WhereNot(old(db.periodes), PeriodeKey, id)
  {
    if !Has(db.periodes, PeriodeKey, id) {
      WhereNotKeepsAll(db.periodes, PeriodeKey, id);
      return NotFound(PeriodeTable);
    }
    DeleteKeepsKeys(db.periodes, PeriodeKey, db.nextPeriodeId, PeriodeKey, id);
    db.periodes := WhereNot(db.periodes, PeriodeKey, id);
    resp := Ok;
  }
}
