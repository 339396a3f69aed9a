/**
 * src/controllers/destinationController.js: destinations, their allowed types and the
 * case-insensitive uniqueness of their names on create.
 */
module Destinations {
  import opened Tables
  import opened Http
  import opened Db

  /** `allowedTypes`. */
  const AllowedTypes: seq<string> := ["externe", "naftal_interne"]

  /** The body of a create or update request; `""` and `0` are absent fields. */
  datatype DestinationRequest = DestinationRequest(
    nom: string, localisation: string, capacite: int, kind: string, description: string)

  predicate Complete(req: DestinationRequest) {
    req.nom != "" && req.localisation != "" && req.capacite != 0 && req.kind != "" && req.description != ""
  }

  /** Every field present (a capacity of 0 counts as absent), then the type in `allowedTypes`. */
  function RequestError(req: DestinationRequest): (r: Option<Response>)
    ensures r.None? <==> Complete(req) && (req.kind == "externe" || req.kind == "naftal_interne")
    ensures r.Some? ==> Code(r.value) == 400
    ensures req.capacite == 0 ==> r == Some(BadRequest(MissingFields))
  {
    if !Complete(req) then Some(BadRequest(MissingFields))
    else if req.kind !in AllowedTypes then Some(BadRequest(InvalidType))
    else None
  }

  function RowOf(id: Id, req: DestinationRequest): Destination {
    Destination(id, req.nom, req.localisation, req.capacite, req.kind, req.description)
  }

  // ---------------------------------------------------------------------------------------
  // LOWER(nom) = LOWER($1)
  // ---------------------------------------------------------------------------------------

  /** PostgreSQL's `LOWER` on one character, for ASCII and Latin-1 letters. */
  function LowerChar(c: char): (l: char)
    ensures 'A' <= c <= 'Z' ==> 'a' <= l <= 'z'
  {
    if 'A' <= c <= 'Z' || ('\U{00C0}' <= c <= '\U{00DE}' && c != '\U{00D7}') then
      (c as int + 32) as char
    else c
  }

  function Lower(s: string): (r: string)
    ensures |r| == |s|
    ensures forall i :: 0 <= i < |s| ==> r[i] == LowerChar(s[i])
  {
    seq(|s|, i requires 0 <= i < |s| => LowerChar(s[i]))
  }

  /** Lowering twice is lowering once. */
  lemma LowerIdempotent(s: string)
    ensures Lower(Lower(s)) == Lower(s)
  {
    var l := Lower(s);
    assert forall i :: 0 <= i < |s| ==> LowerChar(l[i]) == l[i];
  }

  /** The name-clash query: some destination's name equals `nom`, ignoring case. */
  predicate NameTaken(destinations: seq<Destination>, nom: string) {
    exists i :: 0 <= i < |destinations| && Lower(destinations[i].nom) == Lower(nom)
  }

  /** No two destinations have names equal ignoring case. */
  predicate NamesDistinct(destinations: seq<Destination>) {
    forall i, j :: 0 <= i < j < |destinations| ==> Lower(destinations[i].nom) != Lower(destinations[j].nom)
  }

  /** A name clashes exactly when its lower-case form does: the test ignores case. */
  lemma NameTakenIgnoresCase(destinations: seq<Destination>, nom: string)
    ensures NameTaken(destinations, nom) <==> NameTaken(destinations, Lower(nom))
  {
    LowerIdempotent(nom);
  }

  /** A destination the name query lets through keeps the names distinct. */
  lemma CreateKeepsNamesDistinct(destinations: seq<Destination>, row: Destination)
    requires NamesDistinct(destinations) && !NameTaken(destinations, row.nom)
    ensures NamesDistinct(destinations + [row])
  {
    var r := destinations + [row];
    forall i, j | 0 <= i < j < |r| ensures Lower(r[i].nom) != Lower(r[j].nom) {
      assert r[i] == destinations[i];
      if j < |destinations| {
        assert r[j] == destinations[j];
      }
    }
  }

  /** `updateDestination` has no name test: renaming onto another name in other case is accepted. */
  lemma UpdateCanBreakNamesDistinct()
    ensures var before := [Destination(1, "Oran", "Oran", 20, "externe", "Plage"),
                           Destination(2, "Tlemcen", "Tlemcen", 20, "externe", "Montagne")];
      var after := SetWhere(before, DestinationKey, 2, Destination(2, "ORAN", "Tlemcen", 20, "externe", "Montagne"));
      NamesDistinct(before) && !NamesDistinct(after)
  {
    var before := [Destination(1, "Oran", "Oran", 20, "externe", "Plage"),
                   Destination(2, "Tlemcen", "Tlemcen", 20, "externe", "Montagne")];
    var after := SetWhere(before, DestinationKey, 2, Destination(2, "ORAN", "Tlemcen", 20, "externe", "Montagne"));
    assert Lower("Oran")[0] == 'o' && Lower("Tlemcen")[0] == 't';
    assert Lower("Oran") == Lower("ORAN");
    assert after[0] == before[0] && after[1].nom == "ORAN";
  }

  // ---------------------------------------------------------------------------------------
  // createDestination, updateDestination, deleteDestination
  // ---------------------------------------------------------------------------------------

  method CreateDestination(db: Database, req: DestinationRequest) returns (resp: Response)
    requires db.Valid()
    modifies db`destinations, db`nextDestinationId
    ensures db.Valid()
    ensures RequestError(req).Some? ==> Some(resp) == RequestError(req)
    ensures RequestError(req).None? ==>
      resp == (if NameTaken(old(db.destinations), req.nom) then Conflict(DestinationName) else Created)
    ensures resp == Created ==>
      && db.destinations == old(db.destinations) + [RowOf(old(db.nextDestinationId), req)]
      && db.nextDestinationId == old(db.nextDestinationId) + 1
    ensures resp != Created ==>
      db.destinations == old(db.destinations) && db.nextDestinationId == old(db.nextDestinationId)
    ensures NamesDistinct(old(db.destinations)) ==> NamesDistinct(db.destinations)
  {
    var error := RequestError(req);
    if error.Some? {
      return error.value;
    }
    if NameTaken(db.destinations, req.nom) {
      return Conflict(DestinationName);
    }
    var row := RowOf(db.nextDestinationId, req);
    InsertKeepsKeys(db.destinations, DestinationKey, db.nextDestinationId, row);
    if NamesDistinct(db.destinations) {
      CreateKeepsNamesDistinct(db.destinations, row);
    }
    db.destinations := db.destinations + [row];
    db.nextDestinationId := db.nextDestinationId + 1;
    resp := Created;
  }

  method UpdateDestination(db: Database, id: Id, req: DestinationRequest) returns (resp: Response)
    requires db.Valid()
    modifies db`destinations
    ensures db.Valid()
    ensures RequestError(req).Some? ==> Some(resp) == RequestError(req)
    ensures RequestError(req).None? ==>
      resp == (if Has(old(db.destinations), DestinationKey, id) then Ok else NotFound(DestinationTable))
    ensures resp == Ok ==> db.destinations == SetWhere(old(db.destinations), DestinationKey, id, RowOf(id, req))
    ensures resp != Ok ==> db.destinations == old(db.destinations)
  {
    var error := RequestError(req);
    if error.Some? {
      return error.value;
    }
    if !Has(db.destinations, DestinationKey, id) {
      return NotFound(DestinationTable);
    }
    UpdateKeepsKeys(db.destinations, DestinationKey, db.nextDestinationId, id, RowOf(id, req));
    db.destinations := SetWhere(db.destinations, DestinationKey, id, RowOf(id, req));
    resp := Ok;
  }

  method DeleteDestination(db: Database, id: Id) returns (resp: Response)
    requires db.Valid()
    modifies db`destinations
    ensures db.Valid()
    ensures resp == (if Has(old(db.destinations), DestinationKey, id) then Ok else NotFound(DestinationTable))
    ensures db.destinations == WhereNot(old(db.destinations), DestinationKey, id)
  {
    if !Has(db.destinations, DestinationKey, id) {
      WhereNotKeepsAll(db.destinations, DestinationKey, id);
      return NotFound(DestinationTable);
    }
    DeleteKeepsKeys(db.destinations, DestinationKey, db.nextDestinationId, DestinationKey, id);
    db.destinations := WhereNot(db.destinations, DestinationKey, id);
    resp := Ok;
  }
}
