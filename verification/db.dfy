/**
 * The PostgreSQL tables the controllers read and write, one `seq` of rows per table, with the
 * SERIAL counter that gives each INSERT its `id`.
 */
module Db {
  import opened Tables
  import opened Calendar

  /** A row of `employee`. `password` holds the bcrypt hash, never the password itself. */
  datatype Employee = Employee(
    id: Id,
    nom: string,
    prenom: string,
    email: string,
    password: string,
    telephone: string,
    matricule: string,
    structure: string,
    department: string,
    role: string,
    emailVerified: bool,
    verificationToken: Option<string>,
    verificationExpires: Option<Instant>,
    resetToken: Option<string>,
    resetExpires: Option<Instant>)

  /** A row of `destination`; `kind` is the `type` column. */
  datatype Destination = Destination(
    id: Id, nom: string, localisation: string, capacite: int, kind: string, description: string)

  /** A row of `periode`: a registration period with its inscription deadline. */
  datatype Periode = Periode(
    id: Id, nom: string, debut: ValidDate, fin: ValidDate, deadline: ValidDate, statut: string)

  /** A row of `session`: a stay at a destination, within a period. */
  datatype Session = Session(
    id: Id, nom: string, debut: ValidDate, fin: ValidDate, destinationId: Id, periodeId: Id)

  /** A row of `inscription`: an employee's registration for a session. */
  datatype Inscription = Inscription(
    id: Id, employeeId: Id, sessionId: Id, date: Instant, statut: string)

  /** A row of `resultat_selection`; `kind` is `type_selection`, `rank` is `ordre_priorite`. */
  datatype SelectionResult = SelectionResult(
    id: Id, sessionId: Id, employeeId: Id, kind: string, rank: int, date: Instant)

  // Columns, as named functions so that a filter is the same term wherever it is written.

  function EmployeeKey(e: Employee): Id { e.id }
  function EmployeeEmail(e: Employee): string { e.email }
  function EmployeeMatricule(e: Employee): string { e.matricule }
  function DestinationKey(d: Destination): Id { d.id }
  function PeriodeKey(p: Periode): Id { p.id }
  function SessionKey(s: Session): Id { s.id }
  function SessionDestination(s: Session): Id { s.destinationId }
  function InscriptionKey(i: Inscription): Id { i.id }
  function InscriptionSession(i: Inscription): Id { i.sessionId }
  function ResultKey(r: SelectionResult): Id { r.id }
  function ResultSession(r: SelectionResult): Id { r.sessionId }

  class Database {
    var employees: seq<Employee>
    var destinations: seq<Destination>
    var periodes: seq<Periode>
    var sessions: seq<Session>
    var inscriptions: seq<Inscription>
    var results: seq<SelectionResult>

    var nextEmployeeId: Id
    var nextDestinationId: Id
    var nextPeriodeId: Id
    var nextSessionId: Id
    var nextInscriptionId: Id
    var nextResultId: Id

    /** Every table is keyed by its SERIAL id. */
    ghost predicate Valid()
      reads this
    {
      && WellKeyed(employees, EmployeeKey, nextEmployeeId)
      && WellKeyed(destinations, DestinationKey, nextDestinationId)
      && WellKeyed(periodes, PeriodeKey, nextPeriodeId)
      && WellKeyed(sessions, SessionKey, nextSessionId)
      && WellKeyed(inscriptions, InscriptionKey, nextInscriptionId)
      && WellKeyed(results, ResultKey, nextResultId)
    }

    /** An empty database; every SERIAL sequence starts at 1. */
    constructor ()
      ensures Valid()
      ensures employees == [] && destinations == [] && periodes == []
      ensures sessions == [] && inscriptions == [] && results == []
      ensures nextEmployeeId == 1 && nextDestinationId == 1 && nextPeriodeId == 1
      ensures nextSessionId == 1 && nextInscriptionId == 1 && nextResultId == 1
    {
      employees, destinations, periodes := [], [], [];
      sessions, inscriptions, results := [], [], [];
      nextEmployeeId, nextDestinationId, nextPeriodeId := 1, 1, 1;
      nextSessionId, nextInscriptionId, nextResultId := 1, 1, 1;
    }
  }
}
