/**
 * src/controllers/employeeController.js: updating and deleting employees, with email and
 * matricule unique across employees other than the one being updated.
 */
module Employees {
  import opened Tables
  import opened Http
  import opened Db

  /** The body of an update request; `""` is an absent field. */
  datatype EmployeeRequest = EmployeeRequest(
    nom: string, prenom: string, email: string, password: string,
    telephone: string, matricule: string, structure: string)

  /** What `RETURNING id, nom, prénom, email, téléphone, matricule, structure` sends back. */
  datatype EmployeeView = EmployeeView(
    id: Id, nom: string, prenom: string, email: string,
    telephone: string, matricule: string, structure: string)

  predicate Complete(req: EmployeeRequest) {
    && req.nom != "" && req.prenom != "" && req.email != "" && req.password != ""
    && req.telephone != "" && req.matricule != "" && req.structure != ""
  }

  function ViewOf(e: Employee): (v: EmployeeView)
    ensures v.id == e.id && v.email == e.email && v.matricule == e.matricule
  {
    EmployeeView(e.id, e.nom, e.prenom, e.email, e.telephone, e.matricule, e.structure)
  }

  /**
   * The reply is determined by the seven columns of the `RETURNING` list and by nothing else: two
   * rows give the same reply exactly when they agree on those columns, whatever their password
   * hash, department, role, verification flag, tokens and expiries.
   */
  lemma ViewHidesSecrets(e: Employee, other: Employee)
    ensures ViewOf(other) == ViewOf(e) <==>
      && other.id == e.id && other.nom == e.nom && other.prenom == e.prenom && other.email == e.email
      && other.telephone == e.telephone && other.matricule == e.matricule && other.structure == e.structure
  {
  }

  /** `SELECT 1 FROM employee WHERE email = $1 AND id != $2`. */
  predicate EmailUsedByOther(employees: seq<Employee>, email: string, id: Id) {
    exists i :: 0 <= i < |employees| && employees[i].email == email && employees[i].id != id
  }

  /** `SELECT 1 FROM employee WHERE matricule = $1 AND id != $2`. */
  predicate MatriculeUsedByOther(employees: seq<Employee>, matricule: string, id: Id) {
    exists i :: 0 <= i < |employees| && employees[i].matricule == matricule && employees[i].id != id
  }

  /** No two employees share an email, and no two share a matricule. */
  predicate ContactsUnique(employees: seq<Employee>) {
    forall i, j :: 0 <= i < j < |employees| ==>
      employees[i].email != employees[j].email && employees[i].matricule != employees[j].matricule
  }

  /** `WHERE id = $8`. */
  function IsEmployee(id: Id): Employee -> bool {
    (e: Employee) => e.id == id
  }

  /** The columns `updateEmployee` sets; the password column gets the hash. */
  function Overwrite(req: EmployeeRequest, hashed: string): Employee -> Employee {
    (e: Employee) => e.(nom := req.nom, prenom := req.prenom, email := req.email, password := hashed,
                          telephone := req.telephone, matricule := req.matricule, structure := req.structure)
  }

  /** The table after a successful update of employee `id`. */
  function Updated(employees: seq<Employee>, id: Id, req: EmployeeRequest, hashed: string): (r: seq<Employee>)
    ensures |r| == |employees|
    ensures forall i :: 0 <= i < |r| ==> r[i].id == employees[i].id
    ensures forall i :: 0 <= i < |r| && employees[i].id != id ==> r[i] == employees[i]
    ensures forall i :: 0 <= i < |r| && employees[i].id == id ==>
      r[i].email == req.email && r[i].matricule == req.matricule && r[i].password == hashed
  {
    UpdateIf(employees, IsEmployee(id), Overwrite(req, hashed))
  }

  /**
   * The update's uniqueness tests exclude the row itself, which is why they are enough: an update
   * they let through keeps emails and matricules unique.
   */
  lemma UpdateKeepsContactsUnique(employees: seq<Employee>, id: Id, req: EmployeeRequest, hashed: string)
    requires KeysDistinct(employees, EmployeeKey) && ContactsUnique(employees)
    requires !EmailUsedByOther(employees, req.email, id)
    requires !MatriculeUsedByOther(employees, req.matricule, id)
    ensures ContactsUnique(Updated(employees, id, req, hashed))
  {
    var r := Updated(employees, id, req, hashed);
    forall i, j | 0 <= i < j < |r|
      ensures r[i].email != r[j].email && r[i].matricule != r[j].matricule
    {
      assert EmployeeKey(employees[i]) != EmployeeKey(employees[j]);
      if employees[i].id == id {
        assert r[j] == employees[j];
      } else if employees[j].id == id {
        assert r[i] == employees[i];
      }
    }
  }

  /** Saving an employee's own email and matricule again is never a conflict. */
  lemma ResaveOwnContacts(employees: seq<Employee>, k: nat)
    requires k < |employees| && ContactsUnique(employees)
    ensures !EmailUsedByOther(employees, employees[k].email, employees[k].id)
    ensures !MatriculeUsedByOther(employees, employees[k].matricule, employees[k].id)
  {
    forall i | 0 <= i < |employees| && i != k
      ensures employees[i].email != employees[k].email && employees[i].matricule != employees[k].matricule
    {
      if i < k {
        assert employees[i].email != employees[k].email;
      } else {
        assert employees[k].email != employees[i].email;
      }
    }
  }

  // ---------------------------------------------------------------------------------------
  // updateEmployee, deleteEmployee
  // ---------------------------------------------------------------------------------------

  /** `hash` is bcrypt's hash of a password, taken as a function of the password. */
  method UpdateEmployee(db: Database, id: Id, req: EmployeeRequest, hash: string -> string)
    returns (resp: Response, view: Option<EmployeeView>)
    requires db.Valid()
    modifies db`employees
    ensures db.Valid()
    ensures resp ==
      if !Complete(req) then BadRequest(MissingFields)
      else if EmailUsedByOther(old(db.employees), req.email, id) then Conflict(EmailInUse)
      else if MatriculeUsedByOther(old(db.employees), req.matricule, id) then Conflict(MatriculeInUse)
      else if !Has(old(db.employees), EmployeeKey, id) then NotFound(EmployeeTable)
      else Ok
    ensures resp == Ok ==> db.employees == Updated(old(db.employees), id, req, hash(req.password))
    ensures resp != Ok ==> db.employees == old(db.employees)
    ensures view.Some? <==> resp == Ok
    ensures view.Some? ==> exists e :: e in db.employees && e.id == id && view.value == ViewOf(e)
    ensures ContactsUnique(old(db.employees)) ==> ContactsUnique(db.employees)
  {
    view := None;
    if !Complete(req) {
      return BadRequest(MissingFields), view;
    }
    if EmailUsedByOther(db.employees, req.email, id) {
      return Conflict(EmailInUse), view;
    }
    if MatriculeUsedByOther(db.employees, req.matricule, id) {
      return Conflict(MatriculeInUse), view;
    }
    var hashed := hash(req.password);
    if !Has(db.employees, EmployeeKey, id) {
      return NotFound(EmployeeTable), view;
    }
    var k :| 0 <= k < |db.employees| && EmployeeKey(db.employees[k]) == id;
    Rewrite(db, id, req, hashed);
    view := Some(ViewOf(db.employees[k]));
    resp := Ok;
  }

  /** `UPDATE employee SET ... WHERE id = $8` once the uniqueness queries have passed. */
  method Rewrite(db: Database, id: Id, req: EmployeeRequest, hashed: string)
    requires db.Valid()
    requires !EmailUsedByOther(db.employees, req.email, id) && !MatriculeUsedByOther(db.employees, req.matricule, id)
    modifies db`employees
    ensures db.Valid()
    ensures db.employees == Updated(old(db.employees), id, req, hashed)
    ensures ContactsUnique(old(db.employees)) ==> ContactsUnique(db.employees)
  {
    UpdateIfKeepsKeys(db.employees, EmployeeKey, db.nextEmployeeId, IsEmployee(id), Overwrite(req, hashed));
    if ContactsUnique(db.employees) {
      UpdateKeepsContactsUnique(db.employees, id, req, hashed);
    }
    db.employees := Updated(db.employees, id, req, hashed);
  }

  /** `DELETE ... RETURNING *`: the removed row, password hash included, is sent back. */
  method DeleteEmployee(db: Database, id: Id) returns (resp: Response, deleted: Option<Employee>)
    requires db.Valid()
    modifies db`employees
    ensures db.Valid()
    ensures resp == (if Has(old(db.employees), EmployeeKey, id) then Ok else NotFound(EmployeeTable))
    ensures db.employees == WhereNot(old(db.employees), EmployeeKey, id)
    ensures deleted.Some? <==> resp == Ok
    ensures deleted.Some? ==> deleted.value in old(db.employees) && deleted.value.id == id
  {
    deleted := First(db.employees, EmployeeKey, id);
    if deleted.None? {
      WhereNotKeepsAll(db.employees, EmployeeKey, id);
      return NotFound(EmployeeTable), deleted;
    }
    DeleteKeepsKeys(db.employees, EmployeeKey, db.nextEmployeeId, EmployeeKey, id);
    db.employees := WhereNot(db.employees, EmployeeKey, id);
    resp := Ok;
  }
}
