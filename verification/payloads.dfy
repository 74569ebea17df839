/** The update payloads the prompt flow assembles: each field takes the new
    answer when it is truthy and otherwise falls back to a value read from
    the row the user picked ("blank keeps the old value"). */
module Payloads {
  import opened Nullable
  import opened Js
  import opened Schema
  import opened Reads
  import opened Columns
  import opened QueryText
  import opened Statements
  import Writes

  // ------------------------------------------------------------ departments

  /** `{id: response.department_id, name: answer ? answer : thisDepartment.name}`. */
  function DepartmentPayload(chosen: Value, answer: Value, current: DepartmentRow): (d: DepartmentData)
    ensures d.id == chosen
    ensures Truthy(answer) ==> d.name == answer
    ensures !Truthy(answer) ==> d.name == DepartmentField(current, "name")
  {
    DepartmentData(chosen, OrElse(answer, DepartmentField(current, "name")))
  }

  /** A blank name writes the picked department's own name back: the
      statement matches its row and leaves the store as it was. */
  lemma BlankDepartmentNameKeepsStore(s: Store, k: int, answer: Value, nextId: int)
    requires WellFormed(s)
    requires 0 <= k < |s.departments|
    requires !Truthy(answer)
    ensures var current := Reads.ReadDepartments(s, true)[k];
            Execute(s, UpdateDepartment(DepartmentPayload(DepartmentField(current, "id"), answer, current)), nextId)
            == Ok((s, 1))
  {
    var d := s.departments[k];
    UpdateDepartmentStatement(s, d.id, d.name, nextId);
    Writes.UpdateDepartmentUnchanged(s, k);
  }

  /** A non-empty name renames the picked department. */
  lemma DepartmentNameApplied(s: Store, k: int, name: string, nextId: int)
    requires 0 <= k < |s.departments|
    requires name != ""
    ensures var current := Reads.ReadDepartments(s, true)[k];
            Execute(s, UpdateDepartment(DepartmentPayload(DepartmentField(current, "id"), Str(name), current)), nextId)
            == Ok(Writes.UpdateDepartment(s, s.departments[k].id, name))
  {
    UpdateDepartmentStatement(s, s.departments[k].id, name, nextId);
  }

  // ------------------------------------------------------------ employees

  /** The four answers of the employee update prompt. */
  datatype EmployeeAnswers = EmployeeAnswers(firstName: Value, lastName: Value, roleId: Value, managerId: Value)

  /** The employee payload as the flow builds it. The fallbacks for role and
      manager read `role_id` and `manager_id` from a `readEmployees(true)`
      row, which selects neither, so they are `undefined`. */
  function EmployeePayload(chosen: Value, a: EmployeeAnswers, current: EmployeeRow): (d: EmployeeData)
    ensures d.employeeId == chosen
    ensures Truthy(a.firstName) ==> d.firstName == a.firstName
    ensures Truthy(a.lastName) ==> d.lastName == a.lastName
    ensures Truthy(a.roleId) ==> d.roleId == a.roleId
    ensures Truthy(a.managerId) ==> d.managerId == a.managerId
    ensures !Truthy(a.firstName) ==> d.firstName == Str(current.firstName)
    ensures !Truthy(a.lastName) ==> d.lastName == Str(current.lastName)
    ensures !Truthy(a.roleId) ==> d.roleId == Undefined
    ensures !Truthy(a.managerId) ==> d.managerId == Undefined
  {
    UnselectedColumns(current, RoleRow(None, None, None, "", 0));
    EmployeeData(chosen,
                 OrElse(a.firstName, EmployeeField(current, "First Name")),
                 OrElse(a.lastName, EmployeeField(current, "Last Name")),
                 OrElse(a.roleId, EmployeeField(current, "role_id")),
                 OrElse(a.managerId, EmployeeField(current, "manager_id")))
  }

  /** Picking `(None)` does not send `null`: the answer falls back to the
      missing `manager_id` property, and `undefined` is bound as NULL, so
      the manager is cleared all the same. Blank names keep the names shown
      in the picked row. (A role id of 0 would be falsy and fall back too.) */
  lemma NoManagerClearsManager(s: Store, id: int, current: EmployeeRow, roleId: int, nextId: int)
    requires roleId != 0
    ensures var d := EmployeePayload(Num(id), EmployeeAnswers(Str(""), Str(""), Num(roleId), Null), current);
            && d.managerId == Undefined
            && Execute(s, UpdateEmployee(d), nextId)
               == Ok(Writes.UpdateEmployee(s, id, current.firstName, current.lastName, roleId, None))
  {
    var d := EmployeePayload(Num(id), EmployeeAnswers(Str(""), Str(""), Num(roleId), Null), current);
    assert d == EmployeeData(Num(id), Str(current.firstName), Str(current.lastName), Num(roleId), Undefined);
    NoDeleteText(SetEmployee);
    WriteTextsDistinct();
  }

  // ------------------------------------------------------------ roles

  /** The three answers of the role update prompt; the salary is typed text. */
  datatype RoleAnswers = RoleAnswers(title: Value, salary: Value, departmentId: Value)

  /** The role payload as the flow builds it. A blank salary falls back to
      the row's `Salary` column, which is the formatted text `$x,xxx.00`; the
      department falls back to `department_id`, which `readRoles(true)` does
      not select (it calls it `DepartmentId`), so it is `undefined`. */
  function RolePayloadAsWritten(chosen: Value, a: RoleAnswers, current: RoleRow): (d: RoleData)
    ensures d.id == chosen
    ensures Truthy(a.title) ==> d.title == a.title
    ensures Truthy(a.salary) ==> d.salary == a.salary
    ensures Truthy(a.departmentId) ==> d.departmentId == a.departmentId
    ensures !Truthy(a.title) ==> d.title == Str(current.title)
    ensures !Truthy(a.salary) ==> d.salary == Str(Money(current.salary))
    ensures !Truthy(a.departmentId) ==> d.departmentId == Undefined
  {
    UnselectedColumns(EmployeeRow(None, "", "", None, None, None, None), current);
    RoleData(chosen,
             OrElse(a.title, RoleField(current, "Title")),
             OrElse(a.salary, RoleField(current, "Salary")),
             OrElse(a.departmentId, RoleField(current, "department_id")))
  }

  /** Leaving the salary blank does not keep it: the formatted text is not
      an integer, so the store rejects the statement, whatever the row and
      the other answers. */
  lemma BlankSalaryRejected(s: Store, chosen: Value, a: RoleAnswers, current: RoleRow, nextId: int)
    requires !Truthy(a.salary)
    ensures Execute(s, UpdateRole(RolePayloadAsWritten(chosen, a, current)), nextId) == Err(BadValue("salary"))
  {
    var d := RolePayloadAsWritten(chosen, a, current);
    MoneyIsNoInt(current.salary);
    assert RequiredText("title", d.title).Ok?;
    NoDeleteText(SetRole);
    WriteTextsDistinct();
  }

  /** The role payload with its fallbacks taken from the stored role: a
      blank answer keeps that column's stored value. */
  function RolePayload(chosen: Value, a: RoleAnswers, current: Role): (d: RoleData)
    ensures d.id == chosen
    ensures Truthy(a.title) ==> d.title == a.title
    ensures Truthy(a.salary) ==> d.salary == a.salary
    ensures Truthy(a.departmentId) ==> d.departmentId == a.departmentId
    ensures !Truthy(a.title) ==> d.title == Str(current.title)
    ensures !Truthy(a.salary) ==> d.salary == Num(current.salary)
    ensures !Truthy(a.departmentId) ==> d.departmentId == Num(current.departmentId)
  {
    RoleData(chosen,
             OrElse(a.title, Str(current.title)),
             OrElse(a.salary, Num(current.salary)),
             OrElse(a.departmentId, Num(current.departmentId)))
  }

  /** With the stored fallbacks, a blank title and salary keep their stored
      values. The department is a list answer, so it is a department id: a
      picked id is stored, and a falsy one (none, or an id of 0) keeps the
      stored department. With nothing changed, the store stays as it was. */
  lemma BlankRoleAnswersKeepStore(s: Store, k: int, a: RoleAnswers, nextId: int)
    requires WellFormed(s)
    requires 0 <= k < |s.roles|
    requires !Truthy(a.title) && !Truthy(a.salary)
    requires Truthy(a.departmentId) ==> a.departmentId.Num?
    ensures var r := s.roles[k];
            Execute(s, UpdateRole(RolePayload(Num(r.id), a, r)), nextId)
            == Ok(Writes.UpdateRole(s, r.id, r.title, r.salary,
                                    if Truthy(a.departmentId) then a.departmentId.n else r.departmentId))
    ensures !Truthy(a.departmentId) ==> Execute(s, UpdateRole(RolePayload(Num(s.roles[k].id), a, s.roles[k])), nextId) == Ok((s, 1))
  {
    var r := s.roles[k];
    var dId := if Truthy(a.departmentId) then a.departmentId.n else r.departmentId;
    assert RolePayload(Num(r.id), a, r) == RoleData(Num(r.id), Str(r.title), Num(r.salary), Num(dId));
    UpdateRoleStatement(s, r.id, r.title, r.salary, dId, nextId);
    Writes.UpdateRoleUnchanged(s, k);
  }

  /** A typed salary is read as decimal text: entering the digits of `n`
      stores `n`, the blank title keeps its value, and the department is the
      picked id, or the stored one when the answer is falsy. */
  lemma TypedSalaryApplied(s: Store, k: int, n: int, department: Value, nextId: int)
    requires WellFormed(s)
    requires 0 <= k < |s.roles|
    requires Truthy(department) ==> department.Num?
    ensures var r := s.roles[k];
            Execute(s, UpdateRole(RolePayload(Num(r.id), RoleAnswers(Str(""), Str(IntToText(n)), department), r)), nextId)
            == Ok(Writes.UpdateRole(s, r.id, r.title, n, if Truthy(department) then department.n else r.departmentId))
  {
    var r := s.roles[k];
    var dId := if Truthy(department) then department.n else r.departmentId;
    assert IntToText(n) != "" by {
      if n < 0 { } else { assert |NatToText(n)| > 0; }
    }
    assert RolePayload(Num(r.id), RoleAnswers(Str(""), Str(IntToText(n)), department), r)
        == RoleData(Num(r.id), Str(r.title), Str(IntToText(n)), Num(dId));
    DecimalSalaryStatement(s, r.id, r.title, n, dId, nextId);
  }

  /** An update whose salary is bound as the decimal text of `n` stores `n`. */
  lemma DecimalSalaryStatement(s: Store, id: int, title: string, n: int, departmentId: int, nextId: int)
    ensures Execute(s, UpdateRole(RoleData(Num(id), Str(title), Str(IntToText(n)), Num(departmentId))), nextId)
         == Ok(Writes.UpdateRole(s, id, title, n, departmentId))
  {
    IntTextRoundTrip(n);
    NoDeleteText(SetRole);
    WriteTextsDistinct();
  }
}
