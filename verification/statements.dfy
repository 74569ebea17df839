/** What the store does with the statements the `Db` write methods send:
    the driver binds each parameter to its `?` in order, and the store
    converts the bound value to the column's type. */
module Statements {
  import opened Nullable
  import opened Js
  import opened Text
  import opened Schema
  import opened QueryText
  import QueryParse
  import Writes
  import opened Columns

  // ------------------------------------------------------------ binding

  /** A bound value read as a nullable integer column. `null` and
      `undefined` are both bound as NULL; a string must be decimal integer
      text, anything else is rejected. */
  function IntOf(column: string, v: Value): (r: Result<Option<int>>)
    ensures v.Num? ==> r == Ok(Some(v.n))
    ensures v.Null? || v.Undefined? ==> r == Ok(None)
  {
    match v
    case Null => Ok(None)
    case Undefined => Ok(None)
    case Num(n) => Ok(Some(n))
    case Str(t) =>
      match ParseInt(t)
      case Some(n) => Ok(Some(n))
      case None => Err(BadValue(column))
  }

  /** A bound value read as a nullable text column. */
  function TextOf(v: Value): (r: Option<string>)
    ensures v.Str? ==> r == Some(v.s)
    ensures r.None? <==> v.Null? || v.Undefined?
  {
    match v
    case Null => None
    case Undefined => None
    case Num(n) => Some(IntToText(n))
    case Str(t) => Some(t)
  }

  /** A column of the model's store that cannot hold NULL. */
  function Required<T>(column: string, x: Option<T>): (r: Result<T>)
    ensures r.Ok? <==> x.Some?
    ensures r.Ok? ==> r.value == x.value
  {
    match x
    case Some(v) => Ok(v)
    case None => Err(BadValue(column))
  }

  function RequiredInt(column: string, v: Value): (r: Result<int>)
    ensures v.Num? ==> r == Ok(v.n)
    ensures v.Null? || v.Undefined? ==> r.Err?
  {
    match IntOf(column, v)
    case Err(f) => Err(f)
    case Ok(x) => Required(column, x)
  }

  function RequiredText(column: string, v: Value): (r: Result<string>)
    ensures v.Str? ==> r == Ok(v.s)
    ensures v.Null? || v.Undefined? ==> r.Err?
  {
    Required(column, TextOf(v))
  }

  // ------------------------------------------------------------ statements

  /** Running one write statement: the new store and the number of rows it
      touched. `nextId` is the id the table's auto-increment would hand an
      inserted row. `WHERE id = NULL` matches no row. */
  function Execute(s: Store, q: Query, nextId: int): Result<(Store, nat)> {
    var p := q.params;
    var deleted := QueryParse.ParseDelete(q.text);
    if deleted.Some? then
      var table := deleted.value;
      if |p| != 1 then Err(Unrecognised)
      else if table !in {"departments", "roles", "employees"} then Err(UnknownTable(table))
      else
        match IntOf("id", p[0])
        case Err(f) => Err(f)
        case Ok(id) => if id.None? then Ok((s, 0)) else Writes.Delete(s, table, id.value)
    else
      if q.text == InsertDepartment && |p| == 1 then
        match RequiredText("name", p[0])
        case Err(f) => Err(f)
        case Ok(name) =>
          if !Writes.Unused(s.departments, DepartmentKey, nextId) then Err(DuplicateKey("departments"))
          else Ok((Writes.CreateDepartment(s, name, nextId), 1))
      else if q.text == InsertRole && |p| == 3 then
        match (RequiredText("title", p[0]), RequiredInt("salary", p[1]), RequiredInt("department_id", p[2]))
        case (Ok(title), Ok(salary), Ok(departmentId)) =>
          if !Writes.Unused(s.roles, RoleKey, nextId) then Err(DuplicateKey("roles"))
          else Ok((Writes.CreateRole(s, title, salary, departmentId, nextId), 1))
        case (Err(f), _, _) => Err(f)
        case (_, Err(f), _) => Err(f)
        case (_, _, Err(f)) => Err(f)
      else if q.text == InsertEmployee && |p| == 4 then
        match (RequiredText("first_name", p[0]), RequiredText("last_name", p[1]),
               RequiredInt("role_id", p[2]), IntOf("manager_id", p[3]))
        case (Ok(first), Ok(last), Ok(roleId), Ok(managerId)) =>
          if !Writes.Unused(s.employees, EmployeeKey, nextId) then Err(DuplicateKey("employees"))
          else Ok((Writes.CreateEmployee(s, first, last, roleId, managerId, nextId), 1))
        case (Err(f), _, _, _) => Err(f)
        case (_, Err(f), _, _) => Err(f)
        case (_, _, Err(f), _) => Err(f)
        case (_, _, _, Err(f)) => Err(f)
      else if q.text == SetDepartment && |p| == 2 then
        match (RequiredText("name", p[0]), IntOf("id", p[1]))
        case (Ok(name), Ok(id)) =>
          if id.None? then Ok((s, 0)) else Ok(Writes.UpdateDepartment(s, id.value, name))
        case (Err(f), _) => Err(f)
        case (_, Err(f)) => Err(f)
      else if q.text == SetRole && |p| == 4 then
        match (RequiredText("title", p[0]), RequiredInt("salary", p[1]), RequiredInt("department_id", p[2]),
               IntOf("id", p[3]))
        case (Ok(title), Ok(salary), Ok(departmentId), Ok(id)) =>
          if id.None? then Ok((s, 0)) else Ok(Writes.UpdateRole(s, id.value, title, salary, departmentId))
        case (Err(f), _, _, _) => Err(f)
        case (_, Err(f), _, _) => Err(f)
        case (_, _, Err(f), _) => Err(f)
        case (_, _, _, Err(f)) => Err(f)
      else if q.text == SetEmployee && |p| == 5 then
        match (RequiredText("first_name", p[0]), RequiredText("last_name", p[1]),
               RequiredInt("role_id", p[2]), IntOf("manager_id", p[3]), IntOf("id", p[4]))
        case (Ok(first), Ok(last), Ok(roleId), Ok(managerId), Ok(id)) =>
          if id.None? then Ok((s, 0))
          else Ok(Writes.UpdateEmployee(s, id.value, first, last, roleId, managerId))
        case (Err(f), _, _, _, _) => Err(f)
        case (_, Err(f), _, _, _) => Err(f)
        case (_, _, Err(f), _, _) => Err(f)
        case (_, _, _, Err(f), _) => Err(f)
        case (_, _, _, _, Err(f)) => Err(f)
      else Err(Unrecognised)
  }

  // ------------------------------------------------------------ the builders' statements

  /** The write texts start with `INSERT` or `UPDATE`, never `DELETE FROM`. */
  lemma NoDeleteText(text: string)
    requires text in {InsertDepartment, InsertRole, InsertEmployee, SetDepartment, SetRole, SetEmployee}
    ensures QueryParse.ParseDelete(text) == None
  {
    assert DeleteFrom[0] == 'D';
    assert InsertDepartment[0] == 'I' && InsertRole[0] == 'I' && InsertEmployee[0] == 'I';
    assert SetDepartment[0] == 'U' && SetRole[0] == 'U' && SetEmployee[0] == 'U';
    MismatchAt(text, DeleteFrom, 0);
  }

  /** The six write texts are told apart by their first word and table. */
  lemma WriteTextsDistinct()
    ensures InsertRole != InsertDepartment
    ensures InsertEmployee != InsertDepartment && InsertEmployee != InsertRole
    ensures SetDepartment !in {InsertDepartment, InsertRole, InsertEmployee}
    ensures SetRole !in {InsertDepartment, InsertRole, InsertEmployee, SetDepartment}
    ensures SetEmployee !in {InsertDepartment, InsertRole, InsertEmployee, SetDepartment, SetRole}
  {
    InsertTablesDiffer();
    UpdateTablesDiffer();
    InsertsAreNoUpdates();
  }

  lemma InsertTablesDiffer()
    ensures InsertRole != InsertDepartment
    ensures InsertEmployee != InsertDepartment && InsertEmployee != InsertRole
  {
    assert InsertDepartment[13] == 'd' && InsertRole[13] == 'r' && InsertEmployee[13] == 'e';
  }

  lemma UpdateTablesDiffer()
    ensures SetRole != SetDepartment
    ensures SetEmployee != SetDepartment && SetEmployee != SetRole
  {
    assert SetDepartment[8] == 'd' && SetRole[8] == 'r' && SetEmployee[8] == 'e';
  }

  lemma InsertsAreNoUpdates()
    ensures SetDepartment !in {InsertDepartment, InsertRole, InsertEmployee}
    ensures SetRole !in {InsertDepartment, InsertRole, InsertEmployee}
    ensures SetEmployee !in {InsertDepartment, InsertRole, InsertEmployee}
  {
    assert SetDepartment[0] == 'U' && SetRole[0] == 'U' && SetEmployee[0] == 'U';
    assert InsertDepartment[0] == 'I' && InsertRole[0] == 'I' && InsertEmployee[0] == 'I';
  }

  /** `createDepartment({name})` inserts one department under the next id. */
  lemma CreateDepartmentStatement(s: Store, name: string, nextId: int)
    requires Writes.Unused(s.departments, DepartmentKey, nextId)
    ensures Execute(s, CreateDepartment(DepartmentData(Undefined, Str(name))), nextId)
         == Ok((Writes.CreateDepartment(s, name, nextId), 1))
  {
    NoDeleteText(InsertDepartment);
  }

  /** `createRole(data)` binds title, salary and department in that order. */
  lemma CreateRoleStatement(s: Store, title: string, salary: int, departmentId: int, nextId: int)
    requires Writes.Unused(s.roles, RoleKey, nextId)
    ensures Execute(s, CreateRole(RoleData(Undefined, Str(title), Num(salary), Num(departmentId))), nextId)
         == Ok((Writes.CreateRole(s, title, salary, departmentId, nextId), 1))
  {
    NoDeleteText(InsertRole);
    WriteTextsDistinct();
  }

  /** `createEmployee(data)` binds the two names, the role and the manager in
      that order; the `(None)` answer `null` leaves the manager NULL. */
  lemma CreateEmployeeStatement(s: Store, first: string, last: string, roleId: int, managerId: Option<int>,
                                nextId: int)
    requires Writes.Unused(s.employees, EmployeeKey, nextId)
    ensures Execute(s, CreateEmployee(EmployeeData(Undefined, Str(first), Str(last), Num(roleId),
                                                   NullableNum(managerId))), nextId)
         == Ok((Writes.CreateEmployee(s, first, last, roleId, managerId, nextId), 1))
  {
    NoDeleteText(InsertEmployee);
    WriteTextsDistinct();
  }

  /** `updateDepartment({id, name})`: the name fills the first placeholder
      and the id the second. */
  lemma UpdateDepartmentStatement(s: Store, id: int, name: string, nextId: int)
    ensures Execute(s, UpdateDepartment(DepartmentData(Num(id), Str(name))), nextId)
         == Ok(Writes.UpdateDepartment(s, id, name))
  {
    NoDeleteText(SetDepartment);
    WriteTextsDistinct();
  }

  /** `updateRole(data)`: title, salary and department, then the id. */
  lemma UpdateRoleStatement(s: Store, id: int, title: string, salary: int, departmentId: int, nextId: int)
    ensures Execute(s, UpdateRole(RoleData(Num(id), Str(title), Num(salary), Num(departmentId))), nextId)
         == Ok(Writes.UpdateRole(s, id, title, salary, departmentId))
  {
    NoDeleteText(SetRole);
    WriteTextsDistinct();
  }

  /** `updateEmployee(data)`: the two names, role and manager, then
      `employee_id`. */
  lemma UpdateEmployeeStatement(s: Store, id: int, first: string, last: string, roleId: int,
                                managerId: Option<int>, nextId: int)
    ensures Execute(s, UpdateEmployee(EmployeeData(Num(id), Str(first), Str(last), Num(roleId),
                                                   NullableNum(managerId))), nextId)
         == Ok(Writes.UpdateEmployee(s, id, first, last, roleId, managerId))
  {
    NoDeleteText(SetEmployee);
    WriteTextsDistinct();
  }

  /** `delete(table, id)` removes the row with that id from a table of the
      schema, and is rejected for any other table name. */
  lemma DeleteStatement(s: Store, table: string, id: int, nextId: int)
    ensures table in {"departments", "roles", "employees"} ==>
              Execute(s, Delete(table, Num(id)), nextId) == Writes.Delete(s, table, id)
    ensures table !in {"departments", "roles", "employees"} ==>
              Execute(s, Delete(table, Num(id)), nextId) == Err(UnknownTable(table))
  {
    QueryParse.DeleteRoundTrip(table, Num(id));
  }
}
