/** Result rows as the prompt flow sees them: JavaScript objects whose
    property names are the column labels of the select list (the alias, or
    the bare column name). Reading a column the query did not select gives
    `undefined`. */
module Columns {
  import opened Nullable
  import opened Js
  import opened Reads

  function NullableText(x: Option<string>): (v: Value)
    ensures x.None? ==> v == Null
    ensures x.Some? ==> v == Str(x.value)
  {
    if x.Some? then Str(x.value) else Null
  }

  function NullableNum(x: Option<int>): (v: Value)
    ensures x.None? ==> v == Null
    ensures x.Some? ==> v == Num(x.value)
  {
    if x.Some? then Num(x.value) else Null
  }

  /** A `CONCAT('$', FORMAT(salary, 2))` column: NULL stays NULL. */
  function NullableMoney(x: Option<int>): (v: Value)
    ensures x.None? ==> v == Null
    ensures x.Some? ==> v == Str(Money(x.value))
  {
    if x.Some? then Str(Money(x.value)) else Null
  }

  /** A row of `readEmployees`: `id` only when selected, the manager-side
      labels only with manager info. */
  function EmployeeField(r: EmployeeRow, column: string): Value {
    if column == "id" then (if r.id.Some? then Num(r.id.value) else Undefined)
    else if column == "First Name" then Str(r.firstName)
    else if column == "Last Name" then Str(r.lastName)
    else if column == "Department" then NullableText(r.department)
    else if column == "Role" then NullableText(r.role)
    else if column == "Salary" then NullableMoney(r.salary)
    else if r.manager.None? then Undefined
    else if column == "|" then Str("|")
    else if column == "Manager Name" then NullableText(r.manager.value.name)
    else if column == "Mgr Dept." then NullableText(r.manager.value.department)
    else if column == "Mgr Role" then NullableText(r.manager.value.role)
    else if column == "Mgr Salary" then NullableMoney(r.manager.value.salary)
    else Undefined
  }

  /** A row of `readRoles`: `RoleId` and `DepartmentId` only when ids are
      selected, which `roleId` records. */
  function RoleField(r: RoleRow, column: string): Value {
    if column == "RoleId" then (if r.roleId.Some? then Num(r.roleId.value) else Undefined)
    else if column == "DepartmentId" then (if r.roleId.Some? then NullableNum(r.departmentId) else Undefined)
    else if column == "Department" then NullableText(r.department)
    else if column == "Title" then Str(r.title)
    else if column == "Salary" then Str(Money(r.salary))
    else Undefined
  }

  /** A row of `readDepartments`: `id` and `name`, or the name alone under
      the column `All Departments:`. */
  function DepartmentField(r: DepartmentRow, column: string): Value {
    if r.id.Some? then
      if column == "id" then Num(r.id.value)
      else if column == "name" then Str(r.name)
      else Undefined
    else if column == "All Departments:" then Str(r.name)
    else Undefined
  }

  /** A row of `readManagers`: `id`, `Name` and `Department`. */
  function ManagerField(r: ManagerRow, column: string): Value {
    if column == "id" then Num(r.id)
    else if column == "Name" then Str(r.name)
    else if column == "Department" then NullableText(r.department)
    else Undefined
  }

  /** No row of `readEmployees` has a `role_id` or `manager_id` property, and
      no row of `readRoles` a `department_id` one: those columns are never
      selected under those names. */
  lemma UnselectedColumns(e: EmployeeRow, r: RoleRow)
    ensures EmployeeField(e, "role_id") == Undefined
    ensures EmployeeField(e, "manager_id") == Undefined
    ensures RoleField(r, "department_id") == Undefined
  {
  }
}
