/** What the `create*`, `update*` and `delete` methods of `Db` do to the store.

    Inserts append a row under the key the store assigns. Updates are
    `UPDATE ... SET ... WHERE id = ? LIMIT 1`: they rewrite at most one row,
    the first whose id matches. `delete` is `DELETE FROM <table> WHERE id = ?`
    without a limit. Foreign keys are not checked here (see the README). Each
    write also yields the number of rows its WHERE clause selected. */
module Writes {
  import opened Nullable
  import opened Schema
  import opened Relational
  import Reads

  // ------------------------------------------------------------ generic row updates

  /** Rewrites the first row whose key is `id` with `change`; also returns how
      many rows were rewritten. */
  function UpdateFirst<T>(rows: seq<T>, key: T -> int, id: int, change: T -> T): (r: (seq<T>, nat))
    ensures |r.0| == |rows|
    ensures r.1 == (if Find(rows, key, Some(id)).Some? then 1 else 0)
  {
    if rows == [] then ([], 0)
    else if key(rows[0]) == id then ([change(rows[0])] + rows[1..], 1)
    else
      var rest := UpdateFirst(rows[1..], key, id, change);
      ([rows[0]] + rest.0, rest.1)
  }

  /** `LIMIT 1`: row `i` is rewritten exactly when it is the first row whose
      key is `id`; every other row is kept. */
  lemma {:induction false} UpdateFirstAt<T>(rows: seq<T>, key: T -> int, id: int, change: T -> T, i: int)
    requires 0 <= i < |rows|
    ensures UpdateFirst(rows, key, id, change).0[i]
         == if key(rows[i]) == id && (forall j :: 0 <= j < i ==> key(rows[j]) != id)
            then change(rows[i]) else rows[i]
  {
    if key(rows[0]) != id && i > 0 {
      var tail := rows[1..];
      UpdateFirstAt(tail, key, id, change, i - 1);
      assert tail[i - 1] == rows[i];
      if forall j :: 0 <= j < i - 1 ==> key(tail[j]) != id {
        forall j | 0 <= j < i
          ensures key(rows[j]) != id
        {
          if j > 0 { assert rows[j] == tail[j - 1]; }
        }
      }
      if forall j :: 0 <= j < i ==> key(rows[j]) != id {
        forall j | 0 <= j < i - 1
          ensures key(tail[j]) != id
        {
          assert tail[j] == rows[j + 1];
        }
      }
    }
  }

  /** With unique keys, `LIMIT 1` makes no difference: the row with the key is
      rewritten, every other row is kept, and keys stay unique when `change`
      keeps them. */
  lemma UpdateOnKey<T>(rows: seq<T>, key: T -> int, id: int, change: T -> T)
    requires forall x :: key(change(x)) == key(x)
    ensures KeysUnique(rows, key) ==>
            var r := UpdateFirst(rows, key, id, change);
            && (forall i :: 0 <= i < |rows| ==>
                  r.0[i] == if key(rows[i]) == id then change(rows[i]) else rows[i])
            && KeysUnique(r.0, key)
  {
    if KeysUnique(rows, key) {
      UpdateOnKeyUnique(rows, key, id, change);
    }
  }

  lemma UpdateOnKeyUnique<T>(rows: seq<T>, key: T -> int, id: int, change: T -> T)
    requires KeysUnique(rows, key)
    requires forall x :: key(change(x)) == key(x)
    ensures var r := UpdateFirst(rows, key, id, change);
            && (forall i :: 0 <= i < |rows| ==>
                  r.0[i] == if key(rows[i]) == id then change(rows[i]) else rows[i])
            && KeysUnique(r.0, key)
  {
    var r := UpdateFirst(rows, key, id, change);
    forall i | 0 <= i < |rows|
      ensures r.0[i] == if key(rows[i]) == id then change(rows[i]) else rows[i]
    {
      UpdateFirstAt(rows, key, id, change, i);
      if key(rows[i]) == id {
        forall j | 0 <= j < i
          ensures key(rows[j]) != id
        {
          assert key(rows[j]) != key(rows[i]);
        }
      }
    }
    forall a, b | 0 <= a < b < |r.0|
      ensures key(r.0[a]) != key(r.0[b])
    {
      assert key(r.0[a]) == key(rows[a]) && key(r.0[b]) == key(rows[b]);
    }
  }

  /** `DELETE ... WHERE id = ?`: every row with the key goes; also returns how
      many. */
  function RemoveKey<T>(rows: seq<T>, key: T -> int, id: int): (r: (seq<T>, nat))
    ensures forall i :: 0 <= i < |r.0| ==> r.0[i] in rows && key(r.0[i]) != id
    ensures forall i :: 0 <= i < |rows| && key(rows[i]) != id ==> rows[i] in r.0
    ensures r.1 == |rows| - |r.0|
    ensures KeysUnique(rows, key) ==> KeysUnique(r.0, key)
  {
    var kept := Where(rows, (x: T) => key(x) != id);
    WhereKeepsKeysUnique(rows, key, (x: T) => key(x) != id);
    (kept, |rows| - |kept|)
  }

  /** Removing rows never breaks key uniqueness. */
  lemma {:induction false} WhereKeepsKeysUnique<T>(rows: seq<T>, key: T -> int, p: T -> bool)
    ensures KeysUnique(rows, key) ==> KeysUnique(Where(rows, p), key)
  {
    if rows != [] && KeysUnique(rows, key) {
      KeysUniqueTail(rows, key);
      WhereKeepsKeysUnique(rows[1..], key, p);
      var rest := Where(rows[1..], p);
      forall j | 0 <= j < |rest|
        ensures key(rows[0]) != key(rest[j])
      {
        var i :| 0 <= i < |rows[1..]| && rows[1..][i] == rest[j];
        assert rows[1..][i] == rows[i + 1];
      }
    }
  }

  /** With unique keys, a delete removes one row when the key exists and none
      otherwise. */
  lemma {:induction false} RemoveOnKey<T>(rows: seq<T>, key: T -> int, id: int)
    ensures KeysUnique(rows, key) ==> RemoveKey(rows, key, id).1 == if Find(rows, key, Some(id)).Some? then 1 else 0
  {
    if rows != [] && KeysUnique(rows, key) {
      KeysUniqueTail(rows, key);
      RemoveOnKey(rows[1..], key, id);
      if key(rows[0]) == id {
        forall i | 0 <= i < |rows[1..]|
          ensures Some(id) != Some(key(rows[1..][i]))
        {
          assert rows[1..][i] == rows[i + 1];
        }
      }
    }
  }

  // ------------------------------------------------------------ create

  /** The key the store assigns is not in use yet. */
  predicate Unused<T>(rows: seq<T>, key: T -> int, id: int) {
    forall i :: 0 <= i < |rows| ==> key(rows[i]) != id
  }

  lemma AppendKeepsKeysUnique<T>(rows: seq<T>, key: T -> int, x: T)
    requires Unused(rows, key, key(x))
    ensures KeysUnique(rows, key) ==> KeysUnique(rows + [x], key)
  {
  }

  /** `createDepartment({name})`, the new row keyed `id`. */
  function CreateDepartment(s: Store, name: string, id: int): (t: Store)
    requires Unused(s.departments, DepartmentKey, id)
    ensures WellFormed(s) ==> WellFormed(t)
    ensures t.roles == s.roles && t.employees == s.employees
    ensures |t.departments| == |s.departments| + 1 && t.departments[..|s.departments|] == s.departments
    ensures Find(t.departments, DepartmentKey, Some(id)) == Some(Department(id, name))
  {
    var t := s.(departments := s.departments + [Department(id, name)]);
    assert forall i :: 0 <= i < |s.departments| ==> t.departments[i] == s.departments[i];
    AppendFind(s.departments, DepartmentKey, Department(id, name));
    AppendKeepsKeysUnique(s.departments, DepartmentKey, Department(id, name));
    t
  }

  /** `createRole({title, salary, department_id})`, the new row keyed `id`. */
  function CreateRole(s: Store, title: string, salary: int, departmentId: int, id: int): (t: Store)
    requires Unused(s.roles, RoleKey, id)
    ensures WellFormed(s) ==> WellFormed(t)
    ensures t.departments == s.departments && t.employees == s.employees
    ensures |t.roles| == |s.roles| + 1 && t.roles[..|s.roles|] == s.roles
    ensures Find(t.roles, RoleKey, Some(id)) == Some(Role(id, title, salary, departmentId))
  {
    var t := s.(roles := s.roles + [Role(id, title, salary, departmentId)]);
    AppendFind(s.roles, RoleKey, Role(id, title, salary, departmentId));
    AppendKeepsKeysUnique(s.roles, RoleKey, Role(id, title, salary, departmentId));
    t
  }

  /** `createEmployee({first_name, last_name, role_id, manager_id})`, the new
      row keyed `id`; a NULL `manager_id` makes the new employee a manager. */
  function CreateEmployee(s: Store, firstName: string, lastName: string, roleId: int, managerId: Option<int>,
                          id: int): (t: Store)
    requires Unused(s.employees, EmployeeKey, id)
    ensures WellFormed(s) ==> WellFormed(t)
    ensures t.departments == s.departments && t.roles == s.roles
    ensures |t.employees| == |s.employees| + 1 && t.employees[..|s.employees|] == s.employees
    ensures Find(t.employees, EmployeeKey, Some(id)) == Some(Employee(id, firstName, lastName, roleId, managerId))
  {
    var e := Employee(id, firstName, lastName, roleId, managerId);
    var t := s.(employees := s.employees + [e]);
    AppendFind(s.employees, EmployeeKey, e);
    AppendKeepsKeysUnique(s.employees, EmployeeKey, e);
    t
  }

  /** An appended row with a fresh key is the row found for that key. */
  lemma {:induction false} AppendFind<T>(rows: seq<T>, key: T -> int, x: T)
    requires Unused(rows, key, key(x))
    ensures Find(rows + [x], key, Some(key(x))) == Some(x)
  {
    if rows != [] {
      assert (rows + [x])[1..] == rows[1..] + [x];
      AppendFind(rows[1..], key, x);
    }
  }

  /** After `createDepartment`, `readDepartments(true)` lists the new row
      with the name given and the key the store assigned. */
  lemma CreatedDepartmentIsListed(s: Store, name: string, id: int)
    requires Unused(s.departments, DepartmentKey, id)
    ensures var rows := Reads.ReadDepartments(CreateDepartment(s, name, id), true);
            && |rows| == |s.departments| + 1
            && rows[|s.departments|] == Reads.DepartmentRow(Some(id), name)
            && rows[..|s.departments|] == Reads.ReadDepartments(s, true)
  {
    var t := CreateDepartment(s, name, id);
    var rows := Reads.ReadDepartments(t, true);
    assert rows[|s.departments|] == Reads.DepartmentRow(Some(id), name);
  }

  // ------------------------------------------------------------ update

  /** `updateDepartment({id, name})`. */
  function UpdateDepartment(s: Store, id: int, name: string): (r: (Store, nat))
    ensures r.0.roles == s.roles && r.0.employees == s.employees
    ensures r.1 == (if FindDepartment(s, Some(id)).Some? then 1 else 0)
    ensures |r.0.departments| == |s.departments|
    ensures WellFormed(s) ==>
              && WellFormed(r.0)
              && forall i :: 0 <= i < |s.departments| ==>
                   r.0.departments[i] == if s.departments[i].id == id then Department(id, name) else s.departments[i]
  {
    var change := (d: Department) => d.(name := name);
    var u := UpdateFirst(s.departments, DepartmentKey, id, change);
    UpdateOnKey(s.departments, DepartmentKey, id, change);
    (s.(departments := u.0), u.1)
  }

  /** `updateRole({id, title, salary, department_id})`. */
  function UpdateRole(s: Store, id: int, title: string, salary: int, departmentId: int): (r: (Store, nat))
    ensures r.0.departments == s.departments && r.0.employees == s.employees
    ensures r.1 == (if FindRole(s, Some(id)).Some? then 1 else 0)
    ensures |r.0.roles| == |s.roles|
    ensures WellFormed(s) ==>
              && WellFormed(r.0)
              && forall i :: 0 <= i < |s.roles| ==>
                   r.0.roles[i] == if s.roles[i].id == id then Role(id, title, salary, departmentId) else s.roles[i]
  {
    var change := (x: Role) => x.(title := title, salary := salary, departmentId := departmentId);
    var u := UpdateFirst(s.roles, RoleKey, id, change);
    UpdateOnKey(s.roles, RoleKey, id, change);
    (s.(roles := u.0), u.1)
  }

  /** `updateEmployee({employee_id, first_name, last_name, role_id, manager_id})`. */
  function UpdateEmployee(s: Store, id: int, firstName: string, lastName: string, roleId: int,
                          managerId: Option<int>): (r: (Store, nat))
    ensures r.0.departments == s.departments && r.0.roles == s.roles
    ensures r.1 == (if FindEmployee(s, Some(id)).Some? then 1 else 0)
    ensures |r.0.employees| == |s.employees|
    ensures WellFormed(s) ==>
              && WellFormed(r.0)
              && forall i :: 0 <= i < |s.employees| ==>
                   r.0.employees[i] == if s.employees[i].id == id
                                       then Employee(id, firstName, lastName, roleId, managerId)
                                       else s.employees[i]
  {
    var change := (x: Employee) => x.(firstName := firstName, lastName := lastName, roleId := roleId,
                                      managerId := managerId);
    var u := UpdateFirst(s.employees, EmployeeKey, id, change);
    UpdateOnKey(s.employees, EmployeeKey, id, change);
    (s.(employees := u.0), u.1)
  }

  /** Repeating `updateRole` with the same values changes nothing more and
      still reports the row. */
  lemma UpdateRoleIdempotent(s: Store, id: int, title: string, salary: int, departmentId: int)
    requires WellFormed(s)
    ensures var once := UpdateRole(s, id, title, salary, departmentId);
            var twice := UpdateRole(once.0, id, title, salary, departmentId);
            twice.0 == once.0 && twice.1 == once.1
  {
    var once := UpdateRole(s, id, title, salary, departmentId);
    var twice := UpdateRole(once.0, id, title, salary, departmentId);
    assert twice.0.roles == once.0.roles;
    if FindRole(s, Some(id)).Some? {
      var i :| 0 <= i < |s.roles| && s.roles[i] == FindRole(s, Some(id)).value;
      assert once.0.roles[i].id == id;
    } else {
      assert forall i :: 0 <= i < |once.0.roles| ==> once.0.roles[i] == s.roles[i];
    }
  }

  /** Writing a row's own values back leaves the store as it was. */
  lemma UpdateEmployeeUnchanged(s: Store, k: int)
    requires WellFormed(s)
    requires 0 <= k < |s.employees|
    ensures var e := s.employees[k];
            UpdateEmployee(s, e.id, e.firstName, e.lastName, e.roleId, e.managerId) == (s, 1)
  {
    var e := s.employees[k];
    var r := UpdateEmployee(s, e.id, e.firstName, e.lastName, e.roleId, e.managerId);
    assert r.0.employees == s.employees;
    FindUnique(s.employees, EmployeeKey, k);
  }

  lemma UpdateDepartmentUnchanged(s: Store, k: int)
    requires WellFormed(s)
    requires 0 <= k < |s.departments|
    ensures var d := s.departments[k];
            UpdateDepartment(s, d.id, d.name) == (s, 1)
  {
    var d := s.departments[k];
    var r := UpdateDepartment(s, d.id, d.name);
    assert r.0.departments == s.departments;
    FindUnique(s.departments, DepartmentKey, k);
  }

  lemma UpdateRoleUnchanged(s: Store, k: int)
    requires WellFormed(s)
    requires 0 <= k < |s.roles|
    ensures var x := s.roles[k];
            UpdateRole(s, x.id, x.title, x.salary, x.departmentId) == (s, 1)
  {
    var x := s.roles[k];
    var r := UpdateRole(s, x.id, x.title, x.salary, x.departmentId);
    assert r.0.roles == s.roles;
    FindUnique(s.roles, RoleKey, k);
  }

  // ------------------------------------------------------------ delete

  /** `after` is `before` without its rows keyed `id`, and, when keys are
      unique, `count` is 1 if such a row existed and 0 otherwise. */
  ghost predicate RemovedOnKey<T>(before: seq<T>, after: seq<T>, count: nat, key: T -> int, id: int) {
    && (forall i :: 0 <= i < |after| ==> after[i] in before && key(after[i]) != id)
    && (forall i :: 0 <= i < |before| && key(before[i]) != id ==> before[i] in after)
    && (KeysUnique(before, key) ==> count == if Find(before, key, Some(id)).Some? then 1 else 0)
  }

  lemma RemoveKeyRemovesOnKey<T>(rows: seq<T>, key: T -> int, id: int)
    ensures RemovedOnKey(rows, RemoveKey(rows, key, id).0, RemoveKey(rows, key, id).1, key, id)
  {
    RemoveOnKey(rows, key, id);
  }

  /** `delete(table, id)`. The table name is whatever the caller passes; a
      name outside the schema is rejected by the store. On one of the three
      tables, only the rows of that table keyed `id` go and the other two
      tables are untouched. */
  function Delete(s: Store, table: string, id: int): (r: Result<(Store, nat)>)
    ensures r.Err? <==> table !in {"departments", "roles", "employees"}
    ensures r.Ok? ==> WellFormed(s) ==> WellFormed(r.value.0)
    ensures table == "departments" ==>
              && r.Ok? && r.value.0.roles == s.roles && r.value.0.employees == s.employees
              && RemovedOnKey(s.departments, r.value.0.departments, r.value.1, DepartmentKey, id)
    ensures table == "roles" ==>
              && r.Ok? && r.value.0.departments == s.departments && r.value.0.employees == s.employees
              && RemovedOnKey(s.roles, r.value.0.roles, r.value.1, RoleKey, id)
    ensures table == "employees" ==>
              && r.Ok? && r.value.0.departments == s.departments && r.value.0.roles == s.roles
              && RemovedOnKey(s.employees, r.value.0.employees, r.value.1, EmployeeKey, id)
  {
    if table == "departments" then
      var d := RemoveKey(s.departments, DepartmentKey, id);
      RemoveKeyRemovesOnKey(s.departments, DepartmentKey, id);
      Ok((s.(departments := d.0), d.1))
    else if table == "roles" then
      var d := RemoveKey(s.roles, RoleKey, id);
      RemoveKeyRemovesOnKey(s.roles, RoleKey, id);
      Ok((s.(roles := d.0), d.1))
    else if table == "employees" then
      var d := RemoveKey(s.employees, EmployeeKey, id);
      RemoveKeyRemovesOnKey(s.employees, EmployeeKey, id);
      Ok((s.(employees := d.0), d.1))
    else Err(UnknownTable(table))
  }

  /** `delete('employees', id)` removes only that employee: the count is 1 when
      the id exists and 0 otherwise, the other tables are untouched, no row
      with the id is left, and every other employee stays. */
  lemma DeleteEmployee(s: Store, id: int)
    requires WellFormed(s)
    ensures var r := Delete(s, "employees", id);
            && r.Ok?
            && r.value.0.departments == s.departments && r.value.0.roles == s.roles
            && (forall e :: e in r.value.0.employees ==> e in s.employees && e.id != id)
            && (forall e :: e in s.employees && e.id != id ==> e in r.value.0.employees)
            && r.value.1 == (if FindEmployee(s, Some(id)).Some? then 1 else 0)
  {
    RemoveOnKey(s.employees, EmployeeKey, id);
  }

  /** After `delete('employees', id)`, `readEmployees(true)` no longer lists
      that id. */
  lemma DeletedEmployeeNotListed(s: Store, id: int, includeManagerInfo: bool)
    requires WellFormed(s)
    ensures forall row :: row in Reads.ReadEmployees(Delete(s, "employees", id).value.0, true, Reads.Everyone,
                                                     includeManagerInfo)
                          ==> row.id != Some(id)
  {
    DeleteEmployee(s, id);
    var t := Delete(s, "employees", id).value.0;
    Reads.ReadEmployeesIds(t, includeManagerInfo);
  }
}
