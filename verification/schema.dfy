/** The three tables of `org_chart_db` as immutable sequences of records.

    Row order is the order the store happens to return rows in; no query of
    the data layer has an `ORDER BY`, so properties about reads are stated as
    membership and counts. */
module Schema {
  import opened Nullable

  datatype Department = Department(id: int, name: string)

  datatype Role = Role(id: int, title: string, salary: int, departmentId: int)

  /** `managerId == None` is a NULL `manager_id`: the employee reports to nobody. */
  datatype Employee = Employee(id: int, firstName: string, lastName: string, roleId: int, managerId: Option<int>)

  datatype Store = Store(departments: seq<Department>, roles: seq<Role>, employees: seq<Employee>)

  function DepartmentKey(d: Department): int { d.id }
  function RoleKey(r: Role): int { r.id }
  function EmployeeKey(e: Employee): int { e.id }

  /** No two rows share a key. */
  ghost predicate KeysUnique<T>(rows: seq<T>, key: T -> int) {
    forall i, j :: 0 <= i < j < |rows| ==> key(rows[i]) != key(rows[j])
  }

  /** The store keeps `id` a primary key of every table. */
  ghost predicate WellFormed(s: Store) {
    && KeysUnique(s.departments, DepartmentKey)
    && KeysUnique(s.roles, RoleKey)
    && KeysUnique(s.employees, EmployeeKey)
  }

  /** The first row whose key is `k`; NULL never matches a key. */
  function Find<T>(rows: seq<T>, key: T -> int, k: Option<int>): (r: Option<T>)
    ensures r.Some? ==> r.value in rows && k == Some(key(r.value))
    ensures r.None? <==> forall i :: 0 <= i < |rows| ==> k != Some(key(rows[i]))
  {
    if rows == [] then None
    else if k == Some(key(rows[0])) then Some(rows[0])
    else Find(rows[1..], key, k)
  }

  /** With unique keys, the row found for a key is the row that has it. */
  lemma {:induction false} FindUnique<T>(rows: seq<T>, key: T -> int, i: int)
    requires KeysUnique(rows, key)
    requires 0 <= i < |rows|
    ensures Find(rows, key, Some(key(rows[i]))) == Some(rows[i])
  {
    if i > 0 {
      assert key(rows[0]) != key(rows[i]);
      assert KeysUnique(rows[1..], key) by {
        forall a, b | 0 <= a < b < |rows[1..]|
          ensures key(rows[1..][a]) != key(rows[1..][b])
        {
          assert rows[1..][a] == rows[a + 1] && rows[1..][b] == rows[b + 1];
        }
      }
      FindUnique(rows[1..], key, i - 1);
      assert rows[1..][i - 1] == rows[i];
    }
  }

  /** With unique keys, the only row with row `k`'s key is row `k`. */
  lemma KeyIdentifies<T>(rows: seq<T>, key: T -> int, t: T, k: int)
    requires KeysUnique(rows, key)
    requires 0 <= k < |rows| && t in rows && key(t) == key(rows[k])
    ensures t == rows[k]
  {
    var i :| 0 <= i < |rows| && rows[i] == t;
    assert key(rows[i]) == key(rows[k]);
  }

  function FindDepartment(s: Store, id: Option<int>): Option<Department> {
    Find(s.departments, DepartmentKey, id)
  }

  function FindRole(s: Store, id: Option<int>): Option<Role> {
    Find(s.roles, RoleKey, id)
  }

  function FindEmployee(s: Store, id: Option<int>): Option<Employee> {
    Find(s.employees, EmployeeKey, id)
  }

  /** The department an employee reaches through their role, if both rows exist. */
  function DepartmentOf(s: Store, e: Employee): Option<Department> {
    match FindRole(s, Some(e.roleId))
    case None => None
    case Some(r) => FindDepartment(s, Some(r.departmentId))
  }
}
