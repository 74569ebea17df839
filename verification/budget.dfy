/** `readDepartmentSalaries`: the salary budget per department.

    The query starts `FROM employees`, reaches a department through each
    employee's role, groups by `departments.id` and sums `roles.salary`. The
    `CONCAT('$', FORMAT(..., 2))` display of the sum is left out: the budget is
    the integer sum. */
module Budget {
  import opened Nullable
  import opened Schema
  import opened Relational
  import opened Reads

  /** One group. `key` is the GROUP BY value `departments.id` (NULL for the
      employees whose role or department row is missing); it is not a selected
      column, but it tells the groups apart. `department` and `budget` are the
      selected `Department` and the sum, NULL when no salary was summed. */
  datatype BudgetRow = BudgetRow(key: Option<int>, department: Option<string>, budget: Option<int>)

  function GroupKey(w: Wide): Option<int> {
    match w.dept
    case None => None
    case Some(d) => Some(d.id)
  }

  /** Some row of the chain falls in group `k`. */
  predicate HasKey(ws: seq<Wide>, k: Option<int>) {
    exists i :: 0 <= i < |ws| && GroupKey(ws[i]) == k
  }

  /** The distinct group keys, in order of first appearance. */
  function Keys(ws: seq<Wide>): (ks: seq<Option<int>>)
    ensures forall i, j :: 0 <= i < j < |ks| ==> ks[i] != ks[j]
    ensures forall k :: k in ks <==> HasKey(ws, k)
  {
    if ws == [] then []
    else
      var prev := Keys(ws[..|ws| - 1]);
      var k := GroupKey(ws[|ws| - 1]);
      assert forall i :: 0 <= i < |ws| - 1 ==> ws[..|ws| - 1][i] == ws[i];
      if k in prev then prev else prev + [k]
  }

  /** `departments.name` of a group: that of its first row. */
  function GroupName(ws: seq<Wide>, k: Option<int>): Option<string> {
    if ws == [] then None
    else if GroupKey(ws[0]) == k then DepartmentName(ws[0].dept)
    else GroupName(ws[1..], k)
  }

  /** `SUM(roles.salary)` over the rows of group `k`: NULL salaries are
      skipped, and a group with no salary at all sums to NULL. */
  function GroupSum(ws: seq<Wide>, k: Option<int>): Option<int> {
    if ws == [] then None
    else
      var rest := GroupSum(ws[1..], k);
      if GroupKey(ws[0]) == k && ws[0].role.Some? then Some(ws[0].role.value.salary + rest.GetOr(0))
      else rest
  }

  /** `GROUP BY departments.id` over a FROM chain: one row per distinct key. */
  function Grouped(chain: seq<Wide>): (rows: seq<BudgetRow>)
    ensures forall i, j :: 0 <= i < j < |rows| ==> rows[i].key != rows[j].key
  {
    Select(Keys(chain), (k: Option<int>) => BudgetRow(k, GroupName(chain, k), GroupSum(chain, k)))
  }

  /** `readDepartmentSalaries()`: the groups of the employee/role/department
      chain, one per key, each with its key's name and sum. */
  function ReadDepartmentSalaries(s: Store): (rows: seq<BudgetRow>)
    ensures forall i, j :: 0 <= i < j < |rows| ==> rows[i].key != rows[j].key
    ensures forall i :: 0 <= i < |rows| ==>
              && HasKey(SubjectChain(s), rows[i].key)
              && rows[i].department == GroupName(SubjectChain(s), rows[i].key)
              && rows[i].budget == GroupSum(SubjectChain(s), rows[i].key)
  {
    assert forall i :: 0 <= i < |Keys(SubjectChain(s))| ==> Keys(SubjectChain(s))[i] in Keys(SubjectChain(s));
    Grouped(SubjectChain(s))
  }

  /** Some budget row is the group of key `k`. */
  predicate HasGroup(rows: seq<BudgetRow>, k: Option<int>) {
    exists j :: 0 <= j < |rows| && rows[j].key == k
  }

  /** There is a group for a key exactly when some row of the chain has it, and
      the group carries that key's name and sum. */
  lemma GroupedRows(chain: seq<Wide>, k: Option<int>)
    ensures HasGroup(Grouped(chain), k) <==> HasKey(chain, k)
    ensures HasKey(chain, k) ==> BudgetRow(k, GroupName(chain, k), GroupSum(chain, k)) in Grouped(chain)
  {
    var keys := Keys(chain);
    var rows := Grouped(chain);
    if HasGroup(rows, k) {
      var j :| 0 <= j < |rows| && rows[j].key == k;
      assert keys[j] == k;
    }
    if HasKey(chain, k) {
      assert k in keys;
      var j :| 0 <= j < |keys| && keys[j] == k;
      assert rows[j] == BudgetRow(k, GroupName(chain, k), GroupSum(chain, k));
    }
  }

  // ------------------------------------------------------------ reference budget

  /** The number of employees holding role `roleId`. */
  function Headcount(es: seq<Employee>, roleId: int): nat {
    if es == [] then 0 else (if es[0].roleId == roleId then 1 else 0) + Headcount(es[1..], roleId)
  }

  /** Reference budget of department `d`: each of its roles' salary times the
      number of employees holding that role. */
  function RoleBudget(roles: seq<Role>, es: seq<Employee>, d: int): int {
    if roles == [] then 0
    else (if roles[0].departmentId == d then roles[0].salary * Headcount(es, roles[0].id) else 0)
         + RoleBudget(roles[1..], es, d)
  }

  /** The salary one employee adds to department `d`'s budget. */
  function Contribution(roles: seq<Role>, e: Employee, d: int): int {
    match Find(roles, RoleKey, Some(e.roleId))
    case None => 0
    case Some(r) => if r.departmentId == d then r.salary else 0
  }

  /** Employee by employee: the sum the query computes, before grouping. */
  function EmployeeBudget(roles: seq<Role>, es: seq<Employee>, d: int): int {
    if es == [] then 0 else Contribution(roles, es[0], d) + EmployeeBudget(roles, es[1..], d)
  }

  lemma {:induction false} RoleBudgetSplit(roles: seq<Role>, es: seq<Employee>, d: int)
    requires es != []
    ensures RoleBudget(roles, es, d) == RoleBudget(roles, [es[0]], d) + RoleBudget(roles, es[1..], d)
  {
    if roles != [] {
      RoleBudgetSplit(roles[1..], es, d);
      var r := roles[0];
      assert Headcount(es, r.id) == Headcount([es[0]], r.id) + Headcount(es[1..], r.id) by {
        assert [es[0]][1..] == [];
      }
      if r.departmentId == d {
        assert r.salary * Headcount(es, r.id)
            == r.salary * Headcount([es[0]], r.id) + r.salary * Headcount(es[1..], r.id);
      }
    }
  }

  lemma {:induction false} RoleBudgetOne(roles: seq<Role>, e: Employee, d: int)
    requires KeysUnique(roles, RoleKey)
    ensures RoleBudget(roles, [e], d) == Contribution(roles, e, d)
  {
    if roles != [] {
      KeysUniqueTail(roles, RoleKey);
      RoleBudgetOne(roles[1..], e, d);
      assert [e][1..] == [];
      if roles[0].id == e.roleId {
        forall i | 0 <= i < |roles[1..]|
          ensures Some(e.roleId) != Some(RoleKey(roles[1..][i]))
        {
          assert roles[1..][i] == roles[i + 1];
        }
        assert Contribution(roles[1..], e, d) == 0;
        assert Headcount([e], roles[0].id) == 1;
      } else {
        assert Headcount([e], roles[0].id) == 0;
      }
    }
  }

  /** Summing salaries employee by employee equals summing, role by role, the
      salary times the headcount. */
  lemma {:induction false} BudgetByRoles(roles: seq<Role>, es: seq<Employee>, d: int)
    requires KeysUnique(roles, RoleKey)
    ensures EmployeeBudget(roles, es, d) == RoleBudget(roles, es, d)
  {
    if es == [] {
      RoleBudgetEmpty(roles, d);
    } else {
      BudgetByRoles(roles, es[1..], d);
      RoleBudgetSplit(roles, es, d);
      RoleBudgetOne(roles, es[0], d);
    }
  }

  lemma {:induction false} RoleBudgetEmpty(roles: seq<Role>, d: int)
    ensures RoleBudget(roles, [], d) == 0
  {
    if roles != [] {
      RoleBudgetEmpty(roles[1..], d);
    }
  }

  // ------------------------------------------------------------ the query meets the reference

  /** Employee `e` is counted in the group of department `d`. */
  predicate InGroup(s: Store, e: Employee, d: int) {
    DepartmentOf(s, e).Some? && DepartmentOf(s, e).value.id == d
  }

  /** Some employee of `es` is counted in the group of department `d`. */
  predicate Reaches(s: Store, es: seq<Employee>, d: int) {
    es != [] && (InGroup(s, es[0], d) || Reaches(s, es[1..], d))
  }

  lemma GroupOfEmployee(s: Store, e: Employee, d: int)
    requires FindDepartment(s, Some(d)).Some?
    ensures GroupKey(WidenSubject(s, e)) == Some(d) <==> InGroup(s, e, d)
    ensures InGroup(s, e, d) ==> WidenSubject(s, e).role.Some?
                                 && Contribution(s.roles, e, d) == WidenSubject(s, e).role.value.salary
    ensures !InGroup(s, e, d) ==> Contribution(s.roles, e, d) == 0
  {
  }

  /** The group sum the query computes is the employee-by-employee budget,
      and NULL exactly when no employee is in the group. */
  lemma {:induction false} GroupSumIsBudget(s: Store, es: seq<Employee>, d: int)
    requires FindDepartment(s, Some(d)).Some?
    ensures GroupSum(Select(es, (e: Employee) => WidenSubject(s, e)), Some(d))
         == if Reaches(s, es, d) then Some(EmployeeBudget(s.roles, es, d)) else None
    ensures !Reaches(s, es, d) ==> EmployeeBudget(s.roles, es, d) == 0
  {
    if es != [] {
      var widen := (e: Employee) => WidenSubject(s, e);
      var chain := Select(es, widen);
      assert chain[1..] == Select(es[1..], widen);
      assert chain[0] == WidenSubject(s, es[0]);
      GroupSumIsBudget(s, es[1..], d);
      GroupOfEmployee(s, es[0], d);
      var rest := GroupSum(chain[1..], Some(d));
      if InGroup(s, es[0], d) {
        assert GroupSum(chain, Some(d)) == Some(chain[0].role.value.salary + rest.GetOr(0));
      } else {
        assert GroupSum(chain, Some(d)) == rest;
      }
    }
  }

  /** The group of an existing department is named after it. */
  lemma {:induction false} GroupNameIsDepartment(s: Store, es: seq<Employee>, i: int)
    requires KeysUnique(s.departments, DepartmentKey)
    requires 0 <= i < |s.departments|
    requires Reaches(s, es, s.departments[i].id)
    ensures GroupName(Select(es, (e: Employee) => WidenSubject(s, e)), Some(s.departments[i].id))
         == Some(s.departments[i].name)
  {
    var d := s.departments[i];
    var widen := (e: Employee) => WidenSubject(s, e);
    FindUnique(s.departments, DepartmentKey, i);
    GroupOfEmployee(s, es[0], d.id);
    if InGroup(s, es[0], d.id) {
      assert DepartmentOf(s, es[0]) == Some(d);
    } else {
      assert Select(es, widen)[1..] == Select(es[1..], widen);
      GroupNameIsDepartment(s, es[1..], i);
    }
  }

  lemma {:induction false} ReachesSome(s: Store, es: seq<Employee>, d: int)
    ensures Reaches(s, es, d) <==> exists k :: 0 <= k < |es| && InGroup(s, es[k], d)
  {
    if es != [] {
      ReachesSome(s, es[1..], d);
      if exists k :: 0 <= k < |es| && InGroup(s, es[k], d) {
        var k :| 0 <= k < |es| && InGroup(s, es[k], d);
        if k > 0 {
          assert es[1..][k - 1] == es[k];
        }
      }
      if exists k :: 0 <= k < |es[1..]| && InGroup(s, es[1..][k], d) {
        var k :| 0 <= k < |es[1..]| && InGroup(s, es[1..][k], d);
        assert es[1..][k] == es[k + 1];
      }
    }
  }

  /** A department has a budget row exactly when at least one employee's role
      belongs to it: the query starts `FROM employees`, so a department nobody
      works in is absent. */
  lemma BudgetRowPresence(s: Store, i: int)
    requires WellFormed(s)
    requires 0 <= i < |s.departments|
    ensures HasGroup(ReadDepartmentSalaries(s), Some(s.departments[i].id))
            <==> exists k :: 0 <= k < |s.employees| && InGroup(s, s.employees[k], s.departments[i].id)
  {
    var d := s.departments[i];
    var es := s.employees;
    SubjectChainRows(s);
    var chain := Select(es, (e: Employee) => WidenSubject(s, e));
    GroupedRows(chain, Some(d.id));
    FindUnique(s.departments, DepartmentKey, i);
    if HasKey(chain, Some(d.id)) {
      var k :| 0 <= k < |chain| && GroupKey(chain[k]) == Some(d.id);
      GroupOfEmployee(s, es[k], d.id);
    }
    if exists k :: 0 <= k < |es| && InGroup(s, es[k], d.id) {
      var k :| 0 <= k < |es| && InGroup(s, es[k], d.id);
      GroupOfEmployee(s, es[k], d.id);
      assert GroupKey(chain[k]) == Some(d.id);
    }
  }

  /** The budget row of a department that has employees carries the
      department's name and the sum, over its roles, of salary times
      headcount. */
  lemma BudgetOfDepartment(s: Store, i: int)
    requires WellFormed(s)
    requires 0 <= i < |s.departments|
    requires exists k :: 0 <= k < |s.employees| && InGroup(s, s.employees[k], s.departments[i].id)
    ensures BudgetRow(Some(s.departments[i].id), Some(s.departments[i].name),
                      Some(RoleBudget(s.roles, s.employees, s.departments[i].id)))
            in ReadDepartmentSalaries(s)
  {
    var d := s.departments[i];
    var es := s.employees;
    SubjectChainRows(s);
    var chain := Select(es, (e: Employee) => WidenSubject(s, e));
    FindUnique(s.departments, DepartmentKey, i);
    var k :| 0 <= k < |es| && InGroup(s, es[k], d.id);
    GroupOfEmployee(s, es[k], d.id);
    assert GroupKey(chain[k]) == Some(d.id);
    GroupedRows(chain, Some(d.id));
    ReachesSome(s, es, d.id);
    GroupSumIsBudget(s, es, d.id);
    GroupNameIsDepartment(s, es, i);
    BudgetByRoles(s.roles, es, d.id);
  }

  lemma NullKeyOfEmployee(s: Store, e: Employee)
    ensures GroupKey(WidenSubject(s, e)).None? <==> DepartmentOf(s, e).None?
  {
  }

  /** Employees whose role or department row is missing are pooled in a single
      group whose key and name are NULL. */
  lemma NullGroup(s: Store)
    requires WellFormed(s)
    ensures HasGroup(ReadDepartmentSalaries(s), None)
            <==> exists k :: 0 <= k < |s.employees| && DepartmentOf(s, s.employees[k]).None?
  {
    var es := s.employees;
    SubjectChainRows(s);
    var chain := Select(es, (e: Employee) => WidenSubject(s, e));
    assert ReadDepartmentSalaries(s) == Grouped(chain);
    GroupedRows(chain, None);
    if HasKey(chain, None) {
      var k :| 0 <= k < |chain| && GroupKey(chain[k]) == None;
      assert chain[k] == WidenSubject(s, es[k]);
      NullKeyOfEmployee(s, es[k]);
    }
    if exists k :: 0 <= k < |es| && DepartmentOf(s, es[k]).None? {
      var k :| 0 <= k < |es| && DepartmentOf(s, es[k]).None?;
      assert chain[k] == WidenSubject(s, es[k]);
      NullKeyOfEmployee(s, es[k]);
      assert GroupKey(chain[k]) == None;
    }
  }
}
