/** What the `read*` methods of `Db` return, over an abstract store.

    Each query is its FROM clause (a chain of joins), its WHERE clause and its
    select list. Formatted salary columns are kept as the integer salary; their
    display text is `Js.Money`. */
module Reads {
  import opened Nullable
  import opened Schema
  import opened Relational
  import Js

  // ------------------------------------------------------------ FROM chains

  /** One employee widened by the joins of `readEmployees`: the subject side
      (`roles`, `departments`) and the manager side (`managers`,
      `manager_roles`, `manager_departments`). */
  datatype Wide = Wide(emp: Employee, role: Option<Role>, dept: Option<Department>,
                       mgr: Option<Employee>, mgrRole: Option<Role>, mgrDept: Option<Department>)

  function RoleDepartmentKey(r: Option<Role>): Option<int> {
    match r
    case None => None
    case Some(role) => Some(role.departmentId)
  }

  function EmployeeRoleKey(e: Option<Employee>): Option<int> {
    match e
    case None => None
    case Some(emp) => Some(emp.roleId)
  }

  function Bare(e: Employee): Wide {
    Wide(e, None, None, None, None, None)
  }

  /** `FROM employees LEFT JOIN roles ON employees.role_id = roles.id
      LEFT JOIN departments ON roles.department_id = departments.id`. */
  function SubjectChain(s: Store): seq<Wide> {
    var withRole := Join(LeftOuter, Select(s.employees, Bare), s.roles,
                         (w: Wide) => Some(w.emp.roleId), RoleKey,
                         (w: Wide, r: Option<Role>) => w.(role := r));
    Join(LeftOuter, withRole, s.departments,
         (w: Wide) => RoleDepartmentKey(w.role), DepartmentKey,
         (w: Wide, d: Option<Department>) => w.(dept := d))
  }

  /** The subject chain followed by `LEFT JOIN employees managers ON
      employees.manager_id = managers.id` and the manager's role and department. */
  function ManagerChain(s: Store): seq<Wide> {
    var withMgr := Join(LeftOuter, SubjectChain(s), s.employees,
                        (w: Wide) => w.emp.managerId, EmployeeKey,
                        (w: Wide, m: Option<Employee>) => w.(mgr := m));
    var withMgrRole := Join(LeftOuter, withMgr, s.roles,
                            (w: Wide) => EmployeeRoleKey(w.mgr), RoleKey,
                            (w: Wide, r: Option<Role>) => w.(mgrRole := r));
    Join(LeftOuter, withMgrRole, s.departments,
         (w: Wide) => RoleDepartmentKey(w.mgrRole), DepartmentKey,
         (w: Wide, d: Option<Department>) => w.(mgrDept := d))
  }

  /** Reference meaning of one employee's joined row: each joined table
      contributes the row with the referenced key, or NULL. */
  function Widen(s: Store, e: Employee): Wide {
    var role := FindRole(s, Some(e.roleId));
    var mgr := FindEmployee(s, e.managerId);
    var mgrRole := FindRole(s, EmployeeRoleKey(mgr));
    Wide(e, role, FindDepartment(s, RoleDepartmentKey(role)),
         mgr, mgrRole, FindDepartment(s, RoleDepartmentKey(mgrRole)))
  }

  function WidenSubject(s: Store, e: Employee): Wide {
    Widen(s, e).(mgr := None, mgrRole := None, mgrDept := None)
  }

  /** All joins are on key columns, so the subject chain has exactly one row
      per employee, in place. */
  lemma SubjectChainRows(s: Store)
    requires WellFormed(s)
    ensures SubjectChain(s) == Select(s.employees, e => WidenSubject(s, e))
  {
    var es := s.employees;
    var base := Select(es, Bare);
    var rkey := (w: Wide) => Some(w.emp.roleId);
    var rput := (w: Wide, r: Option<Role>) => w.(role := r);
    LeftJoinOnKey(base, s.roles, rkey, RoleKey, rput);
    var withRole := Join(LeftOuter, base, s.roles, rkey, RoleKey, rput);
    var dkey := (w: Wide) => RoleDepartmentKey(w.role);
    var dput := (w: Wide, d: Option<Department>) => w.(dept := d);
    LeftJoinOnKey(withRole, s.departments, dkey, DepartmentKey, dput);
    var chain := Join(LeftOuter, withRole, s.departments, dkey, DepartmentKey, dput);
    var expected := Select(es, e => WidenSubject(s, e));
    assert |chain| == |expected|;
    forall i | 0 <= i < |es|
      ensures chain[i] == expected[i]
    {
      assert withRole[i] == Bare(es[i]).(role := FindRole(s, Some(es[i].roleId)));
    }
  }

  /** The full FROM chain of `readEmployees` has exactly one row per employee,
      in place, whatever the data: it never drops or repeats an employee. */
  lemma ManagerChainRows(s: Store)
    requires WellFormed(s)
    ensures ManagerChain(s) == Select(s.employees, e => Widen(s, e))
  {
    var es := s.employees;
    SubjectChainRows(s);
    var subject := SubjectChain(s);
    var mkey := (w: Wide) => w.emp.managerId;
    var mput := (w: Wide, m: Option<Employee>) => w.(mgr := m);
    LeftJoinOnKey(subject, es, mkey, EmployeeKey, mput);
    var withMgr := Join(LeftOuter, subject, es, mkey, EmployeeKey, mput);
    var rkey := (w: Wide) => EmployeeRoleKey(w.mgr);
    var rput := (w: Wide, r: Option<Role>) => w.(mgrRole := r);
    LeftJoinOnKey(withMgr, s.roles, rkey, RoleKey, rput);
    var withMgrRole := Join(LeftOuter, withMgr, s.roles, rkey, RoleKey, rput);
    var dkey := (w: Wide) => RoleDepartmentKey(w.mgrRole);
    var dput := (w: Wide, d: Option<Department>) => w.(mgrDept := d);
    LeftJoinOnKey(withMgrRole, s.departments, dkey, DepartmentKey, dput);
    var chain := Join(LeftOuter, withMgrRole, s.departments, dkey, DepartmentKey, dput);
    var expected := Select(es, e => Widen(s, e));
    assert |chain| == |expected|;
    forall i | 0 <= i < |es|
      ensures chain[i] == expected[i]
    {
      assert subject[i] == WidenSubject(s, es[i]);
      assert withMgr[i] == subject[i].(mgr := FindEmployee(s, es[i].managerId));
      assert withMgrRole[i] == withMgr[i].(mgrRole := FindRole(s, EmployeeRoleKey(withMgr[i].mgr)));
    }
  }

  // ------------------------------------------------------------ readEmployees

  /** The manager-side columns `Manager Name`, `Mgr Dept.`, `Mgr Role` and
      `Mgr Salary`. */
  datatype ManagerColumns = ManagerColumns(name: Option<string>, department: Option<string>,
                                           role: Option<string>, salary: Option<int>)

  /** A row of `readEmployees`; `id` is present exactly when `includeId`,
      `manager` exactly when `includeManagerInfo`. */
  datatype EmployeeRow = EmployeeRow(id: Option<int>, firstName: string, lastName: string,
                                     department: Option<string>, role: Option<string>, salary: Option<int>,
                                     manager: Option<ManagerColumns>)

  /** The two structured conditions the prompt flow passes as `where`. */
  datatype Filter = Everyone | ManagedBy(managerId: int) | InDepartment(departmentId: int)

  function DepartmentName(d: Option<Department>): Option<string> {
    match d
    case None => None
    case Some(dept) => Some(dept.name)
  }

  function RoleTitle(r: Option<Role>): Option<string> {
    match r
    case None => None
    case Some(role) => Some(role.title)
  }

  function RoleSalary(r: Option<Role>): Option<int> {
    match r
    case None => None
    case Some(role) => Some(role.salary)
  }

  /** `CONCAT(first_name, ' ', last_name)`, NULL when the row is NULL. */
  function FullName(e: Option<Employee>): Option<string> {
    match e
    case None => None
    case Some(emp) => Some(emp.firstName + " " + emp.lastName)
  }

  /** The WHERE clause of a filtered view. `employees.manager_id = n` is not
      true for a NULL manager; `departments.id = n` is not true for an
      employee whose department row is missing. */
  predicate Selects(f: Filter, w: Wide) {
    match f
    case Everyone => true
    case ManagedBy(n) => w.emp.managerId == Some(n)
    case InDepartment(n) => w.dept.Some? && w.dept.value.id == n
  }

  function EmployeeColumns(w: Wide, includeId: bool, includeManagerInfo: bool): EmployeeRow {
    EmployeeRow(if includeId then Some(w.emp.id) else None,
                w.emp.firstName, w.emp.lastName,
                DepartmentName(w.dept), RoleTitle(w.role), RoleSalary(w.role),
                if includeManagerInfo
                then Some(ManagerColumns(FullName(w.mgr), DepartmentName(w.mgrDept),
                                         RoleTitle(w.mgrRole), RoleSalary(w.mgrRole)))
                else None)
  }

  /** `readEmployees(includeId, where, includeManagerInfo)`. */
  function ReadEmployees(s: Store, includeId: bool, f: Filter, includeManagerInfo: bool): seq<EmployeeRow> {
    Select(Where(ManagerChain(s), (w: Wide) => Selects(f, w)),
           (w: Wide) => EmployeeColumns(w, includeId, includeManagerInfo))
  }

  /** Unfiltered, every employee yields exactly one row, in place; the
      manager-side columns are all NULL for an employee without a manager and
      otherwise come from the employee whose id is `manager_id`, through that
      employee's own role and department. */
  lemma ReadEmployeesMeaning(s: Store, includeId: bool, includeManagerInfo: bool, k: int)
    requires WellFormed(s)
    requires 0 <= k < |s.employees|
    ensures |ReadEmployees(s, includeId, Everyone, includeManagerInfo)| == |s.employees|
    ensures var row := ReadEmployees(s, includeId, Everyone, includeManagerInfo)[k];
            var e := s.employees[k];
            && row.id == (if includeId then Some(e.id) else None)
            && row.firstName == e.firstName && row.lastName == e.lastName
            && row.role == RoleTitle(FindRole(s, Some(e.roleId)))
            && row.department == DepartmentName(DepartmentOf(s, e))
            && (row.manager.Some? <==> includeManagerInfo)
            && (includeManagerInfo && e.managerId.None? ==>
                  row.manager == Some(ManagerColumns(None, None, None, None)))
            && (includeManagerInfo && e.managerId.Some? ==>
                  match FindEmployee(s, e.managerId)
                  case None => row.manager == Some(ManagerColumns(None, None, None, None))
                  case Some(m) =>
                    && row.manager.value.name == Some(m.firstName + " " + m.lastName)
                    && row.manager.value.role == RoleTitle(FindRole(s, Some(m.roleId)))
                    && row.manager.value.salary == RoleSalary(FindRole(s, Some(m.roleId)))
                    && row.manager.value.department == DepartmentName(DepartmentOf(s, m)))
  {
    ManagerChainRows(s);
    var chain := ManagerChain(s);
    WhereAgree(chain, (w: Wide) => Selects(Everyone, w), (w: Wide) => true);
    assert Where(chain, (w: Wide) => true) == chain by {
      WhereAll(chain);
    }
  }

  lemma {:induction false} WhereAll<T>(rows: seq<T>)
    ensures Where(rows, (x: T) => true) == rows
  {
    if rows != [] {
      WhereAll(rows[1..]);
    }
  }

  /** With ids included, row `k` of the unfiltered view carries employee `k`'s id. */
  lemma ReadEmployeesIds(s: Store, includeManagerInfo: bool)
    requires WellFormed(s)
    ensures var rows := ReadEmployees(s, true, Everyone, includeManagerInfo);
            && |rows| == |s.employees|
            && forall k :: 0 <= k < |rows| ==> rows[k].id == Some(s.employees[k].id)
  {
    ManagerChainRows(s);
    var chain := ManagerChain(s);
    WhereAgree(chain, (w: Wide) => Selects(Everyone, w), (w: Wide) => true);
    WhereAll(chain);
  }

  /** The employees a filter keeps, by the reference meaning of their row. */
  function Kept(s: Store, f: Filter): seq<Employee> {
    Where(s.employees, (e: Employee) => Selects(f, Widen(s, e)))
  }

  /** A filtered view has one row per employee the filter keeps, built from
      that employee's reference row. */
  lemma ReadEmployeesFiltered(s: Store, includeId: bool, f: Filter, includeManagerInfo: bool)
    requires WellFormed(s)
    ensures ReadEmployees(s, includeId, f, includeManagerInfo)
         == Select(Kept(s, f), (e: Employee) => EmployeeColumns(Widen(s, e), includeId, includeManagerInfo))
  {
    ManagerChainRows(s);
    var widen := (e: Employee) => Widen(s, e);
    WhereSelect(s.employees, widen, (w: Wide) => Selects(f, w), (e: Employee) => Selects(f, Widen(s, e)));
    SelectSelect(Kept(s, f), widen, (w: Wide) => EmployeeColumns(w, includeId, includeManagerInfo),
                 (e: Employee) => EmployeeColumns(Widen(s, e), includeId, includeManagerInfo));
  }

  /** The by-manager view keeps exactly the employees whose `manager_id` is `n`. */
  lemma KeptManagedBy(s: Store, n: int)
    ensures Kept(s, ManagedBy(n)) == Where(s.employees, (e: Employee) => e.managerId == Some(n))
  {
    WhereAgree(s.employees, (e: Employee) => Selects(ManagedBy(n), Widen(s, e)),
               (e: Employee) => e.managerId == Some(n));
  }

  /** The by-department view keeps exactly the employees whose role belongs to
      the existing department `n`. */
  lemma KeptInDepartment(s: Store, n: int)
    ensures Kept(s, InDepartment(n))
         == Where(s.employees, (e: Employee) => DepartmentOf(s, e).Some? && DepartmentOf(s, e).value.id == n)
  {
    WhereAgree(s.employees, (e: Employee) => Selects(InDepartment(n), Widen(s, e)),
               (e: Employee) => DepartmentOf(s, e).Some? && DepartmentOf(s, e).value.id == n);
  }

  // ------------------------------------------------------------ readManagers

  /** A row of `readManagers`: `managers.id`, `Name`, `Department`. */
  datatype ManagerRow = ManagerRow(id: int, name: string, department: Option<string>)

  function ManagerColumnsOf(w: Wide): ManagerRow {
    ManagerRow(w.emp.id, w.emp.firstName + " " + w.emp.lastName, DepartmentName(w.dept))
  }

  /** `readManagers()`: the subject chain restricted by `manager_id IS NULL`.
      A manager is detected, not declared: it is any employee reporting to
      nobody. */
  function ReadManagers(s: Store): seq<ManagerRow> {
    Select(Where(SubjectChain(s), (w: Wide) => w.emp.managerId.None?), ManagerColumnsOf)
  }

  function TopLevel(s: Store): seq<Employee> {
    Where(s.employees, (e: Employee) => e.managerId.None?)
  }

  /** `readManagers()` lists the employees without a manager, each with the
      name of the department their role belongs to. */
  lemma ReadManagersMeaning(s: Store)
    requires WellFormed(s)
    ensures ReadManagers(s)
         == Select(TopLevel(s), (e: Employee) =>
                     ManagerRow(e.id, e.firstName + " " + e.lastName, DepartmentName(DepartmentOf(s, e))))
  {
    SubjectChainRows(s);
    var widen := (e: Employee) => WidenSubject(s, e);
    WhereSelect(s.employees, widen, (w: Wide) => w.emp.managerId.None?, (e: Employee) => e.managerId.None?);
    SelectSelect(TopLevel(s), widen, ManagerColumnsOf,
                 (e: Employee) => ManagerRow(e.id, e.firstName + " " + e.lastName, DepartmentName(DepartmentOf(s, e))));
  }

  function ManagerIds(rows: seq<ManagerRow>): set<int> {
    set r | r in rows :: r.id
  }

  /** Rows that carry, one for one, the ids of `top` list the same ids. */
  lemma RowIdsFollow(top: seq<Employee>, rows: seq<ManagerRow>)
    requires |rows| == |top|
    requires forall i :: 0 <= i < |top| ==> rows[i].id == top[i].id
    ensures ManagerIds(rows) == set e | e in top :: e.id
  {
    forall x | x in ManagerIds(rows)
      ensures exists e :: e in top && e.id == x
    {
      var r :| r in rows && r.id == x;
      var j :| 0 <= j < |rows| && rows[j] == r;
      assert top[j] in top;
    }
    forall e | e in top
      ensures e.id in ManagerIds(rows)
    {
      var j :| 0 <= j < |top| && top[j] == e;
      assert rows[j] in rows;
    }
  }

  /** The ids `readManagers()` lists are the ids of the top-level employees. */
  lemma ManagerIdsAreTopLevel(s: Store)
    requires WellFormed(s)
    ensures ManagerIds(ReadManagers(s)) == set e | e in TopLevel(s) :: e.id
  {
    ReadManagersMeaning(s);
    RowIdsFollow(TopLevel(s), ReadManagers(s));
  }

  /** An employee is listed by `readManagers()` exactly when their
      `manager_id` is NULL, whatever their role's title. */
  lemma ReadManagersExactly(s: Store, k: int)
    requires WellFormed(s)
    requires 0 <= k < |s.employees|
    ensures s.employees[k].managerId.None? <==> s.employees[k].id in ManagerIds(ReadManagers(s))
  {
    ManagerIdsAreTopLevel(s);
    var e := s.employees[k];
    var top := TopLevel(s);
    if e.managerId.None? {
      assert e in top;
    }
    if e.id in ManagerIds(ReadManagers(s)) {
      var t :| t in top && t.id == e.id;
      KeyIdentifies(s.employees, EmployeeKey, t, k);
    }
  }

  // ------------------------------------------------------------ readRoles

  /** A role widened by `JOIN departments ON roles.department_id = departments.id`. */
  datatype RoleJoin = RoleJoin(role: Role, dept: Option<Department>)

  /** A row of `readRoles`; the two ids are present exactly when `includeId`. */
  datatype RoleRow = RoleRow(roleId: Option<int>, departmentId: Option<int>, department: Option<string>,
                             title: string, salary: int)

  function BareRole(r: Role): RoleJoin {
    RoleJoin(r, None)
  }

  function RoleColumns(j: RoleJoin, includeId: bool): RoleRow {
    RoleRow(if includeId then Some(j.role.id) else None,
            if includeId then (match j.dept case None => None case Some(d) => Some(d.id)) else None,
            DepartmentName(j.dept), j.role.title, j.role.salary)
  }

  /** `readRoles(includeId)`: an inner join, so roles without a department drop out. */
  function ReadRoles(s: Store, includeId: bool): seq<RoleRow> {
    Select(Join(Inner, Select(s.roles, BareRole), s.departments,
                (j: RoleJoin) => Some(j.role.departmentId), DepartmentKey,
                (j: RoleJoin, d: Option<Department>) => j.(dept := d)),
           (j: RoleJoin) => RoleColumns(j, includeId))
  }

  function Staffed(s: Store): seq<Role> {
    Where(s.roles, (r: Role) => FindDepartment(s, Some(r.departmentId)).Some?)
  }

  lemma {:induction false} InnerRoles(s: Store, roles: seq<Role>)
    ensures InnerOnKey(Select(roles, BareRole), s.departments, (j: RoleJoin) => Some(j.role.departmentId), DepartmentKey,
                       (j: RoleJoin, d: Option<Department>) => j.(dept := d))
         == Select(Where(roles, (r: Role) => FindDepartment(s, Some(r.departmentId)).Some?),
                   (r: Role) => RoleJoin(r, FindDepartment(s, Some(r.departmentId))))
  {
    if roles != [] {
      InnerRoles(s, roles[1..]);
      assert Select(roles, BareRole)[1..] == Select(roles[1..], BareRole);
    }
  }

  /** `readRoles` lists exactly the roles whose department exists, each once,
      with that department's name. */
  lemma ReadRolesMeaning(s: Store, includeId: bool)
    requires WellFormed(s)
    ensures ReadRoles(s, includeId)
         == Select(Staffed(s), (r: Role) => RoleColumns(RoleJoin(r, FindDepartment(s, Some(r.departmentId))), includeId))
  {
    var lkey := (j: RoleJoin) => Some(j.role.departmentId);
    var put := (j: RoleJoin, d: Option<Department>) => j.(dept := d);
    InnerJoinOnKey(Select(s.roles, BareRole), s.departments, lkey, DepartmentKey, put);
    InnerRoles(s, s.roles);
    SelectSelect(Staffed(s), (r: Role) => RoleJoin(r, FindDepartment(s, Some(r.departmentId))),
                 (j: RoleJoin) => RoleColumns(j, includeId),
                 (r: Role) => RoleColumns(RoleJoin(r, FindDepartment(s, Some(r.departmentId))), includeId));
  }

  function RoleIds(rows: seq<RoleRow>): set<Option<int>> {
    set r | r in rows :: r.roleId
  }

  /** Rows that carry, one for one, the ids of `roles` list the same ids. */
  lemma RoleRowIdsFollow(roles: seq<Role>, rows: seq<RoleRow>)
    requires |rows| == |roles|
    requires forall i :: 0 <= i < |roles| ==> rows[i].roleId == Some(roles[i].id)
    ensures RoleIds(rows) == set r | r in roles :: Some(r.id)
  {
    forall x | x in RoleIds(rows)
      ensures exists r :: r in roles && Some(r.id) == x
    {
      var row :| row in rows && row.roleId == x;
      var j :| 0 <= j < |rows| && rows[j] == row;
      assert roles[j] in roles;
    }
    forall r | r in roles
      ensures Some(r.id) in RoleIds(rows)
    {
      var j :| 0 <= j < |roles| && roles[j] == r;
      assert rows[j] in rows;
    }
  }

  /** The role ids `readRoles(true)` lists are those of the staffed roles. */
  lemma RoleIdsAreStaffed(s: Store)
    requires WellFormed(s)
    ensures RoleIds(ReadRoles(s, true)) == set r | r in Staffed(s) :: Some(r.id)
  {
    ReadRolesMeaning(s, true);
    RoleRowIdsFollow(Staffed(s), ReadRoles(s, true));
  }

  /** A role appears in `readRoles(true)` exactly when its `department_id`
      names an existing department. */
  lemma ReadRolesExactly(s: Store, k: int)
    requires WellFormed(s)
    requires 0 <= k < |s.roles|
    ensures Some(s.roles[k].id) in RoleIds(ReadRoles(s, true))
        <==> FindDepartment(s, Some(s.roles[k].departmentId)).Some?
  {
    RoleIdsAreStaffed(s);
    var r := s.roles[k];
    var staffed := Staffed(s);
    if FindDepartment(s, Some(r.departmentId)).Some? {
      assert r in staffed;
    }
    if Some(r.id) in RoleIds(ReadRoles(s, true)) {
      var t :| t in staffed && Some(t.id) == Some(r.id);
      KeyIdentifies(s.roles, RoleKey, t, k);
    }
  }

  /** The inner join never leaves the department column NULL: every row
      names a stored department, and carries that department's id exactly
      when ids are selected. */
  lemma ReadRolesHaveDepartment(s: Store, includeId: bool)
    requires WellFormed(s)
    ensures forall row :: row in ReadRoles(s, includeId) ==>
              && (row.departmentId.Some? <==> includeId)
              && exists d :: d in s.departments && row.department == Some(d.name)
                             && (includeId ==> row.departmentId == Some(d.id))
  {
    ReadRolesMeaning(s, includeId);
    var staffed := Staffed(s);
    var rows := Select(staffed, (r: Role) => RoleColumns(RoleJoin(r, FindDepartment(s, Some(r.departmentId))), includeId));
    forall row | row in rows
      ensures && (row.departmentId.Some? <==> includeId)
              && exists d :: d in s.departments && row.department == Some(d.name)
                             && (includeId ==> row.departmentId == Some(d.id))
    {
      var j :| 0 <= j < |rows| && rows[j] == row;
      var d := FindDepartment(s, Some(staffed[j].departmentId)).value;
      assert d in s.departments && row.department == Some(d.name);
    }
  }

  // ------------------------------------------------------------ readDepartments

  /** A row of `readDepartments`: `id` and `name`, or the name alone under the
      header `All Departments:`. */
  datatype DepartmentRow = DepartmentRow(id: Option<int>, name: string)

  function ReadDepartments(s: Store, includeId: bool): (rows: seq<DepartmentRow>)
    ensures |rows| == |s.departments|
    ensures forall i :: 0 <= i < |rows| ==>
              rows[i].name == s.departments[i].name
              && (rows[i].id.Some? <==> includeId)
              && (includeId ==> rows[i].id == Some(s.departments[i].id))
  {
    Select(s.departments, (d: Department) => DepartmentRow(if includeId then Some(d.id) else None, d.name))
  }

  // ------------------------------------------------------------ readEmployeesByDepartment

  /** A row of `readEmployeesByDepartment`: `Employee` (full name) and `Title`. */
  datatype StaffRow = StaffRow(employee: string, title: Option<string>)

  function StaffColumns(w: Wide): StaffRow {
    StaffRow(w.emp.firstName + " " + w.emp.lastName, RoleTitle(w.role))
  }

  /** `readEmployeesByDepartment(n)` for a numeric `n`. */
  function ReadEmployeesByDepartment(s: Store, n: int): seq<StaffRow> {
    Select(Where(SubjectChain(s), (w: Wide) => Selects(InDepartment(n), w)), StaffColumns)
  }

  /** One row per employee whose role belongs to the existing department `n`. */
  lemma ReadEmployeesByDepartmentMeaning(s: Store, n: int)
    requires WellFormed(s)
    ensures ReadEmployeesByDepartment(s, n)
         == Select(Where(s.employees, (e: Employee) => DepartmentOf(s, e).Some? && DepartmentOf(s, e).value.id == n),
                   (e: Employee) => StaffRow(e.firstName + " " + e.lastName, RoleTitle(FindRole(s, Some(e.roleId)))))
  {
    SubjectChainRows(s);
    var widen := (e: Employee) => WidenSubject(s, e);
    var inDept := (e: Employee) => DepartmentOf(s, e).Some? && DepartmentOf(s, e).value.id == n;
    WhereSelect(s.employees, widen, (w: Wide) => Selects(InDepartment(n), w), inDept);
    SelectSelect(Where(s.employees, inDept), widen, StaffColumns,
                 (e: Employee) => StaffRow(e.firstName + " " + e.lastName, RoleTitle(FindRole(s, Some(e.roleId)))));
  }
}
