/** The SQL text and bound parameters of every `Db` method.

    Each builder returns the exact text the method sends and the ordered
    values that fill its `?` placeholders. Long literals of the original are
    kept verbatim but cut into shorter pieces so that the recognisers in
    `QueryParse` can tell them apart. */
module QueryText {
  import opened Nullable
  import opened Js
  import opened Text
  import opened Binding

  /** A statement as handed to the driver: its text and its positional
      parameters. */
  datatype Query = Query(text: string, params: seq<Value>)

  /** The fields of the payload objects the `Db` methods read. A field the
      caller leaves out is `Undefined`. */
  datatype DepartmentData = DepartmentData(id: Value, name: Value)
  datatype RoleData = RoleData(id: Value, title: Value, salary: Value, departmentId: Value)
  datatype EmployeeData = EmployeeData(employeeId: Value, firstName: Value, lastName: Value,
                                       roleId: Value, managerId: Value)

  // ------------------------------------------------------------ create

  // The write texts are written as their pieces between the `?`s, so that
  // the placeholders can be counted piece by piece.

  const InsertDepartment := "INSERT INTO `departments`(" + "`name`) VALUES(" + "?" + ");"
  const InsertEmployee := "INSERT INTO `employees`(" + "`first_name`, `last_name`, "
                        + "`role_id`, `manager_id`) VALUES(" + "?" + "," + "?" + "," + "?" + "," + "?" + ")"
  const InsertRole := "INSERT INTO `roles`(`title`, " + "`salary`, `department_id`) "
                    + "VALUES(" + "?" + "," + "?" + "," + "?" + ");"

  /** `createDepartment(data)`: the driver wraps the single scalar
      `data.name` as the one parameter, for the one `?`. */
  function CreateDepartment(d: DepartmentData): (q: Query)
    ensures Placeholders(q.text) == |q.params|
  {
    InsertDepartmentMarks();
    Query(InsertDepartment, [d.name])
  }

  /** `createEmployee(data)`; its text has no closing `;`. */
  function CreateEmployee(d: EmployeeData): (q: Query)
    ensures Placeholders(q.text) == |q.params|
  {
    InsertEmployeeMarks();
    Query(InsertEmployee, [d.firstName, d.lastName, d.roleId, d.managerId])
  }

  function CreateRole(d: RoleData): (q: Query)
    ensures Placeholders(q.text) == |q.params|
  {
    InsertRoleMarks();
    Query(InsertRole, [d.title, d.salary, d.departmentId])
  }

  lemma InsertPieces()
    ensures '?' !in "INSERT INTO `departments`(" + "`name`) VALUES(" && '?' !in ");"
    ensures '?' !in "," && '?' !in ")"
  {
  }

  lemma InsertDepartmentMarks()
    ensures Placeholders(InsertDepartment) == 1
  {
    InsertPieces();
    Marked1("INSERT INTO `departments`(" + "`name`) VALUES(", ");");
  }

  lemma InsertEmployeePieces()
    ensures '?' !in "INSERT INTO `employees`(" + "`first_name`, `last_name`, " + "`role_id`, `manager_id`) VALUES("
  {
    InsertEmployeeColumns();
  }

  lemma InsertEmployeeColumns()
    ensures '?' !in "`role_id`, `manager_id`) VALUES("
  {
  }

  lemma InsertEmployeeMarks()
    ensures Placeholders(InsertEmployee) == 4
  {
    InsertPieces();
    InsertEmployeePieces();
    Marked4("INSERT INTO `employees`(" + "`first_name`, `last_name`, " + "`role_id`, `manager_id`) VALUES(",
            ",", ",", ",", ")");
  }

  lemma InsertRolePieces()
    ensures '?' !in "INSERT INTO `roles`(`title`, " + "`salary`, `department_id`) " + "VALUES("
  {
    InsertRoleColumns();
  }

  lemma InsertRoleColumns()
    ensures '?' !in "`salary`, `department_id`) "
  {
  }

  lemma InsertRoleMarks()
    ensures Placeholders(InsertRole) == 3
  {
    InsertPieces();
    InsertRolePieces();
    Marked3("INSERT INTO `roles`(`title`, " + "`salary`, `department_id`) " + "VALUES(", ",", ",", ");");
  }

  // ------------------------------------------------------------ readDepartments

  // The read texts bind no parameter. Their literals are cut into short
  // pieces, and each piece is shown to hold no `?`, so that the only `?` a
  // read text can carry is one inside a value spliced into it.

  const Select := "SELECT "
  const DepartmentIdColumn := "`id`, "
  const DepartmentNameColumn := "`name` "
  const AllDepartmentsAlias := "AS `All Departments:` "
  const FromDepartments := "FROM `departments`;"

  function ReadDepartments(includeId: bool): (q: Query)
    ensures Placeholders(q.text) == |q.params|
  {
    ReadDepartmentsUnmarked();
    Unmarked(Select + (if includeId then DepartmentIdColumn else "") + DepartmentNameColumn
             + (if !includeId then AllDepartmentsAlias else "") + FromDepartments);
    Query(Select + (if includeId then DepartmentIdColumn else "") + DepartmentNameColumn
          + (if !includeId then AllDepartmentsAlias else "") + FromDepartments, [])
  }

  lemma ReadDepartmentsUnmarked()
    ensures '?' !in Select && '?' !in DepartmentIdColumn && '?' !in DepartmentNameColumn
    ensures '?' !in AllDepartmentsAlias && '?' !in FromDepartments
  {
  }

  // ------------------------------------------------------------ shared pieces

  const FromEmployees := "FROM `employees` "
  const JoinRoles := "LEFT JOIN `roles` ON " + "`employees`.`role_id` = " + "`roles`.`id` "
  const JoinDepartments := "LEFT JOIN `departments` ON " + "`roles`.`department_id` = " + "`departments`.`id` "
  const DepartmentLabelColumn := "`departments`.`name` " + "AS `Department`, "
  const SalaryColumn := "CONCAT('$', " + "FORMAT(`roles`.`salary`, 2)) " + "AS `Salary` "

  lemma FromEmployeesUnmarked()
    ensures '?' !in FromEmployees
  {
  }

  lemma JoinRolesUnmarked()
    ensures '?' !in JoinRoles
  {
  }

  lemma JoinDepartmentsUnmarked()
    ensures '?' !in JoinDepartments
  {
  }

  lemma DepartmentLabelUnmarked()
    ensures '?' !in DepartmentLabelColumn
  {
  }

  lemma SalaryColumnUnmarked()
    ensures '?' !in SalaryColumn
  {
  }

  // ------------------------------------------------------------ readDepartmentSalaries

  const BudgetName := "SELECT `departments`.`name` " + "AS `Department`, "
  const BudgetSum := "CONCAT('$', " + "FORMAT(SUM(" + "`roles`.`salary`), 2)) " + "AS `Budget Utilization` "
  const GroupByDepartment := "GROUP BY `departments`.`id`;"
  const DepartmentSalaries := BudgetName + BudgetSum + FromEmployees + JoinRoles + JoinDepartments
                              + GroupByDepartment

  function ReadDepartmentSalaries(): (q: Query)
    ensures Placeholders(q.text) == |q.params|
  {
    DepartmentSalariesUnmarked();
    Unmarked(DepartmentSalaries);
    Query(DepartmentSalaries, [])
  }

  lemma BudgetNameUnmarked()
    ensures '?' !in BudgetName
  {
  }

  lemma BudgetSumUnmarked()
    ensures '?' !in BudgetSum
  {
  }

  lemma GroupByUnmarked()
    ensures '?' !in GroupByDepartment
  {
  }

  lemma DepartmentSalariesUnmarked()
    ensures '?' !in DepartmentSalaries
  {
    BudgetNameUnmarked();
    BudgetSumUnmarked();
    FromEmployeesUnmarked();
    JoinRolesUnmarked();
    JoinDepartmentsUnmarked();
    GroupByUnmarked();
  }

  // ------------------------------------------------------------ readEmployees

  const EmployeeIdColumn := "`employees`.`id`, "
  const FirstNameColumn := "`employees`.`first_name` " + "AS `First Name`, "
  const SubjectColumns := FirstNameColumn + SubjectRest
  const SubjectRest := LastNameColumn + DepartmentLabelColumn + RoleTitleColumn + SalaryColumn
  const LastNameColumn := "`employees`.`last_name` " + "AS `Last Name`, "
  const RoleTitleColumn := "`roles`.`title` AS `Role`, "
  const Divider := ", '|' AS `|`, "
  const ManagerColumns := Divider + ManagerRest
  const ManagerRest := ManagerNameColumn + ManagerDepartmentColumn + ManagerTitleColumn + ManagerSalaryColumn
  const ManagerNameColumn := "CONCAT(`managers`.`first_name`, " + "' ', `managers`.`last_name`) " + "AS `Manager Name`, "
  const ManagerDepartmentColumn := "`manager_departments`.`name` " + "AS `Mgr Dept.`,"
  const ManagerTitleColumn := "`manager_roles`.`title` " + "AS `Mgr Role`, "
  const ManagerSalaryColumn := "CONCAT('$', FORMAT(" + "`manager_roles`.`salary`, 2)) " + "AS `Mgr Salary` "
  const EmployeeChain := FromEmployees + EmployeeJoins
  const EmployeeJoins := LeadingJoins + LastJoin
  const LeadingJoins := JoinRoles + JoinDepartments + JoinManagers + JoinManagerRoles + JoinManagerDepartments
  const JoinManagers := "LEFT JOIN `employees` " + "`managers` " + "ON `employees`.`manager_id` = " + "`managers`.`id` "
  const JoinManagerRoles := "LEFT JOIN `roles` " + "`manager_roles` ON " + "`managers`.`role_id` = "
                            + "`manager_roles`.`id` "
  const JoinManagerDepartments := "LEFT JOIN `departments` " + "`manager_departments` ON "
                                  + "`manager_roles`.`department_id` "
  const LastJoin := "= `manager_departments`.`id`"
  const WhereKeyword := " WHERE "

  /** The tail of `readEmployees`: a truthy `where` is appended between
      ` WHERE ` and `;`; otherwise nothing, not even the `;`. */
  function WhereClause(where: Value): string {
    if Truthy(where) then WhereKeyword + ToText(where) + ";" else ""
  }

  /** `readEmployees(includeId, where, includeManagerInfo)`. The condition is
      spliced into the text unescaped, so a `?` inside it becomes a
      placeholder with no value bound to it. */
  function ReadEmployees(includeId: bool, where: Value, includeManagerInfo: bool): (q: Query)
    ensures Placeholders(q.text) == |q.params| + (if Truthy(where) then Placeholders(ToText(where)) else 0)
  {
    EmployeeHeadUnmarked(includeId, includeManagerInfo);
    WhereMarks(Select + (if includeId then EmployeeIdColumn else "") + SubjectColumns
               + (if includeManagerInfo then ManagerColumns else "") + EmployeeChain, where);
    Query(Select + (if includeId then EmployeeIdColumn else "") + SubjectColumns
          + (if includeManagerInfo then ManagerColumns else "") + EmployeeChain + WhereClause(where), [])
  }

  lemma IdColumnsUnmarked()
    ensures '?' !in Select && '?' !in EmployeeIdColumn
  {
  }

  lemma FirstNameUnmarked()
    ensures '?' !in FirstNameColumn
  {
  }

  lemma LastNameUnmarked()
    ensures '?' !in LastNameColumn
  {
  }

  lemma RoleTitleUnmarked()
    ensures '?' !in RoleTitleColumn
  {
  }

  lemma SubjectColumnsUnmarked()
    ensures '?' !in SubjectColumns
  {
    FirstNameUnmarked();
    LastNameUnmarked();
    DepartmentLabelUnmarked();
    RoleTitleUnmarked();
    SalaryColumnUnmarked();
  }

  lemma DividerUnmarked()
    ensures '?' !in Divider
  {
  }

  lemma ManagerNameUnmarked()
    ensures '?' !in ManagerNameColumn
  {
  }

  lemma ManagerDepartmentUnmarked()
    ensures '?' !in ManagerDepartmentColumn
  {
  }

  lemma ManagerTitleUnmarked()
    ensures '?' !in ManagerTitleColumn
  {
  }

  lemma ManagerSalaryUnmarked()
    ensures '?' !in ManagerSalaryColumn
  {
  }

  lemma ManagerColumnsUnmarked()
    ensures '?' !in ManagerColumns
  {
    DividerUnmarked();
    ManagerNameUnmarked();
    ManagerDepartmentUnmarked();
    ManagerTitleUnmarked();
    ManagerSalaryUnmarked();
  }

  lemma JoinManagersUnmarked()
    ensures '?' !in JoinManagers
  {
  }

  lemma JoinManagerRolesUnmarked()
    ensures '?' !in JoinManagerRoles
  {
  }

  lemma JoinManagerDepartmentsUnmarked()
    ensures '?' !in JoinManagerDepartments
  {
  }

  lemma LastJoinUnmarked()
    ensures '?' !in LastJoin
  {
  }

  lemma EmployeeChainUnmarked()
    ensures '?' !in EmployeeChain
  {
    FromEmployeesUnmarked();
    JoinRolesUnmarked();
    JoinDepartmentsUnmarked();
    JoinManagersUnmarked();
    JoinManagerRolesUnmarked();
    JoinManagerDepartmentsUnmarked();
    LastJoinUnmarked();
  }

  lemma EmployeeHeadUnmarked(includeId: bool, includeManagerInfo: bool)
    ensures '?' !in Select + (if includeId then EmployeeIdColumn else "") + SubjectColumns
                    + (if includeManagerInfo then ManagerColumns else "") + EmployeeChain
  {
    IdColumnsUnmarked();
    SubjectColumnsUnmarked();
    ManagerColumnsUnmarked();
    EmployeeChainUnmarked();
  }

  lemma WhereKeywordUnmarked()
    ensures '?' !in WhereKeyword
  {
  }

  lemma WhereMarks(head: string, where: Value)
    requires '?' !in head
    ensures Placeholders(head + WhereClause(where)) == if Truthy(where) then Placeholders(ToText(where)) else 0
  {
    Unmarked(head);
    PlaceholdersConcat(head, WhereClause(where));
    if Truthy(where) {
      WhereKeywordUnmarked();
      Spliced(WhereKeyword, ToText(where), ";");
    } else {
      assert head + WhereClause(where) == head;
    }
  }

  // ------------------------------------------------------------ readEmployeesByDepartment

  const StaffNameColumn := "SELECT CONCAT(" + "`employees`.`first_name`, ' ', " + "`employees`.`last_name`) "
                           + "AS `Employee`, "
  const StaffTitleColumn := "`roles`.`title` AS `Title` "
  const WhereDepartment := "WHERE `departments`.`id` = "
  const StaffOfDepartment := StaffNameColumn + StaffTitleColumn + FromEmployees + JoinRoles + JoinDepartments
                             + WhereDepartment

  /** `readEmployeesByDepartment(department_id)`: the argument is spliced in
      as text, whatever it is, and any `?` in it with it. */
  function ReadEmployeesByDepartment(departmentId: Value): (q: Query)
    ensures Placeholders(q.text) == |q.params| + Placeholders(ToText(departmentId))
  {
    StaffOfDepartmentUnmarked();
    Spliced(StaffOfDepartment, ToText(departmentId), ";");
    Query(StaffOfDepartment + ToText(departmentId) + ";", [])
  }

  lemma StaffNameUnmarked()
    ensures '?' !in StaffNameColumn
  {
  }

  lemma StaffTitleUnmarked()
    ensures '?' !in StaffTitleColumn
  {
  }

  lemma WhereDepartmentUnmarked()
    ensures '?' !in WhereDepartment
  {
  }

  lemma StaffOfDepartmentUnmarked()
    ensures '?' !in StaffOfDepartment
  {
    StaffNameUnmarked();
    StaffTitleUnmarked();
    FromEmployeesUnmarked();
    JoinRolesUnmarked();
    JoinDepartmentsUnmarked();
    WhereDepartmentUnmarked();
  }

  // ------------------------------------------------------------ readManagers

  const ManagerIdNameColumns := "SELECT `managers`.`id`, " + "CONCAT(`managers`.`first_name`, "
                                + "' ', `managers`.`last_name`) " + "AS `Name`, "
  const ManagerDepartmentLabel := "`departments`.`name` " + "as `Department` "
  const FromManagers := "FROM `employees` AS `managers` "
  const JoinManagersRoles := "LEFT JOIN `roles` ON " + "`managers`.`role_id` = " + "`roles`.`id` "
  const WhereTopLevel := "WHERE `managers`.`manager_id` " + "IS NULL"
  const TopLevelManagers := ManagerIdNameColumns + ManagerDepartmentLabel + FromManagers + JoinManagersRoles
                            + JoinDepartments + WhereTopLevel
  const DepartmentFilter := ", `departments`.`id`="

  /** `readManagers(department_id)`. A truthy argument is appended after the
      `IS NULL` test with a comma rather than `AND`. */
  function ReadManagers(departmentId: Value): (q: Query)
    ensures EndsWith(q.text, ";")
    ensures Placeholders(q.text) == |q.params| + (if Truthy(departmentId) then Placeholders(ToText(departmentId)) else 0)
  {
    EndsWithConcat(TopLevelManagers + (if Truthy(departmentId) then DepartmentFilter + ToText(departmentId) else ""), ";");
    ManagersMarks(departmentId);
    Query(TopLevelManagers + (if Truthy(departmentId) then DepartmentFilter + ToText(departmentId) else "") + ";", [])
  }

  lemma ManagerIdNameUnmarked()
    ensures '?' !in ManagerIdNameColumns
  {
  }

  lemma ManagerDepartmentLabelUnmarked()
    ensures '?' !in ManagerDepartmentLabel
  {
  }

  lemma FromManagersUnmarked()
    ensures '?' !in FromManagers
  {
  }

  lemma JoinManagersRolesUnmarked()
    ensures '?' !in JoinManagersRoles
  {
  }

  lemma WhereTopLevelUnmarked()
    ensures '?' !in WhereTopLevel
  {
  }

  lemma DepartmentFilterUnmarked()
    ensures '?' !in DepartmentFilter
  {
  }

  lemma TopLevelManagersUnmarked()
    ensures '?' !in TopLevelManagers
  {
    ManagerIdNameUnmarked();
    ManagerDepartmentLabelUnmarked();
    FromManagersUnmarked();
    JoinManagersRolesUnmarked();
    JoinDepartmentsUnmarked();
    WhereTopLevelUnmarked();
  }

  lemma ManagersMarks(departmentId: Value)
    ensures Placeholders(TopLevelManagers + (if Truthy(departmentId) then DepartmentFilter + ToText(departmentId) else "")
                         + ";")
         == if Truthy(departmentId) then Placeholders(ToText(departmentId)) else 0
  {
    TopLevelManagersUnmarked();
    DepartmentFilterUnmarked();
    if Truthy(departmentId) {
      var x := ToText(departmentId);
      assert TopLevelManagers + (DepartmentFilter + x) + ";" == TopLevelManagers + DepartmentFilter + x + ";";
      Spliced(TopLevelManagers + DepartmentFilter, x, ";");
    } else {
      assert TopLevelManagers + "" + ";" == TopLevelManagers + ";";
      Unmarked(TopLevelManagers + ";");
    }
  }

  // ------------------------------------------------------------ readRoles

  const RoleIdColumn := "`roles`.`id` AS `RoleId`, "
  const RoleIdColumns := RoleIdColumn + "`departments`.`id` " + "AS `DepartmentId`, "
  const RoleColumns := DepartmentLabelColumn + RoleRest
  const RoleTitleHeading := "`roles`.`title` AS `Title`, "
  const RoleRest := RoleTitleHeading + SalaryColumn + FromRoles
  const FromRoles := "FROM `roles` " + "JOIN `departments` ON " + "`roles`.`department_id` = " + "`departments`.`id`;"

  function ReadRoles(includeId: bool): (q: Query)
    ensures Placeholders(q.text) == |q.params|
  {
    ReadRolesUnmarked(includeId);
    Unmarked(Select + (if includeId then RoleIdColumns else "") + RoleColumns);
    Query(Select + (if includeId then RoleIdColumns else "") + RoleColumns, [])
  }

  lemma RoleIdColumnsUnmarked()
    ensures '?' !in RoleIdColumns
  {
  }

  lemma RoleTitleHeadingUnmarked()
    ensures '?' !in RoleTitleHeading
  {
  }

  lemma FromRolesUnmarked()
    ensures '?' !in FromRoles
  {
  }

  lemma ReadRolesUnmarked(includeId: bool)
    ensures '?' !in Select + (if includeId then RoleIdColumns else "") + RoleColumns
  {
    IdColumnsUnmarked();
    RoleIdColumnsUnmarked();
    DepartmentLabelUnmarked();
    RoleTitleHeadingUnmarked();
    SalaryColumnUnmarked();
    FromRolesUnmarked();
  }

  // ------------------------------------------------------------ update

  const SetDepartment := "UPDATE `departments` AS " + "`Department` SET " + "`Department`.`name` = "
                       + "?" + " WHERE `id` = " + "?" + " LIMIT 1;"
  const SetEmployee := "UPDATE `employees` AS " + "`Employee` SET " + "`Employee`.`first_name` = "
                     + "?" + ", `Employee`.`last_name` = " + "?" + ", `Employee`.`role_id` = "
                     + "?" + ", `Employee`.`manager_id` = " + "?" + " WHERE `id`=" + "?" + " LIMIT 1;"
  const SetRole := "UPDATE `roles` as `Role` SET " + "`Role`.`title` = "
                 + "?" + ", `Role`.`salary` = " + "?" + ", `Role`.`department_id` = "
                 + "?" + " WHERE `id` = " + "?" + " LIMIT 1;"

  /** `updateDepartment(data)`: the new name, then the id. */
  function UpdateDepartment(d: DepartmentData): (q: Query)
    ensures Placeholders(q.text) == |q.params|
  {
    SetDepartmentMarks();
    Query(SetDepartment, [d.name, d.id])
  }

  /** `updateEmployee(data)`: the four new column values, then
      `data.employee_id`. */
  function UpdateEmployee(d: EmployeeData): (q: Query)
    ensures Placeholders(q.text) == |q.params|
  {
    SetEmployeeMarks();
    Query(SetEmployee, [d.firstName, d.lastName, d.roleId, d.managerId, d.employeeId])
  }

  /** `updateRole(data)`: the three new column values, then the id. */
  function UpdateRole(d: RoleData): (q: Query)
    ensures Placeholders(q.text) == |q.params|
  {
    SetRoleMarks();
    Query(SetRole, [d.title, d.salary, d.departmentId, d.id])
  }

  lemma UpdateTails()
    ensures '?' !in " WHERE `id` = " && '?' !in " WHERE `id`=" && '?' !in " LIMIT 1;"
  {
  }

  lemma SetDepartmentPieces()
    ensures '?' !in "UPDATE `departments` AS " + "`Department` SET " + "`Department`.`name` = "
  {
  }

  lemma SetDepartmentMarks()
    ensures Placeholders(SetDepartment) == 2
  {
    UpdateTails();
    SetDepartmentPieces();
    Marked2("UPDATE `departments` AS " + "`Department` SET " + "`Department`.`name` = ",
            " WHERE `id` = ", " LIMIT 1;");
  }

  lemma SetEmployeeHead()
    ensures '?' !in "UPDATE `employees` AS " + "`Employee` SET " + "`Employee`.`first_name` = "
  {
  }

  lemma SetEmployeeColumns()
    ensures '?' !in ", `Employee`.`last_name` = " && '?' !in ", `Employee`.`role_id` = "
    ensures '?' !in ", `Employee`.`manager_id` = "
  {
  }

  lemma SetEmployeeMarks()
    ensures Placeholders(SetEmployee) == 5
  {
    UpdateTails();
    SetEmployeeHead();
    SetEmployeeColumns();
    Marked5("UPDATE `employees` AS " + "`Employee` SET " + "`Employee`.`first_name` = ",
            ", `Employee`.`last_name` = ", ", `Employee`.`role_id` = ", ", `Employee`.`manager_id` = ",
            " WHERE `id`=", " LIMIT 1;");
  }

  lemma SetRolePieces()
    ensures '?' !in "UPDATE `roles` as `Role` SET " + "`Role`.`title` = "
    ensures '?' !in ", `Role`.`salary` = " && '?' !in ", `Role`.`department_id` = "
  {
    SetRoleColumns();
  }

  lemma SetRoleColumns()
    ensures '?' !in ", `Role`.`salary` = " && '?' !in ", `Role`.`department_id` = "
  {
  }

  lemma SetRoleMarks()
    ensures Placeholders(SetRole) == 4
  {
    UpdateTails();
    SetRolePieces();
    Marked4("UPDATE `roles` as `Role` SET " + "`Role`.`title` = ", ", `Role`.`salary` = ",
            ", `Role`.`department_id` = ", " WHERE `id` = ", " LIMIT 1;");
  }

  // ------------------------------------------------------------ delete

  const DeleteFrom := "DELETE FROM `"
  const DeleteWhere := "` WHERE `id` = " + "?" + ";"

  /** `delete(table, id)`: the table name is spliced between backticks
      unescaped; the id is the one parameter. A `?` inside the table name
      would be one more placeholder, with nothing bound to it. */
  function Delete(table: string, id: Value): (q: Query)
    ensures Placeholders(q.text) == |q.params| + Placeholders(table)
  {
    DeleteMarks(table);
    Query(DeleteFrom + table + DeleteWhere, [id])
  }

  lemma DeletePieces()
    ensures '?' !in DeleteFrom && '?' !in "` WHERE `id` = " && '?' !in ";"
  {
  }

  lemma DeleteMarks(table: string)
    ensures Placeholders(DeleteFrom + table + DeleteWhere) == Placeholders(table) + 1
  {
    DeletePieces();
    Unmarked(DeleteFrom);
    Marked1("` WHERE `id` = ", ";");
    PlaceholdersConcat(DeleteFrom, table);
    PlaceholdersConcat(DeleteFrom + table, DeleteWhere);
  }
}
