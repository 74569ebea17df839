# CLI organisation chart: a Dafny model of its data layer

The program is a command-line organisation chart over three MySQL tables:
`departments`, `roles` and `employees`. Every database call goes through one
data-access class, `Db`, in `connection/db.js`. Each `Db` method builds an
SQL text and a list of bound parameters from its arguments, then sends them
to the server. The prompt flow in `index.js` decides what to ask, which row
an answer selects, and which payload to send.

The model has three layers.

- **Texts.** Each `Db` method is a pure builder from its arguments to
  `(text, params)`, reproduced character for character. Recognisers read the
  flags and spliced values back out of each text, and round-trip lemmas prove
  that the text determines them (`QueryText`, `QueryParse`, `Text`).
- **Meanings.** The three tables are immutable sequences of records (`Schema`).
  Each read method becomes a chain of SQL joins over them (`Relational`), with
  results proved equal to a reference definition: one lookup per key
  (`Reads`, `Budget`). Each write method becomes a store transition (`Writes`).
  `Statements` binds a write statement's parameters by position and converts
  them to column values.
- **Prompt flow.** The pure parts of `index.js` are modelled separately:
  - the menu switch (`Menu`);
  - choice lists, lookup by the chosen id, delete pickers and filtered views
    (`Prompts`);
  - the "blank keeps the old value" payload merges (`Payloads`);
  - row objects indexed by column label (`Columns`).

JavaScript values (`null`, `undefined`, numbers, strings) and the three
JavaScript behaviours the flow relies on are in `Js`:

- truthiness;
- `String(x)`;
- loose `==`.

## Model

| member | source | states |
|---|---|---|
| QueryText.CreateDepartment | connection/db.js:19-23 | the text has exactly one `?` per bound parameter |
| QueryText.CreateEmployee | connection/db.js:25-29 | the text has exactly one `?` per bound parameter |
| QueryText.CreateRole | connection/db.js:31-35 | the text has exactly one `?` per bound parameter |
| QueryText.UpdateDepartment | connection/db.js:123-128 | the text has exactly one `?` per bound parameter |
| QueryText.UpdateEmployee | connection/db.js:130-136 | the text has exactly one `?` per bound parameter |
| QueryText.UpdateRole | connection/db.js:138-143 | the text has exactly one `?` per bound parameter |
| QueryText.Delete | connection/db.js:147-151 | the text has one `?` for the bound id, plus any `?` inside the table name spliced into it |
| QueryText.ReadDepartments | connection/db.js:39-47 | the text has exactly one `?` per bound parameter |
| QueryText.ReadDepartmentSalaries | connection/db.js:49-58 | the text has exactly one `?` per bound parameter |
| QueryText.ReadRoles | connection/db.js:109-117 | the text has exactly one `?` per bound parameter |
| QueryText.ReadEmployees | connection/db.js:60-80 | the `?`s beyond one per bound parameter are exactly those inside a truthy `where`, which is spliced in unescaped |
| QueryText.ReadEmployeesByDepartment | connection/db.js:83-91 | the `?`s beyond one per bound parameter are exactly those inside the spliced department argument |
| QueryText.ReadManagers | connection/db.js:94-106 | the text ends with `;`; the `?`s beyond one per bound parameter are exactly those inside a truthy spliced argument |
| QueryParse.ReadDepartmentsRoundTrip | connection/db.js:39-47 | the `readDepartments` text determines `includeId` |
| QueryParse.ReadDepartmentsSelectsId | connection/db.js:40-42 | the text selects `` `id`, `` before `` `name` `` exactly when `includeId` |
| QueryParse.ReadDepartmentsAliasesName | connection/db.js:42-44 | `` `name` `` is aliased `All Departments:` exactly when `includeId` is false |
| QueryParse.ReadEmployeesRoundTrip | connection/db.js:60-78 | the id column, the four manager columns and the WHERE clause each appear exactly when asked for; the FROM/JOIN chain between them is the same in every case; a truthy `where` is recovered verbatim |
| QueryParse.ReadEmployeesEnding | connection/db.js:72-78 | with a truthy `where` the text ends in `" WHERE " + where + ";"`; otherwise it ends at the last JOIN condition and has no `;` |
| QueryParse.StaffOfDepartmentRoundTrip | connection/db.js:83-89 | the department argument is spliced into the text as its `String()` form and can be read back |
| QueryParse.ReadManagersRoundTrip | connection/db.js:94-104 | a falsy argument leaves only the `IS NULL` test; a truthy one is appended after it behind `` , `departments`.`id`= `` |
| QueryParse.ReadRolesRoundTrip | connection/db.js:109-115 | the `readRoles` text determines `includeId` |
| QueryParse.ReadRolesIdColumns | connection/db.js:110-113 | `includeId` inserts exactly the `RoleId` and `DepartmentId` columns after `SELECT` and changes nothing else |
| QueryParse.DeleteRoundTrip | connection/db.js:147-148 | the table name is spliced between backticks verbatim and can be read back, whatever it contains |
| QueryParse.ManagerConditionMeaning | index.js:189 | the by-manager condition for id `n` means "`manager_id` is `n`" |
| QueryParse.DepartmentConditionMeaning | index.js:220 | the by-department condition for id `n` means "the department is `n`" |
| Statements.CreateDepartmentStatement | connection/db.js:19-23 | `createDepartment` inserts one department with the given name under the next id |
| Statements.CreateRoleStatement | connection/db.js:31-35 | `createRole` binds title, salary and department in that order and inserts that role |
| Statements.CreateEmployeeStatement | connection/db.js:25-29 | `createEmployee` binds first name, last name, role and manager in that order; a `null` manager is stored as NULL |
| Statements.UpdateDepartmentStatement | connection/db.js:123-128 | the name fills the first placeholder and the id the second: the statement renames that department |
| Statements.UpdateRoleStatement | connection/db.js:138-143 | the SET values in order, then the id: the statement updates that role's three columns |
| Statements.UpdateEmployeeStatement | connection/db.js:130-136 | the four SET values in order, then `employee_id`: the statement updates that employee |
| Statements.DeleteStatement | connection/db.js:147-151 | `delete(table, id)` on one of the three plain table names removes the row with that id from that table; the model treats every other name as rejected |
| Statements.WriteTextsDistinct | connection/db.js:20-141 | the six write texts are pairwise different, so a statement's text says which write it is |
| Reads.SubjectChainRows | connection/db.js:52-54 | two LEFT JOINs on key columns keep exactly one row per employee, with its role and that role's department |
| Reads.ManagerChainRows | connection/db.js:72-77 | the five LEFT JOINs of `readEmployees` keep one row per employee, with the manager found by `manager_id` and the manager's role and department |
| Reads.ReadEmployeesMeaning | connection/db.js:60-81 | one row per employee, in order, with its names, role and department; manager columns are all NULL without a manager and otherwise come from the manager's own row |
| Reads.ReadEmployeesIds | connection/db.js:62 | with `includeId`, row `k` carries employee `k`'s id |
| Reads.ReadEmployeesFiltered | connection/db.js:78 | a filtered view has one row per employee the condition keeps |
| Reads.KeptManagedBy | index.js:189-191 | the by-manager condition keeps exactly the employees whose `manager_id` is the id |
| Reads.KeptInDepartment | index.js:220-222 | the by-department condition keeps exactly the employees whose role belongs to that existing department |
| Reads.ReadManagersMeaning | connection/db.js:94-100 | `readManagers()` lists the employees whose `manager_id` is NULL, each with their role's department name |
| Reads.ReadManagersExactly | connection/db.js:100 | an employee is listed as a manager if and only if their `manager_id` is NULL |
| Reads.ReadRolesMeaning | connection/db.js:109-115 | `readRoles` is the inner join: the roles whose department exists, each with that department |
| Reads.ReadRolesExactly | connection/db.js:115 | a role appears if and only if its `department_id` matches an existing department |
| Reads.ReadRolesHaveDepartment | connection/db.js:111-115 | every role row names an existing department; its `DepartmentId` is present exactly when ids are selected, and is then that same department's id |
| Reads.ReadDepartments | connection/db.js:39-47 | one row per department, in order, with its name, and its id exactly when `includeId` |
| Reads.ReadEmployeesByDepartmentMeaning | connection/db.js:83-92 | one row per employee whose role belongs to department `n`, with full name and title |
| Budget.ReadDepartmentSalaries | connection/db.js:49-55 | no two rows share a group key, and each row is the group of a key that some joined row has, carrying that group's department name and salary sum |
| Budget.GroupedRows | connection/db.js:55 | GROUP BY yields a row for a key exactly when some joined row has that key |
| Budget.BudgetRowPresence | connection/db.js:52-55 | a department has a budget row exactly when at least one employee's role belongs to it; departments with no employees do not appear |
| Budget.BudgetOfDepartment | connection/db.js:50-55 | a reached department's row carries its name and, as total, the sum over its roles of salary times headcount |
| Budget.GroupSumIsBudget | connection/db.js:51 | `SUM(roles.salary)` over a department's group equals the per-employee total of their role salaries |
| Budget.BudgetByRoles | connection/db.js:51 | the per-employee total equals the per-role total, salary times headcount |
| Budget.NullGroup | connection/db.js:53-55 | employees with no role or no department fall into one NULL group |
| Writes.CreateDepartment | connection/db.js:19-23 | the insert appends exactly one row after the existing departments, which stay as they were; ids stay unique, the other tables are unchanged, and the new row is found by its id |
| Writes.CreateRole | connection/db.js:31-35 | the insert appends exactly one role after the existing roles, which stay as they were; ids stay unique, the other tables are unchanged, and the new role is found by its id |
| Writes.CreateEmployee | connection/db.js:25-29 | the insert appends exactly one employee after the existing employees, who stay as they were; ids stay unique, the other tables are unchanged, and the new employee is found by their id |
| Writes.CreatedDepartmentIsListed | connection/db.js:19-23 | after the insert, `readDepartments(true)` lists the old departments as before, followed by the new one with its id and name |
| Writes.UpdateFirst | connection/db.js:126 | the update keeps the number of rows and reports one affected row when some row has the id, none otherwise |
| Writes.UpdateFirstAt | connection/db.js:126 | `LIMIT 1`: a row is rewritten exactly when it is the first row with the id; every other row is kept |
| Writes.UpdateDepartment | connection/db.js:123-128 | only the row with the id gets the new name; every other row and table is unchanged; a missing id changes nothing |
| Writes.UpdateRole | connection/db.js:138-143 | only the row with the id gets the three new columns; nothing else changes |
| Writes.UpdateEmployee | connection/db.js:130-136 | only the row with the id gets the four new columns; nothing else changes |
| Writes.UpdateRoleIdempotent | connection/db.js:138-143 | repeating the same role update changes nothing more |
| Writes.UpdateEmployeeUnchanged | connection/db.js:130-136 | writing an employee's own values back leaves the store as it was |
| Writes.UpdateDepartmentUnchanged | connection/db.js:123-128 | writing a department's own name back leaves the store as it was |
| Writes.UpdateRoleUnchanged | connection/db.js:138-143 | writing a role's own values back leaves the store as it was |
| Writes.Delete | connection/db.js:147-151 | rejected exactly for a name other than the three plain table names; on each of the three tables, that table keeps exactly its rows whose id is not `id`, the other two tables are unchanged, the count is 1 if the id was present and 0 otherwise, and ids stay unique |
| Writes.RemoveOnKey | connection/db.js:148 | with unique ids, the delete counts 1 when a row has the id and 0 otherwise |
| Writes.RemoveKeyRemovesOnKey | connection/db.js:148 | every remaining row was there before and has another id; every row with another id remains |
| Writes.DeleteEmployee | connection/db.js:147-151 | deleting an employee removes only that employee and touches no other table |
| Writes.DeletedEmployeeNotListed | connection/db.js:147-151 | after the delete, `readEmployees(true)` no longer lists the id |
| Relational.LeftJoinOnKey | connection/db.js:73-77 | a LEFT JOIN on a unique key keeps each left row once, paired with its match or NULL |
| Relational.InnerJoinOnKey | connection/db.js:115 | an inner JOIN on a unique key keeps exactly the left rows that have a match |
| Schema.FindUnique | connection/db.js:126 | with unique ids, looking up a row's id finds that row |
| Js.IntTextRoundTrip | index.js:189 | the decimal text of an integer, as `"..." + id` writes it, reads back as that integer |
| Js.MoneyIsNoInt | connection/db.js:113 | a `CONCAT('$', FORMAT(x, 2))` salary text never reads as an integer |
| Js.ExitIsNoId | index.js:581 | the `Go back` answer `'exit'` is not loosely equal to any numeric id |
| Columns.UnselectedColumns | index.js:488-489 | rows of `readEmployees` have no `role_id` or `manager_id` property, and rows of `readRoles` no `department_id` |
| Menu.SeparatorPositions | index.js:66 | 21 lines, with separators exactly at positions 6, 10, 14, 18 and 20 |
| Menu.DispatchByPosition | index.js:66-121 | choosing the option at a position runs the action of that position |
| Menu.TextsDistinct | index.js:66 | no two selectable options share a text, so the answer names one option |
| Menu.ActionsDistinct | index.js:77-121 | positions 0-5, 7-9, 11-13 and 15-17 each have an action of their own, and none of them exits |
| Menu.UnknownAnswerExits | index.js:122-124 | an answer that is no option's text falls to `default` and exits |
| Prompts.Lookup | index.js:410-411 | the selected record is the first row whose id loosely equals the answer; none if no row does |
| Prompts.LookupChosen | index.js:410-411 | with distinct numeric ids, answering a row's id selects exactly that row |
| Prompts.ManagerChoices | index.js:303-305 | one entry per manager, in query order, each named `Name (Department)` with the manager's id, then one final `(None)` entry with `null` |
| Prompts.ManagerChoicesOffered | index.js:444-446 | the managers offered are exactly the employees without a manager |
| Prompts.PickerChoices | index.js:571-572 | a delete picker lists the rows, then one final `Go back` entry answering `'exit'` |
| Prompts.PickToDelete | index.js:581-586 | an `'exit'` answer goes back without deleting; any deletion targets the table given and the id of a listed row |
| Prompts.PickerOutcome | index.js:570-586 | choosing entry `i` deletes exactly row `i`'s id; choosing the last entry goes back |
| Prompts.GoBackDeletesNothing | index.js:581-583 | the `Go back` entry never leads to `Db.delete` |
| Prompts.DeleteEmployeePick | index.js:603-621 | choosing employee `k` deletes employee `k`'s id from `employees` |
| Prompts.DeleteDepartmentPick | index.js:570-586 | choosing department `k` deletes department `k`'s id from `departments` |
| Prompts.ByManagerView | index.js:187-191 | the by-manager view shows the employees managed by the chosen manager, without ids or manager columns |
| Prompts.ByDepartmentView | index.js:218-222 | the by-department view shows the employees of the chosen department |
| Payloads.DepartmentPayload | index.js:419-422 | `id` is the selected id; `name` is the answer if it is non-empty, otherwise the selected department's name |
| Payloads.BlankDepartmentNameKeepsStore | index.js:419-422 | a blank name writes the department's own name back and leaves the store unchanged |
| Payloads.DepartmentNameApplied | index.js:419-422 | a non-empty name renames the selected department |
| Payloads.EmployeePayload | index.js:484-490 | `employee_id` is the selected id; each field is the answer when the answer is truthy, and otherwise the fallback: the names read from the selected row for first and last name, `undefined` for role and manager |
| Payloads.NoManagerClearsManager | index.js:484-490 | the `(None)` answer falls back instead of being sent as `null`; the fallback is `undefined`, so the manager is cleared anyway |
| Payloads.RolePayloadAsWritten | index.js:541-546 | each of title, salary and department is the answer when the answer is truthy, and otherwise the selected row's `Title`, its formatted `Salary`, and `undefined` |
| Payloads.BlankSalaryRejected | index.js:544 | a blank salary sends the formatted salary text, which the salary column cannot take |
| Payloads.RolePayload | index.js:541-546 | the role payload with fallbacks from the stored role: a truthy answer is sent as given, a blank answer keeps that column's value |
| Payloads.BlankRoleAnswersKeepStore | index.js:523-546 | with the stored fallbacks, a blank title and salary keep the stored values while the picked department id is stored; with a falsy department answer the store is left unchanged |
| Payloads.TypedSalaryApplied | index.js:529-545 | a typed decimal salary is stored as that integer, with the blank title kept and the picked department id stored |

## Left out

- `connection/connection.js` is not part of this model. It only opens the
  MySQL connection with fixed credentials.
- The driver and the event loop are not modelled: `connection.promise().query`,
  result packets, `warningStatus` and `async`/`await`. A statement is a value;
  its effect is `Statements.Execute` or a read function of `Reads`.
- The prompts themselves are not modelled: answers are parameters. Also left
  out are the ASCII banners, `console.table`, `process.kill`, and the
  self-calling re-prompt and `init` loop.
- The `console.log` calls in `readEmployeesByDepartment` and `delete`
  (connection/db.js:90 and connection/db.js:149) are not modelled. They print
  the SQL text and, for `delete`, the id; they change nothing.
- The schema file is not available, so foreign keys, cascades and column
  types are not modelled. Two choices stand in for them:
  - The store holds names, role ids and department ids as non-NULL values. A
    NULL bound to one of those columns is treated as a rejected value.
  - A string bound to an integer column must be decimal integer text.
    Decimal fractions are not modelled.
- Result order is not modelled. No query has `ORDER BY`; the model returns
  rows in table order, and the lemmas state row-by-row correspondence with the
  tables.
- Auto-increment is not modelled: an insert's new id is a parameter (`nextId`)
  and must be unused.
- The count that update and delete report is the number of rows matched.
  The driver's found-rows setting is not modelled.
- A free-form `where` has no meaning in the store model. Only the two
  conditions the flow builds get one (`QueryParse.FilterOfWhere`). The same
  holds for `readEmployeesByDepartment`, which nothing calls: its meaning is
  given for a numeric id only.
- `readManagers` with a truthy argument is given a text but no meaning. The
  comma after `IS NULL` makes the statement invalid SQL. The flow never passes
  an argument.
- The display text of salaries is modelled for whole amounts only: `$`, an
  optional sign, comma-grouped digits and `.00`. `Js.Money` is that text.
- `renderEmployees` passes its `where` argument (always `null`) as
  `readEmployees`' first parameter, `includeId`. It changes nothing, so the
  model does not include it.
- The role delete picker (index.js:637-656) is covered by the generic
  `Prompts.PickerOutcome`. There is no role-specific lemma.
- Js.LooseEq: covers only the comparisons the flow makes, between numbers
  and numbers, and between numbers and decimal integer text. JavaScript's
  full `==` also converts whitespace-padded text, a leading `+`, decimal
  fractions and the empty string (`0 == ""`); those cases are not modelled.
- Statements.IntOf: rejects a string that is not decimal integer text when
  it is bound to an integer column. MySQL in non-strict mode would coerce it
  (for example to 0) with a warning; that coercion is not modelled.
- Writes.Delete: the store meaning covers only the three plain table names
  the flow passes. `delete` splices its table argument into the text
  unescaped, so a qualified name such as ``org_chart_db`.`employees`` would
  run on the server, as would a differently-cased name when the server
  ignores table-name case. The model treats every other name as rejected;
  the same holds for Statements.DeleteStatement.
- Payloads.NoManagerClearsManager: assumes the chosen role id is not 0. A
  role id of 0 would be falsy and fall back to `undefined` as well.

## Findings

| source | as written | input that shows it | evidently intended | confidence | as-written member | corrected member |
|---|---|---|---|---|---|---|
| index.js:544-545 | a blank salary falls back to `thisRole.Salary`, the formatted `$50,000.00` text, and a blank department to `thisRole.department_id`, a property the `readRoles(true)` row does not have | update a role with salary 50000 and leave the salary blank: the payload's salary is `"$50,000.00"`, and the UPDATE cannot store it in the salary column | a blank salary keeps the stored salary, as the prompt text "Blank to keep the same" says (index.js:532); the department is a list answer whose values are department ids (index.js:519, 534-539), so its fallback is reached only through a falsy id such as 0, and should then keep the stored department | not executed | Payloads.BlankSalaryRejected | Payloads.BlankRoleAnswersKeepStore |
