/** The pure decisions inside the prompt flow: the choice lists offered,
    the row a chosen value selects, what a delete picker does with the
    answer, and the condition each filtered view passes to `readEmployees`. */
module Prompts {
  import opened Nullable
  import opened Js
  import opened Schema
  import opened Relational
  import opened Reads
  import opened Columns
  import QueryText
  import QueryParse

  /** One entry of a list prompt: the text shown and the value answered. */
  datatype Choice = Choice(name: string, value: Value)

  // ------------------------------------------------------------ lookup

  /** `rows.filter(r => id(r) == chosen)[0]`: the first row whose id is
      loosely equal to the chosen value. */
  function Lookup<T>(rows: seq<T>, id: T -> Value, chosen: Value): (r: Option<T>)
    ensures r.Some? ==> r.value in rows && LooseEq(id(r.value), chosen)
    ensures r.None? <==> forall i :: 0 <= i < |rows| ==> !LooseEq(id(rows[i]), chosen)
    ensures r.Some? ==> exists i :: 0 <= i < |rows| && rows[i] == r.value && LooseEq(id(rows[i]), chosen)
                                    && forall j :: 0 <= j < i ==> !LooseEq(id(rows[j]), chosen)
  {
    if rows == [] then None
    else if LooseEq(id(rows[0]), chosen) then Some(rows[0])
    else Lookup(rows[1..], id, chosen)
  }

  /** No two rows carry loosely equal ids, and every id is a number. */
  ghost predicate DistinctIds<T>(rows: seq<T>, id: T -> Value) {
    && (forall i :: 0 <= i < |rows| ==> id(rows[i]).Num?)
    && (forall i, j :: 0 <= i < j < |rows| ==> id(rows[i]) != id(rows[j]))
  }

  /** Answering with a row's own id selects that row. */
  lemma {:induction false} LookupChosen<T>(rows: seq<T>, id: T -> Value, i: int)
    requires DistinctIds(rows, id)
    requires 0 <= i < |rows|
    ensures Lookup(rows, id, id(rows[i])) == Some(rows[i])
  {
    if i > 0 {
      assert id(rows[0]) != id(rows[i]);
      assert !LooseEq(id(rows[0]), id(rows[i]));
      assert DistinctIds(rows[1..], id) by {
        assert forall j :: 0 <= j < |rows[1..]| ==> rows[1..][j] == rows[j + 1];
      }
      LookupChosen(rows[1..], id, i - 1);
    }
  }

  function EmployeeId(r: EmployeeRow): Value { EmployeeField(r, "id") }
  function RoleId(r: RoleRow): Value { RoleField(r, "RoleId") }
  function DepartmentId(r: DepartmentRow): Value { DepartmentField(r, "id") }
  function ManagerId(r: ManagerRow): Value { ManagerField(r, "id") }

  /** With ids selected, the rows of `readEmployees` carry distinct numeric ids. */
  lemma EmployeeRowsDistinct(s: Store)
    requires WellFormed(s)
    ensures DistinctIds(ReadEmployees(s, true, Everyone, true), EmployeeId)
  {
    ReadEmployeesIds(s, true);
    var rows := ReadEmployees(s, true, Everyone, true);
    forall i, j | 0 <= i < j < |rows|
      ensures EmployeeId(rows[i]) != EmployeeId(rows[j])
    {
      assert EmployeeKey(s.employees[i]) != EmployeeKey(s.employees[j]);
    }
  }

  lemma DepartmentRowsDistinct(s: Store)
    requires WellFormed(s)
    ensures DistinctIds(Reads.ReadDepartments(s, true), DepartmentId)
  {
    var rows := Reads.ReadDepartments(s, true);
    forall i, j | 0 <= i < j < |rows|
      ensures DepartmentId(rows[i]) != DepartmentId(rows[j])
    {
      assert DepartmentKey(s.departments[i]) != DepartmentKey(s.departments[j]);
    }
  }

  // ------------------------------------------------------------ manager choices

  /** `{name: `${manager.Name} (${manager.Department})`, value: manager.id}`. */
  function ManagerChoice(m: ManagerRow): Choice {
    Choice(ToText(ManagerField(m, "Name")) + " (" + ToText(ManagerField(m, "Department")) + ")", ManagerId(m))
  }

  /** The manager list of `addEmployee` and `updateEmployee`: one entry per
      manager row, in order, then a single `(None)` entry answering `null`. */
  function ManagerChoices(rows: seq<ManagerRow>): (cs: seq<Choice>)
    ensures |cs| == |rows| + 1
    ensures forall i :: 0 <= i < |rows| ==> cs[i] == ManagerChoice(rows[i])
    ensures cs[|rows|] == Choice("(None)", Null)
    ensures forall i :: 0 <= i < |rows| ==> cs[i].value == Num(rows[i].id)
  {
    Select(rows, ManagerChoice) + [Choice("(None)", Null)]
  }

  /** Some entry before the final one answers `v`. */
  predicate Offered(cs: seq<Choice>, v: Value) {
    exists i :: 0 <= i < |cs| - 1 && cs[i].value == v
  }

  /** An id is offered before `(None)` exactly when some manager row has it. */
  lemma ManagerChoicesOfferIds(rows: seq<ManagerRow>, id: int)
    ensures id in ManagerIds(rows) <==> Offered(ManagerChoices(rows), Num(id))
  {
    var cs := ManagerChoices(rows);
    if id in ManagerIds(rows) {
      var r :| r in rows && r.id == id;
      var j :| 0 <= j < |rows| && rows[j] == r;
      assert cs[j].value == Num(id);
    }
    if Offered(cs, Num(id)) {
      var i :| 0 <= i < |cs| - 1 && cs[i].value == Num(id);
      assert rows[i] in rows;
    }
  }

  /** The managers offered are exactly the employees without a manager. */
  lemma ManagerChoicesOffered(s: Store, k: int)
    requires WellFormed(s)
    requires 0 <= k < |s.employees|
    ensures s.employees[k].managerId.None? <==> Offered(ManagerChoices(ReadManagers(s)), Num(s.employees[k].id))
  {
    ReadManagersExactly(s, k);
    ManagerChoicesOfferIds(ReadManagers(s), s.employees[k].id);
  }

  // ------------------------------------------------------------ delete pickers

  /** What a delete prompt leads to: returning without deleting, a
      `Db.delete(table, id)` call, or (when no row matches the answer) the
      prompt shown again. */
  datatype Pick = GoBack | Remove(table: string, id: Value) | AskAgain

  /** The `Go back` entry every delete picker ends with. */
  const GoBackChoice := Choice("Go back", Str("exit"))

  function PickerChoices<T>(rows: seq<T>, choice: T -> Choice): (cs: seq<Choice>)
    ensures |cs| == |rows| + 1
    ensures forall i :: 0 <= i < |rows| ==> cs[i] == choice(rows[i])
    ensures cs[|rows|] == GoBackChoice
  {
    Select(rows, choice) + [GoBackChoice]
  }

  /** An answer loosely equal to `'exit'` goes back; otherwise the first row
      with that id is deleted from `table` by the same id. */
  function PickToDelete<T>(rows: seq<T>, id: T -> Value, table: string, chosen: Value): (p: Pick)
    ensures LooseEq(chosen, Str("exit")) ==> p == GoBack
    ensures p.Remove? ==> p.table == table && exists i :: 0 <= i < |rows| && p.id == id(rows[i])
  {
    if LooseEq(chosen, Str("exit")) then GoBack
    else
      match Lookup(rows, id, chosen)
      case None => AskAgain
      case Some(r) => Remove(table, id(r))
  }

  /** Choosing any entry but the last deletes exactly that row; choosing
      the last goes back. */
  lemma PickerOutcome<T>(rows: seq<T>, choice: T -> Choice, id: T -> Value, table: string, i: int)
    requires DistinctIds(rows, id)
    requires forall j :: 0 <= j < |rows| ==> choice(rows[j]).value == id(rows[j])
    requires 0 <= i <= |rows|
    ensures var cs := PickerChoices(rows, choice);
            PickToDelete(rows, id, table, cs[i].value) == if i == |rows| then GoBack else Remove(table, id(rows[i]))
  {
    if i < |rows| {
      ExitIsNoId(id(rows[i]).n);
      LookupChosen(rows, id, i);
    }
  }

  function DepartmentChoice(r: DepartmentRow): Choice {
    Choice(ToText(DepartmentField(r, "name")), DepartmentId(r))
  }

  function EmployeeChoice(r: EmployeeRow): Choice {
    Choice(ToText(EmployeeField(r, "First Name")) + " " + ToText(EmployeeField(r, "Last Name")), EmployeeId(r))
  }

  function RoleChoice(r: RoleRow): Choice {
    Choice(ToText(RoleField(r, "Title")) + " (" + ToText(RoleField(r, "Department")) + ")", RoleId(r))
  }

  /** `deleteEmployee()`: choosing employee `k` from `readEmployees(true)`
      asks to delete exactly that employee's id from `employees`. */
  lemma DeleteEmployeePick(s: Store, k: int)
    requires WellFormed(s)
    requires 0 <= k < |s.employees|
    ensures var rows := ReadEmployees(s, true, Everyone, true);
            |rows| == |s.employees|
            && PickToDelete(rows, EmployeeId, "employees", PickerChoices(rows, EmployeeChoice)[k].value)
               == Remove("employees", Num(s.employees[k].id))
  {
    var rows := ReadEmployees(s, true, Everyone, true);
    ReadEmployeesIds(s, true);
    EmployeeRowsDistinct(s);
    PickerOutcome(rows, EmployeeChoice, EmployeeId, "employees", k);
  }

  /** `deleteDepartment()`: choosing department `k` asks to delete that
      department's id from `departments`. */
  lemma DeleteDepartmentPick(s: Store, k: int)
    requires WellFormed(s)
    requires 0 <= k < |s.departments|
    ensures var rows := Reads.ReadDepartments(s, true);
            PickToDelete(rows, DepartmentId, "departments", PickerChoices(rows, DepartmentChoice)[k].value)
            == Remove("departments", Num(s.departments[k].id))
  {
    var rows := Reads.ReadDepartments(s, true);
    DepartmentRowsDistinct(s);
    PickerOutcome(rows, DepartmentChoice, DepartmentId, "departments", k);
  }

  /** Every delete picker's last entry returns without deleting. */
  lemma GoBackDeletesNothing<T>(rows: seq<T>, choice: T -> Choice, id: T -> Value, table: string)
    ensures PickToDelete(rows, id, table, PickerChoices(rows, choice)[|rows|].value) == GoBack
  {
  }

  // ------------------------------------------------------------ filtered views

  /** `"`employees`.`manager_id`=" + data.id`. */
  function ByManagerWhere(m: ManagerRow): Value {
    Str(QueryParse.ManagerCondition + ToText(ManagerId(m)))
  }

  /** `"`departments`.`id`=" + data.id`. */
  function ByDepartmentWhere(d: DepartmentRow): Value {
    Str(QueryParse.DepartmentCondition + ToText(DepartmentId(d)))
  }

  lemma ManagerIdOf(m: ManagerRow)
    ensures ManagerId(m) == Num(m.id)
  {
  }

  lemma DepartmentIdOf(d: DepartmentRow)
    requires d.id.Some?
    ensures DepartmentId(d) == Num(d.id.value)
  {
  }

  /** The by-manager view shows the employees whose `manager_id` is the
      chosen manager's id, without ids or manager columns. */
  lemma ByManagerView(s: Store, m: ManagerRow)
    ensures QueryParse.ReadView(s, QueryText.ReadEmployees(false, ByManagerWhere(m), false).text)
         == Some(ReadEmployees(s, false, ManagedBy(m.id), false))
  {
    ManagerIdOf(m);
    var text := QueryParse.ManagerCondition + ToText(Num(m.id));
    assert |text| >= |QueryParse.ManagerCondition| > 0;
    assert ByManagerWhere(m) == Str(text);
    QueryParse.ManagerConditionMeaning(m.id);
    QueryParse.ReadViewOf(s, false, ByManagerWhere(m), false, ManagedBy(m.id));
  }

  /** The by-department view shows the employees whose role belongs to the
      chosen department. */
  lemma ByDepartmentView(s: Store, d: DepartmentRow)
    requires d.id.Some?
    ensures QueryParse.ReadView(s, QueryText.ReadEmployees(false, ByDepartmentWhere(d), false).text)
         == Some(ReadEmployees(s, false, InDepartment(d.id.value), false))
  {
    DepartmentIdOf(d);
    var text := QueryParse.DepartmentCondition + ToText(Num(d.id.value));
    assert |text| >= |QueryParse.DepartmentCondition| > 0;
    assert ByDepartmentWhere(d) == Str(text);
    QueryParse.DepartmentConditionMeaning(d.id.value);
    QueryParse.ReadViewOf(s, false, ByDepartmentWhere(d), false, InDepartment(d.id.value));
  }
}
