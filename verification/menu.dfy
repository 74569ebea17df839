/** The main menu: its option list, with separators, and the switch that
    turns the chosen option's text into an action. */
module Menu {

  /** A menu line: a selectable option or an `inquirer.Separator()`. */
  datatype Item = Entry(text: string) | Separator

  datatype Action =
    | ViewDepartments | ViewDepartmentBudgets | ViewRoles | ViewEmployees
    | ViewEmployeesByManager | ViewEmployeesByDepartment
    | AddDepartment | AddRole | AddEmployee
    | UpdateDepartment | UpdateRole | UpdateEmployee
    | DeleteDepartment | DeleteRole | DeleteEmployee
    | Exit

  /** Line `k` of the `options` array of `showOptions`. */
  function OptionAt(k: int): Item {
    if k == 0 then Entry("View Departments")
    else if k == 1 then Entry("View Departments Salary Budgets")
    else if k == 2 then Entry("View Roles")
    else if k == 3 then Entry("View Employees")
    else if k == 4 then Entry("View Employees By Manager")
    else if k == 5 then Entry("View Employees By Department")
    else if k == 7 then Entry("Add a Department")
    else if k == 8 then Entry("Add a Role")
    else if k == 9 then Entry("Add an Employee")
    else if k == 11 then Entry("Update a Department")
    else if k == 12 then Entry("Update a Role")
    else if k == 13 then Entry("Update an Employee")
    else if k == 15 then Entry("Delete Department")
    else if k == 16 then Entry("Delete Role")
    else if k == 17 then Entry("Delete Employee")
    else if k == 19 then Entry("Exit")
    else Separator
  }

  /** The `options` array: 21 lines, six views, three adds, three updates,
      three deletes and `Exit`, with separators between the groups and after
      `Exit`. */
  function Options(): seq<Item> {
    seq(21, k => OptionAt(k))
  }

  /** The action each position of the list stands for; the separators and
      `Exit` stand for leaving the program. */
  function ActionAt(i: int): Action {
    if i == 0 then ViewDepartments
    else if i == 1 then ViewDepartmentBudgets
    else if i == 2 then ViewRoles
    else if i == 3 then ViewEmployees
    else if i == 4 then ViewEmployeesByManager
    else if i == 5 then ViewEmployeesByDepartment
    else if i == 7 then AddDepartment
    else if i == 8 then AddRole
    else if i == 9 then AddEmployee
    else if i == 11 then UpdateDepartment
    else if i == 12 then UpdateRole
    else if i == 13 then UpdateEmployee
    else if i == 15 then DeleteDepartment
    else if i == 16 then DeleteRole
    else if i == 17 then DeleteEmployee
    else Exit
  }

  /** The labels of the switch's cases, in order: `case options[0]:` up to
      `case options[17]:`, skipping the separators and `Exit`. */
  const Cases: seq<int> := [0, 1, 2, 3, 4, 5, 7, 8, 9, 11, 12, 13, 15, 16, 17]

  /** `case options[k]:` with strict equality; a separator equals no answer. */
  predicate Matches(answer: string, k: int) {
    OptionAt(k).Entry? && OptionAt(k).text == answer
  }

  /** The switch from its `j`-th case on: the first case whose option is the
      answer, and `default` (leave) when none is. */
  function DispatchFrom(answer: string, j: nat): Action
    decreases |Cases| - j
  {
    if j >= |Cases| then Exit
    else if Matches(answer, Cases[j]) then ActionAt(Cases[j])
    else DispatchFrom(answer, j + 1)
  }

  /** `switch (response.action)`. */
  function Dispatch(answer: string): Action {
    DispatchFrom(answer, 0)
  }

  /** The list has 21 lines, with separators exactly at 6, 10, 14, 18 and 20. */
  lemma SeparatorPositions()
    ensures |Options()| == 21
    ensures forall i :: 0 <= i < |Options()| ==> (Options()[i].Separator? <==> i in {6, 10, 14, 18, 20})
  {
  }

  // ------------------------------------------------------------ distinct texts

  /** Length and first character of each option's text. */
  function Tag(k: int): (int, char) {
    if k == 0 then (16, 'V')
    else if k == 1 then (31, 'V')
    else if k == 2 then (10, 'V')
    else if k == 3 then (14, 'V')
    else if k == 4 then (25, 'V')
    else if k == 5 then (28, 'V')
    else if k == 7 then (16, 'A')
    else if k == 8 then (10, 'A')
    else LaterTag(k)
  }

  function LaterTag(k: int): (int, char) {
    if k == 9 then (15, 'A')
    else if k == 11 then (19, 'U')
    else if k == 12 then (13, 'U')
    else if k == 13 then (18, 'U')
    else if k == 15 then (17, 'D')
    else if k == 16 then (11, 'D')
    else if k == 17 then (15, 'D')
    else if k == 19 then (4, 'E')
    else (0, ' ')
  }

  lemma EarlyTags(k: int)
    requires 0 <= k < 9 && OptionAt(k).Entry?
    ensures |OptionAt(k).text| > 0 && (|OptionAt(k).text|, OptionAt(k).text[0]) == Tag(k)
  {
  }

  lemma LaterTags(k: int)
    requires 9 <= k && OptionAt(k).Entry?
    ensures |OptionAt(k).text| > 0 && (|OptionAt(k).text|, OptionAt(k).text[0]) == Tag(k)
  {
  }

  lemma TagsDistinct(a: int, b: int)
    requires OptionAt(a).Entry? && OptionAt(b).Entry? && a != b
    ensures Tag(a) != Tag(b)
  {
  }

  /** No two options have the same text: they differ in length or in their
      first character. */
  lemma TextsDistinct(a: int, b: int)
    requires OptionAt(a).Entry? && OptionAt(b).Entry? && a != b
    ensures OptionAt(a).text != OptionAt(b).text
  {
    if a < 9 { EarlyTags(a); } else { LaterTags(a); }
    if b < 9 { EarlyTags(b); } else { LaterTags(b); }
    TagsDistinct(a, b);
  }

  // ------------------------------------------------------------ dispatch

  /** The positions with a `case` are exactly those whose action is not to
      leave. */
  lemma CasesHaveActions(i: int)
    ensures i in Cases <==> ActionAt(i) != Exit
  {
  }

  /** Scanning the cases from `j` on, with option `i`'s text as the answer,
      reaches the action of `i`, provided no earlier case was `i`. */
  lemma {:induction false} DispatchFromPosition(i: int, j: nat)
    requires OptionAt(i).Entry? && j <= |Cases|
    requires forall m :: 0 <= m < j ==> Cases[m] != i
    ensures DispatchFrom(OptionAt(i).text, j) == ActionAt(i)
    decreases |Cases| - j
  {
    if j < |Cases| {
      if Cases[j] != i {
        TextsDistinct(Cases[j], i);
        DispatchFromPosition(i, j + 1);
      }
    } else {
      CasesHaveActions(i);
    }
  }

  /** Choosing the option at position `i` runs the action that position
      stands for. */
  lemma DispatchByPosition(i: int)
    requires 0 <= i < |Options()| && Options()[i].Entry?
    ensures Dispatch(Options()[i].text) == ActionAt(i)
  {
    DispatchFromPosition(i, 0);
  }

  /** Each of positions 0-5, 7-9, 11-13 and 15-17 has an action of its own,
      and none of them leaves. */
  lemma ActionsDistinct(i: int, j: int)
    requires 0 <= i < j < |Options()| && Options()[i].Entry? && Options()[j].Entry?
    requires i != 19 && j != 19
    ensures ActionAt(i) != ActionAt(j)
    ensures ActionAt(i) != Exit && ActionAt(j) != Exit
  {
  }

  /** From case `j` on, an answer that is no option's text falls through. */
  lemma {:induction false} UnknownFrom(answer: string, j: nat)
    requires forall k :: 0 <= k < 21 ==> OptionAt(k) != Entry(answer)
    ensures DispatchFrom(answer, j) == Exit
    decreases |Cases| - j
  {
    if j < |Cases| {
      assert OptionAt(Cases[j]) != Entry(answer);
      UnknownFrom(answer, j + 1);
    }
  }

  /** An answer that is no option's text leaves the program. */
  lemma UnknownAnswerExits(answer: string)
    requires forall i :: 0 <= i < |Options()| ==> Options()[i] != Entry(answer)
    ensures Dispatch(answer) == Exit
  {
    forall k | 0 <= k < 21
      ensures OptionAt(k) != Entry(answer)
    {
      assert Options()[k] == OptionAt(k);
    }
    UnknownFrom(answer, 0);
  }
}
