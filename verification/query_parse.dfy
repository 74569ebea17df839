/** Reading the flags and spliced values back out of the texts `QueryText`
    builds. Each recogniser inverts one builder: the round-trip lemmas show
    that a text determines the arguments it was built from, so every
    optional column and clause appears exactly when its flag asks for it. */
module QueryParse {
  import opened Nullable
  import opened Js
  import opened Text
  import opened QueryText
  import Schema
  import Reads

  // ------------------------------------------------------------ readDepartments

  /** The `includeId` flag of a `readDepartments` text. */
  function ParseReadDepartments(text: string): Option<bool> {
    match StripPrefix(text, Select)
    case None => None
    case Some(a) =>
      match StripPrefix(a, DepartmentIdColumn)
      case Some(b) => if b == DepartmentNameColumn + FromDepartments then Some(true) else None
      case None => if a == DepartmentNameColumn + AllDepartmentsAlias + FromDepartments then Some(false) else None
  }

  lemma ReadDepartmentsRoundTrip(includeId: bool)
    ensures ParseReadDepartments(ReadDepartments(includeId).text) == Some(includeId)
  {
    if includeId {
      DepartmentsWithId();
    } else {
      DepartmentsWithoutId();
    }
  }

  lemma DepartmentsWithId()
    ensures ParseReadDepartments(ReadDepartments(true).text) == Some(true)
  {
    var tail := DepartmentNameColumn + FromDepartments;
    var a := DepartmentIdColumn + tail;
    assert ReadDepartments(true).text == Select + a;
    StripPrefixConcat(Select, a);
    StripPrefixConcat(DepartmentIdColumn, tail);
  }

  lemma DepartmentsWithoutId()
    ensures ParseReadDepartments(ReadDepartments(false).text) == Some(false)
  {
    var a := DepartmentNameColumn + AllDepartmentsAlias + FromDepartments;
    assert ReadDepartments(false).text == Select + a;
    StripPrefixConcat(Select, a);
    NameIsNoIdColumn(AllDepartmentsAlias + FromDepartments);
    Regroup(DepartmentNameColumn, AllDepartmentsAlias, FromDepartments);
  }

  lemma NameIsNoIdColumn(rest: string)
    ensures StripPrefix(DepartmentNameColumn + rest, DepartmentIdColumn) == None
  {
    assert DepartmentNameColumn[1] == 'n' && DepartmentIdColumn[1] == 'i';
    MismatchIn(DepartmentNameColumn, rest, DepartmentIdColumn, 1);
  }

  /** `id` is selected before `name` exactly when `includeId`. */
  lemma ReadDepartmentsSelectsId(includeId: bool)
    ensures StartsWith(ReadDepartments(includeId).text, Select + DepartmentIdColumn) <==> includeId
  {
    if includeId {
      IdSelected();
    } else {
      IdNotSelected();
    }
  }

  lemma IdSelected()
    ensures StartsWith(ReadDepartments(true).text, Select + DepartmentIdColumn)
  {
    var rest := DepartmentNameColumn + FromDepartments;
    assert ReadDepartments(true).text == Select + DepartmentIdColumn + rest;
    StripPrefixConcat(Select + DepartmentIdColumn, rest);
  }

  lemma IdNotSelected()
    ensures !StartsWith(ReadDepartments(false).text, Select + DepartmentIdColumn)
  {
    var a := DepartmentNameColumn + (AllDepartmentsAlias + FromDepartments);
    Regroup(DepartmentNameColumn, AllDepartmentsAlias, FromDepartments);
    assert ReadDepartments(false).text == Select + a;
    NameIsNoIdColumn(AllDepartmentsAlias + FromDepartments);
    StartsWithDropPrefix(Select, a, DepartmentIdColumn);
  }

  /** `name` is aliased as `All Departments:` exactly when `includeId` is false. */
  lemma ReadDepartmentsAliasesName(includeId: bool)
    ensures EndsWith(ReadDepartments(includeId).text, AllDepartmentsAlias + FromDepartments) <==> !includeId
  {
    var text := ReadDepartments(includeId).text;
    var p := AllDepartmentsAlias + FromDepartments;
    if includeId {
      var q := DepartmentNameColumn + FromDepartments;
      assert text == Select + DepartmentIdColumn + q;
      assert |text| < |p|;
    } else {
      assert text == Select + DepartmentNameColumn + p;
      EndsWithConcat(Select + DepartmentNameColumn, p);
    }
  }

  // ------------------------------------------------------------ optional pieces

  /** Whether `s` starts with the optional piece `p`, and what follows it. */
  function OptionalPrefix(s: string, p: string): (bool, string) {
    match StripPrefix(s, p)
    case Some(r) => (true, r)
    case None => (false, s)
  }

  /** An optional piece is recognised exactly when it was written, provided
      what follows it cannot be mistaken for it. */
  lemma OptionalPrefixConcat(p: string, rest: string, present: bool)
    requires StripPrefix(rest, p) == None
    ensures OptionalPrefix((if present then p else "") + rest, p) == (present, rest)
  {
    if present {
      StripPrefixConcat(p, rest);
    } else {
      assert "" + rest == rest;
    }
  }

  // ------------------------------------------------------------ readEmployees

  /** What a `readEmployees` text says: which optional column groups it
      selects and the condition text it carries, if any. */
  datatype EmployeesShape = EmployeesShape(includeId: bool, includeManagerInfo: bool, where: Option<string>)

  function ParseWhere(e: string): Option<Option<string>> {
    if e == "" then Some(None)
    else
      match StripPrefix(e, WhereKeyword)
      case None => None
      case Some(f) => if |f| > 0 && f[|f| - 1] == ';' then Some(Some(f[..|f| - 1])) else None
  }

  function ParseReadEmployees(text: string): Option<EmployeesShape> {
    match StripPrefix(text, Select)
    case None => None
    case Some(a) =>
      var (includeId, b) := OptionalPrefix(a, EmployeeIdColumn);
      match StripPrefix(b, SubjectColumns)
      case None => None
      case Some(c) =>
        match ParseManagerPart(c)
        case None => None
        case Some((includeManagerInfo, w)) => Some(EmployeesShape(includeId, includeManagerInfo, w))
  }

  /** What follows the subject's columns: the optional manager columns, the
      join chain and the optional WHERE clause. */
  function ParseManagerPart(c: string): Option<(bool, Option<string>)> {
    var (includeManagerInfo, d) := OptionalPrefix(c, ManagerColumns);
    match StripPrefix(d, EmployeeChain)
    case None => None
    case Some(e) =>
      match ParseWhere(e)
      case None => None
      case Some(w) => Some((includeManagerInfo, w))
  }

  /** The condition text a `where` argument contributes, if it contributes one. */
  function WhereText(where: Value): Option<string> {
    if Truthy(where) then Some(ToText(where)) else None
  }

  lemma WhereRoundTrip(where: Value)
    ensures ParseWhere(WhereClause(where)) == Some(WhereText(where))
  {
    if Truthy(where) {
      var w := ToText(where);
      assert WhereClause(where) == WhereKeyword + (w + ";");
      StripPrefixConcat(WhereKeyword, w + ";");
      assert (w + ";")[..|w|] == w;
    }
  }

  /** A `readEmployees` text determines its three arguments: the id column,
      the four manager columns and the WHERE clause each appear exactly when
      asked for, around the same FROM/JOIN chain. */
  lemma ReadEmployeesRoundTrip(includeId: bool, where: Value, includeManagerInfo: bool)
    ensures ParseReadEmployees(ReadEmployees(includeId, where, includeManagerInfo).text)
         == Some(EmployeesShape(includeId, includeManagerInfo, WhereText(where)))
  {
    var id := if includeId then EmployeeIdColumn else "";
    var c := (if includeManagerInfo then ManagerColumns else "") + (EmployeeChain + WhereClause(where));
    var b := SubjectColumns + c;
    EmployeesTextNested(includeId, where, includeManagerInfo);
    StripPrefixConcat(Select, id + b);
    SubjectIsNoIdColumn(c);
    OptionalPrefixConcat(EmployeeIdColumn, b, includeId);
    StripPrefixConcat(SubjectColumns, c);
    ManagerPartRoundTrip(where, includeManagerInfo);
    ParseEmployeesSteps(ReadEmployees(includeId, where, includeManagerInfo).text, id + b, b, c, includeId,
                        (includeManagerInfo, WhereText(where)));
  }

  /** `ParseReadEmployees` as the chain of its four steps. */
  lemma ParseEmployeesSteps(text: string, a: string, b: string, c: string, includeId: bool,
                            r: (bool, Option<string>))
    requires StripPrefix(text, Select) == Some(a)
    requires OptionalPrefix(a, EmployeeIdColumn) == (includeId, b)
    requires StripPrefix(b, SubjectColumns) == Some(c)
    requires ParseManagerPart(c) == Some(r)
    ensures ParseReadEmployees(text) == Some(EmployeesShape(includeId, r.0, r.1))
  {
  }

  /** The pieces of a `readEmployees` text, grouped from the right. */
  lemma EmployeesTextNested(includeId: bool, where: Value, includeManagerInfo: bool)
    ensures ReadEmployees(includeId, where, includeManagerInfo).text
         == Select + ((if includeId then EmployeeIdColumn else "")
                      + (SubjectColumns + ((if includeManagerInfo then ManagerColumns else "")
                                           + (EmployeeChain + WhereClause(where)))))
  {
    Nest(Select, if includeId then EmployeeIdColumn else "", SubjectColumns,
         if includeManagerInfo then ManagerColumns else "", EmployeeChain, WhereClause(where));
  }

  lemma ManagerPartRoundTrip(where: Value, includeManagerInfo: bool)
    ensures ParseManagerPart((if includeManagerInfo then ManagerColumns else "") + (EmployeeChain + WhereClause(where)))
         == Some((includeManagerInfo, WhereText(where)))
  {
    var tail := EmployeeChain + WhereClause(where);
    ChainIsNoManagerColumns(WhereClause(where));
    OptionalPrefixConcat(ManagerColumns, tail, includeManagerInfo);
    StripPrefixConcat(EmployeeChain, WhereClause(where));
    WhereRoundTrip(where);
  }

  lemma SubjectIsNoIdColumn(rest: string)
    ensures StripPrefix(SubjectColumns + rest, EmployeeIdColumn) == None
  {
    Regroup(FirstNameColumn, SubjectRest, rest);
    assert FirstNameColumn[13] == 'f' && EmployeeIdColumn[13] == 'i';
    MismatchIn(FirstNameColumn, SubjectRest + rest, EmployeeIdColumn, 13);
  }

  lemma ChainIsNoManagerColumns(rest: string)
    ensures StripPrefix(EmployeeChain + rest, ManagerColumns) == None
  {
    Regroup(FromEmployees, EmployeeJoins, rest);
    assert FromEmployees[0] == 'F' && ManagerColumns[0] == ',';
    MismatchIn(FromEmployees, EmployeeJoins + rest, ManagerColumns, 0);
  }

  /** Whatever precedes it, the join chain ends with the last JOIN condition,
      whose final character is a backtick, not `;`. */
  lemma ChainEnding(head: string)
    ensures EndsWith(head + EmployeeChain, LastJoin)
    ensures !EndsWith(head + EmployeeChain, ";")
  {
    var front := head + (FromEmployees + LeadingJoins);
    Regroup(FromEmployees, LeadingJoins, LastJoin);
    Regroup(head, FromEmployees + LeadingJoins, LastJoin);
    assert head + EmployeeChain == front + LastJoin;
    EndsWithLast(front, LastJoin, ";");
  }

  /** With a truthy `where` the text ends in ` WHERE <where>;`; otherwise it
      ends with the last JOIN condition and has no closing `;`. */
  lemma ReadEmployeesEnding(includeId: bool, where: Value, includeManagerInfo: bool)
    ensures Truthy(where) ==> EndsWith(ReadEmployees(includeId, where, includeManagerInfo).text,
                                       WhereKeyword + ToText(where) + ";")
    ensures !Truthy(where) ==> EndsWith(ReadEmployees(includeId, where, includeManagerInfo).text, LastJoin)
    ensures !Truthy(where) ==> !EndsWith(ReadEmployees(includeId, where, includeManagerInfo).text, ";")
  {
    var text := ReadEmployees(includeId, where, includeManagerInfo).text;
    var head := Select + (if includeId then EmployeeIdColumn else "") + SubjectColumns
                + (if includeManagerInfo then ManagerColumns else "");
    assert text == head + EmployeeChain + WhereClause(where);
    if Truthy(where) {
      EndsWithConcat(head + EmployeeChain, WhereClause(where));
    } else {
      assert text == head + EmployeeChain;
      ChainEnding(head);
    }
  }

  // ------------------------------------------------------------ readEmployeesByDepartment

  /** The spliced department text of a `readEmployeesByDepartment` text. */
  function ParseStaffOfDepartment(text: string): Option<string> {
    match StripPrefix(text, StaffOfDepartment)
    case None => None
    case Some(a) => StripSuffix(a, ";")
  }

  lemma StaffOfDepartmentRoundTrip(departmentId: Value)
    ensures ParseStaffOfDepartment(ReadEmployeesByDepartment(departmentId).text) == Some(ToText(departmentId))
  {
    var a := ToText(departmentId) + ";";
    assert ReadEmployeesByDepartment(departmentId).text == StaffOfDepartment + a;
    StripPrefixConcat(StaffOfDepartment, a);
    StripSuffixConcat(ToText(departmentId), ";");
  }

  // ------------------------------------------------------------ readManagers

  /** The text spliced after the `IS NULL` test of a `readManagers` text, if any. */
  function ParseReadManagers(text: string): Option<Option<string>> {
    match StripPrefix(text, TopLevelManagers)
    case None => None
    case Some(a) =>
      if a == ";" then Some(None)
      else
        match StripPrefix(a, DepartmentFilter)
        case None => None
        case Some(b) =>
          match StripSuffix(b, ";")
          case None => None
          case Some(d) => Some(Some(d))
  }

  /** With a falsy argument the condition is the `IS NULL` test alone;
      otherwise the argument's text follows it after `, departments.id=`. */
  lemma ReadManagersRoundTrip(departmentId: Value)
    ensures ParseReadManagers(ReadManagers(departmentId).text) == Some(WhereText(departmentId))
  {
    var text := ReadManagers(departmentId).text;
    if Truthy(departmentId) {
      var d := ToText(departmentId);
      var a := DepartmentFilter + (d + ";");
      assert text == TopLevelManagers + a;
      StripPrefixConcat(TopLevelManagers, a);
      assert a[0] == ',';
      StripPrefixConcat(DepartmentFilter, d + ";");
      StripSuffixConcat(d, ";");
    } else {
      assert text == TopLevelManagers + ";";
      StripPrefixConcat(TopLevelManagers, ";");
    }
  }

  // ------------------------------------------------------------ readRoles

  /** The `includeId` flag of a `readRoles` text. */
  function ParseReadRoles(text: string): Option<bool> {
    match StripPrefix(text, Select)
    case None => None
    case Some(a) =>
      match StripPrefix(a, RoleIdColumns)
      case Some(b) => if b == RoleColumns then Some(true) else None
      case None => if a == RoleColumns then Some(false) else None
  }

  /** A `readRoles` text determines `includeId`. */
  lemma ReadRolesRoundTrip(includeId: bool)
    ensures ParseReadRoles(ReadRoles(includeId).text) == Some(includeId)
  {
    var a := (if includeId then RoleIdColumns else "") + RoleColumns;
    Regroup(Select, if includeId then RoleIdColumns else "", RoleColumns);
    StripPrefixConcat(Select, a);
    if includeId {
      StripPrefixConcat(RoleIdColumns, RoleColumns);
    } else {
      RoleColumnsAreNoIds();
    }
  }

  lemma RoleColumnsAreNoIds()
    ensures StripPrefix(RoleColumns, RoleIdColumns) == None
  {
    assert DepartmentLabelColumn[1] == 'd' && RoleIdColumn[1] == 'r';
    assert RoleColumns == DepartmentLabelColumn + RoleColumns[|DepartmentLabelColumn|..];
    assert RoleIdColumns[1] == 'r';
    MismatchIn(DepartmentLabelColumn, RoleColumns[|DepartmentLabelColumn|..], RoleIdColumns, 1);
  }

  /** `includeId` prepends exactly the `RoleId` and `DepartmentId` columns
      and changes nothing else. */
  lemma ReadRolesIdColumns()
    ensures ReadRoles(true).text == Select + RoleIdColumns + ReadRoles(false).text[|Select|..]
  {
    StripPrefixConcat(Select, RoleColumns);
  }

  // ------------------------------------------------------------ delete

  /** The table name spliced into a `delete` text. */
  function ParseDelete(text: string): Option<string> {
    match StripPrefix(text, DeleteFrom)
    case None => None
    case Some(a) => StripSuffix(a, DeleteWhere)
  }

  /** The table name is spliced verbatim: it can be read back whatever it
      contains. */
  lemma DeleteRoundTrip(table: string, id: Value)
    ensures ParseDelete(Delete(table, id).text) == Some(table)
  {
    assert Delete(table, id).text == DeleteFrom + (table + DeleteWhere);
    StripPrefixConcat(DeleteFrom, table + DeleteWhere);
    StripSuffixConcat(table, DeleteWhere);
  }

  // ------------------------------------------------------------ conditions

  const ManagerCondition := "`employees`.`manager_id`="
  const DepartmentCondition := "`departments`.`id`="

  /** The structured meaning of the two conditions the prompt flow builds:
      a column compared with a decimal integer. Any other text has none here. */
  function FilterOfWhere(w: Option<string>): Option<Reads.Filter> {
    match w
    case None => Some(Reads.Everyone)
    case Some(t) =>
      match StripPrefix(t, ManagerCondition)
      case Some(n) => (match ParseInt(n) case None => None case Some(m) => Some(Reads.ManagedBy(m)))
      case None =>
        match StripPrefix(t, DepartmentCondition)
        case Some(n) => (match ParseInt(n) case None => None case Some(m) => Some(Reads.InDepartment(m)))
        case None => None
  }

  lemma ManagerConditionMeaning(n: int)
    ensures FilterOfWhere(Some(ManagerCondition + ToText(Num(n)))) == Some(Reads.ManagedBy(n))
  {
    StripPrefixConcat(ManagerCondition, IntToText(n));
    IntTextRoundTrip(n);
  }

  lemma DepartmentConditionMeaning(n: int)
    ensures FilterOfWhere(Some(DepartmentCondition + ToText(Num(n)))) == Some(Reads.InDepartment(n))
  {
    assert DepartmentCondition[1] == 'd' && ManagerCondition[1] == 'e';
    MismatchIn(DepartmentCondition, IntToText(n), ManagerCondition, 1);
    StripPrefixConcat(DepartmentCondition, IntToText(n));
    IntTextRoundTrip(n);
  }

  /** What the store answers to a `readEmployees` text whose condition, if
      any, is one of the two structured forms. */
  function ReadView(s: Schema.Store, text: string): Option<seq<Reads.EmployeeRow>> {
    match ParseReadEmployees(text)
    case None => None
    case Some(shape) =>
      match FilterOfWhere(shape.where)
      case None => None
      case Some(f) => Some(Reads.ReadEmployees(s, shape.includeId, f, shape.includeManagerInfo))
  }

  /** A truthy condition that reads as filter `f` makes the view of the
      `readEmployees` text the filtered rows. */
  lemma ReadViewOf(s: Schema.Store, includeId: bool, where: Value, includeManagerInfo: bool, f: Reads.Filter)
    requires Truthy(where) && FilterOfWhere(Some(ToText(where))) == Some(f)
    ensures ReadView(s, ReadEmployees(includeId, where, includeManagerInfo).text)
         == Some(Reads.ReadEmployees(s, includeId, f, includeManagerInfo))
  {
    ReadEmployeesRoundTrip(includeId, where, includeManagerInfo);
  }
}
