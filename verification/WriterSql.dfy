/**
  The texts the database writer builds, exactly as it builds them, and when they say what is meant.
  Names and the key value go in between quotes unchanged; only row values are escaped.
 */
module WriterSql {
  import opened Bytes
  import opened Changes
  import opened Identifiers
  import opened Members
  import opened Numerals
  import opened Counted
  import opened Sql

  function MemberNames(data: Object): seq<string> {
    Sorted(data.Keys)
  }

  /** The member of an object, null when it is absent. */
  function Member(data: Object, name: string): Json {
    if name in data then data[name] else JNull
  }

  /** `asString` of a member, the empty text for an absent one. */
  function MemberText(data: Object, name: string): string {
    match Member(data, name)
    case JNull => ""
    case JBool(flag) => if flag then "true" else "false"
    case JInt(number) => Decimal(number)
    case JString(text) => text
  }

  function ColumnType(value: Json): string {
    match value
    case JInt(number) => if -0x8000_0000 <= number < 0x8000_0000 then "INTEGER" else "BIGINT"
    case JBool(_) => "BOOLEAN"
    case JString(_) => "TEXT"
    case JNull => "TEXT"
  }

  // ----- As written -----

  function WrittenName(name: string): string {
    "\"" + name + "\""
  }

  /** The stream takes the boolean before the `?:` does, so a boolean prints as 1 or 0. */
  function WrittenValue(value: Json): string {
    match value
    case JNull => "NULL"
    case JString(text) => Delimited('\'', text)
    case JInt(number) => Decimal(number)
    case JBool(flag) => if flag then "1" else "0"
  }

  function ValueWriter(data: Object): string -> string {
    (name: string) => WrittenValue(Member(data, name))
  }

  function WrittenValues(data: Object, names: seq<string>): (parts: seq<string>)
    ensures |parts| == |names| && forall i | 0 <= i < |names| :: parts[i] == WrittenValue(Member(data, names[i]))
  {
    Map(ValueWriter(data), names)
  }

  function InsertText(table: string, data: Object): string {
    var names := MemberNames(data);
    "INSERT INTO " + (table + (" (" + (Join(Map(WrittenName, names))
      + (") VALUES (" + (Join(WrittenValues(data, names)) + ")")))))
  }

  function WrittenDef(data: Object, name: string): string {
    WrittenName(name) + (" " + ColumnType(Member(data, name)))
  }

  function DefWriter(data: Object): string -> string {
    (name: string) => WrittenDef(data, name)
  }

  function WrittenDefs(data: Object, names: seq<string>): (parts: seq<string>)
    ensures |parts| == |names| && forall i | 0 <= i < |names| :: parts[i] == WrittenDef(data, names[i])
  {
    Map(DefWriter(data), names)
  }

  function CreateText(table: string, data: Object): string {
    "CREATE TABLE IF NOT EXISTS " + (table + (" (" + (Join(WrittenDefs(data, MemberNames(data))) + ")")))
  }

  function Condition(column: string, key: string): string {
    WrittenName(column) + (" = " + ("'" + key + "'"))
  }

  function DeleteText(table: string, column: string, key: string): string {
    "DELETE FROM " + (table + (" WHERE " + Condition(column, key)))
  }

  /** One part of a SET clause, with what stands between the name and the value. */
  function AssignText(equals: string, data: Object, name: string): string {
    WrittenName(name) + (equals + PrintLiteral(LiteralOf(Member(data, name))))
  }

  function AssignWriter(equals: string, data: Object): string -> string {
    (name: string) => AssignText(equals, data, name)
  }

  function AssignTexts(equals: string, data: Object, names: seq<string>): (parts: seq<string>)
    ensures |parts| == |names| && forall i | 0 <= i < |names| :: parts[i] == AssignText(equals, data, names[i])
  {
    Map(AssignWriter(equals, data), names)
  }

  function UpdateTextWith(equals: string, table: string, after: Object, column: string, key: string): string {
    "UPDATE " + (table + (" SET " + (Join(AssignTexts(equals, after, MemberNames(after)))
      + (" WHERE " + Condition(column, key)))))
  }

  /** The value follows the quoted name directly: there is no equals sign. */
  const EQUALS := ""

  function UpdateText(table: string, after: Object, column: string, key: string): string {
    UpdateTextWith(EQUALS, table, after, column, key)
  }

  // ----- The writer's words and the server's -----

  lemma InsertWords(table: string, data: Object)
    ensures var names := MemberNames(data);
            InsertText(table, data)
            == Lead(Insert) + (table + (Open(Insert) + (Join(Map(WrittenName, names))
               + (Between(Insert) + (Join(WrittenValues(data, names)) + Close(Insert))))))
  {
  }

  lemma CreateWords(table: string, data: Object)
    ensures CreateText(table, data)
         == Lead(Create) + (table + (Open(Create) + (Join(WrittenDefs(data, MemberNames(data))) + Close(Create))))
  {
  }

  lemma DeleteWords(table: string, column: string, key: string)
    ensures DeleteText(table, column, key)
         == Lead(Delete) + (table + (Open(Delete) + (Condition(column, key) + Close(Delete))))
  {
    assert Condition(column, key) + Close(Delete) == Condition(column, key);
  }

  lemma UpdateWords(equals: string, table: string, after: Object, column: string, key: string)
    ensures UpdateTextWith(equals, table, after, column, key)
         == Lead(Update) + (table + (Open(Update) + (Join(AssignTexts(equals, after, MemberNames(after)))
            + (Between(Update) + (Condition(column, key) + Close(Update))))))
  {
    assert Condition(column, key) + Close(Update) == Condition(column, key);
  }

  lemma UpdateTextIsWith(table: string, after: Object, column: string, key: string)
    ensures UpdateText(table, after, column, key) == UpdateTextWith(EQUALS, table, after, column, key)
  {
    hide UpdateTextWith, EQUALS;
  }

  // ----- As meant -----

  function LiteralOf(value: Json): Literal {
    match value
    case JNull => Bare("NULL")
    case JString(text) => Quoted(text)
    case JInt(number) => Bare(Decimal(number))
    case JBool(flag) => Bare(if flag then "TRUE" else "FALSE")
  }

  function ValueItems(data: Object, names: seq<string>): (items: seq<Item>)
    ensures |items| == |names| && forall i | 0 <= i < |names| :: items[i] == Lit(LiteralOf(Member(data, names[i])))
  {
    if names == [] then [] else [Lit(LiteralOf(Member(data, names[0])))] + ValueItems(data, names[1..])
  }

  function NameItems(names: seq<string>): seq<Item> {
    Map((name: string) => Name(name), names)
  }

  function InsertStatement(table: string, data: Object): Statement {
    Statement(Insert, table, NameItems(MemberNames(data)), ValueItems(data, MemberNames(data)))
  }

  function DefItems(data: Object, names: seq<string>): (items: seq<Item>)
    ensures |items| == |names|
    ensures forall i | 0 <= i < |names| :: items[i] == Def(names[i], ColumnType(Member(data, names[i])))
  {
    if names == [] then [] else [Def(names[0], ColumnType(Member(data, names[0])))] + DefItems(data, names[1..])
  }

  function CreateStatement(table: string, data: Object): Statement {
    Statement(Create, table, DefItems(data, MemberNames(data)), [])
  }

  function AssignItems(data: Object, names: seq<string>): (items: seq<Item>)
    ensures |items| == |names|
    ensures forall i | 0 <= i < |names| :: items[i] == Assign(names[i], LiteralOf(Member(data, names[i])))
  {
    if names == [] then [] else [Assign(names[0], LiteralOf(Member(data, names[0])))] + AssignItems(data, names[1..])
  }

  function UpdateStatement(table: string, after: Object, column: string, key: string): Statement {
    Statement(Update, table, AssignItems(after, MemberNames(after)), [Assign(column, Quoted(key))])
  }

  function DeleteStatement(table: string, column: string, key: string): Statement {
    Statement(Delete, table, [Assign(column, Quoted(key))], [])
  }

  // ----- Literals are words or quoted, and tell values apart -----

  lemma {:induction false} DigitsAreWord(n: nat)
    ensures IsWord(Digits(n)) && '0' <= Digits(n)[0] <= '9'
    decreases n
  {
    if n >= 10 {
      DigitsAreWord(n / 10);
    }
  }

  lemma DecimalIsWord(n: int)
    ensures IsWord(Decimal(n)) && (Decimal(n)[0] == '-' || '0' <= Decimal(n)[0] <= '9')
  {
    DigitsAreWord(if n < 0 then -n else n);
  }

  lemma LiteralsAreLiterals(value: Json)
    ensures IsLiteral(LiteralOf(value))
  {
    if value.JInt? {
      DecimalIsWord(value.number);
    }
  }

  /** Different values have different literals: text, integer, boolean and NULL never collide. */
  lemma LiteralsTellApart(a: Json, b: Json)
    ensures LiteralOf(a) == LiteralOf(b) <==> a == b
  {
    if a.JInt? {
      DecimalIsWord(a.number);
    }
    if b.JInt? {
      DecimalIsWord(b.number);
    }
    if a.JInt? && b.JInt? {
      DecimalInjective(a.number, b.number);
    }
  }

  // ----- Which values print alike -----

  lemma PrintedLiteralsTellApart(a: Literal, b: Literal)
    requires IsLiteral(a) && IsLiteral(b)
    ensures PrintLiteral(a) == PrintLiteral(b) <==> a == b
  {
    LiteralRoundTrip(a, "");
    LiteralRoundTrip(b, "");
    assert PrintLiteral(a) + "" == PrintLiteral(a) && PrintLiteral(b) + "" == PrintLiteral(b);
    hide PrintLiteral, ReadLiteral;
  }

  /** What the stream makes of a boolean. */
  function AsPrinted(value: Json): Json {
    if value.JBool? then JInt(if value.flag then 1 else 0) else value
  }

  lemma PrintsAs(value: Json)
    ensures WrittenValue(value) == PrintLiteral(LiteralOf(AsPrinted(value)))
  {
    assert Digits(0) == "0" && Digits(1) == "1";
  }

  /** Two values print alike exactly if they are equal once booleans are taken for 1 and 0. */
  lemma WrittenValuesTellApart(a: Json, b: Json)
    ensures WrittenValue(a) == WrittenValue(b) <==> AsPrinted(a) == AsPrinted(b)
  {
    PrintsAs(a);
    PrintsAs(b);
    hide WrittenValue, LiteralOf, PrintLiteral;
    LiteralsAreLiterals(AsPrinted(a));
    LiteralsAreLiterals(AsPrinted(b));
    PrintedLiteralsTellApart(LiteralOf(AsPrinted(a)), LiteralOf(AsPrinted(b)));
    LiteralsTellApart(AsPrinted(a), AsPrinted(b));
  }

  // ----- Written against printed, by length -----

  lemma {:induction false} DoubledLength(q: char, s: string)
    ensures |s| <= |Doubled(q, s)|
    ensures |s| == |Doubled(q, s)| <==> q !in s
    ensures q !in s ==> Doubled(q, s) == s
    decreases |s|
  {
    if s != "" {
      DoubledLength(q, s[1..]);
      assert s == [s[0]] + s[1..];
      assert q in s <==> s[0] == q || q in s[1..];
    }
  }

  lemma WrittenNameLength(name: string)
    ensures |WrittenName(name)| <= |Delimited('"', name)|
    ensures |WrittenName(name)| == |Delimited('"', name)| <==> '"' !in name
    ensures '"' !in name ==> WrittenName(name) == Delimited('"', name)
  {
    DoubledLength('"', name);
  }

  lemma WrittenValueLength(value: Json)
    ensures |WrittenValue(value)| <= |PrintLiteral(LiteralOf(value))|
    ensures |WrittenValue(value)| == |PrintLiteral(LiteralOf(value))| <==> !value.JBool?
    ensures !value.JBool? ==> WrittenValue(value) == PrintLiteral(LiteralOf(value))
  {
  }

  /** Written part by part no longer than printed, and equal in length only where equal. */
  ghost predicate Shorter(parts: seq<string>, items: seq<Item>) {
    && |parts| == |items|
    && forall i | 0 <= i < |items| ::
         && |parts[i]| <= |PrintItem(items[i])|
         && (|parts[i]| == |PrintItem(items[i])| ==> parts[i] == PrintItem(items[i]))
  }

  ghost predicate Same(parts: seq<string>, items: seq<Item>)
    requires |parts| == |items|
  {
    forall i | 0 <= i < |items| :: parts[i] == PrintItem(items[i])
  }

  lemma {:induction false} JoinLength(parts: seq<string>, items: seq<Item>)
    requires Shorter(parts, items)
    ensures |Join(parts)| <= |PrintItems(items)|
    ensures |Join(parts)| == |PrintItems(items)| ==> Same(parts, items)
    ensures Same(parts, items) ==> Join(parts) == PrintItems(items)
    decreases |parts|
  {
    if |parts| > 1 {
      JoinLength(parts[1..], items[1..]);
      PrintFirst(items);
      assert parts[0] in parts && items[0] in items;
      if Same(parts, items) {
        assert Same(parts[1..], items[1..]);
      }
      if |Join(parts)| == |PrintItems(items)| {
        assert Same(parts[1..], items[1..]);
        forall i | 0 <= i < |items|
          ensures parts[i] == PrintItem(items[i])
        {
          assert i > 0 ==> parts[i] == parts[1..][i - 1] && items[i] == items[1..][i - 1];
        }
      }
    }
  }

  predicate PlainName(name: string) {
    '"' !in name
  }

  predicate PlainMembers(data: Object) {
    forall name | name in data :: PlainName(name)
  }

  /** Running over the member names is running over the members. */
  lemma AllMembers(data: Object)
    ensures forall name | name in MemberNames(data) :: name in data
    ensures MemberNames(data) == [] <==> data == map[]
    ensures (forall i | 0 <= i < |MemberNames(data)| :: PlainName(MemberNames(data)[i])) <==> PlainMembers(data)
    ensures (forall i | 0 <= i < |MemberNames(data)| :: !Member(data, MemberNames(data)[i]).JBool?)
        <==> NoBooleans(data)
  {
    var names := MemberNames(data);
    if data != map[] {
      var name :| name in data;
      assert name in names;
    }
    forall name | name in data
      ensures exists i :: 0 <= i < |names| && names[i] == name
    {
      assert name in names;
    }
    forall i | 0 <= i < |names|
      ensures names[i] in data
    {
      assert names[i] in names;
    }
  }

  predicate NoBooleans(data: Object) {
    forall name | name in data :: !data[name].JBool?
  }

  // ----- INSERT -----

  lemma NameList(names: seq<string>)
    ensures Shorter(Map(WrittenName, names), NameItems(names))
    ensures Same(Map(WrittenName, names), NameItems(names)) <==> forall i | 0 <= i < |names| :: PlainName(names[i])
  {
    var parts, items := Map(WrittenName, names), NameItems(names);
    forall i | 0 <= i < |names|
      ensures |parts[i]| <= |PrintItem(items[i])|
      ensures |parts[i]| == |PrintItem(items[i])| ==> parts[i] == PrintItem(items[i])
      ensures parts[i] == PrintItem(items[i]) <==> PlainName(names[i])
    {
      WrittenNameLength(names[i]);
    }
  }

  lemma ValueList(data: Object, names: seq<string>)
    ensures Shorter(WrittenValues(data, names), ValueItems(data, names))
    ensures Same(WrittenValues(data, names), ValueItems(data, names))
       <==> forall i | 0 <= i < |names| :: !Member(data, names[i]).JBool?
  {
    var parts, items := WrittenValues(data, names), ValueItems(data, names);
    forall i | 0 <= i < |names|
      ensures |parts[i]| <= |PrintItem(items[i])|
      ensures |parts[i]| == |PrintItem(items[i])| ==> parts[i] == PrintItem(items[i])
      ensures parts[i] == PrintItem(items[i]) <==> !Member(data, names[i]).JBool?
    {
      WrittenValueLength(Member(data, names[i]));
    }
  }

  lemma DefList(data: Object, names: seq<string>)
    ensures Shorter(WrittenDefs(data, names), DefItems(data, names))
    ensures Same(WrittenDefs(data, names), DefItems(data, names))
        <==> forall i | 0 <= i < |names| :: PlainName(names[i])
  {
    var parts, items := WrittenDefs(data, names), DefItems(data, names);
    forall i | 0 <= i < |names|
      ensures |parts[i]| <= |PrintItem(items[i])|
      ensures |parts[i]| == |PrintItem(items[i])| ==> parts[i] == PrintItem(items[i])
      ensures parts[i] == PrintItem(items[i]) <==> PlainName(names[i])
    {
      WrittenNameLength(names[i]);
    }
  }

  lemma ClosedByParenthesis(items: seq<Item>, rest: string)
    requires items != [] && rest != "" && rest[0] == ')'
    ensures EndsItems(items, rest)
  {
  }

  lemma TailStarts(s: Statement)
    requires s.verb == Insert || s.verb == Create
    ensures Tail(s) != "" && Tail(s)[0] == ')'
  {
  }

  lemma InsertShape(table: string, data: Object)
    requires IsIdentifier(table) && data != map[]
    ensures var s := InsertStatement(table, data); IsStatement(s) && Separated(s)
  {
    var s := InsertStatement(table, data);
    AllMembers(data);
    forall i | 0 <= i < |s.second|
      ensures IsItem(s.second[i])
    {
      LiteralsAreLiterals(Member(data, MemberNames(data)[i]));
    }
    assert AreItems(s.first) && AreItems(s.second);
    TailStarts(s);
    ClosedByParenthesis(s.first, Tail(s));
    ClosedByParenthesis(s.second, ")");
  }

  lemma InsertTextIsPrinted(table: string, data: Object)
    ensures PlainMembers(data) && NoBooleans(data) ==> InsertText(table, data) == Print(InsertStatement(table, data))
    ensures |InsertText(table, data)| == |Print(InsertStatement(table, data))| ==>
        PlainMembers(data) && NoBooleans(data)
  {
    hide PrintItem;
    var names := MemberNames(data);
    var s := InsertStatement(table, data);
    AllMembers(data);
    NameList(names);
    ValueList(data, names);
    JoinLength(Map(WrittenName, names), s.first);
    JoinLength(WrittenValues(data, names), s.second);
    InsertWords(table, data);
    hide InsertText, MemberNames, Join, PrintItems;
  }

  /**
    INSERT reads back as the same table, the same member names in the same order and the same
    values, exactly when the table is an identifier, no member name contains a double quote, no value is a
    boolean, and there is a member at all. Text values may contain anything.
   */
  lemma InsertReadsBack(table: string, data: Object)
    ensures ReadStatement(InsertText(table, data)) == Some(InsertStatement(table, data))
       <==> IsIdentifier(table) && data != map[] && PlainMembers(data) && NoBooleans(data)
  {
    hide ReadStatement, Print, InsertText, Separated;
    var s := InsertStatement(table, data);
    var text := InsertText(table, data);
    AllMembers(data);
    InsertTextIsPrinted(table, data);
    if IsIdentifier(table) && data != map[] && PlainMembers(data) && NoBooleans(data) {
      InsertShape(table, data);
      StatementRoundTrip(s);
    }
    if ReadStatement(text) == Some(s) {
      ReadIsPrinted(text);
      assert s.first != [];
    }
  }

  function TextOfOne(table: string, name: string, value: string): string {
    Lead(Insert) + (table + (Open(Insert) + (WrittenName(name) + (Between(Insert) + (value + Close(Insert))))))
  }

  lemma InsertOfOne(table: string, name: string, value: Json)
    ensures InsertText(table, map[name := value]) == TextOfOne(table, name, WrittenValue(value))
  {
    var data: Object := map[name := value];
    assert data.Keys == {name};
    OneName(name);
    hide WrittenName, WrittenValue;
    assert Map(WrittenName, [name]) == [WrittenName(name)];
    assert WrittenValues(data, [name]) == [WrittenValue(value)];
  }

  lemma OneName(name: string)
    ensures Sorted({name}) == [name]
  {
    var r := Sorted({name});
    assert r[0] in r;
  }

  lemma OneValue(name: string, value: Json)
    requires PlainName(name)
    ensures var data: Object := map[name := value];
            data != map[] && PlainMembers(data) && (NoBooleans(data) <==> !value.JBool?)
  {
    var data: Object := map[name := value];
    assert name in data && data[name] == value;
  }

  /** A boolean is the failing input: in any table and column, `true` is read back as the integer 1. */
  lemma BooleanReadsAsInteger(table: string, name: string)
    requires IsIdentifier(table) && PlainName(name)
    ensures var text := InsertText(table, map[name := JBool(true)]);
            ReadStatement(text) == Some(InsertStatement(table, map[name := JInt(1)]))
            && ReadStatement(text) != Some(InsertStatement(table, map[name := JBool(true)]))
  {
    assert WrittenValue(JInt(1)) == "1" == WrittenValue(JBool(true));
    hide *;
    InsertOfOne(table, name, JInt(1));
    InsertOfOne(table, name, JBool(true));
    OneValue(name, JInt(1));
    OneValue(name, JBool(true));
    InsertReadsBack(table, map[name := JInt(1)]);
    InsertReadsBack(table, map[name := JBool(true)]);
  }

  // ----- CREATE TABLE -----

  lemma CreateShape(table: string, data: Object)
    requires IsIdentifier(table) && data != map[]
    ensures var s := CreateStatement(table, data); IsStatement(s) && Separated(s)
  {
    var s := CreateStatement(table, data);
    AllMembers(data);
    forall i | 0 <= i < |s.first|
      ensures IsItem(s.first[i])
    {
      TypesAreWords(Member(data, MemberNames(data)[i]));
    }
    assert AreItems(s.first);
    TailStarts(s);
    ClosedByParenthesis(s.first, Tail(s));
  }

  lemma TypesAreWords(value: Json)
    ensures IsWord(ColumnType(value))
  {
  }

  /** The column list of a CREATE TABLE against the printed one. */
  lemma DefsArePrinted(data: Object)
    ensures var names := MemberNames(data);
            var text, printed := Join(WrittenDefs(data, names)), PrintItems(DefItems(data, names));
            && (PlainMembers(data) ==> text == printed)
            && (|text| == |printed| ==> PlainMembers(data))
  {
    var names := MemberNames(data);
    hide PrintItem, MemberNames, WrittenDefs, DefItems, PrintItems, Join;
    AllMembers(data);
    DefList(data, names);
    JoinLength(WrittenDefs(data, names), DefItems(data, names));
  }

  lemma CreateTextIsPrinted(table: string, data: Object)
    ensures PlainMembers(data) ==> CreateText(table, data) == Print(CreateStatement(table, data))
    ensures |CreateText(table, data)| == |Print(CreateStatement(table, data))| ==> PlainMembers(data)
  {
    CreateWords(table, data);
    hide PlainMembers, MemberNames, WrittenDefs, DefItems, PrintItems, Join, Lead, Open, Close, CreateText;
    DefsArePrinted(data);
  }

  /** CREATE TABLE reads back, under the same conditions on names. */
  lemma CreateReadsBack(table: string, data: Object)
    ensures ReadStatement(CreateText(table, data)) == Some(CreateStatement(table, data))
       <==> IsIdentifier(table) && data != map[] && PlainMembers(data)
  {
    hide ReadStatement, Print, CreateText, Separated;
    var s := CreateStatement(table, data);
    var text := CreateText(table, data);
    AllMembers(data);
    CreateTextIsPrinted(table, data);
    if IsIdentifier(table) && data != map[] && PlainMembers(data) {
      CreateShape(table, data);
      StatementRoundTrip(s);
    }
    if ReadStatement(text) == Some(s) {
      ReadIsPrinted(text);
      assert s.first != [];
    }
  }

  // ----- DELETE -----

  lemma ConditionLength(column: string, key: string)
    ensures var printed := PrintItem(Assign(column, Quoted(key)));
            && |Condition(column, key)| <= |printed|
            && (|Condition(column, key)| == |printed| <==> '"' !in column && '\'' !in key)
            && ('"' !in column && '\'' !in key ==> Condition(column, key) == printed)
  {
    DoubledLength('"', column);
    DoubledLength('\'', key);
  }

  /**
    The key value of a DELETE is not escaped: the statement is the intended one exactly when the
    table is an identifier, the column name has no double quote and the key value no single quote.
   */
  lemma DeleteReadsBack(table: string, column: string, key: string)
    ensures ReadStatement(DeleteText(table, column, key)) == Some(DeleteStatement(table, column, key))
       <==> IsIdentifier(table) && PlainName(column) && '\'' !in key
  {
    var s := DeleteStatement(table, column, key);
    var text := DeleteText(table, column, key);
    ConditionLength(column, key);
    if PlainName(column) && '\'' !in key {
      assert text == Print(s);
      if IsIdentifier(table) {
        StatementRoundTrip(s);
      }
    }
    if ReadStatement(text) == Some(s) {
      ReadIsPrinted(text);
    }
  }

  // ----- Table names the server does not take -----

  /** A word that names no table: a number or a reserved word. */
  predicate Unnameable(table: string) {
    IsWord(table) && '-' !in table && !IsIdentifier(table)
  }

  lemma UnnamedReadsNothing(verb: Verb, table: string, rest: string)
    requires Unnameable(table)
    ensures var text := Lead(verb) + (table + (Open(verb) + rest));
            ReadStatement(text) == None && Refused(text)
  {
    hide ReadFirst;
    var target := table + (Open(verb) + rest);
    assert ReadWord(target) == Got(table, Open(verb) + rest) by {
      OpenStopsWord(verb, rest);
      WordRoundTrip(table, Open(verb) + rest);
    }
    ExpectRoundTrip(Lead(verb), target);
    assert RefusedAs(verb, Lead(verb) + target);
    assert ReadTable(verb, target) == None;
    LeadDecides(verb, target);
    hide ReadTable, ReadStatement, Lead;
  }

  /** A table named by a number or a reserved word: the server refuses all of the writer's texts. */
  lemma UnnamedTableNeverReads(table: string, data: Object, column: string, key: string)
    requires Unnameable(table)
    ensures ReadStatement(CreateText(table, data)) == None && Refused(CreateText(table, data))
    ensures ReadStatement(InsertText(table, data)) == None && Refused(InsertText(table, data))
    ensures ReadStatement(DeleteText(table, column, key)) == None && Refused(DeleteText(table, column, key))
    ensures ReadStatement(UpdateText(table, data, column, key)) == None && Refused(UpdateText(table, data, column, key))
  {
    var names := MemberNames(data);
    InsertWords(table, data);
    CreateWords(table, data);
    DeleteWords(table, column, key);
    UpdateWords(EQUALS, table, data, column, key);
    hide Unnameable, Refused, ReadStatement, Join, Condition, MemberNames, Lead, Open, Close, Between, InsertText,
      CreateText,
      DeleteText, UpdateTextWith;
    var defs, columns := Join(WrittenDefs(data, names)), Join(Map(WrittenName, names));
    var values, assigns := Join(WrittenValues(data, names)), Join(AssignTexts(EQUALS, data, names));
    UnnamedReadsNothing(Create, table, defs + Close(Create));
    UnnamedReadsNothing(Insert, table, columns + (Between(Insert) + (values + Close(Insert))));
    UnnamedReadsNothing(Delete, table, Condition(column, key) + Close(Delete));
    UnnamedReadsNothing(Update, table, assigns + (Between(Update) + (Condition(column, key) + Close(Update))));
  }

  /** The failing input: the writer's unquoted `order`. */
  lemma OrderIsNoTable()
    ensures Unnameable("order") && Unnameable("Order")
  {
    assert Folded("order") == "order" == Folded("Order");
    assert "order" in KeyWords(8);
    hide KeyWords;
  }

  // ----- UPDATE -----

  lemma AssignStarts(data: Object, name: string, rest: string)
    requires PlainName(name)
    ensures AssignText(EQUALS, data, name) + rest
        == Delimited('"', name) + (PrintLiteral(LiteralOf(Member(data, name))) + rest)
  {
    WrittenNameLength(name);
    hide WrittenName, Delimited, PrintLiteral, LiteralOf, Member;
    assert "" + PrintLiteral(LiteralOf(Member(data, name))) == PrintLiteral(LiteralOf(Member(data, name)));
  }

  lemma AssignIsNoItem(data: Object, name: string, rest: string)
    requires PlainName(name)
    ensures var text := AssignText(EQUALS, data, name) + rest;
            ReadItem(text) == Got(Name(name), PrintLiteral(LiteralOf(Member(data, name))) + rest)
  {
    var literal := PrintLiteral(LiteralOf(Member(data, name)));
    LiteralStart(Member(data, name), rest);
    AssignStarts(data, name, rest);
    QuotedRoundTrip('"', name, literal + rest);
    hide AssignText, Delimited, PrintLiteral, LiteralOf, Member, ReadDelimited;
  }

  lemma AssignsAreNoList(data: Object, names: seq<string>, tail: string)
    requires names != [] && PlainName(names[0])
    ensures ReadItems(Join(AssignTexts(EQUALS, data, names)) + tail).Got?
    ensures var r := ReadItems(Join(AssignTexts(EQUALS, data, names)) + tail); r.rest != "" && r.rest[0] != ' '
  {
    var parts := AssignTexts(EQUALS, data, names);
    var name := names[0];
    var literal := PrintLiteral(LiteralOf(Member(data, name)));
    var more := if |parts| == 1 then tail else (", " + Join(parts[1..])) + tail;
    assert Join(parts) + tail == AssignText(EQUALS, data, name) + more;
    AssignIsNoItem(data, name, more);
    LiteralStart(Member(data, name), more);
  }

  lemma DecimalStart(n: int, more: string)
    ensures StartsValue(Decimal(n) + more)
  {
    var d, text := Digits(if n < 0 then -n else n), Decimal(n) + more;
    DigitsAreWord(if n < 0 then -n else n);
    assert d[0] in d;
    hide Digits;
    assert text[0] == if n < 0 then '-' else d[0];
    assert n < 0 ==> text[1] == d[0];
  }

  lemma LiteralStart(value: Json, more: string)
    ensures StartsValue(PrintLiteral(LiteralOf(value)) + more)
  {
    hide Digits, Decimal;
    match value
    case JInt(number) => DecimalStart(number, more);
    case JString(text) => assert Delimited('\'', text)[0] == '\'';
    case _ =>
  }

  lemma AssignRefused(data: Object, name: string, more: string)
    requires PlainName(name)
    ensures NoAssignment(AssignText(EQUALS, data, name) + more)
  {
    var literal := PrintLiteral(LiteralOf(Member(data, name)));
    AssignStarts(data, name, more);
    LiteralStart(Member(data, name), more);
    QuotedRoundTrip('"', name, literal + more);
    hide AssignText, PrintLiteral, LiteralOf, Member, ReadDelimited, StartsValue;
  }

  lemma AssignsRefused(data: Object, names: seq<string>, tail: string)
    requires names != [] ==> PlainName(names[0])
    requires tail != "" && tail[0] == ' '
    ensures NoAssignment(Join(AssignTexts(EQUALS, data, names)) + tail)
  {
    var parts := AssignTexts(EQUALS, data, names);
    hide AssignText;
    if names == [] {
      assert Join(parts) + tail == tail;
    } else {
      var more := if |parts| == 1 then tail else (", " + Join(parts[1..])) + tail;
      assert Join(parts) + tail == AssignText(EQUALS, data, names[0]) + more;
      hide NoAssignment, Join;
      AssignRefused(data, names[0], more);
    }
  }

  lemma UpdateListsFail(table: string, after: Object, names: seq<string>, tail: string)
    requires forall name | name in names :: PlainName(name)
    requires tail != "" && tail[0] == ' '
    ensures ReadFirst(Update, table, Join(AssignTexts(EQUALS, after, names)) + tail) == None
    ensures NoAssignment(Join(AssignTexts(EQUALS, after, names)) + tail)
  {
    assert names != [] ==> names[0] in names;
    AssignsRefused(after, names, tail);
    hide NoAssignment;
    if names == [] {
      assert Join(AssignTexts(EQUALS, after, names)) + tail == tail;
    } else {
      AssignsAreNoList(after, names, tail);
      hide ReadItems, Join, AssignTexts;
      assert Between(Update)[0] == ' ';
    }
  }

  lemma UpdateRefused(table: string, lists: string)
    requires IsIdentifier(table) && ReadFirst(Update, table, lists) == None && NoAssignment(lists)
    ensures var text := Lead(Update) + (table + (Open(Update) + lists));
            ReadStatement(text) == None && Refused(text)
  {
    hide ReadFirst, NoAssignment;
    var target := table + (Open(Update) + lists);
    assert ReadWord(target) == Got(table, Open(Update) + lists) by {
      OpenStopsWord(Update, lists);
      WordRoundTrip(table, Open(Update) + lists);
    }
    ExpectRoundTrip(Open(Update), lists);
    ExpectRoundTrip(Lead(Update), target);
    assert RefusedAs(Update, Lead(Update) + target);
    assert ReadTable(Update, target) == None;
    LeadDecides(Update, target);
    hide ReadTable, ReadStatement, Lead;
  }

  /**
    As written, no UPDATE of a table with a plain name and columns without double quotes is a
    statement, whatever the values and the key are: the server stops behind the first column name.
   */
  lemma UpdateNeverReads(table: string, after: Object, column: string, key: string)
    requires IsIdentifier(table) && PlainMembers(after)
    ensures ReadStatement(UpdateText(table, after, column, key)) == None
        && Refused(UpdateText(table, after, column, key))
  {
    var names := MemberNames(after);
    AllMembers(after);
    var tail := Between(Update) + (Condition(column, key) + Close(Update));
    assert tail[0] == ' ';
    UpdateListsFail(table, after, names, tail);
    var lists := Join(AssignTexts(EQUALS, after, names)) + tail;
    UpdateWords(EQUALS, table, after, column, key);
    hide *;
    UpdateRefused(table, lists);
    assert UpdateText(table, after, column, key) == UpdateTextWith(EQUALS, table, after, column, key) by {
      UpdateTextIsWith(table, after, column, key);
    }
  }

  /**
    Nor is it ever read as the assignments it is built from: whatever the names and values are, the
    text is shorter than that statement's.
   */
  lemma UpdateIsNeverIntended(table: string, after: Object, column: string, key: string)
    ensures ReadStatement(UpdateText(table, after, column, key)) != Some(UpdateStatement(table, after, column, key))
  {
    var s, text := UpdateStatement(table, after, column, key), UpdateText(table, after, column, key);
    AllMembers(after);
    assert after != map[] ==> |text| < |Print(s)| by {
      if after != map[] {
        UpdateIsShorter(table, after, column, key);
      }
    }
    assert after == map[] ==> !IsStatement(s);
    ReadMeansPrinted(text, s);
    hide ReadStatement, Print, UpdateText, IsStatement;
  }

  lemma ReadMeansPrinted(text: string, s: Statement)
    ensures ReadStatement(text) == Some(s) ==> IsStatement(s) && text == Print(s)
  {
    if ReadStatement(text) == Some(s) {
      ReadIsPrinted(text);
    }
  }

  /** Each part lacks three characters. */
  lemma {:induction false} AssignsAreShorter(data: Object, names: seq<string>)
    ensures |Join(AssignTexts(EQUALS, data, names))| + 3 * |names| <= |PrintItems(AssignItems(data, names))|
    decreases |names|
  {
    if names != [] {
      var parts, items := AssignTexts(EQUALS, data, names), AssignItems(data, names);
      AssignsAreShorter(data, names[1..]);
      WrittenNameLength(names[0]);
      assert parts[1..] == AssignTexts(EQUALS, data, names[1..]) && items[1..] == AssignItems(data, names[1..]);
      assert |parts[0]| + 3 <= |PrintItem(items[0])|;
      if |items| > 1 {
        PrintFirst(items);
      } else {
        assert PrintItems(items) == PrintItem(items[0]);
      }
      hide PrintItem, PrintItems, AssignTexts, AssignItems;
    }
  }

  lemma UpdateIsShorter(table: string, after: Object, column: string, key: string)
    requires after != map[]
    ensures |UpdateText(table, after, column, key)| < |Print(UpdateStatement(table, after, column, key))|
  {
    var s := UpdateStatement(table, after, column, key);
    AllMembers(after);
    AssignsAreShorter(after, MemberNames(after));
    ConditionLength(column, key);
    assert PrintItems(s.second) == PrintItem(s.second[0]);
    hide PrintItem, PrintItems, Condition, MemberNames, AssignTexts, AssignItems;
  }

  lemma AssignList(data: Object, names: seq<string>)
    ensures Shorter(AssignTexts(" = ", data, names), AssignItems(data, names))
    ensures Same(AssignTexts(" = ", data, names), AssignItems(data, names))
        <==> forall i | 0 <= i < |names| :: PlainName(names[i])
  {
    var parts, items := AssignTexts(" = ", data, names), AssignItems(data, names);
    forall i | 0 <= i < |names|
      ensures |parts[i]| <= |PrintItem(items[i])|
      ensures |parts[i]| == |PrintItem(items[i])| ==> parts[i] == PrintItem(items[i])
      ensures parts[i] == PrintItem(items[i]) <==> PlainName(names[i])
    {
      WrittenNameLength(names[i]);
    }
  }

  lemma UpdateTextIsPrinted(table: string, after: Object, column: string, key: string)
    ensures var text, printed := UpdateTextWith(" = ", table, after, column, key),
        Print(UpdateStatement(table, after, column, key));
            && (PlainMembers(after) && PlainName(column) && '\'' !in key ==> text == printed)
            && (|text| == |printed| ==> PlainMembers(after) && PlainName(column) && '\'' !in key)
  {
    var s, parts := UpdateStatement(table, after, column, key), AssignTexts(" = ", after, MemberNames(after));
    AllMembers(after);
    AssignList(after, MemberNames(after));
    JoinLength(parts, s.first);
    ConditionLength(column, key);
    assert PrintItems(s.second) == PrintItem(s.second[0]);
    UpdateWords(" = ", table, after, column, key);
    hide PrintItem, PrintItems, Join, Condition, MemberNames, AssignTexts, UpdateTextWith;
  }

  lemma AssignsAreItems(data: Object, names: seq<string>)
    requires names != []
    ensures AreItems(AssignItems(data, names))
  {
    var items := AssignItems(data, names);
    forall i | 0 <= i < |items|
      ensures IsItem(items[i])
    {
      LiteralsAreLiterals(Member(data, names[i]));
    }
  }

  lemma UpdateShape(table: string, after: Object, column: string, key: string)
    requires IsIdentifier(table) && after != map[]
    ensures var s := UpdateStatement(table, after, column, key); IsStatement(s) && Separated(s)
  {
    var s, names := UpdateStatement(table, after, column, key), MemberNames(after);
    AllMembers(after);
    AssignsAreItems(after, names);
    assert s.first[|s.first| - 1].Assign?;
    assert s.verb == Update && s.second == [Assign(column, Quoted(key))];
    OneAssign(column, key);
    UpdateSeparated(s);
    hide AssignItems, MemberNames, AreItems, IsIdentifier, Separated;
  }

  lemma UpdateSeparated(s: Statement)
    requires s.verb == Update && s.first != [] && s.first[|s.first| - 1].Assign?
    requires |s.second| == 1 && s.second[0].Assign?
    ensures Separated(s)
  {
    ClosedByWhere(s.first, PrintItems(s.second) + Close(Update));
    AssignEndsText(s.second[0]);
    hide PrintItems, EndsItem;
  }

  lemma OneAssign(column: string, key: string)
    ensures AreItems([Assign(column, Quoted(key))])
  {
  }

  lemma AssignEndsText(item: Item)
    requires item.Assign?
    ensures EndsItem(item, "")
  {
  }

  lemma ClosedByWhere(items: seq<Item>, rest: string)
    requires items != [] && items[|items| - 1].Assign?
    ensures EndsItems(items, Between(Update) + rest)
  {
    var tail := Between(Update) + rest;
    assert tail[0] == ' ' && tail[1] == 'W';
  }

  /**
    The missing equals signs are all that is wrong: with them the UPDATE would read back as the same
    table, assignments and condition, under the conditions that hold for INSERT and DELETE.
   */
  lemma UpdateWouldReadBack(table: string, after: Object, column: string, key: string)
    ensures ReadStatement(UpdateTextWith(" = ", table, after, column, key))
        == Some(UpdateStatement(table, after, column, key))
       <==> IsIdentifier(table) && after != map[] && PlainMembers(after) && PlainName(column) && '\'' !in key
  {
    hide ReadStatement, Print, UpdateTextWith, Separated;
    var s := UpdateStatement(table, after, column, key);
    var text := UpdateTextWith(" = ", table, after, column, key);
    AllMembers(after);
    UpdateTextIsPrinted(table, after, column, key);
    if IsIdentifier(table) && after != map[] && PlainMembers(after) && PlainName(column) && '\'' !in key {
      UpdateShape(table, after, column, key);
      StatementRoundTrip(s);
    }
    if ReadStatement(text) == Some(s) {
      ReadIsPrinted(text);
      assert s.first != [];
    }
  }

  // ----- Word for word -----

  lemma Regroup3(a: string, b: string, c: string)
    ensures a + (b + c) == a + b + c
  {
  }

  lemma Regroup5(a: string, b: string, c: string, d: string, e: string)
    ensures a + (b + (c + (d + e))) == a + b + c + d + e
  {
    Regroup3(a, b, c + (d + e));
    Regroup3(a + b, c, d + e);
  }

  lemma ConditionIs(column: string, key: string)
    ensures Condition(column, key) == "\"" + column + "\" = '" + key + "'"
  {
    Regroup3("\"" + column + "\"", " = ", "'" + key + "'");
  }

  lemma WhereIs(front: string, column: string, key: string)
    ensures front + (" WHERE " + Condition(column, key)) == front + " WHERE \"" + column + "\" = '" + key + "'"
  {
    ConditionIs(column, key);
    hide Condition;
    assert " WHERE " + ("\"" + column + "\" = '" + key + "'") == " WHERE \"" + (column + ("\" = '" + (key + "'")));
    assert front + (" WHERE \"" + (column + ("\" = '" + (key + "'"))))
        == front + " WHERE \"" + column + "\" = '" + key + "'" by {
      Regroup5(front + " WHERE \"", column, "\" = '", key, "'");
    }
  }

  lemma DeleteTextIs(table: string, column: string, key: string)
    ensures DeleteText(table, column, key) == "DELETE FROM " + table + " WHERE \"" + column + "\" = '" + key + "'"
  {
    Regroup3("DELETE FROM ", table, " WHERE " + Condition(column, key));
    WhereIs("DELETE FROM " + table, column, key);
    hide Condition;
  }

  lemma InsertTextIs(table: string, data: Object)
    ensures var names := MemberNames(data);
            InsertText(table, data)
            == "INSERT INTO " + table + " (" + Join(Map(WrittenName, names)) + ") VALUES ("
               + Join(WrittenValues(data, names)) + ")"
  {
    var names := MemberNames(data);
    var columns, values := Join(Map(WrittenName, names)), Join(WrittenValues(data, names));
    assert InsertText(table, data) == "INSERT INTO " + (table + (" (" + (columns + (") VALUES (" + (values + ")")))));
    hide *;
    Regroup5("INSERT INTO ", table, " (", columns, ") VALUES (" + (values + ")"));
    Regroup3("INSERT INTO " + table + " (" + columns, ") VALUES (", values + ")");
    Regroup3("INSERT INTO " + table + " (" + columns + ") VALUES (", values, ")");
  }

  lemma CreateTextIs(table: string, data: Object)
    ensures CreateText(table, data)
         == "CREATE TABLE IF NOT EXISTS " + table + " (" + Join(WrittenDefs(data, MemberNames(data))) + ")"
  {
    var defs := Join(WrittenDefs(data, MemberNames(data)));
    assert CreateText(table, data) == "CREATE TABLE IF NOT EXISTS " + (table + (" (" + (defs + ")")));
    hide *;
    Regroup5("CREATE TABLE IF NOT EXISTS ", table, " (", defs, ")");
  }

  lemma UpdateTextIs(table: string, data: Object, column: string, key: string)
    ensures UpdateText(table, data, column, key)
         == "UPDATE " + table + " SET " + Join(AssignTexts(EQUALS, data, MemberNames(data))) + " WHERE \"" + column
            + "\" = '" + key + "'"
  {
    var assigns := Join(AssignTexts(EQUALS, data, MemberNames(data)));
    assert UpdateText(table, data, column, key)
        == "UPDATE " + (table + (" SET " + (assigns + (" WHERE " + Condition(column, key)))));
    hide *;
    Regroup5("UPDATE ", table, " SET ", assigns, " WHERE " + Condition(column, key));
    WhereIs("UPDATE " + table + " SET " + assigns, column, key);
  }

  /** The four texts, whatever goes into them. */
  lemma TextsWordForWord(table: string, data: Object, column: string, key: string)
    ensures DeleteText(table, column, key) == "DELETE FROM " + table + " WHERE \"" + column + "\" = '" + key + "'"
    ensures var names := MemberNames(data);
            InsertText(table, data)
            == "INSERT INTO " + table + " (" + Join(Map(WrittenName, names)) + ") VALUES ("
               + Join(WrittenValues(data, names)) + ")"
    ensures CreateText(table, data)
         == "CREATE TABLE IF NOT EXISTS " + table + " (" + Join(WrittenDefs(data, MemberNames(data))) + ")"
    ensures UpdateText(table, data, column, key)
         == "UPDATE " + table + " SET " + Join(AssignTexts(EQUALS, data, MemberNames(data))) + " WHERE \"" + column
            + "\" = '" + key + "'"
  {
    hide *;
    DeleteTextIs(table, column, key);
    InsertTextIs(table, data);
    CreateTextIs(table, data);
    UpdateTextIs(table, data, column, key);
  }

  lemma OneMember(name: string, value: Json)
    ensures var data: Object := map[name := value];
            MemberNames(data) == [name] && Member(data, name) == value
  {
    var data: Object := map[name := value];
    assert data.Keys == {name};
    OneName(name);
  }

  lemma JoinOne(part: string)
    ensures Join([part]) == part
  {
  }

  /** The CREATE TABLE for a single column: its type goes by the kind of the value. */
  lemma OneColumnCreated(table: string, name: string, value: Json)
    ensures CreateText(table, map[name := value])
         == "CREATE TABLE IF NOT EXISTS " + table + " (" + ("\"" + name + "\"" + (" " + ColumnType(value))) + ")"
    ensures ColumnType(value) == match value
                                 case JNull => "TEXT"
                                 case JString(_) => "TEXT"
                                 case JBool(_) => "BOOLEAN"
                                 case JInt(n) => if -2147483648 <= n <= 2147483647 then "INTEGER" else "BIGINT"
  {
    var data: Object := map[name := value];
    OneMember(name, value);
    CreateTextIs(table, data);
    JoinOne(WrittenDef(data, name));
    assert WrittenDef(data, name) == "\"" + name + "\"" + (" " + ColumnType(value));
    hide CreateText, MemberNames, Join, WrittenDef, Member;
    assert WrittenDefs(data, [name]) == [WrittenDef(data, name)];
  }

  lemma TextInserted(table: string, name: string, text: string)
    requires '\'' !in text
    ensures InsertText(table, map[name := JString(text)])
         == "INSERT INTO " + table + " (\"" + name + "\") VALUES ('" + text + "')"
  {
    QuotedPlainly(text);
    assert "\") VALUES (" + "'" == "\") VALUES ('" && "'" + ")" == "')";
    hide *;
    OneColumnInserted(table, name, JString(text));
    InQuotes("INSERT INTO " + table + " (\"" + name, "\") VALUES (", "\") VALUES ('", text, ")", "')");
  }

  lemma TextUpdated(table: string, name: string, text: string, column: string, key: string)
    requires '\'' !in text
    ensures UpdateText(table, map[name := JString(text)], column, key)
         == "UPDATE " + table + " SET \"" + name + "\"'" + text + "' WHERE \"" + column + "\" = '" + key + "'"
  {
    QuotedPlainly(text);
    assert "\"" + "'" == "\"'" && "'" + " WHERE \"" == "' WHERE \"";
    hide *;
    OneColumnUpdated(table, name, JString(text), column, key);
    InQuotes("UPDATE " + table + " SET \"" + name, "\"", "\"'", text, " WHERE \"", "' WHERE \"");
  }

  /** INSERT and UPDATE of a text without single quotes; in the UPDATE nothing stands between column and value. */
  lemma OneTextWritten(table: string, name: string, text: string, column: string, key: string)
    requires '\'' !in text
    ensures InsertText(table, map[name := JString(text)])
         == "INSERT INTO " + table + " (\"" + name + "\") VALUES ('" + text + "')"
    ensures UpdateText(table, map[name := JString(text)], column, key)
         == "UPDATE " + table + " SET \"" + name + "\"'" + text + "' WHERE \"" + column + "\" = '" + key + "'"
    ensures InsertText(table, map[name := JNull])
        == "INSERT INTO " + table + " (\"" + name + "\") VALUES (" + "NULL" + ")"
  {
    QuotedPlainly(text);
    hide *;
    TextInserted(table, name, text);
    TextUpdated(table, name, text, column, key);
    OneColumnInserted(table, name, JNull);
  }

  lemma QuotedPlainly(text: string)
    requires '\'' !in text
    ensures WrittenValue(JString(text)) == PrintLiteral(LiteralOf(JString(text))) == "'" + text + "'"
    ensures WrittenValue(JNull) == "NULL"
  {
    DoubledLength('\'', text);
    hide Doubled;
  }

  lemma InQuotes(front: string, before: string, before2: string, text: string, behind: string, behind2: string)
    requires before + "'" == before2 && "'" + behind == behind2
    ensures front + before + ("'" + text + "'") + behind == front + before2 + text + behind2
  {
    Regroup3(front + before, "'" + text, "'");
    Regroup3(front + before, "'", text);
    Regroup3(front, before, "'");
    Regroup3(front + before2 + text, "'", behind);
  }

  lemma OneColumnInserted(table: string, name: string, value: Json)
    ensures InsertText(table, map[name := value])
         == "INSERT INTO " + table + " (\"" + name + "\") VALUES (" + WrittenValue(value) + ")"
  {
    var data: Object := map[name := value];
    OneMember(name, value);
    OneEach(data, name);
    assert WrittenName(name) == "\"" + name + "\"";
    hide *;
    InsertTextIs(table, data);
    JoinOne(WrittenName(name));
    JoinOne(WrittenValue(value));
    Enclosed("INSERT INTO " + table + " (", "\"", name, "\"", ") VALUES (");
  }

  lemma OneEach(data: Object, name: string)
    ensures WrittenValues(data, [name]) == [WrittenValue(Member(data, name))]
    ensures Map(WrittenName, [name]) == [WrittenName(name)]
  {
    hide WrittenValue, WrittenName, Member;
  }

  lemma Enclosed(front: string, a: string, b: string, c: string, behind: string)
    ensures front + (a + b + c) + behind == front + a + b + c + behind
  {
    Regroup3(front, a + b, c);
    Regroup3(front, a, b);
  }

  lemma OneColumnUpdated(table: string, name: string, value: Json, column: string, key: string)
    ensures UpdateText(table, map[name := value], column, key)
         == "UPDATE " + table + " SET \"" + name + "\"" + PrintLiteral(LiteralOf(value)) + " WHERE \"" + column
            + "\" = '" + key + "'"
  {
    var data: Object := map[name := value];
    OneMember(name, value);
    TextsWordForWord(table, data, column, key);
    JoinOne(AssignText(EQUALS, data, name));
    hide UpdateText, MemberNames, Join, PrintLiteral, LiteralOf;
    assert AssignTexts(EQUALS, data, [name]) == [AssignText(EQUALS, data, name)];
  }

  /** A table `t` for a text in column `k`. */
  lemma TextColumnCreated()
    ensures CreateText("t", map["k" := JString("a")]) == "CREATE TABLE IF NOT EXISTS t (\"k\" TEXT)"
  {
    hide *;
    OneColumnCreated("t", "k", JString("a"));
    assert "\"" + "k" + "\"" + (" " + "TEXT") == "\"k\" TEXT";
    assert "CREATE TABLE IF NOT EXISTS " + "t" + " (" == "CREATE TABLE IF NOT EXISTS t (";
  }

  /** The removal of the row whose column `k` is `a`. */
  lemma RemovalWritten()
    ensures DeleteText("t", "k", "a") == "DELETE FROM t WHERE \"k\" = 'a'"
  {
    hide *;
    DeleteTextIs("t", "k", "a");
  }

  // ----- Selecting by a member -----

  /** The column of a condition without a key column is the first member in byte order. */
  lemma FirstMember(data: Object)
    requires data != map[]
    ensures MemberNames(data) != [] && IsLeast(MemberNames(data)[0], data.Keys)
  {
    var names := MemberNames(data);
    var some :| some in data;
    assert some in names;
    AtMostReflexive(names[0]);
    forall other | other in data.Keys
      ensures AtMost(names[0], other)
    {
      var j :| 0 <= j < |names| && names[j] == other;
    }
  }

  /** A row is selected by the text of a string member, and by the JSON text of any other; NULL gives none. */
  lemma SelectedBy(data: Object, name: string)
    ensures MemberText(data, name)
         == if name !in data || data[name].JNull? then ""
            else if data[name].JString? then data[name].text
            else WriteString(data[name])
  {
  }
}
