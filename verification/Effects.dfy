/**
  What one change record does to the replica: the producer's record, carried through the consumer,
  printed as SQL, read by the server and executed.
 */
module Effects {
  import opened Bytes
  import opened Identifiers
  import opened Numerals
  import opened PgOutput
  import opened WireFormat
  import opened Changes
  import opened WriterSql
  import opened Replica
  import Members
  import Sql

  // ----- Relations the pipeline can carry -----

  /**
    The writer puts table names in unquoted and column names between quotes unescaped; an empty
    column name reads as "no primary key"; a table without columns has no INSERT.
   */
  predicate WellNamed(r: Relation) {
    && Sql.IsIdentifier(r.name)
    && r.columns != []
    && DistinctNames(r.columns)
    && forall c | c in r.columns :: PlainName(c.name) && c.name != ""
  }

  /** Besides, the server must not take the table for one of its own. */
  predicate PlainRelation(r: Relation) {
    WellNamed(r) && !IsCatalogued(r.name) && !IsSystemName(r.name)
  }

  function ColumnNames(r: Relation): set<string> {
    set c | c in r.columns :: c.name
  }

  /** The column whose value routes a row and selects it in the replica. */
  function KeyColumn(r: Relation): nat
    requires r.columns != []
    ensures KeyColumn(r) < |r.columns|
  {
    FirstKey(r.columns, 0)
  }

  function FirstKey(columns: seq<Column>, from: nat): (k: nat)
    requires from <= |columns| && columns != []
    ensures k < |columns|
    ensures (exists i :: from <= i < |columns| && MarksKey(columns[i])) ==> MarksKey(columns[k])
    decreases |columns| - from
  {
    if from == |columns| then 0 else if MarksKey(columns[from]) then from else FirstKey(columns, from + 1)
  }

  /** The replica's row for a full tuple of rendered values. */
  function ReplicaRow(r: Relation, values: seq<bytes>): SqlRow
    requires |values| == |r.columns|
  {
    map name | name in ColumnNames(r) :: Literal(Row(r.columns, values), name)
  }

  function Literal(data: Object, name: string): Sql.Literal {
    LiteralOf(Member(data, name))
  }

  lemma RowMembers(r: Relation, values: seq<bytes>)
    requires WellNamed(r) && |values| == |r.columns|
    ensures var data := Row(r.columns, values);
            && data.Keys == ColumnNames(r) && data != map[] && PlainMembers(data) && NoBooleans(data)
            && (forall i | 0 <= i < |values| :: data[r.columns[i].name] == JString(values[i]))
  {
    var data := Row(r.columns, values);
    RowObjectIsRow(r.columns, values, |values|);
    assert r.columns[0] in r.columns;
    assert r.columns[0].name in data;
    forall name | name in data
      ensures name in ColumnNames(r) && data[name].JString? && PlainName(name)
    {
      var i :| 0 <= i < |values| && r.columns[i].name == name;
      assert r.columns[i] in r.columns;
    }
    forall name | name in ColumnNames(r)
      ensures name in data
    {
      var c :| c in r.columns && c.name == name;
      var i :| 0 <= i < |r.columns| && r.columns[i] == c;
    }
  }

  lemma {:induction false} FirstKeyIsRouted(data: Object, columns: seq<Column>, from: nat)
    requires from <= |columns| && columns != [] && forall c | c in columns :: c.name in data
    ensures KeyIndex(data, columns, from) == Some(FirstKey(columns, from))
    decreases |columns| - from
  {
    assert columns[0] in columns;
    if from < |columns| {
      assert columns[from] in columns;
      if !MarksKey(columns[from]) {
        FirstKeyIsRouted(data, columns, from + 1);
      }
    }
  }

  /** A full row is routed by its key column, whatever operation carries it. */
  lemma RowIsRoutedByKey(r: Relation, values: seq<bytes>)
    requires WellNamed(r) && |values| == |r.columns|
    ensures var k := KeyColumn(r);
            ExtractKey(Row(r.columns, values), r.columns) == (r.columns[k].name, WriteString(JString(values[k])))
  {
    RowMembers(r, values);
    FirstKeyIsRouted(Row(r.columns, values), r.columns, 0);
  }

  /** The object maps the names of the first columns to the values, and holds nothing else. */
  ghost predicate IsRowOf(data: Object, columns: seq<Column>, values: seq<bytes>)
    requires |values| <= |columns|
  {
    && (forall name :: name in data <==> exists i :: 0 <= i < |values| && columns[i].name == name)
    && (forall i | 0 <= i < |values| :: columns[i].name in data && data[columns[i].name] == JString(values[i]))
  }

  lemma RowIsRow(columns: seq<Column>, values: seq<bytes>)
    requires |values| <= |columns| && DistinctNames(columns)
    ensures IsRowOf(Row(columns, values), columns, values)
  {
    RowObjectIsRow(columns, values, |values|);
  }

  /** From the handler to the writer: operation, table and rows arrive as they were decoded. */
  lemma RowsAreCarried(r: Relation, before: seq<bytes>, after: seq<bytes>)
    requires DistinctNames(r.columns) && |before| <= |r.columns| && |after| <= |r.columns|
    ensures var m := ToMessage(InsertChange(r, after).record);
            m.op == "INSERT" && m.table == r.name && IsRowOf(m.data, r.columns, after) && m.before == m.after == map[]
    ensures var m := ToMessage(UpdateChange(r, before, after).record);
            && m.op == "UPDATE" && m.table == r.name && m.data == map[]
            && IsRowOf(m.before, r.columns, before) && IsRowOf(m.after, r.columns, after)
    ensures var m := ToMessage(DeleteChange(r, before).record);
            m.op == "DELETE" && m.table == r.name && IsRowOf(m.before, r.columns, before) && m.data == m.after == map[]
  {
    RowIsRow(r.columns, before);
    RowIsRow(r.columns, after);
    hide Row, ExtractKey, IsRowOf, DistinctNames;
  }

  // ----- Tables -----

  function RowsOf(db: Database, r: Relation): multiset<SqlRow> {
    if Folded(r.name) in db then db[Folded(r.name)].rows else multiset{}
  }

  /** All of the relation's columns, as the producer's strings make them. */
  function TextColumns(r: Relation): map<string, string> {
    map name | name in ColumnNames(r) :: "TEXT"
  }

  /** The relation's table, if it exists, has the relation's columns and stands under its folded name. */
  predicate Fits(db: Database, r: Relation) {
    && (Folded(r.name) in db ==> db[Folded(r.name)].types == TextColumns(r))
    && (r.name in db ==> Folded(r.name) in db)
  }

  function WithRows(db: Database, r: Relation, rows: multiset<SqlRow>): Database {
    db[Folded(r.name) := Table(TextColumns(r), rows)]
  }

  // ----- INSERT -----

  lemma NameItemsAre(names: seq<string>)
    ensures var items := NameItems(names);
            && (forall i | i in items :: i.Name?)
            && ItemNames(items) == (set name | name in names)
  {
    var items := NameItems(names);
    forall i | i in items
      ensures i.Name? && i.name in names
    {
      var j :| 0 <= j < |items| && items[j] == i;
    }
    forall name | name in names
      ensures name in ItemNames(items)
    {
      var j :| 0 <= j < |names| && names[j] == name;
      assert items[j] in items;
    }
  }

  lemma DefItemsAre(data: Object, names: seq<string>)
    ensures var items := DefItems(data, names);
            && (forall i | i in items :: i.Def?)
            && ItemNames(items) == (set name | name in names)
  {
    var items := DefItems(data, names);
    forall i | i in items
      ensures i.Def? && i.name in names
    {
      var j :| 0 <= j < |items| && items[j] == i;
    }
    forall name | name in names
      ensures name in ItemNames(items)
    {
      var j :| 0 <= j < |names| && names[j] == name;
      assert items[j] in items;
    }
  }

  lemma ValueItemsAre(data: Object, names: seq<string>)
    ensures forall i | i in ValueItems(data, names) :: i.Lit?
  {
    var items := ValueItems(data, names);
    forall i | i in items
      ensures i.Lit?
    {
      var j :| 0 <= j < |items| && items[j] == i;
    }
  }

  lemma {:induction false} ZipIsLookup(data: Object, names: seq<string>)
    requires forall i | i in NameItems(names) :: i.Name?
    requires forall i | i in ValueItems(data, names) :: i.Lit?
    ensures var row := Zip(NameItems(names), ValueItems(data, names));
            && (forall name :: name in row <==> name in names)
            && (forall name | name in names :: row[name] == Literal(data, name))
    decreases |names|
  {
    if names != [] {
      assert NameItems(names)[1..] == NameItems(names[1..]);
      assert ValueItems(data, names)[1..] == ValueItems(data, names[1..]);
      ZipIsLookup(data, names[1..]);
      assert names == [names[0]] + names[1..];
    }
  }

  lemma MembersAreKeys(data: Object)
    ensures (set name | name in MemberNames(data)) == data.Keys
  {
  }

  /** The types the columns of an object's members are created with. */
  function CreatedTypes(data: Object): map<string, string> {
    map name | name in data :: ColumnType(data[name])
  }

  lemma {:induction false} DeclaredIsLookup(data: Object, names: seq<string>)
    requires forall i | i in DefItems(data, names) :: i.Def?
    ensures var types := Declared(DefItems(data, names));
            && (forall name :: name in types <==> name in names)
            && (forall name | name in names :: types[name] == ColumnType(Member(data, name)))
    decreases |names|
  {
    if names != [] {
      hide ColumnType, Member;
      assert DefItems(data, names)[1..] == DefItems(data, names[1..]);
      DeclaredIsLookup(data, names[1..]);
      assert names == [names[0]] + names[1..];
      var types, rest := Declared(DefItems(data, names)), Declared(DefItems(data, names[1..]));
      assert types == rest[names[0] := ColumnType(Member(data, names[0]))];
      hide Declared, DefItems;
      OneMoreType(types, rest, names[0], names[1..], (name: string) => ColumnType(Member(data, name)));
    }
  }

  lemma OneMoreType(types: map<string, string>, rest: map<string, string>, first: string, more: seq<string>,
      kind: string -> string)
    requires types == rest[first := kind(first)]
    requires (forall name :: name in rest <==> name in more) && forall name | name in more :: rest[name] == kind(name)
    ensures forall name :: name in types <==> name in [first] + more
    ensures forall name | name in [first] + more :: types[name] == kind(name)
  {
  }

  lemma DefinedTypes(data: Object, names: seq<string>)
    requires forall name :: name in names <==> name in data
    requires forall i | i in DefItems(data, names) :: i.Def?
    ensures Declared(DefItems(data, names)) == CreatedTypes(data)
    ensures forall i | i in DefItems(data, names) :: IsTypeName(i.word)
  {
    DeclaredIsLookup(data, names);
    hide Declared;
    forall i | i in DefItems(data, names)
      ensures IsTypeName(i.word)
    {
      var j :| 0 <= j < |names| && DefItems(data, names)[j] == i;
    }
  }

  /** CREATE TABLE IF NOT EXISTS, executed: the table is there afterwards, with columns for the row. */
  lemma CreateExecuted(server: Server, db: Database, table: string, data: Object)
    requires Sql.IsIdentifier(table) && data != map[] && PlainMembers(data)
    ensures Execute(server, db, CreateText(table, data))
         == Executed(if Folded(table) in db
             then db else db[Folded(table) := Table(CreatedTypes(data), multiset{})], true)
  {
    assert Sql.ReadStatement(CreateText(table, data)) == Some(CreateStatement(table, data)) by {
      CreateReadsBack(table, data);
    }
    DefsExecuted(server, db, CreateText(table, data), Folded(table), data);
    hide Sql.ReadStatement, CreateText, MemberNames, DefItems, ExecuteCreate, Folded;
  }

  lemma DefsExecuted(server: Server, db: Database, text: string, table: string, data: Object)
    ensures ExecuteCreate(server, db, text, table, DefItems(data, MemberNames(data)))
         == Executed(if table in db then db else db[table := Table(CreatedTypes(data), multiset{})], true)
  {
    var names := MemberNames(data);
    DefItemsAre(data, names);
    DefinedTypes(data, names);
    assert Distinct(DefItems(data, names));
    hide MemberNames, DefItems, ItemNames, Declared, CreatedTypes, IsTypeName;
  }

  function LiteralRow(data: Object): SqlRow {
    map name | name in data.Keys :: Literal(data, name)
  }

  lemma LiteralKeys(data: Object)
    ensures LiteralRow(data).Keys == data.Keys
  {
  }

  lemma ZipIsRow(data: Object, names: seq<string>)
    requires forall name :: name in names <==> name in data
    requires forall i | i in NameItems(names) :: i.Name?
    requires forall i | i in ValueItems(data, names) :: i.Lit?
    ensures Zip(NameItems(names), ValueItems(data, names)) == LiteralRow(data)
  {
    ZipIsLookup(data, names);
  }

  /** The column list and the value list of an INSERT fit together, and describe the row. */
  lemma InsertItems(data: Object, names: seq<string>)
    requires forall name :: name in names <==> name in data
    requires forall i, j | 0 <= i < j < |names| :: names[i] != names[j]
    ensures var first, second := NameItems(names), ValueItems(data, names);
            && (forall i | i in first :: i.Name?) && (forall i | i in second :: i.Lit?) && Distinct(first)
            && |first| == |second| && Zip(first, second) == LiteralRow(data)
  {
    NameItemsAre(names);
    ValueItemsAre(data, names);
    ZipIsRow(data, names);
  }

  lemma InsertListsExecuted(server: Server, db: Database, text: string, table: string, data: Object, names: seq<string>)
    requires forall name :: name in names <==> name in data
    requires forall i, j | 0 <= i < j < |names| :: names[i] != names[j]
    requires table in db && db[table].types.Keys == data.Keys
    ensures var types, row := db[table].types, LiteralRow(data);
            ExecuteInsert(server, db, text, table, NameItems(names), ValueItems(data, names))
            == if AllSuit(types, row) then Executed(db[table := Table(types, db[table].rows + multiset{row})], true)
               else if SomeClash(types, row) then Executed(db, false)
               else server(db, text)
  {
    hide *;
    LiteralKeys(data);
    InsertItems(data, names);
    ListsExecuted(server, db, text, table, NameItems(names), ValueItems(data, names), LiteralRow(data));
  }

  lemma ListsExecuted(server: Server, db: Database, text: string, table: string, first: seq<Sql.Item>,
      second: seq<Sql.Item>, row: SqlRow)
    requires (forall i | i in first :: i.Name?) && (forall i | i in second :: i.Lit?) && Distinct(first)
    requires |first| == |second| && Zip(first, second) == row
    requires table in db && db[table].types.Keys == row.Keys
    ensures var types := db[table].types;
            ExecuteInsert(server, db, text, table, first, second)
            == if AllSuit(types, row) then Executed(db[table := Table(types, db[table].rows + multiset{row})], true)
               else if SomeClash(types, row) then Executed(db, false)
               else server(db, text)
  {
    assert Filled(row.Keys, row) == row;
    hide Filled, Zip, Distinct, AllSuit, SomeClash;
  }

  /** INSERT, executed: the row of the members joins the table, if the columns take it. */
  lemma InsertExecuted(server: Server, db: Database, table: string, data: Object)
    requires Sql.IsIdentifier(table) && data != map[] && PlainMembers(data) && NoBooleans(data)
    requires Folded(table) in db && db[Folded(table)].types.Keys == data.Keys
    ensures var types, row := db[Folded(table)].types, LiteralRow(data);
            Execute(server, db, InsertText(table, data))
            == if AllSuit(types, row) then
                 Executed(db[Folded(table) := Table(types, db[Folded(table)].rows + multiset{row})], true)
               else if SomeClash(types, row) then Executed(db, false)
               else server(db, InsertText(table, data))
  {
    hide *;
    LiteralKeys(data);
    InsertReadsBack(table, data);
    ReadInsertExecuted(server, db, InsertText(table, data), table, NameItems(MemberNames(data)),
        ValueItems(data, MemberNames(data)));
    InsertStatementIs(table, data);
    NamesOnce(data);
    InsertListsExecuted(server, db, InsertText(table, data), Folded(table), data, MemberNames(data));
  }

  lemma InsertStatementIs(table: string, data: Object)
    ensures InsertStatement(table, data)
         == Sql.Statement(Sql.Insert, table, NameItems(MemberNames(data)), ValueItems(data, MemberNames(data)))
  {
    hide NameItems, ValueItems, MemberNames;
  }

  lemma ReadInsertExecuted(server: Server, db: Database, text: string, table: string, first: seq<Sql.Item>,
      second: seq<Sql.Item>)
    ensures Sql.ReadStatement(text) == Some(Sql.Statement(Sql.Insert, table, first, second)) ==>
        Execute(server, db, text) == ExecuteInsert(server, db, text, Folded(table), first, second)
  {
    hide Sql.ReadStatement, ExecuteInsert, Folded;
  }

  lemma NamesOnce(data: Object)
    ensures var names := MemberNames(data);
            && (forall name :: name in names <==> name in data)
            && (forall i, j | 0 <= i < j < |names| :: names[i] != names[j])
  {
  }

  // ----- The first row of a table -----

  /**
    A column created for a value takes the value as it is written, unless that is a boolean: the column
    is BOOLEAN then and the value an integer. A column created for NULL takes every text.
   */
  lemma ValueSuitsItsColumn(value: Json)
    ensures !value.JBool? ==> Suits(ColumnType(value), LiteralOf(value))
    ensures value.JBool? ==> Clashes(ColumnType(value), LiteralOf(AsPrinted(value)))
    ensures value.JNull? ==> forall text :: Suits(ColumnType(value), Sql.Quoted(text))
  {
    if value.JInt? {
      IntegerOfDecimal(value.number);
    } else if value.JBool? {
      IntegerOfDecimal(if value.flag then 1 else 0);
    }
    hide Decimal, IntegerOf;
  }

  /** What the INSERT of an object says: booleans as the integers they print as. */
  function Printed(data: Object): Object {
    map name | name in data :: AsPrinted(data[name])
  }

  lemma ValuesPrinted(data: Object, names: seq<string>)
    ensures WrittenValues(data, names) == WrittenValues(Printed(data), names)
  {
    forall i | 0 <= i < |names|
      ensures WrittenValues(data, names)[i] == WrittenValues(Printed(data), names)[i]
    {
      MemberPrinted(data, names[i]);
    }
    hide WrittenValue, Printed, Member;
  }

  lemma MemberPrinted(data: Object, name: string)
    ensures WrittenValue(Member(data, name)) == WrittenValue(Member(Printed(data), name))
  {
    PrintsAs(Member(data, name));
    PrintsAs(Member(Printed(data), name));
    hide WrittenValue, LiteralOf, Sql.PrintLiteral;
  }

  lemma InsertTextPrinted(table: string, data: Object)
    ensures InsertText(table, data) == InsertText(table, Printed(data))
  {
    assert Printed(data).Keys == data.Keys;
    ValuesPrinted(data, MemberNames(data));
    hide WrittenValues, Sql.Join, Printed;
  }

  lemma BooleanSuitsNothing(value: Json)
    ensures value.JBool? ==> !Suits(ColumnType(value), LiteralOf(AsPrinted(value)))
  {
    assert Decimal(0) == "0" && Decimal(1) == "1";
    hide IsInteger;
  }

  lemma MemberFits(data: Object, name: string)
    requires name in data
    ensures var type_, literal := CreatedTypes(data)[name], LiteralRow(Printed(data))[name];
            && (!data[name].JBool? ==> Suits(type_, literal))
            && (data[name].JBool? ==> Clashes(type_, literal) && !Suits(type_, literal))
  {
    var value := data[name];
    assert LiteralRow(Printed(data))[name] == LiteralOf(AsPrinted(value))
        && CreatedTypes(data)[name] == ColumnType(value);
    hide Suits, Clashes, ColumnType, LiteralOf, CreatedTypes, LiteralRow, Printed;
    ValueSuitsItsColumn(value);
    BooleanSuitsNothing(value);
  }

  lemma PrintedKeys(data: Object)
    ensures LiteralRow(Printed(data)).Keys == CreatedTypes(data).Keys == Printed(data).Keys == data.Keys
    ensures data != map[] ==> Printed(data) != map[]
    ensures NoBooleans(data) ==> Printed(data) == data
    ensures NoBooleans(Printed(data))
    ensures PlainMembers(data) ==> PlainMembers(Printed(data))
  {
  }

  /** What is written for an object goes into the columns created for it exactly if it has no boolean. */
  lemma PrintedRow(data: Object)
    ensures var types, row := CreatedTypes(data), LiteralRow(Printed(data));
            && row.Keys == types.Keys
            && (NoBooleans(data) ==> AllSuit(types, row))
            && (!NoBooleans(data) ==> !AllSuit(types, row) && SomeClash(types, row))
  {
    PrintedKeys(data);
    forall name | name in data
      ensures !data[name].JBool? ==> Suits(CreatedTypes(data)[name], LiteralRow(Printed(data))[name])
      ensures data[name].JBool? ==>
          && Clashes(CreatedTypes(data)[name], LiteralRow(Printed(data))[name])
          && !Suits(CreatedTypes(data)[name], LiteralRow(Printed(data))[name])
    {
      MemberFits(data, name);
    }
    hide Suits, Clashes, CreatedTypes, LiteralRow, Printed;
  }

  /**
    The first row of a table, created for it: the row arrives exactly if none of its values is a
    boolean. A boolean's column does not take the integer it prints as, and the table stays empty.
   */
  lemma FirstRowArrives(server: Server, db: Database, table: string, data: Object)
    requires Sql.IsIdentifier(table) && data != map[] && PlainMembers(data) && Folded(table) !in db
        && !Exists(db, table)
    ensures var done := AfterInsert(server, AfterCreate(server, db, table, data).db, table, data);
            done == Executed(db[Folded(table) := Table(CreatedTypes(data),
                               if NoBooleans(data) then multiset{LiteralRow(data)} else multiset{})], NoBooleans(data))
  {
    hide *;
    var empty := Table(CreatedTypes(data), multiset{});
    var created := db[Folded(table) := empty];
    CreateIsExecuted(server, db, table, data);
    PrintedKeys(data);
    PrintedRow(data);
    InsertTextPrinted(table, data);
    InsertIsExecuted(server, created, table, data, empty);
    assert db[Folded(table) := empty][Folded(table) := Table(CreatedTypes(data), multiset{LiteralRow(data)})]
        == db[Folded(table) := Table(CreatedTypes(data), multiset{LiteralRow(data)})];
  }

  lemma CreateIsExecuted(server: Server, db: Database, table: string, data: Object)
    requires Sql.IsIdentifier(table) && data != map[] && PlainMembers(data) && Folded(table) !in db
        && !Exists(db, table)
    ensures AfterCreate(server, db, table, data).db == db[Folded(table) := Table(CreatedTypes(data), multiset{})]
  {
    CreateExecuted(server, db, table, data);
    hide Execute, CreateText, Sql.IsIdentifier, CreatedTypes, Folded;
  }

  lemma InsertIsExecuted(server: Server, db: Database, table: string, data: Object, was: Table)
    requires Sql.IsIdentifier(table) && Printed(data) != map[] && PlainMembers(Printed(data))
        && NoBooleans(Printed(data))
    requires Folded(table) in db && db[Folded(table)] == was && was.types == CreatedTypes(data)
        && was.rows == multiset{}
    requires LiteralRow(Printed(data)).Keys == CreatedTypes(data).Keys == Printed(data).Keys
    requires NoBooleans(data) ==> AllSuit(was.types, LiteralRow(Printed(data))) && Printed(data) == data
    requires !NoBooleans(data) ==>
        !AllSuit(was.types, LiteralRow(Printed(data))) && SomeClash(was.types, LiteralRow(Printed(data)))
    requires InsertText(table, data) == InsertText(table, Printed(data))
    ensures AfterInsert(server, db, table, data)
         == Executed(db[Folded(table) := Table(was.types,
              if NoBooleans(data) then multiset{LiteralRow(data)} else multiset{})], NoBooleans(data))
  {
    hide Execute, InsertText, Sql.IsIdentifier, CreatedTypes, AllSuit, SomeClash, Printed, NoBooleans, LiteralRow,
      Folded;
    InsertExecuted(server, db, table, Printed(data));
    assert multiset{} + multiset{LiteralRow(data)} == multiset{LiteralRow(data)};
    assert db[Folded(table) := was] == db;
  }

  // ----- The producer's rows -----

  lemma InsertMessage(server: Server, db: Database, r: Relation, values: seq<bytes>)
    requires |values| <= |r.columns|
    ensures var data := Row(r.columns, values);
            ApplyMessage(server, db, ToMessage(InsertChange(r, values).record))
            == AfterInsert(server, AfterCreate(server, db, r.name, data).db, r.name, data)
  {
  }

  /** A producer's row goes into text columns, under a name and member names that can be written. */
  lemma RowIsText(r: Relation, values: seq<bytes>)
    requires WellNamed(r) && |values| == |r.columns|
    ensures var data := Row(r.columns, values);
            && Sql.IsIdentifier(r.name) && data != map[] && PlainMembers(data) && NoBooleans(data)
            && data.Keys == TextColumns(r).Keys && CreatedTypes(data) == TextColumns(r)
            && LiteralRow(data) == ReplicaRow(r, values) && LiteralRow(data).Keys == TextColumns(r).Keys
            && AllSuit(TextColumns(r), LiteralRow(data))
  {
    RowMembers(r, values);
    var data := Row(r.columns, values);
    forall name | name in data
      ensures data[name].JString?
    {
      assert name in ColumnNames(r);
      var c :| c in r.columns && c.name == name;
      var i :| 0 <= i < |r.columns| && r.columns[i] == c;
    }
    hide Row, DistinctNames, Sql.IsIdentifier;
  }

  /** An INSERT record adds its row, creating the table on the way if it is missing, and reports success. */
  lemma InsertEffect(server: Server, db: Database, r: Relation, values: seq<bytes>)
    requires PlainRelation(r) && |values| == |r.columns| && Fits(db, r)
    ensures ApplyMessage(server, db, ToMessage(InsertChange(r, values).record))
         == Executed(WithRows(db, r, RowsOf(db, r) + multiset{ReplicaRow(r, values)}), true)
  {
    assert WellNamed(r) && !IsCatalogued(r.name);
    hide *;
    InsertMessage(server, db, r, values);
    TableCreated(server, db, r, values);
    RowInserted(server, db, r, RowsOf(db, r), values);
  }

  lemma WithRowsIs(db: Database, r: Relation, rows: multiset<SqlRow>)
    ensures var db' := WithRows(db, r, rows);
            && Folded(r.name) in db' && db'[Folded(r.name)] == Table(TextColumns(r), rows)
            && (forall more :: db'[Folded(r.name) := Table(TextColumns(r), more)] == WithRows(db, r, more))
    ensures Folded(r.name) !in db ==> RowsOf(db, r) == multiset{}
    ensures Fits(db, r) && Folded(r.name) in db ==> WithRows(db, r, RowsOf(db, r)) == db
  {
    hide TextColumns, Folded;
  }

  lemma TableCreated(server: Server, db: Database, r: Relation, values: seq<bytes>)
    requires WellNamed(r) && !IsCatalogued(r.name) && |values| == |r.columns| && Fits(db, r)
    ensures AfterCreate(server, db, r.name, Row(r.columns, values)).db == WithRows(db, r, RowsOf(db, r))
  {
    var data := Row(r.columns, values);
    assert r.name in db ==> Folded(r.name) in db;
    hide *;
    RowIsText(r, values);
    WithRowsIs(db, r, RowsOf(db, r));
    CreateExecuted(server, db, r.name, data);
    CreatedOrThere(server, db, r.name, data);
    assert Folded(r.name) !in db ==>
        WithRows(db, r, RowsOf(db, r)) == db[Folded(r.name) := Table(TextColumns(r), multiset{})] by {
      NewTable(db, r);
    }
  }

  lemma NewTable(db: Database, r: Relation)
    ensures WithRows(db, r, multiset{}) == db[Folded(r.name) := Table(TextColumns(r), multiset{})]
  {
  }

  lemma CreatedOrThere(server: Server, db: Database, table: string, data: Object)
    ensures AfterCreate(server, db, table, data)
         == if table in db || IsCatalogued(table)
             then Executed(db, true) else Execute(server, db, CreateText(table, data))
  {
  }

  lemma RowInserted(server: Server, db: Database, r: Relation, rows: multiset<SqlRow>, values: seq<bytes>)
    requires WellNamed(r) && |values| == |r.columns|
    ensures AfterInsert(server, WithRows(db, r, rows), r.name, Row(r.columns, values))
         == Executed(WithRows(db, r, rows + multiset{ReplicaRow(r, values)}), true)
  {
    hide *;
    RowIsText(r, values);
    WithRowsIs(db, r, rows);
    InsertExecuted(server, WithRows(db, r, rows), r.name, Row(r.columns, values));
    InsertIsText(server, WithRows(db, r, rows), r.name, Row(r.columns, values));
  }

  lemma InsertIsText(server: Server, db: Database, table: string, data: Object)
    ensures AfterInsert(server, db, table, data) == Execute(server, db, InsertText(table, data))
  {
  }

  // ----- UPDATE -----

  lemma UpdateMessage(server: Server, db: Database, r: Relation, before: seq<bytes>, after: seq<bytes>)
    requires |before| <= |r.columns| && |after| <= |r.columns|
    ensures var m := ToMessage(UpdateChange(r, before, after).record);
            ApplyMessage(server, db, m)
                == AfterUpdate(server, db, r.name, m.before, Row(r.columns, after), m.primaryKey)
  {
  }

  lemma UpdateExecuted(server: Server, db: Database, table: string, after: Object, column: string, key: string)
    requires Sql.IsIdentifier(table) && PlainMembers(after)
    ensures Execute(server, db, UpdateText(table, after, column, key)) == Executed(db, false)
  {
    UpdateNeverReads(table, after, column, key);
    hide Sql.ReadStatement, Sql.Refused, UpdateText;
  }

  lemma PartialMembers(r: Relation, values: seq<bytes>)
    requires WellNamed(r) && |values| <= |r.columns|
    ensures PlainMembers(Row(r.columns, values))
  {
    RowObjectIsRow(r.columns, values, |values|);
    forall name | name in Row(r.columns, values)
      ensures PlainName(name)
    {
      var i :| 0 <= i < |values| && r.columns[i].name == name;
      assert r.columns[i] in r.columns;
    }
  }

  /** An UPDATE record never changes the replica nor reports success, whichever tuples it was made of. */
  lemma UpdateEffect(server: Server, db: Database, r: Relation, before: seq<bytes>, after: seq<bytes>)
    requires WellNamed(r) && |before| <= |r.columns| && |after| <= |r.columns|
    ensures ApplyMessage(server, db, ToMessage(UpdateChange(r, before, after).record)) == Executed(db, false)
  {
    hide ApplyMessage, ToMessage, UpdateChange, Execute, UpdateText, Row;
    var m := ToMessage(UpdateChange(r, before, after).record);
    UpdateMessage(server, db, r, before, after);
    PartialMembers(r, after);
    var column := ConditionColumn(m.before, m.primaryKey);
    if column.Some? {
      UpdateExecuted(server, db, r.name, Row(r.columns, after), column.value, MemberText(m.before, column.value));
    }
  }

  // ----- Tables that cannot be named -----

  lemma DeleteIsText(server: Server, db: Database, r: Relation, values: seq<bytes>)
    requires |values| <= |r.columns|
    ensures var m := ToMessage(DeleteChange(r, values).record);
            ApplyMessage(server, db, m) == AfterDelete(server, db, r.name, m.before, m.primaryKey)
  {
  }

  /** No record of a table whose name the server takes for something else ever changes the replica. */
  lemma UnnamedTableStaysAway(server: Server, db: Database, r: Relation, values: seq<bytes>)
    requires Unnameable(r.name) && |values| <= |r.columns|
    ensures ApplyMessage(server, db, ToMessage(InsertChange(r, values).record)).db == db
    ensures ApplyMessage(server, db, ToMessage(UpdateChange(r, [], values).record)).db == db
    ensures ApplyMessage(server, db, ToMessage(DeleteChange(r, values).record)).db == db
  {
    hide *;
    var u, d := ToMessage(UpdateChange(r, [], values).record), ToMessage(DeleteChange(r, values).record);
    InsertMessage(server, db, r, values);
    UpdateMessage(server, db, r, [], values);
    DeleteIsText(server, db, r, values);
    UnnamedInsert(server, db, r.name, Row(r.columns, values));
    UnnamedCondition(server, db, r.name, u.before, Row(r.columns, values), u.primaryKey);
    UnnamedCondition(server, db, r.name, d.before, map[], d.primaryKey);
  }

  lemma RefusedDoesNothing(server: Server, db: Database, text: string)
    requires Sql.ReadStatement(text) == None && Sql.Refused(text)
    ensures Execute(server, db, text) == Executed(db, false)
  {
    hide Sql.ReadStatement, Sql.Refused;
  }

  lemma UnnamedInsert(server: Server, db: Database, table: string, data: Object)
    requires Unnameable(table)
    ensures AfterInsert(server, AfterCreate(server, db, table, data).db, table, data).db == db
  {
    hide Execute, CreateText, InsertText, Unnameable;
    UnnamedTableNeverReads(table, data, "", "");
    RefusedDoesNothing(server, db, CreateText(table, data));
    RefusedDoesNothing(server, db, InsertText(table, data));
  }

  lemma UnnamedCondition(server: Server, db: Database, table: string, before: Object, after: Object, primaryKey: string)
    requires Unnameable(table)
    ensures AfterUpdate(server, db, table, before, after, primaryKey).db == db
    ensures AfterDelete(server, db, table, before, primaryKey).db == db
  {
    hide Execute, DeleteText, UpdateText, Unnameable, ConditionColumn, MemberText;
    var column := ConditionColumn(before, primaryKey);
    if column.Some? {
      var key := MemberText(before, column.value);
      UnnamedTableNeverReads(table, after, column.value, key);
      RefusedDoesNothing(server, db, UpdateText(table, after, column.value, key));
      RefusedDoesNothing(server, db, DeleteText(table, column.value, key));
    }
  }

  // ----- DELETE -----

  /** The text a DELETE really deletes by: what the reader takes the unescaped key value for. */
  function Struck(key: string): Option<string> {
    match Sql.ReadDelimited('\'', key + "'")
    case Fail => None
    case Got(text, rest) => if rest == "" then Some(text) else None
  }

  /** Exactly the keys that are some text with its single quotes doubled delete, and by that text. */
  lemma StruckIsUndoubled(key: string, text: string)
    ensures Struck(key) == Some(text) <==> key == Sql.Doubled('\'', text)
  {
    if key == Sql.Doubled('\'', text) {
      Sql.DelimitedRoundTrip('\'', text, "");
      assert key + "'" == Sql.Doubled('\'', text) + (['\''] + "");
    }
    if Struck(key) == Some(text) {
      Sql.DelimitedIsPrinted('\'', key + "'");
      assert (key + "'")[..|key|] == key;
      assert (Sql.Doubled('\'', text) + "'")[..|Sql.Doubled('\'', text)|] == Sql.Doubled('\'', text);
    }
  }

  /** A key deletes by itself exactly when it is free of single quotes. */
  lemma StruckByItself(key: string)
    ensures Struck(key) == Some(key) <==> '\'' !in key
  {
    StruckIsUndoubled(key, key);
    DoubledLength('\'', key);
  }

  /** The condition of a DELETE, read: one comparison by the struck text, or no single one. */
  lemma ConditionReads(column: string, key: string)
    requires PlainName(column)
    ensures var r := Sql.ReadItems(Condition(column, key));
            match Struck(key)
            case Some(text) => r == Sql.Got([Sql.Assign(column, Sql.Quoted(text))], "")
            case None => r.Got? && r.rest == "" ==> |r.value| > 1
  {
    var condition, value := Condition(column, key), " = " + ("'" + key + "'");
    assert Sql.ReadItem(condition) == Sql.ReadAfterName(column, value) by {
      WrittenNameLength(column);
      assert condition == Sql.Delimited('"', column) + value;
      Sql.QuotedRoundTrip('"', column, value);
    }
    assert value[3..] == "'" + key + "'" && value[3..][1..] == key + "'";
    assert " = " <= value;
  }

  /** A server that does nothing with the texts that are left to it. */
  const REFUSING: Server := (db: Database, text: string) => Executed(db, false)

  /** The literal that begins with the key value ends with it, or not at all. */
  predicate StaysInside(key: string) {
    match Sql.ReadDelimited('\'', key + "'")
    case Fail => true
    case Got(_, rest) => rest == ""
  }

  /** A DELETE does the same on every server if its key value stays inside the literal. */
  ghost predicate Decided(server: Server, key: string) {
    StaysInside(key) || server == REFUSING
  }

  lemma StruckStaysInside(key: string)
    requires Struck(key).Some?
    ensures StaysInside(key)
  {
  }

  /** A text whose literal does not end is refused. */
  lemma EndlessIsRefused(table: string, column: string, key: string)
    requires Sql.IsIdentifier(table) && PlainName(column) && StaysInside(key) && Struck(key) == None
    ensures Sql.Refused(DeleteText(table, column, key))
  {
    EndlessCondition(column, key);
    var condition := Condition(column, key);
    var target := table + (Sql.Open(Sql.Delete) + condition);
    assert Sql.ReadWord(target) == Sql.Got(table, Sql.Open(Sql.Delete) + condition) by {
      Sql.OpenStopsWord(Sql.Delete, condition);
      Sql.WordRoundTrip(table, Sql.Open(Sql.Delete) + condition);
    }
    Sql.ExpectRoundTrip(Sql.Lead(Sql.Delete), target);
    assert condition + Sql.Close(Sql.Delete) == condition;
    assert DeleteText(table, column, key) == Sql.Lead(Sql.Delete) + target;
    hide Condition, DeleteText, Sql.NeverEnds, Sql.ReadWord;
    assert Sql.RefusedAs(Sql.Delete, Sql.Lead(Sql.Delete) + target);
  }

  lemma EndlessCondition(column: string, key: string)
    requires PlainName(column) && StaysInside(key) && Struck(key) == None
    ensures Sql.NeverEnds(Condition(column, key))
  {
    var condition, value := Condition(column, key), " = " + ("'" + key + "'");
    WrittenNameLength(column);
    assert condition == Sql.Delimited('"', column) + value;
    Sql.QuotedRoundTrip('"', column, value);
    assert Sql.ReadDelimited('"', condition[1..]) == Sql.Got(column, value);
    assert value[4..] == key + "'" && " = '" <= value;
    hide Condition;
  }

  lemma DeleteIsRead(table: string, column: string, key: string)
    requires Sql.IsIdentifier(table)
    ensures Sql.ReadStatement(DeleteText(table, column, key))
        == Sql.ReadFirst(Sql.Delete, table, Condition(column, key))
  {
    var condition := Condition(column, key);
    var target := table + (Sql.Open(Sql.Delete) + condition);
    assert Sql.ReadTable(Sql.Delete, target) == Sql.ReadFirst(Sql.Delete, table, condition) by {
      Sql.OpenStopsWord(Sql.Delete, condition);
      Sql.WordRoundTrip(table, Sql.Open(Sql.Delete) + condition);
      Sql.ExpectRoundTrip(Sql.Open(Sql.Delete), condition);
    }
    assert condition + Sql.Close(Sql.Delete) == condition;
    assert DeleteText(table, column, key) == Sql.Lead(Sql.Delete) + target;
    assert Sql.ReadStatement(Sql.Lead(Sql.Delete) + target) == Sql.ReadTable(Sql.Delete, target) by {
      Sql.LeadDecides(Sql.Delete, target);
      Sql.ExpectRoundTrip(Sql.Lead(Sql.Delete), target);
    }
    hide DeleteText, Condition, Sql.ReadStatement, Sql.ReadTable;
  }

  /** DELETE, executed: exactly the rows with the struck text are removed. */
  lemma DeleteExecuted(server: Server, db: Database, table: string, column: string, key: string)
    requires Sql.IsIdentifier(table) && PlainName(column) && Decided(server, key)
    requires Folded(table) in db ==> column in db[Folded(table)].types && db[Folded(table)].types[column] == "TEXT"
    ensures var after, name := Execute(server, db, DeleteText(table, column, key)), Folded(table);
            if Struck(key).Some? && name in db
            then after
                == Executed(db[name := db[name].(rows := Without(db[name].rows, column, Struck(key).value))], true)
            else after == Executed(db, false)
  {
    DeleteIsRead(table, column, key);
    hide DeleteText, Condition, Struck, StaysInside, Sql.ReadStatement, Sql.ReadItems, Sql.IsIdentifier, Sql.Refused,
      Folded, Without;
    ConditionReads(column, key);
    if Struck(key) == None && StaysInside(key) {
      EndlessIsRefused(table, column, key);
    }
  }

  lemma DeleteMessage(server: Server, db: Database, r: Relation, values: seq<bytes>)
    requires WellNamed(r) && |values| == |r.columns|
    ensures ApplyMessage(server, db, ToMessage(DeleteChange(r, values).record))
         == Execute(server, db, DeleteText(r.name, r.columns[KeyColumn(r)].name, values[KeyColumn(r)]))
  {
    var k := KeyColumn(r);
    var data := Row(r.columns, values);
    assert r.columns[k] in r.columns;
    assert data[r.columns[k].name] == JString(values[k]) && r.columns[k].name in data by {
      RowMembers(r, values);
    }
    RowIsRoutedByKey(r, values);
  }

  /** What a DELETE by a key text leaves of a table's rows. */
  function Surviving(rows: multiset<SqlRow>, column: string, key: string): multiset<SqlRow> {
    match Struck(key)
    case None => rows
    case Some(text) => Without(rows, column, text)
  }

  /** A DELETE record, by the rendered value of its key column, if its effect is decided. */
  lemma DeleteEffect(server: Server, db: Database, r: Relation, values: seq<bytes>)
    requires WellNamed(r) && |values| == |r.columns| && Fits(db, r) && Decided(server, values[KeyColumn(r)])
    ensures ApplyMessage(server, db, ToMessage(DeleteChange(r, values).record)).db
         == if Folded(r.name) in db
            then WithRows(db, r, Surviving(RowsOf(db, r), r.columns[KeyColumn(r)].name, values[KeyColumn(r)]))
            else db
    ensures ApplyMessage(server, db, ToMessage(DeleteChange(r, values).record)).ok
       <==> Folded(r.name) in db && Struck(values[KeyColumn(r)]).Some?
  {
    var column, key := r.columns[KeyColumn(r)].name, values[KeyColumn(r)];
    assert r.columns[KeyColumn(r)] in r.columns;
    assert column in ColumnNames(r);
    DeleteMessage(server, db, r, values);
    hide ApplyMessage, ToMessage, DeleteChange, Execute, DeleteText, Row, Struck, Without;
    DeleteExecuted(server, db, r.name, column, key);
    if Folded(r.name) in db {
      assert db[Folded(r.name) := db[Folded(r.name)]] == db;
    }
  }

  // ----- Messages that reach no statement -----

  /** Another operation than the three leaves the replica alone, and so does one without a column to select by. */
  lemma NothingToExecute(server: Server, db: Database, m: ConsumerMessage)
    ensures m.op !in {"INSERT", "UPDATE", "DELETE"} ==> ApplyMessage(server, db, m) == Executed(db, false)
    ensures m.op in {"UPDATE", "DELETE"} && m.primaryKey == "" && m.before == map[] ==>
        ApplyMessage(server, db, m) == Executed(db, false)
  {
    hide Execute, UpdateText, DeleteText, InsertText, CreateText;
  }

  /** The column a row is selected by: the record's key column, or else the row's first member in byte order. */
  lemma SelectedByColumn(before: Object, primaryKey: string)
    ensures primaryKey != "" ==> ConditionColumn(before, primaryKey) == Some(primaryKey)
    ensures primaryKey == "" && before != map[] ==>
        && ConditionColumn(before, primaryKey).Some?
        && Members.IsLeast(ConditionColumn(before, primaryKey).value, before.Keys)
  {
    if before != map[] {
      FirstMember(before);
    }
    hide MemberNames;
  }

  // ----- Keys that do not strike -----

  lemma DeleteIsNotRefused(table: string, rest: string)
    requires Sql.IsIdentifier(table) && !Sql.NeverEnds(rest)
    ensures !Sql.Refused(Sql.Lead(Sql.Delete) + (table + (Sql.Open(Sql.Delete) + rest)))
  {
    var target := table + (Sql.Open(Sql.Delete) + rest);
    var text := Sql.Lead(Sql.Delete) + target;
    assert Sql.ReadWord(target) == Sql.Got(table, Sql.Open(Sql.Delete) + rest) by {
      Sql.OpenStopsWord(Sql.Delete, rest);
      Sql.WordRoundTrip(table, Sql.Open(Sql.Delete) + rest);
    }
    Sql.ExpectRoundTrip(Sql.Lead(Sql.Delete), target);
    assert text[0] == 'D';
    forall verb
      ensures !Sql.RefusedAs(verb, text)
    {
      assert verb != Sql.Delete ==> Sql.Lead(verb)[0] != 'D';
    }
  }

  /** A key value that ends the literal before it ends itself: a single quote with something else behind it. */
  predicate BreaksOut(key: string, text: string, rest: string) {
    rest != "" && rest[0] != '\'' && key == Sql.Doubled('\'', text) + (['\''] + rest)
  }

  lemma BrokenIsRead(key: string, text: string, rest: string)
    requires BreaksOut(key, text, rest)
    ensures Sql.ReadDelimited('\'', key + "'") == Sql.Got(text, rest + "'")
  {
    Sql.DelimitedRoundTrip('\'', text, rest + "'");
    assert key + "'" == Sql.Doubled('\'', text) + (['\''] + (rest + "'"));
  }

  lemma BrokenDoesNotStrike(key: string, text: string, rest: string)
    requires BreaksOut(key, text, rest)
    ensures Struck(key) == None && !StaysInside(key)
  {
    BrokenIsRead(key, text, rest);
  }

  lemma {:induction false} NotTheQuote(q: char, text: string)
    requires Sql.ReadDelimited(q, text).Got?
    ensures var rest := Sql.ReadDelimited(q, text).rest; rest != "" ==> rest[0] != q
    decreases |text|
  {
    if text[0] != q {
      NotTheQuote(q, text[1..]);
    } else if |text| > 1 && text[1] == q {
      NotTheQuote(q, text[2..]);
    }
  }

  /** The keys whose DELETE is left to the server: a quote ends the literal, and more follows. */
  lemma BreaksOutOrStaysInside(key: string)
    ensures StaysInside(key) <==> !exists text, rest :: BreaksOut(key, text, rest)
  {
    hide BreaksOut;
    if text, rest :| BreaksOut(key, text, rest) {
      BrokenIsRead(key, text, rest);
    }
    if !StaysInside(key) {
      var r := Sql.ReadDelimited('\'', key + "'");
      NotTheQuote('\'', key + "'");
      Sql.DelimitedIsPrinted('\'', key + "'");
      KeyIsBroken(key, r.value, r.rest);
    }
  }

  lemma KeyIsBroken(key: string, text: string, behind: string)
    requires behind != "" && behind[0] != '\'' && key + "'" == Sql.Doubled('\'', text) + (['\''] + behind)
    ensures BreaksOut(key, text, behind[..|behind| - 1])
  {
    var front := Sql.Doubled('\'', text) + (['\''] + behind[..|behind| - 1]);
    assert (key + "'")[..|key|] == key;
    assert (Sql.Doubled('\'', text) + (['\''] + behind))[..|front|] == front;
    assert (key + "'")[|key|] == '\'';
    assert (Sql.Doubled('\'', text) + (['\''] + behind))[|front|] == behind[|behind| - 1];
    assert |behind| > 1;
  }

  lemma BrokenConditionReads(column: string, key: string, text: string, rest: string)
    requires PlainName(column) && BreaksOut(key, text, rest) && rest[0] != ','
    ensures Sql.ReadItems(Condition(column, key)) == Sql.Got([Sql.Assign(column, Sql.Quoted(text))], rest + "'")
    ensures !Sql.NeverEnds(Condition(column, key))
  {
    var condition, value := Condition(column, key), " = " + ("'" + key + "'");
    assert condition == Sql.Delimited('"', column) + value by {
      WrittenNameLength(column);
    }
    Sql.QuotedRoundTrip('"', column, value);
    assert Sql.ReadItem(condition) == Sql.ReadAfterName(column, value);
    assert Sql.ReadDelimited('"', condition[1..]) == Sql.Got(column, value);
    assert value[3..] == "'" + key + "'" && value[3..][1..] == key + "'" == value[4..];
    assert " = " <= value;
    BrokenIsRead(key, text, rest);
    assert (rest + "'")[0] == rest[0] != ", "[0];
    hide Sql.ReadItem, Condition, BreaksOut, Sql.ReadDelimited;
  }

  /**
    A DELETE whose key value breaks out of its literal is another text than a DELETE of a key, and
    what it does is up to the server: with `x' OR 'a'='a` for a key value, for one, it names every row.
   */
  lemma BrokenDeleteIsLeftToServer(server: Server, db: Database, table: string, column: string, key: string,
      text: string, rest: string)
    requires Sql.IsIdentifier(table) && PlainName(column) && BreaksOut(key, text, rest) && rest[0] != ','
    ensures Execute(server, db, DeleteText(table, column, key)) == server(db, DeleteText(table, column, key))
  {
    DeleteIsRead(table, column, key);
    BrokenConditionReads(column, key, text, rest);
    assert Condition(column, key) + Sql.Close(Sql.Delete) == Condition(column, key);
    hide Condition, Sql.ReadStatement, Sql.ReadItems, Sql.IsIdentifier, Sql.ReadDelimited, BreaksOut, Sql.NeverEnds,
      Sql.Refused;
    DeleteIsNotRefused(table, Condition(column, key));
  }

  /** The record of such a removal. */
  lemma BrokenRemoval(server: Server, db: Database, r: Relation, values: seq<bytes>, text: string, rest: string)
    requires WellNamed(r) && |values| == |r.columns| && BreaksOut(values[KeyColumn(r)], text, rest) && rest[0] != ','
    ensures ApplyMessage(server, db, ToMessage(DeleteChange(r, values).record))
         == server(db, DeleteText(r.name, r.columns[KeyColumn(r)].name, values[KeyColumn(r)]))
  {
    assert r.columns[KeyColumn(r)] in r.columns;
    hide ApplyMessage, ToMessage, DeleteChange, Execute, DeleteText, BreaksOut, KeyColumn, Sql.IsIdentifier,
      DistinctNames;
    DeleteMessage(server, db, r, values);
    BrokenDeleteIsLeftToServer(server, db, r.name, r.columns[KeyColumn(r)].name, values[KeyColumn(r)], text, rest);
  }

  // ----- Tables taken for existing ones -----

  /** An INSERT for a table that is not there does nothing, if the text reads at all. */
  lemma InsertNeedsTable(server: Server, db: Database, table: string, data: Object)
    requires Sql.IsIdentifier(table) && data != map[] && PlainMembers(data) && NoBooleans(data) && Folded(table) !in db
    ensures Execute(server, db, InsertText(table, data)).db == db
  {
    InsertReadsBack(table, data);
    hide Sql.ReadStatement, InsertText, MemberNames, NameItems, ValueItems, Sql.IsIdentifier;
  }

  /**
    A table named like a view of the catalogue, `columns` for one, is taken for existing and never
    created: its rows do not reach a replica that is empty.
   */
  lemma CataloguedTableStaysAway(server: Server, r: Relation, values: seq<bytes>)
    requires WellNamed(r) && IsCatalogued(r.name) && |values| <= |r.columns|
    ensures |values| == |r.columns| ==>
        ApplyMessage(server, map[], ToMessage(InsertChange(r, values).record)).db == map[]
    ensures ApplyMessage(server, map[], ToMessage(UpdateChange(r, [], values).record)).db == map[]
  {
    hide ApplyMessage, ToMessage, InsertChange, UpdateChange, Execute, InsertText, Row, Folded;
    var data := Row(r.columns, values);
    if |values| == |r.columns| {
      InsertMessage(server, map[], r, values);
      assert AfterCreate(server, map[], r.name, data).db == map[];
      RowMembers(r, values);
      InsertNeedsTable(server, map[], r.name, data);
    }
    UpdateEffect(server, map[], r, [], values);
  }
}
