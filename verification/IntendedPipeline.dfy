/**
  The pipeline as it is meant for updates: the old tuple of an Update decoded as such, and the equals
  signs of the SET clause in place. Everything else is the code's.
 */
module IntendedPipeline {
  import opened Bytes
  import opened PgOutput
  import opened WireFormat
  import opened Changes
  import opened WriterSql
  import opened Replica
  import opened Effects
  import opened History
  import opened Convergence
  import Identifiers
  import Sql

  // ----- UPDATE, executed -----

  /** Every row with the key gets the assigned values. */
  ghost function Updated(rows: multiset<SqlRow>, column: string, key: string, values: SqlRow): multiset<SqlRow>
    decreases |rows|
  {
    if row :| row in rows && Matches(row, column, key)
    then Updated(rows - multiset{row}, column, key, values) + multiset{row + values}
    else rows
  }

  lemma NothingUpdated(rows: multiset<SqlRow>, column: string, key: string, values: SqlRow)
    requires forall x | x in rows :: !Matches(x, column, key)
    ensures Updated(rows, column, key, values) == rows
  {
  }

  /** If one row has the key and no other, that row is the one that changes. */
  lemma OneUpdated(rest: multiset<SqlRow>, row: SqlRow, column: string, key: string, values: SqlRow)
    requires Matches(row, column, key) && forall x | x in rest :: !Matches(x, column, key)
    ensures Updated(rest + multiset{row}, column, key, values) == rest + multiset{row + values}
  {
    var rows := rest + multiset{row};
    hide Matches;
    assert row in rows;
    assert rows - multiset{row} == rest;
    forall x | x in rows && Matches(x, column, key)
      ensures x == row
    {
    }
    NothingUpdated(rest, column, key, values);
  }

  function Assigned(items: seq<Sql.Item>): SqlRow
    requires forall i | i in items :: i.Assign?
  {
    if items == [] then map[] else Assigned(items[1..])[items[0].name := items[0].literal]
  }

  /** Values that would have to be converted, and conditions on other types than TEXT, are the server's business. */
  ghost function ExecuteUpdate(server: Server, db: Database, text: string, table: string, assigns: seq<Sql.Item>,
      condition: seq<Sql.Item>): Database {
    if && (forall i | i in assigns :: i.Assign?) && Distinct(assigns) && |condition| == 1 && condition[0].Assign?
       && condition[0].literal.Quoted? && table in db && Assigned(assigns).Keys <= db[table].types.Keys
       && condition[0].name in db[table].types then
      if AllSuit(db[table].types, Assigned(assigns)) && db[table].types[condition[0].name] == "TEXT" then
        db[table := db[table].(rows := Updated(db[table].rows, condition[0].name, condition[0].literal.text,
            Assigned(assigns)))]
      else server(db, text).db
    else db
  }

  ghost function Executes(server: Server, db: Database, text: string): Database {
    match Sql.ReadStatement(text)
    case Some(Statement(Update, table, first, second)) =>
      ExecuteUpdate(server, db, text, Identifiers.Folded(table), first, second)
    case _ => Execute(server, db, text).db
  }

  /** A message applied, the UPDATE with its equals signs. */
  ghost function Applies(server: Server, db: Database, m: ConsumerMessage): Database {
    if m.op == "UPDATE" then
      match ConditionColumn(m.before, m.primaryKey)
      case None => db
      case Some(column) => Executes(server, db,
          UpdateTextWith(" = ", m.table, m.after, column, MemberText(m.before, column)))
    else ApplyMessage(server, db, m).db
  }

  lemma AssignItemsAre(data: Object, names: seq<string>)
    ensures var items := AssignItems(data, names);
            && (forall i | i in items :: i.Assign?)
            && ItemNames(items) == (set name | name in names)
  {
    var items := AssignItems(data, names);
    forall i | i in items
      ensures i.Assign? && i.name in names
    {
      var j :| 0 <= j < |items| && items[j] == i;
    }
    forall name | name in names
      ensures name in ItemNames(items)
    {
      var j :| 0 <= j < |names| && names[j] == name;
      assert items[j] in items;
    }
  }

  lemma {:induction false} AssignedIsLookup(data: Object, names: seq<string>)
    requires forall i | i in AssignItems(data, names) :: i.Assign?
    ensures var row := Assigned(AssignItems(data, names));
            && (forall name :: name in row <==> name in names)
            && (forall name | name in names :: row[name] == Literal(data, name))
    decreases |names|
  {
    if names != [] {
      assert AssignItems(data, names)[1..] == AssignItems(data, names[1..]);
      AssignedIsLookup(data, names[1..]);
      assert names == [names[0]] + names[1..];
    }
  }

  lemma AssignsExecuted(server: Server, db: Database, text: string, table: string, data: Object, names: seq<string>,
      column: string, key: string)
    requires forall name :: name in names <==> name in data
    requires forall i, j | 0 <= i < j < |names| :: names[i] != names[j]
    requires table in db && db[table].types.Keys == data.Keys && column in data && db[table].types[column] == "TEXT"
    requires AllSuit(db[table].types, LiteralRow(data))
    ensures ExecuteUpdate(server, db, text, table, AssignItems(data, names), [Sql.Assign(column, Sql.Quoted(key))])
         == db[table := db[table].(rows := Updated(db[table].rows, column, key, LiteralRow(data)))]
  {
    assert LiteralRow(data).Keys == data.Keys;
    hide *;
    AssignsAre(data, names);
    ItemsExecuted(server, db, text, table, AssignItems(data, names), LiteralRow(data), column, key);
  }

  lemma ItemsExecuted(server: Server, db: Database, text: string, table: string, items: seq<Sql.Item>, row: SqlRow,
      column: string, key: string)
    requires (forall i | i in items :: i.Assign?) && Distinct(items) && Assigned(items) == row
    requires table in db && row.Keys == db[table].types.Keys && column in row && db[table].types[column] == "TEXT"
    requires AllSuit(db[table].types, row)
    ensures ExecuteUpdate(server, db, text, table, items, [Sql.Assign(column, Sql.Quoted(key))])
         == db[table := db[table].(rows := Updated(db[table].rows, column, key, row))]
  {
    hide Assigned, Updated, Distinct, AllSuit;
  }

  lemma AssignsAre(data: Object, names: seq<string>)
    requires forall name :: name in names <==> name in data
    requires forall i, j | 0 <= i < j < |names| :: names[i] != names[j]
    ensures var items := AssignItems(data, names);
            && (forall i | i in items :: i.Assign?) && Distinct(items) && ItemNames(items) == data.Keys
            && Assigned(items) == LiteralRow(data)
  {
    AssignItemsAre(data, names);
    NamesAreKeys(data, names);
    AssignsAreDistinct(data, names);
    AssignedIsRow(data, names);
    hide *;
  }

  lemma NamesAreKeys(data: Object, names: seq<string>)
    requires forall name :: name in names <==> name in data
    ensures (set name | name in names) == data.Keys
  {
  }

  lemma AssignsAreDistinct(data: Object, names: seq<string>)
    requires forall i, j | 0 <= i < j < |names| :: names[i] != names[j]
    requires forall i | i in AssignItems(data, names) :: i.Assign?
    ensures Distinct(AssignItems(data, names))
  {
  }

  lemma AssignedIsRow(data: Object, names: seq<string>)
    requires forall name :: name in names <==> name in data
    requires forall i | i in AssignItems(data, names) :: i.Assign?
    ensures Assigned(AssignItems(data, names)) == LiteralRow(data)
  {
    AssignedIsLookup(data, names);
    hide Assigned, AssignItems, Literal;
  }

  lemma TextReadsAsUpdate(server: Server, db: Database, table: string, data: Object, column: string, key: string)
    requires Sql.IsIdentifier(table) && data != map[] && PlainMembers(data) && PlainName(column) && '\'' !in key
    ensures Executes(server, db, UpdateTextWith(" = ", table, data, column, key))
         == ExecuteUpdate(server, db, UpdateTextWith(" = ", table, data, column, key), Identifiers.Folded(table),
             AssignItems(data, MemberNames(data)), [Sql.Assign(column, Sql.Quoted(key))])
  {
    hide Sql.IsIdentifier, Sql.ReadStatement, UpdateTextWith, MemberNames, AssignItems, ExecuteUpdate, PlainMembers,
      Identifiers.Folded;
    UpdateWouldReadBack(table, data, column, key);
  }

  /** A table of text columns for the members, which takes their values. */
  predicate TextRow(types: map<string, string>, data: Object) {
    && types.Keys == data.Keys && (forall name | name in types :: types[name] == "TEXT")
    && AllSuit(types, LiteralRow(data))
  }

  /** The UPDATE text with its equals signs, executed. */
  lemma TextExecuted(server: Server, db: Database, table: string, data: Object, column: string, key: string)
    requires Sql.IsIdentifier(table) && data != map[] && PlainMembers(data) && column in data && '\'' !in key
    requires Identifiers.Folded(table) in db ==> TextRow(db[Identifiers.Folded(table)].types, data)
    ensures var name := Identifiers.Folded(table);
            Executes(server, db, UpdateTextWith(" = ", table, data, column, key))
            == if name in db
                then db[name := db[name].(rows := Updated(db[name].rows, column, key, LiteralRow(data)))] else db
  {
    var name, text := Identifiers.Folded(table), UpdateTextWith(" = ", table, data, column, key);
    assert PlainName(column);
    assert name in db ==>
        db[name].types.Keys == data.Keys && db[name].types[column] == "TEXT"
            && AllSuit(db[name].types, LiteralRow(data));
    hide *;
    TextReadsAsUpdate(server, db, table, data, column, key);
    NamesOnce(data);
    if name in db {
      AssignsExecuted(server, db, text, name, data, MemberNames(data), column, key);
    } else {
      NoTableUpdated(server, db, text, name, AssignItems(data, MemberNames(data)),
          [Sql.Assign(column, Sql.Quoted(key))]);
    }
  }

  lemma NoTableUpdated(server: Server, db: Database, text: string, table: string, assigns: seq<Sql.Item>,
      condition: seq<Sql.Item>)
    requires table !in db
    ensures ExecuteUpdate(server, db, text, table, assigns, condition) == db
  {
  }

  lemma MeantMessage(r: Relation, before: seq<bytes>, after: seq<bytes>)
    requires PlainRelation(r) && |before| == |after| == |r.columns|
    ensures var m, column := ToMessage(UpdateChange(r, before, after).record), r.columns[KeyColumn(r)].name;
            && m.op == "UPDATE" && m.table == r.name && m.after == Row(r.columns, after)
            && ConditionColumn(m.before, m.primaryKey) == Some(column)
            && MemberText(m.before, column) == before[KeyColumn(r)]
  {
    var k := KeyColumn(r);
    assert r.columns[k] in r.columns;
    RowIsRoutedByKey(r, after);
    RowMembers(r, before);
    hide KeyColumn, Row, ExtractKey;
  }

  /** The rows of a relation's table that have a key get the values, if there is such a table. */
  ghost function UpdatedTable(db: Database, r: Relation, column: string, key: string, values: SqlRow): Database {
    if Identifiers.Folded(r.name) in db then WithRows(db, r, Updated(RowsOf(db, r), column, key, values)) else db
  }

  /** The UPDATE text for a full row: the rows with the key become that row. */
  lemma RowTextExecuted(server: Server, db: Database, r: Relation, after: seq<bytes>, key: string)
    requires PlainRelation(r) && |after| == |r.columns| && Fits(db, r) && '\'' !in key
    ensures var column := r.columns[KeyColumn(r)].name;
            Executes(server, db, UpdateTextWith(" = ", r.name, Row(r.columns, after), column, key))
            == UpdatedTable(db, r, column, key, ReplicaRow(r, after))
  {
    hide Row, Executes, UpdateTextWith, Updated, Identifiers.Folded;
    var data, column := Row(r.columns, after), r.columns[KeyColumn(r)].name;
    assert r.columns[KeyColumn(r)] in r.columns;
    RowMembers(r, after);
    RowIsText(r, after);
    assert column in data && (Identifiers.Folded(r.name) in db ==> TextRow(db[Identifiers.Folded(r.name)].types, data));
    hide LiteralRow, ReplicaRow, KeyColumn, TextRow, TextColumns;
    TextExecuted(server, db, r.name, data, column, key);
  }

  lemma UpdateApplies(server: Server, db: Database, m: ConsumerMessage, column: string)
    requires m.op == "UPDATE" && ConditionColumn(m.before, m.primaryKey) == Some(column)
    ensures Applies(server, db, m)
        == Executes(server, db, UpdateTextWith(" = ", m.table, m.after, column, MemberText(m.before, column)))
  {
    hide Executes, UpdateTextWith, ConditionColumn, MemberText;
  }

  /** An UPDATE record, as meant: the rows with the old key become the new row. */
  lemma MeantUpdateEffect(server: Server, db: Database, r: Relation, before: seq<bytes>, after: seq<bytes>)
    requires PlainRelation(r) && |before| == |after| == |r.columns| && Fits(db, r) && '\'' !in before[KeyColumn(r)]
    ensures Applies(server, db, ToMessage(UpdateChange(r, before, after).record))
         == UpdatedTable(db, r, r.columns[KeyColumn(r)].name, before[KeyColumn(r)], ReplicaRow(r, after))
  {
    hide *;
    MeantMessage(r, before, after);
    UpdateApplies(server, db, ToMessage(UpdateChange(r, before, after).record), r.columns[KeyColumn(r)].name);
    RowTextExecuted(server, db, r, after, before[KeyColumn(r)]);
  }

  lemma MessageWithoutOld(r: Relation, after: seq<bytes>)
    requires PlainRelation(r) && |after| == |r.columns|
    ensures var m, column := ToMessage(UpdateChange(r, [], after).record), r.columns[KeyColumn(r)].name;
            && m.op == "UPDATE" && m.table == r.name && m.after == Row(r.columns, after)
            && ConditionColumn(m.before, m.primaryKey) == Some(column) && MemberText(m.before, column) == ""
  {
    assert r.columns[KeyColumn(r)] in r.columns;
    RowIsRoutedByKey(r, after);
    assert Row(r.columns, []) == map[];
    hide KeyColumn, Row, ExtractKey;
  }

  /**
    Even as meant, an UPDATE whose message has no old tuple finds no row of its own: the record has no
    old row, so the condition compares the key column with the empty text.
   */
  lemma UpdateWithoutOldFindsNothing(server: Server, db: Database, r: Relation, after: seq<bytes>)
    requires PlainRelation(r) && |after| == |r.columns| && Fits(db, r)
    ensures var column, db' := r.columns[KeyColumn(r)].name,
        Applies(server, db, ToMessage(UpdateChange(r, [], after).record));
            && db' == UpdatedTable(db, r, column, "", ReplicaRow(r, after))
            && ((forall x | x in RowsOf(db, r) :: !Matches(x, column, "")) ==> db' == db)
  {
    var column := r.columns[KeyColumn(r)].name;
    hide *;
    MessageWithoutOld(r, after);
    UpdateApplies(server, db, ToMessage(UpdateChange(r, [], after).record), column);
    RowTextExecuted(server, db, r, after, "");
    if forall x | x in RowsOf(db, r) :: !Matches(x, column, "") {
      NothingInTable(db, r, column, "", ReplicaRow(r, after));
    }
  }

  lemma NothingInTable(db: Database, r: Relation, column: string, key: string, values: SqlRow)
    requires Fits(db, r) && forall x | x in RowsOf(db, r) :: !Matches(x, column, key)
    ensures UpdatedTable(db, r, column, key, values) == db
  {
    NothingUpdated(RowsOf(db, r), column, key, values);
    hide Updated, Matches, Identifiers.Folded;
  }

  // ----- Histories -----

  function OldValues(before: OldPart): seq<bytes> {
    if before.NoOld? then [] else RenderTuple(before.tuple)
  }

  /** The record an Update decoded as intended gives rise to; other changes give the code's. */
  function MeantProduced(schema: Schema, src: Source, c: Change): seq<Keyed>
    requires WellTyped(schema, src) && CanHappen(schema, src, c)
  {
    match c
    case Replace(id, _, _, before, after) => [UpdateChange(schema[id], OldValues(before), RenderTuple(after))]
    case _ => Produced(schema, src, c)
  }

  /** The record is what the handler makes of the message as the format intends it. */
  lemma MeantIsHandled(schema: Schema, src: Source, c: Change, cache: Cache)
    requires WellTyped(schema, src) && CanHappen(schema, src, c) && c.Replace?
    requires c.id in cache && cache[c.id] == schema[c.id]
    ensures Handle(Some(Intended(SentFor(schema, src, c))), cache) == Done(MeantProduced(schema, src, c))
  {
    hide UpdateChange;
    assert |RenderTuple(c.after)| == |schema[c.id].columns|;
  }

  ghost function ConsumedAsMeant(server: Server, db: Database, xs: seq<Keyed>): Database {
    if xs == [] then db else Applies(server, ConsumedAsMeant(server, db, xs[..|xs| - 1]), MessageOf(xs[|xs| - 1]))
  }

  ghost function MeantReplica(server: Server, schema: Schema, h: seq<Change>): Database
    requires Valid(schema, h)
  {
    if h == [] then map[]
    else
      HistoryWellTyped(schema, h[..|h| - 1]);
      ConsumedAsMeant(server, MeantReplica(server, schema, h[..|h| - 1]),
          MeantProduced(schema, SourceAfter(h[..|h| - 1]), h[|h| - 1]))
  }

  /**
    What the intended pipeline carries over: removals as before, and updates whose old image has the
    old key's text, with no value left out, if that text is free of quotes and no other row has it.
   */
  predicate MeantFaithful(schema: Schema, src: Source, c: Change)
    requires GoodSchema(schema) && CanHappen(schema, src, c)
  {
    match c
    case Replace(id, at, row, before, after) =>
      var r, rows := schema[id], Rows(src, id);
      var key := KeyText(r, rows[at]);
      && !before.NoOld? && Render(before.tuple[KeyColumn(r)]) == key && after == row
      && '\'' !in key && !SomeRowHas(r, Dropped(rows, at), key)
    case _ => Faithful(schema, src, c)
  }

  lemma FullRow(r: Relation, row: Tuple, other: Tuple)
    requires |row| == |other| == |r.columns|
    ensures RenderRow(r, row) + RenderRow(r, other) == RenderRow(r, other)
  {
  }

  lemma ReplacedSplit(r: Relation, rows: seq<Tuple>, at: nat, row: Tuple)
    requires at < |rows|
    ensures Rendered(r, rows[at := row]) == Rendered(r, Dropped(rows, at)) + multiset{RenderRow(r, row)}
  {
    hide Rendered, RenderRow;
    RenderedSplit(r, rows[at := row], at);
    assert Dropped(rows[at := row], at) == Dropped(rows, at) && rows[at := row][at] == row;
  }

  lemma OthersDiffer(r: Relation, rows: seq<Tuple>, at: nat, key: string)
    requires PlainRelation(r) && at < |rows| && (forall x | x in rows :: |x| == |r.columns|)
    requires !SomeRowHas(r, Dropped(rows, at), key)
    ensures forall x | x in Rendered(r, Dropped(rows, at)) :: !Matches(x, r.columns[KeyColumn(r)].name, key)
  {
    hide PlainRelation, Rendered, SomeRowHas, Matches, KeyColumn;
    assert forall x | x in Dropped(rows, at) :: x in rows;
    hide Dropped;
    SomeRowMatches(r, Dropped(rows, at), key);
  }

  lemma ReplacedRow(r: Relation, rows: seq<Tuple>, at: nat, row: Tuple, key: string)
    requires PlainRelation(r) && at < |rows| && (forall x | x in rows :: |x| == |r.columns|) && |row| == |r.columns|
    requires key == KeyText(r, rows[at]) && !SomeRowHas(r, Dropped(rows, at), key)
    ensures Updated(Rendered(r, rows), r.columns[KeyColumn(r)].name, key, RenderRow(r, row))
        == Rendered(r, rows[at := row])
  {
    hide *;
    assert rows[at] in rows;
    RenderedSplit(r, rows, at);
    ReplacedSplit(r, rows, at, row);
    KeyMatches(r, rows[at], key);
    OthersDiffer(r, rows, at, key);
    FullRow(r, rows[at], row);
    OneUpdated(Rendered(r, Dropped(rows, at)), RenderRow(r, rows[at]), r.columns[KeyColumn(r)].name, key,
        RenderRow(r, row));
  }

  lemma MeantOne(server: Server, db: Database, x: Keyed)
    ensures ConsumedAsMeant(server, db, [x]) == Applies(server, db, MessageOf(x))
  {
    hide Applies, MessageOf;
    assert [x][..0] == [];
    assert ConsumedAsMeant(server, db, []) == db;
  }

  lemma ReplacedFacts(schema: Schema, src: Source, db: Database, c: Change)
    requires GoodSchema(schema) && CanHappen(schema, src, c) && WellTyped(schema, src) && c.Replace?
    requires FitsAll(schema, db) && Mirrors(schema, src, db)
    ensures var r, rows := schema[c.id], Rows(src, c.id);
            && PlainRelation(r) && Fits(db, r) && RowsOf(db, r) == Rendered(r, rows) && Identifiers.Folded(r.name) in db
            && (forall row | row in rows :: |row| == |r.columns|) && |c.row| == |r.columns|
  {
    hide Rendered;
    var r, rows := schema[c.id], Rows(src, c.id);
    assert forall row | row in rows :: |row| == |r.columns| by {
      assert forall row | row in src.tables[c.id] :: IsRow(r, row);
    }
    TableExists(schema, src, db, c.id);
  }

  lemma ReplaceMirrorsAsMeant(server: Server, schema: Schema, src: Source, db: Database, c: Change)
    requires GoodSchema(schema) && CanHappen(schema, src, c) && WellTyped(schema, src) && c.Replace?
    requires FitsAll(schema, db) && Mirrors(schema, src, db) && MeantFaithful(schema, src, c)
    ensures var db' := ConsumedAsMeant(server, db, MeantProduced(schema, src, c));
            FitsAll(schema, db') && Mirrors(schema, Advance(src, c), db')
  {
    hide GoodSchema, WellTyped, FitsAll, Mirrors, PlainRelation, Fits, Rendered, RowsOf, WithRows, Applies,
      UpdateChange, KeyText, SomeRowHas, ConsumedAsMeant, KeyColumn, ReplicaRow, Updated;
    var r, rows := schema[c.id], Rows(src, c.id);
    ReplacedFacts(schema, src, db, c);
    var before, after := RenderTuple(c.before.tuple), RenderTuple(c.after);
    assert before[KeyColumn(r)] == KeyText(r, rows[c.at]);
    hide RenderTuple;
    MeantOne(server, db, UpdateChange(r, before, after));
    MeantUpdateEffect(server, db, r, before, after);
    ReplacedRow(r, rows, c.at, c.row, KeyText(r, rows[c.at]));
    OtherTables(schema, src, c.id, rows[c.at := c.row], db, Rendered(r, rows[c.at := c.row]));
  }

  lemma NotUpdated(server: Server, db: Database, xs: seq<Keyed>)
    requires |xs| <= 1 && forall x | x in xs :: x.record.op != "UPDATE"
    ensures ConsumedAsMeant(server, db, xs) == Consumed(server, db, xs)
  {
    hide ApplyMessage, Consumed;
    if xs == [] {
      NothingConsumed(server, db);
    } else {
      assert xs == [xs[0]];
      MeantOne(server, db, xs[0]);
      ConsumedOne(server, db, xs[0]);
      assert xs[0] in xs;
    }
  }

  lemma ChangeMirrorsAsMeant(server: Server, schema: Schema, src: Source, db: Database, c: Change)
    requires GoodSchema(schema) && CanHappen(schema, src, c) && WellTyped(schema, src)
    requires FitsAll(schema, db) && Mirrors(schema, src, db) && MeantFaithful(schema, src, c)
    ensures var db' := ConsumedAsMeant(server, db, MeantProduced(schema, src, c));
            FitsAll(schema, db') && Mirrors(schema, Advance(src, c), db')
  {
    hide GoodSchema, WellTyped, FitsAll, Mirrors, Consumed, ConsumedAsMeant, Faithful, RenderTuple, RemoveImage, Row,
      ExtractKey, ChangeDecided;
    if c.Replace? {
      ReplaceMirrorsAsMeant(server, schema, src, db, c);
    } else {
      FaithfulIsDecided(server, schema, src, c);
      ChangeMirrors(server, schema, src, db, c);
      NotUpdated(server, db, Produced(schema, src, c));
    }
  }

  predicate MeantFaithfulAt(schema: Schema, h: seq<Change>, i: nat)
    requires GoodSchema(schema) && Valid(schema, h) && i < |h|
  {
    ValidPrefix(schema, h, i + 1);
    assert h[..i + 1][..i] == h[..i];
    MeantFaithful(schema, SourceAfter(h[..i]), h[i])
  }

  /**
    Convergence as meant: with old tuples decoded and equals signs in place, the replica of a history
    whose removals and updates find their row by a key text of its own mirrors the source.
   */
  lemma {:induction false} IntendedPipelineConverges(server: Server, schema: Schema, h: seq<Change>)
    requires GoodSchema(schema) && Valid(schema, h) && forall i | 0 <= i < |h| :: MeantFaithfulAt(schema, h, i)
    ensures FitsAll(schema, MeantReplica(server, schema, h))
        && Mirrors(schema, SourceAfter(h), MeantReplica(server, schema, h))
    decreases |h|
  {
    hide GoodSchema, CanHappen, MeantFaithful, FitsAll, Mirrors, MeantProduced, ConsumedAsMeant, Advance;
    if h == [] {
      NothingMirrors(server, schema);
    } else {
      var front := h[..|h| - 1];
      forall i | 0 <= i < |front|
        ensures MeantFaithfulAt(schema, front, i)
      {
        assert MeantFaithfulAt(schema, h, i) && front[..i] == h[..i];
      }
      IntendedPipelineConverges(server, schema, front);
      HistoryWellTyped(schema, front);
      assert MeantFaithfulAt(schema, h, |h| - 1);
      ChangeMirrorsAsMeant(server, schema, SourceAfter(front), MeantReplica(server, schema, front), h[|h| - 1]);
    }
  }

  lemma NothingMirrors(server: Server, schema: Schema)
    requires GoodSchema(schema)
    ensures FitsAll(schema, map[]) && Mirrors(schema, EMPTY, map[])
  {
    EmptyMirrors(server, schema);
  }
}
