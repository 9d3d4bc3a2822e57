/**
  The consuming side: the records of a valid history go through the writer, and the replica is
  compared with the rendered source tables after every prefix.
 */
module Convergence {
  import opened Bytes
  import opened Counted
  import opened PgOutput
  import opened WireFormat
  import opened Changes
  import opened Effects
  import opened History
  import opened WriterSql
  import Identifiers
  import Replica
  import Sql

  function MessageOf(x: Keyed): Replica.ConsumerMessage {
    Replica.ToMessage(x.record)
  }

  /** The messages `saveIntoQueue` makes of what Kafka delivers. */
  function MessagesOf(xs: seq<Keyed>): seq<Replica.ConsumerMessage> {
    Map(MessageOf, xs)
  }

  /** The writer's work on a run of messages. */
  function AppliedAll(server: Replica.Server, db: Replica.Database,
      ms: seq<Replica.ConsumerMessage>): Replica.Database {
    if ms == [] then db else Replica.ApplyMessage(server, AppliedAll(server, db, ms[..|ms| - 1]), ms[|ms| - 1]).db
  }

  /** The writer's work on a run of records. */
  function Consumed(server: Replica.Server, db: Replica.Database, records: seq<Keyed>): Replica.Database {
    AppliedAll(server, db, MessagesOf(records))
  }

  lemma ConsumedAppend(server: Replica.Server, db: Replica.Database, xs: seq<Keyed>, x: Keyed)
    ensures Consumed(server, db, xs + [x]) == Replica.ApplyMessage(server, Consumed(server, db, xs), MessageOf(x)).db
  {
    hide Replica.ApplyMessage, MessageOf;
    MapConcat(MessageOf, xs, [x]);
    assert Map(MessageOf, [x]) == [MessageOf(x)];
    assert (MessagesOf(xs) + [MessageOf(x)])[..|xs|] == MessagesOf(xs);
  }

  function RenderRow(r: Relation, row: Tuple): Replica.SqlRow {
    if |row| == |r.columns| then ReplicaRow(r, RenderTuple(row)) else map[]
  }

  function RowRenderer(r: Relation): Tuple -> Replica.SqlRow {
    (row: Tuple) => RenderRow(r, row)
  }

  /** The rows the replica should hold for a source table. */
  function Rendered(r: Relation, rows: seq<Tuple>): multiset<Replica.SqlRow> {
    multiset(Map(RowRenderer(r), rows))
  }

  predicate FitsAll(schema: Schema, db: Replica.Database) {
    forall id | id in schema :: Fits(db, schema[id])
  }

  /** Each of the schema's tables holds the rendered rows of its source table, and no others. */
  predicate Mirrors(schema: Schema, src: Source, db: Replica.Database) {
    forall id | id in schema :: RowsOf(db, schema[id]) == Rendered(schema[id], Rows(src, id))
  }

  /** The text by which the writer selects a row. */
  function KeyText(r: Relation, row: Tuple): bytes {
    if |row| == |r.columns| && r.columns != [] then Render(row[KeyColumn(r)]) else []
  }

  predicate SomeRowHas(r: Relation, rows: seq<Tuple>, key: string) {
    exists j :: 0 <= j < |rows| && KeyText(r, rows[j]) == key
  }

  /**
    The changes the pipeline carries over: a removed row must have a key text without single quotes
    that no other row of the table has, and a replaced row must render like the one it replaces.
   */
  predicate Faithful(schema: Schema, src: Source, c: Change)
    requires CanHappen(schema, src, c)
  {
    match c
    case Remove(id, at, _) =>
      var rows := Rows(src, id);
      var key := KeyText(schema[id], rows[at]);
      '\'' !in key && !SomeRowHas(schema[id], Dropped(rows, at), key)
    case Replace(id, at, row, _, _) => RenderRow(schema[id], row) == RenderRow(schema[id], Rows(src, id)[at])
    case _ => true
  }

  /** The DELETE of a removed row does the same on every server. */
  ghost predicate ChangeDecided(server: Replica.Server, schema: Schema, src: Source, c: Change)
    requires CanHappen(schema, src, c)
  {
    c.Remove? ==> Decided(server, KeyText(schema[c.id], Rows(src, c.id)[c.at]))
  }

  lemma FaithfulIsDecided(server: Replica.Server, schema: Schema, src: Source, c: Change)
    requires CanHappen(schema, src, c) && Faithful(schema, src, c)
    ensures ChangeDecided(server, schema, src, c)
  {
    hide KeyText, Struck, StaysInside;
    if c.Remove? {
      StruckByItself(KeyText(schema[c.id], Rows(src, c.id)[c.at]));
      StruckStaysInside(KeyText(schema[c.id], Rows(src, c.id)[c.at]));
    }
  }

  // ----- One row more, one row less -----

  lemma RenderedSplit(r: Relation, rows: seq<Tuple>, at: nat)
    requires at < |rows|
    ensures Rendered(r, rows) == Rendered(r, Dropped(rows, at)) + multiset{RenderRow(r, rows[at])}
  {
    var f := RowRenderer(r);
    assert rows == rows[..at] + ([rows[at]] + rows[at + 1..]);
    MapConcat(f, rows[..at], [rows[at]] + rows[at + 1..]);
    MapConcat(f, [rows[at]], rows[at + 1..]);
    MapConcat(f, rows[..at], rows[at + 1..]);
    assert Map(f, [rows[at]]) == [RenderRow(r, rows[at])];
  }

  lemma RenderedAdd(r: Relation, rows: seq<Tuple>, row: Tuple)
    ensures Rendered(r, rows + [row]) == Rendered(r, rows) + multiset{RenderRow(r, row)}
  {
    RenderedSplit(r, rows + [row], |rows|);
    assert Dropped(rows + [row], |rows|) == rows;
  }

  lemma RenderedReplace(r: Relation, rows: seq<Tuple>, at: nat, row: Tuple)
    requires at < |rows|
    ensures Rendered(r, rows[at := row]) == Rendered(r, rows) <==> RenderRow(r, row) == RenderRow(r, rows[at])
  {
    var rest := Dropped(rows, at);
    var a, b := RenderRow(r, rows[at]), RenderRow(r, row);
    RenderedSplit(r, rows, at);
    RenderedSplit(r, rows[at := row], at);
    assert Dropped(rows[at := row], at) == rest;
    if a != b {
      assert (Rendered(r, rest) + multiset{a})[a] != (Rendered(r, rest) + multiset{b})[a];
    }
  }

  lemma KeyMatches(r: Relation, row: Tuple, key: string)
    requires PlainRelation(r) && |row| == |r.columns|
    ensures Replica.Matches(RenderRow(r, row), r.columns[KeyColumn(r)].name, key) <==> KeyText(r, row) == key
  {
    var k, values := KeyColumn(r), RenderTuple(row);
    assert r.columns[k] in r.columns;
    RowMembers(r, values);
    hide PlainRelation, WellNamed, KeyColumn, Row;
    assert RenderRow(r, row)[r.columns[k].name] == Sql.Quoted(values[k]);
  }

  /** Some rendered row matches a key exactly when some source row has it. */
  lemma SomeRowMatches(r: Relation, rows: seq<Tuple>, key: string)
    requires PlainRelation(r) && forall row | row in rows :: |row| == |r.columns|
    ensures (exists x :: x in Rendered(r, rows) && Replica.Matches(x, r.columns[KeyColumn(r)].name, key))
       <==> SomeRowHas(r, rows, key)
  {
    var column := r.columns[KeyColumn(r)].name;
    var rendered := Map(RowRenderer(r), rows);
    forall j | 0 <= j < |rows|
      ensures Replica.Matches(rendered[j], column, key) <==> KeyText(r, rows[j]) == key
    {
      assert rows[j] in rows;
      KeyMatches(r, rows[j], key);
    }
    if x :| x in Rendered(r, rows) && Replica.Matches(x, column, key) {
      var j :| 0 <= j < |rendered| && rendered[j] == x;
      assert KeyText(r, rows[j]) == key;
    }
    if j :| 0 <= j < |rows| && KeyText(r, rows[j]) == key {
      assert rendered[j] in rendered;
    }
  }

  /** Removing by key takes away exactly one row when no other row has the key, and only then. */
  lemma WithoutOne(rest: multiset<Replica.SqlRow>, row: Replica.SqlRow, column: string, key: string)
    requires Replica.Matches(row, column, key)
    ensures Replica.Without(rest + multiset{row}, column, key) == rest
       <==> !exists x :: x in rest && Replica.Matches(x, column, key)
  {
    var without := Replica.Without(rest + multiset{row}, column, key);
    if x :| x in rest && Replica.Matches(x, column, key) {
      assert without[x] == 0 && rest[x] > 0;
    } else {
      forall x
        ensures without[x] == rest[x]
      {
      }
      assert without == rest;
    }
  }

  lemma WithoutOther(rest: multiset<Replica.SqlRow>, row: Replica.SqlRow, column: string, key: string)
    requires !Replica.Matches(row, column, key)
    ensures Replica.Without(rest + multiset{row}, column, key) != rest
  {
    assert Replica.Without(rest + multiset{row}, column, key)[row] == rest[row] + 1;
  }

  // ----- One change, mirrored or not -----

  /** Changing the rows of one table leaves every table fitting, and the others as they are. */
  lemma TableWritten(schema: Schema, id: uint32, db: Replica.Database, after: multiset<Replica.SqlRow>)
    requires GoodSchema(schema) && id in schema && FitsAll(schema, db)
    ensures var db' := WithRows(db, schema[id], after);
            && FitsAll(schema, db') && RowsOf(db', schema[id]) == after
            && forall other | other in schema && other != id :: RowsOf(db', schema[other]) == RowsOf(db, schema[other])
  {
    var db' := WithRows(db, schema[id], after);
    forall other | other in schema
      ensures Fits(db', schema[other])
    {
      assert Fits(db, schema[other]);
      Identifiers.FoldedTwice(schema[id].name);
    }
  }

  /** The rows of a table after a change; other tables keep theirs. */
  lemma OtherTables(schema: Schema, src: Source, id: uint32, rows: seq<Tuple>, db: Replica.Database,
      after: multiset<Replica.SqlRow>)
    requires GoodSchema(schema) && id in schema && FitsAll(schema, db) && Mirrors(schema, src, db)
    ensures var db', src' := WithRows(db, schema[id], after), src.(tables := src.tables[id := rows]);
            && FitsAll(schema, db')
            && (Mirrors(schema, src', db') <==> after == Rendered(schema[id], rows))
  {
    var db', src' := WithRows(db, schema[id], after), src.(tables := src.tables[id := rows]);
    TableWritten(schema, id, db, after);
    assert forall other | other in schema && other != id :: Rows(src', other) == Rows(src, other);
    assert Rows(src', id) == rows;
    hide GoodSchema, FitsAll, Mirrors, RowsOf, WithRows, Rendered, Rows;
    MirrorsBut(schema, src, src', db, db', id);
  }

  /** Where all tables but one are as they were, that one decides. */
  lemma MirrorsBut(schema: Schema, src: Source, src': Source, db: Replica.Database, db': Replica.Database, id: uint32)
    requires id in schema && Mirrors(schema, src, db)
    requires forall other | other in schema && other != id ::
               RowsOf(db', schema[other]) == RowsOf(db, schema[other]) && Rows(src', other) == Rows(src, other)
    ensures Mirrors(schema, src', db') <==> RowsOf(db', schema[id]) == Rendered(schema[id], Rows(src', id))
  {
    hide RowsOf, Rendered, Rows;
  }

  lemma NothingConsumed(server: Replica.Server, db: Replica.Database)
    ensures Consumed(server, db, []) == db
  {
  }

  lemma ConsumedOne(server: Replica.Server, db: Replica.Database, k: Keyed)
    ensures Consumed(server, db, [k]) == Replica.ApplyMessage(server, db, Replica.ToMessage(k.record)).db
  {
    hide Replica.ApplyMessage, Replica.ToMessage, Consumed;
    assert [] + [k] == [k];
    NothingConsumed(server, db);
    ConsumedAppend(server, db, [], k);
  }

  lemma AddMirrors(server: Replica.Server, schema: Schema, src: Source, db: Replica.Database, c: Change)
    requires GoodSchema(schema) && CanHappen(schema, src, c) && WellTyped(schema, src) && c.Add?
    requires FitsAll(schema, db) && Mirrors(schema, src, db)
    ensures var db' := Consumed(server, db, Produced(schema, src, c));
            FitsAll(schema, db') && Mirrors(schema, Advance(src, c), db') && Faithful(schema, src, c)
  {
    hide Consumed, InsertChange, PlainRelation;
    var r, rows := schema[c.id], Rows(src, c.id);
    ConsumedOne(server, db, InsertChange(r, RenderTuple(c.row)));
    InsertEffect(server, db, r, RenderTuple(c.row));
    hide Replica.ApplyMessage, Replica.ToMessage;
    RenderedAdd(r, rows, c.row);
    OtherTables(schema, src, c.id, rows + [c.row], db, Rendered(r, rows + [c.row]));
  }

  /** A table with a row exists in a mirroring replica. */
  lemma TableExists(schema: Schema, src: Source, db: Replica.Database, id: uint32)
    requires GoodSchema(schema) && id in schema && Rows(src, id) != []
    requires FitsAll(schema, db) && Mirrors(schema, src, db)
    ensures Identifiers.Folded(schema[id].name) in db
    ensures WithRows(db, schema[id], RowsOf(db, schema[id])) == db
  {
    hide PlainRelation, RenderRow;
    RenderedSplit(schema[id], Rows(src, id), 0);
    assert RenderRow(schema[id], Rows(src, id)[0]) in RowsOf(db, schema[id]);
    assert Fits(db, schema[id]);
  }

  lemma ReplaceIsNotApplied(server: Replica.Server, schema: Schema, src: Source, db: Replica.Database, c: Change)
    requires GoodSchema(schema) && CanHappen(schema, src, c) && WellTyped(schema, src) && c.Replace?
    ensures Consumed(server, db, Produced(schema, src, c)) == db
  {
    hide Consumed, UpdateChange, Sql.IsIdentifier, DistinctNames;
    var r, values := schema[c.id], RenderTuple(FirstTuple(c.before, c.after));
    assert WellNamed(r);
    hide GoodSchema, PlainRelation, WellNamed;
    ConsumedOne(server, db, UpdateChange(r, [], values));
    UpdateEffect(server, db, r, [], values);
  }

  /** Replacing a row in the source alone keeps the mirror exactly when the table renders alike. */
  lemma UntouchedMirrors(schema: Schema, src: Source, db: Replica.Database, id: uint32, rows: seq<Tuple>)
    requires GoodSchema(schema) && id in schema && Rows(src, id) != []
    requires FitsAll(schema, db) && Mirrors(schema, src, db)
    ensures Mirrors(schema, src.(tables := src.tables[id := rows]), db)
       <==> Rendered(schema[id], rows) == Rendered(schema[id], Rows(src, id))
  {
    TableExists(schema, src, db, id);
    OtherTables(schema, src, id, rows, db, RowsOf(db, schema[id]));
    assert RowsOf(db, schema[id]) == Rendered(schema[id], Rows(src, id));
    hide GoodSchema, FitsAll, Mirrors, Rendered, RowsOf, WithRows;
  }

  lemma ReplaceMirrors(schema: Schema, src: Source, db: Replica.Database, c: Change)
    requires GoodSchema(schema) && CanHappen(schema, src, c) && c.Replace?
    requires FitsAll(schema, db) && Mirrors(schema, src, db)
    ensures Mirrors(schema, Advance(src, c), db) <==> Faithful(schema, src, c)
  {
    hide GoodSchema, FitsAll, Mirrors, RenderRow, Rendered;
    var rows := Rows(src, c.id);
    UntouchedMirrors(schema, src, db, c.id, rows[c.at := c.row]);
    RenderedReplace(schema[c.id], rows, c.at, c.row);
  }

  /** The key text of a removed row is what its image carries, whichever image is sent. */
  lemma ImageKeepsKey(r: Relation, row: Tuple, full: bool)
    requires PlainRelation(r) && |row| == |r.columns| && (full || HasKey(r))
    ensures RenderTuple(RemoveImage(r, row, full))[KeyColumn(r)] == KeyText(r, row)
  {
    var k := KeyColumn(r);
    if !full {
      var c :| c in r.columns && MarksKey(c);
      var i :| 0 <= i < |r.columns| && r.columns[i] == c;
      assert MarksKey(r.columns[k]);
    }
  }

  /**
    A row's INSERT, its DELETE by whichever image the server sends, and an UPDATE that keeps the key
    are routed alike, and by the same key column.
   */
  lemma RowKeepsItsRoute(r: Relation, row: Tuple, full: bool, newer: Tuple)
    requires PlainRelation(r) && |row| == |newer| == |r.columns| && (full || HasKey(r))
    requires KeyText(r, newer) == KeyText(r, row)
    ensures var insert, update := InsertChange(r, RenderTuple(row)), UpdateChange(r, [], RenderTuple(newer));
            var delete := DeleteChange(r, RenderTuple(RemoveImage(r, row, full)));
            && insert.key == update.key == delete.key == WriteString(JString(KeyText(r, row)))
            && insert.record.primary == update.record.primary == delete.record.primary == r.columns[KeyColumn(r)].name
  {
    ImageKeepsKey(r, row, full);
    RowIsRoutedByKey(r, RenderTuple(row));
    RowIsRoutedByKey(r, RenderTuple(newer));
    RowIsRoutedByKey(r, RenderTuple(RemoveImage(r, row, full)));
    hide PlainRelation, KeyColumn, RenderTuple, RemoveImage, ExtractKey, Row, HasKey, MarksKey;
  }

  /** With a plain key text: the row, and only it, is gone exactly when no other row has the key. */
  lemma RemoveByKeyLeaves(r: Relation, rows: seq<Tuple>, at: nat, key: string)
    requires PlainRelation(r) && at < |rows| && (forall row | row in rows :: |row| == |r.columns|)
    requires key == KeyText(r, rows[at])
    ensures Replica.Without(Rendered(r, rows), r.columns[KeyColumn(r)].name, key) == Rendered(r, Dropped(rows, at))
       <==> !SomeRowHas(r, Dropped(rows, at), key)
  {
    assert rows[at] in rows;
    RenderedSplit(r, rows, at);
    KeyMatches(r, rows[at], key);
    SomeRowMatches(r, Dropped(rows, at), key);
    hide Rendered, RenderRow, KeyText, PlainRelation, Dropped, SomeRowHas, Replica.Without, Replica.Matches;
    WithoutOne(Rendered(r, Dropped(rows, at)), RenderRow(r, rows[at]), r.columns[KeyColumn(r)].name, key);
  }

  /** With another key, or no statement at all, the row is still there. */
  lemma RemoveByOtherLeaves(r: Relation, rows: seq<Tuple>, at: nat, other: string)
    requires PlainRelation(r) && at < |rows| && |rows[at]| == |r.columns|
    requires other != KeyText(r, rows[at])
    ensures Rendered(r, rows) != Rendered(r, Dropped(rows, at))
    ensures Replica.Without(Rendered(r, rows), r.columns[KeyColumn(r)].name, other) != Rendered(r, Dropped(rows, at))
  {
    var rest, row := Rendered(r, Dropped(rows, at)), RenderRow(r, rows[at]);
    RenderedSplit(r, rows, at);
    KeyMatches(r, rows[at], other);
    hide Rendered, RenderRow, KeyText, PlainRelation, Dropped, Replica.Without, Replica.Matches;
    assert Rendered(r, rows)[row] == rest[row] + 1;
    WithoutOther(rest, row, r.columns[KeyColumn(r)].name, other);
  }

  /** A removal, seen on its own table: what is left is what should be left, or not. */
  lemma RemoveLeaves(r: Relation, rows: seq<Tuple>, at: nat)
    requires PlainRelation(r) && at < |rows| && forall row | row in rows :: |row| == |r.columns|
    ensures Surviving(Rendered(r, rows), r.columns[KeyColumn(r)].name, KeyText(r, rows[at]))
        == Rendered(r, Dropped(rows, at))
       <==> '\'' !in KeyText(r, rows[at]) && !SomeRowHas(r, Dropped(rows, at), KeyText(r, rows[at]))
  {
    var key := KeyText(r, rows[at]);
    assert rows[at] in rows;
    StruckByItself(key);
    hide Rendered, KeyText, Dropped, SomeRowHas, Struck, Replica.Without;
    match Struck(key)
    case None => RemoveByOtherLeaves(r, rows, at, key + "'");
    case Some(text) =>
      if text == key {
        RemoveByKeyLeaves(r, rows, at, key);
      } else {
        RemoveByOtherLeaves(r, rows, at, text);
      }
  }

  /** The record of a removal, consumed: a DELETE by the key text of the removed row. */
  lemma RemoveIsApplied(server: Replica.Server, r: Relation, row: Tuple, full: bool, db: Replica.Database)
    requires PlainRelation(r) && |row| == |r.columns| && (full || HasKey(r))
    requires Fits(db, r) && Identifiers.Folded(r.name) in db && Decided(server, KeyText(r, row))
    ensures Consumed(server, db, [DeleteChange(r, RenderTuple(RemoveImage(r, row, full)))])
         == WithRows(db, r, Surviving(RowsOf(db, r), r.columns[KeyColumn(r)].name, KeyText(r, row)))
  {
    var values := RenderTuple(RemoveImage(r, row, full));
    ImageKeepsKey(r, row, full);
    ConsumedOne(server, db, DeleteChange(r, values));
    hide Consumed, DeleteChange, PlainRelation, KeyText, Surviving, RenderTuple, RemoveImage, Replica.ApplyMessage,
      Replica.ToMessage;
    DeleteEffect(server, db, r, values);
  }

  lemma RemovedRow(schema: Schema, src: Source, db: Replica.Database, c: Change)
    requires GoodSchema(schema) && CanHappen(schema, src, c) && WellTyped(schema, src) && c.Remove?
    requires FitsAll(schema, db) && Mirrors(schema, src, db)
    ensures var r, rows := schema[c.id], Rows(src, c.id);
            && PlainRelation(r) && Fits(db, r) && RowsOf(db, r) == Rendered(r, rows)
            && (forall row | row in rows :: |row| == |r.columns|) && |rows[c.at]| == |r.columns|
            && Produced(schema, src, c) == [DeleteChange(r, RenderTuple(RemoveImage(r, rows[c.at], c.full)))]
            && Identifiers.Folded(r.name) in db
  {
    hide DeleteChange, RenderTuple, RemoveImage;
    var r, rows := schema[c.id], Rows(src, c.id);
    assert forall row | row in rows :: |row| == |r.columns| by {
      assert forall row | row in src.tables[c.id] :: IsRow(r, row);
    }
    assert rows[c.at] in rows;
    TableExists(schema, src, db, c.id);
  }

  /** What a removal leaves in its own table is right exactly if the removal is faithful. */
  lemma RemoveOwnTable(server: Replica.Server, schema: Schema, src: Source, db: Replica.Database, c: Change)
    requires GoodSchema(schema) && CanHappen(schema, src, c) && WellTyped(schema, src) && c.Remove?
    requires FitsAll(schema, db) && Mirrors(schema, src, db) && ChangeDecided(server, schema, src, c)
    ensures var r, rows, db' := schema[c.id], Rows(src, c.id), Consumed(server, db, Produced(schema, src, c));
            && db' == WithRows(db, r, RowsOf(db', r))
            && (RowsOf(db', r) == Rendered(r, Dropped(rows, c.at)) <==> Faithful(schema, src, c))
  {
    hide GoodSchema, WellTyped, FitsAll, Mirrors, PlainRelation, Rendered, Consumed, Produced, DeleteChange, Fits,
      KeyText, Surviving, Dropped, SomeRowHas, RenderTuple, RemoveImage;
    var r, rows := schema[c.id], Rows(src, c.id);
    RemovedRow(schema, src, db, c);
    RemoveIsApplied(server, r, rows[c.at], c.full, db);
    RemoveLeaves(r, rows, c.at);
  }

  lemma RemoveMirrors(server: Replica.Server, schema: Schema, src: Source, db: Replica.Database, c: Change)
    requires GoodSchema(schema) && CanHappen(schema, src, c) && WellTyped(schema, src) && c.Remove?
    requires FitsAll(schema, db) && Mirrors(schema, src, db) && ChangeDecided(server, schema, src, c)
    ensures var db' := Consumed(server, db, Produced(schema, src, c));
            FitsAll(schema, db') && (Mirrors(schema, Advance(src, c), db') <==> Faithful(schema, src, c))
  {
    hide GoodSchema, WellTyped, FitsAll, Mirrors, Faithful, Rendered, RowsOf, WithRows, Consumed, Produced, Dropped;
    var rows, db' := Rows(src, c.id), Consumed(server, db, Produced(schema, src, c));
    RemoveOwnTable(server, schema, src, db, c);
    OtherTables(schema, src, c.id, Dropped(rows, c.at), db, RowsOf(db', schema[c.id]));
  }

  lemma OtherMirrors(server: Replica.Server, schema: Schema, src: Source, db: Replica.Database, c: Change)
    requires GoodSchema(schema) && CanHappen(schema, src, c) && WellTyped(schema, src) && (c.Marker? || c.Describe?)
    requires FitsAll(schema, db) && Mirrors(schema, src, db)
    ensures var db' := Consumed(server, db, Produced(schema, src, c));
            FitsAll(schema, db') && Mirrors(schema, Advance(src, c), db') && Faithful(schema, src, c)
  {
    hide GoodSchema, WellTyped, FitsAll, RowsOf, Rendered;
    NothingConsumed(server, db);
  }

  /**
    One change: if the replica mirrors the source before it, it does so afterwards exactly when the
    change is faithful.
   */
  lemma ChangeMirrors(server: Replica.Server, schema: Schema, src: Source, db: Replica.Database, c: Change)
    requires GoodSchema(schema) && CanHappen(schema, src, c) && WellTyped(schema, src)
    requires FitsAll(schema, db) && Mirrors(schema, src, db) && ChangeDecided(server, schema, src, c)
    ensures var db' := Consumed(server, db, Produced(schema, src, c));
            FitsAll(schema, db') && (Mirrors(schema, Advance(src, c), db') <==> Faithful(schema, src, c))
  {
    hide *;
    match c
    case Add(_, _) => AddMirrors(server, schema, src, db, c);
    case Remove(_, _, _) => RemoveMirrors(server, schema, src, db, c);
    case Replace(_, _, _, _, _) =>
      ReplaceIsNotApplied(server, schema, src, db, c);
      ReplaceMirrors(schema, src, db, c);
    case _ => OtherMirrors(server, schema, src, db, c);
  }

  // ----- Histories -----

  lemma {:induction false} ConsumedConcat(server: Replica.Server, db: Replica.Database, a: seq<Keyed>, b: seq<Keyed>)
    ensures Consumed(server, db, a + b) == Consumed(server, Consumed(server, db, a), b)
    decreases |b|
  {
    hide Consumed, Replica.ApplyMessage, MessageOf;
    if b == [] {
      assert a + b == a;
      NothingConsumed(server, Consumed(server, db, a));
    } else {
      var front, x := b[..|b| - 1], b[|b| - 1];
      assert a + b == (a + front) + [x] && b == front + [x];
      ConsumedConcat(server, db, a, front);
      ConsumedAppend(server, db, a + front, x);
      ConsumedAppend(server, Consumed(server, db, a), front, x);
    }
  }

  /** The replica after a history: its records, consumed from nothing. */
  function ReplicaAfter(server: Replica.Server, schema: Schema, h: seq<Change>): Replica.Database
    requires Valid(schema, h)
  {
    Consumed(server, map[], Records(schema, h))
  }

  ghost predicate AllFaithful(schema: Schema, h: seq<Change>)
    requires Valid(schema, h)
  {
    forall i | 0 <= i < |h| :: FaithfulAt(schema, h, i)
  }

  predicate FaithfulAt(schema: Schema, h: seq<Change>, i: nat)
    requires Valid(schema, h) && i < |h|
  {
    ValidPrefix(schema, h, i + 1);
    assert h[..i + 1][..i] == h[..i];
    Faithful(schema, SourceAfter(h[..i]), h[i])
  }

  lemma ReplicaStep(server: Replica.Server, schema: Schema, h: seq<Change>)
    requires Valid(schema, h) && h != []
    ensures var front := h[..|h| - 1];
            WellTyped(schema, SourceAfter(front))
            && ReplicaAfter(server, schema, h)
               == Consumed(server, ReplicaAfter(server, schema, front),
                   Produced(schema, SourceAfter(front), h[|h| - 1]))
  {
    var front := h[..|h| - 1];
    HistoryWellTyped(schema, front);
    hide Consumed, Produced;
    ConsumedConcat(server, map[], Records(schema, front), Produced(schema, SourceAfter(front), h[|h| - 1]));
  }

  lemma {:induction false} FaithfulMirrors(server: Replica.Server, schema: Schema, h: seq<Change>)
    requires GoodSchema(schema) && Valid(schema, h) && AllFaithful(schema, h)
    ensures FitsAll(schema, ReplicaAfter(server, schema, h))
        && Mirrors(schema, SourceAfter(h), ReplicaAfter(server, schema, h))
    decreases |h|
  {
    if h == [] {
      EmptyMirrors(server, schema);
    } else {
      var front := h[..|h| - 1];
      forall i | 0 <= i < |front|
        ensures FaithfulAt(schema, front, i)
      {
        assert FaithfulAt(schema, h, i) && front[..i] == h[..i];
      }
      FaithfulMirrors(server, schema, front);
      ReplicaStep(server, schema, h);
      assert FaithfulAt(schema, h, |h| - 1);
      FaithfulIsDecided(server, schema, SourceAfter(front), h[|h| - 1]);
      hide Consumed, Produced, Faithful, Mirrors, FitsAll, ChangeDecided;
      ChangeMirrors(server, schema, SourceAfter(front), ReplicaAfter(server, schema, front), h[|h| - 1]);
    }
  }

  lemma EmptyMirrors(server: Replica.Server, schema: Schema)
    requires GoodSchema(schema)
    ensures FitsAll(schema, map[]) && Mirrors(schema, EMPTY, map[])
    ensures ReplicaAfter(server, schema, []) == map[]
  {
  }

  ghost predicate AllDecided(server: Replica.Server, schema: Schema, h: seq<Change>)
    requires Valid(schema, h)
  {
    forall i | 0 <= i < |h| :: DecidedAt(server, schema, h, i)
  }

  /** The DELETE of a removal at this place does the same on every server. */
  ghost predicate DecidedAt(server: Replica.Server, schema: Schema, h: seq<Change>, i: nat)
    requires Valid(schema, h) && i < |h|
  {
    ValidPrefix(schema, h, i + 1);
    assert h[..i + 1][..i] == h[..i];
    ChangeDecided(server, schema, SourceAfter(h[..i]), h[i])
  }

  /** If all but the last change are faithful and the replica still mirrors the source, so is the last. */
  lemma MirrorsFaithful(server: Replica.Server, schema: Schema, h: seq<Change>)
    requires GoodSchema(schema) && Valid(schema, h) && h != [] && DecidedAt(server, schema, h, |h| - 1)
    requires AllFaithful(schema, h[..|h| - 1]) && Mirrors(schema, SourceAfter(h), ReplicaAfter(server, schema, h))
    ensures FaithfulAt(schema, h, |h| - 1)
  {
    hide ChangeDecided;
    var front := h[..|h| - 1];
    FaithfulMirrors(server, schema, front);
    ReplicaStep(server, schema, h);
    hide Consumed, Produced, Faithful, Mirrors, FitsAll;
    ChangeMirrors(server, schema, SourceAfter(front), ReplicaAfter(server, schema, front), h[|h| - 1]);
  }

  /** After every prefix of the history the replica mirrors the source. */
  ghost predicate Converges(server: Replica.Server, schema: Schema, h: seq<Change>)
    requires Valid(schema, h)
  {
    forall n: nat | n <= |h| :: MirrorsAfter(server, schema, h, n)
  }

  predicate MirrorsAfter(server: Replica.Server, schema: Schema, h: seq<Change>, n: nat)
    requires Valid(schema, h) && n <= |h|
  {
    ValidPrefix(schema, h, n);
    Mirrors(schema, SourceAfter(h[..n]), ReplicaAfter(server, schema, h[..n]))
  }

  lemma FaithfulConverges(server: Replica.Server, schema: Schema, h: seq<Change>)
    requires GoodSchema(schema) && Valid(schema, h) && AllFaithful(schema, h)
    ensures Converges(server, schema, h)
  {
    hide GoodSchema, CanHappen, Faithful, Mirrors;
    forall n: nat | n <= |h|
      ensures MirrorsAfter(server, schema, h, n)
    {
      ValidPrefix(schema, h, n);
      FaithfulPrefix(schema, h, n);
      FaithfulMirrors(server, schema, h[..n]);
    }
  }

  /**
    Convergence. The replica of a valid history holds the rendered source tables after every prefix
    exactly when each change is faithful in the state it meets: insertions always are; removals when
    the key text is unique in its table and free of single quotes; replacements only when nothing
    changes in the rendered row, because no UPDATE is ever executed. If a removed key does not strike,
    its DELETE is another text, and only the "when" half holds on every server.
   */
  lemma ConvergesExactlyIfFaithful(server: Replica.Server, schema: Schema, h: seq<Change>)
    requires GoodSchema(schema) && Valid(schema, h) && AllDecided(server, schema, h)
    ensures Converges(server, schema, h) <==> AllFaithful(schema, h)
  {
    hide GoodSchema, CanHappen, FaithfulAt, DecidedAt, MirrorsAfter;
    if AllFaithful(schema, h) {
      FaithfulConverges(server, schema, h);
    }
    if Converges(server, schema, h) {
      ConvergingIsFaithful(server, schema, h);
    }
  }

  /** Without any condition: the history converges on every server exactly if each change is faithful. */
  lemma ConvergesOnEveryServer(schema: Schema, h: seq<Change>)
    requires GoodSchema(schema) && Valid(schema, h)
    ensures (forall server: Replica.Server :: Converges(server, schema, h)) <==> AllFaithful(schema, h)
  {
    hide GoodSchema, CanHappen, FaithfulAt, MirrorsAfter, Converges;
    if AllFaithful(schema, h) {
      forall server: Replica.Server
        ensures Converges(server, schema, h)
      {
        FaithfulConverges(server, schema, h);
      }
    }
    if forall server: Replica.Server :: Converges(server, schema, h) {
      RefusingDecides(schema, h);
      ConvergingIsFaithful(REFUSING, schema, h);
    }
  }

  lemma RefusingDecides(schema: Schema, h: seq<Change>)
    requires Valid(schema, h)
    ensures AllDecided(REFUSING, schema, h)
  {
    hide CanHappen, StaysInside;
  }

  lemma FaithfulPrefix(schema: Schema, h: seq<Change>, n: nat)
    requires Valid(schema, h) && n <= |h| && Valid(schema, h[..n])
    requires forall i | 0 <= i < n :: FaithfulAt(schema, h, i)
    ensures AllFaithful(schema, h[..n])
  {
    forall i | 0 <= i < n
      ensures FaithfulAt(schema, h[..n], i)
    {
      assert FaithfulAt(schema, h, i) && h[..n][..i] == h[..i];
    }
  }

  lemma {:induction false} ConvergingIsFaithful(server: Replica.Server, schema: Schema, h: seq<Change>)
    requires GoodSchema(schema) && Valid(schema, h) && Converges(server, schema, h) && AllDecided(server, schema, h)
    ensures AllFaithful(schema, h)
    decreases |h|
  {
    hide Mirrors, GoodSchema, CanHappen, Faithful, ChangeDecided, Consumed, Records, Advance;
    if h != [] {
      var front := h[..|h| - 1];
      forall n: nat | n <= |front|
        ensures MirrorsAfter(server, schema, front, n)
      {
        assert MirrorsAfter(server, schema, h, n) && front[..n] == h[..n];
      }
      forall i | 0 <= i < |front|
        ensures DecidedAt(server, schema, front, i)
      {
        assert DecidedAt(server, schema, h, i) && front[..i] == h[..i];
      }
      ConvergingIsFaithful(server, schema, front);
      assert DecidedAt(server, schema, h, |h| - 1);
      assert MirrorsAfter(server, schema, h, |h|) && h[..|h|] == h;
      MirrorsFaithful(server, schema, h);
      forall i | 0 <= i < |front|
        ensures FaithfulAt(schema, h, i)
      {
        assert FaithfulAt(schema, front, i) && front[..i] == h[..i];
      }
    }
  }

  // ----- Tables the writer cannot name -----

  /** No table of the schema can be named in the writer's statements. */
  predicate Unnamed(schema: Schema) {
    forall id | id in schema :: Unnameable(schema[id].name)
  }

  lemma UnnamedStep(server: Replica.Server, schema: Schema, src: Source, c: Change)
    requires Unnamed(schema) && WellTyped(schema, src) && CanHappen(schema, src, c)
    ensures Consumed(server, map[], Produced(schema, src, c)) == map[]
  {
    hide Unnameable, Consumed, InsertChange, UpdateChange, DeleteChange, RenderTuple, RemoveImage, Replica.ApplyMessage,
      Replica.ToMessage;
    match c
    case Add(id, row) =>
      UnnamedTableStaysAway(server, map[], schema[id], RenderTuple(row));
      ConsumedOne(server, map[], InsertChange(schema[id], RenderTuple(row)));
    case Remove(id, at, full) =>
      var row := Rows(src, id)[at];
      assert row in src.tables[id] && IsRow(schema[id], row);
      var values := RenderTuple(RemoveImage(schema[id], row, full));
      UnnamedTableStaysAway(server, map[], schema[id], values);
      ConsumedOne(server, map[], DeleteChange(schema[id], values));
    case Replace(id, _, _, before, after) =>
      var values := RenderTuple(FirstTuple(before, after));
      UnnamedTableStaysAway(server, map[], schema[id], values);
      ConsumedOne(server, map[], UpdateChange(schema[id], [], values));
    case _ =>
      NothingConsumed(server, map[]);
  }

  /** Whatever happens to tables whose names the server takes for something else, the replica stays empty. */
  lemma {:induction false} UnnamedNeverArrives(server: Replica.Server, schema: Schema, h: seq<Change>)
    requires Unnamed(schema) && Valid(schema, h)
    ensures ReplicaAfter(server, schema, h) == map[]
    decreases |h|
  {
    hide Unnamed, Produced, Consumed, CanHappen;
    if h == [] {
      NothingConsumed(server, map[]);
    } else {
      UnnamedNeverArrives(server, schema, h[..|h| - 1]);
      ReplicaStep(server, schema, h);
      UnnamedStep(server, schema, SourceAfter(h[..|h| - 1]), h[|h| - 1]);
    }
  }

  // ----- Tables the writer takes for existing ones -----

  /** Each table of the schema is named like a view of the catalogue. */
  predicate Catalogued(schema: Schema) {
    forall id | id in schema :: WellNamed(schema[id]) && Identifiers.IsCatalogued(schema[id].name)
  }

  /** A server that makes no table of texts other than the statements. */
  ghost predicate CreatesNothing(server: Replica.Server) {
    forall text :: server(map[], text).db == map[]
  }

  lemma CataloguedStep(server: Replica.Server, schema: Schema, src: Source, c: Change)
    requires Catalogued(schema) && WellTyped(schema, src) && CanHappen(schema, src, c)
    requires c.Remove? ==> CreatesNothing(server)
    ensures Consumed(server, map[], Produced(schema, src, c)) == map[]
  {
    hide WellNamed, Consumed, InsertChange, UpdateChange, DeleteChange, RenderTuple, RemoveImage, Replica.ApplyMessage,
      Replica.ToMessage;
    match c
    case Add(id, row) =>
      CataloguedTableStaysAway(server, schema[id], RenderTuple(row));
      ConsumedOne(server, map[], InsertChange(schema[id], RenderTuple(row)));
    case Remove(id, at, full) =>
      var row := Rows(src, id)[at];
      assert row in src.tables[id] && IsRow(schema[id], row);
      var values := RenderTuple(RemoveImage(schema[id], row, full));
      NothingToRemove(server, schema[id], values);
      ConsumedOne(server, map[], DeleteChange(schema[id], values));
    case Replace(id, _, _, before, after) =>
      var values := RenderTuple(FirstTuple(before, after));
      CataloguedTableStaysAway(server, schema[id], values);
      ConsumedOne(server, map[], UpdateChange(schema[id], [], values));
    case _ =>
      NothingConsumed(server, map[]);
  }

  lemma NothingToRemove(server: Replica.Server, r: Relation, values: seq<bytes>)
    requires WellNamed(r) && |values| == |r.columns| && CreatesNothing(server)
    ensures Replica.ApplyMessage(server, map[], Replica.ToMessage(DeleteChange(r, values).record)).db == map[]
  {
    var column, key := r.columns[KeyColumn(r)].name, values[KeyColumn(r)];
    DeleteMessage(server, map[], r, values);
    assert Sql.IsIdentifier(r.name);
    hide *;
    DeleteFromNothing(server, r.name, column, key);
  }

  lemma DeleteFromNothing(server: Replica.Server, table: string, column: string, key: string)
    requires Sql.IsIdentifier(table) && CreatesNothing(server)
    ensures Replica.Execute(server, map[], DeleteText(table, column, key)).db == map[]
  {
    DeleteIsRead(table, column, key);
    hide Sql.IsIdentifier, Sql.ReadStatement, Sql.ReadItems, Sql.Refused, DeleteText, Condition, Identifiers.Folded;
  }

  /** Whatever happens to tables named like views of the catalogue, the replica stays empty. */
  lemma {:induction false} CataloguedNeverArrives(server: Replica.Server, schema: Schema, h: seq<Change>)
    requires Catalogued(schema) && Valid(schema, h)
    requires CreatesNothing(server) || forall c | c in h :: !c.Remove?
    ensures ReplicaAfter(server, schema, h) == map[]
    decreases |h|
  {
    hide Catalogued, Produced, Consumed, CanHappen, CreatesNothing;
    if h == [] {
      NothingConsumed(server, map[]);
    } else {
      CataloguedNeverArrives(server, schema, h[..|h| - 1]);
      ReplicaStep(server, schema, h);
      CataloguedStep(server, schema, SourceAfter(h[..|h| - 1]), h[|h| - 1]);
    }
  }

  lemma RowsAreMissed(server: Replica.Server, schema: Schema, h: seq<Change>, id: uint32)
    requires Valid(schema, h) && ReplicaAfter(server, schema, h) == map[] && id in schema
        && Rows(SourceAfter(h), id) != []
    ensures !Converges(server, schema, h)
  {
    var rows := Rows(SourceAfter(h), id);
    RenderedSplit(schema[id], rows, 0);
    assert RenderRow(schema[id], rows[0]) in Rendered(schema[id], rows);
    assert RowsOf(map[], schema[id]) == multiset{};
    assert h[..|h|] == h;
    hide Rendered, RenderRow, RowsOf, Rows, ReplicaAfter, Valid, SourceAfter;
    assert !Mirrors(schema, SourceAfter(h), map[]);
    hide Mirrors;
    assert !MirrorsAfter(server, schema, h, |h|);
  }
}
