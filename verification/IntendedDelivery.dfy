/**
  The intended pipeline under reordering: an update that keeps its row's key commutes with everything
  that is routed apart from it; one that changes the key does not.
 */
module IntendedDelivery {
  import opened Bytes
  import opened PgOutput
  import opened WireFormat
  import opened Changes
  import opened WriterSql
  import opened Replica
  import opened Effects
  import opened History
  import opened Identifiers
  import opened Convergence
  import opened Logs
  import opened Delivery
  import opened IntendedPipeline

  // ----- Updates of a table's rows -----

  function UpdatedRow(row: SqlRow, column: string, key: string, values: SqlRow): SqlRow {
    if Matches(row, column, key) then row + values else row
  }

  lemma UpdatedOnce(rows: multiset<SqlRow>, column: string, key: string, values: SqlRow) returns (y: SqlRow)
    requires exists x :: x in rows && Matches(x, column, key)
    ensures y in rows && Matches(y, column, key)
    ensures Updated(rows, column, key, values)
        == Updated(rows - multiset{y}, column, key, values) + multiset{y + values}
  {
    y :| y in rows && Matches(y, column, key) &&
      Updated(rows, column, key, values) == Updated(rows - multiset{y}, column, key, values) + multiset{y + values};
  }

  lemma Exchanged(rows: multiset<SqlRow>, x: SqlRow, y: SqlRow)
    ensures rows + multiset{x} + multiset{y} == rows + multiset{y} + multiset{x}
  {
  }

  lemma TakenOut(rows: multiset<SqlRow>, row: SqlRow, y: SqlRow)
    requires y in rows + multiset{row} && y != row
    ensures y in rows && rows == rows - multiset{y} + multiset{y}
    ensures rows + multiset{row} - multiset{y} == rows - multiset{y} + multiset{row}
  {
  }

  /** Each row is updated by itself. */
  lemma {:induction false} UpdatedAdd(rows: multiset<SqlRow>, row: SqlRow, column: string, key: string, values: SqlRow)
    ensures Updated(rows + multiset{row}, column, key, values)
         == Updated(rows, column, key, values) + multiset{UpdatedRow(row, column, key, values)}
    decreases |rows|
  {
    var all := rows + multiset{row};
    hide Matches, Updated;
    if exists x :: x in all && Matches(x, column, key) {
      var y := UpdatedOnce(all, column, key, values);
      if y == row {
        assert all - multiset{y} == rows;
      } else {
        var rest := rows - multiset{y};
        TakenOut(rows, row, y);
        UpdatedAdd(rest, row, column, key, values);
        UpdatedAdd(rest, y, column, key, values);
        Exchanged(Updated(rest, column, key, values), UpdatedRow(row, column, key, values), y + values);
      }
    } else {
      NoneUpdated(rows, row, column, key, values);
    }
  }

  lemma NoneUpdated(rows: multiset<SqlRow>, row: SqlRow, column: string, key: string, values: SqlRow)
    requires forall x | x in rows + multiset{row} :: !Matches(x, column, key)
    ensures Updated(rows + multiset{row}, column, key, values)
         == Updated(rows, column, key, values) + multiset{UpdatedRow(row, column, key, values)}
  {
    hide Matches, Updated;
    assert row in rows + multiset{row};
    NothingUpdated(rows + multiset{row}, column, key, values);
    NothingUpdated(rows, column, key, values);
  }

  lemma WithoutAdd(rows: multiset<SqlRow>, row: SqlRow, column: string, key: string)
    ensures Matches(row, column, key) ==> Without(rows + multiset{row}, column, key) == Without(rows, column, key)
    ensures !Matches(row, column, key) ==>
              Without(rows + multiset{row}, column, key) == Without(rows, column, key) + multiset{row}
  {
    var a, b := Without(rows + multiset{row}, column, key), Without(rows, column, key);
    hide Without;
    if Matches(row, column, key) {
      assert forall x :: a[x] == b[x];
      assert a == b;
    } else {
      assert forall x :: a[x] == (b + multiset{row})[x];
    }
  }

  lemma RowUpdatesCommute(row: SqlRow, column: string, a: string, x: SqlRow, b: string, y: SqlRow)
    requires a != b && Matches(x, column, a) && Matches(y, column, b)
    ensures UpdatedRow(UpdatedRow(row, column, a, x), column, b, y)
        == UpdatedRow(UpdatedRow(row, column, b, y), column, a, x)
  {
  }

  lemma NothingToUpdate(column: string, a: string, x: SqlRow, b: string, y: SqlRow)
    ensures Updated(Updated(multiset{}, column, a, x), column, b, y)
        == Updated(Updated(multiset{}, column, b, y), column, a, x)
  {
    hide Matches, Updated;
    NothingUpdated(multiset{}, column, a, x);
    NothingUpdated(multiset{}, column, b, y);
  }

  /** Two updates that keep different keys. */
  lemma {:induction false} UpdatesCommute(rows: multiset<SqlRow>, column: string, a: string, x: SqlRow, b: string,
      y: SqlRow)
    requires a != b && Matches(x, column, a) && Matches(y, column, b)
    ensures Updated(Updated(rows, column, a, x), column, b, y) == Updated(Updated(rows, column, b, y), column, a, x)
    decreases |rows|
  {
    hide Updated, Matches, UpdatedRow;
    if rows == multiset{} {
      NothingToUpdate(column, a, x, b, y);
    } else {
      var row :| row in rows;
      var rest := rows - multiset{row};
      assert rows == rest + multiset{row};
      UpdatesCommute(rest, column, a, x, b, y);
      RowUpdatesCommute(row, column, a, x, b, y);
      UpdatedAdd(rest, row, column, a, x);
      UpdatedAdd(rest, row, column, b, y);
      UpdatedAdd(Updated(rest, column, a, x), UpdatedRow(row, column, a, x), column, b, y);
      UpdatedAdd(Updated(rest, column, b, y), UpdatedRow(row, column, b, y), column, a, x);
    }
  }

  lemma OtherKeyStays(row: SqlRow, column: string, a: string, x: SqlRow, b: string)
    requires a != b && Matches(x, column, a)
    ensures Matches(UpdatedRow(row, column, a, x), column, b) <==> Matches(row, column, b)
    ensures Matches(row, column, b) ==> UpdatedRow(row, column, a, x) == row
  {
  }

  /** An update that keeps its key, and a removal by another. */
  lemma {:induction false} UpdateAndRemovalCommute(rows: multiset<SqlRow>, column: string, a: string, x: SqlRow,
      b: string)
    requires a != b && Matches(x, column, a)
    ensures Without(Updated(rows, column, a, x), column, b) == Updated(Without(rows, column, b), column, a, x)
    decreases |rows|
  {
    hide Updated, Without, Matches, UpdatedRow;
    if rows == multiset{} {
      NothingLeft(column, a, x, b);
    } else {
      var row :| row in rows;
      var rest := rows - multiset{row};
      assert rows == rest + multiset{row};
      UpdateAndRemovalCommute(rest, column, a, x, b);
      OtherKeyStays(row, column, a, x, b);
      UpdatedAdd(rest, row, column, a, x);
      WithoutAdd(rest, row, column, b);
      WithoutAdd(Updated(rest, column, a, x), UpdatedRow(row, column, a, x), column, b);
      if !Matches(row, column, b) {
        UpdatedAdd(Without(rest, column, b), row, column, a, x);
      }
    }
  }

  lemma NothingLeft(column: string, a: string, x: SqlRow, b: string)
    ensures Without(Updated(multiset{}, column, a, x), column, b)
        == Updated(Without(multiset{}, column, b), column, a, x)
  {
    NothingUpdated(multiset{}, column, a, x);
    assert Without(multiset{}, column, b) == multiset{};
  }

  // ----- Records of the intended pipeline -----

  /** A change by its rendered values; `before` is the old row of an update. */
  datatype MeantChange = MeantChange(change: RowChange, before: seq<bytes>)

  predicate OfMeant(schema: Schema, m: MeantChange) {
    && OfSchema(schema, m.change) && schema[m.change.id].columns != []
    && (m.change.operation.Changed? ==> |m.before| == |m.change.values|)
  }

  function MeantRecord(schema: Schema, m: MeantChange): Keyed
    requires OfMeant(schema, m)
  {
    if m.change.operation.Changed? then UpdateChange(schema[m.change.id], m.before, m.change.values)
    else RecordOf(schema, m.change)
  }

  /** Updates keep their key, and updates and removals have a key value free of single quotes. */
  predicate KeepsKey(schema: Schema, m: MeantChange) {
    && OfMeant(schema, m)
    && (m.change.operation.Changed? ==> m.before[KeyColumn(schema[m.change.id])] == KeyValue(schema, m.change))
    && (m.change.operation.Added? || '\'' !in KeyValue(schema, m.change))
  }

  /** The rows of the record's table afterwards. */
  ghost function MeantRows(schema: Schema, m: MeantChange, rows: multiset<SqlRow>): multiset<SqlRow>
    requires OfMeant(schema, m)
  {
    var r, c := schema[m.change.id], m.change;
    if c.operation.Changed?
        then Updated(rows, r.columns[KeyColumn(r)].name, KeyValue(schema, c), ReplicaRow(r, c.values))
    else RowsWritten(schema, c, rows)
  }

  ghost function MeantWritten(server: Server, db: Database, x: Keyed): Database {
    Applies(server, db, ToMessage(x.record))
  }

  lemma NotAnUpdate(server: Server, schema: Schema, c: RowChange, db: Database)
    requires OfSchema(schema, c) && !c.operation.Changed?
    ensures MeantWritten(server, db, RecordOf(schema, c)) == Written(server, db, RecordOf(schema, c))
  {
    hide ApplyMessage;
  }

  lemma NothingToWrite(schema: Schema, m: MeantChange)
    requires OfMeant(schema, m) && !m.change.operation.Added?
    ensures MeantRows(schema, m, multiset{}) == multiset{}
  {
    if !m.change.operation.Changed? {
      NothingWritten(schema, m.change);
    }
  }

  lemma MeantChangedEffect(server: Server, schema: Schema, m: MeantChange, db: Database)
    requires GoodSchema(schema) && KeepsKey(schema, m) && FitsAll(schema, db) && m.change.operation.Changed?
    ensures var r := schema[m.change.id];
            MeantWritten(server, db, MeantRecord(schema, m)) == Put(db, r, MeantRows(schema, m, RowsOf(db, r)), false)
  {
    var r := schema[m.change.id];
    assert PlainRelation(r) && Fits(db, r);
    hide GoodSchema, PlainRelation, FitsAll, Fits, Applies, ToMessage, UpdateChange, Updated, ReplicaRow, Folded,
      WithRows, RowsOf;
    MeantUpdateEffect(server, db, r, m.before, m.change.values);
  }

  /** What a record does, as meant: it touches its own table only, and only an INSERT creates it. */
  lemma MeantIsWritten(server: Server, schema: Schema, m: MeantChange, db: Database)
    requires GoodSchema(schema) && KeepsKey(schema, m) && FitsAll(schema, db)
    ensures var r, db' := schema[m.change.id], MeantWritten(server, db, MeantRecord(schema, m));
            && db' == Put(db, r, MeantRows(schema, m, RowsOf(db, r)), m.change.operation.Added?)
            && FitsAll(schema, db')
            && RowsOf(db', r) == MeantRows(schema, m, RowsOf(db, r))
  {
    var c := m.change;
    hide GoodSchema, FitsAll, MeantWritten, Written, RecordOf, RowsWritten, WithRows, Fits, PlainRelation, Folded,
      UpdateChange, Updated, KeyColumn, KeyValue;
    if c.operation.Changed? {
      MeantChangedEffect(server, schema, m, db);
      TableWritten(schema, c.id, db, MeantRows(schema, m, RowsOf(db, schema[c.id])));
      NothingToWrite(schema, m);
    } else {
      NotAnUpdate(server, schema, c, db);
      KeptIsDecided(server, schema, m);
      RecordIsWritten(server, schema, c, db);
    }
  }

  lemma KeptIsDecided(server: Server, schema: Schema, m: MeantChange)
    requires KeepsKey(schema, m)
    ensures RecordDecided(server, schema, m.change)
  {
    StruckByItself(KeyValue(schema, m.change));
    if m.change.operation.Removed? {
      StruckStaysInside(KeyValue(schema, m.change));
    }
    hide KeyValue, Struck, StaysInside, KeyColumn;
  }

  // ----- Commutation -----

  /** A pair of changes of one table and different keys, on the rows of the table. */
  lemma MeantRowsCommute(schema: Schema, a: MeantChange, b: MeantChange, rows: multiset<SqlRow>)
    requires GoodSchema(schema) && KeepsKey(schema, a) && KeepsKey(schema, b)
    requires a.change.id == b.change.id && KeyValue(schema, a.change) != KeyValue(schema, b.change)
    ensures MeantRows(schema, b, MeantRows(schema, a, rows)) == MeantRows(schema, a, MeantRows(schema, b, rows))
  {
    hide GoodSchema, MeantRows, KeyValue, RowsWritten;
    if a.change.operation.Changed? {
      UpdateCommutes(schema, a, b, rows);
    } else if b.change.operation.Changed? {
      UpdateCommutes(schema, b, a, rows);
    } else {
      NoUpdateCommutes(schema, a, b, rows);
    }
  }

  lemma NoUpdateCommutes(schema: Schema, a: MeantChange, b: MeantChange, rows: multiset<SqlRow>)
    requires GoodSchema(schema) && KeepsKey(schema, a) && KeepsKey(schema, b)
    requires a.change.id == b.change.id && KeyValue(schema, a.change) != KeyValue(schema, b.change)
    requires !a.change.operation.Changed? && !b.change.operation.Changed?
    ensures MeantRows(schema, b, MeantRows(schema, a, rows)) == MeantRows(schema, a, MeantRows(schema, b, rows))
  {
    hide GoodSchema, KeyValue, RowsWritten, Crosses;
    RowsCommute(schema, a.change, b.change, rows);
    assert PlainChange(schema, a.change) && PlainChange(schema, b.change);
    PlainIsUncrossed(schema, a.change, b.change);
    PlainIsUncrossed(schema, b.change, a.change);
  }

  lemma UpdateCommutes(schema: Schema, a: MeantChange, b: MeantChange, rows: multiset<SqlRow>)
    requires GoodSchema(schema) && KeepsKey(schema, a) && KeepsKey(schema, b) && a.change.operation.Changed?
    requires a.change.id == b.change.id && KeyValue(schema, a.change) != KeyValue(schema, b.change)
    ensures MeantRows(schema, b, MeantRows(schema, a, rows)) == MeantRows(schema, a, MeantRows(schema, b, rows))
  {
    var r := schema[a.change.id];
    var column, x, y := r.columns[KeyColumn(r)].name, ReplicaRow(r, a.change.values), ReplicaRow(r, b.change.values);
    var s, t := KeyValue(schema, a.change), KeyValue(schema, b.change);
    RowMatchesItsKey(schema, a.change, s);
    RowMatchesItsKey(schema, b.change, t);
    RowMatchesItsKey(schema, b.change, s);
    if b.change.operation.Removed? {
      StruckByItself(t);
    }
    hide GoodSchema, ReplicaRow, KeyValue, Updated, Without, Struck, KeyColumn, Matches;
    match b.change.operation
    case Added => UpdatedAdd(rows, y, column, s, x);
    case Changed => UpdatesCommute(rows, column, s, x, t, y);
    case Removed => UpdateAndRemovalCommute(rows, column, s, x, t);
  }

  /** Two records, one after the other: into different tables. */
  lemma BothMeant(server: Server, schema: Schema, a: MeantChange, b: MeantChange, db: Database)
    requires GoodSchema(schema) && KeepsKey(schema, a) && KeepsKey(schema, b) && FitsAll(schema, db)
    requires a.change.id != b.change.id
    ensures var r, s := schema[a.change.id], schema[b.change.id];
            && Folded(r.name) != Folded(s.name)
            && MeantWritten(server, MeantWritten(server, db, MeantRecord(schema, a)), MeantRecord(schema, b))
               == Put(Put(db, r, MeantRows(schema, a, RowsOf(db, r)), a.change.operation.Added?),
                      s, MeantRows(schema, b, RowsOf(db, s)), b.change.operation.Added?)
  {
    var r, s := schema[a.change.id], schema[b.change.id];
    assert Folded(r.name) != Folded(s.name);
    hide GoodSchema, FitsAll, MeantWritten, MeantRecord, MeantRows, KeepsKey, Put, RowsOf, Folded;
    MeantIsWritten(server, schema, a, db);
    MeantIsWritten(server, schema, b, MeantWritten(server, db, MeantRecord(schema, a)));
    PutTwice(db, r, s, MeantRows(schema, a, RowsOf(db, r)), MeantRows(schema, b, RowsOf(db, s)),
      a.change.operation.Added?, b.change.operation.Added?);
  }

  lemma MeantTablesCommute(server: Server, schema: Schema, a: MeantChange, b: MeantChange, db: Database)
    requires GoodSchema(schema) && KeepsKey(schema, a) && KeepsKey(schema, b) && FitsAll(schema, db)
    requires a.change.id != b.change.id
    ensures MeantWritten(server, MeantWritten(server, db, MeantRecord(schema, a)), MeantRecord(schema, b))
         == MeantWritten(server, MeantWritten(server, db, MeantRecord(schema, b)), MeantRecord(schema, a))
  {
    var r, s := schema[a.change.id], schema[b.change.id];
    assert OfMeant(schema, a) && OfMeant(schema, b);
    hide *;
    BothMeant(server, schema, a, b, db);
    BothMeant(server, schema, b, a, db);
    PutTwice(db, r, s, MeantRows(schema, a, RowsOf(db, r)), MeantRows(schema, b, RowsOf(db, s)),
      a.change.operation.Added?, b.change.operation.Added?);
  }

  /** Two writes into one table: the second decides the rows, either creates it. */
  lemma PutAgain(db: Database, r: Relation, x: multiset<SqlRow>, y: multiset<SqlRow>, a: bool, b: bool)
    ensures Put(Put(db, r, x, a), r, y, b)
         == if b then WithRows(db, r, y) else if a || Folded(r.name) in db then WithRows(db, r, y) else db
  {
    hide Folded;
  }

  lemma MeantTableCommutes(server: Server, schema: Schema, a: MeantChange, b: MeantChange, db: Database)
    requires GoodSchema(schema) && KeepsKey(schema, a) && KeepsKey(schema, b) && FitsAll(schema, db)
    requires a.change.id == b.change.id && KeyValue(schema, a.change) != KeyValue(schema, b.change)
    ensures MeantWritten(server, MeantWritten(server, db, MeantRecord(schema, a)), MeantRecord(schema, b))
         == MeantWritten(server, MeantWritten(server, db, MeantRecord(schema, b)), MeantRecord(schema, a))
  {
    var r, x, y := schema[a.change.id], MeantRecord(schema, a), MeantRecord(schema, b);
    var rows := RowsOf(db, r);
    assert OfMeant(schema, a) && OfMeant(schema, b);
    hide *;
    MeantIsWritten(server, schema, a, db);
    MeantIsWritten(server, schema, b, db);
    MeantIsWritten(server, schema, b, MeantWritten(server, db, x));
    MeantIsWritten(server, schema, a, MeantWritten(server, db, y));
    MeantRowsCommute(schema, a, b, rows);
    var ab := MeantRows(schema, b, MeantRows(schema, a, rows));
    PutAgain(db, r, MeantRows(schema, a, rows), ab, a.change.operation.Added?, b.change.operation.Added?);
    PutAgain(db, r, MeantRows(schema, b, rows), ab, b.change.operation.Added?, a.change.operation.Added?);
  }

  ghost function MeantWrites(server: Server): (Database, Keyed) -> Database {
    (db: Database, x: Keyed) => MeantWritten(server, db, x)
  }

  lemma MeantIsRouted(schema: Schema, m: MeantChange)
    requires GoodSchema(schema) && OfMeant(schema, m)
    ensures MeantRecord(schema, m).key == WriteString(JString(KeyValue(schema, m.change))) != ""
  {
    if m.change.operation.Changed? {
      RowIsRoutedByKey(schema[m.change.id], m.change.values);
    } else {
      RecordIsRouted(schema, m.change);
    }
  }

  lemma MeantOrdered(schema: Schema, a: MeantChange, b: MeantChange)
    requires GoodSchema(schema) && OfMeant(schema, a) && OfMeant(schema, b)
    ensures Ordered(MeantRecord(schema, a), MeantRecord(schema, b))
        <==> KeyValue(schema, a.change) == KeyValue(schema, b.change)
  {
    hide GoodSchema, MeantRecord, KeyValue;
    MeantIsRouted(schema, a);
    MeantIsRouted(schema, b);
    WriteStringInjective(KeyValue(schema, a.change), KeyValue(schema, b.change));
  }

  /** Records routed apart commute, and each leaves the tables as wide as they were. */
  lemma MeantPairCommutes(server: Server, schema: Schema, a: MeantChange, b: MeantChange)
    requires GoodSchema(schema) && KeepsKey(schema, a) && KeepsKey(schema, b)
    ensures Keeps(MeantWrites(server), Fitting(schema), MeantRecord(schema, a))
    ensures !Ordered(MeantRecord(schema, a), MeantRecord(schema, b)) ==>
              Commute(MeantWrites(server), Fitting(schema), MeantRecord(schema, a), MeantRecord(schema, b))
  {
    assert OfMeant(schema, a) && OfMeant(schema, b);
    hide GoodSchema, KeepsKey, FitsAll, MeantWritten, MeantRecord, KeyValue, Ordered;
    MeantOrdered(schema, a, b);
    forall db: Database | FitsAll(schema, db)
      ensures FitsAll(schema, MeantWritten(server, db, MeantRecord(schema, a)))
      ensures !Ordered(MeantRecord(schema, a), MeantRecord(schema, b)) ==>
                MeantWritten(server, MeantWritten(server, db, MeantRecord(schema, a)), MeantRecord(schema, b))
                == MeantWritten(server, MeantWritten(server, db, MeantRecord(schema, b)), MeantRecord(schema, a))
    {
      MeantIsWritten(server, schema, a, db);
      if a.change.id != b.change.id {
        MeantTablesCommute(server, schema, a, b, db);
      } else if KeyValue(schema, a.change) != KeyValue(schema, b.change) {
        MeantTableCommutes(server, schema, a, b, db);
      }
    }
  }

  // ----- Histories -----

  function MeantRecords(schema: Schema, h: seq<Change>): seq<Keyed>
    requires Valid(schema, h)
  {
    if h == [] then []
    else
      HistoryWellTyped(schema, h[..|h| - 1]);
      MeantRecords(schema, h[..|h| - 1]) + MeantProduced(schema, SourceAfter(h[..|h| - 1]), h[|h| - 1])
  }

  lemma {:induction false} ConsumedIsMeantFold(server: Server, db: Database, xs: seq<Keyed>)
    ensures ConsumedAsMeant(server, db, xs) == Fold(MeantWrites(server), db, xs)
    decreases |xs|
  {
    hide Applies;
    if xs != [] {
      ConsumedIsMeantFold(server, db, xs[..|xs| - 1]);
    }
  }

  lemma {:induction false} MeantConcat(server: Server, db: Database, a: seq<Keyed>, b: seq<Keyed>)
    ensures ConsumedAsMeant(server, db, a + b) == ConsumedAsMeant(server, ConsumedAsMeant(server, db, a), b)
    decreases |b|
  {
    hide Applies;
    if b == [] {
      assert a + b == a;
    } else {
      var front := b[..|b| - 1];
      assert (a + b)[..|a + b| - 1] == a + front;
      MeantConcat(server, db, a, front);
    }
  }

  lemma {:induction false} MeantReplicaIsConsumed(server: Server, schema: Schema, h: seq<Change>)
    requires Valid(schema, h)
    ensures MeantReplica(server, schema, h) == ConsumedAsMeant(server, map[], MeantRecords(schema, h))
    decreases |h|
  {
    hide Applies, MeantProduced, CanHappen;
    if h != [] {
      var front := h[..|h| - 1];
      HistoryWellTyped(schema, front);
      MeantReplicaIsConsumed(server, schema, front);
      MeantConcat(server, map[], MeantRecords(schema, front), MeantProduced(schema, SourceAfter(front), h[|h| - 1]));
    }
  }

  /** A replacement keeps the text that its row is routed and selected by. */
  predicate KeyKept(schema: Schema, src: Source, c: Change)
    requires CanHappen(schema, src, c)
  {
    c.Replace? ==> KeyText(schema[c.id], c.row) == KeyText(schema[c.id], Rows(src, c.id)[c.at])
  }

  predicate KeyKeptAt(schema: Schema, h: seq<Change>, i: nat)
    requires Valid(schema, h) && i < |h|
  {
    ValidPrefix(schema, h, i + 1);
    assert h[..i + 1][..i] == h[..i];
    KeyKept(schema, SourceAfter(h[..i]), h[i])
  }

  ghost predicate IsKept(schema: Schema, x: Keyed) {
    exists m :: KeepsKey(schema, m) && x == MeantRecord(schema, m)
  }

  lemma KeptRecord(schema: Schema, m: MeantChange, x: Keyed)
    requires KeepsKey(schema, m) && x == MeantRecord(schema, m)
    ensures IsKept(schema, x)
  {
  }

  lemma PlainIsKept(schema: Schema, x: Keyed)
    requires IsPlain(schema, x) && x.record.op != "UPDATE"
    ensures IsKept(schema, x)
  {
    var c :| PlainChange(schema, c) && x == RecordOf(schema, c);
    assert !c.operation.Changed?;
    KeptRecord(schema, MeantChange(c, []), x);
  }

  lemma ProducedIsKept(schema: Schema, src: Source, c: Change)
    requires GoodSchema(schema) && WellTyped(schema, src) && CanHappen(schema, src, c)
    requires MeantFaithful(schema, src, c) && KeyKept(schema, src, c)
    ensures forall x | x in MeantProduced(schema, src, c) :: IsKept(schema, x)
  {
    if c.Replace? {
      ReplacedIsKept(schema, src, c);
    } else {
      ProducedIsPlain(schema, src, c);
      assert forall x | x in Produced(schema, src, c) :: x.record.op != "UPDATE";
      hide IsPlain, IsKept, GoodSchema, Produced, CanHappen, WellTyped, MeantFaithful;
      forall x | x in Produced(schema, src, c)
        ensures IsKept(schema, x)
      {
        PlainIsKept(schema, x);
      }
    }
  }

  lemma ReplacedIsKept(schema: Schema, src: Source, c: Change)
    requires GoodSchema(schema) && WellTyped(schema, src) && CanHappen(schema, src, c) && c.Replace?
    requires MeantFaithful(schema, src, c) && KeyKept(schema, src, c)
    ensures forall x | x in MeantProduced(schema, src, c) :: IsKept(schema, x)
  {
    var r, row := schema[c.id], Rows(src, c.id)[c.at];
    assert row in src.tables[c.id] && IsRow(r, row) && r.columns != [] by {
      hide MeantFaithful, KeyKept, CanHappen, IsKept, MeantProduced;
    }
    hide GoodSchema, PlainRelation, WellTyped, KeyColumn, IsRow, SomeRowHas, UpdateChange, IsKept, Row;
    var before, after := RenderTuple(c.before.tuple), RenderTuple(c.after);
    KeptRecord(schema, MeantChange(RowChange(Changed, c.id, after), before), UpdateChange(r, before, after));
  }

  lemma {:induction false} RecordsAreKept(schema: Schema, h: seq<Change>)
    requires GoodSchema(schema) && Valid(schema, h)
    requires forall i | 0 <= i < |h| :: MeantFaithfulAt(schema, h, i) && KeyKeptAt(schema, h, i)
    ensures forall x | x in MeantRecords(schema, h) :: IsKept(schema, x)
    decreases |h|
  {
    hide GoodSchema, CanHappen, MeantFaithful, KeyKept, MeantProduced, IsKept;
    if h != [] {
      var front := h[..|h| - 1];
      forall i | 0 <= i < |front|
        ensures MeantFaithfulAt(schema, front, i) && KeyKeptAt(schema, front, i)
      {
        assert MeantFaithfulAt(schema, h, i) && KeyKeptAt(schema, h, i) && front[..i] == h[..i];
      }
      RecordsAreKept(schema, front);
      HistoryWellTyped(schema, front);
      assert MeantFaithfulAt(schema, h, |h| - 1) && KeyKeptAt(schema, h, |h| - 1);
      ProducedIsKept(schema, SourceAfter(front), h[|h| - 1]);
    }
  }

  lemma KeptPair(server: Server, schema: Schema, x: Keyed, y: Keyed)
    requires GoodSchema(schema) && IsKept(schema, x) && IsKept(schema, y)
    ensures Keeps(MeantWrites(server), Fitting(schema), x)
    ensures !Ordered(x, y) ==> Commute(MeantWrites(server), Fitting(schema), x, y)
  {
    hide GoodSchema, Keeps, Commute, Ordered, MeantWrites, MeantRecord, Fitting, KeyValue;
    var a :| KeepsKey(schema, a) && x == MeantRecord(schema, a);
    var b :| KeepsKey(schema, b) && y == MeantRecord(schema, b);
    MeantPairCommutes(server, schema, a, b);
  }

  lemma KeptDelivery(server: Server, schema: Schema, db: Database, xs: seq<Keyed>, ys: seq<Keyed>)
    requires GoodSchema(schema) && FitsAll(schema, db) && SameLogs(xs, ys) && forall x | x in xs :: IsKept(schema, x)
    ensures ConsumedAsMeant(server, db, xs) == ConsumedAsMeant(server, db, ys)
  {
    hide GoodSchema, SameLogs, ConsumedAsMeant, IsKept, Keeps, Commute, Ordered, FitsAll, MeantWrites, Fold;
    forall x, y | x in xs && y in xs
      ensures Keeps(MeantWrites(server), Fitting(schema), x)
      ensures !Ordered(x, y) ==> Commute(MeantWrites(server), Fitting(schema), x, y)
    {
      KeptPair(server, schema, x, y);
    }
    SameLogsSameState(MeantWrites(server), Fitting(schema), db, xs, ys);
    ConsumedIsMeantFold(server, db, xs);
    ConsumedIsMeantFold(server, db, ys);
  }

  /**
    Convergence as meant, under reordering: if updates keep the text of their key besides, the replica
    ends up mirroring the source however the logs of different keys are interleaved on the way.
   */
  lemma AnyDeliveryConvergesAsMeant(server: Server, schema: Schema, h: seq<Change>, delivered: seq<Keyed>)
    requires GoodSchema(schema) && Valid(schema, h)
    requires forall i | 0 <= i < |h| :: MeantFaithfulAt(schema, h, i) && KeyKeptAt(schema, h, i)
    requires SameLogs(MeantRecords(schema, h), delivered)
    ensures ConsumedAsMeant(server, map[], delivered) == MeantReplica(server, schema, h)
    ensures Mirrors(schema, SourceAfter(h), ConsumedAsMeant(server, map[], delivered))
  {
    hide GoodSchema, Valid, MeantFaithfulAt, KeyKeptAt, SameLogs, ConsumedAsMeant, Mirrors, IsKept, MeantRecords,
      MeantReplica, SourceAfter;
    RecordsAreKept(schema, h);
    EmptyFits(schema);
    KeptDelivery(server, schema, map[], MeantRecords(schema, h), delivered);
    MeantReplicaIsConsumed(server, schema, h);
    IntendedPipelineConverges(server, schema, h);
  }

  // ----- Updates that change the key -----

  /**
    An update that changes the key is routed by its new key, away from its row's insertion; coming
    first it finds nothing, and the row stays as it was inserted.
   */
  lemma ChangedKeyBreaksOrder(server: Server, schema: Schema, a: MeantChange, b: MeantChange)
    requires GoodSchema(schema) && OfMeant(schema, a) && OfMeant(schema, b) && a.change.id == b.change.id
    requires a.change.operation.Added? && b.change.operation.Changed? && '\'' !in KeyValue(schema, a.change)
    requires b.before[KeyColumn(schema[b.change.id])] == KeyValue(schema, a.change) != KeyValue(schema, b.change)
    ensures var x, y := MeantRecord(schema, a), MeantRecord(schema, b);
            !Ordered(x, y) && ConsumedAsMeant(server, map[], [x, y]) != ConsumedAsMeant(server, map[], [y, x])
  {
    var x, y, r := MeantRecord(schema, a), MeantRecord(schema, b), schema[a.change.id];
    var row, newer := ReplicaRow(r, a.change.values), ReplicaRow(r, b.change.values);
    hide *;
    KeyChanges(schema, a, b);
    MeantOrdered(schema, a, b);
    InsertThenUpdate(server, schema, a, b);
    ConsumedTwoAsMeant(server, map[], x, y);
    ConsumedTwoAsMeant(server, map[], y, x);
    OneRowEach(r, newer, row);
  }

  lemma OneRowEach(r: Relation, x: SqlRow, y: SqlRow)
    ensures WithRows(map[], r, multiset{x}) == WithRows(map[], r, multiset{y}) ==> x == y
  {
    assert RowsOf(WithRows(map[], r, multiset{x}), r) == multiset{x};
    assert x in multiset{x};
  }

  lemma KeyChanges(schema: Schema, a: MeantChange, b: MeantChange)
    requires GoodSchema(schema) && OfMeant(schema, a) && OfMeant(schema, b) && a.change.id == b.change.id
    requires KeyValue(schema, a.change) != KeyValue(schema, b.change)
    ensures var r := schema[a.change.id];
            && ReplicaRow(r, a.change.values) != ReplicaRow(r, b.change.values)
            && ReplicaRow(r, a.change.values) + ReplicaRow(r, b.change.values) == ReplicaRow(r, b.change.values)
            && Matches(ReplicaRow(r, a.change.values), r.columns[KeyColumn(r)].name, KeyValue(schema, a.change))
  {
    RowMatchesItsKey(schema, a.change, KeyValue(schema, a.change));
    RowMatchesItsKey(schema, b.change, KeyValue(schema, a.change));
    hide GoodSchema, KeyValue, KeyColumn, Literal, Matches;
  }

  lemma InsertThenUpdate(server: Server, schema: Schema, a: MeantChange, b: MeantChange)
    requires GoodSchema(schema) && OfMeant(schema, a) && OfMeant(schema, b) && a.change.id == b.change.id
    requires a.change.operation.Added? && b.change.operation.Changed? && '\'' !in KeyValue(schema, a.change)
    requires b.before[KeyColumn(schema[b.change.id])] == KeyValue(schema, a.change) != KeyValue(schema, b.change)
    ensures var r, x, y := schema[a.change.id], MeantRecord(schema, a), MeantRecord(schema, b);
            && MeantWritten(server, map[], x) == WithRows(map[], r, multiset{ReplicaRow(r, a.change.values)})
            && MeantWritten(server, map[], y) == map[]
            && MeantWritten(server, MeantWritten(server, map[], x), y)
                == WithRows(map[], r, multiset{ReplicaRow(r, b.change.values)})
  {
    var r := schema[a.change.id];
    var row, newer, column := ReplicaRow(r, a.change.values), ReplicaRow(r, b.change.values),
        r.columns[KeyColumn(r)].name;
    hide *;
    KeyChanges(schema, a, b);
    InsertMeant(server, schema, a);
    OneRowFits(schema, a.change.id, row);
    UpdateIsFor(server, schema, b, map[]);
    UpdateIsFor(server, schema, b, WithRows(map[], r, multiset{row}));
    OneRowUpdated(r, row, column, KeyValue(schema, a.change), newer);
  }

  lemma InsertMeant(server: Server, schema: Schema, a: MeantChange)
    requires GoodSchema(schema) && OfMeant(schema, a) && a.change.operation.Added?
    ensures var r := schema[a.change.id];
            MeantWritten(server, map[], MeantRecord(schema, a))
                == WithRows(map[], r, multiset{ReplicaRow(r, a.change.values)})
  {
    hide GoodSchema, MeantWritten, Written, RecordOf, WithRows;
    NotAnUpdate(server, schema, a.change, map[]);
    InsertedIntoNothing(server, schema, a.change);
  }

  lemma OneRowFits(schema: Schema, id: uint32, row: SqlRow)
    requires GoodSchema(schema) && id in schema
    ensures var r := schema[id]; PlainRelation(r) && Fits(map[], r) && Fits(WithRows(map[], r, multiset{row}), r)
  {
    FoldedTwice(schema[id].name);
  }

  lemma OneRowUpdated(r: Relation, row: SqlRow, column: string, key: string, newer: SqlRow)
    requires Matches(row, column, key) && row + newer == newer
    ensures UpdatedTable(WithRows(map[], r, multiset{row}), r, column, key, newer)
        == WithRows(map[], r, multiset{newer})
    ensures UpdatedTable(map[], r, column, key, newer) == map[]
  {
    WithRowsIs(map[], r, multiset{row});
    assert Updated(multiset{row}, column, key, newer) == multiset{newer} by {
      assert multiset{} + multiset{row} == multiset{row} && multiset{} + multiset{newer} == multiset{newer};
      hide Updated, Matches;
      OneUpdated(multiset{}, row, column, key, newer);
    }
    hide Updated, Matches, Folded, TextColumns;
    assert RowsOf(WithRows(map[], r, multiset{row}), r) == multiset{row};
  }

  lemma UpdateIsFor(server: Server, schema: Schema, b: MeantChange, db: Database)
    requires OfMeant(schema, b) && b.change.operation.Changed?
    requires PlainRelation(schema[b.change.id]) && Fits(db, schema[b.change.id])
    requires '\'' !in b.before[KeyColumn(schema[b.change.id])]
    ensures var r := schema[b.change.id];
            MeantWritten(server, db, MeantRecord(schema, b))
            == UpdatedTable(db, r, r.columns[KeyColumn(r)].name, b.before[KeyColumn(r)], ReplicaRow(r, b.change.values))
  {
    hide PlainRelation, Fits, Applies, UpdatedTable, UpdateChange, KeyColumn, ReplicaRow, ToMessage;
    MeantUpdateEffect(server, db, schema[b.change.id], b.before, b.change.values);
  }

  lemma ConsumedTwoAsMeant(server: Server, db: Database, x: Keyed, y: Keyed)
    ensures ConsumedAsMeant(server, db, [x, y]) == MeantWritten(server, MeantWritten(server, db, x), y)
  {
    assert [x, y][..1] == [x];
    MeantOne(server, db, x);
    hide Applies;
  }
}
