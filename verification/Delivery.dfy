/**
  What the replica makes of a delivery that has every key's log intact but interleaves the logs in
  its own way.
 */
module Delivery {
  import opened Bytes
  import opened PgOutput
  import opened WireFormat
  import opened Changes
  import opened Effects
  import opened History
  import opened Identifiers
  import opened Convergence
  import opened Logs
  import opened Replica
  import Sql
  import WriterSql

  // ----- Records that commute -----

  function Written(server: Server, db: Database, x: Keyed): Database {
    ApplyMessage(server, db, ToMessage(x.record)).db
  }

  lemma WrittenAppend(server: Server, db: Database, xs: seq<Keyed>, x: Keyed)
    ensures Consumed(server, db, xs + [x]) == Written(server, Consumed(server, db, xs), x)
  {
    hide ApplyMessage, ToMessage, Consumed;
    ConsumedAppend(server, db, xs, x);
  }

  /** The writer's work as steps on the replica, and the replicas they are looked at in. */
  function Writes(server: Server): (Database, Keyed) -> Database {
    (db: Database, x: Keyed) => Written(server, db, x)
  }

  function Fitting(schema: Schema): Database -> bool {
    (db: Database) => FitsAll(schema, db)
  }

  lemma {:induction false} ConsumedIsFold(server: Server, db: Database, xs: seq<Keyed>)
    ensures Consumed(server, db, xs) == Fold(Writes(server), db, xs)
    decreases |xs|
  {
    hide Consumed, Written;
    if xs == [] {
      NothingConsumed(server, db);
    } else {
      var front, x := xs[..|xs| - 1], xs[|xs| - 1];
      assert xs == front + [x];
      ConsumedIsFold(server, db, front);
      WrittenAppend(server, db, front, x);
    }
  }

  lemma ConsumedTwo(server: Server, db: Database, x: Keyed, y: Keyed)
    ensures Consumed(server, db, [x, y]) == Written(server, Written(server, db, x), y)
  {
    hide Written;
    WrittenAppend(server, db, [], x);
    WrittenAppend(server, db, [x], y);
    assert [] + [x] == [x] && [x] + [y] == [x, y];
  }

  // ----- The records of a schema -----

  datatype Operation = Added | Changed | Removed

  /** A record by what it was made of: a full tuple of rendered values of one of the schema's relations. */
  datatype RowChange = RowChange(operation: Operation, id: uint32, values: seq<bytes>)

  predicate OfSchema(schema: Schema, c: RowChange) {
    c.id in schema && |c.values| == |schema[c.id].columns|
  }

  function RecordOf(schema: Schema, c: RowChange): Keyed
    requires OfSchema(schema, c)
  {
    match c.operation
    case Added => InsertChange(schema[c.id], c.values)
    case Changed => UpdateChange(schema[c.id], [], c.values)
    case Removed => DeleteChange(schema[c.id], c.values)
  }

  /** The rendered value of the key column. */
  function KeyValue(schema: Schema, c: RowChange): bytes
    requires OfSchema(schema, c) && schema[c.id].columns != []
  {
    c.values[KeyColumn(schema[c.id])]
  }

  /** The record does the same on every server. */
  ghost predicate RecordDecided(server: Server, schema: Schema, c: RowChange)
    requires OfSchema(schema, c) && schema[c.id].columns != []
  {
    c.operation.Removed? ==> Decided(server, KeyValue(schema, c))
  }

  lemma RecordIsRouted(schema: Schema, c: RowChange)
    requires OfSchema(schema, c) && GoodSchema(schema)
    ensures RecordOf(schema, c).key == WriteString(JString(KeyValue(schema, c)))
  {
    RowIsRoutedByKey(schema[c.id], c.values);
  }

  /** The rows of the record's table afterwards. */
  function RowsWritten(schema: Schema, c: RowChange, rows: multiset<SqlRow>): multiset<SqlRow>
    requires OfSchema(schema, c) && schema[c.id].columns != []
  {
    var r := schema[c.id];
    match c.operation
    case Added => rows + multiset{ReplicaRow(r, c.values)}
    case Changed => rows
    case Removed => Surviving(rows, r.columns[KeyColumn(r)].name, KeyValue(schema, c))
  }

  /** A table's rows replaced; without the right to create it, only if it exists. */
  function Put(db: Database, r: Relation, rows: multiset<SqlRow>, create: bool): Database {
    if create || Folded(r.name) in db then WithRows(db, r, rows) else db
  }

  lemma RecordEffect(server: Server, schema: Schema, c: RowChange, db: Database)
    requires OfSchema(schema, c) && PlainRelation(schema[c.id]) && Fits(db, schema[c.id])
        && RecordDecided(server, schema, c)
    ensures var r := schema[c.id];
            Written(server, db, RecordOf(schema, c))
                == Put(db, r, RowsWritten(schema, c, RowsOf(db, r)), c.operation.Added?)
  {
    var r := schema[c.id];
    hide ApplyMessage, ToMessage, InsertChange, UpdateChange, DeleteChange, PlainRelation, Surviving, ReplicaRow;
    match c.operation
    case Added => InsertEffect(server, db, r, c.values);
    case Changed =>
      UpdateEffect(server, db, r, [], c.values);
      if Folded(r.name) in db {
        assert WithRows(db, r, RowsOf(db, r)) == db;
      }
    case Removed => DeleteEffect(server, db, r, c.values);
  }

  lemma NothingWritten(schema: Schema, c: RowChange)
    requires OfSchema(schema, c) && schema[c.id].columns != [] && !c.operation.Added?
    ensures RowsWritten(schema, c, multiset{}) == multiset{}
  {
    var r := schema[c.id];
    assert forall column, text :: |Without(multiset{}, column, text)| == 0;
  }

  /** What a record does to the replica: it touches its own table only, and only an INSERT creates it. */
  lemma RecordIsWritten(server: Server, schema: Schema, c: RowChange, db: Database)
    requires OfSchema(schema, c) && GoodSchema(schema) && FitsAll(schema, db) && RecordDecided(server, schema, c)
    ensures var r, db' := schema[c.id], Written(server, db, RecordOf(schema, c));
            && db' == Put(db, r, RowsWritten(schema, c, RowsOf(db, r)), c.operation.Added?)
            && FitsAll(schema, db')
            && RowsOf(db', r) == RowsWritten(schema, c, RowsOf(db, r))
  {
    assert PlainRelation(schema[c.id]) && Fits(db, schema[c.id]);
    RecordEffect(server, schema, c, db);
    TableWritten(schema, c.id, db, RowsWritten(schema, c, RowsOf(db, schema[c.id])));
    if !c.operation.Added? {
      NothingWritten(schema, c);
    }
    hide GoodSchema, FitsAll, Written, RecordOf, RowsWritten, WithRows, Fits, PlainRelation, Folded;
  }

  /** A DELETE whose key value reads as the key of another, inserted row of the same table. */
  predicate Crosses(schema: Schema, a: RowChange, b: RowChange)
    requires OfSchema(schema, a) && OfSchema(schema, b) && schema[a.id].columns != [] && schema[b.id].columns != []
  {
    && a.operation.Added? && b.operation.Removed? && a.id == b.id
    && KeyValue(schema, b) == Sql.Doubled('\'', KeyValue(schema, a))
  }

  lemma RowMatchesItsKey(schema: Schema, c: RowChange, key: string)
    requires GoodSchema(schema) && OfSchema(schema, c)
    ensures schema[c.id].columns != []
    ensures Matches(ReplicaRow(schema[c.id], c.values), schema[c.id].columns[KeyColumn(schema[c.id])].name, key)
       <==> KeyValue(schema, c) == key
  {
    var r := schema[c.id];
    assert r.columns[KeyColumn(r)] in r.columns;
    RowMembers(r, c.values);
  }

  /** An inserted row is struck by exactly the deletions of its key value. */
  lemma RowIsStruck(schema: Schema, a: RowChange, b: RowChange, rows: multiset<SqlRow>)
    requires OfSchema(schema, a) && OfSchema(schema, b) && GoodSchema(schema)
    requires a.operation.Added? && b.operation.Removed? && a.id == b.id
    ensures RowsWritten(schema, b, RowsWritten(schema, a, rows)) == RowsWritten(schema, a, RowsWritten(schema, b, rows))
       <==> !Crosses(schema, a, b)
  {
    var r := schema[a.id];
    RowMatchesItsKey(schema, a, "");
    hide GoodSchema, ReplicaRow, KeyValue, Struck, PlainRelation, Matches, Without, KeyColumn;
    StruckIsUndoubled(KeyValue(schema, b), KeyValue(schema, a));
    match Struck(KeyValue(schema, b))
    case None =>
    case Some(text) =>
      RowMatchesItsKey(schema, a, text);
      WithoutAdded(rows, ReplicaRow(r, a.values), r.columns[KeyColumn(r)].name, text);
  }

  lemma WithoutAdded(rows: multiset<SqlRow>, row: SqlRow, column: string, text: string)
    ensures Without(rows + multiset{row}, column, text) == Without(rows, column, text) + multiset{row}
        <==> !Matches(row, column, text)
  {
    var both, one := Without(rows + multiset{row}, column, text), Without(rows, column, text) + multiset{row};
    if Matches(row, column, text) {
      assert both[row] == 0 && one[row] == 1;
    } else {
      assert forall x :: both[x] == one[x];
    }
  }

  lemma WithoutTwice(rows: multiset<SqlRow>, column: string, a: string, b: string)
    ensures Without(Without(rows, column, a), column, b) == Without(Without(rows, column, b), column, a)
  {
    var ab, ba := Without(Without(rows, column, a), column, b), Without(Without(rows, column, b), column, a);
    assert forall x :: ab[x] == ba[x];
  }

  lemma RemovalsCommute(schema: Schema, a: RowChange, b: RowChange, rows: multiset<SqlRow>)
    requires OfSchema(schema, a) && OfSchema(schema, b) && schema[a.id].columns != [] && a.id == b.id
    requires a.operation.Removed? && b.operation.Removed?
    ensures RowsWritten(schema, b, RowsWritten(schema, a, rows)) == RowsWritten(schema, a, RowsWritten(schema, b, rows))
  {
    var column := schema[a.id].columns[KeyColumn(schema[a.id])].name;
    var s, t := Struck(KeyValue(schema, a)), Struck(KeyValue(schema, b));
    hide KeyValue, KeyColumn, Struck, Without;
    if s.Some? && t.Some? {
      WithoutTwice(rows, column, s.value, t.value);
    }
  }

  lemma RowsCommute(schema: Schema, a: RowChange, b: RowChange, rows: multiset<SqlRow>)
    requires OfSchema(schema, a) && OfSchema(schema, b) && GoodSchema(schema) && a.id == b.id
    ensures RowsWritten(schema, b, RowsWritten(schema, a, rows)) == RowsWritten(schema, a, RowsWritten(schema, b, rows))
       <==> !Crosses(schema, a, b) && !Crosses(schema, b, a)
  {
    assert schema[a.id].columns != [];
    hide ReplicaRow, KeyValue, PlainRelation, Surviving, GoodSchema;
    if a.operation.Added? && b.operation.Removed? {
      RowIsStruck(schema, a, b, rows);
    } else if b.operation.Added? && a.operation.Removed? {
      RowIsStruck(schema, b, a, rows);
    } else if a.operation.Removed? && b.operation.Removed? {
      RemovalsCommute(schema, a, b, rows);
    }
  }

  lemma WithRowsTwice(db: Database, r: Relation, x: multiset<SqlRow>, y: multiset<SqlRow>)
    ensures WithRows(WithRows(db, r, x), r, y) == WithRows(db, r, y)
  {
  }

  lemma PutTwice(db: Database, r: Relation, s: Relation, x: multiset<SqlRow>, y: multiset<SqlRow>, a: bool, b: bool)
    requires Folded(r.name) != Folded(s.name)
    ensures Put(Put(db, r, x, a), s, y, b) == Put(Put(db, s, y, b), r, x, a)
    ensures RowsOf(Put(db, r, x, a), s) == RowsOf(db, s)
  {
    hide Folded;
  }

  /** Two records of different tables, one after the other. */
  lemma BothWritten(server: Server, schema: Schema, a: RowChange, b: RowChange, db: Database)
    requires OfSchema(schema, a) && OfSchema(schema, b) && GoodSchema(schema) && a.id != b.id && FitsAll(schema, db)
    requires RecordDecided(server, schema, a) && RecordDecided(server, schema, b)
    ensures schema[a.id].columns != [] && schema[b.id].columns != []
    ensures var r, s := schema[a.id], schema[b.id];
            && Folded(r.name) != Folded(s.name)
            && Written(server, Written(server, db, RecordOf(schema, a)), RecordOf(schema, b))
               == Put(Put(db, r, RowsWritten(schema, a, RowsOf(db, r)), a.operation.Added?),
                      s, RowsWritten(schema, b, RowsOf(db, s)), b.operation.Added?)
  {
    hide Folded, Written, RowsWritten, FitsAll, RecordOf, Put, RowsOf;
    var r, s := schema[a.id], schema[b.id];
    assert PlainRelation(r) && PlainRelation(s);
    assert Folded(r.name) != Folded(s.name);
    hide GoodSchema, PlainRelation;
    RecordIsWritten(server, schema, a, db);
    RecordIsWritten(server, schema, b, Written(server, db, RecordOf(schema, a)));
    PutTwice(db, r, s, RowsWritten(schema, a, RowsOf(db, r)), RowsWritten(schema, b, RowsOf(db, s)), a.operation.Added?,
        b.operation.Added?);
  }

  /** Records of different tables never get in each other's way. */
  lemma TablesCommute(server: Server, schema: Schema, a: RowChange, b: RowChange, db: Database)
    requires OfSchema(schema, a) && OfSchema(schema, b) && GoodSchema(schema) && a.id != b.id && FitsAll(schema, db)
    requires RecordDecided(server, schema, a) && RecordDecided(server, schema, b)
    ensures var x, y := RecordOf(schema, a), RecordOf(schema, b);
            Written(server, Written(server, db, x), y) == Written(server, Written(server, db, y), x)
  {
    var r, s := schema[a.id], schema[b.id];
    hide *;
    BothWritten(server, schema, a, b, db);
    BothWritten(server, schema, b, a, db);
    PutTwice(db, r, s, RowsWritten(schema, a, RowsOf(db, r)), RowsWritten(schema, b, RowsOf(db, s)), a.operation.Added?,
        b.operation.Added?);
  }

  lemma RowRecordsCommute(server: Server, schema: Schema, a: RowChange, b: RowChange, db: Database)
    requires OfSchema(schema, a) && OfSchema(schema, b) && GoodSchema(schema) && a.id == b.id && FitsAll(schema, db)
    requires RecordDecided(server, schema, a) && RecordDecided(server, schema, b)
    ensures var x, y := RecordOf(schema, a), RecordOf(schema, b);
            Written(server, Written(server, db, x), y) == Written(server, Written(server, db, y), x)
            <==> !Crosses(schema, a, b) && !Crosses(schema, b, a)
  {
    var x, y, r := RecordOf(schema, a), RecordOf(schema, b), schema[a.id];
    assert r.columns != [];
    RecordIsWritten(server, schema, a, db);
    RecordIsWritten(server, schema, b, db);
    RecordIsWritten(server, schema, b, Written(server, db, x));
    RecordIsWritten(server, schema, a, Written(server, db, y));
    RowsCommute(schema, a, b, RowsOf(db, r));
    WithRowsTwice(db, r, RowsWritten(schema, a, RowsOf(db, r)), RowsOf(Written(server, Written(server, db, x), y), r));
    WithRowsTwice(db, r, RowsWritten(schema, b, RowsOf(db, r)), RowsOf(Written(server, Written(server, db, y), x), r));
    hide Written, RowsWritten, FitsAll, GoodSchema, PlainRelation, RecordOf, Folded;
  }

  function RecordsOf(schema: Schema, pool: set<RowChange>): set<Keyed>
    requires forall c | c in pool :: OfSchema(schema, c)
  {
    set c | c in pool :: RecordOf(schema, c)
  }

  lemma EmptyFits(schema: Schema)
    ensures FitsAll(schema, map[])
  {
  }

  lemma HasColumns(schema: Schema, c: RowChange)
    requires OfSchema(schema, c) && GoodSchema(schema)
    ensures schema[c.id].columns != []
  {
  }

  lemma PairInState(server: Server, schema: Schema, a: RowChange, b: RowChange, db: Database)
    requires OfSchema(schema, a) && OfSchema(schema, b) && GoodSchema(schema) && FitsAll(schema, db)
    requires RecordDecided(server, schema, a) && RecordDecided(server, schema, b)
    ensures var x, y := RecordOf(schema, a), RecordOf(schema, b);
            Written(server, Written(server, db, x), y) == Written(server, Written(server, db, y), x)
            <==> !Crosses(schema, a, b) && !Crosses(schema, b, a)
  {
    HasColumns(schema, a);
    HasColumns(schema, b);
    hide *;
    if a.id == b.id {
      RowRecordsCommute(server, schema, a, b, db);
    } else {
      TablesCommute(server, schema, a, b, db);
      OtherTablesUncrossed(schema, a, b);
    }
  }

  lemma OtherTablesUncrossed(schema: Schema, a: RowChange, b: RowChange)
    requires OfSchema(schema, a) && OfSchema(schema, b) && schema[a.id].columns != [] && schema[b.id].columns != []
    requires a.id != b.id
    ensures !Crosses(schema, a, b) && !Crosses(schema, b, a)
  {
  }

  lemma CommuteInAll(server: Server, schema: Schema, x: Keyed, y: Keyed, alike: bool)
    requires forall db: Database | FitsAll(schema, db) ::
               Written(server, Written(server, db, x), y) == Written(server, Written(server, db, y), x) <==> alike
    ensures Commute(Writes(server), Fitting(schema), x, y) <==> alike
  {
    EmptyFits(schema);
    hide FitsAll, Written;
    var step, none: Database := Writes(server), map[];
    assert FitsAll(schema, none) && Fitting(schema)(none);
    if Commute(step, Fitting(schema), x, y) {
      assert step(step(none, x), y) == step(step(none, y), x);
    }
  }

  lemma PairCommutes(server: Server, schema: Schema, a: RowChange, b: RowChange)
    requires OfSchema(schema, a) && OfSchema(schema, b) && GoodSchema(schema)
    requires RecordDecided(server, schema, a) && RecordDecided(server, schema, b)
    ensures Commute(Writes(server), Fitting(schema), RecordOf(schema, a), RecordOf(schema, b))
       <==> !Crosses(schema, a, b) && !Crosses(schema, b, a)
  {
    HasColumns(schema, a);
    HasColumns(schema, b);
    hide *;
    var x, y := RecordOf(schema, a), RecordOf(schema, b);
    var alike := !Crosses(schema, a, b) && !Crosses(schema, b, a);
    forall db: Database | FitsAll(schema, db)
      ensures Written(server, Written(server, db, x), y) == Written(server, Written(server, db, y), x) <==> alike
    {
      PairInState(server, schema, a, b, db);
    }
    CommuteInAll(server, schema, x, y, alike);
  }

  lemma RecordKeepsFitting(server: Server, schema: Schema, c: RowChange)
    requires OfSchema(schema, c) && GoodSchema(schema) && RecordDecided(server, schema, c)
    ensures Keeps(Writes(server), Fitting(schema), RecordOf(schema, c))
  {
    forall db: Database | FitsAll(schema, db)
      ensures FitsAll(schema, Written(server, db, RecordOf(schema, c)))
    {
      RecordIsWritten(server, schema, c, db);
    }
  }

  lemma RoutedAlike(schema: Schema, a: RowChange, b: RowChange)
    requires OfSchema(schema, a) && OfSchema(schema, b) && GoodSchema(schema)
    requires schema[a.id].columns != [] && schema[b.id].columns != []
    ensures RecordOf(schema, a).key == RecordOf(schema, b).key <==> KeyValue(schema, a) == KeyValue(schema, b)
  {
    RecordIsRouted(schema, a);
    RecordIsRouted(schema, b);
    WriteStringInjective(KeyValue(schema, a), KeyValue(schema, b));
  }

  /** Keyed JSON text is never the empty key. */
  lemma RoutedIsKeyed(schema: Schema, c: RowChange)
    requires OfSchema(schema, c) && GoodSchema(schema)
    ensures RecordOf(schema, c).key != ""
  {
    RecordIsRouted(schema, c);
  }

  lemma PairIsOrdered(schema: Schema, a: RowChange, b: RowChange)
    requires OfSchema(schema, a) && OfSchema(schema, b) && GoodSchema(schema)
    requires schema[a.id].columns != [] && schema[b.id].columns != []
    ensures Ordered(RecordOf(schema, a), RecordOf(schema, b)) <==> KeyValue(schema, a) == KeyValue(schema, b)
  {
    hide GoodSchema, RecordOf, KeyValue;
    RoutedAlike(schema, a, b);
    RoutedIsKeyed(schema, a);
  }

  /**
    Order independence. Delivering the records of any full rows in any order that keeps the order of
    equal routing keys gives the same replica exactly when no DELETE has a key value that is, with
    its single quotes doubled, the different key value of an INSERT into the same table. The records
    must do the same on every server, or the server nothing with texts that are no statements.
   */
  lemma {:induction false} IndependentExactlyIfUncrossed(server: Server, schema: Schema, pool: set<RowChange>)
    requires GoodSchema(schema) && forall c | c in pool :: OfSchema(schema, c) && schema[c.id].columns != []
    requires forall c | c in pool :: RecordDecided(server, schema, c)
    ensures OrderIndependent(Writes(server), Fitting(schema), RecordsOf(schema, pool))
       <==> forall a, b | a in pool && b in pool && Crosses(schema, a, b) :: KeyValue(schema, a) == KeyValue(schema, b)
  {
    hide GoodSchema, OrderIndependent, Keeps, Commute, Ordered, Crosses, KeyValue, RecordOf, RecordDecided, Writes,
      Fitting;
    var records := RecordsOf(schema, pool);
    forall x | x in records
      ensures Keeps(Writes(server), Fitting(schema), x)
    {
      var c :| c in pool && x == RecordOf(schema, c);
      RecordKeepsFitting(server, schema, c);
    }
    IndependentExactlyIfCommuting(Writes(server), Fitting(schema), records);
    forall a, b | a in pool && b in pool
      ensures Commute(Writes(server), Fitting(schema), RecordOf(schema, a), RecordOf(schema, b))
         <==> !Crosses(schema, a, b) && !Crosses(schema, b, a)
      ensures Ordered(RecordOf(schema, a), RecordOf(schema, b)) <==> KeyValue(schema, a) == KeyValue(schema, b)
    {
      PairCommutes(server, schema, a, b);
      PairIsOrdered(schema, a, b);
    }
  }

  /** Two crossing records, delivered in both orders to an empty replica. */
  lemma CrossedOrders(server: Server, schema: Schema, a: RowChange, b: RowChange)
    requires OfSchema(schema, a) && OfSchema(schema, b) && GoodSchema(schema)
    requires schema[a.id].columns != [] && schema[b.id].columns != [] && Crosses(schema, a, b)
    ensures var x, y := RecordOf(schema, a), RecordOf(schema, b);
            Consumed(server, map[], [x, y]) != Consumed(server, map[], [y, x])
  {
    var x, y := RecordOf(schema, a), RecordOf(schema, b);
    StruckIsUndoubled(KeyValue(schema, b), KeyValue(schema, a));
    StruckStaysInside(KeyValue(schema, b));
    hide Consumed, Written, RecordOf, GoodSchema, FitsAll, KeyValue;
    EmptyFits(schema);
    RowRecordsCommute(server, schema, a, b, map[]);
    ConsumedTwo(server, map[], x, y);
    ConsumedTwo(server, map[], y, x);
  }

  // ----- Keys that break out of their literal -----

  function Emptied(db: Database): Database {
    map name | name in db :: Table(db[name].types, multiset{})
  }

  /** A server that takes every other text for a DELETE of all rows. */
  const EMPTYING: Server := (db: Database, text: string) => Executed(Emptied(db), true)

  lemma RemovalIsDelete(server: Server, schema: Schema, b: RowChange, db: Database)
    requires OfSchema(schema, b) && b.operation.Removed?
    ensures Written(server, db, RecordOf(schema, b))
        == ApplyMessage(server, db, ToMessage(DeleteChange(schema[b.id], b.values).record)).db
  {
    hide ApplyMessage, ToMessage, DeleteChange;
  }

  lemma IsWellNamed(schema: Schema, id: uint32)
    requires GoodSchema(schema) && id in schema
    ensures WellNamed(schema[id])
  {
    hide WellNamed;
  }

  /** The record of a key that breaks out is left to the server. */
  lemma BrokenRecordIsLeft(server: Server, schema: Schema, b: RowChange, text: string, rest: string, db: Database)
    requires GoodSchema(schema) && OfSchema(schema, b) && b.operation.Removed? && schema[b.id].columns != []
    requires BreaksOut(KeyValue(schema, b), text, rest) && rest[0] != ','
    ensures var r := schema[b.id];
            Written(server, db, RecordOf(schema, b))
            == server(db, WriterSql.DeleteText(r.name, r.columns[KeyColumn(r)].name, KeyValue(schema, b))).db
  {
    IsWellNamed(schema, b.id);
    assert KeyValue(schema, b) == b.values[KeyColumn(schema[b.id])];
    hide *;
    RemovalIsDelete(server, schema, b, db);
    BrokenRemoval(server, db, schema[b.id], b.values, text, rest);
  }

  lemma BrokenRecordEmpties(schema: Schema, b: RowChange, text: string, rest: string, db: Database)
    requires GoodSchema(schema) && OfSchema(schema, b) && b.operation.Removed? && schema[b.id].columns != []
    requires BreaksOut(KeyValue(schema, b), text, rest) && rest[0] != ','
    ensures Written(EMPTYING, db, RecordOf(schema, b)) == Emptied(db)
  {
    hide GoodSchema, Written, RecordOf, BreaksOut, KeyValue, Emptied, KeyColumn, WriterSql.DeleteText;
    BrokenRecordIsLeft(EMPTYING, schema, b, text, rest, db);
  }

  lemma InsertedIntoNothing(server: Server, schema: Schema, a: RowChange)
    requires GoodSchema(schema) && OfSchema(schema, a) && a.operation.Added?
    ensures var r := schema[a.id];
            Written(server, map[], RecordOf(schema, a)) == WithRows(map[], r, multiset{ReplicaRow(r, a.values)})
  {
    var r := schema[a.id];
    assert PlainRelation(r) && Fits(map[], r);
    hide GoodSchema, PlainRelation, ApplyMessage, ToMessage, InsertChange, ReplicaRow;
    InsertEffect(server, map[], r, a.values);
    assert RowsOf(map[], r) + multiset{ReplicaRow(r, a.values)} == multiset{ReplicaRow(r, a.values)};
  }

  /**
    A removed key that breaks out of its literal has, on some server, an order to keep with every
    insertion, whichever table it is into.
   */
  lemma BrokenKeyMayBreakOrder(schema: Schema, a: RowChange, b: RowChange, text: string, rest: string)
    requires GoodSchema(schema) && OfSchema(schema, a) && OfSchema(schema, b)
    requires a.operation.Added? && b.operation.Removed? && schema[b.id].columns != []
    requires BreaksOut(KeyValue(schema, b), text, rest) && rest[0] != ','
    ensures var x, y := RecordOf(schema, a), RecordOf(schema, b);
            Consumed(EMPTYING, map[], [x, y]) != Consumed(EMPTYING, map[], [y, x])
  {
    var x, y, r := RecordOf(schema, a), RecordOf(schema, b), schema[a.id];
    var inserted := WithRows(map[], r, multiset{ReplicaRow(r, a.values)});
    hide GoodSchema, Consumed, Written, RecordOf, BreaksOut, KeyValue, ReplicaRow, WithRows, Emptied;
    InsertedIntoNothing(EMPTYING, schema, a);
    BrokenRecordEmpties(schema, b, text, rest, map[]);
    BrokenRecordEmpties(schema, b, text, rest, inserted);
    EmptiedDiffers(r, ReplicaRow(r, a.values));
    ConsumedTwo(EMPTYING, map[], x, y);
    ConsumedTwo(EMPTYING, map[], y, x);
  }

  lemma EmptiedDiffers(r: Relation, row: SqlRow)
    ensures Emptied(map[]) == map[]
    ensures var db := WithRows(map[], r, multiset{row}); Emptied(db) != db
  {
    var db := WithRows(map[], r, multiset{row});
    assert row in db[Folded(r.name)].rows && row !in Emptied(db)[Folded(r.name)].rows;
  }

  // ----- Deliveries of a history -----

  /** A record of a faithful change: one that deletes has a key value free of single quotes. */
  predicate PlainChange(schema: Schema, c: RowChange) {
    && OfSchema(schema, c) && schema[c.id].columns != []
    && (c.operation.Removed? ==> '\'' !in KeyValue(schema, c))
  }

  ghost predicate IsPlain(schema: Schema, x: Keyed) {
    exists c :: PlainChange(schema, c) && x == RecordOf(schema, c)
  }

  lemma PlainRecord(schema: Schema, c: RowChange, x: Keyed)
    requires PlainChange(schema, c) && x == RecordOf(schema, c)
    ensures IsPlain(schema, x)
  {
  }

  lemma ProducedIsPlain(schema: Schema, src: Source, c: Change)
    requires GoodSchema(schema) && WellTyped(schema, src) && CanHappen(schema, src, c) && Faithful(schema, src, c)
    ensures forall x | x in Produced(schema, src, c) :: IsPlain(schema, x)
  {
    hide IsPlain, InsertChange, UpdateChange, DeleteChange, RenderTuple, RemoveImage;
    match c
    case Add(id, row) =>
      PlainRecord(schema, RowChange(Added, id, RenderTuple(row)), InsertChange(schema[id], RenderTuple(row)));
    case Remove(id, at, full) =>
      var row := Rows(src, id)[at];
      assert row in src.tables[id] && IsRow(schema[id], row);
      var values := RenderTuple(RemoveImage(schema[id], row, full));
      ImageKeepsKey(schema[id], row, full);
      PlainRecord(schema, RowChange(Removed, id, values), DeleteChange(schema[id], values));
    case Replace(id, _, _, before, after) =>
      var values := RenderTuple(FirstTuple(before, after));
      PlainRecord(schema, RowChange(Changed, id, values), UpdateChange(schema[id], [], values));
    case _ =>
  }

  lemma {:induction false} RecordsArePlain(schema: Schema, h: seq<Change>)
    requires GoodSchema(schema) && Valid(schema, h) && AllFaithful(schema, h)
    ensures forall x | x in Records(schema, h) :: IsPlain(schema, x)
    decreases |h|
  {
    hide GoodSchema, CanHappen, Faithful, Produced, IsPlain;
    if h != [] {
      var front := h[..|h| - 1];
      FaithfulPrefix(schema, h, |front|);
      RecordsArePlain(schema, front);
      HistoryWellTyped(schema, front);
      assert FaithfulAt(schema, h, |front|);
      ProducedIsPlain(schema, SourceAfter(front), h[|h| - 1]);
    }
  }

  /** A key value free of quotes is the doubling of itself only. */
  lemma PlainIsUncrossed(schema: Schema, a: RowChange, b: RowChange)
    requires PlainChange(schema, a) && PlainChange(schema, b) && KeyValue(schema, a) != KeyValue(schema, b)
    ensures !Crosses(schema, a, b)
  {
    if Crosses(schema, a, b) {
      StruckByItself(KeyValue(schema, b));
      StruckIsUndoubled(KeyValue(schema, b), KeyValue(schema, a));
    }
  }

  lemma PlainIsDecided(server: Server, schema: Schema, c: RowChange)
    requires PlainChange(schema, c)
    ensures RecordDecided(server, schema, c)
  {
    if c.operation.Removed? {
      StruckByItself(KeyValue(schema, c));
      StruckStaysInside(KeyValue(schema, c));
    }
    hide KeyValue, Struck, StaysInside;
  }

  lemma PlainRecordsCommute(server: Server, schema: Schema, x: Keyed, y: Keyed)
    requires GoodSchema(schema) && IsPlain(schema, x) && IsPlain(schema, y)
    ensures Keeps(Writes(server), Fitting(schema), x)
    ensures !Ordered(x, y) ==> Commute(Writes(server), Fitting(schema), x, y)
  {
    var a :| PlainChange(schema, a) && x == RecordOf(schema, a);
    var b :| PlainChange(schema, b) && y == RecordOf(schema, b);
    hide GoodSchema, Keeps, Commute, Ordered, Crosses, KeyValue, RecordOf, RecordDecided, Writes, Fitting;
    PlainIsDecided(server, schema, a);
    PlainIsDecided(server, schema, b);
    RecordKeepsFitting(server, schema, a);
    if !Ordered(x, y) {
      PairIsOrdered(schema, a, b);
      PlainIsUncrossed(schema, a, b);
      PlainIsUncrossed(schema, b, a);
      PairCommutes(server, schema, a, b);
    }
  }

  lemma PlainDelivery(server: Server, schema: Schema, db: Database, xs: seq<Keyed>, ys: seq<Keyed>)
    requires GoodSchema(schema) && FitsAll(schema, db) && SameLogs(xs, ys) && forall x | x in xs :: IsPlain(schema, x)
    ensures Consumed(server, db, xs) == Consumed(server, db, ys)
  {
    hide GoodSchema, SameLogs, Consumed, IsPlain, Keeps, Commute, Ordered, FitsAll, Writes, Fold;
    forall x, y | x in xs && y in xs
      ensures Keeps(Writes(server), Fitting(schema), x)
      ensures !Ordered(x, y) ==> Commute(Writes(server), Fitting(schema), x, y)
    {
      PlainRecordsCommute(server, schema, x, y);
    }
    SameLogsSameState(Writes(server), Fitting(schema), db, xs, ys);
    ConsumedIsFold(server, db, xs);
    ConsumedIsFold(server, db, ys);
  }

  /**
    Convergence under reordering. If every change of a history is faithful, the replica ends up
    mirroring the source however the logs of different keys are interleaved on the way.
   */
  lemma AnyDeliveryConverges(server: Server, schema: Schema, h: seq<Change>, delivered: seq<Keyed>)
    requires GoodSchema(schema) && Valid(schema, h) && AllFaithful(schema, h)
    requires SameLogs(Records(schema, h), delivered)
    ensures Consumed(server, map[], delivered) == ReplicaAfter(server, schema, h)
    ensures Mirrors(schema, SourceAfter(h), Consumed(server, map[], delivered))
  {
    hide GoodSchema, CanHappen, Faithful, Mirrors, SameLogs, Consumed, IsPlain, FitsAll;
    assert Consumed(server, map[], delivered) == ReplicaAfter(server, schema, h) by {
      RecordsArePlain(schema, h);
      EmptyFits(schema);
      PlainDelivery(server, schema, map[], Records(schema, h), delivered);
    }
    FaithfulMirrors(server, schema, h);
  }
}
