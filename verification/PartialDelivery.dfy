/**
  What the replica shows while a reordered delivery is still under way: for each key by itself, the
  source's rows at some moment of the history.
 */
module PartialDelivery {
  import opened Bytes
  import opened PgOutput
  import opened Changes
  import opened Effects
  import opened History
  import opened Convergence
  import opened Delivery
  import opened Logs
  import opened Replica
  import Identifiers

  /** The rows with a key. */
  function KeyRows(rows: multiset<SqlRow>, column: string, key: string): (r: multiset<SqlRow>)
    ensures forall row :: r[row] == if Matches(row, column, key) then rows[row] else 0
  {
    rows - Without(rows, column, key)
  }

  function KeyRowsOf(db: Database, r: Relation, key: string): multiset<SqlRow>
    requires r.columns != []
  {
    KeyRows(RowsOf(db, r), r.columns[KeyColumn(r)].name, key)
  }

  function Route(key: bytes): string {
    WriteString(JString(key))
  }

  lemma RouteIsNotEmpty(key: bytes)
    ensures Route(key) != ""
  {
  }

  /** The two replicas hold the same rows with a key, table by table. */
  ghost predicate SameUnder(schema: Schema, key: bytes, db: Database, db': Database)
    requires GoodSchema(schema)
  {
    forall id | id in schema :: KeyRowsOf(db, schema[id], key) == KeyRowsOf(db', schema[id], key)
  }

  lemma AddedKeyRows(rows: multiset<SqlRow>, row: SqlRow, column: string, key: string)
    ensures KeyRows(rows + multiset{row}, column, key)
         == KeyRows(rows, column, key) + if Matches(row, column, key) then multiset{row} else multiset{}
  {
    var a, b := KeyRows(rows + multiset{row}, column, key), KeyRows(rows, column, key);
    hide KeyRows;
    if Matches(row, column, key) {
      assert forall x :: a[x] == (b + multiset{row})[x];
    } else {
      assert forall x :: a[x] == b[x];
    }
    hide Matches;
  }

  lemma StruckKeyRows(rows: multiset<SqlRow>, column: string, struck: string, key: string)
    ensures KeyRows(Without(rows, column, struck), column, key)
         == if struck == key then multiset{} else KeyRows(rows, column, key)
  {
    var a, b := KeyRows(Without(rows, column, struck), column, key), KeyRows(rows, column, key);
    if struck == key {
      assert forall x :: a[x] == 0;
    } else {
      assert forall x :: a[x] == b[x];
    }
  }

  /** What a plain change makes of the rows with a key, in its own table. */
  function KeyRowsWritten(schema: Schema, c: RowChange, key: bytes, rows: multiset<SqlRow>): multiset<SqlRow>
    requires OfSchema(schema, c) && schema[c.id].columns != []
  {
    if c.operation.Changed? || KeyValue(schema, c) != key then rows
    else if c.operation.Added? then rows + multiset{ReplicaRow(schema[c.id], c.values)}
    else multiset{}
  }

  lemma AddedInTable(schema: Schema, c: RowChange, key: bytes, rows: multiset<SqlRow>)
    requires GoodSchema(schema) && PlainChange(schema, c) && c.operation.Added?
    ensures var column := schema[c.id].columns[KeyColumn(schema[c.id])].name;
            KeyRows(RowsWritten(schema, c, rows), column, key)
                == KeyRowsWritten(schema, c, key, KeyRows(rows, column, key))
  {
    hide GoodSchema, KeyRows, ReplicaRow, KeyValue, Matches, PlainRelation, KeyColumn;
    var r := schema[c.id];
    RowMatchesItsKey(schema, c, key);
    AddedKeyRows(rows, ReplicaRow(r, c.values), r.columns[KeyColumn(r)].name, key);
  }

  lemma RemovedInTable(schema: Schema, c: RowChange, key: bytes, rows: multiset<SqlRow>)
    requires PlainChange(schema, c) && c.operation.Removed?
    ensures var column := schema[c.id].columns[KeyColumn(schema[c.id])].name;
            KeyRows(RowsWritten(schema, c, rows), column, key)
                == KeyRowsWritten(schema, c, key, KeyRows(rows, column, key))
  {
    hide KeyRows, KeyValue, Without, Struck, KeyColumn;
    var r := schema[c.id];
    StruckByItself(KeyValue(schema, c));
    StruckKeyRows(rows, r.columns[KeyColumn(r)].name, KeyValue(schema, c), key);
  }

  lemma KeyRowsInTable(schema: Schema, c: RowChange, key: bytes, rows: multiset<SqlRow>)
    requires GoodSchema(schema) && PlainChange(schema, c)
    ensures var column := schema[c.id].columns[KeyColumn(schema[c.id])].name;
            KeyRows(RowsWritten(schema, c, rows), column, key)
                == KeyRowsWritten(schema, c, key, KeyRows(rows, column, key))
  {
    hide GoodSchema, KeyRows, KeyValue, KeyColumn, Surviving, ReplicaRow;
    match c.operation
    case Added => AddedInTable(schema, c, key, rows);
    case Changed =>
    case Removed => RemovedInTable(schema, c, key, rows);
  }

  lemma KeyRowsAfter(server: Server, schema: Schema, c: RowChange, db: Database, id: uint32, key: bytes)
    requires GoodSchema(schema) && PlainChange(schema, c) && FitsAll(schema, db) && id in schema
        && schema[id].columns != []
    ensures var db' := Written(server, db, RecordOf(schema, c));
            KeyRowsOf(db', schema[id], key)
            == if id == c.id
                then KeyRowsWritten(schema, c, key, KeyRowsOf(db, schema[id], key)) else KeyRowsOf(db, schema[id], key)
  {
    PlainIsDecided(server, schema, c);
    RecordIsWritten(server, schema, c, db);
    TableWritten(schema, c.id, db, RowsWritten(schema, c, RowsOf(db, schema[c.id])));
    KeyRowsInTable(schema, c, key, RowsOf(db, schema[c.id]));
    hide GoodSchema, FitsAll, Written, RecordOf, RowsWritten, WithRows, RowsOf, KeyRows, KeyRowsWritten, KeyColumn;
  }

  /** A plain change leaves the rows of other keys, and its own key's rows depend on nothing else. */
  lemma WrittenUnder(server: Server, schema: Schema, c: RowChange, db: Database, db': Database, key: bytes)
    requires GoodSchema(schema) && PlainChange(schema, c) && FitsAll(schema, db) && FitsAll(schema, db')
    requires SameUnder(schema, key, db, db')
    ensures KeyValue(schema, c) != key ==> SameUnder(schema, key, Written(server, db, RecordOf(schema, c)), db')
    ensures SameUnder(schema, key, Written(server, db, RecordOf(schema, c)), Written(server, db', RecordOf(schema, c)))
  {
    hide FitsAll, Written, RecordOf, KeyRowsOf, KeyValue;
    forall id | id in schema
      ensures schema[id].columns != []
    {
      assert PlainRelation(schema[id]);
    }
    hide GoodSchema;
    forall id | id in schema
      ensures KeyValue(schema, c) != key ==>
          KeyRowsOf(Written(server, db, RecordOf(schema, c)), schema[id], key) == KeyRowsOf(db', schema[id], key)
      ensures KeyRowsOf(Written(server, db, RecordOf(schema, c)), schema[id], key)
          == KeyRowsOf(Written(server, db', RecordOf(schema, c)), schema[id], key)
    {
      KeyRowsAfter(server, schema, c, db, id, key);
      KeyRowsAfter(server, schema, c, db', id, key);
    }
  }

  lemma PlainIsWritten(server: Server, schema: Schema, x: Keyed, db: Database, db': Database, key: bytes)
    requires GoodSchema(schema) && IsPlain(schema, x) && FitsAll(schema, db) && FitsAll(schema, db')
    requires SameUnder(schema, key, db, db')
    ensures x.key != Route(key) ==> SameUnder(schema, key, Written(server, db, x), db')
    ensures SameUnder(schema, key, Written(server, db, x), Written(server, db', x))
    ensures FitsAll(schema, Written(server, db, x)) && FitsAll(schema, Written(server, db', x))
  {
    hide GoodSchema, FitsAll, Written, SameUnder, RecordOf, KeyValue, WriteString;
    var c :| PlainChange(schema, c) && x == RecordOf(schema, c);
    assert OfSchema(schema, c) && schema[c.id].columns != [];
    assert x.key == Route(key) <==> KeyValue(schema, c) == key by {
      RecordIsRouted(schema, c);
      WriteStringInjective(KeyValue(schema, c), key);
    }
    hide *;
    PlainIsDecided(server, schema, c);
    WrittenUnder(server, schema, c, db, db', key);
    RecordIsWritten(server, schema, c, db);
    RecordIsWritten(server, schema, c, db');
  }

  /** The rows with a key are those the key's own log makes. */
  lemma {:induction false} LogDecides(server: Server, schema: Schema, xs: seq<Keyed>, key: bytes)
    requires GoodSchema(schema) && forall x | x in xs :: IsPlain(schema, x)
    ensures SameUnder(schema, key, Consumed(server, map[], xs), Consumed(server, map[], Log(xs, Route(key))))
    ensures FitsAll(schema, Consumed(server, map[], xs))
        && FitsAll(schema, Consumed(server, map[], Log(xs, Route(key))))
    decreases |xs|
  {
    hide GoodSchema, FitsAll, Consumed, Written, IsPlain, SameUnder, Log, Route;
    if xs == [] {
      NothingLogged(server, schema, key);
    } else {
      var front, x := xs[..|xs| - 1], xs[|xs| - 1];
      assert xs == front + [x] && x in xs;
      LogDecides(server, schema, front, key);
      var log := Log(front, Route(key));
      PlainIsWritten(server, schema, x, Consumed(server, map[], front), Consumed(server, map[], log), key);
      WrittenAppend(server, map[], front, x);
      WrittenAppend(server, map[], log, x);
      LogAppend(front, x, Route(key));
    }
  }

  lemma NothingLogged(server: Server, schema: Schema, key: bytes)
    requires GoodSchema(schema)
    ensures SameUnder(schema, key, Consumed(server, map[], []), Consumed(server, map[], Log([], Route(key))))
    ensures FitsAll(schema, Consumed(server, map[], []))
        && FitsAll(schema, Consumed(server, map[], Log([], Route(key))))
  {
    hide Consumed;
    NothingConsumed(server, map[]);
    EmptyFits(schema);
  }

  // ----- Parts of a delivery -----

  /** A change adds at most one record to a log, so a part of a log is the log of some prefix. */
  lemma {:induction false} LogOfSomePrefix(schema: Schema, h: seq<Change>, log: seq<Keyed>, key: string)
      returns (n: nat)
    requires Valid(schema, h) && log <= Log(Records(schema, h), key)
    ensures n <= |h| && Valid(schema, h[..n]) && log == Log(Records(schema, h[..n]), key)
    decreases |h|
  {
    hide CanHappen, Log;
    n := |h|;
    assert h[..n] == h;
    if log != Log(Records(schema, h), key) {
      if h == [] {
        EmptyLog(key);
        assert false;
      } else {
        var front := h[..|h| - 1];
        HistoryWellTyped(schema, front);
        var produced := Produced(schema, SourceAfter(front), h[|h| - 1]);
        LogConcat(Records(schema, front), produced, key);
        AtMostOneLogged(produced, key);
        n := LogOfSomePrefix(schema, front, log, key);
        assert front[..n] == h[..n];
      }
    }
  }

  /** The replica holds, with this key, what the source held after the first `n` changes. */
  ghost predicate ShowsKeyAfter(schema: Schema, h: seq<Change>, n: nat, key: bytes, db: Database)
    requires GoodSchema(schema) && n <= |h|
  {
    forall id | id in schema ::
      var r := schema[id];
      KeyRowsOf(db, r, key) == KeyRows(Rendered(r, Rows(SourceAfter(h[..n]), id)), r.columns[KeyColumn(r)].name, key)
  }

  lemma MirrorShows(schema: Schema, h: seq<Change>, n: nat, key: bytes, db: Database, db': Database)
    requires GoodSchema(schema) && n <= |h| && Mirrors(schema, SourceAfter(h[..n]), db')
    requires SameUnder(schema, key, db, db')
    ensures ShowsKeyAfter(schema, h, n, key, db)
  {
    hide GoodSchema, KeyRows, Rendered, Rows, RowsOf, SourceAfter;
  }

  /**
    Convergence key by key. Whatever part of a faithful history has been delivered, in whatever
    interleaving, the replica's rows with a key are the source's after some prefix of the history.
   */
  lemma PartialDeliveryShowsPrefixes(server: Server, schema: Schema, h: seq<Change>, delivered: seq<Keyed>, key: bytes)
      returns (n: nat)
    requires GoodSchema(schema) && Valid(schema, h) && AllFaithful(schema, h)
    requires IsPartOf(delivered, Records(schema, h))
    ensures n <= |h| && ShowsKeyAfter(schema, h, n, key, Consumed(server, map[], delivered))
  {
    hide GoodSchema, Valid, Records, Faithful, FaithfulAt, Mirrors, Consumed, IsPlain, FitsAll, SameUnder, Log, Route,
      ShowsKeyAfter, SourceAfter;
    RecordsArePlain(schema, h);
    PartMembers(delivered, Records(schema, h));
    assert Log(delivered, Route(key)) <= Log(Records(schema, h), Route(key)) by {
      RouteIsNotEmpty(key);
    }
    n := LogOfSomePrefix(schema, h, Log(delivered, Route(key)), Route(key));
    PrefixShows(server, schema, h, n, delivered, key);
  }

  lemma PrefixShows(server: Server, schema: Schema, h: seq<Change>, n: nat, delivered: seq<Keyed>, key: bytes)
    requires GoodSchema(schema) && Valid(schema, h) && AllFaithful(schema, h) && n <= |h| && Valid(schema, h[..n])
    requires forall x | x in delivered :: IsPlain(schema, x)
    requires Log(delivered, Route(key)) == Log(Records(schema, h[..n]), Route(key))
    ensures ShowsKeyAfter(schema, h, n, key, Consumed(server, map[], delivered))
  {
    hide GoodSchema, Valid, Records, Faithful, FaithfulAt, Mirrors, Consumed, IsPlain, FitsAll, Log, Route,
      ShowsKeyAfter, SourceAfter, KeyRowsOf;
    FaithfulPrefix(schema, h, n);
    RecordsArePlain(schema, h[..n]);
    LogDecides(server, schema, delivered, key);
    LogDecides(server, schema, Records(schema, h[..n]), key);
    FaithfulMirrors(server, schema, h[..n]);
    MirrorShows(schema, h, n, key, Consumed(server, map[], delivered), ReplicaAfter(server, schema, h[..n]));
  }
}
