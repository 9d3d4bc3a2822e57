/**
  The consumer: the replica as tables of rows, what a statement does to it, the database writer
  that builds the statements, and the consumer that feeds the writer through the queue.
 */
module Replica {
  import opened Bytes
  import opened Changes
  import opened Counted
  import opened Identifiers
  import opened Numerals
  import opened Sql
  import opened WriterSql
  import SafeQueue

  type SqlRow = map<string, Literal>

  /** The columns with their types as declared, and the rows. */
  datatype Table = Table(types: map<string, string>, rows: multiset<SqlRow>)

  /** The server's tables under their folded names. */
  type Database = map<string, Table>

  datatype Executed = Executed(db: Database, ok: bool)

  // ----- The server -----

  predicate Distinct(items: seq<Item>)
    requires forall i | i in items :: !i.Lit?
  {
    forall i, j | 0 <= i < j < |items| :: items[i].name != items[j].name
  }

  function ItemNames(items: seq<Item>): set<string>
    requires forall i | i in items :: !i.Lit?
  {
    set i | i in items :: i.name
  }

  /** The row a column list and a value list of the same length describe. */
  function Zip(names: seq<Item>, values: seq<Item>): SqlRow
    requires |names| == |values|
    requires forall i | i in names :: i.Name?
    requires forall i | i in values :: i.Lit?
  {
    if names == [] then map[] else Zip(names[1..], values[1..])[names[0].name := values[0].literal]
  }

  /** Columns that are not listed are NULL. */
  function Filled(columns: set<string>, row: SqlRow): SqlRow {
    map c | c in columns :: if c in row then row[c] else Bare("NULL")
  }

  predicate Matches(row: SqlRow, column: string, key: string) {
    column in row && row[column] == Quoted(key)
  }

  /** All rows but those whose column is the given text. */
  function Without(rows: multiset<SqlRow>, column: string, key: string): (r: multiset<SqlRow>)
    ensures forall row :: r[row] == if Matches(row, column, key) then 0 else rows[row]
    decreases |rows|
  {
    var doomed := set row | row in rows && Matches(row, column, key);
    assert forall row | Matches(row, column, key) && row in rows :: row in doomed;
    if doomed == {} then rows
    else
      assert |rows - multiset(doomed)| < |rows|;
      Without(rows - multiset(doomed), column, key)
  }

  // ----- Types -----

  predicate IsTypeName(word: string) {
    word in {"TEXT", "INTEGER", "BIGINT", "BOOLEAN"}
  }

  /** An integer from `-limit` up to, but not including, `limit`. */
  predicate IsInteger(l: Literal, limit: int) {
    l.Bare? && IntegerOf(l.word).Some? && -limit <= IntegerOf(l.word).value < limit
  }

  const LIMIT32 := 0x8000_0000
  const LIMIT64 := 0x8000_0000_0000_0000

  /** A column of the type takes the literal, and keeps it as it is. */
  predicate Suits(kind: string, l: Literal) {
    || l == Bare("NULL")
    || (kind == "TEXT" && l.Quoted?)
    || (kind == "INTEGER" && IsInteger(l, LIMIT32))
    || (kind == "BIGINT" && IsInteger(l, LIMIT64))
    || (kind == "BOOLEAN" && l in {Bare("TRUE"), Bare("FALSE")})
  }

  /** A column of the type takes the literal on no server: there is no cast, or no room. */
  predicate Clashes(kind: string, l: Literal) {
    && l.Bare?
    && ( || (kind == "BOOLEAN" && IntegerOf(l.word).Some?)
         || (kind in {"INTEGER", "BIGINT"} && l.word in {"TRUE", "FALSE"})
         || (kind == "INTEGER" && IntegerOf(l.word).Some? && !IsInteger(l, LIMIT32))
         || (kind == "BIGINT" && IntegerOf(l.word).Some? && !IsInteger(l, LIMIT64)))
  }

  predicate AllSuit(types: map<string, string>, row: SqlRow)
    requires row.Keys <= types.Keys
  {
    forall name | name in row :: Suits(types[name], row[name])
  }

  predicate SomeClash(types: map<string, string>, row: SqlRow)
    requires row.Keys <= types.Keys
  {
    exists name | name in row :: Clashes(types[name], row[name])
  }

  /** The columns of a CREATE TABLE with their types. */
  function Declared(defs: seq<Item>): map<string, string>
    requires forall i | i in defs :: i.Def?
  {
    if defs == [] then map[] else Declared(defs[1..])[defs[0].name := defs[0].word]
  }

  // ----- Statements -----

  /**
    The rest of the server: what it makes of a text that is none of the statements and not refused, of
    types other than these four, and of values it would have to convert. Nothing is known of it;
    whatever is proved holds for every such server.
   */
  type Server = (Database, string) -> Executed

  function ExecuteCreate(server: Server, db: Database, text: string, table: string, defs: seq<Item>): Executed {
    if (forall i | i in defs :: i.Def?) && Distinct(defs) then
      if table in db then Executed(db, true)
      else if forall i | i in defs :: IsTypeName(i.word)
          then Executed(db[table := Table(Declared(defs), multiset{})], true)
      else server(db, text)
    else Executed(db, false)
  }

  function ExecuteInsert(
      server: Server, db: Database, text: string, table: string, names: seq<Item>, values: seq<Item>): Executed
  {
    if && (forall i | i in names :: i.Name?) && (forall i | i in values :: i.Lit?) && Distinct(names)
       && |names| == |values| && table in db && Zip(names, values).Keys <= db[table].types.Keys then
      var types, row := db[table].types, Zip(names, values);
      if AllSuit(types, row) then
        Executed(db[table := db[table].(rows := db[table].rows + multiset{Filled(types.Keys, row)})], true)
      else if SomeClash(types, row) then Executed(db, false)
      else server(db, text)
    else Executed(db, false)
  }

  /** Of a condition on another type than TEXT, only the server knows what it makes. */
  function ExecuteDelete(server: Server, db: Database, text: string, table: string, condition: seq<Item>): Executed {
    if && |condition| == 1 && condition[0].Assign? && condition[0].literal.Quoted?
       && table in db && condition[0].name in db[table].types then
      if db[table].types[condition[0].name] == "TEXT" then
        var rows := Without(db[table].rows, condition[0].name, condition[0].literal.text);
        Executed(db[table := db[table].(rows := rows)], true)
      else server(db, text)
    else Executed(db, false)
  }

  /** An UPDATE that reads is left to the server: the writer sends none for plain names (`UpdateNeverReads`). */
  function Execute(server: Server, db: Database, text: string): Executed {
    match ReadStatement(text)
    case None => if Refused(text) then Executed(db, false) else server(db, text)
    case Some(s) =>
      match s.verb
      case Create => ExecuteCreate(server, db, text, Folded(s.table), s.first)
      case Insert => ExecuteInsert(server, db, text, Folded(s.table), s.first, s.second)
      case Delete => ExecuteDelete(server, db, text, Folded(s.table), s.first)
      case Update => server(db, text)
  }

  // ----- The writer, on values -----

  datatype ConsumerMessage = ConsumerMessage(
    primaryKey: string, op: string, table: string, data: Object, before: Object, after: Object)

  /** `saveIntoQueue`: only the members the operation needs are taken over. */
  function ToMessage(record: Record): ConsumerMessage {
    ConsumerMessage(
      record.primary, record.op, record.table,
      if record.op == "INSERT" then record.data else map[],
      if record.op == "UPDATE" || record.op == "DELETE" then record.before else map[],
      if record.op == "UPDATE" then record.after else map[])
  }

  /** `tableExists`: the query is case-sensitive and names no schema. */
  predicate Exists(db: Database, table: string) {
    table in db || IsCatalogued(table)
  }

  function AfterCreate(server: Server, db: Database, table: string, data: Object): Executed {
    if Exists(db, table) then Executed(db, true) else Execute(server, db, CreateText(table, data))
  }

  function AfterInsert(server: Server, db: Database, table: string, data: Object): Executed {
    Execute(server, db, InsertText(table, data))
  }

  /** The named key column, or else the first member; no column at all is an error step. */
  function ConditionColumn(before: Object, primaryKey: string): Option<string> {
    if primaryKey != "" then Some(primaryKey)
    else if before != map[] then Some(MemberNames(before)[0])
    else None
  }

  function AfterUpdate(server: Server, db: Database, table: string, before: Object, after: Object,
      primaryKey: string): Executed {
    match ConditionColumn(before, primaryKey)
    case None => Executed(db, false)
    case Some(column) => Execute(server, db, UpdateText(table, after, column, MemberText(before, column)))
  }

  function AfterDelete(server: Server, db: Database, table: string, before: Object, primaryKey: string): Executed {
    match ConditionColumn(before, primaryKey)
    case None => Executed(db, false)
    case Some(column) => Execute(server, db, DeleteText(table, column, MemberText(before, column)))
  }

  function ApplyMessage(server: Server, db: Database, m: ConsumerMessage): Executed {
    if m.op == "INSERT" then AfterInsert(server, AfterCreate(server, db, m.table, m.data).db, m.table, m.data)
    else if m.op == "UPDATE" then AfterUpdate(server, db, m.table, m.before, m.after, m.primaryKey)
    else if m.op == "DELETE" then AfterDelete(server, db, m.table, m.before, m.primaryKey)
    else Executed(db, false)
  }

  // ----- The writer, as written -----

  class DatabaseWriter {
    const server: Server
    var replica: Database

    constructor (server: Server)
      ensures this.server == server && replica == map[]
    {
      this.server := server;
      replica := map[];
    }

    /** `PQexec`, with the server behind it. */
    method Exec(text: string) returns (ok: bool)
      modifies this
      ensures Executed(replica, ok) == Execute(server, old(replica), text)
    {
      var result := Execute(server, replica, text);
      replica, ok := result.db, result.ok;
    }

    /** The comma-separated lists are built with a flag for the first member. */
    static method BuildInsert(table: string, data: Object) returns (text: string)
      ensures text == InsertText(table, data)
    {
      var members := MemberNames(data);
      var columns, values, first := "", "", true;
      for i := 0 to |members|
        invariant first <==> i == 0
        invariant columns == Join(Map(WrittenName, members[..i]))
        invariant values == Join(WrittenValues(data, members[..i]))
      {
        NextPart(WrittenName, members, i);
        NextPart(ValueWriter(data), members, i);
        if !first {
          columns := columns + ", ";
          values := values + ", ";
        }
        first := false;
        columns := columns + WrittenName(members[i]);
        values := values + WrittenValue(Member(data, members[i]));
      }
      assert members[..|members|] == members;
      text := "INSERT INTO " + (table + (" (" + (columns + (") VALUES (" + (values + ")")))));
    }

    static method BuildCreate(table: string, data: Object) returns (text: string)
      ensures text == CreateText(table, data)
    {
      var members := MemberNames(data);
      var defs, first := "", true;
      for i := 0 to |members|
        invariant first <==> i == 0
        invariant defs == Join(WrittenDefs(data, members[..i]))
      {
        NextPart(DefWriter(data), members, i);
        if !first {
          defs := defs + ", ";
        }
        first := false;
        defs := defs + WrittenDef(data, members[i]);
      }
      assert members[..|members|] == members;
      text := "CREATE TABLE IF NOT EXISTS " + (table + (" (" + (defs + ")")));
    }

    static method BuildAssigns(after: Object) returns (text: string)
      ensures text == Join(AssignTexts(EQUALS, after, MemberNames(after)))
    {
      var members := MemberNames(after);
      var first := true;
      text := "";
      for i := 0 to |members|
        invariant first <==> i == 0
        invariant text == Join(AssignTexts(EQUALS, after, members[..i]))
      {
        NextPart(AssignWriter(EQUALS, after), members, i);
        if !first {
          text := text + ", ";
        }
        first := false;
        text := text + AssignText(EQUALS, after, members[i]);
      }
      assert members[..|members|] == members;
    }

    method CreateTableIfNotExists(table: string, data: Object) returns (ok: bool)
      modifies this
      ensures Executed(replica, ok) == AfterCreate(server, old(replica), table, data)
    {
      if Exists(replica, table) {
        return true;
      }
      var text := BuildCreate(table, data);
      ok := Exec(text);
    }

    method InsertRow(table: string, data: Object) returns (ok: bool)
      modifies this
      ensures Executed(replica, ok) == AfterInsert(server, old(replica), table, data)
    {
      var text := BuildInsert(table, data);
      ok := Exec(text);
    }

    method UpdateRow(table: string, before: Object, after: Object, primaryKey: string) returns (ok: bool)
      modifies this
      ensures Executed(replica, ok) == AfterUpdate(server, old(replica), table, before, after, primaryKey)
    {
      var column := ConditionColumn(before, primaryKey);
      if column == None {
        return false;
      }
      var assigns := BuildAssigns(after);
      ok := Exec("UPDATE " + (table + (" SET " + (assigns
        + (" WHERE " + Condition(column.value, MemberText(before, column.value)))))));
    }

    method DeleteRow(table: string, before: Object, primaryKey: string) returns (ok: bool)
      modifies this
      ensures Executed(replica, ok) == AfterDelete(server, old(replica), table, before, primaryKey)
    {
      var column := ConditionColumn(before, primaryKey);
      if column == None {
        return false;
      }
      ok := Exec("DELETE FROM " + (table + (" WHERE " + Condition(column.value, MemberText(before, column.value)))));
    }

    method HandlerIncomingData(m: ConsumerMessage) returns (ok: bool)
      modifies this
      ensures Executed(replica, ok) == ApplyMessage(server, old(replica), m)
    {
      ok := false;
      if m.op == "INSERT" {
        ok := CreateTableIfNotExists(m.table, m.data);
        ok := InsertRow(m.table, m.data);
      } else if m.op == "UPDATE" {
        ok := UpdateRow(m.table, m.before, m.after, m.primaryKey);
      } else if m.op == "DELETE" {
        ok := DeleteRow(m.table, m.before, m.primaryKey);
      }
    }
  }

  class ReplicationConsumer {
    const safeQueue: SafeQueue.SafeQueue<ConsumerMessage>
    const writer: DatabaseWriter

    constructor (queueSize: nat, server: Server)
      ensures fresh(safeQueue) && fresh(writer) && writer.server == server
      ensures safeQueue.queueToSave == [] && safeQueue.maxQueueSize == queueSize && writer.replica == map[]
    {
      safeQueue := new SafeQueue.SafeQueue<ConsumerMessage>(queueSize);
      writer := new DatabaseWriter(server);
    }

    /** The message is filled field by field; false when `push` has to wait for room. */
    method SaveIntoQueue(record: Record) returns (done: bool)
      modifies safeQueue
      ensures done <==> SafeQueue.HasRoom(old(safeQueue.queueToSave), safeQueue.maxQueueSize)
      ensures safeQueue.queueToSave == old(safeQueue.queueToSave) + (if done then [ToMessage(record)] else [])
    {
      var data: Object, before: Object, after: Object := map[], map[], map[];
      if record.op == "INSERT" {
        data := record.data;
      } else if record.op == "UPDATE" {
        before := record.before;
        after := record.after;
      } else if record.op == "DELETE" {
        before := record.before;
      }
      done := safeQueue.Push(ConsumerMessage(record.primary, record.op, record.table, data, before, after));
    }

    /** The oldest message is applied to the replica; false when `pop` has to wait for one. */
    method LoadFromQueue() returns (done: bool)
      modifies safeQueue, writer
      ensures done <==> old(safeQueue.queueToSave) != []
      ensures done ==>
                && safeQueue.queueToSave == old(safeQueue.queueToSave)[1..]
                && writer.replica == ApplyMessage(writer.server, old(writer.replica), old(safeQueue.queueToSave)[0]).db
      ensures !done ==> safeQueue.queueToSave == old(safeQueue.queueToSave) && writer.replica == old(writer.replica)
    {
      var message := safeQueue.Pop();
      if message == None {
        return false;
      }
      var ok := writer.HandlerIncomingData(message.value);
      return true;
    }
  }

  // ----- One more part in a joined list -----

  function Appended(text: string, i: nat, part: string): string {
    (if i == 0 then text else text + ", ") + part
  }

  lemma {:induction false} JoinAppend(parts: seq<string>, part: string)
    ensures Join(parts + [part]) == Appended(Join(parts), |parts|, part)
    decreases |parts|
  {
    if parts == [] {
      assert parts + [part] == [part];
    } else {
      assert (parts + [part])[1..] == parts[1..] + [part];
      JoinAppend(parts[1..], part);
    }
  }

  /** One round of a builder's loop: the next part joins the list. */
  lemma NextPart(f: string -> string, names: seq<string>, i: nat)
    requires i < |names|
    ensures Join(Map(f, names[..i + 1])) == Appended(Join(Map(f, names[..i])), i, f(names[i]))
  {
    assert names[..i + 1] == names[..i] + [names[i]];
    MapConcat(f, names[..i], [names[i]]);
    assert Map(f, [names[i]]) == [f(names[i])];
    JoinAppend(Map(f, names[..i]), f(names[i]));
  }
}
