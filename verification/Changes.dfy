/**
  Change records: how the producer turns a decoded row message into the JSON object and the
  routing key it hands to Kafka.
 */
module Changes {
  import opened Bytes
  import opened Numerals
  import opened PgOutput

  /** JSON values the pipeline can meet; the producer itself only writes strings into rows. */
  datatype Json = JNull | JBool(flag: bool) | JInt(number: int64) | JString(text: string)

  /** An object by its members. JSON null and an absent member count as the object without any. */
  type Object = map<string, Json>

  datatype Record = Record(
    op: string, table: string, data: Object, before: Object, after: Object, primary: string)

  /** A record with the key it is produced under. */
  datatype Keyed = Keyed(key: string, record: Record)

  // ----- Rows -----

  /** The object after the first `n` rounds of a handler's loop. */
  function RowObject(columns: seq<Column>, values: seq<bytes>, n: nat): Object
    requires n <= |values| <= |columns|
  {
    if n == 0 then map[]
    else RowObject(columns, values, n - 1)[columns[n - 1].name := JString(values[n - 1])]
  }

  function Row(columns: seq<Column>, values: seq<bytes>): Object
    requires |values| <= |columns|
  {
    RowObject(columns, values, |values|)
  }

  predicate DistinctNames(columns: seq<Column>) {
    forall i, j | 0 <= i < j < |columns| :: columns[i].name != columns[j].name
  }

  /** With distinct names the object maps each column's name to its value, and nothing else. */
  lemma {:induction false} RowObjectIsRow(columns: seq<Column>, values: seq<bytes>, n: nat)
    requires n <= |values| <= |columns| && DistinctNames(columns)
    ensures forall name :: name in RowObject(columns, values, n) <==> exists i :: 0 <= i < n && columns[i].name == name
    ensures forall i | 0 <= i < n :: RowObject(columns, values, n)[columns[i].name] == JString(values[i])
    decreases n
  {
    if n > 0 {
      RowObjectIsRow(columns, values, n - 1);
    }
  }

  // ----- The routing key -----

  /** The code's test, `flags & 1`. */
  predicate IsKey(column: Column) {
    column.flags as int % 2 == 1
  }

  /** Column `i` is flagged as part of the key and the row has it. */
  predicate Eligible(data: Object, columns: seq<Column>, i: nat)
    requires i < |columns|
  {
    IsKey(columns[i]) && columns[i].name in data
  }

  /** The column whose value routes the row, if any. */
  function KeyIndex(data: Object, columns: seq<Column>, from: nat): Option<nat>
    requires from <= |columns|
    decreases |columns| - from
  {
    if from < |columns| then
      if Eligible(data, columns, from) then Some(from) else KeyIndex(data, columns, from + 1)
    else if columns != [] && columns[0].name in data then Some(0)
    else None
  }

  function EscapeJson(s: string): string {
    if s == "" then ""
    else (if s[0] == '"' || s[0] == '\\' then ['\\', s[0]] else [s[0]]) + EscapeJson(s[1..])
  }

  function WriteString(value: Json): string {
    match value
    case JNull => "null"
    case JBool(flag) => if flag then "true" else "false"
    case JInt(number) => Decimal(number)
    case JString(text) => "\"" + EscapeJson(text) + "\""
  }

  /** `extractKey`: the key column's name and its value as JSON text. */
  function ExtractKey(data: Object, columns: seq<Column>): (string, string) {
    match KeyIndex(data, columns, 0)
    case None => ("", "")
    case Some(i) => KeyPair(data, columns, i)
  }

  function KeyPair(data: Object, columns: seq<Column>, i: nat): (string, string) {
    if i < |columns| && columns[i].name in data then (columns[i].name, WriteString(data[columns[i].name]))
    else ("", "")
  }

  lemma {:induction false} KeyIndexFrom(data: Object, columns: seq<Column>, from: nat)
    requires from <= |columns|
    ensures match KeyIndex(data, columns, from)
            case Some(k) =>
              && k < |columns| && columns[k].name in data
              && (if exists i :: from <= i < |columns| && Eligible(data, columns, i) then
                    from <= k && Eligible(data, columns, k)
                    && forall i | from <= i < k :: !Eligible(data, columns, i)
                  else k == 0)
            case None =>
              && (forall i | from <= i < |columns| :: !Eligible(data, columns, i))
              && (columns == [] || columns[0].name !in data)
    decreases |columns| - from
  {
    if from < |columns| && !Eligible(data, columns, from) {
      KeyIndexFrom(data, columns, from + 1);
    }
  }

  /** Flagged, by a flag of 1, and in the row. */
  predicate Flagged(data: Object, columns: seq<Column>, i: nat)
    requires i < |columns|
  {
    columns[i].flags == 1 as char && columns[i].name in data
  }

  /**
    The routing key by the flags that occur (0 and 1): the first column with flag 1 that the row has
    gives it, else the first column if the row has that, else there is none.
   */
  lemma {:induction false} KeyByFlags(data: Object, columns: seq<Column>)
    requires forall c | c in columns :: c.flags in {0 as char, 1 as char}
    ensures forall i | 0 <= i < |columns| && Flagged(data, columns, i)
        && (forall j | 0 <= j < i :: !Flagged(data, columns, j)) ::
              ExtractKey(data, columns) == (columns[i].name, WriteString(data[columns[i].name]))
    ensures (forall i | 0 <= i < |columns| :: !Flagged(data, columns, i)) ==>
              ExtractKey(data, columns) == if columns != [] && columns[0].name in data
                                           then (columns[0].name, WriteString(data[columns[0].name])) else ("", "")
  {
    forall i | 0 <= i < |columns|
      ensures Flagged(data, columns, i) <==> Eligible(data, columns, i)
    {
      assert columns[i] in columns;
    }
    KeyIndexFrom(data, columns, 0);
    hide Eligible, Flagged, WriteString, KeyIndex;
    var k := KeyIndex(data, columns, 0);
    forall i | 0 <= i < |columns| && Flagged(data, columns, i) && (forall j | 0 <= j < i :: !Flagged(data, columns, j))
      ensures k == Some(i)
    {
      assert Eligible(data, columns, i);
    }
  }

  /** A name that is not flagged, and an id that is: the id routes the row. */
  lemma FlaggedIdRoutes()
    ensures var columns := [Column(0 as char, "name", 25, -1), Column(1 as char, "id", 25, -1)];
            ExtractKey(map["name" := JString("bob"), "id" := JString("7")], columns) == ("id", "\"7\"")
  {
    var columns := [Column(0 as char, "name", 25, -1), Column(1 as char, "id", 25, -1)];
    var data: Object := map["name" := JString("bob"), "id" := JString("7")];
    assert Flagged(data, columns, 1) && !Flagged(data, columns, 0);
    KeyByFlags(data, columns);
    assert forall j | 0 <= j < 1 :: !Flagged(data, columns, j);
    assert ExtractKey(data, columns) == ("id", WriteString(JString("7")));
    assert WriteString(JString("7")) == "\"7\"" by {
      assert EscapeJson("7") == ['7'] + EscapeJson("7"[1..]) && "7"[1..] == "";
      assert "\"" + "7" + "\"" == "\"7\"";
    }
  }

  lemma {:induction false} EscapeJsonInjective(a: string, b: string)
    requires EscapeJson(a) == EscapeJson(b)
    ensures a == b
    decreases |a|
  {
    if a != "" && b != "" {
      var x, y := EscapeJson(a), EscapeJson(b);
      assert x[0] == y[0];
      if a[0] == '"' || a[0] == '\\' {
        assert x[1] == a[0] && y[0] == '\\';
        assert b[0] == '"' || b[0] == '\\';
        assert y[1] == b[0];
        assert x[2..] == EscapeJson(a[1..]) && y[2..] == EscapeJson(b[1..]);
      } else {
        assert x[0] == a[0];
        assert b[0] == a[0];
        assert x[1..] == EscapeJson(a[1..]) && y[1..] == EscapeJson(b[1..]);
      }
      EscapeJsonInjective(a[1..], b[1..]);
    }
  }

  /** Two texts are routed alike exactly when they are equal. */
  lemma WriteStringInjective(a: string, b: string)
    ensures WriteString(JString(a)) == WriteString(JString(b)) <==> a == b
  {
    if WriteString(JString(a)) == WriteString(JString(b)) {
      var x, y := WriteString(JString(a)), WriteString(JString(b));
      assert x[1..|x| - 1] == EscapeJson(a) && y[1..|y| - 1] == EscapeJson(b);
      EscapeJsonInjective(a, b);
    }
  }

  /** A JSON string, read: what stands between the quotes, and the text behind them. */
  function ReadJson(text: string): Option<(string, string)> {
    if text == "" || text[0] != '"' then None else ReadEscaped(text[1..])
  }

  function ReadEscaped(text: string): Option<(string, string)> {
    if text == "" then None
    else if text[0] == '"' then Some(("", text[1..]))
    else
      var width := if text[0] == '\\' then 2 else 1;
      if |text| < width then None
      else
        match ReadEscaped(text[width..])
        case None => None
        case Some((s, rest)) => Some(([text[width - 1]] + s, rest))
  }

  function EscapedChar(c: char): string {
    if c == '"' || c == '\\' then ['\\', c] else [c]
  }

  lemma CharReads(c: char, tail: string, s: string, rest: string)
    requires ReadEscaped(tail) == Some((s, rest))
    ensures ReadEscaped(EscapedChar(c) + tail) == Some(([c] + s, rest))
  {
    var text := EscapedChar(c) + tail;
    assert text[|EscapedChar(c)|..] == tail;
    assert text[0] == EscapedChar(c)[0] && text[|EscapedChar(c)| - 1] == c;
  }

  lemma {:induction false} EscapedReads(s: string, rest: string)
    ensures ReadEscaped(EscapeJson(s) + ("\"" + rest)) == Some((s, rest))
    decreases |s|
  {
    if s == "" {
      assert EscapeJson(s) + ("\"" + rest) == "\"" + rest;
    } else {
      var tail := EscapeJson(s[1..]) + ("\"" + rest);
      assert EscapeJson(s) == EscapedChar(s[0]) + EscapeJson(s[1..]);
      assert EscapeJson(s) + ("\"" + rest) == EscapedChar(s[0]) + tail;
      assert s == [s[0]] + s[1..];
      hide EscapeJson, EscapedChar, ReadEscaped;
      EscapedReads(s[1..], rest);
      CharReads(s[0], tail, s[1..], rest);
    }
  }

  /** The text of a string is JSON: it reads back, whatever stands behind it. */
  lemma JsonStringReads(s: string, rest: string)
    ensures ReadJson(WriteString(JString(s)) + rest) == Some((s, rest))
  {
    EscapedReads(s, rest);
    assert WriteString(JString(s)) + rest == "\"" + (EscapeJson(s) + ("\"" + rest));
  }

  // ----- Handling a message -----

  /** Either an error on the way, in which case nothing was sent, or what was sent. */
  datatype Handling = Failed | Done(sent: seq<Keyed>)

  function InsertChange(relation: Relation, tuple: seq<bytes>): Keyed
    requires |tuple| <= |relation.columns|
  {
    var data := Row(relation.columns, tuple);
    var (primary, key) := ExtractKey(data, relation.columns);
    Keyed(key, Record("INSERT", relation.name, data, map[], map[], primary))
  }

  function UpdateChange(relation: Relation, oldTuple: seq<bytes>, newTuple: seq<bytes>): Keyed
    requires |oldTuple| <= |relation.columns| && |newTuple| <= |relation.columns|
  {
    var after := Row(relation.columns, newTuple);
    var (primary, key) := ExtractKey(after, relation.columns);
    Keyed(key, Record("UPDATE", relation.name, map[], Row(relation.columns, oldTuple), after, primary))
  }

  function DeleteChange(relation: Relation, tuple: seq<bytes>): Keyed
    requires |tuple| <= |relation.columns|
  {
    var before := Row(relation.columns, tuple);
    var (primary, key) := ExtractKey(before, relation.columns);
    Keyed(key, Record("DELETE", relation.name, map[], before, map[], primary))
  }

  /**
    `handleMessage`. A null message is dereferenced, and a tuple longer than the cached relation
    runs past its columns: both are error steps. A row of an unknown relation is dropped.
   */
  function Handle(message: Option<Message>, cache: Cache): Handling {
    match message
    case None => Failed
    case Some(Insert(id, _, tuple)) =>
      if id !in cache then Done([])
      else if |tuple| > |cache[id].columns| then Failed
      else Done([InsertChange(cache[id], tuple)])
    case Some(Update(id, oldTuple, newTuple)) =>
      if id !in cache then Done([])
      else if |oldTuple| > |cache[id].columns| || |newTuple| > |cache[id].columns| then Failed
      else Done([UpdateChange(cache[id], oldTuple, newTuple)])
    case Some(Delete(id, tuple)) =>
      if id !in cache then Done([])
      else if |tuple| > |cache[id].columns| then Failed
      else Done([DeleteChange(cache[id], tuple)])
    case Some(_) => Done([])
  }
}
