/**
  The source side: tables of rows under a schema, the changes that can happen to them, and the
  messages the server sends for each change.
 */
module History {
  import opened Bytes
  import opened PgOutput
  import opened WireFormat
  import opened Changes
  import opened Effects
  import Identifiers

  type Schema = map<uint32, Relation>

  /** Rows in storage order, and the relations the server has described so far. */
  datatype Source = Source(tables: map<uint32, seq<Tuple>>, described: set<uint32>)

  datatype Change =
    | Marker(message: WireMessage)   // Begin or Commit
    | Describe(id: uint32)           // the Relation message
    | Add(id: uint32, row: Tuple)
    | Remove(id: uint32, at: nat, full: bool)   // full: the server sends the whole old row
    | Replace(id: uint32, at: nat, row: Tuple, before: OldPart, after: Tuple)

  const EMPTY := Source(map[], {})

  function Rows(src: Source, id: uint32): seq<Tuple> {
    if id in src.tables then src.tables[id] else []
  }

  /** The rows without the one at a position. */
  function Dropped(rows: seq<Tuple>, at: nat): seq<Tuple>
    requires at < |rows|
  {
    rows[..at] + rows[at + 1..]
  }

  /** One relation per id, tables with names the writer can carry and tell apart. */
  predicate GoodSchema(schema: Schema) {
    && (forall id | id in schema ::
          schema[id].id == id && PlainRelation(schema[id]) && |schema[id].columns| / 256 < 'O' as int)
    && (forall a, b | a in schema && b in schema && a != b ::
          Identifiers.Folded(schema[a].name) != Identifiers.Folded(schema[b].name))
  }

  /** A stored row has a value, or NULL, for every column. */
  predicate IsRow(r: Relation, row: Tuple) {
    |row| == |r.columns| && forall v | v in row :: v != UnchangedToast
  }

  /** The new tuple of an Update: values that did not change may be left in their TOAST table. */
  predicate AgreeUpToToast(sent: Tuple, row: Tuple) {
    |sent| == |row| && forall i | 0 <= i < |row| :: sent[i] == row[i] || sent[i] == UnchangedToast
  }

  predicate HasKey(r: Relation) {
    exists c :: c in r.columns && MarksKey(c)
  }

  predicate CanHappen(schema: Schema, src: Source, c: Change) {
    match c
    case Marker(message) => message.WireBegin? || message.WireCommit?
    case Describe(id) => id in schema
    case Add(id, row) => id in schema && id in src.described && IsRow(schema[id], row)
    case Remove(id, at, full) =>
      id in schema && id in src.described && at < |Rows(src, id)| && (full || HasKey(schema[id]))
    case Replace(id, at, row, before, after) =>
      && id in schema && id in src.described && at < |Rows(src, id)|
      && IsRow(schema[id], row) && AgreeUpToToast(after, row)
      && (before.NoOld? || |before.tuple| == |schema[id].columns|)
  }

  function Advance(src: Source, c: Change): Source {
    match c
    case Marker(_) => src
    case Describe(id) => src.(described := src.described + {id})
    case Add(id, row) => src.(tables := src.tables[id := Rows(src, id) + [row]])
    case Remove(id, at, _) =>
      var rows := Rows(src, id);
      if at < |rows| then src.(tables := src.tables[id := Dropped(rows, at)]) else src
    case Replace(id, at, row, _, _) =>
      var rows := Rows(src, id);
      if at < |rows| then src.(tables := src.tables[id := rows[at := row]]) else src
  }

  function SourceAfter(h: seq<Change>): Source {
    if h == [] then EMPTY else Advance(SourceAfter(h[..|h| - 1]), h[|h| - 1])
  }

  predicate Valid(schema: Schema, h: seq<Change>) {
    h == [] || (Valid(schema, h[..|h| - 1]) && CanHappen(schema, SourceAfter(h[..|h| - 1]), h[|h| - 1]))
  }

  predicate WellTyped(schema: Schema, src: Source) {
    && src.described <= schema.Keys
    && forall id | id in src.tables ::
         id in schema && forall row | row in src.tables[id] :: IsRow(schema[id], row)
  }

  lemma AdvanceWellTyped(schema: Schema, src: Source, c: Change)
    requires WellTyped(schema, src) && CanHappen(schema, src, c)
    ensures WellTyped(schema, Advance(src, c))
  {
  }

  lemma {:induction false} HistoryWellTyped(schema: Schema, h: seq<Change>)
    requires Valid(schema, h)
    ensures WellTyped(schema, SourceAfter(h))
    decreases |h|
  {
    if h != [] {
      HistoryWellTyped(schema, h[..|h| - 1]);
      AdvanceWellTyped(schema, SourceAfter(h[..|h| - 1]), h[|h| - 1]);
    }
  }

  // ----- What the server sends -----

  /** Under an index identity only the key columns of a deleted row are sent. */
  function KeyImage(columns: seq<Column>, row: Tuple): (image: Tuple)
    requires |row| == |columns|
    ensures |image| == |row|
    ensures forall i | 0 <= i < |row| :: image[i] == if MarksKey(columns[i]) then row[i] else Null
  {
    if row == [] then [] else [if MarksKey(columns[0]) then row[0] else Null] + KeyImage(columns[1..], row[1..])
  }

  function RemoveImage(r: Relation, row: Tuple, full: bool): (image: Tuple)
    requires |row| == |r.columns|
    ensures |image| == |row|
  {
    if full then row else KeyImage(r.columns, row)
  }

  function SentFor(schema: Schema, src: Source, c: Change): WireMessage
    requires WellTyped(schema, src) && CanHappen(schema, src, c)
  {
    match c
    case Marker(message) => message
    case Describe(id) => WireRelation(schema[id])
    case Add(id, row) => WireInsert(id, row)
    case Remove(id, at, full) =>
      var row := Rows(src, id)[at];
      assert row in src.tables[id];
      WireDelete(id, !full, RemoveImage(schema[id], row, full))
    case Replace(id, _, _, before, after) => WireUpdate(id, before, after)
  }

  function Messages(schema: Schema, h: seq<Change>): (ws: seq<WireMessage>)
    requires Valid(schema, h)
    ensures |ws| == |h|
  {
    if h == [] then []
    else
      HistoryWellTyped(schema, h[..|h| - 1]);
      Messages(schema, h[..|h| - 1]) + [SentFor(schema, SourceAfter(h[..|h| - 1]), h[|h| - 1])]
  }

  /** The change record a change must give rise to. */
  function Produced(schema: Schema, src: Source, c: Change): seq<Keyed>
    requires WellTyped(schema, src) && CanHappen(schema, src, c)
  {
    match c
    case Add(id, row) => [InsertChange(schema[id], RenderTuple(row))]
    case Remove(id, at, full) =>
      var row := Rows(src, id)[at];
      assert row in src.tables[id];
      [DeleteChange(schema[id], RenderTuple(RemoveImage(schema[id], row, full)))]
    case Replace(id, _, _, before, after) => [UpdateChange(schema[id], [], RenderTuple(FirstTuple(before, after)))]
    case _ => []
  }

  function Records(schema: Schema, h: seq<Change>): seq<Keyed>
    requires Valid(schema, h)
  {
    if h == [] then []
    else
      HistoryWellTyped(schema, h[..|h| - 1]);
      Records(schema, h[..|h| - 1]) + Produced(schema, SourceAfter(h[..|h| - 1]), h[|h| - 1])
  }

  lemma {:induction false} ValidPrefix(schema: Schema, h: seq<Change>, n: nat)
    requires Valid(schema, h) && n <= |h|
    ensures Valid(schema, h[..n])
    decreases |h|
  {
    if n < |h| {
      ValidPrefix(schema, h[..|h| - 1], n);
      assert h[..|h| - 1][..n] == h[..n];
    } else {
      assert h[..n] == h;
    }
  }
}
