/**
  The logical replication messages as the server sends them: section 53.9 of the PostgreSQL 17
  documentation, for protocol version 1 message bodies. This is the specification the decoder
  is held against.
 */
module WireFormat {
  import opened Bytes
  import opened Counted
  import opened PgOutput

  /** A text value carries its length in 32 bits. */
  type Text32 = b: bytes | |b| < 0x1_0000_0000

  datatype WireValue = Null | UnchangedToast | Text(text: Text32)

  type Tuple = seq<WireValue>

  /** What an Update carries in front of the new tuple. */
  datatype OldPart = NoOld | KeyOld(tuple: Tuple) | FullOld(tuple: Tuple)

  datatype WireMessage =
    | WireBegin(lsn: uint64, timestamp: uint64, xid: uint32)
    | WireCommit(flags: byte, lsn: uint64, endLsn: uint64, timestamp: uint64)
    | WireRelation(relation: Relation)
    | WireInsert(relationId: uint32, row: Tuple)
    | WireUpdate(relationId: uint32, before: OldPart, after: Tuple)
    | WireDelete(relationId: uint32, isKey: bool, row: Tuple)

  // ----- Which messages a server can form -----

  predicate IsTuple(t: Tuple) {
    |t| < 0x1_0000
  }

  predicate IsRelation(r: Relation) {
    |r.columns| < 0x1_0000
  }

  predicate IsMessage(w: WireMessage) {
    match w
    case WireBegin(_, _, _) => true
    case WireCommit(_, _, _, _) => true
    case WireRelation(relation) => IsRelation(relation)
    case WireInsert(_, row) => IsTuple(row)
    case WireUpdate(_, before, after) => IsTuple(after) && (before.NoOld? || IsTuple(before.tuple))
    case WireDelete(_, _, row) => IsTuple(row)
  }

  /** The format's flag for a column that is part of the key: 1, the lowest bit, and the only one in use. */
  predicate MarksKey(c: Column) {
    c.flags as int % 2 == 1
  }

  // ----- Encoding -----

  function EncodeValue(v: WireValue): bytes {
    match v
    case Null => ['n']
    case UnchangedToast => ['u']
    case Text(text) => ['t'] + Be32(|text|) + text
  }

  function EncodeValues(t: Tuple): bytes {
    EncodeMany(EncodeValue, t)
  }

  function EncodeTuple(t: Tuple): bytes
    requires IsTuple(t)
  {
    Be16(|t|) + EncodeValues(t)
  }

  function EncodeColumn(c: Column): bytes {
    [c.flags] + EncodeString(c.name) + Be32(c.typeId) + Be32(FromInt32(c.typeModifier))
  }

  function EncodeColumns(columns: seq<Column>): bytes {
    EncodeMany(EncodeColumn, columns)
  }

  function EncodeNames(r: Relation): bytes {
    Be32(r.id) + EncodeString(r.nspace) + EncodeString(r.name)
  }

  function EncodeRelation(r: Relation): bytes
    requires IsRelation(r)
  {
    EncodeNames(r) + ([r.replicaIdentity] + Be16(|r.columns|) + EncodeColumns(r.columns))
  }

  function EncodeCommit(flags: byte, lsn: uint64, endLsn: uint64, timestamp: uint64): bytes {
    [flags] + Be64(lsn) + Be64(endLsn) + Be64(timestamp)
  }

  function EncodeBody(w: WireMessage): bytes
    requires IsMessage(w)
  {
    match w
    case WireBegin(lsn, timestamp, xid) => Be64(lsn) + Be64(timestamp) + Be32(xid)
    case WireCommit(flags, lsn, endLsn, timestamp) => EncodeCommit(flags, lsn, endLsn, timestamp)
    case WireRelation(relation) => EncodeRelation(relation)
    case WireInsert(id, row) => Be32(id) + ['N'] + EncodeTuple(row)
    case WireUpdate(id, NoOld, after) => Be32(id) + ['N'] + EncodeTuple(after)
    case WireUpdate(id, KeyOld(before), after) =>
      Be32(id) + ['K'] + EncodeTuple(before) + (['N'] + EncodeTuple(after))
    case WireUpdate(id, FullOld(before), after) =>
      Be32(id) + ['O'] + EncodeTuple(before) + (['N'] + EncodeTuple(after))
    case WireDelete(id, isKey, row) => Be32(id) + [if isKey then 'K' else 'O'] + EncodeTuple(row)
  }

  function Tag(w: WireMessage): byte {
    match w
    case WireBegin(_, _, _) => 'B'
    case WireCommit(_, _, _, _) => 'C'
    case WireRelation(_) => 'R'
    case WireInsert(_, _) => 'I'
    case WireUpdate(_, _, _) => 'U'
    case WireDelete(_, _, _) => 'D'
  }

  function EncodeMessage(w: WireMessage): bytes
    requires IsMessage(w)
  {
    [Tag(w)] + EncodeBody(w)
  }

  // ----- What the decoder makes of a value and of a message -----

  /** NULL and an unchanged TOASTed value become the texts "NULL" and "TOAST". */
  function Render(v: WireValue): bytes {
    match v
    case Null => "NULL"
    case UnchangedToast => "TOAST"
    case Text(text) => text
  }

  function RenderTuple(t: Tuple): (r: seq<bytes>)
    ensures |r| == |t|
  {
    Map(Render, t)
  }

  /** What the format promises a reader of the message. */
  function Intended(w: WireMessage): Message {
    match w
    case WireBegin(lsn, timestamp, _) => Begin(lsn, timestamp)
    case WireCommit(flags, lsn, endLsn, timestamp) => Commit(flags, lsn, endLsn, timestamp)
    case WireRelation(relation) => RelationMessage(relation)
    case WireInsert(id, row) => Insert(id, 'N', RenderTuple(row))
    case WireUpdate(id, before, after) =>
      Update(id, if before.NoOld? then [] else RenderTuple(before.tuple), RenderTuple(after))
    case WireDelete(id, _, row) => Delete(id, RenderTuple(row))
  }

  /** The tuple that stands directly behind the tag byte of an Update. */
  function FirstTuple(before: OldPart, after: Tuple): Tuple {
    if before.NoOld? then after else before.tuple
  }

  /** As written, an Update yields the first tuple it carries as the new one, and no old one. */
  function Decoded(w: WireMessage): Message {
    match w
    case WireUpdate(id, before, after) => Update(id, [], RenderTuple(FirstTuple(before, after)))
    case _ => Intended(w)
  }

  /** Column counts whose high byte is the letter 'O': 20224 up to 20479. */
  predicate LooksLikeOldTag(t: Tuple) {
    |t| / 256 == 'O' as int
  }

  /** Messages that `parseMessage` survives; only an Update with an absurd column count is not one. */
  predicate Decodable(w: WireMessage) {
    IsMessage(w) && (w.WireUpdate? ==> !LooksLikeOldTag(FirstTuple(w.before, w.after)))
  }
}
