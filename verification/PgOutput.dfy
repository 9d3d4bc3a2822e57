/**
  The pgoutput decoder: message datatypes, the decoding functions that follow the parser's
  branches, and the parser class whose loops are proved to compute those functions.

  An exception anywhere in a `parse` is caught by `parseMessage`, which then returns null.
  A read that the code does not check against the end of the buffer (`data[offset]`, the bytes
  of a text value, `raw_message[0]`) counts as such an exception.
 */
module PgOutput {
  import opened Bytes
  import opened Counted

  datatype Column = Column(flags: byte, name: Name, typeId: uint32, typeModifier: int32)

  datatype Relation = Relation(
    id: uint32, nspace: Name, name: Name, replicaIdentity: byte, columns: seq<Column>)

  datatype Message =
    | Begin(lsn: uint64, timestamp: uint64)
    | Commit(flags: byte, lsn: uint64, endLsn: uint64, timestamp: uint64)
    | RelationMessage(relation: Relation)
    | Insert(relationId: uint32, tupleType: byte, newTuple: seq<bytes>)
    | Update(relationId: uint32, oldTuple: seq<bytes>, newTuple: seq<bytes>)
    | Delete(relationId: uint32, oldTuple: seq<bytes>)

  type Cache = map<uint32, Relation>

  // ----- Tuples -----

  function DecodeText(data: bytes, offset: nat): Read<bytes> {
    match ReadUint32(data, offset)
    case Underflow => Underflow
    case Ok(length, o) =>
      if length == 0 then Ok([], o)
      else if o + length > |data| then Underflow
      else Ok(data[o..o + length], o + length)
  }

  /**
    One column of a tuple: the values it pushes. The two overloads of `parseTuple` differ only
    here: for an unknown tag the one that is given the relation's columns pushes an empty text,
    the other one pushes nothing.
   */
  function DecodeField(data: bytes, offset: nat, aware: bool): Read<seq<bytes>> {
    match ReadUint8(data, offset)
    case Underflow => Underflow
    case Ok(tag, o) =>
      if tag == 'n' then Ok(["NULL"], o)
      else if tag == 'u' then Ok(["TOAST"], o)
      else if tag == 't' then
        match DecodeText(data, o)
        case Underflow => Underflow
        case Ok(text, next) => Ok([text], next)
      else Ok(if aware then [[]] else [], o)
  }

  function FieldReader(data: bytes, aware: bool): nat -> Read<seq<bytes>> {
    (o: nat) => DecodeField(data, o, aware)
  }

  function DecodeFields(data: bytes, offset: nat, n: nat, aware: bool): Read<seq<bytes>> {
    ReadMany(FieldReader(data, aware), offset, n)
  }

  function DecodeTuple(data: bytes, offset: nat, aware: bool): Read<seq<bytes>> {
    match ReadUint16(data, offset)
    case Underflow => Underflow
    case Ok(n, o) => DecodeFields(data, o, n, aware)
  }

  // ----- Relations -----

  function DecodeColumn(data: bytes, offset: nat): Read<Column> {
    match ReadUint8(data, offset)
    case Underflow => Underflow
    case Ok(flags, o1) =>
      match ReadString(data, o1)
      case Underflow => Underflow
      case Ok(name, o2) =>
        match ReadUint32(data, o2)
        case Underflow => Underflow
        case Ok(typeId, o3) =>
          match ReadUint32(data, o3)
          case Underflow => Underflow
          case Ok(modifier, o4) => Ok(Column(flags, name, typeId, ToInt32(modifier)), o4)
  }

  function ColumnReader(data: bytes): nat -> Read<seq<Column>> {
    (o: nat) =>
      match DecodeColumn(data, o)
      case Underflow => Underflow
      case Ok(column, next) => Ok([column], next)
  }

  function DecodeColumns(data: bytes, offset: nat, n: nat): Read<seq<Column>> {
    ReadMany(ColumnReader(data), offset, n)
  }

  function DecodeRelation(data: bytes): Read<Relation> {
    match ReadUint32(data, 0)
    case Underflow => Underflow
    case Ok(id, o1) =>
      match ReadString(data, o1)
      case Underflow => Underflow
      case Ok(nspace, o2) =>
        match ReadString(data, o2)
        case Underflow => Underflow
        case Ok(name, o3) =>
          match ReadUint8(data, o3)
          case Underflow => Underflow
          case Ok(identity, o4) =>
            match ReadUint16(data, o4)
            case Underflow => Underflow
            case Ok(n, o5) =>
              match DecodeColumns(data, o5, n)
              case Underflow => Underflow
              case Ok(columns, next) => Ok(Relation(id, nspace, name, identity, columns), next)
  }

  // ----- The other messages -----

  /** The transaction id is read past the timestamp but never handed out. */
  function DecodeBegin(data: bytes): Read<Message> {
    match ReadUint64(data, 0)
    case Underflow => Underflow
    case Ok(lsn, o1) =>
      match ReadUint64(data, o1)
      case Underflow => Underflow
      case Ok(timestamp, o2) =>
        if o2 + 4 > |data| then Underflow else Ok(Begin(lsn, timestamp), o2)
  }

  function DecodeCommit(data: bytes): Read<Message> {
    match ReadUint8(data, 0)
    case Underflow => Underflow
    case Ok(flags, o1) =>
      match ReadUint64(data, o1)
      case Underflow => Underflow
      case Ok(lsn, o2) =>
        match ReadUint64(data, o2)
        case Underflow => Underflow
        case Ok(endLsn, o3) =>
          match ReadUint64(data, o3)
          case Underflow => Underflow
          case Ok(timestamp, o4) => Ok(Commit(flags, lsn, endLsn, timestamp), o4)
  }

  function DecodeInsert(data: bytes, cache: Cache): Read<Message> {
    match ReadUint32(data, 0)
    case Underflow => Underflow
    case Ok(id, o1) =>
      match ReadUint8(data, o1)
      case Underflow => Underflow
      case Ok(tupleType, o2) =>
        match DecodeTuple(data, o2, id in cache)
        case Underflow => Underflow
        case Ok(tuple, next) => Ok(Insert(id, tupleType, tuple), next)
  }

  function DecodeDelete(data: bytes, cache: Cache): Read<Message> {
    match ReadUint32(data, 0)
    case Underflow => Underflow
    case Ok(id, o1) =>
      match ReadUint8(data, o1)
      case Underflow => Underflow
      case Ok(_, o2) =>
        match DecodeTuple(data, o2, id in cache)
        case Underflow => Underflow
        case Ok(tuple, next) => Ok(Delete(id, tuple), next)
  }

  /**
    As written: the byte behind the tag, which is the high byte of the column count, decides
    whether an old tuple is read before the new one. The tag itself is ignored.
   */
  function DecodeUpdate(data: bytes, cache: Cache): Read<Message> {
    match ReadUint32(data, 0)
    case Underflow => Underflow
    case Ok(id, o1) =>
      match ReadUint8(data, o1)
      case Underflow => Underflow
      case Ok(_, o2) =>
        if o2 >= |data| then Underflow
        else if data[o2] == 'O' then
          match DecodeTuple(data, o2, id in cache)
          case Underflow => Underflow
          case Ok(before, o3) =>
            match DecodeTuple(data, o3, id in cache)
            case Underflow => Underflow
            case Ok(after, next) => Ok(Update(id, before, after), next)
        else
          match DecodeTuple(data, o2, id in cache)
          case Underflow => Underflow
          case Ok(after, next) => Ok(Update(id, [], after), next)
  }

  function ToOption<T>(r: Read<T>): Option<T> {
    match r
    case Underflow => None
    case Ok(value, _) => Some(value)
  }

  /** The switch on the message type; the body is what follows the type byte. */
  function DecodeBody(tag: byte, data: bytes, cache: Cache): Option<Message> {
    match tag
    case 'B' => ToOption(DecodeBegin(data))
    case 'C' => ToOption(DecodeCommit(data))
    case 'R' =>
      match DecodeRelation(data) {
        case Underflow => None
        case Ok(relation, _) => Some(RelationMessage(relation))
      }
    case 'I' => ToOption(DecodeInsert(data, cache))
    case 'U' => ToOption(DecodeUpdate(data, cache))
    case 'D' => ToOption(DecodeDelete(data, cache))
    case _ => None
  }

  function DecodeMessage(raw: bytes, cache: Cache): Option<Message> {
    if raw == [] then None else DecodeBody(raw[0], raw[1..], cache)
  }

  /** Only a relation message that parsed enters the cache. */
  function CacheAfter(cache: Cache, message: Option<Message>): Cache {
    match message
    case Some(RelationMessage(relation)) => cache[relation.id := relation]
    case _ => cache
  }

  // ----- The parser -----

  class PgOutputParser {
    var relationCache: Cache

    constructor ()
      ensures relationCache == map[]
    {
      relationCache := map[];
    }

    /** The scanning loop of `read_string`. */
    method ScanString(data: bytes, start: nat) returns (r: Read<Name>)
      ensures r == ReadString(data, start)
    {
      if start >= |data| {
        return Underflow;
      }
      var str: bytes, offset := [], start;
      PrependNothing(ReadString(data, start));
      while offset < |data| && data[offset] != '\0'
        invariant start <= offset <= |data|
        invariant ReadString(data, start) == Prepend(str, ReadString(data, offset))
      {
        PrependTwice(str, [data[offset]], ReadString(data, offset + 1));
        str := str + [data[offset]];
        offset := offset + 1;
      }
      if offset >= |data| {
        return Underflow;
      }
      assert str + [] == str;
      return Ok(str, offset + 1);
    }

    /** `parseTuple` without the relation. */
    method ParseTuple(data: bytes, start: nat) returns (r: Read<seq<bytes>>)
      ensures r == DecodeTuple(data, start, false)
    {
      var count := ReadUint16(data, start);
      if count.Underflow? {
        return Underflow;
      }
      var tuple: seq<bytes>, offset := [], count.next;
      PrependNothing(DecodeTuple(data, start, false));
      for i := 0 to count.value
        invariant DecodeTuple(data, start, false)
               == Prepend(tuple, DecodeFields(data, offset, count.value - i, false))
      {
        var tag := ReadUint8(data, offset);
        if tag.Underflow? {
          return Underflow;
        }
        offset := tag.next;
        ghost var before := tuple;
        if tag.value == 'n' {
          tuple := tuple + ["NULL"];
        } else if tag.value == 'u' {
          tuple := tuple + ["TOAST"];
        } else if tag.value == 't' {
          var text := DecodeText(data, offset);
          if text.Underflow? {
            return Underflow;
          }
          tuple := tuple + [text.value];
          offset := text.next;
        }
        assert tuple == before + tuple[|before|..];
        PrependTwice(before, tuple[|before|..], DecodeFields(data, offset, count.value - i - 1, false));
      }
      assert tuple + [] == tuple;
      return Ok(tuple, offset);
    }

    /** `parseTuple` with the relation's columns, which it only compares in number for a notice. */
    method ParseTupleFor(data: bytes, start: nat, columns: seq<Column>) returns (r: Read<seq<bytes>>)
      ensures r == DecodeTuple(data, start, true)
    {
      var count := ReadUint16(data, start);
      if count.Underflow? {
        return Underflow;
      }
      var tuple: seq<bytes>, offset := [], count.next;
      PrependNothing(DecodeTuple(data, start, true));
      for i := 0 to count.value
        invariant DecodeTuple(data, start, true)
               == Prepend(tuple, DecodeFields(data, offset, count.value - i, true))
      {
        var tag := ReadUint8(data, offset);
        if tag.Underflow? {
          return Underflow;
        }
        offset := tag.next;
        var value: bytes := [];
        if tag.value == 'n' {
          value := "NULL";
        } else if tag.value == 'u' {
          value := "TOAST";
        } else if tag.value == 't' {
          var text := DecodeText(data, offset);
          if text.Underflow? {
            return Underflow;
          }
          value, offset := text.value, text.next;
        }
        PrependTwice(tuple, [value], DecodeFields(data, offset, count.value - i - 1, true));
        tuple := tuple + [value];
      }
      assert tuple + [] == tuple;
      return Ok(tuple, offset);
    }

    /** Both overloads behind the cache lookup that every row message makes. */
    method ParseTupleOf(id: uint32, data: bytes, start: nat) returns (r: Read<seq<bytes>>)
      ensures r == DecodeTuple(data, start, id in relationCache)
    {
      match GetCachedRelation(id)
      case Some(relation) => r := ParseTupleFor(data, start, relation.columns);
      case None => r := ParseTuple(data, start);
    }

    method ParseRelation(data: bytes) returns (r: Read<Relation>)
      ensures r == DecodeRelation(data)
    {
      var id := ReadUint32(data, 0);
      if id.Underflow? { return Underflow; }
      var nspace := ScanString(data, id.next);
      if nspace.Underflow? { return Underflow; }
      var name := ScanString(data, nspace.next);
      if name.Underflow? { return Underflow; }
      var identity := ReadUint8(data, name.next);
      if identity.Underflow? { return Underflow; }
      var count := ReadUint16(data, identity.next);
      if count.Underflow? { return Underflow; }
      var columns: seq<Column>, offset := [], count.next;
      PrependNothing(DecodeColumns(data, offset, count.value));
      for i := 0 to count.value
        invariant DecodeColumns(data, count.next, count.value)
               == Prepend(columns, DecodeColumns(data, offset, count.value - i))
      {
        var flags := ReadUint8(data, offset);
        if flags.Underflow? { return Underflow; }
        var columnName := ScanString(data, flags.next);
        if columnName.Underflow? { return Underflow; }
        var typeId := ReadUint32(data, columnName.next);
        if typeId.Underflow? { return Underflow; }
        var modifier := ReadUint32(data, typeId.next);
        if modifier.Underflow? { return Underflow; }
        var column := Column(flags.value, columnName.value, typeId.value, ToInt32(modifier.value));
        PrependTwice(columns, [column], DecodeColumns(data, modifier.next, count.value - i - 1));
        columns := columns + [column];
        offset := modifier.next;
      }
      assert columns + [] == columns;
      return Ok(Relation(id.value, nspace.value, name.value, identity.value, columns), offset);
    }

    method ParseInsert(data: bytes) returns (r: Read<Message>)
      ensures r == DecodeInsert(data, relationCache)
    {
      var id := ReadUint32(data, 0);
      if id.Underflow? { return Underflow; }
      var tupleType := ReadUint8(data, id.next);
      if tupleType.Underflow? { return Underflow; }
      var tuple := ParseTupleOf(id.value, data, tupleType.next);
      if tuple.Underflow? { return Underflow; }
      return Ok(Insert(id.value, tupleType.value, tuple.value), tuple.next);
    }

    method ParseDelete(data: bytes) returns (r: Read<Message>)
      ensures r == DecodeDelete(data, relationCache)
    {
      var id := ReadUint32(data, 0);
      if id.Underflow? { return Underflow; }
      var flags := ReadUint8(data, id.next);
      if flags.Underflow? { return Underflow; }
      var tuple := ParseTupleOf(id.value, data, flags.next);
      if tuple.Underflow? { return Underflow; }
      return Ok(Delete(id.value, tuple.value), tuple.next);
    }

    method ParseUpdate(data: bytes) returns (r: Read<Message>)
      ensures r == DecodeUpdate(data, relationCache)
    {
      var id := ReadUint32(data, 0);
      if id.Underflow? { return Underflow; }
      var flags := ReadUint8(data, id.next);
      if flags.Underflow? { return Underflow; }
      var hasOldTuple := ReadUint8(data, flags.next);
      if hasOldTuple.Underflow? { return Underflow; }
      var offset, oldTuple: seq<bytes> := flags.next, [];
      if hasOldTuple.value == 'O' {
        var tuple := ParseTupleOf(id.value, data, offset);
        if tuple.Underflow? { return Underflow; }
        oldTuple, offset := tuple.value, tuple.next;
      }
      var newTuple := ParseTupleOf(id.value, data, offset);
      if newTuple.Underflow? { return Underflow; }
      return Ok(Update(id.value, oldTuple, newTuple.value), newTuple.next);
    }

    method ParseMessage(raw: bytes) returns (message: Option<Message>)
      modifies this
      ensures message == DecodeMessage(raw, old(relationCache))
      ensures relationCache == CacheAfter(old(relationCache), message)
    {
      if raw == [] {
        return None;
      }
      var data := raw[1..];
      match raw[0]
      case 'B' =>
        message := ToOption(DecodeBegin(data));
      case 'C' =>
        message := ToOption(DecodeCommit(data));
      case 'R' =>
        var relation := ParseRelation(data);
        if relation.Underflow? {
          return None;
        }
        relationCache := relationCache[relation.value.id := relation.value];
        message := Some(RelationMessage(relation.value));
      case 'I' =>
        var insert := ParseInsert(data);
        message := ToOption(insert);
      case 'U' =>
        var update := ParseUpdate(data);
        message := ToOption(update);
      case 'D' =>
        var delete := ParseDelete(data);
        message := ToOption(delete);
      case _ =>
        message := None;
    }

    function GetCachedRelation(id: uint32): Option<Relation>
      reads this
    {
      if id in relationCache then Some(relationCache[id]) else None
    }
  }
}
