/**
  The producer process: XLogData and keepalive packets come in, change records go out, and the
  log positions it has reached are reported back (section 53.4 of the PostgreSQL 17 documentation).

  `Producer`, `Step` and `Run` give the state machine; class `PostgresqlReplicator` is the code.
 */
module Replicator {
  import opened Bytes
  import opened PgOutput
  import opened Changes

  datatype Producer = Producer(
    cache: Cache,
    received: uint64, applied: uint64, restart: uint64,
    sent: seq<Keyed>,      // what was handed to Kafka
    replies: seq<bytes>)   // the status updates that went to the server

  /** The connection when a status update is due: not there, there but the update is lost, or fine. */
  datatype Link = Down | Broken | Up

  /** One round of the read loop: a packet, or none and a status update instead. */
  datatype Event =
    | Packet(raw: bytes, link: Link, now: uint64)
    | Timeout(link: Link, now: uint64)

  /** What became of an event: a full-length WAL packet is handled or fails, all else is quiet. */
  datatype Outcome = Quiet | Handled(lsn: uint64) | Failing(lsn: uint64)

  const HEADER := 25
  const REPLY_SIZE := 34
  const FLAG: byte := '\0'

  predicate IsWal(raw: bytes) {
    |raw| >= HEADER && raw[0] == 'w'
  }

  /** The server's end of WAL, behind the type byte and the start of the data. */
  function WalLsn(raw: bytes): uint64
    requires IsWal(raw)
  {
    ReadUint64(raw, 9).value
  }

  /** The status update: written, flushed and applied positions, the clock, the reply flag. */
  function StatusReply(restart: uint64, applied: uint64, now: uint64): bytes {
    ['r'] + Be64(restart) + Be64(applied) + Be64(restart) + Be64(now) + [FLAG]
  }

  /** The restart position moves before the update is sent, and stays moved if that fails. */
  function Report(p: Producer, link: Link, now: uint64): Producer {
    match link
    case Down => p
    case Broken => p.(restart := p.applied)
    case Up => p.(restart := p.applied, replies := p.replies + [StatusReply(p.applied, p.applied, now)])
  }

  /** A full-length WAL packet: received moves first, applied only when the handler is through. */
  function Receive(p: Producer, raw: bytes, link: Link, now: uint64): Producer
    requires IsWal(raw)
  {
    var message := DecodeMessage(raw[HEADER..], p.cache);
    var p := p.(received := WalLsn(raw), cache := CacheAfter(p.cache, message));
    match Handle(message, p.cache)
    case Failed => p
    case Done(sent) => Report(p.(sent := p.sent + sent, applied := p.received), link, now)
  }

  function Step(p: Producer, e: Event): Producer {
    match e
    case Timeout(link, now) => Report(p, link, now)
    case Packet(raw, link, now) =>
      if IsWal(raw) then Receive(p, raw, link, now)
      else if raw != [] && raw[0] == 'k' then Report(p, link, now)
      else p
  }

  function OutcomeOf(p: Producer, e: Event): Outcome {
    if e.Packet? && IsWal(e.raw) then
      var message := DecodeMessage(e.raw[HEADER..], p.cache);
      if Handle(message, CacheAfter(p.cache, message)).Failed? then Failing(WalLsn(e.raw)) else Handled(WalLsn(e.raw))
    else Quiet
  }

  function Run(p: Producer, es: seq<Event>): Producer {
    if es == [] then p else Step(Run(p, es[..|es| - 1]), es[|es| - 1])
  }

  // ----- The code -----

  /** The packets and timeouts ahead of the first read error. */
  function BeforeError(results: seq<Option<Event>>): seq<Event> {
    if results == [] || results[0] == None then [] else [results[0].value] + BeforeError(results[1..])
  }

  lemma {:induction false} NextResult(results: seq<Option<Event>>, i: nat)
    requires i < |results| && None !in results[..i]
    ensures results[i] == None ==> BeforeError(results) == BeforeError(results[..i]) && None in results
    ensures results[i].Some? ==>
              BeforeError(results[..i + 1]) == BeforeError(results[..i]) + [results[i].value]
                  && None !in results[..i + 1]
    decreases i
  {
    if i > 0 {
      var rest := results[1..];
      assert results[..i][1..] == rest[..i - 1] && results[..i + 1][1..] == rest[..i];
      assert results[..i][0] == results[0] && None !in rest[..i - 1];
      NextResult(rest, i - 1);
      assert results[..i + 1] == results[..i] + [results[i]];
    }
  }

  lemma Associates(a: bytes, b: bytes, c: bytes)
    ensures (a + b) + c == a + (b + c)
  {
  }

  class PostgresqlReplicator {
    const parser: PgOutputParser
    var receivedHigh: uint32
    var receivedLow: uint32
    var appliedHigh: uint32
    var appliedLow: uint32
    var restartHigh: uint32
    var restartLow: uint32
    var sent: seq<Keyed>
    var replies: seq<bytes>

    /** The restart position comes from the configuration, the others start at zero. */
    constructor (high: uint32, low: uint32)
      ensures fresh(parser) && State() == Producer(map[], 0, 0, Lsn(high, low), [], [])
    {
      parser := new PgOutputParser();
      receivedHigh, receivedLow, appliedHigh, appliedLow := 0, 0, 0, 0;
      restartHigh, restartLow := high, low;
      sent, replies := [], [];
    }

    function State(): Producer
      reads this, parser
    {
      Producer(parser.relationCache, Lsn(receivedHigh, receivedLow), Lsn(appliedHigh, appliedLow),
               Lsn(restartHigh, restartLow), sent, replies)
    }

    // ----- Building change records -----

    static method FillRow(columns: seq<Column>, values: seq<bytes>) returns (data: Option<Object>)
      ensures data == if |values| <= |columns| then Some(Row(columns, values)) else None
    {
      var row: Object := map[];
      for i := 0 to |values|
        invariant i <= |columns|
        invariant |values| <= |columns| ==> row == RowObject(columns, values, i)
      {
        if i >= |columns| {
          return None;
        }
        row := row[columns[i].name := JString(values[i])];
      }
      return Some(row);
    }

    static method ExtractKeyOf(data: Object, columns: seq<Column>) returns (column: string, key: string)
      ensures (column, key) == ExtractKey(data, columns)
    {
      for i := 0 to |columns|
        invariant KeyIndex(data, columns, 0) == KeyIndex(data, columns, i)
      {
        if IsKey(columns[i]) {
          if columns[i].name in data {
            return columns[i].name, WriteString(data[columns[i].name]);
          }
        }
      }
      if columns != [] && columns[0].name in data {
        return columns[0].name, WriteString(data[columns[0].name]);
      }
      return "", "";
    }

    method HandleInsert(id: uint32, tuple: seq<bytes>) returns (ok: bool)
      modifies this`sent
      ensures var h := Handle(Some(Insert(id, 'N', tuple)), parser.relationCache);
              ok == h.Done? && sent == old(sent) + (if h.Done? then h.sent else [])
    {
      if id !in parser.relationCache {
        return true;
      }
      var relation := parser.relationCache[id];
      var data := FillRow(relation.columns, tuple);
      if data == None {
        return false;
      }
      var primary, key := ExtractKeyOf(data.value, relation.columns);
      sent := sent + [Keyed(key, Record("INSERT", relation.name, data.value, map[], map[], primary))];
      return true;
    }

    method HandleUpdate(id: uint32, oldTuple: seq<bytes>, newTuple: seq<bytes>) returns (ok: bool)
      modifies this`sent
      ensures var h := Handle(Some(Update(id, oldTuple, newTuple)), parser.relationCache);
              ok == h.Done? && sent == old(sent) + (if h.Done? then h.sent else [])
    {
      if id !in parser.relationCache {
        return true;
      }
      var relation := parser.relationCache[id];
      var before := FillRow(relation.columns, oldTuple);
      if before == None {
        return false;
      }
      var after := FillRow(relation.columns, newTuple);
      if after == None {
        return false;
      }
      var primary, key := ExtractKeyOf(after.value, relation.columns);
      sent := sent + [Keyed(key, Record("UPDATE", relation.name, map[], before.value, after.value, primary))];
      return true;
    }

    method HandleDelete(id: uint32, tuple: seq<bytes>) returns (ok: bool)
      modifies this`sent
      ensures var h := Handle(Some(Delete(id, tuple)), parser.relationCache);
              ok == h.Done? && sent == old(sent) + (if h.Done? then h.sent else [])
    {
      if id !in parser.relationCache {
        return true;
      }
      var relation := parser.relationCache[id];
      var before := FillRow(relation.columns, tuple);
      if before == None {
        return false;
      }
      var primary, key := ExtractKeyOf(before.value, relation.columns);
      sent := sent + [Keyed(key, Record("DELETE", relation.name, map[], before.value, map[], primary))];
      return true;
    }

    method HandleMessage(message: Option<Message>) returns (ok: bool)
      modifies this`sent
      ensures var h := Handle(message, parser.relationCache);
              ok == h.Done? && sent == old(sent) + (if h.Done? then h.sent else [])
    {
      match message
      case None => ok := false;
      case Some(Insert(id, _, tuple)) => ok := HandleInsert(id, tuple);
      case Some(Update(id, oldTuple, newTuple)) => ok := HandleUpdate(id, oldTuple, newTuple);
      case Some(Delete(id, tuple)) => ok := HandleDelete(id, tuple);
      case Some(_) => ok := true;
    }

    // ----- Reporting positions -----

    /** `memcpy` of a word in network byte order. */
    static method PutUint32(buffer: array<byte>, pos: nat, v: uint32) returns (next: nat)
      requires pos + 4 <= buffer.Length
      modifies buffer
      ensures next == pos + 4
      ensures buffer[..next] == old(buffer[..pos]) + Be32(v)
      ensures buffer[next..] == old(buffer[next..])
    {
      var word := Be32(v);
      buffer[pos], buffer[pos + 1], buffer[pos + 2], buffer[pos + 3] := word[0], word[1], word[2], word[3];
      next := pos + 4;
      assert buffer[pos..next] == word;
      assert buffer[..next] == buffer[..pos] + buffer[pos..next];
      assert buffer[..pos] == old(buffer[..pos]);
    }

    static method PutLsn(buffer: array<byte>, pos: nat, high: uint32, low: uint32) returns (next: nat)
      requires pos + 8 <= buffer.Length
      modifies buffer
      ensures next == pos + 8
      ensures buffer[..next] == old(buffer[..pos]) + Be64(Lsn(high, low))
    {
      ghost var before := buffer[..pos];
      hide Be32, Be64, Lsn;
      Be64Halves(high, low);
      next := PutUint32(buffer, pos, high);
      next := PutUint32(buffer, next, low);
      Associates(before, Be32(high), Be32(low));
    }

    /** The reply buffer, filled field by field behind a moving position. */
    method BuildReply(now: uint64) returns (reply: array<byte>)
      ensures fresh(reply)
      ensures reply[..] == StatusReply(Lsn(restartHigh, restartLow), Lsn(appliedHigh, appliedLow), now)
    {
      reply := new byte[REPLY_SIZE](_ => '\0');
      var pos := 0;
      reply[pos] := 'r';
      pos := pos + 1;
      assert reply[..pos] == ['r'];
      pos := PutLsn(reply, pos, restartHigh, restartLow);
      pos := PutLsn(reply, pos, appliedHigh, appliedLow);
      pos := PutLsn(reply, pos, restartHigh, restartLow);
      assert Lsn(now / 0x1_0000_0000, now % 0x1_0000_0000) == now;
      pos := PutLsn(reply, pos, now / 0x1_0000_0000, now % 0x1_0000_0000);
      ghost var filled := reply[..pos];
      reply[pos] := FLAG;
      assert reply[..pos] == filled && reply[..] == reply[..pos] + [FLAG];
    }

    method SendStandbyStatusUpdate(link: Link, now: uint64)
      modifies this`restartHigh, this`restartLow, this`replies
      ensures State() == Report(old(State()), link, now)
    {
      if link == Down {
        return;
      }
      restartHigh, restartLow := appliedHigh, appliedLow;
      var reply := BuildReply(now);
      if link == Up {
        replies := replies + [reply[..]];
      }
    }

    method ParsePacket(raw: bytes, link: Link, now: uint64) returns (ghost outcome: Outcome)
      modifies this, parser
      ensures State() == Step(old(State()), Packet(raw, link, now))
      ensures outcome == OutcomeOf(old(State()), Packet(raw, link, now))
    {
      outcome := Quiet;
      if raw == [] {
        return;
      }
      match raw[0]
      case 'w' =>
        if |raw| < HEADER {
          return;
        }
        var high := ReadUint32(raw, 9);
        var low := ReadUint32(raw, 13);
        receivedHigh, receivedLow := high.value, low.value;
        outcome := Failing(Lsn(receivedHigh, receivedLow));
        var message := parser.ParseMessage(raw[HEADER..]);
        var ok := HandleMessage(message);
        if !ok {
          return;
        }
        outcome := Handled(Lsn(receivedHigh, receivedLow));
        appliedHigh, appliedLow := receivedHigh, receivedLow;
        SendStandbyStatusUpdate(link, now);
      case 'k' =>
        SendStandbyStatusUpdate(link, now);
      case _ =>
    }

    /** The read loop over what it gets from the connection; false when a read error ends it. */
    method ReadReplicationMessages(results: seq<Option<Event>>) returns (ok: bool)
      modifies this, parser
      ensures ok <==> None !in results
      ensures State() == Run(old(State()), BeforeError(results))
    {
      for i := 0 to |results|
        invariant None !in results[..i]
        invariant State() == Run(old(State()), BeforeError(results[..i]))
      {
        NextResult(results, i);
        match results[i]
        case None =>
          return false;
        case Some(Packet(raw, link, now)) =>
          ghost var outcome := ParsePacket(raw, link, now);
        case Some(Timeout(link, now)) =>
          SendStandbyStatusUpdate(link, now);
      }
      assert results[..|results|] == results;
      return true;
    }
  }
}
