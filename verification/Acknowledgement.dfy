/** What the reported log positions mean, over all runs of the producer. */
module Acknowledgement {
  import opened Bytes
  import opened Counted
  import opened PgOutput
  import opened WireFormat
  import opened WireTheorems
  import opened Changes
  import opened Replicator

  // ----- The reply on the wire -----

  lemma FieldsAt(r: bytes, a: bytes, b: bytes, c: bytes, d: bytes, f: bytes)
    requires |r| == 1 && |a| == |b| == |c| == |d| == 8
    ensures var reply := r + a + b + c + d + f;
            At(reply, 0, r) && At(reply, 1, a) && At(reply, 9, b) && At(reply, 17, c) && At(reply, 25, d)
  {
    var reply := r + a + b + c + d + f;
    assert At(reply, 0, reply);
    AtConcat(reply, 0, r + a + b + c + d, f);
    AtConcat(reply, 0, r + a + b + c, d);
    AtConcat(reply, 0, r + a + b, c);
    AtConcat(reply, 0, r + a, b);
    AtConcat(reply, 0, r, a);
  }

  /** Reading the 34 bytes back gives the reported position in all three fields, and the clock. */
  lemma ReplyDecodes(restart: uint64, applied: uint64, now: uint64)
    ensures var reply := StatusReply(restart, applied, now);
            && |reply| == REPLY_SIZE && reply[0] == 'r'
            && ReadUint64(reply, 1) == Ok(restart, 9)
            && ReadUint64(reply, 9) == Ok(applied, 17)
            && ReadUint64(reply, 17) == Ok(restart, 25)
            && ReadUint64(reply, 25) == Ok(now, 33)
  {
    var reply := StatusReply(restart, applied, now);
    FieldsAt(['r'], Be64(restart), Be64(applied), Be64(restart), Be64(now), [FLAG]);
    ReadUint64At(reply, 1, restart);
    ReadUint64At(reply, 9, applied);
    ReadUint64At(reply, 17, restart);
    ReadUint64At(reply, 25, now);
  }

  /** The position a reply acknowledges: what the server may discard up to. */
  function Acknowledged(reply: bytes): uint64 {
    match ReadUint64(reply, 9)
    case Ok(lsn, _) => lsn
    case Underflow => 0
  }

  function Start(configured: uint64): Producer {
    Producer(map[], 0, 0, configured, [], [])
  }

  // ----- What the packets alone say -----

  predicate IsData(e: Event) {
    e.Packet? && IsWal(e.raw)
  }

  /** The relations known after some packets. */
  function CacheOn(cache: Cache, es: seq<Event>): Cache {
    if es == [] then cache
    else
      var front, e := CacheOn(cache, es[..|es| - 1]), es[|es| - 1];
      if IsData(e) then CacheAfter(front, DecodeMessage(e.raw[HEADER..], front)) else front
  }

  /** No tuple of a row message has more values than the cached relation has columns. */
  predicate NoWider(message: Message, cache: Cache) {
    match message
    case Insert(id, _, tuple) => id in cache ==> |tuple| <= |cache[id].columns|
    case Update(id, before, after) =>
      id in cache ==> |before| <= |cache[id].columns| && |after| <= |cache[id].columns|
    case Delete(id, tuple) => id in cache ==> |tuple| <= |cache[id].columns|
    case _ => true
  }

  /** A message that decodes and fits goes through the handler. */
  predicate Readable(body: bytes, cache: Cache) {
    var message := DecodeMessage(body, cache);
    message.Some? && NoWider(message.value, cache)
  }

  predicate Good(cache: Cache, es: seq<Event>, i: nat)
    requires i < |es|
  {
    IsData(es[i]) && Readable(es[i].raw[HEADER..], CacheOn(cache, es[..i]))
  }

  predicate Bad(cache: Cache, es: seq<Event>, i: nat)
    requires i < |es|
  {
    IsData(es[i]) && !Readable(es[i].raw[HEADER..], CacheOn(cache, es[..i]))
  }

  /** The position of the last packet that went through the handler. */
  function HandledPosition(cache: Cache, floor: uint64, es: seq<Event>): uint64 {
    if es == [] then floor
    else if Good(cache, es, |es| - 1) then WalLsn(es[|es| - 1].raw)
    else HandledPosition(cache, floor, es[..|es| - 1])
  }

  /** The same, as of an event. */
  function PositionAt(cache: Cache, floor: uint64, es: seq<Event>, j: nat): uint64
    requires j < |es|
  {
    HandledPosition(cache, floor, es[..j + 1])
  }

  function LastPosition(floor: uint64, es: seq<Event>): uint64 {
    if es == [] then floor
    else if IsData(es[|es| - 1]) then WalLsn(es[|es| - 1].raw)
    else LastPosition(floor, es[..|es| - 1])
  }

  /** After this event a status update is due: a timeout, a keepalive, or a packet that was handled. */
  predicate IsDue(cache: Cache, es: seq<Event>, i: nat)
    requires i < |es|
  {
    es[i].Timeout? || Good(cache, es, i) || (!IsData(es[i]) && es[i].raw != [] && es[i].raw[0] == 'k')
  }

  predicate Sends(cache: Cache, es: seq<Event>, i: nat)
    requires i < |es|
  {
    IsDue(cache, es, i) && es[i].link == Up
  }

  /** The positions acknowledged on the way, in order. */
  function Acknowledgements(cache: Cache, floor: uint64, es: seq<Event>): seq<uint64> {
    if es == [] then []
    else
      Acknowledgements(cache, floor, es[..|es| - 1])
      + if Sends(cache, es, |es| - 1) then [HandledPosition(cache, floor, es)] else []
  }

  /** The restart position: the one handled when an update was last due and there was a connection. */
  function RestartPosition(cache: Cache, floor: uint64, configured: uint64, es: seq<Event>): uint64 {
    if es == [] then configured
    else if IsDue(cache, es, |es| - 1) && es[|es| - 1].link != Down then HandledPosition(cache, floor, es)
    else RestartPosition(cache, floor, configured, es[..|es| - 1])
  }

  // ----- The producer's run is what the packets say -----

  function OutcomeAt(p: Producer, es: seq<Event>, i: nat): Outcome
    requires i < |es|
  {
    OutcomeOf(Run(p, es[..i]), es[i])
  }

  lemma ReadableIsHandled(body: bytes, cache: Cache)
    ensures var message := DecodeMessage(body, cache);
            Handle(message, CacheAfter(cache, message)).Done? <==> Readable(body, cache)
  {
    hide DecodeMessage, InsertChange, UpdateChange, DeleteChange;
  }

  lemma OutcomeIsReadable(p: Producer, e: Event)
    ensures OutcomeOf(p, e)
         == if !IsData(e) then Quiet
            else if Readable(e.raw[HEADER..], p.cache) then Handled(WalLsn(e.raw)) else Failing(WalLsn(e.raw))
  {
    if IsData(e) {
      ReadableIsHandled(e.raw[HEADER..], p.cache);
      hide DecodeMessage, Handle, Readable, CacheAfter;
    }
  }

  lemma AcknowledgesApplied(p: Producer, link: Link, now: uint64)
    ensures Map(Acknowledged, Report(p, link, now).replies)
         == Map(Acknowledged, p.replies) + if link == Up then [p.applied] else []
  {
    if link == Up {
      ReplyDecodes(p.applied, p.applied, now);
      var reply := StatusReply(p.applied, p.applied, now);
      MapConcat(Acknowledged, p.replies, [reply]);
      assert Map(Acknowledged, [reply]) == [Acknowledged(reply)];
    }
  }

  lemma StepIs(p: Producer, e: Event)
    ensures var q, good := Step(p, e), IsData(e) && Readable(e.raw[HEADER..], p.cache);
            var due := e.Timeout? || good || (!IsData(e) && e.raw != [] && e.raw[0] == 'k');
            && q.cache == (if IsData(e) then CacheAfter(p.cache, DecodeMessage(e.raw[HEADER..], p.cache)) else p.cache)
            && q.applied == (if good then WalLsn(e.raw) else p.applied)
            && q.received == (if IsData(e) then WalLsn(e.raw) else p.received)
            && q.restart == (if due && e.link != Down then q.applied else p.restart)
            && Map(Acknowledged, q.replies)
               == Map(Acknowledged, p.replies) + if due && e.link == Up then [q.applied] else []
  {
    if IsData(e) {
      var message := DecodeMessage(e.raw[HEADER..], p.cache);
      ReadableIsHandled(e.raw[HEADER..], p.cache);
      var q := p.(received := WalLsn(e.raw), cache := CacheAfter(p.cache, message));
      var handling := Handle(message, q.cache);
      if handling.Done? {
        AcknowledgesApplied(q.(sent := q.sent + handling.sent, applied := q.received), e.link, e.now);
      }
    } else {
      AcknowledgesApplied(p, e.link, e.now);
    }
    hide DecodeMessage, Handle, Readable, CacheAfter, Acknowledged, StatusReply;
  }

  /** The state after any run, told from the packets; above all, which positions were acknowledged. */
  lemma {:induction false} RunIsTold(p: Producer, es: seq<Event>)
    requires p.replies == []
    ensures var q := Run(p, es);
            && q.cache == CacheOn(p.cache, es)
            && q.applied == HandledPosition(p.cache, p.applied, es)
            && q.received == LastPosition(p.received, es)
            && q.restart == RestartPosition(p.cache, p.applied, p.restart, es)
            && Map(Acknowledged, q.replies) == Acknowledgements(p.cache, p.applied, es)
    decreases |es|
  {
    if es != [] {
      var front, e := es[..|es| - 1], es[|es| - 1];
      RunIsTold(p, front);
      StepIs(Run(p, front), e);
      hide Step, Readable, CacheAfter, DecodeMessage, Acknowledged;
    }
  }

  /** The clocks of the events at which an update goes out, in order. */
  function Clocks(cache: Cache, es: seq<Event>): seq<uint64> {
    if es == [] then []
    else Clocks(cache, es[..|es| - 1]) + if Sends(cache, es, |es| - 1) then [es[|es| - 1].now] else []
  }

  /** A status update as section 53.4 has it: one position in all three fields, a clock, no reply wanted. */
  predicate IsUpdate(reply: bytes, position: uint64, clock: uint64) {
    && |reply| == 34 && reply[0] == 'r'
    && ReadUint64(reply, 1) == Ok(position, 9)
    && ReadUint64(reply, 9) == Ok(position, 17)
    && ReadUint64(reply, 17) == Ok(position, 25)
    && ReadUint64(reply, 25) == Ok(clock, 33)
    && reply[33] == '\0'
  }

  /** The replies carry these positions and clocks, one each. */
  ghost predicate AreUpdates(replies: seq<bytes>, positions: seq<uint64>, clocks: seq<uint64>) {
    && |replies| == |positions| == |clocks|
    && forall k | 0 <= k < |replies| :: IsUpdate(replies[k], positions[k], clocks[k])
  }

  lemma ReportIsUpdate(p: Producer, link: Link, now: uint64)
    ensures var q := Report(p, link, now);
            if link == Up
                then q.replies != [] && q.replies[..|q.replies| - 1] == p.replies
                    && IsUpdate(q.replies[|q.replies| - 1], p.applied, now)
            else q.replies == p.replies
  {
    if link == Up {
      ReplyDecodes(p.applied, p.applied, now);
      hide Be64;
    }
  }

  lemma StepReplies(p: Producer, e: Event)
    ensures var q, good := Step(p, e), IsData(e) && Readable(e.raw[HEADER..], p.cache);
            var due := e.Timeout? || good || (!IsData(e) && e.raw != [] && e.raw[0] == 'k');
            if due && e.link == Up then
              && q.replies != [] && q.replies[..|q.replies| - 1] == p.replies
              && IsUpdate(q.replies[|q.replies| - 1], q.applied, e.now)
            else q.replies == p.replies
  {
    if IsData(e) {
      var message := DecodeMessage(e.raw[HEADER..], p.cache);
      ReadableIsHandled(e.raw[HEADER..], p.cache);
      var q := p.(received := WalLsn(e.raw), cache := CacheAfter(p.cache, message));
      var handling := Handle(message, q.cache);
      if handling.Done? {
        ReportIsUpdate(q.(sent := q.sent + handling.sent, applied := q.received), e.link, e.now);
      }
    } else {
      ReportIsUpdate(p, e.link, e.now);
    }
    hide DecodeMessage, Handle, Readable, CacheAfter, IsUpdate, StatusReply;
  }

  lemma UpdatesAppend(replies: seq<bytes>, positions: seq<uint64>, clocks: seq<uint64>, reply: bytes, position: uint64,
      clock: uint64)
    requires AreUpdates(replies, positions, clocks) && IsUpdate(reply, position, clock)
    ensures AreUpdates(replies + [reply], positions + [position], clocks + [clock])
  {
    hide IsUpdate;
  }

  /**
    Every status update of any run: all three positions are the one handled by then, even where restart
    was another before, and the clock is that of the event it answers.
   */
  lemma {:induction false} RepliesAreTold(p: Producer, es: seq<Event>)
    requires p.replies == []
    ensures AreUpdates(Run(p, es).replies, Acknowledgements(p.cache, p.applied, es), Clocks(p.cache, es))
    decreases |es|
  {
    if es != [] {
      var front, e := es[..|es| - 1], es[|es| - 1];
      RepliesAreTold(p, front);
      RunIsTold(p, front);
      RunIsTold(p, es);
      StepReplies(Run(p, front), e);
      var before, after := Run(p, front).replies, Run(p, es).replies;
      assert Run(p, es) == Step(Run(p, front), e);
      hide Step, Readable, CacheAfter, CacheOn, DecodeMessage, IsUpdate, WalLsn, AreUpdates, HandledPosition, Run,
        LastPosition,
        RestartPosition;
      if Sends(p.cache, es, |es| - 1) {
        assert after == before + [after[|before|]];
        UpdatesAppend(before, Acknowledgements(p.cache, p.applied, front), Clocks(p.cache, front), after[|before|],
          HandledPosition(p.cache, p.applied, es), e.now);
      } else {
        assert Acknowledgements(p.cache, p.applied, es) == Acknowledgements(p.cache, p.applied, front);
        assert Clocks(p.cache, es) == Clocks(p.cache, front);
      }
    }
  }

  /** The record a row message of a known relation gives rise to; nothing else gives any. */
  function MadeOf(message: Message, cache: Cache): seq<Keyed>
    requires NoWider(message, cache)
  {
    match message
    case Insert(id, _, tuple) => if id in cache then [InsertChange(cache[id], tuple)] else []
    case Update(id, before, after) => if id in cache then [UpdateChange(cache[id], before, after)] else []
    case Delete(id, tuple) => if id in cache then [DeleteChange(cache[id], tuple)] else []
    case _ => []
  }

  /** What is handed to Kafka, told from the packets: the records of those that decode and fit, in order. */
  function SentOn(cache: Cache, es: seq<Event>): seq<Keyed> {
    if es == [] then []
    else
      var front, e := es[..|es| - 1], es[|es| - 1];
      SentOn(cache, front)
      + if Good(cache, es, |es| - 1)
        then MadeOf(DecodeMessage(e.raw[HEADER..], CacheOn(cache, front)).value, CacheOn(cache, front)) else []
  }

  lemma StepSends(p: Producer, e: Event)
    ensures Step(p, e).sent
         == p.sent + if IsData(e) && Readable(e.raw[HEADER..], p.cache)
                     then MadeOf(DecodeMessage(e.raw[HEADER..], p.cache).value, p.cache) else []
  {
    if IsData(e) {
      var message := DecodeMessage(e.raw[HEADER..], p.cache);
      ReadableIsHandled(e.raw[HEADER..], p.cache);
      var q := p.(received := WalLsn(e.raw), cache := CacheAfter(p.cache, message));
      HandledIsMade(message, p.cache);
      var handling := Handle(message, q.cache);
      assert handling.Failed? ==> Step(p, e).sent == p.sent + [];
      hide DecodeMessage, Handle, CacheAfter, StatusReply, MadeOf, NoWider;
    } else {
      assert Step(p, e).sent == p.sent + [];
    }
  }

  lemma HandledIsMade(message: Option<Message>, cache: Cache)
    ensures var handling := Handle(message, CacheAfter(cache, message));
            handling.Done? ==>
                message.Some? && NoWider(message.value, cache) && handling.sent == MadeOf(message.value, cache)
  {
    hide InsertChange, UpdateChange, DeleteChange;
  }

  /**
    Over every run: a packet that does not decode or does not fit sends nothing, nor does a row of a
    relation that is not known; the others send their records, in the order of the packets.
   */
  lemma {:induction false} SentIsTold(p: Producer, es: seq<Event>)
    requires p.replies == []
    ensures Run(p, es).sent == p.sent + SentOn(p.cache, es)
    decreases |es|
  {
    if es != [] {
      var front, e := es[..|es| - 1], es[|es| - 1];
      SentIsTold(p, front);
      RunIsTold(p, front);
      StepSends(Run(p, front), e);
      hide Step, Readable, CacheOn, DecodeMessage, MadeOf;
    }
  }

  lemma OutcomeIsTold(p: Producer, es: seq<Event>, i: nat)
    requires p.replies == [] && i < |es|
    ensures OutcomeAt(p, es, i).Handled? <==> Good(p.cache, es, i)
    ensures OutcomeAt(p, es, i).Failing? <==> Bad(p.cache, es, i)
    ensures IsData(es[i]) ==> OutcomeAt(p, es, i).lsn == WalLsn(es[i].raw)
  {
    RunIsTold(p, es[..i]);
    OutcomeIsReadable(Run(p, es[..i]), es[i]);
  }

  lemma SendsInFront(cache: Cache, floor: uint64, es: seq<Event>, j: nat)
    requires j + 1 < |es|
    ensures var front := es[..|es| - 1];
            && PositionAt(cache, floor, es, j) == PositionAt(cache, floor, front, j)
            && (Sends(cache, es, j) <==> Sends(cache, front, j))
  {
    assert es[..j] == es[..|es| - 1][..j] && es[..j + 1] == es[..|es| - 1][..j + 1];
  }

  lemma {:induction false} AcknowledgementsAt(cache: Cache, floor: uint64, es: seq<Event>, lsn: uint64)
    ensures lsn in Acknowledgements(cache, floor, es)
       <==> exists j :: 0 <= j < |es| && Sends(cache, es, j) && PositionAt(cache, floor, es, j) == lsn
    decreases |es|
  {
    if es != [] {
      var front := es[..|es| - 1];
      AcknowledgementsAt(cache, floor, front, lsn);
      assert es[..|es| - 1 + 1] == es;
      forall j | 0 <= j < |front|
        ensures Sends(cache, es, j) == Sends(cache, front, j)
            && PositionAt(cache, floor, es, j) == PositionAt(cache, floor, front, j)
      {
        SendsInFront(cache, floor, es, j);
      }
    }
  }

  // ----- Ordered positions -----

  ghost predicate Ascending(xs: seq<uint64>) {
    forall k, l | 0 <= k <= l < |xs| :: xs[k] <= xs[l]
  }

  /** The positions handled when status updates are sent rise from one update to the next. */
  ghost predicate PositionsRise(cache: Cache, floor: uint64, es: seq<Event>) {
    forall i, j | 0 <= i <= j < |es| && Sends(cache, es, i) && Sends(cache, es, j) ::
      PositionAt(cache, floor, es, i) <= PositionAt(cache, floor, es, j)
  }

  ghost predicate AllUpTo(xs: seq<uint64>, x: uint64) {
    forall y | y in xs :: y <= x
  }

  lemma AscendingAppend(xs: seq<uint64>, x: uint64)
    ensures Ascending(xs + [x]) <==> Ascending(xs) && AllUpTo(xs, x)
  {
    var all := xs + [x];
    if Ascending(all) {
      forall k, l | 0 <= k <= l < |xs| ensures xs[k] <= xs[l] {
        assert all[k] <= all[l];
      }
      forall y | y in xs ensures y <= x {
        var k :| 0 <= k < |xs| && xs[k] == y;
        assert all[k] <= all[|xs|];
      }
    }
    if Ascending(xs) && AllUpTo(xs, x) {
      forall k, l | 0 <= k <= l < |all| ensures all[k] <= all[l] {
        assert k < |xs| ==> all[k] == xs[k] && xs[k] in xs;
      }
    }
  }

  ghost predicate EarlierAreBelow(cache: Cache, floor: uint64, es: seq<Event>, n: nat, x: uint64)
    requires n <= |es|
  {
    forall j | 0 <= j < n && Sends(cache, es, j) :: PositionAt(cache, floor, es, j) <= x
  }

  lemma RiseInFront(cache: Cache, floor: uint64, es: seq<Event>)
    requires es != [] && PositionsRise(cache, floor, es)
    ensures PositionsRise(cache, floor, es[..|es| - 1])
  {
    hide HandledPosition, PositionAt, Sends;
    var front := es[..|es| - 1];
    forall i, j | 0 <= i <= j < |front| && Sends(cache, front, i) && Sends(cache, front, j)
      ensures PositionAt(cache, floor, front, i) <= PositionAt(cache, floor, front, j)
    {
      SendsInFront(cache, floor, es, i);
      SendsInFront(cache, floor, es, j);
    }
  }

  lemma RiseBeyond(cache: Cache, floor: uint64, es: seq<Event>, x: uint64)
    requires es != [] && x == PositionAt(cache, floor, es, |es| - 1)
    requires PositionsRise(cache, floor, es[..|es| - 1])
    requires Sends(cache, es, |es| - 1) ==> EarlierAreBelow(cache, floor, es, |es| - 1, x)
    ensures PositionsRise(cache, floor, es)
  {
    hide HandledPosition, PositionAt, Sends;
    var front := es[..|es| - 1];
    forall i, j | 0 <= i <= j < |es| && Sends(cache, es, i) && Sends(cache, es, j)
      ensures PositionAt(cache, floor, es, i) <= PositionAt(cache, floor, es, j)
    {
      if j < |front| {
        SendsInFront(cache, floor, es, i);
        SendsInFront(cache, floor, es, j);
      }
    }
  }

  lemma RiseAppend(cache: Cache, floor: uint64, es: seq<Event>, x: uint64)
    requires es != [] && x == PositionAt(cache, floor, es, |es| - 1)
    ensures PositionsRise(cache, floor, es)
       <==> && PositionsRise(cache, floor, es[..|es| - 1])
            && (Sends(cache, es, |es| - 1) ==> EarlierAreBelow(cache, floor, es, |es| - 1, x))
  {
    hide HandledPosition, PositionAt, Sends;
    if PositionsRise(cache, floor, es) {
      RiseInFront(cache, floor, es);
    } else if PositionsRise(cache, floor, es[..|es| - 1])
        && (Sends(cache, es, |es| - 1) ==> EarlierAreBelow(cache, floor, es, |es| - 1, x)) {
      RiseBeyond(cache, floor, es, x);
      assert false;
    }
  }

  lemma BelowAcknowledged(cache: Cache, floor: uint64, es: seq<Event>, x: uint64)
    requires es != []
    ensures EarlierAreBelow(cache, floor, es, |es| - 1, x)
       <==> AllUpTo(Acknowledgements(cache, floor, es[..|es| - 1]), x)
  {
    var front, last := es[..|es| - 1], |es| - 1;
    hide HandledPosition, PositionAt, Sends, Acknowledgements;
    forall j: nat | j < last
      ensures PositionAt(cache, floor, es, j) == PositionAt(cache, floor, front, j)
      ensures Sends(cache, es, j) <==> Sends(cache, front, j)
      ensures Sends(cache, es, j) ==> PositionAt(cache, floor, es, j) in Acknowledgements(cache, floor, front)
    {
      SendsInFront(cache, floor, es, j);
      AcknowledgementsAt(cache, floor, front, PositionAt(cache, floor, es, j));
    }
    forall y | y in Acknowledgements(cache, floor, front)
      ensures exists j :: 0 <= j < last && Sends(cache, es, j) && PositionAt(cache, floor, es, j) == y
    {
      AcknowledgementsAt(cache, floor, front, y);
      var j :| 0 <= j < last && Sends(cache, front, j) && PositionAt(cache, floor, front, j) == y;
      assert Sends(cache, es, j);
    }
  }

  lemma {:induction false} AscendingIfRise(cache: Cache, floor: uint64, es: seq<Event>)
    ensures Ascending(Acknowledgements(cache, floor, es)) <==> PositionsRise(cache, floor, es)
    decreases |es|
  {
    hide Ascending, PositionsRise, EarlierAreBelow, Sends, HandledPosition;
    if es == [] {
      NothingAscends(cache, floor);
    } else {
      var front, x := es[..|es| - 1], HandledPosition(cache, floor, es);
      AscendingIfRise(cache, floor, front);
      AscendingAppend(Acknowledgements(cache, floor, front), x);
      BelowAcknowledged(cache, floor, es, x);
      assert es[..|es| - 1 + 1] == es;
      RiseAppend(cache, floor, es, x);
      assert Acknowledgements(cache, floor, front) + [] == Acknowledgements(cache, floor, front);
    }
  }

  lemma NothingAscends(cache: Cache, floor: uint64)
    ensures Ascending([]) && PositionsRise(cache, floor, [])
  {
  }

  lemma MappedAscends(replies: seq<bytes>)
    ensures Ascending(Map(Acknowledged, replies))
       <==> forall k, l | 0 <= k <= l < |replies| :: Acknowledged(replies[k]) <= Acknowledged(replies[l])
  {
    var xs := Map(Acknowledged, replies);
    assert forall k | 0 <= k < |replies| :: xs[k] == Acknowledged(replies[k]);
    hide Acknowledged;
  }

  /** At this event the position handled so far is reported, whether or not the reply gets through. */
  predicate Reports(cache: Cache, es: seq<Event>, j: nat)
    requires j < |es|
  {
    IsDue(cache, es, j) && es[j].link != Down
  }

  ghost predicate NoneReports(cache: Cache, es: seq<Event>, from: nat) {
    forall j | from <= j < |es| :: !Reports(cache, es, j)
  }

  /** The last report, or -1, decides what restart is. */
  lemma {:induction false} LastReport(cache: Cache, configured: uint64, es: seq<Event>) returns (j: int)
    ensures -1 <= j < |es| && NoneReports(cache, es, j + 1)
    ensures j == -1 ==> RestartPosition(cache, 0, configured, es) == configured
    ensures j >= 0 ==> Reports(cache, es, j) && RestartPosition(cache, 0, configured, es) == PositionAt(cache, 0, es, j)
    decreases |es|
  {
    hide CacheOn, Readable, WalLsn, HandledPosition;
    j := -1;
    if es != [] {
      var front := es[..|es| - 1];
      assert es[..|es| - 1 + 1] == es;
      if Reports(cache, es, |es| - 1) {
        j := |es| - 1;
      } else {
        j := LastReport(cache, configured, front);
        forall k | j < k < |front|
          ensures !Reports(cache, es, k)
        {
          assert front[..k] == es[..k];
          assert !Reports(cache, front, k);
        }
        if j >= 0 {
          assert front[..j] == es[..j] && front[..j + 1] == es[..j + 1];
        }
      }
    }
  }

  /** Restart is at most what is handled now: by the position of the last report, or the configured one. */
  ghost predicate ReportNotAhead(cache: Cache, configured: uint64, es: seq<Event>) {
    && (NoneReports(cache, es, 0) ==> configured <= HandledPosition(cache, 0, es))
    && (forall j | 0 <= j < |es| && Reports(cache, es, j) && NoneReports(cache, es, j + 1) ::
          PositionAt(cache, 0, es, j) <= HandledPosition(cache, 0, es))
  }

  lemma RestartIsReported(cache: Cache, configured: uint64, es: seq<Event>)
    ensures RestartPosition(cache, 0, configured, es) <= HandledPosition(cache, 0, es)
        <==> ReportNotAhead(cache, configured, es)
  {
    var last := LastReport(cache, configured, es);
    hide HandledPosition, RestartPosition, Reports, PositionAt;
    if last >= 0 {
      assert !NoneReports(cache, es, 0);
    }
    forall j | 0 <= j < |es| && Reports(cache, es, j) && NoneReports(cache, es, j + 1)
      ensures j == last
    {
    }
  }

  /**
    The order of the positions, over every run and whatever positions the packets carry: the
    acknowledged ones never decrease exactly if the positions handled at the status updates rise.
    Applied is at most received exactly if the last packet is not behind the last handled one.
    Restart is at most applied exactly if what was handled at the last report is not behind what is
    handled now, or, before the first report, if the configured position has been reached.
   */
  lemma PositionsOrdered(configured: uint64, es: seq<Event>)
    ensures var p := Run(Start(configured), es);
            && ((forall k, l | 0 <= k <= l < |p.replies| :: Acknowledged(p.replies[k]) <= Acknowledged(p.replies[l]))
                <==> PositionsRise(map[], 0, es))
            && (p.applied <= p.received <==> HandledPosition(map[], 0, es) <= LastPosition(0, es))
            && (p.restart <= p.applied <==> ReportNotAhead(map[], configured, es))
  {
    RunIsTold(Start(configured), es);
    AscendingIfRise(map[], 0, es);
    MappedAscends(Run(Start(configured), es).replies);
    RestartIsReported(map[], configured, es);
    hide Run, Ascending, PositionsRise, ReportNotAhead, Acknowledged, Acknowledgements, HandledPosition, LastPosition,
      RestartPosition;
  }

  /** Assumed of a server: the end of WAL it states in its packets never falls back. */
  ghost predicate Rising(es: seq<Event>) {
    forall i, j | 0 <= i <= j < |es| && IsData(es[i]) && IsData(es[j]) :: WalLsn(es[i].raw) <= WalLsn(es[j].raw)
  }

  lemma {:induction false} HandledIsSome(cache: Cache, es: seq<Event>, n: nat) returns (m: int)
    requires n <= |es|
    ensures -1 <= m < n
    ensures m == -1 ==> HandledPosition(cache, 0, es[..n]) == 0
    ensures m >= 0 ==> Good(cache, es, m) && HandledPosition(cache, 0, es[..n]) == WalLsn(es[m].raw)
    ensures forall k | m < k < n :: !Good(cache, es, k)
    decreases n
  {
    hide CacheOn, Readable, WalLsn;
    if n == 0 {
      m := -1;
    } else {
      assert es[..n][..n - 1] == es[..n - 1];
      assert Good(cache, es[..n], n - 1) <==> Good(cache, es, n - 1);
      if Good(cache, es, n - 1) {
        m := n - 1;
      } else {
        m := HandledIsSome(cache, es, n - 1);
      }
    }
  }

  lemma HandledRises(cache: Cache, es: seq<Event>, i: nat, j: nat)
    requires Rising(es) && i <= j <= |es|
    ensures HandledPosition(cache, 0, es[..i]) <= HandledPosition(cache, 0, es[..j])
  {
    var m := HandledIsSome(cache, es, i);
    var n := HandledIsSome(cache, es, j);
    hide HandledPosition, Readable, CacheOn, WalLsn;
    if m >= 0 {
      assert n >= m;
    }
  }

  lemma {:induction false} HandledIsReceived(cache: Cache, es: seq<Event>)
    requires Rising(es)
    ensures HandledPosition(cache, 0, es) <= LastPosition(0, es)
    decreases |es|
  {
    if es != [] && !IsData(es[|es| - 1]) {
      var front := es[..|es| - 1];
      HandledIsReceived(cache, front);
    } else if es != [] {
      var m := HandledIsSome(cache, es, |es|);
      assert es[..|es|] == es;
    }
  }

  lemma RestartIsHandled(cache: Cache, configured: uint64, es: seq<Event>)
    requires Rising(es)
    ensures RestartPosition(cache, 0, configured, es) <= HandledPosition(cache, 0, es)
       <==> configured <= HandledPosition(cache, 0, es) || !NoneReports(cache, es, 0)
    ensures NoneReports(cache, es, 0) ==> RestartPosition(cache, 0, configured, es) == configured
  {
    var j := LastReport(cache, configured, es);
    if j >= 0 {
      HandledRises(cache, es, j + 1, |es|);
      assert es[..|es|] == es;
    }
    hide HandledPosition, RestartPosition, Reports, Rising;
  }

  /**
    If they do not fall back, the positions are in order, but for restart: it is ahead of applied
    exactly while a configured position is not reached and no report has been made.
   */
  lemma RisingIsOrdered(configured: uint64, es: seq<Event>)
    requires Rising(es)
    ensures var p := Run(Start(configured), es);
            && p.applied <= p.received
            && (p.restart <= p.applied
                <==> configured <= p.applied || exists j :: 0 <= j < |es| && IsDue(map[], es, j) && es[j].link != Down)
            && (p.restart <= p.applied || p.restart == configured)
            && (forall k, l | 0 <= k <= l < |p.replies| :: Acknowledged(p.replies[k]) <= Acknowledged(p.replies[l]))
  {
    RunIsTold(Start(configured), es);
    hide *;
    PositionsOrdered(configured, es);
    HandledIsReceived(map[], es);
    RestartIsHandled(map[], configured, es);
    SomeReport(map[], es);
    RisingPositions(map[], es);
  }

  lemma SomeReport(cache: Cache, es: seq<Event>)
    ensures !NoneReports(cache, es, 0) <==> exists j :: 0 <= j < |es| && IsDue(cache, es, j) && es[j].link != Down
  {
    hide IsDue;
    if !NoneReports(cache, es, 0) {
      var j :| 0 <= j < |es| && Reports(cache, es, j);
      assert IsDue(cache, es, j);
    }
    if j :| 0 <= j < |es| && IsDue(cache, es, j) && es[j].link != Down {
      assert Reports(cache, es, j);
    }
  }

  lemma RisingPositions(cache: Cache, es: seq<Event>)
    requires Rising(es)
    ensures PositionsRise(cache, 0, es)
  {
    hide HandledPosition, Sends, Rising;
    forall i, j | 0 <= i <= j < |es| && Sends(cache, es, i) && Sends(cache, es, j)
      ensures PositionAt(cache, 0, es, i) <= PositionAt(cache, 0, es, j)
    {
      HandledRises(cache, es, i + 1, j + 1);
    }
  }

  /** A keepalive right after a start from position 5 acknowledges 0 and moves restart back to 0. */
  lemma RestartFallsBehindConfigured()
    ensures var p := Run(Start(5), [Packet("k", Up, 0)]);
            p.restart == 0 && |p.replies| == 1 && Acknowledged(p.replies[0]) == 0
            && Run(Start(5), []).restart > Run(Start(5), []).applied
  {
    var es := [Packet("k", Up, 0)];
    assert es[..0] == [];
    ReplyDecodes(0, 0, 0);
  }

  // ----- What an acknowledged position stands for -----

  /** Every data packet at or below an acknowledged position went through the handler. */
  ghost predicate AcknowledgedWasHandled(p: Producer, es: seq<Event>) {
    var replies := Run(p, es).replies;
    forall i, k | 0 <= i < |es| && IsData(es[i]) && 0 <= k < |replies|
        && WalLsn(es[i].raw) <= Acknowledged(replies[k]) ::
      OutcomeAt(p, es, i).Handled?
  }

  /** All status updates go out at positions below the given one. */
  ghost predicate SentBelow(cache: Cache, floor: uint64, es: seq<Event>, lsn: uint64) {
    forall j | 0 <= j < |es| && Sends(cache, es, j) :: PositionAt(cache, floor, es, j) < lsn
  }

  /** No status update goes out at or beyond the position of a packet that cannot be handled. */
  ghost predicate BadStayAhead(cache: Cache, floor: uint64, es: seq<Event>) {
    forall i | 0 <= i < |es| && Bad(cache, es, i) :: SentBelow(cache, floor, es, WalLsn(es[i].raw))
  }

  ghost predicate AllBelow(replies: seq<bytes>, lsn: uint64) {
    forall k | 0 <= k < |replies| :: Acknowledged(replies[k]) < lsn
  }

  ghost predicate MembersBelow(xs: seq<uint64>, lsn: uint64) {
    forall y | y in xs :: y < lsn
  }

  lemma MappedBelow(replies: seq<bytes>, lsn: uint64)
    ensures AllBelow(replies, lsn) <==> MembersBelow(Map(Acknowledged, replies), lsn)
  {
    var xs := Map(Acknowledged, replies);
    hide Acknowledged;
    assert forall k | 0 <= k < |replies| :: xs[k] == Acknowledged(replies[k]) && xs[k] in xs;
    if AllBelow(replies, lsn) {
      forall y | y in xs
        ensures y < lsn
      {
        var k :| 0 <= k < |xs| && xs[k] == y;
        assert Acknowledged(replies[k]) == y;
      }
    }
  }

  lemma SentIsAcknowledged(cache: Cache, floor: uint64, es: seq<Event>, lsn: uint64)
    ensures SentBelow(cache, floor, es, lsn) <==> MembersBelow(Acknowledgements(cache, floor, es), lsn)
  {
    hide Acknowledgements, Sends, PositionAt;
    forall j | 0 <= j < |es| && Sends(cache, es, j)
      ensures PositionAt(cache, floor, es, j) in Acknowledgements(cache, floor, es)
    {
      AcknowledgementsAt(cache, floor, es, PositionAt(cache, floor, es, j));
    }
    if SentBelow(cache, floor, es, lsn) {
      forall y | y in Acknowledgements(cache, floor, es)
        ensures y < lsn
      {
        AcknowledgementsAt(cache, floor, es, y);
        var j :| 0 <= j < |es| && Sends(cache, es, j) && PositionAt(cache, floor, es, j) == y;
      }
    }
  }

  lemma RepliesBelow(p: Producer, es: seq<Event>, lsn: uint64)
    requires p.replies == []
    ensures AllBelow(Run(p, es).replies, lsn) <==> SentBelow(p.cache, p.applied, es, lsn)
  {
    hide *;
    RunIsTold(p, es);
    MappedBelow(Run(p, es).replies, lsn);
    SentIsAcknowledged(p.cache, p.applied, es, lsn);
  }

  lemma HandledUnlessBad(p: Producer, es: seq<Event>, i: nat)
    requires p.replies == [] && i < |es| && IsData(es[i])
    ensures OutcomeAt(p, es, i).Handled? <==> !Bad(p.cache, es, i)
  {
    OutcomeIsTold(p, es, i);
    hide OutcomeAt, Readable, CacheOn;
  }

  /**
    Acknowledgement safety, over every run and whatever positions the packets carry: everything at or
    below an acknowledged position was handled exactly if no status update goes out at or beyond the
    position of a packet that does not decode or whose tuple is wider than its relation.
   */
  lemma {:induction false} AcknowledgementIsSafe(p: Producer, es: seq<Event>)
    requires p.replies == []
    ensures AcknowledgedWasHandled(p, es) <==> BadStayAhead(p.cache, p.applied, es)
  {
    var replies := Run(p, es).replies;
    hide Run, OutcomeAt, Acknowledged, SentBelow, HandledPosition, CacheOn, Readable, WalLsn;
    if AcknowledgedWasHandled(p, es) {
      forall i | 0 <= i < |es| && Bad(p.cache, es, i)
        ensures SentBelow(p.cache, p.applied, es, WalLsn(es[i].raw))
      {
        HandledUnlessBad(p, es, i);
        RepliesBelow(p, es, WalLsn(es[i].raw));
      }
    }
    if BadStayAhead(p.cache, p.applied, es) {
      forall i, k | 0 <= i < |es| && IsData(es[i]) && 0 <= k < |replies|
          && WalLsn(es[i].raw) <= Acknowledged(replies[k])
        ensures OutcomeAt(p, es, i).Handled?
      {
        HandledUnlessBad(p, es, i);
        RepliesBelow(p, es, WalLsn(es[i].raw));
      }
    }
  }

  /**
    As soon as a position is acknowledged, every data packet at or below it, of the whole run, has
    arrived and gone through the handler.
   */
  ghost predicate AlreadyHandled(p: Producer, es: seq<Event>) {
    forall n, i | 0 <= n <= |es| && 0 <= i < |es| && IsData(es[i])
        && !AllBelow(Run(p, es[..n]).replies, WalLsn(es[i].raw)) ::
      i < n && OutcomeAt(p, es, i).Handled?
  }

  /** No packet arrives at or below a position that a status update has gone out at. */
  ghost predicate NoneBehind(cache: Cache, floor: uint64, es: seq<Event>) {
    forall i, j | 0 <= j < i < |es| && IsData(es[i]) && Sends(cache, es, j) ::
        PositionAt(cache, floor, es, j) < WalLsn(es[i].raw)
  }

  /** All status updates of the first `n` events go out at positions below the given one. */
  ghost predicate SentBelowBy(cache: Cache, floor: uint64, es: seq<Event>, n: nat, lsn: uint64)
    requires n <= |es|
  {
    forall j | 0 <= j < n && Sends(cache, es, j) :: PositionAt(cache, floor, es, j) < lsn
  }

  lemma SentInPrefix(cache: Cache, floor: uint64, es: seq<Event>, n: nat, lsn: uint64)
    requires n <= |es|
    ensures SentBelow(cache, floor, es[..n], lsn) <==> SentBelowBy(cache, floor, es, n, lsn)
  {
    var front := es[..n];
    forall j | 0 <= j < n
      ensures Sends(cache, front, j) <==> Sends(cache, es, j)
      ensures PositionAt(cache, floor, front, j) == PositionAt(cache, floor, es, j)
    {
      assert front[..j] == es[..j] && front[..j + 1] == es[..j + 1];
      hide HandledPosition, CacheOn, Readable;
    }
    hide Sends, PositionAt;
  }

  /** What a reply after `n` events covers, and whether a packet was handled, told from the packets. */
  ghost predicate ToldAt(p: Producer, es: seq<Event>, n: nat, i: nat)
    requires n <= |es| && i < |es| && IsData(es[i])
  {
    && (AllBelow(Run(p, es[..n]).replies, WalLsn(es[i].raw))
        <==> SentBelowBy(p.cache, p.applied, es, n, WalLsn(es[i].raw)))
    && (OutcomeAt(p, es, i).Handled? <==> !Bad(p.cache, es, i))
  }

  lemma IsToldAt(p: Producer, es: seq<Event>, n: nat, i: nat)
    requires p.replies == [] && n <= |es| && i < |es| && IsData(es[i])
    ensures ToldAt(p, es, n, i)
  {
    hide Run, OutcomeAt, AllBelow, Bad, SentBelow, SentBelowBy, WalLsn;
    RepliesBelow(p, es[..n], WalLsn(es[i].raw));
    SentInPrefix(p.cache, p.applied, es, n, WalLsn(es[i].raw));
    HandledUnlessBad(p, es, i);
  }

  lemma AheadIsInTime(p: Producer, es: seq<Event>)
    requires p.replies == [] && BadStayAhead(p.cache, p.applied, es) && NoneBehind(p.cache, p.applied, es)
    ensures AlreadyHandled(p, es)
  {
    hide Run, OutcomeAt, AllBelow, Sends, PositionAt, CacheOn, Readable, WalLsn;
    forall n, i | 0 <= n <= |es| && 0 <= i < |es| && IsData(es[i])
        && !AllBelow(Run(p, es[..n]).replies, WalLsn(es[i].raw))
      ensures i < n && OutcomeAt(p, es, i).Handled?
    {
      IsToldAt(p, es, n, i);
      var j :| 0 <= j < n && Sends(p.cache, es, j) && PositionAt(p.cache, p.applied, es, j) >= WalLsn(es[i].raw);
      assert !Bad(p.cache, es, i);
      assert !(j < i);
    }
  }

  lemma InTimeIsAhead(p: Producer, es: seq<Event>)
    requires p.replies == [] && AlreadyHandled(p, es)
    ensures BadStayAhead(p.cache, p.applied, es) && NoneBehind(p.cache, p.applied, es)
  {
    hide Run, OutcomeAt, AllBelow, Sends, PositionAt, CacheOn, Readable, WalLsn, Bad;
    forall i, j | 0 <= i < |es| && IsData(es[i]) && 0 <= j < |es| && Sends(p.cache, es, j)
        && (j < i || Bad(p.cache, es, i))
      ensures PositionAt(p.cache, p.applied, es, j) < WalLsn(es[i].raw)
    {
      IsToldAt(p, es, j + 1, i);
    }
    assert forall i | 0 <= i < |es| && Bad(p.cache, es, i) :: IsData(es[i]) by {
      BadIsData(p.cache, es);
    }
  }

  lemma BadIsData(cache: Cache, es: seq<Event>)
    ensures forall i | 0 <= i < |es| && Bad(cache, es, i) :: IsData(es[i])
  {
  }

  /**
    Acknowledgement safety at the moment of the reply, over every run: it holds exactly if, besides,
    no packet comes at or below a position that a status update has already gone out at.
   */
  lemma AcknowledgedInTime(p: Producer, es: seq<Event>)
    requires p.replies == []
    ensures AlreadyHandled(p, es) <==> BadStayAhead(p.cache, p.applied, es) && NoneBehind(p.cache, p.applied, es)
  {
    hide AlreadyHandled, BadStayAhead, NoneBehind;
    if AlreadyHandled(p, es) {
      InTimeIsAhead(p, es);
    } else if BadStayAhead(p.cache, p.applied, es) && NoneBehind(p.cache, p.applied, es) {
      AheadIsInTime(p, es);
      assert false;
    }
  }

  /** What is safe at the end of a run was safe all along. */
  lemma {:induction false} SafeAllAlong(cache: Cache, floor: uint64, es: seq<Event>, n: nat)
    requires n <= |es| && BadStayAhead(cache, floor, es)
    ensures BadStayAhead(cache, floor, es[..n])
  {
    var front := es[..n];
    forall i | 0 <= i < n && Bad(cache, front, i)
      ensures SentBelow(cache, floor, front, WalLsn(front[i].raw))
    {
      assert front[..i] == es[..i];
      assert Bad(cache, es, i);
      forall j | 0 <= j < n && Sends(cache, front, j)
        ensures PositionAt(cache, floor, front, j) < WalLsn(front[i].raw)
      {
        assert front[..j] == es[..j] && front[..j + 1] == es[..j + 1];
        assert Sends(cache, es, j);
      }
    }
  }

  /** The handled packets up to an event, and the start, are all below a position. */
  ghost predicate HandledBelow(cache: Cache, es: seq<Event>, j: nat, lsn: uint64)
    requires j < |es|
  {
    0 < lsn && forall m | 0 <= m <= j && Good(cache, es, m) :: WalLsn(es[m].raw) < lsn
  }

  /**
    If positions do not fall back, the condition is about three events: no bad packet is followed or
    preceded by a handled one at or beyond it that a later status update covers; and none is at 0.
   */
  lemma {:induction false} SafeIfRising(cache: Cache, es: seq<Event>)
    requires Rising(es)
    ensures BadStayAhead(cache, 0, es)
       <==> forall i, j | 0 <= i < |es| && 0 <= j < |es| && Bad(cache, es, i) && Sends(cache, es, j) ::
              HandledBelow(cache, es, j, WalLsn(es[i].raw))
  {
    hide PositionAt, Sends, WalLsn, Rising, HandledBelow, CacheOn, Readable;
    forall i, j | 0 <= i < |es| && 0 <= j < |es| && Bad(cache, es, i) && Sends(cache, es, j)
      ensures PositionAt(cache, 0, es, j) < WalLsn(es[i].raw) <==> HandledBelow(cache, es, j, WalLsn(es[i].raw))
    {
      LastIsHighest(cache, es, j, WalLsn(es[i].raw));
    }
  }

  lemma LastIsHighest(cache: Cache, es: seq<Event>, j: nat, lsn: uint64)
    requires Rising(es) && j < |es|
    ensures PositionAt(cache, 0, es, j) < lsn <==> HandledBelow(cache, es, j, lsn)
  {
    var n := HandledIsSome(cache, es, j + 1);
    hide HandledPosition, Readable, CacheOn, WalLsn;
  }

  /** The positions of the packets that are handled never fall back. */
  ghost predicate HandledRise(cache: Cache, es: seq<Event>) {
    forall i, j | 0 <= i <= j < |es| && Good(cache, es, i) && Good(cache, es, j) ::
        WalLsn(es[i].raw) <= WalLsn(es[j].raw)
  }

  lemma PositionsFollow(cache: Cache, es: seq<Event>, i: nat, j: nat)
    requires HandledRise(cache, es) && i <= j < |es|
    ensures PositionAt(cache, 0, es, i) <= PositionAt(cache, 0, es, j)
  {
    hide CacheOn, Readable, WalLsn, HandledPosition;
    var m := HandledIsSome(cache, es, i + 1);
    var n := HandledIsSome(cache, es, j + 1);
    if m >= 0 {
      assert n >= m;
    }
  }

  /** With the connection up throughout, it is the positions of the handled packets that must rise. */
  lemma {:induction false} RiseIfConnected(cache: Cache, es: seq<Event>)
    requires forall e | e in es :: e.link == Up
    ensures PositionsRise(cache, 0, es) <==> HandledRise(cache, es)
  {
    hide CacheOn, Readable, Sends, PositionAt, WalLsn;
    if PositionsRise(cache, 0, es) {
      forall i, j | 0 <= i <= j < |es| && Good(cache, es, i) && Good(cache, es, j)
        ensures WalLsn(es[i].raw) <= WalLsn(es[j].raw)
      {
        GoodIsReported(cache, es, i);
        GoodIsReported(cache, es, j);
      }
    }
    if HandledRise(cache, es) {
      forall i, j | 0 <= i <= j < |es| && Sends(cache, es, i) && Sends(cache, es, j)
        ensures PositionAt(cache, 0, es, i) <= PositionAt(cache, 0, es, j)
      {
        PositionsFollow(cache, es, i, j);
      }
    }
  }

  lemma GoodIsReported(cache: Cache, es: seq<Event>, i: nat)
    requires i < |es| && Good(cache, es, i) && forall e | e in es :: e.link == Up
    ensures Sends(cache, es, i) && PositionAt(cache, 0, es, i) == WalLsn(es[i].raw)
  {
    assert es[i] in es;
    assert es[..i + 1][..i] == es[..i];
    hide CacheOn, Readable, WalLsn;
  }

  // ----- Well-formed streams -----

  /** What the data packets among the events carry, behind their 25-byte headers. */
  function Payloads(es: seq<Event>): seq<bytes> {
    if es == [] then []
    else
      var e := es[|es| - 1];
      Payloads(es[..|es| - 1]) + (if IsData(e) then [e.raw[HEADER..]] else [])
  }

  lemma LastPayload(ws: seq<WireMessage>, es: seq<Event>)
    requires forall w | w in ws :: Decodable(w)
    requires es != [] && Payloads(es) == Encodings(ws)
    ensures IsData(es[|es| - 1]) ==>
              && ws != [] && Decodable(ws[|ws| - 1]) && es[|es| - 1].raw[HEADER..] == EncodeMessage(ws[|ws| - 1])
              && (forall w | w in ws[..|ws| - 1] :: Decodable(w))
              && Payloads(es[..|es| - 1]) == Encodings(ws[..|ws| - 1])
    ensures !IsData(es[|es| - 1]) ==> Payloads(es[..|es| - 1]) == Encodings(ws)
  {
    hide EncodeMessage, Decodable;
    var payloads := Payloads(es[..|es| - 1]);
    if IsData(es[|es| - 1]) {
      assert Payloads(es) == payloads + [es[|es| - 1].raw[HEADER..]];
      assert payloads == Payloads(es)[..|Payloads(es)| - 1];
      assert ws[|ws| - 1] in ws;
      forall w | w in ws[..|ws| - 1]
        ensures Decodable(w)
      {
        assert w in ws;
      }
    }
  }

  /** Each message can be decoded and has no wider tuple than the last relation sent for its id. */
  predicate WellFormed(ws: seq<WireMessage>, cache: Cache) {
    ws == [] ||
    var front, w := ws[..|ws| - 1], ws[|ws| - 1];
    WellFormed(front, cache) && Decodable(w) && NoWider(Decoded(w), CacheOf(front, cache))
  }

  lemma {:induction false} WellFormedDecodes(ws: seq<WireMessage>, cache: Cache)
    requires WellFormed(ws, cache)
    ensures forall w | w in ws :: Decodable(w)
    decreases |ws|
  {
    if ws != [] {
      WellFormedDecodes(ws[..|ws| - 1], cache);
      assert ws == ws[..|ws| - 1] + [ws[|ws| - 1]];
    }
  }

  ghost predicate NoneBad(cache: Cache, es: seq<Event>) {
    forall i: nat | i < |es| :: !Bad(cache, es, i)
  }

  lemma NoneBadAppend(cache: Cache, es: seq<Event>)
    requires es != [] && NoneBad(cache, es[..|es| - 1])
    requires IsData(es[|es| - 1]) ==> Readable(es[|es| - 1].raw[HEADER..], CacheOn(cache, es[..|es| - 1]))
    ensures NoneBad(cache, es)
  {
    hide CacheOn, Readable;
    var front := es[..|es| - 1];
    forall i: nat | i < |front|
      ensures !Bad(cache, es, i)
    {
      assert front[..i] == es[..i];
      assert !Bad(cache, front, i);
    }
  }

  lemma {:induction false} StreamIsHandled(ws: seq<WireMessage>, cache: Cache, es: seq<Event>)
    requires WellFormed(ws, cache) && forall w | w in ws :: Decodable(w)
    requires Payloads(es) == Encodings(ws)
    ensures NoneBad(cache, es) && CacheOn(cache, es) == CacheOf(ws, cache)
    decreases |es|
  {
    hide EncodeMessage, DecodeMessage, Decodable, Encodings, Payloads, Bad, Decoded, NoWider, CacheAfter;
    if es == [] {
      NothingSent(ws);
    } else {
      LastPayload(ws, es);
      var front, e := es[..|es| - 1], es[|es| - 1];
      if IsData(e) {
        var before, w := ws[..|ws| - 1], ws[|ws| - 1];
        StreamIsHandled(before, cache, front);
        MessageRoundTrip(w, CacheOf(before, cache));
        NoneBadAppend(cache, es);
      } else {
        StreamIsHandled(ws, cache, front);
        NoneBadAppend(cache, es);
      }
    }
  }

  lemma NothingSent(ws: seq<WireMessage>)
    requires forall w | w in ws :: Decodable(w)
    ensures Encodings(ws) == Payloads([]) ==> ws == []
  {
    assert |Encodings(ws)| == |ws|;
  }

  /** If every packet is well-formed, everything acknowledged was handled, in every run. */
  lemma {:induction false} WellFormedIsSafe(p: Producer, ws: seq<WireMessage>, es: seq<Event>)
    requires p.replies == [] && WellFormed(ws, p.cache) && forall w | w in ws :: Decodable(w)
    requires Payloads(es) == Encodings(ws)
    ensures AcknowledgedWasHandled(p, es)
    ensures forall i | 0 <= i < |es| :: !OutcomeAt(p, es, i).Failing?
  {
    StreamIsHandled(ws, p.cache, es);
    AcknowledgementIsSafe(p, es);
    hide AcknowledgedWasHandled, Bad, OutcomeAt, WellFormed, Payloads, Encodings, SentBelow;
    assert forall i: nat | i < |es| :: !Bad(p.cache, es, i);
    forall i: nat | i < |es|
      ensures !OutcomeAt(p, es, i).Failing?
    {
      OutcomeIsTold(p, es, i);
    }
  }

  // ----- A failing input -----

  /** An XLogData packet: start of the data, end of WAL, clock, and the message. */
  function WalPacket(start: uint64, lsn: uint64, clock: uint64, message: bytes): (raw: bytes)
    ensures IsWal(raw) && raw[HEADER..] == message
  {
    ['w'] + Be64(start) + Be64(lsn) + Be64(clock) + message
  }

  lemma WalPacketLsn(start: uint64, lsn: uint64, clock: uint64, message: bytes)
    ensures WalLsn(WalPacket(start, lsn, clock, message)) == lsn
  {
    var raw := WalPacket(start, lsn, clock, message);
    assert raw == ['w'] + Be64(start) + Be64(lsn) + Be64(clock) + message + [];
    assert At(raw, 9, Be64(lsn)) by {
      assert ['w'] + Be64(start) + Be64(lsn) + Be64(clock) + message
          == (['w'] + Be64(start)) + (Be64(lsn) + (Be64(clock) + message));
      AtSlice(raw, 9, Be64(lsn));
    }
    ReadUint64At(raw, 9, lsn);
  }

  /**
    The failing input: a packet at 1 whose message no case of the parser takes, and a packet at 2
    that is handled. Position 2 is acknowledged, and the message at 1 never reached the handler.
   */
  lemma OvertakenFailureIsAcknowledged()
    ensures var begin := WireBegin(2, 0, 7);
            var es := [Packet(WalPacket(0, 1, 0, "Z"), Up, 0), Packet(WalPacket(1, 2, 0, EncodeMessage(begin)), Up, 0)];
            var p := Run(Start(0), es);
            && |p.replies| == 1 && Acknowledged(p.replies[0]) == 2
            && OutcomeAt(Start(0), es, 0) == Failing(1)
            && !AcknowledgedWasHandled(Start(0), es)
  {
    var begin := WireBegin(2, 0, 7);
    var first, second := Packet(WalPacket(0, 1, 0, "Z"), Up, 0),
        Packet(WalPacket(1, 2, 0, EncodeMessage(begin)), Up, 0);
    assert begin.WireBegin?;
    hide *;
    WalPacketLsn(0, 1, 0, "Z");
    WalPacketLsn(1, 2, 0, EncodeMessage(begin));
    UnknownIsUnreadable(first.raw[HEADER..], map[]);
    BeginIsReadable(begin, CacheOn(map[], [first]));
    SecondAcknowledged(first, second);
  }

  /**
    The failing input: two packets at 1, as for two messages below one end of WAL. The reply to the
    first acknowledges 1 before the second has come.
   */
  lemma SecondAtAcknowledged()
    ensures var raw := WalPacket(0, 1, 0, EncodeMessage(WireBegin(2, 0, 7)));
            var es := [Packet(raw, Up, 0), Packet(raw, Up, 0)];
            Rising(es) && AcknowledgedWasHandled(Start(0), es) && !AlreadyHandled(Start(0), es)
  {
    var begin := WireBegin(2, 0, 7);
    var packet := Packet(WalPacket(0, 1, 0, EncodeMessage(begin)), Up, 0);
    assert begin.WireBegin?;
    assert IsData(packet) && packet.raw[HEADER..] == EncodeMessage(begin);
    hide *;
    BeginIsReadable(begin, map[]);
    BeginIsReadable(begin, CacheOn(map[], [packet]));
    TwiceAt(packet);
  }

  lemma TwiceAt(e: Event)
    requires IsData(e) && e.link == Up
    requires Readable(e.raw[HEADER..], map[]) && Readable(e.raw[HEADER..], CacheOn(map[], [e]))
    ensures Rising([e, e]) && AcknowledgedWasHandled(Start(0), [e, e]) && !AlreadyHandled(Start(0), [e, e])
  {
    var es, p := [e, e], Start(0);
    assert es[..0] == [] && es[..1] == [e] && [e][..0] == [];
    hide Readable, WalLsn, Acknowledged, CacheAfter, Run, OutcomeAt, AlreadyHandled, AcknowledgedWasHandled;
    assert CacheOn(map[], []) == map[];
    assert Good(map[], es, 0) && Good(map[], [e], 0) && Good(map[], es, 1);
    assert Sends(map[], es, 0) && PositionAt(map[], 0, es, 0) == WalLsn(e.raw);
    assert forall i | 0 <= i < |es| :: !Bad(map[], es, i);
    hide Good, Bad, Sends, PositionAt, CacheOn, HandledPosition;
    assert !NoneBehind(map[], 0, es) by {
      assert IsData(es[1]) && WalLsn(es[1].raw) == WalLsn(e.raw);
    }
    hide NoneBehind, SentBelow;
    AcknowledgementIsSafe(p, es);
    AcknowledgedInTime(p, es);
  }

  lemma UnknownIsUnreadable(body: bytes, cache: Cache)
    requires body == "Z"
    ensures !Readable(body, cache)
  {
  }

  lemma BeginIsReadable(w: WireMessage, cache: Cache)
    requires w.WireBegin?
    ensures Readable(EncodeMessage(w), cache)
  {
    MessageRoundTrip(w, cache);
    assert Decoded(w) == Begin(w.lsn, w.timestamp);
    hide DecodeMessage, EncodeMessage, Decoded;
  }

  /** A bad packet, then a good one beyond it. */
  lemma SecondAcknowledged(a: Event, b: Event)
    requires IsData(a) && IsData(b) && a.link == b.link == Up && WalLsn(a.raw) <= WalLsn(b.raw)
    requires !Readable(a.raw[HEADER..], map[]) && Readable(b.raw[HEADER..], CacheOn(map[], [a]))
    ensures var p := Run(Start(0), [a, b]);
            && |p.replies| == 1 && Acknowledged(p.replies[0]) == WalLsn(b.raw)
            && OutcomeAt(Start(0), [a, b], 0) == Failing(WalLsn(a.raw))
            && !AcknowledgedWasHandled(Start(0), [a, b])
  {
    var es, p := [a, b], Start(0);
    assert es[..0] == [] && es[..1] == [a] && [a][..0] == [] && es[..2] == es;
    hide Readable, WalLsn, Acknowledged, CacheAfter, Run, OutcomeOf, OutcomeAt, AcknowledgedWasHandled;
    assert CacheOn(map[], []) == map[];
    assert Bad(map[], es, 0) && !Good(map[], [a], 0) && Good(map[], es, 1);
    assert Acknowledgements(map[], 0, es) == [WalLsn(b.raw)] by {
      assert Acknowledgements(map[], 0, [a]) == [] by {
        assert Acknowledgements(map[], 0, []) == [];
      }
    }
    hide Acknowledgements, HandledPosition, Bad, CacheOn;
    OutcomeIsTold(p, es, 0);
    AcknowledgementIsSafe(p, es);
    assert !SentBelow(map[], 0, es, WalLsn(a.raw)) by {
      SentIsAcknowledged(map[], 0, es, WalLsn(a.raw));
      assert WalLsn(b.raw) in [WalLsn(b.raw)];
    }
    RunIsTold(p, es);
    assert Map(Acknowledged, Run(p, es).replies) == [WalLsn(b.raw)];
  }
}
