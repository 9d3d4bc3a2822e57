/**
  All the pieces joined: WAL packets, producer, Kafka, the bounded queue between the two consumer
  threads, and the writer.
 */
module EndToEnd {
  import opened Bytes
  import opened Changes
  import opened History
  import opened Production
  import opened Acknowledgement
  import opened Convergence
  import opened Delivery
  import opened Logs
  import opened PartialDelivery
  import Replica
  import Replicator
  import opened QueueProtocol

  type Message = Replica.ConsumerMessage

  /** The consumer's two threads: `p` takes from Kafka and pushes, `w` pops and writes. */
  predicate TwoThreads(roles: seq<Role>, p: nat, w: nat) {
    |roles| == 2 && p < 2 && w < 2 && roles[p] == Pusher && roles[w] == Popper
  }

  /**
    What the writer has executed of what `pop` has returned to it: everything while it is inside the
    next `pop`, and all but perhaps the last message while it is outside.
   */
  ghost predicate Executed(s: State<Message>, w: nat, returned: seq<Message>, done: seq<Message>) {
    && w < |s.threads| && done <= returned
    && (if s.threads[w].pc == Idle then |returned| <= |done| + 1 else done == returned)
  }

  /** A reachable state of the consumer, with what Kafka has delivered and the writer executed. */
  ghost predicate Consumer(s: State<Message>, roles: seq<Role>, max: nat, p: nat, w: nat, steps: seq<Step<Message>>,
      delivered: seq<Keyed>, done: seq<Message>)
  {
    Reachable(s, roles, max, steps) && TwoThreads(roles, p, w) && s.offered == MessagesOf(delivered)
        && Executed(s, w, Returned(Init(roles, max), steps, w), done)
  }

  /** The writer has executed the messages of a first part of the delivery. */
  lemma ExecutedIsDelivered(server: Replica.Server, s: State<Message>, roles: seq<Role>, max: nat, p: nat, w: nat,
      steps: seq<Step<Message>>, delivered: seq<Keyed>, done: seq<Message>)
    requires Consumer(s, roles, max, p, w, steps, delivered, done)
    ensures |done| <= |delivered| && AppliedAll(server, map[], done) == Consumed(server, map[], delivered[..|done|])
  {
    hide AppliedAll, MessagesOf;
    DoneIsOffered(s, roles, max, p, w, steps, done);
    assert done == s.offered[..|done|];
    MessagesOfPrefix(delivered, |done|);
  }

  lemma DoneIsOffered(s: State<Message>, roles: seq<Role>, max: nat, p: nat, w: nat, steps: seq<Step<Message>>,
      done: seq<Message>)
    requires Reachable(s, roles, max, steps) && TwoThreads(roles, p, w)
    requires Executed(s, w, Returned(Init(roles, max), steps, w), done)
    ensures done <= s.offered
  {
    assert Run(Init<Message>(roles, max), steps);
    hide Reachable, Executed, Returned, Init, InHand;
    var returned := Returned(Init(roles, max), steps, w);
    ExecutedIsReturned(s, w, returned, done);
    ReturnedIsPopped(s, roles, max, w, steps);
    PoppedIsPrefixOfOffered(s, roles, max, p, steps);
  }

  lemma MessagesOfPrefix(xs: seq<Keyed>, n: nat)
    ensures |MessagesOf(xs)| == |xs|
    ensures n <= |xs| ==> MessagesOf(xs[..n]) == MessagesOf(xs)[..n]
  {
    hide MessageOf;
  }

  lemma ExecutedIsReturned(s: State<Message>, w: nat, returned: seq<Message>, done: seq<Message>)
    requires Executed(s, w, returned, done)
    ensures done <= returned
  {
  }

  /** A change gives at most one record, so the records of a history are cut only between changes. */
  lemma {:induction false} PrefixOfRecords(schema: Schema, h: seq<Change>, xs: seq<Keyed>) returns (n: nat)
    requires Valid(schema, h) && xs <= Records(schema, h)
    ensures n <= |h| && Valid(schema, h[..n]) && xs == Records(schema, h[..n])
    decreases |h|
  {
    hide CanHappen;
    n := |h|;
    assert h[..n] == h;
    if xs != Records(schema, h) {
      var front := h[..|h| - 1];
      HistoryWellTyped(schema, front);
      assert |Produced(schema, SourceAfter(front), h[|h| - 1])| <= 1;
      assert xs <= Records(schema, front);
      n := PrefixOfRecords(schema, front, xs);
      assert front[..n] == h[..n];
    }
  }

  ghost predicate MirrorsSomePrefix(schema: Schema, h: seq<Change>, db: Replica.Database) {
    exists n: nat :: n <= |h| && Mirrors(schema, SourceAfter(h[..n]), db)
  }

  /**
    Delivered in order, a faithful history is never misrepresented: whatever the threads of the
    consumer are doing, the replica equals the source after some prefix of the history.
   */
  lemma AlwaysSomePrefix(server: Replica.Server, schema: Schema, h: seq<Change>, s: State<Message>, roles: seq<Role>,
      max: nat, p: nat, w: nat, steps: seq<Step<Message>>, delivered: seq<Keyed>, done: seq<Message>)
    requires GoodSchema(schema) && Valid(schema, h) && AllFaithful(schema, h)
    requires delivered <= Records(schema, h)
    requires Consumer(s, roles, max, p, w, steps, delivered, done)
    ensures MirrorsSomePrefix(schema, h, AppliedAll(server, map[], done))
  {
    hide GoodSchema, CanHappen, Faithful, Mirrors, Consumed, FitsAll, Consumer, AppliedAll;
    ExecutedIsDelivered(server, s, roles, max, p, w, steps, delivered, done);
    var n := PrefixOfRecords(schema, h, delivered[..|done|]);
    FaithfulPrefix(schema, h, n);
    FaithfulMirrors(server, schema, h[..n]);
  }

  /**
    Delivered with only the order of equal keys kept, it is represented key by key: in every reachable
    state the replica's rows with a key are the source's after some prefix of the history.
   */
  lemma AlwaysSomePrefixOfKey(server: Replica.Server, schema: Schema, h: seq<Change>, s: State<Message>,
      roles: seq<Role>, max: nat, p: nat, w: nat, steps: seq<Step<Message>>, delivered: seq<Keyed>, done: seq<Message>,
      key: bytes) returns (n: nat)
    requires GoodSchema(schema) && Valid(schema, h) && AllFaithful(schema, h)
    requires IsPartOf(delivered, Records(schema, h))
    requires Consumer(s, roles, max, p, w, steps, delivered, done)
    ensures n <= |h| && ShowsKeyAfter(schema, h, n, key, AppliedAll(server, map[], done))
  {
    hide GoodSchema, Valid, Records, Faithful, FaithfulAt, Consumed, Consumer, AppliedAll, IsPartOf, ShowsKeyAfter;
    ExecutedIsDelivered(server, s, roles, max, p, w, steps, delivered, done);
    CutPart(delivered, Records(schema, h), |done|);
    n := PartialDeliveryShowsPrefixes(server, schema, h, delivered[..|done|], key);
  }

  /** At rest with the writer waiting, everything delivered has been executed. */
  lemma RestExecutesAll(s: State<Message>, roles: seq<Role>, max: nat, p: nat, w: nat, steps: seq<Step<Message>>,
      delivered: seq<Keyed>, done: seq<Message>)
    requires Consumer(s, roles, max, p, w, steps, delivered, done)
    requires AtRest(s) && SomeoneSleeps(s, Popper) && max >= 1
    ensures done == MessagesOf(delivered)
  {
    hide AtRest, Internal;
    AllTakenAtRest(s, roles, max, p, steps);
    RolesKept(Init<Message>(roles, max), steps);
    var u: nat :| u < |s.threads| && Sleeps(s.threads[u], Popper);
    assert u == w;
    ReturnedIsPopped(s, roles, max, w, steps);
  }

  /**
    End to end. The server sends the packets of a faithful history, with keepalives and timeouts in
    between; Kafka delivers every key's records in order; and once the consumer has come to rest,
    the replica equals the source.
   */
  lemma PipelineConverges(server: Replica.Server, schema: Schema, h: seq<Change>, es: seq<Replicator.Event>,
      configured: uint64, s: State<Message>, roles: seq<Role>, max: nat, p: nat, w: nat, steps: seq<Step<Message>>,
      delivered: seq<Keyed>, done: seq<Message>)
    requires GoodSchema(schema) && Valid(schema, h) && AllFaithful(schema, h)
    requires Payloads(es) == PacketsOf(schema, h)
    requires SameLogs(Replicator.Run(Start(configured), es).sent, delivered)
    requires Consumer(s, roles, max, p, w, steps, delivered, done)
    requires AtRest(s) && SomeoneSleeps(s, Popper) && max >= 1
    ensures Mirrors(schema, SourceAfter(h), AppliedAll(server, map[], done))
  {
    hide GoodSchema, Valid, CanHappen, Faithful, FaithfulAt, Mirrors, Payloads, SameLogs, Consumer, AtRest, AppliedAll,
      SomeoneSleeps;
    MessagesAreDecodable(schema, h);
    HistoryIsProduced(schema, h, es, configured);
    AnyDeliveryConverges(server, schema, h, delivered);
    RestExecutesAll(s, roles, max, p, w, steps, delivered, done);
  }
}
