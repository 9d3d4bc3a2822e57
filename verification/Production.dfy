/**
  The producing side: the packets of a valid history go through the producer, whose records are
  those of the history and whose acknowledgements cover nothing that was not handled.
 */
module Production {
  import opened Bytes
  import opened PgOutput
  import opened WireFormat
  import opened WireTheorems
  import opened Changes
  import opened Effects
  import opened History
  import opened Replicator
  import opened Acknowledgement
  import Identifiers

  lemma MessageIsDecodable(schema: Schema, src: Source, c: Change)
    requires GoodSchema(schema) && WellTyped(schema, src) && CanHappen(schema, src, c)
    ensures Decodable(SentFor(schema, src, c))
  {
    if c.Remove? {
      var row := Rows(src, c.id)[c.at];
      assert row in src.tables[c.id] && IsRow(schema[c.id], row);
    }
  }

  lemma {:induction false} MessagesAreDecodable(schema: Schema, h: seq<Change>)
    requires GoodSchema(schema) && Valid(schema, h)
    ensures forall w | w in Messages(schema, h) :: Decodable(w)
    decreases |h|
  {
    if h != [] {
      HistoryWellTyped(schema, h[..|h| - 1]);
      MessagesAreDecodable(schema, h[..|h| - 1]);
      MessageIsDecodable(schema, SourceAfter(h[..|h| - 1]), h[|h| - 1]);
    }
  }

  /** What the server sends for a history. */
  function PacketsOf(schema: Schema, h: seq<Change>): seq<bytes>
    requires GoodSchema(schema) && Valid(schema, h)
  {
    MessagesAreDecodable(schema, h);
    Encodings(Messages(schema, h))
  }

  /** The cache holds the schema's relations that were described, and no others. */
  predicate Knows(schema: Schema, described: set<uint32>, cache: Cache) {
    cache.Keys == described && forall id | id in cache :: id in schema && cache[id] == schema[id]
  }

  /** The packet of one change is decoded and handled, and yields exactly the change's record. */
  lemma ChangeIsProduced(schema: Schema, src: Source, c: Change, cache: Cache)
    requires GoodSchema(schema) && WellTyped(schema, src) && CanHappen(schema, src, c)
    requires Knows(schema, src.described, cache)
    ensures Decodable(SentFor(schema, src, c))
    ensures var message := DecodeMessage(EncodeMessage(SentFor(schema, src, c)), cache);
            && Handle(message, CacheAfter(cache, message)) == Done(Produced(schema, src, c))
            && Knows(schema, Advance(src, c).described, CacheAfter(cache, message))
  {
    MessageIsDecodable(schema, src, c);
    var w := SentFor(schema, src, c);
    var message := Some(Decoded(w));
    assert DecodeMessage(EncodeMessage(w), cache) == message by {
      MessageRoundTrip(w, cache);
    }
    CacheKeepsUp(schema, src, c, cache);
    if !c.Describe? {
      DecodedIsHandled(schema, src, c, cache);
    }
  }

  lemma CacheKeepsUp(schema: Schema, src: Source, c: Change, cache: Cache)
    requires GoodSchema(schema) && WellTyped(schema, src) && CanHappen(schema, src, c)
    requires Knows(schema, src.described, cache)
    ensures Knows(schema, Advance(src, c).described, CacheAfter(cache, Some(Decoded(SentFor(schema, src, c)))))
    ensures !c.Describe? ==> CacheAfter(cache, Some(Decoded(SentFor(schema, src, c)))) == cache
  {
    hide PlainRelation, RenderTuple, IsRow, AgreeUpToToast, Knows;
    match c
    case Describe(id) =>
      assert SentFor(schema, src, c) == WireRelation(schema[id]) && schema[id].id == id;
      KnowsAnother(schema, src.described, cache, id);
    case _ =>
  }

  lemma KnowsAnother(schema: Schema, described: set<uint32>, cache: Cache, id: uint32)
    requires id in schema && Knows(schema, described, cache)
    ensures Knows(schema, described + {id}, cache[id := schema[id]])
  {
  }

  lemma RowIsHandled(cache: Cache, id: uint32, tuple: seq<bytes>)
    requires id in cache && |tuple| <= |cache[id].columns|
    ensures Handle(Some(PgOutput.Insert(id, 'N', tuple)), cache) == Done([InsertChange(cache[id], tuple)])
    ensures Handle(Some(PgOutput.Delete(id, tuple)), cache) == Done([DeleteChange(cache[id], tuple)])
    ensures Handle(Some(PgOutput.Update(id, [], tuple)), cache) == Done([UpdateChange(cache[id], [], tuple)])
  {
  }

  lemma RemoveIsHandled(schema: Schema, src: Source, c: Change, cache: Cache)
    requires GoodSchema(schema) && WellTyped(schema, src) && CanHappen(schema, src, c)
    requires Knows(schema, src.described, cache) && c.Remove?
    ensures Handle(Some(Decoded(SentFor(schema, src, c))), cache) == Done(Produced(schema, src, c))
  {
    hide InsertChange, UpdateChange, DeleteChange, RenderTuple, PlainRelation, Handle;
    var row := Rows(src, c.id)[c.at];
    assert row in src.tables[c.id] && IsRow(schema[c.id], row);
    RowIsHandled(cache, c.id, RenderTuple(RemoveImage(schema[c.id], row, c.full)));
  }

  lemma ReplaceIsHandled(schema: Schema, src: Source, c: Change, cache: Cache)
    requires GoodSchema(schema) && WellTyped(schema, src) && CanHappen(schema, src, c)
    requires Knows(schema, src.described, cache) && c.Replace?
    ensures Handle(Some(Decoded(SentFor(schema, src, c))), cache) == Done(Produced(schema, src, c))
  {
    hide InsertChange, UpdateChange, DeleteChange, RenderTuple, PlainRelation, Handle;
    RowIsHandled(cache, c.id, RenderTuple(FirstTuple(c.before, c.after)));
  }

  lemma DecodedIsHandled(schema: Schema, src: Source, c: Change, cache: Cache)
    requires GoodSchema(schema) && WellTyped(schema, src) && CanHappen(schema, src, c)
    requires Knows(schema, src.described, cache) && !c.Describe?
    ensures Handle(Some(Decoded(SentFor(schema, src, c))), cache) == Done(Produced(schema, src, c))
  {
    hide InsertChange, UpdateChange, DeleteChange, RenderTuple, GoodSchema;
    if c.Remove? {
      RemoveIsHandled(schema, src, c, cache);
    } else if c.Replace? {
      ReplaceIsHandled(schema, src, c, cache);
    }
  }

  lemma LastMessage(schema: Schema, h: seq<Change>)
    requires Valid(schema, h) && h != []
    ensures var ws, front := Messages(schema, h), h[..|h| - 1];
            && WellTyped(schema, SourceAfter(front))
            && ws[..|ws| - 1] == Messages(schema, front)
            && ws[|ws| - 1] == SentFor(schema, SourceAfter(front), h[|h| - 1])
  {
    HistoryWellTyped(schema, h[..|h| - 1]);
    hide SentFor, CanHappen, Advance;
  }

  lemma ReceiveSends(p: Producer, e: Event, sent: seq<Keyed>)
    requires e.Packet? && IsWal(e.raw)
    requires var message := DecodeMessage(e.raw[HEADER..], p.cache);
             Handle(message, CacheAfter(p.cache, message)) == Done(sent)
    ensures Step(p, e).sent == p.sent + sent
    ensures Step(p, e).cache == CacheAfter(p.cache, DecodeMessage(e.raw[HEADER..], p.cache))
    ensures !OutcomeOf(p, e).Failing?
  {
  }

  ghost predicate Produces(schema: Schema, h: seq<Change>, es: seq<Event>, configured: uint64)
    requires Valid(schema, h)
  {
    var p := Run(Start(configured), es);
    && p.sent == Records(schema, h)
    && Knows(schema, SourceAfter(h).described, p.cache)
    && forall i | 0 <= i < |es| :: !OutcomeAt(Start(configured), es, i).Failing?
  }

  lemma StillNoFailure(p: Producer, es: seq<Event>, front: seq<Event>)
    requires es != [] && front == es[..|es| - 1] && forall i | 0 <= i < |front| :: !OutcomeAt(p, front, i).Failing?
    requires !OutcomeOf(Run(p, front), es[|es| - 1]).Failing?
    ensures forall i | 0 <= i < |es| :: !OutcomeAt(p, es, i).Failing?
  {
    hide OutcomeOf, Run;
    forall i | 0 <= i < |front|
      ensures !OutcomeAt(p, es, i).Failing?
    {
      assert es[..i] == front[..i] && es[i] == front[i];
      assert !OutcomeAt(p, front, i).Failing?;
    }
  }

  /** One more packet: the record of one more change. */
  lemma DataProduces(schema: Schema, h: seq<Change>, es: seq<Event>, configured: uint64)
    requires GoodSchema(schema) && Valid(schema, h) && h != [] && es != [] && IsData(es[|es| - 1])
    requires Decodable(Messages(schema, h)[|h| - 1])
    requires es[|es| - 1].raw[HEADER..] == EncodeMessage(Messages(schema, h)[|h| - 1])
    requires Produces(schema, h[..|h| - 1], es[..|es| - 1], configured)
    ensures Produces(schema, h, es, configured)
  {
    hide EncodeMessage, DecodeMessage, GoodSchema, CanHappen, Decodable, Produced, Handle, Step, OutcomeOf, Knows,
      OutcomeAt;
    var front, e, hf, c := es[..|es| - 1], es[|es| - 1], h[..|h| - 1], h[|h| - 1];
    LastMessage(schema, h);
    var p := Run(Start(configured), front);
    ChangeIsProduced(schema, SourceAfter(hf), c, p.cache);
    ReceiveSends(p, e, Produced(schema, SourceAfter(hf), c));
    StillNoFailure(Start(configured), es, front);
  }

  lemma QuietProduces(schema: Schema, h: seq<Change>, es: seq<Event>, configured: uint64)
    requires Valid(schema, h) && es != [] && !IsData(es[|es| - 1])
    requires Produces(schema, h, es[..|es| - 1], configured)
    ensures Produces(schema, h, es, configured)
  {
    hide Valid, Records, Knows, SourceAfter, OutcomeAt;
    StillNoFailure(Start(configured), es, es[..|es| - 1]);
  }

  lemma NothingProduced(schema: Schema, h: seq<Change>, configured: uint64)
    requires Valid(schema, h) && h == []
    ensures Produces(schema, h, [], configured)
  {
  }

  /**
    However keepalives and timeouts come in between, the producer hands exactly the records of the
    history to Kafka, in order, and no packet fails on the way.
   */
  lemma {:induction false} HistoryIsProduced(schema: Schema, h: seq<Change>, es: seq<Event>, configured: uint64)
    requires GoodSchema(schema) && Valid(schema, h)
    requires forall w | w in Messages(schema, h) :: Decodable(w)
    requires Payloads(es) == Encodings(Messages(schema, h))
    ensures Produces(schema, h, es, configured)
    decreases |es|
  {
    hide EncodeMessage, GoodSchema, CanHappen, Decodable, Produces, SentFor, Encodings, SourceAfter, Advance;
    if es == [] {
      NothingSent(Messages(schema, h));
      NothingProduced(schema, h, configured);
    } else {
      LastPayload(Messages(schema, h), es);
      if IsData(es[|es| - 1]) {
        LastMessage(schema, h);
        HistoryIsProduced(schema, h[..|h| - 1], es[..|es| - 1], configured);
        DataProduces(schema, h, es, configured);
      } else {
        HistoryIsProduced(schema, h, es[..|es| - 1], configured);
        QuietProduces(schema, h, es, configured);
      }
    }
  }

  /** Of a valid history's packets, everything acknowledged was handled, after every prefix of the run. */
  lemma {:induction false} HistoryIsAcknowledgedSafely(schema: Schema, h: seq<Change>, es: seq<Event>,
      configured: uint64, n: nat)
    requires GoodSchema(schema) && Valid(schema, h) && Payloads(es) == PacketsOf(schema, h) && n <= |es|
    ensures AcknowledgedWasHandled(Start(configured), es[..n])
  {
    hide GoodSchema, Produces, Encodings, Bad, SentBelow, AcknowledgedWasHandled, OutcomeAt;
    MessagesAreDecodable(schema, h);
    HistoryIsProduced(schema, h, es, configured);
    HasNoFailure(schema, h, es, configured);
    NoFailureIsSafe(Start(configured), es, n);
  }

  lemma HasNoFailure(schema: Schema, h: seq<Change>, es: seq<Event>, configured: uint64)
    requires Valid(schema, h) && Produces(schema, h, es, configured)
    ensures forall i: nat | i < |es| :: !OutcomeAt(Start(configured), es, i).Failing?
  {
  }

  lemma NoFailureIsSafe(p: Producer, es: seq<Event>, n: nat)
    requires p.replies == [] && n <= |es| && forall i: nat | i < |es| :: !OutcomeAt(p, es, i).Failing?
    ensures AcknowledgedWasHandled(p, es[..n])
  {
    hide Bad, SentBelow, AcknowledgedWasHandled, OutcomeAt;
    forall i: nat | i < |es|
      ensures !Bad(p.cache, es, i)
    {
      OutcomeIsTold(p, es, i);
    }
    assert BadStayAhead(p.cache, p.applied, es);
    SafeAllAlong(p.cache, p.applied, es, n);
    AcknowledgementIsSafe(p, es[..n]);
  }
}
