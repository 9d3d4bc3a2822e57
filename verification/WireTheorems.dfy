/** Decoding undoes the wire format: round trips, exact consumption, prefix-freedom, streams. */
module WireTheorems {
  import opened Bytes
  import opened Counted
  import opened PgOutput
  import opened WireFormat

  // ----- Tuples -----

  lemma FieldRoundTrip(data: bytes, offset: nat, v: WireValue, aware: bool)
    requires At(data, offset, EncodeValue(v))
    ensures DecodeField(data, offset, aware) == Ok([Render(v)], offset + |EncodeValue(v)|)
  {
    AtIndex(data, offset, EncodeValue(v), 0);
    if v.Text? {
      var n := Be32(|v.text|);
      AtConcat(data, offset, ['t'] + n, v.text);
      AtConcat(data, offset, ['t'], n);
      ReadUint32At(data, offset + 1, |v.text|);
      AtSlice(data, offset + 5, v.text);
    }
  }

  lemma FieldsRoundTrip(data: bytes, offset: nat, t: Tuple, aware: bool)
    requires At(data, offset, EncodeValues(t))
    ensures DecodeFields(data, offset, |t|, aware) == Ok(RenderTuple(t), offset + |EncodeValues(t)|)
  {
    forall v, o: nat | v in t && At(data, o, EncodeValue(v))
      ensures FieldReader(data, aware)(o) == Ok([Render(v)], o + |EncodeValue(v)|)
    {
      FieldRoundTrip(data, o, v, aware);
    }
    ManyRoundTrip(data, offset, t, EncodeValue, FieldReader(data, aware), Render);
  }

  /** Both overloads return the rendered tuple and stop exactly behind it, whatever follows. */
  lemma TupleRoundTrip(data: bytes, offset: nat, t: Tuple, aware: bool)
    requires IsTuple(t) && At(data, offset, EncodeTuple(t))
    ensures DecodeTuple(data, offset, aware) == Ok(RenderTuple(t), offset + |EncodeTuple(t)|)
  {
    AtConcat(data, offset, Be16(|t|), EncodeValues(t));
    ReadUint16At(data, offset, |t|);
    FieldsRoundTrip(data, offset + 2, t, aware);
  }

  // ----- Relations -----

  lemma ColumnRoundTrip(data: bytes, offset: nat, c: Column)
    requires At(data, offset, EncodeColumn(c))
    ensures DecodeColumn(data, offset) == Ok(c, offset + |EncodeColumn(c)|)
  {
    var a, b, d, e := [c.flags], EncodeString(c.name), Be32(c.typeId), Be32(FromInt32(c.typeModifier));
    AtConcat(data, offset, a + b + d, e);
    AtConcat(data, offset, a + b, d);
    AtConcat(data, offset, a, b);
    ReadUint8At(data, offset, c.flags);
    ReadStringAt(data, offset + 1, c.name);
    ReadUint32At(data, offset + 1 + |b|, c.typeId);
    ReadUint32At(data, offset + 5 + |b|, FromInt32(c.typeModifier));
  }

  lemma ColumnsRoundTrip(data: bytes, offset: nat, columns: seq<Column>)
    requires At(data, offset, EncodeColumns(columns))
    ensures DecodeColumns(data, offset, |columns|) == Ok(columns, offset + |EncodeColumns(columns)|)
  {
    forall c, o: nat | c in columns && At(data, o, EncodeColumn(c))
      ensures ColumnReader(data)(o) == Ok([c], o + |EncodeColumn(c)|)
    {
      ColumnRoundTrip(data, o, c);
    }
    hide At, EncodeColumn, ColumnReader;
    ManyRoundTrip(data, offset, columns, EncodeColumn, ColumnReader(data), (c: Column) => c);
    assert Map((c: Column) => c, columns) == columns;
  }

  lemma NamesRoundTrip(data: bytes, r: Relation)
    requires At(data, 0, EncodeNames(r))
    ensures ReadUint32(data, 0) == Ok(r.id, 4)
    ensures ReadString(data, 4) == Ok(r.nspace, 5 + |r.nspace|)
    ensures ReadString(data, 5 + |r.nspace|) == Ok(r.name, |EncodeNames(r)|)
  {
    var a, b, c := Be32(r.id), EncodeString(r.nspace), EncodeString(r.name);
    AtConcat(data, 0, a + b, c);
    AtConcat(data, 0, a, b);
    ReadUint32At(data, 0, r.id);
    ReadStringAt(data, 4, r.nspace);
    ReadStringAt(data, 4 + |b|, r.name);
  }

  lemma RelationTailRoundTrip(data: bytes, offset: nat, r: Relation)
    requires IsRelation(r)
    requires At(data, offset, [r.replicaIdentity] + Be16(|r.columns|) + EncodeColumns(r.columns))
    ensures ReadUint8(data, offset) == Ok(r.replicaIdentity, offset + 1)
    ensures ReadUint16(data, offset + 1) == Ok(|r.columns|, offset + 3)
    ensures DecodeColumns(data, offset + 3, |r.columns|) == Ok(r.columns, offset + 3 + |EncodeColumns(r.columns)|)
  {
    var a, b, c := [r.replicaIdentity], Be16(|r.columns|), EncodeColumns(r.columns);
    AtConcat(data, offset, a + b, c);
    AtConcat(data, offset, a, b);
    ReadUint8At(data, offset, r.replicaIdentity);
    ReadUint16At(data, offset + 1, |r.columns|);
    ColumnsRoundTrip(data, offset + 3, r.columns);
  }

  lemma RelationOfFields(data: bytes, r: Relation, o2: nat, o3: nat, o4: nat, o5: nat, next: nat)
    requires IsRelation(r) && ReadUint32(data, 0) == Ok(r.id, 4) && ReadString(data, 4) == Ok(r.nspace, o2)
    requires ReadString(data, o2) == Ok(r.name, o3) && ReadUint8(data, o3) == Ok(r.replicaIdentity, o4)
    requires ReadUint16(data, o4) == Ok(|r.columns|, o5) && DecodeColumns(data, o5, |r.columns|) == Ok(r.columns, next)
    ensures DecodeRelation(data) == Ok(r, next)
  {
    hide ReadUint8, ReadUint16, ReadUint32, ReadString, DecodeColumns;
  }

  lemma RelationParts(data: bytes, r: Relation)
    requires IsRelation(r) && At(data, 0, EncodeRelation(r))
    ensures At(data, 0, EncodeNames(r))
    ensures At(data, |EncodeNames(r)|, [r.replicaIdentity] + Be16(|r.columns|) + EncodeColumns(r.columns))
    ensures |EncodeRelation(r)| == |EncodeNames(r)| + 3 + |EncodeColumns(r.columns)|
  {
    hide EncodeNames, EncodeColumns, At;
    AtConcat(data, 0, EncodeNames(r), [r.replicaIdentity] + Be16(|r.columns|) + EncodeColumns(r.columns));
  }

  lemma RelationRoundTrip(data: bytes, r: Relation)
    requires IsRelation(r) && At(data, 0, EncodeRelation(r))
    ensures DecodeRelation(data) == Ok(r, |EncodeRelation(r)|)
  {
    var o3, o2 := |EncodeNames(r)|, 5 + |r.nspace|;
    assert |r.columns| < 0x1_0000;
    hide *;
    RelationParts(data, r);
    NamesRoundTrip(data, r);
    RelationTailRoundTrip(data, o3, r);
    RelationOfFields(data, r, o2, o3, o3 + 1, o3 + 3, |EncodeRelation(r)|);
  }

  lemma CommitRoundTrip(data: bytes, flags: byte, lsn: uint64, endLsn: uint64, timestamp: uint64)
    requires At(data, 0, EncodeCommit(flags, lsn, endLsn, timestamp))
    ensures DecodeCommit(data) == Ok(Commit(flags, lsn, endLsn, timestamp), 25)
  {
    var a, b, c, d := [flags], Be64(lsn), Be64(endLsn), Be64(timestamp);
    AtConcat(data, 0, a + b + c, d);
    AtConcat(data, 0, a + b, c);
    AtConcat(data, 0, a, b);
    ReadUint8At(data, 0, flags);
    ReadUint64At(data, 1, lsn);
    ReadUint64At(data, 9, endLsn);
    ReadUint64At(data, 17, timestamp);
  }

  lemma BeginRoundTrip(data: bytes, lsn: uint64, timestamp: uint64, xid: uint32)
    requires At(data, 0, Be64(lsn) + Be64(timestamp) + Be32(xid))
    ensures DecodeBegin(data) == Ok(Begin(lsn, timestamp), 16)
  {
    AtConcat(data, 0, Be64(lsn) + Be64(timestamp), Be32(xid));
    AtConcat(data, 0, Be64(lsn), Be64(timestamp));
    ReadUint64At(data, 0, lsn);
    ReadUint64At(data, 8, timestamp);
  }

  // ----- Row messages -----

  /** The common head of the row messages: relation id, tag byte, tuple. */
  lemma RowRoundTrip(data: bytes, id: uint32, tag: byte, t: Tuple, aware: bool)
    requires IsTuple(t) && At(data, 0, Be32(id) + [tag] + EncodeTuple(t))
    ensures ReadUint32(data, 0) == Ok(id, 4) && ReadUint8(data, 4) == Ok(tag, 5)
    ensures DecodeTuple(data, 5, aware) == Ok(RenderTuple(t), 5 + |EncodeTuple(t)|)
    ensures |data| > 5 && data[5] as int == |t| / 256
  {
    var head, tuple := Be32(id) + [tag], EncodeTuple(t);
    assert At(data, 0, head) && At(data, 5, tuple) by {
      AtConcat(data, 0, head, tuple);
    }
    assert ReadUint32(data, 0) == Ok(id, 4) && ReadUint8(data, 4) == Ok(tag, 5) by {
      AtConcat(data, 0, Be32(id), [tag]);
      ReadUint32At(data, 0, id);
      ReadUint8At(data, 4, tag);
    }
    assert DecodeTuple(data, 5, aware) == Ok(RenderTuple(t), 5 + |tuple|) by {
      TupleRoundTrip(data, 5, t, aware);
    }
    assert data[5] == Be16(|t|)[0] by {
      AtConcat(data, 5, Be16(|t|), EncodeValues(t));
      AtIndex(data, 5, Be16(|t|), 0);
    }
  }

  /** The tag byte of an Update and what follows its first tuple. */
  function UpdateTag(before: OldPart): byte {
    match before
    case NoOld => 'N'
    case KeyOld(_) => 'K'
    case FullOld(_) => 'O'
  }

  lemma UpdateHead(w: WireMessage)
    requires w.WireUpdate? && IsMessage(w)
    ensures At(EncodeBody(w), 0, Be32(w.relationId) + [UpdateTag(w.before)]
                                 + EncodeTuple(FirstTuple(w.before, w.after)))
    ensures w.before.NoOld? ==> |EncodeBody(w)| == 5 + |EncodeTuple(w.after)|
  {
    var head := Be32(w.relationId) + [UpdateTag(w.before)] + EncodeTuple(FirstTuple(w.before, w.after));
    assert EncodeBody(w)[..|head|] == head;
  }

  lemma RowMessageRoundTrip(w: WireMessage, cache: Cache)
    requires Decodable(w) && (w.WireInsert? || w.WireDelete?)
    ensures DecodeBody(Tag(w), EncodeBody(w), cache) == Some(Decoded(w))
  {
    var data := EncodeBody(w);
    var aware := w.relationId in cache;
    var tag: byte := if w.WireInsert? then 'N' else if w.isKey then 'K' else 'O';
    assert && ReadUint32(data, 0) == Ok(w.relationId, 4) && ReadUint8(data, 4) == Ok(tag, 5)
           && DecodeTuple(data, 5, aware) == Ok(RenderTuple(w.row), 5 + |EncodeTuple(w.row)|) by {
      assert data == Be32(w.relationId) + [tag] + EncodeTuple(w.row) && At(data, 0, data);
      RowRoundTrip(data, w.relationId, tag, w.row, aware);
    }
  }

  lemma UpdateRoundTrip(w: WireMessage, cache: Cache)
    requires Decodable(w) && w.WireUpdate?
    ensures DecodeBody(Tag(w), EncodeBody(w), cache) == Some(Decoded(w))
  {
    var data, t := EncodeBody(w), FirstTuple(w.before, w.after);
    var aware := w.relationId in cache;
    assert && ReadUint32(data, 0) == Ok(w.relationId, 4) && ReadUint8(data, 4) == Ok(UpdateTag(w.before), 5)
           && |data| > 5 && data[5] as int == |t| / 256
           && DecodeTuple(data, 5, aware) == Ok(RenderTuple(t), 5 + |EncodeTuple(t)|) by {
      UpdateHead(w);
      RowRoundTrip(data, w.relationId, UpdateTag(w.before), t, aware);
    }
  }

  lemma BodyRoundTrip(w: WireMessage, cache: Cache)
    requires Decodable(w)
    ensures DecodeBody(Tag(w), EncodeBody(w), cache) == Some(Decoded(w))
  {
    if w.WireUpdate? {
      UpdateRoundTrip(w, cache);
    } else if w.WireInsert? || w.WireDelete? {
      RowMessageRoundTrip(w, cache);
    } else {
      var data := EncodeBody(w);
      assert At(data, 0, data);
      if w.WireBegin? {
        BeginRoundTrip(data, w.lsn, w.timestamp, w.xid);
      } else if w.WireCommit? {
        CommitRoundTrip(data, w.flags, w.lsn, w.endLsn, w.timestamp);
      } else {
        RelationRoundTrip(data, w.relation);
      }
    }
  }

  /**
    Decoding an encoded message gives `Decoded`, whatever the cache holds: every field of Begin,
    Commit, Relation, Insert and Delete, and for an Update the first tuple it carries.
   */
  lemma MessageRoundTrip(w: WireMessage, cache: Cache)
    requires Decodable(w)
    ensures DecodeMessage(EncodeMessage(w), cache) == Some(Decoded(w))
  {
    assert EncodeMessage(w)[1..] == EncodeBody(w);
    assert DecodeBody(Tag(w), EncodeBody(w), cache) == Some(Decoded(w)) by {
      BodyRoundTrip(w, cache);
    }
  }

  // ----- Updates with an old tuple of 20224 to 20479 columns -----

  /** A count that its own tag byte shifts onto itself, and nothing but empty texts. */
  predicate SurvivesShift(t: Tuple) {
    |t| == 20046 && forall v | v in t :: v == Text([])
  }

  lemma TailFields(data: bytes, offset: nat, t: Tuple)
    requires t != [] && At(data, offset, EncodeValues(t))
    ensures DecodeFields(data, offset, |t| - 1, true).Ok?
    ensures DecodeFields(data, offset, |t| - 1, true).value == RenderTuple(t[..|t| - 1])
  {
    var front, last := t[..|t| - 1], [t[|t| - 1]];
    assert t == front + last;
    EncodeManyConcat(EncodeValue, front, last);
    AtConcat(data, offset, EncodeValues(front), EncodeValues(last));
    FieldsRoundTrip(data, offset, front, true);
  }

  lemma ShiftedRender(t: Tuple)
    requires t != []
    ensures [[]] + RenderTuple(t[..|t| - 1]) == RenderTuple(t) <==> forall v | v in t :: v == Text([])
  {
    var shifted, r := [[]] + RenderTuple(t[..|t| - 1]), RenderTuple(t);
    assert |shifted| == |r|;
    if shifted == r {
      AllEmpty(t, |t|);
    }
    if forall v | v in t :: v == Text([]) {
      forall i | 0 <= i < |t|
        ensures shifted[i] == r[i]
      {
        assert t[i] in t;
        assert i > 0 ==> t[i - 1] in t && shifted[i] == RenderTuple(t[..|t| - 1])[i - 1];
      }
    }
  }

  lemma {:induction false} AllEmpty(t: Tuple, n: nat)
    requires t != [] && n <= |t| && [[]] + RenderTuple(t[..|t| - 1]) == RenderTuple(t)
    ensures forall i | 0 <= i < n :: t[i] == Text([])
    decreases n
  {
    if n > 0 {
      AllEmpty(t, n - 1);
      var shifted := [[]] + RenderTuple(t[..|t| - 1]);
      assert shifted[n - 1] == RenderTuple(t)[n - 1] == Render(t[n - 1]);
      if n > 1 {
        assert shifted[n - 1] == RenderTuple(t[..|t| - 1])[n - 2] == Render(t[n - 2]);
      }
    }
  }

  /** A tuple read from one byte too early, at its tag, is read right only in one case. */
  lemma ShiftedTuple(data: bytes, o: nat, t: Tuple)
    requires IsTuple(t) && At(data, o, ['N'] + EncodeTuple(t))
    ensures var r := DecodeTuple(data, o, true);
            r.Ok? && r.value == RenderTuple(t) <==> SurvivesShift(t)
  {
    var r, n := DecodeTuple(data, o, true), 'N' as int * 256 + |t| / 256;
    AtConcat(data, o, ['N'], EncodeTuple(t));
    AtConcat(data, o + 1, Be16(|t|), EncodeValues(t));
    AtIndex(data, o, ['N'], 0);
    AtIndex(data, o + 1, Be16(|t|), 0);
    AtIndex(data, o + 1, Be16(|t|), 1);
    assert ReadUint16(data, o) == Ok(n, o + 2);
    OverloadsAgree(data, o);
    assert n == |t| <==> |t| == 20046;
    if |t| == 20046 {
      assert data[o + 2] == 'N';
      assert DecodeField(data, o + 2, true) == Ok([[]], o + 3);
      TailFields(data, o + 3, t);
      ShiftedRender(t);
      assert DecodeFields(data, o + 2, n, true) == Prepend([[]], DecodeFields(data, o + 3, n - 1, true));
    }
  }

  lemma SecondTuple(w: WireMessage)
    requires w.WireUpdate? && IsMessage(w) && !w.before.NoOld?
    ensures At(EncodeBody(w), 5 + |EncodeTuple(w.before.tuple)|, ['N'] + EncodeTuple(w.after))
  {
    var data, head := EncodeBody(w), Be32(w.relationId) + [UpdateTag(w.before)] + EncodeTuple(w.before.tuple);
    var tail := ['N'] + EncodeTuple(w.after);
    assert data == head + tail && |head| == 5 + |EncodeTuple(w.before.tuple)|;
    hide EncodeTuple, EncodeBody;
    assert At(data, 0, data);
    AtConcat(data, 0, head, tail);
  }

  lemma FirstTupleRead(w: WireMessage, aware: bool)
    requires w.WireUpdate? && IsMessage(w) && !w.before.NoOld?
    ensures var data := EncodeBody(w);
            && ReadUint32(data, 0) == Ok(w.relationId, 4) && ReadUint8(data, 4) == Ok(UpdateTag(w.before), 5)
            && |data| > 5 && data[5] as int == |w.before.tuple| / 256
            && DecodeTuple(data, 5, aware) == Ok(RenderTuple(w.before.tuple), 5 + |EncodeTuple(w.before.tuple)|)
  {
    UpdateHead(w);
    hide EncodeTuple, EncodeBody, DecodeTuple;
    RowRoundTrip(EncodeBody(w), w.relationId, UpdateTag(w.before), w.before.tuple, aware);
  }

  lemma OldCountLooksLikeTag(w: WireMessage, cache: Cache)
    requires w.WireUpdate? && IsMessage(w) && !w.before.NoOld? && LooksLikeOldTag(w.before.tuple)
    requires w.relationId in cache
    ensures DecodeMessage(EncodeMessage(w), cache) == Some(Intended(w)) <==> SurvivesShift(w.after)
  {
    assert w.WireUpdate? && IsMessage(w) && IsTuple(w.after);
    hide *;
    UpdateIsIntended(w);
    UpdateIsDecoded(w, cache);
    FirstTupleRead(w, true);
    SecondTuple(w);
    var data, o := EncodeBody(w), 5 + |EncodeTuple(w.before.tuple)|;
    ShiftedTuple(data, o, w.after);
    UpdateOfTwo(data, w.relationId, UpdateTag(w.before), RenderTuple(w.before.tuple), o, cache);
  }

  lemma UpdateIsIntended(w: WireMessage)
    requires w.WireUpdate? && !w.before.NoOld?
    ensures Intended(w) == Update(w.relationId, RenderTuple(w.before.tuple), RenderTuple(w.after))
    ensures LooksLikeOldTag(w.before.tuple) <==> |w.before.tuple| / 256 == 'O' as int
  {
    hide RenderTuple;
  }

  lemma UpdateIsDecoded(w: WireMessage, cache: Cache)
    requires w.WireUpdate? && IsMessage(w)
    ensures DecodeMessage(EncodeMessage(w), cache) == ToOption(DecodeUpdate(EncodeBody(w), cache))
  {
    assert EncodeMessage(w)[1..] == EncodeBody(w) && EncodeMessage(w)[0] == 'U';
    hide EncodeBody, DecodeUpdate, EncodeMessage;
  }

  lemma UpdateOfTwo(data: bytes, id: uint32, tag: byte, before: seq<bytes>, o: nat, cache: Cache)
    requires ReadUint32(data, 0) == Ok(id, 4) && ReadUint8(data, 4) == Ok(tag, 5)
    requires |data| > 5 && data[5] == 'O' && DecodeTuple(data, 5, id in cache) == Ok(before, o)
    ensures ToOption(DecodeUpdate(data, cache))
         == match DecodeTuple(data, o, id in cache)
            case Underflow => None
            case Ok(after, _) => Some(Update(id, before, after))
  {
    hide DecodeTuple, ReadUint32;
  }

  lemma NewCountLooksLikeTag(w: WireMessage, cache: Cache)
    requires w.WireUpdate? && IsMessage(w) && w.before.NoOld? && LooksLikeOldTag(w.after)
    ensures DecodeMessage(EncodeMessage(w), cache) == None
  {
    var data := EncodeBody(w);
    assert EncodeMessage(w)[1..] == data;
    UpdateHead(w);
    RowRoundTrip(data, w.relationId, 'N', w.after, w.relationId in cache);
    assert DecodeTuple(data, |data|, w.relationId in cache) == Underflow;
    hide EncodeBody, RenderTuple;
  }

  /** When an Update is decoded as the format intends. */
  predicate UpdateSurvives(before: OldPart, after: Tuple) {
    if before.NoOld? then !LooksLikeOldTag(after)
    else if LooksLikeOldTag(before.tuple) then SurvivesShift(after)
    else before.tuple == [] && after == []
  }

  /**
    An Update without an old tuple is decoded as intended exactly if its column count does not look
    like the tag 'O'. With an old tuple both must be empty; or, if the old one's count does look like
    'O', the new one must hold 20046 empty texts. (In that last case the relation is a cached one.)
   */
  lemma UpdateDecodedAsIntended(w: WireMessage, cache: Cache)
    requires w.WireUpdate? && IsMessage(w)
    requires w.before.NoOld? || !LooksLikeOldTag(w.before.tuple) || w.relationId in cache
    ensures DecodeMessage(EncodeMessage(w), cache) == Some(Intended(w)) <==> UpdateSurvives(w.before, w.after)
  {
    if Decodable(w) {
      MessageRoundTrip(w, cache);
      if !w.before.NoOld? {
        assert w.before.tuple == [] <==> |RenderTuple(w.before.tuple)| == 0;
        assert w.after == [] <==> |RenderTuple(w.after)| == 0;
      }
      hide DecodeMessage, EncodeMessage, LooksLikeOldTag;
    } else if w.before.NoOld? {
      NewCountLooksLikeTag(w, cache);
    } else {
      OldCountLooksLikeTag(w, cache);
    }
  }

  /** A full old image in front of the new one: the old row comes out as the new one. */
  lemma FullUpdateLosesTheNewRow()
    ensures var w := WireUpdate(7, FullOld([Text("1"), Text("old")]), [Text("1"), Text("new")]);
            DecodeMessage(EncodeMessage(w), map[]) == Some(Update(7, [], ["1", "old"]))
  {
    var w := WireUpdate(7, FullOld([Text("1"), Text("old")]), [Text("1"), Text("new")]);
    MessageRoundTrip(w, map[]);
    assert RenderTuple(w.before.tuple) == ["1", "old"];
  }

  // ----- The two overloads -----

  /** Every column tag of the `n` columns at `offset` is one of 'n', 'u', 't'. */
  predicate KnownTags(data: bytes, offset: nat, n: nat)
    decreases n
  {
    n > 0 ==>
      match DecodeField(data, offset, true)
      case Underflow => true
      case Ok(_, o) => data[offset] in {'n', 'u', 't'} && KnownTags(data, o, n - 1)
  }

  lemma {:induction false} FieldOverloadsAgree(data: bytes, offset: nat, n: nat)
    ensures var plain, aware := DecodeFields(data, offset, n, false), DecodeFields(data, offset, n, true);
            && (plain.Ok? <==> aware.Ok?)
            && (aware.Ok? ==>
                  && plain.next == aware.next
                  && |aware.value| == n
                  && |plain.value| <= n
                  && (KnownTags(data, offset, n) <==> |plain.value| == n)
                  && (KnownTags(data, offset, n) ==> plain.value == aware.value))
    decreases n
  {
    if n > 0 {
      var field := DecodeField(data, offset, true);
      if field.Ok? {
        FieldOverloadsAgree(data, field.next, n - 1);
      }
    }
  }

  /**
    With or without the relation at hand the same bytes are consumed and the same packets fail;
    with it there is one value per declared column, and the values agree exactly when every tag
    is 'n', 'u' or 't'.
   */
  lemma OverloadsAgree(data: bytes, offset: nat)
    ensures var plain, aware := DecodeTuple(data, offset, false), DecodeTuple(data, offset, true);
            && (plain.Ok? <==> aware.Ok?)
            && (aware.Ok? ==>
                  var n := ReadUint16(data, offset).value;
                  && plain.next == aware.next
                  && |aware.value| == n
                  && (plain.value == aware.value <==> KnownTags(data, offset + 2, n)))
  {
    var n := ReadUint16(data, offset);
    if n.Ok? {
      FieldOverloadsAgree(data, n.next, n.value);
    }
  }

  /** A column with another tag: an empty value with the relation at hand, none without it. */
  lemma OtherTagIsEmpty(tag: byte)
    requires tag !in {'n', 'u', 't'}
    ensures DecodeTuple(Be16(1) + [tag], 0, true) == Ok([[]], 3)
    ensures DecodeTuple(Be16(1) + [tag], 0, false) == Ok([], 3)
  {
    var data: bytes := Be16(1) + [tag];
    assert ReadUint16(data, 0) == Ok(1, 2) by {
      assert At(data, 0, Be16(1));
      ReadUint16At(data, 0, 1);
    }
    assert DecodeField(data, 2, true) == Ok([[]], 3) && DecodeField(data, 2, false) == Ok([], 3);
    var empty: seq<bytes> := [[]];
    assert empty + [] == empty && empty[..0] + [] == [];
    assert DecodeFields(data, 2, 1, true) == Prepend(empty, DecodeFields(data, 3, 0, true));
    assert DecodeFields(data, 2, 1, false) == Prepend(empty[..0], DecodeFields(data, 3, 0, false));
  }

  /** A message comes out only for six type bytes, each of its own kind. */
  lemma OnlySixTypes(raw: bytes, cache: Cache)
    ensures var message := DecodeMessage(raw, cache);
            message.Some? ==>
              && raw != [] && raw[0] in {'B', 'C', 'R', 'I', 'U', 'D'}
              && (raw[0] == 'B' <==> message.value.Begin?) && (raw[0] == 'C' <==> message.value.Commit?)
              && (raw[0] == 'R' <==> message.value.RelationMessage?) && (raw[0] == 'I' <==> message.value.Insert?)
              && (raw[0] == 'U' <==> message.value.Update?) && (raw[0] == 'D' <==> message.value.Delete?)
  {
    hide DecodeTuple, DecodeRelation;
  }

  // ----- Longer buffers, proper prefixes -----

  lemma Uint8Extends(data: bytes, ext: bytes, offset: nat)
    requires ReadUint8(data, offset).Ok?
    ensures ReadUint8(data + ext, offset) == ReadUint8(data, offset)
  {
  }

  lemma Uint16Extends(data: bytes, ext: bytes, offset: nat)
    requires ReadUint16(data, offset).Ok?
    ensures ReadUint16(data + ext, offset) == ReadUint16(data, offset)
    ensures ReadUint16(data, offset).next <= |data|
  {
  }

  lemma Uint32Extends(data: bytes, ext: bytes, offset: nat)
    requires ReadUint32(data, offset).Ok?
    ensures ReadUint32(data + ext, offset) == ReadUint32(data, offset)
  {
  }

  lemma {:induction false} StringExtends(data: bytes, ext: bytes, offset: nat)
    requires ReadString(data, offset).Ok?
    ensures ReadString(data + ext, offset) == ReadString(data, offset)
    ensures offset < ReadString(data, offset).next <= |data|
    decreases |data| - offset
  {
    if data[offset] != '\0' {
      StringExtends(data, ext, offset + 1);
    }
  }

  lemma FieldExtends(data: bytes, ext: bytes, offset: nat, aware: bool)
    requires DecodeField(data, offset, aware).Ok?
    ensures DecodeField(data + ext, offset, aware) == DecodeField(data, offset, aware)
    ensures DecodeField(data, offset, aware).next <= |data|
  {
    if data[offset] == 't' {
      Uint32Extends(data, ext, offset + 1);
      var length := ReadUint32(data, offset + 1).value;
      var o := offset + 5;
      assert (data + ext)[o..o + length] == data[o..o + length];
    }
  }

  lemma FieldsExtend(data: bytes, ext: bytes, offset: nat, n: nat, aware: bool)
    requires offset <= |data| && DecodeFields(data, offset, n, aware).Ok?
    ensures DecodeFields(data + ext, offset, n, aware) == DecodeFields(data, offset, n, aware)
    ensures DecodeFields(data, offset, n, aware).next <= |data|
  {
    var read, wider := FieldReader(data, aware), FieldReader(data + ext, aware);
    forall o: nat | read(o).Ok?
      ensures wider(o) == read(o) && read(o).next <= |data|
    {
      FieldExtends(data, ext, o, aware);
    }
    ManyExtends(read, wider, |data|, offset, n);
  }

  lemma TupleExtends(data: bytes, ext: bytes, offset: nat, aware: bool)
    requires DecodeTuple(data, offset, aware).Ok?
    ensures DecodeTuple(data + ext, offset, aware) == DecodeTuple(data, offset, aware)
    ensures DecodeTuple(data, offset, aware).next <= |data|
  {
    FieldsExtend(data, ext, offset + 2, ReadUint16(data, offset).value, aware);
  }

  lemma ColumnExtends(data: bytes, ext: bytes, offset: nat)
    requires DecodeColumn(data, offset).Ok?
    ensures DecodeColumn(data + ext, offset) == DecodeColumn(data, offset)
    ensures DecodeColumn(data, offset).next <= |data|
  {
    StringExtends(data, ext, offset + 1);
    var o := ReadString(data, offset + 1).next;
    Uint32Extends(data, ext, o);
    Uint32Extends(data, ext, o + 4);
  }

  lemma ColumnsExtend(data: bytes, ext: bytes, offset: nat, n: nat)
    requires offset <= |data| && DecodeColumns(data, offset, n).Ok?
    ensures DecodeColumns(data + ext, offset, n) == DecodeColumns(data, offset, n)
    ensures DecodeColumns(data, offset, n).next <= |data|
  {
    var read, wider := ColumnReader(data), ColumnReader(data + ext);
    forall o: nat | read(o).Ok?
      ensures wider(o) == read(o) && read(o).next <= |data|
    {
      ColumnExtends(data, ext, o);
    }
    ManyExtends(read, wider, |data|, offset, n);
  }

  lemma RelationExtends(data: bytes, ext: bytes)
    requires DecodeRelation(data).Ok?
    ensures DecodeRelation(data + ext) == DecodeRelation(data)
    ensures DecodeRelation(data).next <= |data|
  {
    hide ReadUint8, ReadUint16, ReadUint32, ReadString, DecodeColumns;
    Uint32Extends(data, ext, 0);
    var o1 := ReadUint32(data, 0).next;
    StringExtends(data, ext, o1);
    var o2 := ReadString(data, o1).next;
    StringExtends(data, ext, o2);
    var o3 := ReadString(data, o2).next;
    Uint8Extends(data, ext, o3);
    var o4 := ReadUint8(data, o3).next;
    Uint16Extends(data, ext, o4);
    ColumnsExtend(data, ext, ReadUint16(data, o4).next, ReadUint16(data, o4).value);
  }

  /** No proper prefix of an encoded tuple or relation body decodes. */
  lemma NoProperPrefixTuple(t: Tuple, n: nat, aware: bool)
    requires IsTuple(t) && n < |EncodeTuple(t)|
    ensures DecodeTuple(EncodeTuple(t)[..n], 0, aware) == Underflow
  {
    var whole := EncodeTuple(t);
    var data, ext := whole[..n], whole[n..];
    if DecodeTuple(data, 0, aware).Ok? {
      TupleExtends(data, ext, 0, aware);
      assert data + ext == whole && At(whole, 0, whole);
      TupleRoundTrip(whole, 0, t, aware);
      assert false;
    }
  }

  lemma NoProperPrefixRelation(r: Relation, n: nat)
    requires IsRelation(r) && n < |EncodeRelation(r)|
    ensures DecodeRelation(EncodeRelation(r)[..n]) == Underflow
  {
    hide DecodeRelation, EncodeRelation;
    var whole := EncodeRelation(r);
    var data, ext := whole[..n], whole[n..];
    if DecodeRelation(data).Ok? {
      RelationExtends(data, ext);
      assert data + ext == whole && At(whole, 0, whole);
      RelationRoundTrip(whole, r);
      assert false;
    }
  }

  lemma ShortCommit(data: bytes)
    requires |data| < 25
    ensures DecodeCommit(data) == Underflow
  {
  }

  lemma ShortBegin(data: bytes)
    requires |data| < 20
    ensures DecodeBegin(data) == Underflow
  {
  }

  lemma HeadPrefix(id: uint32, tag: byte, t: Tuple, n: nat, aware: bool)
    requires IsTuple(t) && 5 <= n < 5 + |EncodeTuple(t)|
    ensures DecodeTuple((Be32(id) + [tag] + EncodeTuple(t))[..n], 5, aware) == Underflow
  {
    var whole := Be32(id) + [tag] + EncodeTuple(t);
    var data, ext := whole[..n], whole[n..];
    if DecodeTuple(data, 5, aware).Ok? {
      TupleExtends(data, ext, 5, aware);
      assert data + ext == whole && At(whole, 0, whole);
      RowRoundTrip(whole, id, tag, t, aware);
      assert false;
    }
  }

  lemma RowPrefixHead(body: bytes, n: nat, id: uint32, tag: byte, t: Tuple, aware: bool)
    requires IsTuple(t) && body == Be32(id) + [tag] + EncodeTuple(t) && 5 <= n < |body|
    ensures ReadUint32(body[..n], 0) == Ok(id, 4) && ReadUint8(body[..n], 4) == Ok(tag, 5)
    ensures DecodeTuple(body[..n], 5, aware) == Underflow
    ensures n > 5 ==> body[..n][5] as int == |t| / 256
  {
    assert At(body, 0, body);
    RowRoundTrip(body, id, tag, t, aware);
    assert body[..n][..5] == body[..5];
    HeadPrefix(id, tag, t, n, aware);
  }

  lemma RowPrefixFails(w: WireMessage, n: nat, cache: Cache)
    requires Decodable(w) && n < |EncodeBody(w)|
    requires w.WireInsert? || w.WireDelete? || (w.WireUpdate? && w.before.NoOld?)
    ensures DecodeBody(Tag(w), EncodeBody(w)[..n], cache) == None
  {
    var t := if w.WireUpdate? then w.after else w.row;
    var tag: byte := if w.WireInsert? || w.WireUpdate? then 'N' else if w.isKey then 'K' else 'O';
    if n >= 5 {
      RowPrefixHead(EncodeBody(w), n, w.relationId, tag, t, w.relationId in cache);
    }
  }

  lemma BodyPrefixFails(w: WireMessage, n: nat, cache: Cache)
    requires Decodable(w) && n < |EncodeBody(w)|
    requires w.WireUpdate? ==> w.before.NoOld?
    ensures DecodeBody(Tag(w), EncodeBody(w)[..n], cache) == None
  {
    hide EncodeTuple, EncodeRelation, DecodeCommit, DecodeBegin, DecodeRelation;
    match w
    case WireBegin(_, _, _) => ShortBegin(EncodeBody(w)[..n]);
    case WireCommit(_, _, _, _) => ShortCommit(EncodeBody(w)[..n]);
    case WireRelation(relation) => NoProperPrefixRelation(relation, n);
    case _ => RowPrefixFails(w, n, cache);
  }

  /**
    A packet cut short is never taken for a message: no proper prefix of an encoded Begin, Commit,
    Relation, Insert, Delete or plain Update decodes.
   */
  lemma {:induction false} NoProperPrefixDecodes(w: WireMessage, n: nat, cache: Cache)
    requires Decodable(w) && n < |EncodeMessage(w)|
    requires w.WireUpdate? ==> w.before.NoOld?
    ensures DecodeMessage(EncodeMessage(w)[..n], cache) == None
  {
    hide EncodeBody, DecodeBody, Tag, IsMessage, LooksLikeOldTag;
    if n > 0 {
      var raw := EncodeMessage(w)[..n];
      assert raw[0] == Tag(w) && raw[1..] == EncodeBody(w)[..n - 1];
      assert DecodeBody(Tag(w), EncodeBody(w)[..n - 1], cache) == None by {
        BodyPrefixFails(w, n - 1, cache);
      }
    }
  }

  // ----- Rendering -----

  /** Values that cannot be mistaken for the texts written for NULL and TOAST. */
  predicate Unambiguous(t: Tuple) {
    forall v | v in t :: v != Text("NULL") && v != Text("TOAST")
  }

  /** On unambiguous tuples two rows decode equal exactly when they were equal. */
  lemma RenderInjective(a: Tuple, b: Tuple)
    requires Unambiguous(a) && Unambiguous(b)
    ensures RenderTuple(a) == RenderTuple(b) <==> a == b
  {
    if RenderTuple(a) == RenderTuple(b) {
      assert |a| == |RenderTuple(a)| == |RenderTuple(b)| == |b|;
      forall i | 0 <= i < |a|
        ensures a[i] == b[i]
      {
        assert RenderTuple(a)[i] == RenderTuple(b)[i];
        assert a[i] in a && b[i] in b;
      }
    }
  }

  function Disambiguated(t: Tuple): (u: Tuple)
    ensures |u| == |t| && Unambiguous(u)
    ensures forall i | 0 <= i < |t| :: Render(u[i]) == Render(t[i])
    ensures u == t ==> Unambiguous(t)
  {
    if t == [] then []
    else
      var v := if t[0] == Text("NULL") then Null else if t[0] == Text("TOAST") then UnchangedToast else t[0];
      [v] + Disambiguated(t[1..])
  }

  /** Outside them it fails: every ambiguous tuple decodes like another, unambiguous one. */
  lemma AmbiguousHasDouble(t: Tuple)
    requires !Unambiguous(t)
    ensures exists u :: Unambiguous(u) && u != t && RenderTuple(u) == RenderTuple(t)
  {
    var u := Disambiguated(t);
    assert Unambiguous(u) && u != t && RenderTuple(u) == RenderTuple(t);
  }

  // ----- Streams -----

  datatype Stream = Stream(messages: seq<Option<Message>>, cache: Cache)

  /** `parseMessage` on one packet after the other, the cache threaded through. */
  function DecodeStream(raws: seq<bytes>, cache: Cache): Stream {
    if raws == [] then Stream([], cache)
    else
      var message := DecodeMessage(raws[0], cache);
      var rest := DecodeStream(raws[1..], CacheAfter(cache, message));
      Stream([message] + rest.messages, rest.cache)
  }

  /** The last relation message for an id in a run of messages. */
  function LastRelation(ws: seq<WireMessage>, id: uint32): Option<Relation> {
    if ws == [] then None
    else
      var last := ws[|ws| - 1];
      if last.WireRelation? && last.relation.id == id then Some(last.relation)
      else LastRelation(ws[..|ws| - 1], id)
  }

  function Encodings(ws: seq<WireMessage>): (raws: seq<bytes>)
    requires forall w | w in ws :: Decodable(w)
    ensures |raws| == |ws|
  {
    if ws == [] then []
    else
      var w := ws[|ws| - 1];
      assert w in ws && Decodable(w);
      Encodings(ws[..|ws| - 1]) + [EncodeMessage(w)]
  }

  /** The cache after a run of messages: each id keeps the last relation sent for it. */
  function CacheOf(ws: seq<WireMessage>, cache: Cache): (after: Cache)
    ensures forall id: uint32 ::
              match LastRelation(ws, id)
              case Some(relation) => id in after && after[id] == relation
              case None => (id in after <==> id in cache) && (id in cache ==> after[id] == cache[id])
  {
    if ws == [] then cache
    else CacheAfter(CacheOf(ws[..|ws| - 1], cache), Some(Decoded(ws[|ws| - 1])))
  }

  lemma {:induction false} DecodeStreamAppend(raws: seq<bytes>, raw: bytes, cache: Cache)
    ensures var front := DecodeStream(raws, cache);
            var message := DecodeMessage(raw, front.cache);
            DecodeStream(raws + [raw], cache)
            == Stream(front.messages + [message], CacheAfter(front.cache, message))
    decreases |raws|
  {
    hide DecodeMessage, CacheAfter;
    if raws == [] {
      assert raws + [raw] == [raw];
      assert [raw][1..] == [];
    } else {
      var next := CacheAfter(cache, DecodeMessage(raws[0], cache));
      DecodeStreamAppend(raws[1..], raw, next);
      assert (raws + [raw])[1..] == raws[1..] + [raw];
    }
  }

  /** What can arrive: an encoded message, or bytes that no case of the parser takes. */
  datatype Arrival = Encoded(message: WireMessage) | Junk(raw: bytes)

  predicate CanArrive(a: Arrival) {
    match a
    case Encoded(w) => Decodable(w)
    case Junk(raw) => DecodeMessage(raw, map[]) == None
  }

  lemma TuplesFailAlike(data: bytes, offset: nat)
    ensures DecodeTuple(data, offset, false).Ok? <==> DecodeTuple(data, offset, true).Ok?
    ensures DecodeTuple(data, offset, false).Ok? ==>
        DecodeTuple(data, offset, false).next == DecodeTuple(data, offset, true).next
  {
    OverloadsAgree(data, offset);
  }

  /** Whether a packet parses does not depend on the relations known. */
  lemma FailsAlike(raw: bytes, cache: Cache)
    ensures DecodeMessage(raw, cache) == None <==> DecodeMessage(raw, map[]) == None
  {
    if raw != [] {
      var data := raw[1..];
      hide DecodeTuple, DecodeRelation, DecodeBegin, DecodeCommit;
      forall o: nat
        ensures DecodeTuple(data, o, false).Ok? <==> DecodeTuple(data, o, true).Ok?
        ensures DecodeTuple(data, o, false).Ok? ==> DecodeTuple(data, o, false).next == DecodeTuple(data, o, true).next
      {
        TuplesFailAlike(data, o);
      }
    }
  }

  function RawOf(a: Arrival): bytes
    requires CanArrive(a)
  {
    match a
    case Encoded(w) => EncodeMessage(w)
    case Junk(raw) => raw
  }

  function Raws(arrivals: seq<Arrival>): (raws: seq<bytes>)
    requires forall a | a in arrivals :: CanArrive(a)
    ensures |raws| == |arrivals|
  {
    if arrivals == [] then []
    else
      var a := arrivals[|arrivals| - 1];
      assert a in arrivals;
      Raws(arrivals[..|arrivals| - 1]) + [RawOf(a)]
  }

  function Recovered(arrivals: seq<Arrival>): (messages: seq<Option<Message>>)
    ensures |messages| == |arrivals|
    ensures forall i | 0 <= i < |arrivals| ::
              messages[i] == match arrivals[i] { case Encoded(w) => Some(Decoded(w)) case Junk(_) => None }
  {
    if arrivals == [] then []
    else
      Recovered(arrivals[..|arrivals| - 1])
      + [match arrivals[|arrivals| - 1] { case Encoded(w) => Some(Decoded(w)) case Junk(_) => None }]
  }

  /** The messages among the arrivals. */
  function Sent(arrivals: seq<Arrival>): seq<WireMessage> {
    if arrivals == [] then []
    else
      Sent(arrivals[..|arrivals| - 1])
      + match arrivals[|arrivals| - 1] { case Encoded(w) => [w] case Junk(_) => [] }
  }

  lemma JunkIsSkipped(raw: bytes, cache: Cache)
    requires DecodeMessage(raw, map[]) == None
    ensures DecodeMessage(raw, cache) == None && CacheAfter(cache, DecodeMessage(raw, cache)) == cache
  {
    FailsAlike(raw, cache);
    hide DecodeMessage;
  }

  /**
    Decoding what arrives recovers every encoded message and nothing for a packet that does not
    parse, and leaves the cache that maps each id to the last relation message sent for it, an id
    without one keeping its old entry. Packets that do not parse leave no trace.
   */
  lemma {:induction false} StreamRoundTrip(arrivals: seq<Arrival>, cache: Cache)
    requires forall a | a in arrivals :: CanArrive(a)
    ensures DecodeStream(Raws(arrivals), cache) == Stream(Recovered(arrivals), CacheOf(Sent(arrivals), cache))
    decreases |arrivals|
  {
    hide DecodeMessage, EncodeMessage, Decodable, CacheAfter, Decoded;
    if arrivals != [] {
      var front, a := arrivals[..|arrivals| - 1], arrivals[|arrivals| - 1];
      assert a in arrivals;
      StreamRoundTrip(front, cache);
      DecodeStreamAppend(Raws(front), RawOf(a), cache);
      match a
      case Encoded(w) =>
        MessageRoundTrip(w, CacheOf(Sent(front), cache));
        assert (Sent(front) + [w])[..|Sent(front)|] == Sent(front);
      case Junk(raw) =>
        JunkIsSkipped(raw, CacheOf(Sent(front), cache));
        assert Sent(front) + [] == Sent(front);
    }
  }
}
