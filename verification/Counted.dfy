/**
  Counted repetition: the decoder's loops read a number of items one behind the other, and the
  format lays them out that way. Stated once here, used for the columns of a relation and for the
  values of a tuple.
 */
module Counted {
  import opened Bytes

  /** `n` reads in a row; each yields the items it pushes. */
  function ReadMany<T>(read: nat -> Read<seq<T>>, offset: nat, n: nat): Read<seq<T>>
    decreases n
  {
    if n == 0 then Ok([], offset)
    else
      match read(offset)
      case Underflow => Underflow
      case Ok(items, o) => Prepend(items, ReadMany(read, o, n - 1))
  }

  function Prepend<T>(front: seq<T>, r: Read<seq<T>>): Read<seq<T>> {
    match r
    case Underflow => Underflow
    case Ok(values, next) => Ok(front + values, next)
  }

  lemma PrependTwice<T>(a: seq<T>, b: seq<T>, r: Read<seq<T>>)
    ensures Prepend(a, Prepend(b, r)) == Prepend(a + b, r)
  {
    if r.Ok? {
      assert a + (b + r.value) == (a + b) + r.value;
    }
  }

  lemma PrependNothing<T>(r: Read<seq<T>>)
    ensures Prepend([], r) == r
  {
    if r.Ok? {
      assert [] + r.value == r.value;
    }
  }

  function EncodeMany<V>(encode: V -> bytes, vs: seq<V>): bytes {
    if vs == [] then [] else encode(vs[0]) + EncodeMany(encode, vs[1..])
  }

  lemma {:induction false} EncodeManyConcat<V>(encode: V -> bytes, a: seq<V>, b: seq<V>)
    ensures EncodeMany(encode, a + b) == EncodeMany(encode, a) + EncodeMany(encode, b)
    decreases |a|
  {
    if a == [] {
      assert a + b == b;
    } else {
      assert (a + b)[1..] == a[1..] + b;
      EncodeManyConcat(encode, a[1..], b);
    }
  }

  function Map<V, T>(f: V -> T, vs: seq<V>): (r: seq<T>)
    ensures |r| == |vs| && forall i | 0 <= i < |vs| :: r[i] == f(vs[i])
  {
    if vs == [] then [] else [f(vs[0])] + Map(f, vs[1..])
  }

  lemma {:induction false} MapConcat<V, T>(f: V -> T, a: seq<V>, b: seq<V>)
    ensures Map(f, a + b) == Map(f, a) + Map(f, b)
    decreases |a|
  {
    if a == [] {
      assert a + b == b;
    } else {
      assert (a + b)[1..] == a[1..] + b;
      MapConcat(f, a[1..], b);
    }
  }

  /** Wherever the encoding of one of the items stands, it is read back. */
  ghost predicate ReadsBack<V, T>(data: bytes, vs: seq<V>, encode: V -> bytes, read: nat -> Read<seq<T>>, f: V -> T) {
    forall v, o: nat | v in vs && At(data, o, encode(v)) :: read(o) == Ok([f(v)], o + |encode(v)|)
  }

  lemma RestReadsBack<V, T>(data: bytes, vs: seq<V>, encode: V -> bytes, read: nat -> Read<seq<T>>, f: V -> T,
      offset: nat)
    requires vs != [] && ReadsBack(data, vs, encode, read, f)
    ensures ReadsBack(data, vs[1..], encode, read, f)
    ensures At(data, offset, encode(vs[0])) ==> read(offset) == Ok([f(vs[0])], offset + |encode(vs[0])|)
  {
    hide At;
    assert vs[0] in vs;
  }

  /** Reading back the items one by one reads back the repetition, up to its exact end. */
  lemma {:induction false} ManyRoundTrip<V, T>(
    data: bytes, offset: nat, vs: seq<V>, encode: V -> bytes, read: nat -> Read<seq<T>>, f: V -> T)
    requires ReadsBack(data, vs, encode, read, f)
    requires At(data, offset, EncodeMany(encode, vs))
    ensures ReadMany(read, offset, |vs|) == Ok(Map(f, vs), offset + |EncodeMany(encode, vs)|)
    decreases |vs|
  {
    if vs != [] {
      AtConcat(data, offset, encode(vs[0]), EncodeMany(encode, vs[1..]));
      RestReadsBack(data, vs, encode, read, f, offset);
      hide ReadsBack, At;
      ManyRoundTrip(data, offset + |encode(vs[0])|, vs[1..], encode, read, f);
    }
  }

  /** A repetition that succeeded stays inside the buffer and is not changed by what comes behind. */
  lemma {:induction false} ManyExtends<T>(
    read: nat -> Read<seq<T>>, wider: nat -> Read<seq<T>>, size: nat, offset: nat, n: nat)
    requires forall o: nat | read(o).Ok? :: wider(o) == read(o) && read(o).next <= size
    requires offset <= size && ReadMany(read, offset, n).Ok?
    ensures ReadMany(wider, offset, n) == ReadMany(read, offset, n)
    ensures ReadMany(read, offset, n).next <= size
    decreases n
  {
    if n > 0 {
      ManyExtends(read, wider, size, read(offset).next, n - 1);
    }
  }
}
