/**
  Kafka keeps the order of records with the same key and no other; a record with the empty key is
  sent without one, and then nothing is kept. What a consumer's state owes to the order of delivery.
 */
module Logs {
  import opened Changes

  // ----- Logs by routing key -----

  /** The records with a routing key, in order. */
  function Log(xs: seq<Keyed>, key: string): seq<Keyed> {
    if xs == [] then []
    else
      var x := xs[|xs| - 1];
      Log(xs[..|xs| - 1], key) + if x.key == key then [x] else []
  }

  /** Kafka keeps two records in order if they have the same key. */
  predicate Ordered(x: Keyed, y: Keyed) {
    x.key == y.key != ""
  }

  /** The same records, each key's in the same order. */
  ghost predicate SameLogs(xs: seq<Keyed>, ys: seq<Keyed>) {
    && (forall key: string | key != "" :: Log(xs, key) == Log(ys, key))
    && multiset(Log(xs, "")) == multiset(Log(ys, ""))
  }

  lemma {:induction false} LogConcat(a: seq<Keyed>, b: seq<Keyed>, key: string)
    ensures Log(a + b, key) == Log(a, key) + Log(b, key)
    decreases |b|
  {
    if b == [] {
      assert a + b == a;
    } else {
      assert (a + b)[..|a + b| - 1] == a + b[..|b| - 1];
      LogConcat(a, b[..|b| - 1], key);
    }
  }

  lemma {:induction false} LogMembers(xs: seq<Keyed>, key: string)
    ensures forall x | x in Log(xs, key) :: x in xs && x.key == key
    ensures forall x | x in xs && x.key == key :: x in Log(xs, key)
    decreases |xs|
  {
    if xs != [] {
      LogMembers(xs[..|xs| - 1], key);
      assert xs == xs[..|xs| - 1] + [xs[|xs| - 1]];
    }
  }

  /** The last record of a log, found in the delivery: no record behind it has its key. */
  lemma {:induction false} LastOfLog(ys: seq<Keyed>, x: Keyed) returns (a: seq<Keyed>, b: seq<Keyed>)
    requires var log := Log(ys, x.key); log != [] && log[|log| - 1] == x
    ensures ys == a + [x] + b && Log(b, x.key) == []
    decreases |ys|
  {
    var front, y := ys[..|ys| - 1], ys[|ys| - 1];
    assert ys == front + [y];
    if y.key == x.key {
      a, b := front, [];
    } else {
      a, b := LastOfLog(front, x);
      LogConcat(b, [y], x.key);
      assert a + [x] + (b + [y]) == (a + [x] + b) + [y];
      assert [y][..0] == [];
      b := b + [y];
    }
  }

  lemma LogOne(x: Keyed, key: string)
    ensures Log([x], key) == if x.key == key then [x] else []
  {
    assert [x][..0] == [];
  }

  lemma LogAppend(xs: seq<Keyed>, x: Keyed, key: string)
    ensures Log(xs + [x], key) == if x.key == key then Log(xs, key) + [x] else Log(xs, key)
  {
    assert (xs + [x])[..|xs|] == xs;
  }

  lemma LogSplit(a: seq<Keyed>, x: Keyed, b: seq<Keyed>, key: string)
    ensures Log(a + [x] + b, key) == Log(a, key) + (if x.key == key then [x] else []) + Log(b, key)
    ensures Log(a + b, key) == Log(a, key) + Log(b, key)
  {
    LogConcat(a + [x], b, key);
    LogConcat(a, [x], key);
    LogConcat(a, b, key);
    LogOne(x, key);
  }

  lemma SameLogsMembers(xs: seq<Keyed>, ys: seq<Keyed>)
    requires SameLogs(xs, ys)
    ensures forall y :: y in ys <==> y in xs
  {
    hide Log;
    forall y
      ensures y in ys <==> y in xs
    {
      LogMembers(ys, y.key);
      LogMembers(xs, y.key);
      assert y in multiset(Log(xs, y.key)) <==> y in multiset(Log(ys, y.key));
    }
  }

  lemma CancelLast(p: seq<Keyed>, q: seq<Keyed>, x: Keyed)
    requires p + [x] == q + [x]
    ensures p == q
  {
    assert p == (p + [x])[..|p|] && q == (q + [x])[..|q|];
  }

  lemma MultisetSplit(p: seq<Keyed>, a: seq<Keyed>, x: Keyed, b: seq<Keyed>)
    requires multiset(p + [x]) == multiset(a + [x] + b)
    ensures multiset(p) == multiset(a + b)
  {
    assert multiset(p + [x]) == multiset(p) + multiset{x};
    assert multiset(a + [x] + b) == multiset(a) + multiset{x} + multiset(b);
    assert multiset(a + b) == multiset(a) + multiset(b);
    assert multiset(p) == multiset(p + [x]) - multiset{x};
  }

  lemma LogWithout(xs: seq<Keyed>, x: Keyed, a: seq<Keyed>, b: seq<Keyed>, key: string)
    requires Log(xs + [x], key) == Log(a + [x] + b, key) && (x.key == key ==> Log(b, key) == [])
    ensures Log(xs, key) == Log(a + b, key)
  {
    hide Log;
    LogAppend(xs, x, key);
    LogSplit(a, x, b, key);
    if key == x.key {
      CancelLast(Log(xs, key), Log(a, key), x);
    }
  }

  lemma UnkeyedWithout(xs: seq<Keyed>, x: Keyed, a: seq<Keyed>, b: seq<Keyed>)
    requires multiset(Log(xs + [x], "")) == multiset(Log(a + [x] + b, ""))
    ensures multiset(Log(xs, "")) == multiset(Log(a + b, ""))
  {
    hide Log;
    LogAppend(xs, x, "");
    LogSplit(a, x, b, "");
    if x.key == "" {
      MultisetSplit(Log(xs, ""), Log(a, ""), x, Log(b, ""));
    }
  }

  lemma LogsWithout(xs: seq<Keyed>, x: Keyed, a: seq<Keyed>, b: seq<Keyed>)
    requires SameLogs(xs + [x], a + [x] + b) && (x.key != "" ==> Log(b, x.key) == [])
    ensures SameLogs(xs, a + b)
  {
    hide Log;
    forall key: string | key != ""
      ensures Log(xs, key) == Log(a + b, key)
    {
      LogWithout(xs, x, a, b, key);
    }
    UnkeyedWithout(xs, x, a, b);
  }

  /** The last record of one sequence, found in the other: what stands behind it is not ordered against it. */
  lemma LastInOther(xs: seq<Keyed>, x: Keyed, ys: seq<Keyed>) returns (a: seq<Keyed>, b: seq<Keyed>)
    requires SameLogs(xs + [x], ys)
    ensures ys == a + [x] + b && SameLogs(xs, a + b)
    ensures forall y | y in b :: !Ordered(x, y)
  {
    hide Log, SameLogs;
    if x.key == "" {
      assert x in ys by {
        SameLogsMembers(xs + [x], ys);
        assert x in xs + [x];
      }
      var i :| 0 <= i < |ys| && ys[i] == x;
      a, b := ys[..i], ys[i + 1..];
      assert ys == a + [x] + b;
    } else {
      assert Log(ys, x.key) == Log(xs, x.key) + [x] by {
        LogAppend(xs, x, x.key);
        LogOfSame(xs + [x], ys, x.key);
      }
      a, b := LastOfLog(ys, x);
      LogMembers(b, x.key);
    }
    LogsWithout(xs, x, a, b);
  }

  lemma LogOfSame(xs: seq<Keyed>, ys: seq<Keyed>, key: string)
    requires SameLogs(xs, ys) && key != ""
    ensures Log(xs, key) == Log(ys, key)
  {
  }

  lemma SwapKeepsLogs(x: Keyed, y: Keyed)
    requires !Ordered(x, y)
    ensures SameLogs([x, y], [y, x])
  {
    hide Log;
    assert [x] + [y] == [x, y] && [y] + [x] == [y, x];
    forall key: string
      ensures key != "" ==> Log([x, y], key) == Log([y, x], key)
      ensures multiset(Log([x, y], key)) == multiset(Log([y, x], key))
    {
      LogConcat([x], [y], key);
      LogConcat([y], [x], key);
      LogOne(x, key);
      LogOne(y, key);
    }
  }

  // ----- Steps that commute -----

  /** A state after the records, one step each. */
  function Fold<S>(step: (S, Keyed) -> S, s: S, xs: seq<Keyed>): S {
    if xs == [] then s else step(Fold(step, s, xs[..|xs| - 1]), xs[|xs| - 1])
  }

  lemma FoldAppend<S>(step: (S, Keyed) -> S, s: S, xs: seq<Keyed>, x: Keyed)
    ensures Fold(step, s, xs + [x]) == step(Fold(step, s, xs), x)
  {
    assert (xs + [x])[..|xs|] == xs;
  }

  /** Two records have the same effect in either order, in every good state. */
  ghost predicate Commute<S(!new)>(step: (S, Keyed) -> S, good: S -> bool, x: Keyed, y: Keyed) {
    forall s: S | good(s) :: step(step(s, x), y) == step(step(s, y), x)
  }

  ghost predicate Keeps<S(!new)>(step: (S, Keyed) -> S, good: S -> bool, x: Keyed) {
    forall s: S | good(s) :: good(step(s, x))
  }

  /** Any order of the pool's records that keeps every log gives the same state. */
  ghost predicate OrderIndependent<S(!new)>(step: (S, Keyed) -> S, good: S -> bool, pool: set<Keyed>) {
    forall s: S, xs: seq<Keyed>, ys: seq<Keyed> | good(s) && (forall x | x in xs :: x in pool) && SameLogs(xs, ys) ::
      Fold(step, s, xs) == Fold(step, s, ys)
  }

  lemma {:induction false} FoldIsGood<S(!new)>(step: (S, Keyed) -> S, good: S -> bool, s: S, xs: seq<Keyed>)
    requires good(s) && forall x | x in xs :: Keeps(step, good, x)
    ensures good(Fold(step, s, xs))
    decreases |xs|
  {
    if xs != [] {
      var front, x := xs[..|xs| - 1], xs[|xs| - 1];
      assert xs == front + [x] && x in xs;
      FoldIsGood(step, good, s, front);
    }
  }

  /** A record moves behind records it commutes with. */
  lemma {:induction false} MoveBehind<S(!new)>(step: (S, Keyed) -> S, good: S -> bool, s: S, a: seq<Keyed>, x: Keyed,
      b: seq<Keyed>)
    requires good(s) && forall y | y in a + b :: Keeps(step, good, y)
    requires forall y | y in b :: Commute(step, good, x, y)
    ensures Fold(step, s, a + [x] + b) == Fold(step, s, a + b + [x])
    decreases |b|
  {
    hide Fold, Keeps;
    if b == [] {
      assert a + [x] + b == a + [x] && a + b + [x] == a + [x];
    } else {
      var front, y := b[..|b| - 1], b[|b| - 1];
      assert a + [x] + b == (a + [x] + front) + [y] && a + b == (a + front) + [y];
      FoldIsGood(step, good, s, a + front);
      MoveBehind(step, good, s, a, x, front);
      FoldAppend(step, s, a + [x] + front, y);
      FoldAppend(step, s, a + front, x);
      FoldAppend(step, s, a + front, y);
      FoldAppend(step, s, a + b, x);
      assert Commute(step, good, x, y);
    }
  }

  lemma {:induction false} SameLogsSameState<S(!new)>(step: (S, Keyed) -> S, good: S -> bool, s: S, xs: seq<Keyed>,
      ys: seq<Keyed>)
    requires good(s) && SameLogs(xs, ys) && forall x | x in xs :: Keeps(step, good, x)
    requires forall x, y | x in xs && y in xs && !Ordered(x, y) :: Commute(step, good, x, y)
    ensures Fold(step, s, xs) == Fold(step, s, ys)
    decreases |xs|
  {
    hide Fold, SameLogs, Commute, Keeps;
    SameLogsMembers(xs, ys);
    if xs == [] {
      FirstMember(ys);
    } else {
      var front, x := xs[..|xs| - 1], xs[|xs| - 1];
      assert xs == front + [x] && x in xs;
      var a, b := LastInOther(front, x, ys);
      MoveBehind(step, good, s, a, x, b);
      SameLogsSameState(step, good, s, front, a + b);
      FoldAppend(step, s, front, x);
      FoldAppend(step, s, a + b, x);
    }
  }

  lemma FirstMember(ys: seq<Keyed>)
    ensures ys == [] || exists y :: y in ys
  {
    if ys != [] {
      assert ys[0] in ys;
    }
  }

  lemma FoldTwo<S>(step: (S, Keyed) -> S, s: S, x: Keyed, y: Keyed)
    ensures Fold(step, s, [x, y]) == step(step(s, x), y)
  {
    FoldAppend(step, s, [], x);
    FoldAppend(step, s, [x], y);
    assert [] + [x] == [x] && [x] + [y] == [x, y];
  }

  /** Order independence of a set of records is commutation of the pairs whose order is not kept. */
  lemma IndependentExactlyIfCommuting<S(!new)>(step: (S, Keyed) -> S, good: S -> bool, pool: set<Keyed>)
    requires forall x | x in pool :: Keeps(step, good, x)
    ensures OrderIndependent(step, good, pool)
       <==> forall x, y | x in pool && y in pool && !Ordered(x, y) :: Commute(step, good, x, y)
  {
    hide Fold, Keeps, SameLogs;
    if OrderIndependent(step, good, pool) {
      forall x, y | x in pool && y in pool && !Ordered(x, y)
        ensures Commute(step, good, x, y)
      {
        forall s: S | good(s)
          ensures step(step(s, x), y) == step(step(s, y), x)
        {
          SwapKeepsLogs(x, y);
          FoldTwo(step, s, x, y);
          FoldTwo(step, s, y, x);
        }
      }
    }
    if forall x, y | x in pool && y in pool && !Ordered(x, y) :: Commute(step, good, x, y) {
      forall s: S, xs: seq<Keyed>, ys: seq<Keyed> | good(s) && (forall x | x in xs :: x in pool) && SameLogs(xs, ys)
        ensures Fold(step, s, xs) == Fold(step, s, ys)
      {
        hide Commute;
        SameLogsSameState(step, good, s, xs, ys);
      }
    }
  }

  // ----- Parts of a delivery -----

  /** Of every key a first part of its log, the logs interleaved in any way. */
  ghost predicate IsPartOf(ys: seq<Keyed>, xs: seq<Keyed>) {
    && (forall key: string | key != "" :: Log(ys, key) <= Log(xs, key))
    && multiset(Log(ys, "")) <= multiset(Log(xs, ""))
  }

  /** Cutting off a part leaves a part. */
  lemma CutPart(ys: seq<Keyed>, xs: seq<Keyed>, n: nat)
    requires IsPartOf(ys, xs) && n <= |ys|
    ensures IsPartOf(ys[..n], xs)
  {
    hide Log;
    assert ys == ys[..n] + ys[n..];
    forall key: string
      ensures Log(ys, key) == Log(ys[..n], key) + Log(ys[n..], key)
    {
      LogConcat(ys[..n], ys[n..], key);
    }
    assert multiset(Log(ys, "")) == multiset(Log(ys[..n], "")) + multiset(Log(ys[n..], ""));
  }

  lemma PartMembers(ys: seq<Keyed>, xs: seq<Keyed>)
    requires IsPartOf(ys, xs)
    ensures forall y | y in ys :: y in xs
  {
    hide Log;
    forall y | y in ys
      ensures y in xs
    {
      LogMembers(ys, y.key);
      LogMembers(xs, y.key);
      assert y in multiset(Log(ys, y.key)) && multiset(Log(ys, y.key)) <= multiset(Log(xs, y.key)) by {
        if y.key != "" {
          PrefixCounts(Log(ys, y.key), Log(xs, y.key));
        }
      }
    }
  }

  lemma PrefixCounts(p: seq<Keyed>, q: seq<Keyed>)
    requires p <= q
    ensures multiset(p) <= multiset(q)
  {
    assert q == p + q[|p|..];
  }

  lemma EmptyLog(key: string)
    ensures Log([], key) == []
  {
  }

  lemma AtMostOneLogged(xs: seq<Keyed>, key: string)
    requires |xs| <= 1
    ensures |Log(xs, key)| <= 1
  {
    if |xs| == 1 {
      LogOne(xs[0], key);
      assert xs == [xs[0]];
    }
  }
}
