/** The member names of a JSON object, in the byte order in which jsoncpp keeps them. */
module Members {

  /** Lexicographic order, a proper prefix first. */
  predicate AtMost(a: string, b: string) {
    a == "" || (b != "" && (a[0] < b[0] || (a[0] == b[0] && AtMost(a[1..], b[1..]))))
  }

  lemma {:induction false} AtMostReflexive(a: string)
    ensures AtMost(a, a)
    decreases |a|
  {
    if a != "" {
      AtMostReflexive(a[1..]);
    }
  }

  lemma {:induction false} AtMostTotal(a: string, b: string)
    ensures AtMost(a, b) || AtMost(b, a)
    decreases |a|
  {
    if a != "" && b != "" {
      AtMostTotal(a[1..], b[1..]);
    }
  }

  lemma {:induction false} AtMostAntisymmetric(a: string, b: string)
    requires AtMost(a, b) && AtMost(b, a)
    ensures a == b
    decreases |a|
  {
    if a != "" {
      AtMostAntisymmetric(a[1..], b[1..]);
      assert a == [a[0]] + a[1..] && b == [b[0]] + b[1..];
    }
  }

  lemma {:induction false} AtMostTransitive(a: string, b: string, c: string)
    requires AtMost(a, b) && AtMost(b, c)
    ensures AtMost(a, c)
    decreases |a|
  {
    if a != "" && a[0] == b[0] && b[0] == c[0] {
      AtMostTransitive(a[1..], b[1..], c[1..]);
    }
  }

  predicate IsLeast(name: string, names: set<string>) {
    name in names && forall other | other in names :: AtMost(name, other)
  }

  lemma {:induction false} LeastExists(names: set<string>) returns (least: string)
    requires names != {}
    ensures IsLeast(least, names)
    decreases |names|
  {
    var some :| some in names;
    var others := names - {some};
    AtMostReflexive(some);
    if others == {} {
      least := some;
      assert names == {some};
    } else {
      var best := LeastExists(others);
      AtMostReflexive(best);
      AtMostTotal(some, best);
      least := if AtMost(some, best) then some else best;
      forall other | other in names
        ensures AtMost(least, other)
      {
        if other != some {
          assert other in others;
          AtMostTransitive(least, best, other);
        }
      }
    }
  }

  lemma SomeLeast(names: set<string>)
    requires names != {}
    ensures exists least :: IsLeast(least, names)
  {
    var least := LeastExists(names);
  }

  lemma LeastIsUnique(names: set<string>)
    ensures forall a, b | IsLeast(a, names) && IsLeast(b, names) :: a == b
  {
    forall a, b | IsLeast(a, names) && IsLeast(b, names)
      ensures a == b
    {
      AtMostAntisymmetric(a, b);
    }
  }

  /** `getMemberNames`: every name once, in ascending order. */
  function Sorted(names: set<string>): (r: seq<string>)
    ensures forall name :: name in r <==> name in names
    ensures forall i, j | 0 <= i < j < |r| :: r[i] != r[j] && AtMost(r[i], r[j])
    ensures |r| == |names|
    decreases |names|
  {
    if names == {} then []
    else
      SomeLeast(names);
      LeastIsUnique(names);
      var least :| IsLeast(least, names);
      [least] + Sorted(names - {least})
  }

  /** Byte order: a prefix comes first, and else the first place where the names differ decides. */
  lemma {:induction false} AtMostIsByteOrder(a: string, b: string)
    ensures AtMost(a, b) <==> a <= b || exists i :: 0 <= i < |a| && i < |b| && a[..i] == b[..i] && a[i] < b[i]
    decreases |a|
  {
    if a != "" && b != "" && a[0] == b[0] {
      AtMostIsByteOrder(a[1..], b[1..]);
      assert a == [a[0]] + a[1..] && b == [b[0]] + b[1..];
      if i :| 0 <= i < |a| && i < |b| && a[..i] == b[..i] && a[i] < b[i] {
        assert a[1..][..i - 1] == a[..i][1..] && b[1..][..i - 1] == b[..i][1..];
        assert a[1..][i - 1] < b[1..][i - 1];
      }
      if i :| 0 <= i < |a[1..]| && i < |b[1..]| && a[1..][..i] == b[1..][..i] && a[1..][i] < b[1..][i] {
        assert a[..i + 1] == [a[0]] + a[1..][..i] && b[..i + 1] == [b[0]] + b[1..][..i];
        assert a[i + 1] < b[i + 1];
      }
    } else if a != "" && b != "" {
      assert a[..0] == b[..0];
      if i :| 0 <= i < |a| && i < |b| && a[..i] == b[..i] && a[i] < b[i] {
        assert i > 0 ==> a[..i][0] == b[..i][0];
      }
    }
  }
}
