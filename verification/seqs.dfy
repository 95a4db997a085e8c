/** Order-preserving selection over table sequences: the meaning of a query's
    equality filters and of a `delete()` with the same filters. */
module Seqs {

  /** The elements of `s` that satisfy `keep`, in their original order. */
  function Filter<T(!new)>(s: seq<T>, keep: T -> bool): (r: seq<T>)
    ensures |r| <= |s|
    ensures forall i :: 0 <= i < |r| ==> keep(r[i])
    ensures forall x :: x in r <==> x in s && keep(x)
  {
    if |s| == 0 then []
    else if keep(s[0]) then [s[0]] + Filter(s[1..], keep)
    else Filter(s[1..], keep)
  }

  lemma {:induction false} FilterAppend<T(!new)>(a: seq<T>, b: seq<T>, keep: T -> bool)
    ensures Filter(a + b, keep) == Filter(a, keep) + Filter(b, keep)
  {
    if |a| == 0 {
      assert a + b == b;
    } else {
      assert (a + b)[1..] == a[1..] + b;
      FilterAppend(a[1..], b, keep);
    }
  }

  /** Nothing is dropped when every element satisfies the filter. */
  lemma {:induction false} FilterKeepsAll<T(!new)>(s: seq<T>, keep: T -> bool)
    requires forall i :: 0 <= i < |s| ==> keep(s[i])
    ensures Filter(s, keep) == s
  {
    if |s| > 0 {
      FilterKeepsAll(s[1..], keep);
    }
  }

  /** Everything is dropped when no element satisfies the filter. */
  lemma {:induction false} FilterKeepsNone<T(!new)>(s: seq<T>, keep: T -> bool)
    requires forall i :: 0 <= i < |s| ==> !keep(s[i])
    ensures Filter(s, keep) == []
  {
    if |s| > 0 {
      FilterKeepsNone(s[1..], keep);
    }
  }

  /** Filtering commutes with a pointwise rewrite that does not change whether an element is kept. */
  lemma {:induction false} FilterMapCommute<T(!new)>(s: seq<T>, f: T -> T, keep: T -> bool)
    requires forall x :: keep(f(x)) == keep(x)
    ensures Filter(MapSeq(s, f), keep) == MapSeq(Filter(s, keep), f)
  {
    if |s| > 0 {
      assert MapSeq(s, f)[1..] == MapSeq(s[1..], f);
      FilterMapCommute(s[1..], f, keep);
      if keep(s[0]) {
        assert MapSeq([s[0]] + Filter(s[1..], keep), f)
            == [f(s[0])] + MapSeq(Filter(s[1..], keep), f);
      }
    }
  }

  /** Filtering by two conditions one after the other is filtering by both. */
  lemma {:induction false} FilterFilter<T(!new)>(s: seq<T>, outer: T -> bool, inner: T -> bool, both: T -> bool)
    requires forall x :: both(x) == (outer(x) && inner(x))
    ensures Filter(Filter(s, outer), inner) == Filter(s, both)
  {
    if |s| > 0 {
      FilterFilter(s[1..], outer, inner, both);
    }
  }

  /** Filtering by a condition that is the disjoint union of two others counts the matches
      of each. */
  lemma {:induction false} FilterCountSplit<T(!new)>(s: seq<T>, keep: T -> bool, a: T -> bool, b: T -> bool)
    requires forall x :: keep(x) == (a(x) || b(x))
    requires forall x :: !(a(x) && b(x))
    ensures |Filter(s, keep)| == |Filter(s, a)| + |Filter(s, b)|
  {
    if |s| > 0 {
      FilterCountSplit(s[1..], keep, a, b);
    }
  }

  /** `s.map(f)`. */
  function MapSeq<T, U>(s: seq<T>, f: T -> U): (r: seq<U>)
    ensures |r| == |s|
    ensures forall i :: 0 <= i < |s| ==> r[i] == f(s[i])
  {
    seq(|s|, i requires 0 <= i < |s| => f(s[i]))
  }

  /** No two elements share a key. */
  predicate UniqueBy<T, K(==)>(s: seq<T>, key: T -> K) {
    forall i, j :: 0 <= i < j < |s| ==> key(s[i]) != key(s[j])
  }

  /** Selecting from a sequence with unique keys gives a sequence with unique keys. */
  lemma {:induction false} FilterKeepsUniqueBy<T(!new), K>(s: seq<T>, key: T -> K, keep: T -> bool)
    requires UniqueBy(s, key)
    ensures UniqueBy(Filter(s, keep), key)
  {
    if |s| > 0 {
      assert UniqueBy(s[1..], key) by {
        forall a, b | 0 <= a < b < |s[1..]|
          ensures key(s[1..][a]) != key(s[1..][b])
        {
          assert s[1..][a] == s[a + 1] && s[1..][b] == s[b + 1];
        }
      }
      FilterKeepsUniqueBy(s[1..], key, keep);
      if keep(s[0]) {
        var rest := Filter(s[1..], keep);
        forall x | x in rest
          ensures key(x) != key(s[0])
        {
          var m :| 0 <= m < |s[1..]| && s[1..][m] == x;
          assert s[m + 1] == x;
        }
        var r := [s[0]] + rest;
        forall a, b | 0 <= a < b < |r|
          ensures key(r[a]) != key(r[b])
        {
          assert r[b] == rest[b - 1];
          if a > 0 {
            assert r[a] == rest[a - 1];
          } else {
            assert rest[b - 1] in rest;
          }
        }
      }
    }
  }
}
