/** Sequence operations two or more components share. */
module Lists {
  import opened Words

  /** The elements that pass a test, in order. */
  function Filter<T>(s: seq<T>, keep: T -> bool): (r: seq<T>)
    ensures |r| <= |s|
  {
    if s == [] then []
    else
      var last := |s| - 1;
      Filter(s[..last], keep) + if keep(s[last]) then [s[last]] else []
  }

  lemma {:induction false} FilterIs<T>(s: seq<T>, keep: T -> bool, x: T)
    ensures x in Filter(s, keep) <==> x in s && keep(x)
  {
    if s != [] {
      var last := |s| - 1;
      FilterIs(s[..last], keep, x);
      assert s == s[..last] + [s[last]];
    }
  }

  /** The last n elements. */
  function Newest<T>(s: seq<T>, n: nat): (r: seq<T>)
    ensures |r| == Min(|s|, n)
  {
    if |s| <= n then s else s[|s| - n..]
  }

  predicate EndsWith<T(==)>(s: seq<T>, suffix: seq<T>) {
    |suffix| <= |s| && s[|s| - |suffix|..] == suffix
  }

  /** Filtering is element by element, in order. */
  lemma {:induction false} FilterParts<T>(a: seq<T>, b: seq<T>, x: T, keep: T -> bool)
    ensures Filter(a + b, keep) == Filter(a, keep) + Filter(b, keep)
    ensures Filter([x], keep) == if keep(x) then [x] else []
  {
    assert [x][..0] == [];
    if b == [] {
      assert a + b == a && Filter(a, keep) + [] == Filter(a, keep);
    } else {
      var last := |b| - 1;
      FilterParts(a, b[..last], x, keep);
      assert (a + b)[..|a + b| - 1] == a + b[..last];
    }
  }
}
