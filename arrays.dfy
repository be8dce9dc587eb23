/**
 JavaScript's `Array.prototype.filter` over sequences: the elements for which the
 callback holds, in their original order.
 */
module Arrays {

  function Filter<T>(s: seq<T>, keep: T -> bool): (r: seq<T>)
    ensures |r| <= |s|
    ensures forall x :: x in r ==> x in s && keep(x)
  {
    if s == [] then []
    else (if keep(s[0]) then [s[0]] else []) + Filter(s[1..], keep)
  }

  /** Nothing that passes the callback is dropped: membership is exactly "in `s` and kept". */
  lemma {:induction false} FilterMembership<T>(s: seq<T>, keep: T -> bool, x: T)
    ensures x in Filter(s, keep) <==> x in s && keep(x)
  {
    if s != [] {
      FilterMembership(s[1..], keep, x);
      assert s == [s[0]] + s[1..];
    }
  }

  /** Each kept element occurs as often as in `s`; every other element not at all. */
  lemma {:induction false} FilterCount<T>(s: seq<T>, keep: T -> bool, x: T)
    ensures multiset(Filter(s, keep))[x] == if keep(x) then multiset(s)[x] else 0
  {
    if s != [] {
      FilterCount(s[1..], keep, x);
      assert s == [s[0]] + s[1..];
    }
  }

  /** Filtering a concatenation filters each part in turn. */
  lemma {:induction false} FilterAppend<T>(a: seq<T>, b: seq<T>, keep: T -> bool)
    ensures Filter(a + b, keep) == Filter(a, keep) + Filter(b, keep)
  {
    if a == [] {
      assert a + b == b;
    } else {
      var head := if keep(a[0]) then [a[0]] else [];
      calc {
        Filter(a + b, keep);
        { assert (a + b)[0] == a[0] && (a + b)[1..] == a[1..] + b; }
        head + Filter(a[1..] + b, keep);
        { FilterAppend(a[1..], b, keep); }
        head + (Filter(a[1..], keep) + Filter(b, keep));
        (head + Filter(a[1..], keep)) + Filter(b, keep);
      }
    }
  }

  /** `idx` picks the elements of `r` out of `s` at strictly increasing positions. */
  ghost predicate Embeds<T>(idx: seq<int>, r: seq<T>, s: seq<T>)
  {
    && |idx| == |r|
    && (forall k :: 0 <= k < |idx| ==> 0 <= idx[k] < |s| && r[k] == s[idx[k]])
    && (forall k, l :: 0 <= k < l < |idx| ==> idx[k] < idx[l])
  }

  /** The result is a subsequence of `s`: its elements appear in `s` in the same order. */
  lemma {:induction false} FilterIsSubsequence<T>(s: seq<T>, keep: T -> bool)
    ensures exists idx :: Embeds(idx, Filter(s, keep), s)
  {
    if s == [] {
      assert Embeds([], Filter(s, keep), s);
    } else {
      FilterIsSubsequence(s[1..], keep);
      var rest := Filter(s[1..], keep);
      var idx :| Embeds(idx, rest, s[1..]);
      var shifted := EmbedsInTail(idx, rest, s);
      if keep(s[0]) {
        EmbedsCons(shifted, rest, s);
        assert Embeds([0] + shifted, Filter(s, keep), s);
      } else {
        assert Embeds(shifted, Filter(s, keep), s);
      }
    }
  }

  /** Positions in the tail of `s`, moved up by one, are positions in `s` (none of them 0). */
  lemma EmbedsInTail<T>(idx: seq<int>, r: seq<T>, s: seq<T>) returns (shifted: seq<int>)
    requires s != [] && Embeds(idx, r, s[1..])
    ensures Embeds(shifted, r, s)
    ensures forall k :: 0 <= k < |shifted| ==> shifted[k] > 0
  {
    shifted := seq(|idx|, k requires 0 <= k < |idx| => idx[k] + 1);
    forall k | 0 <= k < |shifted|
      ensures 0 < shifted[k] < |s| && r[k] == s[shifted[k]]
    {
      assert s[1..][idx[k]] == s[idx[k] + 1];
    }
  }

  /** Position 0 can be put in front of an embedding that does not use it. */
  lemma EmbedsCons<T>(idx: seq<int>, r: seq<T>, s: seq<T>)
    requires s != [] && Embeds(idx, r, s)
    requires forall k :: 0 <= k < |idx| ==> idx[k] > 0
    ensures Embeds([0] + idx, [s[0]] + r, s)
  {
    var idx', r' := [0] + idx, [s[0]] + r;
    forall k | 0 <= k < |idx'|
      ensures 0 <= idx'[k] < |s| && r'[k] == s[idx'[k]]
    {
      if k > 0 {
        assert idx'[k] == idx[k - 1] && r'[k] == r[k - 1];
      }
    }
    forall k, l | 0 <= k < l < |idx'|
      ensures idx'[k] < idx'[l]
    {
      if k > 0 {
        assert idx'[k] == idx[k - 1] && idx'[l] == idx[l - 1];
      } else {
        assert idx'[l] == idx[l - 1];
      }
    }
  }

  /** The result is the single element `p` exactly when `p` is kept, occurs once, and nothing else is kept. */
  lemma FilterSingleton<T>(s: seq<T>, keep: T -> bool, p: T)
    ensures Filter(s, keep) == [p] <==>
      keep(p) && multiset(s)[p] == 1 && forall x :: x in s && x != p ==> !keep(x)
  {
    var r := Filter(s, keep);
    FilterCount(s, keep, p);
    if r == [p] {
      forall x | x in s && x != p
        ensures !keep(x)
      {
        FilterMembership(s, keep, x);
      }
    } else if keep(p) && multiset(s)[p] == 1 && forall x :: x in s && x != p ==> !keep(x) {
      forall x | x in r
        ensures x == p
      {
        FilterMembership(s, keep, x);
      }
      CountOfConstant(r, p);
    }
  }

  /** In a sequence holding nothing but `p`, `p` occurs once per position. */
  lemma {:induction false} CountOfConstant<T>(r: seq<T>, p: T)
    requires forall x :: x in r ==> x == p
    ensures multiset(r)[p] == |r|
  {
    if r != [] {
      assert r == [r[0]] + r[1..];
      assert r[0] in r;
      forall x | x in r[1..]
        ensures x == p
      {
        assert x in r;
      }
      CountOfConstant(r[1..], p);
    }
  }
}
