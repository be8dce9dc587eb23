/**
 The search history of `addToHistory`: newest entry first, at most ten entries,
 and a product is not added again when it repeats the code at the head.
 */
module HistoryLedger {
  import opened Catalog

  /** `addToHistory` keeps the ten most recent entries. */
  const Capacity := 10

  /** No entry has the same code as the entry right after it. */
  predicate NoAdjacentRepeats(h: seq<Product>)
  {
    forall k :: 0 <= k < |h| - 1 ==> h[k].code != h[k + 1].code
  }

  /** What every reachable history satisfies. */
  predicate WellFormed(h: seq<Product>)
  {
    |h| <= Capacity && NoAdjacentRepeats(h)
  }

  /** The history `h` after `addToHistory(p)`: unshift, then pop once when over capacity. */
  function Pushed(h: seq<Product>, p: Product): (r: seq<Product>)
    ensures r != [] && r[0].code == p.code
    ensures |r| <= |h| + 1
    ensures |h| <= Capacity ==> |r| <= Capacity
  {
    if |h| > 0 && h[0].code == p.code then h
    else
      var g := [p] + h;
      if |g| > Capacity then g[..|g| - 1] else g
  }

  /** A product whose code (compared with `===`, so case-sensitive) equals the head's is dropped. */
  lemma PushedRepeatIgnored(h: seq<Product>, p: Product)
    requires |h| > 0 && h[0].code == p.code
    ensures Pushed(h, p) == h
  {
  }

  /**
   Any other product becomes the head; the length grows by one up to the capacity,
   and behind the new head come the old entries, at most the oldest one dropped.
   */
  lemma PushedNewHead(h: seq<Product>, p: Product)
    requires |h| == 0 || h[0].code != p.code
    ensures var r := Pushed(h, p);
      && |r| == (if |h| < Capacity then |h| + 1 else |h|)
      && r[0] == p
      && r[1..] == h[..|r| - 1]
  {
    var r := Pushed(h, p);
    assert r[1..] == h[..|r| - 1];
  }

  /** On a full history a new head evicts exactly the oldest entry. */
  lemma PushedEvictsOldest(h: seq<Product>, p: Product)
    requires |h| == Capacity && h[0].code != p.code
    ensures multiset(Pushed(h, p)) == multiset(h) - multiset{h[Capacity - 1]} + multiset{p}
  {
    var r := Pushed(h, p);
    assert r == [p] + h[..Capacity - 1];
    assert h == h[..Capacity - 1] + [h[Capacity - 1]];
  }

  /** Adding keeps the history within capacity and free of adjacent repeats. */
  lemma PushedWellFormed(h: seq<Product>, p: Product)
    requires WellFormed(h)
    ensures WellFormed(Pushed(h, p))
  {
    if |h| == 0 || h[0].code != p.code {
      var r := Pushed(h, p);
      PushedNewHead(h, p);
      forall k | 0 <= k < |r| - 1
        ensures r[k].code != r[k + 1].code
      {
        if k > 0 {
          assert r[k] == h[k - 1] && r[k + 1] == h[k];
        } else {
          assert r[1] == h[0];
        }
      }
    }
  }

  /** The module-level `searchHistory` array and the function that updates it. */
  class History {
    var entries: seq<Product>

    ghost predicate Valid()
      reads this
    {
      WellFormed(entries)
    }

    constructor ()
      ensures Valid() && entries == []
    {
      entries := [];
    }

    /** `addToHistory(product)`. */
    method Add(p: Product)
      requires Valid()
      modifies this
      ensures Valid()
      ensures entries == Pushed(old(entries), p)
    {
      PushedWellFormed(entries, p);
      if |entries| > 0 && entries[0].code == p.code {
        return;
      }
      entries := [p] + entries;
      if |entries| > Capacity {
        entries := entries[..|entries| - 1];
      }
    }
  }
}
