/**
 The lookup of `performSearch`: normalise the typed query, keep the inventory
 rows whose code equals it or, for queries longer than three characters, whose
 description contains it, and record the result when it is a single row.
 */
module Lookup {
  import opened Strings
  import opened Catalog
  import opened Arrays

  /** A description match is tried only for queries longer than this. */
  const PartialMatchMinExclusive := 3

  /** The query as `performSearch` reads it from the input field: lower-cased, then trimmed. */
  function Normalize(raw: string): (q: string)
    ensures q == [] <==> AllWhitespace(raw)
    ensures q != [] ==> !IsWhitespace(q[0]) && !IsWhitespace(q[|q| - 1])
  {
    LowerKeepsWhitespace(raw);
    Trim(Lower(raw))
  }

  /**
   The filter callback: the folded code equals the query, or the query is longer
   than three characters and occurs somewhere in the folded description.
   */
  predicate Matches(p: Product, q: string)
    ensures Lower(Text(p.code)) == q ==> Matches(p, q)
    ensures |q| <= PartialMatchMinExclusive ==> (Matches(p, q) <==> Lower(Text(p.code)) == q)
  {
    Lower(Text(p.code)) == q
    || (|q| > PartialMatchMinExclusive && Contains(Lower(Text(p.description)), q))
  }

  /** The description test is a search for an occurrence of the query at some position. */
  lemma MatchesIff(p: Product, q: string)
    ensures Matches(p, q) <==>
      (Lower(Text(p.code)) == q
       || (|q| > PartialMatchMinExclusive && exists i :: OccursAt(Lower(Text(p.description)), q, i)))
  {
    var desc := Lower(Text(p.description));
    ContainsIff(desc, q);
    if |q| > PartialMatchMinExclusive && exists i :: OccursAt(desc, q, i) {
      assert Contains(desc, q);
      assert Matches(p, q);
    }
  }

  /** The callback handed to `inventory.filter` for the query `q`. */
  function Keep(q: string): (keep: Product -> bool)
    ensures forall p :: keep(p) <==> Matches(p, q)
  {
    p => Matches(p, q)
  }

  /** What `performSearch` does with a query: return early, or show these results. */
  datatype Outcome = Ignored | Searched(results: seq<Product>)

  /** The lookup of `performSearch` against `inv`. */
  function Search(inv: seq<Product>, raw: string): (o: Outcome)
    ensures o.Ignored? <==> AllWhitespace(raw)
  {
    var q := Normalize(raw);
    if q == [] then Ignored else Searched(Filter(inv, Keep(q)))
  }

  /** The row `performSearch` adds to the history, if any. */
  function Recorded(o: Outcome): (p: Option<Product>)
    ensures p.Some? <==> o.Searched? && |o.results| == 1
    ensures p.Some? ==> o.results == [p.value]
  {
    if o.Searched? && |o.results| == 1 then Some(o.results[0]) else None
  }

  /**
   The results of a non-blank query are exactly the matching rows, each as often as it
   occurs in the inventory, in inventory order.
   */
  lemma SearchIsOrderedFilter(inv: seq<Product>, raw: string)
    requires !AllWhitespace(raw)
    ensures Search(inv, raw).Searched?
    ensures forall x :: x in Search(inv, raw).results <==> x in inv && Matches(x, Normalize(raw))
    ensures forall x ::
              multiset(Search(inv, raw).results)[x] == if Matches(x, Normalize(raw)) then multiset(inv)[x] else 0
    ensures exists idx :: Embeds(idx, Search(inv, raw).results, inv)
  {
    var keep := Keep(Normalize(raw));
    forall x
      ensures x in Filter(inv, keep) <==> x in inv && Matches(x, Normalize(raw))
      ensures multiset(Filter(inv, keep))[x] == if Matches(x, Normalize(raw)) then multiset(inv)[x] else 0
    {
      FilterMembership(inv, keep, x);
      FilterCount(inv, keep, x);
    }
    FilterIsSubsequence(inv, keep);
  }

  /** A row whose folded code equals the query is found, whatever the query's length. */
  lemma ExactCodeFound(inv: seq<Product>, raw: string, x: Product)
    requires x in inv && !AllWhitespace(raw)
    ensures Lower(Text(x.code)) == Normalize(raw) ==> x in Search(inv, raw).results
  {
    FilterMembership(inv, Keep(Normalize(raw)), x);
  }

  /** A query of at most three characters finds rows by exact code only, never by description. */
  lemma ShortQueryMatchesCodeOnly(inv: seq<Product>, raw: string, x: Product)
    requires x in inv && !AllWhitespace(raw)
    ensures |Normalize(raw)| <= PartialMatchMinExclusive ==>
      (x in Search(inv, raw).results <==> Lower(Text(x.code)) == Normalize(raw))
  {
    FilterMembership(inv, Keep(Normalize(raw)), x);
  }

  /** A row without a code (or with an empty one) matches a non-empty query only through its description. */
  lemma MissingCodeMatchesByDescription(p: Product, q: string)
    requires Text(p.code) == "" && q != []
    ensures Matches(p, q) <==>
      |q| > PartialMatchMinExclusive && exists i :: OccursAt(Lower(Text(p.description)), q, i)
  {
    assert Lower(Text(p.code)) == [];
    assert Matches(p, q) <==> |q| > PartialMatchMinExclusive && Contains(Lower(Text(p.description)), q);
    ContainsIff(Lower(Text(p.description)), q);
  }

  /** Hence such a row is in the results only when the query occurs in its description. */
  lemma MissingCodeFoundByDescription(inv: seq<Product>, raw: string, x: Product)
    requires Text(x.code) == "" && x in inv && !AllWhitespace(raw)
    ensures x in Search(inv, raw).results <==>
      |Normalize(raw)| > PartialMatchMinExclusive
      && exists i :: OccursAt(Lower(Text(x.description)), Normalize(raw), i)
  {
    var q := Normalize(raw);
    FilterMembership(inv, Keep(q), x);
    MissingCodeMatchesByDescription(x, q);
  }

  /** A query that is empty or white space only is ignored, so nothing is recorded. */
  lemma BlankQueryRecordsNothing(inv: seq<Product>, raw: string)
    requires AllWhitespace(raw)
    ensures Search(inv, raw) == Ignored && Recorded(Search(inv, raw)) == None
  {
  }

  /**
   A row is recorded exactly when the query is not blank, the row matches, it occurs
   once in the inventory and no other row matches.
   */
  lemma RecordedIsSoleMatch(inv: seq<Product>, raw: string, p: Product)
    ensures Recorded(Search(inv, raw)) == Some(p) <==>
      && !AllWhitespace(raw)
      && Matches(p, Normalize(raw))
      && multiset(inv)[p] == 1
      && (forall x :: x in inv && x != p ==> !Matches(x, Normalize(raw)))
  {
    FilterSingleton(inv, Keep(Normalize(raw)), p);
  }
}
