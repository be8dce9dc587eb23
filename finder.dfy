/**
 The page's state and its search handler: the loaded inventory, the value of the
 search field, and the history, with `performSearch` tying lookup and history
 together.
 */
module PriceFinder {
  import opened Catalog
  import opened Arrays
  import opened Lookup
  import opened HistoryLedger

  class Finder {
    /** The rows of the last successful download (`inventory`). */
    var inventory: seq<Product>
    /** The current value of the search field. */
    var input: string
    /** `searchHistory`. */
    const history: History

    ghost predicate Valid()
      reads this, history
    {
      history.Valid()
    }

    /** The page as loaded: nothing downloaded yet, an empty field and an empty history. */
    constructor ()
      ensures Valid() && fresh(history)
      ensures inventory == [] && input == "" && history.entries == []
    {
      inventory := [];
      input := "";
      history := new History();
    }

    /** The download's completion callback: the parsed rows replace the inventory wholesale. */
    method Loaded(rows: seq<Product>)
      requires Valid()
      modifies this
      ensures Valid()
      ensures inventory == rows && input == old(input)
    {
      inventory := rows;
    }

    /**
     `performSearch`: read and clear the field; for a non-blank query show the
     matching rows and, when there is exactly one, add it to the history.
     */
    method PerformSearch() returns (o: Outcome)
      requires Valid()
      modifies this, history
      ensures Valid()
      ensures o == Search(old(inventory), old(input))
      ensures input == "" && inventory == old(inventory)
      ensures history.entries ==
        match Recorded(o)
        case Some(p) => Pushed(old(history.entries), p)
        case None => old(history.entries)
    {
      var query := Normalize(input);
      input := "";
      if query == [] {
        return Ignored;
      }
      var results := Filter(inventory, Keep(query));
      o := Searched(results);
      if |results| == 1 {
        history.Add(results[0]);
      }
    }
  }
}
