/**
 * The page state that `renderItems` changes: the children of the items
 * container and the total-items counter. The catalog itself is only read.
 */
module CatalogView {
  import opened Wrappers
  import opened Sorting
  import opened Catalog

  /** A child of the items container: the "no items found" notice, or the card of one item. */
  datatype Node = Placeholder | Card(item: Item)

  /** The container's children for the query result `r`. */
  function Rendering(r: seq<Item>): seq<Node>
  {
    if r == [] then [Placeholder] else seq(|r|, i requires 0 <= i < |r| => Card(r[i]))
  }

  /**
   * The notice is shown alone, exactly when the result is empty; otherwise there is
   * one card per result item, in result order.
   */
  lemma RenderingShape(r: seq<Item>)
    ensures Placeholder in Rendering(r) <==> r == []
    ensures r == [] ==> Rendering(r) == [Placeholder]
    ensures r != [] ==> |Rendering(r)| == |r| && forall i :: 0 <= i < |r| ==> Rendering(r)[i] == Card(r[i])
  {
  }

  /** The cards are the items of the result. */
  lemma CardInRendering(r: seq<Item>, x: Item)
    ensures Card(x) in Rendering(r) <==> x in r
  {
    if x in r {
      var i :| 0 <= i < |r| && r[i] == x;
      assert Rendering(r)[i] == Card(x);
    }
  }

  /** A non-empty list of cards, one per item in order, is the rendering of those items. */
  lemma RenderingOfCards(r: seq<Item>, ns: seq<Node>)
    requires r != [] && |ns| == |r|
    requires forall k :: 0 <= k < |r| ==> ns[k] == Card(r[k])
    ensures ns == Rendering(r)
  {
  }

  /** The notice is shown exactly when no catalog item matches the query. */
  lemma PlaceholderIffNoMatch(q: Query, catalog: seq<Item>)
    ensures Placeholder in Rendering(Run(q, catalog)) <==> forall x :: x in catalog ==> !Matches(q, x)
  {
    var r := Run(q, catalog);
    RenderingShape(r);
    if r != [] {
      assert multiset(r)[r[0]] > 0;
      assert r[0] in catalog;
    } else {
      forall x | x in catalog
        ensures !Matches(q, x)
      {
        assert multiset(catalog)[x] > 0;
      }
    }
  }

  /** Every card shows a catalog item that matches the query, and no matching item is left without a card. */
  lemma CardsShowMatches(q: Query, catalog: seq<Item>, x: Item)
    ensures Card(x) in Rendering(Run(q, catalog)) <==> x in catalog && Matches(q, x)
  {
    var r := Run(q, catalog);
    CardInRendering(r, x);
    assert x in r <==> multiset(r)[x] > 0;
    assert x in catalog <==> multiset(catalog)[x] > 0;
  }

  /** `items.filter(...)` into a new array, then `filtered.sort(...)` on that array. */
  method FilterAndSort(items: array<Item>, q: Query) returns (filtered: array<Item>)
    ensures fresh(filtered)
    ensures filtered[..] == Run(q, items[..])
  {
    var matching := Filter(q, items[..]);
    filtered := new Item[|matching|](i requires 0 <= i < |matching| => matching[i]);
    assert filtered[..] == matching;
    SortInPlace(filtered, Comparator(q.key));
  }

  class Page {
    /** The catalog loaded from the data file. */
    const items: array<Item>
    /** Whether the items container, and the total-items counter, are on the page. */
    const hasContainer: bool
    const hasTotalItems: bool
    /** The children of the items container. */
    var content: seq<Node>
    /** The text of the total-items counter, once it has been written. */
    var totalItems: Option<int>

    constructor (catalog: seq<Item>, hasContainer: bool, hasTotalItems: bool)
      ensures fresh(items) && items[..] == catalog
      ensures this.hasContainer == hasContainer && this.hasTotalItems == hasTotalItems
      ensures content == [] && totalItems == None
    {
      items := new Item[|catalog|](i requires 0 <= i < |catalog| => catalog[i]);
      this.hasContainer := hasContainer;
      this.hasTotalItems := hasTotalItems;
      content := [];
      totalItems := None;
    }

    /** `filtered.forEach(...)`: append the card of each item of `shown` to the container, in order. */
    method AppendCards(shown: array<Item>)
      modifies this`content
      ensures |content| == |old(content)| + shown.Length
      ensures forall k :: 0 <= k < |old(content)| ==> content[k] == old(content)[k]
      ensures forall k :: 0 <= k < shown.Length ==> content[|old(content)| + k] == Card(shown[k])
    {
      ghost var start := content;
      for i := 0 to shown.Length
        modifies this`content
        invariant |content| == |start| + i
        invariant forall k :: 0 <= k < |start| ==> content[k] == start[k]
        invariant forall k :: 0 <= k < i ==> content[|start| + k] == Card(shown[k])
      {
        content := content + [Card(shown[i])];
      }
    }

    /**
     * `renderItems`: without a container nothing happens; otherwise the container
     * is cleared and shows the rendering of the query result, and the counter is
     * set to the size of the whole catalog only when there are cards to show.
     */
    method RenderItems(controls: Controls)
      modifies this`content, this`totalItems
      ensures unchanged(items)
      ensures !hasContainer ==> content == old(content) && totalItems == old(totalItems)
      ensures hasContainer ==> content == Rendering(Run(ReadQuery(controls), items[..]))
      ensures totalItems ==
        if hasContainer && hasTotalItems && Run(ReadQuery(controls), items[..]) != []
        then Some(items.Length) else old(totalItems)
    {
      if !hasContainer {
        return;
      }
      var q := ReadQuery(controls);
      content := [];
      var shown := FilterAndSort(items, q);
      if shown.Length == 0 {
        content := [Placeholder];
        return;
      }
      AppendCards(shown);
      RenderingOfCards(shown[..], content);
      if hasTotalItems {
        totalItems := Some(items.Length);
      }
    }
  }
}
