/**
 * The catalog query behind `renderItems`: keep the items whose name contains the
 * search text and whose category is the selected one, then order them by the
 * selected sort key with a stable sort (`Array.prototype.sort`).
 */
module Catalog {
  import opened Wrappers
  import opened Text
  import opened Sorting

  type Positive = n: int | n > 0 witness 1

  /** One entry of the catalog. Prices are whole cents. */
  datatype Item = Item(name: string, category: string, price: int, stack: Positive, icon: string, popular: bool)

  /** The category value that selects every category. */
  const AllCategories: string := "Alle"

  /** The orders the sort control offers; every unknown value orders by name. */
  datatype SortKey = PriceAsc | PriceDesc | StackDesc | ByName

  /** The value of the sort control that selects `key`. */
  function KeyName(key: SortKey): string
  {
    match key
    case PriceAsc => "price-asc"
    case PriceDesc => "price-desc"
    case StackDesc => "stack"
    case ByName => "name"
  }

  /**
   * The `switch (sort)` of `renderItems`: three named keys, each selected by its own
   * value, and a default that orders by name for every other value.
   */
  function ParseSortKey(s: string): (k: SortKey)
    ensures k == ByName <==> s != "price-asc" && s != "price-desc" && s != "stack"
    ensures k != ByName ==> KeyName(k) == s
  {
    if s == "price-asc" then PriceAsc
    else if s == "price-desc" then PriceDesc
    else if s == "stack" then StackDesc
    else ByName
  }

  /** Every key is selected by its own control value. */
  lemma ParseKeyName(key: SortKey)
    ensures ParseSortKey(KeyName(key)) == key
  {
  }

  /** The query that the three controls describe, with the search text already lower-cased. */
  datatype Query = Query(search: string, category: string, key: SortKey)

  /** The values of the search field, the category select and the sort select, when they exist. */
  datatype Controls = Controls(search: Option<string>, category: Option<string>, sort: Option<string>)

  /**
   * Read the controls; a missing control reads as `""`, `"Alle"` and `"name"`.
   * The search text is kept in lower case, and lower-casing it again gives what
   * lower-casing the typed text gives.
   */
  function ReadQuery(c: Controls): (q: Query)
    ensures c.search.None? ==> q.search == ""
    ensures c.search.Some? ==> ToLower(q.search) == ToLower(c.search.value)
    ensures forall i :: 0 <= i < |q.search| ==> LowerChar(q.search[i]) == q.search[i]
    ensures q.category == if c.category.Some? then c.category.value else AllCategories
    ensures c.sort.None? ==> q.key == ByName
    ensures c.sort.Some? ==> q.key == ParseSortKey(c.sort.value)
  {
    Query(
      match c.search case Some(s) => ToLower(s) case None => "",
      c.category.GetOr(AllCategories),
      ParseSortKey(c.sort.GetOr("name")))
  }

  /** The filter callback: the name contains the search text and the category is selected. */
  predicate Matches(q: Query, x: Item)
  {
    Includes(ToLower(x.name), q.search) && (q.category == AllCategories || x.category == q.category)
  }

  /**
   * An item passes the filter for the controls exactly when the search text occurs
   * in its name in any casing, and the category select is missing, `"Alle"` or the
   * item's own category.
   */
  lemma MatchesControls(c: Controls, x: Item)
    ensures Matches(ReadQuery(c), x) <==>
      (exists k :: OccursIgnoringCase(x.name, c.search.GetOr(""), k))
      && (c.category.GetOr(AllCategories) == AllCategories || x.category == c.category.GetOr(AllCategories))
  {
    var t := c.search.GetOr("");
    assert ReadQuery(c).search == ToLower(t);
    IncludesIgnoresCase(x.name, t);
  }

  /** `items.filter(...)`: a new sequence of the matching items, in catalog order. */
  function Filter(q: Query, s: seq<Item>): (r: seq<Item>)
    ensures |r| <= |s|
    ensures forall x :: x in r ==> Matches(q, x)
    ensures forall x :: multiset(r)[x] == if Matches(q, x) then multiset(s)[x] else 0
  {
    if s == [] then []
    else
      assert s == [s[0]] + s[1..];
      (if Matches(q, s[0]) then [s[0]] else []) + Filter(q, s[1..])
  }

  /** With no search text and every category, the filter keeps the whole catalog in order. */
  lemma {:induction false} FilterKeepsAll(q: Query, s: seq<Item>)
    requires q.search == "" && q.category == AllCategories
    ensures Filter(q, s) == s
  {
    if s != [] {
      FilterKeepsAll(q, s[1..]);
    }
  }

  /**
   * The comparators passed to `filtered.sort`: negative when `a` belongs before `b`,
   * zero when the key does not tell them apart.
   */
  function Compare(key: SortKey, a: Item, b: Item): (r: int)
    ensures key == PriceAsc ==> (r < 0 <==> a.price < b.price) && (r == 0 <==> a.price == b.price)
    ensures key == PriceDesc ==> (r < 0 <==> a.price > b.price) && (r == 0 <==> a.price == b.price)
    ensures key == StackDesc ==> (r < 0 <==> a.stack > b.stack) && (r == 0 <==> a.stack == b.stack)
    ensures key == ByName ==> (r == 0 <==> a.name == b.name)
  {
    match key
    case PriceAsc => a.price - b.price
    case PriceDesc => b.price - a.price
    case StackDesc => b.stack - a.stack
    case ByName => LocaleCompare(a.name, b.name)
  }

  /** The comparator as the function value handed to `sort`. */
  function Comparator(key: SortKey): (Item, Item) -> int
  {
    (a, b) => Compare(key, a, b)
  }

  /** Each of the four comparators orders every pair of items, transitively. */
  lemma ComparatorConsistent(key: SortKey)
    ensures ConsistentComparator(Comparator(key))
  {
    var cmp := Comparator(key);
    forall a, b
      ensures Before(cmp, a, b) || Before(cmp, b, a)
    {
      if key == ByName {
        LocaleCompareAntisymmetric(a.name, b.name);
      }
    }
    forall a, b, c | Before(cmp, a, b) && Before(cmp, b, c)
      ensures Before(cmp, a, c)
    {
      if key == ByName {
        LocaleCompareTransitive(a.name, b.name, c.name);
      }
    }
  }

  /**
   * What `renderItems` shows, in order: the matching items sorted by the query's key.
   * It holds exactly the matching catalog items, each as often as in the catalog.
   */
  function Run(q: Query, catalog: seq<Item>): (r: seq<Item>)
    ensures forall x :: x in r ==> Matches(q, x)
    ensures forall x :: multiset(r)[x] == if Matches(q, x) then multiset(catalog)[x] else 0
  {
    StableSortPermutes(Comparator(q.key), Filter(q, catalog));
    StableSort(Comparator(q.key), Filter(q, catalog))
  }

  /** Filtering a concatenation filters each part. */
  lemma {:induction false} FilterAppend(q: Query, s: seq<Item>, t: seq<Item>)
    ensures Filter(q, s + t) == Filter(q, s) + Filter(q, t)
  {
    if s == [] {
      assert s + t == t;
    } else {
      assert (s + t)[0] == s[0] && (s + t)[1..] == s[1..] + t;
      FilterAppend(q, s[1..], t);
    }
  }

  /**
   * The filter keeps catalog order: the kept items tied with `x` are the items
   * tied with `x` in the catalog, filtered, in the same order.
   */
  lemma {:induction false} FilterTies(q: Query, cmp: (Item, Item) -> int, x: Item, s: seq<Item>)
    ensures Ties(cmp, x, Filter(q, s)) == Filter(q, Ties(cmp, x, s))
  {
    if s != [] {
      var y := s[0];
      var h := if Matches(q, y) then [y] else [];
      var th := if Tied(cmp, x, y) then [y] else [];
      assert Ties(cmp, x, [y]) == th + Ties(cmp, x, [y][1..]);
      assert Filter(q, [y]) == h + Filter(q, [y][1..]);
      assert Ties(cmp, x, h) == Filter(q, th);
      TiesAppend(cmp, x, h, Filter(q, s[1..]));
      FilterTies(q, cmp, x, s[1..]);
      FilterAppend(q, th, Ties(cmp, x, s[1..]));
    }
  }

  /**
   * The result is ordered as the sort key asks, is a stable sort of the filtered
   * items, and shows the matching items that the key ties in catalog order.
   */
  lemma RunCorrect(q: Query, catalog: seq<Item>)
    ensures StablySorts(Comparator(q.key), Run(q, catalog), Filter(q, catalog))
    ensures forall x :: Ties(Comparator(q.key), x, Run(q, catalog)) == Filter(q, Ties(Comparator(q.key), x, catalog))
  {
    ComparatorConsistent(q.key);
    StableSortCorrect(Comparator(q.key), Filter(q, catalog));
    forall x
      ensures Ties(Comparator(q.key), x, Run(q, catalog)) == Filter(q, Ties(Comparator(q.key), x, catalog))
    {
      FilterTies(q, Comparator(q.key), x, catalog);
    }
  }

  /** What each sort key guarantees about neighbours in the result, in the item's own terms. */
  lemma RunOrder(q: Query, catalog: seq<Item>, i: int, j: int)
    requires 0 <= i < j < |Run(q, catalog)|
    ensures q.key == PriceAsc ==> Run(q, catalog)[i].price <= Run(q, catalog)[j].price
    ensures q.key == PriceDesc ==> Run(q, catalog)[i].price >= Run(q, catalog)[j].price
    ensures q.key == StackDesc ==> Run(q, catalog)[i].stack >= Run(q, catalog)[j].stack
    ensures q.key == ByName ==> LocaleCompare(Run(q, catalog)[i].name, Run(q, catalog)[j].name) <= 0
  {
    ComparatorConsistent(q.key);
    StableSortOrdered(Comparator(q.key), Filter(q, catalog));
  }

  /** With every control missing the page shows the whole catalog ordered by name. */
  lemma RunDefaults(catalog: seq<Item>)
    ensures Run(ReadQuery(Controls(None, None, None)), catalog) == StableSort(Comparator(ByName), catalog)
  {
    FilterKeepsAll(ReadQuery(Controls(None, None, None)), catalog);
  }

  /** With an empty search and category "Alle" the page shows every catalog item. */
  lemma RunShowsAll(sort: Option<string>, catalog: seq<Item>)
    ensures multiset(Run(ReadQuery(Controls(Some(""), Some(AllCategories), sort)), catalog)) == multiset(catalog)
  {
  }
}
