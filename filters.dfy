/** The listing pipeline of shop/filters.py: query parameters become an item
    filter, the filter selects the items priced within its bounds and orders
    them by one of five sort keys, and a listing can be narrowed to a
    category, a title search or a user's favourites. */
module Filters {
  import opened Wrappers
  import opened Ordering
  import opened Models

  const DefaultMinPrice: int := 0
  const DefaultMaxPrice: int := 999999

  /** The dict `get_item_filter` returns; prices are whole currency units. */
  datatype ItemFilter = ItemFilter(minPrice: int, maxPrice: int, sort: Option<string>)

  /** The bound `int()` yields, or `default` when it raises or yields 0. */
  function BoundOr(p: ParsedInt, default: int): int {
    match p
    case Parsed(n) => if n != 0 then n else default
    case _ => default
  }

  /** `get_item_filter`: a missing, malformed or zero bound falls back to
      its default; every other integer, negative ones included, is kept;
      `sort` is passed through whatever it holds. */
  function GetItemFilter(minPrice: ParsedInt, maxPrice: ParsedInt, sort: Option<string>): (f: ItemFilter)
    ensures minPrice.Parsed? && minPrice.value != 0 ==> f.minPrice == minPrice.value
    ensures !(minPrice.Parsed? && minPrice.value != 0) ==> f.minPrice == DefaultMinPrice
    ensures maxPrice.Parsed? && maxPrice.value != 0 ==> f.maxPrice == maxPrice.value
    ensures !(maxPrice.Parsed? && maxPrice.value != 0) ==> f.maxPrice == DefaultMaxPrice
    ensures f.sort == sort
  {
    ItemFilter(BoundOr(minPrice, DefaultMinPrice), BoundOr(maxPrice, DefaultMaxPrice), sort)
  }

  /** Parsing the bounds of a parsed filter again gives the same filter, so
      a filter form re-submitted with its own initial values lists the same
      items. */
  lemma GetItemFilterIdempotent(minPrice: ParsedInt, maxPrice: ParsedInt, sort: Option<string>)
    ensures var f := GetItemFilter(minPrice, maxPrice, sort);
      GetItemFilter(Parsed(f.minPrice), Parsed(f.maxPrice), f.sort) == f
  {
  }

  /** The five orderings of SORT_ORDER. */
  datatype SortKey = PriceAsc | PriceDesc | PurchasesDesc | ReviewsDesc | RateDesc

  const SortOrder: map<string, SortKey> :=
    map["1" := PriceAsc, "2" := PriceDesc, "3" := PurchasesDesc, "4" := ReviewsDesc, "5" := RateDesc]

  /** `SORT_ORDER.get(sort, 'price')`: an absent or unknown key orders by
      price ascending. */
  function OrderFor(sort: Option<string>): (k: SortKey)
    ensures sort.Some? && sort.value in SortOrder ==> k == SortOrder[sort.value]
    ensures !(sort.Some? && sort.value in SortOrder) ==> k == PriceAsc
  {
    if sort.Some? && sort.value in SortOrder then SortOrder[sort.value] else PriceAsc
  }

  /** The value `order_by` sorts on, descending; the three aggregate keys
      are the annotations `count_purchases`, `count_review` and `rate`. */
  function ItemScore(c: Catalog, key: SortKey, x: Item): Score {
    match key
    case PriceAsc => Val(-(x.price as real))
    case PriceDesc => Val(x.price as real)
    case PurchasesDesc => Val(PurchaseCount(c.purchases, x.pk) as real)
    case ReviewsDesc => Val(ReviewCount(c.reviews, x.pk) as real)
    case RateDesc =>
      match AvgRate(c.reviews, x.pk)
      case None => Null
      case Some(a) => Val(a)
  }

  /** What the listing promises about two items of which `a` comes first;
      for the average rate, only items that have reviews are compared. */
  predicate Precedes(c: Catalog, key: SortKey, a: Item, b: Item) {
    match key
    case PriceAsc => a.price <= b.price
    case PriceDesc => a.price >= b.price
    case PurchasesDesc => PurchaseCount(c.purchases, a.pk) >= PurchaseCount(c.purchases, b.pk)
    case ReviewsDesc => ReviewCount(c.reviews, a.pk) >= ReviewCount(c.reviews, b.pk)
    case RateDesc =>
      AvgRate(c.reviews, a.pk).Some? && AvgRate(c.reviews, b.pk).Some? ==>
        AvgRate(c.reviews, a.pk).value >= AvgRate(c.reviews, b.pk).value
  }

  function Before(c: Catalog, key: SortKey): (Item, Item) -> bool {
    (a: Item, b: Item) => Precedes(c, key, a, b)
  }

  /** The listing `r` is in the order `key` asks for. */
  predicate OrderedBy(c: Catalog, key: SortKey, r: seq<Item>) {
    forall i, j :: 0 <= i < j < |r| ==> Precedes(c, key, r[i], r[j])
  }

  /** `order_by(SORT_ORDER[key])`: the items in the order `key` asks for. */
  function OrderBy(c: Catalog, key: SortKey, items: seq<Item>): (r: seq<Item>)
    ensures multiset(r) == multiset(items)
    ensures OrderedBy(c, key, r)
  {
    var score := (x: Item) => ItemScore(c, key, x);
    var r := Sort(items, score);
    assert OrderedBy(c, key, r) by {
      forall i, j | 0 <= i < j < |r|
        ensures Precedes(c, key, r[i], r[j])
      {
        assert AtLeast(score(r[i]), score(r[j]));
      }
    }
    r
  }

  lemma OrderedByIsPairwise(c: Catalog, key: SortKey, r: seq<Item>)
    ensures OrderedBy(c, key, r) <==> Pairwise(r, Before(c, key))
  {
  }

  /** The aggregate `get_items_by_filter` annotates the listing with and
      orders it by: only the keys '3', '4' and '5' carry one. */
  function Annotation(sort: Option<string>): (a: Option<SortKey>)
    ensures a.Some? <==> sort == Some("3") || sort == Some("4") || sort == Some("5")
    ensures a.Some? ==> sort.value in SortOrder && a.value == SortOrder[sort.value]
  {
    if sort == Some("3") then Some(PurchasesDesc)
    else if sort == Some("4") then Some(ReviewsDesc)
    else if sort == Some("5") then Some(RateDesc)
    else None
  }

  /** What a listing ordered by the aggregate of `key` promises about two
      items of which `a` comes first, when each row of an item `x` is also
      joined with `mult(x)` related rows: the rows the two counts count are
      repeated that often, so the counts are multiplied by it, while an
      average over repeated rates is unchanged. */
  predicate JoinedPrecedes(c: Catalog, key: SortKey, mult: Item -> nat, a: Item, b: Item) {
    match key
    case PurchasesDesc =>
      PurchaseCount(c.purchases, a.pk) * mult(a) >= PurchaseCount(c.purchases, b.pk) * mult(b)
    case ReviewsDesc =>
      ReviewCount(c.reviews, a.pk) * mult(a) >= ReviewCount(c.reviews, b.pk) * mult(b)
    case _ => Precedes(c, key, a, b)
  }

  /** The score `order_by` sorts on in such a joined listing. */
  function JoinedScore(c: Catalog, key: SortKey, mult: Item -> nat, x: Item): Score {
    match key
    case PurchasesDesc => Val((PurchaseCount(c.purchases, x.pk) * mult(x)) as real)
    case ReviewsDesc => Val((ReviewCount(c.reviews, x.pk) * mult(x)) as real)
    case _ => ItemScore(c, key, x)
  }

  predicate JoinedOrderedBy(c: Catalog, key: SortKey, mult: Item -> nat, r: seq<Item>) {
    forall i, j :: 0 <= i < j < |r| ==> JoinedPrecedes(c, key, mult, r[i], r[j])
  }

  /** An item joined with exactly one related row is compared as in the
      listing without the join. */
  lemma JoinedPrecedesOnce(c: Catalog, key: SortKey, mult: Item -> nat, a: Item, b: Item)
    requires mult(a) == 1 && mult(b) == 1
    ensures JoinedPrecedes(c, key, mult, a, b) <==> Precedes(c, key, a, b)
  {
  }

  function Matches(mult: Item -> nat): Item -> bool {
    (x: Item) => mult(x) > 0
  }

  /** `items.filter(...)` across a multi-valued relation, `mult(x)` related
      rows matching item `x`. On a queryset without an aggregate annotation
      the join yields each item once per matching row, in the queryset's
      order. On a queryset annotated with the aggregate of `annotation` and
      ordered by it, the query groups by item: each matching item comes once,
      and the order is by the aggregate as the extra join inflates it. */
  function RelatedFilter(c: Catalog, items: seq<Item>, mult: Item -> nat, annotation: Option<SortKey>): (r: seq<Item>)
    ensures forall x :: x in r <==> x in items && mult(x) > 0
    ensures forall x ::
              multiset(r)[x] == if annotation.None? then multiset(items)[x] * mult(x)
                                else if mult(x) > 0 then multiset(items)[x] else 0
    ensures annotation.Some? ==> JoinedOrderedBy(c, annotation.value, mult, r)
  {
    if annotation.None? then
      var r := Join(items, mult);
      assert forall x :: multiset(r)[x] == multiset(items)[x] * mult(x) by {
        forall x ensures multiset(r)[x] == multiset(items)[x] * mult(x) {
          JoinCount(items, mult, x);
        }
      }
      r
    else
      var key := annotation.value;
      var kept := Filter(items, Matches(mult));
      var score := (x: Item) => JoinedScore(c, key, mult, x);
      var r := Sort(kept, score);
      assert forall x :: multiset(r)[x] == if mult(x) > 0 then multiset(items)[x] else 0 by {
        forall x ensures multiset(r)[x] == if mult(x) > 0 then multiset(items)[x] else 0 {
          FilterCount(items, Matches(mult), x);
        }
      }
      assert forall x :: x in r <==> x in items && mult(x) > 0 by {
        forall x ensures x in r <==> x in items && mult(x) > 0 {
          assert x in r <==> multiset(r)[x] > 0;
          assert x in items <==> multiset(items)[x] > 0;
        }
      }
      assert JoinedOrderedBy(c, key, mult, r) by {
        forall i, j | 0 <= i < j < |r|
          ensures JoinedPrecedes(c, key, mult, r[i], r[j])
        {
          assert AtLeast(score(r[i]), score(r[j]));
        }
      }
      r
  }

  /** On a queryset without an annotation, a filter across a multi-valued
      relation keeps any order that relates each item to itself. */
  lemma RelatedFilterKeepsOrder(c: Catalog, items: seq<Item>, mult: Item -> nat, before: (Item, Item) -> bool)
    requires Pairwise(items, before)
    requires forall x :: x in items ==> before(x, x)
    ensures Pairwise(RelatedFilter(c, items, mult, None), before)
  {
    JoinKeepsOrder(items, mult, before);
  }

  /** When no item of the queryset matches more than one related row, the
      annotated listing stays ordered by its key. */
  lemma RelatedFilterOrderedByKey(c: Catalog, items: seq<Item>, mult: Item -> nat, key: SortKey)
    requires forall x :: x in items ==> mult(x) <= 1
    ensures OrderedBy(c, key, RelatedFilter(c, items, mult, Some(key)))
  {
    var r := RelatedFilter(c, items, mult, Some(key));
    forall i, j | 0 <= i < j < |r|
      ensures Precedes(c, key, r[i], r[j])
    {
      assert r[i] in r && r[j] in r;
      assert JoinedPrecedes(c, key, mult, r[i], r[j]);
      JoinedPrecedesOnce(c, key, mult, r[i], r[j]);
    }
  }

  /** `price__gte=min_price, price__lte=max_price`, both bounds inclusive;
      prices are in cents and the bounds in whole units. */
  predicate InPriceRange(f: ItemFilter, x: Item) {
    f.minPrice * 100 <= x.price <= f.maxPrice * 100
  }

  /** The items priced within the filter's bounds. */
  function PriceFiltered(c: Catalog, f: ItemFilter): (r: seq<Item>)
    ensures forall x :: multiset(r)[x] == if InPriceRange(f, x) then multiset(c.items)[x] else 0
  {
    var r := Filter(Objects(c), (x: Item) => InPriceRange(f, x));
    assert forall x :: multiset(r)[x] == if InPriceRange(f, x) then multiset(c.items)[x] else 0 by {
      forall x
        ensures multiset(r)[x] == if InPriceRange(f, x) then multiset(c.items)[x] else 0
      {
        FilterCount(Objects(c), (x: Item) => InPriceRange(f, x), x);
      }
    }
    r
  }

  /** `get_items_by_filter`: exactly the items priced within the bounds,
      each as often as in the table, in the order of `SORT_ORDER.get(sort,
      'price')`. */
  function GetItemsByFilter(c: Catalog, f: ItemFilter): (r: seq<Item>)
    ensures forall x :: multiset(r)[x] == if InPriceRange(f, x) then multiset(c.items)[x] else 0
    ensures forall x :: x in r <==> x in c.items && InPriceRange(f, x)
    ensures OrderedBy(c, OrderFor(f.sort), r)
  {
    var r := OrderBy(c, OrderFor(f.sort), PriceFiltered(c, f));
    assert forall x :: x in r <==> x in c.items && InPriceRange(f, x) by {
      forall x ensures x in r <==> x in c.items && InPriceRange(f, x) {
        assert x in r <==> multiset(r)[x] > 0;
        assert x in c.items <==> multiset(c.items)[x] > 0;
      }
    }
    r
  }

  /** The categories whose slug is `slug`. */
  function SlugIs(categories: map<int, Category>, slug: string): int -> bool {
    (p: int) => p in categories && categories[p].slug == slug
  }

  /** The categories an item is joined with by `category__slug=slug`. */
  function CategoriesWithSlug(categories: map<int, Category>, x: Item, slug: string): seq<int> {
    Filter(x.categories, SlugIs(categories, slug))
  }

  /** Item `x` has a category whose slug is `slug`. */
  predicate HasCategory(categories: map<int, Category>, x: Item, slug: string) {
    exists p :: p in x.categories && p in categories && categories[p].slug == slug
  }

  lemma HasCategoryIff(categories: map<int, Category>, x: Item, slug: string)
    ensures HasCategory(categories, x, slug) <==> |CategoriesWithSlug(categories, x, slug)| > 0
  {
    var f := CategoriesWithSlug(categories, x, slug);
    if f != [] {
      var q := f[0];
      assert q in f;
      assert SlugIs(categories, slug)(q);
      assert q in x.categories && q in categories && categories[q].slug == slug;
    }
    if HasCategory(categories, x, slug) {
      var p :| p in x.categories && p in categories && categories[p].slug == slug;
      assert SlugIs(categories, slug)(p);
      assert p in f;
      assert |f| > 0;
    }
  }

  /** With unique slugs, a list of distinct categories holds at most one
      category of a given slug. */
  lemma {:induction false} SlugMatchesAtMostOne(categories: map<int, Category>, ps: seq<int>, slug: string)
    requires SlugsUnique(categories)
    requires Distinct(ps)
    ensures |Filter(ps, SlugIs(categories, slug))| <= 1
  {
    if ps != [] {
      var keep := SlugIs(categories, slug);
      var rest := Filter(ps[1..], keep);
      assert Filter(ps, keep) == (if keep(ps[0]) then [ps[0]] else []) + rest;
      if keep(ps[0]) {
        forall q | q in ps[1..]
          ensures !keep(q)
        {
          var m :| 0 <= m < |ps[1..]| && ps[1..][m] == q;
          assert ps[1 + m] == q;
        }
        FilterNone(ps[1..], keep);
      } else {
        SlugMatchesAtMostOne(categories, ps[1..], slug);
      }
    }
  }

  /** The number of rows the category join yields for an item. */
  function SlugMult(c: Catalog, slug: string): Item -> nat {
    (x: Item) => |CategoriesWithSlug(c.categories, x, slug)|
  }

  /** `get_items_by_category`: the items of the queryset `items` that have
      a category whose slug is `slug`; `annotation` is the aggregate the
      queryset is annotated with, if any. */
  function GetItemsByCategory(c: Catalog, items: seq<Item>, slug: string, annotation: Option<SortKey>): (r: seq<Item>)
    ensures forall x :: x in r <==> x in items && HasCategory(c.categories, x, slug)
  {
    var r := RelatedFilter(c, items, SlugMult(c, slug), annotation);
    assert forall x :: x in r <==> x in items && HasCategory(c.categories, x, slug) by {
      forall x ensures x in r <==> x in items && HasCategory(c.categories, x, slug) {
        HasCategoryIff(c.categories, x, slug);
      }
    }
    r
  }

  /** Because slugs are unique, the category filter duplicates no item,
      with or without an annotation: it keeps each matching item exactly as
      often as `items` holds it. */
  lemma CategoryKeepsMultiplicity(c: Catalog, items: seq<Item>, slug: string, annotation: Option<SortKey>, x: Item)
    requires SlugsUnique(c.categories)
    requires forall y :: y in items ==> Distinct(y.categories)
    ensures multiset(GetItemsByCategory(c, items, slug, annotation))[x] ==
      if HasCategory(c.categories, x, slug) then multiset(items)[x] else 0
  {
    var mult := SlugMult(c, slug);
    HasCategoryIff(c.categories, x, slug);
    var n, k := multiset(items)[x], mult(x);
    if x in items {
      SlugMatchesAtMostOne(c.categories, x.categories, slug);
      MultiplyByFlag(n, k);
    }
  }

  /** Because slugs are unique, no item matches two categories of a slug,
      so the category filter on an annotated listing keeps it ordered by
      its key. */
  lemma CategoryOrderedByKey(c: Catalog, items: seq<Item>, slug: string, key: SortKey)
    requires SlugsUnique(c.categories)
    requires forall y :: y in items ==> Distinct(y.categories)
    ensures OrderedBy(c, key, GetItemsByCategory(c, items, slug, Some(key)))
  {
    forall y | y in items
      ensures SlugMult(c, slug)(y) <= 1
    {
      SlugMatchesAtMostOne(c.categories, y.categories, slug);
    }
    RelatedFilterOrderedByKey(c, items, SlugMult(c, slug), key);
  }

  lemma MultiplyByFlag(n: nat, k: nat)
    requires k <= 1
    ensures n * k == if k == 1 then n else 0
  {
  }

  /** ASCII case folding, standing for the database's `icontains`. */
  function Lower(ch: char): char {
    if 'A' <= ch <= 'Z' then (ch as int + 32) as char else ch
  }

  function LowerString(s: string): (r: string)
    ensures |r| == |s| && forall i :: 0 <= i < |s| ==> r[i] == Lower(s[i])
  {
    if s == [] then [] else [Lower(s[0])] + LowerString(s[1..])
  }

  predicate IsPrefix(p: string, s: string) {
    |p| <= |s| && s[..|p|] == p
  }

  predicate IsSubstring(p: string, s: string) {
    IsPrefix(p, s) || (|s| > 0 && IsSubstring(p, s[1..]))
  }

  /** `title__icontains=search`. */
  predicate ContainsIgnoringCase(title: string, search: string) {
    IsSubstring(LowerString(search), LowerString(title))
  }

  function TitleContains(search: string): Item -> bool {
    (x: Item) => ContainsIgnoringCase(x.title, search)
  }

  /** `get_search_items`: an absent or empty search changes nothing;
      otherwise exactly the items whose title contains it, ignoring case. */
  function GetSearchItems(items: seq<Item>, search: Option<string>): (r: seq<Item>)
    ensures search.None? || search.value == [] ==> r == items
    ensures search.Some? && search.value != [] ==>
      forall x :: x in r <==> x in items && ContainsIgnoringCase(x.title, search.value)
    ensures search.Some? && search.value != [] ==>
      forall x :: multiset(r)[x] ==
        if ContainsIgnoringCase(x.title, search.value) then multiset(items)[x] else 0
  {
    if search.Some? && search.value != [] then
      var keep := TitleContains(search.value);
      var r := Filter(items, keep);
      assert forall x :: multiset(r)[x] == if keep(x) then multiset(items)[x] else 0 by {
        forall x ensures multiset(r)[x] == if keep(x) then multiset(items)[x] else 0 {
          FilterCount(items, keep, x);
        }
      }
      r
    else
      items
  }

  /** The search keeps the items it selects in their order. */
  lemma SearchKeepsOrder(items: seq<Item>, search: Option<string>, before: (Item, Item) -> bool)
    requires Pairwise(items, before)
    ensures Pairwise(GetSearchItems(items, search), before)
  {
    if search.Some? && search.value != [] {
      FilterKeepsOrder(items, TitleContains(search.value), before);
    }
  }

  /** On a queryset without an annotation, the category filter keeps the
      items it selects in their order. */
  lemma CategoryKeepsOrder(c: Catalog, items: seq<Item>, slug: string, before: (Item, Item) -> bool)
    requires Pairwise(items, before)
    requires forall x :: x in items ==> before(x, x)
    ensures Pairwise(GetItemsByCategory(c, items, slug, None), before)
  {
    RelatedFilterKeepsOrder(c, items, SlugMult(c, slug), before);
  }

  /** The price bounds are whole units: with the default bounds, an item
      priced 999999.50 is not listed. */
  lemma DefaultMaxExcludesCents(x: Item)
    requires x.price == DefaultMaxPrice * 100 + 50
    ensures !InPriceRange(GetItemFilter(Absent, Absent, None), x)
  {
  }

  /** The number of favourite rows `user` holds for an item. */
  function FavoriteMult(c: Catalog, user: int): Item -> nat {
    (x: Item) => c.favorites[Favorite(user, x.pk)]
  }

  /** `get_favorite_items`: the items of the queryset `items` that `user`
      holds a favourite row for; `annotation` is the aggregate the queryset
      is annotated with, if any. */
  function GetFavoriteItems(c: Catalog, items: seq<Item>, user: int, annotation: Option<SortKey>): (r: seq<Item>)
    ensures forall x :: x in r <==> x in items && Favorite(user, x.pk) in c.favorites
  {
    RelatedFilter(c, items, FavoriteMult(c, user), annotation)
  }

  /** Without an annotation the favourites listing holds an item as many
      times as it is in `items` times the user's favourite rows for it;
      with one, each favourite item comes as often as `items` holds it. */
  lemma FavoriteMultiplicity(c: Catalog, items: seq<Item>, user: int, annotation: Option<SortKey>, x: Item)
    ensures multiset(GetFavoriteItems(c, items, user, annotation))[x] ==
      if annotation.None? then multiset(items)[x] * c.favorites[Favorite(user, x.pk)]
      else if Favorite(user, x.pk) in c.favorites then multiset(items)[x] else 0
  {
    assert FavoriteMult(c, user)(x) == c.favorites[Favorite(user, x.pk)];
  }

  /** On a queryset without an annotation, the favourites filter keeps the
      items it selects in their order. */
  lemma FavoritesKeepOrder(c: Catalog, items: seq<Item>, user: int, before: (Item, Item) -> bool)
    requires Pairwise(items, before)
    requires forall x :: x in items ==> before(x, x)
    ensures Pairwise(GetFavoriteItems(c, items, user, None), before)
  {
    RelatedFilterKeepsOrder(c, items, FavoriteMult(c, user), before);
  }

  /** On an annotated queryset, the favourites listing is ordered by the
      counts multiplied by the user's favourite rows, so it stays ordered by
      its key when the user holds no favourite twice. */
  lemma FavoritesOrderedByKey(c: Catalog, items: seq<Item>, user: int, key: SortKey)
    requires forall x :: x in items ==> c.favorites[Favorite(user, x.pk)] <= 1
    ensures OrderedBy(c, key, GetFavoriteItems(c, items, user, Some(key)))
  {
    RelatedFilterOrderedByKey(c, items, FavoriteMult(c, user), key);
  }

  /** A duplicated favourite row reverses the purchase order: item `a` in 3
      purchases with one favourite row counts 3, item `b` in 2 purchases
      with two rows counts 4, so `a` never comes before `b`. */
  lemma DuplicateFavoriteReorders(c: Catalog, items: seq<Item>, user: int, a: Item, b: Item)
    requires c.favorites[Favorite(user, a.pk)] == 1 && c.favorites[Favorite(user, b.pk)] == 2
    requires PurchaseCount(c.purchases, a.pk) == 3 && PurchaseCount(c.purchases, b.pk) == 2
    ensures var r := GetFavoriteItems(c, items, user, Some(PurchasesDesc));
      forall i, j :: 0 <= i < j < |r| ==> !(r[i] == a && r[j] == b)
  {
    var mult := FavoriteMult(c, user);
    var r := GetFavoriteItems(c, items, user, Some(PurchasesDesc));
    forall i, j | 0 <= i < j < |r|
      ensures !(r[i] == a && r[j] == b)
    {
      assert JoinedPrecedes(c, PurchasesDesc, mult, r[i], r[j]);
      assert mult(a) == 1 && mult(b) == 2;
    }
  }

  /** Searching "red" in "Red Shirt", "Blue Jeans", "red hat"
      keeps the first and the last. */
  lemma SearchExample(a: Item, b: Item, d: Item)
    requires a.title == "Red Shirt" && b.title == "Blue Jeans" && d.title == "red hat"
    ensures GetSearchItems([a, b, d], Some("red")) == [a, d]
  {
    var keep := TitleContains("red");
    RedShirtMatches();
    BlueJeansDoesNotMatch();
    RedHatMatches();
    FilterKeepsFirstAndLast(a, b, d, keep);
  }

  lemma FilterKeepsFirstAndLast(a: Item, b: Item, d: Item, keep: Item -> bool)
    requires keep(a) && !keep(b) && keep(d)
    ensures Filter([a, b, d], keep) == [a, d]
  {
    assert [a, b, d][1..] == [b, d];
    assert [b, d][1..] == [d];
    assert [d][1..] == [];
  }

  lemma RedShirtMatches()
    ensures ContainsIgnoringCase("Red Shirt", "red")
  {
    var title, search := "Red Shirt", "red";
    assert Lower(title[0]) == Lower(search[0]) && Lower(title[1]) == Lower(search[1])
      && Lower(title[2]) == Lower(search[2]);
    PrefixMatches(title, search);
  }

  /** A title that starts with the search text, ignoring case, contains it. */
  lemma PrefixMatches(title: string, search: string)
    requires |search| <= |title|
    requires forall i :: 0 <= i < |search| ==> Lower(title[i]) == Lower(search[i])
    ensures ContainsIgnoringCase(title, search)
  {
    var t, p := LowerString(title), LowerString(search);
    assert t[..|p|] == p;
    assert IsPrefix(p, t);
  }

  lemma BlueJeansDoesNotMatch()
    ensures !ContainsIgnoringCase("Blue Jeans", "red")
  {
    var title := "Blue Jeans";
    assert forall i :: 0 <= i < |title| ==> title[i] != 'r' && title[i] != 'R';
    FirstCharAbsent(title, "red");
  }

  /** A title in which the first character of the search text occurs in
      neither case does not contain the search text. */
  lemma FirstCharAbsent(title: string, search: string)
    requires search != []
    requires forall i :: 0 <= i < |title| ==> Lower(title[i]) != Lower(search[0])
    ensures !ContainsIgnoringCase(title, search)
  {
    var t, p := LowerString(title), LowerString(search);
    assert p[0] !in t;
    NotSubstring(p, t);
  }

  lemma RedHatMatches()
    ensures ContainsIgnoringCase("red hat", "red")
  {
    var title, search := "red hat", "red";
    assert title[..3] == search;
    PrefixMatches(title, search);
  }

  /** A text in which the first character of `p` never occurs does not
      contain `p`. */
  lemma {:induction false} NotSubstring(p: string, s: string)
    requires p != [] && p[0] !in s
    ensures !IsSubstring(p, s)
  {
    if |s| > 0 {
      NotSubstring(p, s[1..]);
    }
  }
}
