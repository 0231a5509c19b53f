/** The views of shop/views.py: the listing views built on `BaseShop`
    (query parameters, the queryset, the query string kept across pages,
    pagination), the basket page and its checkout, the review form of an
    item, and the function views behind the basket and favourite buttons. */
module Views {
  import opened Wrappers
  import opened Ordering
  import opened Models
  import opened Filters
  import opened Services

  /** `paginate_by` of the listing views. */
  const PaginateBy: nat := 10

  /** `BaseShop.get_initial`: a second copy of the parameter parsing. */
  function GetInitial(minPrice: ParsedInt, maxPrice: ParsedInt, sort: Option<string>): (f: ItemFilter)
    ensures f == GetItemFilter(minPrice, maxPrice, sort)
  {
    var lo := match minPrice
      case Parsed(n) => if n != 0 then n else 0
      case _ => 0;
    var hi := match maxPrice
      case Parsed(n) => if n != 0 then n else 999999
      case _ => 999999;
    ItemFilter(lo, hi, sort)
  }

  /** The sort key is one of '1'..'5'. */
  predicate KnownSort(sort: Option<string>) {
    sort.Some? && sort.value in SortOrder
  }

  /** The order a `BaseShop` listing comes in: the requested one for a
      known sort key, the default `created_at` order otherwise. */
  function ListingOrder(c: Catalog, sort: Option<string>): (Item, Item) -> bool {
    if KnownSort(sort) then Before(c, SortOrder[sort.value]) else CreatedBefore()
  }

  /** Both orders relate each item to itself. */
  lemma ListingOrderReflexive(c: Catalog, sort: Option<string>, x: Item)
    ensures ListingOrder(c, sort)(x, x)
  {
    if KnownSort(sort) {
      assert Precedes(c, SortOrder[sort.value], x, x);
    }
  }

  /** The items in range, in the default order. */
  lemma PriceFilteredCreatedAscending(c: Catalog, f: ItemFilter)
    ensures Pairwise(PriceFiltered(c, f), CreatedBefore())
  {
    var objects := Objects(c);
    assert Pairwise(objects, CreatedBefore()) by {
      forall i, j | 0 <= i < j < |objects|
        ensures CreatedBefore()(objects[i], objects[j])
      {
        assert objects[i].createdAt <= objects[j].createdAt;
      }
    }
    FilterKeepsOrder(objects, (x: Item) => InPriceRange(f, x), CreatedBefore());
  }

  /** The sort the if-chain of `get_queryset` applies: the same keys and
      orderings as SORT_ORDER, and none for any other key. */
  function ViewOrder(sort: Option<string>): (k: Option<SortKey>)
    ensures k.Some? <==> KnownSort(sort)
    ensures k.Some? ==> k.value == SortOrder[sort.value]
  {
    if sort == Some("1") then Some(PriceAsc)
    else if sort == Some("2") then Some(PriceDesc)
    else if sort == Some("3") then Some(PurchasesDesc)
    else if sort == Some("4") then Some(ReviewsDesc)
    else if sort == Some("5") then Some(RateDesc)
    else None
  }

  /** `BaseShop.get_queryset`: the items priced within the bounds, ordered
      for sort keys '1'..'5'; any other key, or none, applies no
      `order_by`, so the items keep the default `created_at` order. */
  function GetQueryset(c: Catalog, f: ItemFilter): (r: seq<Item>)
    ensures forall x :: multiset(r)[x] == if InPriceRange(f, x) then multiset(c.items)[x] else 0
    ensures forall x :: x in r <==> x in c.items && InPriceRange(f, x)
    ensures KnownSort(f.sort) ==> OrderedBy(c, SortOrder[f.sort.value], r)
    ensures !KnownSort(f.sort) ==> forall i, j :: 0 <= i < j < |r| ==> r[i].createdAt <= r[j].createdAt
  {
    var items := PriceFiltered(c, f);
    var r := match ViewOrder(f.sort)
      case Some(key) => OrderBy(c, key, items)
      case None => items;
    PriceFilteredCreatedAscending(c, f);
    assert forall x :: x in r <==> x in c.items && InPriceRange(f, x) by {
      forall x ensures x in r <==> x in c.items && InPriceRange(f, x) {
        assert x in r <==> multiset(r)[x] > 0;
        assert x in c.items <==> multiset(c.items)[x] > 0;
      }
    }
    r
  }

  /** The queryset comes in the listing order. */
  lemma QuerysetInListingOrder(c: Catalog, f: ItemFilter)
    ensures Pairwise(GetQueryset(c, f), ListingOrder(c, f.sort))
  {
    var r := GetQueryset(c, f);
    if KnownSort(f.sort) {
      OrderedByIsPairwise(c, SortOrder[f.sort.value], r);
    } else {
      forall i, j | 0 <= i < j < |r|
        ensures CreatedBefore()(r[i], r[j])
      {
        assert r[i].createdAt <= r[j].createdAt;
      }
    }
  }

  /** For the keys '1'..'5' the view and `get_items_by_filter` list the same
      items in the same order. */
  lemma QuerysetAgreesOnKnownSort(c: Catalog, f: ItemFilter)
    requires KnownSort(f.sort)
    ensures GetQueryset(c, f) == GetItemsByFilter(c, f)
  {
  }

  /** Without a sort key the two copies disagree: `get_items_by_filter`
      orders by price, the view keeps the `created_at` order, so on a
      catalog of two items whose older one is the dearer, both priced
      within the default bounds, they list different sequences. */
  lemma DefaultSortDiverges(c: Catalog, x: Item, y: Item)
    requires multiset(c.items) == multiset{x, y}
    requires x.createdAt < y.createdAt && y.price < x.price
    requires 0 <= y.price && x.price <= DefaultMaxPrice * 100
    ensures var f := GetItemFilter(Absent, Absent, None);
      GetQueryset(c, f) != GetItemsByFilter(c, f)
  {
    var f := GetItemFilter(Absent, Absent, None);
    assert f == ItemFilter(DefaultMinPrice, DefaultMaxPrice, None);
    assert InPriceRange(f, x) && InPriceRange(f, y);
    UnsortedDiverges(c, x, y, f);
  }

  /** The same for any bounds that admit both items. */
  lemma UnsortedDiverges(c: Catalog, x: Item, y: Item, f: ItemFilter)
    requires multiset(c.items) == multiset{x, y}
    requires x.createdAt < y.createdAt && y.price < x.price
    requires f.sort.None? && InPriceRange(f, x) && InPriceRange(f, y)
    ensures GetQueryset(c, f) != GetItemsByFilter(c, f)
  {
    var v, g := GetQueryset(c, f), GetItemsByFilter(c, f);
    BothListTwo(c, x, y, f);
    DefaultOrders(c, f);
    TwoOrdersDiffer(c, v, g, x, y);
  }

  /** Without a sort key, `get_items_by_filter` lists by price and the view
      by `created_at`. */
  lemma DefaultOrders(c: Catalog, f: ItemFilter)
    requires f.sort.None?
    ensures OrderedBy(c, PriceAsc, GetItemsByFilter(c, f))
    ensures Pairwise(GetQueryset(c, f), CreatedBefore())
  {
    assert OrderFor(f.sort) == PriceAsc;
    assert !KnownSort(f.sort);
    QuerysetInListingOrder(c, f);
  }

  /** Both copies list the two items of a two-item catalog when both are
      priced within the bounds. */
  lemma BothListTwo(c: Catalog, x: Item, y: Item, f: ItemFilter)
    requires multiset(c.items) == multiset{x, y} && x != y
    requires InPriceRange(f, x) && InPriceRange(f, y)
    ensures multiset(GetQueryset(c, f)) == multiset{x, y}
    ensures multiset(GetItemsByFilter(c, f)) == multiset{x, y}
  {
    CountTwo(GetQueryset(c, f), x, y);
    CountTwo(GetItemsByFilter(c, f), x, y);
  }

  lemma CountTwo(s: seq<Item>, x: Item, y: Item)
    requires x != y
    requires forall z :: multiset(s)[z] == if z == x || z == y then 1 else 0
    ensures multiset(s) == multiset{x, y}
  {
  }

  /** A listing of two items in `created_at` order differs from one in
      price order when the older item is the dearer. */
  lemma TwoOrdersDiffer(c: Catalog, v: seq<Item>, g: seq<Item>, x: Item, y: Item)
    requires multiset(v) == multiset{x, y} && multiset(g) == multiset{x, y}
    requires x.createdAt < y.createdAt && x.price > y.price
    requires Pairwise(v, CreatedBefore()) && OrderedBy(c, PriceAsc, g)
    ensures v != g
  {
    assert |v| == 2 && |g| == 2 by {
      assert |multiset(v)| == 2 && |multiset(g)| == 2;
    }
    assert v == [v[0], v[1]] && g == [g[0], g[1]];
    assert multiset{v[0], v[1]} == multiset{x, y};
    assert multiset{g[0], g[1]} == multiset{x, y};
    assert CreatedBefore()(v[0], v[1]);
    assert Precedes(c, PriceAsc, g[0], g[1]);
    assert v[0] == x;
    assert g[0] == y;
  }

  /** `ShopCategory.get_queryset`: the listing narrowed to category `slug`.
      Without an aggregate annotation it stays in the listing order; under
      '3', '4' or '5' it is ordered by the aggregate as the category join
      inflates it. */
  function ShopCategory(c: Catalog, f: ItemFilter, slug: string): (r: seq<Item>)
    ensures forall x :: x in r <==>
      x in c.items && InPriceRange(f, x) && HasCategory(c.categories, x, slug)
    ensures Annotation(f.sort).None? ==> Pairwise(r, ListingOrder(c, f.sort))
    ensures Annotation(f.sort).Some? ==>
      JoinedOrderedBy(c, Annotation(f.sort).value, SlugMult(c, slug), r)
  {
    var items := GetQueryset(c, f);
    QuerysetInListingOrder(c, f);
    forall x | x in items
      ensures ListingOrder(c, f.sort)(x, x)
    {
      ListingOrderReflexive(c, f.sort, x);
    }
    CategoryKeepsOrder(c, items, slug, ListingOrder(c, f.sort));
    GetItemsByCategory(c, items, slug, Annotation(f.sort))
  }

  /** Because slugs are unique, the category listing is in the listing
      order under every sort key. */
  lemma CategoryListingOrder(c: Catalog, f: ItemFilter, slug: string)
    requires SlugsUnique(c.categories)
    requires forall y :: y in c.items ==> Distinct(y.categories)
    ensures Pairwise(ShopCategory(c, f, slug), ListingOrder(c, f.sort))
  {
    var annotation := Annotation(f.sort);
    if annotation.Some? {
      var key := annotation.value;
      var items := GetQueryset(c, f);
      CategoryOrderedByKey(c, items, slug, key);
      OrderedByIsPairwise(c, key, ShopCategory(c, f, slug));
    }
  }

  /** `ShopSearch.get_queryset`: the listing narrowed to titles containing
      the search text, or left as it is when there is none. */
  function ShopSearch(c: Catalog, f: ItemFilter, search: Option<string>): (r: seq<Item>)
    ensures search.None? || search.value == [] ==> r == GetQueryset(c, f)
    ensures search.Some? && search.value != [] ==> forall x :: x in r <==>
      x in c.items && InPriceRange(f, x) && ContainsIgnoringCase(x.title, search.value)
    ensures search.Some? && search.value != [] ==>
      forall x :: multiset(r)[x] == (if InPriceRange(f, x) && ContainsIgnoringCase(x.title, search.value)
                                     then multiset(c.items)[x] else 0)
    ensures Pairwise(r, ListingOrder(c, f.sort))
  {
    var items := GetQueryset(c, f);
    QuerysetInListingOrder(c, f);
    SearchKeepsOrder(items, search, ListingOrder(c, f.sort));
    GetSearchItems(items, search)
  }

  /** `ShopFavorite.get_queryset`: the listing narrowed to the user's
      favourites. Without an aggregate annotation it stays in the listing
      order, each item once per favourite row; under '3', '4' or '5' each
      item comes once, ordered by the aggregate multiplied by the user's
      favourite rows for it. */
  function ShopFavorite(c: Catalog, f: ItemFilter, user: int): (r: seq<Item>)
    ensures forall x :: x in r <==>
      x in c.items && InPriceRange(f, x) && Favorite(user, x.pk) in c.favorites
    ensures Annotation(f.sort).None? ==> Pairwise(r, ListingOrder(c, f.sort))
    ensures Annotation(f.sort).Some? ==>
      JoinedOrderedBy(c, Annotation(f.sort).value, FavoriteMult(c, user), r)
  {
    var items := GetQueryset(c, f);
    QuerysetInListingOrder(c, f);
    forall x | x in items
      ensures ListingOrder(c, f.sort)(x, x)
    {
      ListingOrderReflexive(c, f.sort, x);
    }
    FavoritesKeepOrder(c, items, user, ListingOrder(c, f.sort));
    GetFavoriteItems(c, items, user, Annotation(f.sort))
  }

  /** A user who holds no favourite twice sees the favourites in the listing
      order under every sort key. */
  lemma FavoriteListingOrder(c: Catalog, f: ItemFilter, user: int)
    requires forall x :: x in c.items ==> c.favorites[Favorite(user, x.pk)] <= 1
    ensures Pairwise(ShopFavorite(c, f, user), ListingOrder(c, f.sort))
  {
    var annotation := Annotation(f.sort);
    if annotation.Some? {
      var key := annotation.value;
      var items := GetQueryset(c, f);
      FavoritesOrderedByKey(c, items, user, key);
      OrderedByIsPairwise(c, key, ShopFavorite(c, f, user));
    }
  }

  // ---------------------------------------------------------------------
  // The query string kept across pages

  /** `&key=value` for one GET parameter. */
  function Pair(key: string, value: string): string {
    "&" + key + "=" + value
  }

  /** `get_context_data`'s `params`: `&key=value` for every GET parameter
      in order, except `page`. */
  function Params(ps: seq<(string, string)>): string {
    if ps == [] then ""
    else (if ps[0].0 != "page" then Pair(ps[0].0, ps[0].1) else "") + Params(ps[1..])
  }

  /** `&key=value` for every parameter in order. */
  function Render(ps: seq<(string, string)>): string {
    if ps == [] then "" else Pair(ps[0].0, ps[0].1) + Render(ps[1..])
  }

  function NotPage(): ((string, string)) -> bool {
    (p: (string, string)) => p.0 != "page"
  }

  /** `params` renders exactly the parameters other than `page`, in their
      order. */
  lemma {:induction false} ParamsSkipsPage(ps: seq<(string, string)>)
    ensures Params(ps) == Render(Filter(ps, NotPage()))
  {
    if ps != [] {
      ParamsSkipsPage(ps[1..]);
      var rest := Filter(ps[1..], NotPage());
      if NotPage()(ps[0]) {
        var t := Filter(ps, NotPage());
        assert t == [ps[0]] + rest;
        assert t[0] == ps[0] && t[1..] == rest;
        assert Render(t) == Pair(ps[0].0, ps[0].1) + Render(rest);
      } else {
        assert Filter(ps, NotPage()) == rest;
      }
    }
  }

  /** The parameters render one after the other. */
  lemma {:induction false} ParamsAppend(a: seq<(string, string)>, b: seq<(string, string)>)
    ensures Params(a + b) == Params(a) + Params(b)
  {
    if a == [] {
      assert a + b == b;
    } else {
      assert (a + b)[0] == a[0];
      assert (a + b)[1..] == a[1..] + b;
      ParamsAppend(a[1..], b);
    }
  }

  /** `params` is empty exactly when every GET parameter is `page`. */
  lemma {:induction false} ParamsEmptyIff(ps: seq<(string, string)>)
    ensures Params(ps) == "" <==> forall p :: p in ps ==> p.0 == "page"
  {
    if ps != [] {
      ParamsEmptyIff(ps[1..]);
      assert ps[0] in ps;
      assert forall p :: p in ps <==> p == ps[0] || p in ps[1..];
    }
  }

  // ---------------------------------------------------------------------
  // Pagination

  /** The number of pages of a listing of `count` items; an empty listing
      still has its first, empty page (`allow_empty = True`). */
  function NumPages(count: nat): (n: nat)
    ensures n >= 1
    ensures count == 0 ==> n == 1
    ensures count <= n * PaginateBy
    ensures count > 0 ==> (n - 1) * PaginateBy < count
  {
    if count == 0 then 1 else (count + PaginateBy - 1) / PaginateBy
  }

  /** The page the `page` GET parameter asks for, or None for a 404: a
      missing parameter means page 1, a malformed one or one outside
      1..NumPages has no page. */
  function Paginate(listing: seq<Item>, page: ParsedInt): (r: Option<seq<Item>>)
    ensures page.Absent? ==> r.Some?
    ensures page.Malformed? ==> r.None?
    ensures page.Parsed? ==> (r.Some? <==> 1 <= page.value <= NumPages(|listing|))
    ensures r.Some? ==> |r.value| <= PaginateBy
    ensures r.Some? ==> var first := (PageNumber(page) - 1) * PaginateBy;
      first + |r.value| <= |listing| &&
      forall k :: 0 <= k < |r.value| ==> r.value[k] == listing[first + k]
  {
    if page.Malformed? then None
    else
      var n := PageNumber(page);
      if 1 <= n <= NumPages(|listing|) then
        var lo := (n - 1) * PaginateBy;
        var hi := if n * PaginateBy < |listing| then n * PaginateBy else |listing|;
        assert lo <= |listing| by {
          if |listing| > 0 {
            assert (n - 1) * PaginateBy <= (NumPages(|listing|) - 1) * PaginateBy;
          }
        }
        Some(listing[lo..hi])
      else None
  }

  /** `page` or its default 1. */
  function PageNumber(page: ParsedInt): int {
    if page.Parsed? then page.value else 1
  }

  /** Every item of the listing is on one page: item `i` is item `i % 10`
      of page `i / 10 + 1`. */
  lemma EveryItemOnAPage(listing: seq<Item>, i: int)
    requires 0 <= i < |listing|
    ensures var p := Paginate(listing, Parsed(i / PaginateBy + 1));
      p.Some? && i % PaginateBy < |p.value| && p.value[i % PaginateBy] == listing[i]
  {
    var n := i / PaginateBy + 1;
    assert (n - 1) * PaginateBy + i % PaginateBy == i;
    assert n <= NumPages(|listing|) by {
      var m := NumPages(|listing|);
      assert i < m * PaginateBy;
      assert i / PaginateBy < m;
    }
  }

  /** An empty listing still has its first page, empty
      (`allow_empty = True`). */
  lemma EmptyListingHasFirstPage(page: ParsedInt)
    requires page.Absent? || page == Parsed(1)
    ensures Paginate([], page) == Some([])
  {
  }

  /** Every page but the last is full. */
  lemma PagesBeforeLastAreFull(listing: seq<Item>, n: int)
    requires 1 <= n < NumPages(|listing|)
    ensures var p := Paginate(listing, Parsed(n)); p.Some? && |p.value| == PaginateBy
  {
    assert n * PaginateBy <= (NumPages(|listing|) - 1) * PaginateBy;
  }

  // ---------------------------------------------------------------------
  // Responses of the function views and the forms

  datatype Response =
    | JsonSuccess                   // {'success': True}
    | JsonIsFavorite(isFavorite: bool)
    | JsonInBasket(inBasket: bool)
    | NoResponse                    // the view returned None
    | LoginRedirect                 // login_required sent an anonymous user to log in
    | ServerError                   // an exception escaped the view
    | NotFound                      // Http404
    | RedirectBack                  // HttpResponseRedirect to the referring page
    | RedirectToBasket              // the checkout form's success_url
    | BasketUrl                     // the URL of the basket page, returned as it is

  /** `add_to_basket` view: success unless int() of the POSTed item raises. */
  method AddToBasketView(basket: Basket, req: Request, itemId: int) returns (resp: Response)
    modifies basket
    ensures TargetItem(req, itemId).Some? ==>
      resp == JsonSuccess && basket.ids == Added(old(basket.ids), TargetItem(req, itemId).value)
    ensures TargetItem(req, itemId).None? ==> resp == ServerError && basket.ids == old(basket.ids)
    ensures old(basket.Valid()) ==> basket.Valid()
  {
    var out := AddToBasket(basket, req, itemId);
    resp := if out.Pass? then JsonSuccess else ServerError;
  }

  /** `delete_from_basket` view: only a POST answers; it removes the POSTed
      item if present. */
  method DeleteFromBasketView(basket: Basket, req: Request) returns (resp: Response)
    modifies basket
    ensures req.verb != POST ==> resp == NoResponse && basket.ids == old(basket.ids)
    ensures req.verb == POST && req.postItem.Parsed? ==>
      resp == JsonSuccess && basket.ids == RemoveFirst(old(basket.ids), req.postItem.value)
    ensures req.verb == POST && !req.postItem.Parsed? ==>
      resp == ServerError && basket.ids == old(basket.ids)
    ensures old(basket.Valid()) ==> basket.Valid()
  {
    var out := DeleteFromBasket(basket, req);
    resp := if req.verb != POST then NoResponse else if out.Pass? then JsonSuccess else ServerError;
  }

  /** `check_basket`: on a GET, whether the item is in the basket. */
  function CheckBasketView(basket: Basket, req: Request, itemPk: int): (resp: Response)
    reads basket
    ensures req.verb == GET ==> resp == JsonInBasket(itemPk in basket.ids)
    ensures req.verb != GET ==> resp == NoResponse
  {
    if req.verb == GET then JsonInBasket(basket.Contains(itemPk)) else NoResponse
  }

  /** After adding an item the basket button reports it, and after removing
      it from a basket without duplicates it no longer does. */
  lemma BasketButtonsAgree(ids: seq<int>, id: int)
    requires Distinct(ids)
    ensures id in Added(ids, id)
    ensures id !in RemoveFirst(Added(ids, id), id)
  {
    RemoveFirstDistinct(Added(ids, id), id);
  }

  /** `to_basket`: a POST adds the POSTed item; either way the view hands
      back the basket page's URL rather than a response. */
  method ToBasket(basket: Basket, req: Request) returns (resp: Response)
    modifies basket
    ensures req.verb != POST ==> resp == BasketUrl && basket.ids == old(basket.ids)
    ensures req.verb == POST && req.postItem.Parsed? ==>
      resp == BasketUrl && basket.ids == Added(old(basket.ids), req.postItem.value)
    ensures req.verb == POST && !req.postItem.Parsed? ==>
      resp == ServerError && basket.ids == old(basket.ids)
    ensures old(basket.Valid()) ==> basket.Valid()
  {
    if req.verb == POST {
      if !req.postItem.Parsed? {
        return ServerError;
      }
      var _ := AddToBasket(basket, req, req.postItem.value);
    }
    return BasketUrl;
  }

  /** `add_favorite` view: for a logged-in user's POST, the service
      `add_favorite` on the POSTed item. */
  method AddFavoriteView(db: Database, req: Request) returns (resp: Response)
    modifies db
    ensures req.user.None? ==> resp == LoginRedirect && db.Tables() == old(db.Tables())
    ensures req.user.Some? && req.verb != POST ==> resp == NoResponse && db.Tables() == old(db.Tables())
    ensures req.user.Some? && req.verb == POST && !req.postItem.Parsed? ==>
      resp == ServerError && db.Tables() == old(db.Tables())
    ensures req.user.Some? && req.verb == POST && req.postItem.Parsed? ==>
      var s := AddFavoriteStep(old(db.Tables()), req.postItem.value, req.user.value);
      db.Tables() == s.tables && (resp == JsonSuccess <==> s.outcome.Pass?)
      && (resp == JsonSuccess || resp == ServerError)
  {
    if req.user.None? {
      return LoginRedirect;
    }
    if req.verb != POST {
      return NoResponse;
    }
    if !req.postItem.Parsed? {
      return ServerError;
    }
    var out := AddFavorite(db, req.postItem.value, req.user.value);
    resp := if out.Pass? then JsonSuccess else ServerError;
  }

  /** `delete_favorite` view: for a logged-in user's POST, the service
      `delete_favorite` on the POSTed item. */
  method DeleteFavoriteView(db: Database, req: Request) returns (resp: Response)
    modifies db
    ensures req.user.None? ==> resp == LoginRedirect && db.Tables() == old(db.Tables())
    ensures req.user.Some? && req.verb != POST ==> resp == NoResponse && db.Tables() == old(db.Tables())
    ensures req.user.Some? && req.verb == POST && !req.postItem.Parsed? ==>
      resp == ServerError && db.Tables() == old(db.Tables())
    ensures req.user.Some? && req.verb == POST && req.postItem.Parsed? ==>
      var s := DeleteFavoriteStep(old(db.Tables()), req.postItem.value, req.user.value);
      db.Tables() == s.tables && (resp == JsonSuccess <==> s.outcome.Pass?)
      && (resp == JsonSuccess || resp == ServerError)
  {
    if req.user.None? {
      return LoginRedirect;
    }
    if req.verb != POST {
      return NoResponse;
    }
    if !req.postItem.Parsed? {
      return ServerError;
    }
    var out := DeleteFavorite(db, req.postItem.value, req.user.value);
    resp := if out.Pass? then JsonSuccess else ServerError;
  }

  /** `check_favorite` view: on a GET, whether the user has a favourite row
      for the item; an anonymous user has none. */
  function CheckFavoriteView(c: Catalog, req: Request, itemPk: int): (resp: Response)
    ensures req.verb != GET ==> resp == NoResponse
    ensures req.verb == GET ==>
      resp == JsonIsFavorite(req.user.Some? && Favorite(req.user.value, itemPk) in c.favorites)
  {
    if req.verb != GET then NoResponse
    else if req.user.None? then JsonIsFavorite(false)
    else JsonIsFavorite(CheckFavorite(c, itemPk, req.user.value))
  }

  /** `UserBasket.form_valid`: saves the purchase for the basket's items and
      the buyer, then empties the basket. */
  method BasketFormValid(db: Database, basket: Basket, form: PurchaseForm, user: Option<int>)
    returns (resp: Response)
    modifies db, basket
    ensures db.Tables() == CreatePurchaseStep(old(db.Tables()), old(basket.ids), form, user)
    ensures basket.ids == [] && basket.Valid()
    ensures resp == RedirectToBasket
    ensures old(db.Valid()) ==> db.Valid()
  {
    CreatePurchase(db, basket, form, user);
    basket.Clear();
    return RedirectToBasket;
  }

  /** `ItemDetail` posting a review: an invalid form changes nothing; a
      missing item is a 404; an anonymous author has no id and the save
      fails; otherwise the review is saved for the item and the user. */
  method ReviewView(db: Database, req: Request, itemPk: int, text: string, rate: int, now: int)
    returns (resp: Response)
    modifies db
    ensures !RateInRange(rate) ==> resp == RedirectBack && db.Tables() == old(db.Tables())
    ensures RateInRange(rate) && !ItemExists(old(db.Tables()), itemPk) ==>
      resp == NotFound && db.Tables() == old(db.Tables())
    ensures RateInRange(rate) && ItemExists(old(db.Tables()), itemPk) && req.user.None? ==>
      resp == ServerError && db.Tables() == old(db.Tables())
    ensures RateInRange(rate) && ItemExists(old(db.Tables()), itemPk) && req.user.Some? ==>
      var s := AddReviewStep(old(db.Tables()), text, rate, req.user.value, itemPk, now);
      db.Tables() == s.tables && (resp == RedirectBack <==> s.outcome.Pass?)
      && (resp == RedirectBack || resp == ServerError)
    ensures old(db.Valid()) ==> db.Valid()
  {
    if !RateInRange(rate) {
      return RedirectBack;
    }
    if !ItemExists(db.Tables(), itemPk) {
      return NotFound;
    }
    if req.user.None? {
      return ServerError;
    }
    var out := AddReview(db, text, rate, req.user.value, itemPk, now);
    resp := if out.Pass? then RedirectBack else ServerError;
  }
}
