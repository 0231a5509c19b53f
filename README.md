# django_shop storefront core, in Dafny

This project models the core of a small Django storefront: the catalog
listing pipeline, the session basket, checkout, reviews and favourites.

- The listing pipeline parses query parameters into a price filter and a sort
  key. It filters and orders the items, then narrows the listing to a
  category, a title search or a user's favourites.
- The session basket is a list of item ids.
- Checkout resolves the basket against the catalog, totals it and records a
  purchase.
- Reviews and favourites are rows added to or removed from the tables.

The model is in six modules:

- `Wrappers`: `Option`, a pass/fail `Outcome`, and `ParsedInt`. `ParsedInt` is
  what `int()` makes of a request parameter: absent, malformed, or an integer.
- `Ordering`: the query operations over plain sequences of rows.
  - `Sort` is a stable ORDER BY … DESC on a score, where NULL is a score.
  - `Filter` is an order-keeping WHERE.
  - `Join` is a join across a multi-valued relation. It yields one row per
    matching related row, as Django does on a queryset that carries no
    aggregate annotation.
- `Models` (shop/models.py): field domains, the unique category slug, the
  default `created_at` orderings, the average rate and the category cascade.
  - A `Catalog` value is a snapshot of all tables.
  - The `Database` class holds the same tables as fields that services update
    in place.
- `Filters` (shop/filters.py): `get_item_filter`, `SORT_ORDER`,
  `get_items_by_filter` and the category, search and favourite filters.
  - The category and favourite filters join a multi-valued relation
    (`RelatedFilter`). Sorts '3', '4' and '5' annotate the queryset with an
    aggregate. After such an annotation Django groups the joined rows by
    item: each matching item comes once. The counts the listing is ordered by
    are then multiplied by the item's number of matching related rows; the
    average rate is not changed. Without an annotation, the join yields one
    row per matching related row, in the queryset's order.
  - Unique slugs mean an item matches at most one category of a slug, so
    the category listing is always in the listing order. A user with a
    duplicated favourite row can see the favourites out of the purchase or
    review order (`DuplicateFavoriteReorders`).
- `Services` (shop/sevices.py):
  - The session basket is the `Basket` class. Its `ids` field is the list that
    `append` and `remove` change in place, and its invariant is "no id twice".
  - Checkout and the review and favourite services are pure step functions,
    from the old tables to an outcome and the new tables. Each method that
    changes a `Database` is proved to perform exactly its step.
- `Views` (shop/views.py): `BaseShop` and its listing views, pagination, the
  `params` query string, checkout in `UserBasket.form_valid`, the review form
  of `ItemDetail`, and the basket and favourite function views with their
  responses.

Representation choices:

- **Prices** are integer cents. The filter bounds are whole currency units,
  so they are compared at ×100.
- **The average rate** is the exact mean, a real number.
- **`request.user`** is `Option<int>`, its primary key or None when anonymous.
  Python truthiness in `user if user.pk else None` therefore makes both an
  anonymous user and a user whose pk is 0 a guest buyer.
- **Integers** are unbounded.
- **The clock** (`auto_now_add`) is a `now` parameter.

Where the documented behaviour and the code differ, the model follows the code:

- **Negative price bounds:** `get_item_filter` keeps a negative `min_price`,
  and `Item.price` declares no lower bound. So negative bounds and prices are
  in the model's domain.
- **Default order:** without a known sort key, `BaseShop.get_queryset` applies
  no `order_by`, so the listing stays in the default `created_at` order.
  `get_items_by_filter` orders it by price instead. `DefaultSortDiverges`
  proves that the two listings differ on a two-item catalog.
- **Page out of range:** a page number outside the listing is a 404 (Django's
  paginator with `allow_empty = True`), not an empty page. Only an empty
  listing has an empty first page.
- **Missing item or user:** in the favourite views this is an unhandled
  exception (a server error), not a not-found answer.

## Model

| member | source | states |
|---|---|---|
| Ordering.Sort | shop/filters.py:43 | `order_by` returns a permutation of its rows in which every row scores at least as high as every later one |
| Ordering.Filter | shop/filters.py:33 | a queryset `filter` is never longer than its input and holds exactly the input rows that satisfy the condition |
| Ordering.FilterCount | shop/filters.py:33 | a filter keeps each selected row as many times as the input holds it and drops every other row |
| Ordering.FilterAppend | shop/filters.py:52 | filtering a concatenation is the concatenation of the filtered parts, so the relative order of kept rows is unchanged |
| Ordering.FilterKeepsOrder | shop/filters.py:52 | any pairwise order that holds of a listing still holds after filtering it |
| Ordering.FilterSameOn | shop/sevices.py:9 | two conditions that agree on every row select the same rows |
| Ordering.Join | shop/filters.py:47 | a join across a multi-valued relation holds exactly the input rows that have at least one matching related row |
| Ordering.JoinCount | shop/filters.py:47 | a joined row appears (copies in input) × (matching related rows) times |
| Ordering.JoinAtMostOnce | shop/filters.py:47 | a join in which every row matches at most once equals the plain filter "has a match", so nothing is duplicated |
| Ordering.JoinKeepsOrder | shop/filters.py:57 | a join keeps any reflexive pairwise order of the listing |
| Ordering.DistinctCounts | shop/sevices.py:63-64 | a list holds no element twice exactly when every element occurs at most once in its multiset |
| Models.Objects | shop/models.py:70-71 | `Item.objects` is a permutation of the items table in non-decreasing `created_at` order |
| Models.ReviewObjects | shop/models.py:128-129 | `Review.objects` is a permutation of the reviews table in non-decreasing `created_at` order |
| Models.AvgRate | shop/models.py:79-80 | the average rate is None exactly when the item has no review |
| Models.SumRatesBounds | shop/models.py:115-122 | the rates of n reviews, each in [0, 100], sum to a value in [0, 100·n] |
| Models.AvgRateInRange | shop/models.py:79-80 | when every stored rate is in [0, 100], an item's average rate is in [0, 100] |
| Models.CascadeDelete | shop/models.py:17-23 | deleting a category removes it and its descendants and keeps other rows unchanged. No category left names a removed parent. Every surviving parent exists. Each removed row is the target or lost its parent |
| Models.Sweep | shop/models.py:17-23 | repeatedly removing the children of removed categories leaves only rows whose parent was not removed, and keeps parents existing |
| Filters.GetItemFilter | shop/filters.py:15-29 | a missing, malformed or zero bound becomes 0 (min) or 999999 (max). Any other integer, negative included, is kept. `sort` is passed through unchanged |
| Filters.GetItemFilterIdempotent | shop/filters.py:15-29 | parsing the bounds of a parsed filter again gives the same filter |
| Filters.OrderFor | shop/filters.py:43 | `SORT_ORDER.get(sort, 'price')`: a key in `SORT_ORDER` selects its ordering; an absent or unknown key selects price ascending |
| Filters.OrderBy | shop/filters.py:36-43 | ordering by a sort key is a permutation in which every item stands before every later one as that key asks: price up or down, purchase count down, review count down, or average rate down among rated items |
| Filters.PriceFiltered | shop/filters.py:33 | the price filter keeps each item in [min·100, max·100] (both ends inclusive) with its multiplicity, and no other item |
| Filters.GetItemsByFilter | shop/filters.py:32-43 | exactly the items of the table priced within the bounds, each as often as in the table, ordered by `SORT_ORDER.get(sort, 'price')` |
| Filters.HasCategoryIff | shop/filters.py:47 | an item matches `category__slug` exactly when the category join yields at least one row for it |
| Filters.SlugMatchesAtMostOne | shop/models.py:24-28 | with unique slugs, an item's distinct categories contain at most one category with a given slug |
| Filters.Annotation | shop/filters.py:36-41 | only the keys '3', '4' and '5' annotate the queryset, each with the aggregate `SORT_ORDER` orders it by |
| Filters.RelatedFilter | shop/filters.py:46-57 | a filter across a multi-valued relation holds exactly the input items with a matching related row. Without an annotation each comes (copies in input) × (matching rows) times. With one, each comes as often as the input holds it, ordered by the counts multiplied by the matching rows (the average unchanged) |
| Filters.JoinedPrecedesOnce | shop/filters.py:36-41 | for items that match exactly one related row, the inflated order is the order of the key itself |
| Filters.RelatedFilterKeepsOrder | shop/filters.py:46-57 | on a queryset without an annotation, the filter keeps any reflexive pairwise order of the listing |
| Filters.RelatedFilterOrderedByKey | shop/filters.py:36-57 | on an annotated queryset in which no item matches two related rows, the result is ordered by the key |
| Filters.GetItemsByCategory | shop/filters.py:46-47 | exactly the input items having a category with the given slug |
| Filters.CategoryKeepsMultiplicity | shop/filters.py:46-47 | because slugs are unique, the category filter keeps each matching item exactly as often as its input holds it, with or without an annotation |
| Filters.CategoryOrderedByKey | shop/filters.py:46-47 | because slugs are unique, the category filter on an annotated listing keeps it ordered by its key |
| Filters.CategoryKeepsOrder | shop/filters.py:46-47 | on a queryset without an annotation, the category filter keeps the listing's order |
| Filters.GetSearchItems | shop/filters.py:50-53 | an absent or empty search returns the input unchanged. Otherwise the result holds exactly the items whose title contains the search text, ignoring ASCII case, each as often as the input holds it |
| Filters.SearchKeepsOrder | shop/filters.py:50-53 | the search keeps the listing's order |
| Filters.SearchExample | shop/filters.py:50-53 | searching "red" over "Red Shirt", "Blue Jeans", "red hat" yields the first and the last, in that order |
| Filters.DefaultMaxExcludesCents | shop/filters.py:21-25 | with the default bounds, an item priced 999999.50 is not listed, because the bounds are whole units |
| Filters.GetFavoriteItems | shop/filters.py:56-57 | exactly the input items for which the user has a favourite row |
| Filters.FavoriteMultiplicity | shop/filters.py:56-57 | without an annotation an item appears (copies in input) × (the user's favourite rows for it) times; with one, a favourite item appears as often as the input holds it |
| Filters.FavoritesKeepOrder | shop/filters.py:56-57 | on a queryset without an annotation, the favourites filter keeps the listing's order |
| Filters.FavoritesOrderedByKey | shop/filters.py:56-57 | on an annotated queryset, a user who holds no favourite twice sees the favourites ordered by the key |
| Filters.DuplicateFavoriteReorders | shop/filters.py:36-57 | under sort '3', an item in 3 purchases with one favourite row never comes before an item in 2 purchases with two rows |
| Services.Added | shop/sevices.py:63-64 | appending an absent id keeps the old entries as a prefix and grows the basket by at most one. The ids become the old ids plus the new one. No duplicate is introduced |
| Services.AddedIdempotent | shop/sevices.py:63-64 | adding the same id twice gives the same basket as adding it once |
| Services.AddedAppends | shop/sevices.py:61-66 | a present id leaves the basket unchanged; an absent id goes to the end |
| Services.RemoveFirst | shop/sevices.py:74-75 | `list.remove` takes exactly one occurrence of the id out of the basket's multiset, or nothing if absent |
| Services.RemoveFirstDistinct | shop/sevices.py:74-75 | in a basket without duplicates, removal drops exactly that id and keeps the other entries in order |
| Services.RemoveFirstKeepsDistinct | shop/sevices.py:74-75 | removing an id never introduces a duplicate |
| Services.RemoveAbsent | shop/sevices.py:74-75 | removing an id the basket lacks changes nothing |
| Services.RemoveUndoesAdd | shop/sevices.py:57-77 | removing an id that was just added to a basket without it restores the basket |
| Services.Basket.constructor | shop/sevices.py:61 | a session without a basket starts from the empty list |
| Services.Basket.Add | shop/sevices.py:63-66 | the session list becomes `Added` of the old list, and the no-duplicates invariant is kept |
| Services.Basket.Remove | shop/sevices.py:74-77 | the session list becomes `RemoveFirst` of the old list. The invariant is kept and the id is then absent |
| Services.Basket.Contains | shop/views.py:234 | `item_pk in basket` is true exactly when the id occurs in the list |
| Services.Basket.Clear | shop/views.py:138 | the session basket becomes the empty list |
| Services.TargetItem | shop/sevices.py:58-59 | a POST acts on the POSTed item, or fails when int() rejects it; any other method acts on the URL's item id |
| Services.AddToBasket | shop/sevices.py:57-66 | succeeds exactly when the target id parses. The basket then becomes `Added` of the old basket; on failure it is untouched. The invariant is kept |
| Services.DeleteFromBasket | shop/sevices.py:69-77 | only a POST changes the basket: it removes the POSTed id. A non-integer item fails and changes nothing. The invariant is kept |
| Services.GetItemsByListIds | shop/sevices.py:8-14 | exactly the existing items whose pk is listed, each as often as in the table. Unknown ids drop out and repeated ids repeat nothing |
| Services.ListIdsAsSet | shop/sevices.py:8-9 | two id lists with the same members resolve to the same items; order and repetition do not matter |
| Services.ListIdsDistinct | shop/sevices.py:8-9 | with unique primary keys, the resolved basket holds no item twice |
| Services.SumPricesPermutation | shop/sevices.py:17-18 | the sum of prices does not depend on the order of the rows |
| Services.GetSumOfProducts | shop/sevices.py:17-18 | `Sum('price')` is None exactly for no rows, else the sum of the prices |
| Services.Buyer | shop/sevices.py:25-26 | the buyer is None exactly for an anonymous user or pk 0, else the user |
| Services.Pks | shop/sevices.py:31 | the linked items are exactly the primary keys of the resolved rows |
| Services.NewPurchase | shop/sevices.py:21-31 | the purchase links exactly the basket ids that name an existing item. The total is None exactly when none does, else the sum of those items' prices. The buyer and the form are as given |
| Services.CheckoutExample | shop/sevices.py:21-31 | a basket of A at 10.00 and B at 15.00 records items {A, B} and total 25.00 |
| Services.CreatePurchaseStep | shop/sevices.py:21-31 | checkout appends exactly one purchase row and leaves every other table unchanged |
| Services.PurchaseCountAfterCheckout | shop/sevices.py:21-31 | checkout raises by one the purchase count (sort '3') of each linked item and of no other |
| Services.CreatePurchase | shop/sevices.py:21-31 | saving the purchase performs exactly `CreatePurchaseStep` and leaves the session basket unchanged. Table validity is kept |
| Services.AddReviewStep | shop/sevices.py:34-38 | a rate outside [0, 100] is an invalid form. A missing item or author is an integrity error. Either failure leaves the tables unchanged; otherwise exactly the review is appended |
| Services.AddReviewKeepsValid | shop/models.py:115-122 | a saved review keeps every table constraint, the rate range in particular |
| Services.ReviewCountAfterAdd | shop/sevices.py:34-38 | a saved review raises its item's review count (sort '4') by one and no other's, and gives the item an average rate |
| Services.AddFavoriteStep | shop/sevices.py:41-44 | a missing item, then a missing user, fails without change. Otherwise one (user, item) row is inserted, even beside an identical one |
| Services.DeleteFavoriteStep | shop/sevices.py:47-50 | a missing item, a missing user, no matching row or several matching rows each fail with its own error and no change. Otherwise exactly the one row is deleted |
| Services.CheckFavorite | shop/sevices.py:53-54 | true exactly when at least one favourite row pairs the user with the item |
| Services.FavoriteToggle | shop/sevices.py:41-54 | adding a new favourite makes the check true. Deleting it then succeeds, makes the check false and restores the tables |
| Services.AddTwiceBlocksDelete | shop/sevices.py:41-50 | adding the same favourite twice succeeds, after which deleting it fails with MultipleObjectsReturned |
| Services.AddReview | shop/sevices.py:34-38 | the method's outcome and new tables are those of `AddReviewStep`; table validity is kept |
| Services.AddFavorite | shop/sevices.py:41-44 | the method's outcome and new tables are those of `AddFavoriteStep`; table validity is kept |
| Services.DeleteFavorite | shop/sevices.py:47-50 | the method's outcome and new tables are those of `DeleteFavoriteStep`; table validity is kept |
| Views.GetInitial | shop/views.py:28-41 | the view's copy of the parameter parsing gives the same filter as `get_item_filter` on every input |
| Views.ViewOrder | shop/views.py:47-57 | the if-chain selects an ordering exactly for keys '1'..'5', the same one `SORT_ORDER` maps them to |
| Views.PriceFilteredCreatedAscending | shop/views.py:45 | the price-filtered items keep the default `created_at` order |
| Views.GetQueryset | shop/views.py:43-59 | exactly the items priced within the bounds, with their multiplicities. Keys '1'..'5' order by their key; any other key, or none, leaves `created_at` ascending |
| Views.QuerysetInListingOrder | shop/views.py:43-59 | the queryset is in the listing order: the requested one for a known key, `created_at` otherwise |
| Views.QuerysetAgreesOnKnownSort | shop/views.py:47-57 | for keys '1'..'5' the view lists the same sequence as `get_items_by_filter` |
| Views.DefaultSortDiverges | shop/views.py:43-59 | with no sort key, on two items in range whose older one is dearer, the view and `get_items_by_filter` list different sequences |
| Views.UnsortedDiverges | shop/views.py:43-59 | the same divergence for any bounds that admit both items |
| Views.DefaultOrders | shop/views.py:43-59 | with no sort key, `get_items_by_filter` is in price-ascending order and the view in `created_at` order |
| Views.ShopCategory | shop/views.py:80-82 | exactly the items in range having a category with the slug. Without an annotation they are in the listing order; under '3'-'5', in the order of the aggregate as the category join inflates it |
| Views.CategoryListingOrder | shop/views.py:80-82 | because slugs are unique, the category listing is in the listing order under every sort key |
| Views.ShopSearch | shop/views.py:90-95 | with no search, the base queryset. Otherwise exactly the items in range whose title contains the text, ignoring case, each as often as in the table. The result is in the listing order |
| Views.ShopFavorite | shop/views.py:103-105 | exactly the items in range for which the user has a favourite row. Without an annotation they are in the listing order; under '3'-'5', in the order of the counts multiplied by the user's favourite rows |
| Views.FavoriteListingOrder | shop/views.py:103-105 | a user who holds no favourite twice sees the favourites in the listing order under every sort key |
| Views.ParamsSkipsPage | shop/views.py:61-66 | `params` renders `&key=value` for exactly the GET parameters other than `page`, in their order |
| Views.ParamsAppend | shop/views.py:63-64 | the rendering of two parameter lists one after the other is the concatenation of their renderings |
| Views.ParamsEmptyIff | shop/views.py:63-65 | `params` is empty exactly when every GET parameter is `page` |
| Views.NumPages | shop/views.py:24-25 | an empty listing has exactly one page. Otherwise the pages hold every item and the last page is not empty |
| Views.Paginate | shop/views.py:24-25 | a missing page is page 1. A malformed page, or one outside 1..pages, is a 404. A page holds at most 10 items, the consecutive run of the listing that starts at (page − 1)·10 |
| Views.EveryItemOnAPage | shop/views.py:24 | item i of a listing is item i mod 10 of page i div 10 + 1 |
| Views.EmptyListingHasFirstPage | shop/views.py:25 | an empty listing still has its first page, empty |
| Views.PagesBeforeLastAreFull | shop/views.py:24 | every page before the last holds exactly 10 items |
| Views.AddToBasketView | shop/views.py:197-210 | answers success and adds the id exactly when the target parses; otherwise a server error and the basket untouched |
| Views.DeleteFromBasketView | shop/views.py:213-225 | a non-POST returns nothing and changes nothing. A POST of an integer removes it and answers success. A malformed POST is a server error |
| Views.CheckBasketView | shop/views.py:228-235 | on a GET, answers whether the item is in the session basket; otherwise returns nothing |
| Views.BasketButtonsAgree | shop/views.py:197-235 | after adding an id the basket check reports it; after removing it from a basket without duplicates it no longer does |
| Views.ToBasket | shop/views.py:238-245 | a POST of an integer adds it to the basket; any other method changes nothing. Either way the basket URL is returned. A malformed POST is a server error. The basket keeps no duplicates |
| Views.AddFavoriteView | shop/views.py:163-172 | an anonymous user is sent to log in and a non-POST returns nothing, neither changing anything. A POST performs `add_favorite` and answers success exactly when it succeeds |
| Views.DeleteFavoriteView | shop/views.py:175-184 | the same shape for `delete_favorite` |
| Views.CheckFavoriteView | shop/views.py:187-194 | on a GET, answers whether a favourite row pairs the user with the item (false for an anonymous user); otherwise returns nothing |
| Views.BasketFormValid | shop/views.py:124-139 | checkout appends exactly the purchase that `CreatePurchaseStep` gives for the basket, then empties the session basket and redirects to it. Table validity is kept |
| Views.ReviewView | shop/views.py:151-160 | an invalid rate redirects back with no change. A missing item is a 404 and an anonymous author a server error, neither changing anything. Otherwise the view performs `add_review`'s step and redirects back exactly when it succeeds, else a server error. Table validity is kept |

## Left out

- Framework plumbing is not modelled: `JsonResponse` bodies, `messages`, templates, redirect targets (`HTTP_REFERER`), `reverse_lazy` and the URL routing. These are abstracted into the `Response` values.
- The `users` app is not part of this model, and neither are the admin, the template tags or the declarative forms. This covers authentication, profiles and `FilterProducts`.
- The `Favorite` and `Purchase` models and the `ReviewForm` / `PurchaseForm` classes are not part of this model.
  - Favourites are a multiset of (user, item) rows.
  - A purchase is its linked item ids, total, buyer and form data.
  - No field validation is invented beyond the rate range that `Review.rate` declares.
  - A checkout form that does not validate is not modelled, since `form_valid` only runs on a valid form.
- Views.ReviewView: an anonymous author is modelled as a server error. Saving a review with no author violates the NOT NULL foreign key; the exact exception is database-dependent.
- Views.Paginate: Django's special page value `last` is not modelled. A non-integer page is always a 404 here.
- Python's `int()` parsing (whitespace, signs, underscores) is not modelled. A request parameter arrives already classified as absent, malformed or an integer (`ParsedInt`).
- `QueryDict` behaviour is not modelled: `params` is built from the parameter pairs as given, and the last-value rule for repeated keys is omitted.
- Views.AddToBasketView: the case where `item_id` keeps its default None is not modelled (a GET without an id, which appends None to the basket). The URL id is always an integer here.
- A session without a `basket` key and one holding `[]` are the same state in the model.
- Ordering.Sort: the order of ties under `order_by` is database-dependent and is not asserted. `Sort` is stable, but no contract of the listing states how ties are broken.
- Filters.OrderBy: where items without reviews (a NULL average) land under `-rate` is database-dependent. The ordering contract compares rated items only.
- Filters.GetSearchItems: `icontains` is modelled with ASCII lower-casing. The database's own case folding is not modelled.
- Models.AvgRate: the average is the exact mean rather than the database's floating-point `Avg`.
- Models.CascadeDelete: the MPTT sibling order by `name` (`order_insertion_by`) is not modelled, nor are the tree's left/right numbers. Only the cascade is modelled.
- Items and reviews cascade from their salesman and author. Deleting users and items is not part of this model.
- `ProductGallery` (images) is not modelled.
- The field defaults (`Item.price` and `Review.rate` default to 0) are not modelled, because every row here is created with explicit values.
- Concurrency is not modelled. Each request runs alone against one snapshot of the tables and the session, so the race between reading prices and writing the purchase is not represented.
- `Item.price` is a decimal with 8 digits, 2 after the point (`PriceInDomain`). Writes of prices are not modelled, so nothing checks that bound when a price changes.
