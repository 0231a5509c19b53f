/** The shop's tables (shop/models.py): field domains, the unique category
    slug, the default orderings, the average rate of an item and the cascade
    that deletes a category's subtree. A `Catalog` is a snapshot of all the
    tables; `Database` holds the same tables as fields that the services
    update in place. */
module Models {
  import opened Wrappers
  import opened Ordering

  /** Item.price is a decimal of at most 8 digits, 2 of them after the
      point, held here in cents, so its magnitude is below 10^6 units; it
      has no lower bound. */
  const MaxPriceCents: int := 99_999_999

  /** Review.rate is validated into [0, 100]. */
  const MinRate: int := 0
  const MaxRate: int := 100

  /** A node of the category tree; its primary key is its key in the
      `categories` map. */
  datatype Category = Category(name: string, parent: Option<int>, slug: string)

  datatype Item = Item(
    pk: int,
    title: string,
    categories: seq<int>,
    description: string,
    price: int,
    salesman: int,
    createdAt: int)

  datatype Review = Review(author: int, product: int, text: string, rate: int, createdAt: int)

  /** One row of the favourites table: user `user` bookmarked item `item`. */
  datatype Favorite = Favorite(user: int, item: int)

  /** The shipping details a checkout form carries; their validation belongs
      to the form, which is not part of this model. */
  datatype PurchaseForm = PurchaseForm(
    isDelivery: bool,
    email: string,
    phone: string,
    country: string,
    city: string,
    street: string)

  datatype Purchase = Purchase(
    items: set<int>,
    totalPrice: Option<int>,
    user: Option<int>,
    form: PurchaseForm)

  datatype Catalog = Catalog(
    items: seq<Item>,
    categories: map<int, Category>,
    users: set<int>,
    reviews: seq<Review>,
    favorites: multiset<Favorite>,
    purchases: seq<Purchase>)

  predicate PriceInDomain(cents: int) {
    -MaxPriceCents <= cents <= MaxPriceCents
  }

  predicate RateInRange(rate: int) {
    MinRate <= rate <= MaxRate
  }

  predicate ItemPksUnique(items: seq<Item>) {
    forall i, j :: 0 <= i < j < |items| ==> items[i].pk != items[j].pk
  }

  /** `Category.slug` is declared unique. */
  predicate SlugsUnique(categories: map<int, Category>) {
    forall p, q :: p in categories && q in categories && p != q ==>
      categories[p].slug != categories[q].slug
  }

  /** The constraints the schema declares on every row. */
  predicate CatalogValid(c: Catalog) {
    && ItemPksUnique(c.items)
    && (forall x :: x in c.items ==> Distinct(x.categories))
    && (forall x :: x in c.items ==> PriceInDomain(x.price))
    && SlugsUnique(c.categories)
    && (forall r :: r in c.reviews ==> RateInRange(r.rate))
  }

  function ItemCreatedAt(x: Item): Score {
    Val(-(x.createdAt as real))
  }

  function ReviewCreatedAt(r: Review): Score {
    Val(-(r.createdAt as real))
  }

  /** `a` was created no later than `b`. */
  function CreatedBefore(): (Item, Item) -> bool {
    (a: Item, b: Item) => a.createdAt <= b.createdAt
  }

  /** `Item.objects`: the items table in its default order, `created_at`
      ascending. */
  function Objects(c: Catalog): (r: seq<Item>)
    ensures multiset(r) == multiset(c.items)
    ensures forall i, j :: 0 <= i < j < |r| ==> r[i].createdAt <= r[j].createdAt
  {
    Sort(c.items, ItemCreatedAt)
  }

  /** `Review.objects`: the reviews table in its default order, `created_at`
      ascending. */
  function ReviewObjects(c: Catalog): (r: seq<Review>)
    ensures multiset(r) == multiset(c.reviews)
    ensures forall i, j :: 0 <= i < j < |r| ==> r[i].createdAt <= r[j].createdAt
  {
    Sort(c.reviews, ReviewCreatedAt)
  }

  /** The reviews of item `pk`. */
  function ReviewsOf(reviews: seq<Review>, pk: int): seq<Review> {
    Filter(reviews, (r: Review) => r.product == pk)
  }

  function SumRates(rs: seq<Review>): int {
    if rs == [] then 0 else rs[0].rate + SumRates(rs[1..])
  }

  /** `Count('review')`: the number of reviews of item `pk`. */
  function ReviewCount(reviews: seq<Review>, pk: int): nat {
    |ReviewsOf(reviews, pk)|
  }

  /** `Count('purchase')`: the number of purchases that include item `pk`. */
  function PurchaseCount(purchases: seq<Purchase>, pk: int): nat {
    |Filter(purchases, (p: Purchase) => pk in p.items)|
  }

  /** `Item.get_avg_rate` and `Avg('review__rate')`: the mean rate of the
      item's reviews, or None (SQL NULL) when it has none. The mean is exact. */
  function AvgRate(reviews: seq<Review>, pk: int): (r: Option<real>)
    ensures r.None? <==> forall rv :: rv in reviews ==> rv.product != pk
  {
    var rs := ReviewsOf(reviews, pk);
    assert rs == [] <==> forall rv :: rv in reviews ==> rv.product != pk by {
      if rs != [] { assert rs[0] in rs; }
    }
    if |rs| == 0 then None else Some(SumRates(rs) as real / |rs| as real)
  }

  lemma {:induction false} SumRatesBounds(rs: seq<Review>)
    requires forall r :: r in rs ==> RateInRange(r.rate)
    ensures MinRate * |rs| <= SumRates(rs) <= MaxRate * |rs|
  {
    if rs != [] {
      assert rs[0] in rs;
      SumRatesBounds(rs[1..]);
    }
  }

  /** The average rate of an item whose reviews all hold valid rates lies
      in [0, 100]. */
  lemma AvgRateInRange(reviews: seq<Review>, pk: int)
    requires forall r :: r in reviews ==> RateInRange(r.rate)
    ensures AvgRate(reviews, pk).Some? ==>
      MinRate as real <= AvgRate(reviews, pk).value <= MaxRate as real
  {
    var rs := ReviewsOf(reviews, pk);
    if |rs| > 0 {
      SumRatesBounds(rs);
      MeanBounds(SumRates(rs) as real, |rs| as real);
    }
  }

  /** A sum of `n` values in [0, 100], divided by `n`, lies in [0, 100]. */
  lemma MeanBounds(s: real, n: real)
    requires n > 0.0 && 0.0 <= s <= 100.0 * n
    ensures 0.0 <= s / n <= 100.0
  {
    var q := s / n;
    assert q * n == s;
    assert (100.0 - q) * n == 100.0 * n - s;
  }

  /** A category that hangs below one of the removed categories. */
  predicate ChildOf(c: Category, removed: set<int>) {
    c.parent.Some? && c.parent.value in removed
  }

  /** Every parent a category names exists. */
  predicate ParentsExist(categories: map<int, Category>) {
    forall p :: p in categories && categories[p].parent.Some? ==>
      categories[p].parent.value in categories
  }

  /** Deleting category `pk` (`on_delete=CASCADE` on `parent`) deletes it
      and, transitively, every category below it. */
  function CascadeDelete(categories: map<int, Category>, pk: int): (r: map<int, Category>)
    ensures forall p :: p in r ==> p in categories && r[p] == categories[p]
    ensures pk !in r
    ensures forall p :: p in r ==> !ChildOf(r[p], {pk})
    ensures ParentsExist(categories) ==> ParentsExist(r)
    ensures forall p :: p in categories && p !in r ==>
      p == pk || (categories[p].parent.Some? && categories[p].parent.value !in r)
  {
    Sweep(categories - {pk}, {pk})
  }

  /** Remove the children of the removed categories until none is left. */
  function Sweep(categories: map<int, Category>, removed: set<int>): (r: map<int, Category>)
    requires forall p :: p in categories ==> p !in removed
    ensures forall p :: p in r ==> p in categories && r[p] == categories[p]
    ensures forall p :: p in r ==> !ChildOf(r[p], removed)
    ensures (forall p :: p in categories && categories[p].parent.Some? ==>
               categories[p].parent.value in categories || categories[p].parent.value in removed)
            ==> ParentsExist(r)
    ensures forall p :: p in categories && p !in r ==>
      categories[p].parent.Some? && categories[p].parent.value !in r
    decreases |categories|
  {
    if forall p :: p in categories ==> !ChildOf(categories[p], removed) then
      categories
    else
      var o :| o in categories && ChildOf(categories[o], removed);
      var orphans := set p | p in categories && ChildOf(categories[p], removed);
      var kept := categories - orphans;
      assert kept.Keys == categories.Keys - orphans;
      assert kept.Keys < categories.Keys by { assert o in categories.Keys && o !in kept.Keys; }
      Sweep(kept, removed + orphans)
  }

  /** The tables as fields that the services update in place. */
  class Database {
    var items: seq<Item>
    var categories: map<int, Category>
    var users: set<int>
    var reviews: seq<Review>
    var favorites: multiset<Favorite>
    var purchases: seq<Purchase>

    function Tables(): Catalog
      reads this
    {
      Catalog(items, categories, users, reviews, favorites, purchases)
    }

    ghost predicate Valid()
      reads this
    {
      CatalogValid(Tables())
    }

    constructor (c: Catalog)
      requires CatalogValid(c)
      ensures Valid() && Tables() == c
    {
      items := c.items;
      categories := c.categories;
      users := c.users;
      reviews := c.reviews;
      favorites := c.favorites;
      purchases := c.purchases;
    }
  }
}
