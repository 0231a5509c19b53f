/** The services of shop/sevices.py: the session basket, resolving basket
    ids against the catalog, the checkout total, and the rows that reviews,
    favourites and purchases add to or remove from the tables. Each table
    change is stated as a function from the old tables to an outcome and the
    new tables, and the methods that change a `Database` are proved to
    perform exactly that step. */
module Services {
  import opened Wrappers
  import opened Ordering
  import opened Models

  /** The exceptions a service lets through to its caller. */
  datatype Error =
    | ItemDoesNotExist         // Item.DoesNotExist from Item.objects.get
    | UserDoesNotExist         // CustomUser.DoesNotExist
    | FavoriteDoesNotExist     // Favorite.DoesNotExist: no matching row
    | MultipleObjectsReturned  // Favorite.objects.get matched several rows
    | InvalidForm              // saving a form that did not validate
    | IntegrityError           // a row naming an author or item that does not exist
    | BadItemParameter         // int() of the POSTed `item` raised

  datatype HttpMethod = GET | POST | OtherMethod

  /** The parts of a request the services read: its method, the POSTed
      `item` as int() sees it, and the primary key of `request.user`
      (None for an anonymous user). */
  datatype Request = Request(verb: HttpMethod, postItem: ParsedInt, user: Option<int>)

  // ---------------------------------------------------------------------
  // The session basket

  /** The basket after `if item_id not in basket: basket.append(item_id)`. */
  function Added(basket: seq<int>, id: int): (r: seq<int>)
    ensures |basket| <= |r| <= |basket| + 1 && r[..|basket|] == basket
    ensures forall k :: k in r <==> k in basket || k == id
    ensures Distinct(basket) ==> Distinct(r)
  {
    if id in basket then basket else basket + [id]
  }

  /** `list.remove`: drop the first occurrence of `id`, if there is one. */
  function RemoveFirst(basket: seq<int>, id: int): (r: seq<int>)
    ensures multiset(r) == multiset(basket) - multiset{id}
  {
    if basket == [] then []
    else if basket[0] == id then
      assert basket == [id] + basket[1..];
      basket[1..]
    else
      assert basket == [basket[0]] + basket[1..];
      [basket[0]] + RemoveFirst(basket[1..], id)
  }

  /** Adding an id twice leaves the basket as adding it once. */
  lemma AddedIdempotent(basket: seq<int>, id: int)
    ensures Added(Added(basket, id), id) == Added(basket, id)
  {
  }

  /** An id already in the basket changes nothing; a new one goes to the
      end, behind the entries in their old order. */
  lemma AddedAppends(basket: seq<int>, id: int)
    ensures id in basket ==> Added(basket, id) == basket
    ensures id !in basket ==> Added(basket, id) == basket + [id]
  {
  }

  /** Every id but `id`. */
  function Other(id: int): int -> bool {
    (k: int) => k != id
  }

  /** In a basket without duplicates, removing an id drops exactly that id
      and keeps the other entries in their order. */
  lemma {:induction false} RemoveFirstDistinct(basket: seq<int>, id: int)
    requires Distinct(basket)
    ensures RemoveFirst(basket, id) == Filter(basket, Other(id))
    ensures id !in RemoveFirst(basket, id)
  {
    if basket != [] {
      assert Distinct(basket[1..]) by {
        forall i, j | 0 <= i < j < |basket[1..]|
          ensures basket[1..][i] != basket[1..][j]
        {
          assert basket[1..][i] == basket[i + 1] && basket[1..][j] == basket[j + 1];
        }
      }
      if basket[0] == id {
        forall k | k in basket[1..]
          ensures Other(id)(k)
        {
          var m :| 0 <= m < |basket[1..]| && basket[1..][m] == k;
          assert basket[1 + m] == k;
        }
        FilterAll(basket[1..], Other(id));
      } else {
        RemoveFirstDistinct(basket[1..], id);
      }
    }
  }

  /** Removing an id never introduces a duplicate. */
  lemma RemoveFirstKeepsDistinct(basket: seq<int>, id: int)
    requires Distinct(basket)
    ensures Distinct(RemoveFirst(basket, id))
  {
    var r := RemoveFirst(basket, id);
    DistinctCounts(basket);
    assert forall x :: multiset(r)[x] <= multiset(basket)[x];
    DistinctCounts(r);
  }

  /** Removing what was just added restores the basket. */
  lemma RemoveUndoesAdd(basket: seq<int>, id: int)
    requires id !in basket
    ensures RemoveFirst(Added(basket, id), id) == basket
  {
    assert Added(basket, id) == basket + [id];
    RemoveLast(basket, id);
  }

  /** Removing an id from a basket that holds it only at the end drops the
      end. */
  lemma {:induction false} RemoveLast(basket: seq<int>, id: int)
    requires id !in basket
    ensures RemoveFirst(basket + [id], id) == basket
  {
    if basket == [] {
      assert basket + [id] == [id];
    } else {
      var grown := basket + [id];
      assert grown[0] == basket[0] && grown[1..] == basket[1..] + [id];
      assert basket[0] != id;
      RemoveLast(basket[1..], id);
    }
  }

  /** Removing an id the basket lacks, from an empty basket in particular,
      changes nothing. */
  lemma {:induction false} RemoveAbsent(basket: seq<int>, id: int)
    requires id !in basket
    ensures RemoveFirst(basket, id) == basket
  {
    if basket != [] {
      RemoveAbsent(basket[1..], id);
    }
  }

  /** `request.session['basket']`: the ids the visitor put in the basket,
      in the order they were added; a session without the key holds []. */
  class Basket {
    var ids: seq<int>

    /** No id occurs twice; every operation below keeps this. */
    ghost predicate Valid()
      reads this
    {
      Distinct(ids)
    }

    constructor ()
      ensures ids == [] && Valid()
    {
      ids := [];
    }

    method Add(id: int)
      modifies this
      ensures ids == Added(old(ids), id)
      ensures old(Valid()) ==> Valid()
    {
      if id !in ids {
        ids := ids + [id];
      }
    }

    method Remove(id: int)
      modifies this
      ensures ids == RemoveFirst(old(ids), id)
      ensures old(Valid()) ==> Valid() && id !in ids
    {
      if id in ids {
        if Valid() {
          RemoveFirstDistinct(ids, id);
          RemoveFirstKeepsDistinct(ids, id);
        }
        ids := RemoveFirst(ids, id);
      } else {
        RemoveAbsent(ids, id);
      }
    }

    /** `item_pk in basket`. */
    function Contains(id: int): (r: bool)
      reads this
      ensures r <==> multiset(ids)[id] > 0
    {
      id in ids
    }

    method Clear()
      modifies this
      ensures ids == [] && Valid()
    {
      ids := [];
    }
  }

  /** The item id `add_to_basket` and `delete_from_basket` act on: the
      POSTed `item` on a POST, where int() may raise, else `item_id`. */
  function TargetItem(req: Request, itemId: int): (r: Option<int>)
    ensures req.verb != POST ==> r == Some(itemId)
    ensures req.verb == POST ==> (r.Some? <==> req.postItem.Parsed?)
    ensures req.verb == POST && r.Some? ==> r.value == req.postItem.value
  {
    if req.verb != POST then Some(itemId)
    else if req.postItem.Parsed? then Some(req.postItem.value)
    else None
  }

  /** `add_to_basket`: the id ends up in the basket, appended only if it
      was absent; when int() of the POSTed item raises, the session is not
      touched. */
  method AddToBasket(basket: Basket, req: Request, itemId: int) returns (out: Outcome<Error>)
    modifies basket
    ensures out.Pass? <==> TargetItem(req, itemId).Some?
    ensures out.Fail? ==> out.error == BadItemParameter && basket.ids == old(basket.ids)
    ensures out.Pass? ==> basket.ids == Added(old(basket.ids), TargetItem(req, itemId).value)
    ensures old(basket.Valid()) ==> basket.Valid()
  {
    var target := TargetItem(req, itemId);
    if target.None? {
      return Fail(BadItemParameter);
    }
    basket.Add(target.value);
    return Pass;
  }

  /** `delete_from_basket`: on a POST, the POSTed id is removed if present;
      any other method changes nothing. */
  method DeleteFromBasket(basket: Basket, req: Request) returns (out: Outcome<Error>)
    modifies basket
    ensures req.verb != POST ==> out == Pass && basket.ids == old(basket.ids)
    ensures req.verb == POST && !req.postItem.Parsed? ==>
      out == Fail(BadItemParameter) && basket.ids == old(basket.ids)
    ensures req.verb == POST && req.postItem.Parsed? ==>
      out == Pass && basket.ids == RemoveFirst(old(basket.ids), req.postItem.value)
    ensures old(basket.Valid()) ==> basket.Valid()
  {
    if req.verb != POST {
      return Pass;
    }
    if !req.postItem.Parsed? {
      return Fail(BadItemParameter);
    }
    basket.Remove(req.postItem.value);
    return Pass;
  }

  // ---------------------------------------------------------------------
  // Resolving basket ids and the checkout total

  function PkIn(ids: seq<int>): Item -> bool {
    (x: Item) => x.pk in ids
  }

  /** `get_items_by_list_ids`: the existing items whose pk is listed, each as
      often as in the table, in the default order; unknown ids drop out and
      a repeated id does not repeat an item. */
  function GetItemsByListIds(c: Catalog, ids: seq<int>): (r: seq<Item>)
    ensures forall x :: multiset(r)[x] == if x.pk in ids then multiset(c.items)[x] else 0
    ensures forall x :: x in r <==> x in c.items && x.pk in ids
  {
    var r := Filter(Objects(c), PkIn(ids));
    assert forall x :: multiset(r)[x] == if x.pk in ids then multiset(c.items)[x] else 0 by {
      forall x
        ensures multiset(r)[x] == if x.pk in ids then multiset(c.items)[x] else 0
      {
        FilterCount(Objects(c), PkIn(ids), x);
      }
    }
    r
  }

  /** Only the set of listed ids matters: order and repetition do not. */
  lemma ListIdsAsSet(c: Catalog, a: seq<int>, b: seq<int>)
    requires forall k :: k in a <==> k in b
    ensures GetItemsByListIds(c, a) == GetItemsByListIds(c, b)
  {
    FilterSameOn(Objects(c), PkIn(a), PkIn(b));
  }

  /** With unique primary keys, the resolved basket holds no item twice. */
  lemma ListIdsDistinct(c: Catalog, ids: seq<int>)
    requires ItemPksUnique(c.items)
    ensures Distinct(GetItemsByListIds(c, ids))
  {
    assert Distinct(c.items);
    DistinctCounts(c.items);
    DistinctCounts(GetItemsByListIds(c, ids));
  }

  /** `Sum('price')` over the rows of `items`. */
  function SumPrices(items: seq<Item>): int {
    if items == [] then 0 else items[0].price + SumPrices(items[1..])
  }

  lemma {:induction false} SumPricesAppend(a: seq<Item>, b: seq<Item>)
    ensures SumPrices(a + b) == SumPrices(a) + SumPrices(b)
  {
    if a == [] {
      assert a + b == b;
    } else {
      assert (a + b)[1..] == a[1..] + b;
      SumPricesAppend(a[1..], b);
    }
  }

  /** The sum does not depend on the order of the rows. */
  lemma {:induction false} SumPricesPermutation(a: seq<Item>, b: seq<Item>)
    requires multiset(a) == multiset(b)
    ensures SumPrices(a) == SumPrices(b)
    decreases |a|
  {
    if a != [] {
      assert a == [a[0]] + a[1..];
      assert a[0] in multiset(b);
      var i :| 0 <= i < |b| && b[i] == a[0];
      var rest := b[..i] + b[i + 1..];
      MultisetCancel(a, b, i);
      assert b == b[..i] + ([b[i]] + b[i + 1..]);
      SumPricesPermutation(a[1..], rest);
      SumPricesAppend(b[..i], [b[i]] + b[i + 1..]);
      SumPricesAppend(b[..i], b[i + 1..]);
      assert ([b[i]] + b[i + 1..])[1..] == b[i + 1..];
    }
  }

  /** `get_sum_of_products`: the sum of the prices, or None (SQL NULL) when
      there are no rows. */
  function GetSumOfProducts(products: seq<Item>): (r: Option<int>)
    ensures r.None? <==> products == []
    ensures r.Some? ==> r.value == SumPrices(products)
  {
    if products == [] then None else Some(SumPrices(products))
  }

  /** `user if user.pk else None`: the buyer is None for an anonymous user
      and, by Python truthiness, for a user whose pk is 0. */
  function Buyer(user: Option<int>): (b: Option<int>)
    ensures b.Some? <==> user.Some? && user.value != 0
    ensures b.Some? ==> b == user
  {
    if user.Some? && user.value != 0 then user else None
  }

  /** `purchase.item.add(*products)`: the primary keys of the rows, as a
      set. */
  function Pks(items: seq<Item>): (r: set<int>)
    ensures forall k :: k in r <==> exists x :: x in items && x.pk == k
  {
    set x | x in items :: x.pk
  }

  /** The purchase row that checkout saves for basket `basket`. */
  function NewPurchase(c: Catalog, basket: seq<int>, form: PurchaseForm, user: Option<int>): (p: Purchase)
    ensures forall k :: k in p.items <==> k in basket && exists x :: x in c.items && x.pk == k
    ensures p.totalPrice.None? <==> forall x :: x in c.items ==> x.pk !in basket
    ensures p.totalPrice.Some? ==> p.totalPrice.value == SumPrices(GetItemsByListIds(c, basket))
    ensures p.user == Buyer(user) && p.form == form
  {
    var products := GetItemsByListIds(c, basket);
    assert products == [] <==> forall x :: x in c.items ==> x.pk !in basket by {
      if products != [] {
        assert products[0] in products;
      }
    }
    Purchase(Pks(products), GetSumOfProducts(products), Buyer(user), form)
  }

  /** Checkout of a basket holding item A at 10.00 and item B at 15.00
      records both items and a total of 25.00, whatever the order of the
      rows. */
  lemma CheckoutExample(c: Catalog, a: Item, b: Item, form: PurchaseForm, user: Option<int>)
    requires multiset(c.items) == multiset{a, b} && a.pk != b.pk
    requires a.price == 1000 && b.price == 1500
    ensures var p := NewPurchase(c, [a.pk, b.pk], form, user);
      p.items == {a.pk, b.pk} && p.totalPrice == Some(2500)
  {
    CheckoutExampleTotal(c, a, b, form, user);
    CheckoutExampleItems(c, a, b, form, user);
  }

  lemma CheckoutExampleTotal(c: Catalog, a: Item, b: Item, form: PurchaseForm, user: Option<int>)
    requires multiset(c.items) == multiset{a, b} && a.pk != b.pk
    requires a.price == 1000 && b.price == 1500
    ensures NewPurchase(c, [a.pk, b.pk], form, user).totalPrice == Some(2500)
  {
    var basket := [a.pk, b.pk];
    ResolvedBoth(c, a, b);
    SumOfTwo(GetItemsByListIds(c, basket), a, b);
    assert a in c.items && a.pk in basket;
  }

  lemma CheckoutExampleItems(c: Catalog, a: Item, b: Item, form: PurchaseForm, user: Option<int>)
    requires multiset(c.items) == multiset{a, b}
    ensures NewPurchase(c, [a.pk, b.pk], form, user).items == {a.pk, b.pk}
  {
    var basket := [a.pk, b.pk];
    var p := NewPurchase(c, basket, form, user);
    assert a in c.items && b in c.items by {
      assert a in multiset(c.items) && b in multiset(c.items);
    }
    LinkedOfTwo(p.items, basket, c, a, b);
  }

  lemma LinkedOfTwo(linked: set<int>, basket: seq<int>, c: Catalog, a: Item, b: Item)
    requires basket == [a.pk, b.pk] && a in c.items && b in c.items
    requires forall k :: k in linked <==> k in basket && exists x :: x in c.items && x.pk == k
    ensures linked == {a.pk, b.pk}
  {
    forall k ensures k in linked <==> k in {a.pk, b.pk} {
      if k in {a.pk, b.pk} {
        var x := if k == a.pk then a else b;
        assert x in c.items && x.pk == k;
      }
    }
  }

  lemma ResolvedBoth(c: Catalog, a: Item, b: Item)
    requires multiset(c.items) == multiset{a, b} && a.pk != b.pk
    ensures multiset(GetItemsByListIds(c, [a.pk, b.pk])) == multiset{a, b}
  {
    var r := GetItemsByListIds(c, [a.pk, b.pk]);
    var ids := [a.pk, b.pk];
    forall z
      ensures multiset(r)[z] == multiset{a, b}[z]
    {
      assert multiset(r)[z] == if z.pk in ids then multiset(c.items)[z] else 0;
      assert multiset(c.items)[z] == multiset{a, b}[z];
      if z == a || z == b {
        assert z.pk in ids;
      }
    }
  }

  lemma SumOfTwo(r: seq<Item>, a: Item, b: Item)
    requires multiset(r) == multiset{a, b}
    ensures SumPrices(r) == a.price + b.price
  {
    assert multiset(r) == multiset([a, b]);
    SumPricesPermutation(r, [a, b]);
    assert [a, b][1..] == [b] && [b][1..] == [];
    assert SumPrices([b]) == b.price;
  }

  /** The tables after checkout: one purchase row more. */
  function CreatePurchaseStep(c: Catalog, basket: seq<int>, form: PurchaseForm, user: Option<int>): (r: Catalog)
    ensures r.purchases == c.purchases + [NewPurchase(c, basket, form, user)]
    ensures r.(purchases := c.purchases) == c
  {
    c.(purchases := c.purchases + [NewPurchase(c, basket, form, user)])
  }

  /** Checkout counts once more in the purchase count of every item it
      links, which the '3' sort orders by, and of no other. */
  lemma PurchaseCountAfterCheckout(c: Catalog, basket: seq<int>, form: PurchaseForm, user: Option<int>, pk: int)
    ensures PurchaseCount(CreatePurchaseStep(c, basket, form, user).purchases, pk) ==
      PurchaseCount(c.purchases, pk) +
        (if pk in basket && exists x :: x in c.items && x.pk == pk then 1 else 0)
  {
    var p := NewPurchase(c, basket, form, user);
    FilterAppend(c.purchases, [p], (q: Purchase) => pk in q.items);
  }

  /** `create_purchase`: saves the purchase built from the basket and the
      form; the basket itself is left as it was. */
  method CreatePurchase(db: Database, basket: Basket, form: PurchaseForm, user: Option<int>)
    modifies db
    ensures db.Tables() == CreatePurchaseStep(old(db.Tables()), basket.ids, form, user)
    ensures unchanged(basket)
    ensures old(db.Valid()) ==> db.Valid()
  {
    var products := GetItemsByListIds(db.Tables(), basket.ids);
    var total := GetSumOfProducts(products);
    var purchase := Purchase(Pks(products), total, Buyer(user), form);
    db.purchases := db.purchases + [purchase];
  }

  // ---------------------------------------------------------------------
  // Reviews and favourites

  /** The outcome of a service and the tables it leaves behind. */
  datatype Step = Step(outcome: Outcome<Error>, tables: Catalog)

  predicate ItemExists(c: Catalog, pk: int) {
    exists x :: x in c.items && x.pk == pk
  }

  /** `add_review`: a form whose rate lies outside [0, 100] does not
      validate and cannot be saved; a review naming a missing author or item
      violates its foreign key; otherwise the review is appended. */
  function AddReviewStep(c: Catalog, text: string, rate: int, user: int, item: int, now: int): (s: Step)
    ensures s.outcome.Pass? <==> RateInRange(rate) && ItemExists(c, item) && user in c.users
    ensures !RateInRange(rate) ==> s.outcome == Fail(InvalidForm)
    ensures RateInRange(rate) && s.outcome.Fail? ==> s.outcome.error == IntegrityError
    ensures s.outcome.Fail? ==> s.tables == c
    ensures s.outcome.Pass? ==>
      s.tables == c.(reviews := c.reviews + [Review(user, item, text, rate, now)])
  {
    if !RateInRange(rate) then Step(Fail(InvalidForm), c)
    else if !ItemExists(c, item) || user !in c.users then Step(Fail(IntegrityError), c)
    else Step(Pass, c.(reviews := c.reviews + [Review(user, item, text, rate, now)]))
  }

  /** A saved review keeps every rate in range, so the tables stay valid. */
  lemma AddReviewKeepsValid(c: Catalog, text: string, rate: int, user: int, item: int, now: int)
    requires CatalogValid(c)
    ensures CatalogValid(AddReviewStep(c, text, rate, user, item, now).tables)
  {
  }

  /** A saved review counts once more for its item and for no other, and
      the item then has an average rate. */
  lemma ReviewCountAfterAdd(c: Catalog, text: string, rate: int, user: int, item: int, now: int, pk: int)
    requires AddReviewStep(c, text, rate, user, item, now).outcome.Pass?
    ensures var after := AddReviewStep(c, text, rate, user, item, now).tables;
      ReviewCount(after.reviews, pk) == ReviewCount(c.reviews, pk) + (if pk == item then 1 else 0)
      && AvgRate(after.reviews, item).Some?
  {
    var rv := Review(user, item, text, rate, now);
    FilterAppend(c.reviews, [rv], (r: Review) => r.product == pk);
    assert rv in c.reviews + [rv];
  }

  /** `add_favorite`: both the item and the user must exist; then a row is
      always inserted, even beside an identical one. */
  function AddFavoriteStep(c: Catalog, item: int, user: int): (s: Step)
    ensures s.outcome.Pass? <==> ItemExists(c, item) && user in c.users
    ensures !ItemExists(c, item) ==> s.outcome == Fail(ItemDoesNotExist)
    ensures ItemExists(c, item) && user !in c.users ==> s.outcome == Fail(UserDoesNotExist)
    ensures s.outcome.Fail? ==> s.tables == c
    ensures s.outcome.Pass? ==>
      s.tables == c.(favorites := c.favorites + multiset{Favorite(user, item)})
  {
    if !ItemExists(c, item) then Step(Fail(ItemDoesNotExist), c)
    else if user !in c.users then Step(Fail(UserDoesNotExist), c)
    else Step(Pass, c.(favorites := c.favorites + multiset{Favorite(user, item)}))
  }

  /** `delete_favorite`: the item and the user must exist and exactly one
      favourite row must match; that row is deleted. */
  function DeleteFavoriteStep(c: Catalog, item: int, user: int): (s: Step)
    ensures s.outcome.Pass? <==>
      ItemExists(c, item) && user in c.users && c.favorites[Favorite(user, item)] == 1
    ensures !ItemExists(c, item) ==> s.outcome == Fail(ItemDoesNotExist)
    ensures ItemExists(c, item) && user !in c.users ==> s.outcome == Fail(UserDoesNotExist)
    ensures ItemExists(c, item) && user in c.users ==>
      (s.outcome == Fail(FavoriteDoesNotExist) <==> Favorite(user, item) !in c.favorites)
      && (s.outcome == Fail(MultipleObjectsReturned) <==> c.favorites[Favorite(user, item)] > 1)
    ensures s.outcome.Fail? ==> s.tables == c
    ensures s.outcome.Pass? ==>
      s.tables == c.(favorites := c.favorites - multiset{Favorite(user, item)})
      && Favorite(user, item) !in s.tables.favorites
  {
    var n := c.favorites[Favorite(user, item)];
    if !ItemExists(c, item) then Step(Fail(ItemDoesNotExist), c)
    else if user !in c.users then Step(Fail(UserDoesNotExist), c)
    else if n == 0 then Step(Fail(FavoriteDoesNotExist), c)
    else if n > 1 then Step(Fail(MultipleObjectsReturned), c)
    else Step(Pass, c.(favorites := c.favorites - multiset{Favorite(user, item)}))
  }

  /** `check_favorite`: whether some favourite row pairs the user with the
      item. */
  function CheckFavorite(c: Catalog, item: int, user: int): (r: bool)
    ensures r <==> c.favorites[Favorite(user, item)] > 0
  {
    Favorite(user, item) in c.favorites
  }

  /** Adding a favourite the user did not have, checking it and deleting it
      again: the check is true, the delete succeeds, a second check is false
      and the tables are as before. */
  lemma FavoriteToggle(c: Catalog, item: int, user: int)
    requires ItemExists(c, item) && user in c.users
    requires !CheckFavorite(c, item, user)
    ensures var added := AddFavoriteStep(c, item, user);
      && added.outcome.Pass?
      && CheckFavorite(added.tables, item, user)
      && var deleted := DeleteFavoriteStep(added.tables, item, user);
      && deleted.outcome.Pass?
      && !CheckFavorite(deleted.tables, item, user)
      && deleted.tables == c
  {
    var fav := Favorite(user, item);
    var added := AddFavoriteStep(c, item, user);
    assert added.tables.favorites[fav] == 1;
    assert added.tables.favorites - multiset{fav} == c.favorites;
  }

  /** Because adding does not check for an existing row, adding the same
      favourite twice leaves two rows, after which deleting it fails with
      MultipleObjectsReturned. */
  lemma AddTwiceBlocksDelete(c: Catalog, item: int, user: int)
    requires ItemExists(c, item) && user in c.users
    ensures var once := AddFavoriteStep(c, item, user);
      var twice := AddFavoriteStep(once.tables, item, user);
      twice.outcome.Pass?
      && DeleteFavoriteStep(twice.tables, item, user).outcome == Fail(MultipleObjectsReturned)
  {
    var fav := Favorite(user, item);
    var once := AddFavoriteStep(c, item, user);
    var twice := AddFavoriteStep(once.tables, item, user);
    assert twice.tables.favorites[fav] == c.favorites[fav] + 2;
  }

  /** `add_review` on the tables. */
  method AddReview(db: Database, text: string, rate: int, user: int, item: int, now: int)
    returns (out: Outcome<Error>)
    modifies db
    ensures var s := AddReviewStep(old(db.Tables()), text, rate, user, item, now);
      out == s.outcome && db.Tables() == s.tables
    ensures old(db.Valid()) ==> db.Valid()
  {
    if !RateInRange(rate) {
      return Fail(InvalidForm);
    }
    if !ItemExists(db.Tables(), item) || user !in db.users {
      return Fail(IntegrityError);
    }
    db.reviews := db.reviews + [Review(user, item, text, rate, now)];
    return Pass;
  }

  /** `add_favorite` on the tables. */
  method AddFavorite(db: Database, item: int, user: int) returns (out: Outcome<Error>)
    modifies db
    ensures var s := AddFavoriteStep(old(db.Tables()), item, user);
      out == s.outcome && db.Tables() == s.tables
    ensures old(db.Valid()) ==> db.Valid()
  {
    if !ItemExists(db.Tables(), item) {
      return Fail(ItemDoesNotExist);
    }
    if user !in db.users {
      return Fail(UserDoesNotExist);
    }
    db.favorites := db.favorites + multiset{Favorite(user, item)};
    return Pass;
  }

  /** `delete_favorite` on the tables. */
  method DeleteFavorite(db: Database, item: int, user: int) returns (out: Outcome<Error>)
    modifies db
    ensures var s := DeleteFavoriteStep(old(db.Tables()), item, user);
      out == s.outcome && db.Tables() == s.tables
    ensures old(db.Valid()) ==> db.Valid()
  {
    if !ItemExists(db.Tables(), item) {
      return Fail(ItemDoesNotExist);
    }
    if user !in db.users {
      return Fail(UserDoesNotExist);
    }
    var fav := Favorite(user, item);
    if db.favorites[fav] == 0 {
      return Fail(FavoriteDoesNotExist);
    }
    if db.favorites[fav] > 1 {
      return Fail(MultipleObjectsReturned);
    }
    db.favorites := db.favorites - multiset{fav};
    return Pass;
  }
}
