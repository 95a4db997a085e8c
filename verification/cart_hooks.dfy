/** The cart hooks: the cart query keys, the cart query function, the four cart mutations
    with their success invalidation, and the set of product ids in the cached cart. */
module CartHooks {
  import opened Wrappers
  import opened Store
  import opened CartService
  import opened QueryCache

  /** `cartKeys.all`. */
  const CartAll: Key := [Str("cart")]

  /** `cartKeys.list(userId)`. */
  function CartList(u: UserId): (k: Key)
    ensures Extends(k, CartAll) && |k| == |CartAll| + 2
    ensures k[|CartAll|..] == [Str("list"), Str(u)]
  {
    CartAll + [Str("list"), Str(u)]
  }

  /** Only the list of the same user matches a user's cart-list filter. */
  lemma CartListMatchesOnlyItsUser(u: UserId, v: UserId)
    ensures Extends(CartList(v), CartList(u)) <==> u == v
  {
    if Extends(CartList(v), CartList(u)) {
      assert CartList(v)[2] == CartList(u)[2];
    }
  }

  /** The cart query's key: a missing user id becomes `''`. */
  function CartQueryKey(userId: Option<UserId>): Key {
    CartList(userId.GetOr(""))
  }

  /** With the in-memory store's reply, the cart query yields exactly the user's rows. */
  lemma CartQueryReadsStore(db: Db, u: UserId)
    requires u != ""
    ensures var r := ListQueryFn(Some(u), Response(Some(GetCartItems(db, u)), None));
            && r.Ok?
            && (forall row :: row in db.cart && row.userId == u <==> exists k :: 0 <= k < |r.value| && r.value[k].row == row)
  {
    var items := GetCartItems(db, u);
    forall row | row in db.cart && row.userId == u
      ensures exists k :: 0 <= k < |items| && items[k].row == row
    {
    }
  }

  /** The cart mutations, each with the variables its hook is called with. */
  datatype CartMutation =
    | AddToCart(userId: UserId, productId: RowId, quantity: int)
    | UpdateQuantity(cartItemId: RowId, quantity: int, userId: UserId)
    | RemoveFromCart(cartItemId: RowId, userId: UserId)
    | ClearCart(userId: UserId)

  /** The user whose cart list the mutation's `onSuccess` invalidates. */
  function MutationUser(m: CartMutation): UserId {
    match m
    case AddToCart(u, _, _) => u
    case UpdateQuantity(_, _, u) => u
    case RemoveFromCart(_, u) => u
    case ClearCart(u) => u
  }

  /** The store after the mutation's service call succeeds; `lookupFails` is the outcome of
      the lookup an add makes before it writes. */
  function ApplyCartMutation(db: Db, m: CartMutation, lookupFails: bool): Db {
    match m
    case AddToCart(u, p, q) => CartService.AddToCart(db, u, p, lookupFails, q)
    case UpdateQuantity(id, q, _) => UpdateCartItem(db, id, q)
    case RemoveFromCart(id, _) => CartService.RemoveFromCart(db, id)
    case ClearCart(u) => CartService.ClearCart(db, u)
  }

  /** The store and cache after a cart mutation settles.  */
  datatype Settled = Settled(db: Db, cache: Cache, failed: bool)

  /** `mutate(m)`: when the service call fails the error is thrown and nothing changes;
      otherwise the store is updated and `onSuccess` invalidates the user's cart list. */
  function RunCartMutation(db: Db, cache: Cache, m: CartMutation, lookupFails: bool, fails: bool): (r: Settled)
    ensures r.failed == fails
    ensures fails ==> r.db == db && r.cache == cache
    ensures !fails ==> r.cache.Keys == cache.Keys
    ensures !fails ==> forall k :: k in cache ==>
      (if Extends(k, CartList(MutationUser(m))) then r.cache[k] == cache[k].(stale := true) else r.cache[k] == cache[k])
  {
    if fails then Settled(db, cache, true)
    else Settled(ApplyCartMutation(db, m, lookupFails), Invalidate(cache, CartList(MutationUser(m))), false)
  }

  /** A settled cart mutation leaves every product query and every other user's cart list
      exactly as it was. */
  lemma CartMutationSparesOtherQueries(db: Db, cache: Cache, m: CartMutation, lookupFails: bool, fails: bool, v: UserId)
    requires v != MutationUser(m)
    ensures var r := RunCartMutation(db, cache, m, lookupFails, fails);
            forall k :: k in cache && (Extends(k, CartList(v)) || !Extends(k, CartAll)) ==> r.cache[k] == cache[k]
  {
    var u := MutationUser(m);
    forall k | k in cache && (Extends(k, CartList(v)) || !Extends(k, CartAll))
      ensures !Extends(k, CartList(u))
    {
      if Extends(k, CartList(u)) && !Extends(k, CartList(v)) {
        ExtendsTransitive(k, CartList(u), CartAll);
      }
    }
  }

  /** `useCartProductIds(userId)`: the product ids of the cached cart items; empty while the
      cart query holds no data. */
  function CartProductIds(cache: Cache, userId: Option<UserId>): (r: set<RowId>)
    ensures var k := CartQueryKey(userId);
            (k !in cache || !cache[k].data.Some? || !cache[k].data.value.CartItems?) ==> r == {}
    ensures var k := CartQueryKey(userId);
            k in cache && cache[k].data.Some? && cache[k].data.value.CartItems? ==>
            forall p :: p in r <==> exists i :: 0 <= i < |cache[k].data.value.items| && cache[k].data.value.items[i].row.productId == p
  {
    var k := CartQueryKey(userId);
    if k in cache && cache[k].data.Some? && cache[k].data.value.CartItems? then
      var items := cache[k].data.value.items;
      set i | 0 <= i < |items| :: items[i].row.productId
    else {}
  }

  /** Once the cart query holds the store's items for `u`, the id set is exactly the products
      `u` has in the cart. */
  lemma CartProductIdsOfFetchedCart(db: Db, cache: Cache, u: UserId)
    requires CartList(u) in cache && cache[CartList(u)].data == Some(CartItems(GetCartItems(db, u)))
    ensures forall p :: p in CartProductIds(cache, Some(u)) <==> exists row :: row in db.cart && row.userId == u && row.productId == p
  {
    var items := GetCartItems(db, u);
    forall p | (exists row :: row in db.cart && row.userId == u && row.productId == p)
      ensures p in CartProductIds(cache, Some(u))
    {
      var row :| row in db.cart && row.userId == u && row.productId == p;
      var i :| 0 <= i < |items| && items[i].row == row;
    }
  }
}
