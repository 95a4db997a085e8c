/** The dashboard page's state machine: loading a page of the user's products and the ids of
    the products already in the cart, the previous/next/category controls, and the like,
    add-to-cart, delete and create handlers. Every handler is applied atomically. */
module Dashboard {
  import opened Wrappers
  import opened Store
  import opened Seqs
  import opened CartService
  import opened ProductService
  import opened OptimisticLike

  /** The page state. `liking`, `addingToCart` and `deleting` hold the product a request is in
      flight for; `formOpen` is the create modal. */
  datatype DashState = DashState(
    products: seq<Product>,
    loading: bool,
    page: int,
    hasMore: bool,
    category: string,
    liking: Option<RowId>,
    cartProductIds: set<RowId>,
    addingToCart: Option<RowId>,
    deleting: Option<RowId>,
    formOpen: bool)

  const Initial: DashState := DashState([], true, 1, false, AllCategories, None, {}, None, None, false)

  /** The store and page after a handler, and whether it sent a request to the store. */
  datatype DashStep = DashStep(db: Db, state: DashState, issued: bool)

  /** The listing the page asks for, both of its queries answering: its page of twelve in
      its category. */
  function PageListing(db: Db, u: UserId, st: DashState): Result<Listing, Error> {
    GetUserProducts(db, u, false, st.page, PageSize, Some(st.category))
  }

  /** How the product read of a fetch comes back: both queries answer, the listing request
      fails, or only the second (like) query of the listing fails. */
  datatype ProductsRead = ProductsAnswered | ProductsFail | LikesFail

  /** The page shows exactly the store's listing for its page and category, and `hasMore`
      says whether that page was full. */
  predicate Current(st: DashState, db: Db, u: UserId) {
    && st.page >= 1
    && st.products == PageListing(db, u, st).value.items
    && (st.hasMore <==> |st.products| == PageSize)
  }

  /** The products `u` has at least one cart row for. */
  function CartIds(db: Db, u: UserId): set<RowId> {
    set row | row in db.cart && row.userId == u :: row.productId
  }

  // ---------------------------------------------------------------------------
  // Loading

  /** `fetchProducts`: without a user nothing happens; a listing that comes back replaces the
      products and sets `hasMore` to whether all twelve slots were filled; a failed request
      (`ProductsFail`) or a failed listing leaves them as they were. A failed like query
      (`LikesFail`) still yields the listing, with every product marked not liked. The loading
      flag ends cleared. */
  function FetchProducts(st: DashState, db: Db, user: Option<UserId>, read: ProductsRead): (r: DashState)
    ensures user.None? ==> r == st
    ensures user.Some? && st.page >= 1 && read == ProductsAnswered ==> Current(r, db, user.value) && !r.loading
    ensures user.Some? && (st.page < 1 || read == ProductsFail) ==> r == st.(loading := false)
    ensures user.Some? && st.page >= 1 && read == LikesFail ==>
      var shown := PageListing(db, user.value, st).value.items;
      && |r.products| == |shown|
      && (forall k :: 0 <= k < |shown| ==> r.products[k] == shown[k].(hasLiked := Some(false)))
      && (r.hasMore <==> |shown| == PageSize)
    ensures user.Some? ==> r.page == st.page && r.category == st.category
    ensures user.Some? ==> r == st.(products := r.products, hasMore := r.hasMore, loading := false)
  {
    match user
    case None => st
    case Some(u) =>
      if read == ProductsFail then st.(loading := false)
      else
        match GetUserProducts(db, u, read == LikesFail, st.page, PageSize, Some(st.category))
        case Ok(listing) =>
          st.(products := listing.items, hasMore := |listing.items| == PageSize, loading := false)
        case Err(_) => st.(loading := false)
  }

  /** `fetchCart`: without a user nothing happens; a read that comes back replaces the id set
      with the product ids of the user's cart items, and a failed read (`readFails`) keeps the
      old set. */
  function FetchCart(st: DashState, db: Db, user: Option<UserId>, readFails: bool): (r: DashState)
    ensures user.None? || readFails ==> r == st
    ensures user.Some? && !readFails ==> r == st.(cartProductIds := CartIds(db, user.value))
  {
    match user
    case None => st
    case Some(u) =>
      if readFails then st
      else
        var items := GetCartItems(db, u);
        var ids := set i | 0 <= i < |items| :: items[i].row.productId;
        assert ids == CartIds(db, u) by {
          forall p | p in CartIds(db, u) ensures p in ids {
            var row :| row in db.cart && row.userId == u && row.productId == p;
            var i :| 0 <= i < |items| && items[i].row == row;
          }
        }
        st.(cartProductIds := ids)
  }

  /** The effect that runs whenever the user, the page or the category changes: the products
      are fetched, then the cart ids; each read may fail on its own. */
  function Refresh(st: DashState, db: Db, user: Option<UserId>, products: ProductsRead, cartFails: bool): (r: DashState)
    ensures user.Some? && st.page >= 1 && products == ProductsAnswered ==> Current(r, db, user.value)
    ensures user.Some? && !cartFails ==> r.cartProductIds == CartIds(db, user.value)
    ensures user.Some? && products == ProductsFail ==> r.products == st.products && r.hasMore == st.hasMore
    ensures user.Some? && cartFails ==> r.cartProductIds == st.cartProductIds
    ensures user.None? ==> r == st
  {
    FetchCart(FetchProducts(st, db, user, products), db, user, cartFails)
  }

  /** A fetch whose like query fails shows a product the user has liked as not liked, so the
      page is not current. */
  lemma FailedLikeQueryShowsUnliked(st: DashState, db: Db, u: UserId, k: int)
    requires st.page >= 1
    requires 0 <= k < |PageListing(db, u, st).value.items|
    requires LikeRow(u, PageListing(db, u, st).value.items[k].row.id) in db.likes
    ensures var r := FetchProducts(st, db, Some(u), LikesFail);
            && r.products[k].hasLiked == Some(false)
            && !Current(r, db, u)
  {
    var r := FetchProducts(st, db, Some(u), LikesFail);
    assert PageListing(db, u, r).value.items[k].hasLiked == Some(true);
  }

  /** A disabled next button is sound: when the page was not full, the next page is empty. */
  lemma NoMoreMeansNextPageEmpty(st: DashState, db: Db, u: UserId)
    requires Current(st, db, u) && !NextEnabled(st)
    ensures GetUserProducts(db, u, false, st.page + 1, PageSize, Some(st.category)) == Ok(Listing([], false))
  {
    ShortPageIsLast(db, u, false, Some(st.category), PageSize, st.page);
  }

  // ---------------------------------------------------------------------------
  // Pagination and category

  function Max(a: int, b: int): int {
    if a >= b then a else b
  }

  /** The previous button is disabled on page 1: exactly where a click would change nothing. */
  predicate PreviousEnabled(st: DashState): (r: bool)
    ensures r <==> Previous(st) != st
  {
    st.page != 1
  }

  /** The next button is disabled when the last fetch was not full. */
  predicate NextEnabled(st: DashState) {
    st.hasMore
  }

  /** The controls are rendered only when the page has products. */
  predicate ControlsShown(st: DashState) {
    |st.products| > 0
  }

  /** `setPage(p => Math.max(1, p - 1))`. */
  function Previous(st: DashState): (r: DashState)
    ensures r.page >= 1
    ensures st.page > 1 ==> r.page == st.page - 1
    ensures st.page <= 1 ==> r.page == 1
    ensures r == st.(page := r.page)
  {
    st.(page := Max(1, st.page - 1))
  }

  /** `setPage(p => p + 1)`. */
  function Next(st: DashState): (r: DashState)
    ensures r.page == st.page + 1
    ensures r == st.(page := r.page)
  {
    st.(page := st.page + 1)
  }

  /** The category select: the category changes and the page goes back to 1. */
  function ChangeCategory(st: DashState, category: string): (r: DashState)
    ensures r.page == 1 && r.category == category
    ensures r == st.(page := 1, category := category)
  {
    st.(page := 1, category := category)
  }

  /** From a page from 1 on, the controls never reach a page below 1, an enabled previous
      followed by next comes back, and next followed by previous always does. */
  lemma NavigationStaysOnValidPages(st: DashState, category: string)
    requires st.page >= 1
    ensures Previous(st).page >= 1 && Next(st).page >= 1 && ChangeCategory(st, category).page >= 1
    ensures PreviousEnabled(st) ==> Next(Previous(st)).page == st.page
    ensures Previous(Next(st)).page == st.page
    ensures !PreviousEnabled(st) ==> Previous(st) == st
  {
  }

  /** Walking the controls and then refreshing shows the store's page for where the controls
      landed, whenever the product read comes back. */
  lemma NavigationThenRefreshIsCurrent(st: DashState, db: Db, u: UserId, category: string, cartFails: bool)
    requires st.page >= 1
    ensures Current(Refresh(Previous(st), db, Some(u), ProductsAnswered, cartFails), db, u)
    ensures Current(Refresh(Next(st), db, Some(u), ProductsAnswered, cartFails), db, u)
    ensures Current(Refresh(ChangeCategory(st, category), db, Some(u), ProductsAnswered, cartFails), db, u)
  {
  }

  /** A first page holding exactly twelve products enables next although nothing follows:
      after next and a refresh, page 2 is empty, so the controls are not rendered and the
      user has no previous button to go back with, although previous would be enabled. */
  lemma FullLastPageStrandsUser(st: DashState, db: Db, u: UserId, cartFails: bool)
    requires Current(st, db, u) && st.page == 1
    requires |Ordered(db, u, Some(st.category))| == PageSize
    ensures NextEnabled(st) && ControlsShown(st)
    ensures var r := Refresh(Next(st), db, Some(u), ProductsAnswered, cartFails);
            && r.page == 2 && r.products == []
            && !ControlsShown(r) && PreviousEnabled(r) && !NextEnabled(r)
  {
    FullPageMayBeLast(db, u, false, Some(st.category), PageSize);
  }

  // ---------------------------------------------------------------------------
  // Like

  /** `handleToggleLike(productId)`: ignored without a user or while a like request is in
      flight; otherwise the list is patched at once, the toggle is sent (its lookup may fail,
      `lookupFails`), and on error the products are fetched again (a fetch that may itself
      fail, `refetch`). The in-flight marker ends cleared. */
  function HandleToggleLike(st: DashState, db: Db, user: Option<UserId>, p: RowId,
                            lookupFails: bool, fails: bool, refetch: ProductsRead): (r: DashStep)
    ensures user.None? || st.liking.Some? ==> r == DashStep(db, st, false)
    ensures user.Some? && st.liking.None? ==> r.issued && r.state.liking.None?
    ensures user.Some? && st.liking.None? && !fails ==>
      r.db == ToggleProductLike(db, user.value, p, lookupFails).db && r.state == st.(products := PatchList(st.products, p))
    ensures user.Some? && st.liking.None? && fails ==>
      r.db == db && r.state == FetchProducts(st.(products := PatchList(st.products, p)), db, user, refetch)
  {
    if user.None? || st.liking.Some? then DashStep(db, st, false)
    else
      var patched := st.(products := PatchList(st.products, p), liking := Some(p));
      if fails then DashStep(db, FetchProducts(patched, db, user, refetch).(liking := None), true)
      else DashStep(ToggleProductLike(db, user.value, p, lookupFails).db, patched.(liking := None), true)
  }

  /** While a like request is in flight, another like click changes nothing and sends nothing. */
  lemma LikeIgnoredWhileInFlight(st: DashState, db: Db, user: Option<UserId>, p: RowId,
                                 lookupFails: bool, fails: bool, refetch: ProductsRead)
    requires st.liking.Some?
    ensures HandleToggleLike(st, db, user, p, lookupFails, fails, refetch) == DashStep(db, st, false)
  {
  }

  /** The listing reads only the product and like tables. */
  lemma ListingIgnoresCart(db: Db, db': Db, u: UserId, likesFail: bool, page: int, category: Option<string>)
    requires db'.products == db.products && db'.likes == db.likes
    ensures GetUserProducts(db', u, likesFail, page, PageSize, category) == GetUserProducts(db, u, likesFail, page, PageSize, category)
  {
    var a := GetUserProducts(db, u, likesFail, page, PageSize, category);
    var b := GetUserProducts(db', u, likesFail, page, PageSize, category);
    assert Ordered(db', u, category) == Ordered(db, u, category);
    if a.Ok? {
      assert |a.value.items| == |b.value.items|;
      forall k | 0 <= k < |a.value.items|
        ensures a.value.items[k] == b.value.items[k]
      {
        var x := a.value.items[k];
        var y := b.value.items[k];
        assert x == Product(x.row, x.likesCount, x.hasLiked);
        assert y == Product(y.row, y.likesCount, y.hasLiked);
      }
    }
  }

  /** A current page stays current through a like toggle, whether it succeeds with its lookup
      answering (the optimistic patch is exactly the new listing) or fails and the list is
      fetched again with both queries answering, provided the user had at most one like row
      for the product. */
  lemma ToggleKeepsPageCurrent(st: DashState, db: Db, u: UserId, p: RowId,
                               lookupFails: bool, fails: bool, refetch: ProductsRead)
    requires Current(st, db, u) && st.liking.None?
    requires |Filter(db.likes, LikeOfPair(u, p))| <= 1
    ensures var r := HandleToggleLike(st, db, Some(u), p, lookupFails, fails, refetch);
            (if fails then refetch == ProductsAnswered else !lookupFails) ==> Current(r.state, r.db, u)
  {
    var r := HandleToggleLike(st, db, Some(u), p, lookupFails, fails, refetch);
    if !fails && !lookupFails {
      var db' := r.db;
      var before := PageListing(db, u, st).value.items;
      var after := PageListing(db', u, st).value.items;
      assert Ordered(db', u, Some(st.category)) == Ordered(db, u, Some(st.category));
      assert |after| == |before|;
      var patched := PatchList(before, p);
      forall k | 0 <= k < |after|
        ensures patched[k] == after[k]
      {
        var item := before[k];
        assert after[k].row == item.row;
        assert ShowsStore(item, db, u);
        if item.row.id == p {
          PatchAgreesWithServer(db, u, item);
        } else {
          ToggleSparesOtherProducts(db, u, p, false, item.row.id);
          assert LikeRow(u, item.row.id) != LikeRow(u, p);
        }
        assert ShowsStore(patched[k], db', u);
        assert patched[k] == Product(after[k].row, after[k].likesCount, after[k].hasLiked);
      }
      assert patched == after;
    }
  }

  /** When the toggle and the fetch after it both fail, the page keeps the optimistic patch
      over a store that did not change, so a product of the page shows a like count the store
      does not have. */
  lemma FailedToggleLeavesPageStale(st: DashState, db: Db, u: UserId, k: int)
    requires Current(st, db, u) && st.liking.None?
    requires 0 <= k < |st.products|
    ensures var r := HandleToggleLike(st, db, Some(u), st.products[k].row.id, false, true, ProductsFail);
            && r.db == db
            && r.state.products[k].likesCount != st.products[k].likesCount
            && !Current(r.state, r.db, u)
  {
    var p := st.products[k].row.id;
    var r := HandleToggleLike(st, db, Some(u), p, false, true, ProductsFail);
    var item := st.products[k];
    assert r.state.products[k].likesCount == Some(if Liked(item) then CountOrZero(item) - 1 else CountOrZero(item) + 1);
    assert r.state.products[k] != PageListing(db, u, st).value.items[k];
  }

  /** A successful toggle whose lookup fails on a product the user liked once keeps the
      like and adds a second one, while the optimistic patch shows it unliked: the page is
      not current. */
  lemma FailedLookupLeavesPageStale(st: DashState, db: Db, u: UserId, k: int, refetch: ProductsRead)
    requires Current(st, db, u) && st.liking.None?
    requires 0 <= k < |st.products|
    requires |Filter(db.likes, LikeOfPair(u, st.products[k].row.id))| == 1
    ensures var r := HandleToggleLike(st, db, Some(u), st.products[k].row.id, true, false, refetch);
            && r.state.products[k].hasLiked == Some(false)
            && LikeRow(u, st.products[k].row.id) in r.db.likes
            && !Current(r.state, r.db, u)
  {
    var p := st.products[k].row.id;
    var t := ToggleProductLike(db, u, p, true);
    var r := HandleToggleLike(st, db, Some(u), p, true, false, refetch);
    assert r.db == t.db && LikeRow(u, p) in r.db.likes;
    assert LikeRow(u, p) in db.likes by {
      var f := Filter(db.likes, LikeOfPair(u, p));
      assert f[0] in f;
    }
    assert st.products[k].hasLiked == Some(true);
    assert r.state.products[k].hasLiked == Some(false);
    assert Ordered(r.db, u, Some(st.category)) == Ordered(db, u, Some(st.category));
    var after := PageListing(r.db, u, r.state).value.items;
    assert |after| == |st.products|;
    assert after[k].row == st.products[k].row;
    assert after[k].hasLiked == Some(true);
  }

  // ---------------------------------------------------------------------------
  // Add to cart

  /** The add-to-cart button is disabled while that product is being added or once it is
      in the cart. */
  predicate AddToCartEnabled(st: DashState, p: RowId) {
    st.addingToCart != Some(p) && p !in st.cartProductIds
  }

  /** `handleAddToCart(productId)`: ignored without a user; otherwise one unit is added (through
      a lookup that may fail, `lookupFails`), and on success the cart ids are fetched again (a
      read that may fail, `refetchFails`). */
  function HandleAddToCart(st: DashState, db: Db, user: Option<UserId>, p: RowId,
                           lookupFails: bool, fails: bool, refetchFails: bool): (r: DashStep)
    ensures user.None? ==> r == DashStep(db, st, false)
    ensures user.Some? ==> r.issued && r.state.addingToCart.None?
    ensures user.Some? && fails ==> r.db == db && r.state == st.(addingToCart := None)
    ensures user.Some? && !fails ==> r.db == AddToCart(db, user.value, p, lookupFails, 1)
    ensures user.Some? && !fails && !refetchFails ==>
      r.state == st.(addingToCart := None, cartProductIds := CartIds(r.db, user.value))
    ensures user.Some? && !fails && refetchFails ==> r.state == st.(addingToCart := None)
  {
    match user
    case None => DashStep(db, st, false)
    case Some(u) =>
      if fails then DashStep(db, st.(addingToCart := None), true)
      else
        var db' := AddToCart(db, u, p, lookupFails, 1);
        DashStep(db', FetchCart(st, db', user, refetchFails).(addingToCart := None), true)
  }

  /** After a successful add, whether or not its lookup answered, the product page is still
      current, and once the ids are read back the product is among them, so its button is
      disabled. */
  lemma AddedProductIsDisabled(st: DashState, db: Db, u: UserId, p: RowId, lookupFails: bool, refetchFails: bool)
    requires Current(st, db, u)
    ensures var r := HandleAddToCart(st, db, Some(u), p, lookupFails, false, refetchFails);
            && (!refetchFails ==> p in r.state.cartProductIds && !AddToCartEnabled(r.state, p))
            && Current(r.state, r.db, u)
  {
    var added := AddToCart(db, u, p, lookupFails, 1);
    AddedPairIsInCart(db, u, p, lookupFails, 1);
    ListingIgnoresCart(db, added, u, false, st.page, Some(st.category));
  }

  /** Whichever branch add-to-cart takes, the user then has a row for the product. */
  lemma AddedPairIsInCart(db: Db, u: UserId, p: RowId, lookupFails: bool, quantity: int)
    ensures p in CartIds(AddToCart(db, u, p, lookupFails, quantity), u)
  {
    var r := AddToCart(db, u, p, lookupFails, quantity);
    var matches := Filter(db.cart, CartOfPair(u, p));
    if !lookupFails && |matches| == 1 {
      AddToCartMergesExistingRow(db, u, p, quantity);
      var e := matches[0];
      var row := e.(quantity := e.quantity + quantity);
      assert row in Filter(r.cart, CartOfPair(u, p));
      assert row in r.cart && row.userId == u && row.productId == p;
    } else {
      var row := CartRow(db.nextId, u, p, quantity);
      assert r.cart == db.cart + [row];
      assert r.cart[|db.cart|] == row;
      assert row in r.cart;
    }
  }

  // ---------------------------------------------------------------------------
  // Delete and create

  /** The confirmed delete: the product is deleted and, on success, the products are fetched
      again (a read that may fail, `refetch`); the in-flight marker ends cleared. */
  function HandleDeleteProduct(st: DashState, db: Db, user: Option<UserId>, id: RowId, fails: bool, refetch: ProductsRead): (r: DashStep)
    ensures r.issued && r.state.deleting.None?
    ensures fails ==> r.db == db && r.state == st.(deleting := None)
    ensures !fails ==> r.db == DeleteProduct(db, id) && r.state == FetchProducts(st, r.db, user, refetch).(deleting := None)
  {
    if fails then DashStep(db, st.(deleting := None), true)
    else
      var db' := DeleteProduct(db, id);
      DashStep(db', FetchProducts(st.(deleting := Some(id)), db', user, refetch).(deleting := None), true)
  }

  /** After a successful delete whose refetch comes back the page is current and the deleted
      product is not on it. */
  lemma DeletedProductLeavesPage(st: DashState, db: Db, u: UserId, id: RowId)
    requires st.page >= 1
    ensures var r := HandleDeleteProduct(st, db, Some(u), id, false, ProductsAnswered);
            && Current(r.state, r.db, u)
            && forall k :: 0 <= k < |r.state.products| ==> r.state.products[k].row.id != id
  {
  }

  /** `handleCreateProduct(productData)`: ignored without a user; otherwise the product is
      created with the form's category and tags, and on success the modal closes and the
      products are fetched again (a read that may fail, `refetch`). */
  function HandleCreateProduct(st: DashState, db: Db, user: Option<UserId>, name: string, description: string,
                               price: real, imageUrls: seq<string>, category: string, tags: seq<string>,
                               random: seq<bv8>, now: int, fails: bool, refetch: ProductsRead): (r: DashStep)
    requires |random| == 10
    ensures user.None? ==> r == DashStep(db, st, false)
    ensures user.Some? ==> r.issued
    ensures user.Some? && fails ==> r.db == db && r.state == st
    ensures user.Some? && !fails ==>
      var created := CreateProduct(db, user.value, name, description, price, imageUrls, Some(category), Some(tags), random, now);
      r.db == created.db && !r.state.formOpen
      && r.state == FetchProducts(st, r.db, user, refetch).(formOpen := false)
  {
    match user
    case None => DashStep(db, st, false)
    case Some(u) =>
      if fails then DashStep(db, st, true)
      else
        var created := CreateProduct(db, u, name, description, price, imageUrls, Some(category), Some(tags), random, now);
        DashStep(created.db, FetchProducts(st.(formOpen := false), created.db, user, refetch), true)
  }

  /** A successful create whose refetch comes back leaves the page current over the store that
      now holds the new row. */
  lemma CreateKeepsPageCurrent(st: DashState, db: Db, u: UserId, name: string, description: string,
                               price: real, imageUrls: seq<string>, category: string, tags: seq<string>,
                               random: seq<bv8>, now: int)
    requires st.page >= 1 && |random| == 10
    ensures var r := HandleCreateProduct(st, db, Some(u), name, description, price, imageUrls, category, tags, random, now, false, ProductsAnswered);
            && Current(r.state, r.db, u)
            && exists row :: row in r.db.products && row.userId == u && IsShareId(row.shareId) && row.category == Some(category)
  {
    var created := CreateProduct(db, u, name, description, price, imageUrls, Some(category), Some(tags), random, now);
    assert created.product in created.db.products;
  }
}
