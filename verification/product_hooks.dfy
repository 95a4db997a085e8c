/** The product hooks: the product query keys, the three query functions, the success
    effects of the create, update and delete mutations, and the like mutation with its
    optimistic patch of every cached list and its rollback on error. */
module ProductHooks {
  import opened Wrappers
  import opened Store
  import opened Seqs
  import opened ProductService
  import opened QueryCache
  import opened OptimisticLike
  import CartHooks

  /** `productKeys.all`. */
  const ProductsAll: Key := [Str("products")]

  /** `productKeys.lists()`. */
  const ProductLists: Key := ProductsAll + [Str("list")]

  /** `productKeys.details()`. */
  const ProductDetails: Key := ProductsAll + [Str("detail")]

  /** The category element of a list key: `undefined` when no category was passed. */
  function CategoryPart(category: Option<string>): KeyPart {
    match category
    case None => Undefined
    case Some(c) => Str(c)
  }

  /** `productKeys.list(userId, page, category)`. */
  function ProductList(u: UserId, page: int, category: Option<string>): (k: Key)
    ensures Extends(k, ProductLists) && |k| == |ProductLists| + 3
  {
    ProductLists + [Str(u), Num(page), CategoryPart(category)]
  }

  /** `productKeys.detail(id)`. */
  function ProductDetail(id: RowId): (k: Key)
    ensures Extends(k, ProductDetails)
  {
    ProductDetails + [Id(id)]
  }

  /** `productKeys.byShareId(shareId)`. */
  function ProductByShareId(shareId: string): (k: Key)
    ensures Extends(k, ProductsAll)
  {
    ProductsAll + [Str("share"), Str(shareId)]
  }

  /** The key layout: every list key extends `lists()` and `all`; detail and share keys extend
      `all` but not `lists()`; no product key extends the cart prefix. */
  lemma KeyStructure(u: UserId, page: int, category: Option<string>, id: RowId, shareId: string)
    ensures Extends(ProductList(u, page, category), ProductsAll)
    ensures Extends(ProductDetail(id), ProductsAll) && !Extends(ProductDetail(id), ProductLists)
    ensures !Extends(ProductByShareId(shareId), ProductLists)
    ensures !Extends(ProductList(u, page, category), CartHooks.CartAll)
    ensures !Extends(ProductDetail(id), CartHooks.CartAll)
    ensures !Extends(ProductByShareId(shareId), CartHooks.CartAll)
  {
    ExtendsTransitive(ProductList(u, page, category), ProductLists, ProductsAll);
    assert ProductDetail(id)[1] == Str("detail");
    assert ProductByShareId(shareId)[1] == Str("share");
    assert ProductList(u, page, category)[0] == Str("products");
    assert ProductDetail(id)[0] == Str("products");
    assert ProductByShareId(shareId)[0] == Str("products");
  }

  /** Different list arguments give different list keys. */
  lemma ProductListInjective(u: UserId, page: int, category: Option<string>, u': UserId, page': int, category': Option<string>)
    requires ProductList(u, page, category) == ProductList(u', page', category')
    ensures u == u' && page == page' && category == category'
  {
    var k := ProductList(u, page, category);
    assert k[2] == Str(u) && k[3] == Num(page) && k[4] == CategoryPart(category);
    var k' := ProductList(u', page', category');
    assert k'[2] == Str(u') && k'[3] == Num(page') && k'[4] == CategoryPart(category');
  }

  // ---------------------------------------------------------------------------
  // Query functions

  /** The `{data, error}` pair `getUserProducts` hands back for a listing. */
  function ListingReply(r: Result<Listing, Error>): Response<seq<Product>> {
    match r
    case Ok(listing) => Response(Some(listing.items), None)
    case Err(e) => Response(None, Some(e))
  }

  /** For a signed-in user and a page from 1 on, the list query yields the page of twelve the
      listing computes. */
  lemma UserProductsQueryReadsStore(db: Db, u: UserId, likesFail: bool, page: int, category: Option<string>)
    requires u != "" && page >= 1
    ensures var listing := GetUserProducts(db, u, likesFail, page, PageSize, category);
            && listing.Ok?
            && ListQueryFn(Some(u), ListingReply(listing)) == Ok(listing.value.items)
  {
  }

  /** The detail and share query functions: `null` without an id, the error is thrown,
      otherwise the row. */
  function SingleQueryFn<K(==)>(id: Option<K>, missing: K, reply: Response<ProductRow>): (r: Result<Option<ProductRow>, Error>)
    ensures (id.None? || id.value == missing) ==> r == Ok(None)
    ensures id.Some? && id.value != missing ==>
      (r.Err? <==> reply.error.Some?)
      && (r.Err? ==> r.error == reply.error.value)
      && (r.Ok? ==> r.value == reply.data)
  {
    if id.None? || id.value == missing then Ok(None)
    else if reply.error.Some? then Err(reply.error.value)
    else Ok(reply.data)
  }

  /** The `{data, error}` pair of a `.single()` lookup. */
  function SingleReply(r: Result<ProductRow, Error>): Response<ProductRow> {
    match r
    case Ok(row) => Response(Some(row), None)
    case Err(e) => Response(None, Some(e))
  }

  /** The share query reads the product with that share id, and fails when none or several
      rows carry it. */
  lemma ShareQueryReadsStore(db: Db, shareId: string)
    requires shareId != ""
    ensures var r := SingleQueryFn(Some(shareId), "", SingleReply(GetProductByShareId(db, shareId)));
            && (r.Ok? ==> r.value.Some? && r.value.value in db.products && r.value.value.shareId == shareId)
            && (r == Err(NoRows) <==> forall row :: row in db.products ==> row.shareId != shareId)
  {
  }

  // ---------------------------------------------------------------------------
  // Mutations

  /** `useCreateProduct` and `useDeleteProduct` `onSuccess`: every list is invalidated. */
  function ListsInvalidated(cache: Cache): (r: Cache)
    ensures r.Keys == cache.Keys
    ensures forall k :: k in cache ==> r[k].data == cache[k].data
    ensures forall k :: k in cache && Extends(k, ProductLists) ==> r[k].stale
    ensures forall k :: k in cache && !Extends(k, ProductLists) ==> r[k] == cache[k]
  {
    Invalidate(cache, ProductLists)
  }

  /** `useUpdateProduct` `onSuccess`: the returned product is written under its detail key,
      then every list is invalidated. */
  function UpdateSucceeded(cache: Cache, returned: Option<ProductRow>): (r: Cache)
    ensures r.Keys == cache.Keys + (if returned.Some? then {ProductDetail(returned.value.id)} else {})
    ensures returned.Some? ==>
      (ProductDetail(returned.value.id) in r && r[ProductDetail(returned.value.id)] == Query(Some(Detail(returned)), false))
    ensures forall k :: k in r && Extends(k, ProductLists) ==> r[k].stale
    ensures forall k :: (k in cache && !Extends(k, ProductLists)
      && (returned.None? || k != ProductDetail(returned.value.id))) ==> r[k] == cache[k]
  {
    var written := if returned.Some? then SetQueryData(cache, ProductDetail(returned.value.id), Some(Detail(returned))) else cache;
    if returned.Some? then
      KeyStructure("", 0, None, returned.value.id, "");
      Invalidate(written, ProductLists)
    else
      Invalidate(written, ProductLists)
  }

  /** The like mutation's patch of one cached list: undefined data stays undefined. */
  function LikePatch(id: RowId): Option<Data> -> Option<Data> {
    (d: Option<Data>) =>
      match d
      case Some(Products(items)) => Some(Products(PatchList(items, id)))
      case other => other
  }

  /** The store and cache after a like mutation settles, with the reported like state. */
  datatype LikeSettled = LikeSettled(db: Db, cache: Cache, liked: Option<bool>)

  /** `useToggleLike`: `onMutate` snapshots every list and patches them all; a failing call
      restores the snapshot, a succeeding one toggles the like (through a lookup that may fail,
      `lookupFails`) and keeps the patch. */
  function ToggleLikeMutation(db: Db, cache: Cache, u: UserId, p: RowId, lookupFails: bool, fails: bool): (r: LikeSettled)
    ensures fails ==> r.db == db && r.liked.None?
    ensures fails ==> r.cache.Keys == cache.Keys && forall k :: k in cache ==> r.cache[k].data == cache[k].data
    ensures !fails ==> r.db == ToggleProductLike(db, u, p, lookupFails).db
                       && r.liked == Some(ToggleProductLike(db, u, p, lookupFails).liked)
    ensures r.cache.Keys == cache.Keys
    ensures forall k :: k in cache && !Extends(k, ProductLists) ==> r.cache[k] == cache[k]
    ensures !fails ==> forall k :: k in cache && Extends(k, ProductLists) ==>
      match cache[k].data
      case Some(Products(items)) => r.cache[k].data == Some(Products(PatchList(items, p)))
      case other => r.cache[k].data == other
  {
    var snapshot := Snapshot(cache, ProductLists);
    var patched := SetQueriesData(cache, ProductLists, LikePatch(p));
    if fails then
      RestoreUndoesSetQueriesData(cache, ProductLists, LikePatch(p));
      LikeSettled(db, Restore(patched, snapshot), None)
    else
      var t := ToggleProductLike(db, u, p, lookupFails);
      LikeSettled(t.db, patched, Some(t.liked))
  }

  /** A list cache that showed the store before a successful like mutation whose lookup
      answered shows the store after it, provided the user had at most one like row for the
      product. */
  lemma LikeMutationKeepsListsTrue(db: Db, cache: Cache, u: UserId, p: RowId, k: Key)
    requires k in cache && Extends(k, ProductLists)
    requires cache[k].data.Some? && cache[k].data.value.Products?
    requires forall i :: 0 <= i < |cache[k].data.value.products| ==> ShowsStore(cache[k].data.value.products[i], db, u)
    requires |Filter(db.likes, LikeOfPair(u, p))| <= 1
    ensures var r := ToggleLikeMutation(db, cache, u, p, false, false);
            && r.cache[k].data.Some? && r.cache[k].data.value.Products?
            && forall i :: 0 <= i < |r.cache[k].data.value.products| ==> ShowsStore(r.cache[k].data.value.products[i], r.db, u)
  {
    var r := ToggleLikeMutation(db, cache, u, p, false, false);
    var items := cache[k].data.value.products;
    var after := r.cache[k].data.value.products;
    assert after == PatchList(items, p);
    forall i | 0 <= i < |after|
      ensures ShowsStore(after[i], r.db, u)
    {
      var item := items[i];
      if item.row.id == p {
        PatchAgreesWithServer(db, u, item);
        assert after[i] == FlipLike(p)(item);
      } else {
        assert after[i] == item;
        assert LikeRow(u, item.row.id) != LikeRow(u, p);
        assert Filter(r.db.likes, LikeOfProduct(item.row.id)) == Filter(db.likes, LikeOfProduct(item.row.id)) by {
          ToggleSparesOtherProducts(db, u, p, false, item.row.id);
        }
      }
    }
  }
}
