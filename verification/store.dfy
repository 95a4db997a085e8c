/** The three remote tables (`products`, `cart_items`, `product_likes`) as in-memory
    sequences of rows, with the store's id generator and the `{data, error}` reply
    shape every data-access call returns. */
module Store {
  import opened Wrappers
  import opened Seqs

  /** The identity provider's user id: an opaque owner key. */
  type UserId = string

  /** A row id the store generates on insert (a uuid in the hosted store). */
  type RowId = nat

  /** A row of `products`. `createdAt` is the insert timestamp, absent when null. */
  datatype ProductRow = ProductRow(
    id: RowId,
    userId: UserId,
    name: string,
    description: string,
    price: real,
    shareId: string,
    imageUrls: seq<string>,
    createdAt: Option<int>,
    category: Option<string>,
    tags: Option<seq<string>>)

  /** A row of `cart_items`. */
  datatype CartRow = CartRow(id: RowId, userId: UserId, productId: RowId, quantity: int)

  /** A row of `product_likes`: the pair is the whole row. */
  datatype LikeRow = LikeRow(userId: UserId, productId: RowId)

  /** The store: the three tables in row order, and the next id it will hand out. */
  datatype Db = Db(products: seq<ProductRow>, cart: seq<CartRow>, likes: seq<LikeRow>, nextId: RowId)

  /** Why a call failed: `.single()` saw zero or several rows, or the call itself failed. */
  datatype Error = NoRows | MultipleRows | Failed(message: string)

  /** The `{data, error}` pair every data-access call returns. */
  datatype Response<T> = Response(data: Option<T>, error: Option<Error>)

  /** Every generated id is below `nextId` and no two rows of one table share an id. */
  predicate WellFormed(db: Db) {
    && (forall i :: 0 <= i < |db.products| ==> db.products[i].id < db.nextId)
    && (forall i :: 0 <= i < |db.cart| ==> db.cart[i].id < db.nextId)
    && UniqueProductIds(db.products)
    && UniqueCartIds(db.cart)
  }

  function CartRowId(row: CartRow): RowId {
    row.id
  }

  function ProductRowId(row: ProductRow): RowId {
    row.id
  }

  predicate UniqueCartIds(rows: seq<CartRow>) {
    UniqueBy(rows, CartRowId)
  }

  predicate UniqueProductIds(rows: seq<ProductRow>) {
    UniqueBy(rows, ProductRowId)
  }

  /** `.single()`: the row when exactly one row matched, an error otherwise. */
  function Single<T>(matches: seq<T>): (r: Result<T, Error>)
    ensures r.Ok? <==> |matches| == 1
    ensures r.Ok? ==> r.value == matches[0]
    ensures r.Err? ==> r.error == (if |matches| == 0 then NoRows else MultipleRows)
  {
    if |matches| == 1 then Ok(matches[0])
    else if |matches| == 0 then Err(NoRows)
    else Err(MultipleRows)
  }

  /** A `.single()` lookup whose caller reads only `data`: when the request itself fails the
      reply carries an error and no row, so the caller sees "not found" whatever the table holds. */
  function Lookup<T>(matches: seq<T>, requestFails: bool): (r: Result<T, Error>)
    ensures r.Ok? <==> !requestFails && |matches| == 1
    ensures r.Ok? ==> r.value == matches[0]
    ensures requestFails ==> r.Err? && r.error.Failed?
  {
    if requestFails then Err(Failed("request failed")) else Single(matches)
  }

  /** The embedded `products (*)` join: the product row with the given id, if any. */
  function ProductById(products: seq<ProductRow>, id: RowId): (r: Option<ProductRow>)
    ensures r.Some? ==> r.value in products && r.value.id == id
    ensures r.None? <==> forall i :: 0 <= i < |products| ==> products[i].id != id
  {
    if |products| == 0 then None
    else if products[0].id == id then Some(products[0])
    else ProductById(products[1..], id)
  }

  // Equality filters, each defined once so every use denotes the same function value.

  function CartOfUser(u: UserId): CartRow -> bool {
    (row: CartRow) => row.userId == u
  }

  function CartNotOfUser(u: UserId): CartRow -> bool {
    (row: CartRow) => row.userId != u
  }

  function CartOfPair(u: UserId, p: RowId): CartRow -> bool {
    (row: CartRow) => row.userId == u && row.productId == p
  }

  function CartIdIsNot(id: RowId): CartRow -> bool {
    (row: CartRow) => row.id != id
  }

  function LikeOfPair(u: UserId, p: RowId): LikeRow -> bool {
    (like: LikeRow) => like.userId == u && like.productId == p
  }

  function LikeNotOfPair(u: UserId, p: RowId): LikeRow -> bool {
    (like: LikeRow) => !(like.userId == u && like.productId == p)
  }

  function LikeOfProduct(p: RowId): LikeRow -> bool {
    (like: LikeRow) => like.productId == p
  }

  function ProductOfOwner(u: UserId): ProductRow -> bool {
    (row: ProductRow) => row.userId == u
  }

  function ProductIdIsNot(id: RowId): ProductRow -> bool {
    (row: ProductRow) => row.id != id
  }

  function ProductOfShareId(shareId: string): ProductRow -> bool {
    (row: ProductRow) => row.shareId == shareId
  }

  function ProductOfId(id: RowId): ProductRow -> bool {
    (row: ProductRow) => row.id == id
  }
}
