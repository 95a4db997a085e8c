/** The cart data-access functions (`addToCart`, `getCartItems`, `removeFromCart`,
    `clearCart`, `updateCartItem`) as transformations of the in-memory store. */
module CartService {
  import opened Wrappers
  import opened Store
  import opened Seqs

  /** A cart row with its product embedded by the `products (*)` join (null when the product is gone). */
  datatype CartItem = CartItem(row: CartRow, product: Option<ProductRow>)

  /** Sum of the `quantity` column. */
  function SumQuantity(rows: seq<CartRow>): int {
    if |rows| == 0 then 0 else rows[0].quantity + SumQuantity(rows[1..])
  }

  /** The total quantity a user has in the cart table: what the cart badge counts. */
  function UserQuantity(rows: seq<CartRow>, u: UserId): int {
    SumQuantity(Filter(rows, CartOfUser(u)))
  }

  /** No two rows share a (user, product) pair: the invariant add-to-cart is meant to keep. */
  predicate UniquePairs(rows: seq<CartRow>) {
    forall i, j :: 0 <= i < j < |rows| ==>
      !(rows[i].userId == rows[j].userId && rows[i].productId == rows[j].productId)
  }

  /** The row rewrite of `update({ quantity }).eq('id', id)`. */
  function SetQuantityOf(id: RowId, quantity: int): CartRow -> CartRow {
    (row: CartRow) => if row.id == id then row.(quantity := quantity) else row
  }

  /** `updateCartItem(id, quantity)`: every row with that id gets the new quantity, nothing else
      changes; there is no lower bound on the quantity at this layer. */
  function UpdateCartItem(db: Db, id: RowId, quantity: int): (r: Db)
    ensures r.products == db.products && r.likes == db.likes && r.nextId == db.nextId
    ensures |r.cart| == |db.cart|
    ensures forall i :: 0 <= i < |db.cart| ==>
      r.cart[i].(quantity := 0) == db.cart[i].(quantity := 0)
    ensures forall i :: 0 <= i < |db.cart| ==>
      r.cart[i].quantity == (if db.cart[i].id == id then quantity else db.cart[i].quantity)
  {
    db.(cart := MapSeq(db.cart, SetQuantityOf(id, quantity)))
  }

  /** `addToCart(userId, productId, quantity = 1)`: look the (user, product) row up with
      `.single()`; when exactly one row matches, raise its quantity by `quantity`, otherwise
      insert a new row. Only the lookup's `data` is read, so a lookup whose request fails
      (`lookupFails`) also inserts. The row count grows exactly when the lookup did not
      return a single row. */
  function AddToCart(db: Db, u: UserId, p: RowId, lookupFails: bool, quantity: int := 1): (r: Db)
    ensures r.products == db.products && r.likes == db.likes
    ensures |r.cart| == |db.cart| + (if !lookupFails && |Filter(db.cart, CartOfPair(u, p))| == 1 then 0 else 1)
    ensures db.cart <= r.cart || |r.cart| == |db.cart|
  {
    match Lookup(Filter(db.cart, CartOfPair(u, p)), lookupFails)
    case Ok(existing) => UpdateCartItem(db, existing.id, existing.quantity + quantity)
    case Err(_) =>
      db.(cart := db.cart + [CartRow(db.nextId, u, p, quantity)], nextId := db.nextId + 1)
  }

  /** `getCartItems(userId)`: exactly the user's rows, in table order, each joined with its product. */
  function GetCartItems(db: Db, u: UserId): (r: seq<CartItem>)
    ensures |r| == |Filter(db.cart, CartOfUser(u))|
    ensures forall i :: 0 <= i < |r| ==> r[i].row.userId == u && r[i].row in db.cart
    ensures forall row :: row in db.cart && row.userId == u ==>
      exists i :: 0 <= i < |r| && r[i].row == row
    ensures forall i :: 0 <= i < |r| ==>
      (r[i].product.Some? ==> r[i].product.value in db.products
                              && r[i].product.value.id == r[i].row.productId)
    ensures forall i :: 0 <= i < |r| ==>
      (r[i].product.None? <==> forall k :: 0 <= k < |db.products| ==> db.products[k].id != r[i].row.productId)
  {
    var rows := Filter(db.cart, CartOfUser(u));
    var r := seq(|rows|, i requires 0 <= i < |rows| => CartItem(rows[i], ProductById(db.products, rows[i].productId)));
    assert forall i :: 0 <= i < |rows| ==> r[i].row == rows[i];
    r
  }

  /** `removeFromCart(id)`: the row with that id is deleted and every other row stays. */
  function RemoveFromCart(db: Db, id: RowId): (r: Db)
    ensures r.products == db.products && r.likes == db.likes && r.nextId == db.nextId
    ensures forall row :: row in r.cart <==> row in db.cart && row.id != id
    ensures |r.cart| <= |db.cart|
  {
    db.(cart := Filter(db.cart, CartIdIsNot(id)))
  }

  /** `clearCart(userId)`: every row of that user is deleted and no other row. */
  function ClearCart(db: Db, u: UserId): (r: Db)
    ensures r.products == db.products && r.likes == db.likes && r.nextId == db.nextId
    ensures forall row :: row in r.cart <==> row in db.cart && row.userId != u
    ensures Filter(r.cart, CartOfUser(u)) == []
  {
    var rest := Filter(db.cart, CartNotOfUser(u));
    FilterKeepsNone(rest, CartOfUser(u));
    db.(cart := rest)
  }

  // ---------------------------------------------------------------------------
  // Properties of the cart operations

  /** The merge branch of add-to-cart, taken when the lookup answers with the single matching
      row: that row has its quantity raised by `quantity`, it stays the only row of the pair, and every row with another id is unchanged. */
  lemma AddToCartMergesExistingRow(db: Db, u: UserId, p: RowId, quantity: int)
    requires |Filter(db.cart, CartOfPair(u, p))| == 1
    ensures var e := Filter(db.cart, CartOfPair(u, p))[0];
      var r := AddToCart(db, u, p, false, quantity);
      && r.nextId == db.nextId
      && Filter(r.cart, CartOfPair(u, p)) == [e.(quantity := e.quantity + quantity)]
      && (forall i :: 0 <= i < |db.cart| && db.cart[i].id != e.id ==> r.cart[i] == db.cart[i])
  {
    var e := Filter(db.cart, CartOfPair(u, p))[0];
    assert Filter(db.cart, CartOfPair(u, p)) == [e];
    var f := SetQuantityOf(e.id, e.quantity + quantity);
    assert Lookup(Filter(db.cart, CartOfPair(u, p)), false) == Ok(e);
    assert AddToCart(db, u, p, false, quantity).cart == MapSeq(db.cart, f);
    FilterMapCommute(db.cart, f, CartOfPair(u, p));
    assert MapSeq([e], f) == [f(e)];
  }

  /** The insert branch of add-to-cart: with no row for the pair, exactly one new row with the
      given user, product and quantity and a fresh id is appended and the old rows stay as a prefix. */
  lemma AddToCartInsertsNewRow(db: Db, u: UserId, p: RowId, lookupFails: bool, quantity: int)
    requires Filter(db.cart, CartOfPair(u, p)) == []
    ensures var r := AddToCart(db, u, p, lookupFails, quantity);
      && r.cart[..|db.cart|] == db.cart
      && Filter(r.cart, CartOfPair(u, p)) == [CartRow(db.nextId, u, p, quantity)]
      && r.nextId == db.nextId + 1
  {
    var row := CartRow(db.nextId, u, p, quantity);
    FilterAppend(db.cart, [row], CartOfPair(u, p));
    var r := AddToCart(db, u, p, lookupFails, quantity);
    assert r.cart == db.cart + [row];
    assert r.cart[..|db.cart|] == db.cart;
  }

  /** When duplicates already exist, `.single()` fails and add-to-cart inserts yet another row. */
  lemma AddToCartWithDuplicatesInserts(db: Db, u: UserId, p: RowId, lookupFails: bool, quantity: int)
    requires |Filter(db.cart, CartOfPair(u, p))| >= 2
    ensures |Filter(AddToCart(db, u, p, lookupFails, quantity).cart, CartOfPair(u, p))|
         == |Filter(db.cart, CartOfPair(u, p))| + 1
  {
    var row := CartRow(db.nextId, u, p, quantity);
    FilterAppend(db.cart, [row], CartOfPair(u, p));
  }

  /** Add-to-cart keeps ids fresh and unique, whether or not its lookup answers. */
  lemma AddToCartPreservesWellFormed(db: Db, u: UserId, p: RowId, lookupFails: bool, quantity: int)
    requires WellFormed(db)
    ensures WellFormed(AddToCart(db, u, p, lookupFails, quantity))
  {
    var r := AddToCart(db, u, p, lookupFails, quantity);
    if lookupFails || |Filter(db.cart, CartOfPair(u, p))| != 1 {
      assert r.cart == db.cart + [CartRow(db.nextId, u, p, quantity)];
    }
  }

  lemma {:induction false} UniquePairsHaveAtMostOneRow(rows: seq<CartRow>, u: UserId, p: RowId)
    requires UniquePairs(rows)
    ensures |Filter(rows, CartOfPair(u, p))| <= 1
  {
    if |rows| > 0 {
      if CartOfPair(u, p)(rows[0]) {
        assert forall i :: 0 <= i < |rows[1..]| ==> !CartOfPair(u, p)(rows[1..][i]) by {
          forall i | 0 <= i < |rows[1..]|
            ensures !CartOfPair(u, p)(rows[1..][i])
          {
            assert rows[1..][i] == rows[i + 1];
          }
        }
        FilterKeepsNone(rows[1..], CartOfPair(u, p));
      } else {
        UniquePairsHaveAtMostOneRow(rows[1..], u, p);
      }
    }
  }

  /** Add-to-cart on a table with at most one row per (user, product) keeps that invariant
      whenever its lookup answers. */
  lemma AddToCartKeepsPairsUnique(db: Db, u: UserId, p: RowId, lookupFails: bool, quantity: int)
    requires UniquePairs(db.cart)
    ensures !lookupFails ==> UniquePairs(AddToCart(db, u, p, lookupFails, quantity).cart)
  {
    UniquePairsHaveAtMostOneRow(db.cart, u, p);
    var r := AddToCart(db, u, p, lookupFails, quantity);
    if !lookupFails && |Filter(db.cart, CartOfPair(u, p))| == 0 {
      var row := CartRow(db.nextId, u, p, quantity);
      assert r.cart == db.cart + [row];
      forall i | 0 <= i < |db.cart|
        ensures !(db.cart[i].userId == u && db.cart[i].productId == p)
      {
        assert db.cart[i] in db.cart;
      }
    }
  }

  /** A lookup that fails while the pair already has its row makes add-to-cart insert a second
      row for the pair: the invariant is lost and the old row keeps its quantity. */
  lemma FailedLookupDuplicatesRow(db: Db, u: UserId, p: RowId, quantity: int)
    requires |Filter(db.cart, CartOfPair(u, p))| == 1
    ensures var r := AddToCart(db, u, p, true, quantity);
      && Filter(r.cart, CartOfPair(u, p))
         == Filter(db.cart, CartOfPair(u, p)) + [CartRow(db.nextId, u, p, quantity)]
      && !UniquePairs(r.cart)
  {
    var e := Filter(db.cart, CartOfPair(u, p))[0];
    var row := CartRow(db.nextId, u, p, quantity);
    var r := AddToCart(db, u, p, true, quantity);
    assert r.cart == db.cart + [row];
    FilterAppend(db.cart, [row], CartOfPair(u, p));
    assert e in db.cart;
    var i :| 0 <= i < |db.cart| && db.cart[i] == e;
    assert r.cart[i] == e && r.cart[|db.cart|] == row;
  }

  /** The store after a series of add-to-cart calls for one pair, one after the other, each of
      whose lookups answers. */
  function AddSerially(db: Db, u: UserId, p: RowId, quantities: seq<int>): Db
    decreases |quantities|
  {
    if |quantities| == 0 then db
    else AddSerially(AddToCart(db, u, p, false, quantities[0]), u, p, quantities[1..])
  }

  function Sum(xs: seq<int>): int {
    if |xs| == 0 then 0 else xs[0] + Sum(xs[1..])
  }

  /** Serial add-to-cart calls for one (user, product) whose lookups all answer, starting from at
      most one row, leave exactly one row whose quantity is the sum of all the quantities added. */
  lemma {:induction false} SerialAddsAccumulate(db: Db, u: UserId, p: RowId, quantities: seq<int>, base: int)
    requires |Filter(db.cart, CartOfPair(u, p))| <= 1
    requires |Filter(db.cart, CartOfPair(u, p))| == 1 ==> Filter(db.cart, CartOfPair(u, p))[0].quantity == base
    requires |Filter(db.cart, CartOfPair(u, p))| == 0 ==> base == 0
    requires |quantities| > 0
    ensures var rows := Filter(AddSerially(db, u, p, quantities).cart, CartOfPair(u, p));
      |rows| == 1 && rows[0].quantity == base + Sum(quantities)
    decreases |quantities|
  {
    var next := AddToCart(db, u, p, false, quantities[0]);
    if |Filter(db.cart, CartOfPair(u, p))| == 1 {
      AddToCartMergesExistingRow(db, u, p, quantities[0]);
    } else {
      AddToCartInsertsNewRow(db, u, p, false, quantities[0]);
    }
    var rows := Filter(next.cart, CartOfPair(u, p));
    assert |rows| == 1 && rows[0].quantity == base + quantities[0];
    if |quantities| > 1 {
      SerialAddsAccumulate(next, u, p, quantities[1..], base + quantities[0]);
    }
  }

  lemma {:induction false} SumQuantityAppend(a: seq<CartRow>, b: seq<CartRow>)
    ensures SumQuantity(a + b) == SumQuantity(a) + SumQuantity(b)
  {
    if |a| == 0 {
      assert a + b == b;
    } else {
      assert (a + b)[1..] == a[1..] + b;
      SumQuantityAppend(a[1..], b);
    }
  }

  /** Raising one row's quantity by `delta` raises the sum by `delta` when the id is unique. */
  lemma {:induction false} SumQuantityAfterSet(rows: seq<CartRow>, k: int, quantity: int)
    requires 0 <= k < |rows|
    requires UniqueCartIds(rows)
    ensures SumQuantity(MapSeq(rows, SetQuantityOf(rows[k].id, quantity)))
         == SumQuantity(rows) - rows[k].quantity + quantity
  {
    var f := SetQuantityOf(rows[k].id, quantity);
    assert MapSeq(rows, f)[1..] == MapSeq(rows[1..], f);
    if k == 0 {
      UnchangedWithoutId(rows[1..], rows[0].id, quantity);
    } else {
      SumQuantityAfterSet(rows[1..], k - 1, quantity);
    }
  }

  lemma {:induction false} UnchangedWithoutId(rows: seq<CartRow>, id: RowId, quantity: int)
    requires forall i :: 0 <= i < |rows| ==> rows[i].id != id
    ensures MapSeq(rows, SetQuantityOf(id, quantity)) == rows
  {
  }

  /** Whatever branch it takes, and whether or not its lookup answers, add-to-cart raises
      the user's total quantity by exactly the added quantity and leaves every other user's
      total alone: the cart badge moves by `quantity`. */
  lemma AddToCartRaisesUserQuantity(db: Db, u: UserId, p: RowId, lookupFails: bool, quantity: int, v: UserId)
    requires WellFormed(db)
    ensures UserQuantity(AddToCart(db, u, p, lookupFails, quantity).cart, v)
         == UserQuantity(db.cart, v) + (if v == u then quantity else 0)
  {
    if !lookupFails && |Filter(db.cart, CartOfPair(u, p))| == 1 {
      MergeRaisesUserQuantity(db, u, p, quantity, v);
    } else {
      var row := CartRow(db.nextId, u, p, quantity);
      assert AddToCart(db, u, p, lookupFails, quantity).cart == db.cart + [row];
      FilterAppend(db.cart, [row], CartOfUser(v));
      SumQuantityAppend(Filter(db.cart, CartOfUser(v)), Filter([row], CartOfUser(v)));
    }
  }

  lemma MergeRaisesUserQuantity(db: Db, u: UserId, p: RowId, quantity: int, v: UserId)
    requires WellFormed(db)
    requires |Filter(db.cart, CartOfPair(u, p))| == 1
    ensures UserQuantity(AddToCart(db, u, p, false, quantity).cart, v)
         == UserQuantity(db.cart, v) + (if v == u then quantity else 0)
  {
    var r := AddToCart(db, u, p, false, quantity);
    var e := Filter(db.cart, CartOfPair(u, p))[0];
    assert e in db.cart;
    var f := SetQuantityOf(e.id, e.quantity + quantity);
    assert r.cart == MapSeq(db.cart, f);
    FilterMapCommute(db.cart, f, CartOfUser(v));
    var mine := Filter(db.cart, CartOfUser(v));
    if v == u {
      assert e in mine;
      var j :| 0 <= j < |mine| && mine[j] == e;
      FilterKeepsUniqueBy(db.cart, CartRowId, CartOfUser(v));
      SumQuantityAfterSet(mine, j, e.quantity + quantity);
    } else {
      forall i | 0 <= i < |mine|
        ensures mine[i].id != e.id
      {
        assert mine[i] in db.cart;
        var a :| 0 <= a < |db.cart| && db.cart[a] == mine[i];
      }
      UnchangedWithoutId(mine, e.id, e.quantity + quantity);
    }
  }

  /** Clearing one user's cart leaves every other user's rows exactly as they were, in order. */
  lemma ClearCartSparesOtherUsers(db: Db, u: UserId, v: UserId)
    requires v != u
    ensures Filter(ClearCart(db, u).cart, CartOfUser(v)) == Filter(db.cart, CartOfUser(v))
  {
    FilterFilter(db.cart, CartNotOfUser(u), CartOfUser(v), CartOfUser(v));
  }
}
