/** The navigation bar's cart badge: the summed quantity of the signed-in user's cart rows,
    0 when signed out, shown only when positive. */
module Navbar {
  import opened Wrappers
  import opened Store
  import opened Seqs
  import opened CartService

  /** The badge count and whether the count query was sent. */
  datatype Badge = Badge(count: int, queried: bool)

  /** `data.reduce((sum, item) => sum + item.quantity, 0)`, as a left-to-right loop. */
  method SumQuantities(rows: seq<CartRow>) returns (total: int)
    ensures total == SumQuantity(rows)
  {
    total := 0;
    var i := 0;
    while i < |rows|
      invariant 0 <= i <= |rows|
      invariant total == SumQuantity(rows[..i])
    {
      assert rows[..i + 1] == rows[..i] + [rows[i]];
      SumQuantityAppend(rows[..i], [rows[i]]);
      total := total + rows[i].quantity;
      i := i + 1;
    }
    assert rows[..|rows|] == rows;
  }

  /** What one run of the cart-state effect leaves: without a user (or with an empty id) the
      count becomes 0 and no query is sent; otherwise the user's quantities are summed, and a
      failed query leaves the count as it was. */
  function CountRead(db: Db, userId: Option<UserId>, count: int, fails: bool): (r: Badge)
    ensures userId.None? || userId.value == "" ==> r == Badge(0, false)
    ensures userId.Some? && userId.value != "" ==> r.queried
    ensures userId.Some? && userId.value != "" && fails ==> r.count == count
    ensures userId.Some? && userId.value != "" && !fails ==> r.count == UserQuantity(db.cart, userId.value)
  {
    if userId.None? || userId.value == "" then Badge(0, false)
    else if fails then Badge(count, true)
    else Badge(UserQuantity(db.cart, userId.value), true)
  }

  /** The cart-state effect, summing the rows with the reduce loop. */
  method CartState(db: Db, userId: Option<UserId>, count: int, fails: bool) returns (r: Badge)
    ensures r == CountRead(db, userId, count, fails)
  {
    if userId.None? || userId.value == "" {
      return Badge(0, false);
    }
    if fails {
      return Badge(count, true);
    }
    var total := SumQuantities(Filter(db.cart, CartOfUser(userId.value)));
    return Badge(total, true);
  }

  /** The badge after the navigation bar renders for `userId`. The bar is mounted once for the
      whole app and the effect depends only on the user id, so it runs again only when the id
      differs from the one it last ran with; otherwise the count stays as it was and nothing is
      queried, however the cart table has changed since. */
  function OnRender(db: Db, lastUserId: Option<UserId>, userId: Option<UserId>, b: Badge, fails: bool): (r: Badge)
    ensures userId == lastUserId ==> r.count == b.count && !r.queried
    ensures userId != lastUserId ==> r == CountRead(db, userId, b.count, fails)
  {
    if userId == lastUserId then b.(queried := false)
    else CountRead(db, userId, b.count, fails)
  }

  predicate BadgeShown(b: Badge) {
    b.count > 0
  }

  /** Quantities that are all positive give a positive sum exactly when there is a row. */
  lemma {:induction false} PositiveRowsCount(rows: seq<CartRow>)
    requires forall i :: 0 <= i < |rows| ==> rows[i].quantity >= 1
    ensures SumQuantity(rows) >= |rows|
    ensures SumQuantity(rows) > 0 <==> |rows| > 0
  {
    if |rows| > 0 {
      PositiveRowsCount(rows[1..]);
    }
  }

  /** After checkout clears the user's cart, the count query reads 0 on its next run, so the
      badge would be hidden once the effect runs again. */
  lemma NextCountAfterCheckout(db: Db, u: UserId, count: int)
    ensures UserQuantity(ClearCart(db, u).cart, u) == 0
    ensures !BadgeShown(CountRead(ClearCart(db, u), Some(u), count, false))
  {
  }

  /** After one unit is added, whether or not the add's lookup answered, the count query reads
      one more on its next run, and with positive quantities in the cart that count is shown. */
  lemma NextCountAfterAdd(db: Db, u: UserId, p: RowId, lookupFails: bool, count: int)
    requires WellFormed(db) && u != ""
    requires forall row :: row in db.cart ==> row.quantity >= 1
    ensures CountRead(AddToCart(db, u, p, lookupFails, 1), Some(u), count, false).count == UserQuantity(db.cart, u) + 1
    ensures BadgeShown(CountRead(AddToCart(db, u, p, lookupFails, 1), Some(u), count, false))
  {
    AddToCartRaisesUserQuantity(db, u, p, lookupFails, 1, u);
    var mine := Filter(db.cart, CartOfUser(u));
    assert forall i :: 0 <= i < |mine| ==> mine[i] in mine;
    PositiveRowsCount(mine);
  }

  /** The badge is not re-read after a checkout by the same user: a badge that showed the
      user's positive count keeps showing it on the next render while the cart table holds
      none of the user's rows. */
  lemma BadgeStaleAfterCheckout(db: Db, u: UserId, b: Badge, fails: bool)
    requires b.count == UserQuantity(db.cart, u) && b.count > 0
    ensures var shown := OnRender(ClearCart(db, u), Some(u), Some(u), b, fails);
            && BadgeShown(shown)
            && shown.count != UserQuantity(ClearCart(db, u).cart, u)
  {
  }
}
