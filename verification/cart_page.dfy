/** The cart page's local state and its handlers: loading the cart, removing an item,
    and the optimistic quantity update with its revert by refetch. */
module CartPage {
  import opened Wrappers
  import opened Store
  import opened Seqs
  import opened CartService
  import opened CartView

  /** The page state: the items shown, whether the first load is pending, the row being removed. */
  datatype PageState = PageState(items: seq<CartItem>, loading: bool, removing: Option<RowId>)

  /** The store and page after a handler, and whether an update request was issued. */
  datatype Step = Step(db: Db, page: PageState, issued: bool)

  const Initial: PageState := PageState([], true, None)

  /** `fetchCart`: without a user nothing happens; a read that comes back replaces the items
      with the user's cart, a failed read (`readFails`, no data) keeps the items shown, and
      either way the loading flag ends cleared. */
  function FetchCart(page: PageState, db: Db, user: Option<UserId>, readFails: bool): (r: PageState)
    ensures user.None? ==> r == page
    ensures user.Some? && !readFails ==> r.items == GetCartItems(db, user.value) && !r.loading && r.removing == page.removing
    ensures user.Some? && readFails ==> r == page.(loading := false)
  {
    match user
    case None => page
    case Some(u) =>
      if readFails then page.(loading := false)
      else page.(items := GetCartItems(db, u), loading := false)
  }

  /** `handleRemoveItem(id)`: delete the row; refetch only on success (the refetch itself may
      fail, `refetchFails`); `removing` is cleared. */
  function HandleRemoveItem(page: PageState, db: Db, user: Option<UserId>, id: RowId, fails: bool, refetchFails: bool): (r: Step)
    ensures r.page.removing.None? && r.issued
    ensures fails ==> r.db == db && r.page.items == page.items && r.page.loading == page.loading
    ensures !fails ==> r.db == RemoveFromCart(db, id)
    ensures !fails && user.Some? && !refetchFails ==> forall i :: 0 <= i < |r.page.items| ==> r.page.items[i].row.id != id
    ensures !fails && refetchFails ==> r.page.items == page.items
  {
    if fails then Step(db, page.(removing := None), true)
    else
      var db' := RemoveFromCart(db, id);
      Step(db', FetchCart(page, db', user, refetchFails).(removing := None), true)
  }

  /** The optimistic patch: `items.map(item => item.id === id ? { ...item, quantity } : item)`. */
  function PatchQuantity(items: seq<CartItem>, id: RowId, quantity: int): (r: seq<CartItem>)
    ensures |r| == |items|
    ensures forall i :: 0 <= i < |items| && items[i].row.id != id ==> r[i] == items[i]
    ensures forall i :: 0 <= i < |items| && items[i].row.id == id ==>
      r[i] == WithQuantity(items[i], quantity)
  {
    seq(|items|, i requires 0 <= i < |items| =>
      if items[i].row.id == id then WithQuantity(items[i], quantity) else items[i])
  }

  /** `handleUpdateQuantity(id, quantity)`: below 1 nothing happens and no request is made;
      otherwise the list is patched at once, the row is updated, and on error the list is
      replaced by a fresh fetch, unless that fetch fails too and the patch stays. */
  function HandleUpdateQuantity(page: PageState, db: Db, user: Option<UserId>, id: RowId, quantity: int, fails: bool, refetchFails: bool): (r: Step)
    ensures quantity < 1 ==> r == Step(db, page, false)
    ensures quantity >= 1 ==> r.issued
    ensures quantity >= 1 && !fails ==> r.db == UpdateCartItem(db, id, quantity) && r.page.items == PatchQuantity(page.items, id, quantity)
    ensures quantity >= 1 && fails ==> r.db == db
    ensures quantity >= 1 && fails && user.Some? && !refetchFails ==> r.page.items == GetCartItems(db, user.value)
    ensures quantity >= 1 && fails && refetchFails ==> r.page.items == PatchQuantity(page.items, id, quantity)
  {
    if quantity < 1 then Step(db, page, false)
    else
      var patched := page.(items := PatchQuantity(page.items, id, quantity));
      if fails then Step(db, FetchCart(patched, db, user, refetchFails), true)
      else Step(UpdateCartItem(db, id, quantity), patched, true)
  }

  /** The decrement button asks for one less and is disabled at quantity 1 or below. */
  predicate DecrementEnabled(item: CartItem) {
    item.row.quantity > 1
  }

  /** An enabled decrement never asks for less than 1, so it always reaches the store. */
  lemma DecrementStaysPositive(page: PageState, db: Db, user: Option<UserId>, item: CartItem, fails: bool, refetchFails: bool)
    requires DecrementEnabled(item)
    ensures HandleUpdateQuantity(page, db, user, item.row.id, item.row.quantity - 1, fails, refetchFails).issued
  {
  }

  /** The optimistic patch of the fetched list is exactly what a fetch after the update returns. */
  lemma PatchMatchesServer(db: Db, u: UserId, id: RowId, quantity: int)
    ensures PatchQuantity(GetCartItems(db, u), id, quantity) == GetCartItems(UpdateCartItem(db, id, quantity), u)
  {
    var f := SetQuantityOf(id, quantity);
    FilterMapCommute(db.cart, f, CartOfUser(u));
    var before := GetCartItems(db, u);
    var after := GetCartItems(UpdateCartItem(db, id, quantity), u);
    var rows := Filter(db.cart, CartOfUser(u));
    var rows' := Filter(UpdateCartItem(db, id, quantity).cart, CartOfUser(u));
    assert rows' == MapSeq(rows, f);
    forall i | 0 <= i < |after|
      ensures after[i] == PatchQuantity(before, id, quantity)[i]
    {
      assert after[i].row == rows'[i];
      assert before[i].row == rows[i];
    }
  }

  /** When the page shows the user's cart, it still shows it after any quantity update that
      succeeded or was reverted by a refetch that came back. */
  lemma UpdateKeepsPageTrue(page: PageState, db: Db, u: UserId, id: RowId, quantity: int, fails: bool, refetchFails: bool)
    requires page.items == GetCartItems(db, u)
    ensures var r := HandleUpdateQuantity(page, db, Some(u), id, quantity, fails, refetchFails);
            !(quantity >= 1 && fails && refetchFails) ==> r.page.items == GetCartItems(r.db, u)
  {
    if quantity >= 1 && !fails {
      PatchMatchesServer(db, u, id, quantity);
    }
  }

  /** When the update and the reverting fetch both fail, the page keeps a quantity the store
      never took: a shown row whose quantity differs from the requested one is displayed with
      the new quantity while the store still holds the old one. */
  lemma FailedRevertShowsStaleQuantity(page: PageState, db: Db, u: UserId, k: int, quantity: int)
    requires page.items == GetCartItems(db, u)
    requires 0 <= k < |page.items| && quantity >= 1 && page.items[k].row.quantity != quantity
    ensures var r := HandleUpdateQuantity(page, db, Some(u), page.items[k].row.id, quantity, true, true);
            && r.db == db
            && r.page.items[k].row.quantity == quantity
            && r.page.items != GetCartItems(r.db, u)
  {
    var r := HandleUpdateQuantity(page, db, Some(u), page.items[k].row.id, quantity, true, true);
    assert r.page.items[k] == WithQuantity(page.items[k], quantity);
    assert r.page.items[k] != page.items[k];
  }

  /** Total after a successful update of a shown item: moved by its price times the change. */
  lemma UpdateMovesTotal(page: PageState, db: Db, user: Option<UserId>, k: int, quantity: int)
    requires 0 <= k < |page.items| && quantity >= 1
    requires forall i :: 0 <= i < |page.items| && i != k ==> page.items[i].row.id != page.items[k].row.id
    ensures var item := page.items[k];
            var r := HandleUpdateQuantity(page, db, user, item.row.id, quantity, false, false);
            Total(r.page.items) == Total(page.items) + LineDelta(item, quantity)
  {
    var item := page.items[k];
    var patched := PatchQuantity(page.items, item.row.id, quantity);
    assert patched == page.items[k := WithQuantity(item, quantity)];
    TotalAfterQuantityChange(page.items, k, quantity);
  }
}
