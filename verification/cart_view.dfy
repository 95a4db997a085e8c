/** The cart total both the cart page and the checkout page show: the left fold of
    `total + (item.products?.price || 0) * item.quantity` from 0. */
module CartView {
  import opened Wrappers
  import opened Store
  import opened Seqs
  import opened CartService

  /** The price an item counts at: 0 when the joined product is missing. */
  function PriceOf(item: CartItem): real {
    if item.product.Some? then item.product.value.price else 0.0
  }

  function LineTotal(item: CartItem): real {
    PriceOf(item) * item.row.quantity as real
  }

  /** `items.reduce((total, item) => total + line(item), 0)`, folding from the left. */
  function Total(items: seq<CartItem>): (t: real)
    ensures |items| == 0 ==> t == 0.0
  {
    if |items| == 0 then 0.0 else Total(items[..|items| - 1]) + LineTotal(items[|items| - 1])
  }

  lemma {:induction false} TotalAppend(a: seq<CartItem>, b: seq<CartItem>)
    ensures Total(a + b) == Total(a) + Total(b)
    decreases |b|
  {
    if |b| == 0 {
      assert a + b == a;
    } else {
      assert (a + b)[..|a + b| - 1] == a + b[..|b| - 1];
      TotalAppend(a, b[..|b| - 1]);
    }
  }

  /** The total adds up the line of every item: one item at a time from the front. */
  lemma TotalFromFront(items: seq<CartItem>)
    requires |items| > 0
    ensures Total(items) == LineTotal(items[0]) + Total(items[1..])
  {
    TotalAppend([items[0]], items[1..]);
    assert [items[0]] + items[1..] == items;
  }

  /** Items whose product is missing contribute nothing. */
  lemma {:induction false} TotalWithoutProducts(items: seq<CartItem>)
    requires forall i :: 0 <= i < |items| ==> items[i].product.None?
    ensures Total(items) == 0.0
  {
    if |items| > 0 {
      TotalWithoutProducts(items[..|items| - 1]);
    }
  }

  /** With non-negative prices and quantities the total is non-negative. */
  lemma {:induction false} TotalNonNegative(items: seq<CartItem>)
    requires forall i :: 0 <= i < |items| ==> PriceOf(items[i]) >= 0.0 && items[i].row.quantity >= 0
    ensures Total(items) >= 0.0
  {
    if |items| > 0 {
      TotalNonNegative(items[..|items| - 1]);
    }
  }

  /** The total splits around any item. */
  lemma TotalSplitAt(items: seq<CartItem>, k: int)
    requires 0 <= k < |items|
    ensures Total(items) == Total(items[..k]) + LineTotal(items[k]) + Total(items[k + 1..])
  {
    TotalAppend(items[..k + 1], items[k + 1..]);
    assert items == items[..k + 1] + items[k + 1..];
    assert items[..k + 1][..k] == items[..k];
  }

  /** The item with its row's quantity replaced. */
  function WithQuantity(item: CartItem, quantity: int): CartItem {
    item.(row := item.row.(quantity := quantity))
  }

  /** How much an item's line moves when its quantity becomes `quantity`. */
  function LineDelta(item: CartItem, quantity: int): real {
    PriceOf(item) * (quantity - item.row.quantity) as real
  }

  lemma LineAfterQuantityChange(item: CartItem, quantity: int)
    ensures LineTotal(WithQuantity(item, quantity)) == LineTotal(item) + LineDelta(item, quantity)
  {
    var p := PriceOf(item);
    var a := quantity;
    var b := item.row.quantity;
    assert p * a as real == p * b as real + p * (a - b) as real;
  }

  /** Changing one item's quantity moves the total by its price times the change. */
  lemma TotalAfterQuantityChange(items: seq<CartItem>, k: int, quantity: int)
    requires 0 <= k < |items|
    ensures Total(items[k := WithQuantity(items[k], quantity)]) == Total(items) + LineDelta(items[k], quantity)
  {
    var item := items[k];
    var changed := items[k := WithQuantity(item, quantity)];
    TotalSplitAt(items, k);
    TotalSplitAt(changed, k);
    assert changed[..k] == items[..k];
    assert changed[k + 1..] == items[k + 1..];
    LineAfterQuantityChange(item, quantity);
  }
}
