/** The checkout page: the four payment-field formatters, the load rule that sends an empty
    cart back to the cart page, and the checkout that clears the cart before completing. */
module Checkout {
  import opened Wrappers
  import opened Text
  import opened Store
  import opened Seqs
  import opened CartService
  import opened CartView

  // ---------------------------------------------------------------------------
  // Card number: digits only, a space after each full group of four followed by a digit.

  /** `val.replace(/(\d{4})(?=\d)/g, '$1 ')` on a digit string: the regex matches at offsets
      0, 4, 8, … as long as a digit follows the group. */
  function Group(d: string): (r: string)
    ensures |d| > 0 ==> |r| == |d| + (|d| - 1) / 4
    ensures |d| == 0 ==> r == ""
    ensures |d| > 0 ==> r[|r| - 1] == d[|d| - 1]
    decreases |d|
  {
    if |d| > 4 then d[..4] + " " + Group(d[4..]) else d
  }

  /** Grouping puts a space at every fifth position and nowhere else, when the input has none. */
  lemma {:induction false} GroupSpaces(d: string)
    requires AllDigits(d)
    ensures forall i :: 0 <= i < |Group(d)| ==> (Group(d)[i] == ' ' <==> i % 5 == 4)
    decreases |d|
  {
    if |d| > 4 {
      var rest := Group(d[4..]);
      GroupSpaces(d[4..]);
      var r := Group(d);
      assert r == d[..4] + " " + rest;
      forall i | 0 <= i < |r|
        ensures r[i] == ' ' <==> i % 5 == 4
      {
        if i >= 5 {
          assert r[i] == rest[i - 5];
          assert (i - 5) % 5 == i % 5;
        } else if i < 4 {
          assert r[i] == d[i] && IsDigit(d[i]);
        } else {
          assert r[i] == ' ';
        }
      }
    }
  }

  /** Every character of a grouped digit string is a digit or a space. */
  lemma {:induction false} GroupCharacters(d: string)
    requires AllDigits(d)
    ensures forall i :: 0 <= i < |Group(d)| ==> IsDigit(Group(d)[i]) || Group(d)[i] == ' '
    decreases |d|
  {
    if |d| > 4 {
      GroupCharacters(d[4..]);
      var rest := Group(d[4..]);
      var r := Group(d);
      assert r == d[..4] + " " + rest;
      forall i | 0 <= i < |r|
        ensures IsDigit(r[i]) || r[i] == ' '
      {
        if i >= 5 {
          assert r[i] == rest[i - 5];
          assert IsDigit(rest[i - 5]) || rest[i - 5] == ' ';
        } else if i < 4 {
          assert r[i] == d[i];
          assert IsDigit(d[i]);
        } else {
          assert r[i] == ' ';
        }
      }
    }
  }

  /** Dropping the spaces of a grouped digit string gives the digits back. */
  lemma {:induction false} GroupKeepsDigits(d: string)
    requires AllDigits(d)
    ensures Keep(Group(d), IsDigit) == d
    decreases |d|
  {
    if |d| > 4 {
      var rest := Group(d[4..]);
      GroupKeepsDigits(d[4..]);
      assert Group(d) == d[..4] + " " + rest;
      KeepAppend(d[..4] + " ", rest, IsDigit);
      KeepAppend(d[..4], " ", IsDigit);
      KeepWhenAllKept(d[..4], IsDigit);
      assert d == d[..4] + d[4..];
    } else {
      KeepWhenAllKept(d, IsDigit);
    }
  }

  /** The card-number field's `onChange`. */
  function FormatCardNumber(input: string): (r: string)
    ensures Keep(r, IsDigit) == Digits(input)
    ensures forall i :: 0 <= i < |r| ==> (r[i] == ' ' <==> i % 5 == 4)
    ensures forall i :: 0 <= i < |r| ==> IsDigit(r[i]) || r[i] == ' '
    ensures |r| == 0 || r[|r| - 1] != ' '
  {
    GroupSpaces(Digits(input));
    GroupCharacters(Digits(input));
    GroupKeepsDigits(Digits(input));
    Group(Digits(input))
  }

  /** Reformatting a formatted card number changes nothing. */
  lemma CardNumberIdempotent(input: string)
    ensures FormatCardNumber(FormatCardNumber(input)) == FormatCardNumber(input)
  {
  }

  // ---------------------------------------------------------------------------
  // Expiry: digits only; from two digits on, the month is clamped into 01..12 and a '/' follows it.

  function DigitValue(c: char): int {
    c as int - '0' as int
  }

  /** `parseInt(s.substring(0, 2))` for two leading digits. */
  function MonthValue(s: string): (m: int)
    requires |s| >= 2 && IsDigit(s[0]) && IsDigit(s[1])
    ensures 0 <= m <= 99
  {
    DigitValue(s[0]) * 10 + DigitValue(s[1])
  }

  /** The expiry field's `onChange`. */
  function FormatExpiry(input: string): (r: string)
    ensures var d := Digits(input); |d| < 2 ==> r == d
    ensures var d := Digits(input); |d| >= 2 ==>
      && |r| == |d| + 1 && r[2] == '/' && r[3..] == d[2..]
      && IsDigit(r[0]) && IsDigit(r[1]) && 1 <= MonthValue(r) <= 12
      && (MonthValue(d) > 12 ==> r[..2] == "12")
      && (MonthValue(d) == 0 ==> r[..2] == "01")
      && (1 <= MonthValue(d) <= 12 ==> r[..2] == d[..2])
  {
    var d := Digits(input);
    if |d| >= 2 then
      var month := MonthValue(d);
      var v := if month > 12 then "12" + d[2..] else if month == 0 then "01" + d[2..] else d;
      v[..2] + "/" + v[2..]
    else d
  }

  /** Reformatting a formatted expiry changes nothing: the slash is dropped with the non-digits
      and the clamped month is already in range. */
  lemma ExpiryIdempotent(input: string)
    ensures FormatExpiry(FormatExpiry(input)) == FormatExpiry(input)
  {
    var d := Digits(input);
    var r := FormatExpiry(input);
    if |d| >= 2 {
      assert r == r[..2] + "/" + r[3..];
      KeepAppend(r[..2] + "/", r[3..], IsDigit);
      KeepAppend(r[..2], "/", IsDigit);
      KeepWhenAllKept(r[..2], IsDigit);
      KeepWhenAllKept(r[3..], IsDigit);
      assert Digits(r) == r[..2] + r[3..];
    } else {
      KeepIdempotent(input, IsDigit);
    }
  }

  // ---------------------------------------------------------------------------
  // CVV and cardholder name

  /** The CVV field's `onChange`: digits only. */
  function FormatCvv(input: string): (r: string)
    ensures AllDigits(r)
    ensures forall c :: c in r <==> c in input && IsDigit(c)
  {
    Digits(input)
  }

  predicate IsNameChar(c: char) {
    IsAsciiLetter(c) || IsJsSpace(c)
  }

  /** The cardholder-name field's `onChange`: ASCII letters and `\s` only. */
  function FormatName(input: string): (r: string)
    ensures forall i :: 0 <= i < |r| ==> IsNameChar(r[i])
    ensures forall c :: c in r <==> c in input && IsNameChar(c)
  {
    Keep(input, IsNameChar)
  }

  /** The CVV and name filters leave already-filtered text alone. */
  lemma FiltersIdempotent(input: string)
    ensures FormatCvv(FormatCvv(input)) == FormatCvv(input)
    ensures FormatName(FormatName(input)) == FormatName(input)
  {
    KeepIdempotent(input, IsDigit);
    KeepIdempotent(input, IsNameChar);
  }

  // ---------------------------------------------------------------------------
  // Loading and checking out

  /** The page state: items, the loading flag, the processing and completed flags, and where the
      router was sent, if anywhere. */
  datatype CheckoutState = CheckoutState(items: seq<CartItem>, loading: bool, processing: bool, completed: bool, redirect: Option<string>)

  const Initial: CheckoutState := CheckoutState([], true, false, false, None)

  /** `fetchCart`: an empty cart sends the router to `/cart` and returns before the items or the
      loading flag are set; a non-empty cart becomes the items; a failed read (`readFails`, no
      data) only ends loading, with no items set and no redirect. */
  function LoadCheckout(st: CheckoutState, db: Db, user: Option<UserId>, readFails: bool): (r: CheckoutState)
    ensures user.None? ==> r == st
    ensures user.Some? && readFails ==> r == st.(loading := false)
    ensures user.Some? && !readFails && |GetCartItems(db, user.value)| == 0 ==> r == st.(redirect := Some("/cart"))
    ensures user.Some? && !readFails && |GetCartItems(db, user.value)| > 0 ==>
      r.items == GetCartItems(db, user.value) && !r.loading && r.redirect == st.redirect
  {
    match user
    case None => st
    case Some(u) =>
      if readFails then st.(loading := false)
      else
        var data := GetCartItems(db, u);
        if |data| == 0 then st.(redirect := Some("/cart"))
        else st.(items := data, loading := false)
  }

  /** A user with no cart rows is redirected and never sees items. */
  lemma EmptyCartRedirects(db: Db, u: UserId)
    requires forall row :: row in db.cart ==> row.userId != u
    ensures LoadCheckout(Initial, db, Some(u), false) == Initial.(redirect := Some("/cart"))
  {
    FilterKeepsNone(db.cart, CartOfUser(u));
  }

  /** A failed first read shows the payment form over an empty order and does not redirect,
      whatever the cart holds. */
  lemma FailedLoadShowsEmptyForm(db: Db, u: UserId)
    ensures var r := LoadCheckout(Initial, db, Some(u), true);
            !r.loading && r.items == [] && r.redirect.None? && Total(r.items) == 0.0
  {
  }

  /** `handleCheckout`: the user's cart is cleared, the error that `clearCart` returns is
      ignored (`fails` leaves the store as it was), and the order is marked completed either
      way. */
  datatype Checked = Checked(db: Db, state: CheckoutState)

  function HandleCheckout(st: CheckoutState, db: Db, user: Option<UserId>, fails: bool): (r: Checked)
    ensures r.state == st.(processing := false, completed := true)
    ensures user.None? || fails ==> r.db == db
    ensures user.Some? && !fails ==> r.db == ClearCart(db, user.value)
  {
    match user
    case None => Checked(db, st.(processing := false, completed := true))
    case Some(u) =>
      if fails then Checked(db, st.(processing := false, completed := true))
      else Checked(ClearCart(db, u), st.(processing := false, completed := true))
  }

  /** After a checkout whose delete went through, the user's cart reads empty, its total is 0,
      and every other user's rows are as they were. */
  lemma CheckoutEmptiesCart(st: CheckoutState, db: Db, u: UserId, v: UserId)
    ensures var r := HandleCheckout(st, db, Some(u), false);
            && GetCartItems(r.db, u) == []
            && Total(GetCartItems(r.db, u)) == 0.0
            && UserQuantity(r.db.cart, u) == 0
            && (v != u ==> Filter(r.db.cart, CartOfUser(v)) == Filter(db.cart, CartOfUser(v)))
  {
    if v != u {
      ClearCartSparesOtherUsers(db, u, v);
    }
  }

  /** When the delete fails the order is still shown as completed, and the cart keeps every
      row: a user with a cart row completes an order and still has that row. */
  lemma CompletedWithRowsKept(st: CheckoutState, db: Db, u: UserId, row: CartRow)
    requires row in db.cart && row.userId == u
    ensures var r := HandleCheckout(st, db, Some(u), true);
            && r.state.completed
            && GetCartItems(r.db, u) == GetCartItems(db, u)
            && row in r.db.cart
            && |GetCartItems(r.db, u)| > 0
  {
    var i :| 0 <= i < |GetCartItems(db, u)| && GetCartItems(db, u)[i].row == row;
  }
}
