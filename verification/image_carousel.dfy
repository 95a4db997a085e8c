/** The image carousel: the current index, the wrap-around next and previous buttons, the dot
    and thumbnail buttons, and what is rendered for a given image list. */
module ImageCarousel {
  import opened Wrappers

  /** JavaScript's `a % b`: the remainder of division truncated toward zero, so it takes the
      sign of `a`. */
  function JsRem(a: int, b: int): (r: int)
    requires b != 0
    ensures a >= 0 ==> 0 <= r < (if b > 0 then b else -b)
    ensures a >= 0 && b > 0 ==> r == a % b
  {
    var m := if b > 0 then b else -b;
    if a >= 0 then a % m else -((-a) % m)
  }

  /** `setCurrentIndex(prev => (prev + 1) % images.length)`. */
  function Next(i: nat, n: int): (r: nat)
    requires n > 0
    ensures r < n
    ensures i + 1 < n ==> r == i + 1
    ensures i + 1 == n ==> r == 0
  {
    JsRem(i + 1, n)
  }

  /** `setCurrentIndex(prev => (prev - 1 + images.length) % images.length)`. */
  function Prev(i: nat, n: int): (r: nat)
    requires n > 0
    ensures r < n
    ensures 0 < i <= n ==> r == i - 1
    ensures i == 0 ==> r == n - 1
  {
    var a := i - 1 + n;
    if i <= n then RemWithinTwoPeriods(a, n); JsRem(a, n)
    else JsRem(a, n)
  }

  /** The remainder of a number below two periods: itself, or one period less. */
  lemma RemWithinTwoPeriods(a: int, n: int)
    requires n > 0 && 0 <= a < 2 * n
    ensures a % n == (if a < n then a else a - n)
  {
    if a >= n {
      assert a == n * 1 + (a - n);
    }
  }

  /** Previous undoes next and next undoes previous for every index in range. */
  lemma PrevNextInverse(i: nat, n: int)
    requires i < n
    ensures Prev(Next(i, n), n) == i
    ensures Next(Prev(i, n), n) == i
  {
  }

  /** `k` presses of next. */
  function Advance(i: nat, n: int, k: nat): (r: nat)
    requires n > 0
    ensures r < n || (k == 0 && r == i)
  {
    if k == 0 then i else Next(Advance(i, n, k - 1), n)
  }

  /** Before the wrap, `k` presses of next move the index `k` places on. */
  lemma {:induction false} AdvanceBeforeWrap(i: nat, n: int, k: nat)
    requires i + k < n
    ensures Advance(i, n, k) == i + k
  {
    if k > 0 {
      AdvanceBeforeWrap(i, n, k - 1);
    }
  }

  /** Presses of next compose: `a` presses and then `b` presses are `a + b` presses. */
  lemma {:induction false} AdvanceSplit(i: nat, n: int, a: nat, b: nat)
    requires n > 0
    ensures Advance(i, n, a + b) == Advance(Advance(i, n, a), n, b)
  {
    if b > 0 {
      AdvanceSplit(i, n, a, b - 1);
    }
  }

  /** `n` presses of next come back to the starting image: the index climbs to the last image,
      wraps to 0 and climbs back. */
  lemma FullTurnReturns(i: nat, n: int)
    requires i < n
    ensures Advance(i, n, n) == i
  {
    AdvanceBeforeWrap(i, n, n - 1 - i);
    assert Advance(i, n, n - i) == 0;
    AdvanceSplit(i, n, n - i, i);
    AdvanceBeforeWrap(0, n, i);
  }

  /** A click on the carousel: next, previous, or a dot or thumbnail with its index. */
  datatype Click = NextClick | PrevClick | Pick(index: nat)

  /** The dot and thumbnail buttons, one per image, each carrying its image's index; there are
      none unless there are at least two images. */
  function PickTargets(n: nat): (r: seq<nat>)
    ensures n > 1 ==> |r| == n && forall k :: 0 <= k < n ==> r[k] == k
    ensures n <= 1 ==> r == []
  {
    if n > 1 then seq(n, k requires 0 <= k < n => k) else []
  }

  /** A click the rendered carousel offers: next and previous only with at least two images,
      and only the indices of the dot and thumbnail buttons. */
  predicate Offered(c: Click, n: nat) {
    match c
    case NextClick => n > 1
    case PrevClick => n > 1
    case Pick(k) => k in PickTargets(n)
  }

  function Press(i: nat, n: nat, c: Click): (r: nat)
    requires Offered(c, n)
    ensures r < n
  {
    match c
    case NextClick => Next(i, n)
    case PrevClick => Prev(i, n)
    case Pick(k) => k
  }

  /** Any run of offered clicks from the first image keeps the index on an image. */
  function Run(i: nat, n: nat, clicks: seq<Click>): (r: nat)
    requires i < n
    requires forall k :: 0 <= k < |clicks| ==> Offered(clicks[k], n)
    ensures r < n
    decreases |clicks|
  {
    if |clicks| == 0 then i else Run(Press(i, n, clicks[0]), n, clicks[1..])
  }

  /** What the carousel renders: nothing for an empty list; otherwise the current image (absent
      when the index has fallen off the list), and the arrows and the dot and thumbnail buttons
      only when there are at least two images. */
  datatype View = View(image: Option<string>, arrows: bool, picks: seq<nat>)

  function Render(images: seq<string>, i: nat): (r: Option<View>)
    ensures r.None? <==> |images| == 0
    ensures r.Some? ==> (r.value.arrows <==> |images| > 1)
    ensures r.Some? ==> (r.value.image.Some? <==> i < |images|)
    ensures r.Some? && i < |images| ==> r.value.image.value == images[i]
    ensures r.Some? ==> forall k :: 0 <= k < |r.value.picks| ==> r.value.picks[k] < |images|
  {
    if |images| == 0 then None
    else Some(View(if i < |images| then Some(images[i]) else None, |images| > 1, PickTargets(|images|)))
  }

  /** Starting from image 0, every offered click sequence leaves an image on screen. */
  lemma ClicksAlwaysShowAnImage(images: seq<string>, clicks: seq<Click>)
    requires |images| > 0
    requires forall k :: 0 <= k < |clicks| ==> Offered(clicks[k], |images|)
    ensures var i := Run(0, |images|, clicks);
            Render(images, i).Some? && Render(images, i).value.image == Some(images[i])
  {
  }
}
