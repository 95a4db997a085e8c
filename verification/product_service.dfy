/** The product data-access functions: the paginated, filtered, newest-first listing with
    its like overlay (`getUserProducts`), the like toggle, creation with a share id, lookup by
    share id or id, and deletion. */
module ProductService {
  import opened Wrappers
  import opened Store
  import opened Seqs

  /** A product as the client sees it: the row plus the like overlay, absent until the
      listing query computes it. */
  datatype Product = Product(row: ProductRow, likesCount: Option<int>, hasLiked: Option<bool>)

  /** A listing row as the query returns it, with the embedded `likes:product_likes(count)`
      aggregate, which may be missing or empty. */
  datatype RawProduct = RawProduct(row: ProductRow, likes: Option<seq<int>>)

  /** A listing and whether the second (likes) query was issued for it. */
  datatype Listing = Listing(items: seq<Product>, likeQueryIssued: bool)

  /** `createProduct`'s reply: the store after the insert and the row `.select().single()` returns. */
  datatype Created = Created(db: Db, product: ProductRow)

  /** `toggleProductLike`'s reply: the store after the call and the reported like state. */
  datatype Toggled = Toggled(db: Db, liked: bool)

  /** The listing's default page size. */
  const PageSize: int := 12

  /** The category value that disables the category filter. */
  const AllCategories: string := "All"

  // ---------------------------------------------------------------------------
  // Ordering: `.order('created_at', { ascending: false })`, which in the store sorts
  // null timestamps first (the default for a descending order).

  /** `a` may be listed before `b`. */
  predicate NewerOrSame(a: ProductRow, b: ProductRow) {
    a.createdAt.None? || (b.createdAt.Some? && a.createdAt.value >= b.createdAt.value)
  }

  predicate NewestFirst(s: seq<ProductRow>) {
    forall i, j :: 0 <= i < j < |s| ==> NewerOrSame(s[i], s[j])
  }

  /** Insert `x` before the first row it is newer than or as new as. */
  function InsertNewestFirst(x: ProductRow, s: seq<ProductRow>): (r: seq<ProductRow>)
    requires NewestFirst(s)
    ensures NewestFirst(r)
    ensures multiset(r) == multiset(s) + multiset{x}
    ensures |r| == |s| + 1
  {
    if |s| == 0 then [x]
    else if NewerOrSame(x, s[0]) then
      assert forall j :: 0 <= j < |s| ==> NewerOrSame(x, s[j]) by {
        forall j | 0 <= j < |s| ensures NewerOrSame(x, s[j]) {
          assert NewerOrSame(s[0], s[j]) || j == 0;
        }
      }
      [x] + s
    else
      var rest := InsertNewestFirst(x, s[1..]);
      assert s == [s[0]] + s[1..];
      assert forall y :: y in rest ==> NewerOrSame(s[0], y) by {
        forall y | y in rest ensures NewerOrSame(s[0], y) {
          assert y in multiset(rest);
          if y != x {
            assert y in multiset(s[1..]);
            var k :| 0 <= k < |s[1..]| && s[1..][k] == y;
            assert s[k + 1] == y;
          }
        }
      }
      [s[0]] + rest
  }

  /** The rows in listing order: newest first, nulls first, ties in table order. */
  function OrderNewestFirst(s: seq<ProductRow>): (r: seq<ProductRow>)
    ensures NewestFirst(r)
    ensures multiset(r) == multiset(s)
    ensures |r| == |s|
  {
    if |s| == 0 then []
    else
      assert s == [s[0]] + s[1..];
      InsertNewestFirst(s[0], OrderNewestFirst(s[1..]))
  }

  lemma UniqueTail(s: seq<ProductRow>)
    requires |s| > 0 && UniqueProductIds(s)
    ensures UniqueProductIds(s[1..])
    ensures forall y :: y in s[1..] ==> y.id != s[0].id
  {
    forall a, b | 0 <= a < b < |s[1..]|
      ensures s[1..][a].id != s[1..][b].id
    {
      assert s[1..][a] == s[a + 1] && s[1..][b] == s[b + 1];
    }
    forall y | y in s[1..]
      ensures y.id != s[0].id
    {
      var k :| 0 <= k < |s[1..]| && s[1..][k] == y;
      assert s[k + 1] == y;
    }
  }

  lemma ConsUnique(h: ProductRow, t: seq<ProductRow>)
    requires UniqueProductIds(t)
    requires forall y :: y in t ==> y.id != h.id
    ensures UniqueProductIds([h] + t)
  {
    var r := [h] + t;
    forall a, b | 0 <= a < b < |r|
      ensures r[a].id != r[b].id
    {
      assert r[b] == t[b - 1];
      if a > 0 {
        assert r[a] == t[a - 1];
      } else {
        assert t[b - 1] in t;
      }
    }
  }

  /** Every row of an insertion is the inserted row or a row already there. */
  lemma InsertDrawsFrom(x: ProductRow, s: seq<ProductRow>, y: ProductRow)
    requires NewestFirst(s)
    requires y in InsertNewestFirst(x, s)
    ensures y == x || y in s
  {
    assert y in multiset(InsertNewestFirst(x, s));
  }

  lemma {:induction false} InsertKeepsIdsUnique(x: ProductRow, s: seq<ProductRow>)
    requires NewestFirst(s)
    requires UniqueProductIds(s)
    requires forall y :: y in s ==> y.id != x.id
    ensures UniqueProductIds(InsertNewestFirst(x, s))
  {
    if |s| > 0 && !NewerOrSame(x, s[0]) {
      UniqueTail(s);
      assert forall y :: y in s[1..] ==> y in s;
      InsertKeepsIdsUnique(x, s[1..]);
      var rest := InsertNewestFirst(x, s[1..]);
      forall y | y in rest
        ensures y.id != s[0].id
      {
        InsertDrawsFrom(x, s[1..], y);
      }
      ConsUnique(s[0], rest);
      assert InsertNewestFirst(x, s) == [s[0]] + rest;
    } else if |s| > 0 {
      ConsUnique(x, s);
    }
  }

  /** Ordering a table with unique ids keeps the ids unique. */
  lemma {:induction false} OrderKeepsIdsUnique(s: seq<ProductRow>)
    requires UniqueProductIds(s)
    ensures UniqueProductIds(OrderNewestFirst(s))
  {
    if |s| > 0 {
      UniqueTail(s);
      OrderKeepsIdsUnique(s[1..]);
      var rest := OrderNewestFirst(s[1..]);
      forall y | y in rest
        ensures y.id != s[0].id
      {
        assert y in multiset(rest);
        assert y in multiset(s[1..]);
      }
      InsertKeepsIdsUnique(s[0], rest);
    }
  }

  // ---------------------------------------------------------------------------
  // Filtering

  /** The category filter is applied only for a given, non-empty category other than "All". */
  predicate FiltersCategory(category: Option<string>) {
    category.Some? && category.value != "" && category.value != AllCategories
  }

  function ProductOfCategory(c: string): ProductRow -> bool {
    (row: ProductRow) => row.category == Some(c)
  }

  /** The rows the listing query selects before ordering: the user's products, of the given
      category when the category filter applies. */
  function Matching(db: Db, u: UserId, category: Option<string>): (r: seq<ProductRow>)
    ensures forall row :: row in r <==>
      row in db.products && row.userId == u
      && (FiltersCategory(category) ==> row.category == Some(category.value))
  {
    var owned := Filter(db.products, ProductOfOwner(u));
    if FiltersCategory(category) then Filter(owned, ProductOfCategory(category.value)) else owned
  }

  lemma MatchingKeepsIdsUnique(db: Db, u: UserId, category: Option<string>)
    requires UniqueProductIds(db.products)
    ensures UniqueProductIds(Matching(db, u, category))
  {
    var owned := Filter(db.products, ProductOfOwner(u));
    FilterKeepsUniqueBy(db.products, ProductRowId, ProductOfOwner(u));
    if FiltersCategory(category) {
      FilterKeepsUniqueBy(owned, ProductRowId, ProductOfCategory(category.value));
    }
  }

  /** The whole result set the listing pages through. */
  function Ordered(db: Db, u: UserId, category: Option<string>): seq<ProductRow> {
    OrderNewestFirst(Matching(db, u, category))
  }

  // ---------------------------------------------------------------------------
  // Range and overlay

  function Min(a: int, b: int): int {
    if a <= b then a else b
  }

  /** How many rows a range of `limit` rows from offset `from` holds in a result of `n` rows. */
  function RangeLength(n: int, from: int, limit: int): int {
    if from >= n then 0 else Min(from + limit, n) - from
  }

  /** `.range(from, to)`: the rows at offsets `from` through `to`, clipped to the result. */
  function Window<T>(s: seq<T>, from: nat, to: int): (r: seq<T>)
    requires to >= from - 1
    ensures |r| == (if from >= |s| then 0 else Min(to + 1, |s|) - from)
    ensures forall k :: 0 <= k < |r| ==> r[k] == s[from + k]
  {
    if from >= |s| then [] else s[from .. Min(to + 1, |s|)]
  }

  /** `p.likes?.[0]?.count || 0`. */
  function LikesCountOf(raw: RawProduct): (n: int)
    ensures raw.likes.None? || |raw.likes.value| == 0 ==> n == 0
    ensures raw.likes.Some? && |raw.likes.value| > 0 ==> n == raw.likes.value[0]
  {
    match raw.likes
    case Some(counts) => if |counts| > 0 && counts[0] != 0 then counts[0] else 0
    case None => 0
  }

  /** The number of like rows of a product, over all users: the `count` aggregate. */
  function LikeCount(likes: seq<LikeRow>, p: RowId): nat {
    |Filter(likes, LikeOfProduct(p))|
  }

  /** The page's rows with the aggregate the store embeds in each. */
  function WithAggregates(db: Db, rows: seq<ProductRow>): (r: seq<RawProduct>)
    ensures |r| == |rows|
    ensures forall k :: 0 <= k < |r| ==> r[k].row == rows[k] && r[k].likes == Some([LikeCount(db.likes, rows[k].id)])
  {
    seq(|rows|, k requires 0 <= k < |rows| => RawProduct(rows[k], Some([LikeCount(db.likes, rows[k].id)])))
  }

  /** The second query: ids among `ids` that `u` has liked. */
  function LikedIds(likes: seq<LikeRow>, u: UserId, ids: set<RowId>): (r: set<RowId>)
    ensures forall p :: p in r <==> p in ids && LikeRow(u, p) in likes
  {
    var r := set l | l in likes && l.userId == u && l.productId in ids :: l.productId;
    assert forall p :: p in ids && LikeRow(u, p) in likes ==> p in r by {
      forall p | p in ids && LikeRow(u, p) in likes ensures p in r {
        var l := LikeRow(u, p);
        assert l in likes && l.userId == u && l.productId in ids;
      }
    }
    r
  }

  /** The mapping to `Product`: the count from the aggregate, `has_liked` from the liked set. */
  function Overlay(raw: seq<RawProduct>, liked: set<RowId>): (r: seq<Product>)
    ensures |r| == |raw|
    ensures forall k :: 0 <= k < |r| ==>
      r[k].row == raw[k].row
      && r[k].likesCount == Some(LikesCountOf(raw[k]))
      && r[k].hasLiked == Some(raw[k].row.id in liked)
  {
    seq(|raw|, k requires 0 <= k < |raw| =>
      Product(raw[k].row, Some(LikesCountOf(raw[k])), Some(raw[k].row.id in liked)))
  }

  /** The rows `.range(from, from + limit - 1)` selects from the ordered result. */
  function PageRows(db: Db, u: UserId, category: Option<string>, from: nat, limit: nat): (rows: seq<ProductRow>)
    ensures |rows| <= limit
    ensures |rows| == RangeLength(|Ordered(db, u, category)|, from, limit)
    ensures forall k :: 0 <= k < |rows| ==> rows[k] == Ordered(db, u, category)[from + k]
    ensures forall k :: 0 <= k < |rows| ==>
      && rows[k] in db.products && rows[k].userId == u
      && (FiltersCategory(category) ==> rows[k].category == Some(category.value))
    ensures forall i, j :: 0 <= i < j < |rows| ==> NewerOrSame(rows[i], rows[j])
  {
    var ordered := Ordered(db, u, category);
    var rows := Window(ordered, from, from + limit - 1);
    forall k | 0 <= k < |rows|
      ensures rows[k] in Matching(db, u, category)
    {
      assert rows[k] == ordered[from + k];
      assert rows[k] in multiset(ordered);
    }
    rows
  }

  /** The page with its like overlay: the stored count and whether `u` liked each row. The
      second query's error is not read: when it fails (`likesFail`) its data is null, the
      liked set is empty and every row reads as not liked. */
  function WithLikes(db: Db, u: UserId, rows: seq<ProductRow>, likesFail: bool): (items: seq<Product>)
    ensures |items| == |rows|
    ensures forall k :: 0 <= k < |items| ==>
      && items[k].row == rows[k]
      && items[k].hasLiked == Some(!likesFail && LikeRow(u, rows[k].id) in db.likes)
      && items[k].likesCount == Some(LikeCount(db.likes, rows[k].id) as int)
  {
    var ids := set k | 0 <= k < |rows| :: rows[k].id;
    var raw := WithAggregates(db, rows);
    var items := Overlay(raw, if likesFail then {} else LikedIds(db.likes, u, ids));
    assert forall k :: 0 <= k < |rows| ==> rows[k].id in ids;
    items
  }

  /** `getUserProducts(userId, page = 1, limit = 12, category)`: page `page` of the user's products,
      newest first, optionally of one category, with the like overlay; a negative offset or
      limit is refused by the store. Only the first query's error is returned: a failed like
      query (`likesFail`) still yields the page, with every product marked not liked. */
  function GetUserProducts(db: Db, u: UserId, likesFail: bool, page: int := 1, limit: int := PageSize,
                           category: Option<string> := None): (r: Result<Listing, Error>)
    ensures r.Ok? <==> (page - 1) * limit >= 0 && limit >= 0
    ensures r.Ok? ==> |r.value.items| <= limit
    ensures r.Ok? ==> var n := |Ordered(db, u, category)|; var from := (page - 1) * limit;
      |r.value.items| == RangeLength(n, from, limit)
    ensures r.Ok? ==> forall k :: 0 <= k < |r.value.items| ==>
      r.value.items[k].row == Ordered(db, u, category)[(page - 1) * limit + k]
    ensures r.Ok? ==> forall k :: 0 <= k < |r.value.items| ==>
      var row := r.value.items[k].row;
      && row in db.products && row.userId == u
      && (FiltersCategory(category) ==> row.category == Some(category.value))
    ensures r.Ok? ==> forall i, j :: 0 <= i < j < |r.value.items| ==>
      NewerOrSame(r.value.items[i].row, r.value.items[j].row)
    ensures r.Ok? ==> forall k :: 0 <= k < |r.value.items| ==>
      && r.value.items[k].hasLiked == Some(!likesFail && LikeRow(u, r.value.items[k].row.id) in db.likes)
      && r.value.items[k].likesCount == Some(LikeCount(db.likes, r.value.items[k].row.id) as int)
    ensures r.Ok? ==> (r.value.likeQueryIssued <==> |r.value.items| > 0)
  {
    var from := (page - 1) * limit;
    if from < 0 || limit < 0 then Err(Failed("requested range not satisfiable"))
    else
      var rows := PageRows(db, u, category, from, limit);
      if |rows| > 0 then Ok(Listing(WithLikes(db, u, rows, likesFail), true))
      else Ok(Listing([], false))
  }

  // ---------------------------------------------------------------------------
  // Like toggle, creation, lookup, deletion

  /** `toggleProductLike(userId, productId)`: when `.single()` finds the user's like, delete it
      (every copy) and report `liked = false`; otherwise insert one and report `liked = true`.
      Only the lookup's `data` is read, so a lookup whose request fails (`lookupFails`) also
      inserts. Likes of other pairs are untouched. */
  function ToggleProductLike(db: Db, u: UserId, p: RowId, lookupFails: bool): (r: Toggled)
    ensures r.db.products == db.products && r.db.cart == db.cart && r.db.nextId == db.nextId
    ensures r.liked <==> lookupFails || |Filter(db.likes, LikeOfPair(u, p))| != 1
    ensures r.liked <==> LikeRow(u, p) in r.db.likes
    ensures forall l :: l != LikeRow(u, p) ==> (l in r.db.likes <==> l in db.likes)
  {
    match Lookup(Filter(db.likes, LikeOfPair(u, p)), lookupFails)
    case Ok(_) => Toggled(db.(likes := Filter(db.likes, LikeNotOfPair(u, p))), false)
    case Err(_) => Toggled(db.(likes := db.likes + [LikeRow(u, p)]), true)
  }

  /** The URL-safe alphabet share ids are drawn from: letters, digits, `_` and `-`. */
  const UrlAlphabet: string := "ABCDEFGHIJKLMNOPQRSTUVWXYZabcdefghijklmnopqrstuvwxyz0123456789_-"

  predicate IsShareId(s: string) {
    |s| == 10 && forall i :: 0 <= i < |s| ==> s[i] in UrlAlphabet
  }

  /** `generateShareId()`: a 10-character token, one alphabet character per random byte
      (the low six bits select it); the randomness is a parameter. */
  function GenerateShareId(random: seq<bv8>): (r: string)
    requires |random| == 10
    ensures IsShareId(r)
  {
    seq(10, i requires 0 <= i < 10 => UrlAlphabet[(random[i] & 63) as int])
  }

  /** `createProduct(...)`: one row is appended with a fresh id, the insert time, a share id
      that `generateShareId()` draws from the ten random bytes, and `category ?? null` /
      `tags ?? null`; the inserted row is returned. */
  function CreateProduct(db: Db, u: UserId, name: string, description: string, price: real,
                         imageUrls: seq<string>, category: Option<string>, tags: Option<seq<string>>,
                         random: seq<bv8>, now: int): (r: Created)
    requires |random| == 10
    ensures r.db.products == db.products + [r.product]
    ensures r.db.cart == db.cart && r.db.likes == db.likes
    ensures r.product.userId == u && r.product.name == name && r.product.description == description
    ensures r.product.price == price && r.product.imageUrls == imageUrls
    ensures IsShareId(r.product.shareId) && r.product.shareId == GenerateShareId(random)
    ensures r.product.createdAt == Some(now)
    ensures r.product.category == category && r.product.tags == tags
    ensures WellFormed(db) ==> WellFormed(r.db) && forall row :: row in db.products ==> row.id != r.product.id
  {
    var row := ProductRow(db.nextId, u, name, description, price, GenerateShareId(random), imageUrls, Some(now), category, tags);
    Created(db.(products := db.products + [row], nextId := db.nextId + 1), row)
  }

  /** `getProductByShareId(shareId)`: the product when exactly one row has that share id. */
  function GetProductByShareId(db: Db, shareId: string): (r: Result<ProductRow, Error>)
    ensures r.Ok? <==> |Filter(db.products, ProductOfShareId(shareId))| == 1
    ensures r.Ok? ==> r.value in db.products && r.value.shareId == shareId
    ensures r.Err? && r.error == NoRows <==> forall row :: row in db.products ==> row.shareId != shareId
  {
    var matches := Filter(db.products, ProductOfShareId(shareId));
    assert |matches| > 0 ==> matches[0] in matches;
    Single(matches)
  }

  /** `getProductById(id)`: the product when exactly one row has that id. */
  function GetProductById(db: Db, id: RowId): (r: Result<ProductRow, Error>)
    ensures r.Ok? <==> |Filter(db.products, ProductOfId(id))| == 1
    ensures r.Ok? ==> r.value in db.products && r.value.id == id
    ensures r.Err? && r.error == NoRows <==> forall row :: row in db.products ==> row.id != id
  {
    var matches := Filter(db.products, ProductOfId(id));
    assert |matches| > 0 ==> matches[0] in matches;
    Single(matches)
  }

  /** With ids unique, as the table's primary key keeps them, every stored product is found by
      its id. */
  lemma PresentIdIsFound(db: Db, row: ProductRow)
    requires UniqueProductIds(db.products)
    requires row in db.products
    ensures GetProductById(db, row.id) == Ok(row)
  {
    var matches := Filter(db.products, ProductOfId(row.id));
    FilterKeepsUniqueBy(db.products, ProductRowId, ProductOfId(row.id));
    assert row in matches;
    assert |matches| >= 2 ==> matches[0].id == row.id == matches[1].id;
  }

  /** `deleteProduct(id)`: the row with that id is deleted and every other row stays. */
  function DeleteProduct(db: Db, id: RowId): (r: Db)
    ensures r.cart == db.cart && r.likes == db.likes && r.nextId == db.nextId
    ensures forall row :: row in r.products <==> row in db.products && row.id != id
  {
    db.(products := Filter(db.products, ProductIdIsNot(id)))
  }

  // ---------------------------------------------------------------------------
  // Properties of the listing

  /** Two different pages of the same listing share no product. */
  lemma PagesDoNotOverlap(db: Db, u: UserId, likesFail: bool, category: Option<string>, limit: int, p1: int, p2: int)
    requires UniqueProductIds(db.products)
    requires 1 <= p1 < p2 && limit >= 0
    ensures GetUserProducts(db, u, likesFail, p1, limit, category).Ok? && GetUserProducts(db, u, likesFail, p2, limit, category).Ok?
    ensures var a := GetUserProducts(db, u, likesFail, p1, limit, category).value.items;
            var b := GetUserProducts(db, u, likesFail, p2, limit, category).value.items;
            forall i, j :: 0 <= i < |a| && 0 <= j < |b| ==> a[i].row.id != b[j].row.id
  {
    MatchingKeepsIdsUnique(db, u, category);
    OrderKeepsIdsUnique(Matching(db, u, category));
    var ordered := Ordered(db, u, category);
    OffsetsApart(p1, p2, limit);
    var a := GetUserProducts(db, u, likesFail, p1, limit, category).value.items;
    var b := GetUserProducts(db, u, likesFail, p2, limit, category).value.items;
    forall i, j | 0 <= i < |a| && 0 <= j < |b|
      ensures a[i].row.id != b[j].row.id
    {
      assert a[i].row == ordered[(p1 - 1) * limit + i];
      assert b[j].row == ordered[(p2 - 1) * limit + j];
    }
  }

  /** A later page starts at least one page further on. */
  lemma OffsetsApart(p1: int, p2: int, limit: int)
    requires 1 <= p1 < p2 && limit >= 0
    ensures (p2 - 1) * limit >= (p1 - 1) * limit + limit
  {
    var d := p2 - p1;
    assert (p2 - 1) * limit == (p1 - 1) * limit + d * limit;
    assert d * limit == limit + (d - 1) * limit;
  }

  /** A page that starts at or past the end of the result is empty, and the like query is
      not sent for it. */
  lemma PageBeyondEnd(db: Db, u: UserId, likesFail: bool, category: Option<string>, limit: int, page: int)
    requires 1 <= page && limit >= 0
    requires (page - 1) * limit >= |Ordered(db, u, category)|
    ensures GetUserProducts(db, u, likesFail, page, limit, category) == Ok(Listing([], false))
  {
    assert (page - 1) * limit >= 0;
    var rows := PageRows(db, u, category, (page - 1) * limit, limit);
    assert |rows| == 0;
  }

  /** A short page ends the result: the next page's offset is at or past its end. */
  lemma ShortPageEndsResult(n: int, limit: int, page: int)
    requires 1 <= page && limit > 0
    requires RangeLength(n, (page - 1) * limit, limit) < limit
    ensures page * limit >= n
  {
    NextOffset(page, limit);
  }

  /** The next page starts one limit further on. */
  lemma NextOffset(page: int, limit: int)
    ensures page * limit == (page - 1) * limit + limit
  {
  }

  /** A page with fewer rows than the limit (its range length, which is the length of the
      page `GetUserProducts` returns) is the last one: the page after it is empty. */
  lemma ShortPageIsLast(db: Db, u: UserId, likesFail: bool, category: Option<string>, limit: int, page: int)
    requires 1 <= page && limit > 0
    requires RangeLength(|Ordered(db, u, category)|, (page - 1) * limit, limit) < limit
    ensures GetUserProducts(db, u, likesFail, page + 1, limit, category) == Ok(Listing([], false))
  {
    ShortPageEndsResult(|Ordered(db, u, category)|, limit, page);
    PageBeyondEnd(db, u, likesFail, category, limit, page + 1);
  }

  /** A full page does not promise a next one: when the result has exactly `limit` rows,
      page 1 is full and page 2 is empty. */
  lemma FullPageMayBeLast(db: Db, u: UserId, likesFail: bool, category: Option<string>, limit: int)
    requires limit > 0 && |Ordered(db, u, category)| == limit
    ensures |GetUserProducts(db, u, likesFail, 1, limit, category).value.items| == limit
    ensures GetUserProducts(db, u, likesFail, 2, limit, category) == Ok(Listing([], false))
  {
  }

  /** A failed like query changes nothing but the like flags: the listing succeeds or fails
      alike, with the same rows and counts, and every product reads as not liked. */
  lemma FailedLikeQueryHidesLikes(db: Db, u: UserId, page: int, limit: int, category: Option<string>)
    ensures var a := GetUserProducts(db, u, false, page, limit, category);
            var b := GetUserProducts(db, u, true, page, limit, category);
            && (a.Ok? <==> b.Ok?)
            && (a.Ok? ==> |b.value.items| == |a.value.items| && b.value.likeQueryIssued == a.value.likeQueryIssued)
            && (a.Ok? ==> forall k :: 0 <= k < |a.value.items| ==>
                  b.value.items[k] == a.value.items[k].(hasLiked := Some(false)))
  {
  }

  // ---------------------------------------------------------------------------
  // Properties of the like toggle, creation and deletion

  /** With at most one like row for the pair and both lookups answering, two toggles restore
      the like relation and the two calls report opposite states. */
  lemma ToggleTwiceRestoresLikes(db: Db, u: UserId, p: RowId)
    requires |Filter(db.likes, LikeOfPair(u, p))| <= 1
    ensures var once := ToggleProductLike(db, u, p, false);
            var twice := ToggleProductLike(once.db, u, p, false);
            && twice.liked == !once.liked
            && forall l :: l in twice.db.likes <==> l in db.likes
  {
    var once := ToggleProductLike(db, u, p, false);
    if !once.liked {
      FilterKeepsNone(once.db.likes, LikeOfPair(u, p));
    } else {
      FilterAppend(db.likes, [LikeRow(u, p)], LikeOfPair(u, p));
      assert Filter([LikeRow(u, p)], LikeOfPair(u, p)) == [LikeRow(u, p)];
    }
  }

  /** When the pair already has duplicate like rows, `.single()` fails and the toggle inserts
      yet another like and reports `liked = true`, whether or not the request itself fails. */
  lemma ToggleWithDuplicatesNeverUnlikes(db: Db, u: UserId, p: RowId, lookupFails: bool)
    requires |Filter(db.likes, LikeOfPair(u, p))| >= 2
    ensures ToggleProductLike(db, u, p, lookupFails).liked
    ensures ToggleProductLike(db, u, p, lookupFails).db.likes == db.likes + [LikeRow(u, p)]
  {
  }

  /** A lookup that fails while the user has liked the product once does not unlike it: the
      toggle reports `liked = true` and stores a second like row for the pair. */
  lemma FailedLookupDuplicatesLike(db: Db, u: UserId, p: RowId)
    requires |Filter(db.likes, LikeOfPair(u, p))| == 1
    ensures var t := ToggleProductLike(db, u, p, true);
            && t.liked
            && Filter(t.db.likes, LikeOfPair(u, p)) == [LikeRow(u, p), LikeRow(u, p)]
  {
    var t := ToggleProductLike(db, u, p, true);
    FilterAppend(db.likes, [LikeRow(u, p)], LikeOfPair(u, p));
    assert Filter([LikeRow(u, p)], LikeOfPair(u, p)) == [LikeRow(u, p)];
    assert Filter(db.likes, LikeOfPair(u, p)) == [LikeRow(u, p)];
  }

  /** A product whose generated share id no other row carries is found again by that share id. */
  lemma CreatedIsFoundByShareId(db: Db, u: UserId, name: string, description: string, price: real,
                                imageUrls: seq<string>, category: Option<string>, tags: Option<seq<string>>,
                                random: seq<bv8>, now: int)
    requires |random| == 10
    requires forall row :: row in db.products ==> row.shareId != GenerateShareId(random)
    ensures var c := CreateProduct(db, u, name, description, price, imageUrls, category, tags, random, now);
            GetProductByShareId(c.db, GenerateShareId(random)) == Ok(c.product)
  {
    var shareId := GenerateShareId(random);
    var c := CreateProduct(db, u, name, description, price, imageUrls, category, tags, random, now);
    FilterKeepsNone(db.products, ProductOfShareId(shareId));
    FilterAppend(db.products, [c.product], ProductOfShareId(shareId));
  }

  /** Deleting the product just created restores the product table. */
  lemma DeleteUndoesCreate(db: Db, u: UserId, name: string, description: string, price: real,
                           imageUrls: seq<string>, category: Option<string>, tags: Option<seq<string>>,
                           random: seq<bv8>, now: int)
    requires WellFormed(db) && |random| == 10
    ensures var c := CreateProduct(db, u, name, description, price, imageUrls, category, tags, random, now);
            DeleteProduct(c.db, c.product.id).products == db.products
  {
    var c := CreateProduct(db, u, name, description, price, imageUrls, category, tags, random, now);
    FilterKeepsAll(db.products, ProductIdIsNot(c.product.id));
    FilterAppend(db.products, [c.product], ProductIdIsNot(c.product.id));
  }

  /** After `deleteProduct(id)` the product is no longer found by id. */
  lemma DeletedIsNotFound(db: Db, id: RowId)
    ensures GetProductById(DeleteProduct(db, id), id) == Err(NoRows)
  {
  }
}
