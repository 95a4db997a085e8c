/** The optimistic like patch both the like hook and the dashboard apply to a product list
    before the toggle request returns: the matching product's `has_liked` flips and its
    `likes_count` moves by one in the matching direction. */
module OptimisticLike {
  import opened Wrappers
  import opened Store
  import opened Seqs
  import opened ProductService

  /** JavaScript truthiness of the optional `has_liked` flag. */
  function Liked(p: Product): bool {
    p.hasLiked == Some(true)
  }

  /** `p.likes_count || 0`. */
  function CountOrZero(p: Product): int {
    p.likesCount.GetOr(0)
  }

  /** The patch of one product: the one with id `id` flips, every other one is returned as is. */
  function FlipLike(id: RowId): Product -> Product {
    (p: Product) =>
      if p.row.id == id then
        p.(hasLiked := Some(!Liked(p)), likesCount := Some(CountOrZero(p) + (if Liked(p) then -1 else 1)))
      else p
  }

  /** `prev.map(...)` with the flip: same length and order, only the matching products change,
      and of those only the two like fields. */
  function PatchList(items: seq<Product>, id: RowId): (r: seq<Product>)
    ensures |r| == |items|
    ensures forall k :: 0 <= k < |items| && items[k].row.id != id ==> r[k] == items[k]
    ensures forall k :: 0 <= k < |items| && items[k].row.id == id ==>
      && r[k].row == items[k].row
      && r[k].hasLiked == Some(!Liked(items[k]))
      && r[k].likesCount == Some(if Liked(items[k]) then CountOrZero(items[k]) - 1 else CountOrZero(items[k]) + 1)
  {
    MapSeq(items, FlipLike(id))
  }

  /** Patching twice restores every product whose like fields were both present. */
  lemma PatchTwiceRestores(items: seq<Product>, id: RowId)
    requires forall k :: 0 <= k < |items| && items[k].row.id == id ==> items[k].hasLiked.Some? && items[k].likesCount.Some?
    ensures PatchList(PatchList(items, id), id) == items
  {
    var twice := PatchList(PatchList(items, id), id);
    var once := PatchList(items, id);
    forall k | 0 <= k < |items|
      ensures twice[k] == items[k]
    {
      if items[k].row.id == id {
        var it := items[k];
        assert it == Product(it.row, Some(it.likesCount.value), Some(it.hasLiked.value));
        assert once[k].row == it.row && twice[k].row == it.row;
        assert Liked(once[k]) == !Liked(it);
        assert twice[k].hasLiked == Some(!Liked(once[k]));
        assert it.hasLiked.Some?;
        if it.hasLiked.value {
          assert Liked(it);
        } else {
          assert !Liked(it);
        }
        assert twice[k].likesCount == it.likesCount by {
          assert once[k].likesCount == Some(if Liked(it) then it.likesCount.value - 1 else it.likesCount.value + 1);
        }
      }
    }
  }

  /** A product as the listing computes it for user `u` from the store. */
  predicate ShowsStore(item: Product, db: Db, u: UserId) {
    && item.hasLiked == Some(LikeRow(u, item.row.id) in db.likes)
    && item.likesCount == Some(LikeCount(db.likes, item.row.id) as int)
  }

  function LikeOfProductNotPair(u: UserId, p: RowId): LikeRow -> bool {
    (like: LikeRow) => like.productId == p && !(like.userId == u && like.productId == p)
  }

  /** Deleting the user's single like row of a product lowers its count by one. */
  lemma UnlikeLowersCount(likes: seq<LikeRow>, u: UserId, p: RowId)
    requires |Filter(likes, LikeOfPair(u, p))| == 1
    ensures LikeCount(Filter(likes, LikeNotOfPair(u, p)), p) == LikeCount(likes, p) - 1
  {
    FilterFilter(likes, LikeNotOfPair(u, p), LikeOfProduct(p), LikeOfProductNotPair(u, p));
    FilterCountSplit(likes, LikeOfProduct(p), LikeOfProductNotPair(u, p), LikeOfPair(u, p));
  }

  /** Appending a like row of a product raises its count by one. */
  lemma LikeRaisesCount(likes: seq<LikeRow>, u: UserId, p: RowId)
    ensures LikeCount(likes + [LikeRow(u, p)], p) == LikeCount(likes, p) + 1
  {
    FilterAppend(likes, [LikeRow(u, p)], LikeOfProduct(p));
    assert Filter([LikeRow(u, p)], LikeOfProduct(p)) == [LikeRow(u, p)];
  }

  /** When the user has at most one like row for the product and the toggle's lookup answers,
      the optimistic patch of a product that showed the store before the toggle shows the
      store after it. */
  lemma PatchAgreesWithServer(db: Db, u: UserId, item: Product)
    requires ShowsStore(item, db, u)
    requires |Filter(db.likes, LikeOfPair(u, item.row.id))| <= 1
    ensures ShowsStore(FlipLike(item.row.id)(item), ToggleProductLike(db, u, item.row.id, false).db, u)
  {
    if LikeRow(u, item.row.id) in db.likes {
      PatchAgreesAfterUnlike(db, u, item);
    } else {
      PatchAgreesAfterLike(db, u, item);
    }
  }

  lemma PatchAgreesAfterUnlike(db: Db, u: UserId, item: Product)
    requires ShowsStore(item, db, u)
    requires |Filter(db.likes, LikeOfPair(u, item.row.id))| <= 1
    requires LikeRow(u, item.row.id) in db.likes
    ensures ShowsStore(FlipLike(item.row.id)(item), ToggleProductLike(db, u, item.row.id, false).db, u)
  {
    var p := item.row.id;
    var t := ToggleProductLike(db, u, p, false);
    assert LikeRow(u, p) in Filter(db.likes, LikeOfPair(u, p));
    assert !t.liked;
    assert t.db.likes == Filter(db.likes, LikeNotOfPair(u, p));
    UnlikeLowersCount(db.likes, u, p);
    assert FlipLike(p)(item).likesCount == Some(LikeCount(db.likes, p) as int - 1);
  }

  lemma PatchAgreesAfterLike(db: Db, u: UserId, item: Product)
    requires ShowsStore(item, db, u)
    requires LikeRow(u, item.row.id) !in db.likes
    ensures ShowsStore(FlipLike(item.row.id)(item), ToggleProductLike(db, u, item.row.id, false).db, u)
  {
    var p := item.row.id;
    var t := ToggleProductLike(db, u, p, false);
    FilterKeepsNone(db.likes, LikeOfPair(u, p));
    assert t.db.likes == db.likes + [LikeRow(u, p)];
    LikeRaisesCount(db.likes, u, p);
    assert FlipLike(p)(item).likesCount == Some(LikeCount(db.likes, p) as int + 1);
  }

  /** The like toggle of product `p` does not change the like rows of any other product. */
  lemma ToggleSparesOtherProducts(db: Db, u: UserId, p: RowId, lookupFails: bool, q: RowId)
    requires q != p
    ensures Filter(ToggleProductLike(db, u, p, lookupFails).db.likes, LikeOfProduct(q)) == Filter(db.likes, LikeOfProduct(q))
  {
    var t := ToggleProductLike(db, u, p, lookupFails);
    if t.liked {
      FilterAppend(db.likes, [LikeRow(u, p)], LikeOfProduct(q));
      assert Filter([LikeRow(u, p)], LikeOfProduct(q)) == [];
    } else {
      FilterFilter(db.likes, LikeNotOfPair(u, p), LikeOfProduct(q), LikeOfProduct(q));
    }
  }
}
