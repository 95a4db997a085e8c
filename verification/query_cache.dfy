/** The client-side query cache the hooks drive: queries addressed by array keys, each holding
    its data (absent while undefined) and an invalidated flag. Invalidation and the bulk
    operations select queries by key prefix, as the cache's partial key match does for arrays. */
module QueryCache {
  import opened Wrappers
  import opened Store
  import opened CartService
  import opened ProductService

  /** One element of a query key: a string, a number, a row id, or `undefined`. */
  datatype KeyPart = Str(s: string) | Num(n: int) | Id(id: RowId) | Undefined

  type Key = seq<KeyPart>

  /** What a query can hold: a product list, a cart list, or one product (or `null`). */
  datatype Data = Products(products: seq<Product>) | CartItems(items: seq<CartItem>) | Detail(product: Option<ProductRow>)

  /** A cached query: its data (`None` while undefined) and whether it is invalidated. */
  datatype Query = Query(data: Option<Data>, stale: bool)

  type Cache = map<Key, Query>

  /** `key` starts with every element of `prefix`: the filter `{ queryKey: prefix }` matches it. */
  predicate Extends(key: Key, prefix: Key) {
    |prefix| <= |key| && key[..|prefix|] == prefix
  }

  lemma ExtendsTransitive(a: Key, b: Key, c: Key)
    requires Extends(a, b) && Extends(b, c)
    ensures Extends(a, c)
  {
    assert a[..|c|] == a[..|b|][..|c|];
  }

  /** `invalidateQueries({ queryKey: prefix })`: every matching query is marked invalidated
      (and refetched when active, which is not modelled); nothing else changes. */
  function Invalidate(c: Cache, prefix: Key): (r: Cache)
    ensures r.Keys == c.Keys
    ensures forall k :: k in c ==> r[k].data == c[k].data
    ensures forall k :: k in c && Extends(k, prefix) ==> r[k].stale
    ensures forall k :: k in c && !Extends(k, prefix) ==> r[k] == c[k]
  {
    map k | k in c :: if Extends(k, prefix) then c[k].(stale := true) else c[k]
  }

  /** `setQueryData(key, data)`: undefined data leaves the cache alone; otherwise the query
      holds the data and is no longer invalidated. */
  function SetQueryData(c: Cache, key: Key, data: Option<Data>): (r: Cache)
    ensures data.None? ==> r == c
    ensures data.Some? ==> key in r && r[key] == Query(data, false)
    ensures forall k :: k in c && k != key ==> k in r && r[k] == c[k]
    ensures r.Keys == c.Keys + (if data.Some? then {key} else {})
  {
    if data.None? then c else c[key := Query(data, false)]
  }

  /** `setQueriesData({ queryKey: prefix }, update)`: `setQueryData` on every existing matching
      query with `update` applied to its current data. */
  function SetQueriesData(c: Cache, prefix: Key, update: Option<Data> -> Option<Data>): (r: Cache)
    ensures r.Keys == c.Keys
    ensures forall k :: k in c && !Extends(k, prefix) ==> r[k] == c[k]
    ensures forall k :: k in c && Extends(k, prefix) ==>
      r[k] == (if update(c[k].data).None? then c[k] else Query(update(c[k].data), false))
  {
    map k | k in c :: if Extends(k, prefix) && update(c[k].data).Some? then Query(update(c[k].data), false) else c[k]
  }

  /** `getQueriesData({ queryKey: prefix })`: the key and data of every matching query. */
  function Snapshot(c: Cache, prefix: Key): (r: map<Key, Option<Data>>)
    ensures forall k :: k in r <==> k in c && Extends(k, prefix)
    ensures forall k :: k in r ==> r[k] == c[k].data
  {
    map k | k in c && Extends(k, prefix) :: c[k].data
  }

  /** `snapshot.forEach(([key, data]) => setQueryData(key, data))`. */
  function Restore(c: Cache, snapshot: map<Key, Option<Data>>): (r: Cache)
    ensures forall k :: k in r <==> k in c || (k in snapshot && snapshot[k].Some?)
    ensures forall k :: k in snapshot && snapshot[k].Some? ==> r[k] == Query(snapshot[k], false)
    ensures forall k :: k in c && (k !in snapshot || snapshot[k].None?) ==> r[k] == c[k]
  {
    map k | k in c.Keys + (set k | k in snapshot && snapshot[k].Some?) ::
      if k in snapshot && snapshot[k].Some? then Query(snapshot[k], false) else c[k]
  }

  /** Restoring a snapshot taken before a bulk update undoes it: every query holds its old
      data again, and queries outside the prefix are untouched throughout. */
  lemma RestoreUndoesSetQueriesData(c: Cache, prefix: Key, update: Option<Data> -> Option<Data>)
    requires update(None) == None
    ensures var r := Restore(SetQueriesData(c, prefix, update), Snapshot(c, prefix));
            && r.Keys == c.Keys
            && (forall k :: k in c ==> r[k].data == c[k].data)
            && (forall k :: k in c && !Extends(k, prefix) ==> r[k] == c[k])
  {
    var patched := SetQueriesData(c, prefix, update);
    var snap := Snapshot(c, prefix);
    var r := Restore(patched, snap);
    forall k | k in c
      ensures r[k].data == c[k].data
    {
      if k in snap && snap[k].None? {
        assert c[k].data.None?;
        assert patched[k] == c[k];
      }
    }
  }

  /** The query function of both list hooks: `[]` without a user id (JavaScript treats `''`
      as missing too), the service's error is thrown, and a `null` list reads as `[]`. */
  function ListQueryFn<T>(userId: Option<UserId>, reply: Response<seq<T>>): (r: Result<seq<T>, Error>)
    ensures (userId.None? || userId.value == "") ==> r == Ok([])
    ensures userId.Some? && userId.value != "" ==>
      (r.Err? <==> reply.error.Some?)
      && (r.Err? ==> r.error == reply.error.value)
      && (r.Ok? ==> r.value == reply.data.GetOr([]))
  {
    if userId.None? || userId.value == "" then Ok([])
    else if reply.error.Some? then Err(reply.error.value)
    else Ok(reply.data.GetOr([]))
  }

  /** Invalidating twice is invalidating once. */
  lemma InvalidateIdempotent(c: Cache, prefix: Key)
    ensures Invalidate(Invalidate(c, prefix), prefix) == Invalidate(c, prefix)
  {
  }
}
