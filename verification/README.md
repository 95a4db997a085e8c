# A storefront's data access, client caches and page logic, in Dafny

This project models the sequential logic of a small storefront built on Next.js and Supabase.
Users list products, like them, put them in a cart and check out.

The hosted database becomes three in-memory tables:

- `products`
- `cart_items`
- `product_likes`

The data-access functions (`addToCart`, `getUserProducts`, `toggleProductLike`, …) are pure
functions from one store value to the next. On top of that store the model covers:

- the React Query layer: query keys, prefix invalidation, and the optimistic like patch with its
  snapshot and rollback;
- the state machines of the cart, checkout and dashboard pages;
- the product form;
- the image carousel;
- the middleware's redirect decision;
- the navigation bar's cart badge.

Every handler runs atomically and in order. Each request that can fail is a boolean input:

- `fails` for the write a handler issues;
- `readFails` for a fetch, and `refetchFails` for the read a handler sends afterwards;
- `lookupFails` for the `.single()` lookup that add-to-cart and the like toggle send before
  writing;
- `likesFail` for the second query of the product listing.

The dashboard's product read is a `ProductsRead` value: both queries answer, the listing fails,
or only the like query fails. Where the source reads only `data`, a failure takes the source's
no-data branch. On a failed read the page keeps what was shown. A failed lookup makes
add-to-cart insert and the toggle like. A failed like query marks every product as not liked.

Modules, one per source unit:

- `Wrappers`: `Option` and `Result`.
- `Text`: the string operations JavaScript provides. These are the `\s` class, `replace` with a
  character class, `trim`, `split` and `join`.
- `Seqs`: filtering and mapping of sequences.
- `Store`: the rows, the store, `.single()` and the equality filters.
- `CartService` and `ProductService`: the two service files.
- `QueryCache`, `CartHooks`, `ProductHooks` and `OptimisticLike`: the query cache and the two
  hook files.
- `CartView` (the cart total) and `CartPage`: the cart page.
- `Checkout`, `Dashboard`, `ProductForm`, `ImageCarousel`, `RouteGuard` and `Navbar`: one page
  or component each.

Modelling choices:

- Row ids are `nat`s drawn from a counter in the store.
- User ids are opaque strings.
- Prices are `real`.
- `.single()` yields a row only when exactly one row matches. So when duplicates already exist,
  `addToCart` inserts yet another row and the like toggle keeps liking.
- JavaScript's `%`, truthiness and `||` defaults are written out where the source relies on
  them: an empty user id counts as missing, and `likes_count || 0` turns a count of 0 into 0.

## Model

| member | source | states |
|---|---|---|
| Store.Single | supabase/services/cart.ts:33-37 | `.single()` yields a row exactly when one row matches, and otherwise the "no rows" or "multiple rows" error |
| Store.ProductById | supabase/services/cart.ts:66-71 | the embedded `products (*)` join finds a product row with the cart row's product id, and is null exactly when no product has that id |
| CartService.UpdateCartItem | supabase/services/cart.ts:105-107 | only the quantity of the rows with that id changes; every other column and row, and the other tables, stay as they were; no lower bound on the quantity |
| Store.Lookup | supabase/services/cart.ts:33-39 | the lookup yields a row exactly when its request succeeds and exactly one row matches, and that row is the match; a failed request always yields an error |
| CartService.AddToCart | supabase/services/cart.ts:25-60 | the other tables are untouched; the cart grows by one row exactly when the lookup failed or did not find a single row, and otherwise keeps its length |
| CartService.AddToCartMergesExistingRow | supabase/services/cart.ts:39-46 | when the lookup answers and exactly one row exists for (user, product), it becomes the only row of the pair with quantity old + `quantity`; no row is inserted and every row with another id is unchanged |
| CartService.AddToCartInsertsNewRow | supabase/services/cart.ts:49-59 | when no row exists for the pair, whether or not the lookup answers, exactly one row with the given user, product and quantity and a fresh id is appended after the old rows |
| CartService.AddToCartWithDuplicatesInserts | supabase/services/cart.ts:33-37 | when two or more rows already exist for the pair, the failing `.single()` makes the call insert one more, whether or not the request failed |
| CartService.AddToCartPreservesWellFormed | supabase/services/cart.ts:50-57 | whether or not the lookup answers, the call keeps every row id fresh and unique |
| CartService.AddToCartKeepsPairsUnique | supabase/services/cart.ts:32-59 | a call whose lookup answers, on a table with at most one row per (user, product), keeps that invariant |
| CartService.FailedLookupDuplicatesRow | supabase/services/cart.ts:33-39 | a failed lookup when the pair already has its row inserts a second row for the pair, so the pairs are no longer unique |
| CartService.SerialAddsAccumulate | supabase/services/cart.ts:32-59 | after any series of serial adds for one pair whose lookups all answer, starting from at most one row, there is exactly one row, and its quantity is the old quantity plus the sum of the added quantities |
| CartService.AddToCartRaisesUserQuantity | supabase/services/cart.ts:39-59 | whichever branch is taken, and whether or not the lookup answers, the user's total quantity rises by exactly `quantity` and every other user's total stays the same |
| CartService.GetCartItems | supabase/services/cart.ts:66-71 | exactly the user's rows (as many as there are, every one of them, no other), each joined with its product or with null |
| CartService.RemoveFromCart | supabase/services/cart.ts:80-82 | the rows with that id are gone; every other row and the other tables stay |
| CartService.ClearCart | supabase/services/cart.ts:91-93 | no row of the user is left; every row of another user stays |
| CartService.ClearCartSparesOtherUsers | supabase/services/cart.ts:91-93 | every other user's rows are exactly as before, in order |
| ProductService.InsertNewestFirst | supabase/services/products.ts:139 | insertion keeps the newest-first order (null timestamps first) and adds exactly the one row |
| ProductService.OrderNewestFirst | supabase/services/products.ts:139 | `.order('created_at', { ascending: false })` gives a permutation of the rows that is newest first |
| ProductService.Matching | supabase/services/products.ts:132-136 | a row is selected exactly when it belongs to the user and, if a category other than empty or `"All"` is given, has that category |
| ProductService.Window | supabase/services/products.ts:140 | `.range(from, to)` gives the rows at offsets `from` through `to`, clipped to the result |
| ProductService.LikesCountOf | supabase/services/products.ts:166 | the count is the aggregate's first count, and 0 when the aggregate is missing or empty |
| ProductService.WithAggregates | supabase/services/products.ts:128-131 | each listed row carries the number of like rows of that product over all users |
| ProductService.LikedIds | supabase/services/products.ts:145-152 | a product id is in the liked set exactly when it is on the page and the user has a like row for it |
| ProductService.Overlay | supabase/services/products.ts:155-168 | every row keeps its columns, gets `likes_count` from the aggregate and `has_liked` from the liked set, in page order |
| ProductService.PageRows | supabase/services/products.ts:123-140 | page rows are the ordered result at offsets from `from`; at most `limit` of them; each is the user's, of the filtered category, newest first |
| ProductService.WithLikes | supabase/services/products.ts:142-168 | each page row has `has_liked` true exactly when the like query answered and the user's like row exists, and `likes_count` equal to the product's like rows |
| ProductService.GetUserProducts | supabase/services/products.ts:116-173 | a negative offset or limit fails; otherwise the result is page `page` of the ordered result; at most `limit` items; the user's items only, category-filtered, newest first, with the like overlay; the like query is sent exactly when the page is non-empty, and a failed like query marks every item not liked |
| ProductService.PagesDoNotOverlap | supabase/services/products.ts:123-124 | two different pages of the same listing share no product |
| ProductService.PageBeyondEnd | supabase/services/products.ts:138-142 | a page starting at or past the end of the result is empty and sends no like query |
| ProductService.ShortPageIsLast | supabase/services/products.ts:123-140 | after a page with fewer rows than the limit, the next page is empty |
| ProductService.FullPageMayBeLast | supabase/services/products.ts:138-140 | with exactly `limit` matching rows, page 1 is full and page 2 is still empty |
| ProductService.FailedLikeQueryHidesLikes | supabase/services/products.ts:145-152 | a failed like query leaves the listing's success, rows, counts and like-query flag as they were, and sets every item's `has_liked` to false |
| ProductService.ToggleProductLike | supabase/services/products.ts:227-250 | the reply is `liked = false` exactly when the lookup succeeded and `.single()` found the user's like; after the call the pair's like exists exactly when `liked`; no like of another pair changes |
| ProductService.ToggleTwiceRestoresLikes | supabase/services/products.ts:237-249 | with at most one like row for the pair and both lookups answering, two toggles report opposite states and restore the like relation |
| ProductService.ToggleWithDuplicatesNeverUnlikes | supabase/services/products.ts:231-237 | with duplicate like rows the toggle inserts another like and reports `liked = true`, whether or not the lookup request failed |
| ProductService.FailedLookupDuplicatesLike | supabase/services/products.ts:231-248 | a failed lookup on a product the user liked once reports `liked = true` and leaves two like rows for the pair |
| ProductService.GenerateShareId | supabase/services/products.ts:56-58 | the share id is 10 characters of the URL-safe alphabet |
| ProductService.CreateProduct | supabase/services/products.ts:85-113 | exactly one row with the given fields and a fresh id is appended; its share id is a 10-character URL-safe `generateShareId` token drawn from the random bytes; category and tags are stored as given, null when missing; the other tables are untouched |
| ProductService.GetProductByShareId | supabase/services/products.ts:188-197 | the product whose share id matches is returned when exactly one row carries it, and "no rows" exactly when none does |
| ProductService.GetProductById | supabase/services/products.ts:176-185 | the lookup succeeds exactly when one row has the id, and then returns a stored row with that id; "no rows" exactly when none has it |
| ProductService.PresentIdIsFound | supabase/services/products.ts:176-185 | with unique ids, as the primary key keeps them, every stored product is returned by a lookup of its id |
| ProductService.DeleteProduct | supabase/services/products.ts:219-221 | only the row with that id is removed; the other tables stay |
| ProductService.CreatedIsFoundByShareId | supabase/services/products.ts:188-194 | a product whose generated share id is unused is found again by that share id |
| ProductService.DeleteUndoesCreate | supabase/services/products.ts:219-221 | deleting the product just created restores the product table |
| ProductService.DeletedIsNotFound | supabase/services/products.ts:176-185 | after deleting id, looking it up gives "no rows" |
| QueryCache.Invalidate | hooks/useCart.ts:48-50 | every query whose key extends the prefix is marked stale with its data kept; no other query changes |
| QueryCache.InvalidateIdempotent | hooks/useCart.ts:48-50 | invalidating twice is invalidating once |
| QueryCache.SetQueryData | hooks/useProducts.ts:133 | the query holds the new data and is fresh; undefined data changes nothing; no other query changes |
| QueryCache.SetQueriesData | hooks/useProducts.ts:180-195 | only queries under the prefix are updated, and only where the updater returns data |
| QueryCache.Snapshot | hooks/useProducts.ts:177 | the snapshot holds exactly the queries under the prefix, with their data |
| QueryCache.Restore | hooks/useProducts.ts:199-206 | every snapshotted key with data holds that data again; other queries are untouched |
| QueryCache.ListQueryFn | hooks/useCart.ts:20-25 | the cart and product list queries yield `[]` without a user id (an empty id included), throw the service's error, and read a null list as `[]` |
| QueryCache.RestoreUndoesSetQueriesData | hooks/useProducts.ts:177-206 | snapshot, patch and restore give every query its old data back, with no query added or lost |
| CartHooks.CartList | hooks/useCart.ts:11-14 | `cartKeys.list(u)` is `['cart','list',u]` and extends `cartKeys.all` |
| CartHooks.CartListMatchesOnlyItsUser | hooks/useCart.ts:11-14 | one user's list filter matches another user's list key exactly when the users are the same |
| CartHooks.CartQueryReadsStore | hooks/useCart.ts:20-24 | for a signed-in user the query yields exactly that user's rows |
| CartHooks.RunCartMutation | hooks/useCart.ts:44-51 | a failed call changes nothing, whatever the add's lookup did; a successful one invalidates only the queries under `cartKeys.list(variables.userId)` |
| CartHooks.CartMutationSparesOtherQueries | hooks/useCart.ts:97-101 | no mutation touches a product query or another user's cart list |
| CartHooks.CartProductIds | hooks/useCart.ts:124-131 | the ids are exactly the `product_id`s of the cached items, and empty without data |
| CartHooks.CartProductIdsOfFetchedCart | hooks/useCart.ts:124-131 | once the cart is fetched, the ids are exactly the products the user has in the cart |
| ProductHooks.ProductList | hooks/useProducts.ts:20-21 | list keys extend `lists()` and have three more parts |
| ProductHooks.ProductDetail | hooks/useProducts.ts:22-23 | detail keys extend `details()` |
| ProductHooks.ProductByShareId | hooks/useProducts.ts:24 | share keys extend `all` |
| ProductHooks.KeyStructure | hooks/useProducts.ts:17-25 | list keys extend `lists()` and `all`; detail and share keys do not extend `lists()`; no product key extends the cart prefix |
| ProductHooks.ProductListInjective | hooks/useProducts.ts:20-21 | different user, page or category give different list keys |
| ProductHooks.UserProductsQueryReadsStore | hooks/useProducts.ts:34-39 | for a signed-in user and a page from 1 on, the query yields the listing's page of twelve, whether or not the like query failed |
| ProductHooks.SingleQueryFn | hooks/useProducts.ts:49-53 | null without an id; the service error is thrown; otherwise the returned row |
| ProductHooks.ShareQueryReadsStore | hooks/useProducts.ts:62-68 | the share query returns a product with that share id, and "no rows" exactly when none has it |
| ProductHooks.ListsInvalidated | hooks/useProducts.ts:107-110 | create and delete success mark every list stale and touch nothing else |
| ProductHooks.UpdateSucceeded | hooks/useProducts.ts:130-137 | the returned product is stored under its detail key; every list is stale; nothing else changes |
| ProductHooks.ToggleLikeMutation | hooks/useProducts.ts:172-206 | a failure leaves the store alone and restores every list's data; a success toggles the like, through a lookup that may fail, and leaves every defined list patched; non-list queries are never touched |
| ProductHooks.LikeMutationKeepsListsTrue | hooks/useProducts.ts:180-195 | a cached list that showed the store's like state still shows it after a successful toggle whose lookup answered |
| OptimisticLike.PatchList | hooks/useProducts.ts:184-193 | same length and order; only the matching product changes, with `has_liked` flipped and `likes_count` moved by -1 or +1 |
| OptimisticLike.PatchTwiceRestores | hooks/useProducts.ts:184-193 | patching twice is the identity on products with both like fields present |
| OptimisticLike.PatchAgreesWithServer | hooks/useProducts.ts:185-191 | with at most one like row for the pair and a lookup that answers, the patched product shows the store after the toggle |
| OptimisticLike.ToggleSparesOtherProducts | supabase/services/products.ts:237-249 | a toggle of one product, whether or not its lookup answers, leaves every other product's like rows unchanged |
| CartView.Total | app/cart/page.tsx:63-67 | an empty cart totals 0 |
| CartView.TotalFromFront | app/cart/page.tsx:63-67 | the total is the first line plus the total of the rest |
| CartView.TotalWithoutProducts | app/cart/page.tsx:65 | items without a joined product count as 0 |
| CartView.TotalNonNegative | app/cart/page.tsx:63-67 | with non-negative prices and quantities the total is non-negative |
| CartView.TotalAfterQuantityChange | app/cart/page.tsx:51-53 | changing one item's quantity moves the total by its price times the change |
| CartPage.FetchCart | app/cart/page.tsx:16-25 | nothing without a user; a read that comes back makes the items the user's cart; a failed read keeps the items; loading ends either way |
| CartPage.HandleRemoveItem | app/cart/page.tsx:37-45 | a failed delete leaves the list alone; a successful one refetches, so the removed id is gone unless that read fails and the list stays; `removing` ends cleared |
| CartPage.PatchQuantity | app/cart/page.tsx:51-53 | same length and order; only the items with that id change, and only in quantity |
| CartPage.HandleUpdateQuantity | app/cart/page.tsx:47-61 | below 1 nothing changes and no request is sent; otherwise the list is patched and the row updated; an error leaves the store alone and refetches the list, and if that read fails too the patch stays |
| CartPage.DecrementEnabled | app/cart/page.tsx:118 | `disabled={item.quantity <= 1}`: enabled exactly above quantity 1; `DecrementStaysPositive` shows an enabled click always passes the handler's guard |
| CartPage.DecrementStaysPositive | app/cart/page.tsx:116-118 | an enabled decrement is always sent to the store: the handler's guard against quantities below 1 never refuses it |
| CartPage.PatchMatchesServer | app/cart/page.tsx:51-55 | the optimistic patch of the fetched cart equals a fetch after the update |
| CartPage.UpdateKeepsPageTrue | app/cart/page.tsx:47-61 | a page that shows the user's cart still does after an update that succeeded or was reverted by a refetch that came back |
| CartPage.FailedRevertShowsStaleQuantity | app/cart/page.tsx:19-24 | when the update and the reverting read both fail, the page shows a quantity the store never took |
| CartPage.UpdateMovesTotal | app/cart/page.tsx:51-53 | a successful update of a shown item moves the total by its price times the change |
| Checkout.Group | app/checkout/page.tsx:128 | grouping adds one space per complete group of four that is followed by a digit, and ends on the last digit |
| Checkout.GroupSpaces | app/checkout/page.tsx:128 | in the grouped string, a space stands exactly at every fifth position |
| Checkout.GroupKeepsDigits | app/checkout/page.tsx:126-128 | stripping the spaces from the grouped string gives the digits back |
| Checkout.FormatCardNumber | app/checkout/page.tsx:124-130 | only digits and spaces; the digits are the input's digits in order; a space exactly at every fifth position; never a trailing space |
| Checkout.CardNumberIdempotent | app/checkout/page.tsx:126-128 | formatting twice equals formatting once |
| Checkout.MonthValue | app/checkout/page.tsx:150 | two leading digits read as a month from 0 to 99 |
| Checkout.FormatExpiry | app/checkout/page.tsx:146-157 | fewer than two digits are only filtered; otherwise the month becomes `12` above 12 and `01` at 0 and is kept otherwise, `/` follows it, and the remaining digits follow unchanged |
| Checkout.ExpiryIdempotent | app/checkout/page.tsx:147-155 | formatting the formatted expiry changes nothing |
| Checkout.FormatCvv | app/checkout/page.tsx:172-175 | only digits, exactly the input's digits |
| Checkout.FormatName | app/checkout/page.tsx:191-195 | only ASCII letters and whitespace, exactly those of the input |
| Checkout.FiltersIdempotent | app/checkout/page.tsx:172-195 | the CVV and name filters leave filtered text alone |
| Checkout.LoadCheckout | app/checkout/page.tsx:25-38 | an empty cart sends the router to `/cart` and sets neither the items nor the loading flag; a non-empty cart becomes the items; a failed read only ends loading, with no redirect |
| Checkout.EmptyCartRedirects | app/checkout/page.tsx:31-34 | a user without cart rows is redirected from the initial state and sees no items |
| Checkout.FailedLoadShowsEmptyForm | app/checkout/page.tsx:28-37 | a failed first read shows the form over an empty order with total 0 and no redirect, whatever the cart holds |
| Checkout.HandleCheckout | app/checkout/page.tsx:56-70 | the user's cart is cleared, the delete's error is ignored (the store stays as it was), and the order is completed with processing off either way |
| Checkout.CheckoutEmptiesCart | app/checkout/page.tsx:63-69 | after a checkout whose delete went through, the user's cart is empty, its total and quantity sum are 0, and other users' rows are unchanged |
| Checkout.CompletedWithRowsKept | app/checkout/page.tsx:63-69 | when the delete fails, the order is shown as completed and the user's cart rows are all still there |
| Dashboard.FetchProducts | app/dashboard/page.tsx:53-63 | with a user, a page from 1 on and a read that comes back, the products are the store's listing and `hasMore` is true exactly when twelve came back; a failed like query gives the same listing with every product not liked; a failed read keeps products and `hasMore`; loading ends and nothing else changes |
| Dashboard.FailedLikeQueryShowsUnliked | supabase/services/products.ts:145-152 | a fetch whose like query fails shows a liked product as not liked, so the page is not current |
| Dashboard.FetchCart | app/dashboard/page.tsx:44-51 | a read that comes back makes the cart ids exactly the products the user has cart rows for; a failed read keeps the old ids |
| Dashboard.Refresh | app/dashboard/page.tsx:71-78 | after the load effect the page shows the store's listing when the product read came back, and the store's cart ids when the cart read did; a failed read keeps what it would have replaced |
| Dashboard.NoMoreMeansNextPageEmpty | app/dashboard/page.tsx:57-60 | on a current page with the next button disabled, the next page of the same category is empty |
| Dashboard.FullLastPageStrandsUser | app/dashboard/page.tsx:423-441 | a first page holding all twelve of twelve products enables Next, because `hasMore` only asks whether twelve came back; after Next and a refresh page 2 is empty, so the controls are not rendered although Previous would be enabled |
| Dashboard.PreviousEnabled | app/dashboard/page.tsx:427 | `disabled={page === 1}`: the button is enabled exactly where a click would change the state |
| Dashboard.NextEnabled | app/dashboard/page.tsx:437 | `disabled={!hasMore}`: enabled exactly when the last fetch filled all twelve slots; `NoMoreMeansNextPageEmpty` shows that a disabled button hides no products, and `FullLastPageStrandsUser` that an enabled one can lead to an empty page |
| Dashboard.ControlsShown | app/dashboard/page.tsx:423 | `products.length > 0`: the pagination controls are rendered only over a non-empty page, which `FullLastPageStrandsUser` shows strands the user on an empty page 2 |
| Dashboard.Previous | app/dashboard/page.tsx:426 | the page goes down by one and never below 1 |
| Dashboard.Next | app/dashboard/page.tsx:436 | the page goes up by one and nothing else changes |
| Dashboard.ChangeCategory | app/dashboard/page.tsx:294-296 | a category change resets the page to 1 |
| Dashboard.NavigationStaysOnValidPages | app/dashboard/page.tsx:425-441 | no control reaches a page below 1; a disabled Previous changes nothing; Previous undoes Next |
| Dashboard.NavigationThenRefreshIsCurrent | app/dashboard/page.tsx:65-79 | after any control, the load effect shows the store's page when the product read comes back |
| Dashboard.HandleToggleLike | app/dashboard/page.tsx:204-226 | ignored without a user or while a like is in flight; otherwise the list is patched and the toggle sent, through a lookup that may fail; a failure reloads the products; `liking` ends cleared |
| Dashboard.LikeIgnoredWhileInFlight | app/dashboard/page.tsx:205 | a like click while another is in flight changes nothing and sends nothing |
| Dashboard.ListingIgnoresCart | supabase/services/products.ts:127-152 | the listing depends only on the products and likes tables, whether or not the like query fails |
| Dashboard.ToggleKeepsPageCurrent | app/dashboard/page.tsx:209-224 | a current page stays current through a like toggle that succeeded with its lookup answering, or that failed and was reloaded by a read whose two queries answered |
| Dashboard.FailedToggleLeavesPageStale | app/dashboard/page.tsx:208-223 | when the toggle and the reload both fail, the page keeps a like count the unchanged store does not have, so it is no longer current |
| Dashboard.FailedLookupLeavesPageStale | supabase/services/products.ts:231-248 | a toggle whose lookup fails on a product liked once shows it unliked while the store still holds the like, so the page is not current |
| Dashboard.HandleAddToCart | app/dashboard/page.tsx:159-202 | ignored without a user; otherwise one unit is added, through a lookup that may fail, and, on success, the cart ids are refetched, or kept when that read fails; the adding marker ends cleared |
| Dashboard.AddToCartEnabled | app/dashboard/page.tsx:401 | the button is enabled exactly when that product is neither being added nor among the cart ids; `AddedProductIsDisabled` shows it is disabled after a successful add |
| Dashboard.AddedProductIsDisabled | app/dashboard/page.tsx:399-401 | after a successful add, whether or not its lookup answered, the page is still current, and once the ids are read back the product is among them and its button is disabled |
| Dashboard.AddedPairIsInCart | supabase/services/cart.ts:39-59 | whichever branch add-to-cart takes, and whether or not its lookup answers, the user then has a row for the product |
| Dashboard.HandleDeleteProduct | app/dashboard/page.tsx:140-148 | a failed delete changes nothing; a successful one deletes the product and refetches the page, a read that may itself fail |
| Dashboard.DeletedProductLeavesPage | app/dashboard/page.tsx:143-146 | after a successful delete whose refetch comes back, the page is current and the deleted product is not on it |
| Dashboard.HandleCreateProduct | app/dashboard/page.tsx:82-122 | ignored without a user; a success creates the product with the form's category and tags, closes the form and refetches, a read that may itself fail |
| Dashboard.CreateKeepsPageCurrent | app/dashboard/page.tsx:102-104 | after a successful create whose refetch comes back, the page is current, and the store holds the new product with a well-formed share id and its category |
| ProductForm.ParseTags | components/ProductForm.tsx:92 | no parsed tag is empty, has surrounding whitespace or contains a comma; empty text gives no tags |
| ProductForm.ParseOnePiece | components/ProductForm.tsx:92 | comma-free text gives its trimmed form as the only tag, or no tag when it is blank |
| ProductForm.ParseTagsAppend | components/ProductForm.tsx:92 | the tags of `a,b` are the tags of `a` followed by the tags of `b`, so every typed piece is parsed in order |
| ProductForm.OneTag | components/ProductForm.tsx:92 | one tag typed between blanks parses to that tag alone |
| ProductForm.ParseTagsRecoversShownTags | components/ProductForm.tsx:34 | tags that are non-empty, trimmed and comma-free come back unchanged from being shown joined with `", "` and parsed |
| ProductForm.InitialForm | components/ProductForm.tsx:30-38 | the fields come from the product, the category is `'Electronics'` when missing or empty, the tags are shown joined with `", "`, and no error or loading state is set |
| ProductForm.PriceField | components/ProductForm.tsx:182-185 | an unparseable price becomes 0 and no other field changes |
| ProductForm.RemoveImage | components/ProductForm.tsx:70-72 | removing index `i` drops exactly that image; an index outside the list changes nothing |
| ProductForm.RemoveImageKeepsOthers | components/ProductForm.tsx:70-72 | the images before `i` keep their places and the ones after move up by one |
| ProductForm.LastError | components/ProductForm.tsx:45-63 | the error is empty exactly when every file uploaded, and otherwise one of the two upload messages |
| ProductForm.UploadStep | components/ProductForm.tsx:49-64 | each file adds its URL only when it uploaded, and sets the error only when it failed |
| ProductForm.HandleImageUpload | components/ProductForm.tsx:40-68 | no files change nothing; otherwise the uploaded URLs are appended after the existing ones in file order, and the error is that of the last failed file |
| ProductForm.UploadAppendsInOrder | components/ProductForm.tsx:58-66 | every appended URL comes from an image file that uploaded |
| ProductForm.HandleSubmit | components/ProductForm.tsx:74-99 | without images the error is set and nothing is submitted; otherwise the fields and the parsed tags are submitted, and a thrown error is shown and ends loading |
| ProductForm.UntouchedFormSubmitsInitialData | components/ProductForm.tsx:30-35 | an untouched edit form submits the product it was opened with |
| ImageCarousel.JsRem | components/ImageCarousel.tsx:16 | for a non-negative left operand, `%` agrees with the mathematical remainder |
| ImageCarousel.Next | components/ImageCarousel.tsx:15-17 | the index stays in `[0, n)`; it goes up by one, and wraps to 0 from the last image |
| ImageCarousel.Prev | components/ImageCarousel.tsx:19-21 | the index stays in `[0, n)`; it goes down by one, and wraps to the last image from 0 |
| ImageCarousel.PrevNextInverse | components/ImageCarousel.tsx:15-21 | previous undoes next and next undoes previous |
| ImageCarousel.FullTurnReturns | components/ImageCarousel.tsx:15-17 | `n` presses of next return to the starting image |
| ImageCarousel.PickTargets | components/ImageCarousel.tsx:53-56 | with at least two images there is one dot per image, carrying its index; otherwise none |
| ImageCarousel.Press | components/ImageCarousel.tsx:56 | every offered click leaves the index on an image |
| ImageCarousel.Run | components/ImageCarousel.tsx:13-21 | any run of offered clicks keeps the index on an image |
| ImageCarousel.Render | components/ImageCarousel.tsx:23-36 | empty images render nothing; the arrows show exactly with two or more images; the current image shows exactly when the index is in range |
| ImageCarousel.ClicksAlwaysShowAnImage | components/ImageCarousel.tsx:28-31 | from image 0, every offered click sequence leaves the current image on screen |
| RouteGuard.AnyPrefix | middleware.ts:17 | the path starts with one of the prefixes |
| RouteGuard.ProtectedMeansPrefixed | middleware.ts:16-17 | a path is protected exactly when it starts with `/dashboard`, `/cart` or `/checkout`, so `/cartx` is protected too |
| RouteGuard.Decide | middleware.ts:16-28 | to `/login` exactly for a protected path without a session; to `/dashboard` exactly for `/login` or `/register` with a session; pass otherwise |
| RouteGuard.RedirectsSettle | middleware.ts:19-26 | the target of a redirect passes |
| RouteGuard.Guard | middleware.ts:31-33 | paths outside the matcher always pass |
| RouteGuard.LoginReachableWithoutSession | middleware.ts:16-28 | `/login` is reachable without a session, and protected pages are reachable with one |
| Navbar.SumQuantities | components/Navbar.tsx:24 | the loop computes the sum of the rows' quantities |
| Navbar.CountRead | components/Navbar.tsx:15-38 | one run of the effect: without a user the count is 0 and no query is sent; otherwise it is the user's quantity sum, or unchanged when the query failed |
| Navbar.CartState | components/Navbar.tsx:15-38 | the effect with the reduce loop computes exactly that outcome |
| Navbar.OnRender | components/Navbar.tsx:29-38 | the effect runs again only when the user id changes; otherwise the count stays and nothing is queried |
| Navbar.BadgeShown | components/Navbar.tsx:70 | `cartCount > 0`: the badge is rendered exactly for a positive count; `NextCountAfterAdd` and `NextCountAfterCheckout` say when the next count is shown |
| Navbar.PositiveRowsCount | components/Navbar.tsx:24 | positive quantities give a positive count exactly when there is a row |
| Navbar.NextCountAfterCheckout | components/Navbar.tsx:15-27 | after checkout clears the cart, the count query reads 0 on its next run |
| Navbar.NextCountAfterAdd | components/Navbar.tsx:15-27 | after one unit is added, whether or not the add's lookup answered, the count query reads one more on its next run, and that count is shown |
| Navbar.BadgeStaleAfterCheckout | components/Navbar.tsx:29-38 | for the same user the badge is not re-read after checkout, so a shown positive count stays on screen while the cart is empty |
| Text.Lead | components/ProductForm.tsx:92 | the count of leading `\s` characters: all before it are blank, the one at it is not |
| Text.Trim | components/ProductForm.tsx:92 | the result is the input from its first non-blank character, only blanks follow it, and it has no `\s` at either end, which fixes it |
| Text.TrimAround | components/ProductForm.tsx:92 | trimming blanks around trimmed text gives that text |
| Text.TrimAfterBlank | components/ProductForm.tsx:34 | the blank `join(', ')` puts in front of a trimmed tag is trimmed away again |
| Text.Split | components/ProductForm.tsx:92 | `split(',')` gives at least one piece, none holding a comma, and joining them gives the text back |
| Text.SplitJoin | components/ProductForm.tsx:92 | splitting comma-free pieces joined with `,` gives the pieces back |
| Text.Keep | app/checkout/page.tsx:126 | `replace` with a negated class keeps exactly the characters of the class |
| Text.KeepIdempotent | app/checkout/page.tsx:173 | filtering twice is filtering once |

## Left out

- Network, auth sessions and the database client are left out. The store is in memory and the session is a boolean. A failed request is one of the boolean inputs listed at the top: `fails`, `readFails`, `refetchFails`, `lookupFails` or `likesFail`.
- `updateProduct` in the products service: only the success effect of its hook is modelled (`ProductHooks.UpdateSucceeded`), with the returned row as a parameter. The row update itself has no caller in the modelled pages.
- `uploadProductImage` is left out. Each file's upload result is an input of `ProductForm.HandleImageUpload` (`FileUpload.url`).
- ProductService.GenerateShareId: the random source is a parameter. The model only promises length and alphabet, not nanoid's exact byte-to-character mapping.
- ProductService.GetUserProducts: rows with equal `created_at` are listed in table order. The database does not promise any tie order.
- ProductService.PagesDoNotOverlap rests on that same tie order. Every page query in the model sorts the same way. Two real page queries may order rows with equal `created_at` differently, and then two pages can share a product.
- The navigation bar is mounted once, and its effect reruns only when the user id changes (`Navbar.OnRender`). So after an add or a checkout the badge keeps its old count until the user changes. `Navbar.NextCountAfterAdd` and `Navbar.NextCountAfterCheckout` state what the count query would read on its next run, not what is shown.
- Cascade deletes of cart and like rows when a product is deleted are left out. The schema is not part of this model.
- Refetch scheduling, retries, cache garbage collection and `cancelQueries` are library behaviour. Invalidation only marks a query stale.
- Races and timing are left out: overlapping requests, late replies, the checkout's two-second delay, and handlers that read stale closures. Every handler and every non-awaited refetch runs atomically and to completion.
- The `maxLength` limits and `required` attributes of the checkout inputs are browser behaviour and are left out. So `Checkout.HandleCheckout` accepts empty fields, which the browser's form validation would block (app/checkout/page.tsx:131, 158, 176, 196).
- Floating point is left out. Prices are exact reals, `toFixed` display is not modelled, and `parseFloat` is an `Option<real>` input of `ProductForm.PriceField`.
- Modals, navigation links, loading spinners and other rendering are left out, apart from the carousel's visible parts and the badge.
- The dashboard's redirect to `/login` without a user is left out. Only the middleware's redirect decision is modelled.
- Dashboard.ToggleKeepsPageCurrent requires at most one like row for the (user, product) pair. With duplicates the toggle keeps inserting likes (see `ProductService.ToggleWithDuplicatesNeverUnlikes`), and the patch then disagrees with the store. It promises nothing when the toggle's lookup fails or the reload's like query fails. Those cases are stated by `Dashboard.FailedLookupLeavesPageStale` and `Dashboard.FailedLikeQueryShowsUnliked`.
- CartService.AddToCartKeepsPairsUnique and CartService.SerialAddsAccumulate promise nothing when a lookup fails. A failed lookup inserts a duplicate row (`CartService.FailedLookupDuplicatesRow`).
- OptimisticLike.PatchAgreesWithServer has the same one-like-row precondition, for the same reason.
- ProductHooks.LikeMutationKeepsListsTrue has the same one-like-row precondition, for the same reason.
- ProductService.ToggleTwiceRestoresLikes has the same one-like-row precondition and holds only when both lookups answer. The duplicate case and the failed lookup are stated separately.
- Dashboard.FetchProducts promises a current page only for page numbers from 1 on. The controls never leave that range.
- CartService.GetCartItems states which rows are returned and how many, but not that they come in table order.
- CartView.Total states only the empty-cart value in its own contract. The fold's other properties are the lemmas that follow it.
