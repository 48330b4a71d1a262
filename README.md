# Renewed Furniture Hub backend: a Dafny model of its consistency rules

Renewed Furniture Hub is a marketplace backend for second-hand furniture. Its
handlers read one table, check a rule, and rewrite the table. This project models
those handlers and the two route guards in front of them, and proves the rules
they keep:

- **Cart** (`CartController`): addToCart merges a repeated (user, product) pair into
  the existing row. Setting a quantity to 0 deletes the row. Remove and clear touch
  only the caller's rows.
- **Address** (`AddressController`): a user has at most one default address. The
  rule is kept by clearing all of the user's defaults before one is set.
  upsertAddress always inserts a new row.
- **Wishlist** (`WishlistController`): add is idempotent. Remove and clear are
  scoped to the caller.
- **Sale** (`SaleController`): addSale refuses a sale whose name is taken by a sale
  with an intersecting closed time interval. updateSale makes no such check.
- **Furniture** (`FurnitureController`): a listing is pending until an admin
  approves it, and declining deletes it. The public queries see approved listings
  only. Only the owner or an admin may update or delete a listing. An update writes
  only a whitelist of fields.
- **Banner carousel** (`BannerController`): the slides are the active banners,
  newest first, mapped field by field. createBanner needs an uploaded image.
- **Auth guards** (`AuthMiddleware`): `protect` takes the second space-separated
  word of the Authorization header as the token, verifies it, and loads the user.
  `admin` admits administrators only.

Each table is a class holding a `seq` of records and the next key. Each handler is
a method that changes the table and returns a `Reply` with a status and a JSON
payload. The new table is stated as a function of the old one (`AddedToCart`,
`WithDefault`, `UpdatedFurniture`, …). The rules are proved as lemmas about those
functions. The table classes for Cart, Address, Wishlist, Sale and Furniture carry a
`Valid()` invariant, and every handler preserves it. It always requires unique
keys below the next key to be handed out. Three tables add their own rule:

- Cart: at most one row per (user, product) pair.
- Address: at most one default address per user.
- Wishlist: at most one row per (user, product) pair.

The Sale and Furniture invariants hold keys only. The Sale rule that no two
same-named sales overlap is not part of the invariant: addSale and deleteSale
preserve it (`AddSaleKeepsNoOverlap`, `DeleteSaleKeepsNoOverlap`), but updateSale
can break it (`UpdateSaleMayBreakNoOverlap`). `BannerCollection` and the `Request`
of the auth guards have no invariant. `Seqs` holds the
generic sequence facts: `Filter` for `where` clauses, `FindFirst` for
`findOne`/`findById`, and `Pairwise` for uniqueness.

## Model

| member | source | states |
|---|---|---|
| CartController.FindOwnedRow | controllers/cartController.js:42 | with unique keys, the `(id, userId)` lookup finds the one row carrying both |
| CartController.AddToCartMergesExisting | controllers/cartController.js:23-26 | an existing (user, product) row gets quantity old + requested, and no row is added |
| CartController.AddToCartInsertsNew | controllers/cartController.js:27-28 | with no such row, exactly one row (userId, productId, quantity) is appended |
| CartController.AddToCartKeepsInvariant | controllers/cartController.js:23-29 | addToCart keeps keys unique and at most one row per (userId, productId) |
| CartController.UpdateCartItemMissing | controllers/cartController.js:42-43 | updateCartItem (and removeCartItem) leave the table unchanged when the caller owns no row `id` |
| CartController.UpdateCartItemZeroDeletes | controllers/cartController.js:44-46 | quantity exactly 0 deletes that row and no other |
| CartController.UpdateCartItemOverwrites | controllers/cartController.js:48-50 | a non-zero quantity overwrites that row's quantity; every other row is unchanged |
| CartController.RemoveCartItemDeletesMatch | controllers/cartController.js:61-64 | removeCartItem deletes exactly the caller's row `id` |
| CartController.ClearCartScoped | controllers/cartController.js:74 | clearCart leaves the caller no rows and every other user's cart unchanged |
| CartController.AddToCartKeepsOtherUsers | controllers/cartController.js:23-28 | addToCart does not change other users' carts |
| CartController.UpdateCartItemKeepsOtherUsers | controllers/cartController.js:42-50 | updateCartItem does not change other users' carts |
| CartController.RemoveCartItemKeepsOtherUsers | controllers/cartController.js:61-64 | removeCartItem does not change other users' carts |
| CartController.CartTable.constructor | models/Cart.js:6-26 | an empty Cart table satisfying the invariant |
| CartController.CartTable.GetCart | controllers/cartController.js:5-16 | 200 with exactly the caller's rows, in table order |
| CartController.CartTable.AddToCart | controllers/cartController.js:19-34 | the new table is the merge-or-insert; the reply is always 201 with the stored row |
| CartController.CartTable.UpdateCartItem | controllers/cartController.js:37-54 | 404 "Cart item not found" with no change, 200 "Item removed (quantity was 0)", or 200 with the updated row |
| CartController.CartTable.RemoveCartItem | controllers/cartController.js:57-68 | 404 with no change, or the row destroyed and "Item removed" |
| CartController.CartTable.ClearCart | controllers/cartController.js:71-79 | the caller's rows destroyed and "Cart cleared" |
| AddressController.UpsertAppendsOne | controllers/adressController.js:40-48 | upsertAddress appends exactly one address and edits no field of an existing one except isDefault |
| AddressController.UpsertDefaultIsOnlyDefault | controllers/adressController.js:33-48 | with isDefault true, the new address is the caller's only default |
| AddressController.UpsertNonDefaultKeepsRows | controllers/adressController.js:29-48 | with isDefault omitted or false, existing addresses are unchanged and the new one is not default |
| AddressController.ClearDefaultsKeepsInvariant | controllers/adressController.js:34-37 | the bulk clear keeps the invariant and leaves the caller no default address |
| AddressController.UpsertKeepsInvariant | controllers/adressController.js:33-48 | upsertAddress keeps at most one default per user and unique keys |
| AddressController.SetDefaultMissing | controllers/adressController.js:66-70 | setDefaultAddress on an address the caller does not own changes nothing |
| AddressController.SetDefaultOnlyDefault | controllers/adressController.js:73-77 | intended behaviour (see Findings): afterwards the selected address is the caller's only default; only isDefault fields change; other users are untouched |
| AddressController.SetDefaultIdempotent | controllers/adressController.js:73-77 | intended behaviour (see Findings): setting the same default twice gives the same table as once |
| AddressController.SetDefaultAsWrittenLosesDefault | controllers/adressController.js:66-77 | as written, the result matches the intended one unless the chosen address was already the default; then none of the caller's addresses is default |
| AddressController.SetDefaultAsWrittenNotIdempotent | controllers/adressController.js:66-77 | as written, choosing the current default once clears it and choosing it again restores it |
| AddressController.SetDefaultKeepsInvariant | controllers/adressController.js:73-77 | setDefaultAddress keeps at most one default per user and unique keys |
| AddressController.AddressTable.constructor | models/Adress.js:5-41 | an empty Address table satisfying the invariant |
| AddressController.AddressTable.GetAddress | controllers/adressController.js:5-17 | 200 with exactly the caller's addresses |
| AddressController.AddressTable.UpsertAddress | controllers/adressController.js:20-58 | isDefault defaults to false; the new table is the upsert; 200 "Address saved" with the new row |
| AddressController.AddressTable.SetDefaultAddress | controllers/adressController.js:61-83 | 404 "Address not found" with no change, or the intended table (see Findings) and 200 "Default address updated" with the row now default |
| WishlistController.Entries | controllers/wishlistController.js:9-24 | one reply entry per caller row, in order, with id, userId, productId and timestamps copied |
| WishlistController.AddedPairPresent | controllers/wishlistController.js:39-42 | after addToWishlist the requested (userId, productId) pair is present |
| WishlistController.AddToWishlistCases | controllers/wishlistController.js:39-42 | an existing pair leaves the table unchanged; otherwise exactly one row is appended |
| WishlistController.AddToWishlistIdempotent | controllers/wishlistController.js:39-42 | two identical adds give the same table as one |
| WishlistController.AddToWishlistKeepsInvariant | controllers/wishlistController.js:39-42 | addToWishlist keeps (userId, productId) pairs and keys unique |
| WishlistController.RemoveWishlistItemCases | controllers/wishlistController.js:67-70 | no change unless a row matches both id and caller; a match removes exactly that row |
| WishlistController.ClearWishlistScoped | controllers/wishlistController.js:81 | clearWishlist removes all and only the caller's rows |
| WishlistController.WishlistOpsKeepOtherUsers | controllers/wishlistController.js:39-70 | add and remove by one user leave other users' wishlists unchanged |
| WishlistController.WishlistTable.constructor | models/wishlist.js:6-22 | an empty Wishlist table satisfying the invariant |
| WishlistController.WishlistTable.GetWishlist | controllers/wishlistController.js:5-30 | 200 with the caller's entries |
| WishlistController.WishlistTable.AddToWishlist | controllers/wishlistController.js:33-59 | 200 "Already in wishlist" with no change, or 201 with the new entry |
| WishlistController.WishlistTable.RemoveWishlistItem | controllers/wishlistController.js:62-75 | 404 "Wishlist item not found" with no change, or the row removed |
| WishlistController.WishlistTable.ClearWishlist | controllers/wishlistController.js:78-86 | the caller's rows deleted and "Wishlist cleared" |
| SaleController.AddSaleRejectsClash | controllers/saleController.js:10-21 | a same-named sale with start ≤ new end and end ≥ new start makes addSale a no-op |
| SaleController.AddSaleTouchingEndpointRejected | controllers/saleController.js:13 | intervals are closed: a same-named sale that only touches an endpoint still blocks |
| SaleController.AddSaleAppendsWhenFree | controllers/saleController.js:10-32 | sales of other names never block; when nothing blocks, exactly one sale is appended with the given fields and creator |
| SaleController.AddSaleKeepsNoOverlap | controllers/saleController.js:10-32 | addSale preserves "no two same-named sales overlap" |
| SaleController.DeleteSaleKeepsNoOverlap | controllers/saleController.js:76 | deleteSale preserves "no two same-named sales overlap" |
| SaleController.UpdateSaleMayBreakNoOverlap | controllers/saleController.js:55-59 | a concrete renaming through updateSale produces two overlapping same-named sales |
| SaleController.UpdateSaleOnlyThatSale | controllers/saleController.js:55-63 | an absent key changes nothing; otherwise only that sale changes, with its absent patch fields kept |
| SaleController.DeleteSaleRemovesExactly | controllers/saleController.js:76-82 | an absent key changes nothing; otherwise exactly that sale is removed |
| SaleController.SaleCollection.constructor | models/Sale.js:3-29 | an empty Sale collection satisfying the invariant |
| SaleController.SaleCollection.AddSale | controllers/saleController.js:5-37 | 400 with the conflict message and no change, or 201 "Sale created successfully" with the new sale |
| SaleController.SaleCollection.GetSales | controllers/saleController.js:40-47 | 200 with every sale |
| SaleController.SaleCollection.UpdateSale | controllers/saleController.js:50-69 | 404 "Sale not found" with no change, or 200 "Sale updated successfully" with the patched sale |
| SaleController.SaleCollection.DeleteSale | controllers/saleController.js:72-86 | 404 with no change, or the sale removed and "Sale deleted successfully" |
| FurnitureController.SetFieldPatched | controllers/furnitureController.js:165 | one field assignment extends the reference partial update by that field |
| FurnitureController.ApplyFieldsIsPatched | controllers/furnitureController.js:164-166 | the field-by-field loop equals the declarative partial update over the same field names |
| FurnitureController.UpdatedItemFields | controllers/furnitureController.js:155-170 | only whitelisted fields present in the body change; id, owner, approved and sale never change; images are replaced only by a non-empty file list |
| FurnitureController.CreateFurnitureCases | controllers/furnitureController.js:11-28 | no images: nothing stored; otherwise one listing, owned by the caller, approved iff the caller is admin, Available, no sale |
| FurnitureController.ListingsPartition | controllers/furnitureController.js:44-94 | the approved and pending lists partition the collection, as multisets and by membership |
| FurnitureController.GetByIdHidesPending | controllers/furnitureController.js:58-68 | a listing that exists but is not approved is not found by getFurnitureById |
| FurnitureController.ApproveFurnitureSetsFlag | controllers/furnitureController.js:108-116 | a missing key changes nothing; otherwise only `approved` becomes true; approving twice equals once |
| FurnitureController.DeclineFurnitureRemoves | controllers/furnitureController.js:127-132 | a missing key changes nothing; otherwise the listing is removed whatever its approval |
| FurnitureController.ModifyRequiresOwnerOrAdmin | controllers/furnitureController.js:148-193 | a caller who is neither owner nor admin changes nothing by update or delete |
| FurnitureController.ModifyByOwnerOrAdmin | controllers/furnitureController.js:155-194 | an authorised update rewrites only that listing; an authorised delete removes it outright |
| FurnitureController.FurnitureCollection.constructor | models/Furniture.js:3-55 | an empty collection satisfying the invariant |
| FurnitureController.FurnitureCollection.CreateFurniture | controllers/furnitureController.js:6-37 | 400 "At least one image is required" with no change, or 201 "Furniture uploaded" with the new listing |
| FurnitureController.FurnitureCollection.GetFurniture | controllers/furnitureController.js:42-51 | 200 with exactly the approved listings |
| FurnitureController.FurnitureCollection.GetUnapprovedFurniture | controllers/furnitureController.js:78-87 | 200 with exactly the pending listings |
| FurnitureController.FurnitureCollection.GetAllFurniture | controllers/furnitureController.js:92-101 | 200 with every listing |
| FurnitureController.FurnitureCollection.GetFurnitureById | controllers/furnitureController.js:56-73 | 200 with the listing exactly when an approved listing has the id, otherwise 404 "Furniture not found or not approved" |
| FurnitureController.FurnitureCollection.ApproveFurniture | controllers/furnitureController.js:106-120 | 404 "Furniture not found" with no change, or 200 "Furniture approved" with the approved listing |
| FurnitureController.FurnitureCollection.DeclineFurniture | controllers/furnitureController.js:125-136 | 404 with no change, or the listing deleted and "Furniture declined and removed" |
| FurnitureController.FurnitureCollection.UpdateFurniture | controllers/furnitureController.js:141-176 | 404 first, then 403 "Not authorized", else the whitelist loop applied and 200 "Furniture updated" |
| FurnitureController.FurnitureCollection.DeleteFurniture | controllers/furnitureController.js:181-199 | 404 first, then 403 "Not authorized", else the listing hard-deleted and "Furniture deleted" |
| BannerController.InsertNewest | controllers/bannerController.js:6 | inserting into a newest-first list keeps it newest first and adds exactly that banner |
| BannerController.SortNewestFirst | controllers/bannerController.js:6 | the sort's output is ordered by createdAt non-increasing and is a permutation of its input |
| BannerController.CarouselShowsActiveNewestFirst | controllers/bannerController.js:6-20 | the slides come from exactly the active banners, each as often as stored, newest first, with id = key, image = imageUrl and the other fields copied |
| BannerController.NewestFirstUnique | controllers/bannerController.js:6 | a newest-first list and a strictly newest-first list with the same banners are equal |
| BannerController.CarouselOrderIsUnique | controllers/bannerController.js:6 | when no two active banners share a createdAt, the carousel order is the only newest-first order |
| BannerController.CreateBannerCases | controllers/bannerController.js:41-56 | no file or an empty path stores nothing; otherwise one banner with that imageUrl, active, "Shop Now" as default button text, shown on the carousel |
| BannerController.BannerCollection.constructor | models/Banner.js:3-51 | an empty Banner collection |
| BannerController.BannerCollection.GetCarouselSlides | controllers/bannerController.js:4-25 | 200 with the carousel slides |
| BannerController.BannerCollection.CreateBanner | controllers/bannerController.js:28-62 | 400 "Image is required" with no change, or 201 with the stored banner |
| AuthMiddleware.Split | middleware/authMiddleware.js:7 | the words of a header contain no space and joined with single spaces give the header back |
| AuthMiddleware.SplitOfJoin | middleware/authMiddleware.js:7 | splitting space-free words joined by single spaces gives the words back |
| AuthMiddleware.SplitWordThenSpace | middleware/authMiddleware.js:7 | a space-free first word followed by a space splits off as the first word |
| AuthMiddleware.SplitFirstWord | middleware/authMiddleware.js:7 | the first word is everything up to the first space |
| AuthMiddleware.ExtractTokenIsSecondWord | middleware/authMiddleware.js:7-9 | the token is the second word, whatever the first; an empty second word is no token |
| AuthMiddleware.ExtractTokenMissing | middleware/authMiddleware.js:5-9 | a missing header, a header without a space, or "scheme " carries no token |
| AuthMiddleware.AuthenticateCases | middleware/authMiddleware.js:9-31 | intended behaviour (see Findings): protect proceeds iff the token verifies to the id of an existing user, whose password-free record is attached; every refusal is 401 |
| AuthMiddleware.ProtectAsWrittenRejectsAll | middleware/authMiddleware.js:18-31 | as written, the lookup always throws, so every request gets 401, and one with a verified token gets "Token invalid or expired" |
| AuthMiddleware.SchemeIsIgnored | middleware/authMiddleware.js:7 | two headers differing only in the scheme word authenticate alike |
| AuthMiddleware.ProtectThenAdmin | middleware/authMiddleware.js:4-40 | protect then admin admits a request iff its token names an existing admin |
| AuthMiddleware.Request.constructor | middleware/authMiddleware.js:4-5 | a request with the given header, no user, no reply, `next` not called |
| AuthMiddleware.Request.Protect | middleware/authMiddleware.js:4-32 | on success the user is attached and `next` called once; otherwise the 401 message is sent and `next` is not called |
| AuthMiddleware.Request.AdminGuard | middleware/authMiddleware.js:34-40 | `next` is called iff the attached user is an admin; otherwise 403 "Admin access only" |

## Left out

- The 500 branches: every persistence failure inside a handler is left out, and each request is atomic. Races between a handler's find and its write are not modelled.
- Schema validation: request fields are assumed present and of the declared types. Mongoose/Sequelize cast and validation errors, which end in a 500, are not modelled.
- CartController.CartTable.AddToCart: the quantity is a required integer. The schema default of 1 when `quantity` is absent is not modelled, and neither is the NaN an absent quantity gives in the increment. A negative or zero quantity is accepted, as in the code.
- AddressController.AddressTable.UpsertAddress: the reply's joined `user` object ({ id, name }) is not modelled. If the create fails after the defaults were cleared, the clear is kept; that path is a 500 and is left out.
- AddressController.AddressTable.UpsertAddress: as written, line 50 calls `User.findByPk`, but User is a Mongoose model (models/User.js:36) with no such method. If the models loaded (see the line on ORM wiring below), the call would throw after the defaults were cleared and the row inserted, so the handler would answer 500 "Failed to save address" with the table changed exactly as modelled. The model answers with the intended 200 "Address saved".
- WishlistController.WishlistTable.AddToWishlist: as written, line 44 calls `Furniture.findByPk` on the Mongoose Furniture model (models/Furniture.js:59), which, if the models loaded (see the line on ORM wiring below), would throw after the new row was inserted. The handler would then answer 500 with the table changed exactly as modelled; the model answers with the intended 201 and the new entry.
- AddressController.AddressTable.SetDefaultAddress: follows the intended behaviour (`WithDefault`). As written, an address that already was the default ends up cleared (`WithDefaultAsWritten`, see Findings).
- ORM wiring: the Sequelize Cart, Address and Wishlist models point at the Mongoose User and Furniture models. They do so through five `belongsTo` associations: `Cart.belongsTo(User)` and `Cart.belongsTo(Furniture)` (models/Cart.js:34-35), `Address.belongsTo(User)` (models/Adress.js:48), and `Wishlist.belongsTo(User)` and `Wishlist.belongsTo(Furniture)` (models/wishlist.js:29-30). They also do so through the foreign-key `references` at models/Cart.js:15,20, models/Adress.js:16 and models/wishlist.js:15,20. Sequelize refuses an association whose target is not a Sequelize model, and it does so when the model file loads. So as written, the cart, address and wishlist controllers never serve a request. The model assumes the intended wiring, in which the user and furniture tables are Sequelize models and these three models load.
- The Sequelize queries of getCart, getWishlist and getAddress `include` Mongoose models: Furniture in controllers/cartController.js:10 and controllers/wishlistController.js:11-14, and User in controllers/adressController.js:10. Sequelize cannot resolve these joins as written. The model leaves the joins out and returns the rows themselves.
- WishlistController.Entries: the joined product snapshot (title, price, images, sale) is not modelled; entries carry the wishlist row's own fields.
- FurnitureController.FurnitureCollection.GetFurniture and the other queries: the `populate` joins of category and owner are not modelled. Listings are returned as stored.
- Keys are integers handed out by a counter. MongoDB ObjectIds and Sequelize auto-increment keys are both modelled this way, and a malformed id (a CastError, 500) is not.
- Callers have one integer id. The code compares against `req.user.id` in some handlers and `req.user._id` in others; the model treats them as the same value.
- BannerController.SortNewestFirst: the database leaves the order of banners with equal createdAt unspecified. The model picks stored order for ties; CarouselOrderIsUnique states the order when there are no ties.
- CartController.CartTable.GetCart, AddressController.AddressTable.GetAddress and WishlistController.WishlistTable.GetWishlist: the `findAll` calls have no `order`, so the database chooses the row order. The model returns the rows in stored order, and only the set of rows returned is what the code promises.
- AuthMiddleware.Request.Protect: the user lookup is a parameter, so the method models the intended lookup. As written, `User.findByPk` does not exist on the Mongoose User model and every request is refused (see Findings).
- AuthMiddleware.Request.Protect: `jwt.verify` and the user lookup are function parameters. The secret, the token's expiry and the decoded payload's shape are not modelled; a lookup that throws is a third lookup outcome. The console logging is left out.
- Timestamps: only Wishlist rows and Banner documents carry createdAt/updatedAt. Their handlers (WishlistController.WishlistTable.AddToWishlist, BannerController.BannerCollection.CreateBanner) take the time as an integer parameter; the clock is not modelled.
- Cart, Address, Sale and Furniture records drop the createdAt/updatedAt fields that their schemas add (`timestamps: true`, models/Cart.js:30, models/Adress.js:44, models/Sale.js:30, models/Furniture.js:56). So the Cart and Address replies lack those fields, and no update moves updatedAt. No rule of those tables reads them.
- SaleController.Patched and SaleController.SaleCollection.UpdateSale: controllers/saleController.js:55-58 passes all five fields to `findByIdAndUpdate`, including those absent from the request. The model keeps absent fields unchanged, which assumes Mongoose 7 or later, where undefined keys are stripped from the update. Mongoose 5 and 6 without `omitUndefined` send them, and the driver writes null into those fields. The Mongoose version in use is not part of this model.
- Prices, discounts and originalPrice are opaque numbers; no arithmetic is done on them.
- The user controller (registration, login, bcrypt hashing, JWT signing), the route files, swagger.js, server.js and start-server.js are not part of this model. The routes import a deleteAddress handler that controllers/adressController.js does not define, so there is none here.
- Where the code departs from what its names and messages suggest, the model follows the code:
  - deleteFurniture deletes the listing outright; there is no soft delete.
  - upsertAddress does not make a user's first address the default, and it always inserts.
  - addSale's message says "same name or overlapping time range", but the query needs both.
  - updateSale makes no overlap check.
  - Login does not check `isBlocked`.

## Findings

| source | as written | input that shows it | evidently intended | confidence | as-written member | corrected member |
|---|---|---|---|---|---|---|
| controllers/adressController.js:66-77 | the bulk clear at line 73 goes to the database; the instance loaded at line 66 still reads its old flag, so `isDefault = true` on an address that already was the default marks nothing changed and `save()` writes nothing | address 5 of user 1 is already the default; setDefaultAddress(5) by user 1 | the chosen address ends as the user's only default | medium, not executed; rests on Sequelize's change tracking, under the intended ORM wiring (see Left out) | AddressController.SetDefaultAsWrittenLosesDefault | AddressController.SetDefaultOnlyDefault |
| controllers/adressController.js:66-77 | the same no-op save makes the handler alternate on the current default | setDefaultAddress(5) twice, starting from address 5 as the default | setting the same default twice equals setting it once | medium, not executed; rests on Sequelize's change tracking, under the intended ORM wiring (see Left out) | AddressController.SetDefaultAsWrittenNotIdempotent | AddressController.SetDefaultIdempotent |
| middleware/authMiddleware.js:18-20 | `User.findByPk` is called on a Mongoose model, which has no `findByPk`; the TypeError is caught at line 28 | header "Bearer t" where t verifies to the id of an existing user | the user is looked up by id and the request proceeds with it attached | high, not executed | AuthMiddleware.ProtectAsWrittenRejectsAll | AuthMiddleware.AuthenticateCases |
