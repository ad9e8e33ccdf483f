# Coffee catalog: stock reservation, packages and role guard

This project is a Dafny model of the catalog service of a coffee shop. The
service owns two tables: products and the packages a product is sold in. It
answers availability requests from the order service: each requested item
is checked against the stock, and the stock of every item that can be served
is decremented. The model proves what that handler and the services around
it promise.

- **Reservation** (`reservation.dfy`, `products.dfy`). `ProductService.CheckProductAvailability`
  is the handler, written as a loop over the request's items against a
  `Database` object, and it is proved equal to the reference definition
  `Reservation.Handled`. The reference is a left fold `ReserveAll` of a
  per-item `Step`, where `Decide` applies one rule per sale type:
  - a `unit` product is served when its stock covers the quantity;
  - a `packaged` product is served when the package named by the item is
    one of its packages and its stock covers quantity × package weight;
  - anything else is skipped.

  The lemmas about the fold cover:
  - final stock is the initial stock minus the amounts consumed;
  - untouched products are unchanged;
  - stock is never negative and never rises;
  - the served items come back in request order, with their annotations;
  - `creationPossible` holds exactly when some item was served;
  - decrements made before a store or publish failure are kept.
- **Package lookup** (`decimal_text.dfy`, `reservation.dfy`). An item names its package by a
  JSON value that is compared with `===` to the package id rendered as
  decimal text. So only the exact canonical string matches: a number never
  matches, and neither does "007" or "+7". `DecimalText` renders and parses
  decimal integers and proves the round trips.
- **Packages** (`packages.dfy`). `ProductPackageService`:
  - create, with the price derived from the product's price per kilogram when
    the supplied price is falsy;
  - lookup, partial update and delete with NotFound;
  - the distinct ascending list of package weights.
- **Products** (`products.dfy`). Product creation, which also creates the
  packages of a packaged product. Lookup, partial update and delete, each
  with NotFound. The page arithmetic of the listing.
- **Role guard** (`auth.dfy`). `CanActivate` decides whether a request may
  reach a handler that declares required roles.

Behaviours of the code that the model keeps as written:
- Deriving a package price for a product that does not exist dereferences
  null (src/product-package/product-package.service.ts:25); it is not the
  NotFound the other lookups throw. It is modelled as the failure
  `NullDereference`, and nothing is stored.
- A price of `0` is falsy (src/product-package/product-package.service.ts:20)
  and is replaced by the derived price, just as an absent price is.
- An empty list of required roles is still metadata, because `[]` is truthy
  (src/auth/roles.guard.ts:11). The guard therefore reaches `some`, which is
  false for an empty list, and refuses the request with Forbidden.
- A partial update distinguishes an absent field from an explicit `null`:
  `preload` merges every key that is present, so `null` clears a nullable
  column and makes a NOT NULL column fail at save. Update bodies are modelled
  with `Patch` (`Keep`, `Set`, `Clear`), and a refused save is the failure
  `ConstraintViolation` with nothing stored.
- A product whose sale type is outside the enum column is refused at save
  (src/entities/product.entity.ts:20-26); creation then fails with
  `ConstraintViolation` and stores nothing.
- The user's `role` claim may be a list, where `includes` means membership,
  or a string, where `includes` means substring containment. Both are
  modelled; with a string claim "SUPERADMIN" satisfies "ADMIN".
- Quantities are not checked for sign. A negative quantity that passes the
  stock test raises the stock (`Reservation.ScenarioNegativeQuantity`).
  Stock stays non-negative whatever the quantities are, but it only never
  rises when quantities and weights are non-negative.

## Model

| member | source | states |
|---|---|---|
| DecimalText.Digits | src/product/product.service.ts:44 | the rendering of a natural number is canonical decimal text (digits only, no leading zero), starting with '0' exactly for zero |
| DecimalText.ValueOfDigits | src/product/product.service.ts:44 | reading back the rendered digits of n gives n |
| DecimalText.DigitsOfValue | src/product/product.service.ts:44 | rendering the value of a canonical digit string gives that string back |
| DecimalText.ParseDigits | src/product/product.service.ts:44 | the digits of a natural number parse back to it |
| DecimalText.NegativeRendering | src/product/product.service.ts:44 | a minus sign before the canonical digits of a positive number parses as its negation |
| DecimalText.Render | src/product/product.service.ts:44 | the rendering of any integer, negative ones included, is non-empty and parses back to that integer |
| DecimalText.RenderParse | src/product/product.service.ts:44 | a string that parses to n is exactly the rendering of n |
| DecimalText.RenderInjective | src/product/product.service.ts:44 | distinct ids have distinct renderings, so at most one package id equals a given string |
| Entities.Lookup | src/product/product.service.ts:34 | a lookup by id finds a row exactly when the id is stored, and then finds that row |
| Entities.PackagesOf | src/entities/product.entity.ts:56-57 | a product's packages relation holds exactly the stored packages whose productId is that product's id |
| Reservation.RefersToParse | src/product/product.service.ts:44 | a reference names a package exactly when it parses to that package's id |
| Reservation.FindPackage | src/product/product.service.ts:44 | the package found belongs to the product and its id renders to the reference; none is found only if no package of the product matches |
| Reservation.FindFirst | src/product/product.service.ts:44 | `find` over the related packages returns a member that matches, and returns none only when no member matches |
| Reservation.FindIsOrderIndependent | src/product/product.service.ts:44 | whatever order the relation is loaded in, `find` returns the same package |
| Reservation.NumericReferenceNeverMatches | src/product/product.service.ts:44 | a numeric productPackageId is never strictly equal to a rendered id, so it never finds a package |
| Reservation.Decide | src/product/product.service.ts:36-54 | an item is served only for a stored unit or packaged product whose stock covers the consumed amount, and that amount is the quantity or quantity × weight |
| Reservation.Reached | src/product/product.service.ts:32-55 | processing stops short of the last item exactly when a store failure occurs at an index inside the request |
| Reservation.UnitItemRule | src/product/product.service.ts:37-42 | a unit product with enough stock loses exactly the quantity and the item is appended with pricePerUnit = pricePerKg; otherwise nothing changes |
| Reservation.PackagedItemRule | src/product/product.service.ts:43-52 | a packaged product with a matching package and enough stock loses quantity × weight, and the item carries that package's weight and price; otherwise nothing changes |
| Reservation.UnsellableItemSkipped | src/product/product.service.spec.ts:216-237 | a missing product, or one whose sale type is neither unit nor packaged, leaves the state untouched |
| Reservation.FinalStock | src/product/product.service.ts:34-50 | after the loop each product's stock is its initial stock minus the amounts consumed by its served items, every other field is kept, the table's keys are kept, and served items name stored products |
| Reservation.UntouchedProductUnchanged | src/product/product.service.ts:36-54 | a product with no served item is left exactly as it was |
| Reservation.NoItemsNoConsumption | src/product/product.service.ts:39 | nothing is consumed from a product that no served item names |
| Reservation.StockStaysNonNegative | src/product/product.service.ts:38-48 | starting from non-negative stock, no stock goes negative, whatever the quantities |
| Reservation.DecidedAmountNonNegative | src/product/product.service.ts:46 | with non-negative quantities and weights, the amount consumed is non-negative |
| Reservation.StockNeverRises | src/product/product.service.ts:38-48 | with non-negative quantities and weights, no product's stock ends above where it started |
| Reservation.SatisfiedIndicesMembers | src/product/product.service.ts:33 | the served positions are exactly the positions whose decision is to serve |
| Reservation.SatisfiedIndicesAscending | src/product/product.service.ts:33 | the served positions are listed in strictly increasing order |
| Reservation.LastItemExtends | src/product/product.service.ts:33-55 | one more item extends the served positions and the reported items by that item's decision alone |
| Reservation.ReportsExtend | src/product/product.service.ts:40 | a reported entry keeps its item and annotation when the request grows by one item |
| Reservation.DecisionAtPrefix | src/product/product.service.ts:33 | the decision on an item depends only on the items before it |
| Reservation.SatisfiedIndicesPrefix | src/product/product.service.ts:33 | the served positions before k do not depend on items at or after k |
| Reservation.ReservedInRequestOrder | src/product/product.service.ts:61-65 | the response items are exactly the served request items, in request order: entry j is the request item at the j-th served position, its decision was to serve, and it carries that decision's annotation |
| Reservation.CreationPossibleIffSomeSatisfied | src/product/product.service.ts:57-59 | without failures a response is published, echoes the orderId, and creationPossible holds exactly when some item was served |
| Reservation.NothingSatisfiedNothingChanged | src/product/product.service.ts:34-54 | when no item is served, the product table is unchanged |
| Reservation.StoreFailureKeepsEarlierDecrements | src/product/product.service.ts:68-70 | a store failure at item k yields no response, and the decrements of the items before k stay in the table |
| Reservation.PublishFailureKeepsAllDecrements | src/product/product.service.ts:67-70 | a failed publish yields no response and keeps every decrement |
| Reservation.HandledSingleItem | src/product/product.service.ts:25-71 | a one-item request is handled by exactly one step, and the response reports whether that item was served |
| Reservation.ScenarioUnitReserved | src/product/product.service.ts:37-42 | two units of a product with stock 10 are served and leave stock 8 |
| Reservation.ScenarioUnitInsufficient | src/product/product.service.ts:38 | two units against stock 1 are refused, the stock stays 1, and creationPossible is false |
| Reservation.ScenarioUnsetSaleType | src/product/product.service.spec.ts:216-237 | a product without a recognised sale type keeps stock 10, and the response is not creatable |
| Reservation.ScenarioSequentialRequests | src/product/product.service.ts:34 | a second request sees the stock left by the first: 6 then 6 against 10 serves only the first |
| Reservation.ScenarioNegativeQuantity | src/product/product.service.ts:38-39 | a quantity of -5 passes the stock test and raises the stock from 10 to 15 |
| Packages.DerivedPrice | src/product-package/product-package.service.ts:25 | the derived price is weight × pricePerKg / 1000 |
| Packages.ResolvePrice | src/product-package/product-package.service.ts:20-26 | a truthy price is kept as given; a falsy one is derived from the product, and fails with a null dereference when the product is missing |
| Packages.ZeroPriceIsDerived | src/product-package/product-package.service.ts:20 | an explicit 0 is replaced exactly as an absent price is |
| Packages.SuppliedPriceIgnoresProduct | src/product-package/product-package.service.ts:20 | with a truthy price the outcome does not depend on the product table |
| Packages.ApplyUpdate | src/product-package/product-package.service.ts:48-55 | the merge fails with ConstraintViolation exactly when some field is set to null (every package column is NOT NULL); otherwise set fields replace the stored ones and absent ones and the id are kept |
| Packages.ApplyUpdateIdempotent | src/product-package/product-package.service.ts:47-56 | an update that succeeds gives the same package when applied a second time |
| Packages.WeightsOf | src/product-package/product-package.service.ts:66-67 | the distinct weights are exactly the weights of stored packages |
| Packages.Ascending | src/product-package/product-package.service.ts:68-71 | the listing is strictly ascending and holds exactly the elements of the set |
| Packages.ProductPackageService.Create | src/product-package/product-package.service.ts:18-30 | saves a package under the next id with the resolved price; on failure the store is unchanged |
| Packages.ProductPackageService.FindOne | src/product-package/product-package.service.ts:36-45 | returns the stored package with its product relation (the stored product with that productId, or none), or NotFound exactly when the id is absent |
| Packages.ProductPackageService.Update | src/product-package/product-package.service.ts:47-56 | NotFound with the store unchanged on an absent id; a refused merge leaves the store unchanged; otherwise stores and returns the merged package |
| Packages.ProductPackageService.Remove | src/product-package/product-package.service.ts:58-63 | NotFound with the store unchanged on an absent id; otherwise deletes exactly that package |
| Packages.ProductPackageService.FindAllUniqueWeights | src/product-package/product-package.service.ts:65-72 | every stored weight appears exactly once, in strictly ascending order |
| Products.NewProduct | src/product/product.service.ts:75-77 | the created row takes the given id and the body's name, sale type, stock, price per kilogram and details |
| Products.PackageFor | src/product/product.service.ts:82-85 | each created package gets its id, belongs to the new product and keeps its listed weight |
| Products.PackageForPrice | src/product/product.service.ts:82-85 | a created package keeps a truthy listed price and otherwise gets weight × pricePerKg / 1000 of the new product |
| Products.CreatedPackages | src/product/product.service.ts:81-86 | the loop creates one package per listed entry, under consecutive ids from the first free one, and nothing else |
| Products.CreatedPackagesExtend | src/product/product.service.ts:81-86 | each pass of the loop adds exactly the next package under the next id |
| Products.ApplyProductUpdate | src/product/product.service.ts:113-120 | the merge fails with ConstraintViolation exactly when name, stock or price per kilogram is set to null; otherwise set fields replace the stored ones, null clears a nullable detail column, absent fields are kept, and the id and the sale type are kept |
| Products.ApplyProductUpdateIdempotent | src/product/product.service.ts:112-121 | a product update that succeeds gives the same product when applied a second time |
| Products.Offset | src/product/product.service.ts:96 | the rows skipped are a whole number of pages, exactly page - 1 of them |
| Products.FindAll | src/product/product.service.ts:92-99 | a page holds at most limit rows, namely the rows from (page - 1) × limit on in order, is full when enough rows remain, and reports the total |
| Products.RowOnItsPage | src/product/product.service.ts:95-96 | row i appears on page i / limit + 1 at offset i mod limit |
| Products.ProductService.CheckProductAvailability | src/product/product.service.ts:25-71 | the loop leaves the table and yields the response exactly as the reference definition Handled does; packages and id counters are untouched |
| Products.ProductService.ReserveItem | src/product/product.service.ts:34-53 | one pass of the loop body changes the table and the reported items exactly as the reference Step does |
| Products.ProductService.Create | src/product/product.service.ts:74-90 | a sale type outside the enum fails with ConstraintViolation and stores nothing; otherwise saves the product under a fresh id, only a packaged product gets its listed packages, each tied to it, and the product is returned with its packages |
| Products.ProductService.AddPackages | src/product/product.service.ts:80-87 | adds exactly the created packages under consecutive ids and leaves products untouched |
| Products.ProductService.FindOne | src/product/product.service.ts:101-110 | returns the product with its packages, or NotFound exactly when the id is absent |
| Products.ProductService.Update | src/product/product.service.ts:112-121 | NotFound with the store unchanged on an absent id; a refused merge leaves the store unchanged; otherwise stores and returns the merged product |
| Products.ProductService.Remove | src/product/product.service.ts:123-128 | NotFound with the store unchanged on an absent id; otherwise deletes exactly that product |
| Auth.IsSubstringIff | src/auth/roles.guard.ts:18 | the substring scan succeeds exactly when the needle occurs at some position |
| Auth.AnyIncluded | src/auth/roles.guard.ts:18 | `some` holds exactly when some required role is included in the user's claim |
| Auth.CanActivate | src/auth/roles.guard.ts:9-26 | no metadata admits; otherwise it admits exactly when some required role is included, and refuses with Forbidden; it never returns false |
| Auth.EmptyRequirementDenies | src/auth/roles.guard.ts:11 | an empty required list is truthy and refuses every user |
| Auth.MissingClaimDenied | src/auth/roles.guard.ts:18-23 | a missing user or role claim is refused whenever roles are declared |
| Auth.MoreRolesAdmitMore | src/auth/roles.guard.ts:18 | adding acceptable roles never refuses a user who was admitted |
| Auth.ListClaimNeedsExactRole | src/auth/roles.guard.ts:18 | with a list claim, "SUPERADMIN" does not satisfy "ADMIN" |
| Auth.TextClaimMatchesSubstring | src/auth/roles.guard.ts:18 | with a string claim, "SUPERADMIN" satisfies "ADMIN" |

## Left out

- The message body is not decoded: `JSON.parse` of the broker message is a library call, and the request is modelled already decoded. A malformed body escapes the handler, and that is not modelled.
- The message broker is not modelled: connection, queue declaration, acknowledgement timing and publisher confirms. Publishing is a success or a failure chosen by the `Faults` parameter, and so is a store failure at a given item.
- Concurrency is not modelled. Two messages, or a message and an update, can race on the unlocked read-modify-write of `stock`; the model handles one request at a time.
- Prices are exact reals. Floating-point rounding of `price` and `pricePerKg` and the two-decimal columns are not modelled.
- Controllers, routing, `+id` coercion, the logging interceptor, metrics, module wiring and bootstrap are not part of this model.
- The DTO validation decorators are not enforced. Any value of the modelled types is accepted.
- Creation and update timestamps are not modelled.
- The load order of a relation is not modelled. Packages are a set, and `Reservation.FindIsOrderIndependent` shows the order does not matter.
- The foreign key from packages to products is not enforced. Deleting a product that still has packages succeeds in the model, while the database may refuse it.
- `ProductPackageService.findAll` only loads all packages with their product. It is a read with no rule of its own, so it is not modelled.
- Quantities, weights and ids are integers in the model; the message body is not validated, so the source can receive fractions. A fractional unit quantity leaves a fractional stock that the integer column refuses at save, a store failure at that item. A fractional packaged quantity whose total weight is whole (1.5 × 250 g) is reserved like any other.
- The id sequence of a table is not consumed by a refused insert in the model; the database may skip that id.
- Products.ProductService.CheckProductAvailability: stock and weight are 32-bit integer columns, and the model does not bound them. A product update that leaves the stock outside that range (a large negative quantity that passes the stock test, say) is refused by the database at save, which the handler catches: nothing is published and the stock keeps its old value. The model instead stores the out-of-range stock and publishes the response. With non-negative quantities the stock only falls and stays at or above 0, so this needs a negative quantity.
- Products.ProductService.Create: returns Ok for a stock, or a listed package weight, outside the 32-bit range, which the database refuses at save.
- Products.ApplyProductUpdate: returns Ok for a stock outside the 32-bit range, which the database refuses at save.
- Packages.ProductPackageService.Create: stores a package whose weight or productId is outside the 32-bit range, which the database refuses at save.
- Packages.ApplyUpdate: returns Ok for a weight or productId outside the 32-bit range, which the database refuses at save.
- Products.FindAll: requires page ≥ 1 and limit ≥ 1. Other values are handed to the ORM, whose handling of a zero or negative take and skip is not modelled. Each listed product is returned bare: the packages relation the listing loads is not attached (`Products.ProductService.FindOne` models that relation). The query has no ORDER BY, so the model fixes one listing order as `rows`; `Products.RowOnItsPage` holds within that one order, and two page requests may see different orders in the database.
- Products.ProductService.CheckProductAvailability: a failure of the store or the publish is a parameter, not an outcome the model discovers. Side effects before a failure are kept, as the code keeps them.
- Packages.ProductPackageService.FindAllUniqueWeights: orders integer weights numerically. The database's collation and its raw result types are not modelled.
- Auth.CanActivate: takes the handler's role metadata and the request's user as parameters. The reflector and the execution context are not modelled, and neither are role claims that are neither a list nor a string.
