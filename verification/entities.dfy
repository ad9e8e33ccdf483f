/**
 * The persisted entities of the catalog: products and the packages they are
 * sold in, and the errors the services throw.
 */
module Entities {
  import opened Wrappers

  /**
   * How a product is sold. The column admits 'unit' and 'packaged'; a product
   * whose sale type is unset (or any other value) is `Unrecognised`.
   */
  datatype SaleType = Unit | Packaged | Unrecognised

  /** The free-text descriptive columns of a product (all nullable). */
  datatype Details = Details(
    description: Option<string>,
    origin: Option<string>,
    variety: Option<string>,
    process: Option<string>,
    roastLevel: Option<string>,
    category: Option<string>)

  /**
   * A catalog product. `stock` counts units for a unit product and grams for a
   * packaged one; `pricePerKg` is a decimal column, modelled as an exact rational.
   */
  datatype Product = Product(
    id: int,
    name: string,
    saleType: SaleType,
    details: Details,
    stock: int,
    pricePerKg: real)

  /** A package of a product: `weight` grams sold at `price`. */
  datatype ProductPackage = ProductPackage(id: int, productId: int, weight: int, price: real)

  /** What the services throw. */
  datatype Failure =
    | NotFound            // NotFoundException
    | Forbidden           // ForbiddenException
    | NullDereference     // a TypeError from reading a field of a missing entity
    | ConstraintViolation // the database refuses the row at save (a null in a NOT NULL column, a value outside an enum)

  /**
   * One field of an update body. `preload` merges every key that is not
   * undefined: an absent key keeps the stored value, a value replaces it, and
   * an explicit null is written as null.
   */
  datatype Patch<+T> = Keep | Set(value: T) | Clear

  /** A nullable column after a patch. */
  function Patched<T>(patch: Patch<T>, current: Option<T>): (r: Option<T>)
    ensures patch.Keep? ==> r == current
    ensures patch.Set? ==> r == Some(patch.value)
    ensures patch.Clear? ==> r.None?
  {
    match patch
    case Keep => current
    case Set(v) => Some(v)
    case Clear => None
  }

  /** A NOT NULL column after a patch that does not clear it. */
  function PatchedRequired<T>(patch: Patch<T>, current: T): (r: T)
    requires !patch.Clear?
    ensures patch.Keep? ==> r == current
    ensures patch.Set? ==> r == patch.value
  {
    if patch.Set? then patch.value else current
  }

  /** The row stored under `id`, if any (a `findOne({ where: { id } })`). */
  function Lookup<T>(rows: map<int, T>, id: int): (r: Option<T>)
    ensures r.Some? <==> id in rows
    ensures r.Some? ==> r.value == rows[id]
  {
    if id in rows then Some(rows[id]) else None
  }

  /** Every product is stored under its own id. */
  predicate ProductKeysAreIds(products: map<int, Product>) {
    forall k :: k in products ==> products[k].id == k
  }

  /** Every package is stored under its own id. */
  predicate PackageKeysAreIds(packages: map<int, ProductPackage>) {
    forall k :: k in packages ==> packages[k].id == k
  }

  /** The `packages` relation of product `productId`: the packages that refer back to it. */
  function PackagesOf(packages: map<int, ProductPackage>, productId: int): (r: set<ProductPackage>)
    requires PackageKeysAreIds(packages)
    ensures forall p :: p in r <==> p.id in packages && packages[p.id] == p && p.productId == productId
  {
    set k | k in packages && packages[k].productId == productId :: packages[k]
  }
}
