/**
 * The two repositories the services share: the `products` and
 * `product_packages` tables, each keyed by a generated id.
 */
module Store {
  import opened Entities

  class Database {
    var products: map<int, Product>
    var packages: map<int, ProductPackage>
    /** The id the next inserted product receives (a generated primary key). */
    var nextProductId: int
    /** The id the next inserted package receives. */
    var nextPackageId: int

    /** Rows are stored under their ids, and every id is below the next one to be generated. */
    ghost predicate Valid()
      reads this
    {
      && 1 <= nextProductId && 1 <= nextPackageId
      && ProductKeysAreIds(products) && PackageKeysAreIds(packages)
      && (forall k :: k in products ==> 1 <= k < nextProductId)
      && (forall k :: k in packages ==> 1 <= k < nextPackageId)
    }

    constructor ()
      ensures Valid()
      ensures products == map[] && packages == map[]
    {
      products, packages := map[], map[];
      nextProductId, nextPackageId := 1, 1;
    }
  }
}
