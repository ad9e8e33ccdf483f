/**
 * The package service: creating a package (deriving its price when none is
 * given), finding, updating and deleting one, and listing the distinct
 * package weights.
 */
module Packages {
  import opened Wrappers
  import opened Entities
  import opened Store

  /** The body of a package creation; `price` is optional. */
  datatype CreatePackageDto = CreatePackageDto(productId: int, weight: int, price: Option<real>)

  /** The body of a package update: each field may be absent, a value, or an explicit null. */
  datatype UpdatePackageDto = UpdatePackageDto(productId: Patch<int>, weight: Patch<int>, price: Patch<real>)

  /** JavaScript truthiness of an optional price: both an absent price and 0 are falsy. */
  predicate IsFalsy(price: Option<real>) {
    price.None? || price.value == 0.0
  }

  /** The price of `weight` grams of a product sold at `pricePerKg` per kilogram. */
  function DerivedPrice(weight: int, pricePerKg: real): (price: real)
    ensures price * 1000.0 == weight as real * pricePerKg
  {
    weight as real * pricePerKg / 1000.0
  }

  /**
   * The price a new package is stored with, given the product that the lookup
   * of `dto.productId` found (or not). A falsy price is derived from the
   * product's price per kilogram; deriving it for a missing product reads a
   * field of `null` and throws.
   */
  function ResolvePrice(dto: CreatePackageDto, product: Option<Product>): (r: Result<real, Failure>)
    ensures !IsFalsy(dto.price) ==> r == Ok(dto.price.value)
    ensures IsFalsy(dto.price) ==> (r.Ok? <==> product.Some?)
    ensures IsFalsy(dto.price) && product.Some? ==> r.value * 1000.0 == dto.weight as real * product.value.pricePerKg
    ensures r.Err? ==> r.error == NullDereference
  {
    if !IsFalsy(dto.price) then Ok(dto.price.value)
    else if product.None? then Err(NullDereference)
    else Ok(DerivedPrice(dto.weight, product.value.pricePerKg))
  }

  /** An explicit price of 0 is treated exactly like an absent price. */
  lemma ZeroPriceIsDerived(productId: int, weight: int, product: Option<Product>)
    ensures ResolvePrice(CreatePackageDto(productId, weight, Some(0.0)), product)
         == ResolvePrice(CreatePackageDto(productId, weight, None), product)
  {
  }

  /** A supplied non-zero price does not depend on the product at all. */
  lemma SuppliedPriceIgnoresProduct(dto: CreatePackageDto, a: Option<Product>, b: Option<Product>)
    requires !IsFalsy(dto.price)
    ensures ResolvePrice(dto, a) == ResolvePrice(dto, b)
  {
  }

  /**
   * The merge that `preload` performs, followed by the save. Supplied fields
   * replace stored ones; all three columns are NOT NULL, so an explicit null
   * in any of them makes the save fail.
   */
  function ApplyUpdate(p: ProductPackage, dto: UpdatePackageDto): (r: Result<ProductPackage, Failure>)
    ensures r.Err? <==> dto.productId.Clear? || dto.weight.Clear? || dto.price.Clear?
    ensures r.Err? ==> r.error == ConstraintViolation
    ensures r.Ok? ==> r.value.id == p.id
    ensures r.Ok? ==> r.value.productId == (if dto.productId.Set? then dto.productId.value else p.productId)
    ensures r.Ok? ==> r.value.weight == (if dto.weight.Set? then dto.weight.value else p.weight)
    ensures r.Ok? ==> r.value.price == (if dto.price.Set? then dto.price.value else p.price)
  {
    if dto.productId.Clear? || dto.weight.Clear? || dto.price.Clear? then Err(ConstraintViolation)
    else
      Ok(ProductPackage(p.id, PatchedRequired(dto.productId, p.productId), PatchedRequired(dto.weight, p.weight),
                        PatchedRequired(dto.price, p.price)))
  }

  /** Applying the same accepted update twice is the same as applying it once. */
  lemma ApplyUpdateIdempotent(p: ProductPackage, dto: UpdatePackageDto)
    requires ApplyUpdate(p, dto).Ok?
    ensures ApplyUpdate(ApplyUpdate(p, dto).value, dto) == ApplyUpdate(p, dto)
  {
  }

  predicate StrictlyIncreasing(s: seq<int>) {
    forall i, j :: 0 <= i < j < |s| ==> s[i] < s[j]
  }

  /** The weights of the stored packages, as a set. */
  function WeightsOf(packages: map<int, ProductPackage>): (ws: set<int>)
    ensures forall w :: w in ws <==> exists k :: k in packages && packages[k].weight == w
  {
    set k | k in packages :: packages[k].weight
  }

  /** A non-empty finite set of integers has a least element. */
  lemma HasMinimum(s: set<int>)
    requires s != {}
    ensures exists m :: m in s && forall x :: x in s ==> m <= x
    decreases |s|
  {
    if forall x :: x !in s {
      assert false;
    }
    var y :| y in s;
    var rest := s - {y};
    assert s == rest + {y};
    if rest != {} {
      HasMinimum(rest);
      var r :| r in rest && forall x :: x in rest ==> r <= x;
      var m := if y < r then y else r;
      assert m in s && forall x :: x in s ==> m <= x;
    } else {
      assert y in s && forall x :: x in s ==> y <= x;
    }
  }

  /** The elements of `s`, each once, in ascending order (`SELECT DISTINCT ... ORDER BY ... ASC`). */
  function Ascending(s: set<int>): (r: seq<int>)
    ensures StrictlyIncreasing(r)
    ensures forall x :: x in r <==> x in s
    decreases |s|
  {
    if s == {} then []
    else
      HasMinimum(s);
      var m :| m in s && forall x :: x in s ==> m <= x;
      [m] + Ascending(s - {m})
  }

  class ProductPackageService {
    const db: Database

    constructor (db: Database)
      ensures this.db == db
    {
      this.db := db;
    }

    /**
     * Creates a package. A falsy price is replaced by the derived one, which
     * needs the product; if it is missing the call throws and nothing is saved.
     */
    method Create(dto: CreatePackageDto) returns (r: Result<ProductPackage, Failure>)
      requires db.Valid()
      modifies db
      ensures db.Valid()
      ensures db.products == old(db.products) && db.nextProductId == old(db.nextProductId)
      ensures var price := ResolvePrice(dto, Lookup(old(db.products), dto.productId));
        && (price.Err? ==>
              && r == Err(price.error)
              && db.packages == old(db.packages) && db.nextPackageId == old(db.nextPackageId))
        && (price.Ok? ==>
              && r == Ok(ProductPackage(old(db.nextPackageId), dto.productId, dto.weight, price.value))
              && db.packages == old(db.packages)[r.value.id := r.value]
              && db.nextPackageId == old(db.nextPackageId) + 1)
    {
      var price := dto.price.GetOr(0.0);
      if IsFalsy(dto.price) {
        var product := Lookup(db.products, dto.productId);
        if product.None? {
          return Err(NullDereference);
        }
        price := DerivedPrice(dto.weight, product.value.pricePerKg);
      }
      var pkg := ProductPackage(db.nextPackageId, dto.productId, dto.weight, price);
      db.packages := db.packages[pkg.id := pkg];
      db.nextPackageId := db.nextPackageId + 1;
      r := Ok(pkg);
    }

    /** The package with the given id together with its `product` relation (absent if dangling), or NotFound. */
    method FindOne(id: int) returns (r: Result<(ProductPackage, Option<Product>), Failure>)
      requires db.Valid()
      ensures r.Ok? <==> id in db.packages
      ensures r.Ok? ==> r.value.0 == db.packages[id] && r.value.0.id == id
      ensures r.Ok? ==> r.value.1 == Lookup(db.products, r.value.0.productId)
      ensures r.Ok? && r.value.1.Some? ==> r.value.1.value.id == r.value.0.productId
      ensures r.Err? ==> r.error == NotFound
    {
      if id !in db.packages {
        return Err(NotFound);
      }
      var pkg := db.packages[id];
      r := Ok((pkg, Lookup(db.products, pkg.productId)));
    }

    /** Overwrites the supplied fields of an existing package; NotFound or a refused save leaves the store as it was. */
    method Update(id: int, dto: UpdatePackageDto) returns (r: Result<ProductPackage, Failure>)
      requires db.Valid()
      modifies db
      ensures db.Valid()
      ensures db.products == old(db.products)
      ensures db.nextProductId == old(db.nextProductId) && db.nextPackageId == old(db.nextPackageId)
      ensures id !in old(db.packages) ==> r == Err(NotFound) && db.packages == old(db.packages)
      ensures id in old(db.packages) ==> r == ApplyUpdate(old(db.packages)[id], dto)
      ensures r.Err? ==> db.packages == old(db.packages)
      ensures r.Ok? ==> db.packages == old(db.packages)[id := r.value]
    {
      if id !in db.packages {
        return Err(NotFound);
      }
      r := ApplyUpdate(db.packages[id], dto);
      if r.Ok? {
        db.packages := db.packages[id := r.value];
      }
    }

    /** Deletes a package; a delete that affects no row throws NotFound. */
    method Remove(id: int) returns (r: Result<(), Failure>)
      requires db.Valid()
      modifies db
      ensures db.Valid()
      ensures db.products == old(db.products)
      ensures db.nextProductId == old(db.nextProductId) && db.nextPackageId == old(db.nextPackageId)
      ensures id !in old(db.packages) ==> r == Err(NotFound) && db.packages == old(db.packages)
      ensures id in old(db.packages) ==> r == Ok(()) && db.packages == old(db.packages) - {id}
    {
      if id !in db.packages {
        return Err(NotFound);
      }
      db.packages := db.packages - {id};
      r := Ok(());
    }

    /** Every stored weight exactly once, in strictly ascending order. */
    method FindAllUniqueWeights() returns (weights: seq<int>)
      ensures StrictlyIncreasing(weights)
      ensures forall w :: w in weights <==> exists k :: k in db.packages && db.packages[k].weight == w
    {
      weights := Ascending(WeightsOf(db.packages));
    }
  }
}
