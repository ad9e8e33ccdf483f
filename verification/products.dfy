/**
 * The product service: the availability-check consumer of the reservation
 * protocol, and product creation, lookup, listing, update and deletion over
 * the shared store.
 */
module Products {
  import opened Wrappers
  import opened Entities
  import opened Store
  import opened Reservation
  import opened Packages

  /** A package listed in a product creation body. */
  datatype PackageData = PackageData(weight: int, price: Option<real>)

  /** The body of a product creation. */
  datatype CreateProductDto = CreateProductDto(
    name: string,
    saleType: SaleType,
    details: Details,
    stock: int,
    pricePerKg: real,
    packages: seq<PackageData>)

  /**
   * The body of a product update: each field may be absent, a value, or an
   * explicit null. The sale type cannot be changed.
   */
  datatype UpdateProductDto = UpdateProductDto(
    name: Patch<string>,
    description: Patch<string>,
    origin: Patch<string>,
    variety: Patch<string>,
    process: Patch<string>,
    roastLevel: Patch<string>,
    stock: Patch<int>,
    category: Patch<string>,
    pricePerKg: Patch<real>)

  /** One page of the product listing, with the total number of products. */
  datatype Page = Page(products: seq<Product>, total: nat)

  /** The row `repository.create(productData)` builds and `save` stores under the generated id. */
  function NewProduct(id: int, dto: CreateProductDto): (p: Product)
    ensures p.id == id && p.name == dto.name && p.saleType == dto.saleType && p.details == dto.details
    ensures p.stock == dto.stock && p.pricePerKg == dto.pricePerKg
  {
    Product(id, dto.name, dto.saleType, dto.details, dto.stock, dto.pricePerKg)
  }

  /** The package that creating `data` for `product` stores under id `id`. */
  function PackageFor(id: int, product: Product, data: PackageData): (pkg: ProductPackage)
    ensures pkg.id == id && pkg.productId == product.id && pkg.weight == data.weight
  {
    ProductPackage(id, product.id, data.weight, ResolvePrice(CreatePackageDto(product.id, data.weight, data.price), Some(product)).value)
  }

  /** A created package keeps a truthy listed price and otherwise derives it from the product's price per kilogram. */
  lemma PackageForPrice(id: int, product: Product, data: PackageData)
    ensures IsFalsy(data.price) ==> PackageFor(id, product, data).price * 1000.0 == data.weight as real * product.pricePerKg
    ensures !IsFalsy(data.price) ==> PackageFor(id, product, data).price == data.price.value
  {
  }

  /** The packages created for `product` from `data`, with consecutive ids from `start`. */
  function CreatedPackages(start: int, product: Product, data: seq<PackageData>): (m: map<int, ProductPackage>)
    ensures forall k :: k in m ==> start <= k < start + |data| && m[k] == PackageFor(k, product, data[k - start])
    ensures forall k :: start <= k < start + |data| ==> k in m
  {
    if |data| == 0 then map[]
    else
      var last := start + |data| - 1;
      CreatedPackages(start, product, data[..|data| - 1])[last := PackageFor(last, product, data[|data| - 1])]
  }

  /** Creating one more listed package adds exactly that package under the next id. */
  lemma CreatedPackagesExtend(start: int, product: Product, data: seq<PackageData>, j: nat)
    requires j < |data|
    ensures CreatedPackages(start, product, data[..j + 1])
         == CreatedPackages(start, product, data[..j])[start + j := PackageFor(start + j, product, data[j])]
  {
    assert data[..j + 1][..j] == data[..j];
  }

  /** Updating a key of the right operand of a map union updates the union. */
  lemma UnionUpdate<K, V>(a: map<K, V>, b: map<K, V>, k: K, v: V)
    ensures (a + b)[k := v] == a + b[k := v]
  {
  }

  /** The update sets one of the NOT NULL columns (name, stock, pricePerKg) to null. */
  predicate ClearsRequiredColumn(dto: UpdateProductDto) {
    dto.name.Clear? || dto.stock.Clear? || dto.pricePerKg.Clear?
  }

  /**
   * The merge `preload` performs for a product, followed by the save. Supplied
   * fields replace stored ones and an explicit null clears a nullable column;
   * a null in a NOT NULL column makes the save fail.
   */
  function ApplyProductUpdate(p: Product, dto: UpdateProductDto): (r: Result<Product, Failure>)
    ensures r.Err? <==> ClearsRequiredColumn(dto)
    ensures r.Err? ==> r.error == ConstraintViolation
    ensures r.Ok? ==> r.value.id == p.id && r.value.saleType == p.saleType
    ensures r.Ok? ==> r.value.name == (if dto.name.Set? then dto.name.value else p.name)
    ensures r.Ok? ==> r.value.stock == (if dto.stock.Set? then dto.stock.value else p.stock)
    ensures r.Ok? ==> r.value.pricePerKg == (if dto.pricePerKg.Set? then dto.pricePerKg.value else p.pricePerKg)
    ensures r.Ok? ==> r.value.details.description == Patched(dto.description, p.details.description)
    ensures r.Ok? ==> r.value.details.origin == Patched(dto.origin, p.details.origin)
    ensures r.Ok? ==> r.value.details.variety == Patched(dto.variety, p.details.variety)
    ensures r.Ok? ==> r.value.details.process == Patched(dto.process, p.details.process)
    ensures r.Ok? ==> r.value.details.roastLevel == Patched(dto.roastLevel, p.details.roastLevel)
    ensures r.Ok? ==> r.value.details.category == Patched(dto.category, p.details.category)
  {
    if ClearsRequiredColumn(dto) then Err(ConstraintViolation)
    else
      var d := p.details;
      var details := Details(
        Patched(dto.description, d.description),
        Patched(dto.origin, d.origin),
        Patched(dto.variety, d.variety),
        Patched(dto.process, d.process),
        Patched(dto.roastLevel, d.roastLevel),
        Patched(dto.category, d.category));
      Ok(Product(p.id, PatchedRequired(dto.name, p.name), p.saleType, details,
                 PatchedRequired(dto.stock, p.stock), PatchedRequired(dto.pricePerKg, p.pricePerKg)))
  }

  /** Applying the same accepted product update twice is the same as applying it once. */
  lemma ApplyProductUpdateIdempotent(p: Product, dto: UpdateProductDto)
    requires ApplyProductUpdate(p, dto).Ok?
    ensures ApplyProductUpdate(ApplyProductUpdate(p, dto).value, dto) == ApplyProductUpdate(p, dto)
  {
  }

  /** A positive number times a positive count is at least the number. */
  lemma {:induction false} MulAtLeast(b: int, k: int)
    requires b > 0 && k >= 1
    ensures b * k >= b
    decreases k
  {
    if k > 1 {
      MulAtLeast(b, k - 1);
      assert b * k == b * (k - 1) + b;
    }
  }

  /** Division by a positive divisor has exactly one quotient and remainder. */
  lemma DivModUnique(a: int, b: int, q: int, r: int)
    requires b > 0 && 0 <= r < b && a == b * q + r
    ensures a / b == q && a % b == r
  {
    var q', r' := a / b, a % b;
    assert a == b * q' + r' && 0 <= r' < b;
    if q' < q {
      var d := q - q';
      assert b * q == b * q' + b * d;
      MulAtLeast(b, d);
      assert false;
    } else if q' > q {
      var d := q' - q;
      assert b * q' == b * q + b * d;
      MulAtLeast(b, d);
      assert false;
    }
  }

  /** The number of rows before page `page` of `limit` rows: whole pages, `page - 1` of them. */
  function Offset(page: int, limit: int): (skip: nat)
    requires page >= 1 && limit >= 1
    ensures skip % limit == 0 && skip / limit == page - 1
  {
    DivModUnique((page - 1) * limit, limit, page - 1, 0);
    (page - 1) * limit
  }

  /** Page `page` of `limit` rows of the table as it lists them: skip `Offset(page, limit)` rows, take `limit`. */
  function FindAll(rows: seq<Product>, page: int, limit: int): (r: Page)
    requires page >= 1 && limit >= 1
    ensures r.total == |rows|
    ensures |r.products| <= limit
    ensures forall i :: 0 <= i < |r.products| ==> Offset(page, limit) + i < |rows| && r.products[i] == rows[Offset(page, limit) + i]
    ensures Offset(page, limit) + limit <= |rows| ==> |r.products| == limit
  {
    var skip := Offset(page, limit);
    var from := if skip < |rows| then skip else |rows|;
    var to := if from + limit < |rows| then from + limit else |rows|;
    Page(rows[from..to], |rows|)
  }

  /** Every row appears on exactly the page its position says, at the matching offset. */
  lemma RowOnItsPage(rows: seq<Product>, limit: int, i: nat)
    requires limit >= 1 && i < |rows|
    ensures var r := FindAll(rows, i / limit + 1, limit);
      i % limit < |r.products| && r.products[i % limit] == rows[i]
  {
    var page := i / limit + 1;
    var skip := Offset(page, limit);
    assert skip == limit * (skip / limit) + skip % limit;
    assert i == limit * (i / limit) + i % limit;
    assert skip + i % limit == i;
  }

  class ProductService {
    const db: Database
    const packageService: ProductPackageService

    constructor (db: Database, packageService: ProductPackageService)
      requires packageService.db == db
      ensures this.db == db && this.packageService == packageService
    {
      this.db := db;
      this.packageService := packageService;
    }

    /**
     * Handles one availability request: walks the items in order, re-reading
     * each product, decrementing and saving its stock when the item can be
     * satisfied, then publishes the response. A store failure at an item, or a
     * publish failure, is caught: nothing is published and nothing is undone.
     */
    method CheckProductAvailability(request: Request, faults: Faults) returns (response: Option<Response>)
      requires db.Valid()
      modifies db
      ensures db.Valid()
      ensures db.packages == old(db.packages)
      ensures db.nextProductId == old(db.nextProductId) && db.nextPackageId == old(db.nextPackageId)
      ensures (db.products, response) == Handled(old(db.products), db.packages, request, faults)
    {
      var items := request.items;
      var available: seq<ReservedItem> := [];
      var failed := false;
      var i := 0;
      while i < |items|
        invariant 0 <= i <= |items|
        invariant db.Valid()
        invariant db.packages == old(db.packages)
        invariant db.nextProductId == old(db.nextProductId) && db.nextPackageId == old(db.nextPackageId)
        invariant faults.storeFailsAt.Some? ==> faults.storeFailsAt.value >= i
        invariant State(db.products, available) == ReserveAll(old(db.products), db.packages, items[..i])
      {
        if faults.storeFailsAt == Some(i) {
          failed := true;
          break;
        }
        assert items[..i + 1][..i] == items[..i];
        available := ReserveItem(items[i], available);
        i := i + 1;
      }
      assert !failed ==> items[..i] == items;
      if failed || faults.publishFails {
        response := None;
      } else {
        var creationPossible := true;
        if |available| == 0 {
          creationPossible := false;
        }
        response := Some(Response(request.orderId, available, creationPossible));
      }
    }

    /**
     * One pass of the loop body: re-reads the product the item names and,
     * when its rule is met, decrements the stock, saves the product and
     * appends the annotated item.
     */
    method ReserveItem(item: Item, available: seq<ReservedItem>) returns (extended: seq<ReservedItem>)
      requires db.Valid()
      modifies db
      ensures db.Valid()
      ensures db.packages == old(db.packages)
      ensures db.nextProductId == old(db.nextProductId) && db.nextPackageId == old(db.nextPackageId)
      ensures State(db.products, extended) == Step(State(old(db.products), available), db.packages, item)
    {
      extended := available;
      if item.productId !in db.products {
        return;
      }
      var product := db.products[item.productId];
      if product.saleType == Unit {
        if product.stock >= item.quantity {
          product := product.(stock := product.stock - item.quantity);
          extended := extended + [ReservedItem(item, PerUnit(product.pricePerKg))];
          db.products := db.products[product.id := product];
        }
      } else if product.saleType == Packaged {
        var productPackage := FindPackage(db.packages, product.id, item.productPackageId);
        if productPackage.Some? {
          var totalWeight := item.quantity * productPackage.value.weight;
          if product.stock >= totalWeight {
            product := product.(stock := product.stock - totalWeight);
            extended := extended + [ReservedItem(item, PerPackage(productPackage.value.weight, productPackage.value.price))];
            db.products := db.products[product.id := product];
          }
        }
      }
    }

    /**
     * Saves a new product and, for a packaged product, creates each listed
     * package for it (deriving falsy prices from its price per kilogram), then
     * reloads the product with its packages. The sale type column is an enum
     * of 'unit' and 'packaged': any other value makes the save fail, and
     * nothing is stored.
     */
    method Create(dto: CreateProductDto) returns (r: Result<(Product, set<ProductPackage>), Failure>)
      requires db.Valid() && packageService.db == db
      modifies db
      ensures db.Valid()
      ensures dto.saleType == Unrecognised ==>
        && r == Err(ConstraintViolation)
        && db.products == old(db.products) && db.packages == old(db.packages)
        && db.nextProductId == old(db.nextProductId) && db.nextPackageId == old(db.nextPackageId)
      ensures dto.saleType != Unrecognised ==>
        && r.Ok?
        && r.value.0 == NewProduct(old(db.nextProductId), dto)
        && r.value.0.id !in old(db.products)
        && db.products == old(db.products)[r.value.0.id := r.value.0]
        && db.nextProductId == old(db.nextProductId) + 1
        && r.value.1 == PackagesOf(db.packages, r.value.0.id)
      ensures dto.saleType == Packaged ==>
        && db.packages == old(db.packages) + CreatedPackages(old(db.nextPackageId), NewProduct(old(db.nextProductId), dto), dto.packages)
        && db.nextPackageId == old(db.nextPackageId) + |dto.packages|
      ensures dto.saleType == Unit ==>
        db.packages == old(db.packages) && db.nextPackageId == old(db.nextPackageId)
    {
      if dto.saleType == Unrecognised {
        return Err(ConstraintViolation);
      }
      var product := NewProduct(db.nextProductId, dto);
      db.products := db.products[product.id := product];
      db.nextProductId := db.nextProductId + 1;
      if product.saleType == Packaged {
        AddPackages(product, dto.packages);
      }
      r := Ok((product, PackagesOf(db.packages, product.id)));
    }

    /** The loop of `create` over the packages of a freshly saved packaged product. */
    method AddPackages(product: Product, data: seq<PackageData>)
      requires db.Valid() && packageService.db == db
      requires product.id in db.products && db.products[product.id] == product
      modifies db
      ensures db.Valid()
      ensures db.products == old(db.products) && db.nextProductId == old(db.nextProductId)
      ensures db.packages == old(db.packages) + CreatedPackages(old(db.nextPackageId), product, data)
      ensures db.nextPackageId == old(db.nextPackageId) + |data|
    {
      var start := db.nextPackageId;
      var j := 0;
      while j < |data|
        invariant 0 <= j <= |data|
        invariant db.Valid()
        invariant db.products == old(db.products) && db.nextProductId == old(db.nextProductId)
        invariant db.nextPackageId == start + j
        invariant db.packages == old(db.packages) + CreatedPackages(start, product, data[..j])
      {
        var dto := CreatePackageDto(product.id, data[j].weight, data[j].price);
        assert Lookup(db.products, product.id) == Some(product);
        var created := packageService.Create(dto);
        assert created.value == PackageFor(start + j, product, data[j]);
        CreatedPackagesExtend(start, product, data, j);
        UnionUpdate(old(db.packages), CreatedPackages(start, product, data[..j]), start + j, created.value);
        j := j + 1;
      }
      assert data[..j] == data;
    }

    /** The product with the given id and its packages, or NotFound. */
    method FindOne(id: int) returns (r: Result<(Product, set<ProductPackage>), Failure>)
      requires db.Valid()
      ensures r.Ok? <==> id in db.products
      ensures r.Ok? ==> r.value == (db.products[id], PackagesOf(db.packages, id)) && r.value.0.id == id
      ensures r.Err? ==> r.error == NotFound
    {
      if id !in db.products {
        return Err(NotFound);
      }
      r := Ok((db.products[id], PackagesOf(db.packages, id)));
    }

    /** Overwrites the supplied fields of an existing product; NotFound or a refused save leaves the store as it was. */
    method Update(id: int, dto: UpdateProductDto) returns (r: Result<Product, Failure>)
      requires db.Valid()
      modifies db
      ensures db.Valid()
      ensures db.packages == old(db.packages)
      ensures db.nextProductId == old(db.nextProductId) && db.nextPackageId == old(db.nextPackageId)
      ensures id !in old(db.products) ==> r == Err(NotFound) && db.products == old(db.products)
      ensures id in old(db.products) ==> r == ApplyProductUpdate(old(db.products)[id], dto)
      ensures r.Err? ==> db.products == old(db.products)
      ensures r.Ok? ==> db.products == old(db.products)[id := r.value]
    {
      if id !in db.products {
        return Err(NotFound);
      }
      r := ApplyProductUpdate(db.products[id], dto);
      if r.Ok? {
        db.products := db.products[id := r.value];
      }
    }

    /** Deletes a product; a delete that affects no row throws NotFound. */
    method Remove(id: int) returns (r: Result<(), Failure>)
      requires db.Valid()
      modifies db
      ensures db.Valid()
      ensures db.packages == old(db.packages)
      ensures db.nextProductId == old(db.nextProductId) && db.nextPackageId == old(db.nextPackageId)
      ensures id !in old(db.products) ==> r == Err(NotFound) && db.products == old(db.products)
      ensures id in old(db.products) ==> r == Ok(()) && db.products == old(db.products) - {id}
    {
      if id !in db.products {
        return Err(NotFound);
      }
      db.products := db.products - {id};
      r := Ok(());
    }
  }
}
