/**
 * The stock-reservation protocol as a specification: what one availability
 * request does to the product table and which response it produces.
 *
 * Items are evaluated in request order against the stock left by the items
 * before them. A satisfied item's amount is taken from its product's stock at
 * once; an unsatisfied item is silently skipped. The response reports the
 * satisfied items and `creationPossible`, which holds when at least one item
 * was satisfied. A store or broker failure ends the request without a response
 * and without undoing the decrements already made.
 */
module Reservation {
  import opened Wrappers
  import opened DecimalText
  import opened Entities

  /** The `productPackageId` of a line item as decoded from JSON: absent, a string or a number. */
  datatype PackageRef = Absent | Text(text: string) | Number(number: int)

  /** A requested line item. Its `saleType` is echoed back but not consulted. */
  datatype Item = Item(productId: int, quantity: int, saleType: string, productPackageId: PackageRef)

  /** A decoded request from the ordering service. */
  datatype Request = Request(orderId: int, items: seq<Item>)

  /** The pricing basis added to a satisfied item. */
  datatype Annotation = PerUnit(pricePerUnit: real) | PerPackage(packageWeight: int, price: real)

  /** A satisfied item: the request's own fields plus the annotation. */
  datatype ReservedItem = ReservedItem(item: Item, annotation: Annotation)

  /** The message published on the response queue. */
  datatype Response = Response(orderId: int, items: seq<ReservedItem>, creationPossible: bool)

  /** The verdict on one item: take `consumed` from the product's stock, or skip the item. */
  datatype Decision = Reserve(consumed: int, annotation: Annotation) | Skip

  /** The product table and the satisfied items after a prefix of the request. */
  datatype State = State(products: map<int, Product>, reserved: seq<ReservedItem>)

  /**
   * Where the environment fails: the store call for item `storeFailsAt` throws
   * (so that item has no effect), and/or publishing the response fails.
   */
  datatype Faults = Faults(storeFailsAt: Option<nat>, publishFails: bool)

  /** `p.id.toString() === item.productPackageId`: only a string equal to the rendered id matches. */
  predicate RefersTo(ref: PackageRef, id: int) {
    ref == Text(Render(id))
  }

  /** A reference that parses to `id` is the rendering of `id`, and conversely. */
  lemma RefersToParse(packages: map<int, ProductPackage>, productId: int, ref: PackageRef)
    requires PackageKeysAreIds(packages)
    ensures forall p :: p in PackagesOf(packages, productId) && RefersTo(ref, p.id) ==>
      Parse(ref.text) == Some(p.id) && p.id in packages && packages[p.id] == p
    ensures ref.Text? ==> forall id :: Parse(ref.text) == Some(id) ==> RefersTo(ref, id)
  {
    forall p | p in PackagesOf(packages, productId) && RefersTo(ref, p.id)
      ensures Parse(ref.text) == Some(p.id) && p.id in packages && packages[p.id] == p
    {
    }
    if ref.Text? {
      forall id | Parse(ref.text) == Some(id) ensures RefersTo(ref, id) {
        RenderParse(ref.text, id);
      }
    }
  }

  /**
   * The package of product `productId` that `ref` designates, if any: the
   * outcome of `product.packages.find(p => p.id.toString() === ref)`.
   */
  function FindPackage(packages: map<int, ProductPackage>, productId: int, ref: PackageRef): (r: Option<ProductPackage>)
    requires PackageKeysAreIds(packages)
    ensures r.Some? ==> r.value in PackagesOf(packages, productId) && RefersTo(ref, r.value.id)
    ensures r.None? ==> forall p :: p in PackagesOf(packages, productId) ==> !RefersTo(ref, p.id)
  {
    RefersToParse(packages, productId, ref);
    if !ref.Text? then None
    else match Parse(ref.text)
      case None => None
      case Some(id) =>
        if id in packages && packages[id].productId == productId then Some(packages[id]) else None
  }

  /** `Array.prototype.find` over one listing of the related packages: the first that matches. */
  function FindFirst(related: seq<ProductPackage>, ref: PackageRef): (r: Option<ProductPackage>)
    ensures r.Some? ==> r.value in related && RefersTo(ref, r.value.id)
    ensures r.None? ==> forall p :: p in related ==> !RefersTo(ref, p.id)
  {
    if related == [] then None
    else if RefersTo(ref, related[0].id) then Some(related[0])
    else FindFirst(related[1..], ref)
  }

  /**
   * Package ids render injectively, so at most one related package matches:
   * whatever order the relation lists the packages in, `find` picks the same one.
   */
  lemma FindIsOrderIndependent(packages: map<int, ProductPackage>, productId: int, ref: PackageRef, related: seq<ProductPackage>)
    requires PackageKeysAreIds(packages)
    requires forall p :: p in related <==> p in PackagesOf(packages, productId)
    ensures FindFirst(related, ref) == FindPackage(packages, productId, ref)
  {
    var first, found := FindFirst(related, ref), FindPackage(packages, productId, ref);
    RefersToParse(packages, productId, ref);
    if first.Some? {
      assert found.Some?;
      RenderInjective(first.value.id, found.value.id);
    }
  }

  /** The amount of stock a satisfied item takes: units, or grams for packages. */
  function Amount(item: Item, annotation: Annotation): int {
    match annotation
    case PerUnit(_) => item.quantity
    case PerPackage(weight, _) => item.quantity * weight
  }

  /**
   * The rule for one item, given the product the store returned for it (if any).
   * A unit product needs `stock >= quantity`; a packaged product needs the
   * referenced package and `stock >= quantity * weight`; any other product, and
   * a missing one, is skipped.
   */
  function Decide(product: Option<Product>, packages: map<int, ProductPackage>, item: Item): (d: Decision)
    requires PackageKeysAreIds(packages)
    ensures d.Reserve? ==> product.Some? && product.value.stock >= d.consumed
    ensures d.Reserve? ==> d.consumed == Amount(item, d.annotation)
    ensures d.Reserve? ==> product.value.saleType != Unrecognised
  {
    match product
    case None => Skip
    case Some(p) =>
      match p.saleType
      case Unit =>
        if p.stock >= item.quantity then Reserve(item.quantity, PerUnit(p.pricePerKg)) else Skip
      case Packaged =>
        (match FindPackage(packages, p.id, item.productPackageId)
         case None => Skip
         case Some(pkg) =>
           var totalWeight := item.quantity * pkg.weight;
           if p.stock >= totalWeight then Reserve(totalWeight, PerPackage(pkg.weight, pkg.price)) else Skip)
      case Unrecognised => Skip
  }

  /** One iteration of the loop: re-read the product, decide, and save the decremented stock. */
  function Step(st: State, packages: map<int, ProductPackage>, item: Item): State
    requires PackageKeysAreIds(packages)
  {
    var product := Lookup(st.products, item.productId);
    match Decide(product, packages, item)
    case Skip => st
    case Reserve(amount, annotation) =>
      State(st.products[item.productId := product.value.(stock := product.value.stock - amount)],
            st.reserved + [ReservedItem(item, annotation)])
  }

  /** The state after processing `items` in order, starting from the table `products`. */
  function ReserveAll(products: map<int, Product>, packages: map<int, ProductPackage>, items: seq<Item>): State
    requires PackageKeysAreIds(packages)
    decreases |items|
  {
    if items == [] then State(products, [])
    else Step(ReserveAll(products, packages, items[..|items| - 1]), packages, items[|items| - 1])
  }

  /** The index of the first item that is not processed: the failing one, or the end. */
  function Reached(request: Request, faults: Faults): (n: nat)
    ensures n <= |request.items|
    ensures n < |request.items| <==> faults.storeFailsAt.Some? && faults.storeFailsAt.value < |request.items|
  {
    if faults.storeFailsAt.Some? && faults.storeFailsAt.value < |request.items| then faults.storeFailsAt.value
    else |request.items|
  }

  /** The whole handler: the final product table and the response it publishes, if any. */
  function Handled(products: map<int, Product>, packages: map<int, ProductPackage>, request: Request, faults: Faults): (map<int, Product>, Option<Response>)
    requires PackageKeysAreIds(packages)
  {
    var n := Reached(request, faults);
    var st := ReserveAll(products, packages, request.items[..n]);
    if n < |request.items| || faults.publishFails then (st.products, None)
    else (st.products, Some(Response(request.orderId, st.reserved, |st.reserved| != 0)))
  }

  // ---------------------------------------------------------------------------
  // The per-item rules

  /**
   * A unit item whose product has enough stock takes exactly the quantity and
   * is reported with the price per kilogram as its unit price; otherwise
   * nothing changes.
   */
  lemma UnitItemRule(st: State, packages: map<int, ProductPackage>, item: Item)
    requires PackageKeysAreIds(packages)
    requires item.productId in st.products && st.products[item.productId].saleType == Unit
    ensures var p := st.products[item.productId];
      if p.stock >= item.quantity then
        Step(st, packages, item) == State(st.products[item.productId := p.(stock := p.stock - item.quantity)],
                                          st.reserved + [ReservedItem(item, PerUnit(p.pricePerKg))])
      else
        Step(st, packages, item) == st
  {
  }

  /**
   * A packaged item is skipped when no package of its product renders to the
   * requested reference. When one does, the item takes quantity times that
   * package's weight if the stock covers it, and is reported with the
   * package's weight and price; otherwise it is skipped.
   */
  lemma PackagedItemRule(st: State, packages: map<int, ProductPackage>, item: Item)
    requires PackageKeysAreIds(packages)
    requires item.productId in st.products && st.products[item.productId].saleType == Packaged
    ensures var p := st.products[item.productId];
      (forall pkg :: pkg in PackagesOf(packages, p.id) ==> !RefersTo(item.productPackageId, pkg.id)) ==>
        Step(st, packages, item) == st
    ensures var p := st.products[item.productId];
      forall pkg :: pkg in PackagesOf(packages, p.id) && RefersTo(item.productPackageId, pkg.id) ==>
        if p.stock >= item.quantity * pkg.weight then
          Step(st, packages, item) == State(st.products[item.productId := p.(stock := p.stock - item.quantity * pkg.weight)],
                                            st.reserved + [ReservedItem(item, PerPackage(pkg.weight, pkg.price))])
        else
          Step(st, packages, item) == st
  {
    var p := st.products[item.productId];
    var found := FindPackage(packages, p.id, item.productPackageId);
    forall pkg | pkg in PackagesOf(packages, p.id) && RefersTo(item.productPackageId, pkg.id)
      ensures found == Some(pkg)
    {
      RenderInjective(found.value.id, pkg.id);
    }
  }

  /** An item whose product is missing, or sold in an unrecognised way, changes nothing. */
  lemma UnsellableItemSkipped(st: State, packages: map<int, ProductPackage>, item: Item)
    requires PackageKeysAreIds(packages)
    requires item.productId !in st.products || st.products[item.productId].saleType == Unrecognised
    ensures Step(st, packages, item) == st
  {
  }

  // ---------------------------------------------------------------------------
  // Stock accounting

  /** The total amount the satisfied items take from product `productId`. */
  function ConsumedFrom(reserved: seq<ReservedItem>, productId: int): int
    decreases |reserved|
  {
    if reserved == [] then 0
    else
      var last := reserved[|reserved| - 1];
      ConsumedFrom(reserved[..|reserved| - 1], productId)
        + (if last.item.productId == productId then Amount(last.item, last.annotation) else 0)
  }

  /**
   * After any sequence of items, every product is as it was except that its
   * stock has dropped by exactly what its satisfied items consumed; the set of
   * products is the same, and every satisfied item names a stored product.
   */
  lemma {:induction false} FinalStock(products: map<int, Product>, packages: map<int, ProductPackage>, items: seq<Item>)
    requires PackageKeysAreIds(packages)
    ensures var st := ReserveAll(products, packages, items);
      && st.products.Keys == products.Keys
      && (forall pid :: pid in products ==>
            st.products[pid] == products[pid].(stock := products[pid].stock - ConsumedFrom(st.reserved, pid)))
      && (forall ri :: ri in st.reserved ==> ri.item.productId in products)
    decreases |items|
  {
    if items != [] {
      var pre, x := items[..|items| - 1], items[|items| - 1];
      FinalStock(products, packages, pre);
      var st := ReserveAll(products, packages, pre);
      match Decide(Lookup(st.products, x.productId), packages, x)
      case Skip =>
      case Reserve(amount, annotation) =>
        var ri := ReservedItem(x, annotation);
        assert (st.reserved + [ri])[..|st.reserved|] == st.reserved;
    }
  }

  /** A product none of whose items was satisfied keeps its row unchanged. */
  lemma UntouchedProductUnchanged(products: map<int, Product>, packages: map<int, ProductPackage>, items: seq<Item>, pid: int)
    requires PackageKeysAreIds(packages)
    requires pid in products
    requires forall ri :: ri in ReserveAll(products, packages, items).reserved ==> ri.item.productId != pid
    ensures pid in ReserveAll(products, packages, items).products
    ensures ReserveAll(products, packages, items).products[pid] == products[pid]
  {
    FinalStock(products, packages, items);
    NoItemsNoConsumption(ReserveAll(products, packages, items).reserved, pid);
  }

  lemma {:induction false} NoItemsNoConsumption(reserved: seq<ReservedItem>, pid: int)
    requires forall ri :: ri in reserved ==> ri.item.productId != pid
    ensures ConsumedFrom(reserved, pid) == 0
    decreases |reserved|
  {
    if reserved != [] {
      NoItemsNoConsumption(reserved[..|reserved| - 1], pid);
    }
  }

  /**
   * Stock never goes negative: a product is only decremented after its stock
   * was found to cover the amount. This holds whatever the sign of the
   * requested quantities.
   */
  lemma {:induction false} StockStaysNonNegative(products: map<int, Product>, packages: map<int, ProductPackage>, items: seq<Item>)
    requires PackageKeysAreIds(packages)
    requires forall pid :: pid in products ==> products[pid].stock >= 0
    ensures forall pid :: pid in ReserveAll(products, packages, items).products ==>
      ReserveAll(products, packages, items).products[pid].stock >= 0
    decreases |items|
  {
    if items != [] {
      var pre, x := items[..|items| - 1], items[|items| - 1];
      StockStaysNonNegative(products, packages, pre);
      var st := ReserveAll(products, packages, pre);
      var d := Decide(Lookup(st.products, x.productId), packages, x);
      var st' := Step(st, packages, x);
      forall pid | pid in st'.products ensures st'.products[pid].stock >= 0 {
        if pid != x.productId || d.Skip? {
          assert st'.products[pid] == st.products[pid];
        } else {
          assert st'.products[pid].stock == st.products[pid].stock - d.consumed;
        }
      }
    }
  }

  /** A satisfied item with a non-negative quantity takes a non-negative amount. */
  lemma DecidedAmountNonNegative(product: Option<Product>, packages: map<int, ProductPackage>, item: Item)
    requires PackageKeysAreIds(packages)
    requires item.quantity >= 0
    requires forall k :: k in packages ==> packages[k].weight >= 0
    ensures Decide(product, packages, item).Reserve? ==> Decide(product, packages, item).consumed >= 0
  {
    if product.Some? && product.value.saleType == Packaged {
      var pkg := FindPackage(packages, product.value.id, item.productPackageId);
      if pkg.Some? {
        assert packages[pkg.value.id] == pkg.value;
        assert item.quantity * pkg.value.weight >= 0;
      }
    }
  }

  /** With non-negative quantities and package weights, no product's stock rises. */
  lemma {:induction false} StockNeverRises(products: map<int, Product>, packages: map<int, ProductPackage>, items: seq<Item>)
    requires PackageKeysAreIds(packages)
    requires forall i :: 0 <= i < |items| ==> items[i].quantity >= 0
    requires forall k :: k in packages ==> packages[k].weight >= 0
    ensures var st := ReserveAll(products, packages, items);
      && st.products.Keys == products.Keys
      && forall pid :: pid in products ==> st.products[pid].stock <= products[pid].stock
    decreases |items|
  {
    if items != [] {
      var pre, x := items[..|items| - 1], items[|items| - 1];
      StockNeverRises(products, packages, pre);
      var st := ReserveAll(products, packages, pre);
      DecidedAmountNonNegative(Lookup(st.products, x.productId), packages, x);
      var st' := Step(st, packages, x);
      forall pid | pid in products ensures st'.products[pid].stock <= products[pid].stock {
        if pid != x.productId {
          assert st'.products[pid] == st.products[pid];
        }
      }
    }
  }

  // ---------------------------------------------------------------------------
  // Which items are reported

  /** The verdict on item `i`, against the stock the items before it left. */
  ghost function DecisionAt(products: map<int, Product>, packages: map<int, ProductPackage>, items: seq<Item>, i: nat): Decision
    requires PackageKeysAreIds(packages)
    requires i < |items|
  {
    Decide(Lookup(ReserveAll(products, packages, items[..i]).products, items[i].productId), packages, items[i])
  }

  /** The positions among the first `k` items whose verdict was to reserve, in increasing order. */
  ghost function SatisfiedIndices(products: map<int, Product>, packages: map<int, ProductPackage>, items: seq<Item>, k: nat): seq<nat>
    requires PackageKeysAreIds(packages)
    requires k <= |items|
    decreases k
  {
    if k == 0 then []
    else
      SatisfiedIndices(products, packages, items, k - 1)
        + (if DecisionAt(products, packages, items, k - 1).Reserve? then [k - 1] else [])
  }

  /** The satisfied positions are exactly the positions below `k` whose verdict was to reserve. */
  lemma {:induction false} SatisfiedIndicesMembers(products: map<int, Product>, packages: map<int, ProductPackage>, items: seq<Item>, k: nat)
    requires PackageKeysAreIds(packages)
    requires k <= |items|
    ensures forall i: int :: i in SatisfiedIndices(products, packages, items, k) <==>
      0 <= i < k && DecisionAt(products, packages, items, i).Reserve?
    decreases k
  {
    if k > 0 {
      SatisfiedIndicesMembers(products, packages, items, k - 1);
    }
  }

  /** The satisfied positions are listed in strictly increasing order. */
  lemma {:induction false} SatisfiedIndicesAscending(products: map<int, Product>, packages: map<int, ProductPackage>, items: seq<Item>, k: nat)
    requires PackageKeysAreIds(packages)
    requires k <= |items|
    ensures forall a, b :: 0 <= a < b < |SatisfiedIndices(products, packages, items, k)| ==>
      SatisfiedIndices(products, packages, items, k)[a] < SatisfiedIndices(products, packages, items, k)[b]
    decreases k
  {
    if k > 0 {
      SatisfiedIndicesAscending(products, packages, items, k - 1);
      SatisfiedIndicesMembers(products, packages, items, k - 1);
      var before := SatisfiedIndices(products, packages, items, k - 1);
      assert forall a :: 0 <= a < |before| ==> before[a] in before;
    }
  }

  /** A verdict depends only on the items up to and including its own. */
  lemma DecisionAtPrefix(products: map<int, Product>, packages: map<int, ProductPackage>, items: seq<Item>, m: nat, i: nat)
    requires PackageKeysAreIds(packages)
    requires i < m <= |items|
    ensures DecisionAt(products, packages, items[..m], i) == DecisionAt(products, packages, items, i)
  {
    assert items[..m][..i] == items[..i];
  }

  lemma {:induction false} SatisfiedIndicesPrefix(products: map<int, Product>, packages: map<int, ProductPackage>, items: seq<Item>, m: nat, k: nat)
    requires PackageKeysAreIds(packages)
    requires k <= m <= |items|
    ensures SatisfiedIndices(products, packages, items[..m], k) == SatisfiedIndices(products, packages, items, k)
    decreases k
  {
    if k > 0 {
      SatisfiedIndicesPrefix(products, packages, items, m, k - 1);
      DecisionAtPrefix(products, packages, items, m, k - 1);
    }
  }

  /** Appending one item extends the reported items and the satisfied positions by that item's verdict alone. */
  lemma LastItemExtends(products: map<int, Product>, packages: map<int, ProductPackage>, items: seq<Item>)
    requires PackageKeysAreIds(packages)
    requires items != []
    ensures var n := |items|;
      var d := DecisionAt(products, packages, items, n - 1);
      && SatisfiedIndices(products, packages, items, n)
         == SatisfiedIndices(products, packages, items[..n - 1], n - 1) + (if d.Reserve? then [n - 1] else [])
      && ReserveAll(products, packages, items).reserved
         == ReserveAll(products, packages, items[..n - 1]).reserved + (if d.Reserve? then [ReservedItem(items[n - 1], d.annotation)] else [])
  {
    var n := |items|;
    SatisfiedIndicesPrefix(products, packages, items, n - 1, n - 1);
  }

  /**
   * Entry `j` of the reported items is the request item at the `j`-th
   * satisfied position, whose verdict was to reserve, with that verdict's annotation.
   */
  ghost predicate Reports(products: map<int, Product>, packages: map<int, ProductPackage>, items: seq<Item>, idx: seq<nat>, reserved: seq<ReservedItem>, j: int)
    requires PackageKeysAreIds(packages)
  {
    && 0 <= j < |idx| && j < |reserved| && idx[j] < |items|
    && DecisionAt(products, packages, items, idx[j]).Reserve?
    && reserved[j] == ReservedItem(items[idx[j]], DecisionAt(products, packages, items, idx[j]).annotation)
  }

  /** One entry of the reported items keeps its meaning when an item is appended to the request. */
  lemma ReportsExtend(products: map<int, Product>, packages: map<int, ProductPackage>, pre: seq<Item>, x: Item, j: int)
    requires PackageKeysAreIds(packages)
    requires |SatisfiedIndices(products, packages, pre, |pre|)| == |ReserveAll(products, packages, pre).reserved|
    requires forall j' :: 0 <= j' < |SatisfiedIndices(products, packages, pre, |pre|)| ==>
      Reports(products, packages, pre, SatisfiedIndices(products, packages, pre, |pre|), ReserveAll(products, packages, pre).reserved, j')
    requires 0 <= j < |SatisfiedIndices(products, packages, pre + [x], |pre| + 1)|
    ensures Reports(products, packages, pre + [x], SatisfiedIndices(products, packages, pre + [x], |pre| + 1),
                    ReserveAll(products, packages, pre + [x]).reserved, j)
  {
    var items := pre + [x];
    var n := |items|;
    assert items[..n - 1] == pre;
    LastItemExtends(products, packages, items);
    var idxPre := SatisfiedIndices(products, packages, pre, n - 1);
    var reservedPre := ReserveAll(products, packages, pre).reserved;
    var d := DecisionAt(products, packages, items, n - 1);
    if j < |idxPre| {
      assert Reports(products, packages, pre, idxPre, reservedPre, j);
      var i := idxPre[j];
      assert pre[i] == items[i];
      DecisionAtPrefix(products, packages, items, n - 1, i);
    } else {
      assert d.Reserve? && j == |idxPre|;
    }
  }

  /**
   * The reported items are exactly the satisfied request items, in request
   * order, each being the request item itself with the annotation of its verdict.
   */
  lemma {:induction false} ReservedInRequestOrder(products: map<int, Product>, packages: map<int, ProductPackage>, items: seq<Item>)
    requires PackageKeysAreIds(packages)
    ensures |SatisfiedIndices(products, packages, items, |items|)| == |ReserveAll(products, packages, items).reserved|
    ensures forall j :: 0 <= j < |SatisfiedIndices(products, packages, items, |items|)| ==>
      Reports(products, packages, items, SatisfiedIndices(products, packages, items, |items|),
              ReserveAll(products, packages, items).reserved, j)
    decreases |items|
  {
    if items != [] {
      var pre, x := items[..|items| - 1], items[|items| - 1];
      assert items == pre + [x];
      ReservedInRequestOrder(products, packages, pre);
      LastItemExtends(products, packages, items);
      forall j | 0 <= j < |SatisfiedIndices(products, packages, items, |items|)|
        ensures Reports(products, packages, items, SatisfiedIndices(products, packages, items, |items|),
                        ReserveAll(products, packages, items).reserved, j)
      {
        ReportsExtend(products, packages, pre, x, j);
      }
    }
  }

  /**
   * When a response is published it echoes the order id, reports the satisfied
   * items, and `creationPossible` holds exactly when some item was satisfied
   * (not when all were).
   */
  lemma CreationPossibleIffSomeSatisfied(products: map<int, Product>, packages: map<int, ProductPackage>, request: Request)
    requires PackageKeysAreIds(packages)
    ensures var (_, response) := Handled(products, packages, request, Faults(None, false));
      && response.Some?
      && response.value.orderId == request.orderId
      && response.value.items == ReserveAll(products, packages, request.items).reserved
      && (response.value.creationPossible <==>
            exists i :: 0 <= i < |request.items| && DecisionAt(products, packages, request.items, i).Reserve?)
  {
    var items := request.items;
    assert items[..|items|] == items;
    var st := ReserveAll(products, packages, items);
    assert Handled(products, packages, request, Faults(None, false))
        == (st.products, Some(Response(request.orderId, st.reserved, |st.reserved| != 0)));
    ReservedInRequestOrder(products, packages, items);
    var idx := SatisfiedIndices(products, packages, items, |items|);
    SatisfiedIndicesMembers(products, packages, items, |items|);
    assert |idx| == |st.reserved|;
    if exists i :: 0 <= i < |items| && DecisionAt(products, packages, items, i).Reserve? {
      var i :| 0 <= i < |items| && DecisionAt(products, packages, items, i).Reserve?;
      assert i in idx;
    }
    if |idx| > 0 {
      assert idx[0] in idx;
    }
  }

  /** If nothing was satisfied, the product table is exactly as before. */
  lemma NothingSatisfiedNothingChanged(products: map<int, Product>, packages: map<int, ProductPackage>, items: seq<Item>)
    requires PackageKeysAreIds(packages)
    requires ReserveAll(products, packages, items).reserved == []
    ensures ReserveAll(products, packages, items).products == products
  {
    FinalStock(products, packages, items);
  }

  // ---------------------------------------------------------------------------
  // Failures

  /**
   * A store failure at item `k` publishes nothing, yet the decrements made for
   * items before `k` stay: each product has lost exactly what those items took.
   */
  lemma StoreFailureKeepsEarlierDecrements(products: map<int, Product>, packages: map<int, ProductPackage>, request: Request, k: nat, publishFails: bool)
    requires PackageKeysAreIds(packages)
    requires k < |request.items|
    ensures var (table, response) := Handled(products, packages, request, Faults(Some(k), publishFails));
      var before := ReserveAll(products, packages, request.items[..k]);
      && response.None?
      && table == before.products
      && table.Keys == products.Keys
      && forall pid :: pid in products ==>
           table[pid].stock == products[pid].stock - ConsumedFrom(before.reserved, pid)
  {
    FinalStock(products, packages, request.items[..k]);
  }

  /** A failed publish loses the response but keeps every decrement. */
  lemma PublishFailureKeepsAllDecrements(products: map<int, Product>, packages: map<int, ProductPackage>, request: Request)
    requires PackageKeysAreIds(packages)
    ensures var (table, response) := Handled(products, packages, request, Faults(None, true));
      && response.None?
      && table == ReserveAll(products, packages, request.items).products
  {
    assert request.items[..|request.items|] == request.items;
  }

  // ---------------------------------------------------------------------------
  // Scenarios

  function CoffeeSoldByUnit(stock: int): Product {
    Product(1, "Coffee", Unit, Details(None, None, None, None, None, None), stock, 15.0)
  }

  /** A request with a single item, handled without faults, is one step from the initial table. */
  lemma HandledSingleItem(products: map<int, Product>, packages: map<int, ProductPackage>, orderId: int, item: Item)
    requires PackageKeysAreIds(packages)
    ensures Handled(products, packages, Request(orderId, [item]), Faults(None, false))
         == (Step(State(products, []), packages, item).products,
             Some(Response(orderId, Step(State(products, []), packages, item).reserved,
                           |Step(State(products, []), packages, item).reserved| != 0)))
  {
    assert [item][..1] == [item] && [item][..0] == [];
    assert Reached(Request(orderId, [item]), Faults(None, false)) == 1;
    assert ReserveAll(products, packages, [item]) == Step(State(products, []), packages, item);
  }

  /** Two units of a product with 10 in stock at 15 per kilogram: reserved, stock becomes 8. */
  lemma ScenarioUnitReserved()
    ensures var item := Item(1, 2, "unit", Absent);
      Handled(map[1 := CoffeeSoldByUnit(10)], map[], Request(7, [item]), Faults(None, false))
        == (map[1 := CoffeeSoldByUnit(8)], Some(Response(7, [ReservedItem(item, PerUnit(15.0))], true)))
  {
    var item := Item(1, 2, "unit", Absent);
    var products := map[1 := CoffeeSoldByUnit(10)];
    HandledSingleItem(products, map[], 7, item);
    UnitItemRule(State(products, []), map[], item);
    var st := Step(State(products, []), map[], item);
    assert st.products == products[1 := CoffeeSoldByUnit(8)] == map[1 := CoffeeSoldByUnit(8)];
    assert st.reserved == [ReservedItem(item, PerUnit(15.0))];
  }

  /** The same request against a stock of 1: an empty response, `creationPossible` false, stock kept. */
  lemma ScenarioUnitInsufficient()
    ensures var item := Item(1, 2, "unit", Absent);
      Handled(map[1 := CoffeeSoldByUnit(1)], map[], Request(7, [item]), Faults(None, false))
        == (map[1 := CoffeeSoldByUnit(1)], Some(Response(7, [], false)))
  {
    var item := Item(1, 2, "unit", Absent);
    HandledSingleItem(map[1 := CoffeeSoldByUnit(1)], map[], 7, item);
  }

  /**
   * A product whose sale type is unset keeps its stock of 10 when 10 units
   * are requested, and the response reports nothing.
   */
  lemma ScenarioUnsetSaleType()
    ensures var product := CoffeeSoldByUnit(10).(saleType := Unrecognised);
      var item := Item(1, 10, "unit", Absent);
      Handled(map[1 := product], map[], Request(1, [item]), Faults(None, false))
        == (map[1 := product], Some(Response(1, [], false)))
  {
    var item := Item(1, 10, "unit", Absent);
    HandledSingleItem(map[1 := CoffeeSoldByUnit(10).(saleType := Unrecognised)], map[], 1, item);
  }

  /**
   * Two requests for 6 units each, handled one after the other against a
   * stock of 10: the first is satisfied, the second sees the remaining 4 and
   * is not, so the stock ends at 4 and never goes below zero.
   */
  lemma ScenarioSequentialRequests()
    ensures var item := Item(1, 6, "unit", Absent);
      var (afterFirst, first) := Handled(map[1 := CoffeeSoldByUnit(10)], map[], Request(1, [item]), Faults(None, false));
      var (afterSecond, second) := Handled(afterFirst, map[], Request(2, [item]), Faults(None, false));
      && first == Some(Response(1, [ReservedItem(item, PerUnit(15.0))], true))
      && second == Some(Response(2, [], false))
      && afterSecond == map[1 := CoffeeSoldByUnit(4)]
  {
    var item := Item(1, 6, "unit", Absent);
    var products := map[1 := CoffeeSoldByUnit(10)];
    var rest := map[1 := CoffeeSoldByUnit(4)];
    HandledSingleItem(products, map[], 1, item);
    UnitItemRule(State(products, []), map[], item);
    var st := Step(State(products, []), map[], item);
    assert st.products == products[1 := CoffeeSoldByUnit(4)] == rest;
    assert st.reserved == [ReservedItem(item, PerUnit(15.0))];
    HandledSingleItem(rest, map[], 2, item);
  }

  /** The quantity's sign is not checked: a negative quantity is "reserved" and raises the stock. */
  lemma ScenarioNegativeQuantity()
    ensures var item := Item(1, -5, "unit", Absent);
      Handled(map[1 := CoffeeSoldByUnit(10)], map[], Request(3, [item]), Faults(None, false))
        == (map[1 := CoffeeSoldByUnit(15)], Some(Response(3, [ReservedItem(item, PerUnit(15.0))], true)))
  {
    var item := Item(1, -5, "unit", Absent);
    var products := map[1 := CoffeeSoldByUnit(10)];
    HandledSingleItem(products, map[], 3, item);
    UnitItemRule(State(products, []), map[], item);
    var st := Step(State(products, []), map[], item);
    assert st.products == products[1 := CoffeeSoldByUnit(15)] == map[1 := CoffeeSoldByUnit(15)];
    assert st.reserved == [ReservedItem(item, PerUnit(15.0))];
  }

  /** A package reference sent as a JSON number is never strictly equal to a rendered id. */
  lemma NumericReferenceNeverMatches(packages: map<int, ProductPackage>, productId: int, n: int)
    requires PackageKeysAreIds(packages)
    ensures FindPackage(packages, productId, Number(n)) == None
  {
  }
}
