/**
 The product statistics both `ProductService.getStatistics` and
 `InventoryService.getStatistics` compute from the list `findAll` returns.
 Each stream pipeline of the Java code is a left fold here (`Reduce`,
 `ReduceNullable`, `Filter`, `GroupCount`, `MaxByPrice`, `MinByPrice`), and each
 fold's contract ties it to an independent description of its result.
 */
module Statistics {
  import opened Results
  import opened Products
  import Inventories
  import Decimals

  // ---------------------------------------------------------------------------
  // What is measured per product

  function Price(p: Product): int { p.price }

  function PriceValue(p: Product): int { p.price * p.quantity }

  function Quantity(p: Product): int { p.quantity }

  function Area(p: Product): Option<int> { p.area }

  function InitialQuantity(p: Product): Option<int> { p.initialQuantity }

  predicate HasInventory(p: Product) { p.inventory.Some? }

  predicate LacksInventory(p: Product) { p.inventory.None? }

  /** `expirationDate != null && expirationDate.before(now)`. */
  function ExpiredBefore(now: int): Product -> bool {
    (p: Product) => p.expirationDate.Some? && p.expirationDate.value < now
  }

  // ---------------------------------------------------------------------------
  // Sums

  /** Σ f(p) over the list. */
  function Total(ps: seq<Product>, f: Product -> int): int
    decreases |ps|
  {
    if |ps| == 0 then 0 else f(ps[0]) + Total(ps[1..], f)
  }

  predicate AllPresent(ps: seq<Product>, f: Product -> Option<int>) {
    forall i :: 0 <= i < |ps| ==> f(ps[i]).Some?
  }

  /** Σ f(p) over the list, over the products where f is not null. */
  function TotalPresent(ps: seq<Product>, f: Product -> Option<int>): int
    decreases |ps|
  {
    if |ps| == 0 then 0 else f(ps[0]).GetOr(0) + TotalPresent(ps[1..], f)
  }

  /** `map(f).reduce(acc, add)` and `mapToLong(f).sum()`: a left fold. */
  function Reduce(ps: seq<Product>, acc: int, f: Product -> int): (r: int)
    ensures r == acc + Total(ps, f)
    decreases |ps|
  {
    if |ps| == 0 then acc else Reduce(ps[1..], acc + f(ps[0]), f)
  }

  /** The same fold over a nullable column: adding or unboxing a null throws,
      which is None here. */
  function ReduceNullable(ps: seq<Product>, acc: int, f: Product -> Option<int>): (r: Option<int>)
    ensures r.Some? <==> AllPresent(ps, f)
    ensures r.Some? ==> r.value == acc + TotalPresent(ps, f)
    decreases |ps|
  {
    if |ps| == 0 then Some(acc)
    else if f(ps[0]).None? then None
    else
      var r := ReduceNullable(ps[1..], acc + f(ps[0]).value, f);
      assert AllPresent(ps, f) <==> f(ps[0]).Some? && AllPresent(ps[1..], f) by {
        if f(ps[0]).Some? && AllPresent(ps[1..], f) {
          forall i | 0 <= i < |ps| ensures f(ps[i]).Some? {
            if i > 0 { assert ps[i] == ps[1..][i - 1]; }
          }
        }
      }
      r
  }

  // ---------------------------------------------------------------------------
  // Counting

  /** How many positions of the list hold a product that passes `keep`. */
  ghost function Count(ps: seq<Product>, keep: Product -> bool): nat {
    |set i | 0 <= i < |ps| && keep(ps[i])|
  }

  /** `filter(keep)`: the products kept, in list order. */
  function Filter(ps: seq<Product>, keep: Product -> bool): (r: seq<Product>)
    ensures |r| <= |ps|
    ensures forall p :: p in r <==> p in ps && keep(p)
    decreases |ps|
  {
    if |ps| == 0 then []
    else
      assert forall p :: p in ps <==> p == ps[0] || p in ps[1..];
      (if keep(ps[0]) then [ps[0]] else []) + Filter(ps[1..], keep)
  }

  /** Filtering the suffix from `k` keeps as many products as there are
      passing positions from `k` on. */
  lemma {:induction false} CountFrom(ps: seq<Product>, keep: Product -> bool, k: nat)
    requires k <= |ps|
    ensures |Filter(ps[k..], keep)| == |set i | k <= i < |ps| && keep(ps[i])|
    decreases |ps| - k
  {
    if k < |ps| {
      CountFrom(ps, keep, k + 1);
      var here := set i | k <= i < |ps| && keep(ps[i]);
      var later := set i | k + 1 <= i < |ps| && keep(ps[i]);
      assert ps[k..][1..] == ps[k + 1..];
      if keep(ps[k]) {
        assert here == later + {k};
      } else {
        assert here == later;
      }
    }
  }

  /** The length of `filter(keep)` is the number of passing positions: what
      `count()` after the filter returns. */
  lemma FilterCount(ps: seq<Product>, keep: Product -> bool)
    ensures |Filter(ps, keep)| == Count(ps, keep)
  {
    CountFrom(ps, keep, 0);
    assert ps[0..] == ps;
  }

  /** `filter` keeps a passing product as often as the list holds it and drops
      every other product. */
  lemma {:induction false} FilterMultiplicity(ps: seq<Product>, keep: Product -> bool, p: Product)
    ensures multiset(Filter(ps, keep))[p] == if keep(p) then multiset(ps)[p] else 0
    decreases |ps|
  {
    if |ps| > 0 {
      FilterMultiplicity(ps[1..], keep, p);
      assert ps == [ps[0]] + ps[1..];
    }
  }

  /** The products with and without an inventory split the list. */
  lemma {:induction false} InventoryFilterSplits(ps: seq<Product>)
    ensures |Filter(ps, HasInventory)| + |Filter(ps, LacksInventory)| == |ps|
    decreases |ps|
  {
    if |ps| > 0 {
      InventoryFilterSplits(ps[1..]);
    }
  }

  /** A count of `filter(keep)` is the whole list exactly when every product is
      kept, and zero exactly when none is. */
  lemma {:induction false} FilterCountExtremes(ps: seq<Product>, keep: Product -> bool)
    ensures |Filter(ps, keep)| == |ps| <==> forall i :: 0 <= i < |ps| ==> keep(ps[i])
    ensures |Filter(ps, keep)| == 0 <==> forall i :: 0 <= i < |ps| ==> !keep(ps[i])
    decreases |ps|
  {
    if |ps| > 0 {
      FilterCountExtremes(ps[1..], keep);
      var rest := ps[1..];
      assert forall i :: 0 < i < |ps| ==> ps[i] == rest[i - 1];
      if forall i :: 0 <= i < |ps| ==> !keep(ps[i]) {
        assert forall i :: 0 <= i < |rest| ==> !keep(rest[i]) by {
          forall i | 0 <= i < |rest| ensures !keep(rest[i]) {
            assert rest[i] == ps[i + 1];
          }
        }
      }
      if forall i :: 0 <= i < |ps| ==> keep(ps[i]) {
        assert forall i :: 0 <= i < |rest| ==> keep(rest[i]) by {
          forall i | 0 <= i < |rest| ensures keep(rest[i]) {
            assert rest[i] == ps[i + 1];
          }
        }
      }
    }
  }

  // ---------------------------------------------------------------------------
  // Grouping

  function Get(m: map<string, nat>, k: string): nat {
    if k in m then m[k] else 0
  }

  /** How often each key occurs in the list. */
  ghost function Occurrences(keys: seq<string>): map<string, nat> {
    map k | k in keys :: multiset(keys)[k]
  }

  /** `collect(groupingBy(key, counting()))`: a left fold of increments. */
  function GroupCount(keys: seq<string>, acc: map<string, nat>): (r: map<string, nat>)
    ensures forall k :: k in r <==> k in acc || k in keys
    ensures forall k :: k in r ==> r[k] == Get(acc, k) + multiset(keys)[k]
    decreases |keys|
  {
    if |keys| == 0 then acc
    else
      assert keys == [keys[0]] + keys[1..];
      assert forall k :: k in keys <==> k == keys[0] || k in keys[1..];
      GroupCount(keys[1..], acc[keys[0] := Get(acc, keys[0]) + 1])
  }

  lemma GroupCountIsOccurrences(keys: seq<string>)
    ensures GroupCount(keys, map[]) == Occurrences(keys)
  {
  }

  /** Σ of the values of a map. */
  ghost function MapSum(m: map<string, nat>): nat
    decreases |m.Keys|
  {
    if m.Keys == {} then 0
    else
      var k :| k in m.Keys;
      assert (m - {k}).Keys == m.Keys - {k};
      m[k] + MapSum(m - {k})
  }

  lemma {:induction false} MapSumRemove(m: map<string, nat>, k: string)
    requires k in m
    ensures MapSum(m) == m[k] + MapSum(m - {k})
    decreases |m.Keys|
  {
    var j :| j in m.Keys && MapSum(m) == m[j] + MapSum(m - {j});
    assert (m - {j}).Keys == m.Keys - {j};
    if j != k {
      assert (m - {k}).Keys == m.Keys - {k};
      MapSumRemove(m - {j}, k);
      MapSumRemove(m - {k}, j);
      assert m - {j} - {k} == m - {k} - {j};
    }
  }

  lemma MapSumPut(m: map<string, nat>, k: string, v: nat)
    ensures MapSum(m[k := v]) == MapSum(m) - Get(m, k) + v
  {
    MapSumRemove(m[k := v], k);
    if k in m {
      MapSumRemove(m, k);
      assert m[k := v] - {k} == m - {k};
    } else {
      assert m[k := v] - {k} == m;
    }
  }

  lemma {:induction false} GroupCountSum(keys: seq<string>, acc: map<string, nat>)
    ensures MapSum(GroupCount(keys, acc)) == MapSum(acc) + |keys|
    decreases |keys|
  {
    if |keys| > 0 {
      var acc' := acc[keys[0] := Get(acc, keys[0]) + 1];
      MapSumPut(acc, keys[0], Get(acc, keys[0]) + 1);
      GroupCountSum(keys[1..], acc');
    }
  }

  /** The group counts add up to the number of keys grouped. */
  lemma OccurrencesSum(keys: seq<string>)
    ensures MapSum(Occurrences(keys)) == |keys|
  {
    GroupCountIsOccurrences(keys);
    GroupCountSum(keys, map[]);
  }

  /** The status name of each product, in list order. */
  function StatusNames(ps: seq<Product>): (r: seq<string>)
    ensures |r| == |ps|
    ensures forall i :: 0 <= i < |ps| ==> r[i] == StatusName(ps[i].status)
  {
    seq(|ps|, i requires 0 <= i < |ps| => StatusName(ps[i].status))
  }

  /** Every product's attached inventory is present in the inventory table, as
      the join column's foreign key guarantees. */
  predicate InventoriesResolve(ps: seq<Product>, invs: map<int, Inventories.Inventory>) {
    forall p :: p in ps && p.inventory.Some? ==> p.inventory.value in invs
  }

  /** `getInventory().getName()` of each product, in list order. */
  function InventoryNames(ps: seq<Product>, invs: map<int, Inventories.Inventory>): (r: seq<string>)
    requires forall p :: p in ps ==> p.inventory.Some? && p.inventory.value in invs
    ensures |r| == |ps|
    ensures forall i :: 0 <= i < |ps| ==> r[i] == invs[ps[i].inventory.value].name
    decreases |ps|
  {
    if |ps| == 0 then []
    else [invs[ps[0].inventory.value].name] + InventoryNames(ps[1..], invs)
  }

  // ---------------------------------------------------------------------------
  // Extremes

  /** `k` is the first position holding the highest price among the first `n`. */
  ghost predicate IsFirstMaxAmong(ps: seq<Product>, n: int, k: int) {
    && 0 <= k < n <= |ps|
    && (forall j :: 0 <= j < n ==> ps[j].price <= ps[k].price)
    && (forall j :: 0 <= j < k ==> ps[j].price < ps[k].price)
  }

  /** `k` is the first position holding the lowest price among the first `n`. */
  ghost predicate IsFirstMinAmong(ps: seq<Product>, n: int, k: int) {
    && 0 <= k < n <= |ps|
    && (forall j :: 0 <= j < n ==> ps[k].price <= ps[j].price)
    && (forall j :: 0 <= j < k ==> ps[k].price < ps[j].price)
  }

  ghost predicate IsFirstMax(ps: seq<Product>, k: int) { IsFirstMaxAmong(ps, |ps|, k) }

  ghost predicate IsFirstMin(ps: seq<Product>, k: int) { IsFirstMinAmong(ps, |ps|, k) }

  /** `reduce(BinaryOperator.maxBy(comparing(getPrice)))`, which keeps the
      current best unless the next price is strictly higher. */
  function MaxByPrice(ps: seq<Product>, i: nat, best: nat): (k: nat)
    requires IsFirstMaxAmong(ps, i, best)
    ensures IsFirstMax(ps, k)
    decreases |ps| - i
  {
    if i == |ps| then best
    else MaxByPrice(ps, i + 1, if ps[best].price >= ps[i].price then best else i)
  }

  /** `reduce(BinaryOperator.minBy(comparing(getPrice)))`, which keeps the
      current best unless the next price is strictly lower. */
  function MinByPrice(ps: seq<Product>, i: nat, best: nat): (k: nat)
    requires IsFirstMinAmong(ps, i, best)
    ensures IsFirstMin(ps, k)
    decreases |ps| - i
  {
    if i == |ps| then best
    else MinByPrice(ps, i + 1, if ps[best].price <= ps[i].price then best else i)
  }

  /** `max(...).map(Product::getName).orElse("None")`. */
  function MostExpensiveName(ps: seq<Product>): (name: string)
    ensures |ps| == 0 ==> name == "None"
    ensures |ps| > 0 ==> exists k :: IsFirstMax(ps, k) && name == ps[k].name
  {
    if |ps| == 0 then "None" else ps[MaxByPrice(ps, 1, 0)].name
  }

  /** `min(...).map(Product::getName).orElse("None")`. */
  function LeastExpensiveName(ps: seq<Product>): (name: string)
    ensures |ps| == 0 ==> name == "None"
    ensures |ps| > 0 ==> exists k :: IsFirstMin(ps, k) && name == ps[k].name
  {
    if |ps| == 0 then "None" else ps[MinByPrice(ps, 1, 0)].name
  }

  // ---------------------------------------------------------------------------
  // Averages

  ghost predicate IsAverage(avg: int, total: int, count: nat) {
    && (count == 0 ==> avg == 0)
    && (count > 0 ==> Decimals.IsHalfUpQuotient(total, count, avg))
  }

  /** `count > 0 ? total.divide(valueOf(count), 2, HALF_UP) : ZERO`, on hundredths. */
  function Average(total: int, count: nat): (avg: int)
    ensures IsAverage(avg, total, count)
  {
    if count > 0 then
      Decimals.DivideHalfUpIsHalfUp(total, count);
      Decimals.DivideHalfUp(total, count)
    else 0
  }

  // ---------------------------------------------------------------------------
  // The aggregate

  datatype Statistics = Statistics(
    totalProducts: nat,
    totalPriceValue: int,            // hundredths
    totalAreaUsed: int,              // hundredths
    averagePrice: int,               // hundredths
    averageAreaUsed: int,            // hundredths
    statusCounts: map<string, nat>,
    inventoryCounts: map<string, nat>,
    totalExpiredProducts: nat,
    totalProductsWithoutInventories: nat,
    totalQuantity: int,
    averageQuantityPerProduct: int,  // hundredths
    totalInitialQuantity: int,
    mostExpensiveProduct: string,
    leastExpensiveProduct: string)

  /** What each figure means, stated without the folds. */
  ghost predicate Summarises(s: Statistics, ps: seq<Product>, invs: map<int, Inventories.Inventory>, now: int)
    requires InventoriesResolve(ps, invs)
  {
    && s.totalProducts == |ps|
    && s.totalPriceValue == Total(ps, PriceValue)
    && s.totalAreaUsed == TotalPresent(ps, Area)
    && IsAverage(s.averagePrice, Total(ps, Price), |ps|)
    && IsAverage(s.averageAreaUsed, TotalPresent(ps, Area), |ps|)
    && s.statusCounts == Occurrences(StatusNames(ps))
    && s.inventoryCounts == Occurrences(InventoryNames(Filter(ps, HasInventory), invs))
    && s.totalExpiredProducts == Count(ps, ExpiredBefore(now))
    && s.totalProductsWithoutInventories == Count(ps, LacksInventory)
    && s.totalQuantity == Total(ps, Quantity)
    && IsAverage(s.averageQuantityPerProduct, 100 * Total(ps, Quantity), |ps|)
    && s.totalInitialQuantity == TotalPresent(ps, InitialQuantity)
    && (|ps| == 0 ==> s.mostExpensiveProduct == "None" && s.leastExpensiveProduct == "None")
    && (|ps| > 0 ==> exists k :: IsFirstMax(ps, k) && s.mostExpensiveProduct == ps[k].name)
    && (|ps| > 0 ==> exists k :: IsFirstMin(ps, k) && s.leastExpensiveProduct == ps[k].name)
  }

  /** The body of `getStatistics` after `findAll()`. A null area or a null
      initial quantity makes a stream throw a NullPointerException. */
  function Aggregate(ps: seq<Product>, invs: map<int, Inventories.Inventory>, now: int): (r: Result<Statistics>)
    requires InventoriesResolve(ps, invs)
    ensures r.Err? <==> !AllPresent(ps, Area) || !AllPresent(ps, InitialQuantity)
    ensures r.Err? ==> r.error == NullValue
    ensures r.Ok? ==> Summarises(r.value, ps, invs, now)
  {
    var totalProducts := |ps|;
    var totalPriceValue := Reduce(ps, 0, PriceValue);
    var totalAreaUsed := ReduceNullable(ps, 0, Area);
    if totalAreaUsed.None? then Err(NullValue)
    else
      var statusCounts := GroupCount(StatusNames(ps), map[]);
      var attached := Filter(ps, HasInventory);
      var inventoryCounts := GroupCount(InventoryNames(attached, invs), map[]);
      var averagePrice := Average(Reduce(ps, 0, Price), totalProducts);
      var averageAreaUsed := Average(totalAreaUsed.value, totalProducts);
      var totalExpiredProducts := |Filter(ps, ExpiredBefore(now))|;
      var totalProductsWithoutInventories := |Filter(ps, LacksInventory)|;
      var totalQuantity := Reduce(ps, 0, Quantity);
      var averageQuantityPerProduct := Average(100 * totalQuantity, totalProducts);
      var totalInitialQuantity := ReduceNullable(ps, 0, InitialQuantity);
      if totalInitialQuantity.None? then Err(NullValue)
      else
        GroupCountIsOccurrences(StatusNames(ps));
        GroupCountIsOccurrences(InventoryNames(attached, invs));
        FilterCount(ps, ExpiredBefore(now));
        FilterCount(ps, LacksInventory);
        Ok(Statistics(
          totalProducts, totalPriceValue, totalAreaUsed.value, averagePrice, averageAreaUsed,
          statusCounts, inventoryCounts, totalExpiredProducts, totalProductsWithoutInventories,
          totalQuantity, averageQuantityPerProduct, totalInitialQuantity.value,
          MostExpensiveName(ps), LeastExpensiveName(ps)))
  }

  // ---------------------------------------------------------------------------
  // Properties of the aggregate

  lemma {:induction false} TwoValuedCounts(keys: seq<string>, a: string, b: string)
    requires a != b
    requires forall i :: 0 <= i < |keys| ==> keys[i] == a || keys[i] == b
    ensures multiset(keys)[a] + multiset(keys)[b] == |keys|
    decreases |keys|
  {
    if |keys| > 0 {
      var rest := keys[1..];
      assert keys == [keys[0]] + rest;
      forall i | 0 <= i < |rest| ensures rest[i] == a || rest[i] == b {
        assert rest[i] == keys[i + 1];
      }
      TwoValuedCounts(rest, a, b);
    }
  }

  /** The status counts have only the two status names as keys and add up to
      the number of products. */
  lemma StatusCountsPartition(ps: seq<Product>)
    ensures Occurrences(StatusNames(ps)).Keys <= {"AVAILABLE", "UNAVAILABLE"}
    ensures Get(Occurrences(StatusNames(ps)), "AVAILABLE") + Get(Occurrences(StatusNames(ps)), "UNAVAILABLE") == |ps|
  {
    var names := StatusNames(ps);
    assert "AVAILABLE" != "UNAVAILABLE" by {
      assert |"AVAILABLE"| != |"UNAVAILABLE"|;
    }
    forall i | 0 <= i < |names| ensures names[i] == "AVAILABLE" || names[i] == "UNAVAILABLE" {
      assert names[i] == StatusName(ps[i].status);
    }
    TwoValuedCounts(names, "AVAILABLE", "UNAVAILABLE");
  }

  /** The counts any statistics of the list report agree with one another: the status
      counts and the per-inventory counts plus the unassigned products each
      add up to the total, and the expired products are among them. */
  lemma CountsAgree(s: Statistics, ps: seq<Product>, invs: map<int, Inventories.Inventory>, now: int)
    requires InventoriesResolve(ps, invs) && Summarises(s, ps, invs, now)
    ensures
      && MapSum(s.statusCounts) == s.totalProducts
      && s.statusCounts.Keys <= {"AVAILABLE", "UNAVAILABLE"}
      && MapSum(s.inventoryCounts) + s.totalProductsWithoutInventories == s.totalProducts
      && s.totalExpiredProducts <= s.totalProducts
  {
    var attached := Filter(ps, HasInventory);
    OccurrencesSum(StatusNames(ps));
    StatusCountsPartition(ps);
    OccurrencesSum(InventoryNames(attached, invs));
    InventoryFilterSplits(ps);
    FilterCount(ps, LacksInventory);
    FilterCount(ps, ExpiredBefore(now));
  }

  /** The expired count is zero exactly when no product has expired, and the
      whole list exactly when every product has. */
  lemma ExpiredCountExact(s: Statistics, ps: seq<Product>, invs: map<int, Inventories.Inventory>, now: int)
    requires InventoriesResolve(ps, invs) && Summarises(s, ps, invs, now)
    ensures var n := s.totalExpiredProducts;
      && (n == 0 <==> forall i :: 0 <= i < |ps| ==> !(ps[i].expirationDate.Some? && ps[i].expirationDate.value < now))
      && (n == |ps| <==> forall i :: 0 <= i < |ps| ==> ps[i].expirationDate.Some? && ps[i].expirationDate.value < now)
  {
    FilterCountExtremes(ps, ExpiredBefore(now));
    FilterCount(ps, ExpiredBefore(now));
  }

  lemma {:induction false} TotalBetween(ps: seq<Product>, f: Product -> int, lo: int, hi: int)
    requires forall i :: 0 <= i < |ps| ==> lo <= f(ps[i]) <= hi
    ensures |ps| * lo <= Total(ps, f) <= |ps| * hi
    decreases |ps|
  {
    if |ps| > 0 {
      var rest := ps[1..];
      forall i | 0 <= i < |rest| ensures lo <= f(rest[i]) <= hi {
        assert rest[i] == ps[i + 1];
      }
      TotalBetween(rest, f, lo, hi);
      assert |ps| * lo == lo + |rest| * lo;
      assert |ps| * hi == hi + |rest| * hi;
    }
  }

  /** The average price lies between the prices of the least and the most
      expensive product the statistics name. */
  lemma AveragePriceBetweenExtremes(s: Statistics, ps: seq<Product>, invs: map<int, Inventories.Inventory>, now: int, least: int, most: int)
    requires InventoriesResolve(ps, invs) && Summarises(s, ps, invs, now)
    requires IsFirstMin(ps, least) && IsFirstMax(ps, most)
    ensures ps[least].price <= s.averagePrice <= ps[most].price
  {
    var n := |ps|;
    TotalBetween(ps, Price, ps[least].price, ps[most].price);
    var avg := s.averagePrice;
    Decimals.DivideHalfUpIsHalfUp(Total(ps, Price), n);
    Decimals.HalfUpQuotientUnique(Total(ps, Price), n, avg, Decimals.DivideHalfUp(Total(ps, Price), n));
    Decimals.DivideHalfUpWithin(Total(ps, Price), n, ps[least].price, ps[most].price);
  }

  /** With no products every figure is zero and both extremes are "None"; no
      division happens. */
  lemma EmptyStatistics(invs: map<int, Inventories.Inventory>, now: int)
    ensures Aggregate([], invs, now)
      == Ok(Statistics(0, 0, 0, 0, 0, map[], map[], 0, 0, 0, 0, 0, "None", "None"))
  {
  }

  /** "None" also names a real product: the reported name alone cannot tell an
      empty list from one whose most expensive product is called "None". */
  lemma NoneIsAlsoAProductName(p: Product)
    requires p.name == "None"
    ensures MostExpensiveName([p]) == MostExpensiveName([])
  {
  }

  // ---------------------------------------------------------------------------
  // The map handed back to the controller

  datatype StatKey =
    | TotalProducts | TotalPriceValue | TotalAreaUsed | AveragePrice | AverageAreaUsed
    | TotalExpiredProducts | TotalProductsWithoutInventories | TotalQuantity
    | AverageQuantityPerProduct | TotalInitialQuantity | StatusCounts | InventoryCounts
    | MostExpensiveProduct | LeastExpensiveProduct

  /** A `long`, a `BigDecimal` in hundredths, a `Map<String, Long>` or a `String`. */
  datatype StatValue = Long(n: int) | Decimal(hundredths: int) | Counts(counts: map<string, nat>) | Name(name: string)

  type Report = map<StatKey, StatValue>

  /** `ProductService.getStatistics`: one `HashMap.put` per key, in the order
      the source puts them. */
  function PutReport(s: Statistics): Report {
    map[]
      [TotalProducts := Long(s.totalProducts)]
      [TotalPriceValue := Decimal(s.totalPriceValue)]
      [TotalAreaUsed := Decimal(s.totalAreaUsed)]
      [AveragePrice := Decimal(s.averagePrice)]
      [AverageAreaUsed := Decimal(s.averageAreaUsed)]
      [TotalExpiredProducts := Long(s.totalExpiredProducts)]
      [TotalProductsWithoutInventories := Long(s.totalProductsWithoutInventories)]
      [TotalQuantity := Long(s.totalQuantity)]
      [AverageQuantityPerProduct := Decimal(s.averageQuantityPerProduct)]
      [TotalInitialQuantity := Long(s.totalInitialQuantity)]
      [StatusCounts := Counts(s.statusCounts)]
      [InventoryCounts := Counts(s.inventoryCounts)]
      [MostExpensiveProduct := Name(s.mostExpensiveProduct)]
      [LeastExpensiveProduct := Name(s.leastExpensiveProduct)]
  }

  lemma ReportTotal(s: Statistics)
    ensures TotalProducts in PutReport(s) && PutReport(s)[TotalProducts] == Long(s.totalProducts)
  {
  }

  /** The entries `InventoryService.getStatistics` passes to `Map.ofEntries`,
      in its order. */
  function ReportEntries(s: Statistics): seq<(StatKey, StatValue)> {
    [ (TotalProducts, Long(s.totalProducts)),
      (TotalPriceValue, Decimal(s.totalPriceValue)),
      (TotalAreaUsed, Decimal(s.totalAreaUsed)),
      (AveragePrice, Decimal(s.averagePrice)),
      (AverageAreaUsed, Decimal(s.averageAreaUsed)),
      (StatusCounts, Counts(s.statusCounts)),
      (InventoryCounts, Counts(s.inventoryCounts)),
      (TotalExpiredProducts, Long(s.totalExpiredProducts)),
      (TotalProductsWithoutInventories, Long(s.totalProductsWithoutInventories)),
      (TotalQuantity, Long(s.totalQuantity)),
      (AverageQuantityPerProduct, Decimal(s.averageQuantityPerProduct)),
      (TotalInitialQuantity, Long(s.totalInitialQuantity)),
      (MostExpensiveProduct, Name(s.mostExpensiveProduct)),
      (LeastExpensiveProduct, Name(s.leastExpensiveProduct)) ]
  }

  /** `Map.ofEntries` from position `i` on, into `acc`: a key seen before makes
      it throw (None). */
  function OfEntries(entries: seq<(StatKey, StatValue)>, i: nat, acc: Report): (r: Option<Report>)
    requires i <= |entries|
    ensures r.Some? ==> forall k :: k in acc ==> k in r.value && r.value[k] == acc[k]
    ensures r.Some? ==> forall j :: i <= j < |entries| ==> entries[j].0 in r.value && r.value[entries[j].0] == entries[j].1
    ensures r.Some? ==> forall k :: k in r.value ==> k in acc || exists j :: i <= j < |entries| && entries[j].0 == k
    ensures r.Some? <==> (forall j :: i <= j < |entries| ==> entries[j].0 !in acc)
                         && (forall j, k :: i <= j < k < |entries| ==> entries[j].0 != entries[k].0)
    decreases |entries| - i
  {
    if i == |entries| then Some(acc)
    else if entries[i].0 in acc then None
    else OfEntries(entries, i + 1, acc[entries[i].0 := entries[i].1])
  }

  /** Where each key sits among the inventory service's entries. */
  function Position(k: StatKey): nat {
    match k
    case TotalProducts => 0
    case TotalPriceValue => 1
    case TotalAreaUsed => 2
    case AveragePrice => 3
    case AverageAreaUsed => 4
    case StatusCounts => 5
    case InventoryCounts => 6
    case TotalExpiredProducts => 7
    case TotalProductsWithoutInventories => 8
    case TotalQuantity => 9
    case AverageQuantityPerProduct => 10
    case TotalInitialQuantity => 11
    case MostExpensiveProduct => 12
    case LeastExpensiveProduct => 13
  }

  lemma EntryAtPosition(s: Statistics, k: StatKey)
    ensures Position(k) < |ReportEntries(s)|
    ensures ReportEntries(s)[Position(k)] == (k, PutReport(s)[k])
  {
  }

  lemma EntryPositions(s: Statistics)
    ensures forall j :: 0 <= j < |ReportEntries(s)| ==> Position(ReportEntries(s)[j].0) == j
  {
  }

  /** `Map.ofEntries` succeeds on the inventory service's entries and yields
      exactly the product service's map. */
  lemma ReportsAgree(s: Statistics)
    ensures OfEntries(ReportEntries(s), 0, map[]) == Some(PutReport(s))
  {
    var e := ReportEntries(s);
    EntryPositions(s);
    assert forall j, k :: 0 <= j < k < |e| ==> e[j].0 != e[k].0 by {
      forall j, k | 0 <= j < k < |e| ensures e[j].0 != e[k].0 {
        assert Position(e[j].0) == j && Position(e[k].0) == k;
      }
    }
    var m := OfEntries(e, 0, map[]).value;
    var put := PutReport(s);
    forall k: StatKey ensures k in m && k in put && m[k] == put[k] {
      EntryAtPosition(s, k);
    }
    assert m == put;
  }
}
