/**
 `ProductService`: creating, reading, updating and deleting products, and the
 statistics over the whole product table. Each operation takes the tables and
 returns them changed, or the error the service throws. `now` is the clock the
 entity callbacks read and `newId` the identity the database assigns.
 */
module ProductService {
  import opened Results
  import opened Products
  import opened Catalog
  import Persistence
  import Statistics

  // ---------------------------------------------------------------------------
  // Create

  /** `createProduct`: look up the inventory `getInventoryId()` names (the
      transient id, else the nested inventory's id), attach it, then persist. */
  function CreateProduct(t: Tables, product: Product, newId: int, now: int): (r: Result<Written<Product>>)
    requires newId !in t.products
    ensures r.Err? <==> InventoryIdOf(product).Some? && InventoryIdOf(product).value !in t.inventories
    ensures r.Err? ==> r.error == InventoryNotFound(InventoryIdOf(product).value)
    ensures r.Ok? ==> var saved := r.value.entity;
      && r.value.tables == t.(products := t.products[newId := Reloaded(saved)])
      && saved.id == Some(newId)
      && saved.createdAt == Some(now)
      && saved.initialQuantity == Some(product.initialQuantity.GetOr(product.quantity))
      && saved.inventoryId == product.inventoryId
      && saved.inventory == InventoryIdOf(product)
      && (saved.inventory.Some? ==> saved.inventory.value in t.inventories)
      && saved.(id := product.id, createdAt := product.createdAt,
                initialQuantity := product.initialQuantity, inventory := product.inventory) == product
  {
    var named := InventoryIdOf(product);
    if named.Some? && named.value !in t.inventories then
      Err(InventoryNotFound(named.value))
    else
      var attached := product.(inventory := named);
      var saved := OnCreate(attached.(id := Some(newId)), now);
      Ok(Written(t.(products := t.products[newId := Reloaded(saved)]), saved))
  }

  /** A request that names its inventory only through the nested object is
      refused when that inventory is not stored, just as one naming it through
      the transient id is. */
  lemma NestedMissingInventoryIsRefused(t: Tables, product: Product, newId: int, now: int)
    requires newId !in t.products
    requires product.inventoryId.None? && product.inventory.Some? && product.inventory.value !in t.inventories
    ensures CreateProduct(t, product, newId, now) == Err(InventoryNotFound(product.inventory.value))
  {
  }

  /** Nothing makes the SKU unique: a product may repeat a stored product's SKU. */
  lemma DuplicateSkuIsAccepted(t: Tables, product: Product, newId: int, now: int, other: int)
    requires newId !in t.products && other in t.products
    requires product.sku == t.products[other].sku
    requires InventoryIdOf(product).Some? ==> InventoryIdOf(product).value in t.inventories
    ensures CreateProduct(t, product, newId, now).Ok?
    ensures var stored := CreateProduct(t, product, newId, now).value.tables.products;
      newId != other && stored[newId].sku == stored[other].sku
  {
  }

  // ---------------------------------------------------------------------------
  // Read

  /** `ProductResponseDTO`: the product with its status as a name and its
      inventory as `getInventoryId()`. */
  datatype ProductView = ProductView(
    id: Option<int>,
    name: string,
    description: Option<string>,
    sku: string,
    price: int,
    quantity: int,
    initialQuantity: Option<int>,
    area: Option<int>,
    status: string,
    inventoryId: Option<int>,
    userId: Option<int>,
    expirationDate: Option<int>,
    productionDate: Option<int>,
    createdAt: Option<int>,
    updatedAt: Option<int>)

  /** `convertToDTO`. */
  function ToView(p: Product): (v: ProductView)
    ensures v.inventoryId == InventoryIdOf(p)
    ensures ParseStatus(v.status) == Some(p.status)
  {
    ProductView(p.id, p.name, p.description, p.sku, p.price, p.quantity, p.initialQuantity,
                p.area, StatusName(p.status), InventoryIdOf(p), p.userId,
                p.expirationDate, p.productionDate, p.createdAt, p.updatedAt)
  }

  /** The view of a stored row loses nothing: two stored rows with the same
      view are the same row. */
  lemma ViewDeterminesStoredRow(p: Product, q: Product)
    requires p.inventoryId.None? && q.inventoryId.None?
    ensures ToView(p) == ToView(q) <==> p == q
  {
  }

  /** `getProductById`. */
  function GetProductById(t: Tables, id: int): (r: Result<ProductView>)
    ensures r.Err? <==> id !in t.products
    ensures r.Err? ==> r.error == ProductNotFound(id)
    ensures r.Ok? ==> r.value == ToView(t.products[id])
  {
    if id !in t.products then Err(ProductNotFound(id)) else Ok(ToView(t.products[id]))
  }

  /** Reading a created product back gives the view of the entity the creation
      returned: the inventory id the request named survives the reload. */
  lemma ReadAfterCreate(t: Tables, product: Product, newId: int, now: int)
    requires newId !in t.products
    requires CreateProduct(t, product, newId, now).Ok?
    ensures var w := CreateProduct(t, product, newId, now).value;
      GetProductById(w.tables, newId) == Ok(ToView(w.entity))
  {
  }

  // ---------------------------------------------------------------------------
  // Update

  /** The nine fields `updateProduct` copies agree. */
  predicate SameDetails(p: Product, details: Product) {
    && p.name == details.name
    && p.description == details.description
    && p.sku == details.sku
    && p.price == details.price
    && p.quantity == details.quantity
    && p.area == details.area
    && p.status == details.status
    && p.expirationDate == details.expirationDate
    && p.productionDate == details.productionDate
  }

  /** The nine setter calls of `updateProduct`. */
  function CopyDetails(p: Product, details: Product): (r: Product)
    ensures SameDetails(r, details)
    ensures SameDetails(p, details) ==> r == p
  {
    p.(name := details.name, description := details.description,
       sku := details.sku, price := details.price, quantity := details.quantity,
       area := details.area, status := details.status,
       expirationDate := details.expirationDate,
       productionDate := details.productionDate)
  }

  /** `updateProduct`: copy the nine fields onto the stored row and save it. */
  function UpdateProduct(t: Tables, id: int, details: Product, now: int): (r: Result<Written<Product>>)
    ensures r.Err? <==> id !in t.products
    ensures r.Err? ==> r.error == ProductNotFound(id)
    ensures r.Ok? ==> var before, saved := t.products[id], r.value.entity;
      && r.value.tables == t.(products := t.products[id := saved])
      && SameDetails(saved, details)
      && saved.id == before.id
      && saved.initialQuantity == before.initialQuantity
      && saved.inventory == before.inventory
      && saved.inventoryId == before.inventoryId
      && saved.userId == before.userId
      && saved.createdAt == before.createdAt
      && (SameDetails(before, details) ==> saved == before)
      && (!SameDetails(before, details) ==> saved.updatedAt == Some(now))
  {
    if id !in t.products then Err(ProductNotFound(id))
    else
      var before := t.products[id];
      var after := CopyDetails(before, details);
      var saved := Persistence.Flush(before, after, OnUpdate(after, now));
      Ok(Written(t.(products := t.products[id := saved]), saved))
  }

  /** Sending the same update twice changes nothing the second time, not even
      the update time. */
  lemma UpdateProductIdempotent(t: Tables, id: int, details: Product, now: int, later: int)
    requires UpdateProduct(t, id, details, now).Ok?
    ensures var once := UpdateProduct(t, id, details, now).value;
      UpdateProduct(once.tables, id, details, later) == Ok(once)
  {
    var once := UpdateProduct(t, id, details, now).value;
    var saved := once.entity;
    assert once.tables.products[id] == saved;
    assert CopyDetails(saved, details) == saved;
    assert once.tables.products[id := saved] == once.tables.products;
  }

  // ---------------------------------------------------------------------------
  // Delete

  /** `deleteProduct`. */
  function DeleteProduct(t: Tables, id: int): (r: Result<Tables>)
    ensures r.Err? <==> id !in t.products
    ensures r.Err? ==> r.error == ProductNotFound(id)
    ensures r.Ok? ==> r.value.inventories == t.inventories
    ensures r.Ok? ==> r.value.products.Keys == t.products.Keys - {id}
    ensures r.Ok? ==> forall k :: k in r.value.products ==> r.value.products[k] == t.products[k]
  {
    if id !in t.products then Err(ProductNotFound(id)) else Ok(t.(products := t.products - {id}))
  }

  /** Deleting a product just created restores the tables. */
  lemma DeleteUndoesCreate(t: Tables, product: Product, newId: int, now: int)
    requires newId !in t.products
    requires CreateProduct(t, product, newId, now).Ok?
    ensures DeleteProduct(CreateProduct(t, product, newId, now).value.tables, newId) == Ok(t)
  {
    var t' := DeleteProduct(CreateProduct(t, product, newId, now).value.tables, newId).value;
    assert t'.products == t.products;
  }

  // ---------------------------------------------------------------------------
  // The database's invariants

  /** Creating a product keeps the tables consistent: whichever way the
      request names its inventory, that inventory is stored or the creation
      fails. */
  lemma CreateKeepsConsistent(t: Tables, product: Product, newId: int, now: int)
    requires Consistent(t) && newId !in t.products
    requires CreateProduct(t, product, newId, now).Ok?
    ensures Consistent(CreateProduct(t, product, newId, now).value.tables)
  {
  }

  lemma UpdateKeepsConsistent(t: Tables, id: int, details: Product, now: int)
    requires Consistent(t)
    requires UpdateProduct(t, id, details, now).Ok?
    ensures Consistent(UpdateProduct(t, id, details, now).value.tables)
  {
  }

  lemma DeleteKeepsConsistent(t: Tables, id: int)
    requires Consistent(t)
    requires DeleteProduct(t, id).Ok?
    ensures Consistent(DeleteProduct(t, id).value)
  {
  }

  // ---------------------------------------------------------------------------
  // Statistics

  /** Some stored product has no area or no initial quantity. */
  predicate HasNullFigure(t: Tables) {
    exists id :: id in t.products && (t.products[id].area.None? || t.products[id].initialQuantity.None?)
  }

  lemma ListingHasNullFigure(t: Tables, order: seq<int>)
    requires IsListing(t, order)
    ensures var ps := Listing(t, order);
      HasNullFigure(t) <==> !Statistics.AllPresent(ps, Statistics.Area) || !Statistics.AllPresent(ps, Statistics.InitialQuantity)
  {
    var ps := Listing(t, order);
    if HasNullFigure(t) {
      var id :| id in t.products && (t.products[id].area.None? || t.products[id].initialQuantity.None?);
      var i :| 0 <= i < |order| && order[i] == id;
      assert ps[i] == t.products[id];
    }
    if !Statistics.AllPresent(ps, Statistics.Area) {
      var i :| 0 <= i < |ps| && Statistics.Area(ps[i]).None?;
      assert t.products[order[i]].area.None?;
    }
    if !Statistics.AllPresent(ps, Statistics.InitialQuantity) {
      var i :| 0 <= i < |ps| && Statistics.InitialQuantity(ps[i]).None?;
      assert t.products[order[i]].initialQuantity.None?;
    }
  }

  /** `getStatistics`: aggregate the rows `findAll()` returns in `order` and put
      each figure into the map. */
  function GetStatistics(t: Tables, order: seq<int>, now: int): (r: Result<Statistics.Report>)
    requires Consistent(t) && IsListing(t, order)
    ensures r.Err? <==> HasNullFigure(t)
    ensures r.Err? ==> r.error == NullValue
    ensures r.Ok? ==> Statistics.TotalProducts in r.value && r.value[Statistics.TotalProducts] == Statistics.Long(|t.products|)
    ensures r.Ok? ==> exists s :: Statistics.Summarises(s, Listing(t, order), t.inventories, now)
                                  && r.value == Statistics.PutReport(s)
  {
    ListingResolves(t, order);
    ListingHasNullFigure(t, order);
    ListingCoversTable(t, order);
    var s :- Statistics.Aggregate(Listing(t, order), t.inventories, now);
    Statistics.ReportTotal(s);
    Ok(Statistics.PutReport(s))
  }
}
