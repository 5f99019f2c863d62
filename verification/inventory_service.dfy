/**
 `InventoryService`: creating, reading, updating and deleting inventories, and
 its own copy of the product statistics. Deleting an inventory cascades to its
 products (`CascadeType.ALL` on `Inventory.products`).
 */
module InventoryService {
  import opened Results
  import opened Inventories
  import opened Catalog
  import Products
  import Persistence
  import Statistics
  import ProductService

  // ---------------------------------------------------------------------------
  // Create

  /** `createInventory`: persist with the creation defaults. The request body
      is taken to carry no `products` list. */
  function CreateInventory(t: Tables, inv: Inventory, newId: int, now: int): (r: Written<Inventory>)
    requires newId !in t.inventories
    ensures r.tables == t.(inventories := t.inventories[newId := r.entity])
    ensures r.entity.id == Some(newId)
    ensures r.entity.createdAt == Some(now)
    ensures r.entity.description == Some(inv.description.GetOr(""))
    ensures r.entity.availableArea == (if inv.availableArea.None? then inv.area else inv.availableArea)
    ensures r.entity.(id := inv.id, createdAt := inv.createdAt, description := inv.description,
                      availableArea := inv.availableArea) == inv
  {
    var saved := OnCreate(inv.(id := Some(newId)), now);
    Written(t.(inventories := t.inventories[newId := saved]), saved)
  }

  lemma CreateKeepsConsistent(t: Tables, inv: Inventory, newId: int, now: int)
    requires Consistent(t) && newId !in t.inventories
    ensures Consistent(CreateInventory(t, inv, newId, now).tables)
  {
  }

  // ---------------------------------------------------------------------------
  // Read

  /** `InventoryResponseDTO`: the inventory without its owner, with status and
      type as names. */
  datatype InventoryView = InventoryView(
    id: Option<int>,
    name: string,
    description: Option<string>,
    status: string,
    inventoryType: string,
    address: Option<string>,
    area: Option<int>,
    availableArea: Option<int>,
    createdAt: Option<int>,
    updatedAt: Option<int>)

  /** `convertToDTO`. */
  function ToView(inv: Inventory): (v: InventoryView)
    ensures v.id == inv.id && v.name == inv.name && v.description == inv.description
    ensures v.address == inv.address && v.area == inv.area && v.availableArea == inv.availableArea
    ensures v.createdAt == inv.createdAt && v.updatedAt == inv.updatedAt
    ensures v.status == StatusName(inv.status) && v.inventoryType == TypeName(inv.inventoryType)
  {
    InventoryView(inv.id, inv.name, inv.description, StatusName(inv.status), TypeName(inv.inventoryType),
                  inv.address, inv.area, inv.availableArea, inv.createdAt, inv.updatedAt)
  }

  /** The view forgets the owner and nothing else. */
  lemma ViewForgetsOnlyOwner(a: Inventory, b: Inventory)
    ensures ToView(a) == ToView(b) <==> a.(userId := b.userId) == b
  {
  }


  /** `getInventoryById`: a missing id is an empty result, not an error. */
  function GetInventoryById(t: Tables, id: int): (r: Option<InventoryView>)
    ensures r.None? <==> id !in t.inventories
    ensures r.Some? ==> r.value == ToView(t.inventories[id])
  {
    if id in t.inventories then Some(ToView(t.inventories[id])) else None
  }

  /** `getInventoriesByUserId`: the derived query `findByUserId`, whose null
      argument matches the inventories without owner. */
  function GetInventoriesByUserId(t: Tables, userId: Option<int>): (r: map<int, InventoryView>)
    ensures forall id :: id in r <==> id in t.inventories && t.inventories[id].userId == userId
    ensures forall id :: id in r ==> r[id] == ToView(t.inventories[id])
  {
    map id | id in t.inventories && t.inventories[id].userId == userId :: ToView(t.inventories[id])
  }

  /** The owners' listings partition the table: every inventory is listed for
      exactly its own owner. */
  lemma ListingsByOwnerPartition(t: Tables, id: int, userId: Option<int>)
    requires id in t.inventories
    ensures id in GetInventoriesByUserId(t, userId) <==> userId == t.inventories[id].userId
    ensures GetInventoriesByUserId(t, t.inventories[id].userId)[id] == GetInventoryById(t, id).value
  {
  }

  // ---------------------------------------------------------------------------
  // Update

  /** The eight fields `updateInventory` copies agree. */
  predicate SameDetails(inv: Inventory, details: Inventory) {
    && inv.name == details.name
    && inv.description == details.description
    && inv.userId == details.userId
    && inv.status == details.status
    && inv.inventoryType == details.inventoryType
    && inv.address == details.address
    && inv.area == details.area
    && inv.availableArea == details.availableArea
  }

  /** The eight setter calls of `updateInventory`. */
  function CopyDetails(inv: Inventory, details: Inventory): (r: Inventory)
    ensures SameDetails(r, details)
    ensures SameDetails(inv, details) ==> r == inv
  {
    inv.(name := details.name, description := details.description, userId := details.userId,
         status := details.status, inventoryType := details.inventoryType,
         address := details.address, area := details.area, availableArea := details.availableArea)
  }

  /** `updateInventory`. Nothing compares the available area with the area. */
  function UpdateInventory(t: Tables, id: int, details: Inventory, now: int): (r: Result<Written<Inventory>>)
    ensures r.Err? <==> id !in t.inventories
    ensures r.Err? ==> r.error == InventoryNotFound(id)
    ensures r.Ok? ==> var before, saved := t.inventories[id], r.value.entity;
      && r.value.tables == t.(inventories := t.inventories[id := saved])
      && SameDetails(saved, details)
      && saved.id == before.id
      && saved.createdAt == before.createdAt
      && (SameDetails(before, details) ==> saved == before)
      && (!SameDetails(before, details) ==> saved.updatedAt == Some(now))
  {
    if id !in t.inventories then Err(InventoryNotFound(id))
    else
      var before := t.inventories[id];
      var after := CopyDetails(before, details);
      var saved := Persistence.Flush(before, after, OnUpdate(after, now));
      Ok(Written(t.(inventories := t.inventories[id := saved]), saved))
  }

  /** Sending the same update twice changes nothing the second time. */
  lemma UpdateInventoryIdempotent(t: Tables, id: int, details: Inventory, now: int, later: int)
    requires UpdateInventory(t, id, details, now).Ok?
    ensures var once := UpdateInventory(t, id, details, now).value;
      UpdateInventory(once.tables, id, details, later) == Ok(once)
  {
    var once := UpdateInventory(t, id, details, now).value;
    var saved := once.entity;
    assert once.tables.inventories[id] == saved;
    assert once.tables.inventories[id := saved] == once.tables.inventories;
  }

  /** An update leaves the inventory's products where they were. */
  lemma UpdateKeepsProducts(t: Tables, id: int, details: Inventory, now: int, other: int)
    requires UpdateInventory(t, id, details, now).Ok?
    ensures ProductsOf(UpdateInventory(t, id, details, now).value.tables, other) == ProductsOf(t, other)
  {
  }

  /** An update may leave more area available than there is. */
  lemma UpdateAdmitsOverfullInventory(t: Tables, id: int, details: Inventory, now: int)
    requires id in t.inventories
    requires details.area == Some(100) && details.availableArea == Some(4000)
    ensures var saved := UpdateInventory(t, id, details, now).value.entity;
      saved.availableArea.value > saved.area.value
  {
  }

  lemma UpdateKeepsConsistent(t: Tables, id: int, details: Inventory, now: int)
    requires Consistent(t)
    requires UpdateInventory(t, id, details, now).Ok?
    ensures Consistent(UpdateInventory(t, id, details, now).value.tables)
  {
  }

  // ---------------------------------------------------------------------------
  // Delete

  /** `deleteInventory`: removing the inventory removes its products too. */
  function DeleteInventory(t: Tables, id: int): (r: Result<Tables>)
    ensures r.Err? <==> id !in t.inventories
    ensures r.Err? ==> r.error == InventoryNotFound(id)
    ensures r.Ok? ==> r.value.inventories.Keys == t.inventories.Keys - {id}
    ensures r.Ok? ==> forall k :: k in r.value.inventories ==> r.value.inventories[k] == t.inventories[k]
    ensures r.Ok? ==> r.value.products.Keys == t.products.Keys - ProductsOf(t, id)
    ensures r.Ok? ==> forall k :: k in r.value.products ==> r.value.products[k] == t.products[k]
  {
    if id !in t.inventories then Err(InventoryNotFound(id))
    else
      Ok(Tables(t.inventories - {id},
                map k | k in t.products && t.products[k].inventory != Some(id) :: t.products[k]))
  }

  /** The cascade is what keeps the foreign key intact. */
  lemma DeleteKeepsConsistent(t: Tables, id: int)
    requires Consistent(t)
    requires DeleteInventory(t, id).Ok?
    ensures Consistent(DeleteInventory(t, id).value)
  {
  }

  /** Deleting an inventory just created restores consistent tables: no
      product can be attached to it yet, so the cascade removes nothing. */
  lemma DeleteUndoesCreate(t: Tables, inv: Inventory, newId: int, now: int)
    requires Consistent(t) && newId !in t.inventories
    ensures DeleteInventory(CreateInventory(t, inv, newId, now).tables, newId) == Ok(t)
  {
    var t' := DeleteInventory(CreateInventory(t, inv, newId, now).tables, newId).value;
    assert t'.inventories == t.inventories;
    forall k | k in t.products ensures t.products[k].inventory != Some(newId) {
      if t.products[k].inventory.Some? {
        assert t.products[k].inventory.value in t.inventories;
      }
    }
    assert t'.products == t.products;
  }

  /** Without the cascade, deleting an inventory that holds a product would
      leave that product's join column dangling. */
  lemma CascadeIsNeeded(t: Tables, id: int, productId: int)
    requires Consistent(t) && id in t.inventories
    requires productId in ProductsOf(t, id)
    ensures !Consistent(t.(inventories := t.inventories - {id}))
  {
  }

  // ---------------------------------------------------------------------------
  // Statistics

  /** `getStatistics`: the product statistics again, collected with
      `Map.ofEntries`, which throws on a repeated key. */
  function GetStatistics(t: Tables, order: seq<int>, now: int): (r: Result<Statistics.Report>)
    requires Consistent(t) && IsListing(t, order)
    ensures r.Err? <==> ProductService.HasNullFigure(t)
    ensures r.Err? ==> r.error == NullValue
  {
    ListingResolves(t, order);
    ProductService.ListingHasNullFigure(t, order);
    var s :- Statistics.Aggregate(Listing(t, order), t.inventories, now);
    Statistics.ReportsAgree(s);
    var m := Statistics.OfEntries(Statistics.ReportEntries(s), 0, map[]);
    if m.None? then Err(DuplicateKey) else Ok(m.value)
  }

  /** Both services report the same statistics for the same table. */
  lemma StatisticsAgree(t: Tables, order: seq<int>, now: int)
    requires Consistent(t) && IsListing(t, order)
    ensures GetStatistics(t, order, now) == ProductService.GetStatistics(t, order, now)
  {
    ListingResolves(t, order);
    var a := Statistics.Aggregate(Listing(t, order), t.inventories, now);
    if a.Ok? {
      Statistics.ReportsAgree(a.value);
    }
  }
}
