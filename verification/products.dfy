/**
 The `Product` entity: its columns, its bean-validation constraints and its JPA
 lifecycle callbacks. Prices and areas count hundredths; dates are instants.
 */
module Products {
  import opened Results
  import opened Text

  datatype ProductStatus = Available | Unavailable

  /** `Status.name()`. */
  function StatusName(s: ProductStatus): string {
    match s
    case Available => "AVAILABLE"
    case Unavailable => "UNAVAILABLE"
  }

  /** `Status.valueOf`, failing (None) on a name that is not a constant's. */
  function ParseStatus(name: string): (r: Option<ProductStatus>)
    ensures r.Some? ==> StatusName(r.value) == name
    ensures forall s :: StatusName(s) == name ==> r == Some(s)
  {
    if name == "AVAILABLE" then Some(Available)
    else if name == "UNAVAILABLE" then Some(Unavailable)
    else None
  }

  /** The status a freshly bound `Product` carries: the one the request sent,
      else the field initializer's AVAILABLE. */
  function BoundStatus(sent: Option<ProductStatus>): (s: ProductStatus)
    ensures sent.None? ==> s == Available
    ensures sent.Some? ==> s == sent.value
  {
    sent.GetOr(Available)
  }

  datatype Product = Product(
    id: Option<int>,
    name: string,
    description: Option<string>,
    sku: string,
    price: int,                  // hundredths
    quantity: int,
    initialQuantity: Option<int>,
    area: Option<int>,           // hundredths
    status: ProductStatus,
    inventoryId: Option<int>,    // @Transient: only what the request carried
    inventory: Option<int>,      // the inventory_id join column
    userId: Option<int>,
    expirationDate: Option<int>,
    productionDate: Option<int>,
    createdAt: Option<int>,
    updatedAt: Option<int>)

  /** The bean-validation constraints on the columns. */
  predicate Valid(p: Product) {
    && NonBlankAtMost(p.name, 100)
    && (p.description.Some? ==> |p.description.value| <= 65535)
    && NonBlankAtMost(p.sku, 50)
    && p.price > 0
    && p.quantity >= 0
    && (p.area.Some? ==> p.area.value >= 0)
  }

  /** `getInventoryId`: the transient id when set, else the attached
      inventory's id, else null. */
  function InventoryIdOf(p: Product): (r: Option<int>)
    ensures p.inventoryId.Some? ==> r == p.inventoryId
    ensures p.inventoryId.None? ==> r == p.inventory
  {
    if p.inventoryId.Some? then p.inventoryId else p.inventory
  }

  /** `@PrePersist onCreate`: stamp the creation time, and default the initial
      quantity to the quantity when none was given. */
  function OnCreate(p: Product, now: int): (r: Product)
    ensures r.createdAt == Some(now)
    ensures r.initialQuantity == Some(p.initialQuantity.GetOr(p.quantity))
    ensures r.(createdAt := p.createdAt, initialQuantity := p.initialQuantity) == p
  {
    var initial := if p.initialQuantity.None? then Some(p.quantity) else p.initialQuantity;
    p.(createdAt := Some(now), initialQuantity := initial)
  }

  /** `@PreUpdate onUpdate`. */
  function OnUpdate(p: Product, now: int): Product {
    p.(updatedAt := Some(now))
  }

  /** The row as a later read sees it: the transient inventory id is not a
      column, so it comes back null. */
  function Reloaded(p: Product): Product {
    p.(inventoryId := None)
  }

  /** Creation defaults keep a valid product valid. No constraint bounds the
      initial quantity: a given one is stored as sent, even when negative, and
      only a defaulted one inherits the non-negative quantity. */
  lemma OnCreateKeepsValid(p: Product, now: int)
    requires Valid(p)
    ensures Valid(OnCreate(p, now))
    ensures p.initialQuantity.Some? ==> OnCreate(p, now).initialQuantity == p.initialQuantity
    ensures p.initialQuantity.None? ==> OnCreate(p, now).initialQuantity.value >= 0
    ensures Valid(p.(initialQuantity := Some(-3)))
  {
  }

  /** `getInventoryId` gives the same answer before and after the row is read
      back, once the association agrees with the transient id. */
  lemma InventoryIdSurvivesReload(p: Product)
    requires p.inventoryId.Some? ==> p.inventory == p.inventoryId
    ensures InventoryIdOf(Reloaded(p)) == InventoryIdOf(p)
  {
  }

  /** A product without area is still valid: the area column is optional. */
  lemma AreaIsOptional(p: Product)
    requires Valid(p)
    ensures Valid(p.(area := None))
  {
  }
}
