/**
 The `Inventory` entity: its columns, its bean-validation constraints and its
 creation defaults. Areas count hundredths. The `products` relation is the
 inverse side of `Product.inventory` and is derived from the product store
 (see `Catalog.ProductsOf`).
 */
module Inventories {
  import opened Results
  import opened Text

  datatype InventoryStatus = Active | Inactive

  datatype InventoryType = Warehouse | Store | Online

  /** `Status.name()`. */
  function StatusName(s: InventoryStatus): string {
    match s
    case Active => "ACTIVE"
    case Inactive => "INACTIVE"
  }

  /** `InventoryType.name()`. */
  function TypeName(t: InventoryType): string {
    match t
    case Warehouse => "WAREHOUSE"
    case Store => "STORE"
    case Online => "ONLINE"
  }

  /** The status and type a freshly bound `Inventory` carries: what the request
      sent, else the field initializers' ACTIVE and WAREHOUSE. */
  function BoundStatus(sent: Option<InventoryStatus>): (s: InventoryStatus)
    ensures sent.None? ==> s == Active
    ensures sent.Some? ==> s == sent.value
  {
    sent.GetOr(Active)
  }

  function BoundType(sent: Option<InventoryType>): (t: InventoryType)
    ensures sent.None? ==> t == Warehouse
    ensures sent.Some? ==> t == sent.value
  {
    sent.GetOr(Warehouse)
  }

  datatype Inventory = Inventory(
    id: Option<int>,
    name: string,
    description: Option<string>,
    userId: Option<int>,
    status: InventoryStatus,
    inventoryType: InventoryType,
    address: Option<string>,
    area: Option<int>,           // hundredths
    availableArea: Option<int>,  // hundredths
    createdAt: Option<int>,
    updatedAt: Option<int>)

  /** The bean-validation constraints. Nothing relates the available area to
      the area. */
  predicate Valid(inv: Inventory) {
    && NonBlankAtMost(inv.name, 100)
    && (inv.description.Some? ==> |inv.description.value| <= 65535)
    && (inv.address.Some? ==> |inv.address.value| <= 255)
    && inv.area.Some? && inv.area.value > 0
    && (inv.availableArea.Some? ==> inv.availableArea.value > 0)
  }

  /** `@PrePersist onCreate`: stamp the creation time, make a missing
      description empty, and let the available area default to the area. */
  function OnCreate(inv: Inventory, now: int): (r: Inventory)
    ensures r.createdAt == Some(now)
    ensures r.description == Some(inv.description.GetOr(""))
    ensures inv.availableArea.None? ==> r.availableArea == inv.area
    ensures inv.availableArea.Some? ==> r.availableArea == inv.availableArea
    ensures r.(createdAt := inv.createdAt, description := inv.description,
               availableArea := inv.availableArea) == inv
  {
    var description := if inv.description.None? then Some("") else inv.description;
    var available := if inv.availableArea.None? && inv.area.Some? then inv.area else inv.availableArea;
    inv.(createdAt := Some(now), description := description, availableArea := available)
  }

  /** `@PreUpdate onUpdate`. */
  function OnUpdate(inv: Inventory, now: int): Inventory {
    inv.(updatedAt := Some(now))
  }

  /** The creation defaults keep a valid inventory valid, and a valid inventory
      always leaves creation with an available area. */
  lemma OnCreateKeepsValid(inv: Inventory, now: int)
    requires Valid(inv)
    ensures Valid(OnCreate(inv, now))
    ensures OnCreate(inv, now).availableArea.Some?
  {
  }

  /** The constraints admit an inventory whose available area exceeds its
      area. */
  lemma OverfullInventoryIsValid()
    ensures exists inv :: Valid(inv) && inv.availableArea.Some? && inv.availableArea.value > inv.area.value
  {
    var inv := Inventory(None, "Depot", None, None, Active, Warehouse, None, Some(100), Some(4000), None, None);
    assert inv.name[0] == 'D';
    assert Valid(inv);
  }
}
