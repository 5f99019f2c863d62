# Inventory management API — a Dafny model of its services

The system is a Spring REST service that keeps three tables: users, inventories
and products. A product may be attached to one inventory. This project models:

- the service layer over those tables: `ProductService`, `InventoryService` and `UserService`;
- the `Product` and `Inventory` entities, with their constraints and creation defaults;
- the bearer-token filter that authenticates requests.

Each table is a `map` from id to row. Each service operation is a pure function: it takes the tables and returns them changed, or the error the Java code throws (`Results.Error`, whose `Status()` is the HTTP status of the exception). The database assigns identities, so the new id is a parameter. So is `now`, the clock that the entity callbacks read.

Prices and areas are `BigDecimal` columns of scale 2. They are modelled as integers counting hundredths, so `divide(n, 2, HALF_UP)` is integer division rounded half away from zero (`Decimals`).

Modules:

- `Results`: errors and results. `Persistence.Flush` holds Hibernate's rule that `@PreUpdate` runs only when a flush finds a changed column.
- `Text`: `@NotBlank`, `@Size` and `startsWith`.
- `Products`, `Inventories`, `Users`: the entities. They hold the bean-validation constraints as `Valid`, and the `@PrePersist`/`@PreUpdate` callbacks.
- `Statistics`: the body of `getStatistics`. Each Java stream becomes one fold, and its contract ties it to an independent definition:
  - sums over the list;
  - the multiset count of each grouping key;
  - the number of list positions that pass a filter, for each `count()`;
  - the first position holding the highest or lowest price, which is how `Stream.max`/`min` break ties.

  `Summarises` states every figure in those terms. The module also holds both ways the two services build the result map: a chain of `HashMap.put`, and `Map.ofEntries`.
- `Catalog`: the product and inventory tables. `Consistent` holds the database's guarantees: the ids are the keys, and the foreign key from `product.inventory_id` is intact. `Listing` is the rows in the order `findAll()` returns them.
- `ProductService`, `InventoryService`, `UserService`: the operations, plus lemmas that relate them to one another and to the invariants.
- `JwtFilter`: `doFilterInternal`. The token parser, the user lookup and the token validator are oracles, and each one either returns or raises.

Some behaviours of the code are easy to miss. The model keeps them:

- A product with a null area, or a null initial quantity, makes `getStatistics` throw a `NullPointerException` (`Err(NullValue)`, a 500). The null is not counted as zero.
- `InventoryService.getStatistics` recomputes the product statistics. It computes no inventory metrics, such as utilisation or low stock.
- The SKU is not unique, and no service rejects a duplicate SKU (`ProductService.DuplicateSkuIsAccepted`).
- The filter catches only `JwtException`. Any other exception from the user lookup or the token utilities leaves the filter: the filter neither writes a 403 nor continues the chain.
- The filter parses the token even when the context is already authenticated. A bad token on such a request still gets the 403. The filter is idempotent (`JwtFilter.Idempotent`), but a second pass is not a no-op.
- `updatedAt` changes only when an update changes a column. This is Hibernate's dirty check, so repeating an update is a no-op (`ProductService.UpdateProductIdempotent`).

## Model

| member | source | states |
|---|---|---|
| Decimals.DivideHalfUpIsHalfUp | src/main/java/biz/technway/khaled/inventorymanagementapi/service/ProductService.java:140 | The rounded quotient is within one half of the exact quotient, and an exact half rounds away from zero (HALF_UP). |
| Decimals.HalfUpQuotientUnique | src/main/java/biz/technway/khaled/inventorymanagementapi/service/ProductService.java:140 | At most one integer is the HALF_UP quotient, so the rounding is fully determined. |
| Decimals.DivideHalfUpWithin | src/main/java/biz/technway/khaled/inventorymanagementapi/service/ProductService.java:136-145 | Rounding never leaves an integer interval that holds the exact quotient. |
| Products.ParseStatus | src/main/java/biz/technway/khaled/inventorymanagementapi/entity/Product.java:78-80 | `valueOf` inverts `name()` on the two constants and fails on every other string. |
| Products.BoundStatus | src/main/java/biz/technway/khaled/inventorymanagementapi/entity/Product.java:47-50 | A bound product without a status is AVAILABLE, and one with a status keeps it. |
| Products.InventoryIdOf | src/main/java/biz/technway/khaled/inventorymanagementapi/entity/Product.java:175-177 | `getInventoryId` is the transient id when set, else the attached inventory's id, else null. |
| Products.OnCreate | src/main/java/biz/technway/khaled/inventorymanagementapi/entity/Product.java:82-88 | Creation stamps createdAt, sets a null initial quantity to the quantity, keeps a given one, and changes nothing else. |
| Products.OnCreateKeepsValid | src/main/java/biz/technway/khaled/inventorymanagementapi/entity/Product.java:16-45 | A valid product stays valid through the creation defaults: non-blank name of at most 100 chars, non-blank SKU of at most 50, price > 0, quantity >= 0, area >= 0 when present. A given initial quantity is stored as sent, and a negative one is valid, since no constraint bounds it. Only a defaulted initial quantity is non-negative. |
| Products.InventoryIdSurvivesReload | src/main/java/biz/technway/khaled/inventorymanagementapi/entity/Product.java:52-57 | Once the association matches the transient id, `getInventoryId` answers the same after the transient field is lost on reload. |
| Products.AreaIsOptional | src/main/java/biz/technway/khaled/inventorymanagementapi/entity/Product.java:43-45 | The area may be null on a valid product. |
| Inventories.BoundStatus | src/main/java/biz/technway/khaled/inventorymanagementapi/entity/Inventory.java:33-36 | A bound inventory without a status is ACTIVE. |
| Inventories.BoundType | src/main/java/biz/technway/khaled/inventorymanagementapi/entity/Inventory.java:38-41 | A bound inventory without a type is WAREHOUSE. |
| Inventories.OnCreate | src/main/java/biz/technway/khaled/inventorymanagementapi/entity/Inventory.java:77-86 | Creation stamps createdAt, makes a null description empty, defaults the available area to the area, and changes nothing else. |
| Inventories.OnCreateKeepsValid | src/main/java/biz/technway/khaled/inventorymanagementapi/entity/Inventory.java:47-56 | A valid inventory stays valid through creation and always ends up with an available area. |
| Inventories.OverfullInventoryIsValid | src/main/java/biz/technway/khaled/inventorymanagementapi/entity/Inventory.java:47-56 | The constraints admit an available area larger than the area. |
| Users.OnCreate | src/main/java/biz/technway/khaled/inventorymanagementapi/entity/User.java:54-59 | Creation keeps a creation time the request carried, else stamps now. |
| Users.ViewForgetsOnlyPassword | src/main/java/biz/technway/khaled/inventorymanagementapi/service/UserService.java:178-189 | Two users have the same response view exactly when they differ at most in the password. |
| Statistics.Reduce | src/main/java/biz/technway/khaled/inventorymanagementapi/service/ProductService.java:115-117 | The left fold from zero equals the sum over the list (price × quantity, price, quantity). |
| Statistics.ReduceNullable | src/main/java/biz/technway/khaled/inventorymanagementapi/service/ProductService.java:119-121 | The fold over a nullable column succeeds exactly when no element is null, and then equals the sum. |
| Statistics.Filter | src/main/java/biz/technway/khaled/inventorymanagementapi/service/ProductService.java:147-150 | The filtered list holds exactly the elements that pass, and is no longer than the input. |
| Statistics.FilterCount | src/main/java/biz/technway/khaled/inventorymanagementapi/service/ProductService.java:147-154 | `filter(...).count()` is the number of list positions whose product passes, counted as a set of indices. |
| Statistics.FilterMultiplicity | src/main/java/biz/technway/khaled/inventorymanagementapi/service/ProductService.java:147-154 | A passing product occurs in the filtered list exactly as often as in the input, and a failing one not at all. |
| Statistics.InventoryFilterSplits | src/main/java/biz/technway/khaled/inventorymanagementapi/service/ProductService.java:152-154 | The products with and without an inventory together number the whole list. |
| Statistics.FilterCountExtremes | src/main/java/biz/technway/khaled/inventorymanagementapi/service/ProductService.java:147-150 | A count equals the list length exactly when every element passes, and is zero exactly when none does. |
| Statistics.GroupCount | src/main/java/biz/technway/khaled/inventorymanagementapi/service/ProductService.java:123-127 | `groupingBy(counting())` maps each key that occurs to its number of occurrences, and maps no other key. |
| Statistics.GroupCountIsOccurrences | src/main/java/biz/technway/khaled/inventorymanagementapi/service/ProductService.java:123-127 | Grouping from an empty map gives the multiset count of the keys. |
| Statistics.GroupCountSum | src/main/java/biz/technway/khaled/inventorymanagementapi/service/ProductService.java:129-134 | The counts of a grouping add up to the number of keys grouped. |
| Statistics.StatusNames | src/main/java/biz/technway/khaled/inventorymanagementapi/service/ProductService.java:125 | The grouping key of each product is its status name, in list order. |
| Statistics.InventoryNames | src/main/java/biz/technway/khaled/inventorymanagementapi/service/ProductService.java:132 | One name per attached product, in list order: position i holds the name of the stored inventory that product i is attached to. |
| Statistics.MaxByPrice | src/main/java/biz/technway/khaled/inventorymanagementapi/service/ProductService.java:169-170 | `max` by price ends at the first position holding the highest price. |
| Statistics.MinByPrice | src/main/java/biz/technway/khaled/inventorymanagementapi/service/ProductService.java:172-173 | `min` by price ends at the first position holding the lowest price. |
| Statistics.MostExpensiveName | src/main/java/biz/technway/khaled/inventorymanagementapi/service/ProductService.java:189 | "None" for an empty list. Otherwise the name of the first product whose price is at least every price. |
| Statistics.LeastExpensiveName | src/main/java/biz/technway/khaled/inventorymanagementapi/service/ProductService.java:190 | "None" for an empty list. Otherwise the name of the first product whose price is at most every price. |
| Statistics.Average | src/main/java/biz/technway/khaled/inventorymanagementapi/service/ProductService.java:143-145 | Zero for an empty list, with no division. Otherwise the HALF_UP quotient by the count. |
| Statistics.Aggregate | src/main/java/biz/technway/khaled/inventorymanagementapi/service/ProductService.java:111-173 | Fails (a 500) exactly when some area or initial quantity is null. Otherwise every figure meets its definition in `Summarises`. |
| Statistics.StatusCountsPartition | src/main/java/biz/technway/khaled/inventorymanagementapi/service/ProductService.java:123-127 | The status counts have only AVAILABLE and UNAVAILABLE as keys, and the two counts add up to the number of products. |
| Statistics.CountsAgree | src/main/java/biz/technway/khaled/inventorymanagementapi/service/ProductService.java:114-154 | The status counts sum to totalProducts. The inventory counts plus the products without an inventory also sum to it. Expired products are at most totalProducts. |
| Statistics.ExpiredCountExact | src/main/java/biz/technway/khaled/inventorymanagementapi/service/ProductService.java:147-150 | The expired count is zero exactly when no product has a date before now, and the whole list exactly when all do. |
| Statistics.AveragePriceBetweenExtremes | src/main/java/biz/technway/khaled/inventorymanagementapi/service/ProductService.java:136-141 | The average price lies between the prices of the least and the most expensive product. |
| Statistics.EmptyStatistics | src/main/java/biz/technway/khaled/inventorymanagementapi/service/ProductService.java:136-163 | With no products every figure is zero, both names are "None", and nothing fails. |
| Statistics.NoneIsAlsoAProductName | src/main/java/biz/technway/khaled/inventorymanagementapi/service/ProductService.java:189 | A product named "None" reports the same name as an empty list. |
| Statistics.ReportTotal | src/main/java/biz/technway/khaled/inventorymanagementapi/service/ProductService.java:177 | The map holds totalProducts under its key. |
| Statistics.OfEntries | src/main/java/biz/technway/khaled/inventorymanagementapi/service/InventoryService.java:151-166 | `Map.ofEntries` succeeds exactly when the keys are distinct, and then maps each key to its entry's value. |
| Statistics.ReportsAgree | src/main/java/biz/technway/khaled/inventorymanagementapi/service/InventoryService.java:151-166 | The fourteen entries have distinct keys, and they give exactly the map that the fourteen `put`s build. |
| Catalog.ProductsOf | src/main/java/biz/technway/khaled/inventorymanagementapi/entity/Inventory.java:66-67 | An inventory's products are exactly the stored products whose join column names it. |
| Catalog.Listing | src/main/java/biz/technway/khaled/inventorymanagementapi/service/ProductService.java:112 | `findAll()` returns each stored row at its position in the listing. |
| Catalog.ListingCoversTable | src/main/java/biz/technway/khaled/inventorymanagementapi/service/ProductService.java:114 | A listing is as long as the table, so totalProducts is the table size. |
| Catalog.ListingResolves | src/main/java/biz/technway/khaled/inventorymanagementapi/entity/Product.java:55-57 | In consistent tables, every listed product's inventory is stored. |
| ProductService.CreateProduct | src/main/java/biz/technway/khaled/inventorymanagementapi/service/ProductService.java:30-48 | The inventory is the one `getInventoryId()` names: the transient id, else the nested inventory's id. Fails NotFound and saves nothing when that inventory is missing. Otherwise it stores the product, attached to that stored inventory, with the creation defaults. The returned entity still carries the transient id. |
| ProductService.NestedMissingInventoryIsRefused | src/main/java/biz/technway/khaled/inventorymanagementapi/service/ProductService.java:33-38 | A request that names a missing inventory only through the nested object fails NotFound with that id. |
| ProductService.DuplicateSkuIsAccepted | src/main/java/biz/technway/khaled/inventorymanagementapi/entity/Product.java:25-28 | A product may repeat a stored product's SKU. |
| ProductService.ToView | src/main/java/biz/technway/khaled/inventorymanagementapi/service/ProductService.java:91-109 | The view's inventory id is `getInventoryId`, and its status string parses back to the status. |
| ProductService.ViewDeterminesStoredRow | src/main/java/biz/technway/khaled/inventorymanagementapi/service/ProductService.java:91-109 | Two stored rows have the same view exactly when they are the same row. |
| ProductService.GetProductById | src/main/java/biz/technway/khaled/inventorymanagementapi/service/ProductService.java:62-66 | A missing id fails NotFound. Otherwise it returns the stored row's view. |
| ProductService.ReadAfterCreate | src/main/java/biz/technway/khaled/inventorymanagementapi/service/ProductService.java:30-66 | Reading a created product back gives the view of the entity the creation returned. |
| ProductService.CopyDetails | src/main/java/biz/technway/khaled/inventorymanagementapi/service/ProductService.java:72-80 | After the nine setters the row agrees with the details on those nine fields. Copying details the row already has is a no-op. |
| ProductService.UpdateProduct | src/main/java/biz/technway/khaled/inventorymanagementapi/service/ProductService.java:68-83 | A missing id fails NotFound. Otherwise it overwrites exactly the nine fields, and keeps id, initial quantity, inventory, owner and createdAt. updatedAt is stamped only if something changed. |
| ProductService.UpdateProductIdempotent | src/main/java/biz/technway/khaled/inventorymanagementapi/service/ProductService.java:68-83 | Repeating an update changes nothing. |
| ProductService.DeleteProduct | src/main/java/biz/technway/khaled/inventorymanagementapi/service/ProductService.java:85-89 | A missing id fails NotFound. Otherwise only that product is removed. |
| ProductService.DeleteUndoesCreate | src/main/java/biz/technway/khaled/inventorymanagementapi/service/ProductService.java:30-89 | Deleting a just-created product restores the tables. |
| ProductService.CreateKeepsConsistent | src/main/java/biz/technway/khaled/inventorymanagementapi/service/ProductService.java:33-45 | Creation keeps the foreign key intact and stores no transient id, for every request, however it names its inventory. |
| ProductService.UpdateKeepsConsistent | src/main/java/biz/technway/khaled/inventorymanagementapi/service/ProductService.java:68-83 | An update keeps the tables consistent. |
| ProductService.DeleteKeepsConsistent | src/main/java/biz/technway/khaled/inventorymanagementapi/service/ProductService.java:85-89 | A delete keeps the tables consistent. |
| ProductService.ListingHasNullFigure | src/main/java/biz/technway/khaled/inventorymanagementapi/service/ProductService.java:119-121 | The listed rows include a null area or a null initial quantity exactly when the table does. |
| ProductService.GetStatistics | src/main/java/biz/technway/khaled/inventorymanagementapi/service/ProductService.java:111-193 | Fails (a 500) exactly when a stored product has a null area or a null initial quantity. Otherwise it reports the table size and a map built from statistics that meet `Summarises`. |
| InventoryService.CreateInventory | src/main/java/biz/technway/khaled/inventorymanagementapi/service/InventoryService.java:30-32 | For a body without a `products` list, stores the inventory under its new id, with the creation defaults, and leaves the product table unchanged. |
| InventoryService.CreateKeepsConsistent | src/main/java/biz/technway/khaled/inventorymanagementapi/service/InventoryService.java:30-32 | Creating an inventory keeps the tables consistent. |
| InventoryService.ToView | src/main/java/biz/technway/khaled/inventorymanagementapi/service/InventoryService.java:73-86 | Copies id, name, description, address, both areas and both timestamps, and renders status and type as their names. |
| InventoryService.ViewForgetsOnlyOwner | src/main/java/biz/technway/khaled/inventorymanagementapi/service/InventoryService.java:73-86 | Two inventories have the same view exactly when they differ at most in the owner. |
| InventoryService.GetInventoryById | src/main/java/biz/technway/khaled/inventorymanagementapi/service/InventoryService.java:47-49 | A missing id gives an empty result, not an error. |
| InventoryService.GetInventoriesByUserId | src/main/java/biz/technway/khaled/inventorymanagementapi/service/InventoryService.java:40-45 | Returns exactly the inventories whose owner equals the argument, as views. |
| InventoryService.ListingsByOwnerPartition | src/main/java/biz/technway/khaled/inventorymanagementapi/service/InventoryService.java:40-49 | Each inventory is listed for its own owner and no other, with the same view that a lookup by id gives. |
| InventoryService.CopyDetails | src/main/java/biz/technway/khaled/inventorymanagementapi/service/InventoryService.java:55-62 | After the eight setters the row agrees with the details on those eight fields. |
| InventoryService.UpdateInventory | src/main/java/biz/technway/khaled/inventorymanagementapi/service/InventoryService.java:51-65 | A missing id fails NotFound and nothing changes. Otherwise it overwrites exactly the eight fields and keeps id and createdAt. |
| InventoryService.UpdateInventoryIdempotent | src/main/java/biz/technway/khaled/inventorymanagementapi/service/InventoryService.java:51-65 | Repeating an update changes nothing. |
| InventoryService.UpdateKeepsProducts | src/main/java/biz/technway/khaled/inventorymanagementapi/service/InventoryService.java:51-65 | Updating an inventory leaves every inventory's products as they were. |
| InventoryService.UpdateAdmitsOverfullInventory | src/main/java/biz/technway/khaled/inventorymanagementapi/service/InventoryService.java:61-62 | An update may store an available area larger than the area. |
| InventoryService.UpdateKeepsConsistent | src/main/java/biz/technway/khaled/inventorymanagementapi/service/InventoryService.java:51-65 | An update keeps the tables consistent. |
| InventoryService.DeleteInventory | src/main/java/biz/technway/khaled/inventorymanagementapi/service/InventoryService.java:67-71 | A missing id fails NotFound. Otherwise it removes that inventory, no other inventory, and exactly that inventory's products. |
| InventoryService.DeleteUndoesCreate | src/main/java/biz/technway/khaled/inventorymanagementapi/service/InventoryService.java:30-71 | Deleting a just-created inventory restores consistent tables; the cascade finds no products to remove. |
| InventoryService.DeleteKeepsConsistent | src/main/java/biz/technway/khaled/inventorymanagementapi/entity/Inventory.java:66-67 | With the cascade, deleting an inventory leaves no dangling join column. |
| InventoryService.CascadeIsNeeded | src/main/java/biz/technway/khaled/inventorymanagementapi/entity/Inventory.java:66-67 | Without the cascade, removing an inventory that holds a product breaks the foreign key. |
| InventoryService.GetStatistics | src/main/java/biz/technway/khaled/inventorymanagementapi/service/InventoryService.java:88-167 | Fails only with the null-value error, and exactly when a stored product has a null area or a null initial quantity. `Map.ofEntries` never throws. |
| InventoryService.StatisticsAgree | src/main/java/biz/technway/khaled/inventorymanagementapi/service/InventoryService.java:88-167 | Both services return the same statistics map for the same tables. |
| UserService.PhotoOrDefault | src/main/java/biz/technway/khaled/inventorymanagementapi/service/UserService.java:47-49 | A null or empty photo path becomes `DefaultPhotoPath`. Any other path is kept. |
| UserService.CreateUser | src/main/java/biz/technway/khaled/inventorymanagementapi/service/UserService.java:37-56 | A taken email gives Conflict, checked first. A taken username gives Conflict next. Otherwise it stores the user with the hashed password and the photo default. |
| UserService.CreateKeepsUnique | src/main/java/biz/technway/khaled/inventorymanagementapi/service/UserService.java:39-44 | Registration keeps emails and usernames unique. |
| UserService.UpdateUser | src/main/java/biz/technway/khaled/inventorymanagementapi/service/UserService.java:135-156 | A missing id gives NotFound, a changed and taken username Conflict, then a changed and taken email Conflict. Otherwise it overwrites five fields and keeps the password hash. |
| UserService.UpdateUserIdempotent | src/main/java/biz/technway/khaled/inventorymanagementapi/service/UserService.java:135-156 | Repeating a profile update changes nothing and raises no conflict. |
| UserService.UpdateKeepsUnique | src/main/java/biz/technway/khaled/inventorymanagementapi/service/UserService.java:140-147 | A profile update keeps emails and usernames unique. |
| UserService.UpdateUserWithPhoto | src/main/java/biz/technway/khaled/inventorymanagementapi/service/UserService.java:58-77 | A null field keeps the stored value. A changed and taken email gives Conflict. Username, password and birthdate never change. |
| UserService.UpdateWithPhotoKeepsUnique | src/main/java/biz/technway/khaled/inventorymanagementapi/service/UserService.java:66-71 | A partial update keeps emails and usernames unique. |
| UserService.EmptyPatchChangesNothing | src/main/java/biz/technway/khaled/inventorymanagementapi/service/UserService.java:58-77 | A patch with no fields leaves the table as it was, including updatedAt. |
| UserService.ValidateUserLogin | src/main/java/biz/technway/khaled/inventorymanagementapi/service/UserService.java:124-133 | An unknown email gives NotFound, and a password the encoder rejects gives Unauthorized. Otherwise the answer is true; it is never false. |
| UserService.LoginAfterCreate | src/main/java/biz/technway/khaled/inventorymanagementapi/service/UserService.java:124-133 | A registered user logs in with their password whenever the encoder matches a password against its own hash. |
| UserService.ValidatePhoto | src/main/java/biz/technway/khaled/inventorymanagementapi/service/UserService.java:79-95 | Over 500·1024 bytes gives BadRequest. An unreadable upload gives a 500. Otherwise the photo is accepted exactly when the type is one of the four image types. |
| UserService.AcceptedImageTypes | src/main/java/biz/technway/khaled/inventorymanagementapi/service/UserService.java:92 | The MIME pattern (image/ followed by jpeg, png, jpg or webp, matched whole) accepts exactly the four listed strings. |
| UserService.DeleteUser | src/main/java/biz/technway/khaled/inventorymanagementapi/service/UserService.java:158-162 | A missing id gives NotFound. Otherwise only that user is removed. |
| UserService.DeleteFreesIdentity | src/main/java/biz/technway/khaled/inventorymanagementapi/service/UserService.java:158-162 | After a deletion the user's email and username are free. |
| UserService.UpdatePassword | src/main/java/biz/technway/khaled/inventorymanagementapi/service/UserService.java:164-171 | A missing id gives NotFound. Otherwise only the password hash (and updatedAt) of that user changes. |
| UserService.LoginAfterPasswordChange | src/main/java/biz/technway/khaled/inventorymanagementapi/service/UserService.java:164-171 | After a change, the new password logs in and any other does not, for an encoder that tells passwords apart. |
| UserService.GetAllUserDTOs | src/main/java/biz/technway/khaled/inventorymanagementapi/service/UserService.java:112-118 | An empty table gives NotFound. Otherwise it returns the view of every user. |
| JwtFilter.Token | src/main/java/biz/technway/khaled/inventorymanagementapi/config/JwtFilter.java:39 | The token is what follows the seven-character "Bearer " prefix. |
| JwtFilter.AuthenticateEnds | src/main/java/biz/technway/khaled/inventorymanagementapi/config/JwtFilter.java:40-48 | The `try` block raises exactly what an oracle it reached raised, and it changes the authentication only to a user the oracles grant, in a context that had none. |
| JwtFilter.DoFilterInternal | src/main/java/biz/technway/khaled/inventorymanagementapi/config/JwtFilter.java:33-64 | See the list below this table. |
| JwtFilter.Idempotent | src/main/java/biz/technway/khaled/inventorymanagementapi/config/JwtFilter.java:42 | A second pass with the authentication the first left behind ends the same way. |
| JwtFilter.OnlyTokenIsExamined | src/main/java/biz/technway/khaled/inventorymanagementapi/config/JwtFilter.java:39-47 | Oracles that answer alike for the token give the same run. |

`JwtFilter.DoFilterInternal` states:

- Each run ends in exactly one way: the fixed 403 JSON response, the chain continuing, or an escaping exception.
- Without a bearer header, the chain continues with the context unchanged.
- An existing authentication is kept.
- Authentication is granted exactly when the oracles accept the token.
- A `JwtException` from parsing gives the 403 even when the context is already authenticated.
- The 403 is written exactly when an oracle the filter reached raised a `JwtException`: parsing, the user lookup or validation (`RaisedOnPath`).
- An exception leaves the filter exactly when an oracle it reached raised anything else.
- A token that is declined without an exception lets the request continue with the context as it was. It is declined when no email is parsed, the context is already authenticated, or validation answers false.

## Left out

- Controllers, DTO plumbing beyond the `convertToDTO` methods, `SecurityConfig` and `WebConfig`: HTTP routing, logging and the catch-all mapping of exceptions to 500 are not modelled.
- `getAllProducts`, `getProductsByInventoryId`, `getAllInventories`, `getUserById` and `findByEmail`: read-only listings, left out.
- `savePhoto` and Tika's type detection: these are file I/O, a UUID and the clock. `UserService.ValidatePhoto` takes the detected type, or its failure, as input.
- `JwtUtil`, `CustomUserDetailsService` and BCrypt are not part of this model. They appear as oracles, or as the `encode`/`matches` parameters.
- `new Date()` is the `now` parameter. Dates are integers and `before` is `<`.
- ProductService.CreateProduct: a body whose nested inventory has no id, such as `{"inventory": {"name": "X"}}`, cannot be expressed: the model's join column is an inventory id. In the code `getInventoryId()` is then null, no lookup happens, and saving a product that references an unsaved inventory fails at flush with a 500.
- Identity generation is the `newId` parameter. A client-supplied id on create is ignored, although `save` would then merge.
- The bean-validation pass that Hibernate runs before insert and update is not re-run by the service operations. `Valid` states the constraints, and the lemmas about creation show they are kept.
- `findByUserId` is not declared in the inventory repository. It is modelled as the derived query it would be: a null argument matches the inventories that have no owner.
- Lists are modelled as maps keyed by id. Only the statistics keep `findAll()`'s order, because the tie-break of `max`/`min` depends on it.
- `long` and `int` overflow, and `precision = 10` on the decimal columns, are not modelled. Lengths count characters, not UTF-16 units.
- The bean-validation constraints of `User` (User.java) are not modelled. The user operations do not check them.
- Email and username comparisons are exact string equality. The database collation may be case-insensitive.
- Status is never null in the model. `status` is `@NotNull` on both entities (Product.java:47, Inventory.java:33), and the update endpoints take a `@Valid` body, so a null status is refused with a 400 before `updateProduct` or `updateInventory` runs.
- Concurrency, transactions and `HashMap` iteration order are not modelled.
- InventoryService.CreateInventory: the model's `Inventory` holds no product list, so a request body that carries a `products` list is not modelled. `CascadeType.ALL` on `Inventory.products` (Inventory.java:66-67) would insert those products along with the inventory. The promise that the product table is unchanged covers only bodies without that list.
