/**
 The two tables the product and inventory services share. `product.inventory_id`
 is a foreign key into the inventory table, and the `Inventory.products`
 relation is its inverse: the products whose join column names the inventory.
 */
module Catalog {
  import opened Results
  import Products
  import Inventories

  datatype Tables = Tables(inventories: map<int, Inventories.Inventory>, products: map<int, Products.Product>)

  /** The tables after a `save`, and the entity `save` hands back. */
  datatype Written<+T> = Written(tables: Tables, entity: T)

  /** What the database keeps true of its rows: each row's id is its key, a
      stored product carries no transient inventory id, and every join column
      refers to a stored inventory. */
  predicate Consistent(t: Tables) {
    && (forall id :: id in t.inventories ==> t.inventories[id].id == Some(id))
    && (forall id :: id in t.products ==> t.products[id].id == Some(id))
    && (forall id :: id in t.products ==> t.products[id].inventoryId.None?)
    && (forall id :: id in t.products && t.products[id].inventory.Some? ==>
          t.products[id].inventory.value in t.inventories)
  }

  /** `Inventory.getProducts()`: the ids of the products attached to `inventoryId`. */
  function ProductsOf(t: Tables, inventoryId: int): (r: set<int>)
    ensures forall id :: id in r <==> id in t.products && t.products[id].inventory == Some(inventoryId)
  {
    set id | id in t.products && t.products[id].inventory == Some(inventoryId)
  }

  /** `order` is an order `findAll()` may return the product table in: every
      stored product exactly once. */
  predicate IsListing(t: Tables, order: seq<int>) {
    && (forall i :: 0 <= i < |order| ==> order[i] in t.products)
    && (forall id :: id in t.products ==> id in order)
    && (forall i, j :: 0 <= i < j < |order| ==> order[i] != order[j])
  }

  /** The rows `findAll()` returns, in the listed order. */
  function Listing(t: Tables, order: seq<int>): (ps: seq<Products.Product>)
    requires IsListing(t, order)
    ensures |ps| == |order|
    ensures forall i :: 0 <= i < |order| ==> ps[i] == t.products[order[i]]
  {
    seq(|order|, i requires 0 <= i < |order| && IsListing(t, order) => t.products[order[i]])
  }

  /** Every stored product appears in a listing exactly once, so a listing is
      as long as the table. */
  lemma ListingCoversTable(t: Tables, order: seq<int>)
    requires IsListing(t, order)
    ensures |order| == |t.products|
  {
    var ids := set i | 0 <= i < |order| :: order[i];
    forall id | id in t.products ensures id in ids {
      var i :| 0 <= i < |order| && order[i] == id;
    }
    assert ids == t.products.Keys;
    DistinctCardinality(order);
  }

  lemma {:induction false} DistinctCardinality(s: seq<int>)
    requires forall i, j :: 0 <= i < j < |s| ==> s[i] != s[j]
    ensures |set i | 0 <= i < |s| :: s[i]| == |s|
    decreases |s|
  {
    if |s| > 0 {
      var last := |s| - 1;
      var init := s[..last];
      forall i, j | 0 <= i < j < |init| ensures init[i] != init[j] {
        assert init[i] == s[i] && init[j] == s[j];
      }
      DistinctCardinality(init);
      var a := set i | 0 <= i < |init| :: init[i];
      var b := set i | 0 <= i < |s| :: s[i];
      assert b == a + {s[last]} by {
        forall x | x in b ensures x in a + {s[last]} {
          var i :| 0 <= i < |s| && s[i] == x;
          if i < last { assert init[i] == x; }
        }
        forall x | x in a ensures x in b {
          var i :| 0 <= i < |init| && init[i] == x;
          assert s[i] == x;
        }
      }
      assert s[last] !in a;
    }
  }

  /** The listed rows resolve their inventories, as the statistics need. */
  lemma ListingResolves(t: Tables, order: seq<int>)
    requires Consistent(t) && IsListing(t, order)
    ensures forall p :: p in Listing(t, order) && p.inventory.Some? ==> p.inventory.value in t.inventories
  {
    var ps := Listing(t, order);
    forall p | p in ps && p.inventory.Some? ensures p.inventory.value in t.inventories {
      var i :| 0 <= i < |ps| && ps[i] == p;
      assert t.products[order[i]] == p;
    }
  }
}
