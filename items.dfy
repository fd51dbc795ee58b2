/**
  The packing-list entries and the three pure list transformations that the
  `App` component hands to `setItems`: append, delete by id and toggle
  `packed` by id. Every transformation produces a new sequence; none changes
  its argument. Ids are NOT assumed unique (they come from the clock and can
  collide), so delete and toggle are stated for every item carrying the id.
*/
module Items {

  /** One packing-list entry: its id, description, quantity and packed flag. */
  datatype Item = Item(id: int, description: string, quantity: int, packed: bool)

  /** The smallest and largest quantity the form's selector offers. */
  const MinQuantity: int := 1
  const MaxQuantity: int := 20

  /** Every item carries a quantity the form's selector can produce. */
  predicate QuantitiesInRange(items: seq<Item>) {
    forall i :: 0 <= i < |items| ==> MinQuantity <= items[i].quantity <= MaxQuantity
  }

  /** No two items share an id. */
  predicate UniqueIds(items: seq<Item>) {
    forall i, j :: 0 <= i < j < |items| ==> items[i].id != items[j].id
  }

  /** Some item carries the id `id`. */
  predicate HasId(items: seq<Item>, id: int) {
    exists i :: 0 <= i < |items| && items[i].id == id
  }

  // ---------------------------------------------------------------------
  // Add: a new list with the item appended
  // ---------------------------------------------------------------------

  /** The new item goes at the end; the old items form an unchanged prefix. */
  function Add(items: seq<Item>, item: Item): (r: seq<Item>)
    ensures |r| == |items| + 1
    ensures r[..|items|] == items && r[|items|] == item
  {
    items + [item]
  }

  // ---------------------------------------------------------------------
  // Delete: a filtered copy without the items carrying the id
  // ---------------------------------------------------------------------

  /** The items whose id differs from `id`, in their original order. */
  function Delete(items: seq<Item>, id: int): (r: seq<Item>)
    ensures |r| <= |items|
    ensures forall x :: x in r ==> x in items && x.id != id
    ensures forall x :: x in items && x.id != id ==> x in r
  {
    if items == [] then []
    else if items[0].id == id then Delete(items[1..], id)
    else [items[0]] + Delete(items[1..], id)
  }

  /** Filtering distributes over concatenation: together with the one-element
      case this pins down that the survivors keep their relative order. */
  lemma {:induction false} DeleteAppend(a: seq<Item>, b: seq<Item>, id: int)
    ensures Delete(a + b, id) == Delete(a, id) + Delete(b, id)
  {
    if a == [] {
      assert a + b == b;
    } else {
      assert (a + b)[0] == a[0];
      assert (a + b)[1..] == a[1..] + b;
      DeleteAppend(a[1..], b, id);
    }
  }

  /** The one-element case of the filter. */
  lemma DeleteSingleton(x: Item, id: int)
    ensures Delete([x], id) == if x.id == id then [] else [x]
  {
    assert [x][1..] == [];
  }

  /** Each item with a different id survives exactly as often as it occurred;
      no item with the id survives. */
  lemma {:induction false} DeleteCount(items: seq<Item>, id: int, x: Item)
    ensures multiset(Delete(items, id))[x] == if x.id == id then 0 else multiset(items)[x]
  {
    if items != [] {
      assert items == [items[0]] + items[1..];
      DeleteCount(items[1..], id, x);
    }
  }

  /** Deleting an id no item carries leaves the list unchanged. */
  lemma {:induction false} DeleteAbsent(items: seq<Item>, id: int)
    requires !HasId(items, id)
    ensures Delete(items, id) == items
  {
    if items != [] {
      assert items[0].id != id;
      assert !HasId(items[1..], id) by {
        forall i | 0 <= i < |items[1..]| ensures items[1..][i].id != id {
          assert items[1..][i] == items[i + 1];
        }
      }
      DeleteAbsent(items[1..], id);
      assert items == [items[0]] + items[1..];
    }
  }

  /** Deleting the same id twice equals deleting it once. */
  lemma {:induction false} DeleteIdempotent(items: seq<Item>, id: int)
    ensures Delete(Delete(items, id), id) == Delete(items, id)
  {
    var r := Delete(items, id);
    assert !HasId(r, id) by {
      forall i | 0 <= i < |r| ensures r[i].id != id {
        assert r[i] in r;
      }
    }
    DeleteAbsent(r, id);
  }

  /** Deleting keeps ids unique. */
  lemma {:induction false} DeleteKeepsUniqueIds(items: seq<Item>, id: int)
    requires UniqueIds(items)
    ensures UniqueIds(Delete(items, id))
  {
    if items != [] {
      var tail := items[1..];
      assert UniqueIds(tail) by {
        forall i, j | 0 <= i < j < |tail| ensures tail[i].id != tail[j].id {
          assert tail[i] == items[i + 1] && tail[j] == items[j + 1];
        }
      }
      DeleteKeepsUniqueIds(tail, id);
      if items[0].id != id {
        var rest := Delete(tail, id);
        var r := [items[0]] + rest;
        forall i, j | 0 <= i < j < |r| ensures r[i].id != r[j].id {
          if i == 0 {
            assert r[j] == rest[j - 1] && rest[j - 1] in rest;
            assert r[j] in tail;
            var k :| 0 <= k < |tail| && tail[k] == r[j];
            assert items[k + 1] == r[j];
          } else {
            assert r[i] == rest[i - 1] && r[j] == rest[j - 1];
          }
        }
      }
    }
  }

  /** With unique ids, deleting an id that is present removes exactly one item. */
  lemma {:induction false} DeleteRemovesOne(items: seq<Item>, id: int)
    requires UniqueIds(items) && HasId(items, id)
    ensures |Delete(items, id)| == |items| - 1
  {
    var tail := items[1..];
    assert UniqueIds(tail) by {
      forall i, j | 0 <= i < j < |tail| ensures tail[i].id != tail[j].id {
        assert tail[i] == items[i + 1] && tail[j] == items[j + 1];
      }
    }
    if items[0].id == id {
      assert !HasId(tail, id) by {
        forall i | 0 <= i < |tail| ensures tail[i].id != id {
          assert tail[i] == items[i + 1];
        }
      }
      DeleteAbsent(tail, id);
    } else {
      var k :| 0 <= k < |items| && items[k].id == id;
      assert tail[k - 1] == items[k];
      DeleteRemovesOne(tail, id);
    }
  }

  /** Deleting keeps the quantities the form allows. */
  lemma DeleteKeepsQuantitiesInRange(items: seq<Item>, id: int)
    requires QuantitiesInRange(items)
    ensures QuantitiesInRange(Delete(items, id))
  {
    var r := Delete(items, id);
    forall i | 0 <= i < |r| ensures MinQuantity <= r[i].quantity <= MaxQuantity {
      assert r[i] in r;
      var k :| 0 <= k < |items| && items[k] == r[i];
    }
  }

  // ---------------------------------------------------------------------
  // Toggle: a mapped copy in which the items carrying the id are flipped
  // ---------------------------------------------------------------------

  /** The per-item step of the toggle: a copy with `packed` flipped when the
      id matches, the item itself otherwise. */
  function ToggleOne(item: Item, id: int): (r: Item)
    ensures r.id == item.id && r.description == item.description && r.quantity == item.quantity
    ensures r.packed == (item.packed != (item.id == id))
    ensures item.id != id ==> r == item
  {
    if item.id == id then item.(packed := !item.packed) else item
  }

  /** Length and order are kept; every item whose id matches has `packed`
      flipped and all its other fields kept; every other item is untouched. */
  function Toggle(items: seq<Item>, id: int): (r: seq<Item>)
    ensures |r| == |items|
    ensures forall i :: 0 <= i < |items| ==>
      && r[i].id == items[i].id
      && r[i].description == items[i].description
      && r[i].quantity == items[i].quantity
      && r[i].packed == (items[i].packed != (items[i].id == id))
    ensures forall i :: 0 <= i < |items| && items[i].id != id ==> r[i] == items[i]
  {
    if items == [] then [] else [ToggleOne(items[0], id)] + Toggle(items[1..], id)
  }

  /** Toggling the same id twice restores the original list. */
  lemma ToggleInvolution(items: seq<Item>, id: int)
    ensures Toggle(Toggle(items, id), id) == items
  {
    var r := Toggle(Toggle(items, id), id);
    forall i | 0 <= i < |items| ensures r[i] == items[i] {
      assert r[i].id == items[i].id && r[i].packed == items[i].packed;
    }
  }

  /** Toggling an id no item carries leaves the list unchanged. */
  lemma ToggleAbsent(items: seq<Item>, id: int)
    requires !HasId(items, id)
    ensures Toggle(items, id) == items
  {
    var r := Toggle(items, id);
    forall i | 0 <= i < |items| ensures r[i] == items[i] {
      assert items[i].id != id;
    }
  }

  /** Toggling keeps ids unique. */
  lemma ToggleKeepsUniqueIds(items: seq<Item>, id: int)
    requires UniqueIds(items)
    ensures UniqueIds(Toggle(items, id))
  {
    var r := Toggle(items, id);
    forall i, j | 0 <= i < j < |r| ensures r[i].id != r[j].id {
      assert r[i].id == items[i].id && r[j].id == items[j].id;
    }
  }

  /** Toggling keeps the quantities the form allows. */
  lemma ToggleKeepsQuantitiesInRange(items: seq<Item>, id: int)
    requires QuantitiesInRange(items)
    ensures QuantitiesInRange(Toggle(items, id))
  {
    var r := Toggle(items, id);
    forall i | 0 <= i < |r| ensures MinQuantity <= r[i].quantity <= MaxQuantity {
      assert r[i].quantity == items[i].quantity;
    }
  }

  /** A toggled item is deleted like any other: deleting after toggling the
      same id is the same as deleting straight away. */
  lemma {:induction false} DeleteAfterToggle(items: seq<Item>, id: int)
    ensures Delete(Toggle(items, id), id) == Delete(items, id)
  {
    if items != [] {
      var t := Toggle(items, id);
      assert t[1..] == Toggle(items[1..], id);
      assert t[0].id == items[0].id;
      DeleteAfterToggle(items[1..], id);
      if items[0].id != id {
        assert t[0] == items[0];
      }
    }
  }

  // ---------------------------------------------------------------------
  // Add, then the other operations
  // ---------------------------------------------------------------------

  /** Adding keeps ids unique exactly when the new id is fresh. */
  lemma AddUniqueIds(items: seq<Item>, item: Item)
    requires UniqueIds(items)
    ensures UniqueIds(Add(items, item)) <==> !HasId(items, item.id)
  {
    var r := Add(items, item);
    if HasId(items, item.id) {
      var k :| 0 <= k < |items| && items[k].id == item.id;
      assert r[k].id == r[|items|].id;
    } else {
      forall i, j | 0 <= i < j < |r| ensures r[i].id != r[j].id {
        if j == |items| {
          assert r[i] == items[i];
        } else {
          assert r[i] == items[i] && r[j] == items[j];
        }
      }
    }
  }

  /** Adding an item whose id is fresh, toggling it and deleting it returns
      the list to what it was before the add, with no residual entry. */
  lemma AddToggleDeleteRestores(items: seq<Item>, item: Item)
    requires !HasId(items, item.id)
    ensures Delete(Toggle(Add(items, item), item.id), item.id) == items
  {
    DeleteAfterToggle(Add(items, item), item.id);
    DeleteAppend(items, [item], item.id);
    DeleteSingleton(item, item.id);
    DeleteAbsent(items, item.id);
  }
}
