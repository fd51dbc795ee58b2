/**
  The three components that keep state with `useState`: `App` owns the item
  list, `Form` owns the draft of the next item, and `PackingList` owns the
  selected order. Each state variable is a field, and each setter call in a
  handler is an assignment to it. The browser's confirmation dialog and the
  clock are parameters: `confirmed` is what `window.confirm` answered,
  `now` is what `Date.now()` returned.
*/
module FarAway {
  import opened Items
  import opened ItemOrder

  /** The options of the quantity selector: 1, 2, ..., 20. */
  function QuantityOptions(): (r: seq<int>)
    ensures |r| == MaxQuantity - MinQuantity + 1
    ensures forall q :: q in r <==> MinQuantity <= q <= MaxQuantity
  {
    var r := seq(MaxQuantity - MinQuantity + 1, i => MinQuantity + i);
    ConsecutiveMembers(r, MinQuantity);
    r
  }

  /** A run of consecutive integers holds exactly the integers it spans. */
  lemma ConsecutiveMembers(r: seq<int>, lo: int)
    requires forall i :: 0 <= i < |r| ==> r[i] == lo + i
    ensures forall q :: q in r <==> lo <= q < lo + |r|
  {
    forall q | lo <= q < lo + |r| ensures q in r {
      assert r[q - lo] == q;
    }
  }

  /** The application: the single list every view is rendered from. */
  class App {
    var items: seq<Item>

    constructor ()
      ensures items == []
    {
      items := [];
    }

    /** `handleAddItems`: append the item. */
    method HandleAddItems(item: Item)
      modifies this
      ensures items == Add(old(items), item)
      ensures QuantitiesInRange(old(items)) && MinQuantity <= item.quantity <= MaxQuantity
        ==> QuantitiesInRange(items)
    {
      items := Add(items, item);
    }

    /** `handleDeleteItems`: drop every item with the id. */
    method HandleDeleteItems(id: int)
      modifies this
      ensures items == Delete(old(items), id)
      ensures QuantitiesInRange(old(items)) ==> QuantitiesInRange(items)
      ensures UniqueIds(old(items)) ==> UniqueIds(items)
    {
      if QuantitiesInRange(items) {
        DeleteKeepsQuantitiesInRange(items, id);
      }
      if UniqueIds(items) {
        DeleteKeepsUniqueIds(items, id);
      }
      items := Delete(items, id);
    }

    /** `handlePacked`: flip `packed` on every item with the id. */
    method HandlePacked(id: int)
      modifies this
      ensures items == Toggle(old(items), id)
      ensures QuantitiesInRange(old(items)) ==> QuantitiesInRange(items)
      ensures UniqueIds(old(items)) ==> UniqueIds(items)
    {
      if QuantitiesInRange(items) {
        ToggleKeepsQuantitiesInRange(items, id);
      }
      if UniqueIds(items) {
        ToggleKeepsUniqueIds(items, id);
      }
      items := Toggle(items, id);
    }

    /** `handleClearList`: empty the list if the user confirmed, otherwise
        leave it as it was. */
    method HandleClearList(confirmed: bool)
      modifies this
      ensures confirmed ==> items == []
      ensures !confirmed ==> items == old(items)
    {
      if confirmed {
        items := [];
      }
    }
  }

  /** The form that builds new items. */
  class Form {
    var description: string
    var quantity: int

    /** The selector only ever holds one of its options. */
    predicate Valid()
      reads this
      ensures Valid() <==> MinQuantity <= quantity <= MaxQuantity
    {
      quantity in QuantityOptions()
    }

    constructor ()
      ensures Valid() && description == "" && quantity == 1
    {
      description := "";
      quantity := 1;
    }

    /** The selector's change handler; it can only deliver one of the
        selector's option values. */
    method SetQuantity(q: int)
      requires q in QuantityOptions()
      modifies this
      ensures Valid() && quantity == q && description == old(description)
    {
      quantity := q;
    }

    /** The text field's change handler; any text is accepted. */
    method SetDescription(d: string)
      requires Valid()
      modifies this
      ensures Valid() && description == d && quantity == old(quantity)
    {
      description := d;
    }

    /** `handleSubmit`: build an unpacked item from the draft (an empty
        description included), hand it to the app, reset the draft. */
    method HandleSubmit(app: App, now: int) returns (newItem: Item)
      requires Valid()
      modifies this, app
      ensures newItem == Item(now, old(description), old(quantity), false)
      ensures !newItem.packed && MinQuantity <= newItem.quantity <= MaxQuantity
      ensures app.items == Add(old(app.items), newItem)
      ensures Valid() && description == "" && quantity == 1
    {
      newItem := Item(now, description, quantity, false);
      app.HandleAddItems(newItem);
      description := "";
      quantity := 1;
    }
  }

  /** The list view and its order selector. */
  class PackingList {
    var sortBy: SortBy

    constructor ()
      ensures sortBy == Input
    {
      sortBy := Input;
    }

    /** The order selector's change handler. */
    method SetSortBy(mode: SortBy)
      modifies this
      ensures sortBy == mode
    {
      sortBy := mode;
    }

    /** `sortedItems`: the stored list in input order, or a sorted copy of
        it. The copy is a permutation in comparator order in which
        comparator-equal items keep their input order; in packed order that
        is every unpacked item before every packed one. Nothing is modified,
        so the stored list keeps its order. */
    method SortedItems(items: seq<Item>) returns (sortedItems: seq<Item>)
      ensures sortBy == Input ==> sortedItems == items
      ensures multiset(sortedItems) == multiset(items)
      ensures Sorted(sortBy, sortedItems)
      ensures SameGroups(sortBy, items, sortedItems)
      ensures sortBy == Packed ==> sortedItems == WithPacked(items, false) + WithPacked(items, true)
    {
      if sortBy == Input {
        sortedItems := items;
        StableSortInput(items);
      } else {
        sortedItems := StableSort(sortBy, items);
      }
      StableSortSorted(sortBy, items);
      StableSortStable(sortBy, items);
      if sortBy == Packed {
        PackedModePartition(items);
      }
    }
  }
}
