# Far Away packing list: a Dafny model

The app is a single-page packing list written in React. The user adds items with a
description and a quantity from 1 to 20, ticks items off as packed, deletes
them, clears the list after a confirmation dialog, and views the list in input
order, by description or by packed status. A footer shows how many items are
packed and the rounded percentage.

This project models the state logic in `src/App.js`:

- `items.dfy` (module `Items`): the `Item` record and the three pure list
  transformations the `App` component passes to `setItems`. `Add` is the spread
  append, `Delete` is the `filter` on `id`, and `Toggle` is the `map` that copies an
  item with `packed` flipped. Around them are lemmas on order, multiplicity,
  idempotence, involution, id uniqueness and the quantity range.
- `order.dfy` (module `ItemOrder`): the three orders of `PackingList`.
  `Array.prototype.sort` must be stable (section 23.1.3.30 of ECMA-262, 2023
  edition). That means one thing here: the result is in comparator order, and each
  class of comparator-equal items keeps its members and their input order. In this
  model that is `Sorted` plus `SameGroups`. `StableSort` is a reference insertion
  sort that meets both. `StableSortUnique` proves the two properties fix the
  result, so what an engine's sort returns equals `StableSort`. Packed order is
  proved to be the unpacked items in input order followed by the packed ones.
- `stats.dfy` (module `PackingStats`): the footer. It shows the prompt for an empty
  list, the completion message when the rounded percentage is 100, and otherwise
  the counts and the percentage. `Math.round` is stated as round-half-up
  (`RoundsHalfUp`), and the integer formula is proved to be that rounding.
- `components.dfy` (module `FarAway`): the components that hold `useState` state,
  as classes. `App.items` is one field; each handler assigns it the result of the
  matching function. `Form` holds `description` and `quantity`; `HandleSubmit`
  builds an unpacked item, hands it to the app and resets the draft to `""` and
  `1`. `PackingList` holds `sortBy`; `SortedItems` returns the stored list or a
  sorted copy and modifies nothing.

Inputs from outside the program become parameters:

- the answer of `window.confirm` is `HandleClearList(confirmed)`;
- the value of `Date.now()` is `HandleSubmit(app, now)`.

Two consequences of the code are stated explicitly:

- Ids are not assumed unique: `Date.now()` can return the same value twice, so
  `Delete` removes every item with the id and `Toggle` flips every one.
  Uniqueness is a separate predicate, `UniqueIds`. Delete and toggle are proved
  to preserve it, and add preserves it exactly when the new id is fresh.
- Percentages round half up, as `Math.round` does.

## Model

| member | source | states |
|---|---|---|
| Items.Add | src/App.js:6-8 | the new list is one longer, the old list is its unchanged prefix, and the last element is the given item |
| Items.Delete | src/App.js:10-12 | no survivor has the id; every survivor was in the list; every item with a different id survives; the list never grows |
| Items.DeleteAppend | src/App.js:11 | deleting from a concatenation is deleting from each part, so survivors keep their relative order |
| Items.DeleteSingleton | src/App.js:11 | a one-item list keeps its item exactly when the ids differ |
| Items.DeleteCount | src/App.js:11 | each item with a different id survives as many times as it occurred, and no item with the id survives |
| Items.DeleteAbsent | src/App.js:10-12 | deleting an id no item has leaves the list unchanged |
| Items.DeleteIdempotent | src/App.js:10-12 | deleting the same id twice equals deleting it once |
| Items.DeleteKeepsUniqueIds | src/App.js:10-12 | if ids were unique before a delete they are unique after it |
| Items.DeleteRemovesOne | src/App.js:10-12 | with unique ids, deleting an id that is present shortens the list by exactly one |
| Items.DeleteKeepsQuantitiesInRange | src/App.js:11 | deleting keeps every quantity within 1..20 |
| Items.Toggle | src/App.js:14-20 | length and order are kept; every matching item has `packed` flipped and id, description and quantity kept; every other item is untouched |
| Items.ToggleOne | src/App.js:17 | the per-item step keeps id, description and quantity, flips `packed` exactly when the id matches, and returns a non-matching item itself |
| Items.ToggleInvolution | src/App.js:14-20 | toggling the same id twice restores the original list |
| Items.ToggleAbsent | src/App.js:14-20 | toggling an id no item has leaves the list unchanged |
| Items.ToggleKeepsUniqueIds | src/App.js:14-20 | toggling keeps ids unique |
| Items.ToggleKeepsQuantitiesInRange | src/App.js:16-18 | toggling keeps every quantity within 1..20 |
| Items.DeleteAfterToggle | src/App.js:10-20 | deleting an id after toggling it equals deleting it straight away |
| Items.AddUniqueIds | src/App.js:6-8 | on a list with unique ids, adding keeps them unique exactly when no item already has the new id |
| Items.AddToggleDeleteRestores | src/App.js:6-20 | adding an item with a fresh id, toggling it and deleting it gives back the list from before the add |
| ItemOrder.OrdinalCompare | src/App.js:93 | the description comparator returns -1, 0 or 1, and 0 exactly for equal strings |
| ItemOrder.OrdinalCompareAntisymmetric | src/App.js:93 | swapping the two descriptions negates the comparison |
| ItemOrder.OrdinalCompareTransitive | src/App.js:93 | "not after" in description order is transitive |
| ItemOrder.Number | src/App.js:98 | a flag's number is 1 for true and 0 for false |
| ItemOrder.Compare | src/App.js:93 | input order compares every pair equal; description order returns -1, 0 or 1 and 0 exactly for equal descriptions; packed order is negative exactly for an unpacked item against a packed one and positive exactly for the reverse |
| ItemOrder.CompareAntisymmetric | src/App.js:90-98 | every mode's comparator is antisymmetric, so any two items are ordered one way or the other |
| ItemOrder.CompareTransitive | src/App.js:90-98 | every mode's comparator is transitive |
| ItemOrder.Insert | src/App.js:92-93 | inserting adds exactly one element: the result is the old sequence's multiset plus the item |
| ItemOrder.StableSort | src/App.js:92-98 | the sorted copy has the same length and is a permutation of the stored list |
| ItemOrder.InsertSorted | src/App.js:92-98 | inserting into a sorted sequence keeps it sorted |
| ItemOrder.StableSortSorted | src/App.js:92-98 | the sorted copy is in comparator order throughout |
| ItemOrder.DisjointClasses | src/App.js:92-98 | two items that do not compare equal never belong to the same class |
| ItemOrder.InsertGroup | src/App.js:92-98 | inserting an item adds it to its own class only, in front of that class's existing members |
| ItemOrder.StableSortGroup | src/App.js:92-98 | every class of comparator-equal items has the same members in the same order after sorting |
| ItemOrder.StableSortStable | src/App.js:92-98 | the sort is stable for every class at once |
| ItemOrder.StableSortInput | src/App.js:88 | with every pair comparing equal, the stable sort returns the stored list itself |
| ItemOrder.SameGroupsNonEmpty | src/App.js:92-98 | a non-empty sequence cannot have the same classes as the empty one |
| ItemOrder.SameGroupsSameHead | src/App.js:92-98 | two sorted sequences with the same classes start with the same item |
| ItemOrder.SameGroupsTail | src/App.js:92-98 | removing a common head keeps the classes equal |
| ItemOrder.StableSortUnique | src/App.js:92-98 | two sequences that are both sorted and have equal classes in equal order are equal |
| ItemOrder.StableSortIsTheStableSort | src/App.js:92-98 | any sorted, stable rearrangement of the list equals `StableSort` of it |
| ItemOrder.GroupPacked | src/App.js:98 | in packed order an item's class is the set of items with the same packed status, in input order |
| ItemOrder.SortedByPackedSplits | src/App.js:98 | a sequence with no packed item before an unpacked one is its unpacked items followed by its packed items |
| ItemOrder.AllPackedNoUnpacked | src/App.js:98 | in such a sequence, nothing after a packed head is unpacked |
| ItemOrder.PackedModePartition | src/App.js:95-98 | packed order gives the unpacked items in input order, then the packed items in input order |
| ItemOrder.DescriptionModeOrder | src/App.js:90-93 | in description order descriptions never decrease, and items with equal descriptions keep their input order |
| PackingStats.NumPacked | src/App.js:147 | the packed count is at most the list length; it equals the length exactly when all items are packed, and is 0 exactly when none is |
| PackingStats.NumPackedSingleton | src/App.js:147 | a one-item list counts 1 exactly when its item is packed |
| PackingStats.NumPackedAppend | src/App.js:147 | the count of a concatenation is the sum of the counts, so with the one-item case every packed item adds one and every unpacked item nothing |
| PackingStats.RoundsHalfUpUnique | src/App.js:148 | at most one integer is the half-up rounding of a ratio |
| PackingStats.HalfUpQuotient | src/App.js:148 | the integer quotient (200p + n) div 2n is the half-up rounding of 100p/n, and lies in 0..100 for p <= n |
| PackingStats.Percent | src/App.js:148 | the percentage is 100p/n rounded half up; it is between 0 and 100; it is 100 when all items are packed and 0 when none is |
| PackingStats.PercentHundredIff | src/App.js:148-154 | the percentage is 100 exactly when at least 99.5% of the items are packed |
| PackingStats.PercentNotAllPacked | src/App.js:148 | 199 packed out of 200 already rounds to 100, so 100 does not imply all packed |
| PackingStats.Stats | src/App.js:139-158 | an empty list gives exactly the prompt; the completion message appears exactly when the percentage is 100; otherwise the line shows the length, the packed count and the percentage, with fewer packed than items and a percentage below 100 |
| PackingStats.StatsAllPackedWhenEveryItemPacked | src/App.js:146-154 | a non-empty list with every item packed shows the completion message |
| PackingStats.StatsAllPackedIff | src/App.js:140-155 | the completion message appears exactly when the list is non-empty and at least 99.5% packed |
| PackingStats.StatsTwoOfFour | src/App.js:146-155 | four items with two packed show 4 items, 2 packed, 50 percent |
| FarAway.QuantityOptions | src/App.js:66 | the selector offers exactly the integers 1 to 20, twenty options |
| FarAway.App.constructor | src/App.js:4 | the list starts empty |
| FarAway.App.HandleAddItems | src/App.js:6-8 | the stored list becomes `Add` of the old one; quantities stay in range if the new item's is |
| FarAway.App.HandleDeleteItems | src/App.js:10-12 | the stored list becomes `Delete` of the old one; the quantity range and id uniqueness are preserved |
| FarAway.App.HandlePacked | src/App.js:14-20 | the stored list becomes `Toggle` of the old one; the quantity range and id uniqueness are preserved |
| FarAway.App.HandleClearList | src/App.js:22-27 | a confirmed clear leaves the list empty; a declined one leaves it unchanged |
| FarAway.Form.Valid | src/App.js:50-66 | the draft quantity is within 1..20, the values the selector offers |
| FarAway.Form.constructor | src/App.js:49-50 | the draft starts with description `""` and quantity 1 |
| FarAway.Form.SetQuantity | src/App.js:65 | the draft quantity becomes the chosen option's value; the description is kept |
| FarAway.Form.SetDescription | src/App.js:76 | the draft description becomes the typed text, empty included; the quantity is kept |
| FarAway.Form.HandleSubmit | src/App.js:52-60 | the new item is unpacked, has the draft's description and quantity and the given id, and has a quantity in 1..20; it is appended to the app's list; the draft is reset to `""` and 1 |
| FarAway.PackingList.constructor | src/App.js:84 | the view starts in input order |
| FarAway.PackingList.SetSortBy | src/App.js:112 | the selected order becomes the chosen one |
| FarAway.PackingList.SortedItems | src/App.js:86-98 | input order returns the stored list; every mode returns a permutation in comparator order that keeps each class of equal items in input order; packed order gives unpacked items before packed ones; nothing is modified |

## Left out

- JSX rendering is not modelled: `Logo`, the `Item` markup, the strike-through style,
  the checkbox's `value` binding and the option markup of both selectors. These are
  presentation only. Of the selectors, only the values 1..20 offered for the
  quantity are modelled (`QuantityOptions`).
- `window.confirm` is a blocking browser dialog. Its answer is the `confirmed`
  parameter.
- `Date.now()` reads the clock. Its value is the `now` parameter, and ids are not
  assumed unique.
- `e.preventDefault()` and the unused `[]` argument passed to the clear handler are
  not modelled. They are DOM plumbing.
- React's scheduling of state updates and re-renders is not modelled. Each handler
  applies its functional update at once.
- ItemOrder.OrdinalCompare: compares descriptions by code point, not by
  `localeCompare`'s locale collation. Locale collation is a foreign library whose
  order depends on the runtime locale.
- PackingStats.Percent: rounds the exact rational 100p/n. The source rounds the
  floating-point quotient times 100, which can land on the other side of a .5
  boundary: for 29 packed of 200 the product is just below 14.5, so the app shows
  14 where the model gives 15.
- The sort selector holds a string, and any value other than "input",
  "description" or "packed" would leave `sortedItems` undefined. `SortBy` has only
  the three values the selector offers.
- The source's `handleSubmit` returns nothing. `Form.HandleSubmit` returns the item it
  built, so its contract can name that item. The item is the one handed to the app.
