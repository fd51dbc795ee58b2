/**
  The `Stats` footer: a prompt for an empty list, otherwise the number of
  items, the number packed and the rounded percentage packed, or the
  completion message once that percentage is 100.

  The source divides the packed count by the item count in floating point,
  multiplies by 100 and rounds with `Math.round`. Here the same rounding is done exactly on integers: `Math.round`
  returns the integer `r` with `r - 1/2 <= x < r + 1/2` (halves go up), which
  for `x = 100 * p / n` is `(200 * p + n) div (2 * n)`.
*/
module PackingStats {
  import opened Items

  /** What the footer shows. */
  datatype StatsLine =
    | StartAdding                                          // "Start adding items ..."
    | AllPacked                                            // "You got everything! ..."
    | Progress(numItems: nat, numPacked: nat, percent: int)

  /** The number of packed items. Together with `NumPackedAppend` and
      `NumPackedSingleton` the contract fixes the count: each packed item
      adds one, each unpacked item nothing. */
  function NumPacked(items: seq<Item>): (r: nat)
    ensures r <= |items|
    ensures r == |items| <==> forall i :: 0 <= i < |items| ==> items[i].packed
    ensures r == 0 <==> forall i :: 0 <= i < |items| ==> !items[i].packed
  {
    if items == [] then 0
    else
      assert forall i :: 1 <= i < |items| ==> items[i] == items[1..][i - 1];
      (if items[0].packed then 1 else 0) + NumPacked(items[1..])
  }

  /** A one-item list counts one exactly when its item is packed. */
  lemma NumPackedSingleton(x: Item)
    ensures NumPacked([x]) == if x.packed then 1 else 0
  {
    assert [x][1..] == [];
  }

  /** The count of a concatenation is the sum of the counts of its parts. */
  lemma {:induction false} NumPackedAppend(a: seq<Item>, b: seq<Item>)
    ensures NumPacked(a + b) == NumPacked(a) + NumPacked(b)
  {
    if a == [] {
      assert a + b == b;
    } else {
      assert (a + b)[0] == a[0];
      assert (a + b)[1..] == a[1..] + b;
      NumPackedAppend(a[1..], b);
    }
  }

  /** `r` is `num / den` rounded to the nearest integer, halves up, as
      `Math.round` does. */
  predicate RoundsHalfUp(num: int, den: int, r: int)
    requires den > 0
  {
    den * (2 * r - 1) <= 2 * num < den * (2 * r + 1)
  }

  /** At most one integer rounds a given ratio. */
  lemma RoundsHalfUpUnique(num: int, den: int, r1: int, r2: int)
    requires den > 0
    requires RoundsHalfUp(num, den, r1) && RoundsHalfUp(num, den, r2)
    ensures r1 == r2
  {
    if r1 < r2 {
      MulMonotone(den, 2 * r1 + 1, 2 * r2 - 1);
    } else if r2 < r1 {
      MulMonotone(den, 2 * r2 + 1, 2 * r1 - 1);
    }
  }

  lemma MulMonotone(d: int, a: int, b: int)
    requires d > 0 && a <= b
    ensures d * a <= d * b
  {
  }

  /** The integer quotient `(200 * p + n) div (2 * n)` rounds `100 * p / n`
      half up, and lies in [0, 100] for `p <= n`. */
  lemma HalfUpQuotient(p: nat, n: nat, r: int)
    requires n > 0 && r == (200 * p + n) / (2 * n)
    ensures RoundsHalfUp(100 * p, n, r)
    ensures 0 <= r
    ensures p <= n ==> r <= 100
    ensures p == n ==> r == 100
    ensures p == 0 ==> r == 0
  {
    assert 2 * n * r <= 200 * p + n < 2 * n * r + 2 * n;
    assert n * (2 * r - 1) == 2 * n * r - n;
    assert n * (2 * r + 1) == 2 * n * r + n;
    if p <= n && r > 100 {
      MulMonotone(n, 201, 2 * r - 1);
    }
    if p == n && r < 100 {
      MulMonotone(n, 2 * r + 1, 199);
    }
    if p == 0 && r > 0 {
      MulMonotone(n, 1, 2 * r - 1);
    }
  }

  /** The percentage of `numItems` that `numPacked` is, rounded as
      `Math.round` rounds. */
  function Percent(numPacked: nat, numItems: nat): (r: int)
    requires numItems > 0
    ensures RoundsHalfUp(100 * numPacked, numItems, r)
    ensures 0 <= r
    ensures numPacked <= numItems ==> r <= 100
    ensures numPacked == numItems ==> r == 100
    ensures numPacked == 0 ==> r == 0
  {
    var r := (200 * numPacked + numItems) / (2 * numItems);
    HalfUpQuotient(numPacked, numItems, r);
    r
  }

  /** The percentage reaches 100 exactly when at least 99.5% of the items
      are packed, so 100 does not mean that every item is packed. */
  lemma PercentHundredIff(numPacked: nat, numItems: nat)
    requires 0 < numItems && numPacked <= numItems
    ensures Percent(numPacked, numItems) == 100 <==> 200 * numPacked >= 199 * numItems
  {
    var r := Percent(numPacked, numItems);
    if r == 100 {
      assert numItems * 199 <= 200 * numPacked;
    } else {
      assert r <= 99;
      MulMonotone(numItems, 2 * r + 1, 199);
    }
  }

  /** 199 packed out of 200 already rounds to 100. */
  lemma PercentNotAllPacked()
    ensures Percent(199, 200) == 100
  {
    PercentHundredIff(199, 200);
  }

  /** The footer for the current list. */
  function Stats(items: seq<Item>): (r: StatsLine)
    ensures r == StartAdding <==> items == []
    ensures r == AllPacked <==> items != [] && Percent(NumPacked(items), |items|) == 100
    ensures r.Progress? ==>
      && r.numItems == |items|
      && r.numPacked == NumPacked(items)
      && r.percent == Percent(r.numPacked, r.numItems)
      && r.numPacked < r.numItems
      && 0 <= r.percent < 100
  {
    if |items| == 0 then StartAdding
    else
      var numItems := |items|;
      var numPacked := NumPacked(items);
      var percent := Percent(numPacked, numItems);
      if percent == 100 then AllPacked else Progress(numItems, numPacked, percent)
  }

  /** A non-empty list whose items are all packed shows the completion
      message. */
  lemma StatsAllPackedWhenEveryItemPacked(items: seq<Item>)
    requires items != []
    requires forall i :: 0 <= i < |items| ==> items[i].packed
    ensures Stats(items) == AllPacked
  {
  }

  /** The completion message appears exactly when at least 99.5% of a
      non-empty list is packed. */
  lemma StatsAllPackedIff(items: seq<Item>)
    ensures Stats(items) == AllPacked <==> items != [] && 200 * NumPacked(items) >= 199 * |items|
  {
    if items != [] {
      PercentHundredIff(NumPacked(items), |items|);
    }
  }

  /** Four items with two packed: 4 items, 2 packed, 50 percent. */
  lemma StatsTwoOfFour(a: Item, b: Item, c: Item, d: Item)
    requires a.packed && !b.packed && c.packed && !d.packed
    ensures Stats([a, b, c, d]) == Progress(4, 2, 50)
  {
    var s := [a, b, c, d];
    assert [d][1..] == [];
    assert NumPacked([d]) == 0;
    assert [c, d][1..] == [d];
    assert NumPacked([c, d]) == 1;
    assert [b, c, d][1..] == [c, d];
    assert NumPacked([b, c, d]) == 1;
    assert s[1..] == [b, c, d];
    assert NumPacked(s) == 2;
  }
}
