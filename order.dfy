/**
  The three orders `PackingList` offers. "input" shows the stored sequence;
  "description" and "packed" sort a copy with `Array.prototype.sort` and a
  comparator. Section 23.1.3.30 of ECMA-262 (2023 edition) requires that sort
  to be stable: the result is a permutation, consecutive elements are in
  comparator order, and elements the comparator calls equal keep their
  relative order. `StableSort` below is a reference insertion sort with those
  three properties, and `StableSortUnique` shows that they determine the
  result, so any conforming engine produces exactly `StableSort`'s output.
*/
module ItemOrder {
  import opened Items

  /** The values of the sort selector: "input", "description", "packed". */
  datatype SortBy = Input | Description | Packed

  /** Ordinal (code-point) three-way comparison, standing in for
      `String.prototype.localeCompare`: negative, zero or positive. */
  function OrdinalCompare(a: string, b: string): (r: int)
    ensures -1 <= r <= 1
    ensures r == 0 <==> a == b
  {
    if a == [] && b == [] then 0
    else if a == [] then -1
    else if b == [] then 1
    else if a[0] < b[0] then -1
    else if a[0] > b[0] then 1
    else
      var r := OrdinalCompare(a[1..], b[1..]);
      assert r == 0 ==> a == [a[0]] + a[1..] == [b[0]] + b[1..] == b;
      r
  }

  /** Swapping the arguments negates the comparison. */
  lemma {:induction false} OrdinalCompareAntisymmetric(a: string, b: string)
    ensures OrdinalCompare(b, a) == -OrdinalCompare(a, b)
  {
    if a != [] && b != [] && a[0] == b[0] {
      OrdinalCompareAntisymmetric(a[1..], b[1..]);
    }
  }

  /** "Not after" is transitive. */
  lemma {:induction false} OrdinalCompareTransitive(a: string, b: string, c: string)
    requires OrdinalCompare(a, b) <= 0 && OrdinalCompare(b, c) <= 0
    ensures OrdinalCompare(a, c) <= 0
  {
    if a != [] && b != [] && c != [] && a[0] == b[0] == c[0] {
      OrdinalCompareTransitive(a[1..], b[1..], c[1..]);
    }
  }

  /** The numeric value of a flag: 0 for false, 1 for true. */
  function Number(b: bool): (r: int)
    ensures 0 <= r <= 1
    ensures r == 1 <==> b
  {
    if b then 1 else 0
  }

  /** The comparator each mode hands to `sort`. Input order sorts nothing;
      treating every pair as equal there makes the stable sort the identity
      (`StableSortInput`), so the properties below hold for all three modes. */
  function Compare(mode: SortBy, a: Item, b: Item): (r: int)
    ensures mode == Input ==> r == 0
    ensures mode == Description ==> -1 <= r <= 1 && (r == 0 <==> a.description == b.description)
    ensures mode == Packed ==> (r < 0 <==> !a.packed && b.packed) && (r > 0 <==> a.packed && !b.packed)
  {
    match mode
    case Input => 0
    case Description => OrdinalCompare(a.description, b.description)
    case Packed => Number(a.packed) - Number(b.packed)
  }

  lemma CompareAntisymmetric(mode: SortBy, a: Item, b: Item)
    ensures Compare(mode, b, a) == -Compare(mode, a, b)
  {
    if mode == Description {
      OrdinalCompareAntisymmetric(a.description, b.description);
    }
  }

  lemma CompareTransitive(mode: SortBy, a: Item, b: Item, c: Item)
    requires Compare(mode, a, b) <= 0 && Compare(mode, b, c) <= 0
    ensures Compare(mode, a, c) <= 0
  {
    if mode == Description {
      OrdinalCompareTransitive(a.description, b.description, c.description);
    }
  }

  /** Every earlier item is not after every later one in comparator order. */
  predicate Sorted(mode: SortBy, s: seq<Item>) {
    forall i, j :: 0 <= i < j < |s| ==> Compare(mode, s[i], s[j]) <= 0
  }

  /** The items of `s` that the comparator calls equal to `k`, in order. */
  function Group(mode: SortBy, s: seq<Item>, k: Item): (r: seq<Item>)
  {
    if s == [] then [] else Member(mode, s[0], k) + Group(mode, s[1..], k)
  }

  /** Stability: every class of comparator-equal items appears in `t` in the
      same order as in `s` (and with the same members). */
  ghost predicate SameGroups(mode: SortBy, s: seq<Item>, t: seq<Item>) {
    forall k :: Group(mode, t, k) == Group(mode, s, k)
  }

  // ---------------------------------------------------------------------
  // The reference stable sort
  // ---------------------------------------------------------------------

  /** Puts `x` in front of the first element it is not after. */
  function Insert(mode: SortBy, x: Item, t: seq<Item>): (r: seq<Item>)
    ensures |r| == |t| + 1
    ensures multiset(r) == multiset(t) + multiset{x}
  {
    if t == [] || Compare(mode, x, t[0]) <= 0 then [x] + t
    else
      assert t == [t[0]] + t[1..];
      [t[0]] + Insert(mode, x, t[1..])
  }

  /** Insertion sort that inserts each element before its equals. */
  function StableSort(mode: SortBy, s: seq<Item>): (r: seq<Item>)
    ensures |r| == |s|
    ensures multiset(r) == multiset(s)
  {
    if s == [] then []
    else
      assert s == [s[0]] + s[1..];
      Insert(mode, s[0], StableSort(mode, s[1..]))
  }

  /** Dropping the head of a sorted sequence leaves it sorted. */
  lemma SortedTail(mode: SortBy, t: seq<Item>)
    requires Sorted(mode, t) && t != []
    ensures Sorted(mode, t[1..])
  {
    var tail := t[1..];
    forall i, j | 0 <= i < j < |tail| ensures Compare(mode, tail[i], tail[j]) <= 0 {
      assert tail[i] == t[i + 1] && tail[j] == t[j + 1];
    }
  }

  /** A head that is not after any element of a sorted tail keeps it sorted. */
  lemma SortedCons(mode: SortBy, x: Item, t: seq<Item>)
    requires Sorted(mode, t)
    requires forall y :: y in t ==> Compare(mode, x, y) <= 0
    ensures Sorted(mode, [x] + t)
  {
    var r := [x] + t;
    forall i, j | 0 <= i < j < |r| ensures Compare(mode, r[i], r[j]) <= 0 {
      assert r[j] == t[j - 1] && r[j] in t;
      if i > 0 {
        assert r[i] == t[i - 1];
      }
    }
  }

  /** The elements of `Insert(mode, x, t)` are `x` and those of `t`. */
  lemma InsertElements(mode: SortBy, x: Item, t: seq<Item>, y: Item)
    requires y in Insert(mode, x, t)
    ensures y == x || y in t
  {
    assert y in multiset(Insert(mode, x, t));
  }

  lemma {:induction false} InsertSorted(mode: SortBy, x: Item, t: seq<Item>)
    requires Sorted(mode, t)
    ensures Sorted(mode, Insert(mode, x, t))
  {
    if t == [] || Compare(mode, x, t[0]) <= 0 {
      forall y | y in t ensures Compare(mode, x, y) <= 0 {
        var m :| 0 <= m < |t| && t[m] == y;
        if m > 0 {
          CompareTransitive(mode, x, t[0], y);
        }
      }
      SortedCons(mode, x, t);
    } else {
      var tail := t[1..];
      SortedTail(mode, t);
      InsertSorted(mode, x, tail);
      CompareAntisymmetric(mode, x, t[0]);
      forall y | y in Insert(mode, x, tail) ensures Compare(mode, t[0], y) <= 0 {
        InsertElements(mode, x, tail, y);
        if y != x {
          var m :| 0 <= m < |tail| && tail[m] == y;
          assert t[m + 1] == y;
        }
      }
      SortedCons(mode, t[0], Insert(mode, x, tail));
    }
  }

  /** The sort's output is in comparator order. */
  lemma {:induction false} StableSortSorted(mode: SortBy, s: seq<Item>)
    ensures Sorted(mode, StableSort(mode, s))
  {
    if s != [] {
      StableSortSorted(mode, s[1..]);
      InsertSorted(mode, s[0], StableSort(mode, s[1..]));
    }
  }

  /** `[x]` when `x` belongs to the class of `k`, otherwise `[]`. */
  function Member(mode: SortBy, x: Item, k: Item): (r: seq<Item>)
    ensures r == [] || r == [x]
  {
    if Compare(mode, x, k) == 0 then [x] else []
  }

  lemma GroupCons(mode: SortBy, x: Item, s: seq<Item>, k: Item)
    ensures Group(mode, [x] + s, k) == Member(mode, x, k) + Group(mode, s, k)
  {
    assert ([x] + s)[1..] == s;
  }

  /** Items that do not compare equal never share a class. */
  lemma DisjointClasses(mode: SortBy, a: Item, b: Item, k: Item)
    requires Compare(mode, a, b) != 0
    ensures Member(mode, a, k) == [] || Member(mode, b, k) == []
  {
    if Compare(mode, a, k) == 0 && Compare(mode, b, k) == 0 {
      CompareAntisymmetric(mode, b, k);
      CompareTransitive(mode, a, k, b);
      CompareTransitive(mode, b, k, a);
      CompareAntisymmetric(mode, a, b);
    }
  }

  /** Inserting `x` adds it to its own class only, and in front of it. */
  lemma {:induction false} InsertGroup(mode: SortBy, x: Item, t: seq<Item>, k: Item)
    ensures Group(mode, Insert(mode, x, t), k) == Member(mode, x, k) + Group(mode, t, k)
  {
    if t == [] || Compare(mode, x, t[0]) <= 0 {
      GroupCons(mode, x, t, k);
    } else {
      var tail := t[1..];
      var rest := Insert(mode, x, tail);
      assert Insert(mode, x, t) == [t[0]] + rest;
      assert t == [t[0]] + tail;
      GroupCons(mode, t[0], rest, k);
      InsertGroup(mode, x, tail, k);
      GroupCons(mode, t[0], tail, k);
      DisjointClasses(mode, x, t[0], k);
      var mx, mt, g := Member(mode, x, k), Member(mode, t[0], k), Group(mode, tail, k);
      assert mt + (mx + g) == mx + (mt + g) by {
        if mx == [] {
          assert mx + g == g && mx + (mt + g) == mt + g;
        } else {
          assert mt + (mx + g) == mx + g && mt + g == g;
        }
      }
    }
  }

  /** The sort is stable: each class keeps its members and their order. */
  lemma {:induction false} StableSortGroup(mode: SortBy, s: seq<Item>, k: Item)
    ensures Group(mode, StableSort(mode, s), k) == Group(mode, s, k)
  {
    if s != [] {
      StableSortGroup(mode, s[1..], k);
      InsertGroup(mode, s[0], StableSort(mode, s[1..]), k);
      GroupCons(mode, s[0], s[1..], k);
      assert s == [s[0]] + s[1..];
    }
  }

  lemma StableSortStable(mode: SortBy, s: seq<Item>)
    ensures SameGroups(mode, s, StableSort(mode, s))
  {
    forall k {
      StableSortGroup(mode, s, k);
    }
  }

  /** In input order every pair compares equal, and the stable sort returns
      the stored sequence itself. */
  lemma {:induction false} StableSortInput(s: seq<Item>)
    ensures StableSort(Input, s) == s
  {
    if s != [] {
      StableSortInput(s[1..]);
      assert s == [s[0]] + s[1..];
    }
  }

  // ---------------------------------------------------------------------
  // What ECMA-262 requires determines the result
  // ---------------------------------------------------------------------

  lemma {:induction false} GroupHead(mode: SortBy, s: seq<Item>, k: Item)
    requires s != [] && Compare(mode, s[0], k) == 0
    ensures Group(mode, s, k) == [s[0]] + Group(mode, s[1..], k)
  {
  }

  /** The first member of a non-empty class is an element of the sequence. */
  lemma {:induction false} GroupFirst(mode: SortBy, s: seq<Item>, k: Item)
    requires Group(mode, s, k) != []
    ensures exists m :: 0 <= m < |s| && Group(mode, s, k)[0] == s[m]
  {
    if Compare(mode, s[0], k) != 0 {
      GroupFirst(mode, s[1..], k);
      var m :| 0 <= m < |s[1..]| && Group(mode, s[1..], k)[0] == s[1..][m];
      assert s[m + 1] == s[1..][m];
    }
  }

  /** In a sorted sequence whose class of `k` starts with `k`, the head is
      not after `k`. */
  lemma HeadNotAfter(mode: SortBy, t: seq<Item>, k: Item)
    requires Sorted(mode, t) && Group(mode, t, k) != [] && Group(mode, t, k)[0] == k
    ensures Compare(mode, t[0], k) <= 0
  {
    GroupFirst(mode, t, k);
    var m :| 0 <= m < |t| && Group(mode, t, k)[0] == t[m];
    CompareAntisymmetric(mode, k, k);
  }

  /** A non-empty sequence has a non-empty class, so it cannot have the
      same classes as the empty sequence. */
  lemma SameGroupsNonEmpty(mode: SortBy, t1: seq<Item>, t2: seq<Item>)
    requires SameGroups(mode, t1, t2) && t1 != []
    ensures t2 != []
  {
    CompareAntisymmetric(mode, t1[0], t1[0]);
    GroupHead(mode, t1, t1[0]);
    assert Group(mode, t2, t1[0]) == Group(mode, t1, t1[0]);
  }

  /** Two sorted sequences with the same classes start with the same item. */
  lemma SameGroupsSameHead(mode: SortBy, t1: seq<Item>, t2: seq<Item>)
    requires Sorted(mode, t1) && Sorted(mode, t2) && SameGroups(mode, t1, t2)
    requires t1 != [] && t2 != []
    ensures t1[0] == t2[0]
  {
    var a, b := t1[0], t2[0];
    CompareAntisymmetric(mode, a, a);
    CompareAntisymmetric(mode, b, b);
    GroupHead(mode, t1, a);
    GroupHead(mode, t2, b);
    assert Group(mode, t2, a) == Group(mode, t1, a);
    assert Group(mode, t1, b) == Group(mode, t2, b);
    // Each head occurs in the other sequence, so the heads compare equal.
    HeadNotAfter(mode, t2, a);
    HeadNotAfter(mode, t1, b);
    CompareAntisymmetric(mode, a, b);
    // Hence the class of `a` in t2 starts with b, and with a.
    GroupHead(mode, t2, a);
  }

  /** Removing a common head keeps the classes equal. */
  lemma SameGroupsTail(mode: SortBy, a: Item, r1: seq<Item>, r2: seq<Item>)
    requires SameGroups(mode, [a] + r1, [a] + r2)
    ensures SameGroups(mode, r1, r2)
  {
    forall k ensures Group(mode, r2, k) == Group(mode, r1, k) {
      GroupCons(mode, a, r1, k);
      GroupCons(mode, a, r2, k);
      var h := Member(mode, a, k);
      assert h + Group(mode, r2, k) == h + Group(mode, r1, k);
      assert Group(mode, r1, k) == (h + Group(mode, r1, k))[|h|..];
      assert Group(mode, r2, k) == (h + Group(mode, r2, k))[|h|..];
    }
  }

  /** Two sequences that are both sorted and have the same classes in the
      same order are equal: a stable sort has only one possible result. */
  lemma {:induction false} StableSortUnique(mode: SortBy, t1: seq<Item>, t2: seq<Item>)
    requires Sorted(mode, t1) && Sorted(mode, t2)
    requires SameGroups(mode, t1, t2)
    ensures t1 == t2
  {
    if t1 != [] {
      SameGroupsNonEmpty(mode, t1, t2);
    }
    if t2 != [] {
      forall k ensures Group(mode, t2, k) == Group(mode, t1, k) {
        assert Group(mode, t1, k) == Group(mode, t2, k);
      }
      SameGroupsNonEmpty(mode, t2, t1);
    }
    if t1 != [] {
      SameGroupsSameHead(mode, t1, t2);
      var a, r1, r2 := t1[0], t1[1..], t2[1..];
      assert t1 == [a] + r1 && t2 == [a] + r2;
      SortedTail(mode, t1);
      SortedTail(mode, t2);
      SameGroupsTail(mode, a, r1, r2);
      StableSortUnique(mode, r1, r2);
    }
  }

  /** Any stable sort of `s` (sorted, same classes in the same order) is
      exactly `StableSort(mode, s)`. */
  lemma StableSortIsTheStableSort(mode: SortBy, s: seq<Item>, t: seq<Item>)
    requires Sorted(mode, t) && SameGroups(mode, s, t)
    ensures t == StableSort(mode, s)
  {
    StableSortSorted(mode, s);
    StableSortStable(mode, s);
    StableSortUnique(mode, t, StableSort(mode, s));
  }

  // ---------------------------------------------------------------------
  // The two sorting modes in their own terms
  // ---------------------------------------------------------------------

  /** The unpacked items of `s` when `p` is false, the packed ones when true. */
  function WithPacked(s: seq<Item>, p: bool): (r: seq<Item>)
  {
    if s == [] then []
    else (if s[0].packed == p then [s[0]] else []) + WithPacked(s[1..], p)
  }

  lemma {:induction false} GroupPacked(s: seq<Item>, k: Item)
    ensures Group(Packed, s, k) == WithPacked(s, k.packed)
  {
    if s != [] {
      GroupPacked(s[1..], k);
    }
  }

  /** A sequence with no packed item before an unpacked one is its unpacked
      items followed by its packed items. */
  lemma {:induction false} SortedByPackedSplits(t: seq<Item>)
    requires Sorted(Packed, t)
    ensures t == WithPacked(t, false) + WithPacked(t, true)
  {
    if t != [] {
      var tail := t[1..];
      assert Sorted(Packed, tail) by {
        forall i, j | 0 <= i < j < |tail| ensures Compare(Packed, tail[i], tail[j]) <= 0 {
          assert tail[i] == t[i + 1] && tail[j] == t[j + 1];
        }
      }
      SortedByPackedSplits(tail);
      if t[0].packed {
        assert WithPacked(tail, false) == [] by {
          AllPackedNoUnpacked(t);
        }
      }
      assert t == [t[0]] + tail;
    }
  }

  lemma {:induction false} AllPackedNoUnpacked(t: seq<Item>)
    requires Sorted(Packed, t) && t != [] && t[0].packed
    ensures WithPacked(t[1..], false) == []
  {
    var tail := t[1..];
    if tail != [] {
      assert Compare(Packed, t[0], t[1]) <= 0;
      assert Sorted(Packed, tail) by {
        forall i, j | 0 <= i < j < |tail| ensures Compare(Packed, tail[i], tail[j]) <= 0 {
          assert tail[i] == t[i + 1] && tail[j] == t[j + 1];
        }
      }
      AllPackedNoUnpacked(tail);
    }
  }

  /** Packed mode is a stable partition: every unpacked item, in input
      order, followed by every packed item, in input order. */
  lemma PackedModePartition(s: seq<Item>)
    ensures StableSort(Packed, s) == WithPacked(s, false) + WithPacked(s, true)
  {
    var t := StableSort(Packed, s);
    StableSortSorted(Packed, s);
    SortedByPackedSplits(t);
    var u := Item(0, "", MinQuantity, false);
    var p := Item(0, "", MinQuantity, true);
    StableSortGroup(Packed, s, u);
    StableSortGroup(Packed, s, p);
    GroupPacked(s, u);
    GroupPacked(t, u);
    GroupPacked(s, p);
    GroupPacked(t, p);
  }

  /** Description mode: descriptions never decrease along the result, and
      items with equal descriptions keep their input order. */
  lemma DescriptionModeOrder(s: seq<Item>)
    ensures var t := StableSort(Description, s);
      && (forall i, j :: 0 <= i < j < |t| ==> OrdinalCompare(t[i].description, t[j].description) <= 0)
      && (forall k :: Group(Description, t, k) == Group(Description, s, k))
  {
    StableSortSorted(Description, s);
    StableSortStable(Description, s);
  }
}
