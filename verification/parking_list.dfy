/**
  The list view's display ordering. The view keeps a sort selection of its own and derives the
  order it renders from the items; the items themselves are never reordered, so every mode is a
  function of the list and the selection only.
 */
module ParkingList {
  import opened Seqs
  import opened Items
  import opened StableSort

  /** The four options of the sort drop-down. */
  datatype SortBy = Input | Description | Packed | Number

  function PackedRank(packed: bool): int {
    if packed then 1 else 0
  }

  /** `Number(b.packed - a.packed)`: packed items first. */
  function PackedCompare(a: Item, b: Item): (r: int)
    ensures r < 0 <==> a.packed && !b.packed
    ensures r > 0 <==> b.packed && !a.packed
  {
    PackedRank(b.packed) - PackedRank(a.packed)
  }

  /** `b.quantity - a.quantity`: larger quantities first. */
  function NumberCompare(a: Item, b: Item): (r: int)
    ensures r < 0 <==> a.quantity > b.quantity
    ensures r > 0 <==> b.quantity > a.quantity
  {
    b.quantity - a.quantity
  }

  /**
    `a.description.localeCompare(b.description)`, for a given collation: an item sorts first when
    its description collates first, and the item order is consistent whenever the collation is.
   */
  function DescriptionCompare(localeCompare: (string, string) -> int): (r: (Item, Item) -> int)
    ensures forall a, b :: r(a, b) < 0 <==> localeCompare(a.description, b.description) < 0
    ensures Consistent(localeCompare) ==> Consistent(r)
  {
    var r := (a: Item, b: Item) => localeCompare(a.description, b.description);
    ComparesDescriptions(localeCompare, r);
    r
  }

  /** A comparator that compares items by their descriptions inherits the collation's consistency. */
  lemma ComparesDescriptions(localeCompare: (string, string) -> int, cmp: (Item, Item) -> int)
    requires forall a, b :: cmp(a, b) == localeCompare(a.description, b.description)
    ensures Consistent(localeCompare) ==> Consistent(cmp)
  {
    if Consistent(localeCompare) {
      forall a: Item, b: Item
        ensures cmp(a, b) < 0 <==> cmp(b, a) > 0
      {
        assert localeCompare(a.description, b.description) < 0
           <==> localeCompare(b.description, a.description) > 0;
      }
      forall a: Item, b: Item, c: Item | cmp(a, b) <= 0 && cmp(b, c) <= 0
        ensures cmp(a, c) <= 0
      {
        assert localeCompare(a.description, b.description) <= 0;
        assert localeCompare(b.description, c.description) <= 0;
      }
    }
  }

  /**
    The order the list view renders for a selection. `localeCompare` is the host's string
    collation, which only the description mode consults.
   */
  function Displayed(items: seq<Item>, sortBy: SortBy, localeCompare: (string, string) -> int): (r: seq<Item>)
    ensures multiset(r) == multiset(items)
    ensures sortBy == Input ==> r == items
  {
    match sortBy
    case Input => items
    case Description => Sort(items, DescriptionCompare(localeCompare))
    case Packed => Sort(items, PackedCompare)
    case Number => Sort(items, NumberCompare)
  }

  lemma PackedCompareConsistent()
    ensures Consistent(PackedCompare)
  {
  }

  lemma NumberCompareConsistent()
    ensures Consistent(NumberCompare)
  {
  }

  lemma DescriptionCompareConsistent(localeCompare: (string, string) -> int)
    requires Consistent(localeCompare)
    ensures Consistent(DescriptionCompare(localeCompare))
  {
  }

  /**
    Packed mode lists the packed items in input order, then the unpacked ones in input order:
    every packed item precedes every unpacked one and ties keep their order.
   */
  lemma PackedFirst(items: seq<Item>, localeCompare: (string, string) -> int)
    ensures Displayed(items, Packed, localeCompare) == Filter(items, IsPacked) + Filter(items, IsUnpacked)
  {
    PackedSortIsPartition(items);
  }

  lemma PackedSortIsPartition(items: seq<Item>)
    ensures Sort(items, PackedCompare) == Filter(items, IsPacked) + Filter(items, IsUnpacked)
  {
    PackedCompareConsistent();
    PartitionPermutation(items);
    PartitionSorted(items);
    PartitionStable(items);
    SortIsTheStableSort(items, Filter(items, IsPacked) + Filter(items, IsUnpacked), PackedCompare);
  }

  lemma PartitionPermutation(items: seq<Item>)
    ensures multiset(Filter(items, IsPacked) + Filter(items, IsUnpacked)) == multiset(items)
  {
    FilterSplit(items, IsPacked, IsUnpacked);
  }

  lemma PackedTied(e: Item, x: Item)
    ensures Tied(PackedCompare, e)(x) <==> x.packed == e.packed
  {
    assert Tied(PackedCompare, e)(x) == (PackedCompare(e, x) == 0);
  }

  lemma PartitionSorted(items: seq<Item>)
    ensures Sorted(Filter(items, IsPacked) + Filter(items, IsUnpacked), PackedCompare)
  {
  }

  lemma PartitionStable(items: seq<Item>)
    ensures Stable(Filter(items, IsPacked) + Filter(items, IsUnpacked), items, PackedCompare)
  {
    forall e
      ensures Filter(Filter(items, IsPacked) + Filter(items, IsUnpacked), Tied(PackedCompare, e))
           == Filter(items, Tied(PackedCompare, e))
    {
      PartitionTies(items, e);
    }
  }

  lemma PartitionTies(items: seq<Item>, e: Item)
    ensures Filter(Filter(items, IsPacked) + Filter(items, IsUnpacked), Tied(PackedCompare, e))
         == Filter(items, Tied(PackedCompare, e))
  {
    var ps, us := Filter(items, IsPacked), Filter(items, IsUnpacked);
    var t := Tied(PackedCompare, e);
    forall x ensures t(x) <==> x.packed == e.packed {
      PackedTied(e, x);
    }
    FilterAppend(ps, us, t);
    if e.packed {
      FilterCongruent(items, t, IsPacked);
      FilterKeepsAll(ps, t);
      FilterNone(us, t);
    } else {
      FilterCongruent(items, t, IsUnpacked);
      FilterNone(ps, t);
      FilterKeepsAll(us, t);
    }
  }

  /**
    Number mode lists quantities from largest to smallest, and items with equal quantities keep
    their input order.
   */
  lemma NumberDescending(items: seq<Item>, localeCompare: (string, string) -> int)
    ensures var r := Displayed(items, Number, localeCompare);
            && (forall i, j :: 0 <= i < j < |r| ==> r[i].quantity >= r[j].quantity)
            && (forall q :: Filter(r, WithQuantity(q)) == Filter(items, WithQuantity(q)))
  {
    var r := Displayed(items, Number, localeCompare);
    assert r == Sort(items, NumberCompare);
    QuantitiesDescend(items);
    assert forall i, j :: 0 <= i < j < |r| ==> r[i].quantity >= r[j].quantity;
    forall q
      ensures Filter(r, WithQuantity(q)) == Filter(items, WithQuantity(q))
    {
      QuantityTies(items, q);
    }
  }

  lemma QuantitiesDescend(items: seq<Item>)
    ensures forall i, j :: 0 <= i < j < |Sort(items, NumberCompare)| ==>
              Sort(items, NumberCompare)[i].quantity >= Sort(items, NumberCompare)[j].quantity
  {
    NumberCompareConsistent();
    SortSorted(items, NumberCompare);
  }

  lemma QuantityTies(items: seq<Item>, q: int)
    ensures Filter(Sort(items, NumberCompare), WithQuantity(q)) == Filter(items, WithQuantity(q))
  {
    var e := Item(0, [], q, false);
    var t := Tied(NumberCompare, e);
    var r := Sort(items, NumberCompare);
    forall x
      ensures t(x) == WithQuantity(q)(x)
    {
      assert t(x) == (NumberCompare(e, x) == 0);
    }
    NumberCompareConsistent();
    SortKeepsTies(items, NumberCompare, e);
    FilterCongruent(r, t, WithQuantity(q));
    FilterCongruent(items, t, WithQuantity(q));
  }

  function WithQuantity(q: int): Item -> bool {
    (it: Item) => it.quantity == q
  }

  /**
    Description mode orders the items by the collation, and items the collation ranks equal keep
    their input order, provided the collation is itself consistent.
   */
  lemma DescriptionOrdered(items: seq<Item>, localeCompare: (string, string) -> int)
    requires Consistent(localeCompare)
    ensures var r := Displayed(items, Description, localeCompare);
            && (forall i, j :: 0 <= i < j < |r| ==> localeCompare(r[i].description, r[j].description) <= 0)
            && Stable(r, items, DescriptionCompare(localeCompare))
  {
    var cmp := DescriptionCompare(localeCompare);
    var r := Displayed(items, Description, localeCompare);
    DescriptionCompareConsistent(localeCompare);
    SortSorted(items, cmp);
    SortStable(items, cmp);
    assert forall i, j :: 0 <= i < j < |r| ==> cmp(r[i], r[j]) <= 0;
  }
}
