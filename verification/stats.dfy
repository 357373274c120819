/**
  The footer statistics: how many items there are, how many are packed, the packed share as a
  percentage rounded up, and which of three messages the footer shows.
 */
module Stats {
  import opened Wrappers
  import opened Seqs
  import opened Items

  /** The three footers. `Progress` carries the figures its message quotes. */
  datatype Footer = Ready | Progress(total: nat, packed: nat, percent: int) | StartAdding

  /** The number of packed items. */
  function PackedCount(items: seq<Item>): (n: nat)
    ensures n <= |items|
    ensures n == 0 <==> forall i :: 0 <= i < |items| ==> !items[i].packed
    ensures n == |items| <==> forall i :: 0 <= i < |items| ==> items[i].packed
  {
    FilterSplit(items, IsPacked, IsUnpacked);
    FilterFull(items, IsPacked);
    FilterFull(items, IsUnpacked);
    |Filter(items, IsPacked)|
  }

  /** `ceil(a / b)` for a non-negative numerator and a positive denominator. */
  function CeilDiv(a: nat, b: nat): (q: nat)
    requires b > 0
    ensures IsCeil(q, a, b)
  {
    var q := (a + b - 1) / b;
    var m := (a + b - 1) % b;
    assert q * b + m == a + b - 1;
    q
  }

  /** `q` is the least integer with `q * b >= a`. */
  ghost predicate IsCeil(q: int, a: int, b: int) {
    q * b >= a && (q - 1) * b < a
  }

  lemma MulMonotone(x: int, y: int, b: nat)
    requires x <= y
    ensures x * b <= y * b
  {
  }

  /** Only one integer is the ceiling of `a / b`. */
  lemma CeilUnique(q: int, r: int, a: int, b: nat)
    requires b > 0 && IsCeil(q, a, b) && IsCeil(r, a, b)
    ensures q == r
  {
  }

  lemma CeilAtMostHundred(q: int, p: nat, t: nat)
    requires t > 0 && p <= t && IsCeil(q, 100 * p, t)
    ensures q <= 100
  {
    MulMonotone(p, t, 100);
    if q > 100 {
      MulMonotone(100, q - 1, t);
    }
  }

  /**
    The packed share in percent, rounded up. An empty list has no share (`App.js` divides
    zero by zero there and gets `NaN`).
   */
  function Percentage(items: seq<Item>): (pct: Option<int>)
    ensures pct.Some? <==> |items| > 0
    ensures pct.Some? ==> IsCeil(pct.value, 100 * PackedCount(items), |items|)
    ensures pct.Some? ==> 0 <= pct.value <= 100
  {
    if |items| == 0 then None
    else
      var q := CeilDiv(100 * PackedCount(items), |items|);
      CeilAtMostHundred(q, PackedCount(items), |items|);
      Some(q)
  }

  /** The rounded-up percentage is 100 exactly when more than 99 per cent of the items are packed. */
  lemma PercentageFull(items: seq<Item>)
    ensures Percentage(items) == Some(100) <==> |items| > 0 && 100 * PackedCount(items) > 99 * |items|
  {
    var t, p := |items|, PackedCount(items);
    if t > 0 && 100 * p > 99 * t {
      MulMonotone(p, t, 100);
      CeilUnique(Percentage(items).value, 100, 100 * p, t);
    }
  }

  /**
    The footer as `App.js` chooses it: the ready message whenever the rounded-up percentage is
    100, otherwise the progress message whenever something is packed, otherwise the invitation
    to start adding items.
   */
  function FooterFor(items: seq<Item>): (f: Footer)
    ensures f == StartAdding <==> PackedCount(items) == 0
    ensures f == Ready <==> |items| > 0 && 100 * PackedCount(items) > 99 * |items|
    ensures f.Progress? ==> f.total == |items| && f.packed == PackedCount(items)
                            && Percentage(items) == Some(f.percent) && f.percent < 100
  {
    var pct := Percentage(items);
    var packed := PackedCount(items);
    PercentageFull(items);
    if pct != Some(100) then
      if packed > 0 then Progress(|items|, packed, pct.value)
      else StartAdding
    else Ready
  }

  /** For lists of at most 100 items the ready message means that every item is packed. */
  lemma ReadyMeansAllPackedUpToHundred(items: seq<Item>)
    requires |items| <= 100
    ensures FooterFor(items) == Ready <==> |items| > 0 && forall i :: 0 <= i < |items| ==> items[i].packed
  {
  }

  /** Beyond 100 items, a list with exactly one unpacked item still gets the ready message. */
  lemma ReadyDespiteOneUnpacked(items: seq<Item>)
    requires |items| > 100 && PackedCount(items) == |items| - 1
    ensures FooterFor(items) == Ready
    ensures exists i :: 0 <= i < |items| && !items[i].packed
  {
  }

  /** A concrete list: 100 packed items and one unpacked item. */
  function HundredPackedOneNot(): (items: seq<Item>)
    ensures |items| == 101 && !items[100].packed
    ensures PackedCount(items) == 100
  {
    var packed := seq(100, i => Item(i, "socks", 1, true));
    var last := Item(100, "tent", 1, false);
    FilterKeepsAll(packed, IsPacked);
    FilterAppend(packed, [last], IsPacked);
    assert Filter([last], IsPacked) == [];
    packed + [last]
  }

  /** The list above makes the footer claim that everything is ready. */
  lemma ReadyWithUnpackedItem()
    ensures FooterFor(HundredPackedOneNot()) == Ready
    ensures !HundredPackedOneNot()[100].packed
  {
  }

  /**
    The footer as evidently intended: the ready message only when the list is non-empty and every
    item is packed; the other two messages as `App.js` chooses them.
   */
  function IntendedFooter(items: seq<Item>): (f: Footer)
    ensures f == Ready <==> |items| > 0 && forall i :: 0 <= i < |items| ==> items[i].packed
    ensures f == StartAdding <==> PackedCount(items) == 0
    ensures f.Progress? ==> f.total == |items| && f.packed == PackedCount(items)
                            && Percentage(items) == Some(f.percent)
  {
    var packed := PackedCount(items);
    if |items| > 0 && packed == |items| then Ready
    else if packed > 0 then Progress(|items|, packed, Percentage(items).value)
    else StartAdding
  }

  /** Up to 100 items the footer of `App.js` and the intended one agree. */
  lemma FooterAgreesUpToHundred(items: seq<Item>)
    requires |items| <= 100
    ensures FooterFor(items) == IntendedFooter(items)
  {
  }
}
