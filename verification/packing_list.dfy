/**
  The list of items owned by the root `App` component and the four handlers that replace it:
  append, delete by id, toggle by id and clear after confirmation. Each handler is a pure
  function from the previous list to the next.

  Ids come from the clock and nothing keeps them unique, so delete and toggle act on every
  item that carries the given id.
 */
module PackingList {
  import opened Seqs
  import opened Items

  /** `addParkItem`: the new item goes at the end. */
  function Add(items: seq<Item>, item: Item): (r: seq<Item>)
    ensures |r| == |items| + 1
    ensures r[..|items|] == items
    ensures r[|items|] == item
  {
    items + [item]
  }

  /** `handleDeleteItem`: keeps, in order, exactly the items whose id differs from `id`. */
  function Delete(items: seq<Item>, id: Id): (r: seq<Item>)
    ensures IsSubsequence(r, items)
    ensures forall i :: 0 <= i < |r| ==> r[i].id != id
    ensures |r| + |Filter(items, HasId(id))| == |items|
  {
    FilterIsSubsequence(items, LacksId(id));
    FilterSplit(items, HasId(id), LacksId(id));
    Filter(items, LacksId(id))
  }

  /** `handleToggleItem`: flips `packed` on every item with the id and on no other. */
  function Toggle(items: seq<Item>, id: Id): (r: seq<Item>)
    ensures |r| == |items|
    ensures forall i :: 0 <= i < |items| ==>
              r[i].id == items[i].id && r[i].description == items[i].description
              && r[i].quantity == items[i].quantity
    ensures forall i :: 0 <= i < |items| ==> (r[i].packed != items[i].packed <==> items[i].id == id)
  {
    seq(|items|, i requires 0 <= i < |items| => if items[i].id == id then Flip(items[i]) else items[i])
  }

  /** `handleClearAll`: the list is emptied only when the user confirms. */
  function ClearAll(items: seq<Item>, confirmed: bool): (r: seq<Item>)
    ensures confirmed ==> r == []
    ensures !confirmed ==> r == items
  {
    if confirmed then [] else items
  }

  /** Deleting an id that no item carries leaves the list as it was. */
  lemma DeleteAbsent(items: seq<Item>, id: Id)
    requires forall i :: 0 <= i < |items| ==> items[i].id != id
    ensures Delete(items, id) == items
  {
    FilterKeepsAll(items, LacksId(id));
  }

  /** Deleting twice is deleting once. */
  lemma DeleteIdempotent(items: seq<Item>, id: Id)
    ensures Delete(Delete(items, id), id) == Delete(items, id)
  {
    DeleteAbsent(Delete(items, id), id);
  }

  /** When exactly one item carries the id, delete removes that item and only it. */
  lemma DeleteUnique(items: seq<Item>, id: Id, k: nat)
    requires k < |items| && items[k].id == id
    requires forall i :: 0 <= i < |items| && i != k ==> items[i].id != id
    ensures Delete(items, id) == items[..k] + items[k + 1..]
  {
    FilterDropsOne(items, LacksId(id), k);
  }

  /** Deleting the id of a just-added item also deletes every older item with that id. */
  lemma DeleteAfterAdd(items: seq<Item>, item: Item)
    ensures Delete(Add(items, item), item.id) == Delete(items, item.id)
  {
    FilterAppend(items, [item], LacksId(item.id));
    assert Filter([item], LacksId(item.id)) == [];
  }

  /** Toggling an id that no item carries leaves the list as it was. */
  lemma ToggleAbsent(items: seq<Item>, id: Id)
    requires forall i :: 0 <= i < |items| ==> items[i].id != id
    ensures Toggle(items, id) == items
  {
  }

  /** Toggling the same id twice restores the list. */
  lemma ToggleTwice(items: seq<Item>, id: Id)
    ensures Toggle(Toggle(items, id), id) == items
  {
  }

  /** Toggles of two ids commute. */
  lemma ToggleCommutes(items: seq<Item>, a: Id, b: Id)
    ensures Toggle(Toggle(items, a), b) == Toggle(Toggle(items, b), a)
  {
  }

  /** Deleting an id after toggling it is the same as deleting it directly. */
  lemma {:induction false} DeleteAfterToggle(items: seq<Item>, id: Id)
    ensures Delete(Toggle(items, id), id) == Delete(items, id)
    decreases |items|
  {
    if |items| != 0 {
      var t := Toggle(items, id);
      assert t[1..] == Toggle(items[1..], id);
      DeleteAfterToggle(items[1..], id);
    }
  }
}
