/** The one entity of the packing list. */
module Items {

  /** Item ids are millisecond timestamps read from the clock when the item is created. */
  type Id = int

  datatype Item = Item(id: Id, description: string, quantity: int, packed: bool)

  predicate IsPacked(it: Item) {
    it.packed
  }

  predicate IsUnpacked(it: Item) {
    !it.packed
  }

  function HasId(id: Id): Item -> bool {
    (it: Item) => it.id == id
  }

  function LacksId(id: Id): Item -> bool {
    (it: Item) => it.id != id
  }

  /** The same item with its `packed` flag inverted (`{ ...item, packed: !item.packed }`). */
  function Flip(it: Item): (r: Item)
    ensures r.packed != it.packed
    ensures r.id == it.id && r.description == it.description && r.quantity == it.quantity
  {
    it.(packed := !it.packed)
  }
}
