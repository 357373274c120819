# Far Away packing list — a Dafny model

Far Away is a one-screen React page on which a traveller keeps a packing list. The root `App`
component owns the list of items (id, description, quantity, packed flag). A form appends items.
Each row can be ticked as packed or deleted. A button clears the whole list after a confirmation
dialog. The list view offers four display orders, and a footer reports how much is packed.

This project models that logic in Dafny as immutable values and pure functions:

- `Items`: the item record.
- `PackingList`: the four list handlers of `App` (append, delete by id, toggle by id, clear after
  confirmation).
- `Form`: the form's two local fields, the quantity drop-down and the submit handler.
- `StableSort`: `Array.prototype.sort` with a compare function, as a stable insertion sort. It
  comes with a proof that, for a consistent comparator, any ordered, stable rearrangement equals it.
- `ParkingList`: the list view's four sort modes.
- `Stats`: the footer's counts, its rounded-up percentage and its choice among three messages.
- `App`: the root component as a state machine over user events, with the invariant that every
  item in the list has a non-empty description and a quantity from 1 to 20.
- `Seqs`, `Wrappers`: sequence filtering (JavaScript's `filter`) and `Option`.

Where the behaviour of `src/App.js` differs from how the page is usually described, the model
follows the code:

- Ids are clock readings (`Date.now()`) and may repeat. Delete therefore removes every item with
  the id (`App.SameMillisecondDuplicates`), and toggle flips every such item (`PackingList.Toggle`).
- The "start adding" message shows whenever nothing is packed. This includes a non-empty list,
  not only an empty one (`Stats.FooterFor`).

## Model

| member | source | states |
|---|---|---|
| `PackingList.Add` | src/App.js:12-14 | the new item is at the end; the list grows by exactly one and every earlier item stays in place |
| `PackingList.Delete` | src/App.js:16-18 | the result is a subsequence of the list (relative order kept), holds no item with the id, and is shorter by exactly the number of items carrying the id |
| `PackingList.Toggle` | src/App.js:20-26 | same length and order; ids, descriptions and quantities unchanged; `packed` changes on an item exactly when its id matches |
| `PackingList.ClearAll` | src/App.js:28-33 | a confirmed clear empties the list; a declined one leaves it unchanged |
| `PackingList.DeleteAbsent` | src/App.js:16-18 | deleting an id no item carries is the identity |
| `PackingList.DeleteIdempotent` | src/App.js:16-18 | deleting the same id twice equals deleting it once |
| `PackingList.DeleteUnique` | src/App.js:16-18 | when exactly one item (at index k) has the id, delete removes that item and keeps the rest in order |
| `PackingList.DeleteAfterAdd` | src/App.js:12-18 | deleting the id of a just-appended item also removes every older item that shares its id |
| `PackingList.ToggleAbsent` | src/App.js:20-26 | toggling an id no item carries is the identity |
| `PackingList.ToggleTwice` | src/App.js:20-26 | toggling the same id twice restores the list |
| `PackingList.ToggleCommutes` | src/App.js:20-26 | toggles of two ids commute |
| `PackingList.DeleteAfterToggle` | src/App.js:16-26 | deleting an id after toggling it equals deleting it directly |
| `Seqs.Filter` | src/App.js:17 | JavaScript `filter`: the result is no longer than the input and every kept element satisfies the predicate |
| `Seqs.FilterComplete` | src/App.js:17 | `filter` keeps every element that satisfies the predicate |
| `Seqs.FilterKeepsCopies` | src/App.js:17 | `filter` keeps every occurrence of every element that satisfies the predicate: the kept count of such an element equals its count in the input |
| `Seqs.FilterSplit` | src/App.js:17 | the elements `filter` keeps and those it drops make up the input exactly, counted with multiplicity |
| `Seqs.FilterIsSubsequence` | src/App.js:17 | `filter` keeps the relative order of the elements it keeps |
| `Form.QuantityOptions` | src/App.js:83-87 | the drop-down offers 20 strictly increasing options: exactly the integers 1 to 20 |
| `Form.Initial` | src/App.js:55-56 | the form starts with an empty description and quantity 1, a valid option |
| `Form.EditDescription` | src/App.js:89-94 | typing replaces the description and keeps the quantity |
| `Form.SelectQuantity` | src/App.js:79-82 | choosing an option sets the quantity to it, keeps the description, and leaves the form valid |
| `Form.Submit` | src/App.js:58-74 | an empty description is rejected with the form untouched; otherwise the new item has the description, the chosen quantity, `packed` false and the clock reading as id, and the form is reset to ("", 1); a valid form stays valid |
| `Form.SubmitTwiceRejected` | src/App.js:58-74 | re-submitting the reset form adds nothing |
| `StableSort.Sort` | src/App.js:107-114 | `slice().sort(cmp)` returns a permutation of the items |
| `StableSort.SortSorted` | src/App.js:107-114 | for a consistent comparator the result is ordered: each element may precede every later one |
| `StableSort.SortStable` | src/App.js:107-114 | elements the comparator ties keep their input order |
| `StableSort.StableSortUnique` | src/App.js:107-114 | two ordered, stable permutations of the same elements are equal |
| `StableSort.SortIsTheStableSort` | src/App.js:107-114 | a permutation equals `Sort` exactly when it is ordered and stable, so any stable engine sort gives the same display |
| `Items.Flip` | src/App.js:23 | `{ ...item, packed: !item.packed }`: the flag is inverted and id, description and quantity are kept |
| `ParkingList.PackedCompare` | src/App.js:111 | `Number(b.packed - a.packed)` puts `a` first exactly when `a` is packed and `b` is not, and `b` first exactly when `b` is packed and `a` is not |
| `ParkingList.NumberCompare` | src/App.js:114 | `b.quantity - a.quantity` puts `a` first exactly when its quantity is larger, and `b` first exactly when `b`'s is larger |
| `ParkingList.DescriptionCompare` | src/App.js:109 | item `a` sorts before `b` exactly when `a.description` collates before `b.description`, and the item comparator is consistent whenever the collation is |
| `ParkingList.ComparesDescriptions` | src/App.js:109 | any comparator that compares items by their descriptions is consistent whenever the string collation is |
| `ParkingList.Displayed` | src/App.js:100-114 | every mode yields a permutation of the items; "input" yields the items as they are |
| `ParkingList.PackedFirst` | src/App.js:110-111 | the packed mode shows the packed items in input order, then the unpacked ones in input order |
| `ParkingList.NumberDescending` | src/App.js:113-114 | the number mode is non-increasing in quantity, and items with equal quantity keep input order |
| `ParkingList.DescriptionOrdered` | src/App.js:106-109 | for a consistent collation, the description mode is ordered by it and collation ties keep input order |
| `ParkingList.DescriptionCompareConsistent` | src/App.js:109 | comparing items by description is consistent when the string collation is |
| `Stats.PackedCount` | src/App.js:159-161 | the packed count is at most the total; it is 0 iff no item is packed, and equals the total iff every item is packed |
| `Stats.CeilDiv` | src/App.js:162 | the result is the ceiling of a / b: the least q with q·b ≥ a |
| `Stats.CeilUnique` | src/App.js:162 | the ceiling is unique |
| `Stats.Percentage` | src/App.js:162 | absent (NaN) for an empty list; otherwise the ceiling of 100·packed/total, between 0 and 100 |
| `Stats.PercentageFull` | src/App.js:162-166 | the rounded-up percentage is 100 iff the list is non-empty and 100·packed > 99·total |
| `Stats.FooterFor` | src/App.js:157-176 | "start adding" iff nothing is packed, including a non-empty list; "ready" iff the list is non-empty and 100·packed > 99·total; otherwise the progress message quotes the total, the packed count and a percentage below 100 |
| `Stats.ReadyMeansAllPackedUpToHundred` | src/App.js:166-175 | with at most 100 items, "ready" shows iff the list is non-empty and every item is packed |
| `Stats.ReadyDespiteOneUnpacked` | src/App.js:162-175 | with more than 100 items and exactly one unpacked, the footer still says "ready" |
| `Stats.HundredPackedOneNot` | src/App.js:159-161 | a concrete list of 101 items with exactly 100 packed and item 100 unpacked |
| `Stats.ReadyWithUnpackedItem` | src/App.js:162-175 | on that list the footer says "ready" although an item is unpacked |
| `Stats.IntendedFooter` | src/App.js:166-175 | corrected footer: "ready" iff the list is non-empty and every item is packed; the other two messages as `App.js` chooses them |
| `Stats.FooterAgreesUpToHundred` | src/App.js:166-175 | up to 100 items, the footer of `App.js` and the corrected one agree |
| `App.Init` | src/App.js:10 | the page starts with an empty list and the initial form, and is well formed |
| `App.SubmitForm` | src/App.js:58-74 | a rejected submission changes nothing; an accepted one appends the unpacked item built from the form and resets the form |
| `App.Step` | src/App.js:9-47 | every user event keeps the state well formed: a valid form, and every item has a description and a quantity from 1 to 20 |
| `App.Run` | src/App.js:9-47 | any sequence of events keeps the state well formed |
| `App.PackedCountAdd` | src/App.js:12-14 | appending an item raises the packed count by one iff the item is packed |
| `App.SubmitCounts` | src/App.js:63-70 | an accepted submission raises the total by one and leaves the packed count unchanged |
| `App.PackedCountToggle` | src/App.js:20-26 | after a toggle the packed count has lost the packed items with the id and gained the unpacked ones |
| `App.ToggleTwiceStep` | src/App.js:20-26 | toggling the same id twice returns the page to the same state |
| `App.ClearAllFooter` | src/App.js:28-33 | after a confirmed clear the footer says "start adding"; a declined clear changes nothing |
| `App.SameMillisecondDuplicates` | src/App.js:63-70 | two submissions at the same clock reading give two items with one id, and deleting that id removes both |

## Left out

- Rendering: the JSX markup, `Logo`, the `Item` row markup, the CSS and the `useState` plumbing. State is an explicit value, and each handler maps the old value to the new one.
- `window.confirm` (src/App.js:29) is a browser dialog. Its answer is the `confirmed` parameter.
- `Date.now()` (src/App.js:67) is a clock read. Its value is the `now` parameter, and it is not assumed unique.
- `localeCompare` (src/App.js:109) depends on the host's collation. It is the parameter `localeCompare`. The ordering facts about the description mode assume it is a consistent comparator.
- The engine's sort algorithm is abstracted: the model sorts by insertion. `StableSort.SortIsTheStableSort` shows this cannot differ from any stable sort for a consistent comparator.
- The sort drop-down is limited to its four options. The source's unreachable case of an unknown option is not modelled; there `sortedItems` would stay undefined and `sortedItems.map` would throw a TypeError while rendering.
- Stats.Percentage: uses exact integer ceiling division, not the floating-point `Math.ceil((packed / total) * 100)`. Floats can round up by one where the exact value is an integer. For example, 7 of 100 packed gives 7.000000000000001, so the page shows 8%. The model gives 7.
- Stats.Percentage: the NaN of the empty list is `None`. Only its effect on the message choice is modelled: NaN is not 100, and the packed count is 0.
- Form.SelectQuantity: the value is assumed to be one of the drop-down's options. `Number(e.target.value)` is not modelled for other strings, because the `<select>` cannot produce them.

## Findings

| source | as written | input that shows it | evidently intended | confidence | as-written member | corrected member |
|---|---|---|---|---|---|---|
| src/App.js:162-175 | "You got everything ready" is shown whenever the rounded-up percentage is 100 | 101 items, 100 packed: ceil(100·100/101) = 100, so the footer says everything is ready while one item is unpacked | the ready message only when every item is packed | medium; not executed | `Stats.ReadyWithUnpackedItem` (on `Stats.FooterFor`) | `Stats.IntendedFooter` |
