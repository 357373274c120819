/**
  The root component as a state machine: the packing list it owns, the form's local fields, and
  one transition per user action. Rendering is left out. The footer is a function of the items
  (`Stats.FooterFor`); the displayed order is a function of the items, the list view's own sort
  selection and the host's collation (`ParkingList.Displayed`).
 */
module App {
  import opened Wrappers
  import opened Seqs
  import opened Items
  import PackingList
  import Form
  import Stats

  datatype AppState = AppState(items: seq<Item>, form: Form.FormState)

  /**
    The user actions. `Submit` carries the clock reading the new item's id is taken from and
    `ClearAll` the answer to the confirmation dialog.
   */
  datatype Event =
    | EditDescription(text: string)
    | SelectQuantity(value: int)
    | Submit(now: Id)
    | DeleteItem(id: Id)
    | ToggleItem(id: Id)
    | ClearAll(confirmed: bool)

  /** The events the page can produce: a quantity always comes from the drop-down's options. */
  ghost predicate Possible(e: Event) {
    e.SelectQuantity? ==> e.value in Form.QuantityOptions()
  }

  /** Every item has a description and a quantity the form could have produced. */
  ghost predicate WellFormedItem(it: Item) {
    |it.description| > 0 && it.quantity in Form.QuantityOptions()
  }

  ghost predicate WellFormed(s: AppState) {
    && Form.Valid(s.form)
    && forall it :: it in s.items ==> WellFormedItem(it)
  }

  function Init(): (s: AppState)
    ensures WellFormed(s)
    ensures s.items == [] && s.form == Form.Initial()
  {
    AppState([], Form.Initial())
  }

  /** Adds the submitted item, if any, to the list and takes the form's next state. */
  function SubmitForm(s: AppState, now: Id): (r: AppState)
    ensures |s.form.description| == 0 ==> r == s
    ensures |s.form.description| > 0 ==>
              && r.items == PackingList.Add(s.items, Item(now, s.form.description, s.form.quantity, false))
              && r.form == Form.Initial()
  {
    var sub := Form.Submit(s.form, now);
    match sub.newItem
    case None => AppState(s.items, sub.form)
    case Some(item) => AppState(PackingList.Add(s.items, item), sub.form)
  }

  function Step(s: AppState, e: Event): (r: AppState)
    requires Possible(e)
    ensures WellFormed(s) ==> WellFormed(r)
  {
    match e
    case EditDescription(text) => s.(form := Form.EditDescription(s.form, text))
    case SelectQuantity(value) => s.(form := Form.SelectQuantity(s.form, value))
    case Submit(now) => SubmitForm(s, now)
    case DeleteItem(id) =>
      var r := s.(items := PackingList.Delete(s.items, id));
      assert forall it :: it in r.items ==> it in s.items by {
        FilterSubset(s.items, LacksId(id));
      }
      r
    case ToggleItem(id) =>
      var r := s.(items := PackingList.Toggle(s.items, id));
      assert WellFormed(s) ==> WellFormed(r) by {
        if WellFormed(s) {
          forall it | it in r.items
            ensures WellFormedItem(it)
          {
            var i :| 0 <= i < |r.items| && r.items[i] == it;
            assert s.items[i] in s.items;
          }
        }
      }
      r
    case ClearAll(confirmed) => s.(items := PackingList.ClearAll(s.items, confirmed))
  }

  /** The state after a sequence of events, applied in order. */
  function Run(s: AppState, events: seq<Event>): (r: AppState)
    requires forall i :: 0 <= i < |events| ==> Possible(events[i])
    ensures WellFormed(s) ==> WellFormed(r)
    decreases |events|
  {
    if |events| == 0 then s
    else Run(Step(s, events[0]), events[1..])
  }

  /** A packed item adds one to the packed count; an unpacked one leaves it. */
  lemma PackedCountAdd(items: seq<Item>, item: Item)
    ensures Stats.PackedCount(PackingList.Add(items, item)) == Stats.PackedCount(items) + (if item.packed then 1 else 0)
  {
    FilterAppend(items, [item], IsPacked);
    FilterCons(item, [], IsPacked);
  }

  /** An accepted submission adds one unpacked item: the total grows by one, the packed count stays. */
  lemma SubmitCounts(s: AppState, now: Id)
    requires |s.form.description| > 0
    ensures |SubmitForm(s, now).items| == |s.items| + 1
    ensures Stats.PackedCount(SubmitForm(s, now).items) == Stats.PackedCount(s.items)
  {
    PackedCountAdd(s.items, Item(now, s.form.description, s.form.quantity, false));
  }

  function PackedWithId(id: Id): Item -> bool {
    (it: Item) => it.id == id && it.packed
  }

  function UnpackedWithId(id: Id): Item -> bool {
    (it: Item) => it.id == id && !it.packed
  }

  /**
    Toggling an id unpacks the packed items with that id and packs the unpacked ones; the packed
    count moves by the difference and by nothing else.
   */
  lemma {:induction false} PackedCountToggle(items: seq<Item>, id: Id)
    ensures Stats.PackedCount(PackingList.Toggle(items, id)) + |Filter(items, PackedWithId(id))|
         == Stats.PackedCount(items) + |Filter(items, UnpackedWithId(id))|
    decreases |items|
  {
    if |items| != 0 {
      var t := PackingList.Toggle(items, id);
      assert t == [t[0]] + PackingList.Toggle(items[1..], id);
      assert items == [items[0]] + items[1..];
      PackedCountToggle(items[1..], id);
      FilterCons(t[0], PackingList.Toggle(items[1..], id), IsPacked);
      FilterCons(items[0], items[1..], IsPacked);
      FilterCons(items[0], items[1..], PackedWithId(id));
      FilterCons(items[0], items[1..], UnpackedWithId(id));
    }
  }

  /** Toggling the same item twice returns to the same state. */
  lemma ToggleTwiceStep(s: AppState, id: Id)
    ensures Step(Step(s, ToggleItem(id)), ToggleItem(id)) == s
  {
  }

  /** After a confirmed clear-all the footer invites the user to start adding items. */
  lemma ClearAllFooter(s: AppState)
    ensures Stats.FooterFor(Step(s, ClearAll(true)).items) == Stats.StartAdding
    ensures Step(s, ClearAll(false)) == s
  {
  }

  /**
    Ids are not unique: two items submitted within the same millisecond share an id, and deleting
    one of them deletes both.
   */
  lemma SameMillisecondDuplicates()
    ensures var s := Run(Init(), [EditDescription("socks"), Submit(7), EditDescription("tent"), Submit(7)]);
            && |s.items| == 2 && s.items[0].id == s.items[1].id
            && Step(s, DeleteItem(7)).items == []
  {
  }
}
