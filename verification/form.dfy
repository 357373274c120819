/**
  The item-creation form: a description text field and a quantity drop-down, both local to the
  form, and the submit handler that turns them into a new item.
 */
module Form {
  import opened Wrappers
  import opened Items

  /** The drop-down offers the quantities 1 to `MaxQuantity`. */
  const MaxQuantity: int := 20

  datatype FormState = FormState(description: string, quantity: int)

  /** What a submission produces: the next form state and, unless it was rejected, the new item. */
  datatype Submission = Submission(form: FormState, newItem: Option<Item>)

  /** The option values of the quantity drop-down, in display order. */
  function QuantityOptions(): (r: seq<int>)
    ensures |r| == MaxQuantity
    ensures forall q :: q in r <==> 1 <= q <= MaxQuantity
    ensures forall i, j :: 0 <= i < j < |r| ==> r[i] < r[j]
  {
    var r := seq(MaxQuantity, i => i + 1);
    forall q | 1 <= q <= MaxQuantity
      ensures q in r
    {
      assert r[q - 1] == q;
    }
    r
  }

  /** The quantity the drop-down shows is one of its options. */
  ghost predicate Valid(f: FormState) {
    f.quantity in QuantityOptions()
  }

  /** The form as first rendered, and as reset after each accepted submission. */
  function Initial(): (f: FormState)
    ensures Valid(f)
    ensures f.description == [] && f.quantity == 1
  {
    FormState([], 1)
  }

  /** Typing in the text field replaces the description and nothing else. */
  function EditDescription(f: FormState, text: string): (r: FormState)
    ensures r.description == text && r.quantity == f.quantity
    ensures Valid(f) ==> Valid(r)
  {
    f.(description := text)
  }

  /** Choosing an option of the drop-down replaces the quantity and nothing else. */
  function SelectQuantity(f: FormState, value: int): (r: FormState)
    requires value in QuantityOptions()
    ensures Valid(r)
    ensures r.quantity == value && r.description == f.description
  {
    f.(quantity := value)
  }

  /**
    `handleSubmit`: an empty description rejects the submission and leaves the form as it is;
    otherwise an unpacked item with the form's fields and the id `now` is created and the form is
    reset. `now` is the clock reading `App.js` takes with `Date.now()`.
   */
  function Submit(f: FormState, now: Id): (r: Submission)
    ensures f.description == [] <==> r.newItem.None?
    ensures f.description == [] ==> r.form == f
    ensures r.newItem.Some? ==>
              && r.newItem.value.description == f.description
              && r.newItem.value.quantity == f.quantity
              && !r.newItem.value.packed
              && r.newItem.value.id == now
              && r.form == Initial()
    ensures Valid(f) ==> Valid(r.form)
  {
    if |f.description| == 0 then Submission(f, None)
    else
      var item := Item(now, f.description, f.quantity, false);
      Submission(Initial(), Some(item))
  }

  /** Submitting an accepted form a second time, before editing it, is rejected. */
  lemma SubmitTwiceRejected(f: FormState, now: Id, later: Id)
    requires Submit(f, now).newItem.Some?
    ensures Submit(Submit(f, now).form, later) == Submission(Initial(), None)
  {
  }
}
