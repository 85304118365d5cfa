/** The remark entry form shown while a map location is pending: its text,
    its busy flag, the gate in front of the submit callback and the rules that
    disable its buttons. */
module PinForm {
  import opened Types
  import opened JsText
  import App
  import MapComponent

  /** The value `handleSubmit` forwards for a given remark: the trimmed text
      when it is non-empty, nothing when the remark is blank. */
  function Forwarded(remark: string): (value: Option<string>)
    ensures value.None? <==> AllWhitespace(remark)
    ensures value.Some? ==> value.value == Trim(remark) && value.value != []
  {
    if Trim(remark) != [] then Some(Trim(remark)) else None
  }

  /** What is forwarded starts and ends with a non-whitespace character and
      is a piece of the remark with only whitespace cut away on either side. */
  lemma ForwardedIsTrimmed(remark: string)
    requires !AllWhitespace(remark)
    ensures var v := Forwarded(remark).value;
            !IsJsWhitespace(v[0]) && !IsJsWhitespace(v[|v| - 1])
            && v == remark[TrimOffset(remark)..TrimOffset(remark) + |v|]
  {
  }

  /** `disabled={!remark.trim() || isSubmitting}` on the submit button: it is
      disabled while the remark is whitespace only or a submit is pending. */
  predicate SubmitDisabled(remark: string, isSubmitting: bool)
    ensures SubmitDisabled(remark, isSubmitting) <==> AllWhitespace(remark) || isSubmitting
  {
    Trim(remark) == [] || isSubmitting
  }

  /** The two controls that run `handleCancel`: the close icon in the header
      and the Cancel button in the footer. */
  datatype CancelControl = CloseIcon | CancelButton

  /** Only the footer button carries `disabled={isSubmitting}`; the header
      close icon has no disabled rule, so cancelling stays possible while a
      submit is pending. */
  predicate CancelDisabled(control: CancelControl, isSubmitting: bool)
    ensures CancelDisabled(control, isSubmitting) ==> isSubmitting
    ensures control == CloseIcon ==> !CancelDisabled(control, isSubmitting)
    ensures control == CancelButton ==> (CancelDisabled(control, isSubmitting) <==> isSubmitting)
  {
    control == CancelButton && isSubmitting
  }

  /** The submit button is enabled exactly when the form is idle and
      submitting would forward something. */
  lemma SubmitEnabledIffForwards(remark: string, isSubmitting: bool)
    ensures !SubmitDisabled(remark, isSubmitting) <==> !isSubmitting && Forwarded(remark).Some?
  {
  }

  class RemarkForm {
    var remark: string
    var isSubmitting: bool

    /** The form as mounted: empty text, idle. */
    constructor ()
      ensures remark == [] && !isSubmitting
    {
      remark := [];
      isSubmitting := false;
    }

    /** The textarea's `onChange`: the typed text replaces the remark. */
    method OnRemarkChange(text: string)
      modifies this
      ensures remark == text && isSubmitting == old(isSubmitting)
    {
      remark := text;
    }

    /** `handleSubmit` up to its `await`: a blank remark is rejected and
        nothing changes; otherwise the form turns busy and the trimmed remark
        is what goes to `onSubmit`. */
    method BeginSubmit() returns (value: Option<string>)
      modifies this
      ensures value == Forwarded(old(remark))
      ensures remark == old(remark)
      ensures value.Some? ==> isSubmitting
      ensures value.None? ==> isSubmitting == old(isSubmitting)
    {
      if Trim(remark) != [] {
        isSubmitting := true;
        value := Some(Trim(remark));
      } else {
        value := None;
      }
    }

    /** `handleSubmit` after the awaited callback returned: idle again. */
    method EndSubmit()
      modifies this
      ensures !isSubmitting && remark == old(remark)
    {
      isSubmitting := false;
    }

    /** `handleSubmit` as a whole, with `onSubmit` being the map's submit
        handler (which in turn hands the draft to the store). The callback
        runs between BeginSubmit and EndSubmit, so the form is busy while it
        is pending; a blank remark calls nothing and changes nothing. */
    method HandleSubmit(entry: MapComponent.PinEntry, outcome: MapComponent.Geocode, timestamp: string,
                        store: App.PinStore, now: int)
      returns (value: Option<string>)
      modifies this, entry, store
      ensures value == Forwarded(old(remark))
      ensures remark == old(remark)
      ensures value.None? ==>
                isSubmitting == old(isSubmitting)
                && entry.showPinForm == old(entry.showPinForm) && entry.clickedLocation == old(entry.clickedLocation)
                && store.pins == old(store.pins) && store.selectedPin == old(store.selectedPin)
      ensures value.Some? ==>
                !isSubmitting && entry.clickedLocation == None && store.selectedPin == old(store.selectedPin)
      ensures value.Some? && old(entry.clickedLocation).Some? ==>
                !entry.showPinForm
                && store.pins == old(store.pins)
                   + [WithId(MapComponent.DraftFor(old(entry.clickedLocation).value, value.value, outcome, timestamp), now)]
      ensures value.Some? && old(entry.clickedLocation).None? ==>
                entry.showPinForm == old(entry.showPinForm) && store.pins == old(store.pins)
      ensures value.Some? && old(entry.Valid() && entry.showPinForm) ==> |store.pins| == |old(store.pins)| + 1
    {
      value := BeginSubmit();
      if value.Some? {
        var _ := entry.HandlePinSubmit(value.value, outcome, timestamp, store, now);
        EndSubmit();
      }
    }

    /** `handleCancel`: clear the text, then call `onCancel` (the map's
        cancel handler) once, which closes the form. */
    method HandleCancel(entry: MapComponent.PinEntry)
      modifies this, entry
      ensures remark == [] && isSubmitting == old(isSubmitting)
      ensures !entry.showPinForm && entry.clickedLocation == None
    {
      remark := [];
      entry.HandlePinCancel();
    }
  }
}
