/** The sidebar: the pin-count header, the rows in list order with the
    selected one highlighted and the address cut to a budget, and the row
    and trash-button handlers. */
module Sidebar {
  import opened Types
  import opened JsText
  import App
  import MapComponent

  const DEFAULT_MAX_LENGTH := 50
  const ADDRESS_MAX_LENGTH := 80
  const ELLIPSIS := "..."

  /** `truncateText(text, maxLength = 50)`: the text itself when it fits the
      budget, otherwise its first `maxLength` characters (none for a negative
      budget, as `substring` clamps) followed by three dots. */
  function Truncate(text: string, maxLength: int := DEFAULT_MAX_LENGTH): (r: string)
    ensures |text| <= maxLength ==> r == text
    ensures |text| > maxLength ==> r == text[..ClampIndex(maxLength, |text|)] + ELLIPSIS
  {
    if |text| <= maxLength then text else Substring(text, 0, maxLength) + ELLIPSIS
  }

  /** A truncated text is exactly `maxLength + 3` characters long, and the
      result never exceeds that. */
  lemma TruncateLength(text: string, maxLength: nat)
    ensures |text| > maxLength ==> |Truncate(text, maxLength)| == maxLength + 3
    ensures |Truncate(text, maxLength)| <= maxLength + 3
    ensures |Truncate(text, maxLength)| == |text| || |Truncate(text, maxLength)| == maxLength + 3
  {
  }

  /** Whatever the budget, the result starts with the first
      `min(|text|, maxLength)` characters of the text. */
  lemma TruncateKeepsPrefix(text: string, maxLength: int)
    ensures var m := ClampIndex(maxLength, |text|);
            m <= |Truncate(text, maxLength)| && Truncate(text, maxLength)[..m] == text[..m]
  {
  }

  /** Truncating a truncated text changes nothing. */
  lemma TruncateIdempotent(text: string, maxLength: nat)
    ensures Truncate(Truncate(text, maxLength), maxLength) == Truncate(text, maxLength)
  {
  }

  /** The address line of a row uses the 80-character budget; leaving the
      budget out gives 50. */
  lemma Budgets(text: string)
    ensures Truncate(text) == Truncate(text, 50)
    ensures |text| > 80 ==> |Truncate(text, ADDRESS_MAX_LENGTH)| == 83
  {
  }

  /** `{pins.length} pin{pins.length !== 1 ? 's' : ''} saved`. */
  function CountLabel(count: nat): (caption: string)
    ensures count == 1 ==> caption == "1 pin saved"
    ensures count != 1 ==> caption == NatToString(count) + " pins saved"
  {
    NatToString(count) + " pin" + (if count != 1 then "s" else "") + " saved"
  }

  /** The label tells the count: different counts give different labels. */
  lemma CountLabelInjective(m: nat, n: nat)
    requires CountLabel(m) == CountLabel(n)
    ensures m == n
  {
    if m != 1 && n != 1 {
      var a, b := NatToString(m), NatToString(n);
      assert a == CountLabel(m)[..|CountLabel(m)| - 11];
      assert b == CountLabel(n)[..|CountLabel(n)| - 11];
      NatToStringInjective(m, n);
    }
  }

  datatype Row = Row(pin: Pin, highlighted: bool, addressLine: string)

  /** `pins.map(pin => <div …/>)`: one row per pin, in list order, marked
      highlighted exactly when the selection carries its id, showing its
      address cut to the 80-character budget. */
  function Rows(pins: seq<Pin>, selected: Option<Pin>): (rows: seq<Row>)
    ensures |rows| == |pins|
    ensures forall i :: 0 <= i < |pins| ==> rows[i].pin == pins[i]
    ensures forall i :: 0 <= i < |pins| ==> (rows[i].highlighted <==> SelectedIdIs(selected, pins[i].id))
    ensures forall i :: 0 <= i < |pins| ==> rows[i].addressLine == Truncate(pins[i].address, ADDRESS_MAX_LENGTH)
  {
    if pins == [] then []
    else
      [Row(pins[0], SelectedIdIs(selected, pins[0].id), Truncate(pins[0].address, ADDRESS_MAX_LENGTH))]
      + Rows(pins[1..], selected)
  }

  /** The sidebar and the map agree on which pins are selected. */
  lemma RowsAgreeWithMarkers(pins: seq<Pin>, selected: Option<Pin>, i: nat)
    requires i < |pins|
    ensures Rows(pins, selected)[i].highlighted
            <==> MapComponent.Markers(pins, selected)[i].icon == MapComponent.SelectedIcon
  {
  }

  /** After the selected pin is deleted no row is highlighted. */
  lemma NoHighlightAfterDeletingSelected(pins: seq<Pin>, selected: Pin)
    ensures var rest := App.Without(pins, selected.id);
            forall i :: 0 <= i < |rest| ==> !Rows(rest, Some(selected))[i].highlighted
  {
    var rest := App.Without(pins, selected.id);
    App.WithoutMembers(pins, selected.id);
    forall i | 0 <= i < |rest| ensures !Rows(rest, Some(selected))[i].highlighted {
      assert rest[i] in rest;
    }
  }

  datatype Body = NoPinsYet | PinRows(rows: seq<Row>)
  datatype View = View(countLabel: string, body: Body)

  /** The whole sidebar: the count header, then the placeholder for an empty
      list or the rows. */
  function Render(pins: seq<Pin>, selected: Option<Pin>): (view: View)
    ensures view.countLabel == CountLabel(|pins|)
    ensures view.body.NoPinsYet? <==> pins == []
    ensures view.body.PinRows? ==> view.body.rows == Rows(pins, selected) && |view.body.rows| == |pins|
  {
    View(CountLabel(|pins|), if |pins| == 0 then NoPinsYet else PinRows(Rows(pins, selected)))
  }

  /** The trash button: `onPinDelete(pin.id)` is requested only when the
      confirmation dialog was answered yes. */
  function DeleteRequest(pin: Pin, confirmed: bool): (request: Option<int>)
    ensures request.Some? <==> confirmed
    ensures request.Some? ==> request.value == pin.id
  {
    if confirmed then Some(pin.id) else None
  }

  /** Clicking a row selects its pin. */
  method OnRowClick(store: App.PinStore, pin: Pin)
    modifies store
    ensures store.selectedPin == Some(pin) && store.pins == old(store.pins)
  {
    store.SelectPin(Some(pin));
  }

  /** Clicking a row's trash button: the click does not reach the row, so
      the selection is not set to this pin; with a yes answer, the pin's id
      is deleted from the store, with a no answer nothing changes. */
  method OnTrashClick(store: App.PinStore, pin: Pin, confirmed: bool)
    modifies store
    ensures confirmed ==> store.pins == App.Without(old(store.pins), pin.id)
                          && store.selectedPin == (if SelectedIdIs(old(store.selectedPin), pin.id) then None
                                                   else old(store.selectedPin))
    ensures !confirmed ==> store.pins == old(store.pins) && store.selectedPin == old(store.selectedPin)
  {
    var request := DeleteRequest(pin, confirmed);
    if request.Some? {
      store.DeletePin(request.value);
    }
  }
}
