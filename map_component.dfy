/** The map view: the pin entry flow (form open flag and pending click
    location), the address fallback applied to a reverse-geocoding outcome,
    and one marker per pin, coloured by the selection. */
module MapComponent {
  import opened Types
  import App

  /** How the reverse-geocoding request settled: `Failure` when the request
      or the decoding of its body threw, `Success` with the body's
      `display_name` field, absent when the body has none. */
  datatype Geocode = Failure | Success(displayName: Option<string>)

  const ADDRESS_NOT_FOUND := "Address not found"
  const ADDRESS_NOT_AVAILABLE := "Address not available"

  /** The address a new pin gets: `display_name` when the lookup succeeded
      and gave a non-empty one; the "not found" sentinel when it succeeded
      without one; the "not available" sentinel when it failed. */
  function AddressFor(outcome: Geocode): (address: string)
    ensures outcome.Success? && outcome.displayName.Some? && outcome.displayName.value != []
            ==> address == outcome.displayName.value
    ensures outcome.Success? && (outcome.displayName.None? || outcome.displayName.value == [])
            ==> address == ADDRESS_NOT_FOUND
    ensures outcome.Failure? ==> address == ADDRESS_NOT_AVAILABLE
    ensures address != []
  {
    match outcome
    case Failure => ADDRESS_NOT_AVAILABLE
    case Success(name) => if name.Some? && name.value != [] then name.value else ADDRESS_NOT_FOUND
  }

  /** Both branches of the submit handler build the same record: the pending
      location, the remark as given, the address from the fallback rule and
      the creation timestamp. */
  function DraftFor(location: LatLng, remark: string, outcome: Geocode, timestamp: string): (d: PinDraft)
    ensures d.lat == location.lat && d.lng == location.lng
    ensures d.remark == remark && d.timestamp == timestamp
    ensures d.address == AddressFor(outcome) && d.address != []
  {
    PinDraft(location.lat, location.lng, remark, AddressFor(outcome), timestamp)
  }

  /** A failed lookup still yields a pin at the clicked place, carrying the
      remark as given and the "not available" sentinel as its address. */
  lemma FailureStillBuildsPin(location: LatLng, remark: string, timestamp: string)
    ensures var d := DraftFor(location, remark, Failure, timestamp);
            d.lat == location.lat && d.lng == location.lng && d.remark == remark
            && d.address == ADDRESS_NOT_AVAILABLE && d.timestamp == timestamp
  {
  }

  /** Under either outcome the draft sits at the pending location and
      carries the remark; only the address depends on the outcome. */
  lemma DraftIgnoresOutcomeButAddress(location: LatLng, remark: string, a: Geocode, b: Geocode, timestamp: string)
    ensures DraftFor(location, remark, a, timestamp).(address := AddressFor(b)) == DraftFor(location, remark, b, timestamp)
    ensures DraftFor(location, remark, a, timestamp).lat == location.lat
    ensures DraftFor(location, remark, a, timestamp).lng == location.lng
    ensures DraftFor(location, remark, a, timestamp).remark == remark
  {
  }

  datatype Icon = SelectedIcon | DefaultIcon

  /** The marker icon: the selected (blue) one exactly when the selection
      carries this pin's id, the default (red) one otherwise. */
  function IconFor(selected: Option<Pin>, pin: Pin): (icon: Icon)
    ensures selected.None? ==> icon == DefaultIcon
    ensures selected == Some(pin) ==> icon == SelectedIcon
    ensures icon == SelectedIcon <==> SelectedIdIs(selected, pin.id)
  {
    if SelectedIdIs(selected, pin.id) then SelectedIcon else DefaultIcon
  }

  datatype Marker = Marker(pin: Pin, icon: Icon)

  /** `pins.map(pin => <Marker …/>)`: one marker per pin, in list order. */
  function Markers(pins: seq<Pin>, selected: Option<Pin>): (markers: seq<Marker>)
    ensures |markers| == |pins|
    ensures forall i :: 0 <= i < |pins| ==> markers[i].pin == pins[i]
    ensures forall i :: 0 <= i < |pins| ==> (markers[i].icon == SelectedIcon <==> SelectedIdIs(selected, pins[i].id))
  {
    if pins == [] then [] else [Marker(pins[0], IconFor(selected, pins[0]))] + Markers(pins[1..], selected)
  }

  /** With distinct ids at most one marker uses the selected icon, and one
      does when the selected pin is in the list. */
  lemma SelectedMarkerUnique(pins: seq<Pin>, selected: Option<Pin>)
    requires IdsDistinct(pins)
    ensures forall i, j ::
              (0 <= i < |pins| && 0 <= j < |pins|
               && Markers(pins, selected)[i].icon == SelectedIcon && Markers(pins, selected)[j].icon == SelectedIcon)
              ==> i == j
    ensures (selected.Some? && selected.value in pins) ==>
              exists i :: 0 <= i < |pins| && Markers(pins, selected)[i].icon == SelectedIcon
  {
    var markers := Markers(pins, selected);
    if selected.Some? && selected.value in pins {
      var i :| 0 <= i < |pins| && pins[i] == selected.value;
      assert markers[i].icon == SelectedIcon;
    }
  }

  class PinEntry {
    var showPinForm: bool
    var clickedLocation: Option<LatLng>

    /** The form is shown exactly while a clicked location is pending. */
    ghost predicate Valid()
      reads this
    {
      showPinForm == clickedLocation.Some?
    }

    constructor ()
      ensures !showPinForm && clickedLocation == None
      ensures Valid()
    {
      showPinForm := false;
      clickedLocation := None;
    }

    /** `handleMapClick`: remember the clicked coordinates and open the form. */
    method HandleMapClick(latlng: LatLng)
      modifies this
      ensures clickedLocation == Some(latlng) && showPinForm
      ensures Valid()
    {
      clickedLocation := Some(latlng);
      showPinForm := true;
    }

    /** `handlePinCancel`: close the form and forget the pending location. */
    method HandlePinCancel()
      modifies this
      ensures !showPinForm && clickedLocation == None
      ensures Valid()
    {
      showPinForm := false;
      clickedLocation := None;
    }

    /** `handlePinSubmit`: with a pending location, build the draft from the
        geocoding outcome, hand exactly that one draft to `onAddPin` (the
        store's AddPin, which stamps it with the clock reading `now`), then
        close the form. Without a pending location nothing happens. The draft
        handed over is returned as `added`. */
    method HandlePinSubmit(remark: string, outcome: Geocode, timestamp: string, store: App.PinStore, now: int)
      returns (added: Option<PinDraft>)
      modifies this, store
      ensures old(clickedLocation).None? ==>
                added == None && showPinForm == old(showPinForm) && clickedLocation == None
                && store.pins == old(store.pins) && store.selectedPin == old(store.selectedPin)
      ensures old(clickedLocation).Some? ==>
                added == Some(DraftFor(old(clickedLocation).value, remark, outcome, timestamp))
                && store.pins == old(store.pins) + [WithId(added.value, now)]
                && store.selectedPin == old(store.selectedPin)
                && !showPinForm && clickedLocation == None
      ensures old(Valid() && showPinForm) ==> added.Some?
      ensures old(Valid()) ==> Valid()
    {
      added := None;
      if clickedLocation.Some? {
        var newPin := DraftFor(clickedLocation.value, remark, outcome, timestamp);
        store.AddPin(newPin, now);
        added := Some(newPin);
        showPinForm := false;
        clickedLocation := None;
      }
    }
  }
}
