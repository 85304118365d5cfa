/** The one entity of the pin tool, the draft it is built from, and the
    selection test that the map and the sidebar share. */
module Types {

  datatype Option<+T> = None | Some(value: T)

  /** A clicked map position. Coordinates are carried, never computed with. */
  datatype LatLng = LatLng(lat: real, lng: real)

  /** What the entry flow hands to the store: every field of a pin but its id. */
  datatype PinDraft = PinDraft(lat: real, lng: real, remark: string, address: string, timestamp: string)

  /** A stored pin: the draft's fields plus the id taken from a clock reading. */
  datatype Pin = Pin(lat: real, lng: real, remark: string, address: string, timestamp: string, id: int)

  /** `{ ...draft, id }`: the draft spread into a record that also carries
      `id`. Nothing of the draft is lost, and the id is the one supplied. */
  function WithId(draft: PinDraft, id: int): (pin: Pin)
    ensures DraftOf(pin) == draft
    ensures pin.id == id
  {
    Pin(draft.lat, draft.lng, draft.remark, draft.address, draft.timestamp, id)
  }

  /** The draft a pin was made from: the pin without its id. */
  function DraftOf(pin: Pin): PinDraft {
    PinDraft(pin.lat, pin.lng, pin.remark, pin.address, pin.timestamp)
  }

  /** `selected?.id === id`: with nothing selected the optional chain yields
      `undefined`, which equals no id; otherwise the selected pin's id is
      compared. A pin is shown as selected (blue marker, highlighted row)
      exactly when this holds of its id. */
  predicate SelectedIdIs(selected: Option<Pin>, id: int)
    ensures selected.None? ==> !SelectedIdIs(selected, id)
    ensures selected.Some? ==> (SelectedIdIs(selected, id) <==> selected.value.id == id)
  {
    selected.Some? && selected.value.id == id
  }

  /** No two pins of the list share an id. The list does not enforce this;
      it holds as long as clock readings used for ids keep increasing. */
  predicate IdsDistinct(pins: seq<Pin>) {
    forall i, j :: 0 <= i < j < |pins| ==> pins[i].id != pins[j].id
  }
}
