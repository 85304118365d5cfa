/** The application state: the ordered list of pins, the single source of
    truth shared by map and sidebar, and the currently selected pin. */
module App {
  import opened Types

  /** The list `filter(pin => pin.id !== pinId)` leaves: the pins whose id
      differs from `pinId`, and only those. */
  function Without(pins: seq<Pin>, pinId: int): (r: seq<Pin>)
    ensures |r| <= |pins|
  {
    if pins == [] then []
    else (if pins[0].id == pinId then [] else [pins[0]]) + Without(pins[1..], pinId)
  }

  /** A pin survives the deletion exactly when it was in the list and carries
      another id, so every pin with the deleted id goes, duplicates included. */
  lemma {:induction false} WithoutMembers(pins: seq<Pin>, pinId: int)
    ensures forall p :: p in Without(pins, pinId) <==> p in pins && p.id != pinId
  {
    if pins != [] {
      WithoutMembers(pins[1..], pinId);
      assert pins == [pins[0]] + pins[1..];
    }
  }

  /** Filtering distributes over concatenation, so the pins that remain keep
      their original relative order. */
  lemma {:induction false} WithoutConcat(a: seq<Pin>, b: seq<Pin>, pinId: int)
    ensures Without(a + b, pinId) == Without(a, pinId) + Without(b, pinId)
  {
    if a == [] {
      assert a + b == b;
    } else {
      assert (a + b)[0] == a[0];
      assert (a + b)[1..] == a[1..] + b;
      WithoutConcat(a[1..], b, pinId);
    }
  }

  /** Deleting an id that no pin carries leaves the list as it was. */
  lemma {:induction false} WithoutAbsent(pins: seq<Pin>, pinId: int)
    requires forall i :: 0 <= i < |pins| ==> pins[i].id != pinId
    ensures Without(pins, pinId) == pins
  {
    if pins != [] {
      WithoutAbsent(pins[1..], pinId);
    }
  }

  /** Deleting the same id twice is deleting it once. */
  lemma WithoutIdempotent(pins: seq<Pin>, pinId: int)
    ensures Without(Without(pins, pinId), pinId) == Without(pins, pinId)
  {
    var r := Without(pins, pinId);
    WithoutMembers(pins, pinId);
    forall i | 0 <= i < |r| ensures r[i].id != pinId {
      assert r[i] in r;
    }
    WithoutAbsent(r, pinId);
  }

  /** With distinct ids, deleting the id of the pin at `k` removes exactly
      that pin and nothing else. */
  lemma {:induction false} RemovesExactlyOne(pins: seq<Pin>, k: nat)
    requires IdsDistinct(pins) && k < |pins|
    ensures Without(pins, pins[k].id) == pins[..k] + pins[k + 1..]
    ensures |Without(pins, pins[k].id)| == |pins| - 1
  {
    var id := pins[k].id;
    var tail := pins[1..];
    if k == 0 {
      forall i | 0 <= i < |tail| ensures tail[i].id != id {
        assert tail[i] == pins[i + 1];
      }
      WithoutAbsent(tail, id);
    } else {
      assert tail[k - 1] == pins[k];
      assert IdsDistinct(tail) by {
        forall i, j | 0 <= i < j < |tail| ensures tail[i].id != tail[j].id {
          assert tail[i] == pins[i + 1] && tail[j] == pins[j + 1];
        }
      }
      RemovesExactlyOne(tail, k - 1);
      assert pins[0].id != id;
      assert pins[..k] + pins[k + 1..] == [pins[0]] + (tail[..k - 1] + tail[k..]);
    }
  }

  /** Deleting keeps the ids of the remaining pins distinct. */
  lemma {:induction false} WithoutKeepsIdsDistinct(pins: seq<Pin>, pinId: int)
    requires IdsDistinct(pins)
    ensures IdsDistinct(Without(pins, pinId))
  {
    if pins != [] {
      var rest := Without(pins[1..], pinId);
      WithoutKeepsIdsDistinct(pins[1..], pinId);
      WithoutMembers(pins[1..], pinId);
      if pins[0].id != pinId {
        forall j | 0 <= j < |rest| ensures rest[j].id != pins[0].id {
          assert rest[j] in rest;
          var i :| 0 <= i < |pins[1..]| && pins[1..][i] == rest[j];
          assert pins[i + 1] == rest[j];
        }
        assert Without(pins, pinId) == [pins[0]] + rest;
      }
    }
  }

  /** Appending a pin whose id is a clock reading later than every existing
      id keeps the ids distinct. */
  lemma AppendKeepsIdsDistinct(pins: seq<Pin>, draft: PinDraft, now: int)
    requires IdsDistinct(pins)
    requires forall i :: 0 <= i < |pins| ==> pins[i].id < now
    ensures IdsDistinct(pins + [WithId(draft, now)])
  {
  }

  /** The `pins` initializer: the decoded stored list when the slot holds
      one, the empty list when it is absent. */
  function InitialPins(saved: Option<seq<Pin>>): (pins: seq<Pin>)
    ensures saved.None? ==> pins == []
    ensures saved.Some? ==> pins == saved.value
  {
    match saved
    case None => []
    case Some(list) => list
  }

  class PinStore {
    var pins: seq<Pin>
    var selectedPin: Option<Pin>

    /** The selection, when there is one, is a pin of the list. */
    ghost predicate SelectionInList()
      reads this
    {
      selectedPin.None? || selectedPin.value in pins
    }

    /** Mounting the application: pins from the stored slot, nothing selected. */
    constructor (saved: Option<seq<Pin>>)
      ensures pins == InitialPins(saved)
      ensures selectedPin == None
      ensures SelectionInList()
    {
      pins := InitialPins(saved);
      selectedPin := None;
    }

    /** `addPin`: append the draft with `id` set to the clock reading `now`. */
    method AddPin(newPin: PinDraft, now: int)
      modifies this
      ensures pins == old(pins) + [WithId(newPin, now)]
      ensures selectedPin == old(selectedPin)
      ensures old(SelectionInList()) ==> SelectionInList()
      ensures old(IdsDistinct(pins)) && (forall i :: 0 <= i < |old(pins)| ==> old(pins)[i].id < now)
              ==> IdsDistinct(pins)
    {
      if IdsDistinct(pins) && forall i :: 0 <= i < |pins| ==> pins[i].id < now {
        AppendKeepsIdsDistinct(pins, newPin, now);
      }
      pins := pins + [WithId(newPin, now)];
    }

    /** `deletePin`: drop every pin carrying `pinId` and clear the selection
        when it carries that id. */
    method DeletePin(pinId: int)
      modifies this
      ensures pins == Without(old(pins), pinId)
      ensures selectedPin == if SelectedIdIs(old(selectedPin), pinId) then None else old(selectedPin)
      ensures old(SelectionInList()) ==> SelectionInList()
      ensures old(IdsDistinct(pins)) ==> IdsDistinct(pins)
    {
      if IdsDistinct(pins) {
        WithoutKeepsIdsDistinct(pins, pinId);
      }
      WithoutMembers(pins, pinId);
      pins := Without(pins, pinId);
      if SelectedIdIs(selectedPin, pinId) {
        selectedPin := None;
      }
    }

    /** `selectPin`: replace the selection and leave the list alone. */
    method SelectPin(pin: Option<Pin>)
      modifies this
      ensures selectedPin == pin
      ensures pins == old(pins)
      ensures (pin.None? || pin.value in pins) ==> SelectionInList()
    {
      selectedPin := pin;
    }
  }
}
