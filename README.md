# Map pin tool: a Dafny model of its state rules

The tool is a browser page. A click on the map opens a form. The user types a
remark, and the tool then looks up an address for the clicked point and adds
a pin. The pins are listed in a sidebar, which lets the user select them or,
after a confirmation prompt, delete them. This project models the logic of
that flow and proves properties of it:

- `App` (`src/App.jsx`): the store. It holds the ordered pin list and the
  optional selection. `PinStore.AddPin`, `DeletePin` and `SelectPin` are the
  three handlers. `Without` is the list that `filter` leaves.
- `MapComponent` (`src/components/MapComponent.jsx`): the entry flow, with a
  form-open flag and a pending location (`PinEntry`). It also holds the
  address fallback applied to the result of the geocoding lookup
  (`AddressFor`) and the marker icon rule (`IconFor`, `Markers`).
- `PinForm` (`src/components/PinForm.jsx`): the remark form (`RemarkForm`).
  Submitting goes through a trimmed-remark gate and sets a busy flag around
  the callback. The submit button is disabled for a blank remark or while a
  submit is pending. Two controls cancel: the footer Cancel button, disabled
  while a submit is pending, and the header close icon, which is never
  disabled. Cancelling clears the text.
- `Sidebar` (`src/components/Sidebar.jsx`): address truncation, the count
  label, the rows with their highlight, and the row and trash click handlers.
- `Types` and `JsText`: the pin record and its draft, and the JavaScript
  string built-ins the code relies on (`trim`, `substring`, number to string).

The React callback props are modelled as object parameters, wired as the
application wires them. `RemarkForm.HandleSubmit` receives the map's
`PinEntry`, whose `HandlePinSubmit` receives the `PinStore`. So the contract
of one submit covers the whole chain from typed remark to appended pin.
Inputs stand in for the clock, the network and the confirmation dialog:
`now` is the `Date.now()` reading that becomes the id, `timestamp` is the ISO
creation time, `outcome` is how the geocoding request settled, and
`confirmed` is the dialog's answer.

`PinForm.handleSubmit` awaits its callback. The model splits it at the
`await` into `BeginSubmit` (busy, forwards the trimmed remark) and
`EndSubmit` (idle again). `HandleSubmit` runs the callback between them.

## Model

| member | source | states |
|---|---|---|
| `App.PinStore.AddPin` | src/App.jsx:20-22 | The list becomes the old list with one pin appended. That pin is the draft with `id` = the clock reading. The selection is unchanged. Selection-in-list and distinct ids (when the reading is later than every id) are preserved. |
| `Types.WithId` | src/App.jsx:21 | The appended record carries every draft field unchanged (its draft part is the draft), and its id is the supplied value. |
| `App.AppendKeepsIdsDistinct` | src/App.jsx:21 | Appending with a clock reading later than every existing id keeps the ids distinct. |
| `App.PinStore.DeletePin` | src/App.jsx:24-29 | The list becomes `Without(old list, id)`. The selection becomes None exactly when it carried the deleted id, and is otherwise unchanged. Selection-in-list and distinct ids are preserved. |
| `App.Without` | src/App.jsx:25 | The list left by `filter(pin => pin.id !== pinId)` is never longer than the original; its members and order are stated by the lemmas below. |
| `Types.SelectedIdIs` | src/App.jsx:26 | `selectedPin?.id === pinId` is false when nothing is selected, and otherwise compares the selected pin's id. The same test is used at src/components/MapComponent.jsx:145 and src/components/Sidebar.jsx:47. |
| `App.WithoutMembers` | src/App.jsx:25 | A pin remains iff it was in the list and its id differs from the deleted id, so every pin with that id goes, duplicates included. |
| `App.WithoutConcat` | src/App.jsx:25 | Filtering distributes over concatenation, so the remaining pins keep their relative order. |
| `App.WithoutAbsent` | src/App.jsx:25 | Deleting an id no pin carries leaves the list unchanged. |
| `App.WithoutIdempotent` | src/App.jsx:25 | Deleting the same id twice equals deleting it once. |
| `App.RemovesExactlyOne` | src/App.jsx:25 | With distinct ids, deleting the id of the pin at k gives the list with exactly that pin removed, one shorter. |
| `App.WithoutKeepsIdsDistinct` | src/App.jsx:25 | Deleting keeps the remaining ids distinct. |
| `App.PinStore.SelectPin` | src/App.jsx:31-33 | The selection becomes the argument and the list is unchanged. Selecting a listed pin (or none) keeps the selection in the list. |
| `App.InitialPins` | src/App.jsx:9-12 | An absent stored slot gives the empty list, and a present one gives its decoded list. |
| `App.PinStore.constructor` | src/App.jsx:9-14 | The store starts with the initializer's list and no selection. |
| `MapComponent.PinEntry.constructor` | src/components/MapComponent.jsx:64-65 | The form starts closed, with no pending location. |
| `MapComponent.PinEntry.HandleMapClick` | src/components/MapComponent.jsx:68-71 | The pending location becomes the clicked coordinates and the form opens. |
| `MapComponent.PinEntry.HandlePinCancel` | src/components/MapComponent.jsx:113-116 | The form closes and the pending location is cleared. |
| `MapComponent.PinEntry.HandlePinSubmit` | src/components/MapComponent.jsx:73-111 | Without a pending location, nothing is added and nothing changes. With one, exactly one draft goes to the store: the pending lat/lng, the given remark, the fallback address and the timestamp. The store's list grows by that pin, and then the form closes and the location clears. "Form open iff location pending" is preserved, and from an open form in that state a submit always reaches the store, so the `if (clickedLocation)` guard never discards it. |
| `MapComponent.DraftFor` | src/components/MapComponent.jsx:84-90 | The `newPin` record of both branches: the pending lat/lng, the remark as given, the timestamp, and the fallback address, which is never empty. |
| `MapComponent.AddressFor` | src/components/MapComponent.jsx:82-102 | A successful lookup with a non-empty `display_name` gives that name. A success without one gives 'Address not found'. A failure gives 'Address not available'. The address is never empty. |
| `MapComponent.FailureStillBuildsPin` | src/components/MapComponent.jsx:95-106 | A failed lookup still yields a draft at the clicked point, with the remark, the 'Address not available' sentinel and the timestamp. |
| `MapComponent.DraftIgnoresOutcomeButAddress` | src/components/MapComponent.jsx:84-103 | In both branches the draft's lat/lng are the pending location and its remark is the argument. Only the address differs between outcomes. |
| `MapComponent.IconFor` | src/components/MapComponent.jsx:145 | The selected icon is used iff the selection carries the pin's id. With nothing selected every pin gets the default icon, and the selected pin itself always gets the selected one. |
| `MapComponent.Markers` | src/components/MapComponent.jsx:141-145 | There is one marker per pin, in list order, and each marker's icon follows `IconFor`. |
| `MapComponent.SelectedMarkerUnique` | src/components/MapComponent.jsx:141-145 | With distinct ids, at most one marker is selected, and one is when the selected pin is in the list. |
| `PinForm.Forwarded` | src/components/PinForm.jsx:10-12 | Nothing is forwarded iff the remark is whitespace only. Otherwise the forwarded value is the non-empty trimmed remark. |
| `PinForm.ForwardedIsTrimmed` | src/components/PinForm.jsx:12 | The forwarded value has no leading or trailing whitespace. It is the remark's inner slice. |
| `PinForm.SubmitDisabled` | src/components/PinForm.jsx:72 | The submit button is disabled iff the remark is ECMAScript whitespace only or a submit is pending. |
| `PinForm.CancelDisabled` | src/components/PinForm.jsx:30-35 | Of the two cancel controls, only the footer Cancel button (line 66) is ever disabled, and only while a submit is pending. The header close icon is never disabled, so cancelling stays possible during a submit. |
| `PinForm.SubmitEnabledIffForwards` | src/components/PinForm.jsx:72 | The submit button is enabled iff the form is idle and the trimmed remark is non-empty. By contraposition, it is disabled iff the trimmed remark is empty or a submit is pending. |
| `PinForm.RemarkForm.constructor` | src/components/PinForm.jsx:5-6 | The form starts with empty text and idle. |
| `PinForm.RemarkForm.OnRemarkChange` | src/components/PinForm.jsx:52 | Typing replaces the remark and leaves the busy flag unchanged. |
| `PinForm.RemarkForm.BeginSubmit` | src/components/PinForm.jsx:10-12 | The forwarded value is `Forwarded(remark)`. When something is forwarded the form is busy; a rejected submit leaves remark and busy flag unchanged. |
| `PinForm.RemarkForm.EndSubmit` | src/components/PinForm.jsx:13 | After the awaited callback returns, the form is idle and the remark is unchanged. |
| `PinForm.RemarkForm.HandleSubmit` | src/components/PinForm.jsx:8-15 | A blank remark calls nothing and changes nothing in form, entry or store. Otherwise the trimmed remark is submitted: the store gains the pin built from it at the pending location, the form closes, the location clears, and the busy flag ends false. From an open form, a non-blank submit always adds exactly one pin. |
| `PinForm.RemarkForm.HandleCancel` | src/components/PinForm.jsx:17-20 | The remark becomes empty. The map's cancel handler runs, so the form closes and the pending location is cleared. |
| `JsText.Trim` | src/components/PinForm.jsx:10 | `trim` is empty iff the text is all ECMAScript whitespace. A non-empty result neither starts nor ends with whitespace. |
| `JsText.TrimIsInnerSlice` | src/components/PinForm.jsx:12 | The trimmed text is a contiguous slice of the original, and only whitespace lies outside it. |
| `JsText.TrimIdempotent` | src/components/PinForm.jsx:12 | Trimming twice equals trimming once. |
| `Sidebar.Truncate` | src/components/Sidebar.jsx:13-16 | A text within budget is returned unchanged. Otherwise the result is its first `maxLength` characters (clamped to 0..length) followed by "...". The default budget is 50. |
| `Sidebar.TruncateLength` | src/components/Sidebar.jsx:15 | Over budget, the length is maxLength + 3. The length is never more than that, and is either the original length or maxLength + 3. |
| `Sidebar.TruncateKeepsPrefix` | src/components/Sidebar.jsx:13-16 | The result always begins with the text's first min(length, maxLength) characters. |
| `Sidebar.TruncateIdempotent` | src/components/Sidebar.jsx:13-16 | Truncating an already truncated text changes nothing. |
| `Sidebar.Budgets` | src/components/Sidebar.jsx:61 | Leaving out the budget means 50. An address over 80 characters is shown as 83 characters. |
| `Sidebar.CountLabel` | src/components/Sidebar.jsx:27 | The label reads "1 pin saved" for one pin, and "k pins saved" (k in decimal) otherwise, including zero. |
| `JsText.NatToStringRoundTrip` | src/components/Sidebar.jsx:27 | The count's decimal rendering reads back as the count. |
| `Sidebar.CountLabelInjective` | src/components/Sidebar.jsx:27 | Different counts give different labels. |
| `Sidebar.Rows` | src/components/Sidebar.jsx:43-61 | There is one row per pin, in list order. A row is highlighted iff the selection carries its pin's id, and its address line is the address truncated to 80. |
| `Sidebar.RowsAgreeWithMarkers` | src/components/Sidebar.jsx:47 | The sidebar highlights row i exactly when the map gives marker i the selected icon. |
| `Sidebar.NoHighlightAfterDeletingSelected` | src/App.jsx:24-29 | After the selected pin's id is deleted, no remaining row is highlighted, even if the selection were kept. |
| `Sidebar.Render` | src/components/Sidebar.jsx:27-93 | The view has the count label for the list's length. The "no pins yet" placeholder appears iff the list is empty; otherwise the rows appear. |
| `Sidebar.DeleteRequest` | src/components/Sidebar.jsx:77-79 | A delete of the pin's id is requested iff the confirmation answer is yes. |
| `Sidebar.OnRowClick` | src/components/Sidebar.jsx:49 | Clicking a row selects its pin and leaves the list unchanged. |
| `Sidebar.OnTrashClick` | src/components/Sidebar.jsx:75-79 | On yes, the store does `DeletePin(pin.id)`. On no, list and selection are unchanged. The click does not select the row. |

## Left out

- Leaflet and React rendering are left out: tiles, the marker HTML and CSS, the default-icon patch, popups, and recentering on the selected pin. They are calls into a UI library. A marker click calls the same `selectPin` as a row click (`Sidebar.OnRowClick`).
- The Nominatim request and `response.json()` are network I/O and are not modelled. Only how the request settled is an input (`MapComponent.Geocode`). `Success(None)` also stands for a body whose `display_name` is another falsy value.
- localStorage and JSON are a foreign storage API. The stored slot enters already decoded, as `Option<seq<Pin>>`. The write-back effect after every change is not modelled, and neither is the unhandled parse failure.
- `Date.now`, `toISOString` and the date formatting for display are clock and locale formatting. The id and the timestamp are inputs.
- The coordinate `toFixed` formatting is float formatting, and is left out. Coordinates are `real` values that are carried, never computed with.
- Async interleaving and `window.confirm` are left out. The awaited callback is one atomic step, and the dialog's answer is a boolean input. A cancel or unmount while the lookup is pending is not modelled. One consequence is not captured: the header close icon stays enabled during a submit, so the user can cancel while the lookup runs, and the pending `handlePinSubmit` call still holds the location it started with, so it still calls `onAddPin` afterwards. The pin is added even though the user cancelled.
- PinForm mount/unmount is not modelled. The form's state lives only while it is shown. The model keeps one `RemarkForm` object, and its `EndSubmit` still clears the busy flag, which React drops for an unmounted form.
- `Sidebar.Truncate` counts Unicode scalar values, whereas JavaScript `length` and `substring` count UTF-16 code units. So texts outside the Basic Multilingual Plane are cut at a different point.
- JSX text nodes are not modelled. `Sidebar.CountLabel` gives the label as one string.
