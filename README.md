# Zodiac placement map — a Dafny model

This project models the logic of a small React app that registers people,
gives each a (reversed lunar) zodiac sign, and lets the user drag them onto a
circular map of twelve sectors. The modelled parts are:

- **the sign catalog** (`zodiacSigns`): twelve entries in a fixed order, each
  naming its `opposite` sign and its element;
- **the map logic**: the nearest-sector scan that runs when a person is
  dropped, the record handed on to the app, the rule that highlights the
  selected sign and its opposite (on sectors and on placed markers), and the
  click that toggles the selection;
- **the placement store**: the `users` (unplaced) and `placedUsers` lists and
  `selectedSign`, rebuilt by the five handlers `handleAddUser`,
  `handleUserPlaced`, `handleRemoveUser`, `handleUpdateUnplacedUser` and
  `handleRemoveUnplacedUser`.

Files: `wrappers.dfy` (Option), `types.dfy` (the record shapes of
`src/types.ts`), `zodiac_data.dfy` (module `ZodiacData`), `zodiac_map.dfy`
(module `ZodiacMap`), `app.dfy` (module `App`).

Each handler computes new arrays with spread, `filter`, `map` and `find`, and
then overwrites the component state. The array computations are pure functions
on a `Rosters` value, one per handler. The component state is the class
`App.AppState`, and each of its methods states its new state as that function
of the old one. The properties (disjointness of the two id sets, a position present exactly
on placed records, no id lost,
place-then-remove, removing twice, frames) are proved about the functions.

Modelling choices:

- The handlers do no error checking, and the model keeps it that way. An id
  that is missing makes remove, update and delete a silent no-op.
  `handleUserPlaced` does not check that the person was unplaced. A person
  taken off the map keeps `placedOppositeSign`, because only `position` is
  set to null.
- `placedOppositeSign` holds the sector nearest to the drop point, not the
  catalog opposite of the person's sign.
- `crypto.randomUUID()` becomes a parameter `freshId`, required to be absent
  from both lists. The form's guard (non-empty name and sign) is a
  precondition of `HandleAddUser`. The form's `<select>` offers only catalog
  keys besides the empty choice.
- The twelve sector anchors are computed with `Math.cos`/`Math.sin` in the
  source. Here they are an input sequence of twelve points. Distances are
  compared squared, over `real`; the square root does not change which anchor
  is nearest.
- `minDistance` starts at JavaScript's `Infinity`, which is the `Bound.Infinity`
  constructor. Every finite distance is below it, so the scan always ends on a
  catalog key and never on the initial `''`.
- The truthiness test `selectedSign && …` is written out: the empty string
  highlights no opposite.

## Model

| member | source | states |
|---|---|---|
| ZodiacData.KeysOf | src/components/ZodiacMap.tsx:56-57 | the keys come out in the order of the entries, one per entry |
| ZodiacData.KeysCanonical | src/data/zodiacData.ts:3-100 | the catalog keys are exactly Aries, Taurus, …, Pisces in that order |
| ZodiacData.KeysDistinct | src/data/zodiacData.ts:3-100 | no key occurs twice |
| ZodiacData.KeysNonEmpty | src/components/ZodiacMap.tsx:53-67 | no key is the empty string that `closestSign` starts from |
| ZodiacData.IndexOfKey | src/data/zodiacData.ts:3-100 | the result is the first index holding the key, and None exactly when no entry holds it |
| ZodiacData.Lookup | src/components/ZodiacMap.tsx:192 | among the object's own properties, `zodiacSigns[key]` is an entry exactly for catalog keys, and it is the entry with that key |
| ZodiacData.LookupAt | src/data/zodiacData.ts:3-100 | looking up the key at index i returns the entry at index i |
| ZodiacData.AcrossIndex | src/data/zodiacData.ts:4-99 | the sector across the circle is at index (i + 6) mod 12 |
| ZodiacData.OppositeFieldAt | src/data/zodiacData.ts:4-99 | the `opposite` field at index i names the key at (i + 6) mod 12 |
| ZodiacData.OppositeAt | src/data/zodiacData.ts:4-99 | `zodiacSigns[Keys[i]]?.opposite` is the key at (i + 6) mod 12 |
| ZodiacData.OppositeInCatalog | src/data/zodiacData.ts:10 | every `opposite` value is a catalog key |
| ZodiacData.OppositeInvolution | src/data/zodiacData.ts:4-99 | the opposite of the opposite of a key is the key itself |
| ZodiacData.OppositeIrreflexive | src/data/zodiacData.ts:4-99 | no sign is its own opposite |
| ZodiacData.Opposite | src/components/ZodiacMap.tsx:224 | `zodiacSigns[key]?.opposite` is defined exactly when the key is a catalog key |
| ZodiacData.OppositeOutsideCatalog | src/components/ZodiacMap.tsx:192 | a string that is not a catalog key has an undefined opposite |
| ZodiacData.ElementCycle | src/data/zodiacData.ts:7-95 | the element at index i is 火, 土, 風, 水 by i mod 4, so indices i and i + 4 share an element |
| ZodiacMap.SquaredDistance | src/components/ZodiacMap.tsx:59-61 | the squared distance is never negative |
| ZodiacMap.FirstNearestUnique | src/components/ZodiacMap.tsx:63-66 | with strict `<`, at most one index is nearest with every earlier index strictly farther |
| ZodiacMap.NearestAmong | src/components/ZodiacMap.tsx:57-67 | after n anchors the scan holds an index below n that is no farther than any of them and strictly nearer than every earlier one |
| ZodiacMap.NearestIndex | src/components/ZodiacMap.tsx:53-67 | over all twelve anchors the result is the nearest one, ties going to the lowest index |
| ZodiacMap.ClosestSign | src/components/ZodiacMap.tsx:53-67 | the loop ends with the key at the nearest index (first on ties), a catalog key and never `''` |
| ZodiacMap.HandleDrop | src/components/ZodiacMap.tsx:42-77 | no payload means nothing is handed on; otherwise the snapshot with `placedOppositeSign` set to the nearest key, other fields unchanged, and the drop point |
| ZodiacMap.NothingHighlightedWithoutSelection | src/components/ZodiacMap.tsx:191-192 | with `selectedSign` null no sector is highlighted |
| ZodiacMap.SelectedSectorOnly | src/components/ZodiacMap.tsx:223 | `IsSelected` holds for the selected sector alone, and never with no selection |
| ZodiacMap.OppositeSectorOnly | src/components/ZodiacMap.tsx:224 | `IsOpposite` holds for the sector at (i + 6) mod 12 alone, and never with no selection |
| ZodiacMap.HighlightedSectors | src/components/ZodiacMap.tsx:189-192 | `ShouldHighlight`: selecting the sign at index i highlights sector j exactly when j is i or (i + 6) mod 12 |
| ZodiacMap.AriesHighlightsLibra | src/components/ZodiacMap.tsx:191-192 | selecting Aries highlights Aries and Libra and nothing else |
| ZodiacMap.HighlightSymmetric | src/components/ZodiacMap.tsx:191-192 | for catalog signs a highlights b exactly when b highlights a |
| ZodiacMap.UnknownSelectionHighlightsNothing | src/components/ZodiacMap.tsx:222-224 | a selection outside the catalog highlights no catalog sector |
| ZodiacMap.MarkerIgnoresPlacedSector | src/components/ZodiacMap.tsx:267-270 | a user without a position gets no marker, and a marker's highlight does not depend on `placedOppositeSign` |
| ZodiacMap.MarkerRule | src/components/ZodiacMap.tsx:268-270 | `MarkerHighlight`: a placed user's marker is highlighted exactly when the user's own sign is the selection or the sign across from it, and never with no selection |
| ZodiacMap.ClickSelection | src/components/ZodiacMap.tsx:237 | clicking the selected sign clears the selection; clicking any other sign selects it |
| ZodiacMap.ClickTwice | src/components/ZodiacMap.tsx:237 | two clicks on one sign leave it selected only if it was selected before |
| App.WithoutId | src/App.tsx:36 | the filtered list holds exactly the records whose id differs, its ids are the old ids minus that id, and an absent id leaves the list as it was |
| App.WithoutIdAppend | src/App.tsx:36 | filtering distributes over concatenation, so kept records keep their relative order |
| App.FirstIndexOfId | src/App.tsx:44 | the index is that of the first record with the id, and None exactly when no record has it |
| App.FindById | src/App.tsx:44 | `find` returns a record with the id, the first one, exactly when the id occurs |
| App.FindAfterAppend | src/App.tsx:44 | on a list whose prefix lacks the id, `find` returns the appended record |
| App.UpdateWhereId | src/App.tsx:125-127 | same length; each record keeps its id, position and sector; matching records take the new name and sign; the others are identical |
| App.UpdateWhereIdFrame | src/App.tsx:125-127 | the update keeps the set of ids, and an absent id changes nothing |
| App.AddUser | src/App.tsx:28-31 | unplaced is the old list plus one record at its end with the given id, name and sign and null position; placed is unchanged; the id is added; disjointness is kept for a fresh id; positions keep matching the lists |
| App.UserPlaced | src/App.tsx:34-41 | placed is the old list plus the snapshot at the drop position at its end; unplaced keeps exactly the records with another id; disjointness is kept when the id was not placed; positions keep matching the lists |
| App.RemoveUser | src/App.tsx:43-53 | a placed id leaves placed entirely, and its first record returns to the end of unplaced with null position; an unplaced or unknown id changes nothing; no id is lost; disjointness is kept; positions keep matching the lists |
| App.UpdateUnplacedUser | src/App.tsx:124-130 | unplaced is updated in place by id, placed is untouched, ids, disjointness and matching positions are kept, an absent id changes nothing |
| App.RemoveUnplacedUser | src/App.tsx:132-136 | unplaced loses the records with the id, placed is untouched, disjointness and matching positions are kept, an absent id changes nothing |
| App.PlaceThenRemove | src/App.tsx:34-53 | placing a not-yet-placed user and removing it restores placed and returns the same record, position null, to the end of unplaced |
| App.RemoveTwice | src/App.tsx:43-53 | a second removal of the same id changes nothing |
| App.AddPlaceRemove | src/App.tsx:28-53 | add, drop and remove leave the person at the end of unplaced with the same id, name and sign, null position and the recorded sector |
| App.AppState.constructor | src/App.tsx:11-13 | both lists start empty (hence disjoint, with matching positions) and nothing is selected |
| App.AppState.HandleAddUser | src/App.tsx:28-32 | the new state is `AddUser` of the old one; the selection is unchanged |
| App.AppState.HandleUserPlaced | src/App.tsx:34-41 | the new state is `UserPlaced` of the old one; the selection is unchanged |
| App.AppState.HandleRemoveUser | src/App.tsx:43-53 | the new state is `RemoveUser` of the old one; the selection is unchanged |
| App.AppState.HandleUpdateUnplacedUser | src/App.tsx:124-130 | the new state is `UpdateUnplacedUser` of the old one |
| App.AppState.HandleRemoveUnplacedUser | src/App.tsx:132-136 | the new state is `RemoveUnplacedUser` of the old one |
| App.AppState.SetSelectedSign | src/App.tsx:12 | the selection becomes the given value and the lists are untouched |
| App.AppState.ClickSign | src/components/ZodiacMap.tsx:237 | a click stores the toggled selection and leaves the lists alone |
| App.AppState.Drop | src/App.tsx:176 | a drop with a payload places the snapshot, stamped with the nearest key, at the drop point; a drop without one changes nothing |

## Left out

- Trigonometry and floating point: the sector anchors (`getSignPosition`), label
  points, the unused `getUserPosition`, the wedge paths and the opposite lines.
  The anchors are an input sequence, and coordinates are exact reals. The wedges
  are drawn from `index * 30` degrees with no −90° offset, so they are rotated
  against the anchors. This affects only the drawing.
- ZodiacMap.ClosestSign: compares squared distances over exact reals. It does not
  model floating-point rounding of the distance computation. Rounding in the
  subtractions, `Math.pow` and the sum could reorder two nearly equal distances;
  the rounding of `Math.sqrt` could only make them tie.
- ZodiacData.Lookup: covers the object's own properties only. Names inherited
  from the object prototype (`toString`, `constructor`, `__proto__`, …) give a
  value in JavaScript but `None` here. The core reads only `?.opposite`, which
  is undefined for those names too, so `Opposite` is exact.
- Local storage load and save, JSON (de)serialisation, and the Save button
  (`handleSave`). These are I/O.
- The PNG export (`handleDownloadImage`). This is DOM, canvas and blob I/O.
- Drag-event plumbing: `dataTransfer`, `getBoundingClientRect` and `JSON.parse`.
  The model starts from the parsed snapshot, present or absent, and the drop
  point relative to the map.
- `crypto.randomUUID`: the id is a parameter.
- The presentation components (user form, user list, user table) and all
  styling. `UserList` receives no update or delete callbacks, but the two
  handlers are modelled anyway.
- Error results: the handlers report no validation or not-found errors. An
  unknown id is a silent no-op, as modelled.
