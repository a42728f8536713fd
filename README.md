# Selection and filter state of the agrohack24 dashboard

This project models the client-side state of the dashboard's main page (`src/pages/index.jsx`):

- which territory (a set of H3 cells) is selected;
- how the territory button, the selection dialog and map clicks move between the three modes
  (idle, choosing in the dialog, drawing on the map);
- what the page keeps in browser storage;
- which sample (phenotype) names are selected, and how the samples dialog edits, dedupes and
  commits them;
- the body of the polygon request;
- the rows the yield table keeps.

Modules:

- `JsValues` (`js_values.dfy`): the JavaScript values the page reads back from storage.
  - JSON text is abstracted to the value it encodes, or to "unparsable" text, which makes
    `JSON.parse` throw.
  - JavaScript falsiness and `||`.
  - A `LocalStorage` class: a key → item map changed in place by `setItem` and `removeItem`.
- `Lists` (`lists.dfy`):
  - `filter(y => y !== x)` as `Without`;
  - the iteration order of `new Set(list)` (first insertion) as `Dedupe`;
  - the facts the rest of the model needs about both.
- `Order` (`order.dfy`):
  - the default `Array.prototype.sort` order on strings;
  - `Object.keys(m).sort()` as `SortedKeys`, proved ascending, duplicate-free and unique.
- `Territory` (`territory.dfy`):
  - the presets and their labels (the same constants as the source);
  - the territory state machine as pure transition functions, with a `Run` over event sequences;
  - the proved properties of these transitions;
  - the `CellSet` class standing for the mutable `selectedHexagons` object.
- `Samples` (`samples.dfy`):
  - the first-run default selection;
  - `fetchSelectedSamples`, including its `[].length` quirk;
  - the dialog's table;
  - the `SamplesSelectingDialog` class with its drag, select-all and commit handlers;
  - the yield-table filter.
- `IndexPage` (`index_page.dfy`): the `Index` class. It has one method per event:
  - mount, map ready, date change;
  - the territory button, the dialog callbacks, map clicks;
  - polygon and detail responses;
  - the samples dialog's open, close and confirm.

  Each React state setter is a field update. Every effect runs once after the first render and
  again whenever a handler changed one of its dependencies. A method whose effects send a
  polygon or detail request returns the request it sends. The polygon request of the first
  render is the field `mountRequest`; the date and mode effects send it after mounting.

  The invariant `Valid()` holds on every method:
  - the preset objects keep their cells;
  - drawing mode implies the "custom" flag;
  - while that flag is set, the object being edited in place is not a preset object;
  - storage holds the current selection.

Behaviour of the page worth noting:

- `JSON.parse` is not guarded. Unparsable text under `selectedSamples` or `selectedHexagons`
  makes the page throw (the `SyntaxError` result); it is not treated as absent.
- No effect depends on `selectedHexagons` for fetching. A change of the selected cells only
  writes storage (lines 158-160). Polygons are fetched:
  - at mount, by the date and mode effects (lines 148-156);
  - when the map is created;
  - on every date change;
  - on a mode change that ends outside the selecting modes.
- `initMap` is the first render's function (lines 144-146). When the map is created it sends
  the mount request again: a date picked or a preset chosen before the map library is ready
  does not reach that request.
- The details of a cell are requested when a click outside drawing mode focuses a different
  loaded cell, and on every date change while a cell is focused (lines 239-242).
- The date effect (lines 148-150) fetches in every mode, including while the dialog is open
  or a drawing is in progress.
- Entering drawing mode clears the focused cell only when the selection is cleared, that is
  when the custom flag was not yet set (lines 416-419).

## Model

| member | source | states |
|---|---|---|
| JsValues.Parse | src/pages/index.jsx:86 | `JSON.parse` succeeds exactly on encoded text and then gives the encoded value; otherwise it is a `SyntaxError` |
| JsValues.LocalStorage.GetItem | src/pages/index.jsx:80 | `getItem` gives an item exactly when the key is stored, and then the stored one |
| JsValues.LocalStorage.SetItem | src/pages/index.jsx:83 | `setItem` replaces the one entry and keeps all others |
| JsValues.LocalStorage.RemoveItem | src/pages/index.jsx:746 | `removeItem` drops the one entry and keeps all others |
| JsValues.StorageKeysDistinct | src/pages/index.jsx:80-95 | the two storage keys the page uses are different entries |
| Lists.Without | src/pages/index.jsx:640-642 | the filtered list holds exactly the other values and is no longer than the input |
| Lists.WithoutIsSubsequence | src/pages/index.jsx:640-642 | filtering keeps the remaining values in their order |
| Lists.WithoutCount | src/pages/index.jsx:640-642 | filtering removes exactly the occurrences of the value |
| Lists.WithoutAbsent | src/pages/index.jsx:640-642 | filtering out a value that is not there changes nothing |
| Lists.WithoutNoDups | src/pages/index.jsx:218 | deleting a key from a duplicate-free key list keeps it duplicate-free |
| Lists.IndexOf | src/pages/index.jsx:748 | the first position of a value: it holds the value and no earlier position does |
| Lists.Dedupe | src/pages/index.jsx:748 | `new Set(list)` holds no duplicates and exactly the values of the list |
| Lists.DedupeFirstOccurrenceOrder | src/pages/index.jsx:747-750 | set iteration orders the values by their first occurrence in the list |
| Lists.DedupeDistinct | src/pages/index.jsx:747-750 | a duplicate-free list comes out unchanged |
| Lists.DedupeIdempotent | src/pages/index.jsx:747-750 | deduping a deduped list changes nothing |
| Order.LeReflexive | src/pages/index.jsx:610 | the string sort order is reflexive |
| Order.LeTotal | src/pages/index.jsx:610 | any two names are comparable |
| Order.LeAntisymmetric | src/pages/index.jsx:610 | names that sort before each other are equal |
| Order.LeTransitive | src/pages/index.jsx:610 | the sort order is transitive |
| Order.LeastExists | src/pages/index.jsx:609-610 | every non-empty set of names has a least name |
| Order.LeastUnique | src/pages/index.jsx:609-610 | the least name of a set is unique |
| Order.SortedKeys | src/pages/index.jsx:609-610 | `Object.keys(m).sort()` is ascending, duplicate-free, has exactly the keys, one entry per key |
| Order.SortedKeysUnique | src/pages/index.jsx:609-610 | any ascending duplicate-free list of exactly those keys is the sorted key list |
| Territory.FindCell | src/pages/index.jsx:229 | `find` returns nothing exactly when no loaded cell has the id, else the first one that has it |
| Territory.IsTerritorySelectingMode | src/pages/index.jsx:89-91 | the page is selecting exactly in the dialog and drawing modes |
| Territory.ToggledMode | src/pages/index.jsx:434-442 | the button always changes the mode, ends idle exactly when it was not idle, and opens the dialog from idle |
| Territory.Toggle | src/pages/index.jsx:433-443 | the button switches between a selecting mode and idle and keeps label, flag, cells and focus |
| Territory.CloseDialog | src/pages/index.jsx:425-427 | closing the dialog leaves the selecting modes and keeps label, flag, cells and focus |
| Territory.ChooseCode | src/pages/index.jsx:408-424 | a choice never stays in the dialog; it draws, sets the custom flag and drops the label exactly for a non-preset; a preset clears the focus and shows a preset label; a repeated draw keeps cells and focus |
| Territory.FlipCell | src/pages/index.jsx:217-222 | exactly the clicked cell changes membership |
| Territory.ClickCell | src/pages/index.jsx:213-233 | a click keeps mode, label and flag; while drawing it flips the clicked cell and keeps the focus; otherwise it keeps the cells and focuses a loaded cell with that id, or nothing exactly when none is loaded |
| Territory.ModeEffectFires | src/pages/index.jsx:152-156 | the mode effect fetches exactly when the mode changed and is now idle |
| Territory.ButtonLabel | src/pages/index.jsx:445-451 | the caption is never empty; idle shows a non-empty label or else "Выбрать"; the dialog mode shows "..." and drawing shows "Подтвердить" |
| Territory.ToggleTransitions | src/pages/index.jsx:433-443 | the button maps drawing to idle, idle to the dialog, the dialog to idle, and changes nothing else |
| Territory.CloseDialogIdles | src/pages/index.jsx:425-427 | closing the dialog always gives idle and keeps everything else |
| Territory.PresetCellsDistinct | src/pages/index.jsx:27-47 | each preset lists every cell once |
| Territory.ChoosePresetEffects | src/pages/index.jsx:409-414 | a known preset key selects exactly that preset's cells, clears the focus, sets the preset's label, goes idle, resets the custom flag |
| Territory.ChooseOwnAreaEffects | src/pages/index.jsx:415-423 | `null` or an unknown key clears cells and focus only when the custom flag was unset, else keeps both; then the flag is set, the mode is drawing, the label is null |
| Territory.RedrawKeepsArea | src/pages/index.jsx:415-423 | confirming a drawing and choosing "draw" again resumes with the same cells and focus |
| Territory.ClickWhileDrawing | src/pages/index.jsx:216-224 | while drawing, a click flips the membership of exactly the clicked cell, keeps the cells distinct and changes nothing else |
| Territory.ClickTwiceRestores | src/pages/index.jsx:216-224 | two clicks on the same cell restore the selected set, and the same list when the cell was absent |
| Territory.ClickOutsideDrawing | src/pages/index.jsx:225-229 | outside drawing mode a click keeps the cells and focuses the loaded cell with that id |
| Territory.ClickParity | src/pages/index.jsx:216-224 | after any clicks while drawing, a cell is selected iff it was selected xor it was clicked an odd number of times |
| Territory.StepCoherent | src/pages/index.jsx:408-443 | every event keeps "drawing implies custom" and distinct cells |
| Territory.RunCoherent | src/pages/index.jsx:408-443 | after any sequence of events, drawing mode implies the custom flag |
| Territory.ModeRefetchIffIdle | src/pages/index.jsx:152-156 | a mode event makes the mode effect fetch exactly when the new mode is idle |
| Territory.PresetLabelShown | src/pages/index.jsx:445-451 | after a preset is chosen the territory button shows its label |
| Territory.CellSet.constructor | src/pages/index.jsx:227 | a new object holds exactly the given keys |
| Samples.CatalogNames | src/pages/index.jsx:609-610 | the catalog names in ascending order, each once, exactly the catalog's keys |
| Samples.Found | src/pages/index.jsx:531 | `!!find` holds exactly when some element equals the name and is a non-empty string |
| Samples.InitialSamples | src/pages/index.jsx:79-87 | with nothing stored, all catalog names ascending and distinct; else an error exactly for unparsable text; a stored value itself when truthy and `[]` when falsy; never a falsy value |
| Samples.ReloadAfterCommit | src/pages/index.jsx:79-87 | a stored array is what the next page load starts from, and equals what a fetch returns |
| Samples.LoadSelectedSamples | src/pages/index.jsx:79-87 | the initializer returns the initial selection and seeds storage on first run only |
| Samples.DefaultSelection | src/pages/index.jsx:80-85 | on first run the selection and the stored array are exactly the sorted catalog names, the only ascending duplicate-free list of them |
| Samples.LoadKeepsStoredValue | src/pages/index.jsx:79-87 | a stored entry is never overwritten at load; unparsable text throws; a falsy value gives `[]` |
| Samples.FetchSelectedSamples | src/pages/index.jsx:765-769 | nothing stored gives `[]`; a falsy parsed value gives the number 0, otherwise the parsed value itself; it throws exactly on unparsable text |
| Samples.FetchAfterStore | src/pages/index.jsx:765-769 | reading back a stored array gives that array |
| Samples.SamplesTable | src/pages/index.jsx:608-618 | one row per catalog name, each with its catalog values, flagged iff `find` reports the name in the working list |
| Samples.TableNames | src/pages/index.jsx:609-611 | row i is the i-th sorted catalog name |
| Samples.TableAscending | src/pages/index.jsx:609-610 | the rows are in strictly ascending order of name |
| Samples.TableCoversCatalog | src/pages/index.jsx:608-618 | every catalog name has a row |
| Samples.UpdatedList | src/pages/index.jsx:636-644 | an additive edit appends the name after the unchanged list; a subtractive one removes the name and keeps every other name |
| Samples.UpdateEffects | src/pages/index.jsx:636-647 | a subtractive edit removes every copy of the name, keeps the other names in order; an additive one appends the name |
| Samples.SelectAllList | src/pages/index.jsx:649-656 | a ticked box empties the list; an unticked one takes every catalog name, sorted and distinct |
| Samples.AdditiveDragRepeats | src/pages/index.jsx:636-647 | an additive drag over a selected row appends the name again, so the select-all length test can hold with a name unselected |
| Samples.AdditiveEditCounts | src/pages/index.jsx:636-644 | every additive edit adds exactly one copy of the name, even when the list already holds it |
| Samples.CollectUnique | src/pages/index.jsx:747-751 | the loop pushes exactly the distinct names in first-insertion order |
| Samples.CommitContents | src/pages/index.jsx:745-752 | a commit stores each working name once, ordered by first occurrence, and committing again changes nothing |
| Samples.SamplesSelectingDialog.constructor | src/pages/index.jsx:602-621 | the working list is the fetched array; select-all starts as "list length = catalog size" |
| Samples.SamplesSelectingDialog.UpdateItemSelection | src/pages/index.jsx:636-647 | the list is edited by the drag mode, and select-all becomes "list length = catalog size" |
| Samples.SamplesSelectingDialog.MouseDownRow | src/pages/index.jsx:713-717 | pressing a row starts a drag that adds iff the row was unselected, and applies it to that row |
| Samples.SamplesSelectingDialog.MouseEnterRow | src/pages/index.jsx:708-712 | entering a row during a drag applies the drag's mode to it; otherwise nothing changes |
| Samples.SamplesSelectingDialog.EndDrag | src/pages/index.jsx:685-692 | leaving the table or releasing the button ends the drag and resets the mode to additive |
| Samples.SamplesSelectingDialog.HelperSelectAll | src/pages/index.jsx:649-656 | select-all negates the flag and sets the list from the old flag |
| Samples.SamplesSelectingDialog.Commit | src/pages/index.jsx:745-753 | confirm removes and rewrites the stored entry with the deduped working list |
| Samples.KeepSelected | src/pages/index.jsx:530-533 | a prediction is kept iff `find` reports its sample in the selection |
| Samples.YieldTable | src/pages/index.jsx:530-533 | every prediction with filtering off; a `TypeError` exactly when filtering on a non-array with rows to test; otherwise only predictions from the input |
| Samples.KeepSelectedOrder | src/pages/index.jsx:530-533 | the kept predictions keep their order, each as often as in the input |
| Samples.YieldTableFilters | src/pages/index.jsx:530-533 | with filtering off every prediction is shown; on, with an array selection, exactly the selected ones |
| Samples.YieldTableThrows | src/pages/index.jsx:530-533 | with filtering on and predictions to show, a non-array selection (the number 0) throws |
| IndexPage.LoadSelectedHexagons | src/pages/index.jsx:93-97 | nothing stored gives `{}`; a stored object gives its keys once each; unparsable text throws |
| IndexPage.HexagonsRoundTrip | src/pages/index.jsx:93-97 | a stored selection reads back as the same keys in the same order |
| IndexPage.SeedingKeepsHexagons | src/pages/index.jsx:79-97 | seeding the sample default leaves the stored hexagons alone |
| IndexPage.NewPresets | src/pages/index.jsx:27-47 | one new object per preset, holding that preset's cells |
| IndexPage.Mount | src/pages/index.jsx:79-97 | mounting loads both selections and stores the loaded hexagons back |
| IndexPage.ReloadRestoresSelection | src/pages/index.jsx:158-160 | in every valid state, a reload reads back exactly the current selection |
| IndexPage.Index.constructor | src/pages/index.jsx:67-160 | mount starts idle with no label, focus or custom flag, the loaded cells and samples, the initial date, no map and no responses; the mount request has the initial date and the loaded cell ids |
| IndexPage.Index.PolygonBody | src/pages/index.jsx:117-124 | the request carries the current date, and in every valid state its ids are duplicate-free and exactly what a reload would restore |
| IndexPage.Index.MapReady | src/pages/index.jsx:126-146 | the map is created once, and only its creation asks for polygons, with the mount request |
| IndexPage.Index.SetDate | src/pages/index.jsx:148-150 | a new date always asks for polygons with that date and the current cell ids, and for the focused cell's details at that date exactly when a cell with a non-empty id is focused (lines 239-242) |
| IndexPage.Index.ToggleButton | src/pages/index.jsx:433-443 | the button performs the toggle transition and fetches exactly when it ends in idle |
| IndexPage.Index.SetSelectedHexagons | src/pages/index.jsx:158-160 | setting the selection stores it |
| IndexPage.Index.OnSelectionCode | src/pages/index.jsx:408-424 | the dialog choice performs the choose transition, selects the preset object itself for a known key, a fresh object the first time for drawing, and fetches exactly for a known key |
| IndexPage.Index.ChoosePreset | src/pages/index.jsx:409-414 | a known key selects that preset's object and goes idle |
| IndexPage.Index.DrawOwnArea | src/pages/index.jsx:415-423 | "draw" starts from a fresh empty object unless a drawing is kept, then draws |
| IndexPage.Index.ClearSelection | src/pages/index.jsx:416-419 | the first "draw" selects a fresh empty object and clears the focus |
| IndexPage.Index.CloseDialog | src/pages/index.jsx:425-427 | closing the dialog goes idle and fetches |
| IndexPage.Index.ClickCell | src/pages/index.jsx:213-242 | a click performs the click transition; while drawing, the object edited in place is never a preset and is replaced by a fresh copy that is stored; a detail request for the clicked id and the current date goes out exactly when, outside drawing, the id is non-empty and a loaded cell with it becomes the new focus |
| IndexPage.Index.FlipSelected | src/pages/index.jsx:216-224 | the in-place edit flips the clicked cell in a non-preset object, then selects and stores a copy |
| IndexPage.Index.ReceivePolygons | src/pages/index.jsx:121-123 | the polygon response replaces the loaded cells and nothing else |
| IndexPage.Index.ReceiveDetail | src/pages/index.jsx:244-247 | the detail response replaces the yield predictions and nothing else |
| IndexPage.Index.YieldRows | src/pages/index.jsx:530-533 | with an array selection, exactly the predictions of selected samples; an error exactly when there are predictions and the selection is not an array |
| IndexPage.Index.OpenSamplesDialog | src/pages/index.jsx:495-497 | the samples button opens the dialog |
| IndexPage.Index.CloseSamplesDialog | src/pages/index.jsx:486-488 | closing the samples dialog keeps the selection |
| IndexPage.Index.ConfirmSamples | src/pages/index.jsx:481-485 | confirming stores the deduped working list and reads it back as the page's selection, then closes the dialog |

## Left out

- Rendering is not modelled: the JSX, the Yandex Maps polygons and their fill colours, and the chart dataset (lines 249-343).
- The H3 calls `polygonToCells` and `cellToBoundary` (lines 186, 192) are foreign library geometry. The cell ids of the response are taken as given.
- Network I/O is not modelled: the axios calls, `lodash.throttle` timing (lines 99-101), and the order in which responses arrive. A method returns the request body it would send; a response is a method call with its data.
- The `toFixed(2)` display of predicted yields (line 537) is floating-point formatting.
- JSON serialisation is abstracted to the value stored. A stored array holds strings: arrays of other values are not represented.
- IndexPage.LoadSelectedHexagons: a stored `selectedHexagons` value that parses to something other than an object is reported as `NotAnObject`, and the `Index` constructor requires that this does not happen. On the page, a number or a boolean gives `Object.keys` an empty list, so the page requests no ids and works normally until the first drawing replaces the value with `{}`. `null` makes `Object.keys` throw in the first `fetchData`. A string or an array turns its index keys (`"0"`, `"1"`, …) into cell ids.
- IndexPage.Index.SetDate: the date is an integer. The year picker's `onChange` passes `null` when its input is cleared, and `date.getTime()` (line 119) then throws; that case is not modelled.
- IndexPage.Index.ClickCell: the focus is compared by value. React compares `currentHexagon` by identity, so after a new polygon response a click on the already focused cell asks for its details again, where the model sends nothing.
- IndexPage.Index.constructor: the mount request is recorded once. On the page the date and mode effects both call the throttled function, which sends it at once and again when the throttle's interval ends.
- IndexPage.Index.MapReady: the `!container.current` guard of `initMap` (line 127) is not modelled; the container exists once the page has rendered.
- `IndexPage.Index.constructor`: it requires both storage entries to load without throwing. An unparsable entry crashes the page on mount.
- `Samples.SamplesSelectingDialog.constructor`: it requires the fetched selection to be an array. Any other fetched value (such as the number 0) makes the first render throw.
- The dialog callbacks (`OnSelectionCode`, `CloseDialog`) require the dialog mode, because the dialog is mounted only in that mode. The outside-click listener is modelled as `CloseDialog`.
- A click on the select-all checkbox itself runs `helperSelectAll` twice in one render (the input's `onChange` and the surrounding `onClick`). Both calls read the same state, so the result is the same as one call; the model has one call.
- Preset codes inherited from `Object.prototype` (such as `"toString"`) would pass the `!!DefaultAreasConfig[code]` test. The model treats only the three own keys as presets.
- The click handler edits the object captured by its render. The model edits the current selection object instead; the two hold the same keys whenever a new render has installed the handler.
- The selection is an insertion-ordered key list. `Object.keys` and `JSON.stringify` put integer-like keys (`"0"`, `"17"`) first, in numeric order; H3 cell ids always contain letters, so only a hand-edited `selectedHexagons` entry could be ordered differently.
- String order is by Unicode code point, which agrees with JavaScript's UTF-16 order except for characters outside the Basic Multilingual Plane.
- The samples button caption (lines 498-502) is not modelled.
- `backend/main.py`, `backend/model.py` and `backend/prepare_weather.py` are not part of this model: they are HTTP routing, weather I/O, and floating-point model and DataFrame code. `src/App.jsx` is layout only.
