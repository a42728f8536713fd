/**
 * The territory-selection state machine of the index page, on values.
 *
 * The mode decides what a map click does: while the user draws their own area a
 * click flips one cell's membership in the selection; otherwise it focuses the
 * clicked cell. The selection is the key list of the page's `selectedHexagons`
 * object, in insertion order and without repeats; its values are always `true`
 * and are not modelled. `IndexPage.Index` runs these transitions on its fields.
 */
module Territory {
  import opened JsValues
  import opened Lists

  /** `IDLE`, `SELECTION_TYPE_DIALOG`, `SELECTING_OWN_AREA` */
  datatype Mode = Idle | SelectionTypeDialog | SelectingOwnArea

  /** The three built-in regions, `DefaultAreasConfig`, by their cell ids in declaration order. */
  const AreasConfig: map<string, seq<string>> := map[
    "kursk" := ["8611b36afffffff", "8611b36d7ffffff", "8611b36f7ffffff", "8611b368fffffff",
                "8611b369fffffff", "8611b3687ffffff", "861195d27ffffff"],
    "voroneszh" := ["861193ac7ffffff", "861193acfffffff", "861193aefffffff"],
    "amur" := ["8614ae8afffffff", "8614ae817ffffff", "8614ae887ffffff"]
  ]

  /** `DefaultAreasLabels` */
  const AreasLabels: map<string, string> := map[
    "kursk" := "Курская об-ть",
    "voroneszh" := "Воронежская об-ть",
    "amur" := "Приамурье"
  ]

  /** A cell summary returned by the polygon request; everything but the id is opaque here. */
  datatype Hexagon = Hexagon(cellId: string, summary: seq<real>)

  /** `isTerritorySelectingMode` */
  predicate IsTerritorySelectingMode(m: Mode): (r: bool)
    ensures r <==> m == SelectionTypeDialog || m == SelectingOwnArea
  {
    m != Idle
  }

  /** `hexagons.find((h) => h.cellId === id)`: the first loaded summary of that cell, if any. */
  function FindCell(hexagons: seq<Hexagon>, id: string): (r: Option<Hexagon>)
    ensures r.None? <==> forall i :: 0 <= i < |hexagons| ==> hexagons[i].cellId != id
    ensures r.Some? ==> r.value.cellId == id
    ensures r.Some? ==>
      exists i :: 0 <= i < |hexagons| && hexagons[i] == r.value && (forall j :: 0 <= j < i ==> hexagons[j].cellId != id)
  {
    if hexagons == [] then None
    else if hexagons[0].cellId == id then Some(hexagons[0])
    else
      var r := FindCell(hexagons[1..], id);
      var tail := hexagons[1..];
      assert r.Some? ==>
        exists i :: 0 <= i < |tail| && tail[i] == r.value && (forall j :: 0 <= j < i ==> tail[j].cellId != id);
      r
  }

  /** The page's territory state: mode, shown label, the `territoryCustomSelected` flag, selection and focus. */
  datatype TerritoryState = TerritoryState(
    mode: Mode,
    areaLabel: Option<string>,
    custom: bool,
    cells: seq<string>,
    focus: Option<Hexagon>)

  /** The state right after mount, with the selection read back from storage. */
  function Initial(cells: seq<string>): TerritoryState {
    TerritoryState(Idle, None, false, cells, None)
  }

  /** The mode the territory button switches to. */
  function ToggledMode(m: Mode): (r: Mode)
    ensures r != m
    ensures r == Idle <==> m != Idle
    ensures m == Idle ==> r == SelectionTypeDialog
  {
    match m
    case SelectingOwnArea => Idle
    case Idle => SelectionTypeDialog
    case SelectionTypeDialog => Idle
  }

  /** The territory button's `onClick`. */
  function Toggle(s: TerritoryState): (r: TerritoryState)
    ensures IsTerritorySelectingMode(r.mode) <==> !IsTerritorySelectingMode(s.mode)
    ensures r.areaLabel == s.areaLabel && r.custom == s.custom && r.cells == s.cells && r.focus == s.focus
  {
    s.(mode := ToggledMode(s.mode))
  }

  /** The dialog's `closeDialog` (fired by a click outside it). */
  function CloseDialog(s: TerritoryState): (r: TerritoryState)
    ensures !IsTerritorySelectingMode(r.mode)
    ensures r.areaLabel == s.areaLabel && r.custom == s.custom && r.cells == s.cells && r.focus == s.focus
  {
    s.(mode := Idle)
  }

  /** `!!DefaultAreasConfig[selectionCode]` */
  predicate KnownPreset(code: Option<string>) {
    code.Some? && code.value in AreasConfig
  }

  /** The dialog's `onSelectionCode`: a preset key, or `null` for "draw on the map". */
  function ChooseCode(s: TerritoryState, code: Option<string>): (r: TerritoryState)
    ensures r.mode != SelectionTypeDialog
    ensures r.mode == SelectingOwnArea <==> !KnownPreset(code)
    ensures r.custom <==> !KnownPreset(code)
    ensures r.areaLabel.Some? <==> KnownPreset(code)
    ensures KnownPreset(code) ==> r.focus == None && r.areaLabel.value in AreasLabels.Values
    ensures !KnownPreset(code) && s.custom ==> r.cells == s.cells && r.focus == s.focus
  {
    if KnownPreset(code) then
      TerritoryState(Idle, Some(AreasLabels[code.value]), false, AreasConfig[code.value], None)
    else if s.custom then
      s.(mode := SelectingOwnArea, areaLabel := None)
    else
      TerritoryState(SelectingOwnArea, None, true, [], None)
  }

  /** `delete selectedHexagons[id]` when present, `selectedHexagons[id] = true` otherwise. */
  function FlipCell(cells: seq<string>, id: string): (r: seq<string>)
    ensures forall x :: x in r <==> (x in cells) != (x == id)
  {
    if id in cells then Without(cells, id) else cells + [id]
  }

  /** A click on the map polygon of cell `id`, with `loaded` the cell summaries at hand. */
  function ClickCell(s: TerritoryState, id: string, loaded: seq<Hexagon>): (r: TerritoryState)
    ensures r.mode == s.mode && r.areaLabel == s.areaLabel && r.custom == s.custom
    ensures s.mode == SelectingOwnArea ==> r.focus == s.focus && forall x :: x in r.cells <==> (x in s.cells) != (x == id)
    ensures s.mode != SelectingOwnArea ==>
      r.cells == s.cells && (r.focus.Some? ==> r.focus.value.cellId == id && r.focus.value in loaded)
    ensures s.mode != SelectingOwnArea ==> (r.focus.None? <==> forall h :: h in loaded ==> h.cellId != id)
  {
    if s.mode == SelectingOwnArea then s.(cells := FlipCell(s.cells, id))
    else s.(focus := FindCell(loaded, id))
  }

  /** The effect on `territorySelectingMode`: it runs when the mode changed, and fetches unless selecting. */
  predicate ModeEffectFires(before: Mode, after: Mode): (r: bool)
    ensures r <==> before != after && after == Idle
  {
    before != after && !IsTerritorySelectingMode(after)
  }

  /** The caption of the territory button. */
  function ButtonLabel(mode: Mode, areaLabel: Option<string>): (r: string)
    ensures r != ""
    ensures mode == Idle && areaLabel.Some? && areaLabel.value != "" ==> r == areaLabel.value
    ensures mode == Idle && (areaLabel.None? || areaLabel.value == "") ==> r == "Выбрать"
    ensures mode == SelectionTypeDialog ==> r == "..."
    ensures mode == SelectingOwnArea ==> r == "Подтвердить"
  {
    if mode == SelectionTypeDialog then "..."
    else if mode == SelectingOwnArea then "Подтвердить"
    else if areaLabel.Some? && areaLabel.value != "" then areaLabel.value
    else "Выбрать"
  }

  /** The user events that drive the state machine. */
  datatype Event =
    | ToggleButton
    | SelectionCode(code: Option<string>)
    | DismissDialog
    | MapClick(cellId: string, loaded: seq<Hexagon>)

  /** The dialog and its callbacks exist only while the dialog mode is on. */
  predicate Enabled(s: TerritoryState, e: Event) {
    (e.SelectionCode? || e.DismissDialog?) ==> s.mode == SelectionTypeDialog
  }

  /** One event; an event the page cannot deliver in this mode leaves the state as it is. */
  function Step(s: TerritoryState, e: Event): TerritoryState {
    if !Enabled(s, e) then s
    else
      match e
      case ToggleButton => Toggle(s)
      case SelectionCode(code) => ChooseCode(s, code)
      case DismissDialog => CloseDialog(s)
      case MapClick(id, loaded) => ClickCell(s, id, loaded)
  }

  function Run(s: TerritoryState, events: seq<Event>): TerritoryState
    decreases |events|
  {
    if events == [] then s else Run(Step(s, events[0]), events[1..])
  }

  /** Successive clicks on the given cells. */
  function ClickAll(s: TerritoryState, ids: seq<string>, loaded: seq<Hexagon>): TerritoryState
    decreases |ids|
  {
    if ids == [] then s else ClickAll(ClickCell(s, ids[0], loaded), ids[1..], loaded)
  }

  /** While drawing, the selection is the user's own (never one of the presets), and cells are not repeated. */
  predicate Coherent(s: TerritoryState) {
    (s.mode == SelectingOwnArea ==> s.custom) && NoDups(s.cells)
  }

  // ---------------------------------------------------------------------------------------------
  // Properties

  /** The button goes from drawing to idle, idle to dialog, dialog to idle, and touches nothing else. */
  lemma ToggleTransitions(s: TerritoryState)
    ensures s.mode == SelectingOwnArea ==> Toggle(s).mode == Idle
    ensures s.mode == Idle ==> Toggle(s).mode == SelectionTypeDialog
    ensures s.mode == SelectionTypeDialog ==> Toggle(s).mode == Idle
    ensures Toggle(s).(mode := s.mode) == s
  {
  }

  /** Dismissing the dialog always ends in idle, with selection, focus, label and flag kept. */
  lemma CloseDialogIdles(s: TerritoryState)
    ensures CloseDialog(s).mode == Idle
    ensures CloseDialog(s).(mode := s.mode) == s
  {
  }

  lemma PresetCellsDistinct(k: string)
    requires k in AreasConfig
    ensures NoDups(AreasConfig[k])
  {
  }

  /** Choosing a known preset selects exactly its cells, clears the focus, shows its label and returns to idle. */
  lemma ChoosePresetEffects(s: TerritoryState, k: string)
    requires k in AreasConfig
    ensures var t := ChooseCode(s, Some(k));
      && t.cells == AreasConfig[k]
      && t.focus == None
      && t.areaLabel == Some(AreasLabels[k])
      && t.mode == Idle
      && !t.custom
  {
  }

  /**
   * Choosing to draw (`null`, or any key that is not a preset) clears selection and focus the
   * first time only, and always ends drawing, flagged custom, with no label.
   */
  lemma ChooseOwnAreaEffects(s: TerritoryState, code: Option<string>)
    requires !KnownPreset(code)
    ensures var t := ChooseCode(s, code);
      && (!s.custom ==> t.cells == [] && t.focus == None)
      && (s.custom ==> t.cells == s.cells && t.focus == s.focus)
      && t.custom
      && t.mode == SelectingOwnArea
      && t.areaLabel == None
  {
  }

  /** "Confirm" then "draw on the map" again keeps the area drawn so far. */
  lemma RedrawKeepsArea(s: TerritoryState)
    requires s.mode == SelectingOwnArea && s.custom
    ensures var t := ChooseCode(Toggle(Toggle(s)), None);
      t.mode == SelectingOwnArea && t.cells == s.cells && t.focus == s.focus
  {
  }

  /** While drawing, a click flips exactly the clicked cell. */
  lemma ClickWhileDrawing(s: TerritoryState, id: string, loaded: seq<Hexagon>)
    requires s.mode == SelectingOwnArea && NoDups(s.cells)
    ensures var t := ClickCell(s, id, loaded);
      && NoDups(t.cells)
      && (forall c :: c in t.cells <==> (c in s.cells) != (c == id))
      && t.(cells := s.cells) == s
  {
    if id in s.cells {
      WithoutNoDups(s.cells, id);
    } else {
      var r := s.cells + [id];
      forall i, j | 0 <= i < j < |r| ensures r[i] != r[j] {
        if j == |s.cells| {
          assert r[i] in s.cells;
        }
      }
    }
  }

  /** Two clicks on the same cell while drawing restore the selected set; the list itself, when the cell was absent. */
  lemma ClickTwiceRestores(s: TerritoryState, id: string, loaded: seq<Hexagon>)
    requires s.mode == SelectingOwnArea && NoDups(s.cells)
    ensures var t := ClickCell(ClickCell(s, id, loaded), id, loaded);
      && (forall c :: c in t.cells <==> c in s.cells)
      && (id !in s.cells ==> t == s)
  {
    ClickWhileDrawing(s, id, loaded);
    ClickWhileDrawing(ClickCell(s, id, loaded), id, loaded);
    if id !in s.cells {
      WithoutAppend(s.cells, [id], id);
      WithoutAbsent(s.cells, id);
      assert Without([id], id) == [];
    }
  }

  /** Outside drawing mode a click keeps the selection and focuses the clicked cell's summary. */
  lemma ClickOutsideDrawing(s: TerritoryState, id: string, loaded: seq<Hexagon>)
    requires s.mode != SelectingOwnArea
    ensures var t := ClickCell(s, id, loaded);
      t.cells == s.cells && t.focus == FindCell(loaded, id) && t.(focus := s.focus) == s
  {
  }

  /** After clicks while drawing, a cell is selected iff it was selected xor it was clicked an odd number of times. */
  lemma {:induction false} ClickParity(s: TerritoryState, ids: seq<string>, loaded: seq<Hexagon>)
    requires s.mode == SelectingOwnArea && NoDups(s.cells)
    ensures var t := ClickAll(s, ids, loaded);
      && t.mode == SelectingOwnArea && NoDups(t.cells)
      && forall c :: c in t.cells <==> (c in s.cells) != (Count(ids, c) % 2 == 1)
    decreases |ids|
  {
    if ids != [] {
      var s1 := ClickCell(s, ids[0], loaded);
      ClickWhileDrawing(s, ids[0], loaded);
      ClickParity(s1, ids[1..], loaded);
      assert ids == [ids[0]] + ids[1..];
      forall c ensures Count(ids, c) == (if ids[0] == c then 1 else 0) + Count(ids[1..], c) {
        CountAppend([ids[0]], ids[1..], c);
      }
    }
  }

  /** Every transition keeps the state coherent. */
  lemma StepCoherent(s: TerritoryState, e: Event)
    requires Coherent(s)
    ensures Coherent(Step(s, e))
  {
    if Enabled(s, e) {
      match e
      case SelectionCode(code) =>
        if KnownPreset(code) {
          PresetCellsDistinct(code.value);
        }
      case MapClick(id, loaded) =>
        if s.mode == SelectingOwnArea {
          ClickWhileDrawing(s, id, loaded);
        }
      case _ =>
    }
  }

  /** Whenever the mode is drawing, the custom flag is set, after any sequence of events. */
  lemma {:induction false} RunCoherent(s: TerritoryState, events: seq<Event>)
    requires Coherent(s)
    ensures Coherent(Run(s, events))
    ensures Run(s, events).mode == SelectingOwnArea ==> Run(s, events).custom
    decreases |events|
  {
    if events != [] {
      StepCoherent(s, events[0]);
      RunCoherent(Step(s, events[0]), events[1..]);
    }
  }

  /** A mode change triggers the polygon fetch exactly when it ends in idle. */
  lemma ModeRefetchIffIdle(s: TerritoryState, e: Event)
    requires Enabled(s, e) && !e.MapClick?
    ensures ModeEffectFires(s.mode, Step(s, e).mode) <==> Step(s, e).mode == Idle
  {
  }

  /** After a preset is chosen the territory button shows that preset's name. */
  lemma PresetLabelShown(s: TerritoryState, k: string)
    requires k in AreasConfig
    ensures var t := ChooseCode(s, Some(k)); ButtonLabel(t.mode, t.areaLabel) == AreasLabels[k]
  {
  }

  /** The page's `selectedHexagons` object, by its keys in insertion order. */
  class CellSet {
    var keys: seq<string>

    constructor (keys: seq<string>)
      ensures this.keys == keys
    {
      this.keys := keys;
    }
  }
}
