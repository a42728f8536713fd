/**
 * The `Index` page component: its territory and sample state, the handlers that
 * change it, and the contents of the requests it sends.
 *
 * React state setters become field updates. Every effect runs once after the first
 * render, and again whenever a handler changed what it depends on: the one on
 * `selectedHexagons` writes it to storage, the one on `territorySelectingMode` may ask
 * for polygons, the one on `date` always asks for polygons, and the one on
 * `currentHexagon` and `date` asks for the focused cell's details. A handler returns
 * the requests its effects send, if any; the network itself is not modelled.
 */
module IndexPage {
  import opened JsValues
  import opened Lists
  import opened Territory
  import opened Samples

  /** `USE_FILTERING_BY_SAMPLE_SELECTION` */
  const UseFilteringBySampleSelection: bool := true

  /** `new Date('2024-01-01').getTime()`, in milliseconds */
  const InitialDate: int := 1704067200000

  /** The body of `POST /polygons`. */
  datatype PolygonRequest = PolygonRequest(now: int, ids: seq<string>)

  /** `GET /polygons/{cellId}?now=…` */
  datatype DetailRequest = DetailRequest(cellId: string, now: int)

  /**
   * The initial `selectedHexagons` state: `{}` with nothing stored, else the parsed object.
   * Unparsable text makes `JSON.parse` throw; a parsed non-object is kept by the page
   * but not followed here. A key repeated in the text keeps its first position.
   */
  function LoadSelectedHexagons(items: map<string, Item>): (r: Result<seq<string>>)
    ensures r.Ok? ==> NoDups(r.value)
    ensures Missing(items, SelectedHexagonsKey) ==> r == Ok([])
    ensures !Missing(items, SelectedHexagonsKey) && items[SelectedHexagonsKey].Encoded? &&
            items[SelectedHexagonsKey].value.JObject? ==>
      r.Ok? && forall x :: x in r.value <==> x in items[SelectedHexagonsKey].value.keys
    ensures !Missing(items, SelectedHexagonsKey) && items[SelectedHexagonsKey] == Unparsable ==> r == Err(SyntaxError)
  {
    if Missing(items, SelectedHexagonsKey) then Ok([])
    else
      match Parse(items[SelectedHexagonsKey])
      case Err(e) => Err(e)
      case Ok(v) => if v.JObject? then Ok(Dedupe(v.keys)) else Err(NotAnObject(v))
  }

  /** Storing a selection and reading it back gives the same keys in the same order. */
  lemma HexagonsRoundTrip(items: map<string, Item>, keys: seq<string>)
    requires NoDups(keys)
    ensures LoadSelectedHexagons(items[SelectedHexagonsKey := Encoded(JObject(keys))]) == Ok(keys)
  {
    DedupeDistinct(keys);
  }

  /** Seeding the default sample selection leaves the stored hexagons alone. */
  lemma SeedingKeepsHexagons(items: map<string, Item>, c: Catalog)
    ensures LoadSelectedHexagons(SeededItems(items, c)) == LoadSelectedHexagons(items)
  {
    StorageKeysDistinct();
  }

  /** `DefaultAreasConfig`'s objects, one per preset. */
  method NewPresets() returns (p: map<string, CellSet>)
    ensures p.Keys == AreasConfig.Keys
    ensures forall k :: k in p ==> fresh(p[k]) && p[k].keys == AreasConfig[k]
  {
    var kursk := new CellSet(AreasConfig["kursk"]);
    var voroneszh := new CellSet(AreasConfig["voroneszh"]);
    var amur := new CellSet(AreasConfig["amur"]);
    p := map["kursk" := kursk, "voroneszh" := voroneszh, "amur" := amur];
  }

  /** The map side of the page: the date, whether the map exists, and both responses. */
  datatype MapState = MapState(date: int, created: bool, hexagons: seq<Hexagon>, predictions: seq<Prediction>)

  /** The samples side of the page: the confirmed selection and whether its dialog is open. */
  datatype SamplesState = SamplesState(selection: Json, dialogOpen: bool)

  /**
   * The storage side of mounting the page: the two `useState` initializers, then the
   * effect that writes the loaded hexagons back.
   */
  method Mount(storage: LocalStorage, catalog: Catalog) returns (samples: Json, cells: seq<string>)
    requires InitialSamples(storage.items, catalog).Ok?
    requires LoadSelectedHexagons(storage.items).Ok?
    modifies storage
    ensures samples == InitialSamples(old(storage.items), catalog).value
    ensures cells == LoadSelectedHexagons(old(storage.items)).value && NoDups(cells)
    ensures storage.items == SeededItems(old(storage.items), catalog)[SelectedHexagonsKey := Encoded(JObject(cells))]
  {
    var loadedSamples := LoadSelectedSamples(storage, catalog);
    SeedingKeepsHexagons(old(storage.items), catalog);
    var loaded := LoadSelectedHexagons(storage.items);
    samples := loadedSamples.value;
    cells := loaded.value;
    storage.SetItem(SelectedHexagonsKey, JObject(cells));
  }

  class Index {
    const storage: LocalStorage
    const catalog: Catalog
    /** `DefaultAreasConfig`: one object per preset */
    const presets: map<string, CellSet>

    /** `selectedHexagons` */
    var selected: CellSet
    /** `territorySelectingMode` */
    var mode: Mode
    /** `territorySelectedLabel` */
    var areaLabel: Option<string>
    /** `territoryCustomSelected.current` */
    var customSelected: bool
    /** `currentHexagon` */
    var focus: Option<Hexagon>
    /** `hexagons`: the last polygon response */
    var hexagons: seq<Hexagon>
    /** `date`, in milliseconds */
    var date: int
    /** `map.current` has been created */
    var mapCreated: bool
    /** `selectedSamples` */
    var selectedSamples: Json
    /** `samplesSelectingMode` */
    var samplesSelectingMode: bool
    /** `yieldPrediction`: from the last detail response */
    var yieldPrediction: seq<Prediction>
    /**
     * The polygon request of the first render's `fetchData`: the date and mode effects send
     * it after mounting, and `initMap`, captured by that render, sends it again later.
     */
    const mountRequest: PolygonRequest

    /**
     * The presets keep their cells; the drawing mode is only on with the custom flag, and
     * with that flag the edited object is never a preset; storage holds the selection.
     */
    ghost predicate Valid()
      reads this, selected, presets.Values, storage
    {
      && PresetsIntact()
      && NoDups(selected.keys)
      && (mode == SelectingOwnArea ==> customSelected)
      && (customSelected ==> selected !in presets.Values)
      && Stored()
    }

    /** What `selectedHexagons`'s effect last wrote is the current selection. */
    ghost predicate Stored()
      reads this, selected, storage
    {
      && SelectedHexagonsKey in storage.items
      && storage.items[SelectedHexagonsKey] == Encoded(JObject(selected.keys))
    }

    /** Each preset object still holds its configured cells. */
    ghost predicate PresetsIntact()
      reads presets.Values
    {
      && presets.Keys == AreasConfig.Keys
      && forall k :: k in presets ==> presets[k].keys == AreasConfig[k]
    }

    /** The territory part of the state, as the state machine sees it. */
    ghost function TerritoryView(): TerritoryState
      reads this, selected
    {
      TerritoryState(mode, areaLabel, customSelected, selected.keys, focus)
    }

    ghost function MapView(): MapState
      reads this
    {
      MapState(date, mapCreated, hexagons, yieldPrediction)
    }

    ghost function SamplesView(): SamplesState
      reads this
    {
      SamplesState(selectedSamples, samplesSelectingMode)
    }

    /** `fetchData`'s request body: the date and `Object.keys(selectedHexagons)`. */
    function PolygonBody(): (r: PolygonRequest)
      reads this, selected, presets.Values, storage
      ensures r.now == date
      ensures Valid() ==> NoDups(r.ids) && LoadSelectedHexagons(storage.items) == Ok(r.ids)
    {
      ReloadRestoresSelection(this);
      PolygonRequest(date, selected.keys)
    }

    /**
     * Mount: both selections are read from storage (the samples one seeded on first run),
     * and the selection effect writes the hexagons back.
     */
    constructor (storage: LocalStorage, catalog: Catalog)
      requires InitialSamples(storage.items, catalog).Ok?
      requires LoadSelectedHexagons(storage.items).Ok?
      modifies storage
      ensures Valid() && fresh(selected) && forall k :: k in presets ==> fresh(presets[k])
      ensures this.storage == storage && this.catalog == catalog
      ensures TerritoryView() == Initial(LoadSelectedHexagons(old(storage.items)).value)
      ensures SamplesView() == SamplesState(InitialSamples(old(storage.items), catalog).value, false)
      ensures MapView() == MapState(InitialDate, false, [], [])
      ensures mountRequest == PolygonBody()
      ensures mountRequest == PolygonRequest(InitialDate, LoadSelectedHexagons(old(storage.items)).value)
      ensures storage.items ==
        SeededItems(old(storage.items), catalog)[SelectedHexagonsKey := Encoded(JObject(selected.keys))]
    {
      var samples, cells := Mount(storage, catalog);
      var configured := NewPresets();
      var initial := new CellSet(cells);
      this.storage := storage;
      this.catalog := catalog;
      presets := configured;
      selected := initial;
      mode := Idle;
      areaLabel := None;
      customSelected := false;
      focus := None;
      hexagons := [];
      date := InitialDate;
      mapCreated := false;
      selectedSamples := samples;
      samplesSelectingMode := false;
      yieldPrediction := [];
      mountRequest := PolygonRequest(InitialDate, cells);
    }

    /**
     * `initMap`, once the map library is ready: create the map once and ask for polygons.
     * The function is the first render's, so the request is the one built at mount.
     */
    method MapReady() returns (req: Option<PolygonRequest>)
      requires Valid()
      modifies this
      ensures Valid()
      ensures req == if old(mapCreated) then None else Some(mountRequest)
      ensures MapView() == old(MapView()).(created := true)
      ensures TerritoryView() == old(TerritoryView()) && selected == old(selected)
      ensures SamplesView() == old(SamplesView())
    {
      if mapCreated {
        return None;
      }
      mapCreated := true;
      req := Some(mountRequest);
    }

    /**
     * The year picker's `onChange`. The effect on `date` asks for polygons, and the effect on
     * `currentHexagon` and `date` asks for the details of a focused cell.
     */
    method SetDate(d: int) returns (req: PolygonRequest, dreq: Option<DetailRequest>)
      requires Valid()
      modifies this
      ensures Valid()
      ensures req == PolygonRequest(d, selected.keys)
      ensures dreq.Some? <==> focus.Some? && focus.value.cellId != ""
      ensures dreq.Some? ==> dreq.value == DetailRequest(focus.value.cellId, d)
      ensures MapView() == old(MapView()).(date := d)
      ensures TerritoryView() == old(TerritoryView()) && selected == old(selected)
      ensures SamplesView() == old(SamplesView())
    {
      date := d;
      req := PolygonBody();
      dreq := if focus.Some? && focus.value.cellId != "" then Some(DetailRequest(focus.value.cellId, date)) else None;
    }

    /** The territory button. */
    method ToggleButton() returns (req: Option<PolygonRequest>)
      requires Valid()
      modifies this
      ensures Valid()
      ensures TerritoryView() == Toggle(old(TerritoryView())) && selected == old(selected)
      ensures req == if ModeEffectFires(old(mode), mode) then Some(PolygonBody()) else None
      ensures req.Some? <==> mode == Idle
      ensures MapView() == old(MapView()) && SamplesView() == old(SamplesView())
    {
      var before := mode;
      var newSelectionMode := mode;
      if mode == SelectingOwnArea {
        newSelectionMode := Idle;
      } else if mode == Idle {
        newSelectionMode := SelectionTypeDialog;
      } else {
        newSelectionMode := Idle;
      }
      mode := newSelectionMode;
      req := if ModeEffectFires(before, mode) then Some(PolygonBody()) else None;
    }

    /** `setSelectedHexagons(h)`, with the effect that stores the selection when it changed. */
    method SetSelectedHexagons(h: CellSet)
      requires SelectedHexagonsKey in storage.items
      requires storage.items[SelectedHexagonsKey] == Encoded(JObject(selected.keys))
      modifies this`selected, storage
      ensures selected == h
      ensures storage.items == old(storage.items)[SelectedHexagonsKey := Encoded(JObject(h.keys))]
    {
      if h != selected {
        selected := h;
        storage.SetItem(SelectedHexagonsKey, JObject(h.keys));
      }
    }

    /** The dialog's `onSelectionCode`: a preset key, or `null` for drawing on the map. */
    method OnSelectionCode(code: Option<string>) returns (req: Option<PolygonRequest>)
      requires Valid() && mode == SelectionTypeDialog
      modifies this, storage
      ensures Valid()
      ensures TerritoryView() == ChooseCode(old(TerritoryView()), code)
      ensures KnownPreset(code) ==> selected == presets[code.value]
      ensures !KnownPreset(code) && !old(customSelected) ==> fresh(selected)
      ensures !KnownPreset(code) && old(customSelected) ==> selected == old(selected)
      ensures storage.items == old(storage.items)[SelectedHexagonsKey := Encoded(JObject(selected.keys))]
      ensures req == if ModeEffectFires(old(mode), mode) then Some(PolygonBody()) else None
      ensures req.Some? <==> KnownPreset(code)
      ensures MapView() == old(MapView()) && SamplesView() == old(SamplesView())
    {
      var before := mode;
      if code.Some? && code.value in presets {
        ChoosePreset(code.value);
      } else {
        DrawOwnArea();
      }
      req := if ModeEffectFires(before, mode) then Some(PolygonBody()) else None;
    }

    /** The branch of `onSelectionCode` for a preset key. */
    method ChoosePreset(k: string)
      requires Valid() && k in presets
      modifies this, storage
      ensures Valid()
      ensures TerritoryView() == ChooseCode(old(TerritoryView()), Some(k))
      ensures selected == presets[k]
      ensures storage.items == old(storage.items)[SelectedHexagonsKey := Encoded(JObject(selected.keys))]
      ensures MapView() == old(MapView()) && SamplesView() == old(SamplesView())
    {
      ghost var before := TerritoryView();
      PresetCellsDistinct(k);
      ChoosePresetEffects(before, k);
      customSelected := false;
      SetSelectedHexagons(presets[k]);
      focus := None;
      areaLabel := Some(AreasLabels[k]);
      mode := Idle;
    }

    /** The branch of `onSelectionCode` for drawing: a fresh empty selection unless one is kept. */
    method DrawOwnArea()
      requires Valid()
      modifies this, storage
      ensures Valid()
      ensures TerritoryView() == ChooseCode(old(TerritoryView()), None)
      ensures !old(customSelected) ==> fresh(selected)
      ensures old(customSelected) ==> selected == old(selected)
      ensures storage.items == old(storage.items)[SelectedHexagonsKey := Encoded(JObject(selected.keys))]
      ensures MapView() == old(MapView()) && SamplesView() == old(SamplesView())
    {
      if !customSelected {
        ClearSelection();
      }
      customSelected := true;
      mode := SelectingOwnArea;
      areaLabel := None;
    }

    /** `setSelectedHexagons({})` and `setCurrentHexagon(null)`, before any drawing. */
    method ClearSelection()
      requires Valid() && !customSelected
      modifies this`selected, this`focus, storage
      ensures Valid() && fresh(selected) && selected.keys == [] && focus == None
      ensures storage.items == old(storage.items)[SelectedHexagonsKey := Encoded(JObject([]))]
    {
      var empty := new CellSet([]);
      SetSelectedHexagons(empty);
      focus := None;
    }

    /** The dialog's `closeDialog`. */
    method CloseDialog() returns (req: Option<PolygonRequest>)
      requires Valid() && mode == SelectionTypeDialog
      modifies this
      ensures Valid()
      ensures TerritoryView() == Territory.CloseDialog(old(TerritoryView())) && selected == old(selected)
      ensures req == Some(PolygonBody())
      ensures MapView() == old(MapView()) && SamplesView() == old(SamplesView())
    {
      var before := mode;
      mode := Idle;
      req := if ModeEffectFires(before, mode) then Some(PolygonBody()) else None;
    }

    /**
     * A click on the polygon of `cellId`. While drawing, the selection object is edited in
     * place and then replaced by a copy; that object is never a preset. Otherwise the
     * clicked cell's loaded summary becomes the focus.
     */
    method ClickCell(cellId: string) returns (dreq: Option<DetailRequest>)
      requires Valid()
      modifies this, selected, storage
      ensures Valid()
      ensures TerritoryView() == Territory.ClickCell(old(TerritoryView()), cellId, hexagons)
      ensures dreq.Some? <==>
        old(mode) != SelectingOwnArea && cellId != "" && FindCell(hexagons, cellId).Some? &&
        FindCell(hexagons, cellId) != old(focus)
      ensures dreq.Some? ==> dreq.value == DetailRequest(cellId, date)
      ensures old(mode) == SelectingOwnArea ==> old(selected) !in presets.Values && fresh(selected)
      ensures old(mode) != SelectingOwnArea ==> selected == old(selected) && unchanged(storage)
      ensures storage.items == old(storage.items)[SelectedHexagonsKey := Encoded(JObject(selected.keys))]
      ensures MapView() == old(MapView()) && SamplesView() == old(SamplesView())
    {
      if mode == SelectingOwnArea {
        FlipSelected(cellId);
        dreq := None;
      } else {
        var before := focus;
        focus := FindCell(hexagons, cellId);
        dreq := if focus != before && focus.Some? && focus.value.cellId != ""
          then Some(DetailRequest(focus.value.cellId, date)) else None;
      }
    }

    /**
     * `delete selectedHexagons[cellId]` or `selectedHexagons[cellId] = true` on the current
     * object, then `setSelectedHexagons({ ...selectedHexagons })`.
     */
    method FlipSelected(cellId: string)
      requires Valid() && mode == SelectingOwnArea
      modifies this`selected, selected, storage
      ensures Valid() && old(selected) !in presets.Values && fresh(selected)
      ensures selected.keys == FlipCell(old(selected.keys), cellId)
      ensures storage.items == old(storage.items)[SelectedHexagonsKey := Encoded(JObject(selected.keys))]
    {
      ClickWhileDrawing(TerritoryView(), cellId, hexagons);
      if cellId in selected.keys {
        selected.keys := Without(selected.keys, cellId);
      } else {
        selected.keys := selected.keys + [cellId];
      }
      var copy := new CellSet(selected.keys);
      selected := copy;
      storage.SetItem(SelectedHexagonsKey, JObject(selected.keys));
    }

    /** The polygon response arrives. */
    method ReceivePolygons(response: seq<Hexagon>)
      requires Valid()
      modifies this
      ensures Valid()
      ensures MapView() == old(MapView()).(hexagons := response)
      ensures TerritoryView() == old(TerritoryView()) && selected == old(selected)
      ensures SamplesView() == old(SamplesView())
    {
      hexagons := response;
    }

    /** The detail response arrives; the chart built from its weather part is not modelled. */
    method ReceiveDetail(predictions: seq<Prediction>)
      requires Valid()
      modifies this
      ensures Valid()
      ensures MapView() == old(MapView()).(predictions := predictions)
      ensures TerritoryView() == old(TerritoryView()) && selected == old(selected)
      ensures SamplesView() == old(SamplesView())
    {
      yieldPrediction := predictions;
    }

    /** The rows of the yield table: with the filter on, exactly the selected samples' predictions. */
    function YieldRows(): (r: Result<seq<Prediction>>)
      reads this
      ensures selectedSamples.JArray? ==>
        r.Ok? && forall p :: p in r.value <==> p in yieldPrediction && Found(selectedSamples.items, p.sample)
      ensures r.Err? <==> yieldPrediction != [] && !selectedSamples.JArray?
    {
      YieldTable(UseFilteringBySampleSelection, selectedSamples, yieldPrediction)
    }

    /** The samples button opens the dialog. */
    method OpenSamplesDialog()
      requires Valid()
      modifies this
      ensures Valid()
      ensures SamplesView() == old(SamplesView()).(dialogOpen := true)
      ensures TerritoryView() == old(TerritoryView()) && selected == old(selected)
      ensures MapView() == old(MapView())
    {
      samplesSelectingMode := true;
    }

    /** The sample dialog's `closeDialog`: the working copy is dropped. */
    method CloseSamplesDialog()
      requires Valid()
      modifies this
      ensures Valid()
      ensures SamplesView() == old(SamplesView()).(dialogOpen := false)
      ensures TerritoryView() == old(TerritoryView()) && selected == old(selected)
      ensures MapView() == old(MapView())
    {
      samplesSelectingMode := false;
    }

    /** The dialog's confirm button, then `onSelectedSamples` reading back what it stored. */
    method ConfirmSamples(d: SamplesSelectingDialog)
      requires Valid() && samplesSelectingMode && d.storage == storage
      modifies this, storage
      ensures Valid()
      ensures SamplesView() == SamplesState(JArray(Dedupe(d.list)), false)
      ensures storage.items == old(storage.items)[SelectedSamplesKey := Encoded(JArray(Dedupe(d.list)))]
      ensures TerritoryView() == old(TerritoryView()) && selected == old(selected)
      ensures MapView() == old(MapView())
    {
      var items := d.Commit();
      FetchAfterStore(old(storage.items), items);
      var newSamplesSelection := FetchSelectedSamples(storage.items);
      selectedSamples := newSamplesSelection.value;
      samplesSelectingMode := false;
    }
  }

  /** Reloading the page reads back exactly the selection the page holds. */
  lemma ReloadRestoresSelection(p: Index)
    ensures p.Valid() ==> LoadSelectedHexagons(p.storage.items) == Ok(p.selected.keys)
  {
    if p.Valid() {
      HexagonsRoundTrip(p.storage.items, p.selected.keys);
      assert p.storage.items[SelectedHexagonsKey := Encoded(JObject(p.selected.keys))] == p.storage.items;
    }
  }

  /** A selected cell persisted earlier is the id list of the mount request, which the map's creation repeats. */
  method ScenarioPersistedCell() {
    var samplesOnly := map[SelectedSamplesKey := Encoded(JArray(["A"]))];
    StorageKeysDistinct();
    HexagonsRoundTrip(samplesOnly, ["8611b36afffffff"]);
    var storage := new LocalStorage(samplesOnly[SelectedHexagonsKey := Encoded(JObject(["8611b36afffffff"]))]);
    var page := new Index(storage, map["A" := []]);
    assert page.mountRequest == PolygonRequest(InitialDate, ["8611b36afffffff"]);
    var req := page.MapReady();
    assert req == Some(page.mountRequest);
  }

  /** A date picked before the map library is ready does not reach the request `initMap` sends. */
  method ScenarioDateBeforeMap() {
    var storage := new LocalStorage(map[]);
    var page := new Index(storage, map["A" := []]);
    var r, d := page.SetDate(5);
    assert r == PolygonRequest(5, []) && d.None?;
    var req := page.MapReady();
    assert req == Some(PolygonRequest(InitialDate, []));
  }

  /** Focusing a loaded cell asks for its details once; a new date asks again. */
  method ScenarioDetails() {
    var storage := new LocalStorage(map[]);
    var page := new Index(storage, map["A" := []]);
    page.ReceivePolygons([Hexagon("861193ac7ffffff", [])]);
    var d := page.ClickCell("861193ac7ffffff");
    assert d == Some(DetailRequest("861193ac7ffffff", InitialDate));
    d := page.ClickCell("861193ac7ffffff");
    assert d.None?;
    var r;
    r, d := page.SetDate(5);
    assert d == Some(DetailRequest("861193ac7ffffff", 5));
  }

  /** Choose Kursk, then draw: the drawing starts empty and never touches the Kursk preset. */
  method ScenarioPresetThenDraw() {
    var storage := new LocalStorage(map[]);
    var page := new Index(storage, map["A" := [], "B" := []]);
    var r := page.ToggleButton();
    r := page.OnSelectionCode(Some("kursk"));
    assert page.selected.keys == AreasConfig["kursk"] && r.Some?;
    r := page.ToggleButton();
    r := page.OnSelectionCode(None);
    assert page.selected.keys == [] && page.mode == SelectingOwnArea && r.None?;
    var d := page.ClickCell("861193ac7ffffff");
    assert page.selected.keys == ["861193ac7ffffff"] && d.None?;
    assert page.presets["kursk"].keys == AreasConfig["kursk"];
    r := page.ToggleButton();
    assert r == Some(PolygonRequest(InitialDate, ["861193ac7ffffff"]));
  }
}
