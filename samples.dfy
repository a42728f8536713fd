/**
 * Sample (phenotype) selection: the committed selection kept in browser storage,
 * the dialog that edits a working copy of it, and the filter the yield table
 * applies with it.
 *
 * The phenotype catalog is a map from sample name to its row of per-year values.
 */
module Samples {
  import opened JsValues
  import opened Lists
  import opened Order

  /** A sample's per-year values, as shown in the dialog. */
  type Row = seq<string>

  /** `phenotypes`: sample name to row. */
  type Catalog = map<string, Row>

  /** `Object.keys(phenotypes).sort()` */
  function CatalogNames(c: Catalog): (r: seq<string>)
    ensures Sorted(r) && NoDups(r) && |r| == |c.Keys|
    ensures forall x :: x in r <==> x in c
  {
    SortedKeys(c.Keys)
  }

  /**
   * `!!list.find((el) => el === name)`: `find` returns the matching element itself,
   * so an empty name is never reported as found.
   */
  predicate Found(list: seq<string>, name: string): (r: bool)
    ensures r <==> exists i :: 0 <= i < |list| && list[i] == name && list[i] != ""
  {
    name != "" && name in list
  }

  // ---------------------------------------------------------------------------------------------
  // The committed selection in storage

  /**
   * The initial `selectedSamples` state: with nothing stored, every catalog name in
   * ascending order; otherwise the parsed value, or `[]` when it is falsy. Text that does
   * not parse makes `JSON.parse` throw.
   */
  function InitialSamples(items: map<string, Item>, c: Catalog): (r: Result<Json>)
    ensures Missing(items, SelectedSamplesKey) ==>
      r.Ok? && r.value.JArray? && Sorted(r.value.items) && NoDups(r.value.items) &&
      (forall x :: x in r.value.items <==> x in c)
    ensures !Missing(items, SelectedSamplesKey) ==>
      (r.Err? <==> items[SelectedSamplesKey] == Unparsable)
    ensures !Missing(items, SelectedSamplesKey) && items[SelectedSamplesKey].Encoded? ==>
      r == Ok(if Falsy(items[SelectedSamplesKey].value) then JArray([]) else items[SelectedSamplesKey].value)
    ensures r.Ok? ==> !Falsy(r.value)
  {
    if Missing(items, SelectedSamplesKey) then Ok(JArray(CatalogNames(c)))
    else
      match Parse(items[SelectedSamplesKey])
      case Ok(v) => Ok(Or(v, JArray([])))
      case Err(e) => Err(e)
  }

  /** Storage after the initial load: the first run stores the default it chose. */
  function SeededItems(items: map<string, Item>, c: Catalog): map<string, Item> {
    if Missing(items, SelectedSamplesKey) then items[SelectedSamplesKey := Encoded(JArray(CatalogNames(c)))]
    else items
  }

  /** The `useState` initializer of `selectedSamples`. */
  method LoadSelectedSamples(storage: LocalStorage, c: Catalog) returns (r: Result<Json>)
    modifies storage
    ensures r == InitialSamples(old(storage.items), c)
    ensures storage.items == SeededItems(old(storage.items), c)
  {
    var item := storage.GetItem(SelectedSamplesKey);
    if item.None? || item.value == EmptyText {
      var fullSelectionByDefault := CatalogNames(c);
      storage.SetItem(SelectedSamplesKey, JArray(fullSelectionByDefault));
      return Ok(JArray(fullSelectionByDefault));
    }
    var parsed := Parse(item.value);
    if parsed.Err? {
      return Err(parsed.failure);
    }
    r := Ok(Or(parsed.value, JArray([])));
  }

  /** On first run the selection is the whole catalog in ascending order, and exactly that array is stored. */
  lemma DefaultSelection(items: map<string, Item>, c: Catalog)
    requires Missing(items, SelectedSamplesKey)
    ensures InitialSamples(items, c) == Ok(JArray(CatalogNames(c)))
    ensures SeededItems(items, c) == items[SelectedSamplesKey := Encoded(JArray(CatalogNames(c)))]
    ensures |CatalogNames(c)| == |c.Keys|
    ensures forall t :: Sorted(t) && NoDups(t) && (forall x :: x in t <==> x in c) ==> t == CatalogNames(c)
  {
    forall t | Sorted(t) && NoDups(t) && (forall x :: x in t <==> x in c) ensures t == CatalogNames(c) {
      SortedKeysUnique(c.Keys, t);
    }
  }

  /** Anything already stored, even unparsable text, is left in place by the initial load. */
  lemma LoadKeepsStoredValue(items: map<string, Item>, c: Catalog)
    requires !Missing(items, SelectedSamplesKey)
    ensures SeededItems(items, c) == items
    ensures items[SelectedSamplesKey] == Unparsable ==> InitialSamples(items, c) == Err(SyntaxError)
    ensures items[SelectedSamplesKey].Encoded? && Falsy(items[SelectedSamplesKey].value) ==>
      InitialSamples(items, c) == Ok(JArray([]))
  {
  }

  /**
   * `fetchSelectedSamples`: `[]` with nothing stored, else the parsed value, or the number 0
   * (`[].length`) when that value is falsy. Unparsable text makes it throw.
   */
  function FetchSelectedSamples(items: map<string, Item>): (r: Result<Json>)
    ensures Missing(items, SelectedSamplesKey) ==> r == Ok(JArray([]))
    ensures !Missing(items, SelectedSamplesKey) && items[SelectedSamplesKey].Encoded? ==>
      r.Ok? && (Falsy(items[SelectedSamplesKey].value) <==> r.value == JNumber(0))
    ensures !Missing(items, SelectedSamplesKey) && items[SelectedSamplesKey].Encoded? ==>
      !Falsy(items[SelectedSamplesKey].value) ==> r == Ok(items[SelectedSamplesKey].value)
    ensures r.Err? <==> !Missing(items, SelectedSamplesKey) && items[SelectedSamplesKey] == Unparsable
  {
    if Missing(items, SelectedSamplesKey) then Ok(JArray([]))
    else
      match Parse(items[SelectedSamplesKey])
      case Ok(v) => Ok(Or(v, JNumber(0)))
      case Err(e) => Err(e)
  }

  /** What a commit stores is what the next fetch returns. */
  lemma FetchAfterStore(items: map<string, Item>, names: seq<string>)
    ensures FetchSelectedSamples(items[SelectedSamplesKey := Encoded(JArray(names))]) == Ok(JArray(names))
  {
  }

  /** A committed selection is what the next page load starts from, and what a fetch returns. */
  lemma ReloadAfterCommit(items: map<string, Item>, c: Catalog, names: seq<string>)
    ensures InitialSamples(items[SelectedSamplesKey := Encoded(JArray(names))], c) == Ok(JArray(names))
    ensures InitialSamples(items[SelectedSamplesKey := Encoded(JArray(names))], c) ==
            FetchSelectedSamples(items[SelectedSamplesKey := Encoded(JArray(names))])
  {
  }

  // ---------------------------------------------------------------------------------------------
  // The dialog's table and working list

  /** One row of `samplesTable`. */
  datatype TableRow = TableRow(selected: bool, name: string, values: Row)

  /** `samplesTable`: one row per catalog name in ascending order, flagged when the working list holds it. */
  function SamplesTable(c: Catalog, list: seq<string>): (r: seq<TableRow>)
    ensures |r| == |c.Keys|
    ensures forall i :: 0 <= i < |r| ==>
      r[i].name in c && r[i].values == c[r[i].name] && (r[i].selected <==> Found(list, r[i].name))
  {
    var names := CatalogNames(c);
    seq(|names|, i requires 0 <= i < |names| => TableRow(Found(list, names[i]), names[i], c[names[i]]))
  }

  /** `samplesTable.map((el) => el.name)` */
  lemma TableNames(c: Catalog, list: seq<string>)
    ensures forall i :: 0 <= i < |SamplesTable(c, list)| ==> SamplesTable(c, list)[i].name == CatalogNames(c)[i]
  {
  }

  /** The rows are in strictly ascending order of name. */
  lemma TableAscending(c: Catalog, list: seq<string>)
    ensures var r := SamplesTable(c, list);
      forall i, j :: 0 <= i < j < |r| ==> Le(r[i].name, r[j].name) && r[i].name != r[j].name
  {
    TableNames(c, list);
  }

  /** Every catalog name has a row. */
  lemma TableCoversCatalog(c: Catalog, list: seq<string>, n: string)
    requires n in c
    ensures exists i :: 0 <= i < |SamplesTable(c, list)| && SamplesTable(c, list)[i].name == n
  {
    TableNames(c, list);
    var names := CatalogNames(c);
    assert SamplesTable(c, list)[IndexOf(names, n)].name == n;
  }

  /** The list after `updateItemSelection(name)`: every copy removed, or one more appended. */
  function UpdatedList(list: seq<string>, name: string, additive: bool): (r: seq<string>)
    ensures additive ==> |r| == |list| + 1 && r[..|list|] == list && r[|list|] == name
    ensures !additive ==> name !in r && |r| <= |list| && forall y :: y != name ==> (y in r <==> y in list)
  {
    if additive then list + [name] else Without(list, name)
  }

  /** A subtractive edit removes every occurrence of the name and nothing else; an additive one appends it. */
  lemma UpdateEffects(list: seq<string>, name: string, additive: bool)
    ensures var r := UpdatedList(list, name, additive);
      && (!additive ==>
            && name !in r
            && (forall y :: y != name ==> (y in r <==> y in list))
            && IsSubsequence(r, list)
            && |r| == |list| - Count(list, name))
      && (additive ==> r == list + [name])
  {
    if !additive {
      WithoutIsSubsequence(list, name);
      WithoutCount(list, name);
    }
  }

  /** Select-all on a ticked box empties the list; on an unticked box it takes every catalog name in order. */
  function SelectAllList(selectAll: bool, c: Catalog): (r: seq<string>)
    ensures selectAll ==> r == []
    ensures !selectAll ==> Sorted(r) && NoDups(r) && (forall x :: x in r <==> x in c) && |r| == |c.Keys|
  {
    if selectAll then [] else CatalogNames(c)
  }

  /**
   * Dragging in additive mode over a row already selected appends the name a second time,
   * so the length test behind the select-all box can hold while a catalog name is unselected.
   */
  lemma AdditiveDragRepeats()
    ensures var c: Catalog := map["a" := [], "b" := [], "c" := []];
      var r := UpdatedList(UpdatedList(["a"], "b", true), "a", true);
      r == ["a", "b", "a"] && |r| == |c.Keys| && !Found(r, "c")
  {
    var c: Catalog := map["a" := [], "b" := [], "c" := []];
    assert c.Keys == {"a", "b", "c"};
  }

  /**
   * Every additive edit adds one more copy of the name, whether or not the list already
   * holds it, so a list built by drags can be as long as the catalog while missing names.
   */
  lemma AdditiveEditCounts(list: seq<string>, name: string)
    ensures Count(UpdatedList(list, name, true), name) == Count(list, name) + 1
    ensures |UpdatedList(list, name, true)| == |list| + 1
  {
    CountAppend(list, [name], name);
    assert Count([name], name) == 1 by {
      assert [name][1..] == [];
    }
  }

  /**
   * The confirm button's loop: `new Set(list)` gathers the distinct names in first-insertion
   * order, and the `for … of` pushes each into `items`.
   */
  method CollectUnique(list: seq<string>) returns (items: seq<string>)
    ensures items == Dedupe(list)
  {
    var values: seq<string> := [];
    var inSet: set<string> := {};
    var i := 0;
    while i < |list|
      invariant 0 <= i <= |list|
      invariant values == Dedupe(list[..i])
      invariant forall x :: x in inSet <==> x in values
    {
      assert list[..i + 1][..i] == list[..i];
      if list[i] !in inSet {
        values := values + [list[i]];
        inSet := inSet + {list[i]};
      }
      i := i + 1;
    }
    assert list[..|list|] == list;
    items := [];
    var j := 0;
    while j < |values|
      invariant 0 <= j <= |values|
      invariant items == values[..j]
    {
      items := items + [values[j]];
      j := j + 1;
    }
  }

  /** A commit stores every distinct working name once, ordered by first occurrence. */
  lemma CommitContents(list: seq<string>)
    ensures NoDups(Dedupe(list))
    ensures forall x :: x in Dedupe(list) <==> x in list
    ensures forall i, j :: 0 <= i < j < |Dedupe(list)| ==>
              IndexOf(list, Dedupe(list)[i]) < IndexOf(list, Dedupe(list)[j])
    ensures Dedupe(Dedupe(list)) == Dedupe(list)
  {
    DedupeFirstOccurrenceOrder(list);
    DedupeIdempotent(list);
  }

  /** `SamplesSelectingDialog`: the working copy and drag state of the sample dialog. */
  class SamplesSelectingDialog {
    const storage: LocalStorage
    const catalog: Catalog
    /** `selectedSamplesList` */
    var list: seq<string>
    /** `hoverActive`: a drag is in progress */
    var hoverActive: bool
    /** `hoverModeAdditive`: the drag adds rather than removes */
    var hoverModeAdditive: bool
    /** the select-all checkbox */
    var selectAll: bool

    function Table(): seq<TableRow>
      reads this
    {
      SamplesTable(catalog, list)
    }

    /**
     * Mount: the working list is fetched from storage. A fetched value that is not an
     * array makes the first render throw, so the dialog exists only for arrays.
     */
    constructor (storage: LocalStorage, catalog: Catalog)
      requires FetchSelectedSamples(storage.items).Ok? && FetchSelectedSamples(storage.items).value.JArray?
      ensures this.storage == storage && this.catalog == catalog
      ensures list == FetchSelectedSamples(storage.items).value.items
      ensures !hoverActive && !hoverModeAdditive
      ensures selectAll == (|list| == |catalog.Keys|)
    {
      this.storage := storage;
      this.catalog := catalog;
      var fetched := FetchSelectedSamples(storage.items);
      list := fetched.value.items;
      hoverActive := false;
      hoverModeAdditive := false;
      selectAll := |SamplesTable(catalog, fetched.value.items)| == |fetched.value.items|;
    }

    /** `updateItemSelection(el)` */
    method UpdateItemSelection(name: string)
      modifies this
      ensures list == UpdatedList(old(list), name, old(hoverModeAdditive))
      ensures selectAll == (|list| == |catalog.Keys|)
      ensures hoverActive == old(hoverActive) && hoverModeAdditive == old(hoverModeAdditive)
    {
      var updatedSamplesList;
      if !hoverModeAdditive {
        updatedSamplesList := Without(list, name);
      } else {
        updatedSamplesList := list + [name];
      }
      selectAll := |updatedSamplesList| == |Table()|;
      list := updatedSamplesList;
    }

    /** A row's `onMouseDown`: start a drag that adds when the row was unselected, and apply it to the row. */
    method MouseDownRow(i: nat)
      requires i < |catalog.Keys|
      modifies this
      ensures var el := old(Table())[i];
        && hoverModeAdditive == !el.selected
        && hoverActive
        && list == UpdatedList(old(list), el.name, !el.selected)
        && selectAll == (|list| == |catalog.Keys|)
    {
      var el := Table()[i];
      hoverModeAdditive := !el.selected;
      hoverActive := true;
      UpdateItemSelection(el.name);
    }

    /** A row's `onMouseEnter`: during a drag, apply the drag's mode to the row. */
    method MouseEnterRow(i: nat)
      requires i < |catalog.Keys|
      modifies this
      ensures hoverActive == old(hoverActive) && hoverModeAdditive == old(hoverModeAdditive)
      ensures old(hoverActive) ==>
        list == UpdatedList(old(list), old(Table())[i].name, hoverModeAdditive) &&
        selectAll == (|list| == |catalog.Keys|)
      ensures !old(hoverActive) ==> list == old(list) && selectAll == old(selectAll)
    {
      var el := Table()[i];
      if hoverActive {
        UpdateItemSelection(el.name);
      }
    }

    /** The table's `onMouseLeave` and `onMouseUp`: end the drag and reset its mode to additive. */
    method EndDrag()
      modifies this
      ensures !hoverActive && hoverModeAdditive
      ensures list == old(list) && selectAll == old(selectAll)
    {
      hoverActive := false;
      hoverModeAdditive := true;
    }

    /** `helperSelectAll` */
    method HelperSelectAll()
      modifies this
      ensures selectAll == !old(selectAll)
      ensures list == SelectAllList(old(selectAll), catalog)
      ensures hoverActive == old(hoverActive) && hoverModeAdditive == old(hoverModeAdditive)
    {
      var table := Table();
      TableNames(catalog, list);
      var was := selectAll;
      selectAll := !selectAll;
      if was {
        list := [];
      } else {
        list := seq(|table|, k requires 0 <= k < |table| => table[k].name);
        assert list == CatalogNames(catalog);
      }
    }

    /** The confirm button: replace the stored selection by the distinct working names. */
    method Commit() returns (items: seq<string>)
      modifies storage
      ensures items == Dedupe(list)
      ensures storage.items == old(storage.items)[SelectedSamplesKey := Encoded(JArray(items))]
    {
      storage.RemoveItem(SelectedSamplesKey);
      items := CollectUnique(list);
      storage.SetItem(SelectedSamplesKey, JArray(items));
    }
  }

  // ---------------------------------------------------------------------------------------------
  // The yield table

  /** One entry of the detail response's `yieldPrediction`. */
  datatype Prediction = Prediction(sample: string, predicted: real)

  /** The predictions whose sample the selection holds, in their original order. */
  function KeepSelected(preds: seq<Prediction>, names: seq<string>): (r: seq<Prediction>)
    ensures forall p :: p in r <==> p in preds && Found(names, p.sample)
  {
    if preds == [] then []
    else if Found(names, preds[0].sample) then [preds[0]] + KeepSelected(preds[1..], names)
    else KeepSelected(preds[1..], names)
  }

  /**
   * The rows of the yield table. With filtering on, the callback calls `find` on the
   * selection, which throws unless it is an array, as soon as there is a row to test.
   */
  function YieldTable(useFiltering: bool, selected: Json, preds: seq<Prediction>): (r: Result<seq<Prediction>>)
    ensures !useFiltering ==> r == Ok(preds)
    ensures r.Err? <==> useFiltering && preds != [] && !selected.JArray?
    ensures r.Err? ==> r.failure == TypeError
    ensures r.Ok? ==> forall p :: p in r.value ==> p in preds
  {
    if !useFiltering || preds == [] then Ok(preds)
    else if selected.JArray? then Ok(KeepSelected(preds, selected.items))
    else Err(TypeError)
  }

  lemma {:induction false} KeepSelectedOrder(preds: seq<Prediction>, names: seq<string>)
    ensures IsSubsequence(KeepSelected(preds, names), preds)
    ensures forall p :: multiset(KeepSelected(preds, names))[p] ==
              if Found(names, p.sample) then multiset(preds)[p] else 0
  {
    if preds != [] {
      var rest := KeepSelected(preds[1..], names);
      KeepSelectedOrder(preds[1..], names);
      assert preds == [preds[0]] + preds[1..];
      if Found(names, preds[0].sample) {
        assert ([preds[0]] + rest)[1..] == rest;
      } else if rest != [] {
        assert rest[0] in rest;
      }
    }
  }

  /**
   * With filtering on and an array selection, the table keeps exactly the predictions whose
   * sample is selected, each as often as it occurs, in their original order; with filtering
   * off it keeps them all.
   */
  lemma YieldTableFilters(names: seq<string>, preds: seq<Prediction>)
    ensures YieldTable(true, JArray(names), preds).Ok?
    ensures var r := YieldTable(true, JArray(names), preds).value;
      && (forall p :: p in r <==> p in preds && p.sample != "" && p.sample in names)
      && IsSubsequence(r, preds)
      && (forall p :: multiset(r)[p] == if Found(names, p.sample) then multiset(preds)[p] else 0)
    ensures forall v :: YieldTable(false, v, preds) == Ok(preds)
  {
    KeepSelectedOrder(preds, names);
  }

  /** A selection that is not an array breaks the filtered table once there is a row to test. */
  lemma YieldTableThrows(v: Json, preds: seq<Prediction>)
    requires !v.JArray? && preds != []
    ensures YieldTable(true, v, preds) == Err(TypeError)
  {
  }
}
