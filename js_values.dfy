/**
 * The JavaScript values the page keeps in browser storage, and the storage itself.
 *
 * Serialisation is abstracted away: `JSON.stringify(v)` stores `Encoded(v)`, and
 * `JSON.parse` gives the value back. Text that `JSON.parse` rejects is `Unparsable`;
 * the empty string is kept apart because the page tests `!item` before parsing.
 */
module JsValues {

  datatype Option<+T> = None | Some(value: T)

  /** A parsed JSON value, as far as the page can meet one. */
  datatype Json =
    | JNull
    | JBool(b: bool)
    | JNumber(n: int)
    | JString(s: string)
      /** an array of strings (arrays holding other values are not modelled) */
    | JArray(items: seq<string>)
      /** an object, by its keys as they stand in the text (repeats allowed); values are not modelled */
    | JObject(keys: seq<string>)

  /** JavaScript falsiness restricted to JSON values: null, false, 0 and "". */
  predicate Falsy(v: Json) {
    v == JNull || v == JBool(false) || v == JNumber(0) || v == JString("")
  }

  /** `v || fallback` */
  function Or(v: Json, fallback: Json): Json {
    if Falsy(v) then fallback else v
  }

  /** The text stored under one key. */
  datatype Item =
    | EmptyText
    | Unparsable
    | Encoded(value: Json)

  datatype Failure =
      /** `JSON.parse` threw */
    | SyntaxError
      /** a method was called on a value that does not have it */
    | TypeError
      /** the page stored a non-object where it expects an object; the model does not follow it */
    | NotAnObject(value: Json)

  datatype Result<+T> = Ok(value: T) | Err(failure: Failure)

  /** `JSON.parse(text)` */
  function Parse(item: Item): (r: Result<Json>)
    ensures r.Ok? <==> item.Encoded?
    ensures item.Encoded? ==> r == Ok(item.value)
    ensures r.Err? ==> r.failure == SyntaxError
  {
    match item
    case Encoded(v) => Ok(v)
    case _ => Err(SyntaxError)
  }

  /** `!localStorage.getItem(key)`: nothing stored, or the empty string. */
  predicate Missing(items: map<string, Item>, key: string) {
    key !in items || items[key] == EmptyText
  }

  const SelectedSamplesKey: string := "selectedSamples"
  const SelectedHexagonsKey: string := "selectedHexagons"

  /** The page's two storage entries are independent. */
  lemma StorageKeysDistinct()
    ensures SelectedSamplesKey != SelectedHexagonsKey
  {
    assert SelectedSamplesKey[8] != SelectedHexagonsKey[8];
  }

  /** The browser's `localStorage`: a flat map from key to stored text. */
  class LocalStorage {
    var items: map<string, Item>

    constructor (initial: map<string, Item>)
      ensures items == initial
    {
      items := initial;
    }

    /** `localStorage.getItem(key)` */
    function GetItem(key: string): (r: Option<Item>)
      reads this
      ensures r.Some? <==> key in items
      ensures r.Some? ==> r.value == items[key]
    {
      if key in items then Some(items[key]) else None
    }

    /** `localStorage.setItem(key, JSON.stringify(v))` */
    method SetItem(key: string, v: Json)
      modifies this
      ensures items == old(items)[key := Encoded(v)]
    {
      items := items[key := Encoded(v)];
    }

    /** `localStorage.removeItem(key)` */
    method RemoveItem(key: string)
      modifies this
      ensures items == old(items) - {key}
    {
      items := items - {key};
    }
  }
}
