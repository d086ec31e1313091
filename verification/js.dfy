/**
 * The browser-side values the client code handles: JSON-like JavaScript values with their
 * truthiness, optional-chained property reads, and localStorage.
 */
module Js {

  import opened Common

  /**
   * A JavaScript value as the client sees it. Numbers are integers here; a FormData
   * object is kept apart from plain objects because the request code tests for it.
   */
  datatype JsValue =
    | Undefined
    | Null
    | Bool(b: bool)
    | Number(n: int)
    | Str(s: string)
    | Object(fields: map<string, JsValue>)
    | FormData(entries: seq<(string, string)>)

  /** `!!v`: false for undefined, null, false, 0 and "", true for everything else. */
  predicate Truthy(v: JsValue) {
    match v
    case Undefined => false
    case Null => false
    case Bool(b) => b
    case Number(n) => n != 0
    case Str(s) => s != ""
    case Object(_) => true
    case FormData(_) => true
  }

  /** `v?.key`: undefined on null and undefined, and for a key the value does not have. */
  function Field(v: JsValue, key: string): JsValue {
    if v.Object? && key in v.fields then v.fields[key] else Undefined
  }

  /** A string as a value that may be null: a truthy string is one that is present and not empty. */
  predicate TruthyString(s: Option<string>) {
    s.Some? && s.value != ""
  }

  /** window.localStorage: string values under string keys. */
  class LocalStorage {
    var items: map<string, string>

    constructor (initial: map<string, string>)
      ensures items == initial
    {
      items := initial;
    }

    /** getItem: null for a missing key. */
    function GetItem(key: string): (r: Option<string>)
      reads this
      ensures r.Some? <==> key in items
      ensures r.Some? ==> r.value == items[key]
    {
      if key in items then Some(items[key]) else None
    }

    /** setItem: getItem then returns the value for this key and what it returned before for every other. */
    method SetItem(key: string, value: string)
      modifies this
      ensures items == old(items)[key := value]
      ensures GetItem(key) == Some(value)
      ensures forall k :: k != key ==> GetItem(k) == old(GetItem(k))
    {
      items := items[key := value];
    }

    /** removeItem: getItem then returns null for this key and what it returned before for every other. */
    method RemoveItem(key: string)
      modifies this
      ensures items == old(items) - {key}
      ensures GetItem(key) == None
      ensures forall k :: k != key ==> GetItem(k) == old(GetItem(k))
    {
      items := items - {key};
    }
  }
}
