/**
 * JSON-like values as `json.load` produces them and as the pipeline inspects
 * them: Python truthiness, `dict.get`, and `str()` of a value (used when a
 * value is formatted into an f-string).
 */
module Json {
  import opened Python

  /** A parsed JSON value; an object keeps its items in the document's key order. */
  datatype Json =
    | Null
    | Bool(b: bool)
    | Num(n: int)
    | Str(s: string)
    | Arr(elems: seq<Json>)
    | Obj(items: seq<(string, Json)>)

  /** Python's `bool(v)`: None, False, 0, "", [] and {} are false. */
  predicate Truthy(v: Json) {
    match v
    case Null => false
    case Bool(b) => b
    case Num(n) => n != 0
    case Str(s) => s != ""
    case Arr(es) => es != []
    case Obj(items) => items != []
  }

  /** `d.get(key)`: the value stored under `key`, or None when the key is absent. */
  function Get(items: seq<(string, Json)>, key: string): (v: Json)
    ensures v == Null || exists i :: 0 <= i < |items| && items[i] == (key, v)
    ensures (forall i :: 0 <= i < |items| ==> items[i].0 != key) ==> v == Null
    ensures forall i :: 0 <= i < |items| && items[i].0 == key && (forall j :: 0 <= j < i ==> items[j].0 != key) ==> v == items[i].1
  {
    if items == [] then Null
    else if items[0].0 == key then items[0].1
    else
      var v := Get(items[1..], key);
      assert forall i :: 1 <= i < |items| ==> items[1..][i - 1] == items[i];
      v
  }

  /**
   * `str(v)`, or `repr(v)` when `quoted` (the form a value takes inside a list
   * or a dict): None, True/False, decimal integers, the string itself or in
   * single quotes, and `[a, b]` / `{'k': v}` for containers.
   */
  function Show(v: Json, quoted: bool): string {
    match v
    case Null => "None"
    case Bool(b) => if b then "True" else "False"
    case Num(n) => IntToString(n)
    case Str(s) => if quoted then "'" + s + "'" else s
    case Arr(es) =>
      "[" + Join(", ", seq(|es|, i requires 0 <= i < |es| => Show(es[i], true))) + "]"
    case Obj(items) =>
      "{" + Join(", ", seq(|items|, i requires 0 <= i < |items| =>
                                  assert items[i].1 < items[i]; "'" + items[i].0 + "': " + Show(items[i].1, true))) + "}"
  }

  /** `str(v)` */
  function Display(v: Json): string {
    Show(v, false)
  }
}
