/**
 * `VectorStore._extract_texts`: a JSON document is walked recursively and
 * every string stored as a dictionary value whose stripped form has at
 * least 40 characters is collected (stripped), in document order. Strings
 * that are list items, dictionary keys or the document itself are not text
 * fields and contribute nothing.
 */
module TextCollector {
  import opened Python
  import opened Json

  /** Shorter stripped strings are ignored. */
  const MinTextLength: int := 40

  /** A collected text: long enough, and with no whitespace at either end, so that `Strip(t) == t` (UnchangedByStrip). */
  predicate IsText(t: string) {
    |t| >= MinTextLength && !IsSpace(t[0]) && !IsSpace(t[|t| - 1])
  }

  /** `_extract_texts(obj)` */
  function ExtractTexts(v: Json): (ts: seq<string>)
    ensures forall k :: 0 <= k < |ts| ==> IsText(ts[k])
    decreases v, 1
  {
    match v
    case Obj(items) => ItemTexts(items)
    case Arr(es) => ElemTexts(es)
    case _ => []
  }

  /** The loop over `obj.items()`: a string value is taken directly, any other value is searched recursively. */
  function ItemTexts(items: seq<(string, Json)>): (ts: seq<string>)
    ensures forall k :: 0 <= k < |ts| ==> IsText(ts[k])
    decreases items, 0
  {
    if items == [] then []
    else
      assert items[0].1 < items[0];
      ValueTexts(items[0].1) + ItemTexts(items[1..])
  }

  /** The contribution of one dictionary value. */
  function ValueTexts(v: Json): (ts: seq<string>)
    ensures forall k :: 0 <= k < |ts| ==> IsText(ts[k])
    decreases v, 2
  {
    match v
    case Str(raw) =>
      var t := Strip(raw);
      if |t| >= MinTextLength then
        StrippedIsText(raw);
        [t]
      else []
    case _ => ExtractTexts(v)
  }

  lemma StrippedIsText(raw: string)
    requires |Strip(raw)| >= MinTextLength
    ensures IsText(Strip(raw))
  {
    StripSpec(raw);
  }

  /** The loop over a list's items, each searched recursively. */
  function ElemTexts(es: seq<Json>): (ts: seq<string>)
    ensures forall k :: 0 <= k < |ts| ==> IsText(ts[k])
    decreases es, 0
  {
    if es == [] then [] else ExtractTexts(es[0]) + ElemTexts(es[1..])
  }

  // ---------------------------------------------------------------------
  // Reference characterisation: which strings are collected

  /** `t` is the text of the dictionary value `v`: either `v` is a string whose stripped form `t` is long enough, or `t` is found inside `v`. */
  ghost predicate Yields(v: Json, t: string)
    decreases v, 1
  {
    match v
    case Str(raw) => Strip(raw) == t && |t| >= MinTextLength
    case _ => Inside(v, t)
  }

  /** `t` is the text of some dictionary value reachable from `v` through dictionaries and lists. */
  ghost predicate Inside(v: Json, t: string)
    decreases v, 0
  {
    match v
    case Obj(items) => exists i :: 0 <= i < |items| && (assert items[i].1 < items[i]; Yields(items[i].1, t))
    case Arr(es) => exists i :: 0 <= i < |es| && Inside(es[i], t)
    case _ => false
  }

  /** A string is collected exactly when it is the stripped, long-enough text of a dictionary value somewhere in the document. */
  lemma {:induction false} ExtractMember(v: Json, t: string)
    ensures t in ExtractTexts(v) <==> Inside(v, t)
    decreases v, 1
  {
    match v
    case Obj(items) => ItemsMember(items, t);
    case Arr(es) => ElemsMember(es, t);
    case _ =>
  }

  lemma {:induction false} ValueMember(v: Json, t: string)
    ensures t in ValueTexts(v) <==> Yields(v, t)
    decreases v, 2
  {
    match v
    case Str(raw) =>
    case _ => ExtractMember(v, t);
  }

  lemma {:induction false} ItemsMember(items: seq<(string, Json)>, t: string)
    ensures t in ItemTexts(items) <==> exists i :: 0 <= i < |items| && Yields(items[i].1, t)
    decreases items, 0
  {
    if items != [] {
      assert items[0].1 < items[0];
      ValueMember(items[0].1, t);
      ItemsMember(items[1..], t);
      assert forall i :: 1 <= i < |items| ==> items[1..][i - 1] == items[i];
      if Yields(items[0].1, t) {
        assert 0 < |items| && Yields(items[0].1, t);
      }
    }
  }

  lemma {:induction false} ElemsMember(es: seq<Json>, t: string)
    ensures t in ElemTexts(es) <==> exists i :: 0 <= i < |es| && Inside(es[i], t)
    decreases es, 0
  {
    if es != [] {
      ExtractMember(es[0], t);
      ElemsMember(es[1..], t);
      assert forall i :: 1 <= i < |es| ==> es[1..][i - 1] == es[i];
      if Inside(es[0], t) {
        assert 0 < |es| && Inside(es[0], t);
      }
    }
  }

  // ---------------------------------------------------------------------
  // Order and the cases that contribute nothing

  /** The texts of a dictionary are those of its first items followed by those of the rest: document order is kept. */
  lemma {:induction false} ItemTextsAppend(a: seq<(string, Json)>, b: seq<(string, Json)>)
    ensures ItemTexts(a + b) == ItemTexts(a) + ItemTexts(b)
    decreases |a|
  {
    if a != [] {
      assert (a + b)[0] == a[0];
      assert (a + b)[1..] == a[1..] + b;
      ItemTextsAppend(a[1..], b);
    } else {
      assert a + b == b;
    }
  }

  /** The same for the items of a list. */
  lemma {:induction false} ElemTextsAppend(a: seq<Json>, b: seq<Json>)
    ensures ElemTexts(a + b) == ElemTexts(a) + ElemTexts(b)
    decreases |a|
  {
    if a != [] {
      assert (a + b)[0] == a[0];
      assert (a + b)[1..] == a[1..] + b;
      ElemTextsAppend(a[1..], b);
    } else {
      assert a + b == b;
    }
  }

  /** A dictionary with one string entry yields that string stripped, if it is long enough, whatever the key. */
  lemma SingleEntry(key: string, raw: string)
    ensures ExtractTexts(Obj([(key, Str(raw))])) == if |Strip(raw)| >= MinTextLength then [Strip(raw)] else []
  {
    var items := [(key, Str(raw))];
    assert items[1..] == [];
    assert ItemTexts(items) == ValueTexts(Str(raw)) + ItemTexts([]);
  }

  /** A list of strings yields nothing: only dictionary values are text fields. */
  lemma {:induction false} StringListIgnored(ss: seq<string>)
    ensures ExtractTexts(Arr(seq(|ss|, k requires 0 <= k < |ss| => Str(ss[k])))) == []
    decreases |ss|
  {
    var es := seq(|ss|, k requires 0 <= k < |ss| => Str(ss[k]));
    if ss != [] {
      assert es[1..] == seq(|ss[1..]|, k requires 0 <= k < |ss[1..]| => Str(ss[1..][k]));
      StringListIgnored(ss[1..]);
      assert ElemTexts(es) == ExtractTexts(es[0]) + ElemTexts(es[1..]);
    }
  }
}
