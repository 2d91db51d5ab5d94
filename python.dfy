/**
 * The parts of Python's built-in `str` and list semantics that the retrieval
 * pipeline relies on: whitespace as `str.isspace()` sees it, `strip()`,
 * `len(s.split())`, `sep.join(parts)`, `s.split(sep)`, `lower()` as far as
 * the comparisons against ASCII keywords go, substring search, `str(int)`
 * and the slice `xs[j:]` with a possibly negative start.
 */
module Python {

  datatype Option<T> = None | Some(value: T)

  function Min(a: int, b: int): int { if a <= b then a else b }

  function Max(a: int, b: int): int { if a <= b then b else a }

  // ---------------------------------------------------------------------
  // Whitespace

  /** `c.isspace()`: the characters that `split()`, `strip()` and the regex class `\s` treat as whitespace. */
  predicate IsSpace(c: char) {
    ('\t' <= c <= '\r') || ('\U{1C}' <= c <= '\U{1F}') || c == ' ' || c == '\U{85}' || c == '\U{A0}'
    || c == '\U{1680}' || ('\U{2000}' <= c <= '\U{200A}') || c == '\U{2028}' || c == '\U{2029}'
    || c == '\U{202F}' || c == '\U{205F}' || c == '\U{3000}'
  }

  predicate AllSpace(s: string) {
    forall i :: 0 <= i < |s| ==> IsSpace(s[i])
  }

  /** `s.lstrip()` */
  function LStrip(s: string): (r: string)
    ensures |r| <= |s| && r == s[|s| - |r|..]
    ensures AllSpace(s[..|s| - |r|])
    ensures r == [] || !IsSpace(r[0])
    decreases |s|
  {
    if s != [] && IsSpace(s[0]) then LStrip(s[1..]) else s
  }

  /** `s.rstrip()` */
  function RStrip(s: string): (r: string)
    ensures |r| <= |s| && r == s[..|r|]
    ensures AllSpace(s[|r|..])
    ensures r == [] || !IsSpace(r[|r| - 1])
    decreases |s|
  {
    if s != [] && IsSpace(s[|s| - 1]) then RStrip(s[..|s| - 1]) else s
  }

  /** `s.strip()` */
  function Strip(s: string): string {
    RStrip(LStrip(s))
  }

  /** A stripped string has no whitespace at either end, is empty exactly when the input is blank, and stripping it again changes nothing. */
  lemma StripSpec(s: string)
    ensures var r := Strip(s);
      && (r == [] || (!IsSpace(r[0]) && !IsSpace(r[|r| - 1])))
      && (r == [] <==> AllSpace(s))
      && Strip(r) == r
  {
    var l := LStrip(s);
    var r := RStrip(l);
    var d := |s| - |l|;
    if r != [] {
      assert r[0] == l[0] == s[d];
      assert !AllSpace(s);
    } else {
      assert AllSpace(l[|r|..]);
      assert l[|r|..] == l;
      assert l == [];
      assert s[..d] == s;
    }
    UnchangedByStrip(r);
  }

  lemma UnchangedByStrip(r: string)
    requires r == [] || (!IsSpace(r[0]) && !IsSpace(r[|r| - 1]))
    ensures Strip(r) == r
  {
  }

  // ---------------------------------------------------------------------
  // Words: `len(s.split())`

  /** Number of words of `s`, where `afterSpace` says whether the text before `s` ended in whitespace. */
  function WordsAfter(s: string, afterSpace: bool): nat
    decreases |s|
  {
    if s == [] then 0
    else (if afterSpace && !IsSpace(s[0]) then 1 else 0) + WordsAfter(s[1..], IsSpace(s[0]))
  }

  /** `len(s.split())`: the number of maximal runs of non-whitespace characters. */
  function WordCount(s: string): nat {
    WordsAfter(s, true)
  }

  function EndsAfterSpace(s: string, afterSpace: bool): bool {
    if s == [] then afterSpace else IsSpace(s[|s| - 1])
  }

  lemma {:induction false} WordsAfterAppend(a: string, b: string, afterSpace: bool)
    ensures WordsAfter(a + b, afterSpace) == WordsAfter(a, afterSpace) + WordsAfter(b, EndsAfterSpace(a, afterSpace))
    decreases |a|
  {
    if a == [] {
      assert a + b == b;
    } else {
      assert (a + b)[0] == a[0];
      assert (a + b)[1..] == a[1..] + b;
      WordsAfterAppend(a[1..], b, IsSpace(a[0]));
      assert EndsAfterSpace(a[1..], IsSpace(a[0])) == EndsAfterSpace(a, afterSpace);
    }
  }

  /** Joining two texts with a single space neither merges nor splits words. */
  lemma WordCountSpaceJoin(a: string, b: string)
    ensures WordCount(a + " " + b) == WordCount(a) + WordCount(b)
  {
    assert a + " " + b == a + (" " + b);
    WordsAfterAppend(a, " " + b, true);
    assert (" " + b)[0] == ' ' && (" " + b)[1..] == b;
  }

  /** Blank text has no words, and text with a non-blank character has at least one. */
  lemma {:induction false} WordCountZero(s: string)
    ensures WordCount(s) == 0 <==> AllSpace(s)
    decreases |s|
  {
    if s != [] {
      if IsSpace(s[0]) {
        WordCountZero(s[1..]);
        assert AllSpace(s) <==> AllSpace(s[1..]) by {
          assert forall i :: 1 <= i < |s| ==> s[1..][i - 1] == s[i];
        }
      } else {
        assert !AllSpace(s);
      }
    }
  }

  /** Sum of the word counts of a list of sentences. */
  function SumWords(ss: seq<string>): nat {
    if ss == [] then 0 else SumWords(ss[..|ss| - 1]) + WordCount(ss[|ss| - 1])
  }

  // ---------------------------------------------------------------------
  // Joining and splitting

  /** `sep.join(parts)` */
  function Join(sep: string, parts: seq<string>): string {
    if |parts| == 0 then ""
    else if |parts| == 1 then parts[0]
    else parts[0] + sep + Join(sep, parts[1..])
  }

  lemma {:induction false} JoinSnoc(sep: string, parts: seq<string>, x: string)
    requires parts != []
    ensures Join(sep, parts + [x]) == Join(sep, parts) + sep + x
    decreases |parts|
  {
    if |parts| == 1 {
      assert (parts + [x])[1..] == [x];
    } else {
      assert (parts + [x])[1..] == parts[1..] + [x];
      JoinSnoc(sep, parts[1..], x);
    }
  }

  /** `len(" ".join(ss).split())` is the sum of the sentences' word counts. */
  lemma {:induction false} WordCountJoin(ss: seq<string>)
    ensures WordCount(Join(" ", ss)) == SumWords(ss)
    decreases |ss|
  {
    if |ss| == 1 {
      assert ss[..0] == [];
    } else if |ss| > 1 {
      var init := ss[..|ss| - 1];
      assert ss == init + [ss[|ss| - 1]];
      JoinSnoc(" ", init, ss[|ss| - 1]);
      WordCountJoin(init);
      WordCountSpaceJoin(Join(" ", init), ss[|ss| - 1]);
    }
  }

  predicate OccursAt(s: string, p: string, j: int) {
    0 <= j && j + |p| <= |s| && s[j..j + |p|] == p
  }

  /** `s.find(p)`: the first position where `p` occurs in `s`, or -1. */
  function Find(s: string, p: string): (i: int)
    ensures i == -1 || 0 <= i <= |s| - |p|
    ensures i >= 0 ==> OccursAt(s, p, i)
    ensures forall j :: 0 <= j && (i < 0 || j < i) ==> !OccursAt(s, p, j)
    decreases |s|
  {
    if |s| < |p| then -1
    else if s[..|p|] == p then 0
    else
      var k := Find(s[1..], p);
      assert forall j :: 1 <= j ==> (OccursAt(s, p, j) <==> OccursAt(s[1..], p, j - 1)) by {
        forall j | 1 <= j && j + |p| <= |s| ensures OccursAt(s, p, j) <==> OccursAt(s[1..], p, j - 1) {
          assert s[1..][j - 1..j - 1 + |p|] == s[j..j + |p|];
        }
      }
      assert !OccursAt(s, p, 0);
      if k < 0 then -1 else k + 1
  }

  /** `p in s` */
  predicate Contains(s: string, p: string) {
    Find(s, p) >= 0
  }

  lemma ContainsSpec(s: string, p: string)
    ensures Contains(s, p) <==> exists j :: OccursAt(s, p, j)
  {
  }

  /** A string that contains `p` keeps containing it inside a longer string. */
  lemma ContainsWithin(x: string, y: string, z: string, p: string)
    requires Contains(y, p)
    ensures Contains(x + y + z, p)
  {
    ContainsSpec(y, p);
    var j :| OccursAt(y, p, j);
    var all := x + y + z;
    assert all[|x| + j..|x| + j + |p|] == y[j..j + |p|];
    assert OccursAt(all, p, |x| + j);
    ContainsSpec(all, p);
  }

  /** `s.split(sep)` for a non-empty separator: the pieces between non-overlapping occurrences, found left to right. */
  function SplitOn(s: string, sep: string): (parts: seq<string>)
    requires sep != []
    ensures |parts| >= 1
    decreases |s|
  {
    var i := Find(s, sep);
    if i < 0 then [s] else [s[..i]] + SplitOn(s[i + |sep|..], sep)
  }

  /** Splitting and joining with the same separator gives the text back. */
  lemma {:induction false} JoinSplitOn(s: string, sep: string)
    requires sep != []
    ensures Join(sep, SplitOn(s, sep)) == s
    decreases |s|
  {
    var i := Find(s, sep);
    if i >= 0 {
      var rest := s[i + |sep|..];
      JoinSplitOn(rest, sep);
      JoinCons(sep, s[..i], SplitOn(rest, sep));
      AroundOccurrence(s, sep, i);
    }
  }

  lemma JoinCons(sep: string, a: string, t: seq<string>)
    requires t != []
    ensures Join(sep, [a] + t) == a + sep + Join(sep, t)
  {
    assert ([a] + t)[1..] == t;
  }

  lemma AroundOccurrence(s: string, p: string, i: int)
    requires OccursAt(s, p, i)
    ensures s == s[..i] + p + s[i + |p|..]
  {
    assert s == s[..i] + s[i..i + |p|] + s[i + |p|..];
  }

  /** No character of `p` is a character of `sep`. */
  predicate Avoids(p: string, sep: string) {
    forall i :: 0 <= i < |p| ==> p[i] !in sep
  }

  lemma NoEarlyOccurrence(s: string, p0: string, sep: string)
    requires sep != [] && |p0| <= |s| && s[..|p0|] == p0 && Avoids(p0, sep)
    ensures forall j :: 0 <= j < |p0| ==> !OccursAt(s, sep, j)
  {
    forall j | 0 <= j < |p0| ensures !OccursAt(s, sep, j) {
      assert s[j] == p0[j] by { assert s[..|p0|][j] == p0[j]; }
      assert sep[0] in sep;
      assert j + |sep| <= |s| ==> s[j..j + |sep|][0] == s[j];
    }
  }

  /** Pieces that contain no character of the separator come back unchanged from a join followed by a split. */
  lemma {:induction false} SplitOnJoin(parts: seq<string>, sep: string)
    requires |sep| > 0 && |parts| > 0
    requires forall k :: 0 <= k < |parts| ==> Avoids(parts[k], sep)
    ensures SplitOn(Join(sep, parts), sep) == parts
    decreases |parts|
  {
    var p0 := parts[0];
    if |parts| == 1 {
      SplitOnAvoiding(p0, sep);
    } else {
      var tail := Join(sep, parts[1..]);
      assert Join(sep, parts) == p0 + sep + tail;
      SplitOnFirst(p0, sep, tail);
      assert forall k :: 0 <= k < |parts[1..]| ==> Avoids(parts[1..][k], sep) by {
        forall k | 0 <= k < |parts[1..]| ensures Avoids(parts[1..][k], sep) {
          assert parts[1..][k] == parts[k + 1];
        }
      }
      SplitOnJoin(parts[1..], sep);
      assert parts == [p0] + parts[1..];
    }
  }

  /** A string with no character of the separator splits into itself. */
  lemma SplitOnAvoiding(p0: string, sep: string)
    requires sep != [] && Avoids(p0, sep)
    ensures SplitOn(p0, sep) == [p0]
  {
    assert p0[..|p0|] == p0;
    NoEarlyOccurrence(p0, p0, sep);
    assert Find(p0, sep) == -1;
  }

  /** A first piece with no character of the separator is split off at the separator that follows it. */
  lemma SplitOnFirst(p0: string, sep: string, tail: string)
    requires sep != [] && Avoids(p0, sep)
    ensures SplitOn(p0 + sep + tail, sep) == [p0] + SplitOn(tail, sep)
  {
    var s := p0 + sep + tail;
    assert s[..|p0|] == p0;
    NoEarlyOccurrence(s, p0, sep);
    assert OccursAt(s, sep, |p0|) by {
      assert s[|p0|..|p0| + |sep|] == sep;
    }
    assert Find(s, sep) == |p0|;
    assert s[|p0| + |sep|..] == tail;
  }

  // ---------------------------------------------------------------------
  // Case folding, digits, numbers

  /**
   * `c.lower()` for the characters whose lower-case form contains an ASCII letter
   * (A-Z, the dotted capital I and the Kelvin sign); every other character is kept,
   * which leaves every comparison against an ASCII lower-case keyword as Python has it.
   */
  function LowerChar(c: char): string {
    if 'A' <= c <= 'Z' then [(c as int + 32) as char]
    else if c == '\U{130}' then "i\U{307}"
    else if c == '\U{212A}' then "k"
    else [c]
  }

  /** `s.lower()` (see LowerChar) */
  function Lower(s: string): string {
    if s == [] then [] else LowerChar(s[0]) + Lower(s[1..])
  }

  predicate IsDigit(c: char) { '0' <= c <= '9' }

  predicate AllDigits(s: string) {
    forall i :: 0 <= i < |s| ==> IsDigit(s[i])
  }

  function DigitChar(d: nat): char
    requires d < 10
  {
    ('0' as int + d) as char
  }

  function DigitValue(c: char): nat
    requires IsDigit(c)
  {
    c as int - '0' as int
  }

  /** `str(n)` for a natural number */
  function NatToString(n: nat): (r: string)
    ensures |r| >= 1 && AllDigits(r)
  {
    if n < 10 then [DigitChar(n)] else NatToString(n / 10) + [DigitChar(n % 10)]
  }

  /** `int(s)` for a non-empty string of ASCII digits */
  function ParseNat(s: string): nat
    requires AllDigits(s)
  {
    if s == [] then 0 else 10 * ParseNat(s[..|s| - 1]) + DigitValue(s[|s| - 1])
  }

  /** `int(str(n)) == n` */
  lemma {:induction false} ParseNatToString(n: nat)
    ensures ParseNat(NatToString(n)) == n
  {
    if n >= 10 {
      var r := NatToString(n);
      assert r[..|r| - 1] == NatToString(n / 10);
      ParseNatToString(n / 10);
    }
  }

  /** `str(i)` for an integer */
  function IntToString(i: int): string {
    if i < 0 then "-" + NatToString(-i) else NatToString(i)
  }

  // ---------------------------------------------------------------------
  // Lists

  /** `xs[j:]` for any integer `j`: a negative start counts from the end, and both ends are clamped. */
  function SliceFrom<T>(xs: seq<T>, j: int): (r: seq<T>)
    ensures |r| <= |xs| && r == xs[|xs| - |r|..]
  {
    if j < 0 then xs[Max(|xs| + j, 0)..] else xs[Min(j, |xs|)..]
  }

  lemma AppendAssoc<T>(a: seq<T>, b: seq<T>, c: seq<T>)
    ensures (a + b) + c == a + (b + c)
  {
  }

  lemma PrefixSnoc<T>(xs: seq<T>, i: nat)
    requires i < |xs|
    ensures xs[..i + 1] == xs[..i] + [xs[i]]
  {
  }
}
