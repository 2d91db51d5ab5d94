/**
 * `clean_text` of the Wikipedia scraper: six regular-expression deletions,
 * each one left-to-right pass of `re.sub(pattern, '', text)`, then
 * paragraph normalisation (split on blank lines, strip each paragraph,
 * collapse its whitespace runs to one space, drop empty paragraphs, join
 * with a blank line, strip).
 *
 * Each pattern is matched by a small matcher (`MatchAt`) that returns the
 * length of the match at the start of a suffix of the text, or 0; its
 * agreement with the pattern's language (`MatchesAt`) is proved.
 */
module WikiText {
  import opened Python

  /** The six patterns, in the order `clean_text` applies them. */
  datatype Pattern =
    | EditLink        // \[\s*edit\s*\]
    | CiteNumber      // \[\d+\]
    | CitationNeeded  // \[citation needed\]
    | TrailingNumber  // \d+$
    | Pronunciation   // \(; .*?\)
    | LifeDates       // \s*\([^)]*\b(?:born|died)\b[^)]*\)

  // ---------------------------------------------------------------------
  // Scanning helpers

  /** The length of the whitespace run at the start of `s`. */
  function SpaceRun(s: string): (n: nat)
    ensures n <= |s| && AllSpace(s[..n]) && (n == |s| || !IsSpace(s[n]))
    decreases |s|
  {
    if s != [] && IsSpace(s[0]) then
      var k := SpaceRun(s[1..]);
      assert s[..1 + k] == [s[0]] + s[1..][..k];
      1 + k
    else 0
  }

  /** A whitespace run followed by a non-space character (or the end) is the run SpaceRun finds. */
  lemma {:induction false} SpaceRunUnique(s: string, j: nat)
    requires j <= |s| && AllSpace(s[..j]) && (j == |s| || !IsSpace(s[j]))
    ensures SpaceRun(s) == j
    decreases j
  {
    if j > 0 {
      assert s[..j][0] == s[0];
      assert s[1..][..j - 1] == s[..j][1..];
      SpaceRunUnique(s[1..], j - 1);
    }
  }

  /** The length of the ASCII digit run at the start of `s`. */
  function DigitRun(s: string): (n: nat)
    ensures n <= |s| && AllDigits(s[..n]) && (n == |s| || !IsDigit(s[n]))
    decreases |s|
  {
    if s != [] && IsDigit(s[0]) then
      var k := DigitRun(s[1..]);
      assert s[..1 + k] == [s[0]] + s[1..][..k];
      1 + k
    else 0
  }

  lemma {:induction false} DigitRunUnique(s: string, j: nat)
    requires j <= |s| && AllDigits(s[..j]) && (j == |s| || !IsDigit(s[j]))
    ensures DigitRun(s) == j
    decreases j
  {
    if j > 0 {
      assert s[..j][0] == s[0];
      assert s[1..][..j - 1] == s[..j][1..];
      DigitRunUnique(s[1..], j - 1);
    }
  }

  /** The first position at or after `i` holding `)`, or, when `atNewline`, `)` or a newline; `|s|` if there is none. */
  function NextStop(s: string, i: nat, atNewline: bool): (j: nat)
    requires i <= |s|
    ensures i <= j <= |s|
    ensures j < |s| ==> s[j] == ')' || (atNewline && s[j] == '\n')
    ensures forall k :: i <= k < j ==> s[k] != ')' && (atNewline ==> s[k] != '\n')
    decreases |s| - i
  {
    if i == |s| || s[i] == ')' || (atNewline && s[i] == '\n') then i else NextStop(s, i + 1, atNewline)
  }

  /** `\w` on ASCII: letters, digits and the underscore. */
  predicate IsWordChar(c: char) {
    ('a' <= c <= 'z') || ('A' <= c <= 'Z') || ('0' <= c <= '9') || c == '_'
  }

  /** `born` or `died` as a whole word somewhere in `b` (the text between the brackets, which are not word characters). */
  predicate HasLifeWord(b: string) {
    exists i :: 0 <= i <= |b| - 4 && LifeWordAt(b, i)
  }

  predicate LifeWordAt(b: string, i: nat)
    requires i + 4 <= |b|
  {
    && (b[i..i + 4] == "born" || b[i..i + 4] == "died")
    && (i == 0 || !IsWordChar(b[i - 1])) && (i + 4 == |b| || !IsWordChar(b[i + 4]))
  }

  // ---------------------------------------------------------------------
  // Matching

  /** The length of the match of `p` at the start of `s` (the rest of the text from the scan position), 0 if none. */
  function MatchAt(p: Pattern, s: string): (m: nat)
    ensures m <= |s|
  {
    match p
    case EditLink =>
      if s == [] || s[0] != '[' then 0
      else
        var a := 1 + SpaceRun(s[1..]);
        if a + 4 > |s| || s[a..a + 4] != "edit" then 0
        else
          var b := a + 4 + SpaceRun(s[a + 4..]);
          if b < |s| && s[b] == ']' then b + 1 else 0
    case CiteNumber =>
      if s == [] || s[0] != '[' then 0
      else
        var d := DigitRun(s[1..]);
        if d > 0 && 1 + d < |s| && s[1 + d] == ']' then d + 2 else 0
    case CitationNeeded =>
      if |s| >= 17 && s[..17] == "[citation needed]" then 17 else 0
    case TrailingNumber =>
      var d := DigitRun(s);
      if d > 0 && (d == |s| || (d + 1 == |s| && s[d] == '\n')) then d else 0
    case Pronunciation =>
      if |s| < 3 || s[..3] != "(; " then 0
      else
        var j := NextStop(s, 3, true);
        if j < |s| && s[j] == ')' then j + 1 else 0
    case LifeDates =>
      var k := SpaceRun(s);
      if k == |s| || s[k] != '(' then 0
      else
        var c := NextStop(s, k + 1, false);
        if c < |s| && HasLifeWord(s[k + 1..c]) then c + 1 else 0
  }

  /**
   * The pattern's language: `s[..m]` is a match of `p` at the start of `s`
   * (`$` looks at what follows, `s[m..]`: the end of the text, or a final
   * newline).
   */
  ghost predicate MatchesAt(p: Pattern, s: string, m: nat)
    requires 0 < m <= |s|
  {
    match p
    case EditLink =>
      && s[0] == '[' && s[m - 1] == ']'
      && exists i :: 1 <= i <= m - 5 && AllSpace(s[1..i]) && s[i..i + 4] == "edit" && AllSpace(s[i + 4..m - 1])
    case CiteNumber =>
      m >= 3 && s[0] == '[' && s[m - 1] == ']' && AllDigits(s[1..m - 1])
    case CitationNeeded =>
      s[..m] == "[citation needed]"
    case TrailingNumber =>
      AllDigits(s[..m]) && (m == |s| || (m + 1 == |s| && s[m] == '\n'))
    case Pronunciation =>
      && m >= 4 && s[..3] == "(; " && s[m - 1] == ')'
      && forall i :: 3 <= i < m - 1 ==> s[i] != ')' && s[i] != '\n'
    case LifeDates =>
      && s[m - 1] == ')'
      && exists k :: 0 <= k < m - 1 && AllSpace(s[..k]) && s[k] == '('
           && (forall i :: k < i < m - 1 ==> s[i] != ')') && HasLifeWord(s[k + 1..m - 1])
  }

  /** The matcher finds exactly the match of the pattern's language: there is at most one, and MatchAt returns its length. */
  lemma MatchAtSpec(p: Pattern, s: string)
    ensures forall m :: 0 < m <= |s| ==> (MatchesAt(p, s, m) <==> m == MatchAt(p, s))
  {
    match p
    case EditLink => EditLinkSpec(s);
    case CiteNumber => CiteNumberSpec(s);
    case CitationNeeded =>
    case TrailingNumber => TrailingNumberSpec(s);
    case Pronunciation => PronunciationSpec(s);
    case LifeDates => LifeDatesSpec(s);
  }

  lemma EditLinkSpec(s: string)
    ensures forall m :: 0 < m <= |s| ==> (MatchesAt(EditLink, s, m) <==> m == MatchAt(EditLink, s))
  {
    forall m | 0 < m <= |s| ensures MatchesAt(EditLink, s, m) <==> m == MatchAt(EditLink, s) {
      if MatchesAt(EditLink, s, m) {
        EditLinkSound(s, m);
      }
      if m == MatchAt(EditLink, s) {
        EditLinkComplete(s);
      }
    }
  }

  lemma EditLinkSound(s: string, m: nat)
    requires 0 < m <= |s| && MatchesAt(EditLink, s, m)
    ensures MatchAt(EditLink, s) == m
  {
    var i :| 1 <= i <= m - 5 && AllSpace(s[1..i]) && s[i..i + 4] == "edit" && AllSpace(s[i + 4..m - 1]);
    EditLinkFrom(s, m, i);
  }

  lemma EditLinkFrom(s: string, m: nat, i: nat)
    requires 1 <= i <= m - 5 && m <= |s| && s[0] == '[' && s[m - 1] == ']'
    requires AllSpace(s[1..i]) && s[i..i + 4] == "edit" && AllSpace(s[i + 4..m - 1])
    ensures MatchAt(EditLink, s) == m
  {
    assert s[i] == s[i..i + 4][0];
    SpaceRunBetween(s, 1, i);
    SpaceRunBetween(s, i + 4, m - 1);
  }

  /** The whitespace run from `lo` ends at `hi` when `s[lo..hi]` is blank and `s[hi]` is not whitespace. */
  lemma SpaceRunBetween(s: string, lo: nat, hi: nat)
    requires lo <= hi < |s| && AllSpace(s[lo..hi]) && !IsSpace(s[hi])
    ensures SpaceRun(s[lo..]) == hi - lo
  {
    assert s[lo..][..hi - lo] == s[lo..hi];
    SpaceRunUnique(s[lo..], hi - lo);
  }

  lemma EditLinkComplete(s: string)
    requires MatchAt(EditLink, s) > 0
    ensures MatchesAt(EditLink, s, MatchAt(EditLink, s))
  {
    var a := 1 + SpaceRun(s[1..]);
    assert s[1..][..a - 1] == s[1..a];
    var b := a + 4 + SpaceRun(s[a + 4..]);
    assert s[a + 4..][..b - (a + 4)] == s[a + 4..b];
    assert MatchAt(EditLink, s) == b + 1;
  }

  lemma CiteNumberSpec(s: string)
    ensures forall m :: 0 < m <= |s| ==> (MatchesAt(CiteNumber, s, m) <==> m == MatchAt(CiteNumber, s))
  {
    forall m | 0 < m <= |s| ensures MatchesAt(CiteNumber, s, m) <==> m == MatchAt(CiteNumber, s) {
      if MatchesAt(CiteNumber, s, m) {
        assert s[1..][..m - 2] == s[1..m - 1];
        DigitRunUnique(s[1..], m - 2);
      }
      if m == MatchAt(CiteNumber, s) {
        assert s[1..][..m - 2] == s[1..m - 1];
      }
    }
  }

  lemma TrailingNumberSpec(s: string)
    ensures forall m :: 0 < m <= |s| ==> (MatchesAt(TrailingNumber, s, m) <==> m == MatchAt(TrailingNumber, s))
  {
    forall m | 0 < m <= |s| ensures MatchesAt(TrailingNumber, s, m) <==> m == MatchAt(TrailingNumber, s) {
      if MatchesAt(TrailingNumber, s, m) {
        DigitRunUnique(s, m);
      }
    }
  }

  lemma PronunciationSpec(s: string)
    ensures forall m :: 0 < m <= |s| ==> (MatchesAt(Pronunciation, s, m) <==> m == MatchAt(Pronunciation, s))
  {
    forall m | 0 < m <= |s| ensures MatchesAt(Pronunciation, s, m) <==> m == MatchAt(Pronunciation, s) {
      if MatchesAt(Pronunciation, s, m) {
        var j := NextStop(s, 3, true);
        assert j <= m - 1;
        assert j >= m - 1;
      }
    }
  }

  lemma LifeDatesSpec(s: string)
    ensures forall m :: 0 < m <= |s| ==> (MatchesAt(LifeDates, s, m) <==> m == MatchAt(LifeDates, s))
  {
    forall m | 0 < m <= |s| ensures MatchesAt(LifeDates, s, m) <==> m == MatchAt(LifeDates, s) {
      if MatchesAt(LifeDates, s, m) {
        LifeDatesSound(s, m);
      }
      if m == MatchAt(LifeDates, s) {
        LifeDatesComplete(s);
      }
    }
  }

  lemma LifeDatesSound(s: string, m: nat)
    requires 0 < m <= |s| && MatchesAt(LifeDates, s, m)
    ensures MatchAt(LifeDates, s) == m
  {
    var k :| 0 <= k < m - 1 && AllSpace(s[..k]) && s[k] == '('
       && (forall i :: k < i < m - 1 ==> s[i] != ')') && HasLifeWord(s[k + 1..m - 1]);
    LifeDatesFrom(s, m, k);
  }

  lemma LifeDatesFrom(s: string, m: nat, k: nat)
    requires 0 <= k < m - 1 && m <= |s| && s[m - 1] == ')' && AllSpace(s[..k]) && s[k] == '('
    requires forall i :: k < i < m - 1 ==> s[i] != ')'
    requires HasLifeWord(s[k + 1..m - 1])
    ensures MatchAt(LifeDates, s) == m
  {
    SpaceRunUnique(s, k);
    NextStopAt(s, k + 1, m - 1);
  }

  /** The first `)` at or after `i` is at `j` when `s[j]` is one and none comes before it. */
  lemma NextStopAt(s: string, i: nat, j: nat)
    requires i <= j < |s| && s[j] == ')'
    requires forall t :: i <= t < j ==> s[t] != ')'
    ensures NextStop(s, i, false) == j
  {
    var c := NextStop(s, i, false);
    assert c <= j;
    assert c >= j;
  }

  lemma LifeDatesComplete(s: string)
    requires MatchAt(LifeDates, s) > 0
    ensures MatchesAt(LifeDates, s, MatchAt(LifeDates, s))
  {
    var k := SpaceRun(s);
    assert 0 <= k < MatchAt(LifeDates, s) - 1 && AllSpace(s[..k]) && s[k] == '(';
  }

  // ---------------------------------------------------------------------
  // One pass of re.sub(pattern, '', text)

  /** Scan left to right: a match is deleted and scanning resumes after it; otherwise the character is kept. */
  function Delete(p: Pattern, s: string): (r: string)
    ensures |r| <= |s|
    decreases |s|
  {
    if s == [] then []
    else
      var m := MatchAt(p, s);
      if m > 0 then Delete(p, s[m..]) else [s[0]] + Delete(p, s[1..])
  }

  /** Some scan position of `s` starts a match. */
  ghost predicate HasMatch(p: Pattern, s: string) {
    exists j :: 0 <= j < |s| && MatchAt(p, s[j..]) > 0
  }

  /** Without a match at the front, the text has a match exactly when its tail has one. */
  lemma HasMatchTail(p: Pattern, s: string)
    requires s != [] && MatchAt(p, s) == 0
    ensures HasMatch(p, s) <==> HasMatch(p, s[1..])
  {
    if HasMatch(p, s) {
      var j :| 0 <= j < |s| && MatchAt(p, s[j..]) > 0;
      assert j != 0 by { assert s[0..] == s; }
      assert s[1..][j - 1..] == s[j..];
      assert 0 <= j - 1 < |s[1..]| && MatchAt(p, s[1..][j - 1..]) > 0;
    }
    if HasMatch(p, s[1..]) {
      var j :| 0 <= j < |s[1..]| && MatchAt(p, s[1..][j..]) > 0;
      assert s[1..][j..] == s[j + 1..];
      assert 0 <= j + 1 < |s| && MatchAt(p, s[j + 1..]) > 0;
    }
  }

  /** A pass changes the text exactly when the pattern matches somewhere in it. */
  lemma {:induction false} DeleteUnchangedIff(p: Pattern, s: string)
    ensures Delete(p, s) == s <==> !HasMatch(p, s)
    decreases |s|
  {
    if s != [] {
      if MatchAt(p, s) == 0 {
        HasMatchTail(p, s);
        DeleteUnchangedIff(p, s[1..]);
        ConsSame(s[0], Delete(p, s[1..]), s[1..]);
        assert s == [s[0]] + s[1..];
      } else {
        DeleteAtMatch(p, s);
      }
    }
  }

  lemma ConsSame(c: char, a: string, b: string)
    ensures [c] + a == [c] + b <==> a == b
  {
    if [c] + a == [c] + b {
      assert a == ([c] + a)[1..];
    }
  }

  /** A match at the front is deleted, so the text changes. */
  lemma DeleteAtMatch(p: Pattern, s: string)
    requires s != [] && MatchAt(p, s) > 0
    ensures HasMatch(p, s) && Delete(p, s) != s
  {
    assert s[0..] == s;
    assert |Delete(p, s)| < |s|;
  }

  /** A text containing a match loses at least one character. */
  lemma {:induction false} DeleteShrinks(p: Pattern, s: string)
    requires HasMatch(p, s)
    ensures |Delete(p, s)| < |s|
    decreases |s|
  {
    if MatchAt(p, s) == 0 {
      HasMatchTail(p, s);
      DeleteShrinks(p, s[1..]);
    }
  }

  /**
   * What a pass keeps: the text before the first scan position where the
   * pattern matches is kept as it is, that match is removed, and the pass
   * goes on after it.
   */
  lemma DeleteFirstMatch(p: Pattern, s: string, j: nat)
    requires j < |s| && MatchAt(p, s[j..]) > 0
    requires forall i :: 0 <= i < j ==> MatchAt(p, s[i..]) == 0
    ensures Delete(p, s) == s[..j] + Delete(p, s[j + MatchAt(p, s[j..])..])
  {
    KeepPrefix(p, s, j);
    StepCut(p, s, j);
  }

  /** A pass keeps the text before the first scan position that matches. */
  lemma {:induction false} KeepPrefix(p: Pattern, s: string, j: nat)
    requires j <= |s|
    requires forall i :: 0 <= i < j ==> MatchAt(p, s[i..]) == 0
    ensures Delete(p, s) == s[..j] + Delete(p, s[j..])
    decreases j
  {
    if j == 0 {
      assert s[..0] + s[0..] == s;
    } else {
      KeepPrefix(p, s, j - 1);
      StepKeep(p, s, j - 1);
    }
  }

  /** Keeping the character at a scan position without a match. */
  lemma StepKeep(p: Pattern, s: string, k: nat)
    requires k < |s| && MatchAt(p, s[k..]) == 0
    ensures s[..k] + Delete(p, s[k..]) == s[..k + 1] + Delete(p, s[k + 1..])
  {
    var d := Delete(p, s[k + 1..]);
    DeleteSkip(p, s[k..]);
    SliceStep(s, k);
    AppendAssoc(s[..k], [s[k]], d);
  }

  lemma SliceStep(s: string, k: nat)
    requires k < |s|
    ensures s[k..][0] == s[k] && s[k..][1..] == s[k + 1..] && s[..k + 1] == s[..k] + [s[k]]
  {
  }

  /** Deleting the match at a scan position. */
  lemma StepCut(p: Pattern, s: string, j: nat)
    requires j < |s| && MatchAt(p, s[j..]) > 0
    ensures Delete(p, s[j..]) == Delete(p, s[j + MatchAt(p, s[j..])..])
  {
    assert s[j..][MatchAt(p, s[j..])..] == s[j + MatchAt(p, s[j..])..];
  }

  /** One step of a pass where nothing matches: the first character is kept. */
  lemma DeleteSkip(p: Pattern, s: string)
    requires s != [] && MatchAt(p, s) == 0
    ensures Delete(p, s) == [s[0]] + Delete(p, s[1..])
  {
  }

  // ---------------------------------------------------------------------
  // Whitespace normalisation

  /** `re.sub(r'\s+', ' ', s)`: every whitespace run becomes one space. */
  function Collapse(s: string): (r: string)
    ensures r == [] <==> s == []
    ensures forall i :: 0 <= i < |r| && IsSpace(r[i]) ==> r[i] == ' '
    ensures forall i :: 0 <= i < |r| - 1 ==> !(r[i] == ' ' && r[i + 1] == ' ')
    ensures r != [] ==> (r[0] == ' ' <==> IsSpace(s[0]))
    ensures r != [] ==> (r[|r| - 1] == ' ' <==> IsSpace(s[|s| - 1]))
    decreases |s|
  {
    if s == [] then []
    else if IsSpace(s[0]) then
      var n := SpaceRun(s);
      var rest := Collapse(s[n..]);
      assert AllSpace(s[..n]) && s[..n][0] == s[0];
      assert rest != [] ==> s[n..][|s[n..]| - 1] == s[|s| - 1];
      assert rest == [] ==> s[..n] == s && s[..n][|s| - 1] == s[|s| - 1];
      [' '] + rest
    else
      var rest := Collapse(s[1..]);
      [s[0]] + rest
  }

  /** Text without whitespace is left as it is. */
  lemma {:induction false} CollapseNoSpace(s: string)
    requires forall i :: 0 <= i < |s| ==> !IsSpace(s[i])
    ensures Collapse(s) == s
    decreases |s|
  {
    if s != [] {
      CollapseNoSpace(s[1..]);
      assert s == [s[0]] + s[1..];
    }
  }

  /** A non-empty whitespace run becomes a single space. */
  lemma CollapseBlank(w: string)
    requires w != [] && AllSpace(w)
    ensures Collapse(w) == " "
  {
    assert w[..|w|] == w;
    SpaceRunUnique(w, |w|);
    assert w[|w|..] == [];
  }

  /** Where no whitespace run spans the boundary, the two sides are collapsed separately. */
  lemma {:induction false} CollapseAppend(a: string, b: string)
    requires a == [] || b == [] || !IsSpace(a[|a| - 1]) || !IsSpace(b[0])
    ensures Collapse(a + b) == Collapse(a) + Collapse(b)
    decreases |a|, 1
  {
    if a == [] {
      assert a + b == b;
    } else if b == [] {
      assert a + b == a;
    } else if !IsSpace(a[0]) {
      CollapseAppendKeep(a, b);
    } else {
      CollapseAppendRun(a, b);
    }
  }

  lemma CollapseAppendKeep(a: string, b: string)
    requires a != [] && b != [] && !IsSpace(a[0]) && (!IsSpace(a[|a| - 1]) || !IsSpace(b[0]))
    ensures Collapse(a + b) == Collapse(a) + Collapse(b)
    decreases |a|, 0
  {
    SplitAppend(a, b, 1);
    CollapseKeep(a);
    CollapseKeep(a + b);
    CollapseAppend(a[1..], b);
    AppendAssoc([a[0]], Collapse(a[1..]), Collapse(b));
  }

  lemma CollapseAppendRun(a: string, b: string)
    requires a != [] && b != [] && IsSpace(a[0]) && (!IsSpace(a[|a| - 1]) || !IsSpace(b[0]))
    ensures Collapse(a + b) == Collapse(a) + Collapse(b)
    decreases |a|, 0
  {
    var m := SpaceRun(a);
    SplitAppend(a, b, m);
    if m < |a| {
      CollapseRun(a, m);
      CollapseRun(a + b, m);
      assert Collapse(a + b) == [' '] + Collapse(a[m..] + b);
      CollapseAppend(a[m..], b);
      AppendAssoc([' '], Collapse(a[m..]), Collapse(b));
    } else {
      assert a[..m] == a;
      CollapseBlank(a);
      CollapseRun(a + b, m);
      assert Collapse(a + b) == [' '] + Collapse(b);
    }
  }

  /** A non-space first character is kept. */
  lemma CollapseKeep(s: string)
    requires s != [] && !IsSpace(s[0])
    ensures Collapse(s) == [s[0]] + Collapse(s[1..])
  {
  }

  /** A leading whitespace run of length `n` becomes one space. */
  lemma CollapseRun(s: string, n: nat)
    requires 0 < n <= |s| && AllSpace(s[..n]) && (n == |s| || !IsSpace(s[n]))
    ensures Collapse(s) == [' '] + Collapse(s[n..])
  {
    assert IsSpace(s[..n][0]);
    SpaceRunUnique(s, n);
  }

  /** Slicing a concatenation inside its first part. */
  lemma SplitAppend(a: string, b: string, n: nat)
    requires n <= |a|
    ensures (a + b)[..n] == a[..n] && (a + b)[n..] == a[n..] + b
    ensures n < |a| ==> (a + b)[n] == a[n]
    ensures n == |a| && b != [] ==> (a + b)[n] == b[0]
  {
  }

  /** A normalised paragraph: its only whitespace is single spaces between other characters. */
  predicate Tidy(p: string) {
    && (forall i :: 0 <= i < |p| && IsSpace(p[i]) ==> p[i] == ' ')
    && (forall i :: 0 <= i < |p| - 1 ==> !(p[i] == ' ' && p[i + 1] == ' '))
    && (p == [] || (p[0] != ' ' && p[|p| - 1] != ' '))
  }

  /** `re.sub(r'\s+', ' ', p.strip())` is a tidy paragraph, empty exactly when `p` is blank. */
  lemma NormaliseTidy(p: string)
    ensures Tidy(Collapse(Strip(p)))
    ensures Collapse(Strip(p)) == [] <==> AllSpace(p)
  {
    StripSpec(p);
  }

  /** `[re.sub(r'\s+', ' ', p.strip()) for p in paragraphs]` */
  function Normalise(ps: seq<string>): (r: seq<string>)
    ensures |r| == |ps|
    ensures forall k :: 0 <= k < |r| ==> Tidy(r[k]) && (r[k] == [] <==> AllSpace(ps[k]))
  {
    seq(|ps|, k requires 0 <= k < |ps| => NormaliseTidy(ps[k]); Collapse(Strip(ps[k])))
  }

  /** `filter(None, ps)`: the non-empty strings, in order. */
  function NonEmpty(ps: seq<string>): (r: seq<string>)
    ensures forall k :: 0 <= k < |r| ==> r[k] != [] && r[k] in ps
    ensures forall k :: 0 <= k < |ps| && ps[k] != [] ==> ps[k] in r
    decreases |ps|
  {
    if ps == [] then []
    else
      var rest := NonEmpty(ps[1..]);
      assert forall k :: 1 <= k < |ps| ==> ps[k] == ps[1..][k - 1];
      if ps[0] != [] then [ps[0]] + rest else rest
  }

  /** Filtering a concatenation filters each part and keeps them in order, so order and repeats are kept. */
  lemma {:induction false} NonEmptyAppend(a: seq<string>, b: seq<string>)
    ensures NonEmpty(a + b) == NonEmpty(a) + NonEmpty(b)
    decreases |a|
  {
    if a == [] {
      assert a + b == b;
    } else {
      assert (a + b)[0] == a[0];
      assert (a + b)[1..] == a[1..] + b;
      NonEmptyAppend(a[1..], b);
    }
  }

  /** A single string is kept exactly when it is not empty. */
  lemma NonEmptySingle(x: string)
    ensures NonEmpty([x]) == if x != [] then [x] else []
  {
    assert [x][1..] == [];
  }

  /** The paragraph breaks `clean_text` splits on and joins with. */
  const ParagraphBreak: string := "\n\n"

  /** The text after the six deletions, in order. */
  function Deletions(text: string): (r: string)
    ensures |r| <= |text|
  {
    Delete(LifeDates, Delete(Pronunciation, Delete(TrailingNumber, Delete(CitationNeeded, Delete(CiteNumber, Delete(EditLink, text))))))
  }

  /** The non-empty normalised paragraphs of the text after the deletions. */
  function Paragraphs(text: string): (ps: seq<string>)
    ensures forall k :: 0 <= k < |ps| ==> ps[k] != [] && Tidy(ps[k])
  {
    var pieces := SplitOn(Deletions(text), ParagraphBreak);
    var normal := Normalise(pieces);
    NonEmptyTidy(normal);
    NonEmpty(normal)
  }

  /** Filtering tidy paragraphs leaves tidy paragraphs. */
  lemma NonEmptyTidy(ps: seq<string>)
    requires forall k :: 0 <= k < |ps| ==> Tidy(ps[k])
    ensures forall k :: 0 <= k < |NonEmpty(ps)| ==> Tidy(NonEmpty(ps)[k])
  {
    var kept := NonEmpty(ps);
    forall k | 0 <= k < |kept| ensures Tidy(kept[k]) {
      var j :| 0 <= j < |ps| && ps[j] == kept[k];
    }
  }

  /** `clean_text(text)` */
  function CleanText(text: string): string {
    Strip(Join(ParagraphBreak, Paragraphs(text)))
  }

  // ---------------------------------------------------------------------
  // Shape of the output

  lemma {:induction false} JoinEnds(parts: seq<string>)
    requires parts != [] && forall k :: 0 <= k < |parts| ==> parts[k] != []
    ensures var j := Join(ParagraphBreak, parts);
      j != [] && j[0] == parts[0][0] && j[|j| - 1] == parts[|parts| - 1][|parts[|parts| - 1]| - 1]
    decreases |parts|
  {
    if |parts| > 1 {
      var rest := Join(ParagraphBreak, parts[1..]);
      if |parts| > 2 {
        JoinEnds(parts[1..]);
      }
      assert Join(ParagraphBreak, parts) == parts[0] + ParagraphBreak + rest;
      assert rest == Join(ParagraphBreak, parts[1..]);
      if |parts| == 2 {
        assert rest == parts[1];
      }
    }
  }

  /** A tidy paragraph holds no newline, so no part of a paragraph break. */
  lemma TidyAvoids(p: string)
    requires Tidy(p)
    ensures Avoids(p, ParagraphBreak)
  {
    forall i | 0 <= i < |p| ensures p[i] !in ParagraphBreak {
      if p[i] == '\n' {
        assert IsSpace(p[i]);
      }
    }
  }

  /** Non-empty tidy paragraphs joined by blank lines have no whitespace at either end. */
  lemma JoinTidyEnds(ps: seq<string>)
    requires ps != [] && forall k :: 0 <= k < |ps| ==> ps[k] != [] && Tidy(ps[k])
    ensures var out := Join(ParagraphBreak, ps);
      out != [] && !IsSpace(out[0]) && !IsSpace(out[|out| - 1])
  {
    JoinEnds(ps);
    var last := ps[|ps| - 1];
    assert ps[0][0] != ' ' && last[|last| - 1] != ' ';
  }

  /** Tidy non-empty paragraphs joined by blank lines: nothing to strip, and splitting on blank lines gives them back. */
  lemma JoinTidy(ps: seq<string>)
    requires forall k :: 0 <= k < |ps| ==> ps[k] != [] && Tidy(ps[k])
    ensures var out := Join(ParagraphBreak, ps);
      && Strip(out) == out
      && (out == [] <==> ps == [])
      && (out == [] || (!IsSpace(out[0]) && !IsSpace(out[|out| - 1])))
      && (out != [] ==> SplitOn(out, ParagraphBreak) == ps)
  {
    var out := Join(ParagraphBreak, ps);
    if ps == [] {
      assert out == [];
      UnchangedByStrip(out);
    } else {
      JoinTidyEnds(ps);
      UnchangedByStrip(out);
      forall k | 0 <= k < |ps| ensures Avoids(ps[k], ParagraphBreak) {
        TidyAvoids(ps[k]);
      }
      SplitOnJoin(ps, ParagraphBreak);
    }
  }

  /**
   * The output has no whitespace at either end (the final strip changes
   * nothing), and it is its paragraphs joined by exactly one blank line: each
   * is non-empty, its only whitespace is single inner spaces, and splitting
   * the output on blank lines gives them back.
   */
  lemma CleanTextShape(text: string)
    ensures var out := CleanText(text);
      var ps := Paragraphs(text);
      && out == Join(ParagraphBreak, ps)
      && (out == [] <==> ps == [])
      && (out == [] || (!IsSpace(out[0]) && !IsSpace(out[|out| - 1])))
      && (out != [] ==> SplitOn(out, ParagraphBreak) == ps)
  {
    JoinTidy(Paragraphs(text));
  }
}
