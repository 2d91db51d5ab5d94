/**
 * The section structure of a scraped Wikipedia article: `WikipediaSection`
 * and its `to_dict`, `get_section_level`, the heading filter, and the
 * stack-based builder that turns the flat list of headings into a forest
 * of sections (written twice in the scraper, once per page source).
 */
module WikiSections {
  import opened Python
  import opened Json
  import opened WikiText

  /** `WikipediaSection(title, level, content)` with its `subsections`. */
  datatype Section = Section(title: string, level: int, content: string, subsections: seq<Section>)

  // ---------------------------------------------------------------------
  // to_dict

  /** `section.to_dict()`: a dictionary with the four fields, in this key order. */
  function ToDict(s: Section): Json
    decreases s, 1
  {
    Obj([("title", Str(s.title)), ("level", Num(s.level)), ("content", Str(s.content)),
         ("subsections", Arr(ToDicts(s.subsections)))])
  }

  /** `[s.to_dict() for s in ss]` */
  function ToDicts(ss: seq<Section>): (es: seq<Json>)
    ensures |es| == |ss|
    decreases ss, 0
  {
    if ss == [] then [] else [ToDict(ss[0])] + ToDicts(ss[1..])
  }

  /** Reads a section back from the dictionary form; None for anything `to_dict` does not produce. */
  function FromDict(v: Json): Option<Section>
    decreases v, 1
  {
    match v
    case Obj(items) =>
      if |items| == 4 && items[0].0 == "title" && items[0].1.Str? && items[1].0 == "level" && items[1].1.Num?
         && items[2].0 == "content" && items[2].1.Str? && items[3].0 == "subsections" && items[3].1.Arr?
      then
        assert items[3].1 < items[3];
        match FromDicts(items[3].1.elems)
        case Some(subs) => Some(Section(items[0].1.s, items[1].1.n, items[2].1.s, subs))
        case None => None
      else None
    case _ => None
  }

  function FromDicts(es: seq<Json>): Option<seq<Section>>
    decreases es, 0
  {
    if es == [] then Some([])
    else
      match (FromDict(es[0]), FromDicts(es[1..]))
      case (Some(s), Some(ss)) => Some([s] + ss)
      case _ => None
  }

  /** The dictionary form keeps title, level, content and every subsection, in order and at its depth. */
  lemma {:induction false} DictRoundTrip(s: Section)
    ensures FromDict(ToDict(s)) == Some(s)
    decreases s, 1
  {
    DictsRoundTrip(s.subsections);
  }

  lemma {:induction false} DictsRoundTrip(ss: seq<Section>)
    ensures FromDicts(ToDicts(ss)) == Some(ss)
    decreases ss, 0
  {
    if ss != [] {
      var es := ToDicts(ss);
      assert es[0] == ToDict(ss[0]) && es[1..] == ToDicts(ss[1..]);
      DictRoundTrip(ss[0]);
      DictsRoundTrip(ss[1..]);
      assert [ss[0]] + ss[1..] == ss;
    }
  }

  // ---------------------------------------------------------------------
  // get_section_level

  /** `get_section_level(tag)` on `tag.name`: the digit at `name[1]`, else 0; None where `name[1]` raises IndexError. */
  function SectionLevel(name: string): (r: Option<int>)
    ensures r.Some? <==> |name| >= 2
    ensures r.Some? ==> 0 <= r.value < 10
    ensures r.Some? && IsDigit(name[1]) ==> name[1] == DigitChar(r.value)
    ensures r.Some? && !IsDigit(name[1]) ==> r.value == 0
  {
    if |name| < 2 then None
    else if IsDigit(name[1]) then Some(DigitValue(name[1]))
    else Some(0)
  }

  /** h1 ... h9 give their digit. */
  lemma HeadingTagLevel(d: nat)
    requires 1 <= d < 10
    ensures SectionLevel(['h', DigitChar(d)]) == Some(d)
  {
  }

  // ---------------------------------------------------------------------
  // The heading filter

  /** The headings of reference material, which are not scraped. */
  const SkipKeywords: seq<string> :=
    ["references", "external links", "see also", "notes", "further reading", "bibliography", "footnotes"]

  /** `any(x in heading.lower() for x in SkipKeywords)` */
  predicate IsSkipped(heading: string) {
    exists k :: 0 <= k < |SkipKeywords| && Contains(Lower(heading), SkipKeywords[k])
  }

  /** No character that `Lower` changes. */
  predicate NoUpper(s: string) {
    forall i :: 0 <= i < |s| ==> !('A' <= s[i] <= 'Z') && s[i] != '\U{130}' && s[i] != '\U{212A}'
  }

  lemma {:induction false} LowerAppend(a: string, b: string)
    ensures Lower(a + b) == Lower(a) + Lower(b)
    decreases |a|
  {
    if a != [] {
      assert (a + b)[0] == a[0] && (a + b)[1..] == a[1..] + b;
      LowerAppend(a[1..], b);
    } else {
      assert a + b == b;
    }
  }

  lemma {:induction false} LowerFixed(s: string)
    requires NoUpper(s)
    ensures Lower(s) == s
    decreases |s|
  {
    if s != [] {
      LowerFixed(s[1..]);
    }
  }

  lemma {:induction false} LowerNoUpper(s: string)
    ensures NoUpper(Lower(s))
    decreases |s|
  {
    if s != [] {
      LowerNoUpper(s[1..]);
      var c := LowerChar(s[0]);
      assert NoUpper(c);
      assert Lower(s) == c + Lower(s[1..]);
    }
  }

  /** Lower-casing twice is lower-casing once, so the filter ignores case. */
  lemma SkipIgnoresCase(heading: string)
    ensures IsSkipped(Lower(heading)) <==> IsSkipped(heading)
  {
    LowerNoUpper(heading);
    LowerFixed(Lower(heading));
  }

  /** A heading that contains a skipped heading is skipped. */
  lemma SkipWithin(a: string, heading: string, b: string)
    requires IsSkipped(heading)
    ensures IsSkipped(a + heading + b)
  {
    var k :| 0 <= k < |SkipKeywords| && Contains(Lower(heading), SkipKeywords[k]);
    LowerAppend(a + heading, b);
    LowerAppend(a, heading);
    ContainsWithin(Lower(a), Lower(heading), Lower(b), SkipKeywords[k]);
    assert Lower(a + heading + b) == Lower(a) + Lower(heading) + Lower(b);
  }

  /** The keywords are written in lower case. */
  lemma KeywordNoUpper(k: nat)
    requires k < |SkipKeywords|
    ensures NoUpper(SkipKeywords[k])
  {
    var w := SkipKeywords[k];
    forall i | 0 <= i < |w| ensures 'a' <= w[i] <= 'z' || w[i] == ' ' {
      if k == 0 { assert w == "references"; }
      else if k == 1 { assert w == "external links"; }
      else if k == 2 { assert w == "see also"; }
      else if k == 3 { assert w == "notes"; }
      else if k == 4 { assert w == "further reading"; }
      else if k == 5 { assert w == "bibliography"; }
      else { assert w == "footnotes"; }
    }
  }

  /** In particular, a heading containing a keyword in any case is skipped. */
  lemma KeywordSkipped(k: nat, a: string, b: string)
    requires k < |SkipKeywords|
    ensures IsSkipped(a + SkipKeywords[k] + b)
  {
    var w := SkipKeywords[k];
    KeywordNoUpper(k);
    LowerFixed(w);
    assert OccursAt(w, w, 0);
    ContainsSpec(w, w);
    assert IsSkipped(w);
    SkipWithin(a, w, b);
  }

  // ---------------------------------------------------------------------
  // The kept sections

  /**
   * One heading of the page: the heading's text (tested by the filter), the
   * title and level the section gets, and its joined content parts before
   * cleaning — None when the page source reported an error for it.
   */
  datatype Heading = Heading(text: string, title: string, level: int, body: Option<string>)

  /**
   * A heading after the filter and the content fetch: its title and level,
   * and its cleaned content — None when the filter skipped the heading or
   * the page source reported an error for it.
   */
  datatype Candidate = Candidate(title: string, level: int, content: Option<string>)

  function Fetched(h: Heading): Candidate {
    Candidate(h.title, h.level, if !IsSkipped(h.text) && h.body.Some? then Some(CleanText(h.body.value)) else None)
  }

  /** The candidates of the headings, in page order. */
  function Candidates(hs: seq<Heading>): seq<Candidate> {
    seq(|hs|, i requires 0 <= i < |hs| => Fetched(hs[i]))
  }

  /** A section is made for a candidate whose cleaned content is not blank. */
  predicate Keep(c: Candidate) {
    c.content.Some? && Strip(c.content.value) != []
  }

  /** The new section for a kept candidate, without subsections yet. */
  function Leaf(c: Candidate): (s: Section)
    requires c.content.Some?
    ensures s.subsections == []
  {
    Section(c.title, c.level, c.content.value, [])
  }

  /** The sections made, in page order. */
  function KeptSections(cs: seq<Candidate>): (ls: seq<Section>)
    ensures forall k :: 0 <= k < |ls| ==> ls[k].subsections == [] && ls[k].content != []
    decreases |cs|
  {
    if cs == [] then []
    else
      var c := cs[|cs| - 1];
      var init := KeptSections(cs[..|cs| - 1]);
      if Keep(c) then
        KeptLeaf(c);
        init + [Leaf(c)]
      else init
  }

  /** A kept candidate's section has content. */
  lemma KeptLeaf(c: Candidate)
    requires Keep(c)
    ensures Leaf(c).content != []
  {
    StripSpec(c.content.value);
  }

  // ---------------------------------------------------------------------
  // Reference definition of the hierarchy

  /**
   * `x` joins the forest at the deepest node of its last branch whose level
   * is below `x.level`, as that node's last child, or as a new last root when
   * the last root's level is not below it.
   */
  function Insert(f: seq<Section>, x: Section): (r: seq<Section>)
    ensures |r| >= 1
  {
    if f != [] && f[|f| - 1].level < x.level then f[..|f| - 1] + [InsertInto(f[|f| - 1], x)]
    else f + [x]
  }

  function InsertInto(n: Section, x: Section): (r: Section)
    ensures r.title == n.title && r.level == n.level && r.content == n.content
    decreases n
  {
    var cs := n.subsections;
    if cs != [] && cs[|cs| - 1].level < x.level then
      n.(subsections := cs[..|cs| - 1] + [InsertInto(cs[|cs| - 1], x)])
    else n.(subsections := cs + [x])
  }

  /** The sections inserted one after another, in page order. */
  function Tree(ls: seq<Section>): seq<Section>
    decreases |ls|
  {
    if ls == [] then [] else Insert(Tree(ls[..|ls| - 1]), ls[|ls| - 1])
  }

  /** A section without its subsections. */
  function Flat(s: Section): Section {
    s.(subsections := [])
  }

  /** Pre-order walk: a section, then its subsections' walks in order. */
  function PreNode(s: Section): seq<Section>
    decreases s, 1
  {
    [Flat(s)] + PreForest(s.subsections)
  }

  function PreForest(f: seq<Section>): seq<Section>
    decreases f, 0
  {
    if f == [] then [] else PreNode(f[0]) + PreForest(f[1..])
  }

  lemma {:induction false} PreForestSnoc(f: seq<Section>, x: Section)
    ensures PreForest(f + [x]) == PreForest(f) + PreNode(x)
    decreases |f|
  {
    if f == [] {
      assert [x][1..] == [];
    } else {
      assert (f + [x])[0] == f[0] && (f + [x])[1..] == f[1..] + [x];
      PreForestSnoc(f[1..], x);
      AppendAssoc(PreNode(f[0]), PreForest(f[1..]), PreNode(x));
    }
  }

  lemma {:induction false} InsertIntoPre(n: Section, x: Section)
    requires x.subsections == []
    ensures PreNode(InsertInto(n, x)) == PreNode(n) + [x]
    decreases n
  {
    var cs := n.subsections;
    assert PreNode(x) == [x] by { assert Flat(x) == x; }
    if cs != [] && cs[|cs| - 1].level < x.level {
      var g := cs[..|cs| - 1];
      var l := cs[|cs| - 1];
      assert cs == g + [l];
      InsertIntoPre(l, x);
      PreForestSnoc(g, InsertInto(l, x));
      PreForestSnoc(g, l);
      AppendAssoc(PreForest(g), PreNode(l), [x]);
    } else {
      PreForestSnoc(cs, x);
    }
  }

  lemma InsertPre(f: seq<Section>, x: Section)
    requires x.subsections == []
    ensures PreForest(Insert(f, x)) == PreForest(f) + [x]
  {
    assert PreNode(x) == [x] by { assert Flat(x) == x; }
    if f != [] && f[|f| - 1].level < x.level {
      var g := f[..|f| - 1];
      var l := f[|f| - 1];
      assert f == g + [l];
      InsertIntoPre(l, x);
      PreForestSnoc(g, InsertInto(l, x));
      PreForestSnoc(g, l);
      AppendAssoc(PreForest(g), PreNode(l), [x]);
    } else {
      PreForestSnoc(f, x);
    }
  }

  /** A pre-order walk of the forest lists the kept sections in page order. */
  lemma {:induction false} TreePreorder(ls: seq<Section>)
    requires forall k :: 0 <= k < |ls| ==> ls[k].subsections == []
    ensures PreForest(Tree(ls)) == ls
    decreases |ls|
  {
    if ls != [] {
      var init := ls[..|ls| - 1];
      TreePreorder(init);
      InsertPre(Tree(init), ls[|ls| - 1]);
      assert init + [ls[|ls| - 1]] == ls;
    }
  }

  /** Every subsection has a strictly greater level than its parent, all the way down. */
  ghost predicate Nested(s: Section)
    decreases s
  {
    forall i :: 0 <= i < |s.subsections| ==> s.subsections[i].level > s.level && Nested(s.subsections[i])
  }

  lemma {:induction false} InsertIntoNested(n: Section, x: Section)
    requires Nested(n) && n.level < x.level && x.subsections == []
    ensures Nested(InsertInto(n, x))
    decreases n
  {
    var cs := n.subsections;
    if cs != [] && cs[|cs| - 1].level < x.level {
      InsertIntoNested(cs[|cs| - 1], x);
    }
  }

  lemma {:induction false} TreeNested(ls: seq<Section>)
    requires forall k :: 0 <= k < |ls| ==> ls[k].subsections == []
    ensures forall i :: 0 <= i < |Tree(ls)| ==> Nested(Tree(ls)[i])
    decreases |ls|
  {
    if ls != [] {
      TreeNested(ls[..|ls| - 1]);
      InsertNested(Tree(ls[..|ls| - 1]), ls[|ls| - 1]);
    }
  }

  lemma InsertNested(f: seq<Section>, x: Section)
    requires forall i :: 0 <= i < |f| ==> Nested(f[i])
    requires x.subsections == []
    ensures forall i :: 0 <= i < |Insert(f, x)| ==> Nested(Insert(f, x)[i])
  {
    var r := Insert(f, x);
    assert Nested(x);
    if f != [] && f[|f| - 1].level < x.level {
      InsertIntoNested(f[|f| - 1], x);
      assert forall i :: 0 <= i < |f| - 1 ==> r[i] == f[i];
    } else {
      assert forall i :: 0 <= i < |f| ==> r[i] == f[i];
    }
  }

  // ---------------------------------------------------------------------
  // The stack-based builder

  /**
   * The builder's state as values: `roots` are the finished top-level
   * sections and `stack` the open path from the current top-level section
   * down to the last section made. Each stack entry holds the subsections
   * already closed; its open last child is the entry above it. `Close`
   * attaches the path, `View` is the forest the state stands for.
   */
  function Close(stack: seq<Section>): (s: Section)
    requires stack != []
    ensures s.level == stack[0].level
    decreases |stack|
  {
    if |stack| == 1 then stack[0] else Adopt(stack[0], Close(stack[1..]))
  }

  function Adopt(n: Section, c: Section): Section {
    n.(subsections := n.subsections + [c])
  }

  function View(roots: seq<Section>, stack: seq<Section>): seq<Section> {
    if stack == [] then roots else roots + [Close(stack)]
  }

  ghost predicate Increasing(stack: seq<Section>) {
    forall i, j :: 0 <= i < j < |stack| ==> stack[i].level < stack[j].level
  }

  /** Popping the top of the path and filing it under the entry below leaves the forest as it was. */
  lemma {:induction false} ClosePop(stack: seq<Section>)
    requires |stack| >= 2
    ensures Close(stack) == Close(stack[..|stack| - 2] + [Adopt(stack[|stack| - 2], stack[|stack| - 1])])
    decreases |stack|
  {
    var popped := stack[..|stack| - 2] + [Adopt(stack[|stack| - 2], stack[|stack| - 1])];
    if |stack| == 2 {
      assert stack[1..] == [stack[1]];
    } else {
      ClosePop(stack[1..]);
      assert popped[0] == stack[0];
      assert popped[1..] == stack[1..][..|stack[1..]| - 2] + [Adopt(stack[1..][|stack[1..]| - 2], stack[1..][|stack[1..]| - 1])];
    }
  }

  /** Pushing `x` on a path whose levels are all below it is inserting `x` into the closed path. */
  lemma {:induction false} CloseInsert(stack: seq<Section>, x: Section)
    requires stack != [] && Increasing(stack)
    requires forall i :: 0 <= i < |stack| ==> stack[i].level < x.level
    requires var top := stack[|stack| - 1].subsections; top == [] || top[|top| - 1].level >= x.level
    ensures InsertInto(Close(stack), x) == Close(stack + [x])
    decreases |stack|
  {
    if |stack| == 1 {
      assert (stack + [x])[1..] == [x];
    } else {
      var rest := stack[1..];
      CloseInsert(rest, x);
      assert (stack + [x])[1..] == rest + [x];
      var cs := stack[0].subsections + [Close(rest)];
      assert cs[..|cs| - 1] == stack[0].subsections;
    }
  }

  /** What holds between headings: the path's levels increase, its last section has no subsections yet, and there are no finished roots without an open one. */
  ghost predicate Building(roots: seq<Section>, stack: seq<Section>) {
    && Increasing(stack)
    && (stack != [] ==> stack[|stack| - 1].subsections == [])
    && (stack == [] ==> roots == [])
  }

  /** What the pops keep while making room for a section of level `level`. */
  ghost predicate Popping(roots: seq<Section>, stack: seq<Section>, level: int) {
    && Increasing(stack)
    && (stack != [] ==> var top := stack[|stack| - 1].subsections; top == [] || top[|top| - 1].level >= level)
    && (stack == [] ==> roots == [] || roots[|roots| - 1].level >= level)
  }

  /** One pop of an entry whose level is not below `level` leaves the forest as it was. */
  lemma PopKeeps(roots: seq<Section>, stack: seq<Section>, level: int)
    requires Popping(roots, stack, level) && stack != [] && stack[|stack| - 1].level >= level
    ensures |stack| >= 2 ==>
      var popped := stack[..|stack| - 2] + [Adopt(stack[|stack| - 2], stack[|stack| - 1])];
      Popping(roots, popped, level) && View(roots, popped) == View(roots, stack)
    ensures |stack| == 1 ==> Popping(roots + [stack[0]], [], level) && View(roots + [stack[0]], []) == View(roots, stack)
  {
    if |stack| >= 2 {
      ClosePop(stack);
    }
  }

  /** Once no open entry has a level at or above `x.level`, pushing `x` inserts it into the forest. */
  lemma PushInsert(roots: seq<Section>, stack: seq<Section>, x: Section)
    requires Popping(roots, stack, x.level) && x.subsections == []
    requires stack == [] || stack[|stack| - 1].level < x.level
    ensures Insert(View(roots, stack), x) == View(roots, stack + [x])
    ensures Increasing(stack + [x])
  {
    if stack == [] {
      assert Close([x]) == x;
    } else {
      assert forall i :: 0 <= i < |stack| ==> stack[i].level < x.level by {
        forall i | 0 <= i < |stack| ensures stack[i].level < x.level {
          if i < |stack| - 1 {
            assert stack[i].level < stack[|stack| - 1].level;
          }
        }
      }
      CloseInsert(stack, x);
      var f := roots + [Close(stack)];
      assert f[..|f| - 1] == roots;
    }
  }

  lemma KeptStep(cs: seq<Candidate>, e: nat)
    requires e < |cs|
    ensures KeptSections(cs[..e + 1]) == KeptSections(cs[..e]) + if Keep(cs[e]) then [Leaf(cs[e])] else []
  {
    assert cs[..e + 1][..e] == cs[..e];
  }

  lemma TreeSnoc(ls: seq<Section>, x: Section)
    ensures Tree(ls + [x]) == Insert(Tree(ls), x)
  {
    assert (ls + [x])[..|ls|] == ls;
  }

  /**
   * One new section of the hierarchy loop: pop every open section whose
   * level is not below the new one's, then make it the open last child of
   * the top entry (or a new top-level section) and push it.
   */
  method Push(roots0: seq<Section>, stack0: seq<Section>, newSection: Section) returns (roots: seq<Section>, stack: seq<Section>)
    requires Building(roots0, stack0) && newSection.subsections == []
    ensures View(roots, stack) == Insert(View(roots0, stack0), newSection)
    ensures Building(roots, stack) && stack != [] && stack[|stack| - 1] == newSection
  {
    roots, stack := roots0, stack0;
    var level := newSection.level;
    while stack != [] && stack[|stack| - 1].level >= level
      invariant View(roots, stack) == View(roots0, stack0)
      invariant Popping(roots, stack, level)
      decreases |stack|
    {
      PopKeeps(roots, stack, level);
      var top := stack[|stack| - 1];
      if |stack| >= 2 {
        stack := stack[..|stack| - 2] + [Adopt(stack[|stack| - 2], top)];
      } else {
        roots := roots + [top];
        stack := [];
      }
    }
    PushInsert(roots, stack, newSection);
    stack := stack + [newSection];
  }

  /**
   * The hierarchy loop (scraper.py, both page sources): filtered headings,
   * headings whose content could not be fetched and headings with blank
   * cleaned content make no section; every other heading makes one, placed
   * by Push.
   */
  method BuildSections(headings: seq<Heading>) returns (sections: seq<Section>)
    ensures sections == Tree(KeptSections(Candidates(headings)))
  {
    ghost var cs := Candidates(headings);
    var roots: seq<Section> := [];
    var stack: seq<Section> := [];
    for e := 0 to |headings|
      invariant View(roots, stack) == Tree(KeptSections(cs[..e]))
      invariant Building(roots, stack)
    {
      var heading := headings[e];
      KeptStep(cs, e);
      ghost var done := KeptSections(cs[..e]);
      assert cs[e] == Fetched(heading);
      if !IsSkipped(heading.text) && heading.body.Some? {
        var content := CleanText(heading.body.value);
        if Strip(content) != [] {
          var newSection := Section(heading.title, heading.level, content, []);
          assert KeptSections(cs[..e + 1]) == done + [newSection];
          TreeSnoc(done, newSection);
          roots, stack := Push(roots, stack, newSection);
        } else {
          assert KeptSections(cs[..e + 1]) == done;
        }
      } else {
        assert KeptSections(cs[..e + 1]) == done;
      }
    }
    assert cs[..|headings|] == cs;
    sections := View(roots, stack);
  }

  /** The built forest lists the kept sections in page order, and every subsection's level is above its parent's. */
  lemma BuiltForest(headings: seq<Heading>)
    ensures var ls := KeptSections(Candidates(headings)); PreForest(Tree(ls)) == ls
    ensures var f := Tree(KeptSections(Candidates(headings))); forall i :: 0 <= i < |f| ==> Nested(f[i])
  {
    TreePreorder(KeptSections(Candidates(headings)));
    TreeNested(KeptSections(Candidates(headings)));
  }
}
