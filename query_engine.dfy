/**
 * `QueryEngine.search` after the index lookup: the hits FAISS returns (a
 * score and a metadata position each, given here as two parallel lists) are
 * turned into result dictionaries, skipping positions the guard
 * `idx < len(self.metadata)` rejects. Also the classification of one line of
 * input in `interactive_mode`.
 */
module Query {
  import opened Python
  import opened Json
  import opened Store

  /** The exceptions result assembly can raise. */
  datatype PyError = IndexError | KeyError(key: string) | TypeError

  datatype Result<T> = Ok(value: T) | Err(error: PyError)

  /** One hit of the index search. */
  datatype Hit = Hit(score: real, idx: int)

  /** One result dictionary. */
  datatype SearchResult = SearchResult(rank: int, score: real, metadata: Record, text: Json, textChunk: string)

  /** `zip(scores[0], indices[0])`: as many hits as the shorter list. */
  function Zip(scores: seq<real>, indices: seq<int>): (hits: seq<Hit>)
    ensures |hits| == Min(|scores|, |indices|)
    ensures forall p :: 0 <= p < |hits| ==> hits[p] == Hit(scores[p], indices[p])
  {
    seq(Min(|scores|, |indices|), p requires 0 <= p < Min(|scores|, |indices|) => Hit(scores[p], indices[p]))
  }

  /** `xs[i]` on a Python list: a negative index counts from the end, anything else outside the list raises IndexError. */
  function PyIndex<T>(xs: seq<T>, i: int): (r: Option<T>)
    ensures r.Some? <==> -|xs| <= i < |xs|
  {
    if 0 <= i < |xs| then Some(xs[i])
    else if -|xs| <= i < 0 then Some(xs[|xs| + i])
    else None
  }

  /** `r[key]` */
  function Lookup(r: Record, key: string): Result<Json> {
    if key in r then Ok(r[key]) else Err(KeyError(key))
  }

  /** `v + 1` for a JSON value: integers and booleans add, anything else raises TypeError. */
  function PlusOne(v: Json): Result<int> {
    match v
    case Num(n) => Ok(n + 1)
    case Bool(b) => Ok(if b then 2 else 1)
    case _ => Err(TypeError)
  }

  /** `r.get('text', 'Text not available')` */
  function GetText(r: Record): Json {
    if "text" in r then r["text"] else Str("Text not available")
  }

  /** The `text_chunk` f-string, evaluated left to right, so the first missing key or bad operand raises. */
  function TextChunk(r: Record): Result<string> {
    var id := Lookup(r, "chunk_id");
    if id.Err? then Err(id.error)
    else
      var next := PlusOne(id.value);
      if next.Err? then Err(next.error)
      else
        var total := Lookup(r, "total_chunks");
        if total.Err? then Err(total.error)
        else
          var url := Lookup(r, "url");
          if url.Err? then Err(url.error)
          else Ok("Chunk " + IntToString(next.value) + " of " + Display(total.value) + " from " + Display(url.value))
  }

  /**
   * The guard on a hit's position: `idx < len(self.metadata)` as written,
   * or, when `checked`, also `0 <= idx` (see NegativeIdReadsLast).
   */
  predicate Passes(md: seq<Record>, idx: int, checked: bool) {
    idx < |md| && (checked ==> 0 <= idx)
  }

  /** The result dictionary for the hit at position `pos` of the hit list. */
  function Render(md: seq<Record>, pos: nat, h: Hit): Result<SearchResult> {
    match PyIndex(md, h.idx)
    case None => Err(IndexError)
    case Some(r) =>
      match TextChunk(r)
      case Err(e) => Err(e)
      case Ok(tc) => Ok(SearchResult(pos + 1, h.score, r, GetText(r), tc))
  }

  /** The results of the loop over `hits`; the first exception ends the search. */
  function Assemble(md: seq<Record>, hits: seq<Hit>, checked: bool): Result<seq<SearchResult>> {
    if hits == [] then Ok([])
    else
      var n := |hits| - 1;
      match Assemble(md, hits[..n], checked)
      case Err(e) => Err(e)
      case Ok(rs) =>
        if Passes(md, hits[n].idx, checked) then
          match Render(md, n, hits[n])
          case Err(e) => Err(e)
          case Ok(x) => Ok(rs + [x])
        else Ok(rs)
  }

  // ---------------------------------------------------------------------
  // Which hits are kept

  /** The positions of the hits the guard lets through, in order. */
  function Kept(md: seq<Record>, hits: seq<Hit>, checked: bool): (ps: seq<nat>)
    ensures forall k :: 0 <= k < |ps| ==> ps[k] < |hits| && Passes(md, hits[ps[k]].idx, checked)
    ensures forall j, k :: 0 <= j < k < |ps| ==> ps[j] < ps[k]
    ensures forall p :: 0 <= p < |hits| && Passes(md, hits[p].idx, checked) ==> p in ps
  {
    if hits == [] then []
    else
      var n := |hits| - 1;
      var prev := Kept(md, hits[..n], checked);
      if Passes(md, hits[n].idx, checked) then prev + [n] else prev
  }

  /** The lookups of a kept hit succeed: its position resolves and the `text_chunk` string can be formed. */
  ghost predicate Renders(md: seq<Record>, h: Hit) {
    match PyIndex(md, h.idx)
    case None => false
    case Some(r) => TextChunk(r).Ok?
  }

  /**
   * `x` is the result for the hit at position `p`: its rank is the hit's
   * position in the full hit list plus one, its score is the hit's score,
   * its metadata is the record at the hit's position (Python indexing), and
   * its text and `text_chunk` are taken from that record.
   */
  ghost predicate ResultFor(md: seq<Record>, hits: seq<Hit>, p: nat, x: SearchResult)
    requires p < |hits|
  {
    && x.rank == p + 1
    && x.score == hits[p].score
    && PyIndex(md, hits[p].idx) == Some(x.metadata)
    && x.text == GetText(x.metadata)
    && TextChunk(x.metadata) == Ok(x.textChunk)
  }

  /** When the search succeeds, there is one result per kept hit, in hit order, each the result for its hit. */
  lemma {:induction false} AssembleKept(md: seq<Record>, hits: seq<Hit>, checked: bool)
    requires Assemble(md, hits, checked).Ok?
    ensures var rs := Assemble(md, hits, checked).value;
      var ps := Kept(md, hits, checked);
      && |rs| == |ps|
      && forall k :: 0 <= k < |rs| ==> ResultFor(md, hits, ps[k], rs[k])
    decreases |hits|
  {
    if hits != [] {
      var n := |hits| - 1;
      var pre := hits[..n];
      AssembleKept(md, pre, checked);
      var rs0 := Assemble(md, pre, checked).value;
      var ps0 := Kept(md, pre, checked);
      var rs := Assemble(md, hits, checked).value;
      var ps := Kept(md, hits, checked);
      forall k | 0 <= k < |ps0| ensures ResultFor(md, hits, ps0[k], rs0[k]) {
        assert ResultFor(md, pre, ps0[k], rs0[k]);
        assert pre[ps0[k]] == hits[ps0[k]];
      }
      if Passes(md, hits[n].idx, checked) {
        var x := Render(md, n, hits[n]).value;
        assert rs == rs0 + [x];
        assert ps == ps0 + [n];
        assert ResultFor(md, hits, n, x);
      } else {
        assert rs == rs0 && ps == ps0;
      }
    }
  }

  /** An exception ends the loop: once the results of a prefix of the hits raise, the whole search raises the same. */
  lemma {:induction false} ErrorStops(md: seq<Record>, hits: seq<Hit>, i: nat, checked: bool)
    requires i <= |hits| && Assemble(md, hits[..i], checked).Err?
    ensures Assemble(md, hits, checked) == Assemble(md, hits[..i], checked)
    decreases |hits| - i
  {
    if i < |hits| {
      assert hits[..i + 1][..i] == hits[..i];
      ErrorStops(md, hits, i + 1, checked);
    } else {
      assert hits[..i] == hits;
    }
  }

  /** Ranks start at 1, never exceed the number of hits, and strictly increase (with gaps where hits were skipped). */
  lemma RanksIncrease(md: seq<Record>, hits: seq<Hit>, checked: bool)
    requires Assemble(md, hits, checked).Ok?
    ensures var rs := Assemble(md, hits, checked).value;
      && (forall k :: 0 <= k < |rs| ==> 1 <= rs[k].rank <= |hits|)
      && (forall j, k :: 0 <= j < k < |rs| ==> rs[j].rank < rs[k].rank)
  {
    AssembleKept(md, hits, checked);
  }

  /** The search raises exactly when some kept hit does not render. */
  lemma {:induction false} AssembleOkIff(md: seq<Record>, hits: seq<Hit>, checked: bool)
    ensures Assemble(md, hits, checked).Ok?
        <==> forall p :: 0 <= p < |hits| && Passes(md, hits[p].idx, checked) ==> Renders(md, hits[p])
    decreases |hits|
  {
    if hits != [] {
      var n := |hits| - 1;
      AssembleOkIff(md, hits[..n], checked);
      assert forall p :: 0 <= p < n ==> hits[..n][p] == hits[p];
    }
  }

  /** A record as the store writes it: its `text` is a string that it describes. */
  ghost predicate StoreRecord(r: Record) {
    "text" in r && r["text"].Str? && Describes(r, r["text"].s)
  }

  /**
   * A record the store wrote renders as the f-string of its fields: the
   * 1-based chunk position, the chunk count and the URL; the result text is
   * the stored chunk.
   */
  lemma StoreRecordRenders(r: Record)
    requires StoreRecord(r)
    ensures GetText(r) == r["text"]
    ensures TextChunk(r) == Ok("Chunk " + IntToString(r["chunk_id"].n + 1) + " of " + IntToString(r["total_chunks"].n)
                               + " from " + Display(r["url"]))
  {
  }

  /**
   * FAISS pads its answer with position -1 when the index holds fewer
   * vectors than were asked for. The guard as written lets -1 through: with
   * records present, Python's `metadata[-1]` yields the last record as an
   * extra result; with none, the search raises IndexError.
   */
  lemma NegativeIdReadsLast(md: seq<Record>, score: real)
    ensures Passes(md, -1, false)
    ensures md == [] ==> Assemble(md, [Hit(score, -1)], false) == Err(IndexError)
    ensures md != [] && TextChunk(md[|md| - 1]).Ok? ==>
      var last := md[|md| - 1];
      Assemble(md, [Hit(score, -1)], false) == Ok([SearchResult(1, score, last, GetText(last), TextChunk(last).value)])
  {
    var h := Hit(score, -1);
    assert [h][..0] == [];
    if md != [] && TextChunk(md[|md| - 1]).Ok? {
      var last := md[|md| - 1];
      assert PyIndex(md, -1) == Some(last);
      var x := SearchResult(1, score, last, GetText(last), TextChunk(last).value);
      assert Render(md, 0, h) == Ok(x);
      assert Assemble(md, [h][..0], false) == Ok([]);
      assert [] + [x] == [x];
    }
  }

  /**
   * With the guard also requiring `0 <= idx`, a search over records the store
   * wrote never raises, and every result is the record at its hit's own,
   * non-negative position.
   */
  lemma CheckedNeverFails(md: seq<Record>, hits: seq<Hit>)
    requires forall j :: 0 <= j < |md| ==> StoreRecord(md[j])
    ensures Assemble(md, hits, true).Ok?
    ensures var rs := Assemble(md, hits, true).value;
      var ps := Kept(md, hits, true);
      |rs| == |ps| && forall k :: 0 <= k < |rs| ==> 0 <= hits[ps[k]].idx < |md| && rs[k].metadata == md[hits[ps[k]].idx]
  {
    forall p | 0 <= p < |hits| && Passes(md, hits[p].idx, true) ensures Renders(md, hits[p]) {
      StoreRecordRenders(md[hits[p].idx]);
    }
    AssembleOkIff(md, hits, true);
    AssembleKept(md, hits, true);
  }

  // ---------------------------------------------------------------------
  // The engine

  /** The query engine's state: whether an index is loaded, and the metadata loaded with it. */
  class QueryEngine {
    var loaded: bool
    var metadata: seq<Record>

    /** No index is loaded yet; the embedding model is not modelled. */
    constructor()
      ensures !loaded && metadata == []
    {
      loaded := false;
      metadata := [];
    }

    /** A successful `load_index`: the records read from the metadata file become the engine's, with no check against the index size. */
    method LoadIndex(records: seq<Record>)
      modifies this
      ensures loaded && metadata == records
    {
      loaded := true;
      metadata := records;
    }

    /**
     * `search` given the index's answer: no results without an index,
     * otherwise the loop over the zipped hits.
     */
    method Search(scores: seq<real>, indices: seq<int>) returns (r: Result<seq<SearchResult>>)
      ensures r == if !loaded then Ok([]) else Assemble(metadata, Zip(scores, indices), false)
    {
      if !loaded {
        return Ok([]);
      }
      ghost var hits := Zip(scores, indices);
      var results: seq<SearchResult> := [];
      for i := 0 to Min(|scores|, |indices|)
        invariant Assemble(metadata, hits[..i], false) == Ok(results)
      {
        var score := scores[i];
        var idx := indices[i];
        assert hits[..i + 1][..i] == hits[..i] && hits[..i + 1][i] == Hit(score, idx);
        if idx < |metadata| {
          var res := Render(metadata, i, Hit(score, idx));
          if res.Err? {
            ErrorStops(metadata, hits, i + 1, false);
            return Err(res.error);
          }
          results := results + [res.value];
        }
      }
      assert hits[..|hits|] == hits;
      return Ok(results);
    }
  }

  // ---------------------------------------------------------------------
  // Interactive mode

  /** What the interactive loop does with one input line. */
  datatype Command = Quit | Skip | Ask(query: string)

  /** The stripped line: `quit`, `exit` or `q` in any case stops, an empty line is skipped, anything else is searched. */
  function Classify(line: string): (c: Command)
    ensures c == Quit <==> Lower(Strip(line)) in ["quit", "exit", "q"]
    ensures c == Skip <==> Strip(line) == []
    ensures c.Ask? ==> c.query == Strip(line)
  {
    var query := Strip(line);
    if Lower(query) in ["quit", "exit", "q"] then Quit
    else if query == [] then Skip
    else Ask(query)
  }

  /** A line that is searched is searched as its stripped text, and that text alone would be searched the same way. */
  lemma AskAgain(line: string)
    requires Classify(line).Ask?
    ensures Classify(Classify(line).query) == Classify(line)
  {
    StripSpec(line);
  }
}
