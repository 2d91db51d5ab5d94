/**
 * `VectorStore.process_data`: every document's text fields are collected,
 * each text is chunked, and every chunk is appended to the store's `texts`
 * together with a metadata record (source URL, chunk position, chunk count,
 * text length and the text itself).
 *
 * Embeddings, the FAISS index and persistence are not part of this model;
 * the store is its two parallel lists.
 */
module Store {
  import opened Python
  import opened Json
  import opened Chunker
  import opened TextCollector

  /** A metadata dictionary. */
  type Record = map<string, Json>

  /** The keys every record has. */
  const RecordKeys: set<string> := {"url", "chunk_id", "total_chunks", "text_length", "text"}

  /** `doc.get('url') or doc.get('source_url') or 'Unknown URL'`: always a truthy value. */
  function SourceUrl(items: seq<(string, Json)>): (url: Json)
    ensures Truthy(url)
    ensures Truthy(Get(items, "url")) ==> url == Get(items, "url")
    ensures !Truthy(Get(items, "url")) && Truthy(Get(items, "source_url")) ==> url == Get(items, "source_url")
    ensures !Truthy(Get(items, "url")) && !Truthy(Get(items, "source_url")) ==> url == Str("Unknown URL")
  {
    var u := Get(items, "url");
    if Truthy(u) then u
    else
      var s := Get(items, "source_url");
      if Truthy(s) then s else Str("Unknown URL")
  }

  /** The record of chunk `i` of `n` chunks of one text. */
  function MakeRecord(url: Json, i: nat, n: nat, chunk: string): Record {
    map["url" := url, "chunk_id" := Num(i), "total_chunks" := Num(n),
        "text_length" := Num(|chunk|), "text" := Str(chunk)]
  }

  /**
   * A record describing the stored `text`: it has exactly the five keys, a
   * truthy URL, a chunk position below the chunk count, and the text and its
   * length.
   */
  ghost predicate Describes(r: Record, text: string) {
    && r.Keys == RecordKeys
    && Truthy(r["url"])
    && r["chunk_id"].Num? && r["total_chunks"].Num?
    && 0 <= r["chunk_id"].n < r["total_chunks"].n
    && r["text_length"] == Num(|text|)
    && r["text"] == Str(text)
  }

  /** Texts and records side by side: as many of each, and every record describes the text at its position. */
  ghost predicate Parallel(ts: seq<string>, rs: seq<Record>) {
    |ts| == |rs| && forall k :: 0 <= k < |ts| ==> Describes(rs[k], ts[k])
  }

  lemma ParallelAppend(ts: seq<string>, rs: seq<Record>, ts': seq<string>, rs': seq<Record>)
    requires Parallel(ts, rs) && Parallel(ts', rs')
    ensures Parallel(ts + ts', rs + rs')
  {
    forall k | 0 <= k < |ts + ts'| ensures Describes((rs + rs')[k], (ts + ts')[k]) {
      if k >= |ts| {
        assert (rs + rs')[k] == rs'[k - |ts|] && (ts + ts')[k] == ts'[k - |ts|];
      }
    }
  }

  /** `chunk_text(raw_text, chunk_size)` with the default overlap of two sentences. */
  function ChunksOf(raw: string, tokenize: string -> seq<string>, size: int): seq<string> {
    if raw == "" then [] else Chunks(tokenize(raw), size, DefaultOverlap)
  }

  /** The records of the chunks of one text, numbered from 0. */
  function RecordsFor(url: Json, chunks: seq<string>): (rs: seq<Record>)
    requires Truthy(url)
    ensures |rs| == |chunks|
    ensures forall k :: 0 <= k < |rs| ==>
      Describes(rs[k], chunks[k]) && rs[k]["url"] == url && rs[k]["chunk_id"] == Num(k) && rs[k]["total_chunks"] == Num(|chunks|)
  {
    seq(|chunks|, k requires 0 <= k < |chunks| => MakeRecord(url, k, |chunks|, chunks[k]))
  }

  lemma RecordsForSnoc(url: Json, chunks: seq<string>, i: nat)
    requires Truthy(url) && i < |chunks|
    ensures RecordsFor(url, chunks)[..i + 1] == RecordsFor(url, chunks)[..i] + [MakeRecord(url, i, |chunks|, chunks[i])]
    ensures chunks[..i + 1] == chunks[..i] + [chunks[i]]
  {
    var rs := RecordsFor(url, chunks);
    assert rs[i] == MakeRecord(url, i, |chunks|, chunks[i]);
    PrefixSnoc(rs, i);
    PrefixSnoc(chunks, i);
  }

  /** The texts appended for the collected texts `raws` of one document. */
  function RawsTexts(raws: seq<string>, tokenize: string -> seq<string>, size: int): seq<string> {
    if raws == [] then []
    else RawsTexts(raws[..|raws| - 1], tokenize, size) + ChunksOf(raws[|raws| - 1], tokenize, size)
  }

  /** The records appended alongside, each describing the text at the same position. */
  function RawsRecords(url: Json, raws: seq<string>, tokenize: string -> seq<string>, size: int): (rs: seq<Record>)
    requires Truthy(url)
    ensures Parallel(RawsTexts(raws, tokenize, size), rs)
  {
    if raws == [] then []
    else
      var prev := RawsRecords(url, raws[..|raws| - 1], tokenize, size);
      var chunks := ChunksOf(raws[|raws| - 1], tokenize, size);
      var rs := prev + RecordsFor(url, chunks);
      ParallelAppend(RawsTexts(raws[..|raws| - 1], tokenize, size), prev, chunks, RecordsFor(url, chunks));
      rs
  }

  lemma RawsSnoc(url: Json, raws: seq<string>, r: nat, tokenize: string -> seq<string>, size: int)
    requires Truthy(url) && r < |raws|
    ensures RawsTexts(raws[..r + 1], tokenize, size) == RawsTexts(raws[..r], tokenize, size) + ChunksOf(raws[r], tokenize, size)
    ensures RawsRecords(url, raws[..r + 1], tokenize, size)
      == RawsRecords(url, raws[..r], tokenize, size) + RecordsFor(url, ChunksOf(raws[r], tokenize, size))
  {
    assert raws[..r + 1][..r] == raws[..r];
  }

  /** The texts one document contributes: the chunks of its collected texts. */
  function DocTexts(doc: Json, tokenize: string -> seq<string>, size: int): seq<string> {
    match doc
    case Obj(items) => RawsTexts(ExtractTexts(doc), tokenize, size)
    case _ => []
  }

  /** The records one document contributes, all carrying its source URL. */
  function DocRecords(doc: Json, tokenize: string -> seq<string>, size: int): (rs: seq<Record>)
    ensures Parallel(DocTexts(doc, tokenize, size), rs)
  {
    match doc
    case Obj(items) => RawsRecords(SourceUrl(items), ExtractTexts(doc), tokenize, size)
    case _ => []
  }

  /** The texts of a list of documents, in order. */
  function DocsTexts(docs: seq<Json>, tokenize: string -> seq<string>, size: int): seq<string> {
    if docs == [] then []
    else DocsTexts(docs[..|docs| - 1], tokenize, size) + DocTexts(docs[|docs| - 1], tokenize, size)
  }

  /** The records of a list of documents, in order, each describing the text at the same position. */
  function DocsRecords(docs: seq<Json>, tokenize: string -> seq<string>, size: int): (rs: seq<Record>)
    ensures Parallel(DocsTexts(docs, tokenize, size), rs)
  {
    if docs == [] then []
    else
      var init := docs[..|docs| - 1];
      var last := docs[|docs| - 1];
      var rs := DocsRecords(init, tokenize, size) + DocRecords(last, tokenize, size);
      ParallelAppend(DocsTexts(init, tokenize, size), DocsRecords(init, tokenize, size),
                     DocTexts(last, tokenize, size), DocRecords(last, tokenize, size));
      rs
  }

  /**
   * Processing two batches of documents one after the other stores the same
   * texts and records as processing them as one list.
   */
  lemma {:induction false} DocsAppend(a: seq<Json>, b: seq<Json>, tokenize: string -> seq<string>, size: int)
    ensures DocsTexts(a + b, tokenize, size) == DocsTexts(a, tokenize, size) + DocsTexts(b, tokenize, size)
    ensures DocsRecords(a + b, tokenize, size) == DocsRecords(a, tokenize, size) + DocsRecords(b, tokenize, size)
    decreases |b|
  {
    if b == [] {
      assert a + b == a;
    } else {
      var b' := b[..|b| - 1];
      assert (a + b)[..|a + b| - 1] == a + b';
      assert (a + b)[|a + b| - 1] == b[|b| - 1];
      DocsAppend(a, b', tokenize, size);
      AppendAssoc(DocsTexts(a, tokenize, size), DocsTexts(b', tokenize, size), DocTexts(b[|b| - 1], tokenize, size));
      AppendAssoc(DocsRecords(a, tokenize, size), DocsRecords(b', tokenize, size), DocRecords(b[|b| - 1], tokenize, size));
    }
  }

  /** How many documents are processed before one that is not a dictionary stops the run (`doc.get` raises). */
  function DictPrefix(data: seq<Json>): (n: nat)
    ensures n <= |data|
    ensures forall j :: 0 <= j < n ==> data[j].Obj?
    ensures n < |data| ==> !data[n].Obj?
  {
    if data == [] || !data[0].Obj? then 0
    else
      var n := DictPrefix(data[1..]);
      assert forall j :: 1 <= j < n + 1 ==> data[1..][j - 1] == data[j];
      n + 1
  }

  /** The store's contents: the chunk texts and, at the same positions, their metadata. */
  class VectorStore {
    var texts: seq<string>
    var metadata: seq<Record>

    /** The two lists are parallel and every record describes its text. */
    ghost predicate Valid()
      reads this
    {
      Parallel(texts, metadata)
    }

    /** A new store holds nothing; the embedding model and the index are not modelled. */
    constructor()
      ensures Valid() && texts == [] && metadata == []
    {
      texts := [];
      metadata := [];
    }

    /**
     * `process_data(data, chunk_size)`. Documents are processed in order;
     * a document that is not a dictionary raises, which is reported as
     * `ok == false`, and what the documents before it appended stays.
     */
    method ProcessData(data: seq<Json>, tokenize: string -> seq<string>, chunkSize: int) returns (ok: bool)
      requires Valid()
      modifies this
      ensures Valid()
      ensures ok <==> DictPrefix(data) == |data|
      ensures texts == old(texts) + DocsTexts(data[..DictPrefix(data)], tokenize, chunkSize)
      ensures metadata == old(metadata) + DocsRecords(data[..DictPrefix(data)], tokenize, chunkSize)
    {
      ghost var texts0 := texts;
      ghost var metadata0 := metadata;
      var d := 0;
      while d < |data|
        invariant d <= DictPrefix(data)
        invariant texts == texts0 + DocsTexts(data[..d], tokenize, chunkSize)
        invariant metadata == metadata0 + DocsRecords(data[..d], tokenize, chunkSize)
      {
        var doc := data[d];
        if !doc.Obj? {
          ParallelAppend(texts0, metadata0, DocsTexts(data[..d], tokenize, chunkSize), DocsRecords(data[..d], tokenize, chunkSize));
          return false;
        }
        ParallelAppend(texts0, metadata0, DocsTexts(data[..d], tokenize, chunkSize), DocsRecords(data[..d], tokenize, chunkSize));
        assert d < DictPrefix(data);
        assert data[..d + 1][..d] == data[..d];
        assert DocsTexts(data[..d + 1], tokenize, chunkSize) == DocsTexts(data[..d], tokenize, chunkSize) + DocTexts(doc, tokenize, chunkSize);
        assert DocsRecords(data[..d + 1], tokenize, chunkSize) == DocsRecords(data[..d], tokenize, chunkSize) + DocRecords(doc, tokenize, chunkSize);
        AddDocument(doc, tokenize, chunkSize);
        AppendAssoc(texts0, DocsTexts(data[..d], tokenize, chunkSize), DocTexts(doc, tokenize, chunkSize));
        AppendAssoc(metadata0, DocsRecords(data[..d], tokenize, chunkSize), DocRecords(doc, tokenize, chunkSize));
        d := d + 1;
      }
      assert data[..d] == data[..DictPrefix(data)];
      ParallelAppend(texts0, metadata0, DocsTexts(data[..d], tokenize, chunkSize), DocsRecords(data[..d], tokenize, chunkSize));
      return true;
    }

    /** The body of the loop over `data` for a dictionary `doc`: its collected texts are chunked one after another. */
    method AddDocument(doc: Json, tokenize: string -> seq<string>, chunkSize: int)
      requires Valid() && doc.Obj?
      modifies this
      ensures Valid()
      ensures texts == old(texts) + DocTexts(doc, tokenize, chunkSize)
      ensures metadata == old(metadata) + DocRecords(doc, tokenize, chunkSize)
    {
      var url := SourceUrl(doc.items);
      var docTexts := ExtractTexts(doc);
      ghost var texts0 := texts;
      ghost var metadata0 := metadata;
      for r := 0 to |docTexts|
        invariant texts == texts0 + RawsTexts(docTexts[..r], tokenize, chunkSize)
        invariant metadata == metadata0 + RawsRecords(url, docTexts[..r], tokenize, chunkSize)
      {
        ParallelAppend(texts0, metadata0, RawsTexts(docTexts[..r], tokenize, chunkSize), RawsRecords(url, docTexts[..r], tokenize, chunkSize));
        var chunks := ChunkText(docTexts[r], tokenize, chunkSize, DefaultOverlap);
        assert chunks == ChunksOf(docTexts[r], tokenize, chunkSize);
        RawsSnoc(url, docTexts, r, tokenize, chunkSize);
        AddChunks(url, chunks);
        AppendAssoc(texts0, RawsTexts(docTexts[..r], tokenize, chunkSize), chunks);
        AppendAssoc(metadata0, RawsRecords(url, docTexts[..r], tokenize, chunkSize), RecordsFor(url, chunks));
      }
      assert docTexts[..|docTexts|] == docTexts;
      ParallelAppend(texts0, metadata0, RawsTexts(docTexts, tokenize, chunkSize), RawsRecords(url, docTexts, tokenize, chunkSize));
    }

    /** The loop over `enumerate(chunks)`: each chunk is stored with its record. */
    method AddChunks(url: Json, chunks: seq<string>)
      requires Valid() && Truthy(url)
      modifies this
      ensures Valid()
      ensures texts == old(texts) + chunks
      ensures metadata == old(metadata) + RecordsFor(url, chunks)
    {
      ghost var texts0 := texts;
      ghost var metadata0 := metadata;
      for i := 0 to |chunks|
        invariant texts == texts0 + chunks[..i]
        invariant metadata == metadata0 + RecordsFor(url, chunks)[..i]
      {
        RecordsForSnoc(url, chunks, i);
        texts := texts + [chunks[i]];
        metadata := metadata + [MakeRecord(url, i, |chunks|, chunks[i])];
      }
      assert chunks[..|chunks|] == chunks;
      assert RecordsFor(url, chunks)[..|chunks|] == RecordsFor(url, chunks);
      ParallelAppend(texts0, metadata0, chunks, RecordsFor(url, chunks));
    }
  }
}
