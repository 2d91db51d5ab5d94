# NeuroForge retrieval pipeline, modelled in Dafny

NeuroForge is a small retrieval pipeline in three steps:

- **Scraping.** `scraper.py` fetches a Wikipedia article. It cleans each section's text, drops reference sections and builds a tree of sections.
- **Indexing.** `vector_store.py` walks the scraped JSON documents and collects their long text fields. It splits each text into overlapping sentence-based chunks and stores every chunk with a metadata record. The embedding index is built from these chunks.
- **Querying.** `query.py` looks up a question in the index and turns the index's hits into ranked results.

This project models the parts of these steps that the repository itself computes, and proves properties of them. Embeddings, FAISS, HTML parsing and HTTP are foreign code, and are not modelled.

The modules follow the program:

- `Python` (python.dfy) holds the Python built-ins the code relies on.
  - `str.isspace`, `strip`, `split()` word counts, `sep.join`, `split(sep)`, `find` and `in`.
  - `lower` (as far as the ASCII keyword tests need), `str(int)`, and list slicing with negative bounds.
- `Json` (json.dfy) holds the JSON value that `json.load` produces: truthiness, `dict.get`, and `str()` of a value inside an f-string.
- `Chunker` (chunker.dfy) models `VectorStore.chunk_text`.
  - It is specified on sentence windows `sentences[lo..hi]`.
  - `Pack` computes the windows one sentence at a time, and the loop is proved to return their texts.
- `TextCollector` (text_collector.dfy) models `VectorStore._extract_texts`. A reference predicate says which strings are collected.
- `Store` (vector_store.dfy) models `VectorStore.process_data`.
  - The store is a class whose fields are the two parallel lists `texts` and `metadata`.
  - Its methods append, and they are proved against functions of the input documents.
- `Query` (query_engine.dfy) models the result loop of `QueryEngine.search`, `load_index`, and the classification of one line in `interactive_mode`.
- `WikiText` (wiki_text.dfy) models `clean_text`.
  - Each of the six regular-expression deletions is a matcher, proved equal to the pattern's language.
  - Each deletion is one left-to-right pass of `re.sub`.
  - The paragraph normalisation that follows is also modelled.
- `WikiSections` (wiki_sections.dfy) models the rest of the scraper's section handling.
  - `WikipediaSection` and `to_dict`, `get_section_level`, and the heading filter.
  - The stack-based hierarchy builder, which is proved to build a reference forest.
  - A heading first becomes a `Candidate`: its title, its level and its cleaned content. The content is absent when the filter skips the heading or its content could not be fetched. The reference forest is defined on the candidates.

`chunk_text` is a method of `VectorStore` in the source, but it reads no field. It is modelled as the module-level method `Chunker.ChunkText`. `process_data` calls it with the default overlap of two sentences.

## Model

| member | source | states |
|---|---|---|
| Python.LStrip | vector_store.py:96-97 | `lstrip()` removes exactly the leading whitespace: the result is a suffix, what it drops is all whitespace, and it starts with a non-space character or is empty. |
| Python.RStrip | vector_store.py:96-97 | `rstrip()` removes exactly the trailing whitespace, in the same sense at the other end. |
| Python.Strip | vector_store.py:96-97 | No contract of its own: `strip()` is `rstrip()` after `lstrip()`. StripSpec states what it means. |
| Python.StripSpec | vector_store.py:96-97 | A stripped string has no whitespace at either end. It is empty exactly when the input is blank, and stripping it again changes nothing. |
| Python.WordCount | vector_store.py:53 | No contract of its own: `len(s.split())` as the number of maximal non-whitespace runs. WordCountZero and WordCountSpaceJoin state its properties. |
| Python.WordCountZero | vector_store.py:53 | A text has no words exactly when it is blank. |
| Python.WordCountSpaceJoin | vector_store.py:62 | Joining two texts with one space neither merges nor splits words: the counts add. |
| Python.SumWords | vector_store.py:53-65 | No contract of its own: the sum of the sentences' word counts, the value `current_word_count` tracks. WordCountJoin ties it to the count of the joined chunk. |
| Python.Join | vector_store.py:57 | No contract of its own: `sep.join(parts)`. JoinSnoc, JoinSplitOn and SplitOnJoin state its properties. |
| Python.JoinSnoc | vector_store.py:57 | Joining one more part appends the separator and that part. |
| Python.WordCountJoin | vector_store.py:62 | The word count of the space-joined sentences is the sum of their word counts. This is the running count the loop keeps. |
| Python.SplitOnJoin | scraper.py:53-55 | Joining pieces that contain no character of the separator, then splitting on it, gives the pieces back. |
| Python.SplitOn | scraper.py:53 | `s.split(sep)` always gives at least one piece. JoinSplitOn states that it loses nothing. |
| Python.JoinSplitOn | scraper.py:53-55 | Joining the pieces of a split with the same separator gives the text back. |
| Python.Find | scraper.py:115-118 | `s.find(p)` returns -1 or a position where `p` occurs, and `p` occurs at no earlier position (nowhere, when it returns -1). |
| Python.Contains | scraper.py:115-118 | No contract of its own: `p in s` as `s.find(p) >= 0`. ContainsSpec states what it means. |
| Python.ContainsSpec | scraper.py:115-118 | `p in s` holds exactly when `p` occurs at some position of `s`. |
| Python.ContainsWithin | scraper.py:115-118 | A string that contains `p` still contains it inside any longer string. |
| Python.Lower | scraper.py:115 | No contract of its own: `lower()` character by character. LowerAppend, LowerFixed and LowerNoUpper state its properties. |
| Python.NatToString | query.py:68 | `str(n)` of a natural number is a non-empty string of ASCII digits. |
| Python.ParseNatToString | query.py:68 | Reading `str(n)` back as a decimal number gives `n`, so the rendered number determines the value. |
| Python.IntToString | query.py:68 | No contract of its own: `str(i)`, a minus sign before the digits of a negative number. |
| Python.SliceFrom | vector_store.py:61 | `xs[j:]` is a suffix of `xs`. CarrySlice states which suffix the chunker carries over. |
| Json.Truthy | vector_store.py:111 | No contract of its own: Python's `bool` on each kind of JSON value. SourceUrl's contract is stated with it. |
| Json.Get | vector_store.py:111 | `d.get(key)` is None when no entry has the key. Otherwise it is the value of the first entry with that key, which is the only one in an object `json.load` builds. |
| Json.Show | query.py:68 | No contract of its own: `str()` of a value inside an f-string. StoreRecordRenders states the text it gives for a record the store wrote. |
| Json.Display | query.py:68 | No contract of its own: `str(v)`, the unquoted form of Show. |
| Chunker.CarryStart | vector_store.py:61 | The carried-over part of the emitted chunk starts inside it. |
| Chunker.CarrySlice | vector_store.py:61 | `current[-overlap:]` is the sentences from CarryStart to the end of the emitted chunk. For `overlap >= 1` these are its last `min(overlap, n)` sentences; for `overlap == 0`, all of them. |
| Chunker.Step | vector_store.py:56-65 | One loop turn either leaves the packing exactly as it was, or emits exactly the current window `sentences[start..t]` and restarts the current chunk at CarryStart, where `current[-overlap:]` begins. It emits exactly when the current chunk is not empty and adding sentence `t` would take it over the word budget. Either way the current chunk starts at or before `t`. |
| Chunker.Pack | vector_store.py:52-65 | After `i` sentences, every emitted window is non-empty and ends before sentence `i`, and the current chunk starts before `i`. |
| Chunker.Windows | vector_store.py:67-69 | The final windows lie within the sentence list. A non-empty sentence list gives one chunk more than the number of chunks emitted in the loop, and an empty one gives none. |
| Chunker.Texts | vector_store.py:57-69 | One chunk text per window. TextsSnoc and ChunkText tie each text to the loop's `" ".join(current_chunk_sentences)`. |
| Chunker.TextsSnoc | vector_store.py:57 | One more window appends its sentences joined by one space. |
| Chunker.Chunks | vector_store.py:42-71 | There are no chunks exactly when there are no sentences. |
| Chunker.ChunkText | vector_store.py:33-71 | An empty text gives no chunks. Otherwise the loop returns exactly the space-joined windows of `Pack` over the text's sentences. |
| Chunker.ChainFlush | vector_store.py:56-62 | Emitting the current chunk and starting the overlapped one keeps the windows chained. |
| Chunker.ChainGrow | vector_store.py:64-65 | Appending a sentence to the current chunk keeps the windows chained. |
| Chunker.PackChained | vector_store.py:52-65 | After every prefix of the sentences, the windows (with the current one) are chained. The first starts at 0, the last ends at the prefix's end, none is empty, and each next window starts where `current[-overlap:]` of the previous starts. |
| Chunker.WindowsChained | vector_store.py:52-69 | The chunk windows of any sentence list are chained in that sense. |
| Chunker.EverySentenceInAChunk | vector_store.py:52-69 | Every sentence lies inside some chunk: no sentence is lost or split. |
| Chunker.CoveredUpTo | vector_store.py:52-69 | In a chained list of windows, every sentence before the end of window `k` lies in one of the windows up to `k`. |
| Chunker.OverlapCarried | vector_store.py:59-64 | For `overlap >= 1`, chunk `k + 1` begins with the last `min(overlap, n)` sentences of chunk `k`, followed by the sentence that caused chunk `k` to be emitted. |
| Chunker.ZeroOverlapRepeats | vector_store.py:61 | With `overlap == 0`, each chunk starts where the previous one started and extends past it. |
| Chunker.NoFlushWithinBudget | vector_store.py:56 | While the total word count is within the budget, nothing is emitted. |
| Chunker.FitsInOneChunk | vector_store.py:56-69 | Sentences whose total word count is within the budget form one chunk: all of them joined by a space. |
| Chunker.SingleSentence | vector_store.py:56-69 | One sentence is one chunk, whatever its length. |
| Chunker.FlushedGrows | vector_store.py:52-65 | The number of emitted chunks never decreases along the loop. |
| Chunker.SingleChunkIff | vector_store.py:52-69 | Two or more sentences form a single chunk exactly when their total word count is within the budget. |
| Chunker.PackBudgeted | vector_store.py:53-65 | After every prefix, each window is within the word budget, unless what it added is just one sentence, which is appended whatever its length. |
| Chunker.WithinBudget | vector_store.py:53-69 | The final chunk windows keep to the budget in that sense. |
| Chunker.PackGreedy | vector_store.py:52-65 | After every prefix, each emitted window is followed by a sentence that would have taken it over the word budget. |
| Chunker.GreedyStep | vector_store.py:56-65 | One loop turn keeps that greedy property of the emitted windows. |
| Chunker.Greedy | vector_store.py:52-69 | Every chunk window but the last is closed only because the next sentence would not fit: its words plus those of the sentence after it exceed the budget. |
| TextCollector.ExtractTexts | vector_store.py:88-103 | Every collected text has at least 40 characters and no whitespace at either end. |
| TextCollector.ExtractMember | vector_store.py:88-103 | A string is collected exactly when it is the stripped, long-enough value of some dictionary entry reachable through dictionaries and lists. |
| TextCollector.ValueMember | vector_store.py:94-99 | A dictionary value yields `t` exactly when it is a string whose stripped form is `t` and long enough, or `t` is found inside it. |
| TextCollector.ItemsMember | vector_store.py:92-99 | A dictionary yields `t` exactly when one of its values does. |
| TextCollector.ElemsMember | vector_store.py:100-102 | A list yields `t` exactly when one of its items does. |
| TextCollector.ItemTextsAppend | vector_store.py:92-99 | A dictionary's texts are those of its first entries followed by those of the rest, so document order is kept. |
| TextCollector.ElemTextsAppend | vector_store.py:100-102 | The same holds for a list's items. |
| TextCollector.SingleEntry | vector_store.py:94-97 | A one-entry dictionary with a string value yields that string stripped if it is at least 40 characters long, and nothing otherwise, whatever the key. |
| TextCollector.StringListIgnored | vector_store.py:100-103 | A list of strings yields nothing. |
| Store.ChunksOf | vector_store.py:118 | No contract of its own: `chunk_text(raw_text, chunk_size)` with the default overlap of two. ChunkText proves that the loop returns it. |
| Store.SourceUrl | vector_store.py:111 | The URL is `url` if that is truthy, else `source_url` if truthy, else `'Unknown URL'`, so it is always truthy. |
| Store.ParallelAppend | vector_store.py:116-128 | Appending parallel texts and records to parallel lists keeps them parallel, and leaves the earlier entries as they were. |
| Store.MakeRecord | vector_store.py:122-128 | No contract of its own: the metadata dictionary appended for chunk `i`. RecordsFor states its keys and values. |
| Store.RecordsFor | vector_store.py:119-128 | One record per chunk. Record `k` has exactly the five keys, the document's URL, `chunk_id == k`, `total_chunks` equal to the number of chunks, and the chunk's text and length. |
| Store.RawsTexts | vector_store.py:116-118 | No contract of its own: the chunks of a document's texts, in order. RawsSnoc and RawsRecords state what is appended alongside. |
| Store.RawsRecords | vector_store.py:116-128 | The records of one document's texts describe, position by position, the chunks appended for them. |
| Store.RawsSnoc | vector_store.py:116-128 | Handling one more collected text appends its chunks and their records. |
| Store.DocTexts | vector_store.py:109-118 | No contract of its own: the chunks one document contributes. DocRecords states that its records describe them. |
| Store.DocRecords | vector_store.py:109-128 | The records of one document describe its chunks position by position. |
| Store.DocsTexts | vector_store.py:109-128 | No contract of its own: the chunks of a list of documents, in order. DocsRecords and DocsAppend state its properties. |
| Store.DocsRecords | vector_store.py:109-128 | The same holds for a list of documents. |
| Store.DocsAppend | vector_store.py:109-128 | Processing two batches one after the other stores what processing them as one list does. |
| Store.DictPrefix | vector_store.py:109-111 | Counts the documents before the first one that is not a dictionary, where `doc.get` raises. |
| Store.VectorStore.constructor | vector_store.py:26-31 | A new store is empty and valid. |
| Store.VectorStore.ProcessData | vector_store.py:105-130 | The lists stay parallel with every record describing its text. Exactly the texts and records of the documents before the first non-dictionary are appended, and earlier entries are kept. It succeeds exactly when every document is a dictionary. |
| Store.VectorStore.AddDocument | vector_store.py:111-128 | One document appends the chunks of its collected texts and their records, and nothing else. |
| Store.VectorStore.AddChunks | vector_store.py:119-128 | The loop over `enumerate(chunks)` appends the chunks and exactly their records. |
| Query.Zip | query.py:61 | `zip` gives as many hits as the shorter list, pairing entries at the same position. |
| Query.PyIndex | query.py:66 | List indexing succeeds exactly for `-len <= i < len`. |
| Query.Lookup | query.py:68 | No contract of its own: `r[key]`, KeyError when the key is absent. |
| Query.PlusOne | query.py:68 | No contract of its own: `v + 1`, TypeError for a value that is not a number or a boolean. AssembleOkIff names it among the ways a search can fail. |
| Query.GetText | query.py:67 | No contract of its own: `r.get('text', 'Text not available')`. AssembleKept and StoreRecordRenders state the text a result carries. |
| Query.TextChunk | query.py:68 | No contract of its own: the `text_chunk` f-string, with its first failing lookup or `+ 1`. StoreRecordRenders states the string for a record the store wrote. |
| Query.Passes | query.py:62 | No contract of its own: the guard `idx < len(self.metadata)`, or the corrected one. Kept states which hits it lets through. |
| Query.Render | query.py:63-69 | No contract of its own: the result dictionary for one hit. AssembleKept states each of its fields. |
| Query.Assemble | query.py:60-72 | No contract of its own: the results of the loop, or its first exception. AssembleKept, ErrorStops, RanksIncrease and AssembleOkIff state what it returns, and Search is proved to return it. |
| Query.Kept | query.py:61-62 | The positions the guard lets through: all of them, each hit's own position in the hit list, in increasing order. |
| Query.AssembleKept | query.py:60-72 | On success there is one result per kept hit, in order. Its rank is the hit's position plus one, its score is the hit's score, and its metadata is the record at `metadata[idx]`. Its text and `text_chunk` come from that record. |
| Query.ErrorStops | query.py:61-70 | The first exception ends the search, and the search raises it. |
| Query.RanksIncrease | query.py:64 | Ranks lie between 1 and the number of hits, and strictly increase. |
| Query.AssembleOkIff | query.py:61-70 | The search raises exactly when some hit the guard lets through cannot be rendered: its index fails, or a key or `+ 1` in the f-string fails. |
| Query.StoreRecordRenders | query.py:67-68 | A record the store wrote renders as `Chunk <chunk_id+1> of <total_chunks> from <url>`, with its stored text. |
| Query.NegativeIdReadsLast | query.py:62-66 | As written, position -1 passes the guard. It yields the last record as a result, or raises IndexError when there are no records. |
| Query.CheckedNeverFails | query.py:62-70 | With `0 <= idx` added to the guard, a search over records the store wrote never raises, and each result is the record at its own hit's position. |
| Query.QueryEngine.constructor | query.py:16-20 | No index is loaded and there is no metadata. |
| Query.QueryEngine.LoadIndex | query.py:22-38 | A successful load makes the loaded records the engine's metadata. |
| Query.QueryEngine.Search | query.py:40-72 | Without an index the result is empty. Otherwise the loop over the zipped hits returns what Assemble specifies, including the first exception. |
| Query.Classify | query.py:106-113 | Quit exactly when the stripped line lower-cased is `quit`, `exit` or `q`, and skip exactly when the stripped line is empty. Otherwise the stripped line is searched. |
| Query.AskAgain | query.py:106-113 | A searched line's query, classified again, is the same query. |
| WikiText.SpaceRun | scraper.py:50 | `\s*` at the start: the maximal whitespace prefix. |
| WikiText.SpaceRunUnique | scraper.py:39 | A whitespace run followed by a non-space character or the end is the maximal one. |
| WikiText.DigitRun | scraper.py:42 | `\d+` at the start: the maximal digit prefix. |
| WikiText.DigitRunUnique | scraper.py:46 | A digit run followed by a non-digit or the end is the maximal one. |
| WikiText.NextStop | scraper.py:49 | The first `)` (or newline, which `.` does not match) at or after a position. |
| WikiText.MatchAt | scraper.py:39-50 | The match length of a pattern at a scan position never exceeds the rest of the text. |
| WikiText.MatchAtSpec | scraper.py:39-50 | For each of the six patterns, the matcher returns the length of the only match of the pattern's language at that position, or 0 when there is none. |
| WikiText.EditLinkSpec | scraper.py:39 | The matcher for `\[\s*edit\s*\]` agrees with the pattern's language. |
| WikiText.CiteNumberSpec | scraper.py:42 | The matcher for `\[\d+\]` agrees with the pattern's language. |
| WikiText.TrailingNumberSpec | scraper.py:46 | The matcher for `\d+$` agrees with the pattern's language: at the end of the text, or before a final newline. |
| WikiText.PronunciationSpec | scraper.py:49 | The matcher for `\(; .*?\)` agrees with the pattern's language: the shortest match, with no newline inside. |
| WikiText.LifeDatesSpec | scraper.py:50 | The matcher for the life-dates pattern agrees with the pattern's language. The pattern is optional whitespace, then `(`, a body without `)` that holds `born` or `died` as a whole word, then `)`. |
| WikiText.Delete | scraper.py:39-50 | One `re.sub(pattern, '', text)` pass never makes the text longer. DeleteFirstMatch and DeleteUnchangedIff state what a pass keeps and what it removes. |
| WikiText.DeleteFirstMatch | scraper.py:39-50 | When `j` is the first scan position where the pattern matches, a pass keeps `text[..j]`, removes that match, and goes on with the text after it. |
| WikiText.KeepPrefix | scraper.py:39-50 | A pass keeps the text before the first scan position that matches. |
| WikiText.StepKeep | scraper.py:39-50 | A scan position without a match keeps its character. |
| WikiText.StepCut | scraper.py:39-50 | A scan position with a match drops the match and resumes after it. |
| WikiText.HasMatchTail | scraper.py:39-50 | Without a match at the first position, the text has a match exactly when its tail has one. |
| WikiText.DeleteUnchangedIff | scraper.py:39-50 | A pass leaves the text unchanged exactly when the pattern matches nowhere in it. |
| WikiText.DeleteShrinks | scraper.py:39-50 | A text containing a match loses at least one character. |
| WikiText.Deletions | scraper.py:38-50 | The six deletions, in the source's order, never make the text longer. DeleteFirstMatch and DeleteUnchangedIff state what each pass keeps and removes, and MatchAtSpec states what a match of each pattern is. |
| WikiText.Collapse | scraper.py:54 | `re.sub(r'\s+', ' ', s)`: its only whitespace is single spaces. It is empty exactly when `s` is, and it starts or ends with a space exactly when `s` starts or ends with whitespace. CollapseNoSpace, CollapseBlank and CollapseAppend fix its value. |
| WikiText.CollapseNoSpace | scraper.py:54 | Text without whitespace is left as it is. |
| WikiText.CollapseBlank | scraper.py:54 | A non-empty whitespace run becomes a single space. |
| WikiText.CollapseAppend | scraper.py:54 | Where no whitespace run spans the boundary between two texts, the concatenation collapses to the two collapsed texts. |
| WikiText.CollapseKeep | scraper.py:54 | A non-space first character is kept. |
| WikiText.CollapseRun | scraper.py:54 | A leading whitespace run becomes one space. |
| WikiText.NormaliseTidy | scraper.py:54 | A stripped, collapsed paragraph is tidy, and it is empty exactly when the paragraph is blank. |
| WikiText.Normalise | scraper.py:54 | Every normalised paragraph is tidy, and it is empty exactly when its paragraph is blank. |
| WikiText.NonEmpty | scraper.py:55 | `filter(None, ...)` returns only non-empty paragraphs of its input, and every non-empty paragraph appears in it. NonEmptyAppend and NonEmptySingle state that order and repeats are kept. |
| WikiText.NonEmptyAppend | scraper.py:55 | Filtering a concatenation gives the two filtered parts in order, so order and repeats are kept. |
| WikiText.NonEmptySingle | scraper.py:55 | A single paragraph is kept exactly when it is not empty. |
| WikiText.NonEmptyTidy | scraper.py:54-55 | Filtering tidy paragraphs leaves only tidy paragraphs. |
| WikiText.Paragraphs | scraper.py:53-55 | Every paragraph kept in the output is non-empty and tidy. |
| WikiText.TidyAvoids | scraper.py:53-55 | A tidy paragraph contains no newline. |
| WikiText.JoinEnds | scraper.py:55 | The joined text starts with the first paragraph's first character and ends with the last paragraph's last character. |
| WikiText.JoinTidyEnds | scraper.py:55-57 | Tidy paragraphs joined by blank lines have no whitespace at either end. |
| WikiText.JoinTidy | scraper.py:55-57 | For such a join the final strip is a no-op, and splitting on blank lines gives the paragraphs back. |
| WikiText.CleanText | scraper.py:34-57 | No contract of its own: `clean_text`, the six deletions, then the paragraph normalisation, the join and the final strip. CleanTextShape states what its output is. |
| WikiText.CleanTextShape | scraper.py:34-57 | The output has no whitespace at either end. It is its non-empty, tidy paragraphs joined by exactly one `\n\n`, and splitting it on `\n\n` returns them. |
| WikiSections.ToDict | scraper.py:25-32 | No contract of its own: `to_dict`, the four fields in this key order. DictRoundTrip states that it loses nothing. |
| WikiSections.FromDict | scraper.py:25-32 | No contract of its own: reads a section back from the form `to_dict` produces. DictRoundTrip states that it inverts ToDict. |
| WikiSections.ToDicts | scraper.py:32 | One dictionary per subsection. |
| WikiSections.DictRoundTrip | scraper.py:25-32 | `to_dict` keeps title, level, content and every subsection, in order and at its depth, so the section can be read back from it. |
| WikiSections.DictsRoundTrip | scraper.py:32 | The same holds for a list of subsections. |
| WikiSections.SectionLevel | scraper.py:82-84 | Raises (None) exactly when the name is shorter than two characters. Otherwise the result is the digit at `name[1]` when that is a digit, else 0. |
| WikiSections.HeadingTagLevel | scraper.py:82-84 | `h1` ... `h9` give their digit. |
| WikiSections.LowerAppend | scraper.py:115-119 | Lower-casing distributes over concatenation. |
| WikiSections.LowerFixed | scraper.py:115-119 | A string without upper-case letters is its own lower-case form. |
| WikiSections.LowerNoUpper | scraper.py:115-119 | A lower-cased string has no upper-case letters. |
| WikiSections.IsSkipped | scraper.py:115-118 | No contract of its own: the filter `any(x in heading_text.lower() for x in [...])`. SkipIgnoresCase, SkipWithin and KeywordSkipped state its properties. |
| WikiSections.KeywordNoUpper | scraper.py:115-118 | None of the seven keywords has a character that lower-casing changes. |
| WikiSections.SkipIgnoresCase | scraper.py:115-119 | Whether a heading is skipped does not depend on its case. |
| WikiSections.SkipWithin | scraper.py:232-236 | A heading that contains a skipped heading is skipped. |
| WikiSections.KeywordSkipped | scraper.py:232-236 | Any heading containing one of the seven keywords is skipped. |
| WikiSections.Fetched | scraper.py:113-148 | No contract of its own: a heading after the filter and the content step, with its content cleaned, or none when it is skipped or could not be fetched. BuildSections proves that the loop computes it for every heading. |
| WikiSections.Candidates | scraper.py:112-148 | No contract of its own: the candidates of all headings, in page order. |
| WikiSections.Keep | scraper.py:151 | No contract of its own: `if section_content.strip()`. KeptLeaf states that a kept candidate's section has content. |
| WikiSections.Leaf | scraper.py:153 | A new section has no subsections. |
| WikiSections.KeptLeaf | scraper.py:151-153 | A section made from cleaned content that is not blank has non-empty content. |
| WikiSections.KeptSections | scraper.py:151-153 | Only candidates whose cleaned content is not blank make sections. Each such section is a leaf with non-empty content. |
| WikiSections.Tree | scraper.py:150-164 | No contract of its own: the reference forest, the sections placed one after another. TreeSnoc, TreePreorder and TreeNested state its properties. |
| WikiSections.Insert | scraper.py:156-162 | The forest stays non-empty after a section is placed. |
| WikiSections.InsertInto | scraper.py:156-162 | Placing a section under a node keeps the node's title, level and content. |
| WikiSections.PreForestSnoc | scraper.py:160-162 | The pre-order walk of a forest with one more root is the old walk followed by the root's walk. |
| WikiSections.InsertIntoPre | scraper.py:159-160 | Placing a section under a node appends it to the node's pre-order walk. |
| WikiSections.InsertPre | scraper.py:156-162 | Placing a section appends it to the forest's pre-order walk. |
| WikiSections.TreePreorder | scraper.py:150-164 | A pre-order walk of the built forest lists the kept sections in page order. |
| WikiSections.InsertIntoNested | scraper.py:156-160 | Placing a section under a node of lower level keeps every child's level above its parent's. |
| WikiSections.TreeNested | scraper.py:156-162 | In the built forest every subsection's level is strictly greater than its parent's, all the way down. |
| WikiSections.Close | scraper.py:150-164 | The open path, closed up, is a section of the level of its bottom entry. |
| WikiSections.ClosePop | scraper.py:156-157 | Popping the top entry into the entry below leaves the forest unchanged. |
| WikiSections.CloseInsert | scraper.py:159-164 | Pushing a section on a path whose levels are all below its own places it exactly where the reference does. |
| WikiSections.PopKeeps | scraper.py:156-157 | Each pop keeps the forest and the pop-loop invariant. |
| WikiSections.PushInsert | scraper.py:159-164 | Once the pops end, pushing places the new section as the reference does, and the stack's levels still strictly increase. |
| WikiSections.KeptStep | scraper.py:113-153 | One more candidate adds its section to the kept sections exactly when it is kept. |
| WikiSections.TreeSnoc | scraper.py:150-164 | The reference forest of one more section is that section placed into the previous forest. |
| WikiSections.Push | scraper.py:150-164 | The pops, the attachment and the push place the new section where the reference does: as the last child of the deepest section on the stack with a lower level, or as a new top-level section. After the push the stack's levels strictly increase. |
| WikiSections.BuildSections | scraper.py:229-286 | The loop over the headings applies the filter, skips headings whose content could not be fetched, cleans the rest and builds exactly the reference forest of the kept sections. |
| WikiSections.BuiltForest | scraper.py:270-286 | The built forest's pre-order walk is the kept sections in page order, and every subsection's level exceeds its parent's. |

## Left out

- HTTP and the Wikipedia API (`requests`, `raise_for_status`, the JSON responses) are not modelled. The same goes for the BeautifulSoup traversal that produces each heading's text, title and joined content parts, and for the lead-paragraph walk, the timestamp and the file writing in `scrape_wikipedia`. These are network I/O and a foreign HTML library. Their results enter as the `Heading` values given to `BuildSections`, where a heading without content stands for an API error reply. `extract_section_content` belongs to this part.
- `int(section['level'])` on the API's level string is not modelled: the level enters as an integer. A level string that is not a number raises, and that ends the whole scrape in `scrape_wikipedia`'s exception handler.
- The sentence tokenizer (`nltk.sent_tokenize`) is foreign code. It is the parameter `tokenize`; the model assumes nothing about it.
- `SentenceTransformer.encode`, FAISS (`IndexFlatIP`, `normalize_L2`, `search`, `write_index`, `read_index`) and the ranking of hits are left out, as are `create_index`, `save` and how the index file is read. These are foreign calls on float32 numbers. Search hits enter the model as two given lists, with scores as `real`.
- Reading the JSON files (`load_json_files`) and the metadata pickle is file I/O. `LoadIndex` takes the records read, and models only a load that succeeds.
- `print` output, `print_results` (display only) and the `input()` loop of `interactive_mode` are left out. Only the classification of one line is modelled.
- JSON numbers are integers, so floating-point JSON values are not modelled.
- `WikiText.MatchAt`: `\d` and `\w` match ASCII digits and ASCII word characters only. Python's Unicode classes also match other scripts' digits and letters. Whitespace (`\s`, `strip`, `split`) uses Python's full `str.isspace` set.
- `WikiSections.SectionLevel`: only ASCII digits count as digits, and the model gives 0 for any other character. Python differs on two kinds of Unicode characters. For a decimal digit of another script, such as `'٣'`, `isdigit` is true and `int` gives its value, 3. For a digit that is not decimal, such as `'²'`, `isdigit` is true and `int` raises ValueError. The headings the scraper reads are named `h1` to `h6`.
- `Python.Lower`: only the characters whose lower-case form contains an ASCII letter are lower-cased. That is enough for every comparison with the ASCII keywords here.
- `WikiSections.BuildSections`: the stack and the forest are values, not shared objects. Python appends the new section to the stack top's `subsections` when it is pushed. The model files a section under the entry below when it is popped, and closes the remaining path at the end (`View`). The resulting forest is the same; the aliasing between the stack and the forest is not modelled.
- `Json.Get`: an object's items are a list, so the model allows two entries with the same key. `Get` then returns the first one's value, while the dictionary `json.load` builds keeps the last, and `ItemTexts` visits both. `json.load` never produces such an object, so no input of the pipeline is affected.
- `Json.Show` approximates `repr` inside containers with single quotes and no escaping.

## Findings

| source | as written | input that shows it | evidently intended | confidence | as-written member | corrected member |
|---|---|---|---|---|---|---|
| query.py:62 | `if idx < len(self.metadata)` lets a negative position through, which `self.metadata[idx]` then reads from the end of the list | FAISS pads its answer with position -1 when the index holds fewer vectors than `top_k`. For one hit `(score, -1)`, the last record is returned as an extra result; with no records, IndexError is raised | `0 <= idx < len(self.metadata)`: only real positions are read | medium, not executed | Query.NegativeIdReadsLast | Query.CheckedNeverFails |
