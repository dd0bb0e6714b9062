# SimpleRAG in Dafny

A model of the retrieval core of a small retrieval-augmented lookup tool. The
`SimpleRAG` object does four things:
- It splits each document into sentence-like parts and packs the parts greedily into chunks. A chunk is at most `chunk_size` characters long unless it is a single part that is longer on its own, which is kept whole.
- When `chunk_overlap > 0` and there are at least two chunks, it puts a tail in front of every chunk after the first: the last `chunk_overlap` characters of the pre-overlap chunk before it, then a space. Whitespace at the front of that tail is stripped away. With `chunk_overlap <= 0`, or a single chunk, the chunks are left as they are.
- It collects the chunks of all documents, each tagged with its document's name, and fits a TF-IDF index over them.
- It answers a query with the `top_k` best-scoring chunks, formatted as an extractive answer that cites the distinct sources in sorted order.

Layout, one module per file:

- `text.dfy` (`Text`): whitespace, `str.strip`, the sentence split
  `re.split(r"(?<=[.!?])\s+", ...)`, `str.join` and Python's string order.
- `chunking.dfy` (`Chunking`): the packing and overlap steps of `_split_text`
  as functions (`Pack`, `Overlap`, `Segment`) with their properties.
- `ranking.dfy` (`Ranking`): `scores.argsort()[::-1][:top_k]`.
- `corpus.dfy` (`Corpus`): the `Chunk` record, documents, and the chunk list
  a build produces (`IndexChunks`).
- `synthesis.dfy` (`Synthesis`): the answer text of `answer`.
- `rag.dfy` (`Rag`): the class `SimpleRag`. It has the fields `chunks`,
  `built` (the matrix exists) and `corpus` (the texts the vectorizer was fit
  on). Its methods are `SplitText` (with its two loops `PackParts` and
  `AddOverlap`), `BuildIndex`, `Retrieve` and `Answer`. Each is proved against
  the specification functions above.

The documents that `load_documents` would read are passed in as a
`seq<Document>`. Cosine similarity under the fitted vectorizer is a function
parameter `sim(corpus, query, i)`. It may be any function, so nothing proved
depends on how TF-IDF scores are computed.

Points of the code that the model keeps as they are:
- Chunks with equal scores come back in no particular order, because `argsort` is not stable.
- A negative `top_k` removes entries from the end of the ranking (Python slice semantics) rather than giving an empty result.
- An empty chunk list leaves the index unbuilt, and `retrieve` then returns `[]`.
- `chunk_size` and `chunk_overlap` are not validated. Any integer is accepted.

## Model

| member | source | states |
|---|---|---|
| Text.StripProperties | rag.py:36 | `str.strip` leaves no whitespace at either end; its result is the window of the input that remains after whitespace-only margins are removed; it is empty exactly when the input is all whitespace |
| Text.StripKeepsEnd | rag.py:43 | stripping a string that ends in a non-space removes only its leading whitespace |
| Chunking.StripKeepsText | rag.py:36 | `text.strip()` drops only whitespace: the non-space characters of the text are kept, in order |
| Text.Strip | rag.py:36 | `str.strip()`, defined as trimming whitespace from the left, then from the right; `StripProperties` states what it returns |
| Text.SplitFrom | rag.py:36 | the scan behind `re.split(r"(?<=[.!?])\s+", ...)`: a maximal whitespace run right after `.`, `!` or `?` separates two parts; `SplitRoundTrip`, `SplitKeepsText` and `SplitParts` state its properties |
| Text.SplitSentences | rag.py:36 | `re.split(r"(?<=[.!?])\s+", t)` as `SplitFrom` from an empty current part; `SplitSentencesRoundTrip` states its round trip |
| Text.SplitRoundTrip | rag.py:36 | the parts, with the matched whitespace runs put back between them, are the input character for character; there is one run fewer than parts; every run is non-empty whitespace and follows a non-empty part that ends in `.`, `!` or `?` |
| Text.SplitSentencesRoundTrip | rag.py:36 | for every text, some choice of non-empty whitespace runs, each after a sentence end, interleaved with the parts of `re.split`, gives back the text; so whitespace inside a sentence (newlines, double spaces) is kept in the parts |
| Text.SplitKeepsText | rag.py:36 | splitting at sentence boundaries drops only whitespace: the parts, concatenated, keep every non-space character of the input in order |
| Text.SplitParts | rag.py:36 | for stripped non-empty text, every part is non-empty and stripped; every part but the last ends in `.`, `!` or `?`; no part contains a sentence end followed by whitespace (the split misses no boundary) |
| Text.Join | rag.py:89-90 | Python's `sep.join(xs)`; `JoinAppend` states how it splits over concatenation |
| Text.JoinAppend | rag.py:43 | joining two non-empty lists with a separator is joining each and putting the separator between them |
| Text.Below | rag.py:89 | Python's string order by code points, with a proper prefix below the longer string; `BelowIrreflexive`, `BelowTransitive` and `BelowTotal` make it a strict total order |
| Text.BelowIrreflexive | rag.py:89 | no string is below itself in Python's string order |
| Text.BelowTransitive | rag.py:89 | Python's string order is transitive |
| Text.BelowTotal | rag.py:89 | Python's string order is total: two strings are equal or one is below the other |
| Chunking.Step | rag.py:40-47 | one pass of the packing loop: an empty part is skipped; a part that fits joins `current`; otherwise a non-empty `current` is flushed and the part starts a new group; `StepKeepsInvariant` states what it keeps |
| Chunking.PackPrefix | rag.py:39-47 | the packing loop's state after a prefix of the parts; `PackPrefixInvariant` states its invariant |
| Chunking.Groups | rag.py:48-49 | the groups after the final flush of a non-empty `current`; `GroupsProperties` states their properties |
| Chunking.Pack | rag.py:37-49 | the pre-overlap chunks, each group's parts joined with single spaces; `PackProperties` and `PackKeepsText` state their properties |
| Chunking.PackPrefixInvariant | rag.py:38-47 | the packing loop's invariant holds after every prefix of the parts. The invariant has five parts: the flushed groups followed by `current` are exactly the non-empty parts in order; no group is empty; each group fits `chunk_size` or is a single part; `current` is empty only before the first flush; each group was closed because the next part did not fit |
| Chunking.StepKeepsInvariant | rag.py:39-47 | one iteration of the packing loop, over an empty part, a part that fits or a part that does not fit, keeps the loop's invariant |
| Chunking.GroupsProperties | rag.py:38-49 | after the final flush, the groups laid end to end are exactly the non-empty parts, each group fits or is a single part, and the packing is greedy |
| Chunking.GrowCurrent | rag.py:43 | for stripped parts, `f"{current} {part}".strip()` equals the group's parts joined with single spaces, the new part included |
| Chunking.PackProperties | rag.py:39-49 | no pre-overlap chunk is empty; each is at most `chunk_size` long or is one sentence part; the chunks joined with single spaces equal the non-empty parts joined with single spaces; there are no chunks exactly when there are no non-empty parts |
| Chunking.PackKeepsText | rag.py:36-49 | the pre-overlap chunks, joined, hold exactly the non-whitespace characters of the document in order |
| Chunking.ShortTextOneChunk | rag.py:36-60 | a non-blank text whose sentences joined fit in `chunk_size` becomes exactly one chunk, which the overlap step leaves alone |
| Chunking.Overlap | rag.py:51-60 | the overlap step keeps the number of chunks |
| Chunking.Tail | rag.py:57 | `s[-k:]` for `k > 0`: the whole string when `k` is at least its length; `TailJoin` states what survives the strip |
| Chunking.Overlapped | rag.py:57-58 | `f"{tail} {chunk}".strip()` for chunk `i`, with the tail cut from pre-overlap chunk `i-1`; `OverlapShape` states its shape |
| Chunking.OverlapAt | rag.py:51-59 | for `k > 0` and two or more chunks, output chunk 0 is pre-overlap chunk 0 and output chunk `i` is `f"{tail} {chunk}".strip()` built from pre-overlap chunks `i-1` and `i` |
| Chunking.OverlapByPosition | rag.py:51-59 | a list of the right length whose first entry is pre-overlap chunk 0 and whose entry `i` is the overlapped chunk `i` is the overlap step's output |
| Chunking.TailJoin | rag.py:57-58 | stripping `tail + " " + chunk` removes only the tail's leading spaces; what remains of the tail is a non-empty suffix of the previous chunk of at most `chunk_overlap` characters |
| Chunking.OverlapShape | rag.py:51-59 | for `k > 0` and two or more chunks, output chunk 0 is pre-overlap chunk 0, and output chunk `i` is a non-empty suffix of at most `k` characters of pre-overlap chunk `i-1` (never of an overlapped chunk), then a space, then pre-overlap chunk `i` |
| Chunking.Segment | rag.py:34-60 | `_split_text`: strip, split into sentences, pack, then add overlap; `SegmentProperties`, `PackProperties` and `OverlapShape` state its properties |
| Chunking.SegmentProperties | rag.py:34-60 | `_split_text` gives no chunks exactly when the text is empty or whitespace only; the overlap step keeps the chunk count and the first chunk, and returns the pre-overlap chunks unchanged when `chunk_overlap <= 0` or there are fewer than two; every pre-overlap chunk is non-empty and stripped |
| Corpus.ChunkTexts | rag.py:67 | `[c.text for c in self._chunks]`; `Rag.SimpleRag.Valid` and `Rag.SimpleRag.BuildIndex` state that the vectorizer is fit on exactly these texts of the current chunks |
| Corpus.Tag | rag.py:65-66 | `Chunk(text=chunk, source=source)` for each piece of one document, in order; `OneDocument` states it for one document |
| Corpus.DocChunks | rag.py:64-66 | the tagged `_split_text` pieces of one document |
| Corpus.IndexChunks | rag.py:63-66 | the chunk list a build produces: each document's chunks, in document order; `IndexChunksAppend`, `IndexEmpty` and `ChunkOrigin` state its properties |
| Corpus.IndexChunksAppend | rag.py:63-66 | building over two batches of documents gives the first batch's chunks followed by the second's |
| Corpus.OneDocument | rag.py:64-66 | a document contributes its `_split_text` chunks, in order, each tagged with the document's name |
| Corpus.IndexEmpty | rag.py:62-70 | the chunk list is empty exactly when every document is empty or whitespace only |
| Corpus.ChunkOrigin | rag.py:64-66 | every chunk carries the name of a document it was cut from and its text is one of that document's chunks |
| Ranking.InsertByScore | rag.py:80 | inserting an index into a descending ranking keeps it descending, adds exactly that index, and keeps it duplicate-free |
| Ranking.RankPrefix | rag.py:80 | the ranking lists every index of the score array exactly once, with scores non-increasing |
| Ranking.PrefixOfRanking | rag.py:80 | a prefix of the ranking is duplicate-free and descending, and no index left out of it scores above any index in it |
| Ranking.Rank | rag.py:80 | `scores.argsort()[::-1]`: all indices, highest score first; `RankPrefix` states that it is a descending permutation |
| Ranking.SliceLength | rag.py:80 | the length of Python's `xs[:k]` on a list of length `n`: `min(k, n)` for `k >= 0`, and `max(n + k, 0)` for negative `k`; `TopIndices` states it as the result's length |
| Ranking.TopIndices | rag.py:80 | `argsort()[::-1][:top_k]` has the length Python's slice gives (`min(top_k, n)` for `top_k >= 0`); its entries are distinct chunk positions with non-increasing scores; it holds a set of highest-scoring positions |
| Rag.Scores | rag.py:78-79 | one score per chunk |
| Rag.Pick | rag.py:81 | `[self._chunks[i] for i in top_idx]`; `SelectionProperties` states the slice length, that every entry is a chunk of the index, and distinct positions in non-increasing score order |
| Rag.SelectionProperties | rag.py:80-81 | the retrieved list has the slice length, holds only chunks of the index, and refers to distinct positions in non-increasing score order |
| Synthesis.InsertSorted | rag.py:89 | adding a string to a strictly sorted list keeps it strictly sorted and adds exactly that string |
| Synthesis.SortedDistinct | rag.py:89 | `sorted(set(xs))` is strictly increasing and holds exactly the elements of `xs` |
| Synthesis.SortedUnique | rag.py:89 | a strictly sorted list is determined by its elements, so `SortedDistinct` is the one sorted duplicate-free listing |
| Synthesis.Sources | rag.py:89 | `sorted({c.source for c in chunks})`; `SourcesExact` states its contents and order |
| Synthesis.Bullets | rag.py:88 | one `f"- {c.text}"` entry per chunk, in retrieved order; `AnswerLayout` states it |
| Synthesis.ResponseLines | rag.py:90-97 | the list handed to `"\n".join`: question entry, header, bullets, sources entry; `AnswerLayout` states it |
| Synthesis.SourcesExact | rag.py:89 | the sources line lists a name exactly when some retrieved chunk carries it, each once, in sorted order |
| Synthesis.Synthesize | rag.py:85-98 | no chunks give `("No data found.", [])`; otherwise the returned chunk list is the retrieved list unchanged |
| Synthesis.AnswerLayout | rag.py:88-97 | the answer is its entries joined with `"\n"`. The entries are `Question: ` with the query, `Answer (extractive):`, one `- text` entry per chunk in retrieved order, and `Sources: ` with the sorted distinct sources joined by `, `. An entry spans several lines when its text holds a newline, as a chunk from a hard-wrapped file does |
| Synthesis.NoDataIffEmpty | rag.py:85-98 | the answer is the no-data sentinel exactly when nothing was retrieved |
| Rag.SimpleRag.constructor | rag.py:19-25 | a new object has the given chunk size and overlap (400 and 80 by default), no chunks and no index |
| Rag.SimpleRag.SplitText | rag.py:34-60 | `_split_text` returns exactly the specification `Segment` of the text; `Chunking.SegmentProperties` and `Chunking.OverlapShape` then give its properties |
| Rag.SimpleRag.PackParts | rag.py:37-49 | the packing loop returns exactly the greedy packing `Pack` of the parts |
| Rag.SimpleRag.AddOverlap | rag.py:51-59 | the overlap loop returns exactly `Overlap` of the pre-overlap chunks |
| Rag.SimpleRag.BuildIndex | rag.py:62-71 | the chunk list is replaced by the in-order concatenation of every document's chunks tagged with its source; the index is built exactly when that list is non-empty, and the vectorizer is refit only then (the fit is taken to succeed; see "Left out") |
| Rag.SimpleRag.AppendChunks | rag.py:65-66 | the inner loop appends one `Chunk` per piece, in order, each tagged with the document's name, and leaves the index state alone |
| Rag.SimpleRag.Ranked | rag.py:76-81 | with no index the result is empty; otherwise it has Python's slice length and holds only chunks of the index |
| Rag.SimpleRag.Retrieve | rag.py:73-81 | `top_k` is 3 by default; an unbuilt index is first rebuilt from the documents; the result is `[]` if it is still unbuilt, and otherwise the top-`top_k` chunks by score; an already built index is left as it was |
| Rag.SimpleRag.Answer | rag.py:83-98 | retrieves as `Retrieve` does, then returns the formatted answer and the retrieved chunks; the answer is the sentinel exactly when no chunks come back |

## Left out

- `load_documents` (rag.py:27-32) reads `*.txt` files from a directory in sorted order. File I/O is not modelled: the documents are a parameter, and `data_dir` is not a field.
- The `TfidfVectorizer` fit and transform and `cosine_similarity` (rag.py:24, 71, 78-79) are floating-point numerics from an external library. They are a similarity-function parameter over the fitted texts, and scores are `real`, so rounding and NaN are not modelled.
- Rag.SimpleRag.BuildIndex: the fit is modelled as always succeeding. `fit_transform` (rag.py:71) raises `ValueError` ("empty vocabulary") when no chunk has a token left after stop-word removal, for example a corpus holding only "It is. So it is.". `build_index` then exits with `_chunks` already replaced and `_matrix` unchanged, and `retrieve` and `answer` pass the exception on. The model does not capture that error or the state it leaves, where chunks exist but no index does, so `Valid` (`built` exactly when there are chunks) holds only for fits that succeed.
- Ranking.TopIndices: the order among equal scores is not stated. numpy's default `argsort` is not stable, so the source fixes no tie-break; the model's ranking is one valid descending order.
- Whitespace is the ASCII part of what Python counts as whitespace: tab, newline, vertical tab, form feed, carriage return, the four separator characters 0x1C to 0x1F, and space. Python's `\s` and `str.strip` also treat the non-ASCII Unicode spaces as whitespace. The model does not.
- The `Chunk` dataclass is mutable in Python. The model treats it as a value, and no code in the core mutates one.
- `main.py` (argument parsing and printing) and `test.py` (a smoke test over an on-disk corpus with real TF-IDF scores) are not part of this model.
