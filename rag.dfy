/** The retriever object `SimpleRAG`: its configuration, the chunk list it
    owns, and whether a vector index is built over that list. Documents are
    passed in where the source reads them from disk, and the TF-IDF
    vectorizer with its cosine similarity is an abstract scoring function. */
module Rag {
  import opened Text
  import opened Chunking
  import opened Ranking
  import opened Corpus
  import opened Synthesis

  /** The defaults of `SimpleRAG(chunk_size=400, chunk_overlap=80)` and of
      `top_k` in `retrieve` and `answer`. */
  const DefaultChunkSize: int := 400
  const DefaultChunkOverlap: int := 80
  const DefaultTopK: int := 3

  /** Cosine similarity between a query and chunk `i`, under a vectorizer
      fit on the given chunk texts. Left abstract: any function will do. */
  type Similarity = (seq<string>, string, nat) -> real

  /** One score per chunk: `cosine_similarity(transform([query]), matrix)`. */
  function Scores(corpus: seq<string>, query: string, sim: Similarity, n: nat): (s: seq<real>)
    ensures |s| == n
  {
    seq(n, i requires 0 <= i < n => sim(corpus, query, i))
  }

  /** `[chunks[i] for i in idx]`. */
  function Pick(chunks: seq<Chunk>, idx: seq<nat>): seq<Chunk>
    requires forall p :: 0 <= p < |idx| ==> idx[p] < |chunks|
  {
    seq(|idx|, p requires 0 <= p < |idx| => chunks[idx[p]])
  }

  /** The retrieved chunks, highest score first: distinct positions of the
      chunk list, as many as Python's `[:top_k]` keeps, and no chunk left
      out scores above one that is kept. */
  lemma SelectionProperties(chunks: seq<Chunk>, scores: seq<real>, topK: int)
    requires |scores| == |chunks|
    ensures var idx := TopIndices(scores, topK);
      var r := Pick(chunks, idx);
      && |r| == SliceLength(|chunks|, topK)
      && (0 <= topK ==> |r| == if topK <= |chunks| then topK else |chunks|)
      && (forall p :: 0 <= p < |r| ==> r[p] in chunks)
      && (forall p, q :: 0 <= p < q < |r| ==> idx[p] != idx[q] && scores[idx[p]] >= scores[idx[q]])
  {
    var idx := TopIndices(scores, topK);
    var r := Pick(chunks, idx);
    forall p | 0 <= p < |r| ensures r[p] in chunks {
      assert r[p] == chunks[idx[p]];
    }
  }

  class SimpleRag {
    const chunkSize: int
    const chunkOverlap: int
    /** `_chunks`: the chunk list of the last build. */
    var chunks: seq<Chunk>
    /** `_matrix is not None`: a vector index exists. */
    var built: bool
    /** The texts the vectorizer was last fit on. */
    var corpus: seq<string>

    /** The matrix exists exactly when there are chunks, and its rows are
        the current chunks' texts. This takes the vectorizer's fit to
        succeed on any non-empty list of texts. */
    ghost predicate Valid()
      reads this
    {
      (built <==> chunks != []) && (built ==> corpus == ChunkTexts(chunks))
    }

    constructor (chunkSize: int := DefaultChunkSize, chunkOverlap: int := DefaultChunkOverlap)
      ensures Valid()
      ensures this.chunkSize == chunkSize && this.chunkOverlap == chunkOverlap
      ensures chunks == [] && !built
    {
      this.chunkSize := chunkSize;
      this.chunkOverlap := chunkOverlap;
      chunks := [];
      built := false;
      corpus := [];
    }

    /** `_split_text`: sentence parts packed greedily into chunks, then the
        overlap step. */
    method SplitText(text: string) returns (pieces: seq<string>)
      ensures pieces == Segment(text, chunkSize, chunkOverlap)
    {
      var parts := SplitSentences(Strip(text));
      PartsTrimmed(text);
      var chunks := PackParts(parts);
      if chunkOverlap > 0 && |chunks| > 1 {
        chunks := AddOverlap(chunks);
      }
      pieces := chunks;
    }

    /** The packing loop of `_split_text`: `current` gathers parts while they
        fit within `chunkSize` and is flushed to the chunk list when one does
        not. */
    method PackParts(parts: seq<string>) returns (chunks: seq<string>)
      requires forall p :: p in parts ==> Trimmed(p)
      ensures chunks == Pack(parts, chunkSize)
    {
      chunks := [];
      var current: string := "";
      for i := 0 to |parts|
        invariant chunks == Texts(PackPrefix(parts[..i], chunkSize).done)
        invariant current == Spaced(PackPrefix(parts[..i], chunkSize).current)
      {
        var part := parts[i];
        ghost var st := PackPrefix(parts[..i], chunkSize);
        assert parts[..i + 1][..i] == parts[..i];
        assert PackPrefix(parts[..i + 1], chunkSize) == Step(st, part, chunkSize);
        if part == [] {
          continue;
        }
        CurrentMembers(parts[..i], chunkSize);
        assert forall x :: x in parts[..i] ==> x in parts;
        assert part in parts;
        if |current| + |part| + 1 <= chunkSize {
          GrowCurrent(st.current, part);
          current := Strip(current + " " + part);
        } else {
          SpacedEmpty(st.current);
          if current != [] {
            TextsSnoc(st.done, st.current);
            chunks := chunks + [current];
          }
          current := part;
          assert current == Spaced([part]);
        }
      }
      assert parts[..|parts|] == parts;
      ghost var st := PackPrefix(parts, chunkSize);
      CurrentMembers(parts, chunkSize);
      SpacedEmpty(st.current);
      if current != [] {
        TextsSnoc(st.done, st.current);
        chunks := chunks + [current];
      }
    }

    /** The overlap loop of `_split_text`: every chunk after the first gets
        the last `chunkOverlap` characters of the chunk before it in front. */
    method AddOverlap(chunks: seq<string>) returns (overlapped: seq<string>)
      requires chunkOverlap > 0 && |chunks| > 1
      ensures overlapped == Overlap(chunks, chunkOverlap)
    {
      overlapped := [chunks[0]];
      for idx := 1 to |chunks|
        invariant |overlapped| == idx && overlapped[0] == chunks[0]
        invariant forall j :: 0 < j < idx ==> overlapped[j] == Overlapped(chunks, chunkOverlap, j)
      {
        var tail := Tail(chunks[idx - 1], chunkOverlap);
        overlapped := overlapped + [Strip(tail + " " + chunks[idx])];
      }
      OverlapByPosition(overlapped, chunks, chunkOverlap);
    }

    /** `build_index`: the chunk list is rebuilt from scratch out of the
        documents, in order; the vectorizer is fit on it only when it is not
        empty, and otherwise the index is left unbuilt. */
    method BuildIndex(docs: seq<Document>)
      requires Valid()
      modifies this
      ensures Valid()
      ensures chunks == IndexChunks(docs, chunkSize, chunkOverlap)
      ensures built <==> chunks != []
      ensures !built ==> corpus == old(corpus)
    {
      chunks := [];
      for d := 0 to |docs|
        invariant chunks == IndexChunks(docs[..d], chunkSize, chunkOverlap)
        invariant built == old(built) && corpus == old(corpus)
      {
        var pieces := SplitText(docs[d].text);
        AppendChunks(pieces, docs[d].source);
        IndexChunksPrefix(docs, d, chunkSize, chunkOverlap);
      }
      assert docs[..|docs|] == docs;
      var texts := ChunkTexts(chunks);
      if texts == [] {
        built := false;
        return;
      }
      corpus := texts;
      built := true;
    }

    /** The inner loop of `build_index`: one `Chunk` per piece of a document,
        tagged with the document's name, appended in order. */
    method AppendChunks(pieces: seq<string>, source: string)
      modifies this
      ensures chunks == old(chunks) + Tag(pieces, source)
      ensures built == old(built) && corpus == old(corpus)
    {
      for j := 0 to |pieces|
        invariant chunks == old(chunks) + Tag(pieces[..j], source)
        invariant built == old(built) && corpus == old(corpus)
      {
        TagSnoc(pieces, j, source);
        chunks := chunks + [Chunk(pieces[j], source)];
      }
      assert pieces[..|pieces|] == pieces;
    }

    /** What `retrieve` returns once the index is in its current state. */
    function Ranked(query: string, topK: int, sim: Similarity): (r: seq<Chunk>)
      reads this
      requires Valid()
      ensures |r| == if built then SliceLength(|chunks|, topK) else 0
      ensures forall p :: 0 <= p < |r| ==> r[p] in chunks
    {
      if built then
        var scores := Scores(corpus, query, sim, |chunks|);
        SelectionProperties(chunks, scores, topK);
        Pick(chunks, TopIndices(scores, topK))
      else []
    }

    /** `retrieve`: builds the index on first use, returns nothing while the
        index is unbuilt, and otherwise the `top_k` best-scoring chunks. */
    method Retrieve(query: string, docs: seq<Document>, sim: Similarity, topK: int := DefaultTopK)
      returns (result: seq<Chunk>)
      requires Valid()
      modifies this
      ensures Valid()
      ensures old(built) ==> built && chunks == old(chunks) && corpus == old(corpus)
      ensures !old(built) ==> chunks == IndexChunks(docs, chunkSize, chunkOverlap)
      ensures result == Ranked(query, topK, sim)
      ensures !built ==> result == []
    {
      if !built {
        BuildIndex(docs);
      }
      if !built {
        return [];
      }
      var scores := Scores(corpus, query, sim, |chunks|);
      var top := TopIndices(scores, topK);
      result := Pick(chunks, top);
    }

    /** `answer`: retrieval followed by the extractive formatting. */
    method Answer(query: string, docs: seq<Document>, sim: Similarity, topK: int := DefaultTopK)
      returns (response: string, hits: seq<Chunk>)
      requires Valid()
      modifies this
      ensures Valid()
      ensures old(built) ==> built && chunks == old(chunks) && corpus == old(corpus)
      ensures !old(built) ==> chunks == IndexChunks(docs, chunkSize, chunkOverlap)
      ensures (response, hits) == Synthesize(query, Ranked(query, topK, sim))
      ensures response == NoData <==> hits == []
    {
      var found := Retrieve(query, docs, sim, topK);
      NoDataIffEmpty(query, found);
      var r := Synthesize(query, found);
      response, hits := r.0, r.1;
    }
  }
}
