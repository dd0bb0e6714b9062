/** The records the index holds and the chunk list `build_index` assembles
    from the documents. */
module Corpus {
  import opened Text
  import opened Chunking

  /** A chunk of document text and the name of the document it came from. */
  datatype Chunk = Chunk(text: string, source: string)

  /** One `(content, name)` pair as `load_documents` returns it. */
  datatype Document = Document(text: string, source: string)

  /** The chunks of one document, each tagged with its source. */
  function Tag(pieces: seq<string>, source: string): (cs: seq<Chunk>) {
    seq(|pieces|, i requires 0 <= i < |pieces| => Chunk(pieces[i], source))
  }

  /** The chunks of one document: its segments, tagged with its name. */
  function DocChunks(d: Document, size: int, k: int): seq<Chunk> {
    Tag(Segment(d.text, size, k), d.source)
  }

  /** The chunk list after a build: the documents' chunks, in document order. */
  function IndexChunks(docs: seq<Document>, size: int, k: int): seq<Chunk>
    decreases |docs|
  {
    if docs == [] then []
    else IndexChunks(docs[..|docs| - 1], size, k) + DocChunks(docs[|docs| - 1], size, k)
  }

  /** The texts handed to the vectorizer. */
  function ChunkTexts(cs: seq<Chunk>): seq<string>
  {
    seq(|cs|, i requires 0 <= i < |cs| => cs[i].text)
  }

  /** Building over two batches of documents gives the chunks of the first
      batch followed by those of the second. */
  lemma {:induction false} IndexChunksAppend(a: seq<Document>, b: seq<Document>, size: int, k: int)
    ensures IndexChunks(a + b, size, k) == IndexChunks(a, size, k) + IndexChunks(b, size, k)
    decreases |b|
  {
    if b == [] {
      assert a + b == a;
    } else {
      var b' := b[..|b| - 1];
      var d := b[|b| - 1];
      assert b == b' + [d];
      assert a + b == (a + b') + [d];
      var ca, cb', cd := IndexChunks(a, size, k), IndexChunks(b', size, k), DocChunks(d, size, k);
      IndexChunksSnoc(a + b', d, size, k);
      IndexChunksAppend(a, b', size, k);
      AppendAssoc(ca, cb', cd);
      IndexChunksSnoc(b', d, size, k);
    }
  }

  /** Adding a document at the end adds its chunks at the end. */
  lemma IndexChunksSnoc(docs: seq<Document>, d: Document, size: int, k: int)
    ensures IndexChunks(docs + [d], size, k) == IndexChunks(docs, size, k) + DocChunks(d, size, k)
  {
    assert (docs + [d])[..|docs|] == docs;
  }

  /** The chunks of the first `d + 1` documents. */
  lemma IndexChunksPrefix(docs: seq<Document>, d: nat, size: int, k: int)
    requires d < |docs|
    ensures IndexChunks(docs[..d + 1], size, k) ==
            IndexChunks(docs[..d], size, k) + Tag(Segment(docs[d].text, size, k), docs[d].source)
  {
    assert docs[..d + 1] == docs[..d] + [docs[d]];
    IndexChunksSnoc(docs[..d], docs[d], size, k);
  }

  lemma TagSnoc(pieces: seq<string>, j: nat, source: string)
    requires j < |pieces|
    ensures Tag(pieces[..j + 1], source) == Tag(pieces[..j], source) + [Chunk(pieces[j], source)]
  {
  }

  /** The chunks of one document are its segments, tagged with its name. */
  lemma OneDocument(d: Document, size: int, k: int)
    ensures IndexChunks([d], size, k) == Tag(Segment(d.text, size, k), d.source)
  {
    assert [d][..0] == [];
    assert IndexChunks([d], size, k) == [] + DocChunks(d, size, k);
  }

  /** The index is left without chunks exactly when every document is empty
      or whitespace only. */
  lemma {:induction false} IndexEmpty(docs: seq<Document>, size: int, k: int)
    ensures IndexChunks(docs, size, k) == [] <==> forall d :: d in docs ==> AllSpace(d.text)
    decreases |docs|
  {
    if docs != [] {
      var init := docs[..|docs| - 1];
      var d := docs[|docs| - 1];
      assert docs == init + [d];
      IndexChunksSnoc(init, d, size, k);
      IndexEmpty(init, size, k);
      DocChunksEmpty(d, size, k);
      assert forall x :: x in docs <==> x in init || x == d;
    }
  }

  /** A document contributes no chunks exactly when it is blank. */
  lemma DocChunksEmpty(d: Document, size: int, k: int)
    ensures DocChunks(d, size, k) == [] <==> AllSpace(d.text)
  {
    SegmentProperties(d.text, size, k);
  }

  /** Every chunk is tagged with the name of a document it was cut from, and
      its text is one of that document's segments. */
  lemma {:induction false} ChunkOrigin(docs: seq<Document>, size: int, k: int, i: nat)
    requires i < |IndexChunks(docs, size, k)|
    ensures exists d :: d in docs && IndexChunks(docs, size, k)[i].source == d.source &&
                        IndexChunks(docs, size, k)[i].text in Segment(d.text, size, k)
    decreases |docs|
  {
    var init := docs[..|docs| - 1];
    var d := docs[|docs| - 1];
    var before := IndexChunks(init, size, k);
    if i < |before| {
      ChunkOrigin(init, size, k, i);
      var e :| e in init && before[i].source == e.source && before[i].text in Segment(e.text, size, k);
      assert e in docs;
    } else {
      var seg := Segment(d.text, size, k);
      assert IndexChunks(docs, size, k)[i] == Chunk(seg[i - |before|], d.source);
    }
  }
}
