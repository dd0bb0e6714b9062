/** The extractive answer `SimpleRAG.answer` builds from the retrieved
    chunks: a list of entries joined with newlines. The entries are the
    question, a header, one bullet per chunk in retrieved order, and the
    distinct sources in sorted order. An entry whose text holds a newline,
    such as a chunk cut from a hard-wrapped file, spans several lines of the
    joined answer. */
module Synthesis {
  import opened Text
  import opened Corpus

  /** The sentinel returned when nothing was retrieved. */
  const NoData: string := "No data found."

  /** Strictly increasing in Python's string order: sorted and duplicate-free. */
  predicate StrictlySorted(xs: seq<string>) {
    forall p, q :: 0 <= p < q < |xs| ==> Below(xs[p], xs[q])
  }

  lemma ConsSorted(x: string, rest: seq<string>)
    requires StrictlySorted(rest)
    requires rest != [] ==> Below(x, rest[0])
    ensures StrictlySorted([x] + rest)
  {
    var r := [x] + rest;
    forall p, q | 0 <= p < q < |r| ensures Below(r[p], r[q]) {
      if p == 0 && q > 1 {
        BelowTransitive(x, rest[0], rest[q - 1]);
      }
    }
  }

  /** Adds `x` to a strictly sorted list unless it is already there. */
  function InsertSorted(xs: seq<string>, x: string): (r: seq<string>)
    requires StrictlySorted(xs)
    ensures StrictlySorted(r)
    ensures forall y :: y in r <==> y in xs || y == x
    ensures r != [] && (r[0] == x || (xs != [] && r[0] == xs[0]))
  {
    if xs == [] then [x]
    else if x == xs[0] then xs
    else if Below(x, xs[0]) then
      ConsSorted(x, xs);
      [x] + xs
    else
      BelowTotal(x, xs[0]);
      var rest := InsertSorted(xs[1..], x);
      assert rest[0] == x || rest[0] == xs[1];
      ConsSorted(xs[0], rest);
      assert forall y :: y in xs <==> y == xs[0] || y in xs[1..];
      [xs[0]] + rest
  }

  /** `sorted(set(xs))`: each distinct element once, in increasing order. */
  function SortedDistinct(xs: seq<string>): (r: seq<string>)
    ensures StrictlySorted(r)
    ensures forall y :: y in r <==> y in xs
  {
    if xs == [] then []
    else
      var r := InsertSorted(SortedDistinct(xs[..|xs| - 1]), xs[|xs| - 1]);
      assert forall y :: y in xs <==> y in xs[..|xs| - 1] || y == xs[|xs| - 1];
      r
  }

  /** A strictly sorted list is determined by its elements, so `SortedDistinct`
      is the one sorted, duplicate-free listing of them. */
  lemma {:induction false} SortedUnique(a: seq<string>, b: seq<string>)
    requires StrictlySorted(a) && StrictlySorted(b)
    requires forall y :: y in a <==> y in b
    ensures a == b
    decreases |a|
  {
    if a != [] {
      assert a[0] in b;
      assert b != [];
      assert b[0] in a;
      if a[0] != b[0] {
        var p :| 0 <= p < |a| && a[p] == b[0];
        var q :| 0 <= q < |b| && b[q] == a[0];
        BelowTransitive(a[0], b[0], a[0]);
        BelowIrreflexive(a[0]);
        assert false;
      }
      forall y ensures y in a[1..] <==> y in b[1..] {
        SortedTailMembers(a, y);
        SortedTailMembers(b, y);
      }
      SortedUnique(a[1..], b[1..]);
      assert a == [a[0]] + a[1..] && b == [b[0]] + b[1..];
    } else {
      NoMembersEmpty(b);
    }
  }

  /** A list with no elements is the empty list. */
  lemma NoMembersEmpty(b: seq<string>)
    ensures (forall y :: y !in b) ==> b == []
  {
    if b != [] {
      assert b[0] in b;
    }
  }

  /** The tail of a strictly sorted list holds everything but its head. */
  lemma SortedTailMembers(a: seq<string>, y: string)
    requires StrictlySorted(a) && a != []
    ensures y in a[1..] <==> y in a && y != a[0]
  {
    if y in a[1..] {
      var p :| 0 <= p < |a[1..]| && a[1..][p] == y;
      assert Below(a[0], a[p + 1]);
      BelowIrreflexive(a[0]);
    }
    if y in a && y != a[0] {
      var p :| 0 <= p < |a| && a[p] == y;
      assert a[1..][p - 1] == y;
    }
  }

  /** The distinct sources of the chunks, sorted. */
  function Sources(chunks: seq<Chunk>): seq<string> {
    SortedDistinct(seq(|chunks|, i requires 0 <= i < |chunks| => chunks[i].source))
  }

  /** One `- text` entry per chunk, in the order given. */
  function Bullets(chunks: seq<Chunk>): seq<string> {
    seq(|chunks|, i requires 0 <= i < |chunks| => "- " + chunks[i].text)
  }

  /** The entries of a non-empty answer, before they are joined with newlines. */
  function ResponseLines(query: string, chunks: seq<Chunk>): seq<string> {
    ["Question: " + query, "Answer (extractive):"] + Bullets(chunks) + ["Sources: " + Join(Sources(chunks), ", ")]
  }

  /** The formatting half of `answer`: the sentinel and no chunks when
      nothing was retrieved, otherwise the answer's entries joined by newlines
      and the retrieved chunks unchanged. */
  function Synthesize(query: string, chunks: seq<Chunk>): (r: (string, seq<Chunk>))
    ensures chunks == [] ==> r == (NoData, [])
    ensures chunks != [] ==> r.1 == chunks
  {
    if chunks == [] then (NoData, []) else (Join(ResponseLines(query, chunks), "\n"), chunks)
  }

  /** The sources line lists exactly the chunks' sources, each once, sorted. */
  lemma SourcesExact(chunks: seq<Chunk>, x: string)
    ensures StrictlySorted(Sources(chunks))
    ensures x in Sources(chunks) <==> exists i :: 0 <= i < |chunks| && chunks[i].source == x
  {
    var srcs := seq(|chunks|, i requires 0 <= i < |chunks| => chunks[i].source);
    if x in srcs {
      var i :| 0 <= i < |srcs| && srcs[i] == x;
      assert chunks[i].source == x;
    }
    if exists i :: 0 <= i < |chunks| && chunks[i].source == x {
      var i :| 0 <= i < |chunks| && chunks[i].source == x;
      assert srcs[i] == x;
    }
  }

  /** The answer is its entries joined with `"\n"`: the question is entry 0,
      the header entry 1, bullet `i` entry `i + 2` and the sources the last
      entry. An entry is one line of the answer only when its text holds no
      newline. */
  lemma AnswerLayout(query: string, chunks: seq<Chunk>)
    requires chunks != []
    ensures var lines := ResponseLines(query, chunks);
      && Synthesize(query, chunks).0 == Join(lines, "\n")
      && |lines| == |chunks| + 3
      && lines[0] == "Question: " + query
      && lines[1] == "Answer (extractive):"
      && (forall i :: 0 <= i < |chunks| ==> lines[i + 2] == "- " + chunks[i].text)
      && lines[|lines| - 1] == "Sources: " + Join(Sources(chunks), ", ")
  {
  }

  /** The sentinel is returned exactly when nothing was retrieved: a real
      answer starts with "Question: " and so never equals it. */
  lemma NoDataIffEmpty(query: string, chunks: seq<Chunk>)
    ensures Synthesize(query, chunks).0 == NoData <==> chunks == []
  {
    if chunks != [] {
      var lines := ResponseLines(query, chunks);
      forall i | 0 <= i < |lines| ensures lines[i] != [] {
        if 2 <= i < |lines| - 1 {
          assert lines[i] == "- " + chunks[i - 2].text;
        }
      }
      JoinEnds(lines, "\n");
      assert Synthesize(query, chunks).0[0] == 'Q';
    }
  }
}
