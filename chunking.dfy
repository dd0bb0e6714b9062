/** What `SimpleRAG._split_text` computes, as functions.
    - The greedy packing of sentence parts into chunks. A chunk is at most
      `size` characters long unless it is one part that is longer on its
      own, which is kept whole.
    - The overlap step. When `k > 0` and there are two or more chunks, every
      chunk after the first gets the last `k` characters of the pre-overlap
      chunk before it and a space in front, with leading whitespace stripped.
    The loops that compute the same thing are in `Rag.SimpleRag.SplitText`. */
module Chunking {
  import opened Text

  /** Parts joined by single spaces: the text of one pre-overlap chunk. */
  function Spaced(g: seq<string>): string {
    Join(g, " ")
  }

  /** The pre-overlap chunk texts of a list of groups. */
  function Texts(gs: seq<seq<string>>): seq<string> {
    seq(|gs|, i requires 0 <= i < |gs| => Spaced(gs[i]))
  }

  /** All groups laid end to end. */
  function Flatten(gs: seq<seq<string>>): seq<string>
    decreases |gs|
  {
    if gs == [] then [] else Flatten(gs[..|gs| - 1]) + gs[|gs| - 1]
  }

  /** The parts the packing loop does not skip (`if not part: continue`). */
  function NonEmpty(parts: seq<string>): seq<string>
    decreases |parts|
  {
    if parts == [] then []
    else NonEmpty(parts[..|parts| - 1]) + (if parts[|parts| - 1] == [] then [] else [parts[|parts| - 1]])
  }

  lemma {:induction false} NonEmptyMembers(parts: seq<string>)
    ensures forall x :: x in NonEmpty(parts) ==> x in parts && x != []
    decreases |parts|
  {
    if parts != [] {
      var init := parts[..|parts| - 1];
      NonEmptyMembers(init);
      forall x | x in init ensures x in parts {
        var i :| 0 <= i < |init| && init[i] == x;
        assert parts[i] == x;
      }
    }
  }

  /** State of the packing loop: the groups already flushed to `chunks` and
      the group whose text is `current`. */
  datatype PackState = PackState(done: seq<seq<string>>, current: seq<string>)

  /** One iteration of the packing loop. */
  function Step(st: PackState, part: string, size: int): PackState {
    if part == [] then st
    else if |Spaced(st.current)| + |part| + 1 <= size then PackState(st.done, st.current + [part])
    else PackState(if st.current != [] then st.done + [st.current] else st.done, [part])
  }

  /** The packing loop's state after the given parts. */
  function PackPrefix(parts: seq<string>, size: int): PackState
    decreases |parts|
  {
    if parts == [] then PackState([], [])
    else Step(PackPrefix(parts[..|parts| - 1], size), parts[|parts| - 1], size)
  }

  /** The groups once the final `current` has been flushed. */
  function Groups(parts: seq<string>, size: int): seq<seq<string>> {
    var st := PackPrefix(parts, size);
    if st.current != [] then st.done + [st.current] else st.done
  }

  /** The pre-overlap chunks. */
  function Pack(parts: seq<string>, size: int): seq<string> {
    Texts(Groups(parts, size))
  }

  /** A group is within the size bound, or is a single part. */
  predicate Fits(g: seq<string>, size: int) {
    |g| == 1 || |Spaced(g)| <= size
  }

  /** Each group was closed only because the first part of the next one did
      not fit beside it. */
  predicate Greedy(gs: seq<seq<string>>, size: int) {
    forall i :: 1 <= i < |gs| ==> gs[i] != [] && |Spaced(gs[i - 1])| + |gs[i][0]| + 1 > size
  }

  /** What the packing loop keeps true, iteration by iteration. */
  predicate PackInvariant(parts: seq<string>, st: PackState, size: int) {
    && Flatten(st.done) + st.current == NonEmpty(parts)
    && (forall i :: 0 <= i < |st.done| ==> st.done[i] != [] && Fits(st.done[i], size))
    && (st.current != [] ==> Fits(st.current, size))
    && (st.current == [] ==> st.done == [])
    && Greedy(st.done, size)
    && (st.done != [] && st.current != [] ==>
          |Spaced(st.done[|st.done| - 1])| + |st.current[0]| + 1 > size)
  }

  lemma {:induction false} PackPrefixInvariant(parts: seq<string>, size: int)
    ensures PackInvariant(parts, PackPrefix(parts, size), size)
    decreases |parts|
  {
    if parts != [] {
      var init := parts[..|parts| - 1];
      PackPrefixInvariant(init, size);
      assert parts == init + [parts[|parts| - 1]];
      StepKeepsInvariant(init, PackPrefix(init, size), parts[|parts| - 1], size);
    }
  }

  /** One iteration of the packing loop keeps its invariant. */
  lemma StepKeepsInvariant(parts: seq<string>, st: PackState, p: string, size: int)
    requires PackInvariant(parts, st, size)
    ensures PackInvariant(parts + [p], Step(st, p, size), size)
  {
    var parts' := parts + [p];
    assert parts'[..|parts'| - 1] == parts;
    var st' := Step(st, p, size);
    if p == [] {
      assert NonEmpty(parts') == NonEmpty(parts);
    } else if |Spaced(st.current)| + |p| + 1 <= size {
      assert NonEmpty(parts') == NonEmpty(parts) + [p];
      if st.current != [] {
        assert st'.current[..|st'.current| - 1] == st.current;
        assert st'.current[0] == st.current[0];
      }
    } else if st.current != [] {
      FlushKeepsInvariant(parts, st, p, size);
    } else {
      assert NonEmpty(parts') == NonEmpty(parts) + [p];
    }
  }

  /** The case where `current` is flushed to `chunks` and restarted with `p`. */
  lemma FlushKeepsInvariant(parts: seq<string>, st: PackState, p: string, size: int)
    requires PackInvariant(parts, st, size)
    requires p != [] && st.current != [] && |Spaced(st.current)| + |p| + 1 > size
    ensures PackInvariant(parts + [p], PackState(st.done + [st.current], [p]), size)
  {
    var parts' := parts + [p];
    assert parts'[..|parts'| - 1] == parts;
    assert NonEmpty(parts') == NonEmpty(parts) + [p];
    var d := st.done + [st.current];
    assert d[..|d| - 1] == st.done;
    assert Flatten(d) == Flatten(st.done) + st.current;
    GreedySnoc(st.done, st.current, size);
  }

  /** Closing a group that did not fit after the last one keeps the groups
      greedy. */
  lemma GreedySnoc(done: seq<seq<string>>, cur: seq<string>, size: int)
    requires Greedy(done, size) && cur != []
    requires done != [] ==> |Spaced(done[|done| - 1])| + |cur[0]| + 1 > size
    ensures Greedy(done + [cur], size)
  {
    var d := done + [cur];
    forall i | 1 <= i < |d|
      ensures d[i] != [] && |Spaced(d[i - 1])| + |d[i][0]| + 1 > size
    {
      if i < |d| - 1 {
        assert d[i - 1] == done[i - 1] && d[i] == done[i];
      }
    }
  }

  /** The packing's invariant, read on the final groups. */
  lemma GroupsProperties(parts: seq<string>, size: int)
    ensures var gs := Groups(parts, size);
      && Flatten(gs) == NonEmpty(parts)
      && (forall i :: 0 <= i < |gs| ==> gs[i] != [] && Fits(gs[i], size))
      && Greedy(gs, size)
  {
    var st := PackPrefix(parts, size);
    PackPrefixInvariant(parts, size);
    if st.current != [] {
      var gs := st.done + [st.current];
      assert gs[..|gs| - 1] == st.done;
      GreedySnoc(st.done, st.current, size);
    }
  }


  lemma {:induction false} JoinTexts(gs: seq<seq<string>>)
    requires forall i :: 0 <= i < |gs| ==> gs[i] != []
    ensures Spaced(Texts(gs)) == Spaced(Flatten(gs))
    decreases |gs|
  {
    if gs != [] {
      var init := gs[..|gs| - 1];
      var g := gs[|gs| - 1];
      JoinTexts(init);
      assert Texts(gs) == Texts(init) + [Spaced(g)];
      if init == [] {
        assert Flatten(gs) == Flatten(init) + g == g;
        assert Texts(gs) == [Spaced(g)];
        assert Spaced([Spaced(g)]) == Spaced(g);
      } else {
        assert init[0] != [];
        assert Flatten(init) != [] by { FlattenNonEmpty(init); }
        JoinAppend(Texts(init), [Spaced(g)], " ");
        JoinAppend(Flatten(init), g, " ");
      }
    }
  }

  lemma {:induction false} FlattenNonEmpty(gs: seq<seq<string>>)
    requires gs != [] && gs[0] != []
    ensures Flatten(gs) != []
    decreases |gs|
  {
    if |gs| > 1 { FlattenNonEmpty(gs[..|gs| - 1]); }
  }

  /** Packing properties on the chunk texts: every pre-overlap chunk is
      non-empty and within the size bound unless it is one part alone;
      joining the chunks with single spaces gives back the non-empty parts
      joined with single spaces; and there are no chunks exactly when there
      are no non-empty parts. */
  lemma PackProperties(parts: seq<string>, size: int)
    ensures var cs := Pack(parts, size);
      && (forall i :: 0 <= i < |cs| ==> cs[i] != [] && (|cs[i]| <= size || cs[i] in parts))
      && Spaced(cs) == Spaced(NonEmpty(parts))
      && (cs == [] <==> NonEmpty(parts) == [])
  {
    var gs := Groups(parts, size);
    GroupsProperties(parts, size);
    NonEmptyMembers(parts);
    JoinTexts(gs);
    forall i | 0 <= i < |gs| ensures Spaced(gs[i]) != [] && (|Spaced(gs[i])| <= size || Spaced(gs[i]) in parts) {
      GroupMembers(parts, size, i);
      JoinEnds(gs[i], " ");
      if |gs[i]| == 1 {
        assert gs[i][0] in gs[i];
      }
    }
    if gs != [] {
      FlattenNonEmpty(gs);
    }
  }

  lemma {:induction false} FlattenContains(gs: seq<seq<string>>, i: nat)
    requires i < |gs|
    ensures forall x :: x in gs[i] ==> x in Flatten(gs)
    decreases |gs|
  {
    if i < |gs| - 1 {
      FlattenContains(gs[..|gs| - 1], i);
    }
  }

  /** Every part in the group being filled is a non-empty input part. */
  lemma CurrentMembers(parts: seq<string>, size: int)
    ensures forall x :: x in PackPrefix(parts, size).current ==> x in parts && x != []
  {
    var st := PackPrefix(parts, size);
    PackPrefixInvariant(parts, size);
    NonEmptyMembers(parts);
    forall x | x in st.current ensures x in NonEmpty(parts) {
      assert x in Flatten(st.done) + st.current;
    }
  }

  /** With stripped parts, `f"{current} {part}".strip()` is the group's text
      with `part` added. */
  lemma GrowCurrent(g: seq<string>, part: string)
    requires forall x :: x in g ==> x != [] && Trimmed(x)
    requires part != [] && Trimmed(part)
    ensures Strip(Spaced(g) + " " + part) == Spaced(g + [part])
  {
    var x := Spaced(g) + " " + part;
    assert x[|x| - 1] == part[|part| - 1];
    if g == [] {
      assert x == " " + part;
      assert x[1..] == part;
      StripKeepsEnd(x);
      assert [] + [part] == [part];
    } else {
      forall i | 0 <= i < |g| ensures g[i] != [] { assert g[i] in g; }
      JoinEnds(g, " ");
      assert g[0] in g && g[|g| - 1] in g;
      assert x[0] == Spaced(g)[0];
      StripOfTrimmed(x);
      assert (g + [part])[..|g|] == g;
    }
  }

  /** A group of non-empty parts has empty text only when it has no parts. */
  lemma SpacedEmpty(g: seq<string>)
    requires forall x :: x in g ==> x != []
    ensures Spaced(g) == [] <==> g == []
  {
    if g != [] {
      forall i | 0 <= i < |g| ensures g[i] != [] { assert g[i] in g; }
      JoinEnds(g, " ");
    }
  }

  lemma TextsSnoc(gs: seq<seq<string>>, g: seq<string>)
    ensures Texts(gs + [g]) == Texts(gs) + [Spaced(g)]
  {
  }

  lemma {:induction false} ConcatSnoc(xs: seq<string>, y: string)
    ensures Concat(xs + [y]) == Concat(xs) + y
    decreases |xs|
  {
    if xs == [] {
      assert [] + [y] == [y];
      assert Concat([y]) == y + Concat([]);
    } else {
      assert (xs + [y])[1..] == xs[1..] + [y];
      ConcatSnoc(xs[1..], y);
    }
  }

  /** Joining with spaces adds only whitespace to the concatenation. */
  lemma {:induction false} NonSpaceSpaced(xs: seq<string>)
    ensures NonSpace(Spaced(xs)) == NonSpace(Concat(xs))
    decreases |xs|
  {
    if |xs| == 1 {
      assert xs[1..] == [];
      assert Concat(xs) == xs[0] + Concat(xs[1..]) == xs[0];
    } else if |xs| > 1 {
      var init := xs[..|xs| - 1];
      var y := xs[|xs| - 1];
      NonSpaceSpaced(init);
      assert xs == init + [y];
      ConcatSnoc(init, y);
      NonSpaceAppend(Spaced(init) + " ", y);
      NonSpaceAppend(Spaced(init), " ");
      NonSpaceAppend(Concat(init), y);
      assert NonSpace(" ") == [] by { NonSpaceOfSpaces(" "); }
    }
  }

  /** Skipping empty parts does not change the concatenation. */
  lemma {:induction false} ConcatNonEmpty(parts: seq<string>)
    ensures Concat(NonEmpty(parts)) == Concat(parts)
    decreases |parts|
  {
    if parts != [] {
      var init := parts[..|parts| - 1];
      var y := parts[|parts| - 1];
      ConcatNonEmpty(init);
      assert parts == init + [y];
      ConcatSnoc(init, y);
      assert NonEmpty(parts) == NonEmpty(init) + (if y == [] then [] else [y]);
      if y != [] {
        ConcatSnoc(NonEmpty(init), y);
      } else {
        assert NonEmpty(init) + [] == NonEmpty(init);
        assert Concat(init) + y == Concat(init);
      }
    }
  }

  /** Stripping removes whitespace only. */
  lemma StripKeepsText(text: string)
    ensures NonSpace(Strip(text)) == NonSpace(text)
  {
    var r := Strip(text);
    var l := LeadingSpaces(text);
    StripProperties(text);
    LeadingSpacesRun(text);
    assert text == text[..l] + r + text[l + |r|..];
    NonSpaceAppend(text[..l] + r, text[l + |r|..]);
    NonSpaceAppend(text[..l], r);
    NonSpaceOfSpaces(text[..l]);
    NonSpaceOfSpaces(text[l + |r|..]);
  }

  /** Nothing is lost or invented by the packing: the pre-overlap chunks,
      joined with spaces, hold exactly the non-whitespace characters of the
      text, in order. */
  lemma PackKeepsText(text: string, size: int)
    ensures NonSpace(Spaced(Pack(SplitSentences(Strip(text)), size))) == NonSpace(text)
  {
    var parts := SplitSentences(Strip(text));
    PackProperties(parts, size);
    NonSpaceSpaced(NonEmpty(parts));
    ConcatNonEmpty(parts);
    SplitKeepsText(Strip(text), []);
    assert [] + Strip(text) == Strip(text);
    StripKeepsText(text);
  }

  /** While everything read so far fits in one chunk, nothing is flushed. */
  lemma {:induction false} ShortPrefix(parts: seq<string>, size: int)
    requires |Spaced(NonEmpty(parts))| <= size
    ensures PackPrefix(parts, size) == PackState([], NonEmpty(parts))
    decreases |parts|
  {
    if parts != [] {
      var init := parts[..|parts| - 1];
      var p := parts[|parts| - 1];
      var ne := NonEmpty(init);
      assert NonEmpty(parts) == ne + (if p == [] then [] else [p]);
      if p != [] && ne != [] {
        assert (ne + [p])[..|ne|] == ne;
        assert |Spaced(ne + [p])| == |Spaced(ne)| + 1 + |p|;
      }
      if p != [] && ne == [] {
        assert ne + [p] == [p];
      }
      if p == [] {
        assert ne + [] == ne;
      }
      ShortPrefix(init, size);
    }
  }

  /** A text whose sentences fit within `size` once joined gives exactly one
      chunk: its sentences joined with single spaces, and the overlap step
      leaves a single chunk alone. */
  lemma ShortTextOneChunk(text: string, size: int, k: int)
    requires !AllSpace(text)
    requires |Spaced(NonEmpty(SplitSentences(Strip(text))))| <= size
    ensures Segment(text, size, k) == [Spaced(NonEmpty(SplitSentences(Strip(text))))]
  {
    var parts := SplitSentences(Strip(text));
    ShortPrefix(parts, size);
    SegmentProperties(text, size, k);
    PackProperties(parts, size);
    assert NonEmpty(parts) != [];
  }

  // ---------------------------------------------------------------------
  // Overlap

  /** Python's `s[-k:]` for `k > 0`: the last `min(k, |s|)` characters. */
  function Tail(s: string, k: int): (t: string)
    requires k > 0
  {
    if k >= |s| then s else s[|s| - k..]
  }

  /** The overlap step: when `k > 0` and there are at least two chunks, each
      chunk after the first is prefixed by the tail of the pre-overlap chunk
      before it, joined by a space and stripped. Otherwise the chunks are
      returned as they are. */
  function Overlap(pre: seq<string>, k: int): (out: seq<string>)
    ensures |out| == |pre|
  {
    if k > 0 && |pre| > 1 then OverlapPrefix(pre, k, |pre|) else pre
  }

  /** Chunk `i > 0` after the overlap step: `f"{tail} {chunk}".strip()`. */
  function Overlapped(pre: seq<string>, k: int, i: nat): string
    requires k > 0 && 0 < i < |pre|
  {
    Strip(Tail(pre[i - 1], k) + " " + pre[i])
  }

  /** Chunk `i` after the overlap step (with `k > 0` and two or more chunks). */
  function OverlapElem(pre: seq<string>, k: int, i: nat): string
    requires k > 0 && i < |pre|
  {
    if i == 0 then pre[0] else Overlapped(pre, k, i)
  }

  /** The first `n` chunks of the overlap step. */
  function OverlapPrefix(pre: seq<string>, k: int, n: nat): (out: seq<string>)
    requires k > 0 && n <= |pre|
    ensures |out| == n
    decreases n
  {
    if n == 0 then [] else OverlapPrefix(pre, k, n - 1) + [OverlapElem(pre, k, n - 1)]
  }

  lemma {:induction false} OverlapPrefixAt(pre: seq<string>, k: int, n: nat, i: nat)
    requires k > 0 && i < n <= |pre|
    ensures OverlapPrefix(pre, k, n)[i] == OverlapElem(pre, k, i)
    decreases n
  {
    var front := OverlapPrefix(pre, k, n - 1);
    SnocAt(front, OverlapElem(pre, k, n - 1), i);
    if i < n - 1 {
      OverlapPrefixAt(pre, k, n - 1, i);
    }
  }

  lemma SnocAt<T>(xs: seq<T>, x: T, i: nat)
    requires i <= |xs|
    ensures (xs + [x])[i] == if i < |xs| then xs[i] else x
  {
  }

  /** Chunk `i` after the overlap step: the first chunk unchanged, every
      other one joined to the tail of the pre-overlap chunk before it. */
  lemma OverlapAt(pre: seq<string>, k: int, i: nat)
    requires k > 0 && |pre| > 1 && i < |pre|
    ensures Overlap(pre, k)[i] == if i == 0 then pre[0] else Overlapped(pre, k, i)
  {
    OverlapPrefixAt(pre, k, |pre|, i);
    assert Overlap(pre, k)[i] == OverlapElem(pre, k, i);
  }

  /** A list that agrees with the overlap step position by position is it. */
  lemma OverlapByPosition(out: seq<string>, pre: seq<string>, k: int)
    requires k > 0 && |pre| > 1 && |out| == |pre| && out[0] == pre[0]
    requires forall j :: 0 < j < |pre| ==> out[j] == Overlapped(pre, k, j)
    ensures out == Overlap(pre, k)
  {
    forall i | 0 <= i < |pre| ensures out[i] == Overlap(pre, k)[i] {
      OverlapAt(pre, k, i);
    }
  }

  /** `_split_text` as a whole. */
  function Segment(text: string, size: int, k: int): seq<string> {
    Overlap(Pack(SplitSentences(Strip(text)), size), k)
  }

  /** The shape of an overlapped chunk: with `k > 0`, chunk `i > 0` is a
      non-empty suffix of at most `k` characters of pre-overlap chunk `i - 1`,
      a space, and pre-overlap chunk `i` itself. */
  lemma OverlapShape(pre: seq<string>, k: int, i: nat)
    requires k > 0 && |pre| > 1 && 0 < i < |pre|
    requires forall j :: 0 <= j < |pre| ==> pre[j] != [] && Trimmed(pre[j])
    ensures var out := Overlap(pre, k);
      var prev := pre[i - 1];
      var n := |out[i]| - 1 - |pre[i]|;
      |out| == |pre| && out[0] == pre[0] &&
      0 < n <= k && n <= |prev| && out[i] == prev[|prev| - n..] + " " + pre[i]
  {
    OverlapAt(pre, k, 0);
    OverlapAt(pre, k, i);
    assert pre[i - 1] != [] && Trimmed(pre[i - 1]);
    assert pre[i] != [] && Trimmed(pre[i]);
    TailJoin(pre[i - 1], pre[i], k);
  }

  /** Stripping `tail + " " + c` only removes the tail's leading spaces, and
      what remains of the tail is a non-empty suffix of the previous chunk. */
  lemma TailJoin(prev: string, c: string, k: int)
    requires k > 0 && prev != [] && Trimmed(prev) && c != [] && Trimmed(c)
    ensures var r := Strip(Tail(prev, k) + " " + c);
      var n := |r| - 1 - |c|;
      0 < n <= k && n <= |prev| && r == prev[|prev| - n..] + " " + c
  {
    var t := Tail(prev, k);
    var x := t + " " + c;
    assert t[|t| - 1] == prev[|prev| - 1];
    assert !AllSpace(t);
    LeadingSpacesAppend(t, " " + c);
    assert x == t + (" " + c);
    assert x[|x| - 1] == c[|c| - 1];
    StripKeepsEnd(x);
    var l := LeadingSpaces(t);
    LeadingSpacesRun(t);
    assert l < |t|;
    assert x[l..] == t[l..] + " " + c;
    var n := |t| - l;
    assert t[l..] == prev[|prev| - n..];
  }

  /** Segmenting: empty or whitespace-only text gives no chunks; otherwise
      the overlap step keeps the number of chunks, leaves the first alone,
      and when it does not apply the pre-overlap chunks come back unchanged. */
  lemma SegmentProperties(text: string, size: int, k: int)
    ensures var parts := SplitSentences(Strip(text));
      var pre := Pack(parts, size);
      var out := Segment(text, size, k);
      && (out == [] <==> AllSpace(text))
      && |out| == |pre|
      && (pre != [] ==> out[0] == pre[0])
      && (k <= 0 || |pre| < 2 ==> out == pre)
      && (forall j :: 0 <= j < |pre| ==> pre[j] != [] && Trimmed(pre[j]))
  {
    var s := Strip(text);
    var parts := SplitSentences(s);
    var pre := Pack(parts, size);
    StripProperties(text);
    PackProperties(parts, size);
    PartsTrimmed(text);
    if s == [] {
      assert parts == [""];
      assert NonEmpty(parts) == NonEmpty([]) + [];
    } else {
      SplitParts(s, []);
      assert [] + s == s;
      assert parts[0] in parts;
      NonEmptyHasFirst(parts);
    }
    forall j | 0 <= j < |pre| ensures pre[j] != [] && Trimmed(pre[j]) {
      ChunkTrimmed(parts, size, j);
    }
    if k > 0 && |pre| > 1 {
      OverlapAt(pre, k, 0);
    }
  }

  /** A group holds non-empty parts only, all taken from the input. */
  lemma GroupMembers(parts: seq<string>, size: int, i: nat)
    requires i < |Groups(parts, size)|
    ensures var g := Groups(parts, size)[i];
      g != [] && forall j :: 0 <= j < |g| ==> g[j] != [] && g[j] in parts
  {
    var gs := Groups(parts, size);
    GroupsProperties(parts, size);
    NonEmptyMembers(parts);
    FlattenContains(gs, i);
    var g := gs[i];
    forall j | 0 <= j < |g| ensures g[j] != [] && g[j] in parts {
      assert g[j] in g;
    }
  }

  /** A pre-overlap chunk of stripped parts is itself stripped and non-empty. */
  lemma ChunkTrimmed(parts: seq<string>, size: int, i: nat)
    requires forall p :: p in parts ==> Trimmed(p)
    requires i < |Pack(parts, size)|
    ensures Pack(parts, size)[i] != [] && Trimmed(Pack(parts, size)[i])
  {
    var g := Groups(parts, size)[i];
    GroupMembers(parts, size, i);
    JoinEnds(g, " ");
    assert g[0] in parts && g[|g| - 1] in parts;
  }

  lemma {:induction false} NonEmptyHasFirst(parts: seq<string>)
    requires parts != [] && parts[0] != []
    ensures NonEmpty(parts) != []
    decreases |parts|
  {
    if |parts| > 1 { NonEmptyHasFirst(parts[..|parts| - 1]); }
  }

  /** Every part of the stripped text is itself stripped. */
  lemma PartsTrimmed(text: string)
    ensures forall p :: p in SplitSentences(Strip(text)) ==> Trimmed(p)
  {
    var s := Strip(text);
    StripProperties(text);
    if s != [] {
      assert [] + s == s;
      SplitParts(s, []);
    }
  }
}
