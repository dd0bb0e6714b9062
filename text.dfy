/** String primitives the chunker relies on: whitespace, `str.strip`, the
    sentence split `re.split(r"(?<=[.!?])\s+", ...)`, `str.join` and the
    code-point order Python's `sorted` uses on strings. Whitespace is the
    ASCII set; Python's `\s` and `str.strip` also accept other Unicode
    spaces. */
module Text {

  /** Whitespace as `\s` and `str.strip` see it, ASCII part only: tab to
      carriage return, the four separators and the space. */
  predicate IsSpace(c: char) {
    ('\t' <= c <= '\r') || ('\U{001C}' <= c <= ' ')
  }

  /** The characters the look-behind `(?<=[.!?])` accepts. */
  predicate IsSentenceEnd(c: char) {
    c == '.' || c == '!' || c == '?'
  }

  predicate AllSpace(s: string) {
    forall i :: 0 <= i < |s| ==> IsSpace(s[i])
  }

  /** Neither starts nor ends with whitespace: what `str.strip` returns. */
  predicate Trimmed(s: string) {
    s == [] || (!IsSpace(s[0]) && !IsSpace(s[|s| - 1]))
  }

  /** Number of whitespace characters at the front of `s`. */
  function LeadingSpaces(s: string): (n: nat)
    ensures n <= |s|
  {
    if s != [] && IsSpace(s[0]) then 1 + LeadingSpaces(s[1..]) else 0
  }

  /** Number of whitespace characters at the end of `s`. */
  function TrailingSpaces(s: string): (n: nat)
    ensures n <= |s|
  {
    if s != [] && IsSpace(s[|s| - 1]) then 1 + TrailingSpaces(s[..|s| - 1]) else 0
  }

  /** The leading whitespace is a maximal run of whitespace. */
  lemma {:induction false} LeadingSpacesRun(s: string)
    ensures var n := LeadingSpaces(s);
      AllSpace(s[..n]) && (n < |s| ==> !IsSpace(s[n]))
  {
    if s != [] && IsSpace(s[0]) {
      var m := LeadingSpaces(s[1..]);
      LeadingSpacesRun(s[1..]);
      assert s[..1 + m] == [s[0]] + s[1..][..m];
    }
  }

  /** The trailing whitespace is a maximal run of whitespace. */
  lemma {:induction false} TrailingSpacesRun(s: string)
    ensures var n := TrailingSpaces(s);
      AllSpace(s[|s| - n..]) && (n < |s| ==> !IsSpace(s[|s| - 1 - n]))
  {
    if s != [] && IsSpace(s[|s| - 1]) {
      var init := s[..|s| - 1];
      var m := TrailingSpaces(init);
      var n := 1 + m;
      TrailingSpacesRun(init);
      var w := s[|s| - n..];
      forall i | 0 <= i < |w| ensures IsSpace(w[i]) {
        if i < m {
          assert w[i] == init[|init| - m..][i];
        }
      }
      if n < |s| {
        assert s[|s| - 1 - n] == init[|init| - 1 - m];
      }
    }
  }


  /** `s` without its leading whitespace. */
  function TrimLeft(s: string): string {
    if s != [] && IsSpace(s[0]) then TrimLeft(s[1..]) else s
  }

  /** `s` without its trailing whitespace. */
  function TrimRight(s: string): string {
    if s != [] && IsSpace(s[|s| - 1]) then TrimRight(s[..|s| - 1]) else s
  }

  /** Python's `str.strip()`. */
  function Strip(s: string): string {
    TrimRight(TrimLeft(s))
  }

  lemma {:induction false} TrimLeftDrops(s: string)
    ensures TrimLeft(s) == s[LeadingSpaces(s)..]
  {
    if s != [] && IsSpace(s[0]) {
      TrimLeftDrops(s[1..]);
    }
  }

  lemma {:induction false} TrimRightTakes(s: string)
    ensures TrimRight(s) == s[..|s| - TrailingSpaces(s)]
  {
    if s != [] && IsSpace(s[|s| - 1]) {
      TrimRightTakes(s[..|s| - 1]);
    }
  }

  /** `str.strip()` returns the window of its input left after removing
      whitespace-only margins: nothing but whitespace lies outside it, it
      has no whitespace at either end, and it is empty exactly when the
      input is all whitespace. */
  lemma StripProperties(s: string)
    ensures var r := Strip(s);
      && Trimmed(r)
      && LeadingSpaces(s) + |r| <= |s|
      && r == s[LeadingSpaces(s)..LeadingSpaces(s) + |r|]
      && AllSpace(s[LeadingSpaces(s) + |r|..])
      && (r == [] <==> AllSpace(s))
  {
    var k := LeadingSpaces(s);
    var t := s[k..];
    StripIsWindow(s);
    StripWindow(s);
    TrimmedWindow(s, k, t, TrailingSpaces(t));
    StripEmpty(s);
  }

  /** `Strip(s)` is the window of `s` between its leading and its trailing
      whitespace. */
  lemma StripWindow(s: string)
    ensures var k := LeadingSpaces(s);
      var t := s[k..];
      var r := Strip(s);
      && k + |r| <= |s|
      && r == s[k..k + |r|]
      && AllSpace(s[k + |r|..])
  {
    var k := LeadingSpaces(s);
    var t := s[k..];
    var n := TrailingSpaces(t);
    StripIsWindow(s);
    TrailingSpacesRun(t);
    WindowSlices(s, k, t, n);
    assert |Strip(s)| == |t| - n;
  }

  lemma StripIsWindow(s: string)
    ensures var t := s[LeadingSpaces(s)..];
      Strip(s) == t[..|t| - TrailingSpaces(t)]
  {
    TrimLeftDrops(s);
    TrimRightTakes(s[LeadingSpaces(s)..]);
  }

  /** The window of `t == s[k..]` that stops before `n` trailing spaces, read
      as a slice of `s`. */
  lemma WindowSlices(s: string, k: nat, t: string, n: nat)
    requires k <= |s| && t == s[k..] && n <= |t| && AllSpace(t[|t| - n..])
    ensures k + (|t| - n) <= |s|
    ensures t[..|t| - n] == s[k..k + (|t| - n)]
    ensures AllSpace(s[k + (|t| - n)..])
  {
    DropSlices(s, k, |t| - n);
  }


  /** Slicing a suffix of `s` is slicing `s` itself, shifted by `k`. */
  lemma DropSlices(s: string, k: nat, a: nat)
    requires k <= |s| && a <= |s| - k
    ensures s[k..][..a] == s[k..k + a]
    ensures s[k..][a..] == s[k + a..]
  {
  }

  lemma StripEmpty(s: string)
    ensures Strip(s) == [] <==> AllSpace(s)
  {
    var k := LeadingSpaces(s);
    var t := s[k..];
    StripIsWindow(s);
    LeadingSpacesRun(s);
    if k == |s| {
      assert s[..k] == s;
    } else {
      assert t[0] == s[k];
      TrailingSpacesBound(t, 0);
    }
  }

  /** The trailing whitespace run stops before any non-space. */
  lemma {:induction false} TrailingSpacesBound(s: string, i: nat)
    requires i < |s| && !IsSpace(s[i])
    ensures TrailingSpaces(s) < |s| - i
  {
    if IsSpace(s[|s| - 1]) {
      var init := s[..|s| - 1];
      assert init[i] == s[i];
      TrailingSpacesBound(init, i);
    }
  }


  /** The window between the leading and the trailing whitespace starts and
      ends with a non-space. */
  lemma TrimmedWindow(s: string, k: nat, t: string, n: nat)
    requires k == LeadingSpaces(s) && t == s[k..] && n == TrailingSpaces(t)
    ensures Trimmed(t[..|t| - n])
  {
    LeadingSpacesRun(s);
    TrailingSpacesRun(t);
    var r := t[..|t| - n];
    if r != [] {
      assert r[0] == s[k];
      assert r[|r| - 1] == t[|t| - 1 - n];
    }
  }

  lemma StripOfTrimmed(s: string)
    requires Trimmed(s)
    ensures Strip(s) == s
  {
    StripProperties(s);
  }

  /** When `s` ends in a non-space, stripping only removes its leading spaces. */
  lemma StripKeepsEnd(s: string)
    requires s != [] && !IsSpace(s[|s| - 1])
    ensures Strip(s) == s[LeadingSpaces(s)..]
  {
    var k := LeadingSpaces(s);
    LeadingSpacesBound(s, |s| - 1);
    var t := s[k..];
    TrimLeftDrops(s);
    assert t[|t| - 1] == s[|s| - 1];
    assert TrimRight(t) == t;
  }

  /** The leading whitespace stops at the first non-space. */
  lemma {:induction false} LeadingSpacesBound(s: string, i: nat)
    requires i < |s| && !IsSpace(s[i])
    ensures LeadingSpaces(s) <= i
  {
    if IsSpace(s[0]) {
      assert s[1..][i - 1] == s[i];
      LeadingSpacesBound(s[1..], i - 1);
    }
  }

  /** The leading spaces of `a + b` are those of `a` once `a` has a non-space. */
  lemma {:induction false} LeadingSpacesAppend(a: string, b: string)
    requires !AllSpace(a)
    ensures LeadingSpaces(a + b) == LeadingSpaces(a)
  {
    if IsSpace(a[0]) {
      assert (a + b)[1..] == a[1..] + b;
      assert !AllSpace(a[1..]) by {
        var i :| 0 <= i < |a| && !IsSpace(a[i]);
        assert a[1..][i - 1] == a[i];
      }
      LeadingSpacesAppend(a[1..], b);
    }
  }

  // ---------------------------------------------------------------------
  // Sentence split

  /** No position inside `p` where the split pattern would match: a
      whitespace character never follows a sentence end. */
  predicate NoBoundary(p: string) {
    forall i :: 0 <= i < |p| - 1 && IsSentenceEnd(p[i]) ==> !IsSpace(p[i + 1])
  }

  /** `re.split(r"(?<=[.!?])\s+", cur + s)` where `cur` is the part read so far
      (the characters since the last split). A match is a maximal run of
      whitespace whose preceding character is `.`, `!` or `?`. */
  function SplitFrom(s: string, cur: string): seq<string>
    decreases |s|
  {
    if s == [] then [cur]
    else if IsSpace(s[0]) && cur != [] && IsSentenceEnd(cur[|cur| - 1]) then
      [cur] + SplitFrom(s[LeadingSpaces(s)..], [])
    else SplitFrom(s[1..], cur + [s[0]])
  }

  function SplitSentences(s: string): seq<string> {
    SplitFrom(s, [])
  }

  /** The characters of `s` that are not whitespace, in order. */
  function NonSpace(s: string): string {
    if s == [] then [] else (if IsSpace(s[0]) then [] else [s[0]]) + NonSpace(s[1..])
  }

  /** Concatenation of all parts, in order. */
  function Concat(ps: seq<string>): string {
    if ps == [] then [] else ps[0] + Concat(ps[1..])
  }

  lemma {:induction false} NonSpaceAppend(a: string, b: string)
    ensures NonSpace(a + b) == NonSpace(a) + NonSpace(b)
  {
    if a == [] {
      assert a + b == b;
    } else {
      var h := if IsSpace(a[0]) then [] else [a[0]];
      assert (a + b)[0] == a[0];
      assert (a + b)[1..] == a[1..] + b;
      assert NonSpace(a + b) == h + NonSpace(a[1..] + b);
      NonSpaceAppend(a[1..], b);
      assert h + (NonSpace(a[1..]) + NonSpace(b)) == (h + NonSpace(a[1..])) + NonSpace(b);
    }
  }

  lemma {:induction false} NonSpaceOfSpaces(w: string)
    requires AllSpace(w)
    ensures NonSpace(w) == []
  {
    if w != [] { NonSpaceOfSpaces(w[1..]); }
  }

  /** Dropping leading whitespace keeps the non-space characters. */
  lemma NonSpaceSkip(s: string)
    ensures NonSpace(s[LeadingSpaces(s)..]) == NonSpace(s)
  {
    var k := LeadingSpaces(s);
    LeadingSpacesRun(s);
    assert s == s[..k] + s[k..];
    NonSpaceAppend(s[..k], s[k..]);
    NonSpaceOfSpaces(s[..k]);
  }

  /** Splitting drops whitespace only: every non-space character survives, in order. */
  lemma {:induction false} SplitKeepsText(s: string, cur: string)
    ensures NonSpace(Concat(SplitFrom(s, cur))) == NonSpace(cur + s)
    decreases |s|
  {
    if s == [] {
      assert cur + s == cur;
      assert Concat([cur]) == cur + Concat([]);
    } else if IsSpace(s[0]) && cur != [] && IsSentenceEnd(cur[|cur| - 1]) {
      var k := LeadingSpaces(s);
      var rest := SplitFrom(s[k..], []);
      SplitKeepsText(s[k..], []);
      assert [] + s[k..] == s[k..];
      assert Concat([cur] + rest) == cur + Concat(rest) by {
        assert ([cur] + rest)[1..] == rest;
      }
      NonSpaceAppend(cur, Concat(rest));
      NonSpaceSkip(s);
      NonSpaceAppend(cur, s);
    } else {
      SplitKeepsText(s[1..], cur + [s[0]]);
      assert (cur + [s[0]]) + s[1..] == cur + s;
    }
  }

  /** The parts laid end to end with the runs `ws` between them:
      `ps[0] + ws[0] + ps[1] + ... + ws[n - 1] + ps[n]`. */
  function Interleave(ps: seq<string>, ws: seq<string>): string
    requires |ps| == |ws| + 1
    decreases |ws|
  {
    if ws == [] then ps[0] else ps[0] + ws[0] + Interleave(ps[1..], ws[1..])
  }

  /** The whitespace runs the split pattern matches in `cur + s`, in order. */
  function Gaps(s: string, cur: string): seq<string>
    decreases |s|
  {
    if s == [] then []
    else if IsSpace(s[0]) && cur != [] && IsSentenceEnd(cur[|cur| - 1]) then
      [s[..LeadingSpaces(s)]] + Gaps(s[LeadingSpaces(s)..], [])
    else Gaps(s[1..], cur + [s[0]])
  }

  /** Every run between two parts is non-empty whitespace and follows a part
      that ends a sentence. */
  predicate Separators(ps: seq<string>, ws: seq<string>)
    requires |ps| == |ws| + 1
  {
    forall i :: 0 <= i < |ws| ==>
      ws[i] != [] && AllSpace(ws[i]) && ps[i] != [] && IsSentenceEnd(ps[i][|ps[i]| - 1])
  }

  /** The split loses nothing: the parts, with the matched whitespace runs put
      back between them, are the input, character for character. */
  lemma {:induction false} SplitRoundTrip(s: string, cur: string)
    ensures var ps := SplitFrom(s, cur);
      var ws := Gaps(s, cur);
      |ps| == |ws| + 1 && Separators(ps, ws) && Interleave(ps, ws) == cur + s
    decreases |s|
  {
    if s == [] {
      assert cur + s == cur;
    } else if IsSpace(s[0]) && cur != [] && IsSentenceEnd(cur[|cur| - 1]) {
      var k := LeadingSpaces(s);
      SplitRoundTrip(s[k..], []);
      assert [] + s[k..] == s[k..];
      RoundTripCons(cur, s, SplitFrom(s[k..], []), Gaps(s[k..], []));
    } else {
      SplitRoundTrip(s[1..], cur + [s[0]]);
      assert (cur + [s[0]]) + s[1..] == cur + s;
    }
  }

  lemma AppendAssoc<T>(x: seq<T>, y: seq<T>, z: seq<T>)
    ensures (x + y) + z == x + (y + z)
  {
  }

  /** The boundary case of `SplitRoundTrip`: `cur` is closed and the
      whitespace run at the front of `s` becomes the next separator. */
  lemma RoundTripCons(cur: string, s: string, rest: seq<string>, ws: seq<string>)
    requires s != [] && IsSpace(s[0]) && cur != [] && IsSentenceEnd(cur[|cur| - 1])
    requires |rest| == |ws| + 1 && Separators(rest, ws)
    requires Interleave(rest, ws) == s[LeadingSpaces(s)..]
    ensures var ps := [cur] + rest;
      var ws' := [s[..LeadingSpaces(s)]] + ws;
      |ps| == |ws'| + 1 && Separators(ps, ws') && Interleave(ps, ws') == cur + s
  {
    var k := LeadingSpaces(s);
    LeadingSpacesRun(s);
    var ps := [cur] + rest;
    var ws' := [s[..k]] + ws;
    assert ps[1..] == rest && ws'[1..] == ws;
    SeparatorsCons(cur, rest, s[..k], ws);
    assert Interleave(ps, ws') == cur + s[..k] + Interleave(rest, ws);
    assert s == s[..k] + s[k..];
    AppendAssoc(cur, s[..k], s[k..]);
  }

  lemma SeparatorsCons(p: string, ps: seq<string>, w: string, ws: seq<string>)
    requires |ps| == |ws| + 1 && Separators(ps, ws)
    requires w != [] && AllSpace(w) && p != [] && IsSentenceEnd(p[|p| - 1])
    ensures Separators([p] + ps, [w] + ws)
  {
    var ps', ws' := [p] + ps, [w] + ws;
    forall i | 0 <= i < |ws'|
      ensures ws'[i] != [] && AllSpace(ws'[i]) && ps'[i] != [] && IsSentenceEnd(ps'[i][|ps'[i]| - 1])
    {
      if i > 0 {
        assert ws'[i] == ws[i - 1] && ps'[i] == ps[i - 1];
      }
    }
  }

  /** `re.split(r"(?<=[.!?])\s+", t)` read backwards: some choice of
      non-empty whitespace runs, each after a sentence end, put between the
      parts gives back `t`. */
  lemma SplitSentencesRoundTrip(t: string)
    ensures var ps := SplitSentences(t);
      exists ws :: |ps| == |ws| + 1 && Separators(ps, ws) && Interleave(ps, ws) == t
  {
    SplitRoundTrip(t, []);
    assert [] + t == t;
    var ws := Gaps(t, []);
    assert |SplitSentences(t)| == |ws| + 1 && Separators(SplitSentences(t), ws);
  }

  /** Shape of the parts when the input is stripped and non-empty: no part is
      empty or carries whitespace at either end, each part but the last ends
      a sentence, and no part contains a place where the pattern matches. */
  lemma {:induction false} SplitParts(s: string, cur: string)
    requires cur + s != [] && Trimmed(cur + s)
    requires NoBoundary(cur)
    ensures var ps := SplitFrom(s, cur);
      |ps| > 0 &&
      (forall i :: 0 <= i < |ps| ==> ps[i] != [] && Trimmed(ps[i]) && NoBoundary(ps[i])) &&
      (forall i :: 0 <= i < |ps| - 1 ==> IsSentenceEnd(ps[i][|ps[i]| - 1]))
    decreases |s|
  {
    var w := cur + s;
    if s == [] {
      assert w == cur;
    } else if IsSpace(s[0]) && cur != [] && IsSentenceEnd(cur[|cur| - 1]) {
      var k := LeadingSpaces(s);
      LeadingSpacesRun(s);
      assert s[|s| - 1] == w[|w| - 1];
      assert k < |s|;
      assert cur[0] == w[0];
      assert [] + s[k..] == s[k..];
      SplitParts(s[k..], []);
      var rest := SplitFrom(s[k..], []);
      assert SplitFrom(s, cur) == [cur] + rest;
      PartsCons(cur, rest);
    } else {
      var cur' := cur + [s[0]];
      assert cur' + s[1..] == w;
      NoBoundarySnoc(cur, s[0]);
      SplitParts(s[1..], cur');
    }
  }

  /** A closed part that ends a sentence, in front of well-formed parts,
      gives well-formed parts. */
  lemma PartsCons(cur: string, rest: seq<string>)
    requires cur != [] && Trimmed(cur) && NoBoundary(cur) && IsSentenceEnd(cur[|cur| - 1])
    requires |rest| > 0
    requires forall i :: 0 <= i < |rest| ==> rest[i] != [] && Trimmed(rest[i]) && NoBoundary(rest[i])
    requires forall i :: 0 <= i < |rest| - 1 ==> IsSentenceEnd(rest[i][|rest[i]| - 1])
    ensures var ps := [cur] + rest;
      (forall i :: 0 <= i < |ps| ==> ps[i] != [] && Trimmed(ps[i]) && NoBoundary(ps[i])) &&
      (forall i :: 0 <= i < |ps| - 1 ==> IsSentenceEnd(ps[i][|ps[i]| - 1]))
  {
    var ps := [cur] + rest;
    forall i | 0 < i < |ps| ensures ps[i] == rest[i - 1] {
    }
  }

  /** Extending a part by a character keeps it free of matches unless the
      character is whitespace after a sentence end. */
  lemma NoBoundarySnoc(cur: string, c: char)
    requires NoBoundary(cur)
    requires !(IsSpace(c) && cur != [] && IsSentenceEnd(cur[|cur| - 1]))
    ensures NoBoundary(cur + [c])
  {
    var cur' := cur + [c];
    forall i | 0 <= i < |cur'| - 1 && IsSentenceEnd(cur'[i]) ensures !IsSpace(cur'[i + 1]) {
      if i < |cur| - 1 {
        assert cur'[i] == cur[i] && cur'[i + 1] == cur[i + 1];
      }
    }
  }

  // ---------------------------------------------------------------------
  // Joining

  /** Python's `sep.join(xs)`. */
  function Join(xs: seq<string>, sep: string): string
    decreases |xs|
  {
    if |xs| == 0 then ""
    else if |xs| == 1 then xs[0]
    else Join(xs[..|xs| - 1], sep) + sep + xs[|xs| - 1]
  }

  lemma {:induction false} JoinAppend(xs: seq<string>, ys: seq<string>, sep: string)
    requires xs != [] && ys != []
    ensures Join(xs + ys, sep) == Join(xs, sep) + sep + Join(ys, sep)
    decreases |ys|
  {
    var n := |ys|;
    assert (xs + ys)[..|xs + ys| - 1] == xs + ys[..n - 1];
    if n > 1 {
      JoinAppend(xs, ys[..n - 1], sep);
    } else {
      assert xs + ys[..n - 1] == xs;
    }
  }

  /** Joining non-empty strings keeps the first character of the first and the
      last character of the last. */
  lemma {:induction false} JoinEnds(xs: seq<string>, sep: string)
    requires xs != []
    requires forall i :: 0 <= i < |xs| ==> xs[i] != []
    ensures var j := Join(xs, sep);
      j != [] && j[0] == xs[0][0] && j[|j| - 1] == xs[|xs| - 1][|xs[|xs| - 1]| - 1]
    decreases |xs|
  {
    if |xs| > 1 {
      JoinEnds(xs[..|xs| - 1], sep);
    }
  }

  // ---------------------------------------------------------------------
  // Code-point order on strings

  /** `a < b` for Python strings: lexicographic by code point, a proper
      prefix first. */
  predicate Below(a: string, b: string) {
    if a == [] then b != []
    else if b == [] then false
    else if a[0] != b[0] then a[0] < b[0]
    else Below(a[1..], b[1..])
  }

  lemma {:induction false} BelowIrreflexive(a: string)
    ensures !Below(a, a)
  {
    if a != [] { BelowIrreflexive(a[1..]); }
  }

  lemma {:induction false} BelowTransitive(a: string, b: string, c: string)
    requires Below(a, b) && Below(b, c)
    ensures Below(a, c)
  {
    if a != [] && a[0] == b[0] && b[0] == c[0] {
      BelowTransitive(a[1..], b[1..], c[1..]);
    }
  }

  lemma {:induction false} BelowTotal(a: string, b: string)
    ensures a == b || Below(a, b) || Below(b, a)
  {
    if a != [] && b != [] && a[0] == b[0] {
      BelowTotal(a[1..], b[1..]);
      if a[1..] == b[1..] {
        assert a == [a[0]] + a[1..] && b == [b[0]] + b[1..];
      }
    }
  }
}
