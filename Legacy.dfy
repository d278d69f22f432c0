/**
 * The first notedown reader (notedown.py at the top of the repository): a
 * single pattern for backtick-fenced blocks, the text around the matches
 * taken verbatim, and a version-3 notebook whose code cells are all Python.
 */
module Legacy {
  import opened Wrappers
  import opened Strings
  import Notebook
  import Segmenter
  import Fences

  // ---- gfm_regex ----

  /** A run of `n` characters `c` that stops there is the run. */
  lemma {:induction false} RunLengthIs(text: string, i: nat, c: char, n: nat)
    requires i + n <= |text|
    requires forall j :: i <= j < i + n ==> text[j] == c
    requires i + n == |text| || text[i + n] != c
    ensures Fences.RunLength(text, i, c) == n
    decreases n
  {
    if n > 0 {
      RunLengthIs(text, i + 1, c, n - 1);
    }
  }

  /** `` ```+$ `` at `s`: three or more backticks and nothing else up to the end of the line. */
  predicate BacktickLine(text: string, s: nat)
    requires s <= |text|
  {
    var n := Fences.RunLength(text, s, '`');
    n >= 3 && (s + n == |text| || text[s + n] == '\n')
  }

  /** A newline at `j` that a backtick line follows. */
  predicate CloserAt(text: string, j: nat)
    requires j < |text|
  {
    text[j] == '\n' && BacktickLine(text, j + 1)
  }

  /** Where the lazy `content` group stops: the first newline at or after
      `from` that a backtick line follows. */
  function FindCloser(text: string, from: nat): (r: Option<nat>)
    requires from <= |text|
    ensures r.Some? ==> from <= r.value < |text| && CloserAt(text, r.value)
    decreases |text| - from
  {
    if from == |text| then None
    else if CloserAt(text, from) then Some(from)
    else FindCloser(text, from + 1)
  }

  /** The closer is the first newline a backtick line follows; without one, none does. */
  lemma {:induction false} FindCloserFirst(text: string, from: nat)
    requires from <= |text|
    ensures var r := FindCloser(text, from);
      forall c :: from <= c < (if r.Some? then r.value else |text|) ==> !CloserAt(text, c)
    decreases |text| - from
  {
    if from < |text| && !CloserAt(text, from) {
      FindCloserFirst(text, from + 1);
    }
  }

  /** A newline that a backtick line follows, with no such newline before it, is the closer. */
  lemma {:induction false} FindCloserIs(text: string, from: nat, c: nat)
    requires from <= c < |text| && CloserAt(text, c)
    requires forall j :: from <= j < c ==> !CloserAt(text, j)
    ensures FindCloser(text, from) == Some(c)
    decreases c - from
  {
    if from < c {
      FindCloserIs(text, from + 1, c);
    }
  }

  /** A match of the pattern: its span and its two named groups. */
  datatype GfmMatch = GfmMatch(start: nat, end: nat, options: string, content: string)

  /** Where the opening backticks stand: after the newlines the match absorbs first. */
  function Opener(text: string, p: nat): (f: nat)
    requires p <= |text|
    ensures p <= f <= |text|
  {
    p + Fences.RunLength(text, p, '\n')
  }

  /** The pattern tried at position `p`: newlines, a line opening with three
      or more backticks, its rest as `options`, then the shortest `content`
      that a line of three or more backticks closes, then newlines. */
  function GfmAt(text: string, p: nat): (r: Option<GfmMatch>)
    requires p <= |text|
    ensures r.Some? ==> p == r.value.start < r.value.end <= |text|
  {
    var f := Opener(text, p);
    var n := Fences.RunLength(text, f, '`');
    if !Fences.LineStart(text, f) || n < 3 then None
    else OpenedAt(text, p, f + n, Fences.LineEnd(text, f + n))
  }

  /** The rest of the pattern once the opening backticks end at `o` and
      their line at `e`. */
  function OpenedAt(text: string, p: nat, o: nat, e: nat): (r: Option<GfmMatch>)
    requires p < o <= e <= |text|
    ensures r.Some? ==> p == r.value.start < r.value.end <= |text|
  {
    if e == |text| then None
    else
      match FindCloser(text, e + 1)
      case None => None
      case Some(c) => Some(ClosedAt(text, p, o, e, c))
  }

  /** The match whose content ends at the newline `c`: the closing
      backticks and the newlines after them end it. */
  function ClosedAt(text: string, p: nat, o: nat, e: nat, c: nat): (m: GfmMatch)
    requires p < o <= e < c < |text|
    ensures m.start == p < m.end <= |text|
    ensures m.options == text[o..e] && m.content == text[e + 1..c]
  {
    var z := c + 1 + Fences.RunLength(text, c + 1, '`');
    GfmMatch(p, z + Fences.RunLength(text, z, '\n'), text[o..e], text[e + 1..c])
  }

  /** The match the pattern makes from its computed positions. */
  lemma GfmAtIs(text: string, p: nat, n: nat, e: nat, c: nat, k: nat, end: nat)
    requires p <= |text| && Opener(text, p) == p && Fences.LineStart(text, p)
    requires Fences.RunLength(text, p, '`') == n >= 3
    requires Fences.LineEnd(text, p + n) == e < |text|
    requires FindCloser(text, e + 1) == Some(c)
    requires Fences.RunLength(text, c + 1, '`') == k
    requires c + 1 + k <= end && Fences.RunLength(text, c + 1 + k, '\n') == end - (c + 1 + k)
    ensures GfmAt(text, p) == Some(GfmMatch(p, end, text[p + n..e], text[e + 1..c]))
  {
    OpenedAtIs(text, p, p + n, e, c, k, end);
    assert GfmAt(text, p) == OpenedAt(text, p, p + n, e);
  }

  lemma OpenedAtIs(text: string, p: nat, o: nat, e: nat, c: nat, k: nat, end: nat)
    requires p < o <= e < |text|
    requires FindCloser(text, e + 1) == Some(c)
    requires Fences.RunLength(text, c + 1, '`') == k
    requires c + 1 + k <= end && Fences.RunLength(text, c + 1 + k, '\n') == end - (c + 1 + k)
    ensures OpenedAt(text, p, o, e) == Some(GfmMatch(p, end, text[o..e], text[e + 1..c]))
  {
    var m := ClosedAt(text, p, o, e, c);
    assert m.end == end;
  }

  /** Only backticks open a block, and only at the start of a line after
      the newlines the match takes in. */
  lemma OnlyBackticksOpen(text: string, p: nat)
    requires p <= |text| && GfmAt(text, p).Some?
    ensures var f := Opener(text, p);
      && f + 3 <= |text| && text[f..f + 3] == "```" && Fences.LineStart(text, f)
      && forall j :: p <= j < f ==> text[j] == '\n'
  {
    var f := Opener(text, p);
    Fences.RunLengthMeaning(text, p, '\n');
    Fences.RunLengthMeaning(text, f, '`');
    assert Fences.RunLength(text, f, '`') >= 3;
  }

  /** The positions a match is made from: the opening run, the end of its
      line and the newline before the closing backticks. */
  lemma GfmAtParts(text: string, p: nat) returns (f: nat, n: nat, e: nat, c: nat)
    requires p <= |text| && GfmAt(text, p).Some?
    ensures f == Opener(text, p) && f + n <= |text|
    ensures n == Fences.RunLength(text, f, '`') && n >= 3 && Fences.LineStart(text, f)
    ensures e == Fences.LineEnd(text, f + n) && e < |text|
    ensures FindCloser(text, e + 1) == Some(c)
    ensures p < f + n <= e < c < |text|
    ensures GfmAt(text, p) == Some(ClosedAt(text, p, f + n, e, c))
  {
    f := Opener(text, p);
    n := Fences.RunLength(text, f, '`');
    e := Fences.LineEnd(text, f + n);
    c := FindCloser(text, e + 1).value;
  }

  /** What a match built from a closer holds: the options are one line and
      the content runs up to the newline that the first backtick line after
      the opening line follows. */
  lemma ClosedAtMeaning(text: string, p: nat, o: nat, e: nat, c: nat)
    requires p < o <= e < c < |text|
    requires e == Fences.LineEnd(text, o) && FindCloser(text, e + 1) == Some(c)
    ensures '\n' !in ClosedAt(text, p, o, e, c).options
    ensures text[e + 1..c] == ClosedAt(text, p, o, e, c).content
    ensures e + 1 + |ClosedAt(text, p, o, e, c).content| == c
    ensures CloserAt(text, c)
    ensures forall j :: e + 1 <= j < c ==> !CloserAt(text, j)
    ensures ClosedAt(text, p, o, e, c).end == c + 1 + Fences.RunLength(text, c + 1, '`') + Fences.RunLength(text, c + 1 + Fences.RunLength(text, c + 1, '`'), '\n')
  {
    Fences.LineEndMeaning(text, o);
    FindCloserFirst(text, e + 1);
  }

  /** The content runs from the line after the opening one to the newline
      before the first line made of three or more backticks, whatever the
      length of the opening run; the options are the rest of the opening line. */
  lemma ClosesAtAnyBacktickLine(text: string, p: nat) returns (o: nat, c: nat)
    requires p <= |text| && GfmAt(text, p).Some?
    ensures var m := GfmAt(text, p).value;
      && '\n' !in m.options
      && o == Fences.LineEnd(text, Opener(text, p)) + 1
      && o <= c < |text| && text[o..c] == m.content
      && CloserAt(text, c)
      && forall j :: o <= j < c ==> !CloserAt(text, j)
  {
    var f, n, e, c' := GfmAtParts(text, p);
    ClosedAtMeaning(text, p, f + n, e, c');
    LineEndSkipsRun(text, f, n);
    o, c := e + 1, c';
  }

  /** The backticks that open a line do not end it. */
  lemma LineEndSkipsRun(text: string, f: nat, n: nat)
    requires f + n <= |text| && Fences.RunLength(text, f, '`') == n
    ensures Fences.LineEnd(text, f) == Fences.LineEnd(text, f + n)
  {
    Fences.RunLengthMeaning(text, f, '`');
    Fences.LineEndMeaning(text, f + n);
    var e := Fences.LineEnd(text, f + n);
    LineEndIs(text, f, e);
  }

  /** The first newline at or after `i` is the line end. */
  lemma {:induction false} LineEndIs(text: string, i: nat, e: nat)
    requires i <= e <= |text| && (e == |text| || text[e] == '\n')
    requires forall j :: i <= j < e ==> text[j] != '\n'
    ensures Fences.LineEnd(text, i) == e
    decreases e - i
  {
    if i < e {
      LineEndIs(text, i + 1, e);
    }
  }

  /** The match swallows the newlines after the closing line: it ends at the
      end of the text or before a character that is not a newline, and only
      newlines lie between the closing backticks and its end. */
  lemma AbsorbsNewlines(text: string, p: nat) returns (m: GfmMatch, z: nat, close: nat)
    requires p <= |text| && GfmAt(text, p).Some?
    ensures GfmAt(text, p) == Some(m)
    ensures z == Fences.LineEnd(text, Opener(text, p)) + 2 + |m.content| && z <= |text|
    ensures close == z + Fences.RunLength(text, z, '`') && close <= m.end
    ensures forall j :: close <= j < m.end ==> text[j] == '\n'
    ensures m.end == |text| || text[m.end] != '\n'
  {
    var f, n, e, c := GfmAtParts(text, p);
    LineEndSkipsRun(text, f, n);
    m := ClosedAt(text, p, f + n, e, c);
    assert |m.content| == c - e - 1;
    z := c + 1;
    close := z + Fences.RunLength(text, z, '`');
    ClosedAtEnd(text, p, f + n, e, c, m, close);
  }

  /** After the closing backticks a match built from a closer takes in the
      newlines that follow, and no more. */
  lemma ClosedAtEnd(text: string, p: nat, o: nat, e: nat, c: nat, m: GfmMatch, close: nat)
    requires p < o <= e < c < |text| && m == ClosedAt(text, p, o, e, c)
    requires close == c + 1 + Fences.RunLength(text, c + 1, '`')
    ensures close <= m.end
    ensures forall j :: close <= j < m.end ==> text[j] == '\n'
    ensures m.end == |text| || text[m.end] != '\n'
  {
    Fences.RunLengthMeaning(text, close, '\n');
  }

  /** A four-backtick block closes at a three-backtick line. */
  lemma ShorterRunCloses(t: string)
    requires t == "````\ncode\n```\n"
    ensures GfmAt(t, 0) == Some(GfmMatch(0, 14, "", "code"))
  {
    ShorterRunOpening(t);
    ShorterRunClosing(t);
    GfmAtIs(t, 0, 4, 4, 9, 3, 14);
    assert t[4..4] == "" && t[5..9] == "code";
  }

  lemma ShorterRunOpening(t: string)
    requires t == "````\ncode\n```\n"
    ensures Opener(t, 0) == 0 && Fences.RunLength(t, 0, '`') == 4 && Fences.LineEnd(t, 4) == 4
  {
    RunLengthIs(t, 0, '\n', 0);
    RunLengthIs(t, 0, '`', 4);
  }

  lemma ShorterRunClosing(t: string)
    requires t == "````\ncode\n```\n"
    ensures FindCloser(t, 5) == Some(9) && Fences.RunLength(t, 10, '`') == 3 && Fences.RunLength(t, 13, '\n') == 1
  {
    RunLengthIs(t, 10, '`', 3);
    assert CloserAt(t, 9);
    FindCloserIs(t, 5, 9);
    RunLengthIs(t, 13, '\n', 1);
  }

  // ---- finditer ----

  /** The pattern tried at every position of the text, the end included. */
  function Attempts(text: string): (a: seq<Option<GfmMatch>>)
    ensures |a| == |text| + 1
    ensures forall q :: 0 <= q <= |text| ==> a[q] == GfmAt(text, q)
  {
    seq(|text| + 1, q requires 0 <= q <= |text| => GfmAt(text, q))
  }

  /** Every attempt that matches starts where it is tried and ends further on. */
  predicate Anchored(a: seq<Option<GfmMatch>>) {
    forall q :: 0 <= q < |a| && a[q].Some? ==> a[q].value.start == q < a[q].value.end < |a|
  }

  lemma AttemptsAnchored(text: string)
    ensures Anchored(Attempts(text))
  {
  }

  /** The scan `finditer` makes over the attempts from position `from`: the
      first attempt that matches, then the scan from that match's end. */
  function Scan(a: seq<Option<GfmMatch>>, from: nat): (r: seq<GfmMatch>)
    requires Anchored(a) && from < |a|
    ensures forall i :: 0 <= i < |r| ==> from <= r[i].start < r[i].end < |a|
    ensures forall i :: 0 <= i < |r| - 1 ==> r[i].end <= r[i + 1].start
    decreases |a| - from
  {
    if from == |a| - 1 then []
    else
      match a[from]
      case Some(m) => [m] + Scan(a, m.end)
      case None => Scan(a, from + 1)
  }

  /** `code_pattern.finditer(text)` from position `from`. */
  function GfmMatches(text: string, from: nat): (r: seq<GfmMatch>)
    requires from <= |text|
    ensures forall i :: 0 <= i < |r| ==> from <= r[i].start < r[i].end <= |text|
    ensures forall i :: 0 <= i < |r| - 1 ==> r[i].end <= r[i + 1].start
  {
    AttemptsAnchored(text);
    Scan(Attempts(text), from)
  }

  /** Each match found is the attempt at its start. */
  lemma {:induction false} ScanFindsAttempts(a: seq<Option<GfmMatch>>, from: nat)
    requires Anchored(a) && from < |a|
    ensures forall i :: 0 <= i < |Scan(a, from)| ==> a[Scan(a, from)[i].start] == Some(Scan(a, from)[i])
    decreases |a| - from
  {
    if from < |a| - 1 {
      if a[from].Some? {
        var m := a[from].value;
        assert m.start == from;
        ScanFindsAttempts(a, m.end);
        var r, r' := Scan(a, from), Scan(a, m.end);
        assert r == [m] + r';
        forall i | 0 <= i < |r|
          ensures a[r[i].start] == Some(r[i])
        {
          if i > 0 {
            assert r[i] == r'[i - 1];
          }
        }
      } else {
        ScanFindsAttempts(a, from + 1);
        assert Scan(a, from) == Scan(a, from + 1);
      }
    }
  }

  /** No attempt before the first match found matches, and none at all from
      `from` on when nothing is found, the last position aside. */
  lemma {:induction false} ScanLeftmost(a: seq<Option<GfmMatch>>, from: nat)
    requires Anchored(a) && from < |a|
    ensures var r := Scan(a, from);
      && (r != [] ==> forall q :: from <= q < r[0].start ==> a[q].None?)
      && (r == [] ==> forall q :: from <= q < |a| - 1 ==> a[q].None?)
    decreases |a| - from
  {
    if from < |a| - 1 {
      if a[from].Some? {
        assert Scan(a, from)[0] == a[from].value;
      } else {
        ScanLeftmost(a, from + 1);
      }
    }
  }

  /** Nothing matches at the end of the text. */
  lemma NoMatchAtEnd(text: string)
    ensures GfmAt(text, |text|).None?
  {
    assert Fences.RunLength(text, |text|, '`') == 0;
  }

  /** The matches are those of `finditer`: each is the pattern tried at its
      start, the first is the leftmost from `from`, and when there is none the
      pattern matches nowhere from `from` on. */
  lemma MatchesAreLeftmost(text: string, from: nat)
    requires from <= |text|
    ensures var r := GfmMatches(text, from);
      && (forall i :: 0 <= i < |r| ==> GfmAt(text, r[i].start) == Some(r[i]))
      && (r != [] ==> forall q :: from <= q < r[0].start ==> GfmAt(text, q).None?)
      && (r == [] ==> forall q :: from <= q <= |text| ==> GfmAt(text, q).None?)
  {
    AttemptsAnchored(text);
    ScanFindsAttempts(Attempts(text), from);
    ScanLeftmost(Attempts(text), from);
    NoMatchAtEnd(text);
  }

  /** The matches as spans of the text. */
  function ToSpans(ms: seq<GfmMatch>): (r: seq<Segmenter.Match>)
    ensures |r| == |ms|
    ensures forall i :: 0 <= i < |r| ==> r[i].start == ms[i].start && r[i].end == ms[i].end
  {
    seq(|ms|, i requires 0 <= i < |ms| => Segmenter.Match(ms[i].start, ms[i].end, map[]))
  }

  /** The matches of the whole text are ordered, disjoint spans inside it. */
  lemma MatchesSpan(text: string)
    ensures Segmenter.Spans(text, ToSpans(GfmMatches(text, 0)))
  {
    var ms := GfmMatches(text, 0);
    var ss := ToSpans(ms);
    forall i | 0 <= i < |ss| - 1
      ensures ss[i].end <= ss[i + 1].start
    {
      assert ms[i].end <= ms[i + 1].start;
    }
  }

  // ---- parse_blocks ----

  /** A block dictionary: its `type`, `content` and, for code, `options`. */
  datatype LegacyBlock = MarkdownBlock(content: string) | CodeBlock(options: string, content: string)

  /** `text_blocks`: the text between the matches, untrimmed. */
  function TextPieces(text: string, ms: seq<GfmMatch>): (r: seq<LegacyBlock>)
    requires Segmenter.Spans(text, ToSpans(ms))
    ensures |r| == |ms| + 1
    ensures forall k :: 0 <= k < |r| ==> r[k] == MarkdownBlock(Segmenter.Gap(text, ToSpans(ms), k))
  {
    seq(|ms| + 1, k requires 0 <= k <= |ms| => MarkdownBlock(Segmenter.Gap(text, ToSpans(ms), k)))
  }

  /** `code_blocks`: the groups of each match. */
  function CodePieces(ms: seq<GfmMatch>): (r: seq<LegacyBlock>)
    ensures |r| == |ms|
    ensures forall k :: 0 <= k < |r| ==> r[k] == CodeBlock(ms[k].options, ms[k].content)
  {
    seq(|ms|, k requires 0 <= k < |ms| => CodeBlock(ms[k].options, ms[k].content))
  }

  /** `all_blocks[::2] = ts; all_blocks[1::2] = cs`. */
  function Alternate(ts: seq<LegacyBlock>, cs: seq<LegacyBlock>): seq<LegacyBlock>
    requires |ts| == |cs| + 1
    decreases |cs|
  {
    if cs == [] then ts else [ts[0], cs[0]] + Alternate(ts[1..], cs[1..])
  }

  /** A list whose even slots hold the first list and whose odd slots hold
      the second is their interleaving. */
  lemma {:induction false} AlternateIs(s: seq<LegacyBlock>, ts: seq<LegacyBlock>, cs: seq<LegacyBlock>)
    requires |ts| == |cs| + 1 && |s| == |ts| + |cs|
    requires forall k :: 0 <= k < |ts| ==> s[2 * k] == ts[k]
    requires forall k :: 0 <= k < |cs| ==> s[2 * k + 1] == cs[k]
    ensures s == Alternate(ts, cs)
    decreases |cs|
  {
    if cs == [] {
      assert s[0] == ts[0];
    } else {
      var s' := s[2..];
      forall k | 0 <= k < |ts| - 1
        ensures s'[2 * k] == ts[1..][k]
      {
        assert s'[2 * k] == s[2 * (k + 1)];
      }
      forall k | 0 <= k < |cs| - 1
        ensures s'[2 * k + 1] == cs[1..][k]
      {
        assert s'[2 * k + 1] == s[2 * (k + 1) + 1];
      }
      AlternateIs(s', ts[1..], cs[1..]);
      assert s[0] == ts[0] && s[1] == cs[0];
      assert s == [s[0], s[1]] + s';
    }
  }

  /** `[cell for cell in all_blocks if cell['content']]`. */
  function KeepContent(bs: seq<LegacyBlock>): seq<LegacyBlock> {
    if bs == [] then []
    else (if bs[0].content != "" then [bs[0]] else []) + KeepContent(bs[1..])
  }

  /** Exactly the blocks with empty content are dropped. */
  lemma {:induction false} KeepContentMembers(bs: seq<LegacyBlock>)
    ensures forall b :: b in KeepContent(bs) <==> b in bs && b.content != ""
  {
    if bs != [] {
      KeepContentMembers(bs[1..]);
      assert bs == [bs[0]] + bs[1..];
    }
  }

  lemma {:induction false} KeepContentAppend(bs: seq<LegacyBlock>, b: LegacyBlock)
    ensures KeepContent(bs + [b]) == KeepContent(bs) + (if b.content != "" then [b] else [])
    decreases |bs|
  {
    if bs != [] {
      assert (bs + [b])[1..] == bs[1..] + [b];
      KeepContentAppend(bs[1..], b);
    } else {
      assert KeepContent([b]) == (if b.content != "" then [b] else []) + KeepContent([]);
    }
  }

  /** The blocks `parse_blocks` returns for `text`. */
  function Blocks(text: string): seq<LegacyBlock> {
    var ms := GfmMatches(text, 0);
    MatchesSpan(text);
    KeepContent(Alternate(TextPieces(text, ms), CodePieces(ms)))
  }

  /** `all_blocks = range(len(ts) + len(cs))`, then `all_blocks[::2] = ts`
      and `all_blocks[1::2] = cs`. */
  method FillSlots(ts: seq<LegacyBlock>, cs: seq<LegacyBlock>) returns (s: seq<LegacyBlock>)
    requires |ts| == |cs| + 1
    ensures s == Alternate(ts, cs)
  {
    var all := new LegacyBlock[|ts| + |cs|](_ => MarkdownBlock(""));
    for k := 0 to |ts|
      invariant forall j :: 0 <= j < k ==> all[2 * j] == ts[j]
    {
      all[2 * k] := ts[k];
    }
    for k := 0 to |cs|
      invariant forall j :: 0 <= j < |ts| ==> all[2 * j] == ts[j]
      invariant forall j :: 0 <= j < k ==> all[2 * j + 1] == cs[j]
    {
      all[2 * k + 1] := cs[k];
    }
    s := all[..];
    AlternateIs(s, ts, cs);
  }

  /** Drops the blocks whose content is empty, keeping the order. */
  method DropEmpty(all: seq<LegacyBlock>) returns (blocks: seq<LegacyBlock>)
    ensures blocks == KeepContent(all)
  {
    blocks := [];
    for i := 0 to |all|
      invariant blocks == KeepContent(all[..i])
    {
      KeepContentAppend(all[..i], all[i]);
      assert all[..i + 1] == all[..i] + [all[i]];
      if all[i].content != "" {
        blocks := blocks + [all[i]];
      }
    }
    assert all[..|all|] == all;
  }

  /** `parse_blocks(text)`: the matches, the text between them and the
      groups of each, interleaved and then filtered. */
  method ParseBlocks(text: string) returns (blocks: seq<LegacyBlock>)
    ensures blocks == Blocks(text)
  {
    var ms := GfmMatches(text, 0);
    MatchesSpan(text);
    var all := FillSlots(TextPieces(text, ms), CodePieces(ms));
    blocks := DropEmpty(all);
  }

  // ---- what the blocks hold ----

  /** The contents of the markdown blocks, in order. */
  function Texts(bs: seq<LegacyBlock>): seq<string> {
    if bs == [] then []
    else (if bs[0].MarkdownBlock? then [bs[0].content] else []) + Texts(bs[1..])
  }

  /** The contents of the code blocks, in order. */
  function Codes(bs: seq<LegacyBlock>): seq<string> {
    if bs == [] then []
    else (if bs[0].CodeBlock? then [bs[0].content] else []) + Codes(bs[1..])
  }

  /** The non-empty strings of a list, in order. */
  function NonEmpty(xs: seq<string>): (r: seq<string>)
    ensures forall x :: x in r <==> x in xs && x != ""
  {
    if xs == [] then [] else (if xs[0] != "" then [xs[0]] else []) + NonEmpty(xs[1..])
  }

  lemma {:induction false} KeepContentTexts(bs: seq<LegacyBlock>)
    ensures Texts(KeepContent(bs)) == NonEmpty(Texts(bs))
    ensures Codes(KeepContent(bs)) == NonEmpty(Codes(bs))
  {
    if bs != [] {
      var b, rest := bs[0], bs[1..];
      KeepContentTexts(rest);
      var h := if b.content != "" then [b] else [];
      TextsAppend(h, KeepContent(rest));
      assert Texts([b]) == (if b.MarkdownBlock? then [b.content] else []) by {
        assert [b][1..] == [];
      }
      assert Codes([b]) == (if b.CodeBlock? then [b.content] else []) by {
        assert [b][1..] == [];
      }
      var tb := if b.MarkdownBlock? then [b.content] else [];
      var cb := if b.CodeBlock? then [b.content] else [];
      NonEmptyCons(tb, Texts(rest));
      NonEmptyCons(cb, Codes(rest));
    }
  }

  /** Filtering a list of at most one string in front of another. */
  lemma NonEmptyCons(h: seq<string>, t: seq<string>)
    requires |h| <= 1
    ensures NonEmpty(h + t) == NonEmpty(h) + NonEmpty(t)
  {
    if h != [] {
      assert (h + t)[1..] == t;
      assert NonEmpty(h) == (if h[0] != "" then [h[0]] else []) + NonEmpty([]);
    } else {
      assert h + t == t;
    }
  }

  lemma {:induction false} TextsAppend(a: seq<LegacyBlock>, b: seq<LegacyBlock>)
    ensures Texts(a + b) == Texts(a) + Texts(b)
    ensures Codes(a + b) == Codes(a) + Codes(b)
    decreases |a|
  {
    if a != [] {
      assert (a + b)[1..] == a[1..] + b;
      TextsAppend(a[1..], b);
    } else {
      assert a + b == b;
    }
  }

  /** Interleaving keeps each list's order: the markdown contents come from
      the even slots, the code contents from the odd ones. */
  lemma {:induction false} AlternateTexts(ts: seq<LegacyBlock>, cs: seq<LegacyBlock>)
    requires |ts| == |cs| + 1
    requires forall i :: 0 <= i < |ts| ==> ts[i].MarkdownBlock?
    requires forall i :: 0 <= i < |cs| ==> cs[i].CodeBlock?
    ensures Texts(Alternate(ts, cs)) == Texts(ts)
    ensures Codes(Alternate(ts, cs)) == Codes(cs)
    decreases |cs|
  {
    if cs == [] {
      assert Codes(ts) == Codes(ts[1..]) && ts[1..] == [];
    } else {
      AlternateTexts(ts[1..], cs[1..]);
      TextsAppend([ts[0], cs[0]], Alternate(ts[1..], cs[1..]));
      assert Texts([ts[0], cs[0]]) == [ts[0].content] by {
        assert [ts[0], cs[0]][1..] == [cs[0]];
        assert [cs[0]][1..] == [];
      }
      assert Codes([ts[0], cs[0]]) == [cs[0].content] by {
        assert [ts[0], cs[0]][1..] == [cs[0]];
        assert [cs[0]][1..] == [];
      }
    }
  }

  /** The gaps between the matches, in order. */
  function Gaps(text: string): (r: seq<string>)
    ensures |r| == |GfmMatches(text, 0)| + 1
  {
    var ms := GfmMatches(text, 0);
    MatchesSpan(text);
    seq(|ms| + 1, k requires 0 <= k <= |ms| => Segmenter.Gap(text, ToSpans(ms), k))
  }

  /** The `content` group of each match, in order. */
  function Contents(ms: seq<GfmMatch>): (r: seq<string>)
    ensures |r| == |ms|
    ensures forall k :: 0 <= k < |ms| ==> r[k] == ms[k].content
  {
    seq(|ms|, k requires 0 <= k < |ms| => ms[k].content)
  }

  lemma {:induction false} PiecesTexts(ts: seq<LegacyBlock>, xs: seq<string>)
    requires |ts| == |xs| && forall i :: 0 <= i < |ts| ==> ts[i] == MarkdownBlock(xs[i])
    ensures Texts(ts) == xs
  {
    if ts != [] {
      PiecesTexts(ts[1..], xs[1..]);
    }
  }

  lemma {:induction false} PiecesCodes(cs: seq<LegacyBlock>, ms: seq<GfmMatch>)
    requires |cs| == |ms| && forall i :: 0 <= i < |cs| ==> cs[i] == CodeBlock(ms[i].options, ms[i].content)
    ensures Codes(cs) == Contents(ms)
  {
    if cs != [] {
      PiecesCodes(cs[1..], ms[1..]);
    }
  }

  /** The markdown blocks are the non-empty gaps of the text exactly as they
      stand, and the code blocks are the non-empty `content` groups, each in
      the order of the text. */
  lemma BlocksInOrder(text: string)
    ensures Texts(Blocks(text)) == NonEmpty(Gaps(text))
    ensures Codes(Blocks(text)) == NonEmpty(Contents(GfmMatches(text, 0)))
  {
    var ms := GfmMatches(text, 0);
    MatchesSpan(text);
    var ts, cs := TextPieces(text, ms), CodePieces(ms);
    KeepContentTexts(Alternate(ts, cs));
    AlternateTexts(ts, cs);
    PiecesTexts(ts, Gaps(text));
    PiecesCodes(cs, ms);
  }

  /** Together with the matched text, the gaps rebuild the whole text: no
      character is lost or trimmed between the blocks. */
  lemma GapsTileText(text: string)
    ensures Segmenter.Spans(text, ToSpans(GfmMatches(text, 0)))
    ensures Segmenter.Reassemble(text, ToSpans(GfmMatches(text, 0)), 0) == text
  {
    MatchesSpan(text);
    Segmenter.WholeTextPartition(text, ToSpans(GfmMatches(text, 0)));
  }

  // ---- to_notebook ----

  /** A version-3 cell: code with its `input` and `language`, or markdown text. */
  datatype LegacyCell = CodeCellV3(input: string, language: string) | TextCellV3(source: string)

  function CellOf(b: LegacyBlock): LegacyCell {
    match b
    case CodeBlock(_, content) => CodeCellV3(content, "python")
    case MarkdownBlock(content) => TextCellV3(content)
  }

  /** One cell per block, in order. */
  function Cells(bs: seq<LegacyBlock>): (r: seq<LegacyCell>) {
    seq(|bs|, i requires 0 <= i < |bs| => CellOf(bs[i]))
  }

  /** `to_notebook(s)`: a cell for every block `parse_blocks` returns. */
  method ToNotebook(text: string) returns (cells: seq<LegacyCell>)
    ensures cells == Cells(Blocks(text))
  {
    var blocks := ParseBlocks(text);
    cells := AppendCells(blocks);
  }

  /** The loop of `to_notebook`: appends the cell of each block in turn. */
  method AppendCells(blocks: seq<LegacyBlock>) returns (cells: seq<LegacyCell>)
    ensures cells == Cells(blocks)
  {
    cells := [];
    for i := 0 to |blocks|
      invariant cells == Cells(blocks[..i])
    {
      assert blocks[..i + 1] == blocks[..i] + [blocks[i]];
      assert Cells(blocks[..i + 1]) == Cells(blocks[..i]) + [CellOf(blocks[i])];
      cells := cells + [CellOf(blocks[i])];
    }
    assert blocks[..|blocks|] == blocks;
  }

  /** The inputs of the code cells, in order. */
  function Inputs(cells: seq<LegacyCell>): seq<string> {
    if cells == [] then []
    else (if cells[0].CodeCellV3? then [cells[0].input] else []) + Inputs(cells[1..])
  }

  lemma {:induction false} CellsInputs(bs: seq<LegacyBlock>)
    ensures Inputs(Cells(bs)) == Codes(bs)
    ensures forall c :: c in Cells(bs) && c.CodeCellV3? ==> c.language == "python"
  {
    if bs != [] {
      CellsInputs(bs[1..]);
      assert Cells(bs) == [CellOf(bs[0])] + Cells(bs[1..]);
    }
  }

  /** Every non-empty fenced block of the text becomes a Python code cell, in
      the order of the text, and nothing else becomes one. */
  lemma CodeCellsAreBlocks(text: string)
    ensures Inputs(Cells(Blocks(text))) == NonEmpty(Contents(GfmMatches(text, 0)))
    ensures forall c :: c in Cells(Blocks(text)) && c.CodeCellV3? ==> c.language == "python"
  {
    CellsInputs(Blocks(text));
    BlocksInOrder(text);
  }

  // ---- new_cell ----

  /** `'\n'.join(lines).strip('\n')`. */
  function Body(lines: seq<string>): string {
    StripChars(Join(lines, "\n"), {'\n'})
  }

  /** `new_cell(state, lines)`: a code or markdown cell holding the lines
      without surrounding newlines, nothing when that is empty, and an error
      for any other state. */
  function NewCell(state: string, lines: seq<string>): (r: Result<Option<LegacyCell>, Notebook.Error>)
    ensures r.Err? <==> state != "code" && state != "markdown"
    ensures r.Err? ==> r.error == Notebook.NotImplemented(state)
    ensures r.Ok? && r.value.Some? ==> (r.value.value.CodeCellV3? <==> state == "code")
    ensures r.Ok? ==> (r.value.None? <==> Body(lines) == "")
  {
    if state == "code" then
      var input := Body(lines);
      Ok(if input != "" then Some(CodeCellV3(input, "python")) else None)
    else if state == "markdown" then
      var text := Body(lines);
      Ok(if text != "" then Some(TextCellV3(text)) else None)
    else Err(Notebook.NotImplemented(state))
  }

  function CellText(c: LegacyCell): string {
    match c
    case CodeCellV3(input, _) => input
    case TextCellV3(source) => source
  }

  /** A cell never starts or ends with a newline. */
  lemma NewCellTrimmed(state: string, lines: seq<string>)
    requires NewCell(state, lines).Ok? && NewCell(state, lines).value.Some?
    ensures var t := CellText(NewCell(state, lines).value.value);
      t != "" && t[0] != '\n' && t[|t| - 1] != '\n'
  {
    BodyTrimmed(lines);
    assert CellText(NewCell(state, lines).value.value) == Body(lines);
  }

  lemma BodyTrimmed(lines: seq<string>)
    ensures var b := Body(lines); b == "" || (b[0] != '\n' && b[|b| - 1] != '\n')
  {
    var l := LStrip(Join(lines, "\n"), {'\n'});
    var b := RStrip(l, {'\n'});
    if b != "" {
      assert b[0] == l[0];
    }
  }

  lemma JoinFirst(lines: seq<string>)
    requires |lines| >= 1 && lines[0] != ""
    ensures var j := Join(lines, "\n"); j != "" && j[0] == lines[0][0]
  {
    if |lines| > 1 {
      assert Join(lines, "\n") == lines[0] + ("\n" + Join(lines[1..], "\n"));
    }
  }

  lemma {:induction false} JoinLast(lines: seq<string>)
    requires |lines| >= 1 && lines[|lines| - 1] != ""
    ensures var j := Join(lines, "\n"); var l := lines[|lines| - 1]; j != "" && j[|j| - 1] == l[|l| - 1]
    decreases |lines|
  {
    if |lines| > 1 {
      var rest := lines[1..];
      JoinLast(rest);
      assert Join(lines, "\n") == (lines[0] + "\n") + Join(rest, "\n");
    }
  }

  /** Lines without newlines, the first and the last not blank, come back
      unchanged from the cell's text. */
  lemma NewCellKeepsLines(state: string, lines: seq<string>)
    requires state == "code" || state == "markdown"
    requires |lines| >= 1 && lines[0] != "" && lines[|lines| - 1] != ""
    requires forall i :: 0 <= i < |lines| ==> '\n' !in lines[i]
    ensures NewCell(state, lines).Ok? && NewCell(state, lines).value.Some?
    ensures Split(CellText(NewCell(state, lines).value.value), '\n') == lines
  {
    JoinFirst(lines);
    JoinLast(lines);
    var j := Join(lines, "\n");
    assert j[0] in lines[0] && j[|j| - 1] in lines[|lines| - 1];
    StripCharsNoop(j, {'\n'});
    SplitJoin(lines, '\n');
  }
}
