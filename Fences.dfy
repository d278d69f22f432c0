/**
 * The fenced code block pattern of the reader (notedown/notedown.py:77-86), read
 * at the level of characters.  With the MULTILINE flag the pattern asks for:
 * a line that starts with a run of three or more backticks or tildes (the
 * `fence` group), optional spaces and tabs, the rest of the line (`attributes`),
 * a newline, the shortest `content` such that a newline, the very same fence
 * and another newline follow.
 *
 * The fence group is greedy but may backtrack: when no line equal to the whole
 * opening run closes the block, the engine retries with one fence character
 * fewer, moving the surplus into `attributes`.  `FencedAtAsWritten` models
 * that; `FencedAt` is the evidently intended matcher (only the whole opening
 * run closes the block), and it is the one the rest of the model scans with.
 */
module Fences {
  import opened Wrappers
  import opened Strings

  /** What one match of the fenced pattern captures; `raw` is text[start..end]. */
  datatype FenceMatch = FenceMatch(start: nat, end: nat, fence: string, attributes: string, content: string)

  predicate FenceChar(c: char) {
    c == '`' || c == '~'
  }

  /** Position p begins a line (where `^` matches under MULTILINE). */
  predicate LineStart(text: string, p: nat) {
    p <= |text| && (p == 0 || text[p - 1] == '\n')
  }

  /** The first newline at or after p, or the end of the text (`LineEndMeaning`). */
  function LineEnd(text: string, p: nat): (e: nat)
    requires p <= |text|
    ensures p <= e <= |text| && (e == |text| || text[e] == '\n')
    decreases |text| - p
  {
    if p == |text| || text[p] == '\n' then p else LineEnd(text, p + 1)
  }

  lemma {:induction false} LineEndMeaning(text: string, p: nat)
    requires p <= |text|
    ensures forall i :: p <= i < LineEnd(text, p) ==> text[i] != '\n'
    decreases |text| - p
  {
    if p < |text| && text[p] != '\n' {
      LineEndMeaning(text, p + 1);
    }
  }

  /** The length of the run of c that starts at p (`RunLengthMeaning`). */
  function RunLength(text: string, p: nat, c: char): (n: nat)
    requires p <= |text|
    ensures p + n <= |text|
    decreases |text| - p
  {
    if p == |text| || text[p] != c then 0 else 1 + RunLength(text, p + 1, c)
  }

  lemma {:induction false} RunLengthMeaning(text: string, p: nat, c: char)
    requires p <= |text|
    ensures var n := RunLength(text, p, c);
      && (forall i :: p <= i < p + n ==> text[i] == c)
      && (p + n == |text| || text[p + n] != c)
    decreases |text| - p
  {
    if p < |text| && text[p] == c {
      RunLengthMeaning(text, p + 1, c);
    }
  }

  /** The text holds w at position s, character by character (`OccursAtChars`). */
  predicate OccursAt(text: string, s: nat, w: string)
    decreases |w|
  {
    w == [] || (s < |text| && text[s] == w[0] && OccursAt(text, s + 1, w[1..]))
  }

  lemma {:induction false} OccursAtChars(text: string, s: nat, w: string)
    requires s <= |text|
    ensures OccursAt(text, s, w) <==> s + |w| <= |text| && forall x :: 0 <= x < |w| ==> text[s + x] == w[x]
    decreases |w|
  {
    if w != [] && s < |text| {
      OccursAtChars(text, s + 1, w[1..]);
      assert OccursAt(text, s, w) == (text[s] == w[0] && OccursAt(text, s + 1, w[1..]));
      if s + |w| <= |text| {
        if forall x :: 0 <= x < |w| ==> text[s + x] == w[x] {
          assert s + 0 == s && text[s + 0] == w[0];
          forall x | 0 <= x < |w| - 1 ensures text[s + 1 + x] == w[1..][x] {
            assert s + (x + 1) == s + 1 + x && text[s + (x + 1)] == w[x + 1];
          }
          assert OccursAt(text, s + 1, w[1..]);
        }
        if text[s] == w[0] && forall x :: 0 <= x < |w| - 1 ==> text[s + 1 + x] == w[1..][x] {
          forall x | 0 <= x < |w| ensures text[s + x] == w[x] {
            if x > 0 {
              assert s + 1 + (x - 1) == s + x && text[s + 1 + (x - 1)] == w[1..][x - 1];
            } else {
              assert s + x == s;
            }
          }
        }
      }
    }
  }

  /** OccursAt as a slice equality. */
  lemma OccursAtSlice(text: string, s: nat, w: string)
    requires s <= |text|
    ensures OccursAt(text, s, w) <==> s + |w| <= |text| && text[s..s + |w|] == w
  {
    OccursAtChars(text, s, w);
    if s + |w| <= |text| && text[s..s + |w|] == w {
      forall x | 0 <= x < |w| ensures text[s + x] == w[x] {
        assert text[s..s + |w|][x] == w[x];
      }
    }
    if OccursAt(text, s, w) {
      assert forall x :: 0 <= x < |w| ==> text[s..s + |w|][x] == w[x];
    }
  }

  /** `\n(?P=fence)$\n` at s - 1: a newline, the fence, and a newline. */
  predicate ClosesAt(text: string, s: nat, fence: string) {
    1 <= s && s + |fence| < |text| && text[s - 1] == '\n'
    && OccursAt(text, s, fence) && text[s + |fence|] == '\n'
  }

  /** No line at or after `from` closes a block opened by `fence`. */
  ghost predicate NeverClosed(text: string, fence: string, from: nat) {
    forall t :: from <= t ==> !ClosesAt(text, t, fence)
  }

  /** The lazy content group: the first closing line at or after `from` (`FindCloseMeaning`). */
  function FindClose(text: string, fence: string, from: nat): (r: Option<nat>)
    ensures r.Some? ==> from <= r.value && r.value + |fence| < |text| && text[r.value + |fence|] == '\n'
    decreases |text| - from
  {
    if from + |fence| >= |text| then None
    else if ClosesAt(text, from, fence) then Some(from)
    else FindClose(text, fence, from + 1)
  }

  lemma {:induction false} FindCloseMeaning(text: string, fence: string, from: nat)
    ensures var r := FindClose(text, fence, from);
      && (r.Some? ==> ClosesAt(text, r.value, fence))
      && (r.Some? ==> forall t :: from <= t < r.value ==> !ClosesAt(text, t, fence))
      && (r.None? ==> NeverClosed(text, fence, from))
    decreases |text| - from
  {
    if from + |fence| < |text| && !ClosesAt(text, from, fence) {
      FindCloseMeaning(text, fence, from + 1);
    }
  }

  /** The first closing line at or after `from` is the one FindClose reports. */
  lemma {:induction false} FindCloseAt(text: string, fence: string, from: nat, s: nat)
    requires from <= s && ClosesAt(text, s, fence)
    requires forall t :: from <= t < s ==> !ClosesAt(text, t, fence)
    ensures FindClose(text, fence, from) == Some(s)
    decreases s - from
  {
    if from < s {
      FindCloseAt(text, fence, from + 1, s);
    }
  }

  /** `[ \t]*` before the attributes group: leading spaces and tabs dropped
      (the same as `LStrip(s, {' ', '\t'})`, as `DropBlanksIsLStrip` shows). */
  function DropBlanks(s: string): string {
    if |s| > 0 && (s[0] == ' ' || s[0] == '\t') then DropBlanks(s[1..]) else s
  }

  lemma {:induction false} DropBlanksIsLStrip(s: string)
    ensures DropBlanks(s) == LStrip(s, {' ', '\t'})
  {
    if |s| > 0 && (s[0] == ' ' || s[0] == '\t') {
      DropBlanksIsLStrip(s[1..]);
    }
  }

  /** The pattern at line start p with a fence of exactly the k characters
      text[p..p+k]; `TryFenceCloses`, `TryFenceGroups` and `TryFenceMissing` state what it finds. */
  function TryFence(text: string, p: nat, k: nat): (r: Option<FenceMatch>)
    requires p + k <= |text|
    ensures r.Some? ==> r.value.start == p && |r.value.fence| == k && r.value.fence == text[p..p + k]
    ensures r.Some? ==> p + k < r.value.end <= |text| && LineStart(text, r.value.end)
  {
    var e := LineEnd(text, p + k);
    if e == |text| then None
    else
      match FindClose(text, text[p..p + k], e + 2)
      case None => None
      case Some(s) =>
        Some(FenceMatch(p, s + k + 1, text[p..p + k], DropBlanks(text[p + k..e]), text[e + 1..s - 1]))
  }

  /** A match with fence k: the opening line ends in a newline and the block
      closes at the first line, at least one line further on, that holds the
      fence and nothing else. */
  lemma TryFenceCloses(text: string, p: nat, k: nat, m: FenceMatch, e: nat, s: nat)
    requires p + k <= |text| && TryFence(text, p, k) == Some(m)
    requires e == LineEnd(text, p + k) && s + k + 1 == m.end
    ensures e < |text| && e + 2 <= s
    ensures ClosesAt(text, s, m.fence)
    ensures forall t :: e + 2 <= t < s ==> !ClosesAt(text, t, m.fence)
  {
    var fence := text[p..p + k];
    var c := FindClose(text, fence, e + 2).value;
    TryFenceIs(text, p, k, e, c);
    assert c == s && m.fence == fence;
    FindCloseMeaning(text, fence, e + 2);
  }

  /** A match with fence k captures as content everything between the opening
      line and the closing line, and as attributes the rest of the opening line
      without leading spaces and tabs (`DropBlanksIsLStrip`). */
  lemma TryFenceGroups(text: string, p: nat, k: nat, m: FenceMatch, e: nat, s: nat)
    requires p + k <= |text| && TryFence(text, p, k) == Some(m)
    requires e == LineEnd(text, p + k) && s + k + 1 == m.end
    ensures e < |text| && e + 2 <= s
    ensures m.content == text[e + 1..s - 1]
    ensures m.attributes == DropBlanks(text[p + k..e])
  {
    var c := FindClose(text, text[p..p + k], e + 2).value;
    TryFenceIs(text, p, k, e, c);
    assert c == s;
  }

  /** There is no match with fence k only when the opening line is the last
      one or no later line closes the block. */
  lemma TryFenceMissing(text: string, p: nat, k: nat)
    requires p + k <= |text|
    ensures var e := LineEnd(text, p + k);
      TryFence(text, p, k).None? <==> e == |text| || NeverClosed(text, text[p..p + k], e + 2)
  {
    var e := LineEnd(text, p + k);
    if e < |text| {
      var fence := text[p..p + k];
      FindCloseMeaning(text, fence, e + 2);
    }
  }

  /** The opening run at p: its length when p starts a line with three or more fence characters. */
  function OpeningRun(text: string, p: nat): (n: nat)
    requires p <= |text|
    ensures n == 0 || (n >= 3 && p + n <= |text|)
  {
    if p == |text| || !FenceChar(text[p]) || !LineStart(text, p) then 0
    else
      var n := RunLength(text, p, text[p]);
      if n < 3 then 0 else n
  }

  /** The fenced pattern at p as the regular-expression engine runs it: the
      fence lengths are tried from the whole opening run down to three. */
  function FencedAtAsWritten(text: string, p: nat): (r: Option<FenceMatch>)
    requires p <= |text|
    ensures r.Some? ==> r.value.start == p && 3 <= |r.value.fence| <= OpeningRun(text, p)
  {
    var n := OpeningRun(text, p);
    if n == 0 then None else TryLengths(text, p, n)
  }

  function TryLengths(text: string, p: nat, k: nat): (r: Option<FenceMatch>)
    requires p + k <= |text|
    ensures r.Some? ==> r.value.start == p && 3 <= |r.value.fence| <= k
    decreases k
  {
    if k < 3 then None
    else
      match TryFence(text, p, k)
      case Some(m) => Some(m)
      case None => TryLengths(text, p, k - 1)
  }

  /** The evidently intended fenced matcher: a block opened by a run of n fence
      characters is closed only by a line holding exactly those n characters. */
  function FencedAt(text: string, p: nat): (r: Option<FenceMatch>)
    requires p <= |text|
    ensures r.Some? ==> r.value.start == p && |r.value.fence| >= 3
    ensures r.Some? ==> p < r.value.end <= |text| && LineStart(text, r.value.end)
  {
    var n := OpeningRun(text, p);
    if n == 0 then None else TryFence(text, p, n)
  }

  /** A block opens at a line start with the whole run of 3+ backticks or tildes
      found there; there is no block only when that whole run is never closed. */
  lemma FencedAtMeaning(text: string, p: nat)
    requires p <= |text|
    ensures FencedAt(text, p).Some? ==>
      var n := |FencedAt(text, p).value.fence|;
      && LineStart(text, p) && p < |text| && FenceChar(text[p])
      && RunLength(text, p, text[p]) == n && TryFence(text, p, n) == FencedAt(text, p)
    ensures LineStart(text, p) && p < |text| && FenceChar(text[p]) && RunLength(text, p, text[p]) >= 3 ==>
      FencedAt(text, p) == TryFence(text, p, RunLength(text, p, text[p]))
  {
  }

  /** When the whole opening run is closed somewhere, the engine's answer is the intended one. */
  lemma AsWrittenAgreesWhenClosed(text: string, p: nat)
    requires p <= |text| && FencedAt(text, p).Some?
    ensures FencedAtAsWritten(text, p) == FencedAt(text, p)
  {
  }

  /** The engine only falls back to a shorter fence k when no line closes any
      longer prefix of the opening run: its k is the longest one that closes. */
  lemma {:induction false} AsWrittenLongestClosingFence(text: string, p: nat, k: nat, j: nat)
    requires p + k <= |text| && TryLengths(text, p, k).Some?
    requires |TryLengths(text, p, k).value.fence| < j <= k
    ensures TryFence(text, p, j).None?
    decreases k
  {
    assert k >= 3;
    assert TryFence(text, p, k).None?;
    if j < k {
      assert TryLengths(text, p, k) == TryLengths(text, p, k - 1);
      AsWrittenLongestClosingFence(text, p, k - 1, j);
    }
  }

  // ---- finditer over the fenced pattern alone (`code_regex='fenced'`) ----

  /** The matches `finditer` reports from line start p onward: the pattern can
      only match at a line start, and the search resumes where a match ends. */
  function ScanFenced(text: string, p: nat): seq<FenceMatch>
    requires LineStart(text, p)
    decreases |text| - p
  {
    if p == |text| then []
    else
      match FencedAt(text, p)
      case Some(m) => [m] + ScanFenced(text, m.end)
      case None =>
        var e := LineEnd(text, p);
        if e == |text| then [] else ScanFenced(text, e + 1)
  }

  /** Matches lie inside the text, in order and without overlap. */
  ghost predicate Ordered(text: string, ms: seq<FenceMatch>, from: nat) {
    && (forall i :: 0 <= i < |ms| ==> from <= ms[i].start < ms[i].end <= |text|)
    && (forall i :: 0 <= i < |ms| - 1 ==> ms[i].end <= ms[i + 1].start)
  }

  lemma OrderedCons(text: string, m: FenceMatch, rest: seq<FenceMatch>, p: nat)
    requires Ordered(text, rest, m.end)
    requires p <= m.start < m.end <= |text|
    ensures Ordered(text, [m] + rest, p)
  {
    var ms := [m] + rest;
    assert forall i :: 1 <= i < |ms| ==> ms[i] == rest[i - 1];
  }

  lemma {:induction false} ScanFencedOrdered(text: string, p: nat)
    requires LineStart(text, p)
    ensures Ordered(text, ScanFenced(text, p), p)
    decreases |text| - p
  {
    if p < |text| {
      var r := FencedAt(text, p);
      if r.Some? {
        var m := r.value;
        ScanFencedOrdered(text, m.end);
        assert ScanFenced(text, p) == [m] + ScanFenced(text, m.end);
        OrderedCons(text, m, ScanFenced(text, m.end), p);
      } else {
        var e := LineEnd(text, p);
        if e < |text| {
          ScanFencedOrdered(text, e + 1);
          assert ScanFenced(text, p) == ScanFenced(text, e + 1);
        }
      }
    }
  }

  /** `finditer`'s leftmost rule: each match is the one the matcher finds at
      its start, and no position between `from` and that start, nor any
      position after the last match, opens a block. */
  ghost predicate Leftmost(text: string, ms: seq<FenceMatch>, from: nat)
    decreases |ms|
  {
    if ms == [] then
      forall q :: from <= q <= |text| ==> FencedAt(text, q).None?
    else
      && from <= ms[0].start <= |text|
      && FencedAt(text, ms[0].start) == Some(ms[0])
      && (forall q :: from <= q < ms[0].start ==> FencedAt(text, q).None?)
      && Leftmost(text, ms[1..], ms[0].end)
  }

  /** Inside a line no block opens: the pattern is anchored at line starts. */
  lemma NoneInsideLine(text: string, p: nat, q: nat)
    requires p < q <= |text| && q <= LineEnd(text, p)
    ensures FencedAt(text, q).None?
  {
    LineEndMeaning(text, p);
    assert text[q - 1] != '\n';
  }

  lemma LeftmostWiden(text: string, ms: seq<FenceMatch>, from: nat, from': nat)
    requires from <= from' <= |text| && Leftmost(text, ms, from')
    requires forall q :: from <= q < from' ==> FencedAt(text, q).None?
    ensures Leftmost(text, ms, from)
  {
  }

  /** The scan reports exactly the leftmost non-overlapping matches. */
  lemma {:induction false} ScanFencedLeftmost(text: string, p: nat)
    requires LineStart(text, p)
    ensures Leftmost(text, ScanFenced(text, p), p)
    decreases |text| - p
  {
    if p < |text| {
      match FencedAt(text, p)
      case Some(m) =>
        ScanFencedLeftmost(text, m.end);
        var r := ScanFenced(text, p);
        assert r == [m] + ScanFenced(text, m.end);
        assert r[0] == m && r[1..] == ScanFenced(text, m.end);
      case None =>
        var e := LineEnd(text, p);
        forall q | p <= q <= e
          ensures FencedAt(text, q).None?
        {
          if p < q {
            NoneInsideLine(text, p, q);
          }
        }
        if e < |text| {
          ScanFencedLeftmost(text, e + 1);
          assert ScanFenced(text, p) == ScanFenced(text, e + 1);
          LeftmostWiden(text, ScanFenced(text, e + 1), p, e + 1);
        } else {
          assert ScanFenced(text, p) == [];
        }
    }
  }

  // ---- the writer's code block read back ----

  /** A closing line cannot run across a newline. */
  lemma CloseBeforeNewline(text: string, t: nat, fence: string, q: nat)
    requires ClosesAt(text, t, fence) && '\n' !in fence
    requires t <= q < |text| && text[q] == '\n'
    ensures t + |fence| <= q
  {
    OccursAtChars(text, t, fence);
    forall i | t <= i < t + |fence| ensures text[i] != '\n' {
      assert text[t + (i - t)] == fence[i - t];
    }
  }

  /** Where a stretch of text holds src and then a newline at c, and a block
      closes j characters into src, the fence sits in src between newlines. */
  lemma CloseInsideChars(text: string, off: nat, src: string, fence: string, j: nat, c: nat)
    requires OccursAt(text, off, src) && c == off + |src| && c < |text| && text[c] == '\n'
    requires '\n' !in fence && 0 < j <= |src| && ClosesAt(text, off + j, fence)
    ensures j + |fence| <= |src| && OccursAt(src, j, fence)
  {
    var t := off + j;
    CloseBeforeNewline(text, t, fence, c);
    OccursAtChars(text, off, src);
    OccursAtChars(text, t, fence);
    forall x | 0 <= x < |fence| ensures src[j + x] == fence[x] {
      assert text[off + (j + x)] == src[j + x];
      assert text[t + x] == fence[x];
    }
    OccursAtChars(src, j, fence);
  }

  /** The closing line's newlines, seen from inside src. */
  lemma CloseInsideBounds(text: string, off: nat, src: string, fence: string, j: nat, c: nat)
    requires OccursAt(text, off, src) && c == off + |src| && c < |text| && text[c] == '\n'
    requires 0 < j && j + |fence| <= |src| && ClosesAt(text, off + j, fence)
    ensures src[j - 1] == '\n' && (j + |fence| == |src| || src[j + |fence|] == '\n')
  {
    OccursAtChars(text, off, src);
    assert text[off + (j - 1)] == src[j - 1];
    if j + |fence| < |src| {
      assert text[off + (j + |fence|)] == src[j + |fence|];
    }
  }

  /** A line that closes a block inside the stretch src of text, when src is
      followed by a newline, is one of the lines of src. */
  lemma CloseInsideIsLine(text: string, off: nat, src: string, fence: string, j: nat, c: nat)
    requires OccursAt(text, off, src) && c == off + |src| && c < |text| && text[c] == '\n'
    requires '\n' !in fence && 0 < j <= |src| && ClosesAt(text, off + j, fence)
    ensures fence in Split(src, '\n')
  {
    CloseInsideChars(text, off, src, fence, j, c);
    CloseInsideBounds(text, off, src, fence, j, c);
    OccursAtSlice(src, j, fence);
    PieceInSplit(src, j, fence, '\n');
  }

  lemma {:induction false} LineEndAt(text: string, p: nat, e: nat)
    requires p <= e < |text| && text[e] == '\n'
    requires forall i :: p <= i < e ==> text[i] != '\n'
    ensures LineEnd(text, p) == e
    decreases e - p
  {
    if p < e {
      LineEndAt(text, p + 1, e);
    }
  }

  /** Text holds a + b at i exactly when it holds a at i and b right after it. */
  lemma {:induction false} OccursAtAppend(text: string, i: nat, a: string, b: string)
    ensures OccursAt(text, i, a + b) <==> OccursAt(text, i, a) && OccursAt(text, i + |a|, b)
    decreases |a|
  {
    if a == [] {
      assert a + b == b;
    } else {
      OccursAtAppend(text, i + 1, a[1..], b);
      assert (a + b)[0] == a[0] && (a + b)[1..] == a[1..] + b;
    }
  }

  /** The pieces of the block the writer emits: the backticks at 0, the
      attributes at 3, the newline at e, the source at o and the closing
      line's newline at c. */
  lemma WrittenPieces(text: string, attrs: string, src: string, e: nat, o: nat, c: nat)
    requires OccursAt(text, 0, ("```" + attrs + "\n") + src + "\n```\n")
    requires e == 3 + |attrs| && o == e + 1 && c == o + |src|
    ensures OccursAt(text, 0, "```") && OccursAt(text, 3, attrs) && OccursAt(text, e, "\n")
    ensures OccursAt(text, o, src) && OccursAt(text, c, "\n```\n")
  {
    var a2 := "```" + attrs;
    var a3 := a2 + "\n";
    var a4 := a3 + src;
    OccursAtAppend(text, 0, a4, "\n```\n");
    OccursAtAppend(text, 0, a3, src);
    OccursAtAppend(text, 0, a2, "\n");
    OccursAtAppend(text, 0, "```", attrs);
  }

  /** The opening line of a written block: three backticks, the attributes, a newline. */
  lemma WrittenOpening(text: string, attrs: string, fence: string, e: nat)
    requires OccursAt(text, 0, "```") && OccursAt(text, 3, attrs) && OccursAt(text, e, "\n")
    requires '\n' !in attrs && (attrs == [] || attrs[0] != '`')
    requires fence == "```" && e == 3 + |attrs|
    ensures |fence| >= 3 && OpeningRun(text, 0) == |fence| && text[0..|fence|] == fence
    ensures LineEnd(text, |fence|) == e && e < |text| && e == |fence| + |attrs|
  {
    OccursAtSlice(text, 0, fence);
    OccursAtChars(text, 0, fence);
    assert text[0 + 0] == '`' && text[0 + 1] == '`' && text[0 + 2] == '`';
    OccursAtChars(text, e, "\n");
    assert text[e + 0] == '\n';
    OccursAtChars(text, 3, attrs);
    forall i | 3 <= i < e ensures text[i] != '\n' {
      assert text[3 + (i - 3)] == attrs[i - 3];
    }
    if attrs != [] {
      assert text[3 + 0] == attrs[0];
    }
    assert RunLength(text, 3, '`') == 0;
    assert RunLength(text, 1, '`') == 2;
    LineEndAt(text, 3, e);
  }

  /** The closing line of a written block closes it. */
  lemma WrittenCloseLine(text: string, fence: string, c: nat, s: nat)
    requires OccursAt(text, c, "\n```\n")
    requires fence == "```" && s == c + 1
    ensures c < |text| && text[c] == '\n' && ClosesAt(text, s, fence)
  {
    OccursAtAppend(text, c, "\n```", "\n");
    OccursAtAppend(text, c, "\n", "```");
    OccursAtChars(text, c, "\n");
    OccursAtChars(text, c + 4, "\n");
    OccursAtChars(text, s, fence);
    assert text[c + 0] == '\n' && text[c + 4 + 0] == '\n';
  }

  /** The closing line of a written block is the first one after its opening line. */
  lemma WrittenClosing(text: string, src: string, fence: string, e: nat, o: nat, c: nat, s: nat)
    requires OccursAt(text, o, src) && OccursAt(text, c, "\n```\n")
    requires "```" !in Split(src, '\n')
    requires fence == "```" && o == e + 1 && c == o + |src| && s == c + 1
    ensures FindClose(text, fence, e + 2) == Some(s)
  {
    WrittenCloseLine(text, fence, c, s);
    forall t | e + 2 <= t < s ensures !ClosesAt(text, t, fence) {
      if ClosesAt(text, t, fence) {
        CloseInsideIsLine(text, o, src, fence, t - o, c);
      }
    }
    FindCloseAt(text, fence, e + 2, s);
  }

  /** Where a written block ends: the two newlines and the closing backticks after the source. */
  lemma WrittenEnd(attrs: string, src: string, fence: string, e: nat, o: nat, c: nat, s: nat, end: nat)
    requires fence == "```" && e == 3 + |attrs| && o == e + 1 && c == o + |src| && s == c + 1
    requires end == |attrs| + |src| + 9
    ensures end == s + |fence| + 1
  {
  }

  /** TryFence once the end of the opening line and the closing line are known. */
  lemma TryFenceIs(text: string, p: nat, k: nat, e: nat, s: nat)
    requires p + k <= |text| && LineEnd(text, p + k) == e && e < |text|
    requires FindClose(text, text[p..p + k], e + 2) == Some(s)
    ensures TryFence(text, p, k) == Some(FenceMatch(p, s + k + 1, text[p..p + k], DropBlanks(text[p + k..e]), text[e + 1..s - 1]))
  {
  }

  /** A block opened at the start of the text by a run of exactly the fence,
      with the given attributes and content, closed right after the content. */
  lemma FencedAtStart(text: string, fence: string, attrs: string, src: string, e: nat, s: nat, end: nat)
    requires |fence| >= 3 && OpeningRun(text, 0) == |fence| && text[0..|fence|] == fence
    requires LineEnd(text, |fence|) == e && e < |text| && e == |fence| + |attrs|
    requires attrs == [] || attrs[0] !in {' ', '\t'}
    requires OccursAt(text, |fence|, attrs) && OccursAt(text, e + 1, src) && s == e + 2 + |src|
    requires FindClose(text, fence, e + 2) == Some(s) && end == s + |fence| + 1
    ensures FencedAt(text, 0) == Some(FenceMatch(0, end, fence, attrs, src))
  {
    TryFenceIs(text, 0, |fence|, e, s);
    OccursAtSlice(text, |fence|, attrs);
    OccursAtSlice(text, e + 1, src);
    assert DropBlanks(attrs) == attrs;
  }

  /** FencedAtStart for the three backticks the writer uses. */
  lemma FencedAtThreeBackticks(text: string, attrs: string, src: string, fence: string, e: nat, o: nat, s: nat, end: nat)
    requires |fence| >= 3 && OpeningRun(text, 0) == |fence| && text[0..|fence|] == fence
    requires LineEnd(text, |fence|) == e && e < |text| && e == |fence| + |attrs|
    requires attrs == [] || attrs[0] !in {'`', ' ', '\t'}
    requires OccursAt(text, 3, attrs) && OccursAt(text, o, src)
    requires FindClose(text, fence, e + 2) == Some(s) && end == s + |fence| + 1
    requires fence == "```" && o == e + 1 && s == o + |src| + 1 && end == |attrs| + |src| + 9
    ensures FencedAt(text, 0) == Some(FenceMatch(0, |attrs| + |src| + 9, "```", attrs, src))
  {
    FencedAtStart(text, fence, attrs, src, e, s, end);
  }

  /** A text that starts with the block the writer emits for a code cell,
      "```" + attributes + "\n" + source + "\n```" and a newline, holds a block
      with the same attributes and source, provided no line of the source is
      itself "```". */
  lemma WrittenBlockReadsBack(text: string, attrs: string, src: string)
    requires OccursAt(text, 0, ("```" + attrs + "\n") + src + "\n```\n")
    requires '\n' !in attrs && (attrs == [] || attrs[0] !in {'`', ' ', '\t'})
    requires "```" !in Split(src, '\n')
    ensures FencedAt(text, 0) == Some(FenceMatch(0, |attrs| + |src| + 9, "```", attrs, src))
  {
    var fence := "```";
    var e := 3 + |attrs|;
    var o := e + 1;
    var c := o + |src|;
    var s := c + 1;
    var end := |attrs| + |src| + 9;
    WrittenPieces(text, attrs, src, e, o, c);
    WrittenOpening(text, attrs, fence, e);
    WrittenClosing(text, src, fence, e, o, c, s);
    WrittenEnd(attrs, src, fence, e, o, c, s, end);
    FencedAtThreeBackticks(text, attrs, src, fence, e, o, s, end);
  }

  // ---- the fence-length rule on concrete text ----

  /** A `~~~` line inside a `~~~~` block is content: the block runs to the `~~~~` line. */
  lemma ShorterFenceStaysContent()
    ensures FencedAt("~~~~\ncode2\n~~~\n~~~~\n", 0)
         == Some(FenceMatch(0, 20, "~~~~", "", "code2\n~~~"))
  {
    var text := "~~~~\ncode2\n~~~\n~~~~\n";
    var f := "~~~~";
    assert OpeningRun(text, 0) == 4 by {
      assert RunLength(text, 4, '~') == 0;
    }
    assert LineEnd(text, 4) == 4;
    assert text[0..4] == f;
    ShorterFenceClose();
    forall i | 0 <= i < 9 ensures text[5..14][i] == "code2\n~~~"[i] {
    }
    assert text[5..14] == "code2\n~~~";
    assert DropBlanks(text[4..4]) == "";
  }

  /** The ```` line at 15 is the first line that closes the ```` block opened at 0. */
  lemma ShorterFenceClose()
    ensures FindClose("~~~~\ncode2\n~~~\n~~~~\n", "~~~~", 6) == Some(15)
  {
    var text := "~~~~\ncode2\n~~~\n~~~~\n";
    var f := "~~~~";
    assert text[14] == '\n' && text[15] == '~' && text[16] == '~' && text[17] == '~' && text[18] == '~' && text[19] == '\n';
    OccursAtChars(text, 15, f);
    assert ClosesAt(text, 15, f);
    forall t | 6 <= t < 15 ensures !ClosesAt(text, t, f) {
      if t == 11 {
        OccursAtChars(text, 11, f);
        assert text[11 + 3] != f[3];
      } else {
        assert text[t - 1] != '\n';
      }
    }
    FindCloseAt(text, f, 6, 15);
  }

  /** In the text of `LongerFenceClosedByShorter` no line closes ```` while
      the ``` line at 11 closes ```. */
  lemma LongerFenceCloses()
    ensures FindClose("````\ncode\n\n```\n", "````", 6) == None
    ensures FindClose("````\ncode\n\n```\n", "```", 6) == Some(11)
  {
    var text := "````\ncode\n\n```\n";
    var f4, f3 := "````", "```";
    assert FindClose(text, f4, 6) == None by {
      assert FindClose(text, f4, 6) == FindClose(text, f4, 7) == FindClose(text, f4, 8);
      assert FindClose(text, f4, 8) == FindClose(text, f4, 9) == FindClose(text, f4, 10);
      assert FindClose(text, f4, 10) == FindClose(text, f4, 11);
    }
    assert text[10] == '\n' && text[11] == '`' && text[12] == '`' && text[13] == '`' && text[14] == '\n';
    OccursAtChars(text, 11, f3);
    assert ClosesAt(text, 11, f3);
    forall t | 6 <= t < 11 ensures !ClosesAt(text, t, f3) {
      if t == 10 {
        assert text[10] != f3[0];
      } else {
        assert text[t - 1] != '\n';
      }
    }
    FindCloseAt(text, f3, 6, 11);
  }

  /** The engine closes a ```` block at a ``` line when no ```` line follows,
      moving the fourth backtick into the attributes; the intended matcher
      reports no block there. */
  lemma LongerFenceClosedByShorter()
    ensures FencedAtAsWritten("````\ncode\n\n```\n", 0)
         == Some(FenceMatch(0, 15, "```", "`", "code\n"))
    ensures FencedAt("````\ncode\n\n```\n", 0) == None
  {
    var text := "````\ncode\n\n```\n";
    var f4, f3 := "````", "```";
    assert OpeningRun(text, 0) == 4 by {
      assert RunLength(text, 4, '`') == 0;
    }
    assert LineEnd(text, 4) == 4;
    assert LineEnd(text, 3) == 4;
    assert text[0..4] == f4 && text[0..3] == f3;
    LongerFenceCloses();
    assert text[5..10] == "code\n";
    assert DropBlanks(text[3..4]) == "`";
    assert TryFence(text, 0, 4) == None;
    assert TryLengths(text, 0, 4) == TryLengths(text, 0, 3);
  }
}
