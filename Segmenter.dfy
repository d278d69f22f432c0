/**
 * `MarkdownReader.parse_blocks` (notedown/notedown.py:250-295) and the two
 * block pre-processors it applies (notedown/notedown.py:168-187).
 *
 * The code pattern's matches are taken as given: a list of spans in text
 * order, each with its named groups, as `finditer` reports them.  With
 * `code_regex='fenced'` that list is `FencedMatches`, built from the
 * character-level matcher of the Fences module.  The stretches between
 * matches become text blocks, the matches code blocks; both are put in
 * position order and blocks without content are dropped.
 */
module Segmenter {
  import opened Wrappers
  import opened Strings
  import Fences

  /** A value of a block dictionary: the key is absent, it holds None, or it holds a string. */
  datatype Field = Missing | Null | Str(s: string)

  /** Python truth of a dictionary value: a non-empty string. */
  predicate Truthy(f: Field) {
    f.Str? && f.s != ""
  }

  /** One match of the code pattern: its span and `m.groupdict()`, where a
      group that took no part in the match is None. */
  datatype Match = Match(start: nat, end: nat, groups: map<string, Option<string>>)

  /** A block dictionary as `parse_blocks` leaves it.  A code block keeps the
      keys the reader later reads; `type` is the constructor. */
  datatype Block =
    | TextBlock(text: string)
    | CodeBlock(content: Field, raw: Field, attributes: Field, indent: Field, icontent: Field)

  /** A block with the position `parse_blocks` sorts it by. */
  datatype At = At(pos: nat, block: Block)

  // ---- block construction and pre-processing ----

  /** The value `proto.update(**groups)` leaves under key, given the prototype's value. */
  function Group(groups: map<string, Option<string>>, key: string, proto: Field): Field {
    if key !in groups then proto
    else if groups[key].Some? then Str(groups[key].value)
    else Null
  }

  /** `new_code_block(**groups)`: the prototype has content and attributes
      set to the empty string and no `raw`, `indent` or `icontent` key. */
  function NewCodeBlock(groups: map<string, Option<string>>): Block {
    CodeBlock(
      Group(groups, "content", Str("")),
      Group(groups, "raw", Missing),
      Group(groups, "attributes", Str("")),
      Group(groups, "indent", Missing),
      Group(groups, "icontent", Missing))
  }

  /** One line with one leading copy of the indent removed, if it has one. */
  function RemoveIndent(line: string, indent: string): string {
    if indent <= line then line[|indent|..] else line
  }

  function DedentLines(lines: seq<string>, indent: string): (r: seq<string>)
    ensures |r| == |lines|
    ensures forall i :: 0 <= i < |lines| ==> r[i] == RemoveIndent(lines[i], indent)
  {
    if lines == [] then [] else [RemoveIndent(lines[0], indent)] + DedentLines(lines[1..], indent)
  }

  /** `re.sub('^' + indent, '', s, flags=re.MULTILINE)`: `^` matches at the
      start of every line, so each line loses one leading copy of the indent. */
  function Dedent(s: string, indent: string): string {
    Join(DedentLines(Split(s, '\n'), indent), "\n")
  }

  /** Dedenting works line by line: the lines keep their number, a line that
      starts with the indent loses exactly one copy of it, any other line is
      unchanged. */
  lemma DedentMeaning(s: string, indent: string)
    ensures |Split(Dedent(s, indent), '\n')| == |Split(s, '\n')|
    ensures forall i :: 0 <= i < |Split(s, '\n')| && indent <= Split(s, '\n')[i] ==>
      Split(Dedent(s, indent), '\n')[i] == Split(s, '\n')[i][|indent|..]
    ensures forall i :: 0 <= i < |Split(s, '\n')| && !(indent <= Split(s, '\n')[i]) ==>
      Split(Dedent(s, indent), '\n')[i] == Split(s, '\n')[i]
  {
    var before := Split(s, '\n');
    var lines := DedentLines(before, indent);
    forall i | 0 <= i < |lines| ensures '\n' !in lines[i] {
      RemoveIndentKeepsLine(before[i], indent);
    }
    SplitJoin(lines, '\n');
    assert Split(Dedent(s, indent), '\n') == lines;
  }

  lemma RemoveIndentKeepsLine(line: string, indent: string)
    requires '\n' !in line
    ensures '\n' !in RemoveIndent(line, indent)
  {
    var r := RemoveIndent(line, indent);
    if indent <= line {
      forall x | 0 <= x < |r| ensures r[x] != '\n' {
        assert r[x] == line[|indent| + x];
      }
    }
  }

  /** `pre_process_code_block`: a block with a non-empty indent gets its
      dedented `icontent` as content; any other block is left as it is. */
  function PreProcessCode(b: Block): (r: Block)
    requires b.CodeBlock? && (Truthy(b.indent) ==> b.icontent.Str?)
    ensures r.CodeBlock? && r.raw == b.raw && r.attributes == b.attributes
    ensures r.indent == b.indent && r.icontent == b.icontent
    ensures !Truthy(b.indent) ==> r == b
    ensures Truthy(b.indent) ==> r.content == Str(Dedent(b.icontent.s, b.indent.s))
  {
    if Truthy(b.indent) then b.(content := Str(Dedent(b.icontent.s, b.indent.s))) else b
  }

  /** `pre_process_text_block`: surrounding whitespace is stripped. */
  function PreProcessText(b: Block): Block
    requires b.TextBlock?
  {
    TextBlock(Strip(b.text))
  }

  /** `if cell['content']`: the block survives the final filter. */
  predicate HasContent(b: Block) {
    match b
    case TextBlock(c) => c != ""
    case CodeBlock(c, _, _, _, _) => Truthy(c)
  }

  // ---- the spans ----

  /** `finditer` reports non-empty matches inside the text, in order and without overlap. */
  ghost predicate Spans(text: string, ms: seq<Match>) {
    && (forall i :: 0 <= i < |ms| ==> ms[i].start < ms[i].end <= |text|)
    && (forall i :: 0 <= i < |ms| - 1 ==> ms[i].end <= ms[i + 1].start)
  }

  /** The groups of one alternative take part together: a match with an
      `indent`, or without a `raw` group, is an indented match and so has
      its `icontent`. */
  ghost predicate IndentsPaired(ms: seq<Match>) {
    forall i :: 0 <= i < |ms| ==>
      var b := NewCodeBlock(ms[i].groups);
      (Truthy(b.indent) || b.raw.Null?) ==> b.icontent.Str?
  }

  /** `text_starts[k]`: 0, then the end of each match. */
  function GapStart(ms: seq<Match>, k: nat): nat
    requires k <= |ms|
  {
    if k == 0 then 0 else ms[k - 1].end
  }

  /** `text_stops[k]`: the start of each match, then the end of the text. */
  function GapStop(text: string, ms: seq<Match>, k: nat): nat
    requires k <= |ms|
  {
    if k == |ms| then |text| else ms[k].start
  }

  lemma GapInside(text: string, ms: seq<Match>, k: nat)
    requires Spans(text, ms) && k <= |ms|
    ensures GapStart(ms, k) <= GapStop(text, ms, k) <= |text|
  {
    if 0 < k < |ms| {
      assert ms[k - 1].end <= ms[k].start;
    }
  }

  /** The k-th stretch of text that no match covers. */
  function Gap(text: string, ms: seq<Match>, k: nat): string
    requires Spans(text, ms) && k <= |ms|
  {
    GapInside(text, ms, k);
    text[GapStart(ms, k)..GapStop(text, ms, k)]
  }

  /** `text_blocks`, already stripped: one per gap, at the gap's start. */
  function TextBlocks(text: string, ms: seq<Match>): (r: seq<At>)
    requires Spans(text, ms)
    ensures |r| == |ms| + 1
    ensures forall k :: 0 <= k <= |ms| ==> r[k] == At(GapStart(ms, k), PreProcessText(TextBlock(Gap(text, ms, k))))
  {
    seq(|ms| + 1, k requires 0 <= k <= |ms| => At(GapStart(ms, k), PreProcessText(TextBlock(Gap(text, ms, k)))))
  }

  /** `code_blocks`, already pre-processed: one per match, at the match's start. */
  function CodeBlocks(ms: seq<Match>): (r: seq<At>)
    requires IndentsPaired(ms)
    ensures |r| == |ms|
    ensures forall k :: 0 <= k < |ms| ==> r[k] == At(ms[k].start, PreProcessCode(NewCodeBlock(ms[k].groups)))
  {
    seq(|ms|, k requires 0 <= k < |ms| => At(ms[k].start, PreProcessCode(NewCodeBlock(ms[k].groups))))
  }

  // ---- sorting by position ----

  predicate Sorted(xs: seq<At>) {
    forall i :: 0 <= i < |xs| - 1 ==> xs[i].pos <= xs[i + 1].pos
  }

  /** `sorted(text_blocks + code_blocks, key=pos)`.  Python's sort is stable and
      both lists are already in position order, so the sort is their merge,
      taking the text block first when two positions are equal. */
  function SortByPos(xs: seq<At>, ys: seq<At>): seq<At>
    decreases |xs| + |ys|
  {
    if xs == [] then ys
    else if ys == [] then xs
    else if xs[0].pos <= ys[0].pos then [xs[0]] + SortByPos(xs[1..], ys)
    else [ys[0]] + SortByPos(xs, ys[1..])
  }

  /** The sort loses and invents nothing. */
  lemma {:induction false} SortByPosPermutes(xs: seq<At>, ys: seq<At>)
    ensures multiset(SortByPos(xs, ys)) == multiset(xs + ys)
    decreases |xs| + |ys|
  {
    if xs != [] && ys != [] {
      if xs[0].pos <= ys[0].pos {
        SortByPosPermutes(xs[1..], ys);
        assert xs + ys == [xs[0]] + (xs[1..] + ys);
      } else {
        SortByPosPermutes(xs, ys[1..]);
        assert ys == [ys[0]] + ys[1..];
        assert multiset(xs + ys) == multiset(xs) + multiset(ys);
        assert multiset(xs + ys[1..]) == multiset(xs) + multiset(ys[1..]);
      }
    } else if xs == [] {
      assert xs + ys == ys;
    } else {
      assert xs + ys == xs;
    }
  }

  /** The first element of the sort is the first of one of the two lists. */
  lemma SortByPosHead(xs: seq<At>, ys: seq<At>)
    requires xs != [] || ys != []
    ensures var r := SortByPos(xs, ys);
      r != [] && (r[0] == (if xs == [] then ys[0] else if ys == [] then xs[0]
                           else if xs[0].pos <= ys[0].pos then xs[0] else ys[0]))
  {
  }

  lemma SortedCons(x: At, t: seq<At>)
    requires Sorted(t) && (t == [] || x.pos <= t[0].pos)
    ensures Sorted([x] + t)
  {
    var r := [x] + t;
    forall i | 0 <= i < |r| - 1 ensures r[i].pos <= r[i + 1].pos {
      if i > 0 {
        assert r[i] == t[i - 1] && r[i + 1] == t[i];
      }
    }
  }

  /** Merging two position-ordered lists gives a position-ordered list. */
  lemma {:induction false} SortByPosSorted(xs: seq<At>, ys: seq<At>)
    requires Sorted(xs) && Sorted(ys)
    ensures Sorted(SortByPos(xs, ys))
    decreases |xs| + |ys|
  {
    if xs != [] && ys != [] {
      if xs[0].pos <= ys[0].pos {
        var t := SortByPos(xs[1..], ys);
        assert Sorted(xs[1..]) by {
          forall i | 0 <= i < |xs| - 2 ensures xs[1..][i].pos <= xs[1..][i + 1].pos {
            assert xs[1..][i] == xs[i + 1] && xs[1..][i + 1] == xs[i + 2];
          }
        }
        SortByPosSorted(xs[1..], ys);
        if xs[1..] != [] {
          assert xs[1..][0] == xs[1];
        }
        SortByPosHead(xs[1..], ys);
        SortedCons(xs[0], t);
      } else {
        var t := SortByPos(xs, ys[1..]);
        assert Sorted(ys[1..]) by {
          forall i | 0 <= i < |ys| - 2 ensures ys[1..][i].pos <= ys[1..][i + 1].pos {
            assert ys[1..][i] == ys[i + 1] && ys[1..][i + 1] == ys[i + 2];
          }
        }
        SortByPosSorted(xs, ys[1..]);
        if ys[1..] != [] {
          assert ys[1..][0] == ys[1];
        }
        SortByPosHead(xs, ys[1..]);
        SortedCons(ys[0], t);
      }
    }
  }

  /** Text and code taking turns: T0, C0, T1, C1, ..., Tn. */
  function Interleave(ts: seq<At>, cs: seq<At>): (r: seq<At>)
    requires |ts| == |cs| + 1
    ensures |r| == |ts| + |cs|
    decreases |cs|
  {
    if cs == [] then ts else [ts[0], cs[0]] + Interleave(ts[1..], cs[1..])
  }

  /** Each code position lies between the text positions around it, strictly
      before the next one (a match is never empty). */
  ghost predicate TakesTurns(ts: seq<At>, cs: seq<At>) {
    && |ts| == |cs| + 1
    && forall k :: 0 <= k < |cs| ==> ts[k].pos <= cs[k].pos < ts[k + 1].pos
  }

  lemma {:induction false} SortByPosTakesTurns(ts: seq<At>, cs: seq<At>)
    requires TakesTurns(ts, cs)
    ensures SortByPos(ts, cs) == Interleave(ts, cs)
    decreases |cs|
  {
    if cs != [] {
      assert TakesTurns(ts[1..], cs[1..]) by {
        forall k | 0 <= k < |cs| - 1 ensures ts[1..][k].pos <= cs[1..][k].pos < ts[1..][k + 1].pos {
          assert ts[1..][k] == ts[k + 1] && cs[1..][k] == cs[k + 1] && ts[1..][k + 1] == ts[k + 2];
        }
      }
      SortByPosTakesTurns(ts[1..], cs[1..]);
      assert ts[1..][0] == ts[1];
      assert SortByPos(ts[1..], cs) == [cs[0]] + SortByPos(ts[1..], cs[1..]);
    }
  }

  // ---- parse_blocks ----

  function Blocks(xs: seq<At>): (r: seq<Block>)
    ensures |r| == |xs| && forall i :: 0 <= i < |xs| ==> r[i] == xs[i].block
  {
    if xs == [] then [] else [xs[0].block] + Blocks(xs[1..])
  }

  /** `[cell for cell in all_blocks if cell['content']]`. */
  function KeepNonEmpty(bs: seq<Block>): (r: seq<Block>)
    ensures |r| <= |bs|
    ensures forall i :: 0 <= i < |r| ==> HasContent(r[i])
    ensures forall b :: b in r <==> b in bs && HasContent(b)
  {
    if bs == [] then []
    else if HasContent(bs[0]) then [bs[0]] + KeepNonEmpty(bs[1..])
    else KeepNonEmpty(bs[1..])
  }

  /** `parse_blocks(text)` for the matches ms of the code pattern in text. */
  function ParseBlocks(text: string, ms: seq<Match>): seq<Block>
    requires Spans(text, ms) && IndentsPaired(ms)
  {
    KeepNonEmpty(Blocks(SortByPos(TextBlocks(text, ms), CodeBlocks(ms))))
  }

  lemma TextAndCodeTakeTurns(text: string, ms: seq<Match>)
    requires Spans(text, ms) && IndentsPaired(ms)
    ensures TakesTurns(TextBlocks(text, ms), CodeBlocks(ms))
  {
    var ts, cs := TextBlocks(text, ms), CodeBlocks(ms);
    forall k | 0 <= k < |cs| ensures ts[k].pos <= cs[k].pos < ts[k + 1].pos {
      GapInside(text, ms, k);
    }
  }

  /** Before empty blocks are dropped, text and code blocks take turns in
      source order: the gap before the first match, the first match, the gap
      after it, and so on, ending with the gap after the last match. */
  lemma ParseBlocksOrder(text: string, ms: seq<Match>)
    requires Spans(text, ms) && IndentsPaired(ms)
    ensures ParseBlocks(text, ms) == KeepNonEmpty(Blocks(Interleave(TextBlocks(text, ms), CodeBlocks(ms))))
    ensures Sorted(SortByPos(TextBlocks(text, ms), CodeBlocks(ms)))
  {
    var ts, cs := TextBlocks(text, ms), CodeBlocks(ms);
    TextAndCodeTakeTurns(text, ms);
    SortByPosTakesTurns(ts, cs);
    assert Sorted(ts) by {
      forall k | 0 <= k < |ts| - 1 ensures ts[k].pos <= ts[k + 1].pos {
        GapInside(text, ms, k);
      }
    }
    assert Sorted(cs) by {
      forall k | 0 <= k < |cs| - 1 ensures cs[k].pos <= cs[k + 1].pos {
        assert ms[k].start < ms[k].end <= ms[k + 1].start;
      }
    }
    SortByPosSorted(ts, cs);
  }

  /** Two lists holding the same positioned blocks hold the same blocks. */
  lemma BlocksOfPermutation(xs: seq<At>, ys: seq<At>, b: Block)
    requires multiset(xs) == multiset(ys)
    ensures b in Blocks(xs) <==> b in Blocks(ys)
  {
    if b in Blocks(xs) {
      var i :| 0 <= i < |xs| && Blocks(xs)[i] == b;
      assert xs[i] in multiset(ys);
      var j :| 0 <= j < |ys| && ys[j] == xs[i];
      assert Blocks(ys)[j] == b;
    }
    if b in Blocks(ys) {
      var j :| 0 <= j < |ys| && Blocks(ys)[j] == b;
      assert ys[j] in multiset(xs);
      var i :| 0 <= i < |xs| && xs[i] == ys[j];
      assert Blocks(xs)[i] == b;
    }
  }

  /** A block comes out exactly when it has content and was built, as a text
      block for a gap or as a code block for a match. */
  lemma ParseBlocksMembers(text: string, ms: seq<Match>, b: Block)
    requires Spans(text, ms) && IndentsPaired(ms)
    ensures b in ParseBlocks(text, ms) <==>
      HasContent(b) && b in Blocks(TextBlocks(text, ms) + CodeBlocks(ms))
  {
    var ts, cs := TextBlocks(text, ms), CodeBlocks(ms);
    SortByPosPermutes(ts, cs);
    BlocksOfPermutation(SortByPos(ts, cs), ts + cs, b);
  }

  /** A text block that comes out is a stripped gap: not empty, and with no
      whitespace at either end. */
  lemma ParseBlocksText(text: string, ms: seq<Match>, b: Block)
    requires Spans(text, ms) && IndentsPaired(ms)
    requires b in ParseBlocks(text, ms) && b.TextBlock?
    ensures exists k :: 0 <= k <= |ms| && b.text == Strip(Gap(text, ms, k))
    ensures b.text != [] && b.text[0] !in Whitespace && b.text[|b.text| - 1] !in Whitespace
  {
    var ts, cs := TextBlocks(text, ms), CodeBlocks(ms);
    ParseBlocksMembers(text, ms, b);
    var j :| 0 <= j < |ts + cs| && Blocks(ts + cs)[j] == b;
    if j < |ts| {
      assert (ts + cs)[j] == ts[j];
      StripMeaning(Gap(text, ms, j));
    }
  }

  /** The gaps and the matched text, in turn, make up the whole text again. */
  function Reassemble(text: string, ms: seq<Match>, k: nat): string
    requires Spans(text, ms) && k <= |ms|
    decreases |ms| - k
  {
    GapInside(text, ms, k);
    if k == |ms| then Gap(text, ms, k)
    else Gap(text, ms, k) + text[ms[k].start..ms[k].end] + Reassemble(text, ms, k + 1)
  }

  /** The text blocks are exactly the stretches the matches leave: with the
      matched text between them they rebuild the text from the k-th gap on. */
  lemma {:induction false} GapsPartition(text: string, ms: seq<Match>, k: nat)
    requires Spans(text, ms) && k <= |ms|
    ensures Reassemble(text, ms, k) == text[GapStart(ms, k)..]
    decreases |ms| - k
  {
    GapInside(text, ms, k);
    if k < |ms| {
      GapsPartition(text, ms, k + 1);
      var a, b, c := GapStart(ms, k), ms[k].start, ms[k].end;
      assert GapStart(ms, k + 1) == c;
      assert text[a..] == text[a..b] + text[b..c] + text[c..];
    }
  }

  lemma WholeTextPartition(text: string, ms: seq<Match>)
    requires Spans(text, ms)
    ensures Reassemble(text, ms, 0) == text
  {
    GapsPartition(text, ms, 0);
    assert text[0..] == text;
  }

  // ---- finditer over the fenced pattern alone ----

  /** The group dictionary of a fenced match: `raw`, `fence`, `attributes`, `content`. */
  function FencedGroups(text: string, m: Fences.FenceMatch): map<string, Option<string>>
    requires m.start <= m.end <= |text|
  {
    map["raw" := Some(text[m.start..m.end]), "fence" := Some(m.fence),
        "attributes" := Some(m.attributes), "content" := Some(m.content)]
  }

  function ToMatches(text: string, fs: seq<Fences.FenceMatch>): (r: seq<Match>)
    requires forall i :: 0 <= i < |fs| ==> fs[i].start <= fs[i].end <= |text|
    ensures |r| == |fs|
    ensures forall i :: 0 <= i < |fs| ==>
      r[i] == Match(fs[i].start, fs[i].end, FencedGroups(text, fs[i]))
  {
    if fs == [] then [] else [Match(fs[0].start, fs[0].end, FencedGroups(text, fs[0]))] + ToMatches(text, fs[1..])
  }

  /** `finditer` with `code_regex='fenced'`. */
  function FencedMatches(text: string): (r: seq<Match>)
    ensures Spans(text, r) && IndentsPaired(r)
  {
    Fences.ScanFencedOrdered(text, 0);
    ToMatches(text, Fences.ScanFenced(text, 0))
  }

  /** With the fenced pattern alone no block is dedented: a code block's
      content is the content group, its raw text the whole match. */
  lemma FencedCodeBlocks(text: string, k: nat)
    requires k < |FencedMatches(text)|
    ensures var m := Fences.ScanFenced(text, 0)[k];
      && CodeBlocks(FencedMatches(text))[k].block
         == CodeBlock(Str(m.content), Str(text[m.start..m.end]), Str(m.attributes), Missing, Missing)
  {
  }
}
