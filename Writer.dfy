/**
 * The pure parts of `MarkdownWriter` (notedown/notedown.py:376-526): the
 * filters the markdown template calls to write a code cell back as a fenced
 * block, the attribute set written on it, `dequote`, and the clean-up of the
 * text the template produces.
 *
 * Rendering an attribute record as `{.class #id key=value}` text belongs to
 * the `pandocattributes` library and JSON encoding to `json.dumps`; both are
 * parameters here (`render`, `dumps`).
 */
module Writer {
  import opened Wrappers
  import opened Strings
  import opened Notebook
  import opened Fences
  import opened Classifier
  import opened Assembler

  // ---- create_attributes ----

  /** The `cell_type` argument of `create_attributes`. */
  datatype Purpose = ForInput | ForFigure | ForOther

  /** `list.remove` guarded by `in`. */
  function RemoveIfPresent(xs: seq<string>, x: string): (r: seq<string>)
    ensures x in xs ==> r == RemoveFirst(xs, x)
    ensures x !in xs ==> r == xs
  {
    if x in xs then RemoveFirst(xs, x) else xs
  }

  /** `if cell.execution_count:` — a count of 0 is as good as none. */
  predicate CountGiven(count: Option<int>) {
    count.Some? && count.value != 0
  }

  /** The classes left once one `python` and one `input` class are removed. */
  function Others(classes: seq<string>): seq<string> {
    RemoveIfPresent(RemoveIfPresent(classes, "python"), "input")
  }

  /** Only one `python` and one `input` class are removed, and nothing else. */
  lemma OthersRemoveOne(classes: seq<string>)
    ensures multiset(Others(classes))
      + multiset(if "python" in classes then ["python"] else [])
      + multiset(if "input" in classes then ["input"] else []) == multiset(classes)
  {
    var a := RemoveIfPresent(classes, "python");
    assert "input" in a <==> "input" in classes;
  }

  /** The attribute record an input block is written with: `python` first,
      `input` second, the other classes after them in their order, and the
      execution count as the key `n` when there is one. */
  function InputRecord(a: Attributes, count: Option<int>): (r: Attributes)
    ensures r.classes == ["python", "input"] + Others(a.classes) && r.id == a.id
    ensures r.kvs == if CountGiven(count) then a.kvs["n" := ShowInt(count.value)] else a.kvs
  {
    var b := a.(classes := ["python", "input"] + Others(a.classes));
    if CountGiven(count) then b.(kvs := b.kvs["n" := ShowInt(count.value)]) else b
  }

  /** The record before rendering, or `None` when `create_attributes`
      returns the bare word `python`: when outputs are stripped, or for a
      cell without an execution count (a markdown cell). */
  function WrittenAttributes(cell: Cell, purpose: Purpose, strip: bool): (r: Option<Attributes>)
    ensures r.None? <==> strip || cell.MarkdownCell?
    ensures r.Some? && purpose == ForInput ==> r.value == InputRecord(cell.metadata.GetOr(NoAttributes), cell.executionCount)
    ensures r.Some? && purpose == ForFigure ==>
      ("caption" !in r.value.kvs && r.value.classes == Others(cell.metadata.GetOr(NoAttributes).classes) + ["figure", "output"])
    ensures r.Some? && purpose == ForOther ==> r.value.classes == Others(cell.metadata.GetOr(NoAttributes).classes)
  {
    if strip || cell.MarkdownCell? then None
    else
      var a := cell.metadata.GetOr(NoAttributes);
      match purpose
      case ForInput => Some(InputRecord(a, cell.executionCount))
      case ForFigure => Some(Attributes(a.id, Others(a.classes) + ["figure", "output"], a.kvs - {"caption"}))
      case ForOther => Some(a.(classes := Others(a.classes)))
  }

  /** `create_attributes(cell, cell_type)`. */
  function AttributesText(cell: Cell, purpose: Purpose, strip: bool, render: (Attributes, Purpose) -> string): (r: string)
    ensures strip ==> r == "python"
  {
    match WrittenAttributes(cell, purpose, strip)
    case None => "python"
    case Some(a) => render(a, purpose)
  }

  /** Writing an input block twice gives the same attributes as writing it once. */
  lemma InputRecordIdempotent(a: Attributes, count: Option<int>)
    ensures InputRecord(InputRecord(a, count), count) == InputRecord(a, count)
  {
    OthersOfWritten(Others(a.classes));
  }

  lemma OthersOfWritten(rest: seq<string>)
    ensures Others(["python", "input"] + rest) == rest
  {
    var w := ["python", "input"] + rest;
    assert IndexOf(w, "python") == 0;
    assert RemoveFirst(w, "python") == ["input"] + rest;
    assert IndexOf(["input"] + rest, "input") == 0;
  }

  /** The execution count written on an input block is the count the
      reader's `create_code_cell` reads from it. */
  lemma CountRoundTrip(content: string, a: Attributes, n: int)
    requires n != 0
    ensures CodeCellFor(content, InputRecord(a, Some(n))).Ok?
    ensures CodeCellFor(content, InputRecord(a, Some(n))).value.executionCount == Some(n)
  {
    CountReadsBack(content, InputRecord(a, Some(n)), n);
  }

  // ---- the code block filters ----

  /** `create_input_codeblock`: the source between two three-backtick fences,
      the attributes after the opening one. */
  function InputBlock(cell: Cell, strip: bool, render: (Attributes, Purpose) -> string): string {
    "```" + AttributesText(cell, ForInput, strip, render) + "\n" + cell.source + "\n```"
  }

  /** `str(cell.execution_count)`. */
  function CountText(count: Option<int>): string {
    if count.Some? then ShowInt(count.value) else "None"
  }

  /** `create_output_codeblock`. */
  function OutputCodeBlock(cell: Cell, dumps: seq<Output> -> string): string
    requires cell.CodeCell?
  {
    "```" + OutputAttributes(cell) + "\n" + dumps(cell.outputs) + "\n```"
  }

  function OutputAttributes(cell: Cell): string
    requires cell.CodeCell?
  {
    "{.json .output n=" + CountText(cell.executionCount) + "}"
  }

  /** `create_output_block`: nothing when outputs are stripped. */
  function OutputBlock(cell: Cell, strip: bool, dumps: seq<Output> -> string): (r: string)
    requires cell.CodeCell?
    ensures strip <==> r == ""
  {
    if strip then "" else OutputCodeBlock(cell, dumps)
  }

  lemma OccursAtFront(w: string, rest: string)
    ensures OccursAt(w + rest, 0, w)
  {
    OccursAtSlice(w + rest, 0, w);
    assert (w + rest)[0..|w|] == w;
  }

  /** A written input block followed by a newline is read back by the
      fenced pattern with the same attribute text and source, when no line
      of the source is a bare fence. */
  lemma InputBlockReadsBack(cell: Cell, strip: bool, render: (Attributes, Purpose) -> string, rest: string)
    requires var attrs := AttributesText(cell, ForInput, strip, render);
      '\n' !in attrs && (attrs == [] || attrs[0] !in {'`', ' ', '\t'})
    requires "```" !in Split(cell.source, '\n')
    ensures var attrs := AttributesText(cell, ForInput, strip, render);
      FencedAt(InputBlock(cell, strip, render) + "\n" + rest, 0)
        == Some(FenceMatch(0, |attrs| + |cell.source| + 9, "```", attrs, cell.source))
  {
    BlockReadsBack(AttributesText(cell, ForInput, strip, render), cell.source, rest);
  }

  lemma BlockReadsBack(attrs: string, src: string, rest: string)
    requires '\n' !in attrs && (attrs == [] || attrs[0] !in {'`', ' ', '\t'})
    requires "```" !in Split(src, '\n')
    ensures FencedAt("```" + attrs + "\n" + src + "\n```" + "\n" + rest, 0)
      == Some(FenceMatch(0, |attrs| + |src| + 9, "```", attrs, src))
  {
    var w := ("```" + attrs + "\n") + src + "\n```\n";
    BlockText(attrs, src, rest);
    OccursAtFront(w, rest);
    WrittenBlockReadsBack(w + rest, attrs, src);
  }

  lemma BlockText(attrs: string, src: string, rest: string)
    ensures "```" + attrs + "\n" + src + "\n```" + "\n" + rest == (("```" + attrs + "\n") + src + "\n```\n") + rest
  {
    assert "\n```" + "\n" == "\n```\n";
  }

  /** With outputs stripped every input block is written as `python` code and reads back. */
  lemma StrippedInputReadsBack(cell: Cell, render: (Attributes, Purpose) -> string, rest: string)
    requires "```" !in Split(cell.source, '\n')
    ensures FencedAt(InputBlock(cell, true, render) + "\n" + rest, 0)
      == Some(FenceMatch(0, |cell.source| + 15, "```", "python", cell.source))
  {
    InputBlockReadsBack(cell, true, render, rest);
  }

  /** A written output block followed by a newline is read back with the
      JSON text as its source. */
  lemma OutputBlockReadsBack(cell: Cell, dumps: seq<Output> -> string, rest: string)
    requires cell.CodeCell? && "```" !in Split(dumps(cell.outputs), '\n')
    ensures '\n' !in CountText(cell.executionCount)
    ensures var attrs := OutputAttributes(cell);
      FencedAt(OutputBlock(cell, false, dumps) + "\n" + rest, 0)
        == Some(FenceMatch(0, |attrs| + |dumps(cell.outputs)| + 9, "```", attrs, dumps(cell.outputs)))
  {
    var attrs := OutputAttributes(cell);
    CountTextOneLine(cell.executionCount);
    assert '\n' !in attrs;
    BlockReadsBack(attrs, dumps(cell.outputs), rest);
  }

  lemma CountTextOneLine(count: Option<int>)
    ensures '\n' !in CountText(count)
  {
    if count.Some? {
      var n := count.value;
      var m: nat := if n < 0 then -n else n;
      ShowNatDigits(m);
    }
  }

  lemma {:induction false} ShowNatDigits(n: nat)
    ensures AllDigits(ShowNat(n))
  {
    if n >= 10 {
      ShowNatDigits(n / 10);
    }
  }

  // ---- dequote ----

  /** `dequote`: a string of two or more characters that starts and ends
      with the same quote character loses those two quotes. */
  function Dequote(s: string): (r: string)
    ensures |s| >= 2 && s[0] in {'"', '\''} && s[|s| - 1] == s[0] ==> r == s[1..|s| - 1]
    ensures !(|s| >= 2 && s[0] in {'"', '\''} && s[|s| - 1] == s[0]) ==> r == s
  {
    if |s| < 2 then s
    else if s[0] == s[|s| - 1] && (s[0] == '"' || s[0] == '\'') then s[1..|s| - 1]
    else s
  }

  /** `dequote` undoes a pair of double or single quotes put around any text,
      such as the double quotes `get_caption_comments` puts around a caption. */
  lemma DequoteQuoted(q: char, x: string)
    requires q == '"' || q == '\''
    ensures Dequote([q] + x + [q]) == x
  {
    var s := [q] + x + [q];
    assert s[1..|s| - 1] == x;
  }

  /** The caption read from a figure's comments is written back without its quotes. */
  lemma CaptionDequoted(content: string)
    requires "## fig:" <= content
    ensures var caption := CaptionComments(content).1.value;
      Dequote(caption) == caption[1..|caption| - 1]
  {
    CaptionCommentsShape(content);
  }

  // ---- the clean-up in `writes` ----

  predicate Blank(s: string) {
    forall i :: 0 <= i < |s| ==> s[i] in Whitespace
  }

  /** The length of the leading run of whitespace. */
  function LeadingBlank(s: string): (n: nat)
    ensures n <= |s| && Blank(s[..n]) && (n < |s| ==> s[n] !in Whitespace)
  {
    if s == [] || s[0] !in Whitespace then 0
    else
      var m := LeadingBlank(s[1..]);
      assert s[..m + 1] == [s[0]] + s[1..][..m];
      m + 1
  }

  /** The position of the last newline before position n. */
  function LastNewline(s: string, n: nat): (r: Option<nat>)
    requires n <= |s|
    ensures r.Some? ==> r.value < n && s[r.value] == '\n' && '\n' !in s[r.value + 1..n]
    ensures r.None? ==> '\n' !in s[..n]
  {
    if n == 0 then None
    else if s[n - 1] == '\n' then Some(n - 1)
    else
      var r := LastNewline(s, n - 1);
      assert r.Some? ==> s[r.value + 1..n] == s[r.value + 1..n - 1] + [s[n - 1]];
      assert r.None? ==> s[..n] == s[..n - 1] + [s[n - 1]];
      r
  }

  /** What `\A\s*\n` removes: the leading whitespace up to its last newline. */
  function LeadingCut(s: string): (k: nat)
    ensures k <= LeadingBlank(s) && Blank(s[..k])
    ensures k > 0 ==> s[k - 1] == '\n'
    ensures '\n' !in s[k..LeadingBlank(s)]
  {
    var n := LeadingBlank(s);
    match LastNewline(s, n)
    case Some(i) =>
      assert s[..i + 1] == s[..n][..i + 1];
      i + 1
    case None =>
      assert s[0..n] == s[..n];
      0
  }

  /** `re.sub(r'\A\s*\n|^\s*\Z', '', body)` as written.  The first
      alternative wins whenever it matches, and without the MULTILINE flag
      `^` only matches at the start, so the second alternative only removes
      a body that is whitespace throughout and holds no newline; after a
      first-alternative match nothing else can match. */
  function TidyAsWritten(body: string): (r: string)
    ensures LeadingCut(body) == 0 && Blank(body) ==> r == ""
    ensures LeadingCut(body) > 0 || !Blank(body) ==> r == body[LeadingCut(body)..]
  {
    var k := LeadingCut(body);
    if k > 0 then body[k..]
    else if LeadingBlank(body) == |body| then ""
    else body
  }

  /** A trailing blank line survives the clean-up as written. */
  lemma TrailingBlankLineKept()
    ensures TidyAsWritten("x\n\n") == "x\n\n"
    ensures Tidy("x\n\n") == "x\n"
  {
    var s := "x\n\n";
    assert s[0] !in Whitespace;
    assert LeadingBlank(s) == 0;
    assert !Blank(s);
    assert !Blank(s[0..]);
    assert !(Blank(s[1..]) && LineStart(s, 1));
    assert Blank(s[2..]) && LineStart(s, 2);
    assert BlankTail(s, 0) == 2;
  }

  /** A blank body keeps what follows its last newline under the clean-up
      as written; the corrected clean-up leaves nothing. */
  lemma BlankBodyKeepsSpaces()
    ensures TidyAsWritten(" \n ") == " "
    ensures Tidy(" \n ") == ""
  {
    var s := " \n ";
    assert Blank(s);
    assert LeadingBlank(s) == 3;
    assert LastNewline(s, 3) == Some(1);
    assert LeadingCut(s) == 2;
    assert s[2..] == " " && Blank(s[2..][0..]);
  }

  /** The first line start at or after `p` from which the rest of `t` is
      blank, or the end of `t` when there is none. */
  function BlankTail(t: string, p: nat): (q: nat)
    requires p <= |t|
    ensures p <= q <= |t| && Blank(t[q..])
    ensures forall i :: p <= i < q && LineStart(t, i) ==> !Blank(t[i..])
    decreases |t| - p
  {
    if p == |t| then p
    else if LineStart(t, p) && Blank(t[p..]) then p
    else BlankTail(t, p + 1)
  }

  /** The clean-up the comment in `writes` describes: blank lines at the
      start and at the end are removed. */
  function Tidy(body: string): (r: string)
  {
    var t := body[LeadingCut(body)..];
    t[..BlankTail(t, 0)]
  }

  /** The corrected clean-up removes only whitespace, from both ends. */
  lemma TidyRemovesBlank(body: string)
    ensures var k := LeadingCut(body); var r := Tidy(body);
      && k + |r| <= |body| && r == body[k..k + |r|]
      && Blank(body[..k]) && Blank(body[k + |r|..])
  {
    var k := LeadingCut(body);
    var t := body[k..];
    var q := BlankTail(t, 0);
    assert body[k + q..] == t[q..];
  }

  /** The text left does not start with a blank line. */
  lemma TidyNoLeadingBlankLine(body: string)
    ensures var r := Tidy(body);
      forall i :: 0 <= i < |r| && Blank(r[..i + 1]) ==> r[i] != '\n'
  {
    var k := LeadingCut(body);
    var r := Tidy(body);
    forall i | 0 <= i < |r| && Blank(r[..i + 1])
      ensures r[i] != '\n'
    {
      assert r[..i + 1] == body[k..k + i + 1];
      NoNewlineInLead(body, k, i);
    }
  }

  /** No blank line is left at the end of the text. */
  lemma TidyNoTrailingBlankLine(body: string)
    ensures var r := Tidy(body);
      forall i :: 0 <= i < |r| && LineStart(r, i) ==> !Blank(r[i..])
  {
    var t := body[LeadingCut(body)..];
    var q := BlankTail(t, 0);
    var r := t[..q];
    forall i | 0 <= i < |r| && LineStart(r, i)
      ensures !Blank(r[i..])
    {
      NotBlankBefore(t, q, i);
    }
  }

  lemma NotBlankBefore(t: string, q: nat, i: nat)
    requires i < q <= |t| && Blank(t[q..]) && !Blank(t[i..])
    ensures !Blank(t[..q][i..])
  {
    var j :| 0 <= j < |t[i..]| && t[i..][j] !in Whitespace;
    assert i + j < q;
    assert t[..q][i..][j] == t[i + j];
  }

  /** Within the whitespace that follows the cut there is no newline. */
  lemma NoNewlineInLead(body: string, k: nat, i: nat)
    requires k == LeadingCut(body) && k + i < |body|
    requires Blank(body[k..k + i + 1])
    ensures body[k + i] != '\n'
  {
    var n := LeadingBlank(body);
    assert k + i < n;
    assert body[k..n][i] == body[k + i];
  }

  /** `writes`: the template's text after the clean-up, which takes away
      whitespace only, from both ends, and leaves no blank line at either
      end. */
  function Writes(body: string): (r: string)
    ensures LeadingCut(body) + |r| <= |body| && r == body[LeadingCut(body)..LeadingCut(body) + |r|]
    ensures Blank(body[..LeadingCut(body)]) && Blank(body[LeadingCut(body) + |r|..])
    ensures forall i :: 0 <= i < |r| && Blank(r[..i + 1]) ==> r[i] != '\n'
    ensures forall i :: 0 <= i < |r| && LineStart(r, i) ==> !Blank(r[i..])
  {
    TidyRemovesBlank(body);
    TidyNoLeadingBlankLine(body);
    TidyNoTrailingBlankLine(body);
    Tidy(body)
  }
}
