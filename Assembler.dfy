/**
 * The last stage of `MarkdownReader` (notedown/notedown.py:297-369): code
 * and markdown cells made from classified blocks, output blocks attached to
 * the code cell before them, the whole of `to_notebook`, and the `strip`
 * function that clears a notebook's outputs in place (notedown/notedown.py:38-43).
 *
 * `json.loads` of an output block is a parameter `decode`: `None` stands for
 * text that is not a JSON list of output records.
 */
module Assembler {
  import opened Wrappers
  import opened Strings
  import opened Notebook
  import opened Segmenter
  import opened Classifier

  // ---- single cells ----

  /** `create_code_cell`: a code cell with the block's content; non-empty
      attributes go into the metadata, and a non-empty key `n` is read as
      the execution count with `int()`. */
  function CodeCellFor(content: string, attr: Attributes): (r: Result<Cell, Error>)
    ensures r.Ok? ==> r.value.CodeCell? && r.value.source == content && r.value.outputs == []
    ensures r.Ok? ==> r.value.metadata == (if IsEmpty(attr) then None else Some(attr))
    ensures r.Ok? && (IsEmpty(attr) || "n" !in attr.kvs || attr.kvs["n"] == "") ==> r.value.executionCount == None
    ensures r.Ok? && !IsEmpty(attr) && "n" in attr.kvs && attr.kvs["n"] != "" ==>
      ParseInt(attr.kvs["n"]).Some? && r.value.executionCount == ParseInt(attr.kvs["n"])
    ensures r.Err? <==> !IsEmpty(attr) && "n" in attr.kvs && attr.kvs["n"] != "" && ParseInt(attr.kvs["n"]) == None
    ensures r.Err? ==> r.error == ValueError(attr.kvs["n"])
  {
    if IsEmpty(attr) then Ok(CodeCell(content, [], None, None))
    else if "n" !in attr.kvs || attr.kvs["n"] == "" then Ok(CodeCell(content, [], None, Some(attr)))
    else
      match ParseInt(attr.kvs["n"])
      case None => Err(ValueError(attr.kvs["n"]))
      case Some(n) => Ok(CodeCell(content, [], Some(n), Some(attr)))
  }

  /** An execution count written as `n=<count>` reads back as the same count. */
  lemma CountReadsBack(content: string, attr: Attributes, n: int)
    requires "n" in attr.kvs && attr.kvs["n"] == ShowInt(n)
    ensures CodeCellFor(content, attr) == Ok(CodeCell(content, [], Some(n), Some(attr)))
  {
    ParseShowInt(n);
    assert !IsEmpty(attr) by { assert "n" in attr.kvs; }
  }

  // ---- create_cells ----

  predicate IsOutput(it: Item) {
    it.Code? && it.io == Role.Output
  }

  /** One turn of the loop in `create_cells`: an input block adds a code
      cell, a markdown block a markdown cell, and an output block replaces
      the outputs of the last cell, which must exist and be a code cell. */
  function Step(cells: seq<Cell>, it: Item, decode: string -> Option<seq<Output>>): Result<seq<Cell>, Error> {
    match it
    case Markdown(t) => Ok(cells + [MarkdownCell(t)])
    case Code(content, io, _, attr) =>
      if io == Input then
        (match CodeCellFor(content, attr)
         case Ok(c) => Ok(cells + [c])
         case Err(e) => Err(e))
      else if cells == [] then Err(IndexError)
      else if !cells[|cells| - 1].CodeCell? then Err(NotImplemented("code"))
      else
        match decode(content)
        case None => Err(JsonError(content))
        case Some(outs) => Ok(cells[..|cells| - 1] + [cells[|cells| - 1].(outputs := outs)])
  }

  /** The cells `create_cells` ends with when it starts from `cells` and
      meets `items`; the first exception ends the conversion. */
  function Assemble(cells: seq<Cell>, items: seq<Item>, decode: string -> Option<seq<Output>>): Result<seq<Cell>, Error>
    decreases |items|
  {
    if items == [] then Ok(cells)
    else
      match Step(cells, items[0], decode)
      case Err(e) => Err(e)
      case Ok(next) => Assemble(next, items[1..], decode)
  }

  /** `create_cells(blocks)`. */
  method CreateCells(items: seq<Item>, decode: string -> Option<seq<Output>>) returns (r: Result<seq<Cell>, Error>)
    ensures r == Assemble([], items, decode)
  {
    var cells: seq<Cell> := [];
    var todo := items;
    while todo != []
      invariant Assemble(cells, todo, decode) == Assemble([], items, decode)
      decreases |todo|
    {
      var it := todo[0];
      if it.Code? && it.io == Input {
        var c := CodeCellFor(it.content, it.attributes);
        if c.Err? {
          return Err(c.error);
        }
        cells := cells + [c.value];
      } else if it.Code? && cells == [] {
        return Err(IndexError);
      } else if it.Code? && cells[|cells| - 1].CodeCell? {
        var outs := decode(it.content);
        if outs.None? {
          return Err(JsonError(it.content));
        }
        cells := cells[..|cells| - 1] + [cells[|cells| - 1].(outputs := outs.value)];
      } else if it.Markdown? {
        cells := cells + [MarkdownCell(it.text)];
      } else {
        return Err(NotImplemented("code"));
      }
      todo := todo[1..];
    }
    return Ok(cells);
  }

  /** What a cell is apart from its outputs and metadata: whether it is
      code, and its source. */
  function Shape(c: Cell): (bool, string) {
    (c.CodeCell?, c.source)
  }

  function Shapes(cells: seq<Cell>): (r: seq<(bool, string)>)
    ensures |r| == |cells| && forall i :: 0 <= i < |cells| ==> r[i] == Shape(cells[i])
  {
    if cells == [] then [] else [Shape(cells[0])] + Shapes(cells[1..])
  }

  /** The cells the items call for, in order: one per markdown item and one
      per input item, none for an output item. */
  function Expected(items: seq<Item>): seq<(bool, string)> {
    if items == [] then [] else ExpectedOf(items[0]) + Expected(items[1..])
  }

  function ExpectedOf(it: Item): seq<(bool, string)> {
    match it
    case Markdown(t) => [(false, t)]
    case Code(c, io, _, _) => if io == Input then [(true, c)] else []
  }

  lemma {:induction false} ShapesAppend(cells: seq<Cell>, c: Cell)
    ensures Shapes(cells + [c]) == Shapes(cells) + [Shape(c)]
  {
    assert forall i :: 0 <= i < |cells| ==> (cells + [c])[i] == cells[i];
  }

  lemma {:induction false} ShapesReplaceLast(cells: seq<Cell>, c: Cell)
    requires cells != [] && Shape(c) == Shape(cells[|cells| - 1])
    ensures Shapes(cells[..|cells| - 1] + [c]) == Shapes(cells)
  {
    var n := |cells| - 1;
    var s := cells[..n] + [c];
    assert forall i :: 0 <= i < |s| ==> Shape(s[i]) == Shape(cells[i]);
  }

  lemma StepShapes(cells: seq<Cell>, it: Item, decode: string -> Option<seq<Output>>)
    requires Step(cells, it, decode).Ok?
    ensures Shapes(Step(cells, it, decode).value) == Shapes(cells) + ExpectedOf(it)
  {
    match it
    case Markdown(t) =>
      ShapesAppend(cells, MarkdownCell(t));
    case Code(content, io, _, attr) =>
      if io == Input {
        ShapesAppend(cells, CodeCellFor(content, attr).value);
      } else {
        var last := cells[|cells| - 1];
        ShapesReplaceLast(cells, last.(outputs := decode(content).value));
        assert Shapes(cells) + [] == Shapes(cells);
      }
  }

  /** A successful `create_cells` makes exactly the cells the items call
      for, in their order, with the items' text as their sources: output
      blocks add no cell. */
  lemma {:induction false} AssembleShapes(cells: seq<Cell>, items: seq<Item>, decode: string -> Option<seq<Output>>)
    requires Assemble(cells, items, decode).Ok?
    ensures Shapes(Assemble(cells, items, decode).value) == Shapes(cells) + Expected(items)
    decreases |items|
  {
    if items != [] {
      var next := Step(cells, items[0], decode).value;
      StepShapes(cells, items[0], decode);
      AssembleShapes(next, items[1..], decode);
      assert Shapes(cells) + ExpectedOf(items[0]) + Expected(items[1..]) == Shapes(cells) + Expected(items);
    }
  }

  /** The conversion of a list is the conversion of its front followed by
      that of its back, and an exception in the front is the result. */
  lemma {:induction false} AssembleAppend(cells: seq<Cell>, front: seq<Item>, back: seq<Item>, decode: string -> Option<seq<Output>>)
    ensures Assemble(cells, front + back, decode) ==
      match Assemble(cells, front, decode)
      case Ok(mid) => Assemble(mid, back, decode)
      case Err(e) => Err(e)
    decreases |front|
  {
    if front == [] {
      assert front + back == back;
    } else {
      assert (front + back)[0] == front[0];
      assert (front + back)[1..] == front[1..] + back;
      match Step(cells, front[0], decode)
      case Err(e) =>
      case Ok(next) => AssembleAppend(next, front[1..], back, decode);
    }
  }

  /** An output block at the very start has no cell to attach to: `cells[-1]` fails. */
  lemma OutputFirstFails(items: seq<Item>, decode: string -> Option<seq<Output>>)
    requires items != [] && IsOutput(items[0])
    ensures Assemble([], items, decode) == Err(IndexError)
  {
  }

  /** An output block right after a markdown cell is refused. */
  lemma OutputAfterMarkdownFails(cells: seq<Cell>, t: string, o: Item, rest: seq<Item>, decode: string -> Option<seq<Output>>)
    requires IsOutput(o)
    ensures Assemble(cells, [Markdown(t), o] + rest, decode) == Err(NotImplemented("code"))
  {
    var items := [Markdown(t), o] + rest;
    assert items[0] == Markdown(t) && items[1..] == [o] + rest;
    assert ([o] + rest)[0] == o;
    var cs := cells + [MarkdownCell(t)];
    assert cs[|cs| - 1] == MarkdownCell(t);
  }

  /** An output block after a code cell decodes into that cell's outputs,
      replacing any earlier ones; text that does not decode is an error. */
  lemma OutputReplaces(cells: seq<Cell>, c: Cell, o: Item, rest: seq<Item>, decode: string -> Option<seq<Output>>)
    requires c.CodeCell? && IsOutput(o)
    ensures Assemble(cells + [c], [o] + rest, decode) ==
      match decode(o.content)
      case None => Err(JsonError(o.content))
      case Some(outs) => Assemble(cells + [c.(outputs := outs)], rest, decode)
  {
    var cs := cells + [c];
    assert cs[..|cs| - 1] == cells && cs[|cs| - 1] == c;
    assert ([o] + rest)[0] == o && ([o] + rest)[1..] == rest;
  }

  // ---- process_code_block over all blocks ----

  /** Every block can go to `process_code_block`, and each comes with a
      language choice `set.pop()` could make for it. */
  ghost predicate Processable(blocks: seq<Block>, cfg: Config, parse: string -> Attributes, choices: seq<Option<string>>) {
    && |choices| == |blocks|
    && forall i :: 0 <= i < |blocks| ==> WellFormed(blocks[i]) && Admissible(blocks[i], cfg, parse, choices[i])
  }

  /** `[self.process_code_block(block) for block in all_blocks]` for the
      given choices: every block classified in order, or the first exception. */
  function ClassifyAll(blocks: seq<Block>, cfg: Config, parse: string -> Attributes, choices: seq<Option<string>>): (r: Result<seq<Item>, Error>)
    requires Processable(blocks, cfg, parse, choices)
    ensures r.Ok? <==> forall i :: 0 <= i < |blocks| ==> ClassifyWith(blocks[i], cfg, parse, choices[i]).Ok?
    ensures r.Ok? ==> |r.value| == |blocks| && forall i :: 0 <= i < |blocks| ==> ClassifyWith(blocks[i], cfg, parse, choices[i]) == Ok(r.value[i])
    decreases |blocks|
  {
    if blocks == [] then Ok([])
    else
      assert Processable(blocks[1..], cfg, parse, choices[1..]);
      match ClassifyWith(blocks[0], cfg, parse, choices[0])
      case Err(e) => Err(e)
      case Ok(it) =>
        match ClassifyAll(blocks[1..], cfg, parse, choices[1..])
        case Err(e) => Err(e)
        case Ok(rest) => Ok([it] + rest)
  }

  /** The exception is the one of the first block that fails. */
  lemma {:induction false} ClassifyAllFirstError(blocks: seq<Block>, cfg: Config, parse: string -> Attributes, choices: seq<Option<string>>, k: nat)
    requires Processable(blocks, cfg, parse, choices) && k < |blocks|
    requires forall i :: 0 <= i < k ==> ClassifyWith(blocks[i], cfg, parse, choices[i]).Ok?
    requires ClassifyWith(blocks[k], cfg, parse, choices[k]).Err?
    ensures ClassifyAll(blocks, cfg, parse, choices) == Err(ClassifyWith(blocks[k], cfg, parse, choices[k]).error)
    decreases k
  {
    assert Processable(blocks[1..], cfg, parse, choices[1..]);
    if k > 0 {
      ClassifyAllFirstError(blocks[1..], cfg, parse, choices[1..], k - 1);
    }
  }

  /** Some language a block's classes allow, for the blocks that are never processed. */
  function ChoiceFor(b: Block, parse: string -> Attributes): (lang: Option<string>)
    ensures b.CodeBlock? && !b.attributes.Missing? ==> ValidChoice(ParsedAttributes(b.attributes, parse).classes, lang)
  {
    if b.CodeBlock? && !b.attributes.Missing? then
      var classes := ParsedAttributes(b.attributes, parse).classes;
      if "python" in classes then Some("python")
      else if "r" in classes then Some("r")
      else if "ruby" in classes then Some("ruby")
      else if "bash" in classes then Some("bash")
      else None
    else None
  }

  function ChoicesFor(blocks: seq<Block>, parse: string -> Attributes): (r: seq<Option<string>>)
    ensures |r| == |blocks| && forall i :: 0 <= i < |blocks| ==> r[i] == ChoiceFor(blocks[i], parse)
  {
    seq(|blocks|, i requires 0 <= i < |blocks| => ChoiceFor(blocks[i], parse))
  }

  /** The list comprehension over `process_code_block`. */
  method ProcessBlocks(blocks: seq<Block>, cfg: Config, parse: string -> Attributes) returns (r: Result<seq<Item>, Error>, ghost choices: seq<Option<string>>)
    requires forall i :: 0 <= i < |blocks| ==> WellFormed(blocks[i])
    ensures Processable(blocks, cfg, parse, choices)
    ensures r == ClassifyAll(blocks, cfg, parse, choices)
  {
    var items: seq<Item> := [];
    choices := [];
    var i := 0;
    while i < |blocks|
      invariant 0 <= i <= |blocks| && |items| == i && |choices| == i
      invariant forall j :: 0 <= j < i ==> Admissible(blocks[j], cfg, parse, choices[j])
      invariant forall j :: 0 <= j < i ==> ClassifyWith(blocks[j], cfg, parse, choices[j]) == Ok(items[j])
    {
      var item, chosen := ProcessCodeBlock(blocks[i], cfg, parse);
      if item.Err? {
        StopsAt(blocks, cfg, parse, choices, chosen);
        choices := choices + [chosen] + ChoicesFor(blocks[i + 1..], parse);
        return Err(item.error), choices;
      }
      items := items + [item.value];
      choices := choices + [chosen];
      i := i + 1;
    }
    ClassifyAllOk(blocks, cfg, parse, choices, items);
    r := Ok(items);
  }

  /** The blocks after the first failing one keep any admissible choice. */
  lemma StopsAt(blocks: seq<Block>, cfg: Config, parse: string -> Attributes, done: seq<Option<string>>, chosen: Option<string>)
    requires |done| < |blocks| && forall i :: 0 <= i < |blocks| ==> WellFormed(blocks[i])
    requires forall j :: 0 <= j < |done| ==> Admissible(blocks[j], cfg, parse, done[j])
    requires forall j :: 0 <= j < |done| ==> ClassifyWith(blocks[j], cfg, parse, done[j]).Ok?
    requires Admissible(blocks[|done|], cfg, parse, chosen)
    requires ClassifyWith(blocks[|done|], cfg, parse, chosen).Err?
    ensures var all := done + [chosen] + ChoicesFor(blocks[|done| + 1..], parse);
      Processable(blocks, cfg, parse, all) &&
      ClassifyAll(blocks, cfg, parse, all) == Err(ClassifyWith(blocks[|done|], cfg, parse, chosen).error)
  {
    var k := |done|;
    var rest := ChoicesFor(blocks[k + 1..], parse);
    var all := done + [chosen] + rest;
    forall j | k < j < |blocks|
      ensures Admissible(blocks[j], cfg, parse, all[j])
    {
      assert all[j] == rest[j - k - 1] == ChoiceFor(blocks[j], parse);
    }
    assert forall j :: 0 <= j < k ==> all[j] == done[j];
    ClassifyAllFirstError(blocks, cfg, parse, all, k);
  }

  lemma ClassifyAllOk(blocks: seq<Block>, cfg: Config, parse: string -> Attributes, choices: seq<Option<string>>, items: seq<Item>)
    requires Processable(blocks, cfg, parse, choices) && |items| == |blocks|
    requires forall j :: 0 <= j < |blocks| ==> ClassifyWith(blocks[j], cfg, parse, choices[j]) == Ok(items[j])
    ensures ClassifyAll(blocks, cfg, parse, choices) == Ok(items)
  {
    var r := ClassifyAll(blocks, cfg, parse, choices);
    assert forall j :: 0 <= j < |blocks| ==> ClassifyWith(blocks[j], cfg, parse, choices[j]).Ok?;
    assert r.Ok?;
    assert forall j :: 0 <= j < |blocks| ==> r.value[j] == items[j];
    assert r.value == items;
  }

  // ---- to_notebook ----

  /** `pre_code_block`: the `precode` option without surrounding newlines,
      as an input block with an empty attribute string and no `raw` group. */
  function PrecodeBlock(precode: string): Block {
    CodeBlock(Str(StripChars(precode, {'\n'})), Missing, Str(""), Missing, Missing)
  }

  /** The blocks of the document, with the precode block in front when it is not empty. */
  function AllBlocks(text: string, ms: seq<Match>, precode: string): seq<Block>
    requires Spans(text, ms) && IndentsPaired(ms)
  {
    if StripChars(precode, {'\n'}) != "" then [PrecodeBlock(precode)] + ParseBlocks(text, ms)
    else ParseBlocks(text, ms)
  }

  /** Every block `parse_blocks` yields is one `process_code_block` accepts. */
  lemma ParsedBlockWellFormed(text: string, ms: seq<Match>, b: Block)
    requires Spans(text, ms) && IndentsPaired(ms) && b in ParseBlocks(text, ms)
    ensures WellFormed(b)
  {
    ParseBlocksMembers(text, ms, b);
    if b.CodeBlock? {
      var ts, cs := TextBlocks(text, ms), CodeBlocks(ms);
      var i := BlockIndex(ts + cs, b);
      assert i >= |ts|;
      assert cs[i - |ts|].block == b;
      CodeBlockWellFormed(ms, i - |ts|);
    }
  }

  lemma BlockIndex(xs: seq<At>, b: Block) returns (i: nat)
    requires b in Blocks(xs)
    ensures i < |xs| && xs[i].block == b
  {
    i :| 0 <= i < |xs| && Blocks(xs)[i] == b;
  }

  /** A code block made from a match, once it has content, is well formed. */
  lemma CodeBlockWellFormed(ms: seq<Match>, k: nat)
    requires IndentsPaired(ms) && k < |ms| && HasContent(CodeBlocks(ms)[k].block)
    ensures WellFormed(CodeBlocks(ms)[k].block)
  {
    var g := NewCodeBlock(ms[k].groups);
    assert (Truthy(g.indent) || g.raw.Null?) ==> g.icontent.Str?;
  }

  lemma AllBlocksWellFormed(text: string, ms: seq<Match>, precode: string)
    requires Spans(text, ms) && IndentsPaired(ms)
    ensures forall b :: b in AllBlocks(text, ms, precode) ==> WellFormed(b)
  {
    forall b | b in ParseBlocks(text, ms)
      ensures WellFormed(b)
    {
      ParsedBlockWellFormed(text, ms, b);
    }
  }

  /** `to_notebook(text)` for the given language choices: the cells of the notebook. */
  function CellsWith(blocks: seq<Block>, cfg: Config, parse: string -> Attributes, decode: string -> Option<seq<Output>>, choices: seq<Option<string>>): Result<seq<Cell>, Error>
    requires Processable(blocks, cfg, parse, choices)
  {
    match ClassifyAll(blocks, cfg, parse, choices)
    case Err(e) => Err(e)
    case Ok(items) => Assemble([], items, decode)
  }

  /** `MarkdownReader.to_notebook`, with the code pattern's matches `ms`. */
  method ToNotebook(text: string, ms: seq<Match>, precode: string, cfg: Config, parse: string -> Attributes, decode: string -> Option<seq<Output>>)
    returns (r: Result<seq<Cell>, Error>, ghost choices: seq<Option<string>>)
    requires Spans(text, ms) && IndentsPaired(ms)
    ensures Processable(AllBlocks(text, ms, precode), cfg, parse, choices)
    ensures r == CellsWith(AllBlocks(text, ms, precode), cfg, parse, decode, choices)
  {
    var blocks := ParseBlocks(text, ms);
    var pre := PrecodeBlock(precode);
    if pre.content.s != "" {
      blocks := [pre] + blocks;
    }
    AllBlocksWellFormed(text, ms, precode);
    assert blocks == AllBlocks(text, ms, precode);
    assert forall i :: 0 <= i < |blocks| ==> WellFormed(blocks[i]) by {
      forall i | 0 <= i < |blocks| ensures WellFormed(blocks[i]) {
        assert blocks[i] in blocks;
      }
    }
    var items;
    items, choices := ProcessBlocks(blocks, cfg, parse);
    if items.Err? {
      return Err(items.error), choices;
    }
    r := CreateCells(items.value, decode);
  }

  /** With a precode and the policy `all` or `fenced`, the notebook opens
      with a code cell holding the precode (when `PandocAttributes` reads
      the empty attribute string as no attributes). */
  lemma PrecodeOpens(text: string, ms: seq<Match>, precode: string, cfg: Config, parse: string -> Attributes, decode: string -> Option<seq<Output>>, choices: seq<Option<string>>)
    requires Spans(text, ms) && IndentsPaired(ms)
    requires Processable(AllBlocks(text, ms, precode), cfg, parse, choices)
    requires StripChars(precode, {'\n'}) != "" && parse("") == NoAttributes
    requires cfg.policy == "all" || cfg.policy == "fenced"
    requires CellsWith(AllBlocks(text, ms, precode), cfg, parse, decode, choices).Ok?
    ensures var cells := CellsWith(AllBlocks(text, ms, precode), cfg, parse, decode, choices).value;
      cells != [] && cells[0].CodeCell? && cells[0].source == StripChars(precode, {'\n'})
  {
    var blocks := AllBlocks(text, ms, precode);
    var items := ClassifyAll(blocks, cfg, parse, choices).value;
    assert blocks[0] == PrecodeBlock(precode);
    PrecodeKept(precode, cfg, parse, choices[0]);
    FirstCell(items, decode);
  }

  /** The precode block, kept, is an input block with the precode as its content. */
  lemma PrecodeKept(precode: string, cfg: Config, parse: string -> Attributes, lang: Option<string>)
    requires parse("") == NoAttributes
    requires cfg.policy == "all" || cfg.policy == "fenced"
    requires Admissible(PrecodeBlock(precode), cfg, parse, lang)
    ensures var r := ClassifyWith(PrecodeBlock(precode), cfg, parse, lang);
      r.Ok? && r.value.Code? && r.value.io == Input && r.value.content == StripChars(precode, {'\n'})
  {
    assert Decide(cfg.policy, Missing, []) == Keep;
    assert lang == None;
  }

  /** A successful conversion whose first item is an input block opens with its code cell. */
  lemma FirstCell(items: seq<Item>, decode: string -> Option<seq<Output>>)
    requires items != [] && items[0].Code? && items[0].io == Input
    requires Assemble([], items, decode).Ok?
    ensures var cells := Assemble([], items, decode).value;
      cells != [] && cells[0].CodeCell? && cells[0].source == items[0].content
  {
    AssembleShapes([], items, decode);
    assert Expected(items)[0] == (true, items[0].content);
  }

  /** Under any other policy the precode block is demoted as a raw block,
      and having no `raw` group it ends the conversion with a `KeyError`. */
  lemma PrecodeRejected(text: string, ms: seq<Match>, precode: string, cfg: Config, parse: string -> Attributes, decode: string -> Option<seq<Output>>, choices: seq<Option<string>>)
    requires Spans(text, ms) && IndentsPaired(ms)
    requires Processable(AllBlocks(text, ms, precode), cfg, parse, choices)
    requires StripChars(precode, {'\n'}) != "" && parse("") == NoAttributes
    requires cfg.policy != "all" && cfg.policy != "fenced"
    ensures CellsWith(AllBlocks(text, ms, precode), cfg, parse, decode, choices) == Err(KeyError("raw"))
  {
    var blocks := AllBlocks(text, ms, precode);
    assert blocks[0] == PrecodeBlock(precode);
    PrecodeDemoted(precode, cfg, parse, choices[0]);
    ClassifyAllFirstError(blocks, cfg, parse, choices, 0);
  }

  lemma PrecodeDemoted(precode: string, cfg: Config, parse: string -> Attributes, lang: Option<string>)
    requires parse("") == NoAttributes
    requires cfg.policy != "all" && cfg.policy != "fenced"
    ensures ClassifyWith(PrecodeBlock(precode), cfg, parse, lang) == Err(KeyError("raw"))
  {
    assert Decide(cfg.policy, Missing, []) == DemoteRaw;
  }

  // ---- strip ----

  /** A cell with its outputs and execution count cleared, if it is a code cell. */
  function Stripped(c: Cell): (r: Cell)
    ensures Shape(r) == Shape(c)
    ensures r.CodeCell? ==> r.outputs == [] && r.executionCount == None && r.metadata == c.metadata
    ensures r.MarkdownCell? ==> r == c
  {
    if c.CodeCell? then c.(outputs := [], executionCount := None) else c
  }

  function StripAll(cells: seq<Cell>): (r: seq<Cell>)
    ensures |r| == |cells| && forall i :: 0 <= i < |cells| ==> r[i] == Stripped(cells[i])
  {
    seq(|cells|, i requires 0 <= i < |cells| => Stripped(cells[i]))
  }

  /** Stripping keeps every cell's kind and source, and a stripped notebook
      has nothing left to strip. */
  lemma StripKeepsCells(cells: seq<Cell>)
    ensures Shapes(StripAll(cells)) == Shapes(cells)
    ensures StripAll(StripAll(cells)) == StripAll(cells)
  {
    var s := StripAll(cells);
    assert forall i :: 0 <= i < |cells| ==> Shapes(s)[i] == Shapes(cells)[i];
    assert forall i :: 0 <= i < |cells| ==> StripAll(s)[i] == s[i];
  }

  /** A notebook whose cell list `strip` changes in place. */
  class NotebookNode {
    var cells: seq<Cell>

    constructor (cells: seq<Cell>)
      ensures this.cells == cells
    {
      this.cells := cells;
    }

    /** `strip(notebook)`: every code cell loses its outputs and execution count. */
    method Strip()
      modifies this
      ensures cells == StripAll(old(cells))
    {
      var i := 0;
      while i < |cells|
        invariant 0 <= i <= |cells| == |old(cells)|
        invariant forall j :: 0 <= j < i ==> cells[j] == Stripped(old(cells)[j])
        invariant forall j :: i <= j < |cells| ==> cells[j] == old(cells)[j]
      {
        if cells[i].CodeCell? {
          cells := cells[i := cells[i].(outputs := [], executionCount := None)];
        }
        i := i + 1;
      }
    }
  }
}
