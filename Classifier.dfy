/**
 * `MarkdownReader.process_code_block` (notedown/notedown.py:189-248): the
 * match policy that decides whether a code block stays code, the
 * input/output role, the optional caption and id taken from leading
 * comments, the language chosen among the block's classes, and the cell
 * magic put in front of code in another language.
 *
 * The attribute string is parsed by `PandocAttributes`, a foreign library;
 * here it is a parameter `parse`.  `set(classes).intersection(languages).pop()`
 * returns an arbitrary element, so the language is a choice: the method
 * `ProcessCodeBlock` makes it, and the function `ClassifyWith` says what
 * comes out for a given choice.
 */
module Classifier {
  import opened Wrappers
  import opened Strings
  import opened Notebook
  import opened Segmenter

  /** The reader options that classification reads: `match`, `magic`, `caption_comments`. */
  datatype Config = Config(policy: string, magic: bool, captions: bool)

  /** `block['IO']`. */
  datatype Role = Input | Output

  /** A block after classification: markdown text, or code with its role,
      language and attributes. */
  datatype Item =
    | Markdown(text: string)
    | Code(content: string, io: Role, language: string, attributes: Attributes)

  /** What every block reaching `process_code_block` satisfies: a code
      block's content is a string; a block with an indent has its indented
      text; a block whose `raw` group did not take part in the match is an
      indented match and so has its indented text too. */
  predicate WellFormed(b: Block) {
    b.CodeBlock? ==>
      && b.content.Str?
      && (Truthy(b.indent) ==> b.icontent.Str?)
      && (b.raw.Null? ==> b.icontent.Str?)
  }

  /** `PandocAttributes(block['attributes'], 'markdown')`: None gives the empty attribute set. */
  function ParsedAttributes(f: Field, parse: string -> Attributes): Attributes
    requires !f.Missing?
  {
    if f.Null? then NoAttributes else parse(f.s)
  }

  // ---- the match policy ----

  datatype Decision = Keep | DemoteIndented | DemoteRaw

  /** The chain of tests at the head of `process_code_block`, in its order. */
  function Decide(policy: string, indent: Field, classes: seq<string>): Decision {
    if policy == "all" then Keep
    else if policy == "fenced" && Truthy(indent) then DemoteIndented
    else if policy == "strict" && "input" !in classes then DemoteRaw
    else if policy !in classes + ["fenced", "strict"] then DemoteRaw
    else Keep
  }

  /** When a block is turned into markdown, stated case by case: `fenced`
      demotes indented blocks, `strict` demotes blocks without the class
      `input`, and any other policy but `all` names a class the block must
      carry. */
  predicate Demoted(policy: string, indent: Field, classes: seq<string>) {
    || (policy == "fenced" && Truthy(indent))
    || (policy == "strict" && "input" !in classes)
    || (policy != "all" && policy != "fenced" && policy != "strict" && policy !in classes)
  }

  lemma DecideDemotes(policy: string, indent: Field, classes: seq<string>)
    ensures Decide(policy, indent, classes) != Keep <==> Demoted(policy, indent, classes)
    ensures Decide(policy, indent, classes) == DemoteIndented <==> policy == "fenced" && Truthy(indent)
  {
    if policy != "all" && policy != "fenced" && policy != "strict" {
      assert policy in classes + ["fenced", "strict"] <==> policy in classes;
    } else {
      assert policy in classes + ["fenced", "strict"] <==> policy in classes || policy in ["fenced", "strict"];
    }
  }

  /** The markdown an indented block is demoted to under `fenced`: its indented text between newlines. */
  function IndentedMarkdown(icontent: string): string {
    "\n" + icontent + "\n"
  }

  /** `new_text_block(content=block['raw'])` as written: a missing key raises
      `KeyError`, and a `raw` group that took no part in the match (an
      indented block) gives a markdown block whose content is None. */
  function DemoteRawAsWritten(b: Block): (r: Result<Option<string>, Error>)
    requires b.CodeBlock?
    ensures r.Err? <==> b.raw.Missing?
    ensures r == Ok(None) <==> b.raw.Null?
  {
    match b.raw
    case Missing => Err(KeyError("raw"))
    case Null => Ok(None)
    case Str(s) => Ok(Some(s))
  }

  /** The demotion to the block's source text: the raw match, or for an
      indented block, which has no `raw` group, its indented text as the
      `fenced` policy restores it.  The pre-code block has no `raw` key. */
  function DemoteRawText(b: Block): (r: Result<string, Error>)
    requires b.CodeBlock? && WellFormed(b)
    ensures r.Err? <==> b.raw.Missing?
    ensures b.raw.Str? ==> r == Ok(b.raw.s)
    ensures b.raw.Null? ==> r == Ok(IndentedMarkdown(b.icontent.s))
  {
    match b.raw
    case Missing => Err(KeyError("raw"))
    case Null => Ok(IndentedMarkdown(b.icontent.s))
    case Str(s) => Ok(s)
  }

  /** Under `strict`, an indented block (no `raw` group, no classes) becomes a
      markdown block without text as written; the corrected demotion keeps
      its code as markdown. */
  lemma IndentedBlockLosesText()
    ensures var b := CodeBlock(Str("x = 1"), Null, Null, Str("    "), Str("    x = 1"));
      && Decide("strict", b.indent, NoAttributes.classes) == DemoteRaw
      && DemoteRawAsWritten(b) == Ok(None)
      && DemoteRawText(b) == Ok("\n    x = 1\n")
  {
    assert IndentedMarkdown("    x = 1") == "\n    x = 1\n";
  }

  // ---- role, captions, language, magic ----

  /** The role and the classes left: `output` needs both `output` and
      `json`; otherwise the block is input and one `input` class is removed. */
  function TakeRole(classes: seq<string>): (Role, seq<string>) {
    if "output" in classes && "json" in classes then (Role.Output, classes)
    else if "input" in classes then (Input, RemoveFirst(classes, "input"))
    else (Input, classes)
  }

  /** A language the block may be given: one of its classes that is a
      known language, or none when it has no such class. */
  predicate ValidChoice(classes: seq<string>, lang: Option<string>) {
    match lang
    case None => forall l :: l in Languages ==> l !in classes
    case Some(l) => l in Languages && l in classes
  }

  /** `CodeMagician.magic(alias)`: `r` and `R` share the magic `%%R`, any
      other language gets `%%` followed by its own name. */
  function Magic(alias: string): string {
    if alias == "r" || alias == "R" then "%%R\n" else "%%" + alias + "\n"
  }

  /** The magic is one line in front of the content: the content's lines
      follow it unchanged, and the line names `R` for both R aliases and the
      alias itself otherwise. */
  lemma MagicAddsOneLine(alias: string, content: string)
    requires '\n' !in alias
    ensures Split(Magic(alias) + content, '\n')[1..] == Split(content, '\n')
    ensures Split(Magic(alias) + content, '\n')[0] == (if alias == "r" || alias == "R" then "%%R" else "%%" + alias)
  {
    var line := if alias == "r" || alias == "R" then "%%R" else "%%" + alias;
    assert Magic(alias) == line + ['\n'];
    assert Magic(alias) + content == line + ['\n'] + content;
    SplitFront(line, content, '\n');
  }

  /** The block a kept code block becomes, for a given language choice and
      the id and caption `found` in its comments. */
  function KeptBlock(content: string, attr: Attributes, cfg: Config, lang: Option<string>, found: (Option<string>, Option<string>)): Item
    requires ValidChoice(attr.classes, lang)
  {
    var (io, classes) := TakeRole(attr.classes);
    ValidChoiceAfterRole(attr.classes, lang);
    var captioned := WithCaption(attr.(classes := classes), found);
    var a := if lang.Some? then captioned.(classes := RemoveFirst(captioned.classes, lang.value)) else captioned;
    var (name, code) := LanguageOf(lang, content, cfg.magic);
    Code(code, io, name, a)
  }

  /** The language name recorded and the content after magic: a missing
      language is python; with magic on, other languages get their magic line. */
  function LanguageOf(lang: Option<string>, content: string, magic: bool): (string, string) {
    if lang == None || lang == Some("python") then ("python", content)
    else if magic then (lang.value, Magic(lang.value) + content)
    else (lang.value, content)
  }

  /** Removing one `input` class leaves the same languages to choose from. */
  lemma ValidChoiceAfterRole(classes: seq<string>, lang: Option<string>)
    ensures ValidChoice(TakeRole(classes).1, lang) <==> ValidChoice(classes, lang)
  {
    assert "input" !in Languages;
  }

  /** The id and caption taken from the comments: none when `caption_comments` is off. */
  function Found(cfg: Config, content: string): (Option<string>, Option<string>) {
    if cfg.captions then CaptionComments(content) else (None, None)
  }

  /** The attributes after `caption_comments`: a non-empty id found in the
      comments replaces the id, a non-empty caption sets the key `caption`. */
  function WithCaption(attr: Attributes, found: (Option<string>, Option<string>)): (r: Attributes)
    ensures r.classes == attr.classes
  {
    var (id, caption) := found;
    var a := if id.Some? && id.value != "" then attr.(id := id.value) else attr;
    if caption.Some? && caption.value != "" then a.(kvs := a.kvs["caption" := caption.value]) else a
  }

  /** Whether the block is kept as code and, if so, whether `lang` is a
      choice `set.pop()` could make for it. */
  predicate Admissible(b: Block, cfg: Config, parse: string -> Attributes, lang: Option<string>) {
    (b.CodeBlock? && !b.attributes.Missing? && Decide(cfg.policy, b.indent, ParsedAttributes(b.attributes, parse).classes) == Keep)
      ==> ValidChoice(ParsedAttributes(b.attributes, parse).classes, lang)
  }

  /** `process_code_block(block)` when the language picked is `lang`. */
  function ClassifyWith(b: Block, cfg: Config, parse: string -> Attributes, lang: Option<string>): Result<Item, Error>
    requires WellFormed(b) && Admissible(b, cfg, parse, lang)
  {
    if b.TextBlock? then Ok(Markdown(b.text))
    else if b.attributes.Missing? then Err(KeyError("attributes"))
    else
      var attr := ParsedAttributes(b.attributes, parse);
      match Decide(cfg.policy, b.indent, attr.classes)
      case DemoteIndented => Ok(Markdown(IndentedMarkdown(b.icontent.s)))
      case DemoteRaw =>
        (match DemoteRawText(b)
         case Ok(s) => Ok(Markdown(s))
         case Err(e) => Err(e))
      case Keep => Ok(KeptBlock(b.content.s, attr, cfg, lang, Found(cfg, b.content.s)))
  }

  /** `process_code_block`: the steps of the source in order, with the
      language picked from the classes that are known languages. */
  method ProcessCodeBlock(b: Block, cfg: Config, parse: string -> Attributes) returns (r: Result<Item, Error>, chosen: Option<string>)
    requires WellFormed(b)
    ensures Admissible(b, cfg, parse, chosen)
    ensures r == ClassifyWith(b, cfg, parse, chosen)
  {
    chosen := None;
    if b.TextBlock? {
      return Ok(Markdown(b.text)), None;
    }
    if b.attributes.Missing? {
      return Err(KeyError("attributes")), None;
    }
    var attr := ParsedAttributes(b.attributes, parse);

    if cfg.policy == "all" {
    } else if cfg.policy == "fenced" && Truthy(b.indent) {
      return Ok(Markdown("\n" + b.icontent.s + "\n")), None;
    } else if cfg.policy == "strict" && "input" !in attr.classes {
      r := DemoteToMarkdown(b);
      return;
    } else if cfg.policy !in attr.classes + ["fenced", "strict"] {
      r := DemoteToMarkdown(b);
      return;
    }

    var item;
    item, chosen := ProcessKept(b.content.s, attr, cfg);
    r := Ok(item);
  }

  /** The rest of `process_code_block` for a block the policy keeps: role,
      caption comments, language and magic. */
  method ProcessKept(content: string, attr: Attributes, cfg: Config) returns (item: Item, chosen: Option<string>)
    ensures ValidChoice(attr.classes, chosen)
    ensures item == KeptBlock(content, attr, cfg, chosen, Found(cfg, content))
  {
    var io, a := SetRole(attr);
    var found: (Option<string>, Option<string>) := (None, None);
    if cfg.captions {
      var id, caption := GetCaptionComments(content);
      found := (id, caption);
      a := SetCaption(a, found);
    }
    assert a == WithCaption(attr.(classes := TakeRole(attr.classes).1), Found(cfg, content));
    a, chosen := PopLanguage(a);
    ValidChoiceAfterRole(attr.classes, chosen);
    var name: string;
    var code := content;
    if chosen == None || chosen == Some("python") {
      name := "python";
    } else if cfg.magic {
      code := Magic(chosen.value) + code;
      name := chosen.value;
    } else {
      name := chosen.value;
    }
    item := Code(code, io, name, a);
  }

  /** Setting `block['IO']`, removing one `input` class from an input block. */
  method SetRole(attr: Attributes) returns (io: Role, a: Attributes)
    ensures (io, a.classes) == TakeRole(attr.classes) && a == attr.(classes := a.classes)
  {
    a := attr;
    if "output" in a.classes && "json" in a.classes {
      io := Role.Output;
    } else if "input" in a.classes {
      io := Input;
      a := a.(classes := RemoveFirst(a.classes, "input"));
    } else {
      io := Input;
    }
  }

  /** Overriding the id and setting `caption` from what the comments gave. */
  method SetCaption(attr: Attributes, found: (Option<string>, Option<string>)) returns (a: Attributes)
    ensures a == WithCaption(attr, found)
  {
    a := attr;
    var (id, caption) := found;
    if id.Some? && id.value != "" {
      a := a.(id := id.value);
    }
    if caption.Some? && caption.value != "" {
      a := a.(kvs := a.kvs["caption" := caption.value]);
    }
  }

  /** `set(attr.classes).intersection(languages).pop()` and the removal of
      the language class; `KeyError` from an empty set leaves no language. */
  method PopLanguage(attr: Attributes) returns (a: Attributes, language: Option<string>)
    ensures ValidChoice(attr.classes, language)
    ensures a == if language.Some? then attr.(classes := RemoveFirst(attr.classes, language.value)) else attr
  {
    a := attr;
    language := None;
    if exists l :: l in Languages && l in a.classes {
      var l :| l in Languages && l in a.classes;
      a := a.(classes := RemoveFirst(a.classes, l));
      language := Some(l);
    }
  }

  /** The markdown block of a demotion to the source text. */
  method DemoteToMarkdown(b: Block) returns (r: Result<Item, Error>)
    requires b.CodeBlock? && WellFormed(b)
    ensures r == (match DemoteRawText(b) case Ok(s) => Ok(Markdown(s)) case Err(e) => Err(e))
  {
    match b.raw
    case Missing => r := Err(KeyError("raw"));
    case Null => r := Ok(Markdown("\n" + b.icontent.s + "\n"));
    case Str(s) => r := Ok(Markdown(s));
  }

  // ---- get_caption_comments ----

  /** A comment line that continues a caption: `# ` but not `##`. */
  predicate IsCaptionLine(line: string) {
    "# " <= line && !("##" <= line)
  }

  /** A caption line without its leading `#`/space characters and trailing whitespace. */
  function CleanCaption(line: string): string {
    RStrip(LStrip(line, {'#', ' '}), Whitespace)
  }

  /** The leading run of caption lines. */
  function CaptionRun(lines: seq<string>): seq<string> {
    if lines == [] || !IsCaptionLine(lines[0]) then []
    else [lines[0]] + CaptionRun(lines[1..])
  }

  /** The run of caption lines is where the caption stops: every line of it
      continues the caption, and the line after it does not. */
  lemma {:induction false} CaptionRunStops(lines: seq<string>)
    ensures var r := CaptionRun(lines);
      && r <= lines
      && (forall i :: 0 <= i < |r| ==> IsCaptionLine(r[i]))
      && (|r| < |lines| ==> !IsCaptionLine(lines[|r|]))
  {
    if lines != [] && IsCaptionLine(lines[0]) {
      CaptionRunStops(lines[1..]);
      var r := CaptionRun(lines);
      assert r[1..] == CaptionRun(lines[1..]);
      assert lines == [lines[0]] + lines[1..];
      if |r| < |lines| {
        assert lines[|r|] == lines[1..][|r| - 1];
      }
    }
  }

  /** Each caption line cleaned. */
  function CleanAll(lines: seq<string>): (r: seq<string>)
    ensures |r| == |lines|
  {
    if lines == [] then [] else [CleanCaption(lines[0])] + CleanAll(lines[1..])
  }

  /** `get_caption_comments(content)`: nothing unless the content starts with
      `## fig:`; then the first line stripped of `#` and spaces at both ends
      as the id, and the caption lines joined by spaces in double quotes. */
  function CaptionComments(content: string): (r: (Option<string>, Option<string>))
    ensures r.0.None? <==> !("## fig:" <= content)
    ensures r.1.None? <==> !("## fig:" <= content)
  {
    if !("## fig:" <= content) then (None, None)
    else
      FigLineFirst(content);
      var lines := SplitLines(content);
      (Some(StripChars(lines[0], {'#', ' '})), Some("\"" + Join(CleanAll(CaptionRun(lines[1..])), " ") + "\""))
  }

  lemma FigLineFirst(content: string)
    requires "## fig:" <= content
    ensures SplitLines(content) != [] && "## fig:" <= SplitLines(content)[0]
  {
    SplitLinesFirst("## fig:", content);
  }

  /** When comments give an id, it is the `fig:` label, so never empty, and
      the caption is a quoted string. */
  lemma CaptionCommentsShape(content: string)
    requires "## fig:" <= content
    ensures var (id, caption) := CaptionComments(content);
      && id.Some? && "fig:" <= id.value
      && caption.Some? && |caption.value| >= 2
      && caption.value[0] == '"' && caption.value[|caption.value| - 1] == '"'
  {
    FigLineFirst(content);
    FigLabel(SplitLines(content)[0]);
  }

  /** Stripping `#` and spaces from a `## fig:` line leaves its `fig:` label. */
  lemma FigLabel(first: string)
    requires "## fig:" <= first
    ensures "fig:" <= StripChars(first, {'#', ' '})
  {
    var cs := {'#', ' '};
    var l := LStrip(first, cs);
    assert |first| - |l| == 3 by {
      assert first[0] == '#' && first[1] == '#' && first[2] == ' ' && first[3] == 'f';
      assert first[0] in cs && first[1] in cs && first[2] in cs && first[3] !in cs;
    }
    FigLabelKept(l, cs);
  }

  lemma FigLabelKept(l: string, cs: set<char>)
    requires "fig:" <= l && cs == {'#', ' '}
    ensures "fig:" <= RStrip(l, cs)
  {
    var id := RStrip(l, cs);
    assert |id| >= 4 by {
      assert l[3] == ':' && l[3] !in cs;
    }
    assert id[..4] == l[..4];
  }

  /** `get_caption_comments`. */
  method GetCaptionComments(content: string) returns (id: Option<string>, caption: Option<string>)
    ensures (id, caption) == CaptionComments(content)
  {
    if !("## fig:" <= content) {
      return None, None;
    }
    FigLineFirst(content);
    var lines := SplitLines(content);
    id := Some(StripChars(lines[0], {'#', ' '}));
    var parts := CollectCaption(lines);
    caption := Some("\"" + Join(parts, " ") + "\"");
  }

  /** The loop of `get_caption_comments` over the lines after the first,
      stopping at the first line that does not continue the caption. */
  method CollectCaption(lines: seq<string>) returns (parts: seq<string>)
    requires |lines| >= 1
    ensures parts == CleanAll(CaptionRun(lines[1..]))
  {
    parts := [];
    var todo := lines[1..];
    while todo != []
      invariant CleanAll(CaptionRun(lines[1..])) == parts + CleanAll(CaptionRun(todo))
      decreases |todo|
    {
      var line := todo[0];
      if !IsCaptionLine(line) {
        break;
      }
      CleanAllCons(line, CaptionRun(todo[1..]));
      var rest := CleanAll(CaptionRun(todo[1..]));
      assert parts + ([CleanCaption(line)] + rest) == (parts + [CleanCaption(line)]) + rest;
      parts := parts + [CleanCaption(line)];
      todo := todo[1..];
    }
    assert parts + [] == parts;
  }

  lemma CleanAllCons(line: string, lines: seq<string>)
    ensures CleanAll([line] + lines) == [CleanCaption(line)] + CleanAll(lines)
  {
    assert ([line] + lines)[1..] == lines;
  }

  // ---- what process_code_block promises ----

  /** Markdown blocks pass through every policy unchanged. */
  lemma TextPassesThrough(b: Block, cfg: Config, parse: string -> Attributes, lang: Option<string>)
    requires b.TextBlock?
    ensures ClassifyWith(b, cfg, parse, lang) == Ok(Markdown(b.text))
  {
  }

  /** A code block becomes markdown exactly when the policy demotes it; under
      `all` none is demoted.  A demoted block is its own markdown block: the
      indented text under `fenced`, the source text otherwise. */
  lemma PolicyDecides(b: Block, cfg: Config, parse: string -> Attributes, lang: Option<string>)
    requires WellFormed(b) && Admissible(b, cfg, parse, lang)
    requires b.CodeBlock? && !b.attributes.Missing?
    ensures var classes := ParsedAttributes(b.attributes, parse).classes;
      var r := ClassifyWith(b, cfg, parse, lang);
      && (r.Ok? && r.value.Markdown? <==>
            Demoted(cfg.policy, b.indent, classes) && ((cfg.policy == "fenced" && Truthy(b.indent)) || !b.raw.Missing?))
      && (r.Err? <==> Demoted(cfg.policy, b.indent, classes) && !(cfg.policy == "fenced" && Truthy(b.indent)) && b.raw.Missing?)
      && (cfg.policy == "fenced" && Truthy(b.indent) ==> r == Ok(Markdown(IndentedMarkdown(b.icontent.s))))
      && (cfg.policy == "all" ==> r.Ok? && r.value.Code?)
  {
    DecideDemotes(cfg.policy, b.indent, ParsedAttributes(b.attributes, parse).classes);
  }

  /** A kept block's role: `output` exactly when its classes hold both
      `output` and `json`; the chosen language class is removed, an input
      block loses one `input` class, and no other class is removed. */
  lemma KeptRole(content: string, attr: Attributes, cfg: Config, lang: Option<string>, found: (Option<string>, Option<string>))
    requires ValidChoice(attr.classes, lang)
    ensures var r := KeptBlock(content, attr, cfg, lang, found);
      && (r.io == Role.Output <==> "output" in attr.classes && "json" in attr.classes)
      && multiset(r.attributes.classes)
         + (if lang.Some? then multiset{lang.value} else multiset{})
         + (if r.io == Input && "input" in attr.classes then multiset{"input"} else multiset{})
         == multiset(attr.classes)
  {
    var (io, rest) := TakeRole(attr.classes);
    KeptClasses(content, attr, cfg, lang, found);
    TakeRoleRemoves(attr.classes);
    var r := KeptBlock(content, attr, cfg, lang, found);
    var dropped := if io == Input && "input" in attr.classes then multiset{"input"} else multiset{};
    var chosen := if lang.Some? then multiset{lang.value} else multiset{};
    assert multiset(r.attributes.classes) + chosen == multiset(rest);
  }

  /** Where a kept block's role and classes come from. */
  lemma KeptClasses(content: string, attr: Attributes, cfg: Config, lang: Option<string>, found: (Option<string>, Option<string>))
    requires ValidChoice(attr.classes, lang)
    ensures var r := KeptBlock(content, attr, cfg, lang, found);
      var (io, rest) := TakeRole(attr.classes);
      && r.io == io
      && (lang.None? ==> r.attributes.classes == rest)
      && (lang.Some? ==> lang.value in rest && r.attributes.classes == RemoveFirst(rest, lang.value))
  {
  }

  /** The role step removes at most one `input` class. */
  lemma TakeRoleRemoves(classes: seq<string>)
    ensures var (io, rest) := TakeRole(classes);
      multiset(rest) + (if io == Input && "input" in classes then multiset{"input"} else multiset{}) == multiset(classes)
  {
  }

  /** A kept block's language: one of the known languages; `python` when no
      class names a language; otherwise a class it carried. */
  lemma KeptLanguage(content: string, attr: Attributes, cfg: Config, lang: Option<string>, found: (Option<string>, Option<string>))
    requires ValidChoice(attr.classes, lang)
    ensures var r := KeptBlock(content, attr, cfg, lang, found);
      && r.language in Languages
      && (lang.None? ==> r.language == "python")
      && (r.language != "python" ==> r.language in attr.classes && lang == Some(r.language))
  {
  }

  /** Magic: with magic on, code in another language than python is prefixed
      by that language's cell magic; python code, and all code with magic
      off, is unchanged. */
  lemma KeptContent(content: string, attr: Attributes, cfg: Config, lang: Option<string>, found: (Option<string>, Option<string>))
    requires ValidChoice(attr.classes, lang)
    ensures var r := KeptBlock(content, attr, cfg, lang, found);
      && (cfg.magic && r.language != "python" ==> r.content == Magic(r.language) + content)
      && (!cfg.magic || r.language == "python" ==> r.content == content)
  {
  }

  /** Captions: with caption comments on and content starting `## fig:`, the
      id becomes the `fig:` label and the key `caption` is set; otherwise id
      and key/value pairs are left as they were. */
  lemma KeptCaption(content: string, attr: Attributes, cfg: Config, lang: Option<string>)
    requires ValidChoice(attr.classes, lang)
    ensures var r := KeptBlock(content, attr, cfg, lang, Found(cfg, content));
      && (cfg.captions && "## fig:" <= content ==>
            "fig:" <= r.attributes.id && r.attributes.id == CaptionComments(content).0.value
            && r.attributes.kvs == attr.kvs["caption" := CaptionComments(content).1.value])
      && (!(cfg.captions && "## fig:" <= content) ==>
            r.attributes.id == attr.id && r.attributes.kvs == attr.kvs)
  {
    if cfg.captions && "## fig:" <= content {
      CaptionCommentsShape(content);
    }
  }
}
