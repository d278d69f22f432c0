/**
 * The choices the command line makes before any file is read
 * (notedown/main.py): the format a file name suggests (`ftdetect`), the
 * input and output formats, the template, the precode handed to the reader
 * and where the result goes.
 *
 * Paths follow POSIX `os.path`: `/` separates directories.
 */
module Cli {
  import opened Wrappers
  import opened Strings

  datatype Format = MarkdownFormat | NotebookFormat

  // ---- os.path.splitext ----

  /** The position of the last `c` in `s`, or -1 (Python `str.rfind`). */
  function LastIndex(s: string, c: char): (i: int)
    ensures -1 <= i < |s|
    ensures i >= 0 ==> s[i] == c
    ensures forall j :: i < j < |s| ==> s[j] != c
  {
    if s == [] then -1
    else if s[|s| - 1] == c then |s| - 1
    else LastIndex(s[..|s| - 1], c)
  }

  /** The last path component has a character other than a dot before position `dot`. */
  predicate NamedBefore(p: string, sep: int, dot: int)
    requires -1 <= sep && dot <= |p|
  {
    exists i :: sep < i < dot && p[i] != '.'
  }

  /** `os.path.splitext`: the extension runs from the last dot of the last
      path component, unless only dots come before it in that component. */
  function SplitExt(p: string): (r: (string, string))
    ensures r.0 + r.1 == p
    ensures r.1 == "" || (r.1[0] == '.' && '.' !in r.1[1..] && '/' !in r.1)
  {
    var sep := LastIndex(p, '/');
    var dot := LastIndex(p, '.');
    if dot > sep && NamedBefore(p, sep, dot) then
      assert '.' !in p[dot..][1..] by {
        assert forall j :: 0 <= j < |p[dot..][1..]| ==> p[dot..][1..][j] == p[dot + 1 + j];
      }
      (p[..dot], p[dot..])
    else (p, "")
  }

  /** A path whose last component has a character other than a dot. */
  predicate HasName(stem: string) {
    NamedBefore(stem, LastIndex(stem, '/'), |stem|)
  }

  /** An extension: a dot, then neither dots nor separators. */
  predicate IsExtension(ext: string) {
    ext != "" && ext[0] == '.' && '.' !in ext[1..] && '/' !in ext
  }

  /** Only the final extension counts: a name followed by an extension
      splits into exactly those two. */
  lemma SplitExtOfName(stem: string, ext: string)
    requires HasName(stem) && IsExtension(ext)
    ensures SplitExt(stem + ext) == (stem, ext)
  {
    var p := stem + ext;
    var sep := LastIndex(stem, '/');
    forall j | sep < j < |p|
      ensures p[j] != '/'
    {
      if j < |stem| {
        assert p[j] == stem[j];
      } else {
        assert p[j] == ext[j - |stem|];
      }
    }
    LastIndexIs(p, '/', sep);
    forall j | |stem| < j < |p|
      ensures p[j] != '.'
    {
      assert p[j] == ext[1..][j - |stem| - 1];
    }
    LastIndexIs(p, '.', |stem|);
    var i :| sep < i < |stem| && stem[i] != '.';
    assert p[i] != '.';
    assert p[..|stem|] == stem && p[|stem|..] == ext;
  }

  /** The last occurrence is the one with no occurrence after it. */
  lemma LastIndexIs(s: string, c: char, i: int)
    requires -1 <= i < |s| && (i >= 0 ==> s[i] == c)
    requires forall j :: i < j < |s| ==> s[j] != c
    ensures LastIndex(s, c) == i
  {
  }

  // ---- ftdetect ----

  const MarkdownExtensions: seq<string> := [".md", ".markdown", ".mkd", ".mdown", ".mkdn", ".Rmd"]

  /** `ftdetect(filename)`: the format the final extension names, compared
      case-sensitively, or none. */
  function Ftdetect(filename: string): (r: Option<Format>)
    ensures r == Some(MarkdownFormat) <==> SplitExt(filename).1 in MarkdownExtensions
    ensures r == Some(NotebookFormat) <==> SplitExt(filename).1 == ".ipynb"
  {
    var ext := SplitExt(filename).1;
    if ext in MarkdownExtensions then Some(MarkdownFormat)
    else if ext == ".ipynb" then Some(NotebookFormat)
    else None
  }

  /** The format of a file named by a stem and one of the known extensions. */
  lemma FtdetectByExtension(stem: string, ext: string)
    requires HasName(stem) && (ext in MarkdownExtensions || ext == ".ipynb")
    ensures Ftdetect(stem + ext) == if ext == ".ipynb" then Some(NotebookFormat) else Some(MarkdownFormat)
  {
    assert IsExtension(ext) by {
      assert ext[1..] in ["md", "markdown", "mkd", "mdown", "mkdn", "Rmd", "ipynb"];
    }
    SplitExtOfName(stem, ext);
  }

  /** `x.ipynb.md` is markdown, `x.MD` is nothing, and a dot file such as
      `.md` has no extension at all. */
  lemma FinalExtensionDecides()
    ensures Ftdetect("x.ipynb.md") == Some(MarkdownFormat)
  {
    var stem := "x.ipynb";
    LastIndexIs(stem, '/', -1);
    assert stem[0] != '.';
    FtdetectByExtension(stem, ".md");
    assert stem + ".md" == "x.ipynb.md";
  }

  lemma ExtensionCaseMatters()
    ensures Ftdetect("x.MD") == None
  {
    LastIndexIs("x", '/', -1);
    assert "x"[0] != '.';
    SplitExtOfName("x", ".MD");
    assert "x" + ".MD" == "x.MD";
  }

  lemma DotFileHasNoExtension()
    ensures Ftdetect(".md") == None
    ensures Ftdetect("-") == None
  {
    LastIndexIs(".md", '.', 0);
    LastIndexIs(".md", '/', -1);
    LastIndexIs("-", '.', -1);
  }

  // ---- the choices in main ----

  /** `args.informat or ftdetect(input_file.name) or 'markdown'`. */
  function InputFormat(from: Option<Format>, inputName: string): (r: Format)
    ensures from.Some? ==> r == from.value
    ensures from.None? && Ftdetect(inputName).Some? ==> r == Ftdetect(inputName).value
    ensures from.None? && Ftdetect(inputName).None? ==> r == MarkdownFormat
  {
    if from.Some? then from.value
    else Ftdetect(inputName).GetOr(MarkdownFormat)
  }

  /** The output format: `--render` forces markdown; otherwise `--to`, the
      format the output name suggests, or a notebook. */
  function OutputFormat(to: Option<Format>, output: string, render: bool): (r: Format)
    ensures render ==> r == MarkdownFormat
    ensures !render && to.Some? ==> r == to.value
    ensures !render && to.None? && Ftdetect(output).Some? ==> r == Ftdetect(output).value
    ensures !render && to.None? && Ftdetect(output).None? ==> r == NotebookFormat
  {
    if render then MarkdownFormat
    else if to.Some? then to.value
    else Ftdetect(output).GetOr(NotebookFormat)
  }

  const MarkdownTemplate := "templates/markdown.tpl"
  const OutputsTemplate := "templates/markdown_outputs.tpl"

  /** `args.template or template_file`: an empty template name counts as none. */
  function Template(template: Option<string>, render: bool): (r: string)
    ensures template.Some? && template.value != "" ==> r == template.value
    ensures (template.None? || template.value == "") ==> r == (if render then OutputsTemplate else MarkdownTemplate)
  {
    if template.Some? && template.value != "" then template.value
    else if render then OutputsTemplate
    else MarkdownTemplate
  }

  const RMagicLoad := "%load_ext rpy2.ipython"

  /** The reader's precode: the `--precode` lines, then the R magic loader
      under `--rmagic`, joined with newlines. */
  function Precode(lines: seq<string>, rmagic: bool): string {
    Join(lines + (if rmagic then [RMagicLoad] else []), "\n")
  }

  /** Under `--rmagic` the loader is the last line of the precode, after the given lines. */
  lemma PrecodeLines(lines: seq<string>, rmagic: bool)
    requires forall i :: 0 <= i < |lines| ==> '\n' !in lines[i]
    ensures Split(Precode(lines, rmagic), '\n') == if rmagic then lines + [RMagicLoad] else if lines == [] then [""] else lines
  {
    var all := lines + (if rmagic then [RMagicLoad] else []);
    assert forall i :: 0 <= i < |all| ==> '\n' !in all[i] by {
      forall i | 0 <= i < |all| ensures '\n' !in all[i] {
        if i >= |lines| { assert all[i] == RMagicLoad; }
      }
    }
    if all != [] {
      SplitJoin(all, '\n');
    }
  }

  /** Where the converted notebook goes. */
  datatype Target = Stdout | ToFile(path: string) | Overwrite(path: string) | NoInputToOverwrite

  function Extension(f: Format): string {
    match f
    case MarkdownFormat => ".md"
    case NotebookFormat => ".ipynb"
  }

  /** `-o` with no name (`output == ""`) writes next to the input, with the
      input's final extension replaced by that of the output format; without
      an input file this is an error.  `-` is standard output. */
  function Destination(input: string, output: string, outFormat: Format): (r: Target)
    ensures r.Overwrite? <==> output == "" && input != "-"
    ensures r.Overwrite? ==> r.path == SplitExt(input).0 + Extension(outFormat)
    ensures r == NoInputToOverwrite <==> output == "" && input == "-"
    ensures r == Stdout <==> output == "-"
    ensures r.ToFile? <==> output != "" && output != "-"
  {
    if output == "" && input != "-" then Overwrite(SplitExt(input).0 + Extension(outFormat))
    else if output == "" then NoInputToOverwrite
    else if output == "-" then Stdout
    else ToFile(output)
  }

  /** The file an overwrite writes is detected as the format written to it. */
  lemma OverwriteDetected(input: string, outFormat: Format)
    requires input != "-" && HasName(SplitExt(input).0)
    ensures Ftdetect(Destination(input, "", outFormat).path) == Some(outFormat)
  {
    FtdetectByExtension(SplitExt(input).0, Extension(outFormat));
  }

  /** An input with an extension always leaves a stem with a name. */
  lemma StemHasName(input: string)
    requires SplitExt(input).1 != ""
    ensures HasName(SplitExt(input).0)
  {
    var p := input;
    var sep := LastIndex(p, '/');
    var dot := LastIndex(p, '.');
    var stem := p[..dot];
    var i :| sep < i < dot && p[i] != '.';
    assert stem[i] != '.';
    assert forall j :: sep < j < |stem| ==> stem[j] == p[j];
    LastIndexIs(stem, '/', sep);
  }
}
