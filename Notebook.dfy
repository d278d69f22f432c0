/**
 * The values the converter passes between its stages: the attribute record of a
 * code block, the two kinds of notebook cell, and the errors the reader raises.
 */
module Notebook {
  import opened Wrappers

  /** A parsed attribute set `{#id .class1 .class2 key=value}`: the identifier,
      the classes in order, and the key/value pairs.  Parsing and rendering
      this syntax belongs to the `pandocattributes` library and is not modelled. */
  datatype Attributes = Attributes(id: string, classes: seq<string>, kvs: map<string, string>)

  const NoAttributes: Attributes := Attributes("", [], map[])

  /** `PandocAttributes.is_empty`. */
  predicate IsEmpty(a: Attributes) {
    a.id == "" && a.classes == [] && a.kvs == map[]
  }

  /** One output record of a code cell, standing for the JSON object nbformat keeps. */
  datatype Output = Output(record: string)

  /** A notebook cell.  A code cell's metadata is either empty or holds the
      block's attributes under the key `attributes`. */
  datatype Cell =
    | CodeCell(source: string, outputs: seq<Output>, executionCount: Option<int>, metadata: Option<Attributes>)
    | MarkdownCell(source: string)

  /** The exceptions the reader lets escape. */
  datatype Error =
    | KeyError(key: string)          // a dictionary lookup of a missing key
    | IndexError                     // `cells[-1]` on an empty list
    | NotImplemented(cellType: string)
    | ValueError(text: string)       // `int(...)` of a non-numeric execution count
    | JsonError(text: string)        // `json.loads` of an output block

  /** The languages a code block may name among its classes. */
  const Languages: seq<string> := ["python", "r", "ruby", "bash"]
}
