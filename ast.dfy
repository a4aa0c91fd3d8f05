/**
 * The values the grammar of parser/vscode.ts builds: the node classes of
 * parser/node.ts as they come out of the parser, before any runtime state
 * (range, input, copy link, choice index) is attached.
 */
module Ast {
  import opened Options

  /** The case modifiers of a `${n:/modifier}` format. */
  datatype Modifier = Upcase | Downcase | Capitalize | Camelcase | Pascalcase

  /** A piece of a transform's replacement: a capture reference or literal text. */
  datatype Segment =
    | Format(captureIndex: nat, modifier: Option<Modifier>, ifText: Option<string>, elseText: Option<string>)
    | Literal(text: string)

  /** `/pattern/format/flags`; the pattern is kept with its escapes. */
  datatype Transform = Transform(pattern: string, formats: seq<Segment>, flags: Option<string>)

  datatype Node =
    | Text(text: string)
    | Tabstop(tabstop: nat, transform: Option<Transform>)
    | Placeholder(tabstop: nat, children: seq<Node>)
    | Choice(tabstop: nat, items: seq<string>)
    | Variable(name: string, transform: Option<Transform>, body: Default)
  {
    /** Tabstops, placeholders and choices are the nodes a cursor can jump to. */
    predicate IsJumpable() {
      Tabstop? || Placeholder? || Choice?
    }
  }

  /** A variable's default: absent, or the children written after `${name:`. */
  datatype Default = NoDefault | WithDefault(children: seq<Node>)

  datatype Snippet = Snippet(children: seq<Node>)
}
