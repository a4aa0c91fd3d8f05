/**
 * `Format.format` and `Transform.transformer`, which parser/node.ts and
 * node.ts define identically. The regular-expression engine and the case
 * conversions (`toUpperCase`, `toLowerCase`, the camelcase package) are not
 * modelled; they are passed in as functions.
 */
module Formats {
  import opened Options
  import opened Ast

  /** The case conversions a format modifier calls on. */
  datatype CaseLib = CaseLib(
    upper: string -> string,
    lower: string -> string,
    camel: string -> string,
    pascal: string -> string)

  /**
   * The first match of a regular expression in an input: the text before it,
   * one entry per capture group (None when the group did not take part), and
   * the text after it.
   */
  datatype RegexMatch = RegexMatch(before: string, captures: seq<Option<string>>, after: string)

  /**
   * The regular-expression operations a transform calls on, for a pattern
   * source and a flag string: the first match, and `replaceAll` with a
   * replacement string.
   */
  datatype RegexLib = RegexLib(
    firstMatch: (string, string, string) -> Option<RegexMatch>,
    replaceAll: (string, string, string, string) -> string)

  /** JavaScript truthiness of an optional string: present and not empty. */
  predicate Truthy(s: Option<string>) {
    s.Some? && s.value != ""
  }

  /** The case modifier applied to a non-empty capture; `capitalize` upper-cases the first character and lower-cases the rest. */
  function Modify(modifier: Option<Modifier>, str: string, lib: CaseLib): string
    requires str != ""
  {
    match modifier
    case None => str
    case Some(Upcase) => lib.upper(str)
    case Some(Downcase) => lib.lower(str)
    case Some(Capitalize) => lib.upper(str[..1]) + lib.lower(str[1..])
    case Some(Camelcase) => lib.camel(str)
    case Some(Pascalcase) => lib.pascal(str)
  }

  /**
   * `format(str)`: a non-empty capture with a non-empty if-text gives the
   * if-text; a missing or empty capture gives the else-text when that is
   * non-empty and "" otherwise; any other capture goes through the modifier.
   */
  function FormatCapture(f: Segment, str: Option<string>, lib: CaseLib): (r: string)
    requires f.Format?
    ensures Truthy(str) && Truthy(f.ifText) ==> r == f.ifText.value
    ensures !Truthy(str) && Truthy(f.elseText) ==> r == f.elseText.value
    ensures !Truthy(str) && !Truthy(f.elseText) ==> r == ""
    ensures Truthy(str) && !Truthy(f.ifText) ==> r == Modify(f.modifier, str.value, lib)
  {
    if Truthy(str) && Truthy(f.ifText) then f.ifText.value
    else if !Truthy(str) && Truthy(f.elseText) then f.elseText.value
    else if !Truthy(str) then ""
    else Modify(f.modifier, str.value, lib)
  }

  /** The modifier matters only for a non-empty capture and a format without an if-text. */
  lemma ModifierOnlyForPlainCapture(f: Segment, str: Option<string>, lib: CaseLib, m: Option<Modifier>)
    requires f.Format?
    requires !Truthy(str) || Truthy(f.ifText)
    ensures FormatCapture(f, str, lib) == FormatCapture(f.(modifier := m), str, lib)
  {
  }

  /**
   * An if-else format whose two branches are non-empty picks between them on
   * the capture alone; an empty if-text falls through to the capture itself.
   */
  lemma IfElseChooses(n: nat, a: string, b: string, str: Option<string>, lib: CaseLib)
    requires b != ""
    ensures a != "" ==> FormatCapture(Format(n, None, Some(a), Some(b)), str, lib) == if Truthy(str) then a else b
    ensures a == "" && Truthy(str) ==> FormatCapture(Format(n, None, Some(a), Some(b)), str, lib) == str.value
  {
  }

  /** The capture a format refers to: `submatches[captureIndex - 1]`, undefined when there is no such group. */
  function CaptureFor(captures: seq<Option<string>>, captureIndex: nat): (r: Option<string>)
    ensures 1 <= captureIndex <= |captures| ==> r == captures[captureIndex - 1]
    ensures captureIndex == 0 || |captures| < captureIndex ==> r == None
  {
    if 1 <= captureIndex <= |captures| then captures[captureIndex - 1] else None
  }

  /** The replacement for one match: literal segments verbatim, format segments applied to their capture. */
  function Replacement(formats: seq<Segment>, captures: seq<Option<string>>, lib: CaseLib): string {
    if formats == [] then ""
    else
      var head := match formats[0]
        case Literal(text) => text
        case Format(i, _, _, _) => FormatCapture(formats[0], CaptureFor(captures, i), lib);
      head + Replacement(formats[1..], captures, lib)
  }

  /** The replacement string the global branch passes to `replaceAll`: `getText()` of each segment, which is "" for a format. */
  function LiteralText(formats: seq<Segment>): string {
    if formats == [] then ""
    else (if formats[0].Literal? then formats[0].text else "") + LiteralText(formats[1..])
  }

  /** The replacement of a concatenation of segment lists is the concatenation of their replacements. */
  lemma {:induction false} ReplacementAppend(a: seq<Segment>, b: seq<Segment>, captures: seq<Option<string>>, lib: CaseLib)
    ensures Replacement(a + b, captures, lib) == Replacement(a, captures, lib) + Replacement(b, captures, lib)
  {
    if a != [] {
      assert (a + b)[0] == a[0];
      assert (a + b)[1..] == a[1..] + b;
      ReplacementAppend(a[1..], b, captures, lib);
    } else {
      assert a + b == b;
    }
  }

  /** Without formats, the per-match replacement is the literal text and does not depend on the captures. */
  lemma {:induction false} LiteralsOnlyReplacement(formats: seq<Segment>, captures: seq<Option<string>>, lib: CaseLib)
    requires forall k :: 0 <= k < |formats| ==> formats[k].Literal?
    ensures Replacement(formats, captures, lib) == LiteralText(formats)
  {
    if formats != [] {
      LiteralsOnlyReplacement(formats[1..], captures, lib);
    }
  }

  /** The flags of a transform as the RegExp sees them. */
  function FlagString(t: Transform): string {
    t.flags.GetOr("")
  }

  /**
   * `transformer(input)`: with the `g` flag, `replaceAll` with the literal
   * text; otherwise the first match, if any, replaced by the assembled
   * replacement and the rest of the input kept.
   */
  function Transformer(t: Transform, input: string, regex: RegexLib, lib: CaseLib): (r: string)
    ensures 'g' !in FlagString(t) && regex.firstMatch(t.pattern, FlagString(t), input).None? ==> r == input
    ensures 'g' !in FlagString(t) && regex.firstMatch(t.pattern, FlagString(t), input).Some? ==>
      var m := regex.firstMatch(t.pattern, FlagString(t), input).value;
      r == m.before + Replacement(t.formats, m.captures, lib) + m.after
    ensures 'g' in FlagString(t) ==> r == regex.replaceAll(t.pattern, FlagString(t), input, LiteralText(t.formats))
  {
    var flags := FlagString(t);
    if 'g' in flags then regex.replaceAll(t.pattern, flags, input, LiteralText(t.formats))
    else
      match regex.firstMatch(t.pattern, flags, input)
      case None => input
      case Some(m) => m.before + Replacement(t.formats, m.captures, lib) + m.after
  }

  /** Under the `g` flag two format lists with the same literal segments transform alike: what a format segment says is ignored. */
  lemma GlobalIgnoresFormats(t: Transform, formats: seq<Segment>, input: string, regex: RegexLib, lib: CaseLib)
    requires 'g' in FlagString(t)
    requires LiteralText(formats) == LiteralText(t.formats)
    ensures Transformer(t.(formats := formats), input, regex, lib) == Transformer(t, input, regex, lib)
  {
  }

  /** `transform.transformer(text)` when there is a transform, the text itself otherwise. */
  function ApplyTransform(transform: Option<Transform>, text: string, regex: RegexLib, lib: CaseLib): (r: string)
    ensures transform.None? ==> r == text
  {
    if transform.Some? then Transformer(transform.value, text, regex, lib) else text
  }
}
