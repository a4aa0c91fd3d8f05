/**
 * What the grammar of parser/vscode.ts accepts and builds: the recursion
 * through anyWithoutText, the forms of tabstops, formats, transforms,
 * placeholders, choices and variables, the text delimiters of each
 * context, and the top-level snippet parser.
 */
module GrammarLaws {
  import opened Options
  import opened Strings
  import opened Generator
  import opened Ast
  import opened Grammar

  // ---------------------------------------------------------------- the recursion

  /** Inside anyWithoutText at pos, the recursive parser is anyWithoutText itself at every later position of the input. */
  lemma GuardedIsAny(input: string, pos: nat, k: nat)
    requires pos < k <= |input|
    ensures Guarded(input, pos)(input, k) == AnyAt(input, k)
  {
  }

  // ---------------------------------------------------------------- how each production starts

  lemma MappedBracedStart<A, B>(p: Parser<A>, f: A -> B, input: string, pos: nat)
    ensures Map(Braced(p), f)(input, pos).Parsed? ==> pos + 1 < |input| && input[pos] == '$' && input[pos + 1] == '{'
  {
    BracedUnfold(p, input, pos);
  }

  lemma MappedDollaredStart<A, B>(p: Parser<A>, f: A -> B, input: string, pos: nat)
    ensures Map(Dollared(p), f)(input, pos).Parsed? ==> pos < |input| && input[pos] == '$' && p(input, pos + 1).Parsed?
  {
    DollaredUnfold(p, input, pos);
  }

  lemma TabstopStart(input: string, pos: nat)
    ensures TabstopP(input, pos).Parsed? ==>
      pos + 1 < |input| && input[pos] == '$' && (input[pos + 1] == '{' || IsDigit(input[pos + 1]))
  {
    MappedDollaredStart(Int, (n: nat) => Tabstop(n, None), input, pos);
    MappedBracedStart(Int, (n: nat) => Tabstop(n, None), input, pos);
    MappedBracedStart(Seq2(Int, TransformP), (v: (nat, Transform)) => Tabstop(v.0, Some(v.1)), input, pos);
    OrFacts([TabstopPlain, TabstopBraced, TabstopTransformed], input, pos);
  }

  lemma VariableStart(any: Parser<Node>, input: string, pos: nat)
    ensures VariableP(any)(input, pos).Parsed? ==>
      pos + 1 < |input| && input[pos] == '$' && (input[pos + 1] == '{' || IsVarStart(input[pos + 1]))
  {
    MappedDollaredStart(Var, (name: string) => Variable(name, None, NoDefault), input, pos);
    MappedBracedStart(Var, (name: string) => Variable(name, None, NoDefault), input, pos);
    MappedBracedStart(Seq2(Var, TransformP), (v: (string, Transform)) => Variable(v.0, Some(v.1), NoDefault), input, pos);
    MappedBracedStart(Seq2(Var, Seq2(Colon, Children(any))), (v: (string, (string, seq<Node>))) => Variable(v.0, None, WithDefault(v.1.1)), input, pos);
    OrFacts([VariablePlain, VariableBraced, VariableTransformed, VariableDefault(any)], input, pos);
  }

  /** anyWithoutText only starts at a `$` followed by `{`, a digit or the first character of a name. */
  lemma AnyAtStart(input: string, pos: nat)
    ensures AnyAt(input, pos).Parsed? ==>
      pos + 1 < |input| && input[pos] == '$' && (input[pos + 1] == '{' || IsDigit(input[pos + 1]) || IsVarStart(input[pos + 1]))
  {
    var g := Guarded(input, pos);
    MappedBracedStart(Seq2(Int, Seq2(Colon, Opt(Children(g)))),
      (v: (nat, (string, Option<seq<Node>>))) => Placeholder(v.0, v.1.1.GetOr([])), input, pos);
    TabstopStart(input, pos);
    VariableStart(g, input, pos);
    MappedBracedStart(Seq2(Int, Seq2(Pipe, Seq2(ChoiceItems, Pipe))),
      (v: (nat, (string, (seq<string>, string)))) => Choice(v.0, v.1.1.0), input, pos);
    OrFacts(Alternatives(g), input, pos);
  }

  // ---------------------------------------------------------------- text in each context

  /** Top-level text is anything up to the next `$`; a `}` there is ordinary text. */
  lemma TopTextIff(input: string, k: nat)
    ensures TopText(input, k).Parsed? <==> k < |input| && input[k] != '$'
  {
  }

  /** Text inside a placeholder or a variable default stops at `$` and at `}`. */
  lemma InnerTextIff(input: string, k: nat)
    ensures InnerText(input, k).Parsed? <==> k < |input| && input[k] != '$' && input[k] != '}'
  {
  }

  /** An escaped `}` at the top level loses its backslash; an unescaped one is kept as it stands. */
  lemma TopTextValue(input: string, k: nat)
    ensures var r := TopText(input, k); var t := TakeUntilAt({'$'}, {'}', '\\'}, input, k);
      r.Parsed? ==> r.value == Node.Text(Unescape(t.value.raw, {'$'}, {'}', '\\'})) && r.pos == t.pos
  {
  }

  // ---------------------------------------------------------------- the snippet parser

  /** A top-level item is the given anyWithoutText or, at any character but `$`, text. */
  lemma TopItemIff(any: Parser<Node>, body: string, k: nat)
    requires any(body, k).Parsed? ==> k < |body|
    ensures Or([any, TopText])(body, k).Parsed? <==> k < |body| && (body[k] != '$' || any(body, k).Parsed?)
  {
    TopTextIff(body, k);
    OrPair(any, TopText, body, k);
  }

  /**
   * The snippet parser fails on an empty body and succeeds as soon as its
   * first item parses: a `$` that starts no tabstop, placeholder, choice or
   * variable stops it, and nothing requires the whole body to be consumed.
   */
  lemma ParseIff(body: string)
    ensures Parse(body).Parsed? <==> |body| > 0 && (body[0] != '$' || AnyAt(body, 0).Parsed?)
  {
    TopAdvances();
    AnyAtStart(body, 0);
    TopItemIff(AnyWithoutText, body, 0);
  }

  // ---------------------------------------------------------------- Tabstop

  lemma MappedDollaredOn<A, B>(p: Parser<A>, f: A -> B, input: string, pos: nat, v: A, e: nat)
    requires pos < |input| && input[pos] == '$' && p(input, pos + 1) == Parsed(v, e)
    ensures Map(Dollared(p), f)(input, pos) == Parsed(f(v), e)
  {
    DollaredUnfold(p, input, pos);
  }

  /** `$n` is the tabstop n, where Int reads n after the `$` (any digit string, so `$0` too). */
  lemma TabstopPlainForm(input: string, pos: nat, n: nat, e: nat)
    requires pos < |input| && input[pos] == '$' && Int(input, pos + 1) == Parsed(n, e)
    ensures TabstopP(input, pos) == Parsed(Tabstop(n, None), e)
  {
    MappedDollaredOn(Int, (n: nat) => Tabstop(n, None), input, pos, n, e);
    OrTriple(TabstopPlain, TabstopBraced, TabstopTransformed, input, pos);
  }

  lemma IntStart(input: string, k: nat)
    ensures Int(input, k).Parsed? ==> k < |input| && IsDigit(input[k])
  {
  }

  lemma TabstopPlainStart(input: string, pos: nat)
    ensures TabstopPlain(input, pos).Parsed? ==> pos + 1 < |input| && IsDigit(input[pos + 1])
  {
    DollaredUnfold(Int, input, pos);
    IntStart(input, pos + 1);
  }

  lemma MappedBracedOn<A, B>(p: Parser<A>, f: A -> B, input: string, pos: nat, v: A, e: nat)
    requires pos + 1 < |input| && input[pos] == '$' && input[pos + 1] == '{'
    requires p(input, pos + 2) == Parsed(v, e) && e < |input| && input[e] == '}'
    ensures Map(Braced(p), f)(input, pos) == Parsed(f(v), e + 1)
  {
    BracedUnfold(p, input, pos);
  }

  lemma TabstopBracedOn(input: string, pos: nat, n: nat, e: nat)
    requires pos + 1 < |input| && input[pos] == '$' && input[pos + 1] == '{'
    requires Int(input, pos + 2) == Parsed(n, e) && e < |input| && input[e] == '}'
    ensures TabstopBraced(input, pos) == Parsed(Tabstop(n, None), e + 1)
  {
    MappedBracedOn(Int, (n: nat) => Tabstop(n, None), input, pos, n, e);
  }

  /** `${n}` is the tabstop n, where Int reads n after the `${`. */
  lemma TabstopBracedForm(input: string, pos: nat, n: nat, e: nat)
    requires pos + 1 < |input| && input[pos] == '$' && input[pos + 1] == '{'
    requires Int(input, pos + 2) == Parsed(n, e) && e < |input| && input[e] == '}'
    ensures TabstopP(input, pos) == Parsed(Tabstop(n, None), e + 1)
  {
    TabstopPlainStart(input, pos);
    TabstopBracedOn(input, pos, n, e);
    OrTriple(TabstopPlain, TabstopBraced, TabstopTransformed, input, pos);
  }

  lemma TransformStart(input: string, k: nat)
    ensures TransformP(input, k).Parsed? ==> k < |input| && input[k] == '/'
  {
    TokenChar('/', input, k);
  }

  lemma TabstopBracedFailsOnSlash(input: string, pos: nat, n: nat, e: nat)
    requires Int(input, pos + 2) == Parsed(n, e) && e < |input| && input[e] == '/'
    ensures TabstopBraced(input, pos).Unmatched?
  {
    BracedUnfold(Int, input, pos);
  }

  lemma TabstopTransformedOn(input: string, pos: nat, n: nat, e: nat, t: Transform, f: nat)
    requires pos + 1 < |input| && input[pos] == '$' && input[pos + 1] == '{'
    requires Int(input, pos + 2) == Parsed(n, e) && TransformP(input, e) == Parsed(t, f)
    requires f < |input| && input[f] == '}'
    ensures TabstopTransformed(input, pos) == Parsed(Tabstop(n, Some(t)), f + 1)
  {
    Seq2On(Int, TransformP, input, pos + 2, n, e, t, f);
    MappedBracedOn(Seq2(Int, TransformP), (v: (nat, Transform)) => Tabstop(v.0, Some(v.1)), input, pos, (n, t), f);
  }

  /** `${n/pattern/format/flags}` is the tabstop n with that transform. */
  lemma TabstopTransformedForm(input: string, pos: nat, n: nat, e: nat, t: Transform, f: nat)
    requires pos + 1 < |input| && input[pos] == '$' && input[pos + 1] == '{'
    requires Int(input, pos + 2) == Parsed(n, e) && TransformP(input, e) == Parsed(t, f)
    requires f < |input| && input[f] == '}'
    ensures TabstopP(input, pos) == Parsed(Tabstop(n, Some(t)), f + 1)
  {
    TransformStart(input, e);
    TabstopPlainStart(input, pos);
    TabstopBracedFailsOnSlash(input, pos, n, e);
    TabstopTransformedOn(input, pos, n, e, t, f);
    OrTriple(TabstopPlain, TabstopBraced, TabstopTransformed, input, pos);
  }

  // ---------------------------------------------------------------- Format

  /** The input has `${` at pos. */
  predicate OpensAt(input: string, pos: nat) {
    pos + 1 < |input| && input[pos] == '$' && input[pos + 1] == '{'
  }

  predicate CharAt(input: string, k: nat, c: char) {
    k < |input| && input[k] == c
  }

  /** After the `${` at pos a capture index n ends at e, where a `:` follows. */
  predicate CaptureColonAt(input: string, pos: nat, n: nat, e: nat) {
    NonZeroInt(input, pos + 2) == Parsed(n, e) && CharAt(input, e, ':')
  }

  lemma MappedBracedFails<A, B>(p: Parser<A>, f: A -> B, input: string, pos: nat)
    requires !OpensAt(input, pos) || p(input, pos + 2).Unmatched? || !CharAt(input, p(input, pos + 2).pos, '}')
    ensures Map(Braced(p), f)(input, pos).Unmatched?
  {
    BracedUnfold(p, input, pos);
  }

  lemma NonZeroIntStart(input: string, k: nat)
    ensures NonZeroInt(input, k).Parsed? ==> k < |input| && IsNonZeroDigit(input[k])
  {
  }

  /** Format capture indices are non-zero: a digit run starting with 0 is no capture index. */
  lemma FormatCaptureNonZero(input: string, pos: nat)
    ensures FormatP(input, pos).Parsed? && FormatP(input, pos).value.Format? ==> FormatP(input, pos).value.captureIndex >= 1
  {
    NonZeroIntPositive(input, pos + 1);
    NonZeroIntPositive(input, pos + 2);
    DollaredUnfold(NonZeroInt, input, pos);
    BracedUnfold(NonZeroInt, input, pos);
    FormatCaptureNonZeroCompound(input, pos);
    OrFacts([FormatPlain, FormatBraced, FormatModified, FormatIf, FormatIfElse, FormatElse], input, pos);
  }

  lemma FormatCaptureNonZeroCompound(input: string, pos: nat)
    ensures FormatModified(input, pos).Parsed? ==> FormatModified(input, pos).value.captureIndex >= 1
    ensures FormatIf(input, pos).Parsed? ==> FormatIf(input, pos).value.captureIndex >= 1
    ensures FormatIfElse(input, pos).Parsed? ==> FormatIfElse(input, pos).value.captureIndex >= 1
    ensures FormatElse(input, pos).Parsed? ==> FormatElse(input, pos).value.captureIndex >= 1
  {
    NonZeroIntPositive(input, pos + 2);
    BracedUnfold(Seq2(NonZeroInt, Seq2(Colon, Seq2(Slash, ModifierP))), input, pos);
    BracedUnfold(Seq2(NonZeroInt, Seq2(Colon, Seq2(Plus, Opt(TakeUntil({'}'}, {'\\'}))))), input, pos);
    BracedUnfold(Seq2(NonZeroInt, Seq2(Colon,
          Seq2(Question, Seq2(Opt(TakeUntil({':'}, {'\\'})), Seq2(Colon, Opt(TakeUntil({'}'}, {'\\'}))))))), input, pos);
    BracedUnfold(Seq2(NonZeroInt, Seq2(Colon, Seq2(Opt(Minus), Opt(TakeUntil({'}'}, {'\\'}))))), input, pos);
  }

  /** `${n:` followed by x, then `}`. */
  lemma ColonThenOn<X, B>(x: Parser<X>, f: ((nat, (string, X))) -> B, input: string, pos: nat, n: nat, e: nat, v: X, g: nat)
    requires OpensAt(input, pos)
    requires CaptureColonAt(input, pos, n, e)
    requires x(input, e + 1) == Parsed(v, g) && CharAt(input, g, '}')
    ensures Map(Braced(Seq2(NonZeroInt, Seq2(Colon, x))), f)(input, pos) == Parsed(f((n, (":", v))), g + 1)
  {
    TokenChar(':', input, e);
    Seq2On(Colon, x, input, e, ":", e + 1, v, g);
    Seq2On(NonZeroInt, Seq2(Colon, x), input, pos + 2, n, e, (":", v), g);
    MappedBracedOn(Seq2(NonZeroInt, Seq2(Colon, x)), f, input, pos, (n, (":", v)), g);
  }

  /** `${n:` followed by something x does not parse. */
  lemma ColonThenFails<X, B>(x: Parser<X>, f: ((nat, (string, X))) -> B, input: string, pos: nat, n: nat, e: nat)
    requires CaptureColonAt(input, pos, n, e)
    requires x(input, e + 1).Unmatched?
    ensures Map(Braced(Seq2(NonZeroInt, Seq2(Colon, x))), f)(input, pos).Unmatched?
  {
    TokenChar(':', input, e);
    Seq2FailsSecond(Colon, x, input, e, ":", e + 1);
    Seq2FailsSecond(NonZeroInt, Seq2(Colon, x), input, pos + 2, n, e);
    MappedBracedFails(Seq2(NonZeroInt, Seq2(Colon, x)), f, input, pos);
  }

  /** A one-character token followed by q, which succeeds. */
  lemma CharThenOn<B>(c: char, q: Parser<B>, input: string, k: nat, v: B, g: nat)
    requires CharAt(input, k, c) && q(input, k + 1) == Parsed(v, g)
    ensures Seq2(Token([c]), q)(input, k) == Parsed(([c], v), g)
  {
    TokenChar(c, input, k);
  }

  lemma CharThenFails<B>(c: char, q: Parser<B>, input: string, k: nat)
    requires !CharAt(input, k, c)
    ensures Seq2(Token([c]), q)(input, k).Unmatched?
  {
    TokenChar(c, input, k);
  }

  lemma FormatPlainFails(input: string, pos: nat)
    requires pos + 1 < |input| && input[pos + 1] == '{'
    ensures FormatPlain(input, pos).Unmatched?
  {
    NonZeroIntStart(input, pos + 1);
    DollaredUnfold(NonZeroInt, input, pos);
  }

  lemma FormatBracedFails(input: string, pos: nat, n: nat, e: nat)
    requires CaptureColonAt(input, pos, n, e)
    ensures FormatBraced(input, pos).Unmatched?
  {
    MappedBracedFails(NonZeroInt, (n: nat) => Format(n, None, None, None), input, pos);
  }

  lemma FormatModifiedFails(input: string, pos: nat, n: nat, e: nat)
    requires CaptureColonAt(input, pos, n, e) && !CharAt(input, e + 1, '/')
    ensures FormatModified(input, pos).Unmatched?
  {
    CharThenFails('/', ModifierP, input, e + 1);
    ColonThenFails(Seq2(Slash, ModifierP),
      (v: (nat, (string, (string, Modifier)))) => Format(v.0, Some(v.1.1.1), None, None), input, pos, n, e);
  }

  lemma FormatIfFails(input: string, pos: nat, n: nat, e: nat)
    requires CaptureColonAt(input, pos, n, e) && !CharAt(input, e + 1, '+')
    ensures FormatIf(input, pos).Unmatched?
  {
    CharThenFails('+', Opt(TakeUntil({'}'}, {'\\'})), input, e + 1);
    ColonThenFails(Seq2(Plus, Opt(TakeUntil({'}'}, {'\\'}))),
      (v: (nat, (string, (string, Option<Taken>)))) => Format(v.0, None, EscOf(v.1.1.1), None), input, pos, n, e);
  }

  lemma FormatIfElseFails(input: string, pos: nat, n: nat, e: nat)
    requires CaptureColonAt(input, pos, n, e) && !CharAt(input, e + 1, '?')
    ensures FormatIfElse(input, pos).Unmatched?
  {
    var rest := Seq2(Opt(TakeUntil({':'}, {'\\'})), Seq2(Colon, Opt(TakeUntil({'}'}, {'\\'}))));
    CharThenFails('?', rest, input, e + 1);
    ColonThenFails(Seq2(Question, rest),
      (v: (nat, (string, (string, (Option<Taken>, (string, Option<Taken>)))))) =>
        Format(v.0, None, EscOf(v.1.1.1.0), EscOf(v.1.1.1.1.1)), input, pos, n, e);
  }

  /** What an optional takeUntil gives: the escaped text when there is some, and where it stops. */
  function OptText(targets: set<char>, input: string, k: nat): (Option<string>, nat) {
    var t := TakeUntilAt(targets, {'\\'}, input, k);
    if t.Parsed? then (Some(t.value.esc), t.pos) else (None, k)
  }

  lemma OptTextIs(targets: set<char>, input: string, k: nat)
    ensures var o := Opt(TakeUntil(targets, {'\\'}))(input, k);
      o.Parsed? && EscOf(o.value) == OptText(targets, input, k).0 && o.pos == OptText(targets, input, k).1
  {
  }

  lemma FormatIfOn(input: string, pos: nat, n: nat, e: nat)
    requires OpensAt(input, pos)
    requires CaptureColonAt(input, pos, n, e) && CharAt(input, e + 1, '+')
    requires var g := OptText({'}'}, input, e + 2).1; CharAt(input, g, '}')
    ensures var t := OptText({'}'}, input, e + 2);
      FormatIf(input, pos) == Parsed(Format(n, None, t.0, None), t.1 + 1)
  {
    var tu := Opt(TakeUntil({'}'}, {'\\'}));
    OptTextIs({'}'}, input, e + 2);
    var o := tu(input, e + 2);
    CharThenOn('+', tu, input, e + 1, o.value, o.pos);
    ColonThenOn(Seq2(Plus, tu),
      (v: (nat, (string, (string, Option<Taken>)))) => Format(v.0, None, EscOf(v.1.1.1), None),
      input, pos, n, e, ("+", o.value), o.pos);
  }

  /** `${n:+if}` is the format that sets only the if text. */
  lemma FormatIfForm(input: string, pos: nat, n: nat, e: nat)
    requires OpensAt(input, pos)
    requires CaptureColonAt(input, pos, n, e) && CharAt(input, e + 1, '+')
    requires var g := OptText({'}'}, input, e + 2).1; CharAt(input, g, '}')
    ensures var t := OptText({'}'}, input, e + 2);
      FormatP(input, pos) == Parsed(Format(n, None, t.0, None), t.1 + 1)
  {
    FormatPlainFails(input, pos);
    FormatBracedFails(input, pos, n, e);
    FormatModifiedFails(input, pos, n, e);
    FormatIfOn(input, pos, n, e);
    OrSix(FormatPlain, FormatBraced, FormatModified, FormatIf, FormatIfElse, FormatElse, input, pos);
  }

  /** The `if:else` part of `${n:?if:else}`. */
  lemma IfElseRest(input: string, k: nat)
    requires var g1 := OptText({':'}, input, k).1; CharAt(input, g1, ':')
    ensures var t1 := OptText({':'}, input, k); var t2 := OptText({'}'}, input, t1.1 + 1);
      var r := IfElseTail(input, k);
      r.Parsed? && EscOf(r.value.0) == t1.0 && EscOf(r.value.1.1) == t2.0 && r.pos == t2.1
  {
    var tu1 := Opt(TakeUntil({':'}, {'\\'}));
    var tu2 := Opt(TakeUntil({'}'}, {'\\'}));
    OptTextIs({':'}, input, k);
    var o1 := tu1(input, k);
    OptTextIs({'}'}, input, o1.pos + 1);
    var o2 := tu2(input, o1.pos + 1);
    CharThenOn(':', tu2, input, o1.pos, o2.value, o2.pos);
    Seq2On(tu1, Seq2(Colon, tu2), input, k, o1.value, o1.pos, (":", o2.value), o2.pos);
  }

  /** The part of `${n:?if:else}` after the `?`. */
  const IfElseTail: Parser<(Option<Taken>, (string, Option<Taken>))> :=
    Seq2(Opt(TakeUntil({':'}, {'\\'})), Seq2(Colon, Opt(TakeUntil({'}'}, {'\\'}))))

  lemma FormatIfElseOn(input: string, pos: nat, n: nat, e: nat, a: Option<Taken>, b: Option<Taken>, g: nat)
    requires OpensAt(input, pos)
    requires CaptureColonAt(input, pos, n, e) && CharAt(input, e + 1, '?')
    requires IfElseTail(input, e + 2) == Parsed((a, (":", b)), g) && CharAt(input, g, '}')
    ensures FormatIfElse(input, pos) == Parsed(Format(n, None, EscOf(a), EscOf(b)), g + 1)
  {
    CharThenOn('?', IfElseTail, input, e + 1, (a, (":", b)), g);
    ColonThenOn(Seq2(Question, IfElseTail),
      (v: (nat, (string, (string, (Option<Taken>, (string, Option<Taken>)))))) =>
        Format(v.0, None, EscOf(v.1.1.1.0), EscOf(v.1.1.1.1.1)),
      input, pos, n, e, ("?", (a, (":", b))), g);
  }

  /**
   * `${n:?if:else}` is the format that sets the if text and the else text,
   * where IfElseTail reads them (IfElseRest says how).
   */
  lemma FormatIfElseForm(input: string, pos: nat, n: nat, e: nat, a: Option<Taken>, b: Option<Taken>, g: nat)
    requires OpensAt(input, pos)
    requires CaptureColonAt(input, pos, n, e) && CharAt(input, e + 1, '?')
    requires IfElseTail(input, e + 2) == Parsed((a, (":", b)), g) && CharAt(input, g, '}')
    ensures FormatP(input, pos) == Parsed(Format(n, None, EscOf(a), EscOf(b)), g + 1)
  {
    FormatPlainFails(input, pos);
    FormatBracedFails(input, pos, n, e);
    FormatModifiedFails(input, pos, n, e);
    FormatIfFails(input, pos, n, e);
    FormatIfElseOn(input, pos, n, e, a, b, g);
    OrSix(FormatPlain, FormatBraced, FormatModified, FormatIf, FormatIfElse, FormatElse, input, pos);
  }

  /** Where `${n:` is followed by `-` that sign is skipped; the rest up to `}` is the else text. */
  function ElseStart(input: string, e: nat): nat {
    if e + 1 < |input| && input[e + 1] == '-' then e + 2 else e + 1
  }

  lemma FormatElseOn(input: string, pos: nat, n: nat, e: nat)
    requires OpensAt(input, pos)
    requires CaptureColonAt(input, pos, n, e)
    requires var g := OptText({'}'}, input, ElseStart(input, e)).1; CharAt(input, g, '}')
    ensures var t := OptText({'}'}, input, ElseStart(input, e));
      FormatElse(input, pos) == Parsed(Format(n, None, None, t.0), t.1 + 1)
  {
    var tu := Opt(TakeUntil({'}'}, {'\\'}));
    TokenChar('-', input, e + 1);
    var m := Opt(Minus)(input, e + 1);
    assert m.pos == ElseStart(input, e);
    OptTextIs({'}'}, input, m.pos);
    var o := tu(input, m.pos);
    Seq2On(Opt(Minus), tu, input, e + 1, m.value, m.pos, o.value, o.pos);
    ColonThenOn(Seq2(Opt(Minus), tu),
      (v: (nat, (string, (Option<string>, Option<Taken>)))) => Format(v.0, None, None, EscOf(v.1.1.1)),
      input, pos, n, e, (m.value, o.value), o.pos);
  }

  /** `${n:-else}`, and `${n:else}` when else starts with none of `/`, `+`, `?`, is the format that sets only the else text. */
  lemma FormatElseForm(input: string, pos: nat, n: nat, e: nat)
    requires OpensAt(input, pos)
    requires CaptureColonAt(input, pos, n, e) && e + 1 < |input|
    requires input[e + 1] != '/' && input[e + 1] != '+' && input[e + 1] != '?'
    requires var g := OptText({'}'}, input, ElseStart(input, e)).1; CharAt(input, g, '}')
    ensures var t := OptText({'}'}, input, ElseStart(input, e));
      FormatP(input, pos) == Parsed(Format(n, None, None, t.0), t.1 + 1)
  {
    FormatPlainFails(input, pos);
    FormatBracedFails(input, pos, n, e);
    FormatModifiedFails(input, pos, n, e);
    FormatIfFails(input, pos, n, e);
    FormatIfElseFails(input, pos, n, e);
    FormatElseOn(input, pos, n, e);
    OrSix(FormatPlain, FormatBraced, FormatModified, FormatIf, FormatIfElse, FormatElse, input, pos);
  }

  /** The keyword of each case modifier. */
  function ModifierName(m: Modifier): string {
    match m
    case Upcase => "upcase"
    case Downcase => "downcase"
    case Capitalize => "capitalize"
    case Camelcase => "camelcase"
    case Pascalcase => "pascalcase"
  }

  lemma MapTokenOn<B>(t: string, v: B, input: string, k: nat)
    requires |t| > 0
    ensures Map(Token(t), (_: string) => v)(input, k) == if OccursAt(input, t, k) then Parsed(v, k + |t|) else Unmatched(k)
  {
  }

  /** No two keywords occur at the same place: they differ in their first or their third character. */
  lemma ModifierNamesExclusive(input: string, k: nat, m: Modifier, m': Modifier)
    requires OccursAt(input, ModifierName(m), k) && OccursAt(input, ModifierName(m'), k)
    ensures m == m'
  {
    var a := input[k..k + |ModifierName(m)|];
    var b := input[k..k + |ModifierName(m')|];
    assert a[0] == b[0] && a[2] == b[2];
  }

  /** Each keyword reads as its modifier, whatever the order of the alternatives. */
  lemma ModifierOn(input: string, k: nat, m: Modifier)
    requires OccursAt(input, ModifierName(m), k)
    ensures ModifierP(input, k) == Parsed(m, k + |ModifierName(m)|)
  {
    MapTokenOn("upcase", Upcase, input, k);
    MapTokenOn("downcase", Downcase, input, k);
    MapTokenOn("capitalize", Capitalize, input, k);
    MapTokenOn("camelcase", Camelcase, input, k);
    MapTokenOn("pascalcase", Pascalcase, input, k);
    if OccursAt(input, "upcase", k) { ModifierNamesExclusive(input, k, m, Upcase); }
    if OccursAt(input, "downcase", k) { ModifierNamesExclusive(input, k, m, Downcase); }
    if OccursAt(input, "capitalize", k) { ModifierNamesExclusive(input, k, m, Capitalize); }
    if OccursAt(input, "camelcase", k) { ModifierNamesExclusive(input, k, m, Camelcase); }
    if OccursAt(input, "pascalcase", k) { ModifierNamesExclusive(input, k, m, Pascalcase); }
    OrFive(
      Map(Token("upcase"), (_: string) => Upcase),
      Map(Token("downcase"), (_: string) => Downcase),
      Map(Token("capitalize"), (_: string) => Capitalize),
      Map(Token("camelcase"), (_: string) => Camelcase),
      Map(Token("pascalcase"), (_: string) => Pascalcase), input, k);
  }

  lemma FormatModifiedOn(input: string, pos: nat, n: nat, e: nat, m: Modifier, g: nat)
    requires OpensAt(input, pos)
    requires CaptureColonAt(input, pos, n, e) && CharAt(input, e + 1, '/')
    requires ModifierP(input, e + 2) == Parsed(m, g) && CharAt(input, g, '}')
    ensures FormatModified(input, pos) == Parsed(Format(n, Some(m), None, None), g + 1)
  {
    CharThenOn('/', ModifierP, input, e + 1, m, g);
    ColonThenOn(Seq2(Slash, ModifierP),
      (v: (nat, (string, (string, Modifier)))) => Format(v.0, Some(v.1.1.1), None, None), input, pos, n, e, ("/", m), g);
  }

  /** `${n:/modifier}` is the format that sets only the modifier, where ModifierP reads it (ModifierOn says how). */
  lemma FormatModifiedForm(input: string, pos: nat, n: nat, e: nat, m: Modifier, g: nat)
    requires OpensAt(input, pos)
    requires CaptureColonAt(input, pos, n, e) && CharAt(input, e + 1, '/')
    requires ModifierP(input, e + 2) == Parsed(m, g) && CharAt(input, g, '}')
    ensures FormatP(input, pos) == Parsed(Format(n, Some(m), None, None), g + 1)
  {
    FormatPlainFails(input, pos);
    FormatBracedFails(input, pos, n, e);
    FormatModifiedOn(input, pos, n, e, m, g);
    OrSix(FormatPlain, FormatBraced, FormatModified, FormatIf, FormatIfElse, FormatElse, input, pos);
  }

  /** `$n` is the bare reference to capture n. */
  lemma FormatPlainForm(input: string, pos: nat, n: nat, e: nat)
    requires CharAt(input, pos, '$') && NonZeroInt(input, pos + 1) == Parsed(n, e)
    ensures FormatP(input, pos) == Parsed(Format(n, None, None, None), e)
  {
    MappedDollaredOn(NonZeroInt, (n: nat) => Format(n, None, None, None), input, pos, n, e);
    OrSix(FormatPlain, FormatBraced, FormatModified, FormatIf, FormatIfElse, FormatElse, input, pos);
  }

  /** `${n}` is the bare reference to capture n too. */
  lemma FormatBracedForm(input: string, pos: nat, n: nat, e: nat)
    requires OpensAt(input, pos) && NonZeroInt(input, pos + 2) == Parsed(n, e) && CharAt(input, e, '}')
    ensures FormatP(input, pos) == Parsed(Format(n, None, None, None), e + 1)
  {
    FormatPlainFails(input, pos);
    MappedBracedOn(NonZeroInt, (n: nat) => Format(n, None, None, None), input, pos, n, e);
    OrSix(FormatPlain, FormatBraced, FormatModified, FormatIf, FormatIfElse, FormatElse, input, pos);
  }

  lemma BracedSeqFirstFails<A, X, B>(p: Parser<A>, x: Parser<X>, f: ((A, X)) -> B, input: string, pos: nat)
    requires !OpensAt(input, pos) || p(input, pos + 2).Unmatched?
    ensures Map(Braced(Seq2(p, x)), f)(input, pos).Unmatched?
  {
    MappedBracedFails(Seq2(p, x), f, input, pos);
  }

  lemma FormatCompoundFail(input: string, pos: nat)
    requires !OpensAt(input, pos) || NonZeroInt(input, pos + 2).Unmatched?
    ensures FormatModified(input, pos).Unmatched? && FormatIf(input, pos).Unmatched?
    ensures FormatIfElse(input, pos).Unmatched? && FormatElse(input, pos).Unmatched?
  {
    BracedSeqFirstFails(NonZeroInt, Seq2(Colon, Seq2(Slash, ModifierP)),
      (v: (nat, (string, (string, Modifier)))) => Format(v.0, Some(v.1.1.1), None, None), input, pos);
    BracedSeqFirstFails(NonZeroInt, Seq2(Colon, Seq2(Plus, Opt(TakeUntil({'}'}, {'\\'})))),
      (v: (nat, (string, (string, Option<Taken>)))) => Format(v.0, None, EscOf(v.1.1.1), None), input, pos);
    BracedSeqFirstFails(NonZeroInt, Seq2(Colon, Seq2(Question, IfElseTail)),
      (v: (nat, (string, (string, (Option<Taken>, (string, Option<Taken>)))))) =>
        Format(v.0, None, EscOf(v.1.1.1.0), EscOf(v.1.1.1.1.1)), input, pos);
    BracedSeqFirstFails(NonZeroInt, Seq2(Colon, Seq2(Opt(Minus), Opt(TakeUntil({'}'}, {'\\'})))),
      (v: (nat, (string, (Option<string>, Option<Taken>)))) => Format(v.0, None, None, EscOf(v.1.1.1)), input, pos);
  }

  /** `$0` and `${0...` are no format (while `$0` is a tabstop): capture indices start at 1. */
  lemma FormatZeroRejected(input: string, pos: nat)
    requires CharAt(input, pos, '$')
    requires CharAt(input, pos + 1, '0') || (CharAt(input, pos + 1, '{') && CharAt(input, pos + 2, '0'))
    ensures FormatP(input, pos).Unmatched?
  {
    NonZeroIntStart(input, pos + 1);
    NonZeroIntStart(input, pos + 2);
    DollaredUnfold(NonZeroInt, input, pos);
    MappedBracedFails(NonZeroInt, (n: nat) => Format(n, None, None, None), input, pos);
    FormatCompoundFail(input, pos);
    OrSix(FormatPlain, FormatBraced, FormatModified, FormatIf, FormatIfElse, FormatElse, input, pos);
  }

  // ---------------------------------------------------------------- Transform

  /** Optional flags are a non-empty run of `i` and `g`. */
  predicate FlagsOk(flags: Option<string>) {
    flags.Some? ==> |flags.value| >= 1 && forall j :: 0 <= j < |flags.value| ==> IsFlag(flags.value[j])
  }

  lemma OptFlagsOk(input: string, k: nat)
    ensures OptFlags(input, k).Parsed? && FlagsOk(OptFlags(input, k).value)
  {
  }

  /** The part of a transform after its pattern. */
  const TransformTail: Parser<(string, (seq<Segment>, (string, Option<string>)))> :=
    Seq2(Slash, Seq2(Segments, Seq2(Slash, OptFlags)))

  lemma SlashManySlashFlags<S>(p: Parser<S>, input: string, k: nat)
    ensures var r := Seq2(Slash, Seq2(Many(p), Seq2(Slash, OptFlags)))(input, k);
      r.Parsed? ==> CharAt(input, k, '/') && |r.value.1.0| >= 1 && FlagsOk(r.value.1.1.1)
  {
    TokenChar('/', input, k);
    var s := Many(p)(input, k + 1);
    if s.Parsed? {
      OptFlagsOk(input, s.pos + 1);
    }
  }

  lemma TransformTailShape(input: string, k: nat)
    ensures var r := TransformTail(input, k);
      r.Parsed? ==> CharAt(input, k, '/') && |r.value.1.0| >= 1 && FlagsOk(r.value.1.1.1)
  {
    SlashManySlashFlags(SegmentP, input, k);
  }

  /**
   * A transform is `/`, the pattern up to the next unescaped `/` kept with
   * its escapes, `/`, at least one format or text segment, `/`, and
   * optional flags from `[ig]+`.
   */
  lemma TransformShape(input: string, k: nat)
    ensures var r := TransformP(input, k); var t := TakeUntilAt({'/'}, {'\\'}, input, k + 1);
      r.Parsed? ==>
        && CharAt(input, k, '/') && t.Parsed? && CharAt(input, t.pos, '/')
        && r.value.pattern == t.value.raw == input[k + 1..t.pos]
        && |r.value.formats| >= 1 && FlagsOk(r.value.flags)
  {
    TokenChar('/', input, k);
    var t := TakeUntilAt({'/'}, {'\\'}, input, k + 1);
    if t.Parsed? {
      TransformTailShape(input, t.pos);
    }
  }

  // ---------------------------------------------------------------- Placeholder and Variable defaults

  /** `${`, a head p, `:`, then x, then `}`. */
  lemma HeadColonOn<A, X, B>(p: Parser<A>, x: Parser<X>, f: ((A, (string, X))) -> B, input: string, pos: nat,
                            a: A, e: nat, v: X, g: nat)
    requires OpensAt(input, pos)
    requires p(input, pos + 2) == Parsed(a, e) && CharAt(input, e, ':')
    requires x(input, e + 1) == Parsed(v, g) && CharAt(input, g, '}')
    ensures Map(Braced(Seq2(p, Seq2(Colon, x))), f)(input, pos) == Parsed(f((a, (":", v))), g + 1)
  {
    TokenChar(':', input, e);
    Seq2On(Colon, x, input, e, ":", e + 1, v, g);
    Seq2On(p, Seq2(Colon, x), input, pos + 2, a, e, (":", v), g);
    MappedBracedOn(Seq2(p, Seq2(Colon, x)), f, input, pos, (a, (":", v)), g);
  }

  lemma HeadColonFails<A, X, B>(p: Parser<A>, x: Parser<X>, f: ((A, (string, X))) -> B, input: string, pos: nat,
                               a: A, e: nat)
    requires p(input, pos + 2) == Parsed(a, e) && CharAt(input, e, ':') && x(input, e + 1).Unmatched?
    ensures Map(Braced(Seq2(p, Seq2(Colon, x))), f)(input, pos).Unmatched?
  {
    TokenChar(':', input, e);
    Seq2FailsSecond(Colon, x, input, e, ":", e + 1);
    Seq2FailsSecond(p, Seq2(Colon, x), input, pos + 2, a, e);
    MappedBracedFails(Seq2(p, Seq2(Colon, x)), f, input, pos);
  }

  /** Children fail at a `}` when the recursive parser does. */
  lemma ChildrenFailAtClose(any: Parser<Node>, input: string, k: nat)
    requires CharAt(input, k, '}') && any(input, k).Unmatched?
    ensures Children(any)(input, k).Unmatched?
  {
    InnerTextIff(input, k);
    OrPair(any, InnerText, input, k);
  }

  /** `${n:children}` is the placeholder n with the children read after the colon, or none when nothing follows. */
  lemma PlaceholderForm(any: Parser<Node>, input: string, pos: nat, n: nat, e: nat, o: Option<seq<Node>>, g: nat)
    requires OpensAt(input, pos)
    requires Int(input, pos + 2) == Parsed(n, e) && CharAt(input, e, ':')
    requires Opt(Children(any))(input, e + 1) == Parsed(o, g) && CharAt(input, g, '}')
    ensures PlaceholderP(any)(input, pos) == Parsed(Placeholder(n, o.GetOr([])), g + 1)
  {
    HeadColonOn(Int, Opt(Children(any)),
      (v: (nat, (string, Option<seq<Node>>))) => Placeholder(v.0, v.1.1.GetOr([])), input, pos, n, e, o, g);
  }

  /** `${n:}` is the placeholder n with no children. */
  lemma PlaceholderEmpty(any: Parser<Node>, input: string, pos: nat, n: nat, e: nat)
    requires OpensAt(input, pos)
    requires Int(input, pos + 2) == Parsed(n, e) && CharAt(input, e, ':') && CharAt(input, e + 1, '}')
    requires any(input, e + 1).Unmatched?
    ensures PlaceholderP(any)(input, pos) == Parsed(Placeholder(n, []), e + 2)
  {
    ChildrenFailAtClose(any, input, e + 1);
    PlaceholderForm(any, input, pos, n, e, None, e + 1);
  }

  /** `${name:}` is no variable: a default needs at least one child. */
  lemma VariableDefaultNeedsChild(any: Parser<Node>, input: string, pos: nat, name: string, e: nat)
    requires Var(input, pos + 2) == Parsed(name, e) && CharAt(input, e, ':') && CharAt(input, e + 1, '}')
    requires any(input, e + 1).Unmatched?
    ensures VariableDefault(any)(input, pos).Unmatched?
  {
    ChildrenFailAtClose(any, input, e + 1);
    HeadColonFails(Var, Children(any),
      (v: (string, (string, seq<Node>))) => Variable(v.0, None, WithDefault(v.1.1)), input, pos, name, e);
  }

  /** `${name:children}` is the variable name with those children as its default. */
  lemma VariableDefaultForm(any: Parser<Node>, input: string, pos: nat, name: string, e: nat, c: seq<Node>, g: nat)
    requires OpensAt(input, pos)
    requires Var(input, pos + 2) == Parsed(name, e) && CharAt(input, e, ':')
    requires Children(any)(input, e + 1) == Parsed(c, g) && CharAt(input, g, '}')
    ensures VariableDefault(any)(input, pos) == Parsed(Variable(name, None, WithDefault(c)), g + 1)
    ensures |c| >= 1
  {
    HeadColonOn(Var, Children(any),
      (v: (string, (string, seq<Node>))) => Variable(v.0, None, WithDefault(v.1.1)), input, pos, name, e, c, g);
  }

  /** Inside anyWithoutText at pos, the recursive parser rejects a later `}`. */
  lemma GuardedRejectsClose(input: string, pos: nat, k: nat)
    requires pos < k && CharAt(input, k, '}')
    ensures Guarded(input, pos)(input, k).Unmatched?
  {
    AnyAtStart(input, k);
  }

  /** A placeholder that parses is what anyWithoutText parses: it is the first alternative. */
  lemma AnyPlaceholderFirst(input: string, pos: nat)
    requires PlaceholderP(Guarded(input, pos))(input, pos).Parsed?
    ensures AnyAt(input, pos) == PlaceholderP(Guarded(input, pos))(input, pos)
  {
    OrHit(Alternatives(Guarded(input, pos)), 0, input, pos);
  }

  /** Inside anyWithoutText, `${n:}` is the empty placeholder n, the first alternative. */
  lemma AnyPlaceholderEmpty(input: string, pos: nat, n: nat, e: nat)
    requires OpensAt(input, pos)
    requires Int(input, pos + 2) == Parsed(n, e) && CharAt(input, e, ':') && CharAt(input, e + 1, '}')
    ensures AnyAt(input, pos) == Parsed(Placeholder(n, []), e + 2)
  {
    var g := Guarded(input, pos);
    GuardedRejectsClose(input, pos, e + 1);
    PlaceholderEmpty(g, input, pos, n, e);
    AnyPlaceholderFirst(input, pos);
  }

  /** With a name where an index would be, no tabstop, placeholder or choice parses. */
  lemma IndexedFailOnName(any: Parser<Node>, input: string, pos: nat)
    requires OpensAt(input, pos) && pos + 2 < |input| && IsVarStart(input[pos + 2])
    ensures TabstopP(input, pos).Unmatched? && PlaceholderP(any)(input, pos).Unmatched? && ChoiceP(input, pos).Unmatched?
  {
    IntStart(input, pos + 2);
    TabstopPlainStart(input, pos);
    MappedBracedFails(Int, (n: nat) => Tabstop(n, None), input, pos);
    BracedSeqFirstFails(Int, TransformP, (v: (nat, Transform)) => Tabstop(v.0, Some(v.1)), input, pos);
    OrTriple(TabstopPlain, TabstopBraced, TabstopTransformed, input, pos);
    BracedSeqFirstFails(Int, Seq2(Colon, Opt(Children(any))),
      (v: (nat, (string, Option<seq<Node>>))) => Placeholder(v.0, v.1.1.GetOr([])), input, pos);
    BracedSeqFirstFails(Int, Seq2(Pipe, Seq2(ChoiceItems, Pipe)),
      (v: (nat, (string, (seq<string>, string)))) => Choice(v.0, v.1.1.0), input, pos);
  }

  lemma VariableFailsOnEmptyDefault(any: Parser<Node>, input: string, pos: nat, name: string, e: nat)
    requires OpensAt(input, pos)
    requires Var(input, pos + 2) == Parsed(name, e) && CharAt(input, e, ':') && CharAt(input, e + 1, '}')
    requires any(input, e + 1).Unmatched?
    ensures VariableP(any)(input, pos).Unmatched?
  {
    DollaredUnfold(Var, input, pos);
    MappedBracedFails(Var, (name: string) => Variable(name, None, NoDefault), input, pos);
    TransformStart(input, e);
    Seq2FailsSecond(Var, TransformP, input, pos + 2, name, e);
    MappedBracedFails(Seq2(Var, TransformP), (v: (string, Transform)) => Variable(v.0, Some(v.1), NoDefault), input, pos);
    VariableDefaultNeedsChild(any, input, pos, name, e);
    OrFacts([VariablePlain, VariableBraced, VariableTransformed, VariableDefault(any)], input, pos);
  }

  /** When none of its four alternatives parses, anyWithoutText does not parse. */
  lemma AnyNoAlternative(input: string, pos: nat)
    requires var g := Guarded(input, pos);
      PlaceholderP(g)(input, pos).Unmatched? && TabstopP(input, pos).Unmatched? &&
      VariableP(g)(input, pos).Unmatched? && ChoiceP(input, pos).Unmatched?
    ensures AnyAt(input, pos).Unmatched?
  {
    var ps := Alternatives(Guarded(input, pos));
    assert forall j :: 0 <= j < |ps| ==> ps[j](input, pos).Unmatched?;
  }

  /** `${name:}` is not parsed at all: a variable default needs at least one child. */
  lemma AnyEmptyDefaultFails(input: string, pos: nat, name: string, e: nat)
    requires OpensAt(input, pos)
    requires Var(input, pos + 2) == Parsed(name, e) && CharAt(input, e, ':') && CharAt(input, e + 1, '}')
    ensures AnyAt(input, pos).Unmatched?
  {
    var g := Guarded(input, pos);
    GuardedRejectsClose(input, pos, e + 1);
    IndexedFailOnName(g, input, pos);
    VariableFailsOnEmptyDefault(g, input, pos, name, e);
    AnyNoAlternative(input, pos);
  }

  // ---------------------------------------------------------------- Choice

  /** Unescaping drops at most every other character, so non-empty text stays non-empty. */
  lemma UnescapeNonEmpty(raw: string, targets: set<char>, specials: set<char>)
    requires |raw| >= 1
    ensures |Unescape(raw, targets, specials)| >= 1
  {
  }

  /** A choice item parses exactly at a character that is neither `,` nor `|`; a backslash escapes either. */
  lemma ChoiceItemIff(input: string, k: nat)
    ensures ChoiceItem(input, k).Parsed? <==> k < |input| && input[k] != ',' && input[k] != '|'
  {
  }

  /** An item is its text with the backslash before an escaped `,` or `|` dropped, and is never empty. */
  lemma ChoiceItemValue(input: string, k: nat)
    ensures var r := ChoiceItem(input, k); var t := TakeUntilAt({',', '|'}, {}, input, k);
      r.Parsed? ==> t.Parsed? && r.value == Unescape(t.value.raw, {',', '|'}, {}) && |r.value| >= 1
  {
    var t := TakeUntilAt({',', '|'}, {}, input, k);
    if t.Parsed? {
      UnescapeNonEmpty(t.value.raw, {',', '|'}, {});
    }
  }

  lemma ChoiceItemsNonEmpty(input: string, k: nat)
    ensures var r := ChoiceItems(input, k);
      r.Parsed? ==> |r.value| >= 1 && forall j :: 0 <= j < |r.value| ==> |r.value[j]| >= 1
  {
    forall s: string, q: nat | ChoiceItem(s, q).Parsed? ensures |ChoiceItem(s, q).value| >= 1 {
      ChoiceItemValue(s, q);
    }
    ManyAll(ChoiceItem, (item: string) => |item| >= 1, input, k);
  }

  /** The item list stops where an item fails: at a `,` or `|` or at the end of the input. */
  lemma ChoiceItemsStop(input: string, k: nat)
    ensures var r := ChoiceItems(input, k);
      r.Parsed? ==> r.pos >= |input| || input[r.pos] == ',' || input[r.pos] == '|'
  {
    ChoiceItemAdvances();
    ManyStops(ChoiceItem, input, k);
    var end := ManyFrom(ChoiceItem, input, k).1;
    ChoiceItemIff(input, end);
  }

  /** `${`, a head p, `|`, then x, then `|}`. */
  lemma HeadPipesOn<A, X, B>(p: Parser<A>, x: Parser<X>, f: ((A, (string, (X, string)))) -> B, input: string, pos: nat,
                            a: A, e: nat, v: X, g: nat)
    requires OpensAt(input, pos)
    requires p(input, pos + 2) == Parsed(a, e) && CharAt(input, e, '|')
    requires x(input, e + 1) == Parsed(v, g) && CharAt(input, g, '|') && CharAt(input, g + 1, '}')
    ensures Map(Braced(Seq2(p, Seq2(Pipe, Seq2(x, Pipe)))), f)(input, pos) == Parsed(f((a, ("|", (v, "|")))), g + 2)
  {
    TokenChar('|', input, g);
    TokenChar('|', input, e);
    Seq2On(x, Pipe, input, e + 1, v, g, "|", g + 1);
    Seq2On(Pipe, Seq2(x, Pipe), input, e, "|", e + 1, (v, "|"), g + 1);
    Seq2On(p, Seq2(Pipe, Seq2(x, Pipe)), input, pos + 2, a, e, ("|", (v, "|")), g + 1);
    MappedBracedOn(Seq2(p, Seq2(Pipe, Seq2(x, Pipe))), f, input, pos, (a, ("|", (v, "|"))), g + 1);
  }

  /** `${n|items|}` is the choice n with those items, each non-empty, the list read up to a `|`. */
  lemma ChoiceForm(input: string, pos: nat, n: nat, e: nat, items: seq<string>, g: nat)
    requires OpensAt(input, pos)
    requires Int(input, pos + 2) == Parsed(n, e) && CharAt(input, e, '|')
    requires ChoiceItems(input, e + 1) == Parsed(items, g) && CharAt(input, g, '|') && CharAt(input, g + 1, '}')
    ensures ChoiceP(input, pos) == Parsed(Choice(n, items), g + 2)
    ensures |items| >= 1 && forall j :: 0 <= j < |items| ==> |items[j]| >= 1
  {
    ChoiceItemsNonEmpty(input, e + 1);
    HeadPipesOn(Int, ChoiceItems, (v: (nat, (string, (seq<string>, string)))) => Choice(v.0, v.1.1.0),
      input, pos, n, e, items, g);
  }

  /** An empty item fails the choice: where the items stop at a `,` (as at `a,,b`), or no item opens the list. */
  lemma ChoiceEmptyItemFails(input: string, pos: nat, n: nat, e: nat)
    requires Int(input, pos + 2) == Parsed(n, e) && CharAt(input, e, '|')
    requires var r := ChoiceItems(input, e + 1); r.Unmatched? || CharAt(input, r.pos, ',')
    ensures ChoiceP(input, pos).Unmatched?
  {
    var r := ChoiceItems(input, e + 1);
    TokenChar('|', input, e);
    TokenChar('|', input, r.pos);
    Seq2FailsSecond(Pipe, Seq2(ChoiceItems, Pipe), input, e, "|", e + 1);
    Seq2FailsSecond(Int, Seq2(Pipe, Seq2(ChoiceItems, Pipe)), input, pos + 2, n, e);
    MappedBracedFails(Seq2(Int, Seq2(Pipe, Seq2(ChoiceItems, Pipe))),
      (v: (nat, (string, (seq<string>, string)))) => Choice(v.0, v.1.1.0), input, pos);
  }
}
