/**
 * The VS Code snippet grammar of parser/vscode.ts, built from the
 * combinators of Generator. The variadic `seq` of the source is written as
 * nested two-parser sequences (see Generator.SeqCons for why that means the
 * same), and `$ { ... }` prefixes are factored through Braced.
 */
module Grammar {
  import opened Options
  import opened Strings
  import opened Generator
  import opened Ast

  // ---------------------------------------------------------------- tokens

  const Dollar: Parser<string> := Token("$")
  const Open: Parser<string> := Token("{")
  const Close: Parser<string> := Token("}")
  const Colon: Parser<string> := Token(":")
  const Slash: Parser<string> := Token("/")
  const Comma: Parser<string> := Token(",")
  const Pipe: Parser<string> := Token("|")
  const Plus: Parser<string> := Token("+")
  const Minus: Parser<string> := Token("-")
  const Question: Parser<string> := Token("?")

  lemma TokensAdvance()
    ensures Advances(Dollar) && Advances(Open) && Advances(Close) && Advances(Colon) && Advances(Slash)
    ensures Advances(Comma) && Advances(Pipe) && Advances(Plus) && Advances(Minus) && Advances(Question)
  {
    TokenAdvances("$"); TokenAdvances("{"); TokenAdvances("}"); TokenAdvances(":"); TokenAdvances("/");
    TokenAdvances(","); TokenAdvances("|"); TokenAdvances("+"); TokenAdvances("-"); TokenAdvances("?");
  }

  // ---------------------------------------------------------------- character classes

  predicate IsVarStart(c: char) { c == '_' || 'a' <= c <= 'z' || 'A' <= c <= 'Z' }
  predicate IsVarChar(c: char) { IsVarStart(c) || IsDigit(c) }
  predicate IsNonZeroDigit(c: char) { '1' <= c <= '9' }
  predicate IsFlag(c: char) { c == 'i' || c == 'g' }

  /** `[_a-zA-Z][_a-zA-Z0-9]*` */
  const Var: Parser<string> := Pattern(IsVarStart, IsVarChar)
  /** `[0-9]+`, read as a number */
  const Int: Parser<nat> := Map(Pattern(IsDigit, IsDigit), DecimalValue)
  /** `[1-9][0-9]*`, read as a number */
  const NonZeroInt: Parser<nat> := Map(Pattern(IsNonZeroDigit, IsDigit), DecimalValue)
  /** `[ig]+` */
  const Flags: Parser<string> := Pattern(IsFlag, IsFlag)

  lemma ClassesAdvance()
    ensures Advances(Var) && Advances(Int) && Advances(NonZeroInt) && Advances(Flags)
  {
    PatternAdvances(IsVarStart, IsVarChar);
    PatternAdvances(IsDigit, IsDigit);
    PatternAdvances(IsNonZeroDigit, IsDigit);
    PatternAdvances(IsFlag, IsFlag);
    MapAdvances(Pattern(IsDigit, IsDigit), DecimalValue);
    MapAdvances(Pattern(IsNonZeroDigit, IsDigit), DecimalValue);
  }

  /** `Text(targets, specials)`: the unescaped text up to the next target, wrapped by make. */
  function TextOf<T>(targets: set<char>, specials: set<char>, make: string -> T): Parser<T> {
    Map(TakeUntil(targets, specials), (t: Taken) => make(t.esc))
  }

  lemma TextOfAdvances<T>(targets: set<char>, specials: set<char>, make: string -> T)
    ensures Advances(TextOf(targets, specials, make))
  {
    TakeUntilAdvances(targets, specials);
    MapAdvances(TakeUntil(targets, specials), (t: Taken) => make(t.esc));
  }

  function NodeText(targets: set<char>, specials: set<char>): Parser<Node> {
    TextOf(targets, specials, (s: string) => Node.Text(s))
  }

  /** `$`, `{`, then p, then `}`; the value is p's. */
  function Braced<A>(p: Parser<A>): Parser<A> {
    Map(Seq2(Dollar, Seq2(Open, Seq2(p, Close))), (v: (string, (string, (A, string)))) => v.1.1.0)
  }

  lemma BracedAdvances<A>(p: Parser<A>)
    requires NoRetreat(p)
    ensures Advances(Braced(p))
  {
    TokensAdvance();
    Seq2NoRetreat(p, Close);
    Seq2NoRetreat(Open, Seq2(p, Close));
    Seq2Advances(Dollar, Seq2(Open, Seq2(p, Close)));
    MapAdvances(Seq2(Dollar, Seq2(Open, Seq2(p, Close))), (v: (string, (string, (A, string)))) => v.1.1.0);
  }

  /** `$` then p; the value is p's. */
  function Dollared<A>(p: Parser<A>): Parser<A> {
    Map(Seq2(Dollar, p), (v: (string, A)) => v.1)
  }

  lemma DollaredAdvances<A>(p: Parser<A>)
    requires NoRetreat(p)
    ensures Advances(Dollared(p))
  {
    TokensAdvance();
    Seq2Advances(Dollar, p);
    MapAdvances(Seq2(Dollar, p), (v: (string, A)) => v.1);
  }

  function EscOf(t: Option<Taken>): Option<string> {
    match t
    case Some(v) => Some(v.esc)
    case None => None
  }

  // ---------------------------------------------------------------- Format

  const ModifierP: Parser<Modifier> := Or([
    Map(Token("upcase"), (_: string) => Upcase),
    Map(Token("downcase"), (_: string) => Downcase),
    Map(Token("capitalize"), (_: string) => Capitalize),
    Map(Token("camelcase"), (_: string) => Camelcase),
    Map(Token("pascalcase"), (_: string) => Pascalcase)])

  /** `$n` */
  const FormatPlain: Parser<Segment> := Map(Dollared(NonZeroInt), (n: nat) => Format(n, None, None, None))
  /** `${n}` */
  const FormatBraced: Parser<Segment> := Map(Braced(NonZeroInt), (n: nat) => Format(n, None, None, None))
  /** `${n:/modifier}` */
  const FormatModified: Parser<Segment> :=
    Map(Braced(Seq2(NonZeroInt, Seq2(Colon, Seq2(Slash, ModifierP)))),
      (v: (nat, (string, (string, Modifier)))) => Format(v.0, Some(v.1.1.1), None, None))
  /** `${n:+if}` */
  const FormatIf: Parser<Segment> :=
    Map(Braced(Seq2(NonZeroInt, Seq2(Colon, Seq2(Plus, Opt(TakeUntil({'}'}, {'\\'})))))),
      (v: (nat, (string, (string, Option<Taken>)))) => Format(v.0, None, EscOf(v.1.1.1), None))
  /** `${n:?if:else}` */
  const FormatIfElse: Parser<Segment> :=
    Map(Braced(Seq2(NonZeroInt, Seq2(Colon,
          Seq2(Question, Seq2(Opt(TakeUntil({':'}, {'\\'})), Seq2(Colon, Opt(TakeUntil({'}'}, {'\\'})))))))),
      (v: (nat, (string, (string, (Option<Taken>, (string, Option<Taken>)))))) =>
        Format(v.0, None, EscOf(v.1.1.1.0), EscOf(v.1.1.1.1.1)))
  /** `${n:-else}` or `${n:else}` */
  const FormatElse: Parser<Segment> :=
    Map(Braced(Seq2(NonZeroInt, Seq2(Colon, Seq2(Opt(Minus), Opt(TakeUntil({'}'}, {'\\'})))))),
      (v: (nat, (string, (Option<string>, Option<Taken>)))) => Format(v.0, None, None, EscOf(v.1.1.1)))

  const FormatP: Parser<Segment> := Or([FormatPlain, FormatBraced, FormatModified, FormatIf, FormatIfElse, FormatElse])


  // ---------------------------------------------------------------- unfolding the prefixes

  lemma TokenChar(c: char, input: string, pos: nat)
    ensures Token([c])(input, pos) ==
      if pos < |input| && input[pos] == c then Parsed([c], pos + 1) else Unmatched(pos)
  {
    if pos < |input| {
      assert input[pos..pos + 1] == [input[pos]];
    }
  }

  /** `$` then p: p's result one character on, or a failure in place. */
  lemma DollaredUnfold<A>(p: Parser<A>, input: string, pos: nat)
    ensures Dollared(p)(input, pos) ==
      if pos < |input| && input[pos] == '$' && p(input, pos + 1).Parsed? then p(input, pos + 1) else Unmatched(pos)
  {
    TokenChar('$', input, pos);
  }

  /** `${`, p, `}`: p's value, or a failure in place. */
  lemma BracedUnfold<A>(p: Parser<A>, input: string, pos: nat)
    ensures var inner := p(input, pos + 2);
      Braced(p)(input, pos) ==
        if pos + 1 < |input| && input[pos] == '$' && input[pos + 1] == '{' && inner.Parsed? &&
           inner.pos < |input| && input[inner.pos] == '}'
        then Parsed(inner.value, inner.pos + 1) else Unmatched(pos)
  {
    TokenChar('$', input, pos);
    TokenChar('{', input, pos + 1);
    TokenChar('}', input, p(input, pos + 2).pos);
  }

  /** d is a maximal run of decimal digits in input at k. */
  predicate DigitsAt(input: string, k: nat, d: string) {
    && |d| >= 1 && k + |d| <= |input| && input[k..k + |d|] == d
    && (forall j :: 0 <= j < |d| ==> IsDigit(d[j]))
    && (k + |d| == |input| || !IsDigit(input[k + |d|]))
  }

  /** A maximal digit run reads as its decimal value ... */
  lemma IntOn(input: string, k: nat, d: string)
    requires DigitsAt(input, k, d)
    ensures Int(input, k) == Parsed(DecimalValue(d), k + |d|)
  {
    PatternOnRun(IsDigit, IsDigit, input, k, d);
    assert Int(input, k) == MapAt(Pattern(IsDigit, IsDigit), DecimalValue, input, k);
  }

  /** ... and as a capture index exactly when it does not start with 0. */
  lemma NonZeroIntOn(input: string, k: nat, d: string)
    requires DigitsAt(input, k, d)
    ensures d[0] != '0' ==> NonZeroInt(input, k) == Parsed(DecimalValue(d), k + |d|)
    ensures d[0] == '0' ==> NonZeroInt(input, k) == Unmatched(k)
  {
    assert input[k] == d[0];
    assert NonZeroInt(input, k) == MapAt(Pattern(IsNonZeroDigit, IsDigit), DecimalValue, input, k);
    if d[0] != '0' {
      PatternOnRun(IsNonZeroDigit, IsDigit, input, k, d);
    }
  }

  lemma NonZeroIntPositive(input: string, k: nat)
    ensures NonZeroInt(input, k).Parsed? ==> NonZeroInt(input, k).value >= 1
  {
    var r := PatternAt(IsNonZeroDigit, IsDigit, input, k);
    if r.Parsed? {
      DecimalValuePositive(r.value);
    }
  }

  // ---------------------------------------------------------------- progress of the Format alternatives

  lemma ModifierAdvances()
    ensures Advances(ModifierP)
  {
    TokenAdvances("upcase"); TokenAdvances("downcase"); TokenAdvances("capitalize");
    TokenAdvances("camelcase"); TokenAdvances("pascalcase");
    MapAdvances(Token("upcase"), (_: string) => Upcase);
    MapAdvances(Token("downcase"), (_: string) => Downcase);
    MapAdvances(Token("capitalize"), (_: string) => Capitalize);
    MapAdvances(Token("camelcase"), (_: string) => Camelcase);
    MapAdvances(Token("pascalcase"), (_: string) => Pascalcase);
    OrAdvances([
      Map(Token("upcase"), (_: string) => Upcase),
      Map(Token("downcase"), (_: string) => Downcase),
      Map(Token("capitalize"), (_: string) => Capitalize),
      Map(Token("camelcase"), (_: string) => Camelcase),
      Map(Token("pascalcase"), (_: string) => Pascalcase)]);
  }

  lemma FormatPlainAdvances()
    ensures Advances(FormatPlain) && Advances(FormatBraced)
  {
    ClassesAdvance();
    DollaredAdvances(NonZeroInt);
    MapAdvances(Dollared(NonZeroInt), (n: nat) => Format(n, None, None, None));
    BracedAdvances(NonZeroInt);
    MapAdvances(Braced(NonZeroInt), (n: nat) => Format(n, None, None, None));
  }

  lemma FormatModifiedAdvances()
    ensures Advances(FormatModified)
  {
    TokensAdvance();
    ClassesAdvance();
    ModifierAdvances();
    Seq2NoRetreat(Slash, ModifierP);
    Seq2NoRetreat(Colon, Seq2(Slash, ModifierP));
    Seq2NoRetreat(NonZeroInt, Seq2(Colon, Seq2(Slash, ModifierP)));
    BracedAdvances(Seq2(NonZeroInt, Seq2(Colon, Seq2(Slash, ModifierP))));
    MapAdvances(Braced(Seq2(NonZeroInt, Seq2(Colon, Seq2(Slash, ModifierP)))),
      (v: (nat, (string, (string, Modifier)))) => Format(v.0, Some(v.1.1.1), None, None));
  }

  lemma FormatIfAdvances()
    ensures Advances(FormatIf)
  {
    TokensAdvance();
    ClassesAdvance();
    var tu := TakeUntil({'}'}, {'\\'});
    TakeUntilAdvances({'}'}, {'\\'});
    OptNoRetreat(tu);
    Seq2NoRetreat(Plus, Opt(tu));
    Seq2NoRetreat(Colon, Seq2(Plus, Opt(tu)));
    Seq2NoRetreat(NonZeroInt, Seq2(Colon, Seq2(Plus, Opt(tu))));
    BracedAdvances(Seq2(NonZeroInt, Seq2(Colon, Seq2(Plus, Opt(tu)))));
    MapAdvances(Braced(Seq2(NonZeroInt, Seq2(Colon, Seq2(Plus, Opt(tu))))),
      (v: (nat, (string, (string, Option<Taken>)))) => Format(v.0, None, EscOf(v.1.1.1), None));
  }

  lemma FormatIfElseAdvances()
    ensures Advances(FormatIfElse)
  {
    TokensAdvance();
    ClassesAdvance();
    var tu1 := TakeUntil({'}'}, {'\\'});
    var tu2 := TakeUntil({':'}, {'\\'});
    TakeUntilAdvances({'}'}, {'\\'});
    TakeUntilAdvances({':'}, {'\\'});
    OptNoRetreat(tu1);
    OptNoRetreat(tu2);
    Seq2NoRetreat(Colon, Opt(tu1));
    Seq2NoRetreat(Opt(tu2), Seq2(Colon, Opt(tu1)));
    Seq2NoRetreat(Question, Seq2(Opt(tu2), Seq2(Colon, Opt(tu1))));
    Seq2NoRetreat(Colon, Seq2(Question, Seq2(Opt(tu2), Seq2(Colon, Opt(tu1)))));
    Seq2NoRetreat(NonZeroInt, Seq2(Colon, Seq2(Question, Seq2(Opt(tu2), Seq2(Colon, Opt(tu1))))));
    BracedAdvances(Seq2(NonZeroInt, Seq2(Colon, Seq2(Question, Seq2(Opt(tu2), Seq2(Colon, Opt(tu1)))))));
    MapAdvances(Braced(Seq2(NonZeroInt, Seq2(Colon, Seq2(Question, Seq2(Opt(tu2), Seq2(Colon, Opt(tu1))))))),
      (v: (nat, (string, (string, (Option<Taken>, (string, Option<Taken>)))))) =>
        Format(v.0, None, EscOf(v.1.1.1.0), EscOf(v.1.1.1.1.1)));
  }

  lemma FormatElseAdvances()
    ensures Advances(FormatElse)
  {
    TokensAdvance();
    ClassesAdvance();
    var tu := TakeUntil({'}'}, {'\\'});
    TakeUntilAdvances({'}'}, {'\\'});
    OptNoRetreat(tu);
    OptNoRetreat(Minus);
    Seq2NoRetreat(Opt(Minus), Opt(tu));
    Seq2NoRetreat(Colon, Seq2(Opt(Minus), Opt(tu)));
    Seq2NoRetreat(NonZeroInt, Seq2(Colon, Seq2(Opt(Minus), Opt(tu))));
    BracedAdvances(Seq2(NonZeroInt, Seq2(Colon, Seq2(Opt(Minus), Opt(tu)))));
    MapAdvances(Braced(Seq2(NonZeroInt, Seq2(Colon, Seq2(Opt(Minus), Opt(tu))))),
      (v: (nat, (string, (Option<string>, Option<Taken>)))) => Format(v.0, None, None, EscOf(v.1.1.1)));
  }

  lemma FormatAdvances()
    ensures Advances(FormatP)
  {
    FormatPlainAdvances();
    FormatModifiedAdvances();
    FormatIfAdvances();
    FormatIfElseAdvances();
    FormatElseAdvances();
    OrAdvances([FormatPlain, FormatBraced, FormatModified, FormatIf, FormatIfElse, FormatElse]);
  }

  // ---------------------------------------------------------------- Transform

  /** Literal text inside a transform's format stops at `$` and `/`. */
  const SegmentText: Parser<Segment> := TextOf({'$', '/'}, {'\\'}, (s: string) => Literal(s))
  const SegmentP: Parser<Segment> := Or([FormatP, SegmentText])

  lemma SegmentAdvances()
    ensures Advances(SegmentP)
  {
    FormatAdvances();
    TextOfAdvances({'$', '/'}, {'\\'}, (s: string) => Literal(s));
    OrAdvances([FormatP, SegmentText]);
  }

  const Segments: Parser<seq<Segment>> := Many(SegmentP)
  const OptFlags: Parser<Option<string>> := Opt(Flags)

  /** `/pattern/format/flags`; the pattern keeps its escapes (raw), the format is at least one segment. */
  const TransformP: Parser<Transform> :=
    Map(Seq2(Slash, Seq2(TakeUntil({'/'}, {'\\'}), Seq2(Slash, Seq2(Segments, Seq2(Slash, OptFlags))))),
      (v: (string, (Taken, (string, (seq<Segment>, (string, Option<string>)))))) =>
        Transform(v.1.0.raw, v.1.1.1.0, v.1.1.1.1.1))

  lemma TransformAdvances()
    ensures Advances(TransformP)
  {
    TokensAdvance();
    ClassesAdvance();
    SegmentAdvances();
    ManyAdvances(SegmentP);
    TakeUntilAdvances({'/'}, {'\\'});
    OptNoRetreat(Flags);
    Seq2NoRetreat(Slash, OptFlags);
    Seq2NoRetreat(Segments, Seq2(Slash, OptFlags));
    Seq2NoRetreat(Slash, Seq2(Segments, Seq2(Slash, OptFlags)));
    Seq2NoRetreat(TakeUntil({'/'}, {'\\'}), Seq2(Slash, Seq2(Segments, Seq2(Slash, OptFlags))));
    Seq2Advances(Slash, Seq2(TakeUntil({'/'}, {'\\'}), Seq2(Slash, Seq2(Segments, Seq2(Slash, OptFlags)))));
    MapAdvances(Seq2(Slash, Seq2(TakeUntil({'/'}, {'\\'}), Seq2(Slash, Seq2(Segments, Seq2(Slash, OptFlags))))),
      (v: (string, (Taken, (string, (seq<Segment>, (string, Option<string>)))))) =>
        Transform(v.1.0.raw, v.1.1.1.0, v.1.1.1.1.1));
  }

  // ---------------------------------------------------------------- Tabstop

  /** `$n` */
  const TabstopPlain: Parser<Node> := Map(Dollared(Int), (n: nat) => Tabstop(n, None))
  /** `${n}` */
  const TabstopBraced: Parser<Node> := Map(Braced(Int), (n: nat) => Tabstop(n, None))
  /** `${n/pattern/format/flags}` */
  const TabstopTransformed: Parser<Node> := Map(Braced(Seq2(Int, TransformP)), (v: (nat, Transform)) => Tabstop(v.0, Some(v.1)))

  const TabstopP: Parser<Node> := Or([TabstopPlain, TabstopBraced, TabstopTransformed])

  lemma TabstopAdvances()
    ensures Advances(TabstopP)
  {
    ClassesAdvance();
    TransformAdvances();
    DollaredAdvances(Int);
    MapAdvances(Dollared(Int), (n: nat) => Tabstop(n, None));
    BracedAdvances(Int);
    MapAdvances(Braced(Int), (n: nat) => Tabstop(n, None));
    Seq2NoRetreat(Int, TransformP);
    BracedAdvances(Seq2(Int, TransformP));
    MapAdvances(Braced(Seq2(Int, TransformP)), (v: (nat, Transform)) => Tabstop(v.0, Some(v.1)));
    OrAdvances([TabstopPlain, TabstopBraced, TabstopTransformed]);
  }

  // ---------------------------------------------------------------- Placeholder and Variable bodies

  /** Text inside a placeholder or a variable default stops at `$` and `}`. */
  const InnerText: Parser<Node> := NodeText({'$', '}'}, {'\\'})

  /** `many(or(anyWithoutText, Text(["$", "}"], ["\\"])))`, for a given anyWithoutText. */
  function Children(any: Parser<Node>): Parser<seq<Node>> {
    Many(Or([any, InnerText]))
  }

  lemma ChildrenAdvances(any: Parser<Node>)
    ensures Advances(Children(any))
  {
    ManyAdvances(Or([any, InnerText]));
  }

  /** `${n:children}`; an absent body gives no children. */
  function PlaceholderP(any: Parser<Node>): Parser<Node>
  {
    Map(Braced(Seq2(Int, Seq2(Colon, Opt(Children(any))))),
      (v: (nat, (string, Option<seq<Node>>))) => Placeholder(v.0, v.1.1.GetOr([])))
  }

  lemma PlaceholderAdvances(any: Parser<Node>)
    ensures Advances(PlaceholderP(any))
  {
    TokensAdvance();
    ClassesAdvance();
    ChildrenAdvances(any);
    OptNoRetreat(Children(any));
    Seq2NoRetreat(Colon, Opt(Children(any)));
    Seq2NoRetreat(Int, Seq2(Colon, Opt(Children(any))));
    BracedAdvances(Seq2(Int, Seq2(Colon, Opt(Children(any)))));
    MapAdvances(Braced(Seq2(Int, Seq2(Colon, Opt(Children(any))))),
      (v: (nat, (string, Option<seq<Node>>))) => Placeholder(v.0, v.1.1.GetOr([])));
  }

  /** `$name` */
  const VariablePlain: Parser<Node> := Map(Dollared(Var), (name: string) => Variable(name, None, NoDefault))
  /** `${name}` */
  const VariableBraced: Parser<Node> := Map(Braced(Var), (name: string) => Variable(name, None, NoDefault))
  /** `${name/pattern/format/flags}` */
  const VariableTransformed: Parser<Node> :=
    Map(Braced(Seq2(Var, TransformP)), (v: (string, Transform)) => Variable(v.0, Some(v.1), NoDefault))

  /** `${name:children}`, with at least one child. */
  function VariableDefault(any: Parser<Node>): Parser<Node>
  {
    Map(Braced(Seq2(Var, Seq2(Colon, Children(any)))),
      (v: (string, (string, seq<Node>))) => Variable(v.0, None, WithDefault(v.1.1)))
  }

  function VariableP(any: Parser<Node>): Parser<Node>
  {
    Or([VariablePlain, VariableBraced, VariableTransformed, VariableDefault(any)])
  }

  lemma VariableAdvances(any: Parser<Node>)
    ensures Advances(VariableP(any))
  {
    TokensAdvance();
    ClassesAdvance();
    TransformAdvances();
    ChildrenAdvances(any);
    DollaredAdvances(Var);
    MapAdvances(Dollared(Var), (name: string) => Variable(name, None, NoDefault));
    BracedAdvances(Var);
    MapAdvances(Braced(Var), (name: string) => Variable(name, None, NoDefault));
    Seq2NoRetreat(Var, TransformP);
    BracedAdvances(Seq2(Var, TransformP));
    MapAdvances(Braced(Seq2(Var, TransformP)), (v: (string, Transform)) => Variable(v.0, Some(v.1), NoDefault));
    Seq2NoRetreat(Colon, Children(any));
    Seq2NoRetreat(Var, Seq2(Colon, Children(any)));
    BracedAdvances(Seq2(Var, Seq2(Colon, Children(any))));
    MapAdvances(Braced(Seq2(Var, Seq2(Colon, Children(any)))),
      (v: (string, (string, seq<Node>))) => Variable(v.0, None, WithDefault(v.1.1)));
    OrAdvances([VariablePlain, VariableBraced, VariableTransformed, VariableDefault(any)]);
  }

  // ---------------------------------------------------------------- Choice

  /** One choice item: text up to `,` or `|` (nothing is special), and the comma after it if any. */
  const ChoiceItem: Parser<string> :=
    Map(Seq2(TextOf({',', '|'}, {}, (s: string) => s), Opt(Comma)), (v: (string, Option<string>)) => v.0)

  lemma ChoiceItemAdvances()
    ensures Advances(ChoiceItem)
  {
    TokensAdvance();
    TextOfAdvances({',', '|'}, {}, (s: string) => s);
    OptNoRetreat(Comma);
    Seq2Advances(TextOf({',', '|'}, {}, (s: string) => s), Opt(Comma));
    MapAdvances(Seq2(TextOf({',', '|'}, {}, (s: string) => s), Opt(Comma)), (v: (string, Option<string>)) => v.0);
  }

  const ChoiceItems: Parser<seq<string>> := Many(ChoiceItem)

  /** `${n|item,item,...|}` */
  const ChoiceP: Parser<Node> :=
    Map(Braced(Seq2(Int, Seq2(Pipe, Seq2(ChoiceItems, Pipe)))),
      (v: (nat, (string, (seq<string>, string)))) => Choice(v.0, v.1.1.0))

  lemma ChoiceAdvances()
    ensures Advances(ChoiceP)
  {
    TokensAdvance();
    ClassesAdvance();
    ChoiceItemAdvances();
    ManyAdvances(ChoiceItem);
    Seq2NoRetreat(ChoiceItems, Pipe);
    Seq2NoRetreat(Pipe, Seq2(ChoiceItems, Pipe));
    Seq2NoRetreat(Int, Seq2(Pipe, Seq2(ChoiceItems, Pipe)));
    BracedAdvances(Seq2(Int, Seq2(Pipe, Seq2(ChoiceItems, Pipe))));
    MapAdvances(Braced(Seq2(Int, Seq2(Pipe, Seq2(ChoiceItems, Pipe)))),
      (v: (nat, (string, (seq<string>, string)))) => Choice(v.0, v.1.1.0));
  }

  // ---------------------------------------------------------------- anyWithoutText and Snippet

  /** The alternatives of anyWithoutText, in the order they are tried, for a given anyWithoutText. */
  function Alternatives(any: Parser<Node>): seq<Parser<Node>>
  {
    [PlaceholderP(any), TabstopP, VariableP(any), ChoiceP]
  }

  lemma AlternativesAdvance(any: Parser<Node>)
    ensures forall k :: 0 <= k < |Alternatives(any)| ==> Advances(Alternatives(any)[k])
  {
    PlaceholderAdvances(any);
    TabstopAdvances();
    VariableAdvances(any);
    ChoiceAdvances();
  }

  /**
   * `anyWithoutText` applied at pos. The source ties the knot with
   * `lazy`; here the recursive parser handed to the alternatives is
   * Guarded(input, pos): this function itself, cut off at positions that do
   * not lie strictly after pos within the same input (GrammarLaws.GuardedIsAny
   * shows it agrees with AnyAt at every later position of the input).
   */
  function AnyAt(input: string, pos: nat): (r: PResult<Node>)
    ensures r.Unmatched? ==> r.pos == pos
    ensures r.Parsed? ==> r.pos > pos
    decreases |input| - pos, 1
  {
    var inner := Guarded(input, pos);
    AlternativesAdvance(inner);
    OrAdvances(Alternatives(inner));
    OrAt(Alternatives(inner), input, pos)
  }

  function Guarded(input: string, pos: nat): Parser<Node>
    decreases |input| - pos, 0
  {
    (s: string, q: nat) => if s == input && pos < q <= |input| then AnyAt(s, q) else Unmatch(q)
  }

  const AnyWithoutText: Parser<Node> := (input: string, pos: nat) => AnyAt(input, pos)

  lemma AnyAdvances()
    ensures Advances(AnyWithoutText)
  {
  }

  /** Top-level text stops only at `$`; a `}` there is ordinary text. */
  const TopText: Parser<Node> := NodeText({'$'}, {'}', '\\'})

  lemma TopAdvances()
    ensures Advances(Or([AnyWithoutText, TopText]))
  {
    TextOfAdvances({'$'}, {'}', '\\'}, (s: string) => Node.Text(s));
    OrAdvances([AnyWithoutText, TopText]);
  }

  const SnippetP: Parser<Snippet> :=
    Map(Many(Or([AnyWithoutText, TopText])), (children: seq<Node>) => Snippet(children))

  /** `Snippet(body, 0)`: the parse of a whole snippet body. */
  function Parse(body: string): PResult<Snippet> {
    SnippetP(body, 0)
  }
}
