/**
 * The parser-combinator library of parser/generator.ts. A parser is a total
 * function from an input string and a position to a result; a failed parse
 * still reports a position. The `denops` argument the source threads through
 * every parser is never inspected by the combinators and is dropped.
 */
module Generator {
  import opened Options
  import opened Strings

  datatype PResult<+T> = Parsed(value: T, pos: nat) | Unmatched(pos: nat)

  type Parser<!T> = (string, nat) -> PResult<T>

  /** A parser never reports a position before the one it was called at. */
  ghost predicate NoRetreat<T>(p: Parser<T>) {
    forall input, pos :: p(input, pos).pos >= pos
  }

  /** A parser that never retreats and strictly advances on every success. */
  ghost predicate Advances<T>(p: Parser<T>) {
    NoRetreat(p) && forall input, pos :: p(input, pos).Parsed? ==> p(input, pos).pos > pos
  }

  /** `unmatch(pos)`: the failed result, which reports the position it is given. */
  function Unmatch<T>(pos: nat): (r: PResult<T>)
    ensures r.Unmatched? && r.pos == pos
  {
    Unmatched(pos)
  }

  // ---------------------------------------------------------------- takeUntil

  datatype Taken = Taken(raw: string, esc: string)

  /**
   * raw is made of units, each either a backslash together with the character
   * after it (or a backslash alone at the very end), or one character that is
   * neither a backslash nor a target.
   */
  predicate NoBareTarget(raw: string, targets: set<char>)
    decreases |raw|
  {
    if raw == [] then true
    else if raw[0] == '\\' then |raw| == 1 || NoBareTarget(raw[2..], targets)
    else raw[0] !in targets && NoBareTarget(raw[1..], targets)
  }

  /**
   * Reference reading of an escaped text: a backslash is dropped exactly when
   * the character it escapes is a target or a special; a final lone
   * backslash stays.
   */
  function Unescape(raw: string, targets: set<char>, specials: set<char>): string
    decreases |raw|
  {
    if raw == [] then ""
    else if raw[0] != '\\' then [raw[0]] + Unescape(raw[1..], targets, specials)
    else if |raw| == 1 then "\\"
    else
      var c := raw[1];
      (if c in targets || c in specials then [c] else ['\\', c]) + Unescape(raw[2..], targets, specials)
  }

  /**
   * What the loop of takeUntil pushes to raw and esc from index cur on, and
   * the index at which it stops. A backslash consumes itself and the next
   * character; `charAt` past the end reads "", so a final lone backslash is
   * pushed to both raw and esc and leaves the index one past the end.
   */
  function ScanFrom(targets: set<char>, specials: set<char>, input: string, cur: nat): (r: (Taken, nat))
    ensures cur <= r.1
    ensures cur >= |input| ==> r == (Taken("", ""), cur)
    ensures cur < r.1 ==> r.1 <= |input| + 1
    ensures r.1 < |input| ==> input[r.1] in targets
    decreases |input| - cur
  {
    if cur >= |input| then (Taken("", ""), cur)
    else if input[cur] == '\\' && cur + 1 == |input| then (Taken("\\", "\\"), cur + 2)
    else if input[cur] == '\\' then
      var c := input[cur + 1];
      var rest := ScanFrom(targets, specials, input, cur + 2);
      (Taken(['\\', c] + rest.0.raw, (if c in targets || c in specials then [c] else ['\\', c]) + rest.0.esc), rest.1)
    else if input[cur] in targets then (Taken("", ""), cur)
    else
      var rest := ScanFrom(targets, specials, input, cur + 1);
      (Taken([input[cur]] + rest.0.raw, [input[cur]] + rest.0.esc), rest.1)
  }

  /**
   * A scan from cur consumed exactly the input it pushed to raw, passed no
   * unescaped target, ran one past the end only over a final lone
   * backslash, and pushed to esc the unescaped reading of raw.
   */
  ghost predicate ScanFacts(targets: set<char>, specials: set<char>, input: string, cur: nat, r: (Taken, nat))
    requires cur <= r.1
  {
    && r.0.raw == input[Min(cur, |input|)..Min(r.1, |input|)]
    && (r.1 > |input| ==> |input| >= 1 && input[|input| - 1] == '\\')
    && NoBareTarget(r.0.raw, targets)
    && r.0.esc == Unescape(r.0.raw, targets, specials)
  }

  lemma {:induction false} ScanFromFacts(targets: set<char>, specials: set<char>, input: string, cur: nat)
    requires cur <= |input|
    ensures ScanFacts(targets, specials, input, cur, ScanFrom(targets, specials, input, cur))
    decreases |input| - cur
  {
    var r := ScanFrom(targets, specials, input, cur);
    if cur < |input| {
      if input[cur] == '\\' && cur + 1 == |input| {
        assert input[cur..cur + 1] == [input[cur]];
      } else if input[cur] == '\\' {
        ScanFromFacts(targets, specials, input, cur + 2);
        EscapePairFacts(targets, specials, input, cur, ScanFrom(targets, specials, input, cur + 2));
      } else if input[cur] !in targets {
        var rest := ScanFrom(targets, specials, input, cur + 1);
        ScanFromFacts(targets, specials, input, cur + 1);
        SliceConcat(input, cur, cur + 1, Min(rest.1, |input|));
        assert input[cur..cur + 1] == [input[cur]];
        assert r.0.raw[1..] == rest.0.raw;
      }
    }
  }

  /** The inductive step of ScanFromFacts over an escape pair. */
  lemma EscapePairFacts(targets: set<char>, specials: set<char>, input: string, cur: nat, rest: (Taken, nat))
    requires cur + 1 < |input| && input[cur] == '\\'
    requires rest == ScanFrom(targets, specials, input, cur + 2)
    requires ScanFacts(targets, specials, input, cur + 2, rest)
    ensures ScanFacts(targets, specials, input, cur, ScanFrom(targets, specials, input, cur))
  {
    var c := input[cur + 1];
    var raw := ['\\', c] + rest.0.raw;
    assert ScanFrom(targets, specials, input, cur).0.raw == raw;
    assert raw[2..] == rest.0.raw;
    SliceConcat(input, cur, cur + 2, Min(rest.1, |input|));
    assert input[cur..cur + 2] == ['\\', c];
  }

  /** `takeUntil(targets, specials)` applied at pos. */
  function TakeUntilAt(targets: set<char>, specials: set<char>, input: string, pos: nat): (r: PResult<Taken>)
    ensures r.Unmatched? <==> pos >= |input| || (input[pos] != '\\' && input[pos] in targets)
    ensures r.Unmatched? ==> r.pos == pos
    ensures r.Parsed? ==> pos < r.pos <= |input| + 1
    ensures r.Parsed? ==> r.value.raw == input[pos..Min(r.pos, |input|)]
    ensures r.Parsed? && r.pos > |input| ==> input[|input| - 1] == '\\'
    ensures r.Parsed? && r.pos < |input| ==> input[r.pos] in targets
    ensures r.Parsed? ==> NoBareTarget(r.value.raw, targets)
    ensures r.Parsed? ==> r.value.esc == Unescape(r.value.raw, targets, specials)
  {
    var (taken, newPos) := ScanFrom(targets, specials, input, pos);
    if newPos == pos then Unmatch(pos)
    else
      ScanFromFacts(targets, specials, input, pos);
      Parsed(taken, newPos)
  }

  function TakeUntil(targets: set<char>, specials: set<char>): Parser<Taken> {
    (input: string, pos: nat) => TakeUntilAt(targets, specials, input, pos)
  }

  /**
   * The loop of takeUntil, computing the same result as TakeUntilAt. The
   * source advances over a backslash in two increments of one; here the
   * pair is pushed in one step.
   */
  method RunTakeUntil(targets: set<char>, specials: set<char>, input: string, pos: nat) returns (r: PResult<Taken>)
    ensures r == TakeUntilAt(targets, specials, input, pos)
  {
    ghost var total := ScanFrom(targets, specials, input, pos);
    var newPos := pos;
    var raw := "";
    var esc := "";
    assert raw + total.0.raw == total.0.raw && esc + total.0.esc == total.0.esc;
    while newPos < |input|
      invariant pos <= newPos
      invariant total == Resume(raw, esc, ScanFrom(targets, specials, input, newPos))
      decreases |input| - newPos
    {
      var c := input[newPos];
      if c == '\\' {
        if newPos + 1 < |input| {
          var nextChar := input[newPos + 1];
          var pushed := if nextChar in targets || nextChar in specials then [nextChar] else ['\\', nextChar];
          ghost var rest := ScanFrom(targets, specials, input, newPos + 2);
          assert ScanFrom(targets, specials, input, newPos) == (Taken(['\\', nextChar] + rest.0.raw, pushed + rest.0.esc), rest.1);
          ResumeAppend(raw, esc, ['\\', nextChar], pushed, rest);
          raw := raw + ['\\', nextChar];
          esc := esc + pushed;
        } else {
          ghost var rest := ScanFrom(targets, specials, input, newPos + 2);
          assert rest == (Taken("", ""), newPos + 2);
          assert "\\" + rest.0.raw == "\\" && "\\" + rest.0.esc == "\\";
          assert ScanFrom(targets, specials, input, newPos) == (Taken("\\" + rest.0.raw, "\\" + rest.0.esc), rest.1);
          ResumeAppend(raw, esc, "\\", "\\", rest);
          raw := raw + "\\";
          esc := esc + "\\";
        }
        newPos := newPos + 2;
      } else {
        if c in targets {
          break;
        }
        ghost var rest := ScanFrom(targets, specials, input, newPos + 1);
        assert ScanFrom(targets, specials, input, newPos) == (Taken([c] + rest.0.raw, [c] + rest.0.esc), rest.1);
        ResumeAppend(raw, esc, [c], [c], rest);
        raw := raw + [c];
        esc := esc + [c];
        newPos := newPos + 1;
      }
    }
    assert ScanFrom(targets, specials, input, newPos) == (Taken("", ""), newPos);
    assert raw + "" == raw && esc + "" == esc;
    if newPos == pos {
      return Unmatch(pos);
    }
    return Parsed(Taken(raw, esc), newPos);
  }

  /** The scan result once raw and esc already hold the given prefixes. */
  ghost function Resume(raw: string, esc: string, rest: (Taken, nat)): (Taken, nat) {
    (Taken(raw + rest.0.raw, esc + rest.0.esc), rest.1)
  }

  lemma ResumeAppend(raw: string, esc: string, moreRaw: string, moreEsc: string, rest: (Taken, nat))
    ensures Resume(raw, esc, (Taken(moreRaw + rest.0.raw, moreEsc + rest.0.esc), rest.1))
         == Resume(raw + moreRaw, esc + moreEsc, rest)
  {
    assert raw + (moreRaw + rest.0.raw) == (raw + moreRaw) + rest.0.raw;
    assert esc + (moreEsc + rest.0.esc) == (esc + moreEsc) + rest.0.esc;
  }

  lemma TakeUntilAdvances(targets: set<char>, specials: set<char>)
    ensures Advances(TakeUntil(targets, specials))
  {
  }

  // ---------------------------------------------------------------- map, lazy

  /** `map(parser, f)` applied at pos: f applies to the value of a success only. */
  function MapAt<T, U>(p: Parser<T>, f: T -> U, input: string, pos: nat): (r: PResult<U>)
    ensures r.Parsed? <==> p(input, pos).Parsed?
    ensures r.Parsed? ==> r.value == f(p(input, pos).value) && r.pos == p(input, pos).pos
    ensures r.Unmatched? ==> r.pos == pos
  {
    match p(input, pos)
    case Parsed(v, e) => Parsed(f(v), e)
    case Unmatched(_) => Unmatch(pos)
  }

  function Map<T, U>(p: Parser<T>, f: T -> U): Parser<U> {
    (input: string, pos: nat) => MapAt(p, f, input, pos)
  }

  /** Mapping twice is mapping once with the composed function. */
  lemma MapMap<T, U, W>(p: Parser<T>, f: T -> U, g: U -> W, input: string, pos: nat)
    ensures MapAt(Map(p, f), g, input, pos) == MapAt(p, (v: T) => g(f(v)), input, pos)
  {
  }

  lemma MapAdvances<T, U>(p: Parser<T>, f: T -> U)
    ensures NoRetreat(p) ==> NoRetreat(Map(p, f))
    ensures Advances(p) ==> Advances(Map(p, f))
  {
  }

  /** `lazy(factory)`: the parser the factory produces, obtained at each call. */
  function Lazy<T>(factory: () -> Parser<T>): Parser<T> {
    (input: string, pos: nat) => factory()(input, pos)
  }

  // ---------------------------------------------------------------- token, pattern

  /** `token(t)` applied at pos, comparing `input.substring(pos, pos + |t|)` with t. */
  function TokenAt(t: string, input: string, pos: nat): (r: PResult<string>)
    ensures |t| > 0 ==> (r.Parsed? <==> pos + |t| <= |input| && input[pos..pos + |t|] == t)
    ensures r.Parsed? ==> r.value == t && r.pos == pos + |t|
    ensures r.Unmatched? ==> r.pos == pos
  {
    var maybeToken := Substring(input, pos, pos + |t|);
    if maybeToken == t then Parsed(maybeToken, pos + |t|) else Unmatch(pos)
  }

  function Token(t: string): Parser<string> {
    (input: string, pos: nat) => TokenAt(t, input, pos)
  }

  lemma TokenAdvances(t: string)
    requires |t| > 0
    ensures Advances(Token(t))
  {
  }

  /** The end of the longest run of characters satisfying rest, starting at k. */
  function RunEnd(rest: char -> bool, input: string, k: nat): (e: nat)
    requires k <= |input|
    ensures k <= e <= |input|
    ensures forall j :: k <= j < e ==> rest(input[j])
    ensures e == |input| || !rest(input[e])
    decreases |input| - k
  {
    if k == |input| || !rest(input[k]) then k else RunEnd(rest, input, k + 1)
  }

  /** A run that ends where rest first fails is the run RunEnd finds. */
  lemma {:induction false} RunEndAt(rest: char -> bool, input: string, k: nat, e: nat)
    requires k <= e <= |input|
    requires forall j :: k <= j < e ==> rest(input[j])
    requires e == |input| || !rest(input[e])
    ensures RunEnd(rest, input, k) == e
    decreases e - k
  {
    if k < e {
      RunEndAt(rest, input, k + 1, e);
    }
  }

  /**
   * `pattern("[first][rest]*")` applied at pos: the greedy match of one
   * character satisfying first followed by characters satisfying rest.
   */
  function PatternAt(first: char -> bool, rest: char -> bool, input: string, pos: nat): (r: PResult<string>)
    ensures r.Parsed? <==> pos < |input| && first(input[pos])
    ensures r.Parsed? ==> pos < r.pos <= |input| && r.value == input[pos..r.pos]
    ensures r.Parsed? ==> (forall j :: pos < j < r.pos ==> rest(input[j])) && (r.pos == |input| || !rest(input[r.pos]))
    ensures r.Unmatched? ==> r.pos == pos
  {
    if pos < |input| && first(input[pos]) then
      var e := RunEnd(rest, input, pos + 1);
      Parsed(input[pos..e], e)
    else Unmatch(pos)
  }

  function Pattern(first: char -> bool, rest: char -> bool): Parser<string> {
    (input: string, pos: nat) => PatternAt(first, rest, input, pos)
  }

  lemma PatternAdvances(first: char -> bool, rest: char -> bool)
    ensures Advances(Pattern(first, rest))
  {
  }

  /** A maximal run d at k that starts with a `first` character is what Pattern reads there. */
  lemma PatternOnRun(first: char -> bool, rest: char -> bool, input: string, k: nat, d: string)
    requires |d| >= 1 && k + |d| <= |input| && input[k..k + |d|] == d && first(d[0])
    requires forall j :: 1 <= j < |d| ==> rest(d[j])
    requires k + |d| == |input| || !rest(input[k + |d|])
    ensures PatternAt(first, rest, input, k) == Parsed(d, k + |d|)
  {
    var e := k + |d|;
    assert input[k] == d[0];
    forall j | k + 1 <= j < e ensures rest(input[j]) {
      assert input[j] == d[j - k];
    }
    RunEndAt(rest, input, k + 1, e);
  }

  // ---------------------------------------------------------------- many

  /** p succeeds at cur and moves past it. */
  predicate Steps<T>(p: Parser<T>, input: string, cur: nat) {
    p(input, cur).Parsed? && p(input, cur).pos > cur
  }

  /**
   * The values many collects from index cur on, and the index at which its
   * loop stops. A success that does not move would make the source loop
   * forever; the model stops there instead (no parser of the grammar does
   * this: they all satisfy Advances).
   */
  function ManyFrom<T>(p: Parser<T>, input: string, cur: nat): (r: (seq<T>, nat))
    ensures cur <= r.1
    ensures r.0 == [] <==> cur >= |input| || !Steps(p, input, cur)
    ensures r.0 == [] ==> r.1 == cur
    decreases |input| - cur
  {
    if cur >= |input| then ([], cur)
    else match p(input, cur)
      case Unmatched(_) => ([], cur)
      case Parsed(v, e) =>
        if e <= cur then ([], cur)
        else
          var rest := ManyFrom(p, input, e);
          ([v] + rest.0, rest.1)
  }

  /** `many(parser)` applied at pos: at least one value, or a failure in place. */
  function ManyAt<T>(p: Parser<T>, input: string, pos: nat): (r: PResult<seq<T>>)
    ensures r.Parsed? ==> pos < |input| && p(input, pos).Parsed?
    ensures Advances(p) && pos < |input| && p(input, pos).Parsed? ==> r.Parsed?
    ensures r.Parsed? ==> |r.value| >= 1 && r.pos > pos
    ensures r.Parsed? ==> r.value[0] == p(input, pos).value
    ensures r.Unmatched? ==> r.pos == pos
  {
    var (values, newPos) := ManyFrom(p, input, pos);
    if |values| > 0 then Parsed(values, newPos) else Unmatch(pos)
  }

  function Many<T>(p: Parser<T>): Parser<seq<T>> {
    (input: string, pos: nat) => ManyAt(p, input, pos)
  }

  lemma ManyAdvances<T>(p: Parser<T>)
    ensures Advances(Many(p))
  {
  }

  /** After a first success, many goes on from where that success ended. */
  lemma ManyUnfold<T>(p: Parser<T>, input: string, pos: nat)
    requires Advances(p)
    requires pos < |input| && p(input, pos).Parsed?
    ensures var first := p(input, pos);
      ManyAt(p, input, pos) ==
        if first.pos < |input| && p(input, first.pos).Parsed? then
          Parsed([first.value] + ManyAt(p, input, first.pos).value, ManyAt(p, input, first.pos).pos)
        else Parsed([first.value], first.pos)
  {
    var first := p(input, pos);
    var rest := ManyFrom(p, input, first.pos);
    assert ManyFrom(p, input, pos) == ([first.value] + rest.0, rest.1);
    if first.pos < |input| && p(input, first.pos).Parsed? {
      assert ManyAt(p, input, first.pos) == Parsed(rest.0, rest.1);
    } else {
      assert rest == ([], first.pos);
      assert [first.value] + rest.0 == [first.value];
    }
  }

  /**
   * many never runs its parser at or past the end of the input: two parsers
   * that agree below the end give the same result.
   */
  lemma {:induction false} ManyIgnoresEnd<T>(p: Parser<T>, q: Parser<T>, input: string, cur: nat)
    requires forall k :: cur <= k < |input| ==> p(input, k) == q(input, k)
    ensures ManyFrom(p, input, cur) == ManyFrom(q, input, cur)
    decreases |input| - cur
  {
    if cur < |input| {
      match p(input, cur)
      case Unmatched(_) =>
      case Parsed(v, e) =>
        if e > cur {
          ManyIgnoresEnd(p, q, input, e);
        }
    }
  }

  /** When every success of p has a value satisfying ok, so has every value many collects. */
  lemma {:induction false} ManyAll<T>(p: Parser<T>, ok: T -> bool, input: string, cur: nat)
    requires forall s, k :: p(s, k).Parsed? ==> ok(p(s, k).value)
    ensures forall j :: 0 <= j < |ManyFrom(p, input, cur).0| ==> ok(ManyFrom(p, input, cur).0[j])
    decreases |input| - cur
  {
    if cur < |input| {
      match p(input, cur)
      case Unmatched(_) =>
      case Parsed(v, e) =>
        if e > cur {
          ManyAll(p, ok, input, e);
          assert ManyFrom(p, input, cur).0 == [v] + ManyFrom(p, input, e).0;
        }
    }
  }

  /**
   * many stops where its parser fails or at the end of the input: in
   * between, every value came from a success.
   */
  lemma {:induction false} ManyStops<T>(p: Parser<T>, input: string, cur: nat)
    requires Advances(p)
    ensures var end := ManyFrom(p, input, cur).1; end >= |input| || p(input, end).Unmatched?
    decreases |input| - cur
  {
    if cur < |input| {
      match p(input, cur)
      case Unmatched(_) =>
      case Parsed(v, e) => ManyStops(p, input, e);
    }
  }

  /** The loop of many, computing the same result as ManyAt. */
  method RunMany<T>(p: Parser<T>, input: string, pos: nat) returns (r: PResult<seq<T>>)
    requires Advances(p)
    ensures r == ManyAt(p, input, pos)
  {
    var values: seq<T> := [];
    var newPos := pos;
    assert values + ManyFrom(p, input, newPos).0 == ManyFrom(p, input, newPos).0;
    while newPos < |input|
      invariant pos <= newPos
      invariant var rest := ManyFrom(p, input, newPos);
        ManyFrom(p, input, pos) == (values + rest.0, rest.1)
      decreases |input| - newPos
    {
      var result := p(input, newPos);
      if !result.Parsed? {
        break;
      }
      var rest := ManyFrom(p, input, result.pos);
      assert ManyFrom(p, input, newPos) == ([result.value] + rest.0, rest.1);
      assert values + ([result.value] + rest.0) == (values + [result.value]) + rest.0;
      values := values + [result.value];
      newPos := result.pos;
    }
    assert ManyFrom(p, input, newPos).0 == [];
    assert values + [] == values;
    if |values| > 0 {
      return Parsed(values, newPos);
    }
    return Unmatch(pos);
  }

  // ---------------------------------------------------------------- opt

  /** `opt(parser)` applied at pos: always a success, at the inner parser's position. */
  function OptAt<T>(p: Parser<T>, input: string, pos: nat): (r: PResult<Option<T>>)
    ensures r.Parsed?
    ensures r.pos == p(input, pos).pos
    ensures r.value == if p(input, pos).Parsed? then Some(p(input, pos).value) else None
  {
    var result := p(input, pos);
    Parsed(if result.Parsed? then Some(result.value) else None, result.pos)
  }

  function Opt<T>(p: Parser<T>): Parser<Option<T>> {
    (input: string, pos: nat) => OptAt(p, input, pos)
  }

  lemma OptNoRetreat<T>(p: Parser<T>)
    requires NoRetreat(p)
    ensures NoRetreat(Opt(p))
  {
  }

  // ---------------------------------------------------------------- or

  /** The result of or when the alternatives from index k on are tried. */
  function OrFrom<T>(ps: seq<Parser<T>>, k: nat, input: string, pos: nat): (r: PResult<T>)
    ensures r.Parsed? <==> exists j :: k <= j < |ps| && ps[j](input, pos).Parsed?
    ensures r.Parsed? ==> exists j :: k <= j < |ps| && r == ps[j](input, pos) &&
                                 forall i :: k <= i < j ==> ps[i](input, pos).Unmatched?
    ensures r.Unmatched? ==> r.pos == pos
    decreases |ps| - k
  {
    if k >= |ps| then Unmatch(pos)
    else
      var result := ps[k](input, pos);
      if result.Parsed? then result else OrFrom(ps, k + 1, input, pos)
  }

  /** `or(...parsers)` applied at pos: the first success, unchanged, or a failure in place. */
  function OrAt<T>(ps: seq<Parser<T>>, input: string, pos: nat): (r: PResult<T>)
    ensures r.Parsed? <==> exists j :: 0 <= j < |ps| && ps[j](input, pos).Parsed?
    ensures r.Parsed? ==> exists j :: 0 <= j < |ps| && r == ps[j](input, pos) &&
                                 forall i :: 0 <= i < j ==> ps[i](input, pos).Unmatched?
    ensures r.Unmatched? ==> r.pos == pos
  {
    OrFrom(ps, 0, input, pos)
  }

  function Or<T>(ps: seq<Parser<T>>): Parser<T> {
    (input: string, pos: nat) => OrAt(ps, input, pos)
  }

  lemma OrAdvances<T>(ps: seq<Parser<T>>)
    requires forall k :: 0 <= k < |ps| ==> Advances(ps[k])
    ensures Advances(Or(ps))
  {
    forall input, pos ensures Or(ps)(input, pos).pos >= pos && (Or(ps)(input, pos).Parsed? ==> Or(ps)(input, pos).pos > pos) {
      var r := OrAt(ps, input, pos);
      if r.Parsed? {
        var j :| 0 <= j < |ps| && r == ps[j](input, pos);
        assert Advances(ps[j]);
      }
    }
  }

  /** A success of or is a success of one of the alternatives. */
  lemma OrFacts<T>(ps: seq<Parser<T>>, input: string, pos: nat)
    ensures OrAt(ps, input, pos).Parsed? ==> exists j :: 0 <= j < |ps| && OrAt(ps, input, pos) == ps[j](input, pos)
  {
  }

  /** or moves past an alternative that fails ... */
  lemma OrSkip<T>(ps: seq<Parser<T>>, k: nat, input: string, pos: nat)
    requires k < |ps| && ps[k](input, pos).Unmatched?
    ensures OrFrom(ps, k, input, pos) == OrFrom(ps, k + 1, input, pos)
  {
  }

  /** ... and stops at the first that succeeds. */
  lemma OrHit<T>(ps: seq<Parser<T>>, k: nat, input: string, pos: nat)
    requires k < |ps| && ps[k](input, pos).Parsed?
    ensures OrFrom(ps, k, input, pos) == ps[k](input, pos)
  {
  }

  /** Two parsers in sequence, each succeeding where the previous one stopped. */
  lemma Seq2On<A, B>(p: Parser<A>, q: Parser<B>, input: string, pos: nat, a: A, e: nat, b: B, f: nat)
    requires p(input, pos) == Parsed(a, e) && q(input, e) == Parsed(b, f)
    ensures Seq2(p, q)(input, pos) == Parsed((a, b), f)
  {
  }

  /** or of two parsers, written out. */
  lemma OrPair<T>(p: Parser<T>, q: Parser<T>, input: string, pos: nat)
    ensures Or([p, q])(input, pos) ==
      if p(input, pos).Parsed? then p(input, pos) else if q(input, pos).Parsed? then q(input, pos) else Unmatched(pos)
  {
    assert OrFrom([p, q], 2, input, pos) == Unmatched(pos);
    assert OrFrom([p, q], 1, input, pos) == if q(input, pos).Parsed? then q(input, pos) else Unmatched(pos);
  }

  /** or of three parsers, written out. */
  lemma OrTriple<T>(a: Parser<T>, b: Parser<T>, c: Parser<T>, input: string, pos: nat)
    ensures Or([a, b, c])(input, pos) ==
      if a(input, pos).Parsed? then a(input, pos)
      else if b(input, pos).Parsed? then b(input, pos)
      else if c(input, pos).Parsed? then c(input, pos) else Unmatched(pos)
  {
    assert OrFrom([a, b, c], 3, input, pos) == Unmatched(pos);
    assert OrFrom([a, b, c], 2, input, pos) == if c(input, pos).Parsed? then c(input, pos) else Unmatched(pos);
    assert OrFrom([a, b, c], 1, input, pos) == if b(input, pos).Parsed? then b(input, pos) else OrFrom([a, b, c], 2, input, pos);
  }

  /** or of six parsers, written out. */
  lemma OrSix<T>(a: Parser<T>, b: Parser<T>, c: Parser<T>, d: Parser<T>, e: Parser<T>, f: Parser<T>, input: string, pos: nat)
    ensures Or([a, b, c, d, e, f])(input, pos) ==
      if a(input, pos).Parsed? then a(input, pos)
      else if b(input, pos).Parsed? then b(input, pos)
      else if c(input, pos).Parsed? then c(input, pos)
      else if d(input, pos).Parsed? then d(input, pos)
      else if e(input, pos).Parsed? then e(input, pos)
      else if f(input, pos).Parsed? then f(input, pos) else Unmatched(pos)
  {
    var ps := [a, b, c, d, e, f];
    assert OrFrom(ps, 6, input, pos) == Unmatched(pos);
    assert OrFrom(ps, 5, input, pos) == if f(input, pos).Parsed? then f(input, pos) else Unmatched(pos);
    assert OrFrom(ps, 4, input, pos) == if e(input, pos).Parsed? then e(input, pos) else OrFrom(ps, 5, input, pos);
    assert OrFrom(ps, 3, input, pos) == if d(input, pos).Parsed? then d(input, pos) else OrFrom(ps, 4, input, pos);
    assert OrFrom(ps, 2, input, pos) == if c(input, pos).Parsed? then c(input, pos) else OrFrom(ps, 3, input, pos);
    assert OrFrom(ps, 1, input, pos) == if b(input, pos).Parsed? then b(input, pos) else OrFrom(ps, 2, input, pos);
  }

  /** or of five parsers, written out. */
  lemma OrFive<T>(a: Parser<T>, b: Parser<T>, c: Parser<T>, d: Parser<T>, e: Parser<T>, input: string, pos: nat)
    ensures Or([a, b, c, d, e])(input, pos) ==
      if a(input, pos).Parsed? then a(input, pos)
      else if b(input, pos).Parsed? then b(input, pos)
      else if c(input, pos).Parsed? then c(input, pos)
      else if d(input, pos).Parsed? then d(input, pos)
      else if e(input, pos).Parsed? then e(input, pos) else Unmatched(pos)
  {
    var ps := [a, b, c, d, e];
    assert OrFrom(ps, 5, input, pos) == Unmatched(pos);
    assert OrFrom(ps, 4, input, pos) == if e(input, pos).Parsed? then e(input, pos) else Unmatched(pos);
    assert OrFrom(ps, 3, input, pos) == if d(input, pos).Parsed? then d(input, pos) else OrFrom(ps, 4, input, pos);
    assert OrFrom(ps, 2, input, pos) == if c(input, pos).Parsed? then c(input, pos) else OrFrom(ps, 3, input, pos);
    assert OrFrom(ps, 1, input, pos) == if b(input, pos).Parsed? then b(input, pos) else OrFrom(ps, 2, input, pos);
  }

  /** or gives the k-th alternative when it is the first that succeeds. */
  lemma OrPick<T>(ps: seq<Parser<T>>, k: nat, input: string, pos: nat)
    requires k < |ps| && ps[k](input, pos).Parsed?
    requires forall j :: 0 <= j < k ==> ps[j](input, pos).Unmatched?
    ensures Or(ps)(input, pos) == ps[k](input, pos)
  {
  }

  /** A sequence whose second parser fails where the first stopped fails. */
  lemma Seq2FailsSecond<A, B>(p: Parser<A>, q: Parser<B>, input: string, pos: nat, a: A, e: nat)
    requires p(input, pos) == Parsed(a, e) && q(input, e).Unmatched?
    ensures Seq2(p, q)(input, pos).Unmatched?
  {
  }

  /** The loop of or, computing the same result as OrAt. */
  method RunOr<T>(ps: seq<Parser<T>>, input: string, pos: nat) returns (r: PResult<T>)
    ensures r == OrAt(ps, input, pos)
  {
    for k := 0 to |ps|
      invariant OrAt(ps, input, pos) == OrFrom(ps, k, input, pos)
    {
      var result := ps[k](input, pos);
      if result.Parsed? {
        return result;
      }
    }
    return Unmatch(pos);
  }

  // ---------------------------------------------------------------- seq

  /** The values and end position of running ps[k..] one after another from cur, or None on a failure. */
  function SeqFrom<T>(ps: seq<Parser<T>>, k: nat, input: string, cur: nat): (r: Option<(seq<T>, nat)>)
    ensures r.Some? ==> |r.value.0| == |ps| - k || (k >= |ps| && r.value.0 == [])
    decreases |ps| - k
  {
    if k >= |ps| then Some(([], cur))
    else match ps[k](input, cur)
      case Unmatched(_) => None
      case Parsed(v, e) =>
        match SeqFrom(ps, k + 1, input, e)
        case None => None
        case Some(rest) => Some(([v] + rest.0, rest.1))
  }

  /** `seq(...parsers)` applied at pos: all values in order, or a failure in place. */
  function SeqAt<T>(ps: seq<Parser<T>>, input: string, pos: nat): (r: PResult<seq<T>>)
    ensures r.Parsed? ==> |r.value| == |ps|
    ensures r.Unmatched? ==> r.pos == pos
  {
    match SeqFrom(ps, 0, input, pos)
    case None => Unmatch(pos)
    case Some(result) => Parsed(result.0, result.1)
  }

  function Seq<T>(ps: seq<Parser<T>>): Parser<seq<T>> {
    (input: string, pos: nat) => SeqAt(ps, input, pos)
  }

  /** The loop of seq, computing the same result as SeqAt. */
  method RunSeq<T>(ps: seq<Parser<T>>, input: string, pos: nat) returns (r: PResult<seq<T>>)
    ensures r == SeqAt(ps, input, pos)
  {
    var values: seq<T> := [];
    var newPos := pos;
    assert SeqFrom(ps, 0, input, pos).Some? ==> values + SeqFrom(ps, 0, input, pos).value.0 == SeqFrom(ps, 0, input, pos).value.0;
    for k := 0 to |ps|
      invariant SeqFrom(ps, 0, input, pos) ==
        match SeqFrom(ps, k, input, newPos)
        case None => None
        case Some(rest) => Some((values + rest.0, rest.1))
    {
      var result := ps[k](input, newPos);
      if result.Parsed? {
        var rest := SeqFrom(ps, k + 1, input, result.pos);
        assert rest.Some? ==> values + ([result.value] + rest.value.0) == (values + [result.value]) + rest.value.0;
        values := values + [result.value];
        newPos := result.pos;
      } else {
        return Unmatch(pos);
      }
    }
    assert values + [] == values;
    return Parsed(values, newPos);
  }

  /** `seq(p, q)` on two parsers of possibly different types, pairing their values. */
  function Seq2At<A, B>(p: Parser<A>, q: Parser<B>, input: string, pos: nat): (r: PResult<(A, B)>)
    ensures r.Parsed? <==> p(input, pos).Parsed? && q(input, p(input, pos).pos).Parsed?
    ensures r.Parsed? ==> r == Parsed((p(input, pos).value, q(input, p(input, pos).pos).value), q(input, p(input, pos).pos).pos)
    ensures r.Unmatched? ==> r.pos == pos
  {
    match p(input, pos)
    case Unmatched(_) => Unmatch(pos)
    case Parsed(a, mid) =>
      match q(input, mid)
      case Unmatched(_) => Unmatch(pos)
      case Parsed(b, end) => Parsed((a, b), end)
  }

  function Seq2<A, B>(p: Parser<A>, q: Parser<B>): Parser<(A, B)> {
    (input: string, pos: nat) => Seq2At(p, q, input, pos)
  }

  /** seq of no parsers succeeds in place with no values. */
  lemma SeqEmpty<T>(input: string, pos: nat)
    ensures SeqAt<T>([], input, pos) == Parsed([], pos)
  {
  }

  /**
   * seq of a first parser and the rest is the pairing of that parser with
   * seq of the rest: the grammar's nesting of two-parser sequences therefore
   * means the same as the source's variadic seq.
   */
  lemma SeqCons<T>(p: Parser<T>, ps: seq<Parser<T>>, input: string, pos: nat)
    ensures SeqAt([p] + ps, input, pos) == MapAt(Seq2(p, Seq(ps)), (v: (T, seq<T>)) => [v.0] + v.1, input, pos)
  {
    match p(input, pos)
    case Unmatched(_) =>
    case Parsed(v, e) =>
      SeqFromShift(p, ps, 1, input, e);
  }

  /** Running ([p] + ps)[k + 1..] is running ps[k..]. */
  lemma {:induction false} SeqFromShift<T>(p: Parser<T>, ps: seq<Parser<T>>, k: nat, input: string, cur: nat)
    requires 1 <= k
    ensures SeqFrom([p] + ps, k, input, cur) == SeqFrom(ps, k - 1, input, cur)
    decreases |ps| - k
  {
    if k <= |ps| {
      assert ([p] + ps)[k] == ps[k - 1];
      match ps[k - 1](input, cur)
      case Unmatched(_) =>
      case Parsed(v, e) => SeqFromShift(p, ps, k + 1, input, e);
    }
  }

  lemma Seq2Advances<A, B>(p: Parser<A>, q: Parser<B>)
    requires Advances(p) && NoRetreat(q)
    ensures Advances(Seq2(p, q))
  {
  }

  lemma Seq2NoRetreat<A, B>(p: Parser<A>, q: Parser<B>)
    requires NoRetreat(p) && NoRetreat(q)
    ensures NoRetreat(Seq2(p, q))
  {
  }
}
