/**
 * The plugin's entry points of main.ts: looking up the snippet whose
 * prefix ends the text before the cursor, expanding it into a session,
 * and asking whether the session can jump.
 */
module Dispatch {
  import opened Options
  import opened Strings
  import opened Ast
  import opened Host
  import opened ParserNode
  import opened Loader
  import opened Sessions
  import opened Mirrors
  import opened Positions
  import opened Trees

  /** A prefix together with the body of the snippet it belongs to (`bestMatch`). */
  datatype Match = Match(prefix: string, body: Body)

  /** The prefixes of one snippet, in order. */
  function Pairs(s: NormalizedSnippet): (r: seq<Match>)
    ensures |r| == |s.prefix|
    ensures forall k :: 0 <= k < |r| ==> r[k] == Match(s.prefix[k], s.body)
  {
    seq(|s.prefix|, k requires 0 <= k < |s.prefix| => Match(s.prefix[k], s.body))
  }

  /** Every prefix of every snippet, snippet by snippet, in the order the nested `forEach` visits them. */
  function Candidates(snippets: seq<NormalizedSnippet>): seq<Match> {
    if snippets == [] then [] else Candidates(snippets[..|snippets| - 1]) + Pairs(snippets[|snippets| - 1])
  }

  /** The candidates are exactly the (prefix, body) pairs of the snippets. */
  lemma {:induction false} CandidatesMeaning(snippets: seq<NormalizedSnippet>, m: Match)
    ensures m in Candidates(snippets) <==> exists s :: s in snippets && m.prefix in s.prefix && m.body == s.body
  {
    if snippets != [] {
      var init, last := snippets[..|snippets| - 1], snippets[|snippets| - 1];
      CandidatesMeaning(init, m);
      assert snippets == init + [last];
      if m in Pairs(last) {
        var k :| 0 <= k < |Pairs(last)| && Pairs(last)[k] == m;
        assert m.prefix in last.prefix;
      }
      if m.prefix in last.prefix && m.body == last.body {
        var k :| 0 <= k < |last.prefix| && last.prefix[k] == m.prefix;
        assert Pairs(last)[k] == m;
      }
    }
  }

  /** One step of the search: a matching prefix replaces the best so far only if it is strictly longer. */
  function Step(line: string, best: Option<Match>, c: Match): Option<Match> {
    if EndsWith(line, c.prefix) && (best.None? || |c.prefix| > |best.value.prefix|) then Some(c) else best
  }

  function BestOf(line: string, cs: seq<Match>): Option<Match> {
    if cs == [] then None else Step(line, BestOf(line, cs[..|cs| - 1]), cs[|cs| - 1])
  }

  /** cs[k] is the match the search settles on: it ends the line, no earlier match is as long, and no later one longer. */
  predicate Chosen(line: string, cs: seq<Match>, k: nat)
    requires k < |cs|
  {
    && EndsWith(line, cs[k].prefix)
    && (forall j :: 0 <= j < k && EndsWith(line, cs[j].prefix) ==> |cs[j].prefix| < |cs[k].prefix|)
    && (forall j :: k < j < |cs| && EndsWith(line, cs[j].prefix) ==> |cs[j].prefix| <= |cs[k].prefix|)
  }

  /** With no prefix ending the line there is no match, and otherwise there is one. */
  lemma {:induction false} BestOfNone(line: string, cs: seq<Match>)
    ensures BestOf(line, cs).None? <==> forall k :: 0 <= k < |cs| ==> !EndsWith(line, cs[k].prefix)
  {
    if cs != [] {
      var init := cs[..|cs| - 1];
      BestOfNone(line, init);
      assert forall k :: 0 <= k < |init| ==> init[k] == cs[k];
    }
  }

  /** The match found is the longest matching prefix, the first of that length. */
  lemma {:induction false} BestOfChosen(line: string, cs: seq<Match>)
    requires BestOf(line, cs).Some?
    ensures exists k :: 0 <= k < |cs| && Chosen(line, cs, k) && BestOf(line, cs) == Some(cs[k])
  {
    var init, c := cs[..|cs| - 1], cs[|cs| - 1];
    var before := BestOf(line, init);
    assert forall k :: 0 <= k < |init| ==> init[k] == cs[k];
    var k := |cs| - 1;
    if before.None? {
      BestOfNone(line, init);
      assert BestOf(line, cs) == Some(c);
      assert Chosen(line, cs, k);
    } else {
      BestOfChosen(line, init);
      var i :| 0 <= i < |init| && Chosen(line, init, i) && before == Some(init[i]);
      if EndsWith(line, c.prefix) && |c.prefix| > |init[i].prefix| {
        assert BestOf(line, cs) == Some(c);
        forall j | 0 <= j < k && EndsWith(line, cs[j].prefix)
          ensures |cs[j].prefix| < |c.prefix|
        {
          assert cs[j] == init[j];
        }
        assert Chosen(line, cs, k);
      } else {
        assert BestOf(line, cs) == Some(init[i]);
        ChosenExtends(line, init, c, i);
        assert init + [c] == cs;
      }
    }
  }

  /** A later candidate that does not beat the chosen one leaves it chosen. */
  lemma ChosenExtends(line: string, init: seq<Match>, c: Match, i: nat)
    requires i < |init| && Chosen(line, init, i)
    requires !(EndsWith(line, c.prefix) && |c.prefix| > |init[i].prefix|)
    ensures Chosen(line, init + [c], i)
  {
    var cs := init + [c];
    forall j | 0 <= j < i && EndsWith(line, cs[j].prefix)
      ensures |cs[j].prefix| < |cs[i].prefix|
    {
      assert cs[j] == init[j];
    }
    forall j | i < j < |cs| && EndsWith(line, cs[j].prefix)
      ensures |cs[j].prefix| <= |cs[i].prefix|
    {
      if j < |init| {
        assert cs[j] == init[j];
      }
    }
  }

  /**
   * `searchSnippet()`, with the snippets of the filetype given: the text of
   * the cursor line before the cursor's character, searched by the nested
   * loops over the snippets and their prefixes.
   */
  method SearchSnippet(snippets: seq<NormalizedSnippet>, text: string, character: nat) returns (best: Option<Match>)
    ensures best == BestOf(Prefix(text, character), Candidates(snippets))
  {
    var line := Prefix(text, character);
    best := None;
    var i := 0;
    while i < |snippets|
      invariant 0 <= i <= |snippets|
      invariant best == BestOf(line, Candidates(snippets[..i]))
    {
      var snippet := snippets[i];
      ghost var done := Candidates(snippets[..i]);
      assert Candidates(snippets[..i + 1]) == done + Pairs(snippet) by {
        assert snippets[..i + 1][..i] == snippets[..i];
      }
      assert done + Pairs(snippet)[..0] == done;
      var j := 0;
      while j < |snippet.prefix|
        invariant 0 <= j <= |snippet.prefix|
        invariant best == BestOf(line, done + Pairs(snippet)[..j])
      {
        var prefix := snippet.prefix[j];
        assert done + Pairs(snippet)[..j + 1] == (done + Pairs(snippet)[..j]) + [Match(prefix, snippet.body)];
        if EndsWith(line, prefix) && (best.None? || |prefix| > |best.value.prefix|) {
          best := Some(Match(prefix, snippet.body));
        }
        j := j + 1;
      }
      assert Pairs(snippet)[..j] == Pairs(snippet);
      i := i + 1;
    }
    assert snippets[..i] == snippets;
  }

  /** The completion items (`getCompleteItems`): one item per prefix, its word the prefix; kind and dup are constant. */
  function CompleteItems(snippets: seq<NormalizedSnippet>): (r: seq<Match>)
    ensures forall m :: m in r <==> exists s :: s in snippets && m.prefix in s.prefix && m.body == s.body
  {
    forall m ensures m in Candidates(snippets) <==> exists s :: s in snippets && m.prefix in s.prefix && m.body == s.body {
      CandidatesMeaning(snippets, m);
    }
    Candidates(snippets)
  }

  /**
   * The items are a `flatMap` in snippet order: those of a concatenation
   * are the items of each part in turn, and a single snippet gives one item
   * per prefix, in the order of its prefixes, duplicates included.
   */
  lemma {:induction false} CompleteItemsFlatMap(a: seq<NormalizedSnippet>, b: seq<NormalizedSnippet>, s: NormalizedSnippet)
    ensures CompleteItems(a + b) == CompleteItems(a) + CompleteItems(b)
    ensures CompleteItems([s]) == seq(|s.prefix|, k requires 0 <= k < |s.prefix| => Match(s.prefix[k], s.body))
  {
    CandidatesAppend(a, b);
    assert [s][..0] == [];
    assert Candidates([s]) == Candidates([]) + Pairs(s);
  }

  lemma {:induction false} CandidatesAppend(a: seq<NormalizedSnippet>, b: seq<NormalizedSnippet>)
    ensures Candidates(a + b) == Candidates(a) + Candidates(b)
    decreases |b|
  {
    if b == [] {
      assert a + b == a;
    } else {
      var init, last := b[..|b| - 1], b[|b| - 1];
      var ab := a + b;
      assert ab[..|ab| - 1] == a + init && ab[|ab| - 1] == last;
      assert Candidates(ab) == Candidates(a + init) + Pairs(last);
      assert Candidates(b) == Candidates(init) + Pairs(last);
      CandidatesAppend(a, init);
    }
  }

  /** The lines and cursor once the n characters before the cursor are deleted (`nvim_buf_set_text` in `expand`). */
  function AfterDelete(lines: seq<string>, cursor: Position, n: nat): (r: (seq<string>, Position))
    requires 0 <= cursor.line < |lines| && n <= cursor.character <= |lines[cursor.line]|
    ensures |r.0| == |lines| && r.1 == Position(cursor.line, cursor.character - n)
    ensures forall k :: 0 <= k < |lines| && k != cursor.line ==> r.0[k] == lines[k]
    ensures |r.0[cursor.line]| == |lines[cursor.line]| - n
    ensures r.0[cursor.line][..cursor.character - n] == lines[cursor.line][..cursor.character - n]
  {
    var line := lines[cursor.line];
    (lines[cursor.line := line[..cursor.character - n] + line[cursor.character..]], Position(cursor.line, cursor.character - n))
  }

  /**
   * What `expand` leaves once match m was chosen for the lines and cursor
   * it started from: the prefix is gone before the cursor; a body that does
   * not parse, or whose text overflows the stack, leaves it at that; on
   * success the text is inserted there and, with a session, the snippet is
   * laid out from the cursor found after the insertion.
   */
  ghost predicate ExpandedAs(m: Match, call: nat -> OneOrMany<string>, parse: string -> Option<seq<Node>>, lib: TextLib, hops: nat,
                             lines: seq<string>, cursor: Position, r: Result<()>, session: Option<Session>, buf: Buffer)
    requires 0 <= cursor.line < |lines| && |m.prefix| <= cursor.character <= |lines[cursor.line]|
    reads buf, if session.Some? then {session.value, session.value.tree} else {}
  {
    var d := AfterDelete(lines, cursor, |m.prefix|);
    var nodes := parse(BodyText(m.body, call));
    && (nodes.None? ==> r == Err("Failed parsing") && buf.lines == d.0 && buf.cursor == d.1)
    && (nodes.Some? && InsertText(nodes.value, hops, lib).None? ==> r == Err(StackOverflow) && buf.lines == d.0 && buf.cursor == d.1)
    && (nodes.Some? && InsertText(nodes.value, hops, lib).Some? && r.Ok? ==>
        var patched := buf.lib.linePatch(d.0, d.1, InsertText(nodes.value, hops, lib).value);
        && buf.cursor == patched.1
        && (session.None? ==> buf.lines == patched.0)
        && (session.Some? ==>
            var s := session.value;
            s.start == patched.1 && s.tree.top == nodes.value && s.nodeIndex == 0
            && buf.lines == LayChildren(Env(s.tree.State(), hops, lib, buf.lib), nodes.value, [], 0, patched.1, map[], patched.0).lines))
    && (nodes.Some? && InsertText(nodes.value, hops, lib).Some? ==>
        var patched := buf.lib.linePatch(d.0, d.1, InsertText(nodes.value, hops, lib).value);
        var order := SessionOrder(Canon(nodes.value));
        var marks := Marks(map[], Resolved(Walk(nodes.value)).copy, map[]);
        var l := LayChildren(Env(marks, hops, lib, buf.lib), nodes.value, [], 0, patched.1, map[], patched.0);
        && (order == [] ==> r.Ok? && buf.lines == patched.0)
        && (order != [] ==> (r.Ok? <==> order[0].path in l.ranges) && buf.lines == l.lines)
        && (r.Err? ==> r.error == "Internal error: Node.Jumpable.setExtmark"))
  }

  /** A failed expansion says nothing about the session, so any session left in place fits it. */
  lemma ExpandedAsFailed(m: Match, call: nat -> OneOrMany<string>, parse: string -> Option<seq<Node>>, lib: TextLib, hops: nat,
                         lines: seq<string>, cursor: Position, error: string, s: Option<Session>, t: Option<Session>, buf: Buffer)
    requires 0 <= cursor.line < |lines| && |m.prefix| <= cursor.character <= |lines[cursor.line]|
    requires ExpandedAs(m, call, parse, lib, hops, lines, cursor, Err(error), s, buf)
    ensures ExpandedAs(m, call, parse, lib, hops, lines, cursor, Err(error), t, buf)
  {
  }

  /** The part of `expand` after the match: the prefix is deleted before the cursor and the session is created from the body. */
  method Insert(m: Match, call: nat -> OneOrMany<string>, parse: string -> Option<seq<Node>>, lib: TextLib, hops: nat, buf: Buffer)
    returns (r: Result<Option<Session>>)
    requires buf.CursorOnLine() && |m.prefix| <= buf.cursor.character
    modifies buf
    ensures r.Ok? ==> parse(BodyText(m.body, call)).Some? && (r.value.Some? <==> SessionOrder(Canon(parse(BodyText(m.body, call)).value)) != [])
    ensures r.Ok? && r.value.Some? ==> fresh(r.value.value) && r.value.value.Valid()
    ensures ExpandedAs(m, call, parse, lib, hops, old(buf.lines), old(buf.cursor), if r.Ok? then Ok(()) else Err(r.error), if r.Ok? then r.value else None, buf)
  {
    ghost var d := AfterDelete(buf.lines, buf.cursor, |m.prefix|);
    buf.DeleteBeforeCursor(|m.prefix|);
    assert buf.lines == d.0 by {
      assert buf.lines[buf.cursor.line] == d.0[buf.cursor.line];
    }
    r := CreateReturning(parse(BodyText(m.body, call)), lib, hops, buf);
  }

  /**
   * A JSON, TOML or YAML record without a prefix is expanded by its key:
   * the key is a candidate prefix for the record's joined body.
   */
  lemma {:induction false} KeyIsPrefix(entries: seq<(string, RawSnippet)>, k: nat)
    requires k < |entries| && entries[k].1.prefix.None?
    ensures Match(entries[k].0, Body.Text(ToString(entries[k].1.body))) in Candidates(NormalizeRawAll(entries))
  {
    var s := NormalizeRawAll(entries)[k];
    CandidatesMeaning(NormalizeRawAll(entries), Match(entries[k].0, Body.Text(ToString(entries[k].1.body))));
    assert s in NormalizeRawAll(entries) && entries[k].0 in s.prefix;
  }

  /** The state main.ts keeps between calls: the session of the last expansion, if any. */
  class Dispatcher {
    var session: Option<Session>

    ghost predicate Valid()
      reads this, if session.Some? then {session.value, session.value.tree} else {}
    {
      session.Some? ==> session.value.Valid()
    }

    constructor ()
      ensures session.None?
    {
      session := None;
    }

    /** `expandable()`: some prefix ends the text before the cursor. */
    method Expandable(snippets: seq<NormalizedSnippet>, text: string, character: nat) returns (r: bool)
      ensures r <==> exists m :: m in Candidates(snippets) && EndsWith(Prefix(text, character), m.prefix)
    {
      var best := SearchSnippet(snippets, text, character);
      BestOfNone(Prefix(text, character), Candidates(snippets));
      r := best.Some?;
      if !r {
        forall m | m in Candidates(snippets) ensures !EndsWith(Prefix(text, character), m.prefix) {
          var k :| 0 <= k < |Candidates(snippets)| && Candidates(snippets)[k] == m;
        }
      }
    }

    /**
     * `expand()`: with no matching prefix nothing happens. Otherwise the
     * body is turned into text (`call` gives what a body function returns),
     * the prefix is deleted before the cursor, and the session is created
     * from the body (`parse` gives the snippet body's parse after the
     * indent adjustment) by Session.create as it is evidently meant.
     */
    method Expand(snippets: seq<NormalizedSnippet>, call: nat -> OneOrMany<string>, parse: string -> Option<seq<Node>>,
                  lib: TextLib, hops: nat, buf: Buffer) returns (r: Result<()>)
      requires Valid() && buf.CursorOnLine()
      modifies this, buf
      ensures var best := BestOf(Prefix(old(buf.lines[buf.cursor.line]), old(buf.cursor.character) as nat), Candidates(snippets));
        && (best.None? ==> r.Ok? && session == old(session) && buf.lines == old(buf.lines) && buf.cursor == old(buf.cursor))
        && (best.Some? && r.Ok? ==>
            var nodes := parse(BodyText(best.value.body, call));
            nodes.Some? && (session.Some? <==> SessionOrder(Canon(nodes.value)) != []))
        && (r.Err? ==> session == old(session))
      ensures var best := BestOf(Prefix(old(buf.lines[buf.cursor.line]), old(buf.cursor.character) as nat), Candidates(snippets));
        best.Some? ==> |best.value.prefix| <= old(buf.cursor.character) && ExpandedAs(best.value, call, parse, lib, hops, old(buf.lines), old(buf.cursor), r, session, buf)
      ensures Valid()
    {
      var best := SearchSnippet(snippets, buf.lines[buf.cursor.line], buf.cursor.character as nat);
      if best.None? {
        return Ok(());
      }
      var n := |best.value.prefix|;
      assert n <= buf.cursor.character by {
        var line := Prefix(buf.lines[buf.cursor.line], buf.cursor.character as nat);
        BestOfChosen(line, Candidates(snippets));
      }
      r := ExpandMatch(best.value, call, parse, lib, hops, buf);
    }

    /** The rest of `expand` once a match is found: the match is inserted and the session it creates is stored. */
    method ExpandMatch(m: Match, call: nat -> OneOrMany<string>, parse: string -> Option<seq<Node>>,
                       lib: TextLib, hops: nat, buf: Buffer) returns (r: Result<()>)
      requires Valid() && buf.CursorOnLine() && |m.prefix| <= buf.cursor.character
      modifies this, buf
      ensures r.Ok? ==> var nodes := parse(BodyText(m.body, call)); nodes.Some? && (session.Some? <==> SessionOrder(Canon(nodes.value)) != [])
      ensures r.Err? ==> session == old(session)
      ensures ExpandedAs(m, call, parse, lib, hops, old(buf.lines), old(buf.cursor), r, session, buf)
      ensures Valid()
    {
      var created := Insert(m, call, parse, lib, hops, buf);
      if created.Err? {
        ExpandedAsFailed(m, call, parse, lib, hops, old(buf.lines), old(buf.cursor), created.error, None, session, buf);
        return Err(created.error);
      }
      session := created.value;
      r := Ok(());
    }

    /**
     * `expand()` as written: the same steps over Session.create as written,
     * whose missing `return` makes every successful expansion store no
     * session, so that jumpable answers false afterwards.
     */
    method ExpandAsWritten(snippets: seq<NormalizedSnippet>, call: nat -> OneOrMany<string>, parse: string -> Option<seq<Node>>,
                           lib: TextLib, hops: nat, buf: Buffer) returns (r: Result<()>)
      requires Valid() && buf.CursorOnLine()
      modifies this, buf
      ensures var best := BestOf(Prefix(old(buf.lines[buf.cursor.line]), old(buf.cursor.character) as nat), Candidates(snippets));
        && (best.None? ==> r.Ok? && session == old(session) && buf.lines == old(buf.lines) && buf.cursor == old(buf.cursor))
        && (best.Some? && r.Ok? ==> session.None?)
        && (r.Err? ==> session == old(session))
      ensures Valid()
    {
      var best := SearchSnippet(snippets, buf.lines[buf.cursor.line], buf.cursor.character as nat);
      if best.None? {
        return Ok(());
      }
      var n := |best.value.prefix|;
      assert n <= buf.cursor.character by {
        var line := Prefix(buf.lines[buf.cursor.line], buf.cursor.character as nat);
        BestOfChosen(line, Candidates(snippets));
      }
      buf.DeleteBeforeCursor(n);
      var created := Create(parse(BodyText(best.value.body, call)), lib, hops, buf);
      if created.Err? {
        return Err(created.error);
      }
      session := created.value;
      r := Ok(());
    }

    /** `jumpable(dir)` for dir 1 or -1; None for any other direction, which is rejected. */
    function Jumpable(dir: int): (r: Option<bool>)
      reads this, if session.Some? then {session.value} else {}
      ensures dir != 1 && dir != -1 <==> r.None?
      ensures session.None? && r.Some? ==> !r.value
      ensures session.Some? && dir == 1 ==> r == Some(session.value.nodeIndex + 1 < |session.value.jumpableNodes|)
      ensures session.Some? && dir == -1 ==> r == Some(session.value.nodeIndex >= 1)
    {
      if dir != 1 && dir != -1 then None
      else if session.None? then Some(false)
      else if dir == 1 then Some(session.value.nodeIndex < |session.value.jumpableNodes| - 1)
      else Some(session.value.nodeIndex > 0)
    }

    /** `choosable()`: the session's current node is a choice. */
    function Choosable(): (r: bool)
      requires Valid()
      reads this, if session.Some? then {session.value, session.value.tree} else {}
      ensures r ==> session.Some? && session.value.jumpableNodes[session.value.nodeIndex].node.Choice?
      ensures session.Some? && session.value.jumpableNodes[session.value.nodeIndex].node.Choice? ==> r
    {
      session.Some? && session.value.CurrentNode().node.Choice?
    }
  }

  /** A session can always jump one way or the other unless it has a single jumpable node. */
  lemma JumpableSomeWay(d: Dispatcher)
    requires d.session.Some? && d.session.value.nodeIndex < |d.session.value.jumpableNodes|
    ensures d.Jumpable(1) == Some(true) || d.Jumpable(-1) == Some(true) <==> |d.session.value.jumpableNodes| > 1
  {
  }
}
