/**
 * The snippet registry of loader.ts: snippet files are normalised into
 * NormalizedSnippet records and appended to per-filetype lists; a lookup
 * for a filetype concatenates its list with the global ("*") one and keeps
 * the snippets whose `if` condition holds. Reading and parsing files,
 * importing TypeScript modules and evaluating conditions are done by the
 * host: their outcomes are parameters.
 */
module Loader {
  import opened Options
  import opened Strings
  import Util

  /** `T | T[]` */
  datatype OneOrMany<T> = One(item: T) | Many(items: seq<T>)

  /** `toArray(x)`: an array as it is, anything else as a one-element array. */
  function ToArray<T>(x: OneOrMany<T>): (r: seq<T>)
    ensures x.One? ==> r == [x.item]
    ensures x.Many? ==> r == x.items
  {
    match x
    case One(item) => [item]
    case Many(items) => items
  }

  /** `toString(x)` on a snippet body: the lines of an array joined with "\n". */
  function ToString(x: OneOrMany<string>): string {
    match x
    case One(s) => s
    case Many(lines) => Join(lines, "\n")
  }

  /** An array body of lines without newline characters is split back into exactly those lines. */
  lemma ToStringLines(lines: seq<string>)
    requires |lines| >= 1 && forall k :: 0 <= k < |lines| ==> '\n' !in lines[k]
    ensures SplitOn(ToString(Many(lines)), "\n") == lines
  {
    SplitOnJoin(lines, '\n');
  }

  /** The `if` keywords. */
  datatype IfKeyword = Base | Start | Vimscript | Lua

  /** A snippet's `if`: absent, a keyword, or a function of a TypeScript snippet (named by an id). */
  datatype Condition = Always | Keyword(keyword: IfKeyword) | IfFunc(id: nat)

  /**
   * A normalised body: the text of a JSON/TOML/YAML snippet, or the body
   * of a TypeScript snippet, turned into text when the snippet expands
   * (a function body, named by an id, is called then).
   */
  datatype TsBody = Value(value: OneOrMany<string>) | BodyFunc(id: nat)
  datatype Body = Text(text: string) | Deferred(body: TsBody)

  datatype NormalizedSnippet = NormalizedSnippet(
    name: string,
    prefix: seq<string>,
    body: Body,
    description: Option<string>,
    cond: Condition,
    eval: Option<string>)

  /** A snippet record of a JSON, TOML or YAML file. */
  datatype RawSnippet = RawSnippet(
    prefix: Option<OneOrMany<string>>,
    body: OneOrMany<string>,
    description: Option<string>,
    cond: Option<IfKeyword>,
    eval: Option<string>)

  /** A snippet record exported by a TypeScript module. */
  datatype TsSnippet = TsSnippet(
    prefix: Option<OneOrMany<string>>,
    body: TsBody,
    description: Option<string>,
    cond: Condition,
    eval: Option<string>)

  /** The text of a body once the snippet expands; `call` gives what a body function returns. */
  function BodyText(b: Body, call: nat -> OneOrMany<string>): string {
    match b
    case Text(t) => t
    case Deferred(Value(v)) => ToString(v)
    case Deferred(BodyFunc(id)) => ToString(call(id))
  }

  /** The snippet a JSON/TOML/YAML record becomes: named by its key, triggered by its name unless it has a prefix. */
  function NormalizeRaw(name: string, raw: RawSnippet): (r: NormalizedSnippet)
    ensures r.name == name && r.description == raw.description && r.eval == raw.eval
    ensures raw.prefix.None? ==> r.prefix == [name]
    ensures raw.prefix.Some? ==> r.prefix == ToArray(raw.prefix.value)
    ensures r.body.Text? && BodyText(r.body, _ => One("")) == ToString(raw.body)
    ensures r.cond == if raw.cond.Some? then Keyword(raw.cond.value) else Always
  {
    NormalizedSnippet(
      name,
      ToArray(raw.prefix.GetOr(One(name))),
      Text(ToString(raw.body)),
      raw.description,
      if raw.cond.Some? then Keyword(raw.cond.value) else Always,
      raw.eval)
  }

  /** The text of a TypeScript body: the value itself, or what the function returns. */
  function TsBodyText(b: TsBody, call: nat -> OneOrMany<string>): string {
    ToString(if b.Value? then b.value else call(b.id))
  }

  /** The snippet a TypeScript record becomes; its body is turned into text only when it expands. */
  function NormalizeTs(name: string, ts: TsSnippet): (r: NormalizedSnippet)
    ensures r.name == name && r.description == ts.description && r.eval == ts.eval && r.cond == ts.cond
    ensures ts.prefix.None? ==> r.prefix == [name]
    ensures ts.prefix.Some? ==> r.prefix == ToArray(ts.prefix.value)
    ensures forall call :: BodyText(r.body, call) == TsBodyText(ts.body, call)
  {
    NormalizedSnippet(name, ToArray(ts.prefix.GetOr(One(name))), Deferred(ts.body), ts.description, ts.cond, ts.eval)
  }

  /** `Object.entries(content).map(...)` for a JSON/TOML/YAML file. */
  function NormalizeRawAll(entries: seq<(string, RawSnippet)>): (r: seq<NormalizedSnippet>)
    ensures |r| == |entries|
    ensures forall k :: 0 <= k < |r| ==> r[k] == NormalizeRaw(entries[k].0, entries[k].1)
  {
    seq(|entries|, k requires 0 <= k < |entries| => NormalizeRaw(entries[k].0, entries[k].1))
  }

  /** `Object.entries(content).map(...)` for a TypeScript module. */
  function NormalizeTsAll(entries: seq<(string, TsSnippet)>): (r: seq<NormalizedSnippet>)
    ensures |r| == |entries|
    ensures forall k :: 0 <= k < |r| ==> r[k] == NormalizeTs(entries[k].0, entries[k].1)
  {
    seq(|entries|, k requires 0 <= k < |entries| => NormalizeTs(entries[k].0, entries[k].1))
  }

  /** What the host answers when the conditions are evaluated. */
  datatype Host = Host(
    ifFunc: nat -> bool,     // Boolean(await snippet.if(denops))
    base: bool,              // denippet#load#base()
    start: bool,             // denippet#load#start()
    vimEval: string -> bool, // eval(expr)
    luaEval: string -> bool) // luaeval of the chunk

  /** Whether getSnippets keeps the snippet: the chain of tests in loader.ts, in its order. */
  function Keep(h: Host, s: NormalizedSnippet): bool {
    match s.cond
    case Always => true
    case IfFunc(id) => h.ifFunc(id)
    case Keyword(Base) => h.base
    case Keyword(Start) => h.start
    case Keyword(k) =>
      if s.eval.None? || s.eval.value == "" then false
      else if k == Vimscript then h.vimEval(s.eval.value)
      else h.luaEval(s.eval.value)
  }

  /** A snippet without `if` is always kept; one whose `vimscript`/`lua` condition has no (or an empty) `eval` never is. */
  lemma KeepMeaning(h: Host, s: NormalizedSnippet)
    ensures s.cond.Always? ==> Keep(h, s)
    ensures s.cond in {Keyword(Vimscript), Keyword(Lua)} && (s.eval.None? || s.eval == Some("")) ==> !Keep(h, s)
    ensures s.cond == Keyword(Vimscript) && s.eval.Some? && s.eval.value != "" ==> Keep(h, s) == h.vimEval(s.eval.value)
    ensures s.cond == Keyword(Lua) && s.eval.Some? && s.eval.value != "" ==> Keep(h, s) == h.luaEval(s.eval.value)
  {
  }

  /** The snippets stored for a filetype (`Cell[ft] ?? []`). */
  function Stored(cells: map<string, seq<NormalizedSnippet>>, ft: string): seq<NormalizedSnippet> {
    if ft in cells then cells[ft] else []
  }

  /** The cells after the snippets have been appended to each filetype of fts, in order. */
  function AddAll(cells: map<string, seq<NormalizedSnippet>>, fts: seq<string>, snippets: seq<NormalizedSnippet>): map<string, seq<NormalizedSnippet>> {
    if fts == [] then cells
    else
      var before := AddAll(cells, fts[..|fts| - 1], snippets);
      var ft := fts[|fts| - 1];
      before[ft := Stored(before, ft) + snippets]
  }

  function Occurrences(fts: seq<string>, ft: string): nat {
    if fts == [] then 0
    else Occurrences(fts[..|fts| - 1], ft) + (if fts[|fts| - 1] == ft then 1 else 0)
  }

  /** `n` copies of xs, one after another. */
  function Copies<T>(xs: seq<T>, n: nat): (r: seq<T>)
    ensures |r| == |xs| * n
  {
    if n == 0 then [] else Copies(xs, n - 1) + xs
  }

  /**
   * Appending to a list of filetypes: each filetype gets the snippets once
   * for every time it is listed, after what it had.
   */
  lemma {:induction false} AddAllStored(cells: map<string, seq<NormalizedSnippet>>, fts: seq<string>, snippets: seq<NormalizedSnippet>, ft: string)
    ensures Stored(AddAll(cells, fts, snippets), ft) == Stored(cells, ft) + Copies(snippets, Occurrences(fts, ft))
  {
    if fts == [] {
      assert Stored(cells, ft) + [] == Stored(cells, ft);
    } else {
      var init := fts[..|fts| - 1];
      AddAllStored(cells, init, snippets, ft);
      if fts[|fts| - 1] == ft {
        var n := Occurrences(init, ft);
        assert Copies(snippets, n + 1) == Copies(snippets, n) + snippets;
        assert Stored(cells, ft) + Copies(snippets, n) + snippets == Stored(cells, ft) + (Copies(snippets, n) + snippets);
      }
    }
  }

  /** The filetypes with a list afterwards are those that had one and those listed. */
  lemma {:induction false} AddAllKeys(cells: map<string, seq<NormalizedSnippet>>, fts: seq<string>, snippets: seq<NormalizedSnippet>, ft: string)
    ensures ft in AddAll(cells, fts, snippets) <==> ft in cells || ft in fts
  {
    if fts != [] {
      var init := fts[..|fts| - 1];
      AddAllKeys(cells, init, snippets, ft);
      assert fts == init + [fts[|fts| - 1]];
    }
  }

  /** The `.`-separated last piece of a path (`filepath.split(".").pop()`). */
  function Extension(filepath: string): (r: string)
    ensures '.' !in r
  {
    var pieces := SplitOn(filepath, ".");
    LastPieceHasNoDot(filepath);
    pieces[|pieces| - 1]
  }

  lemma {:induction false} LastPieceHasNoDot(s: string)
    ensures var pieces := SplitOn(s, "."); '.' !in pieces[|pieces| - 1]
    decreases |s|
  {
    var i := Find(s, ".");
    if i < 0 {
      FindIsFirst(s, ".");
      if '.' in s {
        var k :| 0 <= k < |s| && s[k] == '.';
        assert OccursAt(s, ".", k);
      }
    } else {
      LastPieceHasNoDot(s[i + 1..]);
    }
  }

  /** The extension of `name.ext` is ext, whatever dots name has. */
  lemma {:induction false} ExtensionOf(name: string, ext: string)
    requires '.' !in ext
    ensures Extension(name + "." + ext) == ext
    decreases |name|
  {
    var s := name + "." + ext;
    var i := Find(s, ".");
    FindIsFirst(s, ".");
    assert OccursAt(s, ".", |name|);
    assert 0 <= i <= |name|;
    if i == |name| {
      assert s[i + 1..] == ext;
      CharAbsent(ext, '.');
      FindContains(ext, ".");
      assert SplitOn(ext, ".") == [ext];
      assert s[..i] == name;
      assert SplitOn(s, ".") == [s[..i]] + SplitOn(s[i + 1..], ".");
    } else {
      assert s[i + 1..] == name[i + 1..] + "." + ext;
      ExtensionOf(name[i + 1..], ext);
    }
  }

  /** The module-level `Cell` record of loader.ts: the snippets of each filetype, in load order. */
  class Registry {
    var cells: map<string, seq<NormalizedSnippet>>

    constructor ()
      ensures cells == map[]
    {
      cells := map[];
    }

    /** `setSnippets(filetype, snippets)` */
    method SetSnippets(filetype: OneOrMany<string>, snippets: seq<NormalizedSnippet>)
      modifies this
      ensures cells == AddAll(old(cells), ToArray(filetype), snippets)
    {
      var fts := ToArray(filetype);
      var i := 0;
      while i < |fts|
        invariant 0 <= i <= |fts|
        invariant cells == AddAll(old(cells), fts[..i], snippets)
      {
        var ft := fts[i];
        assert fts[..i + 1][..i] == fts[..i];
        if ft !in cells {
          cells := cells[ft := []];
        }
        cells := cells[ft := cells[ft] + snippets];
        i := i + 1;
      }
      assert fts[..i] == fts;
    }

    /** `getSnippets(ft)`: the filetype's snippets, then the global ones, those that pass their condition. */
    function GetSnippets(h: Host, ft: string): (r: seq<NormalizedSnippet>)
      reads this
      ensures r == Util.Filter(Stored(cells, ft), s => Keep(h, s)) + Util.Filter(Stored(cells, "*"), s => Keep(h, s))
      ensures forall k :: 0 <= k < |r| ==> Keep(h, r[k]) && (r[k] in Stored(cells, ft) || r[k] in Stored(cells, "*"))
    {
      var keep := s => Keep(h, s);
      Util.FilterAppend(Stored(cells, ft), Stored(cells, "*"), keep);
      Util.Filter(Stored(cells, ft) + Stored(cells, "*"), keep)
    }

    /**
     * `load(filepath, filetype)`, with the parsed contents of the file
     * given: `raw` for a JSON/TOML/YAML file, `ts` for a TypeScript module.
     * Any other extension throws and stores nothing.
     */
    method Load(filepath: string, filetype: OneOrMany<string>, raw: seq<(string, RawSnippet)>, ts: seq<(string, TsSnippet)>)
      returns (r: Result<()>)
      modifies this
      ensures var ext := Extension(filepath);
        if ext in {"json", "toml", "yaml"} then r.Ok? && cells == AddAll(old(cells), ToArray(filetype), NormalizeRawAll(raw))
        else if ext == "ts" then r.Ok? && cells == AddAll(old(cells), ToArray(filetype), NormalizeTsAll(ts))
        else r == Err("Unknown extension: " + ext) && cells == old(cells)
    {
      var extension := Extension(filepath);
      var snippets: seq<NormalizedSnippet>;
      if extension in {"json", "toml", "yaml"} {
        snippets := NormalizeRawAll(raw);
      } else if extension == "ts" {
        snippets := NormalizeTsAll(ts);
      } else {
        return Err("Unknown extension: " + extension);
      }
      SetSnippets(filetype, snippets);
      r := Ok(());
    }
  }

  /** The global list is consulted for every filetype, so for "*" itself its snippets come twice. */
  lemma GlobalTwice(cells: map<string, seq<NormalizedSnippet>>, h: Host)
    ensures var g := Util.Filter(Stored(cells, "*"), s => Keep(h, s));
      Util.Filter(Stored(cells, "*") + Stored(cells, "*"), s => Keep(h, s)) == g + g
  {
    Util.FilterAppend(Stored(cells, "*"), Stored(cells, "*"), s => Keep(h, s));
  }
}
