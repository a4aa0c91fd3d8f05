# denippet, modelled in Dafny

denippet is a snippet engine for Vim/Neovim. It runs as a denops plugin written in TypeScript. This project models its
core in Dafny 4.11 and proves properties of that model:

- **Parser combinators** (`generator.ts`: `Generator` module). A parser is a total function from an input and an
  offset to `Parsed(value, pos)` or `Unmatched(pos)`. Each combinator (`takeUntil`, `map`, `lazy`, `token`, `pattern`,
  `many`, `opt`, `or`, `seq`) is specified by a function, and the loops in the source become methods proved equal
  to those functions.
- **VS Code snippet grammar** (`parser/vscode.ts`: `Grammar`, `GrammarLaws`). This covers text with escapes, integers,
  formats, transforms, tabstops, placeholders, choices, variables and the top-level snippet. Lemmas state the shape
  of what each construct accepts and what it rejects.
- **The two node trees**:
  - the synchronous first generation (`parser/node.ts`: `ParserNode`);
  - the asynchronous second generation (`node.ts`: `Nodes`), with transforms, formats, mirrors, shifted ranges and
    cursor repair;
  - the shared pieces: `Positions`, `Trees`, `Formats`.

  A node is identified by its path of child indices from the snippet. Per-node mutable state is kept in path-keyed
  maps on a `Tree` class: the typed input, the range, the mirror link, the choice index and the variable cache.
  Laying out ranges (`updateRange`) is specified by pure functions. The imperative methods are proved equal to them.
- **Mirror resolution** (`Mirrors`). The breadth-first walk that links every copy of a tabstop to the instance with
  the highest priority, and the two jump orders:
  - ascending, for `session.ts`;
  - ascending with tabstop 0 last, for `snippet.ts`.
- **Navigation**:
  - `Snippets` models `snippet.ts`: create, jump, choice, update and jumpable, including nested outer snippets;
  - `Sessions` models the older `session.ts`;
  - `Dispatch` models the dispatcher in `main.ts`: the search for the longest matching prefix, expandable, expand,
    jumpable, choosable and the completion items.
- **Text helpers**:
  - `Indent` models `indent.ts`: adjustIndent and trimBaseIndent;
  - `Util` models `util.ts`: splitLines and asyncFilter;
  - `Variables` models `variable.ts`: the registry and the built-in variables;
  - `Loader` models `loader.ts`: normalising snippet files, setSnippets, getSnippets and load.

The editor sits behind small interfaces made of function-valued fields: `HostLib` and `Host.Buffer` for buffer
lines, the cursor and `linePatch`, `RegexLib` for JavaScript regular expressions, `CaseLib` for case conversion, and
`Editor` for the Vim options and registers a variable reads. Their results are inputs to the model.

## Model

| member | source | states |
|---|---|---|
| Util.NormalizeNewlines | denops/denippet/util.ts:11 | after `\r\n?` is replaced by `\n` no carriage return is left, and text without one is unchanged |
| Util.NormalizeCountsBreaks | denops/denippet/util.ts:11 | the normalised text has exactly one `\n` per line break of the original (CRLF, lone CR or LF) |
| Util.SplitLines | denops/denippet/util.ts:10-12 | the result is never empty (the non-empty tuple type of splitLines) |
| Util.SplitLinesShape | denops/denippet/util.ts:10-12 | splitLines yields line breaks + 1 lines, none holding `\n` or `\r`, and joining them with `\n` gives back the normalised text |
| Util.SplitLinesSingle | denops/denippet/util.ts:10-12 | a text without line breaks splits into itself alone |
| Util.Filter | denops/denippet/util.ts:2-8 | asyncFilter keeps only elements of the input, each one accepted by the predicate |
| Util.FilterAppend | denops/denippet/util.ts:2-8 | filtering a concatenation is the concatenation of the filtered parts, so order is kept |
| Util.FilterCounts | denops/denippet/util.ts:2-8 | an accepted value occurs as often as in the input and a rejected one not at all |
| Positions.IsSamePosition | denops/denippet/parser/node.ts:32-34 | true exactly when line and character both agree |
| Positions.IsSameRange | denops/denippet/parser/node.ts:36-38 | true exactly when both ends are the same position |
| Positions.LastLineLength | denops/denippet/parser/node.ts:23-30 | the length of the last line is at most the text's length and equals it for a text without breaks |
| Positions.CalcRange | denops/denippet/node.ts:29-36 | the range starts at start, its end line advances by the number of line breaks, and its end character is start.character + length on one line or the last line's length otherwise |
| Positions.LastLineIsTail | denops/denippet/parser/node.ts:23-30 | for multi-line text, the end character of calcRange is the length of the last line that splitLines yields |
| Positions.LastLineAppend | denops/denippet/parser/node.ts:23-30 | the last-line length of a + b is that of b when b breaks, otherwise that of a plus len(b) |
| Positions.BreaksIffHasBreak | denops/denippet/parser/node.ts:23-30 | a text has a positive break count exactly when it holds `\n` or `\r` |
| Positions.LastLineNormalized | denops/denippet/util.ts:11 | normalising newlines does not change the length of the last line |
| Positions.LineBreaksAppend | denops/denippet/parser/node.ts:23-30 | break counts add over concatenation unless a CRLF is split between the parts |
| Positions.CalcRangeThreads | denops/denippet/parser/node.ts:23-30 | laying b after a from calcRange(start, a).end ends where calcRange(start, a + b) ends, which is what lets updateRange thread positions through the children |
| Positions.ShiftRange | denops/denippet/node.ts:99-118 | the shifted range starts at start, keeps its line span, keeps its width when on one line and keeps its end character otherwise |
| Positions.ShiftRangeBack | denops/denippet/node.ts:99-118 | shifting back to the original start restores the range |
| Positions.ShiftCalcRange | denops/denippet/node.ts:99-118 | shifting the range of a text to a new start equals computing that text's range from the new start |
| Trees.NodeAtChild | denops/denippet/node.ts:229-238 | the node at path + [j] is the j-th child of the node at path |
| Trees.PriorityRanks | denops/denippet/node.ts:224-226 | priority is -1 exactly for a transformed tabstop, 0 for a bare tabstop or an empty placeholder, 1 for a placeholder with children and for a choice |
| Trees.Priority | denops/denippet/node.ts:224-226 | the priority lies in -1..1 and is -1 exactly for a tabstop with a transform |
| Trees.SelectCycles | denops/denippet/node.ts:294-304 | selectNext and selectPrev stay in range, undo each other and wrap at both ends; with no items they give the source's 0 and -1 |
| Trees.NextIndex | denops/denippet/node.ts:294-298 | on an index among the items, selectNext stays among them and wraps to 0 exactly from the last one |
| Trees.PrevIndex | denops/denippet/node.ts:300-304 | on an index among the items, selectPrev stays among them and wraps to the last exactly from 0 |
| Formats.ModifierOnlyForPlainCapture | denops/denippet/node.ts:382-404 | the modifier is irrelevant when the capture is empty or an if-text is set |
| Formats.IfElseChooses | denops/denippet/parser/node.ts:363-385 | `${n:?a:b}` yields a for a non-empty capture and b otherwise, and an empty a lets the capture through |
| Formats.ReplacementAppend | denops/denippet/node.ts:358-362 | the replacement of concatenated format lists is the concatenation of their replacements |
| Formats.LiteralsOnlyReplacement | denops/denippet/node.ts:358-362 | a format list of plain texts replaces with its literal text whatever the captures |
| Formats.GlobalIgnoresFormats | denops/denippet/parser/node.ts:329-333 | with the g flag only the literal text of the formats matters |
| Formats.ApplyTransform | denops/denippet/parser/node.ts:301-303 | a node without a transform shows its text unchanged |
| Generator.ScanFrom | denops/denippet/parser/generator.ts:41-64 | the scan never moves back, goes at most one past the end, stops on a target when inside the input, and yields nothing at the end |
| Generator.ScanFromFacts | denops/denippet/parser/generator.ts:41-64 | the raw text is the scanned slice, holds no unescaped target and unescapes to the esc text; the scan only passes the end after a trailing backslash |
| Generator.EscapePairFacts | denops/denippet/parser/generator.ts:44-55 | a backslash and the character after it are consumed as a pair, and the scan facts extend over the pair |
| Generator.TakeUntilAt | denops/denippet/parser/generator.ts:32-79 | takeUntil fails, at pos, exactly at the end or on an unescaped target; otherwise it consumes to the first unescaped target (or the end), raw is that slice and esc its unescaping |
| Generator.RunTakeUntil | denops/denippet/parser/generator.ts:41-64 | the scanning loop returns what TakeUntilAt specifies |
| Generator.TakeUntilAdvances | denops/denippet/parser/generator.ts:32-79 | takeUntil never moves back and consumes at least one character on success |
| Generator.MapMap | denops/denippet/parser/generator.ts:81-97 | mapping twice equals mapping the composition |
| Generator.MapAdvances | denops/denippet/parser/generator.ts:81-97 | map keeps its parser's guarantees of never moving back and of advancing on success |
| Generator.TokenAt | denops/denippet/parser/generator.ts:105-117 | token(t) succeeds exactly when the input at pos starts with t, and then consumes len(t) characters |
| Generator.TokenAdvances | denops/denippet/parser/generator.ts:105-117 | a non-empty token never moves back and advances on success |
| Generator.RunEnd | denops/denippet/parser/generator.ts:119-132 | the pattern loop stops at the end of the maximal run of characters of the second class |
| Generator.RunEndAt | denops/denippet/parser/generator.ts:119-132 | any end of such a maximal run is where the loop stops |
| Generator.PatternAt | denops/denippet/parser/generator.ts:119-132 | pattern succeeds exactly when the first character at pos is in its first class, and then consumes the maximal run of the second class |
| Generator.PatternAdvances | denops/denippet/parser/generator.ts:119-132 | pattern never moves back and consumes at least one character on success |
| Generator.PatternOnRun | denops/denippet/parser/generator.ts:119-132 | on a run of class characters followed by a non-member the pattern ends exactly there |
| Generator.ManyFrom | denops/denippet/parser/generator.ts:134-160 | the loop never moves back, and collects nothing (staying put) exactly at the end or when the next parse fails or does not advance |
| Generator.ManyAt | denops/denippet/parser/generator.ts:134-160 | many succeeds only before the end and when the first parse succeeds (always then, for an advancing parser), with at least one value, the first parse's value first; failure is at pos |
| Generator.ManyAdvances | denops/denippet/parser/generator.ts:134-160 | many never moves back and consumes input on success, whatever its parser |
| Generator.ManyUnfold | denops/denippet/parser/generator.ts:134-160 | many is its first value followed by many from the next position, when that one succeeds |
| Generator.ManyIgnoresEnd | denops/denippet/parser/generator.ts:134-160 | many depends only on what its parser does from the current position on |
| Generator.ManyAll | denops/denippet/parser/generator.ts:134-160 | every collected value has any property that every successful parse has |
| Generator.ManyStops | denops/denippet/parser/generator.ts:134-160 | for an advancing parser, many stops at the end or exactly where the next parse fails |
| Generator.RunMany | denops/denippet/parser/generator.ts:134-160 | the loop of many returns what ManyAt specifies |
| Generator.OptNoRetreat | denops/denippet/parser/generator.ts:162-171 | opt of a parser that never moves back never moves back |
| Generator.OrFrom | denops/denippet/parser/generator.ts:173-186 | the search succeeds with the first alternative (from k on) that parses |
| Generator.OrAt | denops/denippet/parser/generator.ts:173-186 | or succeeds exactly when some alternative parses, returns the first success unchanged and fails at pos otherwise |
| Generator.OrAdvances | denops/denippet/parser/generator.ts:173-186 | or of advancing alternatives advances |
| Generator.OrFacts | denops/denippet/parser/generator.ts:173-186 | a successful or returns the result of one of its alternatives |
| Generator.OrSkip | denops/denippet/parser/generator.ts:173-186 | an alternative that fails is skipped by the search |
| Generator.OrHit | denops/denippet/parser/generator.ts:173-186 | an alternative that succeeds ends the search with its result |
| Generator.OrPair | denops/denippet/parser/generator.ts:173-186 | or of two alternatives is the first if it parses, else the second |
| Generator.OrTriple | denops/denippet/parser/generator.ts:173-186 | or of three alternatives tries them in order |
| Generator.OrFive | denops/denippet/parser/generator.ts:173-186 | or of five alternatives tries them in order |
| Generator.OrSix | denops/denippet/parser/generator.ts:173-186 | or of six alternatives tries them in order |
| Generator.OrPick | denops/denippet/parser/generator.ts:173-186 | when alternative k parses and all before it fail, or returns alternative k's result |
| Generator.RunOr | denops/denippet/parser/generator.ts:173-186 | the loop of or returns what OrAt specifies |
| Generator.SeqFrom | denops/denippet/parser/generator.ts:188-211 | a successful run from parser k yields one value per remaining parser |
| Generator.SeqAt | denops/denippet/parser/generator.ts:188-211 | a successful seq has one value per parser; a failing one is reported at pos |
| Generator.RunSeq | denops/denippet/parser/generator.ts:188-211 | the loop of seq returns what SeqAt specifies |
| Generator.SeqEmpty | denops/denippet/parser/generator.ts:188-211 | seq of no parsers succeeds with no values at pos |
| Generator.SeqCons | denops/denippet/parser/generator.ts:188-211 | seq of p followed by ps agrees with the pair of p and seq(ps) |
| Generator.SeqFromShift | denops/denippet/parser/generator.ts:188-211 | running [p] + ps from k >= 1 is running ps from k - 1 |
| Generator.Seq2On | denops/denippet/parser/generator.ts:188-211 | with known results of p and q, the pair is their combination |
| Generator.Seq2FailsSecond | denops/denippet/parser/generator.ts:188-211 | a pair fails when q fails where p stopped |
| Generator.Seq2Advances | denops/denippet/parser/generator.ts:188-211 | a pair advances when p advances and q never moves back |
| Generator.Seq2NoRetreat | denops/denippet/parser/generator.ts:188-211 | a pair of parsers that never move back never moves back |
| Grammar.TokensAdvance | denops/denippet/parser/vscode.ts:15-24 | every punctuation token never moves back and consumes input on success |
| Grammar.ClassesAdvance | denops/denippet/parser/vscode.ts:26-28 | the var, int, non-zero-int and flag patterns never move back and consume input on success |
| Grammar.TextOfAdvances | denops/denippet/parser/vscode.ts:30-34 | a text parser never moves back and consumes input on success |
| Grammar.BracedAdvances | denops/denippet/parser/vscode.ts:51-59 | the `${`...`}` wrapper around a parser that never moves back consumes input on success |
| Grammar.DollaredAdvances | denops/denippet/parser/vscode.ts:44-50 | the `$` prefix around a parser that never moves back consumes input on success |
| Grammar.TokenChar | denops/denippet/parser/vscode.ts:15-24 | a one-character token parses exactly when that character is at pos, and consumes it |
| Grammar.DollaredUnfold | denops/denippet/parser/vscode.ts:44-50 | a `$` form parses exactly when `$` is at pos and the inner parser parses after it, with the inner result |
| Grammar.BracedUnfold | denops/denippet/parser/vscode.ts:51-59 | a braced form parses exactly when `${`, the inner parser and `}` follow in turn, ending after the `}` |
| Grammar.IntOn | denops/denippet/parser/vscode.ts:27 | on a run of digits Int yields its decimal value and stops after it |
| Grammar.NonZeroIntOn | denops/denippet/parser/vscode.ts:28 | NonZeroInt reads a run starting with 1-9; a leading 0 fails |
| Grammar.NonZeroIntPositive | denops/denippet/parser/vscode.ts:28 | NonZeroInt's value is at least 1 |
| Grammar.ModifierAdvances | denops/denippet/parser/vscode.ts:60-77 | a modifier name consumes at least one character |
| Grammar.FormatPlainAdvances | denops/denippet/parser/vscode.ts:44-50 | `$n` formats consume input |
| Grammar.FormatModifiedAdvances | denops/denippet/parser/vscode.ts:60-77 | `${n:/modifier}` formats consume input |
| Grammar.FormatIfAdvances | denops/denippet/parser/vscode.ts:78-94 | `${n:+if}` formats consume input |
| Grammar.FormatIfElseAdvances | denops/denippet/parser/vscode.ts:95-116 | `${n:?if:else}` formats consume input |
| Grammar.FormatElseAdvances | denops/denippet/parser/vscode.ts:117-134 | `${n:-else}` formats consume input |
| Grammar.FormatAdvances | denops/denippet/parser/vscode.ts:43-135 | every format alternative consumes input |
| Grammar.SegmentAdvances | denops/denippet/parser/vscode.ts:142 | a format or text inside a transform consumes input |
| Grammar.TransformAdvances | denops/denippet/parser/vscode.ts:137-147 | a transform consumes input |
| Grammar.TabstopAdvances | denops/denippet/parser/vscode.ts:149-176 | a tabstop consumes input |
| Grammar.ChildrenAdvances | denops/denippet/parser/vscode.ts:184 | a placeholder's children consume input |
| Grammar.PlaceholderAdvances | denops/denippet/parser/vscode.ts:178-188 | a placeholder consumes input |
| Grammar.VariableAdvances | denops/denippet/parser/vscode.ts:208-246 | a variable consumes input |
| Grammar.ChoiceItemAdvances | denops/denippet/parser/vscode.ts:196-201 | a choice item consumes input |
| Grammar.ChoiceAdvances | denops/denippet/parser/vscode.ts:190-206 | a choice consumes input |
| Grammar.AlternativesAdvance | denops/denippet/parser/vscode.ts:36-41 | anyWithoutText consumes input when it parses |
| Grammar.AnyAt | denops/denippet/parser/vscode.ts:36-41 | anyWithoutText fails at pos and, on success, advances |
| Grammar.AnyAdvances | denops/denippet/parser/vscode.ts:36-41 | a successful anyWithoutText consumes input, so the recursive grammar terminates |
| Grammar.TopAdvances | denops/denippet/parser/vscode.ts:248-251 | every top-level item consumes input |
| GrammarLaws.GuardedIsAny | denops/denippet/parser/vscode.ts:36-41 | the lazily referenced anyWithoutText used inside a construct agrees with anyWithoutText at every later position |
| GrammarLaws.TopTextIff | denops/denippet/parser/vscode.ts:249 | top-level text parses exactly when a character other than `$` is at pos |
| GrammarLaws.InnerTextIff | denops/denippet/parser/vscode.ts:184 | text inside a placeholder parses exactly when the character is neither `$` nor `}` |
| GrammarLaws.TopTextValue | denops/denippet/parser/vscode.ts:30-34 | top-level text is the unescaped slice up to the next unescaped `$` |
| GrammarLaws.TopItemIff | denops/denippet/parser/vscode.ts:249 | a top-level item parses exactly when the character is not `$` or anyWithoutText parses there |
| GrammarLaws.ParseIff | denops/denippet/parser/vscode.ts:248-251 | a snippet body parses exactly when it is non-empty and its first item parses |
| GrammarLaws.TabstopStart | denops/denippet/parser/vscode.ts:149-176 | a tabstop starts with `$` followed by `{` or a digit |
| GrammarLaws.VariableStart | denops/denippet/parser/vscode.ts:208-246 | a variable starts with `$` followed by `{` or a name start |
| GrammarLaws.AnyAtStart | denops/denippet/parser/vscode.ts:36-41 | anyWithoutText needs `$` followed by `{`, a digit or a name start |
| GrammarLaws.IntStart | denops/denippet/parser/vscode.ts:27 | Int needs a digit at pos |
| GrammarLaws.TabstopPlainStart | denops/denippet/parser/vscode.ts:150-156 | a plain tabstop needs a digit after `$` |
| GrammarLaws.TransformStart | denops/denippet/parser/vscode.ts:137-147 | a transform must start with `/` |
| GrammarLaws.NonZeroIntStart | denops/denippet/parser/vscode.ts:28 | NonZeroInt needs a digit 1-9 at pos |
| GrammarLaws.TabstopPlainForm | denops/denippet/parser/vscode.ts:150-156 | `$n` parses to Tabstop(n) without transform |
| GrammarLaws.TabstopBracedOn | denops/denippet/parser/vscode.ts:157-165 | with the integer and `}` known, `${n}` reads as a braced tabstop |
| GrammarLaws.TabstopBracedForm | denops/denippet/parser/vscode.ts:157-165 | `${n}` parses to Tabstop(n) without transform |
| GrammarLaws.TabstopBracedFailsOnSlash | denops/denippet/parser/vscode.ts:157-165 | `${n/` is not the plain braced tabstop |
| GrammarLaws.TabstopTransformedOn | denops/denippet/parser/vscode.ts:166-175 | with the integer, the transform and `}` known, the transformed tabstop is read |
| GrammarLaws.TabstopTransformedForm | denops/denippet/parser/vscode.ts:166-175 | `${n/re/fmt/flags}` parses to Tabstop(n, Some(transform)) |
| GrammarLaws.FormatCaptureNonZero | denops/denippet/parser/vscode.ts:44-50 | a plain format's capture index is at least 1 |
| GrammarLaws.FormatCaptureNonZeroCompound | denops/denippet/parser/vscode.ts:43-135 | every format form has a capture index of at least 1 |
| GrammarLaws.FormatPlainFails | denops/denippet/parser/vscode.ts:44-50 | `${` never starts a plain format |
| GrammarLaws.FormatBracedFails | denops/denippet/parser/vscode.ts:51-59 | `${n:` is not the braced `${n}` format |
| GrammarLaws.FormatModifiedFails | denops/denippet/parser/vscode.ts:60-77 | `${n:` not followed by `/` is not a modified format |
| GrammarLaws.FormatIfFails | denops/denippet/parser/vscode.ts:78-94 | `${n:` not followed by `+` is not an if-format |
| GrammarLaws.FormatIfElseFails | denops/denippet/parser/vscode.ts:95-116 | `${n:` not followed by `?` is not an if-else format |
| GrammarLaws.FormatCompoundFail | denops/denippet/parser/vscode.ts:60-134 | without `${` and a non-zero integer, none of the modifier, if, if-else and else formats parses |
| GrammarLaws.FormatZeroRejected | denops/denippet/parser/vscode.ts:43-135 | `$0` and `${0` never start a format |
| GrammarLaws.FormatIfForm | denops/denippet/parser/vscode.ts:78-94 | `${n:+if}` parses to Format(n) with that if-text |
| GrammarLaws.IfElseRest | denops/denippet/parser/vscode.ts:95-116 | the tail of `${n:?if:else}` reads the if-text, `:`, the else-text and `}` |
| GrammarLaws.FormatIfElseForm | denops/denippet/parser/vscode.ts:95-116 | `${n:?if:else}` parses to Format(n) with both texts |
| GrammarLaws.FormatElseForm | denops/denippet/parser/vscode.ts:117-134 | `${n:-else}` (or `${n:else}` when else does not start with `/`, `+` or `?`) parses to Format(n) with that else-text |
| GrammarLaws.ModifierNamesExclusive | denops/denippet/parser/vscode.ts:60-77 | at most one modifier name matches at a position |
| GrammarLaws.ModifierOn | denops/denippet/parser/vscode.ts:60-77 | each of the five names parses to its modifier |
| GrammarLaws.FormatModifiedForm | denops/denippet/parser/vscode.ts:60-77 | `${n:/upcase}` and the other modifiers parse to Format(n) with that modifier |
| GrammarLaws.FormatPlainForm | denops/denippet/parser/vscode.ts:44-50 | `$n` parses to Format(n) with nothing else |
| GrammarLaws.FormatBracedForm | denops/denippet/parser/vscode.ts:51-59 | `${n}` parses to Format(n) with nothing else |
| GrammarLaws.OptFlagsOk | denops/denippet/parser/vscode.ts:144 | transform flags, when present, are a non-empty run of `i` and `g` |
| GrammarLaws.TransformTailShape | denops/denippet/parser/vscode.ts:140-146 | after the pattern, a transform reads `/`, at least one format, `/` and its optional flags |
| GrammarLaws.TransformShape | denops/denippet/parser/vscode.ts:137-147 | a transform is `/`, a pattern that is the raw text up to the next unescaped `/`, at least one format, and flags from `i` and `g` |
| GrammarLaws.ChildrenFailAtClose | denops/denippet/parser/vscode.ts:184 | placeholder children fail at `}` when nothing else parses there |
| GrammarLaws.PlaceholderForm | denops/denippet/parser/vscode.ts:178-188 | `${n:children}` parses to Placeholder(n, children), [] when the optional children are absent |
| GrammarLaws.PlaceholderEmpty | denops/denippet/parser/vscode.ts:178-188 | `${n:}` parses to a placeholder without children |
| GrammarLaws.VariableDefaultNeedsChild | denops/denippet/parser/vscode.ts:235-245 | a variable default needs at least one child |
| GrammarLaws.VariableDefaultForm | denops/denippet/parser/vscode.ts:235-245 | `${NAME:children}` parses to a variable whose default has at least one child |
| GrammarLaws.VariableFailsOnEmptyDefault | denops/denippet/parser/vscode.ts:235-245 | `${NAME:}` is not a variable |
| GrammarLaws.GuardedRejectsClose | denops/denippet/parser/vscode.ts:184 | nothing inside a placeholder starts at `}` |
| GrammarLaws.AnyPlaceholderFirst | denops/denippet/parser/vscode.ts:41 | when a placeholder parses, anyWithoutText returns it |
| GrammarLaws.AnyPlaceholderEmpty | denops/denippet/parser/vscode.ts:36-41 | `${n:}` parses as an empty placeholder through anyWithoutText |
| GrammarLaws.IndexedFailOnName | denops/denippet/parser/vscode.ts:149-206 | `${` followed by a name start is not a tabstop, placeholder or choice |
| GrammarLaws.AnyNoAlternative | denops/denippet/parser/vscode.ts:36-41 | anyWithoutText fails when no alternative parses |
| GrammarLaws.AnyEmptyDefaultFails | denops/denippet/parser/vscode.ts:36-41 | `${NAME:}` parses by none of the alternatives |
| GrammarLaws.UnescapeNonEmpty | denops/denippet/parser/generator.ts:44-63 | unescaping a non-empty raw text never gives the empty text |
| GrammarLaws.ChoiceItemIff | denops/denippet/parser/vscode.ts:198 | a choice item parses exactly when the character is neither `,` nor `|` |
| GrammarLaws.ChoiceItemValue | denops/denippet/parser/vscode.ts:196-201 | a choice item is the unescaped text up to the next unescaped `,` or `|` |
| GrammarLaws.ChoiceItemsNonEmpty | denops/denippet/parser/vscode.ts:196-201 | every parsed choice item is non-empty |
| GrammarLaws.ChoiceItemsStop | denops/denippet/parser/vscode.ts:196-201 | the item list stops at the end, at `,` or at `|` |
| GrammarLaws.ChoiceForm | denops/denippet/parser/vscode.ts:190-206 | `${n|a,b|}` parses to Choice(n, items) with at least one item and no empty item |
| GrammarLaws.ChoiceEmptyItemFails | denops/denippet/parser/vscode.ts:196-201 | `${n|` with no item, or with items followed by a `,` that starts no item, is not a choice |
| ParserNode.GetText | denops/denippet/parser/node.ts:201-213 | a jumpable other than a choice shows what the user typed once there is input; text shows itself |
| ParserNode.GetTextHops | denops/denippet/parser/node.ts:201-239 | once a text is defined, more recursion depth gives the same text |
| ParserNode.GetTextAsWritten | denops/denippet/parser/node.ts:198-213 | as written: a transformed tabstop reached through a copy link throws a TypeError |
| ParserNode.AsWrittenAgrees | denops/denippet/parser/node.ts:198-213 | a text the as-written getText returns is the intended text, and an overflow of the intended one throws as written too |
| ParserNode.TransformedMirrorThrows | denops/denippet/parser/node.ts:198-213 | for `$1 ${1/x/y/}` the intended text is defined while the as-written text of the mirror and of the snippet throw |
| ParserNode.JoinTextHops | denops/denippet/parser/node.ts:83-85 | the same for the concatenated text of a child list |
| ParserNode.JoinTextUndefined | denops/denippet/parser/node.ts:83-85 | one child without a text leaves the whole concatenation without one |
| ParserNode.NoTextOnSelfMirror | denops/denippet/parser/node.ts:201-239 | `${1:$1}` (a placeholder mirrored by its own child) has no text: the source overflows its stack |
| ParserNode.LayLeaf | denops/denippet/parser/node.ts:54-64 | updateRange of a leaf stores calcRange(start, text), returns its end, and touches the buffer only when a different range was stored before; without a text it fails with a stack overflow |
| ParserNode.LayNodeFails | denops/denippet/parser/node.ts:54-64 | laying out a node fails only by stack overflow |
| ParserNode.LayChildrenFails | denops/denippet/parser/node.ts:87-96 | laying out children fails only by stack overflow |
| ParserNode.LayNodeFrame | denops/denippet/parser/node.ts:54-64 | the end of a layout does not depend on earlier ranges or lines, and the stored ranges extend the old ones |
| ParserNode.LayChildrenFrame | denops/denippet/parser/node.ts:87-96 | the same for a child list |
| ParserNode.LayNodeKeys | denops/denippet/parser/node.ts:245-251 | a layout stores ranges only at the node and below it, never at a placeholder itself |
| ParserNode.LayChildrenKeys | denops/denippet/parser/node.ts:87-96 | a child-list layout stores ranges only below the parent, from child j on |
| ParserNode.LayNodeStable | denops/denippet/parser/node.ts:54-64 | when the stored ranges already agree, a layout changes neither ranges nor buffer |
| ParserNode.LayChildrenStable | denops/denippet/parser/node.ts:87-96 | the same for a child list |
| ParserNode.LayNodeAgain | denops/denippet/parser/node.ts:54-64 | a second updateRange right after the first changes nothing: layout is idempotent |
| ParserNode.PlaceholderKeepsRange | denops/denippet/parser/node.ts:245-251 | a placeholder's own range is never stored or changed by its layout |
| ParserNode.SnippetKeepsRange | denops/denippet/parser/node.ts:87-96 | the snippet's own range is never stored or changed by laying out its children |
| ParserNode.Tree.constructor | denops/denippet/parser/node.ts:67-81 | a fresh tree has no ranges, inputs, mirror links or choice indices |
| ParserNode.Tree.UpdateInput | denops/denippet/parser/node.ts:118-145 | the node's input becomes the text read from its extmark, if any; nothing else changes |
| ParserNode.Tree.SelectNext | denops/denippet/parser/node.ts:274-279 | only the choice's index changes, to the next index |
| ParserNode.Tree.SelectPrev | denops/denippet/parser/node.ts:281-286 | only the choice's index changes, to the previous index |
| ParserNode.Tree.UpdateNodeRange | denops/denippet/parser/node.ts:54-64 | the method's result, ranges and buffer equal LayNode's |
| ParserNode.Tree.UpdateChildrenRange | denops/denippet/parser/node.ts:245-251 | the method's result, ranges and buffer equal LayChildren's |
| ParserNode.Tree.UpdateRange | denops/denippet/parser/node.ts:87-96 | without a start or a stored range it fails with "Internal error: Node.Snippet.updateRange"; otherwise it lays out the children from the start or the stored start |
| ParserNode.Tree.ExtmarkRange | denops/denippet/parser/node.ts:147-164 | setExtmark succeeds exactly when the node has a range, and uses that range |
| ParserNode.Tree.Jump | denops/denippet/parser/node.ts:171-184 | jump fails without a range, moves the cursor to an empty range, and selects a non-empty one; the buffer's lines are untouched |
| Nodes.VariableValue | denops/denippet/node.ts:320-328 | a variable without a transform shows the provider's value or "" when the variable is unknown |
| Nodes.GetText | denops/denippet/node.ts:210-250 | a jumpable other than a choice shows what the user typed once there is input |
| Nodes.MirrorTabstopText | denops/denippet/node.ts:210-222 | a tabstop mirroring another shows the other's text, untransformed when the text is asked for its own tabstop and transformed otherwise |
| Nodes.GetTextHops | denops/denippet/node.ts:210-250 | more recursion depth does not change a defined text |
| Nodes.JoinTextHops | denops/denippet/node.ts:76-80 | the same for a child list |
| Nodes.SingleLineText | denops/denippet/node.ts:155-167 | a text that splits into one line is that line |
| Nodes.CursorFollowsReplacement | denops/denippet/node.ts:155-167 | a cursor at or after the replaced range ends on the line where the new text ends, at the same offset from its end |
| Nodes.Rewrite | denops/denippet/node.ts:142-173 | rewriting a mirror changes only buffer and cursor, and changes nothing for a node without a copy or a stored range |
| Nodes.LayNodeFrame | denops/denippet/node.ts:53-58 | a layout's end, texts and calls do not depend on earlier ranges, buffer or cursor, and its ranges extend the old ones |
| Nodes.PlaceholderFrame | denops/denippet/node.ts:256-271 | the same for a placeholder |
| Nodes.StoreFrame | denops/denippet/node.ts:53-58 | the same for storing one leaf |
| Nodes.LayChildrenFrame | denops/denippet/node.ts:82-96 | the same for a child list |
| Nodes.LayNodeKeys | denops/denippet/node.ts:256-271 | a successful layout stores the node's own range, and ranges only at or below the node |
| Nodes.LayChildrenKeys | denops/denippet/node.ts:82-96 | a child-list layout stores ranges only below the parent, from child j on |
| Nodes.SnippetStoresRanges | denops/denippet/node.ts:82-96 | a successful snippet layout stores the snippet's range from start to the returned end and a range for every top-level child |
| Nodes.StoredChildren | denops/denippet/node.ts:82-96 | every child from i on has a stored range after a successful layout |
| Nodes.LayNodeNoMirrors | denops/denippet/node.ts:142-173 | without mirrors at or below a node, its layout leaves buffer and cursor as they were |
| Nodes.LayChildrenNoMirrors | denops/denippet/node.ts:142-173 | the same for a child list |
| Nodes.LayNodeUnlaid | denops/denippet/node.ts:142-173 | laying out a node with no range stored at or below it leaves the buffer and the cursor as they are |
| Nodes.LayChildrenUnlaid | denops/denippet/node.ts:82-96 | the same for the children from j on, when none of them has a range yet |
| Nodes.FirstLayoutKeepsBuffer | denops/denippet/node.ts:82-96 | the first layout of a snippet, from no ranges, changes neither the buffer nor the cursor |
| Nodes.CachedGrows | denops/denippet/node.ts:320-328 | a variable's value is cached once, with its call recorded once |
| Nodes.CacheGrowsTrans | denops/denippet/node.ts:320-328 | the cache only grows across steps |
| Nodes.LayNodeCache | denops/denippet/node.ts:320-328 | a layout keeps cached variable texts and calls the provider at most once per variable |
| Nodes.LayChildrenCache | denops/denippet/node.ts:320-328 | the same for a child list |
| Nodes.Tree.constructor | denops/denippet/node.ts:60-74 | a fresh tree has no ranges, inputs, links, indices or cached texts |
| Nodes.Tree.VariableText | denops/denippet/node.ts:320-328 | the first call caches the (transformed) provider value and records the call; later calls return the cache unchanged |
| Nodes.Tree.UpdateInput | denops/denippet/node.ts:127-140 | the given range, else the extmark's, becomes the node's range, and its text becomes the input; with neither it fails with "Internal error: Node.Jumpable.updateInput" |
| Nodes.Tree.SelectNext | denops/denippet/node.ts:294-298 | only the choice's index changes, to the next index |
| Nodes.Tree.SelectPrev | denops/denippet/node.ts:300-304 | only the choice's index changes, to the previous index |
| Nodes.Tree.UpdateJumpableRange | denops/denippet/node.ts:142-173 | the method's result and document equal LayNode's |
| Nodes.Tree.RewriteMirror | denops/denippet/node.ts:148-170 | the buffer and cursor become what Rewrite specifies |
| Nodes.Tree.UpdateNodeRange | denops/denippet/node.ts:53-58 | the method's result and document equal LayNode's |
| Nodes.Tree.UpdateChildrenRange | denops/denippet/node.ts:256-271 | the method's result and document equal LayChildren's |
| Nodes.Tree.UpdateRange | denops/denippet/node.ts:82-96 | without a start or a stored range it fails with "Internal error: Node.Snippet.updateRange"; otherwise the document is the snippet layout from that start |
| Nodes.Tree.Jump | denops/denippet/node.ts:184-196 | jump fails without a range, moves the cursor to an empty range, and selects a non-empty one |
| Mirrors.QueueSizeAppend | denops/denippet/snippet.ts:88-111 | the size of a concatenated queue is the sum of the sizes |
| Mirrors.JumpableFrom | denops/denippet/snippet.ts:95 | children.filter(isJumpable) yields only jumpable items |
| Mirrors.JumpableFromSmaller | denops/denippet/snippet.ts:95 | the enqueued children are smaller than their parent's subtree |
| Mirrors.Enqueued | denops/denippet/snippet.ts:94-96 | the items a node enqueues are smaller than the node, so the walk ends |
| Mirrors.TopFrom | denops/denippet/snippet.ts:85 | the initial queue holds every top-level node that is not text |
| Mirrors.WalkUnfold | denops/denippet/snippet.ts:88-111 | one iteration of the walk: shift the head, push its jumpable children |
| Mirrors.ResolvedSnoc | denops/denippet/snippet.ts:102-110 | resolving one more item is one more step of the link update |
| Mirrors.ResolveMirrors | denops/denippet/snippet.ts:83-111 | the breadth-first loop computes the canonical map and copy links of the specification |
| Mirrors.StepMembers | denops/denippet/snippet.ts:102-110 | every canonical node is a visited jumpable item of its tabstop |
| Mirrors.StepOutranks | denops/denippet/snippet.ts:105-107 | the canonical node has the highest priority among the visited items of its tabstop |
| Mirrors.StepFirst | denops/denippet/snippet.ts:105-109 | among equal priorities the first visited item stays canonical |
| Mirrors.StepCopyMembers | denops/denippet/snippet.ts:102-110 | copy links only go between visited items |
| Mirrors.StepUnlinked | denops/denippet/snippet.ts:102-110 | a canonical node has no copy link |
| Mirrors.StepLinked | denops/denippet/snippet.ts:102-110 | a visited jumpable item has a copy link exactly when it is not canonical |
| Mirrors.StepTargets | denops/denippet/snippet.ts:102-110 | a copy link points to the same tabstop and not to a lower priority |
| Mirrors.StepReach | denops/denippet/snippet.ts:102-110 | following copy links from any item reaches the canonical one within its priority gap |
| Mirrors.ResolvedOk | denops/denippet/snippet.ts:102-110 | all the above hold of the resolved links for items with distinct paths |
| Mirrors.WalkPlaced | denops/denippet/snippet.ts:83-111 | the walk visits each node once, at its own path |
| Mirrors.WalkFromPlaced | denops/denippet/snippet.ts:88-111 | the walk from any reachable queue keeps paths unique and items at their paths |
| Mirrors.JumpableFromChildren | denops/denippet/snippet.ts:95 | the enqueued children are the node's children at their paths |
| Mirrors.TopFromPlaced | denops/denippet/snippet.ts:85 | the initial queue holds top-level nodes at distinct paths |
| Mirrors.ResolutionMeaning | denops/denippet/snippet.ts:83-111 | every canonical node is the first of highest priority for its tabstop, every other jumpable is linked to one of its tabstop, and three link hops from any jumpable reach the canonical one |
| Mirrors.WithinThree | denops/denippet/snippet.ts:102-110 | with priorities from -1 to 1, three hops always suffice |
| Mirrors.Canon | denops/denippet/snippet.ts:83-111 | each canonical node sits at its path in the tree and carries its key as tabstop |
| Mirrors.Least | denops/denippet/session.ts:57-60 | the least key of a non-empty key set |
| Mirrors.LeastExists | denops/denippet/session.ts:57-60 | a non-empty key set has a least element |
| Mirrors.Ascending | denops/denippet/session.ts:57-60 | the session order lists every tabstop once, strictly ascending |
| Mirrors.ZeroLast | denops/denippet/snippet.ts:114-123 | the snippet order lists every tabstop once, sorted by the comparator that puts 0 last |
| Mirrors.ZeroLastIsLast | denops/denippet/snippet.ts:114-123 | when tabstop 0 exists it comes last |
| Mirrors.InOrder | denops/denippet/snippet.ts:123 | mapping entries to nodes keeps the sorted order |
| Snippets.JumpOrder | denops/denippet/snippet.ts:113-123 | the jumpable list holds each canonical node once, sorted with 0 last |
| Snippets.ZeroNotBefore | denops/denippet/snippet.ts:115-122 | tabstop 0 never sorts before another |
| Snippets.KeptIffNonZero | denops/denippet/snippet.ts:141-143 | the instance is kept exactly when some tabstop other than 0 exists |
| Snippets.ZeroIsLast | denops/denippet/snippet.ts:113-123 | with tabstop 0 present, it is the last and only the last |
| Snippets.Snippet.constructor | denops/denippet/snippet.ts:9-17 | a new snippet starts at node 0 with its tree, nodes and outer snippet |
| Snippets.Snippet.Levels | denops/denippet/snippet.ts:159-167 | the chain of this snippet and its outer snippets starts here |
| Snippets.Snippet.CurrentNode | denops/denippet/snippet.ts:147-149 | the current node is one of the jumpable nodes, located in the tree |
| Snippets.Snippet.Jump | denops/denippet/snippet.ts:169-179 | jump moves the index one step when it can and jumps to the new node: the cursor goes to the start of an empty range and stays for a non-empty (selected) one, and a node without a range throws; otherwise it returns false and changes nothing |
| Snippets.Snippet.Choice | denops/denippet/snippet.ts:185-196 | on a choice node the index cycles forward or back and the whole snippet is laid out again from its stored start with the new index (throwing when it has no range); elsewhere nothing changes |
| Snippets.Snippet.Update | denops/denippet/snippet.ts:151-157 | the current node's input becomes the text of its extmark; without an extmark it fails and no range changes |
| Snippets.JumpableSomewhere | denops/denippet/snippet.ts:159-167 | jumpable holds exactly when this snippet or some outer snippet can move that way |
| Snippets.Create | denops/denippet/snippet.ts:19-145 | create fails with "Failed parsing" or a stack overflow before touching the buffer; once the text is inserted the buffer holds the patched lines in every outcome, since the first layout rewrites no mirror; without jumpables it returns no instance; with jumpables it succeeds exactly when the layout from the cursor found before the patch succeeds and gives the first node a range, and otherwise throws the layout's or the jump's error; on success the cursor moves to the first node's range when it is empty and an instance keeps the layout's ranges; an instance is returned exactly when a tabstop other than 0 exists |
| Snippets.Launch | denops/denippet/snippet.ts:136-144 | the buffer, ranges and cache are those of the snippet's layout from the cursor; it succeeds exactly when that layout does and the first node has a range, then the cursor goes to an empty range's start; an instance is returned exactly when the tabstops keep one |
| Snippets.Link | denops/denippet/snippet.ts:81-123 | the new tree carries the resolved mirror links and the jump order of its canonical nodes |
| Snippets.Start | denops/denippet/snippet.ts:136-140 | the layout from the cursor sets buffer, ranges and cache; the jump fails without a range for the first node, else puts the cursor at an empty range's start; input, links and indices are kept |
| Sessions.SessionOrder | denops/denippet/session.ts:57-60 | the session's jumpable list holds each canonical node once, strictly ascending by tabstop |
| Sessions.ZeroIsFirst | denops/denippet/session.ts:57-60 | with tabstop 0 present it comes first in a session |
| Sessions.Session.constructor | denops/denippet/session.ts:6-13 | a new session starts at node 0 |
| Sessions.Session.CurrentNode | denops/denippet/session.ts:81-83 | the current node is one of the jumpable nodes, located in the tree |
| Sessions.Session.Update | denops/denippet/session.ts:85-88 | as written: the input is read, and updateRange() without a start always fails, changing no range |
| Sessions.Session.UpdateFromStart | denops/denippet/session.ts:85-88 | as intended: the input is read and the children are laid out again from the session's start |
| Sessions.Link | denops/denippet/session.ts:26-60 | the tree carries the resolved links and the jumpable list in ascending order |
| Sessions.Launch | denops/denippet/session.ts:62-78 | the line is patched; without jumpables it returns no session; otherwise the children are laid out from the cursor after the patch, and it succeeds exactly when that layout gives the first node a range, else setExtmark throws |
| Sessions.Place | denops/denippet/session.ts:73-78 | the layout from the cursor sets ranges and lines; the first node's extmark is set exactly when the layout gave it a range, and the new session starts at that cursor |
| Sessions.Create | denops/denippet/session.ts:15-79 | as written: create never returns a session |
| Sessions.CreateReturning | denops/denippet/session.ts:15-79 | as intended: a parse failure and an overflowing text throw and leave the buffer; the text is inserted at the cursor; without jumpables it returns no session; with them it succeeds exactly when the layout from the cursor after the insertion gives the first node a range, and then returns a session |
| Indent.OneIndent | denops/denippet/indent.ts:7-19 | a tab without expandtab, otherwise shiftwidth spaces (tabstop spaces when shiftwidth is 0) |
| Indent.BaseIndent | denops/denippet/indent.ts:21-26 | the maximal leading run of JavaScript whitespace of the line |
| Indent.Lines | denops/denippet/indent.ts:44 | splitting on `\n` gives at least one line, none with `\n` |
| Indent.LinesRoundTrip | denops/denippet/indent.ts:44 | joining the lines restores the text |
| Indent.UnlinesRoundTrip | denops/denippet/indent.ts:44 | splitting joined lines restores them |
| Indent.SingleLine | denops/denippet/indent.ts:44 | a text without `\n` is one line |
| Indent.TabRun | denops/denippet/indent.ts:39 | the number of leading tabs of a line |
| Indent.ExpandLeadingTabs | denops/denippet/indent.ts:37-42 | each line's leading tabs become as many copies of one indent, the rest of the line unchanged |
| Indent.IndentRest | denops/denippet/indent.ts:44 | every line but the first is prefixed with the base indent |
| Indent.JoinIndentRest | denops/denippet/indent.ts:44 | replacing `\n` by `\n` + base indent is prefixing every line but the first |
| Indent.AddBaseIndent | denops/denippet/indent.ts:44 | after adding the base indent, the lines are those of IndentRest |
| Indent.LastNewline | denops/denippet/indent.ts:46 | the position of the last `\n`, or -1 when there is none |
| Indent.CollapseBlankJsPlain | denops/denippet/indent.ts:46 | text before the first `\n` is left alone by the blank-line replacement |
| Indent.CollapseBlankJsMerges | denops/denippet/indent.ts:46 | as written: two consecutive blank lines are merged into one |
| Indent.CollapseBlankJs | denops/denippet/indent.ts:46 | the blank-line cleanup only removes characters |
| Indent.MergedText | denops/denippet/indent.ts:46 | the merge as a text equation |
| Indent.BlankLinesBetween | denops/denippet/indent.ts:44-46 | n + 1 newlines between two lines give n blank lines |
| Indent.EmptyLines | denops/denippet/indent.ts:44-46 | joining n empty lines before b gives n newlines before b |
| Indent.ThreeNewlines | denops/denippet/indent.ts:46 | the global match consumes `\n\n\n` as one blank line |
| Indent.ClearBlankLines | denops/denippet/indent.ts:45-46 | as intended: the line count is kept, inner blank lines become empty and all other lines are unchanged |
| Indent.AdjustIndentSingleLine | denops/denippet/indent.ts:28-49 | a one-line body is left unchanged |
| Indent.AdjustIndentIntendedKeepsLines | denops/denippet/indent.ts:28-49 | the corrected adjustIndent keeps the number of lines |
| Indent.Chomp | denops/denippet/indent.ts:58-59 | the flag says the text is char-wise (no trailing `\n`), and the text is the result plus the removed `\n` |
| Indent.ConsideredSnoc | denops/denippet/indent.ts:63-72 | lines considered: all non-empty ones except the first of a char-wise text |
| Indent.ConsideredStep | denops/denippet/indent.ts:63-72 | one forEach step adds the line unless it is empty or the skipped first one |
| Indent.LeastBase | denops/denippet/indent.ts:73-77 | as intended: None exactly when no line is considered |
| Indent.LeastBaseMeaning | denops/denippet/indent.ts:73-77 | as intended: the base is the indent of a considered line and no considered line has a shorter one |
| Indent.AsWrittenSnoc | denops/denippet/indent.ts:75-77 | as written: a line replaces the base when the base is "" or its indent is shorter |
| Indent.LeastSnoc | denops/denippet/indent.ts:73-77 | the least indent updates by taking a shorter one |
| Indent.AsWrittenIsLeastWhenIndented | denops/denippet/indent.ts:73-77 | when every considered line is indented, the source's base is the least indent |
| Indent.AsWrittenForgetsUnindented | denops/denippet/indent.ts:75-77 | as written: after an unindented line the next line's indent wins, though the least indent is "" |
| Indent.AsWrittenPicksALine | denops/denippet/indent.ts:63-78 | the base indent picked as written is "" or the indent of one of the considered lines |
| Indent.StripBase | denops/denippet/indent.ts:80 | each line starting with the base indent loses it; other lines stay; the line count is kept |
| Indent.StripNothing | denops/denippet/indent.ts:80 | an empty base indent leaves the text unchanged |
| Indent.TrimBaseIndent | denops/denippet/indent.ts:51-82 | as written: the result strips the base found by the source's loop |
| Indent.TrimBaseIndentIntended | denops/denippet/indent.ts:51-82 | as intended: the result strips the least indent |
| Indent.PickBase | denops/denippet/indent.ts:63-78 | as written: the loop over the lines ends with the base indent of the considered lines, the first line skipped when charwise and empty lines skipped |
| Indent.PickLeast | denops/denippet/indent.ts:63-78 | as intended: the loop ends with the least indent of the considered lines, or none when no line is considered |
| Indent.TrimOneLine | denops/denippet/indent.ts:51-82 | a one-line text is returned unchanged |
| Variables.LookupAfterRegister | denops/denippet/variable.ts:9-24 | after register(name, cb), call(name) runs cb and other names are unaffected |
| Variables.Registry.constructor | denops/denippet/variable.ts:9 | a fresh registry has no later registrations |
| Variables.Registry.Register | denops/denippet/variable.ts:11-16 | register replaces the name's callback and keeps every other |
| Variables.Registry.Call | denops/denippet/variable.ts:18-24 | call runs the registered callback and yields undefined for an unknown name |
| Variables.LineIndex | denops/denippet/variable.ts:40-43 | TM_LINE_INDEX prints the current line minus 1 |
| Variables.LineNumber | denops/denippet/variable.ts:45-48 | TM_LINE_NUMBER prints the current line |
| Variables.Clipboard | denops/denippet/variable.ts:79-85 | CLIPBOARD yields the default text when the register is not a string |
| Variables.TruncDiv | denops/denippet/variable.ts:154-157 | Math.trunc of a quotient: sign of the dividend and magnitude of the quotient |
| Variables.SecondsUnix | denops/denippet/variable.ts:154-157 | CURRENT_SECONDS_UNIX prints the milliseconds divided by 1000, truncated toward zero |
| Variables.TwoDigits | denops/denippet/variable.ts:165-166 | padStart(2, "0") gives at least two digits, exactly two below 100 |
| Variables.TwoDigitsValue | denops/denippet/variable.ts:165-166 | the padded digits read back as the number |
| Variables.FormatOffset | denops/denippet/variable.ts:160-168 | the sign is `+` for a non-negative offset and `-` otherwise, followed by HH:MM |
| Variables.ClockPieces | denops/denippet/variable.ts:165-167 | HH:MM splits into the padded hours and minutes |
| Variables.ClockRoundTrip | denops/denippet/variable.ts:165-167 | HH:MM reads back as the minutes |
| Variables.OffsetRoundTrip | denops/denippet/variable.ts:160-168 | the printed offset reads back as the offset |
| Variables.TimezoneOffset | denops/denippet/variable.ts:160-168 | CURRENT_TIMEZONE_OFFSET prints the negated getTimezoneOffset |
| Variables.Entry | denops/denippet/variable.ts:199 | `flags:str` splits at the first colon; without a colon str is undefined |
| Variables.EntryOf | denops/denippet/variable.ts:199 | a colon-free flags and str read back from flags:str |
| Variables.LastMarkedNone | denops/denippet/variable.ts:196-204 | with no entry carrying the flag, nothing is found |
| Variables.LastMarkedLast | denops/denippet/variable.ts:196-204 | the last entry carrying the flag wins |
| Variables.ScanComments | denops/denippet/variable.ts:195-203 | the forEach loop finds the last flagged entry's string |
| Variables.BlockCommentStart | denops/denippet/variable.ts:190-205 | for a commentstring not ending in `%s`, the text before `%s` |
| Variables.BlockCommentEnd | denops/denippet/variable.ts:208-223 | for a commentstring not ending in `%s`, the text after `%s`, undefined when there is none |
| Variables.LineComment | denops/denippet/variable.ts:226-232 | the default text when the commentstring does not end in `%s` |
| Variables.HeadPiece | denops/denippet/variable.ts:193 | split(...)[0] is a prefix free of the separator |
| Variables.FirstPlaceholder | denops/denippet/variable.ts:193 | the first `%s` of a + `%s` + b is at len(a) |
| Variables.WrappedDoesNotEnd | denops/denippet/variable.ts:192 | a + `%s` + b with non-empty b does not end in `%s` |
| Variables.WrappedCommentString | denops/denippet/variable.ts:190-232 | for `a%sb`, the start is a, the end is b and LINE_COMMENT is the default |
| Variables.LeadingLineComment | denops/denippet/variable.ts:226-232 | for `a%s`, LINE_COMMENT is a |
| Variables.BlockEndsFromComments | denops/denippet/variable.ts:190-223 | for a commentstring ending in `%s`, the block ends come from the last `s` and `e` entries of 'comments', else the default |
| Variables.BuiltinConstants | denops/denippet/variable.ts:38 | the constant variables print "", "", "", "0" and "1" |
| Variables.BuiltinSelection | denops/denippet/variable.ts:27-30 | a one-line selection is inserted unchanged |
| Variables.BuiltinClipboard | denops/denippet/variable.ts:79-85 | a one-line clipboard is inserted unchanged, the default text when it is not a string |
| Variables.BuiltinLines | denops/denippet/variable.ts:32-48 | TM_CURRENT_LINE, TM_LINE_INDEX and TM_LINE_NUMBER print the line, its index and its number |
| Loader.ToStringLines | denops/denippet/loader.ts:55-57 | a list body joined by `\n` splits back into its lines |
| Loader.KeepMeaning | denops/denippet/loader.ts:82-98 | a snippet without a condition is kept; vimscript/lua conditions need an eval and keep what it returns |
| Loader.Copies | denops/denippet/loader.ts:62-72 | n copies of a list have n times its length |
| Loader.AddAllStored | denops/denippet/loader.ts:62-72 | each filetype's list gains the snippets once per occurrence in the filetype list |
| Loader.AddAllKeys | denops/denippet/loader.ts:62-72 | a filetype has a list exactly when it had one or was in the filetype list |
| Loader.Extension | denops/denippet/loader.ts:105 | the extension holds no dot |
| Loader.LastPieceHasNoDot | denops/denippet/loader.ts:105 | the last piece of a split on `.` holds no dot |
| Loader.ExtensionOf | denops/denippet/loader.ts:105 | the extension of name.ext is ext |
| Loader.Registry.constructor | denops/denippet/loader.ts:60 | the registry starts empty |
| Loader.Registry.SetSnippets | denops/denippet/loader.ts:62-72 | every listed filetype's list gains the snippets |
| Loader.Registry.GetSnippets | denops/denippet/loader.ts:74-99 | the kept snippets of the filetype followed by the kept global ones |
| Loader.Registry.Load | denops/denippet/loader.ts:101-139 | json/toml/yaml and ts files are normalised and stored; another extension fails with "Unknown extension: " + ext and stores nothing |
| Loader.GlobalTwice | denops/denippet/loader.ts:78-81 | asking for filetype `*` yields the global snippets twice |
| Dispatch.CandidatesMeaning | denops/denippet/main.ts:29-30 | a pair is a candidate exactly when some snippet has that prefix and that body |
| Dispatch.BestOfNone | denops/denippet/main.ts:27-33 | no match is found exactly when no prefix ends the text before the cursor |
| Dispatch.BestOfChosen | denops/denippet/main.ts:31-36 | the match is a candidate ending the line, strictly longer than every earlier one and at least as long as every later one |
| Dispatch.SearchSnippet | denops/denippet/main.ts:21-40 | the nested loops find the best match of the text before the cursor |
| Dispatch.CompleteItems | denops/denippet/main.ts:99-109 | an item is produced exactly for a prefix of some snippet, with that snippet's body |
| Dispatch.CompleteItemsFlatMap | denops/denippet/main.ts:101-108 | the items are a flatMap in snippet order: a concatenation gives each part's items in turn, one snippet gives one item per prefix in prefix order, duplicates kept |
| Dispatch.CandidatesAppend | denops/denippet/main.ts:29-30 | the candidates of a concatenation are those of each part in turn |
| Dispatch.Dispatcher.constructor | denops/denippet/main.ts:43 | no session at start |
| Dispatch.Dispatcher.Expandable | denops/denippet/main.ts:58-61 | expandable exactly when some prefix ends the text before the cursor |
| Dispatch.Dispatcher.Expand | denops/denippet/main.ts:63-72 | as intended (over Sessions.CreateReturning): without a match nothing changes; otherwise the prefix is deleted before the cursor and the body is inserted there and laid out; it succeeds exactly when the body parses, its text does not overflow, and either it has no jumpable node or the layout gives the first one a range, and a session exists exactly when the body has a jumpable node |
| Dispatch.Dispatcher.ExpandMatch | denops/denippet/main.ts:70-71 | once a match is found, the outcome of inserting it is stored: the new session on success, the old one kept on failure |
| Dispatch.Dispatcher.ExpandAsWritten | denops/denippet/main.ts:63-72 | as written (over Sessions.Create): every successful expansion leaves no session |
| Dispatch.AfterDelete | denops/denippet/main.ts:70 | deleting n characters before the cursor shortens only the cursor line, by n, keeps what precedes the deleted text and moves the cursor back n |
| Dispatch.Insert | denops/denippet/main.ts:70-71 | after the deletion the body is created in place; without a jumpable node it succeeds with no session, with one it succeeds exactly when the layout gives the first node a range, and a session is returned exactly then |
| Dispatch.KeyIsPrefix | denops/denippet/loader.ts:115-120 | a record without a prefix is a candidate under its key, with its joined body |
| Dispatch.Dispatcher.Jumpable | denops/denippet/main.ts:74-83 | false without a session; forward while not at the last node; backward while not at the first |
| Dispatch.Dispatcher.Choosable | denops/denippet/main.ts:90-92 | true exactly when a session exists and its current node is a choice |
| Dispatch.JumpableSomeWay | denops/denippet/main.ts:74-83 | some direction is jumpable exactly when the session has more than one node |
| Host.Buffer.DeleteBeforeCursor | denops/denippet/main.ts:70 | linePatch(prefix.length, 0, "") deletes the characters before the cursor on its line only, and moves the cursor back |
| Strings.IntToStringRoundTrip | denops/denippet/variable.ts:42 | toString of an integer reads back as that integer |

## Left out

- Regular expressions: `RegexLib` stands for JavaScript's `RegExp`, `replace` and `replaceAll`. The model fixes what
  is replaced and with what, not how matching works. The lookbehind in indent.ts:39 is modelled directly on lines.
- Case conversion (`toUpperCase`, `toLowerCase`, `camelcase`) is the abstract `CaseLib`.
- Editor I/O is given as inputs: buffer contents, the cursor, `linePatch`, extmarks and namespaces, `getline`,
  `getreg`, `expand`, `strftime`, options and `eventignore`. UTF-16 and byte offsets are not distinguished.
- The asynchronous execution of promises is not modelled. Each operation runs to completion in order, with no
  interleaving.
- The variables RANDOM, RANDOM_HEX and UUID depend on randomness, so `Variables.Registry.Call` returns None for them.
- Loading: file reading, JSON/TOML/YAML parsing, dynamic `import` and the vimscript/lua evaluation of `if`
  conditions are inputs. The `base` and `start` keywords and `if` functions are folded into the host's answers.
- snippet.ts:30-79 (`convert`, `convertTransform`, `convertFormat`) only re-creates the parsed tree as second
  generation nodes. `Snippets.Create` therefore takes the parse result directly.
- The outcome of parsing the indent-adjusted body is an input of `Snippets.Create`, `Sessions.Create`,
  `Sessions.CreateReturning` and `Dispatch.Dispatcher.Expand`. Nothing in the model ties it to `Grammar.Parse` of
  `Indent.AdjustIndentIntended`; the parser and the indent adjustment are modelled and proved on their own.
- A variable's text comes from `TextLib.provider`, which is not tied to `Variables.Lookup`. node.ts:322 calls the
  registry without a default text, so in the source every builtin receives `undefined` as its text. The builtins
  that fall back to a default therefore fall back to "" when a snippet uses them.
- parser.ts, extmark.ts and the ddc source are not part of this model.
- Recursion depth: `getText` takes a `hops` bound. A snippet whose mirrors form a cycle yields a stack overflow
  error where the source recurses until the JavaScript stack overflows.
- Some calls do not match their definitions. They are modelled as evidently intended:
  - trimBaseIndent is called with one argument from variable.ts;
  - `getNewline` is imported from util.ts, which does not define it;
  - main.ts calls `getSnippets` synchronously;
  - the first-generation node constructors (parser/node.ts), which parser/vscode.ts calls, are given no editor
    handle, so as written `new N.Tabstop(1)` binds the number to `denops`.
- main.ts:85-97 (`jump`, `choice`) call methods that `Session` does not have.
- main.ts:111-119 (`snippetToString`) only parses and prints.
- main.ts:46-56 (`load`) is the argument check in front of `Loader.Registry.Load`.
- Snippets.Snippet.Update: saving, setting and restoring `eventignore` around the layout is left out.
- Snippets.Snippet.Update: it states the input and the error case, not the resulting ranges.
- Variables.Clipboard: the trimmed register value is stated through `Variables.BuiltinClipboard` for one-line
  registers only.
- ParserNode.GetText: it is the intended text, which runs a mirror's transform. Every caller (LayLeaf, InsertText,
  Launch) uses it, so the model does not show the as-written TypeError of a transformed mirror reaching `create` or
  `updateRange`. `ParserNode.GetTextAsWritten` records that error.
- Dispatch.Dispatcher.Expand: it is built on `Sessions.CreateReturning`, the intended `create`. As written, main.ts:71
  stores the always-undefined result of `create`, and the session stays unset. `Dispatch.Dispatcher.ExpandAsWritten`
  records this. A failed `setExtmark` after the layout is stated as its error and the laid-out lines, not as the
  cursor it leaves.
- Sessions.Launch: the layout of session.ts:73 is not awaited. In the source only the synchronous part runs before
  `setExtmark` at session.ts:78, so only the first top-level child has a range by then. For `foo $1` the source
  throws "Internal error: Node.Jumpable.setExtmark". The model lays the whole snippet out before `setExtmark`.
- Sessions.CreateReturning: the same as Sessions.Launch, whose layout it inherits.
- Variables.SelectedText and Variables.Clipboard: they trim with the corrected base indent (`Indent.TrimmedIntended`),
  as the Findings table prescribes. The source's trimBaseIndent uses the as-written base, so for a register
  `a\n  b\n` it strips "  " where the model strips nothing.
- Variables.Clipboard: the same corrected trim as Variables.SelectedText, applied to the register.
- Grammar.IntOn and Grammar.NonZeroIntOn: they read the digits exactly. `Number()` in the source rounds any value
  above 2^53 to the nearest double.
- Variables.Registry.Call: it only knows the registered and built-in names. The source indexes a plain object, so a
  name inherited from `Object.prototype` such as `toString` calls that inherited function (`toString` gives
  "[object Object]") instead of giving undefined.
- Loader.Registry.SetSnippets and Loader.Registry.GetSnippets: the filetype table is a map with only the keys stored
  in it. The source keeps a plain object, so a filetype named after an `Object.prototype` member such as `toString`
  or `constructor` reads the inherited function: `push` then throws in setSnippets and the spread throws in
  getSnippets.
- Generator.ManyFrom: a success that does not move makes the loop at generator.ts:139-148 run forever. The model
  stops there with the values collected so far. No parser of the grammar does this, since all satisfy `Advances`.
- Snippets.Snippet.Jump: the visual selection of a non-empty range is the `Motion` that `Nodes.Tree.Jump` returns,
  but it is not passed up. Only the cursor outcome is stated.

## Findings

| source | as written | input that shows it | evidently intended | confidence | as-written member | corrected member |
|---|---|---|---|---|---|---|
| denops/denippet/session.ts:15-79 | `create` builds `session` but has no `return session`, so it always resolves to undefined | any body with a tabstop, e.g. `$1` | return the new session | high, not executed | Sessions.Create | Sessions.CreateReturning |
| denops/denippet/session.ts:85-88 | `update` calls `this.snippet.updateRange()` without a start; the first-generation snippet has no stored range, so it throws every time (and the promise is not awaited) | any session, then an edit | lay the snippet out again from its start | high, not executed | Sessions.Session.Update | Sessions.Session.UpdateFromStart |
| denops/denippet/indent.ts:75-77 | once an unindented line sets `baseIndent` to "", the test `baseIndent === ""` lets the next indented line replace it | a linewise text `a\n  b\n` has least indent "" but trims to base "  " | keep the least indent, "" | high, not executed | Indent.AsWrittenForgetsUnindented | Indent.TrimBaseIndentIntended |
| denops/denippet/indent.ts:46 | `/\n\s*\n/g` also consumes the newline of the next blank line, so consecutive blank lines are merged | `a\n\n\nb` becomes `a\n\nb`, which is one line fewer | only clear the indentation of blank lines, keeping their number | high, not executed | Indent.CollapseBlankJsMerges | Indent.ClearBlankLines |
| denops/denippet/parser/node.ts:198-213 | a tabstop keeps `transform.transformer` unbound and calls it as `this.transformer(text)`, so the transform runs with the tabstop as `this`, whose `pattern` is undefined, and reading `flags` throws | `$1 ${1/x/y/}`: once the mirror is linked, `create` asks for the text after the prefix was deleted and throws | run the transform with its own pattern and formats | high, not executed | ParserNode.GetTextAsWritten | ParserNode.GetText |
