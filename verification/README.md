# peg-markdown core, modelled in Dafny

peg-markdown is a Markdown processor. Its parser is generated by `peg`, a
parser generator for parsing expression grammars (PEGs). This project models three sequential parts of
the repository and proves properties of the model.

1. **The `peg` 0.1.4 generator and the runtime it emits** (`peg-0.1.4/compile.c`):
   - the character-class compiler `makeCharClass` with `charClassSet`/`charClassClear`
     (module `CharClass`);
   - the static analysis `consumesInput` (module `Analysis`), and its soundness
     with respect to the generated code (module `Soundness`);
   - the grammar tree, `countVariables`/`defineVariables`, and the diagnostics of
     `Rule_compile_c2` (module `Grammar`);
   - what the code emitted by `Node_compile_c_ko` and `Rule_compile_c2` *does* when
     it runs, with the two literal and class matchers corrected as listed under
     "## Findings": a fuel-bounded matcher over an explicit state of `yypos`, the
     thunk log `yythunks[0..yythunkpos]`, the marks `yybegin`/`yyend` and `yytext`
     (module `Matcher`, with properties in `MatcherFacts`);
   - the runtime from the preamble and footer: `yymatchDot`/`Char`/`String`/`Class`,
     `yyDo`, `yyText`, `yyDone`, `yyCommit`, `yyAccept`, `yyPush`/`yyPop`/`yySet`
     (module `Runtime`), and `YYPARSEFROM` (module `Parse`).
2. **The renderers' string escapers** `print_html_string` (without obfuscation),
   `print_latex_string` and `print_groff_string` (module `Escapes`). Each is modelled
   as the character switch it is, next to a table-driven reference scheme. From
   that scheme a decoder is defined, and the escaper is proved lossless against it.
   Module `Headings` models the heading-level arithmetic of the HTML, LaTeX and groff
   writers.
3. **Tab expansion** `preformat_text` (module `Tabs`), as the loop with its
   `charstotab` counter, against a reference expansion.

In `Tabs` and `Escapes` a Dafny `char` stands for one byte of the C string,
as the C code reads it through `char`.

Grammar actions and semantic predicates are C code foreign to the model:
- an action is an opaque function `act` that takes the call and the value stack and gives back
  the new `yy` and the variable slots; it may write its rule's variables through `yyval[offset]`,
  but the frame pointer `yyval` stays where it was, since only `yyPush` and `yyPop` move it;
- a predicate is an oracle `p(code, yytext)`.

Input is the complete buffer, so `yyrefill` never supplies more input.

Where the design description and the code differ, the model follows the code:
- PeekFor and PeekNot restore `(yypos, yythunkpos)` only on their success paths.
  On failure they jump to the enclosing failure label with the state the element
  left, and an enclosing save point restores it (`MatcherFacts.PeekForZeroWidth`
  speaks about success only).
- A Name that refers to a rule with no definition makes the generated code call
  an undefined `yy_<name>`. Such a parser does not link, so the matcher requires
  every name to be defined (`Grammar.Closed`). Generation itself only reports the
  rule (`Grammar.Diagnose`).
- An Alternate takes one save point on entry and restores it before every later
  arm. The effect is the same as saving before each arm.

## Model

| member | source | states |
|---|---|---|
| CharClass.SetBit | peg-0.1.4/compile.c:33 | after setting the bit of `c`, the membership test accepts `c`, and every other code is accepted exactly when it was before |
| CharClass.ClearBit | peg-0.1.4/compile.c:34 | after clearing the bit of `c`, the test rejects `c`, and every other code is accepted exactly when it was before |
| CharClass.MaskIsShift | peg-0.1.4/compile.c:33-34 | the mask the model uses for a code is `1 << (c & 7)` |
| CharClass.Unescape | peg-0.1.4/compile.c:67-79 | `\a \b \e \f \n \r \t \v` map to control codes, and any other escaped character stands for itself |
| CharClass.Make | peg-0.1.4/compile.c:38-90 | the compiled bitmap accepts a code exactly when the class text denotes it: one of its listed members, escapes and ranges, or, after a leading `^`, any code that is not |
| CharClass.NegationComplements | peg-0.1.4/compile.c:46-57 | a leading `^` gives the exact complement of the bitmap the same body compiles to without it |
| CharClass.EmptyBody | peg-0.1.4/compile.c:46-57 | an empty class sets no bit, and a lone `^` sets all of them |
| CharClass.RangeSyntax | peg-0.1.4/compile.c:59-64 | `x-y` denotes x and every code from x to y inclusive; when y < x it denotes x alone |
| CharClass.DashWithoutStart | peg-0.1.4/compile.c:59 | a `-` with no preceding member is a literal member |
| CharClass.RangeResets | peg-0.1.4/compile.c:59-64 | after a range nothing is left to start another range from, so a following `-` is literal |
| CharClass.TrailingDash | peg-0.1.4/compile.c:59 | a `-` at the end of the body is literal |
| CharClass.EscapeSyntax | peg-0.1.4/compile.c:65-82 | a backslash makes the next character a member after the escape table, and a trailing backslash is literal |
| Analysis.RuleConsumes | peg-0.1.4/compile.c:599-611 | the set of marked rules is the same after the call as before it, and a rule already marked answers false and is reported as possible left recursion |
| Analysis.Consumes | peg-0.1.4/compile.c:613-646 | on a finished walk the set of marked rules is the one it started with: a node's answer leaves no rule marked |
| Analysis.PerKind | peg-0.1.4/compile.c:614-644 | the answers per node kind: Dot and Class consume; Character and String consume iff non-empty; Action, Predicate, PeekFor, PeekNot, Query and Star do not; Plus answers as its element does; Inline and Error abort |
| Analysis.AllConsumeMeaning | peg-0.1.4/compile.c:622-628 | an Alternate consumes iff every arm consumes |
| Analysis.SomeConsumesMeaning | peg-0.1.4/compile.c:630-636 | a Sequence consumes iff some member consumes |
| Analysis.LeftRecursionReported | peg-0.1.4/compile.c:599-602 | on `A <- A 'x' / 'y'` the analysis terminates, reports A once, and leaves nothing marked |
| Analysis.AnalyseRules | peg-0.1.4/compile.c:658-659 | the pass over all rules leaves no rule marked |
| Soundness.MatchSound | peg-0.1.4/compile.c:593-651 | when the analysis says an expression consumes and its code succeeds, `yypos` has strictly advanced; for grammars whose every Alternate has an arm (`WellShaped`), and with literals compared in full (the corrected `yymatchString`, see Findings) |
| Soundness.RuleAnalysisSound | peg-0.1.4/compile.c:658-659 | when the analysis of a rule, with nothing marked, says it consumes, every call of `yy_<rule>` that returns 1 has advanced `yypos`; under the same two conditions as `MatchSound` |
| Soundness.NulLiteralAsWritten | peg-0.1.4/compile.c:421-436 | for `S <- "\0\0" S` the analysis says the literal consumes and reports no left recursion, yet the literal as generated succeeds without moving `yypos`; the corrected literal fails on the same input |
| Grammar.CountVariables | peg-0.1.4/compile.c:242-251 | the count is the length of the variable list |
| Grammar.DefineVariables | peg-0.1.4/compile.c:253-262 | the variables get offsets -1, -2, … in list order: all distinct and within -n..-1 |
| Grammar.Diagnose | peg-0.1.4/compile.c:278-284 | a rule of the list is reported as used-but-undefined iff it has no expression, and as defined-but-unused iff it is defined, not used and not the start rule |
| Grammar.Generate | peg-0.1.4/compile.c:274-311 | generation completes with the diagnostics iff every defined rule contains only node kinds the generator knows; otherwise it stops at such a rule |
| Matcher.Match | peg-0.1.4/compile.c:99-239 | the generated code never moves `yypos` backwards and never changes the log below its entry length, on success or failure |
| Matcher.Literal | peg-0.1.4/compile.c:119-127 | corrected: a Character or String node succeeds iff all its decoded bytes are next in the input, and then advances past exactly them, whichever of `yymatchChar` and `yymatchString` is chosen |
| Matcher.LiteralAsWritten | peg-0.1.4/compile.c:119-127 | a literal whose raw text is longer than one character or escape and whose first decoded byte is NUL succeeds without consuming; a literal with no NUL behaves as the corrected `Literal` |
| MatcherFacts.MarksRefreshText | peg-0.1.4/compile.c:139 | `YY_BEGIN` and `YY_END` first set `yytext` to the span of the marks as they were, then move one mark to `yypos`; they never fail and leave position and log alone |
| Matcher.RuleCall | peg-0.1.4/compile.c:274-306 | the same holds for the rule function `yy_<name>` |
| MatcherFacts.AlternateFirstWins | peg-0.1.4/compile.c:142-160 | the first arm that succeeds decides the Alternate, and no later arm runs |
| MatcherFacts.AlternateRollsBack | peg-0.1.4/compile.c:142-160 | after a failed arm the next arm starts from the entry position and log |
| MatcherFacts.SequenceStopsAtFailure | peg-0.1.4/compile.c:163-166 | a Sequence fails with its first failing member's state |
| MatcherFacts.PeekForZeroWidth | peg-0.1.4/compile.c:168-177 | PeekFor succeeds iff its element does, and then with the entry position and log |
| MatcherFacts.PeekNotZeroWidth | peg-0.1.4/compile.c:179-190 | PeekNot succeeds iff its element fails, and then with the entry position and log |
| MatcherFacts.StarNeverFails | peg-0.1.4/compile.c:206-219 | the repetition loop never fails |
| MatcherFacts.OptionalNeverFails | peg-0.1.4/compile.c:192-219 | Query and Star never fail; Query gives its element's result when the element matches and otherwise succeeds with position and log as on entry; Star whose element matches goes on looping from the element's state, and Star whose element fails at once leaves position and log as on entry |
| MatcherFacts.StarStep | peg-0.1.4/compile.c:206-219 | one turn of the Star loop: after a match of the element it loops again from the element's state; after a failure it succeeds with the state rolled back to the turn's entry; out of fuel stays out of fuel |
| MatcherFacts.PlusFailsOnFirst | peg-0.1.4/compile.c:220-233 | Plus fails iff its first attempt fails |
| MatcherFacts.SafeRuleNeverFails | peg-0.1.4/compile.c:285-300 | a rule rooted at Query or Star never returns 0 |
| MatcherFacts.FailedRuleRestores | peg-0.1.4/compile.c:288-306 | a rule that returns 0 leaves `yypos` and the log as they were on entry |
| MatcherFacts.RuleFrame | peg-0.1.4/compile.c:289-298 | a rule with n variables logs `yyPush n` before its body's entries and `yyPop n` after them |
| MatcherFacts.NameSetsVariable | peg-0.1.4/compile.c:113-117 | a Name bound to the variable at position i logs `yySet` with offset -(i+1) after its rule succeeds |
| MatcherFacts.MatchBalanced | peg-0.1.4/compile.c:113-117 | what any successful match adds to the log moves the value-stack frame pointer by zero overall when flushed |
| Runtime.Do | peg-0.1.4/compile.c:453-464 | `yyDo` appends exactly one entry and changes nothing else |
| Runtime.Restore | peg-0.1.4/compile.c:96-97 | a restore resets position and log to the save point and keeps the marks |
| Runtime.RestoreUndoesDo | peg-0.1.4/compile.c:453-464 | restoring a save point taken just before an action is recorded discards that entry and leaves the state as it was |
| Runtime.MatchDot | peg-0.1.4/compile.c:401-406 | succeeds iff input remains, advancing by one |
| Runtime.DotIsFullClass | peg-0.1.4/compile.c:401-406 | matching `.` agrees with matching the class `[^]` at every position, which accepts every byte |
| Runtime.MatchChar | peg-0.1.4/compile.c:408-419 | succeeds iff the current byte is the given one, advancing by one |
| Runtime.MatchString | peg-0.1.4/compile.c:421-436 | corrected (compares every byte of the literal, see Findings): succeeds iff the literal is next in the input, advancing past it; if the input ends while it is still a prefix of the literal `yypos` is left at the end, and otherwise a failure restores it |
| Runtime.MatchStringAsWritten | peg-0.1.4/compile.c:421-436 | as written: succeeds iff the literal's bytes before its first NUL are next in the input; for a literal without NUL it is the corrected matcher |
| Runtime.CharIsOneByteString | peg-0.1.4/compile.c:119-127 | for a one-byte literal `yymatchChar` and the corrected `yymatchString` behave identically (the one generated for `"\000"` does not, see Findings) |
| Runtime.MatchClass | peg-0.1.4/compile.c:438-451 | corrected (reads the byte unsigned, see Findings): succeeds iff the current byte's bit is set, advancing by one |
| Runtime.MatchClassCorrect | peg-0.1.4/compile.c:130-131 | a Class node accepts the current byte iff the class text denotes it |
| Runtime.YyText | peg-0.1.4/compile.c:466-482 | corrected (grows for the NUL, see Findings): returns the span's bytes and their count (empty for an empty or reversed span), and leaves a buffer with room for the text and its NUL |
| Runtime.DoneRunsLog | peg-0.1.4/compile.c:484-495 | `yyDone` invokes exactly the log's grammar actions, in order, once each, with `begin` as the length when `end` is 0 and the span's text otherwise |
| Runtime.RunThunk | peg-0.1.4/compile.c:488-493 | one log entry: the frame moves by the entry's stack effect (`yyPush` up, `yyPop` down, others not); `yySet` stores `yy` in the slot at frame plus offset and leaves `yy` alone; a grammar action is called once, with the span's text and its length, and its `yy` and slots are what the action leaves |
| Runtime.Done | peg-0.1.4/compile.c:484-495 | the flush appends one call per grammar-action entry of the log and keeps the calls made before it |
| Runtime.DoneFrame | peg-0.1.4/compile.c:523-524 | flushing moves the frame pointer by the log's pushes minus its pops |
| Runtime.Commit | peg-0.1.4/compile.c:497-506 | drops the consumed bytes, rebases the marks, and empties the log |
| Runtime.CommitIdempotent | peg-0.1.4/compile.c:497-506 | committing twice in a row is the same as committing once |
| Runtime.Accept | peg-0.1.4/compile.c:508-521 | accepts iff the caller's save point is 0; a refusal changes nothing and calls nothing; an acceptance calls every logged action once, in log order, moves the frame pointer by the log's pushes minus pops, and then commits |
| Parse.ParseFrom | peg-0.1.4/compile.c:539-560 | a finished parse leaves position 0 and an empty log |
| Parse.AcceptedParse | peg-0.1.4/compile.c:554-560 | a parse that returns 1 runs every action its match logged, in order, once each; the frame pointer is back at the base, and exactly the consumed input is dropped |
| Parse.RejectedParse | peg-0.1.4/compile.c:554-560 | a parse that returns 0 runs no action and drops no input |
| Escapes.HtmlAgrees | markdown_output.c:56-83 | without obfuscation each of `& < > "` becomes its entity and every other character is copied |
| Escapes.Html | markdown_output.c:56-83 | decoding the entities of the output gives back the input: the escaping is lossless |
| Escapes.HtmlNoMarkup | markdown_output.c:58-79 | the output contains no raw `<`, `>` or `"` |
| Escapes.LatexAgrees | markdown_output.c:309-339 | `{ } $ % & _ #` get a backslash; `^ \ ~ \| < >` get their control sequences; every other character is copied |
| Escapes.Latex | markdown_output.c:309-339 | decoding the control sequences of the output gives back the input |
| Escapes.LatexNoActive | markdown_output.c:309-339 | the output contains no raw `~`, `\|`, `<` or `>` |
| Escapes.Groff | markdown_output.c:532-543 | decoding `\e` gives back the input |
| Escapes.GroffLength | markdown_output.c:532-543 | the output is longer than the input by the number of backslashes |
| Escapes.SerialiseAppend | markdown_output.c:309-339 | escaping the concatenation of two texts gives the concatenation of their escapes; the HTML (markdown_output.c:56-83) and groff (markdown_output.c:532-543) loops are the same shape |
| Escapes.SerialiseStopsAtNul | markdown_output.c:309-310 | nothing after the first NUL is printed, by any of the three escapers (markdown_output.c:57 and 533 have the same loop test) |
| Escapes.PlainCopied | markdown_output.c:309-339 | text without special characters is printed unchanged, by any of the three escapers (markdown_output.c:56-83 and 532-543 likewise) |
| Headings.Level | markdown_output.c:188-189 | `key - H1 + 1` is defined exactly for the heading keys, lies in 1..6, and leads back to the key |
| Headings.LevelOfKey | markdown_output.c:642-643 | every level 1..6 comes from exactly one heading key |
| Headings.SectionOpen | markdown_output.c:425-431 | the loop prints a backslash, then `key - H1` copies of `sub`, then `section{` |
| Headings.SectionNames | markdown_output.c:425-431 | H1, H2 and H3 open `\section{`, `\subsection{` and `\subsubsection{` |
| Headings.LatexHeadingOnce | markdown_output.c:425-435 | in the corrected writer, each character of the heading text occurs as often as in the text plus the wrapper |
| Headings.LatexHeadingTwice | markdown_output.c:436-446 | as written, every character of an H4–H6 heading that the wrapper does not contain is printed twice; corrected, once |
| Headings.LatexHeadingPrintedTwice | markdown_output.c:436-446 | as written, the H4 heading `Q` comes out with two `Q`s; corrected, with one |
| Headings.LatexHeadingAsWritten | markdown_output.c:436-446 | as written the LaTeX heading always starts with the corrected output; it is exactly that output iff the level is H1–H3, and for H4–H6 a newline and the text again follow |
| Tabs.PreformatText | markdown_lib.c:12-39 | the output is the tab-expanded text up to the first NUL followed by a blank line, and `len` counts the bytes before it |
| Tabs.NoTabs | markdown_lib.c:22-36 | no tab survives expansion |
| Tabs.ExpandSubstitutes | markdown_lib.c:24-32 | every non-tab character is kept once and in order; each tab becomes a run of spaces |
| Tabs.Widths | markdown_lib.c:25-35 | there is one width per tab, each between 1 and 4 |
| Tabs.TabAligns | markdown_lib.c:21-35 | right after a tab's spaces, the column since the last newline is a multiple of 4 |
| Tabs.TwoByteCharacterTab | markdown_lib.c:22-35 | columns are bytes: after the two bytes of UTF-8 `é` a tab pads with two spaces |
| Tabs.NewlineResets | markdown_lib.c:28-29 | each line expands independently of the lines before it |
| Runtime.ClassIndexAsWritten | peg-0.1.4/compile.c:440-443 | as written, a byte of 0x80 or above gives a bitmap index between -16 and -1 |
| Runtime.ClassIndexOutOfRange | peg-0.1.4/compile.c:440-443 | the byte 0xC3 gives index -8, and no byte of 0x80 or above indexes inside the 32-byte bitmap |
| Runtime.ClassIndexInRange | peg-0.1.4/compile.c:440-443 | read unsigned, every byte indexes inside the bitmap, and ASCII bytes index as before |
| Runtime.GrowAsWritten | peg-0.1.4/compile.c:473-477 | as written, the growth loop only ensures room for `yyleng - 1` bytes |
| Runtime.GrowAsWrittenTooSmall | peg-0.1.4/compile.c:473-480 | with the initial 1024-byte buffer a 1024-byte span is not grown, though `yyleng + 1` bytes are written |
| Runtime.Grow | peg-0.1.4/compile.c:473-480 | the corrected growth leaves room for `yyleng` bytes and the NUL |

## Left out

- Text emission in compile.c is left out: the `fprintf` of C source, `yyl` labels,
  the octal serialisation of the bitmap, and the header, preamble and footer layout.
  The model describes what the emitted code does instead.
- `yyprintf` tracing is left out; it only writes to stderr.
- Refilling and `realloc` are left out: `yyrefill`/`YY_INPUT`, and the growth of
  `yythunks` and `yybuf`. The input is the complete buffer. Only the size
  arithmetic of `yytext` is kept, because it carries a finding.
- The bound of `yyvals` is left out. It is allocated with 32 slots and never
  grown: `yyPush` only moves `yyval`, with no check. A flush whose open frames
  need more than 32 slots writes past the array. The model's value stack is an
  unbounded map, so it does not show that overflow.
- Action and predicate bodies are foreign C code: an action is the parameter
  `act`, a predicate the oracle `p`.
- The `YY_BEGIN`/`YY_END` predicates are recognised by their text instead of
  being evaluated as C. Like every predicate they run after
  `yyText(yybegin, yyend)`, as generated.
- Soundness.MatchSound: holds for the corrected literal matcher only. With
  `yymatchString` as written, a literal whose raw text is longer than one
  character and whose decoded bytes start with NUL succeeds without consuming,
  while the analysis says it consumes (see Findings). It also assumes every
  Alternate has at least one arm (`Grammar.WellShaped`). The grammar builders
  that guarantee this are not part of this model.
- Soundness.RuleAnalysisSound: the same two conditions as `MatchSound`.
- Matcher.Match: runs are bounded by `fuel`. A computation that does not finish
  within the bound is `OutOfFuel`, so non-termination of a grammar's parser is
  not modelled beyond that outcome. Literals and classes go through the
  corrected matchers (`Matcher.Literal`, `Runtime.MatchClass`), not the code as
  written: a literal whose C string ends early at a NUL (`yymatchString`) and a
  class tested against a byte of 0x80 or above (`yymatchClass` reading a
  signed `char`) behave as the Findings rows for compile.c:421-436 and
  compile.c:440-443 correct them. Predicates are oracles without side effects.
  So `YYACCEPT` (`yyAccept(yythunkpos0)`) in a predicate's code, which flushes
  the log and commits the buffer in the middle of a match, is not modelled.
- The Rule node kind as an expression is not modelled. The generator exits on it
  with internal error #1; the grammar tree keeps rules in their own `Rule` record.
- Variable offsets are assigned by `defineVariables` only for rules that have
  actions. The model gives every Name's variable its positional offset -(i+1),
  which is the value `defineVariables` would assign.
- Grammar builder functions (`makeRule`, `findRule` and the operand stack) have
  no bodies in the available headers. The grammar is taken as given.
- The renderers' element walk is left out: `padded`/`pad`, the note and list
  state, `printf` side effects, and reparsing through `markdown()`. Only the
  escapers and the heading arithmetic are modelled.
- The `rand()`-based obfuscation of `print_html_string` is left out; it is
  randomness.
- Headings.LatexHeadingAsWritten: the padding that `pad` prints between the two
  copies depends on the global `padded` flag. It is modelled as one newline, the
  value it takes right after a heading sets `padded = 0`.
- Tabs.PreformatText: each `char` is one byte of the C string, so the columns
  are counted in bytes. A multi-byte UTF-8 character counts as several columns,
  as in the C: after `é` (two bytes) a tab gives two spaces, not three. The same
  reading holds for `Tabs.TabAligns` and `Tabs.Widths`, and for
  `Escapes.Serialise`, whose special characters are all ASCII, so multi-byte
  characters are copied byte for byte.
- Escapes.LatexNoActive: `^` is not in the set of characters that never appear
  raw, because its own replacement `\^{}` contains it.
- markdown.c, parsing_functions.c, bufopen.c and the GLib glue of markdown_lib.c
  are left out: they are I/O, memory release and stream plumbing.

## Findings

| source | as written | input that shows it | evidently intended | confidence | as-written member | corrected member |
|---|---|---|---|---|---|---|
| peg-0.1.4/compile.c:440-443 | `c= yybuf[yypos]` reads a plain `char`, which is signed on common platforms, and then indexes `bits[c >> 3]` | the byte 0xC3, the lead byte of UTF-8 `é`, gives c = -61 and index -8, before the 32-byte bitmap | read the byte as `unsigned char`, giving index 0..31 | not executed | Runtime.ClassIndexOutOfRange | Runtime.MatchClass |
| peg-0.1.4/compile.c:473-480 | the growth loop stops once `yytextlen >= yyleng - 1`, but the copy and the NUL write `yyleng + 1` bytes | `yytextlen` = 1024 and a 1024-byte span: no growth, then `yytext[1024] = 0` writes one byte past the buffer | grow until `yytextlen >= yyleng + 1` | not executed | Runtime.GrowAsWrittenTooSmall | Runtime.YyText |
| peg-0.1.4/compile.c:421-436 | `yymatchString` walks `while (*s)`, so it compares only the literal's bytes before the first NUL, while `consumesInput` (line 617) counts the whole raw text | `S <- "\0\0" S`: the raw text is four characters, so the literal compiles to `yymatchString`, which returns 1 without moving `yypos`; the analysis says the literal consumes and reports no left recursion, so `yy_S` calls itself at the same position | compare the literal by its length, as `yymatchChar('\0')` already does for a one-escape literal | not executed | Matcher.LiteralAsWritten | Matcher.Literal |
| markdown_output.c:436-446 | the LaTeX case for H4–H6 has no `break`, so it falls into the PLAIN case and prints the heading's children a second time | an H4 heading `Q` prints `\noindent\textbf{Q}`, a newline, then `Q` | end the case with `break`, as the H1–H3 case does | not executed | Headings.LatexHeadingPrintedTwice | Headings.LatexHeadingOnce |
