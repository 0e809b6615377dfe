# inform7-parser core in Dafny

This project models three parts of the inform7-parser repository as pure Dafny functions over immutable values, and proves properties of them.

- **The lexer.** This covers the `State` cursor over the source text, the `Tokenizer` that turns Inform 7 text into a list of tokens, and the `Token` and `TokenType` value types.
  - `State` is a record. `Advance` returns whether it moved, together with the next state.
  - `Tokenize` is a recursive function over the states. It returns the token list, or the error a `SyntaxException` carries (message, line, column).
  - The lexer produces Word, Punctuation, Newline, Indent and Dedent tokens, nested `[...]` comments, quoted strings with `[...]` variable segments, and `(- ... -)` Inform6 blocks.
- **The backtracking matcher.**
  - `Rule` and `RuleGroup` are one datatype.
  - `Match` is a list of token groups plus an ordered list of name bindings. The bindings model the `Dictionary`, which never removes a name, so its enumeration order is insertion order.
  - `Matcher.Match` is the exhaustive search that splits a token list into one contiguous group per rule.
  - The source reads `tokens[tokenOffset]` and `rules[ruleOffset]` unchecked. A branch that runs past either end therefore makes the whole call fail, modelled as `MatchFailure.ArgumentOutOfRange`.
- **Three list helpers of the parser:** `FilterComments`, `SplitSentences` and `StringBuilder`.

## Modules

| module | file | contents |
|---|---|---|
| `Outcomes` | outcomes.dfy | `Option` and `Result` |
| `Chars` | chars.dfy | .NET white-space and letter/digit classes, `String.Trim`, decimal rendering of `int`, `String.Join` |
| `Tokens` | tokens.dfy | `TokenType`, `Token`, the `Value` stand-in for `object`, `Equals`, `GetHashCode` (with explicit 32-bit wrap-around), `ToString` |
| `Cursor` | cursor.dfy | `State` and reference definitions of line, column and indentation computed from the text alone |
| `TokenStream` | token_stream.dfy | what a well-formed token stream looks like: the shape of each kind, an automaton over kinds, rendering back to text |
| `Lexer` | lexer.dfy | the readers and the main loop of `Tokenize` |
| `LexerFacts` | lexer_facts.dfy | what each reader produces |
| `LexerLoop` | lexer_loop.dfy | what `Tokenize` produces |
| `LexerStrings` | lexer_strings.dfy | where a string and its variables close, its literal runs and variable words read verbatim, and failure on the first construct left open |
| `Rules` | rules.dfy | `Rule`, `RuleGroup`, their constructors, `ToString` and reading it back |
| `Matches` | matches.dfy | `Match` with its indexer, `SetName`, `Add`, `Duplicate`, `Equals`, `ToString` |
| `Matching` | matcher.dfy | the matcher's constructor, `Match` with its `Recurse`, and `MatchRule` |
| `MatcherFacts` | matcher_facts.dfy | soundness, completeness, failure and order of the search |
| `Sentences` | sentences.dfy | `FilterComments`, `SplitSentences`, `StringBuilder` |

## Modelled as written

- A string variable's contents are split on white space only. They are not read with the word reader.
- The Inform6 close search starts on the opening dash. The input `(-)` asks `Substring` for a negative length, which is modelled as `LexError.ArgumentOutOfRange`.
- The column step follows the code: after leaving a tab, the column is raised by one and then by `4 - column % 4`. A tab at column 3 therefore moves the next column to 8.
- A pattern ending in a repeatable rule fails whenever that rule could take a token before the last one. The branch that closes the group and moves on to the next rule (grammar/Ast/Matcher.cs:75-76) then reads `rules[Count]` while tokens remain (`MatcherFacts.RepeatingLastOverruns`).
- The matcher never records capture names, so every result has an empty binding list (`MatcherFacts.MatchFinds`). grammar-test/Ast/MatcherTest.cs:136-153 expects bindings that grammar/Ast/Matcher.cs:52-77 never sets.

## Model

| member | source | states |
|---|---|---|
| Tokens.TypeName | grammar/Tokens/TokenType.cs:7-22 | Enum.ToString gives every kind a non-empty name without commas or double quotes |
| Tokens.TypeNameInjective | grammar/Tokens/TokenType.cs:7-22 | distinct kinds have distinct names |
| Tokens.OrdinalInjective | grammar/Tokens/TokenType.cs:7-22 | distinct kinds have distinct underlying integers, so the kind term of the hash tells kinds apart |
| Tokens.Token.Equals | grammar/Tokens/Token.cs:23-30 | Equals(Token) is false for null and otherwise true exactly when surface, line, column and kind all agree |
| Tokens.Token.EqualsObject | grammar/Tokens/Token.cs:32-35 | Equals(object) is true exactly for a Token equal to this one; null and non-Token objects give false |
| Tokens.EqualsReflexive | grammar/Tokens/Token.cs:23-30 | every token equals itself |
| Tokens.EqualsSymmetric | grammar/Tokens/Token.cs:23-30 | a equals b exactly when b equals a |
| Tokens.Wrap32 | grammar/Tokens/Token.cs:39-44 | unchecked Int32 arithmetic: the result is an Int32 congruent to the exact value modulo 2^32 |
| Tokens.Token.HashCode | grammar/Tokens/Token.cs:37-45 | the hash is an Int32 congruent modulo 2^32 to the fold 23, then `*31 +` surface hash, line, column and kind |
| Tokens.HashAgreesWithEquals | grammar/Tokens/Token.cs:37-45 | equal tokens hash equally, whatever the runtime's string hash is |
| Tokens.ToStringInjective | grammar/Tokens/Token.cs:47-50 | `Token[<Type>, Line=<l>, Column=<c>, Surface="<s>"]` loses no field: distinct tokens render differently |
| Tokens.Token.ToString | grammar/Tokens/Token.cs:47-50 | the rendering opens with `Token[` and ends with the surface's closing quote and `]` |
| Chars.IntToStringRoundTrip | grammar/Tokens/Token.cs:49 | the decimal rendering of the line and column reads back as the same integer |
| Chars.IntToStringInjective | grammar/Tokens/Token.cs:49 | distinct integers render differently |
| Cursor.Init | grammar/Tokens/State.cs:20-54 | a fresh state keeps the text and has position -1, line 0, column -1, indentation 0, character NUL, and peeks at the first character or NUL for empty text |
| Cursor.State.Character | grammar/Tokens/State.cs:40 | the character under the cursor, and NUL whenever the position is outside the text |
| Cursor.State.Peek | grammar/Tokens/State.cs:45 | the next character, and NUL whenever the position is at or past the last index |
| Cursor.State.Indentation | grammar/Tokens/State.cs:35 | for a non-negative raw indentation the level is the raw count divided by four and rounded up: raw <= 4·level < raw + 4 |
| Cursor.State.Advance | grammar/Tokens/State.cs:72-111 | moves exactly when the position is before the last index, and then by exactly one; otherwise nothing changes. The line rises by one exactly when the character left is a line break (LF, or CR without LF after it), and the column is then 0. Otherwise the column rises, by exactly one unless a tab is left, and the indentation stays |
| Cursor.State.Reset | grammar/Tokens/State.cs:59-65 | the result is the fresh state over the same text |
| Cursor.ResetRestoresInit | grammar/Tokens/State.cs:59-65 | after any number of steps, Reset gives back the fresh state |
| Cursor.CsRem | grammar/Tokens/State.cs:79 | C#'s truncating `%` agrees with the mathematical remainder on non-negative operands |
| Cursor.CsDiv | grammar/Tokens/State.cs:35 | C#'s truncating `/` agrees with the mathematical quotient on non-negative operands |
| Cursor.IndentStep | grammar/Tokens/State.cs:95-102 | every leading white-space character raises the running indentation by one to four, and a tab lands it on a multiple of four |
| Cursor.LeadingIndent | grammar/Tokens/State.cs:88-103 | the look-ahead scan over a line's leading white space never lowers the running total |
| Cursor.TracksAdvance | grammar/Tokens/State.cs:76-103 | one step keeps line, column and indentation equal to the line-break count, the tab-expanded width and the leading indentation that the reference definitions compute from the text |
| Cursor.InitSteps | grammar/Tokens/State.cs:72-111 | after m steps a fresh cursor stands at index m-1, or at the last character once m exceeds the text, where it stays |
| Cursor.StepsInvariant | grammar/Tokens/State.cs:72-111 | after any number of steps from a fresh cursor, position, line, column and indentation are those the reference definitions give |
| Cursor.ReachableFacts | grammar/Tokens/State.cs:72-111 | every reachable state has -1 <= position <= max(-1, last index), and its line equals the number of line breaks before the position |
| Cursor.AdvanceAtEnd | grammar/Tokens/State.cs:72-111 | Advance returns false exactly on the last character and keeps returning false |
| Cursor.StepsLineMonotone | grammar/Tokens/State.cs:82-86 | the line never decreases |
| Cursor.InputEndTracks | grammar/Tokens/State.cs:72-111 | the state on the last character has the line and column the reference definitions give that character |
| Lexer.Tokenize | grammar/Tokens/Tokenizer.cs:10-17 | empty text yields no tokens |
| Lexer.NewlineMark | grammar/Tokens/Tokenizer.cs:19-23 | one Newline token with empty surface, column 0 and the current line exactly when the line is above the last one reported |
| Lexer.Mark | grammar/Tokens/Tokenizer.cs:30-39 | at most one mark: Indent or Dedent exactly when the line's level differs from the last level reported, with empty surface and column 0 |
| Lexer.AtEnd | grammar/Tokens/Tokenizer.cs:130 | a reader that runs off the text throws a syntax error with its own message |
| Lexer.PendingSpan | grammar/Tokens/Tokenizer.cs:151-154 | a pending literal or variable word is emitted exactly when it is not empty |
| Lexer.WordEnd | grammar/Tokens/Tokenizer.cs:89-95 | the word loop stops on the last word character of a maximal run of letters, digits and apostrophes |
| Lexer.ReadWord | grammar/Tokens/Tokenizer.cs:75-100 | one span from the character: Punctuation for a character that is not a letter or digit, otherwise a Word up to the reader's last index |
| Lexer.ReadComment | grammar/Tokens/Tokenizer.cs:102-131 | one Comment span from the `[` to a closing `]`, or the "Unterminated comment" failure |
| Lexer.ReadString | grammar/Tokens/Tokenizer.cs:133-179 | spans opening with QuotesStart at the `"` and ending on a `"`, or the "Unterminated string literal" failure |
| Lexer.ReadInform6Block | grammar/Tokens/Tokenizer.cs:224-244 | one Inform6 span ending on a `-)`, or the negative-length or "Unterminated Inform6 Block" failure |
| Lexer.ReadAt | grammar/Tokens/Tokenizer.cs:41-71 | the selected reader's spans lie in the text from the character on, and only `[`, `"` or `(` can select a reader that fails |
| Lexer.Dispatch | grammar/Tokens/Tokenizer.cs:41-71 | the reader's last state is reached from the cursor by advancing over the same text; an error is ArgumentOutOfRange or names an unterminated construct |
| Lexer.PlaceOne | grammar/Tokens/Tokenizer.cs:75-244 | every reader's token takes its span's kind and the span's text, trimmed between the delimiters for an Inform6 block |
| Lexer.Loop | grammar/Tokens/Tokenizer.cs:17-72 | on the last character the loop ends with no more tokens |
| LexerFacts.ReadWordFacts | grammar/Tokens/Tokenizer.cs:75-100 | a letter or digit starts one Word over the longest run of word characters; any other character is one Punctuation token |
| LexerFacts.WordHasNoWhiteSpace | grammar/Tokens/Tokenizer.cs:85-99 | a word holds no white space |
| Lexer.CommentScan | grammar/Tokens/Tokenizer.cs:109-128 | the comment loop stops on a closing bracket |
| LexerFacts.CommentScanFacts | grammar/Tokens/Tokenizer.cs:109-128 | the comment loop stops on the first bracket that brings the depth back to zero, and fails exactly when no prefix balances |
| LexerFacts.ReadCommentFacts | grammar/Tokens/Tokenizer.cs:102-131 | a comment is one Comment token over the shortest balanced run from its `[`; it fails with the unterminated-comment message exactly when no run balances |
| TokenStream.BalancedDelimiters | grammar/Tokens/Tokenizer.cs:104-125 | a balanced comment opens with `[` and closes with `]` |
| Lexer.StringScan | grammar/Tokens/Tokenizer.cs:143-176 | the string loop stops on a double quote, and its spans lie in the text |
| Lexer.VariableScan | grammar/Tokens/Tokenizer.cs:191-219 | the variable loop stops on a closing bracket, and its spans lie in the text |
| Lexer.ReadStringVariables | grammar/Tokens/Tokenizer.cs:181-222 | a string variable ends on its closing bracket |
| LexerFacts.ReadStringFacts | grammar/Tokens/Tokenizer.cs:133-179 | a string opens with QuotesStart at its `"`, reads as one complete string of the stream (non-empty literal runs, and closed variables of words), ends on the closing `"`, and fails only with the unterminated-string message; which `"` closes it and how its literals are cut is `LexerStrings.ReadStringExact` |
| Lexer.Inform6Scan | grammar/Tokens/Tokenizer.cs:232-241 | the Inform6 loop stops where `-)` starts |
| LexerFacts.Inform6ScanFacts | grammar/Tokens/Tokenizer.cs:232-241 | the Inform6 loop stops at the first `-)` after its start, and fails exactly when none follows |
| LexerFacts.ReadInform6BlockFacts | grammar/Tokens/Tokenizer.cs:224-244 | a block is one Inform6 token up to the first `-)` after the `(`; it fails with the range error exactly for `(-)` and with the unterminated message exactly when no `-)` follows |
| Chars.TrimFacts | grammar/Tokens/Tokenizer.cs:237 | Trim keeps a run of the text after its leading white space, leaves no white space at either end, and drops only white space |
| Chars.TrimIdempotent | grammar/Tokens/Tokenizer.cs:237 | trimming twice trims once |
| Chars.LetterOrDigitIsNotWhiteSpace | grammar/Tokens/Tokenizer.cs:77-79 | a character that starts a word is never white space |
| LexerFacts.ReadAtFacts | grammar/Tokens/Tokenizer.cs:41-71 | whatever reader the character selects cuts the run it consumes into tokens; a failure names an unterminated construct or is the empty block |
| LexerFacts.DispatchFacts | grammar/Tokens/Tokenizer.cs:41-71 | the placed tokens of the selected reader spell its run; a syntax error carries the line and column of the text's last character |
| LexerFacts.CutsSpell | grammar/Tokens/Tokenizer.cs:41-71 | a reader's tokens render the run they consume, white space aside, and read well from outside a string and right after a mark alike |
| LexerLoop.LoopForms | grammar/Tokens/Tokenizer.cs:17-72 | the loop's tokens form a well-formed stream of well-shaped tokens |
| LexerLoop.LoopSpells | grammar/Tokens/Tokenizer.cs:17-72 | the loop's tokens render the rest of the text, white space aside; that literals keep their white space verbatim and words are whole runs is `LexerStrings.LoopVerbatim` |
| LexerLoop.LoopLines | grammar/Tokens/Tokenizer.cs:17-23 | the loop's Newline tokens come on strictly increasing lines above the last one reported |
| LexerLoop.LoopErrors | grammar/Tokens/Tokenizer.cs:17-72 | a failure of the loop is explained by an unterminated construct at the end of the text or an empty Inform6 block |
| LexerLoop.LoopSucceeds | grammar/Tokens/Tokenizer.cs:41-71 | words and punctuation alone never fail |
| LexerLoop.TokenizeForms | grammar/Tokens/Tokenizer.cs:10-73 | a successful run yields a well-formed stream: every token has its kind's shape, strings and their variables are closed, two literal runs never touch, and every Indent or Dedent is followed directly by the token it announces (so none ends the stream) |
| LexerLoop.TokenizeSpells | grammar/Tokens/Tokenizer.cs:10-73 | the tokens of a successful run render the text, white space aside; that literals keep their white space verbatim and words are whole runs is `LexerStrings.TokenizeVerbatim` |
| LexerLoop.TokenizeLines | grammar/Tokens/Tokenizer.cs:17-23 | Newline tokens come on strictly increasing lines, from the second line to the last |
| LexerLoop.TokenizeErrors | grammar/Tokens/Tokenizer.cs:102-244 | a failed run names an unterminated comment, string, variable or Inform6 block, at the line and column of the text's last character, or the text holds `(-)`; the converse, for the first construct that opens, is `LexerStrings.TokenizeFailsOpen` |
| LexerLoop.InitExplains | grammar/Tokens/Tokenizer.cs:10-73 | an error explained from a fresh cursor is stated in terms of the text alone |
| LexerLoop.TokenizeSucceeds | grammar/Tokens/Tokenizer.cs:41-71 | a text with no `[`, `"` or `(` is always tokenized |
| LexerStrings.VariableClose | grammar/Tokens/Tokenizer.cs:191-219 | reference definition: the first `]` after the index, or None exactly when no `]` follows |
| LexerStrings.StringClose | grammar/Tokens/Tokenizer.cs:143-176 | reference definition: the first `"` after the index outside every variable, which is always a `"` of the text |
| LexerStrings.VariableScanCloses | grammar/Tokens/Tokenizer.cs:191-219 | the variable loop fails exactly when no `]` follows, and otherwise stops on the first one |
| LexerStrings.VariableScanKinds | grammar/Tokens/Tokenizer.cs:191-219 | the variable loop emits only Words before the StringVariableEnd mark of its `]` |
| LexerStrings.VariableScanWords | grammar/Tokens/Tokenizer.cs:191-217 | the variable loop cuts each white-space separated run into one Word that starts after the `[` or white space, holds no white space or `]`, and ends before one; every other character is white space |
| LexerStrings.VariableShape | grammar/Tokens/Tokenizer.cs:181-222 | a variable fails exactly when no `]` follows its `[`; otherwise it reads as its opening mark at the `[`, its Words and its closing mark at the first `]`, with no literal, each Word a whole white-space separated run, and every character between the brackets that is not white space inside a Word |
| LexerStrings.JoinedIsOneWord | grammar/Tokens/Tokenizer.cs:191-217 | for `"[ab]"`, any spans shaped as its variable hold the one Word `ab`, so the shape rules out cutting it as `a` and `b` |
| LexerStrings.StringScanCloses | grammar/Tokens/Tokenizer.cs:143-176 | the string loop stops exactly on the reference closing quote, and fails exactly when there is none |
| LexerStrings.StringScanShape | grammar/Tokens/Tokenizer.cs:143-176 | the string loop's spans leave no character out between the variables, cut each literal as a whole run from a `"` or `]` to the next `[` or `"`, and each variable Word as a whole white-space separated run |
| LexerStrings.ReadStringExact | grammar/Tokens/Tokenizer.cs:133-179 | ReadString fails exactly when the string never closes; otherwise it ends on the reference closing quote, from QuotesStart to QuotesEnd with no gap outside the variables, each literal a whole run and each variable Word a whole white-space separated run |
| LexerStrings.SpaceBetweenVariables | grammar-test/Tokens/TokenizerTest.cs:133-149 | `"[a] [b]"` reads as its two variables with the one-space literal between them, the test's case with shorter words |
| LexerStrings.ReadAtRuns | grammar/Tokens/Tokenizer.cs:41-71 | whatever reader is selected, its literals are whole runs, its Words are maximal plain words or whole variable words, and only `[`, `"` or `(` can fail |
| LexerStrings.DispatchVerbatim | grammar/Tokens/Tokenizer.cs:41-71 | every placed StringLiteral token's surface is the verbatim text of a whole literal run, and every Word token's that of a maximal plain word or a whole variable word |
| LexerStrings.LoopVerbatim | grammar/Tokens/Tokenizer.cs:17-72 | every StringLiteral and Word token the loop emits is the verbatim text of a whole run |
| LexerStrings.TokenizeVerbatim | grammar/Tokens/Tokenizer.cs:10-73 | every StringLiteral token of a successful run has as its surface the text of some whole run between a `"` or `]` and the next `[` or `"`, and every Word token that of some maximal run of word characters or some whole white-space separated run of a variable; which run of the text a token came from is not tied to its line and column |
| LexerStrings.WordStops | grammar/Tokens/Tokenizer.cs:75-100 | a word or punctuation mark read from a plain character stops before the next `[`, `"` or `(` |
| LexerStrings.LoopFailsAt | grammar/Tokens/Tokenizer.cs:17-72 | when nothing between the cursor and a failing reader opens a construct, the loop fails with that reader's error |
| LexerStrings.TokenizeFailsAt | grammar/Tokens/Tokenizer.cs:10-73 | when the first `[`, `"` or `(` of the text starts a reader that fails, the run fails with that reader's error |
| LexerStrings.TokenizeFailsOpen | grammar/Tokens/Tokenizer.cs:102-244 | a first construct left open fails the run: an unclosed string, an unbalanced comment or a block with no `-)` with its message, and `(-)` with ArgumentOutOfRange |
| TokenStream.RunConcat | grammar/Tokens/Tokenizer.cs:10-73 | reading a concatenated stream reads the first part and then the second from where the first ended |
| TokenStream.RenderAllConcat | grammar/Tokens/Tokenizer.cs:10-73 | rendering a concatenated stream renders each part |
| Rules.OfType | grammar/Ast/Rule.cs:41 | a Rule of the kind with no surface, not repeatable, no name, except kind Unknown |
| Rules.WithSurface | grammar/Ast/Rule.cs:43 | a Rule of the kind and surface, not repeatable, no name, except kind Unknown |
| Rules.WithSurfaceNamed | grammar/Ast/Rule.cs:45 | a Rule of the kind, surface and name, not repeatable, except kind Unknown |
| Rules.Repeating | grammar/Ast/Rule.cs:47 | a Rule of the kind and repeat flag, no surface, no name, except kind Unknown |
| Rules.RepeatingNamed | grammar/Ast/Rule.cs:49 | a Rule of the kind, repeat flag and name, no surface, except kind Unknown |
| Rules.Optional | grammar/Ast/Rule.cs:60-65 | a RuleGroup holding exactly the given rules in order, of kind Unknown, not repeatable, unnamed |
| Rules.GroupString | grammar/Ast/Rule.cs:16-32 | a non-empty group renders as `RuleGroup[` plus its members' strings joined by `, ` plus `]` |
| Rules.EmptyGroupString | grammar/Ast/Rule.cs:16-32 | the empty group's cut of two characters eats into its own header: `RuleGrou]` |
| Rules.RuleString | grammar/Ast/Rule.cs:16-105 | a Rule renders as `Rule[` … `]` and a non-empty group as `RuleGroup[` … `]`; every rendering ends with `]` |
| Rules.KindNamedTypeName | grammar/Ast/Rule.cs:72 | a kind's name parses back to the kind and holds no `]` |
| Rules.ParseRuleStringRoundTrip | grammar/Ast/Rule.cs:67-105 | a Rule's string reads back as its kind, surface, repeat flag, name, and the except kind when the wanted kind is Unknown, provided surface and name hold no double quote |
| Rules.RuleStringInjective | grammar/Ast/Rule.cs:67-105 | two such Rules with the same string agree on every field it shows |
| Matches.AddToLast | grammar/Ast/Matcher.cs:62 | the token joins the last group; nothing else changes |
| Matches.NameSlot | grammar/Ast/Match.cs:12 | the slot of a name is its first binding, or the end of the list |
| Matches.SetName | grammar/Ast/Match.cs:48-51 | the name is bound to the index, every other name keeps its binding, no group changes, and no name is bound twice |
| Matches.AddNamed | grammar/Ast/Match.cs:53-57 | fails exactly when the name is already bound; otherwise the group is appended and the name bound to its index, other names unchanged |
| Matches.LookupAfterSetName | grammar/Ast/Match.cs:34-51 | after SetName, the name looks up the group at its index (a range error outside the groups); other names look up what they did |
| Matches.LookupAfterAddNamed | grammar/Ast/Match.cs:34-57 | after Add, the name looks up the new group; other names keep their lookup, except one already bound to the new index |
| Matches.Lookup | grammar/Ast/Match.cs:34-46 | null exactly when no binding carries the name; a group found is one of the Match's groups; with distinct names, any binding of the name decides the result: its group, or ArgumentOutOfRange for an index outside the list |
| Matches.Duplicate | grammar/Ast/Match.cs:18-32 | the copy has the same groups |
| Matches.RebindAppends | grammar/Ast/Match.cs:26-29 | replaying distinct bindings onto the copy appends them in order |
| Matches.DuplicateIsCopy | grammar/Ast/Match.cs:18-32 | the copy has the same groups and the same bindings in the same order, so it equals the original |
| Matches.Equals | grammar/Ast/Match.cs:64-103 | true exactly when the other Match is not null and has the same groups and the same binding list |
| Matches.MatchStringSmall | grammar/Ast/Match.cs:105-108 | no group renders as `[]`, one group as its spaced surfaces in brackets |
| Matches.MatchStringAppend | grammar/Ast/Match.cs:105-108 | one more group adds `] [`, its surfaces and `]` |
| Matches.SpacedAppend | grammar/Ast/Match.cs:105-108 | one more token in a group adds a space and its surface |
| Matches.MatchString | grammar/Ast/Match.cs:105-108 | the rendering is bracketed, and is `[]` for no groups |
| Matching.Present | grammar/Ast/Matcher.cs:25-31 | the rules of the array, in order, exactly when none is null |
| Matching.NewMatcher | grammar/Ast/Matcher.cs:13-36 | fails with ArgumentNull exactly on a null first rule, a null array or a null element; otherwise holds the first rule and then the others, in order |
| Matching.Matcher.Match | grammar/Ast/Matcher.cs:38-48 | null tokens give ArgumentNull and an empty list gives an Argument error |
| Matching.Satisfies | grammar/Ast/Matcher.cs:87-100 | a Rule is satisfied exactly by tokens of its kind and, when it names a surface, of that surface; a RuleGroup exactly by Unknown tokens |
| Matching.SatisfiesIgnoresExcept | grammar/Ast/Matcher.cs:87-100 | the except kind a Rule carries does not change what it matches |
| Matching.Recurse | grammar/Ast/Matcher.cs:52-77 | fails only with ArgumentOutOfRange; every match found keeps its branch's closed groups and holds one group per rule; from an unnamed branch every match is unnamed |
| Matching.Step | grammar/Ast/Matcher.cs:63-76 | the same three facts for the step after a token joined the branch |
| MatcherFacts.MatchStarts | grammar/Ast/Matcher.cs:79-82 | a non-empty list starts the search on the first token and rule with one empty group |
| MatcherFacts.FlattenConcat | grammar/Ast/Matcher.cs:62-76 | flattening a concatenation of groupings flattens each part |
| MatcherFacts.SearchSteps | grammar/Ast/Matcher.cs:54-62 | a branch whose token satisfies its rule continues with the token added to the open group |
| MatcherFacts.StepParts | grammar/Ast/Matcher.cs:63-76 | a step fails with the first failing child; otherwise the results of the copy that keeps the group open come before those of the branch that moves on |
| MatcherFacts.SearchErrs | grammar/Ast/Matcher.cs:52-77 | a search from a branch fails, and only with ArgumentOutOfRange, exactly when an index is already past the end or some continuation of the branch overruns |
| MatcherFacts.SearchFinds | grammar/Ast/Matcher.cs:52-77 | a successful search returns exactly the unnamed partitions that continue its branch |
| MatcherFacts.SearchOrders | grammar/Ast/Matcher.cs:69-76 | a successful search returns its results in discovery order |
| MatcherFacts.SortedDistinct | grammar/Ast/Matcher.cs:69-76 | results in discovery order are pairwise distinct |
| MatcherFacts.OverrunsFromStart | grammar/Ast/Matcher.cs:54-55 | some continuation of the initial branch overruns exactly when some grouping overruns the lists |
| MatcherFacts.MatchFails | grammar/Ast/Matcher.cs:52-77 | on a non-empty list the call fails, and only with ArgumentOutOfRange, exactly when there are no rules or some grouping that fits the rules uses up one list before the other |
| MatcherFacts.MatchFinds | grammar/Ast/Matcher.cs:52-85 | a successful call returns exactly the partitions of the tokens, one non-empty group per rule, singletons for non-repeatable rules, each token satisfying its group's rule, concatenating to the input, with no name bound |
| MatcherFacts.MatchOrders | grammar/Ast/Matcher.cs:69-76 | a successful call lists its results so that extending a repeatable group comes first, and lists each partition once |
| MatcherFacts.RepeatingLastOverruns | grammar/Ast/Matcher.cs:54-55 | one repeatable Word rule over two words fails with ArgumentOutOfRange |
| Sentences.FilterComments | grammar/Ast/Parser.cs:111-120 | the result holds no Comment and is no longer than the input |
| Sentences.FilterConcat | grammar/Ast/Parser.cs:111-120 | filtering a concatenation filters each part, so the order of kept tokens is preserved |
| Sentences.FilterSingle | grammar/Ast/Parser.cs:111-120 | a single token is kept exactly when it is not a Comment |
| Sentences.FilterCounts | grammar/Ast/Parser.cs:111-120 | every non-Comment token is kept as often as it occurs, and every Comment is gone |
| Sentences.FilterNoComments | grammar/Ast/Parser.cs:111-120 | a list without comments passes unchanged |
| Sentences.FilterIdempotent | grammar/Ast/Parser.cs:111-120 | filtering twice filters once |
| Sentences.DropNewlines | grammar/Ast/Parser.cs:127-130 | the tokens kept hold no Newline |
| Sentences.SplitFrom | grammar/Ast/Parser.cs:124-144 | every emitted sentence is non-empty, an open list begins the first one, and there is at most one sentence per token besides the open list |
| Sentences.SplitSentences | grammar/Ast/Parser.cs:122-145 | every sentence is non-empty, and there are no more sentences than tokens |
| Sentences.SplitFromWell | grammar/Ast/Parser.cs:124-144 | from an open list, the loop emits non-empty sentences with no Newline, a terminator only last, and one at the end of every sentence but the last |
| Sentences.SplitFromKeeps | grammar/Ast/Parser.cs:124-144 | laid end to end, the emitted sentences hold the open list and then the remaining tokens without Newline |
| Sentences.SplitSentencesFacts | grammar/Ast/Parser.cs:122-145 | SplitSentences emits well-split sentences whose concatenation is the input without Newline tokens |
| Sentences.WellSplitUnique | grammar/Ast/Parser.cs:122-145 | two well-split lists with the same tokens are equal |
| Sentences.SplitSentencesUnique | grammar/Ast/Parser.cs:122-145 | SplitSentences is the only well-split list of the input's tokens without Newline |
| Sentences.ColonDoesNotSplit | grammar/Ast/Parser.cs:134 | a `:` Punctuation between two words leaves them in one sentence |
| Sentences.StringBuilder | grammar/Ast/Parser.cs:186-205 | None when the token at the offset does not open a string, and Some whenever it opens one that closes; otherwise the tokens from the offset up to, not including, the first later QuotesEnd, or the `Unclosed string` syntax error at the opening token's line and column exactly when no QuotesEnd follows; an offset outside the list is a range error |

## Left out

- Character classes: `Char.IsWhiteSpace` follows the documented .NET set. `Char.IsLetterOrDigit` is exact below U+0100 and false above it, because the Unicode category tables are not part of this model.
- Text is a sequence of Unicode scalar values, while a C# string is a sequence of UTF-16 code units. For text above U+FFFF the positions, columns and substring lengths differ, and the source emits one Punctuation token per surrogate where the model emits one per character. The model is exact for text within the Basic Multilingual Plane.
- VariableScan: its own contract states only the closing `]` and that its spans lie in the text. That it cuts the variable into whole white-space separated Words is stated about it by `LexerStrings.VariableScanWords`, which sits in a later module.
- ReadStringVariables: its own contract states only the closing `]` and that its spans lie in the text. The white-space split into Words, the first `]` and the failure are stated about it by `LexerStrings.VariableShape`, which sits in a later module.
- LexerStrings.TokenizeFailsOpen: states that an unclosed construct fails the run only for the first `[`, `"` or `(` of the text. A construct left open after earlier complete ones also fails the run (`LexerLoop.TokenizeErrors` gives the other direction), but no lemma follows the loop across those earlier constructs to show it.
- String hashing is runtime-defined, so `Tokens.Token.HashCode` takes the surface's hash as a parameter.
- `Match.GetHashCode` is reference-based and is not modelled.
- Null strings are not modelled, except where the code checks for them (surface and name are `Option`).
- A null rule inside `Optional` is not modelled.
- `Tokenize` enumerates lazily with `yield`, and its null check is deferred. The model is a total function on a string: a failing run returns only the error, and the tokens yielded before the throw are not kept.
- Integers are unbounded except in the hash fold, where the 32-bit wrap-around is explicit. Line and column counters cannot overflow in the model.
- `Duplicate` copies each group list so that changing the copy leaves the original alone. Values here are immutable, so that aliasing question does not arise; `Matches.DuplicateIsCopy` states the copy's contents.
- Matches.AddNamed: on a name that is already bound, the source appends the group before `Dictionary.Add` throws. The model returns only the error, not the half-updated Match. Its message is the runtime's: `DuplicateKeyMessage` is the .NET Framework text, and .NET Core appends `. Key: ` and the name.
- Lexer.PlaceOne: each token takes the line and column of the cursor on its first character, but this is not restated as a lemma relating every token's position to the reference line and column definitions.
- `StringBuilder` takes `offset` by `ref` but never assigns it, so the model returns no new offset.
- `Parser.Parse`, `HeaderParser`, `TitleBuilder`, `DumpNode`, `TokenWalker`, `Node`, `BinaryNode` and `ISubParser` are not part of this model. They are glue over node classes and a string pattern constructor that the repository does not define, and `DumpNode` uses reflection.
- Matching does no optional-group expansion, no wildcard or except-kind matching and no case folding, because the code does none.
