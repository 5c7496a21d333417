# SPDX license-expression validation (composer/spdx-licenses)

A Dafny model of the core of composer/spdx-licenses. The library says whether a string is a valid SPDX license expression, checked against two tables: license identifiers and license-exception identifiers. It also answers metadata lookups over those tables. The repository has two independent validators with the same public surface:

- **`SpdxLicense`** (src/SpdxLicense.php) has a hand-written tokenizer.
  - The `$next` closure tries an ordered table of nine patterns at the current offset.
  - A state machine over `$open`, `$with`, `$require` and `$lastop` consumes the tokens.
  - It is modelled imperatively. `SpdxLicenseLexer.Lexer` holds the input and the closure's offset, and its `Next` method walks the pattern table with a loop.
  - `SpdxLicense.IsValidLicenseString` is the token loop. Each pass calls `SpdxLicense.Advance`, the body of the `switch`.
  - Both are proved against pure reference functions: `TokensFrom`/`Scan` for the lexer, and `Step`/`Run`/`Accepts` for the state machine.
  - `SpdxLicenseProperties` proves what every accepted string looks like:
    - at most one parenthesised group, and a balanced one;
    - a group exactly when there is an operator;
    - one operator spelling throughout;
    - `NONE`/`NOASSERTION` standing on their own;
    - every `lic` token a known license id once its trailing `+` are dropped, or a known exception id after a `WITH`;
    - an operator or a `WITH` between any two operands, except after a `LicenseRef-` read while a `WITH` was pending;
    - an operand before every operator, with no other operator in between.
- **`SpdxLicenses`** (src/SpdxLicenses.php) states its grammar as the recursive PCRE `DEFINE` block of lines 236-272.
  - Module `SpdxLicenses` writes each named group as a predicate over strings. The predicates are parameterised by the set `L` of strings `licenseid` matches and the set `E` of strings `licenseexceptionid` matches. `SpdxLicenses.Alternation` builds each set from a table, as the pattern reads it under its `x` flag. `preg_quote` leaves whitespace unescaped, and `x` mode skips it, so each id stands for itself with its blanks left out (`SpdxLicenses.PatternText`). An empty table gives only the empty string, which the empty alternation matches.
  - Module `SpdxLicensesParser` is a deterministic left-to-right recognizer. It is proved sound for all tables, and complete for "sane" tables, where no identifier is empty or holds whitespace or a parenthesis. Every bundled SPDX identifier satisfies that.
  - Module `SpdxLicensesLaws` derives laws about families of invalid strings. It also proves, for all strings, that `NONE` and `NOASSERTION` are valid only as the whole expression.
  - Module `SpdxLicensesExamples` states the valid and invalid expressions of tests/SpdxLicensesTest.php as lemmas.
  - The two validators accept different languages; `(MIT)` and mixed `and`/`or` are examples. So the test expectations are stated only about the grammar.
  - Module `SpdxLicenseDifferences` lexes three such strings token by token and proves that the state machine accepts them while the grammar rejects them. The `wi` case sets `$with` whatever came before (src/SpdxLicense.php:294-296), and an exception id passes the operand check (src/SpdxLicense.php:303-306). So `WITH Autoconf-exception-2.0`, `NONE WITH Autoconf-exception-2.0` and `WITH LicenseRef-1 Autoconf-exception-2.0` are accepted. This is a reading of the source.
- **Shared pieces.** Both classes carry identical copies of the lookups (lines 64-160) and of the argument normalisation of `validate` (lines 168-186). They are modelled once, in modules `Store` and `Normalize`; the table below cites the copy in src/SpdxLicense.php.
  - The two JSON tables are constructor-supplied values, `Store.IdentifierStore`. Each is an ordered key list plus a map, because `foreach` follows insertion order.

On one point the code and the tests disagree. tests/SpdxLicensesTest.php:158-159 expects the text URL at position 2 of the metadata tuple and `false` at position 3. The code appends the URL after the stored triple `[name, osi, deprecated]`. The model follows the code, with named fields in place of positions.

## Model

| member | source | states |
|---|---|---|
| Store.LicenseTextUrlRoundTrip | src/SpdxLicense.php:71 | the identifier can be read back from its license-text URL, so distinct identifiers have distinct URLs |
| Store.ExceptionTextUrlRoundTrip | src/SpdxLicense.php:95 | the same for the exception-text URL |
| Store.GetLicenseByIdentifier | src/SpdxLicense.php:64-74 | null exactly for an unknown id; otherwise the stored name, OSI and deprecation flags, plus `https://spdx.org/licenses/<id>.html#licenseText` |
| Store.GetExceptionByIdentifier | src/SpdxLicense.php:88-98 | null exactly for an unknown id; otherwise the stored name plus the `#licenseExceptionText` URL |
| Store.IsOsiApprovedByIdentifier | src/SpdxLicense.php:129-132 | the stored OSI flag of a known license; falsy for an unknown id |
| Store.IsValidLicenseIdentifier | src/SpdxLicense.php:141-146 | true exactly when the id occurs among the license table's keys, which is exactly when the lookup finds it |
| Store.IsValidExceptionIdentifier | src/SpdxLicense.php:155-160 | the same for the exception table |
| Store.GetIdentifierByName | src/SpdxLicense.php:107-120 | the first license in table order with that full name; else the first such exception, but only when no license has the name; null exactly when no entry has it |
| Normalize.JoinOr | src/SpdxLicense.php:175 | reference definition: `implode(' OR ', $license)` |
| Normalize.NormalizeArgument | src/SpdxLicense.php:170-183 | a non-string element in an array gives "Array of strings expected"; a non-array non-string gives "Array or String expected"; a string passes unchanged; `[]` gives `""`; a one-element array gives its element |
| Normalize.NormalizePair | src/SpdxLicense.php:175 | a two-string array becomes `(a OR b)` |
| Normalize.NormalizeAppend | src/SpdxLicense.php:175 | each further string adds ` OR x` inside the parentheses |
| SpdxLicenseLexer.TokensFrom | src/SpdxLicense.php:238-263 | reference definition: the tokens the `$next` closure returns from an offset until it returns null at the end of the input |
| SpdxLicenseLexer.Scan | src/SpdxLicense.php:245-262 | reference definition: the `foreach` over the pattern table, where the first pattern matching exactly at the offset gives the token and the offset moves past its text |
| SpdxLicenseLexer.Tokens | src/SpdxLicense.php:238-239 | reference definition: the closure's tokens from offset 0 |
| SpdxLicenseLexer.RunLength | src/SpdxLicense.php:232-234 | a greedy repetition takes the longest run of class characters |
| SpdxLicenseLexer.MatchAt | src/SpdxLicense.php:245-255 | the match of a pattern that starts exactly at the offset is non-empty and inside the input |
| SpdxLicenseLexer.SpaceOrAnyMatches | src/SpdxLicense.php:234-235 | `\s+` or the catch-all `.` matches at every offset, so the "at least the last pattern" exception is unreachable |
| SpdxLicenseLexer.ScanEmpty | src/SpdxLicense.php:245-262 | the walk over the pattern table from position i yields nothing exactly when no pattern from i on matches |
| SpdxLicenseLexer.ScanFirst | src/SpdxLicense.php:245-257 | the token found is the match of a pattern at or after i, its text is the input at the offset, and the later tokens start right after it |
| SpdxLicenseLexer.ScanSkipped | src/SpdxLicense.php:249-254 | every pattern tried before the winning one fails at the offset |
| SpdxLicenseLexer.ScanYields | src/SpdxLicense.php:245-262 | inside the input the walk always yields a token |
| SpdxLicenseLexer.NextToken | src/SpdxLicense.php:238-263 | null exactly at the end of the input; otherwise a non-empty token whose text is the input at the offset |
| SpdxLicenseLexer.NextTokenMatches | src/SpdxLicense.php:245-257 | the token is the match of the first pattern in declared order that matches exactly at the offset |
| SpdxLicenseLexer.TokensFromNext | src/SpdxLicense.php:255-257 | the token sequence from an offset is the next token followed by the tokens from its end |
| SpdxLicenseLexer.ScanAt | src/SpdxLicense.php:245-257 | when the patterns before position i fail and the one at i matches, that one gives the token |
| SpdxLicenseLexer.TokensCoverInput | src/SpdxLicense.php:241-257 | the token texts spell out the input exactly, each is non-empty, and there are at most as many tokens as characters |
| SpdxLicenseLexer.MatchHasNoParen | src/SpdxLicense.php:229-234 | no pattern except `\(`, `\)` and `.` matches text holding a parenthesis |
| SpdxLicenseLexer.LicenseRefHasNoParen | src/SpdxLicense.php:232 | a `LicenseRef-\d+` match holds no parenthesis |
| SpdxLicenseLexer.LicHasNoParen | src/SpdxLicense.php:233 | a `lic` match holds no parenthesis |
| SpdxLicenseLexer.TokenParens | src/SpdxLicense.php:226-236 | a token holds one `(` exactly when it is `po`, one `)` exactly when it is `pc`, and none otherwise |
| SpdxLicenseLexer.Lexer.constructor | src/SpdxLicense.php:238-239 | a fresh lexer reads the given input from offset 0 |
| SpdxLicenseLexer.Lexer.Next | src/SpdxLicense.php:238-263 | returns the reference next token and advances the offset by exactly its length |
| SpdxLicense.Step | src/SpdxLicense.php:271-328 | reference definition: one branch of the `switch` on a token as a function of the four locals, None where the branch returns false |
| SpdxLicense.Operand | src/SpdxLicense.php:315-320 | reference definition: the `lir:` label, which admits an operand only where one is required and then clears `require` |
| SpdxLicense.Run | src/SpdxLicense.php:270-329 | reference definition: the `while` loop as steps over the token sequence, stopping at the first refused token |
| SpdxLicense.Final | src/SpdxLicense.php:331 | reference definition: the final check, `open` even and neither an operand nor an exception pending |
| SpdxLicense.Accepts | src/SpdxLicense.php:224-332 | reference definition: the run over the tokens of the string from the initial locals ends in a final state |
| SpdxLicense.RTrimPlus | src/SpdxLicense.php:311 | `rtrim($s, '+')`: the longest prefix that does not end in `+`, with only `+` removed |
| SpdxLicense.VerdictCons | src/SpdxLicense.php:270-331 | the verdict on a token list is one step, then the verdict on the rest |
| SpdxLicense.VerdictNext | src/SpdxLicense.php:270 | from an offset, the verdict is the step on the next token, then the verdict from after it |
| SpdxLicense.Advance | src/SpdxLicense.php:271-328 | one pass of the `switch`, including the `goto lir` and the fall-through, is the reference step, or `return false` where the step fails |
| SpdxLicense.IsValidLicenseString | src/SpdxLicense.php:224-332 | the loop returns exactly the reference verdict: every token is admitted, and at the end `open` is even with no operand or `WITH` pending |
| SpdxLicense.Validate | src/SpdxLicense.php:168-186 | a normalisation exception is passed on unchanged; otherwise the verdict on the normalised string |
| SpdxLicenseProperties.ParenTokensOfInput | src/SpdxLicense.php:227-228 | the input has as many `(` as `po` tokens and as many `)` as `pc` tokens |
| SpdxLicenseProperties.ParenTokens | src/SpdxLicense.php:227-228 | the same from any offset |
| SpdxLicenseProperties.RunSplit | src/SpdxLicense.php:270-329 | running over a token list is running over a prefix and then over the rest |
| SpdxLicenseProperties.RunOpen | src/SpdxLicense.php:272-286 | `open` only grows, 0 to 1 on the single `(` and 1 to 2 on the single `)`; run from a state with nothing open, every operator token and every `)` token has a `(` token before it |
| SpdxLicenseProperties.RunLastop | src/SpdxLicense.php:279-291 | the first operator is kept in `lastop` and every admitted operator equals it; run from a state with no operator yet, every `)` token has an operator token before it |
| SpdxLicenseProperties.AcceptedRun | src/SpdxLicense.php:331 | an accepted string runs to a final state with `open` 0 or 2 |
| SpdxLicenseProperties.AcceptedParensBalanced | src/SpdxLicense.php:272-283 | an accepted string has at most one `(` and as many `)` as `(` |
| SpdxLicenseProperties.AcceptedOperatorIffGroup | src/SpdxLicense.php:273-290 | an accepted string has an operator exactly when it has a parenthesised group |
| SpdxLicenseProperties.AcceptedSingleOperator | src/SpdxLicense.php:288-291 | all operators of an accepted string are the same string; `and` never mixes with `or`, nor `or` with `OR` |
| SpdxLicenseProperties.RunBlank | src/SpdxLicense.php:297-301 | only whitespace can come before the state in which `NONE` is admitted |
| SpdxLicenseProperties.RunSettled | src/SpdxLicense.php:297-321 | after `NONE` only whitespace, `WITH` and exception ids are admitted |
| SpdxLicenseProperties.NoneStandsAlone | src/SpdxLicense.php:297-321 | in an accepted string `NONE`/`NOASSERTION` has only whitespace before it, and after it only whitespace, `WITH` and exception ids |
| SpdxLicenseProperties.RunIdsKnown | src/SpdxLicense.php:302-318 | every admitted `lic` token is a known license id after `rtrim($s, '+')`, or a known exception id with a `WITH` pending at the start or a `wi` token before it; `$with` is set at the end of a run only if it was set at the start or the run holds a `wi` token |
| SpdxLicenseProperties.AcceptedIdsKnown | src/SpdxLicense.php:302-318 | every `lic` token of an accepted string is a known license id after dropping its trailing `+`, or a known exception id with a `wi` token before it |
| SpdxLicenseProperties.RunSeparated | src/SpdxLicense.php:292-321 | run from a state with no operand due and no `WITH` pending, every operand token (`lic`, `lir`, `lix`) has an operator or `wi` token before it |
| SpdxLicenseProperties.RunOperandsSeparated | src/SpdxLicense.php:292-321 | in any run from the initial state, two operand tokens have an `op` or `wi` token between them, unless the first is a `lir` token with a `wi` token before it |
| SpdxLicenseProperties.AcceptedOperandsSeparated | src/SpdxLicense.php:292-321 | between two operand tokens of an accepted string stands an operator or `wi` token, unless the first is a `lir` token with a `wi` token before it |
| SpdxLicenseProperties.RunOperatorAfterOperand | src/SpdxLicense.php:284-321 | every admitted `op` token has an operand token before it with no `op` token in between, or no `op` token before it and a start state with no operand due |
| SpdxLicenseProperties.AcceptedOperatorAfterOperand | src/SpdxLicense.php:284-321 | every `op` token of an accepted string comes after an operand token, with no other `op` token in between; no string opens with an operator |
| SpdxLicenseDifferences.BareExceptionAccepted | src/SpdxLicense.php:294-306 | `WITH Autoconf-exception-2.0` is accepted by the state machine and rejected by the grammar |
| SpdxLicenseDifferences.NoneWithExceptionAccepted | src/SpdxLicense.php:294-306 | `NONE WITH Autoconf-exception-2.0` is accepted by the state machine and rejected by the grammar |
| SpdxLicenseDifferences.RefThenExceptionAccepted | src/SpdxLicense.php:294-321 | `WITH LicenseRef-1 Autoconf-exception-2.0` lexes to `wi ws lir ws lic`, is accepted by the state machine although only whitespace separates its two operands, and is rejected by the grammar |
| SpdxLicenseDifferences.KeywordFirstRejected | src/SpdxLicenses.php:251-271 | `WITH` or `NONE` followed by whitespace and more is no valid expression when the license alternation does not match the keyword |
| SpdxLicenseDifferences.NextIs | src/SpdxLicense.php:245-257 | when every pattern before `k` fails at the offset and `k` matches, the tokens from there are that match followed by the tokens after it |
| SpdxLicenses.IdString | src/SpdxLicenses.php:239 | rule `idstring`: one or more letters, digits, `-` or `.` |
| SpdxLicenses.LicenseRef | src/SpdxLicenses.php:248 | rule `licenseref`: `LicenseRef-` and an idstring, optionally after `DocumentRef-`, an idstring and `:` |
| SpdxLicenses.Simple | src/SpdxLicenses.php:251 | rule `simple_expression`: a license id, a license id and `+`, or a license reference |
| SpdxLicenses.WithSplit | src/SpdxLicenses.php:260 | the five parts of the `WITH` branch of `compound_head` at given offsets: a simple expression, whitespace, `with`/`WITH`, whitespace and an exception id |
| SpdxLicenses.WithExpression | src/SpdxLicenses.php:260 | the `WITH` branch of `compound_head`: some split into those five parts; the simple part may be the empty string when the table's alternation matches it |
| SpdxLicenses.Parenthesised | src/SpdxLicenses.php:261 | the parenthesised branch of `compound_head`: `(`, optional whitespace, a compound expression, optional whitespace and `)` |
| SpdxLicenses.Head | src/SpdxLicenses.php:259-262 | rule `compound_head`: a simple expression, a `WITH` expression or a parenthesised compound expression |
| SpdxLicenses.Compound | src/SpdxLicenses.php:263-265 | rule `compound_expression`: a head, optionally followed by whitespace, an operator, whitespace and another compound expression; the head may be empty when the table's alternation matches the empty string |
| SpdxLicenses.LicenseExpression | src/SpdxLicenses.php:268-271 | rule `license_expression`, anchored at both ends: `NONE`, `NOASSERTION`, a compound expression or a simple expression |
| SpdxLicenses.Alternation | src/SpdxLicenses.php:226-234 | reference definition of the strings the `implode('|', ...)` alternation of a table matches under the `x` flag of line 272: the empty string alone for an empty table; never empty |
| SpdxLicenses.AlternationMembers | src/SpdxLicenses.php:226-234 | for a non-empty table, a string is matched exactly when it is the reading of some id |
| SpdxLicenses.AlternationKeeps | src/SpdxLicenses.php:226-234 | an id without whitespace is matched as written |
| SpdxLicenses.PatternText | src/SpdxLicenses.php:226-272 | an id as the `x`-mode pattern reads it after `preg_quote`: no longer than the id, and free of whitespace |
| SpdxLicenses.PatternTextCounts | src/SpdxLicenses.php:226-272 | the reading keeps every character other than whitespace, each as often as the id has it |
| SpdxLicenses.PatternTextUnspaced | src/SpdxLicenses.php:226-272 | an id without whitespace reads as itself |
| SpdxLicenses.PatternTextAppend | src/SpdxLicenses.php:226-272 | the reading of a concatenation is the concatenation of the readings |
| SpdxLicenses.IsValidLicenseString | src/SpdxLicenses.php:224-285 | reference definition: the anchored rule over the alternations of the two tables |
| SpdxLicenses.Validate | src/SpdxLicenses.php:168-186 | normalisation exceptions are passed on; otherwise the grammar's verdict on the normalised string |
| SpdxLicenses.KnownLicenseAccepted | src/SpdxLicenses.php:251 | every license id is valid, alone and with one trailing `+` |
| SpdxLicenses.LicenseRefAccepted | src/SpdxLicenses.php:248 | `LicenseRef-x` and `DocumentRef-y:LicenseRef-x` are valid for any idstrings, with no table entry |
| SpdxLicenses.WithAccepted | src/SpdxLicenses.php:260 | a simple expression, whitespace, `with`/`WITH`, whitespace and a known exception form a head |
| SpdxLicenses.ParenthesisedAccepted | src/SpdxLicenses.php:261 | a compound expression in parentheses, with any padding inside, is a head |
| SpdxLicenses.OperatorAccepted | src/SpdxLicenses.php:264 | head, whitespace, `and`/`AND`/`or`/`OR`, whitespace and a compound expression form a compound expression |
| SpdxLicensesParser.Recognize | src/SpdxLicenses.php:236-272 | independent reference: `NONE`, `NOASSERTION`, or a left-to-right read of one compound expression that ends at the end of the input |
| SpdxLicensesParser.RecognizeSound | src/SpdxLicenses.php:236-272 | whatever the independent recognizer accepts is in the grammar's language, whatever the tables |
| SpdxLicensesParser.RecognizeComplete | src/SpdxLicenses.php:236-272 | with sane tables the recognizer accepts every string of the grammar |
| SpdxLicensesParser.RecognizeExact | src/SpdxLicenses.php:236-272 | with sane tables the recognizer and the grammar define the same language |
| SpdxLicensesParser.NoEmptyHead | src/SpdxLicenses.php:251-262 | with sane tables neither a simple expression nor a head is empty |
| SpdxLicensesParser.HeadStart | src/SpdxLicenses.php:259-262 | with sane tables a head starts with `(` or a word character, and otherwise is a simple or `WITH` expression |
| SpdxLicensesParser.CompoundStart | src/SpdxLicenses.php:263-265 | a compound expression does not start with whitespace |
| SpdxLicensesLaws.CompoundEnd | src/SpdxLicenses.php:263-265 | a compound expression does not end with whitespace |
| SpdxLicensesLaws.CompoundExact | src/SpdxLicenses.php:263-265 | with sane tables a string is a compound expression exactly when the recognizer reads all of it |
| SpdxLicensesLaws.BlankIsCompound | src/SpdxLicenses.php:268 | a string containing a blank or a parenthesis is valid exactly when it is a compound expression |
| SpdxLicensesLaws.UnknownFirstWord | src/SpdxLicenses.php:251-264 | a first word that is no simple expression is no compound expression, and makes the string invalid once a blank or parenthesis follows it |
| SpdxLicensesLaws.JuxtaposedOperands | src/SpdxLicenses.php:264 | after a head, whitespace and a word that is neither operator nor `with` make the string invalid |
| SpdxLicensesLaws.ParenAfterHead | src/SpdxLicenses.php:259-264 | a parenthesis right after a head, with or without whitespace, makes the string invalid |
| SpdxLicensesLaws.JoinVerdict | src/SpdxLicenses.php:264 | once a head and an operator are read, validity is the validity of what follows |
| SpdxLicensesLaws.OperandOfOperator | src/SpdxLicenses.php:264 | `h op c` is valid exactly when `c` is a compound expression |
| SpdxLicensesLaws.TrailingOperator | src/SpdxLicenses.php:264 | an expression ending in an operator is invalid |
| SpdxLicensesLaws.UnknownException | src/SpdxLicenses.php:260 | `WITH` followed by a word that is no exception id makes the string invalid |
| SpdxLicensesLaws.TwoWords | src/SpdxLicenses.php:264 | two words in a row, the second neither operator nor `with`, are invalid |
| SpdxLicensesLaws.WordWithUnknown | src/SpdxLicenses.php:260 | any word, `WITH` and an unknown exception are invalid |
| SpdxLicensesLaws.GroupInside | src/SpdxLicenses.php:261 | if the recognizer reads a compound expression at the start of `( c pad )`, where `c` has no `)`, then `c` is a compound expression |
| SpdxLicensesLaws.GroupedInside | src/SpdxLicenses.php:261 | a valid group whose inside holds no `)` has a compound expression inside |
| SpdxLicensesLaws.GroupedCompound | src/SpdxLicenses.php:261 | such a group is valid exactly when its inside is a compound expression |
| SpdxLicensesLaws.HeadWords | src/SpdxLicenses.php:259-262 | every maximal word inside a head the recognizer reads is a simple expression, an operator, `with`/`WITH` or an exception id |
| SpdxLicensesLaws.CompoundWords | src/SpdxLicenses.php:263-265 | the same for every word inside a compound expression the recognizer reads |
| SpdxLicensesLaws.NoneIsNoPhraseWord | src/SpdxLicenses.php:251-265 | when no table holds them, `NONE` and `NOASSERTION` are none of those words |
| SpdxLicensesLaws.NoneOnlyAlone | src/SpdxLicenses.php:268 | with sane tables that do not hold them, `NONE` and `NOASSERTION` are valid only as the whole expression: no maximal word of any other valid expression is either of them |
| SpdxLicensesExamples.Joined | src/SpdxLicenses.php:264 | `a op b` with single blanks is a compound expression |
| SpdxLicensesExamples.Grouped | src/SpdxLicenses.php:261 | `(c)` without padding is a valid head |
| SpdxLicensesExamples.GroupedJoin | src/SpdxLicenses.php:261-264 | `(a op b)` is valid |
| SpdxLicensesExamples.WithJoined | src/SpdxLicenses.php:260 | `a with e` with single blanks is valid |
| SpdxLicensesExamples.GroupedJoinRejected | src/SpdxLicenses.php:261-264 | `(a op c)` is invalid when `c` is no compound expression |
| SpdxLicensesExamples.AcceptsSingleLicenses | tests/SpdxLicensesTest.php:262-267 | `MIT`, `MIT+`, `(MIT)`, `NONE`, `NOASSERTION` and `LicenseRef-3` are valid |
| SpdxLicensesExamples.AcceptsDisjunction | tests/SpdxLicensesTest.php:269-270 | `(LGPL-2.0-only or GPL-3.0-or-later)` and the same with `OR` are valid |
| SpdxLicensesExamples.AcceptsConjunction | tests/SpdxLicensesTest.php:271-273 | `EUDatagrid and GPL-3.0-or-later`, the same in parentheses, and in parentheses with `AND`, are valid |
| SpdxLicensesExamples.AcceptsException | tests/SpdxLicensesTest.php:274-276 | `GPL-2.0-only with Autoconf-exception-2.0`, the same with `WITH`, and `GPL-2.0-or-later WITH Autoconf-exception-2.0` are valid |
| SpdxLicensesExamples.AcceptsMixedOperators | tests/SpdxLicensesTest.php:277 | `(GPL-3.0-only and GPL-2.0-only or GPL-3.0-or-later)` is valid |
| SpdxLicensesExamples.ValidatesSingletonArrays | tests/SpdxLicensesTest.php:264-271 | `validate(['(MIT)'])` and `validate(['EUDatagrid and GPL-3.0-or-later'])` are true |
| SpdxLicensesExamples.ValidatesPairArray | tests/SpdxLicensesTest.php:268 | `validate(['LGPL-2.0-only', 'GPL-3.0-or-later'])` is true |
| SpdxLicensesExamples.ValidatesEveryIdentifier | tests/SpdxLicensesTest.php:258-279 | `validate` is true for the reading of every license id, and for the id itself when it holds no whitespace |
| SpdxLicensesExamples.EmptyTableAccepts | src/SpdxLicenses.php:226-229 | with an empty license table the empty alternation matches the empty string, so `""` and `"+"` are valid |
| SpdxLicensesExamples.EmptyIdentifierOperand | src/SpdxLicenses.php:264 | with the empty identifier in the license table, ` AND MIT` is valid: the head matches the empty string |
| SpdxLicensesExamples.EmptyIdentifierException | src/SpdxLicenses.php:260 | with the empty identifier in the license table, ` WITH e` is valid for any known exception `e` |
| SpdxLicensesExamples.BlankInIdentifier | src/SpdxLicenses.php:226-272 | with the table id `Foo Bar`, the alternation matches `FooBar` alone: `FooBar` is valid and `Foo Bar` is not |
| SpdxLicensesExamples.RejectsEmpty | tests/SpdxLicensesTest.php:295 | `''` is invalid |
| SpdxLicensesExamples.RejectsProse | tests/SpdxLicensesTest.php:297 | `The system pwns you` is invalid |
| SpdxLicensesExamples.RejectsEmptyGroup | tests/SpdxLicensesTest.php:298 | `()` is invalid |
| SpdxLicensesExamples.RejectsUnclosedGroup | tests/SpdxLicensesTest.php:299 | `(MIT` is invalid |
| SpdxLicensesExamples.RejectsUnopenedGroup | tests/SpdxLicensesTest.php:300 | `MIT)` is invalid |
| SpdxLicensesExamples.RejectsTrailingNone | tests/SpdxLicensesTest.php:301 | `MIT NONE` is invalid |
| SpdxLicensesExamples.RejectsNoneOperand | tests/SpdxLicensesTest.php:302 | `MIT AND NONE` is invalid |
| SpdxLicensesExamples.RejectsJuxtaposedGroup | tests/SpdxLicensesTest.php:303 | `MIT (MIT and MIT)` is invalid |
| SpdxLicensesExamples.RejectsOperandAfterGroup | tests/SpdxLicensesTest.php:304 | `(MIT and MIT) MIT` is invalid |
| SpdxLicensesExamples.RejectsProseAlternative | tests/SpdxLicensesTest.php:305 | `(LGPL-2.0-only OR The system pwns you)` is invalid |
| SpdxLicensesExamples.RejectsLeadingOperator | tests/SpdxLicensesTest.php:306 | `and GPL-3.0-or-later` is invalid |
| SpdxLicensesExamples.RejectsDanglingOperator | tests/SpdxLicensesTest.php:307 | `(EUDatagrid and GPL-3.0-or-later and  )` is invalid |
| SpdxLicensesExamples.RejectsUnknownOperator | tests/SpdxLicensesTest.php:308 | `(EUDatagrid xor GPL-3.0-or-later)` is invalid |
| SpdxLicensesExamples.RejectsGroupedNone | tests/SpdxLicensesTest.php:309 | `(NONE or MIT)` is invalid |
| SpdxLicensesExamples.RejectsGroupedNoAssertion | tests/SpdxLicensesTest.php:310 | `(NOASSERTION or MIT)` is invalid |
| SpdxLicensesExamples.RejectsLicenseAsException | tests/SpdxLicensesTest.php:311 | `Autoconf-exception-2.0 WITH MIT` is invalid |
| SpdxLicensesExamples.RejectsMissingException | tests/SpdxLicensesTest.php:312 | `MIT WITH` is invalid |
| SpdxLicensesExamples.RejectsTrailingOperator | tests/SpdxLicensesTest.php:313-314 | `MIT OR` and `MIT AND` are invalid |
| SpdxLicensesExamples.RejectsArrays | tests/SpdxLicensesTest.php:296-305 | `validate([])` and `validate(['LGPL-2.0-only', 'The system pwns you'])` are false |
| SpdxLicensesExamples.RejectsArguments | tests/SpdxLicensesTest.php:324-328 | `null`, an object, and arrays holding an object raise the matching InvalidArgumentException |

## Left out

- `loadLicenses`/`loadExceptions` (file reads and `json_decode`): the two decoded tables are a parameter, `Store.IdentifierStore`.
- src/SpdxLicensesUpdater.php (HTTP fetch, JSON and file writes) is not part of this model.
- `getLicenses`, `getResourcesDir` and `isDeprecatedByIdentifier` are not part of this model: their source is not among the modelled files. `deprecated` is still kept in the table and returned by `GetLicenseByIdentifier`.
- The regex engine itself is not modelled:
  - in `SpdxLicenses`, the reverse-sorted alternation of `preg_quote`d ids, the atomicity of PCRE subroutine calls and backtracking order;
  - `$` also matching before a final line feed.

  The grammar is modelled as the language of its `DEFINE` rules.
- The regex-failure `RuntimeException`s (src/SpdxLicenses.php:280-282, src/SpdxLicense.php:246-247) are not modelled. `preg_match` returns false when the pattern does not compile, and at run time when PCRE hits its backtracking, recursion or JIT-stack limit on long input. Those engine limits are outside the model, which treats every match as completing. The other two exceptions (src/SpdxLicense.php:260-262 and 327) are proved unreachable.
- `\pL\pN` in `idstring` is restricted to ASCII letters and digits (`SpdxLicenses.IdChar`). `\s` is PCRE's six ASCII whitespace characters.
- SpdxLicenses.Alternation: `x` mode is taken to skip the same six ASCII whitespace characters, not the further Unicode pattern-space characters a Unicode-enabled PCRE2 may also skip. `#` in an id is taken as escaped by `preg_quote`, as PHP 7.3 and later do; on older PHP it would open a comment in the pattern.
- Strings are sequences of characters standing for the bytes PHP works on: offsets and `strlen` count characters, and there is no UTF-8 decoding.
- `in_array` in `isValidLicenseIdentifier`/`isValidExceptionIdentifier` compares loosely. The model uses exact membership. That agrees for non-numeric identifiers. Numeric strings compare by value (`"10"` equals `"1e1"`), and with integer keys `"1.0"` equals `1`.
- PHP turns numeric-string array keys into integers; table keys are kept as strings.
- Store.IsOsiApprovedByIdentifier: for an unknown id PHP emits a warning and yields null; the model returns `false`, the falsy value, and does not model the warning.
- SpdxLicensesParser.RecognizeComplete: completeness, and with it every law of `SpdxLicensesLaws` and every rejection in `SpdxLicensesExamples` and `SpdxLicenseDifferences`, is proved for sane tables only, where no string of either alternation is empty or holds whitespace or a parenthesis. At the level of a store this also rules out an empty table, whose alternation matches the empty string. Soundness holds for all tables.
- SpdxLicensesLaws.NoneOnlyAlone: stated for tables that hold neither `NONE` nor `NOASSERTION`, as the bundled SPDX tables do not. If a table held one of them, it could be an operand or an exception like any other id.
- SpdxLicensesExamples.AcceptsSingleLicenses: this and the other examples assume only the table entries their expression uses (for instance `"MIT" in L`), not the whole bundled table.
