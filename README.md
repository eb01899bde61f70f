# jsparsec core in Dafny

This project is a model of the core of jsparsec, a JavaScript port of Haskell's Parsec parser-combinator library:

- the primitive engine of `Text/Parsec/Prim.js`;
- the lexeme parsers that `Text/Parsec/Token.js` builds from it.

It comes with proofs of what the source's combinators promise. Everything lives in `.dfy` modules that are imported, never included.

- `CharClass` (`chars.dfy`) holds the characters. It has the classes `isSpace`, `isDigit`, `isAlpha` and friends, `digitToInt`, and `toLowerCase`/`toUpperCase` over ASCII.
- `Prim` (`prim.dfy`) holds the engine. A parser is a value of the datatype `Parser`, with one constructor per primitive of Prim.js:
  - `return_`, `parserFail`, `parserZero`, `unexpected`;
  - `tokenPrim` (`char_`, `satisfy`) and `tokenPrimP1` (`try_`, `skipMany`, `string`, `label`);
  - `tokens`, `_many`, `parserPlus`, `do2`, `do_`, `parserBind`, `bind`, `ret`, `withScope`;
  - `getPosition`, `setPosition`.

  The pure function `Parse` runs a parser over an input from an index and a binding scope. It gives the result object `{ast, success, expecting}` that the parser hands to its continuation, with the new index and scope. Two further outcomes are:
  - `Abort`, an exception the source throws;
  - `Stuck`, a `many` iteration that succeeds without ending strictly further on inside the input. That includes the iteration that does not move, where the source loops forever (see "## Left out" for the cases where the source goes on).
- `PrimState` (`prim_state.dfy`) holds the class `ParseState`: the cursor `index`/`length`, the `memoize` flag and the packrat `cache`. Its methods are `scrollTo`, `scroll`, `at`, `substring`, `getCached` and `putCached`.

  It also has an imperative engine, `Run`, that drives a `Parser` over a `ParseState` the way the combinators do:
  - the memoising primitives consult the cache before they run and store after;
  - `try_` scrolls back;
  - `do_` and `parserPlusN` fold their argument lists in loops.

  `Run` is proved to reply exactly what `Parse` says, with memoisation on or off, whatever sound entries the cache already holds. In other words, the cache is transparent. The continuations of `parserBind` and `withScope` are the exception: `Run` evaluates them with `Parse`, so the parsers they compute do not use the cache.
- `PrimLaws` (`prim_laws.dfy`) holds the laws of the engine:
  - `char_`, `satisfy` and `string`;
  - `parserPlus` retrying only on an undefined AST, and `try_` making that retry possible;
  - `many`/`many1`;
  - the monad laws of `parserBind` and the associativity of `do2`;
  - `bind`/`ret`, `getPosition`/`setPosition`;
  - scope independence.
- `PrimError` (`prim_error.dfy`) holds `processError`. It covers the line and column computed from `split("\n")`, the excerpt, and the rendering of every form of `expecting`.
- `TokenNames` (`token_names.dfy`) holds the reserved-name tables of Token.js: `isort`, `isReserved`, `theReservedNames`, `isReservedName`, `isReservedOp`.
- `Token` (`token.dfy`) holds the lexeme parsers as `Parser` values, composed as `makeTokenParser` composes them:
  - `lexeme`, `symbol`, `whiteSpace`;
  - `number`, `decimal`, `hexadecimal`, `octal`, `zeroNumber`, `nat`, `sign`, `int_`;
  - `ident`, `identifier` (over the reserved-name table as written) and `IdentifierFixed` (over the corrected table), `oper`, `operator`;
  - `caseString`, `reserved`, `reservedOp`.
- `TokenLexLaws`, `TokenNumberLaws` and `TokenWordLaws` hold what each lexeme parser reads and returns on every input, including its failure and its expectation. The word laws hold for any `identStart`, `identLetter`, `opStart` and `opLetter` that reads one character of a class (`OneCharOf`): `satisfy`, `char_` and their choices and labels, such as `letter <|> char('_')`.

  These modules also hold round trips: `nat` reads back what `NatToString` prints, and `int_` what `IntToString` prints.

One behaviour of the source is easy to miss. In `parserPlus`, the second alternative runs from wherever the first stopped whenever the first's AST is `undefined` (Prim.js:400-406), even after input was consumed. So `nat` on `"0x"` followed by a character that is neither a hex digit nor `o`/`O` returns `0` at the index after the `x`, where Parsec would fail (`TokenNumberLaws.NatHexWithoutDigits`). When an `o` or `O` follows the `x`, `octal` goes on from there: `"0xo7"` reads as 7 (`TokenNumberLaws.NatHexThenOctalExample`). The model keeps that behaviour.

## Model

| member | source | states |
|---|---|---|
| CharClass.CaseFold | jsparsec/src/Text/Parsec/Token.js:1095-1099 | a letter's lower and upper case differ and the character is one of them; folding lower-cases either case to the same character; non-letters are their own case |
| CharClass.LowerString | jsparsec/src/Text/Parsec/Token.js:1166-1167 | `toLowerCase` keeps the length and lowers each character in place |
| CharClass.DigitToInt | jsparsec/src/Text/Parsec/Token.js:812-814 | a decimal digit is worth its distance from '0', an octal digit less than 8, a hex digit less than 16, and the letters 'a'..'f' and 'A'..'F' are worth 10..15 |
| PrimState.ParseState.constructor | jsparsec/src/Text/Parsec/Prim.js:10-20 | a new state holds the input and index, `length` is the rest of the input, memoisation is off and the cache empty |
| PrimState.ParseState.ScrollTo | jsparsec/src/Text/Parsec/Prim.js:22-26 | the cursor moves to the given index and `length` is recomputed from the input |
| PrimState.ParseState.Scroll | jsparsec/src/Text/Parsec/Prim.js:28-32 | the index grows and `length` shrinks by the same amount, keeping their relation |
| PrimState.ParseState.At | jsparsec/src/Text/Parsec/Prim.js:36-38 | `charAt` at the offset: the character there, or "" outside the input |
| PrimState.ParseState.Substring | jsparsec/src/Text/Parsec/Prim.js:40-44 | the slice between the two offsets from the cursor; an `end` of 0 falls back to `length`, so the rest of the input |
| PrimState.JsSubstring | jsparsec/src/Text/Parsec/Prim.js:41-43 | JavaScript `substring`: bounds clamped to the string and swapped when reversed |
| PrimState.ParseState.GetCached | jsparsec/src/Text/Parsec/Prim.js:58-75 | a hit exactly when memoising and an entry exists for the identity at the index; a hit restores the stored cursor, a miss leaves it |
| PrimState.ParseState.PutCached | jsparsec/src/Text/Parsec/Prim.js:77-90 | when memoising, the result with the current cursor is filed under identity and start index; otherwise nothing changes; the cache stays sound |
| PrimState.CharFn | jsparsec/src/Text/Parsec/Prim.js:563-569 | `char_`'s step on the state agrees with the pure step, and the cursor moves only on a match |
| PrimState.SatisfyFn | jsparsec/src/Text/Parsec/Prim.js:573-580 | `satisfy`'s step on the state agrees with the pure step |
| PrimState.PostFn | jsparsec/src/Text/Parsec/Prim.js:548-602 | the result transformers of `try_`, `skipMany`, `string` and `label` agree with the pure ones; only `try_` rewinds |
| PrimState.Run | jsparsec/src/Text/Parsec/Prim.js:503-545 | the imperative engine over the cached state replies exactly as `Parse`, the cache stays sound, and the cursor ends at the reply's index — memoisation is transparent outside the continuations of `parserBind` and `withScope` |
| PrimState.RunTokenPrim | jsparsec/src/Text/Parsec/Prim.js:503-520 | a memoising primitive replies as `Parse`, from the cache or by running and storing |
| PrimState.RunTokenPrimP1 | jsparsec/src/Text/Parsec/Prim.js:524-545 | a memoising transformer replies as `Parse`, from the cache or by running its parser and storing |
| PrimState.RunPlus | jsparsec/src/Text/Parsec/Prim.js:383-412 | the choice replies as `Parse` |
| PrimState.RunBindP | jsparsec/src/Text/Parsec/Prim.js:223-233 | `parserBind` replies as `Parse`: its parser runs on the state, and the continuation is evaluated by `Parse` from where it stopped |
| PrimState.RunBind | jsparsec/src/Text/Parsec/Prim.js:265-275 | `bind` replies as `Parse` |
| PrimState.RunTokens | jsparsec/src/Text/Parsec/Prim.js:440-464 | the loop over `tokens`' parsers replies as the pure sequence |
| PrimState.RunMany | jsparsec/src/Text/Parsec/Prim.js:466-496 | the `many` loop replies as the pure repetition |
| PrimState.RunSeq | jsparsec/src/Text/Parsec/Prim.js:247-258 | the `do_` chain run on the state replies as the pure sequence in a fresh scope |
| PrimState.DoChain | jsparsec/src/Text/Parsec/Prim.js:250-256 | `do_`'s loop builds the left-nested `do2` chain |
| PrimState.PlusN | jsparsec/src/Text/Parsec/Prim.js:418-430 | `parserPlusN`'s loop builds the left-nested `parserPlus` chain |
| PrimLaws.ClosedParse | jsparsec/src/Text/Parsec/Prim.js:247-258 | a parser whose bindings all sit inside `do_` blocks replies the same from every scope and hands its scope back |
| PrimLaws.CharSpec | jsparsec/src/Text/Parsec/Prim.js:563-569 | `char_(c)` succeeds with `c`, one further, iff the next character is `c`; otherwise it fails expecting `c` without moving |
| PrimLaws.SatisfySpec | jsparsec/src/Text/Parsec/Prim.js:573-580 | `satisfy(cond)` succeeds with the character, one further, iff there is one and `cond` holds; otherwise it fails expecting that character ("" at the end) without moving |
| PrimLaws.JoinChars | jsparsec/src/Text/Parsec/Prim.js:587 | joining the one-character ASTs collected from a text gives the text back |
| PrimLaws.StringTokens | jsparsec/src/Text/Parsec/Prim.js:440-464 | `tokens` over the character parsers collects the matched prefix and stops at the first mismatching character, expecting it |
| PrimLaws.StringSpec | jsparsec/src/Text/Parsec/Prim.js:585-593 | `string(s)` consumes the longest matched prefix, returns it (undefined when empty), succeeds iff all of `s` matched, and on failure expects `s` at the start |
| PrimLaws.StringEmpty | jsparsec/src/Text/Parsec/Prim.js:459 | `string("")` throws, because `tokens` calls a missing first parser |
| PrimLaws.StringMatches | jsparsec/src/Text/Parsec/Prim.js:585-593 | `string(s)` succeeds iff the input holds `s` at the cursor |
| PrimLaws.StringWhole | jsparsec/src/Text/Parsec/Prim.js:585-593 | when the input holds `s`, `string(s)` returns `s` with the cursor past it |
| PrimLaws.PlusKeepsFirst | jsparsec/src/Text/Parsec/Prim.js:399-401 | when the first alternative's AST is defined, the second never runs, success or not, and failures keep their expectations as an array |
| PrimLaws.PlusRunsSecond | jsparsec/src/Text/Parsec/Prim.js:402-406 | when the first alternative's AST is undefined, the second runs from where the first stopped, and a failure expects both alternatives' expectations |
| PrimLaws.TrySpec | jsparsec/src/Text/Parsec/Prim.js:548-553 | `try_(p)` is `p` on success; on failure it rewinds to the start with an undefined AST and `p`'s expectation |
| PrimLaws.TryLetsPlusRetry | jsparsec/src/Text/Parsec/Prim.js:548-553 | a choice whose first alternative is under `try_` runs the second from the original index after a failure |
| PrimLaws.PartialFailureNotRetried | jsparsec/src/Text/Parsec/Prim.js:399-401 | a failure with a defined AST (a partly matched `string`) is final: the choice fails where it stopped |
| PrimLaws.StringChoiceNeedsTry | jsparsec/src/Text/Parsec/Prim.js:383-412 | the choice of `string("ab")` and then `string("ac")` on "ac" fails at index 1 with AST "a" |
| PrimLaws.TryStringChoice | jsparsec/src/Text/Parsec/Prim.js:548-553 | the choice of `try_(string("ab"))` and then `string("ac")` on "ac" returns "ac" |
| PrimLaws.PlusChainSpec | jsparsec/src/Text/Parsec/Prim.js:418-430 | the chain `parserPlusN` builds is the left-to-right choice: each alternative runs from where the previous one stopped, the first with a defined AST decides and the rest never run, and a failure expects everything gathered since the last success of a later alternative (its helper `PlusOnParse` unfolds one `parserPlus` step) |
| PrimLaws.StringAbOnAc | jsparsec/src/Text/Parsec/Prim.js:585-593 | `string("ab")` on "ac" fails at 1 with "a" and expects "ab" at 0 |
| PrimLaws.StringAcOnAc | jsparsec/src/Text/Parsec/Prim.js:585-593 | `string("ac")` on "ac" succeeds at 2 |
| PrimLaws.ManyAcc | jsparsec/src/Text/Parsec/Prim.js:469-482 | what `many` collected before an iteration is a prefix of its final array |
| PrimLaws.ManyMatched | jsparsec/src/Text/Parsec/Prim.js:488 | once an iteration has matched, `many1` carries on as `many` |
| PrimLaws.ManyUnfold | jsparsec/src/Text/Parsec/Prim.js:466-496 | `many(q)`: a failing `q` gives `[]` where it stopped; a `q` that moves forward inside the input puts its AST in front of the rest; any other success is `Stuck` |
| PrimLaws.ManySucceeds | jsparsec/src/Text/Parsec/Prim.js:488-492 | `many` never fails: a reply is a success with an array and no expectation |
| PrimLaws.Many1Spec | jsparsec/src/Text/Parsec/Prim.js:488-492 | `many1(q)` fails with `q`'s expectation iff `q` fails first time, and is `many(q)` otherwise |
| PrimLaws.ManyOfReturnIsStuck | jsparsec/src/Text/Parsec/Prim.js:472-483 | `many(return_(v))` never ends |
| PrimLaws.SeqSnoc | jsparsec/src/Text/Parsec/Prim.js:236-244 | a sequence with one more statement runs it after a successful prefix |
| PrimLaws.ThenChainSeq | jsparsec/src/Text/Parsec/Prim.js:250-258 | the left-nested `do2` chain runs its statements in order, stopping at the first failure |
| PrimLaws.DoIsChain | jsparsec/src/Text/Parsec/Prim.js:247-262 | `do_` is the `do2` chain run in a fresh scope, with the caller's scope given back |
| PrimLaws.ThenAssoc | jsparsec/src/Text/Parsec/Prim.js:236-244 | `do2` is associative |
| PrimLaws.BindLeftIdentity | jsparsec/src/Text/Parsec/Prim.js:223-233 | `parserBind(return_(v), f)` is `f(v)` |
| PrimLaws.BindAssoc | jsparsec/src/Text/Parsec/Prim.js:223-233 | `parserBind` is associative |
| PrimLaws.BindRightIdentity | jsparsec/src/Text/Parsec/Prim.js:337-341 | binding into `return_` gives the parser back, for parsers whose successes carry no expectation |
| PrimLaws.SuccessNoExpect | jsparsec/src/Text/Parsec/Prim.js:396 | a successful result of a parser built without `parserBind`/`withScope` carries no expectation |
| PrimLaws.TokensSuccessNoExpect | jsparsec/src/Text/Parsec/Prim.js:461 | a successful `tokens` carries no expectation |
| PrimLaws.ManySuccessNoExpect | jsparsec/src/Text/Parsec/Prim.js:491 | a successful `many` carries no expectation |
| PrimLaws.SeqSuccessNoExpect | jsparsec/src/Text/Parsec/Prim.js:236-244 | a successful sequence of first-order statements carries no expectation |
| PrimLaws.BindRet | jsparsec/src/Text/Parsec/Prim.js:265-297 | `do_(bind(x, p), ret(x))` returns what `p` returned, past it, in the caller's scope |
| PrimLaws.RetUnbound | jsparsec/src/Text/Parsec/Prim.js:290-292 | `ret` of an unbound name throws `Not in scope: "name"` |
| PrimLaws.BindScopeThrows | jsparsec/src/Text/Parsec/Prim.js:266-267 | running a binding of the name `scope` throws |
| PrimLaws.SetThenGetPosition | jsparsec/src/Text/Parsec/Prim.js:318-330 | after `setPosition(n)`, `getPosition` returns `n` |
| PrimLaws.SetPositionFromScope | jsparsec/src/Text/Parsec/Prim.js:324-329 | saving the position, running a parser and restoring the saved position rewinds to the start |
| PrimError.SplitLength | jsparsec/src/Text/Parsec/Prim.js:201-203 | `split("\n")` has one more piece than the text has line feeds |
| PrimError.JoinSplitPrefix | jsparsec/src/Text/Parsec/Prim.js:205 | the first `n` lines joined back are as long as the text before the `n`-th line feed |
| PrimError.LineSpec | jsparsec/src/Text/Parsec/Prim.js:201-204 | the reported line is one more than the line feeds before the index |
| PrimError.ColumnSpec | jsparsec/src/Text/Parsec/Prim.js:205 | the reported column is the index on the first line and the distance from the last line feed before it on the others |
| PrimError.ColumnAtStart | jsparsec/src/Text/Parsec/Prim.js:205 | the column at index 0 is 0 |
| PrimError.ColumnAfterNewline | jsparsec/src/Text/Parsec/Prim.js:205 | the column just after a line feed is 1 |
| PrimError.ColumnAfterChar | jsparsec/src/Text/Parsec/Prim.js:205 | any other character moves the column one on |
| PrimError.Excerpt | jsparsec/src/Text/Parsec/Prim.js:206 | the excerpt is the input from the index, at most six characters and no longer than the expectation |
| PrimError.NatToString | jsparsec/src/Text/Parsec/Prim.js:209 | the decimal digits a number prints as, whose value is the number |
| PrimError.RenderExpected | jsparsec/src/Text/Parsec/Prim.js:206-209 | the message for an expected string, in its reading order |
| PrimError.ProcessErrorMsg | jsparsec/src/Text/Parsec/Prim.js:197-210 | a string expectation is reported at the state's index, with the excerpt or "end of input", the expectation, and the line and column counted from the text |
| PrimError.ProcessErrorAt | jsparsec/src/Text/Parsec/Prim.js:215-216 | an `{at, expecting}` object is reported at its own `at` |
| PrimError.ProcessErrorChoice | jsparsec/src/Text/Parsec/Prim.js:212-214 | an array is reported once at the state's index, its elements' expectations joined by `" or "` |
| PrimError.ColumnBaseDiffers | jsparsec/src/Text/Parsec/Prim.js:205 | as written, columns are 0-based on the first line and 1-based on the others |
| PrimError.ColumnBaseExample | jsparsec/src/Text/Parsec/Prim.js:205 | on "a\nb", `a` is in column 0 and `b` in column 1 |
| PrimError.ColumnFixedSpec | jsparsec/src/Text/Parsec/Prim.js:205 | corrected: every line starts in column 1 and other characters move one column on |
| PrimError.UnexpectedIsUndefined | jsparsec/src/Text/Parsec/Prim.js:215-216 | as written, an `{unexpected}` object gives no message (`undefined`) |
| PrimError.UnexpectedFixed | jsparsec/src/Text/Parsec/Prim.js:206-209 | corrected: an unexpected token is named, with the line and the 1-based column of the index |
| PrimError.FixedAgreesPastFirstLine | jsparsec/src/Text/Parsec/Prim.js:197-217 | the corrected rendering agrees with the original on every other expectation once past the first line |
| TokenNames.CompareSpec | jsparsec/src/Text/Parsec/Token.js:1144-1153 | the string order puts only equal strings at EQ and is antisymmetric |
| TokenNames.CompareTrans | jsparsec/src/Text/Parsec/Token.js:1144-1153 | the string order is transitive |
| TokenNames.IsortSpec | jsparsec/src/Text/Parsec/Token.js:1199 | `isort` returns a sorted permutation of its input |
| TokenNames.IsReservedSound | jsparsec/src/Text/Parsec/Token.js:1142-1157 | `isReserved` only answers true for a listed name |
| TokenNames.IsReservedSorted | jsparsec/src/Text/Parsec/Token.js:1142-1157 | on a sorted list, `isReserved` answers true iff the name is listed |
| TokenNames.LowerAll | jsparsec/src/Text/Parsec/Token.js:1200-1202 | the lowered table has the same length, each name lowered |
| TokenNames.IsReservedOpSpec | jsparsec/src/Text/Parsec/Token.js:1042-1044 | `isReservedOp` is membership in the reserved operators |
| TokenNames.IsReservedNameSpec | jsparsec/src/Text/Parsec/Token.js:1166-1170 | case-sensitive: membership; case-insensitive: a hit only for a name whose lowered form is listed lowered, and every such name a hit when the sorted table stays sorted once lowered |
| TokenNames.LowerAfterSortMisses | jsparsec/src/Text/Parsec/Token.js:1199-1202 | as written, with names "a" and "B" and case ignored, "a" is not found |
| TokenNames.IsReservedNameFixedSpec | jsparsec/src/Text/Parsec/Token.js:1199-1202 | corrected: lowering before sorting makes the lookup exact membership, up to case when case is ignored |
| TokenLexLaws.ManySatisfySpec | jsparsec/src/Text/Parsec/Prim.js:466-496 | `many(satisfy(cond))` returns the longest run of matching characters, as one-character strings, past it |
| TokenLexLaws.Many1SatisfySpec | jsparsec/src/Text/Parsec/Prim.js:466-500 | `many1(satisfy(cond))` is that run when not empty, and fails without moving otherwise |
| TokenLexLaws.SatisfyOneChar | jsparsec/src/Text/Parsec/Prim.js:573-580 | `satisfy(cond)` reads one character of the class `cond` |
| TokenLexLaws.CharOneChar | jsparsec/src/Text/Parsec/Prim.js:563-569 | `char_(c)` reads one character of the class "equal to `c`" |
| TokenLexLaws.PlusOneChar | jsparsec/src/Text/Parsec/Prim.js:383-412 | a choice of two one-character parsers reads one character of the union of their classes, the second running from the same place |
| TokenLexLaws.LabelOneChar | jsparsec/src/Text/Parsec/Prim.js:598-602 | a label keeps a one-character parser's class |
| TokenLexLaws.OneCharOfSameClass | jsparsec/src/Text/Parsec/Prim.js:573-580 | a class matters only through its value on each character |
| TokenLexLaws.ManyOneChar | jsparsec/src/Text/Parsec/Prim.js:466-496 | `many` over any one-character parser replies as `many(satisfy(cond))` over its class, since the loop ignores the failing iteration's expectation |
| TokenLexLaws.ManyCharSpec | jsparsec/src/Text/Parsec/Prim.js:466-496 | `many(q)` over a one-character parser returns the longest run of its class, as one-character strings, past it |
| TokenLexLaws.SkipManySatisfySpec | jsparsec/src/Text/Parsec/Prim.js:556-560 | `skipMany(satisfy(cond))` succeeds past the run with an undefined AST |
| TokenLexLaws.SimpleSpaceSpec | jsparsec/src/Text/Parsec/Token.js:466-467 | `simpleSpace` skips a non-empty run of white space, or fails without moving |
| TokenLexLaws.LabelledSpaceSpec | jsparsec/src/Text/Parsec/Token.js:556 | labelled "", a failure expects "" at the index |
| TokenLexLaws.WhiteSpaceSpec | jsparsec/src/Text/Parsec/Token.js:555-560 | `whiteSpace` always succeeds past all the white space at the cursor |
| TokenLexLaws.LexemeSpec | jsparsec/src/Text/Parsec/Token.js:456-458 | `lexeme(p)` is `p` followed by white space, returning `p`'s AST in the caller's scope; a failure is `p`'s |
| TokenLexLaws.SymbolSpec | jsparsec/src/Text/Parsec/Token.js:447-449 | `symbol(name)` returns `name` past it and the white space after, or fails as `string(name)` does |
| TokenNumberLaws.FoldChars | jsparsec/src/Text/Parsec/Token.js:812-814 | the fold of `number` over the digit characters is the digits' value in the base |
| TokenNumberLaws.NumberSpec | jsparsec/src/Text/Parsec/Token.js:809-816 | `number(base, digit)` returns the value of the longest digit run past it, or fails without moving when there is none |
| TokenNumberLaws.PrefixedSpec | jsparsec/src/Text/Parsec/Token.js:826-827 | `hexadecimal`/`octal`: the prefix letter then a digit run; without the letter nothing moves, without digits the cursor stays past the letter |
| TokenNumberLaws.AfterZeroSpec | jsparsec/src/Text/Parsec/Token.js:971 | after the '0', hexadecimal, octal, decimal and `return_(0)` are tried in turn from where the last stopped, and the chain always succeeds |
| TokenNumberLaws.ZeroNumberSpec | jsparsec/src/Text/Parsec/Token.js:970-972 | `zeroNumber` reads a '0' and what follows it, or fails expecting "" without moving |
| TokenNumberLaws.NatRead | jsparsec/src/Text/Parsec/Token.js:977 | `nat` reads something iff the cursor is at a decimal digit, and stays inside the input |
| TokenNumberLaws.NatSpec | jsparsec/src/Text/Parsec/Token.js:977 | `nat` returns what `zeroNumber` or else `decimal` reads; on failure both expectations are reported at the index |
| TokenNumberLaws.NatDecimal | jsparsec/src/Text/Parsec/Token.js:825 | without a base prefix, `nat` returns the value of the decimal run |
| TokenNumberLaws.NatHex | jsparsec/src/Text/Parsec/Token.js:826 | after "0x"/"0X" and hex digits, `nat` returns their hexadecimal value |
| TokenNumberLaws.NatOct | jsparsec/src/Text/Parsec/Token.js:827 | after "0o"/"0O" and octal digits, `nat` returns their octal value |
| TokenNumberLaws.NatHexWithoutDigits | jsparsec/src/Text/Parsec/Token.js:970-971 | "0x" followed by neither a hex digit nor `o`/`O` reads 0 and leaves the cursor past the `x` |
| TokenNumberLaws.NatReadsNatToString | jsparsec/src/Text/Parsec/Token.js:977 | `nat` reads back any natural printed in decimal and consumes all of it |
| TokenNumberLaws.SignRead | jsparsec/src/Text/Parsec/Token.js:856-858 | the sign is `negate` or `id` and takes at most one character |
| TokenNumberLaws.SignSpec | jsparsec/src/Text/Parsec/Token.js:856-858 | `sign` always succeeds: `negate` past a '-', `id` past a '+', `id` without moving otherwise |
| TokenNumberLaws.Int_Spec | jsparsec/src/Text/Parsec/Token.js:985-987 | `int_` reads a sign, white space and a natural and returns the signed value; without a natural it fails at the natural's index |
| TokenNumberLaws.IntReadsIntToString | jsparsec/src/Text/Parsec/Token.js:985-987 | `int_` reads back any integer printed in decimal and consumes all of it |
| TokenNumberLaws.NatHexExample | jsparsec/src/Text/Parsec/Token.js:977 | `nat` on "0x1F" returns 31 at 4 |
| TokenNumberLaws.NatHexWithoutDigitsExample | jsparsec/src/Text/Parsec/Token.js:970-971 | `nat` on "0xg" returns 0 at 2 |
| TokenNumberLaws.NatHexThenOctalExample | jsparsec/src/Text/Parsec/Token.js:970-972 | `nat` on "0xo7" returns 7 at 4: `octal` runs from after the `x` without a rewind |
| TokenNumberLaws.IntExample | jsparsec/src/Text/Parsec/Token.js:985-987 | `int_` on "- 12" returns -12 at 4 |
| TokenWordLaws.LetterOrUnderscore | jsparsec/src/Text/Parsec/Token.js:72-76 | the documented `identStart` example, `letter <\|> char('_')`, reads one letter or underscore |
| TokenWordLaws.WordSpec | jsparsec/src/Text/Parsec/Token.js:1126-1130 | for one-character start and letter parsers: a start character then the longest run of letters, returned as one string; without a start character a failure expects the label at the index |
| TokenWordLaws.IdentSpec | jsparsec/src/Text/Parsec/Token.js:1126-1130 | for any one-character `identStart` and `identLetter`, `ident` returns the identifier at the cursor or fails expecting "identifier" |
| TokenWordLaws.OperSpec | jsparsec/src/Text/Parsec/Token.js:1032-1036 | for any one-character `opStart` and `opLetter`, `oper` returns the operator at the cursor or fails expecting "operator" |
| TokenWordLaws.CheckedSpec | jsparsec/src/Text/Parsec/Token.js:1055-1064 | the checked word under `try_` and `lexeme`: a failure or a reserved word rewinds to the start, any other word is returned past the white space |
| TokenWordLaws.IdentifierSpec | jsparsec/src/Text/Parsec/Token.js:1181-1190 | `identifier`, as written, returns the word `ident` reads or refuses it as a reserved word without consuming; it succeeds exactly when `isReservedName` over the table as written misses the word; case-sensitive: it refuses exactly the listed names; case ignored: it refuses only names listed up to case, and all of them when the sorted table stays sorted once lowered |
| TokenWordLaws.IdentifierFixedSpec | jsparsec/src/Text/Parsec/Token.js:1181-1190 | corrected `identifier`: it refuses exactly the reserved names (up to case when case is ignored), without consuming, and returns any other identifier |
| TokenWordLaws.IdentifierTakesReservedExample | jsparsec/src/Text/Parsec/Token.js:1199-1202 | with names "a" and "B" and case ignored, `identifier` as written returns "a" and the corrected one refuses it |
| TokenWordLaws.OperatorSpec | jsparsec/src/Text/Parsec/Token.js:1055-1064 | for any one-character `opStart` and `opLetter`, `operator` refuses exactly the reserved operators, without consuming, and returns any other operator |
| TokenWordLaws.CaseMatchFold | jsparsec/src/Text/Parsec/Token.js:1095-1099 | `caseChar(c)` accepts exactly the characters equal to `c` up to case |
| TokenWordLaws.CaseCharSpec | jsparsec/src/Text/Parsec/Token.js:1095-1099 | `caseChar(c)` consumes one character equal to `c` up to case, or fails without moving |
| TokenWordLaws.CaseMatchLenSpec | jsparsec/src/Text/Parsec/Token.js:1089-1093 | the whole name matches iff the input holding it lowers to the same text |
| TokenWordLaws.WalkSpec | jsparsec/src/Text/Parsec/Token.js:1089-1093 | `walk` consumes the case-insensitive match and fails, expecting the name, at the first mismatch |
| TokenWordLaws.CaseStringSpec | jsparsec/src/Text/Parsec/Token.js:1087-1103 | `caseString(name)` is `string(name)` in a case-sensitive language; otherwise it matches up to case, returns `name`, and fails at the first mismatch |
| TokenWordLaws.NameMatchesSpec | jsparsec/src/Text/Parsec/Token.js:1087-1103 | the name is matched exactly, or up to case when the language ignores case |
| TokenWordLaws.KeywordSpec | jsparsec/src/Text/Parsec/Token.js:1111-1116 | the text, then no further letter of a one-character letter parser, under `try_` and `lexeme`: a following letter fails expecting "end of name" at it, without consuming |
| TokenWordLaws.ReservedSpec | jsparsec/src/Text/Parsec/Token.js:1111-1116 | for any one-character `identLetter`, `reserved(name)` succeeds past the name and white space iff the name matches and no identifier letter follows; every failure rewinds |
| TokenWordLaws.ReservedOpSpec | jsparsec/src/Text/Parsec/Token.js:1017-1021 | for any one-character `opLetter`, `reservedOp(name)` succeeds past the operator and white space iff it matches and no operator letter follows; every failure rewinds |
| TokenWordLaws.ReservedOnName | jsparsec/src/Text/Parsec/Token.js:1111-1116 | for any one-character `identLetter`, with the name at the cursor, `reserved` depends only on the next character |
| TokenWordLaws.ReservedLetxExample | jsparsec/src/Text/Parsec/Token.js:1111-1116 | `reserved("let")` on "letx" fails expecting "end of let" at 3, at index 0 |
| TokenWordLaws.ReservedLetExample | jsparsec/src/Text/Parsec/Token.js:1111-1116 | `reserved("let")` on "let x" succeeds at 4 |

## Left out

- `run`, `evalThunks` and asynchronous running (Prim.js:180-195): the continuation-passing and thunk trampoline only bound the JavaScript stack. `Parse` describes the result handed to the final continuation, and `ProcessError` the message `run` builds from it.
- The operator-table syntax `do$`, `ex`, `exs` and the resolvers. The combinators they build are written out as `Parser` values.
- `match` (regular expressions), `ap`, `liftM*`, `sequence`, `skip_snd`, `unexpectedIdent`, and `ParseState.substr`, `toString` and `sourceLine`: these are not among the modelled operations.
- Char.js and Combinator.js are not part of this model. `digit`, `hexDigit`, `octDigit`, `oneOf`, `skipMany1`, `notFollowedBy`, `isort`, `unsafeCompare`, `consJoin` and `digitToInt` are given by their meaning:
  - `notFollowedBy` succeeds without moving exactly when its parser fails;
  - `isort` is an insertion sort;
  - `unsafeCompare` is the lexicographic order on characters.
- The link from a `do_` block's scope to the enclosing one. The source makes the block's scope with `new Scope(outerScope)` (Prim.js:250); `Scope` is defined outside Prim.js and is not part of this model. The usage note at Prim.js:728-731 reaches the outer block's bindings through the inner scope's property `scope` (`scope.scope.p`) and copies one into the inner scope before `returnCall` uses it. The model starts each `do_` block from an empty scope with no such property, so a `withScope` function cannot read an enclosing block's bindings.
- Aliasing of result objects: `parserPlus` writes `expecting` into the result it receives (Prim.js:396). With memoisation on, that can be a cached entry. The model treats results as values.
- Scope-dependent parsers under a memoising `tokenPrimP1`: the cache ignores the scope. `PrimState.Run` requires such parsers to be closed, and that precondition is what transparency needs.
- The `parser_id` counter: identities are parameters. The lexeme parsers of `Token` all use 0, because `Parse` does not read identities. So a lexeme parser holding two different memoising nodes (`nat`'s `char_('0')` and `satisfy(isDigit)`, say) does not meet `PrimState.Registered`, and the cache-transparency theorem of `PrimState.Run` does not cover the `Token` parsers; they are described by `Parse` alone.
- PrimLaws.ManyUnfold: `_many` (Prim.js:466-496) runs its parser again after every success. The model replies `Stuck` whenever a successful iteration does not end strictly after where it began and inside the input. That covers the iteration that does not move, after which the source loops forever. It also covers cases where the source goes on and may end: an iteration that moves past the end of the input (the next `char_` or `satisfy` then fails on `length <= 0`, Prim.js:563-580, so `many(do2(char_('a'), setPosition(5)))` on "a" succeeds with `[]` at 5 in the source); one that moves backward with `setPosition` to a place where the parser then fails; and one that does not move but changes the scope so that the next iteration fails. `ParseMany`, `PrimState.RunMany`, `PrimLaws.ManyAcc`, `PrimLaws.ManySucceeds` and `PrimLaws.Many1Spec` share this cut-off.
- PrimLaws.BindScopeThrows: the source throws `Can't use 'scope' as an identifier!` when `bind("scope", p)` is built (Prim.js:265-267), so no parser containing it ever exists. The model aborts only when that `Bind` node is run: `parserPlus(return_(null), bind("scope", q))` replies `Ok`. The laws are stated for every `Parser` value, including those the source cannot build.
- PrimState.Run and PrimState.RunBindP: the continuations of `parserBind` and `withScope` compute a denotation, not a `Parser`, so the engine evaluates them with `Parse` and moves the cursor to the result. The source runs the parser they return on the same state (Prim.js:223-233, 703-707), so the memoising primitives inside it read and fill the cache; in the model they do neither. Transparency of the cache is proved for everything outside those continuations.
- JavaScript exceptions (a `TypeError`, `Not in scope`, a `scope` binding) are the reply `Abort`. `setPosition(name)` with a binding that is not a position is also an `Abort`; the source would move to `NaN`.
- Numbers are unbounded integers. JavaScript doubles lose precision above 2^53, and the model does not capture that.
- Character classes and case mapping are over ASCII. Unicode letters, digits and case folding are left out.
- `whiteSpace` is that of a language without comments. `oneLineComment`, `multiLineComment` and the three other branches (Token.js:557-559) are left out.
- The `LanguageDef` record keeps only the fields the modelled parsers read. `makeTokenParser`'s record plumbing and the other lexeme parsers (`float`, `naturalOrFloat`, `charLiteral`, `stringLiteral`, escapes, `parens` and the rest) are not part of the core modelled here.
- The Token-level laws take the starting index inside the input (`i <= |input|`), as any index a parser reaches by reading is.
- PrimLaws.TryLetsPlusRetry: states the AST, success and end of the retried reply, not its expectation array.
- PrimLaws.BindRightIdentity: holds only for first-order parsers. `return_` builds a fresh result, so it drops the expectation of a success, and only a parser built with `parserBind` or `withScope` can succeed with one.
- TokenNames.IsReservedNameSpec: for a case-insensitive language it states that a hit is listed up to case, and the converse only when the sorted table stays sorted once lowered. The converse fails in general as written (see Findings).
- TokenWordLaws.IdentifierSpec: its success is pinned exactly to `IsReservedName` over the table as written; in terms of membership up to case, it states only that a refused name is listed, and the converse when the sorted table stays sorted once lowered, as in `TokenNames.IsReservedNameSpec`.
- TokenNames.CompareSpec: the source's `isReserved` returns `null` for an order that is none of LT, EQ or GT. The model's order is total, so that branch does not arise.

## Findings

| source | as written | input that shows it | evidently intended | confidence | as-written member | corrected member |
|---|---|---|---|---|---|---|
| jsparsec/src/Text/Parsec/Prim.js:205 | the column is `index` minus the length of the earlier lines joined by "\n". That is 0-based on the first line, because nothing is subtracted, and 1-based on later lines, because the last line feed is not counted | "a\nb": `a` is at column 0, `b` at column 1 | one base on every line | not executed | PrimError.ColumnBaseExample | PrimError.ColumnFixedSpec |
| jsparsec/src/Text/Parsec/Prim.js:215-216 | for an `{unexpected: name}` object, `processError` recurses on `e.expecting`, which is `undefined`, so it returns `undefined` and the `unexp` branch above is never reached | `unexpected("reserved word let")` as the failing expectation | a message naming the unexpected token | not executed | PrimError.UnexpectedIsUndefined | PrimError.UnexpectedFixed |
| jsparsec/src/Text/Parsec/Token.js:1199-1202 | the case-insensitive table is sorted and then lowered. The lowered table need not be sorted, and `isReserved` stops at the first greater name | reserved names "a" and "B", case ignored: "a" is not found, since "b" precedes it | every listed name found, up to case | not executed | TokenNames.LowerAfterSortMisses, TokenWordLaws.IdentifierTakesReservedExample | TokenNames.IsReservedNameFixedSpec, TokenWordLaws.IdentifierFixedSpec |
