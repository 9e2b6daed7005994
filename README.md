# Command-string lexer of redis-rs-macro, in Dafny

The `redis!` macro of redis-rs-macro takes a command written the way redis-cli
takes it, e.g. `SET "my key" {value}`, and splits it into arguments. A lexer,
`split_input`, does the splitting. It reads the string once, one character at a
time, and tracks one of five states:

- `Word`: inside a bare word;
- `SplitMarker`: between arguments;
- `DoubleQuote`: inside a double quote;
- `EscapedDoubleQuote`: inside a double quote, just after a backslash;
- `Braced`: inside `{...}`.

Each argument (`CmdArg`) carries its text and two flags, `is_quoted` and
`is_braced`. The macro later passes braced arguments on as Rust expressions
and the others as string literals.

This project models that lexer and proves what it does.

- `lexer.dfy` (module `Lexer`) holds the data model `State`, `CmdArg`, `LexError`
  and `Result`. It also holds the machine as pure functions:
  - `Step`: the transition on one character;
  - `Finish`: the end-of-input event;
  - `Run`: the fold of `Step` over the input;
  - `Split`: `Finish` after `Run` from the initial state.

  The same file has the imperative method `SplitInput`, written the way the
  source writes it. It runs one loop over the characters, keeping the state, the
  argument being built and the output in local variables. It is proved to equal
  `Split` on every input.
- `lexer_properties.dfy` (module `LexerProperties`) proves general properties
  about `Split`:
  - how whitespace, bare words, quoted spans, braced spans and escapes become
    arguments;
  - the three failures;
  - the flag invariants that every emitted argument satisfies;
  - two independent characterisations for inputs without spans: the plain
    whitespace split (`Fields`) and the join/split round trip.
- `lexer_examples.dfy` (module `LexerExamples`) proves, for the concrete inputs
  of the repository's unit tests, the results those tests expect. It also proves
  the documented quirks and one input for each failure.

Modelling decisions:

- The source's three `panic!`s become `Err(UnterminatedQuote)`,
  `Err(UnterminatedEscape)` and `Err(UnclosedBrace)`. An error carries no
  partial output.
- The source's `loop` pulls `Option<char>` from an iterator. The model splits it
  in two: a `while` loop over the characters, which are the `Some` arms, followed
  by the `None` arms as the end-of-input event.
- `mem::replace(&mut current_word.data, String::new())` followed by the two flag
  resets becomes "emit the current argument, then reset it to `Fresh`".
- Rust's `chars()` yields Unicode scalar values. Dafny's `char` is a Unicode
  scalar value too, so a `string` is modelled as `seq<char>`.

Two behaviours of the code are easy to miss:

- Closing a quote or brace does not start a new argument
  (src/lib.rs:78, src/lib.rs:97). The scanner goes back to `Word` and what
  follows joins the same argument: `"ab"cd` is the one quoted `abcd`.
- No empty bare argument is ever emitted. A split leaves the scanner in
  `SplitMarker` (src/lib.rs:52), which emits nothing at end of input
  (src/lib.rs:73). An empty argument comes only from `""` or `{}`.
  `SplitArgsOk` proves that every bare argument is non-empty.

## Model

| member | source | states |
|---|---|---|
| `Lexer.Step` | src/lib.rs:32-103 | One character never removes output. The output grows only when `Word` meets tab, space or newline. That grows it by exactly the current argument, after which the state is `SplitMarker` and the argument is reset to empty with both flags cleared. |
| `Lexer.Finish` | src/lib.rs:33-96 | At end of input, `Word` emits its pending argument and `SplitMarker` emits nothing. Ending inside a quote, after a backslash in a quote, or inside braces gives one distinct error each, with no partial output. |
| `Lexer.SplitInput` | src/lib.rs:25-106 | The imperative lexer, one pass with mutable state, returns exactly `Split(input)` on every input. Every property below about `Split` therefore holds of it. |
| `LexerProperties.StepKeepsOk` | src/lib.rs:32-103 | Every transition keeps the scanner invariant. Between arguments nothing is pending. Inside a quote only `is_quoted` is set, inside braces only `is_braced`. Emitted arguments stay well formed. |
| `LexerProperties.RunKeepsOk` | src/lib.rs:30-104 | The scanner invariant holds after any number of characters. |
| `LexerProperties.SplitArgsOk` | src/lib.rs:35-72 | No argument has both flags set. An argument with neither flag has non-empty text with no tab, space or newline in it. |
| `LexerProperties.SplitAfterBoundary` | src/lib.rs:44-53 | Once a prefix has brought the scanner back between arguments, the rest of the input is lexed independently, and its arguments follow the prefix's. |
| `LexerProperties.LeadingSplitsIgnored` | src/lib.rs:59-60 | Leading tab, space and newline, in any mix, do not change the result. |
| `LexerProperties.OnlySplitsGiveNothing` | src/lib.rs:59-73 | Empty input, or input made only of tab, space and newline, gives no arguments, not one empty argument. |
| `LexerProperties.WordRun` | src/lib.rs:54-57 | Inside a word, every character except tab, space and newline is appended, including `"` and `{`. The flags do not change. |
| `LexerProperties.PlainWordRun` | src/lib.rs:69-72 | A word that starts between arguments, does not start with `"` or `{` and has no splitting character is accumulated as itself, with neither flag set. |
| `LexerProperties.PlainWordThenSplit` | src/lib.rs:44-53 | A plain word followed by a splitting character is emitted as one bare argument, and the scanner is back between arguments. |
| `LexerProperties.EmitThenRest` | src/lib.rs:44-52 | An argument pending in `Word` is emitted at the next splitting character, after every argument emitted before it. The rest of the input is then lexed on its own. |
| `LexerProperties.QuoteBodyRun` | src/lib.rs:80-83 | Inside a quote, every character other than `"` and `\` is appended, whitespace included. |
| `LexerProperties.EscapedQuoteBodyRun` | src/lib.rs:75-93 | Inside a quote, a whole body is appended verbatim and the scanner stays inside the quote. Here a body is any characters other than `"`, where each backslash takes the next character, even `"`, with it. |
| `LexerProperties.EscapeKept` | src/lib.rs:85-93 | Inside a quote, a backslash and the next character, even `"`, are both appended verbatim, and the scanner stays inside the quote. |
| `LexerProperties.BraceBodyRun` | src/lib.rs:98-101 | Inside braces every character other than `}` is appended, whitespace and `{` included. |
| `LexerProperties.QuotedSpanRun` | src/lib.rs:61-84 | A quote opened between arguments yields its body, escapes included, without the delimiters and with `is_quoted` set. Characters right after the closing quote join the same argument. |
| `LexerProperties.BracedSpanRun` | src/lib.rs:65-102 | A brace opened between arguments yields its body without the delimiters, with `is_braced` set. The first `}` closes it, so braces do not nest. Characters right after it join the same argument. |
| `LexerProperties.QuotedArgument` | src/lib.rs:44-84 | `"q"w`, for any quote body `q` (escapes included), is the one quoted argument `qw`. Followed by a splitting character and more input, it is emitted in front of whatever the rest lexes to, including the rest's error. |
| `LexerProperties.BracedArgument` | src/lib.rs:44-102 | `{q}w` is the one braced argument `qw`. Followed by a splitting character and more input, it is emitted in front of whatever the rest lexes to, including the rest's error. |
| `LexerProperties.EscapedQuoteArgument` | src/lib.rs:75-93 | In `"q1\cq2"` the escaped `c` does not close the quote. The argument is `q1\cq2`, backslash kept, with `is_quoted` set. |
| `LexerProperties.UnterminatedQuoteFails` | src/lib.rs:75-77 | Input that ends inside a quote opened between arguments, after any body with escapes in it, fails with `UnterminatedQuote`. |
| `LexerProperties.UnterminatedEscapeFails` | src/lib.rs:85-87 | Input that ends right after a backslash inside a quote, whatever escapes come before it, fails with `UnterminatedEscape`. |
| `LexerProperties.UnclosedBraceFails` | src/lib.rs:94-96 | Input that ends inside braces fails with `UnclosedBrace`. |
| `LexerProperties.SplitIsFields` | src/lib.rs:23-72 | When no whitespace-separated field starts with `"` or `{`, the lexer never fails. Its arguments are then exactly those fields, in order, as bare arguments. |
| `LexerProperties.JoinSplitRoundTrip` | src/lib.rs:44-72 | Non-empty words without splitting characters that do not start with `"` or `{`, joined by single spaces, lex back to exactly those words as bare arguments. |
| `LexerExamples.SplitEmpty` | src/lib.rs:201-204 | The empty string gives no arguments. |
| `LexerExamples.SplitLeadingWhitespace` | src/lib.rs:206-242 | `" abcd"`, `"\tabcd"`, `"\nabcd"` and `" \n\tabcd"` each give the one bare argument `abcd`. |
| `LexerExamples.SplitNormal` | src/lib.rs:244-261 | `abcd 123` gives the bare arguments `abcd` and `123`. |
| `LexerExamples.SplitDoubleQuotes` | src/lib.rs:263-280 | `"abcd 123" abcd` gives the quoted `abcd 123`, then the bare `abcd`. |
| `LexerExamples.SplitBraces` | src/lib.rs:282-299 | `{abcd 123} abcd` gives the braced `abcd 123`, then the bare `abcd`. |
| `LexerExamples.CarriageReturnIsContent` | src/lib.rs:44-57 | A carriage return does not split: `a\rb c` gives `a\rb` and `c`. |
| `LexerExamples.SpanOpensOnlyBetweenArguments` | src/lib.rs:54-57 | Inside a word, `"` and `{` are ordinary characters: `ab"c d"` gives the bare `ab"c` and `d"`. |
| `LexerExamples.SpanJoinsWhatFollows` | src/lib.rs:78-97 | `"ab"cd` is the one quoted `abcd`. `{a{b}c}` is the one braced `a{bc}`. `""` is one empty quoted argument. |
| `LexerExamples.EscapeIsNotResolved` | src/lib.rs:85-93 | `"a\"b"` gives the quoted `a\"b`, backslash kept. `"a\" b" c` gives the quoted `a\" b`, then the bare `c`. |
| `LexerExamples.SplitFailures` | src/lib.rs:75-96 | `"abc` fails with an unterminated quote, `"abc\` with an unterminated escape, and `{abc` with an unclosed brace. `"a\"b` fails with an unterminated quote, because the escaped quote does not close it. |

## Left out

- The `redis` procedural macro (src/lib.rs:147-182) is not modelled. It turns
  the arguments into a `redis::cmd(..).arg(..)` call through `proc_macro`,
  `syn` and `quote`. That is compile-time code generation through foreign
  libraries whose behaviour the model cannot see.
- The integration tests in `tests/` are not modelled. They expand the macro and
  talk to a mock Redis connection, which is external I/O, not lexer logic.
- The test helper `split_` (src/lib.rs:188-199) is not modelled. It is only a
  loop of assertions. Its cases are proved here as the `LexerExamples` lemmas.
- The model does not capture a `panic!` unwinding the process. Each panic is
  modelled as an error value that the caller receives.
- `String`'s allocation and the `chars` iterator object are not modelled.
  `mem::replace` is modelled only by its effect: the text is taken and the
  buffer is left empty.
