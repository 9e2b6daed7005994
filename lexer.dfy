/** The command-string lexer of the `redis!` macro: a single-pass scanner that
    splits a command string into arguments, keeping double-quoted and braced
    spans together and flagging how each argument was delimited. */
module Lexer {

  /** The scanner states: inside an unquoted word, between arguments (only tab,
      space and newline split; carriage return does not), inside a double quote,
      inside a double quote right after a backslash, inside braces. */
  datatype State = Word | DoubleQuote | SplitMarker | EscapedDoubleQuote | Braced

  /** One command argument: its text and how it was delimited. */
  datatype CmdArg = CmdArg(data: string, isQuoted: bool, isBraced: bool)

  /** The three ways the input can end inside an open span. */
  datatype LexError = UnterminatedQuote | UnterminatedEscape | UnclosedBrace

  /** Either every argument of the input or the one error that stopped the scan. */
  datatype Result<T> = Ok(value: T) | Err(error: LexError)

  /** The empty argument the scanner starts from and resets to after emitting one. */
  const Fresh: CmdArg := CmdArg([], false, false)

  /** The characters that separate arguments. */
  predicate IsSplit(c: char) {
    c == '\t' || c == ' ' || c == '\n'
  }

  predicate NoSplit(s: string) {
    forall i :: 0 <= i < |s| ==> !IsSplit(s[i])
  }

  /** The whole configuration of the scanner between two characters: the state,
      the argument being accumulated and the arguments emitted so far. */
  datatype Scan = Scan(state: State, current: CmdArg, output: seq<CmdArg>)

  const Initial: Scan := Scan(SplitMarker, Fresh, [])

  function Append(a: CmdArg, s: string): CmdArg {
    a.(data := a.data + s)
  }

  /** The transition on one input character. Only `Word` ever emits, and only on a
      splitting character; emitting resets the accumulated argument. */
  function Step(s: Scan, c: char): (r: Scan)
    ensures r.output == s.output || r.output == s.output + [s.current]
    ensures r.output != s.output <==> s.state == Word && IsSplit(c)
    ensures r.output != s.output ==> r.state == SplitMarker && r.current == Fresh
  {
    match s.state
    case Word =>
      if IsSplit(c) then Scan(SplitMarker, Fresh, s.output + [s.current])
      else Scan(Word, Append(s.current, [c]), s.output)
    case SplitMarker =>
      if IsSplit(c) then s
      else if c == '"' then Scan(DoubleQuote, s.current.(isQuoted := true), s.output)
      else if c == '{' then Scan(Braced, s.current.(isBraced := true), s.output)
      else Scan(Word, Append(s.current, [c]), s.output)
    case DoubleQuote =>
      if c == '"' then s.(state := Word)
      else if c == '\\' then s.(state := EscapedDoubleQuote)
      else Scan(DoubleQuote, Append(s.current, [c]), s.output)
    case EscapedDoubleQuote =>
      Scan(DoubleQuote, Append(s.current, ['\\', c]), s.output)
    case Braced =>
      if c == '}' then s.(state := Word)
      else Scan(Braced, Append(s.current, [c]), s.output)
  }

  /** The end-of-input event: a pending word is emitted, an open span is an error,
      and an error carries no partial output. */
  function Finish(s: Scan): (r: Result<seq<CmdArg>>)
    ensures r.Ok? <==> s.state == Word || s.state == SplitMarker
    ensures r.Ok? ==> r.value == s.output + (if s.state == Word then [s.current] else [])
    ensures r == Err(UnterminatedQuote) <==> s.state == DoubleQuote
    ensures r == Err(UnterminatedEscape) <==> s.state == EscapedDoubleQuote
    ensures r == Err(UnclosedBrace) <==> s.state == Braced
  {
    match s.state
    case Word => Ok(s.output + [s.current])
    case SplitMarker => Ok(s.output)
    case DoubleQuote => Err(UnterminatedQuote)
    case EscapedDoubleQuote => Err(UnterminatedEscape)
    case Braced => Err(UnclosedBrace)
  }

  /** The scanner after consuming every character of `input`, in order. */
  function Run(s: Scan, input: string): Scan
    decreases |input|
  {
    if input == [] then s else Run(Step(s, input[0]), input[1..])
  }

  /** The lexer as a function: run over the whole string, then end of input. */
  function Split(input: string): Result<seq<CmdArg>> {
    Finish(Run(Initial, input))
  }

  /** Consuming `a` and then `b` is consuming `a + b`. */
  lemma {:induction false} RunConcat(s: Scan, a: string, b: string)
    ensures Run(s, a + b) == Run(Run(s, a), b)
    decreases |a|
  {
    if a == [] {
      assert a + b == b;
    } else {
      assert (a + b)[0] == a[0];
      assert (a + b)[1..] == a[1..] + b;
      RunConcat(Step(s, a[0]), a[1..], b);
    }
  }

  /** Consuming one more character is one more `Step`. */
  lemma RunSnoc(s: Scan, a: string, c: char)
    ensures Run(s, a + [c]) == Step(Run(s, a), c)
  {
    RunConcat(s, a, [c]);
    assert Run(Run(s, a), [c]) == Run(Step(Run(s, a), c), []);
  }

  /** The lexer as the source writes it: one pass over the characters with the
      state, the accumulated argument and the output in local variables, then the
      end-of-input event. */
  method SplitInput(input: string) returns (r: Result<seq<CmdArg>>)
    ensures r == Split(input)
  {
    var output: seq<CmdArg> := [];
    var current := Fresh;
    var state := SplitMarker;
    var i := 0;
    while i < |input|
      invariant 0 <= i <= |input|
      invariant Run(Initial, input[..i]) == Scan(state, current, output)
    {
      var c := input[i];
      RunSnoc(Initial, input[..i], c);
      assert input[..i + 1] == input[..i] + [c];
      match state {
        case Word =>
          if IsSplit(c) {
            output := output + [current];
            current := Fresh;
            state := SplitMarker;
          } else {
            current := current.(data := current.data + [c]);
          }
        case SplitMarker =>
          if IsSplit(c) {
          } else if c == '"' {
            current := current.(isQuoted := true);
            state := DoubleQuote;
          } else if c == '{' {
            current := current.(isBraced := true);
            state := Braced;
          } else {
            current := current.(data := current.data + [c]);
            state := Word;
          }
        case DoubleQuote =>
          if c == '"' {
            state := Word;
          } else if c == '\\' {
            state := EscapedDoubleQuote;
          } else {
            current := current.(data := current.data + [c]);
          }
        case EscapedDoubleQuote =>
          current := current.(data := current.data + ['\\', c]);
          state := DoubleQuote;
        case Braced =>
          if c == '}' {
            state := Word;
          } else {
            current := current.(data := current.data + [c]);
          }
      }
      i := i + 1;
    }
    assert input[..i] == input;
    match state {
      case Word =>
        output := output + [current];
        current := Fresh;
        r := Ok(output);
      case SplitMarker =>
        r := Ok(output);
      case DoubleQuote =>
        r := Err(UnterminatedQuote);
      case EscapedDoubleQuote =>
        r := Err(UnterminatedEscape);
      case Braced =>
        r := Err(UnclosedBrace);
    }
  }
}
