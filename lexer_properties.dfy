/** What the lexer promises its callers, proved about `Lexer.Split`: how whitespace,
    quoted and braced spans become arguments, the three distinct failures, the flag
    invariants of every emitted argument, and two reference characterisations
    (whitespace fields, and the join/split round trip) for inputs without spans. */
module LexerProperties {
  import opened Lexer

  /** Arguments emitted before `out`, followed by those of another result. */
  function Prepend(out: seq<CmdArg>, r: Result<seq<CmdArg>>): Result<seq<CmdArg>> {
    match r
    case Ok(args) => Ok(out + args)
    case Err(e) => Err(e)
  }

  predicate AllSplit(s: string) {
    forall i :: 0 <= i < |s| ==> IsSplit(s[i])
  }

  predicate NoQuoteEnd(s: string) {
    forall i :: 0 <= i < |s| ==> s[i] != '"' && s[i] != '\\'
  }

  /** A quote body as the scanner reads it: characters other than `"`, where a
      backslash always takes the next character with it, even a `"`. */
  predicate QuoteBody(q: string)
    decreases |q|
  {
    q == [] ||
    (q[0] != '"' && q[0] != '\\' && QuoteBody(q[1..])) ||
    (q[0] == '\\' && |q| >= 2 && QuoteBody(q[2..]))
  }

  /** Text with neither a quote nor a backslash is a quote body. */
  lemma {:induction false} PlainQuoteBody(q: string)
    requires NoQuoteEnd(q)
    ensures QuoteBody(q)
    decreases |q|
  {
    if q != [] {
      PlainQuoteBody(q[1..]);
    }
  }

  predicate NoBraceEnd(s: string) {
    forall i :: 0 <= i < |s| ==> s[i] != '}'
  }

  /** A word that lexes back to itself: non-empty, no splitting character, and
      not starting with a character that opens a span. */
  predicate PlainWord(w: string) {
    w != [] && NoSplit(w) && w[0] != '"' && w[0] != '{'
  }

  predicate AllPlain(ws: seq<string>) {
    forall i :: 0 <= i < |ws| ==> PlainWord(ws[i])
  }

  /** The arguments for bare words: their text, neither flag set. */
  function Bare(ws: seq<string>): seq<CmdArg> {
    if ws == [] then [] else [CmdArg(ws[0], false, false)] + Bare(ws[1..])
  }

  /** Words joined by single spaces. */
  function Join(ws: seq<string>): string
    decreases |ws|
  {
    if |ws| == 0 then []
    else if |ws| == 1 then ws[0]
    else ws[0] + [' '] + Join(ws[1..])
  }

  // ---------------------------------------------------------------------------
  // Flag invariants

  /** What every emitted argument satisfies: never both flags, and a bare argument
      has non-empty text with no splitting character in it. */
  predicate ArgOk(a: CmdArg) {
    !(a.isQuoted && a.isBraced) &&
    (!a.isQuoted && !a.isBraced ==> a.data != [] && NoSplit(a.data))
  }

  /** The scanner invariant: emitted arguments are well formed, between arguments
      nothing is pending, and inside a span exactly the span's flag is set. */
  predicate ScanOk(s: Scan) {
    (forall i :: 0 <= i < |s.output| ==> ArgOk(s.output[i])) &&
    match s.state
    case SplitMarker => s.current == Fresh
    case Word => ArgOk(s.current)
    case DoubleQuote => s.current.isQuoted && !s.current.isBraced
    case EscapedDoubleQuote => s.current.isQuoted && !s.current.isBraced
    case Braced => s.current.isBraced && !s.current.isQuoted
  }

  lemma StepKeepsOk(s: Scan, c: char)
    requires ScanOk(s)
    ensures ScanOk(Step(s, c))
  {
  }

  lemma {:induction false} RunKeepsOk(s: Scan, input: string)
    requires ScanOk(s)
    ensures ScanOk(Run(s, input))
    decreases |input|
  {
    if input != [] {
      StepKeepsOk(s, input[0]);
      RunKeepsOk(Step(s, input[0]), input[1..]);
    }
  }

  /** Every argument of a successful split is well formed. */
  lemma SplitArgsOk(input: string)
    requires Split(input).Ok?
    ensures forall i :: 0 <= i < |Split(input).value| ==> ArgOk(Split(input).value[i])
  {
    RunKeepsOk(Initial, input);
  }

  // ---------------------------------------------------------------------------
  // Composition

  /** What was emitted before a run plays no part in the run. */
  lemma {:induction false} RunFrame(st: State, cur: CmdArg, out: seq<CmdArg>, input: string)
    ensures Run(Scan(st, cur, out), input)
         == var t := Run(Scan(st, cur, []), input); Scan(t.state, t.current, out + t.output)
    decreases |input|
  {
    if input != [] {
      var s0 := Step(Scan(st, cur, []), input[0]);
      var s1 := Step(Scan(st, cur, out), input[0]);
      assert s1 == Scan(s0.state, s0.current, out + s0.output);
      RunFrame(s0.state, s0.current, out + s0.output, input[1..]);
      RunFrame(s0.state, s0.current, s0.output, input[1..]);
      var t := Run(Scan(s0.state, s0.current, []), input[1..]);
      assert out + (s0.output + t.output) == (out + s0.output) + t.output;
    }
  }

  /** Once a prefix has brought the scanner back between arguments, the rest of
      the input is lexed as if it stood alone. */
  lemma SplitAfterBoundary(p: string, s: string, out: seq<CmdArg>)
    requires Run(Initial, p) == Scan(SplitMarker, Fresh, out)
    ensures Split(p + s) == Prepend(out, Split(s))
  {
    RunConcat(Initial, p, s);
    RunFrame(SplitMarker, Fresh, out, s);
    var t := Run(Initial, s);
    if t.state == Word {
      assert out + t.output + [t.current] == out + (t.output + [t.current]);
    }
  }

  // ---------------------------------------------------------------------------
  // Whitespace

  lemma {:induction false} SkipSplits(out: seq<CmdArg>, ws: string)
    requires AllSplit(ws)
    ensures Run(Scan(SplitMarker, Fresh, out), ws) == Scan(SplitMarker, Fresh, out)
    decreases |ws|
  {
    if ws != [] {
      SkipSplits(out, ws[1..]);
    }
  }

  /** Leading tab, space and newline, in any mix, change nothing. */
  lemma LeadingSplitsIgnored(ws: string, s: string)
    requires AllSplit(ws)
    ensures Split(ws + s) == Split(s)
  {
    SkipSplits([], ws);
    SplitAfterBoundary(ws, s, []);
    match Split(s)
    case Ok(args) => assert [] + args == args;
    case Err(_) =>
  }

  /** Empty or all-whitespace input gives no argument at all, not one empty one. */
  lemma OnlySplitsGiveNothing(ws: string)
    requires AllSplit(ws)
    ensures Split(ws) == Ok([])
  {
    SkipSplits([], ws);
  }

  // ---------------------------------------------------------------------------
  // Words and spans

  /** Inside a word every character but a splitting one is content, including the
      quote and the opening brace; the flags are left alone. */
  lemma {:induction false} WordRun(cur: CmdArg, out: seq<CmdArg>, w: string)
    requires NoSplit(w)
    ensures Run(Scan(Word, cur, out), w) == Scan(Word, Append(cur, w), out)
    decreases |w|
  {
    if w == [] {
      assert cur.data + w == cur.data;
    } else {
      WordRun(Append(cur, [w[0]]), out, w[1..]);
      assert cur.data + [w[0]] + w[1..] == cur.data + w;
    }
  }

  /** A word that starts between arguments is accumulated as a bare argument. */
  lemma PlainWordRun(out: seq<CmdArg>, w: string)
    requires PlainWord(w)
    ensures Run(Scan(SplitMarker, Fresh, out), w) == Scan(Word, CmdArg(w, false, false), out)
  {
    assert NoSplit(w[1..]) by {
      forall i | 0 <= i < |w[1..]| ensures !IsSplit(w[1..][i]) {
        assert w[1..][i] == w[i + 1];
      }
    }
    assert Step(Scan(SplitMarker, Fresh, out), w[0]) == Scan(Word, CmdArg([w[0]], false, false), out);
    WordRun(CmdArg([w[0]], false, false), out, w[1..]);
    assert [w[0]] + w[1..] == w;
  }

  lemma {:induction false} QuoteBodyRun(cur: CmdArg, out: seq<CmdArg>, q: string)
    requires NoQuoteEnd(q)
    ensures Run(Scan(DoubleQuote, cur, out), q) == Scan(DoubleQuote, Append(cur, q), out)
    decreases |q|
  {
    if q == [] {
      assert cur.data + q == cur.data;
    } else {
      QuoteBodyRun(Append(cur, [q[0]]), out, q[1..]);
      assert cur.data + [q[0]] + q[1..] == cur.data + q;
    }
  }

  /** A backslash inside a quote is not resolved: it and the next character, even
      a quote, are both kept and the scanner stays inside the quote. */
  lemma EscapeKept(cur: CmdArg, out: seq<CmdArg>, c: char)
    ensures Run(Scan(DoubleQuote, cur, out), ['\\', c])
         == Scan(DoubleQuote, Append(cur, ['\\', c]), out)
  {
    var s1 := Scan(EscapedDoubleQuote, cur, out);
    assert ['\\', c][1..] == [c];
    assert Run(Scan(DoubleQuote, cur, out), ['\\', c]) == Run(s1, [c]);
    assert Run(s1, [c]) == Run(Step(s1, c), []);
  }

  /** A whole quote body, escapes included, is appended verbatim and leaves the
      scanner inside the quote. */
  lemma {:induction false} EscapedQuoteBodyRun(cur: CmdArg, out: seq<CmdArg>, q: string)
    requires QuoteBody(q)
    ensures Run(Scan(DoubleQuote, cur, out), q) == Scan(DoubleQuote, Append(cur, q), out)
    decreases |q|
  {
    if q == [] {
      assert cur.data + q == cur.data;
    } else if q[0] != '"' && q[0] != '\\' && QuoteBody(q[1..]) {
      EscapedQuoteBodyRun(Append(cur, [q[0]]), out, q[1..]);
      assert cur.data + [q[0]] + q[1..] == cur.data + q;
    } else {
      assert q == ['\\', q[1]] + q[2..];
      RunConcat(Scan(DoubleQuote, cur, out), ['\\', q[1]], q[2..]);
      EscapeKept(cur, out, q[1]);
      EscapedQuoteBodyRun(Append(cur, ['\\', q[1]]), out, q[2..]);
      assert cur.data + ['\\', q[1]] + q[2..] == cur.data + q;
    }
  }

  lemma {:induction false} BraceBodyRun(cur: CmdArg, out: seq<CmdArg>, q: string)
    requires NoBraceEnd(q)
    ensures Run(Scan(Braced, cur, out), q) == Scan(Braced, Append(cur, q), out)
    decreases |q|
  {
    if q == [] {
      assert cur.data + q == cur.data;
    } else {
      BraceBodyRun(Append(cur, [q[0]]), out, q[1..]);
      assert cur.data + [q[0]] + q[1..] == cur.data + q;
    }
  }

  /** A quoted span keeps its whitespace, loses its delimiters and sets the quoted
      flag; characters right after the closing quote join the same argument. */
  lemma QuotedSpanRun(out: seq<CmdArg>, q: string, w: string)
    requires QuoteBody(q) && NoSplit(w)
    ensures Run(Scan(SplitMarker, Fresh, out), ['"'] + q + ['"'] + w)
         == Scan(Word, CmdArg(q + w, true, false), out)
  {
    var s0 := Scan(SplitMarker, Fresh, out);
    RunConcat(s0, ['"'], q);
    RunConcat(s0, ['"'] + q, ['"']);
    RunConcat(s0, ['"'] + q + ['"'], w);
    EscapedQuoteBodyRun(CmdArg([], true, false), out, q);
    assert [] + q == q;
    WordRun(CmdArg(q, true, false), out, w);
  }

  /** A braced span keeps its whitespace, loses its delimiters and sets the braced
      flag; the first closing brace ends it, so braces do not nest, and characters
      right after it join the same argument. */
  lemma BracedSpanRun(out: seq<CmdArg>, q: string, w: string)
    requires NoBraceEnd(q) && NoSplit(w)
    ensures Run(Scan(SplitMarker, Fresh, out), ['{'] + q + ['}'] + w)
         == Scan(Word, CmdArg(q + w, false, true), out)
  {
    var s0 := Scan(SplitMarker, Fresh, out);
    RunConcat(s0, ['{'], q);
    RunConcat(s0, ['{'] + q, ['}']);
    RunConcat(s0, ['{'] + q + ['}'], w);
    BraceBodyRun(CmdArg([], false, true), out, q);
    assert [] + q == q;
    WordRun(CmdArg(q, false, true), out, w);
  }

  /** An argument pending in a word is emitted, after those emitted before it,
      at the next splitting character; the rest is lexed on its own. */
  lemma EmitThenRest(p: string, c: char, rest: string, a: CmdArg, out: seq<CmdArg>)
    requires Run(Initial, p) == Scan(Word, a, out)
    requires IsSplit(c)
    ensures Split(p + [c] + rest) == Prepend(out + [a], Split(rest))
  {
    RunSnoc(Initial, p, c);
    SplitAfterBoundary(p + [c], rest, out + [a]);
  }

  lemma QuotedArgument(q: string, w: string, c: char, rest: string)
    requires QuoteBody(q) && NoSplit(w) && IsSplit(c)
    ensures Split(['"'] + q + ['"'] + w) == Ok([CmdArg(q + w, true, false)])
    ensures Split(['"'] + q + ['"'] + w + [c] + rest)
         == Prepend([CmdArg(q + w, true, false)], Split(rest))
  {
    QuotedSpanRun([], q, w);
    assert [] + [CmdArg(q + w, true, false)] == [CmdArg(q + w, true, false)];
    EmitThenRest(['"'] + q + ['"'] + w, c, rest, CmdArg(q + w, true, false), []);
  }

  lemma BracedArgument(q: string, w: string, c: char, rest: string)
    requires NoBraceEnd(q) && NoSplit(w) && IsSplit(c)
    ensures Split(['{'] + q + ['}'] + w) == Ok([CmdArg(q + w, false, true)])
    ensures Split(['{'] + q + ['}'] + w + [c] + rest)
         == Prepend([CmdArg(q + w, false, true)], Split(rest))
  {
    BracedSpanRun([], q, w);
    assert [] + [CmdArg(q + w, false, true)] == [CmdArg(q + w, false, true)];
    EmitThenRest(['{'] + q + ['}'] + w, c, rest, CmdArg(q + w, false, true), []);
  }

  /** An escaped character inside a quote stays in the argument behind its
      backslash, and the quote closes only at the next unescaped quote. */
  lemma EscapedQuoteArgument(q1: string, c: char, q2: string)
    requires NoQuoteEnd(q1) && NoQuoteEnd(q2)
    ensures Split(['"'] + q1 + ['\\', c] + q2 + ['"'])
         == Ok([CmdArg(q1 + ['\\', c] + q2, true, false)])
  {
    var open := CmdArg([], true, false);
    var a1 := Append(open, q1);
    var a2 := Append(a1, ['\\', c]);
    var a3 := Append(a2, q2);
    RunConcat(Initial, ['"'], q1);
    QuoteBodyRun(open, [], q1);
    RunConcat(Initial, ['"'] + q1, ['\\', c]);
    EscapeKept(a1, [], c);
    RunConcat(Initial, ['"'] + q1 + ['\\', c], q2);
    QuoteBodyRun(a2, [], q2);
    RunSnoc(Initial, ['"'] + q1 + ['\\', c] + q2, '"');
    assert a3.data == q1 + ['\\', c] + q2;
    assert [] + [a3] == [a3];
  }

  // ---------------------------------------------------------------------------
  // Failures

  /** Input that ends inside a quote fails with an unterminated quote. */
  lemma UnterminatedQuoteFails(p: string, q: string)
    requires Run(Initial, p).state == SplitMarker
    requires QuoteBody(q)
    ensures Split(p + ['"'] + q) == Err(UnterminatedQuote)
  {
    var s := Run(Initial, p);
    RunSnoc(Initial, p, '"');
    RunConcat(Initial, p + ['"'], q);
    EscapedQuoteBodyRun(s.current.(isQuoted := true), s.output, q);
  }

  /** Input that ends right after a backslash inside a quote fails with an
      unterminated escape. */
  lemma UnterminatedEscapeFails(p: string, q: string)
    requires Run(Initial, p).state == SplitMarker
    requires QuoteBody(q)
    ensures Split(p + ['"'] + q + ['\\']) == Err(UnterminatedEscape)
  {
    var s := Run(Initial, p);
    RunSnoc(Initial, p, '"');
    RunConcat(Initial, p + ['"'], q);
    EscapedQuoteBodyRun(s.current.(isQuoted := true), s.output, q);
    RunSnoc(Initial, p + ['"'] + q, '\\');
  }

  /** Input that ends inside braces fails with an unclosed brace. */
  lemma UnclosedBraceFails(p: string, q: string)
    requires Run(Initial, p).state == SplitMarker
    requires NoBraceEnd(q)
    ensures Split(p + ['{'] + q) == Err(UnclosedBrace)
  {
    var s := Run(Initial, p);
    RunSnoc(Initial, p, '{');
    RunConcat(Initial, p + ['{'], q);
    BraceBodyRun(s.current.(isBraced := true), s.output, q);
  }

  // ---------------------------------------------------------------------------
  // Reference characterisations for inputs without spans

  /** Length of the longest prefix without a splitting character. */
  function WordLen(s: string): (n: nat)
    ensures n <= |s| && NoSplit(s[..n]) && (n < |s| ==> IsSplit(s[n]))
  {
    if s == [] || IsSplit(s[0]) then 0
    else
      var n := 1 + WordLen(s[1..]);
      assert s[..n] == [s[0]] + s[1..][..n - 1];
      n
  }

  /** The maximal runs of non-splitting characters, in order. */
  function Fields(s: string): (r: seq<string>)
    ensures forall i :: 0 <= i < |r| ==> r[i] != [] && NoSplit(r[i])
    decreases |s|
  {
    if s == [] then []
    else if IsSplit(s[0]) then Fields(s[1..])
    else [s[..WordLen(s)]] + Fields(s[WordLen(s)..])
  }

  /** A plain word and a splitting character bring the scanner back between
      arguments, with the word emitted. */
  lemma PlainWordThenSplit(out: seq<CmdArg>, w: string, c: char)
    requires PlainWord(w) && IsSplit(c)
    ensures Run(Scan(SplitMarker, Fresh, out), w + [c])
         == Scan(SplitMarker, Fresh, out + [CmdArg(w, false, false)])
  {
    RunSnoc(Scan(SplitMarker, Fresh, out), w, c);
    PlainWordRun(out, w);
  }

  /** How `Fields` takes a leading word off. */
  lemma FieldsOfWord(s: string)
    requires s != [] && !IsSplit(s[0])
    ensures Fields(s) == [s[..WordLen(s)]] + Fields(s[WordLen(s)..])
    ensures WordLen(s) < |s| ==> Fields(s[WordLen(s)..]) == Fields(s[WordLen(s) + 1..])
  {
  }

  lemma AllPlainTail(ws: seq<string>)
    requires AllPlain(ws) && ws != []
    ensures PlainWord(ws[0]) && AllPlain(ws[1..])
  {
  }

  lemma {:induction false} FieldsRun(out: seq<CmdArg>, s: string)
    requires AllPlain(Fields(s))
    ensures Finish(Run(Scan(SplitMarker, Fresh, out), s)) == Ok(out + Bare(Fields(s)))
    decreases |s|
  {
    if s == [] {
      assert out + [] == out;
    } else if IsSplit(s[0]) {
      assert Fields(s) == Fields(s[1..]);
      FieldsRun(out, s[1..]);
    } else {
      var n := WordLen(s);
      var w := s[..n];
      var a := CmdArg(w, false, false);
      FieldsOfWord(s);
      AllPlainTail(Fields(s));
      BareCons(w, Fields(s[n..]));
      if n == |s| {
        assert s == w;
        PlainWordRun(out, w);
        assert Fields(s[n..]) == [];
        assert Bare(Fields(s)) == [a];
      } else {
        var more := s[n + 1..];
        var s0 := Scan(SplitMarker, Fresh, out);
        assert s == w + [s[n]] + more;
        RunConcat(s0, w + [s[n]], more);
        PlainWordThenSplit(out, w, s[n]);
        FieldsRun(out + [a], more);
        assert out + [a] + Bare(Fields(more)) == out + ([a] + Bare(Fields(more)));
      }
    }
  }

  lemma BareCons(w: string, ws: seq<string>)
    ensures Bare([w] + ws) == [CmdArg(w, false, false)] + Bare(ws)
  {
  }

  /** When no field starts a span, the lexer is the plain whitespace split: every
      field becomes one bare argument, and the lexer cannot fail. */
  lemma SplitIsFields(s: string)
    requires AllPlain(Fields(s))
    ensures Split(s) == Ok(Bare(Fields(s)))
  {
    FieldsRun([], s);
    assert [] + Bare(Fields(s)) == Bare(Fields(s));
  }

  lemma {:induction false} JoinRun(out: seq<CmdArg>, ws: seq<string>)
    requires AllPlain(ws)
    ensures Finish(Run(Scan(SplitMarker, Fresh, out), Join(ws))) == Ok(out + Bare(ws))
    decreases |ws|
  {
    if |ws| == 0 {
      assert out + [] == out;
    } else if |ws| == 1 {
      PlainWordRun(out, ws[0]);
      assert Bare(ws) == [CmdArg(ws[0], false, false)];
    } else {
      var a := CmdArg(ws[0], false, false);
      var tail := ws[1..];
      assert Join(ws) == ws[0] + [' '] + Join(tail);
      assert Bare(ws) == [a] + Bare(tail);
      AllPlainTail(ws);
      RunConcat(Scan(SplitMarker, Fresh, out), ws[0] + [' '], Join(tail));
      PlainWordThenSplit(out, ws[0], ' ');
      JoinRun(out + [a], tail);
      assert out + [a] + Bare(tail) == out + ([a] + Bare(tail));
    }
  }

  /** Round trip: plain words joined by single spaces lex back to exactly those
      words, as bare arguments. */
  lemma JoinSplitRoundTrip(ws: seq<string>)
    requires AllPlain(ws)
    ensures Split(Join(ws)) == Ok(Bare(ws))
  {
    JoinRun([], ws);
    assert [] + Bare(ws) == Bare(ws);
  }
}
