/** The lexer's documented cases, as lemmas about `Lexer.Split`: the cases the
    repository's unit tests pin down, the quirks of where spans may open and how
    they join what follows, and one input for each of the three failures. */
module LexerExamples {
  import opened Lexer
  import opened LexerProperties

  lemma SplitEmpty()
    ensures Split("") == Ok([])
  {
  }

  lemma SplitLeadingWhitespace()
    ensures Split(" abcd") == Ok([CmdArg("abcd", false, false)])
    ensures Split("\tabcd") == Ok([CmdArg("abcd", false, false)])
    ensures Split("\nabcd") == Ok([CmdArg("abcd", false, false)])
    ensures Split(" \n\tabcd") == Ok([CmdArg("abcd", false, false)])
  {
    OneWord("abcd");
    assert " abcd" == " " + "abcd";
    LeadingSplitsIgnored(" ", "abcd");
    LeadingSplitsIgnored("\t", "abcd");
    LeadingSplitsIgnored("\n", "abcd");
    LeadingSplitsIgnored(" \n\t", "abcd");
  }

  /** A single plain word is one bare argument. */
  lemma OneWord(w: string)
    requires PlainWord(w)
    ensures Split(w) == Ok([CmdArg(w, false, false)])
  {
    JoinSplitRoundTrip([w]);
    BareCons(w, []);
    assert [w] + [] == [w];
    assert Bare([]) == [];
    assert [CmdArg(w, false, false)] + [] == [CmdArg(w, false, false)];
    assert Join([w]) == w;
  }

  /** Two plain words with one space between them are two bare arguments. */
  lemma TwoWords(w1: string, w2: string)
    requires PlainWord(w1) && PlainWord(w2)
    ensures Split(w1 + " " + w2) == Ok([CmdArg(w1, false, false), CmdArg(w2, false, false)])
  {
    JoinSplitRoundTrip([w1, w2]);
    assert [w1, w2][1..] == [w2];
    assert Join([w1, w2]) == w1 + " " + Join([w2]);
    OneWord(w2);
    assert Join([w2]) == w2;
    assert Bare([w2]) == [CmdArg(w2, false, false)];
    BareCons(w1, [w2]);
    assert [w1] + [w2] == [w1, w2];
    assert [CmdArg(w1, false, false)] + [CmdArg(w2, false, false)]
        == [CmdArg(w1, false, false), CmdArg(w2, false, false)];
  }

  lemma SplitNormal()
    ensures Split("abcd 123") == Ok([CmdArg("abcd", false, false), CmdArg("123", false, false)])
  {
    assert "abcd 123" == "abcd" + " " + "123";
    TwoWords("abcd", "123");
  }

  lemma SplitDoubleQuotes()
    ensures Split("\"abcd 123\" abcd")
         == Ok([CmdArg("abcd 123", true, false), CmdArg("abcd", false, false)])
  {
    assert "\"abcd 123\" abcd" == ['"'] + "abcd 123" + ['"'] + "" + [' '] + "abcd";
    PlainQuoteBody("abcd 123");
    QuotedArgument("abcd 123", "", ' ', "abcd");
    OneWord("abcd");
    assert "abcd 123" + "" == "abcd 123";
    assert [CmdArg("abcd 123", true, false)] + [CmdArg("abcd", false, false)]
        == [CmdArg("abcd 123", true, false), CmdArg("abcd", false, false)];
  }

  lemma SplitBraces()
    ensures Split("{abcd 123} abcd")
         == Ok([CmdArg("abcd 123", false, true), CmdArg("abcd", false, false)])
  {
    assert "{abcd 123} abcd" == ['{'] + "abcd 123" + ['}'] + "" + [' '] + "abcd";
    BracedArgument("abcd 123", "", ' ', "abcd");
    OneWord("abcd");
    assert "abcd 123" + "" == "abcd 123";
    assert [CmdArg("abcd 123", false, true)] + [CmdArg("abcd", false, false)]
        == [CmdArg("abcd 123", false, true), CmdArg("abcd", false, false)];
  }

  /** A carriage return is content, not a separator. */
  lemma CarriageReturnIsContent()
    ensures Split("a\rb c") == Ok([CmdArg("a\rb", false, false), CmdArg("c", false, false)])
  {
    assert "a\rb c" == "a\rb" + " " + "c";
    TwoWords("a\rb", "c");
  }

  /** Inside a word, a quote or an opening brace is an ordinary character. */
  lemma SpanOpensOnlyBetweenArguments()
    ensures Split("ab\"c d\"") == Ok([CmdArg("ab\"c", false, false), CmdArg("d\"", false, false)])
    ensures Split("ab{c d}") == Ok([CmdArg("ab{c", false, false), CmdArg("d}", false, false)])
  {
    assert "ab\"c d\"" == "ab\"c" + " " + "d\"";
    TwoWords("ab\"c", "d\"");
    assert "ab{c d}" == "ab{c" + " " + "d}";
    TwoWords("ab{c", "d}");
  }

  /** What follows a closing quote or brace joins the same argument, whose flag
      stays set; braces do not nest. */
  lemma SpanJoinsWhatFollows()
    ensures Split("\"ab\"cd") == Ok([CmdArg("abcd", true, false)])
    ensures Split("{a{b}c}") == Ok([CmdArg("a{bc}", false, true)])
    ensures Split("\"\"") == Ok([CmdArg("", true, false)])
  {
    assert "\"ab\"cd" == ['"'] + "ab" + ['"'] + "cd";
    PlainQuoteBody("ab");
    QuotedArgument("ab", "cd", ' ', "");
    assert "ab" + "cd" == "abcd";
    assert "{a{b}c}" == ['{'] + "a{b" + ['}'] + "c}";
    BracedArgument("a{b", "c}", ' ', "");
    assert "a{b" + "c}" == "a{bc}";
    assert "\"\"" == ['"'] + "" + ['"'] + "";
    QuotedArgument("", "", ' ', "");
  }

  /** A backslash-escaped quote keeps both characters, and does not end the
      quoted argument. */
  lemma EscapeIsNotResolved()
    ensures Split("\"a\\\"b\"") == Ok([CmdArg("a\\\"b", true, false)])
    ensures Split("\"a\\\" b\" c") == Ok([CmdArg("a\\\" b", true, false), CmdArg("c", false, false)])
  {
    assert QuoteBody("a\\\" b") by {
      assert "a\\\" b"[1..][2..] == " b";
      PlainQuoteBody(" b");
    }
    assert "\"a\\\" b\" c" == ['"'] + "a\\\" b" + ['"'] + "" + [' '] + "c";
    QuotedArgument("a\\\" b", "", ' ', "c");
    OneWord("c");
    assert "a\\\" b" + "" == "a\\\" b";
    assert [CmdArg("a\\\" b", true, false)] + [CmdArg("c", false, false)]
        == [CmdArg("a\\\" b", true, false), CmdArg("c", false, false)];
    assert "\"a\\\"b\"" == ['"'] + "a" + ['\\', '"'] + "b" + ['"'];
    EscapedQuoteArgument("a", '"', "b");
    assert "a" + ['\\', '"'] + "b" == "a\\\"b";
  }

  lemma SplitFailures()
    ensures Split("\"abc") == Err(UnterminatedQuote)
    ensures Split("\"abc\\") == Err(UnterminatedEscape)
    ensures Split("{abc") == Err(UnclosedBrace)
    ensures Split("\"a\\\"b") == Err(UnterminatedQuote)
  {
  }
}
