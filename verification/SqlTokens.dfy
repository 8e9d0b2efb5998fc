/** SQL text written as tokens, and what the scanners make of it: the placeholders are the question marks in plain text. */
module SqlTokens {
  import opened SqlLexer

  datatype Token =
    | Plain(text: string)
    | Quoted(text: string, quote: char)
    | Line(text: string, dashes: bool)
    | Block(text: string)

  /** Text outside quotes and comments: a dash or slash in it begins no comment. */
  predicate PlainText(s: string) {
    && (forall i :: 0 <= i < |s| ==> s[i] != '\'' && s[i] != '"' && s[i] != '`' && s[i] != '#')
    && (forall i :: 0 <= i < |s| && s[i] == '-' ==> i + 1 < |s| && s[i + 1] != '-')
    && (forall i :: 0 <= i < |s| && s[i] == '/' ==> i + 1 < |s| && s[i + 1] != '*')
  }

  predicate ValidToken(t: Token) {
    match t
    case Plain(text) => PlainText(text)
    case Quoted(text, quote) => quote == '\'' || ((quote == '"' || quote == '`') && quote !in text)
    case Line(text, _) => '\n' !in text
    case Block(text) => forall i :: 0 <= i < |text| - 1 ==> !(text[i] == '*' && text[i + 1] == '/')
  }

  function Twice(s: string): (r: string) {
    if s == "" then "" else Twice(s[..|s| - 1]) + (if s[|s| - 1] == '\'' then "''" else [s[|s| - 1]])
  }

  function TokenText(t: Token): (s: string) {
    match t
    case Plain(text) => text
    case Quoted(text, quote) => [quote] + (if quote == '\'' then Twice(text) else text) + [quote]
    case Line(text, dashes) => (if dashes then "--" else "#") + text + "\n"
    case Block(text) => "/*" + text + "*/"
  }

  function Questions(s: string): (n: nat) {
    if s == "" then 0 else Questions(s[..|s| - 1]) + if s[|s| - 1] == '?' then 1 else 0
  }

  function TokenQuestions(t: Token): nat {
    if t.Plain? then Questions(t.text) else 0
  }

  function TokensText(ts: seq<Token>): (s: string) {
    if ts == [] then "" else TokenText(ts[0]) + TokensText(ts[1..])
  }

  function TokensQuestions(ts: seq<Token>): (n: nat) {
    if ts == [] then 0 else TokenQuestions(ts[0]) + TokensQuestions(ts[1..])
  }

  /** Between tokens: outside quotes and comments, perhaps behind a quoted text. */
  predicate Between(q: Lex) {
    q == Normal || q == QuoteInQuote
  }

  lemma {:induction false} ScanNothing(q: Lex, s: string)
    ensures Scan(q, s[..0]) == q && Marks(q, s[..0]) == 0
  {
  }

  /** A text whose every prefix stays in one state, inside quotes or comments. */
  lemma {:induction false} ScanInside(q: Lex, s: string, n: nat)
    requires n <= |s| && !Active(q) && q != StarInBlock && q != BlockComment
    requires forall i :: 0 <= i < n ==> Advance(q, s[i]) == q
    ensures Scan(q, s[..n]) == q && Marks(q, s[..n]) == 0
    decreases n
  {
    hide Scan, Marks;
    if n == 0 {
      ScanNothing(q, s);
    } else {
      ScanInside(q, s, n - 1);
      ScanStep(q, s, n - 1);
    }
  }

  lemma {:induction false} ScanPlain(q: Lex, s: string, n: nat)
    requires PlainText(s) && Between(q) && n <= |s|
    ensures Scan(q, s[..n]) ==
            (if n == 0 then q else if s[n - 1] == '-' then Dash else if s[n - 1] == '/' then Slash else Normal)
    ensures Marks(q, s[..n]) == Questions(s[..n])
    decreases n
  {
    hide Scan, Marks;
    if n == 0 {
      ScanNothing(q, s);
    } else {
      ScanPlain(q, s, n - 1);
      ScanStep(q, s, n - 1);
      assert s[..n][..n - 1] == s[..n - 1];
    }
  }

  lemma {:induction false} ScanTwice(s: string)
    ensures Scan(SingleQuote, Twice(s)) == SingleQuote && Marks(SingleQuote, Twice(s)) == 0
    decreases |s|
  {
    hide Scan, Marks;
    if s == "" {
      ScanNothing(SingleQuote, "");
      assert Twice(s) == ""[..0];
    } else {
      var head, c := Twice(s[..|s| - 1]), s[|s| - 1];
      ScanTwice(s[..|s| - 1]);
      if c == '\'' {
        ScanConcat(SingleQuote, head, "'");
        ScanOne(SingleQuote, '\'');
        ScanConcat(SingleQuote, head + "'", "'");
        ScanOne(QuoteInQuote, '\'');
        assert Twice(s) == head + "'" + "'";
      } else {
        ScanConcat(SingleQuote, head, [c]);
        ScanOne(SingleQuote, c);
      }
    }
  }

  lemma {:induction false} ScanBlock(s: string, n: nat)
    requires n <= |s| && forall i :: 0 <= i < |s| - 1 ==> !(s[i] == '*' && s[i + 1] == '/')
    ensures Scan(BlockComment, s[..n]) == (if n > 0 && s[n - 1] == '*' then StarInBlock else BlockComment)
    ensures Marks(BlockComment, s[..n]) == 0
    decreases n
  {
    hide Scan, Marks;
    if n == 0 {
      ScanNothing(BlockComment, s);
    } else {
      ScanBlock(s, n - 1);
      ScanStep(BlockComment, s, n - 1);
    }
  }

  /** Three parts scanned one after the other. */
  lemma {:induction false} ScanThree(q: Lex, a: string, b: string, c: string)
    ensures Scan(q, a + b + c) == Scan(Scan(Scan(q, a), b), c)
    ensures Marks(q, a + b + c) == Marks(q, a) + Marks(Scan(q, a), b) + Marks(Scan(Scan(q, a), b), c)
  {
    hide Scan, Marks;
    ScanConcat(q, a + b, c);
    ScanConcat(q, a, b);
  }

  lemma {:induction false} ScanTwo(q: Lex, a: char, b: char)
    ensures Scan(q, [a, b]) == Advance(Advance(q, a), b)
    ensures Marks(q, [a, b]) == (if IsMark(q, a) then 1 else 0) + if IsMark(Advance(q, a), b) then 1 else 0
  {
    hide Scan, Marks;
    ScanConcat(q, [a], [b]);
    ScanOne(q, a);
    ScanOne(Advance(q, a), b);
    assert [a] + [b] == [a, b];
  }

  lemma {:induction false} TokenScan(q: Lex, t: Token)
    requires ValidToken(t) && Between(q)
    ensures Between(Scan(q, TokenText(t))) && Marks(q, TokenText(t)) == TokenQuestions(t)
  {
    hide Scan, Marks;
    match t {
      case Plain(text) =>
        ScanPlain(q, text, |text|);
        assert text[..|text|] == text;
      case Quoted(text, quote) =>
        QuotedScan(q, text, quote);
      case Line(text, dashes) =>
        LineScan(q, text, dashes);
      case Block(text) =>
        ScanTwo(q, '/', '*');
        ScanBlock(text, |text|);
        assert text[..|text|] == text;
        var inside := Scan(BlockComment, text);
        ScanTwo(inside, '*', '/');
        ScanThree(q, "/*", text, "*/");
    }
  }

  lemma {:induction false} QuotedScan(q: Lex, text: string, quote: char)
    requires ValidToken(Quoted(text, quote)) && Between(q)
    ensures var s := TokenText(Quoted(text, quote)); Between(Scan(q, s)) && Marks(q, s) == 0
  {
    hide Scan, Marks;
    var body := if quote == '\'' then Twice(text) else text;
    ScanOne(q, quote);
    var inside := Advance(q, quote);
    if quote == '\'' {
      ScanTwice(text);
    } else {
      ScanInside(inside, text, |text|);
      assert text[..|text|] == text;
    }
    ScanOne(inside, quote);
    ScanThree(q, [quote], body, [quote]);
  }

  lemma {:induction false} LineScan(q: Lex, text: string, dashes: bool)
    requires '\n' !in text && Between(q)
    ensures var s := TokenText(Line(text, dashes)); Scan(q, s) == Normal && Marks(q, s) == 0
  {
    hide Scan, Marks;
    if dashes {
      ScanTwo(q, '-', '-');
    } else {
      ScanOne(q, '#');
    }
    ScanInside(LineComment, text, |text|);
    assert text[..|text|] == text;
    ScanOne(LineComment, '\n');
    ScanThree(q, if dashes then "--" else "#", text, "\n");
  }

  /** The placeholders of a text written as tokens are the question marks in its plain parts, and nothing stays open. */
  lemma {:induction false} TokensScan(q: Lex, ts: seq<Token>)
    requires Between(q) && forall i :: 0 <= i < |ts| ==> ValidToken(ts[i])
    ensures Between(Scan(q, TokensText(ts))) && Marks(q, TokensText(ts)) == TokensQuestions(ts)
    decreases |ts|
  {
    hide Scan, Marks, ValidToken, TokenText, TokenQuestions;
    if ts == [] {
      ScanNothing(q, "");
      assert TokensText(ts) == ""[..0];
    } else {
      TokenScan(q, ts[0]);
      TokensScan(Scan(q, TokenText(ts[0])), ts[1..]);
      ScanConcat(q, TokenText(ts[0]), TokensText(ts[1..]));
    }
  }

  /** A comment that is not closed, or a quote, keeps every question mark behind it. */
  lemma {:induction false} OpenKeeps(ts: seq<Token>, opener: string, text: string)
    requires forall i :: 0 <= i < |ts| ==> ValidToken(ts[i])
    requires (opener == "--" || opener == "#") && '\n' !in text
    ensures var s := TokensText(ts) + (opener + text);
            Scan(Normal, s) == LineComment && Marks(Normal, s) == TokensQuestions(ts)
  {
    hide Scan, Marks, ValidToken;
    TokensScan(Normal, ts);
    var q := Scan(Normal, TokensText(ts));
    if opener == "--" {
      ScanTwo(q, '-', '-');
    } else {
      ScanOne(q, '#');
    }
    ScanInside(LineComment, text, |text|);
    assert text[..|text|] == text;
    ScanConcat(q, opener, text);
    ScanConcat(Normal, TokensText(ts), opener + text);
  }
}
