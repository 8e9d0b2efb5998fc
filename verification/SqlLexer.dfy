/**
 The lexical structure of SQL text as the parameter scanners see it, given as an automaton that reads one character at
 a time: what the scanners decide by looking one character ahead is here a state that waits for that character.
 */
module SqlLexer {

  datatype Lex =
    | Normal
    | Dash
    | Slash
    | SingleQuote
    | QuoteInQuote
    | DoubleQuote
    | Backtick
    | LineComment
    | BlockComment
    | StarInBlock

  function FromNormal(c: char): Lex {
    if c == '\'' then SingleQuote
    else if c == '"' then DoubleQuote
    else if c == '`' then Backtick
    else if c == '#' then LineComment
    else if c == '-' then Dash
    else if c == '/' then Slash
    else Normal
  }

  function Advance(q: Lex, c: char): Lex {
    match q
    case Normal => FromNormal(c)
    case Dash => if c == '-' then LineComment else FromNormal(c)
    case Slash => if c == '*' then BlockComment else FromNormal(c)
    case SingleQuote => if c == '\'' then QuoteInQuote else SingleQuote
    case QuoteInQuote => if c == '\'' then SingleQuote else FromNormal(c)
    case DoubleQuote => if c == '"' then Normal else DoubleQuote
    case Backtick => if c == '`' then Normal else Backtick
    case LineComment => if c == '\n' then Normal else LineComment
    case BlockComment => if c == '*' then StarInBlock else BlockComment
    case StarInBlock => if c == '/' then Normal else if c == '*' then StarInBlock else BlockComment
  }

  /** Outside quotes and comments, where `?` is a placeholder. */
  predicate Active(q: Lex) {
    q == Normal || q == Dash || q == Slash || q == QuoteInQuote
  }

  /** The six states of the scanners: a state that waits for one more character is the one it came from. */
  function Collapse(q: Lex): (r: Lex)
    ensures r == Normal <==> Active(q)
  {
    match q
    case Dash => Normal
    case Slash => Normal
    case QuoteInQuote => Normal
    case StarInBlock => BlockComment
    case _ => q
  }

  function Scan(q: Lex, s: string): (r: Lex)
    decreases |s|
  {
    if s == "" then q else Advance(Scan(q, s[..|s| - 1]), s[|s| - 1])
  }

  /** The number of placeholders in `s` when scanning starts in state `q`. */
  function Marks(q: Lex, s: string): (n: nat)
    ensures n <= |s|
    decreases |s|
  {
    if s == "" then 0
    else Marks(q, s[..|s| - 1]) + if IsMark(Scan(q, s[..|s| - 1]), s[|s| - 1]) then 1 else 0
  }

  predicate IsMark(q: Lex, c: char) {
    c == '?' && Active(q)
  }

  lemma {:induction false} ScanStep(q: Lex, s: string, n: nat)
    requires n < |s|
    ensures Scan(q, s[..n + 1]) == Advance(Scan(q, s[..n]), s[n])
    ensures Marks(q, s[..n + 1]) == Marks(q, s[..n]) + if IsMark(Scan(q, s[..n]), s[n]) then 1 else 0
  {
    assert s[..n + 1][..n] == s[..n];
  }

  lemma {:induction false} ScanConcat(q: Lex, a: string, b: string)
    ensures Scan(q, a + b) == Scan(Scan(q, a), b)
    ensures Marks(q, a + b) == Marks(q, a) + Marks(Scan(q, a), b)
    decreases |b|
  {
    hide Advance, IsMark;
    if b == "" {
      assert a + b == a;
    } else {
      var n := |b| - 1;
      assert (a + b)[..|a| + n] == a + b[..n] && (a + b)[..|a + b|] == a + b;
      ScanStep(q, a + b, |a| + n);
      ScanConcat(q, a, b[..n]);
    }
  }

  lemma {:induction false} ScanOne(q: Lex, c: char)
    ensures Scan(q, [c]) == Advance(q, c)
    ensures Marks(q, [c]) == if IsMark(q, c) then 1 else 0
  {
    assert [c][..0] == "";
  }

  lemma {:induction false} MarksMonotonic(q: Lex, s: string, m: nat, n: nat)
    requires m <= n <= |s|
    ensures Marks(q, s[..m]) <= Marks(q, s[..n])
    decreases n - m
  {
    hide Marks, Scan;
    if m < n {
      ScanStep(q, s, n - 1);
      MarksMonotonic(q, s, m, n - 1);
    }
  }

  // ---- the look-ahead scanner ----

  /** The next character does not complete the construct that `q` waits for. */
  predicate Committed(q: Lex, s: string, i: nat) {
    i < |s| ==>
      && (q == Dash ==> s[i] != '-') && (q == Slash ==> s[i] != '*')
      && (q == QuoteInQuote ==> s[i] != '\'') && (q == StarInBlock ==> s[i] != '/')
  }

  /** countPlaceholders: a six-state scanner that consumes two-character tokens in one turn. */
  method CountPlaceholders(query: string) returns (count: nat)
    ensures count == Marks(Normal, query)
  {
    hide Scan, Marks;
    count := 0;
    var state := Normal;
    var i := 0;
    ScanEmpty(query);
    while i < |query|
      invariant 0 <= i <= |query|
      invariant state == Collapse(Scan(Normal, query[..i])) && Committed(Scan(Normal, query[..i]), query, i)
      invariant count == Marks(Normal, query[..i])
      decreases |query| - i
    {
      var ch := query[i];
      ScanStep(Normal, query, i);
      if i + 1 < |query| {
        ScanStep(Normal, query, i + 1);
      }
      match state {
        case Normal =>
          if ch == '\'' {
            state := SingleQuote;
          } else if ch == '"' {
            state := DoubleQuote;
          } else if ch == '`' {
            state := Backtick;
          } else if ch == '#' {
            state := LineComment;
          } else if ch == '-' {
            if i + 1 < |query| && query[i + 1] == '-' {
              i := i + 1;
              state := LineComment;
            }
          } else if ch == '/' {
            if i + 1 < |query| && query[i + 1] == '*' {
              i := i + 1;
              state := BlockComment;
            }
          } else if ch == '?' {
            count := count + 1;
          }
        case SingleQuote =>
          if ch == '\'' {
            if i + 1 < |query| && query[i + 1] == '\'' {
              i := i + 1;
            } else {
              state := Normal;
            }
          }
        case DoubleQuote =>
          if ch == '"' {
            state := Normal;
          }
        case Backtick =>
          if ch == '`' {
            state := Normal;
          }
        case LineComment =>
          if ch == '\n' {
            state := Normal;
          }
        case _ =>
          if ch == '*' && i + 1 < |query| && query[i + 1] == '/' {
            i := i + 1;
            state := Normal;
          }
      }
      i := i + 1;
    }
    assert query[..i] == query;
  }

  lemma {:induction false} ScanEmpty(s: string)
    ensures Scan(Normal, s[..0]) == Normal && Marks(Normal, s[..0]) == 0
  {
  }
}
