/** Comment stripping, and recognising statements that set the session time zone. Queries are ASCII text. */
module TimeZoneSql {
  import opened Bytes
  import opened SqlText

  // ---- comment stripping ----

  /** What follows a block comment; an unterminated one gives back its last character. */
  function AfterBlock(s: string): (r: string)
    ensures |r| <= |s|
  {
    if |s| < 2 then s else if s[0] == '*' && s[1] == '/' then s[2..] else AfterBlock(s[1..])
  }

  /** What follows a line comment, from its newline on. */
  function AfterLine(s: string): (r: string)
    ensures |r| <= |s|
  {
    if s == "" || s[0] == '\n' then s else AfterLine(s[1..])
  }

  predicate OpensBlock(s: string) {
    |s| >= 2 && s[0] == '/' && s[1] == '*'
  }

  predicate OpensLine(s: string) {
    |s| >= 2 && s[0] == '-' && s[1] == '-' && (|s| == 2 || IsSpace(s[2]))
  }

  predicate IsQuote(c: char) {
    c == '\'' || c == '"'
  }

  /** One turn of the stripper: what it writes, the quote it is inside of afterwards, and what is left to read. */
  datatype Turn = Turn(emit: string, quote: Option<char>, rest: string)

  function TakeTurn(quote: Option<char>, s: string): (t: Turn)
    requires s != ""
    ensures |t.rest| < |s|
  {
    match quote
    case Some(q) =>
      if s[0] != q then Turn([s[0]], quote, s[1..])
      else if |s| > 1 && s[1] == q then Turn([q, q], quote, s[2..])
      else Turn([q], None, s[1..])
    case None =>
      if IsQuote(s[0]) then Turn([s[0]], Some(s[0]), s[1..])
      else if OpensBlock(s) then Turn(" ", None, AfterBlock(s[2..]))
      else if OpensLine(s) then Turn(" ", None, AfterLine(s[2..]))
      else if s[0] == '#' then Turn(" ", None, AfterLine(s[1..]))
      else Turn([s[0]], None, s[1..])
  }

  /** Comments outside quotes become a space. `quote` is the quote character we are inside of, if any. */
  function Strip(quote: Option<char>, s: string): (r: string)
    decreases |s|
  {
    if s == "" then ""
    else
      var t := TakeTurn(quote, s);
      t.emit + Strip(t.quote, t.rest)
  }

  /** The quote character the two flags of the stripper stand for. */
  function Quote(single: bool, double: bool): Option<char> {
    if single then Some('\'') else if double then Some('"') else None
  }

  /** stripSQLComments: one index, two quote flags and an output buffer. */
  method StripSqlComments(query: string) returns (stripped: string)
    ensures stripped == Strip(None, query)
  {
    hide Strip;
    stripped := "";
    var inSingle, inDouble := false, false;
    var i: nat := 0;
    assert query[0..] == query;
    while i < |query|
      invariant i <= |query| && !(inSingle && inDouble)
      invariant stripped + Strip(Quote(inSingle, inDouble), query[i..]) == Strip(None, query)
    {
      var ch := query[i];
      StripTurn(stripped, Quote(inSingle, inDouble), query, i);
      if inSingle || inDouble {
        var quote := if inSingle then '\'' else '"';
        stripped := stripped + [ch];
        i := i + 1;
        if ch == quote {
          if i < |query| && query[i] == quote {
            stripped := stripped + [query[i]];
            i := i + 1;
          } else {
            inSingle, inDouble := false, false;
          }
        }
      } else if ch == '\'' {
        inSingle := true;
        stripped := stripped + [ch];
        i := i + 1;
      } else if ch == '"' {
        inDouble := true;
        stripped := stripped + [ch];
        i := i + 1;
      } else if ch == '/' && i + 1 < |query| && query[i + 1] == '*' {
        stripped := stripped + " ";
        i := SkipBlock(query, i + 2);
      } else if ch == '-' && i + 1 < |query| && query[i + 1] == '-' && (i + 2 == |query| || IsSpace(query[i + 2])) {
        stripped := stripped + " ";
        i := SkipLine(query, i + 2);
      } else if ch == '#' {
        stripped := stripped + " ";
        i := SkipLine(query, i + 1);
      } else {
        stripped := stripped + [ch];
        i := i + 1;
      }
    }
    assert query[i..] == "";
    StripNothing(Quote(inSingle, inDouble));
  }

  lemma {:induction false} StripNothing(quote: Option<char>)
    ensures Strip(quote, "") == ""
  {
  }

  lemma {:induction false} StripOnce(quote: Option<char>, s: string)
    requires s != ""
    ensures var t := TakeTurn(quote, s); Strip(quote, s) == t.emit + Strip(t.quote, t.rest)
  {
    hide TakeTurn;
  }

  lemma {:induction false} StripTurn(done: string, quote: Option<char>, s: string, i: nat)
    requires i < |s|
    ensures var t := TakeTurn(quote, s[i..]);
            done + Strip(quote, s[i..]) == (done + t.emit) + Strip(t.quote, t.rest)
    ensures s[i..][1..] == s[i + 1..]
    ensures i + 1 < |s| ==> s[i..][2..] == s[i + 2..]
  {
    hide TakeTurn;
  }

  method SkipBlock(query: string, start: nat) returns (i: nat)
    requires start <= |query|
    ensures start <= i <= |query| && query[i..] == AfterBlock(query[start..])
  {
    i := start;
    while i + 1 < |query| && !(query[i] == '*' && query[i + 1] == '/')
      invariant start <= i <= |query|
      invariant AfterBlock(query[start..]) == AfterBlock(query[i..])
    {
      assert query[i..][1..] == query[i + 1..];
      i := i + 1;
    }
    if i + 1 < |query| {
      assert query[i..][2..] == query[i + 2..];
      i := i + 2;
    }
  }

  method SkipLine(query: string, start: nat) returns (i: nat)
    requires start <= |query|
    ensures start <= i <= |query| && query[i..] == AfterLine(query[start..])
  {
    i := start;
    while i < |query| && query[i] != '\n'
      invariant start <= i <= |query|
      invariant AfterLine(query[start..]) == AfterLine(query[i..])
    {
      assert query[i..][1..] == query[i + 1..];
      i := i + 1;
    }
  }

  // ---- what stripping keeps and removes ----

  /** No block comment opens and no '#' stands outside quotes. */
  predicate Clean(quote: Option<char>, s: string)
    decreases |s|
  {
    s != "" ==>
      match quote
      case Some(q) =>
        if s[0] != q then Clean(quote, s[1..])
        else if |s| > 1 && s[1] == q then Clean(quote, s[2..])
        else Clean(None, s[1..])
      case None =>
        if IsQuote(s[0]) then Clean(Some(s[0]), s[1..])
        else !OpensBlock(s) && s[0] != '#' && Clean(None, s[1..])
  }

  /** The quoted parts of a text, quotes included, one after the other; comments are skipped where `comments` says so. */
  function Quoted(quote: Option<char>, s: string, comments: bool): (r: string)
    decreases |s|
  {
    if s == "" then ""
    else
      match quote
      case Some(q) =>
        if s[0] != q then [s[0]] + Quoted(quote, s[1..], comments)
        else if |s| > 1 && s[1] == q then [q, q] + Quoted(quote, s[2..], comments)
        else [q] + Quoted(None, s[1..], comments)
      case None =>
        if IsQuote(s[0]) then [s[0]] + Quoted(Some(s[0]), s[1..], comments)
        else if comments && OpensBlock(s) then Quoted(None, AfterBlock(s[2..]), comments)
        else if comments && OpensLine(s) then Quoted(None, AfterLine(s[2..]), comments)
        else if comments && s[0] == '#' then Quoted(None, AfterLine(s[1..]), comments)
        else Quoted(None, s[1..], comments)
  }

  /** A stripped text begins with what it was stripped from, or with a space in its place. */
  lemma {:induction false} StripHead(quote: Option<char>, s: string)
    ensures s == "" <==> Strip(quote, s) == ""
    ensures quote.Some? && s != "" ==> Strip(quote, s)[0] == s[0]
    ensures quote.None? && s != "" ==> Strip(quote, s)[0] == s[0] || Strip(quote, s)[0] == ' '
  {
  }

  /**
   Stripped text has no unquoted block comment or '#', and its quoted parts are those of the query byte for byte. A line
   comment may open in it.
   */
  lemma {:induction false} StripCleans(quote: Option<char>, s: string)
    requires quote.Some? ==> IsQuote(quote.value)
    ensures Clean(quote, Strip(quote, s))
    ensures Quoted(quote, Strip(quote, s), false) == Quoted(quote, s, true)
    decreases |s|
  {
    hide AfterBlock, AfterLine;
    var r := Strip(quote, s);
    if s != "" {
      var tail := r[1..];
      match quote {
        case Some(q) =>
          if s[0] != q {
            StripCleans(quote, s[1..]);
            assert tail == Strip(quote, s[1..]);
          } else if |s| > 1 && s[1] == q {
            StripCleans(quote, s[2..]);
            assert r[2..] == Strip(quote, s[2..]);
          } else {
            StripCleans(None, s[1..]);
            StripHead(None, s[1..]);
            assert tail == Strip(None, s[1..]);
          }
        case None =>
          if IsQuote(s[0]) {
            StripCleans(Some(s[0]), s[1..]);
            assert tail == Strip(Some(s[0]), s[1..]);
          } else if OpensBlock(s) {
            StripCleans(None, AfterBlock(s[2..]));
            assert tail == Strip(None, AfterBlock(s[2..]));
          } else if OpensLine(s) {
            StripCleans(None, AfterLine(s[2..]));
            assert tail == Strip(None, AfterLine(s[2..]));
          } else if s[0] == '#' {
            StripCleans(None, AfterLine(s[1..]));
            assert tail == Strip(None, AfterLine(s[1..]));
          } else {
            StripCleans(None, s[1..]);
            StripHead(None, s[1..]);
            assert tail == Strip(None, s[1..]);
          }
      }
    }
  }

  // ---- stripping twice ----

  /** No line comment opens outside quotes. */
  predicate LineFree(quote: Option<char>, s: string)
    decreases |s|
  {
    s != "" ==>
      match quote
      case Some(q) =>
        if s[0] != q then LineFree(quote, s[1..])
        else if |s| > 1 && s[1] == q then LineFree(quote, s[2..])
        else LineFree(None, s[1..])
      case None =>
        if IsQuote(s[0]) then LineFree(Some(s[0]), s[1..]) else !OpensLine(s) && LineFree(None, s[1..])
  }

  predicate OpensComment(s: string) {
    OpensBlock(s) || OpensLine(s) || (s != "" && s[0] == '#')
  }

  /** Somewhere outside quotes and comments, two dashes that open no comment stand directly before one that opens. */
  predicate Fused(quote: Option<char>, s: string)
    decreases |s|
  {
    s != "" &&
    var t := TakeTurn(quote, s);
    (quote.None? && DashesBefore(s)) || Fused(t.quote, t.rest)
  }

  predicate DashesBefore(s: string) {
    |s| > 2 && s[0] == '-' && s[1] == '-' && OpensComment(s[2..])
  }

  /** The first character that is left of a text, and whether a comment stood there. */
  lemma {:induction false} StripFirst(s: string)
    requires s != ""
    ensures var r := Strip(None, s); r != "" && r[0] == if OpensComment(s) then ' ' else s[0]
  {
    hide AfterBlock, AfterLine, IsSpace;
  }

  /** A line comment opens at the front of a stripped text exactly where two dashes stood before a comment. */
  lemma {:induction false} OpensAfterStrip(s: string)
    requires s != "" && !OpensComment(s) && !IsQuote(s[0])
    ensures OpensLine(Strip(None, s)) <==> DashesBefore(s)
  {
    hide Strip, AfterBlock, AfterLine;
    StripOnce(None, s);
    var rest := s[1..];
    StripNothing(None);
    if rest != "" {
      StripFirst(rest);
      if s[0] == '-' && rest[0] == '-' && !OpensComment(rest) {
        StripOnce(None, rest);
        var more := rest[1..];
        if more != "" {
          StripFirst(more);
        }
        assert s[2..] == more;
      }
    }
  }

  lemma {:induction false} LineFreeStripped(quote: Option<char>, s: string)
    requires quote.Some? ==> IsQuote(quote.value)
    ensures LineFree(quote, Strip(quote, s)) <==> !Fused(quote, s)
    decreases |s|
  {
    hide Strip, AfterBlock, AfterLine, OpensComment, DashesBefore, OpensLine, OpensBlock, IsQuote, IsSpace;
    StripNothing(quote);
    if s != "" {
      var t := TakeTurn(quote, s);
      StripOnce(quote, s);
      TurnQuote(quote, s);
      LineFreeStripped(t.quote, t.rest);
      LineFreeTurn(quote, s);
    }
  }

  lemma {:induction false} TurnQuote(quote: Option<char>, s: string)
    requires s != "" && (quote.Some? ==> IsQuote(quote.value))
    ensures var t := TakeTurn(quote, s); t.quote.Some? ==> IsQuote(t.quote.value)
  {
    hide AfterBlock, AfterLine;
  }

  /** What one turn of the stripper adds to the question. */
  lemma {:induction false} LineFreeTurn(quote: Option<char>, s: string)
    requires s != "" && (quote.Some? ==> IsQuote(quote.value))
    ensures var t := TakeTurn(quote, s);
            LineFree(quote, Strip(quote, s))
            <==> !(quote.None? && DashesBefore(s)) && LineFree(t.quote, Strip(t.quote, t.rest))
  {
    hide Strip, AfterBlock, AfterLine, DashesBefore, IsSpace;
    var t := TakeTurn(quote, s);
    var r, tail := Strip(quote, s), Strip(t.quote, t.rest);
    StripOnce(quote, s);
    assert r[|t.emit|..] == tail;
    assert r[1..] == if |t.emit| == 1 then tail else [t.emit[1]] + tail;
    match quote {
      case Some(q) =>
        StripHead(t.quote, t.rest);
      case None =>
        if OpensComment(s) {
          NoDashesAtComment(s);
          assert r[0] == ' ';
        } else if IsQuote(s[0]) {
          NoDashesAtQuote(s);
        } else {
          OpensAfterStrip(s);
        }
    }
  }

  lemma {:induction false} NoDashesAtComment(s: string)
    requires OpensComment(s)
    ensures !DashesBefore(s) && s != "" && TakeTurn(None, s).emit == " " && TakeTurn(None, s).quote == None
  {
    hide AfterBlock, AfterLine;
  }

  lemma {:induction false} NoDashesAtQuote(s: string)
    requires s != "" && IsQuote(s[0])
    ensures !DashesBefore(s)
  {
  }

  /** Text without comments stays as it is, and other text gets shorter or loses an opener. */
  lemma {:induction false} StripFixed(quote: Option<char>, s: string)
    requires Clean(quote, s) && (quote.Some? ==> IsQuote(quote.value))
    ensures Strip(quote, s) == s <==> LineFree(quote, s)
    ensures |Strip(quote, s)| <= |s|
    decreases |s|
  {
    hide Strip, AfterBlock, AfterLine, IsQuote, IsSpace;
    StripNothing(quote);
    if s != "" {
      var t := TakeTurn(quote, s);
      StripOnce(quote, s);
      TurnQuote(quote, s);
      if quote.None? && OpensLine(s) {
        LineTurn(s);
        StripShorter(None, t.rest);
      } else {
        StripFixed(t.quote, t.rest);
        assert s == t.emit + t.rest;
        assert s[|t.emit|..] == t.rest && Strip(quote, s)[|t.emit|..] == Strip(t.quote, t.rest);
      }
    }
  }

  lemma {:induction false} LineTurn(s: string)
    requires OpensLine(s)
    ensures TakeTurn(None, s) == Turn(" ", None, AfterLine(s[2..])) && !IsQuote(s[0])
  {
    hide AfterBlock, AfterLine, IsSpace;
  }

  lemma {:induction false} StripShorter(quote: Option<char>, s: string)
    ensures |Strip(quote, s)| <= |s|
    decreases |s|
  {
    hide Strip, AfterBlock, AfterLine, IsQuote, IsSpace;
    StripNothing(quote);
    if s != "" {
      StripOnce(quote, s);
      StripShorter(TakeTurn(quote, s).quote, TakeTurn(quote, s).rest);
      TurnShorter(quote, s);
    }
  }

  lemma {:induction false} TurnShorter(quote: Option<char>, s: string)
    requires s != ""
    ensures var t := TakeTurn(quote, s); |t.emit| + |t.rest| <= |s|
  {
    hide AfterBlock, AfterLine, IsSpace;
  }

  /** Stripping twice is stripping once exactly when no two dashes stand directly before a comment. */
  lemma {:induction false} StripTwice(query: string)
    ensures Strip(None, Strip(None, query)) == Strip(None, query) <==> !Fused(None, query)
  {
    hide Strip, LineFree, Fused, Clean, Quoted;
    StripCleans(None, query);
    StripFixed(None, Strip(None, query));
    LineFreeStripped(None, query);
  }

  /** Texts for which it is not: a block comment keeps two dashes apart from the blank that makes them a comment. */
  lemma {:induction false} StripTwiceDiffers(text: string)
    requires '\n' !in text && Strip(None, text) == text
    ensures Strip(None, "--/**/" + text) == "-- " + text && Strip(None, "-- " + text) == " "
    ensures Fused(None, "--/**/" + text)
  {
    hide Strip, Fused;
    var s := "--/**/" + text;
    DashThen("-/**/" + text);
    DashThen("/**/" + text);
    EmptyBlock(text);
    assert s == "-" + ("-/**/" + text) && "-/**/" + text == "-" + ("/**/" + text);
    LineTurn("-- " + text);
    StripOnce(None, "-- " + text);
    assert ("-- " + text)[2..] == " " + text;
    LineToEnd(" " + text);
    StripNothing(None);
    StripTwice(s);
  }

  lemma {:induction false} DashThen(s: string)
    requires s != "" && s[0] != ' ' && !OpensLine("-" + s)
    ensures Strip(None, "-" + s) == "-" + Strip(None, s)
  {
    hide Strip, AfterBlock, AfterLine, IsSpace, OpensLine;
    StripOnce(None, "-" + s);
    assert ("-" + s)[1..] == s;
  }

  lemma {:induction false} EmptyBlock(text: string)
    ensures Strip(None, "/**/" + text) == " " + Strip(None, text)
  {
    hide Strip, AfterLine;
    var s := "/**/" + text;
    StripOnce(None, s);
    assert s[2..] == "*/" + text && s[2..][2..] == text;
  }

  lemma {:induction false} LineToEnd(s: string)
    requires '\n' !in s
    ensures AfterLine(s) == ""
  {
    if s != "" {
      LineToEnd(s[1..]);
    }
  }

  /** A block comment that does not end leaves a blank and its last character, read again as if nothing had been open. */
  lemma {:induction false} UnterminatedBlock(text: string)
    requires forall i :: 0 <= i < |text| - 1 ==> !(text[i] == '*' && text[i + 1] == '/')
    ensures Strip(None, "/*" + text) ==
            if text == "" then " "
            else if text[|text| - 1] == '#' then "  "
            else [' ', text[|text| - 1]]
  {
    hide Strip;
    StripOnce(None, "/*" + text);
    assert ("/*" + text)[2..] == text;
    BlockToEnd(text);
    StripNothing(None);
    if text != "" {
      StripLast(text[|text| - 1]);
    }
  }

  lemma {:induction false} StripLast(c: char)
    ensures Strip(None, [c]) == if c == '#' then " " else [c]
  {
    StripNothing(None);
    StripNothing(Some(c));
    assert [c][1..] == "";
  }

  lemma {:induction false} BlockToEnd(text: string)
    requires forall i :: 0 <= i < |text| - 1 ==> !(text[i] == '*' && text[i + 1] == '/')
    ensures AfterBlock(text) == if text == "" then "" else [text[|text| - 1]]
  {
    if |text| >= 2 {
      BlockToEnd(text[1..]);
    }
  }

  // ---- recognising assignments ----

  const Heads: seq<string> := [
    "ALTER SESSION SET TIME_ZONE",
    "ALTER SYSTEM SESSION SET TIME_ZONE",
    "SET TIME_ZONE",
    "SET SESSION TIME_ZONE",
    "SET @@TIME_ZONE",
    "SET @@SESSION.TIME_ZONE"]

  /** The value assigned, or that it is a parameter of the statement. */
  datatype Assignment = Literal(value: string) | Parameter

  /** The index of the quote that closes the string, doubled quotes skipped. */
  function Closing(rest: string, quote: char, i: nat): (r: Option<nat>)
    ensures r.Some? ==> i <= r.value < |rest|
    decreases |rest| - i
  {
    if i >= |rest| then None
    else if rest[i] != quote then Closing(rest, quote, i + 1)
    else if i + 1 < |rest| && rest[i + 1] == quote then Closing(rest, quote, i + 2)
    else Some(i)
  }

  /** Doubled quotes made single, from left to right. */
  function Undouble(s: string, quote: char): (r: string)
  {
    if s == "" then ""
    else if |s| >= 2 && s[0] == quote && s[1] == quote then [quote] + Undouble(s[2..], quote)
    else [s[0]] + Undouble(s[1..], quote)
  }

  predicate HasBreak(s: string) {
    ' ' in s || '\t' in s || '\r' in s || '\n' in s
  }

  function AssignedValue(rest: string): (r: Option<Assignment>)
  {
    if rest == "?" then Some(Parameter)
    else if |rest| >= 2 && IsQuote(rest[0]) then
      match Closing(rest, rest[0], 1)
      case None => None
      case Some(i) => if Trim(rest[i + 1..]) != "" then None else Some(Literal(Undouble(rest[1..i], rest[0])))
    else if rest == "" || HasBreak(rest) then None
    else Some(Literal(rest))
  }

  function Normalised(query: string): (q: string) {
    Trim(TrimSemicolon(Trim(Strip(None, query))))
  }

  function AssignmentIn(q: string): (r: Option<Assignment>)
  {
    var equal := IndexOf(q, '=');
    if equal == 0 || equal == |q| || Upper(Squeeze(q[..equal])) !in Heads then None
    else AssignedValue(Trim(q[equal + 1..]))
  }

  function Recognise(query: string): (r: Option<Assignment>) {
    AssignmentIn(Normalised(query))
  }

  /** sessionTimeZoneAssignmentFromQuery, with its loops. */
  method AssignmentFromQuery(query: string) returns (r: Option<Assignment>)
    ensures r == Recognise(query)
  {
    hide Closing, Squeeze, Trim, Strip, Undouble, Upper;
    var stripped := StripSqlComments(query);
    var q := Trim(TrimSemicolon(Trim(stripped)));
    var equal := IndexOf(q, '=');
    if equal == 0 || equal == |q| {
      return None;
    }
    if Upper(Squeeze(q[..equal])) !in Heads {
      return None;
    }
    var rest := Trim(q[equal + 1..]);
    if rest == "?" {
      return Some(Parameter);
    }
    if |rest| >= 2 && IsQuote(rest[0]) {
      var i := FindClosing(rest, rest[0]);
      if i == |rest| || Trim(rest[i + 1..]) != "" {
        return None;
      }
      return Some(Literal(Undouble(rest[1..i], rest[0])));
    }
    if rest == "" || HasBreak(rest) {
      return None;
    }
    return Some(Literal(rest));
  }

  method FindClosing(rest: string, quote: char) returns (i: nat)
    requires rest != ""
    ensures 1 <= i <= |rest|
    ensures Closing(rest, quote, 1) == if i == |rest| then None else Some(i)
  {
    i := 1;
    while i < |rest|
      invariant 1 <= i <= |rest|
      invariant Closing(rest, quote, 1) == Closing(rest, quote, i)
    {
      if rest[i] != quote {
        i := i + 1;
      } else if i + 1 < |rest| && rest[i + 1] == quote {
        i := i + 2;
      } else {
        return;
      }
    }
  }

  /** isSessionTimeZoneMutation: the statement begins with one of the heads. */
  predicate IsMutation(query: string) {
    exists k :: 0 <= k < |Heads| && BeginsWith(Upper(Squeeze(Strip(None, query))), Heads[k])
  }

  predicate BeginsWith(s: string, head: string) {
    s == head || head + " " <= s || head + "=" <= s
  }

  // ---- every recognised assignment is a mutation ----

  /** Normalising takes blanks from the front, and something from the back. */
  lemma {:induction false} NormalisedInside(query: string) returns (a: string, b: string)
    ensures Blank(a) && Strip(None, query) == a + Normalised(query) + b
  {
    hide Strip, Trim, TrimSemicolon, Blank;
    var s := Strip(None, query);
    var t := Trim(s);
    var u := TrimSemicolon(t);
    var a1, b1 := TrimInside(s);
    var b2 := SemicolonBehind(t);
    var a3, b3 := TrimInside(u);
    BlankConcat(a1, a3);
    a, b := a1 + a3, b3 + b2 + b1;
    assert a1 + (a3 + Trim(u) + b3 + b2) + b1 == a + Trim(u) + b;
  }

  lemma {:induction false} TrimInside(s: string) returns (a: string, b: string)
    ensures Blank(a) && s == a + Trim(s) + b
  {
    hide TrimLeft, TrimRight, Blank;
    a := TrimLeftSplit(s);
    b := TrimRightSplit(TrimLeft(s));
  }

  lemma {:induction false} SemicolonBehind(s: string) returns (b: string)
    ensures s == TrimSemicolon(s) + b
  {
    b := s[|TrimSemicolon(s)|..];
  }

  lemma {:induction false} BlankConcat(a: string, b: string)
    requires Blank(a) && Blank(b)
    ensures Blank(a + b)
  {
  }

  lemma {:induction false} RecognisedIsMutation(query: string)
    requires Recognise(query).Some?
    ensures IsMutation(query)
  {
    hide Strip, Squeeze, Upper, Normalised, AssignedValue;
    var q := Normalised(query);
    var a, b := NormalisedInside(query);
    var equal := IndexOf(q, '=');
    var lhs, tail := q[..equal], q[equal + 1..] + b;
    assert q == lhs + ['='] + q[equal + 1..];
    assert Strip(None, query) == a + (lhs + ['='] + tail);
    SqueezeLeading(a, lhs + ['='] + tail);
    SqueezeChar(lhs, '=');
    SqueezePrefix(lhs + ['='], tail);
    var k :| 0 <= k < |Heads| && Heads[k] == Upper(Squeeze(lhs));
    UpperMonotonic(Squeeze(lhs + ['=']), Squeeze(Strip(None, query)));
    UpperAppend(Squeeze(lhs));
    assert BeginsWith(Upper(Squeeze(Strip(None, query))), Heads[k]);
  }

  lemma {:induction false} UpperMonotonic(s: string, t: string)
    requires s <= t
    ensures Upper(s) <= Upper(t)
  {
  }

  lemma {:induction false} UpperAppend(s: string)
    ensures Upper(s + ['=']) == Upper(s) + "=" && Upper(s + [' ', '=']) == Upper(s) + " " + "="
  {
  }
}
