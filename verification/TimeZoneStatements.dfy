/** Time-zone statements as anyone may write them, and the proof that the recogniser reads the value back. */
module TimeZoneStatements {
  import opened Bytes
  import opened SqlText
  import opened TimeZoneSql

  // ---- how a statement may be written ----

  /** What may stand between two words: white space, or a comment that ends. */
  datatype Piece = Space(c: char) | Block(text: string) | Line(text: string) | Hash(text: string)

  type Gap = seq<Piece>

  /** Space, and tab, newline, vertical tab, form feed and carriage return: the characters 9 to 13. */
  predicate BlankChar(c: char): (r: bool)
    ensures r <==> IsSpace(c)
  {
    c == ' ' || 9 <= c as int <= 13
  }

  predicate WrittenPiece(p: Piece) {
    match p
    case Space(c) => BlankChar(c)
    case Block(text) => forall i :: 0 <= i < |text| - 1 ==> !(text[i] == '*' && text[i + 1] == '/')
    case Line(text) => '\n' !in text
    case Hash(text) => '\n' !in text
  }

  /** A line comment whose text directly follows its dashes: the driver does not take it for a comment. */
  predicate Unspaced(p: Piece) {
    p.Line? && p.text != "" && !BlankChar(p.text[0])
  }

  predicate ValidPiece(p: Piece) {
    WrittenPiece(p) && !Unspaced(p)
  }

  predicate WrittenGap(g: Gap) {
    forall i :: 0 <= i < |g| ==> WrittenPiece(g[i])
  }

  /** A gap that the driver reads as the server does. */
  predicate ValidGap(g: Gap) {
    forall i :: 0 <= i < |g| ==> ValidPiece(g[i])
  }

  function PieceText(p: Piece): (s: string)
    ensures s != ""
  {
    match p
    case Space(c) => [c]
    case Block(text) => "/*" + text + "*/"
    case Line(text) => "--" + text + "\n"
    case Hash(text) => "#" + text + "\n"
  }

  function GapText(g: Gap): (s: string)
  {
    if g == [] then "" else PieceText(g[0]) + GapText(g[1..])
  }

  /** A comment that runs to the end of the query. */
  datatype Ending = NoComment | LineEnd(text: string) | HashEnd(text: string)

  predicate WrittenEnding(e: Ending) {
    e != NoComment ==> '\n' !in e.text
  }

  predicate ValidEnding(e: Ending) {
    WrittenEnding(e) && (e.LineEnd? ==> !Unspaced(Line(e.text)))
  }

  function EndingText(e: Ending): (s: string) {
    match e
    case NoComment => ""
    case LineEnd(text) => "--" + text
    case HashEnd(text) => "#" + text
  }

  predicate IsWordChar(c: char) {
    'a' <= c <= 'z' || 'A' <= c <= 'Z' || c == '_' || c == '@' || c == '.'
  }

  predicate IsWord(w: string) {
    w != "" && forall i :: 0 <= i < |w| ==> IsWordChar(w[i])
  }

  function JoinWords(words: seq<string>): (s: string)
  {
    if words == [] then ""
    else if |words| == 1 then words[0]
    else words[0] + " " + JoinWords(words[1..])
  }

  // ---- the six heads, in any letter case ----

  const HeadWords: seq<seq<string>> := [
    ["ALTER", "SESSION", "SET", "TIME_ZONE"],
    ["ALTER", "SYSTEM", "SESSION", "SET", "TIME_ZONE"],
    ["SET", "TIME_ZONE"],
    ["SET", "SESSION", "TIME_ZONE"],
    ["SET", "@@TIME_ZONE"],
    ["SET", "@@SESSION.TIME_ZONE"]]

  /** The same text but for small letters, which lie 32 above the capitals. */
  predicate CaseVariant(w: string, h: string) {
    |w| == |h| && forall i :: 0 <= i < |w| ==>
      w[i] == h[i] || ('A' <= h[i] <= 'Z' && w[i] as int == h[i] as int + 32)
  }

  predicate Spelled(words: seq<string>, head: seq<string>) {
    |words| == |head| && forall i :: 0 <= i < |words| ==> CaseVariant(words[i], head[i])
  }

  /** The words are those of a head, each letter in either case. */
  predicate HeadWritten(words: seq<string>): (r: bool)
    ensures r ==> Upper(JoinWords(words)) in Heads
  {
    SpelledHeads(words);
    exists k :: 0 <= k < |HeadWords| && Spelled(words, HeadWords[k])
  }

  predicate Capital(h: string) {
    forall i :: 0 <= i < |h| ==> !('a' <= h[i] <= 'z')
  }

  lemma {:induction false} VariantUpper(w: string, h: string)
    requires CaseVariant(w, h) && Capital(h)
    ensures Upper(w) == h
  {
    forall i | 0 <= i < |w|
      ensures Upper(w)[i] == h[i]
    {
      if w[i] != h[i] {
        assert w[i] == (h[i] as int + 32) as char;
      }
    }
  }

  lemma {:induction false} UpperJoin(a: string, b: string)
    ensures Upper(a + " " + b) == Upper(a) + " " + Upper(b)
  {
  }

  lemma {:induction false} JoinFirst(words: seq<string>)
    requires words != []
    ensures JoinWords(words) == if |words| == 1 then words[0] else words[0] + " " + JoinWords(words[1..])
  {
  }

  lemma {:induction false} SpelledJoin(words: seq<string>, head: seq<string>)
    requires Spelled(words, head) && forall i :: 0 <= i < |head| ==> Capital(head[i])
    ensures Upper(JoinWords(words)) == JoinWords(head)
    decreases |words|
  {
    hide CaseVariant, Capital, Upper;
    if words == [] {
      NothingUpper();
    } else {
      JoinFirst(words);
      JoinFirst(head);
      VariantUpper(words[0], head[0]);
      if |words| > 1 {
        SpelledJoin(words[1..], head[1..]);
        UpperJoin(words[0], JoinWords(words[1..]));
      }
    }
  }

  lemma {:induction false} NothingUpper()
    ensures Upper("") == ""
  {
  }

  lemma {:induction false} SpelledHeads(words: seq<string>)
    ensures forall k :: 0 <= k < |HeadWords| && Spelled(words, HeadWords[k]) ==> Upper(JoinWords(words)) in Heads
  {
    hide Spelled, Upper, JoinWords, Capital, Heads;
    HeadsCapital();
    HeadTexts();
    forall k | 0 <= k < |HeadWords| && Spelled(words, HeadWords[k])
      ensures Upper(JoinWords(words)) in Heads
    {
      SpelledJoin(words, HeadWords[k]);
    }
  }

  lemma {:induction false} HeadsCapital()
    ensures forall k, i :: 0 <= k < |HeadWords| && 0 <= i < |HeadWords[k]| ==> Capital(HeadWords[k][i])
  {
  }

  lemma {:induction false} JoinTwo(a: string, b: string)
    ensures JoinWords([a, b]) == a + " " + b
  {
    assert [a, b][1..] == [b];
  }

  lemma {:induction false} JoinMore(a: string, words: seq<string>)
    requires words != []
    ensures JoinWords([a] + words) == a + " " + JoinWords(words)
  {
    assert ([a] + words)[1..] == words;
  }

  lemma {:induction false} HeadTexts()
    ensures |Heads| == |HeadWords| && forall k :: 0 <= k < |Heads| ==> JoinWords(HeadWords[k]) in Heads
  {
    hide JoinWords;
    JoinTwo("SET", "TIME_ZONE");
    JoinTwo("SESSION", "TIME_ZONE");
    JoinTwo("SET", "@@TIME_ZONE");
    JoinTwo("SET", "@@SESSION.TIME_ZONE");
    JoinMore("SET", ["SESSION", "TIME_ZONE"]);
    JoinMore("SESSION", ["SET", "TIME_ZONE"]);
    JoinMore("ALTER", ["SESSION", "SET", "TIME_ZONE"]);
    JoinMore("SYSTEM", ["SESSION", "SET", "TIME_ZONE"]);
    JoinMore("ALTER", ["SYSTEM", "SESSION", "SET", "TIME_ZONE"]);
    HeadParts();
    HeadTextsJoined();
  }

  lemma {:induction false} HeadParts()
    ensures HeadWords[0] == ["ALTER"] + ["SESSION", "SET", "TIME_ZONE"]
    ensures HeadWords[1] == ["ALTER"] + ["SYSTEM", "SESSION", "SET", "TIME_ZONE"]
    ensures ["SYSTEM", "SESSION", "SET", "TIME_ZONE"] == ["SYSTEM"] + ["SESSION", "SET", "TIME_ZONE"]
    ensures ["SESSION", "SET", "TIME_ZONE"] == ["SESSION"] + ["SET", "TIME_ZONE"]
    ensures HeadWords[3] == ["SET"] + ["SESSION", "TIME_ZONE"]
  {
  }

  lemma {:induction false} HeadTextsJoined()
    ensures Heads[0] == "ALTER" + " " + ("SESSION" + " " + ("SET" + " " + "TIME_ZONE"))
    ensures Heads[1] == "ALTER" + " " + ("SYSTEM" + " " + ("SESSION" + " " + ("SET" + " " + "TIME_ZONE")))
    ensures Heads[2] == "SET" + " " + "TIME_ZONE"
    ensures Heads[3] == "SET" + " " + ("SESSION" + " " + "TIME_ZONE")
    ensures Heads[4] == "SET" + " " + "@@TIME_ZONE"
    ensures Heads[5] == "SET" + " " + "@@SESSION.TIME_ZONE"
  {
    hide *;
    FirstHead();
    SecondHead();
    ThirdHead();
    FourthHead();
    FifthHead();
    SixthHead();
  }

  lemma {:induction false} FirstHead()
    ensures Heads[0] == "ALTER" + " " + ("SESSION" + " " + ("SET" + " " + "TIME_ZONE"))
  {
  }

  lemma {:induction false} SecondHead()
    ensures Heads[1] == "ALTER" + " " + ("SYSTEM" + " " + ("SESSION" + " " + ("SET" + " " + "TIME_ZONE")))
  {
  }

  lemma {:induction false} ThirdHead()
    ensures Heads[2] == "SET" + " " + "TIME_ZONE"
  {
  }

  lemma {:induction false} FourthHead()
    ensures Heads[3] == "SET" + " " + ("SESSION" + " " + "TIME_ZONE")
  {
  }

  lemma {:induction false} FifthHead()
    ensures Heads[4] == "SET" + " " + "@@TIME_ZONE"
  {
  }

  lemma {:induction false} SixthHead()
    ensures Heads[5] == "SET" + " " + "@@SESSION.TIME_ZONE"
  {
  }

  /** Each word followed by its gap. */
  function Spread(words: seq<string>, gaps: seq<Gap>): (s: string)
    requires |words| == |gaps|
  {
    if words == [] then "" else words[0] + GapText(gaps[0]) + Spread(words[1..], gaps[1..])
  }

  function Double(s: string, quote: char): (r: string)
  {
    if s == "" then "" else (if s[0] == quote then [quote, quote] else [s[0]]) + Double(s[1..], quote)
  }

  function QuotedValue(value: string, quote: char): (s: string)
    ensures |s| >= 2 && s[0] == quote && s[|s| - 1] == quote
  {
    [quote] + Double(value, quote) + [quote]
  }

  /** What is assigned: a string in either quotes, or the statement's parameter. */
  datatype Operand = Quoted(value: string, quote: char) | Placeholder

  predicate ValidOperand(o: Operand): (r: bool)
    ensures r && o.Quoted? ==> IsQuote(o.quote)
  {
    o.Quoted? ==> o.quote == '\'' || o.quote == '"'
  }

  function OperandText(o: Operand): (s: string)
    ensures s != ""
  {
    match o
    case Quoted(value, quote) => QuotedValue(value, quote)
    case Placeholder => "?"
  }

  function Assigned(o: Operand): Assignment {
    match o
    case Quoted(value, _) => Literal(value)
    case Placeholder => Parameter
  }

  datatype Statement = Statement(
    lead: Gap, words: seq<string>, gaps: seq<Gap>, after: Gap, operand: Operand, behind: Gap)

  /** The end of a query. */
  datatype Close = Close(semicolon: bool, trail: Gap, end: Ending)

  predicate WrittenWords(words: seq<string>, gaps: seq<Gap>) {
    && |words| == |gaps|
    && (forall i :: 0 <= i < |words| ==> IsWord(words[i]) && WrittenGap(gaps[i]))
    && (forall i :: 0 <= i < |words| - 1 ==> gaps[i] != [])
  }

  predicate ValidWords(words: seq<string>, gaps: seq<Gap>) {
    WrittenWords(words, gaps) && forall i :: 0 <= i < |gaps| ==> ValidGap(gaps[i])
  }

  /** One of the six heads in any letter case, gaps where they are needed or allowed, and what is assigned. */
  predicate WrittenStatement(st: Statement) {
    && |st.words| > 0 && WrittenWords(st.words, st.gaps) && HeadWritten(st.words)
    && ValidOperand(st.operand) && WrittenGap(st.lead) && WrittenGap(st.after) && WrittenGap(st.behind)
  }

  predicate ValidStatement(st: Statement) {
    && WrittenStatement(st) && ValidWords(st.words, st.gaps)
    && ValidGap(st.lead) && ValidGap(st.after) && ValidGap(st.behind)
  }

  predicate WrittenClose(c: Close) {
    WrittenGap(c.trail) && WrittenEnding(c.end)
  }

  predicate ValidClose(c: Close) {
    ValidGap(c.trail) && ValidEnding(c.end)
  }

  function CloseText(c: Close): (s: string) {
    (if c.semicolon then ";" else "") + (GapText(c.trail) + EndingText(c.end))
  }

  /** A statement from its first word to its operand, and what follows. */
  function Framed(st: Statement, rest: string): (s: string)
    requires |st.words| == |st.gaps|
  {
    GapText(st.lead) + (Spread(st.words, st.gaps) + ("=" + (GapText(st.after) + (OperandText(st.operand) + rest))))
  }

  function StatementText(st: Statement): (s: string)
    requires |st.words| == |st.gaps|
  {
    Framed(st, GapText(st.behind))
  }

  function Text(st: Statement, c: Close): (s: string)
    requires |st.words| == |st.gaps|
  {
    StatementText(st) + CloseText(c)
  }

  lemma {:induction false} FramedConcat(st: Statement, a: string, b: string)
    requires |st.words| == |st.gaps|
    ensures Framed(st, a) + b == Framed(st, a + b)
  {
    hide GapText, Spread, OperandText;
  }

  // ---- stripping a written statement ----

  /** What stripping leaves of a piece. */
  function PieceBlank(p: Piece): (s: string) {
    match p
    case Space(c) => [c]
    case Block(_) => " "
    case _ => " \n"
  }

  function GapBlank(g: Gap): (s: string)
  {
    if g == [] then "" else PieceBlank(g[0]) + GapBlank(g[1..])
  }

  function SpreadBlank(words: seq<string>, gaps: seq<Gap>): (s: string)
    requires |words| == |gaps|
  {
    if words == [] then "" else words[0] + GapBlank(gaps[0]) + SpreadBlank(words[1..], gaps[1..])
  }

  lemma {:induction false} GapIsBlank(g: Gap)
    requires ValidGap(g)
    ensures Blank(GapBlank(g)) && (g != [] ==> GapBlank(g) != "")
  {
    if g != [] {
      assert ValidPiece(g[0]);
      GapIsBlank(g[1..]);
    }
  }

  lemma {:induction false} AfterBlockEnd(text: string, rest: string)
    requires ValidPiece(Block(text))
    ensures AfterBlock(text + "*/" + rest) == rest
  {
    var s := text + "*/" + rest;
    if text == "" {
      assert s[2..] == rest;
    } else {
      assert s[1..] == text[1..] + "*/" + rest;
      assert text != "" && |text| > 1 ==> s[1] == text[1];
      AfterBlockEnd(text[1..], rest);
    }
  }

  lemma {:induction false} AfterLineEnd(text: string, rest: string)
    requires '\n' !in text
    ensures AfterLine(text + "\n" + rest) == "\n" + rest
    ensures AfterLine(text) == ""
  {
    if text == "" {
      assert text + "\n" + rest == "\n" + rest;
    } else {
      assert (text + "\n" + rest)[1..] == text[1..] + "\n" + rest;
      AfterLineEnd(text[1..], rest);
    }
  }

  predicate Plain(c: char) {
    !IsQuote(c) && c != '/' && c != '-' && c != '#'
  }

  lemma {:induction false} StripPlain(s: string, rest: string)
    requires forall i :: 0 <= i < |s| ==> Plain(s[i])
    ensures Strip(None, s + rest) == s + Strip(None, rest)
  {
    if s == "" {
      assert s + rest == rest;
    } else {
      assert (s + rest)[1..] == s[1..] + rest;
      StripPlain(s[1..], rest);
    }
  }

  lemma {:induction false} StripPiece(p: Piece, rest: string)
    requires ValidPiece(p)
    ensures Strip(None, PieceText(p) + rest) == PieceBlank(p) + Strip(None, rest)
  {
    hide Strip, AfterLine, AfterBlock;
    match p {
      case Space(c) =>
        SpaceIsPlain(c);
        StripPlain([c], rest);
      case Block(text) =>
        StripBlock(text, rest);
      case Line(text) =>
        NewlineAfter(text, rest);
        StripLine(text, "\n" + rest);
        assert PieceText(p) + rest == "--" + text + ("\n" + rest);
      case Hash(text) =>
        NewlineAfter(text, rest);
        StripHash(text, "\n" + rest);
        assert PieceText(p) + rest == "#" + text + ("\n" + rest);
    }
  }

  lemma {:induction false} NewlineAfter(text: string, rest: string)
    requires '\n' !in text
    ensures var s := text + ("\n" + rest);
            s != "" && s[0] == (if text == "" then '\n' else text[0])
            && " " + Strip(None, AfterLine(s)) == " \n" + Strip(None, rest)
  {
    hide AfterLine, Strip;
    AfterLineEnd(text, rest);
    assert text + ("\n" + rest) == text + "\n" + rest;
    StripPlain("\n", rest);
  }

  lemma {:induction false} StripBlock(text: string, rest: string)
    requires ValidPiece(Block(text))
    ensures Strip(None, "/*" + text + "*/" + rest) == " " + Strip(None, rest)
  {
    hide AfterBlock, Strip;
    var s := "/*" + text + "*/" + rest;
    AfterBlockEnd(text, rest);
    StripOnce(None, s);
    assert s[2..] == text + "*/" + rest;
  }

  lemma {:induction false} StripLine(text: string, rest: string)
    requires text + rest != "" ==> IsSpace((text + rest)[0])
    ensures Strip(None, "--" + text + rest) == " " + Strip(None, AfterLine(text + rest))
  {
    hide AfterLine, AfterBlock, Strip;
    var s := "--" + text + rest;
    StripOnce(None, s);
    assert s[2..] == text + rest;
    assert |s| > 2 ==> s[2] == (text + rest)[0];
  }

  lemma {:induction false} StripHash(text: string, rest: string)
    ensures Strip(None, "#" + text + rest) == " " + Strip(None, AfterLine(text + rest))
  {
    hide AfterLine, AfterBlock, Strip;
    var s := "#" + text + rest;
    StripOnce(None, s);
    assert s[1..] == text + rest;
  }

  lemma {:induction false} SpaceIsPlain(c: char)
    requires IsSpace(c)
    ensures Plain(c)
  {
  }

  lemma {:induction false} StripGap(g: Gap, rest: string)
    requires ValidGap(g)
    ensures Strip(None, GapText(g) + rest) == GapBlank(g) + Strip(None, rest)
  {
    hide Strip, PieceText, PieceBlank, ValidPiece;
    if g == [] {
      assert GapText(g) + rest == rest && GapBlank(g) + Strip(None, rest) == Strip(None, rest);
    } else {
      assert GapText(g) + rest == PieceText(g[0]) + (GapText(g[1..]) + rest);
      StripPiece(g[0], GapText(g[1..]) + rest);
      StripGap(g[1..], rest);
    }
  }

  lemma {:induction false} WordIsPlain(w: string)
    requires IsWord(w)
    ensures w != ""
    ensures forall i :: 0 <= i < |w| ==> Plain(w[i]) && !IsSpace(w[i]) && w[i] != '='
  {
  }

  lemma {:induction false} StripWordGap(w: string, g: Gap, rest: string)
    requires IsWord(w) && ValidGap(g)
    ensures Strip(None, w + GapText(g) + rest) == w + GapBlank(g) + Strip(None, rest)
  {
    hide Strip, GapText, GapBlank, ValidGap, IsWord, Plain, IsSpace;
    assert w + GapText(g) + rest == w + (GapText(g) + rest);
    WordIsPlain(w);
    StripPlain(w, GapText(g) + rest);
    StripGap(g, rest);
  }

  lemma {:induction false} SpreadFirst(words: seq<string>, gaps: seq<Gap>, rest: string)
    requires |words| == |gaps| > 0
    ensures Spread(words, gaps) + rest == words[0] + GapText(gaps[0]) + (Spread(words[1..], gaps[1..]) + rest)
    ensures SpreadBlank(words, gaps) + rest == words[0] + GapBlank(gaps[0]) + (SpreadBlank(words[1..], gaps[1..]) + rest)
  {
    hide GapText, GapBlank;
  }

  lemma {:induction false} StripSpread(words: seq<string>, gaps: seq<Gap>, rest: string)
    requires |words| == |gaps| && forall i :: 0 <= i < |words| ==> IsWord(words[i]) && ValidGap(gaps[i])
    ensures Strip(None, Spread(words, gaps) + rest) == SpreadBlank(words, gaps) + Strip(None, rest)
    decreases |words|
  {
    hide Strip, GapText, GapBlank, ValidGap, IsWord;
    if words == [] {
      assert Spread(words, gaps) + rest == rest;
      assert SpreadBlank(words, gaps) + Strip(None, rest) == Strip(None, rest);
    } else {
      hide Spread, SpreadBlank;
      SpreadFirst(words, gaps, rest);
      SpreadFirst(words, gaps, Strip(None, rest));
      StripWordGap(words[0], gaps[0], Spread(words[1..], gaps[1..]) + rest);
      StripSpread(words[1..], gaps[1..], rest);
    }
  }

  /** Inside quotes a doubled quote and any other character stay, and a single quote ends them. */
  lemma {:induction false} StripQuotedTurn(quote: char, c: char, rest: string)
    ensures c != quote ==> Strip(Some(quote), [c] + rest) == [c] + Strip(Some(quote), rest)
    ensures Strip(Some(quote), [quote, quote] + rest) == [quote, quote] + Strip(Some(quote), rest)
    ensures (rest != "" ==> rest[0] != quote) ==> Strip(Some(quote), [quote] + rest) == [quote] + Strip(None, rest)
  {
    hide Strip, AfterBlock, AfterLine, OpensBlock, OpensLine, IsQuote;
    StripOnce(Some(quote), [c] + rest);
    StripOnce(Some(quote), [quote, quote] + rest);
    StripOnce(Some(quote), [quote] + rest);
    assert ([c] + rest)[1..] == rest && ([quote, quote] + rest)[2..] == rest && ([quote] + rest)[1..] == rest;
  }

  lemma {:induction false} StripInQuotes(value: string, quote: char, rest: string)
    requires rest != "" ==> rest[0] != quote
    ensures Strip(Some(quote), Double(value, quote) + [quote] + rest) ==
            Double(value, quote) + [quote] + Strip(None, rest)
  {
    hide Strip;
    if value == "" {
      StripQuotedTurn(quote, quote, rest);
      assert Double(value, quote) + [quote] + rest == [quote] + rest;
      assert Double(value, quote) + [quote] + Strip(None, rest) == [quote] + Strip(None, rest);
    } else {
      StripInQuotes(value[1..], quote, rest);
      var head := if value[0] == quote then [quote, quote] else [value[0]];
      var more := Double(value[1..], quote) + [quote] + rest;
      StripQuotedTurn(quote, value[0], more);
      assert Double(value, quote) + [quote] + rest == head + more;
      assert Double(value, quote) + [quote] + Strip(None, rest) ==
             head + (Double(value[1..], quote) + [quote] + Strip(None, rest));
    }
  }

  lemma {:induction false} StripQuoted(value: string, quote: char, rest: string)
    requires IsQuote(quote) && (rest != "" ==> rest[0] != quote)
    ensures Strip(None, QuotedValue(value, quote) + rest) == QuotedValue(value, quote) + Strip(None, rest)
  {
    hide Double;
    var s := QuotedValue(value, quote) + rest;
    assert s[0] == quote && s[1..] == Double(value, quote) + [quote] + rest;
    StripInQuotes(value, quote, rest);
  }

  lemma {:induction false} StripOperand(o: Operand, rest: string)
    requires ValidOperand(o) && (rest != "" ==> !IsQuote(rest[0]))
    ensures Strip(None, OperandText(o) + rest) == OperandText(o) + Strip(None, rest)
  {
    hide Strip, QuotedValue;
    match o {
      case Quoted(value, quote) => StripQuoted(value, quote, rest);
      case Placeholder => StripPlain("?", rest);
    }
  }

  lemma {:induction false} StripEnding(e: Ending)
    requires ValidEnding(e)
    ensures Strip(None, EndingText(e)) == if e == NoComment then "" else " "
  {
    hide AfterLine;
    if e != NoComment {
      AfterLineEnd(e.text, "");
      assert e.text + "" == e.text;
      if e.LineEnd? {
        StripLine(e.text, "");
        assert "--" + e.text + "" == EndingText(e);
      } else {
        StripHash(e.text, "");
        assert "#" + e.text + "" == EndingText(e);
      }
    }
  }

  /** Whether or not there is a semicolon, what follows the operand strips to blanks around it. */
  lemma {:induction false} StripTail(behind: Gap, c: Close) returns (a: string, b: string)
    requires ValidGap(behind) && ValidClose(c)
    ensures Blank(a) && Blank(b) && Strip(None, GapText(behind) + CloseText(c)) == a + (if c.semicolon then ";" else "") + b
  {
    hide Strip, GapText, GapBlank, ValidGap, EndingText;
    var semi := if c.semicolon then ";" else "";
    StripGap(behind, CloseText(c));
    StripPlain(semi, GapText(c.trail) + EndingText(c.end));
    StripGap(c.trail, EndingText(c.end));
    StripEnding(c.end);
    GapIsBlank(behind);
    GapIsBlank(c.trail);
    a := GapBlank(behind);
    b := GapBlank(c.trail) + if c.end == NoComment then "" else " ";
    assert a + (semi + b) == a + semi + b;
  }

  lemma {:induction false} GapStart(g: Gap, rest: string)
    requires rest != "" ==> !IsQuote(rest[0])
    requires WrittenGap(g)
    ensures GapText(g) + rest != "" ==> !IsQuote((GapText(g) + rest)[0])
  {
    if g != [] {
      PieceStart(g[0]);
    }
  }

  lemma {:induction false} CloseStart(c: Close)
    requires WrittenClose(c)
    ensures CloseText(c) != "" ==> !IsQuote(CloseText(c)[0])
  {
    GapStart(c.trail, EndingText(c.end));
  }

  lemma {:induction false} PieceStart(p: Piece)
    requires WrittenPiece(p)
    ensures !IsQuote(PieceText(p)[0])
  {
  }

  /** The part of the statement that is left when blanks, semicolon and comments around it are gone. */
  function Core(st: Statement): (s: string)
    requires |st.words| == |st.gaps|
  {
    SpreadBlank(st.words, st.gaps) + "=" + GapBlank(st.after) + OperandText(st.operand)
  }

  /** Up to the operand, a statement is stripped to its core whatever follows. */
  lemma {:induction false} StripFramed(st: Statement, rest: string)
    requires |st.words| == |st.gaps| && ValidWords(st.words, st.gaps) && ValidOperand(st.operand)
    requires ValidGap(st.lead) && ValidGap(st.after) && (rest != "" ==> !IsQuote(rest[0]))
    ensures Strip(None, Framed(st, rest)) == GapBlank(st.lead) + (Core(st) + Strip(None, rest))
  {
    hide Strip, GapText, GapBlank, ValidGap, Spread, SpreadBlank, OperandText, IsWord;
    var s1 := OperandText(st.operand) + rest;
    var s2 := GapText(st.after) + s1;
    var s3 := "=" + s2;
    StripGap(st.lead, Spread(st.words, st.gaps) + s3);
    StripSpread(st.words, st.gaps, s3);
    StripPlain("=", s2);
    StripGap(st.after, s1);
    StripOperand(st.operand, rest);
    var r := Strip(None, rest);
    assert SpreadBlank(st.words, st.gaps) + ("=" + (GapBlank(st.after) + (OperandText(st.operand) + r))) == Core(st) + r;
  }

  lemma {:induction false} StripText(st: Statement, c: Close) returns (x: string, y: string, z: string)
    requires ValidStatement(st) && ValidClose(c)
    ensures Blank(x) && Blank(y) && Blank(z)
    ensures Strip(None, Text(st, c)) == x + Core(st) + (y + (if c.semicolon then ";" else "") + z)
  {
    hide Strip, Core, CloseText, Framed, GapText, GapBlank, ValidGap, ValidEnding, WrittenEnding, IsQuote;
    FramedConcat(st, GapText(st.behind), CloseText(c));
    LooseClose(c);
    LooseGap(st.behind);
    CloseStart(c);
    GapStart(st.behind, CloseText(c));
    StripFramed(st, GapText(st.behind) + CloseText(c));
    y, z := StripTail(st.behind, c);
    x := GapBlank(st.lead);
    GapIsBlank(st.lead);
  }

  lemma {:induction false} LooseGap(g: Gap)
    requires ValidGap(g)
    ensures WrittenGap(g)
  {
    hide WrittenPiece, Unspaced;
  }

  lemma {:induction false} LooseClose(c: Close)
    requires ValidClose(c)
    ensures WrittenClose(c)
  {
    hide ValidGap;
    LooseGap(c.trail);
  }

  // ---- recognising what is left ----

  lemma {:induction false} SpreadProperties(words: seq<string>, gaps: seq<Gap>)
    requires words != [] && ValidWords(words, gaps)
    ensures var s := SpreadBlank(words, gaps);
            s != "" && !IsSpace(s[0]) && '=' !in s
    decreases |words|
  {
    hide GapBlank;
    WordIsPlain(words[0]);
    GapIsBlank(gaps[0]);
    var s := SpreadBlank(words, gaps);
    assert s[0] == words[0][0];
    if |words| > 1 {
      SpreadProperties(words[1..], gaps[1..]);
    }
  }

  lemma {:induction false} TailWords(words: seq<string>, gaps: seq<Gap>)
    requires words != [] && ValidWords(words, gaps)
    ensures |words| == |gaps| && IsWord(words[0]) && ValidGap(gaps[0]) && (|words| > 1 ==> gaps[0] != [])
    ensures ValidWords(words[1..], gaps[1..])
  {
    hide IsWord, WrittenGap, ValidGap;
  }

  lemma {:induction false} SqueezeSpread(s: string, words: seq<string>, gaps: seq<Gap>)
    requires words != [] && ValidWords(words, gaps) && (s == "" || IsSpace(s[|s| - 1]))
    ensures Squeeze(s + SpreadBlank(words, gaps)) ==
            (if Squeeze(s) == "" then "" else Squeeze(s) + " ") + JoinWords(words)
    decreases |words|
  {
    hide Squeeze, GapBlank, IsSpace, SpreadBlank, IsWord, ValidGap, Blank, ValidWords, JoinWords;
    TailWords(words, gaps);
    WordIsPlain(words[0]);
    GapIsBlank(gaps[0]);
    var u := s + words[0] + GapBlank(gaps[0]);
    SpreadSplit(words, gaps);
    SqueezeWordBlank(s, words[0], GapBlank(gaps[0]));
    JoinFirst(words);
    FourParts(s, words[0], GapBlank(gaps[0]), SpreadBlank(words[1..], gaps[1..]));
    if |words| == 1 {
      assert u + "" == u;
    } else {
      SqueezeSpread(u, words[1..], gaps[1..]);
    }
  }

  lemma {:induction false} FourParts(a: string, b: string, c: string, d: string)
    ensures a + (b + c + d) == a + b + c + d
  {
  }

  lemma {:induction false} SpreadSplit(words: seq<string>, gaps: seq<Gap>)
    requires |words| == |gaps| > 0
    ensures SpreadBlank(words, gaps) == words[0] + GapBlank(gaps[0]) + SpreadBlank(words[1..], gaps[1..])
    ensures |words| == 1 ==> SpreadBlank(words[1..], gaps[1..]) == ""
  {
  }

  lemma {:induction false} SqueezeWordBlank(s: string, w: string, blank: string)
    requires w != "" && (forall i :: 0 <= i < |w| ==> !IsSpace(w[i])) && Blank(blank)
    requires s == "" || IsSpace(s[|s| - 1])
    ensures Squeeze(s + w + blank) == (if Squeeze(s) == "" then "" else Squeeze(s) + " ") + w
    ensures Squeeze(s + w + blank) != ""
    ensures blank != "" ==> IsSpace((s + w + blank)[|s + w + blank| - 1])
  {
    hide Squeeze;
    SqueezeWord(s, w, |w|);
    assert w[..|w|] == w;
    SqueezeBlank(s + w, blank);
  }

  lemma {:induction false} ClosingFound(pre: string, value: string, quote: char)
    ensures Closing(pre + Double(value, quote) + [quote], quote, |pre|) == Some(|pre| + |Double(value, quote)|)
    decreases |value|
  {
    var s := pre + Double(value, quote) + [quote];
    if value != "" {
      var chunk := if value[0] == quote then [quote, quote] else [value[0]];
      ClosingFound(pre + chunk, value[1..], quote);
      assert s == pre + chunk + Double(value[1..], quote) + [quote];
    }
  }

  lemma {:induction false} UndoubleDouble(value: string, quote: char)
    ensures Undouble(Double(value, quote), quote) == value
  {
    var s := Double(value, quote);
    if value != "" {
      UndoubleDouble(value[1..], quote);
      var more := Double(value[1..], quote);
      if value[0] == quote {
        assert s[2..] == more;
      } else {
        assert s[1..] == more && s[0] == value[0];
      }
    }
  }

  lemma {:induction false} QuotedRead(value: string, quote: char)
    requires IsQuote(quote)
    ensures AssignedValue(QuotedValue(value, quote)) == Some(Literal(value))
  {
    hide Closing, Undouble, Double;
    var s := QuotedValue(value, quote);
    ClosingFound([quote], value, quote);
    UndoubleDouble(value, quote);
    assert s[1..|s| - 1] == Double(value, quote) && s[|s|..] == "";
  }

  lemma {:induction false} OperandRead(o: Operand)
    requires ValidOperand(o)
    ensures var s := OperandText(o); Tight(s) && s[|s| - 1] != ';' && AssignedValue(s) == Some(Assigned(o))
  {
    hide AssignedValue, QuotedValue;
    match o {
      case Quoted(value, quote) => QuotedRead(value, quote);
      case Placeholder => PlaceholderRead();
    }
  }

  lemma {:induction false} PlaceholderRead()
    ensures AssignedValue("?") == Some(Parameter)
  {
  }

  lemma {:induction false} CoreRead(st: Statement)
    requires ValidStatement(st)
    ensures Tight(Core(st)) && Core(st)[|Core(st)| - 1] != ';'
    ensures AssignmentIn(Core(st)) == Some(Assigned(st.operand))
  {
    hide SpreadBlank, GapBlank, ValidGap, OperandText, AssignedValue, Trim, Squeeze, ValidWords, JoinWords;
    var q, head := Core(st), SpreadBlank(st.words, st.gaps);
    var value := OperandText(st.operand);
    SpreadProperties(st.words, st.gaps);
    assert q == head + ['='] + (GapBlank(st.after) + value);
    IndexOfFirst(head, '=', GapBlank(st.after) + value);
    var equal := |head|;
    assert q[0] == head[0] && q[..equal] == head && q[equal + 1..] == GapBlank(st.after) + value;
    SqueezeSpread("", st.words, st.gaps);
    SqueezeEmpty();
    assert "" + head == head && "" + JoinWords(st.words) == JoinWords(st.words);
    GapIsBlank(st.after);
    OperandRead(st.operand);
    TrimTight(GapBlank(st.after), value, "");
    assert GapBlank(st.after) + value + "" == GapBlank(st.after) + value;
  }

  /** The recogniser undoes the writer: it returns exactly what every statement of one of the six forms assigns. */
  lemma {:induction false} StatementRecognised(st: Statement, c: Close)
    requires ValidStatement(st) && ValidClose(c)
    ensures Recognise(Text(st, c)) == Some(Assigned(st.operand))
  {
    hide Strip, Core, Trim, AssignmentIn, Text, Tight, Blank, Upper, ValidGap;
    var x, y, z := StripText(st, c);
    CoreRead(st);
    CoreSurvives(Core(st), x, y, z, c.semicolon);
  }

  lemma {:induction false} CoreSurvives(core: string, a: string, b: string, c: string, semicolon: bool)
    requires Tight(core) && core[|core| - 1] != ';' && Blank(a) && Blank(b) && Blank(c)
    ensures var s := a + core + (b + (if semicolon then ";" else "") + c);
            Trim(TrimSemicolon(Trim(s))) == core
  {
    hide Trim;
    if semicolon {
      var body := core + b + ";";
      assert a + core + (b + ";" + c) == a + body + c;
      TrimTight(a, body, c);
      assert TrimSemicolon(body) == "" + core + b;
      TrimTight("", core, b);
    } else {
      assert a + core + (b + "" + c) == a + core + (b + c);
      TrimTight(a, core, b + c);
      assert core == "" + core + "";
      TrimTight("", core, "");
    }
  }

  // ---- and recognises nothing else ----

  /** Up to the closing quote every quote is doubled, so that the text is what writing the value gives. */
  lemma {:induction false} PairedQuotes(rest: string, quote: char, start: nat, end: nat)
    requires Closing(rest, quote, start) == Some(end)
    ensures Double(Undouble(rest[start..end], quote), quote) == rest[start..end] && rest[end] == quote
    decreases |rest| - start
  {
    var s := rest[start..end];
    if rest[start] != quote {
      PairedQuotes(rest, quote, start + 1, end);
      assert s == [rest[start]] + rest[start + 1..end] && s[1..] == rest[start + 1..end];
      var u := Undouble(s[1..], quote);
      assert Undouble(s, quote) == [s[0]] + u && ([s[0]] + u)[1..] == u;
    } else if start + 1 < |rest| && rest[start + 1] == quote {
      PairedQuotes(rest, quote, start + 2, end);
      assert s == [quote, quote] + rest[start + 2..end] && s[2..] == rest[start + 2..end];
      var u := Undouble(s[2..], quote);
      assert Undouble(s, quote) == [quote] + u && ([quote] + u)[1..] == u;
    }
  }

  /** A value without quotes around it. */
  predicate Bare(v: string) {
    && v != "" && v != "?" && !(|v| >= 2 && (v[0] == '\'' || v[0] == '"'))
    && forall i :: 0 <= i < |v| ==> v[i] != ' ' && v[i] as int != 9 && v[i] as int != 10 && v[i] as int != 13
  }

  predicate Writes(a: Assignment, rest: string) {
    match a
    case Parameter => rest == "?"
    case Literal(v) => rest == QuotedValue(v, '\'') || rest == QuotedValue(v, '"') || (rest == v && Bare(v))
  }

  lemma {:induction false} LastOfTail(s: string, k: nat)
    requires k < |s| && !IsSpace(s[|s| - 1])
    ensures !Blank(s[k..])
  {
    hide IsSpace;
    assert s[k..][|s| - 1 - k] == s[|s| - 1];
  }

  lemma {:induction false} QuotedExact(rest: string, v: string)
    requires |rest| >= 2 && IsQuote(rest[0]) && !IsSpace(rest[|rest| - 1])
    requires AssignedValue(rest) == Some(Literal(v))
    ensures rest == QuotedValue(v, rest[0])
  {
    hide Closing, Undouble, Double, Trim, IsSpace, Blank;
    var quote := rest[0];
    var end := Closing(rest, quote, 1).value;
    var after: nat := end + 1;
    PairedQuotes(rest, quote, 1, end);
    TrimEnd(rest[after..]);
    if after < |rest| {
      LastOfTail(rest, after);
    }
    assert rest == [quote] + rest[1..end] + [quote];
  }

  lemma {:induction false} AssignedExact(rest: string, a: Assignment)
    requires rest != "" ==> !IsSpace(rest[|rest| - 1])
    ensures AssignedValue(rest) == Some(a) <==> Writes(a, rest)
  {
    hide Closing, Undouble, Double, Trim, IsSpace, QuotedValue;
    if AssignedValue(rest) == Some(a) && a.Literal? && |rest| >= 2 && IsQuote(rest[0]) {
      QuotedExact(rest, a.value);
    }
    if a.Literal? && !Bare(rest) && Writes(a, rest) {
      QuotedRead(a.value, rest[0]);
    }
  }

  /** The text is a head, an equals sign and what writes the assignment. */
  predicate Spells(q: string, equal: nat, a: Assignment) {
    && equal < |q| && q[equal] == '=' && '=' !in q[..equal]
    && Upper(Squeeze(q[..equal])) in Heads && Writes(a, Trim(q[equal + 1..]))
  }

  /** The recogniser accepts a query if and only if, comments and blanks aside, it is one of the six forms. */
  lemma {:induction false} RecognisedExactly(query: string, a: Assignment)
    ensures Recognise(query) == Some(a) <==> exists equal: nat :: Spells(Normalised(query), equal, a)
  {
    hide Normalised, Writes, AssignedValue, Trim, Squeeze, Upper;
    var q := Normalised(query);
    var equal := IndexOf(q, '=');
    if equal < |q| {
      TrimEnd(q[equal + 1..]);
      AssignedExact(Trim(q[equal + 1..]), a);
    }
    if Recognise(query) == Some(a) {
      assert Spells(q, equal, a);
    }
    if exists k: nat :: Spells(q, k, a) {
      var k: nat :| Spells(q, k, a);
      assert q == q[..k] + ['='] + q[k + 1..];
      IndexOfFirst(q[..k], '=', q[k + 1..]);
      HeadsNonEmpty(q[..k]);
    }
  }

  lemma {:induction false} HeadsNonEmpty(s: string)
    requires Upper(Squeeze(s)) in Heads
    ensures s != ""
  {
    SqueezeEmpty();
    assert forall k :: 0 <= k < |Heads| ==> Heads[k] != "";
  }
}
