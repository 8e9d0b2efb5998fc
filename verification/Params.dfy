/** Client-side interpolation of `?` placeholders, and what it preserves of the template's lexical structure. */
module Params {
  import opened Bytes
  import opened SqlLexer

  // ---- literals ----

  /** Characters that mean something to the scanner outside quotes, other than '-'. */
  predicate Special(c: char) {
    c == '\'' || c == '"' || c == '`' || c == '#' || c == '/' || c == '*' || c == '?' || c == '\n'
  }

  /** Text such as -1.5e-07 or +Inf: every '-' is followed by something else. */
  predicate NumberText(s: string) {
    && s != ""
    && (forall i :: 0 <= i < |s| ==> !Special(s[i]))
    && (forall i :: 0 <= i < |s| && s[i] == '-' ==> i + 1 < |s| && s[i + 1] != '-')
  }

  /** What a floating-point number is formatted to. */
  type FloatText = s: string | NumberText(s) witness "0"

  datatype Value =
    | Nil
    | Int64(i: int)
    | Float64(text: FloatText)
    | Bool(b: bool)
    | Blob(bytes: seq<byte>)
    | Text(s: string)
    | Timestamp(formatted: string)
    | Unsupported

  datatype NamedValue = NamedValue(name: string, value: Value)

  function Digit(d: nat): (c: char)
    requires d < 16
  {
    "0123456789ABCDEF"[d]
  }

  function DecimalText(n: nat): (s: string)
    ensures s != ""
  {
    if n < 10 then [Digit(n)] else DecimalText(n / 10) + [Digit(n % 10)]
  }

  function FormatInt(i: int): (s: string) {
    if i < 0 then "-" + DecimalText(-i) else DecimalText(i)
  }

  function Hex(b: seq<byte>): (s: string)
  {
    if b == [] then "" else [Digit(b[0] / 16), Digit(b[0] % 16)] + Hex(b[1..])
  }

  /** Every quote doubled. */
  function Doubled(s: string): (r: string)
    decreases |s|
  {
    if s == "" then ""
    else Doubled(s[..|s| - 1]) + (if s[|s| - 1] == '\'' then "''" else [s[|s| - 1]])
  }

  function QuoteString(s: string): (r: string) {
    "'" + Doubled(s) + "'"
  }

  function Literal(arg: NamedValue): (r: Option<string>)
  {
    if arg.name != "" then None
    else
      match arg.value
      case Nil => Some("NULL")
      case Int64(i) => Some(FormatInt(i))
      case Float64(text) => Some(text)
      case Bool(b) => Some(if b then "1" else "0")
      case Blob(bytes) => Some("hextoraw('" + Hex(bytes) + "')")
      case Text(s) => Some(QuoteString(s))
      case Timestamp(formatted) => Some("timestamp " + QuoteString(formatted))
      case Unsupported => None
  }

  /** The rendered arguments; the text of one without a literal is never used. */
  function Rendered(args: seq<NamedValue>): (lits: seq<string>)
    ensures |lits| == |args|
  {
    seq(|args|, i requires 0 <= i < |args| => if Literal(args[i]).Some? then Literal(args[i]).value else "")
  }

  predicate AllLiteral(args: seq<NamedValue>) {
    forall i :: 0 <= i < |args| ==> Literal(args[i]).Some?
  }

  // ---- interpolation ----

  /** The template with its k-th placeholder replaced by the k-th literal and everything else unchanged. */
  function Interpolated(query: string, lits: seq<string>): (out: string)
    requires Marks(Normal, query) <= |lits|
    decreases |query|
  {
    if query == "" then ""
    else
      var n := |query| - 1;
      Interpolated(query[..n], lits)
      + if IsMark(Scan(Normal, query[..n]), query[n]) then lits[Marks(Normal, query[..n])] else [query[n]]
  }

  lemma {:induction false} InterpolatedStep(query: string, lits: seq<string>, n: nat)
    requires n < |query| && Marks(Normal, query[..n + 1]) <= |lits|
    ensures Marks(Normal, query[..n]) <= |lits|
    ensures IsMark(Scan(Normal, query[..n]), query[n]) ==> Marks(Normal, query[..n]) < |lits|
    ensures Interpolated(query[..n + 1], lits) ==
            Interpolated(query[..n], lits)
            + if IsMark(Scan(Normal, query[..n]), query[n]) then lits[Marks(Normal, query[..n])] else [query[n]]
  {
    hide Scan, Marks, IsMark;
    ScanStep(Normal, query, n);
    assert query[..n + 1][..n] == query[..n];
  }

  lemma {:induction false} NothingToInterpolate(query: string, lits: seq<string>)
    requires Marks(Normal, query) == 0
    ensures Interpolated(query, lits) == query
    decreases |query|
  {
    hide IsMark;
    if query != "" {
      NothingToInterpolate(query[..|query| - 1], lits);
    }
  }

  /**
   Interpolation succeeds exactly when countPlaceholders of the query is the number of arguments and each of them has a
   literal, and then puts the literals in place of the placeholders: the two scanners agree on where those are.
   */
  method InterpolateParams(query: string, args: seq<NamedValue>) returns (r: Option<string>)
    ensures r.Some? <==> Marks(Normal, query) == |args| && AllLiteral(args)
    ensures r.Some? ==> r.value == Interpolated(query, Rendered(args))
  {
    hide Interpolated, Literal, Scan, Marks, Advance, Committed, Collapse;
    if |args| == 0 {
      var n := CountPlaceholders(query);
      if n > 0 {
        return None;
      }
      NothingToInterpolate(query, Rendered(args));
      return Some(query);
    }
    var out := "";
    var argPos := 0;
    var state := Normal;
    var i := 0;
    ghost var lits := Rendered(args);
    InterpolatedEmpty(query, lits);
    NormalCommitted(query, 0);
    while i < |query|
      invariant 0 <= i <= |query|
      invariant state == Collapse(Scan(Normal, query[..i])) && Committed(Scan(Normal, query[..i]), query, i)
      invariant argPos == Marks(Normal, query[..i]) <= |args|
      invariant forall k :: 0 <= k < argPos ==> Literal(args[k]).Some?
      invariant out == Interpolated(query[..i], lits)
      decreases |query| - i
    {
      var ch := query[i];
      ScanStep(Normal, query, i);
      MarksMonotonic(Normal, query, i + 1, |query|);
      assert query[..|query|] == query;
      if state == Normal && ch == '?' {
        if argPos >= |args| {
          return None;
        }
        var lit := Literal(args[argPos]);
        if lit.None? {
          return None;
        }
        InterpolatedStep(query, lits, i);
        AfterMark(Scan(Normal, query[..i]));
        NormalCommitted(query, i + 1);
        out := out + lit.value;
        argPos := argPos + 1;
      } else {
        InterpolatedStep(query, lits, i);
        out := out + [ch];
        var pair: bool;
        state, pair := NextState(state, query, i, Scan(Normal, query[..i]));
        if pair {
          ScanStep(Normal, query, i + 1);
          MarksMonotonic(Normal, query, i + 2, |query|);
          InterpolatedStep(query, lits, i + 1);
          out := out + [query[i + 1]];
          i := i + 1;
        }
      }
      i := i + 1;
    }
    assert query[..i] == query;
    if argPos != |args| {
      return None;
    }
    return Some(out);
  }

  /** One turn of the scanner on a character that is not a placeholder: the new state, and whether it takes two. */
  method NextState(state: Lex, query: string, i: nat, ghost q: Lex) returns (next: Lex, pair: bool)
    requires i < |query| && !(state == Normal && query[i] == '?')
    requires state == Collapse(q) && Committed(q, query, i)
    ensures pair ==> i + 1 < |query| && query[i + 1] != '?'
    ensures var q1 := Advance(q, query[i]);
            if pair then
              var q2 := Advance(q1, query[i + 1]);
              next == Collapse(q2) && Committed(q2, query, i + 2)
            else next == Collapse(q1) && Committed(q1, query, i + 1)
  {
    var ch := query[i];
    next, pair := state, false;
    var following := if i + 1 < |query| then [query[i + 1]] else "";
    match state {
      case Normal =>
        if ch == '\'' {
          next := SingleQuote;
        } else if ch == '"' {
          next := DoubleQuote;
        } else if ch == '`' {
          next := Backtick;
        } else if ch == '#' || (ch == '-' && following == "-") {
          next, pair := LineComment, ch == '-';
        } else if ch == '/' && following == "*" {
          next, pair := BlockComment, true;
        }
      case SingleQuote =>
        if ch == '\'' {
          if following == "'" {
            pair := true;
          } else {
            next := Normal;
          }
        }
      case DoubleQuote =>
        if ch == '"' {
          next := Normal;
        }
      case Backtick =>
        if ch == '`' {
          next := Normal;
        }
      case LineComment =>
        if ch == '\n' {
          next := Normal;
        }
      case _ =>
        if ch == '*' && following == "/" {
          next, pair := Normal, true;
        }
    }
  }

  lemma {:induction false} AfterMark(q: Lex)
    requires Active(q)
    ensures Advance(q, '?') == Normal
  {
  }

  lemma {:induction false} NormalCommitted(s: string, i: nat)
    ensures Collapse(Normal) == Normal && Committed(Normal, s, i)
  {
  }

  lemma {:induction false} InterpolatedEmpty(query: string, lits: seq<string>)
    ensures Scan(Normal, query[..0]) == Normal && Marks(Normal, query[..0]) == 0
    ensures Interpolated(query[..0], lits) == ""
  {
  }

  // ---- literals under the scanner ----

  /** Output in step with the template; right after a quoted literal it may still wait for a doubled quote. */
  predicate InStep(template: Lex, output: Lex) {
    output == template || (template == Normal && output == QuoteInQuote)
  }

  lemma {:induction false} InStepAdvance(t: Lex, o: Lex, c: char)
    requires InStep(t, o)
    ensures InStep(Advance(t, c), Advance(o, c)) && (IsMark(t, c) <==> IsMark(o, c))
  {
  }

  lemma {:induction false} NumberScan(q: Lex, s: string, n: nat)
    requires NumberText(s) && Active(q) && (q == Dash ==> s[0] != '-') && 1 <= n <= |s|
    ensures Scan(q, s[..n]) == (if s[n - 1] == '-' then Dash else Normal) && Marks(q, s[..n]) == 0
    decreases n
  {
    hide Scan, Marks;
    ScanStep(q, s, n - 1);
    if n > 1 {
      NumberScan(q, s, n - 1);
    } else {
      ScanNothing(q, s);
    }
  }

  lemma {:induction false} ScanNothing(q: Lex, s: string)
    ensures Scan(q, s[..0]) == q && Marks(q, s[..0]) == 0
  {
  }

  lemma {:induction false} NumberLiteral(q: Lex, s: string)
    requires NumberText(s) && Active(q) && (q == Dash ==> s[0] != '-')
    ensures Scan(q, s) == Normal && Marks(q, s) == 0
  {
    hide Scan, Marks;
    NumberScan(q, s, |s|);
    assert s[..|s|] == s;
  }

  lemma {:induction false} DoubledScan(s: string)
    ensures Scan(SingleQuote, Doubled(s)) == SingleQuote && Marks(SingleQuote, Doubled(s)) == 0
    decreases |s|
  {
    hide Scan, Marks;
    if s == "" {
      ScanNothing(SingleQuote, "");
      assert Doubled(s) == ""[..0];
    } else {
      var head, c := Doubled(s[..|s| - 1]), s[|s| - 1];
      DoubledScan(s[..|s| - 1]);
      if c == '\'' {
        ScanConcat(SingleQuote, head, "'");
        ScanOne(SingleQuote, '\'');
        ScanConcat(SingleQuote, head + "'", "'");
        ScanOne(QuoteInQuote, '\'');
        assert Doubled(s) == head + "'" + "'";
      } else {
        ScanConcat(SingleQuote, head, [c]);
        ScanOne(SingleQuote, c);
      }
    }
  }

  /** A quoted string merges with a quote just before it, and either way ends waiting for a doubled quote. */
  lemma {:induction false} QuotedScan(q: Lex, s: string)
    requires Active(q)
    ensures Scan(q, QuoteString(s)) == QuoteInQuote && Marks(q, QuoteString(s)) == 0
  {
    hide Scan, Marks, Doubled;
    ScanOne(q, '\'');
    DoubledScan(s);
    ScanConcat(q, "'", Doubled(s));
    ScanOne(SingleQuote, '\'');
    ScanConcat(q, "'" + Doubled(s), "'");
  }

  lemma {:induction false} DigitsNumber(n: nat)
    ensures NumberText(DecimalText(n)) && forall i :: 0 <= i < |DecimalText(n)| ==> DecimalText(n)[i] != '-'
  {
    if n >= 10 {
      DigitsNumber(n / 10);
    }
  }

  lemma {:induction false} HexPlain(b: seq<byte>)
    ensures forall i :: 0 <= i < |Hex(b)| ==> Hex(b)[i] != '\''
    ensures Doubled(Hex(b)) == Hex(b)
  {
    if b != [] {
      HexPlain(b[1..]);
    }
    DoubledPlain(Hex(b));
  }

  lemma {:induction false} DoubledPlain(s: string)
    requires forall i :: 0 <= i < |s| ==> s[i] != '\''
    ensures Doubled(s) == s
    decreases |s|
  {
    if s != "" {
      DoubledPlain(s[..|s| - 1]);
    }
  }

  /** Every literal, from any state outside quotes, is read as a literal, unless it turns `-` into `--`. */
  lemma {:induction false} LiteralScan(q: Lex, arg: NamedValue)
    requires Active(q) && Literal(arg).Some? && Literal(arg).value != ""
    requires q == Dash ==> Literal(arg).value[0] != '-'
    ensures InStep(Normal, Scan(q, Literal(arg).value)) && Marks(q, Literal(arg).value) == 0
  {
    hide Scan, Marks, Doubled, Hex, DecimalText;
    match arg.value {
      case Nil => NumberLiteral(q, "NULL");
      case Int64(i) =>
        DigitsNumber(if i < 0 then -i else i);
        NumberLiteral(q, FormatInt(i));
      case Float64(text) => NumberLiteral(q, text);
      case Bool(b) => NumberLiteral(q, if b then "1" else "0");
      case Blob(bytes) =>
        HexPlain(bytes);
        CallScan(q, Hex(bytes));
        assert Literal(arg).value == "hextoraw(" + QuoteString(Hex(bytes)) + ")";
      case Text(s) => QuotedScan(q, s);
      case Timestamp(formatted) => TimestampScan(q, formatted);
    }
  }

  lemma {:induction false} CallScan(q: Lex, s: string)
    requires Active(q)
    ensures var call := "hextoraw(" + QuoteString(s) + ")";
            Scan(q, call) == Normal && Marks(q, call) == 0
  {
    hide Scan, Marks, QuoteString;
    NumberLiteral(q, "hextoraw(");
    QuotedScan(Normal, s);
    ScanConcat(q, "hextoraw(", QuoteString(s));
    ScanOne(QuoteInQuote, ')');
    ScanConcat(q, "hextoraw(" + QuoteString(s), ")");
  }

  lemma {:induction false} TimestampScan(q: Lex, s: string)
    requires Active(q)
    ensures var literal := "timestamp " + QuoteString(s);
            Scan(q, literal) == QuoteInQuote && Marks(q, literal) == 0
  {
    hide Scan, Marks, QuoteString;
    NumberLiteral(q, "timestamp ");
    QuotedScan(Normal, s);
    ScanConcat(q, "timestamp ", QuoteString(s));
  }

  lemma {:induction false} LiteralNonEmpty(arg: NamedValue)
    requires Literal(arg).Some?
    ensures Literal(arg).value != ""
  {
  }

  /** Only numbers start with '-', and after another '-' they are swallowed by a comment to the end of the line. */
  lemma {:induction false} DashDash(arg: NamedValue)
    requires Literal(arg).Some? && Literal(arg).value != "" && Literal(arg).value[0] == '-'
    ensures Scan(Dash, Literal(arg).value) == LineComment
  {
    hide Scan, DecimalText;
    var s := Literal(arg).value;
    if arg.value.Int64? {
      DigitsNumber(if arg.value.i < 0 then -arg.value.i else arg.value.i);
    }
    assert NumberText(s);
    CommentScan(s, |s|);
    assert s[..|s|] == s;
  }

  lemma {:induction false} CommentScan(s: string, n: nat)
    requires NumberText(s) && s[0] == '-' && 1 <= n <= |s|
    ensures Scan(Dash, s[..n]) == LineComment
    decreases n
  {
    hide Scan;
    ScanStep(Dash, s, n - 1);
    if n > 1 {
      CommentScan(s, n - 1);
    } else {
      ScanNothing(Dash, s);
    }
  }

  // ---- lexical preservation ----

  /** At position n a placeholder right after an unquoted '-' receives a literal with a leading '-'. */
  predicate ClashAt(query: string, lits: seq<string>, n: nat)
    requires n < |query|
  {
    var k := Marks(Normal, query[..n]);
    query[n] == '?' && Scan(Normal, query[..n]) == Dash && k < |lits| && lits[k] != "" && lits[k][0] == '-'
  }

  predicate NoClash(query: string, lits: seq<string>) {
    forall n :: 0 <= n < |query| ==> !ClashAt(query, lits, n)
  }

  /** Scanned again, the text has no placeholder and ends in the template's state. */
  predicate SameLex(template: string, output: string) {
    Collapse(Scan(Normal, output)) == Collapse(Scan(Normal, template)) && Marks(Normal, output) == 0
  }

  lemma {:induction false} PrefixInStep(query: string, args: seq<NamedValue>, n: nat)
    requires n <= |query| && AllLiteral(args) && Marks(Normal, query[..n]) <= |args|
    requires forall i :: 0 <= i < n ==> !ClashAt(query, Rendered(args), i)
    ensures var out := Interpolated(query[..n], Rendered(args));
            InStep(Scan(Normal, query[..n]), Scan(Normal, out)) && Marks(Normal, out) == 0
    decreases n
  {
    hide Scan, Marks, Interpolated, Literal, Advance;
    var lits := Rendered(args);
    if n == 0 {
      InterpolatedEmpty(query, lits);
      ScanNothing(Normal, "");
      assert ""[..0] == "";
    } else {
      var i := n - 1;
      InterpolatedStep(query, lits, i);
      ScanStep(Normal, query, i);
      PrefixInStep(query, args, i);
      var out, k := Interpolated(query[..i], lits), Marks(Normal, query[..i]);
      var t, o := Scan(Normal, query[..i]), Scan(Normal, out);
      if IsMark(t, query[i]) {
        AfterMark(t);
        LiteralNonEmpty(args[k]);
        assert !ClashAt(query, lits, i);
        LiteralScan(o, args[k]);
        ScanConcat(Normal, out, lits[k]);
      } else {
        InStepAdvance(t, o, query[i]);
        ScanOne(o, query[i]);
        ScanConcat(Normal, out, [query[i]]);
      }
    }
  }

  /** The first clash puts the literal, and with it the rest of the line, into a comment. */
  lemma {:induction false} ClashBreaks(query: string, args: seq<NamedValue>, n: nat)
    requires n < |query| && AllLiteral(args) && Marks(Normal, query[..n + 1]) <= |args|
    requires ClashAt(query, Rendered(args), n)
    requires forall i :: 0 <= i < n ==> !ClashAt(query, Rendered(args), i)
    ensures !SameLex(query[..n + 1], Interpolated(query[..n + 1], Rendered(args)))
  {
    hide Scan, Marks, Interpolated, Literal, Advance;
    var lits := Rendered(args);
    InterpolatedStep(query, lits, n);
    ScanStep(Normal, query, n);
    PrefixInStep(query, args, n);
    var out, k := Interpolated(query[..n], lits), Marks(Normal, query[..n]);
    AfterMark(Dash);
    ScanConcat(Normal, out, lits[k]);
    DashDash(args[k]);
  }

  lemma {:induction false} FirstClash(query: string, lits: seq<string>, n: nat) returns (first: nat)
    requires n < |query| && ClashAt(query, lits, n)
    ensures first <= n && ClashAt(query, lits, first) && forall i :: 0 <= i < first ==> !ClashAt(query, lits, i)
    decreases n
  {
    hide ClashAt;
    if i :| 0 <= i < n && ClashAt(query, lits, i) {
      first := FirstClash(query, lits, i);
    } else {
      first := n;
    }
  }

  /** Every prefix of the template keeps its lexical structure when its placeholders are filled in. */
  ghost predicate PreservesStructure(query: string, lits: seq<string>)
    requires Marks(Normal, query) <= |lits|
  {
    forall n :: 0 <= n <= |query| ==> PrefixPreserved(query, lits, n)
  }

  ghost predicate PrefixPreserved(query: string, lits: seq<string>, n: nat)
    requires Marks(Normal, query) <= |lits| && n <= |query|
  {
    MarksOfPrefix(query, n);
    SameLex(query[..n], Interpolated(query[..n], lits))
  }

  lemma {:induction false} MarksOfPrefix(query: string, n: nat)
    requires n <= |query|
    ensures Marks(Normal, query[..n]) <= Marks(Normal, query)
  {
    MarksMonotonic(Normal, query, n, |query|);
    assert query[..|query|] == query;
  }

  /** Lexical structure is preserved at every point of the template exactly when no '-' meets a negative literal. */
  lemma {:induction false} StructurePreserved(query: string, args: seq<NamedValue>)
    requires Marks(Normal, query) == |args| && AllLiteral(args)
    ensures PreservesStructure(query, Rendered(args)) <==> NoClash(query, Rendered(args))
  {
    hide ClashAt, SameLex, Rendered, AllLiteral, Interpolated, Marks;
    var lits := Rendered(args);
    if NoClash(query, lits) {
      forall n | 0 <= n <= |query|
        ensures PrefixPreserved(query, lits, n)
      {
        MarksOfPrefix(query, n);
        PrefixInStep(query, args, n);
        InStepSame(query[..n], Interpolated(query[..n], lits));
      }
    } else {
      var n :| 0 <= n < |query| && ClashAt(query, lits, n);
      var first := FirstClash(query, lits, n);
      MarksOfPrefix(query, first + 1);
      ClashBreaks(query, args, first);
      assert !PrefixPreserved(query, lits, first + 1);
    }
  }

  lemma {:induction false} InStepSame(template: string, output: string)
    requires InStep(Scan(Normal, template), Scan(Normal, output)) && Marks(Normal, output) == 0
    ensures SameLex(template, output)
  {
  }

  /** Re-scanning the output: it asks for no arguments and ends where the template ends. */
  lemma {:induction false} OutputRescans(query: string, args: seq<NamedValue>)
    requires Marks(Normal, query) == |args| && AllLiteral(args) && NoClash(query, Rendered(args))
    ensures SameLex(query, Interpolated(query, Rendered(args)))
  {
    hide ClashAt, SameLex, Rendered, AllLiteral, Interpolated, Marks, PrefixPreserved;
    StructurePreserved(query, args);
    assert PrefixPreserved(query, Rendered(args), |query|);
    WholePrefix(query, Rendered(args));
  }

  lemma {:induction false} WholePrefix(query: string, lits: seq<string>)
    requires Marks(Normal, query) <= |lits| && PrefixPreserved(query, lits, |query|)
    ensures SameLex(query, Interpolated(query, lits))
  {
    assert query[..|query|] == query;
  }

  /** The condition is needed: the template -? with the argument -1 becomes the comment --1. */
  lemma {:induction false} NegativeAfterMinus()
    ensures var args := [NamedValue("", Int64(-1))];
            && AllLiteral(args) && Marks(Normal, "-?") == |args|
            && Interpolated("-?", Rendered(args)) == "--1" && !SameLex("-?", "--1")
  {
    hide Scan, Marks, Interpolated;
    var args := [NamedValue("", Int64(-1))];
    assert DecimalText(1) == "1";
    assert FormatInt(-1) == "-" + DecimalText(1) == "-1";
    assert Literal(args[0]) == Some("-1");
    assert Rendered(args) == ["-1"];
    ScanTwo('-', '?');
    InterpolatedTwo('-', '?', ["-1"]);
    ScanTwo('-', '-');
    ScanConcat(Normal, "--", "1");
    ScanOne(LineComment, '1');
    assert "--" + "1" == "--1" && "-" + "-1" == "--1";
  }

  lemma {:induction false} ScanTwo(a: char, b: char)
    ensures Scan(Normal, [a, b]) == Advance(Advance(Normal, a), b)
    ensures Marks(Normal, [a, b]) ==
            (if IsMark(Normal, a) then 1 else 0) + if IsMark(Advance(Normal, a), b) then 1 else 0
  {
    hide Scan, Marks;
    ScanOne(Normal, a);
    ScanOne(Advance(Normal, a), b);
    ScanConcat(Normal, [a], [b]);
    assert [a] + [b] == [a, b];
  }

  lemma {:induction false} InterpolatedTwo(a: char, b: char, lits: seq<string>)
    requires !IsMark(Normal, a) && IsMark(Advance(Normal, a), b) && |lits| == 1
    ensures Marks(Normal, [a, b]) == 1 && Interpolated([a, b], lits) == [a] + lits[0]
  {
    hide Scan, Marks, IsMark, Interpolated;
    ScanTwo(a, b);
    ScanOne(Normal, a);
    InterpolatedEmpty([a, b], lits);
    assert [a, b][..1] == [a] && [a, b][..2] == [a, b];
    InterpolatedStep([a, b], lits, 0);
    InterpolatedStep([a, b], lits, 1);
  }
}
