/** SQL literals read back: what a server makes of the text that stands for an argument. */
module Literals {
  import opened Bytes
  import opened Params

  /** A value that a literal denotes. Text that is no integer, such as 1.5e-07, denotes some real number. */
  datatype Meaning =
    | Null
    | Number(i: int)
    | Real(text: string)
    | Chars(s: string)
    | Raw(bytes: seq<byte>)
    | Moment(s: string)

  // ---- the reader ----

  predicate IsDigit(c: char) {
    '0' <= c <= '9'
  }

  /** The number that decimal digits spell, the first one counting most. */
  function Decimal(s: string): Option<nat>
  {
    if s == "" then None
    else
      var n, c := |s| - 1, s[|s| - 1];
      if !IsDigit(c) then None
      else if n == 0 then Some((c - '0') as nat)
      else
        match Decimal(s[..n])
        case None => None
        case Some(v) => Some(10 * v + (c - '0') as nat)
  }

  function ReadNumber(s: string): Option<int> {
    if s != "" && s[0] == '-' then
      match Decimal(s[1..])
      case None => None
      case Some(v) => Some(-(v as int))
    else
      match Decimal(s)
      case None => None
      case Some(v) => Some(v as int)
  }

  /** What stands before the closing quote, doubled quotes read as one; nothing may follow. */
  function ReadQuoted(s: string): (r: Option<string>) {
    if s == "" then None
    else if s[0] != '\'' then
      match ReadQuoted(s[1..])
      case None => None
      case Some(t) => Some([s[0]] + t)
    else if |s| == 1 then Some("")
    else if s[1] != '\'' then None
    else
      match ReadQuoted(s[2..])
      case None => None
      case Some(t) => Some("'" + t)
  }

  function HexDigit(c: char): Option<nat> {
    if '0' <= c <= '9' then Some((c - '0') as nat)
    else if 'A' <= c <= 'F' then Some(10 + (c - 'A') as nat)
    else if 'a' <= c <= 'f' then Some(10 + (c - 'a') as nat)
    else None
  }

  function ReadHex(s: string): Option<seq<byte>> {
    if s == "" then Some([])
    else if |s| == 1 then None
    else
      match (HexDigit(s[0]), HexDigit(s[1]), ReadHex(s[2..]))
      case (Some(high), Some(low), Some(more)) =>
        var b := 16 * high + low;
        if b < 256 then Some([b] + more) else None
      case _ => None
  }

  /** The reader of a whole literal. */
  function ReadLiteral(s: string): Option<Meaning> {
    if s == "NULL" then Some(Null)
    else if s == "" then None
    else if s[0] == '\'' then
      match ReadQuoted(s[1..])
      case None => None
      case Some(t) => Some(Chars(t))
    else if "timestamp '" <= s then
      match ReadQuoted(s[11..])
      case None => None
      case Some(t) => Some(Moment(t))
    else if "hextoraw('" <= s && s[|s| - 1] == ')' && |s| > 11 then
      match ReadQuoted(s[10..|s| - 1])
      case None => None
      case Some(t) =>
        match ReadHex(t)
        case None => None
        case Some(bytes) => Some(Raw(bytes))
    else
      match ReadNumber(s)
      case Some(i) => Some(Number(i))
      case None => Some(Real(s))
  }

  // ---- literals stand for their values ----

  /** What an argument means to the server: truth values are numbers, and so is real text that spells an integer. */
  function MeaningOf(v: Value): Option<Meaning> {
    match v
    case Nil => Some(Null)
    case Int64(i) => Some(Number(i))
    case Float64(text) => ReadLiteral(text)
    case Bool(b) => Some(Number(if b then 1 else 0))
    case Blob(bytes) => Some(Raw(bytes))
    case Text(s) => Some(Chars(s))
    case Timestamp(formatted) => Some(Moment(formatted))
    case Unsupported => None
  }

  lemma {:induction false} DigitReads(d: nat)
    requires d < 16
    ensures HexDigit(Digit(d)) == Some(d)
    ensures d < 10 ==> IsDigit(Digit(d)) && (Digit(d) - '0') as nat == d
  {
  }

  lemma {:induction false} DigitsRead(n: nat)
    ensures Decimal(DecimalText(n)) == Some(n)
    decreases n
  {
    hide Digit, IsDigit;
    var s := DecimalText(n);
    DigitReads(n % 10);
    if n < 10 {
      assert s[|s| - 1] == Digit(n);
    } else {
      DigitsRead(n / 10);
      assert s[..|s| - 1] == DecimalText(n / 10) && s[|s| - 1] == Digit(n % 10);
    }
  }

  lemma {:induction false} DigitsStart(n: nat)
    ensures IsDigit(DecimalText(n)[0])
    decreases n
  {
    hide Digit, IsDigit;
    if n < 10 {
      DigitReads(n);
    } else {
      DigitsStart(n / 10);
      assert DecimalText(n)[0] == DecimalText(n / 10)[0];
    }
  }

  lemma {:induction false} IntReads(i: int)
    ensures ReadNumber(FormatInt(i)) == Some(i)
    ensures var s := FormatInt(i); s != "" && (s[0] == '-' || IsDigit(s[0]))
  {
    hide Decimal, DecimalText, IsDigit;
    DigitsRead(if i < 0 then -i else i);
    DigitsStart(if i < 0 then -i else i);
    DigitIsNoMinus(DecimalText(if i < 0 then -i else i)[0]);
    if i < 0 {
      assert FormatInt(i)[1..] == DecimalText(-i);
    }
  }

  lemma {:induction false} DigitIsNoMinus(c: char)
    requires IsDigit(c)
    ensures c != '-' && c != '\'' && c != 't' && c != 'h' && c != 'N'
  {
  }

  lemma {:induction false} DoubledFirst(c: char, t: string)
    ensures Doubled([c] + t) == (if c == '\'' then "''" else [c]) + Doubled(t)
    decreases |t|
  {
    if t == "" {
      assert Doubled([c] + t) == Doubled([c] + t)[..];
      assert ([c] + t)[..0] == "";
    } else {
      var n := |t| - 1;
      assert ([c] + t)[..n + 1] == [c] + t[..n];
      DoubledFirst(c, t[..n]);
    }
  }

  lemma {:induction false} QuotedReads(s: string)
    ensures ReadQuoted(Doubled(s) + "'") == Some(s)
    decreases |s|
  {
    hide Doubled;
    if s == "" {
      NothingDoubled();
    } else {
      var c, t := s[0], s[1..];
      assert s == [c] + t;
      DoubledFirst(c, t);
      QuotedReads(t);
      var more := Doubled(t) + "'";
      var whole := Doubled(s) + "'";
      if c == '\'' {
        assert whole == "''" + more && whole[2..] == more;
      } else {
        assert whole == [c] + more && whole[1..] == more;
      }
    }
  }

  lemma {:induction false} NothingDoubled()
    ensures Doubled("") == "" && "" + "'" == "'"
  {
  }

  lemma {:induction false} HexReads(b: seq<byte>)
    ensures ReadHex(Hex(b)) == Some(b)
  {
    hide Digit, HexDigit;
    if b != [] {
      var d: int := b[0];
      DigitReads(d / 16);
      DigitReads(d % 16);
      HexReads(b[1..]);
      var s := Hex(b);
      assert s[0] == Digit(d / 16) && s[1] == Digit(d % 16) && s[2..] == Hex(b[1..]);
      assert [b[0]] + b[1..] == b;
    }
  }

  /** Every literal denotes the value of its argument. */
  lemma {:induction false} LiteralMeans(arg: NamedValue)
    requires Literal(arg).Some?
    ensures ReadLiteral(Literal(arg).value) == MeaningOf(arg.value)
  {
    hide ReadQuoted, ReadHex, ReadNumber, Doubled, Hex, FormatInt, IsDigit;
    var s := Literal(arg).value;
    match arg.value {
      case Nil =>
      case Int64(i) =>
        IntReads(i);
        NumberLike(s);
      case Float64(_) =>
      case Bool(b) =>
        BoolReads(b);
        NumberLike(s);
      case Blob(bytes) =>
        BlobReads(bytes);
      case Text(t) =>
        QuotedReads(t);
        assert s[1..] == Doubled(t) + "'";
      case Timestamp(t) =>
        QuotedReads(t);
        TimestampReads(t);
    }
  }

  lemma {:induction false} NumberLike(s: string)
    requires s != "" && (s[0] == '-' || IsDigit(s[0])) && ReadNumber(s).Some?
    ensures ReadLiteral(s) == Some(Number(ReadNumber(s).value))
  {
    hide ReadNumber, ReadQuoted, ReadHex;
    assert "timestamp '"[0] == 't' && "hextoraw('"[0] == 'h' && "NULL"[0] == 'N';
  }

  lemma {:induction false} BoolReads(b: bool)
    ensures var s := if b then "1" else "0"; ReadNumber(s) == Some(if b then 1 else 0) && IsDigit(s[0])
  {
  }

  lemma {:induction false} TimestampReads(t: string)
    ensures ReadLiteral("timestamp " + QuoteString(t)) ==
            match ReadQuoted(Doubled(t) + "'")
            case None => None
            case Some(u) => Some(Moment(u))
  {
    hide ReadQuoted, ReadHex, ReadNumber, Doubled;
    var s := "timestamp " + QuoteString(t);
    assert s == "timestamp '" + (Doubled(t) + "'");
    assert s[11..] == Doubled(t) + "'" && s[0] == 't';
  }

  lemma {:induction false} BlobReads(bytes: seq<byte>)
    ensures ReadLiteral("hextoraw('" + Hex(bytes) + "')") == Some(Raw(bytes))
  {
    hide ReadQuoted, ReadHex, ReadNumber, Hex;
    var s := "hextoraw('" + Hex(bytes) + "')";
    HexPlain(bytes);
    QuotedReads(Hex(bytes));
    HexReads(bytes);
    assert s == "hextoraw('" + (Hex(bytes) + "'") + ")";
    assert s[10..|s| - 1] == Hex(bytes) + "'";
    assert s[0] == 'h' && |s| > 11;
  }

  /** Different values have different literals, so long as integers, truth values and real numbers are not mixed. */
  lemma {:induction false} LiteralsDiffer(a: NamedValue, b: NamedValue)
    requires Literal(a).Some? && Literal(a) == Literal(b)
    requires a.value.Int64? == b.value.Int64? && a.value.Bool? == b.value.Bool? && a.value.Float64? == b.value.Float64?
    ensures a.value == b.value
  {
    hide ReadLiteral;
    LiteralMeans(a);
    LiteralMeans(b);
  }

  /** Only a negative integer has a minus, so 0 has none. */
  lemma {:induction false} MinusExact(i: int)
    ensures FormatInt(i) != "" && (FormatInt(i)[0] == '-' <==> i < 0)
  {
    FirstDigit(if i < 0 then -i else i);
  }

  lemma {:induction false} FirstDigit(n: nat)
    ensures DecimalText(n) != "" && DecimalText(n)[0] != '-'
  {
    if n >= 10 {
      FirstDigit(n / 10);
    }
  }

  /** Some literals, character by character. */
  lemma {:induction false} LiteralTexts()
    ensures Literal(NamedValue("", Int64(-12))) == Some("-12")
    ensures Literal(NamedValue("", Text("a'b"))) == Some("'a''b'")
    ensures Literal(NamedValue("", Blob([0x0a, 0xff]))) == Some("hextoraw('0AFF')")
    ensures Literal(NamedValue("", Bool(true))) == Some("1") && Literal(NamedValue("", Nil)) == Some("NULL")
  {
    TwelveText();
    QuoteText();
    assert Hex([0xff]) == "FF" by {
      assert [0xff][1..] == [] && Hex([]) == "";
    }
    assert [0x0a, 0xff][1..] == [0xff] && Hex([0x0a, 0xff]) == "0A" + "FF" == "0AFF";
    assert "hextoraw('" + "0AFF" + "')" == "hextoraw('0AFF')";
  }

  lemma {:induction false} TwelveText()
    ensures FormatInt(-12) == "-12"
  {
    assert DecimalText(1) == "1" && DecimalText(12) == "1" + "2" == "12";
    assert "-" + "12" == "-12";
  }

  lemma {:induction false} QuoteText()
    ensures QuoteString("a'b") == "'a''b'"
  {
    hide Doubled;
    NothingDoubled();
    DoubledFirst('b', "");
    DoubledFirst('\'', "b");
    DoubledFirst('a', "'b");
    assert ['b'] + "" == "b" && ['\''] + "b" == "'b" && ['a'] + "'b" == "a'b";
    assert "'" + "a''b" + "'" == "'a''b'";
  }
}
