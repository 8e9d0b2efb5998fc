/** Text-protocol rows: a NULL marker or a length-encoded string per column. */
module TextRows {
  import opened Bytes
  import opened Lenenc
  import opened Terminators
  import opened OracleTime

  const NullColumn: byte := 0xfb

  datatype Cell = NullCell | Text(bytes: seq<byte>)

  // ---- what a server sends ----

  function EncodeCell(c: Cell): (s: seq<byte>)
    ensures |s| > 0
  {
    match c
    case NullCell => [NullColumn]
    case Text(b) => PutString(b)
  }

  function EncodeRow(cells: seq<Cell>): (s: seq<byte>)
  {
    if cells == [] then [] else EncodeCell(cells[0]) + EncodeRow(cells[1..])
  }

  predicate ValidCells(cells: seq<Cell>) {
    forall i :: 0 <= i < |cells| && cells[i].Text? ==> |cells[i].bytes| < U64
  }

  // ---- what the client reads ----

  datatype CellRead = Read(cell: Cell, consumed: nat) | BadCell(error: Error)

  function ReadCell(s: seq<byte>): (r: CellRead)
    ensures r.Read? ==> 1 <= r.consumed <= |s|
  {
    if s == [] then BadCell(UnexpectedEOF)
    else if s[0] == NullColumn then Read(NullCell, 1)
    else
      match ReadString(s)
      case Str(b, used) => Read(Text(b), used)
      case Null => Read(NullCell, 1)
      case BadStr(e) => BadCell(e)
  }

  /** What a column comes to; text that the driver goes on to read as a number or a time stays the text. */
  datatype Column = NoValue | Raw(bytes: seq<byte>) | Instant(nanos: int)

  /** Oracle timestamps are decoded as the row is parsed. */
  function Convert(c: Cell, typ: byte, loc: Location): (r: Result<Column>) {
    match c
    case NullCell => Ok(NoValue)
    case Text(b) =>
      if !IsOracleTime(typ) then Ok(Raw(b))
      else
        match ParseOracleTime(b, typ, loc.session, loc.date)
        case Err(e) => Err(e)
        case Ok(t) => Ok(Instant(t))
  }

  /** Columns without a type are strings. */
  function TypeAt(types: seq<byte>, i: nat): byte {
    if i < |types| then types[i] else 0xfd
  }

  /** The columns from `i` up to `n`, which must use the packet up. */
  function ParseRow(s: seq<byte>, i: nat, n: nat, types: seq<byte>, loc: Location): (r: Result<seq<Column>>)
    decreases n - i
  {
    if i >= n then if s == [] then Ok([]) else Err(Malformed)
    else
      match ReadCell(s)
      case BadCell(e) => Err(e)
      case Read(c, used) => Cons(Convert(c, TypeAt(types, i), loc), ParseRow(s[used..], i + 1, n, types, loc))
  }

  /** The first error counts. */
  function Cons(c: Result<Column>, r: Result<seq<Column>>): Result<seq<Column>> {
    match c
    case Err(e) => Err(e)
    case Ok(column) =>
      match r
      case Ok(row) => Ok([column] + row)
      case Err(_) => r
  }

  function Append(row: seq<Column>, r: Result<seq<Column>>): Result<seq<Column>> {
    match r
    case Ok(more) => Ok(row + more)
    case Err(_) => r
  }

  lemma {:induction false} AppendCons(row: seq<Column>, c: Column, r: Result<seq<Column>>)
    ensures Append(row, Cons(Ok(c), r)) == Append(row + [c], r)
    ensures Append([], r) == r
  {
    if r.Ok? {
      assert row + ([c] + r.value) == row + [c] + r.value && [] + r.value == r.value;
    }
  }

  /** The row parser: a cursor over the packet, one column per turn, and no byte may be left over. */
  method ParseTextRow(packet: seq<byte>, columnCount: nat, types: seq<byte>, loc: Location)
    returns (r: Result<seq<Column>>)
    ensures r == ParseRow(packet, 0, columnCount, types, loc)
  {
    hide Append, ReadString, ParseOracleTime;
    var row: seq<Column> := [];
    var pos := 0;
    AppendCons([], NoValue, ParseRow(packet, 0, columnCount, types, loc));
    assert packet[0..] == packet;
    for i := 0 to columnCount
      invariant pos <= |packet|
      invariant ParseRow(packet, 0, columnCount, types, loc) ==
                Append(row, ParseRow(packet[pos..], i, columnCount, types, loc))
    {
      AppendErr(row, UnexpectedEOF);
      if pos >= |packet| {
        return Err(UnexpectedEOF);
      }
      var cell, used := NullCell, 1;
      if packet[pos] != NullColumn {
        match ReadString(packet[pos..]) {
          case Str(b, n) => cell, used := Text(b), n;
          case Null => cell, used := NullCell, 1;
          case BadStr(e) => AppendErr(row, e); return Err(e);
        }
      }
      var column := Convert(cell, TypeAt(types, i), loc);
      if column.Err? {
        AppendErr(row, column.error);
        return Err(column.error);
      }
      assert packet[pos..][used..] == packet[pos + used..];
      AppendCons(row, column.value, ParseRow(packet[pos + used..], i + 1, columnCount, types, loc));
      row, pos := row + [column.value], pos + used;
    }
    AppendErr(row, Malformed);
    AppendOk(row);
    return if pos == |packet| then Ok(row) else Err(Malformed);
  }

  lemma {:induction false} AppendErr(row: seq<Column>, e: Error)
    ensures Append(row, Err(e)) == Err(e)
  {
  }

  lemma {:induction false} AppendOk(row: seq<Column>)
    ensures Append(row, Ok([])) == Ok(row)
  {
    assert row + [] == row;
  }

  // ---- reading undoes sending ----

  lemma {:induction false} CellRoundTrip(c: Cell, rest: seq<byte>)
    requires c.Text? ==> |c.bytes| < U64
    ensures ReadCell(EncodeCell(c) + rest) == Read(c, |EncodeCell(c)|)
  {
    hide PutInt, ReadString;
    if c.Text? {
      StringRoundTrip(c.bytes, rest);
      FirstByte(|c.bytes|);
      assert (EncodeCell(c) + rest)[0] == PutInt(|c.bytes|)[0];
    }
  }

  /** The columns that cells come to, or the first error. */
  function Converted(cells: seq<Cell>, i: nat, types: seq<byte>, loc: Location): (r: Result<seq<Column>>)
  {
    if cells == [] then Ok([])
    else Cons(Convert(cells[0], TypeAt(types, i), loc), Converted(cells[1..], i + 1, types, loc))
  }

  lemma {:induction false} ConvertedEach(cells: seq<Cell>, i: nat, types: seq<byte>, loc: Location, row: seq<Column>)
    ensures Converted(cells, i, types, loc) == Ok(row)
            <==> |row| == |cells| && forall k :: 0 <= k < |cells| ==>
                   Convert(cells[k], TypeAt(types, i + k), loc) == Ok(row[k])
  {
    hide Convert;
    if cells != [] && row != [] {
      ConvertedEach(cells[1..], i + 1, types, loc, row[1..]);
      assert row == [row[0]] + row[1..];
    }
  }

  /**
   Parsing what was sent gives each column, NULL distinct from every string, or the first error of a timestamp; it
   uses the whole packet, and bytes left over after the last column make the row invalid.
   */
  lemma {:induction false} RowRoundTrip(cells: seq<Cell>, i: nat, types: seq<byte>, loc: Location, suffix: seq<byte>)
    requires ValidCells(cells)
    ensures ParseRow(EncodeRow(cells) + suffix, i, i + |cells|, types, loc) ==
            match Converted(cells, i, types, loc)
            case Err(e) => Err(e)
            case Ok(row) => if suffix == [] then Ok(row) else Err(Malformed)
    decreases |cells|
  {
    hide EncodeCell, ReadCell, Convert;
    if cells == [] {
      assert EncodeRow(cells) + suffix == suffix;
    } else {
      var head, tail := EncodeCell(cells[0]), EncodeRow(cells[1..]) + suffix;
      assert EncodeRow(cells) + suffix == head + tail;
      CellRoundTrip(cells[0], tail);
      assert (head + tail)[|head|..] == tail;
      RowRoundTrip(cells[1..], i + 1, types, loc, suffix);
    }
  }

  /** The cells of an encoded row, each a string or NULL. */
  lemma {:induction false} Strings(cells: seq<Cell>, i: nat, loc: Location)
    ensures var r := Converted(cells, i, [], loc);
            && r.Ok? && |r.value| == |cells|
            && forall k :: 0 <= k < |cells| ==> r.value[k] == if cells[k].NullCell? then NoValue else Raw(cells[k].bytes)
  {
    hide ParseOracleTime;
    if cells != [] {
      Strings(cells[1..], i + 1, loc);
    }
  }

  /** The bytes of one column: the NULL marker, or a string behind its length in any of the forms. */
  predicate SpellsCell(s: seq<byte>, c: Cell) {
    match c
    case NullCell => s == [0xfb]
    case Text(b) => SpellsString(s, b)
  }

  /** The columns of a row, one behind the other and nothing else. */
  predicate SpellsRow(s: seq<byte>, cells: seq<Cell>) {
    if cells == [] then s == []
    else exists k :: 0 <= k <= |s| && SpellsCell(s[..k], cells[0]) && SpellsRow(s[k..], cells[1..])
  }

  lemma {:induction false} CellExact(s: seq<byte>, k: nat, c: Cell)
    requires k <= |s|
    ensures ReadCell(s) == Read(c, k) <==> SpellsCell(s[..k], c)
  {
    hide ReadString, SpellsString;
    StringExact(s, k, if c.Text? then c.bytes else []);
    if |s| > 0 && s[0] == 0xfb {
      NullMarker(s, k);
    }
  }

  lemma {:induction false} NullMarker(s: seq<byte>, k: nat)
    requires k <= |s| && |s| > 0 && s[0] == 0xfb
    ensures s[..k] == [0xfb] <==> k == 1
    ensures forall t :: !SpellsString(s[..k], t)
  {
    forall t ensures !SpellsString(s[..k], t) {
      NullIsNoString(s[..k], t);
    }
  }

  lemma {:induction false} NullIsNoString(s: seq<byte>, t: seq<byte>)
    requires s == [] || s[0] == 0xfb
    ensures !SpellsString(s, t)
  {
    if |t| < |s| {
      assert s[..|s| - |t|][0] == 0xfb;
    }
  }

  lemma {:induction false} SpelledParses(s: seq<byte>, i: nat, n: nat, types: seq<byte>, loc: Location, row: seq<Column>,
                                         cells: seq<Cell>)
    requires |cells| == n - i && SpellsRow(s, cells) && Converted(cells, i, types, loc) == Ok(row)
    ensures ParseRow(s, i, n, types, loc) == Ok(row)
    decreases |cells|
  {
    hide ReadCell, SpellsCell, Convert;
    if cells != [] {
      var k :| 0 <= k <= |s| && SpellsCell(s[..k], cells[0]) && SpellsRow(s[k..], cells[1..]);
      CellExact(s, k, cells[0]);
      ConsOk(Convert(cells[0], TypeAt(types, i), loc), Converted(cells[1..], i + 1, types, loc), row);
      SpelledParses(s[k..], i + 1, n, types, loc, row[1..], cells[1..]);
    }
  }

  lemma {:induction false} ConsOk(c: Result<Column>, r: Result<seq<Column>>, row: seq<Column>)
    ensures Cons(c, r) == Ok(row) <==> |row| > 0 && c == Ok(row[0]) && r == Ok(row[1..])
  {
    if |row| > 0 {
      assert row == [row[0]] + row[1..];
    }
    if c.Ok? && r.Ok? {
      assert ([c.value] + r.value)[1..] == r.value;
    }
  }

  /** The cells of a packet that parses. */
  lemma {:induction false} ParsedCells(s: seq<byte>, i: nat, n: nat, types: seq<byte>, loc: Location, row: seq<Column>)
    returns (cells: seq<Cell>)
    requires i <= n && ParseRow(s, i, n, types, loc) == Ok(row)
    ensures |cells| == n - i && SpellsRow(s, cells) && Converted(cells, i, types, loc) == Ok(row)
    decreases n - i
  {
    hide ReadCell, SpellsCell, Convert;
    if i == n {
      cells := [];
    } else {
      var cell := ReadCell(s);
      var c := Convert(cell.cell, TypeAt(types, i), loc);
      ConsOk(c, ParseRow(s[cell.consumed..], i + 1, n, types, loc), row);
      var more := ParsedCells(s[cell.consumed..], i + 1, n, types, loc, row[1..]);
      CellExact(s, cell.consumed, cell.cell);
      cells := [cell.cell] + more;
      assert cells[1..] == more;
      ConsOk(c, Converted(more, i + 1, types, loc), row);
    }
  }

  /** A packet is a row exactly when it spells so many columns, and the row is what these convert to. */
  lemma {:induction false} RowExact(s: seq<byte>, i: nat, n: nat, types: seq<byte>, loc: Location, row: seq<Column>)
    requires i <= n
    ensures ParseRow(s, i, n, types, loc) == Ok(row) <==>
            exists cells :: |cells| == n - i && SpellsRow(s, cells) && Converted(cells, i, types, loc) == Ok(row)
  {
    hide ParseRow, SpellsRow, Converted;
    if ParseRow(s, i, n, types, loc) == Ok(row) {
      var _ := ParsedCells(s, i, n, types, loc, row);
    }
    forall cells | |cells| == n - i && SpellsRow(s, cells) && Converted(cells, i, types, loc) == Ok(row)
      ensures ParseRow(s, i, n, types, loc) == Ok(row)
    {
      SpelledParses(s, i, n, types, loc, row, cells);
    }
  }

  /** A column without a type is text. */
  lemma {:induction false} Untyped(types: seq<byte>, i: nat, b: seq<byte>, loc: Location)
    requires i >= |types|
    ensures Convert(Text(b), TypeAt(types, i), loc) == Ok(Raw(b))
  {
    hide ParseOracleTime;
  }

  /** Rows with different cells never look alike on the wire. */
  lemma {:induction false} RowInjective(a: seq<Cell>, b: seq<Cell>)
    requires ValidCells(a) && ValidCells(b) && |a| == |b| && EncodeRow(a) == EncodeRow(b)
    ensures a == b
  {
    hide ParseRow, EncodeRow, Converted;
    var loc := Location(None, (z, w) => w);
    RowRoundTrip(a, 0, [], loc, []);
    RowRoundTrip(b, 0, [], loc, []);
    Strings(a, 0, loc);
    Strings(b, 0, loc);
    assert forall k :: 0 <= k < |a| ==>
        Converted(a, 0, [], loc).value[k] == Converted(b, 0, [], loc).value[k];
  }

  // ---- rows are not terminators ----

  /** A packet that the row loops of the client take for a row. */
  predicate IsRow(packet: seq<byte>, track: bool) {
    !IsErr(packet) && !IsEOF(packet) && !IsResultSetOK(packet, track)
  }

  /** How many bytes an integer takes that begins with this byte. */
  function Used(b: byte): (n: nat)
    ensures 1 <= n <= 9
  {
    if b == 0xfc then 3 else if b == 0xfd then 4 else if b == 0xfe then 9 else 1
  }

  lemma {:induction false} ReadIntLong(s: seq<byte>)
    requires |s| >= 9
    ensures ReadInt(s).Int? <==> s[0] != 0xff
    ensures ReadInt(s).Int? ==> ReadInt(s).consumed == Used(s[0])
  {
    hide Value;
  }

  /**
   After the header byte, two integers can be read, and with session tracking what follows the four status bytes is
   what an OK packet may have there.
   */
  predicate ReadsAsOK(s: seq<byte>, track: bool)
    requires |s| >= 24
  {
    var k := 1 + Used(s[1]);
    var m := k + Used(s[k]);
    s[1] != 0xff && s[k] != 0xff && (track ==> TrackedTail(s[m + 4..], Value(s[m..m + 2])))
  }

  lemma {:induction false} LongOK(s: seq<byte>, track: bool)
    requires |s| >= 32 && s[0] == EOFHeader
    ensures IsResultSetOK(s, track) <==> ReadsAsOK(s, track)
  {
    hide ReadInt, TrackedTail, Value, Used;
    ReadIntLong(s[1..]);
    var k := 1 + Used(s[1]);
    assert s[1..][0] == s[1] && s[k..][0] == s[k];
    ReadIntLong(s[k..]);
    var m := k + Used(s[k]);
    assert s[m..][4..] == s[m + 4..] && s[m..][0..2] == s[m..m + 2];
  }

  predicate LongFirst(cells: seq<Cell>) {
    cells != [] && cells[0].Text? && |cells[0].bytes| >= 0x100_0000
  }

  /**
   No text row is an error or an EOF packet, and one is taken for an OK packet exactly when its first column has 2^24
   bytes or more and its bytes happen to read as one.
   */
  lemma {:induction false} TextRowIsRow(cells: seq<Cell>, track: bool)
    requires cells != [] && ValidCells(cells)
    ensures var s := EncodeRow(cells);
            && !IsErr(s) && !IsEOF(s) && (LongFirst(cells) ==> |s| >= 32)
            && (IsRow(s, track) <==> !(LongFirst(cells) && ReadsAsOK(s, track)))
  {
    hide PutInt, ReadsAsOK, TrackedTail, ReadInt, Value;
    var s := EncodeRow(cells);
    if cells[0].Text? {
      FirstByte(|cells[0].bytes|);
      assert s[0] == PutInt(|cells[0].bytes|)[0];
      assert |s| >= |cells[0].bytes|;
      if LongFirst(cells) {
        LongOK(s, track);
      }
    }
  }

  /** A family that is: without session tracking, when the two low-order bytes of the length are below 0xfb. */
  lemma {:induction false} LongColumnEndsRows(cells: seq<Cell>)
    requires LongFirst(cells) && |cells[0].bytes| < U64
    requires |cells[0].bytes| % 256 < 0xfb && (|cells[0].bytes| / 256) % 256 < 0xfb
    ensures IsResultSetOK(EncodeRow(cells), false)
  {
    hide LittleEndian, Value, TrackedTail, PutInt;
    var n, s := |cells[0].bytes|, EncodeRow(cells);
    LongPrefix(n);
    assert s[..9] == PutInt(n);
    assert s[0] == s[..9][0] && s[1] == s[..9][1] && s[2] == s[..9][2];
    LongOK(s, false);
  }

  /** And one with session tracking: the column is itself the encoding of a string of the right length. */
  lemma {:induction false} TrackedLongColumn(text: seq<byte>)
    requires |text| == 0x100_00f3
    ensures IsResultSetOK(EncodeRow([Text(PutString(text))]), true)
  {
    hide LittleEndian, Value, ReadInt, PutInt, ReadString;
    var bytes := PutString(text);
    LongPrefix(|text|);
    var n := |bytes|;
    assert n == 0x100_00fc;
    var cells := [Text(bytes)];
    assert cells[1..] == [] && EncodeRow([]) == [];
    var s := EncodeRow(cells);
    assert s == EncodeCell(cells[0]) + [] == EncodeCell(cells[0]);
    assert s == PutInt(n) + bytes;
    LongPrefix(n);
    LengthBytes();
    assert s[..9] == PutInt(n) == [0xfe, 0xfc, 0, 0, 1, 0, 0, 0, 0];
    assert forall i :: 0 <= i < 9 ==> s[i] == s[..9][i];
    assert s[9..] == bytes;
    StringRoundTrip(text, []);
    assert bytes + [] == bytes;
    assert s[5..7] == [0, 0];
    ZeroValue();
    LongOK(s, true);
  }

  lemma {:induction false} ZeroValue()
    ensures Value([0, 0]) == 0
  {
    assert [0, 0][1..] == [0] && Value([0]) == 0;
  }

  lemma {:induction false} LengthBytes()
    ensures PutInt(0x100_00fc) == [0xfe, 0xfc, 0, 0, 1, 0, 0, 0, 0]
  {
    assert LittleEndian(0, 2) == [0, 0];
    assert LittleEndian(0, 4) == [0, 0] + LittleEndian(0, 2);
    assert LittleEndian(1, 5) == [1] + LittleEndian(0, 4);
    assert LittleEndian(0x100, 6) == [0] + LittleEndian(1, 5);
    assert LittleEndian(0x1_0000, 7) == [0] + LittleEndian(0x100, 6);
    assert LittleEndian(0x100_00fc, 8) == [0xfc] + LittleEndian(0x1_0000, 7);
  }

  lemma {:induction false} LongPrefix(n: nat)
    requires n >= 0x100_0000
    ensures |PutInt(n)| == 9 && PutInt(n)[0] == 0xfe && PutInt(n)[1] == n % 256 && PutInt(n)[2] == (n / 256) % 256
  {
    assert LittleEndian(n / 256, 7)[0] == (n / 256) % 256;
    assert LittleEndian(n, 8) == [n % 256] + LittleEndian(n / 256, 7);
  }
}
