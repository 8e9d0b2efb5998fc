/**
 Whole runs of a connection: queries, executions, row fetches and closes in any order, each request answered by a
 chain of parts. After every step the connection is retired or stands exactly where its last response puts it.
 */
module ResponseRuns {
  import opened Bytes
  import opened Lenenc
  import opened Terminators
  import opened TextRows
  import opened Responses

  /** Packets received and not yet read, the bad flag, and the terminator kind of the result set being streamed. */
  datatype State = State(stream: Packets, bad: bool, open: Option<bool>)

  const Retired: State := State([], true, None)

  function Idle(stream: Packets, synced: bool): State {
    if synced then State(stream, false, None) else Retired
  }

  // ---- steps of the driver on any stream ----

  /** `synced` tells whether the session time zone could be followed after the server accepted the statement. */
  function AfterQuery(r: QueryRead, synced: bool): State {
    match r
    case Streaming(ok, rest) => if synced then State(rest, false, Some(ok)) else Retired
    case NoRows(rest) => Idle(rest, synced)
    case QueryErr(rest) => State(rest, false, None)
    case QueryBroken => Retired
  }

  function AfterDrain(r: Outcome, synced: bool): State {
    match r
    case Last(rest) => Idle(rest, synced)
    case ServerErr(rest) => State(rest, false, None)
    case _ => Retired
  }

  function AfterNext(r: NextRead, ok: bool): State {
    match r
    case GotRow(_, rest) => State(rest, false, Some(ok))
    case Finished(rest) => State(rest, false, None)
    case NextErr(rest) => State(rest, false, None)
    case NextBroken => Retired
  }

  // ---- runs against a server ----

  datatype Op =
    | Query(chain: seq<Part>, synced: bool)
    | Exec(chain: seq<Part>, synced: bool)
    | Next(decoded: bool)
    | Close

  /** The mutex blocks new requests while a result set is open. */
  predicate Enabled(st: State, op: Op, mode: Mode) {
    match op
    case Query(chain, _) => st.open.None? && ValidChain(chain, mode)
    case Exec(chain, _) => st.open.None? && ValidChain(chain, mode)
    case _ => true
  }

  /** A retired connection sends nothing; a finished result set reads nothing. */
  function Step(st: State, op: Op, mode: Mode): State {
    if st.bad then st
    else
      match op
      case Query(chain, synced) => AfterQuery(ReadQuery(st.stream + ChainWire(chain, mode), mode), synced)
      case Exec(chain, synced) => AfterDrain(DrainRemaining(st.stream + ChainWire(chain, mode), mode), synced)
      case Next(decoded) =>
        if st.open.None? then st else AfterNext(ReadNext(st.stream, st.open.value, decoded, mode), st.open.value)
      case Close => if st.open.None? then st else AfterDrain(DrainOpen(st.stream, st.open.value, mode), true)
  }

  /** What is left of a response while its rows are being streamed. */
  datatype Pending = Pending(rows: Packets, end: End, rest: seq<Part>)

  predicate ValidPending(p: Pending, ok: bool, mode: Mode) {
    && ValidRows(p.rows, mode.track) && ValidEnd(p.end, ok, mode.track)
    && (EndMore(p.end) <==> p.rest != []) && (p.rest != [] ==> ValidChain(p.rest, mode))
  }

  function PendingWire(p: Pending, mode: Mode): (s: Packets)
  {
    RowsWire(p.rows, p.end, mode.track) + ChainWire(p.rest, mode)
  }

  ghost predicate Streams(st: State, p: Pending, mode: Mode) {
    !st.bad && st.open.Some? && ValidPending(p, st.open.value, mode) && st.stream == PendingWire(p, mode)
  }

  /** Retired; or idle with nothing left to read; or streaming with exactly the rest of one response to read. */
  ghost predicate InSync(st: State, mode: Mode) {
    || st == Retired
    || st == State([], false, None)
    || exists p :: Streams(st, p, mode)
  }

  // ---- one step on a server's response ----

  lemma {:induction false} QueryOnChain(chain: seq<Part>, mode: Mode, tail: Packets)
    requires ValidChain(chain, mode)
    ensures ReadQuery(ChainWire(chain, mode) + tail, mode) ==
            if chain[0].SetPart? then
              if |chain[0].columns| > 10000 then QueryBroken
              else Streaming(OKEnds(chain[0], mode),
                             PendingWire(Pending(chain[0].rows, chain[0].end, chain[1..]), mode) + tail)
            else FromOutcome(ChainOutcome(chain, tail))
  {
    hide *;
    assert chain != [] by { ChainHasParts(chain, mode); }
    match chain[0]
    case OKPart(_) => QueryOnOK(chain, mode, tail);
    case ErrPart(_) => QueryOnErr(chain, mode, tail);
    case SetPart(_, _, _, _) => QueryOnSet(chain, mode, tail);
  }

  lemma {:induction false} ChainHasParts(chain: seq<Part>, mode: Mode)
    requires ValidChain(chain, mode)
    ensures chain != []
  {
  }

  lemma {:induction false} QueryOnErr(chain: seq<Part>, mode: Mode, tail: Packets)
    requires ValidChain(chain, mode) && chain[0].ErrPart?
    ensures ReadQuery(ChainWire(chain, mode) + tail, mode) == FromOutcome(ChainOutcome(chain, tail))
  {
    hide ChainWire, ChainOutcome, ReadColumns;
    ErrChainOutcome(chain, mode, tail);
    ErrWire(chain, mode);
    assert ([chain[0].err] + tail)[1..] == tail;
  }

  lemma {:induction false} ErrWire(chain: seq<Part>, mode: Mode)
    requires |chain| == 1 && chain[0].ErrPart?
    ensures ChainWire(chain, mode) == [chain[0].err]
  {
    assert chain[1..] == [];
  }

  lemma {:induction false} QueryOnSet(chain: seq<Part>, mode: Mode, tail: Packets)
    requires ValidChain(chain, mode) && chain[0].SetPart?
    ensures ReadQuery(ChainWire(chain, mode) + tail, mode) ==
            if |chain[0].columns| > 10000 then QueryBroken
            else Streaming(OKEnds(chain[0], mode),
                           PendingWire(Pending(chain[0].rows, chain[0].end, chain[1..]), mode) + tail)
  {
    hide ReadColumns, ChainWire, LaterPackets, OKEnds, PendingWire, ValidPart, ReadInt;
    var p, more := chain[0], ChainWire(chain[1..], mode) + tail;
    var s := ChainWire(chain, mode) + tail;
    ChainWireSplit(chain, mode);
    assert s[0] == FirstPacket(p, mode) && s[1..] == LaterPackets(p, mode) + more;
    CountOfSet(p, mode);
    ColumnsOnSet(p, mode, more);
    RestOfSet(chain, mode, tail);
  }

  lemma {:induction false} CountOfSet(p: Part, mode: Mode)
    requires p.SetPart? && ValidPart(p, mode)
    ensures var s := FirstPacket(p, mode); |s| > 0 && s[0] != OKHeader && s[0] != ErrHeader
  {
    hide ReadInt, PutInt;
    CountRead(|p.columns|);
  }

  lemma {:induction false} RestOfSet(chain: seq<Part>, mode: Mode, tail: Packets)
    requires chain != [] && chain[0].SetPart?
    ensures PendingWire(Pending(chain[0].rows, chain[0].end, chain[1..]), mode) + tail ==
            RowsWire(chain[0].rows, chain[0].end, mode.track) + (ChainWire(chain[1..], mode) + tail)
  {
    hide RowsWire, ChainWire;
  }

  lemma {:induction false} ErrChainOutcome(chain: seq<Part>, mode: Mode, tail: Packets)
    requires ValidChain(chain, mode) && chain[0].ErrPart?
    ensures |chain| == 1 && ValidErr(chain[0].err) && ChainOutcome(chain, tail) == ServerErr(tail)
  {
  }

  lemma {:induction false} QueryOnOK(chain: seq<Part>, mode: Mode, tail: Packets)
    requires ValidChain(chain, mode) && chain[0].OKPart?
    ensures ReadQuery(ChainWire(chain, mode) + tail, mode) == FromOutcome(ChainOutcome(chain, tail))
  {
    hide DrainRemaining, ReadColumns, HandleOK, OKBytes, ValidOK, MoreResults, ChainWire, ChainOutcome;
    var ok, more := chain[0].ok, ChainWire(chain[1..], mode) + tail;
    var s := ChainWire(chain, mode) + tail;
    ChainWireSplit(chain, mode);
    assert s[0] == FirstPacket(chain[0], mode) && s[1..] == more;
    OKRecognised(OKHeader, ok, mode.track);
    OKFirstByte(OKHeader, ok, mode.track);
    OKPartOutcome(chain, tail);
    if |chain| > 1 {
      ChainDrains(chain[1..], mode, tail);
    } else {
      ChainWireEmpty(mode);
      assert more == tail;
    }
  }

  lemma {:induction false} ChainWireSplit(ps: seq<Part>, mode: Mode)
    requires ps != []
    ensures ChainWire(ps, mode) ==
            [FirstPacket(ps[0], mode)] + LaterPackets(ps[0], mode) + ChainWire(ps[1..], mode)
  {
  }

  lemma {:induction false} ChainWireEmpty(mode: Mode)
    ensures ChainWire([], mode) == []
  {
  }

  lemma {:induction false} OKPartOutcome(chain: seq<Part>, tail: Packets)
    requires chain != [] && chain[0].OKPart?
    ensures ChainOutcome(chain, tail) == if |chain| == 1 then Last(tail) else ChainOutcome(chain[1..], tail)
  {
    assert chain == [chain[0]] + chain[1..];
    if |chain| > 1 {
      assert chain[1..][|chain| - 2] == chain[|chain| - 1];
      assert AllSmall(chain) <==> AllSmall(chain[1..]);
    }
  }

  lemma {:induction false} ColumnsOnSet(p: Part, mode: Mode, more: Packets)
    requires p.SetPart? && ValidPart(p, mode)
    ensures ReadColumns(FirstPacket(p, mode), LaterPackets(p, mode) + more, mode) ==
            if |p.columns| > 10000 then QueryBroken
            else Streaming(OKEnds(p, mode), RowsWire(p.rows, p.end, mode.track) + more)
  {
    hide ReadInt, PutInt, RowsWire, ReadMeta, MetaWire, IsColumnDefinition, ValidRows, ValidEnd, ValidTerm, OKEnds;
    var n, s := |p.columns|, LaterPackets(p, mode) + more;
    CountRead(n);
    assert s[n..] == MetaWire(p, mode) + (RowsWire(p.rows, p.end, mode.track) + more);
    assert forall i :: 0 <= i < n ==> s[i] == p.columns[i];
    MetaOfPart(p, mode, RowsWire(p.rows, p.end, mode.track) + more);
  }

  lemma {:induction false} ErrIsNoTerminator(packet: seq<byte>, track: bool)
    requires IsErr(packet)
    ensures !IsEOF(packet) && !IsResultSetOK(packet, track)
  {
  }

  /** The end of the rows is an error, or ends them and tells whether the response goes on. */
  lemma {:induction false} EndRead(end: End, ok: bool, track: bool)
    requires ValidEnd(end, ok, track)
    ensures var p := EndBytes(end, track);
            && (EndsRows(p, ok, track) <==> end.Complete?)
            && (end.Complete? ==> (HasMoreResults(p, track) <==> EndMore(end)))
            && (end.Failed? ==> IsErr(p) && |p| >= 3)
  {
    hide IsResultSetOK, IsEOF, HasMoreResults, MoreResults, TermBytes, ValidTerm;
    match end {
      case Complete(t) => TermEnds(t, track);
      case Failed(err) => ErrIsNoTerminator(err, track);
    }
  }

  lemma {:induction false} NextOnPending(p: Pending, ok: bool, decoded: bool, mode: Mode, tail: Packets)
    requires ValidPending(p, ok, mode)
    ensures ReadNext(PendingWire(p, mode) + tail, ok, decoded, mode) ==
            if p.rows != [] then
              if decoded then GotRow(p.rows[0], PendingWire(p.(rows := p.rows[1..]), mode) + tail) else NextBroken
            else if p.end.Failed? then NextErr(tail)
            else if p.rest == [] then Finished(tail)
            else FromDrain(ChainOutcome(p.rest, tail))
  {
    hide DrainRemaining, IsResultSetOK, IsEOF, HasMoreResults, EndMore, EndBytes, ChainWire, ValidEnd, ChainOutcome;
    var s := PendingWire(p, mode) + tail;
    FailedHasNoRest(p, ok, mode);
    if p.rows != [] {
      assert s[0] == p.rows[0] && IsRow(p.rows[0], mode.track);
      assert s[1..] == PendingWire(p.(rows := p.rows[1..]), mode) + tail;
    } else {
      assert s[0] == EndBytes(p.end, mode.track) && s[1..] == ChainWire(p.rest, mode) + tail;
      EndRead(p.end, ok, mode.track);
      if p.rest != [] {
        ChainDrains(p.rest, mode, tail);
      } else {
        ChainWireEmpty(mode);
        assert s[1..] == tail;
      }
    }
  }

  lemma {:induction false} CloseOnPending(p: Pending, ok: bool, mode: Mode, tail: Packets)
    requires ValidPending(p, ok, mode)
    ensures DrainOpen(PendingWire(p, mode) + tail, ok, mode) ==
            if |p.rows| >= 10000 then Broken
            else if p.end.Failed? then ServerErr(tail)
            else if p.rest == [] then Last(tail)
            else ChainOutcome(p.rest, tail)
  {
    hide DrainRemaining, DrainRows, RowsWire, ChainWire, ChainOutcome, ValidRows, ValidEnd, ValidChain;
    var more := ChainWire(p.rest, mode) + tail;
    assert PendingWire(p, mode) + tail == RowsWire(p.rows, p.end, mode.track) + more;
    RowsDrain(p.rows, p.end, ok, mode.track, more, MaxDrainRows);
    if p.rest != [] {
      ChainDrains(p.rest, mode, tail);
    } else {
      ChainWireEmpty(mode);
      assert more == tail;
    }
  }

  /** Wherever an ERR packet stands, it is the server's error if it has room for a number, and else breaks the stream. */
  lemma {:induction false} ErrAnywhere(err: seq<byte>, s: Packets, ok: bool, decoded: bool, mode: Mode)
    requires IsErr(err)
    ensures var fault := if |err| >= 3 then ServerErr(s) else Broken;
            && DrainRemaining([err] + s, mode) == DrainOpen([err] + s, ok, mode) == fault
            && ReadQuery([err] + s, mode) == FromOutcome(fault)
            && ReadNext([err] + s, ok, decoded, mode) == FromDrain(fault)
            && (!mode.deprecateEOF ==> DrainMeta(ReadMeta([err] + s, mode), mode.track) == fault)
  {
    ErrIsNoTerminator(err, mode.track);
    hide IsResultSetOK, IsEOF, HandleOK, DrainSet, ReadColumns, HasMoreResults;
    assert ([err] + s)[0] == err && ([err] + s)[1..] == s;
  }

  /** A definition that does not parse breaks the head of a query. */
  lemma {:induction false} MalformedColumn(columns: Packets, i: nat, more: Packets, mode: Mode)
    requires i < |columns| < U64 && ParseColumn(columns[i]).None?
    ensures ReadQuery([Lenenc.PutInt(|columns|)] + (columns + more), mode) == QueryBroken
  {
    hide ParseColumn, ReadMeta, Lenenc.ReadInt, Lenenc.PutInt, HandleOK;
    CountRead(|columns|);
    var s := [Lenenc.PutInt(|columns|)] + (columns + more);
    assert s[1..] == columns + more && (columns + more)[i] == columns[i];
    assert !IsColumnDefinition((columns + more)[i]);
  }

  // ---- every step, exactly ----

  /** When a request retires a usable idle connection. */
  predicate RequestRetires(op: Op)
    requires (op.Query? || op.Exec?) && op.chain != []
  {
    if op.Query? && op.chain[0].SetPart? then |op.chain[0].columns| > 10000 || !op.synced
    else !AllSmall(op.chain) || (!op.synced && !PartFails(op.chain[|op.chain| - 1]))
  }

  /** From an idle connection: retired exactly when RequestRetires, otherwise idle again or streaming this response. */
  lemma {:induction false} RequestStep(op: Op, mode: Mode)
    requires (op.Query? || op.Exec?) && ValidChain(op.chain, mode)
    ensures var st := Step(State([], false, None), op, mode);
            if RequestRetires(op) then st == Retired
            else if op.Query? && op.chain[0].SetPart? then
              Streams(st, Pending(op.chain[0].rows, op.chain[0].end, op.chain[1..]), mode)
            else st == State([], false, None)
  {
    hide ReadQuery, DrainRemaining, AllSmall, PartFails, ChainWire, ValidPart, PartMore, OKEnds, RowsWire;
    var wire := ChainWire(op.chain, mode);
    assert [] + wire == wire && wire + [] == wire;
    if op.Query? {
      QueryOnChain(op.chain, mode, []);
      if op.chain[0].SetPart? {
        var p := Pending(op.chain[0].rows, op.chain[0].end, op.chain[1..]);
        SetPartPending(op.chain, mode);
        assert PendingWire(p, mode) + [] == PendingWire(p, mode);
      }
    } else {
      ChainDrains(op.chain, mode, []);
    }
  }

  lemma {:induction false} SetPartPending(chain: seq<Part>, mode: Mode)
    requires ValidChain(chain, mode) && chain[0].SetPart?
    ensures ValidPending(Pending(chain[0].rows, chain[0].end, chain[1..]), OKEnds(chain[0], mode), mode)
  {
    hide ValidRows, ValidEnd, ValidTerm, OKEnds, IsColumnDefinition, MoreResults;
  }

  /** When fetching or closing retires a connection with this much of the response left. */
  predicate CursorRetires(p: Pending, op: Op)
    requires op.Next? || op.Close?
  {
    if op.Close? then |p.rows| >= 10000 || !AllSmall(p.rest)
    else if p.rows != [] then !op.decoded
    else !AllSmall(p.rest)
  }

  /** From a streaming connection: retired exactly when CursorRetires, otherwise one row further or idle. */
  lemma {:induction false} CursorStep(st: State, p: Pending, op: Op, mode: Mode)
    requires Streams(st, p, mode) && (op.Next? || op.Close?)
    ensures var next := Step(st, op, mode);
            if CursorRetires(p, op) then next == Retired
            else if op.Next? && p.rows != [] then Streams(next, p.(rows := p.rows[1..]), mode)
            else next == State([], false, None)
  {
    hide ReadNext, DrainOpen, RowsWire, ChainWire, ValidEnd, ValidChain, EndMore, Small, PartFails;
    assert st.stream + [] == st.stream;
    FailedHasNoRest(p, st.open.value, mode);
    if op.Next? {
      NextOnPending(p, st.open.value, op.decoded, mode, []);
      if p.rows != [] {
        var q := p.(rows := p.rows[1..]);
        assert PendingWire(q, mode) + [] == PendingWire(q, mode);
      }
    } else {
      CloseOnPending(p, st.open.value, mode, []);
    }
  }

  lemma {:induction false} FailedHasNoRest(p: Pending, ok: bool, mode: Mode)
    requires ValidPending(p, ok, mode)
    ensures p.end.Failed? ==> p.rest == []
  {
    hide ValidRows, ValidEnd, ValidChain, MoreResults;
  }

  // ---- every run ----

  lemma {:induction false} StepInSync(st: State, op: Op, mode: Mode)
    requires InSync(st, mode) && Enabled(st, op, mode)
    ensures InSync(Step(st, op, mode), mode)
  {
    hide Streams, ValidChain;
    if !st.bad {
      if op.Query? || op.Exec? {
        IdleIsEmpty(st, mode);
        NonEmptyChain(op.chain, mode);
        RequestStep(op, mode);
      } else if st.open.Some? {
        OpenStreams(st, mode);
        var p :| Streams(st, p, mode);
        CursorStep(st, p, op, mode);
      }
    }
  }

  lemma {:induction false} IdleIsEmpty(st: State, mode: Mode)
    requires InSync(st, mode) && !st.bad && st.open.None?
    ensures st == State([], false, None)
  {
  }

  lemma {:induction false} NonEmptyChain(chain: seq<Part>, mode: Mode)
    requires ValidChain(chain, mode)
    ensures chain != []
  {
  }

  lemma {:induction false} OpenStreams(st: State, mode: Mode)
    requires InSync(st, mode) && st.open.Some?
    ensures exists p :: Streams(st, p, mode)
  {
  }

  predicate EnabledRun(st: State, ops: seq<Op>, mode: Mode)
    decreases |ops|
  {
    ops != [] ==> Enabled(st, ops[0], mode) && EnabledRun(Step(st, ops[0], mode), ops[1..], mode)
  }

  function Run(st: State, ops: seq<Op>, mode: Mode): State
    decreases |ops|
  {
    if ops == [] then st else Run(Step(st, ops[0], mode), ops[1..], mode)
  }

  /** Bad or exactly in sync, after any run. */
  lemma {:induction false} RunInSync(st: State, ops: seq<Op>, mode: Mode)
    requires InSync(st, mode) && EnabledRun(st, ops, mode)
    ensures InSync(Run(st, ops, mode), mode)
    decreases |ops|
  {
    hide InSync, Step, Enabled;
    if ops != [] {
      StepInSync(st, ops[0], mode);
      RunInSync(Step(st, ops[0], mode), ops[1..], mode);
    }
  }

  /** Operations that never retire a connection: replies within the drain limits, zones and rows that can be read. */
  predicate Harmless(op: Op) {
    match op
    case Query(chain, synced) => AllSmall(chain) && synced
    case Exec(chain, synced) => AllSmall(chain) && synced
    case Next(decoded) => decoded
    case Close => true
  }

  /** Usable, and whatever is still to be read is within the drain limits. */
  ghost predicate Comfortable(st: State, mode: Mode) {
    || st == State([], false, None)
    || exists p :: Streams(st, p, mode) && |p.rows| < 10000 && AllSmall(p.rest)
  }

  lemma {:induction false} StepComfortable(st: State, op: Op, mode: Mode)
    requires Comfortable(st, mode) && Enabled(st, op, mode) && Harmless(op)
    ensures Comfortable(Step(st, op, mode), mode)
  {
    hide Streams, ValidChain, PartFails;
    if op.Query? || op.Exec? {
      ComfortableIdle(st, mode);
      NonEmptyChain(op.chain, mode);
      assert Small(op.chain[0]);
      assert AllSmall(op.chain[1..]);
      RequestStep(op, mode);
    } else if st.open.Some? {
      var p :| Streams(st, p, mode) && |p.rows| < 10000 && AllSmall(p.rest);
      CursorStep(st, p, op, mode);
    }
  }

  lemma {:induction false} ComfortableIdle(st: State, mode: Mode)
    requires Comfortable(st, mode) && st.open.None?
    ensures st == State([], false, None)
  {
  }

  /** Conversely a run of harmless operations never retires the connection: it is bad only for a reason. */
  lemma {:induction false} HarmlessRun(st: State, ops: seq<Op>, mode: Mode)
    requires Comfortable(st, mode) && EnabledRun(st, ops, mode)
    requires forall i :: 0 <= i < |ops| ==> Harmless(ops[i])
    ensures !Run(st, ops, mode).bad
    decreases |ops|
  {
    hide Comfortable, Step, Enabled, Harmless;
    if ops != [] {
      StepComfortable(st, ops[0], mode);
      HarmlessRun(Step(st, ops[0], mode), ops[1..], mode);
    } else {
      ComfortableUsable(st, mode);
    }
  }

  lemma {:induction false} ComfortableUsable(st: State, mode: Mode)
    requires Comfortable(st, mode)
    ensures !st.bad
  {
  }

  // ---- what is delivered ----

  /** The row that one operation delivers, if any. */
  function Given(st: State, op: Op, mode: Mode): (rows: Packets) {
    if st.bad || !op.Next? || st.open.None? then []
    else
      match ReadNext(st.stream, st.open.value, op.decoded, mode)
      case GotRow(row, _) => [row]
      case _ => []
  }

  /** The rows that a run delivers, in order. */
  function Delivered(st: State, ops: seq<Op>, mode: Mode): (rows: Packets)
    decreases |ops|
  {
    if ops == [] then [] else Given(st, ops[0], mode) + Delivered(Step(st, ops[0], mode), ops[1..], mode)
  }

  /** So many fetches of rows that can be decoded. */
  function Fetches(n: nat): (ops: seq<Op>)
    ensures |ops| == n
  {
    seq(n, i => Next(true))
  }

  /** Fetching delivers the rows that the server sent, in their order, each once, until there are no more. */
  lemma {:induction false} FetchesDeliver(st: State, p: Pending, n: nat, mode: Mode)
    requires Streams(st, p, mode) && n <= |p.rows|
    ensures Delivered(st, Fetches(n), mode) == p.rows[..n]
    ensures Streams(Run(st, Fetches(n), mode), p.(rows := p.rows[n..]), mode)
    decreases n
  {
    hide Streams, PendingWire;
    if n == 0 {
      assert p.rows[0..] == p.rows;
    } else {
      var ops, q := Fetches(n), p.(rows := p.rows[1..]);
      assert ops[0] == Next(true) && ops[1..] == Fetches(n - 1);
      CursorStep(st, p, ops[0], mode);
      RowGiven(st, p, mode);
      FetchesDeliver(Step(st, ops[0], mode), q, n - 1, mode);
      assert p.rows[..n] == [p.rows[0]] + q.rows[..n - 1];
      assert q.rows[n - 1..] == p.rows[n..];
    }
  }

  lemma {:induction false} RowGiven(st: State, p: Pending, mode: Mode)
    requires Streams(st, p, mode) && p.rows != []
    ensures Given(st, Next(true), mode) == [p.rows[0]]
  {
    hide ReadNext, ValidPending, PendingWire;
    NextOnPending(p, st.open.value, true, mode, []);
    assert st.stream + [] == st.stream;
  }

  /**
   The fetch after the last row reports the end exactly when the rows were complete and all that follows is within the
   limits and without an error; otherwise it reports the server's error, or the connection is of no more use.
   */
  lemma {:induction false} FetchAfterRows(st: State, p: Pending, mode: Mode)
    requires Streams(st, p, mode) && p.rows == []
    ensures var r := ReadNext(st.stream, st.open.value, true, mode);
            && (r.Finished? <==> p.end.Complete? && AllSmall(p.rest)
                                 && forall i :: 0 <= i < |p.rest| ==> !PartFails(p.rest[i]))
            && (r.NextBroken? <==> !AllSmall(p.rest))
            && !r.GotRow?
  {
    hide ReadNext, PendingWire, ValidRows, ValidEnd, Small;
    NextOnPending(p, st.open.value, true, mode, []);
    assert st.stream + [] == st.stream;
    FailedHasNoRest(p, st.open.value, mode);
    if p.rest != [] {
      OnlyLastFails(p.rest, mode);
    }
  }

  lemma {:induction false} OnlyLastFails(chain: seq<Part>, mode: Mode)
    requires ValidChain(chain, mode)
    ensures forall i :: 0 <= i < |chain| - 1 ==> !PartFails(chain[i])
    decreases |chain|
  {
    hide ValidPart, PartFails;
    NotLast(chain[0]);
    if |chain| > 1 {
      OnlyLastFails(chain[1..], mode);
      assert forall i :: 0 < i < |chain| - 1 ==> chain[i] == chain[1..][i - 1];
    }
  }
}
