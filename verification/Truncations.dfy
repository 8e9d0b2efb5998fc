/** Readers look at nothing behind what they consume, so a response that is cut short retires the connection. */
module Truncations {
  import opened Bytes
  import opened Terminators
  import opened TextRows
  import opened Responses
  import opened ResponseRuns

  /** The outcome when more packets stand behind. */
  function Behind(r: Outcome, u: Packets): Outcome {
    match r
    case More(rest) => More(rest + u)
    case Last(rest) => Last(rest + u)
    case ServerErr(rest) => ServerErr(rest + u)
    case Broken => Broken
  }

  /** A draining reader that comes to an end does so without the packets behind. */
  predicate Local(r: Outcome, longer: Outcome, u: Packets) {
    !r.Broken? ==> longer == Behind(r, u)
  }

  lemma {:induction false} TailFirst(s: Packets, u: Packets)
    requires s != []
    ensures (s + u)[0] == s[0] && (s + u)[1..] == s[1..] + u
  {
  }

  lemma {:induction false} RowsLocal(s: Packets, u: Packets, ok: bool, track: bool, budget: nat)
    ensures Local(DrainRows(s, ok, track, budget), DrainRows(s + u, ok, track, budget), u)
    decreases budget
  {
    hide EndsRows, HasMoreResults, IsErr;
    if budget != 0 && s != [] {
      TailFirst(s, u);
      RowsLocal(s[1..], u, ok, track, budget - 1);
    }
  }

  lemma {:induction false} MetaLocal(s: Packets, u: Packets, mode: Mode)
    ensures match ReadMeta(s, mode)
            case Kind(ok, rest) => ReadMeta(s + u, mode) == Kind(ok, rest + u)
            case MetaErr(rest) => ReadMeta(s + u, mode) == MetaErr(rest + u)
            case MetaBroken => true
  {
    hide IsErr, IsTerminator, IsResultSetOK;
    if s != [] {
      TailFirst(s, u);
    }
  }

  lemma {:induction false} PartLocal(first: seq<byte>, s: Packets, u: Packets, mode: Mode)
    ensures Local(DrainPart(first, s, mode), DrainPart(first, s + u, mode), u)
  {
    hide HandleOK, MoreResults, DrainRows, ReadMeta, Lenenc.ReadInt;
    match Lenenc.ReadInt(first)
    case BadInt(_) =>
    case Int(n, _, _) =>
      if n <= |s| {
        assert (s + u)[n..] == s[n..] + u;
        MetaLocal(s[n..], u, mode);
        match ReadMeta(s[n..], mode) {
          case Kind(ok, rest) => RowsLocal(rest, u, ok, mode.track, MaxDrainRows);
          case _ =>
        }
      }
  }

  lemma {:induction false} ChainLocal(first: seq<byte>, s: Packets, u: Packets, mode: Mode)
    ensures Local(DrainChain(first, s, mode), DrainChain(first, s + u, mode), u)
    decreases |s|
  {
    hide DrainPart;
    PartLocal(first, s, u, mode);
    match DrainPart(first, s, mode)
    case More(rest) =>
      if rest != [] {
        TailFirst(rest, u);
        ChainLocal(rest[0], rest[1..], u, mode);
      }
    case _ =>
  }

  lemma {:induction false} RemainingLocal(s: Packets, u: Packets, mode: Mode)
    ensures Local(DrainRemaining(s, mode), DrainRemaining(s + u, mode), u)
  {
    hide DrainChain;
    if s != [] {
      TailFirst(s, u);
      ChainLocal(s[0], s[1..], u, mode);
    }
  }

  lemma {:induction false} OpenLocal(s: Packets, u: Packets, ok: bool, mode: Mode)
    ensures Local(DrainOpen(s, ok, mode), DrainOpen(s + u, ok, mode), u)
  {
    hide DrainRows, DrainRemaining;
    RowsLocal(s, u, ok, mode.track, MaxDrainRows);
    match DrainRows(s, ok, mode.track, MaxDrainRows)
    case More(rest) => RemainingLocal(rest, u, mode);
    case _ =>
  }

  lemma {:induction false} NotBehind(r: Outcome, u: Packets)
    requires u != []
    ensures Behind(r, u) != Last([]) && Behind(r, u) != ServerErr([])
  {
    NeverEmpty(u);
  }

  /** Draining a response of which only the first packets arrive fails, wherever it is cut. */
  lemma {:induction false} CutResponse(chain: seq<Part>, mode: Mode, k: nat)
    requires ValidChain(chain, mode) && k < |ChainWire(chain, mode)|
    ensures DrainRemaining(ChainWire(chain, mode)[..k], mode) == Broken
  {
    hide DrainRemaining, ChainWire, ValidChain, ChainOutcome;
    var wire := ChainWire(chain, mode);
    var s, u := wire[..k], wire[k..];
    assert s + u == wire && wire + [] == wire;
    RemainingLocal(s, u, mode);
    NonEmptyChain(chain, mode);
    ChainDrains(chain, mode, []);
    DrainsToEnd(chain);
    NoMore(s, mode);
    NotBehind(DrainRemaining(s, mode), u);
  }

  lemma {:induction false} NoMore(s: Packets, mode: Mode)
    ensures !DrainRemaining(s, mode).More?
  {
  }

  lemma {:induction false} DrainsToEnd(chain: seq<Part>)
    requires chain != []
    ensures ChainOutcome(chain, []) in {Last([]), ServerErr([]), Broken}
  {
  }

  /** So does closing rows of which not everything arrives. */
  lemma {:induction false} CutRows(p: Pending, ok: bool, mode: Mode, k: nat)
    requires ValidPending(p, ok, mode) && k < |PendingWire(p, mode)|
    ensures DrainOpen(PendingWire(p, mode)[..k], ok, mode) == Broken
  {
    hide DrainOpen, PendingWire, ValidPending;
    var wire := PendingWire(p, mode);
    var s, u := wire[..k], wire[k..];
    assert s + u == wire && wire + [] == wire;
    OpenLocal(s, u, ok, mode);
    OpenToEnd(p, ok, mode);
    OpenNoMore(s, ok, mode);
    NotBehind(DrainOpen(s, ok, mode), u);
  }

  lemma {:induction false} OpenNoMore(s: Packets, ok: bool, mode: Mode)
    ensures !DrainOpen(s, ok, mode).More?
  {
  }

  lemma {:induction false} OpenToEnd(p: Pending, ok: bool, mode: Mode)
    requires ValidPending(p, ok, mode)
    ensures DrainOpen(PendingWire(p, mode) + [], ok, mode) in {Last([]), ServerErr([]), Broken}
  {
    hide DrainOpen, PendingWire, ChainOutcome, ValidPending;
    CloseOnPending(p, ok, mode, []);
    if p.rest != [] {
      DrainsToEnd(p.rest);
    }
  }

  /** The head of a query when more packets stand behind. */
  predicate QueryLocal(r: QueryRead, longer: QueryRead, u: Packets) {
    match r
    case Streaming(ok, rest) => longer == Streaming(ok, rest + u)
    case NoRows(rest) => longer == NoRows(rest + u)
    case QueryErr(rest) => longer == QueryErr(rest + u)
    case QueryBroken => true
  }

  lemma {:induction false} OutcomeLocal(r: Outcome, longer: Outcome, u: Packets)
    requires Local(r, longer, u) && !r.More? && !longer.More?
    ensures QueryLocal(FromOutcome(r), FromOutcome(longer), u)
  {
  }

  lemma {:induction false} HeadLocal(s: Packets, u: Packets, mode: Mode)
    ensures QueryLocal(ReadQuery(s, mode), ReadQuery(s + u, mode), u)
  {
    hide DrainRemaining, HandleOK, MoreResults, ReadColumns;
    if s != [] {
      TailFirst(s, u);
      NoMore(s[1..], mode);
      NoMore(s[1..] + u, mode);
      RemainingLocal(s[1..], u, mode);
      ColumnsLocal(s[0], s[1..], u, mode);
      OutcomeLocal(DrainRemaining(s[1..], mode), DrainRemaining(s[1..] + u, mode), u);
      OutcomeLocal(ErrOutcome(s[0], s[1..]), ErrOutcome(s[0], s[1..] + u), u);
    }
  }

  lemma {:induction false} ColumnsLocal(first: seq<byte>, s: Packets, u: Packets, mode: Mode)
    ensures QueryLocal(ReadColumns(first, s, mode), ReadColumns(first, s + u, mode), u)
  {
    hide ReadMeta, Lenenc.ReadInt, IsColumnDefinition;
    match Lenenc.ReadInt(first)
    case BadInt(_) =>
    case Int(n, _, _) =>
      if n <= |s| {
        assert (s + u)[n..] == s[n..] + u;
        assert forall i :: 0 <= i < n ==> (s + u)[i] == s[i];
        MetaLocal(s[n..], u, mode);
      }
  }

  /**
   A query of whose answer only the first packets arrive fails, or hands out rows, and then what is there of the rows
   and what follows them is cut short.
   */
  lemma {:induction false} CutQuery(chain: seq<Part>, mode: Mode, k: nat)
    requires ValidChain(chain, mode) && chain != [] && k < |ChainWire(chain, mode)|
    ensures var r := ReadQuery(ChainWire(chain, mode)[..k], mode);
            || r == QueryBroken
            || (&& chain[0].SetPart? && r.Streaming? && r.ok == OKEnds(chain[0], mode)
                && var wire := PendingWire(Pending(chain[0].rows, chain[0].end, chain[1..]), mode);
                   |r.rest| < |wire| && r.rest == wire[..|r.rest|])
  {
    hide ReadQuery, ChainWire, ValidChain, ChainOutcome, PendingWire, OKEnds;
    var wire := ChainWire(chain, mode);
    var s, u := wire[..k], wire[k..];
    assert s + u == wire && wire + [] == wire;
    HeadLocal(s, u, mode);
    QueryOnChain(chain, mode, []);
    if chain[0].SetPart? {
      var pending := PendingWire(Pending(chain[0].rows, chain[0].end, chain[1..]), mode);
      assert pending + [] == pending;
      if ReadQuery(s, mode).Streaming? {
        RestIsPrefix(ReadQuery(s, mode), u, pending);
      }
    } else {
      DrainsToEnd(chain);
      HeadNotBehind(ReadQuery(s, mode), ReadQuery(wire, mode), u);
    }
  }

  lemma {:induction false} RestIsPrefix(r: QueryRead, u: Packets, pending: Packets)
    requires r.Streaming? && u != [] && r.rest + u == pending
    ensures |r.rest| < |pending| && r.rest == pending[..|r.rest|]
  {
  }

  lemma {:induction false} HeadNotBehind(r: QueryRead, longer: QueryRead, u: Packets)
    requires u != [] && QueryLocal(r, longer, u) && longer in {NoRows([]), QueryErr([]), QueryBroken}
    ensures r == QueryBroken
  {
    NeverEmpty(u);
  }

  lemma {:induction false} NeverEmpty(u: Packets)
    requires u != []
    ensures forall s: Packets :: s + u != []
  {
    forall s: Packets ensures s + u != [] {
      assert |s + u| > 0;
    }
  }

  predicate FetchLocal(r: NextRead, longer: NextRead, u: Packets) {
    match r
    case GotRow(row, rest) => longer == GotRow(row, rest + u)
    case Finished(rest) => longer == Finished(rest + u)
    case NextErr(rest) => longer == NextErr(rest + u)
    case NextBroken => true
  }

  lemma {:induction false} NextLocal(s: Packets, u: Packets, ok: bool, mode: Mode)
    ensures FetchLocal(ReadNext(s, ok, true, mode), ReadNext(s + u, ok, true, mode), u)
    ensures s != [] && ReadNext(s + u, ok, true, mode).GotRow? ==> ReadNext(s, ok, true, mode).GotRow?
  {
    hide EndsRows, HasMoreResults, IsErr, DrainRemaining;
    if s != [] {
      TailFirst(s, u);
      RemainingLocal(s[1..], u, mode);
      NoMore(s[1..], mode);
      NoMore(s[1..] + u, mode);
    }
  }

  lemma {:induction false} FetchNotBehind(r: NextRead, longer: NextRead, u: Packets)
    requires u != [] && FetchLocal(r, longer, u) && longer in {Finished([]), NextErr([]), NextBroken}
    ensures r == NextBroken
  {
    NeverEmpty(u);
  }

  /** Fetching from rows of which not everything arrives gives the rows that are there, and then fails. */
  lemma {:induction false} CutFetch(p: Pending, ok: bool, mode: Mode, k: nat)
    requires ValidPending(p, ok, mode) && k < |PendingWire(p, mode)|
    ensures ReadNext(PendingWire(p, mode)[..k], ok, true, mode) ==
            if k > 0 && p.rows != [] then
              GotRow(p.rows[0], PendingWire(p.(rows := p.rows[1..]), mode)[..k - 1])
            else NextBroken
  {
    hide ReadNext, PendingWire, ValidPending;
    var wire := PendingWire(p, mode);
    var s, u := wire[..k], wire[k..];
    assert s + u == wire && wire + [] == wire;
    NextOnPending(p, ok, true, mode, []);
    NextLocal(s, u, ok, mode);
    if p.rows == [] {
      FetchToEnd(p, ok, mode);
      FetchNotBehind(ReadNext(s, ok, true, mode), ReadNext(wire, ok, true, mode), u);
    } else if k > 0 {
      OneRowLess(p, mode);
      GotPrefix(ReadNext(s, ok, true, mode), u, PendingWire(p.(rows := p.rows[1..]), mode));
    } else {
      NothingFetched(ok, mode);
    }
  }

  lemma {:induction false} NothingFetched(ok: bool, mode: Mode)
    ensures ReadNext([], ok, true, mode) == NextBroken
  {
  }

  lemma {:induction false} FetchToEnd(p: Pending, ok: bool, mode: Mode)
    requires ValidPending(p, ok, mode) && p.rows == []
    ensures ReadNext(PendingWire(p, mode), ok, true, mode) in {Finished([]), NextErr([]), NextBroken}
  {
    hide ReadNext, PendingWire, ChainOutcome, ValidPending;
    NextOnPending(p, ok, true, mode, []);
    assert PendingWire(p, mode) + [] == PendingWire(p, mode);
    if p.rest != [] {
      DrainsToEnd(p.rest);
    }
  }

  lemma {:induction false} GotPrefix(r: NextRead, u: Packets, whole: Packets)
    requires r.GotRow? && r.rest + u == whole + []
    ensures |r.rest| == |whole| - |u| && r.rest == whole[..|r.rest|]
  {
    assert whole + [] == whole;
  }

  lemma {:induction false} OneRowLess(p: Pending, mode: Mode)
    requires p.rows != []
    ensures |PendingWire(p, mode)| == 1 + |PendingWire(p.(rows := p.rows[1..]), mode)|
  {
  }
}
