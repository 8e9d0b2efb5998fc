/**
 Which queries are safe to send, by their form alone: those after which the connection is retired or has the server's
 zone whatever the server answers, so long as statements that are no assignments leave the zone alone.
 */
module QuerySafety {
  import opened Bytes
  import opened SqlText
  import opened TimeZoneSql
  import opened TimeZoneStatements
  import opened SessionZones
  import opened HeadReading
  import opened ZoneServers
  import opened Responses
  import Terminators

  /** No assignment, or a single one that ends a query which is taken for a time-zone statement. */
  predicate SafeForm(b: Batch)
    requires ValidBatch(b)
  {
    forall i :: 0 <= i <= |b.others| && StatementAt(b, i).Assign? ==> i == |b.others| && IsMutation(BatchText(b))
  }

  /** Statements that are no assignments leave the zone alone. */
  predicate Neutral(b: Batch, a: Answer) {
    |a.chain| <= 1 + |b.others| && |a.zones| == |a.chain| + 1
    && forall i :: 0 <= i < |a.chain| && StatementAt(b, i).Other? ==> a.zones[i + 1] == a.zones[i]
  }

  /** A usable session with the right zone, and an answer that a server may give. */
  ghost predicate Possible(s: Session, b: Batch, args: seq<Arg>, a: Answer, mode: Mode)
    requires ValidBatch(b)
  {
    !s.bad && Mirrors(s) && ValidChain(a.chain, mode) && Answers(s.server, b, args, a) && Neutral(b, a)
  }

  ghost predicate Survives(s: Session, b: Batch, args: seq<Arg>, a: Answer, query: bool, mode: Mode)
    requires ValidBatch(b)
  {
    Possible(s, b, args, a, mode) && a.chain != [] && a.zones != [] ==> Mirrors(AfterBatch(s, b, args, a, query))
  }

  // ---- safe queries ----

  /** The zone does not change before an assignment is executed. */
  lemma {:induction false} ZonesStay(b: Batch, a: Answer, n: nat)
    requires Neutral(b, a) && n <= |a.chain| && forall i :: 0 <= i < n ==> StatementAt(b, i).Other?
    ensures a.zones[n] == a.zones[0]
  {
    if n > 0 {
      ZonesStay(b, a, n - 1);
    }
  }

  lemma {:induction false} SafeSurvives(s: Session, b: Batch, args: seq<Arg>, a: Answer, query: bool, mode: Mode)
    requires ValidBatch(b) && Readable(b, args) && SafeForm(b) && Possible(s, b, args, a, mode)
    ensures a.chain != [] && a.zones != [] && Mirrors(AfterBatch(s, b, args, a, query))
  {
    hide BatchText, IsMutation, ReadZone, Mirrors, AfterBatch, ValidChain, PartFails, AllSmall, Executes, Readable,
         ValidBatch;
    BatchMirrors(s, b, args, a, query);
    var n := |a.chain|;
    ZonesStay(b, a, n - 1);
    if StatementAt(b, n - 1).Assign? && !PartFails(a.chain[n - 1]) {
      LastSucceeds(b, a, query);
    } else {
      LastLeaves(s, b, args, a);
    }
  }

  lemma {:induction false} LastSucceeds(b: Batch, a: Answer, query: bool)
    requires a.chain != [] && !PartFails(a.chain[|a.chain| - 1])
    ensures !VerdictOf(a.chain, query).Fault?
  {
  }

  lemma {:induction false} LastLeaves(s: Session, b: Batch, args: seq<Arg>, a: Answer)
    requires Answers(s.server, b, args, a) && Neutral(b, a)
    requires var n := |a.chain|; StatementAt(b, n - 1).Assign? ==> PartFails(a.chain[n - 1])
    ensures var n := |a.chain|; a.zones[n] == a.zones[n - 1]
  {
  }

  // ---- unsafe queries ----

  const Going: Part := OKPart(Terminators.OK(0, 0, 8, 0, Terminators.NoTrailer))
  const Done: Part := OKPart(Terminators.OK(0, 0, 0, 0, Terminators.NoTrailer))
  const Failing: Part := ErrPart([0xff, 0, 0])

  /** `k` statements that are executed, and another that fails if `fails`. */
  function Results(k: nat, fails: bool): (chain: seq<Part>)
    ensures |chain| == k + if fails then 1 else 0
  {
    if k == 0 then if fails then [Failing] else []
    else [if k == 1 && !fails then Done else Going] + Results(k - 1, fails)
  }

  lemma {:induction false} ResultsValid(k: nat, fails: bool, mode: Mode)
    requires k > 0 || fails
    ensures ValidChain(Results(k, fails), mode) && AllSmall(Results(k, fails))
    ensures forall i :: 0 <= i < |Results(k, fails)| ==>
              (!Results(k, fails)[i].SetPart? && (PartFails(Results(k, fails)[i]) <==> i == k))
  {
    PartsValid(mode);
    var chain := Results(k, fails);
    if k > 1 || (k == 1 && fails) {
      var more := Results(k - 1, fails);
      ResultsValid(k - 1, fails, mode);
      assert chain[1..] == more;
      assert forall i :: 0 < i < |chain| ==> chain[i] == more[i - 1];
    }
  }

  lemma {:induction false} PartsValid(mode: Mode)
    ensures ValidPart(Going, mode) && PartMore(Going) && ValidPart(Done, mode) && !PartMore(Done)
    ensures ValidPart(Failing, mode) && !PartMore(Failing) && PartFails(Failing)
  {
  }

  /** The zone that a text sets: the one the driver reads, or some region. */
  function ZoneOf(text: string): ServerZone {
    match ParseZone(text)
    case Some(z) => Fixed(z.offset)
    case None => Region("")
  }

  lemma {:induction false} ZoneOfObeys(text: string)
    ensures Obeys(text, ZoneOf(text))
  {
    hide ParseZone, OffsetText, Trim, Upper, CaseVariant;
    ZoneOfNames(text);
    forall m | -(12 * 60 + 59) <= m <= 13 * 60 && Trim(text) == OffsetText(m)
      ensures ZoneOf(text) == Fixed(60 * m)
    {
      OffsetParses(m);
      TightOffset(m);
      SameTrim(text, OffsetText(m));
    }
  }

  lemma {:induction false} TightOffset(m: int)
    requires -(12 * 60 + 59) <= m <= 13 * 60
    ensures Trim(OffsetText(m)) == OffsetText(m)
  {
    TightTrim(OffsetText(m));
  }

  lemma {:induction false} SameTrim(a: string, b: string)
    requires Trim(a) == Trim(b)
    ensures ParseZone(a) == ParseZone(b)
  {
    hide Trim, Upper, DigitText, TwoDigits;
  }

  lemma {:induction false} ZoneOfNames(text: string)
    ensures CaseVariant(Trim(text), "UTC") || CaseVariant(Trim(text), "Z") || Trim(text) == "-00:00" ==>
              ZoneOf(text) == Fixed(0)
  {
    hide Trim, Upper, DigitText, TwoDigits, CaseVariant;
    if CaseVariant(Trim(text), "UTC") || CaseVariant(Trim(text), "Z") {
      NamesParse(text);
    }
    NegativeZero();
    TightTrim("-00:00");
    if Trim(text) == "-00:00" {
      SameTrim(text, "-00:00");
    }
  }

  /** The zone that an assignment sets when it is executed. */
  function ZoneSet(q: Sql, args: seq<Arg>): ServerZone
    requires q.Assign?
  {
    match AssignedText(Assigned(q.st.operand), args)
    case Some(text) => ZoneOf(text)
    case None => Region("")
  }

  lemma {:induction false} ZoneSetExecutes(before: ServerZone, q: Sql, args: seq<Arg>)
    requires q.Assign?
    ensures Executes(before, q, args, false, ZoneSet(q, args))
  {
    hide Obeys, ZoneOf;
    var text := AssignedText(Assigned(q.st.operand), args);
    if text.Some? {
      ZoneOfObeys(text.value);
    }
  }

  /** A session that is somewhere else. */
  function Elsewhere(z: ServerZone): (s: Session)
    ensures !s.bad && Mirrors(s) && s.server != z
  {
    var offset := if z == Fixed(0) then 60 else 0;
    Session(Some(offset), false, false, Fixed(offset))
  }

  /** Everything up to an assignment is executed, which changes the zone; what follows it fails. */
  lemma {:induction false} UnsafeLoses(b: Batch, args: seq<Arg>, mode: Mode) returns (s: Session, a: Answer)
    requires ValidBatch(b) && Readable(b, args) && !SafeForm(b)
    ensures !Survives(s, b, args, a, false, mode)
  {
    hide BatchText, IsMutation, ReadZone, Mirrors, AfterBatch, ValidChain, PartFails, AllSmall, Executes, Readable,
         ValidBatch, ZoneSet, Results;
    var i := FirstAssign(b);
    var fails := i < |b.others|;
    var after := ZoneSet(StatementAt(b, i), args);
    s := Elsewhere(after);
    var chain := Results(i + 1, fails);
    a := Answer(chain, seq(|chain| + 1, k => if k <= i then s.server else after));
    ResultsValid(i + 1, fails, mode);
    LosingAnswer(s, b, args, i, a);
    BatchMirrors(s, b, args, a, false);
    assert FinalZone(a) == after;
  }

  lemma {:induction false} FirstAssign(b: Batch) returns (i: nat)
    requires ValidBatch(b) && !SafeForm(b)
    ensures i <= |b.others| && StatementAt(b, i).Assign? && forall j :: 0 <= j < i ==> StatementAt(b, j).Other?
    ensures i == |b.others| ==> !IsMutation(BatchText(b))
  {
    hide IsMutation, BatchText, ValidBatch;
    var k :| 0 <= k <= |b.others| && StatementAt(b, k).Assign? && !(k == |b.others| && IsMutation(BatchText(b)));
    i := 0;
    while !StatementAt(b, i).Assign?
      invariant i <= k && forall j :: 0 <= j < i ==> StatementAt(b, j).Other?
      decreases k - i
    {
      i := i + 1;
    }
  }

  lemma {:induction false} LosingAnswer(s: Session, b: Batch, args: seq<Arg>, i: nat, a: Answer)
    requires i <= |b.others| && StatementAt(b, i).Assign? && forall j :: 0 <= j < i ==> StatementAt(b, j).Other?
    requires a.chain == Results(i + 1, i < |b.others|) && |a.zones| == |a.chain| + 1
    requires forall k :: 0 <= k < |a.zones| ==>
               a.zones[k] == if k <= i then s.server else ZoneSet(StatementAt(b, i), args)
    requires forall k :: 0 <= k < |a.chain| ==> !a.chain[k].SetPart? && (PartFails(a.chain[k]) <==> k == i + 1)
    ensures Answers(s.server, b, args, a) && Neutral(b, a)
  {
    hide Executes, PartFails, ZoneSet;
    forall k | 0 <= k < |a.chain|
      ensures Executes(a.zones[k], StatementAt(b, k), args, PartFails(a.chain[k]), a.zones[k + 1])
    {
      if k == i {
        ZoneSetExecutes(a.zones[k], StatementAt(b, i), args);
      } else {
        IdleExecutes(a.zones[k], StatementAt(b, k), args, PartFails(a.chain[k]));
      }
    }
  }

  lemma {:induction false} IdleExecutes(zone: ServerZone, q: Sql, args: seq<Arg>, fails: bool)
    requires q.Other? || fails
    ensures Executes(zone, q, args, fails, zone)
  {
  }

  /**
   A query keeps every usable session right or retires it, whatever the answer, if and only if it has no assignment
   or its only one is its last statement and it is taken for a time-zone statement.
   */
  lemma {:induction false} SafeExactly(b: Batch, args: seq<Arg>, mode: Mode)
    requires ValidBatch(b) && Readable(b, args)
    ensures SafeForm(b) <==> forall s, a, query :: Survives(s, b, args, a, query, mode)
  {
    hide SafeForm, Possible, Mirrors, AfterBatch, ValidBatch, Readable;
    if SafeForm(b) {
      forall s, a, query
        ensures Survives(s, b, args, a, query, mode)
      {
        if Possible(s, b, args, a, mode) {
          SafeSurvives(s, b, args, a, query, mode);
        }
      }
    } else {
      var s, a := UnsafeLoses(b, args, mode);
    }
  }
}
