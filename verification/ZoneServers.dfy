/**
 A server described on its own terms: a query is one or more statements, executed one after the other until one fails,
 and answered by a chain of results. Time-zone assignments are executed by their form and not by what the driver makes
 of their text; other statements may do to the zone what they like. Exactly when a usable connection still has the
 server's zone is proved for every query, every answer and every run.
 */
module ZoneServers {
  import opened Bytes
  import opened SqlText
  import opened TimeZoneSql
  import opened TimeZoneStatements
  import opened SessionZones
  import opened HeadReading
  import Responses
  import ResponseRuns

  // ---- queries ----

  /** A time-zone assignment, or anything else: other settings, data, procedures, whole blocks with semicolons in them. */
  datatype Sql = Assign(st: Statement) | Other(lead: Gap, body: string)

  predicate ValidSql(q: Sql) {
    match q
    case Assign(st) => WrittenStatement(st)
    case Other(lead, body) => WrittenGap(lead) && Solid(body)
  }

  /** Something that is no blank, no comment and no semicolon. */
  predicate Solid(body: string) {
    body != "" && !BlankChar(body[0]) && body[0] != ';' && body[0] != '-' && body[0] != '/' && body[0] != '#'
  }

  function Written(q: Sql): string
    requires ValidSql(q)
  {
    match q
    case Assign(st) => StatementText(st)
    case Other(lead, body) => GapText(lead) + body
  }

  datatype Batch = Batch(first: Sql, others: seq<Sql>, close: Close)

  predicate ValidBatch(b: Batch) {
    && ValidSql(b.first) && (forall i :: 0 <= i < |b.others| ==> ValidSql(b.others[i])) && WrittenClose(b.close)
  }

  /** What follows the first statement. */
  function Following(others: seq<Sql>, c: Close): (s: string)
    requires forall i :: 0 <= i < |others| ==> ValidSql(others[i])
  {
    if others == [] then CloseText(c) else ";" + (Written(others[0]) + Following(others[1..], c))
  }

  function BatchText(b: Batch): string
    requires ValidBatch(b)
  {
    Written(b.first) + Following(b.others, b.close)
  }

  function StatementAt(b: Batch, i: nat): Sql
    requires i <= |b.others|
  {
    if i == 0 then b.first else b.others[i - 1]
  }

  // ---- answers ----

  /** A server that accepts a zone text sets the zone it names; which other texts it accepts is left open. */
  ghost predicate Obeys(text: string, after: ServerZone) {
    && (forall m :: -(12 * 60 + 59) <= m <= 13 * 60 && Trim(text) == OffsetText(m) ==> after == Fixed(60 * m))
    && (CaseVariant(Trim(text), "UTC") || CaseVariant(Trim(text), "Z") || Trim(text) == "-00:00" ==> after == Fixed(0))
  }

  /** What one statement may do to the zone: an assignment sets it, or fails and leaves it alone. */
  ghost predicate Executes(before: ServerZone, q: Sql, args: seq<Arg>, fails: bool, after: ServerZone) {
    q.Assign? ==>
      if fails then after == before
      else
        match q.st.operand
        case Quoted(value, _) => Obeys(value, after)
        case Placeholder => |args| == 1 && args[0].TextArg? ==> Obeys(args[0].s, after)
  }

  /**
   The answer to a query and the zones it went through: one result for each statement up to the first that fails, or
   for all of them. An assignment is not answered with rows.
   */
  datatype Answer = Answer(chain: seq<Responses.Part>, zones: seq<ServerZone>)

  function FinalZone(a: Answer): ServerZone
    requires a.zones != []
  {
    a.zones[|a.zones| - 1]
  }

  ghost predicate Answers(before: ServerZone, b: Batch, args: seq<Arg>, a: Answer) {
    var n := |a.chain|;
    && 0 < n <= 1 + |b.others| && |a.zones| == n + 1 && a.zones[0] == before
    && (Responses.PartFails(a.chain[n - 1]) || n == 1 + |b.others|)
    && forall i :: 0 <= i < n ==>
         && Executes(a.zones[i], StatementAt(b, i), args, Responses.PartFails(a.chain[i]), a.zones[i + 1])
         && (StatementAt(b, i).Assign? ==> !a.chain[i].SetPart?)
  }

  /** What the driver's call comes to: a query that begins with rows is judged by its head alone. */
  datatype Verdict = Success | Fault | Broken

  function VerdictOf(chain: seq<Responses.Part>, query: bool): Verdict
    requires chain != []
  {
    if query && chain[0].SetPart? then
      if |chain[0].columns| > 10000 then Broken else Success
    else if !Responses.AllSmall(chain) then Broken
    else if Responses.PartFails(chain[|chain| - 1]) then Fault
    else Success
  }

  function ReplyOf(v: Verdict, after: ServerZone): Reply {
    match v
    case Broken => Lost
    case Fault => Rejected(after)
    case Success => Accepted(after)
  }

  /** The verdict is that of the packets: the step of the response machine retires the connection exactly then. */
  lemma {:induction false} VerdictIsStep(op: ResponseRuns.Op, mode: Responses.Mode)
    requires (op.Query? || op.Exec?) && Responses.ValidChain(op.chain, mode)
    ensures op.chain != []
    ensures var v := VerdictOf(op.chain, op.Query?);
            ResponseRuns.Step(ResponseRuns.State([], false, None), op, mode).bad
            <==> v.Broken? || (v.Success? && !op.synced)
  {
    hide ResponseRuns.Step, Responses.AllSmall, Responses.PartFails, Responses.ValidChain;
    ResponseRuns.NonEmptyChain(op.chain, mode);
    ResponseRuns.RequestStep(op, mode);
  }

  /** The session after a query. */
  function AfterBatch(s: Session, b: Batch, args: seq<Arg>, a: Answer, query: bool): Session
    requires ValidBatch(b) && a.chain != [] && a.zones != []
  {
    AfterStatement(s, BatchText(b), args, ReplyOf(VerdictOf(a.chain, query), FinalZone(a)))
  }

  // ---- zone texts mean to the driver what they mean to the server ----

  lemma {:induction false} DigitsAgree(s: string)
    requires |s| == 2 && IsDigit(s[0]) && IsDigit(s[1])
    ensures DigitText(TwoDigits(s)) == s
  {
  }

  lemma {:induction false} UpperVariant(w: string, h: string)
    ensures Upper(w) == h ==> CaseVariant(w, h)
  {
    if Upper(w) == h {
      assert forall i :: 0 <= i < |w| ==> h[i] == UpperChar(w[i]);
    }
  }

  /** A zone text that the driver parses is one of the texts whose meaning is fixed, with the same meaning. */
  lemma {:induction false} ParsedMeaning(text: string, after: ServerZone)
    requires ParseZone(text).Some? && Obeys(text, after)
    ensures after == Fixed(ParseZone(text).value.offset)
  {
    hide Trim, Upper, DigitText, TwoDigits;
    var v, z := Trim(text), ParseZone(text).value;
    UpperVariant(v, "UTC");
    UpperVariant(v, "Z");
    if Upper(v) != "UTC" && Upper(v) != "Z" {
      ParsedZone(text);
      DigitsAgree(v[1..3]);
      DigitsAgree(v[4..6]);
      assert v == [v[0]] + v[1..3] + ":" + v[4..6];
      assert z.canonical == v;
      assert 60 * (z.offset / 60) == z.offset;
    }
  }

  // ---- what follows an assignment shows ----

  predicate Shows(r: string) {
    exists i :: 0 <= i < |r| && !IsSpace(r[i]) && r[i] != ';'
  }

  lemma {:induction false} ShowsBehind(a: string, r: string)
    requires Shows(r)
    ensures Shows(a + r)
  {
    hide IsSpace;
    var i :| 0 <= i < |r| && !IsSpace(r[i]) && r[i] != ';';
    assert (a + r)[|a| + i] == r[i];
  }

  lemma {:induction false} DashShows(m: string)
    requires Dashed(m)
    ensures Shows(m)
  {
    assert !IsSpace(m[0]) && m[0] != ';';
  }

  /** Behind a gap, what shows still does, and so does a comment that the driver does not see. */
  lemma {:induction false} GapShows(g: Gap, t: string)
    requires WrittenGap(g) && (!AllSpaced(g) || Shows(Strip(None, t)))
    ensures Shows(Strip(None, GapText(g) + t))
  {
    hide Strip, Shows, GapText, GapBlank, WrittenGap, AllSpaced, ValidGap, SpacedPart, Dashed;
    SpacedIsValid(g);
    if !AllSpaced(g) {
      var y := BrokenGap(g, t);
      StripGap(SpacedPart(g), y);
      DashShows(Strip(None, y));
      ShowsBehind(GapBlank(SpacedPart(g)), Strip(None, y));
    } else {
      StripGap(g, t);
      ShowsBehind(GapBlank(g), Strip(None, t));
    }
  }

  lemma {:induction false} SolidShows(body: string, rest: string)
    requires Solid(body)
    ensures Shows(Strip(None, body + rest))
  {
    hide Strip, AfterBlock, AfterLine;
    StripFirst(body + rest);
    var r := Strip(None, body + rest);
    assert (body + rest)[0] == body[0];
    assert !IsSpace(r[0]) && r[0] != ';';
  }

  lemma {:induction false} WordIsSolid(words: seq<string>, gaps: seq<Gap>, rest: string)
    requires words != [] && WrittenWords(words, gaps)
    ensures Solid(Spread(words, gaps) + rest)
  {
    hide GapText, WrittenGap;
    assert IsWord(words[0]);
    assert (Spread(words, gaps) + rest)[0] == words[0][0];
    assert IsWordChar(words[0][0]);
  }

  lemma {:induction false} StatementShows(q: Sql, rest: string)
    requires ValidSql(q)
    ensures Shows(Strip(None, Written(q) + rest))
  {
    assert q.Assign? ==> |q.st.words| == |q.st.gaps|;
    hide Strip, Shows, GapText, WrittenGap, Spread, OperandText, WrittenWords, Solid, Upper, JoinWords, AllSpaced;
    match q {
      case Assign(st) =>
        FramedConcat(st, GapText(st.behind), rest);
        var t := "=" + (GapText(st.after) + (OperandText(st.operand) + (GapText(st.behind) + rest)));
        WordIsSolid(st.words, st.gaps, t);
        SolidShows(Spread(st.words, st.gaps) + t, "");
        assert Spread(st.words, st.gaps) + t + "" == Spread(st.words, st.gaps) + t;
        GapShows(st.lead, Spread(st.words, st.gaps) + t);
      case Other(lead, body) =>
        SolidShows(body, rest);
        GapShows(lead, body + rest);
        assert GapText(lead) + body + rest == GapText(lead) + (body + rest);
    }
  }

  predicate AllSpacedClose(c: Close) {
    AllSpaced(c.trail) && (c.end.LineEnd? ==> !Unspaced(Line(c.end.text)))
  }

  lemma {:induction false} CloseShows(c: Close)
    requires WrittenClose(c) && !AllSpacedClose(c)
    ensures Shows(Strip(None, CloseText(c)))
  {
    hide Strip, Shows, GapText, WrittenGap, AllSpaced, Dashed, IsSpace;
    var semi := if c.semicolon then ";" else "";
    if AllSpaced(c.trail) {
      DashesStay(c.end.text, "");
      assert EndingText(c.end) == "--" + c.end.text + "";
      DashShows(Strip(None, EndingText(c.end)));
    }
    GapShows(c.trail, EndingText(c.end));
    StripPlain(semi, GapText(c.trail) + EndingText(c.end));
    ShowsBehind(semi, Strip(None, GapText(c.trail) + EndingText(c.end)));
  }

  lemma {:induction false} FollowingShows(others: seq<Sql>, c: Close)
    requires (forall i :: 0 <= i < |others| ==> ValidSql(others[i])) && WrittenClose(c)
    requires others != [] || !AllSpacedClose(c)
    ensures Shows(Strip(None, Following(others, c)))
  {
    hide Strip, Shows, Written, ValidSql, CloseText, AllSpacedClose;
    if others == [] {
      CloseShows(c);
    } else {
      var t := Written(others[0]) + Following(others[1..], c);
      StatementShows(others[0], Following(others[1..], c));
      StripPlain(";", t);
      ShowsBehind(";", Strip(None, t));
    }
  }

  lemma {:induction false} FollowingStart(others: seq<Sql>, c: Close)
    requires (forall i :: 0 <= i < |others| ==> ValidSql(others[i])) && WrittenClose(c)
    ensures var t := Following(others, c); t != "" ==> !IsQuote(t[0])
  {
    hide Written, CloseText;
    CloseStart(c);
  }

  /** Behind an operand, all that shows is visible: it does not continue the value. */
  lemma {:induction false} RestVisible(g: Gap, t: string)
    requires WrittenGap(g) && (t != "" ==> !IsQuote(t[0])) && (!AllSpaced(g) || Shows(Strip(None, t)))
    ensures var r := GapText(g) + t; r != "" && !IsQuote(r[0]) && Visible(Strip(None, r))
  {
    hide Strip, GapText, AllSpaced, WrittenGap, IsQuote;
    GapShows(g, t);
    GapStart(g, t);
    StripNothing(None);
    StripFirst(GapText(g) + t);
    BlankIsNoQuote();
  }

  lemma {:induction false} BlankIsNoQuote()
    ensures !IsQuote(' ')
  {
  }

  // ---- what the driver reads off a query that begins with an assignment ----

  /** A statement alone, with nothing that the driver does not take for a comment. */
  predicate Plainly(b: Batch)
    requires b.first.Assign?
  {
    var st := b.first.st;
    && b.others == [] && AllSpacedClose(b.close)
    && AllSpaced(st.lead) && AllSpaced(st.after) && AllSpaced(st.behind)
    && forall i :: 0 <= i < |st.gaps| ==> AllSpaced(st.gaps[i])
  }

  lemma {:induction false} BatchFramed(b: Batch)
    requires ValidBatch(b) && b.first.Assign?
    ensures BatchText(b) == Framed(b.first.st, GapText(b.first.st.behind) + Following(b.others, b.close))
  {
    hide Following, Framed;
    FramedConcat(b.first.st, GapText(b.first.st.behind), Following(b.others, b.close));
  }

  /** The query is taken for a time-zone statement exactly when the head of its first statement is seen. */
  lemma {:induction false} AnnouncedExactly(b: Batch)
    requires ValidBatch(b) && b.first.Assign?
    ensures IsMutation(BatchText(b)) <==> Seen(b.first.st)
  {
    hide IsMutation, Following, Framed, Seen, BatchText;
    BatchFramed(b);
    SeenExactly(b.first.st, GapText(b.first.st.behind) + Following(b.others, b.close));
  }

  /** Read as assigned when it stands alone, and not read at all otherwise. */
  lemma {:induction false} ReadExactly(b: Batch, args: seq<Arg>)
    requires ValidBatch(b) && b.first.Assign? && Seen(b.first.st)
    ensures if Plainly(b) then Recognise(BatchText(b)) == Some(Assigned(b.first.st.operand))
            else ReadZone(BatchText(b), args) == Unknown
  {
    hide Recognise, ReadZone, Strip, GapText, AllSpaced, AllSpacedClose, Framed, BatchText, Following, Seen, Visible, Shows,
         IsQuote;
    var st := b.first.st;
    BatchFramed(b);
    if Plainly(b) {
      PlainIsValid(b);
      StatementRecognised(st, b.close);
      PlainText(b);
    } else {
      if b.others != [] || !AllSpacedClose(b.close) {
        FollowingShows(b.others, b.close);
      }
      FollowingStart(b.others, b.close);
      var rest := GapText(st.behind) + Following(b.others, b.close);
      if !AllSpaced(st.behind) || b.others != [] || !AllSpacedClose(b.close) {
        RestVisible(st.behind, Following(b.others, b.close));
      } else {
        BrokenEarly(st);
      }
      SeenButUnread(st, rest, args);
    }
  }

  lemma {:induction false} BrokenEarly(st: Statement)
    requires WrittenStatement(st) && Seen(st)
    requires !(AllSpaced(st.lead) && AllSpaced(st.after) && forall i :: 0 <= i < |st.gaps| ==> AllSpaced(st.gaps[i]))
    ensures !AllSpaced(st.gaps[|st.gaps| - 1]) || !AllSpaced(st.after)
  {
    hide AllSpaced, WrittenGap;
  }

  lemma {:induction false} PlainText(b: Batch)
    requires ValidBatch(b) && b.first.Assign? && b.others == []
    ensures BatchText(b) == Text(b.first.st, b.close)
  {
    hide StatementText, CloseText;
  }

  lemma {:induction false} PlainIsValid(b: Batch)
    requires ValidBatch(b) && b.first.Assign? && Plainly(b)
    ensures ValidStatement(b.first.st) && ValidClose(b.close)
  {
    hide AllSpaced, ValidGap, WrittenGap, IsWord, Upper, JoinWords;
    var st := b.first.st;
    SpacedIsValid(st.lead);
    SpacedIsValid(st.after);
    SpacedIsValid(st.behind);
    SpacedIsValid(b.close.trail);
    forall i | 0 <= i < |st.gaps|
      ensures ValidGap(st.gaps[i])
    {
      SpacedIsValid(st.gaps[i]);
    }
  }

  // ---- one query ----

  /** The driver does not read a zone out of a query that begins with another statement than an assignment. */
  predicate Readable(b: Batch, args: seq<Arg>)
    requires ValidBatch(b)
  {
    b.first.Other? ==> !ReadZone(BatchText(b), args).Known?
  }

  /** What the driver concludes is right: nothing happened, or a lone assignment was announced and executed. */
  predicate Followed(before: ServerZone, b: Batch, a: Answer, query: bool)
    requires ValidBatch(b) && a.chain != [] && a.zones != []
  {
    var v := VerdictOf(a.chain, query);
    v.Broken? || FinalZone(a) == before || (v.Success? && IsMutation(BatchText(b)))
  }

  /**
   After a query the connection is retired or has the server's zone if and only if the zone is what it was, or the
   driver saw no error and took the query for a time-zone statement.
   */
  lemma {:induction false} BatchMirrors(s: Session, b: Batch, args: seq<Arg>, a: Answer, query: bool)
    requires !s.bad && Mirrors(s) && ValidBatch(b) && Readable(b, args) && Answers(s.server, b, args, a)
    ensures Mirrors(AfterBatch(s, b, args, a, query)) <==> Followed(s.server, b, a, query)
  {
    hide ReadZone, BatchText, IsMutation, Responses.AllSmall, Responses.PartFails, ValidBatch, Answers, Executes;
    AnsweredWhole(s.server, b, args, a);
    var v := VerdictOf(a.chain, query);
    if v.Success? {
      ReadNothing(BatchText(b), args);
      if b.first.Assign? && IsMutation(BatchText(b)) {
        FollowedAlone(s.server, b, args, a, query);
      }
    }
  }

  lemma {:induction false} AnsweredWhole(before: ServerZone, b: Batch, args: seq<Arg>, a: Answer)
    requires Answers(before, b, args, a)
    ensures a.chain != [] && a.zones != []
  {
  }

  lemma {:induction false} ReadNothing(query: string, args: seq<Arg>)
    ensures ReadZone(query, args) == Unchanged <==> !IsMutation(query)
  {
    hide Recognise, IsMutation;
    if Recognise(query).Some? {
      RecognisedIsMutation(query);
    }
  }

  /** A zone that the driver reads off an announced assignment is the one the server went to. */
  lemma {:induction false} FollowedAlone(before: ServerZone, b: Batch, args: seq<Arg>, a: Answer, query: bool)
    requires ValidBatch(b) && b.first.Assign? && IsMutation(BatchText(b)) && Answers(before, b, args, a)
    requires VerdictOf(a.chain, query).Success?
    ensures var r := ReadZone(BatchText(b), args); r.Known? ==> FinalZone(a) == Fixed(r.zone.offset)
  {
    hide BatchText, IsMutation, ParseZone, Obeys, Recognise, Plainly, Seen, ValidSql, WrittenClose, Responses.AllSmall;
    AnnouncedExactly(b);
    ReadExactly(b, args);
    if Plainly(b) {
      AloneIsAnswered(before, b, args, a, query);
      var text := AssignedText(Assigned(b.first.st.operand), args);
      if text.Some? && ParseZone(text.value).Some? {
        ParsedMeaning(text.value, FinalZone(a));
      }
    }
  }

  lemma {:induction false} AloneIsAnswered(before: ServerZone, b: Batch, args: seq<Arg>, a: Answer, query: bool)
    requires b.first.Assign? && Plainly(b) && Answers(before, b, args, a) && VerdictOf(a.chain, query).Success?
    ensures a.zones != [] && Executes(before, b.first, args, false, FinalZone(a))
  {
    hide AllSpaced, AllSpacedClose, Responses.AllSmall, Executes;
    assert StatementAt(b, 0) == b.first;
    assert |a.chain| == 1 && !a.chain[0].SetPart?;
  }

  // ---- statements that are not about the zone ----

  /**
   A query whose first words are neither a head nor go on after one is no mutation: other verbs, and SET and ALTER with
   anything else behind them. What ends the words may be anything but a letter.
   */
  lemma {:induction false} CommandIgnored(lead: Gap, words: seq<string>, gaps: seq<Gap>, more: string)
    requires WrittenGap(lead) && words != [] && WrittenWords(words, gaps)
    requires var w := Upper(JoinWords(words)); !IsHead(w) && !GoesOn(w)
    requires more == "" || (Stops(more[0]) && !OpensComment(more))
    ensures !IsMutation(GapText(lead) + (Spread(words, gaps) + more))
  {
    assert |words| == |gaps| && forall i :: 0 <= i < |gaps| ==> WrittenGap(gaps[i]);
    hide IsMutation, Strip, GapText, Spread, JoinWords, Upper, IsHead, GoesOn, AllSpaced, WrittenGap, IsWord, Dashed, Stops,
         OpensComment, SpacedPart;
    EqualsStops();
    SpacedIsValid(lead);
    if !AllSpaced(lead) {
      var y := BrokenGap(lead, Spread(words, gaps) + more);
      DashIsStop(Strip(None, y));
      MutationDecided(SpacedPart(lead), [], [], y);
      SpreadNothing();
      assert "" + y == y;
      NoHead();
    } else if i :| 0 <= i < |gaps| && !AllSpaced(gaps[i]) && forall j :: 0 <= j < i ==> AllSpaced(gaps[j]) {
      var y := BrokenSpread(words, gaps, i, more);
      DashIsStop(Strip(None, y));
      CutIsValid(words, gaps, i);
      CutLengths(words, gaps, i);
      MutationDecided(lead, words[..i + 1], CutGaps(gaps, i), y);
      CutWords(words, i + 1);
    } else {
      NoneBroken(gaps);
      AllGapsValid(words, gaps);
      StripNothing(None);
      if more != "" {
        StripFirst(more);
      }
      MutationDecided(lead, words, gaps, more);
    }
  }

  lemma {:induction false} DashIsStop(m: string)
    requires Dashed(m)
    ensures m != "" && Stops(m[0]) && m[0] != '='
  {
  }

  lemma {:induction false} CutLengths(words: seq<string>, gaps: seq<Gap>, i: nat)
    requires |words| == |gaps| && i < |gaps|
    ensures |words[..i + 1]| == |CutGaps(gaps, i)|
  {
  }

  lemma {:induction false} AllGapsValid(words: seq<string>, gaps: seq<Gap>)
    requires WrittenWords(words, gaps) && forall i :: 0 <= i < |gaps| ==> AllSpaced(gaps[i])
    ensures ValidWords(words, gaps)
  {
    hide AllSpaced, ValidGap, WrittenGap, IsWord;
    forall i | 0 <= i < |gaps|
      ensures ValidGap(gaps[i])
    {
      SpacedIsValid(gaps[i]);
    }
  }

  /** The first of some words are no head either, unless the words go on after it. */
  lemma {:induction false} CutWords(words: seq<string>, j: nat)
    requires 0 < j <= |words|
    requires var w := Upper(JoinWords(words)); !IsHead(w) && !GoesOn(w)
    ensures var w := Upper(JoinWords(words[..j])); !IsHead(w) && !GoesOn(w)
  {
    hide JoinWords, Upper;
    var w, whole := Upper(JoinWords(words[..j])), Upper(JoinWords(words));
    if j < |words| {
      JoinPrefix(words, j);
      UpperPrefix(JoinWords(words[..j]), JoinWords(words));
      PrefixChar(w, ' ', whole);
    } else {
      assert words[..j] == words;
    }
    forall k | 0 <= k < |Heads|
      ensures Heads[k] != w && !(Heads[k] + " " <= w)
    {
      PrefixOfPrefix(Heads[k] + " ", w, whole);
    }
  }

  // ---- three ways to lose the zone ----

  /** The driver's own statement for +08:00, with something before it. */
  function Eight(lead: Gap): Statement {
    OwnStatement("+08:00").(lead := lead)
  }

  lemma {:induction false} EightWritten(lead: Gap)
    requires WrittenGap(lead)
    ensures WrittenStatement(Eight(lead)) && StatementText(Eight(lead)) == GapText(lead) + SessionTimeZoneSQL("+08:00")
  {
    hide *;
    OwnStatementValid("+08:00");
    OwnStatementText("+08:00");
    OwnEnds("+08:00");
    LeadBefore(OwnStatement("+08:00"), lead);
    EightIs(lead);
  }

  lemma {:induction false} EightIs(lead: Gap)
    ensures Eight(lead) == OwnStatement("+08:00").(lead := lead)
  {
    hide OwnStatement;
  }

  /** More before a statement that stands alone. */
  lemma {:induction false} LeadBefore(st: Statement, lead: Gap)
    requires ValidStatement(st) && st.lead == [] && st.behind == [] && |st.words| == |st.gaps| && WrittenGap(lead)
    ensures WrittenStatement(st.(lead := lead)) && StatementText(st.(lead := lead)) == GapText(lead) + Text(st, NoClose)
  {
    hide WrittenGap, GapText, CloseText, ValidStatement, WrittenStatement, StatementText, Text, Framed;
    WrittenLead(st, lead);
    FramedLead(st, lead);
    TextAlone(st, lead);
  }

  lemma {:induction false} OwnEnds(canonical: string)
    ensures var own := OwnStatement(canonical); own.lead == [] && own.behind == [] && |own.words| == |own.gaps|
  {
  }

  lemma {:induction false} WrittenLead(st: Statement, lead: Gap)
    requires ValidStatement(st) && WrittenGap(lead)
    ensures WrittenStatement(st.(lead := lead))
  {
    hide WrittenGap, ValidGap, WrittenWords, JoinWords, Upper;
  }

  lemma {:induction false} TextAlone(st: Statement, lead: Gap)
    requires |st.words| == |st.gaps| && st.behind == []
    ensures Text(st, NoClose) == Framed(st, "") && StatementText(st.(lead := lead)) == Framed(st.(lead := lead), "")
  {
    hide Framed;
    assert GapText([]) == "";
    NoCloseText();
  }

  lemma {:induction false} FramedLead(st: Statement, lead: Gap)
    requires |st.words| == |st.gaps| && st.lead == []
    ensures Framed(st.(lead := lead), "") == GapText(lead) + Framed(st, "")
  {
    hide Spread, OperandText;
    var t := Spread(st.words, st.gaps) + ("=" + (GapText(st.after) + (OperandText(st.operand) + "")));
    assert GapText([]) + t == t;
  }

  lemma {:induction false} NoCloseText()
    ensures forall s: string :: s + CloseText(NoClose) == s
  {
    assert CloseText(NoClose) == "";
  }

  /** The three queries as batches. */
  const LaterBatch: Batch := Batch(Other([], SelectOne), [Assign(Eight([Space(' ')]))], NoClose)
  const FailingBatch: Batch := Batch(Assign(Eight([])), [Other([Space(' ')], "bad")], NoClose)
  const HiddenBatch: Batch := Batch(Assign(Eight([Line("x")])), [], NoClose)

  const SelectOne: string := "SELECT 1 FROM DUAL"

  lemma {:induction false} TwoStatements(first: Sql, second: Sql)
    requires ValidSql(first) && ValidSql(second)
    ensures var b := Batch(first, [second], NoClose);
            ValidBatch(b) && BatchText(b) == Written(first) + (";" + Written(second))
  {
    hide ValidSql, Written;
    NoCloseWritten();
    FollowingOne(second);
  }

  lemma {:induction false} NoCloseWritten()
    ensures WrittenClose(NoClose)
  {
  }

  lemma {:induction false} LaterText()
    ensures ValidBatch(LaterBatch)
    ensures BatchText(LaterBatch) == SelectOne + ("; " + SessionTimeZoneSQL("+08:00"))
    ensures !IsMutation(BatchText(LaterBatch))
  {
    var eight := SessionTimeZoneSQL("+08:00");
    EightSql([Space(' ')]);
    OneSpace();
    SelectWhole();
    hide Eight, SelectOne, SessionTimeZoneSQL, IsMutation, GapText, Written, ValidSql, ValidBatch, BatchText;
    TwoStatements(Other([], SelectOne), Assign(Eight([Space(' ')])));
    JoinTwo(SelectOne, eight);
    Regroup("SELECT 1", " FROM DUAL", "; " + eight);
    SelectIgnored(" FROM DUAL" + ("; " + eight));
  }

  lemma {:induction false} EightSql(lead: Gap)
    requires WrittenGap(lead)
    ensures ValidSql(Assign(Eight(lead))) && Written(Assign(Eight(lead))) == GapText(lead) + SessionTimeZoneSQL("+08:00")
  {
    hide Eight, WrittenStatement, StatementText, SessionTimeZoneSQL, GapText, WrittenGap;
    EightWritten(lead);
  }

  lemma {:induction false} SelectWhole()
    ensures SelectOne == "SELECT 1" + " FROM DUAL"
    ensures ValidSql(Other([], SelectOne)) && Written(Other([], SelectOne)) == SelectOne
  {
    hide *;
    SelectSolid();
    NothingBefore(SelectOne);
    OtherWhole(SelectOne);
  }

  lemma {:induction false} SelectSolid()
    ensures SelectOne == "SELECT 1" + " FROM DUAL" && Solid(SelectOne)
  {
  }

  lemma {:induction false} OtherWhole(body: string)
    requires Solid(body) && GapText([]) + body == body
    ensures ValidSql(Other([], body)) && Written(Other([], body)) == body
  {
    hide GapText, Solid;
  }

  lemma {:induction false} NothingBefore(body: string)
    ensures GapText([]) + body == body
  {
    assert GapText([]) == "";
  }

  lemma {:induction false} JoinTwo(a: string, b: string)
    ensures a + (";" + (" " + b)) == a + ("; " + b)
  {
  }

  lemma {:induction false} FollowingOne(q: Sql)
    requires ValidSql(q)
    ensures Following([q], NoClose) == ";" + Written(q)
  {
    hide Written, ValidSql;
    NoCloseText();
    assert [q][1..] == [];
    assert Following([], NoClose) == CloseText(NoClose);
  }

  lemma {:induction false} SelectIgnored(rest: string)
    ensures !IsMutation("SELECT 1" + rest)
  {
    hide IsMutation, Spread, GapText, IsHead, GoesOn;
    SelectWord();
    SpreadOne("SELECT", [Space(' ')]);
    OneSpace();
    var more := "1" + rest;
    CommandIgnored([], ["SELECT"], [[Space(' ')]], more);
    assert "" + ("SELECT" + " " + more) == "SELECT 1" + rest;
  }

  lemma {:induction false} SelectWord()
    ensures IsWord("SELECT") && JoinWords(["SELECT"]) == "SELECT"
    ensures var w := Upper("SELECT"); !IsHead(w) && !GoesOn(w)
    ensures Stops('1')
  {
    var w := Upper("SELECT");
    assert w[1] == 'E';
    forall k | 0 <= k < |Heads|
      ensures Heads[k] != w && !(Heads[k] + " " <= w)
    {
      assert |Heads[k]| > 6;
    }
  }

  lemma {:induction false} FailingText()
    ensures ValidBatch(FailingBatch)
    ensures BatchText(FailingBatch) == SessionTimeZoneSQL("+08:00") + "; bad"
  {
    var eight := SessionTimeZoneSQL("+08:00");
    EightSql([]);
    BadSql();
    hide Eight, SessionTimeZoneSQL, Written, ValidSql, ValidBatch, BatchText;
    TwoStatements(Assign(Eight([])), Other([Space(' ')], "bad"));
    assert GapText([]) + eight == eight;
  }

  lemma {:induction false} BadSql()
    ensures var q := Other([Space(' ')], "bad"); ValidSql(q) && ";" + Written(q) == "; bad"
  {
    OneSpace();
  }

  lemma {:induction false} HiddenText()
    ensures ValidBatch(HiddenBatch)
    ensures BatchText(HiddenBatch) == "--x\n" + SessionTimeZoneSQL("+08:00")
    ensures !IsMutation(BatchText(HiddenBatch))
  {
    hide WrittenStatement, StatementText, SessionTimeZoneSQL, IsMutation, Spread, CloseText;
    var lead := [Line("x")];
    EightWritten(lead);
    NoCloseText();
    GapFirst(lead);
    assert GapText([]) == "" && lead[1..] == [] && GapText(lead) == "--x\n";
    assert Unspaced(lead[0]) && FirstUnspaced(lead) == 0;
    assert !Seen(HiddenBatch.first.st);
    AnnouncedExactly(HiddenBatch);
  }

  /**
   On a server that is somewhere else, each of the three is answered so that a usable session is left with a zone that
   is not the server's: the assignment comes second, or is followed by a statement that fails, or hides behind a comment
   without a blank.
   */
  lemma {:induction false} ZoneLost(s: Session, ok: Responses.Part, err: Responses.Part)
    requires !s.bad && Mirrors(s) && s.location != Some(28800)
    requires ok.OKPart? && err.ErrPart?
    ensures forall b :: b == LaterBatch || b == FailingBatch || b == HiddenBatch ==> ValidBatch(b)
    ensures
      var later := Answer([ok, ok], [s.server, s.server, Fixed(28800)]);
      && Answers(s.server, LaterBatch, [], later)
      && var t := AfterBatch(s, LaterBatch, [], later, false); !t.bad && !Mirrors(t)
    ensures
      var failing := Answer([ok, err], [s.server, Fixed(28800), Fixed(28800)]);
      && Answers(s.server, FailingBatch, [], failing)
      && var t := AfterBatch(s, FailingBatch, [], failing, false); !t.bad && !Mirrors(t)
    ensures
      var hidden := Answer([ok], [s.server, Fixed(28800)]);
      && Answers(s.server, HiddenBatch, [], hidden)
      && var t := AfterBatch(s, HiddenBatch, [], hidden, false); !t.bad && !Mirrors(t)
  {
    hide BatchText, IsMutation, ReadZone, ValidBatch;
    LaterText();
    FailingText();
    HiddenText();
    ReadNothing(BatchText(LaterBatch), []);
    ReadNothing(BatchText(HiddenBatch), []);
    EightObeyed();
  }

  lemma {:induction false} EightObeyed()
    ensures Obeys("+08:00", Fixed(28800))
  {
    hide Trim, OffsetText;
    TightTrim("+08:00");
    NotUtc("+08:00");
    forall m | -(12 * 60 + 59) <= m <= 13 * 60 && OffsetText(m) == "+08:00"
      ensures m == 480
    {
      OffsetParses(m);
      OffsetParses(480);
      EightText();
    }
  }

  lemma {:induction false} EightText()
    ensures OffsetText(480) == "+08:00"
  {
    assert DigitText(8) == "08" && DigitText(0) == "00";
  }

  // ---- runs ----

  /** What an application and its pool do with a connection. */
  datatype Action =
    | Send(batch: Batch, args: seq<Arg>, answer: Answer, query: bool)
    | StartTx
    | EndTx(commit: bool, reply: Reply)
    | Recycle(rollback: Reply, configure: Reply)

  function EndText(commit: bool): string {
    if commit then "commit" else "rollback"
  }

  predicate ValidAction(a: Action) {
    a.Send? ==> ValidBatch(a.batch) && Readable(a.batch, a.args) && a.answer.chain != [] && a.answer.zones != []
  }

  function After(s: Session, a: Action, zone: Zone): Session
    requires ValidAction(a)
  {
    match a
    case Send(b, args, answer, query) => if s.bad then s else AfterBatch(s, b, args, answer, query)
    case StartTx => Step(s, Begin, zone)
    case EndTx(commit, reply) => Step(s, Finish(EndText(commit), reply), zone)
    case Recycle(rollback, configure) => Step(s, Reset(rollback, configure), zone)
  }

  predicate LeavesAlone(before: ServerZone, reply: Reply) {
    !reply.Lost? ==> reply.after == before
  }

  /** The server's part: ending a transaction leaves the zone alone, and the configured zone is set as asked. */
  ghost predicate Serves(s: Session, a: Action, zone: Zone) {
    match a
    case Send(b, args, answer, _) => ValidBatch(b) && Answers(s.server, b, args, answer)
    case StartTx => true
    case EndTx(_, reply) => LeavesAlone(s.server, reply)
    case Recycle(rollback, configure) =>
      && LeavesAlone(s.server, rollback)
      && (configure.Accepted? ==> Obeys(zone.canonical, configure.after))
      && (configure.Rejected? ==> configure.after == AfterRollback(s, rollback).server)
  }

  /** What an action on a usable connection does to the zone is what the driver concludes. */
  predicate FollowedBy(s: Session, a: Action)
    requires ValidAction(a)
  {
    s.bad || (a.Send? ==> Followed(s.server, a.batch, a.answer, a.query))
  }

  lemma {:induction false} EndIgnored(commit: bool)
    ensures !IsMutation(EndText(commit))
  {
    hide IsMutation, IsHead, GoesOn;
    var verb := EndText(commit);
    EndVerb(commit);
    CommandIgnored([], [verb], [[]], "");
    SpreadOne(verb, []);
    assert GapText([]) == "";
    assert "" + (verb + "" + "") == verb;
  }

  lemma {:induction false} EndVerb(commit: bool)
    ensures var verb := EndText(commit); IsWord(verb) && JoinWords([verb]) == verb
    ensures var w := Upper(EndText(commit)); !IsHead(w) && !GoesOn(w)
  {
    var w := Upper(EndText(commit));
    assert w[0] == if commit then 'C' else 'R';
    forall k | 0 <= k < |Heads|
      ensures Heads[k] != w && !(Heads[k] + " " <= w)
    {
      HeadSigns();
      assert (Heads[k] + " ")[0] == Heads[k][0];
    }
  }

  lemma {:induction false} EndAllowed(before: ServerZone, commit: bool, reply: Reply)
    requires LeavesAlone(before, reply)
    ensures ServerAllows(before, EndText(commit), [], reply)
  {
    hide ReadZone, IsMutation, EndText;
    EndIgnored(commit);
    ReadNothing(EndText(commit), []);
  }

  lemma {:induction false} ConfigureAllowed(before: ServerZone, value: string, reply: Reply)
    requires ParseZone(value).Some?
    requires reply.Accepted? ==> Obeys(ParseZone(value).value.canonical, reply.after)
    requires reply.Rejected? ==> reply.after == before
    ensures ServerAllows(before, SessionTimeZoneSQL(ParseZone(value).value.canonical), [], reply)
  {
    hide ParseZone, ReadZone, SessionTimeZoneSQL, Obeys;
    OwnEffect(value);
    if reply.Accepted? {
      CanonicalParses(value);
      ParsedMeaning(ParseZone(value).value.canonical, reply.after);
    }
  }

  /** One action keeps the mirror if and only if the driver's conclusion is right. */
  lemma {:induction false} ActionMirrors(s: Session, a: Action, value: string)
    requires ParseZone(value).Some? && Mirrors(s) && ValidAction(a) && Serves(s, a, ParseZone(value).value)
    ensures Mirrors(After(s, a, ParseZone(value).value)) <==> FollowedBy(s, a)
  {
    hide ServerAllows, ParseZone, SessionTimeZoneSQL, Answers, Obeys, ValidBatch, Readable, AfterBatch, Followed, Mirrors;
    match a {
      case Send(b, args, answer, query) =>
        if !s.bad {
          BatchMirrors(s, b, args, answer, query);
        }
      case StartTx =>
        StepMirrors(s, Begin, value);
      case EndTx(commit, reply) =>
        EndAllowed(s.server, commit, reply);
        StepMirrors(s, Finish(EndText(commit), reply), value);
      case Recycle(rollback, configure) =>
        EndAllowed(s.server, false, rollback);
        ConfigureAllowed(AfterRollback(s, rollback).server, value, configure);
        StepMirrors(s, Reset(rollback, configure), value);
    }
  }

  ghost predicate ServedRun(s: Session, actions: seq<Action>, zone: Zone)
    decreases |actions|
  {
    actions != [] ==>
      && ValidAction(actions[0]) && Serves(s, actions[0], zone)
      && ServedRun(After(s, actions[0], zone), actions[1..], zone)
  }

  /** At every point of the run the connection is retired or has the server's zone. */
  predicate MirroredThroughout(s: Session, actions: seq<Action>, zone: Zone)
    requires forall i :: 0 <= i < |actions| ==> ValidAction(actions[i])
    decreases |actions|
  {
    Mirrors(s) && (actions != [] ==> MirroredThroughout(After(s, actions[0], zone), actions[1..], zone))
  }

  predicate FollowedThroughout(s: Session, actions: seq<Action>, zone: Zone)
    requires forall i :: 0 <= i < |actions| ==> ValidAction(actions[i])
    decreases |actions|
  {
    actions != [] ==>
      FollowedBy(s, actions[0]) && FollowedThroughout(After(s, actions[0], zone), actions[1..], zone)
  }

  /**
   Over every run of queries, transactions and pool resets, however they are answered, the connection is retired or has
   the server's zone throughout if and only if at every query the zone stayed, or the driver saw no error and the query
   begins with a head it can see, or the connection broke.
   */
  lemma {:induction false} MirrorOfServer(s: Session, actions: seq<Action>, value: string)
    requires ParseZone(value).Some? && Mirrors(s) && ServedRun(s, actions, ParseZone(value).value)
    requires forall i :: 0 <= i < |actions| ==> ValidAction(actions[i])
    ensures MirroredThroughout(s, actions, ParseZone(value).value)
            <==> FollowedThroughout(s, actions, ParseZone(value).value)
    decreases |actions|
  {
    hide Mirrors, After, ParseZone, Serves, ValidAction, FollowedBy;
    if actions != [] {
      var zone := ParseZone(value).value;
      ActionMirrors(s, actions[0], value);
      if Mirrors(After(s, actions[0], zone)) {
        MirrorOfServer(After(s, actions[0], zone), actions[1..], value);
      } else {
        NotMirrored(After(s, actions[0], zone), actions[1..], zone);
      }
    }
  }

  lemma {:induction false} NotMirrored(s: Session, actions: seq<Action>, zone: Zone)
    requires !Mirrors(s) && forall i :: 0 <= i < |actions| ==> ValidAction(actions[i])
    ensures !MirroredThroughout(s, actions, zone)
  {
    hide Mirrors, After;
  }

  /** Only an accepted statement ends a transaction, and it changes nothing else. */
  lemma {:induction false} EndTxExact(s: Session, commit: bool, reply: Reply, zone: Zone)
    requires !s.bad
    ensures After(s, EndTx(commit, reply), zone) ==
            match reply
            case Accepted(after) => Session(s.location, false, false, after)
            case Rejected(after) => Session(s.location, false, s.inTx, after)
            case Lost => Session(s.location, true, s.inTx, s.server)
  {
    hide ReadZone, IsMutation, EndText;
    EndIgnored(commit);
    ReadNothing(EndText(commit), []);
  }

  /** A reset leaves a usable connection exactly when the server accepts the rollback, if one is due, and the zone. */
  lemma {:induction false} RecycleExact(s: Session, value: string, rollback: Reply, configure: Reply)
    requires !s.bad && ParseZone(value).Some?
    ensures var zone := ParseZone(value).value;
            var r := After(s, Recycle(rollback, configure), zone);
            && (!r.bad <==> configure.Accepted? && (s.inTx ==> rollback.Accepted?))
            && (!r.bad ==> r == Session(Some(zone.offset), false, false, configure.after))
  {
    hide ReadZone, IsMutation, ParseZone, SessionTimeZoneSQL;
    EndIgnored(false);
    ReadNothing(EndText(false), []);
    OwnEffect(value);
  }
}
