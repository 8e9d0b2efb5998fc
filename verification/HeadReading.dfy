/** What the driver makes of any query text that may hold a time-zone assignment, down to the exact condition. */
module HeadReading {
  import opened Bytes
  import opened SqlText
  import opened TimeZoneSql
  import opened TimeZoneStatements
  import opened SessionZones

  // ---- when a text begins with a head ----

  predicate IsHeadChar(c: char) {
    'A' <= c <= 'Z' || c == '_' || c == '@' || c == '.' || c == ' '
  }

  /** Heads are words of capitals separated by single spaces. */
  lemma {:induction false} HeadShape(k: nat)
    requires k < |Heads|
    ensures var h := Heads[k];
            && h != "" && h[|h| - 1] != ' ' && forall i :: 0 <= i < |h| ==> IsHeadChar(h[i])
  {
    if k == 0 {
      assert |Heads[0]| == 27;
    }
  }

  lemma {:induction false} SameHead(a: nat, b: nat)
    requires a < |Heads| && b < |Heads| && Heads[a] <= Heads[b]
    ensures a == b
  {
    HeadSigns();
    assert forall i :: 0 <= i < |Heads[a]| ==> Heads[a][i] == Heads[b][i];
  }

  /** No head is another one cut off at a word. */
  lemma {:induction false} HeadsApart(a: nat, b: nat)
    requires a < |Heads| && b < |Heads|
    ensures !(Heads[a] + " " <= Heads[b])
  {
    PrefixChar(Heads[a], ' ', Heads[b]);
    if Heads[a] <= Heads[b] {
      SameHead(a, b);
    }
  }

  /** Four characters that tell the heads apart. */
  lemma {:induction false} HeadSigns()
    ensures forall k :: 0 <= k < |Heads| ==> |Heads[k]| > 7
    ensures forall k :: 0 <= k < |Heads| ==>
              (Heads[k][0], Heads[k][4], Heads[k][6], Heads[k][7]) ==
              (if k == 0 then ('A', 'R', 'S', 'E') else if k == 1 then ('A', 'R', 'S', 'Y')
               else if k == 2 then ('S', 'T', 'M', 'E') else if k == 3 then ('S', 'S', 'S', 'S')
               else if k == 4 then ('S', '@', 'T', 'I') else ('S', '@', 'S', 'E'))
  {
  }

  lemma {:induction false} PrefixChar(h: string, c: char, t: string)
    ensures h + [c] <= t <==> h <= t && |t| > |h| && t[|h|] == c
  {
    if h + [c] <= t {
      assert (h + [c])[|h|] == c;
      assert h == (h + [c])[..|h|];
    }
  }

  /** The words are a head, or go on after one. */
  predicate IsHead(words: string) {
    exists k :: 0 <= k < |Heads| && Heads[k] == words
  }

  predicate GoesOn(words: string) {
    exists k :: 0 <= k < |Heads| && Heads[k] + " " <= words
  }

  /** `t` is words in capitals, then a blank or not, then a character that no head contains. */
  lemma {:induction false} HeadAgainst(t: string, words: string, gap: bool, c: char, k: nat)
    requires k < |Heads| && !IsHeadChar(c) && '=' !in words
    requires words + (if gap then " " else "") + [c] <= t
    ensures BeginsWith(t, Heads[k])
            <==> Heads[k] + " " <= words || (Heads[k] == words && (gap || c == '='))
  {
    hide IsHeadChar;
    var h, p := Heads[k], words + (if gap then " " else "") + [c];
    HeadShape(k);
    assert forall i :: 0 <= i < |p| ==> t[i] == p[i];
    assert forall i :: 0 <= i < |words| ==> t[i] == words[i];
    assert t[|words|] == if gap then ' ' else c;
    assert gap ==> t[|words| + 1] == c;
    if |h| > |words| {
      LongHead(t, words, gap, c, k);
    } else if |h| == |words| {
      assert h <= t <==> h == words;
      assert h == words ==> (h + " " <= t <==> t[|h|] == ' ') && (h + "=" <= t <==> t[|h|] == '=');
      SpaceIsHeadChar();
    } else {
      assert h <= t <==> h <= words;
      PrefixChar(h, ' ', t);
      PrefixChar(h, ' ', words);
      PrefixChar(h, '=', t);
    }
  }

  lemma {:induction false} SpaceIsHeadChar()
    ensures IsHeadChar(' ')
  {
  }

  lemma {:induction false} LongHead(t: string, words: string, gap: bool, c: char, k: nat)
    requires k < |Heads| && |Heads[k]| > |words| && !IsHeadChar(c)
    requires |t| > |words| && t[|words|] == (if gap then ' ' else c)
    requires gap ==> |t| > |words| + 1 && t[|words| + 1] == c
    ensures !(Heads[k] <= t)
  {
    hide IsHeadChar;
    var h := Heads[k];
    HeadShape(k);
    assert IsHeadChar(h[|words|]);
    if gap && |h| == |words| + 1 {
      assert h[|words|] != ' ';
    } else if gap {
      assert IsHeadChar(h[|words| + 1]);
    }
  }

  /** Words and gaps that the driver reads as such, at the front of a query. */
  predicate ReadWords(words: seq<string>, gaps: seq<Gap>) {
    words == [] || ValidWords(words, gaps)
  }

  /** A character that ends a word: it belongs to none, and is no blank. */
  predicate Stops(c: char) {
    !IsWordChar(c) && !IsSpace(c)
  }

  lemma {:induction false} StopIsNoHeadChar(c: char)
    requires Stops(c)
    ensures !IsHeadChar(c) && UpperChar(c) == c
  {
  }

  lemma {:induction false} EqualsStops()
    ensures Stops('=') && Stops('-') && !IsHeadChar('=') && !IsHeadChar('-')
  {
  }

  /** The words of a query, squeezed, and the first character after them. */
  lemma {:induction false} SqueezeQuery(lead: Gap, words: seq<string>, gaps: seq<Gap>, more: string)
    requires ValidGap(lead) && |words| == |gaps| && ReadWords(words, gaps)
    requires var m := Strip(None, more); m != "" ==> Stops(m[0])
    ensures var m := Strip(None, more);
            var t := Squeeze(Strip(None, GapText(lead) + (Spread(words, gaps) + more)));
            var gap := words != [] && gaps[|gaps| - 1] != [];
            if m == "" then t == JoinWords(words)
            else JoinWords(words) + (if gap then " " else "") + [m[0]] <= t
  {
    hide Strip, GapText, GapBlank, ValidGap, Spread, SpreadBlank, Squeeze, IsWord, ReadWords, JoinWords, Stops;
    var m, a := Strip(None, more), SpreadBlank(words, gaps);
    StripGap(lead, Spread(words, gaps) + more);
    WordsAndGaps(words, gaps);
    StripSpread(words, gaps, more);
    GapIsBlank(lead);
    SqueezeLeading(GapBlank(lead), a + m);
    SqueezedWords(words, gaps);
    if m != "" {
      StopIsNoSpace(m[0]);
      SqueezeBeyond(a, m);
    } else {
      assert a + m == a;
    }
  }

  lemma {:induction false} StopIsNoSpace(c: char)
    requires Stops(c)
    ensures !IsSpace(c)
  {
  }

  lemma {:induction false} SqueezedWords(words: seq<string>, gaps: seq<Gap>)
    requires |words| == |gaps| && ReadWords(words, gaps)
    ensures var a := SpreadBlank(words, gaps);
            && Squeeze(a) == JoinWords(words)
            && (a != "" && Squeeze(a) != "" && IsSpace(a[|a| - 1]) <==> words != [] && gaps[|gaps| - 1] != [])
  {
    hide Squeeze, SpreadBlank, ValidWords, JoinWords, IsSpace;
    NoWords(words, gaps);
    SqueezeEmpty();
    if words != [] {
      var a := SpreadBlank(words, gaps);
      SqueezeSpread("", words, gaps);
      assert "" + a == a && "" + JoinWords(words) == JoinWords(words);
      SpreadEnd(words, gaps);
      JoinNonEmpty(words, gaps);
    }
  }

  lemma {:induction false} SqueezeBeyond(a: string, m: string)
    requires m != "" && !IsSpace(m[0])
    ensures var gap := a != "" && Squeeze(a) != "" && IsSpace(a[|a| - 1]);
            Squeeze(a) + (if gap then " " else "") + [m[0]] <= Squeeze(a + m)
  {
    hide Squeeze, IsSpace;
    var s := a + [m[0]];
    assert a + m == s + m[1..];
    SqueezePrefix(s, m[1..]);
    assert s[..|s| - 1] == a && s[|s| - 1] == m[0];
    SqueezeLast(s);
    assert Squeeze(a) + [' ', m[0]] == Squeeze(a) + " " + [m[0]];
    assert Squeeze(a) + [m[0]] == Squeeze(a) + "" + [m[0]];
  }

  lemma {:induction false} NoWords(words: seq<string>, gaps: seq<Gap>)
    requires |words| == |gaps|
    ensures words == [] ==> SpreadBlank(words, gaps) == "" && JoinWords(words) == ""
  {
  }

  lemma {:induction false} WordsAndGaps(words: seq<string>, gaps: seq<Gap>)
    requires |words| == |gaps| && ReadWords(words, gaps)
    ensures forall i :: 0 <= i < |words| ==> IsWord(words[i]) && ValidGap(gaps[i])
  {
    hide IsWord, ValidGap, WrittenGap;
  }

  lemma {:induction false} JoinNonEmpty(words: seq<string>, gaps: seq<Gap>)
    requires words != [] && ValidWords(words, gaps)
    ensures JoinWords(words) != ""
  {
    hide ValidGap, WrittenGap;
    assert IsWord(words[0]);
    JoinFirst(words);
  }

  /** The squeezed words end in a blank exactly when the last gap is not empty. */
  lemma {:induction false} SpreadEnd(words: seq<string>, gaps: seq<Gap>)
    requires words != [] && ValidWords(words, gaps)
    ensures var a := SpreadBlank(words, gaps);
            a != "" && (IsSpace(a[|a| - 1]) <==> gaps[|gaps| - 1] != [])
    decreases |words|
  {
    hide GapBlank, ValidGap, IsWord, IsSpace, ValidWords, SpreadBlank;
    TailWords(words, gaps);
    SpreadSplit(words, gaps);
    WordIsPlain(words[0]);
    GapIsBlank(gaps[0]);
    if |words| == 1 {
      NoGapBlank();
      BlankEnd(words[0], GapBlank(gaps[0]));
      assert words[0] + GapBlank(gaps[0]) + "" == words[0] + GapBlank(gaps[0]);
    } else {
      SpreadEnd(words[1..], gaps[1..]);
      var b := SpreadBlank(words[1..], gaps[1..]);
      var a := SpreadBlank(words, gaps);
      assert a[|a| - 1] == b[|b| - 1];
      assert gaps[1..][|gaps| - 2] == gaps[|gaps| - 1];
    }
  }

  lemma {:induction false} NoGapBlank()
    ensures GapBlank([]) == ""
  {
  }

  lemma {:induction false} BlankEnd(w: string, b: string)
    requires w != "" && !IsSpace(w[|w| - 1]) && Blank(b)
    ensures var s := w + b; IsSpace(s[|s| - 1]) <==> b != ""
  {
    hide IsSpace;
  }

  /**
   A query of words, gaps and anything that does not continue them is a mutation exactly when the words go on after a
   head, or are one and are followed by a gap, an equals sign or nothing.
   */
  lemma {:induction false} MutationDecided(lead: Gap, words: seq<string>, gaps: seq<Gap>, more: string)
    requires ValidGap(lead) && |words| == |gaps| && ReadWords(words, gaps)
    requires var m := Strip(None, more); m != "" ==> Stops(m[0])
    ensures var m, w := Strip(None, more), Upper(JoinWords(words));
            var gap := words != [] && gaps[|gaps| - 1] != [];
            IsMutation(GapText(lead) + (Spread(words, gaps) + more))
            <==> GoesOn(w) || (IsHead(w) && (gap || m == "" || m[0] == '='))
  {
    hide Strip, GapText, ValidGap, Spread, Squeeze, Upper, JoinWords, ReadWords, BeginsWith, Stops;
    var m, w := Strip(None, more), Upper(JoinWords(words));
    var gap := words != [] && gaps[|gaps| - 1] != [];
    var t := Squeeze(Strip(None, GapText(lead) + (Spread(words, gaps) + more)));
    SqueezeQuery(lead, words, gaps, more);
    if m == "" {
      forall k | 0 <= k < |Heads|
        ensures BeginsWith(Upper(t), Heads[k]) <==> Heads[k] + " " <= w || Heads[k] == w
      {
        WordsNoEquals(words, gaps);
        BeginsExactly(w, Heads[k]);
      }
    } else {
      StopIsNoHeadChar(m[0]);
      WordsNoEquals(words, gaps);
      UpperStarts(t, JoinWords(words), gap, m[0]);
      forall k | 0 <= k < |Heads|
        ensures BeginsWith(Upper(t), Heads[k]) <==> Heads[k] + " " <= w || (Heads[k] == w && (gap || m[0] == '='))
      {
        HeadAgainst(Upper(t), w, gap, m[0], k);
      }
    }
  }

  lemma {:induction false} BeginsExactly(w: string, h: string)
    requires '=' !in w
    ensures BeginsWith(w, h) <==> h + " " <= w || h == w
  {
    PrefixChar(h, '=', w);
  }

  lemma {:induction false} UpperStarts(t: string, words: string, gap: bool, c: char)
    requires words + (if gap then " " else "") + [c] <= t && UpperChar(c) == c
    ensures Upper(words) + (if gap then " " else "") + [c] <= Upper(t)
  {
    assert forall i :: 0 <= i < |words| + (if gap then 1 else 0) + 1 ==>
        t[i] == (words + (if gap then " " else "") + [c])[i];
  }

  lemma {:induction false} WordsNoEquals(words: seq<string>, gaps: seq<Gap>)
    requires |words| == |gaps| && ReadWords(words, gaps)
    ensures '=' !in Upper(JoinWords(words))
    decreases |words|
  {
    hide ValidGap, WrittenGap, ValidWords, IsWord;
    if words != [] {
      TailWords(words, gaps);
      JoinFirst(words);
      WordNoEquals(words[0]);
      if |words| > 1 {
        WordsNoEquals(words[1..], gaps[1..]);
        UpperJoin(words[0], JoinWords(words[1..]));
      }
    }
  }

  lemma {:induction false} WordNoEquals(w: string)
    requires IsWord(w)
    ensures '=' !in Upper(w)
  {
    assert forall i :: 0 <= i < |w| ==> IsWordChar(w[i]);
  }

  // ---- line comments that only the server sees ----

  function FirstUnspaced(g: Gap): (f: nat)
    ensures f <= |g| && (f < |g| ==> Unspaced(g[f])) && forall i :: 0 <= i < f ==> !Unspaced(g[i])
  {
    if g == [] || Unspaced(g[0]) then 0 else 1 + FirstUnspaced(g[1..])
  }

  predicate AllSpaced(g: Gap) {
    FirstUnspaced(g) == |g|
  }

  /** The gap up to the first comment that the driver does not see. */
  function SpacedPart(g: Gap): Gap {
    g[..FirstUnspaced(g)]
  }

  lemma {:induction false} SpacedIsValid(g: Gap)
    requires WrittenGap(g)
    ensures ValidGap(SpacedPart(g)) && (AllSpaced(g) ==> ValidGap(g) && SpacedPart(g) == g)
  {
    hide WrittenPiece, Unspaced;
  }

  lemma {:induction false} GapConcat(a: Gap, b: Gap)
    ensures GapText(a + b) == GapText(a) + GapText(b)
  {
    hide PieceText;
    if a == [] {
      assert a + b == b;
    } else {
      assert (a + b)[1..] == a[1..] + b;
      GapConcat(a[1..], b);
    }
  }

  /** What the driver keeps of a text that begins with two dashes: one of them, and another or a blank. */
  predicate Dashed(m: string) {
    m != "" && m[0] == '-' && (|m| > 1 ==> m[1] == '-' || m[1] == ' ')
  }

  lemma {:induction false} DashesStay(text: string, rest: string)
    requires text != "" && !IsSpace(text[0])
    ensures Dashed(Strip(None, "--" + text + rest))
  {
    hide Strip, AfterBlock, AfterLine, IsSpace;
    var s := "--" + text + rest;
    assert s[2] == text[0];
    StripOnce(None, s);
    assert s[1..] != "" && s[1..][0] == '-' && !OpensBlock(s[1..]);
    StripFirst(s[1..]);
  }

  lemma {:induction false} BrokenGap(g: Gap, rest: string) returns (y: string)
    requires WrittenGap(g) && !AllSpaced(g)
    ensures GapText(g) + rest == GapText(SpacedPart(g)) + y && Dashed(Strip(None, y))
  {
    hide Strip, Dashed, WrittenPiece, GapText, IsSpace;
    var f := FirstUnspaced(g);
    var text, tail := g[f].text, GapText(g[f + 1..]) + rest;
    GapConcat(g[..f], g[f..]);
    assert g[..f] + g[f..] == g;
    GapFirst(g[f..]);
    assert g[f..][1..] == g[f + 1..];
    y := "--" + text + ("\n" + tail);
    DashesStay(text, "\n" + tail);
    assert GapText(g[f..]) + rest == y;
  }

  lemma {:induction false} GapFirst(g: Gap)
    requires g != []
    ensures GapText(g) == PieceText(g[0]) + GapText(g[1..])
  {
  }

  lemma {:induction false} SpreadConcat(a: seq<string>, ga: seq<Gap>, b: seq<string>, gb: seq<Gap>)
    requires |a| == |ga| && |b| == |gb|
    ensures Spread(a + b, ga + gb) == Spread(a, ga) + Spread(b, gb)
  {
    hide GapText;
    if a == [] {
      assert a + b == b && ga + gb == gb;
    } else {
      assert (a + b)[1..] == a[1..] + b && (ga + gb)[1..] == ga[1..] + gb;
      SpreadConcat(a[1..], ga[1..], b, gb);
    }
  }

  /** The words and gaps up to the first comment that the driver does not see, in gap `i`. */
  function CutGaps(gaps: seq<Gap>, i: nat): (r: seq<Gap>)
    requires i < |gaps|
  {
    gaps[..i] + [SpacedPart(gaps[i])]
  }

  lemma {:induction false} Regroup(a: string, b: string, c: string)
    ensures a + (b + c) == a + b + c
  {
  }

  lemma {:induction false} BrokenSpread(words: seq<string>, gaps: seq<Gap>, i: nat, rest: string) returns (y: string)
    requires WrittenWords(words, gaps) && i < |gaps| && !AllSpaced(gaps[i])
    ensures Spread(words, gaps) + rest == Spread(words[..i + 1], CutGaps(gaps, i)) + y && Dashed(Strip(None, y))
  {
    assert |words| == |gaps| && WrittenGap(gaps[i]);
    hide Strip, Dashed, GapText, AllSpaced, Spread, WrittenWords, WrittenGap, SpacedPart;
    var w, front, cut := words[i], Spread(words[..i], gaps[..i]), GapText(SpacedPart(gaps[i]));
    y := BrokenGap(gaps[i], Spread(words[i + 1..], gaps[i + 1..]) + rest);
    SpreadAround(words, gaps, i, rest);
    Regroup(w, cut, y);
    Regroup(front, w + cut, y);
    SpreadCut(words, gaps, i, SpacedPart(gaps[i]));
  }

  lemma {:induction false} SpreadCut(words: seq<string>, gaps: seq<Gap>, i: nat, g: Gap)
    requires |words| == |gaps| && i < |gaps|
    ensures Spread(words[..i + 1], gaps[..i] + [g]) == Spread(words[..i], gaps[..i]) + (words[i] + GapText(g))
  {
    hide GapText, Spread;
    assert words[..i] + [words[i]] == words[..i + 1];
    SpreadConcat(words[..i], gaps[..i], [words[i]], [g]);
    SpreadOne(words[i], g);
  }

  lemma {:induction false} SpreadAround(words: seq<string>, gaps: seq<Gap>, i: nat, rest: string)
    requires |words| == |gaps| && i < |gaps|
    ensures Spread(words, gaps) + rest ==
            Spread(words[..i], gaps[..i])
            + (words[i] + (GapText(gaps[i]) + (Spread(words[i + 1..], gaps[i + 1..]) + rest)))
  {
    hide GapText, Spread;
    var b, gb := words[i..], gaps[i..];
    assert words[..i] + b == words && gaps[..i] + gb == gaps;
    SpreadConcat(words[..i], gaps[..i], b, gb);
    SpreadFirst(b, gb, rest);
    assert b[1..] == words[i + 1..] && gb[1..] == gaps[i + 1..];
    Regroup(Spread(words[..i], gaps[..i]), Spread(b, gb), rest);
    Regroup(words[i], GapText(gaps[i]), Spread(b[1..], gb[1..]) + rest);
  }

  lemma {:induction false} SpreadOne(w: string, g: Gap)
    ensures Spread([w], [g]) == w + GapText(g)
  {
    hide GapText;
    assert Spread([w][1..], [g][1..]) == "";
  }

  lemma {:induction false} CutIsValid(words: seq<string>, gaps: seq<Gap>, i: nat)
    requires WrittenWords(words, gaps) && i < |gaps| && forall j :: 0 <= j < i ==> AllSpaced(gaps[j])
    ensures ValidWords(words[..i + 1], CutGaps(gaps, i))
  {
    hide AllSpaced, IsWord, WrittenGap, ValidGap;
    forall j | 0 <= j <= i
      ensures ValidGap(CutGaps(gaps, i)[j]) && WrittenGap(CutGaps(gaps, i)[j])
    {
      SpacedIsValid(gaps[j]);
      LooseGap(CutGaps(gaps, i)[j]);
    }
  }

  // ---- which written statements the driver takes for time-zone statements ----

  /**
   No comment that the driver does not see stands before the last word of the head, or directly after it.
   */
  predicate Seen(st: Statement) {
    && AllSpaced(st.lead) && st.gaps != []
    && (forall i :: 0 <= i < |st.gaps| - 1 ==> AllSpaced(st.gaps[i]))
    && var last := st.gaps[|st.gaps| - 1]; last == [] || !Unspaced(last[0])
  }

  lemma {:induction false} JoinPrefix(words: seq<string>, j: nat)
    requires 0 < j < |words|
    ensures JoinWords(words[..j]) + " " <= JoinWords(words)
    decreases j
  {
    JoinFirst(words);
    JoinFirst(words[..j]);
    if j > 1 {
      JoinPrefix(words[1..], j - 1);
      assert words[..j][1..] == words[1..][..j - 1];
      assert words[..j][0] == words[0];
      var a, b := JoinWords(words[1..][..j - 1]), JoinWords(words[1..]);
      assert words[0] + " " + a + " " == words[0] + " " + (a + " ");
    } else {
      assert words[..1] == [words[0]];
    }
  }

  lemma {:induction false} UpperPrefix(a: string, b: string)
    requires a + " " <= b
    ensures Upper(a) + " " <= Upper(b)
  {
    PrefixChar(a, ' ', b);
    assert Upper(b)[|a|] == ' ';
    assert Upper(a) <= Upper(b);
    PrefixChar(Upper(a), ' ', Upper(b));
  }

  lemma {:induction false} PrefixOfPrefix(a: string, b: string, c: string)
    requires b <= c
    ensures a <= b ==> a <= c
  {
  }

  /** The words of a head, or the first of them, against the heads. */
  lemma {:induction false} CutHead(words: seq<string>, j: nat)
    requires 0 < j <= |words| && IsHead(Upper(JoinWords(words)))
    ensures var w := Upper(JoinWords(words[..j])); !GoesOn(w) && (IsHead(w) <==> j == |words|)
  {
    hide JoinWords, Upper;
    var w, whole := Upper(JoinWords(words[..j])), Upper(JoinWords(words));
    var h :| 0 <= h < |Heads| && Heads[h] == whole;
    if j < |words| {
      JoinPrefix(words, j);
      UpperPrefix(JoinWords(words[..j]), JoinWords(words));
      assert w + " " <= Heads[h];
      PrefixChar(w, ' ', Heads[h]);
    } else {
      assert words[..j] == words;
    }
    forall k | 0 <= k < |Heads|
      ensures !(Heads[k] + " " <= w) && (Heads[k] == w ==> j == |words|)
    {
      HeadsApart(k, h);
      PrefixOfPrefix(Heads[k] + " ", w, Heads[h]);
    }
  }

  /** A written assignment is taken for a time-zone statement exactly when its head can be seen, whatever follows. */
  lemma {:induction false} SeenExactly(st: Statement, rest: string)
    requires WrittenStatement(st)
    ensures IsMutation(Framed(st, rest)) <==> Seen(st)
  {
    hide IsMutation, Strip, GapText, Spread, OperandText, JoinWords, Upper, GoesOn, WrittenGap, IsWord, Unspaced, Dashed;
    var tail := "=" + (GapText(st.after) + (OperandText(st.operand) + rest));
    var n := |st.words|;
    HeadIn(Upper(JoinWords(st.words)));
    if !AllSpaced(st.lead) {
      UnseenLead(st, rest);
    } else if i :| 0 <= i < n && !AllSpaced(st.gaps[i]) && forall j :: 0 <= j < i ==> AllSpaced(st.gaps[j]) {
      SeenBroken(st, rest, i);
    } else {
      NoneBroken(st.gaps);
      SeenWhole(st, rest);
    }
  }

  lemma {:induction false} HeadIn(w: string)
    ensures w in Heads <==> IsHead(w)
  {
  }

  lemma {:induction false} NoneBroken(gaps: seq<Gap>)
    requires !exists i :: 0 <= i < |gaps| && !AllSpaced(gaps[i]) && forall j :: 0 <= j < i ==> AllSpaced(gaps[j])
    ensures forall i :: 0 <= i < |gaps| ==> AllSpaced(gaps[i])
  {
    hide AllSpaced;
    for i := 0 to |gaps|
      invariant forall j :: 0 <= j < i ==> AllSpaced(gaps[j])
    {
    }
  }

  lemma {:induction false} UnseenLead(st: Statement, rest: string)
    requires WrittenStatement(st) && !AllSpaced(st.lead)
    ensures !IsMutation(Framed(st, rest))
  {
    hide IsMutation, Strip, GapText, Spread, OperandText, IsWord, Unspaced, SpacedPart, AllSpaced;
    var more := Spread(st.words, st.gaps) + ("=" + (GapText(st.after) + (OperandText(st.operand) + rest)));
    var y := BrokenGap(st.lead, more);
    SpacedIsValid(st.lead);
    EqualsStops();
    MutationDecided(SpacedPart(st.lead), [], [], y);
    assert Spread([], []) + y == y by {
      SpreadNothing();
    }
    NoHead();
  }

  lemma {:induction false} NoHead()
    ensures var w := Upper(JoinWords([])); !GoesOn(w) && !IsHead(w)
  {
    assert Upper(JoinWords([])) == "";
  }

  lemma {:induction false} SeenBroken(st: Statement, rest: string, i: nat)
    requires WrittenStatement(st) && AllSpaced(st.lead) && i < |st.gaps| && !AllSpaced(st.gaps[i])
    requires forall j :: 0 <= j < i ==> AllSpaced(st.gaps[j])
    ensures IsMutation(Framed(st, rest)) <==> Seen(st)
  {
    hide IsMutation, Strip, GapText, Spread, OperandText, JoinWords, Upper, GoesOn, IsHead, IsWord, WrittenGap;
    var tail := "=" + (GapText(st.after) + (OperandText(st.operand) + rest));
    var words, gaps := st.words[..i + 1], CutGaps(st.gaps, i);
    var y := BrokenSpread(st.words, st.gaps, i, tail);
    SpacedIsValid(st.lead);
    CutIsValid(st.words, st.gaps, i);
    EqualsStops();
    MutationDecided(st.lead, words, gaps, y);
    HeadIn(Upper(JoinWords(st.words)));
    CutHead(st.words, i + 1);
    assert gaps[|gaps| - 1] == SpacedPart(st.gaps[i]);
  }

  lemma {:induction false} SeenWhole(st: Statement, rest: string)
    requires WrittenStatement(st) && AllSpaced(st.lead) && forall i :: 0 <= i < |st.gaps| ==> AllSpaced(st.gaps[i])
    ensures IsMutation(Framed(st, rest)) && Seen(st)
  {
    hide IsMutation, Strip, GapText, Spread, OperandText, JoinWords, Upper, GoesOn, IsHead, IsWord, WrittenGap, Unspaced;
    var tail := GapText(st.after) + (OperandText(st.operand) + rest);
    var n := |st.words|;
    SpacedIsValid(st.lead);
    CutIsValid(st.words, st.gaps, n - 1);
    SpacedIsValid(st.gaps[n - 1]);
    assert CutGaps(st.gaps, n - 1) == st.gaps && st.words[..n] == st.words;
    EqualsStops();
    StripPlain("=", tail);
    assert Strip(None, "=" + tail)[0] == '=';
    MutationDecided(st.lead, st.words, st.gaps, "=" + tail);
    HeadIn(Upper(JoinWords(st.words)));
    CutHead(st.words, n);
    LastSpaced(st.gaps[n - 1]);
  }

  lemma {:induction false} LastSpaced(g: Gap)
    requires AllSpaced(g)
    ensures g == [] || !Unspaced(g[0])
  {
    hide Unspaced;
  }

  // ---- when nothing is read from a statement whose head is seen ----

  /** Normalising takes blanks from the front and some of the end. */
  lemma {:induction false} NormalisedKeeps(a: string, k: string, b: string) returns (c: string)
    requires Blank(a) && Tight(k) && k[|k| - 1] != ';'
    ensures c <= b && Trim(TrimSemicolon(Trim(a + (k + b)))) == k + c
  {
    hide Trim, IsSpace;
    var c1 := TrimKeeps(a, k, b);
    var c2 := if c1 != "" && c1[|c1| - 1] == ';' then c1[..|c1| - 1] else c1;
    assert TrimSemicolon(k + c1) == k + c2;
    c := TrimKeeps("", k, c2);
    assert "" + (k + c2) == k + c2;
    PrefixOfPrefix(c, c2, b);
  }

  /** No text, or one that stands for no zone. */
  predicate NoZone(r: Option<Assignment>) {
    r.Some? ==> r.value.Literal? && ParseZone(r.value.value).None?
  }

  lemma {:induction false} UnreadIsUnknown(query: string, args: seq<Arg>)
    requires IsMutation(query) && NoZone(Recognise(query))
    ensures ReadZone(query, args) == Unknown
  {
    hide IsMutation, Recognise, ParseZone;
  }

  /** A text whose first sign is a dash before the equals sign is no assignment. */
  lemma {:induction false} DashBeforeEquals(words: string, b: string)
    requires '=' !in words
    ensures AssignmentIn(words + ("-" + b)).None?
  {
    hide Squeeze, AssignedValue, Trim, Upper, IsHeadChar;
    var q := words + ("-" + b);
    var equal := IndexOf(q, '=');
    if equal < |q| {
      assert forall i :: 0 <= i < |words| ==> q[i] == words[i];
      assert q[|words|] == '-';
      var lhs := q[..equal];
      assert lhs[|words|] == '-';
      EqualsStops();
      SqueezeHas(lhs, '-');
      UpperHas(Squeeze(lhs), '-');
      NoHeadHas('-', Upper(Squeeze(lhs)));
    }
  }

  lemma {:induction false} NoHeadHas(c: char, s: string)
    requires c in s && !IsHeadChar(c)
    ensures s !in Heads
  {
    hide IsHeadChar;
    if s in Heads {
      var k :| 0 <= k < |Heads| && Heads[k] == s;
      HeadShape(k);
    }
  }

  /** Neither a value nor a zone begins with a dash and another dash or a blank. */
  lemma {:induction false} DashIsNoZone(r: string)
    requires Dashed(r)
    ensures NoZone(AssignedValue(r))
  {
    hide Closing, Undouble, DigitText, TwoDigits;
    DashStaysFirst(r);
    UpperDash(Trim(r));
  }

  lemma {:induction false} DashStaysFirst(r: string)
    requires Dashed(r)
    ensures Dashed(Trim(r))
  {
    hide TrimRight;
    assert r == "" + ("-" + r[1..]);
    var c := TrimKeeps("", "-", r[1..]);
    assert c != "" ==> c[0] == r[1..][0];
  }

  lemma {:induction false} UpperDash(v: string)
    requires v != "" && (v[0] == '-' || v[0] == '?')
    ensures Upper(v) != "UTC" && Upper(v) != "Z"
  {
    assert Upper(v)[0] == v[0];
  }

  /** Nor does anything visible behind the operand leave a value. */
  lemma {:induction false} MoreIsNoZone(o: Operand, z: string)
    requires ValidOperand(o) && z != "" && !IsQuote(z[0]) && !IsSpace(z[|z| - 1])
    ensures NoZone(AssignedValue(OperandText(o) + z))
  {
    match o {
      case Placeholder => MarkIsNoZone("?" + z);
      case Quoted(value, quote) => QuotedAndMore(value, quote, z);
    }
  }

  lemma {:induction false} MarkIsNoZone(r: string)
    requires |r| > 1 && r[0] == '?'
    ensures NoZone(AssignedValue(r))
  {
    hide Closing, Undouble, DigitText, TwoDigits, TrimRight;
    assert r == "" + ("?" + r[1..]);
    var c := TrimKeeps("", "?", r[1..]);
    UpperDash(Trim(r));
  }

  lemma {:induction false} QuotedAndMore(value: string, quote: char, z: string)
    requires IsQuote(quote) && z != "" && z[0] != quote && !IsSpace(z[|z| - 1])
    ensures AssignedValue(QuotedValue(value, quote) + z) == None
  {
    hide Closing, Undouble, Double, Trim, Blank, IsSpace;
    var s := QuotedValue(value, quote) + z;
    ClosingBefore([quote], value, quote, z);
    assert s == [quote] + Double(value, quote) + [quote] + z;
    var i := 1 + |Double(value, quote)|;
    assert s[i + 1..] == z;
    TrimEnd(z);
    LastOfTail(z, 0);
    assert z[0..] == z;
  }

  lemma {:induction false} ClosingBefore(pre: string, value: string, quote: char, z: string)
    requires z != "" ==> z[0] != quote
    ensures Closing(pre + Double(value, quote) + [quote] + z, quote, |pre|) == Some(|pre| + |Double(value, quote)|)
    decreases |value|
  {
    var s := pre + Double(value, quote) + [quote] + z;
    if value != "" {
      var chunk := if value[0] == quote then [quote, quote] else [value[0]];
      ClosingBefore(pre + chunk, value[1..], quote, z);
      assert s == pre + chunk + Double(value[1..], quote) + [quote] + z;
    }
  }

  /** Something that is neither a blank nor a semicolon, and does not continue a quoted value. */
  predicate Visible(r: string) {
    r != "" && !IsQuote(r[0]) && exists i :: 0 <= i < |r| && !IsSpace(r[i]) && r[i] != ';'
  }

  /** The assignment in a core with more behind it. */
  lemma {:induction false} CoreAndMore(st: Statement, b: string)
    requires WrittenStatement(st) && ValidWords(st.words, st.gaps) && ValidGap(st.after)
    requires b != "" && !IsQuote(b[0]) && !IsSpace(b[|b| - 1])
    ensures NoZone(AssignmentIn(Core(st) + b))
  {
    assert |st.words| == |st.gaps|;
    hide SpreadBlank, GapBlank, OperandText, AssignedValue, Trim, Squeeze, ValidWords, JoinWords, Upper, IsSpace, IsQuote,
         ParseZone, WrittenWords, WrittenGap, ValidGap;
    var head, o := SpreadBlank(st.words, st.gaps), OperandText(st.operand);
    var q := Core(st) + b;
    assert q == head + ['='] + (GapBlank(st.after) + (o + b));
    HeadReads(st.words, st.gaps, GapBlank(st.after) + (o + b));
    GapIsBlank(st.after);
    TightOperand(st.operand, b);
    TrimTight(GapBlank(st.after), o + b, "");
    assert GapBlank(st.after) + (o + b) + "" == GapBlank(st.after) + (o + b);
    MoreIsNoZone(st.operand, b);
  }

  lemma {:induction false} TightOperand(o: Operand, b: string)
    requires ValidOperand(o) && b != "" && !IsSpace(b[|b| - 1])
    ensures Tight(OperandText(o) + b)
  {
    hide Double;
  }

  /** The recogniser finds the head before the equals sign. */
  lemma {:induction false} HeadReads(words: seq<string>, gaps: seq<Gap>, rest: string)
    requires words != [] && ValidWords(words, gaps) && Upper(JoinWords(words)) in Heads
    ensures AssignmentIn(SpreadBlank(words, gaps) + ['='] + rest) == AssignedValue(Trim(rest))
  {
    assert |words| == |gaps|;
    hide SpreadBlank, AssignedValue, Trim, Squeeze, ValidWords, JoinWords, Upper;
    var head := SpreadBlank(words, gaps);
    var q := head + ['='] + rest;
    SpreadProperties(words, gaps);
    IndexOfFirst(head, '=', rest);
    assert q[..|head|] == head && q[|head| + 1..] == rest;
    SqueezeSpread("", words, gaps);
    SqueezeEmpty();
    assert "" + head == head && "" + JoinWords(words) == JoinWords(words);
  }

  /** A head that is seen, with a comment that is not seen in the gap after it. */
  lemma {:induction false} BrokenAfterHead(st: Statement, rest: string)
    requires WrittenStatement(st) && Seen(st) && !AllSpaced(st.gaps[|st.gaps| - 1])
    ensures Recognise(Framed(st, rest)).None?
  {
    hide Strip, GapText, Spread, OperandText, JoinWords, Upper, IsWord, WrittenGap, AssignmentIn, Unspaced, Trim, Squeeze,
         SpreadBlank, GapBlank, Tight, ValidWords, Blank, AllSpaced, SpacedPart, CutGaps;
    var n := |st.words|;
    var tail := "=" + (GapText(st.after) + (OperandText(st.operand) + rest));
    var gaps := CutGaps(st.gaps, n - 1);
    var y := BrokenSpread(st.words, st.gaps, n - 1, tail);
    assert st.words[..n] == st.words;
    SpacedIsValid(st.lead);
    CutIsValid(st.words, st.gaps, n - 1);
    CutLength(st.gaps, n - 1);
    StripGap(st.lead, Spread(st.words, gaps) + y);
    WordsAndGaps(st.words, gaps);
    StripSpread(st.words, gaps, y);
    GapIsBlank(st.lead);
    SpreadProperties(st.words, gaps);
    var a, m := SpreadBlank(st.words, gaps), Strip(None, y);
    TightDash(a);
    assert a + m == (a + "-") + m[1..];
    var c := NormalisedKeeps(GapBlank(st.lead), a + "-", m[1..]);
    DashBeforeEquals(a, c);
    assert a + ("-" + c) == a + "-" + c;
  }

  lemma {:induction false} CutLength(gaps: seq<Gap>, i: nat)
    requires i + 1 == |gaps|
    ensures |CutGaps(gaps, i)| == |gaps|
  {
  }

  lemma {:induction false} TightDash(a: string)
    requires a != "" && !IsSpace(a[0])
    ensures Tight(a + "-")
  {
  }

  /** A comment that is not seen between the equals sign and the operand. */
  lemma {:induction false} BrokenAfterEquals(st: Statement, rest: string)
    requires WrittenStatement(st) && Seen(st) && AllSpaced(st.gaps[|st.gaps| - 1]) && !AllSpaced(st.after)
    ensures NoZone(Recognise(Framed(st, rest)))
  {
    hide Strip, GapText, Spread, OperandText, JoinWords, Upper, IsWord, WrittenGap, AssignmentIn, Unspaced, Trim, Squeeze,
         SpreadBlank, GapBlank, Tight, ValidWords, Blank, SpacedPart, ParseZone, AssignedValue;
    var after := SpacedPart(st.after);
    var y := BrokenGap(st.after, OperandText(st.operand) + rest);
    SpacedIsValid(st.lead);
    SpacedIsValid(st.after);
    AllValid(st);
    StripGap(st.lead, Spread(st.words, st.gaps) + ("=" + (GapText(after) + y)));
    WordsAndGaps(st.words, st.gaps);
    StripSpread(st.words, st.gaps, "=" + (GapText(after) + y));
    StripPlain("=", GapText(after) + y);
    StripGap(after, y);
    GapIsBlank(st.lead);
    GapIsBlank(after);
    SpreadProperties(st.words, st.gaps);
    var a, m := SpreadBlank(st.words, st.gaps), Strip(None, y);
    var k := a + "=" + GapBlank(after);
    assert a + ("=" + (GapBlank(after) + m)) == (k + "-") + m[1..];
    assert k[0] == a[0];
    TightDash(k);
    var c := NormalisedKeeps(GapBlank(st.lead), k + "-", m[1..]);
    assert k + "-" + c == a + ['='] + (GapBlank(after) + ("-" + c));
    HeadReads(st.words, st.gaps, GapBlank(after) + ("-" + c));
    TightOne('-');
    var d := TrimKeeps(GapBlank(after), "-", c);
    PrefixOfPrefix(d, c, m[1..]);
    assert d != "" ==> d[0] == m[1..][0] == m[1];
    DashIsNoZone("-" + d);
  }

  lemma {:induction false} TightOne(c: char)
    requires !IsSpace(c)
    ensures Tight([c])
  {
  }

  lemma {:induction false} AllValid(st: Statement)
    requires WrittenStatement(st) && Seen(st) && AllSpaced(st.gaps[|st.gaps| - 1])
    ensures ValidWords(st.words, st.gaps)
  {
    hide AllSpaced, IsWord, WrittenGap, ValidGap, Unspaced;
    var n := |st.gaps|;
    forall i | 0 <= i < n
      ensures ValidGap(st.gaps[i])
    {
      assert AllSpaced(st.gaps[i]);
      SpacedIsValid(st.gaps[i]);
    }
  }

  /** Something visible behind the operand. */
  lemma {:induction false} VisibleBehind(st: Statement, rest: string)
    requires WrittenStatement(st) && ValidWords(st.words, st.gaps) && ValidGap(st.lead) && ValidGap(st.after)
    requires rest != "" && !IsQuote(rest[0]) && Visible(Strip(None, rest))
    ensures NoZone(Recognise(Framed(st, rest)))
  {
    hide AssignmentIn, NoZone, Normalised;
    var d := CoreStays(st, rest);
    CoreAndMore(st, d);
  }

  lemma {:induction false} CoreStays(st: Statement, rest: string) returns (d: string)
    requires WrittenStatement(st) && ValidWords(st.words, st.gaps) && ValidGap(st.lead) && ValidGap(st.after)
    requires rest != "" && !IsQuote(rest[0]) && Visible(Strip(None, rest))
    ensures d != "" && !IsQuote(d[0]) && !IsSpace(d[|d| - 1]) && Normalised(Framed(st, rest)) == Core(st) + d
  {
    assert |st.words| == |st.gaps| && ValidOperand(st.operand);
    CoreTight(st);
    GapIsBlank(st.lead);
    hide WrittenStatement, ValidWords, ValidGap, Core, Framed, GapBlank, Strip, Trim, TrimSemicolon, Blank, IsSpace, IsQuote,
         Visible, Tight, ValidOperand;
    StripFramed(st, rest);
    d := VisibleStays(GapBlank(st.lead), Core(st), Strip(None, rest));
    NormalisedEnd(Framed(st, rest));
    LastOfBoth(Core(st), d);
  }

  lemma {:induction false} LastOfBoth(a: string, d: string)
    requires d != ""
    ensures (a + d)[|a + d| - 1] == d[|d| - 1]
  {
  }

  lemma {:induction false} VisibleStays(a: string, core: string, r: string) returns (d: string)
    requires Blank(a) && Tight(core) && Visible(r)
    ensures d != "" && !IsQuote(d[0]) && Trim(TrimSemicolon(Trim(a + (core + r)))) == core + d
  {
    hide Trim, TrimSemicolon, Tight, Blank, IsSpace, IsQuote;
    var i :| 0 <= i < |r| && !IsSpace(r[i]) && r[i] != ';';
    var z := r[..i + 1];
    assert core + r == (core + z) + r[i + 1..];
    TightMore(core, z);
    LastOfBoth(core, z);
    var c := NormalisedKeeps(a, core + z, r[i + 1..]);
    d := z + c;
    assert core + z + c == core + d;
  }

  lemma {:induction false} CoreTight(st: Statement)
    requires WrittenStatement(st) && ValidWords(st.words, st.gaps)
    ensures Tight(Core(st))
  {
    hide SpreadBlank, GapBlank, OperandText, AssignedValue, ValidWords, Upper, JoinWords;
    SpreadProperties(st.words, st.gaps);
    OperandRead(st.operand);
  }

  lemma {:induction false} TightMore(a: string, z: string)
    requires Tight(a) && z != "" && !IsSpace(z[|z| - 1])
    ensures Tight(a + z)
  {
  }

  lemma {:induction false} NormalisedEnd(query: string)
    ensures var q := Normalised(query); q != "" ==> !IsSpace(q[|q| - 1])
  {
    TrimEnd(TrimSemicolon(Trim(Strip(None, query))));
  }

  /** An assignment that is seen but broken later, or followed by something visible, retires the connection. */
  lemma {:induction false} SeenButUnread(st: Statement, rest: string, args: seq<Arg>)
    requires WrittenStatement(st) && Seen(st)
    requires !AllSpaced(st.gaps[|st.gaps| - 1]) || !AllSpaced(st.after)
             || (rest != "" && !IsQuote(rest[0]) && Visible(Strip(None, rest)))
    ensures ReadZone(Framed(st, rest), args) == Unknown
  {
    hide IsMutation, Recognise, Framed, Strip, Visible, AllSpaced, ReadZone;
    SeenExactly(st, rest);
    if !AllSpaced(st.gaps[|st.gaps| - 1]) {
      BrokenAfterHead(st, rest);
    } else if !AllSpaced(st.after) {
      BrokenAfterEquals(st, rest);
    } else {
      AllValid(st);
      SpacedIsValid(st.lead);
      SpacedIsValid(st.after);
      VisibleBehind(st, rest);
    }
    UnreadIsUnknown(Framed(st, rest), args);
  }
}
