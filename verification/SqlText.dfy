/** The string functions that the time-zone statement recogniser is built from, on ASCII text. */
module SqlText {
  predicate IsSpace(c: char) {
    c == ' ' || c == '\t' || c == '\n' || c == '\r' || c == '\U{0b}' || c == '\U{0c}'
  }

  predicate Blank(s: string) {
    forall i :: 0 <= i < |s| ==> IsSpace(s[i])
  }

  function UpperChar(c: char): char {
    if 'a' <= c <= 'z' then c - 'a' + 'A' else c
  }

  function Upper(s: string): (r: string)
    ensures |r| == |s|
  {
    seq(|s|, i requires 0 <= i < |s| => UpperChar(s[i]))
  }

  function TrimLeft(s: string): (r: string)
  {
    if s != "" && IsSpace(s[0]) then TrimLeft(s[1..]) else s
  }

  function TrimRight(s: string): (r: string)
    decreases |s|
  {
    if s != "" && IsSpace(s[|s| - 1]) then TrimRight(s[..|s| - 1]) else s
  }

  function Trim(s: string): (r: string) {
    TrimRight(TrimLeft(s))
  }

  function TrimSemicolon(s: string): (r: string) {
    if s != "" && s[|s| - 1] == ';' then s[..|s| - 1] else s
  }

  /** strings.Join(strings.Fields(s), " "): the words of `s` separated by single spaces. */
  function Squeeze(s: string): (r: string)
    decreases |s|
  {
    if s == "" then ""
    else
      var head, c := s[..|s| - 1], s[|s| - 1];
      if IsSpace(c) then Squeeze(head)
      else if Squeeze(head) != "" && IsSpace(head[|head| - 1]) then Squeeze(head) + [' ', c]
      else Squeeze(head) + [c]
  }

  /** The index of the first `c`, or the length. */
  function IndexOf(s: string, c: char): (i: nat)
    ensures i <= |s| && (i < |s| ==> s[i] == c)
    ensures forall k :: 0 <= k < i ==> s[k] != c
  {
    if s == "" || s[0] == c then 0 else 1 + IndexOf(s[1..], c)
  }

  lemma {:induction false} IndexOfFirst(s: string, c: char, t: string)
    requires c !in s
    ensures IndexOf(s + [c] + t, c) == |s|
  {
    if s == "" {
      assert (s + [c] + t)[0] == c;
    } else {
      assert (s + [c] + t)[0] == s[0] && (s + [c] + t)[1..] == s[1..] + [c] + t;
      IndexOfFirst(s[1..], c, t);
    }
  }

  // ---- trimming ----

  predicate Tight(s: string) {
    s != "" && !IsSpace(s[0]) && !IsSpace(s[|s| - 1])
  }

  lemma {:induction false} TrimLeftBlank(b: string, s: string)
    requires Blank(b)
    ensures TrimLeft(b + s) == TrimLeft(s)
    decreases |b|
  {
    if b == "" {
      assert b + s == s;
    } else {
      assert (b + s)[1..] == b[1..] + s;
      TrimLeftBlank(b[1..], s);
    }
  }

  lemma {:induction false} TrimRightBlank(s: string, b: string)
    requires Blank(b)
    ensures TrimRight(s + b) == TrimRight(s)
    decreases |b|
  {
    if b == "" {
      assert s + b == s;
    } else {
      assert (s + b)[..|s + b| - 1] == s + b[..|b| - 1];
      TrimRightBlank(s, b[..|b| - 1]);
    }
  }

  lemma {:induction false} TrimTight(a: string, s: string, b: string)
    requires Blank(a) && Tight(s) && Blank(b)
    ensures Trim(a + s + b) == s
  {
    assert a + s + b == a + (s + b);
    TrimLeftBlank(a, s + b);
    assert TrimLeft(s + b) == s + b;
    TrimRightBlank(s, b);
  }

  /** Trimming removes blanks at both ends and nothing else. */
  lemma {:induction false} TrimLeftSplit(s: string) returns (a: string)
    ensures Blank(a) && s == a + TrimLeft(s)
  {
    hide IsSpace;
    if s != "" && IsSpace(s[0]) {
      var a' := TrimLeftSplit(s[1..]);
      a := [s[0]] + a';
      assert s == [s[0]] + s[1..];
    } else {
      a := "";
    }
  }

  lemma {:induction false} TrimRightSplit(s: string) returns (b: string)
    ensures s == TrimRight(s) + b
    decreases |s|
  {
    if s != "" && IsSpace(s[|s| - 1]) {
      var b' := TrimRightSplit(s[..|s| - 1]);
      b := b' + [s[|s| - 1]];
      assert s == s[..|s| - 1] + [s[|s| - 1]];
    } else {
      b := "";
    }
  }

  lemma {:induction false} TrimRightEnd(s: string)
    ensures var t := TrimRight(s); t != "" ==> !IsSpace(t[|t| - 1])
    ensures TrimRight(s) == "" ==> Blank(s)
    decreases |s|
  {
    hide IsSpace;
    if s != "" && IsSpace(s[|s| - 1]) {
      TrimRightEnd(s[..|s| - 1]);
      assert s == s[..|s| - 1] + [s[|s| - 1]];
    }
  }

  /** Trimmed text ends in something; only blanks trim to nothing. */
  lemma {:induction false} TrimEnd(s: string)
    ensures var t := Trim(s); t != "" ==> !IsSpace(t[|t| - 1])
    ensures Trim(s) == "" ==> Blank(s)
  {
    hide IsSpace, TrimLeft, TrimRight;
    TrimRightEnd(TrimLeft(s));
    var a := TrimLeftSplit(s);
  }

  // ---- squeezing ----

  lemma {:induction false} SqueezeBlank(s: string, b: string)
    requires Blank(b)
    ensures Squeeze(s + b) == Squeeze(s)
    decreases |b|
  {
    if b == "" {
      assert s + b == s;
    } else {
      assert (s + b)[..|s + b| - 1] == s + b[..|b| - 1];
      SqueezeBlank(s, b[..|b| - 1]);
    }
  }

  /** Leading blanks do not show. */
  lemma {:induction false} SqueezeLeading(b: string, s: string)
    requires Blank(b)
    ensures Squeeze(b + s) == Squeeze(s)
    decreases |s|
  {
    hide IsSpace, Blank;
    if s == "" {
      assert b + s == "" + b;
      SqueezeBlank("", b);
    } else {
      var n := |s| - 1;
      assert (b + s)[..|b + s| - 1] == b + s[..n];
      SqueezeLeading(b, s[..n]);
      if n == 0 {
        assert s[..n] == "";
      } else {
        assert (b + s[..n])[|b| + n - 1] == s[..n][n - 1];
      }
    }
  }

  /** A longer text squeezes to a continuation. */
  lemma {:induction false} SqueezePrefix(s: string, t: string)
    ensures Squeeze(s) <= Squeeze(s + t)
    decreases |t|
  {
    if t == "" {
      assert s + t == s;
    } else {
      assert (s + t)[..|s + t| - 1] == s + t[..|t| - 1];
      SqueezePrefix(s, t[..|t| - 1]);
    }
  }

  lemma {:induction false} SqueezeChar(s: string, c: char)
    requires !IsSpace(c)
    ensures Squeeze(s + [c]) == Squeeze(s) + [c] || Squeeze(s + [c]) == Squeeze(s) + [' ', c]
  {
    assert (s + [c])[..|s|] == s;
  }

  /** A word after nothing, or after a blank, is appended with a space in between where one is needed. */
  lemma {:induction false} SqueezeWord(s: string, w: string, n: nat)
    requires 1 <= n <= |w| && forall i :: 0 <= i < |w| ==> !IsSpace(w[i])
    requires s == "" || IsSpace(s[|s| - 1])
    ensures Squeeze(s + w[..n]) == (if Squeeze(s) == "" then "" else Squeeze(s) + " ") + w[..n]
    decreases n
  {
    hide IsSpace, Squeeze;
    var t := s + w[..n];
    assert t[..|t| - 1] == s + w[..n - 1] && t[|t| - 1] == w[n - 1];
    SqueezeLast(t);
    if n > 1 {
      SqueezeWord(s, w, n - 1);
      assert w[..n] == w[..n - 1] + [w[n - 1]];
      assert (s + w[..n - 1])[|s + w[..n - 1]| - 1] == w[n - 2];
    } else {
      assert s + w[..0] == s && w[..1] == [w[0]];
      SqueezeEmpty();
    }
  }

  lemma {:induction false} SqueezeEmpty()
    ensures Squeeze("") == ""
  {
  }

  lemma {:induction false} SqueezeLast(s: string)
    requires s != "" && !IsSpace(s[|s| - 1])
    ensures var head, c := s[..|s| - 1], s[|s| - 1];
            Squeeze(s) ==
            if Squeeze(head) != "" && head != "" && IsSpace(head[|head| - 1]) then Squeeze(head) + [' ', c]
            else Squeeze(head) + [c]
  {
  }

  // ---- what survives ----

  /** Trimming never takes what stands before a character that is no blank. */
  lemma {:induction false} TrimRightKeeps(k: string, b: string) returns (c: string)
    requires k != "" && !IsSpace(k[|k| - 1])
    ensures c <= b && TrimRight(k + b) == k + c
    decreases |b|
  {
    hide IsSpace;
    c := b;
    if b == "" {
      assert k + b == k;
    } else if IsSpace(b[|b| - 1]) {
      assert (k + b)[..|k + b| - 1] == k + b[..|b| - 1];
      c := TrimRightKeeps(k, b[..|b| - 1]);
    }
  }

  lemma {:induction false} TrimKeeps(a: string, k: string, b: string) returns (c: string)
    requires Blank(a) && Tight(k)
    ensures c <= b && Trim(a + (k + b)) == k + c
  {
    hide IsSpace, TrimRight;
    TrimLeftBlank(a, k + b);
    assert TrimLeft(k + b) == k + b;
    c := TrimRightKeeps(k, b);
  }

  lemma {:induction false} SqueezeHas(s: string, c: char)
    requires c in s && !IsSpace(c)
    ensures c in Squeeze(s)
    decreases |s|
  {
    hide IsSpace;
    var head, last := s[..|s| - 1], s[|s| - 1];
    assert s == head + [last];
    if last != c {
      SqueezeHas(head, c);
    }
  }

  lemma {:induction false} UpperHas(s: string, c: char)
    requires c in s
    ensures UpperChar(c) in Upper(s)
  {
    var i :| 0 <= i < |s| && s[i] == c;
    assert Upper(s)[i] == UpperChar(c);
  }
}
