/** The text form of a port, object.port[index], and reading it back. */
module PortNames {
  import opened Options
  import opened Decimals
  import opened PortOrder

  function Print(p: Port): string {
    p.objectName + "." + p.portName + "[" + Decimal(p.index) + "]"
  }

  predicate IsNameChar(c: char) {
    c != '.' && c != '['
  }

  /** Position k ends an object name: a dot with a port name behind it. */
  predicate Splits(s: string, k: nat) {
    k + 1 < |s| && s[k] == '.' && IsNameChar(s[k + 1])
  }

  /** The last such position below k, or -1. */
  function LastSplit(s: string, k: nat): (r: int)
    ensures -1 <= r < k
    ensures r >= 0 ==> Splits(s, r)
    ensures forall j :: r < j < k ==> !Splits(s, j)
  {
    if k == 0 then -1 else if Splits(s, k - 1) then k - 1 else LastSplit(s, k - 1)
  }

  /** The length of the longest start of s, from k on, whose characters all pass. */
  function RunEnd(s: string, k: nat, pass: char -> bool): (r: nat)
    requires k <= |s|
    ensures k <= r <= |s|
    ensures forall j :: k <= j < r ==> pass(s[j])
    ensures r < |s| ==> !pass(s[r])
    decreases |s| - k
  {
    if k < |s| && pass(s[k]) then RunEnd(s, k + 1, pass) else k
  }

  /** The index in brackets at position k, or 0 when there is none. */
  function IndexAt(s: string, k: nat): nat
    requires k <= |s|
  {
    if k < |s| && s[k] == '[' then
      var end := RunEnd(s, k + 1, IsDigit);
      if k + 1 < end < |s| && s[end] == ']' then ValueOf(s[k + 1..end]) else 0
    else 0
  }

  /** The longest object name on the first line, then the longest port name, then the index. */
  function Parse(s: string): Option<Port> {
    var dot := LastSplit(s, RunEnd(s, 0, c => c != '\n'));
    if dot < 0 then None
    else
      var end := RunEnd(s, dot + 1, IsNameChar);
      Some(Port(s[..dot], s[dot + 1..end], IndexAt(s, end)))
  }

  predicate WellNamed(p: Port) {
    && p.portName != ""
    && '.' !in p.portName && '[' !in p.portName
    && '\n' !in p.objectName
  }

  lemma {:induction false} ParsedIsWellNamed(s: string)
    ensures Parse(s).Some? ==> WellNamed(Parse(s).value)
  {
    var line := RunEnd(s, 0, c => c != '\n');
    var dot := LastSplit(s, line);
    if dot >= 0 {
      var end := RunEnd(s, dot + 1, IsNameChar);
      assert Splits(s, dot) && IsNameChar(s[dot + 1]);
      assert end > dot + 1;
      assert forall c :: c in s[dot + 1..end] ==> IsNameChar(c);
      assert forall c :: c in s[..dot] ==> c != '\n';
    }
  }

  /** A printed port is read back as the same port if and only if its port name is not empty
      and has neither a dot nor a bracket, and its object name has no line break. */
  lemma {:induction false} RoundTripExactly(p: Port)
    ensures Parse(Print(p)) == Some(p) <==> WellNamed(p)
  {
    ParsedIsWellNamed(Print(p));
    if WellNamed(p) {
      ReadsBack(p);
    }
  }

  lemma {:induction false} RunEndAt(s: string, k: nat, pass: char -> bool, end: nat)
    requires k <= end <= |s|
    requires forall j :: k <= j < end ==> pass(s[j])
    requires end < |s| ==> !pass(s[end])
    ensures RunEnd(s, k, pass) == end
  {
  }

  lemma {:induction false} LastSplitAt(s: string, k: nat, at: nat)
    requires at < k && Splits(s, at)
    requires forall j :: at < j < k ==> !Splits(s, j)
    ensures LastSplit(s, k) == at
  {
  }

  lemma {:induction false} Pieces(a: string, b: string, c: string)
    ensures var s, m, n := a + "." + b + "[" + c + "]", |a| + 1 + |b|, |a| + 1 + |b| + 1 + |c|;
            && |s| == n + 1 && s[|a|] == '.' && s[m] == '[' && s[n] == ']'
            && s[..|a|] == a && s[|a| + 1..m] == b && s[m + 1..n] == c
  {
  }

  /** s reads a.b[c] with the dot, the opening and the closing bracket at the given places. */
  ghost predicate LaidOut(s: string, a: string, b: string, c: string, dot: nat, open: nat, close: nat) {
    && dot < open < close == |s| - 1
    && s[dot] == '.' && s[open] == '[' && s[close] == ']'
    && s[..dot] == a && s[dot + 1..open] == b && s[open + 1..close] == c
  }

  lemma {:induction false} Runs(s: string, a: string, b: string, c: string, dot: nat, open: nat, close: nat)
    requires LaidOut(s, a, b, c, dot, open, close)
    requires '.' !in b && '[' !in b && IsDigits(c)
    ensures forall j :: dot < j < |s| ==> s[j] != '.'
    ensures RunEnd(s, dot + 1, IsNameChar) == open && RunEnd(s, open + 1, IsDigit) == close
  {
    forall j | dot < j < open
      ensures IsNameChar(s[j])
    {
      assert s[j] == b[j - (dot + 1)];
    }
    forall j | open < j < close
      ensures IsDigit(s[j])
    {
      assert s[j] == c[j - (open + 1)];
    }
    RunEndAt(s, dot + 1, IsNameChar, open);
    RunEndAt(s, open + 1, IsDigit, close);
  }

  lemma {:induction false} FindsTheDot(s: string, dot: nat, name: string)
    requires Splits(s, dot) && s[..dot] == name && '\n' !in name
    requires forall j :: dot < j < |s| ==> s[j] != '.'
    ensures LastSplit(s, RunEnd(s, 0, c => c != '\n')) == dot
  {
    forall j | 0 <= j <= dot
      ensures s[j] != '\n'
    {
      assert s[j] == if j < dot then name[j] else '.';
    }
    LastSplitAt(s, RunEnd(s, 0, c => c != '\n'), dot);
  }

  /** A text laid out in that way is read as its three parts. */
  lemma {:induction false} ParseLaidOut(s: string, a: string, b: string, c: string, dot: nat, open: nat, close: nat)
    requires LaidOut(s, a, b, c, dot, open, close)
    requires b != "" && '.' !in b && '[' !in b && '\n' !in a && c != "" && IsDigits(c)
    ensures Parse(s) == Some(Port(a, b, ValueOf(c)))
  {
    Runs(s, a, b, c, dot, open, close);
    assert s[dot + 1] == b[0];
    FindsTheDot(s, dot, a);
    assert IndexAt(s, open) == ValueOf(c);
  }

  lemma {:induction false} ReadsBack(p: Port)
    requires WellNamed(p)
    ensures Parse(Print(p)) == Some(p)
  {
    var dot := |p.objectName|;
    var open := dot + 1 + |p.portName|;
    Pieces(p.objectName, p.portName, Decimal(p.index));
    DecimalRoundTrip(p.index);
    ParseLaidOut(Print(p), p.objectName, p.portName, Decimal(p.index), dot, open, open + 1 + |Decimal(p.index)|);
  }

  /** A port is read if and only if, on the first line, some dot has a name behind it. */
  lemma {:induction false} ParsesExactly(s: string)
    ensures Parse(s).Some? <==> exists k: nat :: Splits(s, k) && '\n' !in s[..k]
  {
    var line := RunEnd(s, 0, c => c != '\n');
    forall k: nat | Splits(s, k) && line < k
      ensures '\n' in s[..k]
    {
      assert s[..k][line] == '\n';
    }
    var dot := LastSplit(s, line);
    if dot >= 0 {
      assert Splits(s, dot) && '\n' !in s[..dot];
    }
  }

  /** t starts with an index in brackets. */
  ghost predicate Bracketed(t: string, digits: string) {
    IsDigits(digits) && digits != "" && "[" + digits + "]" <= t
  }

  /** What stands behind the port name counts only if it starts with digits in brackets. */
  lemma {:induction false} IndexExactly(s: string, k: nat, digits: string)
    requires k <= |s|
    ensures Bracketed(s[k..], digits) ==> IndexAt(s, k) == ValueOf(digits)
    ensures (forall d :: !Bracketed(s[k..], d)) ==> IndexAt(s, k) == 0
  {
    if Bracketed(s[k..], digits) {
      var text, end := "[" + digits + "]", k + 1 + |digits|;
      forall j | 0 <= j < |text|
        ensures s[k + j] == text[j]
      {
        assert s[k..][j] == text[j];
      }
      forall j | k + 1 <= j < end
        ensures IsDigit(s[j])
      {
        assert s[j] == text[j - k];
      }
      assert s[end] == ']' by {
        assert text[end - k] == ']';
      }
      RunEndAt(s, k + 1, IsDigit, end);
      assert s[k + 1..end] == digits;
    } else if IndexAt(s, k) != 0 {
      var end := RunEnd(s, k + 1, IsDigit);
      assert s[k..][..end + 1 - k] == "[" + s[k + 1..end] + "]";
      assert Bracketed(s[k..], s[k + 1..end]);
    }
  }

  /** Without a bracket the index is 0. */
  lemma {:induction false} NoBracketNoIndex(a: string, b: string)
    requires b != "" && '.' !in b && '[' !in b && '\n' !in a
    ensures Parse(a + "." + b) == Some(Port(a, b, 0))
  {
    var s, dot := a + "." + b, |a|;
    assert s[dot] == '.' && s[..dot] == a && s[dot + 1..] == b;
    forall j | dot < j < |s|
      ensures IsNameChar(s[j])
    {
      assert s[j] == b[j - (dot + 1)];
    }
    FindsTheDot(s, dot, a);
    RunEndAt(s, dot + 1, IsNameChar, |s|);
    assert s[dot + 1..|s|] == b;
  }
}
