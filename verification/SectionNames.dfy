/** Renaming the sections of a checkpoint: every "cpu" in a name becomes "cpu" followed by the
    number of the checkpoint, filled with zeros to a common width. */
module SectionNames {
  import opened Decimals

  const CPU := "cpu"

  /** Whether "cpu" occurs in a name. */
  predicate HasCpu(s: string) {
    |s| >= 3 && (s[..3] == CPU || HasCpu(s[1..]))
  }

  /** Every occurrence of "cpu", from the left, followed by tag. */
  function Tagged(s: string, tag: string): string {
    if |s| < 3 then s
    else if s[..3] == CPU then CPU + tag + Tagged(s[3..], tag)
    else [s[0]] + Tagged(s[1..], tag)
  }

  /** The name that a section of checkpoint i of n gets. */
  function Rename(s: string, i: nat, n: nat): string
    requires i < n
  {
    Tagged(s, ZeroFilled(Decimal(i), |Decimal(n - 1)|))
  }

  lemma {:induction false} TaggedStart(s: string, tag: string, k: nat)
    requires k < 3 && k < |s|
    ensures |Tagged(s, tag)| >= |s| && Tagged(s, tag)[k] == s[k]
  {
    if |s| >= 3 {
      if s[..3] == CPU {
        assert s[k] == CPU[k];
        if |s| > 3 {
          TaggedStart(s[3..], tag, 0);
        }
      } else {
        TaggedStart(s[1..], tag, if k == 0 then 0 else k - 1);
      }
    }
  }

  lemma {:induction false} TaggedStartsAlike(s: string, tag: string)
    ensures |Tagged(s, tag)| >= |s|
    ensures |s| >= 3 ==> Tagged(s, tag)[..3] == s[..3]
  {
    if |s| > 0 {
      TaggedStart(s, tag, 0);
    }
    if |s| >= 3 {
      TaggedStart(s, tag, 1);
      TaggedStart(s, tag, 2);
    }
  }

  lemma {:induction false} NotAboutCpu(s: string)
    requires 'c' !in s
    ensures !HasCpu(s)
  {
    if |s| >= 3 {
      assert s[..3][0] == s[0] && CPU[0] == 'c';
      NotAboutCpu(s[1..]);
    }
  }

  lemma {:induction false} AboutCpu(s: string, k: nat)
    requires k + 3 <= |s| && s[k..k + 3] == CPU
    ensures HasCpu(s)
  {
    if k == 0 {
      assert s[..3] == s[0..3];
    } else {
      assert s[1..][k - 1..k + 2] == s[k..k + 3];
      AboutCpu(s[1..], k - 1);
    }
  }

  lemma {:induction false} PlainNameKept(s: string, tag: string)
    requires !HasCpu(s)
    ensures Tagged(s, tag) == s
  {
    if |s| >= 3 {
      PlainNameKept(s[1..], tag);
    }
  }

  /** The tagged name gives back the name and, if there is a place for it, the tag. */
  lemma {:induction false} TaggedUnique(s: string, t: string, a: string, b: string)
    requires |a| == |b| && Tagged(s, a) == Tagged(t, b)
    ensures s == t && (HasCpu(s) ==> a == b)
    decreases |s|
  {
    TaggedStartsAlike(s, a);
    TaggedStartsAlike(t, b);
    if |s| >= 3 && |t| >= 3 {
      assert s[..3] == t[..3];
      assert s[0] == s[..3][0] && t[0] == t[..3][0];
      var r, u := Tagged(s, a), Tagged(t, b);
      if s[..3] == CPU {
        assert r[3..][..|a|] == a && u[3..][..|b|] == b;
        assert r[3 + |a|..] == Tagged(s[3..], a) && u[3 + |b|..] == Tagged(t[3..], b);
        TaggedUnique(s[3..], t[3..], a, b);
        assert s == s[..3] + s[3..] && t == t[..3] + t[3..];
      } else {
        assert r[1..] == Tagged(s[1..], a) && u[1..] == Tagged(t[1..], b);
        TaggedUnique(s[1..], t[1..], a, b);
        assert s == [s[0]] + s[1..] && t == [t[0]] + t[1..];
      }
    }
  }

  /** No two sections, of one checkpoint or of two, get the same name. */
  lemma {:induction false} RenameUnique(s: string, i: nat, t: string, j: nat, n: nat)
    requires i < n && j < n && Rename(s, i, n) == Rename(t, j, n)
    ensures s == t && (HasCpu(s) ==> i == j)
  {
    IndexText(i, j, n);
    IndexText(j, i, n);
    var a, b := ZeroFilled(Decimal(i), |Decimal(n - 1)|), ZeroFilled(Decimal(j), |Decimal(n - 1)|);
    TaggedUnique(s, t, a, b);
  }

  ghost predicate CpuAt(s: string, k: nat) {
    k + 3 <= |s| && s[k..k + 3] == CPU
  }

  /** Position k is where "cpu" first occurs. */
  ghost predicate FirstCpu(s: string, k: nat) {
    CpuAt(s, k) && forall j: nat :: j < k ==> !CpuAt(s, j)
  }

  lemma {:induction false} CpuAtMoves(s: string, k: nat)
    requires s != ""
    ensures CpuAt(s[1..], k) <==> CpuAt(s, k + 1)
  {
    if k + 4 <= |s| {
      assert s[1..][k..k + 3] == s[k + 1..k + 4];
    }
  }

  lemma {:induction false} FirstCpuMoves(s: string, k: nat)
    requires FirstCpu(s, k) && k > 0
    ensures FirstCpu(s[1..], k - 1) && s[..3] != CPU
  {
    CpuAtMoves(s, k - 1);
    forall j: nat | j < k - 1
      ensures !CpuAt(s[1..], j)
    {
      CpuAtMoves(s, j);
      assert !CpuAt(s, j + 1);
    }
    assert !CpuAt(s, 0) && s[..3] == s[0..3];
  }

  lemma {:induction false} FrontJoins(a: string, b: string, c: string, d: string)
    ensures a + (b + c + d) == (a + b) + c + d
  {
  }

  /** Up to the first "cpu" the tagged name is the name; then comes the tag. */
  lemma {:induction false} TaggedAtFirst(s: string, tag: string, k: nat)
    requires FirstCpu(s, k)
    ensures Tagged(s, tag) == s[..k + 3] + tag + Tagged(s[k + 3..], tag)
  {
    if k == 0 {
      assert s[..3] == s[0..3];
    } else {
      FirstCpuMoves(s, k);
      TaggedAtFirst(s[1..], tag, k - 1);
      assert s[1..][k + 2..] == s[k + 3..] && s[..k + 3] == [s[0]] + s[1..][..k + 2];
      FrontJoins([s[0]], s[1..][..k + 2], tag, Tagged(s[k + 3..], tag));
    }
  }

  /** The digits behind the first "cpu" of a renamed section are the number of its checkpoint,
      as many for each checkpoint. */
  lemma {:induction false} RenameShowsNumber(s: string, i: nat, n: nat, k: nat)
    requires i < n && FirstCpu(s, k)
    ensures var r, width := Rename(s, i, n), |Decimal(n - 1)|;
            && |r| >= k + 3 + width && r[..k + 3] == s[..k + 3]
            && IsDigits(r[k + 3..k + 3 + width]) && ValueOf(r[k + 3..k + 3 + width]) == i
  {
    var width := |Decimal(n - 1)|;
    var tag := ZeroFilled(Decimal(i), width);
    IndexText(i, i, n);
    ZeroFilledValue(Decimal(i), width);
    DecimalRoundTrip(i);
    TaggedAtFirst(s, tag, k);
    var r := Rename(s, i, n);
    assert r[k + 3..k + 3 + width] == tag && r[..k + 3] == s[..k + 3];
  }

  /** A renamed section never takes the name of one that is not about a CPU. */
  lemma {:induction false} RenamedIsNotPlain(s: string, plain: string, i: nat, n: nat)
    requires i < n && s != plain && !HasCpu(plain)
    ensures Rename(s, i, n) != plain
  {
    PlainNameKept(plain, ZeroFilled(Decimal(i), |Decimal(n - 1)|));
    if Rename(s, i, n) == plain {
      RenameUnique(s, i, plain, i, n);
    }
  }
}
