/** The run counting of decode_envelope (main.c): the per-block tone/silence classifications
    are cut into maximal runs of equal classification, each measured in blocks. */
module RunLength {

  /** A maximal run of `len` consecutive blocks classified as tone (`tone`) or as silence. */
  datatype Run = Run(tone: bool, len: nat)

  /** One block of classification `b` added to the run sequence: equal to the current run's
      classification it lengthens that run, otherwise it opens a run of length 1. */
  function Push(rs: seq<Run>, b: bool): (rs': seq<Run>)
    ensures |rs'| > 0 && rs'[|rs'| - 1].tone == b
  {
    if |rs| > 0 && rs[|rs| - 1].tone == b then rs[..|rs| - 1] + [Run(b, rs[|rs| - 1].len + 1)]
    else rs + [Run(b, 1)]
  }

  /** Run-length encoding from left to right, one block at a time. */
  function Runs(s: seq<bool>): (rs: seq<Run>)
    ensures |rs| == 0 <==> |s| == 0
    decreases |s|
  {
    if |s| == 0 then [] else Push(Runs(s[..|s| - 1]), s[|s| - 1])
  }

  /** All runs except the one still being counted. */
  function Closed(rs: seq<Run>): (c: seq<Run>)
    ensures |rs| > 0 ==> |c| == |rs| - 1 && c == rs[..|rs| - 1]
    ensures |rs| == 0 ==> c == []
  {
    if |rs| == 0 then [] else rs[..|rs| - 1]
  }

  /** `n` blocks of classification `b`. */
  function Repeat(b: bool, n: nat): (s: seq<bool>)
    ensures |s| == n && forall k | 0 <= k < n :: s[k] == b
  {
    seq(n, _ => b)
  }

  /** The reference meaning of a run sequence: the blocks it stands for. */
  function Flatten(rs: seq<Run>): seq<bool>
    decreases |rs|
  {
    if |rs| == 0 then [] else Flatten(rs[..|rs| - 1]) + Repeat(rs[|rs| - 1].tone, rs[|rs| - 1].len)
  }

  /** The number of blocks a run sequence covers. */
  function TotalLength(rs: seq<Run>): nat
    decreases |rs|
  {
    if |rs| == 0 then 0 else TotalLength(rs[..|rs| - 1]) + rs[|rs| - 1].len
  }

  /** Maximal runs: none is empty and no two neighbours have the same classification. */
  predicate WellFormed(rs: seq<Run>) {
    && (forall k | 0 <= k < |rs| :: rs[k].len >= 1)
    && (forall k | 0 < k < |rs| :: rs[k - 1].tone != rs[k].tone)
  }

  lemma {:induction false} FlattenLength(rs: seq<Run>)
    ensures |Flatten(rs)| == TotalLength(rs)
    decreases |rs|
  {
    if |rs| > 0 {
      FlattenLength(rs[..|rs| - 1]);
    }
  }

  /** Adding a block keeps runs maximal and adds that block to what they stand for. */
  lemma PushCorrect(rs: seq<Run>, b: bool)
    requires WellFormed(rs)
    ensures WellFormed(Push(rs, b))
    ensures Flatten(Push(rs, b)) == Flatten(rs) + [b]
  {
    var rs' := Push(rs, b);
    if |rs| > 0 && rs[|rs| - 1].tone == b {
      var p := rs[..|rs| - 1];
      var n := rs[|rs| - 1].len;
      assert rs'[..|rs'| - 1] == p;
      assert Flatten(rs) == Flatten(p) + Repeat(b, n);
      assert Repeat(b, n + 1) == Repeat(b, n) + [b];
    } else {
      assert rs'[..|rs'| - 1] == rs;
    }
  }

  /** Runs is correct: it yields maximal runs that together are exactly the input. */
  lemma {:induction false} RunsCorrect(s: seq<bool>)
    ensures WellFormed(Runs(s))
    ensures Flatten(Runs(s)) == s
    decreases |s|
  {
    if |s| > 0 {
      var s' := s[..|s| - 1];
      RunsCorrect(s');
      assert Runs(s) == Push(Runs(s'), s[|s| - 1]);
      PushCorrect(Runs(s'), s[|s| - 1]);
      DropLast(s);
    }
  }

  /** A non-empty sequence is its start and its last element. */
  lemma DropLast<T>(s: seq<T>)
    requires |s| > 0
    ensures s[..|s| - 1] + [s[|s| - 1]] == s
  {
  }

  /** The run lengths of the whole input sum to the number of blocks. */
  lemma RunLengthsSum(s: seq<bool>)
    ensures TotalLength(Runs(s)) == |s|
  {
    RunsCorrect(s);
    FlattenLength(Runs(s));
  }

  /** A block of the current run's classification lengthens the current run. */
  lemma PushLast(rs: seq<Run>, b: bool)
    requires |rs| > 0 && rs[|rs| - 1].tone == b
    ensures Push(rs, b) == Closed(rs) + [Run(b, rs[|rs| - 1].len + 1)]
  {
  }

  /** Counting the first `i + 1` blocks is counting the first `i` and then block `i`. */
  lemma RunsStep(s: seq<bool>, i: nat)
    requires i < |s|
    ensures Runs(s[..i + 1]) == Push(Runs(s[..i]), s[i])
  {
    assert s[..i + 1][..i] == s[..i];
  }

  /** The last counted run has the classification of the last block counted. */
  lemma RunsLastTone(s: seq<bool>, i: nat)
    requires 0 < i <= |s|
    ensures |Runs(s[..i])| > 0 && Runs(s[..i])[|Runs(s[..i])| - 1].tone == s[i - 1]
  {
    RunsStep(s, i - 1);
  }

  /** Runs is Push applied block by block. */
  lemma RunsSnoc(s: seq<bool>, b: bool)
    ensures Runs(s + [b]) == Push(Runs(s), b)
  {
    assert (s + [b])[..|s|] == s;
  }

  /** A block that differs from the last one opens a run of length 1. */
  lemma RunsAppendOther(x: seq<bool>, b: bool)
    requires |x| == 0 || x[|x| - 1] != b
    ensures Runs(x + [b]) == Runs(x) + [Run(b, 1)]
  {
    RunsSnoc(x, b);
    if |x| > 0 {
      assert Runs(x) == Push(Runs(x[..|x| - 1]), x[|x| - 1]);
      assert Runs(x)[|Runs(x)| - 1].tone != b;
    }
  }

  /** One more block of the classification of the last run lengthens it. */
  lemma RunsAppendSame(x: seq<bool>, b: bool, n: nat)
    requires n >= 1 && Runs(x + Repeat(b, n)) == Runs(x) + [Run(b, n)]
    ensures Runs(x + Repeat(b, n + 1)) == Runs(x) + [Run(b, n + 1)]
  {
    AppendRepeatSnoc(x, b, n);
    RunsSnoc(x + Repeat(b, n), b);
    PushSame(Runs(x), b, n);
  }

  /** One more block of classification `b` after `n` of them. */
  lemma AppendRepeatSnoc(x: seq<bool>, b: bool, n: nat)
    ensures x + Repeat(b, n + 1) == (x + Repeat(b, n)) + [b]
  {
    assert Repeat(b, n + 1) == Repeat(b, n) + [b];
  }

  /** A block of the last run's classification lengthens the last run by one. */
  lemma PushSame(rs: seq<Run>, b: bool, n: nat)
    ensures Push(rs + [Run(b, n)], b) == rs + [Run(b, n + 1)]
  {
    assert (rs + [Run(b, n)])[..|rs|] == rs;
  }

  /** Appending a run of `n` blocks that differ from the last block opens exactly one new run. */
  lemma {:induction false} RunsAppendRepeat(x: seq<bool>, b: bool, n: nat)
    requires n >= 1
    requires |x| == 0 || x[|x| - 1] != b
    ensures Runs(x + Repeat(b, n)) == Runs(x) + [Run(b, n)]
    decreases n
  {
    if n == 1 {
      assert x + Repeat(b, n) == x + [b];
      RunsAppendOther(x, b);
    } else {
      RunsAppendRepeat(x, b, n - 1);
      RunsAppendSame(x, b, n - 1);
    }
  }

  /** A block sequence of one classification is one run. */
  lemma RunsRepeat(b: bool, n: nat)
    requires n >= 1
    ensures Runs(Repeat(b, n)) == [Run(b, n)]
  {
    assert [] + Repeat(b, n) == Repeat(b, n);
    RunsAppendRepeat([], b, n);
  }

  /** The last block of a sequence of maximal runs has the classification of the last run. */
  lemma FlattenLast(rs: seq<Run>)
    requires WellFormed(rs) && |rs| > 0
    ensures |Flatten(rs)| > 0 && Flatten(rs)[|Flatten(rs)| - 1] == rs[|rs| - 1].tone
  {
    var r := rs[|rs| - 1];
    assert Flatten(rs) == Flatten(rs[..|rs| - 1]) + Repeat(r.tone, r.len);
  }

  /** Run-length encoding inverts Flatten on maximal runs, so the encoding of a block sequence
      is the only maximal run sequence that stands for it. */
  lemma {:induction false} RunsOfFlatten(rs: seq<Run>)
    requires WellFormed(rs)
    ensures Runs(Flatten(rs)) == rs
    decreases |rs|
  {
    if |rs| > 0 {
      var p := rs[..|rs| - 1];
      assert WellFormed(p);
      RunsOfFlatten(p);
      RunsOfFlattenStep(p, rs[|rs| - 1]);
      DropLast(rs);
    }
  }

  /** A maximal run sequence with one more run that differs from its last. */
  lemma RunsOfFlattenStep(p: seq<Run>, r: Run)
    requires WellFormed(p) && Runs(Flatten(p)) == p && r.len >= 1
    requires |p| > 0 ==> p[|p| - 1].tone != r.tone
    ensures Runs(Flatten(p) + Repeat(r.tone, r.len)) == p + [r]
  {
    if |p| > 0 {
      FlattenLast(p);
    }
    RunsAppendRepeat(Flatten(p), r.tone, r.len);
  }

  /** Closing the runs after one more run gives back the runs before it. */
  lemma ClosedSnoc(rs: seq<Run>, r: Run)
    ensures Closed(rs + [r]) == rs
  {
    assert (rs + [r])[..|rs|] == rs;
  }

  /** Adding a block changes nothing before the current run and only lengthens the current run. */
  lemma PushKeepsStart(rs: seq<Run>, b: bool, k: nat)
    requires k < |rs|
    ensures k < |Push(rs, b)| && Push(rs, b)[..k] == rs[..k]
    ensures Push(rs, b)[k].tone == rs[k].tone && Push(rs, b)[k].len >= rs[k].len
  {
    var rs' := Push(rs, b);
    if |rs| > 0 && rs[|rs| - 1].tone == b {
      assert rs'[..|rs| - 1] == rs[..|rs| - 1];
      assert rs'[..k] == rs'[..|rs| - 1][..k];
      assert rs[..k] == rs[..|rs| - 1][..k];
    } else {
      assert rs'[..|rs|] == rs;
      assert rs'[..k] == rs'[..|rs|][..k];
    }
  }

  /** The runs already closed after the first `i` blocks are the first runs of the whole input;
      the run still being counted is a start of the next one. */
  lemma {:induction false} ClosedRunsPrefix(s: seq<bool>, i: nat)
    requires 1 <= i <= |s|
    ensures var rs := Runs(s[..i]);
      && |rs| <= |Runs(s)|
      && Closed(rs) == Runs(s)[..|rs| - 1]
      && rs[|rs| - 1].tone == Runs(s)[|rs| - 1].tone
      && rs[|rs| - 1].len <= Runs(s)[|rs| - 1].len
    decreases |s|
  {
    if i < |s| {
      var s' := s[..|s| - 1];
      assert s'[..i] == s[..i];
      ClosedRunsPrefix(s', i);
      var k := |Runs(s[..i])| - 1;
      assert Runs(s) == Push(Runs(s'), s[|s| - 1]);
      PushKeepsStart(Runs(s'), s[|s| - 1], k);
      assert Runs(s)[..k] == Runs(s')[..k];
    } else {
      assert s[..i] == s;
    }
  }

  /** At a transition, the run that just ended is a whole run of the input: every run counted so far
      is, with its full length, the corresponding run of the whole input. */
  lemma TransitionEndsRun(s: seq<bool>, i: nat)
    requires 1 <= i < |s| && s[i] != s[i - 1]
    ensures var rs := Runs(s[..i]);
      |rs| < |Runs(s)| && rs == Runs(s)[..|rs|]
  {
    RunsStep(s, i);
    ClosedRunsPrefix(s, i + 1);
  }

  /** Two maximal run sequences whose meeting runs differ concatenate to a maximal one. */
  lemma WellFormedAppend(a: seq<Run>, b: seq<Run>)
    requires WellFormed(a) && WellFormed(b)
    requires |a| > 0 && |b| > 0 ==> a[|a| - 1].tone != b[0].tone
    ensures WellFormed(a + b)
  {
    forall k | 0 < k < |a + b|
      ensures (a + b)[k - 1].tone != (a + b)[k].tone
    {
      if k == |a| {
        assert (a + b)[k - 1] == a[|a| - 1] && (a + b)[k] == b[0];
      } else if k < |a| {
        assert (a + b)[k - 1] == a[k - 1] && (a + b)[k] == a[k];
      } else {
        assert (a + b)[k - 1] == b[k - 1 - |a|] && (a + b)[k] == b[k - |a|];
      }
    }
  }
}
