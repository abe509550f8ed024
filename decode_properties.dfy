/** Properties of the text decode_envelope (main.c) writes: its alphabet and length, and how
    single runs, silences before and after a character and the three kinds of gap are decoded. */
module DecodeProperties {
  import opened MorseTable
  import opened RunLength
  import opened DecodeSpec

  /** Running the runs `a` and then the runs `b` is running `a + b`. */
  lemma {:induction false} StepsFromAppend(d: Decoder, a: seq<Run>, b: seq<Run>)
    ensures StepsFrom(d, a + b) == StepsFrom(StepsFrom(d, a), b)
    decreases |b|
  {
    if |b| == 0 {
      assert a + b == a;
    } else {
      var b' := b[..|b| - 1];
      assert (a + b)[..|a + b| - 1] == a + b';
      StepsFromAppend(d, a, b');
    }
  }

  /** Running one run or two runs. */
  lemma StepsFromShort(d: Decoder, x: Run, y: Run)
    ensures StepsFrom(d, [x]) == Step(d, x)
    ensures StepsFrom(d, [x, y]) == Step(Step(d, x), y)
  {
    assert [x][..0] == [];
    assert [x, y][..1] == [x];
  }

  /** The characters decode_envelope can write: a table character, the '?' of an unknown code, or
      the space of a word gap. */
  predicate IsOutputChar(c: char) {
    IsTableChar(c) || c == Unknown || c == ' '
  }

  predicate OutputText(s: string) {
    forall k | 0 <= k < |s| :: IsOutputChar(s[k])
  }

  lemma StepAlphabet(d: Decoder, r: Run)
    requires OutputText(d.out)
    ensures OutputText(Step(d, r).out) && OutputText(Finish(d, r))
  {
    LookupSpec(d.pending);
    LookupSpec(FinalState(d, r).pending);
  }

  lemma {:induction false} StepsFromAlphabet(d: Decoder, rs: seq<Run>)
    requires OutputText(d.out)
    ensures OutputText(StepsFrom(d, rs).out)
    decreases |rs|
  {
    if |rs| > 0 {
      StepsFromAlphabet(d, rs[..|rs| - 1]);
      StepAlphabet(StepsFrom(d, rs[..|rs| - 1]), rs[|rs| - 1]);
    }
  }

  /** Every character of the decoded text is a table character, '?' or a space. */
  lemma DecodeAlphabet(cls: seq<bool>)
    requires |cls| > 0
    ensures OutputText(Decode(cls))
  {
    var rs := Runs(cls);
    StepsFromAlphabet(Init, Closed(rs));
    StepAlphabet(StepsFrom(Init, Closed(rs)), rs[|rs| - 1]);
  }

  /** The characters written, plus one for a character still being received. */
  function Weight(d: Decoder): nat {
    |d.out| + if |d.pending| > 0 then 1 else 0
  }

  /** A run of `r.len` blocks adds at most `r.len` to the weight, and so does the final run. */
  lemma StepWeight(d: Decoder, r: Run)
    requires r.len >= 1
    ensures Weight(Step(d, r)) <= Weight(d) + r.len
    ensures |Finish(d, r)| <= Weight(d) + r.len
  {
  }

  lemma {:induction false} StepsFromWeight(rs: seq<Run>)
    requires forall k | 0 <= k < |rs| :: rs[k].len >= 1
    ensures Weight(StepsFrom(Init, rs)) <= TotalLength(rs)
    decreases |rs|
  {
    if |rs| > 0 {
      StepsFromWeight(rs[..|rs| - 1]);
      StepWeight(StepsFrom(Init, rs[..|rs| - 1]), rs[|rs| - 1]);
    }
  }

  /** The text has at most one character per block, so an output buffer of `blocks + 1`
      characters always holds it and its NUL. */
  lemma DecodeLength(cls: seq<bool>)
    requires |cls| > 0
    ensures |Decode(cls)| <= |cls|
  {
    var rs := Runs(cls);
    RunsCorrect(cls);
    RunLengthsSum(cls);
    StepsFromWeight(Closed(rs));
    StepWeight(StepsFrom(Init, Closed(rs)), rs[|rs| - 1]);
  }

  /** The decoded text of the blocks that maximal runs `rs` stand for. */
  lemma DecodeFlatten(rs: seq<Run>)
    requires WellFormed(rs) && |rs| > 0
    ensures |Flatten(rs)| > 0
    ensures Decode(Flatten(rs)) == Finish(StepsFrom(Init, rs[..|rs| - 1]), rs[|rs| - 1])
  {
    FlattenLength(rs);
    assert TotalLength(rs) >= rs[|rs| - 1].len >= 1;
    RunsOfFlatten(rs);
  }

  /** Two runs of different classification, as blocks and as decoder steps. */
  lemma TwoRuns(x: Run, y: Run)
    requires x.len >= 1 && y.len >= 1 && x.tone != y.tone
    ensures Decode(Repeat(x.tone, x.len) + Repeat(y.tone, y.len)) == Finish(Step(Init, x), y)
  {
    var rs := [x, y];
    assert rs[..1] == [x] && [x][..0] == [];
    assert Flatten([x]) == Repeat(x.tone, x.len) by {
      assert [] + Repeat(x.tone, x.len) == Repeat(x.tone, x.len);
    }
    assert Flatten(rs) == Flatten([x]) + Repeat(y.tone, y.len);
    DecodeFlatten(rs);
    assert StepsFrom(Init, rs[..1]) == Step(Init, x);
  }

  /** Three runs of alternating classification, as blocks and as decoder steps. */
  lemma ThreeRuns(x: Run, y: Run, z: Run)
    requires x.len >= 1 && y.len >= 1 && z.len >= 1 && x.tone != y.tone && y.tone != z.tone
    ensures Decode(Repeat(x.tone, x.len) + Repeat(y.tone, y.len) + Repeat(z.tone, z.len))
         == Finish(Step(Step(Init, x), y), z)
  {
    var rs := [x, y, z];
    assert rs[..2] == [x, y] && [x, y][..1] == [x] && [x][..0] == [];
    assert Flatten([x]) == Repeat(x.tone, x.len) by {
      assert [] + Repeat(x.tone, x.len) == Repeat(x.tone, x.len);
    }
    assert Flatten([x, y]) == Flatten([x]) + Repeat(y.tone, y.len);
    assert Flatten(rs) == Flatten([x, y]) + Repeat(z.tone, z.len);
    DecodeFlatten(rs);
    assert StepsFrom(Init, [x]) == Step(Init, x);
    assert StepsFrom(Init, [x, y]) == Step(StepsFrom(Init, [x]), y);
  }

  /** The code of a single mark is 'E' for a dot and 'T' for a dash. */
  lemma SingleMarks(n: nat)
    ensures Lookup([MarkFor(n)]) == if n < DashUnits then 'E' else 'T'
  {
    LookupSpec([MarkFor(n)]);
    if n < DashUnits {
      assert Table[4] == Entry(".", 'E') && [MarkFor(n)] == ".";
    } else {
      assert Table[19] == Entry("-", 'T') && [MarkFor(n)] == "-";
    }
  }

  /** A lone tone of `n` blocks is one dot or one dash: 'E' below three blocks, 'T' from three
      blocks on (exactly three is a dash). */
  lemma LoneTone(n: nat)
    requires n >= 1
    ensures Decode(Repeat(true, n)) == [if n < DashUnits then 'E' else 'T']
  {
    RunsRepeat(true, n);
    assert FinalState(Init, Run(true, n)) == Decoder([MarkFor(n)], []);
    SingleMarks(n);
  }

  /** Silence alone gives no text below a letter gap and a single '?' from a letter gap on: the
      final silence flushes the empty symbol buffer, whose code is not in the table, and never
      writes a space. */
  lemma LoneSilence(n: nat)
    requires n >= 1
    ensures Decode(Repeat(false, n)) == if n < LetterGapUnits then [] else [Unknown]
  {
    RunsRepeat(false, n);
    UnlistedCodes();
  }

  /** Two tones of `a` and `b` blocks with a gap of `g` silent blocks shorter than a letter gap:
      one character of two marks. */
  lemma GapWithinLetter(a: nat, g: nat, b: nat)
    requires a >= 1 && 1 <= g < LetterGapUnits && b >= 1
    ensures Decode(Repeat(true, a) + Repeat(false, g) + Repeat(true, b))
         == [Lookup([MarkFor(a), MarkFor(b)])]
  {
    ThreeRuns(Run(true, a), Run(false, g), Run(true, b));
    var d := Step(Init, Run(true, a));
    assert Step(d, Run(false, g)) == d == Decoder([MarkFor(a)], []);
    assert FinalState(d, Run(true, b)) == Decoder([MarkFor(a), MarkFor(b)], []);
  }

  /** ... from a letter gap up to a word gap: two characters. */
  lemma GapBetweenLetters(a: nat, g: nat, b: nat)
    requires a >= 1 && LetterGapUnits <= g < WordGapUnits && b >= 1
    ensures Decode(Repeat(true, a) + Repeat(false, g) + Repeat(true, b))
         == [Lookup([MarkFor(a)]), Lookup([MarkFor(b)])]
  {
    ThreeRuns(Run(true, a), Run(false, g), Run(true, b));
    assert Step(Init, Run(true, a)) == Decoder([MarkFor(a)], []);
    var d := Step(Step(Init, Run(true, a)), Run(false, g));
    assert d == Decoder([], [Lookup([MarkFor(a)])]);
    assert FinalState(d, Run(true, b)) == Decoder([MarkFor(b)], [Lookup([MarkFor(a)])]);
  }

  /** ... from a word gap on: two characters with a space between them. */
  lemma GapBetweenWords(a: nat, g: nat, b: nat)
    requires a >= 1 && WordGapUnits <= g && b >= 1
    ensures Decode(Repeat(true, a) + Repeat(false, g) + Repeat(true, b))
         == [Lookup([MarkFor(a)]), ' ', Lookup([MarkFor(b)])]
  {
    ThreeRuns(Run(true, a), Run(false, g), Run(true, b));
    assert Step(Init, Run(true, a)) == Decoder([MarkFor(a)], []);
    var d := Step(Step(Init, Run(true, a)), Run(false, g));
    assert d == Decoder([], [Lookup([MarkFor(a)]), ' ']);
    assert FinalState(d, Run(true, b)) == Decoder([MarkFor(b)], [Lookup([MarkFor(a)]), ' ']);
  }

  /** Silence of `g` blocks before a tone of `a` blocks: nothing below a letter gap, a '?' (the
      flush of the empty symbol buffer) for a letter gap, a space (no flush, since nothing is
      pending) from a word gap on; then the tone's character. */
  lemma LeadingSilence(g: nat, a: nat)
    requires g >= 1 && a >= 1
    ensures var s := Decode(Repeat(false, g) + Repeat(true, a));
      && (g < LetterGapUnits ==> s == [Lookup([MarkFor(a)])])
      && (LetterGapUnits <= g < WordGapUnits ==> s == [Unknown, Lookup([MarkFor(a)])])
      && (WordGapUnits <= g ==> s == [' ', Lookup([MarkFor(a)])])
  {
    TwoRuns(Run(false, g), Run(true, a));
    var d := Step(Init, Run(false, g));
    if g < LetterGapUnits {
      assert d == Init;
    } else if g < WordGapUnits {
      UnlistedCodes();
      assert d == Decoder([], [Unknown]);
    } else {
      assert d == Decoder([], [' ']);
    }
    assert FinalState(d, Run(true, a)) == Decoder([MarkFor(a)], d.out);
  }

  /** Silence of any length after a tone of `a` blocks only ends that character: the final run
      never writes a space, and the character is written once. */
  lemma TrailingSilence(a: nat, g: nat)
    requires a >= 1 && g >= 1
    ensures Decode(Repeat(true, a) + Repeat(false, g)) == [Lookup([MarkFor(a)])]
  {
    TwoRuns(Run(true, a), Run(false, g));
    var d := Step(Init, Run(true, a));
    assert d == Decoder([MarkFor(a)], []);
    if g >= LetterGapUnits {
      assert FinalState(d, Run(false, g)) == Decoder([], [Lookup([MarkFor(a)])]);
    }
  }

  /** Blocks that end in a tone decode as if a transition ended that tone, followed by the
      final flush of the symbol buffer. */
  lemma EndsInTone(rs: seq<Run>)
    requires WellFormed(rs) && |rs| > 0 && rs[|rs| - 1].tone
    ensures |Flatten(rs)| > 0
    ensures Decode(Flatten(rs)) == Flush(StepsFrom(Init, rs)).out
  {
    DecodeFlatten(rs);
    var last := rs[|rs| - 1];
    var closed := rs[..|rs| - 1];
    assert FinalState(StepsFrom(Init, closed), last) == StepsFrom(Init, rs);
  }

  /** More generally, after any input that ends in a tone, a final silence of any length (a word
      gap included) changes nothing: the pending character is written once either way, and the
      final run never writes a space. */
  lemma TrailingSilenceAfter(rs: seq<Run>, g: nat)
    requires WellFormed(rs) && |rs| > 0 && rs[|rs| - 1].tone && g >= 1
    ensures |Flatten(rs)| > 0
    ensures Decode(Flatten(rs + [Run(false, g)])) == Decode(Flatten(rs))
  {
    var rs' := rs + [Run(false, g)];
    WellFormedAppend(rs, [Run(false, g)]);
    DecodeFlatten(rs');
    assert rs'[..|rs|] == rs;
    EndsInTone(rs);
  }
}
