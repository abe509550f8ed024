/** Keying a message in Morse and decoding it with decode_envelope (main.c) gives the message
    back, for every timing whose element lengths fall on the right sides of the decoder's
    thresholds; in particular for the standard timing of 1, 3, 1, 3 and 7 blocks. */
module RoundTrip {
  import opened MorseTable
  import opened RunLength
  import opened DecodeSpec
  import opened DecodeProperties

  /** The lengths, in blocks, of a dot, a dash, the silence between the marks of a character,
      the silence between characters and the silence between words. */
  datatype Timing = Timing(dot: nat, dash: nat, markGap: nat, letterGap: nat, wordGap: nat)

  const Standard: Timing := Timing(1, 3, 1, 3, 7)

  /** Each element length lies in the band decode_envelope reads it as: a dot below the dash
      length, a mark gap below the letter gap, a letter gap below the word gap. */
  predicate Decodable(t: Timing) {
    && 1 <= t.dot < DashUnits <= t.dash
    && 1 <= t.markGap < LetterGapUnits <= t.letterGap < WordGapUnits <= t.wordGap
  }

  lemma StandardDecodable()
    ensures Decodable(Standard)
  {
  }

  /** The message before the last character of `m`, without the space that precedes that
      character, if one does. */
  function Prev(m: string): (p: string)
    requires |m| > 1
    ensures |p| < |m| && p == m[..|p|]
    ensures m[|m| - 2] == ' ' <==> |p| == |m| - 2
  {
    if m[|m| - 2] == ' ' then m[..|m| - 2] else m[..|m| - 1]
  }

  /** A message is Prev of it followed by its last character, or by a space and its last
      character. */
  lemma PrevSplit(m: string)
    requires |m| > 1
    ensures m == Prev(m) + m[|Prev(m)|..]
    ensures m[|Prev(m)|..] == [m[|m| - 1]] || m[|Prev(m)|..] == [' ', m[|m| - 1]]
  {
    if m[|m| - 2] == ' ' {
      assert m[|m| - 2..] == [' ', m[|m| - 1]];
    } else {
      assert m[|m| - 1..] == [m[|m| - 1]];
    }
  }

  /** A message: table characters in words separated by single spaces. Built from the right, a
      message is one table character, or a message followed by a table character, or a message,
      a space and a table character. */
  predicate ValidMessage(m: string)
    decreases |m|
  {
    && |m| > 0 && IsTableChar(m[|m| - 1])
    && (|m| > 1 ==> ValidMessage(Prev(m)))
  }

  /** The same set of messages, described by their characters: no leading, trailing or double
      space, and every other character in the table. */
  predicate Spaced(m: string) {
    && |m| > 0 && m[0] != ' ' && m[|m| - 1] != ' '
    && (forall k | 0 <= k < |m| :: m[k] == ' ' || IsTableChar(m[k]))
    && (forall k | 0 < k < |m| :: m[k - 1] == ' ' ==> m[k] != ' ')
  }

  /** The grammar and the character-level description define the same messages. */
  lemma ValidMessageSpaced(m: string)
    ensures ValidMessage(m) <==> Spaced(m)
  {
    if ValidMessage(m) {
      ValidIsSpaced(m);
    }
    if Spaced(m) {
      SpacedIsValid(m);
    }
  }

  lemma {:induction false} ValidIsSpaced(m: string)
    requires ValidMessage(m)
    ensures Spaced(m)
    decreases |m|
  {
    var c := m[|m| - 1];
    TableCharAlphanumeric(c);
    if |m| > 1 {
      var p := Prev(m);
      ValidIsSpaced(p);
      PrevSplit(m);
      SpacedAppend(p, m[|p|..], c);
    }
  }

  /** A message followed by a table character, or by a space and a table character. */
  lemma SpacedAppend(p: string, w: string, c: char)
    requires Spaced(p) && IsTableChar(c) && c != ' '
    requires w == [c] || w == [' ', c]
    ensures Spaced(p + w)
  {
    var m := p + w;
    forall k | 0 <= k < |m|
      ensures m[k] == ' ' || IsTableChar(m[k])
    {
      if k < |p| {
        assert m[k] == p[k];
      }
    }
    forall k | 0 < k < |m|
      ensures m[k - 1] == ' ' ==> m[k] != ' '
    {
      if k < |p| {
        assert m[k - 1] == p[k - 1] && m[k] == p[k];
      }
    }
  }

  lemma {:induction false} SpacedIsValid(m: string)
    requires Spaced(m)
    ensures ValidMessage(m)
    decreases |m|
  {
    if |m| > 1 {
      var p := Prev(m);
      if m[|m| - 2] == ' ' {
        assert m[|m| - 3] != ' ';
      }
      assert Spaced(p);
      SpacedIsValid(p);
    }
  }

  function MarkLength(t: Timing, c: char): nat {
    if c == '.' then t.dot else t.dash
  }

  /** The runs that key one code: its marks, with a mark gap between neighbours. */
  function MarkRuns(t: Timing, code: string): (rs: seq<Run>)
    requires |code| > 0
    ensures |rs| == 2 * |code| - 1
    decreases |code|
  {
    if |code| == 1 then [Run(true, MarkLength(t, code[0]))]
    else MarkRuns(t, code[..|code| - 1]) + [Run(false, t.markGap), Run(true, MarkLength(t, code[|code| - 1]))]
  }

  /** The silence keyed before the last character of `m`: a word gap after a space, a letter
      gap otherwise. */
  function GapBefore(t: Timing, m: string): Run
    requires |m| > 1
  {
    Run(false, if m[|m| - 2] == ' ' then t.wordGap else t.letterGap)
  }

  /** The runs that key a message: the codes of its characters, with a letter gap between
      characters of a word and a word gap where the message has a space. */
  function TransmitRuns(t: Timing, m: string): seq<Run>
    requires ValidMessage(m)
    decreases |m|
  {
    var code := CodeOf(m[|m| - 1]);
    if |m| == 1 then MarkRuns(t, code)
    else TransmitRuns(t, Prev(m)) + [GapBefore(t, m)] + MarkRuns(t, code)
  }

  /** The per-block classifications of a keyed message. */
  function Transmit(t: Timing, m: string): seq<bool>
    requires ValidMessage(m)
  {
    Flatten(TransmitRuns(t, m))
  }

  /** The symbol buffer holds at most `n` marks at every point of the runs `rs` started from `d`. */
  predicate PendingWithin(d: Decoder, rs: seq<Run>, n: nat) {
    forall k | 0 <= k <= |rs| :: |StepsFrom(d, rs[..k]).pending| <= n
  }

  lemma PendingWithinAppend(d: Decoder, a: seq<Run>, b: seq<Run>, n: nat)
    requires PendingWithin(d, a, n) && PendingWithin(StepsFrom(d, a), b, n)
    ensures PendingWithin(d, a + b, n)
  {
    forall k | 0 <= k <= |a + b|
      ensures |StepsFrom(d, (a + b)[..k]).pending| <= n
    {
      if k <= |a| {
        assert (a + b)[..k] == a[..k];
      } else {
        assert (a + b)[..k] == a + b[..k - |a|];
        StepsFromAppend(d, a, b[..k - |a|]);
      }
    }
  }

  /** A code is keyed as maximal runs that start and end with a tone. */
  lemma {:induction false} MarkRunsShape(t: Timing, code: string)
    requires 1 <= t.dot && 1 <= t.dash && 1 <= t.markGap && |code| > 0
    ensures var rs := MarkRuns(t, code);
      WellFormed(rs) && rs[0].tone && rs[|rs| - 1].tone
    decreases |code|
  {
    if |code| > 1 {
      var init := code[..|code| - 1];
      MarkRunsShape(t, init);
      var tail := [Run(false, t.markGap), Run(true, MarkLength(t, code[|code| - 1]))];
      WellFormedAppend(MarkRuns(t, init), tail);
      assert MarkRuns(t, code) == MarkRuns(t, init) + tail;
    }
  }

  /** A mark keyed in a decodable timing is read back as that mark. */
  lemma MarkReadBack(t: Timing, c: char)
    requires Decodable(t) && IsMark(c)
    ensures MarkFor(MarkLength(t, c)) == c && MarkLength(t, c) >= 1
  {
  }

  /** Decoding the runs of a code appends the code to the pending marks and writes nothing. */
  lemma {:induction false} MarkRunsSteps(t: Timing, code: string, d: Decoder)
    requires Decodable(t) && |code| > 0 && forall m | 0 <= m < |code| :: IsMark(code[m])
    ensures StepsFrom(d, MarkRuns(t, code)) == Decoder(d.pending + code, d.out)
    decreases |code|
  {
    var c := code[|code| - 1];
    var tone := Run(true, MarkLength(t, c));
    MarkReadBack(t, c);
    var gap := Run(false, t.markGap);
    StepsFromShort(d, tone, gap);
    if |code| == 1 {
      assert code == [c];
    } else {
      var init := code[..|code| - 1];
      MarkRunsSteps(t, init, d);
      var d' := Decoder(d.pending + init, d.out);
      StepsFromAppend(d, MarkRuns(t, init), [gap, tone]);
      StepsFromShort(d', gap, tone);
      assert Step(d', gap) == d';
      assert (d.pending + init) + [c] == d.pending + code;
    }
  }

  /** While a code is decoded, at most its marks (and those already pending) are pending. */
  lemma {:induction false} MarkRunsPending(t: Timing, code: string, d: Decoder)
    requires Decodable(t) && |code| > 0 && forall m | 0 <= m < |code| :: IsMark(code[m])
    ensures PendingWithin(d, MarkRuns(t, code), |d.pending| + |code|)
    decreases |code|
  {
    var n := |d.pending| + |code|;
    var c := code[|code| - 1];
    var tone := Run(true, MarkLength(t, c));
    var gap := Run(false, t.markGap);
    StepsFromShort(d, tone, gap);
    if |code| == 1 {
      var rs := MarkRuns(t, code);
      assert rs[..0] == [] && rs[..1] == rs == [tone];
    } else {
      var init := code[..|code| - 1];
      MarkRunsPending(t, init, d);
      MarkRunsSteps(t, init, d);
      var d' := Decoder(d.pending + init, d.out);
      var tail := [gap, tone];
      StepsFromShort(d', gap, tone);
      assert tail[..0] == [] && tail[..1] == [gap] && tail[..2] == tail;
      assert PendingWithin(d', tail, n);
      PendingWithinWeaken(d, MarkRuns(t, init), n - 1, n);
      PendingWithinAppend(d, MarkRuns(t, init), tail, n);
      assert MarkRuns(t, code) == MarkRuns(t, init) + tail;
    }
  }

  lemma PendingWithinWeaken(d: Decoder, rs: seq<Run>, n: nat, n': nat)
    requires PendingWithin(d, rs, n) && n <= n'
    ensures PendingWithin(d, rs, n')
  {
  }

  /** The runs of a message of several characters: those of the message before its last
      character, a gap, and the runs of that character's code. */
  lemma TransmitUnfold(t: Timing, m: string)
    requires ValidMessage(m) && |m| > 1
    ensures ValidMessage(Prev(m)) && IsTableChar(m[|m| - 1])
    ensures TransmitRuns(t, m) == (TransmitRuns(t, Prev(m)) + [GapBefore(t, m)]) + MarkRuns(t, CodeOf(m[|m| - 1]))
  {
  }

  /** A message is keyed as maximal runs that start and end with a tone. */
  lemma {:induction false} TransmitShape(t: Timing, m: string)
    requires Decodable(t) && ValidMessage(m)
    ensures var rs := TransmitRuns(t, m);
      |rs| > 0 && WellFormed(rs) && rs[0].tone && rs[|rs| - 1].tone
    decreases |m|
  {
    var code := CodeOf(m[|m| - 1]);
    LookupCodeOf(m[|m| - 1]);
    MarkRunsShape(t, code);
    if |m| > 1 {
      TransmitUnfold(t, m);
      var p := Prev(m);
      var gap := GapBefore(t, m);
      TransmitShape(t, p);
      WellFormedAppend(TransmitRuns(t, p), [gap]);
      WellFormedAppend(TransmitRuns(t, p) + [gap], MarkRuns(t, code));
    }
  }

  /** The gap before the last character of a message, after the message before it: the pending
      code is decoded, and a word gap writes the space. */
  lemma GapStep(t: Timing, m: string)
    requires Decodable(t) && ValidMessage(m) && |m| > 1
    ensures var p := Prev(m);
      ValidMessage(p) &&
      Step(Decoder(CodeOf(p[|p| - 1]), p[..|p| - 1]), GapBefore(t, m)) == Decoder([], m[..|m| - 1])
  {
    TransmitUnfold(t, m);
    var p := Prev(m);
    var q := p[|p| - 1];
    LookupCodeOf(q);
    DropLast(p);
    var d := Flush(Decoder(CodeOf(q), p[..|p| - 1]));
    assert d == Decoder([], p);
    if m[|m| - 2] == ' ' {
      DropLast(m[..|m| - 1]);
      assert m[..|m| - 1][..|m| - 2] == p;
    } else {
      assert m[..|m| - 1] == p;
    }
  }

  /** After the runs of a message, everything but its last character has been written and the
      code of the last character is pending (no transition has ended its last mark). */
  lemma {:induction false} TransmitSteps(t: Timing, m: string)
    requires Decodable(t) && ValidMessage(m)
    ensures StepsFrom(Init, TransmitRuns(t, m)) == Decoder(CodeOf(m[|m| - 1]), m[..|m| - 1])
    decreases |m|
  {
    if |m| == 1 {
      MarkRunsSteps(t, CodeOf(m[0]), Init);
      assert m[..0] == [];
    } else {
      TransmitSteps(t, Prev(m));
      TransmitStepsNext(t, m);
    }
  }

  /** The induction step of TransmitSteps: from the state after the message before the last
      character, the gap and the last character's runs. */
  lemma TransmitStepsNext(t: Timing, m: string)
    requires Decodable(t) && ValidMessage(m) && |m| > 1
    requires var p := Prev(m);
      StepsFrom(Init, TransmitRuns(t, p)) == Decoder(CodeOf(p[|p| - 1]), p[..|p| - 1])
    ensures StepsFrom(Init, TransmitRuns(t, m)) == Decoder(CodeOf(m[|m| - 1]), m[..|m| - 1])
  {
    TransmitUnfold(t, m);
    var gap := GapBefore(t, m);
    GapStep(t, m);
    var a := TransmitRuns(t, Prev(m));
    StepsFromAppend(Init, a, [gap]);
    StepsFromShort(StepsFrom(Init, a), gap, gap);
    StepsFromAppend(Init, a + [gap], MarkRuns(t, CodeOf(m[|m| - 1])));
    MarkRunsSteps(t, CodeOf(m[|m| - 1]), Decoder([], m[..|m| - 1]));
  }

  /** The gap before the last character of a message keeps the symbol buffer within five marks
      and leaves it empty, with everything before that character written. */
  lemma GapPending(t: Timing, m: string)
    requires Decodable(t) && ValidMessage(m) && |m| > 1
    requires PendingWithin(Init, TransmitRuns(t, Prev(m)), 5)
    ensures var a := TransmitRuns(t, Prev(m)) + [GapBefore(t, m)];
      PendingWithin(Init, a, 5) && StepsFrom(Init, a) == Decoder([], m[..|m| - 1])
  {
    var p := Prev(m);
    var gap := GapBefore(t, m);
    TransmitSteps(t, p);
    GapStep(t, m);
    var a := TransmitRuns(t, p);
    var da := StepsFrom(Init, a);
    StepsFromShort(da, gap, gap);
    assert [gap][..0] == [] && [gap][..1] == [gap];
    assert PendingWithin(da, [gap], 5);
    PendingWithinAppend(Init, a, [gap], 5);
    StepsFromAppend(Init, a, [gap]);
  }

  /** While a message is decoded, at most five marks are ever pending. */
  lemma {:induction false} TransmitPending(t: Timing, m: string)
    requires Decodable(t) && ValidMessage(m)
    ensures PendingWithin(Init, TransmitRuns(t, m), 5)
    decreases |m|
  {
    var code := CodeOf(m[|m| - 1]);
    if |m| == 1 {
      MarkRunsPending(t, code, Init);
      PendingWithinWeaken(Init, TransmitRuns(t, m), |code|, 5);
    } else {
      TransmitUnfold(t, m);
      TransmitPending(t, Prev(m));
      GapPending(t, m);
      var a := TransmitRuns(t, Prev(m)) + [GapBefore(t, m)];
      var d := Decoder([], m[..|m| - 1]);
      MarkRunsPending(t, code, d);
      PendingWithinWeaken(d, MarkRuns(t, code), |code|, 5);
      PendingWithinAppend(Init, a, MarkRuns(t, code), 5);
    }
  }

  /** The round trip: a keyed message fits the 16-character symbol buffer and decodes to itself. */
  lemma RoundTrip(t: Timing, m: string)
    requires Decodable(t) && ValidMessage(m)
    ensures |Transmit(t, m)| > 0 && Fits(Runs(Transmit(t, m)))
    ensures Decode(Transmit(t, m)) == m
  {
    var rs := TransmitRuns(t, m);
    TransmitShape(t, m);
    TransmitPending(t, m);
    RunsOfFlatten(rs);
    PendingWithinWeaken(Init, rs, 5, MaxMarks);
    TransmitSteps(t, m);
    EndsInTone(rs);
    var c := m[|m| - 1];
    LookupCodeOf(c);
    DropLast(m);
  }

  /** The bound on the symbol buffer is a real restriction: a keyed run of more than fifteen marks
      without a letter gap, a character no table row has, does not fit it. */
  lemma LongCodeOverflows(t: Timing, code: string)
    requires Decodable(t) && |code| > MaxMarks && forall m | 0 <= m < |code| :: IsMark(code[m])
    ensures |Flatten(MarkRuns(t, code))| > 0 && !Fits(Runs(Flatten(MarkRuns(t, code))))
  {
    var rs := MarkRuns(t, code);
    MarkRunsShape(t, code);
    FlattenLast(rs);
    RunsOfFlatten(rs);
    MarkRunsSteps(t, code, Init);
    assert rs[..|rs|] == rs;
  }

  /** "SOS" in the standard timing, ... --- ..., decodes to "SOS". */
  lemma SosRoundTrip()
    ensures ValidMessage("SOS")
    ensures Fits(Runs(Transmit(Standard, "SOS"))) && Decode(Transmit(Standard, "SOS")) == "SOS"
  {
    StandardDecodable();
    TableCharSpec(18);
    TableCharSpec(14);
    assert Prev("SOS") == "SO" && Prev("SO") == "S";
    RoundTrip(Standard, "SOS");
  }
}
