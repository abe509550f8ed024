/** What decode_envelope (main.c) computes, stated on runs: every run that ends at a transition
    is classified by Step, the last run by Finish. */
module DecodeSpec {
  import opened MorseTable
  import opened RunLength

  /** The timing constants of decode_envelope, in blocks (the source also declares dot_units = 1,
      which it never reads). */
  const DashUnits: nat := 3
  const LetterGapUnits: nat := 3
  const WordGapUnits: nat := 7

  /** `char symbol[16]`: room for 15 marks and the terminating NUL. */
  const SymbolCapacity: nat := 16
  const MaxMarks: nat := SymbolCapacity - 1

  /** The decoder's state between runs: the marks of the character being received (the symbol
      buffer) and the text written so far (the output buffer). */
  datatype Decoder = Decoder(pending: string, out: string)

  const Init: Decoder := Decoder([], [])

  /** A finished tone run of `count` blocks is a dot when shorter than a dash, else a dash. */
  function MarkFor(count: nat): char {
    if count < DashUnits then '.' else '-'
  }

  /** Decode the pending marks, write the character and empty the symbol buffer. */
  function Flush(d: Decoder): Decoder {
    Decoder([], d.out + [Lookup(d.pending)])
  }

  /** The handling of a run that ended at a transition (the body of the block loop). */
  function Step(d: Decoder, r: Run): Decoder {
    if r.tone then Decoder(d.pending + [MarkFor(r.len)], d.out)
    else if r.len >= WordGapUnits then
      var d' := if |d.pending| > 0 then Flush(d) else d;
      Decoder(d'.pending, d'.out + [' '])
    else if r.len >= LetterGapUnits then Flush(d)
    else d
  }

  /** The runs `rs`, in order, each ended at a transition. */
  function StepsFrom(d: Decoder, rs: seq<Run>): Decoder
    decreases |rs|
  {
    if |rs| == 0 then d else Step(StepsFrom(d, rs[..|rs| - 1]), rs[|rs| - 1])
  }

  /** The final run, which no transition ends: a tone adds its mark, a silence of a letter gap or
      more flushes (and never writes a space); then any marks still pending are decoded. */
  function FinalState(d: Decoder, r: Run): Decoder {
    if r.tone then Decoder(d.pending + [MarkFor(r.len)], d.out)
    else if r.len >= LetterGapUnits then Flush(d)
    else d
  }

  function Finish(d: Decoder, r: Run): string {
    var d' := FinalState(d, r);
    if |d'.pending| > 0 then Flush(d').out else d'.out
  }

  /** The text decode_envelope writes for the per-block classifications `cls` (tone = true),
      without the terminating NUL. */
  function Decode(cls: seq<bool>): string
    requires |cls| > 0
  {
    var rs := Runs(cls);
    Finish(StepsFrom(Init, Closed(rs)), rs[|rs| - 1])
  }

  /** The symbol buffer never has to hold more than 15 marks, after any number of runs. This is
      what `symbol[16]` needs, since the source writes it without a bounds check. */
  predicate Fits(rs: seq<Run>) {
    forall k | 0 <= k <= |rs| :: |StepsFrom(Init, rs[..k]).pending| <= MaxMarks
  }

  /** Every step only appends to the output. */
  lemma StepExtends(d: Decoder, r: Run)
    ensures d.out <= Step(d, r).out
    ensures d.out <= FinalState(d, r).out && FinalState(d, r).out <= Finish(d, r)
  {
  }

  lemma {:induction false} StepsFromExtends(d: Decoder, rs: seq<Run>, k: nat)
    requires k <= |rs|
    ensures StepsFrom(d, rs[..k]).out <= StepsFrom(d, rs).out
    decreases |rs|
  {
    if k < |rs| {
      assert rs[..|rs| - 1][..k] == rs[..k];
      StepsFromExtends(d, rs[..|rs| - 1], k);
      StepExtends(StepsFrom(d, rs[..|rs| - 1]), rs[|rs| - 1]);
    } else {
      assert rs[..k] == rs;
    }
  }

  /** The output is written append-only: after the first `k` runs of the input have ended at a
      transition, what has been written is a start of the final text. */
  lemma OutputPrefix(cls: seq<bool>, k: nat)
    requires |cls| > 0 && k < |Runs(cls)|
    ensures StepsFrom(Init, Runs(cls)[..k]).out <= Decode(cls)
  {
    var rs := Runs(cls);
    assert Closed(rs)[..k] == rs[..k];
    StepsFromExtends(Init, Closed(rs), k);
    StepExtends(StepsFrom(Init, Closed(rs)), rs[|rs| - 1]);
  }
}
