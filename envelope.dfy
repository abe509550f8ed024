/** decode_envelope (main.c) as the block loop it is: integer counters, the 16-character symbol
    buffer and the caller's output buffer, all written in place. The comparison
    `env[i] > threshold` is taken as given: `cls[i]` is its outcome for block `i`. */
module Envelope {
  import opened MorseTable
  import opened RunLength
  import opened DecodeSpec

  /** `symbol[sym_len] = '\0'; out[out_pos++] = lookup_morse(symbol);`: terminate the pending
      marks, decode them and write the character; the caller then empties the symbol buffer. */
  method FlushSymbol(symbol: array<char>, symLen: nat, out: array<char>, outPos: nat)
      returns (outPos': nat)
    requires symbol != out
    requires symLen < symbol.Length && outPos < out.Length
    modifies symbol, out
    ensures outPos' == outPos + 1
    ensures out[..outPos'] == old(out[..outPos]) + [Lookup(old(symbol[..symLen]))]
    ensures forall k | outPos' <= k < out.Length :: out[k] == old(out[k])
    ensures symbol[..symLen] == old(symbol[..symLen]) && symbol[symLen] == '\0'
  {
    symbol[symLen] := '\0';
    assert symbol[..symLen] == old(symbol[..symLen]);
    out[outPos] := Lookup(symbol[..symLen]);
    outPos' := outPos + 1;
  }

  /** The first block opens the first run (the source's `count` starts at 0 with `prev` set to
      the first block's classification, so the first iteration only counts it). */
  lemma FirstBlock(cls: seq<bool>)
    requires 0 < |cls|
    ensures Runs(cls[..1]) == [Run(cls[0], 1)] && Closed(Runs(cls[..1])) == []
  {
    assert cls[..1][..0] == [];
  }

  /** Block `i` (past the first) continues the current run. */
  lemma SameRun(cls: seq<bool>, i: nat)
    requires 0 < i < |cls|
    requires cls[i] == Runs(cls[..i])[|Runs(cls[..i])| - 1].tone
    ensures var rs := Runs(cls[..i]);
      && Runs(cls[..i + 1]) == Closed(rs) + [Run(cls[i], rs[|rs| - 1].len + 1)]
      && Closed(Closed(rs) + [Run(cls[i], rs[|rs| - 1].len + 1)]) == Closed(rs)
  {
    RunsStep(cls, i);
    var rs := Runs(cls[..i]);
    PushLast(rs, cls[i]);
    ClosedSnoc(Closed(rs), Run(cls[i], rs[|rs| - 1].len + 1));
  }

  /** Block `i` differs from block `i - 1`: the current run has ended, the state it leads to is
      within the buffers' bounds, and block `i` opens a new run. */
  lemma NewRun(cls: seq<bool>, i: nat)
    requires 0 < i < |cls| && Fits(Runs(cls))
    requires cls[i] != Runs(cls[..i])[|Runs(cls[..i])| - 1].tone
    ensures var rs := Runs(cls[..i]);
      && Runs(cls[..i + 1]) == rs + [Run(cls[i], 1)] && Closed(rs + [Run(cls[i], 1)]) == rs
      && StepsFrom(Init, rs) == Step(StepsFrom(Init, Closed(rs)), rs[|rs| - 1])
      && |rs| < |Runs(cls)| && rs == Runs(cls)[..|rs|]
      && |StepsFrom(Init, rs).pending| <= MaxMarks
      && StepsFrom(Init, rs).out <= Decode(cls)
  {
    RunsStep(cls, i);
    var rs := Runs(cls[..i]);
    ClosedSnoc(rs, Run(cls[i], 1));
    RunsLastTone(cls, i);
    TransitionBounds(cls, i);
  }

  /** The runs counted up to a transition at block `i` are the first runs of the input, and the
      state they lead to is within the symbol buffer's bound and a start of the final text. */
  lemma TransitionBounds(cls: seq<bool>, i: nat)
    requires 0 < i < |cls| && Fits(Runs(cls)) && cls[i] != cls[i - 1]
    ensures var rs := Runs(cls[..i]);
      && |rs| < |Runs(cls)| && rs == Runs(cls)[..|rs|]
      && |StepsFrom(Init, rs).pending| <= MaxMarks
      && StepsFrom(Init, rs).out <= Decode(cls)
  {
    var rs := Runs(cls[..i]);
    TransitionEndsRun(cls, i);
    assert |StepsFrom(Init, Runs(cls)[..|rs|]).pending| <= MaxMarks;
    OutputPrefix(cls, |rs|);
  }

  /** After the last block: the state the final run starts from and the bounds it needs. */
  lemma LastRun(cls: seq<bool>)
    requires |cls| > 0 && Fits(Runs(cls))
    ensures var rs := Runs(cls); var d := StepsFrom(Init, Closed(rs));
      && |FinalState(d, rs[|rs| - 1]).pending| <= MaxMarks
      && Finish(d, rs[|rs| - 1]) == Decode(cls)
  {
    var rs := Runs(cls);
    assert rs[..|rs|] == rs;
    assert |StepsFrom(Init, rs).pending| <= MaxMarks;
  }

  /** A run of `run.len` blocks ended at a transition (the loop body of decode_envelope after
      the `cur == prev` test): the symbol and output buffers go from state `d` to Step(d, run). */
  method EndRun(symbol: array<char>, symLen: nat, out: array<char>, outPos: nat, run: Run, ghost d: Decoder)
      returns (symLen': nat, outPos': nat)
    requires symbol != out && symbol.Length == SymbolCapacity
    requires symLen <= MaxMarks && symbol[..symLen] == d.pending
    requires outPos <= out.Length && out[..outPos] == d.out
    requires |Step(d, run).pending| <= MaxMarks && |Step(d, run).out| <= out.Length
    modifies symbol, out
    ensures symLen' <= MaxMarks && symbol[..symLen'] == Step(d, run).pending
    ensures outPos <= outPos' <= out.Length && out[..outPos'] == Step(d, run).out
    ensures forall k | outPos' <= k < out.Length :: out[k] == old(out[k])
  {
    symLen', outPos' := symLen, outPos;
    if run.tone {
      symbol[symLen'] := MarkFor(run.len);
      symLen' := symLen' + 1;
      assert symbol[..symLen'] == d.pending + [MarkFor(run.len)];
    } else if run.len >= WordGapUnits {
      if symLen' > 0 {
        outPos' := FlushSymbol(symbol, symLen', out, outPos');
        symLen' := 0;
      }
      out[outPos'] := ' ';
      outPos' := outPos' + 1;
    } else if run.len >= LetterGapUnits {
      outPos' := FlushSymbol(symbol, symLen', out, outPos');
      symLen' := 0;
    }
  }

  /** The final run and the closing of the output (decode_envelope after its loop): from state
      `d`, the text Finish(d, run) and a NUL. */
  method EndFinalRun(symbol: array<char>, symLen: nat, out: array<char>, outPos: nat, run: Run, ghost d: Decoder)
    requires symbol != out && symbol.Length == SymbolCapacity
    requires symLen <= MaxMarks && symbol[..symLen] == d.pending
    requires outPos <= out.Length && out[..outPos] == d.out
    requires |FinalState(d, run).pending| <= MaxMarks && |Finish(d, run)| < out.Length
    modifies symbol, out
    ensures out[..|Finish(d, run)|] == Finish(d, run) && out[|Finish(d, run)|] == '\0'
    ensures forall k | |Finish(d, run)| < k < out.Length :: out[k] == old(out[k])
  {
    var symLen', outPos' := symLen, outPos;
    if run.tone {
      symbol[symLen'] := MarkFor(run.len);
      symLen' := symLen' + 1;
      assert symbol[..symLen'] == d.pending + [MarkFor(run.len)];
    } else if run.len >= LetterGapUnits {
      outPos' := FlushSymbol(symbol, symLen', out, outPos');
      symLen' := 0;
    }
    ghost var d' := FinalState(d, run);
    assert symbol[..symLen'] == d'.pending && out[..outPos'] == d'.out;
    if symLen' > 0 {
      outPos' := FlushSymbol(symbol, symLen', out, outPos');
    }
    assert out[..outPos'] == Finish(d, run);
    out[outPos'] := '\0';
  }

  /** What the loop of decode_envelope knows after its first `i` blocks: `runs` are their runs,
      `prev` and `count` describe the run still being counted, and `d` is the decoder state after
      every run that has already ended. */
  ghost predicate Scanned(cls: seq<bool>, i: nat, prev: bool, count: nat, runs: seq<Run>, d: Decoder)
  {
    && 0 < |cls| && i <= |cls|
    && runs == Runs(cls[..i])
    && d == StepsFrom(Init, Closed(runs))
    && (i == 0 ==> prev == cls[0] && count == 0)
    && (i > 0 ==> runs[|runs| - 1] == Run(prev, count))
  }

  /** The symbol buffer holds the pending marks of `d` and the output buffer its text. */
  ghost predicate Buffers(symbol: array<char>, symLen: nat, out: array<char>, outPos: nat, d: Decoder)
    reads symbol, out
  {
    && symLen <= MaxMarks && symLen <= symbol.Length && symbol[..symLen] == d.pending
    && outPos <= out.Length && out[..outPos] == d.out
  }

  /** Block `i` has the classification of the run being counted: the count goes up by one. */
  lemma ContinueScan(cls: seq<bool>, i: nat, prev: bool, count: nat, runs: seq<Run>, d: Decoder)
    requires i < |cls| && cls[i] == prev && Scanned(cls, i, prev, count, runs, d)
    ensures Scanned(cls, i + 1, prev, count + 1,
                    if i == 0 then [Run(prev, 1)] else Closed(runs) + [Run(prev, count + 1)], d)
  {
    if i == 0 {
      FirstBlock(cls);
    } else {
      SameRun(cls, i);
    }
  }

  /** Block `i` differs from the run being counted: that run ends, moving the decoder state
      to the state after all of `runs`, which the buffers can hold, and block `i` opens a run. */
  lemma SwitchScan(cls: seq<bool>, i: nat, prev: bool, count: nat, runs: seq<Run>, d: Decoder)
    requires i < |cls| && cls[i] != prev && Scanned(cls, i, prev, count, runs, d)
    requires Fits(Runs(cls))
    ensures i > 0 && StepsFrom(Init, runs) == Step(d, Run(prev, count))
    ensures |Step(d, Run(prev, count)).pending| <= MaxMarks
    ensures |Step(d, Run(prev, count)).out| <= |Decode(cls)|
    ensures Scanned(cls, i + 1, cls[i], 1, runs + [Run(cls[i], 1)], StepsFrom(Init, runs))
  {
    NewRun(cls, i);
  }

  /** Block `i` differs from the run being counted (the `else` of the `cur == prev` test): that
      run is ended and block `i` opens the next one. */
  method SwitchRun(cls: seq<bool>, i: nat, prev: bool, count: nat,
                   symbol: array<char>, symLen: nat, out: array<char>, outPos: nat,
                   ghost runs: seq<Run>, ghost d: Decoder)
      returns (symLen': nat, outPos': nat)
    requires i < |cls| && cls[i] != prev && Fits(Runs(cls)) && |Decode(cls)| < out.Length
    requires symbol != out && symbol.Length == SymbolCapacity
    requires Scanned(cls, i, prev, count, runs, d) && Buffers(symbol, symLen, out, outPos, d)
    modifies symbol, out
    ensures Scanned(cls, i + 1, cls[i], 1, runs + [Run(cls[i], 1)], StepsFrom(Init, runs))
    ensures Buffers(symbol, symLen', out, outPos', StepsFrom(Init, runs))
    ensures outPos <= outPos' && forall k | outPos' <= k < out.Length :: out[k] == old(out[k])
  {
    SwitchScan(cls, i, prev, count, runs, d);
    symLen', outPos' := EndRun(symbol, symLen, out, outPos, Run(prev, count), d);
  }

  /** One iteration of the block loop: block `i` either lengthens the current run or ends it. */
  method ConsumeBlock(cls: seq<bool>, i: nat, prev: bool, count: nat,
                      symbol: array<char>, symLen: nat, out: array<char>, outPos: nat,
                      ghost runs: seq<Run>, ghost d: Decoder)
      returns (prev': bool, count': nat, symLen': nat, outPos': nat, ghost runs': seq<Run>, ghost d': Decoder)
    requires i < |cls| && Fits(Runs(cls)) && |Decode(cls)| < out.Length
    requires symbol != out && symbol.Length == SymbolCapacity
    requires Scanned(cls, i, prev, count, runs, d) && Buffers(symbol, symLen, out, outPos, d)
    modifies symbol, out
    ensures Scanned(cls, i + 1, prev', count', runs', d') && Buffers(symbol, symLen', out, outPos', d')
    ensures outPos <= outPos' && forall k | outPos' <= k < out.Length :: out[k] == old(out[k])
  {
    var cur := cls[i];
    if cur == prev {
      ContinueScan(cls, i, prev, count, runs, d);
      runs' := if i == 0 then [Run(cur, 1)] else Closed(runs) + [Run(cur, count + 1)];
      prev', count', symLen', outPos', d' := prev, count + 1, symLen, outPos, d;
      assert Scanned(cls, i + 1, prev', count', runs', d') && Buffers(symbol, symLen', out, outPos', d');
    } else {
      symLen', outPos' := SwitchRun(cls, i, prev, count, symbol, symLen, out, outPos, runs, d);
      d' := StepsFrom(Init, runs);
      runs' := runs + [Run(cur, 1)];
      prev', count' := cur, 1;
      assert Scanned(cls, i + 1, prev', count', runs', d') && Buffers(symbol, symLen', out, outPos', d');
    }
  }

  /** The text decode_envelope writes into `out` for the block classifications `cls`: the decoded
      characters and spaces, then a NUL; nothing after the NUL is touched. `outSize` is accepted
      and, as in the source, never read: `out` must simply be large enough. */
  method DecodeEnvelope(cls: seq<bool>, out: array<char>, outSize: nat)
    requires |cls| >= 1
    requires Fits(Runs(cls))
    requires |Decode(cls)| < out.Length
    modifies out
    ensures out[..|Decode(cls)|] == Decode(cls)
    ensures out[|Decode(cls)|] == '\0'
    ensures forall k | |Decode(cls)| < k < out.Length :: out[k] == old(out[k])
  {
    var prev := cls[0];
    var count: nat := 0;
    var symbol := new char[SymbolCapacity];
    var symLen: nat := 0;
    var outPos: nat := 0;

    var i := 0;
    ghost var runs: seq<Run> := [];
    ghost var d := Init;
    while i < |cls|
      invariant i <= |cls|
      invariant Scanned(cls, i, prev, count, runs, d)
      invariant Buffers(symbol, symLen, out, outPos, d)
      invariant forall k | outPos <= k < out.Length :: out[k] == old(out[k])
    {
      prev, count, symLen, outPos, runs, d :=
        ConsumeBlock(cls, i, prev, count, symbol, symLen, out, outPos, runs, d);
      i := i + 1;
    }

    assert cls[..i] == cls;
    LastRun(cls);
    EndFinalRun(symbol, symLen, out, outPos, Run(prev, count), d);
  }
}
