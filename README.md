# Morse back end of morseDecoder2, in Dafny

This project models the Morse back end of `main.c`. It covers two parts:

- the Morse table, with `lookup_morse` falling back to `'?'`;
- `decode_envelope`, which reads the per-block envelope of one audio channel. It measures the
  tone and silence runs in blocks. It turns each finished tone run into a dot or a dash, and each
  silence of a letter gap or a word gap into decoded characters and spaces. It writes a
  NUL-terminated text into the caller's buffer.

The project has five modules:

- `MorseTable` (`morse_table.dfy`) holds the 36 rows of the table in source order. `Lookup` is the
  linear search of `lookup_morse`. The lemmas prove the table's shape: codes are 1 to 5 marks,
  codes are distinct, and characters are distinct. They also prove what a lookup returns.
- `RunLength` (`run_length.dfy`) defines `Runs`, the run counting of the loop, as left-to-right
  run-length encoding one block at a time. `Flatten` is its reference meaning. The lemmas prove
  that every run length is counted correctly and that the lengths add up to `blocks`. They also
  prove that a run is complete once a transition ends it.
- `DecodeSpec` (`decode_spec.dfy`) holds the decoder as functions on runs:
  - `Step` handles a run that a transition ended (the loop body);
  - `FinalState` and `Finish` handle the last run and the final flush;
  - `Decode` gives the whole text;
  - `Fits` states that the symbol buffer `symbol[16]` never has to hold more than 15 marks.
- `Envelope` (`envelope.dfy`) is `decode_envelope` as the loop it is. It has `prev`, `count`,
  `sym_len` and `out_pos` as integers, and `symbol` and `out` as arrays written in place. It is
  proved to write exactly `Decode(cls)` and a NUL, and nothing after the NUL.
- `DecodeProperties` and `RoundTrip` (`decode_properties.dfy`, `round_trip.dfy`) state what the
  decoder promises:
  - the output alphabet and a length bound;
  - how single runs, leading and trailing silences and the three kinds of gap decode;
  - the round trip: any message of table characters and single spaces, keyed with any timing
    whose element lengths fall on the right sides of the decoder's thresholds (1-3-1-3-7 blocks
    among them), decodes back to itself and fits the symbol buffer.

The comparison `env[i] > threshold` is taken as given. The model's input is the sequence
`cls: seq<bool>` of its outcomes, with `cls[i]` true for a tone block. The symbol buffer is an
array of 16 characters. The NUL that the source stores before each lookup is written into it,
and `Lookup` takes the marks before that NUL as a string.

## Model

| member | source | states |
|---|---|---|
| MorseTable.CodeOf | main.c:31-43 | the code of a character that has a table row is 1 to 5 marks, each '.' or '-' |
| MorseTable.CodesAreMarks | main.c:31-43 | every row's code is 1 to 5 marks, each '.' or '-' |
| MorseTable.CodesDistinct | main.c:31-43 | no two rows have the same code, so the search has at most one match |
| MorseTable.CharsDistinct | main.c:31-43 | no two rows have the same character |
| MorseTable.CharsAlphanumeric | main.c:31-43 | every row's character is a capital letter or a digit, so never '?', NUL or a space |
| MorseTable.TableCharSpec | main.c:31-43 | each row's character has a table code, and that code is the row's code |
| MorseTable.TableCharAlphanumeric | main.c:31-43 | a character with a table code is a capital letter or a digit |
| MorseTable.CodeOfRow | main.c:31-43 | a character with a table code stands in a row together with that code |
| MorseTable.LookupFromRow | main.c:47-49 | the search from any position up to a row whose code matches returns that row's character |
| MorseTable.LookupFromMissing | main.c:47-51 | a search from a position past which no row has the code returns '?' |
| MorseTable.LookupSpec | main.c:45-52 | the lookup returns the character of the row with that code; it returns '?' exactly when no row has the code; and a returned character's code is the code looked up |
| MorseTable.LookupCodeOf | main.c:45-52 | looking up the code of any table character gives that character back |
| MorseTable.UnlistedCodes | main.c:45-52 | the empty code, "......" and "-.-.-." have no row and give '?' |
| RunLength.PushCorrect | main.c:218-241 | one more block keeps the runs maximal and adds exactly that block to what they stand for |
| RunLength.RunsCorrect | main.c:216-242 | the counted runs are maximal (no empty run, neighbours differ) and together are exactly the input blocks |
| RunLength.RunLengthsSum | main.c:216-242 | the run lengths add up to the number of blocks |
| RunLength.RunsOfFlatten | main.c:216-242 | run counting inverts expansion on maximal runs, so the counted runs are the only maximal runs that stand for the input |
| RunLength.RunsRepeat | main.c:218-221 | blocks that all have one classification are counted as a single run of their number |
| RunLength.RunsAppendRepeat | main.c:218-241 | `n` blocks that differ from the last block open exactly one run of length `n` |
| RunLength.ClosedRunsPrefix | main.c:216-242 | after any number of blocks, the runs already ended are the first runs of the whole input, and the run being counted is the start of the next one |
| RunLength.TransitionEndsRun | main.c:217-221 | at a transition, every run counted so far, the one that just ended included, is a whole run of the input |
| RunLength.WellFormedAppend | main.c:216-242 | two maximal run sequences whose meeting runs differ join into a maximal one |
| DecodeSpec.StepExtends | main.c:223-253 | handling a run, the final run or the final flush only appends to the text |
| DecodeSpec.StepsFromExtends | main.c:216-242 | the text after a prefix of the runs is a prefix of the text after all of them |
| DecodeSpec.OutputPrefix | main.c:216-258 | whatever the loop has written after any number of runs is a start of the final text |
| Envelope.FlushSymbol | main.c:228-229 | NUL-terminates the pending marks, writes their lookup at `out_pos`, advances `out_pos` by one and changes nothing later in `out` |
| Envelope.EndRun | main.c:223-238 | a run ended by a transition moves the symbol buffer and the output from decoder state `d` to `Step(d, run)`, within the 15-mark bound, leaving the rest of `out` alone |
| Envelope.SwitchRun | main.c:223-241 | at a transition the current run ends and the next block opens a run of length 1; both buffers then hold the state after every run that has ended |
| Envelope.ConsumeBlock | main.c:216-242 | one iteration keeps the loop invariant: `prev`/`count` are the run being counted, both buffers hold the state after every ended run, and `out` past `out_pos` is untouched |
| Envelope.NewRun | main.c:223-238 | at a transition, the runs counted so far are the first runs of the whole input and block `i` opens the next one; the state after them keeps at most 15 marks pending and its text is a start of the final text |
| Envelope.TransitionBounds | main.c:217-238 | the runs counted up to a transition are a proper start of the input's runs, the state after them keeps at most 15 marks pending, and its text is a start of the final text |
| Envelope.EndFinalRun | main.c:244-260 | the last run, the final flush and the NUL leave `Finish(d, run)` followed by '\0' in `out` |
| Envelope.DecodeEnvelope | main.c:202-261 | for every input of at least one block whose marks fit `symbol[16]`, with `out` big enough, the text is `Decode(cls)` followed by a NUL, and nothing after the NUL changes |
| DecodeProperties.StepsFromAppend | main.c:216-242 | handling runs `a` and then runs `b` is handling `a + b` |
| DecodeProperties.DecodeAlphabet | main.c:223-258 | every character written is a table character, '?' or a space |
| DecodeProperties.DecodeLength | main.c:216-260 | at most one character is written per block, so `blocks + 1` characters of `out` always hold the text and its NUL |
| DecodeProperties.SingleMarks | main.c:224 | a tone shorter than 3 blocks is a dot, looked up as 'E'; one of 3 blocks or more is a dash, looked up as 'T' |
| DecodeProperties.LoneTone | main.c:244-258 | a lone tone of fewer than 3 blocks decodes to "E", and of 3 or more (exactly 3 included) to "T" |
| DecodeProperties.LoneSilence | main.c:247-253 | all-silence input decodes to "" below 3 blocks and to "?" from 3 blocks on, since the final silence flushes the empty symbol buffer and never writes a space |
| DecodeProperties.GapWithinLetter | main.c:225-238 | a silence of 1 or 2 blocks between two tones joins their marks into one character |
| DecodeProperties.GapBetweenLetters | main.c:233-237 | a silence of 3 to 6 blocks between two tones makes two characters |
| DecodeProperties.GapBetweenWords | main.c:226-232 | a silence of 7 blocks or more between two tones makes two characters with a space between them |
| DecodeProperties.LeadingSilence | main.c:226-237 | silence before the first tone gives nothing below 3 blocks; "?" for 3 to 6 blocks (the empty symbol buffer is flushed); a space with no '?' from 7 blocks on (the flush needs pending marks) |
| DecodeProperties.TrailingSilence | main.c:246-258 | after a lone tone, a silence of any length ends its character once and never writes a space |
| DecodeProperties.TrailingSilenceAfter | main.c:244-258 | after any input ending in a tone, a final silence of any length, a word gap included, leaves the text unchanged: the pending character is written once and no space is written |
| RoundTrip.ValidMessageSpaced | main.c:31-43 | the message grammar (table characters, single spaces between words) is exactly the set of strings with no leading, trailing or double space whose other characters are in the table |
| RoundTrip.MarkReadBack | main.c:224 | a mark keyed as a dot or a dash of a decodable timing is read back as the same mark |
| RoundTrip.MarkRunsSteps | main.c:216-242 | the runs of one code, with gaps shorter than a letter gap, append the code to the pending marks and write nothing |
| RoundTrip.MarkRunsPending | main.c:212-224 | while one code is keyed, no more than its marks and those already pending are pending |
| RoundTrip.TransmitShape | main.c:216-242 | a keyed message is maximal runs that start and end with a tone |
| RoundTrip.GapStep | main.c:226-237 | the gap before a character writes the previous character (and the space at a word gap) and empties the symbol buffer |
| RoundTrip.TransmitSteps | main.c:216-242 | after the runs of a message, everything but its last character is written and the last character's code is pending |
| RoundTrip.TransmitPending | main.c:212-224 | while a message is decoded, no more than five marks are ever pending in `symbol` |
| DecodeProperties.EndsInTone | main.c:244-258 | input ending in a tone decodes as if a transition ended that tone, followed by the final flush |
| RoundTrip.RoundTrip | main.c:202-261 | any message keyed with any decodable timing fits the symbol buffer and decodes back to itself |
| RoundTrip.LongCodeOverflows | main.c:212-224 | more than 15 marks with no letter gap between them do not fit `symbol[16]`, so the bound is a real restriction on inputs |
| RoundTrip.SosRoundTrip | main.c:202-261 | "SOS" keyed in the standard 1-3-1-3-7 timing fits and decodes to "SOS" |

## Left out

- `read_wav` and `free_audio`: WAV file input and memory management. These are I/O.
- `compute_envelope`: the Goertzel filter and the normalisation over `float` samples. This is floating point. Its comparison with the 0.5 threshold enters the model only as the given block classifications `cls`.
- `channel_thread` and `main`: thread creation, argument parsing, the block size of 1024 samples, the threshold 0.5, the `text[1024]` buffer and the printing. These are concurrency and I/O. `DecodeLength` states how big `out` must be for a given number of blocks; the fixed 1024 characters of the caller are not modelled.
- Envelope.DecodeEnvelope: the source writes `symbol` and `out` without bounds checks. The model makes both bounds preconditions: `Fits(Runs(cls))` for `symbol[16]`, and `|Decode(cls)| < out.Length` for `out`. It does not model what the C code does once either overflows. `LongCodeOverflows` shows that real inputs break the first bound; `DecodeLength` and `TransmitPending` give conditions under which both bounds hold.
- Envelope.DecodeEnvelope: `count`, `sym_len` and `out_pos` are unbounded `nat`s, where the source has `int` and `size_t`. No run, mark count or output position can pass `blocks`, and `blocks` is below 2^21: the WAV data size is a 32-bit count of bytes (main.c:115, 129), and a block is 1024 samples (main.c:273-274). So these counters cannot overflow, and no wrap-around is modelled.
- Envelope.DecodeEnvelope: `out_size` is accepted and never read, as in the source. `dot_units` is declared and never read in the source; neither appears in any contract.
- Envelope.DecodeEnvelope: `blocks >= 1` is a precondition, because the source reads `env[0]` unconditionally. Its only caller returns early when there are no blocks.
- MorseTable.Lookup: the function carries no `ensures` of its own. Its contract is stated by `LookupSpec`, `LookupCodeOf` and `UnlistedCodes`.
- Hysteresis, automatic gain control and adaptive timing do not exist in this code, so nothing models them.
