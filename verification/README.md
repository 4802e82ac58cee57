# CW decoder: verified model

A Dafny model of the Morse (CW) decoder in `experiments/cw-decoder`, from the point where audio has become
a sequence of envelope numbers or of classified events, with proofs about it. `dafny verify dfyconfig.toml`
checks everything.

## What is modelled

- **Keying and decoding.** `MorseCode` holds the decoder's table and the two encoders' tables. `Keying` holds the
  classification of durations, the machine that copies classified events, and the batch decoder as a loop over
  elements and gaps. `Encoding`, `RoughFist` and `SuiteEvents` hold the two text encoders and prove that the decoder
  undoes them, with bounds on jitter, weight and Farnsworth spacing that are both sufficient and necessary. Code
  points and the nominal 1:3:1:3:7 timing are those of Annex 1, Part I, sections 1.1 and 2 of Recommendation ITU-R
  M.1677-1. `Hysteresis` turns an envelope into events and is proved against a closed form that has one solution.
- **Overlapping windows.** `AppendDecoder` and `CommitCursor` see the same audio again in every rolling window.
  The first is proved to take each event once over whole runs; for the second `CursorRuns` proves exactly which runs
  it reads right. `Pipeline` joins encoder, classification and append decoder end to end. `Stabilizer` is the
  text-level alternative: commit what several decodes agree on.
- **Tracking several stations.** `Assignment` is the brute-force matching of peaks to tracks, proved to be a global
  optimum, with the greedy fallback; `TrackIdentity` is the streamer that keeps track ids over whole runs.
- **Speed.** `SpeedLock` is the machine that acquires and releases a speed lock; `TwoMeans` estimates the dot length,
  and is proved to find the dots among durations in two groups.
- **Scoring.** `EditDistance` proves four forms of the Levenshtein distance equal to the length of a shortest chain of
  single edits; `LatencyRate` evens texts out before measuring them; `GhostChars` bounds the bag counts by the
  distance; `NeedlemanWunsch` and `CommonSubstring` prove their tables against alignments and shared stretches;
  `GateClock`, `BenchRun` and `Stability` conserve time; `VisibleCopy` dates characters.
- **Plumbing.** `RingDrain` is the capture ring with its drain loop, and `Spans` the merging of active frames.

Classes stand for the source's mutable objects. Each of their methods is tied to a function of the old state, or to a
relation between old and new state, and the lemmas over runs are about that function. A lemma beside it, such as
`AppendDecoder.EventTaken` or `GateClock.ClockExactly`, says what it computes in terms of the inputs alone.

Floating-point durations, speeds and pitches are `real`; sample and frame counts are unbounded integers unless a wrap
or saturation is stated. Goertzel powers, pitch peaks and decodes by other programs are arbitrary inputs. In
`Hysteresis` the lower threshold is not above the upper one: every caller takes both at fixed fractions of a positive
span.

## Where code and documentation differ

- The cursor's comment (ditdah_streaming.rs:791-793) promises that re-feeding a frame produces no new text and no
  cursor motion. That holds. Its pending elements do grow, so the next gap can commit a wrong character
  (`CommitCursor.OverlapMisreads`); `CursorRuns.ReadRightExactly` says exactly when a run is read right.
- The lock is documented to be released after consecutive mismatches. The code also counts mismatches separated by
  frames without enough evidence (`SpeedLock.LockIsReleased`, with a run in `SpeedLock.InterruptedMismatchesRelease`).
- The stability tracker's final transition is meant to credit the trailing interval. In the hunting state it returns
  at once and credits nothing (`Stability.UptimeIsConserved`).
- The rough-fist truth text starts with a space when its first word has no encodable character
  (`RoughFist.CanonicalIsJoined`, with a text in `RoughFist.LostFirstWord`).
- The rough-fist generator's draws are documented to lie in [-1, 1). None is above 0 (`RoughFist.DrawIsAtMostTop`;
  rounding to single precision reaches 0 and does not pass it), so jitter only ever shortens.

## Model

| member | source | states |
|---|---|---|
| `EditDistance.NoShorterChain` | experiments/cw-decoder/src/corpus_validator.rs:359-367 | No sequence of single insertions, deletions and substitutions from one text to the other is shorter than the value of the recurrence. |
| `EditDistance.ShortestChain` | experiments/cw-decoder/src/corpus_validator.rs:359-367 | Some sequence of single edits is exactly that long, so the recurrence is the minimum number of edits. |
| `EditDistance.LevSymmetric` | experiments/cw-decoder/scripts/bench_adversarial.py:64-74 | The distance is symmetric, which is what lets the script swap its arguments. |
| `EditDistance.LevTriangle` | experiments/cw-decoder/src/corpus_validator.rs:359-367 | The distance satisfies the triangle inequality. |
| `EditDistance.LevZero` | experiments/cw-decoder/src/bench_latency.rs:439-465 | The distance is 0 exactly for equal texts. |
| `EditDistance.LevLengths` | experiments/cw-decoder/src/bench_latency.rs:439-465 | The distance lies between the difference and the larger of the lengths. |
| `EditDistance.CellStep` | experiments/cw-decoder/src/corpus_validator.rs:362-363 | One cell of the table follows from its three neighbours, for distances of prefixes. |
| `EditDistance.CharErrorRate` | experiments/cw-decoder/src/corpus_validator.rs:351-368 | The rate is the distance over the reference length; an empty reference gives 0 or 1. |
| `EditDistance.TwoRowDistance` | experiments/cw-decoder/src/corpus_validator.rs:357-367 | The two swapped row buffers compute the distance. |
| `LatencyRate.NormaliseForCer` | experiments/cw-decoder/src/bench_latency.rs:418-433 | The character loop yields the words of the text, upper-cased, with single spaces between them, for any casing table. |
| `LatencyRate.CharacterErrorRate` | experiments/cw-decoder/src/bench_latency.rs:439-465 | No rate for two texts that even out to nothing; otherwise the distance of the evened texts over the larger length, within [0, 1], and 0 exactly when they are equal. |
| `EditDistance.Levenshtein` | experiments/cw-decoder/scripts/bench_adversarial.py:64-74 | The form that swaps its arguments and grows rows by appending computes the same distance. |
| `EditDistance.FullMatrixDistance` | tools/rolling-whole-buffer/main.rs:7-20 | The full-matrix form computes the same distance. |
| `GhostChars.GhostAndMissingChars` | experiments/cw-decoder/src/corpus_validator.rs:383-409 | Ghosts and missing are the sizes of the two multiset differences of the non-whitespace characters. |
| `GhostChars.BagCounts` | experiments/cw-decoder/src/corpus_validator.rs:384-398 | In the multisets every character but whitespace counts as often as it stands in the text. |
| `GhostChars.GhostsBalance` | experiments/cw-decoder/src/corpus_validator.rs:370-409 | Ghosts less missing is the difference of the numbers of non-whitespace characters. |
| `GhostChars.GhostsBoundedByEdits` | experiments/cw-decoder/src/corpus_validator.rs:351-409 | Neither count ever exceeds the edit distance. |
| `NeedlemanWunsch.ScoreBound` | experiments/cw-decoder/scripts/bench_adversarial.py:91-104 | No global alignment scores above the table entry. |
| `NeedlemanWunsch.ScoreAttained` | experiments/cw-decoder/scripts/bench_adversarial.py:91-110 | Some alignment has exactly the score of the table entry and exactly as many matching columns as its count. |
| `NeedlemanWunsch.EntryIsOptimum` | experiments/cw-decoder/scripts/bench_adversarial.py:76-111 | So the score is the maximum over all alignments and the count belongs to an optimal one. |
| `NeedlemanWunsch.PreferredAttained` | experiments/cw-decoder/scripts/bench_adversarial.py:97-110 | That alignment is the one that, column by column from the end, takes a pair before a gap and up before left among the optimal ones. |
| `NeedlemanWunsch.PreferredIsUnique` | experiments/cw-decoder/scripts/bench_adversarial.py:97-103 | There is only one such alignment, so the ties are settled as in the script. |
| `NeedlemanWunsch.RecallAndPrecision` | experiments/cw-decoder/scripts/bench_adversarial.py:148-170 | The count is at most either length, and reaches both exactly when the texts are equal. |
| `NeedlemanWunsch.NeedlemanWunschMatch` | experiments/cw-decoder/scripts/bench_adversarial.py:76-111 | The two filled tables yield the matches of the preferred optimal alignment, including the early return for an empty text. |
| `Assignment.AssignTracks` | experiments/cw-decoder/src/envelope_decoder.rs:1900-1989 | An injective matching within the tolerance; of least total price over all such matchings, and the first such in code order, while the codes number at most 100,000; otherwise greedy; either way no free pair strictly closer than the tolerance is left. |
| `Assignment.OptimalIsMaximal` | experiments/cw-decoder/src/envelope_decoder.rs:1969-1983 | A cheapest matching leaves no unmatched peak and unmatched track strictly closer than the tolerance. |
| `Assignment.EncodeRoundTrip` | experiments/cw-decoder/src/envelope_decoder.rs:1928-1957 | Every matching has a code below the number of codes that reads back as it, so the search misses none. |
| `Assignment.ReadCode` | experiments/cw-decoder/src/envelope_decoder.rs:1939-1960 | A code is read as its matching exactly when no track is used twice. |
| `Assignment.TotalCost` | experiments/cw-decoder/src/envelope_decoder.rs:1961-1979 | A matching is priced exactly when all its pairs are within tolerance; unmatched peaks cost the tolerance. |
| `Assignment.PriceOfMatch` | experiments/cw-decoder/src/envelope_decoder.rs:1961-1979 | A match changes the price by its distance less the tolerance, whatever else is matched. |
| `Assignment.PriceOfNone` | experiments/cw-decoder/src/envelope_decoder.rs:1969-1976 | Without a match the price is the tolerance for every peak. |
| `Assignment.Search` | experiments/cw-decoder/src/envelope_decoder.rs:1939-1988 | The search over all codes returns an optimal matching, the first in code order. |
| `Assignment.GreedyAssignment` | experiments/cw-decoder/src/envelope_decoder.rs:1991-2013 | The fallback is injective, within tolerance, and serves every finite pair with one no farther. |
| `TrackIdentity.LiveMultiPitchStreamer.DecodeNow` | experiments/cw-decoder/src/envelope_decoder.rs:1812-1892 | One cycle: matched peaks keep their track ids, new peaks get fresh ones, unmatched tracks age or expire; the snapshots append what is new of each transcript. |
| `TrackIdentity.CycleStores` | experiments/cw-decoder/src/envelope_decoder.rs:1829-1890 | Track by track: every peak is stored with its pitch and transcript under the id of its match or the next free one modulo 32 bits; of the others exactly the unmatched ones short of the expiry stay, as they were but a cycle older. |
| `TrackIdentity.AppendedIsNew` | experiments/cw-decoder/src/envelope_decoder.rs:1849-1866 | A peak matched to a track heard in the cycle before is reported with its text beyond that of the cycle before, or with all of it. |
| `TrackIdentity.StepKeepsWellFormed` | experiments/cw-decoder/src/envelope_decoder.rs:1824-1890 | Live ids stay pairwise distinct and below the next id, which never decreases, and ids in use are old or newly minted. |
| `TrackIdentity.RunKeepsWellFormed` | experiments/cw-decoder/src/envelope_decoder.rs:1812-1892 | The same over every run without wrap-around. |
| `TrackIdentity.DroppedIdNeverReturns` | experiments/cw-decoder/src/envelope_decoder.rs:1844-1846 | An id once dropped is never live again. |
| `TrackIdentity.TrackStep` | experiments/cw-decoder/src/envelope_decoder.rs:1833-1888 | A live id stays live exactly when it is heard or has not reached the expiry, and moves by at most the tolerance. |
| `TrackIdentity.PitchMovesAtMostTolerance` | experiments/cw-decoder/src/envelope_decoder.rs:1825-1871 | In every run the pitch of an id moves by at most the tolerance per cycle. |
| `TrackIdentity.SurvivesExactlyExpiryMinusOne` | experiments/cw-decoder/src/envelope_decoder.rs:1874-1888 | A track last heard m cycles ago is live exactly when m is less than the expiry. |
| `TrackIdentity.WrapCollides` | experiments/cw-decoder/src/envelope_decoder.rs:1845 | At the 32-bit wrap a fresh id can equal a live one. |
| `TrackIdentity.DistinctExactly` | experiments/cw-decoder/src/envelope_decoder.rs:1824-1890 | Exactly when a cycle keeps the ids distinct, wrap or no wrap: when no id it mints is that of a track it keeps. |
| `TrackIdentity.RunDistinctExactly` | experiments/cw-decoder/src/envelope_decoder.rs:1812-1892 | Over every run, however often the counter wraps, the ids are distinct throughout if and only if every cycle meets that condition. |
| `MorseCode.TableRoundTrip` | experiments/cw-decoder/src/main.rs:4098-4145 | Every character the encoder knows is decoded back from its code, in upper case. |
| `MorseCode.ReadsExactly` | experiments/cw-decoder/src/envelope_decoder.rs:1512-1570 | The decoder reads a code as a character if and only if it is the code of that character: for the 26 capitals, 10 figures and 18 signs, and for nothing else. |
| `MorseCode.DecodedIsPrintable` | experiments/cw-decoder/src/envelope_decoder.rs:1512-1570 | Decoded characters are printable and never the unknown-code mark. |
| `MorseCode.LongerReadsOtherwise` | experiments/cw-decoder/src/envelope_decoder.rs:1512-1570 | A known code with elements before it is read as another character, or as none. |
| `Keying.DecodeEvents` | experiments/cw-decoder/src/envelope_decoder.rs:1440-1478 | The loop over elements and gaps is one pass of the copying machine over the classified events, flushed and trimmed. |
| `Keying.TwoElements` | experiments/cw-decoder/src/envelope_decoder.rs:1440-1478 | Two elements and the gap between them: an element of two dots is a dah, a gap of two dots ends the character, one of five the word. |
| `Keying.ListenIsPlay` | experiments/cw-decoder/src/envelope_decoder.rs:1440-1478 | Elements and merged gaps of a rightly timed keying, classified by duration, copy exactly what was keyed. |
| `Keying.DecodeRightlyTimed` | experiments/cw-decoder/src/envelope_decoder.rs:1440-1478 | A keying whose every element and gap is on its side of the thresholds decodes to what its events spell. |
| `Keying.CopiedRemarked` | experiments/cw-decoder/src/append_decode.rs:105-113 | Copying with the append decoder mark for unknown codes is copying with the batch mark, with the marks exchanged. |
| `RoughFist.RunGenRoughFist` | experiments/cw-decoder/src/main.rs:4189-4255 | The generator keys the events of the words with jittered lengths, and writes the canonical text. |
| `RoughFist.StretchLengths` | experiments/cw-decoder/src/main.rs:4173-4176 | Each stretch keyed lasts its nominal dots, 1, 3 and 7 for gaps and the set weight and ratio for elements, times one and its draw of the jitter, and at least a tenth of that. |
| `RoughFist.CanonicalIsJoined` | experiments/cw-decoder/src/main.rs:4243-4248 | The canonical text is the encodable words joined by spaces, after a stray leading space when the first word has nothing encodable but a later one has. |
| `RoughFist.DecodedIsJoined` | experiments/cw-decoder/src/main.rs:4189-4255 | Within the bounds the decoder returns the encodable words joined by spaces, for all draws up to the largest. |
| `RoughFist.RoundTrip` | experiments/cw-decoder/src/main.rs:4189-4255 | Within the bounds decoding returns the canonical text exactly when the first word is not lost. |
| `RoughFist.LostFirstWord` | experiments/cw-decoder/src/main.rs:4243-4248 | Such a first word: the canonical text of "%" and "E" is a space and an E. |
| `RoughFist.DrawIsAtMostTop` | experiments/cw-decoder/src/main.rs:4165-4172 | The draws of the generator lie between -1 and 0: a 64-bit state shifted by 33 is divided by all of 32 bits. |
| `RoughFist.BoundsSuffice` | experiments/cw-decoder/src/main.rs:4189-4255 | The bounds on jitter, dah ratio and dit weight suffice for every text and every draw up to the largest. |
| `RoughFist.BoundsAreSharpUpTo` | experiments/cw-decoder/src/main.rs:4173-4176 | Whatever the largest draw, every text comes back for every draw if and only if jitter is at most 2/7 and dits and dahs stay on their sides of two dots. |
| `RoughFist.BoundsAreSharp` | experiments/cw-decoder/src/main.rs:4165-4176 | For draws between -1 and 0, as the generator makes them, every text comes back if and only if jitter is at most 2/7, the dit weight below 2, and the dah ratio shortened by the jitter at least 2. |
| `RoughFist.NominalTolerance` | experiments/cw-decoder/src/main.rs:4189-4255 | At the nominal dah of 3 and dit of 1, exactly the jitters up to 2/7 are survived, whatever the largest draw. |
| `SuiteEvents.TextToEvents` | experiments/cw-decoder/scripts/generate_adversarial_suites.py:77-135 | The events are those of the words, with the rounded lengths, laid end to end from the start sample. |
| `SuiteEvents.TimingExactly` | experiments/cw-decoder/scripts/generate_adversarial_suites.py:91-111 | The five lengths: 1, 3 and 1 dots at 1.2 s by the element speed and 3 and 7 dots at the slower of the speeds, each to the nearest sample, ties to even, and at least one. |
| `SuiteEvents.PlayText` | experiments/cw-decoder/scripts/generate_adversarial_suites.py:113-135 | Played, the events spell the encodable words joined by single spaces, whatever is skipped. |
| `SuiteEvents.RoundTripExactly` | experiments/cw-decoder/scripts/generate_adversarial_suites.py:107-135 | Every text comes back from the decoder at the element dot if and only if the dot is longer than half a sample and the rounded letter gap below five dots. |
| `SuiteEvents.ExactRoundTrip` | experiments/cw-decoder/scripts/generate_adversarial_suites.py:91-105 | In the durations before rounding, every text comes back if and only if the letter gap is below five dots. |
| `SuiteEvents.FarnsworthThreshold` | experiments/cw-decoder/scripts/generate_adversarial_suites.py:91-105 | Before rounding, the letter gap is below five dots if and only if there is no slower Farnsworth speed or it exceeds 3/5 of the element speed. |
| `SuiteEvents.FarnsworthRoundTrip` | experiments/cw-decoder/scripts/generate_adversarial_suites.py:77-135 | So in exact durations every text comes back if and only if there is no Farnsworth speed or it exceeds 3/5 of the element speed. |
| `SuiteEvents.SuiteRoundTrip` | experiments/cw-decoder/scripts/generate_adversarial_suites.py:77-135 | Events laid out for a text decode to the text when the dot is longer than half a sample and the rounded letter gap is below five dots. |
| `AppendDecoder.AppendEventDecoder.IngestViz` | experiments/cw-decoder/src/append_decode.rs:41-98 | One frame: its stable events past the mark are taken in order; the update says whether a character ended, which is whether a separator was added to the raw stream. |
| `AppendDecoder.EventTaken` | experiments/cw-decoder/src/append_decode.rs:41-96 | In the fields of the frame: an event is taken if and only if it ends more than 16 samples past the mark, and, in whole samples, a tenth of a second and eight dots before the end of the window, the dot being that of the frame, else of its speed, else 40 ms; and what each kind then adds to raw stream, text and open character. |
| `AppendDecoder.ChangedMarksRaw` | experiments/cw-decoder/src/append_decode.rs:70-97 | A pass over the events reports a change exactly when it adds a separator to the raw stream, and only ever adds to it. |
| `AppendDecoder.AppendEventDecoder.FlushAll` | experiments/cw-decoder/src/append_decode.rs:100-113 | Flushing ends the pending character, once. |
| `AppendDecoder.ExactlyOnce` | experiments/cw-decoder/src/append_decode.rs:41-98 | After every run of overlapping frames over a well-spaced timeline, text, raw stream and pending elements are those of one pass over a prefix, and the prefix holds exactly the events that were stable in some frame. |
| `AppendDecoder.ReingestChangesNothing` | experiments/cw-decoder/src/append_decode.rs:60-98 | Taking any earlier frame again, after any run at all, changes nothing. |
| `AppendDecoder.JitterBoundIsSharp` | experiments/cw-decoder/src/append_decode.rs:66-68 | For every jitter above half the epsilon, two frames that see one event at its extremes make the decoder take it twice. |
| `Pipeline.DecodersAgree` | experiments/cw-decoder/src/append_decode.rs:41-113 | What the append decoder prints after a good run, flushed, is the batch decoding of the stable elements and gaps with the mark exchanged. |
| `Pipeline.VizKindsPrefix` | experiments/cw-decoder/src/envelope_decoder.rs:1110-1137 | The first n classified events are those of the first elements and gaps. |
| `Pipeline.KeyedTextIsPrinted` | experiments/cw-decoder/src/envelope_decoder.rs:1440-1478 | A text keyed within the bounds and shown in overlapping windows until all of it was stable is printed as its words joined by spaces. |
| `CommitCursor.LiveCommitCursor.UpdateFromViz` | experiments/cw-decoder/src/ditdah_streaming.rs:794-900 | One frame: gated frames change nothing; otherwise the cursor is placed, a gap is reported, and the events of the safe interior are played. |
| `CommitCursor.GatedFrameChangesNothing` | experiments/cw-decoder/src/ditdah_streaming.rs:799-816 | A suppressed frame, one without a speed lock and one with an empty window leave the cursor as it was. |
| `CommitCursor.FramePlaces` | experiments/cw-decoder/src/ditdah_streaming.rs:818-847 | Any other frame first sets a new cursor to its safe start, and moves one left more than 32 samples behind there and drops its open character; the safe start is a tenth of a second or two dots into the window. |
| `CommitCursor.FrameReaches` | experiments/cw-decoder/src/ditdah_streaming.rs:832-895 | After any such frame the cursor is set and at most 32 samples behind the safe start. |
| `CommitCursor.EventRead` | experiments/cw-decoder/src/ditdah_streaming.rs:849-895 | In the fields of the frame: an event is read if and only if it ends more than 32 samples past where the frame placed the cursor, starts in the safe interior and not before the cursor, and ends before the window by the largest of half a second, eight dots and two decode intervals; and what each kind then does to cursor, text and open character. |
| `CommitCursor.IdleFramesChangeNothing` | experiments/cw-decoder/src/ditdah_streaming.rs:802-816 | A run ends in the same cursor with its suppressed, unlocked and empty frames removed. |
| `CommitCursor.CapExactly` | experiments/cw-decoder/src/ditdah_streaming.rs:982-1001 | A text over the limit is cut to exactly four fifths of the limit, less all up to the first whitespace in that. |
| `CommitCursor.LiveCommitCursor.CapCommitted` | experiments/cw-decoder/src/ditdah_streaming.rs:982-1001 | Past the limit the text is cut to four fifths of it, at the next whitespace if there is one. |
| `CommitCursor.CapKeepsSuffix` | experiments/cw-decoder/src/ditdah_streaming.rs:982-1001 | The cut keeps a suffix within the limit, and a text within it whole. |
| `CommitCursor.UpdateGrows` | experiments/cw-decoder/src/ditdah_streaming.rs:794-900 | A frame never moves the cursor back and only appends, apart from the cap; unlocked or suppressed frames change nothing. |
| `CommitCursor.RunGrows` | experiments/cw-decoder/src/ditdah_streaming.rs:787-900 | The same over every run of frames and lost locks, between any two moments of it. |
| `CommitCursor.RefeedCommitsNothing` | experiments/cw-decoder/src/ditdah_streaming.rs:791-895 | A frame of time-ordered events fed again changes neither committed text nor cursor; it changes nothing at all if and only if no element is left between the last committed gap and the trailing guard. |
| `CommitCursor.OverlapMisreads` | experiments/cw-decoder/src/ditdah_streaming.rs:871-888 | A dit seen in two windows before its gap is committed is counted twice: an E is committed as an I. |
| `CursorRuns.RunAt` | experiments/cw-decoder/src/ditdah_streaming.rs:832-888 | Over every run of frames that lose no event, the cursor stands where the first event not committed begins. |
| `CursorRuns.FrameIsPass` | experiments/cw-decoder/src/ditdah_streaming.rs:849-895 | A frame is one pass over the stable events not yet committed, from what earlier frames left pending. |
| `CursorRuns.PendingExactly` | experiments/cw-decoder/src/ditdah_streaming.rs:871-888 | Elements are pending after a run if and only if some frame left one that still counts and no gap, skip or lost lock has dropped it since. |
| `CursorRuns.FlushedExactly` | experiments/cw-decoder/src/ditdah_streaming.rs:885-893 | The code flushed at any gap in any run is the code keyed if and only if the frame commits an earlier gap or nothing lingers from earlier frames; otherwise it is longer. |
| `CursorRuns.ReadRightExactly` | experiments/cw-decoder/src/ditdah_streaming.rs:794-900 | Every code flushed in a run is the code keyed if and only if nothing lingers from an earlier frame whenever a gap is committed. |
| `CursorRuns.TextExactly` | experiments/cw-decoder/src/ditdah_streaming.rs:794-900 | Then the committed text is one pass over the events up to the last committed gap, unknown codes dropped and the text capped. |
| `CursorRuns.NothingLeftIsExact` | experiments/cw-decoder/src/ditdah_streaming.rs:794-900 | When after no frame an element still counts, all codes and the text are right and nothing is pending. |
| `CursorRuns.LingeringMisreads` | experiments/cw-decoder/src/ditdah_streaming.rs:871-893 | When an element lingers and the next gap is committed, the code flushed there is longer than the one keyed and is read as another character, or as none. |
| `TwoMeans.EstimateDotKmeans` | experiments/cw-decoder/src/envelope_decoder.rs:445-499 | The loop computes the iterated means; the result is 0 for no durations and otherwise lies between two of the durations, on every branch. |
| `TwoMeans.FindsTheDots` | experiments/cw-decoder/src/envelope_decoder.rs:445-499 | Of durations in two groups, each narrower than the gap between them and each holding more than a quarter of all, the estimate is exactly the mean of the short ones if the long ones are half as long again on average, and otherwise the median of the shorter half of all. |
| `TwoMeans.FallsBack` | experiments/cw-decoder/src/envelope_decoder.rs:1502-1510 | Of fewer than four durations, or of durations all alike, it is the median of the shorter half: at least half of all are no shorter. |
| `TwoMeans.EstimateIsRun` | experiments/cw-decoder/src/envelope_decoder.rs:453-498 | Of four or more with different quartiles it is the lower centroid after a run from the quartiles of at most 16 moves, ended by the first below a hundredth of a millisecond, unless the higher centroid is below one and a half times the lower. |
| `TwoMeans.NextKeepsOrder` | experiments/cw-decoder/src/envelope_decoder.rs:466-486 | An iteration keeps the low centroid below the high one and both within the range of the durations. |
| `TwoMeans.IterateKeepsOrder` | experiments/cw-decoder/src/envelope_decoder.rs:461-494 | So do all iterations. |
| `TwoMeans.NextNeverSpreads` | experiments/cw-decoder/src/envelope_decoder.rs:466-486 | An iteration never increases the total squared distance to the nearest centroid. |
| `TwoMeans.IterateNeverSpreads` | experiments/cw-decoder/src/envelope_decoder.rs:461-494 | Nor do all iterations together. |
| `TwoMeans.EstimateIsBetween` | experiments/cw-decoder/src/envelope_decoder.rs:445-499 | The estimate lies within the range of the durations on every branch. |
| `Hysteresis.EventsWithTimes` | experiments/cw-decoder/src/envelope_decoder.rs:1174-1245 | The on events are exactly the maximal runs of frames held since one above the upper threshold with none below the lower one since, when long enough; on and off alternate and tile without gap or overlap. |
| `Hysteresis.KeyedNext` | experiments/cw-decoder/src/envelope_decoder.rs:1181-1222 | The machine step is the step of that closed form. |
| `Hysteresis.EventsAreUnique` | experiments/cw-decoder/src/envelope_decoder.rs:1174-1245 | Only one list of events fits the closed form. |
| `Hysteresis.MinFramesIsExact` | experiments/cw-decoder/src/envelope_decoder.rs:1174-1245 | The minimum duration in seconds is a minimum number of frames. |
| `SpeedLock.LiveEnvelopeStreamer.DecodeNow` | experiments/cw-decoder/src/envelope_decoder.rs:820-885 | One cycle of the speed lock: acquire, watch for release, remember the reading. |
| `SpeedLock.LiveEnvelopeStreamer.SetPinnedWpm` | experiments/cw-decoder/src/envelope_decoder.rs:694-700 | Pinning replaces the lock and clears the counters and the reading. |
| `SpeedLock.PinHolds` | experiments/cw-decoder/src/envelope_decoder.rs:694-700 | A positive pin is the lock after whatever is decoded from then on; any other pin resets everything. |
| `SpeedLock.LockIsAgreed` | experiments/cw-decoder/src/envelope_decoder.rs:820-835 | Over all runs, a lock is acquired if and only if the command before was a cycle, both cycles read speeds in (5, 45] at most 2 apart, and this one has ten elements; and it is on the speed read. |
| `SpeedLock.LockIsReleased` | experiments/cw-decoder/src/envelope_decoder.rs:848-879 | Over all runs, a lock is given up if and only if it is not pinned and the frame is the fifth mismatch since the last agreement, or the tenth suppressed frame on end, under this lock. |
| `SpeedLock.EvidenceExactly` | experiments/cw-decoder/src/envelope_decoder.rs:857-869 | A frame mismatches or agrees only with ten elements, unsuppressed, and a centroid reading above 5; it mismatches when that is more than 5 from the lock. |
| `SpeedLock.RunsAreConsistent` | experiments/cw-decoder/src/envelope_decoder.rs:848-885 | In every run the counters are those open mismatches and trailing suppressed frames, below their limits while locked. |
| `SpeedLock.OpenMismatchesMeaning` | experiments/cw-decoder/src/envelope_decoder.rs:865-869 | The mismatches counted are those of the longest final stretch of frames without an agreement. |
| `SpeedLock.TrailingSuppressedMeaning` | experiments/cw-decoder/src/envelope_decoder.rs:852-856 | The suppressed frames counted are the longest final stretch of them. |
| `SpeedLock.InterruptedMismatchesRelease` | experiments/cw-decoder/src/envelope_decoder.rs:862-878 | A run in which no two mismatches follow on each other, each coming after a frame without evidence, loses the lock with the fifth. |
| `Stabilizer.NormalizeCleans` | experiments/cw-decoder/src/ditdah_streaming.rs:7-9 | A normalized text has single spaces, no outer whitespace and no split Q; exactly such texts are left unchanged. |
| `Stabilizer.NormalizeIsIdempotent` | experiments/cw-decoder/src/ditdah_streaming.rs:279-284 | Normalizing twice is normalizing once. |
| `Stabilizer.NormalizeKeeps` | experiments/cw-decoder/src/ditdah_streaming.rs:7-9 | Normalizing loses no letter: token by token the text and its normal form are the same with every Q written as G and T; without a split Q the tokens are the same. |
| `Stabilizer.NormalFormIsUnique` | experiments/cw-decoder/src/ditdah_streaming.rs:279-284 | The normal form is the only clean text with the same letters in every token. |
| `Tokens.SplitExactly` | experiments/cw-decoder/src/ditdah_streaming.rs:8 | Splitting falls apart at every whitespace character and leaves every token whole. |
| `Stabilizer.CommonTokenPrefix` | experiments/cw-decoder/src/ditdah_streaming.rs:618-643 | The result is the longest token sequence with which every snapshot begins. |
| `Stabilizer.LongestSuffixPrefixOverlap` | experiments/cw-decoder/src/ditdah_streaming.rs:590-616 | The longest end of one that begins the other, over tokens and over characters. |
| `Stabilizer.RepeatsAtJoin` | experiments/cw-decoder/src/ditdah_streaming.rs:570-585 | A near repeat is a run of 3 to 8 tokens, four in five of them equal apart from case, at the join. |
| `Stabilizer.RepeatsExactly` | experiments/cw-decoder/src/ditdah_streaming.rs:558-585 | A near repeat counts the places in which the 3 to 8 tokens agree, letters of either case being the same: at least four in five. |
| `Stabilizer.AppendSnapshotText` | experiments/cw-decoder/src/ditdah_streaming.rs:475-539 | The transcript grows by exactly what is returned, which is what the cases add for the normalized snapshot. |
| `Stabilizer.AppendedExactly` | experiments/cw-decoder/src/ditdah_streaming.rs:475-539 | What is added, in this order: nothing of a snapshot already heard; the rest of one the transcript begins; the rest past the longest shared tokens, else past the longest shared characters; the rest past the first place the transcript stands at; else all of it after a space; and nothing where it would nearly repeat. |
| `Stabilizer.TakenIn` | experiments/cw-decoder/src/ditdah_streaming.rs:475-539 | The grown transcript is clean and contains the whole snapshot, except exactly when the snapshot is dropped as a near repeat or has the transcript inside it after something else. |
| `Stabilizer.AppendedEndsSnapshot` | experiments/cw-decoder/src/ditdah_streaming.rs:475-539 | What is returned, less one optional separator, is an end of the snapshot. |
| `Stabilizer.AppendedOnce` | experiments/cw-decoder/src/ditdah_streaming.rs:475-539 | The same snapshot again adds nothing if and only if the transcript did not stand inside it, or the grown transcript stands first at its very end, or it is dropped as a near repeat. |
| `Stabilizer.InsideIsAppendedAgain` | experiments/cw-decoder/src/ditdah_streaming.rs:519-523 | With the transcript inside the snapshot, the same snapshot again does add text. |
| `Stabilizer.AgreedBeforeCommit` | experiments/cw-decoder/src/ditdah_streaming.rs:266-267 | What is committed for an agreed prefix stands in every one of the agreeing snapshots. |
| `Stabilizer.PrefixStabilizer.PushSnapshot` | experiments/cw-decoder/src/ditdah_streaming.rs:220-268 | Rejected snapshots change nothing; an accepted one commits only once enough are held, and then what their longest common token prefix adds; the committed text stays the concatenation of all returned pieces, each confirmed by that many consecutive accepted snapshots. |
| `Stabilizer.PrefixStabilizer.FinalizeLatest` | experiments/cw-decoder/src/ditdah_streaming.rs:270-272 | The latest accepted snapshot is appended unconfirmed, and the same invariant is kept. |
| `Stabilizer.PrefixStabilizer.Transcript` | experiments/cw-decoder/src/ditdah_streaming.rs:274-276 | The trimmed transcript is the committed text itself, and the concatenation of everything returned. |
| `Spans.MergeActiveSpans` | experiments/cw-decoder/src/harvest.rs:621-655 | The spans are ordered, begin and end on active frames, cover every active frame, lie at least the pause apart and hold no inactive run that long. |
| `Spans.PauseExactly` | experiments/cw-decoder/src/harvest.rs:641-652 | Spans lie at least the pause and one frame apart, and no silence inside one is as long as the pause. |
| `Spans.CanonicalIsUnique` | experiments/cw-decoder/src/harvest.rs:621-655 | Only one list of spans has these properties. |
| `Spans.CoversActive` | experiments/cw-decoder/src/harvest.rs:621-655 | Every active frame lies in a span. |
| `Spans.BestPauseBoundedSpan` | experiments/cw-decoder/src/harvest.rs:591-619 | None exactly when nothing is active; otherwise a span that overlaps the target most, then is nearest, then longest, the last of equals. |
| `Spans.BestExactly` | experiments/cw-decoder/src/harvest.rs:605-618 | Against any other span the chosen one shares more frames with the target, or as many with its middle nearer, or as near and longer, or as long and later. |
| `Spans.InteriorGapLengths` | experiments/cw-decoder/src/harvest.rs:681-705 | The gaps are exactly the distances between consecutive unmerged spans. |
| `CommonSubstring.LongestCommonSubstringLen` | experiments/cw-decoder/src/harvest.rs:946-967 | The length is that of some common substring, and no common substring is longer. |
| `CommonSubstring.TailIsLongest` | experiments/cw-decoder/src/harvest.rs:956-964 | A table entry is the length of the longest stretch that ends alike at its two places. |
| `RingDrain.RingBuffer.PushSlice` | experiments/cw-decoder/src/audio.rs:864-878 | The buffer holds the last samples of the stream, up to the capacity. |
| `RingDrain.RingBuffer.Drain` | experiments/cw-decoder/src/main.rs:3602-3616 | A drain takes the samples since the last one, as far as the ring still holds them. |
| `RingDrain.DeliveredInOrder` | experiments/cw-decoder/src/main.rs:3602-3616 | Over every interleaving of pushes and drains, chunks are stretches of the stream, in order and never overlapping. |
| `RingDrain.DeliversExactly` | experiments/cw-decoder/src/main.rs:3602-3616 | The chunks concatenate to the stream up to the last drain if and only if no drain finds more waiting than the ring holds. |
| `GateClock.BenchClock.ProcessViz` | experiments/cw-decoder/src/append_decode.rs:254-304 | One frame of the gate and character-time accounting, in the running totals. |
| `GateClock.BenchClock.FinishAt` | experiments/cw-decoder/src/append_decode.rs:351-371 | The closing stretch and the timestamps of the flushed characters. |
| `GateClock.ClockExactly` | experiments/cw-decoder/src/append_decode.rs:254-371 | In terms of the frames alone: open and closed time are the sums of the times from each frame to the next, or to the end, over the open and the closed frames since the first open one; drops are the turns from open to closed; the longest closed run is attained by a maximal closed stretch and exceeded by none; each character is stamped with the end of the first frame that had it, or of the audio. |
| `GateClock.TimeIsConserved` | experiments/cw-decoder/src/append_decode.rs:254-371 | Open plus closed time is the time since the first lock; drops less recoveries is 0 or 1 as the gate is open or closed; longest closed run <= closed <= drops times longest. |
| `GateClock.OneStampPerCharacter` | experiments/cw-decoder/src/append_decode.rs:299-357 | There is one timestamp per character and they never decrease, for texts that only grow. |
| `BenchRun.RunAppends` | experiments/cw-decoder/src/append_decode.rs:60-113 | The decoder only appends to its text. |
| `BenchRun.EveryCharacterIsStamped` | experiments/cw-decoder/src/append_decode.rs:298-357 | So for the text the bench decodes there is one timestamp per character, and they never decrease. |
| `GateClock.StartsAtFirstOpen` | experiments/cw-decoder/src/append_decode.rs:263-269 | The clock starts at the first open frame and shows the gate of the last. |
| `GateClock.RunKeepsBalanced` | experiments/cw-decoder/src/append_decode.rs:254-304 | The balance holds after every frame of every run. |
| `Stability.StabilityTracker.TransitionTo` | experiments/cw-decoder/src/bench_latency.rs:264-287 | A change of state credits the time of the state left, within the segment and since the first lock; an unchanged state returns at once. |
| `Stability.StabilityTracker.Finish` | experiments/cw-decoder/src/bench_latency.rs:289-304 | The closing transition and the uptime ratio. |
| `Stability.ReportedExactly` | experiments/cw-decoder/src/bench_latency.rs:264-304 | In terms of the events alone: locked time is the sum of the times from each locking event to the next within the segment; unlocked time that of the others since the first lock, less a final stretch of hunting. |
| `Stability.LongestExactly` | experiments/cw-decoder/src/bench_latency.rs:276-282 | The longest unlocked stretch is attained by a stay in one unlocked state that ends in another, and exceeded by none. |
| `Stability.UptimeIsConserved` | experiments/cw-decoder/src/bench_latency.rs:264-304 | Locked plus unlocked time is the time since the first lock less exactly the trailing stretch of hunting, if the run ends hunting. |
| `Stability.LostTailReadsAsFullUptime` | experiments/cw-decoder/src/bench_latency.rs:264-304 | So a lock lost for good half way through is reported with no unlocked time. |
| `VisibleCopy.VisibleTranscript.SyncSnapshot` | experiments/cw-decoder/src/main.rs:1688-1711 | After any snapshots, each character carries the time of the first snapshot since which all agree with the text through it. |
| `Text.TrimExactly` | experiments/cw-decoder/src/main.rs:1688-1697 | Trimming takes away the whitespace at both ends and nothing else. |
| `VisibleCopy.AgreesFromIsEarliest` | experiments/cw-decoder/src/main.rs:1688-1711 | That snapshot is the earliest: the one before it disagrees. |
| `VisibleCopy.NextAgreesFrom` | experiments/cw-decoder/src/main.rs:1697-1711 | Characters of the common prefix keep their start; later ones start at the new snapshot. |
| `VisibleCopy.TimesInOrder` | experiments/cw-decoder/src/main.rs:1688-1711 | With snapshots at non-decreasing times the timestamps are non-decreasing. |

## Left out

- TrackIdentity.RunKeepsWellFormed: runs in which the 32-bit id counter wraps are excluded; `TrackIdentity.RunDistinctExactly` says exactly when those keep their ids distinct.
- CursorRuns.TextExactly: frames report the samples at which events begin and end exactly, without jitter.
- CommitCursor.LiveCommitCursor.UpdateFromViz: sample positions are unbounded, so neither the saturation of window positions nor an overflow of the cursor plus epsilon at 64 bits appears; the provisional tail, which is display only, is not part of this model.
- AppendDecoder.AppendEventDecoder.IngestViz: event ends are given as non-negative sample offsets already rounded; saturation at 64 bits is modelled.
- SuiteEvents.SuiteRoundTrip: words are given as upper-case tokens; Unicode upper-casing and splitting are not part of this model.
- RoughFist.RunGenRoughFist: durations are exact reals; the truncation of each to whole samples, the envelope shape and the pseudo-random generator are not modelled, and the draws are arbitrary numbers between -1 and the largest draw.
- GateClock.BenchClock.ProcessViz: milliseconds are unbounded, so saturating additions at 32 bits do not appear; the first-event time, pitch and speed fields are left out.
- Stability.StabilityTracker.TransitionTo: milliseconds are unbounded.
- Assignment.AssignTracks: costs are exact reals; a tie that rounding would make or break is not modelled.
- TwoMeans.EstimateDotKmeans: means are exact; the rounding of sums to double and means to single precision is not modelled.
- SpeedLock.LiveEnvelopeStreamer.DecodeNow: only the lock; decoding itself, the buffer and the text shown are arbitrary inputs.
- Spans.BestPauseBoundedSpan: centre distances are compared exactly, doubled, instead of in floating point.
- Stabilizer.PrefixStabilizer.PushSnapshot: the word lists that reject a snapshot or anchor it at a token are one arbitrary verdict per call; the manual-anchor flag, which only those lists read, is left out.
- Stabilizer.AppendSnapshotText: text is a sequence of characters, not of bytes; slicing inside a multi-byte character is not modelled.
- RingDrain.RingBuffer.PushSlice: the count of samples written is unbounded, and each push and each drain is one step under the lock.
- `events_from_envelope`, the older copy of the hysteresis machine, which counts a closed run one frame longer.
- `kmeans_centroids` and the other dot estimators: variants of the clustering modelled here.
- Audio devices, file decoding, JSON and command-line handling, terminal display and noise synthesis: input and output.
- Goertzel power, filters, pitch estimation and resampling: numerical signal processing, taken as inputs.
- `region_stream`, `region_streamer`, `streaming` and the foreign decoder: any decode is an arbitrary input.
- Transcript heuristics such as call-sign shapes and split-token repair in `main.rs`: word lists.
