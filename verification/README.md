# pattern: a verified model of the random pattern generator

`pattern` builds random byte strings from composable parts. A generator made by
`New(p...)` holds a list of parts. Each part appends its output to a byte
buffer:

- literals;
- groups;
- bounded random repetition (`Repeat`);
- probabilistic inclusion (`Potentially`);
- a uniform choice among parts, strings, bytes or runes (`OneOf...`);
- a Fisher-Yates shuffle of parts;
- a wrapping, zero-padded decimal counter (`Sequence`).

All randomness comes from `internal.Fastrand`, one 64-bit draw per call. In
the default build it hashes nothing under a freshly made `hash/maphash` seed
(internal/fastrand_go119.go:9-13). Under the `unsafe` build tag it is linked to
the Go runtime's `fastrand64` (internal/fastrand_unsafe.go:9-10). pattern.go
draws in three ways:

- through `RandN` of `internal/rand.go` (multiply-high scaling into `[0, n)`);
- through `RandFloat64` (53 masked bits scaled by 2^-53);
- directly, by testing the low bit of `Fastrand()` in the 50% `Potentially`
  part (pattern.go:175).

`internal/rand.go` also defines `FastRandomReader`, which fills a buffer eight
bytes per draw. pattern.go never calls it; it is modelled on its own.

This project models those parts and helpers in Dafny. It proves the
deterministic part of what their documentation and tests promise. The
probabilistic promises are listed under "Left out": uniform choice, the chance
of `Potentially`, and every shuffle order occurring.

How the model is set up:

- **Draws are a parameter.** `Fastrand` becomes `Source = nat -> uint64`, an
  explicit stream of 64-bit draws. Every operation takes the stream and the
  index of the next unused draw, and returns the advanced index. The proofs
  therefore hold for every possible stream.
- **Mutable state is explicit.** A `shuffle` permutes its parts slice in
  place. A `sequence` owns a pointer to a counter. Both carry an `id` that
  stands for that slice or pointer. The generation context `Generate.Ctx`
  maps ids to the current order and the current counter. Copies of one such
  part therefore share state, as they do in Go. Other parts that happen to
  share the same backing array in Go do not see the shuffle's order in the
  model (see "Left out").
- **Panics are values.**
  - A constructor that panics (`Repeat` with `max == 0` or `max < min`,
    `Potentially` with a negative chance, `Sequence` with `max < start`)
    returns `Err`.
  - An index out of range at append time also returns `Err`.
- **Go integer widths are explicit.** `uint32`, `uint64`, `byte` and the
  64-bit `int` are subset types. These places where Go wraps are written out:
  - `(max - min) + 1` in `Repeat`;
  - `RandN(maxr) + min` in `repeat.Append`;
  - `p.len - 1` and `i + 1` in `shuffle.Append`;
  - `uint32(len(p))`;
  - `start - 1` and `last + 1` in `Sequence`;
  - `width - n` in `appendInt`.

Modules:

| module | file | contents |
|---|---|---|
| Base | base.dfy | integer widths, `Result`, faults |
| Arith | arith.dfy | small division and multiplication facts |
| Rand | rand.dfy | `RandN`, `RandFloat64`, `FastRandomReader` |
| Utf8 | utf8.dfy | the rune-to-UTF-8 conversion `OneOfRune` uses |
| Decimal | decimal.dfy | `appendInt` and `itob` |
| Parts | parts.dfy | the part types and their exported constructors |
| Generate | generate.dfy | every `Append` method, as one function |
| PatternFacts | pattern_facts.dfy | generators, groups, repeats, literals |
| ChoiceFacts | choice_facts.dfy | `Potentially` and the `OneOf...` parts |
| ShuffleFacts | shuffle_facts.dfy | the shuffle |
| SequenceFacts | sequence_facts.dfy | the sequence counter |
| Totality | totality.dfy | when appending never panics |
| Findings | findings.dfy | the two places where the code departs from its intent |

Two behaviours of the code that a reader might expect to be otherwise:

- `New` drops only top-level `nullpart`s. It unwraps only top-level groups,
  one level deep, so a group inside a group stays a group (`Parts.Flatten`).
- The `OneOf...` constructors accept an empty alphabet. The first append then
  panics (`Totality.EmptyAlphabetPanics`).

The model follows the code as written throughout, including the two defects
listed under "Findings". Those defects are reproduced in the main model, and
`Findings` holds the corrected definitions.

## Model

| member | source | states |
|---|---|---|
| Rand.RandN | internal/rand.go:14-18 | the result is below `n` for every nonzero `n` (0 for `n = 0`). The truncation to `uint32` loses nothing because the high word is already below `n` |
| Rand.ScaleDraw | internal/rand.go:15-17 | the multiply-high result `k` is the unique value with `k * 2^64 <= span * r < (k + 1) * 2^64`, and it lies below the span |
| Rand.ScaleDrawReaches | internal/rand.go:15-17 | every value below the span is produced by some 64-bit draw. Where the span a caller passes has wrapped, values at or above it stay unreachable: alphabets of 2^32 or more elements, and the full-range repeat (`Findings.FullRangeRepeatsNever`) |
| Rand.RandNReaches | internal/rand.go:14-18 | every `k < n` is returned by `RandN(n)` for some draw |
| Rand.Mask53 | internal/rand.go:10 | masking with `1<<53 - 1` gives a value below 2^53 that differs from the draw by a multiple of 2^53 |
| Rand.RandFloat64 | internal/rand.go:20-23 | the float lies in `[0.0, 1.0)` |
| Rand.LittleEndianUint64RoundTrip | internal/rand.go:35 | the eight bytes `PutUint64` writes read back, little-endian, as the draw |
| Rand.FastRandomReader | internal/rand.go:32-46 | fills the whole buffer, returns its length, and uses one draw per eight bytes plus one for a partial tail. Byte `i` is byte `i % 8` of draw `i / 8` |
| Rand.FillTail | internal/rand.go:37-43 | the tail loop's repeated `byte(val)` and `val >>= 8` store the low-order bytes of one draw, least significant first |
| Rand.FastBytesBlock | internal/rand.go:34-36 | each full 8-byte block of the output is the little-endian encoding of its own draw |
| Rand.FastBytesTail | internal/rand.go:37-43 | the last `len % 8` bytes are the low-order bytes of the one draw after the full blocks |
| Utf8.Replaced | pattern.go:279 | `string(r)` keeps the rune exactly when it is a Unicode scalar value and gives U+FFFD otherwise; the result is always a scalar value |
| Utf8.Encode | pattern.go:279 | the encoding is 1 to 4 bytes long, by the RFC 3629 ranges, and every byte after the first is a continuation byte |
| Utf8.EncodeDecode | pattern.go:279 | the bytes `OneOfRune` appends decode back to the rune, or to U+FFFD for a non-scalar value. The lead byte announces the length |
| Decimal.Itob | pattern.go:385-387 | `'0' + d` is an ASCII digit whose value is `d` |
| Decimal.Sub64 | pattern.go:362 | Go's 64-bit `width - n` is the exact difference when that fits in `int64`, and otherwise differs from it by exactly 2^64 |
| Decimal.Digits | pattern.go:373-382 | a decimal rendering is at least one ASCII digit, with no leading zero for a nonzero value |
| Decimal.Padded | pattern.go:351-383 | the appended text is `max(width, digits)` long whenever `width - digits` does not wrap (`width - digits` after the wrap in general), and consists of ASCII digits only |
| Decimal.PaddedRoundTrip | pattern.go:351-383 | for every 64-bit width the padded text reads back as the number: padding never changes the value and digits are never truncated |
| Decimal.DigitsCount | pattern.go:352-359 | a `d`-digit rendering satisfies `10^(d-1) <= u < 10^d` |
| Decimal.CountDigits | pattern.go:352-359 | the counting loop yields exactly the number of decimal digits (1 for zero) |
| Decimal.DigitsOfUint64 | pattern.go:352-359 | a `uint64` has at most 20 decimal digits, so the digit count `n` can never make `width - n` overflow downward by more than 20 |
| Decimal.AppendPadding | pattern.go:361-364 | the padding loop appends `width - n` '0' characters, with that difference wrapped as Go's 64-bit `int` does, and none when it is not positive |
| Decimal.FillDigits | pattern.go:366-382 | the back-to-front assembly loop leaves the prefix untouched and writes exactly the decimal digits of `u` |
| Decimal.AppendInt | pattern.go:351-383 | `appendInt(b, u, width)` extends `b` by exactly the zero-padded decimal of `u`, for every 64-bit `width` |
| Parts.Flatten | pattern.go:21-42 | the flattened list is well formed when the arguments are |
| Parts.Spliced | pattern.go:25-36 | what `New` puts in place of one argument keeps well-formedness. An argument that is not a group contributes no `nullpart` and no group |
| Parts.FlattenKeeps | pattern.go:25-36 | every argument that is neither a `nullpart` nor a group survives into the generator's list |
| Parts.FlattenSplices | pattern.go:30-32 | every element of a top-level group argument is in the generator's list |
| Parts.FlattenAddsNothing | pattern.go:25-36 | everything in the list is a non-null, non-group argument or an element of a group argument |
| Parts.New | pattern.go:21-42 | `New` builds a generator over the flattened list, well formed when its arguments are |
| Parts.Group | pattern.go:69-77 | `Group` of well-formed parts is well formed |
| Parts.Literal | pattern.go:193-202 | a literal is well formed and `New` keeps it as it is |
| Parts.Replicate | pattern.go:100-106 | the constant repeat's list has `k * len(p)` entries, and entry `i` is `p[i mod len(p)]` |
| Parts.Repeat | pattern.go:88-120 | panics exactly when `max == 0` (that fault) or `max < min` (the other); otherwise gives a part that is well formed when its arguments are |
| Parts.Maxr | pattern.go:118 | the stored `(max - min) + 1` in `uint32` is the number of counts in `[min, max]`, except that it is 0 exactly for the full range `[0, 2^32 - 1]` |
| Parts.Potentially | pattern.go:140-168 | panics exactly on a negative chance; otherwise gives a well-formed part for a well-formed argument |
| Parts.OneOf | pattern.go:204-215 | `OneOf` of a non-empty list of well-formed parts is well formed |
| Parts.OneOfString | pattern.go:227-233 | the part is well formed exactly when the alphabet is non-empty |
| Parts.OneOfByte | pattern.go:245-251 | the part is well formed exactly when the alphabet is non-empty |
| Parts.OneOfRune | pattern.go:263-270 | the part is well formed exactly when the alphabet is non-empty |
| Parts.Shuffle | pattern.go:286-291 | a shuffle is well formed exactly when it has at least one part and all its parts are well formed. Appending a well-formed shuffle cannot panic (`Totality.ShuffleTotal`) |
| Parts.Sequence | pattern.go:313-328 | panics exactly when `max < start`; otherwise gives a well-formed part |
| Generate.SequenceStep | pattern.go:339-343 | the counter moves to `last + 1` when that lies in `[start, max]`, and resets to `start` when it passes `max` or wraps past 2^64 - 1 |
| Generate.Counter | pattern.go:321 | a sequence that has never appended holds `start - 1` wrapped in `uint64`, the value whose successor is `start` |
| Generate.Identity | pattern.go:286-291 | a fresh shuffle's order lists position `i` at index `i` |
| Generate.Arrangement | pattern.go:293-296 | a shuffle's current order is always a permutation of its positions |
| Generate.PermInRange | pattern.go:306-308 | a permutation of `n` positions has length `n` and only indexes below `n` |
| Generate.Swap | pattern.go:303 | the swap exchanges positions `i` and `j`, keeps every other position, and preserves the multiset |
| Generate.Partner | pattern.go:302 | the swap partner `RandN(i + 1)` never lies above `i` |
| Generate.RepeatCount | pattern.go:129-130 | the count `RandN(maxr) + min` is `min` when the stored `maxr` is 0, and otherwise lies in `[min, min + maxr)` when that range fits in `uint32` |
| Generate.ShuffleFrom | pattern.go:301-304 | the loop from `i` down to 1 succeeds exactly when every index is inside the slice, yields a permutation of its input, and spends `i` draws |
| Generate.FisherYates | pattern.go:301-304 | the full pass starting at `len - 1` in `uint32` yields a permutation. It succeeds for nonzero `len` exactly when `len` fits the slice, spending `len - 1` draws. For `len == 0` the start wraps: it succeeds only if the slice has 2^32 or more entries, and then spends 2^32 - 1 draws |
| Generate.Append | pattern.go:9-13 | every successful `Append` only extends the buffer and never gives a draw back |
| Generate.AppendAll | pattern.go:56-61 | the part loop only extends the buffer and never gives a draw back |
| Generate.AppendTimes | pattern.go:131-135 | the repeat loops only extend the buffer and never give a draw back |
| Generate.AppendInOrder | pattern.go:306-308 | the shuffle's output loop only extends the buffer and never gives a draw back |
| Generate.String | pattern.go:44-51 | `String()` of a generator is its parts appended in order to an empty buffer |
| Generate.MultisetInRange | pattern.go:301-308 | a rearranged order still indexes only existing parts |
| PatternFacts.AppendAllConcat | pattern.go:56-61 | appending a concatenated list is appending the first list and then the second from where it left off |
| PatternFacts.AppendAllSingle | pattern.go:81-86 | a list of one part appends just that part |
| PatternFacts.LiteralOutput | pattern.go:193-202 | a literal appends its bytes and draws nothing |
| PatternFacts.SplicedOutput | pattern.go:25-36 | splicing a group's elements, or dropping a `nullpart`, appends what the argument itself would |
| PatternFacts.FlattenOutput | pattern.go:21-42 | the flattened list appends exactly what the original argument list appends |
| PatternFacts.NewOutput | pattern.go:21-61 | the generator `New(p...)` appends exactly what `p...` appended in order would |
| PatternFacts.GroupOutput | pattern.go:69-86 | `Group(p...)` appends its parts in order, whether it wrapped them or returned its single part |
| PatternFacts.ReplicateOutput | pattern.go:100-106 | the list of `k` copies appends what `k` passes over the parts would |
| PatternFacts.ConstantRepeatIsGroup | pattern.go:99-106 | `Repeat(k, k, p...)` is the group of `k` copies and outputs the parts exactly `k` times without drawing |
| PatternFacts.RepeatCountInRange | pattern.go:129-130 | the count `RandN(maxr) + min` always lies in `[min, max]` |
| PatternFacts.RepeatCountReaches | pattern.go:129-130 | every count in `[min, min + maxr)` for the stored `maxr` is produced by some draw. For the full range `maxr` is 0 and no count but 0 occurs (`Findings.FullRangeRepeatsNever`) |
| PatternFacts.RepeatOutput | pattern.go:88-138 | whichever form `Repeat` normalised to, appending it appends the parts `n` times for some `n` in `[min, max]`, after at most one draw |
| PatternFacts.RepeatCanGive | pattern.go:88-138 | every count in `[min, max]` occurs, except the nonzero counts of the full range `[0, 2^32 - 1]`: replacing only the next draw makes the repeat output its parts exactly `n` times |
| PatternFacts.OptionalCanGive | pattern.go:108-113 | the `[0, 1]` repeat can both include and omit its group, by the choice of one draw |
| PatternFacts.SpreadCanGive | pattern.go:129-137 | a stored `repeat` can be made to repeat any count in `[min, min + maxr)` by the choice of one draw |
| PatternFacts.OnceIsAll | pattern.go:131-135 | one pass of the repeat loop is one pass over the parts |
| PatternFacts.RepeatNothing | pattern.go:131-135 | repeating no parts outputs nothing however many times |
| PatternFacts.RepeatOfNothing | pattern_test.go:159-165 | `Repeat(min, max)` with no parts never panics and leaves the buffer as it is |
| PatternFacts.Copies | pattern.go:196-202 | `n` copies of a literal are `n` times its length |
| PatternFacts.RepeatLiteral | pattern.go:129-138 | `n` passes over a literal append `n` copies of it and draw nothing |
| PatternFacts.RepeatLiteralLength | pattern_test.go:115-157 | a repeated literal of length `L` adds between `min * L` and `max * L` bytes |
| PatternFacts.AppendTwiceExample | pattern_test.go:76-86 | appending `New(Literal("o"))` to "hello" twice gives "hellooo" |
| PatternFacts.EmptyGroupExample | pattern_test.go:88-93 | a generator over an empty group produces the empty string |
| ChoiceFacts.PotentiallyOutput | pattern.go:143-191 | chance 0 never includes the part and draws nothing. Chance 1 or more always includes it and draws nothing. A chance strictly between spends one draw and includes the part exactly when that draw's test passes (low bit for 0.5, `RandFloat64() <= c` otherwise) |
| ChoiceFacts.BothOutcomes | pattern_test.go:209-234 | for every chance strictly between 0 and 1 - 2^-53, some draw includes the part and some draw leaves it out |
| ChoiceFacts.NearOneAlwaysIncluded | pattern.go:186-191 | a chance in `[1 - 2^-53, 1)` includes the part on every draw |
| ChoiceFacts.PotentiallyCanGive | pattern.go:174-191 | replacing only the next draw makes `Potentially` include or omit the part, as chosen |
| ChoiceFacts.Pick | pattern.go:222-224 | the picked index is inside any non-empty alphabet |
| ChoiceFacts.PickReaches | pattern.go:222-224 | every index of an alphabet of fewer than 2^32 elements is picked by some draw |
| ChoiceFacts.OneOfOutput | pattern.go:204-225 | `OneOf` of one part is that part. Otherwise one draw picks the part appended, and an empty list panics |
| ChoiceFacts.OneOfStringOutput | pattern.go:227-243 | one draw picks the string appended; an empty alphabet panics |
| ChoiceFacts.OneOfByteOutput | pattern.go:245-261 | one draw picks the byte appended; an empty alphabet panics |
| ChoiceFacts.OneOfRuneOutput | pattern.go:263-280 | one draw picks the rune. Its 1 to 4 UTF-8 bytes are appended and decode back to the rune, or to U+FFFD |
| ChoiceFacts.OneOfByteCanGive | pattern.go:245-261 | replacing only the next draw makes `OneOfByte` append any chosen byte of its alphabet |
| ShuffleFacts.PermCountsOnce | pattern.go:306-308 | in the order a shuffle keeps, every part's position occurs exactly once and nothing else occurs |
| ShuffleFacts.PartnerReaches | pattern.go:301-303 | every partner in `[0, i]` is drawn by some draw, so every swap the Fisher-Yates pass needs is possible |
| ShuffleFacts.ShuffleOutput | pattern.go:298-311 | a shuffle of one or more parts spends one draw per position above 0 and stores a permutation of its parts as its new order. It then appends every part exactly once in that order. A shuffle of no parts panics |
| ShuffleFacts.ShuffleAppend | pattern.go:298-311 | one append of a shuffle panics when its length is 0 (below 2^32 parts). Otherwise it outputs its parts in the order the pass left |
| ShuffleFacts.SingleShuffle | pattern.go:298-311 | a shuffle of one part appends that part and draws nothing |
| ShuffleFacts.InOrderSingle | pattern.go:306-308 | an output order of one position appends that one part |
| SequenceFacts.Nth | pattern.go:337-349 | the `k`-th value of a sequence lies in `[start, max]` and is `start + k` within the first cycle |
| SequenceFacts.SequenceAdvance | pattern.go:321-343 | each append moves the counter to the next value of the cycle: the first append emits `start` (also for `start = 0`), and `max` is followed by `start` (also for `max = 2^64 - 1`) |
| SequenceFacts.SequenceCycle | pattern.go:313-315 | the sequence repeats with period `max - start + 1` |
| SequenceFacts.After | pattern.go:345-346 | the context that `SequenceFacts.SequenceRun` proves `n` appends of a sequence produce: draws and shuffle orders as before, and the sequence's counter at the last value emitted |
| SequenceFacts.SequenceRun | pattern.go:337-383 | `n` appends of a sequence emit the next `n` values of the cycle, each zero-padded, draw nothing, and leave the counter at the last one |
| SequenceFacts.FreshSequence | pattern.go:316-349 | a sequence just built emits `start, start + 1, ...` from its first append |
| SequenceFacts.HundredValues | pattern_test.go:396-411 | `Sequence(0, 100, 4)` emits `k` as its `k`-th value for `k <= 100`, as four characters that read back as `k` |
| SequenceFacts.HundredRestart | pattern_test.go:412-416 | the 102nd value of `Sequence(0, 100, 4)` is back at 0 |
| SequenceFacts.Uint64OverflowExample | pattern_test.go:431-444 | a sequence over `[1, 2^64 - 1]` whose counter holds 2^64 - 1 emits "1" and stores 1 |
| Totality.AppendTotal | pattern.go:9-13 | appending any part the constructors build from non-empty alphabets and non-empty shuffles never panics |
| Totality.AnyOfTotal | pattern.go:222-225 | a well-formed `OneOf` always picks an index inside its parts |
| Totality.ShuffleTotal | pattern.go:298-311 | the Fisher-Yates pass and output loop of a well-formed shuffle, which has at least one part, stay inside its parts |
| Totality.AppendAllTotal | pattern.go:56-61 | the part loop over well-formed parts never panics |
| Totality.AppendTimesTotal | pattern.go:129-138 | the repeat loops over well-formed parts never panic |
| Totality.InOrderTotal | pattern.go:306-308 | the shuffle's output loop over well-formed parts never panics |
| Totality.StringTotal | pattern.go:44-51 | `String()` of a generator built from well-formed parts always returns a string |
| Totality.EmptyAlphabetPanics | pattern.go:222-280 | each of the four choice parts with an empty alphabet panics on append |
| Findings.FullRangeRepeatsNever | pattern.go:115-130 | as written, `Repeat(0, 2^32 - 1, p...)` stores `maxr = 0`, repeats zero times on every draw, and appends nothing |
| Findings.RepeatCountCorrected | pattern.go:88-89 | the intended count, scaled into the exact `max - min + 1` counts, always lies in `[min, max]` |
| Findings.CorrectedCountReaches | pattern.go:88-89 | every count in `[min, max]`, the full range included, is produced by some draw of the corrected count |
| Findings.FullRangeReachesMax | pattern.go:88-89 | some draw makes the corrected full-range repeat count `2^32 - 1`, while the written count on that draw is 0 |
| Findings.CountAgrees | pattern.go:115-130 | wherever `max - min + 1` fits in 32 bits, the written count equals the corrected one |
| Findings.EmptyShufflePanics | pattern.go:298-304 | as written, `Shuffle()` of nothing panics on its first append, while `Group()` of nothing appends nothing |
| Findings.FisherYatesCorrected | pattern.go:301-304 | the intended pass skips the loop when there are no parts. It succeeds exactly when `len` fits the slice and yields a permutation spending `max(0, len - 1)` draws |
| Findings.ShuffleCorrected | pattern.go:298-311 | the corrected shuffle only extends the buffer and never gives a draw back |
| Findings.ShuffleCorrectedTotal | pattern.go:298-311 | the corrected shuffle never panics when its stored length fits its well-formed parts, an empty shuffle included |
| Findings.EmptyShuffleEmitsNothing | pattern.go:298-311 | corrected, a shuffle of no parts appends nothing and draws nothing |
| Findings.ShuffleAgrees | pattern.go:298-311 | with a nonzero stored length, the written shuffle and the corrected one append the same |

## Left out

- `SecureRandomReader` (internal/rand.go:25-30) reads the operating system's entropy source. It is I/O and not part of this model.
- `Fastrand` itself (a freshly seeded `hash/maphash` sum, or the runtime's `fastrand64` under the `unsafe` build tag) is replaced by the `Source` stream parameter, so every property holds for any stream. Nothing is claimed about the generator's statistical quality.
- Uniformity, the probabilities of `Potentially`, and the even spread of `RandN` are not modelled. The model proves reachability instead: every value below the span a caller passes is produced by some draw (`Rand.ScaleDrawReaches`, `ChoiceFacts.BothOutcomes`, `PatternFacts.RepeatCanGive`). There are two exceptions. In alphabets of 2^32 or more elements, indexes at or above the wrapped length are never picked. The full-range repeat never repeats (`Findings.FullRangeRepeatsNever`).
- `ShuffleFacts.ShuffleOutput`: proves that each pass yields a permutation and that every single swap is reachable. It does not prove that every permutation of the parts is reachable, which `TestShuffle` (pattern_test.go:446-471) expects for all six orders of three parts.
- The compare-and-swap retry loop of `sequence.Append` (pattern.go:338-348) is modelled as one successful step. Concurrent callers and the atomic operations are out of scope.
- Generate.Append: does not model aliasing between the variadic slices parts keep. `Shuffle(p...)` keeps the caller's slice itself (pattern.go:288) and swaps its elements in place (pattern.go:303). `Group`, `Repeat` and `OneOf` also keep the slice they are given. So in Go a caller, or another part built over the same backing array, sees the order the last shuffle left. In the model only copies of the same shuffle part share that order; every other part keeps its list as it was built.
- PatternFacts.RepeatCanGive: is not stated for nonzero counts of the full range `[0, 2^32 - 1]`, because as written that repeat never repeats (`Findings.FullRangeRepeatsNever`).
- Decimal.AppendPadding: when `width - n` wraps (a width within 20 of the smallest `int64`), Go's loop would append about 2^63 zeros and run out of memory. The model appends that many zeros and does not model running out of memory. The same holds for `Decimal.AppendInt` and `Decimal.Padded`.
- The unsynchronised in-place mutation of a shared `shuffle` by concurrent callers is not modelled. Generation is sequential.
- `Potentially` chances that are NaN or infinite are not modelled, because chances are reals. A finite float's comparisons are exact here: `RandFloat64` is exactly a multiple of 2^-53 below 1.
- Parts.Repeat: the constant repeat's `make(group, 0, len(p)*int(max))` (pattern.go:101) can panic with a capacity out of range, or run out of memory, when `len(p) * max` is very large. The model returns `Ok` there, because allocation limits are not modelled.
- The capacity arguments of `make` (pattern.go:23, 46, 101) and the capacity branch of `appendInt` (pattern.go:366-371) have no effect on the output when allocation succeeds, and are not modelled. Both branches grow the buffer by `n` bytes.
- `String()`'s conversion of the byte slice to a Go string is left out. The model returns the bytes.
- Alphabets and part lists of 2^32 or more elements are modelled only through the wrapped `uint32` length. `ChoiceFacts.PickReaches` and `ShuffleFacts.ShuffleOutput` are stated below 2^32.
- The user-defined `Part` implementations a caller may pass are left out. The model covers the part types pattern.go defines, plus a generator used as a part.

## Findings

| source | as written | input that shows it | evidently intended | confidence | as-written member | corrected member |
|---|---|---|---|---|---|---|
| pattern.go:118 | `maxr: (max - min) + 1` is computed in `uint32` and wraps to 0 when `max - min = 2^32 - 1` | `Repeat(0, 4294967295, p)`: `RandN(0)` is always 0, so the part never repeats | a count anywhere in `[0, 2^32 - 1]`, as for every other range | high (not executed) | Findings.FullRangeRepeatsNever | Findings.CorrectedCountReaches |
| pattern.go:301 | `i := p.len - 1` is computed in `uint32` and wraps to 2^32 - 1 for a shuffle of no parts | `Shuffle().Append(b)`: the loop indexes `p.parts[4294967295]` of an empty slice and panics | append nothing, as `Group()` of nothing does | high (not executed) | Findings.EmptyShufflePanics | Findings.EmptyShuffleEmitsNothing |

The rest of the model follows the code as written: `Parts.Maxr` stores the
wrapped `maxr`, `Generate.RepeatCount` adds `min` to `RandN(maxr)`, and
`Generate.FisherYates` starts at the wrapped index. `Findings` proves that the
corrected definitions agree with the written ones wherever the wrap does not
happen (`Findings.CountAgrees`, `Findings.ShuffleAgrees`).
