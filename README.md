# idable in Dafny

A model of the Rust crate `idable`. The crate has two identifier generators:

- `Seq` hands out consecutive u64 numbers from one atomic counter. `next_id` returns the counter and bumps it with a wrapping `fetch_add`. `reset` stores 0.
- `TimestampSeq` packs the milliseconds since a fixed EPOCH above the low SEQUENCE_BITS bits of a free-running sequence counter. Each time those bits roll over to 0, it ratchets `last_cycle_timestamp` up to the clock reading with `fetch_max`. A rollover within that same millisecond busy-waits for the clock to tick.

`into_parts` unpacks an identifier into its two parts.

The project has these modules:

- `U64`: u64 arithmetic with explicit truncation. It defines `wrapping_add`, `<<`, `>>`, `|`, `&` and `max`. Lemmas connect the bitwise operators to arithmetic.
- `Layout`: the constants, the packing and `into_parts`. It proves that packing and unpacking are inverses, and that identifiers are ordered as their (timestamp, sequence) pairs.
- `Clock`: the wall clock, modelled as a scripted sequence of readings. It also holds the busy wait.
- `Sequential`: `Seq`.
- `Timestamped`: `TimestampSeq`, as the source writes it.
- `Scenarios`: the crate's unit tests, restated as client methods that hold for every clock script meeting their preconditions. It also shows the input on which the generator repeats an identifier.
- `Unique`: the corrected generator, with its ratchet moved out of the rollover branch. Its identifiers strictly increase.

SEQUENCE_BITS is a parameter, `bits`. The crate fixes it at compile time: 12 in the normal build and 1 in the test build. The tests that check distinctness are modelled at the test-build width of 1. `test_next_increases_sequence` and `test_next_wait_for_next_millis` are proved at every width.

## Model

| member | source | states |
|---|---|---|
| U64.WrappingAdd | src/lib.rs:52 | the counter after `fetch_add(1)` is the sum, or the sum minus 2^64 when it overflows |
| U64.Shl | src/lib.rs:126 | `x << k` is 2^k times x reduced modulo 2^(64-k): the high bits are dropped |
| U64.Shr | src/lib.rs:131 | `x >> k` is the quotient of x by 2^k |
| U64.Or | src/lib.rs:126 | the bitwise or of x and y is at least both operands |
| U64.And | src/lib.rs:115 | `x & y` is at most both operands |
| U64.Max | src/lib.rs:124 | `fetch_max` stores a value that is one of the two and at least both |
| U64.BitOrDisjoint | src/lib.rs:126 | a bitwise or of a multiple of 2^k with a value below 2^k is their sum |
| U64.BitAndLowMask | src/lib.rs:115 | an `&` with the mask of k low ones is the remainder modulo 2^k |
| Layout.SequenceMask | src/lib.rs:17 | SEQUENCE_MASK plus one is 2^bits |
| Layout.MaskedSequence | src/lib.rs:115 | `sequence & SEQUENCE_MASK` is the counter modulo 2^bits |
| Layout.MaskedStep | src/lib.rs:115 | after a wrapping bump of the counter, the masked value moves on by one modulo 2^bits, also across the counter's wrap at 2^64 |
| Layout.IntoParts | src/lib.rs:130-132 | the sequence part of any identifier is at most SEQUENCE_MASK |
| Layout.Compose | src/lib.rs:126 | the packing, `elapsed << TIMESTAMP_SHIFT` or-ed with `sequence`, is at least the shifted timestamp and at least the sequence value; its exact value is stated by Layout.ComposeValue |
| Layout.ComposeValue | src/lib.rs:126 | the packing is the elapsed time modulo 2^(64-bits), times 2^bits, plus the sequence value |
| Layout.IntoPartsValue | src/lib.rs:130-132 | `into_parts` gives the quotient and the remainder of a division by 2^bits |
| Layout.ComposeParts | src/lib.rs:126-132 | unpacking a packed identifier gives back the sequence value, and the elapsed time reduced modulo 2^(64-bits) |
| Layout.RoundTrip | src/lib.rs:126-132 | unpacking gives back both parts when the elapsed time fits above the sequence bits |
| Layout.PackedParts | src/lib.rs:126-132 | unpacking always recovers the sequence part, and the timestamp part when it fits |
| Layout.PartsRoundTrip | src/lib.rs:126-132 | every identifier is the packing of its own parts, and its timestamp part fits |
| Layout.PartsInjective | src/lib.rs:130-132 | two identifiers with equal parts are equal |
| Layout.ComposeOrder | src/lib.rs:126 | packed identifiers compare lexicographically by (timestamp, sequence), in both directions |
| Layout.PartsOrder | src/lib.rs:130-132 | identifiers compare lexicographically by their unpacked parts, in both directions |
| Layout.ProductionLayout | src/lib.rs:11-17 | the normal build has 4096 sequence values and 2^52 milliseconds of timestamps |
| Clock.WallClock.Now | src/lib.rs:80-85 | each read returns the next reading of the script |
| Clock.WallClock.WaitPast | src/lib.rs:94 | the busy wait ends on the first reading after `t`, and every reading it skips is at or before `t` |
| Sequential.Seq.constructor | src/lib.rs:37-39 | `Seq::new()` starts the counter at 0 |
| Sequential.Seq.From | src/lib.rs:69-72 | `Seq::from(value)` starts the counter at `value` |
| Sequential.Seq.NextId | src/lib.rs:51-53 | `next_id` returns the counter and bumps it with wrap-around |
| Sequential.Seq.Reset | src/lib.rs:65-67 | `reset` sets the counter to 0 |
| Timestamped.TimestampSeq.constructor | src/lib.rs:75-90 | `TimestampSeq::new()`, the derived default of the struct at src/lib.rs:75-79 returned at src/lib.rs:88-90, sets both fields to 0 |
| Timestamped.TimestampSeq.NextSequence | src/lib.rs:115 | the sequence value the next call packs is the counter modulo 2^bits |
| Timestamped.TimestampSeq.WaitNextMillis | src/lib.rs:92-95 | loads `last_cycle_timestamp` once, then ends on the first reading after it, having skipped only readings at or before it |
| Timestamped.TimestampSeq.NextId | src/lib.rs:114-127 | the counter wraps up by one. The identifier packs the last reading above the masked value. It takes one reading, or on a same-millisecond rollover waits past the ratchet and reads once more: the wait skips only readings at or before the ratchet, ends on the first one after it, and the reading after that is packed. `last_cycle_timestamp` is ratcheted to the max only on a rollover. On a clock that does not run backwards, a rollover packs a timestamp after the previous rollover's |
| Scenarios.SeqCountsFrom | src/lib.rs:51-53 | n calls on `Seq::from(seed)` return seed, seed+1, …, modulo 2^64 |
| Scenarios.SeqStartsAndResets | src/lib.rs:37-72 | the first identifier of `Seq::new()` is 0, that of `Seq::from(seed)` is seed, and after `reset` the next is 0 |
| Scenarios.FirstCall | src/lib.rs:114-127 | a fresh generator's first call takes one reading and packs it with sequence 0 |
| Scenarios.PlainCall | src/lib.rs:114-127 | a call without rollover takes one reading, leaves the ratchet alone, and packs the reading with the masked counter |
| Scenarios.RolloverCall | src/lib.rs:114-127 | on a clock that does not run backwards, a rollover packs a reading strictly after the ratchet, with sequence 0, and ratchets to it |
| Scenarios.WaitingCall | src/lib.rs:118-126 | a rollover whose reading is the ratchet, on a clock that ticks on the next reading, takes exactly three readings and packs the third with sequence 0 |
| Scenarios.SameMillisecondRollover | src/lib.rs:118-126 | with zero sequence bits and readings t, t, t' with t < t', the second identifier packs the reading after t' |
| Scenarios.FirstThree | src/lib.rs:144-155 | the first three identifiers of a test-build generator are pairwise distinct |
| Scenarios.ThreeIdsDistinct | src/lib.rs:144-155 | `test_next_generates_unique_ids` holds for every clock that does not run backwards and ticks once |
| Scenarios.FourIdsDistinct | src/lib.rs:169-181 | `test_next_does_not_repeat_ids` holds for the four pairs it checks |
| Scenarios.SecondAndFourthMayCollide | src/lib.rs:169-181 | when the clock ticks once after the first read and then stands still, the second and fourth identifiers are equal |
| Scenarios.TwoIdsIncrease | src/lib.rs:158-166 | `test_next_increases_sequence` holds at every width |
| Scenarios.TimestampAdvancesAcrossTick | src/lib.rs:193-205 | `test_next_wait_for_next_millis` holds at every width when the clock ticks between the calls |
| Unique.SuccessorIncreases | src/lib.rs:114-127 | the next sequence value packed at a timestamp that does not go back, and that moves on when the value wraps to 0, gives a larger identifier |
| Unique.FollowsStep | src/lib.rs:114-127 | one call of the corrected generator yields an identifier above the last one and keeps the link between the counter and the last identifier |
| Unique.UniqueTimestampSeq.constructor | src/lib.rs:88-90 | the corrected generator starts with both fields 0 and no identifier handed out |
| Unique.UniqueTimestampSeq.ReadTimestamp | src/lib.rs:116-123 | one reading, or on a rollover whose reading is the last timestamp a wait that skips only readings at or before it and one more reading; on a clock that does not run backwards the packed reading is not before the last timestamp, and after it on a rollover |
| Unique.UniqueTimestampSeq.Ratchet | src/lib.rs:124-126 | `fetch_max` on every call and the packing: the identifier packs the reading with the masked counter, is above the last one, and the invariant linking counter and last identifier holds again |
| Unique.UniqueTimestampSeq.NextId | src/lib.rs:114-127 | the corrected `next_id` keeps the uniqueness promised at src/lib.rs:99: it returns an identifier larger than every earlier one. It keeps its invariant, bumps the counter and ratchets the timestamp on every call. It takes one reading, or after a same-millisecond rollover the readings of the wait, all at or before the last timestamp, the tick and one more |
| Unique.FourIdsIncrease | src/lib.rs:169-181 | the four calls of `test_next_does_not_repeat_ids` on the corrected generator give strictly increasing, hence all distinct, identifiers |

## Left out

- Atomics, memory orderings and concurrent callers are not modelled. The fields are plain and every call is sequential, so nothing is said about races between threads.
- `SystemTime` is not modelled. The clock is a script of readings passed in as a parameter. The panic on a clock before the Unix epoch and the `as_millis() as u64` truncation are not modelled.
- `new_timestamp - EPOCH` would underflow for a reading before EPOCH. The model instead requires every remaining reading to be at or after EPOCH.
- A busy wait that never ends is outside the model. Each call that may wait requires a later reading past the ratchet.
- The compile-time choice of SEQUENCE_BITS is not modelled as such. The width is a parameter. The tests that check distinctness are stated at the test-build width of 1; `test_next_increases_sequence` and `test_next_wait_for_next_millis` are proved at every width.
- The test scaffolding is left out. The 1 ms sleep in `test_next_wait_for_next_millis` becomes the precondition that the second reading is later than the first. The `println!` output is dropped.
- Timestamped.TimestampSeq.NextId states the packed identifier as a packing. The unpacked parts follow from Layout.PackedParts, and Scenarios.PlainCall and Scenarios.RolloverCall state them.
- The doc comments at src/lib.rs:28 and src/lib.rs:55 call the initial and reset value 1. The code uses 0, and the model follows the code.
- Unique.UniqueTimestampSeq.NextId requires every reading's elapsed time to fit above the sequence bits. Past that point, the shift drops high bits and identifiers can no longer increase.

## Findings

| source | as written | input that shows it | evidently intended | confidence | as-written member | corrected member |
|---|---|---|---|---|---|---|
| src/lib.rs:99, src/lib.rs:118-125 | `last_cycle_timestamp` is ratcheted only on a rollover. A cycle of sequence values that spans a millisecond boundary can hand out identifiers in the next millisecond before the following rollover. That rollover then sees a reading different from the ratchet and does not wait. Identifiers repeat, despite the documented uniqueness | test build, readings 100, 101, 101, 101 ms after EPOCH: the second and fourth identifiers are both (101, 1) | identifiers never repeat. Ratcheting to every packed timestamp makes each rollover move past the last millisecond used | not executed | Scenarios.SecondAndFourthMayCollide | Unique.UniqueTimestampSeq.NextId, Unique.FourIdsIncrease |
