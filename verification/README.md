# Observe-mode polling loop analysis, in Dafny

This project models the analysis core of the Android observe-mode demo:
what the app does with the polling frames an NFC reader sends while the
phone only listens. The core lives in `Utilities.kt`. It has five parts.

- **Frame classifier.** `PollingLoopEvent.name` and the `parse*` family name
  a frame ("WUPA", "ECP1_VAS_OR_PAYMENT", "MAGWUP2", "PLF" …). Each name
  comes from string tests on the lower-case hex text of the frame bytes,
  with tables of FeliCa system codes, ECP transit TCIs and ECP access
  subtypes (`Classifier`). A second rendering works on the bytes themselves
  (`FrameRules.FrameName`). It is proved equal to the string version on
  every frame, so each text test can be read as a test on bytes.
  - **Exceptions.** Where the source's `substring` or `hexToByte` would
    throw, the model returns `Err`. Naming throws exactly on the frames
    that reach `parseOtherFrameTypes` (type Unknown, type A without a 52
    or 26 first byte, type B without a 05 first byte, type F shorter than
    3 bytes) and are ECP2 TRANSIT frames of 4 to 7 bytes or ECP2 ACCESS
    frames of 4 bytes (`NameFailsExactlyOnShortEcp2`). The length guard
    of `parseECP2` only asks for 8 hex digits.
- **Array helpers.** `repeat`, `rotate`, `get`, `containsSubArray` and
  `equalTo` are modelled over `seq<T>` with an arbitrary comparator
  (`Sequences`).
- **Cycle detection.** `smallestRepeatingSequence` and
  `largestRepeatingSequence` are modelled in `Cycles`. Periodicity is
  defined independently of the code (`Periodic`). Two facts are proved:
  - the slice `largestRepeatingSequence` keeps is the first longest passing
    candidate in loop order;
  - that slice is then reduced to its shortest repeating unit.
- **Loop alignment.** `alignPollingLoop` and `fieldTypeToIndex` are
  modelled in `Aligner`.
  - **Score.** The score uses integers: it is the source's double score
    times 100000.
  - **Chosen rotation.** It is the first considered rotation with the
    strictly greatest positive score, and rotation 0 when no rotation
    scores above 0.
  - **Properties.** The result is a rotation, hence a permutation, of the
    input. Aligning twice changes nothing.
- **Segmentation and display.** `mapPollingEventsToLoopActivity` is
  modelled in `Segmenter`. It is checked against reference definitions of
  the segments between OFF events. The two text converters are modelled in
  `Display`: the gain as a percentage and a delta as a time text. The time
  text has a parser, and the two round-trip.

In four places the code does something other than one might expect from
its comments or names. The model follows the code:

- **ECP1 transit frames.** The TCI is the text from offset 4, so
  `6a01030000` names `ECP1_TRANSIT_VENTRA`. A longer frame such as
  `6a0103030000` gives `ECP1_TRANSIT_UNKNOWN`, because its text from
  offset 4 is not in the table. Only a five-byte frame can name a listed
  transit system (`Ecp1TransitNeedsFiveBytes`).
- **Containment.** `containsSubArray` tests for a contiguous occurrence.
  It restarts on a mismatch without testing the mismatched element again,
  so it can miss an occurrence (`ContainsSubArrayMissesOverlap`). This is a
  known limitation of the greedy scan, not a defect of the model.
- **Loop bounds.** Both cycle loops bound their length or start index by
  `ceil((n / 2).toDouble())`. The division is an integer division, so
  that bound is `floor(n / 2)`.
- **Alignment without a candidate.** In `alignPollingLoop` the initial pick
  is rotation 0 with score 0. So rotation 0 wins whenever no considered
  rotation scores above 0, even when rotation 0 is not a candidate
  (`ZeroScoreKeepsNonCandidate`).

Source paths below are relative to the repository root.

## Model

| member | source | states |
|---|---|---|
| Strings.Substring | app/src/main/java/com/kormax/observemodedemo/Utilities.kt:235-237 | `substring(begin, end)` succeeds exactly when `0 <= begin <= end <= length`. On success it returns the characters from `begin` on; otherwise it fails with the bounds it was given |
| Strings.Lower | app/src/main/java/com/kormax/observemodedemo/Utilities.kt:90 | `lowercase` keeps the length, turns each upper-case letter into the letter at the same place in `a`..`z`, and changes no character that was not upper case |
| Strings.LowerOfLower | app/src/main/java/com/kormax/observemodedemo/Utilities.kt:198 | lower-casing a text without upper-case letters changes nothing |
| Strings.NatToStringRoundTrip | app/src/main/java/com/kormax/observemodedemo/Utilities.kt:338-339 | the decimal digits written for a natural number read back as that number |
| Strings.IntToStringRoundTrip | app/src/main/java/com/kormax/observemodedemo/Utilities.kt:314 | the decimal text of any integer, sign included, parses back to it |
| HexCodec.Signed | app/src/main/java/com/kormax/observemodedemo/Utilities.kt:413 | a Kotlin `Byte` reads as a value in -128..127 that is congruent to the unsigned byte modulo 256 |
| HexCodec.Hex | app/src/main/java/com/kormax/observemodedemo/Utilities.kt:90 | `toHexString` writes two characters per byte |
| HexCodec.UnhexOfHex | app/src/main/java/com/kormax/observemodedemo/Utilities.kt:90 | the hex text of a frame decodes back to the same bytes, so no two frames share a text |
| HexCodec.HexInjective | app/src/main/java/com/kormax/observemodedemo/Utilities.kt:90 | two frames have equal hex texts exactly when their bytes are equal |
| HexCodec.HexToByteOfByteHex | app/src/main/java/com/kormax/observemodedemo/Utilities.kt:182 | `hexToByte` of the two digits written for a byte gives that byte back |
| HexCodec.HexIsLower | app/src/main/java/com/kormax/observemodedemo/Utilities.kt:90 | the hex text is already lower case, so `lowercase` leaves it unchanged |
| HexCodec.HexStartsWithBytes | app/src/main/java/com/kormax/observemodedemo/Utilities.kt:172-174 | the hex text starts with the text of `p` exactly when the frame starts with the bytes `p` |
| HexCodec.HexEndsWithByte | app/src/main/java/com/kormax/observemodedemo/Utilities.kt:129-134 | the hex text ends with the two digits of a byte exactly when the frame's last byte is that byte |
| HexCodec.HexSlice | app/src/main/java/com/kormax/observemodedemo/Utilities.kt:193 | characters `2i` to `2j` of the hex text are the hex text of bytes `i` to `j` |
| FrameRules.Ecp1RuleMatches | app/src/main/java/com/kormax/observemodedemo/Utilities.kt:244-259 | `parseECP1` on the hex text names each fixed variant by its table entry. It names a frame `6a 01 03 …` as TRANSIT with the TCI from byte 2 on, and every other frame "UNKNOWN" |
| FrameRules.Ecp1TransitPrefix | app/src/main/java/com/kormax/observemodedemo/Utilities.kt:253 | the text starts with "6a0103" exactly when bytes 0 to 2 are 6a, 01, 03 |
| FrameRules.Ecp1TransitDigits | app/src/main/java/com/kormax/observemodedemo/Utilities.kt:254 | the text from offset 4 is the lower-case hex text of the bytes from 2 on |
| FrameRules.Ecp2RuleMatches | app/src/main/java/com/kormax/observemodedemo/Utilities.kt:231-242 | `parseECP2` selects on byte 3: TRANSIT reads bytes 5 to 7, ACCESS reads byte 4, IDENTITY and HANDOVER come from 03 and 05, and any other value is "UNKNOWN". Out-of-range reads fail |
| FrameRules.Ecp2TransitText | app/src/main/java/com/kormax/observemodedemo/Utilities.kt:236 | on a frame of at least 8 bytes, `substring(10, 16)` is the hex text of bytes 5 to 7 |
| FrameRules.Ecp2AccessText | app/src/main/java/com/kormax/observemodedemo/Utilities.kt:237 | on a frame of at least 5 bytes, `substring(8, 10)` is the hex text of byte 4 |
| FrameRules.Ecp2RuleFailure | app/src/main/java/com/kormax/observemodedemo/Utilities.kt:232-237 | ECP2 decoding fails exactly on a TRANSIT frame shorter than 8 bytes or an ACCESS frame shorter than 5 bytes |
| FrameRules.OtherLiteralTests | app/src/main/java/com/kormax/observemodedemo/Utilities.kt:104-121 | the whole-text tests for APGEN, INITIATE and HLTA hold exactly for the frames 01 0b 3f 80, 06 00 and 50 00 |
| FrameRules.OtherOneByteTests | app/src/main/java/com/kormax/observemodedemo/Utilities.kt:112-166 | the REQT, WUPC1 and WUPC2 text tests hold exactly for the one-byte frames 10, 40 or 20, and 43 or 23 |
| FrameRules.OtherShapeTests | app/src/main/java/com/kormax/observemodedemo/Utilities.kt:122-150 | each test on the shape of the text is a test on the bytes. HLTB is a 5-byte frame starting with 50. ACTALL and IDENTIFY are 1 or 2 bytes ending in 0a or 0c. ECP is 4 or more bytes starting with 6a. MagSafe is one byte with high nibble 7 |
| FrameRules.EcpProtocolTests | app/src/main/java/com/kormax/observemodedemo/Utilities.kt:142-145 | the ECP protocol digits at offsets 2 to 3 are "01" or "02" exactly when byte 1 is 01 or 02 |
| FrameRules.MagSafeMatches | app/src/main/java/com/kormax/observemodedemo/Utilities.kt:151-157 | the MagSafe wake-up suffix of a one-byte frame is 1 to 4 for 7a to 7d and "U" otherwise |
| FrameRules.OtherRuleMatches | app/src/main/java/com/kormax/observemodedemo/Utilities.kt:102-169 | `parseOtherFrameTypes` on the hex text agrees on every frame with the byte-level rules, taken in the same order, with "PLF" last |
| FrameRules.OtherTextMatches | app/src/main/java/com/kormax/observemodedemo/Utilities.kt:102-169 | on any text whose literal, shape, ECP and MagSafe tests give the same answers as the byte tests on a frame, `parseOtherFrameTypes` returns the byte rule's name or failure |
| FrameRules.TypeARuleMatches | app/src/main/java/com/kormax/observemodedemo/Utilities.kt:171-178 | a type A frame is WUPA when it starts with 52 and REQA when it starts with 26. Otherwise the fallback decoder names it |
| FrameRules.TypeBRuleMatches | app/src/main/java/com/kormax/observemodedemo/Utilities.kt:180-189 | a type B frame starting with 05 is WUPB when bit 0x08 of its last byte is set and REQB otherwise. Otherwise the fallback decoder names it |
| FrameRules.TypeFRuleMatches | app/src/main/java/com/kormax/observemodedemo/Utilities.kt:191-207 | a type F frame of 3 or more bytes is named by the system code in bytes 1 to 2. A shorter one goes to the fallback decoder |
| FrameRules.NameMatchesFrameRules | app/src/main/java/com/kormax/observemodedemo/Utilities.kt:89-98 | the name of every event equals the byte-level name for its type and bytes |
| FrameRules.NameDispatch | app/src/main/java/com/kormax/observemodedemo/Utilities.kt:89-98 | ON and OFF are unnamed; WUPA, REQA, WUPB and REQB come from the first byte; F names come from the system code. Every other frame reaches the fallback decoder |
| FrameRules.FallbackFixedFrames | app/src/main/java/com/kormax/observemodedemo/Utilities.kt:108-121 | the texts 0600 and 5000 name INITIATE and HLTA |
| FrameRules.EcpFallbackReached | app/src/main/java/com/kormax/observemodedemo/Utilities.kt:141-147 | every ten-digit text starting "6a" reaches the ECP branch, which selects on digits 2 to 3 |
| FrameRules.FallbackEcp1Payment | app/src/main/java/com/kormax/observemodedemo/Utilities.kt:244-246 | 6a01000000 names ECP1_VAS_OR_PAYMENT |
| FrameRules.FallbackEcp1Transit | app/src/main/java/com/kormax/observemodedemo/Utilities.kt:253-254 | 6a01030000 names ECP1_TRANSIT_VENTRA |
| FrameRules.Ecp1TransitNeedsFiveBytes | app/src/main/java/com/kormax/observemodedemo/Utilities.kt:244-259 | every ECP1 frame `6a 01 03 …` of 4 or more bytes other than 5 names ECP1_TRANSIT_UNKNOWN, since no variant matches and every TCI in the table is three bytes |
| FrameRules.FallbackHltb | app/src/main/java/com/kormax/observemodedemo/Utilities.kt:122-125 | every 5-byte frame starting with 50 names HLTB |
| FrameRules.FallbackActall | app/src/main/java/com/kormax/observemodedemo/Utilities.kt:128-132 | every 1- or 2-byte frame ending in 0a names ACTALL |
| FrameRules.ActallRule | app/src/main/java/com/kormax/observemodedemo/Utilities.kt:128-132 | the byte-level rule names every 1- or 2-byte frame ending in 0a as ACTALL, ahead of the later rules |
| FrameRules.FallbackMagSafe | app/src/main/java/com/kormax/observemodedemo/Utilities.kt:150-158 | a one-byte frame 70 to 7f names MAGWUP1 to MAGWUP4 for 7a to 7d and MAGWUPU otherwise |
| FrameRules.OtherRuleFailure | app/src/main/java/com/kormax/observemodedemo/Utilities.kt:141-146 | the fallback decoder fails exactly on an ECP2 frame whose ECP2 decoding fails |
| FrameRules.NameFailsExactlyOnShortEcp2 | app/src/main/java/com/kormax/observemodedemo/Utilities.kt:231-237 | computing a name fails exactly on a frame that reaches the fallback decoder and is a short ECP2 TRANSIT or ACCESS frame |
| Sequences.Repeat | app/src/main/java/com/kormax/observemodedemo/Utilities.kt:458-460 | `repeat(n)` has `n` times the length of the array |
| Sequences.RepeatAt | app/src/main/java/com/kormax/observemodedemo/Utilities.kt:459 | element `i` of `repeat(n)` is element `i mod size` of the array |
| Sequences.Rotate | app/src/main/java/com/kormax/observemodedemo/Utilities.kt:462-467 | `rotate(n)` keeps the length |
| Sequences.RotateAt | app/src/main/java/com/kormax/observemodedemo/Utilities.kt:462-467 | element `i` of `rotate(n)` is element `(i + n) mod size`, also for `n == 0`, where the array itself is returned |
| Sequences.RotatePermutes | app/src/main/java/com/kormax/observemodedemo/Utilities.kt:466 | a rotation holds the same elements with the same multiplicities |
| Sequences.RotateRotate | app/src/main/java/com/kormax/observemodedemo/Utilities.kt:466 | rotating by `a` and then by `b` is rotating by `a + b` |
| Sequences.RotateByLength | app/src/main/java/com/kormax/observemodedemo/Utilities.kt:466 | rotating by a multiple of the length gives the array back |
| Sequences.RotateMod | app/src/main/java/com/kormax/observemodedemo/Utilities.kt:466 | rotating by `n` is rotating by `n mod size` |
| Sequences.GetIsRotate | app/src/main/java/com/kormax/observemodedemo/Utilities.kt:469-471 | `get(index, rotation)` is element `index` of `rotate(rotation)` |
| Sequences.EqualTo | app/src/main/java/com/kormax/observemodedemo/Utilities.kt:492-501 | `equalTo` holds exactly when the sizes agree and the comparator accepts every pair of elements at the same index |
| Sequences.EqualFrom | app/src/main/java/com/kormax/observemodedemo/Utilities.kt:495-500 | the loop from index `i` returns true exactly when every pair from `i` on is accepted |
| Sequences.ContainsSubArray | app/src/main/java/com/kormax/observemodedemo/Utilities.kt:473-490 | the empty sub-array is always contained; a true answer means the sub-array occurs contiguously, element by element under the comparator |
| Sequences.Scan | app/src/main/java/com/kormax/observemodedemo/Utilities.kt:478-489 | the scan loop, with `k` elements matched just before `index`, answers true only when an occurrence exists |
| Sequences.ContainsSubArrayMissesOverlap | app/src/main/java/com/kormax/observemodedemo/Utilities.kt:478-488 | `[1, 2]` occurs in `[1, 1, 2]` at position 1, yet `containsSubArray` answers false |
| Cycles.RepeatedPrefixIsPeriodic | app/src/main/java/com/kormax/observemodedemo/Utilities.kt:364-366 | comparing the array with its first `L` elements repeated holds exactly when the array is `L`-periodic under the comparator |
| Cycles.RejectedLengthNotPeriodic | app/src/main/java/com/kormax/observemodedemo/Utilities.kt:364-366 | a length the loop rejects is not a period |
| Cycles.SmallestRepeatingSequence | app/src/main/java/com/kormax/observemodedemo/Utilities.kt:359-372 | a non-empty result is the first block of a period of at most half the length, and its repetition equals the array. No shorter length is a period. An empty result means no length up to half the size is a period |
| Cycles.SmallestFrom | app/src/main/java/com/kormax/observemodedemo/Utilities.kt:363-371 | the loop from length `L` on, every shorter length having failed, returns the shortest period from `L` on, or nothing when there is none |
| Cycles.PossibilitiesMembers | app/src/main/java/com/kormax/observemodedemo/Utilities.kt:445-453 | `possibilities` holds exactly the slices `start < floor(n/2)`, `start <= end < n` whose pattern twice over `containsSubArray` finds |
| Cycles.PossibilitiesOrdered | app/src/main/java/com/kormax/observemodedemo/Utilities.kt:446-447 | the list is in the order the nested loops visit the slices |
| Cycles.FirstLongestIndex | app/src/main/java/com/kormax/observemodedemo/Utilities.kt:454 | `maxByOrNull { it.size }` picks an entry no shorter than any other and longer than every entry before it |
| Cycles.EmptySlicePasses | app/src/main/java/com/kormax/observemodedemo/Utilities.kt:448-449 | the empty pattern at 0 is visited once the array has two elements, and it always passes |
| Cycles.ChosenSlice | app/src/main/java/com/kormax/observemodedemo/Utilities.kt:445-454 | a slice is chosen exactly when the array has two or more elements. The chosen slice passes, no passing slice is longer, and every passing slice visited before it is shorter |
| Cycles.ReduceToUnit | app/src/main/java/com/kormax/observemodedemo/Utilities.kt:455 | the pattern becomes its shortest repeating unit when it has one of at most half its length; otherwise it stays as it is |
| Cycles.LargestRepeatingSequence | app/src/main/java/com/kormax/observemodedemo/Utilities.kt:441-456 | an array of fewer than two elements gives the empty array. Otherwise the result is the pattern of the first longest passing slice, reduced to its shortest repeating unit |
| Aligner.RankStepsBound | app/src/main/java/com/kormax/observemodedemo/Utilities.kt:375-382 | with A, B and F ranked 2, 3 and 4, a traversal earns at most one rank step per rank above its start, at most three in all |
| Aligner.NoRankStepIff | app/src/main/java/com/kormax/observemodedemo/Utilities.kt:415-422 | a traversal earns no rank step exactly when no event outranks the starting rank |
| Aligner.RotationScoreReadsGet | app/src/main/java/com/kormax/observemodedemo/Utilities.kt:411-431 | the score of a rotation, read through `get` as the source does, is the score of the rotated loop |
| Aligner.CandidateIsOnToOff | app/src/main/java/com/kormax/observemodedemo/Utilities.kt:400-402 | a rotation is a candidate exactly when the rotated loop opens with ON and closes with OFF |
| Aligner.CandidatesFrom | app/src/main/java/com/kormax/observemodedemo/Utilities.kt:400-402 | the filter keeps exactly the candidate rotations, in strictly increasing order |
| Aligner.Range | app/src/main/java/com/kormax/observemodedemo/Utilities.kt:403 | `indices.toList()` lists `0 until size` in order |
| Aligner.Rotations | app/src/main/java/com/kormax/observemodedemo/Utilities.kt:400-403 | the considered rotations are the candidates, or every rotation when there is no candidate, in increasing order |
| Aligner.PickBest | app/src/main/java/com/kormax/observemodedemo/Utilities.kt:405-436 | the loop ends with the greatest score. A changed pick is the first rotation reaching a score strictly above the initial one, and no earlier rotation scores as much |
| Aligner.ChosenRotation | app/src/main/java/com/kormax/observemodedemo/Utilities.kt:398-436 | the chosen rotation is rotation 0 when no considered rotation scores above 0. Otherwise it is the first considered rotation with the greatest score |
| Aligner.AlignPollingLoop | app/src/main/java/com/kormax/observemodedemo/Utilities.kt:384-439 | loops of at most one event are returned as they are; otherwise the result is a rotation of the loop by less than its size, hence a permutation of it |
| Aligner.AlignedStartsOnEndsOff | app/src/main/java/com/kormax/observemodedemo/Utilities.kt:385-387 | when some candidate scores above 0, the aligned loop opens with ON and closes with OFF |
| Aligner.ShiftedRotation | app/src/main/java/com/kormax/observemodedemo/Utilities.kt:411-431 | rotation `c` of a loop rotated by `k` has the score and candidacy of rotation `(k + c) mod size` of the original |
| Aligner.ConsideredShift | app/src/main/java/com/kormax/observemodedemo/Utilities.kt:400-403 | rotation `c` of a loop rotated by `k` is considered exactly when rotation `(k + c) mod size` of the original is |
| Aligner.AlignIdempotent | app/src/main/java/com/kormax/observemodedemo/Utilities.kt:384-439 | aligning an aligned loop changes nothing |
| Aligner.AlignedKeepsRotationZero | app/src/main/java/com/kormax/observemodedemo/Utilities.kt:433-438 | after rotating to the best rotation, the best rotation of the result is 0 |
| Aligner.ZeroScoreKeepsNonCandidate | app/src/main/java/com/kormax/observemodedemo/Utilities.kt:398-403 | in OFF, ON, X, the only candidate scores 0, so the loop is returned as it is although it does not open with ON |
| Display.PowerPercentage | app/src/main/java/com/kormax/observemodedemo/Utilities.kt:337-338 | the percentage lies in 0..100. It is 0 for a gain of 0 or less and 100 for 12 or more; in between it is the gain's share of 12, rounded down |
| Display.PowerPercentageMonotone | app/src/main/java/com/kormax/observemodedemo/Utilities.kt:337-338 | a greater gain never shows a smaller percentage |
| Display.GainText | app/src/main/java/com/kormax/observemodedemo/Utilities.kt:333-340 | the text is the percentage's digits followed by "%", and those digits read back as the percentage |
| Display.CeilDiv | app/src/main/java/com/kormax/observemodedemo/Utilities.kt:313 | `ceil(a / b)` is the least `q` with `a <= q * b` |
| Display.ReadingOf | app/src/main/java/com/kormax/observemodedemo/Utilities.kt:310-330 | -1 reads as Continuous. Otherwise the unit is the largest of min, s and ms the delta reaches, with the amount rounded up; below a millisecond it is the raw microseconds |
| Display.TimeText | app/src/main/java/com/kormax/observemodedemo/Utilities.kt:310-311 | the text is "Continuous" exactly for -1 |
| Display.AmountTextRoundTrip | app/src/main/java/com/kormax/observemodedemo/Utilities.kt:312-329 | an amount's digits followed by its unit suffix parse back to that amount and unit |
| Display.TimeTextRoundTrip | app/src/main/java/com/kormax/observemodedemo/Utilities.kt:310-330 | the time text of a delta parses back to exactly its reading |
| Segmenter.MapPollingEventsToLoopActivity | app/src/main/java/com/kormax/observemodedemo/Utilities.kt:504-532 | there is one loop per OFF, carrying the segment the OFF closes, its leading ON's delta and the OFF's delta. After them comes an open loop for a non-trivial trailing segment. No loop holds an OFF. The loops hold exactly the input minus its OFFs and its segment-opening ONs, in order |
| Segmenter.WalkedSegments | app/src/main/java/com/kormax/observemodedemo/Utilities.kt:510-526 | after any prefix, the emitted loops are the closed segments and the pending events and start delta are those of the trailing segment |
| Segmenter.WalkedKeeps | app/src/main/java/com/kormax/observemodedemo/Utilities.kt:510-526 | after any prefix, the emitted and pending events together are the kept events of that prefix |
| Segmenter.FinishProperties | app/src/main/java/com/kormax/observemodedemo/Utilities.kt:528-530 | the final open loop is emitted exactly when the trailing segment has events or a start delta |
| Segmenter.TwoClosedLoops | app/src/main/java/com/kormax/observemodedemo/Utilities.kt:504-532 | ON A B OFF ON F OFF gives two closed loops, (ON's delta, OFF's delta, [A, B]) and the same for [F] |

## Left out

- `MainActivity.kt` and `ObserveModeHostApduService.kt` are not part of this model. They hold the user interface, the frame history, the broadcast plumbing and the card-emulation service.
- The Compose and Android helpers in `Utilities.kt` (lines 262-307) are UI plumbing: the broadcast receiver, screen orientation and activity lookup.
- The type-to-name-and-colour mapping at lines 343-356 is display only.
- `Constants` and `DisplayMode` (lines 25-37) are constants of the UI.
- The `PollingLoopEvent` constructors (lines 58-78) are platform calls. They read `PollingFrame` and `SystemClock`, and compute `delta` from the platform timestamps. The model takes `delta` as given.
- The `at` field of events and the `timestamp` of `Loop` are wall-clock readings (`now()`, `elapsedRealtimeNanos`). They are not modelled.
- `FrameType` has no integer codes. Any type code outside A, B, F, ON and OFF becomes `Unknown`, which `name` treats the same way.
- The `by lazy` caching of `name` has no observable effect on the value and is not modelled.
- Strings.Lower: folds only the ASCII letters A to Z. The Unicode case mapping of Kotlin's `lowercase` is not modelled; the classifier only ever lower-cases hex text.
- Aligner.Score: the source adds doubles (0.001 per data byte, 0.00001 times the signed first byte, 2 per rank step, 1 for a trailing ON, OFF pair). The model adds the same terms scaled by 100000 as exact integers. Floating-point rounding, which could reorder two nearly equal scores, is not modelled.
- Display.ReadingOf: computes `ceil(microseconds / unit)` exactly on integers. It does not model the rounding of the double division, and does not model `toInt()` saturating for deltas beyond 2^31 minutes.
- Sequences.Repeat: `size * n` and `(index + rotation) % size` are 32-bit `Int` products and sums in the source. Their wrap-around is not modelled; every index the core uses is below the array size.
- Sequences.Get: requires a non-empty array. On an empty array the source divides by zero and throws; the core never calls it on one.
