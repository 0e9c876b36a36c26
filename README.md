# Rotation dial and range scanner, modelled in Dafny

This is a model of two Advent-of-Code puzzle solvers, written in Rust, with
proofs about them.

- `src/day1.rs` reads lines such as `L68` and `R14`. Each line turns a dial
  with positions 0..99. The dial starts at 50.
  - Part 1 counts the rotations after which the dial rests on 0.
  - Part 2 counts every single click that leaves the dial on 0. It gets the
    count arithmetically: whole turns, the remaining steps, and two edge
    cases.
- `src/day2.rs` reads one line of comma-separated `start-end` ranges of
  product ids. It adds up the ids whose decimal digits repeat a pattern.
  - Part 1 uses one sequence written exactly twice (`6464`).
  - Part 2 uses a shorter sequence written two or more times (`111`,
    `121212`).

The project has three files:

- `text.dfy` (module `Text`) holds the Rust standard-library string
  operations the solvers use: `str::lines`, `str::split` on one character,
  `usize::to_string`, and `str::parse` for `usize` and `isize`. Both types
  are taken to be 64 bits wide.
- `rotation_dial.dfy` (module `RotationDial`) models `src/day1.rs`.
  - The two solvers are methods with the source's loops and variables.
  - Each is proved equal to a reference simulation: `Landings` for part 1,
    rotation by rotation, and `Passes` for part 2, click by click.
- `range_scanner.dfy` (module `RangeScanner`) models `src/day2.rs`.
  - The two solvers, the per-id tests and the chunk-comparison loop are
    methods with the source's loops.
  - They are proved to add up exactly the ids satisfying the rule, stated
    without reference to the code. `IsDoubled`: the digits are some `c`
    written twice. `IsRepetition`: the digits are some non-empty `c` written
    `k >= 2` times.
  - The ids are added up range by range, in input order.

Part 1 tests the dial after every rotation (`src/day1.rs:27-29`), including
a rotation of value 0 made while the dial already rests on 0. Part 2 sees no
click in that case. So part 1 can count more than part 2: after `R50` and
`L0`, part 1 counts 2 and part 2 counts 1 (`StandingOnZeroCountedTwice`). The
two parts agree when every rotation clicks onto 0 once if it ends there and
never otherwise (`LandingsEqualPasses`). The converse does not hold: `R50`,
`L0`, `R150` gives 2 for both (`AgreementWithoutZeroOnlyAtRest`).

A panicking `unwrap` in the day-2 parser makes the parse `None`. The panic of
`split_at(1)` in the day-1 parser is a precondition (`SplitsAtOne`).

## Model

| member | source | states |
|---|---|---|
| Text.AllValues | src/day2.rs:10-16 | collecting the per-token results: when all are present, the result has one value per token, in order |
| Text.AllValuesPresent | src/day2.rs:10-16 | when every token parses, the collected result is exactly the list of their values |
| Text.AllValuesMissing | src/day2.rs:12-13 | the collection fails exactly when some token's parse failed |
| Text.Digits | src/day2.rs:29 | `to_string`: at least one character, all decimal digits, denoting `n`, no leading zero unless `n == 0`, one character exactly when `n < 10` |
| Text.ParseUsize | src/day2.rs:12 | a parsed `usize` is below 2^64 and comes from text starting with a digit or `+` |
| Text.ParseIsize | src/day1.rs:83 | a parsed `isize` lies in [-2^63, 2^63) |
| Text.ParseUsizeDigits | src/day2.rs:12-13 | parsing the decimal form of any `usize` gives it back |
| Text.ParseIsizeShow | src/day1.rs:83 | parsing the decimal form of any `isize`, minus sign included, gives it back |
| Text.Split | src/day2.rs:9 | `split` yields at least one piece and no piece contains the separator |
| Text.SplitJoin | src/day2.rs:9-11 | splitting a join of separator-free pieces gives the pieces back |
| Text.JoinSplit | src/day2.rs:9 | joining the pieces of a split with the separator gives the string back, so nothing is lost |
| Text.SplitCons | src/day2.rs:11-13 | a first piece without the separator is split off by itself, followed by the pieces of the rest |
| Text.Lines | src/day1.rs:5 | `lines` yields lines without '\n', never more lines than characters |
| Text.LinesUnlines | src/day1.rs:5 | lines without line breaks, written one per row, are read back unchanged |
| Text.SingleLine | src/day2.rs:6-8 | non-empty text without '\n' is one line, the one the day-2 parser takes |
| RotationDial.ParseDirection | src/day1.rs:95-101 | `Some(Left)` exactly for "L", `Some(Right)` exactly for "R", `None` for everything else |
| RotationDial.ParseRotation | src/day1.rs:80-85 | a rotation is produced exactly when both the first character and the rest parse; its direction and value are theirs |
| RotationDial.ParseShowRotation | src/day1.rs:80-85 | every rotation with an `isize` value is read back from its line |
| RotationDial.ParseEach | src/day1.rs:5 | `.map(Rotation::from_str)`: one entry per line, entry `i` being the parse of line `i` |
| RotationDial.ParseRotations | src/day1.rs:4-11 | one entry per input line, entry `i` being the parse of line `i` |
| RotationDial.ParseRotationsRoundTrip | src/day1.rs:4-6 | rotations written one per line parse back to exactly those rotations |
| RotationDial.Present | src/day1.rs:18 | `flatten` keeps at most as many entries as the input has |
| RotationDial.PresentMembers | src/day1.rs:18 | a rotation is visited exactly when the input holds it as `Some` |
| RotationDial.PresentSomes | src/day1.rs:18 | when every line parses, the solvers visit every rotation in order |
| RotationDial.Magnitude | src/day1.rs:41-42 | `value as usize` is below 2^64 and equals the value when it is non-negative |
| RotationDial.Landings | src/day1.rs:13-32 | the reference part 1 counts at most one zero per rotation |
| RotationDial.Passes | src/day1.rs:34-71 | the reference part 2, which takes every rotation as that many single clicks, keeps the dial in 0..99 |
| RotationDial.SpinClosedForm | src/day1.rs:39-68 | `n` clicks taken one at a time end at `Turn` and pass 0 exactly `ZeroHits` times |
| RotationDial.LeftShortcut | src/day1.rs:41-50 | the left-turn arithmetic, with its extra 100 to stay non-negative, lands where `n` left clicks land; its three counts add up to the clicks onto 0 |
| RotationDial.RightShortcut | src/day1.rs:51-67 | the right-turn arithmetic lands where `n` right clicks land; its three counts add up to the clicks onto 0 |
| RotationDial.LandingsStep | src/day1.rs:18-29 | part 1's reference advanced by one rotation: the dial turns and the count grows by one exactly when it lands on 0 |
| RotationDial.PassesStep | src/day1.rs:39-67 | part 2's reference advanced by one rotation, in closed form |
| RotationDial.SameDial | src/day1.rs:13-71 | both parts leave the dial in the same position after any input |
| RotationDial.ZeroRotationAddsNothing | src/day1.rs:59-66 | a rotation of value 0 changes neither the dial nor part 2's count |
| RotationDial.LandingsAtMostPasses | src/day1.rs:13-71 | with no rotation of value 0, part 1's count never exceeds part 2's |
| RotationDial.StandingOnZeroCountedTwice | src/day1.rs:27-29 | after `R50` and `L0`, part 1's reference counts 2 and part 2's counts 1: part 1 counts a rotation of value 0 made on 0 again |
| RotationDial.LandingsEqualPasses | src/day1.rs:13-71 | if every rotation clicks onto 0 once when it ends on 0 and never otherwise, the two parts count the same |
| RotationDial.AgreementWithoutZeroOnlyAtRest | src/day1.rs:13-71 | after `R50`, `L0`, `R150` both parts count 2, although `L0` ends on 0 without a click: the condition of `LandingsEqualPasses` is not necessary |
| RotationDial.Part1 | src/day1.rs:13-32 | `part1` returns the number of rotations after which the dial rests on 0, at most the number of rotations |
| RotationDial.Part2 | src/day1.rs:34-71 | `part2` returns the number of single clicks that leave the dial on 0 |
| RotationDial.ExampleCounts | src/day1.rs:133-143 | on the worked example, part 1 gives 3 and part 2 gives 6 |
| RangeScanner.ParseRange | src/day2.rs:10-15 | a parsed range has both bounds in `usize` |
| RangeScanner.ParseTokens | src/day2.rs:10-15 | the per-token closure applied to each comma-separated token: one result per token, in order |
| RangeScanner.ParseRanges | src/day2.rs:3-17 | no line gives `None`; otherwise one range per comma-separated token of the first line, each being that token's parse |
| RangeScanner.ParseRangesFails | src/day2.rs:8-13 | the parse fails exactly when there is no line or some token is not a range |
| RangeScanner.ParseShowRange | src/day2.rs:10-15 | every range of `usize`s is read back from its `start-end` token, which has no ',' or '\n' |
| RangeScanner.NoDashNoRange | src/day2.rs:11-13 | a token without '-' is not a range |
| RangeScanner.ExtraPiecesIgnored | src/day2.rs:11-13 | text after a second '-' is ignored |
| RangeScanner.ParseRangesRoundTrip | src/day2.rs:3-17 | ranges written as a comma-separated line parse back to exactly those ranges |
| RangeScanner.HalvesMatch | src/day2.rs:31-38 | even length with equal halves holds exactly when the string is some sequence written twice |
| RangeScanner.DoubledIsRepetition | src/day2.rs:24-78 | a non-empty sequence written twice is a repetition |
| RangeScanner.OddLengthNeverDoubled | src/day2.rs:31-33 | an id with an odd number of digits is never invalid in part 1 |
| RangeScanner.SingleDigitNeverRepetition | src/day2.rs:53-55 | a one-digit id is never invalid in part 2, so skipping it loses nothing |
| RangeScanner.HalfSplitImpliesAnyChunk | src/day2.rs:24-78 | every id invalid in part 1 is invalid in part 2 |
| RangeScanner.SumBounds | src/day2.rs:43 | `iter().sum()`: no listed id exceeds the sum, and the sum is 0 exactly when every listed id is 0 |
| RangeScanner.SumAppend | src/day2.rs:43 | the sum of two lists placed one after the other is the sum of their sums |
| RangeScanner.InvalidIdsAppend | src/day2.rs:27-42 | the ids listed for two lists of ranges placed one after the other are those of each list in turn |
| RangeScanner.TotalAppend | src/day2.rs:24-44 | both answers are additive over the list of ranges |
| RangeScanner.EmptyRange | src/day2.rs:28 | a range whose start is past its end contributes nothing |
| RangeScanner.InvalidInCount | src/day2.rs:28-40 | within one range every invalid id is listed exactly once, and nothing else is listed |
| RangeScanner.InvalidIdsCount | src/day2.rs:27-42 | an invalid id is listed once per range containing it, however the ranges overlap; a valid id is never listed |
| RangeScanner.SumInvalidInStep | src/day2.rs:28-43 | one more id of a range adds itself to the sum exactly when it is invalid |
| RangeScanner.InvalidInMonotone | src/day2.rs:24-78 | on one range part 1's sum never exceeds part 2's |
| RangeScanner.Part1AtMostPart2 | src/day2.rs:24-78 | on any input part 1's answer never exceeds part 2's |
| RangeScanner.Part1 | src/day2.rs:24-44 | `part1` returns the sum, range by range, of the ids that are a digit sequence written twice |
| RangeScanner.HalvesEqual | src/day2.rs:29-38 | the part 1 test on one id holds exactly when its digits are a sequence written twice |
| RangeScanner.Part2 | src/day2.rs:46-78 | `part2` returns the sum, range by range, of the ids that are a shorter digit sequence written at least twice |
| RangeScanner.HasRepeatedChunk | src/day2.rs:51-73 | the part 2 test on one id holds exactly when its digits are a non-empty sequence written at least twice |
| RangeScanner.ChunksMatch | src/day2.rs:60-69 | the inner loop leaves `is_invalid` set exactly when the id is its first `chunk_size` digits repeated |
| RangeScanner.SmallChunk | src/day2.rs:56-59 | every repetition is found among chunk sizes from 1 to half the length that divide the length |
| RangeScanner.NoChunkNoRepetition | src/day2.rs:56-73 | when no tried chunk size works, the id is no repetition |
| RangeScanner.TwoDigitRange | src/day2.rs:28-73 | among two-digit ids both rules pick exactly the multiples of 11 |
| RangeScanner.ExampleLineParses | src/day2.rs:85-101 | the line `11-22,95-115` parses to the first two ranges of the worked example |
| RangeScanner.FirstExampleRange | src/day2.rs:109-119 | the example range `11-22` holds the invalid ids 11 and 22 under both rules, adding 33 |

## Left out

- The `aoc_runner` attributes, `lib.rs`, the binary entry point and the
  template code are not part of this model. Reading the puzzle input from
  disk is not modelled; the parsers take the text as a parameter.
- Integer widths: `usize` and `isize` are taken to be 64 bits. Counters and
  sums are unbounded integers, so a `usize` overflow of `zeroes += …` or of
  `iter().sum()` (a panic in debug builds, wrap-around in release builds) is
  not modelled.
- RotationDial.ParseRotation: the panic of `split_at(1)` on an empty line,
  or on a line whose first character takes more than one byte, is a
  precondition, not a modelled outcome. Text is a sequence of Unicode scalar
  values, and byte offsets are not modelled otherwise.
- RangeScanner.ParseRanges: each panicking `unwrap` ends the parse with
  `None` instead of aborting the program.
- Text.ParseUsize, Text.ParseIsize: only the optional sign and the decimal
  digits that Rust accepts are modelled. The error kinds that `parse` can
  report are not distinguished.
- RangeScanner.ParseRange: its own contract states only the `usize` bound.
  What it parses is stated by RangeScanner.ParseShowRange,
  RangeScanner.ExtraPiecesIgnored, RangeScanner.NoDashNoRange and
  RangeScanner.ParseRangesFails.
- RangeScanner.ExampleLineParses: it parses only the first two ranges of the
  worked example (`11-22,95-115`). The parse test expects all eleven ranges;
  the other nine have bounds of up to ten digits, whose decimal strings are
  beyond what the verifier evaluates here.
- RotationDial.Passes: its own contract states only that the dial stays in
  0..99. What it counts is stated by RotationDial.PassesStep and
  RotationDial.SpinClosedForm.
- RangeScanner.Sum: it has no contract of its own. Its properties are
  RangeScanner.SumBounds and RangeScanner.SumAppend.
- RangeScanner.FirstExampleRange: of the day-2 worked example, only the
  first range (`11-22`) is evaluated, together with the parse of the first
  two ranges. The full totals 1227775554 and 4174379265 are not proved: they
  need the decimal digits of ten-digit ids, which is beyond what the
  verifier evaluates here.
- RangeScanner.Part1, RangeScanner.Part2: the solvers are specified by the
  list of invalid ids they collect, not by the `Vec` they push to in place.
  The `Vec` is modelled as a sequence that is reassigned.
- RangeScanner.HalvesEqual, RangeScanner.HasRepeatedChunk: each holds the
  body of the source's inner `for id` loop, from `to_string` to the
  decision, as one method. The `len == 1` skip is an early return inside
  HasRepeatedChunk, not a `continue` in the caller.
