/** Scans inclusive ranges of product ids given on one line as
    `start-end,start-end,...` and adds up the ids whose decimal digits are a
    repeated pattern. Part 1 counts ids made of one digit sequence written
    twice (`6464`); part 2 counts ids made of a shorter digit sequence written
    two or more times (`111`, `121212`). */
module RangeScanner {
  import opened Text

  /** The ids `start..=end`; empty when `start > end`. */
  datatype IdRange = IdRange(start: nat, end: nat)

  // ---------------------------------------------------------------------
  // Parsing. Every `unwrap` that would panic makes the whole parse `None`.

  /** Both bounds fit in a `usize`. */
  predicate InUsizeRange(r: IdRange) {
    r.start < UsizeLimit && r.end < UsizeLimit
  }

  /** One `start-end` token: the first two pieces between dashes, each a
      `usize`; pieces after the second are ignored. */
  function ParseRange(token: string): (r: Option<IdRange>)
    ensures r.Some? ==> InUsizeRange(r.value)
  {
    var bounds := Split(token, '-');
    if |bounds| < 2 then None
    else
      var start := ParseUsize(bounds[0]);
      var end := ParseUsize(bounds[1]);
      if start.Some? && end.Some? then Some(IdRange(start.value, end.value)) else None
  }

  /** Each token parsed on its own, in order. */
  function ParseTokens(tokens: seq<string>): (opts: seq<Option<IdRange>>)
    ensures |opts| == |tokens|
    ensures forall i :: 0 <= i < |tokens| ==> opts[i] == ParseRange(tokens[i])
  {
    seq(|tokens|, i requires 0 <= i < |tokens| => ParseRange(tokens[i]))
  }

  /** `parse_input_part1` (and `parse_input_part2`, which calls it): the
      comma-separated tokens of the first line, each a range in order. */
  function ParseRanges(text: string): (r: Option<seq<IdRange>>)
    ensures Lines(text) == [] ==> r.None?
    ensures r.Some? ==> |r.value| == |Split(Lines(text)[0], ',')|
    ensures r.Some? ==> forall i :: 0 <= i < |r.value| ==>
              ParseRange(Split(Lines(text)[0], ',')[i]) == Some(r.value[i])
  {
    var lines := Lines(text);
    if lines == [] then None else AllValues(ParseTokens(Split(lines[0], ',')))
  }

  /** Every `unwrap` that can panic: the input has no line, or some token of
      the first line is not a range. Nothing else makes the parse fail. */
  lemma ParseRangesFails(text: string)
    ensures ParseRanges(text).None? <==>
              (Lines(text) == [] || exists i :: 0 <= i < |Split(Lines(text)[0], ',')|
                                              && ParseRange(Split(Lines(text)[0], ',')[i]).None?)
  {
    var lines := Lines(text);
    if lines != [] {
      var tokens := Split(lines[0], ',');
      var opts := ParseTokens(tokens);
      assert ParseRanges(text) == AllValues(opts);
      AllValuesMissing(opts);
      assert (exists i :: 0 <= i < |opts| && opts[i].None?)
         <==> (exists i :: 0 <= i < |tokens| && ParseRange(tokens[i]).None?);
      assert tokens == Split(Lines(text)[0], ',');
      assert ParseRanges(text).None? <==>
              (Lines(text) == [] || exists i :: 0 <= i < |Split(Lines(text)[0], ',')|
                                              && ParseRange(Split(Lines(text)[0], ',')[i]).None?);
    }
  }

  /** A range as the input writes it. */
  function ShowRange(r: IdRange): string {
    Join([Digits(r.start), Digits(r.end)], '-')
  }

  /** The ranges written one by one, to be joined with commas. */
  function ShowEach(rs: seq<IdRange>): (tokens: seq<string>)
    ensures |tokens| == |rs|
    ensures forall i :: 0 <= i < |rs| ==> tokens[i] == ShowRange(rs[i])
  {
    if rs == [] then [] else [ShowRange(rs[0])] + ShowEach(rs[1..])
  }

  /** The one-line input describing `rs`. */
  function ShowRanges(rs: seq<IdRange>): string
    requires |rs| >= 1
  {
    Join(ShowEach(rs), ',')
  }

  /** A range whose bounds are `usize`s is read back from its token. */
  lemma ParseShowRange(r: IdRange)
    requires InUsizeRange(r)
    ensures ParseRange(ShowRange(r)) == Some(r)
    ensures ',' !in ShowRange(r) && '\n' !in ShowRange(r)
  {
    var pieces := [Digits(r.start), Digits(r.end)];
    forall p | p in pieces
      ensures '-' !in p && ',' !in p && '\n' !in p
    {
      DigitsAvoid(if p == pieces[0] then r.start else r.end);
    }
    SplitJoin(pieces, '-');
    ParseUsizeDigits(r.start);
    ParseUsizeDigits(r.end);
    JoinAvoids(pieces, '-', ',');
    JoinAvoids(pieces, '-', '\n');
  }

  /** A token without a dash is not a range. */
  lemma NoDashNoRange(token: string)
    requires '-' !in token
    ensures ParseRange(token).None?
  {
  }

  /** Whatever follows a second dash is ignored. */
  lemma ExtraPiecesIgnored(r: IdRange, rest: string)
    requires InUsizeRange(r)
    ensures ParseRange(ShowRange(r) + "-" + rest) == Some(r)
  {
    var a, b := Digits(r.start), Digits(r.end);
    DigitsAvoid(r.start);
    DigitsAvoid(r.end);
    assert [a, b][1..] == [b];
    assert Join([b], '-') == b;
    assert ShowRange(r) == a + ['-'] + Join([b], '-');
    assert ShowRange(r) + "-" + rest == a + ['-'] + (b + ['-'] + rest);
    SplitCons(a, '-', b + ['-'] + rest);
    SplitCons(b, '-', rest);
    ParseUsizeDigits(r.start);
    ParseUsizeDigits(r.end);
  }

  lemma DigitsAvoid(n: nat)
    ensures '-' !in Digits(n) && ',' !in Digits(n) && '\n' !in Digits(n)
  {
  }

  /** Round trip: writing ranges as `start-end` tokens joined by commas and
      parsing the line gives the same ranges back. */
  lemma ParseRangesRoundTrip(rs: seq<IdRange>)
    requires |rs| >= 1
    requires forall r :: r in rs ==> InUsizeRange(r)
    ensures ParseRanges(ShowRanges(rs)) == Some(rs)
  {
    var tokens := ShowEach(rs);
    forall i | 0 <= i < |rs|
      ensures ParseRange(tokens[i]) == Some(rs[i])
      ensures ',' !in tokens[i] && '\n' !in tokens[i]
    {
      assert rs[i] in rs;
      ParseShowRange(rs[i]);
    }
    var text := ShowRanges(rs);
    JoinAvoids(tokens, ',', '\n');
    assert text != [] by {
      JoinNonEmpty(tokens, ',');
    }
    SingleLine(text);
    SplitJoin(tokens, ',');
    AllValuesPresent(ParseTokens(tokens), rs);
  }

  // ---------------------------------------------------------------------
  // What makes an id invalid

  /** The chunk `c` written `k` times in a row. */
  function Repeat(c: string, k: nat): string {
    if k == 0 then [] else Repeat(c, k - 1) + c
  }

  /** `s` is its first `d` characters written over and over. */
  ghost predicate RepeatsPrefix(s: string, d: nat) {
    1 <= d <= |s| && s == Repeat(s[..d], |s| / d)
  }

  /** `s` is the chunk `c` written twice. */
  ghost predicate DoubleOf(s: string, c: string) {
    s == Repeat(c, 2)
  }

  /** `s` is the non-empty chunk `c` written `k >= 2` times. */
  ghost predicate CopiesOf(s: string, c: string, k: nat) {
    c != [] && k >= 2 && s == Repeat(c, k)
  }

  /** Part 1's rule: the digits are one sequence written exactly twice. */
  ghost predicate IsDoubled(s: string) {
    exists c :: DoubleOf(s, c)
  }

  /** Part 2's rule: the digits are a non-empty sequence written at least
      twice. */
  ghost predicate IsRepetition(s: string) {
    exists c, k :: CopiesOf(s, c, k)
  }

  /** The two rules the solvers apply. */
  datatype Rule = HalfSplit | AnyChunk

  ghost predicate Invalid(rule: Rule, id: nat) {
    match rule
    case HalfSplit => IsDoubled(Digits(id))
    case AnyChunk => IsRepetition(Digits(id))
  }

  /** The invalid ids among `lo..hi` (`hi` excluded), in ascending order. */
  ghost function InvalidIn(rule: Rule, lo: nat, hi: nat): seq<nat>
    decreases hi
  {
    if hi <= lo then [] else InvalidIn(rule, lo, hi - 1) + (if Invalid(rule, hi - 1) then [hi - 1] else [])
  }

  /** The invalid ids of every range in turn, in the order the solvers visit
      them. */
  ghost function InvalidIds(rule: Rule, input: seq<IdRange>): seq<nat> {
    if input == [] then []
    else
      var r := input[|input| - 1];
      InvalidIds(rule, input[..|input| - 1]) + InvalidIn(rule, r.start, r.end + 1)
  }

  /** `iter().sum()`. */
  function Sum(xs: seq<nat>): nat {
    if xs == [] then 0 else Sum(xs[..|xs| - 1]) + xs[|xs| - 1]
  }

  /** No term exceeds the sum, which is 0 exactly when every term is. */
  lemma {:induction false} SumBounds(xs: seq<nat>)
    ensures forall i :: 0 <= i < |xs| ==> xs[i] <= Sum(xs)
    ensures Sum(xs) == 0 <==> forall i :: 0 <= i < |xs| ==> xs[i] == 0
  {
    if xs != [] {
      var init := xs[..|xs| - 1];
      SumBounds(init);
      assert forall i :: 0 <= i < |init| ==> xs[i] == init[i];
    }
  }

  // ---------------------------------------------------------------------
  // Repeated chunks

  /** `k` copies of `c` are `k` times as long as `c`. */
  lemma {:induction false} RepeatLength(c: string, k: nat)
    ensures |Repeat(c, k)| == k * |c|
  {
    if k > 0 {
      RepeatLength(c, k - 1);
    }
  }

  lemma RepeatTwice(c: string)
    ensures Repeat(c, 2) == c + c
  {
    assert Repeat(c, 1) == [] + c;
  }

  /** The first `j` copies of `c` start `Repeat(c, k)`. */
  lemma {:induction false} RepeatPrefix(c: string, k: nat, j: nat)
    requires j <= k
    ensures |Repeat(c, j)| <= |Repeat(c, k)|
    ensures Repeat(c, k)[..|Repeat(c, j)|] == Repeat(c, j)
  {
    if j < k {
      RepeatPrefix(c, k - 1, j);
      assert Repeat(c, k) == Repeat(c, k - 1) + c;
    }
  }

  /** The copy of `c` that follows the first `j` copies inside `Repeat(c, k)`
      is `c` itself. */
  lemma ChunkOfRepeat(c: string, k: nat, j: nat)
    requires j < k
    ensures |Repeat(c, j)| + |c| <= |Repeat(c, k)|
    ensures Repeat(c, k)[|Repeat(c, j)|..|Repeat(c, j)| + |c|] == c
  {
    RepeatPrefix(c, k, j + 1);
    assert Repeat(c, j + 1) == Repeat(c, j) + c;
  }

  /** Splitting in the middle is the same as part 1's rule. */
  lemma HalvesMatch(s: string)
    ensures (|s| % 2 == 0 && s[..|s| / 2] == s[|s| / 2..]) <==> IsDoubled(s)
  {
    if |s| % 2 == 0 && s[..|s| / 2] == s[|s| / 2..] {
      var c := s[..|s| / 2];
      RepeatTwice(c);
      assert s == c + c;
      assert DoubleOf(s, c);
    }
    if IsDoubled(s) {
      var c :| DoubleOf(s, c);
      RepeatTwice(c);
      assert s[..|s| / 2] == c && s[|s| / 2..] == c;
    }
  }

  /** A sequence written twice is also a sequence written at least twice. */
  lemma DoubledIsRepetition(s: string)
    requires s != [] && IsDoubled(s)
    ensures IsRepetition(s)
  {
    var c :| DoubleOf(s, c);
    RepeatTwice(c);
    assert CopiesOf(s, c, 2);
  }

  /** An id with an odd number of digits is never invalid in part 1. */
  lemma OddLengthNeverDoubled(id: nat)
    requires |Digits(id)| % 2 == 1
    ensures !Invalid(HalfSplit, id)
  {
    if IsDoubled(Digits(id)) {
      var c :| DoubleOf(Digits(id), c);
      RepeatTwice(c);
    }
  }

  /** A one-digit id is never invalid in part 2. */
  lemma SingleDigitNeverRepetition(id: nat)
    requires id < 10
    ensures !Invalid(AnyChunk, id)
  {
    if IsRepetition(Digits(id)) {
      var c, k :| CopiesOf(Digits(id), c, k);
      RepeatLength(c, k);
      MulMono(2, k, |c|);
    }
  }

  /** Every id invalid in part 1 is invalid in part 2. */
  lemma HalfSplitImpliesAnyChunk(id: nat)
    requires Invalid(HalfSplit, id)
    ensures Invalid(AnyChunk, id)
  {
    DoubledIsRepetition(Digits(id));
  }

  // ---------------------------------------------------------------------
  // Sums over ranges

  lemma {:induction false} SumAppend(xs: seq<nat>, ys: seq<nat>)
    ensures Sum(xs + ys) == Sum(xs) + Sum(ys)
    decreases |ys|
  {
    if ys != [] {
      var last := ys[|ys| - 1];
      var init := ys[..|ys| - 1];
      assert xs + ys == (xs + init) + [last];
      assert ys == init + [last];
      SumAppend(xs, init);
    } else {
      assert xs + ys == xs;
    }
  }

  /** The solvers add up range after range: the invalid ids of two lists of
      ranges placed one after the other are those of each in turn. */
  lemma {:induction false} InvalidIdsAppend(rule: Rule, a: seq<IdRange>, b: seq<IdRange>)
    ensures InvalidIds(rule, a + b) == InvalidIds(rule, a) + InvalidIds(rule, b)
    decreases |b|
  {
    if b != [] {
      var last := b[|b| - 1];
      var init := b[..|b| - 1];
      assert (a + b)[..|a + b| - 1] == a + init;
      assert (a + b)[|a + b| - 1] == last;
      InvalidIdsAppend(rule, a, init);
    } else {
      assert a + b == a;
    }
  }

  /** Both answers are additive over the list of ranges. */
  lemma TotalAppend(rule: Rule, a: seq<IdRange>, b: seq<IdRange>)
    ensures Sum(InvalidIds(rule, a + b)) == Sum(InvalidIds(rule, a)) + Sum(InvalidIds(rule, b))
  {
    InvalidIdsAppend(rule, a, b);
    SumAppend(InvalidIds(rule, a), InvalidIds(rule, b));
  }

  /** A range whose start is past its end contributes nothing. */
  lemma EmptyRange(rule: Rule, r: IdRange)
    requires r.start > r.end
    ensures InvalidIds(rule, [r]) == []
  {
    assert [r][..0] == [];
  }

  /** How many of the ranges contain `id`. */
  function Covering(input: seq<IdRange>, id: nat): (n: nat)
    ensures n <= |input|
  {
    if input == [] then 0
    else
      var r := input[|input| - 1];
      Covering(input[..|input| - 1], id) + if r.start <= id <= r.end then 1 else 0
  }

  /** Within one range an invalid id is listed exactly once. */
  lemma {:induction false} InvalidInCount(rule: Rule, lo: nat, hi: nat, id: nat)
    ensures multiset(InvalidIn(rule, lo, hi))[id]
         == if lo <= id < hi && Invalid(rule, id) then 1 else 0
    decreases hi
  {
    if hi > lo {
      var prev := InvalidIn(rule, lo, hi - 1);
      var last := if Invalid(rule, hi - 1) then [hi - 1] else [];
      assert InvalidIn(rule, lo, hi) == prev + last;
      assert multiset(prev + last) == multiset(prev) + multiset(last);
      assert multiset(last)[id] == if Invalid(rule, hi - 1) && id == hi - 1 then 1 else 0;
      InvalidInCount(rule, lo, hi - 1, id);
    }
  }

  /** An invalid id is listed once for every range that contains it, however
      the ranges overlap; a valid id is never listed. */
  lemma {:induction false} InvalidIdsCount(rule: Rule, input: seq<IdRange>, id: nat)
    ensures multiset(InvalidIds(rule, input))[id]
         == if Invalid(rule, id) then Covering(input, id) else 0
  {
    if input != [] {
      var r := input[|input| - 1];
      InvalidIdsCount(rule, input[..|input| - 1], id);
      InvalidInCount(rule, r.start, r.end + 1, id);
    }
  }

  /** The sum of a range's invalid ids, one id further. */
  lemma SumInvalidInStep(rule: Rule, lo: nat, id: nat)
    requires lo <= id
    ensures Sum(InvalidIn(rule, lo, id + 1)) == Sum(InvalidIn(rule, lo, id)) + if Invalid(rule, id) then id else 0
  {
    InvalidInStep(rule, lo, id);
    SumAppend(InvalidIn(rule, lo, id), if Invalid(rule, id) then [id] else []);
    assert [id][..0] == [];
  }

  /** Part 1's invalid ids in a range never add up to more than part 2's. */
  lemma {:induction false} InvalidInMonotone(lo: nat, hi: nat)
    ensures Sum(InvalidIn(HalfSplit, lo, hi)) <= Sum(InvalidIn(AnyChunk, lo, hi))
    decreases hi
  {
    if hi > lo {
      var id := hi - 1;
      SumInvalidInStep(HalfSplit, lo, id);
      SumInvalidInStep(AnyChunk, lo, id);
      InvalidInMonotone(lo, id);
      if Invalid(HalfSplit, id) {
        HalfSplitImpliesAnyChunk(id);
      }
    }
  }

  /** Part 1's answer never exceeds part 2's on the same input. */
  lemma {:induction false} Part1AtMostPart2(input: seq<IdRange>)
    ensures Sum(InvalidIds(HalfSplit, input)) <= Sum(InvalidIds(AnyChunk, input))
  {
    if input != [] {
      var r := input[|input| - 1];
      var init := input[..|input| - 1];
      Part1AtMostPart2(init);
      InvalidInMonotone(r.start, r.end + 1);
      SumAppend(InvalidIds(HalfSplit, init), InvalidIn(HalfSplit, r.start, r.end + 1));
      SumAppend(InvalidIds(AnyChunk, init), InvalidIn(AnyChunk, r.start, r.end + 1));
    }
  }

  // ---------------------------------------------------------------------
  // The two solvers

  /** One more id of a range. */
  lemma InvalidInStep(rule: Rule, lo: nat, id: nat)
    requires lo <= id
    ensures InvalidIn(rule, lo, id + 1) == InvalidIn(rule, lo, id) + if Invalid(rule, id) then [id] else []
  {
  }

  /** The solvers' inner loop keeps the invalid ids of the range scanned
      so far: the id just tested is appended exactly when it is invalid. */
  lemma ScanStep(rule: Rule, earlier: seq<nat>, start: nat, id: nat, listed: seq<nat>, found: bool, after: seq<nat>)
    requires start <= id && listed == earlier + InvalidIn(rule, start, id)
    requires found <==> Invalid(rule, id)
    requires after == if found then listed + [id] else listed
    ensures after == earlier + InvalidIn(rule, start, id + 1)
  {
    InvalidInStep(rule, start, id);
  }

  /** One more range: its ids follow those of the earlier ranges, and an
      empty range adds none. */
  lemma InvalidIdsStep(rule: Rule, input: seq<IdRange>, i: nat)
    requires i < |input|
    ensures InvalidIds(rule, input[..i + 1])
         == InvalidIds(rule, input[..i]) + InvalidIn(rule, input[i].start, input[i].end + 1)
    ensures input[i].start > input[i].end ==> InvalidIn(rule, input[i].start, input[i].end + 1) == []
  {
    assert input[..i + 1][..i] == input[..i];
  }

  /** `part1`: the sum of every id, range by range, whose digits split into
      two equal halves. */
  method Part1(input: seq<IdRange>) returns (total: nat)
    ensures total == Sum(InvalidIds(HalfSplit, input))
  {
    var invalidIds: seq<nat> := [];
    for i := 0 to |input|
      invariant invalidIds == InvalidIds(HalfSplit, input[..i])
    {
      var start, end := input[i].start, input[i].end;
      ghost var earlier := invalidIds;
      var id := start;
      while id <= end
        invariant id == start || start < id <= end + 1
        invariant invalidIds == earlier + InvalidIn(HalfSplit, start, id)
      {
        ghost var listed := invalidIds;
        var isInvalid := HalvesEqual(id);
        if isInvalid {
          invalidIds := invalidIds + [id];
        }
        ScanStep(HalfSplit, earlier, start, id, listed, isInvalid, invalidIds);
        id := id + 1;
      }
      assert invalidIds == InvalidIds(HalfSplit, input[..i + 1]) by {
        InvalidIdsStep(HalfSplit, input, i);
        assert InvalidIn(HalfSplit, start, id) == InvalidIn(HalfSplit, start, end + 1);
      }
    }
    assert input[..|input|] == input;
    total := Sum(invalidIds);
  }

  /** The test `part1` applies to one id: an even number of digits, and the
      first half equal to the second. */
  method HalvesEqual(id: nat) returns (isInvalid: bool)
    ensures isInvalid <==> Invalid(HalfSplit, id)
  {
    var idStr := Digits(id);
    isInvalid := false;
    if |idStr| % 2 == 0 {
      var mid := |idStr| / 2;
      isInvalid := idStr[..mid] == idStr[mid..];
    }
    HalvesMatch(idStr);
  }

  /** `part2`: the sum of every id, range by range, whose digits are a
      shorter chunk repeated. */
  method Part2(input: seq<IdRange>) returns (total: nat)
    ensures total == Sum(InvalidIds(AnyChunk, input))
  {
    var invalidIds: seq<nat> := [];
    for i := 0 to |input|
      invariant invalidIds == InvalidIds(AnyChunk, input[..i])
    {
      var start, end := input[i].start, input[i].end;
      ghost var earlier := invalidIds;
      var id := start;
      while id <= end
        invariant id == start || start < id <= end + 1
        invariant invalidIds == earlier + InvalidIn(AnyChunk, start, id)
      {
        ghost var listed := invalidIds;
        var isInvalid := HasRepeatedChunk(id);
        if isInvalid {
          invalidIds := invalidIds + [id];
        }
        ScanStep(AnyChunk, earlier, start, id, listed, isInvalid, invalidIds);
        id := id + 1;
      }
      assert invalidIds == InvalidIds(AnyChunk, input[..i + 1]) by {
        InvalidIdsStep(AnyChunk, input, i);
        assert InvalidIn(AnyChunk, start, id) == InvalidIn(AnyChunk, start, end + 1);
      }
    }
    assert input[..|input|] == input;
    total := Sum(invalidIds);
  }

  /** The test `part2` applies to one id: a one-digit id is skipped;
      otherwise every chunk size from 1 to half the length that divides the
      length is tried, stopping at the first whose copies make up the whole
      id. */
  method HasRepeatedChunk(id: nat) returns (isInvalid: bool)
    ensures isInvalid <==> Invalid(AnyChunk, id)
  {
    var idStr := Digits(id);
    var len := |idStr|;
    isInvalid := false;
    if len == 1 {
      NoChunkNoRepetition(idStr);
      return;
    }
    for chunkSize := 1 to len / 2 + 1
      invariant !isInvalid
      invariant forall d :: 1 <= d < chunkSize && len % d == 0 ==> !RepeatsPrefix(idStr, d)
    {
      if len % chunkSize != 0 {
        continue;
      }
      var repeats := ChunksMatch(idStr, chunkSize);
      if repeats {
        assert IsRepetition(idStr) by {
          AtLeastTwoCopies(len, chunkSize);
          assert CopiesOf(idStr, idStr[..chunkSize], len / chunkSize);
        }
        isInvalid := true;
        break;
      }
    }
    if !isInvalid {
      NoChunkNoRepetition(idStr);
    }
  }

  /** A repetition is found by trying chunk sizes up to half the length. */
  lemma SmallChunk(s: string, c: string, k: nat)
    requires c != [] && k >= 2 && s == Repeat(c, k)
    ensures 1 <= |c| <= |s| / 2 && |s| % |c| == 0
    ensures RepeatsPrefix(s, |c|)
  {
    var d := |c|;
    assert |s| / d == k && |s| % d == 0 && d <= |s| / 2 by {
      RepeatLength(c, k);
      CopiesOfChunk(k, d);
    }
    assert s[..d] == c by {
      RepeatPrefix(c, k, 1);
      assert Repeat(c, 1) == [] + c;
    }
  }

  /** When no chunk size up to half the length works, the id is no
      repetition. */
  lemma NoChunkNoRepetition(s: string)
    requires forall d :: 1 <= d < |s| / 2 + 1 && |s| % d == 0 ==> !RepeatsPrefix(s, d)
    ensures !IsRepetition(s)
  {
    if IsRepetition(s) {
      var c, k :| CopiesOf(s, c, k);
      SmallChunk(s, c, k);
    }
  }

  /** A chunk of at most half the length that divides it is copied at least
      twice. */
  lemma AtLeastTwoCopies(len: nat, d: nat)
    requires 1 <= d <= len / 2 && len % d == 0
    ensures len / d >= 2
  {
    var k := len / d;
    assert len == k * d;
    if k <= 1 {
      MulMono(k, 1, d);
    }
  }

  /** `k` copies of a chunk of `d` characters: the chunk divides the length
      `k` times and is at most half of it. */
  lemma CopiesOfChunk(k: nat, d: nat)
    requires d >= 1 && k >= 2
    ensures (k * d) % d == 0 && (k * d) / d == k && d <= (k * d) / 2
  {
    DivUnique(k * d, d, k);
    MulMono(2, k, d);
  }

  lemma MulMono(a: nat, b: nat, d: nat)
    requires a <= b
    ensures a * d <= b * d
  {
    assert b * d == a * d + (b - a) * d;
  }

  /** Division by `d` undoes multiplication by `d`. */
  lemma DivUnique(x: nat, d: nat, q: nat)
    requires d >= 1 && x == q * d
    ensures x / d == q && x % d == 0
  {
    var q', r := x / d, x % d;
    assert x == q' * d + r;
    if q' < q {
      MulMono(q' + 1, q, d);
    } else if q' > q {
      MulMono(q + 1, q', d);
    }
  }

  /** The chunk after the first `j` of `d` characters each still fits. */
  lemma NextChunk(j: nat, count: nat, d: nat)
    requires j < count
    ensures (j + 1) * d == j * d + d <= count * d
  {
    MulMono(j + 1, count, d);
  }

  /** A chunk that differs from `c` rules out `k` copies of `c`. */
  lemma ChunkMismatch(s: string, c: string, k: nat, j: nat)
    requires j < k && j * |c| + |c| <= |s|
    requires s[j * |c|..j * |c| + |c|] != c
    ensures s != Repeat(c, k)
  {
    ChunkOfRepeat(c, k, j);
    RepeatLength(c, j);
  }

  /** A chunk equal to `c` extends `j` copies of `c` to `j + 1`. */
  lemma ChunkMatches(s: string, c: string, j: nat)
    requires j * |c| + |c| <= |s|
    requires s[..j * |c|] == Repeat(c, j) && s[j * |c|..j * |c| + |c|] == c
    ensures s[..j * |c| + |c|] == Repeat(c, j + 1)
  {
    assert s[..j * |c| + |c|] == s[..j * |c|] + s[j * |c|..j * |c| + |c|];
  }

  /** The inner loop of `part2`: compares every chunk of `chunkSize`
      characters after the first with the first one, stopping at the first
      mismatch. */
  method ChunksMatch(idStr: string, chunkSize: nat) returns (isInvalid: bool)
    requires 1 <= chunkSize <= |idStr| && |idStr| % chunkSize == 0
    ensures isInvalid <==> RepeatsPrefix(idStr, chunkSize)
  {
    var count := |idStr| / chunkSize;
    var firstChunk := idStr[..chunkSize];
    assert |idStr| == count * chunkSize;
    assert Repeat(firstChunk, 1) == [] + firstChunk;
    isInvalid := true;
    for j := 1 to count
      invariant isInvalid
      invariant j * chunkSize <= |idStr|
      invariant idStr[..j * chunkSize] == Repeat(firstChunk, j)
    {
      var startIdx := j * chunkSize;
      var endIdx := startIdx + chunkSize;
      NextChunk(j, count, chunkSize);
      if idStr[startIdx..endIdx] != firstChunk {
        ChunkMismatch(idStr, firstChunk, count, j);
        isInvalid := false;
        break;
      }
      ChunkMatches(idStr, firstChunk, j);
    }
    if isInvalid {
      assert idStr[..count * chunkSize] == idStr;
    }
  }

  // ---------------------------------------------------------------------
  // Worked example

  /** A range is written as its start, a dash, and its end. */
  lemma ShowRangeParts(r: IdRange)
    ensures ShowRange(r) == Digits(r.start) + ['-'] + Digits(r.end)
  {
    assert [Digits(r.start), Digits(r.end)] == [Digits(r.start)] + [Digits(r.end)];
    JoinCons(Digits(r.start), [Digits(r.end)], '-');
  }

  /** A range of the worked example, written as the input writes it. */
  lemma ExampleRangeShown(r: IdRange, token: string)
    requires (r == IdRange(11, 22) && token == "11-22") || (r == IdRange(95, 115) && token == "95-115")
    ensures ShowRange(r) == token
  {
    ShowRangeParts(r);
    if r.start == 11 {
      assert Digits(11) == "11" by {
        DigitsTwo(11);
        assert DigitChar(1) == '1';
      }
      assert Digits(22) == "22" by {
        DigitsTwo(22);
        assert DigitChar(2) == '2';
      }
    } else {
      assert Digits(95) == "95" by {
        DigitsTwo(95);
        assert DigitChar(9) == '9' && DigitChar(5) == '5';
      }
      assert Digits(115) == "115" by {
        DigitsThree(115);
        assert DigitChar(1) == '1' && DigitChar(5) == '5';
      }
    }
  }

  lemma DigitsTwo(n: nat)
    requires 10 <= n < 100
    ensures Digits(n) == [DigitChar(n / 10), DigitChar(n % 10)]
  {
  }

  lemma DigitsThree(n: nat)
    requires 100 <= n < 1000
    ensures Digits(n) == [DigitChar(n / 100), DigitChar(n / 10 % 10), DigitChar(n % 10)]
  {
    DigitsTwo(n / 10);
  }

  lemma ExampleLinePlain(line: string)
    requires line == "11-22,95-115"
    ensures PlainLine(line)
  {
    assert forall i :: 0 <= i < |line| ==> line[i] != '\n' && line[i] != '\r';
  }

  /** The first two ranges of the worked example, read from one line. */
  lemma ExampleLineParses(rs: seq<IdRange>, text: string)
    requires rs == [IdRange(11, 22), IdRange(95, 115)]
    requires text == "11-22,95-115\n"
    ensures ParseRanges(text) == Some(rs)
  {
    var line := ShowRanges(rs);
    ExampleLineShown(rs);
    ExampleTextEnds(text, line);
    ExampleRangesFit(rs);
    ParseRangesRoundTrip(rs);
  }

  lemma ExampleLineShown(rs: seq<IdRange>)
    requires rs == [IdRange(11, 22), IdRange(95, 115)]
    ensures ShowRanges(rs) == "11-22,95-115"
  {
    ExampleRangeShown(rs[0], "11-22");
    ExampleRangeShown(rs[1], "95-115");
    ShowTwoRanges(rs);
  }

  lemma ExampleTextEnds(text: string, line: string)
    requires text == "11-22,95-115\n" && line == "11-22,95-115"
    ensures ParseRanges(text) == ParseRanges(line)
  {
    ExampleLinePlain(line);
    NewlineEnded(line);
    assert text == line + "\n";
  }

  lemma ExampleRangesFit(rs: seq<IdRange>)
    requires rs == [IdRange(11, 22), IdRange(95, 115)]
    ensures forall r :: r in rs ==> InUsizeRange(r)
  {
  }

  /** Two ranges are written with one comma between them. */
  lemma ShowTwoRanges(rs: seq<IdRange>)
    requires |rs| == 2
    ensures ShowRanges(rs) == ShowRange(rs[0]) + [','] + ShowRange(rs[1])
  {
    var tokens := ShowEach(rs);
    assert tokens[1..] == [tokens[1]];
    assert Join(tokens, ',') == tokens[0] + [','] + Join(tokens[1..], ',');
  }

  /** A final '\n' after the line changes nothing. */
  lemma NewlineEnded(line: string)
    requires line != [] && PlainLine(line)
    ensures ParseRanges(line + "\n") == ParseRanges(line)
  {
    LinesUnlines([line]);
    SingleLine(line);
    assert Unlines([line]) == line + "\n";
  }

  /** A two-character string is a repetition, under either rule, exactly
      when its two characters are equal. */
  lemma TwoCharRules(s: string)
    requires |s| == 2
    ensures IsDoubled(s) <==> s[0] == s[1]
    ensures IsRepetition(s) <==> s[0] == s[1]
  {
    HalvesMatch(s);
    assert s[..1] == [s[0]] && s[1..] == [s[1]];
    if IsRepetition(s) {
      var c, k :| CopiesOf(s, c, k);
      SmallChunk(s, c, k);
    }
    if IsDoubled(s) {
      DoubledIsRepetition(s);
    }
  }

  /** A two-digit id has equal digits exactly when it is a multiple of 11. */
  lemma TwoDigitString(id: nat)
    requires 10 <= id < 100
    ensures |Digits(id)| == 2 && (Digits(id)[0] == Digits(id)[1] <==> id % 11 == 0)
  {
    var s := Digits(id);
    var tens, ones := id / 10, id % 10;
    assert s == [DigitChar(tens), DigitChar(ones)];
    assert DigitValue(s[0]) == tens && DigitValue(s[1]) == ones;
    assert id == 11 * tens + (ones - tens);
    if tens == ones {
      DivUnique(id, 11, tens);
    }
    if id % 11 == 0 {
      assert id == 11 * (id / 11);
      assert ones - tens == 11 * (id / 11 - tens);
    }
  }

  /** A two-digit id is invalid, under either rule, exactly when its two
      digits are equal. */
  lemma TwoDigitRule(rule: Rule, id: nat)
    requires 10 <= id < 100
    ensures Invalid(rule, id) <==> id % 11 == 0
  {
    TwoDigitString(id);
    TwoCharRules(Digits(id));
  }

  /** The two-digit ids of `lo..hi` with equal digits, ascending. */
  function EqualDigitIds(lo: nat, hi: nat): (ids: seq<nat>)
    decreases hi
  {
    if hi <= lo then [] else EqualDigitIds(lo, hi - 1) + (if (hi - 1) % 11 == 0 then [hi - 1] else [])
  }

  /** Among two-digit ids both rules pick exactly the multiples of 11. */
  lemma {:induction false} TwoDigitRange(rule: Rule, lo: nat, hi: nat)
    requires 10 <= lo && hi <= 100
    ensures InvalidIn(rule, lo, hi) == EqualDigitIds(lo, hi)
    decreases hi
  {
    if hi > lo {
      TwoDigitRange(rule, lo, hi - 1);
      TwoDigitRule(rule, hi - 1);
    }
  }

  /** The first range of the worked example, `11-22`, holds the invalid ids
      11 and 22 under both rules. */
  lemma EqualDigitExample()
    ensures EqualDigitIds(11, 23) == [11, 22]
  {
    assert EqualDigitIds(11, 12) == [11];
    assert EqualDigitIds(11, 13) == [11];
    assert EqualDigitIds(11, 14) == [11];
    assert EqualDigitIds(11, 15) == [11];
    assert EqualDigitIds(11, 16) == [11];
    assert EqualDigitIds(11, 17) == [11];
    assert EqualDigitIds(11, 18) == [11];
    assert EqualDigitIds(11, 19) == [11];
    assert EqualDigitIds(11, 20) == [11];
    assert EqualDigitIds(11, 21) == [11];
    assert EqualDigitIds(11, 22) == [11];
    assert EqualDigitIds(11, 23) == [11] + [22];
  }

  lemma ExampleSum(ids: seq<nat>)
    requires ids == [11, 22]
    ensures Sum(ids) == 33
  {
    assert ids[..1] == [11] && ids[..1][..0] == [];
    assert Sum(ids[..1][..0]) == 0;
    assert Sum(ids[..1]) == 11;
  }

  /** The invalid ids of a single range. */
  lemma OneRange(rule: Rule, r: IdRange)
    ensures InvalidIds(rule, [r]) == InvalidIn(rule, r.start, r.end + 1)
  {
    assert [r][..0] == [];
  }

  /** The first range of the worked example, `11-22`, holds the invalid ids
      11 and 22 under both rules. */
  lemma FirstExampleRange(rule: Rule, r: IdRange)
    requires r == IdRange(11, 22)
    ensures InvalidIds(rule, [r]) == [11, 22]
    ensures Sum(InvalidIds(rule, [r])) == 33
  {
    OneRange(rule, r);
    TwoDigitRange(rule, r.start, r.end + 1);
    EqualDigitExample();
    ExampleSum(InvalidIds(rule, [r]));
  }
}
