/** A circular dial with positions 0..99, starting at 50, turned by a list of
    rotations such as `L68` or `R14`. Part 1 counts the rotations after which
    the dial rests on 0; part 2 counts every single click that leaves the dial
    on 0, whether the rotation stops there or only passes through. */
module RotationDial {
  import opened Text

  datatype Direction = Left | Right

  /** One parsed instruction. `value` is a 64-bit signed integer. */
  datatype Rotation = Rotation(direction: Direction, value: int)

  // ---------------------------------------------------------------------
  // Parsing

  /** `Direction::from_str`: exactly "L" and "R" are directions. */
  function ParseDirection(s: string): (r: Option<Direction>)
    ensures r == Some(Left) <==> s == "L"
    ensures r == Some(Right) <==> s == "R"
    ensures r == None <==> s != "L" && s != "R"
  {
    if s == "L" then Some(Left)
    else if s == "R" then Some(Right)
    else None
  }

  function ShowDirection(d: Direction): string {
    match d
    case Left => "L"
    case Right => "R"
  }

  /** `split_at(1)` cuts after the first byte: the line must be non-empty and
      its first character must be a one-byte (ASCII) character. */
  predicate SplitsAtOne(line: string) {
    |line| >= 1 && (line[0] as int) < 0x80
  }

  /** `Rotation::from_str`: the first character is the direction, the rest
      the value; either part failing to parse gives `None`. */
  function ParseRotation(line: string): (r: Option<Rotation>)
    requires SplitsAtOne(line)
    ensures r.Some? <==> ParseDirection(line[..1]).Some? && ParseIsize(line[1..]).Some?
    ensures r.Some? ==> r.value.direction == ParseDirection(line[..1]).value
    ensures r.Some? ==> r.value.value == ParseIsize(line[1..]).value
  {
    var direction := ParseDirection(line[..1]);
    var value := ParseIsize(line[1..]);
    if direction.Some? && value.Some? then Some(Rotation(direction.value, value.value)) else None
  }

  /** The line a rotation is written as: its direction letter, then its value. */
  function ShowRotation(r: Rotation): (line: string)
    ensures SplitsAtOne(line) && PlainLine(line)
  {
    ShowDirection(r.direction) + ShowIsize(r.value)
  }

  predicate InIsizeRange(r: Rotation) {
    -IsizeLimit <= r.value < IsizeLimit
  }

  /** Every rotation whose value is an `isize` is read back from its line. */
  lemma ParseShowRotation(r: Rotation)
    requires InIsizeRange(r)
    ensures ParseRotation(ShowRotation(r)) == Some(r)
  {
    var line := ShowRotation(r);
    assert line[..1] == ShowDirection(r.direction);
    assert line[1..] == ShowIsize(r.value);
    ParseIsizeShow(r.value);
  }

  /** The parser applied to each line, keeping one entry per line. */
  function ParseEach(lines: seq<string>): (rs: seq<Option<Rotation>>)
    requires forall l :: l in lines ==> SplitsAtOne(l)
    ensures |rs| == |lines|
    ensures forall i :: 0 <= i < |lines| ==> rs[i] == ParseRotation(lines[i])
  {
    if lines == [] then [] else [ParseRotation(lines[0])] + ParseEach(lines[1..])
  }

  /** `parse_input_part1` (and `parse_input_part2`, which calls it): one
      optional rotation per line of the input, in order. */
  function ParseRotations(text: string): (rs: seq<Option<Rotation>>)
    requires forall l :: l in Lines(text) ==> SplitsAtOne(l)
    ensures |rs| == |Lines(text)|
    ensures forall i :: 0 <= i < |rs| ==> rs[i] == ParseRotation(Lines(text)[i])
  {
    ParseEach(Lines(text))
  }

  /** The rotations written one per line. */
  function ShowRotations(rs: seq<Rotation>): (lines: seq<string>)
    ensures |lines| == |rs|
    ensures forall i :: 0 <= i < |rs| ==> lines[i] == ShowRotation(rs[i])
  {
    if rs == [] then [] else [ShowRotation(rs[0])] + ShowRotations(rs[1..])
  }

  /** Each rotation wrapped as a successful parse. */
  function Somes(rs: seq<Rotation>): (input: seq<Option<Rotation>>)
    ensures |input| == |rs|
    ensures forall i :: 0 <= i < |rs| ==> input[i] == Some(rs[i])
  {
    if rs == [] then [] else [Some(rs[0])] + Somes(rs[1..])
  }

  /** Writing rotations one per line and parsing the text gives them back. */
  lemma ParseRotationsRoundTrip(rs: seq<Rotation>)
    requires forall r :: r in rs ==> InIsizeRange(r)
    ensures forall l :: l in Lines(Unlines(ShowRotations(rs))) ==> SplitsAtOne(l)
    ensures ParseRotations(Unlines(ShowRotations(rs))) == Somes(rs)
  {
    var lines := ShowRotations(rs);
    LinesUnlines(lines);
    forall i | 0 <= i < |rs|
      ensures ParseRotation(lines[i]) == Some(rs[i])
    {
      assert rs[i] in rs;
      ParseShowRotation(rs[i]);
    }
  }

  // ---------------------------------------------------------------------
  // Skipping the lines that did not parse

  /** `input.iter().flatten()`: the rotations that parsed, in order. */
  function Present(input: seq<Option<Rotation>>): (rs: seq<Rotation>)
    ensures |rs| <= |input|
  {
    if input == [] then []
    else
      var prefix := input[..|input| - 1];
      assert input == prefix + [input[|input| - 1]];
      Present(prefix) + (match input[|input| - 1] case Some(r) => [r] case None => [])
  }

  /** A rotation is present exactly when the input holds it as a `Some`. */
  lemma {:induction false} PresentMembers(input: seq<Option<Rotation>>, r: Rotation)
    ensures r in Present(input) <==> Some(r) in input
  {
    if input != [] {
      var prefix := input[..|input| - 1];
      PresentMembers(prefix, r);
      assert input == prefix + [input[|input| - 1]];
    }
  }

  lemma {:induction false} PresentAppend(input: seq<Option<Rotation>>, x: Option<Rotation>)
    ensures Present(input + [x]) == Present(input) + (match x case Some(r) => [r] case None => [])
  {
    assert (input + [x])[..|input|] == input;
  }

  /** The rotations present in one more entry of the input. */
  lemma PresentNext(input: seq<Option<Rotation>>, i: nat)
    requires i < |input|
    ensures input[i].Some? ==> Present(input[..i + 1]) == Present(input[..i]) + [input[i].value]
    ensures input[i].None? ==> Present(input[..i + 1]) == Present(input[..i])
  {
    assert input[..i + 1] == input[..i] + [input[i]];
    PresentAppend(input[..i], input[i]);
  }

  /** Dropping the `None` entries first changes nothing: parsing the
      rotations that remain back as `Some`s gives the same rotations. */
  lemma {:induction false} PresentSomes(rs: seq<Rotation>)
    ensures Present(Somes(rs)) == rs
  {
    if rs != [] {
      var last := rs[|rs| - 1];
      var prefix := rs[..|rs| - 1];
      assert Somes(rs) == Somes(prefix) + [Some(last)];
      PresentAppend(Somes(prefix), Some(last));
      PresentSomes(prefix);
      assert rs == prefix + [last];
    }
  }

  // ---------------------------------------------------------------------
  // The dial

  /** `value as usize`: a negative `isize` reinterpreted as its two's
      complement, i.e. the value modulo 2^64. */
  function Magnitude(r: Rotation): (m: nat)
    ensures m < UsizeLimit
    ensures 0 <= r.value < UsizeLimit ==> m == r.value
  {
    r.value % UsizeLimit
  }

  /** Where the dial is, and how many zeroes have been counted so far. */
  datatype DialState = DialState(dial: nat, zeroes: nat)

  const Start := DialState(50, 0)

  /** Position after turning `n` steps from `dial`, on a dial of 100. */
  function Turn(dial: nat, direction: Direction, n: nat): (d: nat)
    ensures d < 100
  {
    match direction
    case Left => (dial - n) % 100
    case Right => (dial + n) % 100
  }

  /** One click of the dial, counted when it stops on 0. */
  function Click(st: DialState, direction: Direction): (next: DialState)
    requires st.dial < 100
    ensures next.dial < 100
    ensures next.zeroes == st.zeroes + (if next.dial == 0 then 1 else 0)
  {
    var d := match direction
      case Left => if st.dial == 0 then 99 else st.dial - 1
      case Right => if st.dial == 99 then 0 else st.dial + 1;
    DialState(d, st.zeroes + if d == 0 then 1 else 0)
  }

  /** Reference behaviour for part 2: `n` single clicks in one direction. */
  function Spin(st: DialState, direction: Direction, n: nat): (next: DialState)
    requires st.dial < 100
    ensures next.dial < 100
    ensures next.zeroes >= st.zeroes
  {
    if n == 0 then st else Click(Spin(st, direction, n - 1), direction)
  }

  /** How many of `n` clicks from `dial` stop on 0: turning right, one per
      multiple of 100 reached; turning left, the first hit comes after
      `dial` clicks (after 100 when starting on 0) and then every 100. */
  function ZeroHits(dial: nat, direction: Direction, n: nat): nat
    requires dial < 100
  {
    match direction
    case Right => (dial + n) / 100
    case Left => (n + (100 - dial) % 100) / 100
  }

  // Arithmetic on a dial of 100 positions.

  /** Division and remainder by 100 are determined by any decomposition. */
  lemma DivModOf(x: int, q: int, r: int)
    requires x == 100 * q + r && 0 <= r < 100
    ensures x / 100 == q && x % 100 == r
  {
  }

  /** One step up: the position advances by one, wrapping 99 to 0, and the
      quotient grows exactly when the new position is 0. */
  lemma StepUp(x: int)
    ensures (x + 1) % 100 == if x % 100 == 99 then 0 else x % 100 + 1
    ensures (x + 1) / 100 == x / 100 + if (x + 1) % 100 == 0 then 1 else 0
  {
    if x % 100 == 99 {
      DivModOf(x + 1, x / 100 + 1, 0);
    } else {
      DivModOf(x + 1, x / 100, x % 100 + 1);
    }
  }

  /** One step down: the position goes back by one, wrapping 0 to 99. */
  lemma StepDown(x: int)
    ensures (x - 1) % 100 == if x % 100 == 0 then 99 else x % 100 - 1
  {
    if x % 100 == 0 {
      DivModOf(x - 1, x / 100 - 1, 99);
    } else {
      DivModOf(x - 1, x / 100, x % 100 - 1);
    }
  }

  /** When two numbers add up to a multiple of 100, either both are
      multiples of 100 or neither is. */
  lemma OppositeResidues(a: int, b: int)
    requires (a + b) % 100 == 0
    ensures a % 100 == 0 <==> b % 100 == 0
  {
    var ra, rb := a % 100, b % 100;
    if ra + rb < 100 {
      DivModOf(a + b, a / 100 + b / 100, ra + rb);
    } else {
      DivModOf(a + b, a / 100 + b / 100 + 1, ra + rb - 100);
    }
  }

  /** One more click to the right moves the closed form on by one. */
  lemma ClickRight(d: nat, z: nat, n: nat)
    requires d < 100 && n > 0
    ensures Click(DialState(Turn(d, Right, n - 1), z + ZeroHits(d, Right, n - 1)), Right)
         == DialState(Turn(d, Right, n), z + ZeroHits(d, Right, n))
  {
    StepUp(d + n - 1);
  }

  /** One more click to the left moves the closed form on by one. */
  lemma ClickLeft(d: nat, z: nat, n: nat)
    requires d < 100 && n > 0
    ensures Click(DialState(Turn(d, Left, n - 1), z + ZeroHits(d, Left, n - 1)), Left)
         == DialState(Turn(d, Left, n), z + ZeroHits(d, Left, n))
  {
    assert d - (n - 1) == d - n + 1;
    StepDown(d - n + 1);
    var c := (100 - d) % 100;
    StepUp(n - 1 + c);
    // (n + c) and (d - n) add up to c + d, which is 0 or 100.
    if d > 0 {
      DivModOf(100 - d, 0, 100 - d);
    }
    DivModOf(c + d, if d == 0 then 0 else 1, 0);
    OppositeResidues(n + c, d - n);
  }

  /** Clicking one at a time ends where `Turn` says and meets 0 `ZeroHits`
      times. */
  lemma {:induction false} SpinClosedForm(st: DialState, direction: Direction, n: nat)
    requires st.dial < 100
    ensures Spin(st, direction, n)
         == DialState(Turn(st.dial, direction, n), st.zeroes + ZeroHits(st.dial, direction, n))
  {
    var d, z := st.dial, st.zeroes;
    if n > 0 {
      assert Spin(st, direction, n) == Click(Spin(st, direction, n - 1), direction);
      SpinClosedForm(st, direction, n - 1);
      match direction
      case Right => ClickRight(d, z, n);
      case Left => ClickLeft(d, z, n);
    } else {
      NoTurn(d, direction);
    }
  }

  /** Turning by 0 steps leaves the dial where it is and meets no 0. */
  lemma NoTurn(d: nat, direction: Direction)
    requires d < 100
    ensures Turn(d, direction, 0) == d && ZeroHits(d, direction, 0) == 0
  {
    DivModOf(d, 0, d);
    if d > 0 {
      DivModOf(100 - d, 0, 100 - d);
    }
  }

  /** Turning left by the steps left over after whole turns, written as the
      solver does to stay non-negative, lands where `Turn` says; the solver's
      three counts (passing 0, stopping on 0, whole turns) add up to
      `ZeroHits`. */
  lemma LeftShortcut(d: nat, m: nat)
    requires d < 100
    ensures (d + 100 - m % 100) % 100 == Turn(d, Left, m)
    ensures (if d != 0 && m % 100 > d then 1 else 0)
          + (if (d + 100 - m % 100) % 100 == 0 && m % 100 != 0 then 1 else 0)
          + m / 100
         == ZeroHits(d, Left, m)
  {
    var q, r := m / 100, m % 100;
    var x := d + 100 - r;
    DivModOf(x, x / 100, x % 100);
    DivModOf(d - m, x / 100 - q - 1, x % 100);
    if d == 0 {
      if r != 0 { DivModOf(100 - r, 0, 100 - r); }
      DivModOf(m, q, r);
    } else {
      DivModOf(100 - d, 0, 100 - d);
      DivModOf(m + 100 - d, q + (if r >= d then 1 else 0), if r >= d then r - d else r + 100 - d);
      if r < d { DivModOf(x, 1, d - r); }
      else if r == d { DivModOf(x, 1, 0); }
      else { DivModOf(x, 0, x); }
    }
  }

  /** Turning right by the leftover steps lands where `Turn` says; the
      solver's counts add up to `ZeroHits`. */
  lemma RightShortcut(d: nat, m: nat)
    requires d < 100
    ensures (d + m % 100) % 100 == Turn(d, Right, m)
    ensures (if d + m % 100 > 100 then 1 else 0)
          + (if (d + m % 100) % 100 == 0 && m % 100 != 0 then 1 else 0)
          + m / 100
         == ZeroHits(d, Right, m)
  {
    var q, r := m / 100, m % 100;
    if d + r < 100 {
      DivModOf(d + m, q, d + r);
      DivModOf(d + r, 0, d + r);
    } else {
      DivModOf(d + m, q + 1, d + r - 100);
      DivModOf(d + r, 1, d + r - 100);
    }
  }

  /** Reference behaviour for part 1: the dial after each whole rotation,
      counting the rotations that leave it on 0. */
  function Landings(rs: seq<Rotation>): (st: DialState)
    ensures st.dial < 100
    ensures st.zeroes <= |rs|
  {
    if rs == [] then Start
    else
      var prev := Landings(rs[..|rs| - 1]);
      var r := rs[|rs| - 1];
      var d := Turn(prev.dial, r.direction, Magnitude(r));
      DialState(d, prev.zeroes + if d == 0 then 1 else 0)
  }

  /** Reference behaviour for part 2: every rotation as that many clicks. */
  function Passes(rs: seq<Rotation>): (st: DialState)
    ensures st.dial < 100
  {
    if rs == [] then Start
    else
      var r := rs[|rs| - 1];
      Spin(Passes(rs[..|rs| - 1]), r.direction, Magnitude(r))
  }

  /** Part 1's reference, one rotation further. */
  lemma LandingsStep(rs: seq<Rotation>, r: Rotation)
    ensures Landings(rs + [r]).dial == Turn(Landings(rs).dial, r.direction, Magnitude(r))
    ensures Landings(rs + [r]).zeroes
         == Landings(rs).zeroes + if Landings(rs + [r]).dial == 0 then 1 else 0
  {
    assert (rs + [r])[..|rs|] == rs;
  }

  /** Part 2's reference, one rotation further, in closed form. */
  lemma PassesStep(rs: seq<Rotation>, r: Rotation)
    ensures Passes(rs + [r]) == DialState(Turn(Passes(rs).dial, r.direction, Magnitude(r)),
                                          Passes(rs).zeroes + ZeroHits(Passes(rs).dial, r.direction, Magnitude(r)))
  {
    assert (rs + [r])[..|rs|] == rs;
    SpinClosedForm(Passes(rs), r.direction, Magnitude(r));
  }

  /** Both simulations move the dial to the same place. */
  lemma {:induction false} SameDial(rs: seq<Rotation>)
    ensures Landings(rs).dial == Passes(rs).dial
  {
    if rs != [] {
      var r := rs[|rs| - 1];
      SameDial(rs[..|rs| - 1]);
      SpinClosedForm(Passes(rs[..|rs| - 1]), r.direction, Magnitude(r));
    }
  }

  /** A rotation of value 0 leaves the part 2 count and the dial alone. */
  lemma ZeroRotationAddsNothing(rs: seq<Rotation>, direction: Direction)
    ensures Passes(rs + [Rotation(direction, 0)]) == Passes(rs)
  {
    assert (rs + [Rotation(direction, 0)])[..|rs|] == rs;
  }

  /** Every landing on 0 after a non-zero rotation is also a click onto 0, so
      part 1 never counts more than part 2 when no rotation has value 0. */
  lemma {:induction false} LandingsAtMostPasses(rs: seq<Rotation>)
    requires forall r :: r in rs ==> Magnitude(r) > 0
    ensures Landings(rs).zeroes <= Passes(rs).zeroes
  {
    if rs != [] {
      var prefix := rs[..|rs| - 1];
      var r := rs[|rs| - 1];
      assert r in rs;
      assert forall x :: x in prefix ==> x in rs;
      LandingsAtMostPasses(prefix);
      SameDial(prefix);
      SpinClosedForm(Passes(prefix), r.direction, Magnitude(r));
    }
  }

  /** Part 1 tests the dial after every rotation, so a rotation of value 0
      made while the dial rests on 0 is counted again by part 1, while part 2
      sees no click at all: after `R50` and `L0` part 1 has 2, part 2 has 1. */
  lemma StandingOnZeroCountedTwice()
    ensures Landings([Rotation(Right, 50), Rotation(Left, 0)]).zeroes == 2
    ensures Passes([Rotation(Right, 50), Rotation(Left, 0)]).zeroes == 1
  {
    var first := [Rotation(Right, 50)];
    assert [Rotation(Right, 50)] == [] + [Rotation(Right, 50)];
    LandingsStep([], Rotation(Right, 50));
    PassesStep([], Rotation(Right, 50));
    assert ZeroHits(50, Right, 50) == 1;
    LandingsStep(first, Rotation(Left, 0));
    PassesStep(first, Rotation(Left, 0));
    assert ZeroHits(0, Left, 0) == 0;
    assert first + [Rotation(Left, 0)] == [Rotation(Right, 50), Rotation(Left, 0)];
  }

  /** Rotation `r`, started with the dial at `dial`, clicks onto 0 once if
      it ends there and never otherwise. */
  predicate ZeroOnlyAtRest(dial: nat, r: Rotation) {
    dial < 100 && ZeroHits(dial, r.direction, Magnitude(r)) == if Turn(dial, r.direction, Magnitude(r)) == 0 then 1 else 0
  }

  /** The two parts agree when no rotation clicks onto 0 anywhere but at
      its end, and every one that ends on 0 reaches it by a click. */
  lemma {:induction false} LandingsEqualPasses(rs: seq<Rotation>)
    requires forall i :: 0 <= i < |rs| ==> ZeroOnlyAtRest(Landings(rs[..i]).dial, rs[i])
    ensures Landings(rs).zeroes == Passes(rs).zeroes
  {
    if rs != [] {
      var prefix := rs[..|rs| - 1];
      var r := rs[|rs| - 1];
      forall i | 0 <= i < |prefix|
        ensures ZeroOnlyAtRest(Landings(prefix[..i]).dial, prefix[i])
      {
        assert prefix[..i] == rs[..i];
        assert prefix[i] == rs[i];
      }
      LandingsEqualPasses(prefix);
      assert ZeroOnlyAtRest(Landings(prefix).dial, r);
      SameDial(prefix);
      assert rs == prefix + [r];
      LandingsStep(prefix, r);
      PassesStep(prefix, r);
    }
  }

  /** The converse of `LandingsEqualPasses` fails: after `R50`, `L0` and
      `R150` both parts count 2, although `L0`, made on 0, ends on 0 without
      a click. */
  lemma AgreementWithoutZeroOnlyAtRest()
    ensures !ZeroOnlyAtRest(0, Rotation(Left, 0))
    ensures Landings([Rotation(Right, 50), Rotation(Left, 0), Rotation(Right, 150)]).zeroes == 2
    ensures Passes([Rotation(Right, 50), Rotation(Left, 0), Rotation(Right, 150)]).zeroes == 2
  {
    var two := [Rotation(Right, 50), Rotation(Left, 0)];
    StandingOnZeroCountedTwice();
    assert Landings(two).dial == 0 by {
      assert [Rotation(Right, 50)] + [Rotation(Left, 0)] == two;
      LandingsStep([Rotation(Right, 50)], Rotation(Left, 0));
      assert [] + [Rotation(Right, 50)] == [Rotation(Right, 50)];
      LandingsStep([], Rotation(Right, 50));
    }
    SameDial(two);
    LandingsStep(two, Rotation(Right, 150));
    PassesStep(two, Rotation(Right, 150));
    assert ZeroHits(0, Right, 150) == 1;
    assert two + [Rotation(Right, 150)] == [Rotation(Right, 50), Rotation(Left, 0), Rotation(Right, 150)];
  }

  // ---------------------------------------------------------------------
  // The two solvers

  /** `part1`: the number of rotations that leave the dial on 0. */
  method Part1(input: seq<Option<Rotation>>) returns (zeroes: nat)
    ensures zeroes == Landings(Present(input)).zeroes
    ensures zeroes <= |Present(input)|
  {
    var dial: nat := 50;
    zeroes := 0;
    for i := 0 to |input|
      invariant DialState(dial, zeroes) == Landings(Present(input[..i]))
    {
      ghost var done := Present(input[..i]);
      PresentNext(input, i);
      if input[i].Some? {
        var rotation := input[i].value;
        var m := Magnitude(rotation);
        ghost var before := dial;
        match rotation.direction {
          case Left =>
            dial := (dial + 100 - m % 100) % 100;
          case Right =>
            dial := (dial + m % 100) % 100;
        }
        assert dial == Turn(before, rotation.direction, m) by {
          LeftShortcut(before, m);
          RightShortcut(before, m);
        }
        if dial == 0 {
          zeroes := zeroes + 1;
        }
        LandingsStep(done, rotation);
      }
    }
    assert input[..|input|] == input;
  }

  /** `part2`: the number of clicks that leave the dial on 0, computed per
      rotation from its full turns and its remaining steps. */
  method Part2(input: seq<Option<Rotation>>) returns (zeroes: nat)
    ensures zeroes == Passes(Present(input)).zeroes
  {
    var dial: nat := 50;
    zeroes := 0;
    for i := 0 to |input|
      invariant DialState(dial, zeroes) == Passes(Present(input[..i]))
    {
      ghost var done := Present(input[..i]);
      PresentNext(input, i);
      if input[i].Some? {
        var rotation := input[i].value;
        var m := Magnitude(rotation);
        ghost var before, counted := dial, zeroes;
        var fullRotations := m / 100;
        var remainingSteps := m % 100;
        match rotation.direction {
          case Left =>
            if dial != 0 && remainingSteps > dial {
              zeroes := zeroes + 1;
            }
            dial := (dial + 100 - remainingSteps) % 100;
            LeftShortcut(before, m);
          case Right =>
            if dial + remainingSteps > 100 {
              zeroes := zeroes + 1;
            }
            dial := (dial + remainingSteps) % 100;
            RightShortcut(before, m);
        }
        // The shortcut lemmas account for the whole rotation once the two
        // counts below are added.
        assert dial == Turn(before, rotation.direction, m);
        assert zeroes + (if dial == 0 && remainingSteps != 0 then 1 else 0) + fullRotations
            == counted + ZeroHits(before, rotation.direction, m);
        if dial == 0 && remainingSteps != 0 {
          zeroes := zeroes + 1;
        }
        zeroes := zeroes + fullRotations;
        PassesStep(done, rotation);
      }
    }
    assert input[..|input|] == input;
  }

  // ---------------------------------------------------------------------
  // The worked example

  const Example: seq<Rotation> := [
    Rotation(Left, 68), Rotation(Left, 30), Rotation(Right, 48), Rotation(Left, 5),
    Rotation(Right, 60), Rotation(Left, 55), Rotation(Left, 1), Rotation(Left, 99),
    Rotation(Right, 14), Rotation(Left, 82)
  ]

  /** One step of the worked example, with the new position and the
      number of clicks onto 0 worked out by hand. */
  lemma ExampleStep(done: seq<Rotation>, r: Rotation, d: nat, l: nat, p: nat, d': nat, hits: nat)
    requires d < 100
    requires Landings(done) == DialState(d, l) && Passes(done) == DialState(d, p)
    requires 0 <= r.value < 100
    requires d' == Turn(d, r.direction, r.value)
    requires hits == ZeroHits(d, r.direction, r.value)
    ensures Landings(done + [r]) == DialState(d', l + if d' == 0 then 1 else 0)
    ensures Passes(done + [r]) == DialState(d', p + hits)
  {
    LandingsStep(done, r);
    PassesStep(done, r);
  }

  /** The first three rotations of the example. */
  lemma ExampleOpening(rs: seq<Rotation>)
    requires rs == Example[..3]
    ensures Landings(rs) == DialState(0, 1)
    ensures Passes(rs) == DialState(0, 2)
  {
    var r0, r1, r2 := Rotation(Left, 68), Rotation(Left, 30), Rotation(Right, 48);
    var p1 := [] + [r0];
    var p2 := p1 + [r1];
    ExampleStep([], r0, 50, 0, 0, 82, 1);
    ExampleStep(p1, r1, 82, 0, 1, 52, 0);
    ExampleStep(p2, r2, 52, 0, 1, 0, 1);
    assert p2 + [r2] == rs;
  }

  /** The first five rotations of the example. */
  lemma ExampleFirstHalf(rs: seq<Rotation>)
    requires rs == Example[..5]
    ensures Landings(rs) == DialState(55, 1)
    ensures Passes(rs) == DialState(55, 3)
  {
    var r3, r4 := Rotation(Left, 5), Rotation(Right, 60);
    var p3 := rs[..3];
    var p4 := p3 + [r3];
    ExampleOpening(p3);
    ExampleStep(p3, r3, 0, 1, 2, 95, 0);
    ExampleStep(p4, r4, 95, 1, 2, 55, 1);
    assert p4 + [r4] == rs;
  }

  /** The first eight rotations of the example. */
  lemma ExampleEight(rs: seq<Rotation>)
    requires rs == Example[..8]
    ensures Landings(rs) == DialState(0, 3)
    ensures Passes(rs) == DialState(0, 5)
  {
    var r5, r6, r7 := Rotation(Left, 55), Rotation(Left, 1), Rotation(Left, 99);
    var p5 := rs[..5];
    var p6 := p5 + [r5];
    var p7 := p6 + [r6];
    ExampleFirstHalf(p5);
    ExampleStep(p5, r5, 55, 1, 3, 0, 1);
    ExampleStep(p6, r6, 0, 2, 4, 99, 0);
    ExampleStep(p7, r7, 99, 2, 4, 0, 1);
    assert p7 + [r7] == rs;
  }

  /** On the example the dial rests on 0 three times and clicks onto it six
      times. */
  lemma ExampleCounts(rs: seq<Rotation>)
    requires rs == Example
    ensures Landings(rs).zeroes == 3
    ensures Passes(rs).zeroes == 6
  {
    var r8, r9 := Rotation(Right, 14), Rotation(Left, 82);
    var p8 := rs[..8];
    var p9 := p8 + [r8];
    ExampleEight(p8);
    ExampleStep(p8, r8, 0, 3, 5, 14, 0);
    ExampleStep(p9, r9, 14, 3, 5, 32, 1);
    assert p9 + [r9] == rs;
  }
}
