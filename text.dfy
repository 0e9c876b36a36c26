/** The pieces of Rust's standard string handling that the two puzzle
    solvers rely on: `str::lines`, `str::split` on one character,
    `usize::to_string`, and `str::parse` for `usize` and `isize`
    (both taken to be 64 bits wide). Strings are sequences of Unicode
    scalar values; byte offsets matter only where a caller says so. */
module Text {

  datatype Option<T> = None | Some(value: T)

  /** Every value when each element is present; `None` as soon as one is
      missing. */
  function AllValues<T>(opts: seq<Option<T>>): (r: Option<seq<T>>)
    ensures r.Some? ==> |r.value| == |opts|
    ensures r.Some? ==> forall i :: 0 <= i < |opts| ==> opts[i] == Some(r.value[i])
  {
    if opts == [] then Some([])
    else
      var rest := AllValues(opts[1..]);
      if opts[0].Some? && rest.Some? then Some([opts[0].value] + rest.value) else None
  }

  /** Elements that are all present give exactly their values. */
  lemma {:induction false} AllValuesPresent<T>(opts: seq<Option<T>>, xs: seq<T>)
    requires |opts| == |xs|
    requires forall i :: 0 <= i < |opts| ==> opts[i] == Some(xs[i])
    ensures AllValues(opts) == Some(xs)
  {
    if opts != [] {
      AllValuesPresent(opts[1..], xs[1..]);
      assert xs == [xs[0]] + xs[1..];
    }
  }

  /** The result is `None` exactly when some element is missing. */
  lemma {:induction false} AllValuesMissing<T>(opts: seq<Option<T>>)
    ensures AllValues(opts).None? <==> exists i :: 0 <= i < |opts| && opts[i].None?
  {
    if opts != [] {
      AllValuesMissing(opts[1..]);
      if AllValues(opts[1..]).None? {
        var i :| 0 <= i < |opts| - 1 && opts[1..][i].None?;
        assert opts[i + 1].None?;
      }
      if exists i :: 0 <= i < |opts| && opts[i].None? {
        var i :| 0 <= i < |opts| && opts[i].None?;
        if i > 0 {
          assert opts[1..][i - 1].None?;
        }
      }
    }
  }

  /** 2^64: one more than the largest `usize`. */
  const UsizeLimit: nat := 0x1_0000_0000_0000_0000
  /** 2^63: one more than the largest `isize`, and minus the smallest. */
  const IsizeLimit: int := 0x8000_0000_0000_0000

  // ---------------------------------------------------------------------
  // Decimal digits

  predicate IsDigit(c: char) {
    '0' <= c <= '9'
  }

  predicate AllDigits(s: string) {
    forall i :: 0 <= i < |s| ==> IsDigit(s[i])
  }

  function DigitValue(c: char): nat
    requires IsDigit(c)
  {
    (c as int) - ('0' as int)
  }

  function DigitChar(n: nat): (c: char)
    requires n < 10
    ensures IsDigit(c) && DigitValue(c) == n
  {
    (('0' as int) + n) as char
  }

  /** The number a string of decimal digits denotes, most significant first. */
  function ValueOf(s: string): nat
    requires AllDigits(s)
  {
    if s == [] then 0 else 10 * ValueOf(s[..|s| - 1]) + DigitValue(s[|s| - 1])
  }

  /** `n.to_string()`: the shortest decimal representation of `n`. */
  function Digits(n: nat): (s: string)
    ensures |s| >= 1 && AllDigits(s)
    ensures ValueOf(s) == n
    ensures s[0] == '0' ==> n == 0
    ensures |s| == 1 <==> n < 10
  {
    if n < 10 then [DigitChar(n)] else Digits(n / 10) + [DigitChar(n % 10)]
  }

  /** `s.parse::<usize>()`: an optional `+`, then at least one decimal digit,
      with a value that fits in 64 bits. */
  function ParseUsize(s: string): (r: Option<nat>)
    ensures r.Some? ==> r.value < UsizeLimit
    ensures r.Some? ==> s != [] && (IsDigit(s[0]) || s[0] == '+')
  {
    var digits := if |s| > 0 && s[0] == '+' then s[1..] else s;
    if digits != [] && AllDigits(digits) && ValueOf(digits) < UsizeLimit
    then Some(ValueOf(digits))
    else None
  }

  /** `s.parse::<isize>()`: an optional `+` or `-`, then at least one decimal
      digit, with a value in [-2^63, 2^63). */
  function ParseIsize(s: string): (r: Option<int>)
    ensures r.Some? ==> -IsizeLimit <= r.value < IsizeLimit
  {
    if |s| > 0 && s[0] == '-' then
      var digits := s[1..];
      if digits != [] && AllDigits(digits) && ValueOf(digits) <= IsizeLimit
      then Some(-(ValueOf(digits) as int))
      else None
    else
      var digits := if |s| > 0 && s[0] == '+' then s[1..] else s;
      if digits != [] && AllDigits(digits) && ValueOf(digits) < IsizeLimit
      then Some(ValueOf(digits))
      else None
  }

  /** `v.to_string()` for an `isize`: a minus sign for negative values. */
  function ShowIsize(v: int): string {
    if v < 0 then "-" + Digits(-v) else Digits(v)
  }

  lemma ParseUsizeDigits(n: nat)
    requires n < UsizeLimit
    ensures ParseUsize(Digits(n)) == Some(n)
  {
  }

  /** Every `isize` survives printing and parsing back. */
  lemma ParseIsizeShow(v: int)
    requires -IsizeLimit <= v < IsizeLimit
    ensures ParseIsize(ShowIsize(v)) == Some(v)
  {
    var s := ShowIsize(v);
    if v < 0 {
      assert s[1..] == Digits(-v);
    } else {
      assert s[0] != '-' && s[0] != '+';
    }
  }

  // ---------------------------------------------------------------------
  // Splitting on one character

  /** Position of the first occurrence of `c` in `s`. */
  function IndexOf(s: string, c: char): (i: nat)
    requires c in s
    ensures i < |s| && s[i] == c && c !in s[..i]
  {
    if s[0] == c then 0 else 1 + IndexOf(s[1..], c)
  }

  /** `s.split(sep)`: the pieces between occurrences of `sep`; always at
      least one piece, empty ones included. */
  function Split(s: string, sep: char): (pieces: seq<string>)
    ensures |pieces| >= 1
    ensures forall p :: p in pieces ==> sep !in p
    decreases |s|
  {
    if sep in s then
      var i := IndexOf(s, sep);
      [s[..i]] + Split(s[i + 1..], sep)
    else
      [s]
  }

  /** The pieces with `sep` between each two, as `join` builds them. */
  function Join(pieces: seq<string>, sep: char): string
    requires |pieces| >= 1
  {
    if |pieces| == 1 then pieces[0] else pieces[0] + [sep] + Join(pieces[1..], sep)
  }

  /** A character that is neither the separator nor in any piece is not in
      the joined string. */
  lemma {:induction false} JoinAvoids(pieces: seq<string>, sep: char, c: char)
    requires |pieces| >= 1 && c != sep
    requires forall p :: p in pieces ==> c !in p
    ensures c !in Join(pieces, sep)
  {
    if |pieces| > 1 {
      assert pieces[0] in pieces;
      assert forall p :: p in pieces[1..] ==> p in pieces;
      JoinAvoids(pieces[1..], sep, c);
    }
  }

  /** Joining keeps every piece and a separator between each two. */
  lemma {:induction false} JoinNonEmpty(pieces: seq<string>, sep: char)
    requires |pieces| >= 1
    ensures |Join(pieces, sep)| >= |pieces| - 1 + |pieces[0]|
  {
    if |pieces| > 1 {
      JoinNonEmpty(pieces[1..], sep);
    }
  }

  /** A string made of `prefix`, then `sep`, then anything, has its first
      `sep` right after `prefix`. */
  lemma IndexOfAfter(prefix: string, sep: char, rest: string)
    requires sep !in prefix
    ensures sep in prefix + [sep] + rest
    ensures IndexOf(prefix + [sep] + rest, sep) == |prefix|
  {
    var s := prefix + [sep] + rest;
    assert s[|prefix|] == sep;
  }

  /** A first piece without the separator splits off by itself. */
  lemma SplitCons(first: string, sep: char, rest: string)
    requires sep !in first
    ensures Split(first + [sep] + rest, sep) == [first] + Split(rest, sep)
  {
    IndexOfAfter(first, sep, rest);
    var s := first + [sep] + rest;
    assert s[..|first|] == first;
    assert s[|first| + 1..] == rest;
  }

  /** Splitting undoes joining, as long as no piece holds the separator. */
  lemma {:induction false} SplitJoin(pieces: seq<string>, sep: char)
    requires |pieces| >= 1
    requires forall p :: p in pieces ==> sep !in p
    ensures Split(Join(pieces, sep), sep) == pieces
  {
    if |pieces| > 1 {
      assert pieces[0] in pieces;
      SplitCons(pieces[0], sep, Join(pieces[1..], sep));
      assert forall p :: p in pieces[1..] ==> p in pieces;
      SplitJoin(pieces[1..], sep);
      assert pieces == [pieces[0]] + pieces[1..];
    }
  }

  /** Joining undoes splitting. */
  lemma {:induction false} JoinSplit(s: string, sep: char)
    ensures Join(Split(s, sep), sep) == s
    decreases |s|
  {
    if sep in s {
      var i := IndexOf(s, sep);
      var first, tail := s[..i], s[i + 1..];
      assert Split(s, sep) == [first] + Split(tail, sep);
      assert Join(Split(s, sep), sep) == first + [sep] + Join(Split(tail, sep), sep) by {
        JoinCons(first, Split(tail, sep), sep);
      }
      assert Join(Split(tail, sep), sep) == tail by {
        JoinSplit(tail, sep);
      }
      Reassemble(s, i);
    }
  }

  /** A string is the part before position `i`, the character there, and
      the part after. */
  lemma Reassemble(s: string, i: nat)
    requires i < |s|
    ensures s == s[..i] + [s[i]] + s[i + 1..]
  {
  }

  /** Joining a first piece onto at least one more puts one separator
      between them. */
  lemma JoinCons(first: string, rest: seq<string>, sep: char)
    requires |rest| >= 1
    ensures Join([first] + rest, sep) == first + [sep] + Join(rest, sep)
  {
    assert ([first] + rest)[1..] == rest;
  }

  // ---------------------------------------------------------------------
  // Lines

  /** A line ending "\r\n" loses its '\r' as well as its '\n'. */
  function StripCarriageReturn(line: string): string {
    if |line| > 0 && line[|line| - 1] == '\r' then line[..|line| - 1] else line
  }

  /** `text.lines()`: split after each '\n', drop the '\n' and a '\r' just
      before it; a final line needs no terminator, and no empty line is
      produced after the last '\n'. */
  function Lines(text: string): (lines: seq<string>)
    ensures forall l :: l in lines ==> '\n' !in l
    ensures |lines| <= |text|
    decreases |text|
  {
    if text == [] then []
    else if '\n' in text then
      var i := IndexOf(text, '\n');
      [StripCarriageReturn(text[..i])] + Lines(text[i + 1..])
    else
      [text]
  }

  /** The lines, each followed by '\n'. */
  function Unlines(lines: seq<string>): string {
    if lines == [] then "" else lines[0] + "\n" + Unlines(lines[1..])
  }

  /** A line that `lines` reproduces exactly: no line break characters. */
  predicate PlainLine(line: string) {
    '\n' !in line && '\r' !in line
  }

  /** Reading back lines written one per row gives the same lines. */
  lemma {:induction false} LinesUnlines(lines: seq<string>)
    requires forall l :: l in lines ==> PlainLine(l)
    ensures Lines(Unlines(lines)) == lines
  {
    if lines != [] {
      assert lines[0] in lines;
      var rest := Unlines(lines[1..]);
      IndexOfAfter(lines[0], '\n', rest);
      var text := lines[0] + "\n" + rest;
      assert text == lines[0] + ['\n'] + rest;
      assert text[..|lines[0]|] == lines[0];
      assert text[|lines[0]| + 1..] == rest;
      LinesUnlines(lines[1..]);
      assert lines == [lines[0]] + lines[1..];
    }
  }

  /** Text without a line break is a single line. */
  lemma SingleLine(text: string)
    requires text != [] && '\n' !in text
    ensures Lines(text) == [text]
  {
  }
}
