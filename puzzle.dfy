/**
 * `parse_puzzle` of src/main.rs: the puzzle text is split at newlines, the
 * first line is ignored, the second reads "<w>x<h>", and the characters of
 * the remaining lines, concatenated, fill an h by w tower row by row.
 */
module Puzzle {
  import opened Wrappers
  import opened Towers

  /** The largest `usize` on the 64-bit targets the program is built for. */
  const USIZE_MAX: nat := 0xFFFF_FFFF_FFFF_FFFF

  /** Why a puzzle text is refused: the four `?` exits of `parse_puzzle`. */
  datatype ParseError =
    | NoPuzzleLines
    | InvalidDimensions(dim: string)
    | BadNumber
    | ShapeMismatch

  /** `str::split("\n")`: the pieces between newlines, always at least one. */
  function SplitLines(s: string): (lines: seq<string>)
    ensures |lines| >= 1
    ensures forall k :: 0 <= k < |lines| ==> '\n' !in lines[k]
    decreases |s|
  {
    if |s| == 0 then [""]
    else if s[0] == '\n' then [""] + SplitLines(s[1..])
    else
      var rest := SplitLines(s[1..]);
      [[s[0]] + rest[0]] + rest[1..]
  }

  /** A line and a newline in front of a text add that line in front of its lines. */
  lemma {:induction false} SplitLinesCons(line: string, rest: string)
    requires '\n' !in line
    ensures SplitLines(line + "\n" + rest) == [line] + SplitLines(rest)
    decreases |line|
  {
    var s := line + "\n" + rest;
    if |line| == 0 {
      assert s[1..] == rest;
    } else {
      assert s[0] == line[0] && s[1..] == line[1..] + "\n" + rest;
      SplitLinesCons(line[1..], rest);
      assert [line[0]] + line[1..] == line;
    }
  }

  /** Lines put back together with a newline between neighbours. */
  function JoinLines(lines: seq<string>): string
    decreases |lines|
  {
    if |lines| == 0 then ""
    else if |lines| == 1 then lines[0]
    else lines[0] + "\n" + JoinLines(lines[1..])
  }

  /** Splitting at newlines loses nothing: joining the pieces gives the text back. */
  lemma {:induction false} JoinSplit(s: string)
    ensures JoinLines(SplitLines(s)) == s
    decreases |s|
  {
    if |s| > 0 {
      JoinSplit(s[1..]);
      var rest := SplitLines(s[1..]);
      if s[0] == '\n' {
        assert ([""] + rest)[1..] == rest;
      } else if |rest| == 1 {
        assert s == [s[0]] + s[1..];
      } else {
        assert JoinLines(rest) == rest[0] + "\n" + JoinLines(rest[1..]);
        assert ([[s[0]] + rest[0]] + rest[1..])[1..] == rest[1..];
        assert s == [s[0]] + s[1..];
      }
    }
  }

  /** Lines without newlines, joined and split again, come back as they were. */
  lemma {:induction false} SplitJoin(lines: seq<string>)
    requires |lines| >= 1
    requires forall k :: 0 <= k < |lines| ==> '\n' !in lines[k]
    ensures SplitLines(JoinLines(lines)) == lines
    decreases |lines|
  {
    if |lines| > 1 {
      SplitLinesCons(lines[0], JoinLines(lines[1..]));
      SplitJoin(lines[1..]);
      assert lines == [lines[0]] + lines[1..];
    } else {
      SplitLinesNone(lines[0]);
    }
  }

  /** A text with no newline is a single line. */
  lemma {:induction false} SplitLinesNone(s: string)
    requires '\n' !in s
    ensures SplitLines(s) == [s]
    decreases |s|
  {
    if |s| > 0 {
      assert s[0] in s;
      SplitLinesNone(s[1..]);
      assert [s[0]] + s[1..] == s;
    }
  }

  /** `str::split_once`: the text before and after the first `c`, if there is one. */
  function SplitOnce(s: string, c: char): (r: Option<(string, string)>)
    ensures r.None? <==> c !in s
    ensures r.Some? ==> s == r.value.0 + [c] + r.value.1 && c !in r.value.0
    decreases |s|
  {
    if |s| == 0 then None
    else if s[0] == c then
      assert s == [] + [c] + s[1..];
      Some(([], s[1..]))
    else
      var r := SplitOnce(s[1..], c);
      assert s == [s[0]] + s[1..];
      if r.None? then None else Some(([s[0]] + r.value.0, r.value.1))
  }

  /** The first `c` of `s + [c] + t` is the one after `s` when `s` has none. */
  lemma {:induction false} SplitOnceJoin(s: string, c: char, t: string)
    requires c !in s
    ensures SplitOnce(s + [c] + t, c) == Some((s, t))
    decreases |s|
  {
    var u := s + [c] + t;
    if |s| > 0 {
      assert s[0] in s;
      assert u[0] == s[0] && u[1..] == s[1..] + [c] + t;
      SplitOnceJoin(s[1..], c, t);
      assert [s[0]] + s[1..] == s;
    } else {
      assert u[1..] == t;
    }
  }

  predicate IsDigit(c: char) {
    '0' <= c <= '9'
  }

  predicate AllDigits(s: string)
    decreases |s|
  {
    |s| == 0 || (AllDigits(s[..|s| - 1]) && IsDigit(s[|s| - 1]))
  }

  /** A run of digits holds no character that is not a digit. */
  lemma {:induction false} DigitsExclude(s: string, c: char)
    requires AllDigits(s) && !IsDigit(c)
    ensures c !in s
    decreases |s|
  {
    if |s| > 0 {
      DigitsExclude(s[..|s| - 1], c);
      assert s == s[..|s| - 1] + [s[|s| - 1]];
    }
  }

  function DigitValue(c: char): nat
    requires IsDigit(c)
  {
    c as int - '0' as int
  }

  function DigitChar(d: nat): (c: char)
    requires d < 10
    ensures IsDigit(c) && DigitValue(c) == d
  {
    ('0' as int + d) as char
  }

  /** The number a run of decimal digits denotes, most significant first. */
  function DigitsValue(ds: string): nat
    requires AllDigits(ds)
    decreases |ds|
  {
    if |ds| == 0 then 0
    else DigitsValue(ds[..|ds| - 1]) * 10 + DigitValue(ds[|ds| - 1])
  }

  /**
   * `str::parse::<usize>`: an optional leading '+' (not on its own), then
   * at least one decimal digit; a value above `usize::MAX` overflows.
   */
  function ParseUsize(s: string): (r: Option<nat>)
    ensures r.Some? ==> r.value <= USIZE_MAX
    ensures r.Some? ==> exists ds :: (s == ds || s == "+" + ds) && |ds| > 0 && AllDigits(ds) && DigitsValue(ds) == r.value
  {
    var ds := if |s| > 1 && s[0] == '+' then s[1..] else s;
    if |ds| == 0 || !AllDigits(ds) then None
    else if DigitsValue(ds) > USIZE_MAX then None
    else
      assert s == ds || s == "+" + ds;
      Some(DigitsValue(ds))
  }

  /** A number in decimal, with no sign and no leading zero. */
  function ShowNat(n: nat): (s: string)
    ensures |s| > 0 && AllDigits(s)
  {
    if n < 10 then
      assert [DigitChar(n)][..0] == [];
      [DigitChar(n)]
    else
      var s := ShowNat(n / 10) + [DigitChar(n % 10)];
      assert s[..|s| - 1] == ShowNat(n / 10);
      s
  }

  lemma {:induction false} ShowNatValue(n: nat)
    ensures DigitsValue(ShowNat(n)) == n
  {
    if n >= 10 {
      ShowNatValue(n / 10);
      var s := ShowNat(n);
      assert s[..|s| - 1] == ShowNat(n / 10);
    }
  }

  /** Every number `usize` holds, written in decimal, parses back to itself. */
  lemma ParseShowNat(n: nat)
    requires n <= USIZE_MAX
    ensures ParseUsize(ShowNat(n)) == Some(n)
    ensures 'x' !in ShowNat(n) && '\n' !in ShowNat(n)
  {
    ShowNatValue(n);
    DigitsExclude(ShowNat(n), 'x');
    DigitsExclude(ShowNat(n), '+');
    DigitsExclude(ShowNat(n), '\n');
    assert ShowNat(n)[0] in ShowNat(n);
  }

  /** All lines, one after another. */
  function Concat(lines: seq<string>): (s: string)
    decreases |lines|
  {
    if |lines| == 0 then "" else lines[0] + Concat(lines[1..])
  }

  /** `Array2::from_shape_vec((h, w), cells)` when `cells` has exactly h*w elements: w cells per row. */
  function Shape(cells: string, h: nat, w: nat): (b: Board)
    requires |cells| == h * w
    ensures |b| == h && forall i :: 0 <= i < h ==> |b[i]| == w
    decreases h
  {
    if h == 0 then []
    else
      assert h * w == (h - 1) * w + w;
      [cells[..w]] + Shape(cells[w..], h - 1, w)
  }

  /** The rows of the shaped board, concatenated, are the cells again. */
  lemma {:induction false} ConcatShape(cells: string, h: nat, w: nat)
    requires |cells| == h * w
    ensures Concat(Shape(cells, h, w)) == cells
    decreases h
  {
    if h > 0 {
      assert h * w == (h - 1) * w + w;
      ConcatShape(cells[w..], h - 1, w);
      var b := Shape(cells, h, w);
      assert b[1..] == Shape(cells[w..], h - 1, w);
      assert cells == cells[..w] + cells[w..];
    }
  }

  /**
   * `parse_puzzle`: the first line is skipped, the second gives "<w>x<h>",
   * and the first w*h characters of the rest, row by row, are the tower.
   */
  function ParsePuzzle(p: string): (r: Result<Board, ParseError>)
    ensures r.Ok? ==> IsRect(r.value)
  {
    var lines := SplitLines(p);
    if |lines| < 2 then Err(NoPuzzleLines)
    else
      match SplitOnce(lines[1], 'x')
      case None => Err(InvalidDimensions(lines[1]))
      case Some((ws, hs)) =>
        match ParseUsize(ws)
        case None => Err(BadNumber)
        case Some(w) =>
          match ParseUsize(hs)
          case None => Err(BadNumber)
          case Some(h) =>
            FromShape(Concat(lines[2..]), h, w)
  }

  /**
   * `Array2::from_shape_vec((h, w), ...)` on the first w*h of `cells`:
   * a shape error when there are fewer, the extra ones ignored.
   */
  function FromShape(cells: string, h: nat, w: nat): (r: Result<Board, ParseError>)
    ensures r.Ok? ==> IsRect(r.value)
  {
    if |cells| < w * h then Err(ShapeMismatch)
    else
      var b := Shape(cells[..w * h], h, w);
      assert h > 0 ==> Width(b) == w;
      Ok(b)
  }

  /** The text of a tower as the puzzle source writes it: a header, the sizes, then one line per row. */
  function ShowPuzzle(header: string, b: Board): string
    requires IsRect(b)
  {
    header + "\n" + (ShowNat(Width(b)) + "x" + ShowNat(|b|)) + "\n" + JoinLines(b)
  }

  /** The rows of a rectangular board, concatenated and shaped again, are the board. */
  lemma {:induction false} ShapeConcat(b: Board, w: nat)
    requires forall i :: 0 <= i < |b| ==> |b[i]| == w
    ensures |Concat(b)| == |b| * w && Shape(Concat(b), |b|, w) == b
    decreases |b|
  {
    if |b| > 0 {
      ShapeConcat(b[1..], w);
      var rest := Concat(b[1..]);
      assert Concat(b) == b[0] + rest;
      assert |b| * w == (|b| - 1) * w + w;
      assert Concat(b)[..w] == b[0] && Concat(b)[w..] == rest;
      assert b == [b[0]] + b[1..];
    }
  }

  /** A rectangular tower, written out and parsed, comes back unchanged. */
  lemma ParseShowPuzzle(header: string, b: Board)
    requires IsRect(b) && '\n' !in header
    requires forall i :: 0 <= i < |b| ==> '\n' !in b[i]
    requires Width(b) <= USIZE_MAX && |b| <= USIZE_MAX
    ensures ParsePuzzle(ShowPuzzle(header, b)) == Ok(b)
  {
    var w, h := Width(b), |b|;
    ParseShowNat(w);
    ParseShowNat(h);
    assert '\n' !in ShowNat(w) + "x" + ShowNat(h);
    ParsedFromRest(header, ShowNat(w), ShowNat(h), JoinLines(b));
    if h > 0 {
      SplitJoin(b);
    } else {
      assert SplitLines("") == [""];
    }
    assert Concat(SplitLines(JoinLines(b))) == Concat(b);
    ShapeConcat(b, w);
    assert Concat(b)[..w * h] == Concat(b);
  }

  /**
   * A puzzle text "header\n<w>x<h>\n..." is read as the tower that the
   * rest of the text gives at that size.
   */
  lemma ParsedFromRest(header: string, ws: string, hs: string, rest: string)
    requires '\n' !in header && '\n' !in ws + "x" + hs && 'x' !in ws
    requires ParseUsize(ws).Some? && ParseUsize(hs).Some?
    ensures ParsePuzzle(header + "\n" + (ws + "x" + hs) + "\n" + rest)
      == FromShape(Concat(SplitLines(rest)), ParseUsize(hs).value, ParseUsize(ws).value)
  {
    var dim := ws + "x" + hs;
    FirstTwoLines(header, dim, rest);
    assert dim == ws + ['x'] + hs;
    SplitOnceJoin(ws, 'x', hs);
    assert ([header, dim] + SplitLines(rest))[2..] == SplitLines(rest);
  }

  /** `from_shape_vec` refuses fewer than w*h cells with a shape error. */
  lemma ShortRefused(cells: string, h: nat, w: nat)
    requires |cells| < w * h
    ensures FromShape(cells, h, w) == Err(ShapeMismatch)
  {
  }

  /**
   * With at least w*h cells `from_shape_vec` succeeds with h rows of w
   * cells that, read row by row, are the first w*h cells: cell (i, j) is
   * element i*w+j, and the cells after those are ignored.
   */
  lemma ShapedCells(cells: string, h: nat, w: nat)
    requires |cells| >= w * h
    ensures FromShape(cells, h, w).Ok?
    ensures var b := FromShape(cells, h, w).value;
      && |b| == h && (forall i :: 0 <= i < h ==> |b[i]| == w)
      && Concat(b) == cells[..w * h]
  {
    ConcatShape(cells[..w * h], h, w);
  }

  /** A text with no newline has no dimensions line. */
  lemma OneLineRefused(p: string)
    requires '\n' !in p
    ensures ParsePuzzle(p) == Err(NoPuzzleLines)
  {
    SplitLinesNone(p);
  }

  /** The first two lines of a text are the pieces before its first two newlines. */
  lemma FirstTwoLines(header: string, dim: string, rest: string)
    requires '\n' !in header && '\n' !in dim
    ensures SplitLines(header + "\n" + dim + "\n" + rest) == [header, dim] + SplitLines(rest)
  {
    var q := dim + "\n" + rest;
    assert header + "\n" + dim + "\n" + rest == header + "\n" + q;
    SplitLinesCons(header, q);
    SplitLinesCons(dim, rest);
  }

  /** A dimensions line with no 'x' is refused, quoting that line. */
  lemma NoCrossRefused(header: string, dim: string, rest: string)
    requires '\n' !in header && '\n' !in dim && 'x' !in dim
    ensures ParsePuzzle(header + "\n" + dim + "\n" + rest) == Err(InvalidDimensions(dim))
  {
    FirstTwoLines(header, dim, rest);
  }

  /**
   * A dimensions line whose width or height is not a number is refused with
   * the error of `str::parse`, which does not carry the text it was given.
   */
  lemma BadSideRefused(header: string, ws: string, hs: string, rest: string)
    requires '\n' !in header && '\n' !in ws + "x" + hs && 'x' !in ws
    ensures ParseUsize(ws).None? || ParseUsize(hs).None?
      ==> ParsePuzzle(header + "\n" + (ws + "x" + hs) + "\n" + rest) == Err(BadNumber)
  {
    var dim := ws + "x" + hs;
    FirstTwoLines(header, dim, rest);
    assert dim == ws + ['x'] + hs;
    SplitOnceJoin(ws, 'x', hs);
  }

  /** A lone '+', a '-' sign or any other non-digit makes the number unreadable. */
  lemma SignOnlyRefused()
    ensures ParseUsize("+") == None && ParseUsize("") == None && ParseUsize("-1") == None
  {
    assert "-1"[..1] == "-";
    assert "+"[..0] == [];
  }

  /** One past `usize::MAX` overflows. */
  lemma OverflowRefused()
    ensures ParseUsize(ShowNat(USIZE_MAX + 1)) == None
  {
    ShowNatValue(USIZE_MAX + 1);
    var s := ShowNat(USIZE_MAX + 1);
    DigitsExclude(s, '+');
    assert s[0] in s;
  }
}
