/**
 * The tower of src/main.rs: a row-major grid of cells, row 0 on top, and
 * the play rules that clear cells and let the remaining tiles fall.
 *
 * A cell is '\0' when empty, '_' for a blank obstacle tile, an upper-case
 * letter for a normal tile and a lower-case letter for a bonus tile.
 * Pure rules work on `Board` values; `delete_path` works in place on an
 * `array2<char>`, the ndarray the source mutates.
 */
module Towers {
  import opened Wrappers
  import opened Seqs

  type Board = seq<seq<char>>
  /** (row, column). */
  type Coord = (nat, nat)
  type Path = seq<Coord>

  const Empty: char := '\0'
  const Blank: char := '_'

  function Width(b: Board): nat {
    if |b| == 0 then 0 else |b[0]|
  }

  predicate IsRect(b: Board) {
    forall r :: 0 <= r < |b| ==> |b[r]| == Width(b)
  }

  predicate InBounds(b: Board, c: Coord) {
    c.0 < |b| && c.1 < Width(b)
  }

  predicate PathInBounds(b: Board, p: Path) {
    forall k :: 0 <= k < |p| ==> InBounds(b, p[k])
  }

  function At(b: Board, c: Coord): char
    requires IsRect(b) && InBounds(b, c)
  {
    b[c.0][c.1]
  }

  /** `char::to_ascii_uppercase`. */
  function Upper(c: char): char {
    if 'a' <= c <= 'z' then (c as int - 32) as char else c
  }

  /** `char::is_ascii_lowercase`: a bonus tile. */
  predicate IsLower(c: char) {
    'a' <= c <= 'z'
  }

  /** The letters whose tile clears its whole row. */
  predicate ClearsRow(c: char) {
    c == 'J' || c == 'Q' || c == 'X' || c == 'Z'
  }

  /** `checked_add_signed` on both coordinates: None when either would go below 0. */
  function Offset(c: Coord, d: (int, int)): Option<Coord> {
    if c.0 + d.0 < 0 || c.1 + d.1 < 0 then None else Some((c.0 + d.0, c.1 + d.1))
  }

  function Dist(x: nat, y: nat): nat {
    if x <= y then y - x else x - y
  }

  /** The 4-neighbour offsets, in the order `deletable` visits them. */
  const Orthogonal: seq<(int, int)> := [(-1, 0), (1, 0), (0, -1), (0, 1)]

  predicate OrthoAdjacent(a: Coord, c: Coord) {
    Dist(a.0, c.0) + Dist(a.1, c.1) == 1
  }

  /** The four offsets reach exactly the orthogonal neighbours. */
  lemma OrthogonalOffsets(a: Coord, c: Coord)
    ensures OrthoAdjacent(a, c) <==> exists d :: 0 <= d < |Orthogonal| && Offset(a, Orthogonal[d]) == Some(c)
  {
    if OrthoAdjacent(a, c) {
      if c.0 + 1 == a.0 {
        assert Offset(a, Orthogonal[0]) == Some(c);
      } else if c.0 == a.0 + 1 {
        assert Offset(a, Orthogonal[1]) == Some(c);
      } else if c.1 + 1 == a.1 {
        assert Offset(a, Orthogonal[2]) == Some(c);
      } else {
        assert Offset(a, Orthogonal[3]) == Some(c);
      }
    }
  }

  /** `c` is a tile in the row of one of the first `n` path cells whose letter is J, Q, X or Z. */
  predicate RowClearedBy(b: Board, path: Path, n: nat, c: Coord)
    requires IsRect(b) && PathInBounds(b, path) && n <= |path|
  {
    && InBounds(b, c) && At(b, c) != Empty
    && exists k :: 0 <= k < n && path[k].0 == c.0 && ClearsRow(Upper(At(b, path[k])))
  }

  /**
   * `c` is a tile orthogonally next to one of the first `n` path cells, and
   * either the whole path has at least 5 cells or `c` is a blank.
   */
  predicate NeighbourClearedBy(b: Board, path: Path, n: nat, c: Coord)
    requires IsRect(b) && PathInBounds(b, path) && n <= |path|
  {
    && InBounds(b, c) && At(b, c) != Empty
    && (|path| >= 5 || At(b, c) == Blank)
    && exists k :: 0 <= k < n && OrthoAdjacent(path[k], c)
  }

  /** The rules of `deletable`: the cells a play of `path` clears. */
  predicate InDeletable(b: Board, path: Path, c: Coord)
    requires IsRect(b) && PathInBounds(b, path)
  {
    || c in path
    || RowClearedBy(b, path, |path|, c)
    || NeighbourClearedBy(b, path, |path|, c)
  }

  /** The set of cells the rules clear. */
  function DeletableSet(b: Board, path: Path): (d: set<Coord>)
    requires IsRect(b) && PathInBounds(b, path)
    ensures forall c :: c in d <==> InDeletable(b, path, c)
  {
    set r: nat, k: nat | r < |b| && k < Width(b) && InDeletable(b, path, (r, k)) :: (r, k)
  }

  /**
   * `deletable`: starts from the path cells, adds the row of every J, Q, X
   * or Z on the path, then the orthogonal neighbours.
   */
  method Deletable(b: Board, path: Path) returns (collected: set<Coord>)
    requires IsRect(b) && PathInBounds(b, path)
    ensures forall c :: c in collected <==> InDeletable(b, path, c)
  {
    var m := Width(b);
    collected := set k | 0 <= k < |path| :: path[k];
    for k := 0 to |path|
      invariant forall c :: c in collected <==> c in path || RowClearedBy(b, path, k, c)
    {
      var (i, j) := path[k];
      var c := Upper(b[i][j]);
      if !ClearsRow(c) {
        continue;
      }
      collected := collected + set j': nat | j' < m && b[i][j'] != Empty :: (i, j');
    }
    for k := 0 to |path|
      invariant forall c :: c in collected <==>
        c in path || RowClearedBy(b, path, |path|, c) || NeighbourClearedBy(b, path, k, c)
    {
      for d := 0 to |Orthogonal|
        invariant forall c :: c in collected <==>
          || c in path || RowClearedBy(b, path, |path|, c) || NeighbourClearedBy(b, path, k, c)
          || (&& InBounds(b, c) && At(b, c) != Empty && (|path| >= 5 || At(b, c) == Blank)
              && exists d' :: 0 <= d' < d && Offset(path[k], Orthogonal[d']) == Some(c))
      {
        match Offset(path[k], Orthogonal[d]) {
          case None =>
          case Some(c) =>
            if c.0 < |b| && c.1 < m {
              var letter := b[c.0][c.1];
              if letter != Empty && (|path| >= 5 || letter == Blank) {
                collected := collected + {c};
              }
            }
        }
      }
      forall c
        ensures NeighbourClearedBy(b, path, k + 1, c) <==>
          || NeighbourClearedBy(b, path, k, c)
          || (&& InBounds(b, c) && At(b, c) != Empty && (|path| >= 5 || At(b, c) == Blank)
              && exists d' :: 0 <= d' < |Orthogonal| && Offset(path[k], Orthogonal[d']) == Some(c))
      {
        OrthogonalOffsets(path[k], c);
      }
    }
  }

  /* ---------------------------------------------------------------- gravity */

  function Column(b: Board, j: nat): (col: seq<char>)
    requires IsRect(b) && j < Width(b)
    ensures |col| == |b| && forall r :: 0 <= r < |b| ==> col[r] == b[r][j]
  {
    seq(|b|, r requires 0 <= r < |b| => b[r][j])
  }

  /** The tiles of a column, top to bottom, with its empty cells dropped. */
  function Tiles(s: seq<char>): (t: seq<char>)
    ensures |t| <= |s|
    ensures forall i :: 0 <= i < |t| ==> t[i] != Empty
  {
    if s == [] then [] else (if s[0] == Empty then [] else [s[0]]) + Tiles(s[1..])
  }

  function Empties(n: nat): (s: seq<char>)
    ensures |s| == n && forall i :: 0 <= i < n ==> s[i] == Empty
  {
    seq(n, _ => Empty)
  }

  /** A column after gravity: its tiles, in order, at the bottom; empty cells above. */
  function Packed(s: seq<char>): (p: seq<char>)
    ensures |p| == |s|
  {
    Empties(|s| - |Tiles(s)|) + Tiles(s)
  }

  /** The board with the cells of `d` set to empty. */
  function Cleared(b: Board, d: set<Coord>): (b': Board)
    requires IsRect(b)
    ensures |b'| == |b| && IsRect(b') && Width(b') == Width(b)
  {
    seq(|b|, r requires 0 <= r < |b| => ClearedRow(b, d, r))
  }

  /** Row `r` of the board with the cells of `d` set to empty. */
  function ClearedRow(b: Board, d: set<Coord>, r: nat): (row: seq<char>)
    requires r < |b|
    ensures |row| == |b[r]|
  {
    seq(|b[r]|, k requires 0 <= k < |b[r]| => if (r, k) in d then Empty else b[r][k])
  }

  /** Row `r` of the board after gravity. */
  function SettledRow(b: Board, r: nat): (row: seq<char>)
    requires IsRect(b) && r < |b|
    ensures |row| == Width(b)
  {
    seq(Width(b), k requires 0 <= k < Width(b) => Packed(Column(b, k))[r])
  }

  /** Gravity applied to every column. */
  function Settle(b: Board): (b': Board)
    requires IsRect(b)
    ensures |b'| == |b| && IsRect(b') && Width(b') == Width(b)
  {
    seq(|b|, r requires 0 <= r < |b| => SettledRow(b, r))
  }

  /** `delete_path` as a function of the board before the play. */
  function Delete(b: Board, path: Path): (b': Board)
    requires IsRect(b) && PathInBounds(b, path)
    ensures |b'| == |b| && IsRect(b') && Width(b') == Width(b)
  {
    Settle(Cleared(b, DeletableSet(b, path)))
  }

  lemma {:induction false} TilesAppend(s: seq<char>, t: seq<char>)
    ensures Tiles(s + t) == Tiles(s) + Tiles(t)
    decreases |s|
  {
    if s == [] {
      assert s + t == t;
    } else {
      assert (s + t)[1..] == s[1..] + t;
      TilesAppend(s[1..], t);
    }
  }

  lemma {:induction false} TilesOfEmpties(s: seq<char>)
    requires forall i :: 0 <= i < |s| ==> s[i] == Empty
    ensures Tiles(s) == []
    decreases |s|
  {
    if s != [] {
      TilesOfEmpties(s[1..]);
    }
  }

  lemma {:induction false} TilesOfTiles(s: seq<char>)
    requires forall i :: 0 <= i < |s| ==> s[i] != Empty
    ensures Tiles(s) == s
    decreases |s|
  {
    if s != [] {
      TilesOfTiles(s[1..]);
    }
  }

  /** Gravity keeps every tile of the column, in order. */
  lemma PackedTiles(s: seq<char>)
    ensures Tiles(Packed(s)) == Tiles(s)
  {
    TilesAppend(Empties(|s| - |Tiles(s)|), Tiles(s));
    TilesOfEmpties(Empties(|s| - |Tiles(s)|));
    TilesOfTiles(Tiles(s));
  }

  /** A packed column has no tile directly above an empty cell. */
  lemma PackedFalls(s: seq<char>, i: nat)
    requires i + 1 < |s| && Packed(s)[i] != Empty
    ensures Packed(s)[i + 1] != Empty
  {
  }

  /** Gravity applied twice is gravity applied once. */
  lemma PackedIdempotent(s: seq<char>)
    ensures Packed(Packed(s)) == Packed(s)
  {
    PackedTiles(s);
  }

  /** A column that has every tile at the bottom is already packed. */
  lemma PackedWhenSettled(col: seq<char>, orig: seq<char>, h: nat)
    requires |col| == |orig| && h <= |col|
    requires forall r :: h <= r < |col| ==> col[r] != Empty
    requires Tiles(col[..h]) + col[h..] == Tiles(orig)
    requires h <= 1 || forall r :: 0 <= r < h ==> col[r] == Empty
    ensures col == Packed(orig)
  {
    if forall r :: 0 <= r < h ==> col[r] == Empty {
      TilesOfEmpties(col[..h]);
      assert col == col[..h] + col[h..];
    } else {
      assert h == 1 && col[0] != Empty;
      assert col[..1] == [col[0]];
      assert Tiles(col[..1]) == [col[0]] + Tiles([]);
      assert col == [col[0]] + col[1..];
    }
  }

  /** A tile at row `i` joins the settled rows below it. */
  lemma KeepStep(col: seq<char>, orig: seq<char>, i: nat)
    requires i < |col| && col[i] != Empty
    requires Tiles(col[..i + 1]) + col[i + 1..] == Tiles(orig)
    ensures Tiles(col[..i]) + col[i..] == Tiles(orig)
  {
    assert col[..i + 1] == col[..i] + [col[i]];
    TilesAppend(col[..i], [col[i]]);
    assert Tiles([col[i]]) == [col[i]] + Tiles([]);
    assert col[i..] == [col[i]] + col[i + 1..];
  }

  /** The tiles of `s ++ [x] ++ e` where every cell of `e` is empty. */
  lemma TilesThenEmpties(s: seq<char>, x: char, e: seq<char>)
    requires forall r :: 0 <= r < |e| ==> e[r] == Empty
    ensures Tiles(s + [x] + e) == Tiles(s) + Tiles([x])
  {
    TilesAppend(s + [x], e);
    TilesAppend(s, [x]);
    TilesOfEmpties(e);
  }

  lemma TilesBeforeMove(col: seq<char>, p: nat, i: nat)
    requires p < i < |col|
    requires forall r :: p < r <= i ==> col[r] == Empty
    ensures Tiles(col[..i + 1]) == Tiles(col[..p]) + Tiles([col[p]])
  {
    var mid := col[p + 1..i + 1];
    assert col[..i + 1] == col[..p] + [col[p]] + mid;
    TilesThenEmpties(col[..p], col[p], mid);
  }

  lemma TilesAfterMove(col: seq<char>, p: nat, i: nat)
    requires p < i < |col|
    requires forall r :: p < r <= i ==> col[r] == Empty
    ensures Tiles(col[i := col[p]][p := Empty][..i]) == Tiles(col[..p])
  {
    var col' := col[i := col[p]][p := Empty];
    var mid' := col[p + 1..i];
    assert col'[..i] == col[..p] + [Empty] + mid';
    TilesThenEmpties(col[..p], Empty, mid');
    assert Tiles([Empty]) == Tiles([]);
  }

  /** The tile at row `p` moves down to the empty row `i`, every row between them empty. */
  lemma MoveStep(col: seq<char>, orig: seq<char>, p: nat, i: nat)
    requires p < i < |col| && col[p] != Empty
    requires forall r :: p < r <= i ==> col[r] == Empty
    requires Tiles(col[..i + 1]) + col[i + 1..] == Tiles(orig)
    ensures Tiles(col[i := col[p]][p := Empty][..i]) + col[i := col[p]][p := Empty][i..] == Tiles(orig)
  {
    TilesBeforeMove(col, p, i);
    TilesAfterMove(col, p, i);
    assert Tiles([col[p]]) == [col[p]] + Tiles([]);
    assert col[i := col[p]][p := Empty][i..] == [col[p]] + col[i + 1..];
  }

  /* ------------------------------------------------------- the board in place */

  /** The board an array holds. */
  function Grid(a: array2<char>): (b: Board)
    reads a
    ensures |b| == a.Length0 && IsRect(b) && (a.Length0 > 0 ==> Width(b) == a.Length1)
    ensures forall r, k :: 0 <= r < a.Length0 && 0 <= k < a.Length1 ==> b[r][k] == a[r, k]
  {
    seq(a.Length0, r requires 0 <= r < a.Length0 reads a =>
      seq(a.Length1, k requires 0 <= k < a.Length1 reads a => a[r, k]))
  }

  /** Two rectangular boards of the same shape and the same cells are equal. */
  lemma BoardsEqual(b: Board, b': Board)
    requires IsRect(b) && IsRect(b') && |b| == |b'| && Width(b) == Width(b')
    requires forall r, k :: 0 <= r < |b| && 0 <= k < Width(b) ==> b[r][k] == b'[r][k]
    ensures b == b'
  {
    forall r | 0 <= r < |b|
      ensures b[r] == b'[r]
    {
    }
  }

  /** `Array2::clone` of a board held as a value. */
  method Clone(b: Board) returns (a: array2<char>)
    requires IsRect(b)
    ensures fresh(a) && a.Length0 == |b| && a.Length1 == Width(b) && Grid(a) == b
  {
    a := new char[|b|, Width(b)]((r, k) requires 0 <= r < |b| && 0 <= k < Width(b) => b[r][k]);
    BoardsEqual(Grid(a), b);
  }

  /**
   * The state of the column loop of `delete_path` with rows `i..` settled
   * and `i2` the row the search for the next tile resumes from.
   */
  ghost predicate ColumnProgress(col: seq<char>, orig: seq<char>, i: nat, i2: nat) {
    && |col| == |orig| && i <= |col| && i2 < |col| && (i > 0 ==> i2 < i)
    && (forall r :: i <= r < |col| ==> col[r] != Empty)
    && Tiles(col[..i]) + col[i..] == Tiles(orig)
    && (i2 + 1 < i ==> forall r :: i2 <= r < i ==> col[r] == Empty)
    && (i > 0 || col == Packed(orig))
  }

  lemma ProgressStart(col: seq<char>)
    requires |col| > 0
    ensures ColumnProgress(col, col, |col|, |col| - 1)
  {
    assert col[..|col|] == col && col[|col|..] == [];
  }

  /** The column loop stops with `i2` at the top row: the column is packed. */
  lemma ProgressTop(col: seq<char>, orig: seq<char>, i: nat)
    requires ColumnProgress(col, orig, i + 1, 0)
    ensures col == Packed(orig)
  {
    PackedWhenSettled(col, orig, i + 1);
  }

  /** Row `i` holds a tile: it stays. */
  lemma ProgressKeep(col: seq<char>, orig: seq<char>, i: nat, i2: nat)
    requires ColumnProgress(col, orig, i + 1, i2) && i2 > 0 && col[i] != Empty
    ensures ColumnProgress(col, orig, i, i2 - 1)
  {
    KeepStep(col, orig, i);
  }

  /** Row `i` is empty: the search for a tile starts at `i2 - 1`, below which nothing was seen. */
  lemma ProgressEmpty(col: seq<char>, orig: seq<char>, i: nat, i2: nat)
    requires ColumnProgress(col, orig, i + 1, i2) && i2 > 0 && col[i] == Empty
    ensures forall r :: i2 <= r <= i ==> col[r] == Empty
  {
  }

  /** The search reached the top row and found it empty: the column is packed. */
  lemma ProgressExhausted(col: seq<char>, orig: seq<char>, i: nat, i2: nat)
    requires ColumnProgress(col, orig, i + 1, i2)
    requires forall r :: 0 <= r <= i ==> col[r] == Empty
    ensures col == Packed(orig)
  {
    PackedWhenSettled(col, orig, i + 1);
  }

  /** The tile found at row `p` moves down to row `i`. */
  lemma ProgressMove(col: seq<char>, orig: seq<char>, i: nat, i2: nat, p: nat)
    requires ColumnProgress(col, orig, i + 1, i2)
    requires p < i && col[p] != Empty && forall r :: p < r <= i ==> col[r] == Empty
    ensures ColumnProgress(col[i := col[p]][p := Empty], orig, i, p)
  {
    MoveStep(col, orig, p, i);
  }

  /** The tile at row `from` of column `j` drops to row `to`, leaving `from` empty. */
  method MoveTile(a: array2<char>, j: nat, from: nat, to: nat, ghost col: seq<char>) returns (ghost col': seq<char>)
    requires j < a.Length1 && from < a.Length0 && to < a.Length0 && from != to && |col| == a.Length0
    requires forall r :: 0 <= r < a.Length0 ==> a[r, j] == col[r]
    modifies a
    ensures col' == col[to := col[from]][from := Empty]
    ensures forall r :: 0 <= r < a.Length0 ==> a[r, j] == col'[r]
    ensures forall r, k :: 0 <= r < a.Length0 && 0 <= k < a.Length1 && k != j ==> a[r, k] == old(a[r, k])
  {
    a[to, j] := a[from, j];
    a[from, j] := Empty;
    col' := col[to := col[from]][from := Empty];
  }

  /**
   * The inner loop of `delete_path` for column `j`: `i` walks up the rows,
   * `i2` looks above `i` for the next tile and moves it down into an empty `i`.
   */
  method SettleColumn(a: array2<char>, j: nat)
    requires j < a.Length1 && a.Length0 > 0
    modifies a
    ensures forall r, k :: 0 <= r < a.Length0 && 0 <= k < a.Length1 && k != j ==> a[r, k] == old(a[r, k])
    ensures forall r :: 0 <= r < a.Length0 ==> a[r, j] == Packed(old(Column(Grid(a), j)))[r]
  {
    var n := a.Length0;
    ghost var orig := Column(Grid(a), j);
    ghost var col := orig;
    ProgressStart(col);
    var i2: nat := n - 1;
    label top:
    for i := n downto 0
      invariant ColumnProgress(col, orig, i, i2)
      invariant forall r :: 0 <= r < n ==> a[r, j] == col[r]
      invariant forall r, k :: 0 <= r < n && 0 <= k < a.Length1 && k != j ==> a[r, k] == old(a[r, k])
    {
      if i2 == 0 {
        ProgressTop(col, orig, i);
        break top;
      }
      ghost var start := i2;
      i2 := i2 - 1;
      if a[i, j] == Empty {
        ProgressEmpty(col, orig, i, start);
        while a[i2, j] == Empty
          invariant i2 < i
          invariant forall r :: i2 < r <= i ==> col[r] == Empty
          decreases i2
        {
          if i2 == 0 {
            ProgressExhausted(col, orig, i, start);
            break top;
          }
          i2 := i2 - 1;
        }
        ProgressMove(col, orig, i, start, i2);
        col := MoveTile(a, j, i2, i, col);
      } else {
        ProgressKeep(col, orig, i, start);
      }
    }
  }

  /** `delete_path`: clears the deletable cells, then lets every column fall. */
  method DeletePath(a: array2<char>, path: Path)
    requires PathInBounds(Grid(a), path)
    modifies a
    ensures Grid(a) == Delete(old(Grid(a)), path)
  {
    ghost var before := Grid(a);
    var d := Deletable(Grid(a), path);
    assert d == DeletableSet(before, path);
    var pending := d;
    while pending != {}
      invariant pending <= d
      invariant forall r, k :: 0 <= r < a.Length0 && 0 <= k < a.Length1 ==>
        a[r, k] == if (r, k) in d - pending then Empty else before[r][k]
      decreases pending
    {
      var c :| c in pending;
      a[c.0, c.1] := Empty;
      pending := pending - {c};
    }
    ghost var cleared := Grid(a);
    BoardsEqual(cleared, Cleared(before, d));
    var n := a.Length0;
    // With no rows `n - 1` underflows for every column: a debug build panics, a release
    // build wraps and its row loop is empty. The release behaviour is the one modelled.
    if n > 0 {
      for j := 0 to a.Length1
        invariant forall r, k :: 0 <= r < n && 0 <= k < a.Length1 ==>
          a[r, k] == if k < j then Packed(Column(cleared, k))[r] else cleared[r][k]
      {
        assert Column(Grid(a), j) == Column(cleared, j);
        SettleColumn(a, j);
      }
    }
    BoardsEqual(Grid(a), Settle(cleared));
  }

  predicate PlaysInBounds(b: Board, plays: seq<Path>) {
    forall k :: 0 <= k < |plays| ==> PathInBounds(b, plays[k])
  }

  /** The board after the plays in order, each by `delete_path`. */
  function Replay(b: Board, plays: seq<Path>): (b': Board)
    requires IsRect(b) && PlaysInBounds(b, plays)
    ensures |b'| == |b| && IsRect(b') && Width(b') == Width(b)
    decreases |plays|
  {
    if plays == [] then b
    else Delete(Replay(b, plays[..|plays| - 1]), plays[|plays| - 1])
  }

  /** One more play continues the replay. */
  lemma ReplaySnoc(b: Board, plays: seq<Path>, p: Path)
    requires IsRect(b) && PlaysInBounds(b, plays) && PathInBounds(b, p)
    ensures PlaysInBounds(b, plays + [p])
    ensures Replay(b, plays + [p]) == Delete(Replay(b, plays), p)
  {
    assert (plays + [p])[..|plays|] == plays;
  }

  /** Whether plays are on the board depends only on its shape. */
  lemma SameShapeInBounds(b: Board, b': Board, plays: seq<Path>)
    requires |b| == |b'| && Width(b) == Width(b') && PlaysInBounds(b, plays)
    ensures PlaysInBounds(b', plays)
  {
    forall k | 0 <= k < |plays|
      ensures PathInBounds(b', plays[k])
    {
      assert PathInBounds(b, plays[k]);
    }
  }

  /** A first play, then the rest from the board it leaves, is a replay of them all. */
  lemma {:induction false} ReplayCons(b: Board, p: Path, plays: seq<Path>)
    requires IsRect(b) && PathInBounds(b, p) && PlaysInBounds(Delete(b, p), plays)
    ensures PlaysInBounds(b, plays) && PlaysInBounds(b, [p] + plays)
    ensures Replay(b, [p] + plays) == Replay(Delete(b, p), plays)
    decreases |plays|
  {
    SameShapeInBounds(Delete(b, p), b, plays);
    if plays != [] {
      var init, last := plays[..|plays| - 1], plays[|plays| - 1];
      assert plays == init + [last];
      SameShapeInBounds(Delete(b, p), b, init);
      ReplayCons(b, p, init);
      assert [p] + plays == ([p] + init) + [last];
      ReplaySnoc(b, [p] + init, last);
      ReplaySnoc(Delete(b, p), init, last);
    }
  }

  /** The plays of a solution made one by one with `delete_path` on a tower in place. */
  method ReplayPlays(a: array2<char>, plays: seq<Path>)
    requires PlaysInBounds(Grid(a), plays)
    modifies a
    ensures Grid(a) == Replay(old(Grid(a)), plays)
  {
    ghost var b := Grid(a);
    for i := 0 to |plays|
      invariant Grid(a) == Replay(b, plays[..i])
    {
      ReplaySnoc(b, plays[..i], plays[i]);
      DeletePath(a, plays[i]);
      TakeSnoc(plays, i);
    }
    TakeAll(plays);
  }

  /* ------------------------------------------------------------ leftovers */

  /** The number of tiles in the first `j` columns. */
  function TilesUpTo(b: Board, j: nat): nat
    requires IsRect(b) && j <= Width(b)
  {
    if j == 0 then 0 else TilesUpTo(b, j - 1) + |Tiles(Column(b, j - 1))|
  }

  /** The number of tiles left on the board. */
  function Leftovers(b: Board): nat
    requires IsRect(b)
  {
    TilesUpTo(b, Width(b))
  }

  /** Every cell is empty: the count of '\0' cells equals the board size. */
  predicate AllEmpty(b: Board) {
    forall r, k :: 0 <= r < |b| && 0 <= k < |b[r]| ==> b[r][k] == Empty
  }

  lemma {:induction false} NoTiles(s: seq<char>)
    ensures Tiles(s) == [] <==> forall i :: 0 <= i < |s| ==> s[i] == Empty
    decreases |s|
  {
    if s != [] {
      NoTiles(s[1..]);
      assert forall i :: 1 <= i < |s| ==> s[i] == s[1..][i - 1];
    }
  }

  lemma {:induction false} TilesUpToZero(b: Board, j: nat)
    requires IsRect(b) && j <= Width(b)
    ensures TilesUpTo(b, j) == 0 <==> forall r, k :: 0 <= r < |b| && 0 <= k < j ==> b[r][k] == Empty
  {
    if j > 0 {
      TilesUpToZero(b, j - 1);
      NoTiles(Column(b, j - 1));
    }
  }

  /** No tile is left exactly when every cell is empty. */
  lemma LeftoversZero(b: Board)
    requires IsRect(b)
    ensures Leftovers(b) == 0 <==> AllEmpty(b)
  {
    TilesUpToZero(b, Width(b));
  }

  /** Emptying some cells of a column never adds tiles, and emptying a tile removes one. */
  lemma {:induction false} ClearedColumnTiles(s: seq<char>, s': seq<char>)
    requires |s| == |s'| && forall i :: 0 <= i < |s| ==> s'[i] == s[i] || s'[i] == Empty
    ensures |Tiles(s')| <= |Tiles(s)|
    ensures (exists i :: 0 <= i < |s| && s[i] != Empty && s'[i] == Empty) ==> |Tiles(s')| < |Tiles(s)|
    decreases |s|
  {
    if s != [] {
      ClearedColumnTiles(s[1..], s'[1..]);
      if exists i :: 0 <= i < |s| && s[i] != Empty && s'[i] == Empty {
        var i :| 0 <= i < |s| && s[i] != Empty && s'[i] == Empty;
        if i > 0 {
          assert s[1..][i - 1] != Empty && s'[1..][i - 1] == Empty;
        }
      }
    }
  }

  lemma {:induction false} TilesUpToMonotone(b: Board, b': Board, j: nat)
    requires IsRect(b) && IsRect(b') && |b| == |b'| && Width(b) == Width(b') && j <= Width(b)
    requires forall k :: 0 <= k < j ==> |Tiles(Column(b', k))| <= |Tiles(Column(b, k))|
    ensures TilesUpTo(b', j) <= TilesUpTo(b, j)
    ensures (exists k :: 0 <= k < j && |Tiles(Column(b', k))| < |Tiles(Column(b, k))|) ==>
      TilesUpTo(b', j) < TilesUpTo(b, j)
  {
    if j > 0 {
      TilesUpToMonotone(b, b', j - 1);
    }
  }

  /** The column of a settled board is the packed column. */
  lemma SettledColumn(b: Board, j: nat)
    requires IsRect(b) && j < Width(b)
    ensures Column(Settle(b), j) == Packed(Column(b, j))
  {
  }

  /**
   * What a play does to column `j`: the deletable cells are emptied and the
   * remaining tiles, in their order, fall to the bottom.
   */
  lemma DeleteColumn(b: Board, path: Path, j: nat)
    requires IsRect(b) && PathInBounds(b, path) && j < Width(b)
    ensures Column(Delete(b, path), j) ==
      Packed(seq(|b|, r requires 0 <= r < |b| => if InDeletable(b, path, (r, j)) then Empty else b[r][j]))
  {
    var c := Cleared(b, DeletableSet(b, path));
    SettledColumn(c, j);
    assert Column(c, j) ==
      seq(|b|, r requires 0 <= r < |b| => if InDeletable(b, path, (r, j)) then Empty else b[r][j]);
  }

  /** After a play no tile sits directly above an empty cell. */
  lemma DeleteSettles(b: Board, path: Path, r: nat, k: nat)
    requires IsRect(b) && PathInBounds(b, path)
    requires r + 1 < |b| && k < Width(b) && Delete(b, path)[r][k] != Empty
    ensures Delete(b, path)[r + 1][k] != Empty
  {
    var c := Cleared(b, DeletableSet(b, path));
    PackedFalls(Column(c, k), r);
  }

  /** A play never adds tiles, and a play through a tile removes at least one. */
  lemma DeleteShrinks(b: Board, path: Path)
    requires IsRect(b) && PathInBounds(b, path)
    ensures Leftovers(Delete(b, path)) <= Leftovers(b)
    ensures (exists k :: 0 <= k < |path| && At(b, path[k]) != Empty) ==> Leftovers(Delete(b, path)) < Leftovers(b)
  {
    var d := DeletableSet(b, path);
    var c := Cleared(b, d);
    var b' := Delete(b, path);
    forall j | 0 <= j < Width(b)
      ensures |Tiles(Column(b', j))| <= |Tiles(Column(b, j))|
      ensures (exists r :: 0 <= r < |b| && (r, j) in d && b[r][j] != Empty) ==>
        |Tiles(Column(b', j))| < |Tiles(Column(b, j))|
    {
      SettledColumn(c, j);
      PackedTiles(Column(c, j));
      ClearedColumnTiles(Column(b, j), Column(c, j));
      if exists r :: 0 <= r < |b| && (r, j) in d && b[r][j] != Empty {
        var r :| 0 <= r < |b| && (r, j) in d && b[r][j] != Empty;
        assert Column(b, j)[r] != Empty && Column(c, j)[r] == Empty;
      }
    }
    TilesUpToMonotone(b, b', Width(b));
    if exists k :: 0 <= k < |path| && At(b, path[k]) != Empty {
      var k :| 0 <= k < |path| && At(b, path[k]) != Empty;
      assert path[k] in d;
      assert |Tiles(Column(b', path[k].1))| < |Tiles(Column(b, path[k].1))|;
    }
  }
}
