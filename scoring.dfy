/**
 * The scoring rules of src/main.rs: letter values, the score of one play
 * and the score of a whole solution with its two end-of-game bonuses.
 */
module Scoring {
  import opened Seqs
  import opened Towers

  /** The value of each letter, 'A' first. */
  const LetterValues: seq<nat> :=
    [1, 4, 4, 3, 1, 5, 3, 5, 1, 9, 6, 2, 4, 2, 1, 4, 12, 2, 1, 2, 1, 5, 5, 9, 5, 11]

  /**
   * `score_letter`: the table value of an upper-case letter and 0 for
   * anything else. The four letters that clear their row are exactly the
   * ones worth 9 or more.
   */
  function ScoreLetter(c: char): (s: nat)
    ensures 'A' <= c <= 'Z' ==> 1 <= s <= 12
    ensures !('A' <= c <= 'Z') ==> s == 0
    ensures ClearsRow(c) <==> s >= 9
  {
    if 'A' <= c <= 'Z' then LetterValues[(c as int) - ('A' as int)] else 0
  }

  /** The value a cleared cell adds: its letter, read as upper case. */
  function CellValue(b: Board, c: Coord): nat
    requires IsRect(b) && InBounds(b, c)
  {
    ScoreLetter(Upper(At(b, c)))
  }

  /** The values of the cells of `d` among the first `k` cells of row `r`. */
  function RowValue(b: Board, d: set<Coord>, r: nat, k: nat): nat
    requires IsRect(b) && r < |b| && k <= Width(b)
  {
    if k == 0 then 0
    else RowValue(b, d, r, k - 1) + (if (r, k - 1) in d then CellValue(b, (r, k - 1)) else 0)
  }

  /** The values of the cells of `d` among the first `r` rows. */
  function BoardValue(b: Board, d: set<Coord>, r: nat): nat
    requires IsRect(b) && r <= |b|
  {
    if r == 0 then 0 else BoardValue(b, d, r - 1) + RowValue(b, d, r - 1, Width(b))
  }

  /**
   * The values of the cells a play clears. The source adds them up while
   * iterating a hash set; a sum does not depend on the order, so the cells
   * are taken here in row-major order.
   */
  function ClearedValue(b: Board, path: Path): nat
    requires IsRect(b) && PathInBounds(b, path)
  {
    BoardValue(b, DeletableSet(b, path), |b|)
  }

  /** The number of bonus (lower-case) tiles on the path, a cell counted each time it appears. */
  function Bonuses(b: Board, path: Path): (n: nat)
    requires IsRect(b) && PathInBounds(b, path)
    ensures n <= |path|
    ensures n == 0 <==> forall k :: 0 <= k < |path| ==> !IsLower(At(b, path[k]))
  {
    if path == [] then 0
    else Bonuses(b, path[..|path| - 1]) + (if IsLower(At(b, path[|path| - 1])) then 1 else 0)
  }

  /**
   * `score_path`: the value of every cleared cell, times the length of the
   * word, times one more than the number of bonus tiles on the path.
   */
  function ScorePath(b: Board, path: Path): (s: nat)
    requires IsRect(b) && PathInBounds(b, path)
    ensures s == 0 <==> ClearedValue(b, path) == 0 || |path| == 0
  {
    ProductNonNegative(ClearedValue(b, path), |path|, Bonuses(b, path) + 1);
    ClearedValue(b, path) * |path| * (Bonuses(b, path) + 1)
  }

  lemma ProductNonNegative(x: int, l: int, m: int)
    requires x >= 0 && l >= 0 && m >= 0
    ensures x * l * m >= 0
  {
    assert x * l >= 0;
  }

  /** A cell of `d` in the first `k` cells of row `r` adds its value to the row. */
  lemma {:induction false} RowValueCovers(b: Board, d: set<Coord>, r: nat, k: nat, c: Coord)
    requires IsRect(b) && r < |b| && k <= Width(b)
    requires c in d && c.0 == r && c.1 < k
    ensures CellValue(b, c) <= RowValue(b, d, r, k)
  {
    if c.1 < k - 1 {
      RowValueCovers(b, d, r, k - 1, c);
    }
  }

  /** A cell of `d` in the first `r` rows adds its value to the board. */
  lemma {:induction false} BoardValueCovers(b: Board, d: set<Coord>, r: nat, c: Coord)
    requires IsRect(b) && r <= |b| && InBounds(b, c)
    requires c in d && c.0 < r
    ensures CellValue(b, c) <= BoardValue(b, d, r)
  {
    if c.0 < r - 1 {
      BoardValueCovers(b, d, r - 1, c);
    } else {
      RowValueCovers(b, d, r - 1, Width(b), c);
    }
  }

  /**
   * Every cell of the path is cleared, so each path cell's letter, times the
   * word length and the bonus factor, is part of the score.
   */
  lemma PathCellScores(b: Board, path: Path, k: nat)
    requires IsRect(b) && PathInBounds(b, path) && k < |path|
    ensures CellValue(b, path[k]) * |path| * (Bonuses(b, path) + 1) <= ScorePath(b, path)
  {
    BoardValueCovers(b, DeletableSet(b, path), |b|, path[k]);
    assert ScorePath(b, path) == ClearedValue(b, path) * |path| * (Bonuses(b, path) + 1);
    ScaleMonotone(CellValue(b, path[k]), ClearedValue(b, path), |path|, Bonuses(b, path) + 1);
  }

  lemma ScaleMonotone(x: int, y: int, l: int, m: int)
    requires 0 <= x <= y && 0 <= l && 0 <= m
    ensures x * l * m <= y * l * m
  {
    assert x * l <= y * l;
  }

  /** A play through a letter tile always scores. */
  lemma ScorePathPositive(b: Board, path: Path, k: nat)
    requires IsRect(b) && PathInBounds(b, path) && k < |path|
    requires 'A' <= Upper(At(b, path[k])) <= 'Z'
    ensures ScorePath(b, path) > 0
  {
    PathCellScores(b, path, k);
    ProductPositive(CellValue(b, path[k]), |path|, Bonuses(b, path) + 1);
  }

  lemma ProductPositive(x: int, l: int, m: int)
    requires x >= 1 && l >= 1 && m >= 1
    ensures x * l * m >= 1
  {
    assert x * l >= 1;
  }

  /** `is_almost_there`: no column holds more than two tiles. */
  predicate AlmostThere(b: Board)
    requires IsRect(b)
  {
    forall j :: 0 <= j < Width(b) ==> |Tiles(Column(b, j))| <= 2
  }

  /** The number of empty cells among the first `k` cells of row `r`. */
  function EmptiesInRow(row: seq<char>, k: nat): (n: nat)
    requires k <= |row|
    ensures n <= k
    ensures n == k <==> forall i :: 0 <= i < k ==> row[i] == Empty
  {
    if k == 0 then 0 else EmptiesInRow(row, k - 1) + (if row[k - 1] == Empty then 1 else 0)
  }

  /** The number of empty cells in the first `r` rows. */
  function EmptyCount(b: Board, r: nat): (n: nat)
    requires IsRect(b) && r <= |b|
    ensures n <= r * Width(b)
    ensures n == r * Width(b) <==> forall i, k :: 0 <= i < r && 0 <= k < Width(b) ==> b[i][k] == Empty
  {
    if r == 0 then 0
    else
      var n := EmptyCount(b, r - 1) + EmptiesInRow(b[r - 1], Width(b));
      assert r * Width(b) == (r - 1) * Width(b) + Width(b);
      n
  }

  /** The source's test for a cleared board: as many empty cells as cells. */
  predicate Emptied(b: Board)
    requires IsRect(b)
  {
    EmptyCount(b, |b|) == |b| * Width(b)
  }

  lemma EmptiedIsAllEmpty(b: Board)
    requires IsRect(b)
    ensures Emptied(b) <==> AllEmpty(b)
  {
  }

  /** A cleared board is also almost there: both bonuses come together. */
  lemma EmptiedAlmostThere(b: Board)
    requires IsRect(b) && Emptied(b)
    ensures AlmostThere(b)
  {
    forall j | 0 <= j < Width(b)
      ensures |Tiles(Column(b, j))| <= 2
    {
      NoTiles(Column(b, j));
    }
  }

  /** Almost there leaves at most two tiles per column on the board. */
  lemma AlmostThereLeftovers(b: Board)
    requires IsRect(b) && AlmostThere(b)
    ensures Leftovers(b) <= 2 * Width(b)
  {
    AlmostThereUpTo(b, Width(b));
  }

  lemma {:induction false} AlmostThereUpTo(b: Board, j: nat)
    requires IsRect(b) && AlmostThere(b) && j <= Width(b)
    ensures TilesUpTo(b, j) <= 2 * j
  {
    if j > 0 {
      AlmostThereUpTo(b, j - 1);
    }
  }

  /** The sum of the play scores, each on the board the plays before it left. */
  function PlayScores(b: Board, plays: seq<Path>): nat
    requires IsRect(b) && PlaysInBounds(b, plays)
    decreases |plays|
  {
    if plays == [] then 0
    else
      var before := plays[..|plays| - 1];
      PlayScores(b, before) + ScorePath(Replay(b, before), plays[|plays| - 1])
  }

  /** The two end-of-game bonuses on the board a solution leaves. */
  function Bonus(b: Board): (n: nat)
    requires IsRect(b)
    ensures n == 0 || n == 1000 || n == 2000
    ensures n == 2000 <==> AllEmpty(b)
    ensures n >= 1000 <==> AlmostThere(b)
  {
    if Emptied(b) then EmptiedAlmostThere(b); 2000
    else if AlmostThere(b) then 1000
    else 0
  }

  /** What `score_solution` returns. */
  function SolutionScore(b: Board, plays: seq<Path>): nat
    requires IsRect(b) && PlaysInBounds(b, plays)
  {
    PlayScores(b, plays) + Bonus(Replay(b, plays))
  }

  /** A solution that clears the tower earns both bonuses on top of its plays. */
  lemma ClearingSolutionScore(b: Board, plays: seq<Path>)
    requires IsRect(b) && PlaysInBounds(b, plays) && Leftovers(Replay(b, plays)) == 0
    ensures SolutionScore(b, plays) == PlayScores(b, plays) + 2000
  {
    LeftoversZero(Replay(b, plays));
  }

  /**
   * One more play adds its score on the board the earlier plays left; the
   * bonuses are judged again on the new final board.
   */
  lemma PlayScoresSnoc(b: Board, plays: seq<Path>, p: Path)
    requires IsRect(b) && PlaysInBounds(b, plays) && PathInBounds(b, p)
    ensures PlaysInBounds(b, plays + [p])
    ensures PlayScores(b, plays + [p]) == PlayScores(b, plays) + ScorePath(Replay(b, plays), p)
  {
    ReplaySnoc(b, plays, p);
    assert (plays + [p])[..|plays|] == plays;
  }

  /** The state of the loop of `score_solution` after `i` plays. */
  ghost predicate Scored(b: Board, plays: seq<Path>, i: nat, board: Board, total: nat)
    requires IsRect(b) && PlaysInBounds(b, plays)
  {
    && i <= |plays| && PlaysInBounds(b, plays[..i])
    && board == Replay(b, plays[..i])
    && total == PlayScores(b, plays[..i])
  }

  lemma ScoredStart(b: Board, plays: seq<Path>)
    requires IsRect(b) && PlaysInBounds(b, plays)
    ensures Scored(b, plays, 0, b, 0)
  {
    assert plays[..0] == [];
  }

  lemma ScoredStep(b: Board, plays: seq<Path>, i: nat, board: Board, total: nat)
    requires IsRect(b) && PlaysInBounds(b, plays) && i < |plays|
    requires Scored(b, plays, i, board, total)
    ensures PathInBounds(board, plays[i])
    ensures Scored(b, plays, i + 1, Delete(board, plays[i]), total + ScorePath(board, plays[i]))
  {
    PlayScoresSnoc(b, plays[..i], plays[i]);
    TakeSnoc(plays, i);
  }

  lemma ScoredEnd(b: Board, plays: seq<Path>, board: Board, total: nat)
    requires IsRect(b) && PlaysInBounds(b, plays)
    requires Scored(b, plays, |plays|, board, total)
    ensures IsRect(board)
    ensures SolutionScore(b, plays) == total
      + (if AlmostThere(board) then 1000 else 0)
      + (if EmptyCount(board, |board|) == |board| * Width(board) then 1000 else 0)
  {
    TakeAll(plays);
    if Emptied(board) {
      EmptiedAlmostThere(board);
    }
  }

  /**
   * `score_solution`: plays the solution on a copy of the tower, adding up
   * each play's score before it is made, then the bonuses.
   */
  method ScoreSolution(b: Board, solution: seq<Path>) returns (total: nat)
    requires IsRect(b) && PlaysInBounds(b, solution)
    ensures total == SolutionScore(b, solution)
  {
    var tower := Clone(b);
    total := 0;
    ScoredStart(b, solution);
    for i := 0 to |solution|
      invariant Scored(b, solution, i, Grid(tower), total)
    {
      ghost var before := Grid(tower);
      var path := solution[i];
      total := total + ScorePath(Grid(tower), path);
      DeletePath(tower, path);
      ScoredStep(b, solution, i, before, total - ScorePath(before, path));
    }
    ghost var played := total;
    if AlmostThere(Grid(tower)) {
      total := total + 1000;
    }
    if EmptyCount(Grid(tower), |Grid(tower)|) == |Grid(tower)| * Width(Grid(tower)) {
      total := total + 1000;
    }
    ScoredEnd(b, solution, Grid(tower), played);
  }
}
