/**
 * `find_paths` of src/main.rs: every path through the tower that spells a
 * dictionary word. From each cell whose letter starts a word, `helper`
 * walks the trie in step with the path, tries the eight neighbours of the
 * path's last cell in a fixed order, and reports the path whenever the
 * trie node it reached ends a word.
 */
module Search {
  import opened Wrappers
  import opened Seqs
  import opened Words
  import opened Towers

  /** The neighbour offsets in the order `helper` tries them. */
  const EightNeighbours: seq<(int, int)> :=
    [(-1, -1), (-1, 0), (-1, 1), (0, -1), (0, 1), (1, -1), (1, 0), (1, 1)]

  /** Two distinct cells that touch, sideways or diagonally. */
  predicate Adjacent(a: Coord, c: Coord) {
    a != c && Dist(a.0, c.0) <= 1 && Dist(a.1, c.1) <= 1
  }

  /** The eight offsets reach exactly the adjacent cells. */
  lemma EightOffsets(a: Coord, c: Coord)
    ensures Adjacent(a, c) <==> exists d :: 0 <= d < |EightNeighbours| && Offset(a, EightNeighbours[d]) == Some(c)
  {
    if Adjacent(a, c) {
      var di := c.0 - a.0;
      var dj := c.1 - a.1;
      var d := if di == -1 then (if dj == -1 then 0 else if dj == 0 then 1 else 2)
               else if di == 0 then (if dj == -1 then 3 else 4)
               else (if dj == -1 then 5 else if dj == 0 then 6 else 7);
      assert Offset(a, EightNeighbours[d]) == Some(c);
    }
  }

  /** The letters a path spells, bonus tiles read as upper case. */
  function Letters(b: Board, p: Path): (s: string)
    requires IsRect(b) && PathInBounds(b, p)
    ensures |s| == |p| && forall i :: 0 <= i < |p| ==> s[i] == Upper(At(b, p[i]))
  {
    seq(|p|, i requires 0 <= i < |p| => Upper(At(b, p[i])))
  }

  predicate Distinct(p: Path) {
    forall i, j :: 0 <= i < j < |p| ==> p[i] != p[j]
  }

  /** Each cell of the path touches the one before it. */
  predicate Chained(p: Path) {
    forall i :: 0 < i < |p| ==> Adjacent(p[i - 1], p[i])
  }

  /**
   * A play: a non-empty chain of distinct adjacent cells of the board whose
   * letters spell a word of the dictionary.
   */
  predicate IsWordPath(b: Board, t: Trie, p: Path)
    requires IsRect(b) && WellFormed(t)
  {
    |p| > 0 && PathInBounds(b, p) && Distinct(p) && Chained(p) && Accepts(t, Letters(b, p))
  }

  /** A path under way in `helper`: `node` is where its letters lead from the root. */
  predicate Partial(b: Board, t: Trie, path: Path, node: nat)
    requires IsRect(b) && WellFormed(t)
  {
    && |path| > 0 && PathInBounds(b, path) && Distinct(path) && Chained(path)
    && Walk(t, 0, Letters(b, path)) == Some(node)
  }

  /** The cells of the board a path has not visited: the measure the search shrinks. */
  function Unvisited(b: Board, path: Path): set<Coord> {
    set r: nat, k: nat | r < |b| && k < Width(b) && (r, k) !in path :: (r, k)
  }

  lemma UnvisitedShrinks(b: Board, path: Path, c: Coord)
    requires InBounds(b, c) && c !in path
    ensures |Unvisited(b, path + [c])| < |Unvisited(b, path)|
  {
    assert Unvisited(b, path) == Unvisited(b, path + [c]) + {c};
  }

  /** The paths `helper` reports for `path`, whose letters led to trie node `node`. */
  function PathsFrom(b: Board, t: Trie, path: Path, node: nat): seq<Path>
    requires IsRect(b) && WellFormed(t) && node < |t.children| && |path| > 0 && PathInBounds(b, path)
    decreases |Unvisited(b, path)|, 2, 0
  {
    (if t.isEnd[node] then [path] else []) + ExtendFrom(b, t, path, node, 0)
  }

  /** The paths found through the neighbour offsets `d..` of the path's last cell. */
  function ExtendFrom(b: Board, t: Trie, path: Path, node: nat, d: nat): seq<Path>
    requires IsRect(b) && WellFormed(t) && node < |t.children| && |path| > 0 && PathInBounds(b, path)
    requires d <= |EightNeighbours|
    decreases |Unvisited(b, path)|, 1, |EightNeighbours| - d
  {
    if d == |EightNeighbours| then [] else Branch(b, t, path, node, d) + ExtendFrom(b, t, path, node, d + 1)
  }

  /**
   * The paths found through neighbour offset `d`: none when the neighbour is
   * off the board, already on the path, or its letter has no child in the trie.
   */
  function Branch(b: Board, t: Trie, path: Path, node: nat, d: nat): seq<Path>
    requires IsRect(b) && WellFormed(t) && node < |t.children| && |path| > 0 && PathInBounds(b, path)
    requires d < |EightNeighbours|
    decreases |Unvisited(b, path)|, 0, 0
  {
    match Offset(path[|path| - 1], EightNeighbours[d])
    case None => []
    case Some(c) =>
      if c in path || !InBounds(b, c) then []
      else
        match Get(t, node, Upper(At(b, c)))
        case None => []
        case Some(child) =>
          UnvisitedShrinks(b, path, c);
          PathsFrom(b, t, path + [c], child)
  }

  /** `helper`. */
  method Helper(b: Board, t: Trie, path: Path, node: nat) returns (paths: seq<Path>)
    requires IsRect(b) && WellFormed(t) && node < |t.children| && |path| > 0 && PathInBounds(b, path)
    ensures paths == PathsFrom(b, t, path, node)
    decreases |Unvisited(b, path)|
  {
    paths := [];
    if t.isEnd[node] {
      paths := paths + [path];
    }
    var last := path[|path| - 1];
    for d := 0 to |EightNeighbours|
      invariant paths + ExtendFrom(b, t, path, node, d) == PathsFrom(b, t, path, node)
    {
      var found: seq<Path> := [];
      match Offset(last, EightNeighbours[d]) {
        case None =>
        case Some(next) =>
          if next !in path && InBounds(b, next) {
            match Get(t, node, Upper(b[next.0][next.1])) {
              case None =>
              case Some(child) =>
                UnvisitedShrinks(b, path, next);
                found := Helper(b, t, path + [next], child);
            }
          }
      }
      ExtendStep(b, t, path, node, d, paths, found);
      paths := paths + found;
    }
  }

  /** One neighbour offset of the search: its branch moves from what is left onto what has been found. */
  lemma ExtendStep(b: Board, t: Trie, path: Path, node: nat, d: nat, paths: seq<Path>, found: seq<Path>)
    requires IsRect(b) && WellFormed(t) && node < |t.children| && |path| > 0 && PathInBounds(b, path)
    requires d < |EightNeighbours|
    requires paths + ExtendFrom(b, t, path, node, d) == PathsFrom(b, t, path, node)
    requires found == Branch(b, t, path, node, d)
    ensures paths + found + ExtendFrom(b, t, path, node, d + 1) == PathsFrom(b, t, path, node)
  {
    Regroup(paths, found, ExtendFrom(b, t, path, node, d + 1), ExtendFrom(b, t, path, node, d), PathsFrom(b, t, path, node));
  }

  /** The paths that start at cell `c`. */
  function StartPaths(b: Board, t: Trie, c: Coord): seq<Path>
    requires IsRect(b) && WellFormed(t) && InBounds(b, c)
  {
    match Get(t, 0, Upper(At(b, c)))
    case None => []
    case Some(child) => PathsFrom(b, t, [c], child)
  }

  /** The paths that start at a cell from (i, j) on, in row-major order. */
  function PathsAfter(b: Board, t: Trie, i: nat, j: nat): seq<Path>
    requires IsRect(b) && WellFormed(t)
    decreases |b| - i, Width(b) - j
  {
    if i >= |b| then []
    else if j >= Width(b) then PathsAfter(b, t, i + 1, 0)
    else StartPaths(b, t, (i, j)) + PathsAfter(b, t, i, j + 1)
  }

  /** Everything `find_paths` returns, in the order it returns it. */
  function WordPaths(b: Board, t: Trie): seq<Path>
    requires IsRect(b) && WellFormed(t)
  {
    PathsAfter(b, t, 0, 0)
  }

  /** `find_paths`: the start cells in row-major order, each searched by `helper`. */
  method FindPaths(b: Board, t: Trie) returns (paths: seq<Path>)
    requires IsRect(b) && WellFormed(t)
    ensures paths == WordPaths(b, t)
  {
    var n, m := |b|, Width(b);
    paths := [];
    for i := 0 to n
      invariant paths + PathsAfter(b, t, i, 0) == WordPaths(b, t)
    {
      for j := 0 to m
        invariant paths + PathsAfter(b, t, i, j) == WordPaths(b, t)
      {
        var start: Coord := (i, j);
        var found: seq<Path> := [];
        match Get(t, 0, Upper(b[i][j])) {
          case None =>
          case Some(child) =>
            found := Helper(b, t, [start], child);
        }
        PathsAfterStep(b, t, i, j, paths, found);
        paths := paths + found;
      }
    }
  }

  /** One start cell of `find_paths`: its paths, then those of the cells after it. */
  lemma PathsAfterStep(b: Board, t: Trie, i: nat, j: nat, paths: seq<Path>, found: seq<Path>)
    requires IsRect(b) && WellFormed(t) && i < |b| && j < Width(b)
    requires paths + PathsAfter(b, t, i, j) == WordPaths(b, t)
    requires found == StartPaths(b, t, (i, j))
    ensures paths + found + PathsAfter(b, t, i, j + 1) == WordPaths(b, t)
    ensures j + 1 == Width(b) ==> PathsAfter(b, t, i, j + 1) == PathsAfter(b, t, i + 1, 0)
  {
    Regroup(paths, found, PathsAfter(b, t, i, j + 1), PathsAfter(b, t, i, j), WordPaths(b, t));
  }

  /** The letters of a path one cell longer. */
  lemma LettersSnoc(b: Board, p: Path, c: Coord)
    requires IsRect(b) && PathInBounds(b, p) && InBounds(b, c)
    ensures PathInBounds(b, p + [c])
    ensures Letters(b, p + [c]) == Letters(b, p) + [Upper(At(b, c))]
  {
    assert PathInBounds(b, p + [c]) by {
      forall k | 0 <= k < |p + [c]| ensures InBounds(b, (p + [c])[k]) {
        if k < |p| { assert (p + [c])[k] == p[k]; }
      }
    }
  }

  /** The letters of a prefix of a path are the prefix of its letters. */
  lemma LettersTake(b: Board, p: Path, k: nat)
    requires IsRect(b) && PathInBounds(b, p) && k <= |p|
    ensures PathInBounds(b, p[..k]) && Letters(b, p[..k]) == Letters(b, p)[..k]
  {
    assert PathInBounds(b, p[..k]) by {
      forall i | 0 <= i < k ensures InBounds(b, p[..k][i]) {
        assert p[..k][i] == p[i];
      }
    }
  }

  /** A neighbour the search steps to from a partial path leaves a longer partial path. */
  lemma PartialSnoc(b: Board, t: Trie, path: Path, node: nat, d: nat, c: Coord, child: nat)
    requires IsRect(b) && WellFormed(t) && node < |t.children| && Partial(b, t, path, node)
    requires d < |EightNeighbours| && Offset(path[|path| - 1], EightNeighbours[d]) == Some(c)
    requires c !in path && InBounds(b, c) && Get(t, node, Upper(At(b, c))) == Some(child)
    ensures Partial(b, t, path + [c], child)
  {
    var p := path + [c];
    LettersSnoc(b, path, c);
    WalkSnoc(t, 0, Letters(b, path), Upper(At(b, c)));
    EightOffsets(path[|path| - 1], c);
    assert Distinct(p) by {
      forall i, j | 0 <= i < j < |p| ensures p[i] != p[j] {
        if j < |path| { assert p[i] == path[i] && p[j] == path[j]; }
        else { assert p[i] == path[i]; }
      }
    }
    assert Chained(p) by {
      forall i | 0 < i < |p| ensures Adjacent(p[i - 1], p[i]) {
        if i < |path| { assert p[i - 1] == path[i - 1] && p[i] == path[i]; }
      }
    }
  }

  /**
   * Soundness of `helper`: every path it reports for a partial path is a
   * word path that begins with it.
   */
  lemma {:induction false} PathsFromSound(b: Board, t: Trie, path: Path, node: nat, p: Path)
    requires IsRect(b) && WellFormed(t) && node < |t.children| && Partial(b, t, path, node)
    requires p in PathsFrom(b, t, path, node)
    ensures IsWordPath(b, t, p) && path <= p
    decreases |Unvisited(b, path)|, 2, 0
  {
    if !(t.isEnd[node] && p == path) {
      ExtendFromSound(b, t, path, node, 0, p);
    }
  }

  lemma {:induction false} ExtendFromSound(b: Board, t: Trie, path: Path, node: nat, d: nat, p: Path)
    requires IsRect(b) && WellFormed(t) && node < |t.children| && Partial(b, t, path, node)
    requires d <= |EightNeighbours| && p in ExtendFrom(b, t, path, node, d)
    ensures IsWordPath(b, t, p) && path <= p
    decreases |Unvisited(b, path)|, 1, |EightNeighbours| - d
  {
    if p in Branch(b, t, path, node, d) {
      BranchSound(b, t, path, node, d, p);
    } else {
      ExtendFromSound(b, t, path, node, d + 1, p);
    }
  }

  lemma {:induction false} BranchSound(b: Board, t: Trie, path: Path, node: nat, d: nat, p: Path)
    requires IsRect(b) && WellFormed(t) && node < |t.children| && Partial(b, t, path, node)
    requires d < |EightNeighbours| && p in Branch(b, t, path, node, d)
    ensures IsWordPath(b, t, p) && path <= p
    decreases |Unvisited(b, path)|, 0, 0
  {
    var c := Offset(path[|path| - 1], EightNeighbours[d]).value;
    var child := Get(t, node, Upper(At(b, c))).value;
    UnvisitedShrinks(b, path, c);
    PartialSnoc(b, t, path, node, d, c, child);
    PathsFromSound(b, t, path + [c], child, p);
  }

  /** A path found through neighbour offset `d` is found by every search from an earlier offset. */
  lemma {:induction false} BranchInExtend(b: Board, t: Trie, path: Path, node: nat, d0: nat, d: nat, p: Path)
    requires IsRect(b) && WellFormed(t) && node < |t.children| && |path| > 0 && PathInBounds(b, path)
    requires d0 <= d < |EightNeighbours| && p in Branch(b, t, path, node, d)
    ensures p in ExtendFrom(b, t, path, node, d0)
    decreases d - d0
  {
    if d0 < d {
      BranchInExtend(b, t, path, node, d0 + 1, d, p);
    }
  }

  /**
   * Completeness of `helper`: a word path is reported by the search from each
   * of its non-empty prefixes.
   */
  lemma {:induction false} PathsFromComplete(b: Board, t: Trie, p: Path, k: nat, node: nat)
    requires IsRect(b) && WellFormed(t) && IsWordPath(b, t, p) && 0 < k <= |p|
    requires node < |t.children| && PathInBounds(b, p[..k]) && Walk(t, 0, Letters(b, p[..k])) == Some(node)
    ensures p in PathsFrom(b, t, p[..k], node)
    decreases |p| - k
  {
    if k == |p| {
      assert p[..k] == p;
    } else {
      var c := p[k];
      var path := p[..k];
      assert p[..k + 1] == path + [c];
      EightOffsets(path[|path| - 1], c);
      assert Adjacent(p[k - 1], p[k]);
      var d :| 0 <= d < |EightNeighbours| && Offset(path[|path| - 1], EightNeighbours[d]) == Some(c);
      assert c !in path by {
        forall i | 0 <= i < k ensures path[i] != c { assert path[i] == p[i]; }
      }
      LettersTake(b, p, k + 1);
      LettersSnoc(b, path, c);
      WalkPrefix(t, 0, Letters(b, p), k + 1);
      WalkSnoc(t, 0, Letters(b, path), Upper(At(b, c)));
      var child := Get(t, node, Upper(At(b, c))).value;
      PathsFromComplete(b, t, p, k + 1, child);
      assert p in Branch(b, t, path, node, d);
      BranchInExtend(b, t, path, node, 0, d, p);
    }
  }

  /** The start cells from (i, j) on, in row-major order. */
  predicate AtOrAfter(b: Board, c: Coord, i: nat, j: nat) {
    InBounds(b, c) && (c.0 > i || (c.0 == i && c.1 >= j))
  }

  lemma {:induction false} PathsAfterSound(b: Board, t: Trie, i: nat, j: nat, p: Path)
    requires IsRect(b) && WellFormed(t) && p in PathsAfter(b, t, i, j)
    ensures IsWordPath(b, t, p) && AtOrAfter(b, p[0], i, j)
    decreases |b| - i, Width(b) - j
  {
    if j >= Width(b) {
      PathsAfterSound(b, t, i + 1, 0, p);
    } else if p in StartPaths(b, t, (i, j)) {
      var c: Coord := (i, j);
      var child := Get(t, 0, Upper(At(b, c))).value;
      assert Letters(b, [c]) == [Upper(At(b, c))];
      assert Walk(t, 0, [Upper(At(b, c))]) == Walk(t, child, []);
      PathsFromSound(b, t, [c], child, p);
    } else {
      PathsAfterSound(b, t, i, j + 1, p);
    }
  }

  lemma {:induction false} PathsAfterComplete(b: Board, t: Trie, i: nat, j: nat, p: Path)
    requires IsRect(b) && WellFormed(t) && IsWordPath(b, t, p) && AtOrAfter(b, p[0], i, j)
    ensures p in PathsAfter(b, t, i, j)
    decreases |b| - i, Width(b) - j
  {
    if j >= Width(b) {
      PathsAfterComplete(b, t, i + 1, 0, p);
    } else if p[0] == (i, j) {
      var c: Coord := (i, j);
      LettersTake(b, p, 1);
      WalkPrefix(t, 0, Letters(b, p), 1);
      assert p[..1] == [c];
      assert Letters(b, p[..1]) == [Upper(At(b, c))];
      var child := Get(t, 0, Upper(At(b, c))).value;
      assert Walk(t, 0, [Upper(At(b, c))]) == Walk(t, child, []);
      PathsFromComplete(b, t, p, 1, child);
    } else {
      PathsAfterComplete(b, t, i, j + 1, p);
    }
  }

  /** Every cell of a word path holds a letter tile: none is empty or blank. */
  lemma WordPathTiles(b: Board, t: Trie, p: Path)
    requires IsRect(b) && WellFormed(t) && IsWordPath(b, t, p)
    ensures forall k :: 0 <= k < |p| ==> IsUpperLetter(Upper(At(b, p[k]))) && At(b, p[k]) != Empty
  {
    WalkLetters(t, 0, Letters(b, p));
  }

  /** `find_paths` reports exactly the word paths of the board. */
  lemma WordPathsExact(b: Board, t: Trie, p: Path)
    requires IsRect(b) && WellFormed(t)
    ensures p in WordPaths(b, t) <==> IsWordPath(b, t, p)
  {
    if p in WordPaths(b, t) {
      PathsAfterSound(b, t, 0, 0, p);
    }
    if IsWordPath(b, t, p) {
      PathsAfterComplete(b, t, 0, 0, p);
    }
  }

  /** A board without a letter tile offers no word at all. */
  lemma NoLettersNoPaths(b: Board, t: Trie)
    requires IsRect(b) && WellFormed(t)
    requires forall r, k :: 0 <= r < |b| && 0 <= k < Width(b) ==> !IsUpperLetter(Upper(b[r][k]))
    ensures WordPaths(b, t) == []
  {
    if WordPaths(b, t) != [] {
      var p := WordPaths(b, t)[0];
      WordPathsExact(b, t, p);
      WordPathTiles(b, t, p);
      assert false;
    }
  }
}
