/**
 * The solvers of src/main.rs: `solve_greedy` plays the best-scoring word
 * until none is left, and `nudge_solution` keeps a random number of the
 * first plays of a solution, makes one random play and completes the rest
 * greedily.
 */
module Solvers {
  import opened Seqs
  import opened Words
  import opened Towers
  import opened Search
  import opened Scoring

  /* ------------------------------------------------------------ max_by_key */

  /**
   * `max_by_key` on the scores of the candidates: the highest score, and of
   * several equal highest scores the last one.
   */
  function BestIndex(b: Board, ps: seq<Path>): (i: nat)
    requires IsRect(b) && PlaysInBounds(b, ps) && |ps| > 0
    ensures i < |ps|
    ensures forall k :: 0 <= k < |ps| ==> ScorePath(b, ps[k]) <= ScorePath(b, ps[i])
    ensures forall k :: i < k < |ps| ==> ScorePath(b, ps[k]) < ScorePath(b, ps[i])
  {
    var keys := Scores(b, ps);
    LastMax(keys)
  }

  /** The score of each candidate, in order. */
  function Scores(b: Board, ps: seq<Path>): (keys: seq<nat>)
    requires IsRect(b) && PlaysInBounds(b, ps)
    ensures |keys| == |ps|
    ensures forall k :: 0 <= k < |ps| ==> keys[k] == ScorePath(b, ps[k])
    decreases |ps|
  {
    if ps == [] then [] else [ScorePath(b, ps[0])] + Scores(b, ps[1..])
  }

  /**
   * The fold of `max_by_key` over the keys: a later key at least as large
   * replaces the maximum so far.
   */
  function LastMax(keys: seq<nat>): (i: nat)
    requires |keys| > 0
    ensures i < |keys|
    ensures forall k :: 0 <= k < |keys| ==> keys[k] <= keys[i]
    ensures forall k :: i < k < |keys| ==> keys[k] < keys[i]
    decreases |keys|
  {
    if |keys| == 1 then 0
    else
      var i := LastMax(keys[..|keys| - 1]);
      if keys[i] <= keys[|keys| - 1] then |keys| - 1 else i
  }

  /* ------------------------------------------------------------ legal plays */

  /** Each play is a word path on the board the plays before it left. */
  predicate Legal(b: Board, t: Trie, plays: seq<Path>)
    requires IsRect(b) && WellFormed(t)
    decreases |plays|
  {
    plays == [] || (IsWordPath(b, t, plays[0]) && Legal(Delete(b, plays[0]), t, plays[1..]))
  }

  /** The candidates `find_paths` offers are all on the board. */
  lemma CandidatesInBounds(b: Board, t: Trie)
    requires IsRect(b) && WellFormed(t)
    ensures PlaysInBounds(b, WordPaths(b, t))
  {
    forall k | 0 <= k < |WordPaths(b, t)|
      ensures PathInBounds(b, WordPaths(b, t)[k])
    {
      WordPathsExact(b, t, WordPaths(b, t)[k]);
    }
  }

  /** A word play always clears a tile, so the tiles left strictly decrease. */
  lemma PlayShrinks(b: Board, t: Trie, p: Path)
    requires IsRect(b) && WellFormed(t) && IsWordPath(b, t, p)
    ensures Leftovers(Delete(b, p)) < Leftovers(b)
  {
    WordPathTiles(b, t, p);
    DeleteShrinks(b, p);
  }

  /**
   * What legality means for a replay: play `k` of a legal sequence is a word
   * path on the board `Replay` gives for the plays before it.
   */
  lemma {:induction false} LegalReplay(b: Board, t: Trie, plays: seq<Path>, k: nat)
    requires IsRect(b) && WellFormed(t) && Legal(b, t, plays) && k < |plays|
    ensures PlaysInBounds(b, plays[..k])
    ensures IsWordPath(Replay(b, plays[..k]), t, plays[k])
    decreases k
  {
    var p := plays[0];
    if k == 0 {
      assert plays[..0] == [];
    } else {
      var rest := plays[1..];
      LegalReplay(Delete(b, p), t, rest, k - 1);
      HeadTail(plays);
      ConsTake(p, rest, k - 1);
      ReplayCons(b, p, rest[..k - 1]);
    }
  }

  /** A legal sequence stays on the board. */
  lemma LegalInBounds(b: Board, t: Trie, plays: seq<Path>)
    requires IsRect(b) && WellFormed(t) && Legal(b, t, plays)
    ensures PlaysInBounds(b, plays)
  {
    forall k | 0 <= k < |plays|
      ensures PathInBounds(b, plays[k])
    {
      LegalReplay(b, t, plays, k);
    }
  }

  /** The first `cut` plays of a legal sequence are legal. */
  lemma {:induction false} LegalPrefix(b: Board, t: Trie, plays: seq<Path>, cut: nat)
    requires IsRect(b) && WellFormed(t) && Legal(b, t, plays) && cut <= |plays|
    ensures Legal(b, t, plays[..cut])
    decreases cut
  {
    if cut > 0 {
      LegalPrefix(Delete(b, plays[0]), t, plays[1..], cut - 1);
      assert plays[..cut][1..] == plays[1..][..cut - 1];
    }
  }

  /** Legal plays followed by plays legal on the board they leave are legal. */
  lemma {:induction false} LegalAppend(b: Board, t: Trie, plays: seq<Path>, more: seq<Path>)
    requires IsRect(b) && WellFormed(t) && Legal(b, t, plays)
    ensures PlaysInBounds(b, plays)
    ensures Legal(Replay(b, plays), t, more) ==> Legal(b, t, plays + more)
    decreases |plays|
  {
    LegalInBounds(b, t, plays);
    if plays == [] {
      assert plays + more == more;
    } else {
      var p := plays[0];
      var rest := plays[1..];
      HeadTail(plays);
      ReplayCons(b, p, rest);
      LegalAppend(Delete(b, p), t, rest, more);
      TailAppend(plays, more);
    }
  }

  /* ------------------------------------------------------------ solve_greedy */

  /** The plays the greedy loop makes from board `b` until no word is left. */
  function Greedy(b: Board, t: Trie): seq<Path>
    requires IsRect(b) && WellFormed(t)
    decreases Leftovers(b)
  {
    var ps := WordPaths(b, t);
    if ps == [] then []
    else
      CandidatesInBounds(b, t);
      var best := ps[BestIndex(b, ps)];
      WordPathsExact(b, t, best);
      PlayShrinks(b, t, best);
      [best] + Greedy(Delete(b, best), t)
  }

  /** One greedy step: the best candidate, a word path, then the greedy plays after it. */
  lemma GreedyUnfold(b: Board, t: Trie)
    requires IsRect(b) && WellFormed(t) && WordPaths(b, t) != []
    ensures PlaysInBounds(b, WordPaths(b, t))
    ensures var ps := WordPaths(b, t);
      var best := ps[BestIndex(b, ps)];
      && IsWordPath(b, t, best)
      && Leftovers(Delete(b, best)) < Leftovers(b)
      && Greedy(b, t) == [best] + Greedy(Delete(b, best), t)
  {
    var ps := WordPaths(b, t);
    CandidatesInBounds(b, t);
    WordPathsExact(b, t, ps[BestIndex(b, ps)]);
    PlayShrinks(b, t, ps[BestIndex(b, ps)]);
  }

  /** The greedy plays are legal. */
  lemma {:induction false} GreedyLegal(b: Board, t: Trie)
    requires IsRect(b) && WellFormed(t)
    ensures Legal(b, t, Greedy(b, t))
    decreases Leftovers(b)
  {
    var ps := WordPaths(b, t);
    if ps != [] {
      GreedyUnfold(b, t);
      var best := ps[BestIndex(b, ps)];
      GreedyLegal(Delete(b, best), t);
      assert Greedy(b, t)[1..] == Greedy(Delete(b, best), t);
    }
  }

  lemma GreedyInBounds(b: Board, t: Trie)
    requires IsRect(b) && WellFormed(t)
    ensures PlaysInBounds(b, Greedy(b, t))
  {
    GreedyLegal(b, t);
    LegalInBounds(b, t, Greedy(b, t));
  }

  /** After the greedy plays no word is left on the board. */
  lemma {:induction false} GreedyExhausts(b: Board, t: Trie)
    requires IsRect(b) && WellFormed(t)
    ensures PlaysInBounds(b, Greedy(b, t))
    ensures WordPaths(Replay(b, Greedy(b, t)), t) == []
    decreases Leftovers(b)
  {
    GreedyInBounds(b, t);
    if WordPaths(b, t) != [] {
      GreedyUnfold(b, t);
      var ps := WordPaths(b, t);
      var best := ps[BestIndex(b, ps)];
      var b' := Delete(b, best);
      GreedyExhausts(b', t);
      ReplayCons(b, best, Greedy(b', t));
    }
  }

  /**
   * Each greedy play is a word on the board it is made on and scores at least
   * as much as every other word there.
   */
  lemma {:induction false} GreedyBest(b: Board, t: Trie, k: nat)
    requires IsRect(b) && WellFormed(t) && k < |Greedy(b, t)|
    ensures PlaysInBounds(b, Greedy(b, t)[..k])
    ensures BestOn(Replay(b, Greedy(b, t)[..k]), t, Greedy(b, t)[k])
    decreases Leftovers(b)
  {
    var g := Greedy(b, t);
    if k == 0 {
      GreedyBestFirst(b, t);
      assert g[..0] == [];
    } else {
      GreedyUnfold(b, t);
      var ps := WordPaths(b, t);
      var best := ps[BestIndex(b, ps)];
      var b' := Delete(b, best);
      var rest := Greedy(b', t);
      GreedyBest(b', t, k - 1);
      ConsTake(best, rest, k - 1);
      ReplayCons(b, best, rest[..k - 1]);
      assert Replay(b, g[..k]) == Replay(b', rest[..k - 1]);
    }
  }

  /** The first greedy play is the best word on the board. */
  lemma GreedyBestFirst(b: Board, t: Trie)
    requires IsRect(b) && WellFormed(t) && |Greedy(b, t)| > 0
    ensures BestOn(b, t, Greedy(b, t)[0])
  {
    GreedyUnfold(b, t);
    var ps := WordPaths(b, t);
    BestBeatsAll(b, ps);
  }

  /** `p` is a word on `board` that scores at least as much as every word there. */
  ghost predicate BestOn(board: Board, t: Trie, p: Path)
    requires IsRect(board) && WellFormed(t)
  {
    && PlaysInBounds(board, WordPaths(board, t))
    && p in WordPaths(board, t)
    && forall q :: q in WordPaths(board, t) ==> ScorePath(board, q) <= ScorePath(board, p)
  }

  /** The play `max_by_key` picks scores at least as much as every candidate. */
  lemma BestBeatsAll(b: Board, ps: seq<Path>)
    requires IsRect(b) && PlaysInBounds(b, ps) && |ps| > 0
    ensures ps[BestIndex(b, ps)] in ps
    ensures forall q :: q in ps ==> ScorePath(b, q) <= ScorePath(b, ps[BestIndex(b, ps)])
  {
  }

  /** The state of the greedy loop: `plays` made, the rest of the greedy plays still to come. */
  ghost predicate GreedyProgress(b: Board, t: Trie, board: Board, plays: seq<Path>)
    requires IsRect(b) && WellFormed(t)
  {
    && PlaysInBounds(b, plays) && board == Replay(b, plays)
    && plays + Greedy(board, t) == Greedy(b, t)
  }

  lemma GreedyProgressStep(b: Board, t: Trie, board: Board, plays: seq<Path>)
    requires IsRect(b) && WellFormed(t) && GreedyProgress(b, t, board, plays) && WordPaths(board, t) != []
    ensures PlaysInBounds(board, WordPaths(board, t))
    ensures var best := WordPaths(board, t)[BestIndex(board, WordPaths(board, t))];
      && PathInBounds(board, best)
      && Leftovers(Delete(board, best)) < Leftovers(board)
      && GreedyProgress(b, t, Delete(board, best), plays + [best])
  {
    GreedyUnfold(board, t);
    var ps := WordPaths(board, t);
    var best := ps[BestIndex(board, ps)];
    assert PathInBounds(board, best);
    ProgressStep(b, t, board, plays, best);
  }

  lemma ProgressStep(b: Board, t: Trie, board: Board, plays: seq<Path>, best: Path)
    requires IsRect(b) && WellFormed(t) && GreedyProgress(b, t, board, plays)
    requires PathInBounds(board, best)
    requires Greedy(board, t) == [best] + Greedy(Delete(board, best), t)
    ensures GreedyProgress(b, t, Delete(board, best), plays + [best])
  {
    SameShapeInBounds(board, b, [best]);
    assert PathInBounds(b, [best][0]);
    ReplaySnoc(b, plays, best);
    Regroup(plays, [best], Greedy(Delete(board, best), t), Greedy(board, t), Greedy(b, t));
  }

  lemma GreedyProgressEnd(b: Board, t: Trie, board: Board, plays: seq<Path>)
    requires IsRect(b) && WellFormed(t) && GreedyProgress(b, t, board, plays) && WordPaths(board, t) == []
    ensures plays == Greedy(b, t)
  {
  }

  /**
   * The greedy loop of `solve_greedy` and `nudge_solution` on a tower in
   * place: find every word, play the best one, until no word is left.
   */
  method PlayGreedily(tower: array2<char>, t: Trie) returns (plays: seq<Path>)
    requires WellFormed(t)
    modifies tower
    ensures plays == Greedy(old(Grid(tower)), t)
    ensures PlaysInBounds(old(Grid(tower)), plays) && Grid(tower) == Replay(old(Grid(tower)), plays)
  {
    ghost var b := Grid(tower);
    plays := [];
    while true
      invariant GreedyProgress(b, t, Grid(tower), plays)
      decreases Leftovers(Grid(tower))
    {
      var paths := FindPaths(Grid(tower), t);
      if |paths| == 0 {
        GreedyProgressEnd(b, t, Grid(tower), plays);
        break;
      }
      GreedyProgressStep(b, t, Grid(tower), plays);
      var best := paths[BestIndex(Grid(tower), paths)];
      DeletePath(tower, best);
      plays := plays + [best];
    }
  }

  /** `solve_greedy`: the greedy plays from a copy of the tower. */
  method SolveGreedy(b: Board, t: Trie) returns (solution: seq<Path>)
    requires IsRect(b) && WellFormed(t)
    ensures solution == Greedy(b, t)
  {
    var tower := Clone(b);
    solution := PlayGreedily(tower, t);
  }

  /* ------------------------------------------------------------ nudge_solution */

  /** The words on the board after the first `cut` plays: the plays the nudge picks from. */
  function Candidates(b: Board, t: Trie, plays: seq<Path>, cut: nat): (ps: seq<Path>)
    requires IsRect(b) && WellFormed(t) && PlaysInBounds(b, plays) && cut <= |plays|
    ensures PlaysInBounds(Replay(b, plays[..cut]), ps)
  {
    CandidatesInBounds(Replay(b, plays[..cut]), t);
    WordPaths(Replay(b, plays[..cut]), t)
  }

  /**
   * What `nudge_solution` leaves: the first `cut` plays, then candidate
   * `pick` on the board they leave, then the greedy plays after it.
   */
  function Nudged(b: Board, t: Trie, plays: seq<Path>, cut: nat, pick: nat): seq<Path>
    requires IsRect(b) && WellFormed(t) && PlaysInBounds(b, plays) && cut < |plays|
    requires pick < |Candidates(b, t, plays, cut)|
  {
    var board := Replay(b, plays[..cut]);
    var next := Candidates(b, t, plays, cut)[pick];
    plays[..cut] + ([next] + Greedy(Delete(board, next), t))
  }

  /** In a legal sequence the play at every cut is a candidate, so there is one to pick. */
  lemma LegalHasCandidates(b: Board, t: Trie, plays: seq<Path>, cut: nat)
    requires IsRect(b) && WellFormed(t) && PlaysInBounds(b, plays) && Legal(b, t, plays) && cut < |plays|
    ensures plays[cut] in Candidates(b, t, plays, cut)
  {
    LegalReplay(b, t, plays, cut);
    WordPathsExact(Replay(b, plays[..cut]), t, plays[cut]);
  }

  /**
   * A nudge keeps the first `cut` plays, makes the picked candidate next,
   * and turns a legal sequence into a legal sequence that leaves no word.
   */
  lemma NudgedLegal(b: Board, t: Trie, plays: seq<Path>, cut: nat, pick: nat)
    requires IsRect(b) && WellFormed(t) && PlaysInBounds(b, plays) && Legal(b, t, plays) && cut < |plays|
    requires pick < |Candidates(b, t, plays, cut)|
    ensures var n := Nudged(b, t, plays, cut, pick);
      && |n| > cut && n[..cut] == plays[..cut] && n[cut] == Candidates(b, t, plays, cut)[pick]
      && Legal(b, t, n)
      && PlaysInBounds(b, n) && WordPaths(Replay(b, n), t) == []
  {
    var kept := plays[..cut];
    var board := Replay(b, kept);
    var next := Candidates(b, t, plays, cut)[pick];
    WordPathsExact(board, t, next);
    var rest := Greedy(Delete(board, next), t);
    LegalPrefix(b, t, plays, cut);
    LegalInBounds(b, t, kept);
    ExtendLegal(b, t, kept, next);
    SplitAt(kept, [next] + rest);
  }

  /** A legal run, then a word on the board it leaves, then greedy plays: legal, and no word is left. */
  lemma ExtendLegal(b: Board, t: Trie, kept: seq<Path>, next: Path)
    requires IsRect(b) && WellFormed(t) && Legal(b, t, kept) && PlaysInBounds(b, kept)
    requires IsWordPath(Replay(b, kept), t, next)
    ensures var n := kept + ([next] + Greedy(Delete(Replay(b, kept), next), t));
      Legal(b, t, n) && PlaysInBounds(b, n) && WordPaths(Replay(b, n), t) == []
  {
    var board := Replay(b, kept);
    var rest := Greedy(Delete(board, next), t);
    GreedyLegal(Delete(board, next), t);
    ConsTail(next, rest);
    LegalAppend(b, t, kept, [next] + rest);
    GreedyExhausts(Delete(board, next), t);
    ReplayCons(board, next, rest);
    ReplayAppend(b, kept, [next] + rest);
  }

  /** Replaying two runs of plays one after the other. */
  lemma {:induction false} ReplayAppend(b: Board, plays: seq<Path>, more: seq<Path>)
    requires IsRect(b) && PlaysInBounds(b, plays) && PlaysInBounds(Replay(b, plays), more)
    ensures PlaysInBounds(b, more) && PlaysInBounds(b, plays + more)
    ensures Replay(b, plays + more) == Replay(Replay(b, plays), more)
    decreases |more|
  {
    SameShapeInBounds(Replay(b, plays), b, more);
    if more != [] {
      var init := more[..|more| - 1];
      ReplayAppend(b, plays, init);
      assert (plays + more)[..|plays + more| - 1] == plays + init;
    } else {
      assert plays + more == plays;
    }
  }

  /**
   * The random generator, seen as the sequence of values it will draw.
   * `GenRange(n)` stands for `gen_range(0..n)`: the next value reduced below `n`.
   */
  class Rng {
    var draws: seq<nat>

    constructor(draws: seq<nat>)
      ensures this.draws == draws
    {
      this.draws := draws;
    }

    /** `gen_range(0..n)`: panics on an empty range. */
    method GenRange(n: nat) returns (r: nat)
      requires n > 0 && |draws| > 0
      modifies this
      ensures r == old(draws[0]) % n && r < n
      ensures draws == old(draws[1..])
    {
      r := draws[0] % n;
      draws := draws[1..];
    }
  }

  /**
   * `nudge_solution`: cuts the solution at a random play, replays what is
   * kept on a copy of the tower, adds a random candidate, then plays greedily.
   * The solution the source updates in place is passed in and returned.
   */
  method NudgeSolution(b: Board, t: Trie, solution: seq<Path>, rng: Rng) returns (nudged: seq<Path>)
    requires IsRect(b) && WellFormed(t) && PlaysInBounds(b, solution) && |solution| > 0
    requires |rng.draws| >= 2
    requires |Candidates(b, t, solution, rng.draws[0] % |solution|)| > 0
    modifies rng
    ensures var cut := old(rng.draws[0]) % |solution|;
      nudged == Nudged(b, t, solution, cut, old(rng.draws[1]) % |Candidates(b, t, solution, cut)|)
    ensures rng.draws == old(rng.draws[2..])
  {
    ghost var first, second := rng.draws[0], rng.draws[1];
    var cut := rng.GenRange(|solution|);
    assert cut == first % |solution| && rng.draws[0] == second;
    var kept := solution[..cut];
    var tower := Clone(b);
    ReplayPlays(tower, kept);
    var nextPaths := FindPaths(Grid(tower), t);
    assert nextPaths == Candidates(b, t, solution, cut);
    var pick := rng.GenRange(|nextPaths|);
    var path := nextPaths[pick];
    ghost var board := Grid(tower);
    DeletePath(tower, path);
    kept := kept + [path];
    var more := PlayGreedily(tower, t);
    NudgedIs(b, t, solution, cut, pick, board, path, more);
    nudged := kept + more;
    assert nudged == Nudged(b, t, solution, cut, pick) && pick == second % |nextPaths|;
  }

  /** The plays `nudge_solution` assembles are the nudged sequence. */
  lemma NudgedIs(b: Board, t: Trie, solution: seq<Path>, cut: nat, pick: nat, board: Board, path: Path, more: seq<Path>)
    requires IsRect(b) && WellFormed(t) && PlaysInBounds(b, solution) && cut < |solution|
    requires pick < |Candidates(b, t, solution, cut)|
    requires board == Replay(b, solution[..cut]) && path == Candidates(b, t, solution, cut)[pick]
    requires more == Greedy(Delete(board, path), t)
    ensures Nudged(b, t, solution, cut, pick) == solution[..cut] + [path] + more
  {
    Regroup(solution[..cut], [path], more, [path] + more, Nudged(b, t, solution, cut, pick));
  }
}
