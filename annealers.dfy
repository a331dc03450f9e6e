/**
 * The simulated-annealing problem of src/annealers.rs: the cost of a
 * solution under one of four costers, with tiles left over costing the
 * largest `f64`, and the annealing step, which nudges a solution once more
 * than the floor of the temperature.
 */
module Annealers {
  import opened Seqs
  import opened Words
  import opened Towers
  import opened Search
  import opened Scoring
  import opened Solvers

  /** An `f64` cost: a whole number, or `f64::MAX` for a solution that leaves tiles. */
  datatype Cost = Finite(value: int) | Max

  /** The cost at which annealing may stop: never, or once a cost this low is reached. */
  datatype Target = NegInfinity | AtMost(bound: int)

  /** The four costers the command line offers. */
  datatype CosterKind = TotalScore | LongestWord | BestWord | FewestWords

  datatype Coster = Coster(kind: CosterKind, target: Target)

  const LONGEST_WORD: Coster := Coster(LongestWord, NegInfinity)
  const TOTAL_SCORE: Coster := Coster(TotalScore, NegInfinity)
  const BEST_WORD: Coster := Coster(BestWord, NegInfinity)
  const FEWEST_WORDS: Coster := Coster(FewestWords, AtMost(1))

  /* ------------------------------------------------------------ longest_word */

  /** `longest_word`: the length of the longest play, 0 without plays. */
  function LongestWordLength(solution: seq<Path>): (r: nat)
    ensures forall k :: 0 <= k < |solution| ==> |solution[k]| <= r
    ensures solution == [] ==> r == 0
    ensures solution != [] ==> exists k :: 0 <= k < |solution| && |solution[k]| == r
    decreases |solution|
  {
    if solution == [] then 0
    else
      var rest := LongestWordLength(solution[1..]);
      assert forall k :: 1 <= k < |solution| ==> solution[k] == solution[1..][k - 1];
      if |solution[0]| < rest then rest else |solution[0]|
  }

  /* ------------------------------------------------------------ best_word_score */

  /** The highest score of one play of the solution, each scored on the board the plays before it left. */
  function BestPlayScore(b: Board, plays: seq<Path>): nat
    requires IsRect(b) && PlaysInBounds(b, plays)
    decreases |plays|
  {
    if plays == [] then 0
    else
      var before := plays[..|plays| - 1];
      var last := ScorePath(Replay(b, before), plays[|plays| - 1]);
      var best := BestPlayScore(b, before);
      if best < last then last else best
  }

  /** No play of the solution scores more than the best play. */
  lemma {:induction false} BestPlayCovers(b: Board, plays: seq<Path>, k: nat)
    requires IsRect(b) && PlaysInBounds(b, plays) && k < |plays|
    ensures PlaysInBounds(b, plays[..k])
    ensures ScorePath(Replay(b, plays[..k]), plays[k]) <= BestPlayScore(b, plays)
    decreases |plays|
  {
    var before := plays[..|plays| - 1];
    var last := ScorePath(Replay(b, before), plays[|plays| - 1]);
    assert BestPlayScore(b, before) <= BestPlayScore(b, plays) && last <= BestPlayScore(b, plays);
    if k < |plays| - 1 {
      BestPlayCovers(b, before, k);
      TakeTake(plays, |plays| - 1, k);
      assert ScorePath(Replay(b, before[..k]), before[k]) <= BestPlayScore(b, before);
      assert before[..k] == plays[..k] && before[k] == plays[k];
      assert Replay(b, before[..k]) == Replay(b, plays[..k]);
      assert ScorePath(Replay(b, plays[..k]), plays[k]) <= BestPlayScore(b, before);
      assert ScorePath(Replay(b, plays[..k]), plays[k]) <= BestPlayScore(b, plays);
    } else {
      assert plays[..k] == before;
      assert ScorePath(Replay(b, plays[..k]), plays[k]) <= BestPlayScore(b, plays);
    }
  }

  /** Some play scores exactly the best score. */
  lemma {:induction false} BestPlayAttained(b: Board, plays: seq<Path>) returns (k: nat)
    requires IsRect(b) && PlaysInBounds(b, plays) && |plays| > 0
    ensures k < |plays| && PlaysInBounds(b, plays[..k])
    ensures ScorePath(Replay(b, plays[..k]), plays[k]) == BestPlayScore(b, plays)
    decreases |plays|
  {
    var before := plays[..|plays| - 1];
    if before == [] || BestPlayScore(b, before) <= ScorePath(Replay(b, before), plays[|plays| - 1]) {
      k := |plays| - 1;
    } else {
      k := BestPlayAttained(b, before);
      TakeTake(plays, |plays| - 1, k);
    }
  }

  /** The best play is part of the plays' total, which is part of the solution's score. */
  lemma {:induction false} BestPlayBelowTotal(b: Board, plays: seq<Path>)
    requires IsRect(b) && PlaysInBounds(b, plays)
    ensures BestPlayScore(b, plays) <= PlayScores(b, plays) <= SolutionScore(b, plays)
    decreases |plays|
  {
    if plays != [] {
      BestPlayBelowTotal(b, plays[..|plays| - 1]);
    }
  }

  /** The state of the loop of `best_word_score` after `i` plays. */
  ghost predicate BestSoFar(b: Board, plays: seq<Path>, i: nat, board: Board, best: nat)
    requires IsRect(b) && PlaysInBounds(b, plays)
  {
    && i <= |plays| && PlaysInBounds(b, plays[..i])
    && board == Replay(b, plays[..i])
    && best == BestPlayScore(b, plays[..i])
  }

  lemma BestSoFarStep(b: Board, plays: seq<Path>, i: nat, board: Board, best: nat)
    requires IsRect(b) && PlaysInBounds(b, plays) && i < |plays|
    requires BestSoFar(b, plays, i, board, best)
    ensures PathInBounds(board, plays[i])
    ensures var s := ScorePath(board, plays[i]);
      BestSoFar(b, plays, i + 1, Delete(board, plays[i]), if best < s then s else best)
  {
    TakeSnoc(plays, i);
    ReplaySnoc(b, plays[..i], plays[i]);
    assert plays[..i + 1][..i] == plays[..i];
  }

  /**
   * `best_word_score`: plays the solution on a copy of the tower, keeping
   * the highest score of a single play, each scored before it is made.
   */
  method BestWordScore(b: Board, solution: seq<Path>) returns (best: nat)
    requires IsRect(b) && PlaysInBounds(b, solution)
    ensures best == BestPlayScore(b, solution)
  {
    var tower := Clone(b);
    best := 0;
    assert solution[..0] == [];
    for i := 0 to |solution|
      invariant BestSoFar(b, solution, i, Grid(tower), best)
    {
      ghost var before, was := Grid(tower), best;
      BestSoFarStep(b, solution, i, before, was);
      var path := solution[i];
      var s := ScorePath(Grid(tower), path);
      best := if best < s then s else best;
      DeletePath(tower, path);
    }
    TakeAll(solution);
  }

  /* ------------------------------------------------------------ costers */

  /** Whether the coster replays the solution on the tower. */
  predicate UsesTower(kind: CosterKind) {
    kind == TotalScore || kind == BestWord
  }

  /** The value each coster gives a solution: the negated measure it maximises, or the number of plays. */
  function CosterValue(c: Coster, b: Board, plays: seq<Path>): (v: int)
    requires IsRect(b) && (UsesTower(c.kind) ==> PlaysInBounds(b, plays))
    ensures c.kind == FewestWords ==> v >= 0
    ensures c.kind != FewestWords ==> v <= 0
  {
    match c.kind
    case LongestWord => -(LongestWordLength(plays) as int)
    case TotalScore => -(SolutionScore(b, plays) as int)
    case BestWord => -(BestPlayScore(b, plays) as int)
    case FewestWords => |plays|
  }

  /**
   * The four coster constants: each one's cost on a solution and the target
   * at which annealing may stop, 1 for the fewest words and -infinity otherwise.
   */
  lemma CosterTable(b: Board, plays: seq<Path>)
    requires IsRect(b) && PlaysInBounds(b, plays)
    ensures CosterValue(LONGEST_WORD, b, plays) == -(LongestWordLength(plays) as int) && LONGEST_WORD.target == NegInfinity
    ensures CosterValue(TOTAL_SCORE, b, plays) == -(SolutionScore(b, plays) as int) && TOTAL_SCORE.target == NegInfinity
    ensures CosterValue(BEST_WORD, b, plays) == -(BestPlayScore(b, plays) as int) && BEST_WORD.target == NegInfinity
    ensures CosterValue(FEWEST_WORDS, b, plays) == |plays| && FEWEST_WORDS.target == AtMost(1)
  {
  }

  /** The cost function of a coster, run on the tower. */
  method ApplyCoster(c: Coster, b: Board, plays: seq<Path>) returns (v: int)
    requires IsRect(b) && (UsesTower(c.kind) ==> PlaysInBounds(b, plays))
    ensures v == CosterValue(c, b, plays)
  {
    match c.kind {
      case LongestWord =>
        v := -(LongestWordLength(plays) as int);
      case TotalScore =>
        var score := ScoreSolution(b, plays);
        v := -(score as int);
      case BestWord =>
        var best := BestWordScore(b, plays);
        v := -(best as int);
      case FewestWords =>
        v := |plays|;
    }
  }

  /** Whether the cost of a solution needs it replayed on the tower. */
  predicate Replays(allowLeftovers: bool, c: Coster) {
    !allowLeftovers || UsesTower(c.kind)
  }

  /**
   * The annealer's cost: `f64::MAX` when leftovers are not allowed and the
   * solution leaves a tile, otherwise the coster's value.
   */
  function AnnealerCost(b: Board, allowLeftovers: bool, c: Coster, plays: seq<Path>): Cost
    requires IsRect(b) && (Replays(allowLeftovers, c) ==> PlaysInBounds(b, plays))
  {
    if !allowLeftovers && !AllEmpty(Replay(b, plays)) then Max
    else Finite(CosterValue(c, b, plays))
  }

  /**
   * The largest cost marks exactly the solutions that leave tiles, when
   * leftovers are not allowed; any other cost is the coster's, on the tower
   * as it was before the replay.
   */
  lemma CostMaxIffLeftovers(b: Board, allowLeftovers: bool, c: Coster, plays: seq<Path>)
    requires IsRect(b) && (Replays(allowLeftovers, c) ==> PlaysInBounds(b, plays))
    ensures AnnealerCost(b, allowLeftovers, c, plays) == Max
      <==> !allowLeftovers && Leftovers(Replay(b, plays)) > 0
    ensures AnnealerCost(b, allowLeftovers, c, plays) != Max
      ==> AnnealerCost(b, allowLeftovers, c, plays) == Finite(CosterValue(c, b, plays))
  {
    if !allowLeftovers {
      LeftoversZero(Replay(b, plays));
    }
  }

  /** Under the total-score coster, a solution that clears the tower costs minus its plays and both bonuses. */
  lemma ClearingCost(b: Board, allowLeftovers: bool, plays: seq<Path>)
    requires IsRect(b) && PlaysInBounds(b, plays) && Leftovers(Replay(b, plays)) == 0
    ensures AnnealerCost(b, allowLeftovers, TOTAL_SCORE, plays) == Finite(-(PlayScores(b, plays) + 2000))
  {
    LeftoversZero(Replay(b, plays));
    ClearingSolutionScore(b, plays);
  }

  /** Under the best-word coster a solution costs no less than under the total-score coster. */
  lemma BestWordAboveTotal(b: Board, plays: seq<Path>)
    requires IsRect(b) && PlaysInBounds(b, plays)
    ensures CosterValue(TOTAL_SCORE, b, plays) <= CosterValue(BEST_WORD, b, plays) <= 0
  {
    BestPlayBelowTotal(b, plays);
  }

  /* ------------------------------------------------------------ anneal */

  /**
   * How many nudges one annealing step makes: `temp.floor() as u64 + 1`,
   * the cast taking a negative floor to 0.
   */
  function NudgeCount(temp: real): (n: nat)
    ensures n >= 1
    ensures 0.0 <= temp ==> (n - 1) as real <= temp < n as real
    ensures temp < 0.0 ==> n == 1
  {
    if temp < 0.0 then 1 else temp.Floor + 1
  }

  /** One nudge of a legal solution, cutting with draw `d0` and picking with draw `d1`. */
  function NudgeWith(b: Board, t: Trie, solution: seq<Path>, d0: nat, d1: nat): (r: seq<Path>)
    requires IsRect(b) && WellFormed(t) && Legal(b, t, solution) && |solution| > 0
    ensures Legal(b, t, r) && |r| > 0
  {
    LegalInBounds(b, t, solution);
    var cut := d0 % |solution|;
    LegalHasCandidates(b, t, solution, cut);
    var pick := d1 % |Candidates(b, t, solution, cut)|;
    NudgedLegal(b, t, solution, cut, pick);
    Nudged(b, t, solution, cut, pick)
  }

  /** A nudge by its two draws is the nudge at the cut and the pick they give. */
  lemma NudgeWithIs(b: Board, t: Trie, solution: seq<Path>, d0: nat, d1: nat)
    requires IsRect(b) && WellFormed(t) && Legal(b, t, solution) && |solution| > 0
    ensures PlaysInBounds(b, solution)
    ensures |Candidates(b, t, solution, d0 % |solution|)| > 0
    ensures NudgeWith(b, t, solution, d0, d1)
      == Nudged(b, t, solution, d0 % |solution|, d1 % |Candidates(b, t, solution, d0 % |solution|)|)
  {
    LegalInBounds(b, t, solution);
    LegalHasCandidates(b, t, solution, d0 % |solution|);
  }

  /** The draws of `count` nudges taken two at a time: the cut's draw, then the pick's. */
  function DrawPairs(draws: seq<nat>, count: nat): (pairs: seq<(nat, nat)>)
    requires |draws| >= 2 * count
    ensures |pairs| == count
    ensures forall k :: 0 <= k < count ==> pairs[k] == (draws[2 * k], draws[2 * k + 1])
  {
    seq(count, k requires 0 <= k < count => (draws[2 * k], draws[2 * k + 1]))
  }

  /** Nudges in a row, one for each pair of draws. */
  function Annealed(b: Board, t: Trie, solution: seq<Path>, pairs: seq<(nat, nat)>): (r: seq<Path>)
    requires IsRect(b) && WellFormed(t) && Legal(b, t, solution) && |solution| > 0
    ensures Legal(b, t, r) && |r| > 0
    decreases |pairs|, 1
  {
    if pairs == [] then solution else AnnealedAfter(b, t, solution, pairs[0], pairs[1..])
  }

  /** The nudge with the draws of `pair`, then the nudges of `rest`. */
  function AnnealedAfter(b: Board, t: Trie, solution: seq<Path>, pair: (nat, nat), rest: seq<(nat, nat)>): (r: seq<Path>)
    requires IsRect(b) && WellFormed(t) && Legal(b, t, solution) && |solution| > 0
    ensures Legal(b, t, r) && |r| > 0
    decreases |rest| + 1, 0
  {
    Annealed(b, t, NudgeWith(b, t, solution, pair.0, pair.1), rest)
  }

  /** A legal solution can be nudged at any cut: it is on the tower and has a candidate there. */
  lemma NudgeReady(b: Board, t: Trie, solution: seq<Path>, cut: nat)
    requires IsRect(b) && WellFormed(t) && Legal(b, t, solution) && cut < |solution|
    ensures PlaysInBounds(b, solution) && |Candidates(b, t, solution, cut)| > 0
  {
    LegalInBounds(b, t, solution);
    LegalHasCandidates(b, t, solution, cut);
  }

  /** A nudge with the next pair of draws leaves the rest of the nudges to make. */
  lemma AnnealStep(b: Board, t: Trie, prev: seq<Path>, pairs: seq<(nat, nat)>, i: nat, next: seq<Path>)
    requires IsRect(b) && WellFormed(t) && Legal(b, t, prev) && |prev| > 0 && i < |pairs|
    requires next == NudgeWith(b, t, prev, pairs[i].0, pairs[i].1)
    ensures Annealed(b, t, next, pairs[i + 1..]) == Annealed(b, t, prev, pairs[i..])
  {
    DropDrop(pairs, i, 1, i + 1);
    assert Annealed(b, t, prev, pairs[i..]) == AnnealedAfter(b, t, prev, pairs[i], pairs[i + 1..]);
  }

  /** Every nudge leaves a legal solution that leaves no word on the tower. */
  lemma {:induction false} AnnealedExhausts(b: Board, t: Trie, solution: seq<Path>, pairs: seq<(nat, nat)>)
    requires IsRect(b) && WellFormed(t) && Legal(b, t, solution) && |solution| > 0 && |pairs| > 0
    ensures var r := Annealed(b, t, solution, pairs);
      PlaysInBounds(b, r) && WordPaths(Replay(b, r), t) == []
    decreases |pairs|
  {
    var n := NudgeWith(b, t, solution, pairs[0].0, pairs[0].1);
    assert Annealed(b, t, solution, pairs) == AnnealedAfter(b, t, solution, pairs[0], pairs[1..]);
    if |pairs| > 1 {
      AnnealedExhausts(b, t, n, pairs[1..]);
    } else {
      NudgeWithIs(b, t, solution, pairs[0].0, pairs[0].1);
      LegalInBounds(b, t, solution);
      NudgedLegal(b, t, solution, pairs[0].0 % |solution|, pairs[0].1 % |Candidates(b, t, solution, pairs[0].0 % |solution|)|);
      assert pairs[1..] == [];
    }
  }

  /** `nudge_solution` on a legal solution, which always has a candidate to pick. */
  method NudgeLegal(b: Board, t: Trie, solution: seq<Path>, rng: Rng) returns (next: seq<Path>)
    requires IsRect(b) && WellFormed(t) && Legal(b, t, solution) && |solution| > 0 && |rng.draws| >= 2
    modifies rng
    ensures next == NudgeWith(b, t, solution, old(rng.draws[0]), old(rng.draws[1]))
    ensures rng.draws == old(rng.draws[2..])
  {
    ghost var d0, d1 := rng.draws[0], rng.draws[1];
    NudgeReady(b, t, solution, d0 % |solution|);
    NudgeWithIs(b, t, solution, d0, d1);
    next := NudgeSolution(b, t, solution, rng);
  }

  /** One nudge of a run: it takes the run's next pair of draws and leaves the nudges after it. */
  method NudgeInRun(b: Board, t: Trie, ghost param: seq<Path>, ghost pairs: seq<(nat, nat)>, ghost i: nat,
                    solution: seq<Path>, rng: Rng) returns (next: seq<Path>)
    requires IsRect(b) && WellFormed(t) && Legal(b, t, param) && |param| > 0
    requires Legal(b, t, solution) && |solution| > 0 && i < |pairs|
    requires |rng.draws| >= 2 && rng.draws[0] == pairs[i].0 && rng.draws[1] == pairs[i].1
    requires Annealed(b, t, solution, pairs[i..]) == Annealed(b, t, param, pairs)
    modifies rng
    ensures Legal(b, t, next) && |next| > 0
    ensures Annealed(b, t, next, pairs[i + 1..]) == Annealed(b, t, param, pairs)
    ensures rng.draws == old(rng.draws[2..])
  {
    next := NudgeLegal(b, t, solution, rng);
    AnnealStep(b, t, solution, pairs, i, next);
  }

  /** The annealing problem: the tower, the words, the rule on leftovers, the generator and the coster. */
  class Annealer {
    const tower: Board
    const root: Trie
    const allowLeftovers: bool
    const rng: Rng
    const coster: Coster

    constructor(tower: Board, root: Trie, allowLeftovers: bool, rng: Rng, coster: Coster)
      ensures this.tower == tower && this.root == root && this.allowLeftovers == allowLeftovers
      ensures this.rng == rng && this.coster == coster
    {
      this.tower := tower;
      this.root := root;
      this.allowLeftovers := allowLeftovers;
      this.rng := rng;
      this.coster := coster;
    }

    /**
     * `cost`: unless leftovers are allowed, replays the solution on a copy
     * of the tower and answers `f64::MAX` when a cell is not empty; then the
     * coster's value on the original tower.
     */
    method Cost(param: seq<Path>) returns (c: Cost)
      requires IsRect(tower) && (Replays(allowLeftovers, coster) ==> PlaysInBounds(tower, param))
      ensures c == AnnealerCost(tower, allowLeftovers, coster, param)
    {
      if !allowLeftovers {
        var a := Clone(tower);
        ReplayPlays(a, param);
        var g := Grid(a);
        EmptiedIsAllEmpty(g);
        if |g| * Width(g) - EmptyCount(g, |g|) != 0 {
          return Max;
        }
      }
      var v := ApplyCoster(coster, tower, param);
      c := Finite(v);
    }

    /**
     * `anneal`: nudges a copy of the solution once more than the floor of
     * the temperature, with the annealer's generator.
     */
    method Anneal(param: seq<Path>, temp: real) returns (solution: seq<Path>)
      requires IsRect(tower) && WellFormed(root) && Legal(tower, root, param) && |param| > 0
      requires temp < 18446744073709551615.0
      requires |rng.draws| >= 2 * NudgeCount(temp)
      modifies rng
      ensures solution == Annealed(tower, root, param, DrawPairs(old(rng.draws), NudgeCount(temp)))
      ensures rng.draws == old(rng.draws)[2 * NudgeCount(temp)..]
    {
      var count := NudgeCount(temp);
      ghost var draws := rng.draws;
      ghost var pairs := DrawPairs(draws, count);
      solution := param;
      assert draws[2 * 0..] == draws && pairs[0..] == pairs;
      for i := 0 to count
        invariant Legal(tower, root, solution) && |solution| > 0
        invariant rng.draws == draws[2 * i..]
        invariant Annealed(tower, root, solution, pairs[i..]) == Annealed(tower, root, param, pairs)
      {
        solution := NudgeInRun(tower, root, param, pairs, i, solution, rng);
        DropDrop(draws, 2 * i, 2, 2 * (i + 1));
      }
      assert pairs[count..] == [];
    }
  }
}
