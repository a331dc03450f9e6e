# Spelltower solver core, in Dafny

This project models the engine of a Spelltower solver and proves properties of it.

In Spelltower, a tower of letter tiles is played by tracing words through adjacent tiles. The cells a play clears are emptied, and the tiles above them fall. The solver searches a tower for every word of its dictionary, scores plays and whole solutions, and builds solutions in two ways: greedily, and by "nudging" an existing solution at a random point. A simulated-annealing driver uses the nudge as its step and one of four costers as its objective.

The project has these modules:

- `Wrappers` (wrappers.dfy): `Option` and `Result`.
- `Seqs` (seqs.dfy): small facts about slicing sequences.
- `Words` (words.dfy): the dictionary trie of `src/words.rs`. It is laid out as an arena value: node `n` owns 26 child slots and an `is_end` flag, and node 0 is the root. `Insert` is the cursor loop of `load`. `Load` inserts a given list of upper-case words.
- `Towers` (towers.dfy): the board as a `seq<seq<char>>` with row 0 on top. An empty cell is `'\0'`, a blank obstacle is `'_'`, and a bonus tile is a lower-case letter. This module has the play rules of `deletable`, gravity as a packing function on columns, and `delete_path` as an in-place method on an `array2<char>`. The method is proved against `Delete`, the function of the board before the play.
- `Search` (search.dfy): `find_paths` and its recursive `helper`. It is proved sound and complete against `IsWordPath`, which says what a word path is.
- `Scoring` (scoring.dfy): `score_letter`, `score_path`, `is_almost_there` and `score_solution`, with the two 1000-point bonuses.
- `Solvers` (solvers.dfy): `solve_greedy`, `nudge_solution` and the random generator.
- `Annealers` (annealers.dfy): `src/annealers.rs`. It holds the four costers, the leftover check of `cost`, `best_word_score`, `longest_word`, and `anneal`'s run of ⌊temp⌋+1 nudges.
- `Puzzle` (puzzle.dfy): `parse_puzzle`, with its four error exits, and a round trip from a tower's text back to the tower.

Some parts of the source change things in place: `delete_path`, `deletable`'s set, the loops of `score_solution`, `solve_greedy`, `best_word_score`, `cost` and `anneal`, and `load`'s cursor. These are methods with loop invariants. Each method is proved equal to a specification function, and the properties of those functions are lemmas.

The random generator is a class `Solvers.Rng` that holds the sequence of values it will draw. `gen_range(0..n)` takes the next value modulo `n`.

## Model

| member | source | states |
|---|---|---|
| Words.Get | src/words.rs:10-15 | a child comes back only for a letter 'A'..'Z', and it is a node of the trie; for such a letter the result is exactly the child in slot `c - 'A'` |
| Words.WalkSnoc | src/words.rs:10-15 | following `get` along one more letter continues from the node the shorter walk reached |
| Words.WalkLetters | src/words.rs:10-15 | a walk that succeeds reads only letters 'A'..'Z' |
| Words.WalkPrefix | src/words.rs:28-32 | a walk that succeeds passes through a node for every prefix of the string |
| Words.EmptyTrie | src/words.rs:22-24 | the default root is well formed and accepts no string |
| Words.AddChild | src/words.rs:30-31 | a fresh default node is appended and becomes the child in the empty slot; nothing already filled changes |
| Words.GetOrInsert | src/words.rs:30-31 | `get_or_insert_with` keeps an existing child and the trie unchanged; otherwise it adds a fresh child; either way the trie only grows |
| Words.WalkExtends | src/words.rs:30-31 | a walk that succeeds is the same walk in every trie that only adds to this one |
| Words.AcceptsExtends | src/words.rs:30-31 | inserting never replaces children, so a word accepted before stays accepted |
| Words.WalkLabel | src/words.rs:28-32 | each node is reached from the root by exactly one string, the one its path spells |
| Words.Insert | src/words.rs:28-36 | after one word is inserted, the trie extends the old one and accepts the word, and only the word's final node is newly flagged as an end |
| Words.AcceptsOnlyEnds | src/words.rs:36 | a string reaches an `is_end` node only if it is one of the inserted words |
| Words.Load | src/words.rs:22-40 | the trie accepts a string if and only if it is in the word list; every prefix of every word has a node; `max_len` is the longest word's length, or 0 with no words |
| Search.EightOffsets | src/main.rs:12-21 | the eight neighbour offsets, with `checked_add_signed`, reach exactly the cells that touch sideways or diagonally |
| Search.UnvisitedShrinks | src/main.rs:43-45 | stepping to a cell not yet on the path shrinks the set of unvisited cells, so the search ends |
| Search.Helper | src/main.rs:24-65 | `helper` returns the paths `PathsFrom` gives for the path and its trie node, in order |
| Search.FindPaths | src/main.rs:23-79 | `find_paths` returns `WordPaths`: each start cell in row-major order, searched by `helper` |
| Search.PathsFromSound | src/main.rs:24-65 | every path `helper` reports from a partial path is a word path that extends it |
| Search.PathsFromComplete | src/main.rs:30-61 | every word path is reported by the search from each of its non-empty prefixes, because reporting a word does not stop the descent |
| Search.PathsAfterSound | src/main.rs:67-78 | every reported path is a word path starting at a cell at or after the given start cell |
| Search.PathsAfterComplete | src/main.rs:67-78 | every word path starting at or after the given cell is reported |
| Search.WordPathsExact | src/main.rs:23-79 | a path is returned by `find_paths` if and only if it is a non-empty, in-bounds, repetition-free, 8-connected walk whose upper-cased letters the trie accepts |
| Search.WordPathTiles | src/main.rs:46-51 | every cell of a word path holds a letter tile: none is empty or blank |
| Search.NoLettersNoPaths | src/main.rs:23-79 | a board with no letter tile yields no path |
| Towers.OrthogonalOffsets | src/main.rs:133-140 | the four offsets, with `checked_add_signed`, reach exactly the orthogonal neighbours |
| Towers.DeletableSet | src/main.rs:113-154 | the cleared cells are exactly the rule's cells: the path cells; the non-empty cells of the row of a J, Q, X or Z on the path; and the non-empty orthogonal neighbours of path cells when the path has at least 5 cells or the neighbour is a blank |
| Towers.Deletable | src/main.rs:113-154 | the set the loops collect holds a cell if and only if the rules above clear it |
| Towers.Tiles | src/main.rs:172-180 | the tiles of a column are no longer than it and contain no empty cell |
| Towers.Packed | src/main.rs:163-183 | gravity keeps the length of the column |
| Towers.PackedTiles | src/main.rs:163-183 | gravity keeps every tile of the column, in order |
| Towers.PackedFalls | src/main.rs:163-183 | after gravity no tile sits directly above an empty cell |
| Towers.PackedIdempotent | src/main.rs:163-183 | applying gravity twice gives the same column as applying it once |
| Towers.PackedWhenSettled | src/main.rs:166-182 | when the scan stops, every tile has been moved to the bottom in order: the column is packed |
| Towers.MoveStep | src/main.rs:172-180 | moving the tile found at `i2` down to the empty row `i` keeps the column's tiles in order |
| Towers.Clone | src/main.rs:207 | `clone` makes a fresh array holding the same board |
| Towers.MoveTile | src/main.rs:179-180 | the tile moves from row `i2` to row `i`, leaves `i2` empty, and touches no other column |
| Towers.SettleColumn | src/main.rs:163-183 | the two-pointer scan leaves column `j` packed, as gravity would, and leaves the other columns unchanged; it needs at least one row |
| Towers.DeletePath | src/main.rs:156-184 | the array after `delete_path` holds `Delete` of the board before it |
| Towers.Cleared | src/main.rs:159-161 | emptying cells keeps the board's dimensions |
| Towers.Delete | src/main.rs:156-184 | a play keeps the board's dimensions |
| Towers.DeleteColumn | src/main.rs:156-184 | each column after a play is that column's remaining tiles, in order, packed to the bottom; columns do not affect each other |
| Towers.DeleteSettles | src/main.rs:156-184 | after a play no tile sits directly above an empty cell |
| Towers.DeleteShrinks | src/main.rs:156-184 | a play never adds tiles, and a play through a tile removes at least one |
| Towers.Replay | src/main.rs:210-214 | replaying plays keeps the board's dimensions |
| Towers.ReplaySnoc | src/main.rs:210-214 | one more play continues the replay |
| Towers.ReplayCons | src/main.rs:236-242 | a first play, then the rest replayed on the board it leaves, is the replay of all of them |
| Towers.ReplayPlays | src/annealers.rs:38-41 | playing a solution with `delete_path` on a tower in place leaves the replayed board |
| Towers.LeftoversZero | src/annealers.rs:42 | the tile count is zero exactly when every cell is `'\0'` |
| Towers.ClearedColumnTiles | src/main.rs:159-161 | emptying cells of a column never adds tiles, and emptying a tile removes one |
| Scoring.ScoreLetter | src/main.rs:81-111 | an upper-case letter is worth 1 to 12 and anything else 0; exactly J, Q, X and Z, the letters that clear their row, are worth 9 or more |
| Scoring.Bonuses | src/main.rs:192-196 | the bonus count is at most the path's length, and it is 0 exactly when no path cell is lower case |
| Scoring.ScorePath | src/main.rs:186-197 | `score_path` is the value of the cleared cells, times the path length, times one more than the bonus count; it is 0 exactly when the cleared cells are worth nothing or the path is empty |
| Scoring.RowValueCovers | src/main.rs:187-190 | every cleared cell's value is part of its row's sum |
| Scoring.BoardValueCovers | src/main.rs:187-190 | every cleared cell's value is part of the board's sum |
| Scoring.PathCellScores | src/main.rs:186-197 | each path cell's letter value, times the path length, times one more than the bonus count, is part of the path's score |
| Scoring.ScorePathPositive | src/main.rs:186-197 | a play through a letter tile scores more than 0 |
| Scoring.EmptiesInRow | src/main.rs:220 | the count of empty cells in a row prefix is at most its length, with equality exactly when all of them are empty |
| Scoring.EmptyCount | src/main.rs:220 | the board's empty-cell count equals its size exactly when every cell is empty |
| Scoring.EmptiedIsAllEmpty | src/main.rs:220 | the source's count test for a cleared board holds exactly when every cell is `'\0'` |
| Scoring.EmptiedAlmostThere | src/main.rs:199-204 | a cleared board also passes `is_almost_there`, so it earns both bonuses |
| Scoring.AlmostThere | src/main.rs:199-204 | `is_almost_there` holds exactly when no column of the board has more than two tiles |
| Scoring.AlmostThereLeftovers | src/main.rs:199-204 | a board that is almost there has at most twice its width in tiles in all |
| Scoring.Bonus | src/main.rs:216-222 | the bonus is 0, 1000 or 2000: at least 1000 exactly when almost there, and 2000 exactly when every cell is empty |
| Scoring.PlayScoresSnoc | src/main.rs:210-214 | one more play adds its score, taken on the board the earlier plays left |
| Scoring.ClearingSolutionScore | src/main.rs:206-225 | a solution that clears the tower scores its plays plus 2000 |
| Scoring.ScoreSolution | src/main.rs:206-225 | the loop over a copy of the tower returns `SolutionScore`: each play's score before it is made, summed, plus the bonuses of the final board |
| Solvers.LastMax | src/main.rs:262-266 | `max_by_key` picks a largest key, and of several equal largest keys the last |
| Solvers.Scores | src/main.rs:262-266 | the key of each candidate is its `score_path` |
| Solvers.BestIndex | src/main.rs:262-266 | the chosen candidate scores at least as much as every candidate, and more than every later one |
| Solvers.BestBeatsAll | src/main.rs:262-266 | the chosen candidate is one of them and outscores or ties every other |
| Solvers.CandidatesInBounds | src/main.rs:23-79 | every path `find_paths` offers is on the board |
| Solvers.PlayShrinks | src/main.rs:261-270 | a word play leaves strictly fewer tiles, so the greedy loop ends |
| Solvers.LegalReplay | src/main.rs:236-242 | in a legal solution, each play is a word path on the board the earlier plays left |
| Solvers.LegalInBounds | src/main.rs:236-238 | every play of a legal solution is on the board |
| Solvers.LegalPrefix | src/main.rs:233 | keeping the first plays of a legal solution leaves a legal solution |
| Solvers.LegalAppend | src/main.rs:241-254 | legal plays, followed by plays legal on the board they leave, are legal |
| Solvers.GreedyUnfold | src/main.rs:261-270 | one greedy step makes the `max_by_key` candidate, a word path, then continues greedily |
| Solvers.GreedyLegal | src/main.rs:257-273 | the greedy plays are legal |
| Solvers.GreedyInBounds | src/main.rs:257-273 | the greedy plays are on the board |
| Solvers.GreedyExhausts | src/main.rs:261-267 | replaying the greedy solution leaves a board where `find_paths` is empty |
| Solvers.GreedyBest | src/main.rs:262-269 | each greedy play is a word on its board, and it scores at least as much as every word there |
| Solvers.GreedyBestFirst | src/main.rs:262-269 | the first greedy play is a best-scoring word on the tower |
| Solvers.PlayGreedily | src/main.rs:245-254 | the greedy loop on a tower in place returns `Greedy` of the tower and leaves the tower replayed |
| Solvers.SolveGreedy | src/main.rs:257-273 | `solve_greedy` returns the greedy plays |
| Solvers.Candidates | src/main.rs:240 | the candidates after the cut are on the board the kept plays leave |
| Solvers.LegalHasCandidates | src/main.rs:240-241 | in a legal solution, the play at every cut is a candidate there, so `gen_range` has something to choose from |
| Solvers.NudgedLegal | src/main.rs:227-255 | a nudge keeps the first `cut` plays, makes the picked candidate next, and turns a legal solution into a legal one that leaves no word |
| Solvers.ExtendLegal | src/main.rs:241-254 | a legal run, then a word on the board it leaves, then greedy plays, is legal and leaves no word |
| Solvers.ReplayAppend | src/main.rs:236-242 | replaying two runs one after the other is replaying them joined |
| Solvers.Rng.constructor | src/annealers.rs:26 | the generator starts with the given draws |
| Solvers.Rng.GenRange | src/main.rs:233 | `gen_range(0..n)` consumes one draw and returns it modulo `n`, which is below `n` |
| Solvers.NudgeSolution | src/main.rs:227-255 | `nudge_solution` cuts at the first draw modulo the length, picks the candidate at the second draw modulo their number, returns `Nudged`, and consumes two draws |
| Solvers.NudgedIs | src/main.rs:233-253 | the kept plays, the picked path and the greedy completion, joined, are `Nudged` |
| Annealers.LongestWordLength | src/annealers.rs:70-72 | the longest play's length: no play is longer, some play has it, and it is 0 for no plays |
| Annealers.BestPlayCovers | src/annealers.rs:74-85 | no play, scored on its board, beats the best score |
| Annealers.BestPlayAttained | src/annealers.rs:74-85 | some play scores exactly the best score |
| Annealers.BestPlayBelowTotal | src/annealers.rs:74-85 | the best single play is at most the plays' total, which is at most `score_solution` |
| Annealers.BestWordScore | src/annealers.rs:74-85 | the loop over a copy of the tower returns `BestPlayScore` |
| Annealers.CosterTable | src/annealers.rs:87-105 | the four constants: `LONGEST_WORD`, `TOTAL_SCORE` and `BEST_WORD` cost minus the longest word, the total score and the best word, with target −∞; `FEWEST_WORDS` costs the number of plays, with target 1 |
| Annealers.CosterValue | src/annealers.rs:87-105 | the value of each coster's closure; the fewest-words cost is never negative, and the other three, being negated measures, are never positive |
| Annealers.ApplyCoster | src/annealers.rs:87-105 | the coster's function returns `CosterValue`: minus the longest word, minus the total score, minus the best word, or the number of plays |
| Annealers.AnnealerCost | src/annealers.rs:36-48 | `cost`: `f64::MAX` when leftovers are not allowed and the replay leaves a cell that is not `'\0'`, otherwise the coster's value on the original tower |
| Annealers.CostMaxIffLeftovers | src/annealers.rs:36-48 | the cost is `f64::MAX` exactly when leftovers are not allowed and the replay leaves a non-`'\0'` cell, blanks included; otherwise it is the coster's value on the tower as it was |
| Annealers.ClearingCost | src/annealers.rs:92-95 | under `TOTAL_SCORE`, a clearing solution costs minus its plays' scores and both bonuses |
| Annealers.BestWordAboveTotal | src/annealers.rs:92-100 | the `BEST_WORD` cost is never below the `TOTAL_SCORE` cost, and both are at most 0 |
| Annealers.NudgeCount | src/annealers.rs:63 | there are ⌊temp⌋+1 nudges, at least one, and exactly one for a negative temperature |
| Annealers.NudgeWith | src/annealers.rs:64 | one nudge of a legal, non-empty solution is legal and non-empty |
| Annealers.NudgeWithIs | src/annealers.rs:64 | a nudge by two draws is `Nudged` at the cut and pick they give, and there is always a candidate to pick |
| Annealers.Annealed | src/annealers.rs:62-66 | nudges in a row keep a legal, non-empty solution legal and non-empty |
| Annealers.AnnealedAfter | src/annealers.rs:62-66 | one nudge, then the rest, keeps a legal, non-empty solution legal and non-empty |
| Annealers.NudgeReady | src/annealers.rs:64 | a legal solution can be nudged at any cut |
| Annealers.AnnealStep | src/annealers.rs:63-65 | one nudge with the next pair of draws leaves the rest of the nudges to make |
| Annealers.AnnealedExhausts | src/annealers.rs:56-67 | after at least one nudge, the solution is legal and leaves no word on the tower |
| Annealers.NudgeLegal | src/annealers.rs:64 | `nudge_solution` on a legal solution is `NudgeWith` of its two draws and consumes them |
| Annealers.NudgeInRun | src/annealers.rs:63-65 | one nudge of the run keeps the solution legal and moves on to the next pair of draws |
| Annealers.Annealer.constructor | src/annealers.rs:14-29 | the annealer holds the tower, the trie, the leftover rule, the generator and the coster it is given |
| Annealers.Annealer.Cost | src/annealers.rs:36-48 | `cost` returns `AnnealerCost` |
| Annealers.Annealer.Anneal | src/annealers.rs:56-67 | `anneal` returns the ⌊temp⌋+1 nudges of a copy of the solution, one per pair of draws, and consumes exactly those draws |
| Puzzle.SplitLines | src/main.rs:446 | `split("\n")` gives at least one piece, and no piece holds a newline |
| Puzzle.SplitLinesCons | src/main.rs:446 | a line and a newline in front of a text add that line in front of its pieces |
| Puzzle.JoinSplit | src/main.rs:446 | joining the pieces with newlines gives the text back |
| Puzzle.SplitJoin | src/main.rs:446 | lines without newlines, joined and split, come back unchanged |
| Puzzle.SplitLinesNone | src/main.rs:446 | a text with no newline is a single piece |
| Puzzle.SplitOnce | src/main.rs:455-457 | `split_once` fails exactly when the character is absent; otherwise the text is the part before, the character and the part after, and the part before does not contain it |
| Puzzle.SplitOnceJoin | src/main.rs:455-457 | the split is at the first occurrence |
| Puzzle.DigitsExclude | src/main.rs:459-460 | a run of digits holds no other character |
| Puzzle.DigitChar | src/main.rs:459-460 | the digit for a value below 10 denotes that value |
| Puzzle.ParseUsize | src/main.rs:459-460 | a parsed side is at most `usize::MAX`, and the text is its decimal digits, with an optional leading '+' |
| Puzzle.ShowNat | src/main.rs:459-460 | a number's decimal form is a non-empty run of digits |
| Puzzle.ShowNatValue | src/main.rs:459-460 | the decimal form denotes the number |
| Puzzle.ParseShowNat | src/main.rs:459-460 | every `usize`, written in decimal, parses back to itself and holds no 'x' and no newline |
| Puzzle.SignOnlyRefused | src/main.rs:459-460 | a lone '+', the empty text and a '-' sign do not parse |
| Puzzle.OverflowRefused | src/main.rs:459-460 | one past `usize::MAX` does not parse |
| Puzzle.Shape | src/main.rs:462-463 | exactly h·w cells shape into h rows of w |
| Puzzle.ConcatShape | src/main.rs:462-467 | the shaped rows, read one after another, are the cells: cell (i, j) is element i·w+j |
| Puzzle.ShapeConcat | src/main.rs:462-467 | the rows of a board of width w, concatenated and shaped again, are the board |
| Puzzle.FromShape | src/main.rs:462-468 | a board that `from_shape_vec` builds is rectangular |
| Puzzle.ShortRefused | src/main.rs:462-468 | fewer than w·h cells give a shape error |
| Puzzle.ShapedCells | src/main.rs:462-468 | with at least w·h cells the board has h rows of w, holding the first w·h cells row by row; the rest are ignored |
| Puzzle.ParsePuzzle | src/main.rs:445-469 | a parsed tower is rectangular |
| Puzzle.OneLineRefused | src/main.rs:446-453 | a text with no newline has no dimensions line and is refused |
| Puzzle.FirstTwoLines | src/main.rs:446-453 | the first two pieces are the text before the first newline and the text between the first two |
| Puzzle.NoCrossRefused | src/main.rs:455-457 | a dimensions line with no 'x' is refused, and the error quotes it |
| Puzzle.BadSideRefused | src/main.rs:459-460 | a width or height that is not a number is refused with the number error, which carries no text |
| Puzzle.ParsedFromRest | src/main.rs:451-468 | with both sides readable, the tower is the remaining lines, concatenated, shaped h by w |
| Puzzle.ParseShowPuzzle | src/main.rs:445-469 | a rectangular tower written as a header, "<w>x<h>" and its rows parses back to itself |

## Left out

- The random generator: `Xoshiro256PlusPlus` and the `RefCell` around it are not modelled. The generator is the sequence of values it will draw, and `gen_range(0..n)` is the next value modulo `n`. The real uniform sampling is not captured.
- The simulated-annealing driver of the `argmin` crate is not modelled: acceptance, temperatures and reannealing. Neither is `main`, with its `Args` and the mapping from the command line to a coster.
- `pretty_tower`, src/puzzmo.rs (network access to fetch a puzzle) and src/observer.rs (logging) are not part of this model.
- The dictionary embedded with `include_str!` is not modelled: `Load` takes an arbitrary word list, with every letter in 'A'..'Z'.
- Rayon's parallel iteration in `find_paths` is modelled as a sequential loop over the start cells in row-major order. Rayon's `flat_map` and `collect` keep the sequential order, so the row-major order `FindPaths` returns is the program's own; it matters because `max_by_key` keeps the last of equal maxima.
- `f64` costs are modelled as integers, with `Max` standing for `f64::MAX` and `NegInfinity` for the target −∞. The rounding of large scores to `f64` is not modelled.
- Annealers.Annealer.Anneal: requires a temperature below 2^64−1. At or above that bound, `temp.floor() as u64` saturates, and that case is not modelled.
- Annealers.Annealer.Anneal: requires a legal, non-empty solution. `gen_range` panics on an empty solution or an empty candidate list, and legality is what rules the second out.
- Solvers.NudgeSolution: requires a non-empty solution and a non-empty candidate list at the cut, because `gen_range` panics otherwise.
- Words.Get: a character below 'A' underflows the unsigned subtraction. A debug build panics there. The model gives None, the result of a release build.
- Towers.DeletePath: with no rows, `n - 1` underflows for every column. A debug build panics there. The model follows the release build, in which the row loop does nothing.
- A tower with no rows loses its width in the `seq<seq<char>>` model, which records only its rows.
- `usize` overflow is not modelled in scores, in `w * h` or in `max_len`. Scores and sizes are unbounded integers; only the parsing of the two sides checks `usize::MAX`.
- Puzzle.ParseUsize: every error of `str::parse` is one `BadNumber` error; the kind (empty, invalid digit, overflow) is not kept.
- Puzzle.SplitLines: strings are sequences of characters, so UTF-8 byte lengths and encodings are not modelled.
- `nudge_solution` changes its caller's `Vec` in place with `drain` and `push`. The model takes the solution in and returns the nudged one, so it does not capture aliasing of that vector.
- Scoring.ScorePath: the sum over the cleared cells is taken in row-major order instead of the hash set's order. A sum does not depend on the order.
- `is_end` is the trie's `isEnd` field read directly: `Accepts` reads it at the end of a walk.
- Gravity drops tiles toward the last row. There are four costers. A full clear requires every cell, blanks included, to be `'\0'`.
