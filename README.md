# CS50AI search and inference cores, modelled in Dafny

This project models three small AI programs. Each model is checked against
its own contracts.

- **Crossword generator** (`Crossword`, crossword.dfy). `CrosswordCreator` is a
  constraint-satisfaction solver.
  - It keeps a domain of candidate words for every slot of the grid and
    narrows the domains in place:
    - node consistency: words of the wrong length go;
    - `revise` and AC-3 over a FIFO worklist of arcs: a word goes when no
      word of a crossing slot meets it at the shared letter.
  - It then runs a backtracking search that assigns and undoes words in one
    shared assignment. The search chooses the slot by minimum remaining values
    with a degree tie-break, and orders the words least-constraining first.
  - The grid geometry (slots, vocabulary, crossing positions) is an input
    (`Puzzle`), with the well-formedness stated in `WellFormed`.
  - The model shows that:
    - domains only shrink;
    - revision is exact and idempotent;
    - AC-3 terminates and reports failure exactly when it empties a domain;
    - node consistency and every AC-3 round keep every solution of the
      puzzle, so a failed AC-3 proves that the puzzle has no solution;
    - the consistency check is exact;
    - the variable choice meets both heuristics;
    - the value order is a sorted permutation;
    - a successful search returns a complete, consistent extension of its
      input, while a failed one leaves the assignment exactly as it was;
    - when every slot crosses another, the search is complete: it fails only
      when no solution extends its input, so `solve` returns None only for
      an unsolvable puzzle.
- **Minesweeper AI** (`Minesweeper`, minesweeper.dfy).
  - The game's `nearby_mines` count.
  - The knowledge base: `Sentence` objects (a set of cells and how many of them
    are mines) updated in place, and `MinesweeperAI`, which holds the known
    mines and safe cells, the moves made and the list of sentences.
  - It marks cells in every sentence and runs the `mark_cells` fixpoint. It
    infers new sentences by subset differencing.
  - The value of the AI's knowledge (`Knowledge`: the sentence values, the
    mines and the safe cells) is specified by functions. `MarkStep` is one
    sentence's turn in `mark_cells`, `Pass` one pass over the list, `Round`
    the whole of `mark_cells`, `Reported` steps 1-3 of `add_knowledge` and
    `Grow` its inference loop. Each method states its new knowledge as one of
    these functions of the old.
  - Lemmas about these functions prove that knowledge stays *sound*: if
    every sentence is true of the real mines and the reported count is true,
    every sentence, mine and safe cell the AI holds afterwards is correct.
    They also prove that `mark_cells` ends with no sentence that concludes
    anything on its own, and that known cells only grow.
- **Tic-tac-toe** (`TicTacToe`, tictactoe.dfy).
  - The rules (`player`, `actions`, `result`, `utility`, `winner`,
    `terminal`) are pure functions of a 3x3 board.
  - `maxvalue`/`minvalue` are mutually recursive functions that fold over the
    nine cells. `math.inf` is modelled as ±2.
  - `minimax` is a method whose loop keeps the first strictly best action.
  - The model proves the minimax recurrence and that the chosen move is
    optimal for the player to move.

`wrappers.dfy` holds the `Option` type shared by the three modules. It
stands for Python's `None` beside a value.

The order in which Python iterates over a `set` is implementation-defined. It
is modelled by choosing elements with `:|`, so every result is proved for
every iteration order.

Quirks of the code that the model reproduces as written:

- `find_arcs` enqueues only one orientation of each crossing pair. With the
  default worklist, AC-3 therefore guarantees one consistent orientation per
  crossing pair, plus every arc it re-enqueued.
- `solve` ignores the verdict of `ac3`.
- `order_domain_values` records a word's score only inside the loop over
  neighbours. A slot without neighbours gets an empty ordering, so
  backtracking cannot fill it.
- `backtrack` returns an assignment that is already complete without checking
  it. The result is therefore consistent unless the assignment passed in was
  already complete.
- `minimax` does not test for a terminal board. On a won board that still has
  empty cells it returns a move.

## Model

| member | source | states |
|---|---|---|
| TicTacToe.InitialState | week0/tictactoe/tictactoe.py:12-18 | the starting board is 3x3 with no mark, so all nine cells are actions |
| TicTacToe.Player | week0/tictactoe/tictactoe.py:21-33 | the player to move is X or O, and O exactly when an even number of cells is empty (an odd number of marks has been played) |
| TicTacToe.PlayerOpening | week0/tictactoe/tictactoe.py:21-33 | X moves on the empty board and O moves after a single X |
| TicTacToe.Actions | week0/tictactoe/tictactoe.py:36-47 | a cell is an action exactly when it lies on the 3x3 board and is empty |
| TicTacToe.ActionsPartition | week0/tictactoe/tictactoe.py:36-47 | the actions and the occupied cells are disjoint, together make up the nine cells, and their counts add up to 9 |
| TicTacToe.Result | week0/tictactoe/tictactoe.py:50-62 | the move is refused (the exception) exactly when the cell is occupied; otherwise the cell gets the player to move and every other cell keeps its mark; the input board is a value and stays as it was |
| TicTacToe.ResultAdvances | week0/tictactoe/tictactoe.py:50-62 | a legal move occupies exactly that cell, removes it from the actions (one fewer) and passes the turn to the other player: the measure that ends the recursion |
| TicTacToe.Utility | week0/tictactoe/tictactoe.py:90-139 | the utility is 1, 0 or -1; 1 only when X fills a row, column or diagonal, -1 only when O fills one, 0 exactly when neither does |
| TicTacToe.Winner | week0/tictactoe/tictactoe.py:65-73 | the winner is X only with an X line, O only with an O line, never EMPTY, and None exactly when no line is filled |
| TicTacToe.Terminal | week0/tictactoe/tictactoe.py:76-87 | the game is over if and only if a player has a line or no action is left |
| TicTacToe.FullBoard | week0/tictactoe/tictactoe.py:83-87 | no cell is empty exactly when the set of actions is empty |
| TicTacToe.FreeCellOfLiveBoard | week0/tictactoe/tictactoe.py:83-87 | a board that is not over has an empty cell |
| TicTacToe.MaxValue | week0/tictactoe/tictactoe.py:166-181 | the value lies in -1..1 and equals the utility on a finished board |
| TicTacToe.MinValue | week0/tictactoe/tictactoe.py:184-198 | the value lies in -1..1 and equals the utility on a finished board |
| TicTacToe.MaxFrom | week0/tictactoe/tictactoe.py:174-180 | the running maximum never drops below its start and never exceeds 1; once a free cell is visited the -2 sentinel is gone |
| TicTacToe.MinFrom | week0/tictactoe/tictactoe.py:191-197 | the running minimum never rises above its start and never goes below -1; once a free cell is visited the +2 sentinel is gone |
| TicTacToe.MaxFromIsMax | week0/tictactoe/tictactoe.py:174-180 | the loop's result is at least the minvalue of every visited successor board, and equals the start value or one of them |
| TicTacToe.MinFromIsMin | week0/tictactoe/tictactoe.py:191-197 | the loop's result is at most the maxvalue of every visited successor board, and equals the start value or one of them |
| TicTacToe.MaxValueIsBest | week0/tictactoe/tictactoe.py:171-181 | on a board that is not over, maxvalue bounds the minvalue of every successor board and some action reaches it |
| TicTacToe.MinValueIsBest | week0/tictactoe/tictactoe.py:189-198 | on a board that is not over, minvalue is below the maxvalue of every successor board and some action reaches it |
| TicTacToe.Enumerate | week0/tictactoe/tictactoe.py:150 | iterating the action set visits every action exactly once |
| TicTacToe.BestOf | week0/tictactoe/tictactoe.py:147-162 | the loop keeps None only when nothing was visited; otherwise the kept action is a visited one that no visited action beats, and it beats every action visited before it (the first optimum under strict comparison) |
| TicTacToe.Minimax | week0/tictactoe/tictactoe.py:142-163 | the empty sentinel exactly when no action is left; otherwise an action of the board that no other action beats for the player to move (X maximises minvalue, O minimises maxvalue), the first optimum in iteration order |
| Minesweeper.NearbyMines | week1/minesweeper/minesweeper.py:56-79 | the count is the number of mines among the in-bounds cells adjacent to the cell, the cell itself excluded, and lies in 0..8 |
| Minesweeper.RingMeaning | week1/minesweeper/minesweeper.py:67-72 | the cells the double loop visits, the cell itself skipped, are exactly the cells within one row and one column of it |
| Minesweeper.RingSize | week1/minesweeper/minesweeper.py:67-72 | that ring has eight cells |
| Minesweeper.NeighbourhoodMeaning | week1/minesweeper/minesweeper.py:296-302 | the surrounding cells are exactly the adjacent cells inside the board |
| Minesweeper.NeighbourhoodSize | week1/minesweeper/minesweeper.py:296-302 | there are at most eight surrounding cells |
| Minesweeper.Fact.KnownMines | week1/minesweeper/minesweeper.py:107-113 | the result is either nothing or all the cells, and it is all of a non-empty set of cells exactly when their number equals the count |
| Minesweeper.Fact.KnownSafes | week1/minesweeper/minesweeper.py:115-121 | the result is either nothing or all the cells, and it is all of a non-empty set of cells exactly when the count is 0 |
| Minesweeper.Fact.MarkedMine | week1/minesweeper/minesweeper.py:123-133 | marking one mine is marking the set holding it: the cell leaves the sentence, and the count drops by one exactly when the cell was in it |
| Minesweeper.Fact.MarkedSafe | week1/minesweeper/minesweeper.py:135-144 | marking one safe cell is marking the set holding it: the cell leaves the sentence and the count is kept |
| Minesweeper.KnownCellsSound | week1/minesweeper/minesweeper.py:107-121 | for a sentence true of the mines, every cell `known_mines` returns is a mine and no cell `known_safes` returns is |
| Minesweeper.MarksSound | week1/minesweeper/minesweeper.py:123-144 | marking a true sentence with a correct mine or safe mark keeps it true |
| Minesweeper.MarkedSetsSound | week1/minesweeper/minesweeper.py:249-257 | marking a set of true mines, or of true safe cells, leaves a sentence true exactly when it was true |
| Minesweeper.DifferenceSound | week1/minesweeper/minesweeper.py:235-238 | when the cells of s1 lie in those of s2 and both are true, the difference sentence is true |
| Minesweeper.ReportedSentenceHolds | week1/minesweeper/minesweeper.py:206-207 | the sentence built from the surrounding cells and the `nearby_mines` count is true of the board |
| Minesweeper.Sentence.constructor | week1/minesweeper/minesweeper.py:95-99 | a new sentence holds exactly the given cells and count |
| Minesweeper.Sentence.MarkMine | week1/minesweeper/minesweeper.py:123-133 | a cell of the sentence is removed and the count drops by one; an absent cell changes nothing |
| Minesweeper.Sentence.MarkSafe | week1/minesweeper/minesweeper.py:135-144 | a cell of the sentence is removed and the count is kept; an absent cell changes nothing |
| Minesweeper.NonEmpty | week1/minesweeper/minesweeper.py:258 | the filter keeps exactly the sentences with cells, keeps no sentence twice, and keeps a list with no empty sentence whole |
| Minesweeper.WithoutEmpties | week1/minesweeper/minesweeper.py:241 | dropping every sentence equal to a listed empty sentence keeps exactly the non-empty sentences |
| Minesweeper.InferredRows | week1/minesweeper/minesweeper.py:226-240 | the proposals up to sentence i and inner position j are those of the rows before i followed by row i up to j; an empty sentence i proposes nothing |
| Minesweeper.InferredNext | week1/minesweeper/minesweeper.py:226-240 | finishing row i-1 of the double loop appends its proposals to those of the rows before it |
| Minesweeper.InferredUpToMeaning | week1/minesweeper/minesweeper.py:226-240 | a sentence is proposed by the first i rows exactly when some row before i proposes it |
| Minesweeper.TotalCellsShrinks | week1/minesweeper/minesweeper.py:245-257 | shrinking sentences never raises the total number of cells, and lowers it when one sentence loses a cell |
| Minesweeper.MarkShrinks | week1/minesweeper/minesweeper.py:168-184 | marking a cell everywhere never raises the total number of cells, and lowers it when some sentence holds the cell |
| Minesweeper.MarkedAt | week1/minesweeper/minesweeper.py:174-175 | marking a set of cells in every sentence marks each sentence with that set, position by position |
| Minesweeper.MarkAllOneMore | week1/minesweeper/minesweeper.py:250-256 | marking the cells of a set one after another in every sentence is the same as marking the grown set at once, in any order |
| Minesweeper.MarkNextAll | week1/minesweeper/minesweeper.py:250-256 | one more cell taken from the cells still to mark extends the marked part of the set by that cell |
| Minesweeper.MarkSetSound | week1/minesweeper/minesweeper.py:249-257 | marking every sentence with true mines, or with true safe cells, keeps all of them true |
| Minesweeper.MarkSetShrinks | week1/minesweeper/minesweeper.py:249-257 | marking a set in every sentence never raises the total number of cells, and lowers it when some sentence holds a marked cell |
| Minesweeper.InferredWithMeaning | week1/minesweeper/minesweeper.py:230-240 | the inner loop proposes d exactly when d is not already known and sentence i, a non-empty subset of some other sentence in the visited part of the list, yields d |
| Minesweeper.InferredMeaning | week1/minesweeper/minesweeper.py:222-242 | `inferences` proposes exactly the differences s2 - s1 of value-distinct sentences with s1 non-empty and s1's cells inside s2's, minus those already known |
| Minesweeper.InferredSound | week1/minesweeper/minesweeper.py:235-240 | everything inferred from true sentences is true |
| Minesweeper.MarkAllSound | week1/minesweeper/minesweeper.py:168-184 | marking every sentence with a correct mark keeps all of them true |
| Minesweeper.MarkStepHalves | week1/minesweeper/minesweeper.py:248-257 | one sentence's turn in `mark_cells` marks its known safe cells in every sentence and adds them to the safe cells, then does the same with the mines it then knows; the turn marks something exactly when either set is non-empty |
| Minesweeper.MarkStepSound | week1/minesweeper/minesweeper.py:248-257 | a sentence's turn keeps true knowledge true: mines, safe cells and every sentence |
| Minesweeper.MarkStepQuiet | week1/minesweeper/minesweeper.py:248-257 | a turn that marks nothing changes nothing, and its sentence has nothing to conclude on its own |
| Minesweeper.PassToFacts | week1/minesweeper/minesweeper.py:248-257 | the sentences after the first i turns of a pass depend only on the sentences, not on the known cells |
| Minesweeper.PassToNext | week1/minesweeper/minesweeper.py:248-257 | the first i+1 turns of a pass are the first i followed by turn i, and they mark something exactly when the first i did or turn i does |
| Minesweeper.StepFactsShrinks | week1/minesweeper/minesweeper.py:248-257 | a turn never raises the total number of cells, and lowers it when its sentence concludes something |
| Minesweeper.FactsAfterShrinks | week1/minesweeper/minesweeper.py:247-257 | the first i turns never raise the total number of cells, and lower it when one of them marked something |
| Minesweeper.PassToShrinks | week1/minesweeper/minesweeper.py:245-257 | a part of a pass that sets `repeat` lowers the total number of cells: the measure that ends the `mark_cells` loop |
| Minesweeper.PassToUnmarked | week1/minesweeper/minesweeper.py:247-257 | turns that mark nothing leave the knowledge unchanged, with each of their sentences concluding nothing |
| Minesweeper.PassUnmarked | week1/minesweeper/minesweeper.py:245-257 | a pass that leaves `repeat` false changes nothing |
| Minesweeper.PassToSound | week1/minesweeper/minesweeper.py:247-257 | every part of a pass keeps true knowledge true |
| Minesweeper.PassToGrows | week1/minesweeper/minesweeper.py:247-257 | a pass never forgets a known mine or safe cell |
| Minesweeper.SettleQuiet | week1/minesweeper/minesweeper.py:245-257 | when the loop of `mark_cells` stops, no sentence concludes anything on its own, and the known mines and safe cells have only grown |
| Minesweeper.SettleSound | week1/minesweeper/minesweeper.py:245-257 | the loop of `mark_cells` keeps true knowledge true |
| Minesweeper.NonEmptyFacts | week1/minesweeper/minesweeper.py:258 | a sentence value is kept exactly when it was there and has cells |
| Minesweeper.NonEmptyFactsSound | week1/minesweeper/minesweeper.py:258 | dropping the empty sentences keeps true sentences true |
| Minesweeper.RoundQuiet | week1/minesweeper/minesweeper.py:244-258 | after `mark_cells` every sentence has cells and concludes nothing on its own, and the known mines and safe cells have only grown |
| Minesweeper.RoundSound | week1/minesweeper/minesweeper.py:244-258 | `mark_cells` keeps true knowledge true |
| Minesweeper.ReportedSound | week1/minesweeper/minesweeper.py:201-208 | recording a safe cell and a true count keeps true knowledge true |
| Minesweeper.GrowStep | week1/minesweeper/minesweeper.py:213-220 | while something new is inferred, one round of the loop appends it, runs `mark_cells` and goes on with one less fuel |
| Minesweeper.MinesweeperAI.constructor | week1/minesweeper/minesweeper.py:152-166 | a new AI has the given size, no moves, no known cells and no sentences |
| Minesweeper.MinesweeperAI.MarkMine | week1/minesweeper/minesweeper.py:168-175 | the cell joins the mines, every sentence is marked with it as a mine, and the list keeps its objects, length and order |
| Minesweeper.MinesweeperAI.MarkSafe | week1/minesweeper/minesweeper.py:177-184 | the cell joins the safe cells, every sentence is marked with it as safe, and the list keeps its objects, length and order |
| Minesweeper.MinesweeperAI.MarkKnownSafes | week1/minesweeper/minesweeper.py:249-252 | the safe cells grow by exactly the cells sentence i knows to be safe (taken before marking), every sentence is marked with that set, mines and moves stay; the result is true exactly when the set is non-empty |
| Minesweeper.MinesweeperAI.MarkKnownMines | week1/minesweeper/minesweeper.py:253-257 | the mines grow by exactly the cells sentence i knows to be mines (taken before marking), every sentence is marked with that set, safe cells and moves stay; the result is true exactly when the set is non-empty |
| Minesweeper.MinesweeperAI.MarkSentence | week1/minesweeper/minesweeper.py:248-257 | the new knowledge is sentence i's turn `MarkStep` applied to the old, and the result says whether the turn marked a cell; the list keeps its objects |
| Minesweeper.MinesweeperAI.MarkPass | week1/minesweeper/minesweeper.py:247-257 | the new knowledge is one pass `Pass` over the old, the list keeps its objects and `repeat` is true exactly when some turn marked a cell (so a repeat lowers the total number of cells, and no repeat means nothing changed, by the lemmas above) |
| Minesweeper.MinesweeperAI.MarkCells | week1/minesweeper/minesweeper.py:244-258 | the new knowledge is `Round` of the old: the loop runs to its fixpoint and drops the empty sentences; afterwards only old sentence objects remain, none is empty or concludes anything alone, known cells only grow, and true knowledge stays true |
| Minesweeper.MinesweeperAI.DropEmptySentences | week1/minesweeper/minesweeper.py:258 | the list becomes exactly its non-empty sentences, in order, so the knowledge becomes `Dropped` of the old; true knowledge stays true |
| Minesweeper.MinesweeperAI.InferWith | week1/minesweeper/minesweeper.py:230-240 | the inner loop returns new objects whose values are exactly the proposals of sentence i, and only empty sentences for removal |
| Minesweeper.MinesweeperAI.ProposeAll | week1/minesweeper/minesweeper.py:226-240 | the loops return new objects whose values are exactly the proposals, and list every empty sentence for removal |
| Minesweeper.MinesweeperAI.Inferences | week1/minesweeper/minesweeper.py:222-242 | the returned sentences are the proposals from the knowledge as it was, and the knowledge becomes its non-empty sentences |
| Minesweeper.MinesweeperAI.MarkAndInfer | week1/minesweeper/minesweeper.py:210-220 | the new knowledge is `Round` of the old; every sentence left is non-empty and quiet; the inferred sentences are new objects whose values are exactly the proposals of what is left; all of them are true when the knowledge was |
| Minesweeper.MinesweeperAI.RecordReport | week1/minesweeper/minesweeper.py:201-208 | the cell is recorded as a move and as safe, marked safe in every sentence, and the sentence of its surrounding cells with the count is appended: the knowledge becomes `Reported` of the old; soundness is kept for a true report |
| Minesweeper.MinesweeperAI.AppendSentences | week1/minesweeper/minesweeper.py:215-216 | the new sentences are appended in order, and the knowledge stays sound when they are true |
| Minesweeper.MinesweeperAI.AddInferences | week1/minesweeper/minesweeper.py:213-220 | the inference loop: the new knowledge is `Grow` of the old; the result is true exactly when nothing more can be inferred; sentences stay non-empty and quiet, known cells only grow, and true knowledge and true inferences stay true |
| Minesweeper.MinesweeperAI.AddKnowledge | week1/minesweeper/minesweeper.py:186-220 | the new knowledge is `Grow(Round(Reported(old, cell, sentence)), fuel)`; the cell is a move made and safe; no sentence is empty or concludes anything alone; the result is true exactly when nothing more can be inferred; a true report keeps every known mine, safe cell and sentence true |
| Minesweeper.MinesweeperAI.MakeSafeMove | week1/minesweeper/minesweeper.py:260-274 | a returned cell is known safe and not yet played, and so is no mine when the knowledge is sound; None only when every safe cell has been played; nothing changes |
| Minesweeper.MinesweeperAI.SurroundingCells | week1/minesweeper/minesweeper.py:291-302 | the result is exactly the adjacent in-bounds cells, at most eight |
| Crossword.CrosswordCreator.constructor | week3/crossword/generate.py:10-18 | every slot's domain starts as the whole vocabulary |
| Crossword.CrosswordCreator.RemoveWords | week3/crossword/generate.py:111-112 | the domain of v loses exactly the removed words and no other domain changes |
| Crossword.CrosswordCreator.WrongLength | week3/crossword/generate.py:105-109 | the words collected are exactly the words of v's domain whose length is not v's |
| Crossword.CrosswordCreator.EnforceNodeConsistency | week3/crossword/generate.py:98-112 | afterwards every domain holds exactly the words it had of its slot's length: nothing of the wrong length is left and nothing of the right length is lost; the domains only shrink and every solution of the puzzle survives |
| Crossword.NodeConsistentIndexable | week3/crossword/generate.py:133 | after node consistency every word is long enough to be indexed at its crossing positions |
| Crossword.ShrunkNodeConsistent | week3/crossword/generate.py:94-95 | narrowing node-consistent domains (as AC-3 does) keeps them node consistent |
| Crossword.CrosswordCreator.HasPartner | week3/crossword/generate.py:131-135 | the inner search finds a match exactly when some word of y has x's letter at the crossing |
| Crossword.CrosswordCreator.Unsupported | week3/crossword/generate.py:129-137 | the words collected are exactly the words of x's domain without a partner in y's |
| Crossword.CrosswordCreator.ReviseAt | week3/crossword/generate.py:128-146 | only x's domain changes, to its words with a partner; the result says whether it changed |
| Crossword.CrosswordCreator.Revise | week3/crossword/generate.py:114-146 | slots that do not cross give False and no change; otherwise x keeps exactly its words with a partner in y, every other domain (y's included) is unchanged, and the result is true exactly when a word was removed |
| Crossword.ReviseIdempotent | week3/crossword/generate.py:130-146 | revising a second time with no change in between removes nothing, and revising never adds a word |
| Crossword.RevisedConsistent | week3/crossword/generate.py:130-141 | after revising (x, y) every word of x has a partner in y |
| Crossword.RevisedKeepsReverse | week3/crossword/generate.py:166-170 | revising (x, y) keeps a consistent (y, x) consistent, which is why AC-3 does not re-enqueue (y, x) |
| Crossword.ShrinkKeepsConsistent | week3/crossword/generate.py:169-170 | narrowing x's domain can only break arcs that end at x, which are the ones AC-3 re-enqueues |
| Crossword.SettledAfterRevise | week3/crossword/generate.py:165-170 | after a round, every arc seen and no longer queued is consistent: the AC-3 loop invariant |
| Crossword.PairsShrink | week3/crossword/generate.py:166-170 | a revision that removes a word strictly lowers the number of (slot, word) pairs, the measure that ends AC-3 |
| Crossword.ShrunkTrans | week3/crossword/generate.py:164-170 | shrinking composes across rounds, and so does not emptying a domain, while an emptied domain stays emptied |
| Crossword.RevisedKeepsSolutions | week3/crossword/generate.py:128-141 | revising an arc keeps every solution: the word a solution gives x has the word it gives y as a partner |
| Crossword.EmptiedNoSolution | week3/crossword/generate.py:166-168 | domains that kept every solution but have a newly emptied slot show that there was no solution at all |
| Crossword.CrosswordCreator.ArcsFrom | week3/crossword/generate.py:179-182 | the arcs from v1 to its neighbours are appended unless their reverse is present; no arc is repeated or present both ways, and every neighbour of v1 is covered in one orientation |
| Crossword.CrosswordCreator.FindArcs | week3/crossword/generate.py:173-183 | the initial worklist holds only crossing pairs, none twice, and each crossing pair in exactly one orientation |
| Crossword.CrosswordCreator.Requeue | week3/crossword/generate.py:169-170 | the arcs (z, x) for every neighbour z of x other than y, and only those |
| Crossword.CrosswordCreator.Step | week3/crossword/generate.py:165-170 | one round of AC-3: x's domain becomes exactly its words with a partner in y (unchanged when the slots do not cross), no other domain changes and every solution survives; the arcs handed back are exactly (z, x) for the neighbours z of x other than y, and only when x's domain changed without emptying; it reports an emptied domain exactly when one was newly emptied, and otherwise keeps the loop invariant |
| Crossword.CrosswordCreator.AC3 | week3/crossword/generate.py:148-171 | domains only shrink and every solution survives; the result is true exactly when no domain was newly emptied (an empty domain from before does not cause False), and False proves that the domains it started from have no solution; on success every initial arc is consistent; with no arcs given the worklist holds each crossing pair in exactly one orientation |
| Crossword.CrosswordCreator.AssignmentComplete | week3/crossword/generate.py:185-193 | true exactly when every slot has a word |
| Crossword.CrosswordCreator.DistinctValues | week3/crossword/generate.py:200-205 | true exactly when no word fills two slots |
| Crossword.CrosswordCreator.RightLength | week3/crossword/generate.py:207-210 | true exactly when every word has its slot's length |
| Crossword.CrosswordCreator.AgreesWithOthers | week3/crossword/generate.py:213-220 | true exactly when x's word agrees at every crossing with the other filled slots |
| Crossword.CrosswordCreator.Consistent | week3/crossword/generate.py:195-222 | true exactly when the words are distinct, have the right lengths and agree at every crossing |
| Crossword.ConsistentPart | week3/crossword/generate.py:295-300 | every part of a consistent assignment is consistent, so an inconsistent one extends to no solution |
| Crossword.CrosswordCreator.FewestValues | week3/crossword/generate.py:256-265 | the result is the non-empty set of all unassigned slots whose domain size is the minimum |
| Crossword.CrosswordCreator.MostNeighbours | week3/crossword/generate.py:267-278 | a candidate with the most neighbours |
| Crossword.CrosswordCreator.SelectUnassignedVariable | week3/crossword/generate.py:245-278 | an unassigned slot with the fewest remaining words and, among those, the most neighbours |
| Crossword.CrosswordCreator.CountClashes | week3/crossword/generate.py:235-239 | the number of words of one neighbour that disagree with the word at the crossing |
| Crossword.CrosswordCreator.CountRuleOut | week3/crossword/generate.py:233-239 | the score of a word is the number of neighbour words it rules out, summed over all neighbours |
| Crossword.RuleOutRemove | week3/crossword/generate.py:234-239 | that sum does not depend on the order the neighbours are visited in |
| Crossword.CrosswordCreator.ScoreWords | week3/crossword/generate.py:231-240 | every word of the domain is scored exactly once with its true score, or none is when the slot has no neighbours |
| Crossword.InsertSorted | week3/crossword/generate.py:242 | inserting by score into a sorted sequence keeps it sorted |
| Crossword.SortByScore | week3/crossword/generate.py:242 | sorting the score table gives a permutation of its words in non-decreasing score order |
| Crossword.CrosswordCreator.OrderDomainValues | week3/crossword/generate.py:224-243 | with neighbours, a permutation of the domain in non-decreasing order of words ruled out; without neighbours, the empty ordering |
| Crossword.CrosswordCreator.Backtrack | week3/crossword/generate.py:280-301 | either None, with the assignment exactly as passed in, or that same assignment extended with words from the domains, complete and (unless it came in complete) consistent; when every slot crosses another, None only when no solution over the domains extends the assignment passed in |
| Crossword.CrosswordCreator.TryValues | week3/crossword/generate.py:294-301 | the loop over a slot's ordered words: the same outcome as Backtrack, and when every slot crosses another, None only when no word of the list extends the assignment to a solution |
| Crossword.CrosswordCreator.TryValue | week3/crossword/generate.py:295-300 | one trial of a word: the same outcome as Backtrack, with the tentative entry deleted on failure; when every slot crosses another, failure means that no solution extends the assignment with this word |
| Crossword.SearchedStep | week3/crossword/generate.py:295-299 | a solution found after a consistent first assignment is a solution found from the assignment before it |
| Crossword.SearchedSolution | week3/crossword/generate.py:96 | a search from the empty assignment that succeeds gives every slot a word of its domain, consistently |
| Crossword.ExtendableConsistent | week3/crossword/generate.py:296 | only a consistent assignment extends to a solution, which is why the search may skip an inconsistent one |
| Crossword.ExtendableSplit | week3/crossword/generate.py:293-294 | a solution extending an assignment that leaves slot x empty extends it with some word of x's domain |
| Crossword.NoneExtendsStep | week3/crossword/generate.py:294-300 | a failed word joins the list of words shown to extend to no solution |
| Crossword.NoneExtendsMember | week3/crossword/generate.py:294-300 | no word of that list extends the assignment to a solution |
| Crossword.NoneExtendsAll | week3/crossword/generate.py:293-301 | once every word of the slot's domain has failed, no solution extends the assignment |
| Crossword.SolutionFits | week3/crossword/generate.py:90-96 | the words of a solution come from the vocabulary and have their slots' lengths |
| Crossword.Assignment.constructor | week3/crossword/generate.py:96 | the search starts from an empty assignment |
| Crossword.CrosswordCreator.Solve | week3/crossword/generate.py:90-96 | afterwards the domains are node consistent, only shrank and kept every solution; a returned assignment fills every slot with a word of its domain without breaking a constraint, and is a solution of the original domains too; when every slot crosses another, None means that the puzzle has no solution at all |

## Left out

- week3/crossword/crossword.py is not part of this model. The slots, the vocabulary, the crossing positions and `neighbors` are the `Puzzle` input. The properties `crossword.py` is relied on to give them are stated in `WellFormed` and `Neighbors`.
- Word-file loading, `letter_grid`, `print`, `save` (image drawing) and `main` of the crossword generator: I/O and rendering.
- Crossword.CrosswordCreator.AssignmentComplete: an entry whose word is `None` is not modelled. Words in an assignment are always strings, since the search never stores `None`.
- Crossword.CrosswordCreator.AC3: the contract does not state the FIFO order. The body pops the head of the worklist and appends at its end, and the order affects only which arcs are revised first. The ghost result `initial` names the starting worklist only for the contract.
- Crossword.CrosswordCreator.Backtrack: completeness (None only when no solution extends the input) is stated for puzzles where every slot crosses another (`AllCross`). `order_domain_values` gives a slot without neighbours an empty ordering, so on other puzzles the search can fail although a solution exists. The same holds for `TryValues`, `TryValue` and `Solve`.
- Crossword.SortByScore: the contract does not state how words of equal score are ordered. Python's `sorted` keeps equal scores in table order, and the insertion sort used here does too.
- Minesweeper game set-up (random mine placement in `Minesweeper.__init__`), `Minesweeper.print`, `is_mine`, `won` and `Sentence.__str__`: randomness and console output. The board is a parameter of `NearbyMines`.
- `MinesweeperAI.make_random_move`: it draws random cells.
- The `print("FOUND MINE")` inside `mark_cells`: console output only.
- `Sentence.safes` and `Sentence.mines`: these fields are never read or written after construction.
- Minesweeper.MinesweeperAI.AddKnowledge takes a `fuel` bound on the rounds of its inference loop. The source loop has no bound and does not end on contradictory knowledge. An example is two sentences over the same three cells with counts 1 and 2. Inference then keeps proposing an empty sentence with count ±1, which marking discards. With fuel left the model ends exactly when the source loop does. When the fuel runs out it returns `settled == false`.
- Minesweeper.MinesweeperAI.MarkKnownSafes and `MarkKnownMines` mark the cells of a set one at a time, in whatever order the set is iterated. Their contracts state the result as the whole set marked at once; `MarkAllOneMore` proves that the order does not matter.
- The `copy.deepcopy` of `known_safes()`/`known_mines()` in `mark_cells` is modelled by taking the set's value before marking.
- `Sentence` identity in `inferences`: Python's `==` and `not in` on sentences compare values (`__eq__`). The model compares `Fact` values and keeps objects distinct in the list.
- The commented-out second implementation at the end of tictactoe.py: dead code.
- `math.inf` in `minimax`/`maxvalue`/`minvalue` is modelled by the sentinels 2 and -2. Every real value lies in -1..1, so no comparison changes.
