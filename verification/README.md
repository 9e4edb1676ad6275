# Connect-Four search bots in Dafny

This project models the move-choosing core of a Connect-Four player: the
four computer players of `bot.py` and the move generator they share.

- **Minimax with a depth cutoff** (`minMaxCutoffBot`).
- **Alpha-beta with a depth cutoff** (`alphaBetaCutoffBot`).
- **Alpha-beta to the end of the game** (`alphaBetaBot`).
- **Minimax to the end of the game** (`minMaxBot`).

Each bot is built from a depth limit and a side flag. `findMove` runs the
bot's recursive search from the current board and returns the column of the
move, or -1 when there is none.

The model has four modules:

- `ExtendedInt` (`extended_int.dfy`): scores are integers extended with
  -inf and +inf. These stand for the `math.inf` values the searches start
  from and pass as the alpha-beta window.
- `Positions` (`positions.dfy`): the board as the bots see it. A `Node`
  holds the answers of the board's fullness test, goal test and heuristic,
  the board height, and for each column its stone count and the position
  that a move there produces. `Children` is the list the move generator
  builds. Lemmas prove it sound, strictly increasing in column and complete.
- `Search` (`search.dfy`): the specification, written as pure functions.
  `Minimax` and `CutoffMinimax` give the backed-up score and the first column
  that attains it. The maximiser is player 1, and every other player
  minimises. `FailSoft` states what an alpha-beta answer must satisfy for a
  window (alpha, beta). `CutoffAgrees` proves that a depth limit covering
  the whole game changes nothing.
- `Bots` (`bots.dfy`): the executable side. `GenerateChildren` is the
  generator's `while` loop. Each bot is a class with the two constructor
  fields, `FindMove`, the recursive search and its two scans (maximiser and
  minimiser). Each scan is a `for` loop over the children with the
  source's running variables `bestval` and `bestColumn`. The alpha-beta
  scans also carry the moving bound and the `break`.

Every search method is proved against the specification:

- Each minimax search returns exactly `Minimax` (or `CutoffMinimax`).
- Each alpha-beta search returns a fail-soft answer whenever alpha < beta.
- With the full window (-inf, +inf), the alpha-beta answer equals the
  minimax result. This covers the column as well as the score, so
  alpha-beta `findMove` picks the same column as minimax.

In the alpha-beta loops, a second statement also writes `bestColumn` when
the window moves. The proof asserts that this statement always writes the
column that is already there. The window moves only when the current child
has just raised `bestval`, so the two updates of `bestColumn` never
disagree.

The side flag is a boolean that the bots pass where a player number is
expected. `PlayerNumber` makes the comparison `player == 1` explicit:
`true` acts as player 1 (the maximiser) and `false` as player 0, a
minimiser. In the recursion the players are 1 and 2.

The move generator's test is modelled as written: a column whose stone count
is *at most* the board height is offered. That includes a column that
already holds `height` stones. Whether such a column is really full depends
on the board class, which is not part of this model. The random bot in the
same file tests `== height` instead.

## Model

| member | source | states |
|---|---|---|
| Positions.ChildrenFromSound | bot.py:15-25 | every pair generated from column i on names a column at least i that passes the height test, together with the position a move there produces |
| Positions.ChildrenFromSorted | bot.py:17-23 | the generated columns are strictly increasing (left-to-right scan) |
| Positions.ChildrenFromComplete | bot.py:18-22 | every column from i on that passes the height test is generated, with its successor position |
| Positions.ChildrenSpec | bot.py:15-25 | the generator's list is exactly the playable columns, in increasing order, each with its successor |
| Positions.ChildrenSound | bot.py:15-25 | corollary of ChildrenSpec kept on its own: every generated pair is a playable column with the position a move there produces |
| Bots.GenerateChildren | bot.py:15-25 | the `while` loop builds exactly the generator's list |
| Bots.PlayerNumber | bot.py:35 | the side flag acts as player 1 exactly when it is true, and its children are searched as player 1 exactly when it is false |
| Search.BestOfBound | bot.py:51-55 | no child score beats the running best after a full scan, and the best is a child score or the starting infinity |
| Search.FirstIndexFirst | bot.py:53-55 | no earlier child attains the chosen score (strict comparison keeps the first) |
| Search.DecideSnoc | bot.py:51-55 | one more loop iteration changes the choice exactly when the new score is strictly better, and then names the new column |
| Search.DecideNext | bot.py:51-55 | the same, stated over prefixes of the child list the loop walks |
| Search.DecideTop | bot.py:102-103 | once the best score so far is unbeatable (+inf for the maximiser, -inf for the minimiser) the remaining children cannot change the choice |
| Search.DecidePrefix | bot.py:102-103 | the choice over all children is at least as good as over any prefix |
| Search.LeafRules | bot.py:40-46 | full board scores its heuristic, then an exhausted depth does (cutoff only), then a goal scores its goal value; no column in each case |
| Search.MinimaxBackup | bot.py:188-207 | an internal node's minimax score is not beaten by any child's score (maximum for player 1, minimum otherwise), and the column is -1 exactly when the score stays at the starting infinity |
| Search.MinimaxFirstColumn | bot.py:192-196 | the chosen column is that of the first child attaining the backed-up score |
| Search.CutoffMinimaxBackup | bot.py:47-66 | the same backing-up property for the depth-limited search |
| Search.CutoffMinimaxFirstColumn | bot.py:51-55 | the same first-column property for the depth-limited search |
| Search.DecideColumn | bot.py:51-55 | the chosen column is -1 or a column the generator offers |
| Search.ColumnIsMove | bot.py:34-36 | both minimax columns are -1 or a playable column of the board |
| Search.PliesOfChild | bot.py:193 | every child of an internal node has a shorter remaining game |
| Search.InternalAgrees | bot.py:42-43 | when the children agree on their depth-limited and plain scores, so does the node |
| Search.CutoffAgrees | bot.py:42-43 | with a depth limit at least the length of the remaining game, depth-limited minimax equals plain minimax (score and column) |
| Search.FailSoftMaxStep | bot.py:94-101 | one maximiser iteration, with the child searched in the raised window, keeps the answer fail-soft |
| Search.FailSoftMinStep | bot.py:109-116 | one minimiser iteration, with the child searched in the lowered window, keeps the answer fail-soft |
| Search.MaxScanStep | bot.py:94-101 | the maximiser step over the prefixes of the child list |
| Search.MinScanStep | bot.py:109-116 | the minimiser step over the prefixes of the child list |
| Search.CutoffIsSound | bot.py:102-103 | stopping the scan once the answer reaches the far bound leaves it fail-soft for all children |
| Search.PruneMax | bot.py:102-103 | the maximiser's `break` once alpha reaches beta is sound |
| Search.PruneMin | bot.py:117-118 | the minimiser's `break` once alpha reaches beta is sound |
| Search.FullWindowExact | bot.py:77-79 | a fail-soft answer for the window (-inf, +inf) is exactly the minimax result |
| Search.FailSoftReveals | bot.py:82-119 | a fail-soft answer lies at or below alpha, inside, or at or above beta exactly when the minimax score does |
| Bots.MinMaxCutoffBot.constructor | bot.py:30-31 | the bot stores its depth limit and side flag |
| Bots.MinMaxCutoffBot.FindMove | bot.py:34-36 | returns the depth-limited minimax column, which is -1 or playable, and is the plain minimax column when the limit covers the game |
| Bots.MinMaxCutoffBot.MiniMax | bot.py:39-66 | returns exactly the depth-limited minimax score and column |
| Bots.MinMaxCutoffBot.MaxNode | bot.py:47-56 | the maximiser's loop returns the decision over the children's depth-limited scores |
| Bots.MinMaxCutoffBot.MinNode | bot.py:57-66 | the minimiser's loop returns the decision over the children's depth-limited scores |
| Bots.AlphaBetaCutoffBot.constructor | bot.py:73-74 | the bot stores its depth limit and side flag |
| Bots.AlphaBetaCutoffBot.FindMove | bot.py:77-79 | returns the depth-limited minimax column, which is -1 or playable, and is the plain minimax column when the limit covers the game |
| Bots.AlphaBetaCutoffBot.AlphaBeta | bot.py:82-119 | for alpha < beta the answer is fail-soft with respect to depth-limited minimax; the column is -1 or playable |
| Bots.AlphaBetaCutoffBot.MaxNode | bot.py:90-104 | the maximiser's pruned loop answers fail-soft for all children, including after a `break` |
| Bots.AlphaBetaCutoffBot.MinNode | bot.py:105-119 | the minimiser's pruned loop answers fail-soft for all children, including after a `break` |
| Bots.AlphaBetaBot.constructor | bot.py:124-125 | the bot stores its depth limit and side flag |
| Bots.AlphaBetaBot.FindMove | bot.py:128-130 | returns exactly the minimax column, which is -1 or playable |
| Bots.AlphaBetaBot.AlphaBetaVanila | bot.py:133-168 | for alpha < beta the answer is fail-soft with respect to minimax; the column is -1 or playable |
| Bots.AlphaBetaBot.MaxNode | bot.py:139-153 | the maximiser's pruned loop answers fail-soft for all children |
| Bots.AlphaBetaBot.MinNode | bot.py:154-168 | the minimiser's pruned loop answers fail-soft for all children |
| Bots.MinMaxBot.constructor | bot.py:173-174 | the bot stores its depth limit and side flag |
| Bots.MinMaxBot.FindMove | bot.py:177-179 | returns exactly the minimax column, which is -1 or playable |
| Bots.MinMaxBot.MiniMaxVanila | bot.py:182-207 | returns exactly the minimax score and column |
| Bots.MinMaxBot.MaxNode | bot.py:188-197 | the maximiser's loop returns the decision over the children's minimax scores |
| Bots.MinMaxBot.MinNode | bot.py:198-207 | the minimiser's loop returns the decision over the children's minimax scores |

## Left out

- The board class (`board.py`) is not part of this model. Its fullness test, goal test, heuristic, copying and `makeMove` are abstracted as the fields of a `Node`. A move's successor is given, not computed.
- `randomBot` (bot.py:212-222) is left out: it draws a random column, and randomness is outside the model.
- `HumanPlayer` (bot.py:225-231) is left out: its `findMove` is an empty stub that returns nothing.
- The game loop that calls `findMove` is not in bot.py and is not part of this model.
- Termination of the plain searches (`miniMaxVanila`, `alphaBetaVanila`) rests on an assumption of the model: positions form a finite tree, so every offered move leads to a structurally smaller `Node`. The source does not guarantee this. Its `<=` test (bot.py:19) offers a column that already holds `height` stones; if the board's `makeMove` left the board unchanged for such a column, the plain searches would recurse without end, and the model cannot express that run.
- Scores are integers extended with -inf and +inf. The heuristic and goal values are integers. Python floats other than the two infinities are not modelled.
- The searches are deterministic functions of their inputs, so calling `findMove` twice on the same board gives the same column. This holds by construction and is not stated as a separate lemma.
- Monotonicity of forced wins under a deeper search is not stated: it fails when leaves are scored by the heuristic.
- Bots.AlphaBetaCutoffBot.AlphaBeta: the fail-soft contract is stated only for a non-empty window (alpha < beta). Every call the bots make has such a window, and for an empty window the source only promises to stop after the first child.
- Bots.AlphaBetaBot.AlphaBetaVanila: the same restriction to windows with alpha < beta.
- Each search is one Python function with both a maximiser branch and a minimiser branch. The model splits each branch's loop into its own method, `MaxNode` or `MinNode`, called from the search method. The Python class hierarchy is flattened: `generateChildren` is a module-level method, and each bot class repeats the two constructor fields.
