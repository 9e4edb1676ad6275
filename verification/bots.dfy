/** The four Connect-Four bots: the move generator they share, and for each
    bot its settings, its `FindMove` entry point and its recursive search.
    Every search is proved against the pure specification in module Search. */
module Bots {
  import opened ExtendedInt
  import opened Positions
  import opened Search

  /** The shared move generator: scans the columns left to right and pairs
      every column whose stone count passes the height test with the position
      that playing there produces. */
  method GenerateChildren(board: Node) returns (children: seq<(int, Node)>)
    ensures children == Children(board)
  {
    children := [];
    var i := 0;
    while i < |board.columns|
      invariant 0 <= i <= |board.columns|
      invariant children + ChildrenFrom(board, i) == Children(board)
    {
      if board.columns[i].stones <= board.height {
        var newBoard := board.columns[i].next;
        children := children + [(i, newBoard)];
      }
      i := i + 1;
    }
  }

  /** The bots pass their boolean side flag where a player number is expected;
      as a number the flag is 1 (true, the maximiser) or 0 (false, which every
      search treats as the minimiser). */
  function PlayerNumber(isPlayerOne: bool): (p: int)
    ensures p == 1 <==> isPlayerOne
    ensures Other(p) == 1 <==> !isPlayerOne
  {
    if isPlayerOne then 1 else 0
  }

  /** Depth-limited minimax. */
  class MinMaxCutoffBot {
    const depthLimit: int
    const isPlayerOne: bool

    constructor (depthLimit: int, isPlayerOne: bool)
      ensures this.depthLimit == depthLimit && this.isPlayerOne == isPlayerOne
    {
      this.depthLimit := depthLimit;
      this.isPlayerOne := isPlayerOne;
    }

    /** The column of the depth-limited minimax choice; when the depth limit
        covers the whole remaining game it is the plain minimax column. */
    method FindMove(board: Node) returns (move: int)
      ensures move == CutoffMinimax(board, depthLimit, PlayerNumber(isPlayerOne)).column
      ensures move == -1 || Playable(board, move)
      ensures depthLimit >= Plies(board) ==> move == Minimax(board, PlayerNumber(isPlayerOne)).column
    {
      var score;
      score, move := MiniMax(board, depthLimit, PlayerNumber(isPlayerOne));
      ColumnIsMove(board, depthLimit, PlayerNumber(isPlayerOne));
      if depthLimit >= Plies(board) {
        CutoffAgrees(board, depthLimit, PlayerNumber(isPlayerOne));
      }
    }

    /** The search proper: a full board, an exhausted depth, then a goal end it;
        otherwise the side to move scans the children. */
    method MiniMax(board: Node, depth: int, player: int) returns (bestval: Score, bestColumn: int)
      ensures Choice(bestval, bestColumn) == CutoffMinimax(board, depth, player)
      decreases board, 1
    {
      if board.full {
        return Fin(board.heuristic), -1;
      }
      if depth <= 0 {
        return Fin(board.heuristic), -1;
      }
      var g := board.goal;
      if g >= 0 {
        return Fin(g), -1;
      }
      if player == 1 {
        bestval, bestColumn := MaxNode(board, depth);
      } else {
        bestval, bestColumn := MinNode(board, depth);
      }
    }

    /** The maximiser (player 1) scans the children left to right and keeps the first
        strictly best score with its column. */
    method MaxNode(board: Node, depth: int) returns (bestval: Score, bestColumn: int)
      ensures Choice(bestval, bestColumn) == Decide(Children(board), CutoffScores(board, depth - 1, 2), true)
      decreases board, 0
    {
      ghost var scores := CutoffScores(board, depth - 1, 2);
      bestval := NegInf;
      bestColumn := -1;
      var children := GenerateChildren(board);
      ChildrenSound(board);
      for i := 0 to |children|
        invariant Choice(bestval, bestColumn) == Decide(children[..i], scores[..i], true)
      {
        var (column, child) := children[i];
        var bestScore, _ := MiniMax(child, depth - 1, 2);
        if Less(bestval, bestScore) {
          bestval, bestColumn := bestScore, column;
        }
        DecideNext(children, scores, i, true);
      }
      DecideAll(children, scores, true);
    }

    /** The minimiser (any other player) scans the children left to right and keeps the first
        strictly best score with its column. */
    method MinNode(board: Node, depth: int) returns (bestval: Score, bestColumn: int)
      ensures Choice(bestval, bestColumn) == Decide(Children(board), CutoffScores(board, depth - 1, 1), false)
      decreases board, 0
    {
      ghost var scores := CutoffScores(board, depth - 1, 1);
      bestval := PosInf;
      bestColumn := -1;
      var children := GenerateChildren(board);
      ChildrenSound(board);
      for i := 0 to |children|
        invariant Choice(bestval, bestColumn) == Decide(children[..i], scores[..i], false)
      {
        var (column, child) := children[i];
        var bestScore, _ := MiniMax(child, depth - 1, 1);
        if Less(bestScore, bestval) {
          bestval, bestColumn := bestScore, column;
        }
        DecideNext(children, scores, i, false);
      }
      DecideAll(children, scores, false);
    }
  }

  /** Depth-limited minimax with alpha-beta pruning. */
  class AlphaBetaCutoffBot {
    const depthLimit: int
    const isPlayerOne: bool

    constructor (depthLimit: int, isPlayerOne: bool)
      ensures this.depthLimit == depthLimit && this.isPlayerOne == isPlayerOne
    {
      this.depthLimit := depthLimit;
      this.isPlayerOne := isPlayerOne;
    }

    /** Searched with the full window, the pruned search names exactly the
        depth-limited minimax column, and the plain minimax column when the
        depth limit covers the whole remaining game. */
    method FindMove(board: Node) returns (move: int)
      ensures move == CutoffMinimax(board, depthLimit, PlayerNumber(isPlayerOne)).column
      ensures move == -1 || Playable(board, move)
      ensures depthLimit >= Plies(board) ==> move == Minimax(board, PlayerNumber(isPlayerOne)).column
    {
      var score;
      score, move := AlphaBeta(board, depthLimit, PlayerNumber(isPlayerOne), NegInf, PosInf);
      FullWindowExact(CutoffMinimax(board, depthLimit, PlayerNumber(isPlayerOne)), Choice(score, move));
      if depthLimit >= Plies(board) {
        CutoffAgrees(board, depthLimit, PlayerNumber(isPlayerOne));
      }
    }

    /** The pruned search: the leaves as in minimax; at an internal node the
        answer is fail-soft for the window (alpha, beta). */
    method AlphaBeta(board: Node, depth: int, player: int, alpha: Score, beta: Score) returns (bestval: Score, bestColumn: int)
      ensures Less(alpha, beta) ==> FailSoft(alpha, beta, CutoffMinimax(board, depth, player), Choice(bestval, bestColumn))
      ensures bestColumn == -1 || Playable(board, bestColumn)
      decreases board, 1
    {
      if board.full {
        return Fin(board.heuristic), -1;
      }
      if depth <= 0 {
        return Fin(board.heuristic), -1;
      }
      var g := board.goal;
      if g >= 0 {
        return Fin(g), -1;
      }
      if player == 1 {
        bestval, bestColumn := MaxNode(board, depth, alpha, beta);
      } else {
        bestval, bestColumn := MinNode(board, depth, alpha, beta);
      }
    }

    /** The maximiser (player 1) scans the children left to right, raising alpha
        to the best score so far and stopping once alpha reaches beta. */
    method MaxNode(board: Node, depth: int, alpha: Score, beta: Score) returns (bestval: Score, bestColumn: int)
      ensures Less(alpha, beta) ==>
        FailSoft(alpha, beta, Decide(Children(board), CutoffScores(board, depth - 1, 2), true), Choice(bestval, bestColumn))
      ensures bestColumn == -1 || Playable(board, bestColumn)
      decreases board, 0
    {
      ghost var scores := CutoffScores(board, depth - 1, 2);
      // a is alpha as the scan raises it
      var a := alpha;
      bestval := NegInf;
      bestColumn := -1;
      var children := GenerateChildren(board);
      ChildrenSound(board);
      for i := 0 to |children|
        invariant a == Max(alpha, bestval)
        invariant bestColumn == -1 || Playable(board, bestColumn)
        invariant Less(alpha, beta) ==>
          Less(a, beta) && FailSoft(alpha, beta, Decide(children[..i], scores[..i], true), Choice(bestval, bestColumn))
      {
        var (column, child) := children[i];
        var bestScore, columnN := AlphaBeta(child, depth - 1, 2, a, beta);
        ghost var before := Choice(bestval, bestColumn);
        if Less(bestval, bestScore) {
          bestval, bestColumn := bestScore, column;
        }
        if Less(a, bestval) {
          // the window only moves when this child has just improved bestval
          assert bestColumn == column;
          a := bestval;
          bestColumn := column;
        }
        if Less(alpha, beta) {
          MaxScanStep(children, scores, i, alpha, beta, before, CutoffMinimax(child, depth - 1, 2), Choice(bestScore, columnN));
        }
        if !Less(a, beta) {
          if Less(alpha, beta) {
            PruneMax(children, scores, i, alpha, beta, Choice(bestval, bestColumn));
          }
          break;
        }
      }
      DecideAll(children, scores, true);
    }

    /** The minimiser (any other player) scans the children left to right, lowering
        beta to the best score so far and stopping once alpha reaches beta. */
    method MinNode(board: Node, depth: int, alpha: Score, beta: Score) returns (bestval: Score, bestColumn: int)
      ensures Less(alpha, beta) ==>
        FailSoft(alpha, beta, Decide(Children(board), CutoffScores(board, depth - 1, 1), false), Choice(bestval, bestColumn))
      ensures bestColumn == -1 || Playable(board, bestColumn)
      decreases board, 0
    {
      ghost var scores := CutoffScores(board, depth - 1, 1);
      // b is beta as the scan lowers it
      var b := beta;
      bestval := PosInf;
      bestColumn := -1;
      var children := GenerateChildren(board);
      ChildrenSound(board);
      for i := 0 to |children|
        invariant b == Min(beta, bestval)
        invariant bestColumn == -1 || Playable(board, bestColumn)
        invariant Less(alpha, beta) ==>
          Less(alpha, b) && FailSoft(alpha, beta, Decide(children[..i], scores[..i], false), Choice(bestval, bestColumn))
      {
        var (column, child) := children[i];
        var bestScore, columnN := AlphaBeta(child, depth - 1, 1, alpha, b);
        ghost var before := Choice(bestval, bestColumn);
        if Less(bestScore, bestval) {
          bestval, bestColumn := bestScore, column;
        }
        if Less(bestval, b) {
          // the window only moves when this child has just improved bestval
          assert bestColumn == column;
          b := bestval;
          bestColumn := column;
        }
        if Less(alpha, beta) {
          MinScanStep(children, scores, i, alpha, beta, before, CutoffMinimax(child, depth - 1, 1), Choice(bestScore, columnN));
        }
        if !Less(alpha, b) {
          if Less(alpha, beta) {
            PruneMin(children, scores, i, alpha, beta, Choice(bestval, bestColumn));
          }
          break;
        }
      }
      DecideAll(children, scores, false);
    }
  }

  /** Minimax with alpha-beta pruning, searched to the end of the game. */
  class AlphaBetaBot {
    const depthLimit: int
    const isPlayerOne: bool

    constructor (depthLimit: int, isPlayerOne: bool)
      ensures this.depthLimit == depthLimit && this.isPlayerOne == isPlayerOne
    {
      this.depthLimit := depthLimit;
      this.isPlayerOne := isPlayerOne;
    }

    /** Searched with the full window, the pruned search names exactly the
        minimax column. */
    method FindMove(board: Node) returns (move: int)
      ensures move == Minimax(board, PlayerNumber(isPlayerOne)).column
      ensures move == -1 || Playable(board, move)
    {
      var score;
      score, move := AlphaBetaVanila(board, PlayerNumber(isPlayerOne), NegInf, PosInf);
      FullWindowExact(Minimax(board, PlayerNumber(isPlayerOne)), Choice(score, move));
    }

    /** The pruned search: the leaves as in minimax; at an internal node the
        answer is fail-soft for the window (alpha, beta). */
    method AlphaBetaVanila(board: Node, player: int, alpha: Score, beta: Score) returns (bestval: Score, bestColumn: int)
      ensures Less(alpha, beta) ==> FailSoft(alpha, beta, Minimax(board, player), Choice(bestval, bestColumn))
      ensures bestColumn == -1 || Playable(board, bestColumn)
      decreases board, 1
    {
      if board.full {
        return Fin(board.heuristic), -1;
      }
      var g := board.goal;
      if g >= 0 {
        return Fin(g), -1;
      }
      if player == 1 {
        bestval, bestColumn := MaxNode(board, alpha, beta);
      } else {
        bestval, bestColumn := MinNode(board, alpha, beta);
      }
    }

    /** The maximiser (player 1) scans the children left to right, raising alpha
        to the best score so far and stopping once alpha reaches beta. */
    method MaxNode(board: Node, alpha: Score, beta: Score) returns (bestval: Score, bestColumn: int)
      ensures Less(alpha, beta) ==>
        FailSoft(alpha, beta, Decide(Children(board), Scores(board, 2), true), Choice(bestval, bestColumn))
      ensures bestColumn == -1 || Playable(board, bestColumn)
      decreases board, 0
    {
      ghost var scores := Scores(board, 2);
      // a is alpha as the scan raises it
      var a := alpha;
      bestval := NegInf;
      bestColumn := -1;
      var children := GenerateChildren(board);
      ChildrenSound(board);
      for i := 0 to |children|
        invariant a == Max(alpha, bestval)
        invariant bestColumn == -1 || Playable(board, bestColumn)
        invariant Less(alpha, beta) ==>
          Less(a, beta) && FailSoft(alpha, beta, Decide(children[..i], scores[..i], true), Choice(bestval, bestColumn))
      {
        var (column, child) := children[i];
        var bestScore, columnN := AlphaBetaVanila(child, 2, a, beta);
        ghost var before := Choice(bestval, bestColumn);
        if Less(bestval, bestScore) {
          bestval, bestColumn := bestScore, column;
        }
        if Less(a, bestval) {
          // the window only moves when this child has just improved bestval
          assert bestColumn == column;
          a := bestval;
          bestColumn := column;
        }
        if Less(alpha, beta) {
          MaxScanStep(children, scores, i, alpha, beta, before, Minimax(child, 2), Choice(bestScore, columnN));
        }
        if !Less(a, beta) {
          if Less(alpha, beta) {
            PruneMax(children, scores, i, alpha, beta, Choice(bestval, bestColumn));
          }
          break;
        }
      }
      DecideAll(children, scores, true);
    }

    /** The minimiser (any other player) scans the children left to right, lowering
        beta to the best score so far and stopping once alpha reaches beta. */
    method MinNode(board: Node, alpha: Score, beta: Score) returns (bestval: Score, bestColumn: int)
      ensures Less(alpha, beta) ==>
        FailSoft(alpha, beta, Decide(Children(board), Scores(board, 1), false), Choice(bestval, bestColumn))
      ensures bestColumn == -1 || Playable(board, bestColumn)
      decreases board, 0
    {
      ghost var scores := Scores(board, 1);
      // b is beta as the scan lowers it
      var b := beta;
      bestval := PosInf;
      bestColumn := -1;
      var children := GenerateChildren(board);
      ChildrenSound(board);
      for i := 0 to |children|
        invariant b == Min(beta, bestval)
        invariant bestColumn == -1 || Playable(board, bestColumn)
        invariant Less(alpha, beta) ==>
          Less(alpha, b) && FailSoft(alpha, beta, Decide(children[..i], scores[..i], false), Choice(bestval, bestColumn))
      {
        var (column, child) := children[i];
        var bestScore, columnN := AlphaBetaVanila(child, 1, alpha, b);
        ghost var before := Choice(bestval, bestColumn);
        if Less(bestScore, bestval) {
          bestval, bestColumn := bestScore, column;
        }
        if Less(bestval, b) {
          // the window only moves when this child has just improved bestval
          assert bestColumn == column;
          b := bestval;
          bestColumn := column;
        }
        if Less(alpha, beta) {
          MinScanStep(children, scores, i, alpha, beta, before, Minimax(child, 1), Choice(bestScore, columnN));
        }
        if !Less(alpha, b) {
          if Less(alpha, beta) {
            PruneMin(children, scores, i, alpha, beta, Choice(bestval, bestColumn));
          }
          break;
        }
      }
      DecideAll(children, scores, false);
    }
  }

  /** Plain minimax, searched to the end of the game. */
  class MinMaxBot {
    const depthLimit: int
    const isPlayerOne: bool

    constructor (depthLimit: int, isPlayerOne: bool)
      ensures this.depthLimit == depthLimit && this.isPlayerOne == isPlayerOne
    {
      this.depthLimit := depthLimit;
      this.isPlayerOne := isPlayerOne;
    }

    /** The column of the minimax choice for the bot's side. */
    method FindMove(board: Node) returns (move: int)
      ensures move == Minimax(board, PlayerNumber(isPlayerOne)).column
      ensures move == -1 || Playable(board, move)
    {
      var score;
      score, move := MiniMaxVanila(board, PlayerNumber(isPlayerOne));
      ColumnIsMove(board, 0, PlayerNumber(isPlayerOne));
    }

    /** The search proper: a full board, then a goal end it;
        otherwise the side to move scans the children. */
    method MiniMaxVanila(board: Node, player: int) returns (bestval: Score, bestColumn: int)
      ensures Choice(bestval, bestColumn) == Minimax(board, player)
      decreases board, 1
    {
      if board.full {
        return Fin(board.heuristic), -1;
      }
      var g := board.goal;
      if g >= 0 {
        return Fin(g), -1;
      }
      if player == 1 {
        bestval, bestColumn := MaxNode(board);
      } else {
        bestval, bestColumn := MinNode(board);
      }
    }

    /** The maximiser (player 1) scans the children left to right and keeps the first
        strictly best score with its column. */
    method MaxNode(board: Node) returns (bestval: Score, bestColumn: int)
      ensures Choice(bestval, bestColumn) == Decide(Children(board), Scores(board, 2), true)
      decreases board, 0
    {
      ghost var scores := Scores(board, 2);
      bestval := NegInf;
      bestColumn := -1;
      var children := GenerateChildren(board);
      ChildrenSound(board);
      for i := 0 to |children|
        invariant Choice(bestval, bestColumn) == Decide(children[..i], scores[..i], true)
      {
        var (column, child) := children[i];
        var bestScore, _ := MiniMaxVanila(child, 2);
        if Less(bestval, bestScore) {
          bestval, bestColumn := bestScore, column;
        }
        DecideNext(children, scores, i, true);
      }
      DecideAll(children, scores, true);
    }

    /** The minimiser (any other player) scans the children left to right and keeps the first
        strictly best score with its column. */
    method MinNode(board: Node) returns (bestval: Score, bestColumn: int)
      ensures Choice(bestval, bestColumn) == Decide(Children(board), Scores(board, 1), false)
      decreases board, 0
    {
      ghost var scores := Scores(board, 1);
      bestval := PosInf;
      bestColumn := -1;
      var children := GenerateChildren(board);
      ChildrenSound(board);
      for i := 0 to |children|
        invariant Choice(bestval, bestColumn) == Decide(children[..i], scores[..i], false)
      {
        var (column, child) := children[i];
        var bestScore, _ := MiniMaxVanila(child, 1);
        if Less(bestScore, bestval) {
          bestval, bestColumn := bestScore, column;
        }
        DecideNext(children, scores, i, false);
      }
      DecideAll(children, scores, false);
    }
  }
}
