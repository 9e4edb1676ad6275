/** What the four searches compute, stated as pure recursive functions:
    the minimax value of a position and the column that first attains it,
    with and without a depth cutoff, and what a fail-soft alpha-beta search
    must return for a given window. */
module Search {
  import opened ExtendedInt
  import opened Positions

  /** The (score, column) pair every search returns; column -1 means "no move". */
  datatype Choice = Choice(score: Score, column: int)

  /** The side to move at the children: the maximiser (1) hands over to 2,
      every other value hands over to 1. */
  function Other(player: int): (p: int) {
    if player == 1 then 2 else 1
  }

  /** The starting value of the running best: -inf for the maximiser, +inf for the minimiser. */
  function Initial(maximize: bool): (s: Score) {
    if maximize then NegInf else PosInf
  }

  /** The value no child can beat: +inf for the maximiser, -inf for the minimiser. */
  function Top(maximize: bool): (s: Score) {
    if maximize then PosInf else NegInf
  }

  /** x is strictly better than y for the side that maximises (or minimises). */
  predicate Better(x: Score, y: Score, maximize: bool) {
    if maximize then Less(y, x) else Less(x, y)
  }

  /** The best of a sequence of scores: the maximum (or minimum), and the
      starting infinity when the sequence is empty. */
  function BestOf(s: seq<Score>, maximize: bool): (best: Score) {
    if s == [] then Initial(maximize)
    else
      var r0 := BestOf(s[..|s| - 1], maximize);
      if Better(s[|s| - 1], r0, maximize) then s[|s| - 1] else r0
  }

  /** The first position of x in s. */
  function FirstIndex(s: seq<Score>, x: Score): (r: nat)
    requires x in s
    ensures r < |s| && s[r] == x
  {
    if s[0] == x then 0 else 1 + FirstIndex(s[1..], x)
  }

  /** The choice at an internal node whose children are `kids` and whose
      children score `scores`: the best score, and the first column attaining
      it, or -1 when no child improves on the starting infinity. */
  function Decide(kids: seq<(int, Node)>, scores: seq<Score>, maximize: bool): (d: Choice)
    requires |kids| == |scores|
  {
    var best := BestOf(scores, maximize);
    BestOfBound(scores, maximize);
    Choice(best, if best == Initial(maximize) then -1 else kids[FirstIndex(scores, best)].0)
  }

  /** No score beats the best, and the best is one of the scores or, when
      every score equals it, the starting infinity. */
  lemma {:induction false} BestOfBound(s: seq<Score>, maximize: bool)
    ensures forall k :: 0 <= k < |s| ==> !Better(s[k], BestOf(s, maximize), maximize)
    ensures BestOf(s, maximize) in s || (BestOf(s, maximize) == Initial(maximize) && forall k :: 0 <= k < |s| ==> s[k] == BestOf(s, maximize))
  {
    if s != [] {
      var init := s[..|s| - 1];
      BestOfBound(init, maximize);
      assert forall k :: 0 <= k < |s| - 1 ==> s[k] == init[k];
    }
  }

  /** No earlier position holds x. */
  lemma {:induction false} FirstIndexFirst(s: seq<Score>, x: Score)
    requires x in s
    ensures forall j :: 0 <= j < FirstIndex(s, x) ==> s[j] != x
  {
    if s[0] != x {
      FirstIndexFirst(s[1..], x);
      forall j | 0 < j < FirstIndex(s, x) ensures s[j] != x {
        assert s[j] == s[1..][j - 1];
      }
    }
  }

  /** One step of a scan: a strictly better score replaces the running choice
      and names its column; anything else leaves the choice alone. */
  function Improve(r: Choice, s: Score, column: int, maximize: bool): (next: Choice) {
    if Better(s, r.score, maximize) then Choice(s, column) else r
  }

  /** The minimax scores of the children of n, `player` being the side to move at them. */
  function Scores(n: Node, player: int): (r: seq<Score>)
    decreases n, 0
    ensures |r| == |Children(n)|
  {
    var kids := Children(n);
    ChildrenSound(n);
    seq(|kids|, k requires 0 <= k < |kids| => Minimax(kids[k].1, player).score)
  }

  /** The plain minimax result of n with `player` to move; player 1 maximises. */
  function Minimax(n: Node, player: int): (r: Choice)
    decreases n, 1
  {
    if n.full then Choice(Fin(n.heuristic), -1)
    else if n.goal >= 0 then Choice(Fin(n.goal), -1)
    else Decide(Children(n), Scores(n, Other(player)), player == 1)
  }

  /** The depth-limited minimax scores of the children of n, searched with `depth` plies left. */
  function CutoffScores(n: Node, depth: int, player: int): (r: seq<Score>)
    decreases n, 0
    ensures |r| == |Children(n)|
  {
    var kids := Children(n);
    ChildrenSound(n);
    seq(|kids|, k requires 0 <= k < |kids| => CutoffMinimax(kids[k].1, depth, player).score)
  }

  /** The depth-limited minimax result of n: a full board, then an exhausted
      depth, then a goal value end the search. */
  function CutoffMinimax(n: Node, depth: int, player: int): (r: Choice)
    decreases n, 1
  {
    if n.full then Choice(Fin(n.heuristic), -1)
    else if depth <= 0 then Choice(Fin(n.heuristic), -1)
    else if n.goal >= 0 then Choice(Fin(n.goal), -1)
    else Decide(Children(n), CutoffScores(n, depth - 1, Other(player)), player == 1)
  }

  /** The largest of a sequence of naturals, 0 for the empty sequence. */
  function MaxNat(s: seq<nat>): (r: nat)
    ensures forall k :: 0 <= k < |s| ==> s[k] <= r
  {
    if s == [] then 0
    else
      var r0 := MaxNat(s[1..]);
      if s[0] > r0 then s[0] else r0
  }

  /** The number of non-full positions on the longest line of play the plain
      search explores from n: 0 at a full board, 1 at a goal. */
  function Plies(n: Node): (p: nat)
    decreases n
  {
    if n.full then 0
    else if n.goal >= 0 then 1
    else
      var kids := Children(n);
      ChildrenSound(n);
      1 + MaxNat(seq(|kids|, k requires 0 <= k < |kids| => Plies(kids[k].1)))
  }

  /** The score v lies strictly between the bounds, where a bound of -inf is
      reached by -inf and a bound of +inf by +inf. */
  predicate InWindow(alpha: Score, v: Score, beta: Score) {
    && (Less(alpha, v) || v == alpha == NegInf)
    && (Less(v, beta) || v == beta == PosInf)
  }

  /** The fail-soft alpha-beta contract: r is an acceptable answer for the
      window (alpha, beta) at a node whose minimax result is v. */
  predicate FailSoft(alpha: Score, beta: Score, v: Choice, r: Choice) {
    && (AtMost(v.score, alpha) ==> AtMost(r.score, alpha))
    && (AtMost(beta, v.score) ==> AtMost(beta, r.score))
    && (InWindow(alpha, v.score, beta) ==> r == v)
  }

  // ---------------------------------------------------------------------------
  // Properties of the specification
  // ---------------------------------------------------------------------------

  /** Scanning one more child with a strict comparison keeps the earliest best
      column: the choice changes only when the new score is strictly better. */
  lemma DecideSnoc(kids: seq<(int, Node)>, scores: seq<Score>, kid: (int, Node), s: Score, maximize: bool)
    requires |kids| == |scores|
    ensures Decide(kids + [kid], scores + [s], maximize)
      == if Better(s, Decide(kids, scores, maximize).score, maximize) then Choice(s, kid.0)
         else Decide(kids, scores, maximize)
  {
    var scores' := scores + [s];
    assert scores'[..|scores'| - 1] == scores;
    var d := Decide(kids, scores, maximize);
    var best' := BestOf(scores', maximize);
    BestOfBound(scores, maximize);
    BestOfBound(scores', maximize);
    if Better(s, d.score, maximize) {
      assert best' == s;
      if best' != Initial(maximize) {
        forall j | 0 <= j < |scores| ensures scores'[j] != s {
          assert !Better(scores[j], d.score, maximize);
        }
        FirstIndexFirst(scores', s);
        assert FirstIndex(scores', s) == |scores|;
      }
    } else {
      assert best' == d.score;
      if best' != Initial(maximize) {
        assert d.score in scores;
        var f := FirstIndex(scores, d.score);
        assert scores'[f] == d.score;
        FirstIndexFirst(scores, d.score);
        FirstIndexFirst(scores', d.score);
        assert FirstIndex(scores', d.score) == f;
      }
    }
  }

  /** DecideSnoc for a scan over prefixes of one sequence of children: the
      choice over the first i + 1 children from the choice over the first i. */
  lemma DecideNext(kids: seq<(int, Node)>, scores: seq<Score>, i: nat, maximize: bool)
    requires |kids| == |scores| && i < |scores|
    ensures Decide(kids[..i + 1], scores[..i + 1], maximize)
      == Improve(Decide(kids[..i], scores[..i], maximize), scores[i], kids[i].0, maximize)
  {
    DecideSnoc(kids[..i], scores[..i], kids[i], scores[i], maximize);
    assert kids[..i + 1] == kids[..i] + [kids[i]];
    assert scores[..i + 1] == scores[..i] + [scores[i]];
  }

  /** A scan that reached the end has decided over all the children. */
  lemma DecideAll(kids: seq<(int, Node)>, scores: seq<Score>, maximize: bool)
    requires |kids| == |scores|
    ensures Decide(kids[..|kids|], scores[..|scores|], maximize) == Decide(kids, scores, maximize)
  {
    assert kids[..|kids|] == kids && scores[..|scores|] == scores;
  }

  /** Once the children scanned so far reach the unbeatable value, the rest
      of the children cannot change the choice. */
  lemma DecideTop(kids: seq<(int, Node)>, scores: seq<Score>, j: nat, maximize: bool)
    requires |kids| == |scores| && j <= |scores|
    requires Decide(kids[..j], scores[..j], maximize).score == Top(maximize)
    ensures Decide(kids, scores, maximize) == Decide(kids[..j], scores[..j], maximize)
  {
    var t := Top(maximize);
    BestOfBound(scores[..j], maximize);
    assert t in scores[..j];
    var f := FirstIndex(scores[..j], t);
    assert scores[f] == t;
    var best := BestOf(scores, maximize);
    BestOfBound(scores, maximize);
    assert best == t;
    FirstIndexFirst(scores[..j], t);
    FirstIndexFirst(scores, t);
    assert FirstIndex(scores, t) == f;
  }

  /** The leaf rules, in the order the searches test them: a full board
      scores its heuristic, then an exhausted depth (cutoff search only)
      scores the heuristic, then a goal scores its goal value; none of them
      names a column. */
  lemma LeafRules(n: Node, depth: int, player: int)
    ensures n.full ==> Minimax(n, player) == CutoffMinimax(n, depth, player) == Choice(Fin(n.heuristic), -1)
    ensures !n.full && depth <= 0 ==> CutoffMinimax(n, depth, player) == Choice(Fin(n.heuristic), -1)
    ensures !n.full && n.goal >= 0 ==> Minimax(n, player) == Choice(Fin(n.goal), -1)
    ensures !n.full && depth > 0 && n.goal >= 0 ==> CutoffMinimax(n, depth, player) == Choice(Fin(n.goal), -1)
  {
  }

  /** Minimax backs up the maximum (player 1) or minimum (any other player)
      of the children's minimax scores: no child scores strictly better, and
      the result is the starting infinity exactly when no column is named. */
  lemma MinimaxBackup(n: Node, player: int)
    requires !n.full && n.goal < 0
    ensures forall k :: 0 <= k < |Children(n)| ==>
      !Better(Minimax(Children(n)[k].1, Other(player)).score, Minimax(n, player).score, player == 1)
    ensures Minimax(n, player).column == -1 <==> Minimax(n, player).score == Initial(player == 1)
  {
    var kids := Children(n);
    var scores := Scores(n, Other(player));
    var v := Minimax(n, player);
    assert v == Decide(kids, scores, player == 1);
    BestOfBound(scores, player == 1);
    assert forall k :: 0 <= k < |kids| ==> scores[k] == Minimax(kids[k].1, Other(player)).score;
    if v.score != Initial(player == 1) {
      ChildrenSound(n);
      assert 0 <= kids[FirstIndex(scores, v.score)].0;
    }
  }

  /** The column minimax names is that of the first child, in generation
      order, whose minimax score equals the result. */
  lemma MinimaxFirstColumn(n: Node, player: int)
    requires !n.full && n.goal < 0 && Minimax(n, player).column != -1
    ensures exists k :: (0 <= k < |Children(n)|
      && Children(n)[k].0 == Minimax(n, player).column
      && Minimax(Children(n)[k].1, Other(player)).score == Minimax(n, player).score
      && forall j :: 0 <= j < k ==> Minimax(Children(n)[j].1, Other(player)).score != Minimax(n, player).score)
  {
    var kids := Children(n);
    var scores := Scores(n, Other(player));
    var v := Minimax(n, player);
    assert v == Decide(kids, scores, player == 1);
    BestOfBound(scores, player == 1);
    var f := FirstIndex(scores, v.score);
    FirstIndexFirst(scores, v.score);
    assert scores[f] == Minimax(kids[f].1, Other(player)).score;
    assert forall j :: 0 <= j < f ==> scores[j] == Minimax(kids[j].1, Other(player)).score;
  }

  /** Depth-limited minimax backs up its children's depth-limited scores the same way. */
  lemma CutoffMinimaxBackup(n: Node, depth: int, player: int)
    requires !n.full && depth > 0 && n.goal < 0
    ensures forall k :: 0 <= k < |Children(n)| ==>
      !Better(CutoffMinimax(Children(n)[k].1, depth - 1, Other(player)).score,
              CutoffMinimax(n, depth, player).score, player == 1)
    ensures CutoffMinimax(n, depth, player).column == -1 <==> CutoffMinimax(n, depth, player).score == Initial(player == 1)
  {
    var kids := Children(n);
    var scores := CutoffScores(n, depth - 1, Other(player));
    var v := CutoffMinimax(n, depth, player);
    assert v == Decide(kids, scores, player == 1);
    BestOfBound(scores, player == 1);
    assert forall k :: 0 <= k < |kids| ==> scores[k] == CutoffMinimax(kids[k].1, depth - 1, Other(player)).score;
    if v.score != Initial(player == 1) {
      ChildrenSound(n);
      assert 0 <= kids[FirstIndex(scores, v.score)].0;
    }
  }

  /** The column depth-limited minimax names is that of the first child whose
      depth-limited score equals the result. */
  lemma CutoffMinimaxFirstColumn(n: Node, depth: int, player: int)
    requires !n.full && depth > 0 && n.goal < 0 && CutoffMinimax(n, depth, player).column != -1
    ensures exists k :: (0 <= k < |Children(n)|
      && Children(n)[k].0 == CutoffMinimax(n, depth, player).column
      && CutoffMinimax(Children(n)[k].1, depth - 1, Other(player)).score == CutoffMinimax(n, depth, player).score
      && forall j :: 0 <= j < k ==>
           CutoffMinimax(Children(n)[j].1, depth - 1, Other(player)).score != CutoffMinimax(n, depth, player).score)
  {
    var kids := Children(n);
    var scores := CutoffScores(n, depth - 1, Other(player));
    var v := CutoffMinimax(n, depth, player);
    assert v == Decide(kids, scores, player == 1);
    BestOfBound(scores, player == 1);
    var f := FirstIndex(scores, v.score);
    FirstIndexFirst(scores, v.score);
    assert scores[f] == CutoffMinimax(kids[f].1, depth - 1, Other(player)).score;
    assert forall j :: 0 <= j < f ==> scores[j] == CutoffMinimax(kids[j].1, depth - 1, Other(player)).score;
  }

  /** The column a decision names is -1 or a column the move generator offers. */
  lemma DecideColumn(n: Node, scores: seq<Score>, maximize: bool)
    requires |scores| == |Children(n)|
    ensures Decide(Children(n), scores, maximize).column == -1 || Playable(n, Decide(Children(n), scores, maximize).column)
  {
    var kids := Children(n);
    ChildrenSound(n);
    var d := Decide(kids, scores, maximize);
    BestOfBound(scores, maximize);
    if d.score != Initial(maximize) {
      assert Playable(n, kids[FirstIndex(scores, d.score)].0);
    }
  }

  /** The column of either minimax is -1 or one the move generator offers at n. */
  lemma ColumnIsMove(n: Node, depth: int, player: int)
    ensures Minimax(n, player).column == -1 || Playable(n, Minimax(n, player).column)
    ensures CutoffMinimax(n, depth, player).column == -1 || Playable(n, CutoffMinimax(n, depth, player).column)
  {
    if !n.full && n.goal < 0 {
      DecideColumn(n, Scores(n, Other(player)), player == 1);
    }
    if !n.full && depth > 0 && n.goal < 0 {
      DecideColumn(n, CutoffScores(n, depth - 1, Other(player)), player == 1);
    }
  }

  /** Every child of an internal position has fewer plies left than the position. */
  lemma PliesOfChild(n: Node, k: int)
    requires !n.full && n.goal < 0 && 0 <= k < |Children(n)|
    ensures Plies(Children(n)[k].1) < Plies(n)
  {
    var kids := Children(n);
    var plies := seq(|kids|, k requires 0 <= k < |kids| => Plies(kids[k].1));
    assert Plies(n) == 1 + MaxNat(plies);
    assert plies[k] <= MaxNat(plies);
  }

  /** At an internal node whose children agree on their depth-limited and
      plain scores, the two searches make the same choice. */
  lemma InternalAgrees(n: Node, depth: int, player: int)
    requires !n.full && n.goal < 0 && depth > 0
    requires forall k :: 0 <= k < |Children(n)| ==>
      CutoffMinimax(Children(n)[k].1, depth - 1, Other(player)).score == Minimax(Children(n)[k].1, Other(player)).score
    ensures CutoffMinimax(n, depth, player) == Minimax(n, player)
  {
    assert CutoffScores(n, depth - 1, Other(player)) == Scores(n, Other(player));
  }

  /** With at least as many plies left as the game can last, the depth
      cutoff never fires: depth-limited minimax equals plain minimax. */
  lemma {:induction false} CutoffAgrees(n: Node, depth: int, player: int)
    requires depth >= Plies(n)
    ensures CutoffMinimax(n, depth, player) == Minimax(n, player)
    decreases depth
  {
    if !n.full && n.goal < 0 {
      var kids := Children(n);
      var p := Other(player);
      assert depth > 0;
      forall k | 0 <= k < |kids|
        ensures CutoffMinimax(kids[k].1, depth - 1, p).score == Minimax(kids[k].1, p).score
      {
        PliesOfChild(n, k);
        CutoffAgrees(kids[k].1, depth - 1, p);
      }
      InternalAgrees(n, depth, player);
    }
  }

  /** The choice over all children is at least as good as the choice over
      any prefix of them. */
  lemma DecidePrefix(kids: seq<(int, Node)>, scores: seq<Score>, j: nat, maximize: bool)
    requires |kids| == |scores| && j <= |scores|
    ensures !Better(Decide(kids[..j], scores[..j], maximize).score, Decide(kids, scores, maximize).score, maximize)
  {
    var p := BestOf(scores[..j], maximize);
    BestOfBound(scores[..j], maximize);
    BestOfBound(scores, maximize);
    if p in scores[..j] {
      var k :| 0 <= k < j && scores[k] == p;
      assert !Better(scores[k], BestOf(scores, maximize), maximize);
    }
  }

  /** One step of a maximising alpha-beta scan keeps the running answer
      fail-soft: the next child is searched with the window raised to
      (max(alpha, best so far), beta), and a strictly better child score
      replaces the answer and names its column. */
  lemma FailSoftMaxStep(alpha: Score, beta: Score, prefix: Choice, r: Choice, child: Choice, answer: Choice, column: int)
    requires Less(alpha, beta) && FailSoft(alpha, beta, prefix, r)
    requires Less(Max(alpha, r.score), beta) && FailSoft(Max(alpha, r.score), beta, child, answer)
    ensures FailSoft(alpha, beta, Improve(prefix, child.score, column, true), Improve(r, answer.score, column, true))
  {
  }

  /** The minimising mirror image: the window shrinks to (alpha, min(beta, best so far)). */
  lemma FailSoftMinStep(alpha: Score, beta: Score, prefix: Choice, r: Choice, child: Choice, answer: Choice, column: int)
    requires Less(alpha, beta) && FailSoft(alpha, beta, prefix, r)
    requires Less(alpha, Min(beta, r.score)) && FailSoft(alpha, Min(beta, r.score), child, answer)
    ensures FailSoft(alpha, beta, Improve(prefix, child.score, column, false), Improve(r, answer.score, column, false))
  {
  }

  /** FailSoftMaxStep for the scan over the children of a node: the answer
      after child i is fail-soft for the first i + 1 children. */
  lemma MaxScanStep(kids: seq<(int, Node)>, scores: seq<Score>, i: nat, alpha: Score, beta: Score,
                    r: Choice, child: Choice, answer: Choice)
    requires |kids| == |scores| && i < |scores| && child.score == scores[i]
    requires Less(alpha, beta) && FailSoft(alpha, beta, Decide(kids[..i], scores[..i], true), r)
    requires Less(Max(alpha, r.score), beta) && FailSoft(Max(alpha, r.score), beta, child, answer)
    ensures FailSoft(alpha, beta, Decide(kids[..i + 1], scores[..i + 1], true), Improve(r, answer.score, kids[i].0, true))
  {
    FailSoftMaxStep(alpha, beta, Decide(kids[..i], scores[..i], true), r, child, answer, kids[i].0);
    DecideNext(kids, scores, i, true);
  }

  /** FailSoftMinStep for the scan over the children of a node. */
  lemma MinScanStep(kids: seq<(int, Node)>, scores: seq<Score>, i: nat, alpha: Score, beta: Score,
                    r: Choice, child: Choice, answer: Choice)
    requires |kids| == |scores| && i < |scores| && child.score == scores[i]
    requires Less(alpha, beta) && FailSoft(alpha, beta, Decide(kids[..i], scores[..i], false), r)
    requires Less(alpha, Min(beta, r.score)) && FailSoft(alpha, Min(beta, r.score), child, answer)
    ensures FailSoft(alpha, beta, Decide(kids[..i + 1], scores[..i + 1], false), Improve(r, answer.score, kids[i].0, false))
  {
    FailSoftMinStep(alpha, beta, Decide(kids[..i], scores[..i], false), r, child, answer, kids[i].0);
    DecideNext(kids, scores, i, false);
  }

  /** Cutting a scan short is sound for a fail-soft search: when the answer
      so far is fail-soft for the children scanned, reaches the far bound of
      the window (beta for the maximiser, alpha for the minimiser), and the
      remaining children can only improve on the prefix (or the prefix already
      holds the unbeatable value), then the answer is fail-soft for all children. */
  lemma CutoffIsSound(alpha: Score, beta: Score, prefix: Choice, v: Choice, r: Choice, maximize: bool)
    requires Less(alpha, beta) && FailSoft(alpha, beta, prefix, r)
    requires !Better(prefix.score, v.score, maximize)
    requires prefix.score == Top(maximize) ==> v == prefix
    requires if maximize then AtMost(beta, r.score) else AtMost(r.score, alpha)
    ensures FailSoft(alpha, beta, v, r)
  {
  }

  /** A maximiser that stops after child i because its answer reached beta
      still answers fail-soft for all its children. */
  lemma PruneMax(kids: seq<(int, Node)>, scores: seq<Score>, i: nat, alpha: Score, beta: Score, r: Choice)
    requires |kids| == |scores| && i < |scores|
    requires Less(alpha, beta) && FailSoft(alpha, beta, Decide(kids[..i + 1], scores[..i + 1], true), r)
    requires AtMost(beta, r.score)
    ensures FailSoft(alpha, beta, Decide(kids, scores, true), r)
  {
    var prefix := Decide(kids[..i + 1], scores[..i + 1], true);
    DecidePrefix(kids, scores, i + 1, true);
    if prefix.score == PosInf {
      DecideTop(kids, scores, i + 1, true);
    }
    CutoffIsSound(alpha, beta, prefix, Decide(kids, scores, true), r, true);
  }

  /** A minimiser that stops after child i because its answer reached alpha
      still answers fail-soft for all its children. */
  lemma PruneMin(kids: seq<(int, Node)>, scores: seq<Score>, i: nat, alpha: Score, beta: Score, r: Choice)
    requires |kids| == |scores| && i < |scores|
    requires Less(alpha, beta) && FailSoft(alpha, beta, Decide(kids[..i + 1], scores[..i + 1], false), r)
    requires AtMost(r.score, alpha)
    ensures FailSoft(alpha, beta, Decide(kids, scores, false), r)
  {
    var prefix := Decide(kids[..i + 1], scores[..i + 1], false);
    DecidePrefix(kids, scores, i + 1, false);
    if prefix.score == NegInf {
      DecideTop(kids, scores, i + 1, false);
    }
    CutoffIsSound(alpha, beta, prefix, Decide(kids, scores, false), r, false);
  }

  /** The full window (-inf, +inf) lets every score through exactly, so a
      fail-soft answer for it is the minimax result itself. */
  lemma FullWindowExact(v: Choice, r: Choice)
    requires FailSoft(NegInf, PosInf, v, r)
    ensures r == v
  {
  }

  /** A fail-soft answer tells on which side of the window the minimax score
      lies: at most alpha, inside, or at least beta, exactly when the answer does. */
  lemma FailSoftReveals(alpha: Score, beta: Score, v: Choice, r: Choice)
    requires Less(alpha, beta) && FailSoft(alpha, beta, v, r)
    ensures AtMost(r.score, alpha) <==> AtMost(v.score, alpha)
    ensures AtMost(beta, r.score) <==> AtMost(beta, v.score)
  {
  }
}
