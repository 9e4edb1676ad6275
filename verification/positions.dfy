/** The game positions the search consumes. A position is seen only through
    what the board offers the bots: whether it is full, its goal value, its
    heuristic value, and, for every column, how many stones the column holds
    and which position a move in that column leads to. The positions reachable
    from a root form a finite tree. */
module Positions {

  /** One position: `full`, `goal` and `heuristic` are the answers of the
      board's fullness test, goal test and static evaluation; `height` is the
      board height; `columns` has one entry per column, so the board width is
      |columns|. */
  datatype Node = Node(full: bool, goal: int, heuristic: int, height: int, columns: seq<Column>)

  /** A column: the number of stones in it and the position that results from
      copying the board and dropping a stone into this column. */
  datatype Column = Column(stones: nat, next: Node)

  /** Column c is one the move generator offers: it exists and holds at most
      `height` stones (a column holding exactly `height` stones is offered too). */
  predicate Playable(n: Node, c: int) {
    0 <= c < |n.columns| && n.columns[c].stones <= n.height
  }

  /** The (column, child) pairs the move generator appends for columns i, i+1, ...
      of n, in increasing column order. */
  function ChildrenFrom(n: Node, i: nat): (r: seq<(int, Node)>)
    decreases |n.columns| - i
  {
    if i >= |n.columns| then []
    else if n.columns[i].stones <= n.height then
      [(i, n.columns[i].next)] + ChildrenFrom(n, i + 1)
    else
      ChildrenFrom(n, i + 1)
  }

  /** All the (column, child) pairs of n, in increasing column order. */
  function Children(n: Node): (r: seq<(int, Node)>) {
    ChildrenFrom(n, 0)
  }

  /** From column i on, every pair the generator yields is a playable column
      at or after i, with the position a move there gives. */
  lemma {:induction false} ChildrenFromSound(n: Node, i: nat)
    decreases |n.columns| - i
    ensures forall k :: 0 <= k < |ChildrenFrom(n, i)| ==>
      && i <= ChildrenFrom(n, i)[k].0
      && Playable(n, ChildrenFrom(n, i)[k].0)
      && ChildrenFrom(n, i)[k].1 == n.columns[ChildrenFrom(n, i)[k].0].next
  {
    if i < |n.columns| {
      ChildrenFromSound(n, i + 1);
      var rest := ChildrenFrom(n, i + 1);
      if n.columns[i].stones <= n.height {
        var r := [(i, n.columns[i].next)] + rest;
        assert ChildrenFrom(n, i) == r;
        forall k | 0 <= k < |r| ensures i <= r[k].0 && Playable(n, r[k].0) && r[k].1 == n.columns[r[k].0].next {
          if k > 0 { assert r[k] == rest[k - 1]; }
        }
      }
    }
  }

  /** From column i on, the generator yields columns in strictly increasing order. */
  lemma {:induction false} ChildrenFromSorted(n: Node, i: nat)
    decreases |n.columns| - i
    ensures forall j, k :: 0 <= j < k < |ChildrenFrom(n, i)| ==> ChildrenFrom(n, i)[j].0 < ChildrenFrom(n, i)[k].0
  {
    if i < |n.columns| {
      ChildrenFromSorted(n, i + 1);
      ChildrenFromSound(n, i + 1);
      var rest := ChildrenFrom(n, i + 1);
      if n.columns[i].stones <= n.height {
        var r := [(i, n.columns[i].next)] + rest;
        assert ChildrenFrom(n, i) == r;
        forall j, k | 0 <= j < k < |r| ensures r[j].0 < r[k].0 {
          assert r[k] == rest[k - 1];
          if j > 0 { assert r[j] == rest[j - 1]; }
        }
      }
    }
  }

  /** From column i on, the generator yields every playable column. */
  lemma {:induction false} ChildrenFromComplete(n: Node, i: nat, c: int)
    decreases |n.columns| - i
    requires i <= c && Playable(n, c)
    ensures (c, n.columns[c].next) in ChildrenFrom(n, i)
  {
    var rest := ChildrenFrom(n, i + 1);
    if c == i {
      assert ChildrenFrom(n, i)[0] == (c, n.columns[c].next);
    } else {
      ChildrenFromComplete(n, i + 1, c);
      if n.columns[i].stones <= n.height {
        assert ChildrenFrom(n, i) == [(i, n.columns[i].next)] + rest;
      } else {
        assert ChildrenFrom(n, i) == rest;
      }
    }
  }

  /** The move generator yields one pair per playable column, columns
      strictly increasing, each paired with the position a move there gives. */
  lemma ChildrenSpec(n: Node)
    ensures forall k :: 0 <= k < |Children(n)| ==>
      Playable(n, Children(n)[k].0) && Children(n)[k].1 == n.columns[Children(n)[k].0].next
    ensures forall j, k :: 0 <= j < k < |Children(n)| ==> Children(n)[j].0 < Children(n)[k].0
    ensures forall c :: Playable(n, c) ==> (c, n.columns[c].next) in Children(n)
  {
    ChildrenFromSound(n, 0);
    ChildrenFromSorted(n, 0);
    forall c | Playable(n, c) ensures (c, n.columns[c].next) in Children(n) {
      ChildrenFromComplete(n, 0, c);
    }
  }

  /** The part of ChildrenSpec the searches rely on: every pair is a playable
      column with the position a move there gives. */
  lemma ChildrenSound(n: Node)
    ensures forall k :: 0 <= k < |Children(n)| ==>
      Playable(n, Children(n)[k].0) && Children(n)[k].1 == n.columns[Children(n)[k].0].next
  {
    ChildrenFromSound(n, 0);
  }
}
