/** The link cells of the queues of qemu-queue.h.  One cell stands for a queue's head or for the link
    field of an element: `next` is the head's first pointer or the element's next pointer, and in a tail
    queue `prevCell` is the cell whose `next` field tqh_last or tqe_prev points at.  A head and an
    element's field have the same layout. */
module LinkCells {

  class Cell {
    var next: Cell?
    var prevCell: Cell?  // in tail queues

    constructor ()
    {
      next, prevCell := null, null;
    }
  }

  ghost predicate Distinct(c: seq<Cell>) { forall i, j :: 0 <= i < j < |c| ==> c[i] != c[j] }

  /** What cell i's `next` is in a queue of these cells, head first. */
  ghost function NextIn(c: seq<Cell>, i: nat): Cell?
    requires i < |c|
  {
    if i + 1 < |c| then c[i + 1] else null
  }

  /** The cells, head first, are linked forwards in this order. */
  ghost predicate Forward(c: seq<Cell>)
    reads c
  {
    Distinct(c) && forall i: nat {:trigger NextIn(c, i)} :: i < |c| ==> c[i].next == NextIn(c, i)
  }

  lemma DistinctAfterInsert(c: seq<Cell>, k: nat, e: Cell)
    requires Distinct(c) && 1 <= k <= |c| && e !in c
    ensures Distinct(c[..k] + [e] + c[k..])
    ensures (c[..k] + [e] + c[k..])[1..] == c[1..][..k - 1] + [e] + c[1..][k - 1..]
  {
    var d := c[..k] + [e] + c[k..];
    assert d[1..] == c[1..k] + [e] + c[k..];
  }

  lemma DistinctAfterRemove(c: seq<Cell>, k: nat)
    requires Distinct(c) && 1 <= k < |c|
    ensures Distinct(c[..k] + c[k + 1..])
    ensures (c[..k] + c[k + 1..])[1..] == c[1..][..k - 1] + c[1..][k..]
  {
    var d := c[..k] + c[k + 1..];
    assert d[1..] == c[1..k] + c[k + 1..];
  }

  /** Splicing e in at position k: the `next` of the cell before changes and e's is set. */
  lemma ForwardAfterInsert(c: seq<Cell>, k: nat, e: Cell)
    requires Distinct(c) && 1 <= k <= |c| && e !in c
    requires forall i: nat {:trigger NextIn(c, i)} :: i < |c| ==> c[i].next == if i == k - 1 then e else NextIn(c, i)
    requires e.next == NextIn(c, k - 1)
    ensures Forward(c[..k] + [e] + c[k..])
    ensures (c[..k] + [e] + c[k..])[1..] == c[1..][..k - 1] + [e] + c[1..][k - 1..]
  {
    DistinctAfterInsert(c, k, e);
    hide Distinct;
    var d := c[..k] + [e] + c[k..];
    forall i: nat | i < |d| ensures d[i].next == NextIn(d, i) {
      if i < k {
        assert d[i] == c[i];
        var next := NextIn(c, i);
      } else if i > k {
        assert d[i] == c[i - 1];
        var next := NextIn(c, i - 1);
      }
    }
  }

  lemma ForwardAfterRemove(c: seq<Cell>, k: nat)
    requires Distinct(c) && 1 <= k < |c|
    requires forall i: nat {:trigger NextIn(c, i)} :: i < |c| ==>
      c[i].next == if i == k - 1 then NextIn(c, k) else NextIn(c, i)
    ensures Forward(c[..k] + c[k + 1..])
    ensures (c[..k] + c[k + 1..])[1..] == c[1..][..k - 1] + c[1..][k..]
  {
    DistinctAfterRemove(c, k);
    hide Distinct;
    var d := c[..k] + c[k + 1..];
    forall i: nat | i < |d| ensures d[i].next == NextIn(d, i) {
      if i < k {
        assert d[i] == c[i];
        var next := NextIn(c, i);
      } else {
        assert d[i] == c[i + 1];
        var next := NextIn(c, i + 1);
      }
    }
  }

  /** The loop of QTAILQ_FOREACH and QSIMPLEQ_FOREACH, collecting the elements it visits. */
  method Visit(head: Cell, ghost cells: seq<Cell>) returns (visited: seq<Cell>)
    requires |cells| >= 1 && cells[0] == head && Forward(cells)
    ensures visited == cells[1..]
  {
    visited := [];
    var v := head.next;
    assert v == NextIn(cells, 0);
    while v != null
      invariant |visited| < |cells| && visited == cells[1..|visited| + 1]
      invariant v == NextIn(cells, |visited|)
      decreases |cells| - |visited|
    {
      visited := visited + [v];
      assert v == cells[|visited|] && v.next == NextIn(cells, |visited|);
      v := v.next;
    }
  }
}
