/** The simple queue of qemu-queue.h: singly linked, with the address of the last `next` field. */
module SimpleQueue {
  import opened LinkCells

  /** The elements of b hung behind the last cell of a. */
  lemma ForwardAfterConcat(a: seq<Cell>, b: seq<Cell>)
    requires |a| >= 1 && |b| >= 1 && Distinct(a + b)
    requires forall i: nat {:trigger NextIn(a, i)} :: i < |a| ==>
      a[i].next == if i == |a| - 1 then b[0] else NextIn(a, i)
    requires Forward(b)
    ensures Forward(a + b)
  {
    var d := a + b;
    forall i: nat | i < |d| ensures d[i].next == NextIn(d, i) {
      if i < |a| {
        var next := NextIn(a, i);
      } else {
        var next := NextIn(b, i - |a|);
      }
    }
  }

  lemma TailIsForward(c: seq<Cell>)
    requires |c| >= 1 && Forward(c)
    ensures Forward(c[1..])
  {
    var d := c[1..];
    forall i: nat | i < |d| ensures d[i].next == NextIn(d, i) {
      var next := NextIn(c, i + 1);
    }
  }

  lemma DisjointTail(a: seq<Cell>, b: seq<Cell>)
    requires |a| >= 1 && |b| >= 1 && Distinct(a) && Distinct(b) && forall c :: c in a ==> c !in b
    ensures Distinct(a + b[1..]) && b[0] !in b[1..] && b[0] !in a && a[|a| - 1] !in b[1..]
  {
    assert b[0] in b && a[|a| - 1] in a;
    assert forall c :: c in b[1..] ==> c in b;
    forall i, j | 0 <= i < j < |a + b[1..]| ensures (a + b[1..])[i] != (a + b[1..])[j] {
      if i < |a| <= j { assert (a + b[1..])[j] == b[j - |a| + 1] && a[i] in a; }
    }
  }

  lemma NextOf(c: seq<Cell>, i: nat)
    requires Forward(c) && i < |c|
    ensures c[i].next == NextIn(c, i)
  {
  }

  class Queue {
    const head: Cell      // its `next` is sqh_first
    var last: Cell        // the cell whose `next` field sqh_last points at
    ghost var cells: seq<Cell>

    ghost predicate Valid()
      reads this, cells
    {
      |cells| >= 1 && cells[0] == head && last == cells[|cells| - 1] && Forward(cells)
    }

    ghost function Elements(): seq<Cell>
      reads this
    {
      if cells == [] then [] else cells[1..]
    }

    /** QSIMPLEQ_INIT on a new head */
    constructor ()
      ensures Valid() && Elements() == [] && fresh(cells)
    {
      head := new Cell();
      last := head;
      new;
      cells := [head];
      head.next := null;
    }

    /** QSIMPLEQ_INIT */
    method Init()
      modifies this, head
      ensures Valid() && Elements() == [] && cells == [head]
    {
      head.next := null;
      last := head;
      cells := [head];
    }

    /** The record of an insertion that has been made in the links. */
    ghost method Inserted(k: nat, e: Cell)
      requires 1 <= k <= |cells| && Distinct(cells) && e !in cells && cells[0] == head
      requires forall i: nat {:trigger NextIn(cells, i)} :: i < |cells| ==>
        cells[i].next == if i == k - 1 then e else NextIn(cells, i)
      requires e.next == NextIn(cells, k - 1) && last == (if k == |cells| then e else cells[|cells| - 1])
      modifies this`cells
      ensures Valid() && Elements() == old(Elements())[..k - 1] + [e] + old(Elements())[k - 1..]
    {
      ForwardAfterInsert(cells, k, e);
      hide Forward, Distinct;
      cells := cells[..k] + [e] + cells[k..];
    }

    /** QSIMPLEQ_INSERT_HEAD */
    method InsertHead(elm: Cell)
      requires Valid() && elm !in cells
      modifies this, cells, elm
      ensures Valid() && Elements() == [elm] + old(Elements())
    {
      NextOf(cells, 0);
      elm.next := head.next;
      if elm.next == null { last := elm; }
      head.next := elm;
      Inserted(1, elm);
    }

    /** QSIMPLEQ_INSERT_TAIL */
    method InsertTail(elm: Cell)
      requires Valid() && elm !in cells
      modifies this, cells, elm
      ensures Valid() && Elements() == old(Elements()) + [elm]
    {
      elm.next := null;
      last.next := elm;
      last := elm;
      Inserted(|cells|, elm);
    }

    /** QSIMPLEQ_INSERT_AFTER */
    method InsertAfter(listelm: Cell, elm: Cell, ghost k: nat)
      requires Valid() && elm !in cells && k < |Elements()| && Elements()[k] == listelm
      modifies this, cells, elm
      ensures Valid() && Elements() == old(Elements())[..k + 1] + [elm] + old(Elements())[k + 1..]
    {
      NextOf(cells, k + 1);
      elm.next := listelm.next;
      if elm.next == null { last := elm; }
      listelm.next := elm;
      Inserted(k + 2, elm);
    }

    /** QSIMPLEQ_REMOVE_HEAD */
    method RemoveHead()
      requires Valid() && Elements() != []
      modifies this, cells
      ensures Valid() && Elements() == old(Elements())[1..] && cells[0] == old(cells)[0]
    {
      RemoveAfter(head, 0);
    }

    /** QSIMPLEQ_REMOVE */
    method Remove(elm: Cell, ghost k: nat)
      requires Valid() && k < |Elements()| && Elements()[k] == elm
      modifies this, cells
      ensures Valid() && Elements() == old(Elements())[..k] + old(Elements())[k + 1..]
    {
      NextOf(cells, 0);
      if head.next == elm {
        RemoveHead();
      } else {
        var curelm := FindBefore(elm, k);
        RemoveAfter(curelm, k);
      }
    }

    /** The unlinking step that both removals share: the head's link or an element's. */
    method RemoveAfter(curelm: Cell, ghost k: nat)
      requires Valid() && k < |Elements()| && cells[k] == curelm
      modifies this, cells
      ensures Valid() && Elements() == old(Elements())[..k] + old(Elements())[k + 1..]
      ensures cells[0] == old(cells)[0]
    {
      NextOf(cells, k);
      NextOf(cells, k + 1);
      curelm.next := curelm.next.next;
      if curelm.next == null { last := curelm; }
      Removed(k + 1);
    }

    /** The record of a removal that has been made in the links. */
    ghost method Removed(k: nat)
      requires 1 <= k < |cells| && Distinct(cells) && cells[0] == head
      requires forall i: nat {:trigger NextIn(cells, i)} :: i < |cells| ==>
        cells[i].next == if i == k - 1 then NextIn(cells, k) else NextIn(cells, i)
      requires last == cells[if k == |cells| - 1 then k - 1 else |cells| - 1]
      modifies this`cells
      ensures Valid() && Elements() == old(Elements())[..k - 1] + old(Elements())[k..]
      ensures cells[0] == old(cells)[0]
    {
      ForwardAfterRemove(cells, k);
      hide Forward, Distinct;
      cells := cells[..k] + cells[k + 1..];
    }

    /** The search loop of QSIMPLEQ_REMOVE. */
    method FindBefore(elm: Cell, ghost k: nat) returns (curelm: Cell)
      requires Valid() && 1 <= k < |Elements()| && Elements()[k] == elm
      ensures curelm == cells[k]
    {
      NextOf(cells, 0);
      assert cells[k + 1] == elm;
      curelm := head.next;
      ghost var n := 1;
      NextOf(cells, 1);
      while curelm.next != elm
        invariant 1 <= n <= k && curelm == cells[n] && curelm.next == NextIn(cells, n)
        decreases k - n
      {
        curelm := curelm.next;
        n := n + 1;
        NextOf(cells, n);
      }
      assert cells[n + 1] == cells[k + 1];
    }

    /** QSIMPLEQ_FOREACH */
    method Forwards() returns (visited: seq<Cell>)
      requires Valid()
      ensures visited == Elements()
    {
      visited := Visit(head, cells);
    }

    /** QSIMPLEQ_CONCAT: the elements of `other` are moved behind this queue's, and it is left empty. */
    method Concat(other: Queue)
      requires Valid() && other.Valid() && other != this && forall c :: c in cells ==> c !in other.cells
      modifies this, cells, other, other.head
      ensures Valid() && other.Valid()
      ensures Elements() == old(Elements()) + old(other.Elements()) && other.Elements() == []
    {
      ghost var mine, theirs := cells, other.cells[1..];
      NextOf(other.cells, 0);
      TailIsForward(other.cells);
      if other.head.next != null {
        DisjointTail(mine, other.cells);
        last.next := other.head.next;
        last := other.last;
        assert mine[|mine| - 1] !in theirs && other.head !in theirs && other.head !in mine;
        assert Forward(theirs) && forall i: nat {:trigger NextIn(mine, i)} :: i < |mine| ==>
          mine[i].next == if i == |mine| - 1 then theirs[0] else NextIn(mine, i);
        other.Init();
        assert theirs[|theirs| - 1] == last;
        ForwardAfterConcat(mine, theirs);
        cells := mine + theirs;
      } else {
        assert theirs == [];
      }
    }
  }
}
