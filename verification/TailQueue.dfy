/** The tail queue of qemu-queue.h, whose back links allow reverse traversal through the layout that
    heads and elements share. */
module TailQueue {
  import opened LinkCells

  function Reverse<T>(s: seq<T>): (r: seq<T>)
    ensures |r| == |s|
  {
    if s == [] then [] else Reverse(s[1..]) + [s[0]]
  }

  lemma {:induction false} ReverseLast<T>(s: seq<T>)
    requires s != []
    ensures Reverse(s) == [s[|s| - 1]] + Reverse(s[..|s| - 1])
    decreases |s|
  {
    if |s| > 1 {
      ReverseLast(s[1..]);
      assert s[1..][..|s| - 2] == s[..|s| - 1][1..];
    }
  }

  ghost function PrevIn(c: seq<Cell>, i: nat): Cell?
    requires i < |c|
  {
    if i == 0 then c[|c| - 1] else c[i - 1]
  }

  /** The cells, head first, are linked forwards and backwards in this order. */
  ghost predicate Linked(c: seq<Cell>)
    reads c
  {
    && |c| >= 1 && Forward(c)
    && forall i: nat {:trigger PrevIn(c, i)} :: i < |c| ==> c[i].prevCell == PrevIn(c, i)
  }

  /** Where the back link changes when a cell is spliced in at k, or the one at k - 1 taken out. */
  ghost function Behind(c: seq<Cell>, k: nat): nat { if k < |c| then k else 0 }

  /** Splicing e in at position k: two links of the old cells change and e's are set. */
  lemma LinkedAfterInsert(c: seq<Cell>, k: nat, e: Cell)
    requires Distinct(c) && 1 <= k <= |c| && e !in c
    requires forall i: nat {:trigger NextIn(c, i)} :: i < |c| ==> c[i].next == if i == k - 1 then e else NextIn(c, i)
    requires forall i: nat {:trigger PrevIn(c, i)} :: i < |c| ==>
      c[i].prevCell == if i == Behind(c, k) then e else PrevIn(c, i)
    requires e.next == NextIn(c, k - 1) && e.prevCell == c[k - 1]
    ensures Linked(c[..k] + [e] + c[k..])
    ensures (c[..k] + [e] + c[k..])[1..] == c[1..][..k - 1] + [e] + c[1..][k - 1..]
  {
    ForwardAfterInsert(c, k, e);
    hide Distinct, Forward, NextIn;
    var d := c[..k] + [e] + c[k..];
    forall i: nat | i < |d| ensures d[i].prevCell == PrevIn(d, i) {
      if i < k {
        assert d[i] == c[i];
        var prev := PrevIn(c, i);
      } else if i > k {
        assert d[i] == c[i - 1];
        var prev := PrevIn(c, i - 1);
      }
    }
  }

  lemma LinkedAfterRemove(c: seq<Cell>, k: nat)
    requires Distinct(c) && 1 <= k < |c|
    requires forall i: nat {:trigger NextIn(c, i)} :: i < |c| ==>
      c[i].next == if i == k - 1 then NextIn(c, k) else NextIn(c, i)
    requires forall i: nat {:trigger PrevIn(c, i)} :: i < |c| ==>
      c[i].prevCell == if i == Behind(c, k + 1) then c[k - 1] else PrevIn(c, i)
    ensures Linked(c[..k] + c[k + 1..])
    ensures (c[..k] + c[k + 1..])[1..] == c[1..][..k - 1] + c[1..][k..]
  {
    ForwardAfterRemove(c, k);
    hide Distinct, Forward, NextIn;
    var d := c[..k] + c[k + 1..];
    forall i: nat | i < |d| ensures d[i].prevCell == PrevIn(d, i) {
      if i < k {
        assert d[i] == c[i];
        var prev := PrevIn(c, i);
      } else {
        assert d[i] == c[i + 1];
        var prev := PrevIn(c, i + 1);
      }
    }
  }

  /** What a queue's links say about cell i. */
  lemma LinksOf(c: seq<Cell>, i: nat)
    requires Linked(c) && i < |c|
    ensures c[i].next == NextIn(c, i) && c[i].prevCell == PrevIn(c, i)
  {
  }

  class Queue {
    const head: Cell
    ghost var cells: seq<Cell>  // the head and then the elements

    ghost predicate Valid()
      reads this, cells
    {
      |cells| >= 1 && cells[0] == head && Linked(cells)
    }

    ghost function Elements(): seq<Cell>
      reads this
    {
      if cells == [] then [] else cells[1..]
    }

    /** QTAILQ_INIT */
    constructor ()
      ensures Valid() && Elements() == [] && fresh(cells)
    {
      head := new Cell();
      new;
      cells := [head];
      head.next := null;
      head.prevCell := head;
    }

    /** The record of an insertion that has been made in the links. */
    ghost method Inserted(k: nat, e: Cell)
      requires 1 <= k <= |cells| && Distinct(cells) && e !in cells && cells[0] == head
      requires forall i: nat {:trigger NextIn(cells, i)} :: i < |cells| ==>
        cells[i].next == if i == k - 1 then e else NextIn(cells, i)
      requires forall i: nat {:trigger PrevIn(cells, i)} :: i < |cells| ==>
        cells[i].prevCell == if i == Behind(cells, k) then e else PrevIn(cells, i)
      requires e.next == NextIn(cells, k - 1) && e.prevCell == cells[k - 1]
      modifies this`cells
      ensures Valid() && cells == old(cells)[..k] + [e] + old(cells)[k..]
      ensures Elements() == old(Elements())[..k - 1] + [e] + old(Elements())[k - 1..]
    {
      LinkedAfterInsert(cells, k, e);
      hide Linked, Distinct;
      cells := cells[..k] + [e] + cells[k..];
    }

    /** QTAILQ_INSERT_HEAD */
    method InsertHead(elm: Cell)
      requires Valid() && elm !in cells
      modifies this, cells, elm
      ensures Valid() && Elements() == [elm] + old(Elements())
      ensures cells == old(cells)[..1] + [elm] + old(cells)[1..]
    {
      LinksOf(cells, 0);
      elm.next := head.next;
      if elm.next != null {
        head.next.prevCell := elm;
      } else {
        head.prevCell := elm;
      }
      head.next := elm;
      elm.prevCell := head;
      Inserted(1, elm);
    }

    /** QTAILQ_INSERT_TAIL */
    method InsertTail(elm: Cell)
      requires Valid() && elm !in cells
      modifies this, cells, elm
      ensures Valid() && Elements() == old(Elements()) + [elm] && cells == old(cells) + [elm]
    {
      LinksOf(cells, 0);
      elm.next := null;
      elm.prevCell := head.prevCell;
      head.prevCell.next := elm;
      head.prevCell := elm;
      Inserted(|cells|, elm);
    }

    /** QTAILQ_INSERT_AFTER */
    method InsertAfter(listelm: Cell, elm: Cell, ghost k: nat)
      requires Valid() && elm !in cells && k < |Elements()| && Elements()[k] == listelm
      modifies this, cells, elm
      ensures Valid() && Elements() == old(Elements())[..k + 1] + [elm] + old(Elements())[k + 1..]
      ensures cells == old(cells)[..k + 2] + [elm] + old(cells)[k + 2..]
    {
      LinksOf(cells, k + 1);
      elm.next := listelm.next;
      if elm.next != null {
        elm.next.prevCell := elm;
      } else {
        head.prevCell := elm;
      }
      listelm.next := elm;
      elm.prevCell := listelm;
      Inserted(k + 2, elm);
    }

    /** QTAILQ_INSERT_BEFORE */
    method InsertBefore(listelm: Cell, elm: Cell, ghost k: nat)
      requires Valid() && elm !in cells && k < |Elements()| && Elements()[k] == listelm
      modifies this, cells, elm
      ensures Valid() && Elements() == old(Elements())[..k] + [elm] + old(Elements())[k..]
      ensures cells == old(cells)[..k + 1] + [elm] + old(cells)[k + 1..]
    {
      LinksOf(cells, k + 1);
      elm.prevCell := listelm.prevCell;
      elm.next := listelm;
      listelm.prevCell.next := elm;
      listelm.prevCell := elm;
      Inserted(k + 1, elm);
    }

    /** The record of a removal that has been made in the links. */
    ghost method Removed(k: nat)
      requires 1 <= k < |cells| && Distinct(cells) && cells[0] == head
      requires forall i: nat {:trigger NextIn(cells, i)} :: i < |cells| ==>
        cells[i].next == if i == k - 1 then NextIn(cells, k) else NextIn(cells, i)
      requires forall i: nat {:trigger PrevIn(cells, i)} :: i < |cells| ==>
        cells[i].prevCell == if i == Behind(cells, k + 1) then cells[k - 1] else PrevIn(cells, i)
      modifies this`cells
      ensures Valid() && cells == old(cells)[..k] + old(cells)[k + 1..]
      ensures Elements() == old(Elements())[..k - 1] + old(Elements())[k..]
    {
      LinkedAfterRemove(cells, k);
      hide Linked, Distinct;
      cells := cells[..k] + cells[k + 1..];
    }

    /** QTAILQ_REMOVE */
    method Remove(elm: Cell, ghost k: nat)
      requires Valid() && k < |Elements()| && Elements()[k] == elm
      modifies this, cells
      ensures Valid() && Elements() == old(Elements())[..k] + old(Elements())[k + 1..]
      ensures elm.next == old(elm.next) && elm.prevCell == old(elm.prevCell)
    {
      LinksOf(cells, k + 1);
      if elm.next != null {
        elm.next.prevCell := elm.prevCell;
      } else {
        head.prevCell := elm.prevCell;
      }
      elm.prevCell.next := elm.next;
      Removed(k + 1);
    }

    /** QTAILQ_FOREACH */
    method Forwards() returns (visited: seq<Cell>)
      requires Valid()
      ensures visited == Elements()
    {
      visited := Visit(head, cells);
    }

    /** QTAILQ_FOREACH_REVERSE: from a cell, its predecessor cell's predecessor's `next` is the element
        before it, or null when there is none. */
    method Backwards() returns (visited: seq<Cell>)
      requires Valid()
      ensures visited == Reverse(Elements())
    {
      visited := [];
      ghost var n := |cells| - 1;
      hide Linked;
      BeforeIs(0);
      BeforeIs(n);
      var v := head.prevCell.prevCell.next;
      assert Elements()[..n] == Elements();
      while v != null
        invariant 0 <= n < |cells|
        invariant v == if n == 0 then null else cells[n]
        invariant visited + Reverse(Elements()[..n]) == Reverse(Elements())
        decreases n
      {
        ReverseLast(Elements()[..n]);
        assert Elements()[..n][..n - 1] == Elements()[..n - 1];
        BeforeIs(n);
        BeforeIs(n - 1);
        visited := visited + [v];
        v := v.prevCell.prevCell.next;
        n := n - 1;
      }
    }

    /** The layout pun: one cell back and one forward from cell n is cell n itself, unless it is the
        head, whose predecessor cell is the last one. */
    lemma BeforeIs(n: nat)
      requires Valid() && n < |cells|
      ensures cells[n].prevCell == cells[if n == 0 then |cells| - 1 else n - 1]
      ensures cells[n].prevCell.next == if n == 0 then null else cells[n]
    {
      LinksOf(cells, n);
      LinksOf(cells, if n == 0 then |cells| - 1 else n - 1);
    }
  }

  /** Where an element is inserted. */
  datatype Place = AtHead | AtTail | After(k: nat) | Before(k: nat)

  lemma SpliceOut<T>(s: seq<T>, n: nat, e: T)
    requires n <= |s|
    ensures var t := s[..n] + [e] + s[n..]; t[n] == e && t[..n] + t[n + 1..] == s
  {
  }

  /** Inserting an element in any of the four ways and removing it again restores the queue. */
  method InsertThenRemove(q: Queue, elm: Cell, place: Place, listelm: Cell)
    requires q.Valid() && elm !in q.cells
    requires place.After? || place.Before? ==> place.k < |q.Elements()| && q.Elements()[place.k] == listelm
    modifies q, q.cells, elm
    ensures q.Valid() && q.Elements() == old(q.Elements())
  {
    ghost var was := q.Elements();
    ghost var n := Insert(q, elm, place, listelm);
    hide Linked;
    SpliceOut(was, n, elm);
    assert forall c :: c in q.cells ==> c == elm || c in old(q.cells);
    q.Remove(elm, n);
  }

  method Insert(q: Queue, elm: Cell, place: Place, listelm: Cell) returns (ghost n: nat)
    requires q.Valid() && elm !in q.cells
    requires place.After? || place.Before? ==> place.k < |q.Elements()| && q.Elements()[place.k] == listelm
    modifies q, q.cells, elm
    ensures q.Valid() && n <= |old(q.Elements())| && forall c :: c in q.cells ==> c == elm || c in old(q.cells)
    ensures q.Elements() == old(q.Elements())[..n] + [elm] + old(q.Elements())[n..]
  {
    hide Linked;
    match place {
      case AtHead => n := 0; q.InsertHead(elm);
      case AtTail => n := |q.Elements()|; q.InsertTail(elm);
      case After(k) => n := k + 1; q.InsertAfter(listelm, elm, k);
      case Before(k) => n := k; q.InsertBefore(listelm, elm, k);
    }
  }
}
