/**
 * The two FIFO queues of the search, `pathQueue` and `threadQueue`: singly
 * linked lists with `head` and `tail` pointers and a `size` field, updated in
 * place. Both have the same code, so one generic class models both; the
 * payload of a node is `val` (a path, or a worker's record).
 */
module LinkedQueue {
  import opened Wrappers

  /** A list cell: `struct pathNode` / `struct threadNode`. */
  class Node<T> {
    var val: T
    var next: Node?<T>

    /** `newPathNode` / `newThreadNode`: a cell holding `v` and linked to nothing. */
    constructor (v: T)
      ensures val == v && next == null
    {
      val := v;
      next := null;
    }
  }

  /** The cells of a list, as a set of objects. */
  ghost function Cells<T>(s: seq<Node<T>>): set<object>
  {
    set n: Node<T> | n in s :: n as object
  }

  lemma CellsAppend<T>(s: seq<Node<T>>, n: Node<T>)
    ensures Cells(s + [n]) == Cells(s) + {n}
  {
    forall o | o in Cells(s + [n])
      ensures o in Cells(s) + {n}
    {
      var m: Node<T> :| m in s + [n] && o == m as object;
      if m != n {
        assert m in s;
      }
    }
    forall o | o in Cells(s) + {n}
      ensures o in Cells(s + [n])
    {
      if o == n {
        assert n in s + [n];
      } else {
        var m: Node<T> :| m in s && o == m as object;
        assert m in s + [n];
      }
    }
  }

  lemma CellsDropFirst<T>(s: seq<Node<T>>)
    requires s != []
    requires forall i :: 0 < i < |s| ==> s[i] != s[0]
    ensures Cells(s[1..]) == Cells(s) - {s[0]}
  {
    assert forall m :: m in s <==> m == s[0] || m in s[1..];
    assert s[0] !in s[1..];
  }

  class Queue<T> {
    var head: Node?<T>
    var tail: Node?<T>
    var size: nat

    /** The cells from `head` to `tail`, in link order. */
    ghost var Nodes: seq<Node<T>>
    /** Their payloads: the queue as a sequence, oldest first. */
    ghost var Contents: seq<T>
    /** The queue object and the cells it owns. */
    ghost var Repr: set<object>

    ghost predicate Valid()
      reads this, Repr
      ensures Valid() ==> this in Repr
    {
      && this in Repr
      && (forall i :: 0 <= i < |Nodes| ==> Nodes[i] in Repr)
      && Repr == {this} + Cells(Nodes)
      && |Contents| == |Nodes| == size
      && (forall i :: 0 <= i < |Nodes| ==> Nodes[i].val == Contents[i])
      && (forall i, j :: 0 <= i < j < |Nodes| ==> Nodes[i] != Nodes[j])
      && (forall i :: 0 <= i < |Nodes| - 1 ==> Nodes[i].next == Nodes[i + 1])
      && (Nodes == [] ==> head == null && tail == null)
      && (Nodes != [] ==> head == Nodes[0] && tail == Nodes[|Nodes| - 1] && tail.next == null)
    }

    /** `createPathQueue` / `createThreadQueue`: both pointers NULL and `size` 0. */
    constructor ()
      ensures Valid() && fresh(Repr)
      ensures Nodes == [] && Contents == []
      ensures head == null && tail == null && size == 0
    {
      head, tail, size := null, null, 0;
      Nodes, Contents := [], [];
      Repr := {this};
    }

    /**
     * `threadNode_enQueue`: link a caller-made cell at the tail. The empty-queue
     * branch does not clear `node.next`, so the cell must arrive unlinked, as a
     * fresh or just-dequeued cell does.
     */
    method Enqueue(node: Node<T>)
      requires Valid()
      requires node !in Repr
      requires node.next == null
      modifies Repr, node
      ensures Valid()
      ensures Nodes == old(Nodes) + [node] && Contents == old(Contents) + [node.val]
      ensures Repr == old(Repr) + {node}
      ensures size == old(size) + 1
      ensures tail == node && node.next == null && node.val == old(node.val)
      ensures old(Nodes) == [] ==> head == node
      ensures old(Nodes) != [] ==> head == old(head) && old(tail).next == node
    {
      size := size + 1;
      if tail == null {
        head, tail := node, node;
      } else {
        tail.next := node;
        tail := node;
        node.next := null;
      }
      CellsAppend(Nodes, node);
      Nodes, Contents := Nodes + [node], Contents + [node.val];
      Repr := Repr + {node};
    }

    /**
     * `pathNode_enQueue`: copy the value into a new cell and link it at the tail.
     * Values are immutable here, so the queued copy can never change when the
     * caller reuses the buffer it passed.
     */
    method Push(v: T)
      requires Valid()
      modifies Repr
      ensures Valid() && fresh(Repr - old(Repr))
      ensures Contents == old(Contents) + [v]
      ensures |Nodes| == |old(Nodes)| + 1 && Nodes[..|old(Nodes)|] == old(Nodes) && fresh(Nodes[|old(Nodes)|])
      ensures size == old(size) + 1
      ensures tail == Nodes[|Nodes| - 1]
      ensures old(Nodes) == [] ==> head == tail
      ensures old(Nodes) != [] ==> head == old(head) && old(tail).next == tail
    {
      var temp := new Node(v);
      Enqueue(temp);
    }

    /**
     * `threadNode_deQueue` / `pathNode_deQueue`: unlink and return the head cell,
     * or NULL from an empty queue. `tail` is reset when the queue empties, `size`
     * drops only when a cell is removed, and the removed cell comes back unlinked.
     */
    method Dequeue() returns (r: Node?<T>)
      requires Valid()
      modifies Repr
      ensures Valid()
      ensures old(Nodes) == [] ==> r == null && Nodes == [] && Contents == [] && size == old(size) && Repr == old(Repr)
      ensures old(Nodes) == [] ==> head == old(head) && tail == old(tail)
      ensures old(Nodes) != [] ==>
                && r == old(Nodes[0]) && r.val == old(Contents[0]) && r.next == null
                && Nodes == old(Nodes[1..]) && Contents == old(Contents[1..])
                && size == old(size) - 1 && Repr == old(Repr) - {r}
      ensures tail == null <==> |old(Nodes)| <= 1
    {
      if head == null {
        return null;
      }
      var temp := head;
      ghost var rest, vals := Nodes[1..], Contents[1..];
      assert forall i :: 0 <= i < |rest| ==> rest[i] == Nodes[i + 1] && rest[i] != temp;
      CellsDropFirst(Nodes);
      head := head.next;
      size := size - 1;
      if head == null {
        tail := null;
      }
      temp.next := null;
      assert forall i :: 0 <= i < |rest| - 1 ==> rest[i].next == rest[i + 1];
      Nodes, Contents := rest, vals;
      Repr := Repr - {temp};
      return temp;
    }

    /**
     * A run of the queue operations on this queue, in order: `Put(v)` copies `v`
     * in at the tail as `pathNode_enQueue` does, and `Take` dequeues, keeping the
     * value taken when the queue was not empty. The queue and the values taken
     * end up as `Run` says, so `FifoOrder` holds of the linked queue itself.
     */
    method Replay(ops: seq<Op<T>>) returns (taken: seq<T>)
      requires Valid()
      modifies Repr
      ensures Valid() && fresh(Repr - old(Repr))
      ensures (Contents, taken) == Run(old(Contents), ops)
    {
      taken := [];
      for i := 0 to |ops|
        invariant Valid() && fresh(Repr - old(Repr))
        invariant (Contents, taken) == Run(old(Contents), ops[..i])
      {
        assert ops[..i + 1][..i] == ops[..i];
        match ops[i]
        case Put(v) =>
          Push(v);
        case Take =>
          var node := Dequeue();
          if node != null {
            taken := taken + [node.val];
          }
      }
      assert ops[..|ops|] == ops;
    }

    /**
     * `getPathQueueSize` / `getThreadQueueSize`: walk from `head` to the end,
     * counting cells. The count is the queue's length and agrees with `size`.
     */
    method Count() returns (cnt: nat)
      requires Valid()
      ensures cnt == |Contents| && cnt == size
    {
      cnt := 0;
      var p := head;
      while p != null
        invariant cnt <= |Nodes|
        invariant cnt < |Nodes| ==> p == Nodes[cnt]
        invariant cnt == |Nodes| ==> p == null
        decreases |Nodes| - cnt
      {
        cnt := cnt + 1;
        p := p.next;
      }
    }
  }

  /** One queue operation, on the queue's contents: what `Enqueue`/`Push` and `Dequeue` do to `Contents`. */
  datatype Op<T> = Put(v: T) | Take

  /** The values a sequence of operations puts into the queue, in order. */
  function Puts<T>(ops: seq<Op<T>>): seq<T>
  {
    if ops == [] then []
    else Puts(ops[..|ops| - 1]) + (match ops[|ops| - 1] case Put(v) => [v] case Take => [])
  }

  /**
   * Run operations from contents `s`: the final contents and the values the
   * `Take`s returned, in order. A `Take` on an empty queue returns nothing and
   * changes nothing, as dequeue's NULL return does.
   */
  function Run<T>(s: seq<T>, ops: seq<Op<T>>): (seq<T>, seq<T>)
  {
    if ops == [] then (s, [])
    else
      var (st, out) := Run(s, ops[..|ops| - 1]);
      match ops[|ops| - 1]
      case Put(v) => (st + [v], out)
      case Take => if st == [] then (st, out) else (st[1..], out + [st[0]])
  }

  /**
   * FIFO order: at every point, the values taken so far followed by the values
   * still queued are exactly the initial contents followed by everything put, in
   * the order it was put. So values leave in the order they arrived and none is
   * lost or duplicated.
   */
  lemma {:induction false} FifoOrder<T>(s: seq<T>, ops: seq<Op<T>>)
    ensures Run(s, ops).1 + Run(s, ops).0 == s + Puts(ops)
  {
    if ops != [] {
      var init := ops[..|ops| - 1];
      FifoOrder(s, init);
      var (st, out) := Run(s, init);
      match ops[|ops| - 1]
      case Put(v) =>
        assert out + (st + [v]) == (out + st) + [v];
      case Take =>
        if st != [] {
          assert (out + [st[0]]) + st[1..] == out + st;
        }
    }
  }

  /** The queue's length is the number of values put, minus those taken, plus the start. */
  lemma LengthAfterRun<T>(s: seq<T>, ops: seq<Op<T>>)
    ensures |Run(s, ops).0| == |s| + |Puts(ops)| - |Run(s, ops).1|
  {
    FifoOrder(s, ops);
  }

  /** Dequeue followed by re-enqueue of the same cell: the head moves to the back. */
  function Rotated<T>(s: seq<T>): seq<T>
  {
    if s == [] then [] else s[1..] + [s[0]]
  }

  function RotatedTimes<T>(s: seq<T>, k: nat): seq<T>
  {
    if k == 0 then s else Rotated(RotatedTimes(s, k - 1))
  }

  /** Rotating `k` times moves the first `k` values, in order, behind the rest. */
  lemma {:induction false} RotatedTimesSplit<T>(s: seq<T>, k: nat)
    requires k <= |s|
    ensures RotatedTimes(s, k) == s[k..] + s[..k]
  {
    if k > 0 {
      RotatedTimesSplit(s, k - 1);
      var r := s[k - 1..] + s[..k - 1];
      assert r[0] == s[k - 1];
      assert r[1..] == s[k..] + s[..k - 1];
      assert s[..k] == s[..k - 1] + [s[k - 1]];
    }
  }

  /** Rotation keeps the length and the multiset of values, and `|s|` rotations restore the queue. */
  lemma RotationRestores<T>(s: seq<T>)
    ensures |Rotated(s)| == |s| && multiset(Rotated(s)) == multiset(s)
    ensures RotatedTimes(s, |s|) == s
  {
    RotatedTimesSplit(s, |s|);
    if s != [] {
      assert s == [s[0]] + s[1..];
    }
  }
}
