/** redisCallbackList: a singly linked queue with head and tail pointers. */
module CallbackList {
  import opened Wrappers
  import opened AsyncModel

  class Node {
    const cb: Callback
    var next: Node?

    constructor (cb: Callback)
      ensures this.cb == cb && next == null
    {
      this.cb := cb;
      next := null;
    }
  }

  class List {
    var head: Node?
    var tail: Node?
    ghost var nodes: seq<Node>
    ghost var Contents: seq<Callback>
    ghost var Repr: set<object>

    ghost function NodeAt(k: nat): Node?
      reads this
    {
      if k < |nodes| then nodes[k] else null
    }

    ghost predicate Valid()
      reads this, Repr
      ensures Valid() ==> this in Repr
    {
      && this in Repr
      && (forall i :: 0 <= i < |nodes| ==> nodes[i] in Repr)
      && |Contents| == |nodes|
      && (forall i, j :: 0 <= i < j < |nodes| ==> nodes[i] != nodes[j])
      && (forall i :: 0 <= i < |nodes| ==> nodes[i].cb == Contents[i])
      && (forall i :: 0 <= i < |nodes| ==> nodes[i].next == NodeAt(i + 1))
      && head == (if nodes == [] then null else nodes[0])
      && tail == (if nodes == [] then null else nodes[|nodes| - 1])
    }

    constructor ()
      ensures Valid() && Contents == [] && fresh(Repr)
    {
      head, tail := null, null;
      nodes, Contents := [], [];
      Repr := {this};
    }

    // __redisPushCallback
    method Push(source: Callback)
      requires Valid()
      modifies Repr
      ensures Valid() && fresh(Repr - old(Repr))
      ensures Contents == old(Contents) + [source]
    {
      var cb := new Node(source);
      if head == null {
        head := cb;
      }
      if tail != null {
        tail.next := cb;
      }
      tail := cb;
      nodes, Contents := nodes + [cb], Contents + [source];
      Repr := Repr + {cb};
    }

    // __redisShiftCallback
    method Shift() returns (target: Option<Callback>)
      requires Valid()
      modifies this
      ensures Valid() && Repr == old(Repr)
      ensures old(Contents) == [] ==> target == None && Contents == []
      ensures old(Contents) != [] ==> target == Some(old(Contents)[0]) && Contents == old(Contents)[1..]
    {
      var cb := head;
      if cb == null {
        return None;
      }
      head := cb.next;
      if cb == tail {
        tail := null;
      }
      target := Some(cb.cb);
      ghost var before := nodes;
      nodes, Contents := nodes[1..], Contents[1..];
      assert forall i :: 0 <= i < |nodes| ==> nodes[i] == before[i + 1];
    }

    method IsEmpty() returns (empty: bool)
      requires Valid()
      ensures empty <==> Contents == []
    {
      empty := head == null;
    }
  }
}
