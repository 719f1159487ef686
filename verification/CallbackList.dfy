/**
 The linked list of callbacks of async.c: pushed at the tail, shifted at the head.
 */
module CallbackLists {
  import opened ByteStrings
  import opened PubSub

  class CallbackNode {
    var cb: Callback
    var next: CallbackNode?

    constructor (cb: Callback)
      ensures this.cb == cb && next == null
    {
      this.cb, next := cb, null;
    }
  }

  /** The node after the i-th, if there is one. */
  function Successor(nodes: seq<CallbackNode>, i: nat): CallbackNode? {
    if i + 1 < |nodes| then nodes[i + 1] else null
  }

  class CallbackList {
    var head: CallbackNode?
    var tail: CallbackNode?
    ghost var nodes: seq<CallbackNode>
    /** The callbacks in the list, oldest first. */
    ghost var contents: seq<Callback>
    /** Every node the list ever had. */
    ghost var repr: set<CallbackNode>

    ghost predicate Valid()
      reads this, repr
    {
      && |nodes| == |contents|
      && (forall i :: 0 <= i < |nodes| ==> nodes[i] in repr && nodes[i].cb == contents[i])
      && (forall i :: 0 <= i < |nodes| ==> nodes[i].next == Successor(nodes, i))
      && (forall i, j :: 0 <= i < j < |nodes| ==> nodes[i] != nodes[j])
      && head == (if nodes == [] then null else nodes[0])
      && tail == (if nodes == [] then null else nodes[|nodes| - 1])
    }

    constructor ()
      ensures Valid() && contents == [] && repr == {}
    {
      head, tail, nodes, contents, repr := null, null, [], [], {};
    }

    /** The list is empty exactly when it has no head. */
    predicate Empty()
      requires Valid()
      reads this, repr
      ensures Empty() <==> contents == []
    {
      head == null
    }

    /** __redisPushCallback. */
    method Push(source: Callback)
      requires Valid()
      modifies this, repr
      ensures Valid() && fresh(repr - old(repr)) && old(repr) <= repr
      ensures contents == old(contents) + [source]
    {
      var cb := new CallbackNode(source);
      if head == null {
        head := cb;
      }
      if tail != null {
        tail.next := cb;
      }
      tail := cb;
      nodes, contents, repr := nodes + [cb], contents + [source], repr + {cb};
    }

    /** __redisShiftCallback: the oldest callback, if there is one. */
    method Shift() returns (target: Option<Callback>)
      requires Valid()
      modifies this
      ensures Valid() && repr == old(repr)
      ensures target == if old(contents) == [] then None else Some(old(contents[0]))
      ensures contents == if old(contents) == [] then [] else old(contents[1..])
    {
      var cb := head;
      if cb == null {
        target := None;
        return;
      }
      assert nodes[0] == cb;
      head := cb.next;
      if cb == tail {
        tail := null;
      }
      nodes, contents := nodes[1..], contents[1..];
      target := Some(cb.cb);
    }
  }
}
