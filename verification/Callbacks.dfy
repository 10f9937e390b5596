/**
 The clock's rate-change callbacks: two in-place linked lists of nodes that the registering drivers
 own, walked before and after the rate is set.
 */
module Callbacks {

  /** What a clock does, as seen from outside. */
  datatype Event = Called(callback: int, priv: int) | RateSet(hz: int)

  /** A node: the callback, its argument, and the link the clock API threads the list through. */
  class Node {
    var callback: int
    var priv: int
    var next: Node?

    constructor (callback: int, priv: int)
      ensures this.callback == callback && this.priv == priv && next == null
    {
      this.callback, this.priv, this.next := callback, priv, null;
    }
  }

  ghost predicate Distinct(s: seq<Node>) {
    forall i, j :: 0 <= i < j < |s| ==> s[i] != s[j]
  }

  /** The nodes reached from `head` are those of s, in order, and the last one ends the list. */
  ghost predicate IsList(head: Node?, s: seq<Node>)
    reads s
  {
    && head == (if s == [] then null else s[0])
    && forall i {:trigger s[i].next} {:trigger After(s, i)} :: 0 <= i < |s| ==> s[i].next == After(s, i)
  }

  /** A node can be made the last of another list without harm to this one. */
  ghost predicate Survives(s: seq<Node>, cb: Node) {
    cb !in s || s[|s| - 1] == cb
  }

  function After(s: seq<Node>, i: nat): Node?
    requires i < |s|
  {
    if i + 1 < |s| then s[i + 1] else null
  }

  lemma Links(head: Node?, s: seq<Node>)
    requires IsList(head, s)
    ensures head == (if s == [] then null else s[0])
    ensures forall i :: 0 <= i < |s| ==> s[i].next == After(s, i)
  {
  }

  lemma ListDrop(head: Node?, s: seq<Node>, j: nat)
    requires IsList(head, s) && j < |s|
    ensures IsList(s[j].next, s[j + 1..])
  {
    var t := s[j + 1..];
    forall i | 0 <= i < |t| ensures t[i].next == After(t, i) {
      assert s[j + 1 + i].next == After(s, j + 1 + i);
    }
  }

  /** A list that ends cannot pass the same node twice. */
  lemma {:induction false} ListIsDistinct(head: Node?, s: seq<Node>)
    requires IsList(head, s)
    ensures Distinct(s)
  {
    if s != [] {
      ListDrop(head, s, 0);
      ListIsDistinct(s[0].next, s[1..]);
      assert forall i :: 1 <= i < |s| ==> s[i] == s[1..][i - 1];
      assert forall j :: 1 <= j < |s| ==> s[j].next == After(s, j);
    }
  }

  /** The nodes on a list are determined by its head. */
  lemma {:induction false} ListIsUnique(head: Node?, s: seq<Node>, t: seq<Node>)
    requires IsList(head, s) && IsList(head, t)
    ensures s == t
  {
    if s != [] && t != [] {
      ListDrop(head, s, 0);
      ListDrop(head, t, 0);
      ListIsUnique(s[0].next, s[1..], t[1..]);
      assert s == [s[0]] + s[1..] && t == [t[0]] + t[1..];
    }
  }

  /** The calls a walk over s makes. */
  ghost function Calls(s: seq<Node>): seq<Event>
    reads s
  {
    if s == [] then [] else Calls(s[..|s| - 1]) + [Called(s[|s| - 1].callback, s[|s| - 1].priv)]
  }

  /** One call for each node, in list order, with the node's own argument. */
  lemma {:induction false} CallsEach(s: seq<Node>)
    ensures |Calls(s)| == |s|
    ensures forall i :: 0 <= i < |s| ==> Calls(s)[i] == Called(s[i].callback, s[i].priv)
  {
    if s != [] {
      var t := s[..|s| - 1];
      CallsEach(t);
      assert forall i :: 0 <= i < |t| ==> t[i] == s[i] && Calls(s)[i] == Calls(t)[i];
    }
  }

  /** What a registration of a node already on the list leaves behind is no list any more: the walk
      from its head never ends. */
  lemma SelfLoopIsNoList(head: Node?, s: seq<Node>, cb: Node, k: nat)
    requires k < |s| && s[k] == cb && cb.next == cb && head == s[0]
    requires forall i :: 0 <= i < k ==> s[i].next == s[i + 1]
    ensures forall t: seq<Node> :: !IsList(head, t)
  {
    forall t: seq<Node> ensures !IsList(head, t) {
      if IsList(head, t) {
        Follows(head, s, t, k);
        ListIsDistinct(head, t);
      }
    }
  }

  lemma {:induction false} Follows(head: Node?, s: seq<Node>, t: seq<Node>, k: nat)
    requires k < |s| && head == s[0] && IsList(head, t)
    requires forall i :: 0 <= i < k ==> s[i].next == s[i + 1]
    ensures k < |t| && t[k] == s[k]
  {
    if k > 0 {
      Follows(head, s, t, k - 1);
      assert t[k - 1].next == s[k];
    }
  }

  /** What becomes of a list when one of its nodes is made to end it. */
  lemma CutAfter(head: Node?, s: seq<Node>, cb: Node)
    requires Distinct(s) && head == (if s == [] then null else s[0])
    requires forall i :: 0 <= i < |s| && s[i] != cb ==> s[i].next == After(s, i)
    requires cb in s ==> cb.next == null
    ensures IsList(head, s) <==> Survives(s, cb)
    ensures forall k: nat :: k < |s| && s[k] == cb ==> IsList(head, s[..k + 1])
  {
    forall k: nat | k < |s| && s[k] == cb ensures IsList(head, s[..k + 1]) && (IsList(head, s) <==> k + 1 == |s|) {
      var t := s[..k + 1];
      forall i | 0 <= i < |t| ensures t[i].next == After(t, i) {
        assert i < k ==> s[i] != cb && After(t, i) == After(s, i);
      }
      if k + 1 == |s| { assert t == s; } else { assert s[k].next != After(s, k); }
    }
  }

  /** Append to a list and return its head.  A node that is not yet on the list is added at its end; a
      node that already is on it ends up pointing at itself, and then nothing that ends starts at the
      head: appending yields a list exactly when the node is new. */
  method Append(list: Node?, cb: Node, ghost s: seq<Node>) returns (head: Node)
    requires IsList(list, s)
    modifies cb, s
    ensures head == if s == [] then cb else s[0]
    ensures forall n: Node :: n == cb || n in s ==> n.callback == old(n.callback) && n.priv == old(n.priv)
    ensures cb !in s ==> IsList(head, s + [cb]) && cb.next == null
    ensures cb in s ==> cb.next == cb
    ensures cb !in s <==> exists t: seq<Node> :: IsList(head, t)
  {
    ListIsDistinct(list, s);
    cb.next := null;
    if list == null {
      assert IsList(cb, s + [cb]);
      return cb;
    }
    var current := list;
    ghost var i := 0;
    while current.next != null
      invariant 0 <= i < |s| && current == s[i] && cb !in s[..i]
      invariant cb.next == null
      invariant forall k :: 0 <= k < |s| && s[k] != cb ==> s[k].next == After(s, k)
      decreases |s| - i
    {
      current := current.next;
      i := i + 1;
    }
    assert s[i] == cb || (i == |s| - 1 && cb !in s) by {
      if s[i] != cb {
        assert s[i].next == After(s, i);
        assert forall k :: 0 <= k < |s| && k != i ==> s[k] == s[..i][k];
      }
    }
    current.next := cb;
    head := list;
    if cb in s {
      SelfLoopIsNoList(head, s, cb, i);
    } else {
      ghost var t := s + [cb];
      forall k | 0 <= k < |t| ensures t[k].next == After(t, k) {
        if k < i { assert s[k].next == After(s, k); }
      }
      assert IsList(head, t) && t[|s|].next == After(t, |s|);
    }
  }

  class Clock {
    var pre: Node?
    var post: Node?
    ghost var preNodes: seq<Node>
    ghost var postNodes: seq<Node>
    ghost var log: seq<Event>

    ghost predicate Valid()
      reads this, preNodes, postNodes
    {
      && IsList(pre, preNodes) && IsList(post, postNodes)
      && forall n :: n in preNodes ==> n !in postNodes
    }

    constructor ()
      ensures Valid() && preNodes == [] && postNodes == [] && log == []
    {
      pre, post := null, null;
      preNodes, postNodes, log := [], [], [];
    }

    /** Register a node for the time before the rate change.  The list stays one exactly if the node is
        not on it.  If it is on the other list, that list is cut off after it, and so is left whole
        exactly if the node is not on it, or last. */
    method RegisterPre(cb: Node)
      requires Valid()
      modifies this, cb, preNodes
      ensures preNodes == old(preNodes) + [cb] && postNodes == old(postNodes) && log == old(log)
      ensures Calls(preNodes) == old(Calls(preNodes + [cb])) && Calls(postNodes) == old(Calls(postNodes))
      ensures cb !in old(preNodes) ==> IsList(pre, preNodes)
      ensures cb !in old(preNodes) <==> exists t: seq<Node> :: IsList(pre, t)
      ensures IsList(post, postNodes) <==> Survives(postNodes, cb)
      ensures forall k: nat :: k < |postNodes| && postNodes[k] == cb ==> IsList(post, postNodes[..k + 1])
      ensures Valid() <==> cb !in old(preNodes) && cb !in postNodes
    {
      hide Calls, Distinct, IsList;
      ghost var s := preNodes;
      ListIsDistinct(post, postNodes);
      Links(post, postNodes);
      assert forall i :: 0 <= i < |postNodes| ==> postNodes[i] !in s;
      pre := Append(pre, cb, preNodes);
      preNodes := preNodes + [cb];
      CutAfter(post, postNodes, cb);
      SameCalls(preNodes);
      SameCalls(postNodes);
    }

    method RegisterPost(cb: Node)
      requires Valid()
      modifies this, cb, postNodes
      ensures postNodes == old(postNodes) + [cb] && preNodes == old(preNodes) && log == old(log)
      ensures Calls(postNodes) == old(Calls(postNodes + [cb])) && Calls(preNodes) == old(Calls(preNodes))
      ensures cb !in old(postNodes) ==> IsList(post, postNodes)
      ensures cb !in old(postNodes) <==> exists t: seq<Node> :: IsList(post, t)
      ensures IsList(pre, preNodes) <==> Survives(preNodes, cb)
      ensures forall k: nat :: k < |preNodes| && preNodes[k] == cb ==> IsList(pre, preNodes[..k + 1])
      ensures Valid() <==> cb !in old(postNodes) && cb !in preNodes
    {
      hide Calls, Distinct, IsList;
      ghost var s := postNodes;
      ListIsDistinct(pre, preNodes);
      Links(pre, preNodes);
      assert forall i :: 0 <= i < |preNodes| ==> preNodes[i] !in s;
      post := Append(post, cb, postNodes);
      postNodes := postNodes + [cb];
      CutAfter(pre, preNodes, cb);
      SameCalls(postNodes);
      SameCalls(preNodes);
    }

    method CallAll(list: Node?, ghost s: seq<Node>)
      requires IsList(list, s)
      modifies `log
      ensures log == old(log) + Calls(s)
      ensures |log| == |old(log)| + |s|
      ensures forall i :: 0 <= i < |s| ==> log[|old(log)| + i] == Called(s[i].callback, s[i].priv)
    {
      CallsEach(s);
      var current := list;
      ghost var i := 0;
      while current != null
        invariant 0 <= i <= |s| && current == (if i < |s| then s[i] else null)
        invariant log == old(log) + Calls(s[..i])
        decreases |s| - i
      {
        log := log + [Called(current.callback, current.priv)];
        assert s[..i + 1][..i] == s[..i];
        current := current.next;
        i := i + 1;
      }
      assert s[..i] == s;
    }

    method SetRateHz(hz: int)
      requires Valid()
      modifies `log
      ensures Valid()
      ensures log == old(log) + Calls(preNodes) + [RateSet(hz)] + Calls(postNodes)
      ensures var n := |old(log)| + |preNodes|;
              && |log| == n + 1 + |postNodes| && log[n] == RateSet(hz)
              && (forall i :: 0 <= i < |preNodes| ==>
                    log[|old(log)| + i] == Called(preNodes[i].callback, preNodes[i].priv))
              && (forall i :: 0 <= i < |postNodes| ==>
                    log[n + 1 + i] == Called(postNodes[i].callback, postNodes[i].priv))
    {
      hide IsList, Calls, Distinct;
      ghost var before := log;
      CallAll(pre, preNodes);
      log := log + [RateSet(hz)];
      CallAll(post, postNodes);
      CallsEach(preNodes);
      CallsEach(postNodes);
      InOrder(before, Calls(preNodes), RateSet(hz), Calls(postNodes));
    }
  }

  lemma InOrder(log: seq<Event>, pre: seq<Event>, e: Event, post: seq<Event>)
    ensures var all := log + pre + [e] + post;
            && |all| == |log| + |pre| + 1 + |post| && all[|log| + |pre|] == e
            && (forall i :: 0 <= i < |pre| ==> all[|log| + i] == pre[i])
            && (forall i :: 0 <= i < |post| ==> all[|log| + |pre| + 1 + i] == post[i])
  {
  }

  twostate lemma SameCalls(s: seq<Node>)
    requires forall n :: n in s ==> n.callback == old(n.callback) && n.priv == old(n.priv)
    ensures Calls(s) == old(Calls(s))
  {
    if s != [] {
      SameCalls(s[..|s| - 1]);
    }
  }
}
