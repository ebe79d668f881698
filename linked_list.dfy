/**
 * A generic doubly-linked list: a length counter and handles to the first
 * and last of a chain of nodes, each node holding a value and links to its
 * successor and predecessor.
 *
 * The public view of a list is the ghost sequence `Contents`; the ghost
 * sequence `Nodes` lists the nodes of the chain from head to tail, and
 * `Valid()` ties the real fields (`length`, `start`, `end` and every node's
 * `val`, `next` and `prev`) to both.
 */
module LinkedLists {

  import opened Wrappers

  /** The node at position `i` of `s`, or null when `i` is outside `s`. */
  function NodeAt<T>(s: seq<Node<T>>, i: int): Node?<T>
  {
    if 0 <= i < |s| then s[i] else null
  }

  /** The position that `remove(index)` walks to: the loop over `0..index`
      runs no times when `index` is negative, so the walk stops at the head. */
  function Target(index: int): nat
  {
    if index < 0 then 0 else index
  }

  /** No element of `s` occurs twice. */
  ghost predicate Distinct<X>(s: seq<X>)
  {
    forall i, j | 0 <= i < j < |s| :: s[i] != s[j]
  }

  /** `ns` is a chain of nodes from `first` to `last` holding the values
      `vs` in order: each node's `next` is its successor and its `prev` its
      predecessor, the head has no `prev`, the tail no `next`, and both
      ends are absent when `ns` is empty. */
  ghost predicate Chain<T>(ns: seq<Node<T>>, vs: seq<T>, first: Node?<T>, last: Node?<T>)
    reads ns
  {
    && |ns| == |vs|
    && (forall i | 0 <= i < |ns| :: ns[i].val == vs[i])
    && (|ns| == 0 ==> first == null && last == null)
    && (|ns| != 0 ==>
          && first == ns[0] && ns[0].prev == null
          && last == ns[|ns| - 1] && ns[|ns| - 1].next == null)
    && (forall i {:trigger ns[i].next} | 0 <= i < |ns| - 1 :: ns[i].next == ns[i + 1])
    && (forall i {:trigger ns[i].prev} | 0 < i < |ns| :: ns[i].prev == ns[i - 1])
  }

  /** Deleting the element at `k` shifts every later element down by one. */
  lemma DeleteAt<X>(s: seq<X>, k: nat)
    requires k < |s|
    ensures var d := s[..k] + s[k + 1..];
      && |d| == |s| - 1
      && (forall i | 0 <= i < |d| :: d[i] == s[if i < k then i else i + 1])
  {
  }

  /** Deleting an element of a sequence without repetitions leaves one
      without repetitions that no longer holds that element. */
  lemma DeleteDistinct<X>(s: seq<X>, k: nat)
    requires k < |s| && Distinct(s)
    ensures var d := s[..k] + s[k + 1..];
      && (forall i | 0 <= i < |d| :: d[i] != s[k])
      && Distinct(d)
  {
    DeleteAt(s, k);
  }

  /** The chain that skips position `k`: what must hold of the links of
      `ns` for its nodes other than `ns[k]` to form a chain. */
  lemma ChainDelete<T>(ns: seq<Node<T>>, vs: seq<T>, k: nat, first: Node?<T>, last: Node?<T>)
    requires k < |ns| == |vs|
    requires forall j | 0 <= j < |ns| && j != k :: ns[j].val == vs[j]
    requires forall j {:trigger ns[j].next} | 0 <= j < |ns| - 1 && j != k - 1 && j != k :: ns[j].next == ns[j + 1]
    requires forall j {:trigger ns[j].prev} | 0 < j < |ns| && j != k && j != k + 1 :: ns[j].prev == ns[j - 1]
    requires k > 0 ==> ns[k - 1].next == NodeAt(ns, k + 1)
    requires k + 1 < |ns| ==> ns[k + 1].prev == NodeAt(ns, k - 1)
    requires first == (if k == 0 then NodeAt(ns, 1) else ns[0])
    requires last == (if k == |ns| - 1 then NodeAt(ns, k - 1) else ns[|ns| - 1])
    requires first != null ==> first.prev == null
    requires last != null ==> last.next == null
    ensures Chain(ns[..k] + ns[k + 1..], vs[..k] + vs[k + 1..], first, last)
  {
    DeleteAt(ns, k);
    DeleteAt(vs, k);
    var m := ns[..k] + ns[k + 1..];
    forall i {:trigger m[i].next} | 0 <= i < |m| - 1
      ensures m[i].next == m[i + 1]
    {
      if i != k - 1 {
        var j := if i < k then i else i + 1;
        assert m[i] == ns[j] && m[i + 1] == ns[j + 1];
      }
    }
    forall i {:trigger m[i].prev} | 0 < i < |m|
      ensures m[i].prev == m[i - 1]
    {
      if i != k {
        var j := if i < k then i else i + 1;
        assert m[i] == ns[j] && m[i - 1] == ns[j - 1];
      }
    }
  }

  /** The chain extended by `node` behind its last node: what must hold
      of the links for `ns + [node]` to form a chain. */
  lemma ChainAppend<T>(ns: seq<Node<T>>, vs: seq<T>, node: Node<T>, first: Node?<T>)
    requires |ns| == |vs|
    requires forall j | 0 <= j < |ns| :: ns[j].val == vs[j]
    requires forall j {:trigger ns[j].next} | 0 <= j < |ns| - 1 :: ns[j].next == ns[j + 1]
    requires forall j {:trigger ns[j].prev} | 0 < j < |ns| :: ns[j].prev == ns[j - 1]
    requires |ns| != 0 ==> ns[|ns| - 1].next == node && ns[0].prev == null
    requires node.prev == NodeAt(ns, |ns| - 1) && node.next == null
    requires first == (if |ns| == 0 then node else ns[0])
    ensures Chain(ns + [node], vs + [node.val], first, node)
  {
    var m := ns + [node];
    assert forall i {:trigger m[i].next} | 0 <= i < |m| - 1 :: m[i].next == m[i + 1];
  }

  class Node<T> {
    var val: T
    var next: Node?<T>
    var prev: Node?<T>

    /** A detached node holding `t`. */
    constructor (t: T)
      ensures val == t && next == null && prev == null
    {
      val := t;
      prev := null;
      next := null;
    }
  }

  class LinkedList<T> {
    var length: nat
    var start: Node?<T>
    var end: Node?<T>

    ghost var Nodes: seq<Node<T>>
    ghost var Contents: seq<T>
    ghost var Repr: set<object>

    /** The representation invariant: the counter is the number of nodes,
        the nodes are distinct objects of the footprint, and they form a
        chain from `start` to `end` holding `Contents`. */
    ghost predicate Valid()
      reads this, Repr
      ensures Valid() ==> this in Repr
    {
      && this in Repr
      && (forall i | 0 <= i < |Nodes| :: Nodes[i] in Repr)
      && length == |Nodes|
      && Distinct(Nodes)
      && Chain(Nodes, Contents, start, end)
    }

    /** `LinkedList::new`: the empty list. */
    constructor ()
      ensures Valid() && fresh(Repr)
      ensures Contents == [] && length == 0 && start == null && end == null
    {
      length := 0;
      start := null;
      end := null;
      Nodes := [];
      Contents := [];
      Repr := {this};
    }

    /** `add`: append `obj` behind the current tail, in a fresh node. */
    method Add(obj: T)
      requires Valid()
      modifies Repr
      ensures Valid() && fresh(Repr - old(Repr))
      ensures Contents == old(Contents) + [obj]
      ensures length == old(length) + 1
      ensures fresh(end) && end.val == obj && end.next == null
      ensures old(end) == null ==> start == end && end.prev == null
      ensures old(end) != null ==> start == old(start) && old(end).next == end && end.prev == old(end)
    {
      var node := new Node(obj);
      Link(node);
      Nodes := Nodes + [node];
      Contents := Contents + [obj];
      Repr := Repr + {node};
    }

    /** The linking step of `add`: `node`, not yet in the list, gets no
        successor and the old tail as predecessor; it becomes the head of
        an empty list or the old tail's successor, then the tail, and the
        counter goes up. The chain then runs on to `node`. */
    method Link(node: Node<T>)
      requires Valid() && node !in Repr
      modifies Repr, node
      ensures Nodes == old(Nodes) && Contents == old(Contents) && Repr == old(Repr)
      ensures length == old(length) + 1
      ensures Chain(Nodes + [node], Contents + [node.val], start, end)
      ensures node.val == old(node.val)
      ensures old(end) == null ==> start == end
      ensures old(end) != null ==> start == old(start) && old(end).next == end && end.prev == old(end)
    {
      node.next := null;
      node.prev := end;
      if end == null {
        start := node;
      } else {
        end.next := node;
      }
      end := node;
      length := length + 1;
      ChainAppend(Nodes, Contents, node, start);
    }

    /** `remove(index)`: walk `index` links from the head (none when `index`
        is negative), splice that node out of the chain and return its
        value; when the chain ends first, return None and change nothing. */
    method Remove(index: int) returns (r: Option<T>)
      requires Valid()
      modifies Repr
      ensures Valid() && Repr <= old(Repr)
      ensures Target(index) < |old(Contents)| ==>
        && r == Some(old(Contents)[Target(index)])
        && Contents == old(Contents)[..Target(index)] + old(Contents)[Target(index) + 1..]
        && length == old(length) - 1
      ensures Target(index) >= |old(Contents)| ==> r == None && unchanged(this) && unchanged(Repr)
      ensures r.Some? && old(length) == 1 ==> start == null && end == null
    {
      if start == null {
        return None;
      }
      var need := start;
      var k := 0;
      while k < index
        invariant 0 <= k < |Nodes| && need == Nodes[k]
        invariant k == 0 || k <= index
        decreases index - k
      {
        if need.next == null {
          return None;
        }
        need := need.next;
        k := k + 1;
      }
      assert k == Target(index);

      Unlink(need, k);
      r := Some(need.val);
    }

    /** What `remove` does once it has found `need`, the node at ghost
        position `k`: take it out of the list. The chain is relinked
        around it and it leaves the footprint; its value stays in it. */
    method Unlink(need: Node<T>, ghost k: nat)
      requires Valid() && k < |Nodes| && need == Nodes[k]
      modifies Repr
      ensures Valid() && Repr == old(Repr) - {need}
      ensures Nodes == old(Nodes)[..k] + old(Nodes)[k + 1..]
      ensures Contents == old(Contents)[..k] + old(Contents)[k + 1..]
      ensures length == old(length) - 1
      ensures need.val == old(need.val)
    {
      DeleteDistinct(Nodes, k);
      Relink(need, k);
      Nodes := Nodes[..k] + Nodes[k + 1..];
      Contents := Contents[..k] + Contents[k + 1..];
      Repr := Repr - {need};
    }

    /** The splice of `remove` (its four cases: both neighbours, only a
        predecessor, only a successor, neither) and the decrement of the
        counter. `need` is the node at ghost position `k`; afterwards the
        remaining nodes form a chain from `start` to `end` that skips it. */
    method Relink(need: Node<T>, ghost k: nat)
      requires Valid() && k < |Nodes| && need == Nodes[k]
      modifies Repr
      ensures Nodes == old(Nodes) && Contents == old(Contents) && Repr == old(Repr)
      ensures length == old(length) - 1
      ensures Chain(Nodes[..k] + Nodes[k + 1..], Contents[..k] + Contents[k + 1..], start, end)
      ensures need.val == old(need.val)
    {
      ghost var N, C := Nodes, Contents;
      var prev := need.prev;
      var next := need.next;
      if prev != null && next != null {
        prev.next := next;
        next.prev := prev;
      } else if prev != null {
        prev.next := null;
        end := prev;
      } else if next != null {
        next.prev := null;
        start := next;
      } else {
        start := null;
        end := null;
      }
      length := length - 1;

      ChainDelete(N, C, k, start, end);
    }

    /** `get(index)`: the value `index` links from the head, if there is one. */
    function Get(index: int): (r: Option<T>)
      reads this, Repr
      requires Valid()
      ensures 0 <= index < |Contents| ==> r == Some(Contents[index])
      ensures !(0 <= index < |Contents|) ==> r == None
    {
      GetIthNode(start, index, 0)
    }

    /** `get_ith_node(node, index)`: `node` is the node at ghost position
        `pos` (null past the tail); answers with the value `index` links
        further on. A negative `index` never reaches 0 and so runs off the
        end of the chain. */
    function GetIthNode(node: Node?<T>, index: int, ghost pos: nat): (r: Option<T>)
      reads this, Repr
      requires Valid() && pos <= |Nodes| && node == NodeAt(Nodes, pos)
      ensures 0 <= index < |Contents| - pos ==> r == Some(Contents[pos + index])
      ensures !(0 <= index < |Contents| - pos) ==> r == None
      decreases |Nodes| - pos
    {
      if node == null then None
      else if index == 0 then Some(node.val)
      else GetIthNode(node.next, index - 1, pos + 1)
    }

    /** `Display for LinkedList`: empty text, or the rendering of the chain
        from the head. */
    function ToString(show: T -> string): (r: string)
      reads this, Repr
      requires Valid()
      ensures r == Join(Contents, show)
    {
      if start == null then "" else RenderFrom(start, 0, show)
    }

    /** `Display for Node`: the node's value, followed by `", "` and the
        rendering of its successor when it has one. */
    function RenderFrom(node: Node<T>, ghost pos: nat, show: T -> string): (r: string)
      reads this, Repr
      requires Valid() && pos < |Nodes| && node == Nodes[pos]
      ensures r == Join(Contents[pos..], show)
      decreases |Nodes| - pos
    {
      if node.next == null then
        assert Contents[pos..] == [node.val];
        show(node.val)
      else
        var rest := RenderFrom(node.next, pos + 1, show);
        assert Contents[pos..] == [node.val] + Contents[pos + 1..];
        JoinCons(node.val, Contents[pos + 1..], show);
        show(node.val) + ", " + rest
    }
  }

  /** Reference rendering of the values of `s`, separated by `", "`,
      built from the tail end. */
  function Join<T>(s: seq<T>, show: T -> string): string
  {
    if |s| == 0 then ""
    else if |s| == 1 then show(s[0])
    else Join(s[..|s| - 1], show) + ", " + show(s[|s| - 1])
  }

  /** Rendering from the head end agrees with the reference rendering. */
  lemma {:induction false} JoinCons<T>(x: T, s: seq<T>, show: T -> string)
    requires |s| >= 1
    ensures Join([x] + s, show) == show(x) + ", " + Join(s, show)
    decreases |s|
  {
    if |s| == 1 {
      assert ([x] + s)[..1] == [x];
    } else {
      var n := |s|;
      assert ([x] + s)[..n] == [x] + s[..n - 1];
      JoinCons(x, s[..n - 1], show);
    }
  }

  /** Appending a value extends the rendering by one separated item. */
  lemma JoinSnoc<T>(s: seq<T>, x: T, show: T -> string)
    ensures Join(s + [x], show) == if s == [] then show(x) else Join(s, show) + ", " + show(x)
  {
    assert (s + [x])[..|s|] == s;
  }

  /** Following `next` links `k` times from `n`. */
  ghost function Follow<T>(l: LinkedList<T>, n: Node?<T>, k: nat): Node?<T>
    reads l, l.Repr
    requires l.Valid() && (n == null || n in l.Nodes)
    decreases k
  {
    if k == 0 || n == null then n
    else
      NextInChain(l, n);
      Follow(l, n.next, k - 1)
  }

  /** Following `prev` links `k` times from `n`. */
  ghost function FollowBack<T>(l: LinkedList<T>, n: Node?<T>, k: nat): Node?<T>
    reads l, l.Repr
    requires l.Valid() && (n == null || n in l.Nodes)
    decreases k
  {
    if k == 0 || n == null then n
    else
      PrevInChain(l, n);
      FollowBack(l, n.prev, k - 1)
  }

  /** A node's successor is again a node of the chain, or absent. */
  lemma NextInChain<T>(l: LinkedList<T>, n: Node<T>)
    requires l.Valid() && n in l.Nodes
    ensures n.next == null || n.next in l.Nodes
  {
    var i :| 0 <= i < |l.Nodes| && l.Nodes[i] == n;
  }

  /** A node's predecessor is again a node of the chain, or absent. */
  lemma PrevInChain<T>(l: LinkedList<T>, n: Node<T>)
    requires l.Valid() && n in l.Nodes
    ensures n.prev == null || n.prev in l.Nodes
  {
    var i :| 0 <= i < |l.Nodes| && l.Nodes[i] == n;
  }

  /** Walking forward `k` links from position `p` lands at position `p + k`,
      or runs off the tail. */
  lemma {:induction false} FollowFrom<T>(l: LinkedList<T>, p: nat, k: nat)
    requires l.Valid() && p <= |l.Nodes|
    ensures Follow(l, NodeAt(l.Nodes, p), k) == NodeAt(l.Nodes, p + k)
    decreases k
  {
    if k != 0 && p < |l.Nodes| {
      FollowFrom(l, p + 1, k - 1);
    }
  }

  /** Walking backward `k` links from position `p` lands at position `p - k`,
      or runs off the head. */
  lemma {:induction false} FollowBackFrom<T>(l: LinkedList<T>, p: int, k: nat)
    requires l.Valid() && -1 <= p < |l.Nodes|
    ensures FollowBack(l, NodeAt(l.Nodes, p), k) == NodeAt(l.Nodes, p - k)
    decreases k
  {
    if k != 0 && 0 <= p {
      FollowBackFrom(l, p - 1, k - 1);
    }
  }

  /** Forward traversal from `start` meets a node at each of the first
      `length` steps and reaches the absent link after exactly `length`. */
  lemma ForwardTraversal<T>(l: LinkedList<T>, k: nat)
    requires l.Valid() && k <= l.length
    ensures Follow(l, l.start, k) == NodeAt(l.Nodes, k)
    ensures k < l.length ==> Follow(l, l.start, k) != null
    ensures Follow(l, l.start, l.length) == null
  {
    FollowFrom(l, 0, k);
    FollowFrom(l, 0, l.length);
  }

  /** Backward traversal from `end` meets the nodes in reverse order and
      reaches the absent link after exactly `length` steps. */
  lemma BackwardTraversal<T>(l: LinkedList<T>, k: nat)
    requires l.Valid() && k <= l.length
    ensures FollowBack(l, l.end, k) == NodeAt(l.Nodes, l.length - 1 - k)
    ensures k < l.length ==> FollowBack(l, l.end, k) != null
    ensures FollowBack(l, l.end, l.length) == null
  {
    FollowBackFrom(l, l.length - 1, k);
    FollowBackFrom(l, l.length - 1, l.length);
  }

  /** Forward and backward links mirror each other. */
  lemma LinkSymmetry<T>(l: LinkedList<T>, m: Node<T>, n: Node<T>)
    requires l.Valid() && m in l.Nodes && n in l.Nodes
    ensures m.next == n <==> n.prev == m
  {
    var i :| 0 <= i < |l.Nodes| && l.Nodes[i] == m;
    var j :| 0 <= j < |l.Nodes| && l.Nodes[j] == n;
    if m.next == n {
      assert j == i + 1;
    }
    if n.prev == m {
      assert i == j - 1;
    }
  }

  /** The list is empty exactly when `start` is absent, exactly when `end`
      is absent; the head has no predecessor and the tail no successor. */
  lemma EndsAgree<T>(l: LinkedList<T>)
    requires l.Valid()
    ensures l.start == null <==> l.end == null
    ensures l.start == null <==> l.length == 0
    ensures l.start != null ==> l.start.prev == null && l.end.next == null
  {
  }
}
