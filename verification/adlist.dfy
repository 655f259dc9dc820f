/** The generic doubly linked list, and the sequence it stands for. */
module LinkedLists {
  import opened Sequences

  datatype Option<+T> = None | Some(value: T)

  datatype Direction = FromHead | FromTail

  function InsertAt<T>(s: seq<T>, k: nat, x: T): (r: seq<T>)
    requires k <= |s|
    ensures |r| == |s| + 1 && r[k] == x
    ensures forall i :: 0 <= i < k ==> r[i] == s[i]
    ensures forall i :: k < i < |r| ==> r[i] == s[i - 1]
  {
    s[..k] + [x] + s[k..]
  }

  function Reverse<T>(s: seq<T>): (r: seq<T>)
    ensures |r| == |s|
  {
    seq(|s|, i requires 0 <= i < |s| => s[|s| - 1 - i])
  }

  function RotatedRight<T>(s: seq<T>): (r: seq<T>)
    ensures |r| == |s| && forall i :: 0 <= i < |s| ==> r[i] == s[if i == 0 then |s| - 1 else i - 1]
  {
    if |s| <= 1 then s else [s[|s| - 1]] + s[..|s| - 1]
  }

  function RotatedLeft<T>(s: seq<T>): (r: seq<T>)
    ensures |r| == |s| && forall i :: 0 <= i < |s| ==> r[i] == s[if i == |s| - 1 then 0 else i + 1]
  {
    if |s| <= 1 then s else s[1..] + [s[0]]
  }

  /** The two rotations undo each other. */
  lemma RotationsInverse<T>(s: seq<T>)
    ensures RotatedLeft(RotatedRight(s)) == s && RotatedRight(RotatedLeft(s)) == s
  {
    if |s| > 1 {
      assert RotatedLeft(RotatedRight(s)) == s[..|s| - 1] + [s[|s| - 1]];
      assert RotatedLeft(s)[..|s| - 1] == s[1..];
    }
  }

  /** Deleting what was just inserted gives the sequence back. */
  lemma InsertThenRemove<T>(s: seq<T>, k: nat, x: T)
    requires k <= |s|
    ensures RemoveAt(InsertAt(s, k, x), k) == s
  {
    assert InsertAt(s, k, x)[..k] == s[..k] && InsertAt(s, k, x)[k + 1..] == s[k..];
  }

  /** Those elements, in order, whose visit is not doomed. */
  function Chosen<X>(xs: seq<X>, ticks: seq<nat>, doomed: nat -> bool): (r: seq<X>)
    requires |xs| == |ticks|
  {
    if xs == [] then [] else
      var n := |xs| - 1;
      Chosen(xs[..n], ticks[..n], doomed) + if doomed(ticks[n]) then [] else [xs[n]]
  }

  lemma {:induction false} ChosenFront<X>(x: X, xs: seq<X>, tick: nat, ticks: seq<nat>, doomed: nat -> bool)
    requires |xs| == |ticks|
    ensures Chosen([x] + xs, [tick] + ticks, doomed) == (if doomed(tick) then [] else [x]) + Chosen(xs, ticks, doomed)
    decreases |xs|
  {
    if xs == [] {
      assert [x] + xs == [x] && [tick] + ticks == [tick];
    } else {
      var n := |xs| - 1;
      assert ([x] + xs)[..n + 1] == [x] + xs[..n] && ([tick] + ticks)[..n + 1] == [tick] + ticks[..n];
      ChosenFront(x, xs[..n], tick, ticks[..n], doomed);
    }
  }

  /** All values copied, or nothing if one copy fails. */
  function CopyAll<T>(vs: seq<T>, dup: T -> Option<T>): (r: Option<seq<T>>)
    ensures r.Some? ==> |r.value| == |vs|
  {
    if vs == [] then Some([])
    else
      var n := |vs| - 1;
      match (CopyAll(vs[..n], dup), dup(vs[n]))
      case (Some(ws), Some(w)) => Some(ws + [w])
      case _ => None
  }

  /** The copy fails exactly if one value cannot be copied; otherwise every value is copied to its own place. */
  lemma {:induction false} CopyAllIs<T>(vs: seq<T>, dup: T -> Option<T>)
    ensures CopyAll(vs, dup) == None <==> exists k :: 0 <= k < |vs| && dup(vs[k]).None?
    ensures CopyAll(vs, dup).Some? ==> forall k :: 0 <= k < |vs| ==> dup(vs[k]) == Some(CopyAll(vs, dup).value[k])
    decreases |vs|
  {
    if vs != [] {
      var n := |vs| - 1;
      CopyAllIs(vs[..n], dup);
      if k :| 0 <= k < n && dup(vs[..n][k]).None? { assert dup(vs[k]).None?; }
      if k :| 0 <= k < n && dup(vs[k]).None? { assert dup(vs[..n][k]).None?; }
    }
  }

  class ListNode<T> {
    var prev: ListNode?<T>
    var next: ListNode?<T>
    var value: T

    constructor (value: T)
      ensures this.value == value && prev == null && next == null
    {
      this.value, prev, next := value, null, null;
    }
  }

  class List<T(==)> {
    var head: ListNode?<T>
    var tail: ListNode?<T>
    var len: nat
    ghost var nodes: seq<ListNode<T>>

    constructor ()
      ensures Valid() && nodes == []
    {
      head, tail, len, nodes := null, null, 0, [];
    }

    ghost predicate Valid()
      reads this, nodes
    {
      && len == |nodes|
      && head == (if nodes == [] then null else nodes[0])
      && tail == (if nodes == [] then null else nodes[|nodes| - 1])
      && (forall i {:trigger nodes[i].prev} :: 0 <= i < |nodes| ==>
            nodes[i].prev == if i == 0 then null else nodes[i - 1])
      && (forall i {:trigger nodes[i].next} :: 0 <= i < |nodes| ==>
            nodes[i].next == if i == |nodes| - 1 then null else nodes[i + 1])
      && (forall i, j :: 0 <= i < j < |nodes| ==> nodes[i] != nodes[j])
    }

    ghost function Values(): (vs: seq<T>)
      reads this, nodes
      ensures |vs| == |nodes|
    {
      seq(|nodes|, i requires 0 <= i < |nodes| reads this, nodes => nodes[i].value)
    }

    method AddNodeHead(value: T)
      requires Valid()
      modifies this, nodes`prev, nodes`next
      ensures Valid() && |nodes| > 0 && nodes[1..] == old(nodes) && fresh(nodes[0])
      ensures Values() == [value] + old(Values())
    {
      var node := new ListNode(value);
      if len == 0 {
        head, tail := node, node;
      } else {
        node.next := head;
        head.prev := node;
        head := node;
      }
      len := len + 1;
      nodes := [node] + nodes;
    }

    method AddNodeTail(value: T)
      requires Valid()
      modifies this, nodes`prev, nodes`next
      ensures Valid() && |nodes| > 0 && nodes == old(nodes) + [nodes[|nodes| - 1]] && fresh(nodes[|nodes| - 1])
      ensures Values() == old(Values()) + [value]
    {
      var node := new ListNode(value);
      if len == 0 {
        head, tail := node, node;
      } else {
        node.prev := tail;
        tail.next := node;
        tail := node;
      }
      len := len + 1;
      nodes := nodes + [node];
    }

    /** Inserts behind or in front of an element of the list; k is its place. */
    method InsertNode(oldNode: ListNode<T>, value: T, after: bool, ghost k: nat)
      requires Valid() && k < |nodes| && nodes[k] == oldNode
      modifies this, nodes`prev, nodes`next
      ensures Valid()
      ensures var at := if after then k + 1 else k;
        |nodes| == |old(nodes)| + 1 && fresh(nodes[at]) && nodes == InsertAt(old(nodes), at, nodes[at])
        && Values() == InsertAt(old(Values()), at, value)
    {
      hide InsertAt;
      var node := new ListNode(value);
      if after {
        node.prev := oldNode;
        node.next := oldNode.next;
        if tail == oldNode { tail := node; }
      } else {
        node.next := oldNode;
        node.prev := oldNode.prev;
        if head == oldNode { head := node; }
      }
      LinkIn(node, if after then k + 1 else k);
    }

    /** The common end of both insertions: node points to its neighbours, which do not point back yet. */
    method LinkIn(node: ListNode<T>, ghost at: nat)
      requires at <= |nodes| && len == |nodes| && nodes != [] && node !in nodes
      requires head == (if at == 0 then node else nodes[0])
        && tail == if at == |nodes| then node else nodes[|nodes| - 1]
      requires node.prev == (if at == 0 then null else nodes[at - 1])
        && node.next == if at == |nodes| then null else nodes[at]
      requires forall i {:trigger nodes[i].prev} :: 0 <= i < |nodes| ==>
        nodes[i].prev == if i == 0 then null else nodes[i - 1]
      requires forall i {:trigger nodes[i].next} :: 0 <= i < |nodes| ==>
        nodes[i].next == if i == |nodes| - 1 then null else nodes[i + 1]
      requires forall i, j :: 0 <= i < j < |nodes| ==> nodes[i] != nodes[j]
      modifies this`len, this`nodes, nodes`prev, nodes`next
      ensures Valid() && nodes == InsertAt(old(nodes), at, node)
      ensures Values() == InsertAt(old(Values()), at, node.value)
    {
      hide InsertAt;
      if node.prev != null { node.prev.next := node; }
      if node.next != null { node.next.prev := node; }
      len := len + 1;
      nodes := InsertAt(nodes, at, node);
    }

    /** Unlinks an element of the list; k is its place. The node itself keeps its own links. */
    method DelNode(node: ListNode<T>, ghost k: nat)
      requires Valid() && k < |nodes| && nodes[k] == node
      modifies this, nodes`prev, nodes`next
      ensures Valid() && nodes == RemoveAt(old(nodes), k) && Values() == RemoveAt(old(Values()), k)
      ensures node.prev == old(node.prev) && node.next == old(node.next)
    {
      hide RemoveAt;
      if node.prev != null { node.prev.next := node.next; } else { head := node.next; }
      if node.next != null { node.next.prev := node.prev; } else { tail := node.prev; }
      len := len - 1;
      nodes := RemoveAt(nodes, k);
    }

    method RotateTailToHead()
      requires Valid()
      modifies this, nodes`prev, nodes`next
      ensures Valid()
      ensures nodes == RotatedRight(old(nodes)) && Values() == RotatedRight(old(Values()))
    {
      hide RotatedRight;
      if len <= 1 { return; }
      var last := tail;
      tail := last.prev;
      tail.next := null;
      head.prev := last;
      last.prev := null;
      last.next := head;
      head := last;
      nodes := RotatedRight(nodes);
    }

    method RotateHeadToTail()
      requires Valid()
      modifies this, nodes`prev, nodes`next
      ensures Valid()
      ensures nodes == RotatedLeft(old(nodes)) && Values() == RotatedLeft(old(Values()))
    {
      hide RotatedLeft;
      if len <= 1 { return; }
      var first := head;
      head := first.next;
      head.prev := null;
      tail.next := first;
      first.next := null;
      first.prev := tail;
      tail := first;
      nodes := RotatedLeft(nodes);
    }

    /** listJoin: takes over all elements of another list and leaves that one empty but valid. */
    method Join(o: List<T>)
      requires Valid() && o.Valid() && this != o
      requires forall i, j :: 0 <= i < |nodes| && 0 <= j < |o.nodes| ==> nodes[i] != o.nodes[j]
      modifies this, nodes`prev, nodes`next, o, o.nodes`prev, o.nodes`next
      ensures Valid() && o.Valid()
      ensures nodes == old(nodes + o.nodes) && o.nodes == []
      ensures Values() == old(Values() + o.Values())
    {
      if o.head != null { o.head.prev := tail; }
      if tail != null { tail.next := o.head; } else { head := o.head; }
      if o.tail != null { tail := o.tail; }
      len := len + o.len;
      o.head, o.tail, o.len := null, null, 0;
      nodes, o.nodes := nodes + o.nodes, [];
    }

    /** The element at a signed index: 0 is the head, -1 the tail; null outside. */
    method Index(index: int) returns (n: ListNode?<T>)
      requires Valid()
      ensures n == if 0 <= index < |nodes| then nodes[index]
                   else if -|nodes| <= index < 0 then nodes[|nodes| + index] else null
    {
      if index < 0 {
        var i := -index - 1;
        n := tail;
        ghost var at := |nodes| - 1;
        while i != 0 && n != null
          invariant 0 <= i && at - i == |nodes| + index && -1 <= at < |nodes|
          invariant n == if at < 0 then null else nodes[at]
          decreases i
        {
          n := n.prev;
          i, at := i - 1, at - 1;
        }
      } else {
        var i := index;
        n := head;
        ghost var at := 0;
        while i != 0 && n != null
          invariant 0 <= i && at + i == index && at <= |nodes|
          invariant n == if at == |nodes| then null else nodes[at]
          decreases i
        {
          n := n.next;
          i, at := i - 1, at + 1;
        }
      }
    }

    /** The first element that matches key; without a match function of its own a list compares values for equality. */
    method SearchKey(key: T, matches: (T, T) -> bool) returns (n: ListNode?<T>)
      requires Valid()
      ensures n == null ==> forall i :: 0 <= i < |nodes| ==> !matches(nodes[i].value, key)
      ensures n != null ==>
        exists k :: 0 <= k < |nodes| && nodes[k] == n && matches(n.value, key)
          && forall i :: 0 <= i < k ==> !matches(nodes[i].value, key)
    {
      n := head;
      ghost var at := 0;
      while n != null
        invariant at <= |nodes| && n == if at == |nodes| then null else nodes[at]
        invariant forall i :: 0 <= i < at ==> !matches(nodes[i].value, key)
        decreases |nodes| - at
      {
        if matches(n.value, key) { return; }
        n := n.next;
        at := at + 1;
      }
    }

    /** listEmpty: every node is released once, from head to tail, and the list is empty. */
    method Empty() returns (released: seq<ListNode<T>>)
      requires Valid()
      modifies this
      ensures Valid() && nodes == [] && released == old(nodes)
    {
      var current := head;
      var left := len;
      released := [];
      while left > 0
        invariant 0 <= left && left + |released| == |nodes| && released == nodes[..|released|]
        invariant current == if left == 0 then null else nodes[|released|]
      {
        var next := current.next;
        released := released + [current];
        current, left := next, left - 1;
      }
      head, tail, len, nodes := null, null, 0, [];
    }
  }

  class ListIter<T(==)> {
    var next: ListNode?<T>
    const direction: Direction

    /** listGetIterator, listRewind and listRewindTail. */
    constructor (l: List<T>, direction: Direction)
      ensures next == (if direction.FromHead? then l.head else l.tail) && this.direction == direction
    {
      next, this.direction := if direction.FromHead? then l.head else l.tail, direction;
    }

    /** listNext: hands out a node after having moved past it. */
    method Next() returns (current: ListNode?<T>)
      modifies this
      ensures current == old(next)
      ensures next == if current == null then null else if direction.FromHead? then current.next else current.prev
    {
      current := next;
      if current != null {
        next := if direction == FromHead then current.next else current.prev;
      }
    }
  }

  /** An iterator that has handed out nodes[i] and moved past it. */
  ghost predicate HandedOut<T>(iter: ListIter<T>, node: ListNode?<T>, nodes: seq<ListNode<T>>, i: int)
    reads iter
  {
    && node == (if 0 <= i < |nodes| then nodes[i] else null)
    && iter.next == match Ahead(iter.direction, nodes, i)
      case Some(next) => next
      case None => null
  }

  /** listNext on an iterator that stands at place i of a valid list. */
  method NextOf<T(==)>(l: List<T>, iter: ListIter<T>, ghost i: int) returns (node: ListNode?<T>)
    requires l.Valid() && iter.next == if 0 <= i < |l.nodes| then l.nodes[i] else null
    modifies iter
    ensures HandedOut(iter, node, l.nodes, i)
  {
    node := iter.Next();
  }

  /** The loop body of a sweep: the node just handed out is deleted, or not. */
  method Visit<T(==)>(l: List<T>, node: ListNode<T>, doom: bool, ghost k: nat)
    requires l.Valid() && k < |l.nodes| && l.nodes[k] == node
    modifies l, l.nodes`prev, l.nodes`next
    ensures l.Valid() && l.nodes == if doom then RemoveAt(old(l.nodes), k) else old(l.nodes)
    ensures l.Values() == if doom then RemoveAt(old(l.Values()), k) else old(l.Values())
  {
    if doom { l.DelNode(node, k); }
  }

  /**
   * xs is what a sweep has left of all after done elements have been visited and k of them kept; doomed is asked about
   * the number of the visit to all[i], which is ticks[i].
   */
  ghost predicate Swept<X>(xs: seq<X>, direction: Direction, all: seq<X>, ticks: seq<nat>, doomed: nat -> bool,
                           done: nat, k: nat) {
    && |ticks| == |all| && done <= |all| && |xs| == k + (|all| - done)
    && match direction
      case FromHead => xs[..k] == Chosen(all[..done], ticks[..done], doomed) && xs[k..] == all[done..]
      case FromTail =>
        var rest := |all| - done;
        xs[..rest] == all[..rest] && xs[rest..] == Chosen(all[rest..], ticks[rest..], doomed)
  }

  /** Where the node visited next is found in what is left. */
  function Place(direction: Direction, size: nat, done: nat, k: nat): (at: int)
    ensures k <= done < size ==> 0 <= at < size
  {
    if direction.FromHead? then k else size - 1 - done
  }

  /** The element after the one at place i, in the direction of the sweep. */
  function Ahead<X>(direction: Direction, xs: seq<X>, i: int): Option<X> {
    match direction
    case FromHead => if 0 <= i < |xs| - 1 then Some(xs[i + 1]) else None
    case FromTail => if 0 < i < |xs| then Some(xs[i - 1]) else None
  }

  lemma SweptStep<X>(xs: seq<X>, direction: Direction, all: seq<X>, ticks: seq<nat>, doomed: nat -> bool, done: nat,
                     k: nat)
    requires Swept(xs, direction, all, ticks, doomed, done, k) && done < |all|
    ensures var i, at := Place(direction, |all|, done, done), Place(direction, |all|, done, k);
      Ahead(direction, xs, at) == Ahead(direction, all, i) && 0 <= i < |all| && 0 <= at < |xs| && xs[at] == all[i]
      && (if doomed(ticks[i]) then Swept(RemoveAt(xs, at), direction, all, ticks, doomed, done + 1, k)
          else Swept(xs, direction, all, ticks, doomed, done + 1, k + 1))
  {
    if direction.FromHead? {
      HeadStep(xs, all, ticks, doomed, done, k);
    } else {
      TailStep(xs, all, ticks, doomed, |all| - done);
    }
  }

  lemma HeadStep<X>(xs: seq<X>, all: seq<X>, ticks: seq<nat>, doomed: nat -> bool, done: nat, k: nat)
    requires Swept(xs, FromHead, all, ticks, doomed, done, k) && done < |all|
    ensures k < |xs| && xs[k] == all[done] && xs[k + 1..] == all[done + 1..]
    ensures if doomed(ticks[done]) then Swept(RemoveAt(xs, k), FromHead, all, ticks, doomed, done + 1, k)
      else Swept(xs, FromHead, all, ticks, doomed, done + 1, k + 1)
  {
    assert xs[k] == xs[k..][0] == all[done];
    assert all[..done + 1][..done] == all[..done] && ticks[..done + 1][..done] == ticks[..done];
    assert xs[k + 1..] == xs[k..][1..] == all[done + 1..];
    if doomed(ticks[done]) {
      assert RemoveAt(xs, k)[..k] == xs[..k] && RemoveAt(xs, k)[k..] == xs[k + 1..];
    } else {
      assert xs[..k + 1] == xs[..k] + [xs[k]];
    }
  }

  lemma TailStep<X>(xs: seq<X>, all: seq<X>, ticks: seq<nat>, doomed: nat -> bool, rest: nat)
    requires 0 < rest <= |all| && rest <= |xs| && Swept(xs, FromTail, all, ticks, doomed, |all| - rest, |xs| - rest)
    ensures xs[rest - 1] == all[rest - 1] && (rest > 1 ==> xs[rest - 2] == all[rest - 2])
    ensures if doomed(ticks[rest - 1])
      then Swept(RemoveAt(xs, rest - 1), FromTail, all, ticks, doomed, |all| - rest + 1, |xs| - rest)
      else Swept(xs, FromTail, all, ticks, doomed, |all| - rest + 1, |xs| - rest + 1)
  {
    hide Chosen;
    var at := rest - 1;
    assert xs[at] == xs[..rest][at] == all[at] && xs[..at] == xs[..rest][..at] == all[..rest][..at] == all[..at];
    if at > 0 { assert xs[at - 1] == xs[..rest][at - 1] == all[at - 1]; }
    ChosenAt(all, ticks, doomed, at);
    if doomed(ticks[at]) {
      assert RemoveAt(xs, at)[..at] == xs[..at] && RemoveAt(xs, at)[at..] == xs[rest..];
    } else {
      assert xs[at..] == [xs[at]] + xs[rest..];
    }
  }

  lemma ChosenAt<X>(all: seq<X>, ticks: seq<nat>, doomed: nat -> bool, at: nat)
    requires at < |all| == |ticks|
    ensures Chosen(all[at..], ticks[at..], doomed)
      == (if doomed(ticks[at]) then [] else [all[at]]) + Chosen(all[at + 1..], ticks[at + 1..], doomed)
  {
    hide Chosen;
    assert [all[at]] + all[at + 1..] == all[at..] && [ticks[at]] + ticks[at + 1..] == ticks[at..];
    ChosenFront(all[at], all[at + 1..], ticks[at], ticks[at + 1..], doomed);
  }

  lemma SweptStart<X>(all: seq<X>, direction: Direction, ticks: seq<nat>, doomed: nat -> bool)
    requires |all| == |ticks|
    ensures Swept(all, direction, all, ticks, doomed, 0, 0)
  {
    assert all[..0] == all[|all|..] == [];
  }

  lemma SweptEnd<X>(xs: seq<X>, direction: Direction, all: seq<X>, ticks: seq<nat>, doomed: nat -> bool, k: nat)
    requires Swept(xs, direction, all, ticks, doomed, |all|, k)
    ensures xs == Chosen(all, ticks, doomed)
  {
    assert all[..|all|] == all[0..] == all && ticks[..|all|] == ticks[0..] == ticks && xs[..k] == xs[0..] == xs;
  }

  /** The number of the visit to each element. */
  function Ticks(direction: Direction, size: nat): (r: seq<nat>)
    ensures |r| == size
  {
    seq(size, i requires 0 <= i < size => if direction.FromHead? then i else size - 1 - i)
  }

  lemma TickAt(direction: Direction, size: nat, done: nat)
    requires done < size
    ensures Ticks(direction, size)[Place(direction, size, done, done)] == done
  {
  }

  /** A sweep in progress: what is left of both the nodes and their values. */
  ghost predicate Sweeping<T>(l: List<T>, direction: Direction, all: seq<ListNode<T>>, vals: seq<T>,
                              doomed: nat -> bool, done: nat, k: nat)
    reads l, l.nodes
  {
    var ticks := Ticks(direction, |all|);
    && l.Valid() && |vals| == |all|
    && Swept(l.nodes, direction, all, ticks, doomed, done, k)
    && Swept(l.Values(), direction, vals, ticks, doomed, done, k)
  }

  /** The body of the loop. */
  method VisitNext<T(==)>(l: List<T>, direction: Direction, node: ListNode<T>, ghost doomed: nat -> bool, doom: bool,
                          ghost all: seq<ListNode<T>>, ghost vals: seq<T>, ghost done: nat, ghost k: nat)
      returns (ghost kept: nat)
    requires Sweeping(l, direction, all, vals, doomed, done, k) && done < |all|
    requires node == Order(direction, all)[done] && doom == doomed(done)
    modifies l, l.nodes`prev, l.nodes`next
    ensures forall j :: 0 <= j < |l.nodes| ==> l.nodes[j] in old(l.nodes)
    ensures Sweeping(l, direction, all, vals, doomed, done + 1, kept)
  {
    hide RemoveAt, Chosen, Swept, Ticks, Order, Place, Ahead, List.Valid, List.Values;
    ghost var ticks, at := Ticks(direction, |all|), Place(direction, |all|, done, k);
    OrderAt(direction, all, done);
    TickAt(direction, |all|, done);
    SweptStep(l.nodes, direction, all, ticks, doomed, done, k);
    SweptStep(l.Values(), direction, vals, ticks, doomed, done, k);
    Visit(l, node, doom, at);
    kept := if doom then k else k + 1;
  }

  lemma OrderAt<X>(direction: Direction, all: seq<X>, done: nat)
    requires done < |all|
    ensures Order(direction, all)[done] == all[Place(direction, |all|, done, done)]
  {
  }

  /** The order in which an iterator is to hand out the elements. */
  function Order<X>(direction: Direction, all: seq<X>): (r: seq<X>)
    ensures |r| == |all|
  {
    if direction.FromHead? then all else Reverse(all)
  }

  /** The iterator will hand out element number i next. */
  ghost predicate Poised<T>(iter: ListIter<T>, all: seq<ListNode<T>>, i: nat)
    reads iter
  {
    iter.next == if i < |all| then Order(iter.direction, all)[i] else null
  }

  method GetIterator<T(==)>(l: List<T>, direction: Direction) returns (iter: ListIter<T>)
    requires l.Valid()
    ensures fresh(iter) && iter.direction == direction && Poised(iter, l.nodes, 0)
  {
    iter := new ListIter(l, direction);
  }

  lemma AheadInOrder<X>(direction: Direction, all: seq<X>, done: nat)
    requires done < |all|
    ensures Ahead(direction, all, Place(direction, |all|, done, done))
      == if done + 1 < |all| then Some(Order(direction, all)[done + 1]) else None
  {
  }

  /** listNext in the middle of a sweep hands out what comes next in the original list. */
  method NextInSweep<T(==)>(l: List<T>, iter: ListIter<T>, ghost doomed: nat -> bool,
                            ghost all: seq<ListNode<T>>, ghost vals: seq<T>, ghost done: nat, ghost k: nat)
      returns (node: ListNode?<T>)
    requires Sweeping(l, iter.direction, all, vals, doomed, done, k) && Poised(iter, all, done)
    modifies iter
    ensures Poised(iter, all, done + 1) && node == if done < |all| then Order(iter.direction, all)[done] else null
  {
    hide Chosen, Swept, Ticks, Place, Ahead, Order, List.Valid, List.Values;
    ghost var at := -1;
    if done < |all| {
      OrderAt(iter.direction, all, done);
      AheadInOrder(iter.direction, all, done);
      SweptStep(l.nodes, iter.direction, all, Ticks(iter.direction, |all|), doomed, done, k);
      at := Place(iter.direction, |all|, done, k);
    } else {
      NothingAhead(iter.direction, l.nodes);
    }
    node := NextOf(l, iter, at);
  }

  lemma NothingAhead<X>(direction: Direction, xs: seq<X>)
    ensures Ahead(direction, xs, -1) == None
  {
  }

  /** listNext on a list that does not change. */
  method NextOfOriginal<T(==)>(l: List<T>, iter: ListIter<T>, ghost i: nat) returns (node: ListNode?<T>)
    requires l.Valid() && iter.direction == FromHead && Poised(iter, l.nodes, i)
    modifies iter
    ensures Poised(iter, l.nodes, i + 1) && node == if i < |l.nodes| then l.nodes[i] else null
  {
    node := NextOf(l, iter, i);
  }

  lemma NothingToCopy<T>(vals: seq<T>, c: List<T>, dup: T -> Option<T>)
    requires c.nodes == []
    ensures CopyAll(vals[..0], dup) == Some(c.Values())
  {
    assert vals[..0] == [];
  }

  lemma OneMoreCopied<T>(orig: List<T>, dup: T -> Option<T>, i: nat)
    requires i < |orig.nodes|
    ensures var vals := orig.Values();
      && vals[i] == orig.nodes[i].value
      && CopyAll(vals[..i + 1], dup) == match (CopyAll(vals[..i], dup), dup(vals[i]))
        case (Some(ws), Some(w)) => Some(ws + [w])
        case _ => None
  {
    var vals := orig.Values();
    assert vals[..i + 1][..i] == vals[..i];
  }

  /**
   * Iterating over a list in either direction hands out every node exactly once, in order, even if any of the nodes
   * handed out are deleted on the way, as doomed says by the number of the visit; the other nodes stay, in order.
   */
  method Sweep<T(==)>(l: List<T>, direction: Direction, doomed: nat -> bool) returns (visited: seq<ListNode<T>>)
    requires l.Valid()
    modifies l, l.nodes`prev, l.nodes`next
    ensures l.Valid() && visited == Order(direction, old(l.nodes))
    ensures var ticks := Ticks(direction, |old(l.nodes)|);
      l.nodes == Chosen(old(l.nodes), ticks, doomed) && l.Values() == Chosen(old(l.Values()), ticks, doomed)
  {
    hide Chosen, Swept, Order, Poised, Ticks, List.Valid, List.Values;
    ghost var all, vals, k := l.nodes, l.Values(), 0;
    ghost var ticks := Ticks(direction, |all|);
    var iter := GetIterator(l, direction);
    SweptStart(all, direction, ticks, doomed);
    SweptStart(vals, direction, ticks, doomed);
    visited := [];
    var node := NextInSweep(l, iter, doomed, all, vals, 0, 0);
    while node != null
      invariant fresh(iter) && iter.direction == direction && |visited| <= |all|
      invariant forall j :: 0 <= j < |l.nodes| ==> l.nodes[j] in all
      invariant Sweeping(l, direction, all, vals, doomed, |visited|, k) && Poised(iter, all, |visited| + 1)
      invariant node == if |visited| < |all| then Order(direction, all)[|visited|] else null
      invariant visited == Order(direction, all)[..|visited|]
      decreases |all| - |visited|
    {
      k := VisitNext(l, direction, node, doomed, doomed(|visited|), all, vals, |visited|, k);
      visited := visited + [node];
      node := NextInSweep(l, iter, doomed, all, vals, |visited|, k);
    }
    SweptEnd(l.nodes, direction, all, ticks, doomed, k);
    SweptEnd(l.Values(), direction, vals, ticks, doomed, k);
  }

  /** The elements of a list that were all allocated by the method at hand. */
  twostate predicate FreshList<T>(new c: List<T>)
    reads c, c.nodes
  {
    fresh(c) && c.Valid() && forall i :: 0 <= i < |c.nodes| ==> fresh(c.nodes[i])
  }

  /** listDup: the copy of a valid list, or nothing if a single copy fails. The original is not touched. */
  method Dup<T(==)>(orig: List<T>, dup: T -> Option<T>) returns (copy: List?<T>)
    requires orig.Valid()
    ensures match CopyAll(orig.Values(), dup)
      case None => copy == null
      case Some(ws) => copy != null && FreshList(copy) && copy.Values() == ws
  {
    hide CopyAll, List.Values, List.Valid, Order, Poised, HandedOut, Ahead, Place;
    ghost var vals := orig.Values();
    var c := new List<T>();
    var iter := GetIterator(orig, FromHead);
    var node := NextOfOriginal(orig, iter, 0);
    ghost var i := 0;
    NothingToCopy(vals, c, dup);
    while node != null
      invariant i <= |orig.nodes| && orig.Valid() && orig.Values() == vals && iter.direction == FromHead
        && fresh(iter) && FreshList(c)
      invariant node == (if i < |orig.nodes| then orig.nodes[i] else null) && Poised(iter, orig.nodes, i + 1)
      invariant CopyAll(vals[..i], dup) == Some(c.Values())
      decreases |orig.nodes| - i
    {
      OneMoreCopied(orig, dup, i);
      match dup(node.value) {
        case None => CopyAllIs(vals, dup); return null;
        case Some(w) => c.AddNodeTail(w);
      }
      i := i + 1;
      node := NextOfOriginal(orig, iter, i);
    }
    assert vals[..i] == vals;
    copy := c;
  }
}
