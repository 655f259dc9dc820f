/** The timers of the event loop as they are: linked nodes that callbacks change while the loop walks over them. */
module EventLoops {
  import opened Sequences
  import opened Timers
  import TimerRuns

  class TimeEvent {
    var id: int
    var whenSec: int
    var whenMs: int
    var prev: TimeEvent?
    var next: TimeEvent?
    /** The id given at creation, which the source forgets when it marks the node. */
    ghost const key: nat

    constructor (id: nat, due: Time)
      ensures this.id == id && key == id && Due() == due && prev == null && next == null
    {
      this.id, key, whenSec, whenMs, prev, next := id, id, due.sec, due.ms, null, null;
    }

    function Due(): (t: Time)
      reads this`whenSec, this`whenMs
    {
      Time(whenSec, whenMs)
    }

    ghost function Value(): (t: Timer)
      reads this`id, this`whenSec, this`whenMs
    {
      Timer(key, id, Due())
    }
  }

  ghost function Values(nodes: seq<TimeEvent>): (r: seq<Timer>)
    reads nodes`id, nodes`whenSec, nodes`whenMs
    ensures |r| == |nodes| && forall i :: 0 <= i < |nodes| ==> r[i] == nodes[i].Value()
  {
    if nodes == [] then [] else Values(nodes[..|nodes| - 1]) + [nodes[|nodes| - 1].Value()]
  }

  /** The node with rest nodes from it on, or null if there is none. */
  function FromEnd(nodes: seq<TimeEvent>, rest: nat): (n: TimeEvent?)
    requires rest <= |nodes|
    ensures n == null <==> rest == 0
  {
    if rest == 0 then null else nodes[|nodes| - rest]
  }

  /** The later nodes are a tail of all. */
  ghost predicate EndsWith(all: seq<TimeEvent>, later: seq<TimeEvent>) {
    |later| <= |all| && all[|all| - |later|..] == later
  }

  lemma SameFromEnd(all: seq<TimeEvent>, later: seq<TimeEvent>, rest: nat)
    requires EndsWith(all, later) && rest <= |later|
    ensures FromEnd(all, rest) == FromEnd(later, rest)
  {
    if rest > 0 { assert all[|all| - |later|..][|later| - rest] == all[|all| - rest]; }
  }

  class EventLoop {
    var timeEventHead: TimeEvent?
    var timeEventNextId: nat
    var lastTime: int
    ghost var nodes: seq<TimeEvent>

    ghost predicate Valid()
      reads this`timeEventHead, this`nodes, nodes`prev, nodes`next
    {
      && timeEventHead == FromEnd(nodes, |nodes|)
      && (forall i {:trigger nodes[i].prev} :: 0 <= i < |nodes| ==>
            nodes[i].prev == if i == 0 then null else nodes[i - 1])
      && (forall i {:trigger nodes[i].next} :: 0 <= i < |nodes| ==>
            nodes[i].next == if i == |nodes| - 1 then null else nodes[i + 1])
      && (forall i, j :: 0 <= i < j < |nodes| ==> nodes[i] != nodes[j])
    }

    ghost function State(): (l: Loop)
      reads this, nodes`id, nodes`whenSec, nodes`whenMs
      ensures |l.timers| == |nodes|
    {
      Loop(Values(nodes), timeEventNextId, lastTime)
    }

    lemma StateAt(i: nat)
      requires i < |nodes|
      ensures State().timers[i] == nodes[i].Value()
    {
    }

    constructor (now: int)
      ensures Valid() && State() == Loop([], 0, now)
    {
      timeEventHead, timeEventNextId, lastTime, nodes := null, 0, now, [];
    }

    method CreateTimeEvent(milliseconds: int, now: Time) returns (id: nat)
      requires Valid()
      modifies this, nodes`prev
      ensures Valid() && State() == Act(old(State()), Create(milliseconds, now)) && id == old(timeEventNextId)
      ensures |nodes| > 0 && fresh(nodes[0]) && nodes == [nodes[0]] + old(nodes)
    {
      hide AddMilliseconds, Values;
      id := timeEventNextId;
      timeEventNextId := timeEventNextId + 1;
      var te := new TimeEvent(id, AddMilliseconds(now, milliseconds));
      te.next := timeEventHead;
      if te.next != null { te.next.prev := te; }
      timeEventHead := te;
      nodes := [te] + nodes;
      assert Values(nodes) == [te.Value()] + old(Values(nodes));
    }

    /** Marks the first node with the id. */
    method DeleteTimeEvent(id: int) returns (ok: bool)
      requires Valid()
      modifies nodes`id
      ensures Valid() && State() == Act(old(State()), Delete(id))
      ensures ok <==> exists i :: 0 <= i < |nodes| && old(nodes[i].id) == id
    {
      var te := timeEventHead;
      ghost var i := 0;
      while te != null
        invariant i <= |nodes| && te == FromEnd(nodes, |nodes| - i)
        invariant forall j :: 0 <= j < i ==> nodes[j].id != id
        decreases |nodes| - i
      {
        if te.id == id {
          assert FirstWith(Values(nodes), id) == i;
          te.id := DELETED_EVENT_ID;
          assert Values(nodes) == MarkAt(old(Values(nodes)), i);
          assert old(nodes[i].id) == id;
          return true;
        }
        te := te.next;
        i := i + 1;
      }
      assert FirstWith(Values(nodes), id) == |nodes|;
      return false;
    }

    /** What a callback does. */
    method Perform(actions: seq<Action>)
      requires Valid()
      modifies this, nodes
      ensures Valid() && State() == ActAll(old(State()), actions)
      ensures EndsWith(nodes, old(nodes))
      ensures forall i :: 0 <= i < |nodes| ==> nodes[i] in old(nodes) || fresh(nodes[i])
    {
      hide Act, Valid, State;
      assert actions[..0] == [];
      for k := 0 to |actions|
        invariant Valid() && State() == ActAll(old(State()), actions[..k])
        invariant EndsWith(nodes, old(nodes))
        invariant forall i :: 0 <= i < |nodes| ==> nodes[i] in old(nodes) || fresh(nodes[i])
      {
        assert actions[..k + 1][..k] == actions[..k];
        match actions[k] {
          case Create(milliseconds, now) => var _ := CreateTimeEvent(milliseconds, now);
          case Delete(id) => var _ := DeleteTimeEvent(id);
        }
      }
      assert actions[..|actions|] == actions;
    }

    method Unlink(te: TimeEvent, ghost p: nat)
      requires Valid() && p < |nodes| && nodes[p] == te
      modifies this`timeEventHead, this`nodes, nodes`prev, nodes`next
      ensures Valid() && nodes == RemoveAt(old(nodes), p)
      ensures State() == old(State()).(timers := RemoveAt(old(State()).timers, p))
    {
      hide RemoveAt, Values;
      if te.prev != null { te.prev.next := te.next; } else { timeEventHead := te.next; }
      if te.next != null { te.next.prev := te.prev; }
      nodes := RemoveAt(nodes, p);
      assert Values(nodes) == RemoveAt(old(Values(nodes)), p);
    }

    method Settle(te: TimeEvent, retval: int, later: Time, ghost rest: nat)
      requires Valid() && 0 < rest <= |nodes| && te == FromEnd(nodes, rest)
      modifies te`id, te`whenSec, te`whenMs
      ensures Valid()
      ensures State() == SettledIn(old(State()), rest, retval, later)
    {
      hide Values, AddMilliseconds;
      ghost var q := |nodes| - rest;
      if retval != NOMORE {
        var due := AddMilliseconds(later, retval);
        te.whenSec, te.whenMs := due.sec, due.ms;
      } else {
        te.id := DELETED_EVENT_ID;
      }
      assert Values(nodes) == old(Values(nodes))[q := Settled(old(Values(nodes))[q], retval, later)];
    }

    /** A due timer's callback runs, and then its result is taken: a new due time, or the deletion mark. */
    method Call(te: TimeEvent, turn: Turn, ghost rest: nat)
      requires Valid() && 0 < rest <= |nodes| && te == FromEnd(nodes, rest)
      modifies this, nodes
      ensures Valid() && EndsWith(nodes, old(nodes))
      ensures forall i :: 0 <= i < |nodes| ==> nodes[i] in old(nodes) || fresh(nodes[i])
      ensures State() == SettledIn(ActAll(old(State()), turn.actions), rest, turn.retval, turn.later)
    {
      hide ActAll, State, Valid, SettledIn;
      Perform(turn.actions);
      SameFromEnd(nodes, old(nodes), rest);
      Settle(te, turn.retval, turn.later, rest);
    }

    /** The node after one with rest nodes from it on. */
    method NextOf(te: TimeEvent, ghost rest: nat) returns (next: TimeEvent?)
      requires Valid() && 0 < rest <= |nodes| && te == FromEnd(nodes, rest)
      ensures next == FromEnd(nodes, rest - 1)
    {
      next := te.next;
    }

    /** A deleted node leaves the list before its finalizer runs; the walk goes on with the node behind it. */
    method Finalise(te: TimeEvent, actions: seq<Action>, ghost rest: nat) returns (next: TimeEvent?)
      requires Valid() && 0 < rest <= |nodes| && te == FromEnd(nodes, rest)
      modifies this, nodes
      ensures Valid() && rest - 1 <= |nodes| && next == FromEnd(nodes, rest - 1)
      ensures forall i :: 0 <= i < |nodes| ==> nodes[i] in old(nodes) || fresh(nodes[i])
      ensures var was := old(State());
        && |was.timers| == |old(nodes)|
        && State() == ActAll(was.(timers := RemoveAt(was.timers, |was.timers| - rest)), actions)
    {
      hide ActAll, State, Valid, RemoveAt;
      next := NextOf(te, rest);
      Unlink(te, |nodes| - rest);
      ghost var left := nodes;
      assert next == FromEnd(left, rest - 1);
      assert forall i :: 0 <= i < |left| ==> left[i] in old(nodes);
      Perform(actions);
      SameFromEnd(nodes, left, rest - 1);
    }

    /** One turn of the walk, at the node with rest nodes from it on. */
    method ProcessOne(te: TimeEvent, maxId: int, turn: Turn, ghost rest: nat)
        returns (next: TimeEvent?, called: bool, ghost v: Visit)
      requires Valid() && 0 < rest <= |nodes| && te == FromEnd(nodes, rest)
      modifies this, nodes
      ensures Valid() && rest - 1 <= |nodes| && next == FromEnd(nodes, rest - 1)
      ensures forall i :: 0 <= i < |nodes| ==> nodes[i] in old(nodes) || fresh(nodes[i])
      ensures (State(), v) == Step(old(State()), rest, maxId, turn) && (called <==> v.Called?)
    {
      hide ActAll, State, Valid, SettledIn, RemoveAt, Reached, EndsWith;
      StateAt(|nodes| - rest);
      v := Step(State(), rest, maxId, turn).1;
      called := false;
      if te.id == DELETED_EVENT_ID {
        next := Finalise(te, turn.actions, rest);
        return;
      }
      if te.id > maxId {
        next := NextOf(te, rest);
        return;
      }
      if Reached(turn.now, te.Due()) {
        Call(te, turn, rest);
        called := true;
        SameFromEnd(nodes, old(nodes), rest);
      }
      next := NextOf(te, rest);
    }

    method ZeroSeconds()
      requires Valid()
      modifies nodes`whenSec
      ensures Valid() && forall j :: 0 <= j < |nodes| ==> nodes[j].whenSec == 0
    {
      var te := timeEventHead;
      ghost var i := 0;
      while te != null
        invariant i <= |nodes| && te == FromEnd(nodes, |nodes| - i)
        invariant forall j :: 0 <= j < i ==> nodes[j].whenSec == 0
        decreases |nodes| - i
      {
        te.whenSec := 0;
        te := te.next;
        i := i + 1;
      }
    }

    /** A clock that was set back makes every timer due. */
    method ResetAfterSkew(now: int)
      requires Valid()
      modifies this`lastTime, nodes`whenSec
      ensures Valid() && State() == Unskewed(old(State()), now) && lastTime == now
      ensures forall i :: 0 <= i < |nodes| ==>
        nodes[i].whenSec == if now >= old(lastTime) then old(nodes[i].whenSec) else 0
    {
      hide Values, Valid;
      if now < lastTime { ZeroSeconds(); }
      lastTime := now;
      assert Values(nodes) == Unskewed(old(State()), now).timers;
    }

    /** processTimeEvents: the walk over linked nodes does what Pass says; processed counts the calls. */
    method ProcessTimeEvents(now: int, turns: nat -> Turn) returns (processed: nat, ghost visits: seq<Visit>)
      requires Valid()
      modifies this, nodes
      ensures Valid() && (State(), visits) == Pass(old(State()), now, turns)
      ensures processed == CallCount(visits)
    {
      hide Valid, State, Step, Walk, Unskewed, CallCount, FromEnd;
      ResetAfterSkew(now);
      ghost var start, rest := State(), |nodes|;
      var te, maxId, n := timeEventHead, timeEventNextId - 1, 0;
      StateFields();
      processed, visits := 0, [];
      assert CallCount([]) == 0 by { NoCalls(); }
      ghost var (end, all) := Walk(start, rest, maxId, turns, 0);
      assert all == visits + all;
      while te != null
        invariant Valid() && 0 <= rest <= |nodes| && te == FromEnd(nodes, rest)
        invariant forall i :: 0 <= i < |nodes| ==> nodes[i] in old(nodes) || fresh(nodes[i])
        invariant end == Walk(State(), rest, maxId, turns, n).0
        invariant all == visits + Walk(State(), rest, maxId, turns, n).1
        invariant processed == CallCount(visits)
        decreases rest
      {
        ghost var was, v := State(), Waiting(0);
        var called: bool;
        te, called, v := ProcessOne(te, maxId, turns(n), rest);
        OneMore(visits, v);
        WalkOn(visits, was, rest, maxId, turns, n);
        if called { processed := processed + 1; }
        visits, n, rest := visits + [v], n + 1, rest - 1;
      }
      WalkEnd(State(), maxId, turns, n);
      assert all == visits;
    }

    lemma StateFields()
      requires Valid()
      ensures State().nextId == timeEventNextId && State().lastTime == lastTime
        && timeEventHead == FromEnd(nodes, |nodes|)
    {
    }

    /** The first of the earliest nodes, by the lexicographic comparison; deleted nodes take part. */
    method SearchNearestTimer() returns (nearest: TimeEvent?, ghost at: nat)
      requires Valid()
      ensures nearest == null <==> nodes == []
      ensures nearest != null ==> at < |nodes| && nodes[at] == nearest && IsNearest(nodes, at)
    {
      var te := timeEventHead;
      ghost var i := 0;
      nearest, at := null, 0;
      while te != null
        invariant i <= |nodes| && te == FromEnd(nodes, |nodes| - i) && (nearest == null <==> i == 0)
        invariant nearest != null ==> at < i && nodes[at] == nearest && IsNearest(nodes[..i], at)
        decreases |nodes| - i
      {
        if nearest == null || te.whenSec < nearest.whenSec
           || (te.whenSec == nearest.whenSec && te.whenMs < nearest.whenMs) {
          nearest, at := te, i;
        }
        te := te.next;
        i := i + 1;
      }
    }

    /**
     * The timeout computed before polling: never more than the time to the nearest timer, and exactly that if and only
     * if it is less than 2^31 milliseconds. While all due times are normal the nearest timer is the earliest one.
     */
    method PollTimeout(timeEvents: bool, dontWait: bool, now: Time) returns (wait: Wait)
      requires Valid()
      ensures dontWait ==> wait == Timeval(0, 0)
      ensures wait == Forever <==> !dontWait && (!timeEvents || nodes == [])
      ensures timeEvents && !dontWait && nodes != [] ==>
        exists k :: 0 <= k < |nodes| && IsNearest(nodes, k) && (TimerRuns.AllNormal(State()) ==> IsEarliest(nodes, k))
          && Encodes(wait, Millis(nodes[k].Due()) - Millis(now))
    {
      hide Valid, State, IsNearest, IsEarliest, TimerRuns.AllNormal, WaitFor, Micros;
      var shortest: TimeEvent? := null;
      ghost var at := 0;
      if timeEvents && !dontWait { shortest, at := SearchNearestTimer(); }
      if shortest != null {
        if TimerRuns.AllNormal(State()) {
          NodesNormal();
          NearestIsEarliest(nodes, at);
        }
        var ms := (shortest.whenSec - now.sec) * 1000 + shortest.whenMs - now.ms;
        assert ms == Millis(nodes[at].Due()) - Millis(now);
        WaitExact(ms);
        wait := WaitFor(ms);
      } else if dontWait {
        wait := Timeval(0, 0);
      } else {
        wait := Forever;
      }
    }

    /**
     * No oversleep, for every loop that events bring about: the wait ends no later than the earliest timer is due, and
     * exactly then if that is less than 2^31 milliseconds away.
     */
    method PollReached(timeEvents: bool, dontWait: bool, now: Time, ghost start: int, ghost es: seq<TimerRuns.Event>)
        returns (wait: Wait)
      requires Valid() && State() == TimerRuns.Run(Loop([], 0, start), es).0
      requires forall i :: 0 <= i < |es| ==> TimerRuns.SaneEvent(es[i])
      ensures timeEvents && !dontWait && nodes != [] ==>
        exists k :: 0 <= k < |nodes| && IsEarliest(nodes, k) && Encodes(wait, Millis(nodes[k].Due()) - Millis(now))
    {
      hide Valid, State, IsNearest, IsEarliest, TimerRuns.Run, TimerRuns.SaneEvent, Encodes;
      TimerRuns.RunNormal(Loop([], 0, start), es);
      wait := PollTimeout(timeEvents, dontWait, now);
    }

    lemma NodesNormal()
      requires TimerRuns.AllNormal(State())
      ensures forall i :: 0 <= i < |nodes| ==> Normal(nodes[i].Due())
    {
      forall i | 0 <= i < |nodes| ensures Normal(nodes[i].Due()) {
        StateAt(i);
        assert Normal(State().timers[i].due);
      }
    }
  }

  /** The first node that no other comes before. */
  ghost predicate IsNearest(nodes: seq<TimeEvent>, at: nat)
    requires at < |nodes|
    reads nodes`whenSec, nodes`whenMs
  {
    && (forall i :: 0 <= i < |nodes| ==> Reached(nodes[i].Due(), nodes[at].Due()))
    && (forall i :: 0 <= i < at ==> !Reached(nodes[at].Due(), nodes[i].Due()))
  }

  ghost predicate IsEarliest(nodes: seq<TimeEvent>, at: nat)
    requires at < |nodes|
    reads nodes`whenSec, nodes`whenMs
  {
    forall i :: 0 <= i < |nodes| ==> Millis(nodes[at].Due()) <= Millis(nodes[i].Due())
  }

  /** On normal due times the scan finds the true minimum. */
  lemma NearestIsEarliest(nodes: seq<TimeEvent>, at: nat)
    requires at < |nodes| && IsNearest(nodes, at)
    requires forall i :: 0 <= i < |nodes| ==> Normal(nodes[i].Due())
    ensures IsEarliest(nodes, at)
  {
    hide Millis, Reached;
    forall i | 0 <= i < |nodes| ensures Millis(nodes[at].Due()) <= Millis(nodes[i].Due()) {
      ReachedIsOrder(nodes[i].Due(), nodes[at].Due());
    }
  }

  /** Never more than ms milliseconds, or none if they are over; exactly as many if and only if they fit 31 bits. */
  predicate Encodes(wait: Wait, ms: int) {
    var left := if ms > 0 then ms else 0;
    wait.Timeval? && Micros(wait) <= 1000 * left && (Micros(wait) == 1000 * left <==> ms < 0x8000_0000)
  }

  function CallCount(vs: seq<Visit>): (n: nat) {
    if vs == [] then 0 else CallCount(vs[..|vs| - 1]) + if vs[|vs| - 1].Called? then 1 else 0
  }

  lemma NoCalls()
    ensures CallCount([]) == 0
  {
  }

  lemma WalkEnd(l: Loop, maxId: int, turns: nat -> Turn, n: nat)
    ensures Walk(l, 0, maxId, turns, n) == (l, [])
  {
  }

  lemma WalkOn(before: seq<Visit>, l: Loop, rest: nat, maxId: int, turns: nat -> Turn, n: nat)
    requires 0 < rest <= |l.timers|
    ensures var (m, v) := Step(l, rest, maxId, turns(n));
      && Walk(l, rest, maxId, turns, n).0 == Walk(m, rest - 1, maxId, turns, n + 1).0
      && before + Walk(l, rest, maxId, turns, n).1 == (before + [v]) + Walk(m, rest - 1, maxId, turns, n + 1).1
  {
    hide Step;
  }

  lemma OneMore(vs: seq<Visit>, v: Visit)
    ensures CallCount(vs + [v]) == CallCount(vs) + if v.Called? then 1 else 0
  {
    assert (vs + [v])[..|vs|] == vs;
  }
}
