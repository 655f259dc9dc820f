/** What a pass over the timers means for the whole list, and what holds over every run of the event loop. */
module TimerRuns {
  import opened Sequences
  import opened Timers

  // ---- One pass: who is visited, called, finalised, and what remains.

  /** A timer as the walk of a pass at time now finds it: with second 0 exactly if the clock was set back. */
  function AtStart(t: Timer, lastTime: int, now: int): (r: Timer) {
    if now >= lastTime then t else t.(due := Time(0, t.due.ms))
  }

  lemma UnskewedKeeps(l: Loop, now: int)
    requires Inv(l)
    ensures Inv(Unskewed(l, now)) && Keys(Unskewed(l, now).timers) == Keys(l.timers)
    ensures forall i :: 0 <= i < |l.timers| ==> Unskewed(l, now).timers[i] == AtStart(l.timers[i], l.lastTime, now)
    ensures now >= l.lastTime ==> Unskewed(l, now).timers == l.timers
  {
    var u := Unskewed(l, now);
    assert forall i :: 0 <= i < |l.timers| ==> u.timers[i].key == l.timers[i].key && u.timers[i].id == l.timers[i].id;
  }

  /**
   * The timers of the list at the start of the pass are visited once each, in order, and no others. Such a timer is
   * called exactly if it is live at the start, nothing before its turn deleted it and its own due time is reached at
   * its turn, or, if the clock was set back, the second 0 with its milliseconds; it is unlinked and finalised exactly
   * if it was deleted before its turn. What its callback or finalizer does is what the turn says.
   */
  lemma PassVisits(l: Loop, now: int, turns: nat -> Turn, i: nat)
    requires Inv(l) && i < |l.timers|
    ensures var (t, vs) := (l.timers[i], Pass(l, now, turns).1);
      var deleted := t.id == DELETED_EVENT_ID || DeletedBy(vs[..i], t.key);
      && |vs| == |l.timers| && vs[i].key == t.key < l.nextId && !vs[i].TooNew?
      && (vs[i].Finalised? <==> deleted)
      && (now >= l.lastTime ==> (vs[i].Called? <==> !deleted && Reached(turns(i).now, t.due)))
      && (now < l.lastTime ==> (vs[i].Called? <==> !deleted && Reached(turns(i).now, Time(0, t.due.ms))))
      && (vs[i].Called? ==> vs[i].retval == turns(i).retval && vs[i].later == turns(i).later)
      && (vs[i].Called? || vs[i].Finalised? ==> vs[i].actions == turns(i).actions)
  {
    hide Walk, Since, DeletedBy, Reached, Unskewed;
    var u := Unskewed(l, now);
    UnskewedKeeps(l, now);
    assert Keys(u.timers)[i] == Keys(l.timers)[i];
    WalkVisits(u, |l.timers|, l.nextId - 1, turns, 0, i);
    SinceId(u.timers[i], Pass(l, now, turns).1[..i]);
  }

  /** A clock that stands after second 0 calls every live timer once it was set back. */
  lemma SetBackCallsAll(l: Loop, now: int, turns: nat -> Turn, i: nat)
    requires Inv(l) && i < |l.timers| && now < l.lastTime && turns(i).now.sec > 0
    ensures var (t, vs) := (l.timers[i], Pass(l, now, turns).1);
      |vs| == |l.timers| && (vs[i].Called? <==> t.id != DELETED_EVENT_ID && !DeletedBy(vs[..i], t.key))
  {
    hide Pass, DeletedBy;
    PassVisits(l, now, turns, i);
  }

  lemma SinceId(t: Timer, vs: seq<Visit>)
    ensures Since(t, vs).id == DELETED_EVENT_ID <==> t.id == DELETED_EVENT_ID || DeletedBy(vs, t.key)
  {
  }

  /** A pass leaves the new timers in front and the old ones, less the finalised, in their old order. */
  lemma PassOrder(l: Loop, now: int, turns: nat -> Turn)
    requires Inv(l)
    ensures var (end, vs) := Pass(l, now, turns);
      && Inv(end) && end.lastTime == now && end.nextId >= l.nextId
      && Keys(end.timers) == Down(l.nextId, end.nextId) + Survivors(vs)
  {
    hide Walk, Keys, Survivors, Unskewed;
    var u := Unskewed(l, now);
    UnskewedKeeps(l, now);
    AllReady(u);
    WalkKeeps(u, |l.timers|, l.nextId - 1, turns, 0);
    WalkOrder(u, |l.timers|, l.nextId - 1, turns, 0);
    assert u.timers[..0] == [];
    assert Keys([]) == [] by { NoKeys(); }
    var (end, vs) := Pass(l, now, turns);
    assert Down(l.nextId, end.nextId) + [] + Survivors(vs) == Down(l.nextId, end.nextId) + Survivors(vs);
  }

  lemma AllReady(l: Loop)
    requires Inv(l)
    ensures Ready(l, |l.timers|, l.nextId - 1)
  {
  }

  lemma NoKeys()
    ensures Keys([]) == []
  {
  }

  // ---- The state of a single timer.

  datatype Found = Absent | Found(timer: Timer)

  function TimerOf(timers: seq<Timer>, key: nat): (r: Found)
    ensures r.Found? ==> r.timer.key == key
    ensures r.Found? <==> exists i :: 0 <= i < |timers| && timers[i].key == key
  {
    if timers == [] then Absent
    else if timers[0].key == key then Found(timers[0])
    else
      var r := TimerOf(timers[1..], key);
      assert (exists i :: 0 <= i < |timers| && timers[i].key == key) ==>
        exists i :: 0 <= i < |timers[1..]| && timers[1..][i].key == key by {
        if i :| 0 <= i < |timers| && timers[i].key == key { assert timers[1..][i - 1].key == key; }
      }
      r
  }

  lemma {:induction false} TimerOfAt(timers: seq<Timer>, i: nat)
    requires i < |timers| && forall j, k :: 0 <= j < k < |timers| ==> timers[j].key != timers[k].key
    ensures TimerOf(timers, timers[i].key) == Found(timers[i])
    decreases |timers|
  {
    if i > 0 {
      assert timers[0].key != timers[i].key;
      TimerOfAt(timers[1..], i - 1);
    }
  }

  lemma InvTimerOf(l: Loop, i: nat)
    requires Inv(l) && i < |l.timers|
    ensures TimerOf(l.timers, l.timers[i].key) == Found(l.timers[i])
  {
    TimerOfAt(l.timers, i);
  }

  function MarkedFound(f: Found, actions: seq<Action>): Found {
    match f case Absent => Absent case Found(t) => Found(Marked(t, actions))
  }

  function SinceFound(f: Found, vs: seq<Visit>): Found {
    match f case Absent => Absent case Found(t) => Found(Since(t, vs))
  }

  /** What one visit makes of the timer visited. */
  function Left(t: Timer, v: Visit): Found {
    match v
    case Finalised(_, _) => Absent
    case Called(_, actions, retval, later) => Found(Settled(Marked(t, actions), retval, later))
    case _ => Found(t)
  }

  /** Every timer after a turn is new, the one visited, or one of the others. */
  lemma SteppedFrom(l: Loop, rest: nat, v: Visit, m: Loop, i: nat)
    requires 0 < rest <= |l.timers| && Stepped(l, rest, v, m) && i < |m.timers|
    ensures var n, p, gone := m.nextId - l.nextId, |l.timers| - rest, if v.Finalised? then 1 else 0;
      if i < n then m.timers[i].key >= l.nextId
      else if i < n + p then m.timers[i] == Marked(l.timers[i - n], ActionsOf(v))
      else if i == n + p && gone == 0 then Left(l.timers[p], v) == Found(m.timers[i])
      else m.timers[i] == Marked(l.timers[i - n + gone], ActionsOf(v))
  {
    hide Marked, Settled;
    var n, p, gone := m.nextId - l.nextId, |l.timers| - rest, if v.Finalised? then 1 else 0;
    if n <= i < n + p {
      assert m.timers[n + (i - n)] == Marked(l.timers[i - n], ActionsOf(v));
    } else if i == n + p && gone == 0 {
      assert m.timers[n + p..][..1][0] == m.timers[i];
    } else if i >= n + p {
      assert m.timers[n + (i - n + gone) - gone] == Marked(l.timers[i - n + gone], ActionsOf(v));
    }
  }

  lemma SteppedTo(l: Loop, rest: nat, v: Visit, m: Loop, i: nat)
    requires 0 < rest <= |l.timers| && Stepped(l, rest, v, m) && i < |l.timers| && i != |l.timers| - rest
    ensures exists at :: 0 <= at < |m.timers| && m.timers[at] == Marked(l.timers[i], ActionsOf(v))
  {
    hide Marked, Settled, ActionsOf;
    var n, p, gone := m.nextId - l.nextId, |l.timers| - rest, if v.Finalised? then 1 else 0;
    var at := if i < p then n + i else n + i - gone;
    assert m.timers[at] == Marked(l.timers[i], ActionsOf(v));
  }

  lemma StepOther(l: Loop, rest: nat, v: Visit, m: Loop, key: nat)
    requires 0 < rest <= |l.timers| && Inv(l) && Inv(m) && Stepped(l, rest, v, m)
    requires key < l.nextId && key != l.timers[|l.timers| - rest].key
    ensures TimerOf(m.timers, key) == MarkedFound(TimerOf(l.timers, key), ActionsOf(v))
  {
    hide TimerOf, Marked, Settled, ActionsOf, Inv, Stepped;
    if TimerOf(l.timers, key).Found? {
      var i :| 0 <= i < |l.timers| && l.timers[i].key == key;
      InvTimerOf(l, i);
      SteppedTo(l, rest, v, m, i);
      var at :| 0 <= at < |m.timers| && m.timers[at] == Marked(l.timers[i], ActionsOf(v));
      InvTimerOf(m, at);
    } else if TimerOf(m.timers, key).Found? {
      var i :| 0 <= i < |m.timers| && m.timers[i].key == key;
      SteppedFrom(l, rest, v, m, i);
      SteppedSize(l, rest, v, m);
      assert false;
    }
  }

  lemma SteppedSize(l: Loop, rest: nat, v: Visit, m: Loop)
    requires 0 < rest <= |l.timers| && Stepped(l, rest, v, m)
    ensures m.nextId >= l.nextId && |m.timers| == |l.timers| + (m.nextId - l.nextId) - if v.Finalised? then 1 else 0
  {
  }

  lemma StepOwn(l: Loop, rest: nat, v: Visit, m: Loop)
    requires 0 < rest <= |l.timers| && Inv(l) && Inv(m) && Stepped(l, rest, v, m)
    ensures var te := l.timers[|l.timers| - rest]; TimerOf(m.timers, te.key) == Left(te, v)
  {
    hide TimerOf, Marked, Settled, ActionsOf;
    var n, p := m.nextId - l.nextId, |l.timers| - rest;
    var te := l.timers[p];
    if !v.Finalised? {
      assert n + p < |m.timers|;
      SteppedFrom(l, rest, v, m, n + p);
      InvTimerOf(m, n + p);
    } else if TimerOf(m.timers, te.key).Found? {
      var i :| 0 <= i < |m.timers| && m.timers[i].key == te.key;
      SteppedFrom(l, rest, v, m, i);
      assert false;
    }
  }

  /** A timer whose turn is over, or which is not in the list, is only ever marked by the rest of the walk. */
  lemma {:induction false} WalkOther(l: Loop, rest: nat, maxId: int, turns: nat -> Turn, n: nat, key: nat)
    requires Ready(l, rest, maxId) && key < l.nextId
    requires forall i :: |l.timers| - rest <= i < |l.timers| ==> l.timers[i].key != key
    ensures var (end, vs) := Walk(l, rest, maxId, turns, n);
      TimerOf(end.timers, key) == SinceFound(TimerOf(l.timers, key), vs)
    decreases rest
  {
    hide Step, Inv, Since, TimerOf, Marked, Fits, Deletes, ActionsOf, Stepped;
    if rest == 0 {
      if TimerOf(l.timers, key).Found? { SinceNone(TimerOf(l.timers, key).timer); }
    } else {
      var (m, v) := Step(l, rest, maxId, turns(n));
      StepCorrect(l, rest, maxId, turns(n));
      StepReady(l, rest, maxId, turns(n));
      SteppedSize(l, rest, v, m);
      StepOther(l, rest, v, m, key);
      KeysAhead(l, rest, maxId, turns(n), key);
      WalkOther(m, rest - 1, maxId, turns, n + 1, key);
      if TimerOf(l.timers, key).Found? {
        SinceFront(TimerOf(l.timers, key).timer, v, Walk(m, rest - 1, maxId, turns, n + 1).1);
      }
    }
  }

  /** The keys still to be visited stay the same through a turn. */
  lemma KeysAhead(l: Loop, rest: nat, maxId: int, turn: Turn, key: nat)
    requires Ready(l, rest, maxId) && rest > 0
    requires forall i :: |l.timers| - rest < i < |l.timers| ==> l.timers[i].key != key
    ensures var m := Step(l, rest, maxId, turn).0;
      rest - 1 <= |m.timers| && forall i :: |m.timers| - (rest - 1) <= i < |m.timers| ==> m.timers[i].key != key
  {
    hide Step, Inv, Marked, ActionsOf;
    StepReady(l, rest, maxId, turn);
    var (m, v) := Step(l, rest, maxId, turn);
    forall i | |m.timers| - (rest - 1) <= i < |m.timers| ensures m.timers[i].key != key {
      var at := i - (|m.timers| - |l.timers|);
      assert m.timers[|m.timers| - |l.timers| + at] == Marked(l.timers[at], ActionsOf(v));
    }
  }

  /**
   * What becomes of timer t if its visit is v and vs are the visits from v on: unlinked; or rescheduled or marked as
   * its callback asked, or kept, and marked if any callback or finalizer from its turn on deleted it.
   */
  function Outcome(t: Timer, v: Visit, vs: seq<Visit>): Found {
    match v
    case Finalised(_, _) => Absent
    case Called(_, _, retval, later) => Found(Since(Settled(t, retval, later), vs))
    case _ => Found(Since(t, vs))
  }

  lemma LeftSince(t: Timer, v: Visit, vs: seq<Visit>)
    ensures SinceFound(Left(t, v), vs) == Outcome(t, v, [v] + vs)
  {
    hide Since, Deletes, DeletedBy, AddMilliseconds;
    if v.Called? {
      SinceFront(Settled(t, v.retval, v.later), v, vs);
    } else if !v.Finalised? {
      SinceFront(t, v, vs);
      assert !Deletes(ActionsOf(v), t.key) by { NothingDeleted(t.key); }
    }
  }

  lemma NothingDeleted(key: nat)
    ensures !Deletes([], key)
  {
  }

  lemma {:induction false} WalkOutcome(l: Loop, rest: nat, maxId: int, turns: nat -> Turn, n: nat, i: nat)
    requires Ready(l, rest, maxId) && i < rest
    ensures var (end, vs) := Walk(l, rest, maxId, turns, n);
      var t := l.timers[|l.timers| - rest + i];
      TimerOf(end.timers, t.key) == Outcome(t, vs[i], vs[i..])
    decreases rest
  {
    hide Step, Since, TimerOf, Fits, ActionsOf, Stepped, Outcome, Left;
    var (m, v) := Step(l, rest, maxId, turns(n));
    var (end, ws) := Walk(m, rest - 1, maxId, turns, n + 1);
    var vs := [v] + ws;
    assert Walk(l, rest, maxId, turns, n) == (end, vs);
    var t := l.timers[|l.timers| - rest + i];
    StepReady(l, rest, maxId, turns(n));
    if i == 0 {
      StepCorrect(l, rest, maxId, turns(n));
      StepOwn(l, rest, v, m);
      KeysAhead(l, rest, maxId, turns(n), t.key);
      SteppedSize(l, rest, v, m);
      WalkOther(m, rest - 1, maxId, turns, n + 1, t.key);
      LeftSince(t, v, ws);
      assert vs[0..] == vs;
    } else {
      WalkOutcome(m, rest - 1, maxId, turns, n + 1, i - 1);
      WalkVisits(m, rest - 1, maxId, turns, n + 1, i - 1);
      assert vs[i..] == ws[i - 1..];
      assert m.timers[|m.timers| - (rest - 1) + (i - 1)] == Marked(t, ActionsOf(v));
      SameOutcome(t, ActionsOf(v), ws[..i - 1], ws[i - 1], turns(n + i), ws[i - 1..]);
    }
  }

  lemma SameOutcome(t: Timer, actions: seq<Action>, before: seq<Visit>, v: Visit, turn: Turn, vs: seq<Visit>)
    requires Fits(v, Since(Marked(t, actions), before), turn)
    ensures Outcome(Marked(t, actions), v, vs) == Outcome(t, v, vs)
  {
    hide Deletes, ActionsOf;
    SinceId(Marked(t, actions), before);
  }

  /** The exact state of every old timer after a pass. */
  lemma PassOutcome(l: Loop, now: int, turns: nat -> Turn, i: nat)
    requires Inv(l) && i < |l.timers|
    ensures var (end, vs) := Pass(l, now, turns);
      i < |vs| && TimerOf(end.timers, l.timers[i].key) == Outcome(AtStart(l.timers[i], l.lastTime, now), vs[i], vs[i..])
  {
    hide Walk, TimerOf, Outcome, Unskewed;
    var u := Unskewed(l, now);
    UnskewedKeeps(l, now);
    AllReady(u);
    assert Keys(u.timers)[i] == Keys(l.timers)[i];
    WalkOutcome(u, |l.timers|, l.nextId - 1, turns, 0, i);
  }

  /**
   * In plain terms: a timer that was called and not deleted from its turn on is rescheduled, that many milliseconds
   * after the clock was read again, or deleted if its callback asked for no more; one that was waiting keeps its due
   * time.
   */
  lemma PassReschedules(l: Loop, now: int, turns: nat -> Turn, i: nat)
    requires Inv(l) && i < |l.timers| && now >= l.lastTime
    requires !DeletedBy(Pass(l, now, turns).1[i..], l.timers[i].key)
    ensures var (end, vs) := Pass(l, now, turns); var after := TimerOf(end.timers, l.timers[i].key);
      && i < |vs|
      && (vs[i].Waiting? ==> after == Found(l.timers[i]))
      && (vs[i].Called? && turns(i).retval == -1 ==> after.Found? && after.timer.id == -1)
      && (vs[i].Called? && turns(i).retval != -1 ==>
            && after.Found? && after.timer.id == l.timers[i].key
            && Millis(after.timer.due) == Millis(turns(i).later) + turns(i).retval)
  {
    hide Pass, DeletedBy, TimerOf, AddMilliseconds, Millis, Reached;
    PassVisits(l, now, turns, i);
    PassOutcome(l, now, turns, i);
    AddMillisecondsExact(turns(i).later, turns(i).retval);
  }

  // ---- Timers that callbacks and finalizers create.

  function Creations(actions: seq<Action>): (n: nat)
    decreases |actions|
  {
    if actions == [] then 0
    else Creations(actions[..|actions| - 1]) + if actions[|actions| - 1].Create? then 1 else 0
  }

  lemma ActTimer(l: Loop, a: Action, key: nat)
    requires Inv(l) && key < l.nextId
    ensures TimerOf(Act(l, a).timers, key) == MarkedFound(TimerOf(l.timers, key), [a])
  {
    hide Act, TimerOf, Marked;
    ActFollows(l, a);
    var m := Act(l, a);
    var n := m.nextId - l.nextId;
    if TimerOf(l.timers, key).Found? {
      var i :| 0 <= i < |l.timers| && l.timers[i].key == key;
      InvTimerOf(l, i);
      assert m.timers[i + n] == Marked(l.timers[i + n - n], [a]);
      InvTimerOf(m, i + n);
    }
  }

  lemma MarkedTwice(t: Timer, before: seq<Action>, a: Action)
    ensures Marked(Marked(t, before), [a]) == Marked(t, before + [a])
  {
    hide Deletes;
    DeletesSplit(before, [a], t.key);
  }

  /** The timer that action number j creates, as the actions after it leave it. */
  lemma {:induction false} ActAllCreates(l: Loop, actions: seq<Action>, j: nat)
    requires Inv(l) && j < |actions| && actions[j].Create?
    ensures var (m, a, key) := (ActAll(l, actions), actions[j], l.nextId + Creations(actions[..j]));
      && key < m.nextId
      && TimerOf(m.timers, key)
         == Found(Marked(Timer(key, key, AddMilliseconds(a.now, a.milliseconds)), actions[j + 1..]))
    decreases |actions|
  {
    hide TimerOf, Marked, AddMilliseconds, Act, Inv, Follows;
    var n := |actions| - 1;
    var m, key := ActAll(l, actions[..n]), l.nextId + Creations(actions[..j]);
    ActAllFollows(l, actions[..n]);
    ActAllCounts(l, actions[..n]);
    if j == n {
      assert actions[j + 1..] == [];
      ActCreates(m, actions[n]);
    } else {
      ActAllCreates(l, actions[..n], j);
      assert actions[..n][..j] == actions[..j] && actions[..n][j + 1..] + [actions[n]] == actions[j + 1..];
      ActTimer(m, actions[n], key);
      var made := Timer(key, key, AddMilliseconds(actions[j].now, actions[j].milliseconds));
      MarkedTwice(made, actions[..n][j + 1..], actions[n]);
    }
  }

  lemma ActCreates(l: Loop, a: Action)
    requires Inv(l) && a.Create?
    ensures var (m, key) := (Act(l, a), l.nextId);
      && key < m.nextId
      && TimerOf(m.timers, key) == Found(Marked(Timer(key, key, AddMilliseconds(a.now, a.milliseconds)), []))
  {
    hide TimerOf, Marked, AddMilliseconds, Inv;
    ActFollows(l, a);
    InvTimerOf(Act(l, a), 0);
    MarkedByNothing(Act(l, a).timers[0]);
  }

  lemma MarkedByNothing(t: Timer)
    ensures Marked(t, []) == t
  {
  }

  lemma {:induction false} ActAllCounts(l: Loop, actions: seq<Action>)
    ensures ActAll(l, actions).nextId == l.nextId + Creations(actions)
    decreases |actions|
  {
    if actions != [] { ActAllCounts(l, actions[..|actions| - 1]); }
  }

  /** The turn in which it is created does nothing else to it. */
  lemma StepCreates(l: Loop, rest: nat, maxId: int, turn: Turn, j: nat)
    requires Ready(l, rest, maxId) && rest > 0 && j < |turn.actions| && turn.actions[j].Create?
    requires var v := Step(l, rest, maxId, turn).1; v.Called? || v.Finalised?
    ensures var (m, a, key) := (Step(l, rest, maxId, turn).0, turn.actions[j], l.nextId + Creations(turn.actions[..j]));
      && key < m.nextId
      && TimerOf(m.timers, key)
         == Found(Marked(Timer(key, key, AddMilliseconds(a.now, a.milliseconds)), turn.actions[j + 1..]))
  {
    hide TimerOf, Marked, AddMilliseconds, ActAll, Settled, RemoveAt;
    var p := |l.timers| - rest;
    var key := l.nextId + Creations(turn.actions[..j]);
    if Step(l, rest, maxId, turn).1.Finalised? {
      RemoveKeepsInv(l, p);
      ActAllCreates(l.(timers := RemoveAt(l.timers, p)), turn.actions, j);
    } else {
      ActAllFollows(l, turn.actions);
      ActAllCreates(l, turn.actions, j);
      var m := ActAll(l, turn.actions);
      var q := |m.timers| - rest;
      assert m.timers[q] == Marked(l.timers[p], turn.actions);
      UpdateOther(m, q, Settled(m.timers[q], turn.retval, turn.later), key);
    }
  }

  lemma UpdateOther(l: Loop, k: nat, t: Timer, key: nat)
    requires Inv(l) && k < |l.timers| && t.key == l.timers[k].key != key
    requires t.id == l.timers[k].id || t.id == DELETED_EVENT_ID
    ensures TimerOf(l.timers[k := t], key) == TimerOf(l.timers, key)
  {
    hide TimerOf;
    UpdateKeepsInv(l, k, t);
    var m := l.(timers := l.timers[k := t]);
    if TimerOf(l.timers, key).Found? {
      var i :| 0 <= i < |l.timers| && l.timers[i].key == key;
      InvTimerOf(l, i);
      assert m.timers[i] == l.timers[i];
      InvTimerOf(m, i);
    }
  }

  function CreatedBy(vs: seq<Visit>): (n: nat) {
    if vs == [] then 0 else Creations(ActionsOf(vs[0])) + CreatedBy(vs[1..])
  }

  lemma StepCounts(l: Loop, rest: nat, maxId: int, turn: Turn)
    requires 0 < rest <= |l.timers|
    ensures var (m, v) := Step(l, rest, maxId, turn); m.nextId == l.nextId + Creations(ActionsOf(v))
  {
    hide ActAll, Reached;
    ActAllCounts(l, turn.actions);
    ActAllCounts(l.(timers := RemoveAt(l.timers, |l.timers| - rest)), turn.actions);
  }

  lemma {:induction false} WalkCreates(l: Loop, rest: nat, maxId: int, turns: nat -> Turn, n: nat, i: nat, j: nat)
    requires Ready(l, rest, maxId) && i < rest && maxId < l.nextId
    requires var v := Walk(l, rest, maxId, turns, n).1[i];
      (v.Called? || v.Finalised?) && j < |turns(n + i).actions| && turns(n + i).actions[j].Create?
    ensures var (end, vs) := Walk(l, rest, maxId, turns, n); var actions := turns(n + i).actions;
      var key := l.nextId + CreatedBy(vs[..i]) + Creations(actions[..j]);
      var made := Timer(key, key, AddMilliseconds(actions[j].now, actions[j].milliseconds));
      TimerOf(end.timers, key) == Found(Since(Marked(made, actions[j + 1..]), vs[i + 1..]))
    decreases rest
  {
    hide Step, Since, TimerOf, Marked, AddMilliseconds, Fits, Stepped, ActionsOf, Creations, Inv;
    var (m, v) := Step(l, rest, maxId, turns(n));
    var (end, ws) := Walk(m, rest - 1, maxId, turns, n + 1);
    var vs := [v] + ws;
    assert Walk(l, rest, maxId, turns, n) == (end, vs);
    StepReady(l, rest, maxId, turns(n));
    StepCounts(l, rest, maxId, turns(n));
    if i == 0 {
      var key := l.nextId + Creations(turns(n).actions[..j]);
      assert vs[..0] == [] && vs[1..] == ws;
      StepCreates(l, rest, maxId, turns(n), j);
      WalkOther(m, rest - 1, maxId, turns, n + 1, key);
    } else {
      assert ws[i - 1] == vs[i] && vs[i + 1..] == ws[i..];
      WalkCreates(m, rest - 1, maxId, turns, n + 1, i - 1, j);
      assert vs[..i] == [v] + ws[..i - 1] && vs[..i][1..] == ws[..i - 1];
    }
  }

  /**
   * Every timer that a callback or finalizer creates during a pass is in the list after it, due the given milliseconds
   * after the clock was read, live unless a later action of the pass deleted it, and not called by the pass.
   */
  lemma PassCreates(l: Loop, now: int, turns: nat -> Turn, i: nat, j: nat)
    requires Inv(l) && i < |l.timers| && i < |Pass(l, now, turns).1|
    requires var v := Pass(l, now, turns).1[i]; v.Called? || v.Finalised?
    requires j < |turns(i).actions| && turns(i).actions[j].Create?
    ensures var (end, vs) := Pass(l, now, turns); var (actions, a) := (turns(i).actions, turns(i).actions[j]);
      var key := l.nextId + CreatedBy(vs[..i]) + Creations(actions[..j]);
      var after := TimerOf(end.timers, key);
      && after.Found? && Millis(after.timer.due) == Millis(a.now) + a.milliseconds
      && (after.timer.id ==
            if Deletes(actions[j + 1..], key) || DeletedBy(vs[i + 1..], key) then DELETED_EVENT_ID else key)
      && !VisitedIn(vs, key)
  {
    hide Walk, TimerOf, Deletes, DeletedBy, AddMilliseconds, Millis, Unskewed, Creations, CreatedBy, Reached, Since,
      Marked;
    var u := Unskewed(l, now);
    UnskewedKeeps(l, now);
    AllReady(u);
    WalkCreates(u, |l.timers|, l.nextId - 1, turns, 0, i, j);
    var (end, vs) := Pass(l, now, turns);
    var (actions, a) := (turns(i).actions, turns(i).actions[j]);
    var key := l.nextId + CreatedBy(vs[..i]) + Creations(actions[..j]);
    var made := Timer(key, key, AddMilliseconds(a.now, a.milliseconds));
    SinceId(Marked(made, actions[j + 1..]), vs[i + 1..]);
    MarkedId(made, actions[j + 1..]);
    AddMillisecondsExact(a.now, a.milliseconds);
    if VisitedIn(vs, key) {
      var k :| 0 <= k < |vs| && vs[k].key == key;
      PassVisits(l, now, turns, k);
      assert false;
    }
    SinceLives(Marked(made, actions[j + 1..]), vs[i + 1..]);
  }

  predicate VisitedIn(vs: seq<Visit>, key: nat) {
    exists k :: 0 <= k < |vs| && vs[k].key == key
  }

  lemma MarkedId(t: Timer, actions: seq<Action>)
    ensures Marked(t, actions).id == if Deletes(actions, t.key) then DELETED_EVENT_ID else t.id
  {
  }

  lemma SinceLives(t: Timer, vs: seq<Visit>)
    ensures Since(t, vs).id == t.id || Since(t, vs).id == DELETED_EVENT_ID
  {
  }

  // ---- Whole runs.

  /** Between passes the program creates and deletes timers itself. */
  datatype Event = Do(a: Action) | Tick(now: int, turns: nat -> Turn)

  function Next(l: Loop, e: Event): (r: (Loop, seq<Visit>)) {
    match e
    case Do(a) => (Act(l, a), [])
    case Tick(now, turns) => Pass(l, now, turns)
  }

  function Run(l: Loop, es: seq<Event>): (r: (Loop, seq<Visit>))
    decreases |es|
  {
    if es == [] then (l, []) else
      var (m, log) := Run(l, es[..|es| - 1]);
      var (end, vs) := Next(m, es[|es| - 1]);
      (end, log + vs)
  }

  /** The visits name these timers, in order. */
  ghost predicate Visits(vs: seq<Visit>, keys: seq<nat>) {
    |vs| == |keys| && forall i :: 0 <= i < |vs| ==> vs[i].key == keys[i]
  }

  lemma {:induction false} VisitsPartition(vs: seq<Visit>, keys: seq<nat>)
    requires Visits(vs, keys)
    ensures multiset(Survivors(vs)) + multiset(Finals(vs)) == multiset(keys)
    decreases |vs|
  {
    if vs != [] {
      VisitsPartition(vs[1..], keys[1..]);
      assert keys == [vs[0].key] + keys[1..];
    }
  }

  lemma {:induction false} FinalsConcat(vs: seq<Visit>, ws: seq<Visit>)
    ensures Finals(vs + ws) == Finals(vs) + Finals(ws)
    decreases |vs|
  {
    if vs == [] {
      assert vs + ws == ws;
    } else {
      FinalsConcat(vs[1..], ws);
      assert (vs + ws)[1..] == vs[1..] + ws;
    }
  }

  /** The timers of l and those created since are all still in m or have been finalised, once. */
  ghost predicate Conserved(l: Loop, m: Loop, finals: seq<nat>) {
    && l.nextId <= m.nextId
    && multiset(Keys(m.timers)) + multiset(finals) == multiset(Keys(l.timers)) + multiset(Down(l.nextId, m.nextId))
  }

  lemma PassConserves(l: Loop, now: int, turns: nat -> Turn)
    requires Inv(l)
    ensures var (end, vs) := Pass(l, now, turns); Conserved(l, end, Finals(vs))
  {
    hide Pass, Keys, Down, Survivors, Finals, Visits;
    var (end, vs) := Pass(l, now, turns);
    PassOrder(l, now, turns);
    PassKeys(l, now, turns);
    VisitsPartition(vs, Keys(l.timers));
  }

  lemma PassKeys(l: Loop, now: int, turns: nat -> Turn)
    requires Inv(l)
    ensures Visits(Pass(l, now, turns).1, Keys(l.timers))
  {
    hide DeletedBy, Reached, Inv, Unskewed, Walk;
    var vs := Pass(l, now, turns).1;
    forall i | 0 <= i < |vs| ensures vs[i].key == Keys(l.timers)[i] { PassVisits(l, now, turns, i); }
  }

  lemma ActConserves(l: Loop, a: Action)
    requires Inv(l)
    ensures Conserved(l, Act(l, a), [])
  {
    hide Act, Inv, Deletes, Marked;
    ActFollows(l, a);
    var m := Act(l, a);
    var n := m.nextId - l.nextId;
    forall i | n <= i < |m.timers| ensures Keys(m.timers)[i] == Keys(l.timers)[i - n] {
      assert m.timers[i] == Marked(l.timers[i - n], [a]);
    }
    assert Keys(m.timers) == Down(l.nextId, m.nextId) + Keys(l.timers);
  }

  /**
   * Over every run the list stays well formed, and every timer ever created is in the list or was finalised, never
   * both and never twice.
   */
  lemma {:induction false} RunConserves(l: Loop, es: seq<Event>)
    requires Inv(l)
    ensures var (m, log) := Run(l, es); Inv(m) && Conserved(l, m, Finals(log))
    decreases |es|
  {
    hide Inv, Act, Pass, Keys, Down, Finals, Conserved;
    if es == [] {
      ConservedSelf(l);
      assert Finals([]) == [] by { NoFinals(); }
    } else {
      var n := |es| - 1;
      RunConserves(l, es[..n]);
      var (m, log) := Run(l, es[..n]);
      var (end, vs) := Next(m, es[n]);
      FinalsConcat(log, vs);
      match es[n] {
        case Do(a) =>
          ActFollows(m, a);
          ActConserves(m, a);
          assert Finals([]) == [] by { NoFinals(); }
        case Tick(now, turns) =>
          PassOrder(m, now, turns);
          PassConserves(m, now, turns);
      }
      ConservedTwice(l, m, end, Finals(log), Finals(vs));
    }
  }

  lemma ConservedTwice(l: Loop, m: Loop, r: Loop, before: seq<nat>, after: seq<nat>)
    requires Conserved(l, m, before) && Conserved(m, r, after)
    ensures Conserved(l, r, before + after)
  {
    hide Keys, Down;
    DownSplit(l.nextId, m.nextId, r.nextId);
    var first, second := Down(l.nextId, m.nextId), Down(m.nextId, r.nextId);
    calc {
      multiset(Keys(r.timers)) + multiset(before + after);
      (multiset(Keys(r.timers)) + multiset(after)) + multiset(before);
      (multiset(Keys(m.timers)) + multiset(before)) + multiset(second);
      multiset(Keys(l.timers)) + multiset(second + first);
    }
  }

  lemma ConservedSelf(l: Loop)
    ensures Conserved(l, l, [])
  {
    DownEmpty(l.nextId);
  }

  lemma NoFinals()
    ensures Finals([]) == []
  {
  }

  /** From a fresh event loop: no timer is finalised twice, and a finalised one is not in the list. */
  lemma FinalisedOnce(start: int, es: seq<Event>, i: nat, j: nat)
    ensures var (m, log) := Run(Loop([], 0, start), es); var finals := Finals(log);
      && (i < j < |finals| ==> finals[i] != finals[j])
      && (i < |finals| && j < |m.timers| ==> finals[i] != m.timers[j].key)
      && |m.timers| + |finals| == m.nextId
  {
    hide Run, Finals, Down, Keys;
    var l := Loop([], 0, start);
    RunConserves(l, es);
    var (m, log) := Run(l, es);
    var finals, keys, all := Finals(log), Keys(m.timers), Down(0, m.nextId);
    NoKeys();
    assert multiset(keys) + multiset(finals) == multiset(all);
    assert |multiset(keys) + multiset(finals)| == |keys| + |finals|;
    DownSize(m.nextId);
    if i < j < |finals| && finals[i] == finals[j] {
      TwiceCounted(finals, i, j);
      DownOnce(m.nextId, finals[i]);
      assert false;
    }
    if i < |finals| && j < |m.timers| && finals[i] == m.timers[j].key {
      KeyAt(m.timers, j);
      assert multiset(finals)[finals[i]] >= 1 && multiset(keys)[keys[j]] >= 1;
      DownOnce(m.nextId, finals[i]);
      assert false;
    }
  }

  lemma KeyAt(timers: seq<Timer>, j: nat)
    requires j < |timers|
    ensures Keys(timers)[j] == timers[j].key
  {
  }

  lemma DownSize(n: nat)
    ensures |Down(0, n)| == n
  {
  }

  lemma {:induction false} DownOnce(n: nat, k: nat)
    ensures multiset(Down(0, n))[k] <= 1
    ensures k >= n ==> multiset(Down(0, n))[k] == 0
  {
    if n == 0 {
      DownEmpty(0);
    } else {
      DownOnce(n - 1, k);
      assert Down(0, n) == [n - 1] + Down(0, n - 1);
    }
  }

  lemma TwiceCounted(s: seq<nat>, i: nat, j: nat)
    requires i < j < |s| && s[i] == s[j]
    ensures multiset(s)[s[i]] >= 2
  {
    assert s == s[..j] + [s[j]] + s[j + 1..];
    assert s[..j][i] == s[i];
    assert multiset(s) == multiset(s[..j]) + multiset{s[j]} + multiset(s[j + 1..]);
    assert s[i] in multiset(s[..j]);
  }

  // ---- A deleted timer is never called again.

  /** The timer was created, and has since been marked or unlinked. */
  predicate Dead(l: Loop, key: nat) {
    key < l.nextId && match TimerOf(l.timers, key) case Absent => true case Found(t) => t.id == DELETED_EVENT_ID
  }

  /** Deleting an id leaves no live timer of that key. */
  lemma DeleteKills(l: Loop, key: nat)
    requires Inv(l) && key < l.nextId
    ensures Dead(Act(l, Delete(key)), key)
  {
    ActDead(l, Delete(key), key);
  }

  lemma ActDead(l: Loop, a: Action, key: nat)
    requires Inv(l) && key < l.nextId && (Dead(l, key) || a == Delete(key))
    ensures Dead(Act(l, a), key)
  {
    hide Act, TimerOf, Marked;
    var m := Act(l, a);
    ActFollows(l, a);
    var n := m.nextId - l.nextId;
    if TimerOf(m.timers, key).Found? {
      var i :| 0 <= i < |m.timers| && m.timers[i].key == key;
      InvTimerOf(m, i);
      assert i >= n && m.timers[i] == Marked(l.timers[i - n], [a]);
      InvTimerOf(l, i - n);
      if a == Delete(key) {
        assert Marked(l.timers[i - n], [a]).id == DELETED_EVENT_ID by { OwnDelete(l.timers[i - n]); }
      }
    }
  }

  lemma OwnDelete(t: Timer)
    ensures Marked(t, [Delete(t.key)]).id == DELETED_EVENT_ID
  {
    assert [Delete(t.key)][0] == Delete(t.key);
  }

  predicate Calls(vs: seq<Visit>, key: nat) {
    exists i :: 0 <= i < |vs| && vs[i].Called? && vs[i].key == key
  }

  lemma PassDead(l: Loop, now: int, turns: nat -> Turn, key: nat)
    requires Inv(l) && Dead(l, key)
    ensures var (end, vs) := Pass(l, now, turns);
      !Calls(vs, key) && Dead(end, key) && TimerOf(end.timers, key) == Absent
  {
    hide Walk, TimerOf, DeletedBy, Reached, Unskewed, Keys;
    var (end, vs) := Pass(l, now, turns);
    PassOrder(l, now, turns);
    if Calls(vs, key) {
      var i :| 0 <= i < |vs| && vs[i].Called? && vs[i].key == key;
      PassVisits(l, now, turns, i);
      InvTimerOf(l, i);
      assert false;
    }
    if TimerOf(l.timers, key).Found? {
      var i :| 0 <= i < |l.timers| && l.timers[i].key == key;
      InvTimerOf(l, i);
      PassVisits(l, now, turns, i);
      PassOutcome(l, now, turns, i);
    } else {
      PassAbsent(l, now, turns, key);
    }
  }

  lemma PassAbsent(l: Loop, now: int, turns: nat -> Turn, key: nat)
    requires Inv(l) && key < l.nextId && TimerOf(l.timers, key) == Absent
    ensures TimerOf(Pass(l, now, turns).0.timers, key) == Absent
  {
    hide Walk, TimerOf, Unskewed;
    var u := Unskewed(l, now);
    UnskewedKeeps(l, now);
    AllReady(u);
    forall i | 0 <= i < |u.timers| ensures u.timers[i].key != key {
      assert Keys(u.timers)[i] == Keys(l.timers)[i];
    }
    WalkOther(u, |u.timers|, l.nextId - 1, turns, 0, key);
  }

  /** Once deleted, a timer stays deleted and is not called by any pass of any run that follows. */
  lemma {:induction false} RunDead(l: Loop, es: seq<Event>, key: nat)
    requires Inv(l) && Dead(l, key)
    ensures var (m, log) := Run(l, es); !Calls(log, key) && Dead(m, key)
    decreases |es|
  {
    hide Act, Pass, TimerOf, Inv, Dead;
    if es != [] {
      var n := |es| - 1;
      RunDead(l, es[..n], key);
      RunConserves(l, es[..n]);
      var (m, log) := Run(l, es[..n]);
      assert key < m.nextId by { DeadIsOld(m, key); }
      match es[n] {
        case Do(a) => ActDead(m, a, key);
        case Tick(now, turns) => PassDead(m, now, turns, key);
      }
    }
  }

  lemma DeadIsOld(l: Loop, key: nat)
    requires Dead(l, key)
    ensures key < l.nextId
  {
  }

  // ---- Due times stay normal.

  /** No borrow is needed to add the delay, which may be negative: its remainder does not exceed the milliseconds. */
  predicate NoBorrow(now: Time, milliseconds: int) {
    Normal(now) && now.ms + Remainder(milliseconds) >= 0
  }

  predicate SaneAction(a: Action) {
    a.Create? ==> NoBorrow(a.now, a.milliseconds)
  }

  ghost predicate SaneTurn(turn: Turn) {
    && (turn.retval != NOMORE ==> NoBorrow(turn.later, turn.retval))
    && forall i :: 0 <= i < |turn.actions| ==> SaneAction(turn.actions[i])
  }

  ghost predicate SaneEvent(e: Event) {
    match e
    case Do(a) => SaneAction(a)
    case Tick(_, turns) => forall n :: SaneTurn(turns(n))
  }

  ghost predicate AllNormal(l: Loop) {
    forall i :: 0 <= i < |l.timers| ==> Normal(l.timers[i].due)
  }

  /** A non-negative delay never needs one. */
  lemma DelayNoBorrow(now: Time, milliseconds: nat)
    requires Normal(now)
    ensures NoBorrow(now, milliseconds)
  {
  }

  /** For a normal reading of the clock, creation keeps all due times normal exactly without a borrow. */
  lemma CreateNormalIff(l: Loop, milliseconds: int, now: Time)
    requires AllNormal(l) && Normal(now)
    ensures AllNormal(Act(l, Create(milliseconds, now))) <==> NoBorrow(now, milliseconds)
  {
    hide AddMilliseconds;
    AddMillisecondsExact(now, milliseconds);
    var m := Act(l, Create(milliseconds, now));
    assert m.timers[0].due == AddMilliseconds(now, milliseconds) && m.timers[1..] == l.timers;
    assert forall i :: 1 <= i < |m.timers| ==> m.timers[i] == l.timers[i - 1];
  }

  lemma ActNormal(l: Loop, a: Action)
    requires AllNormal(l) && SaneAction(a)
    ensures AllNormal(Act(l, a))
  {
    hide FirstWith;
    if a.Create? { AddMillisecondsExact(a.now, a.milliseconds); }
  }

  lemma {:induction false} ActAllNormal(l: Loop, actions: seq<Action>)
    requires AllNormal(l) && forall i :: 0 <= i < |actions| ==> SaneAction(actions[i])
    ensures AllNormal(ActAll(l, actions))
    decreases |actions|
  {
    hide Act, SaneAction, AllNormal;
    if actions != [] {
      ActAllNormal(l, actions[..|actions| - 1]);
      ActNormal(ActAll(l, actions[..|actions| - 1]), actions[|actions| - 1]);
    }
  }

  lemma StepNormal(l: Loop, rest: nat, maxId: int, turn: Turn)
    requires AllNormal(l) && SaneTurn(turn) && 0 < rest <= |l.timers|
    ensures AllNormal(Step(l, rest, maxId, turn).0)
  {
    hide ActAll, AddMilliseconds, Reached;
    var te := l.timers[|l.timers| - rest];
    if te.id == DELETED_EVENT_ID {
      ActAllNormal(l.(timers := RemoveAt(l.timers, |l.timers| - rest)), turn.actions);
    } else {
      ActAllNormal(l, turn.actions);
      if turn.retval != NOMORE { AddMillisecondsExact(turn.later, turn.retval); }
    }
  }

  lemma {:induction false} WalkNormal(l: Loop, rest: nat, maxId: int, turns: nat -> Turn, n: nat)
    requires AllNormal(l) && rest <= |l.timers| && forall k :: SaneTurn(turns(k))
    ensures AllNormal(Walk(l, rest, maxId, turns, n).0)
    decreases rest
  {
    hide Step, AllNormal, SaneTurn;
    if rest > 0 {
      StepNormal(l, rest, maxId, turns(n));
      WalkNormal(Step(l, rest, maxId, turns(n)).0, rest - 1, maxId, turns, n + 1);
    }
  }

  /** Through creation, rescheduling and the reset after clock skew, milliseconds stay below a thousand. */
  lemma {:induction false} RunNormal(l: Loop, es: seq<Event>)
    requires AllNormal(l) && forall i :: 0 <= i < |es| ==> SaneEvent(es[i])
    ensures AllNormal(Run(l, es).0)
    decreases |es|
  {
    hide Act, Walk, SaneTurn, SaneAction;
    if es != [] {
      var n := |es| - 1;
      RunNormal(l, es[..n]);
      var m := Run(l, es[..n]).0;
      assert SaneEvent(es[n]);
      match es[n] {
        case Do(a) => ActNormal(m, a);
        case Tick(now, turns) => WalkNormal(Unskewed(m, now), |m.timers|, m.nextId - 1, turns, 0);
      }
    }
  }
}
