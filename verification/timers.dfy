/**
 * The timer half of the event loop, on values: clock arithmetic, and one pass over the timers with arbitrary
 * callbacks.
 */
module Timers {
  import opened Sequences

  const DELETED_EVENT_ID := -1
  const NOMORE := -1

  /** A reading of the clock, or a due time. */
  datatype Time = Time(sec: int, ms: int)

  function Millis(t: Time): int { t.sec * 1000 + t.ms }

  predicate Normal(t: Time) { 0 <= t.ms < 1000 }

  /** The lexicographic comparison of the source. */
  predicate Reached(now: Time, due: Time) {
    now.sec > due.sec || (now.sec == due.sec && now.ms >= due.ms)
  }

  // Division and remainder of C, which truncate toward zero.
  function Quotient(x: int): int { if x >= 0 then x / 1000 else -(-x / 1000) }

  function Remainder(x: int): int { if x >= 0 then x % 1000 else -(-x % 1000) }

  function AddMilliseconds(now: Time, milliseconds: int): (due: Time) {
    var sec, ms := now.sec + Quotient(milliseconds), now.ms + Remainder(milliseconds);
    if ms >= 1000 then Time(sec + 1, ms - 1000) else Time(sec, ms)
  }

  /** The due time is always the right number of milliseconds away; it is normal exactly when no borrow was needed. */
  lemma AddMillisecondsExact(now: Time, milliseconds: int)
    ensures Millis(AddMilliseconds(now, milliseconds)) == Millis(now) + milliseconds
    ensures Normal(now) ==> (Normal(AddMilliseconds(now, milliseconds)) <==> now.ms + Remainder(milliseconds) >= 0)
    ensures Normal(now) && milliseconds >= 0 ==> Normal(AddMilliseconds(now, milliseconds))
  {
    assert milliseconds == Quotient(milliseconds) * 1000 + Remainder(milliseconds);
  }

  /**
   * With a borrow it is not: half a second before 5.0 comes out after 4.6 in the lexicographic order, though it is
   * earlier.
   */
  lemma BorrowExample()
    ensures var due, other := AddMilliseconds(Time(5, 0), -500), Time(4, 600);
      !Normal(due) && Reached(due, other) && !Reached(other, due) && Millis(due) < Millis(other)
  {
    assert Quotient(-500) == 0 && Remainder(-500) == -500;
  }

  /** On normal times the lexicographic order is the order of time. */
  lemma ReachedIsOrder(now: Time, due: Time)
    requires Normal(now) && Normal(due)
    ensures Reached(now, due) <==> Millis(now) >= Millis(due)
  {
    if now.sec > due.sec { assert now.sec * 1000 >= due.sec * 1000 + 1000; }
    if now.sec < due.sec { assert now.sec * 1000 + 1000 <= due.sec * 1000; }
  }

  // ---- How long the poll may sleep.

  datatype Wait = Forever | Timeval(sec: int, usec: int)

  /** The conversion to long, which has 32 bits on Windows. */
  function Int32(x: int): (r: int)
    ensures -0x8000_0000 <= r < 0x8000_0000
  {
    var low := x % 0x1_0000_0000;
    if low < 0x8000_0000 then low else low - 0x1_0000_0000
  }

  function WaitFor(ms: int): (w: Wait) {
    if ms > 0 then Timeval(Quotient(Int32(ms)), Remainder(ms) * 1000) else Timeval(0, 0)
  }

  function Micros(w: Wait): int
    requires w.Timeval?
  {
    w.sec * 1000000 + w.usec
  }

  /** The timeval never asks for more than the time left; it asks for exactly that if and only if it fits 31 bits. */
  lemma WaitExact(ms: int)
    ensures WaitFor(ms).Timeval? && Micros(WaitFor(ms)) <= 1000 * if ms > 0 then ms else 0
    ensures Micros(WaitFor(ms)) == 1000 * (if ms > 0 then ms else 0) <==> ms < 0x8000_0000
  {
    if ms > 0 {
      var low := Int32(ms);
      assert ms == Quotient(ms) * 1000 + Remainder(ms) && low == Quotient(low) * 1000 + Remainder(low);
      if ms >= 0x8000_0000 { assert low <= ms - 0x1_0000_0000; }
    }
  }

  /** A delay of 2^31 milliseconds, just under 25 days, is turned into a negative number of seconds. */
  lemma WaitExample()
    ensures WaitFor(0x8000_0000) == Timeval(-2147483, 648000)
  {
    assert Int32(0x8000_0000) == -0x8000_0000;
  }

  /** A node of the timer list. The key is the id it was created with; the id becomes DELETED_EVENT_ID. */
  datatype Timer = Timer(key: nat, id: int, due: Time)

  datatype Loop = Loop(timers: seq<Timer>, nextId: nat, lastTime: int)

  /** What a callback or finalizer, or the program between passes, may do to the timers. */
  datatype Action = Create(milliseconds: int, now: Time) | Delete(id: int)

  /** What the surroundings decide at one turn of the pass: clock readings, the callback's actions and its result. */
  datatype Turn = Turn(now: Time, actions: seq<Action>, retval: int, later: Time)

  datatype Visit =
    | Finalised(key: nat, actions: seq<Action>)
    | Called(key: nat, actions: seq<Action>, retval: int, later: Time)
    | Waiting(key: nat)
    | TooNew(key: nat)

  /** Place of the first timer with an id, or the number of timers. */
  function FirstWith(timers: seq<Timer>, id: int): (k: nat)
    ensures k <= |timers| && (k < |timers| ==> timers[k].id == id)
    ensures forall i :: 0 <= i < k ==> timers[i].id != id
  {
    if timers == [] || timers[0].id == id then 0 else 1 + FirstWith(timers[1..], id)
  }

  function MarkAt(timers: seq<Timer>, k: nat): (r: seq<Timer>)
    requires k < |timers|
    ensures |r| == |timers|
  {
    timers[k := timers[k].(id := DELETED_EVENT_ID)]
  }

  function Act(l: Loop, a: Action): (m: Loop)
    ensures |m.timers| - |l.timers| == m.nextId - l.nextId >= 0
  {
    match a
    case Create(milliseconds, now) =>
      Loop([Timer(l.nextId, l.nextId, AddMilliseconds(now, milliseconds))] + l.timers, l.nextId + 1, l.lastTime)
    case Delete(id) =>
      var k := FirstWith(l.timers, id);
      if k < |l.timers| then l.(timers := MarkAt(l.timers, k)) else l
  }

  function ActAll(l: Loop, actions: seq<Action>): (m: Loop)
    ensures |m.timers| - |l.timers| == m.nextId - l.nextId >= 0
    decreases |actions|
  {
    if actions == [] then l else Act(ActAll(l, actions[..|actions| - 1]), actions[|actions| - 1])
  }

  function Settled(t: Timer, retval: int, later: Time): (r: Timer)
    ensures r.key == t.key && (r.id == t.id || r.id == DELETED_EVENT_ID)
  {
    if retval != NOMORE then t.(due := AddMilliseconds(later, retval)) else t.(id := DELETED_EVENT_ID)
  }

  /** The callback's result is taken for the timer with rest timers from it on. */
  function SettledIn(l: Loop, rest: nat, retval: int, later: Time): (m: Loop)
    requires 0 < rest <= |l.timers|
    ensures |m.timers| == |l.timers| && m.nextId == l.nextId
  {
    var q := |l.timers| - rest;
    l.(timers := l.timers[q := Settled(l.timers[q], retval, later)])
  }

  /** One turn of the pass; rest timers, counted from the end of the list, are still to be visited. */
  function Step(l: Loop, rest: nat, maxId: int, turn: Turn): (r: (Loop, Visit))
    requires 0 < rest <= |l.timers|
    ensures rest - 1 <= |r.0.timers|
  {
    var p := |l.timers| - rest;
    var te := l.timers[p];
    if te.id == DELETED_EVENT_ID then
      (ActAll(l.(timers := RemoveAt(l.timers, p)), turn.actions), Finalised(te.key, turn.actions))
    else if te.id > maxId then (l, TooNew(te.key))
    else if Reached(turn.now, te.due) then
      (SettledIn(ActAll(l, turn.actions), rest, turn.retval, turn.later),
       Called(te.key, turn.actions, turn.retval, turn.later))
    else (l, Waiting(te.key))
  }

  function Walk(l: Loop, rest: nat, maxId: int, turns: nat -> Turn, n: nat): (r: (Loop, seq<Visit>))
    requires rest <= |l.timers|
    ensures |r.1| == rest
    decreases rest
  {
    if rest == 0 then (l, []) else
      var (m, v) := Step(l, rest, maxId, turns(n));
      var (end, vs) := Walk(m, rest - 1, maxId, turns, n + 1);
      (end, [v] + vs)
  }

  /** If the clock was set back every timer is made due, whatever its milliseconds. */
  function Unskewed(l: Loop, now: int): (m: Loop)
    ensures |m.timers| == |l.timers| && m.nextId == l.nextId && m.lastTime == now
  {
    var timers := if now < l.lastTime
      then seq(|l.timers|, i requires 0 <= i < |l.timers| => l.timers[i].(due := Time(0, l.timers[i].due.ms)))
      else l.timers;
    Loop(timers, l.nextId, now)
  }

  /** processTimeEvents. */
  function Pass(l: Loop, now: int, turns: nat -> Turn): (r: (Loop, seq<Visit>)) {
    Walk(Unskewed(l, now), |l.timers|, l.nextId - 1, turns, 0)
  }

  // ---- What holds of every reachable list of timers.

  /** Keys are unique and were all handed out; an id is the key or the deletion mark. */
  ghost predicate Inv(l: Loop) {
    && (forall i :: 0 <= i < |l.timers| ==> l.timers[i].key < l.nextId)
    && (forall i :: 0 <= i < |l.timers| ==> l.timers[i].id == l.timers[i].key || l.timers[i].id == DELETED_EVENT_ID)
    && (forall i, j :: 0 <= i < j < |l.timers| ==> l.timers[i].key != l.timers[j].key)
  }

  predicate Deletes(actions: seq<Action>, key: nat) {
    exists i :: 0 <= i < |actions| && actions[i] == Delete(key)
  }

  function Marked(t: Timer, actions: seq<Action>): (r: Timer)
    ensures r.key == t.key && r.due == t.due && (r.id == t.id || r.id == DELETED_EVENT_ID)
  {
    if Deletes(actions, t.key) then t.(id := DELETED_EVENT_ID) else t
  }

  /** m has l's timers, marked by the actions, behind new ones whose keys count down. */
  ghost predicate Follows(l: Loop, actions: seq<Action>, m: Loop) {
    var n := m.nextId - l.nextId;
    && n == |m.timers| - |l.timers| >= 0 && m.lastTime == l.lastTime
    && (forall i :: 0 <= i < n ==> m.timers[i].key == m.nextId - 1 - i)
    && (forall i :: n <= i < |m.timers| ==> m.timers[i] == Marked(l.timers[i - n], actions))
  }

  lemma CreateFollows(l: Loop, a: Action)
    requires Inv(l) && a.Create?
    ensures Inv(Act(l, a)) && Follows(l, [a], Act(l, a))
  {
    hide AddMilliseconds;
    assert forall k :: !Deletes([a], k);
    assert Act(l, a).timers[1..] == l.timers;
  }

  lemma DeleteMarks(l: Loop, id: int, i: nat)
    requires Inv(l) && i < |l.timers|
    ensures var k := FirstWith(l.timers, id);
      Marked(l.timers[i], [Delete(id)]) == if k == i then l.timers[i].(id := DELETED_EVENT_ID) else l.timers[i]
  {
    assert Deletes([Delete(id)], l.timers[i].key) <==>
      l.timers[i].key == id by { assert [Delete(id)][0] == Delete(id); }
  }

  lemma UpdateKeepsInv(l: Loop, k: nat, t: Timer)
    requires Inv(l) && k < |l.timers| && t.key == l.timers[k].key
      && (t.id == l.timers[k].id || t.id == DELETED_EVENT_ID)
    ensures Inv(l.(timers := l.timers[k := t]))
  {
    var timers := l.timers[k := t];
    assert forall i :: 0 <= i < |timers| ==> timers[i].key == l.timers[i].key;
  }

  lemma RemoveKeepsInv(l: Loop, k: nat)
    requires Inv(l) && k < |l.timers|
    ensures Inv(l.(timers := RemoveAt(l.timers, k)))
  {
    var timers := RemoveAt(l.timers, k);
    assert forall i :: 0 <= i < |timers| ==> timers[i] == l.timers[if i < k then i else i + 1];
  }

  lemma FollowsInPlace(l: Loop, actions: seq<Action>, m: Loop)
    requires m.nextId == l.nextId && m.lastTime == l.lastTime && |m.timers| == |l.timers|
    requires forall i :: 0 <= i < |l.timers| ==> m.timers[i] == Marked(l.timers[i], actions)
    ensures Follows(l, actions, m)
  {
    hide Marked;
  }

  lemma DeleteFollows(l: Loop, id: int)
    requires Inv(l)
    ensures Inv(Act(l, Delete(id))) && Follows(l, [Delete(id)], Act(l, Delete(id)))
  {
    hide FirstWith, Marked, Inv, Follows;
    var m := Act(l, Delete(id));
    var k := FirstWith(l.timers, id);
    if k < |l.timers| {
      UpdateKeepsInv(l, k, l.timers[k].(id := DELETED_EVENT_ID));
    }
    forall i | 0 <= i < |l.timers| ensures m.timers[i] == Marked(l.timers[i], [Delete(id)]) {
      DeleteMarks(l, id, i);
    }
    FollowsInPlace(l, [Delete(id)], m);
  }

  lemma ActFollows(l: Loop, a: Action)
    requires Inv(l)
    ensures Inv(Act(l, a)) && Follows(l, [a], Act(l, a))
  {
    hide *;
    match a {
      case Create(_, _) => CreateFollows(l, a);
      case Delete(id) => DeleteFollows(l, id);
    }
  }

  lemma {:induction false} ActAllFollows(l: Loop, actions: seq<Action>)
    requires Inv(l)
    ensures Inv(ActAll(l, actions)) && Follows(l, actions, ActAll(l, actions))
    decreases |actions|
  {
    if actions != [] {
      var n := |actions| - 1;
      var m := ActAll(l, actions[..n]);
      ActAllFollows(l, actions[..n]);
      ActFollows(m, actions[n]);
      FollowsTwice(l, actions[..n], m, actions[n], Act(m, actions[n]));
      assert actions == actions[..n] + [actions[n]];
    }
  }

  lemma DeletesSplit(before: seq<Action>, after: seq<Action>, key: nat)
    ensures Deletes(before + after, key) <==> Deletes(before, key) || Deletes(after, key)
  {
    var all := before + after;
    if Deletes(all, key) {
      var i :| 0 <= i < |all| && all[i] == Delete(key);
      if i >= |before| { assert after[i - |before|] == Delete(key); } else { assert before[i] == Delete(key); }
    }
    if Deletes(before, key) {
      var i :| 0 <= i < |before| && before[i] == Delete(key);
      assert all[i] == Delete(key);
    }
    if Deletes(after, key) {
      var i :| 0 <= i < |after| && after[i] == Delete(key);
      assert all[|before| + i] == Delete(key);
    }
  }

  lemma FollowsTwice(l: Loop, before: seq<Action>, m: Loop, a: Action, r: Loop)
    requires Follows(l, before, m) && Follows(m, [a], r)
    ensures Follows(l, before + [a], r)
  {
    hide Deletes;
    var n := r.nextId - l.nextId;
    forall i | n <= i < |r.timers| ensures r.timers[i] == Marked(l.timers[i - n], before + [a]) {
      DeletesSplit(before, [a], l.timers[i - n].key);
      assert r.timers[i] == Marked(m.timers[i - (r.nextId - m.nextId)], [a]);
    }
  }

  // ---- One turn.

  function ActionsOf(v: Visit): seq<Action> {
    match v
    case Finalised(_, actions) => actions
    case Called(_, actions, _, _) => actions
    case _ => []
  }

  /** The timers still to be visited are old enough. */
  ghost predicate Ready(l: Loop, rest: nat, maxId: int) {
    && Inv(l) && rest <= |l.timers|
    && forall i :: |l.timers| - rest <= i < |l.timers| ==> l.timers[i].key <= maxId
  }

  /** How a timer's state at its turn decides what happens to it. */
  predicate Fits(v: Visit, t: Timer, turn: Turn) {
    && v.key == t.key && !v.TooNew?
    && (v.Finalised? <==> t.id == DELETED_EVENT_ID)
    && (v.Called? <==> t.id != DELETED_EVENT_ID && Reached(turn.now, t.due))
    && (v.Called? ==> v.retval == turn.retval && v.later == turn.later)
    && ActionsOf(v) == if v.Waiting? then [] else turn.actions
  }

  /** The list after a turn: new timers, the visited part, what became of the timer itself, and the rest, all marked. */
  ghost predicate Stepped(l: Loop, rest: nat, v: Visit, m: Loop)
    requires 0 < rest <= |l.timers|
  {
    var p, n, gone := |l.timers| - rest, m.nextId - l.nextId, if v.Finalised? then 1 else 0;
    && n >= 0 && |m.timers| == |l.timers| + n - gone && m.lastTime == l.lastTime
    && (forall i :: 0 <= i < n ==> m.timers[i].key == m.nextId - 1 - i)
    && (forall i :: 0 <= i < p ==> m.timers[n + i] == Marked(l.timers[i], ActionsOf(v)))
    && (forall i :: p < i < |l.timers| ==> m.timers[n + i - gone] == Marked(l.timers[i], ActionsOf(v)))
    && m.timers[n + p..][..1 - gone] == match v
      case Finalised(_, _) => []
      case Called(_, actions, retval, later) => [Settled(Marked(l.timers[p], actions), retval, later)]
      case _ => [l.timers[p]]
  }

  lemma FinalisedStep(l: Loop, rest: nat, maxId: int, turn: Turn)
    requires Ready(l, rest, maxId) && rest > 0 && l.timers[|l.timers| - rest].id == DELETED_EVENT_ID
    ensures var (m, v) := Step(l, rest, maxId, turn); Inv(m) && Stepped(l, rest, v, m)
  {
    hide Marked, ActAll, Inv, Follows, Stepped, RemoveAt;
    var left := l.(timers := RemoveAt(l.timers, |l.timers| - rest));
    RemoveKeepsInv(l, |l.timers| - rest);
    ActAllFollows(left, turn.actions);
    FinalisedStepped(l, rest, turn.actions, ActAll(left, turn.actions));
  }

  lemma FinalisedStepped(l: Loop, rest: nat, actions: seq<Action>, m: Loop)
    requires 0 < rest <= |l.timers| && Follows(l.(timers := RemoveAt(l.timers, |l.timers| - rest)), actions, m)
    ensures Stepped(l, rest, Finalised(l.timers[|l.timers| - rest].key, actions), m)
  {
    hide Marked;
  }

  lemma CalledStep(l: Loop, rest: nat, maxId: int, turn: Turn)
    requires Ready(l, rest, maxId) && rest > 0 && l.timers[|l.timers| - rest].id != DELETED_EVENT_ID
    requires Reached(turn.now, l.timers[|l.timers| - rest].due) && l.timers[|l.timers| - rest].id <= maxId
    ensures var (m, v) := Step(l, rest, maxId, turn); Inv(m) && Stepped(l, rest, v, m)
  {
    hide Marked, ActAll, Settled, Inv, Follows, Stepped;
    ActAllFollows(l, turn.actions);
    var m := ActAll(l, turn.actions);
    var q := |m.timers| - rest;
    UpdateKeepsInv(m, q, Settled(m.timers[q], turn.retval, turn.later));
    CalledStepped(l, rest, turn, m);
  }

  lemma CalledStepped(l: Loop, rest: nat, turn: Turn, m: Loop)
    requires 0 < rest <= |l.timers| && Follows(l, turn.actions, m)
    ensures var p := |l.timers| - rest;
      Stepped(l, rest, Called(l.timers[p].key, turn.actions, turn.retval, turn.later),
              SettledIn(m, rest, turn.retval, turn.later))
  {
    hide Marked, Settled;
  }

  lemma StepCorrect(l: Loop, rest: nat, maxId: int, turn: Turn)
    requires Ready(l, rest, maxId) && rest > 0
    ensures var (m, v) := Step(l, rest, maxId, turn);
      && Inv(m) && Stepped(l, rest, v, m) && Fits(v, l.timers[|l.timers| - rest], turn)
  {
    hide ActAll, AddMilliseconds, Reached;
    var te := l.timers[|l.timers| - rest];
    if te.id == DELETED_EVENT_ID {
      FinalisedStep(l, rest, maxId, turn);
    } else if Reached(turn.now, te.due) {
      assert te.id <= maxId;
      CalledStep(l, rest, maxId, turn);
    } else {
      assert forall k :: !Deletes([], k);
    }
  }

  // ---- One pass.

  predicate DeletedBy(vs: seq<Visit>, key: nat) {
    exists j :: 0 <= j < |vs| && Deletes(ActionsOf(vs[j]), key)
  }

  lemma DeletedByFront(v: Visit, vs: seq<Visit>, key: nat)
    ensures DeletedBy([v] + vs, key) <==> Deletes(ActionsOf(v), key) || DeletedBy(vs, key)
  {
    hide Deletes, ActionsOf;
    var all := [v] + vs;
    if DeletedBy(all, key) {
      var j :| 0 <= j < |all| && Deletes(ActionsOf(all[j]), key);
      if j > 0 { assert vs[j - 1] == all[j]; }
    }
    if Deletes(ActionsOf(v), key) { assert all[0] == v; }
    if DeletedBy(vs, key) {
      var j :| 0 <= j < |vs| && Deletes(ActionsOf(vs[j]), key);
      assert all[j + 1] == vs[j];
    }
  }

  /** Timer t as the visits vs, made since t was looked at, have left it. */
  function Since(t: Timer, vs: seq<Visit>): (r: Timer)
    ensures r.key == t.key && r.due == t.due
  {
    if DeletedBy(vs, t.key) then t.(id := DELETED_EVENT_ID) else t
  }

  lemma SinceFront(t: Timer, v: Visit, vs: seq<Visit>)
    ensures Since(t, [v] + vs) == Since(Marked(t, ActionsOf(v)), vs)
  {
    hide Deletes, ActionsOf, DeletedBy;
    DeletedByFront(v, vs, t.key);
  }

  lemma StepReady(l: Loop, rest: nat, maxId: int, turn: Turn)
    requires Ready(l, rest, maxId) && rest > 0
    ensures var m := Step(l, rest, maxId, turn).0; Ready(m, rest - 1, maxId) && m.lastTime == l.lastTime
    ensures var (m, v) := Step(l, rest, maxId, turn);
      forall i :: |l.timers| - rest < i < |l.timers| ==>
        m.timers[|m.timers| - |l.timers| + i] == Marked(l.timers[i], ActionsOf(v))
  {
    hide Step, Fits, Inv, Deletes, ActionsOf;
    StepCorrect(l, rest, maxId, turn);
    var (m, v) := Step(l, rest, maxId, turn);
    var shift := |m.timers| - |l.timers|;
    forall i | |m.timers| - (rest - 1) <= i < |m.timers| ensures m.timers[i].key <= maxId {
      assert m.timers[i] == Marked(l.timers[i - shift], ActionsOf(v));
    }
  }

  lemma {:induction false} WalkKeeps(l: Loop, rest: nat, maxId: int, turns: nat -> Turn, n: nat)
    requires Ready(l, rest, maxId)
    ensures Inv(Walk(l, rest, maxId, turns, n).0) && Walk(l, rest, maxId, turns, n).0.lastTime == l.lastTime
    decreases rest
  {
    hide Step, Inv;
    if rest > 0 {
      StepReady(l, rest, maxId, turns(n));
      WalkKeeps(Step(l, rest, maxId, turns(n)).0, rest - 1, maxId, turns, n + 1);
    }
  }

  /**
   * Every timer in the list when the walk begins is visited exactly once, in list order, and nothing else is. At its
   * turn it is exactly as at the beginning, except that a callback or finalizer before it may have deleted it.
   */
  lemma {:induction false} WalkVisits(l: Loop, rest: nat, maxId: int, turns: nat -> Turn, n: nat, i: nat)
    requires Ready(l, rest, maxId) && i < rest
    ensures var vs := Walk(l, rest, maxId, turns, n).1;
      Fits(vs[i], Since(l.timers[|l.timers| - rest + i], vs[..i]), turns(n + i))
    decreases rest
  {
    hide Step, Inv, Fits, Since, Deletes, ActionsOf, Marked;
    var t := l.timers[|l.timers| - rest + i];
    var (m, v) := Step(l, rest, maxId, turns(n));
    var vs := Walk(l, rest, maxId, turns, n).1;
    if i == 0 {
      StepCorrect(l, rest, maxId, turns(n));
      assert vs[..i] == [];
      assert Since(t, []) == t by { SinceNone(t); }
    } else {
      StepReady(l, rest, maxId, turns(n));
      WalkVisits(m, rest - 1, maxId, turns, n + 1, i - 1);
      var ws := Walk(m, rest - 1, maxId, turns, n + 1).1;
      assert vs[..i] == [v] + ws[..i - 1];
      SinceFront(t, v, ws[..i - 1]);
      assert m.timers[|m.timers| - (rest - 1) + (i - 1)] == Marked(t, ActionsOf(v));
    }
  }

  lemma SinceNone(t: Timer)
    ensures Since(t, []) == t
  {
  }

  // ---- What the pass leaves behind: which timers, in which order.

  function Keys(timers: seq<Timer>): (r: seq<nat>)
    ensures |r| == |timers|
  {
    seq(|timers|, i requires 0 <= i < |timers| => timers[i].key)
  }

  /** The keys from high - 1 down to low. */
  function Down(low: nat, high: nat): (r: seq<nat>)
    requires low <= high
  {
    seq(high - low, i requires 0 <= i < high - low => high - 1 - i)
  }

  function Survivors(vs: seq<Visit>): (r: seq<nat>) {
    if vs == [] then [] else (if vs[0].Finalised? then [] else [vs[0].key]) + Survivors(vs[1..])
  }

  function Finals(vs: seq<Visit>): (r: seq<nat>) {
    if vs == [] then [] else (if vs[0].Finalised? then [vs[0].key] else []) + Finals(vs[1..])
  }

  lemma StepOrder(l: Loop, rest: nat, maxId: int, turn: Turn)
    requires Ready(l, rest, maxId) && rest > 0
    ensures var (m, v) := Step(l, rest, maxId, turn);
      && m.nextId >= l.nextId && rest - 1 <= |m.timers|
      && Keys(m.timers[..|m.timers| - (rest - 1)])
         == Down(l.nextId, m.nextId) + Keys(l.timers[..|l.timers| - rest]) + if v.Finalised? then [] else [v.key]
  {
    hide Step, Inv, Stepped, Keys, Down;
    StepCorrect(l, rest, maxId, turn);
    var (m, v) := Step(l, rest, maxId, turn);
    SteppedOrder(l, rest, v, m);
  }

  lemma SteppedOrder(l: Loop, rest: nat, v: Visit, m: Loop)
    requires 0 < rest <= |l.timers| && Stepped(l, rest, v, m) && v.key == l.timers[|l.timers| - rest].key
    ensures m.nextId >= l.nextId && rest - 1 <= |m.timers|
    ensures Keys(m.timers[..|m.timers| - (rest - 1)])
      == Down(l.nextId, m.nextId) + Keys(l.timers[..|l.timers| - rest]) + if v.Finalised? then [] else [v.key]
  {
    hide Marked, ActionsOf, Settled;
    var p, n := |l.timers| - rest, m.nextId - l.nextId;
    var left := Keys(m.timers[..|m.timers| - (rest - 1)]);
    assert left[..n] == Down(l.nextId, m.nextId);
    forall i | 0 <= i < p ensures left[n + i] == l.timers[i].key {
      assert m.timers[n + i] == Marked(l.timers[i], ActionsOf(v));
    }
    assert left[n..n + p] == Keys(l.timers[..p]);
    if !v.Finalised? { assert m.timers[n + p..][..1][0] == m.timers[n + p]; }
    assert left[n + p..] == if v.Finalised? then [] else [v.key];
    assert left == left[..n] + left[n..n + p] + left[n + p..];
  }

  /** The list after the walk: new timers in front, then the old ones in their old order without the finalised. */
  lemma {:induction false} WalkOrder(l: Loop, rest: nat, maxId: int, turns: nat -> Turn, n: nat)
    requires Ready(l, rest, maxId)
    ensures var (end, vs) := Walk(l, rest, maxId, turns, n);
      end.nextId >= l.nextId
      && Keys(end.timers) == Down(l.nextId, end.nextId) + Keys(l.timers[..|l.timers| - rest]) + Survivors(vs)
    decreases rest
  {
    hide Step, Inv, Keys, Down;
    if rest == 0 {
      assert l.timers[..|l.timers|] == l.timers && Down(l.nextId, l.nextId) == [] by { DownEmpty(l.nextId); }
    } else {
      var (m, v) := Step(l, rest, maxId, turns(n));
      StepReady(l, rest, maxId, turns(n));
      StepOrder(l, rest, maxId, turns(n));
      WalkOrder(m, rest - 1, maxId, turns, n + 1);
      var (end, ws) := Walk(m, rest - 1, maxId, turns, n + 1);
      DownSplit(l.nextId, m.nextId, end.nextId);
      assert ([v] + ws)[1..] == ws;
      var gone := if v.Finalised? then [] else [v.key];
      var later, sooner := Down(m.nextId, end.nextId), Down(l.nextId, m.nextId);
      var front := Keys(l.timers[..|l.timers| - rest]);
      assert later + (sooner + front + gone) + Survivors(ws) == (later + sooner) + front + (gone + Survivors(ws));
    }
  }

  lemma DownEmpty(n: nat)
    ensures Down(n, n) == []
  {
  }

  lemma DownSplit(a: nat, b: nat, c: nat)
    requires a <= b <= c
    ensures Down(b, c) + Down(a, b) == Down(a, c)
  {
    var whole, parts := Down(a, c), Down(b, c) + Down(a, b);
    assert |whole| == |parts| && forall i :: 0 <= i < |whole| ==> whole[i] == parts[i];
  }
}
