/** The scheduler of src/sched.c as steps on the running task and the sleep list, and what holds over
    all runs of it. */
module SchedSpec {

  const MAIN: nat := 1

  /** `wake` holds every task's wake time; `live` are the tasks that have not finished. */
  datatype State = State(current: nat, list: seq<nat>, wake: seq<nat>, live: set<nat>)

  // ----- The sleep list ------------------------------------------------------------------------

  ghost predicate InRange(list: seq<nat>, wake: seq<nat>)
  {
    forall i :: 0 <= i < |list| ==> list[i] < |wake|
  }

  ghost predicate Sorted(list: seq<nat>, wake: seq<nat>)
    requires InRange(list, wake)
  {
    forall i, j :: 0 <= i < j < |list| ==> wake[list[i]] <= wake[list[j]]
  }

  ghost predicate Distinct(list: seq<nat>)
  {
    forall i, j :: 0 <= i < j < |list| ==> list[i] != list[j]
  }

  /** The place for wake time `w`: before the first task that wakes strictly later. */
  ghost function Place(list: seq<nat>, wake: seq<nat>, w: nat): (k: nat)
    requires InRange(list, wake)
    ensures k <= |list|
    ensures forall i :: 0 <= i < k ==> wake[list[i]] <= w
    ensures k < |list| ==> wake[list[k]] > w
  {
    if list == [] || wake[list[0]] > w then 0 else 1 + Place(list[1..], wake, w)
  }

  ghost function Put(list: seq<nat>, wake: seq<nat>, x: nat): (r: seq<nat>)
    requires InRange(list, wake) && x < |wake|
    ensures |r| == |list| + 1
  {
    var k := Place(list, wake, wake[x]);
    list[..k] + [x] + list[k..]
  }

  lemma {:induction false} PlaceIs(list: seq<nat>, wake: seq<nat>, w: nat, k: nat)
    requires InRange(list, wake) && k <= |list|
    requires forall i :: 0 <= i < k ==> wake[list[i]] <= w
    requires k < |list| ==> wake[list[k]] > w
    ensures Place(list, wake, w) == k
  {
    if k > 0 {
      assert list[0] == list[0..][0];
      PlaceIs(list[1..], wake, w, k - 1);
    }
  }

  /** Putting a task keeps the list sorted, without repetition, and the others in their order; with
      equal wake times, whoever came first stays first. */
  lemma PutKeeps(list: seq<nat>, wake: seq<nat>, x: nat)
    requires InRange(list, wake) && Sorted(list, wake) && Distinct(list) && x < |wake| && x !in list
    ensures var r := Put(list, wake, x);
            && InRange(r, wake) && Sorted(r, wake) && Distinct(r)
            && (forall y :: y in r <==> y == x || y in list)
    ensures forall i :: 0 <= i < |list| ==>
              Put(list, wake, x)[if wake[list[i]] <= wake[x] then i else i + 1] == list[i]
  {
    var k := Place(list, wake, wake[x]);
    var r := Put(list, wake, x);
    PutShape(list, wake, x);
    PutMembers(list, k, x);
    hide Place, Put, Sorted, Distinct;
    PutOrder(list, wake, x, k, r);
  }

  lemma PutOrder(list: seq<nat>, wake: seq<nat>, x: nat, k: nat, r: seq<nat>)
    requires InRange(list, wake) && Sorted(list, wake) && Distinct(list) && x < |wake| && x !in list
    requires k <= |list| && forall m :: 0 <= m < |list| ==> (wake[list[m]] <= wake[x] <==> m < k)
    requires |r| == |list| + 1
    requires forall j {:trigger r[j]} :: 0 <= j < |r| ==>
               r[j] == if j < k then list[j] else if j == k then x else list[j - 1]
    ensures InRange(r, wake) && Sorted(r, wake) && Distinct(r)
  {
    forall j | 0 <= j < |r|
      ensures r[j] < |wake|
    {
      assert r[j] == if j < k then list[j] else if j == k then x else list[j - 1];
    }
    forall i, j | 0 <= i < j < |r|
      ensures wake[r[i]] <= wake[r[j]] && r[i] != r[j]
    {
      assert r[i] == if i < k then list[i] else if i == k then x else list[i - 1];
      assert r[j] == if j < k then list[j] else if j == k then x else list[j - 1];
      OldPlaces(list, wake, x, k, i, j);
    }
  }

  lemma PutShape(list: seq<nat>, wake: seq<nat>, x: nat)
    requires InRange(list, wake) && Sorted(list, wake) && x < |wake|
    ensures var k, r := Place(list, wake, wake[x]), Put(list, wake, x);
            && r == list[..k] + [x] + list[k..]
            && (forall i :: 0 <= i < |list| ==> (wake[list[i]] <= wake[x] <==> i < k))
            && (forall j :: 0 <= j < |r| ==> r[j] == if j < k then list[j] else if j == k then x else list[j - 1])
  {
    var k := Place(list, wake, wake[x]);
    forall i | k <= i < |list|
      ensures wake[list[i]] > wake[x]
    {
      assert wake[list[k]] <= wake[list[i]];
    }
  }

  lemma PutMembers(list: seq<nat>, k: nat, x: nat)
    requires k <= |list|
    ensures forall y :: y in list[..k] + [x] + list[k..] <==> y == x || y in list
  {
    assert list == list[..k] + list[k..];
  }

  lemma OldPlaces(list: seq<nat>, wake: seq<nat>, x: nat, k: nat, i: nat, j: nat)
    requires InRange(list, wake) && Sorted(list, wake) && Distinct(list) && x < |wake| && x !in list
    requires k <= |list| && i < j <= |list|
    requires forall m :: 0 <= m < |list| ==> (wake[list[m]] <= wake[x] <==> m < k)
    ensures var y := if i < k then list[i] else if i == k then x else list[i - 1];
            var z := if j < k then list[j] else if j == k then x else list[j - 1];
            wake[y] <= wake[z] && y != z
  {
    var i0, j0 := if i < k then i else i - 1, if j < k then j else j - 1;
    if i != k && j != k {
      assert wake[list[i0]] <= wake[list[j0]] && list[i0] != list[j0];
    } else if i == k {
      assert list[j0] != x && !(wake[list[j0]] <= wake[x]);
    } else {
      assert list[i0] != x && wake[list[i0]] <= wake[x];
    }
  }

  // ----- Steps ---------------------------------------------------------------------------------

  datatype Event = Sleep(start: nat, duration: nat) | Finish | Create(task: nat)

  /** Every live task but the running one is in the list, once, in the order of wake times; the main
      task is alive. */
  ghost predicate Inv(s: State)
  {
    && InRange(s.list, s.wake) && s.current < |s.wake|
    && Sorted(s.list, s.wake) && Distinct(s.list)
    && (forall x :: x in s.list <==> x in s.live && x != s.current)
    && s.current in s.live && MAIN in s.live && 0 !in s.live
  }

  /** What callers observe: the main task does not finish, and memory that the allocator hands out
      is not in use. */
  ghost predicate Allowed(s: State, e: Event)
  {
    match e
    case Sleep(_, _) => true
    case Finish => s.current != MAIN
    case Create(t) => t !in s.live && 0 < t < |s.wake|
  }

  /** Run the first task of the list. */
  ghost function RunFirst(s: State, list: seq<nat>): State
    requires list != []
  {
    s.(current := list[0], list := list[1..])
  }

  lemma SomeoneReady(s: State)
    requires Inv(s) && s.current != MAIN
    ensures s.list != []
  {
    assert MAIN in s.list;
  }

  ghost function Step(s: State, e: Event): State
    requires Inv(s) && Allowed(s, e)
  {
    match e
    case Sleep(start, duration) =>
      var wake := s.wake[s.current := start + duration];
      RunFirst(s.(wake := wake), Put(s.list, wake, s.current))
    case Finish =>
      SomeoneReady(s);
      RunFirst(s, s.list).(live := s.live - {s.current})
    case Create(t) =>
      var wake := s.wake[t := 0];
      s.(wake := wake, list := Put(s.list, wake, t), live := s.live + {t})
  }

  lemma WakeElsewhere(list: seq<nat>, wake: seq<nat>, x: nat, w: nat)
    requires InRange(list, wake) && Sorted(list, wake) && x < |wake| && x !in list
    ensures InRange(list, wake[x := w]) && Sorted(list, wake[x := w])
    ensures forall i :: 0 <= i < |list| ==> wake[x := w][list[i]] == wake[list[i]]
  {
  }

  lemma RunFirstKeeps(s: State, list: seq<nat>, live: set<nat>)
    requires InRange(list, s.wake) && Sorted(list, s.wake) && Distinct(list) && list != []
    requires (forall x :: x in list <==> x in live) && MAIN in live && 0 !in live
    ensures Inv(RunFirst(s, list).(live := live))
  {
    assert list[0] in list;
    assert forall i :: 0 <= i < |list| - 1 ==> list[1..][i] == list[i + 1];
    forall x
      ensures x in list[1..] <==> x in live && x != list[0]
    {
      if x in list && x != list[0] {
        var i :| 0 < i < |list| && list[i] == x;
        assert list[1..][i - 1] == x;
      }
    }
  }

  /** Every step keeps the invariant; so the list that is polled is never empty. */
  lemma StepKeeps(s: State, e: Event)
    requires Inv(s) && Allowed(s, e)
    ensures Inv(Step(s, e))
  {
    hide Put, Sorted, Distinct;
    match e
    case Sleep(start, duration) =>
      var wake := s.wake[s.current := start + duration];
      WakeElsewhere(s.list, s.wake, s.current, start + duration);
      PutKeeps(s.list, wake, s.current);
      RunFirstKeeps(s.(wake := wake), Put(s.list, wake, s.current), s.live);
    case Finish =>
      SomeoneReady(s);
      RunFirstKeeps(s, s.list, s.live - {s.current});
    case Create(t) =>
      var wake := s.wake[t := 0];
      WakeElsewhere(s.list, s.wake, t, 0);
      PutKeeps(s.list, wake, t);
  }

  /** Whoever sleeps or finishes hands over to a task that wakes no later than anyone who goes on waiting. */
  lemma EarliestRuns(s: State, e: Event)
    requires Inv(s) && Allowed(s, e)
    ensures var t := Step(s, e);
            && InRange(t.list, t.wake) && t.current < |t.wake|
            && (e.Create? ==> t.current == s.current)
            && (!e.Create? ==> forall x :: x in t.list ==> t.wake[t.current] <= t.wake[x])
  {
    hide Put, Distinct, Sorted;
    StepKeeps(s, e);
    match e
    case Sleep(start, duration) =>
      var wake := s.wake[s.current := start + duration];
      WakeElsewhere(s.list, s.wake, s.current, start + duration);
      PutKeeps(s.list, wake, s.current);
      FirstIsEarliest(Put(s.list, wake, s.current), wake);
    case Finish =>
      SomeoneReady(s);
      FirstIsEarliest(s.list, s.wake);
    case Create(_) =>
  }

  lemma FirstIsEarliest(list: seq<nat>, wake: seq<nat>)
    requires InRange(list, wake) && Sorted(list, wake) && list != []
    ensures forall x :: x in list[1..] ==> x < |wake| && wake[list[0]] <= wake[x]
  {
    forall x | x in list[1..]
      ensures x < |wake| && wake[list[0]] <= wake[x]
    {
      var i :| 0 <= i < |list| - 1 && list[1..][i] == x;
      assert list[i + 1] == x;
    }
  }

  /** Sleeping sets the wake time of the running task alone, creating that of the new task; only finishing ends
      a task, and only creating starts one. */
  lemma StepChanges(s: State, e: Event, x: nat)
    requires Inv(s) && Allowed(s, e)
    ensures var t := Step(s, e);
            && (x in t.live <==> (x in s.live && !(e.Finish? && x == s.current)) || (e.Create? && x == e.task))
            && |t.wake| == |s.wake|
            && (x < |s.wake| ==>
                  t.wake[x] ==
                    if e.Sleep? && x == s.current then e.start + e.duration
                    else if e.Create? && x == e.task then 0
                    else s.wake[x])
  {
    hide Put, Sorted, Distinct, InRange;
  }

  // ----- Runs ----------------------------------------------------------------------------------

  /** The state after `sched_init`, with room for tasks up to number `n`. */
  ghost function Start(n: nat): (s: State)
    requires n > MAIN
    ensures Inv(s)
  {
    State(MAIN, [], seq(n, _ => 0), {MAIN})
  }

  /** `run` holds the states that `events` lead through from `start` on, each event being allowed when
      its turn comes. */
  ghost predicate Run(start: State, run: seq<State>, events: seq<Event>): (r: bool)
    requires Inv(start)
    ensures r ==> |run| == |events| + 1 && Inv(run[|events|])
  {
    if events == [] then run == [start]
    else
      var n := |events| - 1;
      && |run| == n + 2 && Run(start, run[..n + 1], events[..n])
      && Allowed(run[n], events[n])
      && (StepKeeps(run[n], events[n]); run[n + 1] == Step(run[n], events[n]))
  }

  ghost predicate Follows(s: State, e: Event, s': State)
  {
    Inv(s) && Allowed(s, e) && s' == Step(s, e)
  }

  lemma {:induction false} RunFollows(start: State, run: seq<State>, events: seq<Event>, i: nat)
    requires Inv(start) && Run(start, run, events) && i < |events|
    ensures Follows(run[i], events[i], run[i + 1])
  {
    hide Inv, Allowed, Step;
    var n := |events| - 1;
    if i < n {
      RunFollows(start, run[..n + 1], events[..n], i);
    }
  }

  lemma {:induction false} RunStarts(start: State, run: seq<State>, events: seq<Event>)
    requires Inv(start) && Run(start, run, events)
    ensures |run| == |events| + 1 && run[0] == start
  {
    if events != [] {
      RunStarts(start, run[..|events|], events[..|events| - 1]);
    }
  }

  lemma RunOn(start: State, run: seq<State>, events: seq<Event>, e: Event)
    requires Inv(start) && Run(start, run, events) && Allowed(run[|events|], e)
    ensures Run(start, run + [Step(run[|events|], e)], events + [e])
  {
    var run', events' := run + [Step(run[|events|], e)], events + [e];
    assert run'[..|events| + 1] == run && events'[..|events|] == events;
  }

  /** In every reachable state the invariant holds, and whoever finishes finds another task to run. */
  lemma RunsAreSafe(tasks: nat, run: seq<State>, events: seq<Event>, i: nat)
    requires tasks > MAIN && Run(Start(tasks), run, events) && i <= |events|
    ensures Inv(run[i])
    ensures i < |events| && events[i].Finish? ==> run[i].list != []
  {
    if i < |events| {
      RunFollows(Start(tasks), run, events, i);
      if events[i].Finish? {
        SomeoneReady(run[i]);
      }
    }
  }

  // ----- Bounded waiting -----------------------------------------------------------------------

  ghost function Switches(events: seq<Event>): nat
  {
    if events == [] then 0 else Switches(events[..|events| - 1]) + if events[|events| - 1].Create? then 0 else 1
  }

  ghost function Creations(events: seq<Event>): nat
  {
    if events == [] then 0 else Creations(events[..|events| - 1]) + if events[|events| - 1].Create? then 1 else 0
  }

  /** Task `x` waits behind at most `ahead` others. */
  ghost predicate WaitsBehind(s: State, x: nat, ahead: int)
  {
    exists p :: 0 <= p < |s.list| && p <= ahead && s.list[p] == x
  }

  lemma WaitsBehindPut(s: State, wake: seq<nat>, y: nat, x: nat, p: nat)
    requires Inv(s) && p < |s.list| && s.list[p] == x && y < |wake| && y !in s.list
    requires |wake| == |s.wake| && Sorted(s.list, wake) && InRange(s.list, wake)
    ensures var r := Put(s.list, wake, y);
            r[if wake[x] <= wake[y] then p else p + 1] == x
  {
    PutKeeps(s.list, wake, y);
  }

  /** One step of a waiting task whose time has come: a switch brings it forward by one, or runs it. */
  lemma OneStepCloser(s: State, e: Event, x: nat, ahead: nat, now: nat)
    requires Inv(s) && Allowed(s, e) && x != s.current && WaitsBehind(s, x, ahead) && x < |s.wake|
    requires s.wake[x] <= now && (e.Sleep? ==> now <= e.start)
    ensures var s' := Step(s, e);
            && x < |s'.wake| && s'.wake[x] == s.wake[x]
            && (e.Create? ==> WaitsBehind(s', x, ahead + 1) && s'.current != x)
            && (!e.Create? ==> s'.current == x || WaitsBehind(s', x, ahead - 1))
  {
    hide Put, Sorted, Distinct;
    var s' := Step(s, e);
    var p: nat :| p < |s.list| && p <= ahead && s.list[p] == x;
    match e
    case Sleep(start, duration) =>
      var wake := s.wake[s.current := start + duration];
      WakeElsewhere(s.list, s.wake, s.current, start + duration);
      WaitsBehindPut(s, wake, s.current, x, p);
      if p > 0 {
        assert s'.list[p - 1] == x;
      }
    case Finish =>
      SomeoneReady(s);
      if p > 0 {
        assert s'.list[p - 1] == x;
      }
    case Create(t) =>
      var wake := s.wake[t := 0];
      WakeElsewhere(s.list, s.wake, t, 0);
      WaitsBehindPut(s, wake, t, x, p);
      assert s'.list[if wake[x] <= 0 then p else p + 1] == x;
  }

  /** Task `x`, whose time has come by `now`, waits behind at most `ahead` others. */
  ghost predicate Waits(s: State, x: nat, ahead: int, now: nat)
  {
    x < |s.wake| && s.wake[x] <= now && x != s.current && WaitsBehind(s, x, ahead)
  }

  ghost predicate Runs(run: seq<State>, x: nat)
  {
    exists i :: 0 < i < |run| && run[i].current == x
  }

  /** How an event changes the number of tasks ahead. */
  function Change(e: Event): int { if e.Create? then 1 else -1 }

  lemma Closer(s: State, e: Event, s': State, x: nat, ahead: int, now: nat)
    requires Follows(s, e, s') && Waits(s, x, ahead, now) && (e.Sleep? ==> now <= e.start)
    ensures ahead >= 0
    ensures s'.current == x || Waits(s', x, ahead + Change(e), now)
  {
    OneStepCloser(s, e, x, ahead, now);
  }

  /** Once the time of a sleeping task has come, it runs after at most as many switches as there were
      tasks ahead of it and tasks created since: a run in which it does not run has no more. */
  lemma BoundedWaiting(start: State, run: seq<State>, events: seq<Event>, x: nat, ahead: nat, now: nat)
    requires Inv(start) && Run(start, run, events) && Waits(start, x, ahead, now)
    requires forall e :: e in events && e.Sleep? ==> now <= e.start
    ensures Runs(run, x) || Switches(events) <= ahead + Creations(events)
  {
    hide Run, Runs, Inv;
    StillWaits(start, run, events, x, ahead, now, |events|);
    assert events[..|events|] == events;
  }

  lemma {:induction false} StillWaits(start: State, run: seq<State>, events: seq<Event>, x: nat, ahead: nat,
                                      now: nat, n: nat)
    requires Inv(start) && Run(start, run, events) && Waits(start, x, ahead, now)
    requires forall e :: e in events && e.Sleep? ==> now <= e.start
    requires n <= |events|
    ensures Runs(run, x) || Waits(run[n], x, ahead + Creations(events[..n]) - Switches(events[..n]), now)
  {
    hide Follows, Waits, Inv;
    RunStarts(start, run, events);
    if n > 0 {
      StillWaits(start, run, events, x, ahead, now, n - 1);
      RunFollows(start, run, events, n - 1);
      var e, before := events[n - 1], events[..n - 1];
      assert events[..n][..n - 1] == before && events[..n][n - 1] == e;
      var left := ahead + Creations(before) - Switches(before);
      if !Runs(run, x) {
        assert e in events;
        Closer(run[n - 1], e, run[n], x, left, now);
        assert run[n].current != x;
      }
    }
  }
}
