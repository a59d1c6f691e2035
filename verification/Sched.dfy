/** src/sched.c on the intrusive lists of include/tx/list.h. A task's number is that of its list
    node; node 0 is the head of the sleep list. */
module SchedModel {
  import opened Common
  import opened DLists
  import opened SchedSpec

  /** The system clock: it never goes back, and it does not stop. */
  class Clock {
    const ticks: nat -> nat
    ghost const reach: nat -> nat // A reading by which a time has come.
    var readings: nat

    ghost predicate Valid()
    {
      && (forall i, j :: i <= j ==> ticks(i) <= ticks(j))
      && (forall t :: ticks(reach(t)) >= t)
    }

    constructor (ticks: nat -> nat, ghost reach: nat -> nat)
      requires forall i, j :: i <= j ==> ticks(i) <= ticks(j)
      requires forall t :: ticks(reach(t)) >= t
      ensures Valid() && this.ticks == ticks
    {
      this.ticks, this.reach, readings := ticks, reach, 0;
    }

    /** `time_current_ms` */
    method Now() returns (t: nat)
      modifies this
      ensures t == ticks(old(readings)) && readings == old(readings) + 1
    {
      t := ticks(readings);
      readings := readings + 1;
    }
  }

  class Sched {
    const links: Links
    const wake: array<nat>
    const start: array<nat> // The local variables of a task's `sleep_ms`.
    const duration: array<nat>
    const began: array<bool> // Whether the task is in `sleep_ms`; otherwise it starts at its entry.
    const clock: Clock
    var current: nat
    ghost var live: set<nat>

    ghost function Repr(): set<object>
      reads this
    {
      {this, links, links.next, links.prev, wake, start, duration, began, clock}
    }

    ghost function Now(): State
      reads this, links, wake
      requires |links.rings| == 1 && |links.rings[0]| > 0
    {
      State(current, links.List(0), wake[..], live)
    }

    ghost predicate Shaped()
      reads this, links, links.next, links.prev
    {
      && links.Valid() && |links.rings| == 1 && |links.rings[0]| > 0
      && links.next.Length == wake.Length == start.Length == duration.Length == began.Length
      && wake != links.next && wake != links.prev && start != wake && duration != wake && start != duration
      && start != links.next && start != links.prev && duration != links.next && duration != links.prev
      && clock.Valid()
    }

    /** A waiting task that has slept before wakes when its duration is over. */
    ghost predicate Valid()
      reads Repr()
    {
      && Shaped() && Inv(Now())
      && (forall x :: x in live && x != current && began[x] ==> wake[x] == start[x] + duration[x])
    }

    /** `sched_init` */
    constructor (tasks: nat, clock: Clock)
      requires clock.Valid() && tasks > 1
      ensures Valid() && fresh(Repr() - {clock}) && this.clock == clock
      ensures wake.Length == tasks && Now() == Start(tasks)
    {
      links := new Links(1, tasks - 1);
      wake, start, duration := new nat[tasks](_ => 0), new nat[tasks](_ => 0), new nat[tasks](_ => 0);
      began := new bool[tasks](_ => false);
      this.clock := clock;
      current, live := MAIN, {MAIN};
    }

    // ----- The sleep list ----------------------------------------------------------------------

    /** `sched_add_sleeping` */
    method AddSleeping(t: nat)
      requires Shaped() && InRange(links.List(0), wake[..])
      requires t < wake.Length && !InRing(links.rings, t)
      modifies links, links.next, links.prev
      ensures Shaped() && links.List(0) == Put(old(links.List(0)), wake[..], t)
    {
      hide AllRings, Place;
      ghost var ring, list, j := links.rings[0], links.List(0), 1;
      RingLinks(links, 0);
      RingLinks(links, |ring| - 1);
      var node := links.next[0];
      // Both ways out of the loop insert the task before `node`.
      while node != 0
        modifies {}
        invariant 1 <= j <= |ring| && node == (if j < |ring| then ring[j] else 0)
        invariant forall i :: 0 <= i < j - 1 ==> wake[list[i]] <= wake[t]
        decreases |ring| - j
      {
        RingLinks(links, j);
        assert list[j - 1] == node;
        if wake[node] > wake[t] {
          break;
        }
        node, j := links.next[node], j + 1;
      }
      if node == 0 {
        NotHead(links, j);
      }
      RingLinks(links, j - 1);
      PlaceIs(list, wake[..], wake[t], j - 1);
      links.Insert(links.prev[node], t, 0, j - 1);
      InsertedBehindHead(ring, j - 1, t);
    }

    /** `sched_poll_sleeping`; the list must not be empty. */
    method Poll() returns (ready: Option<nat>)
      requires Shaped() && InRange(links.List(0), wake[..]) && links.List(0) != []
      modifies clock
      ensures var first, time := links.List(0)[0], clock.ticks(old(clock.readings));
              ready == if time < wake[first] then None else Some(first)
      ensures clock.readings == old(clock.readings) + 1
    {
      RingLinks(links, 0);
      var task := links.next[0];
      var time := clock.Now();
      if time < wake[task] {
        return None;
      }
      return Some(task);
    }

    /** `sched_get_ready` */
    method GetReady() returns (task: nat)
      requires Shaped() && InRange(links.List(0), wake[..]) && links.List(0) != []
      modifies clock
      ensures task == links.List(0)[0] && clock.ticks(clock.readings) >= wake[task]
      ensures clock.readings > old(clock.readings)
    {
      ghost var first := links.List(0)[0];
      var ready := Poll();
      while ready.None?
        modifies clock
        invariant clock.readings > old(clock.readings)
        invariant ready == if clock.ticks(clock.readings - 1) < wake[first] then None else Some(first)
        decreases clock.reach(wake[first]) + 1 - clock.readings
      {
        ready := Poll();
      }
      return ready.value;
    }

    // ----- Tasks -------------------------------------------------------------------------------

    /** `sched_switch_task`, and with it the removal in `sched_final_switch_task`. */
    method Switch(task: nat)
      requires Shaped() && task < wake.Length
      requires task == current || (links.List(0) != [] && task == links.List(0)[0])
      modifies this`current, links, links.next, links.prev
      ensures Shaped() && current == task
      ensures task == old(current) ==> links.rings == old(links.rings)
      ensures task != old(current) ==> links.List(0) == old(links.List(0))[1..] && links.Loose(task)
    {
      hide AllRings;
      if task == current {
        return;
      }
      RingLinks(links, 0);
      links.Remove(task, (0, 1), false);
      current := task;
    }

    /** The end of `sleep_ms`, in the task that goes on: the second removal does nothing when the task
        was removed by the switch. `Crashed` would mean that it woke up early. */
    method Resume(ghost loose: bool) returns (r: Result<()>)
      requires Shaped() && current < wake.Length
      requires if loose then links.Loose(current) else links.List(0) != [] && links.List(0)[0] == current
      requires wake[current] == start[current] + duration[current] <= clock.ticks(clock.readings)
      modifies clock, links, links.next, links.prev
      ensures Shaped() && r == Ok(()) && clock.readings >= old(clock.readings)
      ensures links.List(0) == if loose then old(links.List(0)) else old(links.List(0))[1..]
    {
      hide AllRings;
      RingLinks(links, 0);
      links.Remove(current, (0, 1), loose);
      var time := clock.Now();
      if time - start[current] < duration[current] {
        return Crashed;
      }
      return Ok(());
    }

    /** `sleep_ms`, up to the point where the next task goes on: at its entry, or behind its own call
        of `sleep_ms`, whose last assertion holds. */
    method Sleep(time: nat) returns (r: Result<()>)
      requires Valid()
      modifies this`current, links, links.next, links.prev, wake, start, duration, began, clock
      ensures Valid() && r == Ok(())
      ensures Now() == Step(old(Now()), SchedSpec.Sleep(clock.ticks(old(clock.readings)), time))
      ensures wake[..] == old(wake[..])[old(current) := clock.ticks(old(clock.readings)) + time]
      ensures clock.ticks(clock.readings) >= wake[current]
    {
      hide AllRings, Inv, Put, InRange;
      ghost var s := Now();
      Outside();
      var now := clock.Now();
      SleepStep(s, now, time);
      start[current], duration[current], wake[current], began[current] := now, time, now + time, true;
      assert wake[..] == s.wake[current := now + time];
      AddSleeping(current);
      var task := GetReady();
      Switch(task);
      if began[current] {
        r := Resume(task != s.current);
      } else {
        r := Ok(());
      }
      assert Now() == Step(s, SchedSpec.Sleep(now, time));
    }

    lemma Outside()
      requires Valid()
      ensures !InRing(links.rings, current) && current < wake.Length
    {
      hide AllRings;
      RingLinks(links, 0);
      assert forall i :: 0 < i < |links.rings[0]| ==> links.rings[0][i] == links.List(0)[i - 1];
    }

    /** `sched_task_finish`; the main task must not finish. */
    method Finish() returns (r: Result<()>)
      requires Valid()
      modifies this`current, this`live, links, links.next, links.prev, clock
      ensures Valid()
      ensures old(current) == MAIN ==> r == Crashed && Now() == old(Now())
      ensures old(current) != MAIN ==>
                && r == Ok(()) && Now() == Step(old(Now()), SchedSpec.Finish)
                && clock.ticks(clock.readings) >= wake[current]
    {
      hide AllRings, Inv, InRange;
      if current == MAIN {
        return Crashed;
      }
      ghost var s := Now();
      FinishStep(s);
      var task := GetReady();
      if task == current {
        return Crashed;
      }
      live := live - {current};
      Switch(task);
      if began[current] {
        r := Resume(true);
      } else {
        r := Ok(());
      }
      assert Now() == Step(s, SchedSpec.Finish);
    }

    /** `sched_create_task`, where `memory` is the task that the allocator hands out, if it has one. */
    method CreateTask(memory: Option<nat>) returns (r: Result<()>)
      requires Valid() && (memory.Some? ==> Allowed(Now(), Create(memory.value)))
      modifies this`live, links, links.next, links.prev, wake, began
      ensures Valid()
      ensures memory.None? ==> r == Err(ENOMEM) && Now() == old(Now())
      ensures memory.Some? ==> r == Ok(()) && Now() == Step(old(Now()), Create(memory.value))
      ensures memory.Some? ==> memory.value in live && memory.value in links.List(0) && wake[memory.value] == 0
    {
      hide AllRings, Inv, Put, InRange;
      match memory {
        case None => return Err(ENOMEM);
        case Some(t) =>
          ghost var s := Now();
          CreateStep(s, t);
          RingLinks(links, 0);
          assert forall i :: 0 < i < |links.rings[0]| ==> links.rings[0][i] == links.List(0)[i - 1];
          wake[t], began[t] := 0, false;
          assert wake[..] == s.wake[t := 0];
          AddSleeping(t);
          live := live + {t};
          assert Now() == Step(s, Create(t));
          return Ok(());
      }
    }
  }

  // ----- A system of tasks -----------------------------------------------------------------------

  datatype Call = SleepCall(time: nat) | FinishCall | CreateCall

  /** Any calls that the running tasks make one after the other, up to a call with which the main task
      would finish: the states that the scheduler goes through are a run. Tasks get the next number
      as long as there is one. */
  method Drive(sched: Sched, calls: seq<Call>) returns (n: nat, ghost run: seq<State>, ghost events: seq<Event>)
    requires sched.Valid() && sched.wake.Length > MAIN && sched.Now() == Start(sched.wake.Length)
    modifies sched.Repr()
    ensures sched.Valid() && n <= |calls|
    ensures Run(Start(sched.wake.Length), run, events) && run[|events|] == sched.Now()
    ensures n < |calls| ==> calls[n].FinishCall? && sched.current == MAIN
  {
    hide Run, Inv, Step;
    var tasks, next: nat := sched.wake.Length, MAIN + 1;
    n, run, events := 0, [Start(tasks)], [];
    Started(tasks);
    while n < |calls|
      invariant sched.Valid() && n <= |calls|
      invariant Run(Start(tasks), run, events) && run[|events|] == sched.Now()
      invariant MAIN < next && forall x :: x in sched.live ==> x < next
    {
      ghost var s := sched.Now();
      match calls[n] {
        case SleepCall(time) =>
          ghost var e := SchedSpec.Sleep(sched.clock.ticks(sched.clock.readings), time);
          StepLive(s, e);
          var _ := sched.Sleep(time);
          RunOn(Start(tasks), run, events, e);
          run, events := run + [sched.Now()], events + [e];
        case FinishCall =>
          if sched.current == MAIN {
            return;
          }
          StepLive(s, SchedSpec.Finish);
          var _ := sched.Finish();
          RunOn(Start(tasks), run, events, SchedSpec.Finish);
          run, events := run + [sched.Now()], events + [SchedSpec.Finish];
        case CreateCall =>
          if next < tasks {
            StepLive(s, Create(next));
            var _ := sched.CreateTask(Some(next));
            RunOn(Start(tasks), run, events, Create(next));
            run, events := run + [sched.Now()], events + [Create(next)];
            next := next + 1;
          } else {
            var _ := sched.CreateTask(None);
          }
      }
      n := n + 1;
    }
  }

  lemma Started(tasks: nat)
    requires tasks > MAIN
    ensures Run(Start(tasks), [Start(tasks)], [])
  {
  }

  lemma StepLive(s: State, e: Event)
    requires Inv(s) && Allowed(s, e)
    ensures Step(s, e).live <= s.live + (if e.Create? then {e.task} else {})
    ensures |Step(s, e).wake| == |s.wake|
  {
  }

  lemma SleepStep(s: State, now: nat, time: nat)
    requires Inv(s)
    ensures s.current < |s.wake|
    ensures var wake := s.wake[s.current := now + time];
            && InRange(s.list, wake)
            && var list := Put(s.list, wake, s.current);
            && InRange(list, wake) && list[0] in s.live && list[0] < |wake|
            && Step(s, SchedSpec.Sleep(now, time)) == s.(wake := wake, current := list[0], list := list[1..])
            && Inv(Step(s, SchedSpec.Sleep(now, time)))
  {
    hide Sorted, Distinct, Put;
    StepKeeps(s, SchedSpec.Sleep(now, time));
    WakeElsewhere(s.list, s.wake, s.current, now + time);
    PutKeeps(s.list, s.wake[s.current := now + time], s.current);
    var list := Put(s.list, s.wake[s.current := now + time], s.current);
    assert list[0] in list;
  }

  lemma FinishStep(s: State)
    requires Inv(s) && s.current != MAIN
    ensures s.list != [] && s.list[0] in s.live && s.list[0] != s.current && s.list[0] < |s.wake|
    ensures InRange(s.list, s.wake)
    ensures Step(s, SchedSpec.Finish) == s.(current := s.list[0], list := s.list[1..], live := s.live - {s.current})
    ensures Inv(Step(s, SchedSpec.Finish))
  {
    SomeoneReady(s);
    StepKeeps(s, SchedSpec.Finish);
    assert s.list[0] in s.list;
  }

  lemma CreateStep(s: State, t: nat)
    requires Inv(s) && Allowed(s, Create(t))
    ensures 0 < t < |s.wake| && t !in s.list && t != s.current
    ensures var wake := s.wake[t := 0];
            && InRange(s.list, wake)
            && Step(s, Create(t)) == s.(wake := wake, list := Put(s.list, wake, t), live := s.live + {t})
            && Inv(Step(s, Create(t)))
  {
    StepKeeps(s, Create(t));
    WakeElsewhere(s.list, s.wake, t, 0);
  }

  lemma InsertedBehindHead(ring: seq<nat>, k: nat, t: nat)
    requires k < |ring|
    ensures Inserted(ring, k, t)[1..] == ring[1..][..k] + [t] + ring[1..][k..]
  {
  }

  /** Where the links of position `j` of the sleep list's ring lead. */
  lemma RingLinks(links: Links, j: nat)
    requires links.Valid() && |links.rings| == 1 && j < |links.rings[0]|
    ensures var ring, n := links.rings[0], |links.rings[0]|;
            && ring[j] < links.next.Length && ring[0] == 0
            && links.next[ring[j]] == (if j + 1 < n then ring[j + 1] else 0)
            && links.prev[if j + 1 < n then ring[j + 1] else 0] == ring[j]
            && (0 < j ==> ring[j] != 0)
  {
    var ring := links.rings[0];
    assert IsRing(links.next[..], links.prev[..], ring);
    assert LinkedAt(links.next[..], links.prev[..], ring, j);
    assert j > 0 ==> links.rings[0][j] != links.rings[0][0];
  }

  lemma NotHead(links: Links, j: nat)
    requires links.Valid() && |links.rings| == 1 && 1 <= j <= |links.rings[0]|
    requires (if j < |links.rings[0]| then links.rings[0][j] else 0) == 0
    ensures j == |links.rings[0]|
  {
    if j < |links.rings[0]| {
      RingLinks(links, j);
    }
  }
}
