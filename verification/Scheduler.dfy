/**
 * The round-robin scheduler with idle fallback and the sorted sleep queue.  Each method is one interrupt-disabled
 * region; anything may happen between two of them.
 */
module Scheduler {
  import opened Lists
  import opened Options

  datatype ThreadState = Unused | Runnable | Running | Blocked | Sleeping | Zombie | Dead

  /** The current task: a slot of the task array, or the idle task outside it. */
  datatype Current = Idle | Slot(index: nat)

  // ------------------------------------------------------------ selection

  function Start(current: Current): nat
  {
    if current.Slot? then current.index else 0
  }

  /** The slot `step` places after the current one. */
  function Place(current: Current, step: nat, n: nat): nat
    requires n > 0
  {
    (Start(current) + step) % n
  }

  /** How far a slot is from the current one, going round; between 1 and n. */
  function Distance(current: Current, i: nat, n: nat): nat
    requires i < n && Start(current) < n
  {
    if i > Start(current) then i - Start(current) else i + n - Start(current)
  }

  lemma DistanceIsPlace(current: Current, i: nat, n: nat)
    requires i < n && Start(current) < n
    ensures 1 <= Distance(current, i, n) <= n && Place(current, Distance(current, i, n), n) == i
  {
    PlaceValue(current, Distance(current, i, n), n);
  }

  lemma PlaceValue(current: Current, step: nat, n: nat)
    requires Start(current) < n && step <= n
    ensures Place(current, step, n) ==
              if Start(current) + step < n then Start(current) + step else Start(current) + step - n
  {
  }

  /** The first runnable slot after the current one, going round. */
  ghost predicate IsNext(states: seq<ThreadState>, current: Current, i: nat)
    requires Start(current) < |states|
  {
    && i < |states| && states[i] == Runnable
    && forall j: nat | j < |states| && states[j] == Runnable ::
        Distance(current, i, |states|) <= Distance(current, j, |states|)
  }

  /** task_find_next_ready */
  method FindNextReady(states: array<ThreadState>, current: Current) returns (next: Option<nat>)
    requires Start(current) < states.Length
    ensures next.Some? ==> IsNext(states[..], current, next.value)
    ensures next.None? ==> forall i | 0 <= i < states.Length :: states[i] != Runnable
  {
    var n := states.Length;
    var step := 1;
    while step <= n
      invariant 1 <= step <= n + 1
      invariant forall j: nat | j < n && states[j] == Runnable :: step <= Distance(current, j, n)
    {
      var candidate := Place(current, step, n);
      PlaceValue(current, step, n);
      if states[candidate] == Runnable {
        return Some(candidate);
      }
      step := step + 1;
    }
    return None;
  }

  ghost predicate AnyRunnable(states: seq<ThreadState>)
  {
    exists i: nat :: i < |states| && states[i] == Runnable
  }

  /** Whom schedule() makes current. */
  ghost predicate Schedules(states: seq<ThreadState>, current: Current, current': Current)
    requires Start(current) < |states|
  {
    if AnyRunnable(states) then current'.Slot? && IsNext(states, current, current'.index)
    else current' == if current.Slot? && states[current.index] == Running then current else Idle
  }

  // ------------------------------------------------------------ bounded waiting

  /** Going to a nearer slot shortens the way to a farther one by as much. */
  lemma Closer(current: Current, x: nat, i: nat, n: nat)
    requires x < n && i < n && Start(current) < n && Distance(current, x, n) < Distance(current, i, n)
    ensures Distance(Slot(x), i, n) == Distance(current, i, n) - Distance(current, x, n)
  {
  }

  /** A history of calls to schedule(): the states each call finds, and who is current before and after. */
  ghost predicate History(found: seq<seq<ThreadState>>, currents: seq<Current>, n: nat)
  {
    && |currents| == |found| + 1
    && (forall k | 0 <= k < |found| :: |found[k]| == n && Start(currents[k]) < n)
    && (forall k | 0 <= k < |found| :: Calls(found, currents, k))
  }

  ghost predicate Calls(found: seq<seq<ThreadState>>, currents: seq<Current>, k: nat)
    requires k < |found| && k + 1 < |currents| && Start(currents[k]) < |found[k]|
  {
    Schedules(found[k], currents[k], currents[k + 1])
  }

  /** Task i is runnable at every call until it has been current. */
  ghost predicate Patient(found: seq<seq<ThreadState>>, currents: seq<Current>, i: nat)
  {
    forall k | 0 <= k < |found| && k < |currents| :: (exists j :: 0 <= j <= k && currents[j] == Slot(i))
        || (i < |found[k]| && found[k][i] == Runnable)
  }

  /** A runnable task becomes current within its distance, whatever happens to the others between the calls. */
  lemma {:induction false} BoundedWaiting(found: seq<seq<ThreadState>>, currents: seq<Current>, n: nat, i: nat)
    requires n > 0 && i < n && History(found, currents, n) && Patient(found, currents, i) && currents[0] != Slot(i)
    requires Start(currents[0]) < n && Distance(currents[0], i, n) <= |found|
    ensures exists k :: 1 <= k <= Distance(currents[0], i, n) && currents[k] == Slot(i)
    decreases |found|
  {
    DistanceIsPlace(currents[0], i, n);
    assert found[0][i] == Runnable;
    assert Calls(found, currents, 0);
    var x := currents[1].index;
    assert Distance(currents[0], x, n) <= Distance(currents[0], i, n);
    if x != i {
      NotAsFar(currents[0], x, i, n);
      Closer(currents[0], x, i, n);
      var found', currents' := found[1..], currents[1..];
      Later(found, currents, n, i);
      BoundedWaiting(found', currents', n, i);
      var k :| 1 <= k <= Distance(currents'[0], i, n) && currents'[k] == Slot(i);
      assert currents[k + 1] == Slot(i);
    }
  }

  lemma NotAsFar(current: Current, x: nat, i: nat, n: nat)
    requires x < n && i < n && x != i && Start(current) < n
    ensures Distance(current, x, n) != Distance(current, i, n)
  {
  }

  lemma Later(found: seq<seq<ThreadState>>, currents: seq<Current>, n: nat, i: nat)
    requires n > 0 && i < n && History(found, currents, n) && Patient(found, currents, i) && currents[0] != Slot(i)
    requires |found| > 0 && currents[1] != Slot(i)
    ensures History(found[1..], currents[1..], n) && Patient(found[1..], currents[1..], i)
  {
    var found', currents' := found[1..], currents[1..];
    forall k | 0 <= k < |found'|
      ensures Calls(found', currents', k)
    {
      assert Calls(found, currents, k + 1);
    }
    forall k | 0 <= k < |found'| && k < |currents'|
      ensures (exists j :: 0 <= j <= k && currents'[j] == Slot(i)) || (i < |found'[k]| && found'[k][i] == Runnable)
    {
      assert found'[k] == found[k + 1];
      if j :| 0 <= j <= k + 1 && currents[j] == Slot(i) {
        assert currents'[j - 1] == Slot(i);
      }
    }
  }

  /** In particular within as many calls as there are slots. */
  lemma WithinOneRound(found: seq<seq<ThreadState>>, currents: seq<Current>, n: nat, i: nat)
    requires n > 0 && i < n && History(found, currents, n) && Patient(found, currents, i) && currents[0] != Slot(i)
    requires |found| == n
    ensures exists k :: 1 <= k <= n && currents[k] == Slot(i)
  {
    hide History, Patient, Distance;
    HistoryStart(found, currents, n);
    DistanceIsPlace(currents[0], i, n);
    BoundedWaiting(found, currents, n, i);
  }

  lemma HistoryStart(found: seq<seq<ThreadState>>, currents: seq<Current>, n: nat)
    requires History(found, currents, n) && |found| > 0
    ensures Start(currents[0]) < n && |currents| == |found| + 1
  {
  }

  // ------------------------------------------------------------ the sleep queue

  /** Earliest deadline first. */
  ghost predicate Sorted(q: seq<nat>, deadlines: seq<nat>)
  {
    && (forall i | 0 <= i < |q| :: q[i] < |deadlines|)
    && (forall i, j | 0 <= i < j < |q| :: deadlines[q[i]] <= deadlines[q[j]])
  }

  lemma WithoutSorted(q: seq<nat>, deadlines: seq<nat>, t: nat)
    requires NoDup(q) && Sorted(q, deadlines) && t in q
    ensures Sorted(Without(q, t), deadlines)
  {
    hide Without;
    WithoutMembers(q, t);
    var w := Without(q, t);
    forall i | 0 <= i < |w|
      ensures w[i] < |deadlines|
    {
      assert w[i] in q;
    }
    forall i, j | 0 <= i < j < |w|
      ensures deadlines[w[i]] <= deadlines[w[j]]
    {
      WithoutOrder(q, t, i, j);
    }
  }

  lemma SortedElsewhere(q: seq<nat>, deadlines: seq<nat>, t: nat, d: nat)
    requires Sorted(q, deadlines) && t !in q && t < |deadlines|
    ensures Sorted(q, deadlines[t := d])
  {
  }

  /** q with t inserted at position p. */
  function Inserted(q: seq<nat>, p: nat, t: nat): seq<nat>
    requires p <= |q|
  {
    q[..p] + [t] + q[p..]
  }

  lemma InsertSorted(q: seq<nat>, deadlines: seq<nat>, p: nat, t: nat)
    requires NoDup(q) && Sorted(q, deadlines) && t !in q && t < |deadlines| && p <= |q|
    requires forall i | 0 <= i < p :: deadlines[q[i]] <= deadlines[t]
    requires p < |q| ==> deadlines[t] < deadlines[q[p]]
    ensures NoDup(Inserted(q, p, t)) && Sorted(Inserted(q, p, t), deadlines)
    ensures forall x :: x in Inserted(q, p, t) <==> x in q || x == t
  {
    hide NoDup, Sorted, Inserted;
    InsertedMembers(q, p, t);
    InsertedOrder(q, deadlines, p, t);
  }

  lemma InsertedMembers(q: seq<nat>, p: nat, t: nat)
    requires p <= |q|
    ensures forall x :: x in Inserted(q, p, t) <==> x in q || x == t
  {
    var r := Inserted(q, p, t);
    assert r[p] == t;
    forall x | x in q
      ensures x in r
    {
      var j := IndexOf(q, x);
      assert if j < p then r[j] == x else r[j + 1] == x;
    }
  }

  lemma InsertedOrder(q: seq<nat>, deadlines: seq<nat>, p: nat, t: nat)
    requires NoDup(q) && Sorted(q, deadlines) && t !in q && t < |deadlines| && p <= |q|
    requires forall i | 0 <= i < p :: deadlines[q[i]] <= deadlines[t]
    requires p < |q| ==> deadlines[t] < deadlines[q[p]]
    ensures NoDup(Inserted(q, p, t)) && Sorted(Inserted(q, p, t), deadlines)
  {
  }

  /** Place p is behind all deadlines that are not later than that of t, and before all later ones. */
  ghost predicate BehindEarlier(q: seq<nat>, deadlines: seq<nat>, p: nat, t: nat)
  {
    && p <= |q| && t < |deadlines| && (forall i | 0 <= i < p :: q[i] < |deadlines| && deadlines[q[i]] <= deadlines[t])
    && (p < |q| ==> q[p] < |deadlines| && deadlines[t] < deadlines[q[p]])
  }

  /** The tasks a tick at `now` wakes. */
  ghost predicate Due(q: seq<nat>, deadlines: seq<nat>, now: nat, t: nat)
  {
    t in q && t < |deadlines| && deadlines[t] <= now
  }

  class TaskSystem {
    var states: array<ThreadState>
    var deadlines: array<nat>
    var sleepQueue: seq<nat>
    var sleepingCount: nat
    var current: Current
    var idleState: ThreadState

    /** Only the current task is running. */
    ghost predicate RunningIsCurrent()
      reads this, states
    {
      && (forall i | 0 <= i < states.Length && states[i] == Running :: current == Slot(i))
      && (idleState == Running <==> current == Idle) && (idleState == Running || idleState == Runnable)
    }

    ghost predicate QueueOk()
      reads this, deadlines
    {
      NoDup(sleepQueue) && Sorted(sleepQueue, deadlines[..]) && sleepingCount == |sleepQueue|
    }

    ghost predicate Valid()
      reads this, states, deadlines
    {
      && states.Length == deadlines.Length > 0 && Start(current) < states.Length
      && RunningIsCurrent() && QueueOk()
    }

    /** task_initialize: the bootstrap task runs in slot 0. */
    constructor (n: nat)
      requires n > 0
      ensures Valid() && fresh(states) && fresh(deadlines) && states.Length == n && current == Slot(0)
      ensures sleepQueue == []
      ensures states[0] == Running && forall i | 0 < i < n :: states[i] == Unused
    {
      states := new ThreadState[n](i => if i == 0 then Running else Unused);
      deadlines := new nat[n](_ => 0);
      sleepQueue, sleepingCount := [], 0;
      current := Slot(0);
      idleState := Runnable;
    }

    /** schedule() */
    method Schedule()
      requires Valid()
      modifies this`current, this`idleState, states
      ensures Valid() && Schedules(old(states[..]), old(current), current)
      ensures current == old(current) ==> states[..] == old(states[..])
      ensures current != old(current) && current.Slot? ==> states[current.index] == Running
      ensures forall i | 0 <= i < states.Length && current != Slot(i) ::
                states[i] == if old(current) == Slot(i) && old(states[i]) == Running then Runnable else old(states[i])
    {
      var found := FindNextReady(states, current);
      var next: Current;
      if found.None? {
        assert forall i | 0 <= i < |states[..]| :: states[..][i] != Runnable;
        if current.Slot? && states[current.index] == Running {
          return;
        }
        if current == Idle {
          return;
        }
        next := Idle;
      } else {
        assert states[..][found.value] == Runnable;
        next := Slot(found.value);
      }
      if next == current {
        return;
      }
      SwitchTo(next);
    }

    /** The tail of schedule(): the previous task steps down, the next one runs. */
    method SwitchTo(next: Current)
      requires Valid() && next != current && (next.Slot? ==> next.index < states.Length)
      modifies this`current, this`idleState, states
      ensures Valid() && current == next && (next.Slot? ==> states[next.index] == Running)
      ensures forall i | 0 <= i < states.Length && next != Slot(i) ::
                states[i] == if old(current) == Slot(i) && old(states[i]) == Running then Runnable else old(states[i])
    {
      hide NoDup, Sorted;
      if current.Slot? && states[current.index] == Running {
        states[current.index] := Runnable;
      }
      if current.Idle? && idleState == Running {
        idleState := Runnable;
      }
      if next.Slot? {
        states[next.index] := Running;
      } else {
        idleState := Running;
      }
      current := next;
    }

    /** task_block */
    method Block(t: nat)
      requires Valid() && t < states.Length
      modifies states
      ensures Valid() && states[..] == old(states[..])[t := Blocked]
    {
      hide NoDup, Sorted;
      states[t] := Blocked;
    }

    /** task_unblock */
    method Unblock(t: nat)
      requires Valid() && t < states.Length
      modifies states
      ensures Valid() && states[..] ==
                if old(states[t]) == Blocked then old(states[..])[t := Runnable] else old(states[..])
    {
      hide NoDup, Sorted;
      if states[t] == Blocked {
        states[t] := Runnable;
      }
    }

    /** Any other change of a task's state: its creation, its end, and the direct assignments of the process code. */
    method SetState(t: nat, state: ThreadState)
      requires Valid() && t < states.Length && state != Running
      modifies states
      ensures Valid() && states[..] == old(states[..])[t := state]
    {
      hide NoDup, Sorted;
      states[t] := state;
    }

    /** sleep_queue_insert_sorted: behind every deadline that is not later. */
    method InsertSleeper(t: nat)
      requires NoDup(sleepQueue) && Sorted(sleepQueue, deadlines[..]) && sleepingCount == |sleepQueue|
      requires t < deadlines.Length && t !in sleepQueue
      modifies this`sleepQueue, this`sleepingCount
      ensures QueueOk() && (forall x :: x in sleepQueue <==> x in old(sleepQueue) || x == t)
      ensures exists p :: BehindEarlier(old(sleepQueue), deadlines[..], p, t)
                && sleepQueue == Inserted(old(sleepQueue), p, t)
    {
      var p := 0;
      while p < |sleepQueue| && !(deadlines[t] < deadlines[sleepQueue[p]])
        invariant 0 <= p <= |sleepQueue| && forall i | 0 <= i < p :: deadlines[sleepQueue[i]] <= deadlines[t]
      {
        p := p + 1;
      }
      InsertSorted(sleepQueue, deadlines[..], p, t);
      assert BehindEarlier(sleepQueue, deadlines[..], p, t);
      sleepQueue := Inserted(sleepQueue, p, t);
      sleepingCount := sleepingCount + 1;
    }

    /** Unlinking, if linked. */
    method Unlink(t: nat)
      requires NoDup(sleepQueue) && Sorted(sleepQueue, deadlines[..]) && sleepingCount == |sleepQueue|
      modifies this`sleepQueue, this`sleepingCount
      ensures QueueOk() && t !in sleepQueue && (forall x :: x in sleepQueue <==> x in old(sleepQueue) && x != t)
      ensures sleepQueue == if t in old(sleepQueue) then Without(old(sleepQueue), t) else old(sleepQueue)
    {
      hide NoDup, Sorted, Without;
      if t in sleepQueue {
        WithoutSorted(sleepQueue, deadlines[..], t);
        WithoutMembers(sleepQueue, t);
        sleepQueue := Without(sleepQueue, t);
        sleepingCount := sleepingCount - 1;
      }
    }

    /** task_sleep_enqueue: the task is queued once, under the new deadline. */
    method SleepEnqueue(t: nat, target: nat)
      requires Valid() && t < states.Length
      modifies this`sleepQueue, this`sleepingCount, deadlines
      ensures Valid() && deadlines[..] == old(deadlines[..])[t := target]
      ensures forall x :: x in sleepQueue <==> x in old(sleepQueue) || x == t
    {
      hide NoDup, Sorted, BehindEarlier, Inserted, Without;
      Unlink(t);
      SortedElsewhere(sleepQueue, deadlines[..], t, target);
      deadlines[t] := target;
      assert deadlines[..] == old(deadlines[..])[t := target];
      InsertSleeper(t);
    }

    /** task_sleep_dequeue */
    method SleepDequeue(t: nat)
      requires Valid() && t < states.Length
      modifies this`sleepQueue, this`sleepingCount, deadlines
      ensures Valid() && deadlines[..] == old(deadlines[..])[t := 0]
      ensures t !in sleepQueue && forall x :: x in sleepQueue <==> x in old(sleepQueue) && x != t
    {
      hide NoDup, Sorted, Without;
      Unlink(t);
      SortedElsewhere(sleepQueue, deadlines[..], t, 0);
      deadlines[t] := 0;
      assert deadlines[..] == old(deadlines[..])[t := 0];
    }

    /** The locked region of task_sleep; a running task is not queued. */
    method Sleep(deadline: nat)
      requires Valid() && current.Slot? && current.index !in sleepQueue
      modifies this`sleepQueue, this`sleepingCount, states, deadlines
      ensures Valid() && deadlines[..] == old(deadlines[..])[current.index := deadline]
      ensures states[..] == old(states[..])[current.index := Sleeping]
      ensures forall x :: x in sleepQueue <==> x in old(sleepQueue) || x == current.index
    {
      hide NoDup, Sorted, BehindEarlier, Inserted;
      var t := current.index;
      SortedElsewhere(sleepQueue, deadlines[..], t, deadline);
      deadlines[t] := deadline;
      states[t] := Sleeping;
      assert deadlines[..] == old(deadlines[..])[t := deadline];
      InsertSleeper(t);
    }

    /** The end of task_sleep, back on the processor. */
    method Awake()
      requires Valid() && current.Slot?
      modifies states
      ensures Valid() && states[..] == old(states[..])[current.index := Running]
    {
      hide NoDup, Sorted;
      states[current.index] := Running;
    }

    /** The wake-up loop of task_timer_tick: exactly the tasks whose deadline has passed leave the queue, runnable. */
    method Tick(now: nat)
      requires Valid()
      modifies this`sleepQueue, this`sleepingCount, states
      ensures Valid()
      ensures forall t :: t in sleepQueue <==> t in old(sleepQueue) && !Due(old(sleepQueue), deadlines[..], now, t)
      ensures forall t | 0 <= t < states.Length ::
                states[t] == if Due(old(sleepQueue), deadlines[..], now, t) then Runnable else old(states[t])
    {
      if sleepingCount > 0 {
        ghost var q, p := sleepQueue, 0;
        while sleepQueue != [] && deadlines[sleepQueue[0]] <= now
          invariant 0 <= p <= |q| && sleepQueue == q[p..] && sleepingCount == |sleepQueue|
          invariant forall i | 0 <= i < p :: deadlines[q[i]] <= now
          invariant forall t | 0 <= t < states.Length :: states[t] == if t in q[..p] then Runnable else old(states[t])
          invariant RunningIsCurrent()
          decreases |sleepQueue|
        {
          states[sleepQueue[0]] := Runnable;
          sleepQueue := sleepQueue[1..];
          sleepingCount := sleepingCount - 1;
          p := p + 1;
        }
        DueIsPrefix(q, deadlines[..], now, p);
      }
    }
  }

  /** In a sorted queue the due tasks are a prefix. */
  lemma DueIsPrefix(q: seq<nat>, deadlines: seq<nat>, now: nat, p: nat)
    requires NoDup(q) && Sorted(q, deadlines) && p <= |q|
    requires forall i | 0 <= i < p :: deadlines[q[i]] <= now
    requires p < |q| ==> now < deadlines[q[p]]
    ensures forall t :: t in q[..p] <==> Due(q, deadlines, now, t)
    ensures forall t :: t in q[p..] <==> t in q && !Due(q, deadlines, now, t)
    ensures NoDup(q[p..]) && Sorted(q[p..], deadlines)
  {
    hide NoDup, Sorted;
    SuffixSorted(q, deadlines, p);
    forall t | t in q
      ensures if t in q[..p] then deadlines[t] <= now && t !in q[p..]
              else t in q[p..] && t < |deadlines| && now < deadlines[t]
    {
      DueAt(q, deadlines, now, p, IndexOf(q, t));
    }
  }

  lemma SuffixSorted(q: seq<nat>, deadlines: seq<nat>, p: nat)
    requires NoDup(q) && Sorted(q, deadlines) && p <= |q|
    ensures NoDup(q[p..]) && Sorted(q[p..], deadlines)
    ensures forall i | 0 <= i < |q| :: q[i] < |deadlines|
  {
  }

  /** A task before place p is due, one behind it is not. */
  lemma DueAt(q: seq<nat>, deadlines: seq<nat>, now: nat, p: nat, i: nat)
    requires NoDup(q) && Sorted(q, deadlines) && p <= |q| && i < |q|
    requires forall j | 0 <= j < p :: deadlines[q[j]] <= now
    requires p < |q| ==> now < deadlines[q[p]]
    ensures i < p ==> q[i] in q[..p] && q[i] !in q[p..] && deadlines[q[i]] <= now
    ensures i >= p ==> q[i] in q[p..] && q[i] !in q[..p] && now < deadlines[q[i]]
  {
    if i < p {
      assert q[..p][i] == q[i];
    } else {
      assert q[p..][i - p] == q[i];
    }
  }
}
