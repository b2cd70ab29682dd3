/**
 * The PtPlus scheduler (pt_plus.c) and its macros (pt_plus.h).
 *
 * The task items live in an arena indexed by handle: handle 0 is the
 * pool's sentinel (pt_pool) and every other handle is a statically
 * allocated pt_item_t. The pool's links are a Ring; the other fields of
 * each item are in `items`, and the static pt_anchor of the PT_INVOK
 * site that owns an item is in `anchor`.
 *
 * A task function is a number; what a task does when it is resumed is
 * not modelled, except where a macro of pt_plus.h decides it. The
 * clock and the timer library are parameters: `now` is the tick
 * timer_set reads, `expired` and `remaining` are timer_expired and
 * timer_remaining at the moment of the call.
 */
module PtPlus {
  import opened IntrusiveList
  import opened Cycle

  /** The ceiling pt_task_idle_time starts its minimum from. */
  const IdleCap: int := 1000

  /** A timer as timer_set leaves it: the tick it was set at and its
      interval. */
  datatype Timer = Timer(start: int, interval: int)

  /** The fields of a pt_item_t besides its links: its task function,
      the continuation (the local continuation `lc` of its struct pt,
      0 when the task starts from its beginning) and its own timer. */
  datatype Item = Item(task: int, lc: int, periodic: Timer)

  /** How a task left PT_INVOK's code when it was resumed at the
      LC_SET point: it ran the body and reports `status`, or it fell
      through past the macro because the anchor was still 0. */
  datatype SpawnOutcome = BodyRan(status: Status) | FellThrough

  /** What the body of a PT_INVOK does on one resumption: it suspends
      at the continuation `at` with a status that does not finish the
      task, or it runs to its end. */
  datatype BodyStep = Suspend(at: int, status: Status) | Complete

  /** The outcome of PT_SEM_WAIT_TIMEOUT on one resumption: the task
      stays blocked (it returns PT_WAITING), or it continues with
      `*ret` set. */
  datatype WaitResult = Blocked | Proceed(ret: int)

  /** The condition PT_SEM_WAIT_TIMEOUT waits for: a count to take or
      an expired timer. */
  predicate SemReady(count: nat, expired: bool) {
    count > 0 || expired
  }

  /** What PT_SEM_WAIT_TIMEOUT does once it no longer waits: it takes
      one count and reports 0 when there is one, else it reports 1 and
      leaves the count alone. */
  function SemTake(count: nat): (r: (nat, int))
    ensures count > 0 ==> r.0 + 1 == count && r.1 == 0
    ensures count == 0 ==> r.0 == 0 && r.1 == 1
  {
    if count > 0 then (count - 1, 0) else (count, 1)
  }

  /** A pt_sem: a count of signals not yet taken. */
  class Semaphore {
    var count: nat

    /** A semaphore holding `n` signals. */
    constructor (n: nat)
      ensures count == n
    {
      count := n;
    }

    /** PT_SEM_SIGNAL_FROM_ISR: a bare increment, with no scheduling. */
    method SignalFromIsr()
      modifies this
      ensures count == old(count) + 1
    {
      count := count + 1;
    }
  }

  class Scheduler {
    /** pt_pool and the links of every item. */
    const pool: Ring
    const items: array<Item>
    const anchor: array<bool>

    ghost predicate Valid()
      reads this, pool, pool.prev, pool.next
    {
      && pool.Valid()
      && items.Length == pool.Capacity()
      && anchor.Length == pool.Capacity()
    }

    /** The handles of the pooled items, in list order. */
    ghost function Pool(): seq<int>
      reads this, pool
    {
      pool.Elems
    }

    /** An empty pool with room for `capacity - 1` items. */
    constructor (capacity: nat)
      requires capacity >= 1
      ensures Valid() && Pool() == [] && pool.Capacity() == capacity
      ensures fresh(pool) && fresh(pool.prev) && fresh(pool.next)
      ensures fresh(items) && fresh(anchor)
      ensures items.Length == anchor.Length == capacity
      ensures forall i | 0 <= i < capacity :: items[i] == Item(0, 0, Timer(0, 0)) && !anchor[i]
    {
      pool := new Ring(capacity);
      items := new Item[capacity](_ => Item(0, 0, Timer(0, 0)));
      anchor := new bool[capacity](_ => false);
    }

    /** pt_task_schedule: passes over the pool until one aggregates to
        PT_WAITING, unlinking an item and starting over whenever one
        reports PT_EXITED or PT_ENDED. At most `fuel` passes follow the
        first; the result says how many passes ran and whether the last
        one was quiescent. */
    method Schedule(resume: Oracle, fuel: nat) returns (passes: nat, quiesced: bool)
      requires Valid()
      modifies pool, pool.prev, pool.next
      ensures Valid()
      ensures var t := Cycle.Schedule(old(Pool()), resume, fuel);
              Pool() == t.pool && quiesced == t.quiesced && passes == |t.steps|
    {
      ghost var pool0 := Pool();
      ghost var target := Cycle.Schedule(pool0, resume, fuel);
      var round: nat := 0;
      var overall: Status;
      while true
        invariant Valid()
        invariant round <= fuel && round < |target.steps|
        invariant target.steps[round].pool == Pool()
        decreases fuel - round
      {
        overall := CyclePass(resume, round, pool0, fuel);
        if overall == Waiting || round == fuel {
          break;
        }
        round := round + 1;
      }
      quiesced := overall == Waiting;
      passes := round + 1;
    }

    /** One iteration of the do-while in pt_task_schedule, placed within
        the whole call that started from `pool0` with `fuel`: the pool
        is the one pass `round` starts from; after the pass, the loop
        test either goes on to pass `round + 1` over the pool this pass
        left, or ends the call here with the pool the call leaves. */
    method CyclePass(resume: Oracle, round: nat, ghost pool0: seq<int>, ghost fuel: nat) returns (overall: Status)
      requires Valid()
      requires var t := Cycle.Schedule(pool0, resume, fuel);
               round < |t.steps| && t.steps[round].pool == Pool()
      modifies pool, pool.prev, pool.next
      ensures Valid()
      ensures var t := Cycle.Schedule(pool0, resume, fuel);
              && (overall != Waiting && round < fuel ==> round + 1 < |t.steps| && t.steps[round + 1].pool == Pool())
              && (overall == Waiting || round == fuel ==>
                    round + 1 == |t.steps| && t.pool == Pool() && (t.quiesced <==> overall == Waiting))
    {
      ScheduleStep(pool0, resume, fuel, round);
      overall := RunPass(resume, round);
    }

    /** The body of the do-while in pt_task_schedule: one pass over the
        pool from its head, resuming each item in list order, ORing the
        statuses, and unlinking the first item that reports a finished
        status before stopping. */
    method RunPass(resume: Oracle, round: nat) returns (overall: Status)
      requires Valid()
      modifies pool, pool.prev, pool.next
      ensures Valid()
      ensures var r := Pass(old(Pool()), resume, round);
              overall == r.agg && Pool() == Remaining(old(Pool()), r)
    {
      ghost var p := Pool();
      overall := Waiting;
      var node := pool.next[Head];
      ghost var i: nat := 0;
      while node != Head
        invariant Valid() && Pool() == p
        invariant i <= |p| && node == AtOf(p, i)
        invariant PassFrom(p, resume, round, i, overall) == Pass(p, resume, round)
        decreases |p| - i
      {
        var state := resume(node, round);
        overall := Or(overall, state);
        if Terminated(state) {
          ghost var r := Pass(p, resume, round);
          assert r == PassResult(i + 1, overall, true);
          RemainingSpec(p, r);
          pool.Delete(node);
          return;
        }
        node := pool.next[node];
        i := i + 1;
      }
      assert i == |p|;
    }

    /** pt_task_idle_time: the smallest remaining time over the pooled
        items' timers, never more than the ceiling of 1000. */
    method IdleTime(remaining: Timer -> int) returns (t: int)
      requires Valid()
      ensures t <= IdleCap
      ensures forall x | x in Pool() :: t <= remaining(items[x].periodic)
      ensures t == IdleCap || exists x | x in Pool() :: t == remaining(items[x].periodic)
    {
      t := IdleCap;
      var node := pool.next[Head];
      ghost var i: nat := 0;
      while node != Head
        invariant i <= |Pool()| && node == AtOf(Pool(), i)
        invariant t <= IdleCap
        invariant forall j | 0 <= j < i :: t <= remaining(items[Pool()[j]].periodic)
        invariant t == IdleCap || exists j | 0 <= j < i :: t == remaining(items[Pool()[j]].periodic)
        decreases |Pool()| - i
      {
        var idle := remaining(items[node].periodic);
        if idle < t {
          t := idle;
        }
        node := pool.next[node];
        i := i + 1;
      }
      assert i == |Pool()|;
      forall x | x in Pool() ensures t <= remaining(items[x].periodic) {
        var j := IndexOf(Pool(), x);
        assert t <= remaining(items[Pool()[j]].periodic);
      }
    }

    /** PT_TASK_NUMS: the length of pt_pool. */
    method TaskNums() returns (n: nat)
      requires Valid()
      ensures n == |Pool()|
    {
      n := pool.Length();
    }

    /** PT_TASK_RUN: the item `h` (the static item of `func`) gets `func`
        as its task and a fresh continuation, and is linked at the head
        of the pool. */
    method TaskRun(h: int, func: int)
      requires Valid()
      requires Head < h < pool.Capacity() && h !in Pool()
      modifies pool, pool.prev, pool.next, items
      ensures Valid()
      ensures Pool() == [h] + old(Pool())
      ensures items[..] == old(items[..])[h := Item(func, 0, old(items[h].periodic))]
    {
      items[h] := items[h].(task := func, lc := 0);
      pool.AddHead(h);
    }

    /** PT_TASK_DELAY, reached by the running item `h`: arm `h`'s own
        timer for `ms` ticks from `now`, record the wait point `at` and
        test the timer; the task goes on only once the timer has
        expired. */
    method TaskDelayBegin(h: int, ms: int, now: int, at: int, expired: Timer -> bool) returns (proceeds: bool)
      requires Valid() && Head < h < pool.Capacity()
      modifies items
      ensures items[..] == old(items[..])[h := Item(old(items[h].task), at, Timer(now, ms))]
      ensures proceeds <==> expired(Timer(now, ms))
    {
      items[h] := items[h].(lc := at, periodic := Timer(now, ms));
      proceeds := TaskDelayResume(h, expired);
    }

    /** A later resumption of `h` at the wait point of PT_TASK_DELAY: the
        timer is not re-armed, only tested. */
    method TaskDelayResume(h: int, expired: Timer -> bool) returns (proceeds: bool)
      requires Valid() && Head < h < pool.Capacity()
      ensures proceeds <==> expired(items[h].periodic)
    {
      proceeds := expired(items[h].periodic);
    }

    /** PT_SEM_WAIT_TIMEOUT, reached by the running item `h`: arm `h`'s
        timer for `ms` ticks from `now`, record the wait point `at`, and
        wait until `s` has a count or the timer has expired. */
    method SemWaitTimeoutBegin(h: int, s: Semaphore, ms: int, now: int, at: int, expired: Timer -> bool)
      returns (w: WaitResult)
      requires Valid() && Head < h < pool.Capacity()
      modifies items, s
      ensures items[..] == old(items[..])[h := Item(old(items[h].task), at, Timer(now, ms))]
      ensures w != Blocked <==> SemReady(old(s.count), expired(Timer(now, ms)))
      ensures w == Blocked ==> s.count == old(s.count)
      ensures w != Blocked ==> (s.count, w.ret) == SemTake(old(s.count))
    {
      items[h] := items[h].(lc := at, periodic := Timer(now, ms));
      w := SemWaitTimeoutResume(h, s, expired);
    }

    /** A later resumption of `h` at the wait point of
        PT_SEM_WAIT_TIMEOUT: test again, and take the count (it wins
        over the timer) or report the timeout. */
    method SemWaitTimeoutResume(h: int, s: Semaphore, expired: Timer -> bool) returns (w: WaitResult)
      requires Valid() && Head < h < pool.Capacity()
      modifies s
      ensures w != Blocked <==> SemReady(old(s.count), expired(items[h].periodic))
      ensures w == Blocked ==> s.count == old(s.count)
      ensures w != Blocked ==> (s.count, w.ret) == SemTake(old(s.count))
    {
      if !(s.count > 0 || expired(items[h].periodic)) {
        return Blocked;
      }
      if s.count > 0 {
        s.count := s.count - 1;
        w := Proceed(0);
      } else {
        w := Proceed(1);
      }
    }

    /** PT_INVOK as the running item `parent` executes it: the site's
        static item `spawn` takes the parent's task function and is
        linked at the head of the pool, the anchor is cleared, the
        spawn's continuation is set to the site `site`, the anchor test
        skips the body, and the anchor is set. */
    method Invok(parent: int, spawn: int, site: int) returns (ranBody: bool)
      requires Valid()
      requires Head < parent < pool.Capacity() && Head < spawn < pool.Capacity()
      requires spawn !in Pool()
      modifies pool, pool.prev, pool.next, items, anchor
      ensures Valid()
      ensures Pool() == [spawn] + old(Pool())
      ensures items[..] == old(items[..])[spawn := Item(old(items[parent].task), site, old(items[spawn].periodic))]
      ensures anchor[..] == old(anchor[..])[spawn := true]
      ensures !ranBody
    {
      items[spawn] := items[spawn].(task := items[parent].task);
      pool.AddHead(spawn);
      anchor[spawn] := false;
      items[spawn] := items[spawn].(lc := site);
      ranBody := anchor[spawn];
      anchor[spawn] := true;
    }

    /** A resumption of the spawned item `spawn` at its PT_INVOK site:
        with the anchor set it runs the body, which either suspends
        (the item keeps its new continuation) or completes and reaches
        PT_EXIT (the continuation is reset and the item reports
        PT_EXITED); with the anchor clear it sets it and falls through. */
    method InvokResume(spawn: int, step: BodyStep) returns (o: SpawnOutcome)
      requires Valid() && Head < spawn < pool.Capacity()
      requires step.Suspend? ==> !Terminated(step.status)
      modifies items, anchor
      ensures old(anchor[spawn]) ==> anchor[..] == old(anchor[..])
      ensures !old(anchor[spawn]) ==> o == FellThrough && anchor[..] == old(anchor[..])[spawn := true]
      ensures old(anchor[spawn]) && step.Suspend? ==>
                o == BodyRan(step.status) && items[..] == old(items[..])[spawn := old(items[spawn]).(lc := step.at)]
      ensures old(anchor[spawn]) && step == Complete ==>
                o == BodyRan(Exited) && items[..] == old(items[..])[spawn := old(items[spawn]).(lc := 0)]
      ensures !old(anchor[spawn]) ==> items[..] == old(items[..])
    {
      if anchor[spawn] {
        match step
        case Suspend(at, status) =>
          items[spawn] := items[spawn].(lc := at);
          o := BodyRan(status);
        case Complete =>
          items[spawn] := items[spawn].(lc := 0);
          o := BodyRan(Exited);
      } else {
        anchor[spawn] := true;
        o := FellThrough;
      }
    }

    /** PT_INVOK followed by the spawn's first resumption: because the
        parent leaves the anchor set, that resumption already runs the
        body; a body that completes then reports PT_EXITED, so the next
        pass unlinks the spawn. */
    method InvokThenResume(parent: int, spawn: int, site: int, step: BodyStep)
      returns (ranBody: bool, o: SpawnOutcome)
      requires Valid()
      requires Head < parent < pool.Capacity() && Head < spawn < pool.Capacity()
      requires spawn !in Pool()
      requires step.Suspend? ==> !Terminated(step.status)
      modifies pool, pool.prev, pool.next, items, anchor
      ensures Valid() && Pool() == [spawn] + old(Pool())
      ensures !ranBody && o.BodyRan?
      ensures step == Complete ==> o == BodyRan(Exited) && items[spawn].lc == 0
      ensures step.Suspend? ==> o == BodyRan(step.status) && items[spawn].lc == step.at
      ensures items[spawn].task == old(items[parent].task)
    {
      ranBody := Invok(parent, spawn, site);
      o := InvokResume(spawn, step);
    }
  }
}
