/**
 * The scheduling cycle of pt_plus.c as a pure specification.
 *
 * The pool is the ring order of the task list (a sequence of item
 * handles, head first). A task body is not modelled: each resumption's
 * status comes from an oracle `resume(item, pass)`, where `pass` counts
 * the passes of the current cycle from 0. Because an item is resumed at
 * most once per pass, the pair names one resumption.
 */
module Cycle {
  import opened IntrusiveList

  /** The protothread status values: a task returns one of four, and
      the scheduler keeps them (and their OR) in an `int`. */
  type Status = s: int | 0 <= s <= 3

  const Waiting: Status := 0
  const Yielded: Status := 1
  const Exited: Status := 2
  const Ended: Status := 3

  /** A status at or above PT_EXITED reports a finished task. */
  predicate Terminated(s: Status) {
    s >= Exited
  }

  /** Bitwise OR of two statuses. On values below 4 it is the other
      operand when one is 0 or both are equal, and 3 (both bits) when
      they are two different non-zero values. */
  function Or(a: Status, b: Status): (c: Status)
    ensures c == 0 <==> a == 0 && b == 0
    ensures a <= c && b <= c
    ensures Terminated(a) || Terminated(b) <==> Terminated(c)
  {
    if a == 0 || a == b then b else if b == 0 then a else 3
  }

  /** The task bodies, as a script of statuses. */
  type Oracle = (int, nat) -> Status

  /** What one pass did: it resumed the first `count` items of the pool,
      ORed their statuses into `agg`, and when `exited` holds it stopped
      at the last of them and unlinked it. */
  datatype PassResult = PassResult(count: nat, agg: Status, exited: bool)

  /** The rest of a pass that has resumed the first `i` items with
      aggregate `acc`. */
  function PassFrom(pool: seq<int>, resume: Oracle, pass: nat, i: nat, acc: Status): (r: PassResult)
    requires i <= |pool|
    ensures i <= r.count <= |pool|
    ensures r.exited ==> i < r.count
    ensures !r.exited ==> r.count == |pool|
    decreases |pool| - i
  {
    if i == |pool| then PassResult(i, acc, false)
    else
      var s := resume(pool[i], pass);
      if Terminated(s) then PassResult(i + 1, Or(acc, s), true)
      else PassFrom(pool, resume, pass, i + 1, Or(acc, s))
  }

  /** A pass resumes items in list order and stops right after the first
      one that reports termination; without one it reaches the end of the
      pool. */
  lemma {:induction false} StopsAtFirstExit(pool: seq<int>, resume: Oracle, pass: nat, i: nat, acc: Status)
    requires i <= |pool|
    ensures var r := PassFrom(pool, resume, pass, i, acc);
            && (r.exited ==> Terminated(resume(pool[r.count - 1], pass)))
            && (r.exited ==> forall j | i <= j < r.count - 1 :: !Terminated(resume(pool[j], pass)))
            && (!r.exited ==> forall j | i <= j < |pool| :: !Terminated(resume(pool[j], pass)))
    decreases |pool| - i
  {
    if i < |pool| && !Terminated(resume(pool[i], pass)) {
      StopsAtFirstExit(pool, resume, pass, i + 1, Or(acc, resume(pool[i], pass)));
    }
  }

  lemma PassOrder(pool: seq<int>, resume: Oracle, pass: nat)
    ensures var r := Pass(pool, resume, pass);
            && (r.exited ==> Terminated(resume(pool[r.count - 1], pass)))
            && (r.exited ==> forall j | 0 <= j < r.count - 1 :: !Terminated(resume(pool[j], pass)))
            && (!r.exited ==> r.count == |pool| && forall j | 0 <= j < |pool| :: !Terminated(resume(pool[j], pass)))
  {
    StopsAtFirstExit(pool, resume, pass, 0, 0);
  }

  /** One pass of the do-while body: from the head, aggregate 0. */
  function Pass(pool: seq<int>, resume: Oracle, pass: nat): PassResult {
    PassFrom(pool, resume, pass, 0, 0)
  }

  /** The aggregate of a pass is PT_WAITING exactly when every item it
      resumed returned PT_WAITING. */
  lemma {:induction false} AggregateFrom(pool: seq<int>, resume: Oracle, pass: nat, i: nat, acc: Status)
    requires i <= |pool|
    ensures var r := PassFrom(pool, resume, pass, i, acc);
            r.agg == 0 <==> acc == 0 && forall j | i <= j < r.count :: resume(pool[j], pass) == Waiting
    decreases |pool| - i
  {
    var r := PassFrom(pool, resume, pass, i, acc);
    if i < |pool| {
      var s := resume(pool[i], pass);
      if !Terminated(s) {
        AggregateFrom(pool, resume, pass, i + 1, Or(acc, s));
        assert r == PassFrom(pool, resume, pass, i + 1, Or(acc, s));
      }
    }
  }

  lemma PassAggregate(pool: seq<int>, resume: Oracle, pass: nat)
    ensures var r := Pass(pool, resume, pass);
            r.agg == 0 <==> forall j | 0 <= j < r.count :: resume(pool[j], pass) == Waiting
  {
    AggregateFrom(pool, resume, pass, 0, 0);
  }

  /** A terminated status is ORed in before the break, so a pass that
      unlinks an item never has aggregate PT_WAITING. */
  lemma {:induction false} ExitFrom(pool: seq<int>, resume: Oracle, pass: nat, i: nat, acc: Status)
    requires i <= |pool|
    ensures PassFrom(pool, resume, pass, i, acc).exited ==> PassFrom(pool, resume, pass, i, acc).agg != 0
    decreases |pool| - i
  {
    if i < |pool| {
      var s := resume(pool[i], pass);
      if !Terminated(s) {
        ExitFrom(pool, resume, pass, i + 1, Or(acc, s));
      }
    }
  }

  lemma ExitForcesAnotherPass(pool: seq<int>, resume: Oracle, pass: nat)
    ensures Pass(pool, resume, pass).exited ==> Pass(pool, resume, pass).agg != 0
  {
    ExitFrom(pool, resume, pass, 0, 0);
  }

  /** The pool after a pass: the item that reported termination, if
      any, is unlinked. */
  function Remaining(pool: seq<int>, r: PassResult): seq<int> {
    if r.exited && 0 < r.count <= |pool| then pool[..r.count - 1] + pool[r.count..] else pool
  }

  /** Unlinking after a pass removes exactly the terminated item and
      keeps the other items in their order. */
  lemma RemainingSpec(pool: seq<int>, r: PassResult)
    requires Distinct(pool)
    requires r.count <= |pool| && (r.exited ==> 0 < r.count)
    ensures r.exited ==> Remaining(pool, r) == Without(pool, pool[r.count - 1])
    ensures |Remaining(pool, r)| == if r.exited then |pool| - 1 else |pool|
    ensures Distinct(Remaining(pool, r))
    ensures r.exited ==> pool[r.count - 1] !in Remaining(pool, r)
    ensures forall x | x in Remaining(pool, r) :: x in pool
  {
    if r.exited {
      var x := pool[r.count - 1];
      var k := IndexOf(pool, x);
      DistinctUnique(pool, r.count - 1);
      assert k == r.count - 1;
      WithoutSpec(pool, x);
      assert Remaining(pool, r) == Without(pool, x);
    }
  }

  /** What a pass does to a pool, given the pass number: what it
      reported, and the pool it leaves. */
  type Passes = (seq<int>, nat) -> (PassResult, seq<int>)

  /** The passes of pt_task_schedule: the oracle's statuses, pass by
      pass, and the unlinking of a terminated item. */
  function PassesOf(resume: Oracle): Passes {
    (pool: seq<int>, pass: nat) =>
      var r := Pass(pool, resume, pass);
      (r, Remaining(pool, r))
  }

  /** One pass: its number within the cycle, the pool it started from,
      what it did and the pool it left. */
  datatype Step = Step(pass: nat, pool: seq<int>, result: PassResult, left: seq<int>)

  /** A whole call of the scheduler: its passes, the pool it leaves, and
      whether it ended on a quiescent pass (as opposed to running out of
      the pass budget). */
  datatype Run = Run(steps: seq<Step>, pool: seq<int>, quiesced: bool)

  /** The do-while loop from pass number `pass` on: run a pass, unlink
      what it reported terminated, and go again unless the aggregate was
      PT_WAITING; `fuel` more passes may follow this one. */
  function CycleFrom(pool: seq<int>, step: Passes, pass: nat, fuel: nat): (t: Run)
    ensures 0 < |t.steps| <= fuel + 1
    decreases fuel
  {
    var (r, rest) := step(pool, pass);
    if r.agg == 0 then Run([Step(pass, pool, r, rest)], rest, true)
    else if fuel == 0 then Run([Step(pass, pool, r, rest)], rest, false)
    else
      var t := CycleFrom(rest, step, pass + 1, fuel - 1);
      Run([Step(pass, pool, r, rest)] + t.steps, t.pool, t.quiesced)
  }

  /** One call of pt_task_schedule, with at most `fuel` passes after the
      first. */
  function Schedule(pool: seq<int>, resume: Oracle, fuel: nat): Run {
    CycleFrom(pool, PassesOf(resume), 0, fuel)
  }

  /** One unfolding of CycleFrom: the first pass, then either the end
      of the cycle or the rest of it. */
  lemma CycleUnfold(pool: seq<int>, step: Passes, pass: nat, fuel: nat)
    ensures var t := CycleFrom(pool, step, pass, fuel);
            var (r, rest) := step(pool, pass);
            && t.steps[0] == Step(pass, pool, r, rest)
            && (r.agg == 0 || fuel == 0 ==>
                  |t.steps| == 1 && t.pool == rest && (t.quiesced <==> r.agg == 0))
            && (r.agg != 0 && fuel > 0 ==>
                  var u := CycleFrom(rest, step, pass + 1, fuel - 1);
                  && t.steps == [t.steps[0]] + u.steps
                  && t.pool == u.pool && t.quiesced == u.quiesced)
  {
  }

  /** An item at the head of the pool that reports a finished status is
      the only item that pass resumes, and the pass unlinks it and
      leaves the rest of the pool as it was. */
  lemma HeadExitUnlinked(first: int, rest: seq<int>, resume: Oracle, pass: nat)
    requires Terminated(resume(first, pass))
    ensures var r := Pass([first] + rest, resume, pass);
            r == PassResult(1, resume(first, pass), true) && Remaining([first] + rest, r) == rest
  {
    var pool := [first] + rest;
    assert pool[1..] == rest;
  }

  /** Pass k of a cycle: it is numbered k (counting on from `pass`), it
      is the given pass function applied to its pool, the first pass
      starts from the given pool, and a pass that is not the last had a
      non-Waiting aggregate and hands its remaining pool to the next. */
  lemma {:induction false} StepAt(pool: seq<int>, step: Passes, pass: nat, fuel: nat, k: nat)
    requires k < |CycleFrom(pool, step, pass, fuel).steps|
    ensures var t := CycleFrom(pool, step, pass, fuel);
            && t.steps[k].pass == pass + k
            && (t.steps[k].result, t.steps[k].left) == step(t.steps[k].pool, t.steps[k].pass)
            && (k == 0 ==> t.steps[k].pool == pool)
            && (k + 1 < |t.steps| ==>
                  t.steps[k].result.agg != 0 && t.steps[k + 1].pool == t.steps[k].left)
    decreases fuel
  {
    var t := CycleFrom(pool, step, pass, fuel);
    var (r, rest) := step(pool, pass);
    CycleUnfold(pool, step, pass, fuel);
    if 1 < |t.steps| {
      var u := CycleFrom(rest, step, pass + 1, fuel - 1);
      assert t.steps[1] == u.steps[0];
      if k == 0 {
        CycleUnfold(rest, step, pass + 1, fuel - 1);
      } else {
        StepAt(rest, step, pass + 1, fuel - 1, k - 1);
        assert t.steps[k] == u.steps[k - 1];
        if k + 1 < |t.steps| {
          assert t.steps[k + 1] == u.steps[k];
        }
      }
    }
  }

  /** A cycle leaves the pool its last pass left. */
  lemma {:induction false} CycleEnd(pool: seq<int>, step: Passes, pass: nat, fuel: nat)
    ensures var t := CycleFrom(pool, step, pass, fuel);
            t.pool == t.steps[|t.steps| - 1].left
    decreases fuel
  {
    var t := CycleFrom(pool, step, pass, fuel);
    var (r, rest) := step(pool, pass);
    CycleUnfold(pool, step, pass, fuel);
    if r.agg != 0 && fuel > 0 {
      var u := CycleFrom(rest, step, pass + 1, fuel - 1);
      CycleEnd(rest, step, pass + 1, fuel - 1);
      assert t.steps[|t.steps| - 1] == u.steps[|u.steps| - 1];
    }
  }

  /** A cycle quiesced exactly when its last pass aggregated to
      PT_WAITING; one that did not quiesce used up its whole budget of
      passes. */
  lemma {:induction false} CycleQuiesced(pool: seq<int>, step: Passes, pass: nat, fuel: nat)
    ensures var t := CycleFrom(pool, step, pass, fuel);
            && (t.quiesced <==> t.steps[|t.steps| - 1].result.agg == 0)
            && (!t.quiesced ==> |t.steps| == fuel + 1)
    decreases fuel
  {
    var t := CycleFrom(pool, step, pass, fuel);
    var (r, rest) := step(pool, pass);
    CycleUnfold(pool, step, pass, fuel);
    if r.agg != 0 && fuel > 0 {
      var u := CycleFrom(rest, step, pass + 1, fuel - 1);
      CycleQuiesced(rest, step, pass + 1, fuel - 1);
      assert t.steps[|t.steps| - 1] == u.steps[|u.steps| - 1];
    }
  }

  /** Pass k of a call of pt_task_schedule, as the loop sees it: it is
      the pass numbered k over the pool it starts from (the given pool
      when k is 0); after it, the loop test either goes on to pass k + 1
      over the pool this pass left, or ends the call with that pool,
      quiescent exactly when the pass aggregated to PT_WAITING. */
  lemma ScheduleStep(pool: seq<int>, resume: Oracle, fuel: nat, k: nat)
    requires k < |Schedule(pool, resume, fuel).steps|
    ensures var t := Schedule(pool, resume, fuel);
            var s := t.steps[k];
            && s.result == Pass(s.pool, resume, k)
            && s.left == Remaining(s.pool, s.result)
            && (k == 0 ==> s.pool == pool)
            && (s.result.agg != 0 && k < fuel ==> k + 1 < |t.steps| && t.steps[k + 1].pool == s.left)
            && (s.result.agg == 0 || k == fuel ==>
                  k + 1 == |t.steps| && t.pool == s.left && (t.quiesced <==> s.result.agg == 0))
  {
    var t := Schedule(pool, resume, fuel);
    StepAt(pool, PassesOf(resume), 0, fuel, k);
    CycleQuiesced(pool, PassesOf(resume), 0, fuel);
    CycleEnd(pool, PassesOf(resume), 0, fuel);
    var s := t.steps[k];
    assert (s.result, s.left) == PassesOf(resume)(s.pool, k);
  }

  /** pt_task_schedule returns only after a pass that resumed every item
      of the pool it started from, each of which returned PT_WAITING;
      that pass unlinked nothing. */
  lemma QuiescentLastPass(pool: seq<int>, resume: Oracle, fuel: nat)
    ensures var t := Schedule(pool, resume, fuel);
            var last := t.steps[|t.steps| - 1];
            t.quiesced ==>
              && !last.result.exited
              && last.result.count == |last.pool|
              && t.pool == last.pool
              && last.pass == |t.steps| - 1
              && forall j | 0 <= j < |last.pool| :: resume(last.pool[j], last.pass) == Waiting
  {
    var t := Schedule(pool, resume, fuel);
    var n := |t.steps| - 1;
    var last := t.steps[n];
    CycleEnd(pool, PassesOf(resume), 0, fuel);
    CycleQuiesced(pool, PassesOf(resume), 0, fuel);
    StepAt(pool, PassesOf(resume), 0, fuel, n);
    if t.quiesced {
      assert last.result == Pass(last.pool, resume, last.pass);
      assert last.left == Remaining(last.pool, last.result);
      ExitForcesAnotherPass(last.pool, resume, last.pass);
      PassAggregate(last.pool, resume, last.pass);
    }
  }

  /** A pass that unlinks an item is never the last pass of a call of
      pt_task_schedule that quiesced. */
  lemma ExitNeverEndsCycle(pool: seq<int>, resume: Oracle, fuel: nat)
    ensures var t := Schedule(pool, resume, fuel);
            forall k | 0 <= k < |t.steps| && t.steps[k].result.exited ::
              k < |t.steps| - 1 || !t.quiesced
  {
    var t := Schedule(pool, resume, fuel);
    CycleQuiesced(pool, PassesOf(resume), 0, fuel);
    forall k | 0 <= k < |t.steps| && t.steps[k].result.exited
      ensures k < |t.steps| - 1 || !t.quiesced
    {
      StepAt(pool, PassesOf(resume), 0, fuel, k);
      assert t.steps[k].result == Pass(t.steps[k].pool, resume, t.steps[k].pass);
      ExitForcesAnotherPass(t.steps[k].pool, resume, t.steps[k].pass);
    }
  }

  /** How many passes of a run unlinked an item. */
  function Exits(steps: seq<Step>): nat {
    if steps == [] then 0
    else (if steps[0].result.exited then 1 else 0) + Exits(steps[1..])
  }

  /** Each pass of pt_task_schedule shrinks the pool by one item exactly
      when it unlinked one; the pool stays free of duplicates and gains
      nothing. */
  lemma {:induction false} PoolShrinks(pool: seq<int>, resume: Oracle, pass: nat, fuel: nat)
    requires Distinct(pool)
    ensures var t := CycleFrom(pool, PassesOf(resume), pass, fuel);
            && Distinct(t.pool)
            && (forall x | x in t.pool :: x in pool)
            && |t.pool| == |pool| - Exits(t.steps)
    decreases fuel
  {
    var step := PassesOf(resume);
    var t := CycleFrom(pool, step, pass, fuel);
    var r := Pass(pool, resume, pass);
    var rest := Remaining(pool, r);
    assert step(pool, pass) == (r, rest);
    RemainingSpec(pool, r);
    CycleUnfold(pool, step, pass, fuel);
    if r.agg == 0 || fuel == 0 {
      assert Exits(t.steps) == (if r.exited then 1 else 0) + Exits(t.steps[1..]);
    } else {
      var u := CycleFrom(rest, step, pass + 1, fuel - 1);
      PoolShrinks(rest, resume, pass + 1, fuel - 1);
      assert t.steps[1..] == u.steps;
    }
  }

  /** On an empty pool pt_task_schedule makes one empty pass and
      returns. */
  lemma EmptyPool(resume: Oracle, fuel: nat)
    ensures Schedule([], resume, fuel) == Run([Step(0, [], PassResult(0, 0, false), [])], [], true)
  {
  }
}
