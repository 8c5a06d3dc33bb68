/** The scheduler and process-table loops as the kernel runs them, and their fairness (kernel/src/proc.c). */
module Scheduling {
  import opened Procs
  import opened WaitProtocol

  // ------------------------------------------------------------------ loops

  class ProcTable {
    var st: State

    constructor (init: State)
      requires Idle(init) && init.cur < MAX_PROCS
      ensures st == init
    {
      st := init;
    }

    /** `alloc_proc` with the fields `exec_helper` fills in; it panics when no slot is unused. */
    method AllocProc(parentPid: nat, parentIdx: nat, cwd: nat, fds: seq<Fd>) returns (ok: bool)
      modifies this
      ensures ok <==> Exec(old(st), parentPid, parentIdx, cwd, fds).Some?
      ensures ok ==> Some(st) == Exec(old(st), parentPid, parentIdx, cwd, fds)
      ensures !ok ==> st == old(st)
    {
      var i := 0;
      while i < |st.procs|
        invariant i <= |st.procs| && st == old(st)
        invariant FirstUnused(st.procs, 0) == FirstUnused(st.procs, i)
      {
        if st.procs[i].status == Unused {
          st := st.(procs := st.procs[i := Proc(st.nextPid, Embryo, parentPid, parentIdx, 0, 0, cwd, fds)]);
          st := st.(nextPid := st.nextPid + 1);
          return true;
        }
        i := i + 1;
      }
      ok := false;
    }

    /** `sys_wait` up to the context switch. */
    method SysWait(pid: nat) returns (found: bool)
      requires st.cur < |st.procs|
      modifies this
      ensures found <==> CanWait(old(st), pid)
      ensures st == Wait(old(st), pid)
    {
      found := false;
      var i := 0;
      while i < |st.procs|
        invariant i <= |st.procs| && !found
        invariant FindPid(st.procs, pid, 0) == FindPid(st.procs, pid, i)
      {
        if st.procs[i].pid == pid {
          if st.procs[i].parentPid == st.procs[st.cur].pid {
            found := true;
          }
          break;
        }
        i := i + 1;
      }
      if found {
        st := SetCur(st, st.procs[st.cur].(status := WaitingOnPid, waitingOn := i));
      }
    }

    /** `scheduler`: it terminates because idle can always run; `false` is the panic of a failed respawn. */
    method Scheduler(env: Env) returns (ok: bool)
      requires Idle(st) && st.cur < MAX_PROCS
      modifies this
      ensures ok <==> Pick(old(st), env, old(st).cur).Some?
      ensures ok ==> Some(st) == Pick(old(st), env, old(st).cur)
    {
      var i := st.cur;
      ghost var start := st;
      while true
        invariant Idle(st) && 0 <= i < MAX_PROCS
        invariant Pick(start, env, start.cur) == Pick(st, env, i)
        decreases MAX_PROCS - i
      {
        i := (i + 1) % MAX_PROCS;
        var v := VisitSlot(st, env, i);
        match v
        case Chosen(st') =>
          st := st';
          return true;
        case Panic =>
          return false;
        case Pass(st') =>
          VisitKeepsIdle(st, env, i);
          st := st';
      }
    }
  }

  // --------------------------------------------------------------- fairness

  /** Steps from slot `i` to slot `q` around the table, at least one. */
  function Distance(i: nat, q: nat): (d: nat)
    requires i < MAX_PROCS && q < MAX_PROCS
    ensures 1 <= d <= MAX_PROCS
  {
    if i < q then q - i else q + MAX_PROCS - i
  }

  /** Nothing but its turn keeps the process from running. */
  ghost predicate Ready(st: State, q: nat)
    requires |st.procs| == MAX_PROCS && q < MAX_PROCS
  {
    || st.procs[q].status == Embryo || st.procs[q].status == Runnable
    || (st.procs[q].status == WaitingOnPid && st.procs[q].waitingOn < MAX_PROCS
        && st.procs[st.procs[q].waitingOn].status == Killed)
  }

  /** A pass over another slot leaves a ready process ready. */
  lemma PassKeepsReady(st: State, h: History, env: Env, i: nat, q: nat)
    requires Inv(st, h) && i < MAX_PROCS && q < MAX_PROCS && i != q && Ready(st, q)
    ensures var v := VisitSlot(st, env, i);
            !v.Panic? ==> |v.st.procs| == MAX_PROCS && Ready(v.st, q)
  {
    VisitLeavesWaiting(st, env, i, q);
    var w := st.procs[q].waitingOn;
    if st.procs[q].status == WaitingOnPid {
      assert WaitOk(st, h, q) && ChildKept(st, w, q);
      if w != i {
        VisitLeavesWaiting(st, env, i, w);
      }
    }
  }

  /** The scheduler never runs past a ready process: it stops there, or at a slot before it. */
  lemma {:induction false} PickProgress(st: State, h: History, env: Env, i: nat, q: nat)
    requires Inv(st, h) && i < MAX_PROCS && q < MAX_PROCS && Ready(st, q)
    ensures var r := Pick(st, env, i);
            r.Some? ==>
              && |r.value.procs| == MAX_PROCS && r.value.cur < MAX_PROCS
              && (r.value.cur != q ==> Ready(r.value, q) && Distance(r.value.cur, q) < Distance(i, q))
    decreases MAX_PROCS - i
  {
    hide Inv, Ready, VisitSlot, Distance;
    var next := (i + 1) % MAX_PROCS;
    SlotsKnown(st, h);
    VisitKeeps(st, h, env, next);
    DistanceShrinks(i, q);
    var v := VisitSlot(st, env, next);
    if next != q {
      PassKeepsReady(st, h, env, next, q);
      IdleChosen(st, env);
      if v.Pass? {
        SlotsKnown(v.st, h);
        PickProgress(v.st, h, env, next, q);
      }
    } else {
      ReadyChosen(st, env, q);
    }
  }

  lemma SlotsKnown(st: State, h: History)
    requires Inv(st, h)
    ensures Idle(st) && |st.procs| == MAX_PROCS && st.cur < MAX_PROCS
  {
  }

  lemma IdleChosen(st: State, env: Env)
    requires Idle(st)
    ensures VisitSlot(st, env, 0).Chosen?
  {
  }

  lemma DistanceShrinks(i: nat, q: nat)
    requires i < MAX_PROCS && q < MAX_PROCS
    ensures var next := (i + 1) % MAX_PROCS; next != q ==> Distance(next, q) < Distance(i, q)
  {
  }

  lemma ReadyChosen(st: State, env: Env, q: nat)
    requires |st.procs| == MAX_PROCS && q < MAX_PROCS && Ready(st, q)
    ensures VisitSlot(st, env, q).Chosen? && VisitSlot(st, env, q).st.cur == q
            && |VisitSlot(st, env, q).st.procs| == MAX_PROCS
  {
  }

  /** What any other event does to a ready process that is not running: nothing that matters. */
  lemma SyscallKeepsReady(st: State, h: History, ev: Event, q: nat)
    requires Inv(st, h) && q < MAX_PROCS && q != st.cur && Ready(st, q) && !ev.Switch?
    ensures var r := Step(st, h, ev);
            r.Some? ==> |r.value.0.procs| == MAX_PROCS && Ready(r.value.0, q) && r.value.0.cur == st.cur
  {
    if st.procs[q].status == WaitingOnPid {
      assert WaitOk(st, h, q) && ChildKept(st, st.procs[q].waitingOn, q);
    }
  }

  /** At least one of the events is a context switch to `q`. */
  ghost predicate ChosenIn(st: State, h: History, events: seq<Event>, q: nat)
    decreases |events|
  {
    && events != []
    && var r := Step(st, h, events[0]);
       && r.Some?
       && ((events[0].Switch? && r.value.0.cur == q) || ChosenIn(r.value.0, r.value.1, events[1..], q))
  }

  ghost function Switches(events: seq<Event>): (n: nat)
    decreases |events|
  {
    if events == [] then 0 else (if events[0].Switch? then 1 else 0) + Switches(events[1..])
  }

  /**
   * Fairness: a ready process is chosen within as many scheduler calls as its slot is away, so
   * within MAX_PROCS calls, whatever the other processes do in between.
   */
  lemma {:induction false} ReadyIsChosen(st: State, h: History, events: seq<Event>, q: nat)
    requires Inv(st, h) && q < MAX_PROCS && q != st.cur && Ready(st, q)
    requires Run(st, h, events).Some? && Switches(events) >= Distance(st.cur, q)
    ensures ChosenIn(st, h, events, q)
    decreases |events|
  {
    var ev := events[0];
    var r := Step(st, h, ev);
    StepKeeps(st, h, ev);
    if ev.Switch? {
      PickProgress(st, h, ev.env, st.cur, q);
      var picked := Pick(st, ev.env, st.cur).value;
      if picked.cur != q {
        StartKeepsReady(picked, q);
        ReadyIsChosen(r.value.0, r.value.1, events[1..], q);
      }
    } else {
      SyscallKeepsReady(st, h, ev, q);
      ReadyIsChosen(r.value.0, r.value.1, events[1..], q);
    }
  }

  lemma StartKeepsReady(st: State, q: nat)
    requires |st.procs| == MAX_PROCS && st.cur < MAX_PROCS && q < MAX_PROCS && q != st.cur && Ready(st, q)
    ensures Ready(SetCur(st, Started(st.procs[st.cur])), q)
  {
  }
}
