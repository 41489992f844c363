/**
 The tracer's global state and the operations that update it in place.
 */
module Tracer {
  import opened Bookkeeping
  import opened Events

  /** wait_main handles at most this many notifications before it returns. */
  const BATCH: nat := 128

  class Server {
    var processes: map<Pid, Ref>
    var threads: map<Pid, Ref>
    var procs: map<Ref, Process>
    var thrs: map<Ref, Thread>
    var next: Ref
    var bad: bool

    function State(): World
      reads this
    {
      World(processes, threads, procs, thrs, next, bad)
    }

    constructor ()
      ensures AtRest(State()) && processes == map[] && threads == map[]
    {
      processes, threads, procs, thrs, next, bad := map[], map[], map[], map[], 0, false;
      new;
      assert forall p :: Live(thrs, p) == {};
    }

    method PutProcess(p: Ref)
      modifies this
      ensures State() == ProcessPut(old(State()), p)
    {
      if p !in procs || procs[p].references == 0 {
        bad := true;
        return;
      }
      var n := procs[p].references - 1;
      if n == 0 {
        if procs[p].threads != {} {
          bad := true;
          return;
        }
        procs := procs - {p};
      } else {
        procs := procs[p := procs[p].(references := n)];
      }
    }

    method DelProcess(p: Ref)
      modifies this
      ensures State() == ProcessDel(old(State()), p)
    {
      if p !in procs || procs[p].pid !in processes {
        bad := true;
        return;
      }
      processes := processes - {procs[p].pid};
      PutProcess(p);
    }

    /** thread_get */
    method GetThread(pid: Pid) returns (found: bool, t: Ref)
      modifies this
      ensures found == (pid in old(threads))
      ensures found ==> t == old(threads)[pid] && State() == ThreadDup(old(State()), t)
      ensures !found ==> State() == old(State())
    {
      found := pid in threads;
      t := 0;
      if found {
        t := threads[pid];
        DupThread(t);
      }
    }

    method DupThread(t: Ref)
      modifies this
      ensures State() == ThreadDup(old(State()), t)
    {
      if t !in thrs {
        bad := true;
        return;
      }
      thrs := thrs[t := thrs[t].(references := thrs[t].references + 1)];
    }

    method FreeThread(t: Ref)
      modifies this
      ensures State() == ThreadFree(old(State()), t)
    {
      if t !in thrs || thrs[t].process !in procs {
        bad := true;
        return;
      }
      var p := thrs[t].process;
      thrs := thrs - {t};
      if procs[p].threads == {} {
        DelProcess(p);
      }
      PutProcess(p);
    }

    method PutThread(t: Ref)
      modifies this
      ensures State() == ThreadPut(old(State()), t)
    {
      if t !in thrs || thrs[t].references == 0 {
        bad := true;
      } else if thrs[t].references == 1 {
        FreeThread(t);
      } else {
        thrs := thrs[t := thrs[t].(references := thrs[t].references - 1)];
      }
    }

    method DelThread(t: Ref)
      modifies this
      ensures State() == ThreadDel(old(State()), t)
    {
      if t !in thrs || thrs[t].process !in procs {
        bad := true;
        return;
      }
      var pid, p := thrs[t].pid, thrs[t].process;
      if pid !in threads || pid !in procs[p].threads {
        bad := true;
        return;
      }
      threads := threads - {pid};
      procs := procs[p := procs[p].(threads := procs[p].threads - {pid})];
      PutThread(t);
    }

    method ExitThread(t: Ref)
      modifies this
      ensures State() == ThreadExit(old(State()), t)
    {
      if t !in thrs {
        bad := true;
        return;
      }
      thrs := thrs[t := thrs[t].(running := false, dead := true)];
      DelThread(t);
    }

    method Resume(t: Ref, signo: nat, gone: bool)
      modifies this
      ensures State() == ContinueOrStop(old(State()), t, signo, gone)
    {
      if t !in thrs {
        bad := true;
        return;
      }
      var r := thrs[t];
      if r.dead || r.running {
        return;
      }
      if r.stopme || r.slavemode {
        thrs := thrs[t := r.(signo := if r.slavemode || signo != SIGSTOP then signo else 0, stopme := false)];
      } else {
        r := r.(notified := true, setoptions := false, signo := if signo == 0 then 0 else r.signo);
        if gone {
          thrs := thrs[t := r];
          ExitThread(t);
        } else {
          thrs := thrs[t := r.(running := true)];
        }
      }
    }

    /** thread_exec: thread_iter over the process, then the caller goes on alone. */
    method ExecThread(t: Ref, order: seq<Pid>, gone: bool)
      modifies this
      ensures State() == Exec(old(State()), t, order, gone)
    {
      var i := 0;
      while i < |order|
        invariant 0 <= i <= |order|
        invariant ExitOthers(old(State()), t, order) == ExitOthers(State(), t, order[i..])
      {
        assert order[i..][1..] == order[i + 1..];
        VisitThread(t, order[i]);
        i := i + 1;
      }
      if t !in thrs {
        bad := true;
        return;
      }
      thrs := thrs[t := thrs[t].(execed := true)];
      Resume(t, 0, gone);
    }

    method VisitThread(t: Ref, pid: Pid)
      modifies this
      ensures State() == ExitOther(old(State()), t, pid)
    {
      if pid !in threads {
        bad := true;
        return;
      }
      var u := threads[pid];
      DupThread(u);
      if u != t {
        ExitThread(u);
      }
      PutThread(u);
    }

    // ----- wait.c -----

    method DupProcess(p: Ref)
      modifies this
      ensures State() == ProcessDup(old(State()), p)
    {
      if p !in procs {
        bad := true;
        return;
      }
      procs := procs[p := procs[p].(references := procs[p].references + 1)];
    }

    method AddProcess(pid: Pid) returns (p: Ref)
      modifies this
      ensures (State(), p) == ProcessCreate(old(State()), pid)
    {
      p := next;
      if pid in processes {
        bad := true;
        return;
      }
      procs := procs[p := Process(pid, 2, {})];
      processes := processes[pid := p];
      next := next + 1;
    }

    method AddThread(p: Ref, pid: Pid) returns (t: Ref)
      modifies this
      ensures (State(), t) == ThreadCreate(old(State()), p, pid)
    {
      t := next;
      if p !in procs || pid in threads || pid in procs[p].threads {
        bad := true;
        return;
      }
      thrs := thrs[t := NewThread(pid, p)];
      procs := procs[p := procs[p].(references := procs[p].references + 1, threads := procs[p].threads + {pid})];
      threads := threads[pid := t];
      next := next + 1;
    }

    method AddChild(child: Pid, o: Origin) returns (t: Ref)
      modifies this
      ensures (State(), t) == CloneCreateChild(old(State()), child, o)
    {
      var p, q;
      if o.tgid in processes {
        p := processes[o.tgid];
        DupProcess(p);
        q := p;
        DupProcess(q);
      } else if o.ppid in processes {
        p := processes[o.ppid];
        DupProcess(p);
        q := AddProcess(child);
      } else {
        bad := true;
        return 0;
      }
      t := AddThread(q, child);
      if t !in thrs {
        bad := true;
      } else {
        thrs := thrs[t := thrs[t].(notified := false)];
      }
      PutProcess(p);
      PutProcess(q);
    }

    method ChildStopped(child: Pid, o: Origin, gone: bool)
      modifies this
      ensures State() == CloneChild(old(State()), child, o, gone)
    {
      var t := AddChild(child, o);
      Resume(t, 0, gone);
      PutThread(t);
    }

    method ParentCloned(t: Ref, child: Pid, o: Origin, gone: bool)
      modifies this
      ensures State() == CloneParent(old(State()), t, child, o, gone)
    {
      var found, c := GetThread(child);
      if !found {
        c := AddChild(child, o);
        if c !in thrs {
          bad := true;
          return;
        }
        thrs := thrs[c := thrs[c].(running := true)];
      }
      Resume(t, 0, gone);
      PutThread(c);
    }

    method StatusOf(t: Ref, e: Event)
      modifies this
      ensures State() == HandleStatus(old(State()), t, e)
    {
      if t !in thrs || thrs[t].references == 0 || (thrs[t].references == 1 && !thrs[t].dead) {
        bad := true;
        return;
      }
      thrs := thrs[t := Woken(thrs[t], e.status)];
      match e.status
      case Stopped(signo) => Resume(t, signo, e.gone);
      case Cloned(child) => ParentCloned(t, child, e.origin, e.gone);
      case Execed(order) => ExecThread(t, order, e.gone);
      case Exited => ExitThread(t);
    }

    method Notice(e: Event)
      modifies this
      ensures State() == Handle(old(State()), e)
    {
      var found, t := GetThread(e.pid);
      if found {
        StatusOf(t, e);
        PutThread(t);
      } else if e.status == Stopped(SIGSTOP) {
        ChildStopped(e.pid, e.origin, e.gone);
      }
    }

    /** Handles pending notifications, one batch at most, and says whether none is left. */
    method WaitMain(pending: seq<Event>) returns (handled: nat, idle: bool)
      requires AtRest(State()) && PlausibleRun(State(), pending)
      modifies this
      ensures handled == (if |pending| < BATCH then |pending| else BATCH) && idle == (|pending| < BATCH)
      ensures State() == HandleAll(old(State()), pending[..handled])
      ensures AtRest(State()) && PlausibleRun(State(), pending[handled..])
    {
      handled, idle := 0, false;
      var count := BATCH;
      while count > 0
        invariant 0 <= handled <= |pending| && 0 <= count && count + handled == BATCH && !idle
        invariant HandleAll(old(State()), pending[..handled]) == State()
        invariant AtRest(State()) && PlausibleRun(State(), pending[handled..])
      {
        count := count - 1;
        if handled == |pending| {
          idle := true;
          break;
        }
        EventKeepsRest(State(), pending[handled]);
        HandleOneMore(old(State()), pending, handled);
        assert pending[handled..][1..] == pending[handled + 1..];
        Notice(pending[handled]);
        handled := handled + 1;
      }
    }
  }

  lemma {:induction false} HandleOneMore(w: World, events: seq<Event>, n: nat)
    requires n < |events|
    ensures HandleAll(w, events[..n + 1]) == Handle(HandleAll(w, events[..n]), events[n])
    decreases n
  {
    if n > 0 {
      var w1 := Handle(w, events[0]);
      HandleOneMore(w1, events[1..], n - 1);
      assert events[..n + 1][1..] == events[1..][..n] && events[..n][1..] == events[1..][..n - 1];
    } else {
      assert events[..1] == [events[0]];
    }
  }
}
