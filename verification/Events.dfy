/**
 The stream of wait notifications, and what each does to the records of processes and threads.
 */
module Events {
  import opened Bookkeeping

  const SIGSTOP: nat := 19

  /** Replacing a thread record by one with the same identity. */
  function Set(w: World, t: Ref, r: Thread): World { w.(thrs := w.thrs[t := r]) }

  // ----- thread.c -----

  function Parked(r: Thread, signo: nat): Thread {
    r.(signo := if r.slavemode || signo != SIGSTOP then signo else 0, stopme := false)
  }

  function Continued(r: Thread, signo: nat): Thread {
    r.(notified := true, setoptions := false, signo := if signo == 0 then 0 else r.signo, running := true)
  }

  function ThreadExit(w: World, t: Ref): World {
    if t !in w.thrs then Bad(w) else ThreadDel(Set(w, t, w.thrs[t].(running := false, dead := true)), t)
  }

  /** gone: the kernel refuses to continue the thread because it has died. */
  function ContinueOrStop(w: World, t: Ref, signo: nat, gone: bool): World {
    if t !in w.thrs then Bad(w)
    else
      var r := w.thrs[t];
      if r.dead || r.running then w
      else if r.stopme || r.slavemode then Set(w, t, Parked(r, signo))
      else if gone then ThreadExit(Set(w, t, Continued(r, signo).(running := false)), t)
      else Set(w, t, Continued(r, signo))
  }

  /** One callback of thread_exec, within thread_iter. */
  function ExitOther(w: World, t: Ref, pid: Pid): World {
    if pid !in w.threads then Bad(w)
    else
      var u := w.threads[pid];
      var w1 := ThreadDup(w, u);
      ThreadPut(if u != t then ThreadExit(w1, u) else w1, u)
  }

  function ExitOthers(w: World, t: Ref, order: seq<Pid>): World
    decreases |order|
  {
    if order == [] then w else ExitOthers(ExitOther(w, t, order[0]), t, order[1..])
  }

  function Exec(w: World, t: Ref, order: seq<Pid>, gone: bool): World {
    var w1 := ExitOthers(w, t, order);
    if t !in w1.thrs then Bad(w1)
    else ContinueOrStop(Set(w1, t, w1.thrs[t].(execed := true)), t, 0, gone)
  }

  // ----- wait.c -----

  /** What procfs says of the child of a clone. */
  datatype Origin = Origin(tgid: Pid, ppid: Pid)

  /** The new thread t in process q, while references to q and the parent p are held. */
  datatype Made = Made(w: World, p: Ref, q: Ref, t: Ref)

  function MakeChild(w: World, child: Pid, o: Origin): Made
    requires o.tgid in w.processes || o.ppid in w.processes
  {
    if o.tgid in w.processes then
      var p := w.processes[o.tgid];
      var (w1, t) := ThreadCreate(ProcessDup(ProcessDup(w, p), p), p, child);
      Made(Unnotified(w1, t), p, p, t)
    else
      var p := w.processes[o.ppid];
      var (w1, q) := ProcessCreate(ProcessDup(w, p), child);
      var (w2, t) := ThreadCreate(w1, q, child);
      Made(Unnotified(w2, t), p, q, t)
  }

  function CloneCreateChild(w: World, child: Pid, o: Origin): (World, Ref) {
    if o.tgid !in w.processes && o.ppid !in w.processes then (Bad(w), 0)
    else
      var m := MakeChild(w, child, o);
      (ProcessPut(ProcessPut(m.w, m.p), m.q), m.t)
  }

  function Unnotified(w: World, t: Ref): World {
    if t !in w.thrs then Bad(w) else Set(w, t, w.thrs[t].(notified := false))
  }

  function CloneChild(w: World, child: Pid, o: Origin, gone: bool): World {
    var (w1, t) := CloneCreateChild(w, child, o);
    ThreadPut(ContinueOrStop(w1, t, 0, gone), t)
  }

  function CloneParent(w: World, t: Ref, child: Pid, o: Origin, gone: bool): World {
    if child in w.threads then
      var c := w.threads[child];
      ThreadPut(ContinueOrStop(ThreadDup(w, c), t, 0, gone), c)
    else
      var (w1, c) := CloneCreateChild(w, child, o);
      if c !in w1.thrs then Bad(w1)
      else ThreadPut(ContinueOrStop(Set(w1, c, w1.thrs[c].(running := true)), t, 0, gone), c)
  }

  datatype Status =
    | Stopped(signo: nat)
    | Cloned(child: Pid)
    | Execed(order: seq<Pid>)  // the order in which thread_iter visits
    | Exited

  datatype Event = Event(pid: Pid, status: Status, origin: Origin, gone: bool)

  function HandleStatus(w: World, t: Ref, e: Event): World {
    if t !in w.thrs || w.thrs[t].references == 0 || (w.thrs[t].references == 1 && !w.thrs[t].dead) then Bad(w)
    else React(Set(w, t, Woken(w.thrs[t], e.status)), t, e)
  }

  function Woken(r: Thread, s: Status): Thread {
    r.(running := false, setoptions := r.setoptions || s.Cloned? || s.Execed?)
  }

  function React(w: World, t: Ref, e: Event): World {
    match e.status
    case Stopped(signo) => ContinueOrStop(w, t, signo, e.gone)
    case Cloned(child) => CloneParent(w, t, child, e.origin, e.gone)
    case Execed(order) => Exec(w, t, order, e.gone)
    case Exited => ThreadExit(w, t)
  }

  /** One turn of wait_main. */
  function Handle(w: World, e: Event): World {
    if e.pid in w.threads then
      var t := w.threads[e.pid];
      ThreadPut(HandleStatus(ThreadDup(w, t), t, e), t)
    else if e.status == Stopped(SIGSTOP) then CloneChild(w, e.pid, e.origin, e.gone)
    else w
  }

  function HandleAll(w: World, events: seq<Event>): World
    decreases |events|
  {
    if events == [] then w else HandleAll(Handle(w, events[0]), events[1..])
  }

  // ----- What the kernel promises -----

  /** A new thread is in a traced process, or is the first of a process with a traced parent. */
  predicate OriginKnown(w: World, child: Pid, o: Origin) {
    o.tgid in w.processes || (o.tgid == child && o.ppid in w.processes)
  }

  predicate Enumerates(order: seq<Pid>, pids: set<Pid>) {
    && (forall i :: 0 <= i < |order| ==> order[i] in pids)
    && (forall pid :: pid in pids ==> pid in order)
    && (forall i, j :: 0 <= i < j < |order| ==> order[i] != order[j])
  }

  predicate Plausible(w: World, e: Event) {
    if e.pid in w.threads then
      var t := w.threads[e.pid];
      match e.status
      case Stopped(_) => true
      case Cloned(child) => child in w.threads || OriginKnown(w, child, e.origin)
      case Execed(order) => t in w.thrs && w.thrs[t].process in w.procs
        && Enumerates(order, w.procs[w.thrs[t].process].threads)
      case Exited => true
    else e.status == Stopped(SIGSTOP) ==> OriginKnown(w, e.pid, e.origin)
  }

  // ----- Records at rest -----

  /** Nothing is held; every process has threads. */
  ghost predicate AtRest(w: World) { Inv(w, multiset{}, multiset{}) && Populated(w, multiset{}) }

  /** Only a new process, which somebody holds, is in the table without threads. */
  ghost predicate Populated(w: World, hp: multiset<Ref>) {
    forall p :: ListedP(w.processes, w.procs, p) && Live(w.thrs, p) == {} ==> p in hp
  }

  /** While one thread is held, and is in the table. */
  ghost predicate Busy(w: World, hp: multiset<Ref>, ht: multiset<Ref>) { Inv(w, hp, ht) && Populated(w, hp) }

  lemma StaysPopulated(w: World, w': World, hp: multiset<Ref>, hp': multiset<Ref>, ht': multiset<Ref>)
    requires LeavesExactly(w, w') && Populated(w, hp) && Inv(w', hp', ht') && w'.next == w.next && hp <= hp'
    ensures Populated(w', hp')
  {
  }

  lemma SetKeeps(w: World, hp: multiset<Ref>, ht: multiset<Ref>, t: Ref, r: Thread)
    requires Busy(w, hp, ht) && t in w.thrs
    requires r.pid == w.thrs[t].pid && r.process == w.thrs[t].process && r.references == w.thrs[t].references
    ensures Busy(Set(w, t, r), hp, ht)
  {
    ChangeThread(w, hp, ht, ht, t, r);
  }

  lemma DupKeeps(w: World, hp: multiset<Ref>, ht: multiset<Ref>, t: Ref)
    requires Busy(w, hp, ht) && t in w.thrs
    ensures Busy(ThreadDup(w, t), hp, ht + multiset{t})
  {
    ThreadDupKeeps(w, hp, ht, t);
    ThreadDupLeaves(w, t);
    StaysPopulated(w, ThreadDup(w, t), hp, hp, ht + multiset{t});
  }

  /** A record that is not in the table is held. */
  lemma RemovedIsHeld(w: World, hp: multiset<Ref>, ht: multiset<Ref>, t: Ref)
    requires Inv(w, hp, ht) && Removed(w, t)
    ensures t in ht
  {
    assert ThreadCount(w.threads, w.thrs, ht, t);
  }

  lemma ProcessFrame(w: World, p: Ref)
    ensures ProcessPut(w, p).next == w.next && ProcessPut(w, p).threads == w.threads && ProcessPut(w, p).thrs == w.thrs
    ensures ProcessPut(w, p).processes == w.processes
    ensures ProcessDel(w, p).next == w.next && ProcessDel(w, p).threads == w.threads && ProcessDel(w, p).thrs == w.thrs
  {
  }

  lemma FreeFrame(w: World, t: Ref)
    ensures ThreadFree(w, t).next == w.next && ThreadFree(w, t).threads == w.threads
    ensures w.thrs - {t} == ThreadFree(w, t).thrs - {t}
  {
    if t in w.thrs && w.thrs[t].process in w.procs {
      var w1 := w.(thrs := w.thrs - {t});
      ProcessFrame(w1, w.thrs[t].process);
      ProcessFrame(ProcessDel(w1, w.thrs[t].process), w.thrs[t].process);
    }
  }

  /** What thread_put cannot do. */
  lemma PutFrame(w: World, t: Ref)
    ensures ThreadPut(w, t).next == w.next && ThreadPut(w, t).threads == w.threads
    ensures w.thrs - {t} == ThreadPut(w, t).thrs - {t}
  {
    FreeFrame(w, t);
  }

  lemma PutKeeps(w: World, hp: multiset<Ref>, ht: multiset<Ref>, t: Ref)
    requires Busy(w, hp, ht) && t in ht && (w.thrs[t].references == 1 ==> CanFree(w, t))
    ensures Busy(ThreadPut(w, t), hp, ht - multiset{t})
  {
    ThreadPutKeeps(w, hp, ht, t);
    ThreadPutLeaves(w, hp, ht, t);
    PutFrame(w, t);
    StaysPopulated(w, ThreadPut(w, t), hp, hp, ht - multiset{t});
  }

  lemma PlusMinus(held: multiset<Ref>, t: Ref)
    ensures held + multiset{t} - multiset{t} == held
  {
  }

  /** Dropping the reference that was taken last. */
  lemma PutAgain(w: World, hp: multiset<Ref>, ht: multiset<Ref>, t: Ref)
    requires Busy(w, hp, ht + multiset{t}) && (w.thrs[t].references == 1 ==> CanFree(w, t))
    ensures Busy(ThreadPut(w, t), hp, ht)
  {
    PlusMinus(ht, t);
    PutKeeps(w, hp, ht + multiset{t}, t);
  }

  /** Dropping the only reference that is held anywhere. */
  lemma PutOnly(w: World, hp: multiset<Ref>, t: Ref)
    requires Busy(w, hp, multiset{t})
    ensures Busy(ThreadPut(w, t), hp, multiset{})
  {
    assert t in multiset{t};
    if w.thrs[t].references == 1 {
      LastThreadReference(w, hp, multiset{t}, t);
      OnlyHeldIsRemoved(w, hp, t);
      OneRemovedCanBeFreed(w, hp, multiset{t}, t);
    }
    PutKeeps(w, hp, multiset{t}, t);
    assert multiset{t} - multiset{t} == multiset{};
  }

  lemma OnlyHeldIsRemoved(w: World, hp: multiset<Ref>, t: Ref)
    requires Inv(w, hp, multiset{t})
    ensures AtMostOneRemoved(w)
  {
    forall u | Removed(w, u)
      ensures u == t
    {
      RemovedIsHeld(w, hp, multiset{t}, u);
    }
  }

  lemma DelKeeps(w: World, hp: multiset<Ref>, ht: multiset<Ref>, t: Ref)
    requires Busy(w, hp, ht) && ListedT(w.threads, w.thrs, t) && t in ht
    ensures Busy(ThreadDel(w, t), hp, ht)
  {
    assert w.thrs[t].references > 1 by {
      assert ThreadCount(w.threads, w.thrs, ht, t);
    }
    ThreadDelKeeps(w, hp, ht, t);
    ThreadDelLeaves(w, hp, ht, t);
    PutFrame(Unlisted(w, t), t);
    StaysPopulated(w, ThreadDel(w, t), hp, hp, ht);
  }

  /** An exiting thread leaves the table; its record stays for whoever holds it. */
  lemma ExitKeeps(w: World, hp: multiset<Ref>, ht: multiset<Ref>, t: Ref)
    requires Busy(w, hp, ht) && ListedT(w.threads, w.thrs, t) && t in ht
    ensures Busy(ThreadExit(w, t), hp, ht)
  {
    var r := w.thrs[t].(running := false, dead := true);
    SetKeeps(w, hp, ht, t, r);
    DelKeeps(Set(w, t, r), hp, ht, t);
  }

  /** Another thread stays where it is. */
  ghost predicate Stays(w: World, w': World, u: Ref) {
    u in w.thrs ==>
        u in w'.thrs && w'.thrs[u] == w.thrs[u] && (ListedT(w.threads, w.thrs, u) ==> ListedT(w'.threads, w'.thrs, u))
  }

  ghost predicate OthersStay(w: World, w': World, t: Ref) { forall u :: u != t ==> Stays(w, w', u) }

  lemma OthersStayTrans(w: World, w1: World, w2: World, t: Ref)
    requires OthersStay(w, w1, t) && OthersStay(w1, w2, t)
    ensures OthersStay(w, w2, t)
  {
    forall u | u != t
      ensures Stays(w, w2, u)
    {
      assert Stays(w, w1, u) && Stays(w1, w2, u);
    }
  }

  lemma ExitFrame(w: World, t: Ref)
    requires ListedT(w.threads, w.thrs, t) && w.thrs[t].process in w.procs && w.thrs[t].references > 1
    requires w.thrs[t].pid in w.procs[w.thrs[t].process].threads
    ensures OthersStay(w, ThreadExit(w, t), t)
    ensures t in ThreadExit(w, t).thrs && ThreadExit(w, t).thrs[t].references == w.thrs[t].references - 1
    ensures ThreadExit(w, t).threads == w.threads - {w.thrs[t].pid}
    ensures ThreadExit(w, t).thrs[t].process == w.thrs[t].process
  {
  }

  lemma ListedHeld(w: World, hp: multiset<Ref>, ht: multiset<Ref>, t: Ref)
    requires Inv(w, hp, ht) && ListedT(w.threads, w.thrs, t) && t in ht
    ensures w.thrs[t].references > 1 && w.thrs[t].process in w.procs
    ensures w.thrs[t].pid in w.procs[w.thrs[t].process].threads
  {
    assert ThreadCount(w.threads, w.thrs, ht, t);
    HasOwner(w, hp, ht, t);
    ListedIsMember(w, t);
  }

  lemma ContinueKeeps(w: World, hp: multiset<Ref>, ht: multiset<Ref>, t: Ref, signo: nat, gone: bool)
    requires Busy(w, hp, ht) && ListedT(w.threads, w.thrs, t) && t in ht
    ensures Busy(ContinueOrStop(w, t, signo, gone), hp, ht)
  {
    var r := w.thrs[t];
    if r.dead || r.running {
    } else if r.stopme || r.slavemode {
      SetKeeps(w, hp, ht, t, Parked(r, signo));
    } else if gone {
      var r' := Continued(r, signo).(running := false);
      SetKeeps(w, hp, ht, t, r');
      ExitKeeps(Set(w, t, r'), hp, ht, t);
    } else {
      SetKeeps(w, hp, ht, t, Continued(r, signo));
    }
  }

  lemma ContinueStays(w: World, t: Ref, signo: nat, gone: bool)
    requires ListedT(w.threads, w.thrs, t) && w.thrs[t].process in w.procs && w.thrs[t].references > 1
    requires w.thrs[t].pid in w.procs[w.thrs[t].process].threads
    ensures OthersStay(w, ContinueOrStop(w, t, signo, gone), t)
  {
    var r := w.thrs[t];
    if !r.dead && !r.running && !r.stopme && !r.slavemode && gone {
      ExitFrame(Set(w, t, Continued(r, signo).(running := false)), t);
    }
  }

  // ----- Clones -----

  /** A process reference that is dropped again while the process has threads. */
  lemma PutProcessKeeps(w: World, hp: multiset<Ref>, ht: multiset<Ref>, p: Ref)
    requires Busy(w, hp, ht) && p in hp && Live(w.thrs, p) != {}
    ensures Busy(ProcessPut(w, p), hp - multiset{p}, ht)
    ensures ProcessPut(w, p).thrs == w.thrs && ProcessPut(w, p).threads == w.threads
  {
    ProcessPutKeeps(w, hp, ht, p);
    ProcessPutLeaves(w, hp, ht, p);
  }

  /** A new thread in a process that the caller got. */
  lemma CreateKeeps(w: World, hp: multiset<Ref>, ht: multiset<Ref>, p: Ref, child: Pid)
    requires Inv(w, hp, ht)
    requires (forall q :: ListedP(w.processes, w.procs, q) && q != p && Live(w.thrs, q) == {} ==> q in hp)
    requires ListedP(w.processes, w.procs, p) && child !in w.threads
    ensures var (w', t) := ThreadCreate(w, p, child);
      t == w.next && t in w'.thrs && Busy(Unnotified(w', t), hp, ht + multiset{t})
        && t in Live(Unnotified(w', t).thrs, p)
  {
    var (w', t) := ThreadCreate(w, p, child);
    ThreadCreateKeeps(w, hp, ht, p, child);
    ThreadCreateLeaves(w, p, child);
    assert child !in w.procs[p].threads by { assert w.procs[p].threads == Members(w.threads, w.thrs, p); }
    assert t in Live(w'.thrs, p);
    assert Populated(w', hp);
    SetKeeps(w', hp, ht + multiset{t}, t, w'.thrs[t].(notified := false));
  }

  /** The thread of a clone is new, in the table, and held by the caller. */
  ghost predicate ChildMade(w: World, w': World, ht: multiset<Ref>, t: Ref, child: Pid) {
    && Busy(w', multiset{}, ht + multiset{t})
    && t !in w.thrs && t in w'.thrs && w'.threads == w.threads[child := t] && w'.thrs == w.thrs[t := w'.thrs[t]]
       && w'.thrs[t].pid == child
  }

  ghost predicate MadeOk(m: Made, ht: multiset<Ref>) {
    Busy(m.w, multiset{m.p} + multiset{m.q}, ht + multiset{m.t}) && Live(m.w.thrs, m.p) != {}
      && Live(m.w.thrs, m.q) != {}
  }

  lemma MadeInProcess(w: World, ht: multiset<Ref>, child: Pid, o: Origin)
    requires Busy(w, multiset{}, ht) && child !in w.threads && o.tgid in w.processes
    ensures MadeOk(MakeChild(w, child, o), ht)
  {
    var p := w.processes[o.tgid];
    ProcessDupKeeps(w, multiset{}, ht, p);
    assert multiset{} + multiset{p} == multiset{p};
    var w1 := ProcessDup(w, p);
    ProcessDupKeeps(w1, multiset{p}, ht, p);
    CreateKeeps(ProcessDup(w1, p), multiset{p} + multiset{p}, ht, p, child);
  }

  lemma NewProcessReady(w: World, ht: multiset<Ref>, child: Pid, p: Ref)
    requires Busy(w, multiset{}, ht) && child !in w.processes && p in w.procs
    ensures var w2 := ProcessCreate(ProcessDup(w, p), child).0;
      Inv(w2, multiset{p} + multiset{w.next}, ht)
        && (forall x :: ListedP(w2.processes, w2.procs, x) && x != w.next ==> Live(w2.thrs, x) != {})
  {
    ProcessDupKeeps(w, multiset{}, ht, p);
    assert multiset{} + multiset{p} == multiset{p};
    var w1 := ProcessDup(w, p);
    ProcessCreateKeeps(w1, multiset{p}, ht, child);
    StillPopulated(w, ProcessCreate(w1, child).0, p, w.next);
  }

  lemma MadeNewProcess(w: World, ht: multiset<Ref>, child: Pid, o: Origin)
    requires Busy(w, multiset{}, ht) && child !in w.threads && o.tgid !in w.processes && child !in w.processes
    requires o.ppid in w.processes
    ensures MadeOk(MakeChild(w, child, o), ht)
  {
    var p, q := w.processes[o.ppid], w.next;
    NewProcessReady(w, ht, child, p);
    var w2 := ProcessCreate(ProcessDup(w, p), child).0;
    CreateKeeps(w2, multiset{p} + multiset{q}, ht, q, child);
    assert ListedP(w2.processes, w2.procs, p) && p != q;
    LiveGrows(w2, q, child, p);
  }

  lemma LiveGrows(w: World, q: Ref, child: Pid, p: Ref)
    requires Live(w.thrs, p) != {} && w.next !in w.thrs
    ensures var (w', t) := ThreadCreate(w, q, child); Live(Unnotified(w', t).thrs, p) != {}
  {
    var u :| u in Live(w.thrs, p);
    var (w', t) := ThreadCreate(w, q, child);
    assert u in Live(Unnotified(w', t).thrs, p);
  }

  lemma StillPopulated(w: World, w2: World, p: Ref, q: Ref)
    requires Populated(w, multiset{}) && w2.thrs == w.thrs && q !in w.procs
    requires forall x :: x != q && ListedP(w2.processes, w2.procs, x) ==> ListedP(w.processes, w.procs, x)
    ensures forall x :: ListedP(w2.processes, w2.procs, x) && x != q ==> Live(w2.thrs, x) != {}
  {
  }

  lemma MadeFrame(w: World, child: Pid, o: Origin)
    requires o.tgid in w.processes || o.ppid in w.processes
    requires var m := MakeChild(w, child, o); !m.w.bad && m.t !in w.thrs
    ensures var m := MakeChild(w, child, o);
      m.w.threads == w.threads[child := m.t] && m.t in m.w.thrs && m.w.thrs == w.thrs[m.t := m.w.thrs[m.t]]
        && m.w.thrs[m.t].pid == child
  {
  }

  lemma PutBoth(m: Made, ht: multiset<Ref>)
    requires MadeOk(m, ht)
    ensures Busy(ProcessPut(ProcessPut(m.w, m.p), m.q), multiset{}, ht + multiset{m.t})
  {
    var hp := multiset{m.p} + multiset{m.q};
    PutProcessKeeps(m.w, hp, ht + multiset{m.t}, m.p);
    assert hp - multiset{m.p} == multiset{m.q};
    PutProcessKeeps(ProcessPut(m.w, m.p), multiset{m.q}, ht + multiset{m.t}, m.q);
    assert multiset{m.q} - multiset{m.q} == multiset{};
  }

  lemma MadeKeeps(w: World, ht: multiset<Ref>, child: Pid, o: Origin)
    requires Busy(w, multiset{}, ht) && child !in w.threads && OriginKnown(w, child, o)
    ensures MadeOk(MakeChild(w, child, o), ht) && MakeChild(w, child, o).t !in w.thrs
  {
    if o.tgid in w.processes {
      MadeInProcess(w, ht, child, o);
    } else {
      MadeNewProcess(w, ht, child, o);
    }
    MadeNew(w, child, o);
  }

  lemma MadeNew(w: World, child: Pid, o: Origin)
    requires o.tgid in w.processes || o.ppid in w.processes
    ensures MakeChild(w, child, o).t >= w.next
  {
  }

  lemma CloneKeeps(w: World, ht: multiset<Ref>, child: Pid, o: Origin)
    requires Busy(w, multiset{}, ht) && child !in w.threads && OriginKnown(w, child, o)
    ensures var (w', t) := CloneCreateChild(w, child, o); ChildMade(w, w', ht, t, child)
  {
    var m := MakeChild(w, child, o);
    MadeKeeps(w, ht, child, o);
    PutBoth(m, ht);
    MadeFrame(w, child, o);
    ProcessFrame(m.w, m.p);
    ProcessFrame(ProcessPut(m.w, m.p), m.q);
  }

  lemma CloneChildKeeps(w: World, child: Pid, o: Origin, gone: bool)
    requires AtRest(w) && child !in w.threads && OriginKnown(w, child, o)
    ensures AtRest(CloneChild(w, child, o, gone))
  {
    CloneKeeps(w, multiset{}, child, o);
    var (w1, t) := CloneCreateChild(w, child, o);
    assert multiset{} + multiset{t} == multiset{t};
    ContinueKeeps(w1, multiset{}, multiset{t}, t, 0, gone);
    PutOnly(ContinueOrStop(w1, t, 0, gone), multiset{}, t);
  }

  lemma ContinueHolding(w: World, ht: multiset<Ref>, t: Ref, c: Ref, gone: bool)
    requires Busy(w, multiset{}, ht) && t in ht && ListedT(w.threads, w.thrs, t) && ListedT(w.threads, w.thrs, c)
    ensures Busy(ContinueOrStop(w, t, 0, gone), multiset{}, ht)
    ensures c != t ==> ListedT(ContinueOrStop(w, t, 0, gone).threads, ContinueOrStop(w, t, 0, gone).thrs, c)
  {
    ContinueKeeps(w, multiset{}, ht, t, 0, gone);
    ListedHeld(w, multiset{}, ht, t);
    ContinueStays(w, t, 0, gone);
    assert c != t ==> Stays(w, ContinueOrStop(w, t, 0, gone), c);
  }

  lemma DropOne(w: World, t: Ref, c: Ref)
    requires Busy(w, multiset{}, multiset{t} + multiset{c}) && (c != t ==> ListedT(w.threads, w.thrs, c))
    ensures Busy(ThreadPut(w, c), multiset{}, multiset{t})
  {
    NotTheLast(w, multiset{}, multiset{t} + multiset{c}, c);
    PutAgain(w, multiset{}, multiset{t}, c);
  }

  /** The parent continues, and the reference to the child is dropped. */
  lemma ParentContinues(w: World, t: Ref, c: Ref, gone: bool)
    requires Busy(w, multiset{}, multiset{t} + multiset{c}) && ListedT(w.threads, w.thrs, t)
    requires ListedT(w.threads, w.thrs, c)
    ensures Busy(ThreadPut(ContinueOrStop(w, t, 0, gone), c), multiset{}, multiset{t})
  {
    ContinueHolding(w, multiset{t} + multiset{c}, t, c, gone);
    DropOne(ContinueOrStop(w, t, 0, gone), t, c);
  }

  lemma NotTheLast(w: World, hp: multiset<Ref>, ht: multiset<Ref>, t: Ref)
    requires Inv(w, hp, ht) && t in ht && (ht[t] > 1 || ListedT(w.threads, w.thrs, t))
    ensures w.thrs[t].references > 1
  {
    assert ThreadCount(w.threads, w.thrs, ht, t);
  }

  lemma CloneParentKeeps(w: World, t: Ref, child: Pid, o: Origin, gone: bool)
    requires Busy(w, multiset{}, multiset{t}) && ListedT(w.threads, w.thrs, t)
    requires child in w.threads || OriginKnown(w, child, o)
    ensures Busy(CloneParent(w, t, child, o, gone), multiset{}, multiset{t})
  {
    if child in w.threads {
      DupKeeps(w, multiset{}, multiset{t}, w.threads[child]);
      ParentContinues(ThreadDup(w, w.threads[child]), t, w.threads[child], gone);
    } else {
      CloneKeeps(w, multiset{t}, child, o);
      var (w1, c) := CloneCreateChild(w, child, o);
      SetKeeps(w1, multiset{}, multiset{t} + multiset{c}, c, w1.thrs[c].(running := true));
      ParentContinues(Set(w1, c, w1.thrs[c].(running := true)), t, c, gone);
    }
  }

  // ----- Exec -----

  lemma PutStays(w: World, t: Ref)
    ensures OthersStay(w, ThreadPut(w, t), t)
  {
    PutFrame(w, t);
    var w' := ThreadPut(w, t);
    forall u | u != t && u in w.thrs
      ensures Stays(w, w', u)
    {
      assert u in w.thrs - {t} && u in w'.thrs - {t};
      assert (w.thrs - {t})[u] == (w'.thrs - {t})[u];
    }
  }

  lemma CanFreeOther(w: World, hp: multiset<Ref>, ht: multiset<Ref>, t: Ref, u: Ref)
    requires Inv(w, hp, ht) && ListedT(w.threads, w.thrs, t) && u in w.thrs && w.thrs[u].process == w.thrs[t].process
    ensures w.thrs[u].process in w.procs && CanFree(w, u)
  {
    HasOwner(w, hp, ht, t);
    ListedIsMember(w, t);
  }

  /** What ExitOther cannot do, and the state between its two halves. */
  lemma ExitOtherFrame(w: World, t: Ref, u: Ref)
    requires ListedT(w.threads, w.thrs, t) && ListedT(w.threads, w.thrs, u) && u != t
    requires w.thrs[u].process in w.procs && w.thrs[u].references > 0
    requires w.thrs[u].pid in w.procs[w.thrs[u].process].threads
    ensures var w2 := ThreadExit(ThreadDup(w, u), u);
      OthersStay(w, w2, u) && u in w2.thrs && w2.thrs[u].process == w.thrs[u].process
    ensures var w3 := ExitOther(w, t, w.thrs[u].pid);
      OthersStay(w, w3, u) && w3.threads == w.threads - {w.thrs[u].pid}
  {
    var w1, w2 := ThreadDup(w, u), ThreadExit(ThreadDup(w, u), u);
    ExitFrame(w1, u);
    assert OthersStay(w, w1, u);
    OthersStayTrans(w, w1, w2, u);
    PutFrame(w2, u);
    PutStays(w2, u);
    OthersStayTrans(w, w2, ThreadPut(w2, u), u);
  }

  /** The first half: the thread leaves the table, and the caller still holds it. */
  lemma OtherRemoved(w: World, t: Ref, u: Ref)
    requires Busy(w, multiset{}, multiset{t}) && ListedT(w.threads, w.thrs, u)
    ensures Busy(ThreadExit(ThreadDup(w, u), u), multiset{}, multiset{t} + multiset{u})
  {
    DupKeeps(w, multiset{}, multiset{t}, u);
    ExitKeeps(ThreadDup(w, u), multiset{}, multiset{t} + multiset{u}, u);
  }

  /** The second half: the record is freed, but the process has the caller left. */
  lemma OtherFreed(w: World, t: Ref, u: Ref)
    requires Busy(w, multiset{}, multiset{t} + multiset{u}) && ListedT(w.threads, w.thrs, t)
    requires u in w.thrs && w.thrs[u].process == w.thrs[t].process
    ensures Busy(ThreadPut(w, u), multiset{}, multiset{t})
  {
    CanFreeOther(w, multiset{}, multiset{t} + multiset{u}, t, u);
    PutAgain(w, multiset{}, multiset{t}, u);
  }

  lemma ListedInTree(w: World, hp: multiset<Ref>, ht: multiset<Ref>, u: Ref)
    requires Inv(w, hp, ht) && ListedT(w.threads, w.thrs, u)
    ensures w.thrs[u].process in w.procs && w.thrs[u].references > 0
    ensures w.thrs[u].pid in w.procs[w.thrs[u].process].threads
  {
    assert ThreadCount(w.threads, w.thrs, ht, u);
    HasOwner(w, hp, ht, u);
    ListedIsMember(w, u);
  }

  lemma ExitOtherKeeps(w: World, t: Ref, u: Ref)
    requires Busy(w, multiset{}, multiset{t}) && ListedT(w.threads, w.thrs, t) && ListedT(w.threads, w.thrs, u)
    requires w.thrs[u].process == w.thrs[t].process && u != t
    ensures Busy(ExitOther(w, t, w.thrs[u].pid), multiset{}, multiset{t})
    ensures var w' := ExitOther(w, t, w.thrs[u].pid); OthersStay(w, w', u) && w'.threads == w.threads - {w.thrs[u].pid}
  {
    ListedInTree(w, multiset{}, multiset{t}, u);
    ExitOtherFrame(w, t, u);
    OtherRemoved(w, t, u);
    var w2 := ThreadExit(ThreadDup(w, u), u);
    assert Stays(w, w2, t);
    OtherFreed(w2, t, u);
  }

  /** The caller itself is only dup'ed and put. */
  lemma DupPut(w: World, t: Ref)
    requires t in w.thrs && w.thrs[t].references > 0
    ensures ThreadPut(ThreadDup(w, t), t) == w
  {
    assert w.thrs[t := w.thrs[t].(references := w.thrs[t].references + 1)][t := w.thrs[t]] == w.thrs;
  }

  /** The threads of t's process that are still to be visited. */
  ghost predicate Pending(w: World, t: Ref, order: seq<Pid>) {
    && ListedT(w.threads, w.thrs, t)
    && (forall i :: 0 <= i < |order| ==>
          && order[i] in w.threads && w.threads[order[i]] in Live(w.thrs, w.thrs[t].process)
          && w.thrs[w.threads[order[i]]].pid == order[i])
    && (forall i, j :: 0 <= i < j < |order| ==> order[i] != order[j])
  }

  lemma PendingRest(w: World, w': World, t: Ref, order: seq<Pid>)
    requires Pending(w, t, order) && order != [] && w.threads[order[0]] != t
    requires OthersStay(w, w', w.threads[order[0]]) && w'.threads == w.threads - {order[0]}
    ensures Pending(w', t, order[1..]) && w'.thrs[t] == w.thrs[t]
  {
    assert Stays(w, w', t);
    forall i | 1 <= i < |order|
      ensures order[i] in w'.threads && w'.threads[order[i]] in Live(w'.thrs, w.thrs[t].process)
      ensures w'.thrs[w'.threads[order[i]]].pid == order[i]
    {
      var x := w.threads[order[i]];
      assert order[0] != order[i] && x != w.threads[order[0]];
      assert Stays(w, w', x);
    }
  }

  /** Of the visited threads only t is left in the table. */
  ghost predicate OthersGone(w: World, w': World, t: Ref, order: seq<Pid>) {
    && ListedT(w.threads, w.thrs, t) && ListedT(w'.threads, w'.thrs, t) && w'.thrs[t] == w.thrs[t]
    && (forall pid :: pid in w'.threads <==> pid in w.threads && (pid in order ==> pid == w.thrs[t].pid))
    && (forall pid :: pid in w'.threads ==> SameThread(w, w', pid))
  }

  /** The table has the same thread under a pid, of the same process. */
  ghost predicate SameThread(w: World, w': World, pid: Pid) {
    && pid in w.threads && pid in w'.threads && w'.threads[pid] == w.threads[pid]
    && w.threads[pid] in w.thrs && w.threads[pid] in w'.thrs
       && w'.thrs[w.threads[pid]].process == w.thrs[w.threads[pid]].process
  }

  lemma OneGone(w: World, w': World, t: Ref, order: seq<Pid>)
    requires ThreadTable(w.threads, w.thrs, w.next) && Pending(w, t, order) && order != [] && w.threads[order[0]] != t
    requires OthersStay(w, w', w.threads[order[0]]) && w'.threads == w.threads - {order[0]}
    ensures Pending(w', t, order[1..]) && OthersGone(w, w', t, [order[0]])
  {
    PendingRest(w, w', t, order);
    assert Stays(w, w', t);
    forall pid | pid in w'.threads
      ensures SameThread(w, w', pid)
    {
      assert Stays(w, w', w.threads[pid]);
    }
  }

  ghost predicate Visited(w: World, w': World, t: Ref, order: seq<Pid>)
    requires order != []
  {
    Busy(w', multiset{}, multiset{t}) && Pending(w', t, order[1..]) && OthersGone(w, w', t, [order[0]])
  }

  lemma ExitAnother(w: World, t: Ref, order: seq<Pid>)
    requires Busy(w, multiset{}, multiset{t}) && Pending(w, t, order) && order != [] && w.threads[order[0]] != t
    ensures Visited(w, ExitOther(w, t, order[0]), t, order)
  {
    ExitOtherKeeps(w, t, w.threads[order[0]]);
    OneGone(w, ExitOther(w, t, order[0]), t, order);
  }

  lemma NoneGone(w: World, t: Ref, order: seq<Pid>)
    requires ThreadTable(w.threads, w.thrs, w.next) && ListedT(w.threads, w.thrs, t)
    requires forall pid :: pid in order ==> pid == w.thrs[t].pid
    ensures OthersGone(w, w, t, order)
  {
  }

  /** The caller is left alone. */
  lemma ExitSelf(w: World, t: Ref, order: seq<Pid>)
    requires Busy(w, multiset{}, multiset{t}) && Pending(w, t, order) && order != [] && w.threads[order[0]] == t
    ensures Visited(w, w, t, order) && w.thrs[t].references > 0
  {
    ListedInTree(w, multiset{}, multiset{t}, t);
    NoneGone(w, t, [order[0]]);
    RestPending(w, t, order);
  }

  lemma RestPending(w: World, t: Ref, order: seq<Pid>)
    requires Pending(w, t, order) && order != []
    ensures Pending(w, t, order[1..])
  {
  }

  lemma SelfIsKept(w: World, t: Ref, pid: Pid)
    requires pid in w.threads && w.threads[pid] == t && t in w.thrs && w.thrs[t].references > 0
    ensures ExitOther(w, t, pid) == w
  {
    DupPut(w, t);
  }

  lemma ExitStep(w: World, t: Ref, order: seq<Pid>)
    requires Busy(w, multiset{}, multiset{t}) && Pending(w, t, order) && order != []
    ensures Visited(w, ExitOther(w, t, order[0]), t, order)
  {
    if w.threads[order[0]] == t {
      ExitSelf(w, t, order);
      SelfIsKept(w, t, order[0]);
    } else {
      ExitAnother(w, t, order);
    }
  }

  lemma GoneTrans(w: World, w1: World, w2: World, t: Ref, order: seq<Pid>)
    requires order != [] && OthersGone(w, w1, t, [order[0]]) && OthersGone(w1, w2, t, order[1..])
    ensures OthersGone(w, w2, t, order)
  {
    assert forall pid :: pid in order <==> pid in [order[0]] || pid in order[1..];
    forall pid | pid in w2.threads
      ensures SameThread(w, w2, pid)
    {
      assert SameThread(w1, w2, pid) && SameThread(w, w1, pid);
    }
  }

  lemma {:induction false} ExitOthersKeeps(w: World, t: Ref, order: seq<Pid>)
    requires Busy(w, multiset{}, multiset{t}) && Pending(w, t, order)
    ensures Busy(ExitOthers(w, t, order), multiset{}, multiset{t}) && OthersGone(w, ExitOthers(w, t, order), t, order)
    decreases |order|, 1
  {
    if order == [] {
      NoneGone(w, t, []);
    } else {
      ExitStep(w, t, order);
      ExitRest(w, ExitOther(w, t, order[0]), t, order);
    }
  }

  lemma ExitRest(w: World, w1: World, t: Ref, order: seq<Pid>)
    requires order != [] && Visited(w, w1, t, order)
    ensures Busy(ExitOthers(w1, t, order[1..]), multiset{}, multiset{t})
    ensures OthersGone(w, ExitOthers(w1, t, order[1..]), t, order)
    decreases |order|, 0
  {
    ExitOthersKeeps(w1, t, order[1..]);
    GoneTrans(w, w1, ExitOthers(w1, t, order[1..]), t, order);
  }

  /** An exec leaves the process with the calling thread only. */
  lemma ExecLeavesCaller(w: World, t: Ref, order: seq<Pid>)
    requires Busy(w, multiset{}, multiset{t}) && ListedT(w.threads, w.thrs, t) && w.thrs[t].process in w.procs
    requires Enumerates(order, w.procs[w.thrs[t].process].threads)
    ensures var w', p := ExitOthers(w, t, order), w.thrs[t].process;
      p in w'.procs && w'.procs[p].threads == {w.thrs[t].pid}
  {
    var w', p := ExitOthers(w, t, order), w.thrs[t].process;
    ThreadsPending(w, t, order);
    ExitOthersKeeps(w, t, order);
    HasOwner(w, multiset{}, multiset{t}, t);
    HasOwner(w', multiset{}, multiset{t}, t);
    OnlyCaller(w, w', t, order);
  }

  lemma OnlyCaller(w: World, w': World, t: Ref, order: seq<Pid>)
    requires OthersGone(w, w', t, order)
    requires forall pid :: pid in Members(w.threads, w.thrs, w.thrs[t].process) ==> pid in order
    ensures Members(w'.threads, w'.thrs, w.thrs[t].process) == {w.thrs[t].pid}
  {
    var p := w.thrs[t].process;
    forall pid | pid in Members(w'.threads, w'.thrs, p)
      ensures pid == w.thrs[t].pid
    {
      assert SameThread(w, w', pid);
      assert pid in Members(w.threads, w.thrs, p);
    }
  }

  lemma ThreadsPending(w: World, t: Ref, order: seq<Pid>)
    requires Inv(w, multiset{}, multiset{t}) && ListedT(w.threads, w.thrs, t) && w.thrs[t].process in w.procs
    requires Enumerates(order, w.procs[w.thrs[t].process].threads)
    ensures Pending(w, t, order)
  {
    forall i | 0 <= i < |order|
      ensures order[i] in w.threads && w.threads[order[i]] in Live(w.thrs, w.thrs[t].process)
      ensures w.thrs[w.threads[order[i]]].pid == order[i]
    {
      assert order[i] in Members(w.threads, w.thrs, w.thrs[t].process);
    }
  }

  lemma ExecKeeps(w: World, t: Ref, order: seq<Pid>, gone: bool)
    requires Busy(w, multiset{}, multiset{t}) && ListedT(w.threads, w.thrs, t) && w.thrs[t].process in w.procs
    requires Enumerates(order, w.procs[w.thrs[t].process].threads)
    ensures Busy(Exec(w, t, order, gone), multiset{}, multiset{t})
  {
    ThreadsPending(w, t, order);
    ExitOthersKeeps(w, t, order);
    var w1 := ExitOthers(w, t, order);
    var w2 := Set(w1, t, w1.thrs[t].(execed := true));
    SetKeeps(w1, multiset{}, multiset{t}, t, w1.thrs[t].(execed := true));
    ContinueKeeps(w2, multiset{}, multiset{t}, t, 0, gone);
  }

  // ----- Whole events -----

  lemma ReactKeeps(w: World, t: Ref, e: Event)
    requires Busy(w, multiset{}, multiset{t}) && ListedT(w.threads, w.thrs, t)
    requires w.thrs[t].pid == e.pid && Plausible(w, e)
    ensures Busy(React(w, t, e), multiset{}, multiset{t})
  {
    match e.status
    case Stopped(signo) => ContinueKeeps(w, multiset{}, multiset{t}, t, signo, e.gone);
    case Cloned(child) => CloneParentKeeps(w, t, child, e.origin, e.gone);
    case Execed(order) => ExecKeeps(w, t, order, e.gone);
    case Exited => ExitKeeps(w, multiset{}, multiset{t}, t);
  }

  lemma StaysPlausible(w: World, t: Ref, r: Thread, e: Event)
    requires Plausible(w, e) && t in w.thrs && r.process == w.thrs[t].process
    ensures Plausible(Set(w, t, r), e)
  {
  }

  lemma StatusKeeps(w: World, t: Ref, e: Event)
    requires Busy(w, multiset{}, multiset{t}) && ListedT(w.threads, w.thrs, t) && w.thrs[t].references > 1
    requires w.thrs[t].pid == e.pid && Plausible(w, e)
    ensures Busy(React(Set(w, t, Woken(w.thrs[t], e.status)), t, e), multiset{}, multiset{t})
  {
    var r := Woken(w.thrs[t], e.status);
    SetKeeps(w, multiset{}, multiset{t}, t, r);
    StaysPlausible(w, t, r, e);
    ReactKeeps(Set(w, t, r), t, e);
  }

  lemma Got(w: World, t: Ref, e: Event)
    requires AtRest(w) && e.pid in w.threads && t == w.threads[e.pid] && Plausible(w, e)
    ensures var w1 := ThreadDup(w, t);
      Busy(w1, multiset{}, multiset{t}) && ListedT(w1.threads, w1.thrs, t) && w1.thrs[t].references > 1
        && w1.thrs[t].pid == e.pid && Plausible(w1, e)
  {
    DupKeeps(w, multiset{}, multiset{}, t);
    assert multiset{} + multiset{t} == multiset{t};
    NotTheLast(ThreadDup(w, t), multiset{}, multiset{t}, t);
    StaysPlausible(w, t, w.thrs[t].(references := w.thrs[t].references + 1), e);
  }

  lemma KnownKeepsRest(w: World, t: Ref, e: Event)
    requires AtRest(w) && e.pid in w.threads && t == w.threads[e.pid] && Plausible(w, e)
    ensures AtRest(ThreadPut(HandleStatus(ThreadDup(w, t), t, e), t))
  {
    Got(w, t, e);
    var w1 := ThreadDup(w, t);
    StatusKeeps(w1, t, e);
    PutOnly(React(Set(w1, t, Woken(w1.thrs[t], e.status)), t, e), multiset{}, t);
  }

  /** Every event takes records at rest to records at rest. */
  lemma EventKeepsRest(w: World, e: Event)
    requires AtRest(w) && Plausible(w, e)
    ensures AtRest(Handle(w, e))
  {
    if e.pid in w.threads {
      KnownKeepsRest(w, w.threads[e.pid], e);
    } else if e.status == Stopped(SIGSTOP) {
      CloneChildKeeps(w, e.pid, e.origin, e.gone);
    }
  }

  predicate PlausibleRun(w: World, events: seq<Event>)
    decreases |events|
  {
    events == [] || (Plausible(w, events[0]) && PlausibleRun(Handle(w, events[0]), events[1..]))
  }

  lemma {:induction false} RunKeepsRest(w: World, events: seq<Event>)
    requires AtRest(w) && PlausibleRun(w, events)
    ensures AtRest(HandleAll(w, events))
    decreases |events|
  {
    if events != [] {
      EventKeepsRest(w, events[0]);
      RunKeepsRest(Handle(w, events[0]), events[1..]);
    }
  }

  // ----- The counts between events -----

  lemma {:induction false} AsManyPids(thrs: map<Ref, Thread>, ts: set<Ref>)
    requires ts <= thrs.Keys && forall t, u :: t in ts && u in ts && thrs[t].pid == thrs[u].pid ==> t == u
    ensures |set t | t in ts :: thrs[t].pid| == |ts|
    decreases ts
  {
    if ts != {} {
      var t :| t in ts;
      AsManyPids(thrs, ts - {t});
      assert (set u | u in ts :: thrs[u].pid) == (set u | u in ts - {t} :: thrs[u].pid) + {thrs[t].pid};
    }
  }

  lemma RestThread(w: World, t: Ref)
    requires AtRest(w) && t in w.thrs
    ensures ListedT(w.threads, w.thrs, t) && w.thrs[t].references == 1
  {
    assert ThreadCount(w.threads, w.thrs, multiset{}, t);
  }

  lemma RestListed(w: World, p: Ref)
    requires AtRest(w) && p in w.procs
    ensures ListedP(w.processes, w.procs, p) && Live(w.thrs, p) != {}
    ensures w.procs[p].references == 1 + |Live(w.thrs, p)| && w.procs[p].threads == Members(w.threads, w.thrs, p)
  {
    assert ProcessCount(w.processes, w.procs, w.thrs, multiset{}, p);
  }

  lemma TreeSize(threads: map<Pid, Ref>, thrs: map<Ref, Thread>, p: Ref)
    requires forall pid :: pid in threads ==> threads[pid] in thrs && thrs[threads[pid]].pid == pid
    requires forall t :: t in thrs ==> ListedT(threads, thrs, t)
    ensures |Members(threads, thrs, p)| == |Live(thrs, p)|
  {
    var ts := Live(thrs, p);
    forall t, u | t in ts && u in ts && thrs[t].pid == thrs[u].pid
      ensures t == u
    {
      assert ListedT(threads, thrs, t) && ListedT(threads, thrs, u);
    }
    AsManyPids(thrs, ts);
    forall t | t in ts
      ensures thrs[t].pid in Members(threads, thrs, p)
    {
      assert ListedT(threads, thrs, t);
    }
    assert Members(threads, thrs, p) == set t | t in ts :: thrs[t].pid;
  }

  /** Between events every thread has the table's reference only, and every process has
      threads, the table's reference and one for each of them. */
  lemma RestCounts(w: World)
    requires AtRest(w)
    ensures forall t :: t in w.thrs ==> ListedT(w.threads, w.thrs, t) && w.thrs[t].references == 1
    ensures forall p :: p in w.procs ==>
      ListedP(w.processes, w.procs, p) && w.procs[p].threads != {} && w.procs[p].references == 1 + |w.procs[p].threads|
  {
    forall t | t in w.thrs
      ensures ListedT(w.threads, w.thrs, t) && w.thrs[t].references == 1
    {
      RestThread(w, t);
    }
    forall p | p in w.procs
      ensures ListedP(w.processes, w.procs, p) && w.procs[p].threads != {}
      ensures w.procs[p].references == 1 + |w.procs[p].threads|
    {
      RestListed(w, p);
      TreeSize(w.threads, w.thrs, p);
    }
  }

  // ----- Both notifications of a clone -----

  lemma MadeRecord(w: World, child: Pid, o: Origin)
    requires o.tgid in w.processes || o.ppid in w.processes
    requires var m := MakeChild(w, child, o); !m.w.bad && m.t !in w.thrs
    ensures var m := MakeChild(w, child, o);
      m.t in m.w.thrs && m.w.thrs[m.t] == NewThread(child, m.q).(notified := false)
      && m.w.processes == if o.tgid in w.processes then w.processes else w.processes[child := m.q]
  {
  }

  lemma ThreadCreateCommutes(w: World, p: Ref, child: Pid, t: Ref, r: Thread)
    requires t in w.thrs && t < w.next && !ThreadCreate(w, p, child).0.bad
    ensures var (w1, c) := ThreadCreate(w, p, child);
      ThreadCreate(Set(w, t, r), p, child) == (Set(w1, t, r), c)
        && Unnotified(Set(w1, t, r), c) == Set(Unnotified(w1, c), t, r)
  {
    var n := NewThread(child, p);
    SetSwap(w, t, w.next, r, n);
    SetSwap(ThreadCreate(w, p, child).0, t, w.next, r, n.(notified := false));
  }

  /** Creating the child and changing another thread's record commute. */
  lemma MadeCommutes(w: World, child: Pid, o: Origin, t: Ref, r: Thread)
    requires o.tgid in w.processes || o.ppid in w.processes
    requires !MakeChild(w, child, o).w.bad && t in w.thrs && t < w.next
    ensures var m := MakeChild(w, child, o); MakeChild(Set(w, t, r), child, o) == m.(w := Set(m.w, t, r))
  {
    if o.tgid in w.processes {
      DupsCommute(w, w.processes[o.tgid], child, t, r);
    } else {
      ForkCommutes(w, w.processes[o.ppid], child, t, r);
    }
  }

  lemma DupsCommute(w: World, p: Ref, child: Pid, t: Ref, r: Thread)
    requires t in w.thrs && t < w.next && !ThreadCreate(ProcessDup(ProcessDup(w, p), p), p, child).0.bad
    ensures var (w1, c) := ThreadCreate(ProcessDup(ProcessDup(w, p), p), p, child);
      ThreadCreate(ProcessDup(ProcessDup(Set(w, t, r), p), p), p, child) == (Set(w1, t, r), c)
        && Unnotified(Set(w1, t, r), c) == Set(Unnotified(w1, c), t, r)
  {
    ThreadCreateCommutes(ProcessDup(ProcessDup(w, p), p), p, child, t, r);
  }

  lemma ForkCommutes(w: World, p: Ref, child: Pid, t: Ref, r: Thread)
    requires t in w.thrs && t < w.next
    requires var (w1, q) := ProcessCreate(ProcessDup(w, p), child); !ThreadCreate(w1, q, child).0.bad
    ensures var (w1, q) := ProcessCreate(ProcessDup(w, p), child);
      var (w2, c) := ThreadCreate(w1, q, child);
      && ProcessCreate(ProcessDup(Set(w, t, r), p), child) == (Set(w1, t, r), q)
      && ThreadCreate(Set(w1, t, r), q, child) == (Set(w2, t, r), c)
         && Unnotified(Set(w2, t, r), c) == Set(Unnotified(w2, c), t, r)
  {
    var (w1, q) := ProcessCreate(ProcessDup(w, p), child);
    ThreadCreateCommutes(w1, q, child, t, r);
  }

  lemma PutCommutes(w: World, p: Ref, t: Ref, r: Thread)
    ensures ProcessPut(Set(w, t, r), p) == Set(ProcessPut(w, p), t, r)
  {
    if p !in w.procs || w.procs[p].references == 0 {
    } else if w.procs[p].references > 1 {
    } else if w.procs[p].threads != {} {
    } else {
      assert Set(w, t, r).procs - {p} == w.procs - {p};
    }
  }

  lemma CreateCommutes(w: World, child: Pid, o: Origin, t: Ref, r: Thread)
    requires OriginKnown(w, child, o) && t in w.thrs && t < w.next && !MakeChild(w, child, o).w.bad
    ensures var (g, c) := CloneCreateChild(w, child, o); CloneCreateChild(Set(w, t, r), child, o) == (Set(g, t, r), c)
  {
    var m := MakeChild(w, child, o);
    MadeCommutes(w, child, o, t, r);
    PutCommutes(m.w, m.p, t, r);
    PutCommutes(ProcessPut(m.w, m.p), m.q, t, r);
  }

  /** The parent's record after its event. */
  function Resumed(r: Thread, signo: nat): Thread {
    if r.dead || r.running then r else if r.stopme || r.slavemode then Parked(r, signo) else Continued(r, signo)
  }

  lemma ContinueIsSet(w: World, t: Ref, signo: nat)
    requires t in w.thrs
    ensures ContinueOrStop(w, t, signo, false) == Set(w, t, Resumed(w.thrs[t], signo))
  {
    assert w.thrs[t := w.thrs[t]] == w.thrs;
  }

  lemma SetSet(w: World, t: Ref, r: Thread, r': Thread)
    ensures Set(Set(w, t, r), t, r') == Set(w, t, r')
  {
    assert w.thrs[t := r][t := r'] == w.thrs[t := r'];
  }

  lemma SetSwap(w: World, t: Ref, u: Ref, r: Thread, r': Thread)
    requires t != u
    ensures Set(Set(w, t, r), u, r') == Set(Set(w, u, r'), t, r)
  {
    assert w.thrs[t := r][u := r'] == w.thrs[u := r'][t := r];
  }

  function Dupped(r: Thread): Thread { r.(references := r.references + 1) }

  /** A stop of a known thread changes its record only. */
  lemma StopIsSet(w: World, t: Ref, e: Event)
    requires e.pid in w.threads && w.threads[e.pid] == t && t in w.thrs && w.thrs[t].references > 0 && e.status.Stopped?
    requires !e.gone
    ensures Handle(w, e) == Set(w, t, Resumed(Woken(w.thrs[t], e.status), e.status.signo))
  {
    var r := Woken(Dupped(w.thrs[t]), e.status);
    var w1 := Set(ThreadDup(w, t), t, r);
    SetSet(w, t, Dupped(w.thrs[t]), r);
    ContinueIsSet(w1, t, e.status.signo);
    SetSet(w, t, r, Resumed(r, e.status.signo));
    var w2 := Set(w, t, Resumed(r, e.status.signo));
    SetSet(w, t, Resumed(r, e.status.signo), Resumed(r, e.status.signo).(references := w.thrs[t].references));
    assert ThreadPut(w2, t) == Set(w2, t, Resumed(r, e.status.signo).(references := w.thrs[t].references));
  }

  /** So does the event of a parent whose child is known. */
  lemma ConfirmIsSet(w: World, t: Ref, c: Ref, signo: nat)
    requires t in w.thrs && c in w.thrs && c != t && w.thrs[c].references > 0
    ensures ThreadPut(ContinueOrStop(ThreadDup(w, c), t, signo, false), c) == Set(w, t, Resumed(w.thrs[t], signo))
  {
    var w1 := Set(w, t, Resumed(w.thrs[t], signo));
    ContinueIsSet(ThreadDup(w, c), t, signo);
    SetSwap(w, c, t, Dupped(w.thrs[c]), Resumed(w.thrs[t], signo));
    assert ContinueOrStop(ThreadDup(w, c), t, signo, false) == ThreadDup(w1, c);
    DupPut(w1, c);
  }

  lemma ParentIsSet(w: World, t: Ref, c: Ref, e: Event)
    requires e.pid in w.threads && w.threads[e.pid] == t && t in w.thrs && w.thrs[t].references > 0 && e.status.Cloned?
    requires !e.gone
    requires e.status.child in w.threads && w.threads[e.status.child] == c && c in w.thrs && c != t
    requires w.thrs[c].references > 0
    ensures Handle(w, e) == Set(w, t, Resumed(Woken(w.thrs[t], e.status), 0))
  {
    var r := Woken(Dupped(w.thrs[t]), e.status);
    SetSet(w, t, Dupped(w.thrs[t]), r);
    var w1 := Set(w, t, r);
    ConfirmIsSet(w1, t, c, 0);
    SetSet(w, t, r, Resumed(r, 0));
    var w2 := Set(w, t, Resumed(r, 0));
    SetSet(w, t, Resumed(r, 0), Resumed(r, 0).(references := w.thrs[t].references));
    assert ThreadPut(w2, t) == Set(w2, t, Resumed(r, 0).(references := w.thrs[t].references));
  }

  /** The new records of a clone, before anybody continues the child. */
  ghost predicate Fresh(w: World, g: World, c: Ref, child: Pid, o: Origin) {
    && c !in w.thrs && g.threads == w.threads[child := c] && c in g.thrs && g.thrs == w.thrs[c := g.thrs[c]]
    && g.processes == (if o.tgid in w.processes then w.processes else w.processes[child := g.thrs[c].process])
    && g.thrs[c] == NewThread(child, g.thrs[c].process).(notified := false)
  }

  lemma MadeIsFresh(w: World, child: Pid, o: Origin)
    requires o.tgid in w.processes || o.ppid in w.processes
    requires var m := MakeChild(w, child, o); !m.w.bad && m.t !in w.thrs
    ensures var (g, c) := CloneCreateChild(w, child, o); Fresh(w, g, c, child, o)
  {
    var m := MakeChild(w, child, o);
    MadeFrame(w, child, o);
    MadeRecord(w, child, o);
    ProcessFrame(m.w, m.p);
    ProcessFrame(ProcessPut(m.w, m.p), m.q);
  }

  lemma CreateIsFresh(w: World, child: Pid, o: Origin)
    requires AtRest(w) && child !in w.threads && OriginKnown(w, child, o)
    ensures !MakeChild(w, child, o).w.bad
    ensures var (g, c) := CloneCreateChild(w, child, o); Fresh(w, g, c, child, o)
  {
    MadeKeeps(w, multiset{}, child, o);
    MadeIsFresh(w, child, o);
  }

  function Started(r: Thread): Thread { Resumed(r, 0).(references := 1) }

  lemma ChildFirst(w: World, child: Pid, o: Origin)
    requires child !in w.threads
    requires var (g, c) := CloneCreateChild(w, child, o); Fresh(w, g, c, child, o)
    ensures var (g, c) := CloneCreateChild(w, child, o);
            Handle(w, Event(child, Stopped(SIGSTOP), o, false)) == Set(g, c, Started(g.thrs[c]))
  {
    var (g, c) := CloneCreateChild(w, child, o);
    ContinueIsSet(g, c, 0);
    var g1 := Set(g, c, Resumed(g.thrs[c], 0));
    SetSet(g, c, Resumed(g.thrs[c], 0), Started(g.thrs[c]));
    assert ThreadPut(g1, c) == Set(g1, c, Started(g.thrs[c]));
  }

  /** The parent's part, once the child has been created: it continues, the child is put. */
  lemma ParentRest(g: World, t: Ref, c: Ref, r: Thread)
    requires t in g.thrs && c in g.thrs && c != t && g.thrs[c].references == 2
    ensures ThreadPut(ContinueOrStop(Set(Set(g, t, r), c, g.thrs[c].(running := true)), t, 0, false), c)
         == Set(Set(g, c, g.thrs[c].(running := true, references := 1)), t, Resumed(r, 0))
  {
    var r1 := g.thrs[c].(running := true);
    var g1 := Set(Set(g, t, r), c, r1);
    ContinueIsSet(g1, t, 0);
    SetSwap(g, t, c, r, r1);
    SetSet(Set(g, c, r1), t, r, Resumed(r, 0));
    var g2 := Set(Set(g, c, r1), t, Resumed(r, 0));
    SetSwap(g, c, t, r1, Resumed(r, 0));
    SetSet(Set(g, t, Resumed(r, 0)), c, r1, r1.(references := 1));
    SetSwap(g, c, t, r1.(references := 1), Resumed(r, 0));
    assert ThreadPut(g2, c) == Set(g2, c, r1.(references := 1));
  }

  lemma CloneParentIsSet(w: World, t: Ref, child: Pid, o: Origin, r: Thread)
    requires t in w.thrs && t < w.next && child !in w.threads && OriginKnown(w, child, o)
    requires !MakeChild(w, child, o).w.bad
    requires var (g, c) := CloneCreateChild(w, child, o); Fresh(w, g, c, child, o)
    ensures var (g, c) := CloneCreateChild(w, child, o);
      CloneParent(Set(w, t, r), t, child, o, false) ==
        Set(Set(g, c, g.thrs[c].(running := true, references := 1)), t, Resumed(r, 0))
  {
    var (g, c) := CloneCreateChild(w, child, o);
    CreateCommutes(w, child, o, t, r);
    ParentRest(g, t, c, r);
  }

  lemma PutIsSet(w: World, t: Ref, r: Thread, n: nat)
    requires r.references == n + 1 && n > 0
    ensures ThreadPut(Set(w, t, r), t) == Set(w, t, r.(references := n))
  {
    SetSet(w, t, r, r.(references := n));
  }

  lemma ParentFirst(w: World, t: Ref, child: Pid, e: Event)
    requires e.pid in w.threads && w.threads[e.pid] == t && t in w.thrs && w.thrs[t].references > 0 && t < w.next
    requires e.status == Cloned(child) && !e.gone && child !in w.threads && OriginKnown(w, child, e.origin)
    requires !MakeChild(w, child, e.origin).w.bad
    requires var (g, c) := CloneCreateChild(w, child, e.origin); Fresh(w, g, c, child, e.origin)
    ensures var (g, c) := CloneCreateChild(w, child, e.origin);
      Handle(w, e) ==
        Set(Set(g, c, g.thrs[c].(running := true, references := 1)), t, Resumed(Woken(w.thrs[t], e.status), 0))
  {
    var (g, c) := CloneCreateChild(w, child, e.origin);
    var r := Woken(Dupped(w.thrs[t]), e.status);
    SetSet(w, t, Dupped(w.thrs[t]), r);
    assert HandleStatus(ThreadDup(w, t), t, e) == CloneParent(Set(w, t, r), t, child, e.origin, false);
    CloneParentIsSet(w, t, child, e.origin, r);
    PutIsSet(Set(g, c, g.thrs[c].(running := true, references := 1)), t, Resumed(r, 0), w.thrs[t].references);
  }

  /** Whichever notification of a clone comes first, the records are the same afterwards:
      one new thread, and one new process if the child is not in a traced one. */
  lemma CloneNotificationsCommute(w: World, parent: Pid, child: Pid, o: Origin)
    requires AtRest(w) && parent in w.threads && child !in w.threads && OriginKnown(w, child, o)
    ensures var fromChild := Event(child, Stopped(SIGSTOP), o, false);
            var fromParent := Event(parent, Cloned(child), o, false);
      Handle(Handle(w, fromChild), fromParent) == Handle(Handle(w, fromParent), fromChild)
  {
    var fromChild, fromParent := Event(child, Stopped(SIGSTOP), o, false), Event(parent, Cloned(child), o, false);
    var t := w.threads[parent];
    var (g, c) := CloneCreateChild(w, child, o);
    RestThread(w, t);
    CreateIsFresh(w, child, o);
    ChildFirst(w, child, o);
    ParentFirst(w, t, child, fromParent);
    BothOrders(w, g, t, c, fromChild, fromParent, Resumed(Woken(w.thrs[t], fromParent.status), 0));
  }

  lemma BothOrders(w: World, g: World, t: Ref, c: Ref, fromChild: Event, fromParent: Event, after: Thread)
    requires fromChild.status == Stopped(SIGSTOP) && fromParent.status == Cloned(fromChild.pid) && !fromChild.gone
    requires !fromParent.gone
    requires Fresh(w, g, c, fromChild.pid, fromChild.origin) && fromParent.pid in w.threads
    requires fromChild.pid !in w.threads
    requires t == w.threads[fromParent.pid] && t in w.thrs && w.thrs[t].references > 0
    requires after == Resumed(Woken(w.thrs[t], fromParent.status), 0)
    ensures Handle(Set(g, c, Started(g.thrs[c])), fromParent)
         == Handle(Set(Set(g, c, g.thrs[c].(running := true, references := 1)), t, after), fromChild)
  {
    var r1, f := g.thrs[c].(running := true, references := 1), Started(g.thrs[c]);
    ParentIsSet(Set(g, c, f), t, c, fromParent);
    StopIsSet(Set(Set(g, c, r1), t, after), c, fromChild);
    SetSwap(g, c, t, r1, after);
    SetSet(Set(g, t, after), c, r1, f);
    SetSwap(g, t, c, after, f);
    assert Resumed(Woken(r1, fromChild.status), SIGSTOP) == f;
  }
}
