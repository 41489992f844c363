/**
 The tracer's records of processes and threads: two tables, reference counts, and the
 records themselves, which live until their count drops to zero.

 The functions are total: an assertion that fails, or a record that is used after it was
 freed, sets the flag bad.
 */
module Bookkeeping {

  type Pid = nat
  type Ref = nat  // the address of a record

  datatype Process = Process(pid: Pid, references: nat, threads: set<Pid>)

  datatype Thread = Thread(
    pid: Pid, process: Ref, references: nat,
    running: bool, stopme: bool, slavemode: bool, execed: bool, setoptions: bool, dead: bool,
    notified: bool, signo: nat)

  datatype World = World(
    processes: map<Pid, Ref>,  // process table
    threads: map<Pid, Ref>,    // thread table
    procs: map<Ref, Process>,  // allocated process records
    thrs: map<Ref, Thread>,    // allocated thread records
    next: Ref,                 // addresses from here on are unused
    bad: bool)

  function Bad(w: World): World { w.(bad := true) }

  // ----- list.c -----

  function ProcessDup(w: World, p: Ref): World {
    if p !in w.procs then Bad(w)
    else w.(procs := w.procs[p := w.procs[p].(references := w.procs[p].references + 1)])
  }

  /** process_put, with process_free for the last reference */
  function ProcessPut(w: World, p: Ref): World {
    if p !in w.procs || w.procs[p].references == 0 then Bad(w)
    else if w.procs[p].references > 1 then
      w.(procs := w.procs[p := w.procs[p].(references := w.procs[p].references - 1)])
    else if w.procs[p].threads != {} then Bad(w)
    else w.(procs := w.procs - {p})
  }

  function ProcessDel(w: World, p: Ref): World {
    if p !in w.procs || w.procs[p].pid !in w.processes then Bad(w)
    else ProcessPut(w.(processes := w.processes - {w.procs[p].pid}), p)
  }

  function ThreadDup(w: World, t: Ref): World {
    if t !in w.thrs then Bad(w)
    else w.(thrs := w.thrs[t := w.thrs[t].(references := w.thrs[t].references + 1)])
  }

  /** thread_put, with thread_free for the last reference */
  function ThreadPut(w: World, t: Ref): World {
    if t !in w.thrs || w.thrs[t].references == 0 then Bad(w)
    else if w.thrs[t].references > 1 then
      w.(thrs := w.thrs[t := w.thrs[t].(references := w.thrs[t].references - 1)])
    else ThreadFree(w, t)
  }

  /** thread_free: an empty thread tree removes the process from the table. */
  function ThreadFree(w: World, t: Ref): World {
    if t !in w.thrs || w.thrs[t].process !in w.procs then Bad(w)
    else
      var p := w.thrs[t].process;
      var w1 := w.(thrs := w.thrs - {t});
      ProcessPut(if w.procs[p].threads == {} then ProcessDel(w1, p) else w1, p)
  }

  function ThreadDel(w: World, t: Ref): World {
    if t !in w.thrs || w.thrs[t].process !in w.procs then Bad(w)
    else if w.thrs[t].pid !in w.threads || w.thrs[t].pid !in w.procs[w.thrs[t].process].threads then Bad(w)
    else ThreadPut(Unlisted(w, t), t)
  }

  /** Both tree_remove calls of thread_del. */
  function Unlisted(w: World, t: Ref): World
    requires t in w.thrs && w.thrs[t].process in w.procs
  {
    var pid, p := w.thrs[t].pid, w.thrs[t].process;
    w.(threads := w.threads - {pid}, procs := w.procs[p := w.procs[p].(threads := w.procs[p].threads - {pid})])
  }

  // ----- Creation -----

  /** process_create: the caller gets a reference. */
  function ProcessCreate(w: World, pid: Pid): (World, Ref) {
    if pid in w.processes then (Bad(w), w.next)
    else
      (w.(processes := w.processes[pid := w.next],
          procs := w.procs[w.next := Process(pid, 2, {})],
          next := w.next + 1), w.next)
  }

  function NewThread(pid: Pid, p: Ref): Thread {
    Thread(pid, p, 2, false, false, false, false, true, false, true, 0)
  }

  function Extended(p: Process, pid: Pid): Process {
    p.(references := p.references + 1, threads := p.threads + {pid})
  }

  /** thread_create: the caller gets a reference. */
  function ThreadCreate(w: World, p: Ref, pid: Pid): (World, Ref) {
    if p !in w.procs || pid in w.threads || pid in w.procs[p].threads then (Bad(w), w.next)
    else
      var proc := w.procs[p];
      (w.(threads := w.threads[pid := w.next],
          procs := w.procs[p := Extended(proc, pid)],
          thrs := w.thrs[w.next := NewThread(pid, p)],
          next := w.next + 1), w.next)
  }

  // ----- The counting invariant -----

  function One(b: bool): nat { if b then 1 else 0 }

  predicate ListedT(threads: map<Pid, Ref>, thrs: map<Ref, Thread>, t: Ref) {
    t in thrs && thrs[t].pid in threads && threads[thrs[t].pid] == t
  }

  predicate ListedP(processes: map<Pid, Ref>, procs: map<Ref, Process>, p: Ref) {
    p in procs && procs[p].pid in processes && processes[procs[p].pid] == p
  }

  /** The thread records of a process. */
  function Live(thrs: map<Ref, Thread>, p: Ref): set<Ref> {
    set t | t in thrs && thrs[t].process == p
  }

  /** The threads of a process that are in the thread table. */
  function Members(threads: map<Pid, Ref>, thrs: map<Ref, Thread>, p: Ref): set<Pid> {
    set pid | pid in threads && threads[pid] in Live(thrs, p)
  }

  ghost predicate ThreadTable(threads: map<Pid, Ref>, thrs: map<Ref, Thread>, next: Ref) {
    && (forall pid :: pid in threads ==> threads[pid] in thrs && thrs[threads[pid]].pid == pid)
    && (forall t :: t in thrs ==> t < next)
  }

  ghost predicate ProcessTable(processes: map<Pid, Ref>, procs: map<Ref, Process>, next: Ref) {
    && (forall pid :: pid in processes ==> processes[pid] in procs && procs[processes[pid]].pid == pid)
    && (forall p :: p in procs ==> p < next)
  }

  /** A thread's references: the table's, and those that ht says are held. */
  ghost predicate ThreadCount(threads: map<Pid, Ref>, thrs: map<Ref, Thread>, ht: multiset<Ref>, t: Ref)
    requires t in thrs
  {
    thrs[t].references == One(ListedT(threads, thrs, t)) + ht[t] > 0
  }

  ghost predicate ThreadCounts(threads: map<Pid, Ref>, thrs: map<Ref, Thread>, ht: multiset<Ref>) {
    && (forall t :: t in thrs ==> ThreadCount(threads, thrs, ht, t))
    && (forall t :: t in ht ==> t in thrs)
  }

  /** A process's references: the table's, one for each of its thread records, and those that
      hp says are held.  It stays in the table while it has thread records. */
  ghost predicate ProcessCount(processes: map<Pid, Ref>, procs: map<Ref, Process>, thrs: map<Ref, Thread>,
                               hp: multiset<Ref>, p: Ref)
    requires p in procs
  {
    && procs[p].references == One(ListedP(processes, procs, p)) + |Live(thrs, p)| + hp[p] > 0
    && (Live(thrs, p) != {} ==> ListedP(processes, procs, p))
  }

  ghost predicate ProcessCounts(processes: map<Pid, Ref>, procs: map<Ref, Process>, thrs: map<Ref, Thread>,
                                hp: multiset<Ref>) {
    && (forall p :: p in procs ==> ProcessCount(processes, procs, thrs, hp, p))
    && (forall p :: p in hp ==> p in procs)
  }

  /** No thread record points to a freed process. */
  ghost predicate Owned(procs: map<Ref, Process>, thrs: map<Ref, Thread>) {
    forall t :: t in thrs ==> thrs[t].process in procs
  }

  /** The thread tree of each process holds its threads of the thread table. */
  ghost predicate Trees(threads: map<Pid, Ref>, procs: map<Ref, Process>, thrs: map<Ref, Thread>) {
    forall p :: p in procs ==> procs[p].threads == Members(threads, thrs, p)
  }

  /** No assertion failed, and the records are exactly as referenced, when hp and ht say
      which references are held outside the tables and the records. */
  ghost predicate Inv(w: World, hp: multiset<Ref>, ht: multiset<Ref>) {
    && !w.bad
    && ThreadTable(w.threads, w.thrs, w.next) && ProcessTable(w.processes, w.procs, w.next)
    && ThreadCounts(w.threads, w.thrs, ht) && ProcessCounts(w.processes, w.procs, w.thrs, hp)
    && Owned(w.procs, w.thrs) && Trees(w.threads, w.procs, w.thrs)
  }

  // ----- Elementary changes, on the parts of the invariant that they concern -----

  /** All other processes keep their counts. */
  lemma OthersCount(processes: map<Pid, Ref>, processes': map<Pid, Ref>,
                    procs: map<Ref, Process>, procs': map<Ref, Process>,
                    thrs: map<Ref, Thread>, thrs': map<Ref, Thread>, hp: multiset<Ref>, hp': multiset<Ref>, p: Ref)
    requires ProcessCounts(processes, procs, thrs, hp)
    requires forall q :: q in procs' && q != p ==>
      && q in procs && procs'[q].references == procs[q].references && hp'[q] == hp[q] && Live(thrs', q) == Live(thrs, q)
      && ListedP(processes', procs', q) == ListedP(processes, procs, q)
    requires if p in procs' then ProcessCount(processes', procs', thrs', hp', p) else p !in hp'
    requires forall q :: q in hp' && q != p ==> q in procs'
    ensures ProcessCounts(processes', procs', thrs', hp')
  {
    forall q | q in procs' && q != p
      ensures ProcessCount(processes', procs', thrs', hp', q)
    {
      assert ProcessCount(processes, procs, thrs, hp, q);
    }
  }

  /** Changing the count of a process and its holders alike. */
  lemma Recount(processes: map<Pid, Ref>, procs: map<Ref, Process>, thrs: map<Ref, Thread>, hp: multiset<Ref>,
                hp': multiset<Ref>, p: Ref, n: nat)
    requires ProcessCounts(processes, procs, thrs, hp) && p in procs && n > 0
    requires n + hp[p] == procs[p].references + hp'[p]
    requires forall q :: q != p ==> hp'[q] == hp[q]
    ensures ProcessCounts(processes, procs[p := procs[p].(references := n)], thrs, hp')
  {
    assert ProcessCount(processes, procs, thrs, hp, p);
    OthersCount(processes, processes, procs, procs[p := procs[p].(references := n)], thrs, thrs, hp, hp', p);
  }

  lemma RecountProcess(w: World, hp: multiset<Ref>, hp': multiset<Ref>, ht: multiset<Ref>, p: Ref, n: nat)
    requires Inv(w, hp, ht) && p in w.procs && n > 0 && n + hp[p] == w.procs[p].references + hp'[p]
    requires forall q :: q != p ==> hp'[q] == hp[q]
    ensures Inv(w.(procs := w.procs[p := w.procs[p].(references := n)]), hp', ht)
  {
    Recount(w.processes, w.procs, w.thrs, hp, hp', p, n);
  }

  lemma ProcessDupKeeps(w: World, hp: multiset<Ref>, ht: multiset<Ref>, p: Ref)
    requires Inv(w, hp, ht) && p in w.procs
    ensures Inv(ProcessDup(w, p), hp + multiset{p}, ht)
  {
    RecountProcess(w, hp, hp + multiset{p}, ht, p, w.procs[p].references + 1);
  }

  /** The last reference: the process is in no table, and no thread record needs it. */
  lemma LastReference(w: World, hp: multiset<Ref>, ht: multiset<Ref>, p: Ref)
    requires Inv(w, hp, ht) && p in hp && w.procs[p].references == 1
    ensures hp[p] == 1 && Live(w.thrs, p) == {} && !ListedP(w.processes, w.procs, p) && w.procs[p].threads == {}
  {
    assert ProcessCount(w.processes, w.procs, w.thrs, hp, p);
    assert Live(w.thrs, p) == {};
    assert Members(w.threads, w.thrs, p) == {};
  }

  lemma FreeProcess(w: World, hp: multiset<Ref>, ht: multiset<Ref>, p: Ref)
    requires Inv(w, hp, ht) && hp[p] == 1 && Live(w.thrs, p) == {} && !ListedP(w.processes, w.procs, p)
    ensures Inv(w.(procs := w.procs - {p}), hp - multiset{p}, ht)
  {
    forall t | t in w.thrs
      ensures w.thrs[t].process in w.procs - {p}
    {
      assert t in Live(w.thrs, w.thrs[t].process);
    }
    OthersCount(w.processes, w.processes, w.procs, w.procs - {p}, w.thrs, w.thrs, hp, hp - multiset{p}, p);
  }

  lemma ProcessPutSome(w: World, hp: multiset<Ref>, ht: multiset<Ref>, p: Ref)
    requires Inv(w, hp, ht) && p in hp && w.procs[p].references > 1
    ensures Inv(ProcessPut(w, p), hp - multiset{p}, ht)
  {
    HeldLess(hp, p);
    RecountProcess(w, hp, hp - multiset{p}, ht, p, w.procs[p].references - 1);
    assert ProcessPut(w, p) == w.(procs := w.procs[p := w.procs[p].(references := w.procs[p].references - 1)]);
  }

  lemma ProcessPutKeeps(w: World, hp: multiset<Ref>, ht: multiset<Ref>, p: Ref)
    requires Inv(w, hp, ht) && p in hp
    ensures Inv(ProcessPut(w, p), hp - multiset{p}, ht)
  {
    Referenced(w, hp, ht);
    if w.procs[p].references == 1 {
      LastReference(w, hp, ht, p);
      FreeProcess(w, hp, ht, p);
    } else {
      ProcessPutSome(w, hp, ht, p);
    }
  }

  // ----- Changes of one thread record -----

  /** Only the processes' thread records matter to their counts, not what is in them. */
  lemma SameLive(w: World, thrs: map<Ref, Thread>, hp: multiset<Ref>)
    requires ProcessCounts(w.processes, w.procs, w.thrs, hp) && forall p :: Live(thrs, p) == Live(w.thrs, p)
    ensures ProcessCounts(w.processes, w.procs, thrs, hp)
    ensures Trees(w.threads, w.procs, w.thrs) ==> Trees(w.threads, w.procs, thrs)
  {
    forall p | p in w.procs
      ensures ProcessCount(w.processes, w.procs, thrs, hp, p)
    {
      assert ProcessCount(w.processes, w.procs, w.thrs, hp, p);
    }
    forall p
      ensures Members(w.threads, thrs, p) == Members(w.threads, w.thrs, p)
    {
    }
  }

  lemma OtherThreadsCount(threads: map<Pid, Ref>, thrs: map<Ref, Thread>, ht: multiset<Ref>, ht': multiset<Ref>, t: Ref,
                          r: Thread)
    requires ThreadCounts(threads, thrs, ht) && t in thrs && r.pid == thrs[t].pid
    requires r.references > 0 && r.references + ht[t] == thrs[t].references + ht'[t]
    requires forall u :: u != t ==> ht'[u] == ht[u]
    ensures ThreadCounts(threads, thrs[t := r], ht')
  {
    forall u | u in thrs
      ensures ThreadCount(threads, thrs[t := r], ht', u)
    {
      assert ThreadCount(threads, thrs, ht, u);
    }
  }

  lemma LiveKept(thrs: map<Ref, Thread>, t: Ref, r: Thread)
    requires t in thrs && r.process == thrs[t].process
    ensures forall p :: Live(thrs[t := r], p) == Live(thrs, p)
  {
  }

  /** Any change of a thread record that keeps its identity. */
  lemma ChangeThread(w: World, hp: multiset<Ref>, ht: multiset<Ref>, ht': multiset<Ref>, t: Ref, r: Thread)
    requires Inv(w, hp, ht) && t in w.thrs && r.pid == w.thrs[t].pid && r.process == w.thrs[t].process
    requires r.references > 0 && r.references + ht[t] == w.thrs[t].references + ht'[t]
    requires forall u :: u != t ==> ht'[u] == ht[u]
    ensures Inv(w.(thrs := w.thrs[t := r]), hp, ht')
    ensures forall p :: Live(w.thrs[t := r], p) == Live(w.thrs, p)
  {
    OtherThreadsCount(w.threads, w.thrs, ht, ht', t, r);
    LiveKept(w.thrs, t, r);
    SameLive(w, w.thrs[t := r], hp);
  }

  lemma ThreadDupKeeps(w: World, hp: multiset<Ref>, ht: multiset<Ref>, t: Ref)
    requires Inv(w, hp, ht) && t in w.thrs
    ensures Inv(ThreadDup(w, t), hp, ht + multiset{t})
  {
    ChangeThread(w, hp, ht, ht + multiset{t}, t, w.thrs[t].(references := w.thrs[t].references + 1));
  }

  /** Only identifiers and counts of the processes matter, not their thread trees. */
  lemma SameProcesses(w: World, procs: map<Ref, Process>, hp: multiset<Ref>)
    requires ProcessTable(w.processes, w.procs, w.next) && ProcessCounts(w.processes, w.procs, w.thrs, hp)
    requires Owned(w.procs, w.thrs)
    requires procs.Keys == w.procs.Keys
    requires forall p :: p in procs ==> procs[p].pid == w.procs[p].pid && procs[p].references == w.procs[p].references
    ensures ProcessTable(w.processes, procs, w.next) && ProcessCounts(w.processes, procs, w.thrs, hp)
    ensures Owned(procs, w.thrs)
  {
    forall p | p in procs
      ensures ProcessCount(w.processes, procs, w.thrs, hp, p)
    {
      assert ProcessCount(w.processes, w.procs, w.thrs, hp, p);
    }
  }

  lemma UnlistedThreads(w: World, ht: multiset<Ref>, t: Ref)
    requires ThreadTable(w.threads, w.thrs, w.next) && ThreadCounts(w.threads, w.thrs, ht)
    requires ListedT(w.threads, w.thrs, t)
    ensures ThreadTable(w.threads - {w.thrs[t].pid}, w.thrs, w.next)
    ensures ThreadCounts(w.threads - {w.thrs[t].pid}, w.thrs, ht + multiset{t})
  {
    forall u | u in w.thrs
      ensures ThreadCount(w.threads - {w.thrs[t].pid}, w.thrs, ht + multiset{t}, u)
    {
      assert ThreadCount(w.threads, w.thrs, ht, u);
    }
  }

  lemma UnlistedTrees(w: World, t: Ref)
    requires Owned(w.procs, w.thrs) && Trees(w.threads, w.procs, w.thrs) && ListedT(w.threads, w.thrs, t)
    ensures Trees(Unlisted(w, t).threads, Unlisted(w, t).procs, w.thrs)
  {
    var w' := Unlisted(w, t);
    forall p | p in w'.procs
      ensures w'.procs[p].threads == Members(w'.threads, w.thrs, p)
    {
      assert w.procs[p].threads == Members(w.threads, w.thrs, p);
      assert Members(w'.threads, w.thrs, p) == Members(w.threads, w.thrs, p) - {w.thrs[t].pid};
      assert p != w.thrs[t].process ==> t !in Live(w.thrs, p);
    }
  }

  /** Out of the tables: the table's reference is now held by the caller. */
  lemma UnlistedKeeps(w: World, hp: multiset<Ref>, ht: multiset<Ref>, t: Ref)
    requires Inv(w, hp, ht) && ListedT(w.threads, w.thrs, t)
    ensures Inv(Unlisted(w, t), hp, ht + multiset{t})
  {
    UnlistedThreads(w, ht, t);
    UnlistedTrees(w, t);
    SameProcesses(w, Unlisted(w, t).procs, hp);
  }

  // ----- Freeing a thread record -----

  lemma FreedCounts(w: World, hp: multiset<Ref>, t: Ref)
    requires ProcessCounts(w.processes, w.procs, w.thrs, hp) && Owned(w.procs, w.thrs) && t in w.thrs
    ensures ProcessCounts(w.processes, w.procs, w.thrs - {t}, hp + multiset{w.thrs[t].process})
  {
    var p := w.thrs[t].process;
    assert ProcessCount(w.processes, w.procs, w.thrs, hp, p) && t in Live(w.thrs, p);
    assert Live(w.thrs - {t}, p) == Live(w.thrs, p) - {t};
    forall q | q != p
      ensures Live(w.thrs - {t}, q) == Live(w.thrs, q)
    {
    }
    OthersCount(w.processes, w.processes, w.procs, w.procs, w.thrs, w.thrs - {t}, hp, hp + multiset{p}, p);
  }

  lemma FreedThreads(w: World, ht: multiset<Ref>, t: Ref)
    requires ThreadTable(w.threads, w.thrs, w.next) && ThreadCounts(w.threads, w.thrs, ht)
    requires t in w.thrs && !ListedT(w.threads, w.thrs, t) && ht[t] == 1
    ensures ThreadTable(w.threads, w.thrs - {t}, w.next) && ThreadCounts(w.threads, w.thrs - {t}, ht - multiset{t})
  {
    forall u | u in w.thrs - {t}
      ensures ThreadCount(w.threads, w.thrs - {t}, ht - multiset{t}, u)
    {
      assert ThreadCount(w.threads, w.thrs, ht, u);
    }
  }

  lemma FreedTrees(w: World, t: Ref)
    requires ThreadTable(w.threads, w.thrs, w.next) && Trees(w.threads, w.procs, w.thrs) && t in w.thrs
    requires !ListedT(w.threads, w.thrs, t)
    ensures Trees(w.threads, w.procs, w.thrs - {t})
  {
    forall p | p in w.procs
      ensures w.procs[p].threads == Members(w.threads, w.thrs - {t}, p)
    {
      assert w.procs[p].threads == Members(w.threads, w.thrs, p);
    }
  }

  /** The record is gone: its reference to the process is now held by the caller. */
  lemma FreedKeeps(w: World, hp: multiset<Ref>, ht: multiset<Ref>, t: Ref)
    requires Inv(w, hp, ht) && t in w.thrs && !ListedT(w.threads, w.thrs, t) && ht[t] == 1
    ensures Inv(w.(thrs := w.thrs - {t}), hp + multiset{w.thrs[t].process}, ht - multiset{t})
  {
    FreedCounts(w, hp, t);
    FreedThreads(w, ht, t);
    FreedTrees(w, t);
  }

  lemma ProcessDelKeeps(w: World, hp: multiset<Ref>, ht: multiset<Ref>, p: Ref)
    requires Inv(w, hp, ht) && ListedP(w.processes, w.procs, p) && Live(w.thrs, p) == {}
    ensures Inv(ProcessDel(w, p), hp, ht)
  {
    var w' := w.(processes := w.processes - {w.procs[p].pid});
    assert ProcessCount(w.processes, w.procs, w.thrs, hp, p);
    OthersCount(w.processes, w'.processes, w.procs, w.procs, w.thrs, w.thrs, hp, hp + multiset{p}, p);
    assert Inv(w', hp + multiset{p}, ht);
    ProcessPutKeeps(w', hp + multiset{p}, ht, p);
    assert hp + multiset{p} - multiset{p} == hp;
  }

  // ----- thread_put and thread_del -----

  /** Freeing t is in order: its process still has threads in the table, or t is its last record. */
  predicate CanFree(w: World, t: Ref)
    requires t in w.thrs && w.thrs[t].process in w.procs
  {
    w.procs[w.thrs[t].process].threads != {} || Live(w.thrs, w.thrs[t].process) == {t}
  }

  lemma LastThreadReference(w: World, hp: multiset<Ref>, ht: multiset<Ref>, t: Ref)
    requires Inv(w, hp, ht) && t in ht && w.thrs[t].references == 1
    ensures !ListedT(w.threads, w.thrs, t) && ht[t] == 1
  {
    assert ThreadCount(w.threads, w.thrs, ht, t);
  }

  lemma HasOwner(w: World, hp: multiset<Ref>, ht: multiset<Ref>, t: Ref)
    requires Inv(w, hp, ht) && t in w.thrs
    ensures w.thrs[t].process in w.procs && ListedP(w.processes, w.procs, w.thrs[t].process)
    ensures w.procs[w.thrs[t].process].threads == Members(w.threads, w.thrs, w.thrs[t].process)
  {
    var p := w.thrs[t].process;
    assert ProcessCount(w.processes, w.procs, w.thrs, hp, p) && t in Live(w.thrs, p);
  }

  lemma ProcessDelPutKeeps(w: World, hp: multiset<Ref>, ht: multiset<Ref>, p: Ref, last: bool)
    requires Inv(w, hp + multiset{p}, ht) && (last ==> ListedP(w.processes, w.procs, p) && Live(w.thrs, p) == {})
    ensures Inv(ProcessPut(if last then ProcessDel(w, p) else w, p), hp, ht)
  {
    if last {
      ProcessDelKeeps(w, hp + multiset{p}, ht, p);
    }
    ProcessPutKeeps(if last then ProcessDel(w, p) else w, hp + multiset{p}, ht, p);
    assert hp + multiset{p} - multiset{p} == hp;
  }

  lemma ThreadFreeKeeps(w: World, hp: multiset<Ref>, ht: multiset<Ref>, t: Ref)
    requires Inv(w, hp, ht) && t in ht && w.thrs[t].references == 1 && CanFree(w, t)
    ensures Inv(ThreadFree(w, t), hp, ht - multiset{t})
  {
    LastThreadReference(w, hp, ht, t);
    HasOwner(w, hp, ht, t);
    FreedKeeps(w, hp, ht, t);
    var p := w.thrs[t].process;
    LiveLess(w.thrs, t);
    ProcessDelPutKeeps(w.(thrs := w.thrs - {t}), hp, ht - multiset{t}, p, w.procs[p].threads == {});
  }

  lemma ThreadPutSome(w: World, hp: multiset<Ref>, ht: multiset<Ref>, t: Ref)
    requires Inv(w, hp, ht) && t in ht && w.thrs[t].references > 1
    ensures Inv(ThreadPut(w, t), hp, ht - multiset{t}) && forall p :: Live(ThreadPut(w, t).thrs, p) == Live(w.thrs, p)
  {
    HeldLess(ht, t);
    ChangeThread(w, hp, ht, ht - multiset{t}, t, w.thrs[t].(references := w.thrs[t].references - 1));
    assert ThreadPut(w, t) == w.(thrs := w.thrs[t := w.thrs[t].(references := w.thrs[t].references - 1)]);
  }

  lemma HeldLess(held: multiset<Ref>, t: Ref)
    requires t in held
    ensures (held - multiset{t})[t] == held[t] - 1 && forall u :: u != t ==> (held - multiset{t})[u] == held[u]
  {
  }

  lemma Referenced(w: World, hp: multiset<Ref>, ht: multiset<Ref>)
    requires Inv(w, hp, ht)
    ensures forall t :: t in w.thrs ==> w.thrs[t].references > 0
    ensures forall p :: p in w.procs ==> w.procs[p].references > 0
  {
    forall t | t in w.thrs
      ensures w.thrs[t].references > 0
    {
      assert ThreadCount(w.threads, w.thrs, ht, t);
    }
    forall p | p in w.procs
      ensures w.procs[p].references > 0
    {
      assert ProcessCount(w.processes, w.procs, w.thrs, hp, p);
    }
  }

  lemma ThreadPutKeeps(w: World, hp: multiset<Ref>, ht: multiset<Ref>, t: Ref)
    requires Inv(w, hp, ht) && t in ht && (w.thrs[t].references == 1 ==> CanFree(w, t))
    ensures Inv(ThreadPut(w, t), hp, ht - multiset{t})
  {
    Referenced(w, hp, ht);
    if w.thrs[t].references == 1 {
      ThreadFreeKeeps(w, hp, ht, t);
    } else {
      ThreadPutSome(w, hp, ht, t);
    }
  }

  lemma ThreadDelKeeps(w: World, hp: multiset<Ref>, ht: multiset<Ref>, t: Ref)
    requires Inv(w, hp, ht) && ListedT(w.threads, w.thrs, t)
    requires w.thrs[t].references == 1 ==> CanFree(Unlisted(w, t), t)
    ensures Inv(ThreadDel(w, t), hp, ht)
  {
    HasOwner(w, hp, ht, t);
    UnlistedKeeps(w, hp, ht, t);
    assert w.thrs[t].pid in Members(w.threads, w.thrs, w.thrs[t].process);
    ThreadPutKeeps(Unlisted(w, t), hp, ht + multiset{t}, t);
    assert ht + multiset{t} - multiset{t} == ht;
  }

  // ----- Creation -----

  lemma CreatedProcessCounts(w: World, hp: multiset<Ref>, pid: Pid)
    requires ProcessCounts(w.processes, w.procs, w.thrs, hp) && ProcessTable(w.processes, w.procs, w.next)
    requires Owned(w.procs, w.thrs)
    requires pid !in w.processes
    ensures ProcessCounts(w.processes[pid := w.next], w.procs[w.next := Process(pid, 2, {})], w.thrs,
                          hp + multiset{w.next})
  {
    var processes', procs' := w.processes[pid := w.next], w.procs[w.next := Process(pid, 2, {})];
    assert Live(w.thrs, w.next) == {};
    assert w.next !in hp;
    OthersCount(w.processes, processes', w.procs, procs', w.thrs, w.thrs, hp, hp + multiset{w.next}, w.next);
  }

  lemma ProcessCreateKeeps(w: World, hp: multiset<Ref>, ht: multiset<Ref>, pid: Pid)
    requires Inv(w, hp, ht) && pid !in w.processes
    ensures Inv(ProcessCreate(w, pid).0, hp + multiset{w.next}, ht)
  {
    CreatedProcessCounts(w, hp, pid);
    CreatedProcessTables(w, pid);
  }

  lemma CreatedProcessTables(w: World, pid: Pid)
    requires ThreadTable(w.threads, w.thrs, w.next) && ProcessTable(w.processes, w.procs, w.next) && pid !in w.processes
    requires Owned(w.procs, w.thrs) && Trees(w.threads, w.procs, w.thrs)
    ensures var w' := ProcessCreate(w, pid).0;
      && ThreadTable(w'.threads, w'.thrs, w'.next) && ProcessTable(w'.processes, w'.procs, w'.next)
      && Owned(w'.procs, w'.thrs) && Trees(w'.threads, w'.procs, w'.thrs)
  {
    assert Members(w.threads, w.thrs, w.next) == {};
  }

  lemma CreatedThreadCounts(w: World, hp: multiset<Ref>, p: Ref, pid: Pid)
    requires ProcessCounts(w.processes, w.procs, w.thrs, hp) && ListedP(w.processes, w.procs, p) && w.next !in w.thrs
    ensures ProcessCounts(w.processes, w.procs[p := Extended(w.procs[p], pid)], w.thrs[w.next := NewThread(pid, p)], hp)
  {
    var thrs' := w.thrs[w.next := NewThread(pid, p)];
    assert ProcessCount(w.processes, w.procs, w.thrs, hp, p);
    assert Live(thrs', p) == Live(w.thrs, p) + {w.next};
    forall q | q != p
      ensures Live(thrs', q) == Live(w.thrs, q)
    {
    }
    OthersCount(w.processes, w.processes, w.procs, w.procs[p := Extended(w.procs[p], pid)], w.thrs, thrs', hp, hp, p);
  }

  lemma CreatedThreads(w: World, ht: multiset<Ref>, p: Ref, pid: Pid)
    requires ThreadTable(w.threads, w.thrs, w.next) && ThreadCounts(w.threads, w.thrs, ht) && pid !in w.threads
    ensures ThreadCounts(w.threads[pid := w.next], w.thrs[w.next := NewThread(pid, p)], ht + multiset{w.next})
    ensures ThreadTable(w.threads[pid := w.next], w.thrs[w.next := NewThread(pid, p)], w.next + 1)
  {
    assert w.next !in w.thrs && w.next !in ht;
    CreatedThreadTable(w, p, pid);
    forall u | u in w.thrs
      ensures ThreadCount(w.threads[pid := w.next], w.thrs[w.next := NewThread(pid, p)], ht + multiset{w.next}, u)
    {
      OtherThreadCounts(w, ht, p, pid, u);
    }
  }

  lemma CreatedThreadTable(w: World, p: Ref, pid: Pid)
    requires ThreadTable(w.threads, w.thrs, w.next) && pid !in w.threads
    ensures ThreadTable(w.threads[pid := w.next], w.thrs[w.next := NewThread(pid, p)], w.next + 1)
  {
  }

  lemma OtherThreadCounts(w: World, ht: multiset<Ref>, p: Ref, pid: Pid, u: Ref)
    requires ThreadTable(w.threads, w.thrs, w.next) && ThreadCounts(w.threads, w.thrs, ht) && pid !in w.threads
    requires u in w.thrs
    ensures ThreadCount(w.threads[pid := w.next], w.thrs[w.next := NewThread(pid, p)], ht + multiset{w.next}, u)
  {
    assert ThreadCount(w.threads, w.thrs, ht, u) && u != w.next;
  }

  lemma CreatedTrees(w: World, p: Ref, pid: Pid)
    requires ThreadTable(w.threads, w.thrs, w.next) && Trees(w.threads, w.procs, w.thrs) && p in w.procs
    requires pid !in w.threads
    ensures Trees(w.threads[pid := w.next], w.procs[p := Extended(w.procs[p], pid)],
                  w.thrs[w.next := NewThread(pid, p)])
  {
    var threads', thrs' := w.threads[pid := w.next], w.thrs[w.next := NewThread(pid, p)];
    forall q | q in w.procs
      ensures Members(threads', thrs', q) == w.procs[q].threads + (if q == p then {pid} else {})
    {
      assert w.procs[q].threads == Members(w.threads, w.thrs, q);
    }
  }

  lemma ThreadCreateKeeps(w: World, hp: multiset<Ref>, ht: multiset<Ref>, p: Ref, pid: Pid)
    requires Inv(w, hp, ht) && ListedP(w.processes, w.procs, p) && pid !in w.threads
    ensures Inv(ThreadCreate(w, p, pid).0, hp, ht + multiset{w.next})
  {
    CreatedThreadCounts(w, hp, p, pid);
    CreatedThreads(w, ht, p, pid);
    CreatedTrees(w, p, pid);
    assert pid !in Members(w.threads, w.thrs, p);
  }

  // ----- When a process leaves the table -----

  /** The processes that leave the table are those whose last thread record is freed, and only
      a new record enters the table. */
  ghost predicate LeavesExactly(w: World, w': World) {
    && (forall p: Ref ::
          (ListedP(w.processes, w.procs, p) && !ListedP(w'.processes, w'.procs, p)) <==>
            (Live(w.thrs, p) != {} && Live(w'.thrs, p) == {}))
    && (forall p: Ref :: ListedP(w'.processes, w'.procs, p) && p < w.next ==> ListedP(w.processes, w.procs, p))
  }

  /** What ProcessPut cannot do. */
  lemma ProcessPutFrame(w: World, p: Ref)
    requires p in w.procs && w.procs[p].references > 0
    requires w.procs[p].references == 1 ==> !ListedP(w.processes, w.procs, p) && w.procs[p].threads == {}
    ensures ProcessPut(w, p).processes == w.processes && ProcessPut(w, p).thrs == w.thrs
    ensures ProcessPut(w, p).next == w.next
    ensures forall q :: ListedP(w.processes, ProcessPut(w, p).procs, q) == ListedP(w.processes, w.procs, q)
  {
  }

  lemma ProcessPutLeaves(w: World, hp: multiset<Ref>, ht: multiset<Ref>, p: Ref)
    requires Inv(w, hp, ht) && p in hp
    ensures LeavesExactly(w, ProcessPut(w, p))
  {
    assert w.procs[p].references > 0 by {
      assert ProcessCount(w.processes, w.procs, w.thrs, hp, p);
    }
    if w.procs[p].references == 1 {
      LastReference(w, hp, ht, p);
    }
    ProcessPutFrame(w, p);
  }

  lemma ProcessDupLeaves(w: World, p: Ref)
    requires p in w.procs
    ensures LeavesExactly(w, ProcessDup(w, p))
  {
    assert forall q :: ListedP(w.processes, ProcessDup(w, p).procs, q) == ListedP(w.processes, w.procs, q);
  }

  lemma OwnerCount(w: World, hp: multiset<Ref>, ht: multiset<Ref>, t: Ref)
    requires Inv(w, hp, ht) && t in w.thrs && w.thrs[t].process in w.procs
    ensures w.procs[w.thrs[t].process].references > 1
  {
    var p := w.thrs[t].process;
    HasOwner(w, hp, ht, t);
    assert ProcessCount(w.processes, w.procs, w.thrs, hp, p) && t in Live(w.thrs, p);
    assert |Live(w.thrs, p)| > 0;
  }

  lemma LiveLess(thrs: map<Ref, Thread>, t: Ref)
    requires t in thrs
    ensures Live(thrs - {t}, thrs[t].process) == Live(thrs, thrs[t].process) - {t}
    ensures forall q :: q != thrs[t].process ==> Live(thrs - {t}, q) == Live(thrs, q)
  {
  }

  lemma FreedLeaves(w: World, t: Ref)
    requires t in w.thrs && ListedP(w.processes, w.procs, w.thrs[t].process)
    requires w.procs[w.thrs[t].process].references > 1 && CanFree(w, t)
    requires w.procs[w.thrs[t].process].threads != {} ==> Live(w.thrs, w.thrs[t].process) != {t}
    ensures LeavesExactly(w, ThreadFree(w, t))
  {
    var p := w.thrs[t].process;
    LiveLess(w.thrs, t);
    assert t in Live(w.thrs, p);
    var w1 := w.(thrs := w.thrs - {t});
    if w.procs[p].threads == {} {
      RemovedProcess(w1, p);
    } else {
      ProcessPutFrame(w1, p);
    }
  }

  lemma ThreadFreeLeaves(w: World, hp: multiset<Ref>, ht: multiset<Ref>, t: Ref)
    requires Inv(w, hp, ht) && t in ht && w.thrs[t].references == 1 && CanFree(w, t)
    ensures LeavesExactly(w, ThreadFree(w, t))
  {
    HasOwner(w, hp, ht, t);
    OwnerCount(w, hp, ht, t);
    if w.procs[w.thrs[t].process].threads != {} {
      AnotherThread(w, hp, ht, t);
    }
    FreedLeaves(w, t);
  }

  /** A thread tree that still has an entry. */
  lemma AnotherThread(w: World, hp: multiset<Ref>, ht: multiset<Ref>, t: Ref)
    requires Inv(w, hp, ht) && t in ht && w.thrs[t].references == 1
    requires w.thrs[t].process in w.procs && w.procs[w.thrs[t].process].threads != {}
    ensures Live(w.thrs, w.thrs[t].process) != {t}
  {
    LastThreadReference(w, hp, ht, t);
    var p := w.thrs[t].process;
    var pid :| pid in w.procs[p].threads;
    assert pid in Members(w.threads, w.thrs, p);
  }

  lemma RemovedProcess(w: World, p: Ref)
    requires ListedP(w.processes, w.procs, p) && w.procs[p].references > 1
    ensures var w' := ProcessPut(ProcessDel(w, p), p);
      w'.thrs == w.thrs && forall q :: ListedP(w'.processes, w'.procs, q) <==>
          q != p && ListedP(w.processes, w.procs, q)
  {
    ProcessPutFrame(w.(processes := w.processes - {w.procs[p].pid}), p);
  }

  lemma ThreadPutLeaves(w: World, hp: multiset<Ref>, ht: multiset<Ref>, t: Ref)
    requires Inv(w, hp, ht) && t in ht && (w.thrs[t].references == 1 ==> CanFree(w, t))
    ensures LeavesExactly(w, ThreadPut(w, t))
  {
    Referenced(w, hp, ht);
    if w.thrs[t].references == 1 {
      ThreadFreeLeaves(w, hp, ht, t);
    } else {
      ThreadPutSome(w, hp, ht, t);
    }
  }

  lemma ThreadDelLeaves(w: World, hp: multiset<Ref>, ht: multiset<Ref>, t: Ref)
    requires Inv(w, hp, ht) && ListedT(w.threads, w.thrs, t)
    requires w.thrs[t].references == 1 ==> CanFree(Unlisted(w, t), t)
    ensures LeavesExactly(w, ThreadDel(w, t))
  {
    HasOwner(w, hp, ht, t);
    UnlistedKeeps(w, hp, ht, t);
    assert w.thrs[t].pid in Members(w.threads, w.thrs, w.thrs[t].process);
    var w1 := Unlisted(w, t);
    assert forall q :: ListedP(w1.processes, w1.procs, q) == ListedP(w.processes, w.procs, q);
    ThreadPutLeaves(w1, hp, ht + multiset{t}, t);
  }

  lemma ProcessCreateLeaves(w: World, pid: Pid)
    requires ProcessTable(w.processes, w.procs, w.next) && pid !in w.processes
    ensures LeavesExactly(w, ProcessCreate(w, pid).0)
  {
    var w' := ProcessCreate(w, pid).0;
    assert forall q :: q != w.next ==> ListedP(w.processes, w.procs, q) == ListedP(w'.processes, w'.procs, q);
  }

  lemma ThreadCreateLeaves(w: World, p: Ref, pid: Pid)
    requires ListedP(w.processes, w.procs, p) && ThreadTable(w.threads, w.thrs, w.next)
    ensures LeavesExactly(w, ThreadCreate(w, p, pid).0)
  {
    var w' := ThreadCreate(w, p, pid).0;
    assert forall q :: ListedP(w.processes, w.procs, q) == ListedP(w'.processes, w'.procs, q);
    assert forall q, t :: t in Live(w.thrs, q) ==> t in Live(w'.thrs, q);
  }

  // ----- Runs of the operations -----

  datatype Op =
    | GetProcess(pid: Pid) | DupProcess(p: Ref) | PutProcess(p: Ref) | CreateProcess(pid: Pid)
    | GetThread(pid: Pid) | DupThread(t: Ref) | PutThread(t: Ref) | CreateThread(p: Ref, pid: Pid) | DelThread(t: Ref)

  /** The records, and the references that callers hold. */
  datatype Client = Client(w: World, hp: multiset<Ref>, ht: multiset<Ref>)

  ghost predicate Sound(c: Client) { Inv(c.w, c.hp, c.ht) }

  /** What callers owe: they put only what they hold, create only what is not in a table and
      only in a process that is, remove only what is, and free in order. */
  predicate Legal(c: Client, op: Op) {
    match op
    case GetProcess(_) => true
    case DupProcess(p) => p in c.w.procs
    case PutProcess(p) => p in c.hp
    case CreateProcess(pid) => pid !in c.w.processes
    case GetThread(_) => true
    case DupThread(t) => t in c.w.thrs
    case PutThread(t) =>
      && t in c.ht && t in c.w.thrs && c.w.thrs[t].process in c.w.procs
      && (c.w.thrs[t].references == 1 ==> CanFree(c.w, t))
    case CreateThread(p, pid) => ListedP(c.w.processes, c.w.procs, p) && pid !in c.w.threads
    case DelThread(t) =>
      && ListedT(c.w.threads, c.w.thrs, t) && c.w.thrs[t].process in c.w.procs
      && (c.w.thrs[t].references == 1 ==> CanFree(Unlisted(c.w, t), t))
  }

  function Perform(c: Client, op: Op): Client {
    match op
    case GetProcess(pid) =>
      if pid !in c.w.processes then c
      else c.(w := ProcessDup(c.w, c.w.processes[pid]), hp := c.hp + multiset{c.w.processes[pid]})
    case DupProcess(p) => c.(w := ProcessDup(c.w, p), hp := c.hp + multiset{p})
    case PutProcess(p) => c.(w := ProcessPut(c.w, p), hp := c.hp - multiset{p})
    case CreateProcess(pid) => c.(w := ProcessCreate(c.w, pid).0, hp := c.hp + multiset{c.w.next})
    case GetThread(pid) =>
      if pid !in c.w.threads then c
      else c.(w := ThreadDup(c.w, c.w.threads[pid]), ht := c.ht + multiset{c.w.threads[pid]})
    case DupThread(t) => c.(w := ThreadDup(c.w, t), ht := c.ht + multiset{t})
    case PutThread(t) => c.(w := ThreadPut(c.w, t), ht := c.ht - multiset{t})
    case CreateThread(p, pid) => c.(w := ThreadCreate(c.w, p, pid).0, ht := c.ht + multiset{c.w.next})
    case DelThread(t) => c.(w := ThreadDel(c.w, t))
  }

  lemma StepKeepsCounts(c: Client, op: Op)
    requires Inv(c.w, c.hp, c.ht) && Legal(c, op)
    ensures var c' := Perform(c, op); Inv(c'.w, c'.hp, c'.ht)
  {
    match op
    case GetProcess(pid) => if pid in c.w.processes { ProcessDupKeeps(c.w, c.hp, c.ht, c.w.processes[pid]); }
    case DupProcess(p) => ProcessDupKeeps(c.w, c.hp, c.ht, p);
    case PutProcess(p) => ProcessPutKeeps(c.w, c.hp, c.ht, p);
    case CreateProcess(pid) => ProcessCreateKeeps(c.w, c.hp, c.ht, pid);
    case GetThread(pid) => if pid in c.w.threads { ThreadDupKeeps(c.w, c.hp, c.ht, c.w.threads[pid]); }
    case DupThread(t) => ThreadDupKeeps(c.w, c.hp, c.ht, t);
    case PutThread(t) => ThreadPutKeeps(c.w, c.hp, c.ht, t);
    case CreateThread(p, pid) => ThreadCreateKeeps(c.w, c.hp, c.ht, p, pid);
    case DelThread(t) => ThreadDelKeeps(c.w, c.hp, c.ht, t);
  }

  lemma ThreadDupLeaves(w: World, t: Ref)
    requires t in w.thrs
    ensures LeavesExactly(w, ThreadDup(w, t))
  {
    var w' := ThreadDup(w, t);
    assert forall q :: Live(w'.thrs, q) == Live(w.thrs, q);
  }

  lemma StepLeavesExactly(c: Client, op: Op)
    requires Inv(c.w, c.hp, c.ht) && Legal(c, op)
    ensures LeavesExactly(c.w, Perform(c, op).w)
  {
    match op
    case GetProcess(pid) => if pid in c.w.processes { ProcessDupLeaves(c.w, c.w.processes[pid]); }
    case DupProcess(p) => ProcessDupLeaves(c.w, p);
    case PutProcess(p) => ProcessPutLeaves(c.w, c.hp, c.ht, p);
    case CreateProcess(pid) => ProcessCreateLeaves(c.w, pid);
    case GetThread(pid) => if pid in c.w.threads { ThreadDupLeaves(c.w, c.w.threads[pid]); }
    case DupThread(t) => ThreadDupLeaves(c.w, t);
    case PutThread(t) => ThreadPutLeaves(c.w, c.hp, c.ht, t);
    case CreateThread(p, pid) => ThreadCreateLeaves(c.w, p, pid);
    case DelThread(t) => ThreadDelLeaves(c.w, c.hp, c.ht, t);
  }

  predicate LegalRun(c: Client, ops: seq<Op>)
    decreases |ops|
  {
    ops == [] || (Legal(c, ops[0]) && LegalRun(Perform(c, ops[0]), ops[1..]))
  }

  function PerformAll(c: Client, ops: seq<Op>): Client
    decreases |ops|
  {
    if ops == [] then c else PerformAll(Perform(c, ops[0]), ops[1..])
  }

  /** Over every legal run nothing is freed while referenced, freed twice or used after, and
      every count is exact. */
  lemma {:induction false} RunKeepsCounts(c: Client, ops: seq<Op>)
    requires Sound(c) && LegalRun(c, ops)
    ensures Sound(PerformAll(c, ops))
    decreases |ops|
  {
    if ops != [] {
      StepKeepsCounts(c, ops[0]);
      RunKeepsCounts(Perform(c, ops[0]), ops[1..]);
    }
  }

  // ----- The condition on freeing -----

  predicate Removed(w: World, t: Ref) { t in w.thrs && !ListedT(w.threads, w.thrs, t) }

  /** At most one thread record of each process is out of the table but still referenced. */
  ghost predicate AtMostOneRemoved(w: World) {
    forall t, u :: Removed(w, t) && Removed(w, u) && w.thrs[t].process == w.thrs[u].process ==> t == u
  }

  lemma ListedIsMember(w: World, t: Ref)
    requires ListedT(w.threads, w.thrs, t)
    ensures w.thrs[t].pid in Members(w.threads, w.thrs, w.thrs[t].process)
  {
  }

  lemma OneRemovedCanBeFreed(w: World, hp: multiset<Ref>, ht: multiset<Ref>, t: Ref)
    requires Inv(w, hp, ht) && AtMostOneRemoved(w) && Removed(w, t) && w.thrs[t].process in w.procs
    ensures CanFree(w, t)
  {
    var p := w.thrs[t].process;
    HasOwner(w, hp, ht, t);
    if w.procs[p].threads == {} {
      forall u | u in Live(w.thrs, p)
        ensures u == t
      {
        if ListedT(w.threads, w.thrs, u) {
          ListedIsMember(w, u);
          assert false;
        }
      }
      assert Live(w.thrs, p) == {t};
    }
  }

  /** So for a caller who puts what it holds and removes what is in the table, it is enough that
      at most one thread of each process is removed at the time of freeing. */
  lemma OneRemovedIsLegal(c: Client, op: Op)
    requires Sound(c)
    requires op.PutThread? ==> op.t in c.ht && AtMostOneRemoved(c.w)
    requires op.DelThread? ==>
              ListedT(c.w.threads, c.w.thrs, op.t) && c.w.thrs[op.t].process in c.w.procs
                && AtMostOneRemoved(Unlisted(c.w, op.t))
    requires op.PutThread? || op.DelThread?
    ensures Legal(c, op)
  {
    HasOwner(c.w, c.hp, c.ht, op.t);
    if op.DelThread? {
      UnlistedKeeps(c.w, c.hp, c.ht, op.t);
      OneRemovedCanBeFreed(Unlisted(c.w, op.t), c.hp, c.ht + multiset{op.t}, op.t);
    } else if c.w.thrs[op.t].references == 1 {
      LastThreadReference(c.w, c.hp, c.ht, op.t);
      OneRemovedCanBeFreed(c.w, c.hp, c.ht, op.t);
    }
  }

  /** Callers put what they hold, remove what is in the table, and have at most one thread of
      each process removed whenever they put or remove one. */
  ghost predicate Tidy(c: Client, op: Op) {
    match op
    case PutThread(t) => t in c.ht && AtMostOneRemoved(c.w)
    case DelThread(t) =>
      && ListedT(c.w.threads, c.w.thrs, t) && c.w.thrs[t].process in c.w.procs
      && AtMostOneRemoved(Unlisted(c.w, t))
    case _ => Legal(c, op)
  }

  ghost predicate TidyRun(c: Client, ops: seq<Op>)
    decreases |ops|
  {
    ops == [] || (Tidy(c, ops[0]) && TidyRun(Perform(c, ops[0]), ops[1..]))
  }

  /** At each step of a run, a process leaves the table exactly with its last thread record. */
  ghost predicate LeavesAlong(c: Client, ops: seq<Op>)
    decreases |ops|
  {
    ops == [] || (LeavesExactly(c.w, Perform(c, ops[0]).w) && LeavesAlong(Perform(c, ops[0]), ops[1..]))
  }

  /** So over every tidy run the counts stay exact, and processes leave on time. */
  lemma {:induction false} TidyRunKeepsCounts(c: Client, ops: seq<Op>)
    requires Sound(c) && TidyRun(c, ops)
    ensures LegalRun(c, ops) && Sound(PerformAll(c, ops)) && LeavesAlong(c, ops)
    decreases |ops|
  {
    hide Inv, LeavesExactly, Legal, Perform;
    if ops != [] {
      TidyIsLegal(c, ops[0]);
      StepKeepsCounts(c, ops[0]);
      StepLeavesExactly(c, ops[0]);
      TidyRunKeepsCounts(Perform(c, ops[0]), ops[1..]);
    }
  }

  lemma TidyIsLegal(c: Client, op: Op)
    requires Sound(c) && Tidy(c, op)
    ensures Legal(c, op)
  {
    hide Inv, AtMostOneRemoved, Unlisted, Legal;
    if op.PutThread? || op.DelThread? {
      OneRemovedIsLegal(c, op);
    }
  }

  /** thread_put keeps the counts exactly when freeing is in order. */
  lemma ThreadPutKeepsIff(w: World, hp: multiset<Ref>, ht: multiset<Ref>, t: Ref)
    requires Inv(w, hp, ht) && t in ht && w.thrs[t].process in w.procs
    ensures Inv(ThreadPut(w, t), hp, ht - multiset{t}) <==> (w.thrs[t].references == 1 ==> CanFree(w, t))
  {
    if w.thrs[t].references == 1 && !CanFree(w, t) {
      EarlyDelete(w, hp, ht, t);
    } else {
      ThreadPutKeeps(w, hp, ht, t);
    }
  }

  /** Another removed record is left behind, and its process is no longer in the table. */
  lemma EarlyDelete(w: World, hp: multiset<Ref>, ht: multiset<Ref>, t: Ref)
    requires Inv(w, hp, ht) && t in ht && w.thrs[t].process in w.procs && w.thrs[t].references == 1 && !CanFree(w, t)
    ensures !Inv(ThreadPut(w, t), hp, ht - multiset{t})
  {
    var p := w.thrs[t].process;
    HasOwner(w, hp, ht, t);
    OwnerCount(w, hp, ht, t);
    LiveLess(w.thrs, t);
    RemovedProcess(w.(thrs := w.thrs - {t}), p);
    assert t in Live(w.thrs, p);
    var u :| u in Live(w.thrs, p) && u != t;
    var w' := ThreadPut(w, t);
    assert u in w'.thrs && w'.thrs[u].process == p;
    if Inv(w', hp, ht - multiset{t}) {
      HasOwner(w', hp, ht - multiset{t}, u);
      assert false;
    }
  }

  lemma TwoRecords(w: World, hp: multiset<Ref>, ht: multiset<Ref>, t: Ref, u: Ref)
    requires Inv(w, hp, ht) && t in w.thrs && u in w.thrs && t != u && w.thrs[t].process == w.thrs[u].process
    ensures w.thrs[t].process in w.procs && w.procs[w.thrs[t].process].references >= 3
  {
    var p := w.thrs[t].process;
    HasOwner(w, hp, ht, t);
    SubsetSize({t, u}, Live(w.thrs, p));
    assert ProcessCount(w.processes, w.procs, w.thrs, hp, p);
  }

  lemma FreedTwice(w: World, t: Ref, u: Ref)
    requires t in w.thrs && u in w.thrs && t != u && w.thrs[t].process == w.thrs[u].process
    requires w.thrs[t].references == 1 && w.thrs[u].references == 1
    requires ListedP(w.processes, w.procs, w.thrs[t].process)
    requires w.procs[w.thrs[t].process].references >= 3 && w.procs[w.thrs[t].process].threads == {}
    ensures ThreadPut(ThreadPut(w, t), u).bad
  {
    var p, pid := w.thrs[t].process, w.procs[w.thrs[t].process].pid;
    var w1 := ThreadPut(w, t);
    assert w1.processes == w.processes - {pid} && w1.thrs == w.thrs - {t};
    assert w1.procs[p] == w.procs[p].(references := w.procs[p].references - 2);
  }

  /** With two removed threads in a process that has no others, the first put takes the
      process out of the table, and the second tries to do so again. */
  lemma SecondFreeFails(w: World, hp: multiset<Ref>, ht: multiset<Ref>, t: Ref, u: Ref)
    requires Inv(w, hp, ht) && t in ht && u in ht && t != u && w.thrs[t].process == w.thrs[u].process
    requires w.thrs[t].process in w.procs
    requires w.thrs[t].references == 1 && w.thrs[u].references == 1 && w.procs[w.thrs[t].process].threads == {}
    ensures ThreadPut(ThreadPut(w, t), u).bad
  {
    HasOwner(w, hp, ht, t);
    TwoRecords(w, hp, ht, t, u);
    FreedTwice(w, t, u);
  }

  lemma {:induction false} SubsetSize(a: set<Ref>, b: set<Ref>)
    requires a <= b
    ensures |a| <= |b|
  {
    assert b == a + (b - a);
  }

  const EMPTY: World := World(map[], map[], map[], map[], 0, false)

  /** A caller creates process 7 with threads 7 and 8, and removes the threads before it puts
      them. */
  const SCRIPT: seq<Op> := [
    CreateProcess(7), CreateThread(0, 7), CreateThread(0, 8), PutProcess(0), DelThread(1), DelThread(2)]

  /** Process 7 whose threads 7 and 8 were removed while a caller held them. */
  const BOTH_REMOVED: World := World(
    map[7 := 0], map[], map[0 := Process(7, 3, {})],
    map[1 := NewThread(7, 0).(references := 1), 2 := NewThread(8, 0).(references := 1)], 3, false)

  /** The records of process 7 with these references, and its threads. */
  function Seven(threads: map<Pid, Ref>, references: nat, tree: set<Pid>, thrs: map<Ref, Thread>, next: Ref): World {
    World(map[7 := 0], threads, map[0 := Process(7, references, tree)], thrs, next, false)
  }

  lemma RunStep(c: Client, op: Op, ops: seq<Op>, c': Client)
    requires Legal(c, op) && Perform(c, op) == c' && LegalRun(c', ops)
    ensures LegalRun(c, [op] + ops) && PerformAll(c, [op] + ops) == PerformAll(c', ops)
  {
    assert ([op] + ops)[1..] == ops;
  }

  const T1: Thread := NewThread(7, 0)
  const T2: Thread := NewThread(8, 0)

  /** The states that the script goes through. */
  function Stage(n: nat): Client
    requires n <= 6
  {
    match n
    case 0 => Client(EMPTY, multiset{}, multiset{})
    case 1 => Client(Seven(map[], 2, {}, map[], 1), multiset{0}, multiset{})
    case 2 => Client(Seven(map[7 := 1], 3, {7}, map[1 := T1], 2), multiset{0}, multiset{1})
    case 3 => Client(Seven(map[7 := 1, 8 := 2], 4, {7, 8}, map[1 := T1, 2 := T2], 3), multiset{0}, multiset{1, 2})
    case 4 => Client(Seven(map[7 := 1, 8 := 2], 3, {7, 8}, map[1 := T1, 2 := T2], 3), multiset{}, multiset{1, 2})
    case 5 => Client(Seven(map[8 := 2], 3, {8}, map[1 := T1.(references := 1), 2 := T2], 3), multiset{}, multiset{1, 2})
    case 6 => Client(BOTH_REMOVED, multiset{}, multiset{1, 2})
  }

  lemma ScriptCreates()
    ensures Legal(Stage(0), SCRIPT[0]) && Perform(Stage(0), SCRIPT[0]) == Stage(1)
    ensures Legal(Stage(1), SCRIPT[1]) && Perform(Stage(1), SCRIPT[1]) == Stage(2)
  {
    assert {} + {7} == {7};
    assert Extended(Process(7, 2, {}), 7) == Process(7, 3, {7});
  }

  lemma ScriptCreatesAnother()
    ensures Legal(Stage(2), SCRIPT[2]) && Perform(Stage(2), SCRIPT[2]) == Stage(3)
  {
    assert {7} + {8} == {7, 8};
    assert Extended(Process(7, 3, {7}), 8) == Process(7, 4, {7, 8});
    assert map[1 := T1][2 := T2] == map[1 := T1, 2 := T2];
  }

  lemma ScriptPuts()
    ensures Legal(Stage(3), SCRIPT[3]) && Perform(Stage(3), SCRIPT[3]) == Stage(4)
  {
  }

  lemma UnlistsFirst()
    ensures Unlisted(Stage(4).w, 1) == Seven(map[8 := 2], 3, {8}, map[1 := T1, 2 := T2], 3)
  {
    assert {7, 8} - {7} == {8};
    assert map[7 := 1, 8 := 2] - {7} == map[8 := 2];
  }

  lemma ScriptDeletes()
    ensures Legal(Stage(4), SCRIPT[4]) && Perform(Stage(4), SCRIPT[4]) == Stage(5)
  {
    hide Unlisted, CanFree;
    UnlistsFirst();
  }

  lemma ScriptDeletesAnother()
    ensures Legal(Stage(5), SCRIPT[5]) && Perform(Stage(5), SCRIPT[5]) == Stage(6)
  {
    assert {8} - {8} == {};
    assert Unlisted(Stage(5).w, 2) == Seven(map[], 3, {}, map[1 := T1.(references := 1), 2 := T2], 3);
  }

  /** The script is a legal run from the empty tables. */
  lemma ScriptReachesBothRemoved()
    ensures LegalRun(Stage(0), SCRIPT) && PerformAll(Stage(0), SCRIPT) == Stage(6)
  {
    hide Legal, Perform, Stage;
    ScriptCreates();
    ScriptCreatesAnother();
    ScriptPuts();
    ScriptDeletes();
    ScriptDeletesAnother();
    RunStep(Stage(5), SCRIPT[5], [], Stage(6));
    RunStep(Stage(4), SCRIPT[4], [SCRIPT[5]], Stage(5));
    RunStep(Stage(3), SCRIPT[3], SCRIPT[4..], Stage(4));
    RunStep(Stage(2), SCRIPT[2], SCRIPT[3..], Stage(3));
    RunStep(Stage(1), SCRIPT[1], SCRIPT[2..], Stage(2));
    RunStep(Stage(0), SCRIPT[0], SCRIPT[1..], Stage(1));
  }

  lemma BothRemovedFails()
    ensures Inv(BOTH_REMOVED, multiset{}, multiset{1, 2}) && ThreadPut(ThreadPut(BOTH_REMOVED, 1), 2).bad
  {
    var w := BOTH_REMOVED;
    assert Live(w.thrs, 0) == {1, 2};
    assert ProcessCount(w.processes, w.procs, w.thrs, multiset{}, 0);
    assert forall t :: t in w.thrs ==> ThreadCount(w.threads, w.thrs, multiset{1, 2}, t);
    SecondFreeFails(w, multiset{}, multiset{1, 2}, 1, 2);
  }

  /** It keeps the counts exact, and when the caller then puts what it holds, the second put
      fails. */
  lemma TwoRemovedThreads()
    ensures LegalRun(Stage(0), SCRIPT)
    ensures PerformAll(Stage(0), SCRIPT) == Client(BOTH_REMOVED, multiset{}, multiset{1, 2})
    ensures Inv(BOTH_REMOVED, multiset{}, multiset{1, 2}) && ThreadPut(ThreadPut(BOTH_REMOVED, 1), 2).bad
  {
    hide Legal, Perform, Inv, ThreadPut, LegalRun, PerformAll;
    ScriptReachesBothRemoved();
    BothRemovedFails();
  }
}
