/**
 Installing tracepoints in a segment of a traced process, and undoing it.
 */
module Installer {

  import opened Basics
  import opened Inferior
  import opened Branches
  import opened Tracepoints

  /** Different targets are different instructions. */
  ghost predicate Distinct(targets: seq<nat>) {
    forall i, j :: 0 <= i < j < |targets| ==> targets[i] - targets[i] % 2 != targets[j] - targets[j] % 2
  }

  function Zeros(lo: nat, size: nat): (m: Memory)
    ensures forall x :: x in m <==> lo <= x < lo + size
  {
    if size == 0 then map[] else Zeros(lo, size - 1)[lo + size - 1 := 0]
  }

  /** Where allocate_trampoline maps the trampolines: in a gap, in memory stolen from an
      unused segment, or nowhere. */
  datatype Place = Nowhere | Gap(base: nat) | Stolen(base: nat)

  function Base(place: Place): nat { if place.Nowhere? then 0 else place.base }

  function Top(place: Place, size: nat): nat { if place.Nowhere? then 0 else place.base + AlignToPage(size) }

  /** The memory that a segment has for its trampolines, from lo up to hi. */
  datatype Room = Room(lo: nat, hi: nat)

  predicate InRoom(room: Room, x: nat) { room.lo <= x < room.hi }

  /** Instructions overlap neither each other nor the rooms of trampolines. */
  ghost predicate Untangled(all: Tree, rooms: map<nat, Room>) {
    SpansApart(all) && forall a, k, x: nat :: a in rooms && k in all && InSpan(all[k], x) ==> !InRoom(rooms[a], x)
  }

  /** The range is off the rooms and the instructions. */
  ghost predicate OffRooms(all: Tree, rooms: map<nat, Room>, lo: nat, hi: nat) {
    && (forall a, x: nat :: a in rooms && InRoom(rooms[a], x) ==> !(lo <= x < hi))
    && (forall k, x: nat :: k in all && InSpan(all[k], x) ==> !(lo <= x < hi))
  }

  // ----- Creating tracepoints -----

  /** The room that the tracepoints created for the targets need for their trampolines. */
  function SizeOf(made: seq<Option<Tracepoint>>): nat {
    if made == [] then 0
    else
      var last := made[|made| - 1];
      SizeOf(made[..|made| - 1]) + if last.Some? then last.value.template.size else 0
  }

  class Process {
    const thread: Thread
    const a64: bool                                  // a 64-bit process?
    const select: (Word, Kind) -> Option<Template>   // template_select
    const code: Tracepoint -> seq<bv8>               // template_get_handler, with its return jumps
    ghost const unused: iset<nat>                    // private memory without any access rights
    var jumps: Jumps
    var segments: map<nat, Segment>                  // by their starts
    ghost var recorded: Tree                         // the tracepoints of all the segments

    constructor (thread: Thread, a64: bool, select: (Word, Kind) -> Option<Template>,
                 code: Tracepoint -> seq<bv8>, ghost unused: iset<nat>)
      ensures this.thread == thread && this.a64 == a64 && this.select == select && this.code == code
      ensures this.unused == unused
      ensures jumps == map[] && segments == map[] && recorded == map[] && Consistent()
    {
      this.thread, this.a64, this.select, this.code := thread, a64, select, code;
      this.unused, jumps, segments, recorded := unused, map[], map[], map[];
    }

    ghost predicate GoodTemplates() {
      && (forall insn, kind :: select(insn, kind).Some? ==> GoodTemplate(select(insn, kind).value))
      && (forall tp :: |code(tp)| == tp.template.size)
    }

    // ----- The table and the recorded tracepoints -----

    ghost function Trees(): map<nat, Tree>
      reads this`segments, segments.Values
    {
      map a | a in segments :: segments[a].tracepoints
    }

    /** Segments are disjoint, and start and end at even addresses. */
    ghost predicate Linked()
      reads this`segments
    {
      && (forall a :: a in segments ==>
            segments[a].process == this && segments[a].start == a && a % 2 == 0 && segments[a].end % 2 == 0)
      && (forall a, b :: a in segments && b in segments && a < b ==> segments[a].end <= b)
    }

    /** Segments record tracepoints in themselves only. */
    ghost predicate InRanges(trees: map<nat, Tree>)
      reads this`segments
    {
      forall a, k :: a in trees && k in trees[a] ==> a in segments && a <= k < segments[a].end
    }

    /** The jump table holds exactly the fallbacks of the tracepoints in the segments. */
    ghost predicate Consistent()
      reads this, segments.Values
    {
      Linked() && InRanges(Trees()) && Table(Trees(), recorded, jumps)
    }

    lemma ConsistentIsExact()
      requires Consistent()
      ensures Exact(jumps, recorded) && NonZero(jumps)
    {
      TableIsExact(jumps, recorded);
    }

    lemma OtherSegment(a: nat, b: nat, x: nat, y: nat)
      requires Linked() && a in segments && b in segments && a != b
      requires a <= x < segments[a].end && b <= y < segments[b].end
      ensures x != y && x - x % 2 != y - y % 2
    {
      assert a == segments[a].start && b == segments[b].start;
      assert if a < b then segments[a].end <= b else segments[b].end <= a;
    }

    /** An address in a segment without tracepoints is not traced. */
    lemma NotTraced(trees: map<nat, Tree>, a: nat, k: nat, x: nat)
      requires Linked() && InRanges(trees) && InSome(trees, k)
      requires a in segments && a in trees && trees[a].Keys == {} && a <= x < segments[a].end
      ensures k != x && k - k % 2 != x - x % 2
    {
      var b: nat :| b in trees && k in trees[b];
      OtherSegment(a, b, x, k);
    }

    /** Trees of different segments have different keys. */
    lemma OwnKeys(trees: map<nat, Tree>, a: nat, b: nat)
      requires Linked() && InRanges(trees) && a in trees && b in trees && a != b
      ensures trees[a].Keys !! trees[b].Keys
    {
      if k :| k in trees[a].Keys && k in trees[b].Keys {
        OtherSegment(a, b, k, k);
      }
    }

    // ----- Why an instruction was not written -----

    /** Since the given request a request failed, or an address around the instruction is not
        mapped, or the thread is dead. */
    ghost predicate Excused(address: nat, from: nat)
      reads thread
    {
      Hindered(thread.dead, thread.bytes.Keys, from, thread.clock, address)
    }

    lemma ExcusedNow(address: nat, from: nat)
      ensures Excused(address, from) <==> Hindered(thread.dead, thread.bytes.Keys, from, thread.clock, address)
    {
    }

    ghost predicate Hindered(dead: bool, mapped: set<nat>, from: nat, to: nat, address: nat) {
      dead || thread.Blocked(mapped, from, to, if address < 3 then 0 else address - 3, address + 12)
    }

    lemma HinderedLater(dead: bool, mapped: set<nat>, from: nat, to: nat, address: nat, dead': bool, from': nat,
                        to': nat)
      requires Hindered(dead, mapped, from, to, address) && (dead ==> dead') && from' <= from && to <= to'
      ensures Hindered(dead', mapped, from', to', address)
    {
      if !dead {
        var lo, hi := if address < 3 then 0 else address - 3, address + 12;
        if n: nat :| from <= n < to && thread.fails(n) {
          assert from' <= n < to' && thread.fails(n);
        } else {
          var x: nat :| lo <= x < hi && x !in mapped;
          assert lo <= x < hi && x !in mapped;
        }
      }
    }

    ghost predicate Unreachable(mapped: set<nat>, address: nat) {
      exists x: nat :: address <= x + 3 && x < address + 12 && x !in mapped
    }

    /** For each key a different request, before the request to, that failed. */
    ghost predicate OwnReasons(why: map<nat, nat>, to: nat) {
      && (forall k :: k in why ==> why[k] < to && thread.fails(why[k]))
      && forall i, k :: i in why && k in why && i != k ==> why[i] != why[k]
    }

    /** The excuse of the instruction of a key: a request of its own, if it is not that the
        thread is dead or memory around the instruction is not mapped. */
    ghost predicate Because(dead: bool, mapped: set<nat>, address: nat, from: nat, why: map<nat, nat>, k: nat) {
      dead || Unreachable(mapped, address) || (k in why && why[k] >= from)
    }

    lemma ReasonsLast(why: map<nat, nat>, to: nat, to': nat)
      requires OwnReasons(why, to) && to <= to'
      ensures OwnReasons(why, to')
    {
    }

    /** One more. */
    lemma ReasonFound(dead: bool, mapped: set<nat>, address: nat, to: nat, to': nat, why: map<nat, nat>, k: nat)
      returns (why': map<nat, nat>)
      requires Hindered(dead, mapped, to, to', address) && OwnReasons(why, to) && to <= to'
      ensures OwnReasons(why', to') && Because(dead, mapped, address, to, why', k)
      ensures forall i :: i in why && i != k ==> i in why' && why'[i] == why[i]
    {
      why' := why;
      if !dead {
        if n: nat :| to <= n < to' && thread.fails(n) {
          why' := why[k := n];
        } else {
          var x: nat :| (if address < 3 then 0 else address - 3) <= x < address + 12 && x !in mapped;
          assert address <= x + 3 && x < address + 12 && x !in mapped;
        }
      }
    }

    /** Every tracepoint of failed has its excuse since the request from. */
    ghost predicate Accounted(failed: Tree, from: nat)
      reads thread
    {
      Pending(thread.dead, thread.bytes.Keys, from, thread.clock, failed, map[])
    }

    // ----- Instructions -----

    /** The kind a tracepoint's address suggests; a Thumb instruction may turn out to be 32 bits long. */
    function AddressKind(address: nat): Kind {
      if a64 then A64 else if address % 2 == 1 then Thumb else Arm
    }

    /** patch_read_insn_detect_kind */
    method ReadInsn(address: nat, kind: Kind) returns (r: Option<(Word, Kind)>)
      requires kind != Thumb2 && Aligned(address, kind)
      modifies thread`dead
      ensures old(thread.dead) ==> thread.dead
      ensures r.Some? ==> CheckInsn(r.value.1, r.value.0) && Mapped(thread.bytes.Keys, address, InsnSize(r.value.1))
                          && InsnBytes(r.value.1, r.value.0) == Fetch(thread.bytes, address, InsnSize(r.value.1))
      ensures r.Some? ==> r.value.1 == kind || (kind == Thumb && r.value.1 == Thumb2)
    {
      var data := thread.MemRead(address, InsnSize(kind));
      if |data| != InsnSize(kind) {
        return None;
      }
      if kind != Thumb || !IsThumb2Halfword(data[1]) {
        return Some((InsnOf(kind, data), kind));
      }
      var wide := thread.MemRead(address, 4);
      if |wide| != 4 {
        return None;
      }
      assert wide[1] == data[1];
      r := Some((InsnOf(Thumb2, wide), Thumb2));
    }

    /** What a tracepoint created for a target knows. */
    ghost predicate Created(tp: Tracepoint, target: nat, handler: nat, m: Memory) {
      && tp.address == target - target % 2 && tp.trampoline == 0 && tp.handler == handler
      && (tp.kind == AddressKind(target) || (AddressKind(target) == Thumb && tp.kind == Thumb2))
      && Original(m, tp) && Aligned(tp.address, tp.kind)
      && select(tp.insn, tp.kind) == Some(tp.template) && GoodTemplate(tp.template)
    }

    /** tracepoint_create */
    method TracepointCreate(target: nat, handler: nat) returns (r: Option<Tracepoint>)
      requires GoodTemplates() && Aligned(target - target % 2, AddressKind(target))
      modifies thread`dead
      ensures old(thread.dead) ==> thread.dead
      ensures r.Some? ==> Created(r.value, target, handler, thread.bytes)
    {
      var address := target - target % 2;
      var read := ReadInsn(address, AddressKind(target));
      if read.None? {
        return None;
      }
      var (insn, kind) := read.value;
      var template := select(insn, kind);
      if template.None? {
        return None;
      }
      r := Some(Tracepoint(address, 0, handler, insn, kind, template.value));
    }

    /** What tracepoint_create can have made of each of the targets so far. */
    ghost predicate Creatable(m: Memory, targets: seq<nat>, handlers: map<nat, nat>, made: seq<Option<Tracepoint>>) {
      && |made| <= |targets| && (forall t :: t in targets ==> t in handlers)
      && forall i :: 0 <= i < |made| && made[i].Some? ==> Created(made[i].value, targets[i], handlers[targets[i]], m)
    }

    /** What the source asserts or takes for granted of the addresses to trace: aligned, each
        instruction only once, not in a trampoline, and none that returns to address 0 (the
        table has 0 for "none"). */
    ghost predicate Traceable(targets: seq<nat>, handlers: map<nat, nat>)
      reads this`recorded, thread`bytes
    {
      && Distinct(targets)
      && (forall t :: t in targets ==> t in handlers && Aligned(t - t % 2, AddressKind(t)))
      && (forall t :: t in targets ==> OffTrampolines(recorded, t - t % 2))
      && (forall tp, t :: t in targets && Created(tp, t, handlers[t], thread.bytes) ==> NoReturnToZero(tp))
    }

    /** No jump is at an address that could be mistaken for an offset among the trampolines,
        which is what a tracepoint has until it is installed. */
    ghost predicate AboveOffsets(targets: seq<nat>, handlers: map<nat, nat>)
      reads this`jumps, thread`bytes
    {
      forall made, a :: Creatable(thread.bytes, targets, handlers, made) && a in jumps ==> a >= SizeOf(made)
    }

    /** The tracepoints created for the first |made| targets, with offsets for trampolines. */
    ghost predicate Prepared(m: Memory, tps: Tree, total: nat, targets: seq<nat>, handlers: map<nat, nat>,
                             made: seq<Option<Tracepoint>>)
    {
      && Creatable(m, targets, handlers, made) && total == SizeOf(made) && Layout(tps, 0, total)
      && Known(m, tps, targets[..|made|], handlers)
    }

    lemma PreparedOne(m: Memory, tps: Tree, total: nat, targets: seq<nat>, handlers: map<nat, nat>,
                      made: seq<Option<Tracepoint>>, tp: Tracepoint)
      requires Prepared(m, tps, total, targets, handlers, made) && |made| < |targets| && Distinct(targets)
      requires Created(tp, targets[|made|], handlers[targets[|made|]], m)
      ensures targets[|made|] !in tps
      ensures Prepared(m, tps[targets[|made|] := tp.(trampoline := total)], total + tp.template.size,
                       targets, handlers, made + [Some(tp)])
    {
      var n, t := |made|, targets[|made|];
      var tps', made' := tps[t := tp.(trampoline := total)], made + [Some(tp)];
      assert targets[..n + 1] == targets[..n] + [t] && made'[..n] == made;
      forall k | k in tps
        ensures k != t && tps[k].address != tp.address
      {
        assert Created(tps[k].(trampoline := 0), k, handlers[k], m);
      }
      LayoutExtends(tps, total, t, tp);
      assert tps'[t].(trampoline := 0) == tp;
    }

    lemma PreparedNone(m: Memory, tps: Tree, total: nat, targets: seq<nat>, handlers: map<nat, nat>,
                       made: seq<Option<Tracepoint>>)
      requires Prepared(m, tps, total, targets, handlers, made) && |made| < |targets|
      ensures Prepared(m, tps, total, targets, handlers, made + [None])
    {
      var n, made' := |made|, made + [None];
      assert targets[..n + 1] == targets[..n] + [targets[n]] && made'[..n] == made;
    }

    /** patch_insn: overwrites an instruction; a failure may leave it half written. */
    method PatchInsn(address: nat, kind: Kind, insn: Word) returns (ok: bool, ghost written: nat)
      requires thread.Valid() && Aligned(address, kind) && CheckInsn(kind, insn)
      modifies thread
      ensures written <= InsnSize(kind) && (ok <==> written == InsnSize(kind))
      ensures Copied(old(thread.bytes), thread.bytes, address, InsnBytes(kind, insn), 0, written)
      ensures thread.clock >= old(thread.clock) && (old(thread.dead) ==> thread.dead)
      ensures ok ==> Mapped(thread.bytes.Keys, address, InsnSize(kind))
      ensures !ok ==> Excused(address, old(thread.clock))
    {
      var data := InsnBytes(kind, insn);
      var n := thread.MemWrite(address, data);
      written := n;
      ok := n == |data|;
      if !ok && !old(thread.dead) {
        thread.BlockedWithin(old(thread.bytes).Keys, old(thread.clock), thread.clock,
                             address - address % 4, address + |data| + 8,
                             old(thread.clock), if address < 3 then 0 else address - 3, address + 12);
      }
    }

    // ----- The jump table -----

    method JumpInstall(from: nat, to: nat)
      requires from !in jumps  // tree_insert asserts it
      modifies this`jumps
      ensures jumps == old(jumps)[from := to]
    {
      jumps := jumps[from := to];
    }

    method JumpUninstall(from: nat)
      requires from in jumps  // tree_remove asserts it
      modifies this`jumps
      ensures jumps == old(jumps) - {from}
    {
      jumps := jumps - {from};
    }

    function JumpGet(where: nat): nat
      reads this
    {
      if where in jumps then jumps[where] else 0
    }

    method JumpDiscard(from: nat)
      requires NonZero(jumps)
      modifies this`jumps
      ensures jumps == old(jumps) - {from}
    {
      if JumpGet(from) != 0 {
        JumpUninstall(from);
      }
    }

    /** The jumps of a tracepoint that is being removed. */
    method DiscardJumps(tp: Tracepoint)
      requires NonZero(jumps) && IsWord(tp.insn)
      modifies this`jumps
      ensures jumps == old(jumps) - JumpKeys(tp)
    {
      JumpDiscard(tp.address);
      ghost var gone := {tp.address};
      for i := 0 to |tp.template.fields|
        invariant jumps == old(jumps) - gone
        invariant gone == {tp.address} + set j: nat | j < i && Returns(tp, j) :: ReturnFrom(tp, j)
      {
        if Returns(tp, i) {
          var from := ReturnFrom(tp, i);
          JumpDiscard(from);
          gone := gone + {from};
        }
      }
    }

    // ----- Installing one tracepoint -----

    /** The return jumps that a branch from inside the trampoline does not reach. */
    method InstallReturns(tp: Tracepoint)
      requires IsWord(tp.insn) && GoodTemplate(tp.template)
      requires forall i: nat :: i < |tp.template.fields| && Returns(tp, i) ==> ReturnFrom(tp, i) !in jumps
      modifies this`jumps
      ensures jumps == old(jumps) + ReturnFallbacks(tp, |tp.template.fields|)
    {
      ghost var j0 := jumps;
      for i := 0 to |tp.template.fields|
        invariant jumps == j0 + ReturnFallbacks(tp, i)
      {
        InstallReturn(tp, i, j0);
      }
    }

    method InstallReturn(tp: Tracepoint, i: nat, ghost j0: Jumps)
      requires GoodTemplate(tp.template) && i < |tp.template.fields|
      requires Returns(tp, i) ==> ReturnFrom(tp, i) !in j0
      requires jumps == j0 + ReturnFallbacks(tp, i)
      modifies this`jumps
      ensures jumps == j0 + ReturnFallbacks(tp, i + 1)
    {
      ReturnStep(tp, i, j0);
      if NeedsFallback(tp, i) {
        JumpInstall(ReturnFrom(tp, i), ReturnTo(tp, i));
      }
    }

    /** What stands at a traced instruction: a branch to the trampoline, or a breakpoint that
        stands for it in the table. */
    function EntryInsn(tp: Tracepoint): (insn: Word)
      ensures IsWord(insn)
    {
      if CheckJump(tp.kind, tp.address, tp.trampoline) then WordOf(JumpInsn(tp.kind, tp.address, tp.trampoline))
      else BreakpointInsn(tp.kind)
    }

    method InstallEntry(tp: Tracepoint) returns (ghost written: nat)
      requires thread.Valid() && GoodTemplates() && Aligned(tp.address, tp.kind) && tp.address !in jumps
      modifies this`jumps, thread
      ensures jumps == old(jumps) + EntryFallback(tp) && written <= InsnSize(tp.kind)
      ensures Copied(old(thread.bytes), thread.bytes, tp.address, InsnBytes(tp.kind, EntryInsn(tp)), 0, written)
      ensures thread.clock >= old(thread.clock) && (old(thread.dead) ==> thread.dead)
      ensures if written == InsnSize(tp.kind) then Mapped(thread.bytes.Keys, tp.address, InsnSize(tp.kind))
              else Excused(tp.address, old(thread.clock))
    {
      var reached := CheckJump(tp.kind, tp.address, tp.trampoline);
      var ok;
      if reached {
        JumpIsInsn(tp.kind, tp.address, tp.trampoline);
        ok, written := PatchInsn(tp.address, tp.kind, WordOf(JumpInsn(tp.kind, tp.address, tp.trampoline)));
      } else {
        ok, written := PatchInsn(tp.address, tp.kind, BreakpointInsn(tp.kind));
        JumpInstall(tp.address, tp.trampoline);
      }
    }

    /** Copy the trampoline into the process. */
    method WriteTrampoline(tp: Tracepoint) returns (ok: bool, ghost written: nat)
      requires thread.Valid() && GoodTemplates() && GoodTemplate(tp.template)
      modifies thread
      ensures thread.clock >= old(thread.clock) && (old(thread.dead) ==> thread.dead)
      ensures written <= tp.template.size
      ensures Copied(old(thread.bytes), thread.bytes, tp.trampoline, code(tp), 0, written)
      ensures Mapped(thread.bytes.Keys, tp.trampoline, written) && (ok <==> written == tp.template.size)
    {
      var n := thread.MemWrite(tp.trampoline, code(tp));
      written := n;
      ok := n == tp.template.size;
    }

    lemma OwnKeysFree(tp: Tracepoint, j: Jumps)
      requires OwnTrampoline(tp) && IsWord(tp.insn) && JumpKeys(tp) !! j.Keys
      ensures tp.address !in j && GoodTemplate(tp.template)
      ensures forall i: nat :: i < |tp.template.fields| && Returns(tp, i) ==>
                ReturnFrom(tp, i) !in j + EntryFallback(tp)
      ensures (j + EntryFallback(tp)) + ReturnFallbacks(tp, |tp.template.fields|) == j + Fallbacks(tp)
    {
      forall i: nat | i < |tp.template.fields| && Returns(tp, i)
        ensures ReturnFrom(tp, i) in JumpKeys(tp) && ReturnFrom(tp, i) != tp.address
      {
      }
    }

    /** One round of the installation loop. */
    method InstallTracepoint(tp: Tracepoint) returns (ok: bool, ghost entry: nat, ghost body: nat, ghost mid: Memory)
      requires thread.Valid() && GoodTemplates() && IsWord(tp.insn) && Aligned(tp.address, tp.kind) && OwnTrampoline(tp)
      requires JumpKeys(tp) !! jumps.Keys
      modifies this`jumps, thread
      ensures jumps == old(jumps) + Fallbacks(tp)
      ensures thread.clock >= old(thread.clock) && (old(thread.dead) ==> thread.dead)
      ensures entry <= InsnSize(tp.kind) && body <= tp.template.size && (ok <==> body == tp.template.size)
      ensures Copied(old(thread.bytes), mid, tp.address, InsnBytes(tp.kind, EntryInsn(tp)), 0, entry)
      ensures Copied(mid, thread.bytes, tp.trampoline, code(tp), 0, body) && Mapped(mid.Keys, tp.trampoline, body)
      ensures if entry == InsnSize(tp.kind) then Mapped(thread.bytes.Keys, tp.address, InsnSize(tp.kind))
              else Excused(tp.address, old(thread.clock))
    {
      hide *;
      OwnKeysFree(tp, jumps);
      entry := InstallEntry(tp);
      mid := thread.bytes;
      ghost var dead, clock := thread.dead, thread.clock;
      ExcusedNow(tp.address, old(thread.clock));
      InstallReturns(tp);
      ok, body := WriteTrampoline(tp);
      if entry < InsnSize(tp.kind) {
        HinderedLater(dead, thread.bytes.Keys, old(thread.clock), clock, tp.address,
                      thread.dead, old(thread.clock), thread.clock);
        ExcusedNow(tp.address, old(thread.clock));
      }
    }

    /** The tracepoints of failed, except those of rest that are still to be removed, have
        their excuses. */
    ghost predicate Pending(dead: bool, mapped: set<nat>, from: nat, to: nat, failed: Tree, rest: Tree) {
      exists why :: PendingBy(dead, mapped, from, to, failed, rest, why)
    }

    ghost predicate PendingBy(dead: bool, mapped: set<nat>, from: nat, to: nat, failed: Tree, rest: Tree,
                              why: map<nat, nat>)
    {
      && OwnReasons(why, to)
      && forall k :: k in failed && k !in rest ==> Because(dead, mapped, failed[k].address, from, why, k)
    }

    lemma NothingPending(dead: bool, mapped: set<nat>, from: nat, to: nat, failed: Tree)
      ensures Pending(dead, mapped, from, to, failed, failed)
    {
      assert PendingBy(dead, mapped, from, to, failed, failed, map[]);
    }

    lemma PendingStep(dead: bool, mapped: set<nat>, from: nat, to: nat, dirty: Tree, rest: Tree,
                      dead': bool, to': nat, failed: Tree, k: nat)
      requires Pending(dead, mapped, from, to, dirty, rest) && (dead ==> dead') && from <= to <= to' && k in dirty
      requires failed == dirty - {k} || (failed == dirty && Hindered(dead', mapped, to, to', dirty[k].address))
      ensures Pending(dead', mapped, from, to', failed, rest - {k})
    {
      var why :| PendingBy(dead, mapped, from, to, dirty, rest, why);
      var why' := why;
      if k in failed {
        why' := ReasonFound(dead', mapped, dirty[k].address, to, to', why, k);
      } else {
        ReasonsLast(why, to, to');
      }
      forall i | i in failed && i !in rest - {k}
        ensures Because(dead', mapped, failed[i].address, from, why', i)
      {
        if i != k {
          assert Because(dead, mapped, dirty[i].address, from, why, i);
        }
      }
      assert PendingBy(dead', mapped, from, to', failed, rest - {k}, why');
    }

    /** Memory m is m0, except perhaps in the instructions of the tracepoints and in memory
        that nobody has access to. */
    ghost predicate Restored(m0: Memory, m: Memory, tps: Tree) {
      forall x :: x in m0 && x !in unused && (forall k :: k in tps ==> !InSpan(tps[k], x)) ==> x in m && m[x] == m0[x]
    }

    lemma CleanIsRestored(m0: Memory, m: Memory, tps: Tree, lo: nat, hi: nat)
      requires Clean(m0, m, tps, lo, hi) && forall x: nat :: lo <= x < hi ==> x !in m0 || x in unused
      ensures Restored(m0, m, tps)
    {
    }

    /** The tracepoints were created for targets, from memory m. */
    ghost predicate Known(m: Memory, tps: Tree, targets: seq<nat>, handlers: map<nat, nat>) {
      forall k :: k in tps ==> k in targets && k in handlers && Created(tps[k].(trampoline := 0), k, handlers[k], m)
    }

    lemma KnownAddress(m: Memory, tps: Tree, targets: seq<nat>, handlers: map<nat, nat>, k: nat)
      requires Known(m, tps, targets, handlers) && k in tps
      ensures tps[k].address == k - k % 2 && k in targets && k in handlers
    {
      assert Created(tps[k].(trampoline := 0), k, handlers[k], m);
    }

    lemma KnownFacts(m: Memory, tps: Tree, targets: seq<nat>, handlers: map<nat, nat>, k: nat)
      requires Known(m, tps, targets, handlers) && k in tps
      ensures CheckInsn(tps[k].kind, tps[k].insn) && Aligned(tps[k].address, tps[k].kind) && Original(m, tps[k])
      ensures tps[k].address == k - k % 2 && k in targets && k in handlers
    {
      var tp := tps[k].(trampoline := 0);
      assert Created(tp, k, handlers[k], m);
      assert forall x: nat :: InSpan(tp, x) == InSpan(tps[k], x);
    }

    lemma KnownReturns(m: Memory, tps: Tree, targets: seq<nat>, handlers: map<nat, nat>, k: nat)
      requires Known(m, tps, targets, handlers) && k in tps
      requires forall tp, t :: t in targets && t in handlers && Created(tp, t, handlers[t], m) ==> NoReturnToZero(tp)
      ensures NoReturnToZero(tps[k])
    {
      var tp := tps[k].(trampoline := 0);
      assert Created(tp, k, handlers[k], m);
      RelocateReturns(tp, tps[k].trampoline);
      assert tp.(trampoline := tps[k].trampoline) == tps[k];
    }

    lemma KnownTree(m: Memory, tps: Tree, targets: seq<nat>, handlers: map<nat, nat>)
      requires Known(m, tps, targets, handlers)
      requires forall tp, t :: t in targets && t in handlers && Created(tp, t, handlers[t], m) ==> NoReturnToZero(tp)
      ensures WellFormed(tps) && Originals(m, tps)
      ensures forall k :: k in tps ==> NoReturnToZero(tps[k]) && tps[k].address == k - k % 2
    {
      forall k | k in tps
        ensures CheckInsn(tps[k].kind, tps[k].insn) && Aligned(tps[k].address, tps[k].kind) && Original(m, tps[k])
        ensures NoReturnToZero(tps[k]) && tps[k].address == k - k % 2
      {
        KnownFacts(m, tps, targets, handlers, k);
        KnownReturns(m, tps, targets, handlers, k);
      }
    }

    lemma RemadeIsKnown(m: Memory, tps: Tree, created: Tree, targets: seq<nat>, handlers: map<nat, nat>)
      requires Known(m, created, targets, handlers) && Remade(tps, created)
      ensures Known(m, tps, targets, handlers)
    {
    }

    /** No request fails, and the words around the targets are mapped. */
    ghost predicate Smooth(m: Memory, targets: seq<nat>, from: nat) {
      && (forall n: nat :: n >= from ==> !thread.fails(n))
      && forall t, x: nat :: t in targets && t - t % 2 <= x + 3 && x < t - t % 2 + 12 ==> x in m
    }

    /** Then every instruction is written back, if the thread lives. */
    lemma SmoothIsComplete(m: Memory, failed: Tree, targets: seq<nat>, handlers: map<nat, nat>, from: nat, from': nat)
      requires Known(m, failed, targets, handlers) && Smooth(m, targets, from) && from <= from' && !thread.dead
      requires (forall x :: x in m ==> x in thread.bytes)
      requires Accounted(failed, from')
      ensures failed == map[]
    {
      var why :| PendingBy(thread.dead, thread.bytes.Keys, from', thread.clock, failed, map[], why);
      forall k | k in failed
        ensures false
      {
        KnownAddress(m, failed, targets, handlers, k);
      }
    }

    // ----- What an installed tracepoint has in memory -----

    ghost predicate HasTrampoline(m: Memory, tp: Tracepoint) {
      forall x: nat :: tp.trampoline <= x < tp.trampoline + |code(tp)| ==>
        x in m && m[x] == code(tp)[x - tp.trampoline]
    }

    /** Its instruction is a branch or a breakpoint, if that was to be written, and its
        trampoline is there. */
    ghost predicate Wired(m: Memory, tp: Tracepoint, dead: bool, from: nat, why: map<nat, nat>, k: nat) {
      && HasTrampoline(m, tp)
      && (Holds(m, tp, EntryInsn(tp)) || Because(dead, m.Keys, tp.address, from, why, k))
    }

    ghost predicate AllWired(m: Memory, tps: Tree, dead: bool, from: nat, to: nat) {
      exists why :: WiredBy(m, tps, dead, from, to, why)
    }

    ghost predicate WiredBy(m: Memory, tps: Tree, dead: bool, from: nat, to: nat, why: map<nat, nat>) {
      OwnReasons(why, to) && forall k :: k in tps ==> Wired(m, tps[k], dead, from, why, k)
    }

    lemma NothingWired(m: Memory, dead: bool, from: nat, to: nat)
      ensures AllWired(m, map[], dead, from, to)
    {
      assert WiredBy(m, map[], dead, from, to, map[]);
    }

    lemma WiredReasons(m: Memory, tps: Tree, dead: bool, from: nat, to: nat) returns (why: map<nat, nat>)
      requires AllWired(m, tps, dead, from, to)
      ensures OwnReasons(why, to) && forall k :: k in tps ==> Wired(m, tps[k], dead, from, why, k)
    {
      why :| WiredBy(m, tps, dead, from, to, why);
    }

    /** Installing another tracepoint elsewhere leaves it so. */
    lemma StaysWired(m: Memory, mid: Memory, r: Memory, tp: Tracepoint, next: Tracepoint, entry: nat, body: nat,
                     dead: bool, from: nat, why: map<nat, nat>, k: nat, dead': bool, why': map<nat, nat>)
      requires Wired(m, tp, dead, from, why, k) && (dead ==> dead')
      requires k in why ==> k in why' && why'[k] == why[k]
      requires Elsewhere(tp, next) && |code(tp)| == tp.template.size && |code(next)| == next.template.size
      requires IsWord(EntryInsn(next)) && entry <= InsnSize(next.kind) && body <= next.template.size
      requires Copied(m, mid, next.address, InsnBytes(next.kind, EntryInsn(next)), 0, entry)
      requires Copied(mid, r, next.trampoline, code(next), 0, body)
      ensures Wired(r, tp, dead', from, why', k)
    {
      hide Copied, Elsewhere, EntryInsn, InsnBytes, Because;
      ElsewhereStays(m, mid, r, tp, next, InsnBytes(next.kind, EntryInsn(next)), entry, code(next), body);
      KeysStay(m, mid, next.address, InsnBytes(next.kind, EntryInsn(next)), entry);
      KeysStay(mid, r, next.trampoline, code(next), body);
      ExcuseLasts(dead, m.Keys, tp.address, from, why, k, dead', why');
    }

    lemma ExcuseLasts(dead: bool, mapped: set<nat>, address: nat, from: nat, why: map<nat, nat>, k: nat,
                      dead': bool, why': map<nat, nat>)
      requires (dead ==> dead') && (k in why ==> k in why' && why'[k] == why[k])
      ensures Because(dead, mapped, address, from, why, k) ==> Because(dead', mapped, address, from, why', k)
    {
    }

    lemma BecomesWired(m: Memory, mid: Memory, r: Memory, tp: Tracepoint, entry: nat,
                       dead: bool, from: nat, why: map<nat, nat>, k: nat)
      requires forall x: nat :: InSpan(tp, x) ==> !(tp.trampoline <= x < tp.trampoline + tp.template.size)
      requires |code(tp)| == tp.template.size && IsWord(EntryInsn(tp)) && entry <= InsnSize(tp.kind)
      requires Copied(m, mid, tp.address, InsnBytes(tp.kind, EntryInsn(tp)), 0, entry)
      requires Copied(mid, r, tp.trampoline, code(tp), 0, tp.template.size)
      requires Mapped(mid.Keys, tp.trampoline, tp.template.size)
      requires if entry == InsnSize(tp.kind) then Mapped(r.Keys, tp.address, InsnSize(tp.kind))
               else Because(dead, r.Keys, tp.address, from, why, k)
      ensures Wired(r, tp, dead, from, why, k)
    {
    }

    /** The instruction at the tracepoint's address is a branch to its trampoline (if that is
        aligned as the instruction set demands), or a breakpoint with a table entry for it. */
    ghost predicate LeadsToTrampoline(tp: Tracepoint, word: Word)
      reads this
    {
      && IsWord(word)
      && if CheckJump(tp.kind, tp.address, tp.trampoline) then
           AlignedJump(tp.kind, tp.address, tp.trampoline) ==>
             ArchIsBranch(tp.kind, InsnValue(word))
             && ReadPc(tp.kind, tp.address) + ArchOffset(tp.kind, InsnValue(word)) == tp.trampoline
         else word == BreakpointInsn(tp.kind) && JumpGet(tp.address) == tp.trampoline
    }

    /** A thread that runs into a traced instruction gets to its trampoline: what memory has
        there leads to it, and the trampoline is there. */
    lemma HitReachesTrampoline(k: nat, live: set<nat>)
      requires Consistent() && Settled(live) && k in live
      ensures k in recorded && HasTrampoline(thread.bytes, recorded[k])
      ensures exists word :: Fetched(recorded[k], word) && LeadsToTrampoline(recorded[k], word)
    {
      hide LeadsToTrampoline, Consistent, Fetched;
      HitIsEntry(k);
      LiveEntry(k);
    }

    /** Memory has the instruction at the tracepoint's address. */
    ghost predicate Fetched(tp: Tracepoint, word: Word)
      reads thread`bytes
    {
      && IsWord(word) && Mapped(thread.bytes.Keys, tp.address, InsnSize(tp.kind))
      && InsnBytes(tp.kind, word) == Fetch(thread.bytes, tp.address, InsnSize(tp.kind))
    }

    lemma LiveEntry(k: nat)
      requires k in recorded && Live(thread.bytes, recorded[k])
      ensures Fetched(recorded[k], EntryInsn(recorded[k]))
    {
      var tp := recorded[k];
      forall x | tp.address <= x < tp.address + InsnSize(tp.kind)
        ensures x in thread.bytes && thread.bytes[x] == InsnBytes(tp.kind, EntryInsn(tp))[x - tp.address]
      {
        assert InSpan(tp, x);
      }
    }

    lemma HitIsEntry(k: nat)
      requires Consistent() && k in recorded
      ensures LeadsToTrampoline(recorded[k], EntryInsn(recorded[k]))
    {
      var tp := recorded[k];
      if CheckJump(tp.kind, tp.address, tp.trampoline) {
        if AlignedJump(tp.kind, tp.address, tp.trampoline) {
          JumpIsNumber(tp.kind, tp.address, tp.trampoline);
          WordOfValue(JumpInsn(tp.kind, tp.address, tp.trampoline));
          EncodedJumpReachesDestination(tp.kind, tp.address, tp.trampoline);
        }
      } else {
        BreakpointHasEntry(k);
      }
    }

    lemma BreakpointHasEntry(k: nat)
      requires Consistent() && k in recorded
      requires !CheckJump(recorded[k].kind, recorded[k].address, recorded[k].trampoline)
      ensures JumpGet(recorded[k].address) == recorded[k].trampoline
    {
      assert Sound(k, recorded[k]);
      FallbackAtAddress(recorded[k]);
      assert recorded[k].address in Family(recorded)[k];
    }

    // ----- The process as its program meets it -----

    /** The tracepoint's branch or breakpoint and its trampoline are in memory. */
    ghost predicate Live(m: Memory, tp: Tracepoint) {
      HasTrampoline(m, tp) && Holds(m, tp, EntryInsn(tp))
    }

    /** Where no request fails and memory is mapped, what is wired is live. */
    lemma SmoothIsLive(m0: Memory, m: Memory, targets: seq<nat>, tp: Tracepoint, from: nat, to: nat, why: map<nat, nat>,
                       k: nat)
      requires Smooth(m0, targets, from) && (forall x :: x in m0 ==> x in m) && OwnReasons(why, to)
      requires k in targets && tp.address == k - k % 2 && Wired(m, tp, false, from, why, k)
      ensures Live(m, tp)
    {
    }

    ghost function Rooms(): map<nat, Room>
      reads this`segments, segments.Values
    {
      map a | a in segments :: Room(segments[a].trampolines, segments[a].UpperEnd())
    }

    /** The trampolines of each segment are in a room of its own, which is mapped, and the
        tracepoints of the keys in live are in memory. */
    ghost predicate Settled(live: set<nat>)
      reads this, segments.Values, thread`bytes
    {
      SettledIn(thread.bytes, live, recorded, Trees(), Rooms())
    }

    ghost predicate SettledIn(m: Memory, live: set<nat>, all: Tree, trees: map<nat, Tree>, rooms: map<nat, Room>) {
      && trees.Keys == rooms.Keys && live <= all.Keys && (forall k :: k in live ==> Live(m, all[k]))
      && Housing(m, trees, rooms)
    }

    ghost predicate Housing(m: Memory, trees: map<nat, Tree>, rooms: map<nat, Room>) {
      && (forall a, k :: a in trees && k in trees[a] ==> a in rooms && InTheRoom(trees[a][k], rooms[a]))
      && (forall a, x: nat :: a in rooms && InRoom(rooms[a], x) ==> x in m)
      && (forall a, b, x: nat :: a in rooms && b in rooms && a != b && InRoom(rooms[a], x) ==> !InRoom(rooms[b], x))
    }

    ghost predicate InTheRoom(tp: Tracepoint, room: Room) {
      room.lo <= tp.trampoline && tp.trampoline + tp.template.size <= room.hi
    }

    /** Where the memory of a tracepoint has not changed. */
    lemma LiveStays(m: Memory, m': Memory, tp: Tracepoint, room: Room, touched: Tree, lo: nat, hi: nat)
      requires GoodTemplates() && Live(m, tp) && InTheRoom(tp, room) && Clean(m, m', touched, lo, hi)
      requires forall x: nat :: (InSpan(tp, x) || InRoom(room, x)) && x in m ==>
                 !(lo <= x < hi) && forall k :: k in touched ==> !InSpan(touched[k], x)
      ensures Live(m', tp)
    {
      hide EntryInsn, InsnBytes;
      forall x: nat | tp.trampoline <= x < tp.trampoline + |code(tp)|
        ensures x in m' && m'[x] == code(tp)[x - tp.trampoline]
      {
        assert InRoom(room, x) && x in m;
      }
    }

    lemma OffTouched(all: Tree, touched: Tree, rooms: map<nat, Room>, k: nat, b: nat)
      requires Untangled(all + touched, rooms) && k in all && k !in touched && b in rooms
      ensures forall x: nat, i :: (InSpan(all[k], x) || InRoom(rooms[b], x)) && i in touched ==> !InSpan(touched[i], x)
    {
      var sum := all + touched;
      assert k in sum && sum[k] == all[k];
      forall x: nat, i | (InSpan(all[k], x) || InRoom(rooms[b], x)) && i in touched
        ensures !InSpan(touched[i], x)
      {
        assert i in sum && sum[i] == touched[i] && i != k;
      }
    }

    /** Another segment's tracepoint stays as it is, when a segment's instructions and room are
        written to. */
    lemma OtherStaysLive(m: Memory, m': Memory, all: Tree, touched: Tree, rooms: map<nat, Room>, k: nat, b: nat,
                         lo: nat, hi: nat)
      requires GoodTemplates() && k in all && k !in touched && b in rooms
      requires Live(m, all[k]) && InTheRoom(all[k], rooms[b]) && Clean(m, m', touched, lo, hi)
      requires Untangled(all + touched, rooms)
      requires OffRooms(all, rooms, lo, hi) || forall x: nat :: lo <= x < hi ==> x !in m
      ensures Live(m', all[k])
    {
      hide Live, Untangled, InTheRoom, Clean;
      OffTouched(all, touched, rooms, k, b);
      LiveStays(m, m', all[k], rooms[b], touched, lo, hi);
    }

    lemma HomeOf(all: Tree, trees: map<nat, Tree>, rooms: map<nat, Room>, m: Memory, k: nat) returns (b: nat)
      requires Union(trees, all) && Housing(m, trees, rooms) && k in all
      ensures b in trees && k in trees[b] && b in rooms && InTheRoom(all[k], rooms[b])
    {
      assert InSome(trees, k);
      b :| b in trees && k in trees[b];
      assert SubTree(trees[b], all);
    }

    /** All of them do. */
    lemma OthersStayLive(m: Memory, m': Memory, live: set<nat>, all: Tree, trees: map<nat, Tree>,
                         rooms: map<nat, Room>, a: nat, others: Tree, touched: Tree, lo: nat, hi: nat)
      requires GoodTemplates() && SettledIn(m, live, all, trees, rooms) && Union(trees, all)
      requires SubTree(others, all) && others.Keys !! touched.Keys && (a in trees ==> trees[a].Keys !! others.Keys)
      requires Clean(m, m', touched, lo, hi) && Untangled(others + touched, rooms - {a})
      requires OffRooms(others, rooms - {a}, lo, hi) || forall x: nat :: lo <= x < hi ==> x !in m
      ensures forall k :: k in live && k in others ==> Live(m', others[k])
    {
      forall k | k in live && k in others
        ensures Live(m', others[k])
      {
        OneStaysLive(m, m', live, all, trees, rooms, a, others, touched, lo, hi, k);
      }
    }

    lemma OneStaysLive(m: Memory, m': Memory, live: set<nat>, all: Tree, trees: map<nat, Tree>,
                       rooms: map<nat, Room>, a: nat, others: Tree, touched: Tree, lo: nat, hi: nat, k: nat)
      requires GoodTemplates() && SettledIn(m, live, all, trees, rooms) && Union(trees, all)
      requires SubTree(others, all) && others.Keys !! touched.Keys && (a in trees ==> trees[a].Keys !! others.Keys)
      requires Clean(m, m', touched, lo, hi) && Untangled(others + touched, rooms - {a})
      requires OffRooms(others, rooms - {a}, lo, hi) || forall x: nat :: lo <= x < hi ==> x !in m
      requires k in live && k in others
      ensures Live(m', others[k])
    {
      hide *;
      SettledFacts(m, live, all, trees, rooms, others, k);
      var b := HomeOf(all, trees, rooms, m, k);
      NotHere(trees, a, b, others, k);
      assert (rooms - {a})[b] == rooms[b];
      OtherStaysLive(m, m', others, touched, rooms - {a}, k, b, lo, hi);
    }

    lemma SettledFacts(m: Memory, live: set<nat>, all: Tree, trees: map<nat, Tree>, rooms: map<nat, Room>, others: Tree,
                       k: nat)
      requires SettledIn(m, live, all, trees, rooms) && SubTree(others, all) && k in live && k in others
      ensures k in all && all[k] == others[k] && Live(m, all[k]) && Housing(m, trees, rooms)
    {
    }

    lemma SettledMeans()
      ensures forall live :: Settled(live) <==> SettledIn(thread.bytes, live, recorded, Trees(), Rooms())
    {
    }

    lemma SettledParts(m: Memory, live: set<nat>, all: Tree, trees: map<nat, Tree>, rooms: map<nat, Room>)
      requires SettledIn(m, live, all, trees, rooms)
      ensures Housing(m, trees, rooms) && live <= all.Keys && trees.Keys == rooms.Keys
    {
    }

    lemma IsSettled(live: set<nat>)
      requires Housing(thread.bytes, Trees(), Rooms()) && live <= recorded.Keys
      requires forall k :: k in live && k in recorded ==> Live(thread.bytes, recorded[k])
      ensures Settled(live)
    {
    }

    lemma NotHere(trees: map<nat, Tree>, a: nat, b: nat, others: Tree, k: nat)
      requires b in trees && k in trees[b] && k in others && (a in trees ==> trees[a].Keys !! others.Keys)
      ensures a != b
    {
    }

    // ----- Fork -----

    /** tracepoint_clone and the return jumps of tracepoints_fork, for one tracepoint of the
        parent. */
    method ForkTracepoint(tp: Tracepoint, parent: Jumps)
      requires OwnTrampoline(tp) && NonZero(parent) && JumpKeys(tp) !! jumps.Keys
      requires forall a :: a in JumpKeys(tp) ==> (a in parent <==> a in Fallbacks(tp))
      modifies this`jumps
      ensures jumps == old(jumps) + Fallbacks(tp)
    {
      FallbackAtAddress(tp);
      assert tp.address in JumpKeys(tp);
      ForkReturns(tp, parent);
      if tp.address in parent && parent[tp.address] != 0 {
        JumpInstall(tp.address, tp.trampoline);
      }
    }

    method ForkReturns(tp: Tracepoint, parent: Jumps)
      requires OwnTrampoline(tp) && NonZero(parent) && JumpKeys(tp) !! jumps.Keys
      requires forall a :: a in JumpKeys(tp) ==> (a in parent <==> a in Fallbacks(tp))
      modifies this`jumps
      ensures jumps == old(jumps) + ReturnFallbacks(tp, |tp.template.fields|)
    {
      ghost var j0 := jumps;
      for i := 0 to |tp.template.fields|
        invariant jumps == j0 + ReturnFallbacks(tp, i)
      {
        assert Returns(tp, i) ==> ReturnFrom(tp, i) in JumpKeys(tp);
        ForkReturn(tp, i, parent, j0);
      }
    }

    method ForkReturn(tp: Tracepoint, i: nat, parent: Jumps, ghost j0: Jumps)
      requires OwnTrampoline(tp) && NonZero(parent) && i < |tp.template.fields|
      requires Returns(tp, i) ==> ReturnFrom(tp, i) !in j0
      requires Returns(tp, i) ==> (ReturnFrom(tp, i) in parent <==> ReturnFrom(tp, i) in Fallbacks(tp))
      requires jumps == j0 + ReturnFallbacks(tp, i)
      modifies this`jumps
      ensures jumps == j0 + ReturnFallbacks(tp, i + 1)
    {
      ReturnStep(tp, i, j0);
      FallbackAt(tp, i);
      if Returns(tp, i) && ReturnFrom(tp, i) in parent && parent[ReturnFrom(tp, i)] != 0 {
        JumpInstall(ReturnFrom(tp, i), ReturnTo(tp, i));
      }
    }

    /** The entries of the tracepoints of the keys in done have been copied. */
    ghost predicate Forked(all: Tree, done: set<nat>)
      reads this`jumps
    {
      done <= all.Keys && JumpsAre(map[], jumps, Family(Restrict(all, done)))
    }

    method ForkNext(tp: Tracepoint, parent: Jumps, ghost k: nat, ghost all: Tree, ghost done: set<nat>)
      requires Exact(parent, all) && NonZero(parent) && Forked(all, done)
      requires k in all && k !in done && tp == all[k] && OwnTrampoline(tp)
      modifies this`jumps
      ensures Forked(all, done + {k})
    {
      forall a | a in jumps
        ensures a !in JumpKeys(tp)
      {
        ForkKeysFree(jumps, all, done, k, a);
      }
      forall a | a in JumpKeys(tp)
        ensures a in parent <==> a in Fallbacks(tp)
      {
        ExactEntry(parent, all, k, a);
      }
      ForkedOne(jumps, all, done, k);
      ForkTracepoint(tp, parent);
    }

    /** The loop of tracepoints_fork over the tracepoints of one segment, in any order. */
    method ForkTracepoints(parent: Jumps, tree: Tree, ghost all: Tree, ghost done: set<nat>)
      requires Exact(parent, all) && NonZero(parent) && Forked(all, done)
      requires tree.Keys !! done && forall k :: k in tree ==> k in all && tree[k] == all[k] && OwnTrampoline(tree[k])
      modifies this`jumps
      ensures Forked(all, done + tree.Keys)
    {
      hide *;
      var todo := tree.Keys;
      assert done + (tree.Keys - todo) == done;
      while todo != {}
        invariant todo <= tree.Keys && Forked(all, done + (tree.Keys - todo))
        decreases todo
      {
        var k :| k in todo;
        ForkNext(tree[k], parent, k, all, done + (tree.Keys - todo));
        assert done + (tree.Keys - (todo - {k})) == done + (tree.Keys - todo) + {k};
        todo := todo - {k};
      }
      assert done + (tree.Keys - {}) == done + tree.Keys;
    }

    lemma NothingForked(all: Tree)
      requires jumps == map[]
      ensures Forked(all, {})
    {
      assert Restrict(all, {}) == map[];
    }

    lemma AllForked(all: Tree)
      requires Forked(all, all.Keys)
      ensures JumpsAre(map[], jumps, Family(all))
    {
      assert Restrict(all, all.Keys) == all;
    }

    /** The segments that are not in todo have been copied to the child, whose table has
        got the entries of the keys in done. */
    ghost predicate Copying(child: Process, todo: set<nat>)
      reads this`segments, segments.Values, child`segments, child.segments.Values
    {
      && child.segments.Keys == segments.Keys - todo
      && forall a :: a in child.segments ==> segments[a].CopiedTo(child.segments[a], child)
    }

    ghost predicate Visited(trees: map<nat, Tree>, todo: set<nat>, done: set<nat>) {
      forall a :: a in trees ==> if a in todo then trees[a].Keys !! done else trees[a].Keys <= done
    }

    lemma VisitNext(trees: map<nat, Tree>, todo: set<nat>, done: set<nat>, a: nat)
      requires Linked() && InRanges(trees) && Visited(trees, todo, done) && a in trees
      ensures Visited(trees, todo - {a}, done + trees[a].Keys)
    {
      forall b | b in trees && b in todo - {a}
        ensures trees[b].Keys !! done + trees[a].Keys
      {
        OwnKeys(trees, a, b);
      }
    }

    lemma VisitedAll(trees: map<nat, Tree>, done: set<nat>)
      requires Visited(trees, {}, done) && Union(trees, recorded) && done <= recorded.Keys
      ensures done == recorded.Keys
    {
      forall k | k in recorded
        ensures k in done
      {
        assert InSome(trees, k);
        var a: nat :| a in trees && k in trees[a];
      }
    }

    lemma TreeFacts(trees: map<nat, Tree>, a: nat)
      requires Union(trees, recorded) && Spread(recorded) && a in trees
      ensures forall k :: k in trees[a] ==> k in recorded && trees[a][k] == recorded[k] && OwnTrampoline(trees[a][k])
    {
      forall k | k in trees[a]
        ensures k in recorded && trees[a][k] == recorded[k] && OwnTrampoline(trees[a][k])
      {
        assert SubTree(trees[a], recorded) && Sound(k, recorded[k]);
      }
    }

    method CloneSegment(child: Process, a: nat, ghost todo: set<nat>)
      requires child != this && a in todo && todo <= segments.Keys && Copying(child, todo)
      modifies child`segments
      ensures Copying(child, todo - {a}) && fresh(child.segments.Values - old(child.segments.Values))
    {
      var clone := new Segment.Clone(child, segments[a]);
      child.segments := child.segments[a := clone];
    }

    /** One segment of the parent. */
    method ForkSegment(child: Process, a: nat, ghost trees: map<nat, Tree>, ghost todo: set<nat>, ghost done: set<nat>)
      requires Linked() && InRanges(trees) && Union(trees, recorded) && Spread(recorded)
      requires NonZero(jumps) && Exact(jumps, recorded) && a in trees
      requires child != this && a in todo && todo <= segments.Keys && segments[a].tracepoints == trees[a]
      requires Copying(child, todo) && child.Forked(recorded, done) && Visited(trees, todo, done)
      modifies child`jumps, child`segments
      ensures Copying(child, todo - {a}) && fresh(child.segments.Values - old(child.segments.Values))
      ensures child.Forked(recorded, done + trees[a].Keys) && Visited(trees, todo - {a}, done + trees[a].Keys)
    {
      hide *;
      VisitNext(trees, todo, done, a);
      TreeFacts(trees, a);
      NotVisited(trees, todo, done, a);
      child.ForkTracepoints(jumps, segments[a].tracepoints, recorded, done);
      CloneSegment(child, a, todo);
    }

    lemma NotVisited(trees: map<nat, Tree>, todo: set<nat>, done: set<nat>, a: nat)
      requires Visited(trees, todo, done) && a in trees && a in todo
      ensures trees[a].Keys !! done
    {
    }

    lemma CopiedIsConsistent(child: Process)
      requires Consistent() && Copying(child, {}) && child.recorded == recorded
      requires JumpsAre(map[], child.jumps, Family(recorded))
      ensures child.Consistent() && child.Trees() == Trees() && child.jumps == jumps
    {
      assert child.segments.Keys == segments.Keys - {} == segments.Keys;
      forall a | a in segments
        ensures a in child.segments && segments[a].CopiedTo(child.segments[a], child)
      {
      }
      assert child.Trees() == Trees();
      JumpsUnique(child.jumps, jumps, Family(recorded));
    }

    lemma TreesFacts()
      requires Consistent()
      ensures Linked() && InRanges(Trees()) && Union(Trees(), recorded) && Spread(recorded)
      ensures Trees().Keys == segments.Keys
      ensures forall a :: a in segments ==> segments[a].tracepoints == Trees()[a]
    {
    }

    /** segment_fork: the child gets copies of the segments, with its own copy of the table; if
        its memory is a copy, too, it has the tracepoints that the parent has. */
    method Fork(child: Process)
      requires Consistent() && child != this
      requires child.segments == map[] && child.jumps == map[] && child.recorded == map[]
      modifies child
      ensures child.Consistent() && child.jumps == jumps && child.recorded == recorded && child.Trees() == Trees()
      ensures child.segments.Keys == segments.Keys && fresh(child.segments.Values)
      ensures forall a :: a in segments ==> segments[a].CopiedTo(child.segments[a], child)
      ensures child.thread.bytes == thread.bytes && child.code == code ==>
                forall live :: Settled(live) ==> child.Settled(live)
    {
      hide *;
      ghost var trees, done: set<nat> := Trees(), {};
      TreesFacts();
      ConsistentIsExact();
      var todo := segments.Keys;
      child.NothingForked(recorded);
      NothingCopied(child, trees);
      while todo != {}
        invariant todo <= segments.Keys && Copying(child, todo) && fresh(child.segments.Values)
        invariant child.Forked(recorded, done) && Visited(trees, todo, done) && child.recorded == map[]
        decreases todo
      {
        var a :| a in todo;
        ForkSegment(child, a, trees, todo, done);
        todo, done := todo - {a}, done + trees[a].Keys;
      }
      ForkedIsPart(child, done);
      VisitedAll(trees, done);
      child.AllForked(recorded);
      child.recorded := recorded;
      CopiedIsConsistent(child);
      AllCopied(child);
      if child.thread.bytes == thread.bytes && child.code == code {
        ChildIsSettled(child);
      }
    }

    /** A child whose memory is a copy has the same tracepoints in memory. */
    lemma ChildIsSettled(child: Process)
      requires child.recorded == recorded && child.Trees() == Trees() && child.segments.Keys == segments.Keys
      requires forall a :: a in segments ==> segments[a].CopiedTo(child.segments[a], child)
      requires child.thread.bytes == thread.bytes && child.code == code
      ensures forall live :: Settled(live) ==> child.Settled(live)
    {
      assert child.Rooms() == Rooms();
      forall live, k | Settled(live) && k in live
        ensures child.Live(child.thread.bytes, child.recorded[k])
      {
        assert Live(thread.bytes, recorded[k]);
      }
    }

    lemma NothingCopied(child: Process, trees: map<nat, Tree>)
      requires child.segments == map[]
      ensures Copying(child, segments.Keys) && (trees.Keys == segments.Keys ==> Visited(trees, segments.Keys, {}))
    {
    }

    lemma ForkedIsPart(child: Process, done: set<nat>)
      requires child.Forked(recorded, done)
      ensures done <= recorded.Keys
    {
    }

    lemma AllCopied(child: Process)
      requires Copying(child, {})
      ensures child.segments.Keys == segments.Keys
      ensures forall a :: a in segments ==> segments[a].CopiedTo(child.segments[a], child)
    {
    }
  }

  class Segment {
    const process: Process
    const start: nat
    const end: nat
    var tracepoints: Tree
    var trampolines: nat
    var trampolinesSize: nat
    var stolen: bool

    constructor (process: Process, start: nat, end: nat)
      ensures this.process == process && this.start == start && this.end == end
      ensures tracepoints == map[] && trampolines == trampolinesSize == 0 && !stolen
    {
      this.process, this.start, this.end := process, start, end;
      tracepoints, trampolines, trampolinesSize, stolen := map[], 0, 0, false;
    }

    /** segment_clone, and what tracepoints_fork copies */
    constructor Clone(process: Process, parent: Segment)
      ensures parent.CopiedTo(this, process)
    {
      this.process, start, end := process, parent.start, parent.end;
      tracepoints, trampolines, trampolinesSize := parent.tracepoints, parent.trampolines, parent.trampolinesSize;
      stolen := parent.stolen;
    }

    ghost predicate CopiedTo(clone: Segment, process: Process)
      reads this, clone
    {
      && clone.process == process && clone.start == start && clone.end == end && clone.tracepoints == tracepoints
      && clone.trampolines == trampolines && clone.trampolinesSize == trampolinesSize && clone.stolen == stolen
    }

    // ----- Removal -----

    ghost function UpperEnd(): nat
      reads this
    {
      if trampolines == 0 then 0 else trampolines + AlignToPage(trampolinesSize)
    }

    /** munmap or, of stolen memory, mprotect of the trampolines; it may fail, which is only
        logged. */
    method TrampolineFree() returns (success: bool)
      requires trampolines != 0
      modifies process.thread`bytes
      ensures Unmapped(old(process.thread.bytes), process.thread.bytes, trampolines, UpperEnd())
      ensures GivenBack(old(process.thread.bytes), process.thread.bytes, trampolines, UpperEnd(), success && !stolen)
    {
      success := *;
      if success && !stolen {
        var lo, hi := trampolines, trampolines + AlignToPage(trampolinesSize);
        process.thread.bytes := map x | x in process.thread.bytes && !(lo <= x < hi) :: process.thread.bytes[x];
      }
    }

    /** The result tells whether trampolines were to be freed and the call succeeded. */
    method ForgetTrampolines(freeTrampolines: bool, ghost lo: nat, ghost hi: nat) returns (freed: bool)
      requires Held(lo, hi)
      modifies this`trampolines, this`trampolinesSize, process.thread`bytes
      ensures trampolines == trampolinesSize == 0 && (freed ==> freeTrampolines && old(trampolines) != 0)
      ensures Unmapped(old(process.thread.bytes), process.thread.bytes, lo, hi)
      ensures GivenBack(old(process.thread.bytes), process.thread.bytes, old(trampolines), old(UpperEnd()),
                        freed && !stolen)
      ensures !freeTrampolines ==> process.thread.bytes == old(process.thread.bytes)
    {
      freed := false;
      if freeTrampolines && trampolines != 0 {
        freed := TrampolineFree();
      }
      trampolines, trampolinesSize := 0, 0;
    }

    /** The trampolines, if there are any, lie between lo and hi. */
    ghost predicate Held(lo: nat, hi: nat)
      reads this
    {
      trampolines != 0 ==> lo <= trampolines && trampolines + AlignToPage(trampolinesSize) <= hi
    }

    method RestoreOne(k: nat, ghost dirty: Tree, ghost m0: Memory, ghost lo: nat, ghost hi: nat, tp: Tracepoint)
      returns (ghost failed: Tree)
      requires process.thread.Valid() && k in dirty && tp == dirty[k]
      requires Original(m0, tp) && Aligned(tp.address, tp.kind) && Clean(m0, process.thread.bytes, dirty, lo, hi)
      modifies process.thread
      ensures failed == dirty - {k} || (failed == dirty && process.Excused(tp.address, old(process.thread.clock)))
      ensures Clean(m0, process.thread.bytes, failed, lo, hi)
      ensures process.thread.clock >= old(process.thread.clock) && (old(process.thread.dead) ==> process.thread.dead)
      ensures process.thread.bytes.Keys == old(process.thread.bytes.Keys)
    {
      ghost var m := process.thread.bytes;
      var ok; ghost var n;
      ok, n := process.PatchInsn(tp.address, tp.kind, tp.insn);
      if ok {
        RestoreCleans(m0, m, process.thread.bytes, dirty, k, lo, hi);
        failed := dirty - {k};
      } else {
        PatchKeepsClean(m0, m, process.thread.bytes, dirty, k, lo, hi, InsnBytes(tp.kind, tp.insn), n);
        failed := dirty;
      }
    }

    /** One turn of the loop: the tracepoint of any key is popped. */
    method PopOne(unpatch: bool, ghost dirty: Tree, ghost tps: Tree, ghost j0: Jumps, ghost gone: set<nat>,
                  ghost m0: Memory, ghost lo: nat, ghost hi: nat, ghost from: nat)
      returns (ghost failed: Tree, ghost gone': set<nat>)
      requires process.thread.Valid() && NonZero(j0) && tracepoints != map[]
      requires Popping(tps, j0, process.jumps, tracepoints, gone) && from <= process.thread.clock
      requires unpatch ==> Unpatching(m0, process.thread.bytes, tracepoints, dirty, tps, lo, hi)
      requires unpatch ==>
                process.Pending(process.thread.dead, process.thread.bytes.Keys, from, process.thread.clock,
                                dirty, tracepoints)
      modifies this`tracepoints, process`jumps, process.thread
      ensures |tracepoints| < |old(tracepoints)|
      ensures Popping(tps, j0, process.jumps, tracepoints, gone')
      ensures unpatch ==> Unpatching(m0, process.thread.bytes, tracepoints, failed, tps, lo, hi)
      ensures unpatch ==>
                process.Pending(process.thread.dead, process.thread.bytes.Keys, from, process.thread.clock,
                                failed, tracepoints)
      ensures process.thread.clock >= old(process.thread.clock)
      ensures process.thread.bytes.Keys == old(process.thread.bytes.Keys)
      ensures !unpatch ==> failed == dirty && unchanged(process.thread)
    {
      var k :| k in tracepoints;
      var tp := tracepoints[k];
      PoppedOne(tps, j0, process.jumps, tracepoints, gone, k);
      tracepoints := tracepoints - {k};
      process.DiscardJumps(tp);
      gone' := gone + JumpKeys(tp);
      failed := dirty;
      if unpatch {
        failed := Unpatch(k, tp, dirty, old(tracepoints), tps, m0, lo, hi, from);
      }
    }

    method Unpatch(k: nat, tp: Tracepoint, ghost dirty: Tree, ghost rest: Tree, ghost tps: Tree,
                   ghost m0: Memory, ghost lo: nat, ghost hi: nat, ghost from: nat)
      returns (ghost failed: Tree)
      requires process.thread.Valid() && k in rest && tp == rest[k] && WellFormed(rest) && from <= process.thread.clock
      requires Unpatching(m0, process.thread.bytes, rest, dirty, tps, lo, hi)
      requires process.Pending(process.thread.dead, process.thread.bytes.Keys, from, process.thread.clock, dirty, rest)
      modifies process.thread
      ensures Unpatching(m0, process.thread.bytes, rest - {k}, failed, tps, lo, hi)
      ensures process.Pending(process.thread.dead, process.thread.bytes.Keys, from, process.thread.clock,
                              failed, rest - {k})
      ensures process.thread.clock >= old(process.thread.clock)
      ensures process.thread.bytes.Keys == old(process.thread.bytes.Keys)
    {
      ghost var m, dead, clock := process.thread.bytes, process.thread.dead, process.thread.clock;
      failed := RestoreOne(k, dirty, m0, lo, hi, tp);
      RestoredOne(m0, m, process.thread.bytes, rest, dirty, failed, tps, lo, hi, k);
      process.PendingStep(dead, m.Keys, from, clock, dirty, rest, process.thread.dead, process.thread.clock, failed, k);
    }

    /** Remove the tracepoints, in whatever order the tree yields them.  Those of failed could
        not be written back. */
    method PopAll(unpatch: bool, ghost m0: Memory, ghost lo: nat, ghost hi: nat) returns (ghost failed: Tree)
      requires process.thread.Valid() && NonZero(process.jumps) && WellFormed(tracepoints)
      requires unpatch ==> Originals(m0, tracepoints) && Clean(m0, process.thread.bytes, tracepoints, lo, hi)
      modifies this`tracepoints, process`jumps, process.thread
      ensures tracepoints == map[] && process.jumps == old(process.jumps) - AllKeys(old(tracepoints))
      ensures unpatch ==> SubTree(failed, old(tracepoints)) && Clean(m0, process.thread.bytes, failed, lo, hi)
      ensures unpatch ==> process.Accounted(failed, old(process.thread.clock))
      ensures process.thread.clock >= old(process.thread.clock)
      ensures process.thread.bytes.Keys == old(process.thread.bytes.Keys)
      ensures !unpatch ==> unchanged(process.thread)
    {
      ghost var tps, j0, from, gone: set<nat> := tracepoints, process.jumps, process.thread.clock, {};
      failed := tracepoints;
      process.NothingPending(process.thread.dead, process.thread.bytes.Keys, from, from, failed);
      while tracepoints != map[]
        invariant Popping(tps, j0, process.jumps, tracepoints, gone) && from <= process.thread.clock
        invariant unpatch ==> Unpatching(m0, process.thread.bytes, tracepoints, failed, tps, lo, hi)
        invariant unpatch ==>
                  process.Pending(process.thread.dead, process.thread.bytes.Keys, from, process.thread.clock,
                                failed, tracepoints)
        invariant process.thread.bytes.Keys == old(process.thread.bytes.Keys)
        invariant !unpatch ==> unchanged(process.thread)
        decreases |tracepoints|
      {
        failed, gone := PopOne(unpatch, failed, tps, j0, gone, m0, lo, hi, from);
      }
      assert AllKeys(tracepoints) == {};
    }

    /** tracepoints_cleanup.  Memory m0 is what the process had before the tracepoints. */
    method Cleanup(unpatch: bool, freeTrampolines: bool, ghost m0: Memory, ghost lo: nat, ghost hi: nat)
      returns (freed: bool, ghost failed: Tree)
      requires process.thread.Valid() && NonZero(process.jumps) && WellFormed(tracepoints) && Held(lo, hi)
      requires unpatch ==> Originals(m0, tracepoints) && Clean(m0, process.thread.bytes, tracepoints, lo, hi)
      modifies this`tracepoints, this`trampolines, this`trampolinesSize, process`jumps, process.thread
      ensures tracepoints == map[] && trampolines == trampolinesSize == 0
      ensures process.jumps == old(process.jumps) - AllKeys(old(tracepoints))
      ensures unpatch ==> SubTree(failed, old(tracepoints)) && Clean(m0, process.thread.bytes, failed, lo, hi)
      ensures unpatch ==> process.Accounted(failed, old(process.thread.clock))
      ensures process.thread.clock >= old(process.thread.clock)
      ensures freed ==> freeTrampolines && old(trampolines) != 0
      ensures GivenBack(old(process.thread.bytes), process.thread.bytes, old(trampolines), old(UpperEnd()),
                        freed && !stolen)
      ensures !unpatch ==> Unmapped(old(process.thread.bytes), process.thread.bytes, lo, hi)
      ensures !unpatch ==> unchanged(process.thread`clock, process.thread`dead)
      ensures !unpatch && !freeTrampolines ==> unchanged(process.thread)
    {
      freed := ForgetTrampolines(freeTrampolines, lo, hi);
      if unpatch {
        UnmappedIsClean(m0, old(process.thread.bytes), process.thread.bytes, tracepoints, lo, hi);
      }
      failed := PopAll(unpatch, m0, lo, hi);
    }

    // ----- Installation -----

    /** The first half of tracepoints_init: read every original instruction, and lay out the
        trampolines.  The targets are the runtime addresses that lie in the segment. */
    method CreateTracepoints(targets: seq<nat>, handlers: map<nat, nat>) returns (ghost made: seq<Option<Tracepoint>>)
      requires process.GoodTemplates() && tracepoints == map[] && Distinct(targets)
      requires forall t :: t in targets ==> t in handlers && Aligned(t - t % 2, process.AddressKind(t))
      modifies this`tracepoints, this`trampolinesSize, process.thread`dead
      ensures |made| == |targets| && (old(process.thread.dead) ==> process.thread.dead)
      ensures process.Prepared(process.thread.bytes, tracepoints, trampolinesSize, targets, handlers, made)
    {
      trampolinesSize := 0;
      made := [];
      for i := 0 to |targets|
        invariant |made| == i && (old(process.thread.dead) ==> process.thread.dead)
        invariant process.Prepared(process.thread.bytes, tracepoints, trampolinesSize, targets, handlers, made)
      {
        made := CreateNext(targets, handlers, i, made);
      }
    }

    method CreateNext(targets: seq<nat>, handlers: map<nat, nat>, i: nat, ghost made: seq<Option<Tracepoint>>)
      returns (ghost made': seq<Option<Tracepoint>>)
      requires process.GoodTemplates() && Distinct(targets) && i == |made| < |targets|
      requires forall t :: t in targets ==> t in handlers && Aligned(t - t % 2, process.AddressKind(t))
      requires process.Prepared(process.thread.bytes, tracepoints, trampolinesSize, targets, handlers, made)
      modifies this`tracepoints, this`trampolinesSize, process.thread`dead
      ensures |made'| == i + 1 && (old(process.thread.dead) ==> process.thread.dead)
      ensures process.Prepared(process.thread.bytes, tracepoints, trampolinesSize, targets, handlers, made')
    {
      ghost var m, tps, total := process.thread.bytes, tracepoints, trampolinesSize;
      var tp := process.TracepointCreate(targets[i], handlers[targets[i]]);
      made' := made + [tp];
      if tp.None? {
        process.PreparedNone(m, tps, total, targets, handlers, made);
      } else {
        process.PreparedOne(m, tps, total, targets, handlers, made, tp.value);
        tracepoints := tracepoints[targets[i] := tp.value.(trampoline := trampolinesSize)];
        trampolinesSize := trampolinesSize + tp.value.template.size;
      }
    }

    /** mmap of the trampolines at the place that allocate_trampoline settled on. */
    method MapTrampolines(place: Place)
      requires !place.Nowhere?
      modifies this`trampolines, this`stolen, process.thread`bytes
      ensures trampolines == Base(place) && stolen == (old(stolen) || place.Stolen?)
      ensures forall x :: x in process.thread.bytes <==>
                x in old(process.thread.bytes) || Base(place) <= x < Top(place, trampolinesSize)
      ensures Clean(old(process.thread.bytes), process.thread.bytes, map[], Base(place), Top(place, trampolinesSize))
      ensures process.thread.bytes == old(process.thread.bytes) + Zeros(Base(place), AlignToPage(trampolinesSize))
    {
      trampolines := Base(place);
      if place.Stolen? {
        stolen := true;
      }
      process.thread.bytes := process.thread.bytes + Zeros(Base(place), AlignToPage(trampolinesSize));
    }

    /** The tracepoints are created, and the trampolines have a place out of the way of the
        instructions and of table j0. */
    ghost predicate Ready(created: Tree, j0: Jumps)
      reads this
    {
      && WellFormed(created) && Layout(created, 0, trampolinesSize)
      && AddressesOutside(created, trampolines, trampolinesSize) && Unused(j0, created, trampolines, trampolinesSize)
    }

    /** All but the tracepoints of the keys in todo are installed: they have their trampolines,
        and the table has their fallbacks. */
    ghost predicate Installing(created: Tree, j0: Jumps, todo: set<nat>)
      reads this, process
    {
      var done := created.Keys - todo;
      && tracepoints == Relocated(created, trampolines, done)
      && JumpsAre(j0, process.jumps, Family(Done(created, trampolines, done)))
    }

    lemma NothingInstalled(created: Tree, j0: Jumps)
      requires WellFormed(created) && tracepoints == created && process.jumps == j0
      ensures Installing(created, j0, created.Keys)
    {
      assert created.Keys - created.Keys == {};
      assert tracepoints == Relocated(created, trampolines, {});
      assert Family(Done(created, trampolines, {})) == map[];
    }

    /** Instructions overlap neither each other nor the trampolines. */
    ghost predicate Separate(created: Tree)
      reads this
    {
      SpansApart(created) && SpansOutside(created, trampolines, trampolines + trampolinesSize)
    }

    /** What has been installed is in memory. */
    ghost predicate InMemory(created: Tree, done: set<nat>, from: nat)
      reads this, process, process.thread
    {
      Separate(created) ==>
        process.AllWired(process.thread.bytes, Done(created, trampolines, done),
                         process.thread.dead, from, process.thread.clock)
    }

    /** The installation loop, in any order; it stops at the first trampoline that cannot be
        written.  The tracepoints of the keys in todo are left without a trampoline. */
    method InstallAll(ghost created: Tree, ghost m0: Memory, ghost hi: nat) returns (ok: bool, ghost todo: set<nat>)
      requires process.thread.Valid() && process.GoodTemplates() && tracepoints == created
      requires Ready(created, process.jumps)
      requires trampolines + trampolinesSize <= hi && Clean(m0, process.thread.bytes, created, trampolines, hi)
      modifies this`tracepoints, process`jumps, process.thread
      ensures Installing(created, old(process.jumps), todo)
      ensures Clean(m0, process.thread.bytes, created, trampolines, hi)
      ensures process.thread.clock >= old(process.thread.clock)
      ensures process.thread.bytes.Keys == old(process.thread.bytes.Keys)
      ensures ok ==> todo == {} && InMemory(created, created.Keys, old(process.thread.clock))
    {
      var left := tracepoints.Keys;
      NothingInstalled(created, process.jumps);
      assert created.Keys - left == {} && Done(created, trampolines, {}) == map[];
      process.NothingWired(process.thread.bytes, process.thread.dead, process.thread.clock, process.thread.clock);
      ok := true;
      while ok && left != {}
        invariant left <= created.Keys && Installing(created, old(process.jumps), left)
        invariant Clean(m0, process.thread.bytes, created, trampolines, hi)
        invariant process.thread.clock >= old(process.thread.clock)
        invariant process.thread.bytes.Keys == old(process.thread.bytes.Keys)
        invariant ok ==> InMemory(created, created.Keys - left, old(process.thread.clock))
        decreases left
      {
        ok, left := InstallNext(left, created, old(process.jumps), m0, hi, old(process.thread.clock));
      }
      assert created.Keys - {} == created.Keys;
      todo := left;
    }

    method InstallNext(todo: set<nat>, ghost created: Tree, ghost j0: Jumps, ghost m0: Memory, ghost hi: nat,
                       ghost from: nat)
      returns (ok: bool, left: set<nat>)
      requires process.thread.Valid() && process.GoodTemplates() && Ready(created, j0) && Installing(created, j0, todo)
      requires todo != {} && todo <= created.Keys && from <= process.thread.clock
      requires trampolines + trampolinesSize <= hi && Clean(m0, process.thread.bytes, created, trampolines, hi)
      requires InMemory(created, created.Keys - todo, from)
      modifies this`tracepoints, process`jumps, process.thread
      ensures left < todo && Installing(created, j0, left)
      ensures Clean(m0, process.thread.bytes, created, trampolines, hi)
      ensures process.thread.clock >= old(process.thread.clock)
      ensures process.thread.bytes.Keys == old(process.thread.bytes.Keys)
      ensures ok ==> InMemory(created, created.Keys - left, from)
    {
      var k :| k in todo;
      left := todo - {k};
      ghost var done := created.Keys - todo;
      assert created.Keys - left == done + {k};
      RelocateOne(created, trampolines, done, k);
      var tp := Relocate(tracepoints[k], trampolines);
      tracepoints := tracepoints[k := tp];
      NextKeysFree(created, trampolines, trampolinesSize, done, j0, process.jumps, k);
      InstalledOne(created, trampolines, done, j0, process.jumps, k);
      ok := InstallInMemory(tp, k, created, done, m0, hi, from);
    }

    /** One round, and what it does to memory. */
    method InstallInMemory(tp: Tracepoint, ghost k: nat, ghost created: Tree, ghost done: set<nat>,
                           ghost m0: Memory, ghost hi: nat, ghost from: nat)
      returns (ok: bool)
      requires process.thread.Valid() && process.GoodTemplates() && k in created && k !in done
      requires tp == Relocate(created[k], trampolines)
      requires WellFormed(created) && Layout(created, 0, trampolinesSize)
      requires AddressesOutside(created, trampolines, trampolinesSize)
      requires JumpKeys(tp) !! process.jumps.Keys && from <= process.thread.clock
      requires trampolines + trampolinesSize <= hi && Clean(m0, process.thread.bytes, created, trampolines, hi)
      requires InMemory(created, done, from)
      modifies process`jumps, process.thread
      ensures process.jumps == old(process.jumps) + Fallbacks(tp)
      ensures Clean(m0, process.thread.bytes, created, trampolines, hi)
      ensures process.thread.clock >= old(process.thread.clock)
      ensures process.thread.bytes.Keys == old(process.thread.bytes.Keys)
      ensures ok ==> InMemory(created, done + {k}, from)
    {
      assert Inside(created[k], 0, trampolinesSize) && GoodTemplate(created[k].template);
      ghost var m, dead, clock := process.thread.bytes, process.thread.dead, process.thread.clock;
      ghost var entry, body, mid;
      ok, entry, body, mid := process.InstallTracepoint(tp);
      ghost var r := process.thread.bytes;
      PatchKeepsClean(m0, m, mid, created, k, trampolines, hi, InsnBytes(tp.kind, process.EntryInsn(tp)), entry);
      TrampolineKeepsClean(m0, mid, r, created, trampolines, hi, tp.trampoline, process.code(tp), body);
      if ok && Separate(created) {
        WiredNext(created, done, k, m, mid, r, entry, dead, from, clock, process.thread.dead, process.thread.clock);
      }
    }

    lemma WiredNext(created: Tree, done: set<nat>, k: nat, m: Memory, mid: Memory, r: Memory, entry: nat,
                    dead: bool, from: nat, to: nat, dead': bool, to': nat)
      requires process.GoodTemplates() && Separate(created) && Layout(created, 0, trampolinesSize)
      requires k in created && k !in done && (dead ==> dead') && from <= to <= to'
      requires process.AllWired(m, Done(created, trampolines, done), dead, from, to)
      requires var tp := Relocate(created[k], trampolines); WroteOne(tp, m, mid, r, entry)
      requires if entry == InsnSize(created[k].kind) then Mapped(r.Keys, created[k].address, InsnSize(created[k].kind))
               else process.Hindered(dead', r.Keys, to, to', created[k].address)
      ensures process.AllWired(r, Done(created, trampolines, done + {k}), dead', from, to')
    {
      var before, all := Done(created, trampolines, done), Done(created, trampolines, done + {k});
      var tp := Relocate(created[k], trampolines);
      var why :| process.WiredBy(m, before, dead, from, to, why);
      var why' := why;
      if entry == InsnSize(created[k].kind) {
        process.ReasonsLast(why, to, to');
      } else {
        why' := process.ReasonFound(dead', r.Keys, created[k].address, to, to', why, k);
      }
      SeparateSelf(created, k);
      process.BecomesWired(m, mid, r, tp, entry, dead', from, why', k);
      forall i | i in before
        ensures process.Wired(r, before[i], dead', from, why', i)
      {
        SeparateOthers(created, i, k);
        process.StaysWired(m, mid, r, before[i], tp, entry, tp.template.size, dead, from, why, i, dead', why');
      }
      AllAreWired(created, done, k, r, dead', from, to', why');
    }

    lemma AllAreWired(created: Tree, done: set<nat>, k: nat, r: Memory, dead: bool, from: nat, to: nat,
                      why: map<nat, nat>)
      requires k in created && k !in done && process.OwnReasons(why, to)
      requires process.Wired(r, Relocate(created[k], trampolines), dead, from, why, k)
      requires var before := Done(created, trampolines, done);
               forall i :: i in before ==> process.Wired(r, before[i], dead, from, why, i)
      ensures process.AllWired(r, Done(created, trampolines, done + {k}), dead, from, to)
    {
      var before, all := Done(created, trampolines, done), Done(created, trampolines, done + {k});
      forall i | i in all
        ensures process.Wired(r, all[i], dead, from, why, i)
      {
        assert i != k ==> i in before && before[i] == all[i];
      }
      assert process.WiredBy(r, all, dead, from, to, why);
    }

    ghost predicate WroteOne(tp: Tracepoint, m: Memory, mid: Memory, r: Memory, entry: nat) {
      && IsWord(process.EntryInsn(tp)) && entry <= InsnSize(tp.kind)
      && Copied(m, mid, tp.address, InsnBytes(tp.kind, process.EntryInsn(tp)), 0, entry)
      && Copied(mid, r, tp.trampoline, process.code(tp), 0, tp.template.size)
      && Mapped(mid.Keys, tp.trampoline, tp.template.size)
    }

    lemma SeparateSelf(created: Tree, k: nat)
      requires Separate(created) && Layout(created, 0, trampolinesSize) && k in created
      ensures var tp := Relocate(created[k], trampolines);
              forall x: nat :: InSpan(tp, x) ==> !(tp.trampoline <= x < tp.trampoline + tp.template.size)
    {
      var tp := Relocate(created[k], trampolines);
      assert Inside(created[k], 0, trampolinesSize);
      forall x: nat | InSpan(tp, x)
        ensures !(tp.trampoline <= x < tp.trampoline + tp.template.size)
      {
        assert InSpan(created[k], x);
      }
    }

    lemma SeparateOthers(created: Tree, i: nat, k: nat)
      requires Separate(created) && Layout(created, 0, trampolinesSize) && i in created && k in created && i != k
      ensures Elsewhere(Relocate(created[i], trampolines), Relocate(created[k], trampolines))
    {
      var a, b := Relocate(created[i], trampolines), Relocate(created[k], trampolines);
      assert Inside(created[i], 0, trampolinesSize) && Inside(created[k], 0, trampolinesSize)
             && Apart(created[i], created[k]);
      forall x: nat | InSpan(a, x)
        ensures !InSpan(b, x) && !(b.trampoline <= x < b.trampoline + b.template.size)
      {
        assert InSpan(created[i], x) && !InSpan(created[k], x);
      }
      forall x: nat | InSpan(b, x)
        ensures !(a.trampoline <= x < a.trampoline + a.template.size)
      {
        assert InSpan(created[k], x);
      }
    }

    lemma Relocation(created: Tree, j0: Jumps, todo: set<nat>, m0: Memory, lo: nat, hi: nat)
      requires Installing(created, j0, todo) && WellFormed(created) && Originals(m0, created)
      requires Clean(m0, process.thread.bytes, created, lo, hi)
      ensures WellFormed(tracepoints) && Originals(m0, tracepoints)
      ensures Clean(m0, process.thread.bytes, tracepoints, lo, hi)
      ensures Remade(tracepoints, created)
    {
      RelocatedFacts(created, trampolines, created.Keys - todo);
      RelocatedInstructions(created, trampolines, created.Keys - todo, m0, process.thread.bytes, lo, hi);
    }

    ghost predicate Rollbackable(created: Tree, j0: Jumps, todo: set<nat>)
      reads this
    {
      && WellFormed(created) && Layout(created, 0, trampolinesSize) && Unused(j0, created, trampolines, trampolinesSize)
      && (forall k :: k in created ==> NoReturnToZero(created[k]))
      && (trampolines > 0 || created.Keys <= todo)
    }

    /** Rolling back, wherever the installation got to. */
    method Rollback(ghost created: Tree, ghost m0: Memory, ghost j0: Jumps, ghost todo: set<nat>, ghost lo: nat,
                    ghost hi: nat)
      returns (freed: bool, ghost failed: Tree)
      requires process.thread.Valid() && NonZero(j0) && Installing(created, j0, todo) && Rollbackable(created, j0, todo)
      requires Held(lo, hi) && Originals(m0, created) && Clean(m0, process.thread.bytes, created, lo, hi)
      modifies this`tracepoints, this`trampolines, this`trampolinesSize, process`jumps, process.thread
      ensures tracepoints == map[] && trampolines == trampolinesSize == 0 && process.jumps == j0
      ensures Clean(m0, process.thread.bytes, failed, lo, hi) && Remade(failed, created)
      ensures process.Accounted(failed, old(process.thread.clock))
      ensures process.thread.clock >= old(process.thread.clock) && (freed ==> old(trampolines) != 0)
      ensures GivenBack(old(process.thread.bytes), process.thread.bytes, old(trampolines), old(UpperEnd()),
                        freed && !stolen)
    {
      Relocation(created, j0, todo, m0, lo, hi);
      TableNonZero(created, trampolines, created.Keys - todo, j0, process.jumps);
      RolledBack(created, trampolines, trampolinesSize, created.Keys - todo, j0, process.jumps);
      freed, failed := Cleanup(true, true, m0, lo, hi);
    }

    /** Tracepoints that can be installed with their trampolines in the place. */
    ghost predicate Placeable(tps: Tree, total: nat, place: Place, j0: Jumps) {
      && WellFormed(tps) && Layout(tps, 0, total) && Unused(j0, tps, Base(place), total)
      && (forall k :: k in tps ==> NoReturnToZero(tps[k]))
      && (place.Nowhere? || (Base(place) > 0 && AddressesOutside(tps, Base(place), total)))
    }

    method MapAndInstall(place: Place, ghost created: Tree, ghost m0: Memory, ghost hi: nat)
      returns (ok: bool, ghost todo: set<nat>)
      requires process.thread.Valid() && process.GoodTemplates() && tracepoints == created && !place.Nowhere?
      requires Placeable(created, trampolinesSize, place, process.jumps) && hi == Top(place, trampolinesSize)
      requires process.thread.bytes == m0
      modifies this`trampolines, this`stolen, this`tracepoints, process`jumps, process.thread
      ensures trampolines == Base(place) && stolen == (old(stolen) || place.Stolen?)
      ensures Installing(created, old(process.jumps), todo) && Clean(m0, process.thread.bytes, created, Base(place), hi)
      ensures process.thread.clock >= old(process.thread.clock) && trampolinesSize == old(trampolinesSize)
      ensures forall x :: x in process.thread.bytes <==> x in m0 || Base(place) <= x < hi
      ensures ok ==> todo == {} && InMemory(created, created.Keys, old(process.thread.clock))
    {
      MapTrampolines(place);
      CleanThrough(m0, m0, process.thread.bytes, created, Base(place), hi);
      ghost var m := process.thread.bytes;
      ok, todo := InstallAll(created, m0, hi);
      assert forall x :: x in m.Keys <==> x in m0 || Base(place) <= x < hi;
    }

    /** The tracepoints have been removed; those of failed could not be written back. */
    ghost predicate Undone(created: Tree, m0: Memory, failed: Tree, from: nat, lo: nat, hi: nat)
      reads this, process, process.thread
    {
      && tracepoints == map[] && trampolines == trampolinesSize == 0
      && Clean(m0, process.thread.bytes, failed, lo, hi) && Remade(failed, created)
      && process.Accounted(failed, from)
    }

    /** All the tracepoints are installed. */
    ghost predicate Installed(created: Tree, j0: Jumps, m0: Memory, place: Place, total: nat, from: nat)
      reads this, process, process.thread
    {
      && !place.Nowhere? && trampolines == Base(place) && trampolinesSize == total
      && tracepoints == Relocated(created, trampolines, created.Keys)
      && JumpsAre(j0, process.jumps, Family(tracepoints))
      && Clean(m0, process.thread.bytes, tracepoints, Base(place), Top(place, total))
      && InMemory(created, created.Keys, from)
    }

    lemma AllInstalled(created: Tree, j0: Jumps, m0: Memory, place: Place, from: nat)
      requires Installing(created, j0, {}) && WellFormed(created) && Originals(m0, created)
      requires Clean(m0, process.thread.bytes, created, Base(place), Top(place, trampolinesSize))
      requires !place.Nowhere? && trampolines == Base(place) && InMemory(created, created.Keys, from)
      ensures Installed(created, j0, m0, place, trampolinesSize, from)
    {
      Relocation(created, j0, {}, m0, Base(place), Top(place, trampolinesSize));
      AllDone(created, trampolines);
      assert created.Keys - {} == created.Keys;
    }

    /** Memory r is mapped where m is and in the room of the trampolines, or not in the room,
        if it has been given back. */
    ghost predicate RoomMapped(m: Memory, r: Memory, place: Place, size: nat, gone: bool) {
      forall x :: x in r <==> if Base(place) <= x < Top(place, size) then !gone else x in m
    }

    /** The second half of tracepoints_init. */
    method InstallCreated(place: Place, ghost m0: Memory)
      returns (ok: bool, freed: bool, ghost failed: Tree, ghost from: nat)
      requires process.thread.Valid() && process.GoodTemplates() && NonZero(process.jumps) && trampolines == 0
      requires Placeable(tracepoints, trampolinesSize, place, process.jumps)
      requires Originals(m0, tracepoints) && process.thread.bytes == m0
      modifies this`tracepoints, this`trampolines, this`trampolinesSize, this`stolen, process`jumps, process.thread
      ensures stolen == (old(stolen) || place.Stolen?) && old(process.thread.clock) <= from <= process.thread.clock
      ensures RoomMapped(m0, process.thread.bytes, place, old(trampolinesSize), !ok && freed && !stolen)
      ensures !ok ==> process.jumps == old(process.jumps)
      ensures !ok ==> Undone(old(tracepoints), m0, failed, from, Base(place), Top(place, old(trampolinesSize)))
      ensures ok ==>
                Installed(old(tracepoints), old(process.jumps), m0, place, old(trampolinesSize),
                          old(process.thread.clock))
    {
      ghost var created, j0, todo := tracepoints, process.jumps, tracepoints.Keys;
      ghost var lo, hi := Base(place), Top(place, trampolinesSize);
      failed := map[];
      ok, freed := false, false;
      if place.Nowhere? {
        NothingInstalled(created, j0);
      } else {
        ok, todo := MapAndInstall(place, created, m0, hi);
      }
      from := process.thread.clock;
      if ok {
        AllInstalled(created, j0, m0, place, old(process.thread.clock));
      } else {
        freed, failed := Rollback(created, m0, j0, todo, lo, hi);
      }
    }

    // ----- The operations on a segment, in a process whose table is consistent -----

    ghost predicate Listed()
      reads process`segments
    {
      start in process.segments && process.segments[start] == this
    }

    /** A place off the segment, the traced instructions and the other trampolines, in free
        or unused memory. */
    ghost predicate Available(place: Place, size: nat)
      reads process`recorded, process.thread`bytes
    {
      AvailableIn(place, size, process.thread.bytes, process.recorded)
    }

    ghost predicate AvailableIn(place: Place, size: nat, m: Memory, all: Tree) {
      var lo, hi := Base(place), Top(place, size);
      place.Nowhere? ||
      (lo > 0 && (hi <= start || end <= lo) && Avoids(all, lo, hi)
       && forall x: nat :: lo <= x < hi ==> if place.Stolen? then x in process.unused else x !in m)
    }

    /** A segment to install tracepoints in; place says where there is room for so many bytes
        of trampolines. */
    ghost predicate Startable(targets: seq<nat>, handlers: map<nat, nat>, place: nat -> Place)
      reads this, process, process.segments.Values, process.thread
    {
      && process.thread.Valid() && process.GoodTemplates() && process.Consistent() && Listed()
      && tracepoints == map[] && trampolines == 0
      && (forall t :: t in targets ==> start <= t < end)
      && process.Traceable(targets, handlers) && process.AboveOffsets(targets, handlers)
      && forall n :: Available(place(n), n)
    }

    lemma IsUntraced(trees: map<nat, Tree>, k: nat)
      requires process.Linked() && process.InRanges(trees) && Union(trees, process.recorded) && Spread(process.recorded)
      requires start in process.segments && process.segments[start].end == end
      requires start in trees && trees[start].Keys == {} && start <= k < end
      requires OffTrampolines(process.recorded, k - k % 2)
      ensures k !in process.recorded && Untraced(process.recorded, k - k % 2)
    {
      forall i | i in process.recorded
        ensures i != k && process.recorded[i].address != k - k % 2
      {
        assert InSome(trees, i) && Sound(i, process.recorded[i]);
        process.NotTraced(trees, start, i, k);
      }
    }

    lemma AreUntraced(targets: seq<nat>, handlers: map<nat, nat>, m: Memory, tps: Tree, trees: map<nat, Tree>)
      requires process.Known(m, tps, targets, handlers) && forall t :: t in targets ==> start <= t < end
      requires process.Linked() && process.InRanges(trees) && Union(trees, process.recorded) && Spread(process.recorded)
      requires start in process.segments && process.segments[start].end == end
      requires start in trees && trees[start].Keys == {}
      requires forall t :: t in targets ==> OffTrampolines(process.recorded, t - t % 2)
      ensures tps.Keys !! process.recorded.Keys && forall k :: k in tps ==> Untraced(process.recorded, tps[k].address)
    {
      hide *;
      forall k | k in tps
        ensures k !in process.recorded && Untraced(process.recorded, tps[k].address)
      {
        process.KnownAddress(m, tps, targets, handlers, k);
        IsUntraced(trees, k);
      }
    }

    lemma AreOutside(targets: seq<nat>, handlers: map<nat, nat>, m: Memory, tps: Tree, base: nat, total: nat)
      requires process.Known(m, tps, targets, handlers) && (base + total <= start || end <= base)
      requires start % 2 == 0 && forall t :: t in targets ==> start <= t < end
      ensures AddressesOutside(tps, base, total)
    {
      forall k | k in tps
        ensures start <= tps[k].address < end
      {
        process.KnownAddress(m, tps, targets, handlers, k);
      }
    }

    lemma IsUnused(tps: Tree, total: nat, place: Place, j: Jumps)
      requires Available(place, total) && Spread(process.recorded) && JumpsAre(map[], j, Family(process.recorded))
      requires (forall k :: k in tps ==> Untraced(process.recorded, tps[k].address))
      requires forall a :: a in j ==> a >= total
      ensures Unused(j, tps, Base(place), total)
    {
      if place.Nowhere? {
        PlaceIsUnused(j, process.recorded, tps, 0, 0);
      } else {
        PlaceIsUnused(j, process.recorded, tps, Base(place), total);
      }
    }

    /** The tracepoints created can go to the place. */
    lemma Locate(targets: seq<nat>, handlers: map<nat, nat>, made: seq<Option<Tracepoint>>, place: Place,
                 trees: map<nat, Tree>)
      requires process.Prepared(process.thread.bytes, tracepoints, trampolinesSize, targets, handlers, made)
      requires |made| == |targets| && process.Traceable(targets, handlers) && process.AboveOffsets(targets, handlers)
      requires process.Linked() && process.InRanges(trees) && Table(trees, process.recorded, process.jumps) && Listed()
      requires start in trees && trees[start].Keys == {} && forall t :: t in targets ==> start <= t < end
      requires Available(place, trampolinesSize)
      ensures process.Known(process.thread.bytes, tracepoints, targets, handlers)
      ensures Originals(process.thread.bytes, tracepoints) && NonZero(process.jumps)
      ensures Placeable(tracepoints, trampolinesSize, place, process.jumps)
      ensures tracepoints.Keys !! process.recorded.Keys
      ensures forall k :: k in tracepoints ==>
                Untraced(process.recorded, tracepoints[k].address) && tracepoints[k].address == k - k % 2
    {
      assert targets[..|made|] == targets;
      process.KnownTree(process.thread.bytes, tracepoints, targets, handlers);
      AreUntraced(targets, handlers, process.thread.bytes, tracepoints, trees);
      IsUnused(tracepoints, trampolinesSize, place, process.jumps);
      if !place.Nowhere? {
        AreOutside(targets, handlers, process.thread.bytes, tracepoints, Base(place), trampolinesSize);
      }
      TableIsExact(process.jumps, process.recorded);
    }

    /** The new tracepoints have a place of their own. */
    lemma StaySpread(created: Tree, base: nat, total: nat)
      requires WellFormed(created) && Layout(created, 0, total) && AddressesOutside(created, base, total) && base > 0
      requires forall k :: k in created ==> NoReturnToZero(created[k]) && created[k].address == k - k % 2
      requires forall k :: k in created ==> Untraced(process.recorded, created[k].address)
      ensures var tps := Relocated(created, base, created.Keys);
              Spread(tps) && forall k :: k in tps ==>
                  Inside(tps[k], base, total) && Untraced(process.recorded, tps[k].address)
    {
      SpreadLayout(created, base, total);
    }

    lemma PlaceableFacts(tps: Tree, total: nat, place: Place, j0: Jumps)
      requires Placeable(tps, total, place, j0)
      ensures WellFormed(tps) && Layout(tps, 0, total) && (forall k :: k in tps ==> NoReturnToZero(tps[k]))
      ensures place.Nowhere? || (Base(place) > 0 && AddressesOutside(tps, Base(place), total))
    {
    }

    /** The table with the new tracepoints. */
    lemma NewTable(trees: map<nat, Tree>, trees': map<nat, Tree>, j0: Jumps, created: Tree, place: Place, total: nat,
                   tps: Tree)
      requires Table(trees, process.recorded, j0) && Replaced(trees, trees', start, tps)
      requires trees[start].Keys == {} && created.Keys !! process.recorded.Keys
      requires forall k :: k in created ==>
                Untraced(process.recorded, created[k].address) && created[k].address == k - k % 2
      requires Placeable(created, total, place, j0) && !place.Nowhere?
      requires Avoids(process.recorded, Base(place), Base(place) + total)
      requires tps == Relocated(created, Base(place), created.Keys) && JumpsAre(j0, process.jumps, Family(tps))
      ensures Table(trees', process.recorded + tps, process.jumps)
    {
      hide *;
      PlaceableFacts(created, total, place, j0);
      RelocatedKeys(created, Base(place));
      StaySpread(created, Base(place), total);
      TableAdds(trees, trees', process.recorded, j0, process.jumps, start, tps, Base(place), total);
    }

    /** The room of the trampolines is free, or stolen from unused memory. */
    ghost predicate FreeRoom(m0: Memory, lo: nat, hi: nat)
      reads this`stolen
    {
      forall x: nat :: lo <= x < hi && x in m0 ==> stolen && x in process.unused
    }

    /** The segment's tracepoints in memory that was m0 before. */
    ghost predicate Placed(m0: Memory, from: nat)
      reads this, process.thread
    {
      var hi := trampolines + AlignToPage(trampolinesSize);
      && trampolines > 0 && FreeRoom(m0, trampolines, hi)
      && Clean(m0, process.thread.bytes, tracepoints, trampolines, hi)
      && (SpansApart(tracepoints) && SpansOutside(tracepoints, trampolines, trampolines + trampolinesSize) ==>
            process.AllWired(process.thread.bytes, tracepoints, process.thread.dead, from, process.thread.clock))
    }

    lemma AllInMemory(created: Tree, from: nat)
      requires InMemory(created, created.Keys, from) && tracepoints == Relocated(created, trampolines, created.Keys)
      requires SpansApart(tracepoints) && SpansOutside(tracepoints, trampolines, trampolines + trampolinesSize)
      ensures process.AllWired(process.thread.bytes, tracepoints, process.thread.dead, from, process.thread.clock)
    {
      SameSpans(created, trampolines, trampolines, trampolines + trampolinesSize);
      AllDone(created, trampolines);
    }

    lemma InstalledIsPlaced(created: Tree, j0: Jumps, m0: Memory, place: Place, total: nat, from: nat)
      requires Installed(created, j0, m0, place, total, from) && Base(place) > 0
      requires FreeRoom(m0, Base(place), Top(place, total))
      ensures Placed(m0, from) && Remade(tracepoints, created)
    {
      if SpansApart(tracepoints) && SpansOutside(tracepoints, trampolines, trampolines + trampolinesSize) {
        AllInMemory(created, from);
      }
    }

    /** Is the room at the place free, or memory that nobody has access to? */
    ghost predicate Spare(place: Place, size: nat, m: Memory) {
      forall x: nat :: Base(place) <= x < Top(place, size) && x in m ==> place.Stolen? && x in process.unused
    }

    ghost predicate TrampolinesInside()
      reads this
    {
      forall k :: k in tracepoints ==> Inside(tracepoints[k], trampolines, trampolinesSize)
    }

    /** What an installation with so many bytes of trampolines at the place makes of memory
        m0: only the instructions of the tracepoints and the trampolines' room change, and the
        room is mapped unless it has been given back.  Stealing is never forgotten. */
    ghost predicate Housed(m0: Memory, place: Place, size: nat, tps: Tree, freed: bool, stolen0: bool)
      reads this`stolen, process.thread`bytes
    {
      && Clean(m0, process.thread.bytes, tps, Base(place), Top(place, size))
      && RoomMapped(m0, process.thread.bytes, place, size, freed && !stolen)
      && stolen == (stolen0 || place.Stolen?)
    }

    /** The second half of tracepoints_init, and the memory it leaves. */
    method InstallCreatedAt(place: Place, ghost m0: Memory)
      returns (ok: bool, freed: bool, ghost failed: Tree, ghost from: nat)
      requires process.thread.Valid() && process.GoodTemplates() && NonZero(process.jumps) && trampolines == 0
      requires Placeable(tracepoints, trampolinesSize, place, process.jumps) && Spare(place, trampolinesSize, m0)
      requires Originals(m0, tracepoints) && process.thread.bytes == m0
      modifies this`tracepoints, this`trampolines, this`trampolinesSize, this`stolen, process`jumps, process.thread
      ensures old(process.thread.clock) <= from <= process.thread.clock
      ensures Housed(m0, place, old(trampolinesSize), if ok then tracepoints else failed, !ok && freed, old(stolen))
      ensures forall x :: x in m0 ==> x in process.thread.bytes
      ensures Remade(if ok then tracepoints else failed, old(tracepoints))
      ensures !ok ==> tracepoints == map[] && trampolines == 0 && process.jumps == old(process.jumps)
      ensures !ok ==> process.Restored(m0, process.thread.bytes, failed)
      ensures !ok ==> process.Accounted(failed, from)
      ensures ok ==> tracepoints == Relocated(old(tracepoints), Base(place), old(tracepoints).Keys)
      ensures ok ==> !place.Nowhere? && JumpsAre(old(process.jumps), process.jumps, Family(tracepoints))
      ensures ok ==> Placed(m0, old(process.thread.clock)) && trampolines == Base(place)
      ensures ok ==> trampolinesSize == old(trampolinesSize)
    {
      ghost var created, j0, total := tracepoints, process.jumps, trampolinesSize;
      ok, freed, failed, from := InstallCreated(place, m0);
      if ok {
        InstalledIsPlaced(created, j0, m0, place, total, old(process.thread.clock));
      } else {
        process.CleanIsRestored(m0, process.thread.bytes, failed, Base(place), Top(place, total));
      }
    }

    /** Whatever the trees are, when the segment's is in place. */
    lemma NewTables(trees: map<nat, Tree>, j0: Jumps, created: Tree, place: Place, total: nat, tps: Tree)
      requires Table(trees, process.recorded, j0) && start in trees
      requires trees[start].Keys == {} && created.Keys !! process.recorded.Keys
      requires forall k :: k in created ==>
                Untraced(process.recorded, created[k].address) && created[k].address == k - k % 2
      requires Placeable(created, total, place, j0) && !place.Nowhere?
      requires Avoids(process.recorded, Base(place), Base(place) + total)
      requires tps == Relocated(created, Base(place), created.Keys) && JumpsAre(j0, process.jumps, Family(tps))
      ensures forall trees' :: Replaced(trees, trees', start, tps) ==>
                Table(trees', process.recorded + tps, process.jumps)
    {
      forall trees' | Replaced(trees, trees', start, tps)
        ensures Table(trees', process.recorded + tps, process.jumps)
      {
        NewTable(trees, trees', j0, created, place, total, tps);
      }
    }

    lemma SameTables(trees: map<nat, Tree>)
      requires Table(trees, process.recorded, process.jumps) && start in trees && trees[start] == map[]
      ensures forall trees' :: Replaced(trees, trees', start, map[]) ==> Table(trees', process.recorded, process.jumps)
    {
      forall trees' | Replaced(trees, trees', start, map[])
        ensures trees' == trees
      {
      }
    }

    /** The same, and the table of the process. */
    method InstallInTable(place: Place, ghost m0: Memory, ghost trees: map<nat, Tree>)
      returns (ok: bool, freed: bool, ghost failed: Tree, ghost from: nat)
      requires process.thread.Valid() && process.GoodTemplates() && NonZero(process.jumps) && trampolines == 0
      requires Placeable(tracepoints, trampolinesSize, place, process.jumps) && Spare(place, trampolinesSize, m0)
      requires Originals(m0, tracepoints) && process.thread.bytes == m0
      requires Table(trees, process.recorded, process.jumps) && start in trees && trees[start] == map[]
      requires tracepoints.Keys !! process.recorded.Keys
      requires forall k :: k in tracepoints ==>
                 Untraced(process.recorded, tracepoints[k].address) && tracepoints[k].address == k - k % 2
      requires place.Nowhere? || Avoids(process.recorded, Base(place), Base(place) + trampolinesSize)
      modifies this`tracepoints, this`trampolines, this`trampolinesSize, this`stolen, process`jumps, process.thread
      ensures old(process.thread.clock) <= from <= process.thread.clock
      ensures Housed(m0, place, old(trampolinesSize), if ok then tracepoints else failed, !ok && freed, old(stolen))
      ensures forall x :: x in m0 ==> x in process.thread.bytes
      ensures Remade(if ok then tracepoints else failed, old(tracepoints))
      ensures !ok ==> tracepoints == map[] && trampolines == 0 && process.jumps == old(process.jumps)
      ensures !ok ==> process.Restored(m0, process.thread.bytes, failed)
      ensures !ok ==> process.Accounted(failed, from)
      ensures ok ==> tracepoints.Keys == old(tracepoints.Keys) && Placed(m0, old(process.thread.clock))
      ensures ok ==> !place.Nowhere? && trampolines == Base(place) && trampolinesSize == old(trampolinesSize)
      ensures ok ==> TrampolinesInside()
      ensures ok ==> forall trees' :: Replaced(trees, trees', start, tracepoints) ==>
                Table(trees', process.recorded + tracepoints, process.jumps)
    {
      hide *;
      ghost var created, j0, total := tracepoints, process.jumps, trampolinesSize;
      ok, freed, failed, from := InstallCreatedAt(place, m0);
      if ok {
        NewTables(trees, j0, created, place, total, tracepoints);
        RelocatedKeys(created, Base(place));
        PlaceableFacts(created, total, place, j0);
        AllInside(created);
      }
    }

    lemma AllInside(created: Tree)
      requires tracepoints == Relocated(created, trampolines, created.Keys) && Layout(created, 0, trampolinesSize)
      ensures TrampolinesInside()
    {
      forall k | k in tracepoints
        ensures Inside(tracepoints[k], trampolines, trampolinesSize)
      {
        assert Inside(created[k], 0, trampolinesSize);
      }
    }

    /** The trees of the process, when this segment's has changed. */
    lemma TreesNow(trees: map<nat, Tree>)
      requires Listed() && trees.Keys == process.segments.Keys
      requires forall a :: a in process.segments && a != start ==> process.segments[a].tracepoints == trees[a]
      ensures Replaced(trees, process.Trees(), start, tracepoints)
    {
    }

    /** tracepoints_init without the record that the process keeps. */
    method InitUnrecorded(targets: seq<nat>, handlers: map<nat, nat>, place: nat -> Place, ghost trees: map<nat, Tree>)
      returns (ok: bool, freed: bool, ghost failed: Tree, ghost from: nat, ghost size: nat)
      requires process.thread.Valid() && process.GoodTemplates() && tracepoints == map[] && trampolines == 0
      requires process.Linked() && process.InRanges(trees) && Table(trees, process.recorded, process.jumps) && Listed()
      requires start in trees && trees[start] == map[] && forall t :: t in targets ==> start <= t < end
      requires process.Traceable(targets, handlers) && process.AboveOffsets(targets, handlers)
      requires forall n :: Available(place(n), n)
      modifies this`tracepoints, this`trampolines, this`trampolinesSize, this`stolen, process`jumps, process.thread
      ensures old(process.thread.clock) <= from <= process.thread.clock
      ensures size > 0 ==> Housed(old(process.thread.bytes), place(size), size, if ok then tracepoints else failed,
                                  !ok && freed, old(stolen))
      ensures size == 0 ==> !ok && process.thread.bytes == old(process.thread.bytes) && stolen == old(stolen)
      ensures forall x :: x in old(process.thread.bytes) ==> x in process.thread.bytes
      ensures ok ==> !place(size).Nowhere? && trampolines == Base(place(size)) && trampolinesSize == size
      ensures ok ==> TrampolinesInside()
      ensures process.Known(old(process.thread.bytes), if ok then tracepoints else failed, targets, handlers)
      ensures !ok ==> tracepoints == map[] && trampolines == 0 && process.jumps == old(process.jumps)
      ensures !ok ==> process.Restored(old(process.thread.bytes), process.thread.bytes, failed)
      ensures !ok ==> process.Accounted(failed, from)
      ensures ok ==> tracepoints != map[] && Placed(old(process.thread.bytes), old(process.thread.clock))
      ensures (if ok then tracepoints else failed).Keys !! process.recorded.Keys
      ensures ok ==> forall trees' :: Replaced(trees, trees', start, tracepoints) ==>
                Table(trees', process.recorded + tracepoints, process.jumps)
    {
      hide *;
      ghost var m0 := process.thread.bytes;
      TraceableFacts(targets, handlers);
      ghost var made := CreateTracepoints(targets, handlers);
      if tracepoints == map[] {
        ok, freed, failed, from, size := false, false, map[], process.thread.clock, 0;
        NothingFailed(m0, targets, handlers);
        return;
      }
      ghost var created := tracepoints;
      size := trampolinesSize;
      PreparedSize(m0, targets, handlers, made);
      var p := place(trampolinesSize);
      Locate(targets, handlers, made, p, trees);
      AvailableFacts(p, trampolinesSize);
      ok, freed, failed, from := InstallInTable(p, m0, trees);
      RemadeKeys(if ok then tracepoints else failed, created, process.recorded);
      process.RemadeIsKnown(m0, if ok then tracepoints else failed, created, targets, handlers);
    }

    lemma RemadeKeys(tps: Tree, created: Tree, all: Tree)
      requires Remade(tps, created) && created.Keys !! all.Keys
      ensures tps.Keys !! all.Keys
    {
    }

    lemma PreparedSize(m: Memory, targets: seq<nat>, handlers: map<nat, nat>, made: seq<Option<Tracepoint>>)
      requires process.Prepared(m, tracepoints, trampolinesSize, targets, handlers, made) && tracepoints != map[]
      ensures trampolinesSize > 0
    {
      var k :| k in tracepoints;
      assert Inside(tracepoints[k], 0, trampolinesSize) && GoodTemplate(tracepoints[k].template);
    }

    lemma TraceableFacts(targets: seq<nat>, handlers: map<nat, nat>)
      requires process.Traceable(targets, handlers)
      ensures Distinct(targets)
      ensures forall t :: t in targets ==> t in handlers && Aligned(t - t % 2, process.AddressKind(t))
    {
    }

    lemma NothingFailed(m: Memory, targets: seq<nat>, handlers: map<nat, nat>)
      ensures process.Known(m, map[], targets, handlers) && process.Restored(m, m, map[])
      ensures process.Accounted(map[], process.thread.clock)
    {
      process.NothingPending(process.thread.dead, process.thread.bytes.Keys,
                             process.thread.clock, process.thread.clock, map[]);
    }

    lemma AvailableFacts(place: Place, size: nat)
      requires Available(place, size)
      ensures place.Nowhere? || Avoids(process.recorded, Base(place), Base(place) + size)
      ensures Spare(place, size, process.thread.bytes)
    {
    }

    lemma ListedFacts()
      requires process.Consistent() && Listed()
      ensures process.Linked() && process.InRanges(process.Trees())
      ensures Table(process.Trees(), process.recorded, process.jumps) && process.Trees().Keys == process.segments.Keys
      ensures start in process.Trees() && process.Trees()[start] == tracepoints
      ensures forall a :: a in process.segments ==> process.segments[a].tracepoints == process.Trees()[a]
    {
    }

    lemma StartFacts(targets: seq<nat>, handlers: map<nat, nat>, place: nat -> Place)
      requires Startable(targets, handlers, place)
      ensures process.thread.Valid() && process.GoodTemplates() && tracepoints == map[] && trampolines == 0
      ensures process.Consistent() && Listed() && forall t :: t in targets ==> start <= t < end
      ensures process.Traceable(targets, handlers) && process.AboveOffsets(targets, handlers)
      ensures forall n :: Available(place(n), n)
    {
    }

    /** The table of the process is consistent again. */
    lemma StillConsistent(trees: map<nat, Tree>)
      requires process.Linked() && process.InRanges(trees) && Listed()
      requires Replaced(trees, process.Trees(), start, tracepoints)
      requires (forall k :: k in tracepoints ==> start <= k < end)
      requires Table(process.Trees(), process.recorded, process.jumps)
      ensures process.Consistent()
    {
      hide Table;
      StillInRanges(trees, process.Trees());
    }

    lemma StillInRanges(trees: map<nat, Tree>, trees': map<nat, Tree>)
      requires process.InRanges(trees) && Listed() && Replaced(trees, trees', start, tracepoints)
      requires forall k :: k in tracepoints ==> start <= k < end
      ensures process.InRanges(trees')
    {
    }

    lemma KnownInSegment(m: Memory, tps: Tree, targets: seq<nat>, handlers: map<nat, nat>)
      requires process.Known(m, tps, targets, handlers) && forall t :: t in targets ==> start <= t < end
      ensures forall k :: k in tps ==> start <= k < end
    {
    }

    // ----- Init and the tracepoints of other segments -----

    lemma HousingWith(m: Memory, r: Memory, trees: map<nat, Tree>, trees': map<nat, Tree>, rooms: map<nat, Room>,
                      rooms': map<nat, Room>, tps: Tree, room: Room)
      requires process.Housing(m, trees, rooms) && Replaced(trees, trees', start, tps) && start in rooms
      requires rooms' == rooms[start := room] && forall k :: k in tps ==> process.InTheRoom(tps[k], room)
      requires (forall x :: x in m ==> x in r) && forall x: nat :: InRoom(room, x) ==> x in r
      requires forall b, x: nat :: b in rooms && b != start && InRoom(room, x) ==> !InRoom(rooms[b], x)
      ensures process.Housing(r, trees', rooms')
    {
      assert forall b :: b in rooms && b != start ==> b in rooms' && rooms'[b] == rooms[b];
      forall a, k | a in trees' && k in trees'[a]
        ensures a in rooms' && process.InTheRoom(trees'[a][k], rooms'[a])
      {
        assert a in trees && (a != start ==> trees[a] == trees'[a]);
      }
    }

    lemma OtherRooms(all: Tree, touched: Tree, rooms: map<nat, Room>, room: Room)
      requires Untangled(all + touched, rooms[start := room])
      ensures Untangled(all + touched, rooms - {start})
    {
      assert forall a :: a in rooms - {start} ==> a in rooms[start := room] && rooms[start := room][a] == rooms[a];
    }

    /** The new room is off the old ones: nothing was mapped there, or stolen memory was chosen
        so. */
    lemma NewRoomIsOff(m0: Memory, all: Tree, trees: map<nat, Tree>, rooms: map<nat, Room>, lo: nat, hi: nat)
      requires process.Housing(m0, trees, rooms)
      requires OffRooms(all, rooms, lo, hi) || forall x: nat :: lo <= x < hi ==> x !in m0
      ensures OffRooms(all, rooms - {start}, lo, hi) || forall x: nat :: lo <= x < hi ==> x !in m0
      ensures forall b, x: nat :: b in rooms && lo <= x < hi ==> !InRoom(rooms[b], x)
    {
      forall b, x: nat | b in rooms && InRoom(rooms[b], x)
        ensures !(lo <= x < hi)
      {
        assert x in m0;
      }
      if OffRooms(all, rooms, lo, hi) {
        assert forall a :: a in rooms - {start} ==> a in rooms && (rooms - {start})[a] == rooms[a];
      }
    }

    /** The room of the segment now: that of the trampolines, or none. */
    ghost predicate RoomIs(room: Room, place: Place, size: nat, ok: bool) {
      room == if ok then Room(Base(place), Top(place, size)) else Room(0, 0)
    }

    lemma InstallationSettlesOne(m0: Memory, live: set<nat>, all: Tree, trees: map<nat, Tree>, rooms: map<nat, Room>,
                                 touched: Tree, place: Place, size: nat, ok: bool, gone: bool, room: Room)
      requires process.GoodTemplates() && process.SettledIn(m0, live, all, trees, rooms) && Union(trees, all)
      requires start in trees && trees[start] == map[] && start in rooms && touched.Keys !! all.Keys
      requires Replaced(trees, process.Trees(), start, tracepoints) && process.Rooms() == rooms[start := room]
      requires RoomIs(room, place, size, ok) && (ok ==> !gone) && (!ok ==> tracepoints == map[])
      requires forall k :: k in tracepoints ==> process.InTheRoom(tracepoints[k], room)
      requires Untangled(all + touched, process.Rooms()) && process.recorded == all + tracepoints
      requires tracepoints.Keys !! all.Keys
      requires Clean(m0, process.thread.bytes, touched, Base(place), Top(place, size))
      requires RoomMapped(m0, process.thread.bytes, place, size, gone)
      requires forall x :: x in m0 ==> x in process.thread.bytes
      requires OffRooms(all, rooms, Base(place), Top(place, size))
               || forall x: nat :: Base(place) <= x < Top(place, size) ==> x !in m0
      ensures process.Settled(live)
    {
      hide *;
      var lo, hi := Base(place), Top(place, size);
      process.SettledParts(m0, live, all, trees, rooms);
      NewRoomIsOff(m0, all, trees, rooms, lo, hi);
      NewRoomFacts(m0, place, size, ok, gone, room, rooms);
      HousingWith(m0, process.thread.bytes, trees, process.Trees(), rooms, process.Rooms(), tracepoints, room);
      OtherRooms(all, touched, rooms, room);
      SelfFacts(all, trees);
      process.OthersStayLive(m0, process.thread.bytes, live, all, trees, rooms, start, all, touched, lo, hi);
      process.IsSettled(live);
    }

    lemma NewRoomFacts(m0: Memory, place: Place, size: nat, ok: bool, gone: bool, room: Room, rooms: map<nat, Room>)
      requires RoomIs(room, place, size, ok) && (ok ==> !gone)
      requires RoomMapped(m0, process.thread.bytes, place, size, gone)
      requires forall b, x: nat :: b in rooms && Base(place) <= x < Top(place, size) ==> !InRoom(rooms[b], x)
      ensures forall x: nat :: InRoom(room, x) ==> x in process.thread.bytes
      ensures forall b, x: nat :: b in rooms && b != start && InRoom(room, x) ==> !InRoom(rooms[b], x)
    {
    }

    lemma SelfFacts(all: Tree, trees: map<nat, Tree>)
      requires start in trees && trees[start] == map[]
      ensures SubTree(all, all) && trees[start].Keys !! all.Keys
    {
    }

    /** The new tracepoints are in memory, too, if no request failed. */
    lemma NewAreLive(m0: Memory, from: nat, targets: seq<nat>, handlers: map<nat, nat>, all: Tree,
                     rooms: map<nat, Room>)
      requires Placed(m0, from) && process.Known(m0, tracepoints, targets, handlers) && !process.thread.dead
      requires process.Smooth(m0, targets, from) && forall x :: x in m0 ==> x in process.thread.bytes
      requires Untangled(all + tracepoints, rooms) && start in rooms && rooms[start] == Room(trampolines, UpperEnd())
      ensures forall k :: k in tracepoints ==> process.Live(process.thread.bytes, tracepoints[k])
    {
      hide *;
      PartsUntangled(all, rooms);
      PlacedIsWired(m0, from);
      var m, dead, to := process.thread.bytes, process.thread.dead, process.thread.clock;
      var why := process.WiredReasons(m, tracepoints, dead, from, to);
      forall k | k in tracepoints
        ensures process.Live(m, tracepoints[k])
      {
        process.KnownAddress(m0, tracepoints, targets, handlers, k);
        process.SmoothIsLive(m0, m, targets, tracepoints[k], from, to, why, k);
      }
    }

    lemma PartsUntangled(all: Tree, rooms: map<nat, Room>)
      requires Untangled(all + tracepoints, rooms) && start in rooms && rooms[start] == Room(trampolines, UpperEnd())
      ensures SpansApart(tracepoints)
      ensures trampolines > 0 ==> SpansOutside(tracepoints, trampolines, trampolines + trampolinesSize)
    {
      var sum := all + tracepoints;
      assert forall k :: k in tracepoints ==> k in sum && sum[k] == tracepoints[k];
      forall i, k, x: nat | i in tracepoints && k in tracepoints && i != k && InSpan(tracepoints[i], x)
        ensures !InSpan(tracepoints[k], x)
      {
        assert sum[i] == tracepoints[i] && sum[k] == tracepoints[k];
      }
      forall k, x: nat | k in tracepoints && InSpan(tracepoints[k], x)
        ensures !InRoom(rooms[start], x)
      {
        assert sum[k] == tracepoints[k];
      }
    }

    lemma PlacedIsWired(m0: Memory, from: nat)
      requires Placed(m0, from)
      requires SpansApart(tracepoints)
      requires trampolines > 0 ==> SpansOutside(tracepoints, trampolines, trampolines + trampolinesSize)
      ensures process.AllWired(process.thread.bytes, tracepoints, process.thread.dead, from, process.thread.clock)
    {
    }

    /** What is mapped at the place is stolen. */
    lemma SpareAt(place: nat -> Place)
      requires forall n :: Available(place(n), n)
      ensures forall n :: Spare(place(n), n, process.thread.bytes)
    {
      forall n
        ensures Spare(place(n), n, process.thread.bytes)
      {
        assert Available(place(n), n);
      }
    }

    lemma RoomNow(m0: Memory, from: nat, place: Place, size: nat, ok: bool)
      requires ok ==> !place.Nowhere? && trampolines == Base(place) && trampolinesSize == size && TrampolinesInside()
      requires ok ==> Placed(m0, from)
      requires !ok ==> trampolines == 0 && tracepoints == map[]
      ensures RoomIs(Room(trampolines, UpperEnd()), place, size, ok)
      ensures forall k :: k in tracepoints ==> process.InTheRoom(tracepoints[k], Room(trampolines, UpperEnd()))
    {
      forall k | k in tracepoints
        ensures process.InTheRoom(tracepoints[k], Room(trampolines, UpperEnd()))
      {
        assert Inside(tracepoints[k], trampolines, trampolinesSize);
      }
    }

    /** The room of trampolines of the size at the place; without trampolines there is none. */
    function HouseAt(place: Place, size: nat): Place { if size == 0 then Nowhere else place }

    lemma HousedOrNot(m0: Memory, place: Place, size: nat, tps: Tree, ok: bool, freed: bool, stolen0: bool,
                      rooms: map<nat, Room>, all: Tree, room: Room)
      requires size > 0 ==> Housed(m0, place, size, tps, freed, stolen0)
      requires size == 0 ==> process.thread.bytes == m0 && !ok
      requires Spare(place, size, m0)
      requires size > 0 && place.Stolen? ==> OffRooms(all, rooms, Base(place), Top(place, size))
      requires RoomIs(room, place, size, ok)
      ensures var place' := HouseAt(place, size);
              && Clean(m0, process.thread.bytes, tps, Base(place'), Top(place', size))
              && RoomMapped(m0, process.thread.bytes, place', size, freed && !stolen)
              && RoomIs(room, place', size, ok)
              && (OffRooms(all, rooms, Base(place'), Top(place', size))
                  || forall x: nat :: Base(place') <= x < Top(place', size) ==> x !in m0)
    {
    }

    /** The other segments' tracepoints stay in memory. */
    lemma AfterInstallation(m0: Memory, all: Tree, trees: map<nat, Tree>, rooms: map<nat, Room>, tps: Tree,
                            place: Place, size: nat, ok: bool, freed: bool, stolen0: bool)
      requires process.GoodTemplates() && Union(trees, all) && tps.Keys !! all.Keys
      requires (if ok then tps else map[]) == tracepoints && (ok ==> !freed)
      requires start in trees && trees[start] == map[] && start in rooms
      requires Replaced(trees, process.Trees(), start, tracepoints)
      requires process.Rooms() == rooms[start := Room(trampolines, UpperEnd())]
      requires RoomIs(Room(trampolines, UpperEnd()), place, size, ok)
      requires forall k :: k in tracepoints ==> process.InTheRoom(tracepoints[k], Room(trampolines, UpperEnd()))
      requires Untangled(all + tps, process.Rooms()) && process.recorded == all + tracepoints
      requires size > 0 ==> Housed(m0, place, size, tps, freed, stolen0)
      requires size == 0 ==> process.thread.bytes == m0 && !ok
      requires forall x :: x in m0 ==> x in process.thread.bytes
      requires Spare(place, size, m0)
      requires size > 0 && place.Stolen? ==> OffRooms(all, rooms, Base(place), Top(place, size))
      ensures forall live :: process.SettledIn(m0, live, all, trees, rooms) ==> process.Settled(live)
    {
      hide *;
      HousedOrNot(m0, place, size, tps, ok, freed, stolen0, rooms, all, Room(trampolines, UpperEnd()));
      forall live | process.SettledIn(m0, live, all, trees, rooms)
        ensures process.Settled(live)
      {
        InstallationSettlesOne(m0, live, all, trees, rooms, tps, HouseAt(place, size), size, ok, freed && !stolen,
                               Room(trampolines, UpperEnd()));
      }
    }

    /** tracepoints_init, without what it means for the tracepoints of other segments. */
    method InitRecorded(targets: seq<nat>, handlers: map<nat, nat>, place: nat -> Place)
      returns (ok: bool, freed: bool, ghost failed: Tree, ghost from: nat, ghost size: nat)
      requires Startable(targets, handlers, place)
      modifies this`tracepoints, this`trampolines, this`trampolinesSize, this`stolen
      modifies process`jumps, process`recorded, process.thread
      ensures process.Consistent() && process.recorded == old(process.recorded) + tracepoints
      ensures old(process.thread.clock) <= from <= process.thread.clock
      ensures size > 0 ==> Housed(old(process.thread.bytes), place(size), size, if ok then tracepoints else failed,
                                  !ok && freed, old(stolen))
      ensures size == 0 ==> !ok && process.thread.bytes == old(process.thread.bytes) && stolen == old(stolen)
      ensures forall x :: x in old(process.thread.bytes) ==> x in process.thread.bytes
      ensures ok ==> !place(size).Nowhere? && trampolines == Base(place(size)) && trampolinesSize == size
      ensures ok ==> TrampolinesInside()
      ensures process.Known(old(process.thread.bytes), if ok then tracepoints else failed, targets, handlers)
      ensures !ok ==> tracepoints == map[] && trampolines == 0 && process.jumps == old(process.jumps)
      ensures !ok ==> process.Restored(old(process.thread.bytes), process.thread.bytes, failed)
      ensures !ok ==> process.Accounted(failed, from)
      ensures (if ok then tracepoints else failed).Keys !! old(process.recorded).Keys
      ensures ok ==> tracepoints != map[] && Placed(old(process.thread.bytes), old(process.thread.clock))
    {
      hide *;
      StartFacts(targets, handlers, place);
      ListedFacts();
      ghost var m0, all, trees := process.thread.bytes, process.recorded, process.Trees();
      SameTables(trees);
      ok, freed, failed, from, size := InitUnrecorded(targets, handlers, place, trees);
      process.recorded := process.recorded + tracepoints;
      TreesNow(trees);
      if ok {
        KnownInSegment(m0, tracepoints, targets, handlers);
      } else {
        assert all + map[] == all;
      }
      StillConsistent(trees);
    }

    /** tracepoints_init for a segment without tracepoints.  If it is rolled back, the
        tracepoints of failed could not be written back, since the request from; freed tells
        whether trampolines were freed.  They are of the given size, which is 0 if no
        tracepoint was created.
        Tracepoints of other segments stay in memory if instructions overlap neither each other
        nor rooms of trampolines (and stolen memory is off both); so do the new ones, if no
        request fails. */
    method Init(targets: seq<nat>, handlers: map<nat, nat>, place: nat -> Place)
      returns (ok: bool, freed: bool, ghost failed: Tree, ghost from: nat, ghost size: nat)
      requires Startable(targets, handlers, place)
      modifies this`tracepoints, this`trampolines, this`trampolinesSize, this`stolen
      modifies process`jumps, process`recorded, process.thread
      ensures process.Consistent() && process.recorded == old(process.recorded) + tracepoints
      ensures old(process.thread.clock) <= from <= process.thread.clock
      ensures size > 0 ==> Housed(old(process.thread.bytes), place(size), size, if ok then tracepoints else failed,
                                  !ok && freed, old(stolen))
      ensures size == 0 ==> !ok && process.thread.bytes == old(process.thread.bytes) && stolen == old(stolen)
      ensures forall x :: x in old(process.thread.bytes) ==> x in process.thread.bytes
      ensures ok ==> !place(size).Nowhere? && trampolines == Base(place(size)) && trampolinesSize == size
      ensures ok ==> TrampolinesInside()
      ensures process.Known(old(process.thread.bytes), if ok then tracepoints else failed, targets, handlers)
      ensures !ok ==> tracepoints == map[] && trampolines == 0 && process.jumps == old(process.jumps)
      ensures !ok ==> process.Restored(old(process.thread.bytes), process.thread.bytes, failed)
      ensures !ok ==> process.Accounted(failed, from)
      ensures (if ok then tracepoints else failed).Keys !! old(process.recorded).Keys
      ensures ok ==> tracepoints != map[] && Placed(old(process.thread.bytes), old(process.thread.clock))
      ensures Untangled(old(process.recorded) + (if ok then tracepoints else failed), process.Rooms())
              && (size > 0 && place(size).Stolen? ==>
                    OffRooms(old(process.recorded), old(process.Rooms()), Base(place(size)), Top(place(size), size)))
              ==> forall live :: old(process.Settled(live)) ==> process.Settled(live)
      ensures ok && Untangled(process.recorded, process.Rooms()) && !process.thread.dead
              && process.Smooth(old(process.thread.bytes), targets, old(process.thread.clock))
              ==> forall k :: k in tracepoints ==> process.Live(process.thread.bytes, tracepoints[k])
    {
      hide *;
      StartFacts(targets, handlers, place);
      ListedFacts();
      RoomFacts();
      TableParts(process.Trees(), process.recorded, process.jumps);
      process.SettledMeans();
      SpareAt(place);
      ghost var m0, all, trees := process.thread.bytes, process.recorded, process.Trees();
      ghost var rooms, c0 := process.Rooms(), process.thread.clock;
      ok, freed, failed, from, size := InitRecorded(targets, handlers, place);
      ghost var tps := if ok then tracepoints else failed;
      TreesNow(trees);
      RoomsNow(rooms);
      RoomNow(m0, c0, place(size), size, ok);
      ghost var apart := Untangled(all + tps, process.Rooms());
      if apart && (size > 0 && place(size).Stolen? ==>
                     OffRooms(all, rooms, Base(place(size)), Top(place(size), size))) {
        AfterInstallation(m0, all, trees, rooms, tps, place(size), size, ok, !ok && freed, old(stolen));
      }
      if ok && apart && !process.thread.dead && process.Smooth(m0, targets, c0) {
        NewAreLive(m0, c0, targets, handlers, all, process.Rooms());
      }
    }

    lemma RemovalFacts(trees: map<nat, Tree>)
      requires Table(trees, process.recorded, process.jumps) && start in trees && trees[start] == tracepoints
      ensures NonZero(process.jumps) && WellFormed(tracepoints) && Held(trampolines, UpperEnd())
    {
      TableIsExact(process.jumps, process.recorded);
      assert SubTree(tracepoints, process.recorded);
    }

    /** The table without the segment's tracepoints. */
    lemma TableWithout(trees: map<nat, Tree>, trees': map<nat, Tree>, all: Tree, j: Jumps, gone: Tree)
      requires process.Linked() && process.InRanges(trees) && Table(trees, all, j)
      requires Replaced(trees, trees', start, map[]) && gone == trees[start]
      ensures WellFormed(gone) && Table(trees', all - gone.Keys, j - AllKeys(gone))
    {
      forall b | b in trees && b != start
        ensures trees[b].Keys !! gone.Keys
      {
        process.OwnKeys(trees, b, start);
      }
      TableRemoves(trees, trees', all, j, start, gone);
    }

    /** tracepoints_cleanup, with the record that the process keeps. */
    method Remove(unpatch: bool, freeTrampolines: bool, ghost m0: Memory)
      returns (freed: bool, ghost failed: Tree)
      requires process.thread.Valid() && process.Consistent() && Listed()
      requires unpatch ==>
                Originals(m0, tracepoints) && Clean(m0, process.thread.bytes, tracepoints, trampolines, UpperEnd())
      modifies this`tracepoints, this`trampolines, this`trampolinesSize
      modifies process`jumps, process`recorded, process.thread
      ensures process.Consistent() && process.recorded == old(process.recorded) - old(tracepoints).Keys
      ensures tracepoints == map[] && trampolines == 0
      ensures unpatch ==> SubTree(failed, old(tracepoints))
      ensures unpatch ==> Clean(m0, process.thread.bytes, failed, old(trampolines), old(UpperEnd()))
      ensures unpatch ==> process.Accounted(failed, old(process.thread.clock))
      ensures process.thread.clock >= old(process.thread.clock)
      ensures freed ==> freeTrampolines && old(trampolines) != 0
      ensures GivenBack(old(process.thread.bytes), process.thread.bytes, old(trampolines), old(UpperEnd()),
                        freed && !stolen)
      ensures !unpatch ==> Unmapped(old(process.thread.bytes), process.thread.bytes, old(trampolines), old(UpperEnd()))
      ensures !unpatch ==> unchanged(process.thread`clock, process.thread`dead)
      ensures !unpatch && !freeTrampolines ==> unchanged(process.thread)
    {
      hide *;
      ListedFacts();
      ghost var all, j0, trees, gone := process.recorded, process.jumps, process.Trees(), tracepoints;
      RemovalFacts(trees);
      freed, failed := Cleanup(unpatch, freeTrampolines, m0, trampolines, UpperEnd());
      process.recorded := process.recorded - gone.Keys;
      TreesNow(trees);
      TableWithout(trees, process.Trees(), all, j0, gone);
      StillConsistent(trees);
    }

    /** Memory m with the original instructions of m0. */
    ghost function WithOriginals(m0: Memory, m: Memory, tps: Tree): Memory {
      m + map x | x in m0 && InSomeSpan(tps, x) :: m0[x]
    }

    ghost predicate InSomeSpan(tps: Tree, x: nat) {
      exists k :: k in tps && InSpan(tps[k], x)
    }

    lemma OriginalsBack(m0: Memory, m: Memory, tps: Tree, lo: nat, hi: nat)
      requires Originals(m0, tps) && Clean(m0, m, tps, lo, hi)
      ensures Originals(WithOriginals(m0, m, tps), tps) && Clean(WithOriginals(m0, m, tps), m, tps, lo, hi)
    {
      var w := WithOriginals(m0, m, tps);
      forall k | k in tps
        ensures Original(w, tps[k])
      {
        assert Original(m0, tps[k]);
        forall x: nat | InSpan(tps[k], x)
          ensures x in w && w[x] == m0[x]
        {
          assert InSomeSpan(tps, x);
        }
      }
    }

    lemma CleanFromOriginals(m0: Memory, m: Memory, r: Memory, tps: Tree, failed: Tree, lo: nat, hi: nat)
      requires Originals(m0, tps) && Clean(m0, m, tps, lo, hi) && SubTree(failed, tps)
      requires Clean(WithOriginals(m0, m, tps), r, failed, lo, hi)
      ensures Clean(m0, r, failed, lo, hi) && Clean(m, r, tps, lo, hi)
    {
      hide *;
      var w := WithOriginals(m0, m, tps);
      OriginalsHas(m0, m, tps, lo, hi);
      CleanFromBefore(m0, w, r, failed, lo, hi);
      CleanFromSince(m, w, r, tps, failed, lo, hi);
    }

    lemma OriginalsHas(m0: Memory, m: Memory, tps: Tree, lo: nat, hi: nat)
      requires Originals(m0, tps) && Clean(m0, m, tps, lo, hi)
      ensures var w := WithOriginals(m0, m, tps);
              && (forall x :: x in m0 && !(lo <= x < hi) ==> x in w && w[x] == m0[x])
              && (forall x :: x in m && (forall k :: k in tps ==> !InSpan(tps[k], x)) ==> x in w && w[x] == m[x])
    {
    }

    lemma CleanFromBefore(m0: Memory, w: Memory, r: Memory, failed: Tree, lo: nat, hi: nat)
      requires Clean(w, r, failed, lo, hi) && forall x :: x in m0 && !(lo <= x < hi) ==> x in w && w[x] == m0[x]
      ensures Clean(m0, r, failed, lo, hi)
    {
    }

    lemma CleanFromSince(m: Memory, w: Memory, r: Memory, tps: Tree, failed: Tree, lo: nat, hi: nat)
      requires Clean(w, r, failed, lo, hi) && SubTree(failed, tps)
      requires forall x :: x in m && (forall k :: k in tps ==> !InSpan(tps[k], x)) ==> x in w && w[x] == m[x]
      ensures Clean(m, r, tps, lo, hi)
    {
      forall x | x in m && !(lo <= x < hi) && (forall k :: k in tps ==> !InSpan(tps[k], x))
        ensures x in r && r[x] == m[x]
      {
        assert forall k :: k in failed ==> !InSpan(failed[k], x);
      }
    }

    /** The rooms of the process, when this segment's has changed. */
    lemma RoomsNow(rooms: map<nat, Room>)
      requires Listed() && rooms.Keys == process.segments.Keys
      requires forall a :: a in process.segments && a != start ==>
                 rooms[a] == Room(process.segments[a].trampolines, process.segments[a].UpperEnd())
      ensures process.Rooms() == rooms[start := Room(trampolines, UpperEnd())]
    {
    }

    lemma HousingWithout(m: Memory, r: Memory, trees: map<nat, Tree>, trees': map<nat, Tree>, rooms: map<nat, Room>,
                         rooms': map<nat, Room>, gone: bool)
      requires process.Housing(m, trees, rooms) && Replaced(trees, trees', start, map[]) && start in rooms
      requires rooms' == rooms[start := Room(0, 0)] && GivenBack(m, r, rooms[start].lo, rooms[start].hi, gone)
      ensures process.Housing(r, trees', rooms')
    {
      assert forall b :: b in rooms && b != start ==> b in rooms' && rooms'[b] == rooms[b];
      forall a, k | a in trees' && k in trees'[a]
        ensures a in rooms' && process.InTheRoom(trees'[a][k], rooms'[a])
      {
        assert a in trees && trees[a] == trees'[a];
      }
    }

    /** The segment's room is off the other segments' rooms and instructions. */
    lemma OffThisRoom(all: Tree, others: Tree, m: Memory, trees: map<nat, Tree>, rooms: map<nat, Room>)
      requires process.Housing(m, trees, rooms) && Untangled(all, rooms) && start in rooms && SubTree(others, all)
      ensures OffRooms(others, rooms - {start}, rooms[start].lo, rooms[start].hi)
    {
      forall a, x: nat | a in rooms - {start} && InRoom((rooms - {start})[a], x)
        ensures !(rooms[start].lo <= x < rooms[start].hi)
      {
        assert !InRoom(rooms[start], x);
      }
      forall k, x: nat | k in others && InSpan(others[k], x)
        ensures !(rooms[start].lo <= x < rooms[start].hi)
      {
        assert all[k] == others[k] && !InRoom(rooms[start], x);
      }
    }

    lemma UntangledParts(all: Tree, tps: Tree, rooms: map<nat, Room>)
      requires Untangled(all, rooms) && SubTree(tps, all)
      ensures Untangled(all - tps.Keys + tps, rooms - {start})
    {
      var sum, rest := all - tps.Keys + tps, rooms - {start};
      assert SubTree(sum, all);
      forall i, k, x: nat | i in sum && k in sum && i != k && InSpan(sum[i], x)
        ensures !InSpan(sum[k], x)
      {
        assert sum[i] == all[i] && sum[k] == all[k];
      }
      forall a, k, x: nat | a in rest && k in sum && InSpan(sum[k], x)
        ensures !InRoom(rest[a], x)
      {
        assert sum[k] == all[k] && rest[a] == rooms[a];
      }
    }

    /** The other segments' tracepoints stay in memory when this one's are removed. */
    lemma RemovalSettlesOne(m: Memory, live: set<nat>, all: Tree, trees: map<nat, Tree>, rooms: map<nat, Room>,
                            tps: Tree, gone: bool)
      requires process.GoodTemplates() && process.SettledIn(m, live, all, trees, rooms) && Untangled(all, rooms)
      requires process.Linked() && process.InRanges(trees) && Union(trees, all) && SubTree(tps, all)
      requires start in rooms && start in trees && tps == trees[start]
      requires Replaced(trees, process.Trees(), start, map[]) && process.Rooms() == rooms[start := Room(0, 0)]
      requires process.recorded == all - tps.Keys
      requires Clean(m, process.thread.bytes, tps, rooms[start].lo, rooms[start].hi)
      requires GivenBack(m, process.thread.bytes, rooms[start].lo, rooms[start].hi, gone)
      ensures process.Settled(live - tps.Keys)
    {
      hide *;
      ghost var others := all - tps.Keys;
      OthersFacts(all, tps);
      process.SettledParts(m, live, all, trees, rooms);
      HousingWithout(m, process.thread.bytes, trees, process.Trees(), rooms, process.Rooms(), gone);
      OffThisRoom(all, others, m, trees, rooms);
      UntangledParts(all, tps, rooms);
      process.OthersStayLive(m, process.thread.bytes, live, all, trees, rooms, start, others, tps,
                             rooms[start].lo, rooms[start].hi);
      process.IsSettled(live - tps.Keys);
    }

    lemma OthersFacts(all: Tree, tps: Tree)
      ensures SubTree(all - tps.Keys, all) && (all - tps.Keys).Keys !! tps.Keys
    {
    }

    lemma RemovalSettles(m: Memory, all: Tree, trees: map<nat, Tree>, rooms: map<nat, Room>, tps: Tree, gone: bool)
      requires process.GoodTemplates() && Untangled(all, rooms)
      requires process.Linked() && process.InRanges(trees) && Union(trees, all) && SubTree(tps, all)
      requires start in rooms && start in trees && tps == trees[start]
      requires Replaced(trees, process.Trees(), start, map[]) && process.Rooms() == rooms[start := Room(0, 0)]
      requires process.recorded == all - tps.Keys
      requires Clean(m, process.thread.bytes, tps, rooms[start].lo, rooms[start].hi)
      requires GivenBack(m, process.thread.bytes, rooms[start].lo, rooms[start].hi, gone)
      ensures forall live :: process.SettledIn(m, live, all, trees, rooms) ==> process.Settled(live - tps.Keys)
    {
      hide *;
      forall live | process.SettledIn(m, live, all, trees, rooms)
        ensures process.Settled(live - tps.Keys)
      {
        RemovalSettlesOne(m, live, all, trees, rooms, tps, gone);
      }
    }

    lemma RoomFacts()
      requires Listed()
      ensures process.Rooms().Keys == process.segments.Keys
      ensures start in process.Rooms() && process.Rooms()[start] == Room(trampolines, UpperEnd())
      ensures forall a :: a in process.segments ==>
                process.Rooms()[a] == Room(process.segments[a].trampolines, process.segments[a].UpperEnd())
    {
    }

    lemma UnmappedOnly(m: Memory, r: Memory, tps: Tree, lo: nat, hi: nat)
      requires Unmapped(m, r, lo, hi)
      ensures Clean(m, r, tps, lo, hi)
    {
    }

    lemma TableParts(trees: map<nat, Tree>, all: Tree, j: Jumps)
      requires Table(trees, all, j) && start in trees
      ensures Union(trees, all) && SubTree(trees[start], all)
    {
    }

    lemma EmptyRoom()
      requires trampolines == 0
      ensures UpperEnd() == 0
    {
    }

    /** After the segment's tracepoints have been removed. */
    lemma Removed(m: Memory, all: Tree, trees: map<nat, Tree>, rooms: map<nat, Room>, tps: Tree, gone: bool)
      requires process.GoodTemplates() && Untangled(all, rooms) && Listed()
      requires process.Linked() && process.InRanges(trees) && (exists j :: Table(trees, all, j))
      requires trees.Keys == rooms.Keys == process.segments.Keys && start in trees && tps == trees[start]
      requires forall a :: a in process.segments && a != start ==>
                 process.segments[a].tracepoints == trees[a]
                 && rooms[a] == Room(process.segments[a].trampolines, process.segments[a].UpperEnd())
      requires process.recorded == all - tps.Keys && tracepoints == map[] && trampolines == 0
      requires Clean(m, process.thread.bytes, tps, rooms[start].lo, rooms[start].hi)
      requires GivenBack(m, process.thread.bytes, rooms[start].lo, rooms[start].hi, gone)
      ensures forall live :: process.SettledIn(m, live, all, trees, rooms) ==> process.Settled(live - tps.Keys)
    {
      hide *;
      var j :| Table(trees, all, j);
      TableParts(trees, all, j);
      TreesNow(trees);
      RoomsNow(rooms);
      EmptyRoom();
      RemovalSettles(m, all, trees, rooms, tps, gone);
    }

    /** tracepoints_detach: the program keeps running without the tracepoints.  Memory m0 is
        any that has the original instructions and is otherwise as the process has it.  The
        addresses of the trampolines leave memory exactly if they were to be freed, that
        succeeded (freed), and the segment has never used stolen memory. */
    method Detach(ghost m0: Memory) returns (freed: bool, ghost failed: Tree)
      requires process.thread.Valid() && process.Consistent() && Listed()
      requires Originals(m0, tracepoints) && Clean(m0, process.thread.bytes, tracepoints, trampolines, UpperEnd())
      modifies this`tracepoints, this`trampolines, this`trampolinesSize
      modifies process`jumps, process`recorded, process.thread
      ensures process.Consistent() && process.recorded == old(process.recorded) - old(tracepoints).Keys
      ensures tracepoints == map[] && trampolines == 0 && SubTree(failed, old(tracepoints))
      ensures Clean(m0, process.thread.bytes, failed, old(trampolines), old(UpperEnd()))
      ensures process.Accounted(failed, old(process.thread.clock))
      ensures process.thread.clock >= old(process.thread.clock) && (freed ==> old(trampolines) != 0)
      ensures GivenBack(old(process.thread.bytes), process.thread.bytes, old(trampolines), old(UpperEnd()),
                        freed && !stolen)
      ensures process.GoodTemplates() && old(Untangled(process.recorded, process.Rooms())) ==>
                forall live :: old(process.Settled(live)) ==> process.Settled(live - old(tracepoints).Keys)
    {
      hide *;
      ghost var m, tps, lo, hi := process.thread.bytes, tracepoints, trampolines, UpperEnd();
      ghost var all, trees, rooms := process.recorded, process.Trees(), process.Rooms();
      ghost var tidy := process.GoodTemplates() && Untangled(all, rooms);
      ListedFacts();
      RoomFacts();
      process.SettledMeans();
      OriginalsBack(m0, m, tps, lo, hi);
      freed, failed := Remove(true, true, WithOriginals(m0, m, tps));
      CleanFromOriginals(m0, m, process.thread.bytes, tps, failed, lo, hi);
      if tidy {
        Removed(m, all, trees, rooms, tps, freed && !stolen);
      }
    }

    /** tracepoints_gone: the segment is unmapped, its trampolines go, too, under the same
        condition. */
    method Gone() returns (freed: bool)
      requires process.thread.Valid() && process.Consistent() && Listed()
      modifies this`tracepoints, this`trampolines, this`trampolinesSize
      modifies process`jumps, process`recorded, process.thread
      ensures process.Consistent() && process.recorded == old(process.recorded) - old(tracepoints).Keys
      ensures tracepoints == map[] && trampolines == 0
      ensures Unmapped(old(process.thread.bytes), process.thread.bytes, old(trampolines), old(UpperEnd()))
      ensures freed ==> old(trampolines) != 0
      ensures GivenBack(old(process.thread.bytes), process.thread.bytes, old(trampolines), old(UpperEnd()),
                        freed && !stolen)
      ensures process.GoodTemplates() && old(Untangled(process.recorded, process.Rooms())) ==>
                forall live :: old(process.Settled(live)) ==> process.Settled(live - old(tracepoints).Keys)
    {
      hide *;
      ghost var m, tps, lo, hi := process.thread.bytes, tracepoints, trampolines, UpperEnd();
      ghost var all, trees, rooms := process.recorded, process.Trees(), process.Rooms();
      ghost var tidy, failed := process.GoodTemplates() && Untangled(all, rooms), map[];
      ListedFacts();
      RoomFacts();
      process.SettledMeans();
      freed, failed := Remove(false, true, map[]);
      UnmappedOnly(m, process.thread.bytes, tps, lo, hi);
      if tidy {
        Removed(m, all, trees, rooms, tps, freed && !stolen);
      }
    }

    /** tracepoints_reset: after an exec or exit the memory is not touched. */
    method Reset()
      requires process.thread.Valid() && process.Consistent() && Listed()
      modifies this`tracepoints, this`trampolines, this`trampolinesSize
      modifies process`jumps, process`recorded, process.thread
      ensures process.Consistent() && process.recorded == old(process.recorded) - old(tracepoints).Keys
      ensures tracepoints == map[] && trampolines == 0 && unchanged(process.thread)
    {
      var _, _ := Remove(false, false, map[]);
    }

    lemma PlacedFacts(m0: Memory, from: nat, targets: seq<nat>, handlers: map<nat, nat>)
      requires Placed(m0, from) && process.Known(m0, tracepoints, targets, handlers)
      ensures Originals(m0, tracepoints) && Clean(m0, process.thread.bytes, tracepoints, trampolines, UpperEnd())
      ensures FreeRoom(m0, trampolines, UpperEnd()) && trampolines > 0
    {
      forall k | k in tracepoints
        ensures Original(m0, tracepoints[k])
      {
        process.KnownFacts(m0, tracepoints, targets, handlers, k);
      }
    }

    lemma TableOfProcess()
      requires process.Consistent()
      ensures JumpsAre(map[], process.jumps, Family(process.recorded))
    {
    }

    /** The table is as it was. */
    lemma SameTable(all: Tree, j0: Jumps, tps: Tree)
      requires process.Consistent() && process.recorded == (all + tps) - tps.Keys && tps.Keys !! all.Keys
      requires JumpsAre(map[], j0, Family(all))
      ensures process.recorded == all && process.jumps == j0
    {
      hide *;
      assert (all + tps) - tps.Keys == all;
      TableOfProcess();
      JumpsUnique(process.jumps, j0, Family(all));
    }

    lemma DetachedIsRestored(m0: Memory, failed: Tree, tps: Tree, targets: seq<nat>, handlers: map<nat, nat>, lo: nat,
                             hi: nat)
      requires process.Known(m0, tps, targets, handlers) && SubTree(failed, tps)
      requires Clean(m0, process.thread.bytes, failed, lo, hi) && FreeRoom(m0, lo, hi)
      ensures process.Known(m0, failed, targets, handlers) && process.Restored(m0, process.thread.bytes, failed)
    {
      process.CleanIsRestored(m0, process.thread.bytes, failed, lo, hi);
    }

    /** Installing and detaching again, whether or not the installation is rolled back half
        way: the jump table is as before, and so is all memory that anybody has access to,
        except in instructions that could not be written back; on a thread that lives, with
        requests that succeed and mapped words around the targets, there are none.  The room
        of the trampolines is unmapped exactly if freeing it succeeded and the segment has
        never used stolen memory. */
    method InitThenDetach(targets: seq<nat>, handlers: map<nat, nat>, place: nat -> Place)
      returns (freed: bool, ghost failed: Tree, ghost from: nat, ghost size: nat)
      requires Startable(targets, handlers, place)
      modifies this`tracepoints, this`trampolines, this`trampolinesSize, this`stolen
      modifies process`jumps, process`recorded, process.thread
      ensures process.Consistent() && process.recorded == old(process.recorded) && process.jumps == old(process.jumps)
      ensures tracepoints == map[] && trampolines == 0
      ensures process.Known(old(process.thread.bytes), failed, targets, handlers)
      ensures process.Restored(old(process.thread.bytes), process.thread.bytes, failed)
      ensures old(process.thread.clock) <= from && process.Accounted(failed, from)
      ensures forall x :: x in old(process.thread.bytes) ==> x in process.thread.bytes
      ensures size > 0 ==> RoomMapped(old(process.thread.bytes), process.thread.bytes, place(size), size,
                                      freed && !stolen)
      ensures size == 0 ==> process.thread.bytes == old(process.thread.bytes)
      ensures stolen == (old(stolen) || (size > 0 && place(size).Stolen?))
      ensures !process.thread.dead && old(process.Smooth(process.thread.bytes, targets, process.thread.clock)) ==>
                failed == map[]
    {
      hide *;
      StartFacts(targets, handlers, place);
      TableOfProcess();
      ghost var m0, all, j0, c0 := process.thread.bytes, process.recorded, process.jumps, process.thread.clock;
      var ok;
      ok, freed, failed, from, size := Init(targets, handlers, place);
      if size > 0 {
        HousedFacts(m0, place(size), size, if ok then tracepoints else failed, !ok && freed, old(stolen));
      }
      if ok {
        ghost var m1, tps, lo, hi := process.thread.bytes, tracepoints, trampolines, UpperEnd();
        PlacedFacts(m0, c0, targets, handlers);
        TrampolinesAt(place(size), size);
        from := process.thread.clock;
        freed, failed := Detach(m0);
        DetachedIsRestored(m0, failed, tps, targets, handlers, lo, hi);
        RoomGivenBack(m0, m1, process.thread.bytes, place(size), size, freed && !stolen);
        SameTable(all, j0, tps);
      } else {
        assert all + map[] == all;
      }
      if !process.thread.dead && process.Smooth(m0, targets, c0) {
        process.SmoothIsComplete(m0, failed, targets, handlers, c0, from);
      }
    }

    lemma HousedFacts(m0: Memory, place: Place, size: nat, tps: Tree, freed: bool, stolen0: bool)
      requires Housed(m0, place, size, tps, freed, stolen0)
      ensures Clean(m0, process.thread.bytes, tps, Base(place), Top(place, size))
      ensures RoomMapped(m0, process.thread.bytes, place, size, freed && !stolen)
      ensures stolen == (stolen0 || place.Stolen?)
    {
    }

    lemma TrampolinesAt(place: Place, size: nat)
      requires !place.Nowhere? && trampolines == Base(place) && trampolinesSize == size && trampolines > 0
      ensures UpperEnd() == Top(place, size)
    {
    }

    lemma RoomGivenBack(m0: Memory, m1: Memory, m2: Memory, place: Place, size: nat, gone: bool)
      requires RoomMapped(m0, m1, place, size, false) && GivenBack(m1, m2, Base(place), Top(place, size), gone)
      requires FreeRoom(m0, Base(place), Top(place, size)) && (gone ==> !stolen)
      ensures RoomMapped(m0, m2, place, size, gone) && forall x :: x in m0 ==> x in m2
    {
    }

    // ----- Stolen once -----

    /** The memory around the targets is as it was. */
    ghost predicate SameWords(m0: Memory, m: Memory, targets: seq<nat>) {
      forall t, x: nat :: t in targets && t - t % 2 <= x < t - t % 2 + 4 ==>
        (x in m <==> x in m0) && (x in m ==> m[x] == m0[x])
    }

    lemma CreatedBefore(m0: Memory, m: Memory, targets: seq<nat>, tp: Tracepoint, t: nat, handler: nat)
      requires SameWords(m0, m, targets) && t in targets && process.Created(tp, t, handler, m)
      ensures process.Created(tp, t, handler, m0)
    {
      forall x: nat | InSpan(tp, x)
        ensures x in m0 && m0[x] == InsnBytes(tp.kind, tp.insn)[x - tp.address]
      {
        assert t - t % 2 <= x < t - t % 2 + 4;
      }
    }

    lemma TracedWords(m0: Memory, targets: seq<nat>, handlers: map<nat, nat>)
      requires SameWords(m0, process.thread.bytes, targets) && Distinct(targets)
      requires forall t :: t in targets ==>
                 t in handlers && Aligned(t - t % 2, process.AddressKind(t))
                 && OffTrampolines(process.recorded, t - t % 2)
      requires forall tp, t :: t in targets && process.Created(tp, t, handlers[t], m0) ==> NoReturnToZero(tp)
      requires forall made, a :: process.Creatable(m0, targets, handlers, made) && a in process.jumps ==>
                 a >= SizeOf(made)
      ensures process.Traceable(targets, handlers) && process.AboveOffsets(targets, handlers)
    {
      var m := process.thread.bytes;
      forall tp, t | t in targets && process.Created(tp, t, handlers[t], m)
        ensures NoReturnToZero(tp)
      {
        CreatedBefore(m0, m, targets, tp, t, handlers[t]);
      }
      forall made: seq<Option<Tracepoint>>, a: nat | process.Creatable(m, targets, handlers, made) && a in process.jumps
        ensures a >= SizeOf(made)
      {
        forall i | 0 <= i < |made| && made[i].Some?
          ensures process.Created(made[i].value, targets[i], handlers[targets[i]], m0)
        {
          CreatedBefore(m0, m, targets, made[i].value, targets[i], handlers[targets[i]]);
        }
        assert process.Creatable(m0, targets, handlers, made);
      }
    }

    lemma TracedFacts(targets: seq<nat>, handlers: map<nat, nat>)
      requires process.Traceable(targets, handlers) && process.AboveOffsets(targets, handlers)
      ensures Distinct(targets)
      ensures forall t :: t in targets ==>
                 t in handlers && Aligned(t - t % 2, process.AddressKind(t))
                 && OffTrampolines(process.recorded, t - t % 2)
      ensures forall tp, t :: t in targets && process.Created(tp, t, handlers[t], process.thread.bytes) ==>
                NoReturnToZero(tp)
      ensures forall made, a ::
                process.Creatable(process.thread.bytes, targets, handlers, made) && a in process.jumps ==>
                a >= SizeOf(made)
    {
    }

    /** Targets and gaps are not in memory that nobody has access to. */
    ghost predicate Accessible(targets: seq<nat>, gap: nat -> Place) {
      && (forall t, x: nat :: t in targets && t - t % 2 <= x < t - t % 2 + 4 ==> x !in process.unused)
      && forall n, x: nat :: Base(gap(n)) <= x < Top(gap(n), n) ==> x !in process.unused
    }

    ghost predicate StealsUnused(steal: nat -> Place) {
      forall n :: steal(n).Stolen? && forall x: nat :: Base(steal(n)) <= x < Top(steal(n), n) ==> x in process.unused
    }

    lemma StealsFacts(steal: nat -> Place)
      requires forall n :: steal(n).Stolen? && Available(steal(n), n)
      ensures StealsUnused(steal)
    {
      forall n
        ensures steal(n).Stolen? && forall x: nat :: Base(steal(n)) <= x < Top(steal(n), n) ==> x in process.unused
      {
        assert Available(steal(n), n);
      }
    }

    lemma WordsRestored(m0: Memory, targets: seq<nat>, steal: nat -> Place, gap: nat -> Place, size: nat, gone: bool)
      requires Accessible(targets, gap) && StealsUnused(steal)
      requires process.Restored(m0, process.thread.bytes, map[])
      requires if size > 0 then RoomMapped(m0, process.thread.bytes, steal(size), size, gone)
               else process.thread.bytes == m0
      ensures SameWords(m0, process.thread.bytes, targets)
      ensures forall n, x: nat :: Base(gap(n)) <= x < Top(gap(n), n) && x !in m0 ==> x !in process.thread.bytes
    {
      forall x: nat | x !in process.unused
        ensures x in process.thread.bytes <==> x in m0
        ensures x in m0 ==> process.thread.bytes[x] == m0[x]
      {
        if size > 0 {
          assert steal(size).Stolen? && !(Base(steal(size)) <= x < Top(steal(size), size));
        }
      }
    }

    lemma GapsFacts(gap: nat -> Place)
      requires forall n :: gap(n).Gap? && Available(gap(n), n)
      ensures forall n :: gap(n).Gap? && AvailableIn(gap(n), n, process.thread.bytes, process.recorded)
    {
      forall n
        ensures gap(n).Gap? && AvailableIn(gap(n), n, process.thread.bytes, process.recorded)
      {
        assert Available(gap(n), n);
      }
    }

    /** Gaps that were available still are. */
    lemma GapsStay(m0: Memory, gap: nat -> Place)
      requires forall n :: gap(n).Gap? && AvailableIn(gap(n), n, m0, process.recorded)
      requires forall n, x: nat :: Base(gap(n)) <= x < Top(gap(n), n) && x !in m0 ==> x !in process.thread.bytes
      ensures forall n :: Available(gap(n), n)
    {
      forall n
        ensures Available(gap(n), n)
      {
        assert AvailableIn(gap(n), n, m0, process.recorded);
      }
    }

    lemma IsStartable(targets: seq<nat>, handlers: map<nat, nat>, place: nat -> Place)
      requires process.thread.Valid() && process.GoodTemplates() && process.Consistent() && Listed()
      requires tracepoints == map[] && trampolines == 0 && forall t :: t in targets ==> start <= t < end
      requires process.Traceable(targets, handlers) && process.AboveOffsets(targets, handlers)
      requires forall n :: Available(place(n), n)
      ensures Startable(targets, handlers, place)
    {
    }

    /** A segment that once used stolen memory never gives later trampolines back: tracepoints
        are installed with stolen memory and detached, then installed in a gap and detached
        again (or rolled back).  The gap stays mapped, even if the freeing succeeded. */
    method StolenOnceIsNeverFreed(targets: seq<nat>, handlers: map<nat, nat>, steal: nat -> Place, gap: nat -> Place)
      returns (freed: bool, ghost size: nat)
      requires Startable(targets, handlers, steal) && Accessible(targets, gap)
      requires process.Smooth(process.thread.bytes, targets, process.thread.clock)
      requires forall n :: steal(n).Stolen? && gap(n).Gap? && Available(gap(n), n)
      modifies this`tracepoints, this`trampolines, this`trampolinesSize, this`stolen
      modifies process`jumps, process`recorded, process.thread
      ensures process.Consistent() && process.recorded == old(process.recorded) && process.jumps == old(process.jumps)
      ensures tracepoints == map[] && trampolines == 0
      ensures forall x: nat :: size > 0 && Base(gap(size)) <= x < Top(gap(size), size) ==>
                x in process.thread.bytes && x !in old(process.thread.bytes)
    {
      hide *;
      ghost var m0 := process.thread.bytes;
      StartFacts(targets, handlers, steal);
      TracedFacts(targets, handlers);
      StealsFacts(steal);
      GapsFacts(gap);
      ghost var failed, from, first;
      freed, failed, from, first := InitThenDetach(targets, handlers, steal);
      size := 0;
      if process.thread.dead || !stolen {
        return;
      }
      WordsRestored(m0, targets, steal, gap, first, freed && !stolen);
      TracedWords(m0, targets, handlers);
      GapsStay(m0, gap);
      IsStartable(targets, handlers, gap);
      freed, failed, from, size := InitThenDetach(targets, handlers, gap);
      if size > 0 {
        GapIsMapped(m0, gap, size);
      }
    }

    lemma GapIsMapped(m0: Memory, gap: nat -> Place, size: nat)
      requires gap(size).Gap? && AvailableIn(gap(size), size, m0, process.recorded)
      requires exists m :: RoomMapped(m, process.thread.bytes, gap(size), size, false)
      ensures forall x: nat :: Base(gap(size)) <= x < Top(gap(size), size) ==>
                x in process.thread.bytes && x !in m0
    {
    }
  }
}
