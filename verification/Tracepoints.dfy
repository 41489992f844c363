/**
 Tracepoints, the bytes of their instructions and the fallback jumps they need, as values,
 and what installing and removing them does to memory and to the jump table.
 */
module Tracepoints {

  import opened Inferior
  import opened Branches
  import opened Numbers

  // ----- Instructions in memory -----

  predicate IsWord(insn: Word) { |insn| == 4 }

  function InsnSize(kind: Kind): nat { if kind == Thumb then 2 else 4 }

  function SwapHalfwords(insn: Word): Word
    requires IsWord(insn)
  {
    [insn[2], insn[3], insn[0], insn[1]]
  }

  /** is_thumb2_halfword, of the halfword whose high byte is given: only its five top bits count */
  predicate IsThumb2Halfword(high: bv8) { high & 0xf8 >= 0xe8 }

  /** patch_check_insn */
  predicate CheckInsn(kind: Kind, insn: Word) {
    IsWord(insn) &&
    match kind
    case Thumb2 => IsThumb2Halfword(insn[3])
    case Thumb => insn[2] == 0 && insn[3] == 0
    case _ => true
  }

  /** The bytes that patch_insn writes. */
  function InsnBytes(kind: Kind, insn: Word): (data: seq<bv8>)
    requires IsWord(insn)
    ensures |data| == InsnSize(kind)
  {
    if kind == Thumb then insn[..2] else if kind == Thumb2 then SwapHalfwords(insn) else insn
  }

  /** What patch_read_insn makes of the bytes it reads. */
  function InsnOf(kind: Kind, data: seq<bv8>): (insn: Word)
    requires |data| == InsnSize(kind)
    ensures IsWord(insn) && InsnBytes(kind, insn) == data
  {
    if kind == Thumb then data + [0, 0] else if kind == Thumb2 then SwapHalfwords(data) else data
  }

  function InsnValue(insn: Word): nat {
    if !IsWord(insn) then 0 else
    insn[0] as nat + insn[1] as nat * 0x100 + insn[2] as nat * 0x1_0000 + insn[3] as nat * 0x100_0000
  }

  /** get_breakpoint_insn */
  function BreakpointInsn(kind: Kind): (insn: Word)
    ensures CheckInsn(kind, insn)
  {
    match kind
    case Arm => [0x70, 0x00, 0x20, 0xe1]
    case Thumb => [0x00, 0xde, 0x00, 0x00]
    case Thumb2 => [0x00, 0xa0, 0xf0, 0xf7]
    case A64 => [0x00, 0x00, 0x20, 0xd4]
  }

  function ByteOf(n: nat): bv8 { (n % 0x100) as bv8 }

  /** The bytes of an instruction that is given as a number. */
  function WordOf(n: nat): (insn: Word)
    ensures IsWord(insn)
  {
    [ByteOf(n), ByteOf(n / 0x100), ByteOf(n / 0x1_0000), ByteOf(n / 0x100_0000)]
  }

  lemma NextByte(b: bv8)
    requires b as nat < 255
    ensures (b + 1) as nat == b as nat + 1
  {
  }

  lemma {:induction false} ByteExists(n: nat) returns (b: bv8)
    requires n < 0x100
    ensures b as nat == n
  {
    if n == 0 {
      b := 0;
    } else {
      b := ByteExists(n - 1);
      NextByte(b);
      b := b + 1;
    }
  }

  lemma ByteRoundTrip(n: nat)
    requires n < 0x100
    ensures (n as bv8) as nat == n
  {
    var b := ByteExists(n);
    assert (b as nat) as bv8 == b;
  }

  lemma ByteValue(n: nat)
    ensures ByteOf(n) as nat == n % 0x100
  {
    ByteRoundTrip(n % 0x100);
  }

  lemma BytesAddUp(n: nat, a: nat, b: nat, c: nat)
    requires n < 0x1_0000_0000 && a == n / 0x100 && b == n / 0x1_0000 && c == n / 0x100_0000
    ensures n % 0x100 + a % 0x100 * 0x100 + b % 0x100 * 0x1_0000 + c % 0x100 * 0x100_0000 == n
  {
    DivDiv(n, 0x100, 0x100);
    DivDiv(n, 0x1_0000, 0x100);
    assert b == a / 0x100 && c == b / 0x100;
  }

  lemma WordOfValue(n: nat)
    requires n < 0x1_0000_0000
    ensures InsnValue(WordOf(n)) == n
  {
    hide ByteOf;
    ByteValue(n);
    ByteValue(n / 0x100);
    ByteValue(n / 0x1_0000);
    ByteValue(n / 0x100_0000);
    BytesAddUp(n, n / 0x100, n / 0x1_0000, n / 0x100_0000);
  }

  lemma JumpIsNumber(kind: Kind, from: nat, to: nat)
    ensures JumpInsn(kind, from, to) < 0x1_0000_0000
  {
  }

  /** What patch_relative_jump writes is an instruction of the kind. */
  lemma JumpIsInsn(kind: Kind, from: nat, to: nat)
    ensures CheckInsn(kind, WordOf(JumpInsn(kind, from, to)))
  {
    hide ByteOf, Thumb2Branch, ReadPc, IsThumb2Halfword;
    if kind == Thumb {
      ThumbIsShort(JumpInsn(kind, from, to));
    } else if kind == Thumb2 {
      JumpIsThumb2(to - ReadPc(kind, from));
    }
  }

  lemma ThumbIsShort(insn: nat)
    requires insn < 0x1_0000
    ensures CheckInsn(Thumb, WordOf(insn))
  {
    assert insn / 0x1_0000 == 0 && insn / 0x100_0000 == 0;
  }

  lemma JumpIsThumb2(jump: int)
    ensures IsThumb2Halfword(ByteOf(Thumb2Branch(jump) / 0x100_0000))
  {
    var s, imm10 := jump / 0x100_0000 % 2, jump / 0x1000 % 0x400;
    var rest := Thumb2Branch(jump) - 0xf000_0000 - s * 0x400_0000 - imm10 * 0x1_0000;
    var top := Thumb2Branch(jump) / 0x100_0000;
    DivUnique(Thumb2Branch(jump), 0x100_0000, 0xf0 + s * 4 + imm10 / 0x100, imm10 % 0x100 * 0x1_0000 + rest);
    assert 0xf0 <= top <= 0xf7;
    HighByte(top);
  }

  lemma HighByte(top: nat)
    requires 0xf0 <= top <= 0xf7
    ensures IsThumb2Halfword(ByteOf(top))
  {
    var b := ByteOf(top);
    assert b == 0xf0 || b == 0xf1 || b == 0xf2 || b == 0xf3 || b == 0xf4 || b == 0xf5 || b == 0xf6 || b == 0xf7;
  }

  // ----- Tracepoints -----

  datatype FieldId = HandlerReturn | ReturnToImm26 | ReturnToImm19 | ReturnToImm14 | OtherField

  datatype Field = Field(id: FieldId, offset: nat)

  datatype Template = Template(size: nat, fields: seq<Field>, kind: Kind)

  datatype Tracepoint = Tracepoint(
    address: nat, trampoline: nat, handler: nat, insn: Word, kind: Kind, template: Template)

  type Tree = map<nat, Tracepoint>

  type Jumps = map<nat, nat>

  predicate InSpan(tp: Tracepoint, x: nat) {
    tp.address <= x < tp.address + InsnSize(tp.kind)
  }

  /** The jump that template_iter_return_address reports for the i-th field: from ... */
  function ReturnFrom(tp: Tracepoint, i: nat): nat
    requires i < |tp.template.fields|
  {
    tp.trampoline + tp.template.fields[i].offset
  }

  /** ... to. */
  function ReturnTo(tp: Tracepoint, i: nat): nat
    requires i < |tp.template.fields|
  {
    ReturnTarget(tp.template.fields[i].id, tp.address, InsnValue(tp.insn))
  }

  function ReturnTarget(id: FieldId, address: nat, insn: nat): nat {
    match id
    case ReturnToImm26 => Imm26Target(address, insn)
    case ReturnToImm19 => Imm19Target(address, insn)
    case ReturnToImm14 => Imm14Target(address, insn)
    case _ => address + 4
  }

  predicate Returns(tp: Tracepoint, i: nat) {
    tp.kind == A64 && i < |tp.template.fields| && tp.template.fields[i].id != OtherField
  }

  /** All the addresses where a jump of the tracepoint may be installed. */
  function JumpKeys(tp: Tracepoint): set<nat> {
    {tp.address} + set i: nat | i < |tp.template.fields| && Returns(tp, i) :: ReturnFrom(tp, i)
  }

  predicate NeedsFallback(tp: Tracepoint, i: nat)
    requires i < |tp.template.fields|
  {
    Returns(tp, i) && !CheckJump(tp.template.kind, ReturnFrom(tp, i), ReturnTo(tp, i))
  }

  /** The return jumps of the first n fields that are out of reach of a branch. */
  function ReturnFallbacks(tp: Tracepoint, n: nat): Jumps
    requires n <= |tp.template.fields|
  {
    if n == 0 then map[]
    else if NeedsFallback(tp, n - 1) then ReturnFallbacks(tp, n - 1)[ReturnFrom(tp, n - 1) := ReturnTo(tp, n - 1)]
    else ReturnFallbacks(tp, n - 1)
  }

  function EntryFallback(tp: Tracepoint): Jumps {
    if CheckJump(tp.kind, tp.address, tp.trampoline) then map[] else map[tp.address := tp.trampoline]
  }

  /** The table entries of an installed tracepoint: its breakpoint, if a branch does not reach
      the trampoline, and the return jumps that a branch does not reach. */
  function Fallbacks(tp: Tracepoint): Jumps {
    EntryFallback(tp) + ReturnFallbacks(tp, |tp.template.fields|)
  }

  // ----- Memory, before and after -----

  /** The tracepoint knows the bytes its instruction has in memory m. */
  ghost predicate Original(m: Memory, tp: Tracepoint) {
    && CheckInsn(tp.kind, tp.insn)
    && forall x: nat :: InSpan(tp, x) ==> x in m && m[x] == InsnBytes(tp.kind, tp.insn)[x - tp.address]
  }

  ghost predicate Originals(m: Memory, tps: Tree) {
    forall k :: k in tps ==> Original(m, tps[k])
  }

  /** Memory m is m0, except perhaps in the instructions of the tracepoints and in the
      trampolines, which lie from lo up to hi. */
  ghost predicate Clean(m0: Memory, m: Memory, tps: Tree, lo: nat, hi: nat) {
    forall x :: x in m0 && !(lo <= x < hi) && (forall k :: k in tps ==> !InSpan(tps[k], x)) ==> x in m && m[x] == m0[x]
  }

  lemma CleanThrough(m0: Memory, m: Memory, r: Memory, tps: Tree, lo: nat, hi: nat)
    requires Clean(m0, m, tps, lo, hi) && Clean(m, r, map[], lo, hi)
    ensures Clean(m0, r, tps, lo, hi)
  {
  }

  /** Memory r is m, perhaps without some of the addresses of a range. */
  ghost predicate Unmapped(m: Memory, r: Memory, lo: nat, hi: nat) {
    && (forall x :: x in r ==> x in m && r[x] == m[x])
    && (forall x :: x in m && !(lo <= x < hi) ==> x in r)
  }

  /** What is mapped in r is what is mapped in m, without the range if it is gone. */
  ghost predicate GivenBack(m: Memory, r: Memory, lo: nat, hi: nat, gone: bool) {
    forall x :: x in r <==> x in m && !(gone && lo <= x < hi)
  }

  lemma UnmappedIsClean(m0: Memory, m: Memory, r: Memory, tps: Tree, lo: nat, hi: nat)
    requires Clean(m0, m, tps, lo, hi) && Unmapped(m, r, lo, hi)
    ensures Clean(m0, r, tps, lo, hi)
  {
  }

  /** Overwriting one of the instructions, in part or completely, keeps the rest clean. */
  lemma PatchKeepsClean(m0: Memory, m: Memory, r: Memory, tps: Tree, k: nat, lo: nat, hi: nat, data: seq<bv8>, n: nat)
    requires Clean(m0, m, tps, lo, hi) && k in tps && n <= |data| == InsnSize(tps[k].kind)
    requires Copied(m, r, tps[k].address, data, 0, n)
    ensures Clean(m0, r, tps, lo, hi)
  {
  }

  /** Writing the original instruction back makes its tracepoint superfluous. */
  lemma RestoreCleans(m0: Memory, m: Memory, r: Memory, tps: Tree, k: nat, lo: nat, hi: nat)
    requires Clean(m0, m, tps, lo, hi) && k in tps && Original(m0, tps[k])
    requires Copied(m, r, tps[k].address, InsnBytes(tps[k].kind, tps[k].insn), 0, InsnSize(tps[k].kind))
    requires Mapped(m.Keys, tps[k].address, InsnSize(tps[k].kind))
    ensures Clean(m0, r, tps - {k}, lo, hi)
  {
    var tp := tps[k];
    forall x | x in m0 && !(lo <= x < hi) && (forall j :: j in tps - {k} ==> !InSpan(tps[j], x))
      ensures x in r && r[x] == m0[x]
    {
      if !InSpan(tp, x) {
        assert forall j :: j in tps ==> j == k || j in tps - {k};
      }
    }
  }

  /** Writing into the trampolines keeps everything else clean. */
  lemma TrampolineKeepsClean(m0: Memory, m: Memory, r: Memory, tps: Tree, lo: nat, hi: nat, at: nat, data: seq<bv8>,
                             n: nat)
    requires Clean(m0, m, tps, lo, hi) && n <= |data| && Copied(m, r, at, data, 0, n) && lo <= at && at + |data| <= hi
    ensures Clean(m0, r, tps, lo, hi)
  {
  }

  /** The instruction of a tracepoint is overwritten with another. */
  ghost predicate Holds(m: Memory, tp: Tracepoint, insn: Word) {
    IsWord(insn) && forall x: nat :: InSpan(tp, x) ==> x in m && m[x] == InsnBytes(tp.kind, insn)[x - tp.address]
  }

  /** Instructions do not overlap. */
  ghost predicate SpansApart(tps: Tree) {
    forall i, k, x: nat :: i in tps && k in tps && i != k && InSpan(tps[i], x) ==> !InSpan(tps[k], x)
  }

  /** Neither the instruction nor the trampoline of next is in either of those of tp. */
  ghost predicate Elsewhere(tp: Tracepoint, next: Tracepoint) {
    && (forall x: nat :: InSpan(tp, x) ==>
          !InSpan(next, x) && !(next.trampoline <= x < next.trampoline + next.template.size))
    && (forall x: nat :: InSpan(next, x) ==> !(tp.trampoline <= x < tp.trampoline + tp.template.size))
    && (tp.trampoline + tp.template.size <= next.trampoline || next.trampoline + next.template.size <= tp.trampoline)
  }

  /** Writing next leaves tp as it is. */
  lemma ElsewhereStays(m: Memory, mid: Memory, r: Memory, tp: Tracepoint, next: Tracepoint,
                       insn: seq<bv8>, entry: nat, code: seq<bv8>, body: nat)
    requires Elsewhere(tp, next) && |insn| == InsnSize(next.kind) && |code| == next.template.size
    requires Copied(m, mid, next.address, insn, 0, entry) && Copied(mid, r, next.trampoline, code, 0, body)
    ensures forall x: nat :: InSpan(tp, x) && x in m ==> x in r && r[x] == m[x]
    ensures forall x: nat :: tp.trampoline <= x < tp.trampoline + tp.template.size && x in m ==> x in r && r[x] == m[x]
  {
    forall x: nat | InSpan(tp, x) && x in m
      ensures x in r && r[x] == m[x]
    {
      assert !InSpan(next, x) && mid[x] == m[x];
    }
    forall x: nat | tp.trampoline <= x < tp.trampoline + tp.template.size && x in m
      ensures x in r && r[x] == m[x]
    {
      assert !InSpan(next, x) && mid[x] == m[x];
    }
  }

  lemma KeysStay(m: Memory, r: Memory, at: int, data: seq<bv8>, n: int)
    requires Copied(m, r, at, data, 0, n)
    ensures r.Keys == m.Keys
  {
  }

  /** Instructions are outside a range. */
  ghost predicate SpansOutside(tps: Tree, lo: nat, hi: nat) {
    forall k, x: nat :: k in tps && InSpan(tps[k], x) ==> !(lo <= x < hi)
  }

  // ----- The jump table, before and after -----

  predicate NonZero(jumps: Jumps) {
    forall a :: a in jumps ==> jumps[a] != 0
  }

  predicate Aligned(address: nat, kind: Kind) {
    address % (if kind == Arm || kind == A64 then 4 else 2) == 0
  }

  ghost predicate WellFormed(tps: Tree) {
    forall k :: k in tps ==> CheckInsn(tps[k].kind, tps[k].insn) && Aligned(tps[k].address, tps[k].kind)
  }

  ghost predicate SubTree(a: Tree, b: Tree) {
    forall k :: k in a ==> k in b && a[k] == b[k]
  }

  ghost function AllKeys(tps: Tree): set<nat>
    requires WellFormed(tps)
  {
    set k, a | k in tps && a in JumpKeys(tps[k]) :: a
  }

  lemma AllKeysWithout(tps: Tree, k: nat)
    requires WellFormed(tps) && k in tps
    ensures WellFormed(tps - {k}) && AllKeys(tps) == AllKeys(tps - {k}) + JumpKeys(tps[k])
  {
    var rest := tps - {k};
    forall a | a in AllKeys(tps)
      ensures a in AllKeys(rest) + JumpKeys(tps[k])
    {
      var j :| j in tps && a in JumpKeys(tps[j]);
      assert j == k || (j in rest && rest[j] == tps[j]);
    }
  }

  /** The fallbacks of a tracepoint have keys among its jump keys, which are the address and
      the return places in its trampoline. */
  lemma {:induction false} ReturnFallbackKeys(tp: Tracepoint, n: nat)
    requires n <= |tp.template.fields|
    ensures forall a :: a in ReturnFallbacks(tp, n) ==>
              exists i: nat :: i < n && Returns(tp, i) && a == ReturnFrom(tp, i)
    ensures ReturnFallbacks(tp, n).Keys <= JumpKeys(tp)
  {
    if n > 0 {
      ReturnFallbackKeys(tp, n - 1);
      if Returns(tp, n - 1) {
        assert ReturnFrom(tp, n - 1) in JumpKeys(tp);
      }
    }
  }

  lemma FallbackKeys(tp: Tracepoint)
    ensures Fallbacks(tp).Keys <= JumpKeys(tp)
  {
    ReturnFallbackKeys(tp, |tp.template.fields|);
  }

  /** One more return jump. */
  lemma ReturnStep(tp: Tracepoint, i: nat, j: Jumps)
    requires GoodTemplate(tp.template) && i < |tp.template.fields|
    ensures ReturnFrom(tp, i) !in ReturnFallbacks(tp, i)
    ensures j + ReturnFallbacks(tp, i + 1) ==
              if NeedsFallback(tp, i) then (j + ReturnFallbacks(tp, i))[ReturnFrom(tp, i) := ReturnTo(tp, i)]
              else j + ReturnFallbacks(tp, i)
  {
    ReturnFallbackKeys(tp, i);
  }

  /** The fallbacks of each tracepoint. */
  ghost function Family(tps: Tree): map<nat, Jumps> {
    Images(Fallbacks, tps)
  }

  ghost function Images(f: Tracepoint -> Jumps, tps: Tree): map<nat, Jumps> {
    map k | k in tps :: f(tps[k])
  }

  lemma ImagesOfSum(f: Tracepoint -> Jumps, all: Tree, tps: Tree)
    ensures Images(f, all + tps) == Images(f, all) + Images(f, tps)
  {
  }

  lemma ImagesOfRest(f: Tracepoint -> Jumps, all: Tree, gone: set<nat>)
    ensures Images(f, all - gone) == Images(f, all) - gone
  {
  }

  lemma ImagesOfUpdate(f: Tracepoint -> Jumps, all: Tree, k: nat, tp: Tracepoint)
    ensures Images(f, all[k := tp]) == Images(f, all)[k := f(tp)]
  {
  }

  /** Table j is j0 and the tables of the family, and nothing else. */
  ghost predicate JumpsAre(j0: Jumps, j: Jumps, family: map<nat, Jumps>) {
    && (forall a :: a in j ==> a in j0 || exists k :: k in family && a in family[k])
    && (forall a :: a in j0 ==> a in j && j[a] == j0[a])
    && (forall k, a :: k in family && a in family[k] ==> a in j && j[a] == family[k][a])
  }

  lemma JumpsInstalled(j0: Jumps, j: Jumps, family: map<nat, Jumps>, k: nat, more: Jumps)
    requires JumpsAre(j0, j, family) && k !in family && more.Keys !! j.Keys
    ensures JumpsAre(j0, j + more, family[k := more])
  {
    var family' := family[k := more];
    forall a | a in j + more
      ensures a in j0 || exists i :: i in family' && a in family'[i]
    {
      if a in more {
        assert a in family'[k];
      } else if a !in j0 {
        var i :| i in family && a in family[i];
        assert a in family'[i];
      }
    }
  }

  /** Removing the keys of all the tracepoints, installed or not, leaves the old table. */
  lemma JumpsRemoved(j0: Jumps, j: Jumps, tps: Tree, all: Tree)
    requires WellFormed(tps) && WellFormed(all) && SubTree(tps, all)
    requires JumpsAre(j0, j, Family(tps)) && AllKeys(all) !! j0.Keys
    ensures j - AllKeys(all) == j0
  {
    forall a | a in j && a !in j0
      ensures a in AllKeys(all)
    {
      var k :| k in Family(tps) && a in Family(tps)[k];
      FallbackKeys(tps[k]);
      assert k in all && a in JumpKeys(all[k]);
    }
  }

  // ----- The layout of the trampolines -----

  /** The size of a template is passed on as an unsigned int. */
  ghost predicate GoodTemplate(t: Template) {
    && 0 < t.size < UINT_RANGE - 4
    && (forall f :: f in t.fields ==> f.offset < t.size)
    && (forall i, j :: 0 <= i < j < |t.fields| ==> t.fields[i].offset != t.fields[j].offset)
  }

  ghost predicate Inside(tp: Tracepoint, base: nat, total: nat) {
    base <= tp.trampoline && tp.trampoline + tp.template.size <= base + total
  }

  ghost predicate Apart(a: Tracepoint, b: Tracepoint) {
    && a.address != b.address
    && (a.trampoline + a.template.size <= b.trampoline || b.trampoline + b.template.size <= a.trampoline)
  }

  /** Each tracepoint has its own part of the trampolines, and its own address. */
  ghost predicate Layout(tps: Tree, base: nat, total: nat) {
    && (forall k :: k in tps ==> Inside(tps[k], base, total) && GoodTemplate(tps[k].template))
    && (forall j, k :: j in tps && k in tps && j != k ==> Apart(tps[j], tps[k]))
  }

  /** One more trampoline at the end. */
  lemma LayoutExtends(tps: Tree, total: nat, t: nat, tp: Tracepoint)
    requires Layout(tps, 0, total) && t !in tps && GoodTemplate(tp.template)
    requires forall k :: k in tps ==> tps[k].address != tp.address
    ensures Layout(tps[t := tp.(trampoline := total)], 0, total + tp.template.size)
  {
    var tp' := tp.(trampoline := total);
    forall k | k in tps
      ensures Apart(tps[k], tp') && Apart(tp', tps[k]) && Inside(tps[k], 0, total + tp.template.size)
    {
      assert Inside(tps[k], 0, total);
    }
  }

  function Relocate(tp: Tracepoint, base: nat): Tracepoint {
    tp.(trampoline := tp.trampoline + base)
  }

  /** The tracepoints of the keys in done have been given their trampolines' addresses. */
  function Relocated(tps: Tree, base: nat, done: set<nat>): Tree {
    map k | k in tps :: if k in done then Relocate(tps[k], base) else tps[k]
  }

  /** The tracepoints of the keys in done, with their trampolines' addresses. */
  function Done(tps: Tree, base: nat, done: set<nat>): Tree {
    map k | k in tps && k in done :: Relocate(tps[k], base)
  }

  lemma RelocatedFacts(tps: Tree, base: nat, done: set<nat>)
    requires WellFormed(tps)
    ensures WellFormed(Relocated(tps, base, done)) && WellFormed(Done(tps, base, done))
    ensures SubTree(Done(tps, base, done), Relocated(tps, base, done))
  {
  }

  /** Relocation concerns neither the instructions nor their addresses. */
  lemma RelocatedInstructions(tps: Tree, base: nat, done: set<nat>, m0: Memory, m: Memory, lo: nat, hi: nat)
    requires Originals(m0, tps) && Clean(m0, m, tps, lo, hi)
    ensures Originals(m0, Relocated(tps, base, done)) && Clean(m0, m, Relocated(tps, base, done), lo, hi)
  {
    var all := Relocated(tps, base, done);
    forall x | x in m0 && !(lo <= x < hi) && (forall k :: k in all ==> !InSpan(all[k], x))
      ensures x in m && m[x] == m0[x]
    {
      assert forall k :: k in tps ==> k in all && InSpan(all[k], x) == InSpan(tps[k], x);
    }
  }

  lemma SameSpans(tps: Tree, base: nat, lo: nat, hi: nat)
    requires SpansApart(Relocated(tps, base, tps.Keys)) && SpansOutside(Relocated(tps, base, tps.Keys), lo, hi)
    ensures SpansApart(tps) && SpansOutside(tps, lo, hi)
  {
    var all := Relocated(tps, base, tps.Keys);
    forall i, x: nat | i in tps && InSpan(tps[i], x)
      ensures i in all && InSpan(all[i], x) && !(lo <= x < hi)
      ensures forall k :: k in tps && k != i ==> !InSpan(tps[k], x)
    {
      assert InSpan(all[i], x);
      forall k | k in tps && k != i
        ensures !InSpan(tps[k], x)
      {
        assert !InSpan(all[k], x);
      }
    }
  }

  /** Tracepoints of a tree, perhaps with other trampolines. */
  ghost predicate Remade(tps: Tree, created: Tree) {
    forall k :: k in tps ==> k in created && tps[k].(trampoline := 0) == created[k].(trampoline := 0)
  }

  lemma RelocatedKeys(tps: Tree, base: nat)
    ensures Relocated(tps, base, tps.Keys).Keys == tps.Keys
  {
  }

  lemma AllDone(tps: Tree, base: nat)
    ensures Done(tps, base, tps.Keys) == Relocated(tps, base, tps.Keys)
  {
  }

  ghost predicate NoReturnToZero(tp: Tracepoint) {
    forall i: nat :: i < |tp.template.fields| && Returns(tp, i) ==> ReturnTo(tp, i) != 0
  }

  lemma {:induction false} ReturnFallbacksNonZero(tp: Tracepoint, n: nat)
    requires NoReturnToZero(tp) && n <= |tp.template.fields|
    ensures NonZero(ReturnFallbacks(tp, n))
  {
    if n > 0 {
      ReturnFallbacksNonZero(tp, n - 1);
    }
  }

  /** Relocation does not change where a tracepoint returns to. */
  lemma RelocateReturns(tp: Tracepoint, trampoline: nat)
    requires NoReturnToZero(tp)
    ensures NoReturnToZero(tp.(trampoline := trampoline))
  {
    var tp' := tp.(trampoline := trampoline);
    forall i: nat | i < |tp'.template.fields| && Returns(tp', i)
      ensures ReturnTo(tp', i) != 0
    {
      assert Returns(tp, i) && ReturnTo(tp, i) != 0;
    }
  }

  lemma FallbacksNonZero(tp: Tracepoint)
    requires NoReturnToZero(tp) && tp.trampoline > 0
    ensures NonZero(Fallbacks(tp))
  {
    ReturnFallbacksNonZero(tp, |tp.template.fields|);
  }

  lemma TableNonZero(tps: Tree, base: nat, done: set<nat>, j0: Jumps, j: Jumps)
    requires JumpsAre(j0, j, Family(Done(tps, base, done)))
    requires NonZero(j0) && (base > 0 || done == {}) && forall k :: k in tps ==> NoReturnToZero(tps[k])
    ensures NonZero(j)
  {
    var family := Family(Done(tps, base, done));
    forall a | a in j && a !in j0
      ensures j[a] != 0
    {
      var k :| k in family && a in family[k];
      RelocateReturns(tps[k], tps[k].trampoline + base);
      FallbacksNonZero(Relocate(tps[k], base));
    }
  }

  lemma RelocateOne(tps: Tree, base: nat, done: set<nat>, k: nat)
    requires k in tps && k !in done
    ensures Relocated(tps, base, done)[k] == tps[k]
    ensures Relocated(tps, base, done)[k := Relocate(tps[k], base)] == Relocated(tps, base, done + {k})
  {
  }

  /** Tracepoints that have their own parts of the trampolines have their own jump keys. */
  lemma ApartKeys(a: Tracepoint, b: Tracepoint, base: nat, total: nat)
    requires IsWord(a.insn) && IsWord(b.insn) && GoodTemplate(a.template) && GoodTemplate(b.template) && Apart(a, b)
    requires Inside(a, base, total) && Inside(b, base, total)
    requires !(base <= a.address < base + total) && !(base <= b.address < base + total)
    ensures JumpKeys(a) !! JumpKeys(b)
  {
    forall x | x in JumpKeys(a)
      ensures x == a.address || a.trampoline <= x < a.trampoline + a.template.size
    {
    }
    forall x | x in JumpKeys(b)
      ensures x == b.address || b.trampoline <= x < b.trampoline + b.template.size
    {
    }
  }

  lemma KeysOf(tp: Tracepoint, x: nat)
    requires IsWord(tp.insn) && GoodTemplate(tp.template) && x in JumpKeys(tp)
    ensures x == tp.address || tp.trampoline <= x < tp.trampoline + tp.template.size
  {
  }

  /** No jump key of the table lies at an address of the tracepoints, in their trampolines,
      or below the size of the trampolines. */
  ghost predicate Unused(j: Jumps, tps: Tree, base: nat, total: nat) {
    forall a :: a in j ==>
      a >= total && !(base <= a < base + total) && forall k :: k in tps ==> tps[k].address != a
  }

  ghost predicate AddressesOutside(tps: Tree, base: nat, total: nat) {
    forall k :: k in tps ==> !(base <= tps[k].address < base + total)
  }

  lemma KeysUnused(tps: Tree, base: nat, total: nat, j0: Jumps, k: nat, a: nat)
    requires WellFormed(tps) && Layout(tps, 0, total) && Unused(j0, tps, base, total)
    requires k in tps && (a in JumpKeys(Relocate(tps[k], base)) || a in JumpKeys(tps[k]))
    ensures a !in j0
  {
    assert Inside(tps[k], 0, total);
    if a in JumpKeys(tps[k]) {
      KeysOf(tps[k], a);
    } else {
      KeysOf(Relocate(tps[k], base), a);
    }
  }

  lemma RelocatedKeysApart(tps: Tree, base: nat, total: nat, i: nat, k: nat)
    requires WellFormed(tps) && Layout(tps, 0, total) && AddressesOutside(tps, base, total)
    requires i in tps && k in tps && i != k
    ensures JumpKeys(Relocate(tps[i], base)) !! JumpKeys(Relocate(tps[k], base))
  {
    assert Apart(tps[i], tps[k]) && Inside(tps[i], 0, total) && Inside(tps[k], 0, total);
    ApartKeys(Relocate(tps[i], base), Relocate(tps[k], base), base, total);
  }

  /** The next tracepoint's keys are free, ... */
  lemma NextKeysFree(tps: Tree, base: nat, total: nat, done: set<nat>, j0: Jumps, j: Jumps, k: nat)
    requires WellFormed(tps) && Layout(tps, 0, total) && AddressesOutside(tps, base, total)
    requires Unused(j0, tps, base, total)
    requires k in tps && k !in done
    requires JumpsAre(j0, j, Family(Done(tps, base, done)))
    ensures JumpKeys(Relocate(tps[k], base)) !! j.Keys
  {
    var family := Family(Done(tps, base, done));
    forall a | a in JumpKeys(Relocate(tps[k], base))
      ensures a !in j
    {
      KeysUnused(tps, base, total, j0, k, a);
      if a in j {
        var i :| i in family && a in family[i];
        FallbackKeys(Relocate(tps[i], base));
        RelocatedKeysApart(tps, base, total, i, k);
      }
    }
  }

  /** ... and installing its fallbacks extends the table by them. */
  lemma InstalledOne(tps: Tree, base: nat, done: set<nat>, j0: Jumps, j: Jumps, k: nat)
    requires k in tps && k !in done
    requires JumpsAre(j0, j, Family(Done(tps, base, done)))
    requires JumpKeys(Relocate(tps[k], base)) !! j.Keys
    ensures JumpsAre(j0, j + Fallbacks(Relocate(tps[k], base)), Family(Done(tps, base, done + {k})))
  {
    var tp := Relocate(tps[k], base);
    FallbackKeys(tp);
    JumpsInstalled(j0, j, Family(Done(tps, base, done)), k, Fallbacks(tp));
    assert Done(tps, base, done + {k}) == Done(tps, base, done)[k := tp];
    ImagesOfUpdate(Fallbacks, Done(tps, base, done), k, tp);
  }

  lemma AllKeysUnused(tps: Tree, base: nat, total: nat, done: set<nat>, j0: Jumps)
    requires WellFormed(tps) && Layout(tps, 0, total) && Unused(j0, tps, base, total)
    ensures WellFormed(Relocated(tps, base, done)) && AllKeys(Relocated(tps, base, done)) !! j0.Keys
  {
    RelocatedFacts(tps, base, done);
    var all := Relocated(tps, base, done);
    forall a | a in AllKeys(all)
      ensures a !in j0
    {
      var k :| k in all && a in JumpKeys(all[k]);
      KeysUnused(tps, base, total, j0, k, a);
    }
  }

  /** Rolling back, at any point of the installation, leaves the old table. */
  lemma RolledBack(tps: Tree, base: nat, total: nat, done: set<nat>, j0: Jumps, j: Jumps)
    requires WellFormed(tps) && Layout(tps, 0, total) && Unused(j0, tps, base, total)
    requires JumpsAre(j0, j, Family(Done(tps, base, done)))
    ensures WellFormed(Relocated(tps, base, done)) && j - AllKeys(Relocated(tps, base, done)) == j0
  {
    RelocatedFacts(tps, base, done);
    AllKeysUnused(tps, base, total, done, j0);
    JumpsRemoved(j0, j, Done(tps, base, done), Relocated(tps, base, done));
  }

  /** It does so exactly if the old table has no jump at an address that is a key of one of the
      tracepoints; those that are not installed yet have offsets in place of addresses. */
  lemma RolledBackIff(tps: Tree, base: nat, done: set<nat>, j0: Jumps, j: Jumps)
    requires WellFormed(tps) && JumpsAre(j0, j, Family(Done(tps, base, done)))
    ensures WellFormed(Relocated(tps, base, done))
    ensures j - AllKeys(Relocated(tps, base, done)) == j0 <==> AllKeys(Relocated(tps, base, done)) !! j0.Keys
  {
    RelocatedFacts(tps, base, done);
    var all := Relocated(tps, base, done);
    if AllKeys(all) !! j0.Keys {
      JumpsRemoved(j0, j, Done(tps, base, done), all);
    } else {
      var a :| a in AllKeys(all) && a in j0.Keys;
      assert a !in j - AllKeys(all);
    }
  }

  /** sysconf(_SC_PAGE_SIZE) */
  const PAGE_SIZE: nat := 4096

  function AlignToPage(size: nat): (r: nat)
    ensures size <= r < size + PAGE_SIZE && r % PAGE_SIZE == 0
  {
    (size + PAGE_SIZE - 1) / PAGE_SIZE * PAGE_SIZE
  }

  // ----- All the tracepoints of a process -----

  ghost predicate OwnTrampoline(tp: Tracepoint) {
    GoodTemplate(tp.template) && !(tp.trampoline <= tp.address < tp.trampoline + tp.template.size)
  }

  /** What is so of an installed tracepoint; its key is the address of the instruction, with
      the Thumb bit. */
  ghost predicate Sound(k: nat, tp: Tracepoint) {
    && tp.address == k - k % 2 && CheckInsn(tp.kind, tp.insn) && Aligned(tp.address, tp.kind)
    && OwnTrampoline(tp) && NoReturnToZero(tp) && tp.trampoline > 0
  }

  /** Instructions and trampolines are apart from each other. */
  ghost predicate Spread(all: Tree) {
    && (forall k :: k in all ==> Sound(k, all[k]))
    && (forall i, k :: i in all && k in all && i != k ==> Distant(all[i], all[k]))
  }

  ghost predicate Distant(a: Tracepoint, b: Tracepoint) {
    && Apart(a, b)
    && !(a.trampoline <= b.address < a.trampoline + a.template.size)
    && !(b.trampoline <= a.address < b.trampoline + b.template.size)
  }

  lemma DistantKeys(a: Tracepoint, b: Tracepoint)
    requires IsWord(a.insn) && IsWord(b.insn) && OwnTrampoline(a) && OwnTrampoline(b) && Distant(a, b)
    ensures JumpKeys(a) !! JumpKeys(b)
  {
    forall x | x in JumpKeys(a)
      ensures x !in JumpKeys(b)
    {
      KeysOf(a, x);
      if x in JumpKeys(b) {
        KeysOf(b, x);
      }
    }
  }

  lemma SpreadKeys(all: Tree)
    requires Spread(all)
    ensures WellFormed(all) && KeysApart(all)
  {
    forall k | k in all
      ensures CheckInsn(all[k].kind, all[k].insn) && Aligned(all[k].address, all[k].kind)
    {
      assert Sound(k, all[k]);
    }
    forall i, k | i in all && k in all && i != k
      ensures JumpKeys(all[i]) !! JumpKeys(all[k])
    {
      assert Sound(i, all[i]) && Sound(k, all[k]) && Distant(all[i], all[k]);
      DistantKeys(all[i], all[k]);
    }
  }

  /** The range has neither traced instructions nor trampolines in it. */
  ghost predicate Avoids(all: Tree, lo: nat, hi: nat) {
    forall k :: k in all ==>
      && !(lo <= all[k].address < hi)
      && (all[k].trampoline + all[k].template.size <= lo || hi <= all[k].trampoline)
  }

  ghost predicate OffTrampolines(all: Tree, address: nat) {
    forall k :: k in all ==> !(all[k].trampoline <= address < all[k].trampoline + all[k].template.size)
  }

  /** The address is not traced yet, and not in a trampoline. */
  ghost predicate Untraced(all: Tree, address: nat) {
    OffTrampolines(all, address) && forall k :: k in all ==> all[k].address != address
  }

  /** A segment's tracepoints, with trampolines from base on, are apart from the others'. */
  lemma SpreadSum(all: Tree, tps: Tree, base: nat, total: nat)
    requires Spread(all) && Spread(tps) && Avoids(all, base, base + total)
    requires forall k :: k in tps ==> Inside(tps[k], base, total) && Untraced(all, tps[k].address)
    ensures Spread(all + tps)
  {
    var sum := all + tps;
    forall k | k in sum
      ensures Sound(k, sum[k])
    {
      assert if k in tps then Sound(k, tps[k]) else Sound(k, all[k]);
    }
    forall i, k | i in sum && k in sum && i != k
      ensures Distant(sum[i], sum[k])
    {
      if i in tps {
        assert Inside(tps[i], base, total) && Untraced(all, tps[i].address);
      }
      if k in tps {
        assert Inside(tps[k], base, total) && Untraced(all, tps[k].address);
      }
      if i in tps && k in tps {
        assert Distant(tps[i], tps[k]);
      } else if i !in tps && k !in tps {
        assert Distant(all[i], all[k]);
      }
    }
  }

  lemma SpreadRest(all: Tree, gone: set<nat>)
    requires Spread(all)
    ensures Spread(all - gone)
  {
    var rest := all - gone;
    forall i, k | i in rest && k in rest && i != k
      ensures Distant(rest[i], rest[k])
    {
      assert Distant(all[i], all[k]);
    }
  }

  /** The trampolines of a new segment, laid out and relocated, are spread. */
  lemma SpreadLayout(tps: Tree, base: nat, total: nat)
    requires WellFormed(tps) && Layout(tps, 0, total) && AddressesOutside(tps, base, total) && base > 0
    requires forall k :: k in tps ==> NoReturnToZero(tps[k]) && tps[k].address == k - k % 2
    ensures Spread(Relocated(tps, base, tps.Keys))
    ensures forall k :: k in tps ==> Inside(Relocated(tps, base, tps.Keys)[k], base, total)
  {
    var all := Relocated(tps, base, tps.Keys);
    forall k | k in all
      ensures Sound(k, all[k]) && Inside(all[k], base, total)
    {
      assert Inside(tps[k], 0, total) && all[k] == Relocate(tps[k], base);
      RelocateReturns(tps[k], tps[k].trampoline + base);
    }
    forall i, k | i in all && k in all && i != k
      ensures Distant(all[i], all[k])
    {
      assert Apart(tps[i], tps[k]) && Inside(tps[i], 0, total) && Inside(tps[k], 0, total);
      assert all[i] == Relocate(tps[i], base) && all[k] == Relocate(tps[k], base);
    }
  }

  // ----- The trees of all the segments -----

  /** The tracepoints in the trees of the segments, which are keyed by their starts. */
  ghost predicate Union(trees: map<nat, Tree>, all: Tree) {
    && (forall a :: a in trees ==> SubTree(trees[a], all))
    && (forall k :: k in all ==> InSome(trees, k))
  }

  ghost predicate InSome(trees: map<nat, Tree>, k: nat) {
    exists a :: a in trees && k in trees[a]
  }

  /** The trees of two moments differ in one segment only, which has tps now. */
  ghost predicate Replaced(trees: map<nat, Tree>, trees': map<nat, Tree>, a: nat, tps: Tree) {
    && trees'.Keys == trees.Keys && a in trees && trees'[a] == tps
    && forall b :: b in trees && b != a ==> trees'[b] == trees[b]
  }

  lemma InSomeElse(trees: map<nat, Tree>, trees': map<nat, Tree>, a: nat, tps: Tree, k: nat)
    requires InSome(trees, k) && Replaced(trees, trees', a, tps) && k !in trees[a]
    ensures InSome(trees', k)
  {
    var b :| b in trees && k in trees[b];
    assert b in trees' && k in trees'[b];
  }

  lemma UnionAdd(trees: map<nat, Tree>, trees': map<nat, Tree>, all: Tree, a: nat, tps: Tree)
    requires Union(trees, all) && Replaced(trees, trees', a, tps)
    requires tps.Keys !! all.Keys && trees[a].Keys == {}
    ensures Union(trees', all + tps)
  {
    var sum := all + tps;
    forall b | b in trees'
      ensures SubTree(trees'[b], sum)
    {
      if b != a {
        SubTreeOfSum(trees[b], all, tps);
      }
    }
    forall k | k in sum
      ensures InSome(trees', k)
    {
      if k in tps {
        assert k in trees'[a];
      } else {
        InSomeElse(trees, trees', a, tps, k);
      }
    }
  }

  lemma SubTreeOfSum(part: Tree, all: Tree, tps: Tree)
    requires SubTree(part, all) && tps.Keys !! all.Keys
    ensures SubTree(part, all + tps)
  {
    forall k | k in part
      ensures k in all + tps && (all + tps)[k] == part[k]
    {
      assert k in all && k !in tps.Keys;
    }
  }

  lemma SubTreeOfRest(part: Tree, all: Tree, gone: set<nat>)
    requires SubTree(part, all) && part.Keys !! gone
    ensures SubTree(part, all - gone)
  {
    forall k | k in part
      ensures k in all - gone && (all - gone)[k] == part[k]
    {
      assert k in all && k !in gone;
    }
  }

  lemma UnionRemove(trees: map<nat, Tree>, trees': map<nat, Tree>, all: Tree, a: nat, gone: set<nat>)
    requires Union(trees, all) && Replaced(trees, trees', a, map[]) && gone == trees[a].Keys
    requires forall b :: b in trees && b != a ==> trees[b].Keys !! gone
    ensures Union(trees', all - gone)
  {
    var rest := all - gone;
    forall b | b in trees'
      ensures SubTree(trees'[b], rest)
    {
      if b != a {
        SubTreeOfRest(trees[b], all, gone);
      }
    }
    forall k | k in rest
      ensures InSome(trees', k)
    {
      InSomeElse(trees, trees', a, map[], k);
    }
  }

  // ----- The table of a process over whole runs -----

  ghost predicate KeysApart(all: Tree) {
    forall i, k :: i in all && k in all && i != k ==> JumpKeys(all[i]) !! JumpKeys(all[k])
  }

  /** The table holds exactly the fallbacks of the tracepoints recorded in all the segments.
      (Segments are disjoint, so an address is a key in the tree of one segment only.) */
  ghost predicate Exact(j: Jumps, all: Tree) {
    WellFormed(all) && KeysApart(all) && JumpsAre(map[], j, Family(all))
  }

  lemma JumpsChain(j0: Jumps, j1: Jumps, j2: Jumps, f: map<nat, Jumps>, g: map<nat, Jumps>)
    requires JumpsAre(j0, j1, f) && JumpsAre(j1, j2, g) && f.Keys !! g.Keys
    ensures JumpsAre(j0, j2, f + g)
  {
    forall a | a in j2 && a !in j0
      ensures exists k :: k in f + g && a in (f + g)[k]
    {
      if a in j1 {
        var k :| k in f && a in f[k];
        assert k in f + g && a in (f + g)[k];
      } else {
        var k :| k in g && a in g[k];
        assert k in f + g && a in (f + g)[k];
      }
    }
  }

  lemma JumpsWithout(j: Jumps, f: map<nat, Jumps>, gone: set<nat>, keys: set<nat>)
    requires JumpsAre(map[], j, f)
    requires forall k :: k in f ==> if k in gone then f[k].Keys <= keys else f[k].Keys !! keys
    ensures JumpsAre(map[], j - keys, f - gone)
  {
    forall a | a in j - keys
      ensures exists k :: k in f - gone && a in (f - gone)[k]
    {
      var k :| k in f && a in f[k];
      assert k in f - gone && a in (f - gone)[k];
    }
  }

  lemma JumpsUnique(j: Jumps, j': Jumps, f: map<nat, Jumps>)
    requires JumpsAre(map[], j, f) && JumpsAre(map[], j', f)
    ensures j == j'
  {
    forall a
      ensures a in j <==> a in j'
      ensures a in j ==> j[a] == j'[a]
    {
      if a in j {
        var k :| k in f && a in f[k];
      } else if a in j' {
        var k :| k in f && a in f[k];
      }
    }
  }

  lemma WellFormedSum(all: Tree, tps: Tree)
    requires WellFormed(all) && WellFormed(tps)
    ensures WellFormed(all + tps)
  {
  }

  /** Installing tracepoints in a segment, whether it succeeds or is rolled back, keeps the
      table exact. */
  lemma ExactAfterInit(j: Jumps, j': Jumps, all: Tree, tps: Tree)
    requires Exact(j, all) && WellFormed(tps) && tps.Keys !! all.Keys && KeysApart(all + tps)
    requires JumpsAre(j, j', Family(tps))
    ensures Exact(j', all + tps)
  {
    WellFormedSum(all, tps);
    assert JumpsAre(map[], j', Family(all + tps)) by {
      JumpsChain(map[], j, j', Family(all), Family(tps));
      ImagesOfSum(Fallbacks, all, tps);
    }
  }

  lemma KeysAround(all: Tree, gone: Tree, k: nat)
    requires WellFormed(all) && KeysApart(all) && WellFormed(gone) && SubTree(gone, all) && k in all
    ensures if k in gone then JumpKeys(all[k]) <= AllKeys(gone) else JumpKeys(all[k]) !! AllKeys(gone)
  {
    if k !in gone {
      forall a | a in AllKeys(gone)
        ensures a !in JumpKeys(all[k])
      {
        var i :| i in gone && a in JumpKeys(gone[i]);
        assert JumpKeys(all[i]) !! JumpKeys(all[k]);
      }
    }
  }

  /** Removing the tracepoints of a segment (detach, gone, reset) keeps the table exact. */
  lemma ExactAfterCleanup(j: Jumps, all: Tree, gone: Tree)
    requires Exact(j, all) && WellFormed(gone) && SubTree(gone, all)
    ensures Exact(j - AllKeys(gone), all - gone.Keys)
  {
    var family, keys := Family(all), AllKeys(gone);
    forall k | k in family
      ensures if k in gone.Keys then family[k].Keys <= keys else family[k].Keys !! keys
    {
      FallbackKeys(all[k]);
      KeysAround(all, gone, k);
    }
    JumpsWithout(j, family, gone.Keys, keys);
    ImagesOfRest(Fallbacks, all, gone.Keys);
  }

  lemma TableIsExact(j: Jumps, all: Tree)
    requires Spread(all) && JumpsAre(map[], j, Family(all))
    ensures Exact(j, all) && NonZero(j)
  {
    SpreadKeys(all);
    forall a | a in j
      ensures j[a] != 0
    {
      var k :| k in Family(all) && a in Family(all)[k];
      assert Sound(k, all[k]);
      FallbacksNonZero(all[k]);
    }
  }

  /** An entry is at a traced instruction or in a trampoline. */
  lemma EntryIsPlaced(j: Jumps, all: Tree, a: nat) returns (k: nat)
    requires Spread(all) && JumpsAre(map[], j, Family(all)) && a in j
    ensures k in all && (a == all[k].address || all[k].trampoline <= a < all[k].trampoline + all[k].template.size)
  {
    k :| k in Family(all) && a in Family(all)[k];
    assert Sound(k, all[k]);
    FallbackKeys(all[k]);
    KeysOf(all[k], a);
  }

  /** So new tracepoints at untraced addresses, with trampolines in a free place, are out of
      the way of the table. */
  lemma PlaceIsUnused(j: Jumps, all: Tree, tps: Tree, base: nat, total: nat)
    requires Spread(all) && JumpsAre(map[], j, Family(all)) && Avoids(all, base, base + total)
    requires forall k :: k in tps ==> Untraced(all, tps[k].address)
    requires forall a :: a in j ==> a >= total
    ensures Unused(j, tps, base, total)
  {
    forall a | a in j
      ensures !(base <= a < base + total) && forall k :: k in tps ==> tps[k].address != a
    {
      var i := EntryIsPlaced(j, all, a);
      assert forall k :: k in tps ==> Untraced(all, tps[k].address);
    }
  }

  /** Only one table is exact for the recorded tracepoints, so a fork's table, which is exact
      for copies of its parent's tracepoints, is its parent's table. */
  lemma ExactIsUnique(j: Jumps, j': Jumps, all: Tree)
    requires Exact(j, all) && Exact(j', all)
    ensures j == j'
  {
    JumpsUnique(j, j', Family(all));
  }

  /** The trees of the segments hold the tracepoints all, and the table their fallbacks. */
  ghost predicate Table(trees: map<nat, Tree>, all: Tree, j: Jumps) {
    Union(trees, all) && Spread(all) && JumpsAre(map[], j, Family(all))
  }

  /** An installation in the segment at a. */
  lemma TableAdds(trees: map<nat, Tree>, trees': map<nat, Tree>, all: Tree, j: Jumps, j': Jumps, a: nat, tps: Tree,
                  base: nat, total: nat)
    requires Table(trees, all, j) && Replaced(trees, trees', a, tps) && trees[a].Keys == {} && tps.Keys !! all.Keys
    requires Spread(tps) && Avoids(all, base, base + total) && JumpsAre(j, j', Family(tps))
    requires forall k :: k in tps ==> Inside(tps[k], base, total) && Untraced(all, tps[k].address)
    ensures Table(trees', all + tps, j')
  {
    UnionAdd(trees, trees', all, a, tps);
    SpreadSum(all, tps, base, total);
    SpreadKeys(all);
    SpreadKeys(tps);
    SpreadKeys(all + tps);
    ExactAfterInit(j, j', all, tps);
  }

  /** A removal from the segment at a. */
  lemma TableRemoves(trees: map<nat, Tree>, trees': map<nat, Tree>, all: Tree, j: Jumps, a: nat, gone: Tree)
    requires Table(trees, all, j) && Replaced(trees, trees', a, map[]) && gone == trees[a]
    requires forall b :: b in trees && b != a ==> trees[b].Keys !! gone.Keys
    ensures WellFormed(gone) && Table(trees', all - gone.Keys, j - AllKeys(gone))
  {
    UnionRemove(trees, trees', all, a, gone.Keys);
    SpreadRest(all, gone.Keys);
    SpreadKeys(all);
    assert SubTree(gone, all);
    ExactAfterCleanup(j, all, gone);
  }

  // ----- What a fork finds in its parent's table -----

  /** An exact table has an entry at a key of a tracepoint only for that tracepoint. */
  lemma ExactEntry(j: Jumps, all: Tree, k: nat, a: nat)
    requires Exact(j, all) && k in all && a in JumpKeys(all[k])
    ensures a in j <==> a in Fallbacks(all[k])
    ensures a in j ==> j[a] == Fallbacks(all[k])[a]
  {
    var family := Family(all);
    assert family[k] == Fallbacks(all[k]);
    if a in j {
      var i :| i in family && a in family[i];
      FallbackKeys(all[i]);
      assert a in JumpKeys(all[i]) && a in JumpKeys(all[k]);
      assert i == k;
    }
  }

  lemma {:induction false} ReturnFallbackAt(tp: Tracepoint, n: nat, i: nat)
    requires GoodTemplate(tp.template) && i < n <= |tp.template.fields|
    ensures ReturnFrom(tp, i) in ReturnFallbacks(tp, n) <==> NeedsFallback(tp, i)
  {
    if i < n - 1 {
      ReturnFallbackAt(tp, n - 1, i);
    } else if ReturnFrom(tp, i) in ReturnFallbacks(tp, i) {
      ReturnFallbackKeys(tp, i);
    }
  }

  lemma FallbackAt(tp: Tracepoint, i: nat)
    requires OwnTrampoline(tp) && i < |tp.template.fields|
    ensures ReturnFrom(tp, i) in Fallbacks(tp) <==> NeedsFallback(tp, i)
  {
    ReturnFallbackAt(tp, |tp.template.fields|, i);
  }

  lemma FallbackAtAddress(tp: Tracepoint)
    requires OwnTrampoline(tp)
    ensures tp.address in Fallbacks(tp) <==> !CheckJump(tp.kind, tp.address, tp.trampoline)
    ensures tp.address !in ReturnFallbacks(tp, |tp.template.fields|)
    ensures ReturnFallbacks(tp, |tp.template.fields|) + EntryFallback(tp) == Fallbacks(tp)
  {
    ReturnFallbackKeys(tp, |tp.template.fields|);
    assert tp.address !in ReturnFallbacks(tp, |tp.template.fields|);
  }

  function Restrict(all: Tree, keys: set<nat>): Tree {
    map k | k in all && k in keys :: all[k]
  }

  /** The keys of one more tracepoint are free, ... */
  lemma ForkKeysFree(j: Jumps, all: Tree, done: set<nat>, k: nat, a: nat)
    requires KeysApart(all) && k in all && k !in done && a in j
    requires JumpsAre(map[], j, Family(Restrict(all, done)))
    ensures a !in JumpKeys(all[k])
  {
    var family := Family(Restrict(all, done));
    var i :| i in family && a in family[i];
    FallbackKeys(all[i]);
    assert a in JumpKeys(all[i]);
  }

  /** ... and copying its entries extends the table by them. */
  lemma ForkedOne(j: Jumps, all: Tree, done: set<nat>, k: nat)
    requires k in all && k !in done && JumpKeys(all[k]) !! j.Keys
    requires JumpsAre(map[], j, Family(Restrict(all, done)))
    ensures JumpsAre(map[], j + Fallbacks(all[k]), Family(Restrict(all, done + {k})))
  {
    FallbackKeys(all[k]);
    JumpsInstalled(map[], j, Family(Restrict(all, done)), k, Fallbacks(all[k]));
    assert Restrict(all, done + {k}) == Restrict(all, done)[k := all[k]];
    ImagesOfUpdate(Fallbacks, Restrict(all, done), k, all[k]);
  }

  // ----- Removing tracepoints one by one -----

  /** The tracepoints rest of tps have still to be popped, and the keys gone have left the
      table j0. */
  ghost predicate Popping(tps: Tree, j0: Jumps, jumps: Jumps, rest: Tree, gone: set<nat>) {
    && WellFormed(tps) && SubTree(rest, tps) && WellFormed(rest)
    && gone + AllKeys(rest) == AllKeys(tps) && jumps == j0 - gone
  }

  lemma RestoredOne(m0: Memory, m: Memory, r: Memory, rest: Tree, dirty: Tree, failed: Tree, tps: Tree, lo: nat,
                    hi: nat, k: nat)
    requires Unpatching(m0, m, rest, dirty, tps, lo, hi) && (failed == dirty || failed == dirty - {k})
    requires Clean(m0, r, failed, lo, hi)
    ensures Unpatching(m0, r, rest - {k}, failed, tps, lo, hi)
  {
  }

  lemma PoppedOne(tps: Tree, j0: Jumps, jumps: Jumps, rest: Tree, gone: set<nat>, k: nat)
    requires Popping(tps, j0, jumps, rest, gone) && k in rest
    ensures Popping(tps, j0, jumps - JumpKeys(rest[k]), rest - {k}, gone + JumpKeys(rest[k]))
    ensures |rest - {k}| < |rest|
  {
    AllKeysWithout(rest, k);
    assert (rest - {k}).Keys == rest.Keys - {k};
  }

  /** All but the tracepoints rest of tps have been written back, except the failed ones. */
  ghost predicate Unpatching(m0: Memory, m: Memory, rest: Tree, failed: Tree, tps: Tree, lo: nat, hi: nat) {
    SubTree(rest, failed) && SubTree(failed, tps) && Originals(m0, rest) && Clean(m0, m, failed, lo, hi)
  }
}
