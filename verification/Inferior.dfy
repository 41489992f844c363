/**
 Memory of a traced process, and the writer that copies bytes into it one aligned word
 at a time.
 */
module Inferior {

  /** A machine word as its bytes, least significant first. */
  type Word = seq<bv8>

  type Memory = map<nat, bv8>

  const UINT_RANGE: nat := 0x1_0000_0000

  /** Are all the addresses of the range among those that are mapped? */
  predicate Mapped(mapped: set<nat>, address: nat, size: nat) {
    forall x :: address <= x < address + size ==> x in mapped
  }

  function Fetch(m: Memory, address: nat, size: nat): (data: seq<bv8>)
    requires Mapped(m.Keys, address, size)
    ensures |data| == size && forall i :: 0 <= i < size ==> data[i] == m[address + i]
  {
    seq(size, i requires 0 <= i < size && Mapped(m.Keys, address, size) => m[address + i])
  }

  /** The plain byte copy that the word-wise writer has to amount to: r is m with
      data[lo..hi] at the addresses at + lo up to at + hi, and otherwise unchanged. */
  ghost predicate Copied(m: Memory, r: Memory, at: int, data: seq<bv8>, lo: int, hi: int) {
    && 0 <= lo && hi <= |data| && r.Keys == m.Keys
    && forall x :: x in m ==> r[x] == if at + lo <= x < at + hi then data[x - at] else m[x]
  }

  lemma CopyMore(m: Memory, mid: Memory, r: Memory, at: int, data: seq<bv8>, done: nat, upto: nat)
    requires Copied(m, mid, at, data, 0, done) && Copied(mid, r, at, data, done, upto) && done <= upto
    ensures Copied(m, r, at, data, 0, upto)
  {
  }

  /** The bytes of data that mem_write tries to copy: the end offset from the first word is
      passed on as an unsigned int. */
  function TransferSize(address: nat, size: nat): int {
    if size == 0 then 0 else (address % 4 + size) % UINT_RANGE - address % 4
  }

  /** t &= ~mask; t |= value -- with value and mask widened to the size of t by zeros. */
  function Masked(t: Word, value: Word, mask: Word): (r: Word)
    requires |t| >= |value| == |mask| == 4
    ensures |r| == |t|
  {
    seq(|t|, i requires 0 <= i < |t| => if i < 4 then (t[i] & !mask[i]) | value[i] else t[i])
  }

  /** The mask has ones in the bytes start up to end, and the value there has the bytes of
      data (of which data[0] is due at) that belong into the word at address. */
  predicate Selects(value: Word, mask: Word, data: seq<bv8>, at: int, address: nat, start: nat, end: nat, n: nat)
    requires |value| == |mask| == 4 && end <= 4 && n <= 4
    requires at <= address + start && address + end <= at + |data|
  {
    forall i :: 0 <= i < n ==>
      if start <= i < end then mask[i] == 0xff && value[i] == data[address + i - at]
      else mask[i] == 0 && value[i] == 0
  }

  method SelectBytes(data: seq<bv8>, at: int, address: nat, start: nat, end: nat) returns (value: Word, mask: Word)
    requires start < end <= 4 && at <= address + start && address + end <= at + |data|
    ensures |value| == |mask| == 4 && Selects(value, mask, data, at, address, start, end, 4)
  {
    value, mask := [0, 0, 0, 0], [0, 0, 0, 0];
    for offset := 0 to 4
      invariant |value| == |mask| == 4
      invariant Selects(value, mask, data, at, address, start, end, offset)
    {
      if start <= offset && offset < end {
        mask := mask[offset := 0xff];
        value := value[offset := data[address + offset - at]];
      } else {
        mask := mask[offset := 0];
        value := value[offset := 0];
      }
    }
  }

  lemma MaskedIsCopy(m: Memory, r: Memory, w: nat, value: Word, mask: Word,
                     data: seq<bv8>, at: int, address: nat, start: nat, end: nat)
    requires |value| == |mask| == 4 <= w && start < end <= 4 && Mapped(m.Keys, address, w)
    requires at <= address + start && address + end <= at + |data|
    requires Selects(value, mask, data, at, address, start, end, 4)
    requires Copied(m, r, address, Masked(Fetch(m, address, w), value, mask), 0, w)
    ensures Copied(m, r, at, data, address + start - at, address + end - at)
  {
    var word := Masked(Fetch(m, address, w), value, mask);
    forall i | 0 <= i < w
      ensures word[i] == if start <= i < end then data[address + i - at] else m[address + i]
    {
      if i < 4 {
        assert word[i] == (m[address + i] & !mask[i]) | value[i];
      }
    }
    forall x | x in m
      ensures r[x] == if address + start <= x < address + end then data[x - at] else m[x]
    {
      if address <= x < address + w {
        assert r[x] == word[x - address];
      }
    }
  }

  class Thread {
    var bytes: Memory      // memory of the thread's process
    var dead: bool
    var clock: nat         // ptrace requests so far
    const wordSize: nat    // sizeof(unsigned long)
    const fails: nat -> bool  // does the n-th ptrace request fail?

    predicate Valid()
    {
      wordSize == 4 || wordSize == 8
    }

    /** PTRACE_PEEKTEXT */
    method PtraceRead(address: nat) returns (ok: bool, word: Word)
      requires Valid() && address % 4 == 0
      modifies this`clock
      ensures clock == old(clock) + 1
      ensures ok <==> Mapped(bytes.Keys, address, wordSize) && !fails(old(clock))
      ensures ok ==> word == Fetch(bytes, address, wordSize)
    {
      ok := Mapped(bytes.Keys, address, wordSize) && !fails(clock);
      clock := clock + 1;
      word := if ok then Fetch(bytes, address, wordSize) else [];
    }

    /** PTRACE_POKETEXT */
    method PtraceWrite(address: nat, word: Word) returns (ok: bool)
      requires Valid() && address % 4 == 0 && |word| == wordSize
      modifies this`clock, this`bytes
      ensures clock == old(clock) + 1
      ensures ok <==> Mapped(old(bytes).Keys, address, wordSize) && !fails(old(clock))
      ensures if ok then Copied(old(bytes), bytes, address, word, 0, wordSize) else bytes == old(bytes)
    {
      ok := Mapped(bytes.Keys, address, wordSize) && !fails(clock);
      clock := clock + 1;
      if ok {
        bytes := map x | x in bytes :: if address <= x < address + wordSize then word[x - address] else bytes[x];
      }
    }

    /** Would the k-th word of a transfer that starts now get through? */
    ghost predicate WordPasses(mapped: set<nat>, start: nat, first: nat, k: nat)
    {
      Mapped(mapped, first + 4 * k, wordSize) && !fails(start + 2 * k) && !fails(start + 2 * k + 1)
    }

    /** Why a transfer stops: one of its requests failed, or an address is not mapped. */
    ghost predicate Blocked(mapped: set<nat>, from: nat, to: nat, lo: nat, hi: nat) {
      (exists n: nat :: from <= n < to && fails(n)) || (exists x: nat :: lo <= x < hi && x !in mapped)
    }

    lemma BlockedWithin(mapped: set<nat>, from: nat, to: nat, lo: nat, hi: nat, from': nat, lo': nat, hi': nat)
      requires Blocked(mapped, from, to, lo, hi) && from' <= from && lo' <= lo && hi <= hi'
      ensures Blocked(mapped, from', to, lo', hi')
    {
      if n: nat :| from <= n < to && fails(n) {
        assert from' <= n < to && fails(n);
      } else {
        var x: nat :| lo <= x < hi && x !in mapped;
        assert lo' <= x < hi' && x !in mapped;
      }
    }

    /** Replace the bytes selected by the mask; value and mask are 32 bits wide whatever
        the size of the word read and written back. */
    method WriteMaskedWord(address: nat, value: Word, mask: Word) returns (ok: bool)
      requires Valid() && address % 4 == 0 && |value| == |mask| == 4
      requires forall i :: 0 <= i < 4 ==> (!mask[i] & value[i]) == 0
      modifies this`clock, this`bytes
      ensures clock >= old(clock) && (ok ==> clock == old(clock) + 2)
      ensures ok <==> WordPasses(old(bytes).Keys, old(clock), address, 0)
      ensures !ok ==> Blocked(old(bytes).Keys, old(clock), clock, address, address + 8)
      ensures if ok
              then Copied(old(bytes), bytes, address,
                          Masked(Fetch(old(bytes), address, wordSize), value, mask), 0, wordSize)
              else bytes == old(bytes)
    {
      var t: Word;
      ok, t := PtraceRead(address);
      if !ok {
        return;
      }
      t := Masked(t, value, mask);
      ok := PtraceWrite(address, t);
    }

    /** Write the bytes start up to end of the word at address, data[0] being due at the
        address at.  (The source advances address and the data pointer together.) */
    method WriteShiftWord(address: nat, data: seq<bv8>, at: int, start: nat, end: nat) returns (written: nat)
      requires Valid() && address % 4 == 0 && start < end <= 4
      requires at <= address + start && address + end <= at + |data|
      modifies this`clock, this`bytes
      ensures clock >= old(clock) && (written != 0 ==> clock == old(clock) + 2)
      ensures written == if WordPasses(old(bytes).Keys, old(clock), address, 0) then end - start else 0
      ensures written == 0 ==> Blocked(old(bytes).Keys, old(clock), clock, address, address + 8)
      ensures Copied(old(bytes), bytes, at, data, address + start - at, address + start + written - at)
    {
      var value, mask := SelectBytes(data, at, address, start, end);
      var ok := WriteMaskedWord(address, value, mask);
      if ok {
        MaskedIsCopy(old(bytes), bytes, wordSize, value, mask, data, at, address, start, end);
      }
      written := if ok then end - start else 0;
    }

    /** The same, for a transfer that started in memory m and has written some bytes so far. */
    method WriteNextWord(address: nat, data: seq<bv8>, at: nat, start: nat, end: nat, ghost m: Memory, ghost done: nat)
      returns (now: nat)
      requires Valid() && address % 4 == 0 && start < end <= 4
      requires at + done == address + start && address + end <= at + |data|
      requires Copied(m, bytes, at, data, 0, done)
      modifies this`clock, this`bytes
      ensures clock >= old(clock) && (now != 0 ==> clock == old(clock) + 2)
      ensures now == if WordPasses(m.Keys, old(clock), address, 0) then end - start else 0
      ensures now == 0 ==> Blocked(m.Keys, old(clock), clock, address, address + 8)
      ensures Copied(m, bytes, at, data, 0, done + now)
    {
      now := WriteShiftWord(address, data, at, start, end);
      CopyMore(m, old(bytes), bytes, at, data, done, done + now);
    }

    method WriteShift(address: nat, data: seq<bv8>, start: nat, end: nat) returns (written: nat)
      requires Valid() && address % 4 == 0 && start < 4 && start < end && end - start <= |data|
      modifies this`clock, this`bytes
      ensures clock >= old(clock) && written <= end - start
      ensures Copied(old(bytes), bytes, address + start, data, 0, written)
      ensures Stops(old(bytes).Keys, old(clock), address, start, end, written)
      ensures written < end - start ==> Blocked(old(bytes).Keys, old(clock), clock, address, address + end + 8)
    {
      hide *;
      written := 0;
      ghost var m, mapped, c, k := bytes, bytes.Keys, clock, 0;
      var at, a, lo, hi := address + start, address, start, end;
      NothingYet(m, mapped, at, data, c, address);
      while true
        invariant a == address + 4 * k && a % 4 == 0 && hi == end - 4 * k
        invariant lo == (if k == 0 then start else 0) && lo < hi && at + written == a + lo
        invariant clock == c + 2 * k
        invariant Copied(m, bytes, at, data, 0, written)
        invariant AllPass(mapped, c, address, k)
        decreases hi
      {
        var now := WriteNextWord(a, data, at, lo, if hi >= 4 then 4 else hi, m, written);
        PassesShifted(mapped, c, address, k);
        written := written + now;
        if now == 0 || hi <= 4 {
          if now == 0 {
            BlockedWithin(mapped, c + 2 * k, clock, a, a + 8, c, address, address + end + 8);
          }
          StopsHere(mapped, c, address, start, end, written, if now == 0 then k else k + 1);
          return;
        }
        a, lo, hi, k := a + 4, 0, hi - 4, k + 1;
      }
    }

    lemma NothingYet(m: Memory, mapped: set<nat>, at: int, data: seq<bv8>, now: nat, first: nat)
      ensures Copied(m, m, at, data, 0, 0) && AllPass(mapped, now, first, 0)
    {
    }

    /** The number of bytes written: all of them when every word gets through, else those
        that lie before the first word that does not. */
    ghost predicate Stops(mapped: set<nat>, now: nat, first: nat, start: nat, end: nat, written: int) {
      exists k: nat :: StopsAt(mapped, now, first, start, end, written, k)
    }

    ghost predicate StopsAt(mapped: set<nat>, now: nat, first: nat, start: nat, end: nat, written: int, k: nat) {
      && AllPass(mapped, now, first, k)
      && (4 * k >= end || !WordPasses(mapped, now, first, k))
      && 4 * k < end + 4
      && written == if k == 0 then 0 else (if 4 * k < end then 4 * k else end) - start
    }

    ghost predicate AllPass(mapped: set<nat>, now: nat, first: nat, k: nat) {
      forall j :: 0 <= j < k ==> WordPasses(mapped, now, first, j)
    }

    lemma PassesShifted(mapped: set<nat>, now: nat, first: nat, k: nat)
      requires AllPass(mapped, now, first, k)
      ensures WordPasses(mapped, now + 2 * k, first + 4 * k, 0) <==> AllPass(mapped, now, first, k + 1)
      ensures WordPasses(mapped, now + 2 * k, first + 4 * k, 0) <==> WordPasses(mapped, now, first, k)
    {
      assert WordPasses(mapped, now + 2 * k, first + 4 * k, 0) <==> WordPasses(mapped, now, first, k);
    }

    lemma StopsHere(mapped: set<nat>, now: nat, first: nat, start: nat, end: nat, written: int, k: nat)
      requires AllPass(mapped, now, first, k) && (4 * k >= end || !WordPasses(mapped, now, first, k)) && 4 * k < end + 4
      requires written == if k == 0 then 0 else (if 4 * k < end then 4 * k else end) - start
      ensures Stops(mapped, now, first, start, end, written)
    {
      assert StopsAt(mapped, now, first, start, end, written, k);
    }

    /** Bytes that got through were mapped. */
    lemma StopsInMapped(mapped: set<nat>, now: nat, first: nat, start: nat, end: nat, written: int)
      requires Valid() && Stops(mapped, now, first, start, end, written) && 0 <= written && start < 4
      ensures Mapped(mapped, first + start, written)
    {
      var k: nat :| StopsAt(mapped, now, first, start, end, written, k);
      forall x | first + start <= x < first + start + written
        ensures x in mapped
      {
        var j := (x - first) / 4;
        assert WordPasses(mapped, now, first, j);
      }
    }

    method MemWrite(address: nat, data: seq<bv8>) returns (written: nat)
      requires Valid()
      requires |data| == 0 || TransferSize(address, |data|) > 0
      modifies this
      ensures clock >= old(clock) && written <= |data|
      ensures Copied(old(bytes), bytes, address, data, 0, written) && Mapped(bytes.Keys, address, written)
      ensures old(dead) || |data| == 0 ==> written == 0
      ensures !old(dead) && |data| > 0 ==>
          Stops(old(bytes).Keys, old(clock), address - address % 4, address % 4,
                address % 4 + TransferSize(address, |data|), written)
      ensures written == |data| ==> dead == old(dead)
      ensures old(dead) ==> dead
      ensures !old(dead) && written < TransferSize(address, |data|) ==>
          Blocked(old(bytes).Keys, old(clock), clock, address - address % 4, address + |data| + 8)
    {
      written := 0;
      assert Copied(old(bytes), bytes, address, data, 0, written);
      if dead {
        return;
      }
      if |data| != 0 {
        var first := address - address % 4;
        var end := (address + |data| - first) % UINT_RANGE;
        assert end == address % 4 + TransferSize(address, |data|);
        written := WriteShift(first, data, address - first, end);
        StopsInMapped(old(bytes).Keys, old(clock), first, address - first, end, written);
      }
      if written < |data| {
        dead := *;
      }
    }

    /** Reading goes through procfs, needs no alignment and may come back short. */
    method MemRead(address: nat, count: nat) returns (data: seq<bv8>)
      modifies this`dead
      ensures |data| <= count && Mapped(bytes.Keys, address, |data|) && data == Fetch(bytes, address, |data|)
      ensures (|data| == count ==> dead == old(dead)) && (old(dead) ==> dead)
    {
      data := [];
      while |data| < count && !dead && address + |data| in bytes
        invariant |data| <= count && Mapped(bytes.Keys, address, |data|)
        invariant data == Fetch(bytes, address, |data|)
      {
        var interrupted: bool := *;
        if interrupted {
          break;
        }
        data := data + [bytes[address + |data|]];
      }
      if |data| < count && !dead {
        dead := *;
      }
    }
  }
}
