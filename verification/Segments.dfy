/**
 The segments that the tracer knows of a process, and how they follow the kernel's map.
 */
module Segments {
  import opened Basics
  import opened Numbers

  type Address = nat

  /** A mapping as the kernel reports it. */
  datatype Mapping = Mapping(start: Address, end: Address, filename: Option<string>, offset: nat, flags: nat)

  datatype State = New | Old | Deleted

  /** What the tracer attached to a segment. */
  datatype Trace = Trace(injection: Option<nat>, tracepoints: set<Address>, trampolines: Address)

  const Untraced: Trace := Trace(None, {}, 0)

  /** A segment record; record tells records apart. */
  datatype Segment = Segment(mapping: Mapping, state: State, record: nat, trace: Trace)

  /** segment_equal: access rights are not compared. */
  predicate Equal(a: Mapping, b: Mapping) {
    && a.start == b.start && a.end == b.end
    && a.filename.Some? == b.filename.Some?
    && (a.filename.Some? ==> a.offset == b.offset && a.filename == b.filename)
  }

  // ----- The kernel's map -----

  /** The mappings that are reported; empty ones are skipped. */
  function Reported(report: seq<Mapping>): map<Address, Mapping> {
    if report == [] then map[]
    else
      var m := report[|report| - 1];
      if m.start == m.end then Reported(report[..|report| - 1]) else Reported(report[..|report| - 1])[m.start := m]
  }

  predicate DistinctStarts(report: seq<Mapping>) {
    forall i, j :: 0 <= i < j < |report| && report[i].start != report[i].end && report[j].start != report[j].end ==>
        report[i].start != report[j].start
  }

  lemma {:induction false} ReportedAt(report: seq<Mapping>, a: Address)
    requires a in Reported(report)
    ensures exists i ::
              0 <= i < |report| && report[i].start != report[i].end && report[i].start == a
              && report[i] == Reported(report)[a]
    decreases |report|
  {
    var n := |report| - 1;
    if report[n].start != report[n].end && report[n].start == a {
      assert report[n] == Reported(report)[a];
    } else {
      ReportedAt(report[..n], a);
      var i :| 0 <= i < n && report[..n][i].start != report[..n][i].end && report[..n][i].start == a
        && report[..n][i] == Reported(report[..n])[a];
      assert report[i] == Reported(report)[a];
    }
  }

  type Tracked = map<Address, Segment>

  /** Every segment is in the tree under its start. */
  predicate Keyed(s: Tracked) { forall a :: a in s ==> s[a].mapping.start == a }

  predicate RecordsBelow(s: Tracked, next: nat) { forall a :: a in s ==> s[a].record < next }

  /** The segment that the tracer has at a is the one reported there. */
  predicate Kept(s: Tracked, r: map<Address, Mapping>, a: Address) { a in s && a in r && Equal(r[a], s[a].mapping) }

  predicate Changed(s: Tracked, r: map<Address, Mapping>, a: Address) { a in s && a in r && !Equal(r[a], s[a].mapping) }

  /** All marked as deleted, and then those that were reported noted. */
  ghost predicate Noted(s: Tracked, r: map<Address, Mapping>, artificial: iset<Address>, next: nat, s': Tracked) {
    && (forall a :: a in s' <==> a in s || (a in r && a !in artificial))
    && (forall a :: a in s ==> s'[a] == s[a].(state := if Kept(s, r, a) then Old else Deleted))
    && (forall a :: a in s' && a !in s ==>
          && s'[a].mapping == r[a] && s'[a].state == New && s'[a].trace == Untraced
          && s'[a].record >= next)
  }

  /** What one pass makes of the tracked segments. */
  ghost predicate Reconciled(s: Tracked, r: map<Address, Mapping>, artificial: iset<Address>, setup: Mapping -> Trace,
                             next: nat, s': Tracked) {
    && (forall a :: a in s' <==> Kept(s, r, a) || (a in r && a !in s && a !in artificial))
    && (forall a :: Kept(s, r, a) ==> s'[a] == s[a].(state := Old))
    && (forall a :: a in s' && a !in s ==>
          s'[a] == Segment(r[a], Old, s'[a].record, setup(r[a])) && s'[a].record >= next)
  }

  /** What a rescan makes of them: exactly what is reported, except for artificial segments
      that were not tracked as they are. */
  ghost predicate Rescanned(s: Tracked, r: map<Address, Mapping>, artificial: iset<Address>, setup: Mapping -> Trace,
                            next: nat, s': Tracked) {
    && (forall a :: a in s' <==> Kept(s, r, a) || (a in r && a !in artificial))
    && (forall a :: a in s' ==> Equal(r[a], s'[a].mapping) && s'[a].state == Old)
    && (forall a :: Kept(s, r, a) ==> s'[a] == s[a].(state := Old))
    && (forall a :: a in s' && !Kept(s, r, a) ==>
          s'[a] == Segment(r[a], Old, s'[a].record, setup(r[a])) && s'[a].record >= next)
  }

  /** With nothing changed, one pass is enough. */
  lemma OnePass(s: Tracked, r: map<Address, Mapping>, artificial: iset<Address>, setup: Mapping -> Trace, next: nat,
                s': Tracked)
    requires Reconciled(s, r, artificial, setup, next, s') && forall a :: !Changed(s, r, a)
    ensures Rescanned(s, r, artificial, setup, next, s')
  {
    forall a | a in r
      ensures a in s ==> Kept(s, r, a)
    {
      assert !Changed(s, r, a);
    }
  }

  /** After a pass nothing is changed any more. */
  lemma SecondIsLast(s: Tracked, r: map<Address, Mapping>, artificial: iset<Address>, setup: Mapping -> Trace,
                     next: nat, s': Tracked, a: Address)
    requires Reconciled(s, r, artificial, setup, next, s')
    ensures !Changed(s', r, a)
  {
  }

  lemma TwoPasses(s: Tracked, r: map<Address, Mapping>, artificial: iset<Address>, setup: Mapping -> Trace, next: nat,
                  next': nat, s1: Tracked, s2: Tracked)
    requires Reconciled(s, r, artificial, setup, next, s1) && Reconciled(s1, r, artificial, setup, next', s2)
    requires next <= next'
    ensures Rescanned(s, r, artificial, setup, next, s2)
  {
    forall a
      ensures Kept(s, r, a) ==> Kept(s1, r, a)
      ensures Kept(s1, r, a) ==> Kept(s, r, a) || (a in r && a !in s && a !in artificial)
    {
    }
  }

  /** With no tracked segment at an artificial address, exactly the others are tracked. */
  lemma TracksReported(s: Tracked, r: map<Address, Mapping>, artificial: iset<Address>, setup: Mapping -> Trace,
                       next: nat, s': Tracked)
    requires Rescanned(s, r, artificial, setup, next, s') && forall a :: a in s ==> a !in artificial
    ensures forall a :: a in s' <==> a in r && a !in artificial
    ensures forall a :: a in s' ==> Equal(r[a], s'[a].mapping)
  {
  }

  /** What segment_equal does not see: other access rights, or another offset of memory that is
      not mapped from a file. */
  predicate DiffersUnseen(a: Mapping, b: Mapping) {
    a.flags != b.flags || (a.filename.None? && a.offset != b.offset)
  }

  /** A tracked segment is what is reported exactly unless it was tracked before and differs
      in something that is not compared. */
  lemma TracksMappingIff(s: Tracked, r: map<Address, Mapping>, artificial: iset<Address>, setup: Mapping -> Trace,
                         next: nat, s': Tracked, a: Address)
    requires Rescanned(s, r, artificial, setup, next, s') && a in s'
    ensures s'[a].mapping == r[a] <==> !(Kept(s, r, a) && DiffersUnseen(s[a].mapping, r[a]))
  {
    assert Equal(r[a], s'[a].mapping);
  }

  /** An anonymous segment that loses all access rights stays readable in the records. */
  lemma RightsAreNotUpdated(setup: Mapping -> Trace, s': Tracked)
    requires var readable, hidden := Mapping(0x1000, 0x2000, None, 0, 4), Mapping(0x1000, 0x2000, None, 0, 0);
             Rescanned(map[0x1000 := Segment(readable, Old, 0, Untraced)], map[0x1000 := hidden], iset{}, setup, 1, s')
    ensures 0x1000 in s' && s'[0x1000].mapping.flags == 4
  {
    var s: Tracked := map[0x1000 := Segment(Mapping(0x1000, 0x2000, None, 0, 4), Old, 0, Untraced)];
    assert Kept(s, map[0x1000 := Mapping(0x1000, 0x2000, None, 0, 0)], 0x1000);
  }

  /** Scanning the same map once more changes nothing. */
  lemma RescanIsIdempotent(s: Tracked, r: map<Address, Mapping>, artificial: iset<Address>, setup: Mapping -> Trace,
                           next: nat, s': Tracked, next': nat, s'': Tracked)
    requires Rescanned(s, r, artificial, setup, next, s') && Rescanned(s', r, artificial, setup, next', s'')
    ensures s'' == s'
  {
    forall a
      ensures a in s' <==> a in s''
      ensures a in s' ==> s''[a] == s'[a]
    {
      assert a in s' ==> Kept(s', r, a);
    }
  }

  // ----- Addresses and offsets in the mapped file -----

  // Addresses and offsets are machine words.

  predicate Contains(m: Mapping, a: Address) { m.start <= a < m.end }

  function OffsetToAddress(m: Mapping, offset: nat): Address {
    var result := (m.start + offset - m.offset) % K64;
    if result < m.start || result >= m.end then 0 else result
  }

  function AddressToOffset(m: Mapping, a: Address): nat
    requires Contains(m, a)
  {
    (a - m.start + m.offset) % K64
  }

  /** A machine word that wraps around once at most. */
  lemma WrapsOnce(x: int)
    requires -K64 <= x < 2 * K64
    ensures x % K64 == if x < 0 then x + K64 else if x < K64 then x else x - K64
  {
    if x < 0 {
      DivUnique(x, K64, -1, x + K64);
    } else if x < K64 {
      DivUnique(x, K64, 0, x);
    } else {
      DivUnique(x, K64, 1, x - K64);
    }
  }

  /** The two translations are inverse; address 0 is the failure value. */
  lemma TranslationsInvert(m: Mapping, a: Address, offset: nat)
    requires m.end <= K64 && m.offset < K64 && offset < K64
    ensures Contains(m, a) ==> OffsetToAddress(m, AddressToOffset(m, a)) == a
    ensures OffsetToAddress(m, offset) != 0 ==>
      Contains(m, OffsetToAddress(m, offset)) && AddressToOffset(m, OffsetToAddress(m, offset)) == offset
  {
    if Contains(m, a) {
      WrapsOnce(a - m.start + m.offset);
      WrapsOnce(m.start + AddressToOffset(m, a) - m.offset);
    }
    if OffsetToAddress(m, offset) != 0 {
      WrapsOnce(m.start + offset - m.offset);
      WrapsOnce(OffsetToAddress(m, offset) - m.start + m.offset);
    }
  }

  /** A translation fails exactly for offsets that no byte of the segment has. */
  lemma TranslationFailsIff(m: Mapping, offset: nat)
    requires 0 < m.start && m.end <= K64 && m.offset < K64 && offset < K64
    ensures OffsetToAddress(m, offset) == 0 <==> !exists a :: Contains(m, a) && AddressToOffset(m, a) == offset
  {
    if OffsetToAddress(m, offset) != 0 {
      TranslationsInvert(m, OffsetToAddress(m, offset), offset);
    } else {
      forall a | Contains(m, a)
        ensures AddressToOffset(m, a) != offset
      {
        TranslationsInvert(m, a, offset);
      }
    }
  }

  // ----- The steps of a pass -----

  function Marked(s: Tracked): Tracked { map a | a in s :: s[a].(state := Deleted) }

  /** One line of the kernel's map. */
  function Noticed(s: Tracked, m: Mapping, artificial: iset<Address>, next: nat): Tracked {
    if m.start in s then
      if Equal(m, s[m.start].mapping) then s[m.start := s[m.start].(state := Old)] else s
    else if m.start in artificial then s
    else s[m.start := Segment(m, New, next, Untraced)]
  }

  function Settled(g: Segment, setup: Mapping -> Trace): Segment {
    if g.state == New then g.(state := Old, trace := setup(g.mapping)) else g
  }

  function Swept(s: Tracked, setup: Mapping -> Trace): Tracked {
    map a | a in s && s[a].state != Deleted :: Settled(s[a], setup)
  }

  lemma MarkedIsNoted(s: Tracked, artificial: iset<Address>, next: nat)
    ensures Noted(s, map[], artificial, next, Marked(s))
  {
  }

  lemma NoticedIsNoted(s: Tracked, r: map<Address, Mapping>, artificial: iset<Address>, next: nat, next': nat,
                       s': Tracked, m: Mapping)
    requires Keyed(s) && Noted(s, r, artificial, next, s') && m.start !in r && next <= next'
    ensures Noted(s, r[m.start := m], artificial, next, Noticed(s', m, artificial, next'))
  {
    var r', s'' := r[m.start := m], Noticed(s', m, artificial, next');
    forall a | a in s
      ensures s''[a] == s[a].(state := if Kept(s, r', a) then Old else Deleted)
    {
      assert a != m.start ==> Kept(s, r', a) == Kept(s, r, a);
    }
  }

  lemma SweptIsReconciled(s: Tracked, r: map<Address, Mapping>, artificial: iset<Address>, next: nat, s': Tracked,
                          setup: Mapping -> Trace)
    requires Noted(s, r, artificial, next, s')
    ensures Reconciled(s, r, artificial, setup, next, Swept(s', setup))
  {
  }

  ghost predicate AnyChanged(s: Tracked, r: map<Address, Mapping>) { exists a :: Changed(s, r, a) }

  lemma OneMoreChanged(s: Tracked, r: map<Address, Mapping>, m: Mapping)
    requires m.start !in r
    ensures AnyChanged(s, r[m.start := m]) <==> AnyChanged(s, r) || Changed(s, r[m.start := m], m.start)
  {
    var r' := r[m.start := m];
    forall a
      ensures a != m.start ==> Changed(s, r', a) == Changed(s, r, a)
      ensures !Changed(s, r, m.start)
    {
    }
    if AnyChanged(s, r) {
      var a :| Changed(s, r, a);
      assert Changed(s, r', a);
    }
    if AnyChanged(s, r') {
      var a :| Changed(s, r', a);
      assert a != m.start ==> Changed(s, r, a);
    }
  }

  lemma NotYetReported(report: seq<Mapping>, i: nat)
    requires DistinctStarts(report) && i < |report| && report[i].start != report[i].end
    ensures report[i].start !in Reported(report[..i])
  {
    if report[i].start in Reported(report[..i]) {
      ReportedAt(report[..i], report[i].start);
      assert false;
    }
  }

  class Process {
    var segments: Tracked
    var next: nat
    /** Addresses of segments that the tracer created. */
    const artificial: iset<Address>
    /** What injections_init and tracepoints_init make of a new segment. */
    const setup: Mapping -> Trace

    ghost predicate Valid()
      reads this
    {
      Keyed(segments) && RecordsBelow(segments, next)
    }

    constructor (artificial: iset<Address>, setup: Mapping -> Trace)
      ensures Valid() && segments == map[] && this.artificial == artificial && this.setup == setup
    {
      segments, next, this.artificial, this.setup := map[], 0, artificial, setup;
    }

    method MarkDeleted()
      modifies this`segments
      ensures segments == Marked(old(segments))
    {
      var left := segments.Keys;
      while left != {}
        invariant left <= segments.Keys == old(segments).Keys
        invariant forall a :: a in segments ==>
                  segments[a] == if a in left then old(segments)[a] else old(segments)[a].(state := Deleted)
        decreases left
      {
        var a :| a in left;
        segments := segments[a := segments[a].(state := Deleted)];
        left := left - {a};
      }
    }

    /** The callback of the scan: again, if the segment at this address is a different one. */
    method Notify(m: Mapping) returns (again: bool)
      modifies this
      ensures segments == Noticed(old(segments), m, artificial, old(next))
      ensures again == (m.start in old(segments) && !Equal(m, old(segments)[m.start].mapping))
      ensures old(next) <= next && (old(Valid()) ==> Valid())
    {
      again := false;
      if m.start in segments {
        var tracked := segments[m.start];
        if Equal(m, tracked.mapping) {
          segments := segments[m.start := tracked.(state := Old)];
        } else {
          again := true;
        }
      } else if m.start !in artificial {
        segments := segments[m.start := Segment(m, New, next, Untraced)];
        next := next + 1;
      }
    }

    method ScanReport(report: seq<Mapping>, ghost s: Tracked) returns (again: bool)
      requires Valid() && Keyed(s) && segments == Marked(s) && DistinctStarts(report)
      modifies this
      ensures Valid() && old(next) <= next
      ensures Noted(s, Reported(report), artificial, old(next), segments)
      ensures again == AnyChanged(s, Reported(report))
    {
      MarkedIsNoted(s, artificial, next);
      again := false;
      for i := 0 to |report|
        invariant Valid() && old(next) <= next
        invariant Noted(s, Reported(report[..i]), artificial, old(next), segments)
        invariant again == AnyChanged(s, Reported(report[..i]))
      {
        var m := report[i];
        assert report[..i + 1][..i] == report[..i];
        if m.start == m.end {
          continue;
        }
        NotYetReported(report, i);
        NoticedIsNoted(s, Reported(report[..i]), artificial, old(next), next, segments, m);
        OneMoreChanged(s, Reported(report[..i]), m);
        var changed := Notify(m);
        again := again || changed;
      }
      assert report[..|report|] == report;
    }

    method Sweep()
      requires Valid()
      modifies this`segments
      ensures segments == Swept(old(segments), setup) && Valid()
    {
      var left := segments.Keys;
      while left != {}
        invariant left <= segments.Keys <= old(segments).Keys
        invariant forall a :: a in old(segments) ==> (a in segments <==> a in left || old(segments)[a].state != Deleted)
        invariant forall a :: a in segments ==>
                  segments[a] == if a in left then old(segments)[a] else Settled(old(segments)[a], setup)
        decreases left
      {
        var a :| a in left;
        match segments[a].state {
          case New => segments := segments[a := segments[a].(state := Old, trace := setup(segments[a].mapping))];
          case Deleted => segments := segments - {a};
          case Old =>
        }
        left := left - {a};
      }
    }

    method Pass(report: seq<Mapping>) returns (again: bool)
      requires Valid() && DistinctStarts(report)
      modifies this
      ensures Valid() && old(next) <= next
      ensures Reconciled(old(segments), Reported(report), artificial, setup, old(next), segments)
      ensures again == AnyChanged(old(segments), Reported(report))
    {
      MarkDeleted();
      again := ScanReport(report, old(segments));
      SweptIsReconciled(old(segments), Reported(report), artificial, old(next), segments, setup);
      Sweep();
    }

    /** segment_rescan against a map that does not change meanwhile; passes counts the scans. */
    method Rescan(report: seq<Mapping>) returns (passes: nat)
      requires Valid() && DistinctStarts(report)
      modifies this
      ensures Valid() && old(next) <= next
      ensures passes == if AnyChanged(old(segments), Reported(report)) then 2 else 1
      ensures Rescanned(old(segments), Reported(report), artificial, setup, old(next), segments)
    {
      ghost var s0, next0 := segments, next;
      var again := Pass(report);
      passes := 1;
      while again
        invariant Valid() && next0 <= next && passes <= 2
        invariant passes == 1 ==>
                  Reconciled(s0, Reported(report), artificial, setup, next0, segments)
                    && again == AnyChanged(s0, Reported(report))
        invariant passes == 2 ==>
                  !again && AnyChanged(s0, Reported(report))
                    && Rescanned(s0, Reported(report), artificial, setup, next0, segments)
        invariant passes > 0
        decreases 2 - passes
      {
        ghost var s1, next1 := segments, next;
        again := Pass(report);
        assert !again by {
          forall a
            ensures !Changed(s1, Reported(report), a)
          {
            SecondIsLast(s0, Reported(report), artificial, setup, next0, s1, a);
          }
        }
        TwoPasses(s0, Reported(report), artificial, setup, next0, next1, s1, segments);
        passes := passes + 1;
      }
      if passes == 1 {
        OnePass(s0, Reported(report), artificial, setup, next0, segments);
      }
    }
  }
}
