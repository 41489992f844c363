/**
 The search for free memory and the installer together: is a place that the scan offers one
 where trampolines can go?
 */
module Placement {

  import opened Inferior
  import opened Branches
  import opened Tracepoints
  import opened Installer
  import opened Basics
  import GapScan

  /** The scan knows of all the memory but own, which the tracer has mapped itself, and its
      unused segments are unused. */
  ghost predicate Covers(segs: seq<GapScan.Seg>, m: Memory, own: iset<nat>, unused: iset<nat>) {
    && (forall x :: x in m && x !in own ==> exists s :: s in segs && GapScan.Contains(s, x))
    && (forall s, x: nat :: s in segs && s.unused && GapScan.Contains(s, x) ==> x in unused)
  }

  /** Has the tracer mapped nothing of its own in the range? */
  ghost predicate NoneOwn(m: Memory, own: iset<nat>, lo: nat, hi: nat) {
    forall x :: x in m && lo <= x < hi ==> x !in own
  }

  /** find_coherent: where an offer puts so many bytes of trampolines, if it is large enough */
  function PlaceOf(o: GapScan.Offer, size: nat): Place {
    match o
    case Gap(start, room) => if AlignToPage(size) <= room then Place.Gap(start) else Nowhere
    case Steal(seg) =>
      if AlignToPage(size) <= seg.end - seg.start then Stolen(seg.start) else Nowhere
  }

  lemma OffersAreSpare(o: GapScan.Offer, kind: Kind, segs: seq<GapScan.Seg>, page: nat, low: nat, hi: nat,
                       m: Memory, own: iset<nat>, unused: iset<nat>, size: nat, x: nat)
    requires page > 0 && GapScan.GoodOffer(o, kind, segs, page, low, hi) && Covers(segs, m, own, unused)
    requires Base(PlaceOf(o, size)) <= x < Top(PlaceOf(o, size), size)
    ensures if PlaceOf(o, size).Stolen? then x in unused else x in m ==> x in own
  {
    if o.Steal? {
      assert GapScan.Contains(o.seg, x);
    }
  }

  /** A good offer is a place for the trampolines exactly if the tracer has nothing there
      already: the scan does not know of its trampolines, and they would be mapped over. */
  lemma OfferIsAvailableIff(segment: Segment, o: GapScan.Offer, kind: Kind, segs: seq<GapScan.Seg>,
                            page: nat, top: nat, low: nat, hi: nat, own: iset<nat>, size: nat)
    requires GapScan.GoodLayout(segs, page, top) && GapScan.GoodOffer(o, kind, segs, page, low, hi)
    requires GapScan.Seg(segment.start, segment.end, false) in segs
    requires Covers(segs, segment.process.thread.bytes, own, segment.process.unused)
    ensures var place := PlaceOf(o, size);
            var from, to := Base(place), Top(place, size);
            segment.Available(place, size) <==>
              place.Nowhere?
              || (from > 0 && Avoids(segment.process.recorded, from, to)
                  && (place.Gap? ==> NoneOwn(segment.process.thread.bytes, own, from, to)))
  {
    var place, m, unused := PlaceOf(o, size), segment.process.thread.bytes, segment.process.unused;
    if !place.Nowhere? {
      forall x: nat | Base(place) <= x < Top(place, size)
        ensures if place.Stolen? then x in unused else x in m ==> x in own
      {
        OffersAreSpare(o, kind, segs, page, low, hi, m, own, unused, size, x);
      }
      if o.Steal? {
        assert GapScan.DisjointSegs(o.seg, GapScan.Seg(segment.start, segment.end, false));
      }
    }
  }

  /** For one, a free page just below the segment, in a process without other tracepoints. */
  lemma PageBelowIsAvailable(segment: Segment, size: nat)
    requires segment.start > PAGE_SIZE && 0 < size <= PAGE_SIZE && segment.process.recorded == map[]
    requires forall x: nat :: segment.start <= x + PAGE_SIZE && x < segment.start ==> x !in segment.process.thread.bytes
    ensures segment.Available(Place.Gap(segment.start - PAGE_SIZE), size)
  {
    assert AlignToPage(size) == PAGE_SIZE;
  }

  /** Trampolines in a good offer are reached by branches, so the traced instructions need no
      breakpoints. */
  lemma OfferNeedsNoBreakpoint(o: GapScan.Offer, kind: Kind, segs: seq<GapScan.Seg>, page: nat, low: nat, hi: nat,
                               size: nat, tp: Tracepoint)
    requires page > 0 && GapScan.GoodOffer(o, kind, segs, page, low, hi)
    requires tp.kind == kind && low <= tp.address <= hi && !PlaceOf(o, size).Nowhere?
    requires Inside(tp, Base(PlaceOf(o, size)), size) && tp.template.size > 0
    ensures EntryFallback(tp) == map[]
  {
    var start := Base(PlaceOf(o, size));
    var end := if o.Gap? then start + o.size else o.seg.end;
    assert GapScan.ReachedFrom(kind, low, hi, start, end);
    assert start <= tp.trampoline < end;
  }

  // ----- Mapping over an offer -----

  /** allocate_trampoline maps the trampolines at an offer.  All memory that the scan knows of
      is kept; but it does not know of other trampolines, and of those that were in memory,
      exactly those stay that have nothing but zeros in the room. */
  method MapOffer(segment: Segment, o: GapScan.Offer, kind: Kind, segs: seq<GapScan.Seg>, page: nat, low: nat, hi: nat,
                  ghost own: iset<nat>)
    requires page > 0 && GapScan.GoodOffer(o, kind, segs, page, low, hi)
    requires Covers(segs, segment.process.thread.bytes, own, segment.process.unused)
    requires !PlaceOf(o, segment.trampolinesSize).Nowhere?
    modifies segment`trampolines, segment`stolen, segment.process.thread`bytes
    ensures var place, m, m' := PlaceOf(o, segment.trampolinesSize), old(segment.process.thread.bytes),
                                segment.process.thread.bytes;
            && (forall x :: x in m && x !in own && x !in segment.process.unused ==> x in m' && m'[x] == m[x])
            && forall tp :: segment.process.HasTrampoline(m, tp) ==>
                 (segment.process.HasTrampoline(m', tp)
                  <==> ZerosWithin(segment.process, tp, Base(place), Top(place, segment.trampolinesSize)))
  {
    ghost var m, size, unused := segment.process.thread.bytes, segment.trampolinesSize, segment.process.unused;
    var place := PlaceOf(o, segment.trampolinesSize);
    segment.MapTrampolines(place);
    ghost var m' := segment.process.thread.bytes;
    forall x | x in m && x !in own && x !in unused
      ensures x in m' && m'[x] == m[x]
    {
      if Base(place) <= x < Top(place, size) {
        OffersAreSpare(o, kind, segs, page, low, hi, m, own, unused, size, x);
      }
    }
    ZeroedByMapping(m, m', Base(place), Top(place, size));
    forall tp | segment.process.HasTrampoline(m, tp)
      ensures segment.process.HasTrampoline(m', tp) <==> ZerosWithin(segment.process, tp, Base(place), Top(place, size))
    {
      TrampolineStaysIff(segment.process, m, m', tp, Base(place), Top(place, size));
    }
  }

  /** The code of the trampoline is zero between the addresses, if it reaches there. */
  ghost predicate ZerosWithin(process: Process, tp: Tracepoint, lo: nat, hi: nat) {
    forall i :: 0 <= i < |process.code(tp)| && lo <= tp.trampoline + i < hi ==> process.code(tp)[i] == 0
  }

  /** The bytes between the addresses become zero, and the others stay. */
  ghost predicate ZeroedFrom(m: Memory, m': Memory, lo: nat, hi: nat) {
    forall x :: x in m ==> x in m' && m'[x] == if lo <= x < hi then 0 else m[x]
  }

  lemma ZeroedByMapping(m: Memory, m': Memory, lo: nat, hi: nat)
    requires lo <= hi && m' == m + Zeros(lo, hi - lo)
    ensures ZeroedFrom(m, m', lo, hi)
  {
    ZerosAre(lo, hi - lo);
  }

  lemma TrampolineStaysIff(process: Process, m: Memory, m': Memory, tp: Tracepoint, lo: nat, hi: nat)
    requires ZeroedFrom(m, m', lo, hi) && process.HasTrampoline(m, tp)
    ensures process.HasTrampoline(m', tp) <==> ZerosWithin(process, tp, lo, hi)
  {
    var code, at := process.code(tp), tp.trampoline;
    if process.HasTrampoline(m', tp) {
      forall i | 0 <= i < |code| && lo <= at + i < hi
        ensures code[i] == 0
      {
        var x := at + i;
        assert m[x] == code[x - at] && m'[x] == code[x - at];
      }
    }
    if ZerosWithin(process, tp, lo, hi) {
      forall x: nat | at <= x < at + |code|
        ensures x in m' && m'[x] == code[x - at]
      {
        var i := x - at;
        assert lo <= at + i < hi ==> code[i] == 0;
      }
    }
  }

  lemma {:induction false} ZerosAre(lo: nat, size: nat)
    ensures forall x :: lo <= x < lo + size ==> Zeros(lo, size)[x] == 0
  {
    if size > 0 {
      ZerosAre(lo, size - 1);
    }
  }

  /** The trampolines stay if the offer avoids them. */
  lemma AvoidedTrampolineStays(process: Process, k: nat, lo: nat, hi: nat)
    requires process.GoodTemplates() && k in process.recorded && Avoids(process.recorded, lo, hi)
    ensures ZerosWithin(process, process.recorded[k], lo, hi)
  {
  }

  // ----- The scan offers other segments' trampolines -----

  /** Three segments in a row, with free pages below. */
  const LAYOUT: seq<GapScan.Seg> := [GapScan.Seg(0x10000, 0x11000, false), GapScan.Seg(0x11000, 0x12000, false),
                                     GapScan.Seg(0x12000, 0x14000, false)]

  lemma LookupInLayout(x: nat)
    ensures GapScan.Lookup(LAYOUT, x) ==
            if 0x10000 <= x < 0x11000 then Some(LAYOUT[0])
            else if 0x11000 <= x < 0x12000 then Some(LAYOUT[1])
            else if 0x12000 <= x < 0x14000 then Some(LAYOUT[2]) else None
  {
    var two, one := LAYOUT[1..], LAYOUT[2..];
    assert two[1..] == one && one[1..] == [];
    assert GapScan.Lookup(one, x) == if GapScan.Contains(LAYOUT[2], x) then Some(LAYOUT[2]) else None;
    assert GapScan.Lookup(two, x) == if GapScan.Contains(LAYOUT[1], x) then Some(LAYOUT[1])
                                     else GapScan.Lookup(one, x);
  }

  lemma LayoutIsGood()
    ensures |LAYOUT| == 3 && LAYOUT[1] == GapScan.Seg(0x11000, 0x12000, false)
    ensures GapScan.RoomToScan(A64, LAYOUT, LAYOUT[1], 0x1000)
  {
    forall s | s in LAYOUT
      ensures s.start < s.end < 0x20000 && s.start % 0x1000 == 0 && s.end % 0x1000 == 0
    {
      assert s == LAYOUT[0] || s == LAYOUT[1] || s == LAYOUT[2];
    }
    forall s, t | s in LAYOUT && t in LAYOUT && s != t
      ensures GapScan.DisjointSegs(s, t)
    {
      assert s == LAYOUT[0] || s == LAYOUT[1] || s == LAYOUT[2];
      assert t == LAYOUT[0] || t == LAYOUT[1] || t == LAYOUT[2];
    }
    assert GapScan.GoodLayout(LAYOUT, 0x1000, AddressRange(A64) - 1);
  }

  lemma PageBelowIsNext(scanner: GapScan.Scanner)
    requires scanner.kind == A64 && scanner.segs == LAYOUT && scanner.page == scanner.maxSize == 0x1000
    requires scanner.addr == 0x11000
    ensures scanner.FirstOffer(1, true, 0x2000, 0x3000, true, true) == Some(GapScan.Gap(0xf000, 0x1000))
  {
    LookupInLayout(0xf000);
    assert scanner.GapSize(0xe000, 0x1000) == 0x1000;
    assert scanner.DownOffer(0x2000) == Some(GapScan.Gap(0xf000, 0x1000));
  }

  /** A scan for the middle segment passes the lower one, then the upper one, and then comes to
      the page below them all. */
  lemma PageBelowIsDue(scanner: GapScan.Scanner)
    requires scanner.Valid() && scanner.AtStart() && scanner.kind == A64 && scanner.segs == LAYOUT
    requires scanner.segment == LAYOUT[1] && scanner.page == scanner.maxSize == 0x1000
    requires scanner.low == scanner.hi == 0x11010
    ensures scanner.Due(GapScan.Gap(0xf000, 0x1000), true)
  {
    assert scanner.addr == 0x11000;
    assert scanner.beoff == 0x1000 && scanner.aboff == 0x1000 && scanner.beReachable && scanner.abReachable;
    PassesLower(scanner);
    PassesUpper(scanner);
    PageBelowIsNext(scanner);
  }

  lemma PassesLower(scanner: GapScan.Scanner)
    requires scanner.kind == A64 && scanner.segs == LAYOUT && scanner.addr == 0x11000 && scanner.hi == 0x11010
    ensures scanner.FirstOffer(5, true, 0x1000, 0x1000, true, true)
         == scanner.FirstOffer(4, true, 0x2000, 0x1000, true, true)
  {
    hide scanner.GapSize, CheckJump;
    LookupInLayout(0x10000);
    InReach(0xf000);
    assert scanner.DownOffer(0x1000).None?;
  }

  lemma PassesUpper(scanner: GapScan.Scanner)
    requires scanner.kind == A64 && scanner.segs == LAYOUT && scanner.addr == 0x11000 && scanner.low == 0x11010
    ensures scanner.FirstOffer(4, true, 0x2000, 0x1000, true, true)
         == scanner.FirstOffer(1, true, 0x2000, 0x3000, true, true)
  {
    hide scanner.GapSize, scanner.DownOffer, CheckJump, GapScan.Lookup;
    LookupInLayout(0x12000);
    InReach(0x14000);
    assert scanner.FirstOffer(4, true, 0x2000, 0x1000, true, true)
        == scanner.FirstOffer(3, false, 0x2000, 0x1000, true, true);
    assert scanner.FirstOffer(2, false, 0x2000, 0x3000, true, true)
        == scanner.FirstOffer(1, true, 0x2000, 0x3000, true, true);
  }

  lemma InReach(x: nat)
    requires 0xf000 <= x <= 0x14000
    ensures CheckJump(A64, 0x11010, x % AddressRange(A64))
  {
  }

  /** Where a scan for the lower segment finds room first. */
  function PageBelow(size: nat): Place { if AlignToPage(size) <= 0x1000 then Place.Gap(0xf000) else Nowhere }

  /** Tracepoints are installed in the lower segment, with their trampolines in the page below.
      The first offer that a scan for the middle segment makes is the same page, because the
      scan does not know of trampolines; and after trampolines of the middle segment have been
      mapped there, those of the lower segment are zeros. */
  method ScanOffersTrampolines(lower: Segment, middle: Segment, targets: seq<nat>, handlers: map<nat, nat>)
    returns (ok: bool, o: GapScan.Offer)
    requires lower.process == middle.process && lower != middle && middle.trampolinesSize <= 0x1000
    requires lower.start == 0x10000 && lower.end == 0x11000 && middle.start == 0x11000 && middle.end == 0x12000
    requires middle.trampolinesSize > 0 && lower.Startable(targets, handlers, PageBelow)
    modifies lower`tracepoints, lower`trampolines, lower`trampolinesSize, lower`stolen
    modifies lower.process`jumps, lower.process`recorded, lower.process.thread
    modifies middle`trampolines, middle`stolen
    ensures ok ==> o == GapScan.Gap(0xf000, 0x1000) && middle.trampolines == lower.trampolines == 0xf000
    ensures ok ==> lower.tracepoints != map[] && forall k :: k in lower.tracepoints ==>
                AllZero(lower.process.thread.bytes, lower.tracepoints[k])
  {
    hide *;
    o := GapScan.Gap(0, 0);
    ghost var failed, from, size;
    var freed;
    ok, freed, failed, from, size := lower.Init(targets, handlers, PageBelow);
    if !ok {
      return;
    }
    PageBelowIs(size);
    PageBelowIs(middle.trampolinesSize);
    LayoutIsGood();
    var scanner := new GapScan.Scanner(A64, LAYOUT, LAYOUT[1], 0x1000, 0x11010, 0x11010, 0x1000);
    PageBelowIsDue(scanner);
    var _ := scanner.Scan();
    o := scanner.offers[0];
    ghost var m := lower.process.thread.bytes;
    middle.MapTrampolines(PlaceOf(o, middle.trampolinesSize));
    TrampolinesZeroed(lower, m, middle.trampolinesSize);
  }

  ghost predicate AllZero(m: Memory, tp: Tracepoint) {
    forall x: nat :: tp.trampoline <= x < tp.trampoline + tp.template.size ==> x in m && m[x] == 0
  }

  lemma PageBelowIs(size: nat)
    ensures 0 < size <= 0x1000 ==> AlignToPage(size) == 0x1000
    ensures !PageBelow(size).Nowhere? ==> size <= 0x1000 && PageBelow(size) == Place.Gap(0xf000)
    ensures 0 < size <= 0x1000 ==> PlaceOf(GapScan.Gap(0xf000, 0x1000), size) == Place.Gap(0xf000)
    ensures Base(Place.Gap(0xf000)) == 0xf000 && !Place.Gap(0xf000).Stolen? && !Place.Gap(0xf000).Nowhere?
  {
  }

  lemma TrampolinesZeroed(lower: Segment, m: Memory, size: nat)
    requires lower.TrampolinesInside() && lower.trampolines == 0xf000 && lower.trampolinesSize <= 0x1000
    requires 0 < size <= 0x1000 && lower.process.thread.bytes == m + Zeros(0xf000, AlignToPage(size))
    ensures forall k :: k in lower.tracepoints ==> AllZero(lower.process.thread.bytes, lower.tracepoints[k])
  {
    PageBelowIs(size);
    ZerosAre(0xf000, 0x1000);
    forall k | k in lower.tracepoints
      ensures AllZero(lower.process.thread.bytes, lower.tracepoints[k])
    {
      assert Inside(lower.tracepoints[k], 0xf000, lower.trampolinesSize);
    }
  }
}
