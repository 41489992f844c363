/**
 The search for free memory around a segment: two cursors move away from the segment, page
 by page through gaps and segment by segment through mapped memory, as long as a branch
 still reaches.
 */
module GapScan {

  import opened Basics
  import opened Branches
  import opened Numbers

  /** A recorded segment; unused says that it is private and has no access rights. */
  datatype Seg = Seg(start: nat, end: nat, unused: bool)

  predicate Contains(seg: Seg, a: nat) { seg.start <= a < seg.end }

  /** segment_get, as a linear search */
  function Lookup(segs: seq<Seg>, a: nat): (r: Option<Seg>)
    ensures r.Some? ==> r.value in segs && Contains(r.value, a)
    ensures r.None? ==> forall s :: s in segs ==> !Contains(s, a)
  {
    if segs == [] then None else if Contains(segs[0], a) then Some(segs[0]) else Lookup(segs[1..], a)
  }

  predicate DisjointSegs(a: Seg, b: Seg) { a.end <= b.start || b.end <= a.start }

  /** Page-aligned, disjoint, and below top. */
  ghost predicate GoodLayout(segs: seq<Seg>, page: nat, top: nat) {
    && page > 0
    && (forall s :: s in segs ==> s.start < s.end <= top && s.start % page == 0 && s.end % page == 0)
    && (forall s, t :: s in segs && t in segs && s != t ==> DisjointSegs(s, t))
  }

  /** Whose turn it is, how far the cursors are from addr, and whether they are within reach. */
  datatype Cursors = Cursors(downwards: bool, be: int, ab: int, down: bool, up: bool)

  datatype Offer = Gap(start: nat, size: nat) | Steal(seg: Seg)

  function Range(kind: Kind): nat { if kind == A64 then JUMP_MAX_A64 else JUMP_MAX_ARM }

  /** Every address of the offer is reached by a branch from every tracepoint. */
  ghost predicate ReachedFrom(kind: Kind, low: nat, hi: nat, start: nat, end: nat) {
    forall a, t :: start <= a < end && low <= t <= hi ==> CheckJump(kind, t, a)
  }

  /** A good offer of the cursor that moves down: whole pages below the segment that no
      segment covers (or a whole unused segment), within reach of all the tracepoints. */
  ghost predicate GoodOffer(o: Offer, kind: Kind, segs: seq<Seg>, page: nat, low: nat, hi: nat)
    requires page > 0
  {
    match o
    case Gap(start, size) =>
      && start % page == 0 && size % page == 0 && size > 0
      && (forall s :: s in segs ==> s.end <= start || start + size <= s.start)
      && ReachedFrom(kind, low, hi, start, start + size)
    case Steal(seg) => seg in segs && seg.unused && ReachedFrom(kind, low, hi, seg.start, seg.end)
  }

  /** A branch is asked about an address below the lowest tracepoint; the answer covers all
      the tracepoints, and everything from there up to them. */
  lemma ReachDownward(kind: Kind, low: nat, hi: nat, c: nat, end: nat)
    requires kind == Arm || kind == A64
    requires hi + 8 < AddressRange(kind) && end <= low <= hi && c < end && CheckJump(kind, hi, c)
    ensures ReachedFrom(kind, low, hi, c, end)
  {
    assert forall t :: low <= t <= hi ==> ReadPc(kind, t) == t + (if kind == Arm then 8 else 0);
  }

  /** What the distance check says about an address that has not wrapped around. */
  lemma ReachBound(kind: Kind, from: nat, to: nat)
    requires (kind == Arm || kind == A64) && from + 8 < AddressRange(kind) && CheckJump(kind, from, to)
    ensures from <= to + Range(kind) && to <= from + 8 + Range(kind)
  {
  }

  /** How far up the upward cursor is within reach of tracepoints in the segment (the
      extension of a gap compares with the wrong side, hence the span). */
  function UpReach(kind: Kind, segment: Seg): nat {
    segment.end + Span(segment) + Range(kind) + 8
  }

  function Span(seg: Seg): nat { if seg.start <= seg.end then seg.end - seg.start else 0 }

  /** The layouts for which addresses that wrap around stay out of reach: the segment is
      further than its span and a branch from the end of the address space; and it is further
      than its span and two branches from the beginning, or the segments that the upward
      cursor can enter do not come close to the end. */
  ghost predicate RoomToScan(kind: Kind, segs: seq<Seg>, segment: Seg, page: nat) {
    && (kind == Arm || kind == A64) && 0 < page <= 0x10_0000
    && GoodLayout(segs, page, AddressRange(kind) - 1) && segment in segs && page <= segment.start
    && UpReach(kind, segment) + 2 * page < AddressRange(kind)
    && (segment.start > Span(segment) + 2 * Range(kind) + 8
        || forall s :: s in segs && s.start <= UpReach(kind, segment) ==>
             s.end + Span(segment) + Range(kind) + 8 < AddressRange(kind))
  }

  lemma AlignedStep(x: int, page: nat)
    requires page > 0 && x % page == 0
    ensures (x - page) % page == 0 && (x + page) % page == 0
  {
    MulDistributes(x / page, -1, page);
    MulDistributes(x / page, 1, page);
    DivUnique(x - page, page, x / page - 1, 0);
    DivUnique(x + page, page, x / page + 1, 0);
  }

  /** Aligned addresses are a page apart. */
  lemma AlignedApart(a: int, b: int, page: nat)
    requires page > 0 && a % page == 0 && b % page == 0 && a < b
    ensures a + page <= b
  {
    if a / page < b / page {
      MulStrict(page, a / page, b / page);
    } else {
      MulMono(page, b / page, a / page);
    }
  }

  /** No segment reaches across x from below. */
  ghost predicate NoStraddle(segs: seq<Seg>, x: int) {
    forall s :: s in segs && s.start < x ==> s.end <= x
  }

  /** A page that is not in a segment at its start is free, and nothing reaches across it. */
  lemma FreePage(segs: seq<Seg>, page: nat, top: nat, c: nat)
    requires GoodLayout(segs, page, top) && c % page == 0 && (forall s :: s in segs ==> !Contains(s, c))
    requires NoStraddle(segs, c + page)
    ensures NoStraddle(segs, c) && forall s :: s in segs ==> s.end <= c || c + page <= s.start
  {
    forall s | s in segs
      ensures s.end <= c || c + page <= s.start
    {
      if s.start > c {
        AlignedApart(c, s.start, page);
      }
    }
  }

  /** A segment at the page that ends at a clean boundary ends there, too. */
  lemma SegmentAtBoundary(segs: seq<Seg>, page: nat, top: nat, seg: Seg, c: nat)
    requires GoodLayout(segs, page, top) && seg in segs && Contains(seg, c) && c % page == 0
    requires NoStraddle(segs, c + page)
    ensures seg.end == c + page && NoStraddle(segs, seg.start)
  {
    AlignedApart(c, seg.end, page);
    forall s | s in segs && s.start < seg.start
      ensures s.end <= seg.start
    {
      assert DisjointSegs(s, seg);
    }
  }

  class Scanner {
    const kind: Kind
    const segs: seq<Seg>
    const segment: Seg
    const page: nat
    const low: nat
    const hi: nat
    const maxSize: nat
    const addr: nat
    var beoff: nat
    var aboff: nat
    var beReachable: bool
    var abReachable: bool
    var offers: seq<Offer>  // what the cursor that moves down has offered

    function Modulus(): nat { AddressRange(kind) }

    ghost predicate Setting() {
      && RoomToScan(kind, segs, segment, page) && segment.start <= low <= hi < segment.end
      && addr % page == 0 && low <= addr + page <= segment.end
    }

    ghost function DownAt(): int
      reads this
    {
      addr - beoff
    }

    ghost predicate DownValid()
      reads this
    {
      && page > 0 && 0 <= DownAt() + page <= segment.start && DownAt() % page == 0
      && NoStraddle(segs, DownAt() + page)
      && (beReachable <==> CheckJump(kind, hi, DownAt() % Modulus()))
      && forall o :: o in offers ==> GoodOffer(o, kind, segs, page, low, hi)
    }

    /** A cursor that has wrapped around is out of reach. */
    lemma DownIsReal()
      requires Setting() && DownValid() && beReachable
      ensures 0 <= DownAt() && DownAt() % Modulus() == DownAt() && CheckJump(kind, hi, DownAt())
      ensures ReachedFrom(kind, low, hi, DownAt(), segment.start)
    {
      var d, m := DownAt(), Modulus();
      if d < 0 {
        DivUnique(d, m, -1, d + m);
        ReachBound(kind, hi, d + m);
      } else {
        DivUnique(d, m, 0, d);
        ReachDownward(kind, low, hi, d, segment.start);
      }
    }

    /** Every free address from x up to the segment has been offered. */
    ghost predicate Covered(x: int)
      reads this
    {
      CoveredBy(offers, x)
    }

    ghost predicate CoveredBy(made: seq<Offer>, x: int) {
      forall a: nat :: x <= a < segment.start && Lookup(segs, a).None? ==> OfferedBy(made, a)
    }

    ghost predicate OfferedBy(made: seq<Offer>, a: nat) {
      exists o :: o in made && o.Gap? && o.start <= a < o.start + o.size
    }

    /** Is it the turn of the cursor that moves down, or up? */
    predicate DownTurn()
      reads this
    {
      beReachable && (beoff <= aboff || !abReachable)
    }

    predicate UpTurn()
      reads this
    {
      abReachable && (aboff <= beoff || !beReachable)
    }

    // ----- What the scan offers first -----

    /** The size of the gap that is offered, if so much has been found above the cursor. */
    ghost function GapSize(at: int, size: nat): (r: nat)
      ensures r >= size
      decreases maxSize - size
    {
      if page > 0 && size < maxSize && CheckJump(kind, hi, at % Modulus()) && Lookup(segs, at % Modulus()).None?
      then GapSize(at - page, size + page)
      else size
    }

    /** The offer of a downward cursor at so many bytes below addr, if there is one. */
    ghost function DownOffer(be: int): Option<Offer> {
      var at := addr - be;
      match Lookup(segs, at % Modulus())
      case None =>
        var size := GapSize(at - page, page);
        if at + page >= size then Some(Gap(at + page - size, size)) else None
      case Some(seg) => if seg.unused && CheckJump(kind, hi, seg.start) then Some(Steal(seg)) else None
    }

    /** Where one round of the downward cursor leads, and whether that is within reach. */
    ghost function DownAfter(be: int): (int, bool) {
      var be' := be + match Lookup(segs, (addr - be) % Modulus())
                      case None => GapSize(addr - be - page, page)
                      case Some(seg) => seg.end - seg.start;
      (be', CheckJump(kind, hi, (addr - be') % Modulus()))
    }

    /** The same for the upward cursor. */
    ghost function UpAfter(ab: int): (int, bool) {
      match Lookup(segs, (addr + ab) % Modulus())
      case None => UpExtended(ab + page, page, CheckJump(kind, low, (addr + (ab + page) + page) % Modulus()))
      case Some(seg) =>
        var ab' := ab + (seg.end - seg.start);
        (ab', CheckJump(kind, low, (addr + ab') % Modulus()))
    }

    ghost function UpExtended(ab: int, size: nat, ok: bool): (int, bool)
      decreases maxSize - size
    {
      if page > 0 && size < maxSize && ok && Lookup(segs, (addr - ab) % Modulus()).None?
      then UpExtended(ab + page, size + page, CheckJump(kind, low, (addr - (ab + page) + page) % Modulus()))
      else (ab, ok)
    }

    /** One step of a scan whose offers are all refused: a round, or a change of turn. */
    ghost function Refused(c: Cursors): Cursors {
      if c.downwards then
        if c.down && (c.be <= c.ab || !c.up) then c.(be := DownAfter(c.be).0, down := DownAfter(c.be).1)
        else c.(downwards := false)
      else if c.up && (c.ab <= c.be || !c.down) then c.(ab := UpAfter(c.ab).0, up := UpAfter(c.ab).1)
      else c.(downwards := true)
    }

    ghost function RefusedTimes(n: nat, c: Cursors): Cursors {
      if n == 0 then c else RefusedTimes(n - 1, Refused(c))
    }

    /** The first offer that the scan makes within n steps -- segments passed and changes of
        turn -- with the cursors at be and ab, in the loop of the one or the other; None if
        there is none, or the upward cursor makes it. */
    ghost function FirstOffer(n: nat, downwards: bool, be: int, ab: int, down: bool, up: bool): Option<Offer> {
      if n == 0 then None
      else if downwards then
        if !(down && (be <= ab || !up)) then FirstOffer(n - 1, false, be, ab, down, up)
        else if DownOffer(be).Some? then DownOffer(be)
        else
          match Lookup(segs, (addr - be) % Modulus())
          case None => None
          case Some(seg) =>
            var be' := be + (seg.end - seg.start);
            FirstOffer(n - 1, true, be', ab, CheckJump(kind, hi, (addr - be') % Modulus()), up)
      else if !(up && (ab <= be || !down)) then
        if down || up then FirstOffer(n - 1, true, be, ab, down, up) else None
      else
        match Lookup(segs, (addr + ab) % Modulus())
        case None => None
        case Some(seg) =>
          var ab' := ab + (seg.end - seg.start);
          if seg.unused && CheckJump(kind, low, seg.end) then None
          else FirstOffer(n - 1, false, be, ab', down, CheckJump(kind, low, (addr + ab') % Modulus()))
    }

    /** The offer is the next one to be made. */
    ghost predicate Due(o: Offer, downwards: bool)
      reads this
    {
      DueAt(o, downwards, beoff, aboff, beReachable, abReachable)
    }

    ghost predicate DueAt(o: Offer, downwards: bool, be: int, ab: int, down: bool, up: bool) {
      exists n: nat :: FirstOffer(n, downwards, be, ab, down, up) == Some(o)
    }

    /** What has become of an offer that was due when n had been made: it has been made as
        the next one, or it still is due. */
    ghost predicate Keeps(o: Offer, n: nat, found: bool, downwards: bool)
      reads this
    {
      if |offers| <= n then |offers| == n && Due(o, downwards) && !found else offers[n] == o
    }

    function AsSeq(o: Option<Offer>): seq<Offer> { if o.Some? then [o.value] else [] }

    /** The cursor that moves down has passed what is at be. */
    ghost predicate Passed(be: int)
      reads this
    {
      && Lookup(segs, (addr - be) % Modulus()).Some?
      && (var seg := Lookup(segs, (addr - be) % Modulus()).value;
          && beoff == be + (seg.end - seg.start)
          && (beReachable <==> CheckJump(kind, hi, (addr - beoff) % Modulus())))
    }

    lemma KeptDown(be: int, before: seq<Offer>, res: bool, o: Offer, down: bool)
      requires down && (be <= aboff || !abReachable) && offers == before + AsSeq(DownOffer(be))
      requires DownOffer(be).None? ==> Passed(be) && !res
      requires DueAt(o, true, be, aboff, down, abReachable)
      ensures Keeps(o, |before|, res, true)
    {
      var n: nat :| FirstOffer(n, true, be, aboff, down, abReachable) == Some(o);
      if DownOffer(be).None? {
        assert FirstOffer(n - 1, true, beoff, aboff, beReachable, abReachable) == Some(o);
      }
    }

    lemma KeptTurn(o: Offer, downwards: bool)
      requires Due(o, downwards) && (if downwards then !DownTurn() else !UpTurn())
      ensures Due(o, !downwards) && (!downwards ==> beReachable || abReachable)
    {
      var n: nat :| FirstOffer(n, downwards, beoff, aboff, beReachable, abReachable) == Some(o);
      assert FirstOffer(n - 1, !downwards, beoff, aboff, beReachable, abReachable) == Some(o);
    }

    /** Some rounds more. */
    lemma KeptOn(o: Offer, n: nat, found: bool, downwards: bool, before: seq<Offer>, due: bool, downwards': bool)
      requires before <= offers && n <= |before| && !found
      requires if |before| <= n then |before| == n && due else before[n] == o
      requires due ==> Keeps(o, |before|, found, downwards')
      ensures Keeps(o, n, found, downwards')
    {
    }

    /** beoff += step; and is the cursor still within reach? */
    method MoveDown(step: nat)
      modifies this`beoff, this`beReachable
      ensures beoff == old(beoff) + step
      ensures beReachable <==> CheckJump(kind, hi, DownAt() % Modulus())
    {
      beoff := beoff + step;
      beReachable := CheckJump(kind, hi, (addr - beoff) % Modulus());
    }

    /** One round of the loop of the cursor that moves down; the caller's answer to the offer,
        if there is one, is arbitrary. */
    method DownRound() returns (res: bool)
      requires Setting() && DownValid() && DownTurn() && Covered(DownAt() + page)
      modifies this`beoff, this`beReachable, this`offers
      ensures DownValid() && DownAt() < old(DownAt()) && Covered(DownAt() + page)
      ensures offers == old(offers) + AsSeq(DownOffer(old(beoff))) && (beoff, beReachable) == DownAfter(old(beoff))
      ensures DownOffer(old(beoff)).None? ==> Passed(old(beoff)) && !res
    {
      hide FirstOffer, GapSize, GoodOffer, GoodLayout, CheckJump;
      var seg := Lookup(segs, (addr - beoff) % Modulus());
      if seg.None? {
        OfferGap();
        res := *;
      } else {
        res := PassSegment(seg.value);
      }
    }

    /** What a round does to an offer that is due. */
    method DownStep() returns (res: bool)
      requires Setting() && DownValid() && DownTurn() && Covered(DownAt() + page)
      modifies this`beoff, this`beReachable, this`offers
      ensures DownValid() && DownAt() < old(DownAt()) && Covered(DownAt() + page) && old(offers) <= offers
      ensures forall o :: old(Due(o, true)) ==> Keeps(o, |old(offers)|, res, true)
    {
      hide FirstOffer, DueAt, Keeps, CheckJump, GoodLayout, GoodOffer, Lookup, DownOffer, CoveredBy, Passed;
      res := DownRound();
      forall o | old(Due(o, true))
        ensures Keeps(o, |old(offers)|, res, true)
      {
        KeptDown(old(beoff), old(offers), res, o, old(beReachable));
      }
    }

    method OfferGap()
      requires Setting() && DownValid() && beReachable && Lookup(segs, DownAt() % Modulus()).None?
      requires Covered(DownAt() + page)
      modifies this`beoff, this`beReachable, this`offers
      ensures DownValid() && DownAt() < old(DownAt()) && Covered(DownAt() + page)
      ensures DownOffer(old(beoff)).Some? && offers == old(offers) + [DownOffer(old(beoff)).value]
      ensures (beoff, beReachable) == DownAfter(old(beoff))
    {
      hide FirstOffer, GapSize, GoodLayout, GoodOffer, CheckJump, Lookup, CoveredBy, DownOffer, NoStraddle, DownAfter;
      var start, size := TakeGap();
      OfferedGap(old(beoff), start, size);
      MoreGood(offers, Gap(start, size));
      offers := offers + [Gap(start, size)];
      StillCoveredByGap(old(offers), old(DownAt()) + page, start, size);
    }

    lemma MoreGood(before: seq<Offer>, o: Offer)
      requires page > 0 && GoodOffer(o, kind, segs, page, low, hi)
      requires forall i :: i in before ==> GoodOffer(i, kind, segs, page, low, hi)
      ensures forall i :: i in before + [o] ==> GoodOffer(i, kind, segs, page, low, hi)
    {
    }

    lemma OfferedGap(be: int, start: nat, size: nat)
      requires Lookup(segs, (addr - be) % Modulus()).None? && size == GapSize(addr - be - page, page)
      requires start + size == addr - be + page
      ensures DownOffer(be) == Some(Gap(start, size))
      ensures DownAfter(be) == (be + size, CheckJump(kind, hi, (addr - (be + size)) % Modulus()))
    {
    }

    lemma StillCoveredByGap(before: seq<Offer>, x: int, start: nat, size: nat)
      requires CoveredBy(before, x) && offers == before + [Gap(start, size)] && start + size == x
      ensures Covered(start)
    {
      StillCovered(before, x, Gap(start, size));
    }

    method PassSegment(seg: Seg) returns (res: bool)
      requires Setting() && DownValid() && beReachable && seg in segs && Contains(seg, DownAt() % Modulus())
      requires Covered(DownAt() + page)
      modifies this`beoff, this`beReachable, this`offers
      ensures DownValid() && DownAt() < old(DownAt()) && Covered(DownAt() + page)
      ensures beoff == old(beoff) + (seg.end - seg.start)
      ensures beReachable <==> CheckJump(kind, hi, DownAt() % Modulus())
      ensures if seg.unused && CheckJump(kind, hi, seg.start) then offers == old(offers) + [Steal(seg)]
              else offers == old(offers) && !res
    {
      DownIsReal();
      SegmentAtBoundary(segs, page, Modulus() - 1, seg, DownAt());
      res := false;
      if seg.unused && CheckJump(kind, hi, seg.start) {
        ReachDownward(kind, low, hi, seg.start, segment.start);
        offers := offers + [Steal(seg)];
        res := *;
      }
      StillCovered(old(offers), seg.end, Steal(seg));
      AlignedStep(seg.start, page);
      MoveDown(seg.end - seg.start);
    }

    /** More offers cover more; a segment needs no cover. */
    lemma StillCovered(before: seq<Offer>, x: int, o: Offer)
      requires CoveredBy(before, x) && before <= offers
      requires if o.Gap? then o in offers && o.start + o.size == x else o.seg in segs && o.seg.end == x
      ensures Covered(if o.Gap? then o.start else o.seg.start)
    {
      forall a: nat | (if o.Gap? then o.start else o.seg.start) <= a < segment.start && Lookup(segs, a).None?
        ensures OfferedBy(offers, a)
      {
        if a >= x {
          assert OfferedBy(before, a);
          var p :| p in before && p.Gap? && p.start <= a < p.start + p.size;
          assert p in offers;
        } else if o.Steal? {
          assert Contains(o.seg, a);
        }
      }
    }

    method TakeGap() returns (start: nat, size: nat)
      requires Setting() && DownValid() && beReachable && Lookup(segs, DownAt() % Modulus()).None?
      modifies this`beoff, this`beReachable
      ensures DownValid() && DownAt() < old(DownAt())
      ensures start == DownAt() + page && start + size == old(DownAt()) + page
      ensures GoodOffer(Gap(start, size), kind, segs, page, low, hi)
      ensures size == GapSize(old(DownAt()) - page, page)
    {
      hide GoodOffer, GoodLayout, Lookup, CheckJump, NoStraddle, RoomToScan, FirstOffer, DownOffer, CoveredBy;
      start := TakePage();
      size := page;
      while size < maxSize && beReachable && Lookup(segs, (addr - beoff) % Modulus()).None?
        invariant DownValid() && DownAt() < old(DownAt())
        invariant start == DownAt() + page && start + size == old(DownAt()) + page
        invariant GoodOffer(Gap(start, size), kind, segs, page, low, hi)
        invariant GapSize(DownAt(), size) == GapSize(old(DownAt()) - page, page)
        decreases DownAt() + page
      {
        start, size := ExtendGap(start, size);
      }
    }

    method ExtendGap(start: nat, size: nat) returns (start': nat, size': nat)
      requires Setting() && DownValid() && beReachable && Lookup(segs, DownAt() % Modulus()).None?
      requires start == DownAt() + page && GoodOffer(Gap(start, size), kind, segs, page, low, hi)
      modifies this`beoff, this`beReachable
      ensures DownValid() && start' == start - page == DownAt() + page && size' == size + page
      ensures GoodOffer(Gap(start', size'), kind, segs, page, low, hi)
    {
      start' := TakePage();
      GapsJoin(kind, segs, page, low, hi, start', size);
      size' := size + page;
    }

    method TakePage() returns (c: nat)
      requires Setting() && DownValid() && beReachable && Lookup(segs, DownAt() % Modulus()).None?
      modifies this`beoff, this`beReachable
      ensures DownValid() && c == old(DownAt()) == DownAt() + page
      ensures GoodOffer(Gap(c, page), kind, segs, page, low, hi)
    {
      hide CheckJump, Lookup, FirstOffer, DownOffer;
      DownIsReal();
      c := (addr - beoff) % Modulus();
      FreePage(segs, page, Modulus() - 1, c);
      AlignedStep(c, page);
      DivUnique(page, page, 1, 0);
      MoveDown(page);
    }

    // ----- The cursor that moves up -----

    ghost function UpAt(): int
      reads this
    {
      addr + aboff
    }

    ghost function UpLimit(): int {
      UpReach(kind, segment)
    }

    /** Beyond this the cursor never gets; the offset from addr stays a machine word. */
    ghost function UpMax(): int {
      addr + Modulus() - 1
    }

    ghost predicate UpValid()
      reads this
    {
      segment.end <= UpAt() <= UpMax() && (abReachable ==> UpAt() <= UpLimit())
    }

    /** An address that has not wrapped around and passes the check is not far up. */
    lemma UpIsNear(x: nat)
      requires Setting() && x < Modulus() && CheckJump(kind, low, x % Modulus())
      ensures x <= low + 8 + Range(kind) && low <= x + Range(kind)
    {
      DivUnique(x, Modulus(), 0, x);
      ReachBound(kind, low, x);
    }

    /** A little below zero wraps around to where the check fails. */
    lemma BelowZeroFails(x: int)
      requires Setting() && low - Range(kind) - page - 8 <= x < 0
      ensures !CheckJump(kind, low, x % Modulus())
    {
      DivUnique(x, Modulus(), -1, x + Modulus());
      if CheckJump(kind, low, x + Modulus()) {
        ReachBound(kind, low, x + Modulus());
      }
    }

    /** Does the upward cursor make no offer at ab, but pass on? */
    ghost predicate PassesUp(ab: int) {
      && Lookup(segs, (addr + ab) % Modulus()).Some?
      && (var seg := Lookup(segs, (addr + ab) % Modulus()).value; !(seg.unused && CheckJump(kind, low, seg.end)))
    }

    lemma KeptUp(ab: int, res: bool, o: Offer, up: bool)
      requires up && (ab <= beoff || !beReachable) && DueAt(o, false, beoff, ab, beReachable, up)
      requires PassesUp(ab) ==>
                 (var seg := Lookup(segs, (addr + ab) % Modulus()).value;
                  && !res && aboff == ab + (seg.end - seg.start)
                  && (abReachable <==> CheckJump(kind, low, (addr + aboff) % Modulus())))
      ensures Keeps(o, |offers|, res, false)
    {
      var n: nat :| FirstOffer(n, false, beoff, ab, beReachable, up) == Some(o);
      assert FirstOffer(n - 1, false, beoff, aboff, beReachable, abReachable) == Some(o);
    }

    method UpStep() returns (res: bool)
      requires Setting() && UpValid() && UpTurn()
      modifies this`aboff, this`abReachable
      ensures UpValid() && UpAt() > old(UpAt())
      ensures forall o :: old(Due(o, false)) ==> Keeps(o, |offers|, res, false)
    {
      hide FirstOffer, DueAt, Keeps, CheckJump, GoodLayout, GoodOffer, Lookup;
      res := UpRound();
      forall o | old(Due(o, false))
        ensures Keeps(o, |offers|, res, false)
      {
        KeptUp(old(aboff), res, o, old(abReachable));
      }
    }

    method UpRound() returns (res: bool)
      requires Setting() && UpValid() && abReachable
      modifies this`aboff, this`abReachable
      ensures UpValid() && UpAt() > old(UpAt()) && (aboff, abReachable) == UpAfter(old(aboff))
      ensures PassesUp(old(aboff)) ==>
                (var seg := Lookup(segs, (addr + old(aboff)) % Modulus()).value;
                 && !res && aboff == old(aboff) + (seg.end - seg.start)
                 && (abReachable <==> CheckJump(kind, low, (addr + aboff) % Modulus())))
    {
      hide FirstOffer, CheckJump, GoodLayout, GoodOffer, CoveredBy;
      res := false;
      DivUnique(UpAt(), Modulus(), 0, UpAt());
      var seg := Lookup(segs, (addr + aboff) % Modulus());
      if seg.None? {
        UpGap();
        res := *;
      } else {
        if seg.value.unused && CheckJump(kind, low, seg.value.end) {
          res := *;
        }
        UpPass(seg.value);
      }
    }

    method UpPass(seg: Seg)
      requires Setting() && UpValid() && abReachable && seg in segs && Contains(seg, UpAt())
      modifies this`aboff, this`abReachable
      ensures UpValid() && UpAt() > old(UpAt()) && aboff == old(aboff) + (seg.end - seg.start)
      ensures abReachable <==> CheckJump(kind, low, (addr + aboff) % Modulus())
    {
      assert seg == segment || DisjointSegs(seg, segment);
      aboff := aboff + (seg.end - seg.start);
      abReachable := CheckJump(kind, low, (addr + aboff) % Modulus());
      if UpAt() < Modulus() {
        if abReachable {
          UpIsNear(UpAt());
        }
      } else {
        WrappedIsFar(UpAt());
      }
    }

    /** A cursor that has wrapped around behind a segment is out of reach. */
    lemma WrappedIsFar(x: nat)
      requires Setting() && Modulus() <= x <= Modulus() + Span(segment) + Range(kind) + 8
      requires segment.start > Span(segment) + 2 * Range(kind) + 8
      ensures !CheckJump(kind, low, x % Modulus())
    {
      DivUnique(x, Modulus(), 1, x - Modulus());
      if CheckJump(kind, low, x - Modulus()) {
        ReachBound(kind, low, x - Modulus());
      }
    }

    /** The extension of an upward gap looks up addresses below addr, and checks them. */
    method UpGap()
      requires Setting() && UpValid() && abReachable
      modifies this`aboff, this`abReachable
      ensures UpValid() && UpAt() > old(UpAt())
      ensures (aboff, abReachable) ==
              UpExtended(old(aboff) + page, page, CheckJump(kind, low, (addr + (old(aboff) + page) + page) % Modulus()))
    {
      hide CheckJump, Lookup, GoodLayout;
      var size := page;
      aboff := aboff + page;
      abReachable := CheckJump(kind, low, (addr + aboff + page) % Modulus());
      if abReachable {
        UpIsNear(addr + aboff + page);
      }
      while size < maxSize && abReachable && Lookup(segs, (addr - aboff) % Modulus()).None?
        invariant old(UpAt()) < UpAt() <= UpLimit() + page
        invariant abReachable ==> addr - aboff + page >= low - Range(kind) - 8
        invariant UpExtended(aboff, size, abReachable) ==
                  UpExtended(old(aboff) + page, page,
                             CheckJump(kind, low, (addr + (old(aboff) + page) + page) % Modulus()))
        decreases maxSize - size
      {
        size := size + page;
        UpExtend();
      }
    }

    method UpExtend()
      requires Setting() && addr - aboff + page >= low - Range(kind) - 8
      modifies this`aboff, this`abReachable
      ensures aboff == old(aboff) + page && UpAt() <= UpLimit() + page
      ensures abReachable <==> CheckJump(kind, low, (addr - aboff + page) % Modulus())
      ensures abReachable ==> addr - aboff + page >= low - Range(kind)
    {
      aboff := aboff + page;
      abReachable := CheckJump(kind, low, (addr - aboff + page) % Modulus());
      if abReachable {
        if addr - aboff + page < 0 {
          BelowZeroFails(addr - aboff + page);
        } else {
          UpIsNear(addr - aboff + page);
        }
      }
    }

    // ----- Both cursors -----

    ghost predicate Valid()
      reads this
    {
      Setting() && DownValid() && UpValid() && Covered(DownAt() + page)
    }

    /** How far the cursors can still move. */
    ghost function Left(): int
      reads this
    {
      DownAt() + page + UpMax() - UpAt()
    }

    constructor (kind: Kind, segs: seq<Seg>, segment: Seg, page: nat, low: nat, hi: nat, maxSize: nat)
      requires RoomToScan(kind, segs, segment, page) && segment.start <= low <= hi < segment.end
      ensures Valid() && offers == [] && this.segs == segs && this.page == page && this.low == low && this.hi == hi
      ensures this.kind == kind && this.segment == segment && this.maxSize == maxSize && AtStart()
    {
      var a := StartAddress(page, low, hi, segment);
      this.kind, this.segs, this.segment, this.page, this.low, this.hi, this.maxSize :=
        kind, segs, segment, page, low, hi, maxSize;
      addr := a;
      beoff := a - segment.start + page;
      aboff := segment.end - a;
      beReachable, abReachable, offers := false, false, [];
      new;
      beReachable := CheckJump(kind, hi, (addr - beoff) % Modulus());
      abReachable := CheckJump(kind, low, (addr + aboff + page) % Modulus());
      AlignedStep(segment.start, page);
      StartsValid();
    }

    /** Where the cursors begin. */
    ghost predicate AtStart()
      reads this
    {
      Begin() == Cursors(true, beoff, aboff, beReachable, abReachable)
    }

    ghost function Begin(): Cursors {
      var be, ab := addr - segment.start + page, segment.end - addr;
      Cursors(true, be, ab, CheckJump(kind, hi, (addr - be) % Modulus()),
              CheckJump(kind, low, (addr + ab + page) % Modulus()))
    }

    lemma StartsValid()
      requires Setting() && DownAt() == segment.start - page && UpAt() == segment.end && offers == []
      requires beReachable <==> CheckJump(kind, hi, DownAt() % Modulus())
      requires DownAt() % page == 0
      ensures Valid()
    {
      forall s | s in segs && s.start < segment.start
        ensures s.end <= segment.start
      {
        assert DisjointSegs(s, segment);
      }
    }

    method DownLoop() returns (found: bool)
      requires Valid()
      modifies this
      ensures Valid() && old(offers) <= offers && (!found ==> !DownTurn())
      ensures if old(DownTurn()) then Left() < old(Left()) else unchanged(this) && !found
      ensures forall o :: old(Due(o, true)) ==> Keeps(o, |old(offers)|, found, true)
    {
      hide *;
      found := false;
      ghost var moved := false;
      KeepsAll(true);
      while !found && DownTurn()
        invariant Valid() && old(offers) <= offers
        invariant if moved then old(DownTurn()) && Left() < old(Left()) else unchanged(this) && !found
        invariant forall o :: old(Due(o, true)) ==> Keeps(o, |old(offers)|, found, true)
        decreases Left()
      {
        found := DownNext(|old(offers)|);
        moved := true;
      }
    }

    lemma KeepsAll(downwards: bool)
      ensures forall o :: Due(o, downwards) ==> Keeps(o, |offers|, false, downwards)
    {
    }

    method DownNext(ghost n: nat) returns (found: bool)
      requires Valid() && DownTurn() && n <= |offers|
      modifies this`beoff, this`beReachable, this`offers
      ensures Valid() && 0 <= Left() < old(Left()) && old(offers) <= offers
      ensures forall o :: old(Keeps(o, n, false, true)) ==> Keeps(o, n, found, true)
    {
      hide FirstOffer, DueAt, GoodOffer, GoodLayout, CheckJump, Lookup, CoveredBy;
      found := DownStep();
    }

    method UpNext(ghost n: nat) returns (found: bool)
      requires Valid() && UpTurn() && n <= |offers|
      modifies this`aboff, this`abReachable
      ensures Valid() && 0 <= Left() < old(Left())
      ensures forall o :: old(Keeps(o, n, false, false)) ==> Keeps(o, n, found, false)
    {
      hide FirstOffer, DueAt, GoodOffer, GoodLayout, CheckJump, Lookup, CoveredBy;
      found := UpStep();
    }

    method UpLoop() returns (found: bool)
      requires Valid()
      modifies this`aboff, this`abReachable
      ensures Valid() && (!found ==> !UpTurn())
      ensures if old(UpTurn()) then Left() < old(Left()) else unchanged(this) && !found
      ensures forall o :: old(Due(o, false)) ==> Keeps(o, |offers|, found, false)
    {
      hide *;
      found := false;
      ghost var moved := false;
      KeepsAll(false);
      while !found && UpTurn()
        invariant Valid()
        invariant if moved then old(UpTurn()) && Left() < old(Left()) else unchanged(this) && !found
        invariant forall o :: old(Due(o, false)) ==> Keeps(o, |offers|, found, false)
        decreases Left()
      {
        found := UpNext(|offers|);
        moved := true;
      }
    }

    lemma TurnOver(n: nat, downwards: bool)
      requires if downwards then !DownTurn() else !UpTurn()
      ensures forall o :: Keeps(o, n, false, downwards) ==> Keeps(o, n, false, !downwards)
    {
      forall o | Keeps(o, n, false, downwards)
        ensures Keeps(o, n, false, !downwards)
      {
        if |offers| <= n {
          KeptTurn(o, downwards);
        }
      }
    }

    /** tracepoint_iter_free_segments_around: terminates; every offer of the cursor that moves
        down is good, and by the time it gives up it has offered all the free memory below the
        segment down to the first address out of reach; an offer that is due at first is the
        first to be made. */
    method Scan() returns (found: bool)
      requires Valid()
      modifies this
      ensures Valid() && old(offers) <= offers
      ensures forall o :: o in offers ==> GoodOffer(o, kind, segs, page, low, hi)
      ensures !found ==> !CheckJump(kind, hi, DownAt() % Modulus()) && Covered(DownAt() + page)
      ensures forall o :: old(Due(o, true)) ==> |offers| > |old(offers)| && offers[|old(offers)|] == o
    {
      hide FirstOffer, DueAt, GoodOffer, GoodLayout, CheckJump, Lookup, CoveredBy;
      found := false;
      while !found && (beReachable || abReachable)
        invariant Valid() && old(offers) <= offers
        invariant forall o :: old(Due(o, true)) ==> Keeps(o, |old(offers)|, found, true)
        decreases Left()
      {
        found := BothLoops(|old(offers)|);
      }
      NothingDue();
    }

    method BothLoops(ghost n: nat) returns (found: bool)
      requires Valid() && n <= |offers| && (beReachable || abReachable)
      modifies this
      ensures Valid() && old(offers) <= offers && Left() < old(Left())
      ensures forall o :: old(Keeps(o, n, false, true)) ==> Keeps(o, n, found, true)
    {
      found := DownLoop();
      if !found {
        TurnOver(n, true);
        found := UpLoop();
        if !found {
          TurnOver(n, false);
        }
      }
    }

    lemma NothingDue()
      ensures !beReachable && !abReachable ==> forall o :: !Due(o, true)
    {
      if o: Offer :| !beReachable && !abReachable && Due(o, true) {
        KeptTurn(o, true);
        KeptTurn(o, false);
      }
    }
  }

  /** fncall_align_to_page */
  method AlignUp(x: nat, page: nat) returns (r: nat)
    requires page > 0
    ensures r % page == 0 && x <= r < x + page
  {
    var q := (x + page - 1) / page;
    r := q * page;
    DivUnique(r, page, q, 0);
  }

  /** The page below the middle of the tracepoints. */
  method StartAddress(page: nat, low: nat, hi: nat, segment: Seg) returns (a: nat)
    requires page > 0 && segment.end % page == 0 && page <= segment.start <= low <= hi < segment.end
    ensures a % page == 0 && low <= a + page <= segment.end
  {
    var middle := low + (hi - low) / 2;
    var aligned := AlignUp(middle, page);
    AlignedStep(aligned, page);
    if segment.end < aligned {
      AlignedApart(segment.end, aligned, page);
    }
    a := aligned - page;
  }

  lemma GapsJoin(kind: Kind, segs: seq<Seg>, page: nat, low: nat, hi: nat, start: nat, size: nat)
    requires page > 0 && GoodOffer(Gap(start, page), kind, segs, page, low, hi)
    requires (forall s :: s in segs ==> s.start < s.end)
    requires GoodOffer(Gap(start + page, size), kind, segs, page, low, hi)
    ensures GoodOffer(Gap(start, size + page), kind, segs, page, low, hi)
  {
    AlignedStep(size, page);
    forall a, t | start <= a < start + (size + page) && low <= t <= hi
      ensures CheckJump(kind, t, a)
    {
      if a >= start + page {
        assert start + page <= a < start + page + size;
      }
    }
    forall s | s in segs
      ensures s.end <= start || start + (size + page) <= s.start
    {
      assert s.end <= start || start + page <= s.start;
    }
  }

  // ----- A scan without end -----

  /** A segment of nearly the whole address space, above the traced one. */
  const GIANT: seq<Seg> := [Seg(0, 0xe000, false), Seg(0x10000, 0x11000, false), Seg(0x12000, 0xffff_f000, false)]

  /** The upward cursor comes around to where it was. */
  ghost predicate GoesAround(c: Cursors, k: int) {
    && !c.downwards && !c.down && c.up
    && (c.ab == k * K32 || c.ab == k * K32 + 0x1000 || c.ab == k * K32 + 0x3000 || c.ab == k * K32 + 0xffff_0000
        || c.ab == k * K32 + 0xffff_e000)
  }

  lemma GiantLookup(x: nat)
    ensures Lookup(GIANT, x) ==
            if x < 0xe000 then Some(GIANT[0]) else if 0x10000 <= x < 0x11000 then Some(GIANT[1])
            else if 0x12000 <= x < 0xffff_f000 then Some(GIANT[2]) else None
  {
    var two, one := GIANT[1..], GIANT[2..];
    assert two[1..] == one && one[1..] == [];
    assert Lookup(one, x) == if Contains(GIANT[2], x) then Some(GIANT[2]) else None;
    assert Lookup(two, x) == if Contains(GIANT[1], x) then Some(GIANT[1]) else Lookup(one, x);
  }

  ghost predicate InGiant(scanner: Scanner) {
    && scanner.kind == Arm && scanner.segs == GIANT && scanner.segment == GIANT[1] && scanner.page == 0x1000
    && scanner.low == scanner.hi == 0x10010 && scanner.maxSize == 0x2000 && scanner.addr == 0x10000
  }

  lemma ModShift(x: int, k: int, y: int)
    requires x == y + k * K32 && 0 <= y < K32
    ensures x % K32 == y
  {
    DivUnique(x, K32, k, y);
  }

  lemma FromGap(scanner: Scanner, k: int, ab: int)
    requires InGiant(scanner) && ab == k * K32 + 0x1000
    ensures scanner.UpAfter(ab) == (k * K32 + 0x3000, true)
  {
    ModShift(0x10000 + ab, k, 0x11000);
    ModShift(0x10000 + (ab + 0x1000) + 0x1000, k, 0x13000);
    ModShift(0x10000 - (ab + 0x1000), -k, 0xe000);
    ModShift(0x10000 - (ab + 0x2000) + 0x1000, -k, 0xe000);
    GiantLookup(0x11000);
    GiantLookup(0xe000);
    assert scanner.UpExtended(ab + 0x2000, 0x2000, true) == (ab + 0x2000, true);
    assert scanner.UpExtended(ab + 0x1000, 0x1000, true) == (ab + 0x2000, true);
  }

  lemma FromLowGap(scanner: Scanner, k: int, ab: int)
    requires InGiant(scanner) && ab == k * K32 + 0xffff_e000
    ensures scanner.UpAfter(ab) == ((k + 1) * K32, true)
  {
    ModShift(0x10000 + ab, k + 1, 0xe000);
    ModShift(0x10000 + (ab + 0x1000) + 0x1000, k + 1, 0x10000);
    ModShift(0x10000 - (ab + 0x1000), -k - 1, 0x11000);
    ModShift(0x10000 - (ab + 0x2000) + 0x1000, -k - 1, 0x11000);
    GiantLookup(0xe000);
    GiantLookup(0x11000);
    assert scanner.UpExtended(ab + 0x2000, 0x2000, true) == (ab + 0x2000, true);
    assert scanner.UpExtended(ab + 0x1000, 0x1000, true) == (ab + 0x2000, true);
  }

  lemma FromSegment(scanner: Scanner, k: int, ab: int, x: nat, to: nat)
    requires InGiant(scanner) && 0x10000 + ab == k * K32 + x && x < K32 && Lookup(GIANT, x).Some?
    requires var seg := Lookup(GIANT, x).value; to == (x + (seg.end - seg.start)) % K32
    requires to <= 0x13000
    ensures var seg := Lookup(GIANT, x).value; scanner.UpAfter(ab) == (ab + (seg.end - seg.start), true)
  {
    var size := Lookup(GIANT, x).value.end - Lookup(GIANT, x).value.start;
    ModShift(0x10000 + ab, k, x);
    if x + size < K32 {
      ModShift(0x10000 + (ab + size), k, to);
    } else {
      ModShift(x + size, 1, x + size - K32);
      ModShift(0x10000 + (ab + size), k + 1, to);
    }
  }

  lemma AroundAgain(scanner: Scanner, c: Cursors, k: int)
    requires InGiant(scanner) && GoesAround(c, k)
    ensures exists j :: GoesAround(scanner.Refused(c), j)
  {
    hide scanner.UpAfter;
    var r := scanner.Refused(c);
    assert r == c.(ab := scanner.UpAfter(c.ab).0, up := scanner.UpAfter(c.ab).1);
    if c.ab == k * K32 {
      GiantLookup(0x10000);
      FromSegment(scanner, k, c.ab, 0x10000, 0x11000);
      assert GoesAround(r, k);
    } else if c.ab == k * K32 + 0x1000 {
      FromGap(scanner, k, c.ab);
      assert GoesAround(r, k);
    } else if c.ab == k * K32 + 0x3000 {
      GiantLookup(0x13000);
      ModShift(0x13000 + 0xfffe_d000, 1, 0);
      FromSegment(scanner, k, c.ab, 0x13000, 0);
      assert GoesAround(r, k);
    } else if c.ab == k * K32 + 0xffff_0000 {
      GiantLookup(0);
      FromSegment(scanner, k + 1, c.ab, 0, 0xe000);
      assert GoesAround(r, k);
    } else {
      FromLowGap(scanner, k, c.ab);
      assert GoesAround(r, k + 1);
    }
  }

  /** Where the cursors of such a scan begin. */
  const GIANT_START := Cursors(true, 0x1000, 0x1000, true, true)

  lemma GiantBegins(scanner: Scanner)
    requires InGiant(scanner)
    ensures var c := GIANT_START;
            && scanner.Refused(c) == Cursors(true, 0x3000, 0x1000, true, true)
            && scanner.Refused(scanner.Refused(c)) == Cursors(false, 0x3000, 0x1000, true, true)
  {
    GiantLookup(0xf000);
    GiantLookup(0xe000);
    assert scanner.GapSize(0xd000, 0x2000) == 0x2000;
    assert scanner.GapSize(0xe000, 0x1000) == 0x2000;
    assert scanner.DownAfter(0x1000) == (0x3000, true);
  }

  lemma GiantGoesOn(scanner: Scanner)
    requires InGiant(scanner)
    ensures var c := Cursors(false, 0x3000, 0x1000, true, true);
            && scanner.Refused(c) == Cursors(false, 0x3000, 0x3000, true, true)
            && scanner.Refused(scanner.Refused(c)) == Cursors(false, 0x3000, 0xffff_0000, true, true)
  {
    FromGap(scanner, 0, 0x1000);
    GiantLookup(0x13000);
    ModShift(0x13000 + 0xfffe_d000, 1, 0);
    FromSegment(scanner, 0, 0x3000, 0x13000, 0);
  }

  lemma GiantTurns(scanner: Scanner)
    requires InGiant(scanner)
    ensures var c := Cursors(false, 0x3000, 0xffff_0000, true, true);
            && scanner.Refused(c) == Cursors(true, 0x3000, 0xffff_0000, true, true)
            && scanner.Refused(scanner.Refused(c)) == Cursors(true, 0x11000, 0xffff_0000, false, true)
            && scanner.Refused(scanner.Refused(scanner.Refused(c))) == Cursors(false, 0x11000, 0xffff_0000, false, true)
  {
    hide scanner.DownAfter, InGiant;
    GiantWraps(scanner);
  }

  lemma GiantWraps(scanner: Scanner)
    requires InGiant(scanner)
    ensures scanner.DownAfter(0x3000) == (0x11000, false)
  {
    GiantLookup(0xd000);
    ModShift(0x10000 - 0x11000, -1, 0xffff_f000);
  }

  /** The seven steps before the upward cursor is alone, and the round that it makes then. */
  ghost predicate Endless(c: Cursors) {
    || c == GIANT_START || c == Cursors(true, 0x3000, 0x1000, true, true)
    || c == Cursors(false, 0x3000, 0x1000, true, true) || c == Cursors(false, 0x3000, 0x3000, true, true)
    || c == Cursors(false, 0x3000, 0xffff_0000, true, true)
    || c == Cursors(true, 0x3000, 0xffff_0000, true, true) || c == Cursors(true, 0x11000, 0xffff_0000, false, true)
    || exists k :: GoesAround(c, k)
  }

  lemma EndlessStep(scanner: Scanner, c: Cursors)
    requires InGiant(scanner) && Endless(c)
    ensures Endless(scanner.Refused(c))
  {
    hide scanner.Refused;
    if k :| GoesAround(c, k) {
      AroundAgain(scanner, c, k);
    } else {
      GiantBegins(scanner);
      GiantGoesOn(scanner);
      GiantTurns(scanner);
      assert GoesAround(Cursors(false, 0x11000, 0xffff_0000, false, true), 0);
    }
  }

  lemma {:induction false} EndlessSteps(scanner: Scanner, c: Cursors, n: nat)
    requires InGiant(scanner) && Endless(c)
    ensures scanner.RefusedTimes(n, c).up
    decreases n
  {
    hide scanner.Refused, Endless, InGiant;
    if n > 0 {
      EndlessStep(scanner, c);
      EndlessSteps(scanner, scanner.Refused(c), n - 1);
    } else {
      EndlessIsUp(c);
    }
  }

  lemma EndlessIsUp(c: Cursors)
    requires Endless(c)
    ensures c.up
  {
  }

  lemma GiantIsGood()
    ensures GoodLayout(GIANT, 0x1000, AddressRange(Arm) - 1)
  {
    forall s | s in GIANT
      ensures s.start < s.end <= 0xffff_f000 && s.start % 0x1000 == 0 && s.end % 0x1000 == 0
    {
      assert s == GIANT[0] || s == GIANT[1] || s == GIANT[2];
    }
    forall s, t | s in GIANT && t in GIANT && s != t
      ensures DisjointSegs(s, t)
    {
      assert (s == GIANT[0] || s == GIANT[1] || s == GIANT[2]) && (t == GIANT[0] || t == GIANT[1] || t == GIANT[2]);
    }
  }

  /** A scan in that layout whose offers are all refused never ends. */
  lemma ScanMayNotEnd(scanner: Scanner, n: nat)
    requires InGiant(scanner)
    ensures GoodLayout(GIANT, 0x1000, AddressRange(Arm) - 1)
    ensures scanner.RefusedTimes(n, scanner.Begin()).up
  {
    GiantIsGood();
    assert scanner.Begin() == GIANT_START;
    EndlessSteps(scanner, GIANT_START, n);
  }
}
