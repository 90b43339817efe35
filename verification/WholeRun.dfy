/** A first scan followed by any number of next scans, over a target that changes between them. */
module WholeRun {
  import opened Bytes
  import opened Comparator
  import opened ScanModel
  import opened SearchTheorems
  import opened RemapTheorems
  import opened PairTheorems
  import opened JoinTheorems
  import opened ListTheorems

  /** One scan of a run: the regions found, the target while they were read, and what was asked. */
  datatype Pass = Pass(regions: seq<Region>, target: Target, query: Query) {
    function Word(a: nat): nat {
      MemoryWord(target.memory, a, Width(query))
    }
  }

  function Run(first: Pass, rest: seq<Pass>): seq<Scan> {
    if rest == [] then
      FirstScan(first.regions, first.target, first.query)
    else
      var p := rest[|rest| - 1];
      NextScan(p.regions, Run(first, rest[..|rest| - 1]), p.target, p.query)
  }

  function Latest(first: Pass, rest: seq<Pass>): Pass {
    if rest == [] then first else rest[|rest| - 1]
  }

  /** One element type throughout, and regions as get_regions returns them from a page boundary. */
  ghost predicate WellFormed(first: Pass, rest: seq<Pass>) {
    && Layout(first.regions, Width(first.query))
    && forall p :: p in rest ==> p.query.elem == first.query.elem && Layout(p.regions, Width(p.query))
  }

  /** Every list of a run is in order and holds the words of its own regions. */
  lemma {:induction false} RunFresh(first: Pass, rest: seq<Pass>)
    requires WellFormed(first, rest)
    ensures AllFresh(Run(first, rest), Width(first.query))
    ensures forall s :: s in Run(first, rest) ==> s.kind == Latest(first, rest).query.kind
    ensures rest != [] ==> forall s :: s in Run(first, rest) ==> s.entries != []
    ensures StrictlyAscending(Run(first, rest), Base)
  {
    var scans := Run(first, rest);
    if rest == [] {
      FirstScanFresh(first.regions, first.target, first.query);
    } else {
      var p := rest[|rest| - 1];
      assert p in rest;
      RunFresh(first, rest[..|rest| - 1]);
      NextScanFresh(p.regions, Run(first, rest[..|rest| - 1]), p.target, p.query);
    }
    assert forall i :: 0 <= i < |scans| ==> scans[i] in scans;
  }

  // ---------- which addresses survive, region by region ----------

  /** Pairs of a region and an address in it. */
  type Places = iset<(Region, nat)>

  predicate Meets(r: Region, r0: Region) {
    r.base < r0.End() && r0.base < r.End()
  }

  /** r0 is the lowest of the live regions that r meets. */
  ghost predicate Lowest(live: iset<Region>, r: Region, r0: Region) {
    r0 in live && Meets(r, r0) && forall r1 :: r1 in live && Meets(r, r1) ==> r0.base <= r1.base
  }

  /** The element reads in this pass as something its previous word lets through. */
  ghost predicate StillAccepted(p: Pass, previous: Pass, a: nat) {
    Accepts(p.query, p.Word(a), Reference(previous.query.kind, p.query, previous.Word(a)))
  }

  /** The elements a first scan finds. */
  ghost function FirstPlaces(p: Pass): Places {
    iset x: (Region, nat) | x.0 in p.regions && FoundIn(x.0, p.target, p.query, x.1, p.Word(x.1))
  }

  /**
   * The elements of the pass before that lie wholly in a readable region whose lowest live
   * predecessor held them, and that are still accepted.
   */
  ghost function NextPlaces(p: Pass, previous: Pass, live: iset<Region>, places: Places): Places {
    iset x: (Region, nat) |
      && x.0 in p.regions && p.target.readable(x.0.base) && Whole(x.0, Width(p.query), x.1)
      && (exists r0 :: Lowest(live, x.0, r0) && (r0, x.1) in places)
      && StillAccepted(p, previous, x.1)
  }

  ghost function Occupied(places: Places): iset<Region> {
    iset x: (Region, nat) | x in places :: x.0
  }

  /** The elements that survive a run, each with the region of the latest pass it was found in. */
  ghost function Survivors(first: Pass, rest: seq<Pass>): Places
    decreases |rest|, 0
  {
    if rest == [] then
      FirstPlaces(first)
    else
      var before := rest[..|rest| - 1];
      NextPlaces(rest[|rest| - 1], Latest(first, before), LiveRegions(first, before), Survivors(first, before))
  }

  /** The regions of the latest pass that still have a scan. */
  ghost function LiveRegions(first: Pass, rest: seq<Pass>): iset<Region>
    decreases |rest|, 1
  {
    if rest == [] && first.query.kind.UnknownValue? then
      iset r | r in first.regions && first.target.readable(r.base)
    else
      Occupied(Survivors(first, rest))
  }

  function RegionOf(s: Scan): Region {
    Region(s.base, |s.bytes|)
  }

  ghost predicate HasScan(scans: seq<Scan>, r: Region) {
    exists s :: s in scans && RegionOf(s) == r
  }

  /** The scan holds exactly the surviving elements found in its region, with the words read in this pass. */
  ghost predicate HoldsPlaces(s: Scan, p: Pass, places: Places) {
    forall a: nat, v: nat :: Holds(s, Width(p.query), a, v) <==> (RegionOf(s), a) in places && v == p.Word(a)
  }

  /** The list holds one scan for each live region, and it holds exactly the survivors of that region. */
  ghost predicate Represents(scans: seq<Scan>, p: Pass, live: iset<Region>, places: Places) {
    && Ordered(scans)
    && (forall s :: s in scans ==> s.bytes != [])
    && (forall s :: s in scans ==> RegionOf(s) in p.regions && RegionOf(s) in live)
    && (forall s :: s in scans ==> HoldsPlaces(s, p, places))
    && (forall r :: r in live ==> HasScan(scans, r))
  }

  lemma {:induction false} SingleHolds(scans: seq<Scan>, s: Scan, es: ElemSize, a: nat, v: nat)
    requires scans == [s]
    ensures Candidate(scans, es, a, v) <==> Holds(s, es, a, v)
  {
    assert s in scans;
  }

  lemma {:induction false} FirstScanOf(p: Pass, s: Scan)
    requires Layout(p.regions, Width(p.query)) && s in FirstScan(p.regions, p.target, p.query)
    ensures RegionOf(s) in p.regions && [s] == ScanRegion(RegionOf(s), p.target, p.query)
    ensures Fresh(s, Width(p.query)) && s.kind == p.query.kind
  {
    FirstScanMembers(p.regions, p.target, p.query);
    var r :| r in p.regions && s in ScanRegion(r, p.target, p.query);
    ScanRegionFresh(r, p.target, p.query);
    assert r == RegionOf(s);
  }

  lemma {:induction false} FirstHoldsPlaces(p: Pass, s: Scan)
    requires Layout(p.regions, Width(p.query)) && s in FirstScan(p.regions, p.target, p.query)
    ensures HoldsPlaces(s, p, FirstPlaces(p))
  {
    FirstScanOf(p, s);
    var r := RegionOf(s);
    forall a: nat, v: nat
      ensures Holds(s, Width(p.query), a, v) <==> (r, a) in FirstPlaces(p) && v == p.Word(a)
    {
      ScanRegionExact(r, p.target, p.query, a, v);
      SingleHolds(ScanRegion(r, p.target, p.query), s, Width(p.query), a, v);
    }
  }

  lemma {:induction false} RegionHasFirstScan(p: Pass, r: Region)
    requires Layout(p.regions, Width(p.query)) && r in p.regions && ScanRegion(r, p.target, p.query) != []
    ensures HasScan(FirstScan(p.regions, p.target, p.query), r)
  {
    var s := ScanRegion(r, p.target, p.query)[0];
    assert s in ScanRegion(r, p.target, p.query);
    FirstScanMembers(p.regions, p.target, p.query);
    ScanRegionFresh(r, p.target, p.query);
    assert RegionOf(s) == r;
  }

  /** A scan with entries holds something. */
  lemma {:induction false} EntriesHold(s: Scan, es: ElemSize) returns (a: nat, v: nat)
    requires s.entries != [] && !s.kind.UnknownValue?
    ensures Holds(s, es, a, v)
  {
    var e := s.entries[0];
    assert e in Kept(s, es);
    a, v := s.base + Stride(e.index, es), e.snapshot;
  }

  lemma {:induction false} FirstRepresents(first: Pass)
    requires WellFormed(first, [])
    ensures Represents(Run(first, []), first, LiveRegions(first, []), Survivors(first, []))
  {
    var scans, live := Run(first, []), LiveRegions(first, []);
    RunFresh(first, []);
    forall s | s in scans
      ensures RegionOf(s) in first.regions && RegionOf(s) in live && HoldsPlaces(s, first, FirstPlaces(first))
    {
      FirstScanOf(first, s);
      FirstHoldsPlaces(first, s);
      if !first.query.kind.UnknownValue? {
        var a, v := EntriesHold(s, Width(first.query));
        assert (RegionOf(s), a) in FirstPlaces(first);
      }
    }
    forall r | r in live
      ensures HasScan(scans, r)
    {
      if !first.query.kind.UnknownValue? {
        var x :| x in FirstPlaces(first) && x.0 == r;
        ScanRegionComplete(r, first.target, first.query, x.1, first.Word(x.1));
      }
      RegionHasFirstScan(first, r);
    }
  }

  lemma {:induction false} PartnerIsFirst(scans: seq<Scan>, r: Region, s: Scan, s1: Scan)
    requires Ordered(scans) && Partner(r, scans, s) && s1 in scans && Overlaps(r, s1)
    ensures s.base <= s1.base
  {
    var j :| 0 <= j < |scans| && scans[j] == s1;
    var i := FirstOverlap(r, scans);
    assert i <= j && (i < j ==> scans[i].End() <= scans[j].base);
  }

  /** The scan a region is paired with belongs to the lowest live region it meets. */
  lemma {:induction false} PartnerIsLowest(q: Pass, live: iset<Region>, places: Places, scans: seq<Scan>, r: Region,
      s: Scan)
    requires Represents(scans, q, live, places) && Partner(r, scans, s)
    ensures Lowest(live, r, RegionOf(s))
  {
    assert s in scans;
    forall r1 | r1 in live && Meets(r, r1)
      ensures RegionOf(s).base <= r1.base
    {
      assert HasScan(scans, r1);
      var s1 :| s1 in scans && RegionOf(s1) == r1;
      PartnerIsFirst(scans, r, s, s1);
    }
  }

  lemma {:induction false} LowestIsPartner(scans: seq<Scan>, r: Region, s: Scan)
    requires Ordered(scans) && s in scans && s.bytes != [] && Overlaps(r, s)
    requires forall s1 :: s1 in scans && Overlaps(r, s1) ==> s.base <= s1.base && s1.bytes != []
    ensures Partner(r, scans, s)
  {
    var j :| 0 <= j < |scans| && scans[j] == s;
    var i := FirstOverlap(r, scans);
    assert scans[i] in scans && scans[i].End() > scans[i].base;
  }

  lemma {:induction false} LowestHasPartner(q: Pass, live: iset<Region>, places: Places, scans: seq<Scan>, r: Region,
      r0: Region)
    returns (s: Scan)
    requires Represents(scans, q, live, places) && Lowest(live, r, r0)
    ensures RegionOf(s) == r0 && Partner(r, scans, s)
  {
    assert HasScan(scans, r0);
    s :| s in scans && RegionOf(s) == r0;
    forall s1 | s1 in scans && Overlaps(r, s1)
      ensures s.base <= s1.base && s1.bytes != []
    {
      assert Meets(r, RegionOf(s1));
    }
    LowestIsPartner(scans, r, s);
  }

  /** Two lowest regions of one layout are the same. */
  lemma {:induction false} LowestUnique(q: Pass, live: iset<Region>, scans: seq<Scan>, places: Places, r: Region,
      r0: Region, r1: Region)
    requires Represents(scans, q, live, places) && Lowest(live, r, r0) && Lowest(live, r, r1)
    ensures r0 == r1
  {
    var s0 := LowestHasPartner(q, live, places, scans, r, r0);
    var s1 := LowestHasPartner(q, live, places, scans, r, r1);
  }

  /** Against its partner, what a region carries over is what survives in it. */
  lemma {:induction false} CarriedIsPlace(p: Pass, q: Pass, live: iset<Region>, places: Places, scans: seq<Scan>,
      r: Region, s: Scan, a: nat, v: nat)
    requires Represents(scans, q, live, places) && p.query.elem == q.query.elem
    requires r in p.regions && s in scans && Lowest(live, r, RegionOf(s)) && s.kind == q.query.kind
    ensures CarriedBy(r, s, p.target, p.query, a, v) <==> (r, a) in NextPlaces(p, q, live, places) && v == p.Word(a)
  {
    assert HoldsPlaces(s, q, places);
    if CarriedBy(r, s, p.target, p.query, a, v) {
      var v0 :| Holds(s, Width(p.query), a, v0) && Accepts(p.query, v, Reference(s.kind, p.query, v0));
      assert Holds(s, Width(q.query), a, v0);
    }
    if (r, a) in NextPlaces(p, q, live, places) && v == p.Word(a) {
      var r1 :| Lowest(live, r, r1) && (r1, a) in places;
      LowestUnique(q, live, scans, places, r, RegionOf(s), r1);
      assert Holds(s, Width(p.query), a, q.Word(a));
    }
  }

  /** What one next scan needs to know about the list it starts from. */
  ghost predicate Ready(p: Pass, q: Pass, scans: seq<Scan>) {
    && p.query.elem == q.query.elem
    && Layout(p.regions, Width(p.query))
    && AllFresh(scans, Width(p.query))
    && forall s :: s in scans ==> s.kind == q.query.kind
  }

  lemma {:induction false} NextScanMembers(p: Pass, q: Pass, scans: seq<Scan>)
    requires Ready(p, q, scans)
    ensures forall s :: s in NextScan(p.regions, scans, p.target, p.query)
              <==> exists r, s0 :: r in p.regions && Partner(r, scans, s0) && s in ScanPair(r, s0, p.target, p.query)
  {
    LayoutIsSorted(p.regions, scans, Width(p.query));
    TwoPointerIsNested(p.regions, scans, p.target, p.query);
    NestedMembers(p.regions, scans, p.target, p.query);
  }

  /** Where a scan of the new list comes from, and what it holds. */
  lemma {:induction false} NextHoldsPlaces(p: Pass, q: Pass, live: iset<Region>, places: Places, scans: seq<Scan>,
      s: Scan)
    requires Ready(p, q, scans) && Represents(scans, q, live, places)
    requires s in NextScan(p.regions, scans, p.target, p.query)
    ensures RegionOf(s) in p.regions
    ensures HoldsPlaces(s, p, NextPlaces(p, q, live, places))
  {
    NextScanMembers(p, q, scans);
    var r, s0 :| r in p.regions && Partner(r, scans, s0) && s in ScanPair(r, s0, p.target, p.query);
    assert s0 in scans;
    PartnerIsLowest(q, live, places, scans, r, s0);
    PairFresh(r, s0, p.target, p.query);
    PairHoldsPlaces(p, q, live, places, scans, r, s0, s);
  }

  lemma {:induction false} PairHoldsPlaces(p: Pass, q: Pass, live: iset<Region>, places: Places, scans: seq<Scan>,
      r: Region, s0: Scan, s: Scan)
    requires Ready(p, q, scans) && Represents(scans, q, live, places)
    requires r in p.regions && s0 in scans && Lowest(live, r, RegionOf(s0))
    requires ScanPair(r, s0, p.target, p.query) == [s] && RegionOf(s) == r
    ensures HoldsPlaces(s, p, NextPlaces(p, q, live, places))
  {
    forall a: nat, v: nat
      ensures Holds(s, Width(p.query), a, v) <==> (r, a) in NextPlaces(p, q, live, places) && v == p.Word(a)
    {
      PairExact(r, s0, p.target, p.query, a, v);
      SingleHolds(ScanPair(r, s0, p.target, p.query), s, Width(p.query), a, v);
      CarriedIsPlace(p, q, live, places, scans, r, s0, a, v);
    }
  }

  /** A surviving element keeps its region's scan alive. */
  lemma {:induction false} PlaceHasScan(p: Pass, q: Pass, live: iset<Region>, places: Places, scans: seq<Scan>,
      r: Region, a: nat)
    requires Ready(p, q, scans) && Represents(scans, q, live, places)
    requires (r, a) in NextPlaces(p, q, live, places)
    ensures HasScan(NextScan(p.regions, scans, p.target, p.query), r)
  {
    NextScanMembers(p, q, scans);
    var r0 :| Lowest(live, r, r0) && (r0, a) in places;
    var s0 := LowestHasPartner(q, live, places, scans, r, r0);
    assert s0 in scans;
    CarriedIsPlace(p, q, live, places, scans, r, s0, a, p.Word(a));
    PairComplete(r, s0, p.target, p.query, a, p.Word(a));
    PairFresh(r, s0, p.target, p.query);
    var s :| s in ScanPair(r, s0, p.target, p.query);
    assert RegionOf(s) == r;
  }

  /** One next scan takes a list that represents the survivors so far to one that represents the next. */
  lemma {:induction false} NextRepresents(p: Pass, q: Pass, live: iset<Region>, places: Places, scans: seq<Scan>)
    requires Ready(p, q, scans) && Represents(scans, q, live, places)
    ensures var places' := NextPlaces(p, q, live, places);
            Represents(NextScan(p.regions, scans, p.target, p.query), p, Occupied(places'), places')
  {
    var next, places' := NextScan(p.regions, scans, p.target, p.query), NextPlaces(p, q, live, places);
    NextScanFresh(p.regions, scans, p.target, p.query);
    forall s | s in next
      ensures RegionOf(s) in p.regions && RegionOf(s) in Occupied(places') && HoldsPlaces(s, p, places')
    {
      NextHoldsPlaces(p, q, live, places, scans, s);
      var a, v := EntriesHold(s, Width(p.query));
      assert (RegionOf(s), a) in places';
    }
    forall r | r in Occupied(places')
      ensures HasScan(next, r)
    {
      var x :| x in places' && x.0 == r;
      assert (r, x.1) in places';
      PlaceHasScan(p, q, live, places, scans, r, x.1);
    }
  }

  lemma {:induction false} LatestLayout(first: Pass, rest: seq<Pass>)
    requires WellFormed(first, rest)
    ensures Layout(Latest(first, rest).regions, Width(first.query))
    ensures Latest(first, rest).query.elem == first.query.elem
  {
    if rest != [] {
      assert rest[|rest| - 1] in rest;
    }
  }

  lemma {:induction false} RunRepresents(first: Pass, rest: seq<Pass>)
    requires WellFormed(first, rest)
    ensures Represents(Run(first, rest), Latest(first, rest), LiveRegions(first, rest), Survivors(first, rest))
  {
    if rest == [] {
      FirstRepresents(first);
    } else {
      var before := rest[..|rest| - 1];
      RunRepresents(first, before);
      RunFresh(first, before);
      LatestLayout(first, before);
      LatestLayout(first, rest);
      NextRepresents(rest[|rest| - 1], Latest(first, before), LiveRegions(first, before), Survivors(first, before),
                     Run(first, before));
    }
  }

  /** In a represented list, the candidates are the surviving places. */
  lemma {:induction false} CandidatesArePlaces(scans: seq<Scan>, p: Pass, live: iset<Region>, places: Places, a: nat,
      v: nat)
    requires Represents(scans, p, live, places)
    requires forall x :: x in places ==> x.0 in live
    ensures Candidate(scans, Width(p.query), a, v) <==> v == p.Word(a) && exists r :: (r, a) in places
  {
    if Candidate(scans, Width(p.query), a, v) {
      var s :| s in scans && Holds(s, Width(p.query), a, v);
      assert HoldsPlaces(s, p, places);
    }
    if r :| v == p.Word(a) && (r, a) in places {
      assert (r, a).0 in live;
      var s :| s in scans && RegionOf(s) == r;
      assert HoldsPlaces(s, p, places);
      assert Holds(s, Width(p.query), a, v);
    }
  }

  lemma {:induction false} SurvivorsAreLive(first: Pass, rest: seq<Pass>)
    ensures forall x :: x in Survivors(first, rest) ==> x.0 in LiveRegions(first, rest)
  {
    forall x | x in Survivors(first, rest)
      ensures x.0 in LiveRegions(first, rest)
    {
      assert (x.0, x.1) in Survivors(first, rest);
    }
  }

  /**
   * Whole-run characterisation: after a first scan and any number of next scans over arbitrarily
   * changing memory and regions, an address is a candidate exactly when it passed every comparator
   * and at every step lay wholly in a readable region and in that region's lowest live predecessor;
   * its snapshot is the word the last scan read there.
   */
  lemma {:induction false} RunExact(first: Pass, rest: seq<Pass>, a: nat, v: nat)
    requires WellFormed(first, rest)
    ensures Candidate(Run(first, rest), Width(first.query), a, v)
            <==> v == Latest(first, rest).Word(a) && exists r :: (r, a) in Survivors(first, rest)
  {
    RunRepresents(first, rest);
    SurvivorsAreLive(first, rest);
    LatestLayout(first, rest);
    CandidatesArePlaces(Run(first, rest), Latest(first, rest), LiveRegions(first, rest), Survivors(first, rest), a, v);
  }

  // ---------- runs in which no region merges two earlier ones ----------

  /** Each region meets at most one region of the pass before: regions may split, shrink or vanish, but not merge. */
  ghost predicate NoMerge(before: seq<Region>, regions: seq<Region>) {
    forall r, r1, r2 :: r in regions && r1 in before && r2 in before && Meets(r, r1) && Meets(r, r2) ==> r1 == r2
  }

  ghost predicate NeverMerges(first: Pass, rest: seq<Pass>) {
    rest == [] ||
    (NeverMerges(first, rest[..|rest| - 1])
     && NoMerge(Latest(first, rest[..|rest| - 1]).regions, rest[|rest| - 1].regions))
  }

  /** The element at a lies wholly in some region that could be read. */
  ghost predicate Readable(p: Pass, a: nat) {
    exists r :: r in p.regions && p.target.readable(r.base) && Whole(r, Width(p.query), a)
  }

  /** A filter on addresses alone: readable at every pass, accepted at every pass. */
  ghost predicate PassesAll(first: Pass, rest: seq<Pass>, a: nat) {
    if rest == [] then
      Aligned(a, Width(first.query)) && Readable(first, a) && FirstAccepts(first.query, first.Word(a))
    else
      var p, before := rest[|rest| - 1], rest[..|rest| - 1];
      && PassesAll(first, before, a)
      && Readable(p, a)
      && Accepts(p.query, p.Word(a),
                 Reference(Latest(first, before).query.kind, p.query, Latest(first, before).Word(a)))
  }

  lemma {:induction false} NoMergeIsUnmerged(first: Pass, rest: seq<Pass>)
    requires WellFormed(first, rest) && rest != []
    requires NoMerge(Latest(first, rest[..|rest| - 1]).regions, rest[|rest| - 1].regions)
    ensures Unmerged(Latest(first, rest).regions, Run(first, rest[..|rest| - 1]), Width(first.query))
  {
    var before := rest[..|rest| - 1];
    RunRepresents(first, before);
    RunFresh(first, before);
    NoMergeHidesNothing(rest[|rest| - 1].regions, Latest(first, before), LiveRegions(first, before),
                        Survivors(first, before),
                        Run(first, before), Width(first.query));
  }

  lemma {:induction false} NoMergeHidesNothing(regions: seq<Region>, q: Pass, live: iset<Region>, places: Places,
      scans: seq<Scan>, es: ElemSize)
    requires Represents(scans, q, live, places) && AllUsable(scans, es) && NoMerge(q.regions, regions)
    ensures Unmerged(regions, scans, es)
  {
    forall r, i, j | r in regions && 0 <= i < j < |scans|
      ensures !Hides(r, scans, es, i, j)
    {
      if Hides(r, scans, es, i, j) {
        var a, v :| Holds(scans[j], es, a, v) && Whole(r, es, a);
        assert scans[i] in scans && scans[j] in scans;
        HoldsInside(scans[j], es, a, v);
        assert Meets(r, RegionOf(scans[i])) && Meets(r, RegionOf(scans[j]));
        assert false;
      }
    }
  }

  /**
   * When no region ever merges two earlier ones, a whole run is a filter on addresses: a candidate
   * is an aligned element that was readable and accepted at every pass, and regions do not matter.
   */
  lemma {:induction false} RunIsAddressFilter(first: Pass, rest: seq<Pass>, a: nat, v: nat)
    requires WellFormed(first, rest) && NeverMerges(first, rest)
    ensures Candidate(Run(first, rest), Width(first.query), a, v)
            <==> v == Latest(first, rest).Word(a) && PassesAll(first, rest, a)
    decreases |rest|
  {
    if rest == [] {
      FirstScanExact(first.regions, first.target, first.query, a, v);
    } else {
      var p, before := rest[|rest| - 1], rest[..|rest| - 1];
      RunFilterStep(first, rest, a, v);
      forall v0
        ensures Candidate(Run(first, before), Width(first.query), a, v0)
                <==> v0 == Latest(first, before).Word(a) && PassesAll(first, before, a)
      {
        RunIsAddressFilter(first, before, a, v0);
      }
    }
  }

  lemma {:induction false} RunFilterStep(first: Pass, rest: seq<Pass>, a: nat, v: nat)
    requires WellFormed(first, rest) && NeverMerges(first, rest) && rest != []
    ensures var p, before := rest[|rest| - 1], rest[..|rest| - 1];
            Candidate(Run(first, rest), Width(first.query), a, v)
            <==> && v == p.Word(a) && Readable(p, a)
                 && exists v0 :: (Candidate(Run(first, before), Width(first.query), a, v0)
                                  && Accepts(p.query, v, Reference(Latest(first, before).query.kind, p.query, v0)))
  {
    var p, before, es := rest[|rest| - 1], rest[..|rest| - 1], Width(first.query);
    var scans := Run(first, before);
    RunFresh(first, before);
    LatestLayout(first, rest);
    NoMergeIsUnmerged(first, rest);
    if Candidate(Run(first, rest), es, a, v) {
      NoFalseSurvivor(p.regions, scans, p.target, p.query, a, v);
      var r, s :| r in p.regions && s in scans && CarriedBy(r, s, p.target, p.query, a, v);
      var v0 :| Holds(s, es, a, v0) && Accepts(p.query, v, Reference(s.kind, p.query, v0));
      assert Candidate(scans, es, a, v0);
    }
    if v0 :| v == p.Word(a) && Readable(p, a) && Candidate(scans, es, a, v0)
             && Accepts(p.query, v, Reference(Latest(first, before).query.kind, p.query, v0)) {
      var s :| s in scans && Holds(s, es, a, v0);
      var r :| r in p.regions && p.target.readable(r.base) && Whole(r, es, a);
      assert Passes(s, p.query, a, v);
      assert CarriedBy(r, s, p.target, p.query, a, v);
      UnmergedIsComplete(p.regions, scans, p.target, p.query, a, v);
    }
  }

  // ---------- updates between scans ----------

  /** What a user does with a list of scans: narrow it down, or reread one of its regions. */
  datatype Step = Narrow(pass: Pass) | Refresh(index: nat, target: Target, copied: nat)

  /** The buffer of a scan after its region was read again; a failing read copies a prefix. */
  function Reread(s: Scan, t: Target, copied: nat): seq<Byte> {
    AfterRead(t, RegionOf(s), s.bytes, copied)
  }

  /** The list after the steps; a refresh calls update() on one scan, which ignores whether the reread failed. */
  ghost function RunSteps(first: Pass, steps: seq<Step>): seq<Scan> {
    if steps == [] then
      Run(first, [])
    else
      var scans := RunSteps(first, steps[..|steps| - 1]);
      match steps[|steps| - 1]
      case Narrow(p) => NextScan(p.regions, scans, p.target, p.query)
      case Refresh(k, t, copied) =>
        if k < |scans| && InBounds(scans[k], Width(first.query)) then
          scans[k := Update(scans[k], Width(first.query), Reread(scans[k], t, copied))]
        else
          scans
  }

  ghost function Narrowings(steps: seq<Step>): seq<Pass> {
    if steps == [] then
      []
    else
      Narrowings(steps[..|steps| - 1]) + if steps[|steps| - 1].Narrow? then [steps[|steps| - 1].pass] else []
  }

  predicate ValuesFit(s: Scan, es: ElemSize) {
    forall i :: 0 <= i < |s.entries| ==> s.entries[i].value < Pow256(es)
  }

  lemma {:induction false} FreshValuesFit(s: Scan, es: ElemSize)
    requires Fresh(s, es)
    ensures ValuesFit(s, es)
  {
    forall i | 0 <= i < |s.entries|
      ensures s.entries[i].value < Pow256(es)
    {
      assert s.entries[i] in s.entries;
      WordBound(s.bytes, Stride(s.entries[i].index, es), es);
    }
  }

  lemma {:induction false} RefreshKeeps(scans: seq<Scan>, plain: seq<Scan>, es: ElemSize, k: nat, bytes: seq<Byte>)
    requires SameHistories(plain, scans) && k < |scans|
    requires forall s :: s in scans ==> Usable(s, es) && ValuesFit(s, es)
    requires |bytes| == |scans[k].bytes| && scans[k] in scans && InBounds(scans[k], es)
    ensures var scans' := scans[k := Update(scans[k], es, bytes)];
            SameHistories(plain, scans') && forall s :: s in scans' ==> Usable(s, es) && ValuesFit(s, es)
  {
    var u := Update(scans[k], es, bytes);
    UpdateKeepsHistory(scans[k], es, bytes);
    forall i | 0 <= i < |u.entries|
      ensures u.entries[i].value < Pow256(es)
    {
      UpdateShowsLiveWords(scans[k], es, bytes, i);
    }
    var scans' := scans[k := u];
    forall s | s in scans'
      ensures Usable(s, es) && ValuesFit(s, es)
    {
      if s != u {
        assert s in scans;
      }
    }
  }

  /**
   * The list of a run with updates is usable, and differs from the plain run's in live values and
   * reread buffers only.
   */
  ghost predicate Faithful(first: Pass, plain: seq<Scan>, scans: seq<Scan>) {
    && SameHistories(plain, scans)
    && forall s :: s in scans ==> Usable(s, Width(first.query)) && ValuesFit(s, Width(first.query))
  }

  lemma {:induction false} PlainIsFaithful(first: Pass, rest: seq<Pass>)
    requires WellFormed(first, rest)
    ensures Faithful(first, Run(first, rest), Run(first, rest))
  {
    RunFresh(first, rest);
    forall s | s in Run(first, rest)
      ensures ValuesFit(s, Width(first.query))
    {
      FreshValuesFit(s, Width(first.query));
    }
  }

  lemma {:induction false} NarrowKeepsFaithful(first: Pass, rest: seq<Pass>, p: Pass, scans: seq<Scan>)
    requires WellFormed(first, rest + [p]) && WellFormed(first, rest) && Faithful(first, Run(first, rest), scans)
    ensures Faithful(first, Run(first, rest + [p]), NextScan(p.regions, scans, p.target, p.query))
  {
    assert (rest + [p])[..|rest|] == rest;
    RunFresh(first, rest);
    NextScanSeesHistory(p.regions, Run(first, rest), scans, p.target, p.query);
    PlainIsFaithful(first, rest + [p]);
  }

  lemma {:induction false} NarrowingsPrefix(first: Pass, rest: seq<Pass>, p: Pass)
    requires WellFormed(first, rest + [p])
    ensures WellFormed(first, rest)
  {
    assert forall x :: x in rest ==> x in rest + [p];
  }

  /**
   * Updates are invisible to later scans: whatever was reread between the scans, the list differs
   * from that of the run without updates in live values and reread buffers only.
   */
  lemma {:induction false} UpdatesInvisible(first: Pass, steps: seq<Step>)
    requires WellFormed(first, Narrowings(steps))
    ensures Faithful(first, Run(first, Narrowings(steps)), RunSteps(first, steps))
  {
    if steps == [] {
      PlainIsFaithful(first, []);
    } else {
      var init, last := steps[..|steps| - 1], steps[|steps| - 1];
      if last.Narrow? {
        NarrowingsPrefix(first, Narrowings(init), last.pass);
        UpdatesInvisible(first, init);
        NarrowKeepsFaithful(first, Narrowings(init), last.pass, RunSteps(first, init));
      } else {
        assert Narrowings(steps) == Narrowings(init);
        UpdatesInvisible(first, init);
        RefreshKeepsFaithful(first, Run(first, Narrowings(init)), RunSteps(first, init), last.index, last.target,
                             last.copied);
      }
    }
  }

  lemma {:induction false} RefreshKeepsFaithful(first: Pass, plain: seq<Scan>, scans: seq<Scan>, k: nat, t: Target,
      copied: nat)
    requires Faithful(first, plain, scans)
    ensures var es := Width(first.query);
            k < |scans| ==> scans[k] in scans
                            && Faithful(first, plain, scans[k := Update(scans[k], es, Reread(scans[k], t, copied))])
  {
    if k < |scans| {
      RefreshKeeps(scans, plain, Width(first.query), k, Reread(scans[k], t, copied));
    }
  }

  /** The byte range of the element was copied: the region could be read, or the failing read got past it. */
  predicate GotPast(s: Scan, es: ElemSize, t: Target, copied: nat, e: Entry) {
    t.readable(s.base) || Stride(e.index, es) + es <= copied
  }

  /** What update shows of an element that was copied: the target's word at its address. */
  lemma {:induction false} UpdateShowsTarget(s: Scan, es: ElemSize, t: Target, copied: nat, i: nat)
    requires InBounds(s, es) && ValuesFit(s, es) && i < |s.entries| && GotPast(s, es, t, copied, s.entries[i])
    ensures var e := Update(s, es, Reread(s, t, copied)).entries[i];
            && e.value == MemoryWord(t.memory, s.base + Stride(s.entries[i].index, es), es)
            && e.index == s.entries[i].index && e.snapshot == s.entries[i].snapshot
  {
    assert s.entries[i] in s.entries;
    var pos := Stride(s.entries[i].index, es);
    UpdateShowsLiveWords(s, es, Reread(s, t, copied), i);
    SnapshotWord(t, RegionOf(s), pos, es);
    assert Reread(s, t, copied)[pos..pos + es] == ReadRegion(t, RegionOf(s))[pos..pos + es];
    WordInjective(Reread(s, t, copied), pos, ReadRegion(t, RegionOf(s)), pos, es);
  }

  /** What it shows of an element a failing read did not reach: the word that was in the buffer before. */
  lemma {:induction false} UpdateShowsBuffer(s: Scan, es: ElemSize, t: Target, copied: nat, i: nat)
    requires InBounds(s, es) && ValuesFit(s, es) && i < |s.entries|
    requires !t.readable(s.base) && copied <= Stride(s.entries[i].index, es)
    ensures s.entries[i] in s.entries
    ensures var e := Update(s, es, Reread(s, t, copied)).entries[i];
            && e.value == Word(s.bytes, Stride(s.entries[i].index, es), es)
            && e.index == s.entries[i].index && e.snapshot == s.entries[i].snapshot
  {
    assert s.entries[i] in s.entries;
    var pos := Stride(s.entries[i].index, es);
    UpdateShowsLiveWords(s, es, Reread(s, t, copied), i);
    assert Reread(s, t, copied)[pos..pos + es] == s.bytes[pos..pos + es];
    WordInjective(Reread(s, t, copied), pos, s.bytes, pos, es);
  }

  /** A refresh of scan k after these steps acts on it. */
  lemma {:induction false} LastRefresh(first: Pass, steps: seq<Step>, k: nat, t: Target, copied: nat)
    requires WellFormed(first, Narrowings(steps)) && k < |RunSteps(first, steps)|
    ensures var s := RunSteps(first, steps)[k];
            && InBounds(s, Width(first.query)) && ValuesFit(s, Width(first.query))
            && RunSteps(first, steps + [Refresh(k, t, copied)])
               == RunSteps(first, steps)[k := Update(s, Width(first.query), Reread(s, t, copied))]
  {
    var scans := RunSteps(first, steps);
    UpdatesInvisible(first, steps);
    FaithfulAt(first, Run(first, Narrowings(steps)), scans, k);
    RefreshStep(first, steps, k, t, copied);
  }

  lemma {:induction false} FaithfulAt(first: Pass, plain: seq<Scan>, scans: seq<Scan>, k: nat)
    requires Faithful(first, plain, scans) && k < |scans|
    ensures InBounds(scans[k], Width(first.query)) && ValuesFit(scans[k], Width(first.query))
  {
    assert scans[k] in scans;
  }

  lemma {:induction false} RefreshStep(first: Pass, steps: seq<Step>, k: nat, t: Target, copied: nat)
    requires k < |RunSteps(first, steps)| && InBounds(RunSteps(first, steps)[k], Width(first.query))
    ensures var s := RunSteps(first, steps)[k];
            RunSteps(first, steps + [Refresh(k, t, copied)])
            == RunSteps(first, steps)[k := Update(s, Width(first.query), Reread(s, t, copied))]
  {
    assert (steps + [Refresh(k, t, copied)])[..|steps|] == steps;
  }

  /**
   * What a refresh is for: if the region can be read, or a failing read got past the element, its live
   * value is the word the target holds at its address; its index and snapshot are untouched.
   */
  lemma {:induction false} RefreshShowsTarget(first: Pass, steps: seq<Step>, k: nat, t: Target, copied: nat, i: nat)
    requires WellFormed(first, Narrowings(steps))
    requires k < |RunSteps(first, steps)| && i < |RunSteps(first, steps)[k].entries|
    requires var s := RunSteps(first, steps)[k]; GotPast(s, Width(first.query), t, copied, s.entries[i])
    ensures var s, es := RunSteps(first, steps)[k], Width(first.query);
            var now, e := RunSteps(first, steps + [Refresh(k, t, copied)]), s.entries[i];
            && k < |now| && |now[k].entries| == |s.entries| && now[k].base == s.base
            && now[k].entries[i] == Entry(MemoryWord(t.memory, s.base + Stride(e.index, es), es), e.snapshot, e.index)
  {
    var s, es := RunSteps(first, steps)[k], Width(first.query);
    LastRefresh(first, steps, k, t, copied);
    UpdateShowsTarget(s, es, t, copied, i);
  }

  /** If the read fails before it reaches the element, its live value is the word that was in the buffer. */
  lemma {:induction false} FailedRefreshShowsBuffer(first: Pass, steps: seq<Step>, k: nat, t: Target, copied: nat,
      i: nat)
    requires WellFormed(first, Narrowings(steps))
    requires k < |RunSteps(first, steps)| && i < |RunSteps(first, steps)[k].entries|
    requires var s := RunSteps(first, steps)[k];
             !t.readable(s.base) && copied <= Stride(s.entries[i].index, Width(first.query))
    ensures var s, es := RunSteps(first, steps)[k], Width(first.query);
            var now, e := RunSteps(first, steps + [Refresh(k, t, copied)]), s.entries[i];
            && Stride(e.index, es) + es <= |s.bytes|
            && k < |now| && |now[k].entries| == |s.entries| && now[k].base == s.base
            && now[k].entries[i] == Entry(Word(s.bytes, Stride(e.index, es), es), e.snapshot, e.index)
  {
    var s, es := RunSteps(first, steps)[k], Width(first.query);
    LastRefresh(first, steps, k, t, copied);
    UpdateShowsBuffer(s, es, t, copied, i);
  }

  /** Each byte of the element is reached by the reread, or is in the buffer as the target has it already. */
  predicate UpToDate(s: Scan, es: ElemSize, t: Target, copied: nat, e: Entry)
    requires Stride(e.index, es) + es <= |s.bytes|
  {
    forall k :: Stride(e.index, es) <= k < Stride(e.index, es) + es
                ==> t.readable(s.base) || k < copied || s.bytes[k] == t.memory(s.base + k)
  }

  lemma {:induction false} SlicesAgree(a: seq<Byte>, b: seq<Byte>, lo: nat, hi: nat)
    requires lo <= hi <= |a| && hi <= |b|
    ensures a[lo..hi] == b[lo..hi] <==> forall k :: lo <= k < hi ==> a[k] == b[k]
  {
    if a[lo..hi] == b[lo..hi] {
      forall k | lo <= k < hi
        ensures a[k] == b[k]
      {
        assert a[k] == a[lo..hi][k - lo] && b[k] == b[lo..hi][k - lo];
      }
    }
  }

  /** A byte of the reread buffer is the target's exactly when it was reached or was so already. */
  lemma {:induction false} RereadByte(s: Scan, t: Target, copied: nat, k: nat)
    requires k < |s.bytes|
    ensures Reread(s, t, copied)[k] == ReadRegion(t, RegionOf(s))[k]
            <==> t.readable(s.base) || k < copied || s.bytes[k] == t.memory(s.base + k)
  {
  }

  lemma {:induction false} RereadAgrees(s: Scan, es: ElemSize, t: Target, copied: nat, e: Entry, was: seq<Byte>,
      now: seq<Byte>)
    requires Stride(e.index, es) + es <= |s.bytes| == |was| == |now|
    requires forall k :: 0 <= k < |was|
               ==> (was[k] == now[k] <==> t.readable(s.base) || k < copied || s.bytes[k] == t.memory(s.base + k))
    ensures var pos := Stride(e.index, es); was[pos..pos + es] == now[pos..pos + es] <==> UpToDate(s, es, t, copied, e)
  {
    SlicesAgree(was, now, Stride(e.index, es), Stride(e.index, es) + es);
  }

  lemma {:induction false} RereadBytes(s: Scan, t: Target, copied: nat, was: seq<Byte>, now: seq<Byte>)
    requires was == Reread(s, t, copied) && now == ReadRegion(t, RegionOf(s))
    ensures forall k :: 0 <= k < |was|
              ==> (was[k] == now[k] <==> t.readable(s.base) || k < copied || s.bytes[k] == t.memory(s.base + k))
  {
    forall k | 0 <= k < |was|
      ensures was[k] == now[k] <==> t.readable(s.base) || k < copied || s.bytes[k] == t.memory(s.base + k)
    {
      RereadByte(s, t, copied, k);
    }
  }

  lemma {:induction false} RereadWord(s: Scan, es: ElemSize, t: Target, copied: nat, e: Entry, was: seq<Byte>,
      now: seq<Byte>)
    requires Stride(e.index, es) + es <= |s.bytes| == |was| == |now|
    requires forall k :: 0 <= k < |was|
               ==> (was[k] == now[k] <==> t.readable(s.base) || k < copied || s.bytes[k] == t.memory(s.base + k))
    ensures var pos := Stride(e.index, es); Word(was, pos, es) == Word(now, pos, es) <==> UpToDate(s, es, t, copied, e)
  {
    RereadAgrees(s, es, t, copied, e, was, now);
    WordInjective(was, Stride(e.index, es), now, Stride(e.index, es), es);
  }

  lemma {:induction false} RereadShows(s: Scan, es: ElemSize, t: Target, copied: nat, e: Entry)
    requires Stride(e.index, es) + es <= |s.bytes|
    ensures var pos := Stride(e.index, es);
            Word(Reread(s, t, copied), pos, es) == MemoryWord(t.memory, s.base + pos, es)
            <==> UpToDate(s, es, t, copied, e)
  {
    var was, now := Reread(s, t, copied), ReadRegion(t, RegionOf(s));
    SnapshotWord(t, RegionOf(s), Stride(e.index, es), es);
    RereadBytes(s, t, copied, was, now);
    RereadWord(s, es, t, copied, e, was, now);
  }

  lemma {:induction false} UpdateExact(s: Scan, es: ElemSize, t: Target, copied: nat, i: nat)
    requires InBounds(s, es) && ValuesFit(s, es) && i < |s.entries|
    ensures s.entries[i] in s.entries
    ensures Update(s, es, Reread(s, t, copied)).entries[i].value
            == MemoryWord(t.memory, s.base + Stride(s.entries[i].index, es), es)
            <==> UpToDate(s, es, t, copied, s.entries[i])
  {
    UpdateShowsLiveWords(s, es, Reread(s, t, copied), i);
    RereadShows(s, es, t, copied, s.entries[i]);
  }

  /**
   * Exactly when a refresh shows the target: the element's bytes that a failing read did not reach must
   * be in the buffer as the target has them.
   */
  lemma {:induction false} RefreshExact(first: Pass, steps: seq<Step>, k: nat, t: Target, copied: nat, i: nat)
    requires WellFormed(first, Narrowings(steps))
    requires k < |RunSteps(first, steps)| && i < |RunSteps(first, steps)[k].entries|
    ensures var s, es := RunSteps(first, steps)[k], Width(first.query);
            var now := RunSteps(first, steps + [Refresh(k, t, copied)]);
            && Stride(s.entries[i].index, es) + es <= |s.bytes| && k < |now| && i < |now[k].entries|
            && (now[k].entries[i].value == MemoryWord(t.memory, s.base + Stride(s.entries[i].index, es), es)
                <==> UpToDate(s, es, t, copied, s.entries[i]))
  {
    LastRefresh(first, steps, k, t, copied);
    UpdateExact(RunSteps(first, steps)[k], Width(first.query), t, copied, i);
  }
}
