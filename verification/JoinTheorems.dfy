/** next_scan over whole lists: the two-pointer walk, the candidates it keeps, and the ones it loses. */
module JoinTheorems {
  import opened Bytes
  import opened Comparator
  import opened ScanModel
  import opened SearchTheorems
  import opened RemapTheorems
  import opened PairTheorems

  predicate Overlaps(r: Region, p: Scan) {
    r.base < p.End() && p.base < r.End()
  }

  /** The lowest-indexed previous scan the region overlaps, or |prevs|. */
  function FirstOverlap(r: Region, prevs: seq<Scan>): (j: nat)
    ensures j <= |prevs|
    ensures j < |prevs| ==> Overlaps(r, prevs[j])
    ensures forall i :: 0 <= i < j ==> !Overlaps(r, prevs[i])
  {
    if prevs == [] || Overlaps(r, prevs[0]) then 0 else 1 + FirstOverlap(r, prevs[1..])
  }

  function ScanFirstOverlap(r: Region, prevs: seq<Scan>, t: Target, q: Query): seq<Scan> {
    var j := FirstOverlap(r, prevs);
    if j == |prevs| then [] else ScanPair(r, prevs[j], t, q)
  }

  /** The nested-loop join: every region searches the previous scans from the start. */
  function NestedScan(regions: seq<Region>, prevs: seq<Scan>, t: Target, q: Query): seq<Scan> {
    if regions == [] then
      []
    else
      ScanFirstOverlap(regions[0], prevs, t, q) + NestedScan(regions[1..], prevs, t, q)
  }

  /** Non-empty and sorted by base; overlaps are allowed. */
  predicate SortedRegions(regions: seq<Region>) {
    (forall r :: r in regions ==> r.size > 0)
    && forall i, j :: 0 <= i < j < |regions| ==> regions[i].base <= regions[j].base
  }

  predicate SortedScans(scans: seq<Scan>) {
    (forall s :: s in scans ==> s.bytes != [])
    && forall i, j :: 0 <= i < j < |scans| ==> scans[i].base <= scans[j].base
  }

  lemma {:induction false} NoOverlapSkips(r: Region, prevs: seq<Scan>, t: Target, q: Query)
    requires forall p :: p in prevs ==> !Overlaps(r, p)
    ensures ScanFirstOverlap(r, prevs, t, q) == []
  {
    assert forall i :: 0 <= i < |prevs| ==> prevs[i] in prevs;
  }

  /** A previous scan that ends before every remaining region can be dropped. */
  lemma {:induction false} DropPassed(regions: seq<Region>, prevs: seq<Scan>, t: Target, q: Query)
    requires prevs != [] && forall r :: r in regions ==> prevs[0].End() <= r.base
    ensures NestedScan(regions, prevs, t, q) == NestedScan(regions, prevs[1..], t, q)
  {
    if regions != [] {
      DropPassed(regions[1..], prevs, t, q);
      assert regions[0] in regions;
      assert FirstOverlap(regions[0], prevs) == 1 + FirstOverlap(regions[0], prevs[1..]);
    }
  }

  lemma {:induction false} NoPrevious(regions: seq<Region>, t: Target, q: Query)
    ensures NestedScan(regions, [], t, q) == []
  {
    if regions != [] {
      NoPrevious(regions[1..], t, q);
    }
  }

  /**
   * On sorted lists the two-pointer walk is the nested-loop join: each region is paired with the
   * lowest-indexed previous scan it overlaps, and skipped exactly when it overlaps none.
   */
  lemma {:induction false} TwoPointerIsNested(regions: seq<Region>, prevs: seq<Scan>, t: Target, q: Query)
    requires SortedRegions(regions) && SortedScans(prevs)
    ensures NextScan(regions, prevs, t, q) == NestedScan(regions, prevs, t, q)
    decreases |regions| + |prevs|
  {
    if regions == [] {
    } else if prevs == [] {
      NoPrevious(regions, t, q);
    } else {
      var r, p := regions[0], prevs[0];
      assert r in regions && p in prevs;
      if r.End() <= p.base {
        TwoPointerIsNested(regions[1..], prevs, t, q);
        NoOverlapSkips(r, prevs, t, q);
      } else if p.End() <= r.base {
        TwoPointerIsNested(regions, prevs[1..], t, q);
        DropPassed(regions, prevs, t, q);
      } else {
        TwoPointerIsNested(regions[1..], prevs, t, q);
        assert Overlaps(r, p) && FirstOverlap(r, prevs) == 0;
      }
    }
  }

  /** The previous scan the region is paired with. */
  ghost predicate Partner(r: Region, prevs: seq<Scan>, p: Scan) {
    FirstOverlap(r, prevs) < |prevs| && prevs[FirstOverlap(r, prevs)] == p
  }

  /** Where each scan of next_scan comes from. */
  lemma {:induction false} NestedMembers(regions: seq<Region>, prevs: seq<Scan>, t: Target, q: Query)
    ensures forall s :: s in NestedScan(regions, prevs, t, q)
              <==> exists r, p :: r in regions && Partner(r, prevs, p) && s in ScanPair(r, p, t, q)
  {
    if regions != [] {
      NestedMembers(regions[1..], prevs, t, q);
      assert regions == [regions[0]] + regions[1..];
      forall s | s in ScanFirstOverlap(regions[0], prevs, t, q)
        ensures exists r, p :: r in regions && Partner(r, prevs, p) && s in ScanPair(r, p, t, q)
      {
        assert Partner(regions[0], prevs, prevs[FirstOverlap(regions[0], prevs)]);
      }
    }
  }

  lemma {:induction false} NestedAbove(regions: seq<Region>, prevs: seq<Scan>, t: Target, q: Query, base: nat)
    requires forall i :: 0 <= i < |regions| ==> regions[i].base >= base
    ensures forall i :: 0 <= i < |NestedScan(regions, prevs, t, q)| ==> NestedScan(regions, prevs, t, q)[i].base >= base
    decreases |regions|
  {
    if regions != [] {
      NestedAbove(regions[1..], prevs, t, q, base);
    }
  }

  /** next_scan returns fresh scans in increasing order of base, none of them raw. */
  lemma {:induction false} NestedFresh(regions: seq<Region>, prevs: seq<Scan>, t: Target, q: Query)
    requires Layout(regions, Width(q)) && AllUsable(prevs, Width(q))
    ensures AllFresh(NestedScan(regions, prevs, t, q), Width(q))
    ensures forall s :: s in NestedScan(regions, prevs, t, q) ==> s.kind == q.kind && !s.kind.UnknownValue?
    decreases |regions|
  {
    if regions != [] {
      var r := regions[0];
      assert r in regions;
      NestedFresh(regions[1..], prevs, t, q);
      if FirstOverlap(r, prevs) < |prevs| {
        PairFresh(r, prevs[FirstOverlap(r, prevs)], t, q);
      }
      NestedAbove(regions[1..], prevs, t, q, r.End());
    }
  }

  lemma {:induction false} LayoutIsSorted(regions: seq<Region>, prevs: seq<Scan>, es: ElemSize)
    requires Layout(regions, es) && AllUsable(prevs, es)
    ensures SortedRegions(regions) && SortedScans(prevs)
  {
    assert forall i :: 0 <= i < |regions| ==> regions[i] in regions;
    assert forall i :: 0 <= i < |prevs| ==> prevs[i] in prevs;
  }

  lemma {:induction false} NextScanFresh(regions: seq<Region>, prevs: seq<Scan>, t: Target, q: Query)
    requires Layout(regions, Width(q)) && AllUsable(prevs, Width(q))
    ensures AllFresh(NextScan(regions, prevs, t, q), Width(q))
    ensures forall s :: s in NextScan(regions, prevs, t, q) ==> s.kind == q.kind && !s.kind.UnknownValue?
  {
    LayoutIsSorted(regions, prevs, Width(q));
    TwoPointerIsNested(regions, prevs, t, q);
    NestedFresh(regions, prevs, t, q);
  }

  lemma {:induction false} NestedSound(regions: seq<Region>, prevs: seq<Scan>, t: Target, q: Query, a: nat, v: nat)
    requires Layout(regions, Width(q)) && AllUsable(prevs, Width(q))
    requires Candidate(NestedScan(regions, prevs, t, q), Width(q), a, v)
    ensures exists r, p :: r in regions && Partner(r, prevs, p) && CarriedBy(r, p, t, q, a, v)
  {
    NestedMembers(regions, prevs, t, q);
    var s :| s in NestedScan(regions, prevs, t, q) && Holds(s, Width(q), a, v);
    var r, p :| r in regions && Partner(r, prevs, p) && s in ScanPair(r, p, t, q);
    assert p in prevs;
    PairSound(r, p, t, q, a, v);
  }

  lemma {:induction false} NestedComplete(regions: seq<Region>, prevs: seq<Scan>, t: Target, q: Query, a: nat, v: nat,
      r: Region, p: Scan)
    requires Layout(regions, Width(q)) && AllUsable(prevs, Width(q))
    requires r in regions && Partner(r, prevs, p) && CarriedBy(r, p, t, q, a, v)
    ensures Candidate(NestedScan(regions, prevs, t, q), Width(q), a, v)
  {
    NestedMembers(regions, prevs, t, q);
    assert p in prevs;
    PairComplete(r, p, t, q, a, v);
    var s :| s in ScanPair(r, p, t, q) && Holds(s, Width(q), a, v);
    assert s in NestedScan(regions, prevs, t, q);
  }

  /**
   * The candidates of next_scan, by address: a previous candidate survives exactly when it lies
   * wholly in a readable region, belongs to the first previous scan that region overlaps, and the
   * value read there now is accepted.
   */
  lemma {:induction false} NextScanExact(regions: seq<Region>, prevs: seq<Scan>, t: Target, q: Query, a: nat, v: nat)
    requires Layout(regions, Width(q)) && AllUsable(prevs, Width(q))
    ensures Candidate(NextScan(regions, prevs, t, q), Width(q), a, v)
            <==> exists r, p :: r in regions && Partner(r, prevs, p) && CarriedBy(r, p, t, q, a, v)
  {
    LayoutIsSorted(regions, prevs, Width(q));
    TwoPointerIsNested(regions, prevs, t, q);
    if Candidate(NextScan(regions, prevs, t, q), Width(q), a, v) {
      NestedSound(regions, prevs, t, q, a, v);
    }
    if r, p :| r in regions && Partner(r, prevs, p) && CarriedBy(r, p, t, q, a, v) {
      NestedComplete(regions, prevs, t, q, a, v, r, p);
    }
  }

  // ---------- next_scan as a filter of the previous candidates ----------

  /** The survivors a pure address filter would keep, whatever regions they used to belong to. */
  ghost predicate Filtered(regions: seq<Region>, prevs: seq<Scan>, t: Target, q: Query, a: nat, v: nat) {
    exists r, p :: r in regions && p in prevs && CarriedBy(r, p, t, q, a, v)
  }

  /** No survivor is lost. */
  ghost predicate Complete(regions: seq<Region>, prevs: seq<Scan>, t: Target, q: Query) {
    forall a, v :: Filtered(regions, prevs, t, q, a, v) ==> Candidate(NextScan(regions, prevs, t, q), Width(q), a, v)
  }

  /** The region overlaps scan i and wholly contains a candidate of scan j. */
  ghost predicate Hides(r: Region, prevs: seq<Scan>, es: ElemSize, i: nat, j: nat)
    requires i < |prevs| && j < |prevs|
  {
    Overlaps(r, prevs[i]) && exists a, v :: Holds(prevs[j], es, a, v) && Whole(r, es, a)
  }

  /** No region that overlaps one previous scan holds a candidate of a later one. */
  ghost predicate Unmerged(regions: seq<Region>, prevs: seq<Scan>, es: ElemSize) {
    forall r, i, j :: r in regions && 0 <= i < j < |prevs| ==> !Hides(r, prevs, es, i, j)
  }

  lemma {:induction false} NoFalseSurvivor(regions: seq<Region>, prevs: seq<Scan>, t: Target, q: Query, a: nat, v: nat)
    requires Layout(regions, Width(q)) && AllUsable(prevs, Width(q))
    requires Candidate(NextScan(regions, prevs, t, q), Width(q), a, v)
    ensures Filtered(regions, prevs, t, q, a, v)
  {
    NextScanExact(regions, prevs, t, q, a, v);
  }

  /** A region's candidate that no earlier scan hides belongs to the region's partner. */
  lemma {:induction false} UnhiddenPartner(regions: seq<Region>, prevs: seq<Scan>, es: ElemSize, r: Region, p: Scan,
      a: nat, v0: nat)
    requires AllUsable(prevs, es) && Unmerged(regions, prevs, es)
    requires r in regions && p in prevs && Holds(p, es, a, v0) && Whole(r, es, a)
    ensures Partner(r, prevs, p)
  {
    var j :| 0 <= j < |prevs| && prevs[j] == p;
    HoldsInside(p, es, a, v0);
    var i := FirstOverlap(r, prevs);
    if i < j {
      assert Hides(r, prevs, es, i, j);
    }
  }

  lemma {:induction false} UnmergedIsComplete(regions: seq<Region>, prevs: seq<Scan>, t: Target, q: Query, a: nat,
      v: nat)
    requires Layout(regions, Width(q)) && AllUsable(prevs, Width(q)) && Unmerged(regions, prevs, Width(q))
    requires Filtered(regions, prevs, t, q, a, v)
    ensures Candidate(NextScan(regions, prevs, t, q), Width(q), a, v)
  {
    var r, p :| r in regions && p in prevs && CarriedBy(r, p, t, q, a, v);
    var v0 :| Holds(p, Width(q), a, v0) && Accepts(q, v, Reference(p.kind, q, v0));
    UnhiddenPartner(regions, prevs, Width(q), r, p, a, v0);
    NextScanExact(regions, prevs, t, q, a, v);
  }

  /** A target whose every byte is b. */
  function Filled(b: Byte): Target {
    Target((a: nat) => b, (a: nat) => true)
  }

  lemma {:induction false} FilledWord(b: Byte, a: nat, n: nat)
    requires n > 0 && b <= 1
    ensures MemoryWord(Filled(b).memory, a, n) == 0 <==> b == 0
    decreases n
  {
    if n > 1 {
      FilledWord(b, a + 1, n - 1);
    }
  }

  lemma {:induction false} MergedLosesCandidate(regions: seq<Region>, prevs: seq<Scan>, q: Query, r: Region, i: nat,
      j: nat, a: nat, v0: nat)
    requires Layout(regions, Width(q)) && AllUsable(prevs, Width(q)) && q.elem != Float && q.elem != Double
    requires r in regions && i < j < |prevs| && Overlaps(r, prevs[i])
    requires Holds(prevs[j], Width(q), a, v0) && Whole(r, Width(q), a)
    ensures exists t, c :: !Complete(regions, prevs, t, q.(kind := c))
  {
    var t := Filled(if v0 == 0 then 1 else 0);
    var q' := q.(kind := Changed);
    var v := MemoryWord(t.memory, a, Width(q));
    FilledWord(if v0 == 0 then 1 else 0, a, Width(q));
    assert v != v0 && Reference(prevs[j].kind, q', v0) == v0;
    assert Accepts(q', v, Reference(prevs[j].kind, q', v0));
    assert Passes(prevs[j], q', a, v);
    assert prevs[j] in prevs && CarriedBy(r, prevs[j], t, q', a, v);
    assert Filtered(regions, prevs, t, q', a, v);
    if Candidate(NextScan(regions, prevs, t, q'), Width(q), a, v) {
      NextScanExact(regions, prevs, t, q', a, v);
      var r', p' :| r' in regions && Partner(r', prevs, p') && CarriedBy(r', p', t, q', a, v);
      var v1 :| Holds(p', Width(q), a, v1) && Accepts(q', v, Reference(p'.kind, q', v1));
      var j' := FirstOverlap(r', prevs);
      assert prevs[j'] in prevs && prevs[j] in prevs;
      HoldsInside(prevs[j'], Width(q), a, v1);
      HoldsInside(prevs[j], Width(q), a, v0);
      assert j' == j;
      SameRegion(regions, r, r', Width(q), a);
      assert false;
    }
    assert !Complete(regions, prevs, t, q.(kind := Changed));
  }

  /** Disjoint regions cannot share an element. */
  lemma {:induction false} SameRegion(regions: seq<Region>, r: Region, r': Region, es: ElemSize, a: nat)
    requires Layout(regions, es) && r in regions && r' in regions && Whole(r, es, a) && Whole(r', es, a)
    ensures r == r'
  {
    var i :| 0 <= i < |regions| && regions[i] == r;
    var j :| 0 <= j < |regions| && regions[j] == r';
  }

  /**
   * next_scan loses no survivor, whatever the target holds and whatever is asked, exactly when no
   * region that overlaps one previous scan holds a candidate of a later one.
   */
  lemma {:induction false} CompleteIffUnmerged(regions: seq<Region>, prevs: seq<Scan>, q: Query)
    requires Layout(regions, Width(q)) && AllUsable(prevs, Width(q)) && q.elem != Float && q.elem != Double
    ensures (forall t, c :: Complete(regions, prevs, t, q.(kind := c))) <==> Unmerged(regions, prevs, Width(q))
  {
    if Unmerged(regions, prevs, Width(q)) {
      forall t, c, a, v | Filtered(regions, prevs, t, q.(kind := c), a, v)
        ensures Candidate(NextScan(regions, prevs, t, q.(kind := c)), Width(q), a, v)
      {
        UnmergedIsComplete(regions, prevs, t, q.(kind := c), a, v);
      }
    } else {
      var r, i, j :| r in regions && 0 <= i < j < |prevs| && Hides(r, prevs, Width(q), i, j);
      var a, v0 :| Holds(prevs[j], Width(q), a, v0) && Whole(r, Width(q), a);
      MergedLosesCandidate(regions, prevs, q, r, i, j, a, v0);
    }
  }
}
