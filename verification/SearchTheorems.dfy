/** first_scan: the strided search keeps exactly the elements the comparator accepts. */
module SearchTheorems {
  import opened Bytes
  import opened Comparator
  import opened ScanModel

  /** There is one entry for each element. */
  lemma {:induction false} ElementUnique(bytes: seq<Byte>, es: ElemSize, d: Entry, e: Entry)
    requires IsElement(bytes, es, d) && IsElement(bytes, es, e) && d.index == e.index
    ensures d == e
  {
  }

  lemma {:induction false} LastIsOnly(bytes: seq<Byte>, es: ElemSize, n: nat, d: Entry, e: Entry)
    requires n > 0 && d.index == n - 1 && IsElement(bytes, es, d)
    ensures e == d <==> e.index == n - 1 && IsElement(bytes, es, e)
  {
    if e.index == n - 1 && IsElement(bytes, es, e) {
      ElementUnique(bytes, es, d, e);
    }
  }

  /** In order, without duplicates, and precisely the accepted elements among the first n. */
  lemma {:induction false} SearchExact(bytes: seq<Byte>, q: Query, n: nat)
    requires Stride(n, Width(q)) <= |bytes|
    ensures Indexed(Search(bytes, q, n))
    ensures forall e :: e in Search(bytes, q, n)
              <==> e.index < n && IsElement(bytes, Width(q), e) && Accepts(q, e.value, q.raw1)
    decreases n
  {
    if n > 0 {
      SearchExact(bytes, q, n - 1);
      var before := Search(bytes, q, n - 1);
      var v := Word(bytes, Stride(n - 1, Width(q)), Width(q));
      var d := Entry(v, v, n - 1);
      assert Search(bytes, q, n) == before + if Accepts(q, v, q.raw1) then [d] else [];
      assert IsElement(bytes, Width(q), d);
      forall e
        ensures e in Search(bytes, q, n)
                <==> e.index < n && IsElement(bytes, Width(q), e) && Accepts(q, e.value, q.raw1)
      {
        LastIsOnly(bytes, Width(q), n, d, e);
      }
      assert forall i :: 0 <= i < |before| ==> before[i] in before;
    }
  }

  lemma {:induction false} LastElement(bytes: seq<Byte>, es: ElemSize, n: nat) returns (e: Entry)
    requires n > 0 && Stride(n, es) <= |bytes|
    ensures e.index == n - 1 && IsElement(bytes, es, e)
    ensures EveryElement(bytes, es, n) == EveryElement(bytes, es, n - 1) + [e]
  {
    var v := Word(bytes, Stride(n - 1, es), es);
    e := Entry(v, v, n - 1);
  }

  lemma {:induction false} IndexedAppend(before: seq<Entry>, d: Entry)
    requires Indexed(before) && forall e :: e in before ==> e.index < d.index
    ensures Indexed(before + [d])
  {
    assert forall i :: 0 <= i < |before| ==> before[i] in before;
  }

  lemma {:induction false} EveryElementExact(bytes: seq<Byte>, es: ElemSize, n: nat)
    requires Stride(n, es) <= |bytes|
    ensures Indexed(EveryElement(bytes, es, n))
    ensures forall e :: e in EveryElement(bytes, es, n) <==> e.index < n && IsElement(bytes, es, e)
    decreases n
  {
    if n > 0 {
      EveryElementExact(bytes, es, n - 1);
      var before := EveryElement(bytes, es, n - 1);
      var d := LastElement(bytes, es, n);
      forall e
        ensures e in before + [d] <==> e.index < n && IsElement(bytes, es, e)
      {
        LastIsOnly(bytes, es, n, d, e);
      }
      IndexedAppend(before, d);
    }
  }

  /** A word of a region's snapshot is the target's word at the same address. */
  lemma {:induction false} SnapshotWord(t: Target, r: Region, pos: nat, n: nat)
    requires pos + n <= r.size
    ensures Word(ReadRegion(t, r), pos, n) == MemoryWord(t.memory, r.base + pos, n)
    decreases n
  {
    if n > 0 {
      SnapshotWord(t, r, pos + 1, n - 1);
    }
  }

  /** An element of the given width lies wholly in the region. */
  predicate Whole(r: Region, es: ElemSize, a: nat) {
    r.base <= a && a + es <= r.End()
  }

  /** The element at an address of a region is the entry whose index is its distance from the base. */
  lemma {:induction false} ElementAtAddress(r: Region, t: Target, es: ElemSize, e: Entry, a: nat)
    requires r.base + Stride(e.index, es) == a && Aligned(r.base, es)
    ensures IsElement(ReadRegion(t, r), es, e)
            <==> Whole(r, es, a) && e.value == e.snapshot == MemoryWord(t.memory, a, es)
    ensures Aligned(a, es)
  {
    if Whole(r, es, a) {
      SnapshotWord(t, r, Stride(e.index, es), es);
    }
    AlignedOffset(r.base, e.index, es);
  }

  /** The value passes the first scan's filter. */
  predicate FirstAccepts(q: Query, v: nat) {
    q.kind.UnknownValue? || Accepts(q, v, q.raw1)
  }

  function SearchAll(r: Region, t: Target, q: Query): seq<Entry> {
    CountFits(r.size, Width(q));
    Search(ReadRegion(t, r), q, Count(r.size, Width(q)))
  }

  /** What a readable region's scan keeps, whether it holds entries or stands for a raw snapshot. */
  lemma {:induction false} RegionKeeps(r: Region, t: Target, q: Query)
    requires t.readable(r.base)
    ensures var kept := Kept(Scan(r.base, ReadRegion(t, r), q.kind,
                                  if q.kind.UnknownValue? then [] else SearchAll(r, t, q)), Width(q));
            forall e :: e in kept <==> IsElement(ReadRegion(t, r), Width(q), e) && FirstAccepts(q, e.value)
  {
    var w, bytes := Width(q), ReadRegion(t, r);
    CountFits(|bytes|, w);
    SearchExact(bytes, q, Count(|bytes|, w));
    EveryElementExact(bytes, w, Count(|bytes|, w));
    forall e: Entry
      ensures IsElement(bytes, w, e) ==> e.index < Count(|bytes|, w)
    {
      StrideMonotone(e.index, Count(|bytes|, w), w);
    }
  }

  /** An aligned element lies wholly in the region, reads as v and passes the filter. */
  ghost predicate FoundIn(r: Region, t: Target, q: Query, a: nat, v: nat) {
    && t.readable(r.base)
    && Aligned(a, Width(q)) && Whole(r, Width(q), a)
    && v == MemoryWord(t.memory, a, Width(q))
    && FirstAccepts(q, v)
  }

  lemma {:induction false} ScanRegionSound(r: Region, t: Target, q: Query, a: nat, v: nat)
    requires Aligned(r.base, Width(q))
    requires Candidate(ScanRegion(r, t, q), Width(q), a, v)
    ensures FoundIn(r, t, q, a, v)
  {
    var s :| s in ScanRegion(r, t, q) && Holds(s, Width(q), a, v);
    var e :| e in Kept(s, Width(q)) && s.base + Stride(e.index, Width(q)) == a && e.snapshot == v;
    RegionKeeps(r, t, q);
    ElementAtAddress(r, t, Width(q), e, a);
  }

  lemma {:induction false} ScanRegionComplete(r: Region, t: Target, q: Query, a: nat, v: nat)
    requires Aligned(r.base, Width(q))
    requires FoundIn(r, t, q, a, v)
    ensures Candidate(ScanRegion(r, t, q), Width(q), a, v)
  {
    var i := IndexOfAddress(r.base, a, Width(q));
    var e := Entry(v, v, i);
    ElementAtAddress(r, t, Width(q), e, a);
    RegionKeeps(r, t, q);
    var entries := if q.kind.UnknownValue? then [] else SearchAll(r, t, q);
    var s := Scan(r.base, ReadRegion(t, r), q.kind, entries);
    assert e in Kept(s, Width(q));
    assert Holds(s, Width(q), a, v);
    assert ScanRegion(r, t, q) == [s];
  }

  /**
   * The scan of one region stands for the aligned elements that lie wholly in it, if it could be
   * read: all of them for unknown_value, otherwise those the comparator accepts against raw1.
   */
  lemma {:induction false} ScanRegionExact(r: Region, t: Target, q: Query, a: nat, v: nat)
    requires Aligned(r.base, Width(q))
    ensures Candidate(ScanRegion(r, t, q), Width(q), a, v) <==> FoundIn(r, t, q, a, v)
  {
    if FoundIn(r, t, q, a, v) {
      ScanRegionComplete(r, t, q, a, v);
    }
    if Candidate(ScanRegion(r, t, q), Width(q), a, v) {
      ScanRegionSound(r, t, q, a, v);
    }
  }

  lemma {:induction false} ScanRegionFresh(r: Region, t: Target, q: Query)
    requires r.size > 0 && Aligned(r.base, Width(q))
    ensures |ScanRegion(r, t, q)| <= 1
    ensures forall s :: s in ScanRegion(r, t, q)
              ==> Fresh(s, Width(q)) && s.base == r.base && s.bytes == ReadRegion(t, r) && s.kind == q.kind
  {
    var w, bytes := Width(q), ReadRegion(t, r);
    CountFits(|bytes|, w);
    SearchExact(bytes, q, Count(|bytes|, w));
  }

  /** Where each scan of first_scan comes from. */
  lemma {:induction false} FirstScanMembers(regions: seq<Region>, t: Target, q: Query)
    ensures forall s :: s in FirstScan(regions, t, q) <==> exists r :: r in regions && s in ScanRegion(r, t, q)
  {
    if regions != [] {
      var init, r0 := regions[..|regions| - 1], regions[|regions| - 1];
      FirstScanMembers(init, t, q);
      assert regions == init + [r0];
      forall s
        ensures s in FirstScan(regions, t, q) <==> exists r :: r in regions && s in ScanRegion(r, t, q)
      {
        if s in ScanRegion(r0, t, q) {
          assert r0 in regions;
        }
      }
    }
  }

  lemma {:induction false} FirstScanBelow(regions: seq<Region>, t: Target, q: Query, bound: nat)
    requires forall i :: 0 <= i < |regions| ==> regions[i].End() <= bound
    ensures forall i :: 0 <= i < |FirstScan(regions, t, q)| ==> FirstScan(regions, t, q)[i].End() <= bound
    decreases |regions|
  {
    if regions != [] {
      FirstScanBelow(regions[..|regions| - 1], t, q, bound);
    }
  }

  /** first_scan returns fresh scans in increasing order of base, one at most for each region. */
  lemma {:induction false} FirstScanFresh(regions: seq<Region>, t: Target, q: Query)
    requires Layout(regions, Width(q))
    ensures AllFresh(FirstScan(regions, t, q), Width(q))
    ensures forall s :: s in FirstScan(regions, t, q) ==> s.kind == q.kind
    decreases |regions|
  {
    if regions != [] {
      var init, r0 := regions[..|regions| - 1], regions[|regions| - 1];
      FirstScanFresh(init, t, q);
      FirstScanBelow(init, t, q, r0.base);
      ScanRegionFresh(r0, t, q);
    }
  }

  /** The candidates of first_scan are the accepted aligned elements of the readable regions. */
  lemma {:induction false} FirstScanExact(regions: seq<Region>, t: Target, q: Query, a: nat, v: nat)
    requires Layout(regions, Width(q))
    ensures Candidate(FirstScan(regions, t, q), Width(q), a, v)
            <==> exists r :: r in regions && FoundIn(r, t, q, a, v)
  {
    FirstScanMembers(regions, t, q);
    if Candidate(FirstScan(regions, t, q), Width(q), a, v) {
      var s :| s in FirstScan(regions, t, q) && Holds(s, Width(q), a, v);
      var r :| r in regions && s in ScanRegion(r, t, q);
      ScanRegionSound(r, t, q, a, v);
    }
    if r :| r in regions && FoundIn(r, t, q, a, v) {
      ScanRegionComplete(r, t, q, a, v);
    }
  }
}
