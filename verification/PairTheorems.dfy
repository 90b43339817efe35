/** next_scan, one region against one previous scan: which candidates survive, stated by address. */
module PairTheorems {
  import opened Bytes
  import opened Comparator
  import opened ScanModel
  import opened SearchTheorems
  import opened RemapTheorems

  /** What a usable scan keeps lies within its bytes, in increasing order. */
  lemma {:induction false} KeptInBounds(s: Scan, es: ElemSize)
    requires Usable(s, es)
    ensures Indexed(Kept(s, es))
    ensures forall e :: e in Kept(s, es) ==> Stride(e.index, es) + es <= |s.bytes|
  {
    CountFits(|s.bytes|, es);
    EveryElementExact(s.bytes, es, Count(|s.bytes|, es));
  }

  /** A candidate of a usable scan is an aligned element wholly inside the scanned region. */
  lemma {:induction false} HoldsInside(s: Scan, es: ElemSize, a: nat, v: nat)
    requires Usable(s, es) && Holds(s, es, a, v)
    ensures Aligned(a, es) && s.base <= a && a + es <= s.End()
  {
    var e :| e in Kept(s, es) && s.base + Stride(e.index, es) == a && e.snapshot == v;
    KeptInBounds(s, es);
    AlignedOffset(s.base, e.index, es);
  }

  /** A previous candidate at address a is accepted with the new value v. */
  ghost predicate Passes(p: Scan, q: Query, a: nat, v: nat) {
    exists v0 :: Holds(p, Width(q), a, v0) && Accepts(q, v, Reference(p.kind, q, v0))
  }

  /** The previous candidate lies wholly in the readable region, reads as v now, and is accepted. */
  ghost predicate CarriedBy(r: Region, p: Scan, t: Target, q: Query, a: nat, v: nat) {
    && t.readable(r.base)
    && Whole(r, Width(q), a)
    && v == MemoryWord(t.memory, a, Width(q))
    && Passes(p, q, a, v)
  }

  lemma {:induction false} NothingAccepted(p: Scan, r: Region, bytes: seq<Byte>, q: Query, es: seq<Entry>,
      bySnapshot: bool)
    requires |bytes| == r.size && q.kind.UnknownValue?
    ensures RemapEntries(p, r, bytes, q, es, bySnapshot) == []
  {
    if es != [] {
      NothingAccepted(p, r, bytes, q, es[..|es| - 1], bySnapshot);
    }
  }

  /** The entries of the scan made for a pair are the carried entries of what the previous scan kept. */
  lemma {:induction false} PairEntries(r: Region, p: Scan, t: Target, q: Query)
    requires Usable(p, Width(q)) && Aligned(r.base, Width(q))
    ensures Indexed(Remap(p, r, ReadRegion(t, r), q))
    ensures forall x :: x in Remap(p, r, ReadRegion(t, r), q)
              <==> Carried(p, r, t, q, Kept(p, Width(q)), BySnapshot(p, q), x)
    ensures q.kind.UnknownValue? ==> Remap(p, r, ReadRegion(t, r), q) == []
  {
    RawIsExplicit(p, r, ReadRegion(t, r), q);
    KeptInBounds(p, Width(q));
    RemapEntriesExact(p, r, t, q, Kept(p, Width(q)), BySnapshot(p, q));
    if q.kind.UnknownValue? {
      NothingAccepted(p, r, ReadRegion(t, r), q, Kept(p, Width(q)), BySnapshot(p, q));
    }
  }

  lemma {:induction false} CarriedEntry(r: Region, p: Scan, t: Target, q: Query, x: Entry, a: nat)
    requires Usable(p, Width(q)) && Aligned(r.base, Width(q))
    requires Carried(p, r, t, q, Kept(p, Width(q)), BySnapshot(p, q), x)
    requires r.base + Stride(x.index, Width(q)) == a
    ensures IsElement(ReadRegion(t, r), Width(q), x) && Passes(p, q, a, x.value)
  {
    var e :| e in Kept(p, Width(q)) && x in RemapEntry(p, r, ReadRegion(t, r), q, e, BySnapshot(p, q));
    RemapEntryExact(p, r, t, q, e, BySnapshot(p, q));
    assert Holds(p, Width(q), a, e.snapshot);
  }

  lemma {:induction false} PairSound(r: Region, p: Scan, t: Target, q: Query, a: nat, v: nat)
    requires Usable(p, Width(q)) && Aligned(r.base, Width(q))
    requires Candidate(ScanPair(r, p, t, q), Width(q), a, v)
    ensures CarriedBy(r, p, t, q, a, v)
  {
    PairEntries(r, p, t, q);
    var s :| s in ScanPair(r, p, t, q) && Holds(s, Width(q), a, v);
    var x :| x in Kept(s, Width(q)) && s.base + Stride(x.index, Width(q)) == a && x.snapshot == v;
    CarriedEntry(r, p, t, q, x, a);
    ElementAtAddress(r, t, Width(q), x, a);
  }

  lemma {:induction false} PairComplete(r: Region, p: Scan, t: Target, q: Query, a: nat, v: nat)
    requires Usable(p, Width(q)) && Aligned(r.base, Width(q))
    requires CarriedBy(r, p, t, q, a, v)
    ensures Candidate(ScanPair(r, p, t, q), Width(q), a, v)
  {
    var w := Width(q);
    var v0 :| Holds(p, w, a, v0) && Accepts(q, v, Reference(p.kind, q, v0));
    var e :| e in Kept(p, w) && p.base + Stride(e.index, w) == a && e.snapshot == v0;
    HoldsInside(p, w, a, v0);
    assert InWindow(p, r, e, w);
    var i := NewIndexExact(p, r, e, w);
    var x := Entry(v, v, i);
    ElementAtAddress(r, t, w, x, a);
    RemapEntryExact(p, r, t, q, e, BySnapshot(p, q));
    assert x in RemapEntry(p, r, ReadRegion(t, r), q, e, BySnapshot(p, q));
    PairEntries(r, p, t, q);
    var s := Scan(r.base, ReadRegion(t, r), q.kind, Remap(p, r, ReadRegion(t, r), q));
    assert Carried(p, r, t, q, Kept(p, w), BySnapshot(p, q), x);
    assert x in s.entries;
    assert Kept(s, w) == s.entries;
    assert Holds(s, w, a, v);
    assert ScanPair(r, p, t, q) == [s];
  }

  /**
   * The scan made for a region and a previous scan holds exactly the previous candidates that lie
   * wholly in the region, with the values read there now, that the comparator accepts.
   */
  lemma {:induction false} PairExact(r: Region, p: Scan, t: Target, q: Query, a: nat, v: nat)
    requires Usable(p, Width(q)) && Aligned(r.base, Width(q))
    ensures Candidate(ScanPair(r, p, t, q), Width(q), a, v) <==> CarriedBy(r, p, t, q, a, v)
  {
    if Candidate(ScanPair(r, p, t, q), Width(q), a, v) {
      PairSound(r, p, t, q, a, v);
    }
    if CarriedBy(r, p, t, q, a, v) {
      PairComplete(r, p, t, q, a, v);
    }
  }

  lemma {:induction false} PairFresh(r: Region, p: Scan, t: Target, q: Query)
    requires r.size > 0 && Usable(p, Width(q)) && Aligned(r.base, Width(q))
    ensures |ScanPair(r, p, t, q)| <= 1
    ensures forall s :: s in ScanPair(r, p, t, q)
              ==> Fresh(s, Width(q)) && !s.kind.UnknownValue?
                  && s.base == r.base && s.bytes == ReadRegion(t, r) && s.kind == q.kind
  {
    PairEntries(r, p, t, q);
    forall x | x in Remap(p, r, ReadRegion(t, r), q)
      ensures IsElement(ReadRegion(t, r), Width(q), x)
    {
      var e :| e in Kept(p, Width(q)) && x in RemapEntry(p, r, ReadRegion(t, r), q, e, BySnapshot(p, q));
      RemapEntryExact(p, r, t, q, e, BySnapshot(p, q));
    }
  }

  // ---------- consequences for single scan types ----------

  /**
   * After an unknown-value scan the target value is ignored: every scan type is judged against the
   * old value, so an exact-value scan finds what an unchanged scan finds, whatever raw1 is.
   */
  lemma {:induction false} ExactAfterUnknownIsUnchanged(r: Region, p: Scan, t: Target, q: Query, raw1: nat, a: nat,
      v: nat)
    requires Usable(p, Width(q)) && Aligned(r.base, Width(q))
    requires p.kind.UnknownValue? && q.elem != Float && q.elem != Double
    ensures Candidate(ScanPair(r, p, t, q.(kind := ExactValue, raw1 := raw1)), Width(q), a, v)
            <==> Candidate(ScanPair(r, p, t, q.(kind := Unchanged)), Width(q), a, v)
  {
    PairExact(r, p, t, q.(kind := ExactValue, raw1 := raw1), a, v);
    PairExact(r, p, t, q.(kind := Unchanged), a, v);
  }

  /**
   * After any other scan, the scan types that do not compare with the snapshot (increased_by and
   * decreased_by among them) look only at where the previous candidates were: two previous scans
   * with candidates at the same addresses give the same result, whatever their old values.
   */
  lemma {:induction false} TargetTypesIgnoreSnapshots(r: Region, p: Scan, p': Scan, t: Target, q: Query, a: nat, v: nat)
    requires Usable(p, Width(q)) && Usable(p', Width(q)) && Aligned(r.base, Width(q))
    requires !p.kind.UnknownValue? && !p'.kind.UnknownValue? && !ComparesWithSnapshot(q.kind)
    requires (exists v0 :: Holds(p, Width(q), a, v0)) <==> (exists v0 :: Holds(p', Width(q), a, v0))
    ensures Candidate(ScanPair(r, p, t, q), Width(q), a, v) <==> Candidate(ScanPair(r, p', t, q), Width(q), a, v)
  {
    PairExact(r, p, t, q, a, v);
    PairExact(r, p', t, q, a, v);
  }
}
