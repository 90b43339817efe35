/** next_scan, one region against one previous scan: elements are carried over by absolute address. */
module RemapTheorems {
  import opened Bytes
  import opened Comparator
  import opened ScanModel
  import opened SearchTheorems

  /** Dividing by the element size lands on the same address exactly when the two bases are congruent. */
  lemma {:induction false} RemapExactIffCongruent(newBase: nat, oldBase: nat, index: nat, es: ElemSize)
    requires newBase <= oldBase + Stride(index, es)
    ensures newBase + Stride(Count(oldBase + Stride(index, es) - newBase, es), es) == oldBase + Stride(index, es)
            <==> Residue(newBase, es) == Residue(oldBase, es)
  {
    SpanAligned(oldBase + Stride(index, es) - newBase, es);
    if es == 2 {
      SmallRemainder2(oldBase / 2 + index - newBase / 2, oldBase % 2 - newBase % 2);
    } else if es == 4 {
      SmallRemainder4(oldBase / 4 + index - newBase / 4, oldBase % 4 - newBase % 4);
    } else if es == 8 {
      SmallRemainder8(oldBase / 8 + index - newBase / 8, oldBase % 8 - newBase % 8);
    }
  }

  lemma {:induction false} SmallRemainder2(k: int, d: int)
    requires -2 < d < 2
    ensures (2 * k + d) % 2 == 0 <==> d == 0
  {
    var q, r := (2 * k + d) / 2, (2 * k + d) % 2;
    assert 2 * (k - q) == r - d;
  }

  lemma {:induction false} SmallRemainder4(k: int, d: int)
    requires -4 < d < 4
    ensures (4 * k + d) % 4 == 0 <==> d == 0
  {
    var q, r := (4 * k + d) / 4, (4 * k + d) % 4;
    assert 4 * (k - q) == r - d;
  }

  lemma {:induction false} SmallRemainder8(k: int, d: int)
    requires -8 < d < 8
    ensures (8 * k + d) % 8 == 0 <==> d == 0
  {
    var q, r := (8 * k + d) / 8, (8 * k + d) % 8;
    assert 8 * (k - q) == r - d;
  }

  lemma {:induction false} SpanAligned(x: nat, es: ElemSize)
    ensures Stride(Count(x, es), es) == x <==> Residue(x, es) == 0
  {
    if es == 1 {} else if es == 2 {} else if es == 4 {} else {}
  }

  /** The value an old candidate's new value is compared with. */
  function Reference(previous: ScanType, q: Query, snapshot: nat): nat {
    if previous.UnknownValue? || ComparesWithSnapshot(q.kind) then snapshot else q.raw1
  }

  predicate BySnapshot(p: Scan, q: Query) {
    p.kind.UnknownValue? || ComparesWithSnapshot(q.kind)
  }

  lemma {:induction false} RemapEntryExact(p: Scan, r: Region, t: Target, q: Query, e: Entry, bySnapshot: bool)
    requires Aligned(p.base, Width(q)) && Aligned(r.base, Width(q))
    ensures |RemapEntry(p, r, ReadRegion(t, r), q, e, bySnapshot)| <= 1
    ensures forall x :: x in RemapEntry(p, r, ReadRegion(t, r), q, e, bySnapshot)
              <==> && InWindow(p, r, e, Width(q))
                   && r.base + Stride(x.index, Width(q)) == p.base + Stride(e.index, Width(q))
                   && IsElement(ReadRegion(t, r), Width(q), x)
                   && Accepts(q, x.value, if bySnapshot then e.snapshot else q.raw1)
  {
    var w := Width(q);
    if InWindow(p, r, e, w) {
      var i := NewIndexExact(p, r, e, w);
      forall x: Entry
        ensures x.index == i <==> r.base + Stride(x.index, w) == p.base + Stride(e.index, w)
      {
        StrideMonotone(x.index, i, w);
      }
    }
  }

  /** Between aligned bases the new index names the same address as the old one. */
  lemma {:induction false} NewIndexExact(p: Scan, r: Region, e: Entry, es: ElemSize) returns (i: nat)
    requires Aligned(p.base, es) && Aligned(r.base, es) && InWindow(p, r, e, es)
    ensures i == NewIndex(p, r, e, es) && r.base + Stride(i, es) == p.base + Stride(e.index, es)
  {
    AlignedOffset(p.base, e.index, es);
    i := IndexOfAddress(r.base, p.base + Stride(e.index, es), es);
    CountOfStride(i, es);
  }

  /** x is what the previous entry e becomes. */
  ghost predicate Carried(p: Scan, r: Region, t: Target, q: Query, es: seq<Entry>, bySnapshot: bool, x: Entry) {
    exists e :: e in es && x in RemapEntry(p, r, ReadRegion(t, r), q, e, bySnapshot)
  }

  /** Remapping keeps the order of the entries and produces exactly what each of them becomes. */
  lemma {:induction false} RemapEntriesExact(p: Scan, r: Region, t: Target, q: Query, es: seq<Entry>, bySnapshot: bool)
    requires Aligned(p.base, Width(q)) && Aligned(r.base, Width(q)) && Indexed(es)
    ensures Indexed(RemapEntries(p, r, ReadRegion(t, r), q, es, bySnapshot))
    ensures forall x :: x in RemapEntries(p, r, ReadRegion(t, r), q, es, bySnapshot)
              <==> Carried(p, r, t, q, es, bySnapshot, x)
  {
    if es != [] {
      var init, last := es[..|es| - 1], es[|es| - 1];
      var before := RemapEntries(p, r, ReadRegion(t, r), q, init, bySnapshot);
      var after := RemapEntry(p, r, ReadRegion(t, r), q, last, bySnapshot);
      assert es == init + [last];
      RemapEntriesExact(p, r, t, q, init, bySnapshot);
      RemapEntryExact(p, r, t, q, last, bySnapshot);
      forall i, y | 0 <= i < |before| && y in after
        ensures before[i].index < y.index
      {
        assert before[i] in before;
        var e :| e in init && before[i] in RemapEntry(p, r, ReadRegion(t, r), q, e, bySnapshot);
        RemapEntryExact(p, r, t, q, e, bySnapshot);
        StrideMonotone(e.index, last.index, Width(q));
        StrideMonotone(before[i].index, y.index, Width(q));
        StrideMonotone(y.index, before[i].index, Width(q));
      }
      CarriedSplits(p, r, t, q, init, last, bySnapshot);
    }
  }

  lemma {:induction false} CarriedSplits(p: Scan, r: Region, t: Target, q: Query, init: seq<Entry>, last: Entry,
      bySnapshot: bool)
    ensures forall x :: Carried(p, r, t, q, init + [last], bySnapshot, x)
              <==> || Carried(p, r, t, q, init, bySnapshot, x)
                   || x in RemapEntry(p, r, ReadRegion(t, r), q, last, bySnapshot)
  {
    forall x
      ensures Carried(p, r, t, q, init + [last], bySnapshot, x)
              <==> || Carried(p, r, t, q, init, bySnapshot, x)
                   || x in RemapEntry(p, r, ReadRegion(t, r), q, last, bySnapshot)
    {
      if x in RemapEntry(p, r, ReadRegion(t, r), q, last, bySnapshot) {
        assert last in init + [last];
      }
    }
  }

  /**
   * The run of old indices whose elements lie in the overlap: `skipped` elements come before it,
   * and `steps` whole elements fit into it.
   */
  ghost predicate Run(p: Scan, r: Region, es: ElemSize, skipped: nat, steps: nat) {
    && Aligned(p.base, es) && Aligned(r.base, es)
    && p.base + Stride(skipped, es) == OverlapStart(r, p)
    && Stride(steps, es) <= OverlapBytes(r, p) < Stride(steps, es) + es
  }

  lemma {:induction false} RunExists(p: Scan, r: Region, es: ElemSize) returns (skipped: nat, steps: nat)
    requires Aligned(p.base, es) && Aligned(r.base, es)
    ensures Run(p, r, es, skipped, steps)
    ensures steps == Count(OverlapBytes(r, p), es)
    ensures steps > 0 ==> skipped + steps <= Count(|p.bytes|, es)
  {
    skipped := IndexOfAddress(p.base, OverlapStart(r, p), es);
    steps := Count(OverlapBytes(r, p), es);
    CountFits(OverlapBytes(r, p), es);
    CountFits(|p.bytes|, es);
    StrideMonotone(skipped + steps, Count(|p.bytes|, es) + 1, es);
  }

  /** The i-th stride, or nothing outside the overlap. */
  function StrideAt(p: Scan, r: Region, bytes: seq<Byte>, q: Query, i: int, steps: nat): seq<Entry>
    requires |bytes| == r.size && Stride(steps, Width(q)) <= OverlapBytes(r, p)
  {
    if 0 <= i < steps then RemapStride(p, r, bytes, q, i) else []
  }

  /** A stride does what remapping the element it lands on does. */
  lemma {:induction false} StrideIsEntry(p: Scan, r: Region, bytes: seq<Byte>, q: Query, e: Entry, skipped: nat,
      steps: nat)
    requires |bytes| == r.size && IsElement(p.bytes, Width(q), e)
    requires Run(p, r, Width(q), skipped, steps)
    ensures RemapEntry(p, r, bytes, q, e, true) == StrideAt(p, r, bytes, q, e.index - skipped, steps)
  {
    var w, i := Width(q), e.index - skipped;
    assert InWindow(p, r, e, w) <==> 0 <= i < steps;
    if InWindow(p, r, e, w) {
      var x := NewIndexExact(p, r, e, w);
      assert Stride(skipped, w) + Stride(i, w) == Stride(e.index, w);
    }
  }

  function Clamp(x: int, hi: nat): nat {
    if x < 0 then 0 else if x > hi then hi else x
  }

  lemma {:induction false} NextStride(p: Scan, r: Region, bytes: seq<Byte>, q: Query, i: int, steps: nat)
    requires |bytes| == r.size && Stride(steps, Width(q)) <= OverlapBytes(r, p)
    ensures RemapRaw(p, r, bytes, q, Clamp(i + 1, steps))
            == RemapRaw(p, r, bytes, q, Clamp(i, steps)) + StrideAt(p, r, bytes, q, i, steps)
  {
    if 0 <= i < steps {
      assert Clamp(i + 1, steps) == Clamp(i, steps) + 1;
    } else {
      assert Clamp(i + 1, steps) == Clamp(i, steps);
    }
  }

  lemma {:induction false} RemapEntriesSnoc(p: Scan, r: Region, bytes: seq<Byte>, q: Query, init: seq<Entry>,
      last: Entry, bySnapshot: bool)
    requires |bytes| == r.size
    ensures RemapEntries(p, r, bytes, q, init + [last], bySnapshot)
            == RemapEntries(p, r, bytes, q, init, bySnapshot) + RemapEntry(p, r, bytes, q, last, bySnapshot)
  {
    assert (init + [last])[..|init|] == init;
  }

  /** The strides that belong to the first n elements of the previous scan. */
  function StridesFor(p: Scan, r: Region, bytes: seq<Byte>, q: Query, n: nat, skipped: nat, steps: nat): seq<Entry>
    requires |bytes| == r.size && Stride(steps, Width(q)) <= OverlapBytes(r, p)
  {
    RemapRaw(p, r, bytes, q, Clamp(n - skipped, steps))
  }

  lemma {:induction false} AppendElement(p: Scan, r: Region, bytes: seq<Byte>, q: Query, before: seq<Entry>, e: Entry,
      all: seq<Entry>, n: nat, skipped: nat, steps: nat)
    requires |bytes| == r.size && IsElement(p.bytes, Width(q), e) && n == e.index + 1 && all == before + [e]
    requires Run(p, r, Width(q), skipped, steps)
    requires RemapEntries(p, r, bytes, q, before, true) == StridesFor(p, r, bytes, q, n - 1, skipped, steps)
    ensures RemapEntries(p, r, bytes, q, all, true) == StridesFor(p, r, bytes, q, n, skipped, steps)
  {
    RemapEntriesSnoc(p, r, bytes, q, before, e, true);
    StrideIsEntry(p, r, bytes, q, e, skipped, steps);
    NextStride(p, r, bytes, q, e.index - skipped, steps);
  }

  /** Stepping raw strides over the first n elements is remapping those elements held explicitly. */
  ghost predicate PrefixMatches(p: Scan, r: Region, bytes: seq<Byte>, q: Query, n: nat, skipped: nat, steps: nat)
    requires |bytes| == r.size && Stride(n, Width(q)) <= |p.bytes|
    requires Run(p, r, Width(q), skipped, steps)
  {
    RemapEntries(p, r, bytes, q, EveryElement(p.bytes, Width(q), n), true)
      == StridesFor(p, r, bytes, q, n, skipped, steps)
  }

  lemma {:induction false} PrefixStart(p: Scan, r: Region, bytes: seq<Byte>, q: Query, skipped: nat, steps: nat)
    requires |bytes| == r.size && Run(p, r, Width(q), skipped, steps)
    ensures PrefixMatches(p, r, bytes, q, 0, skipped, steps)
  {
  }

  lemma {:induction false} PrefixStep(p: Scan, r: Region, bytes: seq<Byte>, q: Query, n: nat, skipped: nat, steps: nat)
    requires |bytes| == r.size && n > 0 && Stride(n, Width(q)) <= |p.bytes|
    requires Run(p, r, Width(q), skipped, steps)
    requires PrefixMatches(p, r, bytes, q, n - 1, skipped, steps)
    ensures PrefixMatches(p, r, bytes, q, n, skipped, steps)
  {
    var e := LastElement(p.bytes, Width(q), n);
    AppendElement(p, r, bytes, q, EveryElement(p.bytes, Width(q), n - 1), e, EveryElement(p.bytes, Width(q), n), n,
                  skipped, steps);
  }

  lemma {:induction false} RawPrefixMatches(p: Scan, r: Region, bytes: seq<Byte>, q: Query, n: nat, skipped: nat,
      steps: nat)
    requires |bytes| == r.size && Stride(n, Width(q)) <= |p.bytes|
    requires Run(p, r, Width(q), skipped, steps)
    ensures PrefixMatches(p, r, bytes, q, n, skipped, steps)
    decreases n
  {
    if n == 0 {
      PrefixStart(p, r, bytes, q, skipped, steps);
    } else {
      StrideNext(n - 1, Width(q));
      RawPrefixMatches(p, r, bytes, q, n - 1, skipped, steps);
      PrefixStep(p, r, bytes, q, n, skipped, steps);
    }
  }

  /**
   * Representation equivalence: remapping a raw snapshot gives the entries that remapping every
   * element of that snapshot, held explicitly and judged against its own old value, would give.
   */
  lemma {:induction false} RawIsExplicit(p: Scan, r: Region, bytes: seq<Byte>, q: Query)
    requires |bytes| == r.size && Usable(p, Width(q)) && Aligned(r.base, Width(q))
    ensures Remap(p, r, bytes, q) == RemapEntries(p, r, bytes, q, Kept(p, Width(q)), BySnapshot(p, q))
  {
    if p.kind.UnknownValue? {
      var skipped, steps := RunExists(p, r, Width(q));
      CountFits(|p.bytes|, Width(q));
      RawPrefixMatches(p, r, bytes, q, Count(|p.bytes|, Width(q)), skipped, steps);
    }
  }
}
