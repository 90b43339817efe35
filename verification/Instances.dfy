/** The surprises of next_scan at concrete inputs, two of them in general on lists that first_scan returns. */
module Instances {
  import opened Wrappers
  import opened Bytes
  import opened Comparator
  import opened ScanModel
  import opened SearchTheorems
  import opened RemapTheorems
  import opened PairTheorems
  import opened JoinTheorems
  import opened ListTheorems
  import WholeRun

  // ---------- two adjacent regions that become one ----------

  /** The two regions are scanned together, and the second starts where the first ends. */
  predicate Adjacent(rs: seq<Region>, es: ElemSize) {
    |rs| == 2 && Layout(rs, es) && rs[0].End() == rs[1].base
  }

  function Merged(rs: seq<Region>): Region
    requires |rs| == 2
  {
    Region(rs[0].base, rs[0].size + rs[1].size)
  }

  /** An element found in one of the regions is a candidate of some scan of that region. */
  lemma {:induction false} FoundHasScan(rs: seq<Region>, t: Target, q: Query, i: nat, a: nat, v: nat) returns (s: Scan)
    requires Layout(rs, Width(q)) && i < |rs| && FoundIn(rs[i], t, q, a, v)
    ensures s in FirstScan(rs, t, q) && s.base == rs[i].base && |s.bytes| == rs[i].size && Holds(s, Width(q), a, v)
  {
    ScanRegionExact(rs[i], t, q, a, v);
    s :| s in ScanRegion(rs[i], t, q) && Holds(s, Width(q), a, v);
    ScanRegionFresh(rs[i], t, q);
    FirstScanMembers(rs, t, q);
    assert rs[i] in rs;
  }

  lemma {:induction false} ScanComesFrom(rs: seq<Region>, t: Target, q: Query, p: Scan) returns (k: nat)
    requires Layout(rs, Width(q)) && p in FirstScan(rs, t, q)
    ensures k < |rs| && p.base == rs[k].base && |p.bytes| == rs[k].size
  {
    FirstScanMembers(rs, t, q);
    var r :| r in rs && p in ScanRegion(r, t, q);
    ScanRegionFresh(r, t, q);
    k :| 0 <= k < |rs| && rs[k] == r;
  }

  /** The merged region is paired with the scan of the lower one. */
  lemma {:induction false} LowIsPartner(rs: seq<Region>, t: Target, q: Query, b: nat, w: nat, p: Scan)
    requires Adjacent(rs, Width(q)) && FoundIn(rs[0], t, q, b, w) && Partner(Merged(rs), FirstScan(rs, t, q), p)
    ensures p.base == rs[0].base && p.End() == rs[0].End()
  {
    var scans := FirstScan(rs, t, q);
    var s := FoundHasScan(rs, t, q, 0, b, w);
    FirstScanFresh(rs, t, q);
    assert Overlaps(Merged(rs), s) && p in scans;
    WholeRun.PartnerIsFirst(scans, Merged(rs), p, s);
    var k := ScanComesFrom(rs, t, q, p);
    assert k == 0;
  }

  /**
   * Whatever first_scan found in the upper of two adjacent regions is lost by a next_scan that meets the
   * two as one region, whatever the target holds by then and whatever is asked.
   */
  lemma {:induction false} MergeLosesUpper(rs: seq<Region>, t: Target, q: Query, b: nat, w: nat, a: nat, v: nat,
      merged: seq<Region>, t': Target, q': Query)
    requires Adjacent(rs, Width(q)) && FoundIn(rs[0], t, q, b, w) && FoundIn(rs[1], t, q, a, v)
    requires |merged| == 1 && merged[0] == Merged(rs) && q'.elem == q.elem
    ensures Candidate(FirstScan(rs, t, q), Width(q), a, v)
    ensures forall v' :: !Candidate(NextScan(merged, FirstScan(rs, t, q), t', q'), Width(q), a, v')
  {
    var s := FoundHasScan(rs, t, q, 1, a, v);
    HoldsOnce(rs, t, q, s, a, v);
    forall v' | Candidate(NextScan(merged, FirstScan(rs, t, q), t', q'), Width(q), a, v')
      ensures false
    {
      NotCarried(rs, t, q, b, w, a, merged, t', q', v');
    }
  }

  lemma {:induction false} HoldsOnce(rs: seq<Region>, t: Target, q: Query, s: Scan, a: nat, v: nat)
    requires Layout(rs, Width(q)) && s in FirstScan(rs, t, q) && Holds(s, Width(q), a, v)
    ensures Candidate(FirstScan(rs, t, q), Width(q), a, v)
  {
  }

  lemma {:induction false} NotCarried(rs: seq<Region>, t: Target, q: Query, b: nat, w: nat, a: nat, merged: seq<Region>,
      t': Target, q': Query, v': nat)
    requires Adjacent(rs, Width(q)) && FoundIn(rs[0], t, q, b, w) && rs[1].base <= a
    requires |merged| == 1 && merged[0] == Merged(rs) && q'.elem == q.elem
    ensures !Candidate(NextScan(merged, FirstScan(rs, t, q), t', q'), Width(q), a, v')
  {
    var scans := FirstScan(rs, t, q);
    FirstScanFresh(rs, t, q);
    if Candidate(NextScan(merged, scans, t', q'), Width(q), a, v') {
      NextScanExact(merged, scans, t', q', a, v');
      var r, p :| r in merged && Partner(r, scans, p) && CarriedBy(r, p, t', q', a, v');
      LowIsPartner(rs, t, q, b, w, p);
      var v0 :| Holds(p, Width(q), a, v0);
      HoldsInside(p, Width(q), a, v0);
    }
  }

  // ---------- an exact value after an unknown one ----------

  /** The list of a single region in which something is found is one scan. */
  lemma {:induction false} SingleScan(rs: seq<Region>, t: Target, q: Query, a: nat, v: nat) returns (p: Scan)
    requires |rs| == 1 && Layout(rs, Width(q)) && FoundIn(rs[0], t, q, a, v)
    ensures FirstScan(rs, t, q) == [p] && p.base == rs[0].base && |p.bytes| == rs[0].size && p.kind == q.kind
    ensures Holds(p, Width(q), a, v)
  {
    ScanRegionExact(rs[0], t, q, a, v);
    ScanRegionFresh(rs[0], t, q);
    p :| p in ScanRegion(rs[0], t, q) && Holds(p, Width(q), a, v);
    assert FirstScan(rs[..0], t, q) == [];
  }

  /** A single region is paired with the scan that was made of it. */
  lemma {:induction false} OnlyScan(rs: seq<Region>, t: Target, q: Query, a: nat, v: nat) returns (p: Scan)
    requires |rs| == 1 && Layout(rs, Width(q)) && FoundIn(rs[0], t, q, a, v)
    ensures AllFresh(FirstScan(rs, t, q), Width(q))
    ensures Partner(rs[0], FirstScan(rs, t, q), p) && Holds(p, Width(q), a, v) && p.kind == q.kind
  {
    p := SingleScan(rs, t, q, a, v);
    FirstScanFresh(rs, t, q);
    assert rs[0] in rs && Overlaps(rs[0], p);
    assert FirstOverlap(rs[0], [p]) == 0;
  }

  /**
   * After an unknown-value scan of a region an exact-value scan keeps whatever did not change, whatever
   * it asks for.
   */
  lemma {:induction false} ExactKeepsUnchanged(rs: seq<Region>, t: Target, q: Query, q': Query, a: nat)
    requires |rs| == 1 && Layout(rs, Width(q)) && t.readable(rs[0].base)
    requires q.kind.UnknownValue? && q'.kind.ExactValue? && q'.elem == q.elem && q.elem != Float && q.elem != Double
    requires Aligned(a, Width(q)) && Whole(rs[0], Width(q), a)
    ensures Candidate(NextScan(rs, FirstScan(rs, t, q), t, q'), Width(q), a, MemoryWord(t.memory, a, Width(q)))
  {
    var scans, v := FirstScan(rs, t, q), MemoryWord(t.memory, a, Width(q));
    var p := OnlyScan(rs, t, q, a, v);
    assert Processed(rs, scans, t, Width(q'), a, v, rs[0], p, v);
    VerdictDecides(rs, scans, t, q', a, v, rs[0], p, v);
  }

  // ---------- at one input ----------

  /** A target that holds the same byte everywhere and can be read everywhere. */
  function Steady(b: Byte): Target {
    Target((a: nat) => b, (base: nat) => true)
  }

  function Ask(kind: ScanType, raw1: nat): Query {
    Query(kind, U8, raw1, None, (k: ScanType, e: ElementType, a: nat, r: nat, c: Option<nat>) => false)
  }

  lemma {:induction false} SteadyWord(b: Byte, a: nat)
    ensures MemoryWord(Steady(b).memory, a, 1) == b
  {
  }

  /** Two pages that hold zeros are scanned for zero; next they are one region, and the byte at 8192 is lost. */
  lemma {:induction false} MergeLosesByte(pages: seq<Region>, merged: seq<Region>)
    requires pages == [Region(4096, 4096), Region(8192, 4096)] && merged == [Region(4096, 8192)]
    ensures Candidate(FirstScan(pages, Steady(0), Ask(ExactValue, 0)), 1, 8192, 0)
    ensures !Candidate(NextScan(merged, FirstScan(pages, Steady(0), Ask(ExactValue, 0)), Steady(0), Ask(Unchanged, 0)),
                       1, 8192, 0)
  {
    SteadyWord(0, 4096);
    SteadyWord(0, 8192);
    var t, q := Steady(0), Ask(ExactValue, 0);
    assert FoundIn(pages[0], t, q, 4096, 0) && FoundIn(pages[1], t, q, 8192, 0);
    MergeLosesUpper(pages, t, q, 4096, 0, 8192, 0, merged, t, Ask(Unchanged, 0));
  }

  /** A page of fives is scanned for an unknown value; an exact-value scan for 7 keeps the five at 4096. */
  lemma {:induction false} ExactSevenKeepsFive(page: seq<Region>)
    requires page == [Region(4096, 4096)]
    ensures Candidate(NextScan(page, FirstScan(page, Steady(5), Ask(UnknownValue, 0)), Steady(5), Ask(ExactValue, 7)),
                      1, 4096, 5)
  {
    SteadyWord(5, 4096);
    ExactKeepsUnchanged(page, Steady(5), Ask(UnknownValue, 0), Ask(ExactValue, 7), 4096);
  }

  // ---------- bases that are not congruent ----------

  lemma {:induction false} EntryAmong(p: Scan, r: Region, bytes: seq<Byte>, q: Query, es: seq<Entry>, bySnapshot: bool,
      e: Entry, x: Entry)
    requires |bytes| == r.size && e in es && x in RemapEntry(p, r, bytes, q, e, bySnapshot)
    ensures x in RemapEntries(p, r, bytes, q, es, bySnapshot)
    decreases |es|
  {
    if e in es[..|es| - 1] {
      EntryAmong(p, r, bytes, q, es[..|es| - 1], bySnapshot, e, x);
    }
  }

  /**
   * With four-byte elements, the word at index 1 of a scan from 4096 is carried into a region from 4098:
   * its address 4100 becomes index 0, and so the word read is the one at 4098.
   */
  lemma {:induction false} ShiftedEntry(p: Scan, r: Region, t: Target, q: Query, e: Entry, x: Entry)
    requires q.elem == U32 && p.base == 4096 && |p.bytes| == 4096 && r == Region(4098, 4094) && e.index == 1
    requires x.value == x.snapshot == MemoryWord(t.memory, 4098, 4) && x.index == 0
    requires Accepts(q, x.value, e.snapshot)
    ensures RemapEntry(p, r, ReadRegion(t, r), q, e, true) == [x]
  {
    RemapExactIffCongruent(4098, 4096, 1, 4);
    SnapshotWord(t, r, 0, 4);
  }

  lemma {:induction false} ZeroWord(a: nat)
    ensures MemoryWord(Steady(0).memory, a, 4) == 0
  {
    assert MemoryWord(Steady(0).memory, a + 3, 1) == 0;
    assert MemoryWord(Steady(0).memory, a + 2, 2) == 0;
    assert MemoryWord(Steady(0).memory, a + 1, 3) == 0;
  }

  function AskWords(kind: ScanType): Query {
    Ask(kind, 0).(elem := U32)
  }

  /** The scan of the page, and the entry of the word at 4100. */
  lemma {:induction false} PageScan(page: seq<Region>) returns (p: Scan, e: Entry)
    requires page == [Region(4096, 4096)]
    ensures FirstScan(page, Steady(0), AskWords(ExactValue)) == [p] && p.base == 4096 && |p.bytes| == 4096
    ensures p.kind == ExactValue && e in p.entries && e.index == 1 && e.snapshot == 0
  {
    var t, q := Steady(0), AskWords(ExactValue);
    ZeroWord(4100);
    p := SingleScan(page, t, q, 4100, 0);
    e := EntryAt(p, 4, 4100, 0);
  }

  lemma {:induction false} EntryAt(p: Scan, es: ElemSize, a: nat, v: nat) returns (e: Entry)
    requires Holds(p, es, a, v) && !p.kind.UnknownValue?
    ensures e in p.entries && p.base + Stride(e.index, es) == a && e.snapshot == v
  {
    e :| e in Kept(p, es) && p.base + Stride(e.index, es) == a && e.snapshot == v;
  }

  /**
   * A page of zeros from 4096 is scanned for zero words, then a range from 4098 for unchanged ones: the
   * word at 4098 is kept, although no scan had it as a candidate before.
   */
  lemma {:induction false} ShiftedRangeMovesWords(page: seq<Region>, shifted: seq<Region>)
    requires page == [Region(4096, 4096)] && shifted == [Region(4098, 4094)]
    ensures forall v :: !Candidate(FirstScan(page, Steady(0), AskWords(ExactValue)), 4, 4098, v)
    ensures Candidate(NextScan(shifted, FirstScan(page, Steady(0), AskWords(ExactValue)), Steady(0),
                               AskWords(Unchanged)), 4, 4098, 0)
  {
    var t, q, q' := Steady(0), AskWords(ExactValue), AskWords(Unchanged);
    UnalignedIsNoCandidate(page, t, q, 4098);
    var p, e := PageScan(page);
    ZeroWord(4098);
    ShiftedEntry(p, shifted[0], t, q', e, Entry(0, 0, 0));
    EntryAmong(p, shifted[0], ReadRegion(t, shifted[0]), q', p.entries, true, e, Entry(0, 0, 0));
    PairAlone(shifted, p, t, q', Entry(0, 0, 0));
  }

  lemma {:induction false} UnalignedIsNoCandidate(rs: seq<Region>, t: Target, q: Query, a: nat)
    requires Layout(rs, Width(q)) && !Aligned(a, Width(q))
    ensures forall v :: !Candidate(FirstScan(rs, t, q), Width(q), a, v)
  {
    forall v
      ensures !Candidate(FirstScan(rs, t, q), Width(q), a, v)
    {
      FirstScanExact(rs, t, q, a, v);
    }
  }

  lemma {:induction false} PairAlone(rs: seq<Region>, p: Scan, t: Target, q: Query, x: Entry)
    requires |rs| == 1 && !(rs[0].End() <= p.base) && !(p.End() <= rs[0].base) && t.readable(rs[0].base)
    requires !p.kind.UnknownValue? && ComparesWithSnapshot(q.kind) && x.index == 0
    requires x in RemapEntries(p, rs[0], ReadRegion(t, rs[0]), q, p.entries, true)
    ensures Candidate(NextScan(rs, [p], t, q), Width(q), rs[0].base, x.snapshot)
  {
    var s := Scan(rs[0].base, ReadRegion(t, rs[0]), q.kind, Remap(p, rs[0], ReadRegion(t, rs[0]), q));
    assert s in ScanPair(rs[0], p, t, q);
    assert s in NextScan(rs, [p], t, q);
    assert x in Kept(s, Width(q));
    assert s.base + Stride(x.index, Width(q)) == rs[0].base;
    assert Holds(s, Width(q), rs[0].base, x.snapshot);
  }

  // ---------- a difference from the value given, not from the old one ----------

  /**
   * After a scan for anything but an unknown value, an increased-by scan of the same region keeps an
   * element exactly when it is the value given plus the difference, whatever it was before.
   */
  lemma {:induction false} IncreasedByIgnoresOld(rs: seq<Region>, t: Target, q: Query, t': Target, q': Query, a: nat,
      v: nat)
    requires |rs| == 1 && Layout(rs, Width(q)) && FoundIn(rs[0], t, q, a, v) && !q.kind.UnknownValue?
    requires t'.readable(rs[0].base) && q'.kind.IncreasedBy? && q'.elem == q.elem && q.elem != Float && q.elem != Double
    requires q'.raw2.Some? && q'.raw2.value < 0x1_0000_0000_0000_0000
    ensures var v', sum := MemoryWord(t'.memory, a, Width(q)), q'.raw1 + q'.raw2.value;
            Candidate(NextScan(rs, FirstScan(rs, t, q), t', q'), Width(q), a, v')
            <==> v' == sum || v' + 0x1_0000_0000_0000_0000 == sum
  {
    JudgedByRaw1(rs, t, q, t', q', a, v);
    DifferenceMeans(MemoryWord(t'.memory, a, Width(q)), q'.raw1, q'.raw2);
  }

  lemma {:induction false} JudgedByRaw1(rs: seq<Region>, t: Target, q: Query, t': Target, q': Query, a: nat, v: nat)
    requires |rs| == 1 && Layout(rs, Width(q)) && FoundIn(rs[0], t, q, a, v) && !q.kind.UnknownValue?
    requires t'.readable(rs[0].base) && q'.kind.IncreasedBy? && q'.elem == q.elem && q.elem != Float && q.elem != Double
    ensures var v' := MemoryWord(t'.memory, a, Width(q));
            Candidate(NextScan(rs, FirstScan(rs, t, q), t', q'), Width(q), a, v')
            <==> CompareIntegers(IncreasedBy, v', q'.raw1, q'.raw2)
  {
    var scans, v' := FirstScan(rs, t, q), MemoryWord(t'.memory, a, Width(q));
    var p := OnlyScan(rs, t, q, a, v);
    assert Processed(rs, scans, t', Width(q'), a, v', rs[0], p, v);
    VerdictDecides(rs, scans, t', q', a, v', rs[0], p, v);
  }

  function AskDifference(kind: ScanType, raw1: nat, raw2: nat): Query {
    Ask(kind, raw1).(raw2 := Some(raw2))
  }

  /** A page of fives, then sevens: increased by two from a value given as three keeps none of them, as five all. */
  lemma {:induction false} FivesBecomeSevens(page: seq<Region>, raw1: nat)
    requires page == [Region(4096, 4096)] && raw1 < 256
    ensures Candidate(NextScan(page, FirstScan(page, Steady(5), Ask(ExactValue, 5)), Steady(7),
                               AskDifference(IncreasedBy, raw1, 2)),
                      1, 4096, 7)
            <==> raw1 == 5
  {
    SteadyWord(5, 4096);
    SteadyWord(7, 4096);
    IncreasedByIgnoresOld(page, Steady(5), Ask(ExactValue, 5), Steady(7), AskDifference(IncreasedBy, raw1, 2), 4096, 5);
  }
}
