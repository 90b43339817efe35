/**
 * What a first scan finds, in plain terms: literal widths, single bytes of memory, page attributes. Nothing
 * here names a width, a word or a walk.
 */
module PlainTerms {
  import opened Wrappers
  import opened Bytes
  import opened Comparator
  import opened ScanEngine
  import L = ListTheorems
  import M = ScanModel
  import S = SearchTheorems
  import R = WholeRun
  import T = RemapTheorems
  import W = RegionWalk

  /** Some region that could be read holds all n bytes at the address. */
  ghost predicate InReadable(rs: seq<M.Region>, t: M.Target, a: nat, n: nat) {
    exists r :: r in rs && t.readable(r.base) && r.base <= a && a + n <= r.base + r.size
  }

  /** Some region holds them, readable or not. */
  ghost predicate InRegion(rs: seq<M.Region>, a: nat, n: nat) {
    exists r :: r in rs && r.base <= a && a + n <= r.base + r.size
  }

  lemma {:induction false} FoundSomewhere(rs: seq<M.Region>, t: M.Target, q: Query, es: ElemSize, a: nat, v: nat)
    requires M.Layout(rs, es) && M.Width(q) == es
    ensures M.Candidate(M.FirstScan(rs, t, q), es, a, v)
            <==> && InReadable(rs, t, a, es) && a % es == 0 && v == MemoryWord(t.memory, a, es)
                 && (q.kind == UnknownValue || Accepts(q, v, q.raw1))
  {
    S.FirstScanExact(rs, t, q, a, v);
    WidthArithmetic(a, es);
    if r :| r in rs && t.readable(r.base) && r.base <= a && a + es <= r.base + r.size
            && a % es == 0 && v == MemoryWord(t.memory, a, es) && (q.kind == UnknownValue || Accepts(q, v, q.raw1)) {
      assert S.FoundIn(r, t, q, a, v);
    }
    if r :| r in rs && S.FoundIn(r, t, q, a, v) {
      assert r.base <= a && a + es <= r.base + r.size;
    }
  }

  // ---------- one type after the other ----------

  lemma {:induction false} ExactU8(rs: seq<M.Region>, t: M.Target, q: Query, a: nat, v: nat)
    requires q.elem == U8 && q.kind == ExactValue && M.Layout(rs, 1)
    ensures M.Candidate(M.FirstScan(rs, t, q), 1, a, v)
            <==> v == q.raw1 == t.memory(a) && InReadable(rs, t, a, 1)
  {
    FoundSomewhere(rs, t, q, 1, a, v);
    MemoryWordBytes(t.memory, a);
  }

  lemma {:induction false} ExactU16(rs: seq<M.Region>, t: M.Target, q: Query, a: nat, v: nat)
    requires q.elem == U16 && q.kind == ExactValue && M.Layout(rs, 2)
    ensures M.Candidate(M.FirstScan(rs, t, q), 2, a, v)
            <==> && v == q.raw1 == t.memory(a) + 256 * t.memory(a + 1)
                 && a % 2 == 0 && InReadable(rs, t, a, 2)
  {
    FoundSomewhere(rs, t, q, 2, a, v);
    MemoryWordBytes(t.memory, a);
  }

  lemma {:induction false} ExactU32(rs: seq<M.Region>, t: M.Target, q: Query, a: nat, v: nat)
    requires q.elem == U32 && q.kind == ExactValue && M.Layout(rs, 4)
    ensures var m := t.memory;
            M.Candidate(M.FirstScan(rs, t, q), 4, a, v)
            <==> && v == q.raw1 == m(a) + 256 * m(a + 1) + 65536 * m(a + 2) + 16777216 * m(a + 3)
                 && a % 4 == 0 && InReadable(rs, t, a, 4)
  {
    FoundSomewhere(rs, t, q, 4, a, v);
    MemoryWordBytes(t.memory, a);
  }

  function EightByteWord(m: nat -> Byte, a: nat): nat {
    m(a) + 256 * m(a + 1) + 65536 * m(a + 2) + 16777216 * m(a + 3)
    + 4294967296 * (m(a + 4) + 256 * m(a + 5) + 65536 * m(a + 6) + 16777216 * m(a + 7))
  }

  lemma {:induction false} EightBytes(m: nat -> Byte, a: nat)
    ensures MemoryWord(m, a, 8) == EightByteWord(m, a)
  {
    MemoryWordBytes(m, a);
    MemoryWordBytes(m, a + 4);
  }

  lemma {:induction false} ExactU64(rs: seq<M.Region>, t: M.Target, q: Query, a: nat, v: nat)
    requires q.elem == U64 && q.kind == ExactValue && M.Layout(rs, 8)
    ensures M.Candidate(M.FirstScan(rs, t, q), 8, a, v)
            <==> v == q.raw1 == EightByteWord(t.memory, a) && a % 8 == 0 && InReadable(rs, t, a, 8)
  {
    FoundSomewhere(rs, t, q, 8, a, v);
    EightBytes(t.memory, a);
  }

  lemma {:induction false} UnknownFloat(rs: seq<M.Region>, t: M.Target, q: Query, a: nat, v: nat)
    requires q.elem == Float && q.kind == UnknownValue && M.Layout(rs, 4)
    ensures var m := t.memory;
            M.Candidate(M.FirstScan(rs, t, q), 4, a, v)
            <==> && v == m(a) + 256 * m(a + 1) + 65536 * m(a + 2) + 16777216 * m(a + 3)
                 && a % 4 == 0 && InReadable(rs, t, a, 4)
  {
    FoundSomewhere(rs, t, q, 4, a, v);
    MemoryWordBytes(t.memory, a);
  }

  lemma {:induction false} UnknownDouble(rs: seq<M.Region>, t: M.Target, q: Query, a: nat, v: nat)
    requires q.elem == Double && q.kind == UnknownValue && M.Layout(rs, 8)
    ensures M.Candidate(M.FirstScan(rs, t, q), 8, a, v)
            <==> v == EightByteWord(t.memory, a) && a % 8 == 0 && InReadable(rs, t, a, 8)
  {
    FoundSomewhere(rs, t, q, 8, a, v);
    EightBytes(t.memory, a);
  }

  // ---------- from the pages of the target to the candidates ----------

  /** Every query succeeds and reports the attributes of the pages from the one queried on. */
  ghost predicate Reports(space: W.AddressSpace, attributes: nat -> W.Attributes) {
    && (forall n: nat, a: nat :: space(n, a).Some?)
    && W.Describes(space, attributes)
  }

  /** Queries answered page by page do. */
  lemma {:induction false} PagewiseReports(attributes: nat -> W.Attributes, space: W.AddressSpace)
    requires forall n: nat, a: nat :: space(n, a) == Some(W.PageRun(1, attributes(a / 4096)))
    ensures Reports(space, attributes)
  {
    forall n: nat, a: nat, p: nat | a / W.PAGE <= p < a / W.PAGE + space(n, a).value.pages
      ensures attributes(p) == space(n, a).value.attributes
    {
    }
  }

  /** Walked from a page boundary, an interval ends at a page boundary or with the range. */
  lemma {:induction false} VisitedEnds(space: W.AddressSpace, first: nat, second: nat, at: nat, queries: nat)
    requires first <= at && (at % 4096 == 0 || at >= second)
    ensures forall v :: v in W.Visited(space, first, second, at, queries) ==> v.End() == second || v.End() % 4096 == 0
    decreases second - at
  {
    if at < second && space(queries, at).Some? {
      VisitedEnds(space, first, second, W.Clip(space(queries, at).value, at, first, second).End(), queries + 1);
    }
  }

  /** An aligned element that starts before a page boundary ends before it. */
  lemma {:induction false} FitsBefore(a: nat, page: nat, end: nat, es: ElemSize)
    requires Aligned(a, es) && end == 4096 * page && a < end
    ensures a + es <= end
  {
    if es == 2 {
      MultiplesApart2(a / 2, 2048 * page);
    } else if es == 4 {
      MultiplesApart4(a / 4, 1024 * page);
    } else if es == 8 {
      MultiplesApart8(a / 8, 512 * page);
    }
  }

  lemma {:induction false} MultiplesApart2(x: nat, y: nat)
    ensures 2 * x < 2 * y ==> 2 * x + 2 <= 2 * y
  {
  }

  lemma {:induction false} MultiplesApart4(x: nat, y: nat)
    ensures 4 * x < 4 * y ==> 4 * x + 4 <= 4 * y
  {
  }

  lemma {:induction false} MultiplesApart8(x: nat, y: nat)
    ensures 8 * x < 8 * y ==> 8 * x + 8 <= 8 * y
  {
  }

  lemma {:induction false} RegionIsInterval(vs: seq<W.Interval>, r: M.Region)
    ensures r in ToRegions(vs) <==> exists v :: v in vs && v.base == r.base && v.size == r.size
  {
    if r in ToRegions(vs) {
      var i :| 0 <= i < |vs| && ToRegions(vs)[i] == r;
      assert vs[i] in vs;
    }
    if v :| v in vs && v.base == r.base && v.size == r.size {
      var i :| 0 <= i < |vs| && vs[i] == v;
      assert ToRegions(vs)[i] == r;
    }
  }

  /** The page of the address can be scanned: committed, no mapped file, with one of the flags asked for. */
  predicate Scannable(page: W.Attributes, flags: W.Flags) {
    page.state == W.Committed && page.kind != W.Mapped && exists b :: b in page.protect && b in flags
  }

  lemma {:induction false} WalkReachesEnd(space: W.AddressSpace, first: nat, second: nat)
    requires first % 4096 == 0 && forall n: nat, a: nat :: space(n, a).Some?
    ensures W.Reached(W.Visited(space, first, second, first, 0), first) >= second
  {
    W.VisitedGapless(space, first, second, first, 0);
  }

  /** The bytes of an aligned element lie in one region exactly when they are in the range and on a scannable page. */
  lemma {:induction false} ElementInRegion(space: W.AddressSpace, attributes: nat -> W.Attributes, first: nat,
      second: nat, flags: W.Flags, a: nat, es: ElemSize)
    requires Reports(space, attributes) && first % 4096 == 0 && a % es == 0
    ensures InRegion(ToRegions(W.Regions(space, first, second, flags)), a, es)
            <==> first <= a && a + es <= second && Scannable(attributes(a / 4096), flags)
  {
    var vs := W.Regions(space, first, second, flags);
    W.RegionsCoverExactly(space, attributes, first, second, flags, a);
    WalkReachesEnd(space, first, second);
    if r :| r in ToRegions(vs) && r.base <= a && a + es <= r.base + r.size {
      RegionIsInterval(vs, r);
      var v :| v in vs && v.base == r.base && v.size == r.size;
      IntervalInside(space, first, second, flags, v);
    }
    if first <= a && a + es <= second && Scannable(attributes(a / 4096), flags) {
      var v :| v in vs && v.base <= a < v.base + v.size;
      RegionIsInterval(vs, M.Region(v.base, v.size));
      IntervalInside(space, first, second, flags, v);
      if v.End() != second {
        WidthArithmetic(a, es);
        FitsBefore(a, v.End() / 4096, v.End(), es);
      }
    }
  }

  lemma {:induction false} IntervalInside(space: W.AddressSpace, first: nat, second: nat, flags: W.Flags, v: W.Interval)
    requires first % 4096 == 0 && v in W.Regions(space, first, second, flags)
    ensures v.base + v.size <= second && (v.End() == second || v.End() % 4096 == 0)
  {
    W.RegionsAscendInside(space, first, second, flags);
    var i :| 0 <= i < |W.Regions(space, first, second, flags)| && W.Regions(space, first, second, flags)[i] == v;
    W.KeepMembers(W.Visited(space, first, second, first, 0), flags);
    VisitedEnds(space, first, second, first, 0);
  }

  /**
   * A first scan from a page boundary, over a target whose queries and reads all succeed: the candidates
   * are exactly the aligned elements wholly in the range, on scannable pages, whose value passes. How the
   * walk cut the pages into regions does not matter.
   */
  lemma {:induction false} FirstScanOfPages(space: W.AddressSpace, attributes: nat -> W.Attributes, first: nat,
      second: nat, flags: W.Flags, t: M.Target, q: Query, es: ElemSize, a: nat, v: nat)
    requires Reports(space, attributes) && first % 4096 == 0 && (forall b: nat :: t.readable(b)) && M.Width(q) == es
    ensures M.Candidate(M.FirstScan(ToRegions(W.Regions(space, first, second, flags)), t, q), es, a, v)
            <==> && first <= a && a + es <= second && a % es == 0 && Scannable(attributes(a / 4096), flags)
                 && v == MemoryWord(t.memory, a, es) && (q.kind == UnknownValue || Accepts(q, v, q.raw1))
  {
    var rs := ToRegions(W.Regions(space, first, second, flags));
    RegionsFormLayout(space, first, second, flags, es);
    FoundSomewhere(rs, t, q, es, a, v);
    if a % es == 0 {
      ElementInRegion(space, attributes, first, second, flags, a, es);
      assert InReadable(rs, t, a, es) <==> InRegion(rs, a, es);
    }
  }

  /** For 16-bit values: two bytes at an even address of the range, on a scannable page. */
  lemma {:induction false} U16OfPages(space: W.AddressSpace, attributes: nat -> W.Attributes, first: nat, second: nat,
      flags: W.Flags, t: M.Target, q: Query, a: nat, v: nat)
    requires Reports(space, attributes) && first % 4096 == 0 && (forall b: nat :: t.readable(b))
    requires q.elem == U16 && q.kind == ExactValue
    ensures M.Candidate(M.FirstScan(ToRegions(W.Regions(space, first, second, flags)), t, q), 2, a, v)
            <==> && first <= a && a + 2 <= second && a % 2 == 0
                 && attributes(a / 4096).state == W.Committed && attributes(a / 4096).kind != W.Mapped
                 && (exists b :: b in attributes(a / 4096).protect && b in flags)
                 && v == q.raw1 == t.memory(a) + 256 * t.memory(a + 1)
  {
    FirstScanOfPages(space, attributes, first, second, flags, t, q, 2, a, v);
    MemoryWordBytes(t.memory, a);
  }

  // ---------- and a next scan over the same pages ----------

  lemma {:induction false} SameRegionsNeverMerge(rs: seq<M.Region>, es: ElemSize)
    requires M.Layout(rs, es)
    ensures R.NoMerge(rs, rs)
  {
    forall r, r1, r2 | r in rs && r1 in rs && r2 in rs && R.Meets(r, r1) && R.Meets(r, r2)
      ensures r1 == r2
    {
      MeetsItself(rs, es, r, r1);
      MeetsItself(rs, es, r, r2);
    }
  }

  lemma {:induction false} MeetsItself(rs: seq<M.Region>, es: ElemSize, r: M.Region, r1: M.Region)
    requires M.Layout(rs, es) && r in rs && r1 in rs && R.Meets(r, r1)
    ensures r1 == r
  {
    var i :| 0 <= i < |rs| && rs[i] == r;
    var j :| 0 <= j < |rs| && rs[j] == r1;
  }

  /** What the second of two scans over the same regions compares the new word with. */
  function ComparedWith(q0: Query, q1: Query, old_word: nat): nat {
    if q0.kind == UnknownValue || q1.kind == Changed || q1.kind == Unchanged
       || q1.kind == IncreasedValue || q1.kind == DecreasedValue then old_word else q1.raw1
  }

  /** A run of two passes that do not merge, spelled out. */
  lemma {:induction false} TwoPasses(p0: R.Pass, p1: R.Pass, a: nat, v: nat)
    requires R.WellFormed(p0, [p1]) && R.NoMerge(p0.regions, p1.regions)
    ensures var scans := M.FirstScan(p0.regions, p0.target, p0.query);
            M.Candidate(M.NextScan(p1.regions, scans, p1.target, p1.query), M.Width(p0.query), a, v)
            <==> && R.Readable(p0, a) && R.Readable(p1, a) && Aligned(a, M.Width(p0.query))
                 && v == p1.Word(a) && PassesBoth(p0.query, p1.query, p0.Word(a), v)
  {
    assert [p1][..0] == [];
    R.RunIsAddressFilter(p0, [p1], a, v);
    TwoPassFilter(p0, p1, a);
  }

  /** The old word passes the first scan, and the new one the second. */
  predicate PassesBoth(q0: Query, q1: Query, old_word: nat, v: nat) {
    && (q0.kind == UnknownValue || Accepts(q0, old_word, q0.raw1))
    && Accepts(q1, v, ComparedWith(q0, q1, old_word))
  }

  lemma {:induction false} TwoPassFilter(p0: R.Pass, p1: R.Pass, a: nat)
    ensures R.PassesAll(p0, [p1], a)
            <==> && R.Readable(p0, a) && R.Readable(p1, a) && Aligned(a, M.Width(p0.query))
                 && PassesBoth(p0.query, p1.query, p0.Word(a), p1.Word(a))
  {
    assert [p1][..0] == [];
  }

  lemma {:induction false} AllReadable(p: R.Pass, a: nat)
    requires forall b: nat :: p.target.readable(b)
    ensures R.Readable(p, a) <==> InRegion(p.regions, a, M.Width(p.query))
  {
  }

  lemma {:induction false} TwoScans(rs: seq<M.Region>, t0: M.Target, t1: M.Target, q0: Query, q1: Query, es: ElemSize,
      a: nat, v: nat)
    requires M.Layout(rs, es) && M.Width(q0) == es && q1.elem == q0.elem
    requires (forall b: nat :: t0.readable(b)) && forall b: nat :: t1.readable(b)
    ensures M.Candidate(M.NextScan(rs, M.FirstScan(rs, t0, q0), t1, q1), es, a, v)
            <==> && InRegion(rs, a, es) && a % es == 0 && v == MemoryWord(t1.memory, a, es)
                 && PassesBoth(q0, q1, MemoryWord(t0.memory, a, es), v)
  {
    var p0, p1 := R.Pass(rs, t0, q0), R.Pass(rs, t1, q1);
    SameRegionsNeverMerge(rs, es);
    TwoPasses(p0, p1, a, v);
    WidthArithmetic(a, es);
    AllReadable(p0, a);
    AllReadable(p1, a);
  }

  /**
   * Two scans from a page boundary over pages that stay as they are: the candidates are the aligned elements
   * in the range, on scannable pages, whose value passed the first scan and now passes the second.
   */
  lemma {:induction false} NextScanOfPages(space: W.AddressSpace, attributes: nat -> W.Attributes, first: nat,
      second: nat, flags: W.Flags, t0: M.Target, t1: M.Target, q0: Query, q1: Query, es: ElemSize, a: nat, v: nat)
    requires Reports(space, attributes) && first % 4096 == 0 && M.Width(q0) == es && q1.elem == q0.elem
    requires (forall b: nat :: t0.readable(b)) && forall b: nat :: t1.readable(b)
    ensures var rs, w0 := ToRegions(W.Regions(space, first, second, flags)), MemoryWord(t0.memory, a, es);
            M.Candidate(M.NextScan(rs, M.FirstScan(rs, t0, q0), t1, q1), es, a, v)
            <==> && first <= a && a + es <= second && a % es == 0 && Scannable(attributes(a / 4096), flags)
                 && (q0.kind == UnknownValue || Accepts(q0, w0, q0.raw1))
                 && v == MemoryWord(t1.memory, a, es) && Accepts(q1, v, ComparedWith(q0, q1, w0))
  {
    RegionsFormLayout(space, first, second, flags, es);
    TwoScans(ToRegions(W.Regions(space, first, second, flags)), t0, t1, q0, q1, es, a, v);
    if a % es == 0 {
      ElementInRegion(space, attributes, first, second, flags, a, es);
    }
  }

  /** An unknown-value scan and one for increased 16-bit values: the two bytes make up more than they did. */
  lemma {:induction false} IncreasedU16OfPages(space: W.AddressSpace, attributes: nat -> W.Attributes, first: nat,
      second: nat, flags: W.Flags, t0: M.Target, t1: M.Target, q0: Query, q1: Query, a: nat, v: nat)
    requires Reports(space, attributes) && first % 4096 == 0
    requires (forall b: nat :: t0.readable(b)) && forall b: nat :: t1.readable(b)
    requires q0.elem == q1.elem == U16 && q0.kind == UnknownValue && q1.kind == IncreasedValue
    ensures var rs := ToRegions(W.Regions(space, first, second, flags));
            M.Candidate(M.NextScan(rs, M.FirstScan(rs, t0, q0), t1, q1), 2, a, v)
            <==> && first <= a && a + 2 <= second && a % 2 == 0 && Scannable(attributes(a / 4096), flags)
                 && v == t1.memory(a) + 256 * t1.memory(a + 1)
                 && v > t0.memory(a) + 256 * t0.memory(a + 1)
  {
    NextScanOfPages(space, attributes, first, second, flags, t0, t1, q0, q1, 2, a, v);
    MemoryWordBytes(t0.memory, a);
    MemoryWordBytes(t1.memory, a);
  }

  /** An unknown-value scan and one for 64-bit values increased by d: the sum wraps around at 2^64. */
  lemma {:induction false} IncreasedByU64OfPages(space: W.AddressSpace, attributes: nat -> W.Attributes, first: nat,
      second: nat, flags: W.Flags, t0: M.Target, t1: M.Target, q0: Query, q1: Query, d: nat, a: nat, v: nat)
    requires Reports(space, attributes) && first % 4096 == 0
    requires (forall b: nat :: t0.readable(b)) && forall b: nat :: t1.readable(b)
    requires q0.elem == q1.elem == U64 && q0.kind == UnknownValue && q1.kind == IncreasedBy
    requires q1.raw2 == Some(d) && d < 18446744073709551616
    ensures var rs := ToRegions(W.Regions(space, first, second, flags));
            var was, now := EightByteWord(t0.memory, a), EightByteWord(t1.memory, a);
            M.Candidate(M.NextScan(rs, M.FirstScan(rs, t0, q0), t1, q1), 8, a, v)
            <==> && first <= a && a + 8 <= second && a % 8 == 0 && Scannable(attributes(a / 4096), flags)
                 && v == now && (now == was + d || now + 18446744073709551616 == was + d)
  {
    NextScanOfPages(space, attributes, first, second, flags, t0, t1, q0, q1, 8, a, v);
    EightBytes(t0.memory, a);
    EightBytes(t1.memory, a);
    DifferenceMeans(v, EightByteWord(t0.memory, a), q1.raw2);
  }
}
