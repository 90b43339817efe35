/** next_scan over whole lists, continued: partition, representations, updates and the final sort. */
module ListTheorems {
  import opened Bytes
  import opened Comparator
  import opened ScanModel
  import opened SearchTheorems
  import opened RemapTheorems
  import opened PairTheorems
  import opened JoinTheorems

  // ---------- increased, decreased and unchanged partition the processed candidates ----------

  /** A scan holds at most one snapshot for an address. */
  lemma {:induction false} SnapshotUnique(s: Scan, es: ElemSize, a: nat, v: nat, v': nat)
    requires Usable(s, es) && Holds(s, es, a, v) && Holds(s, es, a, v')
    ensures v == v'
  {
    KeptInBounds(s, es);
    var e :| e in Kept(s, es) && s.base + Stride(e.index, es) == a && e.snapshot == v;
    var e' :| e' in Kept(s, es) && s.base + Stride(e'.index, es) == a && e'.snapshot == v';
    StrideMonotone(e.index, e'.index, es);
    var i :| 0 <= i < |Kept(s, es)| && Kept(s, es)[i] == e;
    var j :| 0 <= j < |Kept(s, es)| && Kept(s, es)[j] == e';
  }

  /** The previous candidate (a, v0) of p is looked at through region r and reads as v now. */
  ghost predicate Processed(regions: seq<Region>, prevs: seq<Scan>, t: Target, es: ElemSize,
      a: nat, v: nat, r: Region, p: Scan, v0: nat) {
    && r in regions && Partner(r, prevs, p) && t.readable(r.base) && Whole(r, es, a)
    && v == MemoryWord(t.memory, a, es)
    && Holds(p, es, a, v0)
  }

  /** For a processed candidate the comparator alone decides. */
  lemma {:induction false} VerdictDecides(regions: seq<Region>, prevs: seq<Scan>, t: Target, q: Query, a: nat, v: nat,
      r: Region, p: Scan, v0: nat)
    requires Layout(regions, Width(q)) && AllUsable(prevs, Width(q))
    requires Processed(regions, prevs, t, Width(q), a, v, r, p, v0)
    ensures Candidate(NextScan(regions, prevs, t, q), Width(q), a, v) <==> Accepts(q, v, Reference(p.kind, q, v0))
  {
    NextScanExact(regions, prevs, t, q, a, v);
    if Candidate(NextScan(regions, prevs, t, q), Width(q), a, v) {
      var r', p' :| r' in regions && Partner(r', prevs, p') && CarriedBy(r', p', t, q, a, v);
      SameRegion(regions, r, r', Width(q), a);
      var v1 :| Holds(p', Width(q), a, v1) && Accepts(q, v, Reference(p'.kind, q, v1));
      assert p in prevs;
      SnapshotUnique(p, Width(q), a, v0, v1);
    }
    if Accepts(q, v, Reference(p.kind, q, v0)) {
      assert CarriedBy(r, p, t, q, a, v);
    }
  }

  ghost predicate CandidateOf(kind: ScanType, regions: seq<Region>, prevs: seq<Scan>, t: Target, q: Query, a: nat,
      v: nat)
  {
    Candidate(NextScan(regions, prevs, t, q.(kind := kind)), Width(q), a, v)
  }

  ghost predicate IsProcessed(regions: seq<Region>, prevs: seq<Scan>, t: Target, es: ElemSize, a: nat, v: nat) {
    exists r, p, v0 :: Processed(regions, prevs, t, es, a, v, r, p, v0)
  }

  lemma {:induction false} CandidateIsProcessed(kind: ScanType, regions: seq<Region>, prevs: seq<Scan>, t: Target,
      q: Query, a: nat, v: nat)
    requires Layout(regions, Width(q)) && AllUsable(prevs, Width(q))
    requires CandidateOf(kind, regions, prevs, t, q, a, v)
    ensures IsProcessed(regions, prevs, t, Width(q), a, v)
  {
    var q' := q.(kind := kind);
    NextScanExact(regions, prevs, t, q', a, v);
    var r, p :| r in regions && Partner(r, prevs, p) && CarriedBy(r, p, t, q', a, v);
    var v0 :| Holds(p, Width(q), a, v0) && Accepts(q', v, Reference(p.kind, q', v0));
    assert Processed(regions, prevs, t, Width(q), a, v, r, p, v0);
  }

  /** What the scan types that look at the old value say about a processed integer: it rose, fell, stayed or changed. */
  lemma {:induction false} ChangeVerdicts(regions: seq<Region>, prevs: seq<Scan>, t: Target, q: Query, a: nat, v: nat,
      r: Region, p: Scan, v0: nat)
    requires Layout(regions, Width(q)) && AllUsable(prevs, Width(q)) && q.elem != Float && q.elem != Double
    requires Processed(regions, prevs, t, Width(q), a, v, r, p, v0)
    ensures CandidateOf(IncreasedValue, regions, prevs, t, q, a, v) <==> v > v0
    ensures CandidateOf(DecreasedValue, regions, prevs, t, q, a, v) <==> v < v0
    ensures CandidateOf(Unchanged, regions, prevs, t, q, a, v) <==> v == v0
    ensures CandidateOf(Changed, regions, prevs, t, q, a, v) <==> v != v0
  {
    VerdictDecides(regions, prevs, t, q.(kind := IncreasedValue), a, v, r, p, v0);
    VerdictDecides(regions, prevs, t, q.(kind := DecreasedValue), a, v, r, p, v0);
    VerdictDecides(regions, prevs, t, q.(kind := Unchanged), a, v, r, p, v0);
    VerdictDecides(regions, prevs, t, q.(kind := Changed), a, v, r, p, v0);
  }

  /**
   * What the types that compare with a target say about it: the target is the value asked for or, when
   * the previous scan was for an unknown value, the old value. A missing second value accepts nothing.
   */
  lemma {:induction false} TargetVerdicts(regions: seq<Region>, prevs: seq<Scan>, t: Target, q: Query, a: nat, v: nat,
      r: Region, p: Scan, v0: nat)
    requires Layout(regions, Width(q)) && AllUsable(prevs, Width(q)) && q.elem != Float && q.elem != Double
    requires Processed(regions, prevs, t, Width(q), a, v, r, p, v0)
    ensures var b := if p.kind.UnknownValue? then v0 else q.raw1;
            && (CandidateOf(ExactValue, regions, prevs, t, q, a, v) <==> v == b)
            && (CandidateOf(SmallerThan, regions, prevs, t, q, a, v) <==> v < b)
            && (CandidateOf(BiggerThan, regions, prevs, t, q, a, v) <==> v > b)
            && (CandidateOf(ValueBetween, regions, prevs, t, q, a, v) <==> q.raw2.Some? && b < v < q.raw2.value)
  {
    VerdictDecides(regions, prevs, t, q.(kind := ExactValue), a, v, r, p, v0);
    VerdictDecides(regions, prevs, t, q.(kind := SmallerThan), a, v, r, p, v0);
    VerdictDecides(regions, prevs, t, q.(kind := BiggerThan), a, v, r, p, v0);
    VerdictDecides(regions, prevs, t, q.(kind := ValueBetween), a, v, r, p, v0);
  }

  /**
   * increased_by and decreased_by: the value and the target differ by the second value, a 64-bit argument,
   * with wrap-around at 2^64.
   */
  lemma {:induction false} DifferenceVerdicts(regions: seq<Region>, prevs: seq<Scan>, t: Target, q: Query, a: nat,
      v: nat, r: Region, p: Scan, v0: nat)
    requires Layout(regions, Width(q)) && AllUsable(prevs, Width(q)) && q.elem != Float && q.elem != Double
    requires Processed(regions, prevs, t, Width(q), a, v, r, p, v0)
    requires q.raw2.Some? ==> q.raw2.value < 0x1_0000_0000_0000_0000
    ensures var b := if p.kind.UnknownValue? then v0 else q.raw1;
            && (CandidateOf(IncreasedBy, regions, prevs, t, q, a, v)
                <==> && q.raw2.Some?
                     && (v == b + q.raw2.value || v + 0x1_0000_0000_0000_0000 == b + q.raw2.value))
            && (CandidateOf(DecreasedBy, regions, prevs, t, q, a, v)
                <==> && q.raw2.Some?
                     && (b == v + q.raw2.value || b + 0x1_0000_0000_0000_0000 == v + q.raw2.value))
  {
    VerdictDecides(regions, prevs, t, q.(kind := IncreasedBy), a, v, r, p, v0);
    VerdictDecides(regions, prevs, t, q.(kind := DecreasedBy), a, v, r, p, v0);
    DifferenceMeans(v, if p.kind.UnknownValue? then v0 else q.raw1, q.raw2);
  }

  /**
   * On the same previous scans and target, the candidates of increased, decreased and unchanged are
   * pairwise disjoint and make up all processed candidates; changed is increased or decreased. So for
   * integers, and for floating-point numbers as far as their comparison is exact.
   */
  lemma {:induction false} CandidatesPartition(regions: seq<Region>, prevs: seq<Scan>, t: Target, q: Query,
      decode: Decoder, a: nat, v: nat)
    requires Layout(regions, Width(q)) && AllUsable(prevs, Width(q)) && Exact(q, decode)
    ensures var up := CandidateOf(IncreasedValue, regions, prevs, t, q, a, v);
            var down := CandidateOf(DecreasedValue, regions, prevs, t, q, a, v);
            var same := CandidateOf(Unchanged, regions, prevs, t, q, a, v);
            var other := CandidateOf(Changed, regions, prevs, t, q, a, v);
            && !(up && down) && !(up && same) && !(down && same)
            && (up || down || same <==> IsProcessed(regions, prevs, t, Width(q), a, v))
            && (other <==> up || down)
  {
    if IsProcessed(regions, prevs, t, Width(q), a, v) {
      var r, p, v0 :| Processed(regions, prevs, t, Width(q), a, v, r, p, v0);
      VerdictDecides(regions, prevs, t, q.(kind := IncreasedValue), a, v, r, p, v0);
      VerdictDecides(regions, prevs, t, q.(kind := DecreasedValue), a, v, r, p, v0);
      VerdictDecides(regions, prevs, t, q.(kind := Unchanged), a, v, r, p, v0);
      VerdictDecides(regions, prevs, t, q.(kind := Changed), a, v, r, p, v0);
      Trichotomy(q, decode, v, v0);
    } else {
      forall kind | CandidateOf(kind, regions, prevs, t, q, a, v)
        ensures false
      {
        CandidateIsProcessed(kind, regions, prevs, t, q, a, v);
      }
    }
  }

  // ---------- raw snapshots and explicit entries ----------

  /** The same scan with everything it stands for written out as entries. */
  function Expand(s: Scan, es: ElemSize): Scan {
    Scan(s.base, s.bytes, if s.kind.UnknownValue? then ExactValue else s.kind, Kept(s, es))
  }

  function ExpandAll(scans: seq<Scan>, es: ElemSize): seq<Scan> {
    seq(|scans|, i requires 0 <= i < |scans| => Expand(scans[i], es))
  }

  lemma {:induction false} PairSeesExpansion(r: Region, p: Scan, t: Target, q: Query)
    requires Usable(p, Width(q)) && Aligned(r.base, Width(q)) && ComparesWithSnapshot(q.kind)
    ensures ScanPair(r, Expand(p, Width(q)), t, q) == ScanPair(r, p, t, q)
  {
    RawIsExplicit(p, r, ReadRegion(t, r), q);
    RemapSeesHistory(p, Expand(p, Width(q)), r, ReadRegion(t, r), q, Kept(p, Width(q)), Kept(p, Width(q)), true);
  }

  /**
   * For the four scan types that compare with the snapshot, next_scan gives the same scans from raw
   * snapshots as from the same snapshots held as explicit entries.
   */
  lemma {:induction false} RepresentationEquivalence(regions: seq<Region>, prevs: seq<Scan>, t: Target, q: Query)
    requires ComparesWithSnapshot(q.kind)
    requires forall r :: r in regions ==> Aligned(r.base, Width(q))
    requires forall p :: p in prevs ==> Usable(p, Width(q))
    ensures NextScan(regions, ExpandAll(prevs, Width(q)), t, q) == NextScan(regions, prevs, t, q)
    decreases |regions| + |prevs|
  {
    if regions != [] && prevs != [] {
      var r, p := regions[0], prevs[0];
      assert r in regions && p in prevs;
      assert ExpandAll(prevs, Width(q))[1..] == ExpandAll(prevs[1..], Width(q));
      if r.End() <= p.base {
        RepresentationEquivalence(regions[1..], prevs, t, q);
      } else if p.End() <= r.base {
        RepresentationEquivalence(regions, prevs[1..], t, q);
      } else {
        PairSeesExpansion(r, p, t, q);
        RepresentationEquivalence(regions[1..], prevs, t, q);
      }
    }
  }

  // ---------- updates ----------

  /** update(): if there are entries, the region is reread and each live value overwritten in place. */
  function Update(s: Scan, es: ElemSize, bytes: seq<Byte>): Scan
    requires InBounds(s, es) && |bytes| == |s.bytes|
  {
    if s.entries == [] then
      s
    else
      s.(bytes := bytes,
         entries := seq(|s.entries|, i requires 0 <= i < |s.entries| =>
           assert s.entries[i] in s.entries;
           s.entries[i].(value := OverwriteLow(s.entries[i].value, bytes, Stride(s.entries[i].index, es), es))))
  }

  /** Nothing next_scan looks at differs. */
  predicate SameHistory(s: Scan, s': Scan) {
    && s.base == s'.base && |s.bytes| == |s'.bytes| && s.kind == s'.kind
    && |s.entries| == |s'.entries|
    && (forall i :: 0 <= i < |s.entries|
          ==> s.entries[i].index == s'.entries[i].index && s.entries[i].snapshot == s'.entries[i].snapshot)
    && (s.kind.UnknownValue? ==> s.bytes == s'.bytes)
  }

  predicate SameHistories(scans: seq<Scan>, scans': seq<Scan>) {
    |scans| == |scans'| && forall i :: 0 <= i < |scans| ==> SameHistory(scans[i], scans'[i])
  }

  /** An update changes nothing next_scan looks at. */
  lemma {:induction false} UpdateKeepsHistory(s: Scan, es: ElemSize, bytes: seq<Byte>)
    requires Usable(s, es) && |bytes| == |s.bytes|
    ensures SameHistory(s, Update(s, es, bytes)) && Usable(Update(s, es, bytes), es)
  {
    UpdateStaysInBounds(s, es, bytes);
  }

  lemma {:induction false} UpdateStaysInBounds(s: Scan, es: ElemSize, bytes: seq<Byte>)
    requires InBounds(s, es) && |bytes| == |s.bytes|
    ensures InBounds(Update(s, es, bytes), es)
  {
    var s' := Update(s, es, bytes);
    forall e | e in s'.entries
      ensures Stride(e.index, es) + es <= |s'.bytes|
    {
      var i :| 0 <= i < |s'.entries| && s'.entries[i] == e;
      assert s.entries[i] in s.entries;
    }
  }

  /** After an update each live value is the word now in the buffer, however often it was updated before. */
  lemma {:induction false} UpdateShowsLiveWords(s: Scan, es: ElemSize, bytes: seq<Byte>, i: nat)
    requires InBounds(s, es) && |bytes| == |s.bytes| && i < |s.entries|
    requires s.entries[i].value < Pow256(es)
    ensures var e := Update(s, es, bytes).entries[i];
            s.entries[i] in s.entries
            && e.value == Word(bytes, Stride(s.entries[i].index, es), es) < Pow256(es)
  {
    assert s.entries[i] in s.entries;
    OverwriteNarrow(s.entries[i].value, bytes, Stride(s.entries[i].index, es), es);
    WordBound(bytes, Stride(s.entries[i].index, es), es);
  }

  lemma {:induction false} EntrySeesHistory(p: Scan, p': Scan, r: Region, bytes: seq<Byte>, q: Query, e: Entry,
      e': Entry, bySnapshot: bool)
    requires |bytes| == r.size && p.base == p'.base && |p.bytes| == |p'.bytes|
    requires e.index == e'.index && e.snapshot == e'.snapshot
    ensures RemapEntry(p, r, bytes, q, e, bySnapshot) == RemapEntry(p', r, bytes, q, e', bySnapshot)
  {
    assert InWindow(p, r, e, Width(q)) <==> InWindow(p', r, e', Width(q));
  }

  lemma {:induction false} RemapSeesHistory(p: Scan, p': Scan, r: Region, bytes: seq<Byte>, q: Query,
      es: seq<Entry>, es': seq<Entry>, bySnapshot: bool)
    requires |bytes| == r.size && p.base == p'.base && |p.bytes| == |p'.bytes| && |es| == |es'|
    requires forall i :: 0 <= i < |es| ==> es[i].index == es'[i].index && es[i].snapshot == es'[i].snapshot
    ensures RemapEntries(p, r, bytes, q, es, bySnapshot) == RemapEntries(p', r, bytes, q, es', bySnapshot)
  {
    if es != [] {
      var e, e' := es[|es| - 1], es'[|es'| - 1];
      RemapSeesHistory(p, p', r, bytes, q, es[..|es| - 1], es'[..|es'| - 1], bySnapshot);
      EntrySeesHistory(p, p', r, bytes, q, e, e', bySnapshot);
    }
  }

  lemma {:induction false} PairSeesHistory(r: Region, p: Scan, p': Scan, t: Target, q: Query)
    requires SameHistory(p, p') && Usable(p, Width(q)) && Usable(p', Width(q)) && Aligned(r.base, Width(q))
    ensures ScanPair(r, p, t, q) == ScanPair(r, p', t, q)
  {
    RawIsExplicit(p, r, ReadRegion(t, r), q);
    RawIsExplicit(p', r, ReadRegion(t, r), q);
    RemapSeesHistory(p, p', r, ReadRegion(t, r), q, Kept(p, Width(q)), Kept(p', Width(q)), BySnapshot(p, q));
  }

  /** next_scan cannot tell updated scans from the originals. */
  lemma {:induction false} NextScanSeesHistory(regions: seq<Region>, prevs: seq<Scan>, prevs': seq<Scan>, t: Target,
      q: Query)
    requires SameHistories(prevs, prevs')
    requires forall r :: r in regions ==> Aligned(r.base, Width(q))
    requires forall p :: p in prevs || p in prevs' ==> Usable(p, Width(q))
    ensures NextScan(regions, prevs, t, q) == NextScan(regions, prevs', t, q)
    decreases |regions| + |prevs|
  {
    if regions != [] && prevs != [] {
      var r, p, p' := regions[0], prevs[0], prevs'[0];
      assert r in regions && p in prevs && p' in prevs';
      if r.End() <= p.base {
        NextScanSeesHistory(regions[1..], prevs, prevs', t, q);
      } else if p.End() <= r.base {
        NextScanSeesHistory(regions, prevs[1..], prevs'[1..], t, q);
      } else {
        PairSeesHistory(r, p, p', t, q);
        NextScanSeesHistory(regions[1..], prevs, prevs', t, q);
      }
    }
  }

  // ---------- the final sort ----------

  predicate Sorted<T>(s: seq<T>, key: T -> nat) {
    forall i, j :: 0 <= i < j < |s| ==> key(s[i]) <= key(s[j])
  }

  predicate StrictlyAscending<T>(s: seq<T>, key: T -> nat) {
    forall i, j :: 0 <= i < j < |s| ==> key(s[i]) < key(s[j])
  }

  /** The key the scanner sorts by. */
  function Base(s: Scan): nat {
    s.base
  }

  lemma {:induction false} SortedHead<T>(s: seq<T>, sorted: seq<T>, key: T -> nat)
    requires StrictlyAscending(s, key) && Sorted(sorted, key) && multiset(s) == multiset(sorted)
    requires s != [] && sorted != []
    ensures s[0] == sorted[0]
  {
    assert s[0] in multiset(s) && sorted[0] in multiset(sorted);
    var i :| 0 <= i < |sorted| && sorted[i] == s[0];
    var j :| 0 <= j < |s| && s[j] == sorted[0];
  }

  lemma {:induction false} TailMultiset<T>(s: seq<T>)
    requires s != []
    ensures multiset(s[1..]) == multiset(s) - multiset{s[0]}
  {
    assert s == [s[0]] + s[1..];
  }

  lemma {:induction false} SortedTail<T>(s: seq<T>, sorted: seq<T>, key: T -> nat)
    requires StrictlyAscending(s, key) && Sorted(sorted, key) && multiset(s) == multiset(sorted)
    requires s != [] && sorted != [] && s[0] == sorted[0]
    ensures StrictlyAscending(s[1..], key) && Sorted(sorted[1..], key) && multiset(s[1..]) == multiset(sorted[1..])
  {
    TailMultiset(s);
    TailMultiset(sorted);
  }

  /** Any sorted permutation of a strictly ascending list is that list: the sort changes nothing. */
  lemma {:induction false} SortIsIdentity<T>(s: seq<T>, sorted: seq<T>, key: T -> nat)
    requires StrictlyAscending(s, key) && Sorted(sorted, key) && multiset(s) == multiset(sorted)
    ensures sorted == s
  {
    assert |multiset(s)| == |s| && |multiset(sorted)| == |sorted|;
    if s != [] {
      SortedHead(s, sorted, key);
      SortedTail(s, sorted, key);
      SortIsIdentity(s[1..], sorted[1..], key);
      assert s == [s[0]] + s[1..] && sorted == [sorted[0]] + sorted[1..];
    }
  }

  predicate AscendingRegions(regions: seq<Region>) {
    forall i, j :: 0 <= i < j < |regions| ==> regions[i].base < regions[j].base
  }

  predicate AtLeast(scans: seq<Scan>, base: nat) {
    forall i :: 0 <= i < |scans| ==> scans[i].base >= base
  }

  predicate AtMost(scans: seq<Scan>, base: nat) {
    forall i :: 0 <= i < |scans| ==> scans[i].base <= base
  }

  /** first_scan's list is strictly ascending before it is sorted, whatever the alignment of the regions. */
  lemma {:induction false} FirstScanAscends(regions: seq<Region>, t: Target, q: Query)
    requires AscendingRegions(regions)
    ensures StrictlyAscending(FirstScan(regions, t, q), Base)
    ensures regions != [] ==> AtMost(FirstScan(regions, t, q), regions[|regions| - 1].base)
  {
    if regions != [] {
      FirstScanAscends(regions[..|regions| - 1], t, q);
    }
  }

  /** So is next_scan's. */
  lemma {:induction false} NextScanAscends(regions: seq<Region>, prevs: seq<Scan>, t: Target, q: Query)
    requires AscendingRegions(regions)
    ensures StrictlyAscending(NextScan(regions, prevs, t, q), Base)
    ensures regions != [] ==> AtLeast(NextScan(regions, prevs, t, q), regions[0].base)
    decreases |regions| + |prevs|
  {
    if regions != [] && prevs != [] {
      if regions[0].End() <= prevs[0].base {
        NextScanAscends(regions[1..], prevs, t, q);
      } else if prevs[0].End() <= regions[0].base {
        NextScanAscends(regions, prevs[1..], t, q);
      } else {
        NextScanAscends(regions[1..], prevs, t, q);
      }
    }
  }
}
