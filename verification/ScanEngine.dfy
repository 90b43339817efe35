/**
 * The scanner as objects: memory regions that keep their bytes in the shared snapshot file, scans
 * over them, and the loops of search_value, update, get_regions, first_scan and next_scan.
 */
module ScanEngine {
  import opened Wrappers
  import opened Bytes
  import opened Comparator
  import opened Refusals
  import opened SnapshotStore
  import L = ListTheorems
  import M = ScanModel
  import W = RegionWalk

  /** The part of the file that had been handed out reads as before. */
  twostate predicate HandedOutKept(file: MFile)
    reads file
  {
    && old(file.offset) <= old(|file.disk|) && old(file.offset) <= file.offset <= |file.disk|
    && file.disk[..old(file.offset)] == old(file.disk[..file.offset])
  }

  lemma {:induction false} PrefixChain(a: seq<Byte>, b: seq<Byte>, c: seq<Byte>, n: nat, m: nat)
    requires n <= m && n <= |a| && m <= |b| && m <= |c| && a[..n] == b[..n] && b[..m] == c[..m]
    ensures a[..n] == c[..n]
  {
    SamePrefix(b, c, m, 0, n);
  }

  /** Only bytes of this block differ. */
  predicate SameOutside(a: seq<Byte>, b: seq<Byte>, s: Span) {
    |a| == |b| && s.End() <= |a| && a[..s.At()] == b[..s.At()] && a[s.End()..] == b[s.End()..]
  }

  predicate ClearOf(a: Span, b: Span) {
    a.End() <= b.At() || b.End() <= a.At()
  }

  lemma {:induction false} OutsideKept(a: seq<Byte>, b: seq<Byte>, s: Span, other: Span)
    requires SameOutside(a, b, s) && other.End() <= |a| && ClearOf(other, s)
    ensures a[other.At()..other.End()] == b[other.At()..other.End()]
  {
    if other.End() <= s.At() {
      SamePrefix(a, b, s.At(), other.At(), other.End());
    } else {
      forall k | other.At() <= k < other.End()
        ensures a[k] == b[k]
      {
        assert a[k] == a[s.End()..][k - s.End()] && b[k] == b[s.End()..][k - s.End()];
      }
    }
  }

  /** Overlaying a stretch from its start leaves what is below it and above it. */
  lemma {:induction false} OverlayEnds(disk: seq<Byte>, at: nat, end: nat, data: seq<Byte>)
    requires at + |data| <= end <= |disk|
    ensures Overlay(disk, at, data)[..at] == disk[..at] && Overlay(disk, at, data)[end..] == disk[end..]
  {
  }

  class MemoryRegion {
    const file: MFile
    const mbi: W.Interval
    var spans: seq<Span>
    var maps: set<Window>
    var reserved: bool

    constructor (file: MFile, mbi: W.Interval)
      ensures this.file == file && this.mbi == mbi
      ensures spans == [] && maps == {} && !reserved
    {
      this.file, this.mbi := file, mbi;
      spans, maps, reserved := [], {}, false;
    }

    function Region(): M.Region {
      M.Region(mbi.base, mbi.size)
    }

    /** Every span lies in a mapping this region holds, and in the part of the file already handed out. */
    predicate Valid()
      reads this, file
    {
      && Linked(file.View())
      && (forall s :: s in spans ==> s.window in maps && s.rel + s.length <= s.window.length && s.End() <= file.offset)
      && (if reserved then |spans| == 1 && spans[0].length == mbi.size else spans == [])
    }

    function RawBytes(): (b: seq<Byte>)
      requires Valid()
      reads this, file
      ensures reserved ==> |b| == mbi.size
    {
      if spans == [] then [] else file.disk[spans[0].At()..spans[0].End()]
    }

    /** What becomes of asking the file for this region's block. */
    function Asked(g: Growth): (Room, Verdict)
      reads file
    {
      Reserve(RoomOf(file.View()), mbi.size, g)
    }

    /**
     * alloc_f, through dump and write_data: a zeroed block of the file, its span and its mapping kept. When
     * it is refused the file may have grown all the same; the write position and the bytes before it stay.
     */
    method AllocF(n: nat, g: Growth) returns (index: int)
      requires Linked(file.View()) && n > 0 && !Reserve(RoomOf(file.View()), n, g).1.Crashes?
      modifies this`spans, this`maps, file
      ensures Linked(file.View()) && HandedOutKept(file)
      ensures RoomOf(file.View()) == Reserve(RoomOf(old(file.View())), n, g).0
      ensures index != -1 <==> Reserve(RoomOf(old(file.View())), n, g).1.Granted?
      ensures index == -1 ==>
                && spans == old(spans) && maps == old(maps)
                && file.View() == Expand(old(file.View()), n, g.extended)
                && (Coherent(old(file.View())) ==> (Coherent(file.View()) <==> !g.extended))
      ensures index != -1 ==>
                && index == |old(spans)| && |spans| == index + 1 && spans[..index] == old(spans)
                && maps == old(maps) + {spans[index].window}
                && file.offset == old(file.offset) + n
                && HandedOut(old(file.View()), file.View(), Zeros(n), spans[index])
    {
      WriteExact(file.View(), Zeros(n), g);
      ReserveIsWrite(file.View(), Zeros(n), g);
      var out := file.Write(None, n, g);
      match out {
        case Written(span) =>
          maps := maps + {span.window};
          spans := spans + [span];
          index := |spans| - 1;
        case _ =>
          index := -1;
      }
    }

    /** The first half of read_memory: a block of zeros, unless it is refused. */
    method ReserveBlock(g: Growth)
      requires Valid() && mbi.size > 0 && !reserved && !Asked(g).1.Crashes?
      modifies this, file
      ensures Valid() && HandedOutKept(file) && RoomOf(file.View()) == old(Asked(g)).0
      ensures reserved <==> old(Asked(g)).1.Granted?
      ensures reserved ==> RawBytes() == Zeros(mbi.size) && spans[0].At() == old(file.offset)
    {
      var index := AllocF(mbi.size, g);
      if index != -1 {
        reserved := true;
      }
    }

    /** read_memory: reserve once, then refill the same span. */
    method ReadMemory(t: M.Target, copied: nat, g: Growth) returns (ok: bool)
      requires Valid() && mbi.size > 0 && (reserved || !Asked(g).1.Crashes?)
      modifies this, file
      ensures Valid()
      ensures ok <==> reserved && t.readable(mbi.base)
      ensures reserved <==> old(reserved) || old(Asked(g)).1.Granted?
      ensures reserved ==>
                RawBytes()
                  == M.AfterRead(t, Region(), if old(reserved) then old(RawBytes()) else Zeros(mbi.size), copied)
      ensures old(reserved) ==>
                && spans == old(spans) && maps == old(maps)
                && file.View() == old(file.View()).(disk := file.disk)
                && SameOutside(old(file.disk), file.disk, spans[0])
      ensures !old(reserved) ==> HandedOutKept(file) && RoomOf(file.View()) == old(Asked(g)).0
      ensures !old(reserved) && reserved ==> spans[0].At() == old(file.offset)
    {
      if !reserved {
        ReserveBlock(g);
        if !reserved {
          return false;
        }
      }
      var n := if t.readable(mbi.base) || copied > mbi.size then mbi.size else copied;
      Refill(M.ReadRegion(t, Region())[..n]);
      return t.readable(mbi.base);
    }

    /** ReadProcessMemory's copy into _data[0]. */
    method Refill(data: seq<Byte>)
      requires Valid() && reserved && |data| <= mbi.size
      modifies file
      ensures Valid() && file.View() == old(file.View()).(disk := file.disk)
      ensures RawBytes() == data + old(RawBytes())[|data|..]
      ensures SameOutside(old(file.disk), file.disk, spans[0])
    {
      assert spans[0] in spans;
      OverlayInside(file.disk, spans[0].At(), spans[0].End(), 0, data);
      OverlayEnds(file.disk, spans[0].At(), spans[0].End(), data);
      file.disk := Overlay(file.disk, spans[0].At(), data);
    }
  }

  class Scan {
    const region: MemoryRegion
    const kind: ScanType
    const elemSize: ElemSize
    var valid: bool
    var results: seq<M.Entry>

    constructor (region: MemoryRegion, kind: ScanType, elemSize: ElemSize)
      ensures this.region == region && this.kind == kind && this.elemSize == elemSize
      ensures !valid && results == []
    {
      this.region, this.kind, this.elemSize := region, kind, elemSize;
      valid, results := false, [];
    }

    /** The value this object stands for. */
    function View(): M.Scan
      requires region.Valid()
      reads this, region, region.file
    {
      M.Scan(region.mbi.base, region.RawBytes(), kind, results)
    }

    /** The results are exactly the elements the comparator accepts, and there is one scan if there are any. */
    method SearchValue(q: Query) returns (count: nat)
      requires region.Valid() && elemSize == M.Width(q)
      modifies this
      ensures Stride(Count(|region.RawBytes()|, elemSize), elemSize) <= |region.RawBytes()|
      ensures results == M.Search(region.RawBytes(), q, Count(|region.RawBytes()|, elemSize))
      ensures count == |results| && (valid <==> results != [])
    {
      results := [];
      var bytes := region.RawBytes();
      var size := Count(|bytes|, elemSize);
      CountFits(|bytes|, elemSize);
      count := 0;
      for i := 0 to size
        invariant Stride(i, elemSize) <= |bytes| && bytes == region.RawBytes()
        invariant results == M.Search(bytes, q, i) && count == |results|
      {
        StrideMonotone(i, size, elemSize);
        var v := Word(bytes, Stride(i, elemSize), elemSize);
        if Accepts(q, v, q.raw1) {
          results := results + [M.Entry(v, v, i)];
          count := count + 1;
        }
      }
      valid := count > 0;
    }

    method AddResult(e: M.Entry)
      modifies this`results
      ensures results == old(results) + [e]
    {
      results := results + [e];
    }

    method SetValid()
      modifies this`valid
      ensures valid
    {
      valid := true;
    }

    /**
     * update: the region is read again into the same block, the result of the read is ignored, and each
     * live value is copied from the buffer. Nothing is allocated.
     */
    method Update(t: M.Target, copied: nat, g: Growth)
      requires region.Valid() && region.mbi.size > 0
      requires M.InBounds(View(), elemSize) && region.reserved
      modifies this`results, region, region.file
      ensures region.Valid() && region.reserved
      ensures View() == L.Update(old(View()), elemSize, region.RawBytes())
      ensures old(results) != []
              ==> region.RawBytes() == M.AfterRead(t, region.Region(), old(region.RawBytes()), copied)
      ensures old(results) == [] ==> region.RawBytes() == old(region.RawBytes())
      ensures region.spans == old(region.spans) && region.maps == old(region.maps)
      ensures region.file.View() == old(region.file.View()).(disk := region.file.disk)
      ensures SameOutside(old(region.file.disk), region.file.disk, region.spans[0])
    {
      if results == [] {
        return;
      }
      ghost var was := results;
      ghost var before := View();
      var _ := region.ReadMemory(t, copied, g);
      var bytes := region.RawBytes();
      for i := 0 to |results|
        modifies this`results
        invariant |results| == |was|
        invariant forall j :: 0 <= j < |was| && j >= i ==> results[j] == was[j]
        invariant forall j :: 0 <= j < i ==> results[j] == L.Update(before, elemSize, bytes).entries[j]
      {
        assert was[i] in before.entries;
        var e := results[i];
        results := results[i := e.(value := OverwriteLow(e.value, bytes, Stride(e.index, elemSize), elemSize))];
      }
      assert results == L.Update(before, elemSize, bytes).entries;
    }
  }

  // ---------- slow_scanner ----------

  function ToRegions(vs: seq<W.Interval>): (rs: seq<M.Region>)
    ensures |rs| == |vs|
  {
    seq(|vs|, i requires 0 <= i < |vs| => M.Region(vs[i].base, vs[i].size))
  }

  /** The page number times the page size is a multiple of every element size. */
  lemma {:induction false} PageAligned(page: nat, base: nat, es: ElemSize)
    requires base == 4096 * page
    ensures Aligned(base, es)
  {
    WholeMultiple(2048 * page, 1024 * page, 512 * page);
  }

  /** From a page boundary get_regions returns what first_scan and next_scan rely on. */
  lemma {:induction false} RegionsFormLayout(space: W.AddressSpace, first: nat, second: nat, flags: W.Flags,
      es: ElemSize)
    requires first % W.PAGE == 0
    ensures M.Layout(ToRegions(W.Regions(space, first, second, flags)), es)
  {
    var vs := W.Regions(space, first, second, flags);
    W.RegionsAscendInside(space, first, second, flags);
    W.AlignedRegionsDisjoint(space, first, second, flags);
    forall i | 0 <= i < |vs|
      ensures vs[i].size > 0 && Aligned(vs[i].base, es)
    {
      PageAligned(vs[i].base / W.PAGE, vs[i].base, es);
    }
  }

  predicate Unread(region: MemoryRegion, file: MFile)
    reads region
  {
    region.file == file && region.spans == [] && region.maps == {} && !region.reserved
  }

  predicate Distinct(regions: seq<MemoryRegion>) {
    forall i, j :: 0 <= i < j < |regions| ==> regions[i] != regions[j]
  }

  predicate AllUnread(regions: seq<MemoryRegion>, front: nat, file: MFile)
    reads regions
  {
    forall j :: front <= j < |regions| ==> Unread(regions[j], file)
  }

  /** The queue get_regions returned: one object, not read yet, for each interval. */
  predicate Untouched(regions: seq<MemoryRegion>, file: MFile, vs: seq<W.Interval>)
    reads regions
  {
    && |regions| == |vs| && Distinct(regions)
    && (forall i :: 0 <= i < |regions| ==> regions[i].mbi == vs[i] && Unread(regions[i], file))
  }

  /** A scan of this file; it is valid only if its region got a block. */
  predicate Sound(s: Scan, file: MFile)
    reads s, s.region, s.region.file
  {
    s.region.file == file && s.region.Valid() && s.region.mbi.size > 0 && (s.valid ==> s.region.reserved)
  }

  /** The scan's region has been read into a block of the file. */
  predicate Held(s: Scan, file: MFile)
    reads s, s.region, s.region.file
  {
    s.region.file == file && s.region.Valid() && s.region.mbi.size > 0 && s.region.reserved
  }

  /** The objects stand for these values, one for one. */
  predicate Shows(scans: seq<Scan>, views: seq<M.Scan>, file: MFile)
    reads scans, set s | s in scans :: s.region, set s | s in scans :: s.region.file
  {
    |scans| == |views| && forall i :: 0 <= i < |scans| ==> Held(scans[i], file) && scans[i].View() == views[i]
  }

  /** The blocks of two scans, if they have any, do not overlap. */
  predicate BlocksApart(a: Scan, b: Scan)
    reads a.region, b.region
  {
    a.region.spans != [] && b.region.spans != [] ==> ClearOf(a.region.spans[0], b.region.spans[0])
  }

  predicate Apart(scans: seq<Scan>)
    reads set s | s in scans :: s.region
  {
    forall i, j :: 0 <= i < j < |scans| ==> BlocksApart(scans[i], scans[j])
  }

  predicate BlockAbove(s: Scan, offset: nat)
    reads s.region
  {
    s.region.spans != [] ==> s.region.spans[0].At() >= offset
  }

  /** All blocks lie in the part of the file that was not handed out at this write position. */
  predicate Above(scans: seq<Scan>, offset: nat)
    reads set s | s in scans :: s.region
  {
    forall i :: 0 <= i < |scans| ==> BlockAbove(scans[i], offset)
  }

  lemma {:induction false} ApartAppend(scans: seq<Scan>, s: Scan)
    requires Apart(scans) && forall i :: 0 <= i < |scans| ==> BlocksApart(scans[i], s)
    ensures Apart(scans + [s])
  {
  }

  /** The blocks of the scans do not overlap those of the futures from the i-th on. */
  predicate ApartFrom(scans: seq<Scan>, futures: seq<Scan>, i: nat)
    reads (set s | s in scans :: s.region), set s | s in futures :: s.region
  {
    forall j, k :: 0 <= j < |scans| && i <= k < |futures| ==> BlocksApart(scans[j], futures[k])
  }

  lemma {:induction false} ApartFromAppend(scans: seq<Scan>, futures: seq<Scan>, i: nat)
    requires i < |futures| && ApartFrom(scans, futures, i) && Apart(futures)
    ensures ApartFrom(scans + [futures[i]], futures, i + 1)
  {
  }

  lemma {:induction false} AboveAppend(scans: seq<Scan>, s: Scan, offset: nat)
    requires Above(scans, offset) && BlockAbove(s, offset)
    ensures Above(scans + [s], offset)
  {
  }

  /** What the collecting loop takes from a finished task. */
  function Fate(s: Scan): seq<M.Scan>
    requires s.region.Valid()
    reads s, s.region, s.region.file
  {
    if s.valid then [s.View()] else []
  }

  function BaseOf(s: Scan): nat {
    s.region.mbi.base
  }

  twostate predicate Same(s: Scan)
    reads s, s.region
  {
    unchanged(s) && unchanged(s.region)
  }

  /** Blocks handed out before are not touched by what later regions read. */
  twostate lemma {:induction false} ViewKept(x: Scan)
    requires old(Sound(x, x.region.file)) && HandedOutKept(x.region.file) && Linked(x.region.file.View())
    requires Same(x)
    ensures Sound(x, x.region.file) && x.View() == old(x.View()) && Fate(x) == old(Fate(x))
  {
    if x.region.spans != [] {
      var span, file := x.region.spans[0], x.region.file;
      assert span in x.region.spans;
      SamePrefix(old(file.disk), file.disk, old(file.offset), span.At(), span.End());
    }
  }

  /** A scan shows what it showed as long as the bytes of its own block are as they were. */
  twostate lemma {:induction false} BytesKept(x: Scan)
    requires old(Held(x, x.region.file)) && Same(x) && Linked(x.region.file.View())
    requires old(x.region.file.offset) <= x.region.file.offset
    requires old(|x.region.file.disk|) <= |x.region.file.disk| && x.region.spans != []
    requires x.region.spans[0].End() <= old(|x.region.file.disk|)
    requires var b := x.region.spans[0]; x.region.file.disk[b.At()..b.End()] == old(x.region.file.disk)[b.At()..b.End()]
    ensures Held(x, x.region.file) && x.View() == old(x.View())
  {
  }

  /** In particular when only the bytes of a block apart from it changed. */
  twostate lemma {:induction false} OthersKept(x: Scan)
    requires old(Held(x, x.region.file)) && Same(x)
    requires x.region.file.View() == old(x.region.file.View()).(disk := x.region.file.disk)
    requires exists b :: SameOutside(old(x.region.file.disk), x.region.file.disk, b) && ClearOf(x.region.spans[0], b)
    ensures Held(x, x.region.file) && x.View() == old(x.View())
  {
    assert x.region.spans[0] in x.region.spans;
    var other :| SameOutside(old(x.region.file.disk), x.region.file.disk, other) && ClearOf(x.region.spans[0], other);
    OutsideKept(old(x.region.file.disk), x.region.file.disk, other, x.region.spans[0]);
    BytesKept(x);
  }

  /** The task of this region has run. */
  predicate FinishedOne(s: Scan, region: MemoryRegion, file: MFile, fate: seq<M.Scan>)
    reads s, s.region, s.region.file
  {
    s.region == region && Sound(s, file) && Fate(s) == fate
  }

  predicate Finished(futures: seq<Scan>, regions: seq<MemoryRegion>, file: MFile, fates: seq<seq<M.Scan>>)
    reads futures, set s | s in futures :: s.region, set s | s in futures :: s.region.file
  {
    && |futures| <= |regions| == |fates|
    && forall i :: 0 <= i < |futures| ==> FinishedOne(futures[i], regions[i], file, fates[i])
  }

  /** How far the launching loop has come: the futures so far are finished, the regions behind them unread. */
  predicate Launched(futures: seq<Scan>, regions: seq<MemoryRegion>, file: MFile, fates: seq<seq<M.Scan>>, room: Room,
      was: seq<Byte>, bottom: nat)
    reads futures, regions, file, set s | s in futures :: s.region, set s | s in futures :: s.region.file
  {
    && Finished(futures, regions, file, fates) && AllUnread(regions, |futures|, file)
    && Apart(futures) && Above(futures, bottom)
    && Linked(file.View()) && RoomOf(file.View()) == room
    && bottom <= |was| && bottom <= file.offset <= |file.disk| && was[..bottom] == file.disk[..bottom]
  }

  /** How far the walk has come: both lists show what they should, and the queue behind the front is unread. */
  predicate Walking(prevs: seq<Scan>, p: seq<M.Scan>, results: seq<Scan>, done: seq<M.Scan>, regions: seq<MemoryRegion>,
      front: nat, file: MFile, room: Room, was: seq<Byte>, bottom: nat)
    reads prevs, results, regions, file
    reads set s | s in prevs :: s.region, set s | s in prevs :: s.region.file
    reads set s | s in results :: s.region, set s | s in results :: s.region.file
  {
    && Shows(prevs, p, file) && Shows(results, done, file)
    && Apart(results) && Above(results, bottom) && AllUnread(regions, front, file)
    && Linked(file.View()) && RoomOf(file.View()) == room
    && bottom <= |was| && bottom <= file.offset <= |file.disk| && was[..bottom] == file.disk[..bottom]
  }

  lemma {:induction false} WalkingOn(prevs: seq<Scan>, p: seq<M.Scan>, results: seq<Scan>, done: seq<M.Scan>,
      regions: seq<MemoryRegion>, front: nat, file: MFile, room: Room, was: seq<Byte>, bottom: nat)
    requires Walking(prevs, p, results, done, regions, front, file, room, was, bottom)
    ensures Walking(prevs, p, results, done, regions, front + 1, file, room, was, bottom)
  {
  }

  /** A previous scan's region lies where its value says. */
  lemma {:induction false} ShowsExtent(prevs: seq<Scan>, p: seq<M.Scan>, file: MFile, idx: nat)
    requires Shows(prevs, p, file) && idx < |prevs|
    ensures p[idx].base == prevs[idx].region.mbi.base && p[idx].End() == prevs[idx].region.mbi.End()
  {
    assert prevs[idx].View() == p[idx];
  }

  /** A queue of distinct objects over these regions, none of them empty. */
  predicate Queued(regions: seq<MemoryRegion>, rs: seq<M.Region>) {
    && |rs| == |regions| && Distinct(regions) && Sized(rs)
    && forall i :: 0 <= i < |rs| ==> regions[i].Region() == rs[i]
  }

  /** The scans are for elements of this size, over regions of this queue. */
  predicate MadeFor(scans: seq<Scan>, regions: seq<MemoryRegion>, es: ElemSize) {
    forall s :: s in scans ==> s.region in regions && s.elemSize == es
  }

  /** A held scan whose block is apart joins a list. */
  lemma {:induction false} KeepsAppend(scans: seq<Scan>, views: seq<M.Scan>, file: MFile, s: Scan, bottom: nat)
    requires Shows(scans, views, file) && Apart(scans) && Above(scans, bottom)
    requires Held(s, file) && BlockAbove(s, bottom) && forall i :: 0 <= i < |scans| ==> BlocksApart(scans[i], s)
    ensures Shows(scans + [s], views + [s.View()], file) && Apart(scans + [s]) && Above(scans + [s], bottom)
  {
    ApartAppend(scans, s);
    AboveAppend(scans, s, bottom);
  }

  lemma {:induction false} ShowsChanged(scans: seq<Scan>, k: nat, file: MFile, p: seq<M.Scan>)
    requires |scans| == |p| && k < |scans| && Held(scans[k], file)
    requires forall i :: 0 <= i < |scans| && i != k ==> Held(scans[i], file) && scans[i].View() == p[i]
    ensures Shows(scans, p[k := scans[k].View()], file)
  {
  }

  lemma {:induction false} ShowsAscends(scans: seq<Scan>, views: seq<M.Scan>, file: MFile)
    requires Shows(scans, views, file) && L.StrictlyAscending(views, L.Base)
    ensures L.StrictlyAscending(scans, BaseOf)
  {
    forall i, j | 0 <= i < j < |scans|
      ensures BaseOf(scans[i]) < BaseOf(scans[j])
    {
      assert scans[i].View() == views[i] && scans[j].View() == views[j];
      assert L.Base(views[i]) < L.Base(views[j]);
    }
  }

  lemma {:induction false} UntouchedAppend(regions: seq<MemoryRegion>, file: MFile, vs: seq<W.Interval>,
      region: MemoryRegion)
    requires Untouched(regions, file, vs) && forall i :: 0 <= i < |regions| ==> regions[i] != region
    requires Unread(region, file)
    ensures Untouched(regions + [region], file, vs + [region.mbi])
  {
  }

  lemma {:induction false} FirstScanStep(rs: seq<M.Region>, i: nat, t: M.Target, q: Query)
    requires i < |rs|
    ensures M.FirstScan(rs[..i + 1], t, q) == M.FirstScan(rs[..i], t, q) + M.ScanRegion(rs[i], t, q)
  {
    assert rs[..i + 1][..i] == rs[..i];
  }

  /** One turn of the walk keeps the interval if it is eligible and goes on behind it. */
  lemma {:induction false} WalkStep(kept: seq<W.Interval>, space: W.AddressSpace, first: nat, second: nat, at: nat,
      queries: nat, flags: W.Flags)
    requires first <= at < second && space(queries, at).Some?
    ensures var v := W.Clip(space(queries, at).value, at, first, second);
            kept + W.Keep(W.Visited(space, first, second, at, queries), flags)
            == (if W.Eligible(v.attributes, flags) then kept + [v] else kept)
               + W.Keep(W.Visited(space, first, second, v.End(), queries + 1), flags)
  {
    var v := W.Clip(space(queries, at).value, at, first, second);
    var vs := W.Visited(space, first, second, at, queries);
    assert vs[0] == v && vs[1..] == W.Visited(space, first, second, v.End(), queries + 1);
  }

  lemma {:induction false} FinishedAppend(futures: seq<Scan>, regions: seq<MemoryRegion>, file: MFile,
      fates: seq<seq<M.Scan>>, s: Scan)
    requires Finished(futures, regions, file, fates) && |futures| < |regions|
    requires FinishedOne(s, regions[|futures|], file, fates[|futures|])
    ensures Finished(futures + [s], regions, file, fates)
  {
  }

  lemma {:induction false} RawStep(p: M.Scan, r: M.Region, bytes: seq<Byte>, q: Query, n: nat)
    requires |bytes| == r.size && Stride(n, M.Width(q)) + M.Width(q) <= M.OverlapBytes(r, p)
    ensures Stride(n + 1, M.Width(q)) <= M.OverlapBytes(r, p)
    ensures M.RemapRaw(p, r, bytes, q, n + 1) == M.RemapRaw(p, r, bytes, q, n) + M.RemapStride(p, r, bytes, q, n)
  {
    StrideNext(n, M.Width(q));
  }

  lemma {:induction false} EntriesStep(p: M.Scan, r: M.Region, bytes: seq<Byte>, q: Query, k: nat, bySnapshot: bool)
    requires k < |p.entries| && |bytes| == r.size
    ensures M.RemapEntries(p, r, bytes, q, p.entries[..k + 1], bySnapshot)
            == M.RemapEntries(p, r, bytes, q, p.entries[..k], bySnapshot)
              + M.RemapEntry(p, r, bytes, q, p.entries[k], bySnapshot)
  {
    assert p.entries[..k + 1][..k] == p.entries[..k];
  }

  lemma {:induction false} Assoc<T>(a: seq<T>, b: seq<T>, c: seq<T>)
    ensures (a + b) + c == a + (b + c)
  {
  }

  /** What is done and what is still to do make up the whole list and the last room, and the rest does not crash. */
  ghost predicate Onward(rs: seq<M.Region>, p: seq<M.Scan>, front: nat, idx: nat, room: Room, g: Answers, t: M.Target,
      q: Query, done: seq<M.Scan>, total: seq<M.Scan>, last: Room)
  {
    && front <= |rs| && idx <= |p|
    && done + WalkFrom(rs, p, front, idx, room, g, t, q) == total
    && WalkRoom(rs, p, front, idx, room, g) == last
    && WalkNeverCrashes(rs, p, front, idx, room, g)
  }

  lemma {:induction false} OnwardStart(rs: seq<M.Region>, p: seq<M.Scan>, room: Room, g: Answers, t: M.Target, q: Query)
    requires WalkNeverCrashes(rs, p, 0, 0, room, g)
    ensures Onward(rs, p, 0, 0, room, g, t, q, [], WalkFrom(rs, p, 0, 0, room, g, t, q), WalkRoom(rs, p, 0, 0, room, g))
  {
  }

  /** One turn of the two-pointer walk. */
  lemma {:induction false} OnwardTurn(rs: seq<M.Region>, p: seq<M.Scan>, front: nat, idx: nat, room: Room, g: Answers,
      t: M.Target, q: Query, done: seq<M.Scan>, total: seq<M.Scan>, last: Room)
    requires front < |rs| && idx < |p| && Onward(rs, p, front, idx, room, g, t, q, done, total, last)
    ensures if rs[front].End() <= p[idx].base then
              Onward(rs, p, front + 1, idx, room, g, t, q, done, total, last)
            else if p[idx].End() <= rs[front].base then
              Onward(rs, p, front, idx + 1, room, g, t, q, done, total, last)
            else
              var (room', v) := Reserve(room, rs[front].size, g(rs[front].base));
              var done' := done + PairFate(rs[front], p[idx], room, g, t, q);
              !v.Crashes? && Onward(rs, p, front + 1, idx, room', g, t, q, done', total, last)
  {
    var room' := Reserve(room, rs[front].size, g(rs[front].base)).0;
    Assoc(done, PairFate(rs[front], p[idx], room, g, t, q), WalkFrom(rs, p, front + 1, idx, room', g, t, q));
  }

  lemma {:induction false} OnwardEnd(rs: seq<M.Region>, p: seq<M.Scan>, front: nat, idx: nat, room: Room, g: Answers,
      t: M.Target, q: Query, done: seq<M.Scan>, total: seq<M.Scan>, last: Room)
    requires Onward(rs, p, front, idx, room, g, t, q, done, total, last) && (front == |rs| || idx == |p|)
    ensures done == total && room == last
  {
  }

  lemma {:induction false} WholeWalk(rs: seq<M.Region>, p: seq<M.Scan>, r: Room, g: Answers, t: M.Target, q: Query)
    requires L.AscendingRegions(rs)
    ensures WalkFrom(rs, p, 0, 0, r, g, t, q) == M.NextScan(rs, p, Refusing(t, WalkRefused(rs, p, 0, 0, r, g)), q)
  {
    WalkIsNextScan(WalkRefused(rs, p, 0, 0, r, g), rs, p, 0, 0, r, g, t, q);
    assert rs[0..] == rs && p[0..] == p;
  }

  /** What get_regions returns is ascending and has no empty region, whatever the alignment. */
  lemma {:induction false} RegionsAscend(space: W.AddressSpace, first: nat, second: nat, flags: W.Flags)
    ensures var rs := ToRegions(W.Regions(space, first, second, flags)); L.AscendingRegions(rs) && Sized(rs)
  {
    W.RegionsAscendInside(space, first, second, flags);
  }

  /** The objects of a first scan are in ascending order before they are sorted. */
  lemma {:induction false} FirstScanSorted(scans: seq<Scan>, file: MFile, rs: seq<M.Region>, t: M.Target, q: Query)
    requires Shows(scans, M.FirstScan(rs, t, q), file) && L.AscendingRegions(rs)
    ensures L.StrictlyAscending(scans, BaseOf) && L.Sorted(scans, BaseOf)
  {
    L.FirstScanAscends(rs, t, q);
    ShowsAscends(scans, M.FirstScan(rs, t, q), file);
  }

  lemma {:induction false} NextScanSorted(scans: seq<Scan>, file: MFile, rs: seq<M.Region>, p: seq<M.Scan>, t: M.Target,
      q: Query)
    requires Shows(scans, M.NextScan(rs, p, t, q), file) && L.AscendingRegions(rs)
    ensures L.StrictlyAscending(scans, BaseOf) && L.Sorted(scans, BaseOf)
  {
    L.NextScanAscends(rs, p, t, q);
    ShowsAscends(scans, M.NextScan(rs, p, t, q), file);
  }

  class SlowScanner {
    const file: MFile

    constructor (file: MFile)
      ensures this.file == file
    {
      this.file := file;
    }

    /** The memory_region for one answer of the query, clipped to the range. */
    method RegionAt(run: W.PageRun, address: nat, first: nat, second: nat) returns (region: MemoryRegion)
      requires first <= address < second
      ensures fresh(region) && region.mbi == W.Clip(run, address, first, second) && Unread(region, file)
    {
      var base, size := W.PageDown(address), run.pages * W.PAGE;
      if base < first {
        base := first;
      }
      if base + size > second {
        size := second - base;
      }
      region := new MemoryRegion(file, W.Interval(base, size, run.attributes));
    }

    method GetRegions(space: W.AddressSpace, first: nat, second: nat, flags: W.Flags)
      returns (regions: seq<MemoryRegion>)
      ensures Untouched(regions, file, W.Regions(space, first, second, flags))
      ensures forall i :: 0 <= i < |regions| ==> fresh(regions[i])
    {
      regions := [];
      var address, queries := first, 0;
      ghost var kept: seq<W.Interval> := [];
      while address < second
        invariant first <= address
        invariant kept + W.Keep(W.Visited(space, first, second, address, queries), flags)
                  == W.Regions(space, first, second, flags)
        invariant Untouched(regions, file, kept) && forall i :: 0 <= i < |regions| ==> fresh(regions[i])
        decreases second - address
      {
        if space(queries, address).None? {
          break;
        }
        WalkStep(kept, space, first, second, address, queries, flags);
        var region := RegionAt(space(queries, address).value, address, first, second);
        if W.Eligible(region.mbi.attributes, flags) {
          UntouchedAppend(regions, file, kept, region);
          regions := regions + [region];
          kept := kept + [region.mbi];
        }
        address := region.mbi.End();
        queries := queries + 1;
      }
    }

    /** The body of one pooled task. */
    method RunTask(s: Scan, t: M.Target, q: Query, copied: nat, g: Growth)
      requires Linked(file.View()) && Unread(s.region, file) && !s.region.Asked(g).1.Crashes?
      requires s.region.mbi.size > 0 && s.kind == q.kind && s.elemSize == M.Width(q) && !s.valid && s.results == []
      modifies s, s.region, file
      ensures Sound(s, file)
      ensures Fate(s) == if old(s.region.Asked(g)).1.Refused? then [] else M.ScanRegion(s.region.Region(), t, q)
      ensures Linked(file.View()) && HandedOutKept(file) && RoomOf(file.View()) == old(s.region.Asked(g)).0
      ensures s.region.spans != [] ==> s.region.spans[0].At() == old(file.offset)
    {
      var ok := s.region.ReadMemory(t, copied, g);
      if !ok {
        return;
      }
      if s.kind.UnknownValue? {
        s.SetValid();
        return;
      }
      var _ := s.SearchValue(q);
    }

    /** One region's scan is made and its task is run. */
    method Launch(region: MemoryRegion, t: M.Target, q: Query, copied: nat, g: Growth) returns (s: Scan)
      requires Linked(file.View()) && Unread(region, file) && region.mbi.size > 0 && !region.Asked(g).1.Crashes?
      modifies region, file
      ensures fresh(s) && s.elemSize == M.Width(q)
      ensures var fate := if old(region.Asked(g)).1.Refused? then [] else M.ScanRegion(region.Region(), t, q);
              FinishedOne(s, region, file, fate)
      ensures Linked(file.View()) && HandedOutKept(file) && RoomOf(file.View()) == old(region.Asked(g)).0
      ensures region.spans != [] ==> region.spans[0].At() == old(file.offset)
    {
      s := new Scan(region, q.kind, ElementSize(q.elem));
      RunTask(s, t, q, copied, g);
    }

    /** The next region's task is queued and run; the scans of the regions before it stay as they are. */
    method LaunchNext(futures: seq<Scan>, regions: seq<MemoryRegion>, region: MemoryRegion, t: M.Target, q: Query,
        copied: nat, g: Growth, ghost fates: seq<seq<M.Scan>>, ghost room: Room, ghost next: Room, ghost was: seq<Byte>,
        ghost bottom: nat)
      returns (s: Scan)
      requires Launched(futures, regions, file, fates, room, was, bottom) && Distinct(regions)
      requires |futures| < |regions| && regions[|futures|] == region && region.mbi.size > 0
      requires Turn(room, next, region.Region(), g, t, q, fates[|futures|])
      modifies region, file
      ensures fresh(s) && s.region == region && s.elemSize == M.Width(q)
      ensures Launched(futures + [s], regions, file, fates, next, was, bottom)
    {
      assert forall j :: |futures| < j < |regions| ==> regions[j] != region;
      s := Launch(region, t, q, copied, g);
      forall i | 0 <= i < |futures|
        ensures FinishedOne(futures[i], regions[i], file, fates[i]) && BlocksApart(futures[i], s)
      {
        assert old(FinishedOne(futures[i], regions[i], file, fates[i]));
        ViewKept(futures[i]);
        assert futures[i].region.spans != [] ==> futures[i].region.spans[0] in futures[i].region.spans;
      }
      FinishedAppend(futures, regions, file, fates, s);
      ApartAppend(futures, s);
      AboveAppend(futures, s, bottom);
      PrefixChain(was, old(file.disk), file.disk, bottom, old(file.offset));
    }

    /** The queue is emptied from the front, and the pool's tasks are run one after the other. */
    method RunTasks(regions: seq<MemoryRegion>, t: M.Target, q: Query, copied: nat -> nat, g: Answers,
        ghost rs: seq<M.Region>, ghost rooms: seq<Room>, ghost fates: seq<seq<M.Scan>>) returns (futures: seq<Scan>)
      requires Queued(regions, rs) && AllUnread(regions, 0, file) && Turns(rooms, rs, g, t, q, fates)
      requires Linked(file.View()) && RoomOf(file.View()) == rooms[0]
      modifies file, regions
      ensures |futures| == |regions|
      ensures Launched(futures, regions, file, fates, rooms[|rs|], old(file.disk), old(file.offset))
      ensures MadeFor(futures, regions, M.Width(q)) && forall s :: s in futures ==> fresh(s)
    {
      futures := [];
      ghost var was, bottom := file.disk, file.offset;
      for i := 0 to |regions|
        invariant |futures| == i && Launched(futures, regions, file, fates, rooms[i], was, bottom)
        invariant MadeFor(futures, regions, M.Width(q)) && forall s :: s in futures ==> fresh(s)
      {
        assert regions[i].Region() == rs[i] && Turn(rooms[i], rooms[i + 1], rs[i], g(rs[i].base), t, q, fates[i]);
        var base := regions[i].mbi.base;
        var s := LaunchNext(futures, regions, regions[i], t, q, copied(base), g(base), fates, rooms[i], rooms[i + 1],
                            was, bottom);
        futures := futures + [s];
      }
    }

    /** The scan of each region the walk found; a region that is refused a block counts as one that cannot be read. */
    method FirstScan(space: W.AddressSpace, first: nat, second: nat, flags: W.Flags, t: M.Target, q: Query,
        copied: nat -> nat, g: Answers) returns (results: seq<Scan>)
      requires Linked(file.View())
      requires NeverCrashes(RoomOf(file.View()), ToRegions(W.Regions(space, first, second, flags)), g)
      modifies file
      ensures Linked(file.View()) && HandedOutKept(file)
      ensures var rs, room := ToRegions(W.Regions(space, first, second, flags)), RoomOf(old(file.View()));
              && Shows(results, M.FirstScan(rs, Refusing(t, RefusedBases(room, rs, g)), q), file)
              && RoomOf(file.View()) == RoomAfter(room, rs, g, |rs|)
      ensures Apart(results) && Above(results, old(file.offset))
      ensures forall s :: s in results ==> s.elemSize == M.Width(q) && fresh(s) && fresh(s.region)
    {
      var regions := GetRegions(space, first, second, flags);
      ghost var rs, room := ToRegions(W.Regions(space, first, second, flags)), RoomOf(file.View());
      RegionsAscend(space, first, second, flags);
      assert forall i :: 0 <= i < |rs| ==> regions[i].Region() == rs[i];
      ghost var bottom := file.offset;
      FatesTakeTurns(room, rs, g, t, q);
      var futures := RunTasks(regions, t, q, copied, g, rs, Rooms(room, rs, g), Fates(room, rs, g, t, q));
      results := Collect(futures, regions, rs, t, q, g, room, bottom);
      FirstScanSorted(results, file, rs, Refusing(t, RefusedBases(room, rs, g)), q);
      var sorted: seq<Scan> :| L.Sorted(sorted, BaseOf) && multiset(sorted) == multiset(results);
      L.SortIsIdentity(results, sorted, BaseOf);
      results := sorted;
    }

    /** The valid scans, in the order of the futures. */
    method Collect(futures: seq<Scan>, ghost regions: seq<MemoryRegion>, ghost rs: seq<M.Region>, ghost t: M.Target,
        ghost q: Query, ghost g: Answers, ghost room: Room, ghost bottom: nat) returns (results: seq<Scan>)
      requires |futures| == |regions| == |rs| && L.AscendingRegions(rs)
      requires Finished(futures, regions, file, Fates(room, rs, g, t, q))
      requires Apart(futures) && Above(futures, bottom)
      ensures Shows(results, M.FirstScan(rs, Refusing(t, RefusedBases(room, rs, g)), q), file)
      ensures Apart(results) && Above(results, bottom)
      ensures forall s :: s in results ==> s in futures
    {
      results := [];
      ghost var t' := Refusing(t, RefusedBases(room, rs, g));
      for i := 0 to |futures|
        invariant Shows(results, M.FirstScan(rs[..i], t', q), file)
        invariant Apart(results) && Above(results, bottom)
        invariant ApartFrom(results, futures, i)
        invariant forall s :: s in results ==> s in futures
      {
        FirstScanStep(rs, i, t', q);
        FateIsScan(room, rs, g, t, q, i);
        assert FinishedOne(futures[i], regions[i], file, M.ScanRegion(rs[i], t', q));
        if futures[i].valid {
          KeepsAppend(results, M.FirstScan(rs[..i], t', q), file, futures[i], bottom);
          ApartFromAppend(results, futures, i);
          results := results + [futures[i]];
        }
      }
      assert rs[..|futures|] == rs;
    }

    // ---------- next_scan ----------

    method CompareStride(s: Scan, oldBytes: seq<Byte>, pOff: nat, newBytes: seq<Byte>, rOff: nat, q: Query, i: nat,
        ghost p: M.Scan, ghost r: M.Region, ghost n: nat)
      requires s.elemSize == M.Width(q) && |newBytes| == r.size && oldBytes == p.bytes
      requires i == Stride(n, s.elemSize) && i + s.elemSize <= M.OverlapBytes(r, p)
      requires rOff + r.base == pOff + p.base == M.OverlapStart(r, p)
      requires s.results == M.RemapRaw(p, r, newBytes, q, n) && (s.valid <==> s.results != [])
      modifies s
      ensures Stride(n + 1, s.elemSize) == i + s.elemSize
      ensures s.results == M.RemapRaw(p, r, newBytes, q, n + 1) && (s.valid <==> s.results != [])
    {
      var es := s.elemSize;
      RawStep(p, r, newBytes, q, n);
      var oldV, newV := Word(oldBytes, pOff + i, es), Word(newBytes, rOff + i, es);
      if Accepts(q, newV, oldV) {
        s.AddResult(M.Entry(newV, newV, Count(rOff + i, es)));
        s.SetValid();
      }
    }

    /** The previous scan kept every element: step through the overlap, old bytes against new bytes. */
    method CompareRaw(s: Scan, oldBytes: seq<Byte>, pOff: nat, newBytes: seq<Byte>, rOff: nat, q: Query, overlap: nat,
        ghost p: M.Scan, ghost r: M.Region) returns (ghost n: nat)
      requires s.elemSize == M.Width(q) && |newBytes| == r.size && oldBytes == p.bytes
      requires overlap == M.OverlapBytes(r, p) && rOff + r.base == pOff + p.base == M.OverlapStart(r, p)
      requires s.results == [] && !s.valid
      modifies s
      ensures Stride(n, s.elemSize) <= overlap < Stride(n, s.elemSize) + s.elemSize
      ensures s.results == M.RemapRaw(p, r, newBytes, q, n) && (s.valid <==> s.results != [])
    {
      var i := 0;
      n := 0;
      while i + s.elemSize <= overlap
        invariant i == Stride(n, s.elemSize) <= overlap
        invariant s.results == M.RemapRaw(p, r, newBytes, q, n) && (s.valid <==> s.results != [])
        decreases overlap - i
      {
        CompareStride(s, oldBytes, pOff, newBytes, rOff, q, i, p, r, n);
        i, n := i + s.elemSize, n + 1;
      }
    }

    /**
     * The previous scan holds results: each one inside the overlap is looked up in the new bytes. raw1 is
     * the caller's variable; it is overwritten for the four types that compare with the snapshot.
     */
    method CompareEntries(s: Scan, prev: Scan, q: Query, raw1: nat, start: nat, end: nat, ghost p: M.Scan)
      returns (raw: nat)
      requires s != prev && Held(s, file) && Held(prev, file) && prev.View() == p && s.elemSize == M.Width(q)
      requires start == M.OverlapStart(s.region.Region(), p) && end == M.OverlapEnd(s.region.Region(), p)
      requires s.results == [] && !s.valid && (!ComparesWithSnapshot(q.kind) ==> raw1 == q.raw1)
      modifies s
      ensures s.results
              == M.RemapEntries(p, s.region.Region(), s.region.RawBytes(), q, p.entries, ComparesWithSnapshot(q.kind))
      ensures s.valid <==> s.results != []
      ensures !ComparesWithSnapshot(q.kind) ==> raw == q.raw1
    {
      raw := raw1;
      var newBytes := s.region.RawBytes();
      ghost var r, bySnapshot := s.region.Region(), ComparesWithSnapshot(q.kind);
      for k := 0 to |prev.results|
        invariant s.results == M.RemapEntries(p, r, newBytes, q, p.entries[..k], bySnapshot)
        invariant s.valid <==> s.results != []
        invariant !bySnapshot ==> raw == q.raw1
      {
        EntriesStep(p, r, newBytes, q, k, bySnapshot);
        raw := CompareEntry(s, prev.region.mbi.base, prev.results[k], newBytes, q, raw, start, end, p);
      }
      assert p.entries[..|p.entries|] == p.entries;
    }

    method CompareEntry(s: Scan, prevBase: nat, e: M.Entry, newBytes: seq<Byte>, q: Query, raw1: nat, start: nat,
        end: nat, ghost p: M.Scan) returns (raw: nat)
      requires s.elemSize == M.Width(q) && |newBytes| == s.region.mbi.size && prevBase == p.base
      requires start == M.OverlapStart(s.region.Region(), p) && end == M.OverlapEnd(s.region.Region(), p)
      requires (!ComparesWithSnapshot(q.kind) ==> raw1 == q.raw1) && (s.valid <==> s.results != [])
      modifies s
      ensures s.results
              == old(s.results) + M.RemapEntry(p, s.region.Region(), newBytes, q, e, ComparesWithSnapshot(q.kind))
      ensures s.valid <==> s.results != []
      ensures !ComparesWithSnapshot(q.kind) ==> raw == q.raw1
    {
      raw := raw1;
      var es, base := s.elemSize, s.region.mbi.base;
      var address := prevBase + Stride(e.index, es);
      if address < start || address + es > end {
        assert !M.InWindow(p, s.region.Region(), e, es);
        return;
      }
      var index := Count(address - base, es);
      CountFits(address - base, es);
      assert M.InWindow(p, s.region.Region(), e, es) && index == M.NewIndex(p, s.region.Region(), e, es);
      var v := Word(newBytes, Stride(index, es), es);
      if ComparesWithSnapshot(q.kind) {
        raw := e.snapshot;
      }
      if Accepts(q, v, raw) {
        s.AddResult(M.Entry(v, v, index));
        s.SetValid();
      }
    }

    /** A new region is read; what the previous scans show does not change. */
    method ReadKeeping(region: MemoryRegion, prevs: seq<Scan>, t: M.Target, copied: nat, g: Growth,
        ghost p: seq<M.Scan>)
      returns (ok: bool)
      requires Linked(file.View()) && Unread(region, file) && region.mbi.size > 0 && !region.Asked(g).1.Crashes?
      requires Shows(prevs, p, file)
      modifies region, file
      ensures region.Valid() && Shows(prevs, p, file)
      ensures region.reserved <==> old(region.Asked(g)).1.Granted?
      ensures ok <==> region.reserved && t.readable(region.mbi.base)
      ensures ok ==> region.RawBytes() == M.ReadRegion(t, region.Region())
      ensures Linked(file.View()) && HandedOutKept(file) && RoomOf(file.View()) == old(region.Asked(g)).0
      ensures region.spans != [] ==> region.spans[0].At() == old(file.offset)
    {
      ok := region.ReadMemory(t, copied, g);
      forall i | 0 <= i < |prevs|
        ensures Held(prevs[i], file) && prevs[i].View() == p[i]
      {
        assert old(Held(prevs[i], file) && prevs[i].View() == p[i]);
        ViewKept(prevs[i]);
      }
    }

    /** One region against the previous scan it overlaps; all previous scans show what they showed. */
    method Compare(region: MemoryRegion, prevs: seq<Scan>, idx: nat, t: M.Target, q: Query, raw1: nat, copied: nat,
        g: Growth, ghost p: seq<M.Scan>) returns (s: Scan, raw: nat)
      requires Linked(file.View()) && Unread(region, file) && region.mbi.size > 0 && !region.Asked(g).1.Crashes?
      requires Shows(prevs, p, file) && idx < |prevs| && (!ComparesWithSnapshot(q.kind) ==> raw1 == q.raw1)
      modifies region, file
      ensures fresh(s) && s.region == region && s.elemSize == M.Width(q) && Sound(s, file) && Shows(prevs, p, file)
      ensures Fate(s) == if old(region.Asked(g)).1.Refused? then [] else M.ScanPair(region.Region(), p[idx], t, q)
      ensures Linked(file.View()) && HandedOutKept(file) && RoomOf(file.View()) == old(region.Asked(g)).0
      ensures region.spans != [] ==> region.spans[0].At() == old(file.offset)
      ensures !ComparesWithSnapshot(q.kind) ==> raw == q.raw1
    {
      s := new Scan(region, q.kind, ElementSize(q.elem));
      raw := raw1;
      var ok := ReadKeeping(region, prevs, t, copied, g, p);
      if ok {
        raw := Judge(s, prevs, idx, q, raw, p);
      }
    }

    /** A scan of a region that was read is compared; the previous scans are others and show what they showed. */
    method Judge(s: Scan, prevs: seq<Scan>, idx: nat, q: Query, raw1: nat, ghost p: seq<M.Scan>) returns (raw: nat)
      requires Held(s, file) && Shows(prevs, p, file) && idx < |prevs| && s !in prevs
      requires s.elemSize == M.Width(q) && s.results == [] && !s.valid
      requires !ComparesWithSnapshot(q.kind) ==> raw1 == q.raw1
      modifies s
      ensures Shows(prevs, p, file)
      ensures s.results == M.Remap(p[idx], s.region.Region(), s.region.RawBytes(), q) && (s.valid <==> s.results != [])
      ensures !ComparesWithSnapshot(q.kind) ==> raw == q.raw1
    {
      raw := CompareBuffers(s, prevs[idx], q, raw1, p[idx]);
    }

    /** The overlap of the two regions, element by element. */
    method CompareBuffers(s: Scan, prev: Scan, q: Query, raw1: nat, ghost p: M.Scan) returns (raw: nat)
      requires s != prev && Held(s, file) && Held(prev, file) && prev.View() == p
      requires s.elemSize == M.Width(q) && s.results == [] && !s.valid
      requires !ComparesWithSnapshot(q.kind) ==> raw1 == q.raw1
      modifies s
      ensures s.results == M.Remap(p, s.region.Region(), s.region.RawBytes(), q) && (s.valid <==> s.results != [])
      ensures !ComparesWithSnapshot(q.kind) ==> raw == q.raw1
    {
      raw := raw1;
      var region := s.region;
      var rStart, pStart := region.mbi.base, prev.region.mbi.base;
      var rEnd, pEnd := rStart + region.mbi.size, pStart + prev.region.mbi.size;
      var start, end := if rStart > pStart then rStart else pStart, if rEnd < pEnd then rEnd else pEnd;
      var overlap := if end > start then end - start else 0;
      if prev.kind.UnknownValue? {
        ghost var n := CompareRaw(s, prev.region.RawBytes(), start - pStart, region.RawBytes(), start - rStart, q,
                                  overlap, p, region.Region());
        CountIsLast(n, overlap, s.elemSize);
      } else {
        raw := CompareEntries(s, prev, q, raw, start, end, p);
      }
    }

    /** A region is consumed by the previous scan it overlaps; a valid scan joins the results. */
    method Consume(region: MemoryRegion, prevs: seq<Scan>, idx: nat, results: seq<Scan>, t: M.Target, q: Query,
        raw1: nat, copied: nat, g: Answers, ghost p: seq<M.Scan>, ghost done: seq<M.Scan>, ghost room: Room,
        ghost bottom: nat)
      returns (more: seq<Scan>, raw: nat, ghost made: Scan)
      requires Linked(file.View()) && RoomOf(file.View()) == room && Unread(region, file) && region.mbi.size > 0
      requires !Reserve(room, region.mbi.size, g(region.mbi.base)).1.Crashes?
      requires Shows(prevs, p, file) && idx < |prevs| && Shows(results, done, file)
      requires Apart(results) && Above(results, bottom) && bottom <= file.offset
      requires !ComparesWithSnapshot(q.kind) ==> raw1 == q.raw1
      modifies region, file
      ensures Linked(file.View()) && HandedOutKept(file)
      ensures RoomOf(file.View()) == Reserve(room, region.mbi.size, g(region.mbi.base)).0
      ensures Shows(prevs, p, file) && Shows(more, done + PairFate(region.Region(), p[idx], room, g, t, q), file)
      ensures Apart(more) && Above(more, bottom)
      ensures fresh(made) && made.region == region && made.elemSize == M.Width(q)
      ensures more == results || more == results + [made]
      ensures !ComparesWithSnapshot(q.kind) ==> raw == q.raw1
    {
      var s: Scan;
      s, raw := Compare(region, prevs, idx, t, q, raw1, copied, g(region.mbi.base), p);
      forall i | 0 <= i < |results|
        ensures Held(results[i], file) && results[i].View() == done[i] && BlocksApart(results[i], s)
      {
        assert old(Held(results[i], file) && results[i].View() == done[i]);
        ViewKept(results[i]);
        assert results[i].region.spans[0] in results[i].region.spans;
      }
      assert forall i :: 0 <= i < |results| ==> results[i].region.spans == old(results[i].region.spans);
      assert Apart(results) && Above(results, bottom);
      more, made := results, s;
      if s.valid {
        KeepsAppend(results, done, file, s, bottom);
        more := more + [s];
      } else {
        assert done + [] == done;
      }
    }

    /** The front of the queue is popped and consumed; the regions behind it stay unread. */
    method ConsumeFront(regions: seq<MemoryRegion>, front: nat, region: MemoryRegion, prevs: seq<Scan>, idx: nat,
        results: seq<Scan>, t: M.Target, q: Query, raw1: nat, copied: nat, g: Answers, ghost p: seq<M.Scan>,
        ghost done: seq<M.Scan>, ghost room: Room, ghost was: seq<Byte>, ghost bottom: nat)
      returns (more: seq<Scan>, raw: nat)
      requires front < |regions| && regions[front] == region && Distinct(regions) && region.mbi.size > 0
      requires idx < |prevs|
      requires Walking(prevs, p, results, done, regions, front, file, room, was, bottom)
      requires !Reserve(room, region.mbi.size, g(region.mbi.base)).1.Crashes? && MadeFor(results, regions, M.Width(q))
      requires !ComparesWithSnapshot(q.kind) ==> raw1 == q.raw1
      modifies region, file
      ensures Walking(prevs, p, more, done + PairFate(region.Region(), p[idx], room, g, t, q), regions, front + 1, file,
                      Reserve(room, region.mbi.size, g(region.mbi.base)).0, was, bottom)
      ensures MadeFor(more, regions, M.Width(q)) && forall s :: s in more ==> s in results || fresh(s)
      ensures !ComparesWithSnapshot(q.kind) ==> raw == q.raw1
    {
      assert forall j :: front < j < |regions| ==> regions[j] != region;
      ghost var made: Scan;
      more, raw, made := Consume(region, prevs, idx, results, t, q, raw1, copied, g, p, done, room, bottom);
      PrefixChain(was, old(file.disk), file.disk, bottom, old(file.offset));
    }

    /** next_scan: the two-pointer walk; the returned list replaces the caller's. */
    method NextScan(space: W.AddressSpace, first: nat, second: nat, flags: W.Flags, t: M.Target, q: Query,
        prevs: seq<Scan>, copied: nat -> nat, g: Answers, ghost p: seq<M.Scan>) returns (results: seq<Scan>)
      requires Linked(file.View()) && Shows(prevs, p, file)
      requires WalkNeverCrashes(ToRegions(W.Regions(space, first, second, flags)), p, 0, 0, RoomOf(file.View()), g)
      modifies file
      ensures Linked(file.View()) && HandedOutKept(file)
      ensures var rs, room := ToRegions(W.Regions(space, first, second, flags)), RoomOf(old(file.View()));
              && Shows(results, M.NextScan(rs, p, Refusing(t, WalkRefused(rs, p, 0, 0, room, g)), q), file)
              && RoomOf(file.View()) == WalkRoom(rs, p, 0, 0, room, g)
      ensures Apart(results) && Above(results, old(file.offset))
      ensures forall s :: s in results ==> s.elemSize == M.Width(q) && fresh(s) && fresh(s.region)
    {
      var regions := GetRegions(space, first, second, flags);
      ghost var rs, room := ToRegions(W.Regions(space, first, second, flags)), RoomOf(file.View());
      RegionsAscend(space, first, second, flags);
      assert forall i :: 0 <= i < |rs| ==> regions[i].Region() == rs[i];
      forall i | 0 <= i < |prevs|
        ensures Held(prevs[i], file) && prevs[i].View() == p[i]
      {
        assert old(Held(prevs[i], file) && prevs[i].View() == p[i]);
      }
      results := WalkQueue(regions, t, q, prevs, copied, g, rs, p, room);
      NextScanSorted(results, file, rs, p, Refusing(t, WalkRefused(rs, p, 0, 0, room, g)), q);
      var sorted: seq<Scan> :| L.Sorted(sorted, BaseOf) && multiset(sorted) == multiset(results);
      L.SortIsIdentity(results, sorted, BaseOf);
      results := sorted;
    }

    /** The walk from the front of the queue and the first previous scan. */
    method WalkQueue(regions: seq<MemoryRegion>, t: M.Target, q: Query, prevs: seq<Scan>, copied: nat -> nat,
        g: Answers, ghost rs: seq<M.Region>, ghost p: seq<M.Scan>, ghost room: Room) returns (results: seq<Scan>)
      requires Linked(file.View()) && RoomOf(file.View()) == room && Shows(prevs, p, file)
      requires |rs| == |regions| && Distinct(regions) && AllUnread(regions, 0, file) && Sized(rs)
      requires L.AscendingRegions(rs)
      requires forall i :: 0 <= i < |rs| ==> regions[i].Region() == rs[i]
      requires WalkNeverCrashes(rs, p, 0, 0, room, g)
      modifies file, regions
      ensures Linked(file.View()) && HandedOutKept(file) && RoomOf(file.View()) == WalkRoom(rs, p, 0, 0, room, g)
      ensures Shows(results, M.NextScan(rs, p, Refusing(t, WalkRefused(rs, p, 0, 0, room, g)), q), file)
      ensures Apart(results) && Above(results, old(file.offset))
      ensures MadeFor(results, regions, M.Width(q)) && forall s :: s in results ==> fresh(s)
    {
      OnwardStart(rs, p, room, g, t, q);
      WholeWalk(rs, p, room, g, t, q);
      results := Walk(regions, t, q, prevs, copied, g, rs, p, room, WalkFrom(rs, p, 0, 0, room, g, t, q),
                      WalkRoom(rs, p, 0, 0, room, g));
    }

    method Walk(regions: seq<MemoryRegion>, t: M.Target, q: Query, prevs: seq<Scan>, copied: nat -> nat, g: Answers,
        ghost rs: seq<M.Region>, ghost p: seq<M.Scan>, ghost start: Room, ghost total: seq<M.Scan>, ghost last: Room)
      returns (results: seq<Scan>)
      requires Linked(file.View()) && RoomOf(file.View()) == start && Shows(prevs, p, file)
      requires |rs| == |regions| && Distinct(regions) && AllUnread(regions, 0, file) && Sized(rs)
      requires forall i :: 0 <= i < |rs| ==> regions[i].Region() == rs[i]
      requires Onward(rs, p, 0, 0, start, g, t, q, [], total, last)
      modifies file, regions
      ensures Linked(file.View()) && HandedOutKept(file) && RoomOf(file.View()) == last
      ensures Shows(results, total, file)
      ensures Apart(results) && Above(results, old(file.offset))
      ensures MadeFor(results, regions, M.Width(q)) && forall s :: s in results ==> fresh(s)
    {
      results := [];
      var front, idx, raw1 := 0, 0, q.raw1;
      ghost var done: seq<M.Scan>, room, was, bottom := [], start, file.disk, file.offset;
      while idx < |prevs| && front < |regions|
        invariant idx <= |prevs| && front <= |regions|
        invariant Walking(prevs, p, results, done, regions, front, file, room, was, bottom)
        invariant Onward(rs, p, front, idx, room, g, t, q, done, total, last)
        invariant MadeFor(results, regions, M.Width(q)) && forall s :: s in results ==> fresh(s)
        invariant !ComparesWithSnapshot(q.kind) ==> raw1 == q.raw1
        decreases |regions| + |prevs| - front - idx
      {
        var region, prev := regions[front], prevs[idx];
        assert region.Region() == rs[front];
        ShowsExtent(prevs, p, file, idx);
        OnwardTurn(rs, p, front, idx, room, g, t, q, done, total, last);
        var rStart, pStart := region.mbi.base, prev.region.mbi.base;
        var rEnd, pEnd := rStart + region.mbi.size, pStart + prev.region.mbi.size;
        if rEnd <= pStart {
          WalkingOn(prevs, p, results, done, regions, front, file, room, was, bottom);
          front := front + 1;
          continue;
        }
        if pEnd <= rStart {
          idx := idx + 1;
          continue;
        }
        results, raw1 := ConsumeFront(regions, front, region, prevs, idx, results, t, q, raw1, copied(rStart), g, p,
                                      done, room, was, bottom);
        done := done + PairFate(rs[front], p[idx], room, g, t, q);
        room := Reserve(room, rs[front].size, g(rs[front].base)).0;
        front := front + 1;
      }
      OnwardEnd(rs, p, front, idx, room, g, t, q, done, total, last);
    }
  }

  /** update() on one scan of a list: the others show what they showed, although all share one file. */
  method UpdateOne(scans: seq<Scan>, k: nat, s: Scan, file: MFile, t: M.Target, copied: nat, g: Growth,
      ghost p: seq<M.Scan>)
    requires Shows(scans, p, file) && Apart(scans) && k < |scans| && scans[k] == s && M.InBounds(p[k], s.elemSize)
    modifies s`results, s.region, file
    ensures Held(s, file) && |s.region.RawBytes()| == |p[k].bytes| == s.region.mbi.size
    ensures s.region.RawBytes() == if p[k].entries == [] then p[k].bytes
            else M.AfterRead(t, s.region.Region(), p[k].bytes, copied)
    ensures Shows(scans, p[k := L.Update(p[k], s.elemSize, s.region.RawBytes())], file) && Apart(scans)
    ensures file.View() == old(file.View()).(disk := file.disk)
    ensures SameOutside(old(file.disk), file.disk, s.region.spans[0])
    ensures forall i :: 0 <= i < |scans| ==> scans[i].region.spans == old(scans[i].region.spans)
  {
    s.Update(t, copied, g);
    forall i | 0 <= i < |scans| && i != k
      ensures Held(scans[i], file) && scans[i].View() == p[i]
    {
      assert old(Held(scans[i], file) && scans[i].View() == p[i] && BlocksApart(scans[i], s));
      assert ClearOf(scans[i].region.spans[0], s.region.spans[0]);
      OthersKept(scans[i]);
    }
    ShowsChanged(scans, k, file, p);
    forall i, j | 0 <= i < j < |scans|
      ensures BlocksApart(scans[i], scans[j])
    {
      assert old(BlocksApart(scans[i], scans[j]));
    }
  }
}
