/** Scans as values, and what first_scan and next_scan compute from them. */
module ScanModel {
  import opened Wrappers
  import opened Bytes
  import opened Comparator

  datatype Region = Region(base: nat, size: nat) {
    function End(): nat { base + size }
  }

  datatype Entry = Entry(value: nat, snapshot: nat, index: nat)

  /** A valid scan: a region's base, the bytes last read from it, and the elements that were kept. */
  datatype Scan = Scan(base: nat, bytes: seq<Byte>, kind: ScanType, entries: seq<Entry>) {
    function End(): nat { base + |bytes| }
  }

  /** The target while one scan runs: the byte found at each address, and the region bases that can be read. */
  datatype Target = Target(memory: nat -> Byte, readable: nat -> bool)

  function Width(q: Query): ElemSize {
    ElementSize(q.elem)
  }

  function ReadRegion(t: Target, r: Region): (bytes: seq<Byte>)
    ensures |bytes| == r.size
  {
    seq<Byte>(r.size, i requires 0 <= i < r.size => t.memory(r.base + i))
  }

  /**
   * A reserved buffer after ReadProcessMemory: all of it is copied, or the first `copied` bytes when the
   * read fails.
   */
  function AfterRead(t: Target, r: Region, was: seq<Byte>, copied: nat): (b: seq<Byte>)
    requires |was| == r.size
    ensures |b| == r.size
    ensures t.readable(r.base) ==> b == ReadRegion(t, r)
  {
    var n := if t.readable(r.base) || copied > r.size then r.size else copied;
    ReadRegion(t, r)[..n] + was[n..]
  }

  // ---------- first_scan ----------

  /** The results of search_value over the first n elements. */
  function Search(bytes: seq<Byte>, q: Query, n: nat): seq<Entry>
    requires Stride(n, Width(q)) <= |bytes|
  {
    if n == 0 then
      []
    else
      var v := Word(bytes, Stride(n - 1, Width(q)), Width(q));
      Search(bytes, q, n - 1) + if Accepts(q, v, q.raw1) then [Entry(v, v, n - 1)] else []
  }

  /** What a task makes of the bytes it read: all of them for unknown_value, otherwise the elements found. */
  function ScanBytes(base: nat, bytes: seq<Byte>, q: Query): seq<Scan> {
    if q.kind.UnknownValue? then
      [Scan(base, bytes, q.kind, [])]
    else
      CountFits(|bytes|, Width(q));
      var entries := Search(bytes, q, Count(|bytes|, Width(q)));
      if entries == [] then [] else [Scan(base, bytes, q.kind, entries)]
  }

  /** The scan made for one region, or nothing when it is not valid. */
  function ScanRegion(r: Region, t: Target, q: Query): seq<Scan> {
    if t.readable(r.base) then ScanBytes(r.base, ReadRegion(t, r), q) else []
  }

  function FirstScan(regions: seq<Region>, t: Target, q: Query): seq<Scan> {
    if regions == [] then
      []
    else
      FirstScan(regions[..|regions| - 1], t, q) + ScanRegion(regions[|regions| - 1], t, q)
  }

  // ---------- next_scan: one region against one previous scan ----------

  function OverlapStart(r: Region, p: Scan): nat {
    if r.base > p.base then r.base else p.base
  }

  function OverlapEnd(r: Region, p: Scan): nat {
    if r.End() < p.End() then r.End() else p.End()
  }

  function OverlapBytes(r: Region, p: Scan): nat {
    if OverlapEnd(r, p) > OverlapStart(r, p) then OverlapEnd(r, p) - OverlapStart(r, p) else 0
  }

  /** One stride over the overlap: the old bytes against the new bytes i strides after its start. */
  function RemapStride(p: Scan, r: Region, bytes: seq<Byte>, q: Query, i: nat): seq<Entry>
    requires |bytes| == r.size
    requires Stride(i, Width(q)) + Width(q) <= OverlapBytes(r, p)
  {
    var off := Stride(i, Width(q));
    var old_v := Word(p.bytes, OverlapStart(r, p) - p.base + off, Width(q));
    var new_v := Word(bytes, OverlapStart(r, p) - r.base + off, Width(q));
    if Accepts(q, new_v, old_v) then [Entry(new_v, new_v, Count(OverlapStart(r, p) - r.base + off, Width(q)))] else []
  }

  /** The first n strides. */
  function RemapRaw(p: Scan, r: Region, bytes: seq<Byte>, q: Query, n: nat): seq<Entry>
    requires |bytes| == r.size
    requires Stride(n, Width(q)) <= OverlapBytes(r, p)
  {
    if n == 0 then [] else RemapRaw(p, r, bytes, q, n - 1) + RemapStride(p, r, bytes, q, n - 1)
  }

  /** The whole element lies in both the region and the previous scan. */
  predicate InWindow(p: Scan, r: Region, e: Entry, es: ElemSize) {
    OverlapStart(r, p) <= p.base + Stride(e.index, es) && p.base + Stride(e.index, es) + es <= OverlapEnd(r, p)
  }

  function NewIndex(p: Scan, r: Region, e: Entry, es: ElemSize): (i: nat)
    requires InWindow(p, r, e, es)
    ensures Stride(i, es) + es <= r.size
  {
    CountFits(p.base + Stride(e.index, es) - r.base, es);
    Count(p.base + Stride(e.index, es) - r.base, es)
  }

  /** What becomes of one previous entry; `bySnapshot` chooses its own snapshot as the reference value. */
  function RemapEntry(p: Scan, r: Region, bytes: seq<Byte>, q: Query, e: Entry, bySnapshot: bool): seq<Entry>
    requires |bytes| == r.size
  {
    if !InWindow(p, r, e, Width(q)) then
      []
    else
      var i := NewIndex(p, r, e, Width(q));
      var v := Word(bytes, Stride(i, Width(q)), Width(q));
      if Accepts(q, v, if bySnapshot then e.snapshot else q.raw1) then [Entry(v, v, i)] else []
  }

  function RemapEntries(p: Scan, r: Region, bytes: seq<Byte>, q: Query, es: seq<Entry>, bySnapshot: bool): seq<Entry>
    requires |bytes| == r.size
  {
    if es == [] then
      []
    else
      RemapEntries(p, r, bytes, q, es[..|es| - 1], bySnapshot) + RemapEntry(p, r, bytes, q, es[|es| - 1], bySnapshot)
  }

  function Remap(p: Scan, r: Region, bytes: seq<Byte>, q: Query): seq<Entry>
    requires |bytes| == r.size
  {
    if p.kind.UnknownValue? then
      CountFits(OverlapBytes(r, p), Width(q));
      RemapRaw(p, r, bytes, q, Count(OverlapBytes(r, p), Width(q)))
    else
      RemapEntries(p, r, bytes, q, p.entries, ComparesWithSnapshot(q.kind))
  }

  /** The scan made for a region paired with a previous scan, or nothing when it is not valid. */
  function ScanPair(r: Region, p: Scan, t: Target, q: Query): seq<Scan> {
    var entries := Remap(p, r, ReadRegion(t, r), q);
    if !t.readable(r.base) || entries == [] then [] else [Scan(r.base, ReadRegion(t, r), q.kind, entries)]
  }

  // ---------- next_scan: the two-pointer walk ----------

  function NextScan(regions: seq<Region>, prevs: seq<Scan>, t: Target, q: Query): seq<Scan>
    decreases |regions| + |prevs|
  {
    if regions == [] || prevs == [] then
      []
    else if regions[0].End() <= prevs[0].base then
      NextScan(regions[1..], prevs, t, q)
    else if prevs[0].End() <= regions[0].base then
      NextScan(regions, prevs[1..], t, q)
    else
      ScanPair(regions[0], prevs[0], t, q) + NextScan(regions[1..], prevs, t, q)
  }

  // ---------- what a list of scans stands for ----------

  /** Every element of a buffer as an explicit entry, the first n of them. */
  function EveryElement(bytes: seq<Byte>, es: ElemSize, n: nat): seq<Entry>
    requires Stride(n, es) <= |bytes|
  {
    if n == 0 then
      []
    else
      var v := Word(bytes, Stride(n - 1, es), es);
      EveryElement(bytes, es, n - 1) + [Entry(v, v, n - 1)]
  }

  /** The elements a scan stands for: all of them after an unknown-value scan, otherwise its entries. */
  function Kept(s: Scan, es: ElemSize): seq<Entry> {
    if s.kind.UnknownValue? then
      CountFits(|s.bytes|, es);
      EveryElement(s.bytes, es, Count(|s.bytes|, es))
    else
      s.entries
  }

  /** The scan holds a candidate at address a with snapshot v. */
  ghost predicate Holds(s: Scan, es: ElemSize, a: nat, v: nat) {
    exists e :: e in Kept(s, es) && s.base + Stride(e.index, es) == a && e.snapshot == v
  }

  ghost predicate Candidate(scans: seq<Scan>, es: ElemSize, a: nat, v: nat) {
    exists s :: s in scans && Holds(s, es, a, v)
  }

  // ---------- invariants ----------

  /** The entry is the element at its index: both its values are the word stored there. */
  predicate IsElement(bytes: seq<Byte>, es: ElemSize, e: Entry) {
    Stride(e.index, es) + es <= |bytes| && e.value == e.snapshot == Word(bytes, Stride(e.index, es), es)
  }

  predicate Indexed(entries: seq<Entry>) {
    forall i, j :: 0 <= i < j < |entries| ==> entries[i].index < entries[j].index
  }

  /** Every entry is an element of the buffer. */
  predicate InBounds(s: Scan, es: ElemSize) {
    forall e :: e in s.entries ==> Stride(e.index, es) + es <= |s.bytes|
  }

  /** What next_scan needs of a previous scan; it still holds after updates. */
  predicate Usable(s: Scan, es: ElemSize) {
    && s.bytes != []
    && Aligned(s.base, es)
    && (s.kind.UnknownValue? ==> s.entries == [])
    && Indexed(s.entries)
    && InBounds(s, es)
  }

  /** What first_scan and next_scan produce: live and snapshot values are the region's own bytes. */
  predicate Fresh(s: Scan, es: ElemSize) {
    && Usable(s, es)
    && (s.entries == [] <==> s.kind.UnknownValue?)
    && forall e :: e in s.entries ==> IsElement(s.bytes, es, e)
  }

  /** Regions in increasing order, non-empty, disjoint, starting on element boundaries. */
  predicate Layout(regions: seq<Region>, es: ElemSize) {
    && (forall r :: r in regions ==> r.size > 0 && Aligned(r.base, es))
    && forall i, j :: 0 <= i < j < |regions| ==> regions[i].End() <= regions[j].base
  }

  predicate Ordered(scans: seq<Scan>) {
    forall i, j :: 0 <= i < j < |scans| ==> scans[i].End() <= scans[j].base
  }

  predicate AllUsable(scans: seq<Scan>, es: ElemSize) {
    Ordered(scans) && forall s :: s in scans ==> Usable(s, es)
  }

  predicate AllFresh(scans: seq<Scan>, es: ElemSize) {
    Ordered(scans) && forall s :: s in scans ==> Fresh(s, es)
  }
}
