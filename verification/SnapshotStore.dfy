/** The snapshot file: a bump allocator over a mapped file that is remapped and more than doubled when full. */
module SnapshotStore {
  import opened Wrappers
  import opened Bytes

  const PAGE_SIZE: nat := 4096

  /** A mapping of the file: `length` bytes from file position `start`; `id` tells mappings apart. */
  datatype Window = Window(id: nat, start: nat, length: nat) {
    function End(): nat { start + length }
  }

  /** A block handed out by write: `length` bytes, `rel` bytes into a mapping. */
  datatype Span = Span(window: Window, rel: nat, length: nat) {
    function At(): nat { window.start + rel }

    function End(): nat { At() + length }
  }

  /** m_file's fields, with the bytes of the file on disk and the number of mappings made so far. */
  datatype File = File(size: nat, offset: nat, mapOffset: nat, current: Option<Window>, disk: seq<Byte>, maps: nat)

  const EMPTY: File := File(0, 0, 0, None, [], 0)

  /** What the operating system answers when the file must grow: extending it, then mapping it. */
  datatype Growth = Growth(extended: bool, mapped: bool)

  /** Undefined stands for dereferencing a missing map or running past the end of a mapping. */
  datatype Outcome = Written(span: Span) | Failed | Undefined

  function PageUp(n: nat): nat {
    (n + PAGE_SIZE - 1) / PAGE_SIZE * PAGE_SIZE
  }

  function Zeros(n: nat): (z: seq<Byte>)
    ensures |z| == n && forall i :: 0 <= i < n ==> z[i] == 0
  {
    seq<Byte>(n, i => 0)
  }

  function Overlay(disk: seq<Byte>, at: nat, data: seq<Byte>): (d: seq<Byte>)
    requires at + |data| <= |disk|
    ensures |d| == |disk|
  {
    disk[..at] + data + disk[at + |data|..]
  }

  predicate Sane(f: File) {
    && f.offset <= f.size == |f.disk|
    && (f.current.Some? ==> f.current.value.End() <= f.size)
  }

  /** expand_size */
  function Expand(f: File, n: nat, extended: bool): (e: File)
    requires Sane(f)
    ensures Sane(e) && f.size <= e.size
  {
    if extended then
      var size := PageUp((f.size + n) * 2);
      f.(size := size, disk := f.disk + Zeros(size - f.size))
    else
      f
  }

  /** do_map(_offset), when it succeeds. */
  function Map(f: File): (m: File)
    requires Sane(f)
    ensures Sane(m)
  {
    f.(current := Some(Window(f.maps, f.offset, f.size - f.offset)), mapOffset := 0, maps := f.maps + 1)
  }

  /** The copy into the current map. */
  function Copy(f: File, data: seq<Byte>): (File, Outcome)
    requires Sane(f)
  {
    if f.current.None? || f.mapOffset + |data| > f.current.value.length then
      (f, Undefined)
    else
      var w := f.current.value;
      (f.(disk := Overlay(f.disk, w.start + f.mapOffset, data), mapOffset := f.mapOffset + |data|,
          offset := f.offset + |data|),
       Written(Span(w, f.mapOffset, |data|)))
  }

  function WriteBlock(f: File, data: seq<Byte>, g: Growth): (File, Outcome)
    requires Sane(f)
  {
    if f.offset + |data| > f.size then
      var e := Expand(f, |data|, g.extended);
      if g.mapped then Copy(Map(e), data) else (e, Failed)
    else
      Copy(f, data)
  }

  /** The write position in the current map, if there is one, is the file's, and the map lies in the file. */
  predicate Linked(f: File) {
    Sane(f) && (f.current.Some? ==> f.current.value.start + f.mapOffset == f.offset <= f.current.value.End())
  }

  /** Besides, the current map ends with the file, and only an empty file has none. */
  predicate Coherent(f: File) {
    && Linked(f)
    && (f.current.None? ==> f.size == 0)
    && (f.current.Some? ==> f.current.value.End() == f.size)
  }

  lemma {:induction false} OverlayAt(disk: seq<Byte>, at: nat, data: seq<Byte>)
    requires at + |data| <= |disk|
    ensures Overlay(disk, at, data)[at..at + |data|] == data
    ensures Overlay(disk, at, data)[..at] == disk[..at]
  {
  }

  lemma {:induction false} OverlayOutside(disk: seq<Byte>, at: nat, data: seq<Byte>, lo: nat, hi: nat)
    requires at + |data| <= |disk| && lo <= hi <= |disk| && (hi <= at || at + |data| <= lo)
    ensures Overlay(disk, at, data)[lo..hi] == disk[lo..hi]
  {
  }

  /** The block lies in the map that is current when it is handed out, at the file's old write position. */
  predicate HandedOut(f: File, f': File, data: seq<Byte>, s: Span) {
    && f'.current == Some(s.window) && s.length == |data| && s.rel + |data| <= s.window.length
    && s.At() == f.offset && f'.offset == f.offset + |data| <= |f'.disk|
    && f'.disk[f.offset..f'.offset] == data
  }

  lemma {:induction false} PageUpBounds(x: nat)
    ensures x <= PageUp(x) < x + PAGE_SIZE && PageUp(x) % PAGE_SIZE == 0
  {
  }

  /** Copying is defined exactly when there is a current map and the data fits what is left of it. */
  lemma {:induction false} CopyExact(f: File, data: seq<Byte>)
    requires Linked(f)
    ensures var (f', out) := Copy(f, data);
            && (out.Written? <==> f.current.Some? && f.offset + |data| <= f.current.value.End())
            && !out.Failed?
            && (out.Written? ==> HandedOut(f, f', data, out.span))
            && (out.Undefined? ==> f' == f)
            && f'.size == f.size && f'.maps == f.maps && f'.disk[..f.offset] == f.disk[..f.offset]
            && Linked(f') && (Coherent(f) ==> Coherent(f'))
  {
    if f.current.Some? && f.offset + |data| <= f.current.value.End() {
      OverlayAt(f.disk, f.offset, data);
    }
  }

  /** Extending at least doubles the file, makes room, and keeps the bytes before the write position. */
  lemma {:induction false} ExpandExact(f: File, n: nat)
    requires Sane(f)
    ensures var e := Expand(f, n, true);
            && 2 * (f.size + n) <= e.size < 2 * (f.size + n) + 4096 && e.size % 4096 == 0
            && e.offset == f.offset && e.current == f.current && e.maps == f.maps
            && e.disk[..f.offset] == f.disk[..f.offset]
  {
    PageUpBounds((f.size + n) * 2);
  }

  lemma {:induction false} MapCoherent(f: File)
    requires Sane(f)
    ensures Coherent(Map(f)) && Map(f).disk == f.disk && Map(f).offset == f.offset
  {
  }

  lemma {:induction false} OverlaidZeros(disk: seq<Byte>, size: nat, at: nat, data: seq<Byte>)
    requires at <= |disk| < at + |data| <= size
    ensures var d := Overlay(disk + Zeros(size - |disk|), at, data);
            && (forall k :: 0 <= k < |data| ==> d[at + k] == data[k])
            && forall k :: at + |data| <= k < size ==> d[k] == 0
  {
  }

  /**
   * A write that grows the file maps it from the write position to its new end, and puts its block at the
   * start of that map; the bytes behind the block are zeros up to the end of the file.
   */
  lemma {:induction false} GrowingWrite(f: File, data: seq<Byte>)
    requires Sane(f) && f.offset + |data| > f.size
    ensures var (f', out) := WriteBlock(f, data, Growth(true, true));
            && 2 * (f.size + |data|) <= f'.size < 2 * (f.size + |data|) + 4096
            && f'.size % 4096 == 0 && |f'.disk| == f'.size
            && out == Written(Span(Window(f.maps, f.offset, f'.size - f.offset), 0, |data|))
            && f'.offset == f.offset + |data| && f'.mapOffset == |data|
            && (forall k :: 0 <= k < |data| ==> f'.disk[f.offset + k] == data[k])
            && forall k :: f.offset + |data| <= k < f'.size ==> f'.disk[k] == 0
  {
    ExpandExact(f, |data|);
    var e := Expand(f, |data|, true);
    assert WriteBlock(f, data, Growth(true, true)).0.disk == Overlay(e.disk, f.offset, data);
    OverlaidZeros(f.disk, e.size, f.offset, data);
  }

  /** A block handed out, from whatever map, holds the data: a null buffer's block is zeros. */
  lemma {:induction false} WrittenHolds(f: File, data: seq<Byte>, g: Growth)
    requires Sane(f)
    ensures var (f', out) := WriteBlock(f, data, g);
            out.Written? ==>
              && out.span.length == |data| && out.span.End() <= |f'.disk|
              && f'.disk[out.span.At()..out.span.End()] == data
  {
    var f0 := if f.offset + |data| > f.size then Map(Expand(f, |data|, g.extended)) else f;
    var (f', out) := Copy(f0, data);
    if out.Written? {
      OverlayAt(f0.disk, out.span.At(), data);
    }
  }

  /** A write that fits puts its block at the write position of the map there is, and moves both positions behind it. */
  lemma {:induction false} FittingWrite(f: File, data: seq<Byte>, g: Growth, w: Window)
    requires Sane(f) && f.offset + |data| <= f.size && f.current == Some(w) && f.mapOffset + |data| <= w.length
    ensures var (f', out) := WriteBlock(f, data, g);
            && out == Written(Span(w, f.mapOffset, |data|))
            && f' == f.(disk := f'.disk, offset := f.offset + |data|, mapOffset := f.mapOffset + |data|)
            && |f'.disk| == |f.disk|
            && forall k :: 0 <= k < |f.disk| ==>
                 var i := k - (w.start + f.mapOffset);
                 f'.disk[k] == if 0 <= i < |data| then data[i] else f.disk[k]
  {
  }

  /** The block fits what is left of the current map. */
  predicate FitsMap(f: File, n: nat) {
    f.current.Some? && f.offset + n <= f.current.value.End()
  }

  /**
   * What a write does from any state its predecessors can leave, case by case. It is undefined exactly
   * when the file could not be extended but was mapped again, or when the block fits the file but not
   * the current map. A failed write keeps the write position and the blocks before it.
   */
  lemma {:induction false} WriteExact(f: File, data: seq<Byte>, g: Growth)
    requires Linked(f)
    ensures var (f', out) := WriteBlock(f, data, g);
            var grows := f.offset + |data| > f.size;
            && (out.Undefined? <==> if grows then g.mapped && !g.extended else !FitsMap(f, |data|))
            && (out.Failed? <==> grows && !g.mapped)
            && (out.Written? ==> HandedOut(f, f', data, out.span) && (Coherent(f) || grows ==> Coherent(f')))
            && (out.Failed? ==> f' == Expand(f, |data|, g.extended) && f'.offset == f.offset)
            && (Coherent(f) && out.Failed? ==> (Coherent(f') <==> !g.extended))
            && f'.disk[..f.offset] == f.disk[..f.offset]
            && Linked(f')
  {
    if f.offset + |data| > f.size {
      if g.extended {
        ExpandExact(f, |data|);
      }
      if g.mapped {
        MapCoherent(Expand(f, |data|, g.extended));
        CopyExact(Map(Expand(f, |data|, g.extended)), data);
      }
    } else {
      CopyExact(f, data);
    }
  }

  /**
   * After the file has been extended but not mapped: the next write is undefined exactly when its block
   * fits the grown file but not what is left of the old map, if there is one; a block that still fits
   * the old map is written, and one beyond the grown file makes it coherent again.
   */
  lemma {:induction false} LostMapping(f: File, data: seq<Byte>, later: seq<Byte>)
    requires Coherent(f) && f.offset + |data| > f.size
    ensures WriteBlock(f, data, Growth(true, false)).1.Failed?
    ensures var f' := WriteBlock(f, data, Growth(true, false)).0;
            var (f'', out) := WriteBlock(f', later, GROWN);
            && (out.Undefined? <==> f.offset + |later| <= f'.size && (f.current.None? || f.size < f.offset + |later|))
            && (out.Written? ==> HandedOut(f', f'', later, out.span))
            && (f.offset + |later| > f'.size ==> out.Written? && Coherent(f''))
  {
    ExpandExact(f, |data|);
    WriteExact(f, data, Growth(true, false));
    WriteExact(WriteBlock(f, data, Growth(true, false)).0, later, GROWN);
  }

  // ---------- how much room is left, and what a write makes of it ----------

  /** What decides the fate of a write: the size, the write position and what is left of the current map. */
  datatype Room = Room(size: nat, offset: nat, left: Option<int>)

  datatype Verdict = Granted | Refused | Crashes

  function RoomOf(f: File): Room {
    Room(f.size, f.offset, if f.current.None? then None else Some(f.current.value.length - f.mapOffset))
  }

  function Reserve(r: Room, n: nat, g: Growth): (Room, Verdict) {
    if r.offset + n > r.size then
      var size := if g.extended then PageUp((r.size + n) * 2) else r.size;
      if !g.mapped then
        (r.(size := size), Refused)
      else if r.offset + n > size then
        (r.(size := size, left := Some(size - r.offset)), Crashes)
      else
        (Room(size, r.offset + n, Some(size - r.offset - n)), Granted)
    else if r.left.None? || r.left.value < n then
      (r, Crashes)
    else
      (r.(offset := r.offset + n, left := Some(r.left.value - n)), Granted)
  }

  /** The bytes do not matter: a write takes the file from one room to the next, with that verdict. */
  lemma {:induction false} ReserveIsWrite(f: File, data: seq<Byte>, g: Growth)
    requires Linked(f)
    ensures var (f', out) := WriteBlock(f, data, g);
            var (r, v) := Reserve(RoomOf(f), |data|, g);
            && RoomOf(f') == r
            && (out.Written? <==> v.Granted?) && (out.Failed? <==> v.Refused?) && (out.Undefined? <==> v.Crashes?)
  {
    WriteExact(f, data, g);
  }

  /** Nothing is lost between the map and the file. */
  predicate Level(r: Room) {
    r.offset <= r.size && (if r.left.None? then r.size == 0 else r.left.value == r.size - r.offset)
  }

  lemma {:induction false} CoherentIsLevel(f: File)
    requires Linked(f)
    ensures Coherent(f) <==> Level(RoomOf(f))
  {
  }

  /** As long as extending and mapping succeed or fail together, no write of a block crashes. */
  lemma {:induction false} TogetherNeverCrashes(r: Room, n: nat, g: Growth)
    requires Level(r) && n > 0 && g.extended == g.mapped
    ensures !Reserve(r, n, g).1.Crashes? && Level(Reserve(r, n, g).0)
  {
    PageUpBounds((r.size + n) * 2);
  }

  // ---------- runs of writes that succeed ----------

  /** The file and the blocks handed out so far, oldest first. */
  datatype Store = Store(file: File, blocks: seq<Span>)

  const FRESH: Store := Store(EMPTY, [])

  /** Allocate a block holding the data, or overwrite part of a block through its own, possibly old, mapping. */
  datatype Op = Alloc(data: seq<Byte>) | Poke(block: nat, rel: nat, data: seq<Byte>)

  const GROWN: Growth := Growth(true, true)

  /** Blocks follow each other without gaps from the start of the file to the write position. */
  predicate Tiles(blocks: seq<Span>, offset: nat) {
    if blocks == [] then
      offset == 0
    else
      blocks[|blocks| - 1].End() == offset && Tiles(blocks[..|blocks| - 1], blocks[|blocks| - 1].At())
  }

  predicate InWindows(blocks: seq<Span>) {
    forall b :: b in blocks ==> b.rel + b.length <= b.window.length
  }

  predicate Valid(s: Store) {
    Coherent(s.file) && Tiles(s.blocks, s.file.offset) && InWindows(s.blocks)
  }

  predicate Allowed(s: Store, op: Op) {
    match op
    case Alloc(data) => data != []
    case Poke(i, rel, data) => i < |s.blocks| && rel + |data| <= s.blocks[i].length
  }

  lemma {:induction false} TilesBounds(blocks: seq<Span>, offset: nat, i: nat)
    requires Tiles(blocks, offset) && i < |blocks|
    ensures blocks[i].End() <= offset
    ensures forall j :: 0 <= j < i ==> blocks[j].End() <= blocks[i].At()
  {
    var init, last := blocks[..|blocks| - 1], blocks[|blocks| - 1];
    if i < |init| {
      TilesBounds(init, last.At(), i);
      assert forall j :: 0 <= j < i ==> init[j] == blocks[j];
    } else {
      forall j | 0 <= j < i
        ensures blocks[j].End() <= blocks[i].At()
      {
        TilesBounds(init, last.At(), j);
        assert init[j] == blocks[j];
      }
    }
  }

  function Apply(s: Store, op: Op): (s': Store)
    requires Valid(s) && Allowed(s, op)
  {
    match op
    case Alloc(data) =>
      WriteExact(s.file, data, GROWN);
      var (f, out) := WriteBlock(s.file, data, GROWN);
      Store(f, s.blocks + [out.span])
    case Poke(i, rel, data) =>
      TilesBounds(s.blocks, s.file.offset, i);
      s.(file := s.file.(disk := Overlay(s.file.disk, s.blocks[i].At() + rel, data)))
  }

  lemma {:induction false} ApplyKeepsValid(s: Store, op: Op)
    requires Valid(s) && Allowed(s, op)
    ensures Valid(Apply(s, op))
    ensures s.blocks <= Apply(s, op).blocks
  {
    if op.Alloc? {
      WriteExact(s.file, op.data, GROWN);
      var s' := Apply(s, op);
      assert s'.blocks[..|s'.blocks| - 1] == s.blocks;
    } else {
      TilesBounds(s.blocks, s.file.offset, op.block);
    }
  }

  /** The bytes of block i, read through the file. */
  function Block(s: Store, i: nat): (b: seq<Byte>)
    requires Valid(s) && i < |s.blocks|
    ensures |b| == s.blocks[i].length
  {
    TilesBounds(s.blocks, s.file.offset, i);
    s.file.disk[s.blocks[i].At()..s.blocks[i].End()]
  }

  /** What every block reads as. */
  function Contents(s: Store): (c: seq<seq<Byte>>)
    requires Valid(s)
    ensures |c| == |s.blocks|
  {
    seq(|s.blocks|, i requires 0 <= i < |s.blocks| => Block(s, i))
  }

  /** The same operation on buffers that share nothing. */
  function ApplyPrivate(buffers: seq<seq<Byte>>, op: Op): seq<seq<Byte>>
    requires op.Poke? ==> op.block < |buffers| && op.rel + |op.data| <= |buffers[op.block]|
  {
    match op
    case Alloc(data) => buffers + [data]
    case Poke(i, rel, data) => buffers[i := Overlay(buffers[i], rel, data)]
  }

  /** A block behind the others, which read as they did. */
  lemma {:induction false} BlockAppended(s: Store, s': Store, data: seq<Byte>, span: Span)
    requires Valid(s) && Valid(s') && s'.blocks == s.blocks + [span] && HandedOut(s.file, s'.file, data, span)
    requires s'.file.disk[..s.file.offset] == s.file.disk[..s.file.offset]
    ensures Contents(s') == Contents(s) + [data]
  {
    forall i | 0 <= i < |s.blocks|
      ensures Contents(s')[i] == Contents(s)[i]
    {
      TilesBounds(s.blocks, s.file.offset, i);
      SamePrefix(s.file.disk, s'.file.disk, s.file.offset, s.blocks[i].At(), s.blocks[i].End());
    }
  }

  lemma {:induction false} AllocRefines(s: Store, data: seq<Byte>)
    requires Valid(s) && data != []
    ensures Valid(Apply(s, Alloc(data))) && Contents(Apply(s, Alloc(data))) == Contents(s) + [data]
  {
    ApplyKeepsValid(s, Alloc(data));
    WriteExact(s.file, data, GROWN);
    BlockAppended(s, Apply(s, Alloc(data)), data, WriteBlock(s.file, data, GROWN).1.span);
  }

  lemma {:induction false} SamePrefix(a: seq<Byte>, b: seq<Byte>, n: nat, lo: nat, hi: nat)
    requires lo <= hi <= n <= |a| && n <= |b| && a[..n] == b[..n]
    ensures a[lo..hi] == b[lo..hi]
  {
    assert a[lo..hi] == a[..n][lo..hi];
    assert b[lo..hi] == b[..n][lo..hi];
  }

  lemma {:induction false} OverlayInside(disk: seq<Byte>, lo: nat, hi: nat, rel: nat, data: seq<Byte>)
    requires lo + rel + |data| <= hi <= |disk|
    ensures Overlay(disk, lo + rel, data)[lo..hi] == Overlay(disk[lo..hi], rel, data)
  {
  }

  lemma {:induction false} OverlaidBlock(s: Store, s': Store, i: nat, rel: nat, data: seq<Byte>, j: nat)
    requires Valid(s) && Valid(s') && s'.blocks == s.blocks && i < |s.blocks| && j < |s.blocks|
    requires rel + |data| <= s.blocks[i].length && s.blocks[i].End() <= |s.file.disk|
    requires s.blocks[j].End() <= |s.file.disk|
    requires i < j ==> s.blocks[i].End() <= s.blocks[j].At()
    requires j < i ==> s.blocks[j].End() <= s.blocks[i].At()
    requires s'.file.disk == Overlay(s.file.disk, s.blocks[i].At() + rel, data)
    ensures Block(s', j) == if j == i then Overlay(Block(s, i), rel, data) else Block(s, j)
  {
    if j != i {
      OverlayOutside(s.file.disk, s.blocks[i].At() + rel, data, s.blocks[j].At(), s.blocks[j].End());
    } else {
      OverlayInside(s.file.disk, s.blocks[j].At(), s.blocks[j].End(), rel, data);
    }
  }

  /** Writing into block i overlays that block and no other. */
  lemma {:induction false} PokeBlock(s: Store, i: nat, rel: nat, data: seq<Byte>, j: nat)
    requires Valid(s) && Allowed(s, Poke(i, rel, data)) && j < |s.blocks|
    ensures Valid(Apply(s, Poke(i, rel, data)))
    ensures Block(Apply(s, Poke(i, rel, data)), j) == if j == i then Overlay(Block(s, i), rel, data) else Block(s, j)
  {
    ApplyKeepsValid(s, Poke(i, rel, data));
    TilesBounds(s.blocks, s.file.offset, i);
    TilesBounds(s.blocks, s.file.offset, j);
    OverlaidBlock(s, Apply(s, Poke(i, rel, data)), i, rel, data, j);
  }

  lemma {:induction false} PokeRefines(s: Store, i: nat, rel: nat, data: seq<Byte>)
    requires Valid(s) && Allowed(s, Poke(i, rel, data))
    ensures Valid(Apply(s, Poke(i, rel, data)))
    ensures Contents(Apply(s, Poke(i, rel, data))) == Contents(s)[i := Overlay(Contents(s)[i], rel, data)]
  {
    var s' := Apply(s, Poke(i, rel, data));
    ApplyKeepsValid(s, Poke(i, rel, data));
    forall j | 0 <= j < |s.blocks|
      ensures Block(s', j) == if j == i then Overlay(Block(s, i), rel, data) else Block(s, j)
    {
      PokeBlock(s, i, rel, data, j);
    }
  }

  /** What the callers of write promise: blocks are not empty, and a block is written within its bounds. */
  predicate AllowedPrivate(buffers: seq<seq<Byte>>, op: Op) {
    match op
    case Alloc(data) => data != []
    case Poke(i, rel, data) => i < |buffers| && rel + |data| <= |buffers[i]|
  }

  /** A run on buffers that share nothing; operations that break the promise are dropped. */
  function RunPrivate(ops: seq<Op>): seq<seq<Byte>> {
    if ops == [] then
      []
    else
      var buffers, op := RunPrivate(ops[..|ops| - 1]), ops[|ops| - 1];
      if AllowedPrivate(buffers, op) then ApplyPrivate(buffers, op) else buffers
  }

  /** An allocation of some bytes adds a buffer of just these. */
  lemma {:induction false} AllocAppends(ops: seq<Op>, data: seq<Byte>)
    requires data != []
    ensures RunPrivate(ops + [Alloc(data)]) == RunPrivate(ops) + [data]
  {
    assert (ops + [Alloc(data)])[..|ops|] == ops;
  }

  /** An overwrite within a buffer changes just the bytes it names. */
  lemma {:induction false} PokeWrites(ops: seq<Op>, i: nat, rel: nat, data: seq<Byte>)
    requires i < |RunPrivate(ops)| && rel + |data| <= |RunPrivate(ops)[i]|
    ensures var b, b' := RunPrivate(ops), RunPrivate(ops + [Poke(i, rel, data)]);
            && |b'| == |b| && |b'[i]| == |b[i]|
            && (forall j :: 0 <= j < |b| && j != i ==> b'[j] == b[j])
            && forall k :: 0 <= k < |b[i]| ==> b'[i][k] == if rel <= k < rel + |data| then data[k - rel] else b[i][k]
  {
    assert (ops + [Poke(i, rel, data)])[..|ops|] == ops;
  }

  lemma {:induction false} StepRefines(s: Store, op: Op)
    requires Valid(s) && AllowedPrivate(Contents(s), op)
    ensures Allowed(s, op) && Valid(Apply(s, op)) && Contents(Apply(s, op)) == ApplyPrivate(Contents(s), op)
  {
    assert forall i :: 0 <= i < |s.blocks| ==> |Contents(s)[i]| == s.blocks[i].length;
    match op
    case Alloc(data) => AllocRefines(s, data);
    case Poke(i, rel, data) => PokeRefines(s, i, rel, data);
  }

  /** The same run on the shared file. */
  ghost function RunStore(ops: seq<Op>): (s: Store)
    ensures Valid(s)
  {
    if ops == [] then
      FRESH
    else
      var s, op := RunStore(ops[..|ops| - 1]), ops[|ops| - 1];
      if AllowedPrivate(Contents(s), op) then
        StepRefines(s, op);
        Apply(s, op)
      else
        s
  }

  /**
   * Snapshot stability: whatever is allocated and written, and however often the file grows and is
   * remapped on the way, its blocks read exactly as buffers that share nothing.
   */
  lemma {:induction false} StoreRefinesPrivateBuffers(ops: seq<Op>)
    ensures Contents(RunStore(ops)) == RunPrivate(ops)
  {
    if ops != [] {
      StoreRefinesPrivateBuffers(ops[..|ops| - 1]);
      if AllowedPrivate(RunPrivate(ops[..|ops| - 1]), ops[|ops| - 1]) {
        StepRefines(RunStore(ops[..|ops| - 1]), ops[|ops| - 1]);
      }
    }
  }

  /**
   * Every block lies below the write position and inside the mapping it was handed out in, and behind
   * the blocks before it.
   */
  lemma {:induction false} BlocksDisjoint(ops: seq<Op>, j: nat)
    requires j < |RunStore(ops).blocks|
    ensures var b := RunStore(ops).blocks;
            && b[j].End() <= RunStore(ops).file.offset
            && b[j].rel + b[j].length <= b[j].window.length
            && forall i :: 0 <= i < j ==> b[i].End() <= b[j].At()
  {
    TilesBounds(RunStore(ops).blocks, RunStore(ops).file.offset, j);
    assert RunStore(ops).blocks[j] in RunStore(ops).blocks;
  }

  // ---------- how often the file is remapped, and how much of it is unused ----------

  function Pow2(n: nat): nat {
    if n == 0 then 1 else 2 * Pow2(n - 1)
  }

  lemma {:induction false} DoublesFromOne(n: nat)
    ensures Pow2(0) == 1 && Pow2(n + 1) == 2 * Pow2(n)
  {
  }

  predicate Bounded(f: File) {
    && f.size % PAGE_SIZE == 0
    && f.size <= 4 * f.offset + 4092
    && (f.maps == 0 ==> f.size == 0)
    && (f.maps > 0 ==> f.size >= PAGE_SIZE * Pow2(f.maps - 1))
  }

  /** The page multiple above an even number is closer than a page less one. */
  lemma {:induction false} EvenGap(size: nat, pages: nat, x: nat)
    requires size == 4096 * pages && 2 * x <= size < 2 * x + 4096
    ensures size <= 2 * x + 4094 && (size > 0 ==> size >= 4096)
  {
    assert size == 2 * (2048 * pages);
  }

  lemma {:induction false} GrowthKeepsBounded(f: File, data: seq<Byte>)
    requires Coherent(f) && Bounded(f) && data != [] && f.offset + |data| > f.size
    ensures Bounded(WriteBlock(f, data, GROWN).0)
  {
    GrowingWrite(f, data);
    var f' := WriteBlock(f, data, GROWN).0;
    EvenGap(f'.size, f'.size / 4096, f.size + |data|);
  }

  lemma {:induction false} WriteKeepsBounded(f: File, data: seq<Byte>)
    requires Coherent(f) && Bounded(f) && data != []
    ensures Bounded(WriteBlock(f, data, GROWN).0)
  {
    if f.offset + |data| > f.size {
      GrowthKeepsBounded(f, data);
    } else {
      CopyExact(f, data);
    }
  }

  /**
   * Bounded waste and logarithmic remapping: after any run the file is a whole number of pages, is at
   * most 4 * offset + 4092 bytes long, and after k mappings at least 4096 * 2^(k-1) bytes long.
   */
  lemma {:induction false} GrowthBounds(ops: seq<Op>)
    ensures var f := RunStore(ops).file;
            && f.size % 4096 == 0 && f.size <= 4 * f.offset + 4092
            && (f.maps == 0 ==> f.size == 0) && (f.maps > 0 ==> f.size >= 4096 * Pow2(f.maps - 1))
  {
    RunStaysBounded(ops);
  }

  lemma {:induction false} RunStaysBounded(ops: seq<Op>)
    ensures Bounded(RunStore(ops).file)
  {
    if ops != [] {
      RunStaysBounded(ops[..|ops| - 1]);
      var s, op := RunStore(ops[..|ops| - 1]), ops[|ops| - 1];
      if op.Alloc? && AllowedPrivate(Contents(s), op) {
        WriteKeepsBounded(s.file, op.data);
      }
    }
  }

  // ---------- m_file as an object ----------

  class MFile {
    var size: nat
    var offset: nat
    var mapOffset: nat
    var current: Option<Window>
    var disk: seq<Byte>
    var maps: nat

    function View(): File
      reads this
    {
      File(size, offset, mapOffset, current, disk, maps)
    }

    /** The old file is deleted and a new one opened; one that could not be deleted is opened with its bytes. */
    constructor (leftover: seq<Byte>)
      ensures View() == EMPTY.(size := |leftover|, disk := leftover) && Linked(View())
      ensures Coherent(View()) <==> leftover == []
    {
      size, offset, mapOffset, current, disk, maps := |leftover|, 0, 0, None, leftover, 0;
    }

    method ExpandSize(n: nat, extended: bool) returns (ok: bool)
      requires Sane(View())
      modifies this
      ensures View() == Expand(old(View()), n, extended) && ok == extended
    {
      if !extended {
        return false;
      }
      var aligned := ((size + n) * 2 + PAGE_SIZE - 1) / PAGE_SIZE * PAGE_SIZE;
      PageUpBounds((size + n) * 2);
      disk := disk + Zeros(aligned - size);
      size := aligned;
      return true;
    }

    /** The new map reaches to the end of the file; None is a map object the system gave no memory for. */
    method DoMap(start: nat, mapped: bool) returns (w: Option<Window>)
      requires start <= size
      modifies this`maps
      ensures w == if mapped then Some(Window(old(maps), start, size - start)) else None
      ensures maps == if mapped then old(maps) + 1 else old(maps)
    {
      if !mapped {
        return None;
      }
      w := Some(Window(maps, start, size - start));
      maps := maps + 1;
    }

    /** memcpy or memset through the current map, then both positions advance. */
    method CopyIn(data: seq<Byte>) returns (out: Outcome)
      requires Sane(View())
      modifies this
      ensures (View(), out) == Copy(old(View()), data)
    {
      if current.None? || mapOffset + |data| > current.value.length {
        return Undefined;
      }
      var w := current.value;
      disk := Overlay(disk, w.start + mapOffset, data);
      out := Written(Span(w, mapOffset, |data|));
      mapOffset := mapOffset + |data|;
      offset := offset + |data|;
    }

    /** `buffer` None is a null pointer: the block is filled with zeros. */
    method Write(buffer: Option<seq<Byte>>, n: nat, g: Growth) returns (out: Outcome)
      requires Sane(View()) && (buffer.Some? ==> |buffer.value| == n)
      modifies this
      ensures var data := if buffer.Some? then buffer.value else Zeros(n);
              (View(), out) == WriteBlock(old(View()), data, g)
      ensures buffer.None? && out.Written? ==>
                && out.span.length == n && out.span.End() <= |disk|
                && forall k :: out.span.At() <= k < out.span.End() ==> disk[k] == 0
    {
      ghost var data := if buffer.Some? then buffer.value else Zeros(n);
      WrittenHolds(View(), data, g);
      if offset + n > size {
        var _ := ExpandSize(n, g.extended);
        var newMap := DoMap(offset, g.mapped);
        if newMap.None? {
          return Failed;
        }
        current := newMap;
        mapOffset := 0;
      }
      out := CopyIn(if buffer.Some? then buffer.value else Zeros(n));
    }
  }
}
