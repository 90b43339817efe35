/**
 * From blocks to addresses: the mapping m_file asks basic_mmap for puts every byte of a block at the
 * address write hands out for it, whatever the page size and the write position.
 */
module Addressing {
  import opened Wrappers
  import opened Bytes
  import opened SnapshotStore
  import Mmap

  /**
   * What do_map meets: a new handle on a file that reaches to the end of the window, a new mapping handle,
   * and a start address where nothing starts.
   */
  predicate MapsWindow(w: Window, os: Mmap.Books, h: Mmap.Handle, a: Mmap.Answers) {
    && h != -1 && h !in os.handles
    && a.fileSize.Some? && w.End() <= a.fileSize.value
    && a.section.Some? && a.section.value != -1 && a.section.value != h && a.section.value !in os.handles
    && a.start.Some? && a.start.value > 0 && a.start.value !in os.views
  }

  /** The object do_map makes for a window, and the books behind it. */
  function Mapped(w: Window, os: Mmap.Books, h: Mmap.Handle, garbage: bool,
      a: Mmap.Answers): (Mmap.Fields, Mmap.Books)
  {
    Mmap.AfterMapPath(Mmap.Default(garbage), os, Some(h), w.start, w.length, a)
  }

  /** The address lies in a live mapping, behind which is this file position. */
  predicate Addresses(os: Mmap.Books, view: nat, address: nat, position: nat) {
    && view in os.views && view <= address < view + os.views[view].length
    && os.views[view].position + (address - view) == position
  }

  /** Byte k of a block is addressed at the start of the data, plus the block's place in its window, plus k. */
  lemma {:induction false} SpanIsAddressed(s: Span, os: Mmap.Books, h: Mmap.Handle, garbage: bool, a: Mmap.Answers,
      k: nat)
    requires MapsWindow(s.window, os, h, a)
    requires s.rel + s.length <= s.window.length && k < s.length
    ensures var (o, os') := Mapped(s.window, os, h, garbage, a);
            Addresses(os', Mmap.MappingStart(o), o.data + s.rel + k, s.At() + k)
  {
    var os1 := os.(handles := os.handles[h := Mmap.LibraryFile]);
    Mmap.MappedBytesArePositioned(Mmap.Default(garbage), os1, h, s.window.start, s.window.length, a, s.rel + k);
  }

  /**
   * A successful write: the map that is current when it copies, made by do_map at any page size and any
   * write position, addresses file byte offset + k at data() + map_offset + k, and that byte is data[k].
   */
  lemma {:induction false} WrittenBlockIsAddressed(f: File, data: seq<Byte>, g: Growth, os: Mmap.Books, h: Mmap.Handle,
      garbage: bool, a: Mmap.Answers, k: nat)
    requires Linked(f) && WriteBlock(f, data, g).1.Written? && k < |data|
    requires MapsWindow(WriteBlock(f, data, g).1.span.window, os, h, a)
    ensures var (f', out) := WriteBlock(f, data, g);
            var (o, os') := Mapped(out.span.window, os, h, garbage, a);
            var view, address := Mmap.MappingStart(o), o.data + out.span.rel + k;
            && f'.current == Some(out.span.window)
            && view in os'.views && view <= address < view + os'.views[view].length
            && os'.views[view].position + (address - view) == f.offset + k
            && f.offset + k < |f'.disk| && f'.disk[f.offset + k] == data[k]
  {
    WriteExact(f, data, g);
    var (f', out) := WriteBlock(f, data, g);
    SpanIsAddressed(out.span, os, h, garbage, a, k);
    assert f'.disk[f.offset + k] == f'.disk[f.offset..f'.offset][k];
  }

  lemma {:induction false} StoreByte(store: Store, j: nat, k: nat)
    requires Valid(store) && j < |store.blocks| && k < store.blocks[j].length
    ensures store.blocks[j].At() + k < |store.file.disk| && j < |Contents(store)| && k < |Contents(store)[j]|
    ensures store.file.disk[store.blocks[j].At() + k] == Contents(store)[j][k]
  {
    TilesBounds(store.blocks, store.file.offset, j);
    assert Contents(store)[j] == Block(store, j);
  }

  lemma {:induction false} BlockByte(ops: seq<Op>, j: nat, k: nat)
    requires j < |RunStore(ops).blocks| && k < RunStore(ops).blocks[j].length
    ensures var at, disk := RunStore(ops).blocks[j].At() + k, RunStore(ops).file.disk;
            && at < |disk| && j < |RunPrivate(ops)| && k < |RunPrivate(ops)[j]|
            && disk[at] == RunPrivate(ops)[j][k]
  {
    StoreByte(RunStore(ops), j, k);
    StoreRefinesPrivateBuffers(ops);
  }

  /**
   * Over a whole run of writes and overwrites: the pointer each block was handed out with still reads, through
   * its own mapping, what a private buffer would hold.
   */
  lemma {:induction false} StoredBlockIsAddressed(ops: seq<Op>, j: nat, os: Mmap.Books, h: Mmap.Handle, garbage: bool,
      a: Mmap.Answers, k: nat)
    requires j < |RunStore(ops).blocks| && k < RunStore(ops).blocks[j].length
    requires MapsWindow(RunStore(ops).blocks[j].window, os, h, a)
    ensures var s, file := RunStore(ops).blocks[j], RunStore(ops).file;
            var (o, os') := Mapped(s.window, os, h, garbage, a);
            var view, address := Mmap.MappingStart(o), o.data + s.rel + k;
            && view in os'.views && view <= address < view + os'.views[view].length
            && os'.views[view].position + (address - view) == s.At() + k
            && s.At() + k < |file.disk| && j < |RunPrivate(ops)| && k < |RunPrivate(ops)[j]|
            && file.disk[s.At() + k] == RunPrivate(ops)[j][k]
  {
    BlocksDisjoint(ops, j);
    BlockByte(ops, j, k);
    SpanIsAddressed(RunStore(ops).blocks[j], os, h, garbage, a, k);
  }
}
