/** basic_mmap: who owns which mapping and which handle, checked against the operating system's books. */
module Mmap {
  import opened Wrappers

  type Handle = int

  const INVALID: Handle := -1

  datatype HandleKind = UserFile | LibraryFile | Section

  /** A live mapping: its length and the file position of its first byte. */
  datatype Mapping = Mapping(length: nat, position: nat)

  /**
   * The books: live mappings by start address, open handles, and how often something was asked
   * that no owner may ask: unmapping what is not mapped with that length, closing what is not open,
   * or closing a handle the user found.
   */
  datatype Books = Books(views: map<nat, Mapping>, handles: map<Handle, HandleKind>, faults: nat)

  function UnmapView(os: Books, start: nat, length: nat): Books {
    if start in os.views && os.views[start].length == length then
      os.(views := os.views - {start})
    else
      os.(faults := os.faults + 1)
  }

  function CloseHandle(os: Books, h: Handle, kind: HandleKind): Books {
    var closed := os.(handles := os.handles - {h});
    if h in os.handles && os.handles[h] == kind && kind != UserFile then closed else closed.(faults := os.faults + 1)
  }

  /** The fields of a basic_mmap; data 0 is the null pointer. */
  datatype Fields = Fields(data: nat, length: nat, mapped: nat, file: Handle, section: Handle, internal: bool)

  /** A default-constructed object; its is_handle_internal_ is whatever was in memory. */
  function Default(garbage: bool): Fields {
    Fields(0, 0, 0, INVALID, INVALID, garbage)
  }

  predicate IsOpen(o: Fields) {
    o.file != INVALID
  }

  /** get_mapping_start */
  function MappingStart(o: Fields): nat {
    if o.data == 0 || o.data + o.length < o.mapped then 0 else o.data + o.length - o.mapped
  }

  /** unmap: is_handle_internal_ keeps its value. */
  function AfterUnmap(o: Fields, os: Books): (Fields, Books) {
    if !IsOpen(o) then
      (o, os)
    else
      var os1 :=
        if o.section != INVALID then CloseHandle(UnmapView(os, MappingStart(o), o.mapped), o.section, Section) else os;
      var os2 := if o.internal then CloseHandle(os1, o.file, LibraryFile) else os1;
      (Default(o.internal), os2)
  }

  type PageSize = n: nat | n > 0 witness 1

  /** make_offset_page_aligned */
  function AlignDown(offset: nat, page: PageSize): nat {
    offset / page * page
  }

  /** What the system answers during one map call: the file's size, a mapping handle, a start address. */
  datatype Answers = Answers(fileSize: Option<nat>, section: Option<Handle>, start: Option<nat>, page: PageSize)

  /** The number of bytes the caller gets: 0 stands for everything from the offset on. */
  function Requested(offset: nat, length: nat, fileSize: nat): nat
    requires offset + length <= fileSize
  {
    if length == 0 then fileSize - offset else length
  }

  predicate Succeeds(h: Handle, offset: nat, length: nat, a: Answers) {
    && h != INVALID && a.fileSize.Some? && offset + length <= a.fileSize.value
    && a.section.Some? && a.start.Some?
  }

  /** map with a handle: the new mapping is made first, the old one is given up only if that worked. */
  function AfterMap(o: Fields, os: Books, h: Handle, offset: nat, length: nat, a: Answers): (Fields, Books) {
    if !Succeeds(h, offset, length, a) then
      (o, os)
    else
      var n := Requested(offset, length, a.fileSize.value);
      var aligned := AlignDown(offset, a.page);
      AlignDownBelow(offset, a.page);
      var whole := offset - aligned + n;
      var os1 := os.(views := os.views[a.start.value := Mapping(whole, aligned)],
                     handles := os.handles[a.section.value := Section]);
      var (_, os2) := AfterUnmap(o, os1);
      (Fields(a.start.value + (offset - aligned), n, whole, h, a.section.value, false), os2)
  }

  /** map with a path: the file is opened first, and belongs to the object if the mapping succeeds. */
  function AfterMapPath(o: Fields, os: Books, found: Option<Handle>, offset: nat, length: nat,
      a: Answers): (Fields, Books)
  {
    match found
    case None => (o, os)
    case Some(h) =>
      var (o1, os1) := AfterMap(o, os.(handles := os.handles[h := LibraryFile]), h, offset, length, a);
      (if Succeeds(h, offset, length, a) then o1.(internal := true) else o1, os1)
  }

  lemma {:induction false} AlignDownBelow(offset: nat, page: PageSize)
    ensures AlignDown(offset, page) <= offset < AlignDown(offset, page) + page
  {
    assert offset == offset / page * page + offset % page;
  }

  /**
   * When a map works: with a handle, a file that reaches to the end of what is asked for, and a mapping
   * handle and a start address from the system. The object then shows what it asked for; otherwise it and
   * the books are as they were.
   */
  lemma {:induction false} MapWorksExactly(o: Fields, os: Books, h: Handle, offset: nat, length: nat, a: Answers)
    ensures var (o', os') := AfterMap(o, os, h, offset, length, a);
            if && h != -1 && a.fileSize.Some? && offset + length <= a.fileSize.value
               && a.section.Some? && a.start.Some? then
              && o'.data == a.start.value + offset % a.page && o'.file == h && o'.section == a.section.value
              && o'.length == (if length == 0 then a.fileSize.value - offset else length)
              && o'.mapped == o'.length + offset % a.page && !o'.internal
            else
              o' == o && os' == os
  {
    AlignDownBelow(offset, a.page);
    assert offset == offset / a.page * a.page + offset % a.page;
  }

  /** In particular when the file ends where the map is to end, as the snapshot file does. */
  lemma {:induction false} MapToEndWorks(o: Fields, os: Books, h: Handle, offset: nat, length: nat, a: Answers)
    requires h != -1 && a.fileSize == Some(offset + length) && a.section.Some? && a.start.Some? && a.start.value > 0
    ensures var (o', os') := AfterMap(o, os, h, offset, length, a);
            IsOpen(o') && o'.file == h && o'.data > 0 && o'.length == length
  {
    MapWorksExactly(o, os, h, offset, length, a);
  }

  /** The same with a path: a file that cannot be opened changes nothing, and one that was opened stays open. */
  lemma {:induction false} MapPathWorksExactly(o: Fields, os: Books, h: Handle, offset: nat, length: nat, a: Answers)
    ensures AfterMapPath(o, os, None, offset, length, a) == (o, os)
    ensures var (o', os') := AfterMapPath(o, os, Some(h), offset, length, a);
            if && h != -1 && a.fileSize.Some? && offset + length <= a.fileSize.value
               && a.section.Some? && a.start.Some? then
              && o'.data == a.start.value + offset % a.page && o'.file == h && o'.section == a.section.value
              && o'.length == (if length == 0 then a.fileSize.value - offset else length)
              && o'.mapped == o'.length + offset % a.page && o'.internal
            else
              o' == o && os' == os.(handles := os.handles[h := LibraryFile])
  {
    MapWorksExactly(o, os.(handles := os.handles[h := LibraryFile]), h, offset, length, a);
  }

  /** The books count what no owner may ask: a wrong unmapping, closing what is not open as that, or the user's. */
  lemma {:induction false} FaultsCount(os: Books, start: nat, length: nat, h: Handle, kind: HandleKind)
    ensures UnmapView(os, start, length).faults
            == os.faults + if start in os.views && os.views[start].length == length then 0 else 1
    ensures CloseHandle(os, h, kind).faults
            == os.faults + if h in os.handles && os.handles[h] == kind && kind != UserFile then 0 else 1
    ensures h !in CloseHandle(os, h, kind).handles
  {
  }

  // ---------- a system of objects ----------

  datatype System = System(objects: map<nat, Fields>, os: Books)

  datatype Op =
    | Construct(id: nat, garbage: bool)
    | UserOpen(handle: Handle)
    | UserClose(handle: Handle)
    | Map(id: nat, handle: Handle, offset: nat, length: nat, answers: Answers)
    | MapFile(id: nat, found: Option<Handle>, offset: nat, length: nat, answers: Answers)
    | UnmapObject(id: nat)
    | MoveConstruct(id: nat, from: nat)
    | MoveAssign(id: nat, from: nat)
    | Swap(id: nat, other: nat)
    | Destroy(id: nat)

  predicate FreshHandle(os: Books, h: Handle) {
    h != INVALID && h !in os.handles
  }

  /** The system hands out new handles, and new mappings start where nothing starts. */
  predicate Plausible(os: Books, a: Answers) {
    && (a.section.Some? ==> FreshHandle(os, a.section.value))
    && (a.start.Some? ==> a.start.value > 0 && a.start.value !in os.views)
  }

  predicate Enabled(s: System, op: Op) {
    match op
    case Construct(id, _) => id !in s.objects
    case UserOpen(h) => FreshHandle(s.os, h)
    case UserClose(h) => h in s.os.handles && s.os.handles[h] == UserFile
    case Map(id, h, offset, length, a) => id in s.objects && Plausible(s.os, a)
    case MapFile(id, found, offset, length, a) =>
      && id in s.objects && Plausible(s.os, a)
      && (found.Some? ==> FreshHandle(s.os, found.value) && a.section != found)
    case UnmapObject(id) => id in s.objects
    case MoveConstruct(id, from) => id !in s.objects && from in s.objects
    case MoveAssign(id, from) => id in s.objects && from in s.objects
    case Swap(id, other) => id in s.objects && other in s.objects
    case Destroy(id) => id in s.objects
  }

  /** What is left of an object that was moved from by construction: its is_handle_internal_ is stale. */
  function MovedFrom(o: Fields): Fields {
    Default(o.internal)
  }

  function Put(s: System, id: nat, r: (Fields, Books)): System {
    System(s.objects[id := r.0], r.1)
  }

  /** An operation that is not enabled does not happen. */
  function Next(s: System, op: Op): System {
    if !Enabled(s, op) then
      s
    else
      match op
      case Construct(id, garbage) => s.(objects := s.objects[id := Default(garbage)])
      case UserOpen(h) => s.(os := s.os.(handles := s.os.handles[h := UserFile]))
      case UserClose(h) => s.(os := s.os.(handles := s.os.handles - {h}))
      case Map(id, h, offset, length, a) => Put(s, id, AfterMap(s.objects[id], s.os, h, offset, length, a))
      case MapFile(id, found, offset, length, a) =>
        Put(s, id, AfterMapPath(s.objects[id], s.os, found, offset, length, a))
      case UnmapObject(id) => Put(s, id, AfterUnmap(s.objects[id], s.os))
      case MoveConstruct(id, from) =>
        s.(objects := s.objects[id := s.objects[from]][from := MovedFrom(s.objects[from])])
      case MoveAssign(id, from) =>
        if id == from then
          s
        else
          var (_, os) := AfterUnmap(s.objects[id], s.os);
          System(s.objects[id := s.objects[from]][from := Default(false)], os)
      case Swap(id, other) => s.(objects := s.objects[id := s.objects[other]][other := s.objects[id]])
      case Destroy(id) => System(s.objects - {id}, AfterUnmap(s.objects[id], s.os).1)
  }

  function Run(ops: seq<Op>): System {
    if ops == [] then System(map[], Books(map[], map[], 0)) else Next(Run(ops[..|ops| - 1]), ops[|ops| - 1])
  }

  /** What the operations on a system do, where they can happen. */
  lemma {:induction false} LifeHappens(s: System, id: nat, garbage: bool, h: Handle)
    ensures id !in s.objects ==>
              Next(s, Construct(id, garbage)) == s.(objects := s.objects[id := Fields(0, 0, 0, -1, -1, garbage)])
    ensures id in s.objects ==>
              && Next(s, UnmapObject(id)).objects == s.objects[id := AfterUnmap(s.objects[id], s.os).0]
              && Next(s, UnmapObject(id)).os == AfterUnmap(s.objects[id], s.os).1
              && Next(s, Destroy(id)) == System(s.objects - {id}, AfterUnmap(s.objects[id], s.os).1)
    ensures h != -1 && h !in s.os.handles ==>
              Next(s, UserOpen(h)) == s.(os := s.os.(handles := s.os.handles[h := UserFile]))
    ensures h in s.os.handles && s.os.handles[h] == UserFile ==>
              Next(s, UserClose(h)) == s.(os := s.os.(handles := s.os.handles - {h}))
  {
  }

  lemma {:induction false} MapsHappen(s: System, id: nat, h: Handle, offset: nat, length: nat, a: Answers)
    requires id in s.objects
    requires a.section.Some? ==> a.section.value != -1 && a.section.value !in s.os.handles
    requires a.start.Some? ==> a.start.value > 0 && a.start.value !in s.os.views
    ensures var (o, os) := AfterMap(s.objects[id], s.os, h, offset, length, a);
            Next(s, Map(id, h, offset, length, a)) == System(s.objects[id := o], os)
    ensures h != -1 && h !in s.os.handles && a.section != Some(h) ==>
              var (o, os) := AfterMapPath(s.objects[id], s.os, Some(h), offset, length, a);
              Next(s, MapFile(id, Some(h), offset, length, a)) == System(s.objects[id := o], os)
    ensures Next(s, MapFile(id, None, offset, length, a)) == s
  {
  }

  /** Moving leaves the other object closed; its ownership flag stays as it was only when it is constructed from. */
  lemma {:induction false} MovesHappen(s: System, id: nat, from: nat)
    requires from in s.objects && id != from
    ensures id !in s.objects ==>
              var left := Fields(0, 0, 0, -1, -1, s.objects[from].internal);
              Next(s, MoveConstruct(id, from)) == s.(objects := s.objects[id := s.objects[from]][from := left])
    ensures id in s.objects ==>
              var left := Fields(0, 0, 0, -1, -1, false);
              && Next(s, MoveAssign(id, from)).objects == s.objects[id := s.objects[from]][from := left]
              && Next(s, MoveAssign(id, from)).os == AfterUnmap(s.objects[id], s.os).1
              && Next(s, MoveAssign(id, id)) == s
              && Next(s, Swap(id, from)) == s.(objects := s.objects[id := s.objects[from]][from := s.objects[id]])
  {
  }

  // ---------- ownership ----------

  /** An object that is not open holds nothing; an open one holds what the books say it holds. */
  predicate Backed(o: Fields, os: Books) {
    if !IsOpen(o) then
      o == Default(o.internal)
    else
      && o.data > 0 && o.length <= o.mapped < o.data + o.length
      && MappingStart(o) in os.views && os.views[MappingStart(o)].length == o.mapped
      && o.section in os.handles && os.handles[o.section] == Section && o.section != INVALID
      && (o.internal ==> o.file in os.handles && os.handles[o.file] == LibraryFile)
  }

  /** Two open objects share no mapping, no mapping handle, and no file handle that either would close. */
  predicate Apart(o: Fields, o': Fields) {
    IsOpen(o) && IsOpen(o') ==>
      && MappingStart(o) != MappingStart(o') && o.section != o'.section
      && (o.internal && o'.internal ==> o.file != o'.file)
  }

  predicate AllBacked(objects: map<nat, Fields>, os: Books) {
    forall id :: id in objects ==> Backed(objects[id], os)
  }

  predicate AllApart(objects: map<nat, Fields>) {
    forall id, id' :: id in objects && id' in objects && id != id' ==> Apart(objects[id], objects[id'])
  }

  /** What the system lends out and wants back: mappings, mapping handles, and files opened by path. */
  datatype Kind = AView | ASection | AFile

  /** The books list a resource of this kind, by its start address or its handle. */
  predicate Listed(os: Books, k: Kind, n: int) {
    match k
    case AView => n in os.views
    case ASection => n in os.handles && os.handles[n] == Section
    case AFile => n in os.handles && os.handles[n] == LibraryFile
  }

  /** The object will give the resource back. */
  predicate Owns(o: Fields, k: Kind, n: int) {
    IsOpen(o) &&
    match k
    case AView => MappingStart(o) == n
    case ASection => o.section == n
    case AFile => o.internal && o.file == n
  }

  ghost predicate AllOwned(objects: map<nat, Fields>, os: Books, k: Kind) {
    forall n :: Listed(os, k, n) ==> exists id :: id in objects && Owns(objects[id], k, n)
  }

  ghost predicate Consistent(s: System) {
    && s.os.faults == 0
    && AllBacked(s.objects, s.os)
    && AllApart(s.objects)
    && AllOwned(s.objects, s.os, AView)
    && AllOwned(s.objects, s.os, ASection)
  }

  /** Giving up a backed object removes exactly what it owns from the books. */
  lemma {:induction false} UnmapExact(o: Fields, os: Books)
    requires Backed(o, os)
    ensures var (o', os') := AfterUnmap(o, os);
            && o' == Default(o.internal) && os'.faults == os.faults
            && os'.views == (if IsOpen(o) then os.views - {MappingStart(o)} else os.views)
            && os'.handles
              == (if IsOpen(o) then os.handles - {o.section} - (if o.internal then {o.file} else {}) else os.handles)
  {
  }

  /** What another object relies on is untouched when this one gives up what it owns. */
  lemma {:induction false} UnmapSparesOthers(o: Fields, o': Fields, os: Books)
    requires Backed(o, os) && Backed(o', os) && Apart(o, o') && Apart(o', o)
    ensures Backed(o', AfterUnmap(o, os).1)
  {
    UnmapExact(o, os);
  }

  /** Every resource in the new books is the new object's, or was there before and was not the old object's. */
  ghost predicate Kept(o: Fields, o': Fields, os: Books, os': Books, k: Kind) {
    forall n :: Listed(os', k, n) ==> Owns(o', k, n) || (Listed(os, k, n) && !Owns(o, k, n))
  }

  lemma {:induction false} ReplaceKeepsOwned(objects: map<nat, Fields>, id: nat, o': Fields, os: Books, os': Books,
      k: Kind)
    requires id in objects && AllOwned(objects, os, k) && Kept(objects[id], o', os, os', k)
    ensures AllOwned(objects[id := o'], os', k)
  {
    var objects' := objects[id := o'];
    forall n | Listed(os', k, n)
      ensures exists i :: i in objects' && Owns(objects'[i], k, n)
    {
      if Owns(o', k, n) {
        assert Owns(objects'[id], k, n);
      } else {
        var i :| i in objects && Owns(objects[i], k, n);
        assert Owns(objects'[i], k, n);
      }
    }
  }

  /** The other objects are backed by the new books and share nothing with the new object. */
  predicate Spared(objects: map<nat, Fields>, id: nat, o': Fields, os': Books) {
    forall i :: i in objects && i != id ==> Backed(objects[i], os') && Apart(o', objects[i]) && Apart(objects[i], o')
  }

  lemma {:induction false} ReplaceKeepsBacked(objects: map<nat, Fields>, id: nat, o': Fields, os': Books)
    requires id in objects && AllApart(objects) && Backed(o', os') && Spared(objects, id, o', os')
    ensures AllBacked(objects[id := o'], os') && AllApart(objects[id := o'])
  {
    var objects' := objects[id := o'];
    forall i | i in objects'
      ensures Backed(objects'[i], os')
    {
    }
    forall i, j | i in objects' && j in objects' && i != j
      ensures Apart(objects'[i], objects'[j])
    {
      if i != id && j != id {
        assert Apart(objects[i], objects[j]);
      }
    }
  }

  /** Replacing one object and the books keeps ownership if the new object is backed, apart, and nothing is orphaned. */
  lemma {:induction false} ReplaceKeeps(s: System, id: nat, o': Fields, os': Books)
    requires Consistent(s) && id in s.objects && os'.faults == 0
    requires Backed(o', os') && Spared(s.objects, id, o', os')
    requires Kept(s.objects[id], o', s.os, os', AView) && Kept(s.objects[id], o', s.os, os', ASection)
    ensures Consistent(System(s.objects[id := o'], os'))
  {
    ReplaceKeepsBacked(s.objects, id, o', os');
    ReplaceKeepsOwned(s.objects, id, o', s.os, os', AView);
    ReplaceKeepsOwned(s.objects, id, o', s.os, os', ASection);
  }

  lemma {:induction false} UnmapSparesAll(objects: map<nat, Fields>, id: nat, os: Books)
    requires id in objects && AllBacked(objects, os) && AllApart(objects)
    ensures Spared(objects, id, AfterUnmap(objects[id], os).0, AfterUnmap(objects[id], os).1)
  {
    forall i | i in objects && i != id
      ensures Backed(objects[i], AfterUnmap(objects[id], os).1)
    {
      UnmapSparesOthers(objects[id], objects[i], os);
    }
  }

  lemma {:induction false} UnmapKeeps(s: System, id: nat)
    requires Consistent(s) && id in s.objects
    ensures Consistent(Put(s, id, AfterUnmap(s.objects[id], s.os)))
  {
    var o := s.objects[id];
    UnmapExact(o, s.os);
    UnmapSparesAll(s.objects, id, s.os);
    ReplaceKeeps(s, id, AfterUnmap(o, s.os).0, AfterUnmap(o, s.os).1);
  }

  /** The books after the new mapping is made and before the old one is given up. */
  function WithMapping(os: Books, offset: nat, length: nat, a: Answers): Books
    requires a.fileSize.Some? && offset + length <= a.fileSize.value && a.section.Some? && a.start.Some?
  {
    AlignDownBelow(offset, a.page);
    var whole := offset - AlignDown(offset, a.page) + Requested(offset, length, a.fileSize.value);
    os.(views := os.views[a.start.value := Mapping(whole, AlignDown(offset, a.page))],
        handles := os.handles[a.section.value := Section])
  }

  /** The new object owns exactly the new mapping and, after a path map, the file it opened. */
  lemma {:induction false} MapExact(o: Fields, os: Books, h: Handle, offset: nat, length: nat, a: Answers)
    requires Backed(o, os) && Plausible(os, a) && Succeeds(h, offset, length, a)
    ensures var (o', os') := AfterMap(o, os, h, offset, length, a);
            && IsOpen(o') && !o'.internal && o'.file == h && o'.section == a.section.value
            && MappingStart(o') == a.start.value
            && os' == AfterUnmap(o, WithMapping(os, offset, length, a)).1
            && Backed(o, WithMapping(os, offset, length, a)) && Backed(o', os') && os'.faults == os.faults
  {
    AlignDownBelow(offset, a.page);
    UnmapExact(o, WithMapping(os, offset, length, a));
  }

  /** Backing and separation of another object survive a successful map. */
  lemma {:induction false} MapSparesOthers(o: Fields, o': Fields, os: Books, h: Handle, offset: nat, length: nat,
      a: Answers)
    requires Backed(o, os) && Plausible(os, a) && Succeeds(h, offset, length, a)
    requires Backed(o', os) && Apart(o, o') && Apart(o', o)
    ensures var (n, os') := AfterMap(o, os, h, offset, length, a);
            Backed(o', os') && Apart(n, o') && Apart(o', n)
  {
    MapExact(o, os, h, offset, length, a);
    var os1 := WithMapping(os, offset, length, a);
    assert Backed(o', os1);
    UnmapSparesOthers(o, o', os1);
  }

  lemma {:induction false} MapSparesAll(objects: map<nat, Fields>, id: nat, os: Books, h: Handle, offset: nat,
      length: nat, a: Answers)
    requires id in objects && AllBacked(objects, os) && AllApart(objects)
    requires Plausible(os, a) && Succeeds(h, offset, length, a)
    ensures var (o', os') := AfterMap(objects[id], os, h, offset, length, a);
            Spared(objects, id, o', os')
  {
    var (o', os') := AfterMap(objects[id], os, h, offset, length, a);
    forall i | i in objects && i != id
      ensures Backed(objects[i], os') && Apart(o', objects[i]) && Apart(objects[i], o')
    {
      assert Apart(objects[id], objects[i]) && Apart(objects[i], objects[id]);
      MapSparesOthers(objects[id], objects[i], os, h, offset, length, a);
    }
  }

  /** After a successful map the books hold the new mapping and what was not the old object's. */
  lemma {:induction false} MapKeepsRest(o: Fields, os: Books, h: Handle, offset: nat, length: nat, a: Answers)
    requires Backed(o, os) && Plausible(os, a) && Succeeds(h, offset, length, a)
    ensures var (o', os') := AfterMap(o, os, h, offset, length, a);
            Kept(o, o', os, os', AView) && Kept(o, o', os, os', ASection)
  {
    MapExact(o, os, h, offset, length, a);
    UnmapExact(o, WithMapping(os, offset, length, a));
  }

  lemma {:induction false} MapKeeps(s: System, id: nat, h: Handle, offset: nat, length: nat, a: Answers)
    requires Consistent(s) && id in s.objects && Plausible(s.os, a)
    ensures Consistent(Put(s, id, AfterMap(s.objects[id], s.os, h, offset, length, a)))
  {
    var o := s.objects[id];
    if Succeeds(h, offset, length, a) {
      MapExact(o, s.os, h, offset, length, a);
      MapKeepsRest(o, s.os, h, offset, length, a);
      MapSparesAll(s.objects, id, s.os, h, offset, length, a);
      var (o', os') := AfterMap(o, s.os, h, offset, length, a);
      ReplaceKeeps(s, id, o', os');
    } else {
      PutSame(s, id);
    }
  }

  /** Opening or closing a file that no object would close changes no ownership. */
  lemma {:induction false} FilesKeep(s: System, os': Books)
    requires Consistent(s) && os'.views == s.os.views && os'.faults == 0
    requires forall h :: h in s.os.handles && s.os.handles[h] != UserFile
              ==> h in os'.handles && os'.handles[h] == s.os.handles[h]
    requires forall h :: h in os'.handles && os'.handles[h] == Section
              ==> h in s.os.handles && s.os.handles[h] == Section
    ensures Consistent(s.(os := os'))
  {
    BackedByMore(s.objects, s.os, os');
    OwnedByFewer(s.objects, s.os, os', AView);
    OwnedByFewer(s.objects, s.os, os', ASection);
  }

  lemma {:induction false} BackedByMore(objects: map<nat, Fields>, os: Books, os': Books)
    requires AllBacked(objects, os) && os'.views == os.views
    requires forall h :: h in os.handles && os.handles[h] != UserFile
              ==> h in os'.handles && os'.handles[h] == os.handles[h]
    ensures AllBacked(objects, os')
  {
    forall i | i in objects
      ensures Backed(objects[i], os')
    {
      assert Backed(objects[i], os);
    }
  }

  lemma {:induction false} OwnedByFewer(objects: map<nat, Fields>, os: Books, os': Books, k: Kind)
    requires AllOwned(objects, os, k) && forall n :: Listed(os', k, n) ==> Listed(os, k, n)
    ensures AllOwned(objects, os', k)
  {
    forall n | Listed(os', k, n)
      ensures exists i :: i in objects && Owns(objects[i], k, n)
    {
      assert Listed(os, k, n);
    }
  }

  /** The object of a successful map may take over the file that was opened for it. */
  lemma {:induction false} TakeFileSparesAll(objects: map<nat, Fields>, os: Books, id: nat, h: Handle)
    requires AllBacked(objects, os) && AllApart(objects) && id in objects && objects[id].file == h
    requires NoOtherCloses(objects, id, h)
    ensures Spared(objects, id, objects[id].(internal := true), os)
  {
    var o := objects[id].(internal := true);
    forall i | i in objects && i != id
      ensures Backed(objects[i], os) && Apart(o, objects[i]) && Apart(objects[i], o)
    {
      assert Apart(objects[id], objects[i]) && Apart(objects[i], objects[id]);
    }
  }

  predicate NoOtherCloses(objects: map<nat, Fields>, id: nat, h: Handle) {
    forall i :: i in objects && i != id && IsOpen(objects[i]) && objects[i].internal ==> objects[i].file != h
  }

  lemma {:induction false} TakeFileKeeps(s: System, id: nat, h: Handle)
    requires Consistent(s) && id in s.objects && IsOpen(s.objects[id]) && s.objects[id].file == h
    requires h in s.os.handles && s.os.handles[h] == LibraryFile && NoOtherCloses(s.objects, id, h)
    ensures Consistent(System(s.objects[id := s.objects[id].(internal := true)], s.os))
  {
    TakeFileSparesAll(s.objects, s.os, id, h);
    TakeFileKeepsRest(s.objects[id], s.os);
    assert Backed(s.objects[id], s.os);
    ReplaceKeeps(s, id, s.objects[id].(internal := true), s.os);
  }

  lemma {:induction false} TakeFileKeepsRest(o: Fields, os: Books)
    ensures Kept(o, o.(internal := true), os, os, AView) && Kept(o, o.(internal := true), os, os, ASection)
  {
  }

  /** No object would close a handle that has only just been handed out. */
  lemma {:induction false} FreshIsUnowned(objects: map<nat, Fields>, os: Books, id: nat, o: Fields, h: Handle)
    requires AllBacked(objects, os) && FreshHandle(os, h)
    ensures NoOtherCloses(objects[id := o], id, h)
  {
    forall i | i in objects && i != id && IsOpen(objects[i]) && objects[i].internal
      ensures objects[i].file != h
    {
      assert Backed(objects[i], os);
    }
  }

  /** A successful map leaves the file it was given open, if the old object would not close it. */
  lemma {:induction false} MapKeepsFile(o: Fields, os: Books, h: Handle, offset: nat, length: nat, a: Answers)
    requires Backed(o, os) && Plausible(os, a) && Succeeds(h, offset, length, a)
    requires h in os.handles && os.handles[h] == LibraryFile && (IsOpen(o) && o.internal ==> o.file != h)
    ensures var os' := AfterMap(o, os, h, offset, length, a).1;
            h in os'.handles && os'.handles[h] == LibraryFile
  {
    MapExact(o, os, h, offset, length, a);
    UnmapExact(o, WithMapping(os, offset, length, a));
  }

  lemma {:induction false} OpenKeeps(s: System, h: Handle, kind: HandleKind)
    requires Consistent(s) && FreshHandle(s.os, h) && kind != Section
    ensures Consistent(System(s.objects, s.os.(handles := s.os.handles[h := kind])))
  {
    FilesKeep(s, s.os.(handles := s.os.handles[h := kind]));
  }

  lemma {:induction false} UserCloseKeeps(s: System, h: Handle)
    requires Consistent(s) && h in s.os.handles && s.os.handles[h] == UserFile
    ensures Consistent(System(s.objects, s.os.(handles := s.os.handles - {h})))
  {
    FilesKeep(s, s.os.(handles := s.os.handles - {h}));
  }

  /** Once the opened file is mapped, the object may take it over. */
  lemma {:induction false} MapFileTakesOver(objects: map<nat, Fields>, os: Books, id: nat, h: Handle, offset: nat,
      length: nat, a: Answers)
    requires AllBacked(objects, os) && id in objects && Plausible(os, a) && Succeeds(h, offset, length, a)
    requires FreshHandle(os, h) && a.section != Some(h)
    ensures var (o', os') := AfterMap(objects[id], os.(handles := os.handles[h := LibraryFile]), h, offset, length, a);
            && IsOpen(o') && o'.file == h && h in os'.handles && os'.handles[h] == LibraryFile
            && NoOtherCloses(objects[id := o'], id, h)
  {
    var o, os1 := objects[id], os.(handles := os.handles[h := LibraryFile]);
    assert Backed(o, os) && Backed(o, os1);
    MapExact(o, os1, h, offset, length, a);
    MapKeepsFile(o, os1, h, offset, length, a);
    FreshIsUnowned(objects, os, id, AfterMap(o, os1, h, offset, length, a).0, h);
  }

  /**
   * Mapping and unmapping leave the books as giving up the old mapping alone would: a path map also
   * opens the file and closes it again, and a handle map leaves the caller's file as it is.
   */
  lemma {:induction false} MapPathThenUnmap(o: Fields, os: Books, h: Handle, offset: nat, length: nat, a: Answers)
    requires Backed(o, os) && Plausible(os, a) && FreshHandle(os, h) && a.section != Some(h)
    requires Succeeds(h, offset, length, a)
    ensures var (o', os') := AfterMapPath(o, os, Some(h), offset, length, a);
            Backed(o', os') && Owns(o', AFile, h) && AfterUnmap(o', os') == (Default(true), AfterUnmap(o, os).1)
  {
    var os1 := os.(handles := os.handles[h := LibraryFile]);
    var (o', os') := AfterMapPath(o, os, Some(h), offset, length, a);
    assert Backed(o, os1);
    MapExact(o, os1, h, offset, length, a);
    UnmapExact(o, WithMapping(os1, offset, length, a));
    UnmapExact(o', os');
    UnmapExact(o, os);
    assert AfterUnmap(o', os').1.views == AfterUnmap(o, os).1.views;
    assert AfterUnmap(o', os').1.handles == AfterUnmap(o, os).1.handles;
  }

  lemma {:induction false} MapThenUnmap(o: Fields, os: Books, h: Handle, offset: nat, length: nat, a: Answers)
    requires Backed(o, os) && Plausible(os, a) && Succeeds(h, offset, length, a)
    ensures var (o', os') := AfterMap(o, os, h, offset, length, a);
            Backed(o', os') && !Owns(o', AFile, h) && AfterUnmap(o', os') == (Default(false), AfterUnmap(o, os).1)
  {
    var (o', os') := AfterMap(o, os, h, offset, length, a);
    MapExact(o, os, h, offset, length, a);
    UnmapExact(o, WithMapping(os, offset, length, a));
    UnmapExact(o', os');
    UnmapExact(o, os);
    assert AfterUnmap(o', os').1.views == AfterUnmap(o, os).1.views;
    assert AfterUnmap(o', os').1.handles == AfterUnmap(o, os).1.handles;
  }

  /** The object and the books after a path map that found the file. */
  lemma {:induction false} MapPathExact(s: System, id: nat, h: Handle, offset: nat, length: nat, a: Answers)
    requires id in s.objects
    ensures var os1 := s.os.(handles := s.os.handles[h := LibraryFile]);
            var r := AfterMap(s.objects[id], os1, h, offset, length, a);
            var mapped := Put(System(s.objects, os1), id, r);
            Put(s, id, AfterMapPath(s.objects[id], s.os, Some(h), offset, length, a)) ==
            if Succeeds(h, offset, length, a) then
              System(mapped.objects[id := mapped.objects[id].(internal := true)], mapped.os)
            else
              mapped
  {
    var os1 := s.os.(handles := s.os.handles[h := LibraryFile]);
    var o' := AfterMap(s.objects[id], os1, h, offset, length, a).0;
    assert s.objects[id := o'][id := o'.(internal := true)] == s.objects[id := o'.(internal := true)];
  }

  lemma {:induction false} MapFileKeeps(s: System, id: nat, h: Handle, offset: nat, length: nat, a: Answers)
    requires Consistent(s) && id in s.objects && Plausible(s.os, a)
    requires FreshHandle(s.os, h) && a.section != Some(h)
    ensures Consistent(Put(s, id, AfterMapPath(s.objects[id], s.os, Some(h), offset, length, a)))
  {
    var os1 := s.os.(handles := s.os.handles[h := LibraryFile]);
    var r := AfterMap(s.objects[id], os1, h, offset, length, a);
    OpenKeeps(s, h, LibraryFile);
    MapKeeps(System(s.objects, os1), id, h, offset, length, a);
    MapPathExact(s, id, h, offset, length, a);
    if Succeeds(h, offset, length, a) {
      MapFileTakesOver(s.objects, s.os, id, h, offset, length, a);
      TakeFileKeeps(Put(System(s.objects, os1), id, r), id, h);
    }
  }

  function Swapped(objects: map<nat, Fields>, id: nat, other: nat): map<nat, Fields>
    requires id in objects && other in objects
  {
    objects[id := objects[other]][other := objects[id]]
  }

  lemma {:induction false} SwapKeepsOwned(objects: map<nat, Fields>, id: nat, other: nat, os: Books, k: Kind)
    requires id in objects && other in objects && AllOwned(objects, os, k)
    ensures AllOwned(Swapped(objects, id, other), os, k)
  {
    var objects' := Swapped(objects, id, other);
    forall n | Listed(os, k, n)
      ensures exists i :: i in objects' && Owns(objects'[i], k, n)
    {
      var i :| i in objects && Owns(objects[i], k, n);
      assert Owns(objects'[if i == id then other else if i == other then id else i], k, n);
    }
  }

  lemma {:induction false} SwapKeepsApart(objects: map<nat, Fields>, id: nat, other: nat)
    requires id in objects && other in objects && AllApart(objects)
    ensures AllApart(objects[id := objects[other]][other := objects[id]])
  {
    var objects' := objects[id := objects[other]][other := objects[id]];
    forall i, j | i in objects' && j in objects' && i != j
      ensures Apart(objects'[i], objects'[j])
    {
      var i0 := if i == id then other else if i == other then id else i;
      var j0 := if j == id then other else if j == other then id else j;
      assert objects'[i] == objects[i0] && objects'[j] == objects[j0];
      assert Apart(objects[i0], objects[j0]);
    }
  }

  lemma {:induction false} SwapKeeps(s: System, id: nat, other: nat)
    requires Consistent(s) && id in s.objects && other in s.objects
    ensures Consistent(System(Swapped(s.objects, id, other), s.os))
  {
    SwapKeepsOwned(s.objects, id, other, s.os, AView);
    SwapKeepsOwned(s.objects, id, other, s.os, ASection);
    SwapKeepsApart(s.objects, id, other);
    var objects' := s.objects[id := s.objects[other]][other := s.objects[id]];
    forall i | i in objects'
      ensures Backed(objects'[i], s.os)
    {
      assert Backed(s.objects[id], s.os) && Backed(s.objects[other], s.os);
    }
  }

  /** The open objects are the same; closed ones may come, go, or change their stale flag. */
  predicate SameOpen(objects: map<nat, Fields>, objects': map<nat, Fields>) {
    && (forall id :: id in objects && IsOpen(objects[id]) ==> id in objects' && objects'[id] == objects[id])
    && (forall id :: id in objects' ==>
        (id in objects && objects'[id] == objects[id]) || objects'[id] == Default(objects'[id].internal))
  }

  lemma {:induction false} ClosedKeepsOwned(objects: map<nat, Fields>, objects': map<nat, Fields>, os: Books, k: Kind)
    requires SameOpen(objects, objects') && AllOwned(objects, os, k)
    ensures AllOwned(objects', os, k)
  {
    forall n | Listed(os, k, n)
      ensures exists i :: i in objects' && Owns(objects'[i], k, n)
    {
      var i :| i in objects && Owns(objects[i], k, n);
      assert Owns(objects'[i], k, n);
    }
  }

  lemma {:induction false} ClosedKeepsBacked(objects: map<nat, Fields>, objects': map<nat, Fields>, os: Books)
    requires SameOpen(objects, objects') && AllBacked(objects, os) && AllApart(objects)
    ensures AllBacked(objects', os) && AllApart(objects')
  {
    forall i | i in objects'
      ensures Backed(objects'[i], os)
    {
      if i in objects {
        assert Backed(objects[i], os);
      }
    }
    forall i, j | i in objects' && j in objects' && i != j
      ensures Apart(objects'[i], objects'[j])
    {
      if IsOpen(objects'[i]) && IsOpen(objects'[j]) {
        assert Apart(objects[i], objects[j]);
      }
    }
  }

  lemma {:induction false} ClosedKeeps(s: System, objects': map<nat, Fields>)
    requires Consistent(s) && SameOpen(s.objects, objects')
    ensures Consistent(System(objects', s.os))
  {
    ClosedKeepsBacked(s.objects, objects', s.os);
    ClosedKeepsOwned(s.objects, objects', s.os, AView);
    ClosedKeepsOwned(s.objects, objects', s.os, ASection);
  }

  /** Moving into a closed or new object is a swap, between adding a closed object and leaving one behind. */
  lemma {:induction false} MoveIsSwap(objects: map<nat, Fields>, id: nat, from: nat, left: Fields)
    requires from in objects && id != from && left == Default(left.internal)
    requires id in objects ==> !IsOpen(objects[id])
    ensures SameOpen(objects, objects[id := Default(false)])
    ensures SameOpen(Swapped(objects[id := Default(false)], id, from), objects[id := objects[from]][from := left])
  {
  }

  lemma {:induction false} SwapBetweenKeeps(s: System, added: map<nat, Fields>, id: nat, from: nat,
      left: map<nat, Fields>)
    requires Consistent(s) && SameOpen(s.objects, added) && id in added && from in added
    requires SameOpen(Swapped(added, id, from), left)
    ensures Consistent(System(left, s.os))
  {
    ClosedKeeps(s, added);
    SwapKeeps(System(added, s.os), id, from);
    ClosedKeeps(System(Swapped(added, id, from), s.os), left);
  }

  lemma {:induction false} MoveOutKeeps(s: System, id: nat, from: nat, left: Fields)
    requires Consistent(s) && from in s.objects && id != from && left == Default(left.internal)
    requires id in s.objects ==> !IsOpen(s.objects[id])
    ensures Consistent(System(s.objects[id := s.objects[from]][from := left], s.os))
  {
    MoveIsSwap(s.objects, id, from, left);
    SwapBetweenKeeps(s, s.objects[id := Default(false)], id, from, s.objects[id := s.objects[from]][from := left]);
  }

  lemma {:induction false} RemovedIsClosed(objects: map<nat, Fields>, id: nat, left: Fields)
    requires id in objects && !IsOpen(left)
    ensures SameOpen(objects[id := left], objects - {id})
  {
  }

  lemma {:induction false} DestroyKeeps(s: System, id: nat)
    requires Consistent(s) && id in s.objects
    ensures Consistent(System(s.objects - {id}, AfterUnmap(s.objects[id], s.os).1))
  {
    var left := AfterUnmap(s.objects[id], s.os).0;
    UnmapKeeps(s, id);
    UnmapCloses(s.objects[id], s.os);
    RemovedIsClosed(s.objects, id, left);
    ClosedKeeps(Put(s, id, AfterUnmap(s.objects[id], s.os)), s.objects - {id});
  }

  lemma {:induction false} UnmapCloses(o: Fields, os: Books)
    ensures !IsOpen(AfterUnmap(o, os).0)
  {
  }

  lemma {:induction false} MoveAssignKeeps(s: System, id: nat, from: nat)
    requires Consistent(s) && id in s.objects && from in s.objects && id != from
    ensures Consistent(System(s.objects[id := s.objects[from]][from := Default(false)],
                              AfterUnmap(s.objects[id], s.os).1))
  {
    var (left, os) := AfterUnmap(s.objects[id], s.os);
    UnmapKeeps(s, id);
    UnmapCloses(s.objects[id], s.os);
    var s1 := System(s.objects[id := left], os);
    MoveOutKeeps(s1, id, from, Default(false));
    assert s1.objects[id := s1.objects[from]] == s.objects[id := s.objects[from]];
  }

  lemma {:induction false} ConstructKeeps(s: System, id: nat, garbage: bool)
    requires Consistent(s) && id !in s.objects
    ensures Consistent(System(s.objects[id := Default(garbage)], s.os))
  {
    ClosedKeeps(s, s.objects[id := Default(garbage)]);
  }

  lemma {:induction false} MoveConstructKeeps(s: System, id: nat, from: nat)
    requires Consistent(s) && id !in s.objects && from in s.objects
    ensures Consistent(System(s.objects[id := s.objects[from]][from := MovedFrom(s.objects[from])], s.os))
  {
    MoveOutKeeps(s, id, from, MovedFrom(s.objects[from]));
  }

  lemma {:induction false} PutSame(s: System, id: nat)
    requires id in s.objects
    ensures Put(s, id, (s.objects[id], s.os)) == s
  {
    assert s.objects[id := s.objects[id]] == s.objects;
  }

  lemma {:induction false} NextKeeps(s: System, op: Op)
    requires Consistent(s)
    ensures Consistent(Next(s, op))
  {
    if Enabled(s, op) {
      match op {
        case Construct(id, garbage) => ConstructKeeps(s, id, garbage);
        case UserOpen(h) => OpenKeeps(s, h, UserFile);
        case UserClose(h) => UserCloseKeeps(s, h);
        case Map(id, h, offset, length, a) => MapKeeps(s, id, h, offset, length, a);
        case MapFile(id, found, offset, length, a) =>
          if found.Some? {
            MapFileKeeps(s, id, found.value, offset, length, a);
          } else {
            PutSame(s, id);
          }
        case UnmapObject(id) => UnmapKeeps(s, id);
        case MoveConstruct(id, from) => MoveConstructKeeps(s, id, from);
        case MoveAssign(id, from) =>
          if id != from {
            MoveAssignKeeps(s, id, from);
          }
        case Swap(id, other) => SwapKeeps(s, id, other);
        case Destroy(id) => DestroyKeeps(s, id);
      }
    }
  }

  /**
   * Single ownership: after any sequence of operations every live mapping and every mapping handle
   * belongs to exactly one object, with the start and length it was mapped with, and nothing has been
   * unmapped or closed twice or closed on the user's behalf.
   */
  lemma {:induction false} SingleOwnership(ops: seq<Op>)
    ensures Consistent(Run(ops))
  {
    if ops != [] {
      SingleOwnership(ops[..|ops| - 1]);
      NextKeeps(Run(ops[..|ops| - 1]), ops[|ops| - 1]);
    }
  }

  /** The object is open, and its mapping starts at n. */
  predicate Holds(o: Fields, n: nat) {
    o.file != -1 && o.data + o.length == n + o.mapped
  }

  /**
   * Spelled out: after any operations nothing was asked that no owner may ask, and every live mapping is the
   * whole mapping of one open object and of no other.
   */
  lemma {:induction false} MappingsOwnedOnce(ops: seq<Op>, n: nat)
    ensures Run(ops).os.faults == 0
    ensures n in Run(ops).os.views ==>
              var objects := Run(ops).objects;
              exists id :: && id in objects && Holds(objects[id], n)
                           && objects[id].mapped == Run(ops).os.views[n].length
                           && forall id' :: id' in objects && id' != id ==> !Holds(objects[id'], n)
  {
    SingleOwnership(ops);
    var s := Run(ops);
    if n in s.os.views {
      assert Listed(s.os, AView, n);
      var id :| id in s.objects && Owns(s.objects[id], AView, n);
      OwnerHolds(s, id, n);
      forall id' | id' in s.objects && id' != id
        ensures !Holds(s.objects[id'], n)
      {
        assert Apart(s.objects[id], s.objects[id']);
        OwnerHolds(s, id', n);
      }
    }
  }

  lemma {:induction false} OwnerHolds(s: System, id: nat, n: nat)
    requires Consistent(s) && id in s.objects
    ensures Holds(s.objects[id], n) <==> Owns(s.objects[id], AView, n)
    ensures Holds(s.objects[id], n) ==> n in s.os.views && s.objects[id].mapped == s.os.views[n].length
  {
    assert Backed(s.objects[id], s.os);
  }

  // ---------- files opened by path ----------

  lemma {:induction false} UnmapKeepsFiles(objects: map<nat, Fields>, id: nat, os: Books)
    requires id in objects && Backed(objects[id], os) && AllOwned(objects, os, AFile)
    ensures AllOwned(objects[id := AfterUnmap(objects[id], os).0], AfterUnmap(objects[id], os).1, AFile)
  {
    UnmapExact(objects[id], os);
    ReplaceKeepsOwned(objects, id, AfterUnmap(objects[id], os).0, os, AfterUnmap(objects[id], os).1, AFile);
  }

  lemma {:induction false} MapKeepsFiles(objects: map<nat, Fields>, id: nat, os: Books, h: Handle, offset: nat,
      length: nat, a: Answers)
    requires id in objects && Backed(objects[id], os) && AllOwned(objects, os, AFile) && Plausible(os, a)
    ensures var (o', os') := AfterMap(objects[id], os, h, offset, length, a);
            AllOwned(objects[id := o'], os', AFile)
  {
    var (o', os') := AfterMap(objects[id], os, h, offset, length, a);
    if Succeeds(h, offset, length, a) {
      MapExact(objects[id], os, h, offset, length, a);
      UnmapExact(objects[id], WithMapping(os, offset, length, a));
    }
    ReplaceKeepsOwned(objects, id, o', os, os', AFile);
  }

  lemma {:induction false} MapPathKeepsFiles(objects: map<nat, Fields>, id: nat, os: Books, h: Handle, offset: nat,
      length: nat, a: Answers)
    requires id in objects && Backed(objects[id], os) && AllOwned(objects, os, AFile) && Plausible(os, a)
    requires FreshHandle(os, h) && a.section != Some(h) && Succeeds(h, offset, length, a)
    ensures var (o', os') := AfterMapPath(objects[id], os, Some(h), offset, length, a);
            AllOwned(objects[id := o'], os', AFile)
  {
    var o, os1 := objects[id], os.(handles := os.handles[h := LibraryFile]);
    var (o', os') := AfterMapPath(o, os, Some(h), offset, length, a);
    assert Backed(o, os1);
    MapExact(o, os1, h, offset, length, a);
    UnmapExact(o, WithMapping(os1, offset, length, a));
    ReplaceKeepsOwned(objects, id, o', os, os', AFile);
  }

  /** A path map that opens the file and then cannot map it leaves a file open that no object will close. */
  lemma {:induction false} FailedPathLeaks(objects: map<nat, Fields>, id: nat, os: Books, h: Handle, offset: nat,
      length: nat, a: Answers)
    requires id in objects && AllBacked(objects, os) && FreshHandle(os, h) && !Succeeds(h, offset, length, a)
    ensures var (o', os') := AfterMapPath(objects[id], os, Some(h), offset, length, a);
            !AllOwned(objects[id := o'], os', AFile)
  {
    var (o', os') := AfterMapPath(objects[id], os, Some(h), offset, length, a);
    var objects' := objects[id := o'];
    assert Listed(os', AFile, h);
    forall i | i in objects'
      ensures !Owns(objects'[i], AFile, h)
    {
      assert objects'[i] == objects[i] && Backed(objects[i], os);
    }
  }

  lemma {:induction false} MoveOutKeepsFiles(objects: map<nat, Fields>, os: Books, id: nat, from: nat, left: Fields)
    requires AllOwned(objects, os, AFile) && from in objects && id != from && left == Default(left.internal)
    requires id in objects ==> !IsOpen(objects[id])
    ensures AllOwned(objects[id := objects[from]][from := left], os, AFile)
  {
    MoveIsSwap(objects, id, from, left);
    var added := objects[id := Default(false)];
    ClosedKeepsOwned(objects, added, os, AFile);
    SwapKeepsOwned(added, id, from, os, AFile);
    ClosedKeepsOwned(Swapped(added, id, from), objects[id := objects[from]][from := left], os, AFile);
  }

  lemma {:induction false} MoveAssignKeepsFiles(objects: map<nat, Fields>, os: Books, id: nat, from: nat)
    requires AllOwned(objects, os, AFile) && id in objects && from in objects && id != from && Backed(objects[id], os)
    ensures AllOwned(objects[id := objects[from]][from := Default(false)], AfterUnmap(objects[id], os).1, AFile)
  {
    var (left, os') := AfterUnmap(objects[id], os);
    UnmapKeepsFiles(objects, id, os);
    UnmapCloses(objects[id], os);
    MoveOutKeepsFiles(objects[id := left], os', id, from, Default(false));
    assert objects[id := left][id := objects[from]] == objects[id := objects[from]];
  }

  lemma {:induction false} DestroyKeepsFiles(objects: map<nat, Fields>, os: Books, id: nat)
    requires AllOwned(objects, os, AFile) && id in objects && Backed(objects[id], os)
    ensures AllOwned(objects - {id}, AfterUnmap(objects[id], os).1, AFile)
  {
    var (left, os') := AfterUnmap(objects[id], os);
    UnmapKeepsFiles(objects, id, os);
    UnmapCloses(objects[id], os);
    RemovedIsClosed(objects, id, left);
    ClosedKeepsOwned(objects[id := left], objects - {id}, os', AFile);
  }

  /** The path was opened, and mapping it failed. */
  predicate FailsAfterOpening(op: Op) {
    op.MapFile? && op.found.Some? && !Succeeds(op.found.value, op.offset, op.length, op.answers)
  }

  /** Every operation keeps the opened files owned, except a path map that fails after opening, which never does. */
  lemma {:induction false} FilesOwnedUnlessMapFails(s: System, op: Op)
    requires Consistent(s) && AllOwned(s.objects, s.os, AFile) && Enabled(s, op)
    ensures AllOwned(Next(s, op).objects, Next(s, op).os, AFile) <==> !FailsAfterOpening(op)
  {
    match op {
      case Construct(id, garbage) => ClosedKeepsOwned(s.objects, s.objects[id := Default(garbage)], s.os, AFile);
      case UserOpen(h) => OwnedByFewer(s.objects, s.os, Next(s, op).os, AFile);
      case UserClose(h) => OwnedByFewer(s.objects, s.os, Next(s, op).os, AFile);
      case Map(id, h, offset, length, a) => MapKeepsFiles(s.objects, id, s.os, h, offset, length, a);
      case MapFile(id, found, offset, length, a) =>
        if found.None? {
          PutSame(s, id);
        } else if Succeeds(found.value, offset, length, a) {
          MapPathKeepsFiles(s.objects, id, s.os, found.value, offset, length, a);
        } else {
          FailedPathLeaks(s.objects, id, s.os, found.value, offset, length, a);
        }
      case UnmapObject(id) => UnmapKeepsFiles(s.objects, id, s.os);
      case MoveConstruct(id, from) => MoveOutKeepsFiles(s.objects, s.os, id, from, MovedFrom(s.objects[from]));
      case MoveAssign(id, from) =>
        if id != from {
          MoveAssignKeepsFiles(s.objects, s.os, id, from);
        }
      case Swap(id, other) => SwapKeepsOwned(s.objects, id, other, s.os, AFile);
      case Destroy(id) => DestroyKeepsFiles(s.objects, s.os, id);
    }
  }

  lemma {:induction false} RunOwnsFiles(ops: seq<Op>)
    requires forall op :: op in ops ==> !FailsAfterOpening(op)
    ensures AllOwned(Run(ops).objects, Run(ops).os, AFile)
  {
    if ops != [] {
      var s, op := Run(ops[..|ops| - 1]), ops[|ops| - 1];
      RunOwnsFiles(ops[..|ops| - 1]);
      SingleOwnership(ops[..|ops| - 1]);
      if Enabled(s, op) {
        FilesOwnedUnlessMapFails(s, op);
      }
    }
  }

  /** When all objects are gone and no path map failed after opening, only the user's own handles are open. */
  lemma {:induction false} NoHandleLeaks(ops: seq<Op>)
    requires Run(ops).objects == map[] && forall op :: op in ops ==> !FailsAfterOpening(op)
    ensures forall h :: h in Run(ops).os.handles ==> Run(ops).os.handles[h] == UserFile
  {
    SingleOwnership(ops);
    RunOwnsFiles(ops);
    NothingToOwn(Run(ops).os, ASection);
    NothingToOwn(Run(ops).os, AFile);
    forall h | h in Run(ops).os.handles
      ensures Run(ops).os.handles[h] == UserFile
    {
      assert !Listed(Run(ops).os, ASection, h) && !Listed(Run(ops).os, AFile, h);
    }
  }

  /** Where there are no objects, everything owned is nothing. */
  lemma {:induction false} NothingToOwn(os: Books, k: Kind)
    requires AllOwned(map[], os, k)
    ensures forall n :: !Listed(os, k, n)
  {
  }

  /** When all objects are gone, nothing is mapped any more and no mapping handle is open. */
  lemma {:induction false} NothingLeaks(ops: seq<Op>)
    requires Run(ops).objects == map[]
    ensures Run(ops).os.views == map[]
    ensures forall h :: h in Run(ops).os.handles ==> Run(ops).os.handles[h] != Section
  {
    SingleOwnership(ops);
    var os := Run(ops).os;
    NothingToOwn(os, AView);
    NothingToOwn(os, ASection);
    forall start | start in os.views
      ensures Listed(os, AView, start)
    {
    }
    assert os.views.Keys == {};
    forall h | h in os.handles
      ensures os.handles[h] != Section
    {
      assert !Listed(os, ASection, h);
    }
  }

  /** The books still hold this handle as the user's. */
  predicate UserHolds(os: Books, h: Handle) {
    h in os.handles && os.handles[h] == UserFile
  }

  lemma {:induction false} UnmapSparesUser(o: Fields, os: Books, h: Handle)
    requires Backed(o, os) && UserHolds(os, h)
    ensures UserHolds(AfterUnmap(o, os).1, h)
  {
    UnmapExact(o, os);
  }

  lemma {:induction false} MapSparesUser(o: Fields, os: Books, g: Handle, offset: nat, length: nat, a: Answers,
      h: Handle)
    requires Backed(o, os) && UserHolds(os, h) && Plausible(os, a)
    ensures UserHolds(AfterMap(o, os, g, offset, length, a).1, h)
  {
    if Succeeds(g, offset, length, a) {
      MapExact(o, os, g, offset, length, a);
      UnmapSparesUser(o, WithMapping(os, offset, length, a), h);
    }
  }

  lemma {:induction false} MapPathSparesUser(o: Fields, os: Books, found: Handle, offset: nat, length: nat, a: Answers,
      h: Handle)
    requires Backed(o, os) && UserHolds(os, h) && Plausible(os, a) && FreshHandle(os, found) && a.section != Some(found)
    ensures UserHolds(AfterMapPath(o, os, Some(found), offset, length, a).1, h)
  {
    MapSparesUser(o, os.(handles := os.handles[found := LibraryFile]), found, offset, length, a, h);
  }

  /** From a consistent state the library never closes a handle the user opened. */
  lemma {:induction false} UserHandlesSurvive(s: System, op: Op, h: Handle)
    requires Consistent(s) && UserHolds(s.os, h) && op != UserClose(h)
    ensures UserHolds(Next(s, op).os, h)
  {
    if Enabled(s, op) {
      match op {
        case Construct(_, _) =>
        case UserOpen(_) =>
        case UserClose(_) =>
        case Map(id, g, offset, length, a) => MapSparesUser(s.objects[id], s.os, g, offset, length, a, h);
        case MapFile(id, found, offset, length, a) =>
          if found.Some? {
            MapPathSparesUser(s.objects[id], s.os, found.value, offset, length, a, h);
          }
        case UnmapObject(id) => UnmapSparesUser(s.objects[id], s.os, h);
        case MoveConstruct(_, _) =>
        case MoveAssign(id, _) => UnmapSparesUser(s.objects[id], s.os, h);
        case Swap(_, _) =>
        case Destroy(id) => UnmapSparesUser(s.objects[id], s.os, h);
      }
    }
  }

  lemma {:induction false} RunSnoc(ops: seq<Op>, op: Op)
    ensures Run(ops + [op]) == Next(Run(ops), op)
  {
    assert (ops + [op])[..|ops|] == ops;
  }

  /** Over a whole run: what the user opened and did not close is still open, as the user's. */
  lemma {:induction false} RunSparesUser(ops: seq<Op>, later: seq<Op>, h: Handle)
    requires h in Run(ops).os.handles && Run(ops).os.handles[h] == UserFile && UserClose(h) !in later
    ensures h in Run(ops + later).os.handles && Run(ops + later).os.handles[h] == UserFile
    decreases |later|
  {
    if later == [] {
      assert ops + later == ops;
    } else {
      var init, last := later[..|later| - 1], later[|later| - 1];
      RunSparesUser(ops, init, h);
      SingleOwnership(ops + init);
      UserHandlesSurvive(Run(ops + init), last, h);
      RunSnoc(ops + init, last);
      assert ops + later == (ops + init) + [last];
    }
  }

  /**
   * File-position coherence: whatever the page size and the offset, byte k of a mapped object is
   * file byte offset + k, all requested bytes are mapped, and the start handed to the system on unmap
   * is the one it returned.
   */
  lemma {:induction false} MappedBytesArePositioned(o: Fields, os: Books, h: Handle, offset: nat, length: nat,
      a: Answers, k: nat)
    requires Backed(o, os) && Plausible(os, a) && Succeeds(h, offset, length, a)
    requires k < Requested(offset, length, a.fileSize.value)
    ensures var (o', os') := AfterMap(o, os, h, offset, length, a);
            && o'.length == Requested(offset, length, a.fileSize.value)
            && MappingStart(o') == a.start.value
            && a.start.value in os'.views
            && var m := os'.views[a.start.value];
               && m.position % a.page == 0
               && a.start.value <= o'.data && o'.data + o'.length <= a.start.value + m.length
               && m.position + (o'.data + k - a.start.value) == offset + k
  {
    AlignDownBelow(offset, a.page);
    MapExact(o, os, h, offset, length, a);
    UnmapExact(o, WithMapping(os, offset, length, a));
    AlignDownMultiple(offset / a.page, a.page);
  }

  lemma {:induction false} AtLeastOnce(d: int, page: PageSize)
    requires d >= 1
    ensures d * page >= page
  {
    assert (d - 1) * page >= 0;
    assert d * page == (d - 1) * page + page;
  }

  lemma {:induction false} SmallMultiple(d: int, page: PageSize, r: nat)
    requires d * page == r < page
    ensures r == 0
  {
    assert (-d) * page == -(d * page);
    if d >= 1 {
      AtLeastOnce(d, page);
    }
    if d <= -1 {
      AtLeastOnce(-d, page);
    }
  }

  lemma {:induction false} AlignDownMultiple(q: nat, page: PageSize)
    ensures q * page % page == 0
  {
    var k, r := q * page / page, q * page % page;
    assert q * page == k * page + r;
    assert (q - k) * page == q * page - k * page;
    SmallMultiple(q - k, page, r);
  }

  /**
   * Mapping an object again leaves the file it is mapped from open, unless the object was already
   * mapped from that file and had opened it itself: giving up the old mapping then closes it.
   */
  lemma {:induction false} RemapKeepsFileOpen(o: Fields, os: Books, h: Handle, offset: nat, length: nat, a: Answers)
    requires Backed(o, os) && Plausible(os, a) && Succeeds(h, offset, length, a)
    requires h in os.handles && os.handles[h] != Section
    ensures h in AfterMap(o, os, h, offset, length, a).1.handles <==> !(IsOpen(o) && o.internal && o.file == h)
  {
    MapExact(o, os, h, offset, length, a);
    UnmapExact(o, WithMapping(os, offset, length, a));
  }

  // ---------- basic_mmap as an object ----------

  class OperatingSystem {
    var books: Books
  }

  class BasicMmap {
    const os: OperatingSystem
    var data: nat
    var length: nat
    var mapped: nat
    var file: Handle
    var section: Handle
    var internal: bool

    function View(): Fields
      reads this
    {
      Fields(data, length, mapped, file, section, internal)
    }

    /** The default member initialisers leave is_handle_internal_ as it was in memory. */
    constructor (os: OperatingSystem, garbage: bool)
      ensures this.os == os && View() == Fields(0, 0, 0, -1, -1, garbage)
    {
      this.os := os;
      data, length, mapped, file, section, internal := 0, 0, 0, INVALID, INVALID, garbage;
    }

    constructor Moved(other: BasicMmap)
      modifies other
      ensures os == other.os && View() == old(other.View())
      ensures other.View() == Fields(0, 0, 0, -1, -1, old(other.internal))
    {
      os := other.os;
      data, length, mapped := other.data, other.length, other.mapped;
      file, section, internal := other.file, other.section, other.internal;
      new;
      other.data := 0;
      other.length, other.mapped := 0, 0;
      other.file := INVALID;
      other.section := INVALID;
    }

    method Unmap()
      modifies this, os
      ensures (View(), os.books) == AfterUnmap(old(View()), old(os.books))
    {
      if file == INVALID {
        return;
      }
      if section != INVALID {
        os.books := UnmapView(os.books, MappingStart(View()), mapped);
        os.books := CloseHandle(os.books, section, Section);
      }
      if internal {
        os.books := CloseHandle(os.books, file, LibraryFile);
      }
      data := 0;
      length, mapped := 0, 0;
      file := INVALID;
      section := INVALID;
    }

    /** The returned flag is the error code: false when the object was left alone. */
    method Map(h: Handle, offset: nat, n: nat, a: Answers) returns (ok: bool)
      modifies this, os
      ensures (View(), os.books) == AfterMap(old(View()), old(os.books), h, offset, n, a)
      ensures ok <==>
                && h != -1 && a.fileSize.Some? && offset + n <= a.fileSize.value
                && a.section.Some? && a.start.Some?
    {
      if h == INVALID || a.fileSize.None? || offset + n > a.fileSize.value {
        return false;
      }
      if a.section.None? || a.start.None? {
        return false;
      }
      var wanted := if n == 0 then a.fileSize.value - offset else n;
      var aligned := offset / a.page * a.page;
      AlignDownBelow(offset, a.page);
      var whole := offset - aligned + wanted;
      os.books := os.books.(views := os.books.views[a.start.value := Mapping(whole, aligned)],
                            handles := os.books.handles[a.section.value := Section]);
      Unmap();
      file := h;
      internal := false;
      data := a.start.value + offset - aligned;
      length := wanted;
      mapped := whole;
      section := a.section.value;
      return true;
    }

    /** `found` is what opening the path gave. */
    method MapPath(found: Option<Handle>, offset: nat, n: nat, a: Answers)
      modifies this, os
      ensures (View(), os.books) == AfterMapPath(old(View()), old(os.books), found, offset, n, a)
    {
      if found.None? {
        return;
      }
      os.books := os.books.(handles := os.books.handles[found.value := LibraryFile]);
      var ok := Map(found.value, offset, n, a);
      if ok {
        internal := true;
      }
    }

    method MoveAssign(other: BasicMmap)
      requires other.os == os
      modifies this, other, os
      ensures this == other ==> View() == old(View()) && os.books == old(os.books)
      ensures this != other ==>
                && os.books == AfterUnmap(old(View()), old(os.books)).1
                && View() == old(other.View()) && other.View() == Fields(0, 0, 0, -1, -1, false)
    {
      if this == other {
        return;
      }
      Unmap();
      data, length, mapped := other.data, other.length, other.mapped;
      file, section, internal := other.file, other.section, other.internal;
      other.data := 0;
      other.length, other.mapped := 0, 0;
      other.file := INVALID;
      other.section := INVALID;
      other.internal := false;
    }

    method Swap(other: BasicMmap)
      modifies this, other
      ensures View() == old(other.View()) && other.View() == old(View())
    {
      if this != other {
        data, other.data := other.data, data;
        file, other.file := other.file, file;
        section, other.section := other.section, section;
        length, other.length := other.length, length;
        mapped, other.mapped := other.mapped, mapped;
        internal, other.internal := other.internal, internal;
      }
    }
  }
}
