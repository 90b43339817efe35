/**
 * A whole session on the objects: a first scan, then next scans and updates in any order, all over one
 * snapshot file. What the objects show is what the run theorems speak about.
 */
module Sessions {
  import opened Bytes
  import opened Comparator
  import opened Refusals
  import opened ScanEngine
  import opened SnapshotStore
  import opened WholeRun
  import L = ListTheorems
  import M = ScanModel
  import W = RegionWalk

  /** One call of first_scan or next_scan, with what the system answers while it runs. */
  datatype Request = Request(space: W.AddressSpace, first: nat, second: nat, flags: W.Flags, target: M.Target,
      query: Query, copied: nat -> nat, answers: Answers)
  {
    /** The regions get_regions returns. */
    function Found(): seq<M.Region> {
      ToRegions(W.Regions(space, first, second, flags))
    }
  }

  /** What the user does with the list in hand. */
  datatype Command = Again(request: Request) | Renew(index: nat, target: M.Target, copied: nat)

  /** The first scan as the run theorems see it: a region that gets no block cannot be read. */
  function Opening(r: Request, room: Room): Pass {
    Pass(r.Found(), Refusing(r.target, RefusedBases(room, r.Found(), r.answers)), r.query)
  }

  function OpeningRoom(r: Request, room: Room): Room {
    RoomAfter(room, r.Found(), r.answers, |r.Found()|)
  }

  /** A next scan over the list in hand. */
  function Further(r: Request, scans: seq<M.Scan>, room: Room): Pass {
    Pass(r.Found(), Refusing(r.target, WalkRefused(r.Found(), scans, 0, 0, room, r.answers)), r.query)
  }

  /** Where a session stands: the steps so far as a run, and the room left in the file. */
  datatype Standing = Standing(steps: seq<Step>, room: Room)

  ghost function ListOf(opening: Request, start: Room, at: Standing): seq<M.Scan> {
    RunSteps(Opening(opening, start), at.steps)
  }

  ghost function Advance(opening: Request, start: Room, at: Standing, c: Command): Standing {
    match c
    case Renew(k, t, copied) => at.(steps := at.steps + [Refresh(k, t, copied)])
    case Again(r) =>
      var scans := ListOf(opening, start, at);
      Standing(at.steps + [Narrow(Further(r, scans, at.room))], WalkRoom(r.Found(), scans, 0, 0, at.room, r.answers))
  }

  ghost function After(opening: Request, start: Room, commands: seq<Command>): Standing {
    if commands == [] then
      Standing([], OpeningRoom(opening, start))
    else
      Advance(opening, start, After(opening, start, commands[..|commands| - 1]), commands[|commands| - 1])
  }

  /** No allocation of this command is undefined in the code. */
  ghost predicate Defined(opening: Request, start: Room, at: Standing, c: Command) {
    c.Again? ==> WalkNeverCrashes(c.request.Found(), ListOf(opening, start, at), 0, 0, at.room, c.request.answers)
  }

  ghost predicate AlwaysDefined(opening: Request, start: Room, commands: seq<Command>) {
    && NeverCrashes(start, opening.Found(), opening.answers)
    && forall n :: 0 <= n < |commands| ==> Defined(opening, start, After(opening, start, commands[..n]), commands[n])
  }

  /** One element type throughout. */
  ghost predicate OneElement(opening: Request, commands: seq<Command>) {
    forall c :: c in commands && c.Again? ==> c.request.query.elem == opening.query.elem
  }

  // ---------- a file that is coherent to begin with ----------

  ghost predicate Dependable(opening: Request, commands: seq<Command>) {
    && AllTogether(opening.answers)
    && forall c :: c in commands && c.Again? ==> AllTogether(c.request.answers)
  }

  lemma {:induction false} FoundIsSized(r: Request)
    ensures Sized(r.Found()) && L.AscendingRegions(r.Found())
  {
    RegionsAscend(r.space, r.first, r.second, r.flags);
  }

  lemma {:induction false} StaysLevel(opening: Request, start: Room, commands: seq<Command>)
    requires Level(start) && Dependable(opening, commands)
    ensures Level(After(opening, start, commands).room)
    decreases |commands|
  {
    if commands == [] {
      FoundIsSized(opening);
      TogetherRoom(start, opening.Found(), opening.answers, |opening.Found()|);
    } else {
      var init, c := commands[..|commands| - 1], commands[|commands| - 1];
      StaysLevel(opening, start, init);
      if c.Again? {
        assert c in commands;
        LevelDefined(opening, start, After(opening, start, init), c);
      }
    }
  }

  lemma {:induction false} LevelDefined(opening: Request, start: Room, at: Standing, c: Command)
    requires Level(at.room) && (c.Again? ==> AllTogether(c.request.answers))
    ensures Defined(opening, start, at, c) && Level(Advance(opening, start, at, c).room)
  {
    if c.Again? {
      FoundIsSized(c.request);
      TogetherNextScan(c.request.Found(), ListOf(opening, start, at), 0, 0, at.room, c.request.answers);
    }
  }

  /**
   * From a coherent file, as long as extending and mapping succeed or fail together, no allocation of a
   * session is undefined, and the file stays level.
   */
  lemma {:induction false} CoherentSession(f: File, opening: Request, commands: seq<Command>)
    requires Coherent(f) && forall b: nat :: opening.answers(b).extended == opening.answers(b).mapped
    requires forall c, b: nat :: c in commands && c.Again? ==>
               c.request.answers(b).extended == c.request.answers(b).mapped
    ensures AlwaysDefined(opening, RoomOf(f), commands) && Level(After(opening, RoomOf(f), commands).room)
  {
    var start := RoomOf(f);
    assert Dependable(opening, commands);
    CoherentIsLevel(f);
    FoundIsSized(opening);
    TogetherFirstScan(start, opening.Found(), opening.answers);
    forall n | 0 <= n < |commands|
      ensures Defined(opening, start, After(opening, start, commands[..n]), commands[n])
    {
      assert commands[n] in commands;
      StaysLevel(opening, start, commands[..n]);
      LevelDefined(opening, start, After(opening, start, commands[..n]), commands[n]);
    }
    StaysLevel(opening, start, commands);
  }

  // ---------- whatever the alignment, an entry is an element of its buffer ----------

  lemma {:induction false} SearchInBounds(bytes: seq<Byte>, q: Query, n: nat, e: M.Entry)
    requires Stride(n, M.Width(q)) <= |bytes| && e in M.Search(bytes, q, n)
    ensures Stride(e.index, M.Width(q)) + M.Width(q) <= |bytes|
    decreases n
  {
    StrideNext(n - 1, M.Width(q));
    if e in M.Search(bytes, q, n - 1) {
      SearchInBounds(bytes, q, n - 1, e);
    }
  }

  lemma {:induction false} StrideInBounds(p: M.Scan, r: M.Region, bytes: seq<Byte>, q: Query, i: nat, e: M.Entry)
    requires |bytes| == r.size && Stride(i, M.Width(q)) + M.Width(q) <= M.OverlapBytes(r, p)
    requires e in M.RemapStride(p, r, bytes, q, i)
    ensures Stride(e.index, M.Width(q)) + M.Width(q) <= r.size
  {
    CountFits(M.OverlapStart(r, p) - r.base + Stride(i, M.Width(q)), M.Width(q));
  }

  lemma {:induction false} RawInBounds(p: M.Scan, r: M.Region, bytes: seq<Byte>, q: Query, n: nat, e: M.Entry)
    requires |bytes| == r.size && Stride(n, M.Width(q)) <= M.OverlapBytes(r, p) && e in M.RemapRaw(p, r, bytes, q, n)
    ensures Stride(e.index, M.Width(q)) + M.Width(q) <= r.size
    decreases n
  {
    StrideNext(n - 1, M.Width(q));
    if e in M.RemapRaw(p, r, bytes, q, n - 1) {
      RawInBounds(p, r, bytes, q, n - 1, e);
    } else {
      StrideInBounds(p, r, bytes, q, n - 1, e);
    }
  }

  lemma {:induction false} EntriesInBounds(p: M.Scan, r: M.Region, bytes: seq<Byte>, q: Query, es: seq<M.Entry>,
      bySnapshot: bool, e: M.Entry)
    requires |bytes| == r.size && e in M.RemapEntries(p, r, bytes, q, es, bySnapshot)
    ensures Stride(e.index, M.Width(q)) + M.Width(q) <= r.size
    decreases |es|
  {
    if e in M.RemapEntries(p, r, bytes, q, es[..|es| - 1], bySnapshot) {
      EntriesInBounds(p, r, bytes, q, es[..|es| - 1], bySnapshot, e);
    }
  }

  ghost predicate AllInBounds(scans: seq<M.Scan>, es: ElemSize) {
    forall s :: s in scans ==> M.InBounds(s, es)
  }

  lemma {:induction false} RegionInBounds(r: M.Region, t: M.Target, q: Query)
    ensures AllInBounds(M.ScanRegion(r, t, q), M.Width(q))
  {
    var bytes := M.ReadRegion(t, r);
    CountFits(|bytes|, M.Width(q));
    forall e | e in M.Search(bytes, q, Count(|bytes|, M.Width(q)))
      ensures Stride(e.index, M.Width(q)) + M.Width(q) <= |bytes|
    {
      SearchInBounds(bytes, q, Count(|bytes|, M.Width(q)), e);
    }
  }

  lemma {:induction false} PairInBounds(r: M.Region, p: M.Scan, t: M.Target, q: Query)
    ensures AllInBounds(M.ScanPair(r, p, t, q), M.Width(q))
  {
    var bytes := M.ReadRegion(t, r);
    CountFits(M.OverlapBytes(r, p), M.Width(q));
    forall e | e in M.Remap(p, r, bytes, q)
      ensures Stride(e.index, M.Width(q)) + M.Width(q) <= |bytes|
    {
      if p.kind.UnknownValue? {
        RawInBounds(p, r, bytes, q, Count(M.OverlapBytes(r, p), M.Width(q)), e);
      } else {
        EntriesInBounds(p, r, bytes, q, p.entries, ComparesWithSnapshot(q.kind), e);
      }
    }
  }

  lemma {:induction false} FirstInBounds(rs: seq<M.Region>, t: M.Target, q: Query)
    ensures AllInBounds(M.FirstScan(rs, t, q), M.Width(q))
    decreases |rs|
  {
    if rs != [] {
      FirstInBounds(rs[..|rs| - 1], t, q);
      RegionInBounds(rs[|rs| - 1], t, q);
    }
  }

  lemma {:induction false} NextInBounds(rs: seq<M.Region>, p: seq<M.Scan>, t: M.Target, q: Query)
    ensures AllInBounds(M.NextScan(rs, p, t, q), M.Width(q))
    decreases |rs| + |p|
  {
    if rs != [] && p != [] {
      if rs[0].End() <= p[0].base {
        NextInBounds(rs[1..], p, t, q);
      } else if p[0].End() <= rs[0].base {
        NextInBounds(rs, p[1..], t, q);
      } else {
        NextInBounds(rs[1..], p, t, q);
        PairInBounds(rs[0], p[0], t, q);
      }
    }
  }

  lemma {:induction false} RefreshInBounds(scans: seq<M.Scan>, es: ElemSize, k: nat, bytes: seq<Byte>)
    requires AllInBounds(scans, es) && k < |scans| && |bytes| == |scans[k].bytes| && M.InBounds(scans[k], es)
    ensures AllInBounds(scans[k := L.Update(scans[k], es, bytes)], es)
  {
    L.UpdateStaysInBounds(scans[k], es, bytes);
  }

  /** So every entry of a run with updates lies in its buffer, as long as the element type stays. */
  lemma {:induction false} StepsInBounds(first: Pass, steps: seq<Step>)
    requires forall st :: st in steps && st.Narrow? ==> st.pass.query.elem == first.query.elem
    ensures AllInBounds(RunSteps(first, steps), M.Width(first.query))
    decreases |steps|
  {
    if steps == [] {
      FirstInBounds(first.regions, first.target, first.query);
    } else {
      var init, last := steps[..|steps| - 1], steps[|steps| - 1];
      assert last in steps;
      StepsInBounds(first, init);
      var scans := RunSteps(first, init);
      match last
      case Narrow(p) => NextInBounds(p.regions, scans, p.target, p.query);
      case Refresh(k, t, copied) =>
        if k < |scans| {
          assert scans[k] in scans;
          RefreshInBounds(scans, M.Width(first.query), k, WholeRun.Reread(scans[k], t, copied));
        }
    }
  }

  // ---------- the session as a run ----------

  /** A run with one step more: a reread replaces one scan of the list, a next scan replaces the list. */
  lemma {:induction false} AdvanceList(opening: Request, start: Room, at: Standing, c: Command)
    ensures var p, p' := ListOf(opening, start, at), ListOf(opening, start, Advance(opening, start, at, c));
            match c
            case Again(r) =>
              p' == M.NextScan(r.Found(), p, Refusing(r.target, WalkRefused(r.Found(), p, 0, 0, at.room, r.answers)),
                               r.query)
            case Renew(k, t, copied) =>
              var es := M.Width(opening.query);
              p' == if k < |p| && M.InBounds(p[k], es) then p[k := L.Update(p[k], es, Reread(p[k], t, copied))] else p
  {
    var st := match c
      case Again(r) => Narrow(Further(r, ListOf(opening, start, at), at.room))
      case Renew(k, t, copied) => Refresh(k, t, copied);
    assert (at.steps + [st])[..|at.steps|] == at.steps;
  }

  ghost predicate OneElementSteps(opening: Request, steps: seq<Step>) {
    forall st :: st in steps && st.Narrow? ==> st.pass.query.elem == opening.query.elem
  }

  lemma {:induction false} SessionElement(opening: Request, start: Room, commands: seq<Command>)
    requires OneElement(opening, commands)
    ensures OneElementSteps(opening, After(opening, start, commands).steps)
    decreases |commands|
  {
    if commands != [] {
      assert commands[|commands| - 1] in commands;
      SessionElement(opening, start, commands[..|commands| - 1]);
    }
  }

  // ---------- the passes of a session are its requests ----------

  function Requests(commands: seq<Command>): seq<Request> {
    if commands == [] then
      []
    else
      Requests(commands[..|commands| - 1])
      + if commands[|commands| - 1].Again? then [commands[|commands| - 1].request] else []
  }

  /** The pass is this request, but for the regions that get no block. */
  ghost predicate PassOf(p: Pass, r: Request) {
    && p.regions == ToRegions(W.Regions(r.space, r.first, r.second, r.flags))
    && p.query == r.query && p.target.memory == r.target.memory
    && forall b: nat :: p.target.readable(b) ==> r.target.readable(b)
  }

  lemma {:induction false} FurtherIsRequest(r: Request, scans: seq<M.Scan>, room: Room)
    ensures PassOf(Further(r, scans, room), r)
  {
  }

  lemma {:induction false} AdvancePasses(opening: Request, start: Room, at: Standing, c: Command)
    ensures var steps := Advance(opening, start, at, c).steps;
            match c
            case Renew(k, t, copied) =>
              steps == at.steps + [Refresh(k, t, copied)] && Narrowings(steps) == Narrowings(at.steps)
            case Again(r) =>
              var pass := Further(r, ListOf(opening, start, at), at.room);
              steps == at.steps + [Narrow(pass)] && Narrowings(steps) == Narrowings(at.steps) + [pass]
  {
    var steps := Advance(opening, start, at, c).steps;
    assert steps[..|steps| - 1] == at.steps;
  }

  ghost predicate Follow(passes: seq<Pass>, requests: seq<Request>, steps: seq<Step>, commands: seq<Command>) {
    && |passes| == |requests| && (forall i :: 0 <= i < |passes| ==> PassOf(passes[i], requests[i]))
    && |steps| == |commands|
    && forall i :: 0 <= i < |commands| && commands[i].Renew? ==>
         steps[i] == Refresh(commands[i].index, commands[i].target, commands[i].copied)
  }

  lemma {:induction false} FollowAgain(passes: seq<Pass>, requests: seq<Request>, steps: seq<Step>,
      commands: seq<Command>, p: Pass, r: Request)
    requires Follow(passes, requests, steps, commands) && PassOf(p, r)
    ensures Follow(passes + [p], requests + [r], steps + [Narrow(p)], commands + [Again(r)])
  {
  }

  lemma {:induction false} FollowRenew(passes: seq<Pass>, requests: seq<Request>, steps: seq<Step>,
      commands: seq<Command>, k: nat, t: M.Target, copied: nat)
    requires Follow(passes, requests, steps, commands)
    ensures Follow(passes, requests, steps + [Refresh(k, t, copied)], commands + [Renew(k, t, copied)])
  {
  }

  lemma {:induction false} FollowStep(opening: Request, start: Room, at: Standing, requests: seq<Request>,
      commands: seq<Command>, c: Command)
    requires Follow(Narrowings(at.steps), requests, at.steps, commands)
    ensures var steps := Advance(opening, start, at, c).steps;
            Follow(Narrowings(steps), requests + if c.Again? then [c.request] else [], steps, commands + [c])
  {
    AdvancePasses(opening, start, at, c);
    match c
    case Again(r) =>
      var p := Further(r, ListOf(opening, start, at), at.room);
      FurtherIsRequest(r, ListOf(opening, start, at), at.room);
      FollowAgain(Narrowings(at.steps), requests, at.steps, commands, p, r);
    case Renew(k, t, copied) =>
      assert requests + [] == requests;
      FollowRenew(Narrowings(at.steps), requests, at.steps, commands, k, t, copied);
  }

  lemma {:induction false} SessionFollows(opening: Request, start: Room, commands: seq<Command>)
    ensures var steps := After(opening, start, commands).steps;
            Follow(Narrowings(steps), Requests(commands), steps, commands)
    decreases |commands|
  {
    if commands != [] {
      var init, c := commands[..|commands| - 1], commands[|commands| - 1];
      SessionFollows(opening, start, init);
      FollowStep(opening, start, After(opening, start, init), Requests(init), init, c);
      assert commands == init + [c];
    }
  }

  /** A next scan adds its pass, and an update its refresh; nothing is skipped. */
  lemma {:induction false} SessionPasses(opening: Request, start: Room, commands: seq<Command>)
    ensures var passes := Narrowings(After(opening, start, commands).steps);
            && |passes| == |Requests(commands)|
            && forall i :: 0 <= i < |passes| ==>
                 var p, r := passes[i], Requests(commands)[i];
                 && p.regions == ToRegions(W.Regions(r.space, r.first, r.second, r.flags))
                 && p.query == r.query && p.target.memory == r.target.memory
                 && forall b: nat :: p.target.readable(b) ==> r.target.readable(b)
    ensures var steps := After(opening, start, commands).steps;
            && |steps| == |commands|
            && forall i :: 0 <= i < |commands| && commands[i].Renew? ==>
                 steps[i] == Refresh(commands[i].index, commands[i].target, commands[i].copied)
  {
    SessionFollows(opening, start, commands);
    var passes := Narrowings(After(opening, start, commands).steps);
    assert forall i :: 0 <= i < |passes| ==> PassOf(passes[i], Requests(commands)[i]);
  }

  // ---------- the session on the objects ----------

  /** The list in hand: it shows this, its blocks lie apart, and what was handed out before reads as it did. */
  predicate InHand(scans: seq<Scan>, p: seq<M.Scan>, file: MFile, room: Room, was: seq<Byte>, bottom: nat)
    reads scans, file, set s | s in scans :: s.region, set s | s in scans :: s.region.file
  {
    && Shows(scans, p, file) && Apart(scans) && Above(scans, bottom)
    && Linked(file.View()) && RoomOf(file.View()) == room
    && bottom <= |was| && bottom <= file.offset <= |file.disk| && was[..bottom] == file.disk[..bottom]
  }

  predicate OfSize(scans: seq<Scan>, es: ElemSize) {
    forall s :: s in scans ==> s.elemSize == es
  }

  lemma {:induction false} AboveToo(scans: seq<Scan>, offset: nat, bottom: nat)
    requires Above(scans, offset) && bottom <= offset
    ensures Above(scans, bottom)
  {
  }

  method PerformAgain(scanner: SlowScanner, scans: seq<Scan>, r: Request, ghost p: seq<M.Scan>, ghost room: Room,
      ghost was: seq<Byte>, ghost bottom: nat) returns (more: seq<Scan>)
    requires InHand(scans, p, scanner.file, room, was, bottom)
    requires WalkNeverCrashes(r.Found(), p, 0, 0, room, r.answers)
    modifies scanner.file
    ensures InHand(more, M.NextScan(r.Found(), p, Further(r, p, room).target, r.query),
                   scanner.file, WalkRoom(r.Found(), p, 0, 0, room, r.answers), was, bottom)
    ensures OfSize(more, M.Width(r.query)) && forall s :: s in more ==> fresh(s) && fresh(s.region)
  {
    more := scanner.NextScan(r.space, r.first, r.second, r.flags, r.target, r.query, scans, r.copied, r.answers, p);
    AboveToo(more, old(scanner.file.offset), bottom);
    PrefixChain(was, old(scanner.file.disk), scanner.file.disk, bottom, old(scanner.file.offset));
  }

  /** What a reread leaves in the buffer of a scan with entries is what its new live values are read from. */
  lemma {:induction false} RenewIsUpdate(s: M.Scan, es: ElemSize, t: M.Target, copied: nat, bytes: seq<Byte>)
    requires M.InBounds(s, es) && |bytes| == |s.bytes|
    requires s.entries != [] ==> bytes == Reread(s, t, copied)
    ensures L.Update(s, es, bytes) == L.Update(s, es, Reread(s, t, copied))
  {
  }

  method RenewOne(scans: seq<Scan>, k: nat, s: Scan, file: MFile, t: M.Target, copied: nat, g: Growth,
      ghost p: seq<M.Scan>, ghost room: Room, ghost was: seq<Byte>, ghost bottom: nat)
    requires InHand(scans, p, file, room, was, bottom) && k < |scans| && scans[k] == s && M.InBounds(p[k], s.elemSize)
    modifies s`results, s.region, file
    ensures InHand(scans, p[k := L.Update(p[k], s.elemSize, Reread(p[k], t, copied))], file, room, was, bottom)
  {
    assert s.View() == p[k] && BlockAbove(s, bottom);
    UpdateOne(scans, k, s, file, t, copied, g, p);
    RenewIsUpdate(p[k], s.elemSize, t, copied, s.region.RawBytes());
    PrefixChain(was, old(file.disk), file.disk, bottom, s.region.spans[0].At());
    forall i | 0 <= i < |scans|
      ensures BlockAbove(scans[i], bottom)
    {
      assert old(BlockAbove(scans[i], bottom));
    }
  }

  method PerformRenew(scanner: SlowScanner, scans: seq<Scan>, k: nat, t: M.Target, copied: nat, g: Growth,
      ghost es: ElemSize, ghost p: seq<M.Scan>, ghost room: Room, ghost was: seq<Byte>, ghost bottom: nat)
    requires InHand(scans, p, scanner.file, room, was, bottom) && OfSize(scans, es) && AllInBounds(p, es)
    modifies scanner.file, scans, set s | s in scans :: s.region
    ensures forall i :: 0 <= i < |p| ==> M.InBounds(p[i], es)
    ensures var p' := if k < |p| then p[k := L.Update(p[k], es, Reread(p[k], t, copied))] else p;
            InHand(scans, p', scanner.file, room, was, bottom)
  {
    assert forall i :: 0 <= i < |p| ==> p[i] in p;
    if k < |scans| {
      var s := scans[k];
      assert s in scans;
      RenewOne(scans, k, s, scanner.file, t, copied, g, p, room, was, bottom);
    }
  }

  method Open(scanner: SlowScanner, r: Request, ghost start: Room, ghost was: seq<Byte>, ghost bottom: nat)
    returns (scans: seq<Scan>)
    requires Linked(scanner.file.View()) && RoomOf(scanner.file.View()) == start
    requires NeverCrashes(start, r.Found(), r.answers)
    requires was == scanner.file.disk && bottom == scanner.file.offset
    modifies scanner.file
    ensures InHand(scans, ListOf(r, start, Standing([], OpeningRoom(r, start))), scanner.file, OpeningRoom(r, start),
                   was, bottom)
    ensures OfSize(scans, M.Width(r.query)) && forall s :: s in scans ==> fresh(s) && fresh(s.region)
  {
    scans := scanner.FirstScan(r.space, r.first, r.second, r.flags, r.target, r.query, r.copied, r.answers);
  }

  method Perform(scanner: SlowScanner, scans: seq<Scan>, c: Command, ghost opening: Request, ghost start: Room,
      ghost at: Standing, ghost was: seq<Byte>, ghost bottom: nat) returns (more: seq<Scan>)
    requires InHand(scans, ListOf(opening, start, at), scanner.file, at.room, was, bottom)
    requires OfSize(scans, M.Width(opening.query)) && AllInBounds(ListOf(opening, start, at), M.Width(opening.query))
    requires Defined(opening, start, at, c) && (c.Again? ==> c.request.query.elem == opening.query.elem)
    modifies scanner.file, scans, set s | s in scans :: s.region
    ensures var at' := Advance(opening, start, at, c);
            InHand(more, ListOf(opening, start, at'), scanner.file, at'.room, was, bottom)
    ensures OfSize(more, M.Width(opening.query))
    ensures forall s :: s in more ==> s in scans || (fresh(s) && fresh(s.region))
  {
    ghost var p := ListOf(opening, start, at);
    AdvanceList(opening, start, at, c);
    match c {
      case Again(r) =>
        more := PerformAgain(scanner, scans, r, p, at.room, was, bottom);
      case Renew(k, t, copied) =>
        PerformRenew(scanner, scans, k, t, copied, GROWN, M.Width(opening.query), p, at.room, was, bottom);
        more := scans;
    }
  }

  lemma {:induction false} SessionInBounds(opening: Request, start: Room, commands: seq<Command>)
    requires OneElement(opening, commands)
    ensures AllInBounds(ListOf(opening, start, After(opening, start, commands)), M.Width(opening.query))
  {
    SessionElement(opening, start, commands);
    StepsInBounds(Opening(opening, start), After(opening, start, commands).steps);
  }

  /** One command more. */
  lemma {:induction false} AfterNext(opening: Request, start: Room, commands: seq<Command>, n: nat)
    requires n < |commands| && AlwaysDefined(opening, start, commands) && OneElement(opening, commands)
    ensures var at := After(opening, start, commands[..n]);
            && After(opening, start, commands[..n + 1]) == Advance(opening, start, at, commands[n])
            && Defined(opening, start, at, commands[n])
            && AllInBounds(ListOf(opening, start, at), M.Width(opening.query))
            && (commands[n].Again? ==> commands[n].request.query.elem == opening.query.elem)
  {
    assert commands[..n + 1][..n] == commands[..n] && commands[n] in commands;
    SessionInBounds(opening, start, commands[..n]);
  }

  /**
   * The session: whatever sequence of next scans and updates follows the first scan, the objects in hand
   * show the list of the run, and what the file held before the session is untouched.
   */
  method RunSession(scanner: SlowScanner, opening: Request, commands: seq<Command>) returns (scans: seq<Scan>)
    requires Linked(scanner.file.View())
    requires forall c :: c in commands && c.Again? ==> c.request.query.elem == opening.query.elem
    requires AlwaysDefined(opening, RoomOf(scanner.file.View()), commands)
    modifies scanner.file
    ensures var start := RoomOf(old(scanner.file.View()));
            var at := After(opening, start, commands);
            InHand(scans, ListOf(opening, start, at), scanner.file, at.room, old(scanner.file.disk),
                   old(scanner.file.offset))
    ensures forall s :: s in scans ==> fresh(s) && fresh(s.region)
  {
    ghost var start, was, bottom := RoomOf(scanner.file.View()), scanner.file.disk, scanner.file.offset;
    scans := Open(scanner, opening, start, was, bottom);
    ghost var at := After(opening, start, []);
    for n := 0 to |commands|
      invariant at == After(opening, start, commands[..n])
      invariant InHand(scans, ListOf(opening, start, at), scanner.file, at.room, was, bottom)
      invariant OfSize(scans, M.Width(opening.query)) && forall s :: s in scans ==> fresh(s) && fresh(s.region)
    {
      AfterNext(opening, start, commands, n);
      scans := Perform(scanner, scans, commands[n], opening, start, at, was, bottom);
      at := Advance(opening, start, at, commands[n]);
    }
    assert commands[..|commands|] == commands;
  }

  // ---------- what the objects' candidates are ----------

  lemma {:induction false} NarrowingIsStep(steps: seq<Step>, p: Pass)
    requires p in Narrowings(steps)
    ensures Narrow(p) in steps
    decreases |steps|
  {
    var init, last := steps[..|steps| - 1], steps[|steps| - 1];
    if p in Narrowings(init) {
      NarrowingIsStep(init, p);
    }
  }

  /** Every range starts on a page boundary. */
  ghost predicate FromPages(opening: Request, commands: seq<Command>) {
    && opening.first % W.PAGE == 0
    && forall c :: c in commands && c.Again? ==> c.request.first % W.PAGE == 0
  }

  ghost predicate LaidOut(steps: seq<Step>, elem: ElementType) {
    forall st :: st in steps && st.Narrow?
      ==> st.pass.query.elem == elem && M.Layout(st.pass.regions, ElementSize(elem))
  }

  lemma {:induction false} SessionLaidOut(opening: Request, start: Room, commands: seq<Command>)
    requires OneElement(opening, commands) && FromPages(opening, commands)
    ensures LaidOut(After(opening, start, commands).steps, opening.query.elem)
    decreases |commands|
  {
    if commands != [] {
      var c := commands[|commands| - 1];
      assert c in commands;
      SessionLaidOut(opening, start, commands[..|commands| - 1]);
      if c.Again? {
        RegionsFormLayout(c.request.space, c.request.first, c.request.second, c.request.flags, M.Width(opening.query));
      }
    }
  }

  lemma {:induction false} SessionWellFormed(opening: Request, start: Room, commands: seq<Command>)
    requires OneElement(opening, commands) && FromPages(opening, commands)
    ensures WellFormed(Opening(opening, start), Narrowings(After(opening, start, commands).steps))
  {
    var steps := After(opening, start, commands).steps;
    RegionsFormLayout(opening.space, opening.first, opening.second, opening.flags, M.Width(opening.query));
    SessionLaidOut(opening, start, commands);
    forall p | p in Narrowings(steps)
      ensures p.query.elem == opening.query.elem && M.Layout(p.regions, M.Width(p.query))
    {
      NarrowingIsStep(steps, p);
    }
  }

  lemma {:induction false} HoldsSeesHistory(s: M.Scan, s': M.Scan, es: ElemSize, a: nat, v: nat)
    requires L.SameHistory(s, s') && M.Holds(s, es, a, v)
    ensures M.Holds(s', es, a, v)
  {
    var e :| e in M.Kept(s, es) && s.base + Stride(e.index, es) == a && e.snapshot == v;
    if s.kind.UnknownValue? {
      assert e in M.Kept(s', es);
    } else {
      var i :| 0 <= i < |s.entries| && s.entries[i] == e;
      assert s'.entries[i] in M.Kept(s', es);
    }
  }

  lemma {:induction false} CandidateSeesHistory(scans: seq<M.Scan>, scans': seq<M.Scan>, es: ElemSize, a: nat, v: nat)
    requires L.SameHistories(scans, scans') && M.Candidate(scans, es, a, v)
    ensures M.Candidate(scans', es, a, v)
  {
    var s :| s in scans && M.Holds(s, es, a, v);
    var i :| 0 <= i < |scans| && scans[i] == s;
    HoldsSeesHistory(s, scans'[i], es, a, v);
    assert scans'[i] in scans';
  }

  lemma {:induction false} HistoriesSwap(scans: seq<M.Scan>, scans': seq<M.Scan>)
    requires L.SameHistories(scans, scans')
    ensures L.SameHistories(scans', scans)
  {
  }

  /**
   * From page boundaries the candidates of a session are exactly the survivors of its scans, with the
   * words the last scan read, whatever was reread in between and whichever regions got no block.
   */
  lemma {:induction false} SessionExact(opening: Request, start: Room, commands: seq<Command>, a: nat, v: nat)
    requires forall c :: c in commands && c.Again? ==> c.request.query.elem == opening.query.elem
    requires opening.first % 4096 == 0 && forall c :: c in commands && c.Again? ==> c.request.first % 4096 == 0
    ensures var first := Opening(opening, start);
            var rest := Narrowings(After(opening, start, commands).steps);
            M.Candidate(ListOf(opening, start, After(opening, start, commands)), M.Width(opening.query), a, v)
            <==> v == Latest(first, rest).Word(a) && exists r :: (r, a) in Survivors(first, rest)
  {
    var first, steps, es := Opening(opening, start), After(opening, start, commands).steps, M.Width(opening.query);
    SessionWellFormed(opening, start, commands);
    UpdatesInvisible(first, steps);
    HistoriesSwap(Run(first, Narrowings(steps)), RunSteps(first, steps));
    if M.Candidate(RunSteps(first, steps), es, a, v) {
      CandidateSeesHistory(RunSteps(first, steps), Run(first, Narrowings(steps)), es, a, v);
    }
    if M.Candidate(Run(first, Narrowings(steps)), es, a, v) {
      CandidateSeesHistory(Run(first, Narrowings(steps)), RunSteps(first, steps), es, a, v);
    }
    RunExact(first, Narrowings(steps), a, v);
  }
}
