/**
 * Scans whose snapshot file cannot always grow: which regions get no block, and why first_scan and
 * next_scan then treat them as regions that cannot be read.
 */
module Refusals {
  import opened Wrappers
  import opened Comparator
  import opened ScanModel
  import opened SnapshotStore
  import opened ListTheorems

  /** What the system answers when the file must grow for the region at a base. */
  type Answers = nat -> Growth

  /** Whenever the file must grow, the system extends and maps it, or does neither. */
  ghost predicate AllTogether(g: Answers) {
    forall b: nat :: g(b).extended == g(b).mapped
  }

  /** The target as a scan finds it that got no block for the regions at these bases. */
  function Refusing(t: Target, refused: set<nat>): Target {
    Target(t.memory, (b: nat) => b !in refused && t.readable(b))
  }

  predicate Sized(rs: seq<Region>) {
    forall i :: 0 <= i < |rs| ==> rs[i].size > 0
  }

  lemma {:induction false} RefusedIsUnreadable(r: Region, t: Target, q: Query, refused: set<nat>)
    ensures ScanRegion(r, Refusing(t, refused), q) == if r.base in refused then [] else ScanRegion(r, t, q)
  {
    assert ReadRegion(Refusing(t, refused), r) == ReadRegion(t, r);
  }

  lemma {:induction false} RefusedPairIsUnreadable(r: Region, p: Scan, t: Target, q: Query, refused: set<nat>)
    ensures ScanPair(r, p, Refusing(t, refused), q) == if r.base in refused then [] else ScanPair(r, p, t, q)
  {
    assert ReadRegion(Refusing(t, refused), r) == ReadRegion(t, r);
  }

  // ---------- first_scan: one block for each region ----------

  /** The room left after the first n regions asked for their blocks. */
  function RoomAfter(r: Room, rs: seq<Region>, g: Answers, n: nat): Room
    requires n <= |rs|
  {
    if n == 0 then r else Reserve(RoomAfter(r, rs, g, n - 1), rs[n - 1].size, g(rs[n - 1].base)).0
  }

  function VerdictAt(r: Room, rs: seq<Region>, g: Answers, i: nat): Verdict
    requires i < |rs|
  {
    Reserve(RoomAfter(r, rs, g, i), rs[i].size, g(rs[i].base)).1
  }

  predicate NeverCrashes(r: Room, rs: seq<Region>, g: Answers) {
    forall i :: 0 <= i < |rs| ==> !VerdictAt(r, rs, g, i).Crashes?
  }

  function RefusedBases(r: Room, rs: seq<Region>, g: Answers): set<nat> {
    set i | 0 <= i < |rs| && VerdictAt(r, rs, g, i).Refused? :: rs[i].base
  }

  /** What the tasks of the regions come to. */
  function Fates(r: Room, rs: seq<Region>, g: Answers, t: Target, q: Query): (fates: seq<seq<Scan>>)
    ensures |fates| == |rs|
  {
    seq(|rs|, i requires 0 <= i < |rs| => if VerdictAt(r, rs, g, i).Refused? then [] else ScanRegion(rs[i], t, q))
  }

  /**
   * One region's turn: its block is granted or refused in this room, the next room is left, and its
   * task comes to this.
   */
  predicate Turn(room: Room, next: Room, r: Region, g: Growth, t: Target, q: Query, fate: seq<Scan>) {
    var (left, v) := Reserve(room, r.size, g);
    next == left && !v.Crashes? && fate == if v.Refused? then [] else ScanRegion(r, t, q)
  }

  /** The rooms before, between and after the turns. */
  function Rooms(r: Room, rs: seq<Region>, g: Answers): (rooms: seq<Room>)
    ensures |rooms| == |rs| + 1
  {
    seq(|rs| + 1, i requires 0 <= i < |rs| + 1 => RoomAfter(r, rs, g, i))
  }

  predicate Turns(rooms: seq<Room>, rs: seq<Region>, g: Answers, t: Target, q: Query, fates: seq<seq<Scan>>) {
    && |rooms| == |rs| + 1 && |fates| == |rs|
    && forall i {:trigger fates[i]} :: 0 <= i < |rs|
         ==> Turn(rooms[i], rooms[i + 1], rs[i], g(rs[i].base), t, q, fates[i])
  }

  lemma {:induction false} FatesTakeTurns(r: Room, rs: seq<Region>, g: Answers, t: Target, q: Query)
    requires NeverCrashes(r, rs, g)
    ensures Turns(Rooms(r, rs, g), rs, g, t, q, Fates(r, rs, g, t, q))
  {
    forall i | 0 <= i < |rs|
      ensures Turn(Rooms(r, rs, g)[i], Rooms(r, rs, g)[i + 1], rs[i], g(rs[i].base), t, q, Fates(r, rs, g, t, q)[i])
    {
      assert !VerdictAt(r, rs, g, i).Crashes?;
    }
  }

  /** A region whose block is refused is scanned like one that cannot be read, and no other is. */
  lemma {:induction false} FateIsScan(r: Room, rs: seq<Region>, g: Answers, t: Target, q: Query, i: nat)
    requires AscendingRegions(rs) && i < |rs|
    ensures Fates(r, rs, g, t, q)[i] == ScanRegion(rs[i], Refusing(t, RefusedBases(r, rs, g)), q)
  {
    RefusedIsUnreadable(rs[i], t, q, RefusedBases(r, rs, g));
    if rs[i].base in RefusedBases(r, rs, g) {
      var j :| 0 <= j < |rs| && VerdictAt(r, rs, g, j).Refused? && rs[j].base == rs[i].base;
      assert i == j;
    }
  }

  /** If extending and mapping always succeed or fail together, no allocation of a first scan crashes. */
  lemma {:induction false} TogetherRoom(r: Room, rs: seq<Region>, g: Answers, n: nat)
    requires Level(r) && AllTogether(g) && Sized(rs) && n <= |rs|
    ensures Level(RoomAfter(r, rs, g, n))
    ensures n < |rs| ==> !VerdictAt(r, rs, g, n).Crashes?
  {
    if n > 0 {
      TogetherRoom(r, rs, g, n - 1);
      TogetherNeverCrashes(RoomAfter(r, rs, g, n - 1), rs[n - 1].size, g(rs[n - 1].base));
    }
    if n < |rs| {
      TogetherNeverCrashes(RoomAfter(r, rs, g, n), rs[n].size, g(rs[n].base));
    }
  }

  lemma {:induction false} TogetherFirstScan(r: Room, rs: seq<Region>, g: Answers)
    requires Level(r) && (forall b: nat :: g(b).extended == g(b).mapped) && Sized(rs)
    ensures NeverCrashes(r, rs, g)
  {
    forall i | 0 <= i < |rs|
      ensures !VerdictAt(r, rs, g, i).Crashes?
    {
      TogetherRoom(r, rs, g, i);
    }
  }

  // ---------- next_scan: one block for each region that meets a previous scan ----------

  /** The regions of the walk, from a pair of positions, that ask for a block and do not get one. */
  function WalkRefused(rs: seq<Region>, p: seq<Scan>, front: nat, idx: nat, r: Room, g: Answers): set<nat>
    requires front <= |rs| && idx <= |p|
    decreases |rs| + |p| - front - idx
  {
    if idx == |p| || front == |rs| then
      {}
    else if rs[front].End() <= p[idx].base then
      WalkRefused(rs, p, front + 1, idx, r, g)
    else if p[idx].End() <= rs[front].base then
      WalkRefused(rs, p, front, idx + 1, r, g)
    else
      var (r', v) := Reserve(r, rs[front].size, g(rs[front].base));
      (if v.Refused? then {rs[front].base} else {}) + WalkRefused(rs, p, front + 1, idx, r', g)
  }

  predicate WalkNeverCrashes(rs: seq<Region>, p: seq<Scan>, front: nat, idx: nat, r: Room, g: Answers)
    requires front <= |rs| && idx <= |p|
    decreases |rs| + |p| - front - idx
  {
    if idx == |p| || front == |rs| then
      true
    else if rs[front].End() <= p[idx].base then
      WalkNeverCrashes(rs, p, front + 1, idx, r, g)
    else if p[idx].End() <= rs[front].base then
      WalkNeverCrashes(rs, p, front, idx + 1, r, g)
    else
      var (r', v) := Reserve(r, rs[front].size, g(rs[front].base));
      !v.Crashes? && WalkNeverCrashes(rs, p, front + 1, idx, r', g)
  }

  /** The room left when the walk ends. */
  function WalkRoom(rs: seq<Region>, p: seq<Scan>, front: nat, idx: nat, r: Room, g: Answers): Room
    requires front <= |rs| && idx <= |p|
    decreases |rs| + |p| - front - idx
  {
    if idx == |p| || front == |rs| then
      r
    else if rs[front].End() <= p[idx].base then
      WalkRoom(rs, p, front + 1, idx, r, g)
    else if p[idx].End() <= rs[front].base then
      WalkRoom(rs, p, front, idx + 1, r, g)
    else
      WalkRoom(rs, p, front + 1, idx, Reserve(r, rs[front].size, g(rs[front].base)).0, g)
  }

  /** What a paired region comes to. */
  function PairFate(region: Region, prev: Scan, r: Room, g: Answers, t: Target, q: Query): seq<Scan> {
    if Reserve(r, region.size, g(region.base)).1.Refused? then [] else ScanPair(region, prev, t, q)
  }

  /** The rest of the walk from a pair of positions. */
  function WalkFrom(rs: seq<Region>, p: seq<Scan>, front: nat, idx: nat, r: Room, g: Answers, t: Target,
      q: Query): seq<Scan>
    requires front <= |rs| && idx <= |p|
    decreases |rs| + |p| - front - idx
  {
    if idx == |p| || front == |rs| then
      []
    else if rs[front].End() <= p[idx].base then
      WalkFrom(rs, p, front + 1, idx, r, g, t, q)
    else if p[idx].End() <= rs[front].base then
      WalkFrom(rs, p, front, idx + 1, r, g, t, q)
    else
      PairFate(rs[front], p[idx], r, g, t, q)
      + WalkFrom(rs, p, front + 1, idx, Reserve(r, rs[front].size, g(rs[front].base)).0, g, t, q)
  }

  lemma {:induction false} WalkRefusedAhead(rs: seq<Region>, p: seq<Scan>, front: nat, idx: nat, r: Room, g: Answers)
    requires front <= |rs| && idx <= |p|
    ensures forall b :: b in WalkRefused(rs, p, front, idx, r, g) ==> exists j :: front <= j < |rs| && rs[j].base == b
    decreases |rs| + |p| - front - idx
  {
    if idx < |p| && front < |rs| {
      if rs[front].End() <= p[idx].base {
        WalkRefusedAhead(rs, p, front + 1, idx, r, g);
      } else if p[idx].End() <= rs[front].base {
        WalkRefusedAhead(rs, p, front, idx + 1, r, g);
      } else {
        WalkRefusedAhead(rs, p, front + 1, idx, Reserve(r, rs[front].size, g(rs[front].base)).0, g);
      }
    }
  }

  /** From these positions on, the set holds the bases of exactly the regions that get no block. */
  predicate TellsRefused(refused: set<nat>, rs: seq<Region>, p: seq<Scan>, front: nat, idx: nat, r: Room, g: Answers)
    requires front <= |rs| && idx <= |p|
  {
    forall j :: front <= j < |rs| ==> (rs[j].base in refused <==> rs[j].base in WalkRefused(rs, p, front, idx, r, g))
  }

  /** After a pair the set still tells, and it tells the paired region's own fate. */
  lemma {:induction false} PairTells(refused: set<nat>, rs: seq<Region>, p: seq<Scan>, front: nat, idx: nat, r: Room,
      g: Answers)
    requires AscendingRegions(rs) && front < |rs| && idx < |p| && TellsRefused(refused, rs, p, front, idx, r, g)
    requires p[idx].base < rs[front].End() && rs[front].base < p[idx].End()
    ensures TellsRefused(refused, rs, p, front + 1, idx, Reserve(r, rs[front].size, g(rs[front].base)).0, g)
    ensures rs[front].base in refused <==> Reserve(r, rs[front].size, g(rs[front].base)).1.Refused?
  {
    var r' := Reserve(r, rs[front].size, g(rs[front].base)).0;
    WalkRefusedAhead(rs, p, front + 1, idx, r', g);
    assert rs[front].base !in WalkRefused(rs, p, front + 1, idx, r', g);
  }

  /** The walk in which regions are refused blocks is the two-pointer walk in which they cannot be read. */
  lemma {:induction false} WalkIsNextScan(refused: set<nat>, rs: seq<Region>, p: seq<Scan>, front: nat, idx: nat,
      r: Room, g: Answers, t: Target, q: Query)
    requires AscendingRegions(rs) && front <= |rs| && idx <= |p| && TellsRefused(refused, rs, p, front, idx, r, g)
    ensures WalkFrom(rs, p, front, idx, r, g, t, q) == NextScan(rs[front..], p[idx..], Refusing(t, refused), q)
    decreases |rs| + |p| - front - idx
  {
    if idx < |p| && front < |rs| {
      assert rs[front..][1..] == rs[front + 1..] && p[idx..][1..] == p[idx + 1..];
      if rs[front].End() <= p[idx].base {
        WalkIsNextScan(refused, rs, p, front + 1, idx, r, g, t, q);
      } else if p[idx].End() <= rs[front].base {
        WalkIsNextScan(refused, rs, p, front, idx + 1, r, g, t, q);
      } else {
        PairTells(refused, rs, p, front, idx, r, g);
        RefusedPairIsUnreadable(rs[front], p[idx], t, q, refused);
        WalkIsNextScan(refused, rs, p, front + 1, idx, Reserve(r, rs[front].size, g(rs[front].base)).0, g, t, q);
      }
    }
  }

  /** If extending and mapping always succeed or fail together, no allocation of a next scan crashes. */
  lemma {:induction false} TogetherNextScan(rs: seq<Region>, p: seq<Scan>, front: nat, idx: nat, r: Room, g: Answers)
    requires Level(r) && (forall b: nat :: g(b).extended == g(b).mapped)
    requires Sized(rs) && front <= |rs| && idx <= |p|
    ensures WalkNeverCrashes(rs, p, front, idx, r, g) && Level(WalkRoom(rs, p, front, idx, r, g))
    decreases |rs| + |p| - front - idx
  {
    if idx < |p| && front < |rs| {
      if rs[front].End() <= p[idx].base {
        TogetherNextScan(rs, p, front + 1, idx, r, g);
      } else if p[idx].End() <= rs[front].base {
        TogetherNextScan(rs, p, front, idx + 1, r, g);
      } else {
        TogetherNeverCrashes(r, rs[front].size, g(rs[front].base));
        TogetherNextScan(rs, p, front + 1, idx, Reserve(r, rs[front].size, g(rs[front].base)).0, g);
      }
    }
  }

  // ---------- a file that always grows ----------

  lemma {:induction false} GrownNeverRefuses(r: Room, n: nat)
    ensures !Reserve(r, n, GROWN).1.Refused?
  {
  }

  lemma {:induction false} GrownRefusesNoPair(rs: seq<Region>, p: seq<Scan>, front: nat, idx: nat, r: Room, g: Answers)
    requires front <= |rs| && idx <= |p| && forall b: nat :: g(b) == GROWN
    ensures WalkRefused(rs, p, front, idx, r, g) == {}
    decreases |rs| + |p| - front - idx
  {
    if idx < |p| && front < |rs| {
      if rs[front].End() <= p[idx].base {
        GrownRefusesNoPair(rs, p, front + 1, idx, r, g);
      } else if p[idx].End() <= rs[front].base {
        GrownRefusesNoPair(rs, p, front, idx + 1, r, g);
      } else {
        GrownNeverRefuses(r, rs[front].size);
        GrownRefusesNoPair(rs, p, front + 1, idx, Reserve(r, rs[front].size, g(rs[front].base)).0, g);
      }
    }
  }

  lemma {:induction false} GrownRefusesNoRegion(r: Room, rs: seq<Region>, g: Answers)
    requires forall b: nat :: g(b) == GROWN
    ensures RefusedBases(r, rs, g) == {}
  {
    forall i | 0 <= i < |rs|
      ensures !VerdictAt(r, rs, g, i).Refused?
    {
      GrownNeverRefuses(RoomAfter(r, rs, g, i), rs[i].size);
    }
  }

  /** With nothing refused the scans are those of the target itself. */
  lemma {:induction false} NothingRefusedFirst(rs: seq<Region>, t: Target, q: Query)
    ensures FirstScan(rs, Refusing(t, {}), q) == FirstScan(rs, t, q)
  {
    if rs != [] {
      NothingRefusedFirst(rs[..|rs| - 1], t, q);
      RefusedIsUnreadable(rs[|rs| - 1], t, q, {});
    }
  }

  lemma {:induction false} NothingRefusedNext(rs: seq<Region>, p: seq<Scan>, t: Target, q: Query)
    ensures NextScan(rs, p, Refusing(t, {}), q) == NextScan(rs, p, t, q)
    decreases |rs| + |p|
  {
    if rs != [] && p != [] {
      if rs[0].End() <= p[0].base {
        NothingRefusedNext(rs[1..], p, t, q);
      } else if p[0].End() <= rs[0].base {
        NothingRefusedNext(rs, p[1..], t, q);
      } else {
        NothingRefusedNext(rs[1..], p, t, q);
        RefusedPairIsUnreadable(rs[0], p[0], t, q, {});
      }
    }
  }
}
