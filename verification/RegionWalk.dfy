/** The walk of get_regions over the target's address space. */
module RegionWalk {
  import opened Wrappers

  const PAGE: nat := 4096

  datatype PageState = Committed | Reserved | Free
  datatype PageKind = Private | Mapped | Image
  /** Protection flags are the set of bits that are on. */
  type Flags = set<nat>

  datatype Attributes = Attributes(protect: Flags, state: PageState, kind: PageKind)

  type Positive = n: nat | n > 0 witness 1

  /** What one virtual-memory query reports: a run of pages, starting at the page queried, with equal attributes. */
  datatype PageRun = PageRun(pages: Positive, attributes: Attributes)

  /**
   * The target's answer to a query, given how many queries came before it, so that
   * the target may change its layout while the walk is under way. None is a failed query.
   */
  type AddressSpace = (nat, nat) -> Option<PageRun>

  datatype Interval = Interval(base: nat, size: nat, attributes: Attributes) {
    function End(): nat { base + size }

    predicate Contains(a: nat) { base <= a < End() }
  }

  function PageDown(a: nat): nat {
    a / PAGE * PAGE
  }

  predicate Eligible(attributes: Attributes, flags: Flags) {
    attributes.protect * flags != {} && attributes.state.Committed? && !attributes.kind.Mapped?
  }

  /**
   * One turn of the loop: the run starts at the page holding `at`, its start is clipped to the
   * first address of the range without shortening it, its end is clipped to the last.
   */
  function Clip(run: PageRun, at: nat, first: nat, second: nat): (v: Interval)
    requires first <= at < second
    ensures first <= v.base <= at < v.End() <= second
    ensures v.End() < second ==> v.End() == v.base + run.pages * PAGE
  {
    var base := if PageDown(at) < first then first else PageDown(at);
    var size := run.pages * PAGE;
    Interval(base, if base + size > second then second - base else size, run.attributes)
  }

  /** Every interval the walk looks at, eligible or not. */
  function Visited(space: AddressSpace, first: nat, second: nat, at: nat, queries: nat): (vs: seq<Interval>)
    requires first <= at
    decreases second - at
  {
    if at >= second || space(queries, at).None? then
      []
    else
      var v := Clip(space(queries, at).value, at, first, second);
      [v] + Visited(space, first, second, v.End(), queries + 1)
  }

  function Keep(vs: seq<Interval>, flags: Flags): seq<Interval> {
    if vs == [] then
      []
    else
      (if Eligible(vs[0].attributes, flags) then [vs[0]] else []) + Keep(vs[1..], flags)
  }

  /** The queue get_regions returns. */
  function Regions(space: AddressSpace, first: nat, second: nat, flags: Flags): seq<Interval> {
    Keep(Visited(space, first, second, first, 0), flags)
  }

  predicate Ascending(vs: seq<Interval>) {
    forall i, j :: 0 <= i < j < |vs| ==> vs[i].base < vs[j].base
  }

  predicate Disjoint(vs: seq<Interval>) {
    forall i, j :: 0 <= i < j < |vs| ==> vs[i].End() <= vs[j].base
  }

  predicate Inside(vs: seq<Interval>, first: nat, second: nat) {
    forall i :: 0 <= i < |vs| ==> vs[i].size > 0 && first <= vs[i].base && vs[i].End() <= second
  }

  /** Each interval starts where the one before it ended. */
  predicate Gapless(vs: seq<Interval>, at: nat) {
    vs == [] || (vs[0].base == at && forall i :: 0 <= i < |vs| - 1 ==> vs[i + 1].base == vs[i].End())
  }

  /** Where a walk starting at `at` stops. */
  function Reached(vs: seq<Interval>, at: nat): nat {
    if vs == [] then at else vs[|vs| - 1].End()
  }

  lemma {:induction false} PageDownShift(a: nat, pages: Positive)
    ensures PageDown(a + pages * PAGE) == PageDown(a) + pages * PAGE > a
  {
  }

  /** Whatever the alignment, a walk stays in the range and its starts strictly increase. */
  lemma {:induction false} VisitedAscendsInside(space: AddressSpace, first: nat, second: nat, at: nat, queries: nat)
    requires first <= at
    ensures var vs := Visited(space, first, second, at, queries);
            Inside(vs, first, second) && Ascending(vs)
            && forall i :: 0 <= i < |vs| ==> vs[i].base >= PageDown(at)
    decreases second - at
  {
    if at < second && space(queries, at).Some? {
      var v := Clip(space(queries, at).value, at, first, second);
      VisitedAscendsInside(space, first, second, v.End(), queries + 1);
      if v.End() < second {
        PageDownShift(v.base, space(queries, at).value.pages);
      }
    }
  }

  /** From a page boundary the walk is gapless and only stops at the end of the range or at a failed query. */
  lemma {:induction false} VisitedGapless(space: AddressSpace, first: nat, second: nat, at: nat, queries: nat)
    requires first <= at && (at % PAGE == 0 || at >= second)
    ensures var vs := Visited(space, first, second, at, queries);
            Gapless(vs, at)
            && (Reached(vs, at) >= second || space(queries + |vs|, Reached(vs, at)).None?)
            && forall i :: 0 <= i < |vs| ==> vs[i].base % PAGE == 0
    decreases second - at
  {
    if at < second && space(queries, at).Some? {
      var v := Clip(space(queries, at).value, at, first, second);
      VisitedGapless(space, first, second, v.End(), queries + 1);
    }
  }

  predicate Covers(vs: seq<Interval>, a: nat) {
    exists v :: v in vs && v.Contains(a)
  }

  lemma {:induction false} GaplessIsDisjoint(vs: seq<Interval>, at: nat)
    requires Gapless(vs, at)
    ensures Disjoint(vs)
    ensures forall i :: 0 <= i < |vs| ==> at <= vs[i].base && vs[i].End() <= Reached(vs, at)
  {
    if vs != [] {
      GaplessIsDisjoint(vs[1..], vs[0].End());
      assert Reached(vs, at) == Reached(vs[1..], vs[0].End());
    }
  }

  lemma {:induction false} GaplessCovers(vs: seq<Interval>, at: nat, a: nat)
    requires Gapless(vs, at) && at <= a < Reached(vs, at)
    ensures Covers(vs, a)
  {
    if a < vs[0].End() {
      assert vs[0] in vs && vs[0].Contains(a);
    } else {
      assert Reached(vs, at) == Reached(vs[1..], vs[0].End());
      GaplessCovers(vs[1..], vs[0].End(), a);
    }
  }

  lemma {:induction false} SharedFlag(protect: Flags, flags: Flags)
    ensures protect * flags != {} <==> exists b :: b in protect && b in flags
  {
    if b :| b in protect && b in flags {
      assert b in protect * flags;
    }
  }

  /** Exactly the intervals are kept that are committed, not mapped files, and share a protection flag. */
  lemma {:induction false} KeepMembers(vs: seq<Interval>, flags: Flags)
    ensures forall v :: v in Keep(vs, flags)
              <==> && v in vs && v.attributes.state == Committed && v.attributes.kind != Mapped
                   && exists b :: b in v.attributes.protect && b in flags
  {
    if vs != [] {
      KeepMembers(vs[1..], flags);
      assert vs == [vs[0]] + vs[1..];
      SharedFlag(vs[0].attributes.protect, flags);
    }
  }

  lemma {:induction false} KeepInside(vs: seq<Interval>, flags: Flags, first: nat, second: nat)
    requires Inside(vs, first, second)
    ensures Inside(Keep(vs, flags), first, second)
  {
    if vs != [] {
      KeepInside(vs[1..], flags, first, second);
    }
  }

  lemma {:induction false} KeepAscending(vs: seq<Interval>, flags: Flags)
    requires Ascending(vs)
    ensures Ascending(Keep(vs, flags))
  {
    if vs != [] {
      KeepAscending(vs[1..], flags);
      KeepMembers(vs[1..], flags);
      var rest := Keep(vs[1..], flags);
      assert forall i :: 0 <= i < |rest| ==> rest[i] in rest;
    }
  }

  lemma {:induction false} KeepDisjoint(vs: seq<Interval>, flags: Flags)
    requires Disjoint(vs)
    ensures Disjoint(Keep(vs, flags))
  {
    if vs != [] {
      KeepDisjoint(vs[1..], flags);
      KeepMembers(vs[1..], flags);
      var rest := Keep(vs[1..], flags);
      assert forall i :: 0 <= i < |rest| ==> rest[i] in rest;
    }
  }

  /** For any alignment: regions in increasing order of base, none empty, all inside the range. */
  lemma {:induction false} RegionsAscendInside(space: AddressSpace, first: nat, second: nat, flags: Flags)
    ensures var rs := Regions(space, first, second, flags); Ascending(rs) && Inside(rs, first, second)
  {
    VisitedAscendsInside(space, first, second, first, 0);
    KeepAscending(Visited(space, first, second, first, 0), flags);
    KeepInside(Visited(space, first, second, first, 0), flags, first, second);
  }

  /** From a page boundary: regions are page aligned and pairwise disjoint. */
  lemma {:induction false} AlignedRegionsDisjoint(space: AddressSpace, first: nat, second: nat, flags: Flags)
    requires first % PAGE == 0
    ensures var rs := Regions(space, first, second, flags);
            Disjoint(rs) && forall i :: 0 <= i < |rs| ==> rs[i].base % PAGE == 0
  {
    var vs := Visited(space, first, second, first, 0);
    VisitedGapless(space, first, second, first, 0);
    GaplessIsDisjoint(vs, first);
    KeepDisjoint(vs, flags);
    KeepMembers(vs, flags);
    var rs := Keep(vs, flags);
    assert forall i :: 0 <= i < |rs| ==> rs[i] in rs;
  }

  /** A range no longer than one page is covered by its first interval, so there is nothing to overlap with. */
  lemma {:induction false} ShortRangeSingleInterval(space: AddressSpace, first: nat, second: nat)
    requires second <= first + PAGE
    ensures |Visited(space, first, second, first, 0)| <= 1
  {
    if first < second && space(0, first).Some? {
      var v := Clip(space(0, first).value, first, first, second);
      assert v.base == first && v.End() == second;
    }
  }

  function OnePageRuns(flags: Flags): AddressSpace {
    (n: nat, a: nat) => Some(PageRun(1, Attributes(flags, Committed, Private)))
  }

  lemma {:induction false} UnalignedWalkOverlaps(first: nat, second: nat, flags: Flags)
    requires flags != {} && first % PAGE != 0 && first + PAGE < second
    ensures !Disjoint(Regions(OnePageRuns(flags), first, second, flags))
  {
    var space := OnePageRuns(flags);
    var v := Clip(space(0, first).value, first, first, second);
    var w := Clip(space(1, v.End()).value, v.End(), first, second);
    PageDownShift(first, 1);
    assert v.End() == first + PAGE && w.base == PageDown(first) + PAGE < v.End();
    var rest := Visited(space, first, second, w.End(), 2);
    TwoKept(v, w, rest, flags);
    assert Visited(space, first, second, first, 0) == [v] + ([w] + rest);
    var rs := Regions(space, first, second, flags);
    assert rs[0] == v && rs[1] == w;
  }

  lemma {:induction false} TwoKept(v: Interval, w: Interval, rest: seq<Interval>, flags: Flags)
    requires Eligible(v.attributes, flags) && Eligible(w.attributes, flags)
    ensures Keep([v] + ([w] + rest), flags) == [v] + ([w] + Keep(rest, flags))
  {
    assert ([v] + ([w] + rest))[1..] == [w] + rest;
    assert ([w] + rest)[1..] == rest;
  }

  /**
   * The regions are pairwise disjoint for every target exactly when the range starts on a page
   * boundary, or is too short or too permissive for two regions to come back.
   */
  lemma {:induction false} DisjointIffAligned(first: nat, second: nat, flags: Flags)
    ensures (forall space: AddressSpace :: Disjoint(Regions(space, first, second, flags)))
            <==> first % 4096 == 0 || second <= first + 4096 || flags == {}
  {
    if first % PAGE == 0 || second <= first + PAGE || flags == {} {
      forall space: AddressSpace
        ensures Disjoint(Regions(space, first, second, flags))
      {
        var vs := Visited(space, first, second, first, 0);
        if first % PAGE == 0 {
          AlignedRegionsDisjoint(space, first, second, flags);
        } else if second <= first + PAGE {
          ShortRangeSingleInterval(space, first, second);
          KeepDisjoint(vs, flags);
        } else {
          NothingEligible(vs);
        }
      }
    } else {
      UnalignedWalkOverlaps(first, second, flags);
    }
  }

  lemma {:induction false} NothingEligible(vs: seq<Interval>)
    ensures Keep(vs, {}) == []
  {
    if vs != [] {
      NothingEligible(vs[1..]);
    }
  }

  /** The queries report the attributes of every page of the run. */
  ghost predicate Describes(space: AddressSpace, attributes: nat -> Attributes) {
    forall n: nat, a: nat, p: nat ::
      space(n, a).Some? && a / PAGE <= p < a / PAGE + space(n, a).value.pages
      ==> attributes(p) == space(n, a).value.attributes
  }

  lemma {:induction false} VisitedDescribes(space: AddressSpace, attributes: nat -> Attributes,
      first: nat, second: nat, at: nat, queries: nat)
    requires Describes(space, attributes)
    requires first <= at && (at % PAGE == 0 || at >= second)
    ensures forall v, a: nat :: v in Visited(space, first, second, at, queries) && v.Contains(a)
              ==> attributes(a / PAGE) == v.attributes
    decreases second - at
  {
    if at < second && space(queries, at).Some? {
      var v := Clip(space(queries, at).value, at, first, second);
      VisitedDescribes(space, attributes, first, second, v.End(), queries + 1);
      forall a: nat | v.Contains(a)
        ensures attributes(a / PAGE) == v.attributes
      {
        assert at / PAGE <= a / PAGE < at / PAGE + space(queries, at).value.pages;
      }
    }
  }

  lemma {:induction false} EligibleSpelled(page: Attributes, flags: Flags)
    ensures Eligible(page, flags)
            <==> page.state == Committed && page.kind != Mapped && exists b :: b in page.protect && b in flags
  {
    SharedFlag(page.protect, flags);
  }

  lemma {:induction false} KeptCover(vs: seq<Interval>, flags: Flags, attributes: nat -> Attributes, a: nat)
    requires forall v :: v in vs && v.Contains(a) ==> attributes(a / PAGE) == v.attributes
    ensures Covers(Keep(vs, flags), a) <==> Covers(vs, a) && Eligible(attributes(a / PAGE), flags)
  {
    KeepMembers(vs, flags);
    EligibleSpelled(attributes(a / PAGE), flags);
    if v :| v in vs && v.Contains(a) && Eligible(attributes(a / PAGE), flags) {
      assert v in Keep(vs, flags);
    }
  }

  lemma {:induction false} WalkCovers(vs: seq<Interval>, at: nat, a: nat)
    requires Gapless(vs, at)
    ensures Covers(vs, a) <==> at <= a < Reached(vs, at)
  {
    GaplessIsDisjoint(vs, at);
    if at <= a < Reached(vs, at) {
      GaplessCovers(vs, at, a);
    }
  }

  /**
   * Exact cover: from a page boundary, over a target whose pages keep their attributes, an address
   * lies in some returned region exactly when the walk got past it and its page is eligible.
   */
  lemma {:induction false} RegionsCoverExactly(space: AddressSpace, attributes: nat -> Attributes, first: nat,
      second: nat, flags: Flags, a: nat)
    requires Describes(space, attributes) && first % 4096 == 0
    ensures (exists v :: v in Regions(space, first, second, flags) && v.base <= a < v.base + v.size)
            <==> var page := attributes(a / 4096);
                 && first <= a < Reached(Visited(space, first, second, first, 0), first)
                 && page.state == Committed && page.kind != Mapped && exists b :: b in page.protect && b in flags
  {
    var vs := Visited(space, first, second, first, 0);
    VisitedGapless(space, first, second, first, 0);
    VisitedDescribes(space, attributes, first, second, first, 0);
    WalkCovers(vs, first, a);
    KeptCover(vs, flags, attributes, a);
    EligibleSpelled(attributes(a / PAGE), flags);
  }
}
