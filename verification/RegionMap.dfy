/** The guest address space of the Windows build: a map of regions keyed by base address.

    What a client sees of it is a function from addresses to cells (`At`).  This module
    defines that view, the representation invariant, and the fact everything else rests on:
    a coalesced region map is determined by its view together with the places where one
    mapping ends exactly where another begins.
  */
module RegionMap {

  datatype Prot = NoAccess | ReadOnly | ReadWrite | Execute | ExecuteRead | ExecuteReadWrite

  /** `phys` is -1 for memory with no backing offset, `fd` is -1 for the emulator's own backing file. */
  datatype Region = Region(base: int, size: int, phys: int, prot: Prot, fd: int, mapped: bool)

  type Regions = map<int, Region>

  /** What an address holds. */
  datatype Cell =
    | Unreserved
    | Free
    | Private(prot: Prot, fd: int)
    | Backed(prot: Prot, fd: int, offset: int)
  {
    predicate Mapped() { Private? || Backed? }

    /** Memory of a foreign file without an offset, and not read-only: what UnmapRegion calls for does not fit it. */
    predicate Stuck() { Private? && fd != -1 && prot != ReadOnly }
  }

  function FreeRegion(base: int, size: int): Region {
    Region(base, size, -1, NoAccess, -1, false)
  }

  predicate RegionOk(k: int, r: Region) {
    && r.base == k
    && r.size > 0
    && r.phys >= -1
    && (!r.mapped ==> r == FreeRegion(k, r.size))
  }

  /** Regions are keyed by their base, non-empty and pairwise disjoint. */
  ghost predicate WellFormed(rs: Regions) {
    && (forall k :: k in rs ==> RegionOk(k, rs[k]))
    && (forall j, k :: j in rs && k in rs && j < k ==> j + rs[j].size <= k)
  }

  /** No two free regions touch. */
  ghost predicate Coalesced(rs: Regions) {
    forall j, k :: j in rs && k in rs && !rs[j].mapped && !rs[k].mapped ==> j + rs[j].size != k
  }

  ghost predicate Covers(rs: Regions, k: int, a: int) {
    k in rs && k <= a < k + rs[k].size
  }

  /** The cell a region gives to one of its addresses. */
  function CellOf(r: Region, a: int): Cell {
    if !r.mapped then Free
    else if r.phys == -1 then Private(r.prot, r.fd)
    else Backed(r.prot, r.fd, r.phys + (a - r.base))
  }

  /** Address translation. */
  ghost function At(rs: Regions, a: int): Cell {
    if exists k :: Covers(rs, k, a) then
      var k :| Covers(rs, k, a);
      CellOf(rs[k], a)
    else Unreserved
  }

  ghost predicate Reserved(rs: Regions, a: int) {
    At(rs, a) != Unreserved
  }

  lemma Owner(rs: Regions, a: int) returns (k: int)
    requires exists j :: Covers(rs, j, a)
    ensures Covers(rs, k, a) && At(rs, a) == CellOf(rs[k], a)
  {
    k :| Covers(rs, k, a) && At(rs, a) == CellOf(rs[k], a);
    assert Covers(rs, k, a);
  }

  lemma AtRegion(rs: Regions, k: int, a: int)
    requires WellFormed(rs) && Covers(rs, k, a)
    ensures At(rs, a) == CellOf(rs[k], a)
  {
    var j := Owner(rs, a);
  }

  /** Where a region begins inside reserved memory, the region before it ends exactly there. */
  lemma NeighbourBelow(rs: Regions, k: int) returns (j: int)
    requires WellFormed(rs) && k in rs && At(rs, k - 1) != Unreserved
    ensures j in rs && j < k && j + rs[j].size == k
    ensures At(rs, k - 1) == CellOf(rs[j], k - 1)
  {
    j := Owner(rs, k - 1);
    assert j + rs[j].size <= k;
  }

  /** The address just past a region, when reserved, begins another region. */
  lemma NeighbourAbove(rs: Regions, k: int)
    requires WellFormed(rs) && k in rs && At(rs, k + rs[k].size) != Unreserved
    ensures k + rs[k].size in rs
    ensures At(rs, k + rs[k].size) == CellOf(rs[k + rs[k].size], k + rs[k].size)
  {
    var e := k + rs[k].size;
    var j := Owner(rs, e);
  }

  ghost predicate IsMappedCut(rs: Regions, k: int) {
    k in rs && At(rs, k).Mapped() && At(rs, k - 1).Mapped()
  }

  /** The bases at which one mapping follows another without a gap. */
  ghost function MappedCuts(rs: Regions): set<int> {
    set k | k in rs && IsMappedCut(rs, k)
  }

  /** Two addresses of one region have the same status. */
  lemma SameStatus(rs: Regions, k: int, a: int, b: int)
    requires WellFormed(rs) && Covers(rs, k, a) && Covers(rs, k, b)
    ensures At(rs, a) != Unreserved && At(rs, b) != Unreserved
    ensures At(rs, a).Mapped() == At(rs, b).Mapped() == rs[k].mapped
  {
    AtRegion(rs, k, a);
    AtRegion(rs, k, b);
  }

  lemma BaseAgrees(p: Regions, q: Regions, k: int)
    requires WellFormed(p) && Coalesced(p) && WellFormed(q) && k in p
    requires At(p, k) == At(q, k) && At(p, k - 1) == At(q, k - 1)
    requires IsMappedCut(p, k) ==> IsMappedCut(q, k)
    ensures k in q
  {
    AtRegion(p, k, k);
    if At(p, k - 1) != Unreserved {
      var i := NeighbourBelow(p, k);
      assert p[i].mapped && p[k].mapped ==> IsMappedCut(p, k);
    }
    var j := Owner(q, k);
    if j < k {
      SameStatus(q, j, k - 1, k);
    }
  }

  /** Every base of the first map is a base of the second. */
  lemma BasesAgree(p: Regions, q: Regions)
    requires WellFormed(p) && Coalesced(p) && WellFormed(q)
    requires forall a :: At(p, a) == At(q, a)
    requires MappedCuts(p) == MappedCuts(q)
    ensures p.Keys <= q.Keys
  {
    forall k | k in p ensures k in q {
      assert k in MappedCuts(p) <==> k in MappedCuts(q);
      BaseAgrees(p, q, k);
    }
  }

  lemma SizesAgree(p: Regions, q: Regions, k: int)
    requires WellFormed(p) && WellFormed(q) && p.Keys == q.Keys && k in p
    requires forall a :: At(p, a) == At(q, a)
    ensures p[k].size >= q[k].size
  {
    var e := k + p[k].size;
    if p[k].size < q[k].size {
      SameStatus(q, k, k, e);
      NeighbourAbove(p, k);
    }
  }

  lemma RegionAgrees(p: Regions, q: Regions, k: int)
    requires WellFormed(p) && WellFormed(q) && k in p && k in q
    requires p[k].size == q[k].size && At(p, k) == At(q, k)
    ensures p[k] == q[k]
  {
    AtRegion(p, k, k);
    AtRegion(q, k, k);
    assert RegionOk(k, p[k]) && RegionOk(k, q[k]);
  }

  /** Representation theorem: a coalesced region map is determined by what it translates
      addresses to and by its mapped cuts. */
  lemma Determined(p: Regions, q: Regions)
    requires WellFormed(p) && Coalesced(p) && WellFormed(q) && Coalesced(q)
    requires forall a :: At(p, a) == At(q, a)
    requires MappedCuts(p) == MappedCuts(q)
    ensures p == q
  {
    BasesAgree(p, q);
    BasesAgree(q, p);
    SameRegions(p, q);
  }

  lemma SameRegions(p: Regions, q: Regions)
    requires WellFormed(p) && WellFormed(q) && p.Keys == q.Keys
    requires forall a :: At(p, a) == At(q, a)
    ensures p == q
  {
    forall k | k in p ensures p[k] == q[k] {
      SizesAgree(p, q, k);
      SizesAgree(q, p, k);
      RegionAgrees(p, q, k);
    }
  }

  /** All memory of a range is free exactly when a single free region covers it, because free
      regions never touch. */
  lemma FreeRangeHasOneRegion(rs: Regions, k: int, addr: int, size: int)
    requires WellFormed(rs) && Coalesced(rs) && size > 0 && Covers(rs, k, addr)
    ensures (forall a :: addr <= a < addr + size ==> At(rs, a) == Free)
       <==> (!rs[k].mapped && addr + size <= k + rs[k].size)
  {
    if forall a :: addr <= a < addr + size ==> At(rs, a) == Free {
      AtRegion(rs, k, addr);
      assert At(rs, addr) == Free;
      var e := k + rs[k].size;
      if e < addr + size {
        assert At(rs, e) == Free;
        NeighbourAbove(rs, k);
      }
    }
    if !rs[k].mapped && addr + size <= k + rs[k].size {
      forall a | addr <= a < addr + size ensures At(rs, a) == Free {
        AtRegion(rs, k, a);
      }
    }
  }

  /** The region with the greatest base at or below `a`: std::prev(regions.upper_bound(a)). */
  predicate IsFloor(rs: Regions, a: int, k: int) {
    k in rs && k <= a && forall j :: j in rs && j <= a ==> j <= k
  }

  lemma FloorExists(rs: Regions, a: int)
    requires exists k :: k in rs && k <= a
    ensures exists k :: IsFloor(rs, a, k)
  {
    var below := set k | k in rs && k <= a;
    var j :| j in rs && j <= a;
    assert j in below;
    var m := Greatest(below);
    assert forall i :: i in rs && i <= a ==> i in below;
    assert IsFloor(rs, a, m);
  }

  predicate IsCeiling(rs: Regions, a: int, k: int) {
    k in rs && a <= k && forall j :: j in rs && a <= j ==> k <= j
  }

  lemma CeilingExists(rs: Regions, a: int)
    requires exists k :: k in rs && a <= k
    ensures exists k :: IsCeiling(rs, a, k)
  {
    var above := set k | k in rs && a <= k;
    var j :| j in rs && a <= j;
    assert j in above;
    var m := Least(above);
    assert forall i :: i in rs && a <= i ==> i in above;
    assert IsCeiling(rs, a, m);
  }

  lemma Least(s: set<int>) returns (m: int)
    requires exists x :: x in s
    ensures m in s
    ensures forall x :: x in s ==> m <= x
    decreases |s|
  {
    var y :| y in s;
    var rest := s - {y};
    m := y;
    if exists x :: x in rest {
      var n := Least(rest);
      m := if n < y then n else y;
    }
    assert forall x :: x in s ==> x == y || x in rest;
  }

  lemma Greatest(s: set<int>) returns (m: int)
    requires exists x :: x in s
    ensures m in s
    ensures forall x :: x in s ==> x <= m
    decreases |s|
  {
    var y :| y in s;
    var rest := s - {y};
    m := y;
    if exists x :: x in rest {
      var n := Greatest(rest);
      m := if n > y then n else y;
    }
    assert forall x :: x in s ==> x == y || x in rest;
  }

  /** `prev` is the base before `it`, where there is one. */
  ghost predicate IsPrevious(rs: Regions, it: int, found: bool, prev: int) {
    && (found <==> exists j :: j in rs && j < it)
    && (found ==> IsFloor(rs, it - 1, prev))
  }

  ghost predicate IsFollowing(rs: Regions, it: int, found: bool, next: int) {
    && (found <==> exists j :: j in rs && j > it)
    && (found ==> IsCeiling(rs, it + 1, next))
  }

  ghost predicate FreeBelow(rs: Regions, it: int) {
    At(rs, it - 1) == Free
  }

  ghost predicate FreeAbove(rs: Regions, it: int) {
    it in rs && At(rs, it + rs[it].size) == Free
  }

  lemma NoFreeBelow(rs: Regions, it: int, found: bool, prev: int)
    requires WellFormed(rs) && it in rs && IsPrevious(rs, it, found, prev)
    requires !(found && !rs[prev].mapped && prev + rs[prev].size == it)
    ensures !FreeBelow(rs, it)
  {
    if At(rs, it - 1) == Free {
      var j := NeighbourBelow(rs, it);
    }
  }

  lemma NoFreeAbove(rs: Regions, it: int, found: bool, next: int)
    requires WellFormed(rs) && it in rs && IsFollowing(rs, it, found, next)
    requires !(found && !rs[next].mapped && it + rs[it].size == next)
    ensures !FreeAbove(rs, it)
  {
    if At(rs, it + rs[it].size) == Free {
      NeighbourAbove(rs, it);
    }
  }

  lemma FloorCovers(rs: Regions, a: int, k: int)
    requires WellFormed(rs) && IsFloor(rs, a, k)
    ensures At(rs, a) != Unreserved <==> Covers(rs, k, a)
  {
    if Covers(rs, k, a) { AtRegion(rs, k, a); }
    if At(rs, a) != Unreserved {
      var j := Owner(rs, a);
    }
  }

  /** A range is free exactly when the region at or below its start is free and holds all of it. */
  lemma FreeIffHeld(rs: Regions, k: int, addr: int, size: int)
    requires WellFormed(rs) && Coalesced(rs) && size > 0 && IsFloor(rs, addr, k)
    ensures (forall a :: addr <= a < addr + size ==> At(rs, a) == Free)
       <==> (!rs[k].mapped && addr + size <= k + rs[k].size)
  {
    FloorCovers(rs, addr, k);
    if Covers(rs, k, addr) {
      FreeRangeHasOneRegion(rs, k, addr, size);
    }
  }
}
