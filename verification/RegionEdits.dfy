/** The three elementary edits of a region map (cutting a region in two, overwriting one region,
    joining two free neighbours) and what each does to the view, and the two specifications
    the address space is held to. */
module RegionEdits {
  import opened RegionMap

  /** Cuts region `k` at `x`; a mapped piece keeps its translation. */
  function SplitAt(rs: Regions, k: int, x: int): Regions
    requires k in rs && k < x < k + rs[k].size
  {
    var r := rs[k];
    rs[k := r.(size := x - k)]
      [x := Region(x, r.size - (x - k), if r.mapped then r.phys + (x - k) else -1, r.prot, r.fd, r.mapped)]
  }

  lemma SplitAtWellFormed(rs: Regions, k: int, x: int)
    requires WellFormed(rs) && k in rs && k < x < k + rs[k].size
    requires rs[k].mapped ==> rs[k].phys != -1
    ensures x !in rs
    ensures WellFormed(SplitAt(rs, k, x))
  {
    assert RegionOk(k, rs[k]);
    var n := SplitAt(rs, k, x);
    forall i, j | i in n && j in n && i < j ensures i + n[i].size <= j {
      if i in rs && j in rs { assert i + rs[i].size <= j; }
      if i == x { assert k + rs[k].size <= j; }
      if j == x && i != k { assert i < k; assert i + rs[i].size <= k; }
    }
  }

  /** The half that has an address gives it the cell the whole gave it. */
  lemma SplitAtHalf(rs: Regions, k: int, x: int, j: int, a: int)
    requires WellFormed(rs) && k in rs && k < x < k + rs[k].size && x !in rs
    requires rs[k].mapped ==> rs[k].phys != -1
    requires Covers(SplitAt(rs, k, x), j, a)
    ensures
      var i := if j == x then k else j;
      Covers(rs, i, a) && CellOf(SplitAt(rs, k, x)[j], a) == CellOf(rs[i], a)
  {
    assert RegionOk(k, rs[k]);
  }

  lemma SplitAtView(rs: Regions, k: int, x: int, a: int)
    requires WellFormed(rs) && k in rs && k < x < k + rs[k].size
    requires rs[k].mapped ==> rs[k].phys != -1
    requires WellFormed(SplitAt(rs, k, x)) && x !in rs
    ensures At(SplitAt(rs, k, x), a) == At(rs, a)
  {
    var n := SplitAt(rs, k, x);
    if exists j :: Covers(n, j, a) {
      var j := Owner(n, a);
      SplitAtHalf(rs, k, x, j, a);
      AtRegion(rs, if j == x then k else j, a);
    } else if exists i :: Covers(rs, i, a) {
      var i := Owner(rs, a);
      assert Covers(n, if i == k && x <= a then x else i, a);
    }
  }

  lemma SplitAtPreserves(rs: Regions, k: int, x: int)
    requires WellFormed(rs) && k in rs && k < x < k + rs[k].size
    requires rs[k].mapped ==> rs[k].phys != -1
    ensures x !in rs
    ensures WellFormed(SplitAt(rs, k, x))
    ensures forall a :: At(SplitAt(rs, k, x), a) == At(rs, a)
  {
    SplitAtWellFormed(rs, k, x);
    forall a ensures At(SplitAt(rs, k, x), a) == At(rs, a) {
      SplitAtView(rs, k, x, a);
    }
  }

  /** Shortens region `k` to `size`, leaving the rest as a region of its own. */
  function CutTail(rs: Regions, k: int, size: int): Regions
    requires k in rs && 0 < size <= rs[k].size
  {
    if rs[k].size == size then rs else SplitAt(rs, k, k + size)
  }

  lemma CutTailPreserves(rs: Regions, k: int, size: int)
    requires WellFormed(rs) && k in rs && 0 < size <= rs[k].size
    requires rs[k].mapped ==> rs[k].phys != -1
    ensures WellFormed(CutTail(rs, k, size))
    ensures forall a :: At(CutTail(rs, k, size), a) == At(rs, a)
    ensures CutTail(rs, k, size).Keys == rs.Keys + (if size < rs[k].size then {k + size} else {})
    ensures CutTail(rs, k, size)[k] == rs[k].(size := size)
  {
    if rs[k].size != size {
      SplitAtPreserves(rs, k, k + size);
    }
  }

  /** Cuts out `[addr, addr+size)` from the region `k` around it, with at most two cuts. */
  function Carve(rs: Regions, k: int, addr: int, size: int): Regions
    requires k in rs && k <= addr && 0 < size && addr + size <= k + rs[k].size
  {
    CutTail(if k == addr then rs else SplitAt(rs, k, addr), addr, size)
  }

  /** `c` is `rs` with `[addr, addr+size)`, part of region `k`, made a region of its own. */
  ghost predicate Carved(rs: Regions, k: int, addr: int, size: int, c: Regions)
    requires k in rs
  {
    && (forall a :: At(c, a) == At(rs, a))
    && c.Keys == rs.Keys + {addr} + (if addr + size < k + rs[k].size then {addr + size} else {})
    && c[addr].size == size
    && c[addr].mapped == rs[k].mapped
    && (forall x :: x in rs && x != k ==> c[x] == rs[x])
  }

  /** The region carved out holds what was there. */
  lemma CarvedCell(rs: Regions, k: int, addr: int, size: int, c: Regions)
    requires WellFormed(rs) && WellFormed(c) && Covers(rs, k, addr) && size > 0 && Carved(rs, k, addr, size, c)
    ensures CellOf(c[addr], addr) == CellOf(rs[k], addr)
  {
    AtRegion(c, addr, addr);
    AtRegion(rs, k, addr);
  }

  lemma CarvePreserves(rs: Regions, k: int, addr: int, size: int)
    requires WellFormed(rs) && k in rs && k <= addr && 0 < size && addr + size <= k + rs[k].size
    requires rs[k].mapped ==> rs[k].phys != -1
    ensures WellFormed(Carve(rs, k, addr, size))
    ensures Carved(rs, k, addr, size, Carve(rs, k, addr, size))
  {
    if k == addr {
      CutTailPreserves(rs, addr, size);
    } else {
      SplitAtPreserves(rs, k, addr);
      assert rs[k].mapped ==> rs[k].phys >= 0 by { assert RegionOk(k, rs[k]); }
      CutTailPreserves(SplitAt(rs, k, addr), addr, size);
    }
  }

  /** Overwriting region `k` by one of the same extent changes exactly its own addresses. */
  lemma OverwriteOne(rs: Regions, k: int, r: Region)
    requires WellFormed(rs) && k in rs && RegionOk(k, r) && r.size == rs[k].size
    ensures WellFormed(rs[k := r])
    ensures forall a :: At(rs[k := r], a) == if k <= a < k + r.size then CellOf(r, a) else At(rs, a)
  {
    forall a ensures At(rs[k := r], a) == if k <= a < k + r.size then CellOf(r, a) else At(rs, a) {
      OverwriteView(rs, k, r, a);
    }
  }

  lemma OverwriteView(rs: Regions, k: int, r: Region, a: int)
    requires WellFormed(rs) && k in rs && RegionOk(k, r) && r.size == rs[k].size
    requires WellFormed(rs[k := r])
    ensures At(rs[k := r], a) == if k <= a < k + r.size then CellOf(r, a) else At(rs, a)
  {
    var n := rs[k := r];
    if k <= a < k + r.size {
      assert Covers(n, k, a);
      AtRegion(n, k, a);
    } else if exists j :: Covers(n, j, a) {
      var j := Owner(n, a);
      assert Covers(rs, j, a);
      AtRegion(rs, j, a);
    } else if exists i :: Covers(rs, i, a) {
      var i := Owner(rs, a);
      assert Covers(n, i, a);
    }
  }

  /** Making one region free changes exactly its own addresses. */
  lemma FreeOne(rs: Regions, k: int, n: Regions)
    requires WellFormed(rs) && k in rs && n == rs[k := FreeRegion(k, rs[k].size)]
    ensures WellFormed(n)
    ensures forall a :: At(n, a) == if k <= a < k + rs[k].size then Free else At(rs, a)
  {
    var r := FreeRegion(k, rs[k].size);
    assert RegionOk(k, rs[k]) && RegionOk(k, r);
    forall a ensures At(n, a) == if k <= a < k + rs[k].size then Free else At(rs, a) {
      OverwriteView(rs, k, r, a);
      assert n == rs[k := r];
      assert k <= a < k + rs[k].size ==> At(n, a) == CellOf(r, a);
    }
  }

  /** Joins the free region `k` onto the free region `j` that ends where it begins. */
  function Join(rs: Regions, j: int, k: int): Regions
    requires j in rs && k in rs
  {
    rs[j := rs[j].(size := rs[j].size + rs[k].size)] - {k}
  }

  lemma JoinWellFormed(rs: Regions, j: int, k: int)
    requires WellFormed(rs) && j in rs && k in rs && !rs[j].mapped && !rs[k].mapped
    requires j + rs[j].size == k
    ensures WellFormed(Join(rs, j, k))
  {
    var n := Join(rs, j, k);
    assert RegionOk(j, rs[j]) && RegionOk(k, rs[k]);
    forall a, b | a in n && b in n && a < b ensures a + n[a].size <= b {
      assert a in rs && b in rs;
      if a == j { assert k < b; }
    }
  }

  lemma JoinView(rs: Regions, j: int, k: int, a: int)
    requires WellFormed(rs) && j in rs && k in rs && !rs[j].mapped && !rs[k].mapped
    requires j + rs[j].size == k && rs[j].size > 0 && rs[k].size > 0
    ensures At(Join(rs, j, k), a) == At(rs, a)
  {
    var n := Join(rs, j, k);
    if exists i :: Covers(n, i, a) {
      var i := Owner(n, a);
      var h := if i == j && k <= a then k else i;
      assert Covers(rs, h, a);
      AtRegion(rs, h, a);
    } else if exists i :: Covers(rs, i, a) {
      var i := Owner(rs, a);
      var h := if i == k then j else i;
      assert Covers(n, h, a);
    }
  }

  lemma JoinPreserves(rs: Regions, j: int, k: int)
    requires WellFormed(rs) && j in rs && k in rs && !rs[j].mapped && !rs[k].mapped
    requires j + rs[j].size == k
    ensures WellFormed(Join(rs, j, k))
    ensures forall a :: At(Join(rs, j, k), a) == At(rs, a)
    ensures Join(rs, j, k).Keys == rs.Keys - {k}
    ensures At(rs, k - 1) == Free && At(rs, k) == Free
  {
    JoinWellFormed(rs, j, k);
    assert RegionOk(j, rs[j]) && RegionOk(k, rs[k]);
    AtRegion(rs, j, k - 1);
    AtRegion(rs, k, k);
    forall a ensures At(Join(rs, j, k), a) == At(rs, a) {
      JoinView(rs, j, k, a);
    }
  }

  /** What mapping `[addr, addr+size)` means: those addresses get their cell and no other
      address changes; mappings that now touch the new one are cut from it. */
  ghost predicate Mapped(rs: Regions, r: Region, rs': Regions) {
    && WellFormed(rs') && Coalesced(rs')
    && (forall a :: At(rs', a) == if r.base <= a < r.base + r.size then CellOf(r, a) else At(rs, a))
    && MappedCuts(rs') == MappedCuts(rs)
         + (if At(rs, r.base - 1).Mapped() then {r.base} else {})
         + (if At(rs, r.base + r.size).Mapped() then {r.base + r.size} else {})
  }

  /** What unmapping `[addr, addr+size)` means: those addresses become free and no other
      address changes. */
  ghost predicate Unmapped(rs: Regions, addr: int, size: int, rs': Regions) {
    && WellFormed(rs') && Coalesced(rs')
    && (forall a :: At(rs', a) == if addr <= a < addr + size then Free else At(rs, a))
    && MappedCuts(rs') == set k | k in MappedCuts(rs) && !(addr <= k <= addr + size)
  }

  /** A cut at `x` would divide a mapping that has no backing offset to restore it from. */
  ghost predicate CutsUnbacked(rs: Regions, x: int) {
    exists k :: Covers(rs, k, x) && k < x && rs[k].mapped && rs[k].phys == -1
  }

  ghost predicate Clearable(rs: Regions, a: int) {
    Reserved(rs, a) && !At(rs, a).Stuck()
  }

  ghost predicate AllClearable(rs: Regions, lo: int, hi: int) {
    forall a :: lo <= a < hi ==> Clearable(rs, a)
  }

  /** The condition under which Unmap succeeds: all of the range is reserved and none of it stuck, and neither end
      of it lies inside a mapping without backing. */
  ghost predicate Unmappable(rs: Regions, addr: int, size: int) {
    && AllClearable(rs, addr, addr + size)
    && !CutsUnbacked(rs, addr) && !CutsUnbacked(rs, addr + size)
  }

  /** Free regions touch where a base has free memory on both sides. */
  lemma CoalescedByView(rs: Regions)
    requires WellFormed(rs)
    requires forall k :: k in rs ==> !(At(rs, k - 1) == Free && At(rs, k) == Free)
    ensures Coalesced(rs)
  {
    forall j, k | j in rs && k in rs && !rs[j].mapped && !rs[k].mapped ensures j + rs[j].size != k {
      if j + rs[j].size == k {
        AtRegion(rs, j, k - 1);
        AtRegion(rs, k, k);
      }
    }
  }

  lemma ViewByCoalesced(rs: Regions, k: int)
    requires WellFormed(rs) && Coalesced(rs) && k in rs
    ensures !(At(rs, k - 1) == Free && At(rs, k) == Free)
  {
    if At(rs, k - 1) == Free && At(rs, k) == Free {
      AtRegion(rs, k, k);
      var j := NeighbourBelow(rs, k);
    }
  }

  /** `n` is `rs` with the range of `r`, free before, overwritten by `r`. */
  ghost predicate Overwritten(rs: Regions, r: Region, n: Regions) {
    && (forall a :: At(n, a) == if r.base <= a < r.base + r.size then CellOf(r, a) else At(rs, a))
    && (forall x :: x in n ==> x in rs || x == r.base || x == r.base + r.size)
    && (forall x :: x in rs ==> x in n)
    && r.base in n
    && Hollow(rs, r.base, r.size)
  }

  /** The range is free, no region begins inside it, and a mapping that follows it begins at its end. */
  ghost predicate Hollow(rs: Regions, addr: int, size: int) {
    && (forall a :: addr <= a < addr + size ==> At(rs, a) == Free)
    && (At(rs, addr + size).Mapped() ==> addr + size in rs)
    && (forall x :: x in rs ==> !(addr < x < addr + size))
  }

  lemma AroundFree(rs: Regions, k: int, addr: int, size: int)
    requires WellFormed(rs) && k in rs && !rs[k].mapped && k <= addr && addr + size <= k + rs[k].size && size > 0
    ensures Hollow(rs, addr, size)
  {
    forall a | k <= a < k + rs[k].size ensures At(rs, a) == Free {
      AtRegion(rs, k, a);
    }
    if addr + size == k + rs[k].size && At(rs, addr + size).Mapped() { NeighbourAbove(rs, k); }
  }

  lemma CarvedOverwrites(rs: Regions, k: int, r: Region, c: Regions, n: Regions)
    requires WellFormed(rs) && RegionOk(r.base, r) && r.mapped
    requires k in rs && !rs[k].mapped && k <= r.base && r.base + r.size <= k + rs[k].size
    requires Carved(rs, k, r.base, r.size, c) && n.Keys == c.Keys
    requires forall a :: At(n, a) == if r.base <= a < r.base + r.size then CellOf(r, a) else At(c, a)
    ensures Overwritten(rs, r, n)
  {
    AroundFree(rs, k, r.base, r.size);
    OverwrittenIntro(rs, k, r, c, n);
  }

  lemma OverwrittenIntro(rs: Regions, k: int, r: Region, c: Regions, n: Regions)
    requires k in rs && Carved(rs, k, r.base, r.size, c) && n.Keys == c.Keys
    requires forall a :: At(n, a) == if r.base <= a < r.base + r.size then CellOf(r, a) else At(c, a)
    requires Hollow(rs, r.base, r.size)
    ensures Overwritten(rs, r, n)
  {
    assert forall x :: x in n <==> x in n.Keys;
    assert forall x :: x in rs <==> x in rs.Keys;
  }

  lemma MapCutAt(rs: Regions, r: Region, n: Regions, x: int)
    requires r.mapped && r.size > 0 && Overwritten(rs, r, n)
    ensures IsMappedCut(n, x) <==>
      (IsMappedCut(rs, x)
       || (x == r.base && At(rs, r.base - 1).Mapped())
       || (x == r.base + r.size && At(rs, r.base + r.size).Mapped()))
  {
    assert At(n, x) == if r.base <= x < r.base + r.size then CellOf(r, x) else At(rs, x);
    assert At(n, x - 1) == if r.base <= x - 1 < r.base + r.size then CellOf(r, x - 1) else At(rs, x - 1);
  }

  lemma MapCuts(rs: Regions, r: Region, n: Regions)
    requires r.mapped && r.size > 0 && Overwritten(rs, r, n)
    ensures MappedCuts(n) == MappedCuts(rs)
         + (if At(rs, r.base - 1).Mapped() then {r.base} else {})
         + (if At(rs, r.base + r.size).Mapped() then {r.base + r.size} else {})
  {
    forall x {
      MapCutAt(rs, r, n, x);
    }
  }

  /** Overwriting free memory by a mapping meets the specification. */
  lemma MapMeets(rs: Regions, r: Region, n: Regions)
    requires WellFormed(rs) && Coalesced(rs) && r.mapped && r.size > 0
    requires WellFormed(n) && Overwritten(rs, r, n)
    ensures Mapped(rs, r, n)
  {
    forall x | x in n ensures !(At(n, x - 1) == Free && At(n, x) == Free) {
      MapLeavesCoalesced(rs, r, n, x);
    }
    CoalescedByView(n);
    MapCuts(rs, r, n);
  }

  lemma MapLeavesCoalesced(rs: Regions, r: Region, n: Regions, x: int)
    requires WellFormed(rs) && Coalesced(rs) && r.mapped && r.size > 0 && Overwritten(rs, r, n) && x in n
    ensures !(At(n, x - 1) == Free && At(n, x) == Free)
  {
    if x in rs { ViewByCoalesced(rs, x); }
    assert x == r.base ==> At(n, x).Mapped();
    assert x == r.base + r.size ==> At(n, x - 1).Mapped();
  }

  /** `n` is `rs` with `[addr, addr+size)` made free; regions may begin anew only within that range
      and at its ends. */
  ghost predicate Cleared(rs: Regions, addr: int, size: int, n: Regions) {
    && (forall a :: At(n, a) == if addr <= a < addr + size then Free else At(rs, a))
    && (forall x :: !(addr <= x <= addr + size) ==> (x in n <==> x in rs))
  }

  /** `b` is a free region with no free memory touching it. */
  ghost predicate Maximal(rs: Regions, b: int) {
    && b in rs && !rs[b].mapped
    && !FreeBelow(rs, b)
    && !FreeAbove(rs, b)
  }

  /** `n` is `rs` with some bases dropped where free regions met. */
  ghost predicate Merged(rs: Regions, n: Regions) {
    && (forall a :: At(n, a) == At(rs, a))
    && (forall x :: x in n ==> x in rs)
    && (forall x :: x in rs && x !in n ==> At(rs, x - 1) == Free && At(rs, x) == Free)
  }

  /** `n` is `was` with free regions joined into the free region `it`. */
  ghost predicate Joined(was: Regions, n: Regions, it: int) {
    Merged(was, n) && JoinedInto(was, n, it)
  }

  /** Region `it` is free, the others are as they were, and the bases dropped lie inside it. */
  ghost predicate JoinedInto(was: Regions, n: Regions, it: int) {
    && it in n && !n[it].mapped
    && (forall x :: x in n && x != it ==> x in was && n[x] == was[x])
    && (forall x :: x in was && x !in n ==> it < x < it + n[it].size)
  }

  lemma JoinedOnce(was: Regions, n: Regions, j: int, k: int, it: int)
    requires WellFormed(n) && Joined(was, n, it) && (it == j || it == k)
    requires j in n && k in n && !n[j].mapped && !n[k].mapped && j + n[j].size == k
    ensures WellFormed(Join(n, j, k)) && Joined(was, Join(n, j, k), j)
    ensures |Join(n, j, k)| < |n|
    ensures Join(n, j, k)[j].size == n[j].size + n[k].size
  {
    JoinPreserves(n, j, k);
    assert RegionOk(j, n[j]) && RegionOk(k, n[k]);
    JoinedStep(was, n, Join(n, j, k), j, k, it);
    assert |Join(n, j, k).Keys| == |n.Keys - {k}|;
  }

  lemma JoinedStep(was: Regions, n: Regions, m: Regions, j: int, k: int, it: int)
    requires Joined(was, n, it) && (it == j || it == k) && j < k
    requires j in n && k in n && !n[j].mapped && !n[k].mapped && j + n[j].size == k && n[k].size > 0
    requires m == Join(n, j, k) && (forall a :: At(m, a) == At(n, a))
    requires At(n, k - 1) == Free && At(n, k) == Free
    ensures Joined(was, m, j)
  {
    assert forall x :: x in m <==> x in n && x != k;
    MergedStep(was, n, m, k);
    JoinedIntoStep(was, n, m, j, k, it);
  }

  lemma JoinedIntoStep(was: Regions, n: Regions, m: Regions, j: int, k: int, it: int)
    requires JoinedInto(was, n, it) && (it == j || it == k) && j < k
    requires j in n && k in n && !n[j].mapped && !n[k].mapped && j + n[j].size == k && n[k].size > 0
    requires m == Join(n, j, k)
    ensures JoinedInto(was, m, j)
  {
  }

  lemma MergedStep(was: Regions, n: Regions, m: Regions, k: int)
    requires Merged(was, n) && (forall x :: x in m <==> x in n && x != k)
    requires (forall a :: At(m, a) == At(n, a)) && At(n, k - 1) == Free && At(n, k) == Free
    ensures Merged(was, m)
  {
    assert At(was, k) == At(n, k) && At(was, k - 1) == At(n, k - 1);
  }

  lemma JoinedTwice(was: Regions, mid: Regions, n: Regions, it: int)
    requires Joined(was, mid, it) && Joined(mid, n, it) && n[it].size >= mid[it].size
    ensures Joined(was, n, it)
  {
    forall x | x in was && x !in n ensures At(was, x - 1) == Free && At(was, x) == Free {
      if x in mid { assert At(was, x - 1) == At(mid, x - 1) && At(was, x) == At(mid, x); }
    }
  }

  /** The regions that went into a joined region are free and lie inside it. */
  lemma JoinedPart(was: Regions, n: Regions, it: int, k: int)
    requires WellFormed(was) && WellFormed(n) && Joined(was, n, it) && k in was
    requires it <= k < it + n[it].size
    ensures !was[k].mapped && k + was[k].size <= it + n[it].size
  {
    AtRegion(n, it, k);
    AtRegion(was, k, k);
    var e := it + n[it].size;
    if k + was[k].size > e {
      AtRegion(was, k, e);
      NeighbourAbove(n, it);
    }
  }

  /** A maximal free region reaches as far up as free memory does, so no base inside a free range that
      it meets has free memory on both sides. */
  lemma MaximalSeparates(n: Regions, b: int, addr: int, size: int, x: int)
    requires WellFormed(n) && Covers(n, b, addr) && Maximal(n, b) && x in n && addr <= x <= addr + size
    requires forall a :: addr <= a < addr + size ==> At(n, a) == Free
    ensures !(At(n, x - 1) == Free && At(n, x) == Free)
  {
    assert addr + size <= b + n[b].size;
  }

  lemma UnmapCoalesced(rs: Regions, addr: int, size: int, mid: Regions, n: Regions, b: int, x: int)
    requires WellFormed(rs) && Coalesced(rs) && size > 0
    requires Cleared(rs, addr, size, mid) && Merged(mid, n)
    requires WellFormed(n) && Covers(n, b, addr) && Maximal(n, b) && x in n
    ensures !(At(n, x - 1) == Free && At(n, x) == Free)
  {
    if addr <= x <= addr + size {
      assert forall a :: addr <= a < addr + size ==> At(n, a) == Free;
      MaximalSeparates(n, b, addr, size, x);
    } else {
      ViewUnchanged(rs, addr, size, mid, n, x);
      ViewByCoalesced(rs, x);
    }
  }

  lemma ViewUnchanged(rs: Regions, addr: int, size: int, mid: Regions, n: Regions, x: int)
    requires Cleared(rs, addr, size, mid) && Merged(mid, n) && x in n && !(addr <= x <= addr + size)
    ensures x in rs && At(n, x) == At(rs, x) && At(n, x - 1) == At(rs, x - 1)
  {
  }

  lemma UnmapCutAt(rs: Regions, addr: int, size: int, mid: Regions, n: Regions, x: int)
    requires size > 0 && Cleared(rs, addr, size, mid) && Merged(mid, n)
    ensures IsMappedCut(n, x) <==> (IsMappedCut(rs, x) && !(addr <= x <= addr + size))
  {
    assert At(n, x) == At(mid, x) && At(n, x - 1) == At(mid, x - 1);
  }

  lemma UnmapCuts(rs: Regions, addr: int, size: int, mid: Regions, n: Regions)
    requires size > 0 && Cleared(rs, addr, size, mid) && Merged(mid, n)
    ensures MappedCuts(n) == set k | k in MappedCuts(rs) && !(addr <= k <= addr + size)
  {
    forall x ensures IsMappedCut(n, x) <==> (IsMappedCut(rs, x) && !(addr <= x <= addr + size)) {
      UnmapCutAt(rs, addr, size, mid, n, x);
    }
  }

  /** Clearing the range and merging around it meets the specification. */
  lemma UnmapMeets(rs: Regions, addr: int, size: int, mid: Regions, n: Regions, b: int)
    requires WellFormed(rs) && Coalesced(rs) && size > 0
    requires Cleared(rs, addr, size, mid) && Merged(mid, n)
    requires WellFormed(n) && Covers(n, b, addr) && Maximal(n, b)
    ensures Unmapped(rs, addr, size, n)
  {
    assert Coalesced(n) by {
      forall x | x in n ensures !(At(n, x - 1) == Free && At(n, x) == Free) {
        UnmapCoalesced(rs, addr, size, mid, n, b, x);
      }
      CoalescedByView(n);
    }
    UnmapCuts(rs, addr, size, mid, n);
  }

  /** `n` is `rs` with `[cur, cur+piece)`, part of region `k`, made a free region of its own. */
  ghost predicate Freed(rs: Regions, k: int, cur: int, piece: int, n: Regions)
    requires k in rs
  {
    && (forall a :: At(n, a) == if cur <= a < cur + piece then Free else At(rs, a))
    && n.Keys == rs.Keys + {cur} + (if cur + piece < k + rs[k].size then {cur + piece} else {})
    && n[cur] == FreeRegion(cur, piece)
    && (forall x :: x in rs && x != k ==> n[x] == rs[x])
  }

  lemma FreedIntro(rs: Regions, k: int, cur: int, piece: int, c: Regions, n: Regions)
    requires k in rs && Carved(rs, k, cur, piece, c) && (cur == k || cur !in rs)
    requires n == c[cur := FreeRegion(cur, piece)]
    requires forall a :: At(n, a) == if cur <= a < cur + piece then Free else At(c, a)
    ensures Freed(rs, k, cur, piece, n)
  {
    assert n.Keys == c.Keys;
  }

  /** From `cur` on, the regions are still those of `rs`. */
  ghost predicate SameFrom(rs: Regions, cur: int, n: Regions) {
    forall x :: x >= cur ==> (x in n <==> x in rs) && (x in n ==> n[x] == rs[x])
  }

  lemma ClearedStep(rs: Regions, addr: int, cur: int, mid: Regions, k: int, piece: int, n: Regions)
    requires addr <= cur && piece > 0 && Cleared(rs, addr, cur - addr, mid)
    requires k in mid && k <= cur && Freed(mid, k, cur, piece, n)
    ensures Cleared(rs, addr, cur + piece - addr, n)
  {
    assert forall x :: x in n <==> x in n.Keys;
    assert forall x :: x in mid <==> x in mid.Keys;
  }

  lemma SameFromStep(rs: Regions, cur: int, mid: Regions, k: int, piece: int, n: Regions)
    requires piece > 0 && SameFrom(rs, cur, mid)
    requires k in mid && k <= cur && Freed(mid, k, cur, piece, n)
    requires cur + piece == k + mid[k].size
    ensures SameFrom(rs, cur + piece, n)
  {
    assert forall x :: x in n <==> x in n.Keys;
    assert forall x :: x in mid <==> x in mid.Keys;
  }

  /** Clearing the next piece goes wrong exactly when an end of the range cuts an unbacked mapping or the memory
      is stuck. */
  lemma PieceOutcome(rs: Regions, addr: int, end: int, cur: int, k: int, piece: int)
    requires WellFormed(rs) && Covers(rs, k, cur) && addr <= cur < end && (cur == addr || cur == k)
    requires piece == if k + rs[k].size < end then k + rs[k].size - cur else end - cur
    ensures var good := !(rs[k].mapped && rs[k].phys == -1) || (cur == k && piece == rs[k].size);
      && (!good || CellOf(rs[k], cur).Stuck() ==> !Unmappable(rs, addr, end - addr))
      && (good && cur == addr ==> !CutsUnbacked(rs, addr))
      && (good && cur + piece == end ==> !CutsUnbacked(rs, end))
  {
    if rs[k].mapped && rs[k].phys == -1 {
      if cur != k { assert Covers(rs, k, addr); }
      else if piece != rs[k].size { assert Covers(rs, k, end); }
    }
    AtRegion(rs, k, cur);
    assert CellOf(rs[k], cur).Stuck() ==> !Clearable(rs, cur);
  }

  /** How far unmapping `[addr, addr+size)` has come: everything below `cur` is done, region `last` was
      the last one freed, and nothing above has been touched. */
  ghost predicate Progress(was: Regions, addr: int, size: int, cur: int, rs: Regions, last: int) {
    && Cleared(was, addr, cur - addr, rs)
    && AllClearable(was, addr, cur)
    && (cur == addr ==> rs == was)
    && (cur < addr + size ==> SameFrom(was, cur, rs))
    && (cur > addr ==> last in rs && last + rs[last].size == cur)
    && (cur > addr ==> !CutsUnbacked(was, addr))
    && (cur == addr + size ==> !CutsUnbacked(was, addr + size))
  }

  lemma ClearableStep(rs: Regions, addr: int, cur: int, k: int, piece: int)
    requires WellFormed(rs) && AllClearable(rs, addr, cur) && Covers(rs, k, cur) && cur + piece <= k + rs[k].size
    requires !CellOf(rs[k], cur).Stuck()
    ensures AllClearable(rs, addr, cur + piece)
  {
    forall a | cur <= a < cur + piece ensures Clearable(rs, a) {
      AtRegion(rs, k, a);
    }
  }

  lemma FloorOfReserved(rs: Regions, a: int) returns (k: int)
    requires WellFormed(rs) && Reserved(rs, a)
    ensures IsFloor(rs, a, k) && Covers(rs, k, a) && At(rs, a) == CellOf(rs[k], a)
  {
    k := Owner(rs, a);
  }

  /** There is a region at or below the place that unmapping has come to, and it reaches beyond it exactly
      when that place was reserved to begin with. */
  lemma NextFloor(was: Regions, addr: int, size: int, cur: int, rs: Regions, last: int) returns (k: int)
    requires WellFormed(was) && WellFormed(rs) && addr <= cur < addr + size
    requires (exists j :: j in was && j <= addr) && Progress(was, addr, size, cur, rs, last)
    ensures IsFloor(rs, cur, k) && (Covers(rs, k, cur) <==> Reserved(was, cur))
  {
    assert At(rs, cur) == At(was, cur);
    assert cur > addr ==> RegionOk(last, rs[last]);
    FloorExists(rs, cur);
    k :| IsFloor(rs, cur, k);
    assert IsFloor(rs, cur, k);
    FloorCovers(rs, cur, k);
  }

  /** The next region to free is one of the original ones, and after the first it begins at `cur`. */
  lemma NextRegion(was: Regions, addr: int, size: int, cur: int, rs: Regions, last: int) returns (k: int)
    requires WellFormed(was) && WellFormed(rs) && addr <= cur < addr + size
    requires Reserved(was, cur) && Progress(was, addr, size, cur, rs, last)
    ensures IsFloor(rs, cur, k) && Covers(rs, k, cur)
    ensures Covers(was, k, cur) && rs[k] == was[k]
    ensures cur == addr || cur == k
  {
    assert At(rs, cur) == At(was, cur);
    k := FloorOfReserved(rs, cur);
    if cur > addr {
      NeighbourAbove(rs, last);
    }
  }

  lemma ProgressStep(was: Regions, addr: int, size: int, cur: int, mid: Regions, last: int,
                     k: int, piece: int, n: Regions)
    requires WellFormed(was) && addr <= cur < addr + size && Progress(was, addr, size, cur, mid, last)
    requires Covers(was, k, cur) && k in mid && mid[k] == was[k] && (cur == addr || cur == k)
    requires piece == if k + was[k].size < addr + size then k + was[k].size - cur else addr + size - cur
    requires !(was[k].mapped && was[k].phys == -1) || (cur == k && piece == was[k].size)
    requires !CellOf(was[k], cur).Stuck() && piece > 0 && Freed(mid, k, cur, piece, n)
    ensures Progress(was, addr, size, cur + piece, n, cur)
  {
    PieceOutcome(was, addr, addr + size, cur, k, piece);
    ClearedStep(was, addr, cur, mid, k, piece, n);
    ClearableStep(was, addr, cur, k, piece);
    if cur + piece < addr + size {
      SameFromStep(was, cur, mid, k, piece, n);
    }
  }
}
