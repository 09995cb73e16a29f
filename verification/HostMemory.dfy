/** What the operating system holds behind the region map: placeholders, file views and committed
    pages.  The calls the emulator makes are given with the conditions under which Windows accepts
    them, so that every call in `AddressSpace` is shown to be a legal one. */
module HostMemory {
  import opened RegionMap
  import opened RegionEdits

  datatype HostRegion =
    | Placeholder(size: int)
    | View(size: int, fd: int, offset: int, prot: Prot)
    | Committed(size: int, fd: int, offset: int, prot: Prot)

  type Host = map<int, HostRegion>

  /** MapRegion asks for a file view, rather than for committed pages. */
  predicate TakesView(r: Region) {
    r.phys != -1 && !(r.fd != -1 && r.prot == ReadOnly)
  }

  /** UnmapRegion releases a file view, rather than committed pages. */
  predicate ReleasesView(r: Region) {
    (r.fd != -1 && r.prot != ReadOnly) || (r.fd == -1 && r.phys != -1)
  }

  /** A foreign file is mapped with an offset, or read-only. */
  predicate Releasable(r: Region) { !CellOf(r, r.base).Stuck() }

  /** UnmapRegion recomputes what kind of memory MapRegion had asked for; the two agree on exactly
      the releasable regions. */
  lemma ReleaseMatches(r: Region)
    requires r.mapped
    ensures TakesView(r) == ReleasesView(r) <==> Releasable(r)
  {
  }

  function HostOf(r: Region): HostRegion {
    if !r.mapped then Placeholder(r.size)
    else if TakesView(r) then View(r.size, r.fd, r.phys, r.prot)
    else Committed(r.size, r.fd, r.phys, r.prot)
  }

  ghost function Mirror(rs: Regions): Host {
    map k | k in rs :: HostOf(rs[k])
  }

  ghost predicate Holds(h: Host, k: int, a: int) {
    k in h && k <= a < k + h[k].size
  }

  /** What memory of a kind holds `d` bytes from its base: a view and pages read from a file hold the file from an
      offset on. */
  function ServedBy(m: HostRegion, d: int): Cell {
    match m
    case Placeholder(_) => Free
    case View(_, fd, offset, prot) => Backed(prot, fd, offset + d)
    case Committed(_, fd, offset, prot) => if offset == -1 then Private(prot, fd) else Backed(prot, fd, offset + d)
  }

  /** What an address holds as Windows has it, whatever the region map says. */
  ghost function Served(h: Host, a: int): Cell {
    if exists k :: Holds(h, k, a) then
      var k :| Holds(h, k, a);
      ServedBy(h[k], a - k)
    else Unreserved
  }

  /** Windows serves every address as the region map translates it. */
  lemma MirrorServes(rs: Regions, a: int)
    requires WellFormed(rs)
    ensures Served(Mirror(rs), a) == At(rs, a)
  {
    var h := Mirror(rs);
    if k :| Holds(h, k, a) {
      assert RegionOk(k, rs[k]) && Covers(rs, k, a);
      AtRegion(rs, k, a);
      forall j | Holds(h, j, a) ensures j == k {
        assert Covers(rs, j, a);
      }
    } else if exists k :: Covers(rs, k, a) {
      var k :| Covers(rs, k, a);
      assert Holds(h, k, a);
    }
  }

  /** Windows has the memory that a mapping asks for: served from the offset on, by a file view unless it is private
      or a read-only copy of a foreign file. */
  ghost predicate Provided(h: Host, addr: int, phys: int, size: int, prot: Prot, fd: int) {
    && addr in h && h[addr].size == size
    && (h[addr].View? <==> phys != -1 && !(fd != -1 && prot == ReadOnly))
    && (h[addr].Committed? <==> phys == -1 || (fd != -1 && prot == ReadOnly))
    && forall a :: addr <= a < addr + size ==>
         Served(h, a) == if phys == -1 then Private(prot, fd) else Backed(prot, fd, phys + (a - addr))
  }

  lemma MirrorProvides(rs: Regions, r: Region)
    requires WellFormed(rs) && r.base in rs && rs[r.base] == r && r.mapped
    ensures Provided(Mirror(rs), r.base, r.phys, r.size, r.prot, r.fd)
  {
    forall a | r.base <= a < r.base + r.size ensures Served(Mirror(rs), a) == CellOf(r, a) {
      MirrorServes(rs, a);
      AtRegion(rs, r.base, a);
    }
  }

  lemma MirrorUpdate(rs: Regions, k: int, r: Region)
    ensures Mirror(rs[k := r]) == Mirror(rs)[k := HostOf(r)]
  {
  }

  ghost predicate HostCovers(h: Host, a: int) {
    exists k :: k in h && k <= a < k + h[k].size
  }

  /** Every address of `[base, base+size)` lies in a placeholder that lies in that range. */
  ghost predicate Tiled(h: Host, base: int, size: int) {
    && (forall k :: k in h && k < base + size && base < k + h[k].size ==>
          h[k].Placeholder? && base <= k && k + h[k].size <= base + size)
    && (forall a :: base <= a < base + size ==> HostCovers(h, a))
  }

  /** VirtualFreeEx with MEM_PRESERVE_PLACEHOLDER on part of a placeholder. */
  ghost function SplitPlaceholder(h: Host, base: int, size: int): Host
    requires base in h && h[base].Placeholder? && 0 < size < h[base].size
    requires base + size !in h
  {
    h[base := Placeholder(size)][base + size := Placeholder(h[base].size - size)]
  }

  /** VirtualFreeEx with MEM_COALESCE_PLACEHOLDERS. */
  ghost function CoalescePlaceholders(h: Host, base: int, size: int): Host
    requires base in h && Tiled(h, base, size)
  {
    (map k | k in h && !(base <= k < base + size) :: h[k])[base := Placeholder(size)]
  }

  lemma JoinedTiles(was: Regions, n: Regions, it: int)
    requires WellFormed(was) && WellFormed(n) && Joined(was, n, it)
    ensures Tiled(Mirror(was), it, n[it].size)
  {
    var h, e := Mirror(was), it + n[it].size;
    forall k | k in h && k < e && it < k + h[k].size
      ensures h[k].Placeholder? && it <= k && k + h[k].size <= e
    {
      JoinedPart(was, n, it, k);
    }
    forall a | it <= a < e ensures HostCovers(h, a) {
      JoinedCovers(was, n, it, a);
    }
  }

  lemma JoinedCovers(was: Regions, n: Regions, it: int, a: int)
    requires WellFormed(n) && Joined(was, n, it) && it <= a < it + n[it].size
    ensures HostCovers(Mirror(was), a)
  {
    AtRegion(n, it, a);
    assert At(was, a) == At(n, a);
    var k := Owner(was, a);
    assert k in Mirror(was) && k <= a < k + Mirror(was)[k].size;
  }

  /** Asking Windows to merge the placeholders of the joined region brings its state in line. */
  lemma JoinedMirror(was: Regions, n: Regions, it: int)
    requires WellFormed(was) && WellFormed(n) && Joined(was, n, it)
    ensures it in Mirror(was) && Tiled(Mirror(was), it, n[it].size)
    ensures CoalescePlaceholders(Mirror(was), it, n[it].size) == Mirror(n)
  {
    JoinedTiles(was, n, it);
  }

  lemma CoalesceMeets(was: Regions, mid: Regions, n: Regions, start: int, it: int, addr: int)
    requires WellFormed(was) && WellFormed(n) && Covers(was, start, addr)
    requires Joined(was, mid, it) && it <= start < it + mid[it].size && !FreeBelow(mid, it)
    requires Joined(mid, n, it) && n[it].size >= mid[it].size && !FreeAbove(n, it)
    ensures Joined(was, n, it) && Covers(n, it, addr) && Maximal(n, it)
  {
    JoinedTwice(was, mid, n, it);
    JoinedPart(was, n, it, start);
    assert FreeBelow(n, it) == FreeBelow(mid, it);
  }

  /** Cutting a region in two: what becomes of the map and of what stands behind it. */
  lemma CutKeeps(was: Regions, k: int, x: int, n: Regions)
    requires WellFormed(was) && k in was && k < x < k + was[k].size
    requires was[k].mapped ==> was[k].phys != -1
    requires n == SplitAt(was, k, x)
    ensures WellFormed(n) && x !in was && n.Keys == was.Keys + {x}
    ensures n[k].mapped == n[x].mapped == was[k].mapped && (was[k].mapped ==> n[k].phys != -1 && n[x].phys != -1)
    ensures n[k].size == x - k && n[x].size == was[k].size - (x - k) && n[k].base == k && n[x].base == x
    ensures Mirror(n) == Mirror(was)[k := HostOf(n[k])][x := HostOf(n[x])]
  {
    SplitAtWellFormed(was, k, x);
    assert RegionOk(k, was[k]);
  }

  /** The placeholder of the cut region split, and one of the halves filled again. */
  lemma HalfRefilled(m: Host, k: int, x: int, whole: HostRegion, p: HostRegion, q: HostRegion, hk: HostRegion,
                     hx: HostRegion)
    requires k != x
    ensures m[k := whole][k := p][x := q][x := hx] == m[k := hk][x := hx][k := p]
    ensures m[k := whole][k := p][x := q][k := hk] == m[k := hk][x := hx][x := q]
  {
  }
}
