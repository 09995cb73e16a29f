/** The address space of the Windows build: Map, Unmap and the splitting and merging of regions
    underneath them.  A failed ASSERT of the program is a `false` result here, and each method says
    exactly when that happens. */
module AddressSpace {
  import opened RegionMap
  import opened RegionEdits
  import opened HostMemory

  class Impl {
    var regions: Regions
    /** What Windows holds. */
    ghost var host: Host

    /** The region map is well formed and Windows holds exactly what it says. */
    ghost predicate Consistent()
      reads this
    {
      WellFormed(regions) && host == Mirror(regions)
    }

    ghost predicate Valid()
      reads this
    {
      Consistent() && Coalesced(regions)
    }

    /** So Windows serves every address as the region map translates it. */
    lemma HostAgrees(a: int)
      requires Consistent()
      ensures Served(host, a) == At(regions, a)
    {
      MirrorServes(regions, a);
    }

    /** Starts from the free ranges found at start-up, each reserved as one placeholder. */
    constructor (initial: Regions)
      requires WellFormed(initial) && Coalesced(initial)
      requires forall k :: k in initial ==> !initial[k].mapped
      ensures Valid() && regions == initial
    {
      regions := initial;
      host := Mirror(initial);
    }

    /** Replaces the placeholder of exactly this extent by the memory the region asks for. */
    method MapRegion(r: Region)
      requires r.mapped && r.base in host && host[r.base] == Placeholder(r.size)
      modifies this`host
      ensures host == old(host)[r.base := HostOf(r)] && host[r.base].size == r.size
      ensures host[r.base].View? <==> r.phys != -1 && !(r.fd != -1 && r.prot == ReadOnly)
      ensures forall a :: ServedBy(host[r.base], a - r.base) == CellOf(r, a)
    {
      host := host[r.base := HostOf(r)];
    }

    /** Gives the memory of a region back, leaving a placeholder.  Windows refuses when it is not of the kind asked
        for, which is exactly when the region is not releasable. */
    method UnmapRegion(r: Region) returns (ok: bool)
      requires r.mapped && r.base in host && host[r.base] == HostOf(r)
      modifies this`host
      ensures ok <==> Releasable(r)
      ensures ok <==>
        (old(host)[r.base].View? <==> (r.fd != -1 && r.prot != ReadOnly) || (r.fd == -1 && r.phys != -1))
      ensures host == if ok then old(host)[r.base := Placeholder(r.size)] else old(host)
    {
      ReleaseMatches(r);
      ok := if ReleasesView(r) then TakesView(r) else !TakesView(r);
      if ok {
        host := host[r.base := Placeholder(r.size)];
      }
    }

    /** The region map is well formed, and Windows holds what it says except that region `k` is,
        for now, a bare placeholder. */
    ghost predicate Opened(k: int)
      reads this
    {
      && WellFormed(regions)
      && k in regions
      && (regions[k].mapped ==> regions[k].phys != -1)
      && host == Mirror(regions)[k := Placeholder(regions[k].size)]
    }

    /** Cuts off the part of an opened region below `addr` and restores that part. */
    method CutBefore(it: int, addr: int)
      requires Opened(it) && it < addr < it + regions[it].size
      modifies this
      ensures regions == SplitAt(old(regions), it, addr)
      ensures Opened(addr)
    {
      var region := regions[it];
      var offset := addr - region.base;
      ghost var was, n := regions, SplitAt(regions, it, addr);
      CutKeeps(was, it, addr, n);
      var rest := Region(addr, region.size - offset, if region.mapped then region.phys + offset else -1,
                         region.prot, region.fd, region.mapped);
      regions := regions[it := region.(size := offset)];
      host := SplitPlaceholder(host, it, offset);
      if region.mapped {
        MapRegion(regions[it]);
      }
      regions := regions[addr := rest];
      HalfRefilled(Mirror(was), it, addr, Placeholder(region.size), Placeholder(offset), Placeholder(rest.size),
                   HostOf(n[it]), HostOf(n[addr]));
    }

    /** Cuts off the part of an opened region beyond `size` and restores that part. */
    method CutAfter(it: int, size: int)
      requires Opened(it) && 0 < size < regions[it].size
      modifies this
      ensures regions == SplitAt(old(regions), it, it + size)
      ensures Opened(it)
    {
      var region := regions[it];
      var next := it + size;
      ghost var was, n := regions, SplitAt(regions, it, next);
      CutKeeps(was, it, next, n);
      var rest := Region(next, region.size - size, if region.mapped then region.phys + size else -1,
                         region.prot, region.fd, region.mapped);
      regions := regions[it := region.(size := size)];
      regions := regions[next := rest];
      host := SplitPlaceholder(host, it, size);
      if region.mapped {
        MapRegion(rest);
      }
      HalfRefilled(Mirror(was), it, next, Placeholder(region.size), Placeholder(size), Placeholder(rest.size),
                   HostOf(n[it]), HostOf(n[next]));
    }

    /** Cuts `[addr, addr+size)` out of the region around it, remapping the pieces of a mapped
        one; fails when no single region holds the range or a mapping without backing would be cut. */
    method SplitRegion(addr: int, size: int, ghost k: int) returns (ok: bool)
      requires Consistent() && size > 0 && IsFloor(regions, addr, k)
      modifies this
      ensures ok <==> addr + size <= k + old(regions)[k].size
                      && (old(regions)[k].mapped ==> old(regions)[k].phys != -1)
      ensures ok ==> regions == Carve(old(regions), k, addr, size)
      ensures ok ==> Consistent()
    {
      var it :| it in regions && IsFloor(regions, addr, it);
      assert IsFloor(regions, addr, it);
      var region := regions[it];
      assert RegionOk(k, region);
      if region.base + region.size < addr + size {
        return false;
      }
      if region.mapped && region.phys == -1 {
        return false;
      }
      Open(it);
      CutOut(it, addr, size);
      Close(addr);
      ok := true;
    }

    /** Unmaps a mapped region, so that its placeholder can be cut. */
    method Open(it: int)
      requires Consistent() && it in regions && (regions[it].mapped ==> regions[it].phys != -1)
      modifies this`host
      ensures Opened(it)
    {
      var region := regions[it];
      assert RegionOk(it, region);
      if region.mapped {
        var ok := UnmapRegion(region);
        assert ok;
      }
    }

    /** Cuts `[addr, addr+size)` out of an opened region. */
    method CutOut(it: int, addr: int, size: int)
      requires Opened(it) && size > 0 && it <= addr && addr + size <= it + regions[it].size
      modifies this
      ensures regions == Carve(old(regions), it, addr, size)
      ensures addr in regions && regions[addr].size == size && Opened(addr)
    {
      assert RegionOk(it, regions[it]);
      if it != addr {
        CutBefore(it, addr);
      }
      assert RegionOk(addr, regions[addr]);
      if regions[addr].size != size {
        CutAfter(addr, size);
      }
    }

    /** Maps an opened region again, if it was mapped. */
    method Close(k: int)
      requires Opened(k)
      modifies this`host
      ensures Consistent()
    {
      assert RegionOk(k, regions[k]);
      if regions[k].mapped {
        MapRegion(regions[k]);
      }
    }

    /** Brings about a region of exactly `[addr, addr+size)`, as Map does before it maps. */
    method MakeRegion(addr: int, size: int, ghost k: int) returns (ok: bool)
      requires Consistent() && size > 0 && IsFloor(regions, addr, k)
      modifies this
      ensures !old(regions)[k].mapped ==> (ok <==> addr + size <= k + old(regions)[k].size)
      ensures ok ==> k <= addr && addr + size <= k + old(regions)[k].size
      ensures ok ==> Consistent() && Carved(old(regions), k, addr, size, regions)
    {
      var it :| it in regions && IsFloor(regions, addr, it);
      assert IsFloor(regions, addr, it);
      ok := true;
      if it != addr || regions[it].size != size {
        ok := SplitRegion(addr, size, k);
        if ok { CarvePreserves(old(regions), k, addr, size); }
      }
    }

    /** Turns a free region into a mapping of the same extent. */
    method Install(region: Region)
      requires Consistent() && region.base in regions && !regions[region.base].mapped
      requires region.mapped && RegionOk(region.base, region)
      requires region.size == regions[region.base].size
      modifies this
      ensures Consistent() && regions == old(regions)[region.base := region]
      ensures forall a :: At(regions, a) ==
                          if region.base <= a < region.base + region.size then CellOf(region, a)
                          else At(old(regions), a)
    {
      OverwriteOne(regions, region.base, region);
      MirrorUpdate(regions, region.base, region);
      regions := regions[region.base := region];
      MapRegion(region);
    }

    /** Maps `[addr, addr+size)`.  It succeeds exactly when all of that range is reserved and free; then Windows
        has exactly the memory asked for. */
    method Map(addr: int, phys: int, size: int, prot: Prot, fd: int) returns (ok: bool)
      requires Valid() && size > 0 && phys >= -1
      requires exists k :: k in regions && k <= addr
      modifies this
      ensures ok <==> forall a :: addr <= a < addr + size ==> At(old(regions), a) == Free
      ensures ok ==> Valid() && Mapped(old(regions), Region(addr, size, phys, prot, fd, true), regions)
      ensures ok ==> Provided(host, addr, phys, size, prot, fd)
    {
      FloorExists(regions, addr);
      ghost var k: int :| IsFloor(regions, addr, k);
      assert IsFloor(regions, addr, k);
      FreeIffHeld(regions, k, addr, size);
      ghost var was := regions;
      ok := MakeRegion(addr, size, k);
      if ok {
        ok := !regions[addr].mapped;
      }
      if ok {
        Fill(Region(addr, size, phys, prot, fd, true), was, k);
      }
    }

    /** Maps a region carved out of a free one. */
    method Fill(region: Region, ghost was: Regions, ghost k: int)
      requires Consistent() && WellFormed(was) && Coalesced(was) && k in was && region.size > 0
      requires k <= region.base && region.base + region.size <= k + was[k].size
      requires Carved(was, k, region.base, region.size, regions) && !regions[region.base].mapped
      requires region.mapped && RegionOk(region.base, region)
      modifies this
      ensures Valid() && Mapped(was, region, regions)
      ensures Provided(host, region.base, region.phys, region.size, region.prot, region.fd)
    {
      ghost var split := regions;
      Install(region);
      MirrorProvides(regions, region);
      CarvedOverwrites(was, k, region, split, regions);
      MapMeets(was, region, regions);
    }

    /** The region before `it`, if there is one. */
    method Previous(it: int) returns (found: bool, prev: int)
      requires it in regions
      ensures IsPrevious(regions, it, found, prev)
    {
      found := exists j :: j in regions && j < it;
      prev := it;
      if found {
        FloorExists(regions, it - 1);
        prev :| prev in regions && IsFloor(regions, it - 1, prev);
        assert IsFloor(regions, it - 1, prev);
      }
    }

    /** The region after `it`, if there is one. */
    method Following(it: int) returns (found: bool, next: int)
      requires it in regions
      ensures IsFollowing(regions, it, found, next)
    {
      found := exists j :: j in regions && j > it;
      next := it;
      if found {
        CeilingExists(regions, it + 1);
        next :| next in regions && IsCeiling(regions, it + 1, next);
        assert IsCeiling(regions, it + 1, next);
      }
    }

    method JoinBelow(start: int) returns (it: int, joined: bool)
      requires WellFormed(regions) && start in regions && !regions[start].mapped
      modifies this`regions
      ensures WellFormed(regions) && Joined(old(regions), regions, it)
      ensures it <= start < it + regions[it].size
      ensures !FreeBelow(regions, it)
      ensures !joined ==> regions == old(regions)
    {
      it, joined := start, false;
      var found, prev := Previous(it);
      while found && !regions[prev].mapped && prev + regions[prev].size == it
        invariant WellFormed(regions) && Joined(old(regions), regions, it)
        invariant it <= start < it + regions[it].size
        invariant IsPrevious(regions, it, found, prev)
        invariant !joined ==> regions == old(regions)
        decreases |regions|
      {
        JoinedOnce(old(regions), regions, prev, it, it);
        regions := Join(regions, prev, it);
        it := prev;
        joined := true;
        found, prev := Previous(it);
      }
      NoFreeBelow(regions, it, found, prev);
    }

    method JoinAbove(it: int) returns (joined: bool)
      requires WellFormed(regions) && it in regions && !regions[it].mapped
      modifies this`regions
      ensures WellFormed(regions) && Joined(old(regions), regions, it)
      ensures !FreeAbove(regions, it)
      ensures regions[it].size >= old(regions)[it].size
      ensures !joined ==> regions == old(regions)
    {
      joined := false;
      var found, next := Following(it);
      while found && !regions[next].mapped && it + regions[it].size == next
        invariant WellFormed(regions) && Joined(old(regions), regions, it)
        invariant IsFollowing(regions, it, found, next)
        invariant regions[it].size >= old(regions)[it].size
        invariant !joined ==> regions == old(regions)
        decreases |regions|
      {
        JoinedOnce(old(regions), regions, it, next, it);
        regions := Join(regions, it, next);
        joined := true;
        found, next := Following(it);
      }
      NoFreeAbove(regions, it, found, next);
    }

    method JoinAround(addr: int, start: int) returns (it: int, joined: bool)
      requires WellFormed(regions) && Covers(regions, start, addr) && !regions[start].mapped
      modifies this`regions
      ensures WellFormed(regions) && Joined(old(regions), regions, it)
      ensures Covers(regions, it, addr) && Maximal(regions, it)
      ensures !joined ==> regions == old(regions)
    {
      it, joined := JoinBelow(start);
      ghost var mid := regions;
      var above := JoinAbove(it);
      joined := joined || above;
      CoalesceMeets(old(regions), mid, regions, start, it, addr);
    }

    /** Has Windows merge the placeholders of the joined region. */
    method MergePlaceholders(ghost was: Regions, it: int)
      requires WellFormed(was) && WellFormed(regions) && Joined(was, regions, it)
      requires host == Mirror(was)
      modifies this`host
      ensures host == Mirror(regions)
    {
      JoinedMirror(was, regions, it);
      host := CoalescePlaceholders(Mirror(was), it, regions[it].size);
    }

    /** Merges the free region around `addr` with every free region touching it. */
    method CoalesceFreeRegions(addr: int, ghost k: int) returns (ok: bool, ghost b: int)
      requires Consistent() && IsFloor(regions, addr, k) && Covers(regions, k, addr)
      modifies this
      ensures ok <==> !old(regions)[k].mapped
      ensures ok ==> Consistent() && Merged(old(regions), regions)
      ensures ok ==> Maximal(regions, b) && Covers(regions, b, addr)
    {
      var start :| start in regions && IsFloor(regions, addr, start);
      assert IsFloor(regions, addr, start);
      assert start == k;
      ok, b := !regions[start].mapped, start;
      if ok {
        b := MergeAround(addr, start);
      }
    }

    method MergeAround(addr: int, start: int) returns (it: int)
      requires Consistent() && Covers(regions, start, addr) && !regions[start].mapped
      modifies this
      ensures Consistent() && Merged(old(regions), regions)
      ensures Maximal(regions, it) && Covers(regions, it, addr)
    {
      ghost var was := regions;
      var joined;
      it, joined := JoinAround(addr, start);
      if joined {
        MergePlaceholders(was, it);
      }
    }

    /** Makes a region free, releasing its memory if it has any; fails when that is not releasable. */
    method Release(base: int) returns (ok: bool)
      requires Consistent() && base in regions
      modifies this
      ensures ok <==> Releasable(old(regions)[base])
      ensures ok ==> Consistent() && regions == old(regions)[base := FreeRegion(base, old(regions)[base].size)]
      ensures ok ==> forall a :: At(regions, a) ==
                                 if base <= a < base + old(regions)[base].size then Free else At(old(regions), a)
    {
      var region := regions[base];
      assert RegionOk(base, region);
      var empty := FreeRegion(base, region.size);
      FreeOne(regions, base, regions[base := empty]);
      MirrorUpdate(regions, base, empty);
      ok := true;
      if region.mapped {
        ok := UnmapRegion(region);
      }
      if ok {
        regions := regions[base := empty];
      }
    }

    /** Makes `[cur, cur+piece)`, part of region `k`, a region of its own. */
    method Isolate(cur: int, piece: int, ghost k: int) returns (ok: bool)
      requires Consistent() && piece > 0 && IsFloor(regions, cur, k) && cur + piece <= k + regions[k].size
      modifies this
      ensures ok <==> !(old(regions)[k].mapped && old(regions)[k].phys == -1)
                      || (cur == k && piece == old(regions)[k].size)
      ensures ok ==> Consistent() && Carved(old(regions), k, cur, piece, regions)
    {
      var it :| it in regions && IsFloor(regions, cur, it);
      assert IsFloor(regions, cur, it);
      assert RegionOk(it, regions[it]);
      ok := true;
      if cur != regions[it].base || piece != regions[it].size {
        ok := SplitRegion(cur, piece, k);
        if ok {
          CarvePreserves(old(regions), k, cur, piece);
        }
      }
    }

    /** Frees as much of `[cur, cur+remaining)` as lies in the region around `cur`. */
    method ClearPiece(cur: int, remaining: int, ghost k: int) returns (ok: bool, piece: int)
      requires Consistent() && remaining > 0 && IsFloor(regions, cur, k) && Covers(regions, k, cur)
      modifies this
      ensures 0 < piece && piece == if k + old(regions)[k].size < cur + remaining
                                    then k + old(regions)[k].size - cur else remaining
      ensures ok <==> (!(old(regions)[k].mapped && old(regions)[k].phys == -1)
                       || (cur == k && piece == old(regions)[k].size))
                      && !CellOf(old(regions)[k], cur).Stuck()
      ensures ok ==> Consistent() && Freed(old(regions), k, cur, piece, regions)
    {
      var it :| it in regions && IsFloor(regions, cur, it);
      assert IsFloor(regions, cur, it);
      assert RegionOk(it, regions[it]);
      var offset := cur - regions[it].base;
      piece := if regions[it].size - offset < remaining then regions[it].size - offset else remaining;
      ghost var was := regions;
      ok := Isolate(cur, piece, k);
      if ok {
        ghost var split := regions;
        CarvedCell(was, k, cur, piece, split);
        ok := Release(cur);
        if ok {
          FreedIntro(was, k, cur, piece, split, regions);
        }
      }
    }

    /** Unmaps `[addr, addr+size)`.  It succeeds exactly when all of the range is reserved and none of it stuck, and
        neither end of it lies inside a mapping without backing. */
    method Unmap(addr: int, size: int) returns (ok: bool)
      requires Valid() && size > 0
      requires exists k :: k in regions && k <= addr
      modifies this
      ensures ok <==> Unmappable(old(regions), addr, size)
      ensures ok ==> Valid() && Unmapped(old(regions), addr, size, regions)
    {
      ghost var was := regions;
      var remaining, cur := size, addr;
      ghost var last := addr;
      while remaining > 0
        invariant 0 <= remaining <= size && cur + remaining == addr + size
        invariant Consistent() && Progress(was, addr, size, cur, regions, last)
      {
        var done, piece := UnmapStep(addr, size, cur, remaining, was, last);
        if !done {
          return false;
        }
        last := cur;
        remaining, cur := remaining - piece, cur + piece;
      }
      ok := Finish(addr, size, was);
    }

    /** Whether the region found for an address holds it.  Where it ends short of the address, the size left
        in it wraps around and the split is refused; where it ends at the address there is nothing to split off. */
    method Reaches(cur: int, ghost k: int) returns (r: bool)
      requires Consistent() && IsFloor(regions, cur, k)
      ensures r <==> Covers(regions, k, cur)
    {
      var it :| it in regions && IsFloor(regions, cur, it);
      assert IsFloor(regions, cur, it);
      assert RegionOk(it, regions[it]);
      r := cur < regions[it].base + regions[it].size;
    }

    /** The loop's body: frees the next piece, or finds that the range cannot be unmapped. */
    method UnmapStep(addr: int, size: int, cur: int, remaining: int, ghost was: Regions, ghost last: int)
      returns (ok: bool, piece: int)
      requires Consistent() && WellFormed(was) && remaining > 0 && addr <= cur && cur + remaining == addr + size
      requires (exists j :: j in was && j <= addr) && Progress(was, addr, size, cur, regions, last)
      modifies this
      ensures ok ==> 0 < piece <= remaining
      ensures !ok ==> !Unmappable(was, addr, size)
      ensures ok ==> Consistent() && Progress(was, addr, size, cur + piece, regions, cur)
    {
      ghost var mid := regions;
      ghost var floor := NextFloor(was, addr, size, cur, mid, last);
      var here := Reaches(cur, floor);
      if !here {
        assert !Clearable(was, cur);
        return false, 0;
      }
      ok, piece := ClearNext(addr, size, cur, remaining, was, last);
    }

    /** The rest of the body, where the region found holds the address. */
    method ClearNext(addr: int, size: int, cur: int, remaining: int, ghost was: Regions, ghost last: int)
      returns (ok: bool, piece: int)
      requires Consistent() && WellFormed(was) && remaining > 0 && addr <= cur && cur + remaining == addr + size
      requires Reserved(was, cur) && Progress(was, addr, size, cur, regions, last)
      modifies this
      ensures 0 < piece <= remaining
      ensures !ok ==> !Unmappable(was, addr, size)
      ensures ok ==> Consistent() && Progress(was, addr, size, cur + piece, regions, cur)
    {
      ghost var mid := regions;
      ghost var k := NextRegion(was, addr, size, cur, mid, last);
      ok, piece := ClearPiece(cur, remaining, k);
      PieceOutcome(was, addr, addr + size, cur, k, piece);
      if ok {
        ProgressStep(was, addr, size, cur, mid, last, k, piece, regions);
      }
    }

    /** Merges the free space that unmapping left. */
    method Finish(addr: int, size: int, ghost was: Regions) returns (ok: bool)
      requires Consistent() && WellFormed(was) && Coalesced(was) && size > 0
      requires Cleared(was, addr, size, regions)
      modifies this
      ensures ok && Valid() && Unmapped(was, addr, size, regions)
    {
      ghost var mid := regions;
      assert At(mid, addr) == Free;
      ghost var k := FloorOfReserved(mid, addr);
      ghost var b;
      ok, b := CoalesceFreeRegions(addr, k);
      UnmapMeets(was, addr, size, mid, regions, b);
    }
  }
}
