/** Whole runs of successful Map and Unmap calls, seen from the outside. */
module AddressSpaceRuns {
  import opened RegionMap
  import opened RegionEdits
  import AddressSpace

  datatype Op = MapOp(region: Region) | UnmapOp(addr: int, size: int)

  /** A request that may be made: it covers something, and what it maps is a mapping. */
  predicate Sensible(op: Op) {
    match op
    case MapOp(r) => r.size > 0 && r.phys >= -1 && r.mapped
    case UnmapOp(addr, size) => size > 0
  }

  /** A request that is granted. */
  ghost predicate Possible(rs: Regions, op: Op) {
    match op
    case MapOp(r) => forall a :: r.base <= a < r.base + r.size ==> At(rs, a) == Free
    case UnmapOp(addr, size) => Unmappable(rs, addr, size)
  }

  /** `op` succeeds in `rs` and leaves `rs'`: what `AddressSpace.Impl.Map` and `Unmap` establish. */
  ghost predicate Stepped(rs: Regions, op: Op, rs': Regions) {
    && Sensible(op) && Possible(rs, op)
    && match op
       case MapOp(r) => Mapped(rs, r, rs')
       case UnmapOp(addr, size) => Unmapped(rs, addr, size, rs')
  }

  ghost predicate IsRun(states: seq<Regions>, ops: seq<Op>) {
    && |states| == |ops| + 1
    && WellFormed(states[0]) && Coalesced(states[0])
    && forall i :: 0 <= i < |ops| ==> Stepped(states[i], ops[i], states[i + 1])
  }

  /** What one operation does to one address. */
  function Effect(c: Cell, op: Op, a: int): Cell {
    match op
    case MapOp(r) => if r.base <= a < r.base + r.size then CellOf(r, a) else c
    case UnmapOp(addr, size) => if addr <= a < addr + size then Free else c
  }

  /** The history of one address: the last operation on it wins, all others leave it alone. */
  function Replay(c: Cell, ops: seq<Op>, a: int): Cell {
    if ops == [] then c
    else Effect(Replay(c, ops[..|ops| - 1], a), ops[|ops| - 1], a)
  }

  /** In every run, every address translates to what its own history says, whatever was split and
      merged on the way; regions stay well formed and coalesced and cover the same addresses. */
  lemma {:induction false} RunTranslates(states: seq<Regions>, ops: seq<Op>, a: int)
    requires IsRun(states, ops)
    ensures WellFormed(states[|ops|]) && Coalesced(states[|ops|])
    ensures At(states[|ops|], a) == Replay(At(states[0], a), ops, a)
    ensures Reserved(states[|ops|], a) <==> Reserved(states[0], a)
  {
    if ops != [] {
      var n := |ops| - 1;
      RunTranslates(states[..|ops|], ops[..n], a);
      assert states[..|ops|][n] == states[n];
      assert Stepped(states[n], ops[n], states[n + 1]);
      StepReserves(states[n], ops[n], states[n + 1], a);
    }
  }

  lemma StepReserves(rs: Regions, op: Op, rs': Regions, a: int)
    requires Stepped(rs, op, rs')
    ensures Reserved(rs', a) <==> Reserved(rs, a)
  {
    if op.UnmapOp? && op.addr <= a < op.addr + op.size {
      assert Clearable(rs, a);
    }
  }

  /** An operation has one outcome, as a region map and not merely as a translation. */
  lemma StepDeterministic(rs: Regions, op: Op, p: Regions, q: Regions)
    requires Stepped(rs, op, p) && Stepped(rs, op, q)
    ensures p == q
  {
    Determined(p, q);
  }

  lemma SameStateNext(p: seq<Regions>, q: seq<Regions>, ops: seq<Op>, i: nat)
    requires IsRun(p, ops) && IsRun(q, ops) && i < |ops| && p[i] == q[i]
    ensures p[i + 1] == q[i + 1]
  {
    StepDeterministic(p[i], ops[i], p[i + 1], q[i + 1]);
  }

  lemma {:induction false} SameStateAt(p: seq<Regions>, q: seq<Regions>, ops: seq<Op>, i: nat)
    requires IsRun(p, ops) && IsRun(q, ops) && p[0] == q[0] && i <= |ops|
    ensures p[i] == q[i]
  {
    if i > 0 {
      SameStateAt(p, q, ops, i - 1);
      SameStateNext(p, q, ops, i - 1);
    }
  }

  lemma RunDeterministic(p: seq<Regions>, q: seq<Regions>, ops: seq<Op>)
    requires IsRun(p, ops) && IsRun(q, ops) && p[0] == q[0]
    ensures p == q
  {
    forall i | 0 <= i < |p| ensures p[i] == q[i] {
      SameStateAt(p, q, ops, i);
    }
  }

  /** Unmapping in two adjacent pieces leaves the very same regions as unmapping at once. */
  lemma UnmapInPieces(rs: Regions, addr: int, n: int, m: int, one: Regions, two: Regions, whole: Regions)
    requires n > 0 && m > 0
    requires Unmapped(rs, addr, n, one) && Unmapped(one, addr + n, m, two)
    requires Unmapped(rs, addr, n + m, whole)
    ensures two == whole
  {
    forall a ensures At(two, a) == At(whole, a) {
      assert At(two, a) == if addr + n <= a < addr + n + m then Free else At(one, a);
    }
    forall x ensures x in MappedCuts(two) <==> x in MappedCuts(whole) {
      assert addr <= x <= addr + n + m <==> addr <= x <= addr + n || addr + n <= x <= addr + n + m;
    }
    Determined(two, whole);
  }

  /** A cut divides an unbacked mapping exactly where unbacked memory continues below without a boundary. */
  lemma CutsUnbackedByView(rs: Regions, x: int)
    requires WellFormed(rs)
    ensures CutsUnbacked(rs, x) <==> At(rs, x).Private? && At(rs, x - 1).Mapped() && x !in MappedCuts(rs)
  {
    if CutsUnbacked(rs, x) {
      var k :| Covers(rs, k, x) && k < x && rs[k].mapped && rs[k].phys == -1;
      assert Covers(rs, k, x) && Covers(rs, k, x - 1);
      AtRegion(rs, k, x);
      SameStatus(rs, k, x, x - 1);
      assert x !in rs;
    } else if At(rs, x).Private? && At(rs, x - 1).Mapped() {
      var k := Owner(rs, x);
      assert Covers(rs, k, x);
      assert k == x;
      assert IsMappedCut(rs, x);
    }
  }

  lemma ClearablePieces(rs: Regions, lo: int, mid: int, hi: int)
    requires lo <= mid <= hi
    ensures AllClearable(rs, lo, hi) <==> AllClearable(rs, lo, mid) && AllClearable(rs, mid, hi)
  {
    if AllClearable(rs, lo, mid) && AllClearable(rs, mid, hi) {
      forall a | lo <= a < hi ensures Clearable(rs, a) {}
    }
  }

  lemma ClearableBeside(rs: Regions, addr: int, size: int, after: Regions, lo: int, hi: int)
    requires Unmapped(rs, addr, size, after) && (hi <= addr || addr + size <= lo)
    ensures AllClearable(after, lo, hi) <==> AllClearable(rs, lo, hi)
  {
    assert forall a :: lo <= a < hi ==> (Clearable(after, a) <==> Clearable(rs, a));
  }

  /** Two adjacent pieces can be unmapped, one after the other, exactly when the whole can and the place where
      they meet does not divide an unbacked mapping; so for backed memory there, exactly when the whole can. */
  lemma PiecesSucceedIff(rs: Regions, addr: int, n: int, m: int, one: Regions)
    requires n > 0 && m > 0 && WellFormed(rs)
    requires Unmappable(rs, addr, n) ==> Unmapped(rs, addr, n, one)
    ensures Unmappable(rs, addr, n) && Unmappable(one, addr + n, m) <==>
      Unmappable(rs, addr, n + m) && !CutsUnbacked(rs, addr + n)
  {
    ClearablePieces(rs, addr, addr + n, addr + n + m);
    if Unmappable(rs, addr, n) {
      var mid, end := addr + n, addr + n + m;
      ClearableBeside(rs, addr, n, one, mid, end);
      CutsUnbackedByView(one, mid);
      assert At(one, mid - 1) == Free;
      CutsUnbackedByView(one, end);
      CutsUnbackedByView(rs, end);
      assert At(one, end) == At(rs, end) && At(one, end - 1) == At(rs, end - 1);
    }
  }

  lemma BackedPiecesSucceedIff(rs: Regions, addr: int, n: int, m: int, one: Regions)
    requires n > 0 && m > 0 && WellFormed(rs) && At(rs, addr + n).Backed?
    requires Unmappable(rs, addr, n) ==> Unmapped(rs, addr, n, one)
    ensures Unmappable(rs, addr, n) && Unmappable(one, addr + n, m) <==> Unmappable(rs, addr, n + m)
  {
    CutsUnbackedByView(rs, addr + n);
    PiecesSucceedIff(rs, addr, n, m, one);
  }

  /** With the upper piece first, the two succeed under the same condition. */
  lemma PiecesReversedSucceedIff(rs: Regions, addr: int, n: int, m: int, high: Regions)
    requires n > 0 && m > 0 && WellFormed(rs)
    requires Unmappable(rs, addr + n, m) ==> Unmapped(rs, addr + n, m, high)
    ensures Unmappable(rs, addr + n, m) && Unmappable(high, addr, n) <==>
      Unmappable(rs, addr, n + m) && !CutsUnbacked(rs, addr + n)
  {
    ClearablePieces(rs, addr, addr + n, addr + n + m);
    if Unmappable(rs, addr + n, m) {
      var mid := addr + n;
      ClearableBeside(rs, mid, m, high, addr, mid);
      CutsUnbackedByView(high, mid);
      assert At(high, mid) == Free;
      CutsUnbackedByView(high, addr);
      CutsUnbackedByView(rs, addr);
      assert At(high, addr) == At(rs, addr) && At(high, addr - 1) == At(rs, addr - 1);
    }
  }

  /** The order in which the two pieces go does not matter either. */
  lemma UnmapPiecesCommute(rs: Regions, addr: int, n: int, m: int,
                           low: Regions, p: Regions, high: Regions, q: Regions)
    requires n > 0 && m > 0
    requires Unmapped(rs, addr, n, low) && Unmapped(low, addr + n, m, p)
    requires Unmapped(rs, addr + n, m, high) && Unmapped(high, addr, n, q)
    ensures p == q
  {
    forall a ensures At(p, a) == At(q, a) {
      assert At(p, a) == if addr + n <= a < addr + n + m then Free else At(low, a);
      assert At(q, a) == if addr <= a < addr + n then Free else At(high, a);
    }
    assert MappedCuts(p) == MappedCuts(q);
    Determined(p, q);
  }

  lemma NoCutWithinFree(rs: Regions, addr: int, size: int, x: int)
    requires size > 0 && (forall a :: addr <= a < addr + size ==> At(rs, a) == Free)
    requires IsMappedCut(rs, x)
    ensures !(addr <= x <= addr + size)
  {
    assert addr <= x < addr + size ==> At(rs, x) == Free;
    assert x == addr + size ==> At(rs, x - 1) == Free;
  }

  lemma CutsRestored(rs: Regions, r: Region, mid: Regions, end: Regions)
    requires r.size > 0 && (forall a :: r.base <= a < r.base + r.size ==> At(rs, a) == Free)
    requires MappedCuts(mid) == MappedCuts(rs)
         + (if At(rs, r.base - 1).Mapped() then {r.base} else {})
         + (if At(rs, r.base + r.size).Mapped() then {r.base + r.size} else {})
    requires MappedCuts(end) == set k | k in MappedCuts(mid) && !(r.base <= k <= r.base + r.size)
    ensures MappedCuts(end) == MappedCuts(rs)
  {
    forall x | x in MappedCuts(rs) ensures !(r.base <= x <= r.base + r.size) {
      NoCutWithinFree(rs, r.base, r.size, x);
    }
  }

  /** Unmapping what was just mapped restores the region map exactly. */
  lemma UnmapUndoesMap(rs: Regions, r: Region, mid: Regions, end: Regions)
    requires WellFormed(rs) && Coalesced(rs)
    requires Stepped(rs, MapOp(r), mid) && Stepped(mid, UnmapOp(r.base, r.size), end)
    ensures end == rs
  {
    forall a ensures At(end, a) == At(rs, a) {
      assert At(end, a) == if r.base <= a < r.base + r.size then Free else At(mid, a);
    }
    CutsRestored(rs, r, mid, end);
    Determined(end, rs);
  }

  /** What was just mapped can be unmapped again exactly when it is not stuck. */
  lemma MappedUnmappable(rs: Regions, r: Region, mid: Regions)
    requires Stepped(rs, MapOp(r), mid)
    ensures Unmappable(mid, r.base, r.size) <==> !CellOf(r, r.base).Stuck()
  {
    MappedClearable(rs, r, mid);
    EndsUncut(rs, r, mid);
  }

  lemma MappedClearable(rs: Regions, r: Region, mid: Regions)
    requires r.size > 0 && r.mapped && Mapped(rs, r, mid)
    ensures AllClearable(mid, r.base, r.base + r.size) <==> !CellOf(r, r.base).Stuck()
  {
    assert At(mid, r.base) == CellOf(r, r.base);
    assert Clearable(mid, r.base) <==> !CellOf(r, r.base).Stuck();
    forall a | r.base <= a < r.base + r.size ensures Clearable(mid, a) <==> !CellOf(r, r.base).Stuck() {
      assert At(mid, a) == CellOf(r, a);
    }
  }

  lemma EndsUncut(rs: Regions, r: Region, mid: Regions)
    requires r.size > 0 && Mapped(rs, r, mid)
    ensures !CutsUnbacked(mid, r.base) && !CutsUnbacked(mid, r.base + r.size)
  {
    StartIsBase(rs, r, mid);
    EndIsBase(rs, r, mid, r.base + r.size);
  }

  /** A new mapping has a base at each end beyond which a mapping lies. */
  lemma StartIsBase(rs: Regions, r: Region, mid: Regions)
    requires r.size > 0 && Mapped(rs, r, mid)
    ensures !CutsUnbacked(mid, r.base)
  {
    if r.base in MappedCuts(mid) {
      BaseUncut(mid, r.base);
    } else {
      assert !At(rs, r.base - 1).Mapped();
      assert At(mid, r.base - 1) == At(rs, r.base - 1);
      FreeUncut(mid, r.base, r.base - 1);
    }
  }

  lemma EndIsBase(rs: Regions, r: Region, mid: Regions, end: int)
    requires end == r.base + r.size && r.size > 0 && Mapped(rs, r, mid)
    ensures !CutsUnbacked(mid, end)
  {
    if end in MappedCuts(mid) {
      BaseUncut(mid, end);
    } else {
      var ends := if At(rs, end).Mapped() then {end} else {};
      assert end !in ends;
      assert At(mid, end) == At(rs, end);
      FreeUncut(mid, end, end);
    }
  }

  lemma BaseUncut(rs: Regions, x: int)
    requires WellFormed(rs) && x in MappedCuts(rs)
    ensures !CutsUnbacked(rs, x)
  {
  }

  lemma FreeUncut(rs: Regions, x: int, y: int)
    requires WellFormed(rs) && (y == x || y == x - 1) && !At(rs, y).Mapped()
    ensures !CutsUnbacked(rs, x)
  {
    CutsUnbackedByView(rs, x);
  }

  // Performing requests.

  function Start(op: Op): int { if op.MapOp? then op.region.base else op.addr }

  /** There is a region for the lookup to find, at or below the address of the request. */
  ghost predicate Findable(rs: Regions, op: Op) { exists k :: k in rs && k <= Start(op) }

  lemma FindableAfter(rs: Regions, op: Op, rs': Regions, next: Op)
    requires WellFormed(rs) && Stepped(rs, op, rs') && Findable(rs, next)
    ensures Findable(rs', next)
  {
    var k :| k in rs && k <= Start(next);
    assert RegionOk(k, rs[k]);
    AtRegion(rs, k, k);
    StepReserves(rs, op, rs', k);
    var j := Owner(rs', k);
    assert j in rs' && j <= Start(next);
  }

  /** One request on the address space. */
  method PerformOne(space: AddressSpace.Impl, op: Op) returns (ok: bool)
    requires space.Valid() && Sensible(op) && Findable(space.regions, op)
    modifies space
    ensures ok <==> Possible(old(space.regions), op)
    ensures ok ==> space.Valid() && Stepped(old(space.regions), op, space.regions)
  {
    match op
    case MapOp(r) =>
      ok := space.Map(r.base, r.phys, r.size, r.prot, r.fd);
    case UnmapOp(addr, size) =>
      ok := space.Unmap(addr, size);
  }

  /** Requests performed one after another, up to the first that is refused.  The maps in between are a run, and
      the request that ends it is one that cannot be granted. */
  method Perform(space: AddressSpace.Impl, ops: seq<Op>) returns (done: nat, ghost states: seq<Regions>)
    requires space.Valid()
    requires forall i :: 0 <= i < |ops| ==> Sensible(ops[i]) && Findable(space.regions, ops[i])
    modifies space
    ensures done <= |ops| && IsRun(states, ops[..done]) && states[0] == old(space.regions)
    ensures done < |ops| ==> !Possible(states[done], ops[done])
    ensures done == |ops| ==> space.Valid() && space.regions == states[done]
  {
    done, states := 0, [space.regions];
    while done < |ops|
      invariant done <= |ops| && space.Valid() && IsRun(states, ops[..done])
      invariant states[0] == old(space.regions) && states[done] == space.regions
      invariant forall i :: 0 <= i < |ops| ==> Sensible(ops[i]) && Findable(space.regions, ops[i])
    {
      ghost var was := space.regions;
      var ok := PerformOne(space, ops[done]);
      if !ok {
        return;
      }
      AllFindable(was, ops[done], space.regions, ops);
      LongerRun(states, ops, done, space.regions);
      done, states := done + 1, states + [space.regions];
    }
  }

  lemma AllFindable(rs: Regions, op: Op, rs': Regions, ops: seq<Op>)
    requires WellFormed(rs) && Stepped(rs, op, rs')
    requires forall i :: 0 <= i < |ops| ==> Findable(rs, ops[i])
    ensures forall i :: 0 <= i < |ops| ==> Findable(rs', ops[i])
  {
    forall i | 0 <= i < |ops| ensures Findable(rs', ops[i]) {
      FindableAfter(rs, op, rs', ops[i]);
    }
  }

  lemma LongerRun(states: seq<Regions>, ops: seq<Op>, n: nat, next: Regions)
    requires n < |ops| && IsRun(states, ops[..n]) && Stepped(states[n], ops[n], next)
    ensures IsRun(states + [next], ops[..n + 1])
  {
    var more, front := states + [next], ops[..n + 1];
    forall i | 0 <= i < n + 1 ensures Stepped(more[i], front[i], more[i + 1]) {
      if i < n {
        assert ops[..n][i] == front[i];
        assert Stepped(states[i], ops[..n][i], states[i + 1]);
      }
    }
  }
}
