/** The POSIX form of the guest address space: reservation of the gaps between host mappings, and the set
    of free addresses kept over Map and Unmap. */
module PosixSpace {
  import opened IntervalSet

  /** What the host has at an address. */
  datatype Page =
    | Foreign                       // in use by the process before the guest span was reserved
    | Reserved                      // claimed for the guest, not yet used
    | Released                      // given back by Unmap, without access
    | Anonymous                     // private memory
    | Dmem(offset: nat)             // in the backing file
    | File(fd: nat, fileOffset: nat)

  type Host = nat -> Page

  predicate Live(p: Page) { p.Foreign? || p.Anonymous? || p.Dmem? || p.File? }

  // Reserving the gaps.

  /** The gaps found so far cover what lies below the cursor outside the mappings passed. */
  ghost predicate Gapped(occupied: seq<Range>, begin: nat, end: nat, i: nat, cursor: nat, gaps: seq<Range>) {
    && i <= |occupied| && begin <= cursor <= end
    && (cursor < end ==> forall k :: 0 <= k < i ==> occupied[k].hi <= cursor || occupied[k].lo >= end)
    && (cursor > begin ==> forall k :: i <= k < |occupied| ==> cursor <= occupied[k].lo)
    && Ascending(gaps) && (forall k :: 0 <= k < |gaps| ==> gaps[k].hi <= cursor)
    && (forall x: nat :: In(gaps, x) <==> begin <= x < cursor && !In(occupied[..i], x))
  }

  lemma InPrefix(s: seq<Range>, i: nat, x: int)
    requires i < |s|
    ensures In(s[..i + 1], x) <==> In(s[..i], x) || Within(s[i], x)
  {
    assert s[..i + 1] == s[..i] + [s[i]];
    InConcat(s[..i], [s[i]], x);
    InOne(s[i], x);
  }

  /** The gaps with the one from `lo` to `hi` added, if there is one. */
  function Added(gaps: seq<Range>, lo: nat, hi: nat): seq<Range> {
    if lo < hi then gaps + [Range(lo, hi)] else gaps
  }

  lemma AddedIn(gaps: seq<Range>, lo: nat, hi: nat, x: int)
    ensures In(Added(gaps, lo, hi), x) <==> In(gaps, x) || lo <= x < hi
  {
    if lo < hi {
      InConcat(gaps, [Range(lo, hi)], x);
      InOne(Range(lo, hi), x);
    }
  }

  /** What the loop makes of an address when it passes mapping `i`. */
  lemma PassAddress(occupied: seq<Range>, begin: nat, end: nat, i: nat, cursor: nat, gaps: seq<Range>, x: nat)
    requires Ascending(occupied) && Gapped(occupied, begin, end, i, cursor, gaps) && i < |occupied|
    requires occupied[i].hi > begin && occupied[i].lo < end
    ensures In(Added(gaps, cursor, Min(occupied[i].lo, end)), x) <==>
      begin <= x < Max(cursor, Min(occupied[i].hi, end)) && !In(occupied[..i + 1], x)
  {
    InPrefix(occupied, i, x);
    AddedIn(gaps, cursor, Min(occupied[i].lo, end), x);
    assert In(gaps, x) <==> begin <= x < cursor && !In(occupied[..i], x);
  }

  lemma PassBounds(occupied: seq<Range>, begin: nat, end: nat, i: nat, cursor: nat, gaps: seq<Range>)
    requires Ascending(occupied) && Gapped(occupied, begin, end, i, cursor, gaps) && i < |occupied|
    requires occupied[i].hi > begin && occupied[i].lo < end
    ensures var next, more := Max(cursor, Min(occupied[i].hi, end)), Added(gaps, cursor, Min(occupied[i].lo, end));
      && begin <= next <= end
      && (next < end ==> forall k :: 0 <= k < i + 1 ==> occupied[k].hi <= next || occupied[k].lo >= end)
      && (next > begin ==> forall k :: i + 1 <= k < |occupied| ==> next <= occupied[k].lo)
      && Ascending(more) && forall k :: 0 <= k < |more| ==> more[k].hi <= next
  {
  }

  lemma PassMapping(occupied: seq<Range>, begin: nat, end: nat, i: nat, cursor: nat, gaps: seq<Range>)
    requires Ascending(occupied) && Gapped(occupied, begin, end, i, cursor, gaps) && i < |occupied|
    requires occupied[i].hi > begin && occupied[i].lo < end
    ensures
      var r := occupied[i];
      Gapped(occupied, begin, end, i + 1, Max(cursor, Min(r.hi, end)), Added(gaps, cursor, Min(r.lo, end)))
  {
    PassBounds(occupied, begin, end, i, cursor, gaps);
    forall x: nat
      ensures In(Added(gaps, cursor, Min(occupied[i].lo, end)), x) <==>
        begin <= x < Max(cursor, Min(occupied[i].hi, end)) && !In(occupied[..i + 1], x)
    {
      PassAddress(occupied, begin, end, i, cursor, gaps, x);
    }
  }

  lemma SkipMapping(occupied: seq<Range>, begin: nat, end: nat, i: nat, cursor: nat, gaps: seq<Range>)
    requires Ascending(occupied) && Gapped(occupied, begin, end, i, cursor, gaps) && i < |occupied|
    requires occupied[i].hi <= begin || occupied[i].lo >= end
    ensures Gapped(occupied, begin, end, i + 1, cursor, gaps)
  {
    forall x: nat ensures In(gaps, x) <==> begin <= x < cursor && !In(occupied[..i + 1], x) {
      InPrefix(occupied, i, x);
      assert In(gaps, x) <==> begin <= x < cursor && !In(occupied[..i], x);
    }
  }

  lemma LastGap(occupied: seq<Range>, begin: nat, end: nat, cursor: nat, gaps: seq<Range>)
    requires Gapped(occupied, begin, end, |occupied|, cursor, gaps)
    ensures Ascending(Added(gaps, cursor, end))
    ensures forall x: nat :: In(Added(gaps, cursor, end), x) <==> begin <= x < end && !In(occupied, x)
  {
    assert occupied[..|occupied|] == occupied;
    forall x: nat ensures In(Added(gaps, cursor, end), x) <==> begin <= x < end && !In(occupied, x) {
      AddedIn(gaps, cursor, end, x);
      assert In(gaps, x) <==> begin <= x < cursor && !In(occupied[..|occupied|], x);
    }
  }

  /** The loop over host mappings.  An address of the span is reserved exactly when no mapping has it. */
  method ReserveGaps(occupied: seq<Range>, begin: nat, end: nat) returns (gaps: seq<Range>)
    requires Ascending(occupied) && begin < end
    ensures Ascending(gaps)
    ensures forall x: nat :: In(gaps, x) <==> begin <= x < end && !In(occupied, x)
  {
    gaps := [];
    var cursor := begin;
    for i := 0 to |occupied|
      invariant Gapped(occupied, begin, end, i, cursor, gaps)
    {
      var r := occupied[i];
      if r.hi <= begin || r.lo >= end {
        SkipMapping(occupied, begin, end, i, cursor, gaps);
      } else {
        PassMapping(occupied, begin, end, i, cursor, gaps);
        gaps := Added(gaps, cursor, Min(r.lo, end));
        cursor := Max(cursor, Min(r.hi, end));
      }
    }
    LastGap(occupied, begin, end, cursor, gaps);
    gaps := Added(gaps, cursor, end);
  }

  // Map and Unmap.

  const SYSTEM_MANAGED_MIN := 0x400000
  const SYSTEM_MANAGED_MAX := 0x7FFFFBFFF
  const SYSTEM_RESERVED_MIN := 0x7FFFFC000
  const SYSTEM_RESERVED_MAX := 0xFFFFFFFFF
  const USER_MIN := 0x1000000000
  const USER_MAX := 0x3FFFFFFFFF

  const SPAN := Range(SYSTEM_MANAGED_MIN, USER_MAX + 1)

  /** mmap with MAP_FIXED replaces what the range held. */
  function Overlaid(host: Host, r: Range, page: nat -> Page): Host {
    (x: nat) => if Within(r, x) then page(x - r.lo) else host(x)
  }

  /** What Map puts at offset `d` of its range: a negative physical address means private memory. */
  function Mapping(phys: int, fd: int, d: int): Page {
    if phys < 0 || d < 0 then Anonymous else if fd < 0 then Dmem(phys + d) else File(fd, phys + d)
  }

  /** The page `d` bytes into a mapping: private memory without a physical address, else that far into direct memory
      or into the file. */
  predicate IsPage(page: Page, phys: int, fd: int, d: int) {
    && (phys < 0 ==> page == Anonymous)
    && (phys >= 0 && fd < 0 ==> page.Dmem? && page.offset == phys + d)
    && (phys >= 0 && fd >= 0 ==> page.File? && page.fd == fd && page.fileOffset == phys + d)
  }

  function MapPages(phys: int, fd: int): nat -> Page { d => Mapping(phys, fd, d) }

  function ReleasedPages(): nat -> Page { _ => Released }

  /** No free address is in use. */
  ghost predicate FreeIsIdle(free: seq<Range>, host: Host) {
    forall x: nat :: In(free, x) ==> !Live(host(x))
  }

  /** The range Unmap gives back: the request, joined with the first free range that overlaps or touches it. */
  function Widened(free: seq<Range>, r: Range): Range {
    var i := Find(free, Range(if r.lo > 0 then r.lo - 1 else 0, r.hi + 1));
    if i < |free| then Range(Min(r.lo, free[i].lo), Max(r.hi, free[i].hi)) else r
  }

  /** Widening takes in nothing but free addresses. */
  lemma WidenedOnlyFree(free: seq<Range>, r: Range, x: nat)
    requires r.lo < r.hi && Within(Widened(free, r), x) && !Within(r, x)
    ensures In(free, x)
  {
    var i := Find(free, Range(if r.lo > 0 then r.lo - 1 else 0, r.hi + 1));
    assert Within(free[i], x);
  }

  lemma WidenedCovers(free: seq<Range>, r: Range)
    ensures Widened(free, r).lo <= r.lo && r.hi <= Widened(free, r).hi
  {
  }

  datatype Memory = Memory(free: seq<Range>, host: Host)

  ghost predicate Valid(m: Memory) {
    Canonical(m.free) && FreeIsIdle(m.free, m.host)
  }

  datatype Op =
    | Map(addr: nat, phys: int, size: nat, fd: int)
    | Unmap(addr: nat, size: nat)

  function Requested(op: Op): Range { Range(op.addr, op.addr + op.size) }

  function Apply(m: Memory, op: Op): Memory {
    match op
    case Map(addr, phys, size, fd) =>
      Memory(Subtract(m.free, Requested(op)), Overlaid(m.host, Requested(op), MapPages(phys, fd)))
    case Unmap(addr, size) =>
      var w := Widened(m.free, Requested(op));
      Memory(Insert(m.free, w), Overlaid(m.host, w, ReleasedPages()))
  }

  /** Map and Unmap keep free addresses out of use, change the set of free addresses on the request only,
      and change what the host has on the request and at addresses that were free. */
  lemma ApplyKeeps(m: Memory, op: Op)
    requires Valid(m) && op.size > 0
    ensures Valid(Apply(m, op))
    ensures forall x: nat :: In(Apply(m, op).free, x) <==>
      (if Within(Requested(op), x) then op.Unmap? else In(m.free, x))
    ensures forall x: nat :: Within(Requested(op), x) ==>
      Apply(m, op).host(x) == if op.Map? then Mapping(op.phys, op.fd, x - op.addr) else Released
    ensures forall x: nat :: !Within(Requested(op), x) && Live(m.host(x)) ==> Apply(m, op).host(x) == m.host(x)
    ensures forall x: nat :: !Within(Requested(op), x) && !In(m.free, x) ==> Apply(m, op).host(x) == m.host(x)
  {
    if op.Map? {
      MapKeeps(m, op);
    } else {
      UnmapKeeps(m, op);
    }
  }

  lemma MapKeeps(m: Memory, op: Op)
    requires Valid(m) && op.Map?
    ensures Valid(Apply(m, op))
    ensures forall x: nat :: In(Apply(m, op).free, x) <==> In(m.free, x) && !Within(Requested(op), x)
  {
    SubtractCanonical(m.free, Requested(op));
    forall x: nat ensures In(Apply(m, op).free, x) <==> In(m.free, x) && !Within(Requested(op), x) {
      SubtractIn(m.free, Requested(op), x);
    }
  }

  lemma UnmapKeeps(m: Memory, op: Op)
    requires Valid(m) && op.Unmap? && op.size > 0
    ensures Valid(Apply(m, op))
    ensures forall x: nat :: In(Apply(m, op).free, x) <==> In(m.free, x) || Within(Requested(op), x)
    ensures forall x: nat :: Within(Requested(op), x) ==> Apply(m, op).host(x) == Released
    ensures forall x: nat :: !Within(Requested(op), x) && !In(m.free, x) ==> Apply(m, op).host(x) == m.host(x)
  {
    var r := Requested(op);
    var w := Widened(m.free, r);
    WidenedCovers(m.free, r);
    InsertCanonical(m.free, w);
    forall x: nat ensures In(Apply(m, op).free, x) <==> In(m.free, x) || Within(r, x) {
      InsertIn(m.free, w, x);
      if Within(w, x) && !Within(r, x) {
        WidenedOnlyFree(m.free, r, x);
      }
    }
    forall x: nat | Within(w, x) && !Within(r, x) ensures In(m.free, x) {
      WidenedOnlyFree(m.free, r, x);
    }
  }

  /** The memory after a run. */
  function Run(m: Memory, ops: seq<Op>): Memory
    decreases |ops|
  {
    if ops == [] then m else Apply(Run(m, ops[..|ops| - 1]), ops[|ops| - 1])
  }

  /** No request from number `k` on covers the address. */
  ghost predicate Avoids(ops: seq<Op>, k: nat, x: nat) {
    forall i :: k <= i < |ops| ==> !Within(Requested(ops[i]), x)
  }

  ghost predicate NonEmpty(ops: seq<Op>) {
    forall i :: 0 <= i < |ops| ==> ops[i].size > 0
  }

  /** In every run no free address is in use, and an address in use keeps its page until a request covers it;
      in particular the process's own mappings stay as they were unless the guest asks for their addresses. */
  lemma {:induction false} RunKeeps(m: Memory, ops: seq<Op>, x: nat)
    requires Valid(m) && NonEmpty(ops)
    ensures Valid(Run(m, ops))
    ensures Live(m.host(x)) && Avoids(ops, 0, x) ==> Run(m, ops).host(x) == m.host(x)
    decreases |ops|
  {
    if ops != [] {
      var front := ops[..|ops| - 1];
      assert forall i :: 0 <= i < |front| ==> front[i] == ops[i];
      RunKeeps(m, front, x);
      ApplyKeeps(Run(m, front), ops[|ops| - 1]);
    }
  }

  /** What one operation does to one address that it covers, or that is in use or given back. */
  lemma ApplyAddress(m: Memory, op: Op, x: nat)
    requires Valid(m) && op.size > 0
    ensures Within(Requested(op), x) ==> Settled(Apply(m, op), op, x)
    ensures !Within(Requested(op), x) && Live(m.host(x)) ==>
      Apply(m, op).host(x) == m.host(x) && !In(Apply(m, op).free, x)
    ensures !Within(Requested(op), x) && m.host(x) == Released && In(m.free, x) ==>
      Apply(m, op).host(x) == Released && In(Apply(m, op).free, x)
  {
    ApplyKeeps(m, op);
    if m.host(x) == Released && !Within(Requested(op), x) {
      StaysReleased(m, op, x);
    }
  }

  /** The address is as the request left it: mapped, or given back and free. */
  ghost predicate Settled(m: Memory, op: Op, x: nat) {
    if op.Map? then IsPage(m.host(x), op.phys, op.fd, x - op.addr) && !In(m.free, x)
    else m.host(x) == Released && In(m.free, x)
  }

  lemma StaysReleased(m: Memory, op: Op, x: nat)
    requires m.host(x) == Released && !Within(Requested(op), x)
    ensures Apply(m, op).host(x) == Released
  {
  }

  lemma SettledStays(m: Memory, op: Op, last: Op, x: nat)
    requires Valid(m) && op.size > 0 && Settled(m, last, x) && !Within(Requested(op), x)
    ensures Settled(Apply(m, op), last, x)
  {
    ApplyAddress(m, op, x);
  }

  /** A request settles an address it covers, and leaves any other as it was settled before. */
  lemma ApplySettles(m: Memory, op: Op, last: Op, x: nat)
    requires Valid(m) && op.size > 0
    requires if Within(Requested(op), x) then last == op else Settled(m, last, x)
    ensures Settled(Apply(m, op), last, x)
  {
    if Within(Requested(op), x) {
      ApplyAddress(m, op, x);
    } else {
      SettledStays(m, op, last, x);
    }
  }

  /** The latest request to cover an address decides what is there: what Map laid there stays, and what Unmap
      gave back stays given back and free, since later widenings lay the same over it again. */
  lemma {:induction false} RunTranslates(m: Memory, ops: seq<Op>, last: nat, x: nat)
    requires Valid(m) && NonEmpty(ops) && last < |ops|
    requires Within(Requested(ops[last]), x) && Avoids(ops, last + 1, x)
    ensures Settled(Run(m, ops), ops[last], x)
    decreases |ops|
  {
    var front := ops[..|ops| - 1];
    RunKeeps(m, front, x);
    if last < |front| {
      RunTranslates(m, front, last, x);
      assert front[last] == ops[last];
    }
    ApplySettles(Run(m, front), ops[|ops| - 1], ops[last], x);
  }

  /** The range is mapped and no longer free, and nothing else changes. */
  ghost predicate Taken(m: Memory, addr: nat, phys: int, size: nat, fd: int, after: Memory) {
    && Valid(after)
    && (forall x: nat :: In(after.free, x) <==> In(m.free, x) && !(addr <= x < addr + size))
    && (forall x: nat :: addr <= x < addr + size ==> IsPage(after.host(x), phys, fd, x - addr))
    && (forall x: nat :: !(addr <= x < addr + size) ==> after.host(x) == m.host(x))
  }

  /** The range is released and free, and outside it only free memory changes. */
  ghost predicate Returned(m: Memory, addr: nat, size: nat, after: Memory) {
    && Valid(after)
    && (forall x: nat :: In(after.free, x) <==> In(m.free, x) || addr <= x < addr + size)
    && (forall x: nat :: addr <= x < addr + size ==> after.host(x) == Released)
    && (forall x: nat :: !(addr <= x < addr + size) && !In(m.free, x) ==> after.host(x) == m.host(x))
  }

  lemma MapTakes(m: Memory, addr: nat, phys: int, size: nat, fd: int)
    requires Valid(m) && size > 0
    ensures Taken(m, addr, phys, size, fd, Apply(m, Map(addr, phys, size, fd)))
  {
    ApplyKeeps(m, Map(addr, phys, size, fd));
  }

  lemma UnmapReturns(m: Memory, addr: nat, size: nat, after: Memory)
    requires after == Apply(m, Unmap(addr, size))
    ensures Valid(m) && size > 0 ==> Returned(m, addr, size, after)
  {
    if Valid(m) && size > 0 {
      ApplyKeeps(m, Unmap(addr, size));
    }
  }

  class Space {
    var free: seq<Range>
    ghost var host: Host

    ghost function State(): Memory reads this { Memory(free, host) }

    /** Reserves the gaps between host mappings and lists the free addresses.  The reserved area's entry
        starts at the managed area's base, so part of the reserved area is not listed. */
    constructor (occupied: seq<Range>, ghost before: Host)
      requires Ascending(occupied)
      requires forall x: nat :: In(occupied, x) <==> Live(before(x))
      ensures Valid(State())
      ensures forall x: nat :: host(x) == if Within(SPAN, x) && !Live(before(x)) then Reserved else before(x)
      ensures forall x: nat :: In(free, x) <==>
        (SYSTEM_MANAGED_MIN <= x < 0x800404000 || USER_MIN <= x <= USER_MAX) && !Live(before(x))
    {
      var gaps := ReserveGaps(occupied, SPAN.lo, SPAN.hi);
      var all := StartingFree();
      var left := SubtractAll(all, occupied);
      free := left;
      host := (x: nat) => if In(gaps, x) then Reserved else before(x);
    }

    method MapMemory(addr: nat, phys: int, size: nat, fd: int)
      modifies this
      ensures State() == Apply(old(State()), Map(addr, phys, size, fd))
      ensures Valid(old(State())) && size > 0 ==> Taken(old(State()), addr, phys, size, fd, State())
    {
      if Valid(State()) && size > 0 {
        MapTakes(State(), addr, phys, size, fd);
      }
      free := Subtract(free, Range(addr, addr + size));
      host := Overlaid(host, Range(addr, addr + size), MapPages(phys, fd));
    }

    method UnmapMemory(addr: nat, size: nat)
      modifies this
      ensures State() == Apply(old(State()), Unmap(addr, size))
      ensures Valid(old(State())) && size > 0 ==> Returned(old(State()), addr, size, State())
    {
      ghost var was := State();
      Release(addr, size);
      UnmapReturns(was, addr, size, State());
    }

    /** Joins the range with the first free range it overlaps or touches. */
    method Release(addr: nat, size: nat)
      modifies this
      ensures State() == Apply(old(State()), Unmap(addr, size))
    {
      var start, end := addr, addr + size;
      var i := Find(free, Range(if start > 0 then start - 1 else 0, end + 1));
      if i < |free| {
        start, end := Min(start, free[i].lo), Max(end, free[i].hi);
      }
      free := Insert(free, Range(start, end));
      host := Overlaid(host, Range(start, end), ReleasedPages());
    }
  }

  /** The three insertions of the constructor. */
  method StartingFree() returns (free: seq<Range>)
    ensures Canonical(free)
    ensures forall x: nat :: In(free, x) <==> SYSTEM_MANAGED_MIN <= x < 0x800404000 || USER_MIN <= x <= USER_MAX
  {
    var managed := Range(SYSTEM_MANAGED_MIN, SYSTEM_MANAGED_MIN + (SYSTEM_MANAGED_MAX - SYSTEM_MANAGED_MIN + 1));
    var reserved := Range(SYSTEM_MANAGED_MIN, SYSTEM_MANAGED_MIN + (SYSTEM_RESERVED_MAX - SYSTEM_RESERVED_MIN + 1));
    var user := Range(USER_MIN, USER_MIN + (USER_MAX - USER_MIN + 1));
    var one := Insert([], managed);
    InsertCanonical([], managed);
    var two := Insert(one, reserved);
    InsertCanonical(one, reserved);
    free := Insert(two, user);
    InsertCanonical(two, user);
    forall x: nat ensures In(free, x) <==> Within(managed, x) || Within(reserved, x) || Within(user, x) {
      InsertIn([], managed, x);
      InsertIn(one, reserved, x);
      InsertIn(two, user, x);
    }
  }

  /** Takes the host mappings, clipped to the span, out of the free set. */
  method SubtractAll(all: seq<Range>, occupied: seq<Range>) returns (left: seq<Range>)
    requires Canonical(all) && forall x: nat :: In(all, x) ==> Within(SPAN, x)
    ensures Canonical(left)
    ensures forall x: nat :: In(left, x) <==> In(all, x) && !In(occupied, x)
  {
    left := all;
    for i := 0 to |occupied|
      invariant Canonical(left)
      invariant forall x: nat :: In(left, x) <==> In(all, x) && !In(occupied[..i], x)
    {
      var r := Range(Max(occupied[i].lo, SYSTEM_MANAGED_MIN), Min(occupied[i].hi, USER_MAX + 1));
      ghost var was := left;
      if r.lo < r.hi {
        SubtractCanonical(left, r);
        left := Subtract(left, r);
      }
      forall x: nat ensures In(left, x) <==> In(all, x) && !In(occupied[..i + 1], x) {
        SubtractIn(was, r, x);
        InPrefix(occupied, i, x);
        assert In(was, x) <==> In(all, x) && !In(occupied[..i], x);
      }
    }
    assert occupied[..|occupied|] == occupied;
  }
}
