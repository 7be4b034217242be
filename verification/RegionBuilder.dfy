/** The region builder of the mremap suite. */
module RegionBuilder {
  import opened Intervals
  import opened AddressSpace
  import opened Words

  const MAP_FAILED := WORD - 1

  type size_t = word

  const PROT_NONE := Prot(false, false)
  const PROT_READ := Prot(true, false)
  const PROT_RW := Prot(true, true)

  datatype Param = Param(addr: int, size: size_t, nopage: bool, shared: bool, prot: Prot)

  class Process {
    var sp: Space
    constructor (s: Space)
      ensures sp == s
    { sp := s; }
  }

  /** '0' + i, kept in an unsigned char. */
  function FillByte(i: nat): byte { (48 + i) % 256 }

  /** Sum of the first k sizes, as an unbounded number. */
  function Offset(ps: seq<Param>, k: nat): int
    requires k <= |ps|
  {
    if k == 0 then 0 else Offset(ps, k - 1) + ps[k - 1].size
  }

  lemma OffsetStep(ps: seq<Param>, k: nat)
    requires k < |ps|
    ensures Offset(ps, k + 1) == Offset(ps, k) + ps[k].size
  {}

  lemma {:induction false} OffsetMonotone(ps: seq<Param>, i: nat, j: nat)
    requires i <= j <= |ps|
    ensures 0 <= Offset(ps, i) <= Offset(ps, j)
    decreases j
  {
    if i < j { OffsetMonotone(ps, i, j - 1); } else if 0 < i { OffsetMonotone(ps, i - 1, i - 1); }
  }

  // ----- memset on one area -----

  predicate Covers(attr: Attr, lo: int, hi: int, k: Loc) {
    match attr.backing
    case Private => k.At? && In(k.addr, lo, hi)
    case Shared(o, bias) => k.Obj? && k.id == o && In(k.off - bias, lo, hi)
  }

  function Fill(sp: Space, attr: Attr, lo: int, hi: int, b: byte): Space {
    var mem := sp.mem;
    sp.(mem := (k: Loc) => if Covers(attr, lo, hi, k) then b else mem(k))
  }

  // ----- what a build must leave -----

  function RegionView(p: Param, i: nat): View {
    if p.nopage then Unmapped
    else Mapped(p.prot, p.shared, Byte(if p.prot.write then (48 + i) % 256 else 0))
  }

  const RESERVED := Mapped(PROT_NONE, true, Byte(0))

  /** The failed address is all ones, and the reserved space can be neither read nor written. */
  lemma Constants()
    ensures MAP_FAILED + 1 == 0x1_0000_0000_0000_0000
    ensures RESERVED == Mapped(Prot(false, false), true, Byte(0)) && PROT_NONE == RESERVED.prot
    ensures PROT_READ.read && !PROT_READ.write && PROT_RW.read && PROT_RW.write
  {}

  /** [lo, hi) is exactly one area. */
  predicate Whole(sp: Space, lo: int, hi: int) {
    var c := Cover(sp.maps, lo);
    c.Seg? && c.lo == lo && c.hi == hi
  }

  /** Region i shows what was asked for and, when mapped, is one area. */
  ghost predicate RegionOk(sp: Space, ps: seq<Param>, base: int, i: nat)
    requires i < |ps|
  {
    && (!ps[i].nopage ==> Whole(sp, base + Offset(ps, i), base + RoundUp(Offset(ps, i + 1))))
    && forall a | In(a, base + Offset(ps, i), base + Offset(ps, i + 1)) :: See(sp, a) == RegionView(ps[i], i)
  }

  /** The first k regions are laid out back to back from `base`, [rest, end) is still
      inaccessible, and nothing outside [base, end) has changed. */
  ghost predicate Layout(sp0: Space, sp: Space, ps: seq<Param>, base: int, k: nat, rest: int, end: int)
    requires k <= |ps|
  {
    && (forall i | 0 <= i < k :: RegionOk(sp, ps, base, i))
    && (forall a | In(a, rest, end) :: See(sp, a) == RESERVED)
    && (forall a | !In(a, base, end) :: See(sp, a) == See(sp0, a))
  }

  ghost predicate Formatted(sp0: Space, sp: Space, ps: seq<Param>, base: int, k: nat)
    requires k <= |ps|
  {
    && Wf(sp)
    && Layout(sp0, sp, ps, base, k, base + RoundUp(Offset(ps, k)), base + RoundUp(Offset(ps, |ps|)))
  }

  /** Formatting of region k cannot be done: the kernel refuses, or its start is not page
      aligned, or it is empty. */
  predicate StepFails(ps: seq<Param>, base: int, denied: int -> bool, k: nat)
    requires k < |ps|
  {
    denied(k) || !Aligned(base + Offset(ps, k)) || ps[k].size == 0
  }

  /** The reservation cannot be made. */
  predicate ReserveFails(sp: Space, ps: seq<Param>, base: int, denied: int -> bool) {
    var total := Offset(ps, |ps|);
    denied(-1) || total == 0 || !Vacant(sp, base, base + RoundUp(total))
  }

  /** The space after formatting one region. */
  function FormatRegion(sp: Space, lo: int, p: Param, k: nat): Space {
    if p.nopage then Munmap(sp, lo, p.size).sp
    else
      var m := MmapFixed(sp, lo, p.size, p.prot, p.shared).sp;
      if p.prot.write && Covered(m, lo, lo + p.size)
      then Fill(m, Cover(m.maps, lo).val, lo, lo + p.size, FillByte(k)) else m
  }

  /** Formatting a region shows it, keeps the space well formed and changes nothing else. */
  lemma FilledRegion(sp: Space, lo: int, p: Param, k: nat)
    requires Wf(sp) && 0 < p.size && UserRange(lo, lo + RoundUp(p.size))
    ensures RegionStep(sp, FormatRegion(sp, lo, p, k), lo, p, k) && Wf(FormatRegion(sp, lo, p, k))
  {
    var hi := lo + RoundUp(p.size);
    var sp' := FormatRegion(sp, lo, p, k);
    hide Wf, See, Whole;
    forall l, h | (h <= lo || hi <= l) && Whole(sp, l, h) ensures Whole(sp', l, h) { WholeKept(sp, lo, p, k, l, h); }
    if p.nopage {
      UnmapEffect(sp, lo, hi);
    } else {
      MappedRegion(sp, lo, p, k);
      forall a | In(a, lo, lo + p.size) ensures See(sp', a) == RegionView(p, k) { FilledInside(sp, lo, p, k, a); }
      forall a | !In(a, lo, hi) ensures See(sp', a) == See(sp, a) { FilledOutside(sp, lo, p, k, a); }
    }
    RoundUpAligned(p.size);
  }

  /** The bytes of a mapped region are written in its one area. */
  lemma MappedRegion(sp: Space, lo: int, p: Param, k: nat)
    requires Wf(sp) && 0 < p.size && UserRange(lo, lo + RoundUp(p.size)) && !p.nopage
    ensures var m := MapAt(sp, lo, lo + RoundUp(p.size), p.prot, p.shared);
      && Cover(m.maps, lo).Seg?
      && FormatRegion(sp, lo, p, k) ==
         (if p.prot.write then Fill(m, Cover(m.maps, lo).val, lo, lo + p.size, FillByte(k)) else m)
      && Wf(FormatRegion(sp, lo, p, k)) && Whole(FormatRegion(sp, lo, p, k), lo, lo + RoundUp(p.size))
  {
    var hi := lo + RoundUp(p.size);
    MapAtEffect(sp, lo, hi, p.prot, p.shared);
    MappedArea(sp, lo, hi, p.prot, p.shared);
    RoundUpAligned(p.size);
    FillKeepsWf(MapAt(sp, lo, hi, p.prot, p.shared), lo, lo + p.size, FillByte(k));
    hide MapAt, Wf, Find;
  }

  lemma FillKeepsWf(sp: Space, lo: int, hi: int, b: byte)
    requires Wf(sp) && Cover(sp.maps, lo).Seg?
    ensures Wf(Fill(sp, Cover(sp.maps, lo).val, lo, hi, b))
  {
    CoverFind(sp.maps, 0, lo);
    FoundObject(sp.maps, lo, |sp.sizes|);
  }

  lemma WholeKept(sp: Space, lo: int, p: Param, k: nat, l: int, h: int)
    requires Wf(sp) && 0 < p.size && UserRange(lo, lo + RoundUp(p.size))
    requires (h <= lo || lo + RoundUp(p.size) <= l) && Whole(sp, l, h)
    ensures Whole(FormatRegion(sp, lo, p, k), l, h)
  {
    AreasKept(sp, lo, lo + RoundUp(p.size), p.prot, p.shared, l, h);
    hide MapAt, Unmap, Wf;
  }

  lemma FilledInside(sp: Space, lo: int, p: Param, k: nat, a: int)
    requires Wf(sp) && 0 < p.size && UserRange(lo, lo + RoundUp(p.size)) && !p.nopage && In(a, lo, lo + p.size)
    ensures See(FormatRegion(sp, lo, p, k), a) == RegionView(p, k)
  {
    var hi := lo + RoundUp(p.size);
    var m := MapAt(sp, lo, hi, p.prot, p.shared);
    RoundUpAligned(p.size);
    MapAtEffect(sp, lo, hi, p.prot, p.shared);
    MappedRegion(sp, lo, p, k);
    assert See(m, a) == Mapped(p.prot, p.shared, Byte(0));
    MappedArea(sp, lo, hi, p.prot, p.shared);
    CoverFind(m.maps, 0, lo);
    assert Find(m.maps, a) == Some(Cover(m.maps, lo).val);
    hide MapAt, FormatRegion, Find, Cover, Wf;
  }

  lemma FilledOutside(sp: Space, lo: int, p: Param, k: nat, a: int)
    requires Wf(sp) && 0 < p.size && UserRange(lo, lo + RoundUp(p.size)) && !p.nopage && !In(a, lo, lo + RoundUp(p.size))
    ensures See(FormatRegion(sp, lo, p, k), a) == See(sp, a)
  {
    var hi := lo + RoundUp(p.size);
    var m := MapAt(sp, lo, hi, p.prot, p.shared);
    RoundUpAligned(p.size);
    MapAtEffect(sp, lo, hi, p.prot, p.shared);
    MappedRegion(sp, lo, p, k);
    assert See(m, a) == See(sp, a);
    NotAliased(sp, lo, hi, p.prot, p.shared, a);
    hide MapAt, FormatRegion, Find, Cover, Wf;
  }

  /** Unmapping or mapping [lo, hi) keeps the areas outside it. */
  lemma AreasKept(sp: Space, lo: int, hi: int, prot: Prot, shared: bool, l: int, h: int)
    requires Wf(sp) && UserRange(lo, hi) && (h <= lo || hi <= l) && Whole(sp, l, h)
    ensures Whole(Unmap(sp, lo, hi), l, h) && Whole(MapAt(sp, lo, hi, prot, shared), l, h)
  {
    CoverFind(sp.maps, 0, l);
    CarveCover(sp.maps, lo, hi, 0, l);
    CarveFree(sp.maps, lo, hi, 0);
    PlaceCover(Unmap(sp, lo, hi).maps, lo, hi, Attr(prot, if shared then Shared(|sp.sizes|, -lo) else Private), l);
  }

  /** A fresh mapping is one area with its own backing. */
  lemma MappedArea(sp: Space, lo: int, hi: int, prot: Prot, shared: bool)
    requires Wf(sp) && UserRange(lo, hi)
    ensures Cover(MapAt(sp, lo, hi, prot, shared).maps, lo) ==
            Seg(lo, hi, Attr(prot, if shared then Shared(|sp.sizes|, -lo) else Private), Empty)
  {
    CarveFree(sp.maps, lo, hi, 0);
    CoverPlaced(Unmap(sp, lo, hi).maps, lo, hi, Attr(prot, if shared then Shared(|sp.sizes|, -lo) else Private), lo);
  }

  /** Filling a fresh mapping reaches no byte shown elsewhere. */
  lemma NotAliased(sp: Space, lo: int, hi: int, prot: Prot, shared: bool, a: int)
    requires Wf(sp) && UserRange(lo, hi) && !In(a, lo, hi)
    ensures var m := MapAt(sp, lo, hi, prot, shared);
      Find(m.maps, a).Some? && Cover(m.maps, lo).Seg? ==>
        forall e | e <= hi :: !Covers(Cover(m.maps, lo).val, lo, e, LocOf(Find(m.maps, a).value, a))
  {
    var u := Unmap(sp, lo, hi);
    MappedArea(sp, lo, hi, prot, shared);
    UnmapEffect(sp, lo, hi);
    CarveFree(sp.maps, lo, hi, 0);
    PlaceFind(u.maps, lo, hi, Attr(prot, if shared then Shared(|sp.sizes|, -lo) else Private), a);
    if Find(u.maps, a).Some? { FoundObject(u.maps, a, |u.sizes|); }
  }

  lemma RoundUpMonotone(a: int, b: int)
    requires a <= b
    ensures RoundUp(a) <= RoundUp(b)
  {}

  /** An aligned offset rounds to itself, and adding a size commutes with rounding. */
  lemma AlignedOffset(base: int, off: int, size: int)
    requires Aligned(base) && Aligned(base + off)
    ensures RoundUp(off) == off && RoundUp(off + size) == off + RoundUp(size)
  {}

  /** Region k, rounded to pages, lies inside the reservation. */
  lemma StepBounds(ps: seq<Param>, base: int, k: nat)
    requires k < |ps| && 0 < ps[k].size
    requires Aligned(base) && Aligned(base + Offset(ps, k)) && 0 <= base
    requires base + RoundUp(Offset(ps, |ps|)) <= USER_END
    ensures var lo, len := base + Offset(ps, k), RoundUp(ps[k].size);
      && UserRange(lo, lo + len) && base <= lo && ps[k].size <= len
      && RoundUp(Offset(ps, k)) == Offset(ps, k)
      && lo + len == base + RoundUp(Offset(ps, k + 1)) <= base + RoundUp(Offset(ps, |ps|))
  {
    OffsetMonotone(ps, 0, k);
    OffsetMonotone(ps, k + 1, |ps|);
    RoundUpMonotone(Offset(ps, k + 1), Offset(ps, |ps|));
    RoundUpAligned(ps[k].size);
    AlignedOffset(base, Offset(ps, k), ps[k].size);
    AlignedSum(base + Offset(ps, k), RoundUp(ps[k].size));
  }

  /** Nothing outside [lo, hi) has changed: no observation and no area. */
  ghost predicate SameOutside(sp: Space, sp': Space, lo: int, hi: int) {
    && (forall a | !In(a, lo, hi) :: See(sp', a) == See(sp, a))
    && (forall l, h | h <= lo || hi <= l :: Whole(sp, l, h) ==> Whole(sp', l, h))
  }

  /** A space that shows region k in [lo, hi), and is otherwise as before, extends the layout. */
  lemma LayoutStep(sp0: Space, sp: Space, sp': Space, ps: seq<Param>, base: int, k: nat, hi: int, end: int)
    requires k < |ps| && base + Offset(ps, k + 1) <= hi <= end && base <= base + Offset(ps, k)
    requires Layout(sp0, sp, ps, base, k, base + Offset(ps, k), end)
    requires Aligned(base) && Aligned(base + Offset(ps, k))
    requires RegionOk(sp', ps, base, k)
    requires SameOutside(sp, sp', base + Offset(ps, k), hi)
    ensures Layout(sp0, sp', ps, base, k + 1, hi, end)
  {
    forall i | 0 <= i < k ensures RegionOk(sp', ps, base, i) {
      OffsetMonotone(ps, i + 1, k);
      RoundUpMonotone(Offset(ps, i + 1), Offset(ps, k));
      AlignedOffset(base, Offset(ps, k), 0);
      assert RegionOk(sp, ps, base, i);
      KeepRegion(sp, sp', ps, base, i, base + Offset(ps, k), hi);
    }
  }

  lemma KeepRegion(sp: Space, sp': Space, ps: seq<Param>, base: int, i: nat, lo: int, hi: int)
    requires i < |ps| && RegionOk(sp, ps, base, i) && base + RoundUp(Offset(ps, i + 1)) <= lo
    requires SameOutside(sp, sp', lo, hi)
    ensures RegionOk(sp', ps, base, i)
  {
    RoundUpAligned(Offset(ps, i + 1));
  }

  /** `sp'` is `sp` with region k formatted, everything else untouched. */
  ghost predicate RegionStep(sp: Space, sp': Space, lo: int, p: Param, k: nat) {
    && Wf(sp')
    && (!p.nopage ==> Whole(sp', lo, lo + RoundUp(p.size)))
    && (forall a | In(a, lo, lo + p.size) :: See(sp', a) == RegionView(p, k))
    && SameOutside(sp, sp', lo, lo + RoundUp(p.size))
  }

  lemma FormatStep(sp0: Space, sp: Space, sp': Space, ps: seq<Param>, base: int, k: nat)
    requires k < |ps| && Formatted(sp0, sp, ps, base, k) && 0 < ps[k].size
    requires Aligned(base) && Aligned(base + Offset(ps, k)) && 0 <= base
    requires base + RoundUp(Offset(ps, |ps|)) <= USER_END
    requires RegionStep(sp, sp', base + Offset(ps, k), ps[k], k)
    ensures Formatted(sp0, sp', ps, base, k + 1)
  {
    StepBounds(ps, base, k);
    var lo, hi, end := base + Offset(ps, k), base + Offset(ps, k) + RoundUp(ps[k].size), base + RoundUp(Offset(ps, |ps|));
    LayoutStep(sp0, sp, sp', ps, base, k, hi, end);
  }

  /** First loop: add the sizes up modulo 2^64, stopping at the first wrap. */
  method SumSizes(params: array<Param>) returns (ok: bool, total: int)
    requires params.Length < INT / 2
    modifies params
    ensures var ps := old(params[..]);
      && ok == (Offset(ps, |ps|) < WORD)
      && (ok ==> total == Offset(ps, |ps|))
      && (ok ==> forall i | 0 <= i < |ps| :: params[i] == ps[i].(addr := MAP_FAILED))
      && (forall i | 0 <= i < |ps| :: params[i] == ps[i].(addr := params[i].addr))
  {
    ghost var ps := params[..];
    total := 0;
    for i := 0 to params.Length
      invariant total == Offset(ps, i) < WORD
      invariant forall j | 0 <= j < i :: params[j] == ps[j].(addr := MAP_FAILED)
      invariant forall j | i <= j < params.Length :: params[j] == ps[j]
    {
      OffsetMonotone(ps, i, i);
      var sum := (total + params[i].size) % WORD;
      if sum < total {
        OffsetMonotone(ps, i + 1, params.Length);
        return false, 0;
      }
      total := sum;
      params[i] := params[i].(addr := MAP_FAILED);
    }
    ok := true;
  }

  /** Body of the second loop: unmap, or map and fill, one region. */
  method FormatOne(p: Process, q: Param, addr: int, i: nat, denied: bool) returns (ok: bool)
    requires Wf(p.sp)
    requires Aligned(addr) && q.size != 0 ==> UserRange(addr, addr + RoundUp(q.size))
    modifies p
    ensures ok == !(denied || !Aligned(addr) || q.size == 0)
    ensures Wf(p.sp)
    ensures if ok then RegionStep(old(p.sp), p.sp, addr, q, i) else p.sp == old(p.sp)
  {
    ghost var sp0 := p.sp;
    CallsFail(sp0, addr, q);
    if Aligned(addr) && q.size != 0 {
      FilledRegion(sp0, addr, q, i);
      if !q.nopage { MappedRegion(sp0, addr, q, i); }
    }
    hide RegionStep, Wf, Fill, MapAt, Unmap, Cover;
    if q.nopage {
      var out := Munmap(p.sp, addr, q.size);
      if denied || out.res.Err? { return false; }
      p.sp := out.sp;
    } else {
      var out := MmapFixed(p.sp, addr, q.size, q.prot, q.shared);
      if denied || out.res.Err? { return false; }
      p.sp := out.sp;
      if q.prot.write {
        p.sp := Fill(p.sp, Cover(p.sp.maps, addr).val, addr, addr + q.size, FillByte(i));
      }
    }
    assert p.sp == FormatRegion(sp0, addr, q, i);
    return true;
  }

  /** Inside the reservation a region's call fails exactly for an unaligned address or no bytes. */
  lemma CallsFail(sp: Space, addr: int, q: Param)
    requires Aligned(addr) && q.size != 0 ==> UserRange(addr, addr + RoundUp(q.size))
    ensures Munmap(sp, addr, q.size).res.Err? <==> !Aligned(addr) || q.size == 0
    ensures MmapFixed(sp, addr, q.size, q.prot, q.shared).res.Err? <==> !Aligned(addr) || q.size == 0
  {
    RoundUpAligned(q.size);
    hide Unmap, MapAt;
  }

  /** Just after the reservation nothing is formatted. */
  lemma ReservedLayout(sp: Space, ps: seq<Param>, base: int)
    requires Wf(sp) && UserRange(base, base + RoundUp(Offset(ps, |ps|)))
    ensures var m := MapAt(sp, base, base + RoundUp(Offset(ps, |ps|)), PROT_NONE, true);
            Wf(m) && Formatted(sp, m, ps, base, 0)
  {
    hide MapAt, Wf, See;
    MapAtEffect(sp, base, base + RoundUp(Offset(ps, |ps|)), PROT_NONE, true);
    assert Offset(ps, 0) == 0;
  }

  /** `now` is the parameter list with the addresses of the first n regions recorded. */
  ghost predicate Recorded(ps: seq<Param>, now: seq<Param>, base: int, n: nat)
    requires n <= |ps|
  {
    && |now| == |ps|
    && forall i | 0 <= i < |ps| :: now[i] == ps[i].(addr := if i < n then base + Offset(ps, i) else MAP_FAILED)
  }

  lemma RecordedStep(ps: seq<Param>, now: seq<Param>, base: int, n: nat)
    requires n < |ps| && Recorded(ps, now, base, n)
    ensures Recorded(ps, now[n := now[n].(addr := base + Offset(ps, n))], base, n + 1)
  {
    hide Offset;
  }

  /** What the build has done when it stops before region n. */
  ghost predicate Stopped(sp0: Space, sp: Space, ps: seq<Param>, now: seq<Param>, base: int, denied: int -> bool, n: nat)
    requires n <= |ps|
  {
    && (forall k | 0 <= k < n :: !StepFails(ps, base, denied, k))
    && (n < |ps| ==> StepFails(ps, base, denied, n))
    && Formatted(sp0, sp, ps, base, n)
    && Recorded(ps, now, base, if n < |ps| then n + 1 else n)
  }

  /** The state of the build before region n: `now` is the parameter list with its addresses filled in so far. */
  ghost predicate Progress(sp0: Space, sp: Space, ps: seq<Param>, now: seq<Param>, base: int, denied: int -> bool, n: nat)
    requires n <= |ps|
  {
    && (forall k | 0 <= k < n :: !StepFails(ps, base, denied, k))
    && Formatted(sp0, sp, ps, base, n)
    && Recorded(ps, now, base, n)
  }

  lemma ProgressStep(sp0: Space, sp: Space, sp': Space, ps: seq<Param>, now: seq<Param>, base: int, denied: int -> bool, n: nat)
    requires n < |ps| && Progress(sp0, sp, ps, now, base, denied, n)
    requires InUserRange(ps, base)
    requires !StepFails(ps, base, denied, n)
    requires RegionStep(sp, sp', base + Offset(ps, n), now[n].(addr := base + Offset(ps, n)), n)
    ensures Progress(sp0, sp', ps, now[n := now[n].(addr := base + Offset(ps, n))], base, denied, n + 1)
  {
    hide RegionStep, Formatted, RoundUp, Aligned, Offset;
    SameRegionStep(sp, sp', base + Offset(ps, n), now[n].(addr := base + Offset(ps, n)), ps[n], n);
    FormatStep(sp0, sp, sp', ps, base, n);
    RecordedStep(ps, now, base, n);
  }

  /** The build stops before region n, either done or because that region cannot be formatted. */
  lemma ProgressStop(sp0: Space, sp: Space, ps: seq<Param>, now: seq<Param>, now': seq<Param>, base: int, denied: int -> bool, n: nat)
    requires n <= |ps| && Progress(sp0, sp, ps, now, base, denied, n)
    requires n < |ps| ==> StepFails(ps, base, denied, n)
    requires now' == if n < |ps| then now[n := now[n].(addr := base + Offset(ps, n))] else now
    ensures Stopped(sp0, sp, ps, now', base, denied, n)
  {
    hide Formatted, Offset;
    if n < |ps| { RecordedStep(ps, now, base, n); }
  }

  predicate InUserRange(ps: seq<Param>, base: int) {
    Aligned(base) && 0 <= base && base + RoundUp(Offset(ps, |ps|)) <= USER_END
  }

  /** One turn of the second loop: record the address, then format region n. */
  method FormatNext(p: Process, params: array<Param>, ghost ps: seq<Param>, addr: int, n: nat, ghost place: int,
                    denied: int -> bool, ghost sp0: Space) returns (ok: bool)
    requires n < |ps| == params.Length && addr == place + Offset(ps, n) && InUserRange(ps, place)
    requires Wf(p.sp) && Progress(sp0, p.sp, ps, params[..], place, denied, n)
    modifies p, params
    ensures Wf(p.sp) && params[n].size == ps[n].size
    ensures if ok then Progress(sp0, p.sp, ps, params[..], place, denied, n + 1)
            else Stopped(sp0, p.sp, ps, params[..], place, denied, n)
  {
    hide Progress, Stopped, RegionStep, Wf, Offset;
    ghost var now, before := params[..], p.sp;
    ProgressParam(sp0, p.sp, ps, now, place, denied, n);
    if Aligned(addr) && params[n].size != 0 { StepBounds(ps, place, n); }
    params[n] := params[n].(addr := addr);
    assert params[..] == now[n := now[n].(addr := addr)];
    ok := FormatOne(p, params[n], addr, n, denied(n));
    if ok {
      ProgressStep(sp0, before, p.sp, ps, now, place, denied, n);
    } else {
      ProgressStop(sp0, p.sp, ps, now, params[..], place, denied, n);
    }
  }

  /** Second loop: carve the reservation region by region. */
  method FormatAll(p: Process, params: array<Param>, ghost ps: seq<Param>, place: int, denied: int -> bool, ghost sp0: Space)
    returns (n: nat)
    requires Wf(p.sp) && Progress(sp0, p.sp, ps, params[..], place, denied, 0) && InUserRange(ps, place)
    modifies p, params
    ensures Wf(p.sp) && n <= params.Length == |ps|
    ensures Stopped(sp0, p.sp, ps, params[..], place, denied, n)
  {
    hide Progress, Stopped, Wf, Offset, InUserRange;
    ProgressStart(sp0, p.sp, ps, params[..], place, denied);
    var addr := place;
    n := 0;
    while n < params.Length
      invariant 0 <= n <= params.Length && addr == place + Offset(ps, n)
      invariant Wf(p.sp) && Progress(sp0, p.sp, ps, params[..], place, denied, n)
    {
      var ok := FormatNext(p, params, ps, addr, n, place, denied, sp0);
      if !ok { return; }
      OffsetStep(ps, n);
      addr := addr + params[n].size;
      n := n + 1;
    }
    ProgressStop(sp0, p.sp, ps, params[..], params[..], place, denied, n);
  }

  lemma ProgressStart(sp0: Space, sp: Space, ps: seq<Param>, now: seq<Param>, base: int, denied: int -> bool)
    requires Progress(sp0, sp, ps, now, base, denied, 0)
    ensures |now| == |ps| && Offset(ps, 0) == 0
  {}

  lemma ProgressParam(sp0: Space, sp: Space, ps: seq<Param>, now: seq<Param>, base: int, denied: int -> bool, n: nat)
    requires n < |ps| && Progress(sp0, sp, ps, now, base, denied, n)
    ensures |now| == |ps| && now[n].size == ps[n].size
  {}

  /** mremap_mmap_anon: reserve one range, then format it.  `place` is the address the kernel
      picks for the reservation, `denied(-1)` its refusal to reserve and `denied(i)` its
      refusal to format region i.  Regions are counted in an `int`. */
  method Build(p: Process, params: array<Param>, place: int, denied: int -> bool) returns (n: nat)
    requires Wf(p.sp) && params.Length < INT / 2
    modifies p, params
    ensures Wf(p.sp) && n <= params.Length
    ensures var ps := old(params[..]);
      if Offset(ps, |ps|) >= WORD || ReserveFails(old(p.sp), ps, place, denied) then n == 0 && p.sp == old(p.sp)
      else Stopped(old(p.sp), p.sp, ps, params[..], place, denied, n)
  {
    hide Formatted, Stopped, See, Wf;
    ghost var ps, sp0 := params[..], p.sp;
    var ok, total := SumSizes(params);
    if !ok { return 0; }
    OffsetMonotone(ps, 0, |ps|);
    var out := Mmap(p.sp, place, total, PROT_NONE, true);
    RoundUpAligned(total);
    if denied(-1) || out.res.Err? { return 0; }
    ReservedLayout(p.sp, ps, place);
    p.sp := out.sp;
    n := FormatAll(p, params, ps, place, denied, sp0);
  }

  /** The recorded address plays no part in formatting. */
  lemma SameRegionStep(sp: Space, sp': Space, lo: int, p: Param, q: Param, k: nat)
    requires RegionStep(sp, sp', lo, p, k) && p == q.(addr := p.addr)
    ensures RegionStep(sp, sp', lo, q, k)
  {
    assert RegionView(p, k) == RegionView(q, k);
  }
}
