/** The suite's two checkers, and the scenarios 004, 007, 008, 014 and 015 from build to verdict. */
module MremapScenarios {
  import opened Intervals
  import opened AddressSpace
  import opened RegionBuilder
  import opened Words

  /** MREMAP_RANGE_SIZE */
  const RANGE := 4 * PAGE_SIZE

  /** `Fault` is a fatal signal; `NotBuilt` an incomplete build. */
  datatype Verdict = Pass | Fail | Fault | NotBuilt

  predicate Readable(v: View) { v.Mapped? && v.prot.read && v.content.Byte? }

  predicate Reads(sp: Space, a: int, b: byte) { Readable(See(sp, a)) && See(sp, a).content.b == b }

  /** mremap_mmap_anon_data_check: every byte of the range reads as `exp`.  The first byte that
      does not decides between a mismatch and a fault. */
  method DataCheck(p: Process, addr: int, len: nat, exp: byte) returns (v: Verdict)
    ensures v == Pass <==> forall a | In(a, addr, addr + len) :: Reads(p.sp, a, exp)
    ensures v != Pass ==> exists a | In(a, addr, addr + len) ::
      && v == (if Readable(See(p.sp, a)) then Fail else Fault)
      && !Reads(p.sp, a, exp)
      && forall b | In(b, addr, a) :: Reads(p.sp, b, exp)
  {
    for idx := 0 to len
      invariant forall a | In(a, addr, addr + idx) :: Reads(p.sp, a, exp)
    {
      var c := See(p.sp, addr + idx);
      assert In(addr + idx, addr, addr + len) && (Reads(p.sp, addr + idx, exp) <==> Readable(c) && c.content.b == exp);
      if !Readable(c) { return Fault; }
      if c.content.b != exp { return Fail; }
    }
    return Pass;
  }

  predicate Writable(v: View) { v.Mapped? && v.prot.write && v.content.Byte? }

  /** `sp'` has the areas and objects of `sp`, and differs from it only in bytes shown in [lo, hi). */
  ghost predicate OnlyBytes(sp: Space, sp': Space, lo: int, hi: int) {
    && sp'.maps == sp.maps && sp'.sizes == sp.sizes
    && forall k | !ShownIn(sp, lo, hi, k) :: sp'.mem(k) == sp.mem(k)
  }

  /** Some address in [lo, hi) shows location k. */
  ghost predicate ShownIn(sp: Space, lo: int, hi: int, k: Loc) {
    exists a :: In(a, lo, hi) && Find(sp.maps, a).Some? && LocOf(Find(sp.maps, a).value, a) == k
  }

  /** Changing bytes changes no address's readability or writability. */
  lemma SameAccess(sp: Space, sp': Space, a: int)
    requires sp'.maps == sp.maps && sp'.sizes == sp.sizes
    ensures Readable(See(sp', a)) == Readable(See(sp, a)) && Writable(See(sp', a)) == Writable(See(sp, a))
  {}

  /** A store succeeds exactly at writable addresses, is seen there, and writes one byte. */
  lemma StoreEffect(sp: Space, a: int, b: byte)
    ensures Store1(sp, a, b).Some? <==> Writable(See(sp, a))
    ensures Store1(sp, a, b).Some? ==> var sp' := Store1(sp, a, b).value;
      && sp'.maps == sp.maps && sp'.sizes == sp.sizes
      && See(sp', a).Mapped? && See(sp', a).content == Byte(b)
      && (forall x :: See(sp', x) == See(sp, x) || (See(sp', x).Mapped? && See(sp', x).content == Byte(b)))
      && (forall k | k != LocOf(Find(sp.maps, a).value, a) :: sp'.mem(k) == sp.mem(k))
  {
    hide Find;
  }

  /** Another store in the range keeps the frame. */
  lemma StoreInside(sp: Space, now: Space, lo: int, hi: int, a: int, b: byte)
    requires OnlyBytes(sp, now, lo, hi) && In(a, lo, hi) && Store1(now, a, b).Some?
    ensures OnlyBytes(sp, Store1(now, a, b).value, lo, hi)
  {
    hide Find;
    StoreEffect(now, a, b);
    assert ShownIn(sp, lo, hi, LocOf(Find(sp.maps, a).value, a));
  }

  /** memset, byte by byte: faults exactly if some byte is not writable. */
  method Memset(p: Process, addr: int, len: nat, b: byte) returns (ok: bool)
    modifies p
    ensures ok <==> forall a | In(a, addr, addr + len) :: Writable(See(old(p.sp), a))
    ensures OnlyBytes(old(p.sp), p.sp, addr, addr + len)
    ensures ok ==> forall a | In(a, addr, addr + len) :: See(p.sp, a).Mapped? && See(p.sp, a).content == Byte(b)
  {
    ghost var sp0 := p.sp;
    hide See, Store1, OnlyBytes;
    assert OnlyBytes(sp0, p.sp, addr, addr + len) by { SameBytes(sp0, addr, addr + len); }
    for i := 0 to len
      invariant OnlyBytes(sp0, p.sp, addr, addr + len)
      invariant forall a | In(a, addr, addr + i) :: Writable(See(sp0, a))
      invariant forall a | In(a, addr, addr + i) :: See(p.sp, a).Mapped? && See(p.sp, a).content == Byte(b)
    {
      ghost var a := addr + i;
      SameMaps(sp0, p.sp, addr, addr + len);
      SameAccess(sp0, p.sp, a);
      StoreEffect(p.sp, a, b);
      var next := Store1(p.sp, addr + i, b);
      if next.None? {
        assert In(a, addr, addr + len);
        return false;
      }
      StoreInside(sp0, p.sp, addr, addr + len, a, b);
      p.sp := next.value;
    }
    ok := true;
  }

  lemma SameBytes(sp: Space, lo: int, hi: int)
    ensures OnlyBytes(sp, sp, lo, hi)
  {}

  lemma SameMaps(sp: Space, sp': Space, lo: int, hi: int)
    requires OnlyBytes(sp, sp', lo, hi)
    ensures sp'.maps == sp.maps && sp'.sizes == sp.sizes
  {}

  lemma MoreBytes(sp: Space, mid: Space, sp': Space, lo: int, hi: int)
    requires OnlyBytes(sp, mid, lo, hi) && OnlyBytes(mid, sp', lo, hi)
    ensures OnlyBytes(sp, sp', lo, hi)
  {
    assert forall k :: ShownIn(mid, lo, hi, k) == ShownIn(sp, lo, hi, k);
  }

  /** Every byte of [lo, hi) can be written, and the first and the last one read. */
  ghost predicate Accessible(sp: Space, lo: int, hi: int) {
    && (forall a | In(a, lo, hi) :: Writable(See(sp, a)))
    && Readable(See(sp, lo)) && Readable(See(sp, hi - 1))
  }

  /** Write a byte and read it back; anything but success is a fatal signal. */
  method Poke(p: Process, a: int, b: byte, ghost lo: int, ghost hi: int) returns (v: Verdict)
    requires In(a, lo, hi)
    modifies p
    ensures v == if Writable(See(old(p.sp), a)) && Readable(See(old(p.sp), a)) then Pass else Fault
    ensures OnlyBytes(old(p.sp), p.sp, lo, hi)
  {
    SameBytes(p.sp, lo, hi);
    StoreEffect(p.sp, a, b);
    var next := Store1(p.sp, a, b);
    if next.None? { return Fault; }
    SameAccess(p.sp, next.value, a);
    StoreInside(p.sp, p.sp, lo, hi, a, b);
    hide OnlyBytes;
    p.sp := next.value;
    var c := See(p.sp, a);
    if !Readable(c) { return Fault; }
    return if c.content.b == b then Pass else Fail;
  }

  /** mremap_mmap_anon_access_check: write and read back the first and last byte, then fill.  It
      passes exactly on ranges that are accessible throughout, which are then all '0'; otherwise
      it ends in a fatal signal.  It writes no byte that the range does not show. */
  method AccessCheck(p: Process, addr: int, len: nat) returns (v: Verdict)
    modifies p
    ensures v ==
      if addr == 0 then Fail else if len == 0 then Pass
      else if Accessible(old(p.sp), addr, addr + len) then Pass else Fault
    ensures OnlyBytes(old(p.sp), p.sp, addr, addr + len)
    ensures v == Pass ==> forall a | In(a, addr, addr + len) :: See(p.sp, a).Mapped? && See(p.sp, a).content == Byte(48)
  {
    ghost var sp0, end := p.sp, addr + len;
    SameBytes(sp0, addr, end);
    if addr == 0 { return Fail; }
    if len == 0 { return Pass; }
    hide OnlyBytes, See, Readable, Writable;
    assert In(addr, addr, end) && In(end - 1, addr, end);
    v := Poke(p, addr, 65, addr, end);
    if v != Pass { return; }
    ghost var sp1 := p.sp;
    KeptAccess(sp0, sp1, addr, end);
    v := Poke(p, addr + len - 1, 90, addr, end);
    MoreBytes(sp0, sp1, p.sp, addr, end);
    if v != Pass { return; }
    ghost var sp2 := p.sp;
    KeptAccess(sp0, sp2, addr, end);
    var ok := Memset(p, addr, len, 48);
    MoreBytes(sp0, sp2, p.sp, addr, end);
    v := if ok then Pass else Fault;
  }

  lemma KeptAccess(sp: Space, sp': Space, lo: int, hi: int)
    requires OnlyBytes(sp, sp', lo, hi)
    ensures forall a :: Readable(See(sp', a)) == Readable(See(sp, a)) && Writable(See(sp', a)) == Writable(See(sp, a))
  {
    forall a ensures Readable(See(sp', a)) == Readable(See(sp, a)) && Writable(See(sp', a)) == Writable(See(sp, a)) {
      SameAccess(sp, sp', a);
    }
  }

  function Use(size: size_t, prot: Prot): Param { Param(0, size, false, false, prot) }

  // ----- what a complete build gives a scenario -----

  /** Region i of a complete build of page-multiple sizes: its address, its area and its bytes. */
  ghost predicate Region(sp: Space, addr: int, size: int, prot: Prot, i: nat) {
    && UserRange(addr, addr + size)
    && Whole(sp, addr, addr + size)
    && forall a | In(a, addr, addr + size) ::
         See(sp, a) == Mapped(prot, false, Byte(if prot.write then FillByte(i) else 0))
  }

  lemma BuiltRegion(sp0: Space, sp: Space, ps: seq<Param>, now: seq<Param>, base: int, denied: int -> bool, i: nat)
    requires Stopped(sp0, sp, ps, now, base, denied, |ps|) && !ReserveFails(sp0, ps, base, denied) && i < |ps|
    requires !ps[i].nopage && !ps[i].shared && Aligned(ps[i].size)
    ensures |now| == |ps| && now[i].addr == base + Offset(ps, i)
    ensures Region(sp, base + Offset(ps, i), ps[i].size, ps[i].prot, i)
  {
    hide See, Whole, Offset, Wf, RoundUp;
    StoppedRegion(sp0, sp, ps, now, base, denied, i);
    StepBounds(ps, base, i);
    OffsetStep(ps, i);
    RoundUpAligned(ps[i].size);
  }

  lemma StoppedRegion(sp0: Space, sp: Space, ps: seq<Param>, now: seq<Param>, base: int, denied: int -> bool, i: nat)
    requires Stopped(sp0, sp, ps, now, base, denied, |ps|) && i < |ps|
    ensures |now| == |ps| && now[i].addr == base + Offset(ps, i)
    ensures RegionOk(sp, ps, base, i) && !StepFails(ps, base, denied, i)
  {
    hide See, Whole, Offset, RegionOk, StepFails, Wf;
  }

  /** The kernel refuses nothing and offers a free place of `total` bytes. */
  ghost predicate Unhindered(sp: Space, place: int, total: int, denied: int -> bool) {
    Vacant(sp, place, place + total) && forall i :: !denied(i)
  }

  lemma {:induction false} AlignedOffsets(ps: seq<Param>, k: nat)
    requires k <= |ps| && forall i | 0 <= i < |ps| :: Aligned(ps[i].size)
    ensures Aligned(Offset(ps, k))
  {
    if 0 < k { AlignedOffsets(ps, k - 1); }
  }

  /** An unhindered build of non-empty page multiples is complete. */
  lemma FullBuild(sp0: Space, sp: Space, ps: seq<Param>, now: seq<Param>, base: int, denied: int -> bool, n: nat)
    requires n <= |ps| && 0 < Offset(ps, |ps|) < WORD
    requires forall i | 0 <= i < |ps| :: Aligned(ps[i].size) && ps[i].size != 0
    requires ReserveFails(sp0, ps, base, denied) || Stopped(sp0, sp, ps, now, base, denied, n)
    ensures Unhindered(sp0, base, Offset(ps, |ps|), denied) ==> n == |ps|
  {
    hide Formatted, Recorded, Offset;
    AlignedOffsets(ps, |ps|);
    RoundUpAligned(Offset(ps, |ps|));
    AlignedOffsets(ps, n);
    if Unhindered(sp0, base, Offset(ps, |ps|), denied) { AlignedSum(base, Offset(ps, n)); }
  }

  // ----- the remap step of each scenario, on any space holding the built regions -----

  /** 004: growth into a mapped neighbour, without leave to move. */
  lemma Blocked(sp: Space, a0: int, a1: int, place: int)
    requires Wf(sp) && Region(sp, a0, RANGE, PROT_RW, 0) && Region(sp, a1, RANGE, PROT_NONE, 1) && a1 == a0 + RANGE
    ensures Mremap(sp, a0, RANGE, 2 * RANGE, Flags(false, false), 0, place) == Outcome(sp, Err(ENOMEM))
  {
    GrowInPlaceIff(sp, a0, RANGE, 2 * RANGE, place);
    assert See(sp, a1) != Unmapped;
    MremapSound(sp, a0, RANGE, 2 * RANGE, Flags(false, false), 0, place);
  }

  /** 007: a fixed move over the first half of a larger region. */
  lemma MovedOver(sp: Space, a0: int, a2: int, place: int)
    requires Wf(sp) && Region(sp, a0, RANGE, PROT_RW, 0) && Region(sp, a2, 2 * RANGE, PROT_RW, 2) && a0 + RANGE <= a2
    ensures var out := Mremap(sp, a0, RANGE, RANGE, Flags(true, true), a2, place);
      Wf(out.sp) && Moved007(out, a2)
  {
    hide Wf, Mremap, Sound, See, Find, Cover;
    var out := Mremap(sp, a0, RANGE, RANGE, Flags(true, true), a2, place);
    MremapSound(sp, a0, RANGE, RANGE, Flags(true, true), a2, place);
    FixedMoveResult(sp, a0, RANGE, RANGE, true, a2, place);
    SoundAt(sp, a0, RANGE, RANGE, out, a2);
    forall a | In(a, a2, a2 + 2 * RANGE)
      ensures See(out.sp, a) == Mapped(PROT_RW, false, Byte(if a < a2 + RANGE then 48 else 50))
    {
      MovedAt(sp, a0, a2, out, a);
    }
  }

  lemma MovedAt(sp: Space, a0: int, a2: int, out: Outcome, a: int)
    requires Region(sp, a0, RANGE, PROT_RW, 0) && Region(sp, a2, 2 * RANGE, PROT_RW, 2) && a0 + RANGE <= a2
    requires Sound(sp, a0, RANGE, RANGE, out) && out.res == Ok(a2) && In(a, a2, a2 + 2 * RANGE)
    ensures See(out.sp, a) == Mapped(PROT_RW, false, Byte(if a < a2 + RANGE then 48 else 50))
  {
    hide See, Sound, Whole;
    SoundAt(sp, a0, RANGE, RANGE, out, a);
    assert In(a - a2 + a0, a0, a0 + RANGE) || a2 + RANGE <= a;
  }

  /** 008: a fixed target that starts before the source and reaches over it. */
  lemma Overlapped(sp: Space, addr: int, naddr: int, place: int)
    requires naddr == addr - RANGE
    ensures Mremap(sp, addr, RANGE, 3 * RANGE, Flags(true, true), naddr, place) == Outcome(sp, Err(EINVAL))
  {
    hide Mremap;
    FixedMoveResult(sp, addr, RANGE, 3 * RANGE, true, naddr, place);
    assert In(addr, addr, addr + RANGE) && In(addr, naddr, naddr + 3 * RANGE);
  }

  /** 014: shrinking by one page. */
  lemma Shrunk(sp: Space, a0: int, place: int)
    requires Wf(sp) && Region(sp, a0, 2 * RANGE, PROT_RW, 0)
    ensures var out := Mremap(sp, a0, 2 * RANGE, 2 * RANGE - PAGE_SIZE, Flags(false, false), 0, place);
      out.res == Ok(a0) && Wf(out.sp) && Shrunk014(out)
  {
    hide Wf;
    var out := Mremap(sp, a0, 2 * RANGE, 2 * RANGE - PAGE_SIZE, Flags(false, false), 0, place);
    MremapSound(sp, a0, 2 * RANGE, 2 * RANGE - PAGE_SIZE, Flags(false, false), 0, place);
    forall a | In(a, a0, a0 + 2 * RANGE - PAGE_SIZE) ensures See(out.sp, a) == See(sp, a) {
      assert See(out.sp, a) == AfterRemap(sp, a0, 2 * RANGE, a0, 2 * RANGE - PAGE_SIZE, a);
    }
  }

  /** 015: growth by moving, the neighbour being mapped. */
  lemma GrownElsewhere(sp: Space, a0: int, a1: int, place: int)
    requires Wf(sp) && Region(sp, a0, RANGE, PROT_RW, 0) && Region(sp, a1, RANGE, PROT_NONE, 1) && a1 == a0 + RANGE
    ensures var out := Mremap(sp, a0, RANGE, 2 * RANGE, Flags(true, false), 0, place);
      if Vacant(sp, place, place + 2 * RANGE) then
        out.res == Ok(place) && Wf(out.sp) && Grown015(out, a0)
      else out == Outcome(sp, Err(ENOMEM))
  {
    hide Wf, Mremap, Sound, Find, Cover, Reads, See, Free, Region, Vacant, Covered, Grown;
    GrowthResult(sp, a0, a1, place);
    MremapSound(sp, a0, RANGE, 2 * RANGE, Flags(true, false), 0, place);
    var out := Mremap(sp, a0, RANGE, 2 * RANGE, Flags(true, false), 0, place);
    SoundAt(sp, a0, RANGE, 2 * RANGE, out, a0);
    if Vacant(sp, place, place + 2 * RANGE) {
      VacantDisjoint(sp, a0, RANGE, place, 2 * RANGE);
      forall a | In(a, place, place + RANGE) ensures Reads(out.sp, a, 48) { GrownAt(sp, a0, place, out, a); }
    }
  }

  lemma GrownAt(sp: Space, a0: int, place: int, out: Outcome, a: int)
    requires Region(sp, a0, RANGE, PROT_RW, 0) && Sound(sp, a0, RANGE, 2 * RANGE, out) && out.res == Ok(place)
    requires In(a, place, place + RANGE)
    ensures Reads(out.sp, a, 48)
  {
    hide See, Sound, Whole;
    SoundAt(sp, a0, RANGE, 2 * RANGE, out, a);
    assert In(a - place + a0, a0, a0 + RANGE);
  }

  /** What mremap returns there, and that the region is one mapped area. */
  lemma GrowthResult(sp: Space, a0: int, a1: int, place: int)
    requires Wf(sp) && Region(sp, a0, RANGE, PROT_RW, 0) && Region(sp, a1, RANGE, PROT_NONE, 1) && a1 == a0 + RANGE
    ensures Covered(sp, a0, a0 + RANGE)
    ensures var out := Mremap(sp, a0, RANGE, 2 * RANGE, Flags(true, false), 0, place);
      if Vacant(sp, place, place + 2 * RANGE) then out.res == Ok(place) else out == Outcome(sp, Err(ENOMEM))
  {
    hide Wf, Mremap, See, Free, Sound, Find;
    assert In(a1, a0 + RANGE, a0 + 2 * RANGE) && See(sp, a1) != Unmapped;
    MremapResult(sp, a0, RANGE, 2 * RANGE, true, 0, place);
    FreeIff(sp, place, place + 2 * RANGE);
    MremapSound(sp, a0, RANGE, 2 * RANGE, Flags(true, false), 0, place);
    SoundAt(sp, a0, RANGE, 2 * RANGE, Mremap(sp, a0, RANGE, 2 * RANGE, Flags(true, false), 0, place), a0);
  }

  // ----- the scenarios, from build to verdict, on any kernel -----

  /** Parameters of private regions of whole pages. */
  ghost predicate Plain(ps: seq<Param>) {
    && (forall i | 0 <= i < |ps| :: !ps[i].nopage && !ps[i].shared && Aligned(ps[i].size) && ps[i].size != 0)
    && 0 < Offset(ps, |ps|) < WORD
  }

  /** Region i is where and what its parameters say. */
  ghost predicate RegionBuilt(sp: Space, ps: seq<Param>, now: seq<Param>, base: int, i: nat)
    requires i < |ps| == |now|
  {
    now[i].addr == base + Offset(ps, i) && Region(sp, base + Offset(ps, i), ps[i].size, ps[i].prot, i)
  }

  ghost predicate AllBuilt(sp: Space, ps: seq<Param>, now: seq<Param>, base: int) {
    Wf(sp) && |now| == |ps| && forall i | 0 <= i < |ps| :: RegionBuilt(sp, ps, now, base, i)
  }

  lemma CompleteBuild(sp0: Space, sp: Space, ps: seq<Param>, now: seq<Param>, base: int, denied: int -> bool)
    requires Wf(sp) && Stopped(sp0, sp, ps, now, base, denied, |ps|) && !ReserveFails(sp0, ps, base, denied) && Plain(ps)
    ensures AllBuilt(sp, ps, now, base)
  {
    hide Stopped, Region, Wf, ReserveFails, Offset;
    NotEmpty(ps);
    BuiltRegion(sp0, sp, ps, now, base, denied, 0);
    forall i | 0 <= i < |ps| ensures RegionBuilt(sp, ps, now, base, i) {
      BuiltRegion(sp0, sp, ps, now, base, denied, i);
    }
  }

  /** Build such regions; nothing but the kernel can hinder it. */
  method Prepare(p: Process, params: array<Param>, place: int, denied: int -> bool) returns (complete: bool)
    requires Wf(p.sp) && params.Length < INT / 2 && Plain(params[..])
    modifies p, params
    ensures var ps := old(params[..]);
      && (Unhindered(old(p.sp), place, Offset(ps, |ps|), denied) ==> complete)
      && (complete ==> AllBuilt(p.sp, ps, params[..], place))
  {
    ghost var ps, sp0 := params[..], p.sp;
    hide *;
    var n := Build(p, params, place, denied);
    Outcomes(sp0, p.sp, ps, params[..], place, denied, n);
    complete := n == params.Length;
  }

  lemma Outcomes(sp0: Space, sp: Space, ps: seq<Param>, now: seq<Param>, base: int, denied: int -> bool, n: nat)
    requires n <= |ps| && Plain(ps) && Wf(sp)
    requires if Offset(ps, |ps|) >= WORD || ReserveFails(sp0, ps, base, denied) then n == 0 else Stopped(sp0, sp, ps, now, base, denied, n)
    ensures Unhindered(sp0, base, Offset(ps, |ps|), denied) ==> n == |ps|
    ensures n == |ps| ==> AllBuilt(sp, ps, now, base)
  {
    hide Stopped, ReserveFails, Offset, Unhindered, AllBuilt, Wf;
    FullBuild(sp0, sp, ps, now, base, denied, n);
    NotEmpty(ps);
    if n == |ps| { CompleteBuild(sp0, sp, ps, now, base, denied); }
  }

  lemma NotEmpty(ps: seq<Param>)
    requires Plain(ps)
    ensures ps != []
  {}

  /** The first few offsets. */
  lemma Offsets(ps: seq<Param>)
    ensures Offset(ps, 0) == 0
    ensures 1 <= |ps| ==> Offset(ps, 1) == ps[0].size
    ensures 2 <= |ps| ==> Offset(ps, 2) == ps[0].size + ps[1].size
    ensures 3 <= |ps| ==> Offset(ps, 3) == ps[0].size + ps[1].size + ps[2].size
    ensures 4 <= |ps| ==> Offset(ps, 4) == ps[0].size + ps[1].size + ps[2].size + ps[3].size
    ensures 5 <= |ps| ==> Offset(ps, 5) == ps[0].size + ps[1].size + ps[2].size + ps[3].size + ps[4].size
  {
    if 1 <= |ps| { OffsetStep(ps, 0); }
    if 2 <= |ps| { OffsetStep(ps, 1); }
    if 3 <= |ps| { OffsetStep(ps, 2); }
    if 4 <= |ps| { OffsetStep(ps, 3); }
    if 5 <= |ps| { OffsetStep(ps, 4); }
  }

  /** What a kernel under test makes of mremap(addr, oldSize, newSize, flags, newAddr). */
  type Kernel = (Space, int, int, int, Flags, int) -> Outcome

  /** What the scenarios' builds leave: regions back to back from `base`. */
  ghost predicate Built004(sp: Space, base: int) {
    Wf(sp) && Region(sp, base, RANGE, PROT_RW, 0) && Region(sp, base + RANGE, RANGE, PROT_NONE, 1)
  }

  ghost predicate Built007(sp: Space, base: int) {
    && Wf(sp) && Region(sp, base, RANGE, PROT_RW, 0) && Region(sp, base + RANGE, RANGE, PROT_NONE, 1)
    && Region(sp, base + 2 * RANGE, 2 * RANGE, PROT_RW, 2) && Region(sp, base + 4 * RANGE, RANGE, PROT_NONE, 3)
  }

  ghost predicate Built008(sp: Space, base: int) {
    && Wf(sp) && Region(sp, base, RANGE, PROT_NONE, 0) && Region(sp, base + RANGE, RANGE, PROT_READ, 1)
    && Region(sp, base + 2 * RANGE, RANGE, PROT_RW, 2)
    && Region(sp, base + 3 * RANGE, RANGE, PROT_READ, 3) && Region(sp, base + 4 * RANGE, RANGE, PROT_NONE, 4)
  }

  ghost predicate Built014(sp: Space, base: int) {
    Wf(sp) && Region(sp, base, 2 * RANGE, PROT_RW, 0) && Region(sp, base + 2 * RANGE, RANGE, PROT_NONE, 1)
  }

  function Params004(): (r: seq<Param>)
    ensures Plain(r) && Offset(r, |r|) == 2 * RANGE
  {
    var r := [Use(RANGE, PROT_RW), Use(RANGE, PROT_NONE)];
    Offsets(r);
    r
  }

  lemma Regions004(sp: Space, now: seq<Param>, base: int)
    requires AllBuilt(sp, Params004(), now, base)
    ensures |now| == 2 && Built004(sp, base)
    ensures now[0].addr == base && now[1].addr == base + RANGE
  {
    var ps := Params004();
    hide Region, Wf, Offset;
    Offsets(ps);
    assert RegionBuilt(sp, ps, now, base, 0);
    assert RegionBuilt(sp, ps, now, base, 1);
  }

  function Params007(): (r: seq<Param>)
    ensures Plain(r) && Offset(r, |r|) == 5 * RANGE
  {
    var r := [Use(RANGE, PROT_RW), Use(RANGE, PROT_NONE), Use(2 * RANGE, PROT_RW), Use(RANGE, PROT_NONE)];
    Offsets(r);
    r
  }

  lemma Regions007(sp: Space, now: seq<Param>, base: int)
    requires AllBuilt(sp, Params007(), now, base)
    ensures |now| == 4 && Built007(sp, base)
    ensures now[0].addr == base && now[1].addr == base + RANGE && now[2].addr == base + 2 * RANGE && now[3].addr == base + 4 * RANGE
  {
    var ps := Params007();
    hide Region, Wf, Offset;
    Offsets(ps);
    assert RegionBuilt(sp, ps, now, base, 0);
    assert RegionBuilt(sp, ps, now, base, 1);
    assert RegionBuilt(sp, ps, now, base, 2);
    assert RegionBuilt(sp, ps, now, base, 3);
  }

  function Params008(): (r: seq<Param>)
    ensures Plain(r) && Offset(r, |r|) == 5 * RANGE
  {
    var r := [Use(RANGE, PROT_NONE), Use(RANGE, PROT_READ), Use(RANGE, PROT_RW), Use(RANGE, PROT_READ), Use(RANGE, PROT_NONE)];
    Offsets(r);
    r
  }

  lemma Regions008(sp: Space, now: seq<Param>, base: int)
    requires AllBuilt(sp, Params008(), now, base)
    ensures |now| == 5 && Built008(sp, base)
    ensures now[0].addr == base && now[1].addr == base + RANGE && now[2].addr == base + 2 * RANGE && now[3].addr == base + 3 * RANGE && now[4].addr == base + 4 * RANGE
  {
    var ps := Params008();
    hide Region, Wf, Offset;
    Offsets(ps);
    assert RegionBuilt(sp, ps, now, base, 0);
    assert RegionBuilt(sp, ps, now, base, 1);
    assert RegionBuilt(sp, ps, now, base, 2);
    assert RegionBuilt(sp, ps, now, base, 3);
    assert RegionBuilt(sp, ps, now, base, 4);
  }

  function Params014(): (r: seq<Param>)
    ensures Plain(r) && Offset(r, |r|) == 3 * RANGE
  {
    var r := [Use(2 * RANGE, PROT_RW), Use(RANGE, PROT_NONE)];
    Offsets(r);
    r
  }

  lemma Regions014(sp: Space, now: seq<Param>, base: int)
    requires AllBuilt(sp, Params014(), now, base)
    ensures |now| == 2 && Built014(sp, base)
    ensures now[0].addr == base && now[1].addr == base + 2 * RANGE
  {
    var ps := Params014();
    hide Region, Wf, Offset;
    Offsets(ps);
    assert RegionBuilt(sp, ps, now, base, 0);
    assert RegionBuilt(sp, ps, now, base, 1);
  }

  // In each contract, `room` is the place the model would offer if the kernel is the model.

  /** 004 builds two regions and passes exactly when growth over the second fails with ENOMEM, as it
      does in the model. */
  method Scenario004(p: Process, place: int, denied: int -> bool, kernel: Kernel, ghost room: int) returns (v: Verdict, ghost built: Space)
    requires Wf(p.sp)
    modifies p
    ensures Unhindered(old(p.sp), place, 2 * RANGE, denied) ==> v != NotBuilt
    ensures v != NotBuilt ==> Built004(built, place)
    ensures v != NotBuilt ==> var out := kernel(built, place, RANGE, 2 * RANGE, Flags(false, false), 0);
      && p.sp == out.sp && v == (if out.res == Err(ENOMEM) then Pass else Fail)
      && (out == Mremap(built, place, RANGE, 2 * RANGE, Flags(false, false), 0, room) ==> v == Pass)
  {
    var ps := Params004();
    var params := new Param[|ps|](i requires 0 <= i < |ps| => ps[i]);
    assert params[..] == ps;
    hide Region, Wf, Offset, Unhindered, Mremap, Params004, Plain, AllBuilt;
    var complete := Prepare(p, params, place, denied);
    built := p.sp;
    if !complete { return NotBuilt, built; }
    Regions004(built, params[..], place);
    Blocked(built, place, place + RANGE, room);
    var out := kernel(p.sp, params[0].addr, RANGE, 2 * RANGE, Flags(false, false), 0);
    p.sp := out.sp;
    if out.res.Ok? { return Fail, built; }
    if out.res.errno != ENOMEM { return Fail, built; }
    return Pass, built;
  }

  /** What the checks of 007 accept: the move went to the target, which holds the moved bytes, can be
      used, and is followed by the rest of the region it landed on. */
  ghost predicate Moved007(out: Outcome, naddr: int) {
    && naddr != 0 && out.res == Ok(naddr)
    && (forall a | In(a, naddr, naddr + RANGE) :: Reads(out.sp, a, 48))
    && (forall a | In(a, naddr + RANGE, naddr + 2 * RANGE) :: Reads(out.sp, a, 50))
    && Accessible(out.sp, naddr, naddr + RANGE)
  }

  /** 007 from the remap on. */
  method Check007(p: Process, naddr: int, out: Outcome) returns (v: Verdict)
    modifies p
    ensures v != NotBuilt && (v == Pass <==> Moved007(out, naddr))
    ensures OnlyBytes(out.sp, p.sp, naddr, naddr + RANGE)
  {
    hide Accessible, OnlyBytes, Reads, See;
    p.sp := out.sp;
    SameBytes(p.sp, naddr, naddr + RANGE);
    if out.res != Ok(naddr) { return Fail; }
    v := DataCheck(p, naddr, RANGE, 48);
    if v != Pass { return; }
    v := DataCheck(p, naddr + RANGE, RANGE, 50);
    if v != Pass { return; }
    v := AccessCheck(p, naddr, RANGE);
  }

  /** 007 builds four regions and passes exactly when its checks accept the fixed move of the first
      over the start of the third, as they do in the model. */
  method Scenario007(p: Process, place: int, denied: int -> bool, kernel: Kernel, ghost room: int) returns (v: Verdict, ghost built: Space)
    requires Wf(p.sp)
    modifies p
    ensures Unhindered(old(p.sp), place, 5 * RANGE, denied) ==> v != NotBuilt
    ensures v != NotBuilt ==> Built007(built, place)
    ensures v != NotBuilt ==> var naddr := place + 2 * RANGE;
      var out := kernel(built, place, RANGE, RANGE, Flags(true, true), naddr);
      && OnlyBytes(out.sp, p.sp, naddr, naddr + RANGE) && (v == Pass <==> Moved007(out, naddr))
      && (out == Mremap(built, place, RANGE, RANGE, Flags(true, true), naddr, room) ==> v == Pass)
  {
    var ps := Params007();
    var params := new Param[|ps|](i requires 0 <= i < |ps| => ps[i]);
    assert params[..] == ps;
    hide Region, Wf, Offset, Unhindered, Mremap, Moved007, OnlyBytes, Params007, Plain, AllBuilt;
    var complete := Prepare(p, params, place, denied);
    built := p.sp;
    if !complete { return NotBuilt, built; }
    Regions007(built, params[..], place);
    MovedOver(built, place, place + 2 * RANGE, room);
    var out := kernel(p.sp, params[0].addr, RANGE, RANGE, Flags(true, true), params[2].addr);
    v := Check007(p, params[2].addr, out);
  }

  /** 008 builds five regions and passes exactly when a move to a target reaching over the source fails
      with EINVAL, as it does in the model. */
  method Scenario008(p: Process, place: int, denied: int -> bool, kernel: Kernel, ghost room: int) returns (v: Verdict, ghost built: Space)
    requires Wf(p.sp)
    modifies p
    ensures Unhindered(old(p.sp), place, 5 * RANGE, denied) ==> v != NotBuilt
    ensures v != NotBuilt ==> Built008(built, place)
    ensures v != NotBuilt ==> var addr, naddr := place + 2 * RANGE, place + RANGE;
      var out := kernel(built, addr, RANGE, 3 * RANGE, Flags(true, true), naddr);
      && p.sp == out.sp && v == (if out.res == Err(EINVAL) then Pass else Fail)
      && (out == Mremap(built, addr, RANGE, 3 * RANGE, Flags(true, true), naddr, room) ==> v == Pass)
  {
    var ps := Params008();
    var params := new Param[|ps|](i requires 0 <= i < |ps| => ps[i]);
    assert params[..] == ps;
    hide Region, Wf, Offset, Unhindered, Mremap, Params008, Plain, AllBuilt;
    var complete := Prepare(p, params, place, denied);
    built := p.sp;
    if !complete { return NotBuilt, built; }
    Regions008(built, params[..], place);
    Overlapped(built, place + 2 * RANGE, place + RANGE, room);
    var out := kernel(p.sp, params[2].addr, RANGE, 3 * RANGE, Flags(true, true), params[1].addr);
    p.sp := out.sp;
    if out.res.Ok? { return Fail, built; }
    if out.res.errno != EINVAL { return Fail, built; }
    return Pass, built;
  }

  /** Reading there raises SIGSEGV. */
  predicate Segv(v: View) { v.Unmapped? || !v.prot.read }

  /** Reading `a` with a handler for SIGSEGV that exits successfully. */
  method Probe(p: Process, a: int) returns (v: Verdict)
    ensures v == if Segv(See(p.sp, a)) then Pass else if Readable(See(p.sp, a)) then Fail else Fault
  {
    var c := See(p.sp, a);
    if c.Unmapped? || !c.prot.read { return Pass; }
    if c.content.Byte? { return Fail; }
    return Fault;
  }

  /** What the checks of 014 accept: the kept bytes, and a signal at the first one cut off. */
  ghost predicate Shrunk014(out: Outcome) {
    && out.res.Ok?
    && (forall a | In(a, out.res.addr, out.res.addr + 2 * RANGE - PAGE_SIZE) :: Reads(out.sp, a, 48))
    && Segv(See(out.sp, out.res.addr + 2 * RANGE - PAGE_SIZE))
  }

  /** 014 builds two regions and passes exactly when its checks accept the shrink of the first by a
      page, as they do in the model. */
  method Scenario014(p: Process, place: int, denied: int -> bool, kernel: Kernel, ghost room: int) returns (v: Verdict, ghost built: Space)
    requires Wf(p.sp)
    modifies p
    ensures Unhindered(old(p.sp), place, 3 * RANGE, denied) ==> v != NotBuilt
    ensures v != NotBuilt ==> Built014(built, place)
    ensures v != NotBuilt ==> var out := kernel(built, place, 2 * RANGE, 2 * RANGE - PAGE_SIZE, Flags(false, false), 0);
      && p.sp == out.sp && (v == Pass <==> Shrunk014(out))
      && (out == Mremap(built, place, 2 * RANGE, 2 * RANGE - PAGE_SIZE, Flags(false, false), 0, room) ==> v == Pass)
  {
    var ps := Params014();
    var params := new Param[|ps|](i requires 0 <= i < |ps| => ps[i]);
    assert params[..] == ps;
    hide Region, Wf, Offset, Unhindered, Mremap, Shrunk014, Params014, Plain, AllBuilt;
    var complete := Prepare(p, params, place, denied);
    built := p.sp;
    if !complete { return NotBuilt, built; }
    Regions014(built, params[..], place);
    Shrunk(built, place, room);
    var out := kernel(p.sp, params[0].addr, 2 * RANGE, 2 * RANGE - PAGE_SIZE, Flags(false, false), 0);
    v := Check014(p, out);
  }

  /** 014 from the remap on. */
  method Check014(p: Process, out: Outcome) returns (v: Verdict)
    modifies p
    ensures p.sp == out.sp && v != NotBuilt && (v == Pass <==> Shrunk014(out))
  {
    hide Reads, See, Segv;
    var newSize := 2 * RANGE - PAGE_SIZE;
    p.sp := out.sp;
    if out.res.Err? { return Fail; }
    v := DataCheck(p, out.res.addr, newSize, 48);
    if v != Pass { return; }
    v := Probe(p, out.res.addr + newSize);
  }

  /** What the checks of 015 accept: the kept bytes, and a signal at the old address. */
  ghost predicate Grown015(out: Outcome, addr: int) {
    && out.res.Ok?
    && (forall a | In(a, out.res.addr, out.res.addr + RANGE) :: Reads(out.sp, a, 48))
    && Segv(See(out.sp, addr))
  }

  /** 015 builds as 004 does and passes exactly when its checks accept the growth of the first region
      by moving; in the model they do if and only if the place it offers is free. */
  method Scenario015(p: Process, place: int, denied: int -> bool, kernel: Kernel, ghost room: int) returns (v: Verdict, ghost built: Space)
    requires Wf(p.sp)
    modifies p
    ensures Unhindered(old(p.sp), place, 2 * RANGE, denied) ==> v != NotBuilt
    ensures v != NotBuilt ==> Built004(built, place)
    ensures v != NotBuilt ==> var out := kernel(built, place, RANGE, 2 * RANGE, Flags(true, false), 0);
      && p.sp == out.sp && (v == Pass <==> Grown015(out, place))
      && (out == Mremap(built, place, RANGE, 2 * RANGE, Flags(true, false), 0, room) ==>
           (v == Pass <==> Vacant(built, room, room + 2 * RANGE)))
  {
    var ps := Params004();
    var params := new Param[|ps|](i requires 0 <= i < |ps| => ps[i]);
    assert params[..] == ps;
    hide Region, Wf, Offset, Unhindered, Mremap, Grown015, Vacant, Params004, Plain, AllBuilt;
    var complete := Prepare(p, params, place, denied);
    built := p.sp;
    if !complete { return NotBuilt, built; }
    Regions004(built, params[..], place);
    GrownElsewhere(built, place, place + RANGE, room);
    var out := kernel(p.sp, params[0].addr, RANGE, 2 * RANGE, Flags(true, false), 0);
    v := Check015(p, params[0].addr, out);
  }

  /** 015 from the remap on. */
  method Check015(p: Process, addr: int, out: Outcome) returns (v: Verdict)
    modifies p
    ensures p.sp == out.sp && v != NotBuilt && (v == Pass <==> Grown015(out, addr))
  {
    hide Reads, See, Segv;
    p.sp := out.sp;
    if out.res.Err? { return Fail; }
    v := DataCheck(p, out.res.addr, RANGE, 48);
    if v != Pass { return; }
    v := Probe(p, addr);
  }
}
