/** The address space that the mremap suite drives: anonymous private and shared
    mappings, and what mmap, munmap and mremap do to them.  A private byte lives at
    its address; a shared byte lives in a shared object of fixed size, and a shared
    mapping can be larger than its object (touching it there raises SIGBUS).
 */
module AddressSpace {
  import opened Intervals
  import opened Words

  const PAGE_SIZE := 4096
  /** End of the user address range (48-bit addresses, 4 KiB pages). */
  const USER_END := 0x4000_0000_0000

  datatype Prot = Prot(read: bool, write: bool)

  /** With `Shared(obj, bias)`, address `a` shows byte `a + bias` of the object. */
  datatype Backing = Private | Shared(obj: nat, bias: int)

  datatype Attr = Attr(prot: Prot, backing: Backing)

  /** Where a byte is stored. */
  datatype Loc = At(addr: int) | Obj(id: nat, off: int)

  /** `mem` gives every stored byte; `sizes[i]` is the size of shared object i. */
  datatype Space = Space(maps: Store<Attr>, mem: Loc -> byte, sizes: seq<int>)

  datatype Content = Byte(b: byte) | Beyond

  /** What a program can observe of one address. */
  datatype View = Unmapped | Mapped(prot: Prot, shared: bool, content: Content)

  datatype Errno = EINVAL | ENOMEM | EFAULT

  datatype Result = Ok(addr: int) | Err(errno: Errno)

  datatype Outcome = Outcome(sp: Space, res: Result)

  datatype Flags = Flags(mayMove: bool, fixed: bool)

  predicate Aligned(a: int) { a % PAGE_SIZE == 0 }

  function RoundUp(n: int): int { (n + PAGE_SIZE - 1) / PAGE_SIZE * PAGE_SIZE }

  predicate In(a: int, lo: int, hi: int) { lo <= a < hi }

  /** A non-empty, aligned range of user addresses. */
  predicate UserRange(lo: int, hi: int) {
    0 <= lo < hi <= USER_END && Aligned(lo) && Aligned(hi)
  }

  predicate AreasOk(st: Store<Attr>, objects: nat) {
    match st
    case Empty => true
    case Seg(lo, hi, v, rest) =>
      && Aligned(lo) && Aligned(hi) && hi <= USER_END
      && (v.backing.Shared? ==> v.backing.obj < objects)
      && AreasOk(rest, objects)
  }

  /** Areas are disjoint, ordered, page aligned and inside the user range; objects exist. */
  ghost predicate Wf(sp: Space) {
    && Sorted(sp.maps, 0)
    && AreasOk(sp.maps, |sp.sizes|)
    && forall k: Loc | k.Obj? && |sp.sizes| <= k.id :: sp.mem(k) == 0
  }

  function LocOf(attr: Attr, a: int): Loc {
    match attr.backing
    case Private => At(a)
    case Shared(o, bias) => Obj(o, a + bias)
  }

  function ContentAt(sp: Space, k: Loc): Content {
    if k.Obj? && !(k.id < |sp.sizes| && 0 <= k.off < sp.sizes[k.id]) then Beyond
    else Byte(sp.mem(k))
  }

  function SeeAs(sp: Space, attr: Attr, a: int): View {
    Mapped(attr.prot, attr.backing.Shared?, ContentAt(sp, LocOf(attr, a)))
  }

  function See(sp: Space, a: int): View {
    match Find(sp.maps, a)
    case None => Unmapped
    case Some(attr) => SeeAs(sp, attr, a)
  }

  // ----- mmap and munmap -----

  /** Discard the private bytes stored in [lo, hi): they read as zero when mapped again. */
  function Forget(mem: Loc -> byte, lo: int, hi: int): Loc -> byte {
    (k: Loc) => if k.At? && In(k.addr, lo, hi) then 0 else mem(k)
  }

  function Unmap(sp: Space, lo: int, hi: int): Space {
    sp.(maps := Carve(sp.maps, lo, hi), mem := Forget(sp.mem, lo, hi))
  }

  /** A fresh zero-filled area over [lo, hi); a shared one gets an object of its own. */
  function MapAt(sp: Space, lo: int, hi: int, prot: Prot, shared: bool): Space {
    var u := Unmap(sp, lo, hi);
    if shared then
      Space(Place(u.maps, lo, hi, Attr(prot, Shared(|u.sizes|, -lo))), u.mem, u.sizes + [hi - lo])
    else
      u.(maps := Place(u.maps, lo, hi, Attr(prot, Private)))
  }

  function Munmap(sp: Space, lo: int, len: int): Outcome {
    if UserRange(lo, lo + RoundUp(len)) then Outcome(Unmap(sp, lo, lo + RoundUp(len)), Ok(0))
    else Outcome(sp, Err(EINVAL))
  }

  function MmapFixed(sp: Space, lo: int, len: int, prot: Prot, shared: bool): Outcome {
    if UserRange(lo, lo + RoundUp(len)) then Outcome(MapAt(sp, lo, lo + RoundUp(len), prot, shared), Ok(lo))
    else Outcome(sp, Err(EINVAL))
  }

  /** mmap without an address: the kernel picks `place`, which must be free. */
  function Mmap(sp: Space, place: int, len: int, prot: Prot, shared: bool): Outcome {
    if len <= 0 then Outcome(sp, Err(EINVAL))
    else if !Vacant(sp, place, place + RoundUp(len)) then Outcome(sp, Err(ENOMEM))
    else Outcome(MapAt(sp, place, place + RoundUp(len), prot, shared), Ok(place))
  }

  predicate Vacant(sp: Space, lo: int, hi: int) { UserRange(lo, hi) && Free(sp.maps, lo, hi) }

  // ----- mremap -----

  function Rebias(attr: Attr, delta: int): Attr {
    match attr.backing
    case Private => attr
    case Shared(o, bias) => attr.(backing := Shared(o, bias + delta))
  }

  /** The private bytes of [src, src + len) copied to `dst`, over what `mem` holds. */
  function Moved(from: Loc -> byte, src: int, len: int, dst: int, mem: Loc -> byte): Loc -> byte {
    (k: Loc) => if k.At? && In(k.addr, dst, dst + len) then from(At(k.addr - dst + src)) else mem(k)
  }

  function Vacate(sp: Space, src: int, oldLen: int, dst: int, newLen: int): Space {
    Unmap(Unmap(sp, src, src + oldLen), dst, dst + newLen)
  }

  function Relocate(sp: Space, src: int, oldLen: int, dst: int, newLen: int, attr: Attr): Space {
    var v := Vacate(sp, src, oldLen, dst, newLen);
    v.(maps := Place(v.maps, dst, dst + newLen, Rebias(attr, src - dst)),
       mem := Moved(sp.mem, src, Min(oldLen, newLen), dst, v.mem))
  }

  /** Enlarge the area `c` up to `end`. */
  function Extend(sp: Space, c: Store<Attr>, end: int): Space
    requires c.Seg?
  {
    sp.(maps := Place(Carve(sp.maps, c.lo, c.hi), c.lo, end, c.val), mem := Forget(sp.mem, c.hi, end))
  }

  predicate Overlap(a: int, alen: int, b: int, blen: int) { a < b + blen && b < a + alen }

  /** One area covers all of [lo, hi). */
  predicate Covered(sp: Space, lo: int, hi: int) {
    var c := Cover(sp.maps, lo);
    c.Seg? && hi <= c.hi
  }

  /** MREMAP_FIXED: move to `dst`, replacing whatever is mapped there. */
  function MoveFixed(sp: Space, addr: int, oldLen: int, newLen: int, dst: int): Outcome {
    if !UserRange(dst, dst + newLen) || Overlap(addr, oldLen, dst, newLen) then Outcome(sp, Err(EINVAL))
    else if !Covered(sp, addr, addr + Min(oldLen, newLen)) then Outcome(sp, Err(EFAULT))
    else Outcome(Relocate(sp, addr, oldLen, dst, newLen, Cover(sp.maps, addr).val), Ok(dst))
  }

  function Shrink(sp: Space, addr: int, oldLen: int, newLen: int): Outcome {
    if newLen == oldLen then Outcome(sp, Ok(addr))
    else if addr + oldLen > USER_END then Outcome(sp, Err(EINVAL))
    else Outcome(Unmap(sp, addr + newLen, addr + oldLen), Ok(addr))
  }

  /** The area ends where the old range does and the room after it is free. */
  predicate Extensible(sp: Space, addr: int, oldLen: int, newLen: int) {
    var c := Cover(sp.maps, addr);
    c.Seg? && c.hi == addr + oldLen && addr + newLen <= USER_END && Free(sp.maps, addr + oldLen, addr + newLen)
  }

  /** Grow in place when possible, otherwise move if allowed. */
  function Grow(sp: Space, addr: int, oldLen: int, newLen: int, mayMove: bool, place: int): Outcome {
    if !Covered(sp, addr, addr + oldLen) then Outcome(sp, Err(EFAULT))
    else if Extensible(sp, addr, oldLen, newLen) then
      Outcome(Extend(sp, Cover(sp.maps, addr), addr + newLen), Ok(addr))
    else if mayMove && Vacant(sp, place, place + newLen) then
      Outcome(Relocate(sp, addr, oldLen, place, newLen, Cover(sp.maps, addr).val), Ok(place))
    else Outcome(sp, Err(ENOMEM))
  }

  function Mremap(sp: Space, addr: int, oldSize: int, newSize: int, flags: Flags, newAddr: int, place: int): Outcome {
    var oldLen, newLen := RoundUp(oldSize), RoundUp(newSize);
    if (flags.fixed && !flags.mayMove) || !Aligned(addr) || addr < 0 || oldLen <= 0 || newLen <= 0 then
      Outcome(sp, Err(EINVAL))
    else if flags.fixed then MoveFixed(sp, addr, oldLen, newLen, newAddr)
    else if newLen <= oldLen then Shrink(sp, addr, oldLen, newLen)
    else Grow(sp, addr, oldLen, newLen, flags.mayMove, place)
  }

  // ----- the areas stay well formed -----

  lemma {:induction false} CarveAreas(st: Store<Attr>, lo: int, hi: int, n: nat)
    requires AreasOk(st, n) && Aligned(lo) && Aligned(hi)
    ensures AreasOk(Carve(st, lo, hi), n)
  {
    match st
    case Empty =>
    case Seg(l, h, v, rest) => CarveAreas(rest, lo, hi, n);
  }

  lemma {:induction false} PlaceAreas(st: Store<Attr>, lo: int, hi: int, v: Attr, n: nat)
    requires AreasOk(st, n) && Aligned(lo) && Aligned(hi) && hi <= USER_END
    requires v.backing.Shared? ==> v.backing.obj < n
    ensures AreasOk(Place(st, lo, hi, v), n)
  {
    match st
    case Empty =>
    case Seg(l, h, w, rest) => if hi > l { PlaceAreas(rest, lo, hi, v, n); }
  }

  lemma AreasMore(st: Store<Attr>, n: nat, m: nat)
    requires AreasOk(st, n) && n <= m
    ensures AreasOk(st, m)
  {}

  lemma {:induction false} CoverAreas(st: Store<Attr>, a: int, n: nat)
    requires AreasOk(st, n)
    ensures var c := Cover(st, a); c.Seg? ==> AreasOk(c, n)
  {
    match st
    case Empty =>
    case Seg(l, h, v, rest) => CoverAreas(rest, a, n);
  }

  /** Objects named by a visible area exist. */
  lemma {:induction false} FoundObject(st: Store<Attr>, a: int, n: nat)
    requires AreasOk(st, n) && Find(st, a).Some?
    ensures Find(st, a).value.backing.Shared? ==> Find(st, a).value.backing.obj < n
  {
    match st
    case Seg(l, h, v, rest) => if !(l <= a < h) { FoundObject(rest, a, n); }
  }

  // ----- effect of each call, address by address -----

  lemma UnmapEffect(sp: Space, lo: int, hi: int)
    requires Wf(sp) && lo <= hi && Aligned(lo) && Aligned(hi)
    ensures Wf(Unmap(sp, lo, hi))
    ensures forall a :: See(Unmap(sp, lo, hi), a) == if In(a, lo, hi) then Unmapped else See(sp, a)
  {
    CarveSorted(sp.maps, lo, hi, 0);
    CarveAreas(sp.maps, lo, hi, |sp.sizes|);
    forall a ensures See(Unmap(sp, lo, hi), a) == if In(a, lo, hi) then Unmapped else See(sp, a) {
      CarveFind(sp.maps, lo, hi, 0, a);
    }
  }

  lemma MapAtEffect(sp: Space, lo: int, hi: int, prot: Prot, shared: bool)
    requires Wf(sp) && UserRange(lo, hi)
    ensures Wf(MapAt(sp, lo, hi, prot, shared))
    ensures forall a :: See(MapAt(sp, lo, hi, prot, shared), a) ==
                        if In(a, lo, hi) then Mapped(prot, shared, Byte(0)) else See(sp, a)
  {
    var u, m := Unmap(sp, lo, hi), MapAt(sp, lo, hi, prot, shared);
    var n := |u.sizes|;
    var attr := Attr(prot, if shared then Shared(n, -lo) else Private);
    UnmapEffect(sp, lo, hi);
    CarveFree(sp.maps, lo, hi, 0);
    PlaceSorted(u.maps, lo, hi, attr, 0);
    AreasMore(u.maps, n, |m.sizes|);
    PlaceAreas(u.maps, lo, hi, attr, |m.sizes|);
    forall a ensures See(m, a) == if In(a, lo, hi) then Mapped(prot, shared, Byte(0)) else See(sp, a) {
      PlaceFind(u.maps, lo, hi, attr, a);
      if !In(a, lo, hi) && Find(u.maps, a).Some? { FoundObject(u.maps, a, n); }
      assert See(u, a) == if In(a, lo, hi) then Unmapped else See(sp, a);
    }
  }

  /** What the part of an area added by growth shows: zeroes for a private one, the
      object's following bytes (or SIGBUS past its end) for a shared one. */
  function Grown(sp: Space, addr: int, i: int): View {
    match Find(sp.maps, addr)
    case None => Unmapped
    case Some(attr) =>
      if attr.backing.Private? then Mapped(attr.prot, false, Byte(0)) else SeeAs(sp, attr, addr + i)
  }

  /** What address `a` shows once `oldLen` bytes at `addr` have become `newLen` bytes at `r`:
      the common prefix is kept, the added part is as `Grown`, the vacated part is unmapped,
      and every other address is untouched. */
  function AfterRemap(sp: Space, addr: int, oldLen: int, r: int, newLen: int, a: int): View {
    if In(a, r, r + newLen) then
      if a - r < oldLen then See(sp, a - r + addr) else Grown(sp, addr, a - r)
    else if In(a, addr, addr + oldLen) then Unmapped
    else See(sp, a)
  }

  ghost predicate Remapped(sp: Space, sp': Space, addr: int, oldLen: int, r: int, newLen: int) {
    forall a :: See(sp', a) == AfterRemap(sp, addr, oldLen, r, newLen, a)
  }

  lemma VacateEffect(sp: Space, src: int, oldLen: int, dst: int, newLen: int)
    requires Wf(sp) && Aligned(src) && Aligned(src + oldLen) && 0 < oldLen && UserRange(dst, dst + newLen)
    ensures var v := Vacate(sp, src, oldLen, dst, newLen);
      && Wf(v)
      && Free(v.maps, dst, dst + newLen)
      && forall a :: See(v, a) == if In(a, dst, dst + newLen) || In(a, src, src + oldLen) then Unmapped else See(sp, a)
  {
    var u := Unmap(sp, src, src + oldLen);
    UnmapEffect(sp, src, src + oldLen);
    UnmapEffect(u, dst, dst + newLen);
    CarveFree(u.maps, dst, dst + newLen, 0);
  }

  lemma RelocatedMem(sp: Space, src: int, oldLen: int, dst: int, newLen: int, attr: Attr, k: Loc)
    ensures Relocate(sp, src, oldLen, dst, newLen, attr).mem(k) ==
            if k.At? && In(k.addr, dst, dst + Min(oldLen, newLen)) then sp.mem(At(k.addr - dst + src))
            else if k.At? && (In(k.addr, dst, dst + newLen) || In(k.addr, src, src + oldLen)) then 0
            else sp.mem(k)
  {
    var u := Forget(sp.mem, src, src + oldLen);
    var v := Forget(u, dst, dst + newLen);
    assert Relocate(sp, src, oldLen, dst, newLen, attr).mem == Moved(sp.mem, src, Min(oldLen, newLen), dst, v);
  }

  /** A moved location shows what the original did. */
  lemma MovedContent(sp: Space, src: int, oldLen: int, dst: int, newLen: int, attr: Attr, a: int)
    requires In(a, dst, dst + newLen)
    ensures SeeAs(Relocate(sp, src, oldLen, dst, newLen, attr), Rebias(attr, src - dst), a) ==
            if a - dst < oldLen || attr.backing.Shared? then SeeAs(sp, attr, a - dst + src)
            else Mapped(attr.prot, false, Byte(0))
  {
    RelocatedMem(sp, src, oldLen, dst, newLen, attr, LocOf(Rebias(attr, src - dst), a));
  }

  /** Bytes outside both ranges are where they were. */
  lemma UnmovedContent(sp: Space, src: int, oldLen: int, dst: int, newLen: int, attr: Attr, other: Attr, a: int)
    requires !In(a, dst, dst + newLen) && !In(a, src, src + oldLen)
    ensures SeeAs(Relocate(sp, src, oldLen, dst, newLen, attr), other, a) == SeeAs(sp, other, a)
  {
    RelocatedMem(sp, src, oldLen, dst, newLen, attr, LocOf(other, a));
  }

  lemma RelocateEffect(sp: Space, src: int, oldLen: int, dst: int, newLen: int, attr: Attr)
    requires Wf(sp) && Aligned(src) && Aligned(src + oldLen) && 0 < oldLen && UserRange(dst, dst + newLen)
    requires !Overlap(src, oldLen, dst, newLen)
    requires forall b | src <= b < src + Min(oldLen, newLen) :: Find(sp.maps, b) == Some(attr)
    ensures var sp' := Relocate(sp, src, oldLen, dst, newLen, attr);
            Wf(sp') && Remapped(sp, sp', src, oldLen, dst, newLen)
  {
    var v, sp' := Vacate(sp, src, oldLen, dst, newLen), Relocate(sp, src, oldLen, dst, newLen, attr);
    var moved := Rebias(attr, src - dst);
    assert Find(sp.maps, src) == Some(attr);
    FoundObject(sp.maps, src, |sp.sizes|);
    VacateEffect(sp, src, oldLen, dst, newLen);
    PlaceSorted(v.maps, dst, dst + newLen, moved, 0);
    PlaceAreas(v.maps, dst, dst + newLen, moved, |sp.sizes|);
    forall a ensures See(sp', a) == AfterRemap(sp, src, oldLen, dst, newLen, a) {
      RelocateByte(sp, src, oldLen, dst, newLen, attr, a);
    }
  }

  lemma RelocateByte(sp: Space, src: int, oldLen: int, dst: int, newLen: int, attr: Attr, a: int)
    requires 0 < oldLen && 0 < newLen
    requires forall b | src <= b < src + Min(oldLen, newLen) :: Find(sp.maps, b) == Some(attr)
    requires var v := Vacate(sp, src, oldLen, dst, newLen);
      && Free(v.maps, dst, dst + newLen)
      && See(v, a) == if In(a, dst, dst + newLen) || In(a, src, src + oldLen) then Unmapped else See(sp, a)
    ensures See(Relocate(sp, src, oldLen, dst, newLen, attr), a) == AfterRemap(sp, src, oldLen, dst, newLen, a)
  {
    var v := Vacate(sp, src, oldLen, dst, newLen);
    PlaceFind(v.maps, dst, dst + newLen, Rebias(attr, src - dst), a);
    assert Find(sp.maps, src) == Some(attr);
    if In(a, dst, dst + newLen) {
      MovedContent(sp, src, oldLen, dst, newLen, attr, a);
      if a - dst < oldLen { assert Find(sp.maps, a - dst + src) == Some(attr); }
    } else if !In(a, src, src + oldLen) && Find(v.maps, a).Some? {
      UnmovedContent(sp, src, oldLen, dst, newLen, attr, Find(v.maps, a).value, a);
    }
  }

  lemma ExtendedAt(sp: Space, c: Store<Attr>, addr: int, oldLen: int, newLen: int, a: int)
    requires c.Seg? && c.lo <= addr < c.hi == addr + oldLen < addr + newLen
    requires Find(sp.maps, addr) == Some(c.val) && (In(a, c.lo, c.hi) ==> Find(sp.maps, a) == Some(c.val))
    requires Find(Extend(sp, c, addr + newLen).maps, a) ==
             if In(a, c.lo, addr + newLen) then Some(c.val) else Find(sp.maps, a)
    ensures See(Extend(sp, c, addr + newLen), a) == AfterRemap(sp, addr, oldLen, addr, newLen, a)
  {
    hide Find, Place, Carve;
    var sp' := Extend(sp, c, addr + newLen);
    if Find(sp'.maps, a).Some? {
      var k := LocOf(Find(sp'.maps, a).value, a);
      assert sp'.mem(k) == if k == At(a) && In(a, c.hi, addr + newLen) then 0 else sp.mem(k);
    }
  }

  lemma ExtendEffect(sp: Space, addr: int, oldLen: int, newLen: int)
    requires Wf(sp) && 0 < oldLen < newLen && Extensible(sp, addr, oldLen, newLen) && Aligned(addr + newLen)
    ensures var sp' := Extend(sp, Cover(sp.maps, addr), addr + newLen);
            Wf(sp') && Remapped(sp, sp', addr, oldLen, addr, newLen)
  {
    var c := Cover(sp.maps, addr);
    var end := addr + newLen;
    var sp' := Extend(sp, c, end);
    CoverFind(sp.maps, 0, addr);
    CoverAreas(sp.maps, addr, |sp.sizes|);
    var m1 := Carve(sp.maps, c.lo, c.hi);
    CarveSorted(sp.maps, c.lo, c.hi, 0);
    CarveAreas(sp.maps, c.lo, c.hi, |sp.sizes|);
    forall a ensures Find(m1, a) == if In(a, c.lo, c.hi) then None else Find(sp.maps, a) {
      CarveFind(sp.maps, c.lo, c.hi, 0, a);
    }
    forall a | c.lo <= a < end ensures Find(m1, a) == None {
      if c.hi <= a { FreeFind(sp.maps, c.hi, end, a); }
    }
    FindFree(m1, 0, c.lo, end);
    PlaceSorted(m1, c.lo, end, c.val, 0);
    PlaceAreas(m1, c.lo, end, c.val, |sp.sizes|);
    forall a ensures See(sp', a) == AfterRemap(sp, addr, oldLen, addr, newLen, a) {
      PlaceFind(m1, c.lo, end, c.val, a);
      ExtendedAt(sp, c, addr, oldLen, newLen, a);
    }
  }

  lemma RoundUpAligned(n: int)
    ensures Aligned(RoundUp(n)) && n <= RoundUp(n) < n + PAGE_SIZE
    ensures Aligned(n) ==> RoundUp(n) == n
  {}

  lemma AlignedSum(a: int, b: int)
    requires Aligned(a) && Aligned(b)
    ensures Aligned(a + b)
  {}

  /** What a call may do: keep the space well formed, change nothing when it fails,
      and remap exactly as requested when it succeeds. */
  ghost predicate Sound(sp: Space, addr: int, oldLen: int, newLen: int, out: Outcome) {
    && Wf(out.sp)
    && (out.res.Err? ==> out.sp == sp)
    && (out.res.Ok? ==> Remapped(sp, out.sp, addr, oldLen, out.res.addr, newLen))
  }

  lemma SoundAt(sp: Space, addr: int, oldLen: int, newLen: int, out: Outcome, a: int)
    requires Sound(sp, addr, oldLen, newLen, out)
    ensures Wf(out.sp) && (out.res.Err? ==> out.sp == sp)
    ensures out.res.Ok? ==> See(out.sp, a) == AfterRemap(sp, addr, oldLen, out.res.addr, newLen, a)
  {}

  lemma MoveFixedSound(sp: Space, addr: int, oldLen: int, newLen: int, dst: int)
    requires Wf(sp) && Aligned(addr) && Aligned(addr + oldLen) && 0 < oldLen && 0 < newLen
    ensures Sound(sp, addr, oldLen, newLen, MoveFixed(sp, addr, oldLen, newLen, dst))
  {
    if MoveFixed(sp, addr, oldLen, newLen, dst).res.Ok? {
      CoverFind(sp.maps, 0, addr);
      RelocateEffect(sp, addr, oldLen, dst, newLen, Cover(sp.maps, addr).val);
    }
  }

  lemma ShrinkSound(sp: Space, addr: int, oldLen: int, newLen: int)
    requires Wf(sp) && Aligned(addr + oldLen) && Aligned(addr + newLen) && 0 < newLen <= oldLen
    ensures Sound(sp, addr, oldLen, newLen, Shrink(sp, addr, oldLen, newLen))
  {
    UnmapEffect(sp, addr + newLen, addr + oldLen);
  }

  /** A vacant place cannot overlap the mapped source. */
  lemma VacantDisjoint(sp: Space, addr: int, oldLen: int, place: int, newLen: int)
    requires Wf(sp) && 0 < oldLen && Covered(sp, addr, addr + oldLen) && Vacant(sp, place, place + newLen)
    ensures !Overlap(addr, oldLen, place, newLen)
  {
    CoverFind(sp.maps, 0, addr);
    if Overlap(addr, oldLen, place, newLen) {
      FreeFind(sp.maps, place, place + newLen, Max(addr, place));
      assert false;
    }
  }

  lemma GrowSound(sp: Space, addr: int, oldLen: int, newLen: int, mayMove: bool, place: int)
    requires Wf(sp) && Aligned(addr) && Aligned(addr + oldLen) && Aligned(addr + newLen) && 0 < oldLen < newLen
    ensures Sound(sp, addr, oldLen, newLen, Grow(sp, addr, oldLen, newLen, mayMove, place))
  {
    if Grow(sp, addr, oldLen, newLen, mayMove, place).res.Ok? {
      if Extensible(sp, addr, oldLen, newLen) {
        ExtendEffect(sp, addr, oldLen, newLen);
      } else {
        CoverFind(sp.maps, 0, addr);
        VacantDisjoint(sp, addr, oldLen, place, newLen);
        RelocateEffect(sp, addr, oldLen, place, newLen, Cover(sp.maps, addr).val);
      }
    }
  }

  /** The contract of mremap on every well-formed space and every argument. */
  lemma MremapSound(sp: Space, addr: int, oldSize: int, newSize: int, flags: Flags, newAddr: int, place: int)
    requires Wf(sp)
    ensures var out := Mremap(sp, addr, oldSize, newSize, flags, newAddr, place);
      && Sound(sp, addr, RoundUp(oldSize), RoundUp(newSize), out)
      && (out.res.Ok? && flags.fixed ==> out.res.addr == newAddr)
      && (out.res.Ok? && !flags.mayMove ==> out.res.addr == addr)
  {
    var oldLen, newLen := RoundUp(oldSize), RoundUp(newSize);
    RoundUpAligned(oldSize);
    RoundUpAligned(newSize);
    if Aligned(addr) && 0 < oldLen && 0 < newLen {
      AlignedSum(addr, oldLen);
      AlignedSum(addr, newLen);
      MoveFixedSound(sp, addr, oldLen, newLen, newAddr);
      if newLen <= oldLen { ShrinkSound(sp, addr, oldLen, newLen); }
      else { GrowSound(sp, addr, oldLen, newLen, flags.mayMove, place); }
    }
  }

  /** A shared mapping resized, grown or moved keeps its zeroes; what it gains lies beyond its object,
      from the first byte on. */
  lemma SharedGrowth(sp: Space, lo: int, len: int, prot: Prot, newSize: int, mayMove: bool, place: int)
    requires Wf(sp) && UserRange(lo, lo + len)
    ensures var m := MapAt(sp, lo, lo + len, prot, true);
      var out := Mremap(m, lo, len, newSize, Flags(mayMove, false), 0, place);
      out.res.Ok? ==> forall a | In(a, out.res.addr, out.res.addr + RoundUp(newSize)) ::
        See(out.sp, a) == Mapped(prot, true, if a - out.res.addr < len then Byte(0) else Beyond)
  {
    var m := MapAt(sp, lo, lo + len, prot, true);
    var out := Mremap(m, lo, len, newSize, Flags(mayMove, false), 0, place);
    hide MapAt, Mremap, Wf, Sound, Find, See, Grown, SeeAs;
    MapAtEffect(sp, lo, lo + len, prot, true);
    MappedShared(sp, lo, lo + len, prot);
    MremapSound(m, lo, len, newSize, Flags(mayMove, false), 0, place);
    SameLength(lo, len);
    if out.res.Ok? {
      forall a | In(a, out.res.addr, out.res.addr + RoundUp(newSize))
        ensures See(out.sp, a) == Mapped(prot, true, if a - out.res.addr < len then Byte(0) else Beyond)
      {
        SoundAt(m, lo, len, RoundUp(newSize), out, a);
        BeyondObject(m, lo, len, prot, a - out.res.addr);
      }
    }
  }

  lemma SameLength(lo: int, len: int)
    requires Aligned(lo) && Aligned(lo + len)
    ensures RoundUp(len) == len
  {}

  lemma BeyondObject(m: Space, lo: int, len: int, prot: Prot, i: int)
    requires |m.sizes| > 0 && m.sizes[|m.sizes| - 1] == len
    requires Find(m.maps, lo) == Some(Attr(prot, Shared(|m.sizes| - 1, -lo)))
    ensures len <= i ==> Grown(m, lo, i) == Mapped(prot, true, Beyond)
  {
    hide Find;
  }

  lemma MappedShared(sp: Space, lo: int, hi: int, prot: Prot)
    requires Wf(sp) && UserRange(lo, hi)
    ensures var m := MapAt(sp, lo, hi, prot, true);
      |m.sizes| > 0 && m.sizes[|m.sizes| - 1] == hi - lo && Find(m.maps, lo) == Some(Attr(prot, Shared(|m.sizes| - 1, -lo)))
  {
    CarveSorted(sp.maps, lo, hi, 0);
    CarveFree(sp.maps, lo, hi, 0);
    PlaceFind(Carve(sp.maps, lo, hi), lo, hi, Attr(prot, Shared(|sp.sizes|, -lo)), lo);
  }

  // ----- when mremap fails -----

  /** Without MREMAP_MAYMOVE, growth succeeds exactly when the room after the area is
      unmapped and inside the user range; otherwise the error is ENOMEM. */
  lemma GrowInPlaceIff(sp: Space, addr: int, oldLen: int, newLen: int, place: int)
    requires Wf(sp) && 0 < oldLen < newLen && Covered(sp, addr, addr + oldLen)
    ensures Grow(sp, addr, oldLen, newLen, false, place).res ==
            if addr + newLen <= USER_END && (forall b | In(b, addr + oldLen, addr + newLen) :: See(sp, b) == Unmapped)
            then Ok(addr) else Err(ENOMEM)
  {
    var c := Cover(sp.maps, addr);
    CoverFind(sp.maps, 0, addr);
    if addr + newLen <= USER_END && forall b | In(b, addr + oldLen, addr + newLen) :: See(sp, b) == Unmapped {
      forall b | addr + oldLen <= b < addr + newLen ensures Find(sp.maps, b) == None {
        assert See(sp, b) == Unmapped;
      }
      FindFree(sp.maps, 0, addr + oldLen, addr + newLen);
      assert Find(sp.maps, addr + oldLen) == None && c.hi == addr + oldLen;
    } else if Extensible(sp, addr, oldLen, newLen) {
      forall b | In(b, addr + oldLen, addr + newLen) ensures See(sp, b) == Unmapped {
        FreeFind(sp.maps, addr + oldLen, addr + newLen, b);
      }
    }
  }

  /** Nothing is mapped in [lo, hi). */
  ghost predicate ShowsNothing(sp: Space, lo: int, hi: int) { forall b | In(b, lo, hi) :: See(sp, b) == Unmapped }

  /** A range is free of areas exactly when nothing is mapped in it. */
  lemma FreeIff(sp: Space, lo: int, hi: int)
    requires Wf(sp) && lo < hi
    ensures Free(sp.maps, lo, hi) <==> ShowsNothing(sp, lo, hi)
  {
    if Free(sp.maps, lo, hi) {
      forall b | In(b, lo, hi) ensures See(sp, b) == Unmapped { FreeFind(sp.maps, lo, hi, b); }
    }
    if ShowsNothing(sp, lo, hi) {
      forall b | lo <= b < hi ensures Find(sp.maps, b) == None { assert See(sp, b) == Unmapped; }
      FindFree(sp.maps, 0, lo, hi);
    }
  }

  /** The exact result of every call without MREMAP_FIXED.  Bad arguments give EINVAL.  A size that
      does not grow gives the old address, except for a tail beyond the user range.  Growth gives
      EFAULT if the source is not one mapped area, the old address if nothing is mapped in the room
      after it, the offered place if moving is allowed and nothing is mapped there, else ENOMEM. */
  lemma MremapResult(sp: Space, addr: int, oldSize: int, newSize: int, mayMove: bool, newAddr: int, place: int)
    requires Wf(sp)
    ensures var oldLen, newLen := RoundUp(oldSize), RoundUp(newSize);
      Mremap(sp, addr, oldSize, newSize, Flags(mayMove, false), newAddr, place).res ==
      if addr % 4096 != 0 || addr < 0 || oldSize <= 0 || newSize <= 0 then Err(EINVAL)
      else if newLen == oldLen then Ok(addr)
      else if newLen < oldLen then (if addr + oldLen <= USER_END then Ok(addr) else Err(EINVAL))
      else if !Covered(sp, addr, addr + oldLen) then Err(EFAULT)
      else if addr + newLen <= USER_END && ShowsNothing(sp, addr + oldLen, addr + newLen) then Ok(addr)
      else if mayMove && UserRange(place, place + newLen) && ShowsNothing(sp, place, place + newLen) then Ok(place)
      else Err(ENOMEM)
  {
    hide Grow, MoveFixed, Unmap, Wf, Covered, ShowsNothing, UserRange;
    var oldLen, newLen := RoundUp(oldSize), RoundUp(newSize);
    RoundUpAligned(oldSize);
    RoundUpAligned(newSize);
    if 0 < oldLen < newLen { GrowResult(sp, addr, oldLen, newLen, mayMove, place); }
  }

  lemma GrowResult(sp: Space, addr: int, oldLen: int, newLen: int, mayMove: bool, place: int)
    requires Wf(sp) && 0 < oldLen < newLen
    ensures Grow(sp, addr, oldLen, newLen, mayMove, place).res ==
      if !Covered(sp, addr, addr + oldLen) then Err(EFAULT)
      else if addr + newLen <= USER_END && ShowsNothing(sp, addr + oldLen, addr + newLen) then Ok(addr)
      else if mayMove && UserRange(place, place + newLen) && ShowsNothing(sp, place, place + newLen) then Ok(place)
      else Err(ENOMEM)
  {
    hide Relocate, Extend, Wf, ShowsNothing, UserRange, Free, Find, Cover, Extensible, Covered;
    FreeIff(sp, place, place + newLen);
    if Covered(sp, addr, addr + oldLen) { ExtensibleIff(sp, addr, oldLen, newLen); }
  }

  lemma ExtensibleIff(sp: Space, addr: int, oldLen: int, newLen: int)
    requires Wf(sp) && 0 < oldLen < newLen && Covered(sp, addr, addr + oldLen)
    ensures Extensible(sp, addr, oldLen, newLen) <==>
            addr + newLen <= USER_END && ShowsNothing(sp, addr + oldLen, addr + newLen)
  {
    CoverFind(sp.maps, 0, addr);
    hide Wf, Free, Sorted;
    FreeIff(sp, addr + oldLen, addr + newLen);
    if ShowsNothing(sp, addr + oldLen, addr + newLen) { assert See(sp, addr + oldLen) == Unmapped; }
  }

  /** Some address lies in both ranges. */
  ghost predicate ShareAddress(lo: int, hi: int, lo': int, hi': int) {
    exists x :: In(x, lo, hi) && In(x, lo', hi')
  }

  /** The exact result of a call with MREMAP_FIXED: EINVAL if and only if MREMAP_MAYMOVE is missing, an
      argument is bad or the target shares an address with the source, EFAULT if and only if the source is not one mapped
      area, success otherwise; a failure changes nothing. */
  lemma FixedMoveResult(sp: Space, addr: int, oldSize: int, newSize: int, mayMove: bool, newAddr: int, place: int)
    ensures var oldLen, newLen := RoundUp(oldSize), RoundUp(newSize);
      var out := Mremap(sp, addr, oldSize, newSize, Flags(mayMove, true), newAddr, place);
      && out.res == (
        if !mayMove || addr % 4096 != 0 || addr < 0 || oldSize <= 0 || newSize <= 0
           || !UserRange(newAddr, newAddr + newLen) || ShareAddress(addr, addr + oldLen, newAddr, newAddr + newLen) then Err(EINVAL)
        else if !Covered(sp, addr, addr + Min(oldLen, newLen)) then Err(EFAULT)
        else Ok(newAddr))
      && (out.res.Err? ==> out.sp == sp)
  {
    var oldLen, newLen := RoundUp(oldSize), RoundUp(newSize);
    if 0 < oldLen && 0 < newLen && Overlap(addr, oldLen, newAddr, newLen) {
      assert In(Max(addr, newAddr), addr, addr + oldLen) && In(Max(addr, newAddr), newAddr, newAddr + newLen);
    }
  }

  // ----- moving out and back -----

  /** Moving an area to a vacant place and back restores every observation. */
  lemma MoveRoundTrip(sp: Space, addr: int, len: int, dst: int)
    requires Wf(sp) && UserRange(addr, addr + len) && Covered(sp, addr, addr + len)
    requires Vacant(sp, dst, dst + len)
    ensures var out := MoveFixed(sp, addr, len, len, dst);
            var back := MoveFixed(out.sp, dst, len, len, addr);
            && out.res == Ok(dst) && back.res == Ok(addr)
            && forall a :: See(back.sp, a) == See(sp, a)
  {
    var out := MoveFixed(sp, addr, len, len, dst);
    var back := MoveFixed(out.sp, dst, len, len, addr);
    VacantDisjoint(sp, addr, len, dst, len);
    MoveFixedSound(sp, addr, len, len, dst);
    VacateEffect(sp, addr, len, dst, len);
    CoverPlaced(Vacate(sp, addr, len, dst, len).maps, dst, dst + len, Rebias(Cover(sp.maps, addr).val, addr - dst), dst);
    MoveFixedSound(out.sp, dst, len, len, addr);
    hide MoveFixed, Sound, Wf;
    forall a ensures See(back.sp, a) == See(sp, a) { BackAt(sp, addr, len, dst, out, back, a); }
  }

  lemma BackAt(sp: Space, addr: int, len: int, dst: int, out: Outcome, back: Outcome, a: int)
    requires Sound(sp, addr, len, len, out) && out.res == Ok(dst)
    requires Sound(out.sp, dst, len, len, back) && back.res == Ok(addr)
    requires Free(sp.maps, dst, dst + len)
    ensures See(back.sp, a) == See(sp, a)
  {
    hide Sound, Find;
    SoundAt(out.sp, dst, len, len, back, a);
    SoundAt(sp, addr, len, len, out, a);
    SoundAt(sp, addr, len, len, out, a - addr + dst);
    if In(a, dst, dst + len) { FreeFind(sp.maps, dst, dst + len, a); }
  }

  // ----- loads, stores and whole runs -----

  /** A one-byte store; `None` is a fatal signal. */
  function Store1(sp: Space, a: int, b: byte): Option<Space> {
    match Find(sp.maps, a)
    case None => None
    case Some(attr) =>
      var k := LocOf(attr, a);
      if attr.prot.write && ContentAt(sp, k).Byte? then
        var mem := sp.mem;
        Some(sp.(mem := (l: Loc) => if l == k then b else mem(l)))
      else None
  }

  datatype Call =
    | CallMmap(place: int, len: int, prot: Prot, shared: bool)
    | CallMmapFixed(lo: int, len: int, prot: Prot, shared: bool)
    | CallMunmap(lo: int, len: int)
    | CallMremap(addr: int, oldSize: int, newSize: int, flags: Flags, newAddr: int, place: int)
    | CallStore(a: int, b: byte)

  function Step(sp: Space, c: Call): Space {
    match c
    case CallMmap(place, len, prot, shared) => Mmap(sp, place, len, prot, shared).sp
    case CallMmapFixed(lo, len, prot, shared) => MmapFixed(sp, lo, len, prot, shared).sp
    case CallMunmap(lo, len) => Munmap(sp, lo, len).sp
    case CallMremap(addr, os, ns, flags, na, place) => Mremap(sp, addr, os, ns, flags, na, place).sp
    case CallStore(a, b) => match Store1(sp, a, b) { case None => sp case Some(sp') => sp' }
  }

  function Exec(sp: Space, calls: seq<Call>): Space
    decreases calls
  {
    if calls == [] then sp else Exec(Step(sp, calls[0]), calls[1..])
  }

  /** The call names address `a`: in the range it maps, unmaps, moves from or moves to, or,
      for a store, by writing the very byte that `a` shows. */
  predicate Touches(sp: Space, c: Call, a: int) {
    match c
    case CallMmap(place, len, _, _) => In(a, place, place + RoundUp(len))
    case CallMmapFixed(lo, len, _, _) => In(a, lo, lo + RoundUp(len))
    case CallMunmap(lo, len) => In(a, lo, lo + RoundUp(len))
    case CallMremap(addr, os, ns, flags, na, place) =>
      var res := Mremap(sp, addr, os, ns, flags, na, place).res;
      In(a, addr, addr + RoundUp(os)) || (res.Ok? && In(a, res.addr, res.addr + RoundUp(ns)))
    case CallStore(x, _) =>
      var f, g := Find(sp.maps, x), Find(sp.maps, a);
      f.Some? && g.Some? && LocOf(f.value, x) == LocOf(g.value, a)
  }

  predicate Untouched(sp: Space, calls: seq<Call>, a: int)
    decreases calls
  {
    calls == [] || (!Touches(sp, calls[0], a) && Untouched(Step(sp, calls[0]), calls[1..], a))
  }

  lemma MapSound(sp: Space, lo: int, len: int, prot: Prot, shared: bool)
    requires Wf(sp)
    ensures Wf(Mmap(sp, lo, len, prot, shared).sp) && Wf(MmapFixed(sp, lo, len, prot, shared).sp)
    ensures forall a | !In(a, lo, lo + RoundUp(len)) ::
      && See(Mmap(sp, lo, len, prot, shared).sp, a) == See(sp, a)
      && See(MmapFixed(sp, lo, len, prot, shared).sp, a) == See(sp, a)
  {
    if UserRange(lo, lo + RoundUp(len)) { MapAtEffect(sp, lo, lo + RoundUp(len), prot, shared); }
    hide MapAt, Wf, See, RoundUp;
  }

  lemma MunmapSound(sp: Space, lo: int, len: int)
    requires Wf(sp)
    ensures Wf(Munmap(sp, lo, len).sp)
    ensures forall a | !In(a, lo, lo + RoundUp(len)) :: See(Munmap(sp, lo, len).sp, a) == See(sp, a)
  {
    if UserRange(lo, lo + RoundUp(len)) { UnmapEffect(sp, lo, lo + RoundUp(len)); }
    hide Unmap, Wf, See, RoundUp;
  }

  lemma StoreSound(sp: Space, x: int, b: byte)
    requires Wf(sp) && Store1(sp, x, b).Some?
    ensures Wf(Store1(sp, x, b).value)
    ensures forall a | !Touches(sp, CallStore(x, b), a) :: See(Store1(sp, x, b).value, a) == See(sp, a)
  {
    hide Find;
    FoundObject(sp.maps, x, |sp.sizes|);
  }

  /** The exact result of the three mapping calls, and what the mapped or unmapped range shows. */
  lemma MapResult(sp: Space, lo: int, len: int, prot: Prot, shared: bool)
    requires Wf(sp)
    ensures var ok := lo % 4096 == 0 && 0 <= lo && 0 < len && lo + RoundUp(len) <= 0x4000_0000_0000;
      && Munmap(sp, lo, len).res == (if ok then Ok(0) else Err(EINVAL))
      && MmapFixed(sp, lo, len, prot, shared).res == (if ok then Ok(lo) else Err(EINVAL))
      && Mmap(sp, lo, len, prot, shared).res ==
         (if len <= 0 then Err(EINVAL) else if ok && ShowsNothing(sp, lo, lo + RoundUp(len)) then Ok(lo) else Err(ENOMEM))
    ensures forall a | In(a, lo, lo + RoundUp(len)) ::
      && (Munmap(sp, lo, len).res.Ok? ==> See(Munmap(sp, lo, len).sp, a) == Unmapped)
      && (MmapFixed(sp, lo, len, prot, shared).res.Ok? ==>
          See(MmapFixed(sp, lo, len, prot, shared).sp, a) == Mapped(prot, shared, Byte(0)))
      && (Mmap(sp, lo, len, prot, shared).res.Ok? ==>
          See(Mmap(sp, lo, len, prot, shared).sp, a) == Mapped(prot, shared, Byte(0)))
  {
    var hi := lo + RoundUp(len);
    RoundUpAligned(len);
    if lo < hi { FreeIff(sp, lo, hi); }
    if UserRange(lo, hi) {
      UnmapEffect(sp, lo, hi);
      MapAtEffect(sp, lo, hi, prot, shared);
    }
    hide MapAt, Unmap, Wf, See, RoundUp;
  }

  /** A store goes through exactly where a writable byte is mapped, and the byte is then shown at
      that address and wherever else the same byte is shown. */
  lemma StoreShows(sp: Space, x: int, b: byte)
    requires Wf(sp)
    ensures Store1(sp, x, b).Some? <==> See(sp, x).Mapped? && See(sp, x).prot.write && See(sp, x).content.Byte?
    ensures Store1(sp, x, b).Some? ==>
      && See(Store1(sp, x, b).value, x) == See(sp, x).(content := Byte(b))
      && forall a | Touches(sp, CallStore(x, b), a) :: See(Store1(sp, x, b).value, a) == See(sp, a).(content := Byte(b))
  {
    hide Find;
  }

  lemma StepSound(sp: Space, c: Call)
    requires Wf(sp)
    ensures Wf(Step(sp, c))
    ensures forall a | !Touches(sp, c, a) :: See(Step(sp, c), a) == See(sp, a)
  {
    hide Wf, See, Mmap, MmapFixed, Munmap, Mremap, RoundUp, Store1, Find, Grown;
    match c
    case CallMmap(place, len, prot, shared) => MapSound(sp, place, len, prot, shared);
    case CallMmapFixed(lo, len, prot, shared) => MapSound(sp, lo, len, prot, shared);
    case CallMunmap(lo, len) => MunmapSound(sp, lo, len);
    case CallMremap(addr, os, ns, flags, na, place) => MremapSound(sp, addr, os, ns, flags, na, place);
    case CallStore(x, b) => if Store1(sp, x, b).Some? { StoreSound(sp, x, b); }
  }

  /** Over every run of calls the areas stay disjoint, ordered and aligned, and an address
      that no call names keeps its protection and its byte. */
  lemma {:induction false} ExecSound(sp: Space, calls: seq<Call>)
    requires Wf(sp)
    ensures Wf(Exec(sp, calls))
    ensures forall a | Untouched(sp, calls, a) :: See(Exec(sp, calls), a) == See(sp, a)
    decreases calls
  {
    if calls != [] {
      StepSound(sp, calls[0]);
      ExecSound(Step(sp, calls[0]), calls[1..]);
      forall a | Untouched(sp, calls, a) ensures See(Exec(sp, calls), a) == See(sp, a) {
        assert Untouched(Step(sp, calls[0]), calls[1..], a);
      }
    }
  }
}
