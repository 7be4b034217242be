/** Words of /proc/PID/pagemap: a 64-bit entry per page with three status bits, six page-shift bits
    and a 55-bit frame number.  Two tests decode them independently. */
module Pagemap {

  import opened Division
  import opened Words

  const STATUS_MASK: bv64 := 0xE000_0000_0000_0000
  const PSHIFT_MASK: bv64 := 0x1F80_0000_0000_0000
  const PFRAME_MASK: bv64 := 0x007F_FFFF_FFFF_FFFF
  const EINVAL := 22
  const EIO := 5

  // Packing, as PM_STATUS, PM_PSHIFT and PM_PFRAME do, and the decoding of the same fields.

  function Status(nr: bv64): bv64 { (nr << 61) & STATUS_MASK }
  function PShift(x: bv64): bv64 { (x << 55) & PSHIFT_MASK }
  function PFrame(x: bv64): bv64 { x & PFRAME_MASK }

  function Pack(status: bv64, shift: bv64, frame: bv64): bv64 {
    Status(status) | PShift(shift) | PFrame(frame)
  }

  function StatusOf(w: bv64): bv64 { (w & STATUS_MASK) >> 61 }
  function ShiftOf(w: bv64): bv64 { (w & PSHIFT_MASK) >> 55 }
  function FrameOf(w: bv64): bv64 { w & PFRAME_MASK }

  /** The three masks cover every bit exactly once. */
  lemma MasksPartition()
    ensures STATUS_MASK | PSHIFT_MASK | PFRAME_MASK == 0xFFFF_FFFF_FFFF_FFFF
    ensures STATUS_MASK & PSHIFT_MASK == 0 && STATUS_MASK & PFRAME_MASK == 0 && PSHIFT_MASK & PFRAME_MASK == 0
  {}

  /** Every word is the packing of its fields. */
  lemma PackDecoded(w: bv64)
    ensures Pack(StatusOf(w), ShiftOf(w), FrameOf(w)) == w
  {}

  /** Fields survive packing exactly when each fits its width. */
  lemma DecodePackedIff(status: bv64, shift: bv64, frame: bv64)
    ensures
      var w := Pack(status, shift, frame);
      (StatusOf(w) == status && ShiftOf(w) == shift && FrameOf(w) == frame) <==>
      (status < 8 && shift < 64 && frame < 0x0080_0000_0000_0000)
  {}

  const PRESENT: bv64 := 0x8000_0000_0000_0000
  const SWAP: bv64 := 0x4000_0000_0000_0000

  /** What procfs/008.c reads off a word. */
  predicate OtherPresent(w: bv64) { w & (1 << 63) != 0 }
  function OtherShift(w: bv64): bv64 { (w >> 55) & 0x3F }
  function OtherFrame(w: bv64): bv64 { w & ((1 << 55) - 1) }

  lemma PresentAgrees(w: bv64)
    ensures OtherPresent(w) <==> w & PRESENT != 0
  {}

  lemma PresentStatus(w: bv64)
    ensures w & PRESENT != 0 <==> StatusOf(w) & 4 != 0
  {}

  lemma SwapStatus(w: bv64)
    ensures w & SWAP != 0 <==> StatusOf(w) & 2 != 0
  {}

  predicate Swapped(w: bv64) { StatusOf(w) & 2 != 0 }

  lemma SwapAgrees(w: bv64)
    ensures Swapped(w) <==> w & SWAP != 0
  {
    SwapStatus(w);
  }

  lemma ShiftAgrees(w: bv64)
    ensures OtherShift(w) == ShiftOf(w)
  {}

  lemma FrameAgrees(w: bv64)
    ensures OtherFrame(w) == FrameOf(w)
  {}

  lemma FlagsPacked()
    ensures PRESENT == Status(4) && SWAP == Status(2)
  {}

  /** The two decoders agree on every word, and the flags are status values 4 and 2. */
  lemma DecodersAgree(w: bv64)
    ensures PRESENT == Status(4) && SWAP == Status(2)
    ensures OtherPresent(w) <==> w & PRESENT != 0
    ensures OtherPresent(w) <==> StatusOf(w) & 4 != 0
    ensures w & SWAP != 0 <==> StatusOf(w) & 2 != 0
    ensures OtherShift(w) == ShiftOf(w) && OtherFrame(w) == FrameOf(w)
  {
    hide *;
    FlagsPacked();
    PresentAgrees(w);
    PresentStatus(w);
    SwapStatus(w);
    ShiftAgrees(w);
    FrameAgrees(w);
  }

  // File positions are 64-bit words taken as numbers.

  /** The page sizes the suite can be built for. */
  datatype Granule = K4 | K16 | K64

  function PageSize(g: Granule): (r: nat)
    ensures r > 0 && r / 1024 == (match g case K4 => 4 case K16 => 16 case K64 => 64) && r % 1024 == 0
  { match g case K4 => 0x1000 case K16 => 0x4000 case K64 => 0x1_0000 }

  /** Page number of an address, as procfs/008.c divides it. */
  function Page(virt: word, g: Granule): int { virt / PageSize(g) }

  /** The same with the address cut down to its page before dividing. */
  function Index(virt: word, g: Granule): int { (virt - virt % PageSize(g)) / PageSize(g) }

  lemma IndexIsPage(virt: word, g: Granule)
    ensures 0 <= Index(virt, g) == Page(virt, g) <= WORD / 0x1000
  {
    var q := virt / PageSize(g);
    assert virt - virt % PageSize(g) == q * PageSize(g) + 0;
    Quotient(q, PageSize(g), 0);
    assert 0x1000 * q <= q * PageSize(g);
  }

  /** Positions of an address's entry in the file, in the two tests. */
  function EntryOffset(virt: word, g: Granule): int { Index(virt, g) * 8 }
  function OtherOffset(virt: word, g: Granule): int { Page(virt, g) * 8 }

  /** Addresses in one page share an eight-byte entry, addresses in different pages have entries
      that do not overlap, and every entry lies inside a signed 64-bit file position.  Both tests
      compute the same position. */
  lemma EntryPerPage(a: word, b: word, g: Granule)
    ensures EntryOffset(a, g) == OtherOffset(a, g)
    ensures 0 <= EntryOffset(a, g) < WORD / 2 - 8
    ensures Page(a, g) == Page(b, g) <==> EntryOffset(a, g) == EntryOffset(b, g)
    ensures Page(a, g) < Page(b, g) <==> EntryOffset(a, g) + 8 <= EntryOffset(b, g)
  {
    hide Index, Page;
    IndexIsPage(a, g);
    IndexIsPage(b, g);
  }

  // The physical address, in the source's own shifts and masks for each page size.

  function High4(x: bv64): bv64 { x >> 12 }
  function Low4(x: bv64): bv64 { x & 0xFFF }
  function Phys4(frame: bv64, x: bv64): bv64 { (frame << 12) | (x & 0xFFF) }

  function Kept4(frame: bv64): bv64 { frame & 0xF_FFFF_FFFF_FFFF }

  lemma Split4(x: bv64)
    ensures Phys4(High4(x), Low4(x)) == x
  {}

  lemma Phys4Exact(frame: bv64, x: bv64)
    ensures Low4(Phys4(frame, x)) == Low4(x)
    ensures High4(Phys4(frame, x)) == Kept4(frame)
    ensures High4(Phys4(frame, x)) == frame <==> frame < 0x10_0000_0000_0000
  {}

  function High16(x: bv64): bv64 { x >> 14 }
  function Low16(x: bv64): bv64 { x & 0x3FFF }
  function Phys16(frame: bv64, x: bv64): bv64 { (frame << 14) | (x & 0x3FFF) }

  function Kept16(frame: bv64): bv64 { frame & 0x3_FFFF_FFFF_FFFF }

  lemma Split16(x: bv64)
    ensures Phys16(High16(x), Low16(x)) == x
  {}

  lemma Phys16Exact(frame: bv64, x: bv64)
    ensures Low16(Phys16(frame, x)) == Low16(x)
    ensures High16(Phys16(frame, x)) == Kept16(frame)
    ensures High16(Phys16(frame, x)) == frame <==> frame < 0x4_0000_0000_0000
  {}

  function High64(x: bv64): bv64 { x >> 16 }
  function Low64(x: bv64): bv64 { x & 0xFFFF }
  function Phys64(frame: bv64, x: bv64): bv64 { (frame << 16) | (x & 0xFFFF) }

  function Kept64(frame: bv64): bv64 { frame & 0xFFFF_FFFF_FFFF }

  lemma Split64(x: bv64)
    ensures Phys64(High64(x), Low64(x)) == x
  {}

  lemma Phys64Exact(frame: bv64, x: bv64)
    ensures Low64(Phys64(frame, x)) == Low64(x)
    ensures High64(Phys64(frame, x)) == Kept64(frame)
    ensures High64(Phys64(frame, x)) == frame <==> frame < 0x1_0000_0000_0000
  {}

  /** An address without its in-page offset bits. */
  function High(x: bv64, g: Granule): bv64 {
    match g case K4 => High4(x) case K16 => High16(x) case K64 => High64(x)
  }

  /** The in-page offset of an address. */
  function Low(x: bv64, g: Granule): bv64 {
    match g case K4 => Low4(x) case K16 => Low16(x) case K64 => Low64(x)
  }

  /** (frame << PAGE_SHIFT) | (virt & PAGE_OFFSET) */
  function Phys(frame: bv64, x: bv64, g: Granule): bv64 {
    match g case K4 => Phys4(frame, x) case K16 => Phys16(frame, x) case K64 => Phys64(frame, x)
  }

  /** Smallest frame number whose address needs more than 64 bits. */
  function FrameLimit(g: Granule): bv64 {
    match g
    case K4 => 0x10_0000_0000_0000
    case K16 => 0x4_0000_0000_0000
    case K64 => 0x1_0000_0000_0000
  }

  /** The bits of a frame number below that limit. */
  function Kept(frame: bv64, g: Granule): bv64 {
    match g case K4 => Kept4(frame) case K16 => Kept16(frame) case K64 => Kept64(frame)
  }

  /** The address keeps virt's in-page offset and the bits of the frame below the limit, and so gives
      the frame back exactly if the frame's address fits 64 bits. */
  predicate PhysOk(phys: bv64, frame: bv64, virt: bv64, g: Granule) {
    && Low(phys, g) == Low(virt, g) && High(phys, g) == Kept(frame, g)
    && (High(phys, g) == frame <==> frame < FrameLimit(g))
  }

  lemma PhysExactIff(frame: bv64, virt: bv64, g: Granule)
    ensures PhysOk(Phys(frame, virt, g), frame, virt, g)
  {
    hide Low4, Low16, Low64, High4, High16, High64, Phys4, Phys16, Phys64, Kept4, Kept16, Kept64;
    match g {
      case K4 => Phys4Exact(frame, virt);
      case K16 => Phys16Exact(frame, virt);
      case K64 => Phys64Exact(frame, virt);
    }
  }

  /** Every address is the one of its page and its in-page offset. */
  lemma Rejoined(x: bv64, g: Granule)
    ensures Phys(High(x, g), Low(x, g), g) == x
  {
    match g {
      case K4 => Split4(x);
      case K16 => Split16(x);
      case K64 => Split64(x);
    }
  }

  /** The page size computed from the page-shift field. */
  function SizeOf(w: bv64): bv64 { 1 << ShiftOf(w) }

  /** It is 64 KiB exactly when the other test reads a page shift of 16. */
  lemma SizeAgrees(w: bv64)
    ensures SizeOf(w) == 0x1_0000 <==> OtherShift(w) == 16
  {
    ShiftAgrees(w);
  }

  /** Its logarithm is the field: the sizes of 4 KiB, 16 KiB, 64 KiB and 2 MiB pages, and in general a
      single bit at that position. */
  lemma SizeIs(w: bv64)
    ensures SizeOf(w) >> OtherShift(w) == 1
    ensures OtherShift(w) == 12 ==> SizeOf(w) == 0x1000
    ensures OtherShift(w) == 14 ==> SizeOf(w) == 0x4000
    ensures OtherShift(w) == 16 ==> SizeOf(w) == 0x1_0000
    ensures OtherShift(w) == 21 ==> SizeOf(w) == 0x20_0000
  {
    ShiftAgrees(w);
    ShiftSmall(w);
    OneBit(ShiftOf(w));
  }

  lemma ShiftSmall(w: bv64)
    ensures ShiftOf(w) < 64
  {}

  lemma OneBit(k: bv64)
    requires k < 64
    ensures ((1 as bv64) << k) >> k == 1
  {}

  class MemoryInfo {
    var phys: bv64
    var pgsize: bv64
    var present: bool
    var swap: bool

    constructor () { }
  }

  /** Outcome of reading the entry: an error, or some of the word's bytes, lowest first. */
  datatype Entry8 = Error | Got(w: bv64, bytes: nat)

  /** The word in the caller's variable, which was zero, after such a read. */
  function Filled(w: bv64, bytes: nat): bv64 {
    match bytes
    case 0 => 0
    case 1 => w & 0xFF
    case 2 => w & 0xFFFF
    case 3 => w & 0xFF_FFFF
    case 4 => w & 0xFFFF_FFFF
    case 5 => w & 0xFF_FFFF_FFFF
    case 6 => w & 0xFFFF_FFFF_FFFF
    case 7 => w & 0xFF_FFFF_FFFF_FFFF
    case _ => w
  }

  /** A complete read gives the word; an incomplete one its lowest bytes, with zeroes above. */
  lemma FilledIs(w: bv64, bytes: nat)
    ensures bytes == 0 ==> Filled(w, bytes) == 0
    ensures bytes >= 8 ==> Filled(w, bytes) == w
    ensures 1 <= bytes < 8 ==> Filled(w, bytes) == LowBytes(w, bytes)
  {
    match bytes {
      case 1 => Low1(w);
      case 2 => Low2(w);
      case 3 => Low3(w);
      case 4 => Low4Bytes(w);
      case 5 => Low5(w);
      case 6 => Low6(w);
      case 7 => Low7(w);
      case _ =>
    }
  }

  /** The word shifted up until only so many bytes are left, and back. */
  function LowBytes(w: bv64, bytes: nat): bv64 {
    match bytes
    case 1 => (w << 56) >> 56
    case 2 => (w << 48) >> 48
    case 3 => (w << 40) >> 40
    case 4 => (w << 32) >> 32
    case 5 => (w << 24) >> 24
    case 6 => (w << 16) >> 16
    case 7 => (w << 8) >> 8
    case _ => w
  }

  lemma Low1(w: bv64) ensures w & 0xFF == (w << 56) >> 56 {}
  lemma Low2(w: bv64) ensures w & 0xFFFF == (w << 48) >> 48 {}
  lemma Low3(w: bv64) ensures w & 0xFF_FFFF == (w << 40) >> 40 {}
  lemma Low4Bytes(w: bv64) ensures w & 0xFFFF_FFFF == (w << 32) >> 32 {}
  lemma Low5(w: bv64) ensures w & 0xFF_FFFF_FFFF == (w << 24) >> 24 {}
  lemma Low6(w: bv64) ensures w & 0xFFFF_FFFF_FFFF == (w << 16) >> 16 {}
  lemma Low7(w: bv64) ensures w & 0xFF_FFFF_FFFF_FFFF == (w << 8) >> 8 {}

  /** The record describes word w for an address, in terms of the other test's decoder. */
  ghost predicate Describes(info: MemoryInfo, w: bv64, virt: bv64, g: Granule)
    reads info
  {
    && info.present == OtherPresent(w) && info.swap == Swapped(w)
    && info.pgsize == SizeOf(w)
    && PhysOk(info.phys, OtherFrame(w), virt, g)
  }

  /** The part after the read: the four fields are set from the word. */
  method Decode(info: MemoryInfo, pagemap: bv64, virt: bv64, g: Granule)
    modifies info
    ensures Describes(info, pagemap, virt, g)
  {
    hide Phys, PhysOk, FrameOf, SizeOf, OtherPresent, OtherFrame, Swapped;
    PhysExactIff(FrameOf(pagemap), virt, g);
    FrameAgrees(pagemap);
    PresentAgrees(pagemap);
    SwapAgrees(pagemap);
    info.phys := Phys(FrameOf(pagemap), virt, g);
    info.pgsize := SizeOf(pagemap);
    info.present := pagemap & PRESENT != 0;
    info.swap := pagemap & SWAP != 0;
  }

  /** __get_memory_info on a pagemap file whose entry at each position is known.  A null result
      record is refused; a failure leaves the record cleared; otherwise the record describes the
      word of the page of virt, bytes that were not read counting as zero. */
  method GetMemoryInfo(opens: bool, seeks: bool, file: int -> Entry8, virt: bv64, g: Granule,
                       info: MemoryInfo?) returns (ret: int)
    modifies info
    ensures info == null ==> ret == -22
    ensures info != null ==> var e := file(OtherOffset(virt as int, g));
      if !opens || !seeks || e.Error? then
        ret == -5 && info.phys == 0 && info.pgsize == 0 && !info.present && !info.swap
      else
        ret == 0 && Describes(info, Filled(e.w, e.bytes), virt, g)
  {
    hide EntryOffset, OtherOffset, Describes, Filled;
    if info == null { return -EINVAL; }
    info.phys, info.pgsize, info.present, info.swap := 0, 0, false, false;
    if !opens { return -EIO; }
    var offset := EntryOffset(virt as int, g);
    EntryPerPage(virt as int, virt as int, g);
    if !seeks { return -EIO; }
    match file(offset) {
      case Error => return -EIO;
      case Got(w, bytes) => Decode(info, Filled(w, bytes), virt, g);
    }
    return 0;
  }
}
