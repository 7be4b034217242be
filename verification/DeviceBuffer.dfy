/** The test driver's device buffer (its reset loop and page-fault handler) and the two user
    programs that map it: one privately, one shared and checked through a second mapping. */
module DeviceBuffer {

  import opened Division
  import opened Words

  /** The page sizes the suite can be built for. */
  type PageSize = p: int | p == 0x1000 || p == 0x4000 || p == 0x1_0000 witness 0x1000

  /** One page of page-table entries of 8 bytes each maps a block; the buffer is one page longer. */
  function BufPages(p: PageSize): nat { p / 8 + 1 }
  function BufSize(p: PageSize): nat { BufPages(p) * p }

  /** 2 MiB and a page with 4 KiB pages, 32 MiB and a page with 16 KiB, 512 MiB and a page with 64 KiB. */
  lemma BufferIs()
    ensures BufSize(0x1000) == 0x20_1000 && BufPages(0x1000) == 513
    ensures BufSize(0x4000) == 0x200_4000 && BufPages(0x4000) == 2049
    ensures BufSize(0x1_0000) == 0x2001_0000 && BufPages(0x1_0000) == 8193
  {}

  const Z: byte := 90

  /** An int passed to memset: its low byte. */
  function LowByte(v: nat): byte { v % 256 }

  /** Page k of a freshly reset buffer. */
  function PageByte(k: nat): byte { LowByte(k + 1) }

  /** The page number of a byte of the buffer. */
  function PageNo(i: nat, p: PageSize): nat { i / p }

  lemma InPage(k: nat, j: nat, p: PageSize)
    requires j < p
    ensures PageNo(k * p + j, p) == k && (k * p + j) % p == j
  {
    Quotient(k, p, j);
    Remainder(k, p, j);
  }

  /** Page k lies in the buffer exactly when it starts in it. */
  lemma PageFits(k: nat, n: nat, p: PageSize)
    ensures k < n <==> k * p < n * p
    ensures k < n ==> 0 <= k * p < (k + 1) * p <= n * p && (k + 1) * p == k * p + p
  {
    assert (k + 1) * p == k * p + p;
    if k < n { assert (n - k - 1) * p >= 0; } else { assert (k - n) * p >= 0; }
    assert n * p - k * p == (n - k) * p;
    assert (n - k - 1) * p == (n - k) * p - p;
  }

  lemma PageByteAt(i: nat, p: PageSize)
    ensures PageByte(PageNo(i, p)) == (i / p + 1) % 256
  {}

  datatype Fault = Page(offset: int) | NoMemory | BadOffset

  class Device {
    const pageSize: PageSize
    /** Null when the buffer could not be allocated. */
    var data: array?<byte>

    ghost predicate Valid()
      reads this
    { data != null ==> data.Length == BufSize(pageSize) }

    constructor (p: PageSize, got: bool)
      ensures pageSize == p && Valid() && (data != null <==> got) && (data != null ==> fresh(data))
    {
      pageSize, data := p, null;
      new;
      if got { data := new byte[BufSize(p)](_ => 0); }
    }

    /** memset of one page.  `writes` counts the stores to each byte. */
    method SetPage(k: nat, val: nat, ghost writes: seq<nat>) returns (ghost writes': seq<nat>)
      requires Valid() && data != null && k < BufPages(pageSize) && |writes| == BufSize(pageSize)
      modifies data
      ensures |writes'| == BufSize(pageSize)
      ensures forall i | 0 <= i < BufSize(pageSize) ::
        if k * pageSize <= i < (k + 1) * pageSize then data[i] == LowByte(val) && writes'[i] == writes[i] + 1
        else data[i] == old(data[i]) && writes'[i] == writes[i]
    {
      PageFits(k, BufPages(pageSize), pageSize);
      var off, size := k * pageSize, BufSize(pageSize);
      var len := if off + pageSize < size then pageSize else size - off;
      writes' := writes;
      for j := 0 to len
        invariant |writes'| == size
        invariant forall i | 0 <= i < size ::
          if off <= i < off + j then data[i] == LowByte(val) && writes'[i] == writes[i] + 1
          else data[i] == old(data[i]) && writes'[i] == writes[i]
      {
        data[off + j] := LowByte(val);
        writes' := writes'[off + j := writes'[off + j] + 1];
      }
    }

    /** The reset loop. */
    method Reset() returns (ghost writes: seq<nat>)
      requires Valid() && data != null
      modifies data
      ensures ResetData(pageSize, data[..])
      ensures forall i | 0 <= i < BufSize(pageSize) :: data[i] == (i / pageSize + 1) % 256
      ensures |writes| == BufSize(pageSize) && forall i | 0 <= i < BufSize(pageSize) :: writes[i] == 1
    {
      ghost var n, size := BufPages(pageSize), BufSize(pageSize);
      assert size == n * pageSize;
      hide PageNo, BufPages, BufSize;
      writes := seq(size, _ => 0);
      var val, off := 1, 0;
      while off < BufSize(pageSize)
        invariant 1 <= val <= n + 1 && off == (val - 1) * pageSize <= size == n * pageSize
        invariant |writes| == size && forall i | 0 <= i < size :: writes[i] == if i < off then 1 else 0
        invariant forall i | 0 <= i < off :: data[i] == PageByte(PageNo(i, pageSize))
        decreases n + 1 - val
      {
        PageFits(val - 1, n, pageSize);
        writes := SetPage(val - 1, val, writes);
        forall i | off <= i < off + pageSize ensures PageNo(i, pageSize) == val - 1 { InPage(val - 1, i - off, pageSize); }
        val, off := val + 1, off + pageSize;
      }
      forall i | 0 <= i < size ensures data[i] == (i / pageSize + 1) % 256 { PageByteAt(i, pageSize); }
    }

    /** The fault handler: the byte offset in the buffer of the page for `pgoff`; the shift is
        64-bit arithmetic. */
    function FaultAt(pgoff: nat): Fault
      reads this
    {
      if data == null then NoMemory
      else if BufSize(pageSize) <= pgoff * pageSize % WORD then BadOffset
      else Page(pgoff * pageSize % WORD)
    }
  }

  /** The number of pages in 2^64 bytes. */
  function PageLimit(p: PageSize): (n: nat)
    ensures n * p == WORD && BufPages(p) < n && INT < n
  { WORD / p }

  lemma ShiftedOffset(pgoff: nat, p: PageSize)
    ensures pgoff * p % WORD == pgoff % PageLimit(p) * p
  {
    hide PageLimit;
    var limit := PageLimit(p);
    var q, r := pgoff / limit, pgoff % limit;
    assert pgoff * p == (q * limit + r) * p == q * (limit * p) + r * p;
    PageFits(r, limit, p);
    Remainder(q, WORD, r * p);
  }

  /** With a buffer, a fault is served exactly when the page offset, modulo the number of pages in
      2^64 bytes, is a buffer page: for every offset that fits an address this is the in-range test. */
  lemma FaultIff(dev: Device, pgoff: nat)
    requires dev.data != null
    ensures var p := dev.pageSize;
      && (dev.FaultAt(pgoff).Page? <==> pgoff % PageLimit(p) < BufPages(p))
      && (pgoff < PageLimit(p) ==>
        && (dev.FaultAt(pgoff).Page? <==> pgoff < BufPages(p))
        && (pgoff < BufPages(p) ==> dev.FaultAt(pgoff) == Page(pgoff * p)))
  {
    hide PageLimit, BufPages;
    var p := dev.pageSize;
    ShiftedOffset(pgoff, p);
    PageFits(pgoff % PageLimit(p), BufPages(p), p);
    if pgoff < PageLimit(p) { SmallModulus(pgoff, PageLimit(p)); }
  }

  lemma SmallModulus(x: nat, m: nat)
    requires x < m
    ensures x % m == x
  {}

  // ----- mappings -----

  class Mapping {
    const dev: Device
    const shared: bool
    /** Private pages already copied on write. */
    var copies: map<int, seq<byte>>

    constructor (d: Device, s: bool)
      ensures dev == d && shared == s && copies == map[]
    { dev, shared, copies := d, s, map[]; }

    /** Copies are whole pages, and only a private mapping makes them. */
    ghost predicate Valid()
      reads this, dev
    {
      && dev.Valid() && dev.data != null
      && (shared ==> copies == map[])
      && forall k | k in copies :: |copies[k]| == dev.pageSize
    }

    /** Page k as seen through the mapping. */
    function PageOf(k: int): (r: seq<byte>)
      requires Valid() && 0 <= k < BufPages(dev.pageSize)
      reads this, dev, dev.data
      ensures |r| == dev.pageSize
    {
      PageFits(k, BufPages(dev.pageSize), dev.pageSize);
      if k in copies then copies[k] else dev.data[k * dev.pageSize..(k + 1) * dev.pageSize]
    }

    /** Store at the first byte of page k; false is a fatal signal.  A private mapping copies the
        page first and leaves the device alone. */
    method Touch(k: nat, b: byte) returns (ok: bool)
      requires Valid() && k < PageLimit(dev.pageSize)
      modifies this, dev.data
      ensures Valid() && ok == (k < BufPages(dev.pageSize))
      ensures copies == if ok && !shared then old(copies)[k := old(PageOf(k))[0 := b]] else old(copies)
      ensures ok ==> 0 <= k * dev.pageSize < BufSize(dev.pageSize)
      ensures dev.data[..] == if ok && shared then old(dev.data[..])[k * dev.pageSize := b] else old(dev.data[..])
    {
      FaultIff(dev, k);
      PageFits(k, BufPages(dev.pageSize), dev.pageSize);
      hide PageLimit;
      if !dev.FaultAt(k).Page? { return false; }
      if shared {
        dev.data[k * dev.pageSize] := b;
      } else {
        copies := copies[k := PageOf(k)[0 := b]];
      }
      return true;
    }
  }

  /** Page k as the validation loop rebuilds it. */
  function WantedPage(p: PageSize, k: nat): seq<byte> { seq(p, _ => PageByte(k))[0 := Z] }

  /** Wanted pages: 'Z', then the page's number plus one; pages can be told apart modulo 256. */
  lemma WantedPageIs(p: PageSize, k: nat, j: nat)
    ensures |WantedPage(p, k)| == p && WantedPage(p, k)[0] == 'Z' as int
    ensures forall i | 1 <= i < p :: WantedPage(p, k)[i] == (k + 1) % 256
    ensures WantedPage(p, k) == WantedPage(p, j) <==> k % 256 == j % 256
  {
    hide WantedPage, PageByte;
    WantedBytes(p, k);
    WantedBytes(p, j);
    SameLowByte(k, j);
    if WantedPage(p, k) == WantedPage(p, j) { assert WantedPage(p, k)[1] == WantedPage(p, j)[1]; }
  }

  lemma WantedBytes(p: PageSize, k: nat)
    ensures |WantedPage(p, k)| == p && WantedPage(p, k)[0] == 'Z' as int
    ensures forall i | 1 <= i < p :: WantedPage(p, k)[i] == PageByte(k)
  {}

  lemma SameLowByte(k: nat, j: nat)
    ensures PageByte(k) == (k + 1) % 256
    ensures PageByte(k) == PageByte(j) <==> k % 256 == j % 256
  {}

  datatype Verdict = Pass | Mismatch | Signal | CallFailed | BadSize

  /** The calls the user programs make around their loops. */
  datatype Call = Open | Reset | Map | MapPeek | Unmap | UnmapPeek

  predicate ResetData(p: PageSize, s: seq<byte>) {
    |s| == BufSize(p) && forall i | 0 <= i < |s| :: s[i] == PageByte(PageNo(i, p))
  }

  function MarkedByte(p: PageSize, n: nat, i: nat): byte {
    if i % p == 0 && PageNo(i, p) < n then Z else PageByte(PageNo(i, p))
  }

  /** Reset data with the first byte of each of the first n pages overwritten by 'Z'. */
  function Marked(p: PageSize, n: nat): (s: seq<byte>)
    ensures |s| == BufSize(p) && forall i | 0 <= i < |s| :: s[i] == MarkedByte(p, n, i)
  { seq(BufSize(p), i requires 0 <= i => MarkedByte(p, n, i)) }

  /** A page of marked data is the page the validation loop wants. */
  lemma MarkedPage(p: PageSize, n: nat, k: nat)
    requires k < n && k < BufPages(p)
    ensures 0 <= k * p <= (k + 1) * p <= BufSize(p)
    ensures Marked(p, n)[k * p..(k + 1) * p] == WantedPage(p, k)
  {
    PageFits(k, BufPages(p), p);
    hide PageNo, Marked, BufPages;
    var page := Marked(p, n)[k * p..(k + 1) * p];
    forall j | 0 <= j < p ensures page[j] == WantedPage(p, k)[j] {
      InPage(k, j, p);
      assert page[j] == Marked(p, n)[k * p + j];
    }
  }

  lemma MarkNext(p: PageSize, n: nat)
    requires n < BufPages(p)
    ensures 0 <= n * p < BufSize(p) && Marked(p, n)[n * p := Z] == Marked(p, n + 1)
  {
    PageFits(n, BufPages(p), p);
    assert 0 <= n * p < BufSize(p);
    hide Marked, BufPages, BufSize;
    forall i | 0 <= i < BufSize(p) && i != n * p ensures MarkedByte(p, n, i) == MarkedByte(p, n + 1, i) {
      assert i == PageNo(i, p) * p + i % p;
    }
    InPage(n, 0, p);
  }

  lemma MarkedReset(p: PageSize, s: seq<byte>)
    requires ResetData(p, s)
    ensures s == Marked(p, 0)
  {
    hide PageNo, Marked;
  }

  /** A page of reset data, first byte overwritten, is the wanted page. */
  lemma PlainPage(p: PageSize, s: seq<byte>, k: nat)
    requires ResetData(p, s) && k < BufPages(p)
    ensures 0 <= k * p <= (k + 1) * p <= |s| && s[k * p..(k + 1) * p][0 := Z] == WantedPage(p, k)
  {
    PageFits(k, BufPages(p), p);
    hide PageNo, BufPages;
    var page := s[k * p..(k + 1) * p];
    forall j | 0 < j < p ensures page[j] == WantedPage(p, k)[j] {
      InPage(k, j, p);
      assert page[j] == s[k * p + j];
    }
  }

  /** The page count the user programs compute: 64-bit arithmetic stored in an `int`. */
  function PageCount(p: PageSize, size: word): int { Int32((size + p - 1) % WORD / p) }

  /** The count is the number of pages that `size` bytes take exactly when that number fits an
      `int`; up to there it is within the buffer exactly when the size is. */
  lemma PageCountIff(p: PageSize, size: word)
    ensures PageCount(p, size) < INT / 2
    ensures PageCount(p, size) == (size + p - 1) / p <==> size <= 0x7FFF_FFFF * p
    ensures size <= 0x7FFF_FFFF * p ==> (PageCount(p, size) <= BufPages(p) <==> size <= BufSize(p))
  {
    hide Int32;
    var sum := size + p - 1;
    Int32Iff(sum % WORD / p);
    if sum >= WORD { assert sum % WORD == sum - WORD; }
    if p == 0x1000 { } else if p == 0x4000 { } else { }
  }

  /** Beyond, the count can be anything: 2^32 pages count as no page at all. */
  lemma PageCountWraps(p: PageSize)
    ensures 0x1_0000_0000 * p < WORD && PageCount(p, 0x1_0000_0000 * p) == 0 && BufSize(p) < 0x1_0000_0000 * p
  {}

  /** The validation loop: every counted page is as wanted. */
  method Validate(m: Mapping, pages: int) returns (same: bool)
    requires m.Valid() && pages <= BufPages(m.dev.pageSize)
    ensures same <==> forall k | 0 <= k < pages :: m.PageOf(k) == WantedPage(m.dev.pageSize, k)
  {
    var val, i := 1, 0;
    while i < pages
      invariant 0 <= i && val == i + 1 && (i <= pages || i == 0)
      invariant forall k | 0 <= k < i :: m.PageOf(k) == WantedPage(m.dev.pageSize, k)
    {
      var want := seq(m.dev.pageSize, _ => LowByte(val))[0 := Z];
      assert want == WantedPage(m.dev.pageSize, i);
      if m.PageOf(i) != want { return false; }
      val, i := val + 1, i + 1;
    }
    return true;
  }

  /** devmap_do_devmap with MAP_PRIVATE: reset, map, write 'Z' to every page, validate.  When no call
      fails it passes exactly if the size is not zero and the counted pages are within the buffer;
      the device keeps its reset contents. */
  method PrivateTest(dev: Device, size: word, fails: Call -> bool) returns (v: Verdict)
    requires dev.Valid() && dev.data != null
    modifies dev.data
    ensures var p := dev.pageSize;
      v ==
      if size == 0 then BadSize
      else if fails(Open) || fails(Reset) || fails(Map) then CallFailed
      else if PageCount(p, size) > BufPages(p) then Signal
      else if fails(Unmap) then CallFailed
      else Pass
    ensures if size == 0 || fails(Open) || fails(Reset) then dev.data[..] == old(dev.data[..])
            else ResetData(dev.pageSize, dev.data[..])
  {
    if size == 0 { return BadSize; }
    if fails(Open) || fails(Reset) { return CallFailed; }
    ghost var writes := dev.Reset();
    if fails(Map) { return CallFailed; }
    var m := new Mapping(dev, false);
    var pages := PageCount(dev.pageSize, size);
    hide PageCount, ResetData, PageLimit, WantedPage;
    var i := 0;
    while i < pages
      invariant 0 <= i <= BufPages(dev.pageSize) && (i <= pages || i == 0)
      invariant m.Valid() && ResetData(dev.pageSize, dev.data[..])
      invariant forall k :: k in m.copies <==> 0 <= k < i
      invariant forall k | 0 <= k < i :: m.copies[k] == WantedPage(dev.pageSize, k)
    {
      if i < BufPages(dev.pageSize) { FreshPage(m, i); }
      var ok := m.Touch(i, Z);
      if !ok { return Signal; }
      i := i + 1;
    }
    var same := Validate(m, pages);
    if !same { return Mismatch; }
    return if fails(Unmap) then CallFailed else Pass;
  }

  /** A page not copied yet shows the device's page, which with its first byte overwritten is the
      wanted one. */
  lemma FreshPage(m: Mapping, k: nat)
    requires m.Valid() && ResetData(m.dev.pageSize, m.dev.data[..]) && k < BufPages(m.dev.pageSize) && k !in m.copies
    ensures m.PageOf(k)[0 := Z] == WantedPage(m.dev.pageSize, k)
  {
    var p := m.dev.pageSize;
    PlainPage(p, m.dev.data[..], k);
    assert m.PageOf(k) == m.dev.data[..][k * p..(k + 1) * p];
  }

  /** The pages marked by a program that counts `count` pages. */
  function MarkedPages(p: PageSize, count: int): nat {
    if count < 0 then 0 else if count > BufPages(p) then BufPages(p) else count
  }

  /** devmap_do_devmap with MAP_SHARED, validated through a second mapping.  When no call fails it
      passes exactly if the size is not zero and the counted pages are within the buffer; the device
      then shows the marks and nothing else. */
  method SharedTest(dev: Device, size: word, fails: Call -> bool) returns (v: Verdict)
    requires dev.Valid() && dev.data != null
    modifies dev.data
    ensures var p := dev.pageSize;
      v ==
      if size == 0 then BadSize
      else if fails(Open) || fails(Reset) || fails(Map) then CallFailed
      else if PageCount(p, size) > BufPages(p) then Signal
      else if fails(MapPeek) || fails(Unmap) || fails(UnmapPeek) then CallFailed
      else Pass
    ensures var p := dev.pageSize;
      dev.data[..] ==
      if size == 0 || fails(Open) || fails(Reset) then old(dev.data[..])
      else if fails(Map) then Marked(p, 0)
      else Marked(p, MarkedPages(p, PageCount(p, size)))
  {
    if size == 0 { return BadSize; }
    if fails(Open) || fails(Reset) { return CallFailed; }
    ghost var writes := dev.Reset();
    MarkedReset(dev.pageSize, dev.data[..]);
    hide PageCount, ResetData, PageLimit, WantedPage, Marked;
    if fails(Map) { return CallFailed; }
    var pages := PageCount(dev.pageSize, size);
    PageCountIff(dev.pageSize, size);
    var ok := MarkAll(dev, pages);
    if !ok { return Signal; }
    if fails(MapPeek) { return CallFailed; }
    var peek := new Mapping(dev, true);
    forall k | 0 <= k < pages ensures peek.PageOf(k) == WantedPage(dev.pageSize, k) { SeenPage(peek, pages, k); }
    var same := Validate(peek, pages);
    if !same { return Mismatch; }
    return if fails(Unmap) || fails(UnmapPeek) then CallFailed else Pass;
  }

  /** The writing loop through a shared mapping. */
  method MarkAll(dev: Device, pages: int) returns (ok: bool)
    requires dev.Valid() && dev.data != null && dev.data[..] == Marked(dev.pageSize, 0)
    requires pages < PageLimit(dev.pageSize)
    modifies dev.data
    ensures ok == (pages <= BufPages(dev.pageSize))
    ensures dev.data[..] == Marked(dev.pageSize, MarkedPages(dev.pageSize, pages))
  {
    hide Marked, PageLimit;
    var m := new Mapping(dev, true);
    var i := 0;
    while i < pages
      invariant 0 <= i <= BufPages(dev.pageSize) && (i <= pages || i == 0)
      invariant m.Valid() && dev.data[..] == Marked(dev.pageSize, i)
    {
      if i < BufPages(dev.pageSize) { MarkNext(dev.pageSize, i); }
      var stored := m.Touch(i, Z);
      if !stored { return false; }
      i := i + 1;
    }
    return true;
  }

  lemma SeenPage(m: Mapping, n: nat, k: nat)
    requires m.Valid() && m.shared && m.dev.data[..] == Marked(m.dev.pageSize, n) && k < n <= BufPages(m.dev.pageSize)
    ensures m.PageOf(k) == WantedPage(m.dev.pageSize, k)
  {
    var p := m.dev.pageSize;
    MarkedPage(p, n, k);
    assert m.PageOf(k) == m.dev.data[..][k * p..(k + 1) * p];
  }
}
