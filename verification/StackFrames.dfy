/** The stack-limit test: a size is split into GiB, MiB and KiB counts, and three mutually recursive
    functions each push one buffer of their unit until the counts run out, touching every page of
    the buffer with a loop whose counter is a word of that same buffer. */
module StackFrames {

  import opened Division
  import opened Words

  const GIB: nat := 0x4000_0000
  const MIB: nat := 0x10_0000
  const KIB: nat := 0x400

  /** The counts split value into whole units with less than one KiB left. */
  predicate Splits(value: nat, gib: int, mib: int, kib: int) {
    && 0 <= gib && 0 <= mib < 1024 && 0 <= kib < 1024
    && 0 <= value - gib * GIB - mib * MIB - kib * KIB < KIB
  }

  lemma Int32Same(x: int)
    requires 0 <= x < INT / 2
    ensures Int32(x) == x
  {}

  lemma SplitWhole(value: nat, mib: int, kib: int)
    requires Splits(value % GIB, 0, mib, kib)
    ensures Splits(value, value / GIB, mib, kib)
  {}

  /** A split is unique. */
  lemma SplitUnique(value: nat, gib: int, mib: int, kib: int)
    requires Splits(value, gib, mib, kib)
    ensures gib == value / GIB && mib == value % GIB / MIB && kib == value % MIB / KIB
    ensures gib * GIB + mib * MIB + kib * KIB == value - value % KIB
  {
    var r := value - gib * GIB - mib * MIB - kib * KIB;
    Quotient(gib, GIB, mib * MIB + kib * KIB + r);
    Remainder(gib, GIB, mib * MIB + kib * KIB + r);
    Quotient(mib, MIB, kib * KIB + r);
    Remainder(gib * 1024 + mib, MIB, kib * KIB + r);
    Quotient(kib, KIB, r);
    Remainder((gib * 1024 + mib) * 1024 + kib, KIB, r);
  }

  /** Below one GiB the two smaller counts, computed as the code does, complete a split. */
  lemma SplitSmall(size: nat)
    requires size < GIB
    ensures
      var mib := Int32(size / MIB);
      var left := (size - Int32(mib * MIB)) % WORD;
      0 <= left < WORD && Splits(size, 0, mib, Int32(left / KIB))
  {
    hide Int32;
    var mib := size / MIB;
    Int32Same(mib);
    Int32Same(mib * MIB);
    var left := size - mib * MIB;
    Int32Same(left / KIB);
  }

  /** value_to_unit.  The counts are `int`s, so the split is right exactly below 2^61 bytes. */
  method ValueToUnit(value: word) returns (gib: int, mib: int, kib: int)
    ensures Splits(value, gib, mib, kib) <==> value < 0x2000_0000_0000_0000
    ensures Int32(gib) == gib && Int32(mib) == mib && Int32(kib) == kib
  {
    hide Splits, Int32;
    var size: int := value;
    gib := Int32(size / GIB);
    var i := 0;
    while i < gib
      invariant i == 0 || i <= gib
      invariant size == value - i * GIB
    {
      size := size - GIB;
      i := i + 1;
    }
    ghost var rest := size;
    mib := Int32(size / MIB);
    size := (size - Int32(mib * MIB)) % WORD;
    kib := Int32(size / KIB);
    size := (size - Int32(kib * KIB)) % WORD;
    SplitOutcome(value, gib, rest, mib, kib);
    Int32Twice(value / GIB);
    Int32Twice(rest / MIB);
    Int32Twice((rest - Int32(mib * MIB)) % WORD / KIB);
  }

  lemma SplitOutcome(value: word, gib: int, rest: int, mib: int, kib: int)
    requires gib == Int32(value / GIB)
    requires rest == value - (if gib < 0 then 0 else gib) * GIB
    requires mib == Int32(rest / MIB) && kib == Int32((rest - Int32(mib * MIB)) % WORD / KIB)
    ensures Splits(value, gib, mib, kib) <==> value < 0x2000_0000_0000_0000
  {
    hide Int32, Splits;
    if value < 0x2000_0000_0000_0000 {
      Int32Same(value / GIB);
      SplitSmall(value % GIB);
      SplitWhole(value, mib, kib);
    } else if Splits(value, gib, mib, kib) {
      SplitUnique(value, gib, mib, kib);
      Int32Iff(value / GIB);
    }
  }

  /** Word x with its lowest byte set to 0xFF: memset of the first byte in little-endian order. */
  function Marked(x: word): word { x - x % 256 + 255 }

  /** Only the lowest byte changes. */
  lemma MarkedIs(x: word)
    ensures Marked(x) % 256 == 255 && Marked(x) / 256 == x / 256
  {}

  /** Byte offset b is a whole number of pages from the start of the buffer. */
  predicate OnStride(b: int, pageSize: nat)
    requires 0 < pageSize
  { b % pageSize == 0 }

  lemma StrideZero(pageSize: nat)
    requires 0 < pageSize
    ensures OnStride(0, pageSize)
  {}

  lemma StrideNext(at: nat, pageSize: nat)
    requires 0 < pageSize && OnStride(at, pageSize)
    ensures OnStride(at + pageSize, pageSize)
  {
    var q := at / pageSize;
    assert at == q * pageSize;
    assert at + pageSize == (q + 1) * pageSize + 0;
    Remainder(q + 1, pageSize, 0);
  }

  /** Nothing strictly between two neighbouring strides is on one. */
  lemma StrideGap(at: nat, b: nat, pageSize: nat)
    requires 0 < pageSize && OnStride(at, pageSize) && at < b < at + pageSize
    ensures !OnStride(b, pageSize)
  {
    var q := at / pageSize;
    assert at == q * pageSize;
    Remainder(q, pageSize, b - at);
  }

  lemma StrideGaps(at: nat, pageSize: nat, words: nat)
    requires 0 < pageSize && OnStride(at, pageSize)
    ensures forall w | 0 <= w < words && at < 8 * w < at + pageSize :: !OnStride(8 * w, pageSize)
  {
    forall w | 0 <= w < words && at < 8 * w < at + pageSize ensures !OnStride(8 * w, pageSize) {
      StrideGap(at, 8 * w, pageSize);
    }
  }

  /** Words at page distances below the counter in word 1 are marked; the others are as before. */
  ghost predicate MarkedBelow(now: seq<word>, before: seq<word>, pageSize: nat)
    requires 0 < pageSize
  {
    && |now| == |before| >= 2
    && forall w | 0 <= w < |now| && w != 1 ::
      now[w] == if OnStride(8 * w, pageSize) && 8 * w < now[1] then Marked(before[w]) else before[w]
  }

  /** One turn of the loop: the word at the counter is marked and the counter moves on.  It is never
      the counter itself that is marked. */
  lemma MarkNext(now: seq<word>, before: seq<word>, pageSize: nat)
    requires 16 <= pageSize && MarkedBelow(now, before, pageSize)
    requires OnStride(now[1], pageSize) && now[1] % 8 == 0 && now[1] < 8 * |now| && now[1] + pageSize < WORD
    ensures now[1] != 8 && OnStride(now[1] + pageSize, pageSize)
    ensures MarkedBelow(now[now[1] / 8 := Marked(now[now[1] / 8])][1 := now[1] + pageSize], before, pageSize)
  {
    var at := now[1];
    hide OnStride, Marked;
    StrideZero(pageSize);
    StrideGap(0, 8, pageSize);
    StrideGaps(at, pageSize, |now|);
    StrideNext(at, pageSize);
  }

  /** The touching loop of kib_func, mib_func and gib_func.  Word 1 is the loop counter.  Exactly
      the words at page distances from the start are marked, all other words keep their values, and
      the counter ends at the first page distance past the buffer. */
  method Touch(tmp: array<word>, pageSize: nat)
    requires 2 <= tmp.Length && 8 * tmp.Length + pageSize < WORD
    requires 16 <= pageSize && pageSize % 8 == 0
    modifies tmp
    ensures forall w | 0 <= w < tmp.Length && w != 1 ::
      if OnStride(8 * w, pageSize) then tmp[w] % 256 == 255 && tmp[w] / 256 == old(tmp[w]) / 256 else tmp[w] == old(tmp[w])
    ensures OnStride(tmp[1], pageSize) && 8 * tmp.Length <= tmp[1] < 8 * tmp.Length + pageSize
  {
    hide OnStride, Marked;
    ghost var before := tmp[..];
    tmp[1] := 0;
    StrideZero(pageSize);
    while tmp[1] < 8 * tmp.Length
      invariant OnStride(tmp[1], pageSize) && tmp[1] % 8 == 0 && tmp[1] < 8 * tmp.Length + pageSize
      invariant MarkedBelow(tmp[..], before, pageSize)
      decreases 8 * tmp.Length - tmp[1]
    {
      hide MarkedBelow;
      ghost var now := tmp[..];
      MarkNext(now, before, pageSize);
      tmp[tmp[1] / 8] := Marked(tmp[tmp[1] / 8]);
      tmp[1] := tmp[1] + pageSize;
      assert tmp[..] == now[now[1] / 8 := Marked(now[now[1] / 8])][1 := now[1] + pageSize];
    }
    forall w | 0 <= w < tmp.Length && w != 1
      ensures if OnStride(8 * w, pageSize) then tmp[w] % 256 == 255 && tmp[w] / 256 == old(tmp[w]) / 256 else tmp[w] == old(tmp[w])
    {
      assert tmp[..][w] == tmp[w] && before[w] == old(tmp[w]);
      MarkedIs(before[w]);
    }
  }

  /** Page number of an address. */
  function PageOf(addr: int, pageSize: nat): int
    requires 0 < pageSize
  { addr / pageSize }

  /** Some stride of a buffer at [start, start + size) lies in the page. */
  ghost predicate Touched(start: int, size: nat, pageSize: nat, page: int)
    requires 0 < pageSize
  { exists k: nat :: k * pageSize < size && PageOf(start + k * pageSize, pageSize) == page }

  lemma StrideAt(k: nat, pageSize: nat)
    requires 0 < pageSize
    ensures OnStride(k * pageSize, pageSize)
  {
    Remainder(k, pageSize, 0);
  }

  lemma StrideOf(b: nat, pageSize: nat) returns (k: nat)
    requires 0 < pageSize && OnStride(b, pageSize)
    ensures b == k * pageSize
  {
    k := b / pageSize;
  }

  /** The touched pages are those of the words that the loop marks. */
  lemma TouchedByWords(start: int, words: nat, pageSize: nat, page: int)
    requires 0 < pageSize && pageSize % 8 == 0
    ensures Touched(start, 8 * words, pageSize, page) <==>
      exists w: nat :: w < words && OnStride(8 * w, pageSize) && PageOf(start + 8 * w, pageSize) == page
  {
    hide PageOf, OnStride;
    var c := pageSize / 8;
    if Touched(start, 8 * words, pageSize, page) {
      var k: nat :| k * pageSize < 8 * words && PageOf(start + k * pageSize, pageSize) == page;
      var w := k * c;
      assert 8 * w == k * pageSize by { assert k * (8 * c) == 8 * (k * c); }
      StrideAt(k, pageSize);
      assert OnStride(8 * w, pageSize);
    }
    forall w: nat | w < words && OnStride(8 * w, pageSize) && PageOf(start + 8 * w, pageSize) == page
      ensures Touched(start, 8 * words, pageSize, page)
    {
      var k := StrideOf(8 * w, pageSize);
      assert k * pageSize < 8 * words && PageOf(start + k * pageSize, pageSize) == page;
    }
  }

  lemma PageOfStride(start: int, k: nat, pageSize: nat)
    requires 0 < pageSize
    ensures PageOf(start + k * pageSize, pageSize) == PageOf(start, pageSize) + k
  {
    var q, r := start / pageSize, start % pageSize;
    assert start + k * pageSize == (q + k) * pageSize + r;
    Quotient(q + k, pageSize, r);
  }

  /** A page of the buffer holds a touched byte exactly when it is fewer pages past the first one
      than there are strides in the buffer. */
  lemma TouchedIff(start: int, size: nat, pageSize: nat, page: int)
    requires 0 < pageSize && PageOf(start, pageSize) <= page
    ensures Touched(start, size, pageSize, page) <==> (page - PageOf(start, pageSize)) * pageSize < size
  {
    var k := page - PageOf(start, pageSize);
    PageOfStride(start, k, pageSize);
    forall j: nat | j * pageSize < size && PageOf(start + j * pageSize, pageSize) == page
      ensures k * pageSize < size
    {
      PageOfStride(start, j, pageSize);
    }
  }

  /** The pages of the bytes of a buffer run from the first byte's page to the last byte's. */
  lemma PageBetween(a: int, b: int, pageSize: nat)
    requires 0 < pageSize && a <= b
    ensures PageOf(a, pageSize) <= PageOf(b, pageSize)
  {
    var p, q, r := a / pageSize, b / pageSize, b % pageSize;
    assert (q - p) * pageSize + r - a % pageSize == b - a by {
      assert q * pageSize - p * pageSize == (q - p) * pageSize;
    }
    assert q - p <= -1 ==> (q - p + 1) * pageSize <= 0;
  }

  lemma LastPageReached(q: int, r: nat, k: nat, m: nat, pageSize: nat)
    requires r < pageSize && 0 < m && r + m <= pageSize
    ensures var start, size := q * pageSize + r, k * pageSize + m;
      Touched(start, size, pageSize, PageOf(start + size - 1, pageSize))
  {
    hide Touched;
    var start, size := q * pageSize + r, k * pageSize + m;
    Quotient(q, pageSize, r);
    Distribute(q, k, pageSize);
    Quotient(q + k, pageSize, r + m - 1);
    assert start + size - 1 == (q + k) * pageSize + (r + m - 1);
    TouchedIff(start, size, pageSize, q + k);
  }

  lemma LastPageMissed(q: int, r: nat, k: nat, m: nat, pageSize: nat)
    requires r < pageSize && m <= pageSize < r + m
    ensures var start, size := q * pageSize + r, k * pageSize + m;
      !Touched(start, size, pageSize, PageOf(start + size - 1, pageSize))
  {
    hide Touched;
    var start, size := q * pageSize + r, k * pageSize + m;
    Quotient(q, pageSize, r);
    Distribute(q, k + 1, pageSize);
    Distribute(k, 1, pageSize);
    Quotient(q + (k + 1), pageSize, r + m - 1 - pageSize);
    assert start + size - 1 == (q + (k + 1)) * pageSize + (r + m - 1 - pageSize);
    TouchedIff(start, size, pageSize, q + (k + 1));
  }

  lemma Distribute(a: int, b: int, c: int)
    ensures (a + b) * c == a * c + b * c
  {}

  /** With the buffer at offset `r` of page q, and `m` bytes past its last stride, the page of the last
      byte is reached by a stride exactly when those bytes do not cross into it. */
  lemma LastPageTouchedIff(q: int, r: nat, k: nat, m: nat, pageSize: nat)
    requires r < pageSize && 0 < m <= pageSize
    ensures var start, size := q * pageSize + r, k * pageSize + m;
      Touched(start, size, pageSize, PageOf(start + size - 1, pageSize)) <==> r + m <= pageSize
  {
    hide Touched, PageOf;
    if r + m <= pageSize { LastPageReached(q, r, k, m, pageSize); } else { LastPageMissed(q, r, k, m, pageSize); }
  }

  /** When the last page is touched, so is every page before it. */
  lemma TouchedBelow(start: int, size: nat, pageSize: nat, page: int, last: int)
    requires 0 < pageSize && PageOf(start, pageSize) <= page <= last && Touched(start, size, pageSize, last)
    ensures Touched(start, size, pageSize, page)
  {
    hide Touched;
    TouchedIff(start, size, pageSize, last);
    TouchedIff(start, size, pageSize, page);
    var i, j := page - PageOf(start, pageSize), last - PageOf(start, pageSize);
    assert (j - i) * pageSize >= 0;
    assert j * pageSize == i * pageSize + (j - i) * pageSize;
  }

  /** Every page that [start, start + size) occupies holds a touched byte. */
  ghost predicate AllTouched(start: int, size: nat, pageSize: nat)
    requires 0 < pageSize
  { forall a | start <= a < start + size :: Touched(start, size, pageSize, PageOf(a, pageSize)) }

  /** The loop reaches every page that a non-empty buffer occupies exactly when the buffer's offset in
      its first page and the bytes from its last stride on fit one page together. */
  lemma EveryPageTouchedIff(start: int, size: nat, pageSize: nat)
    requires 0 < pageSize && 0 < size
    ensures AllTouched(start, size, pageSize) <==> start % pageSize + (size - 1) % pageSize + 1 <= pageSize
  {
    hide Touched, PageOf;
    var q, r := start / pageSize, start % pageSize;
    var k, m := (size - 1) / pageSize, (size - 1) % pageSize + 1;
    assert start == q * pageSize + r && size == k * pageSize + m;
    LastPageTouchedIff(q, r, k, m, pageSize);
    var end := start + size - 1;
    if r + m <= pageSize {
      forall a | start <= a < start + size ensures Touched(start, size, pageSize, PageOf(a, pageSize)) {
        PageBetween(start, a, pageSize);
        PageBetween(a, end, pageSize);
        TouchedBelow(start, size, pageSize, PageOf(a, pageSize), PageOf(end, pageSize));
      }
    } else {
      assert start <= end < start + size;
    }
  }

  /** So a buffer of whole pages (a MiB or GiB frame) must be page-aligned, ... */
  lemma WholePagesTouchedIff(start: int, pages: nat, pageSize: nat)
    requires 0 < pages && 0 < pageSize
    ensures AllTouched(start, pages * pageSize, pageSize) <==> start % pageSize == 0
  {
    hide AllTouched;
    var before := pages - 1;
    Distribute(before, 1, pageSize);
    assert before * pageSize >= 0;
    Remainder(before, pageSize, pageSize - 1);
    EveryPageTouchedIff(start, pages * pageSize, pageSize);
  }

  /** ... and one no longer than a page (a KiB frame) must not cross a page boundary. */
  lemma ShortTouchedIff(start: int, size: nat, pageSize: nat)
    requires 0 < size <= pageSize
    ensures AllTouched(start, size, pageSize) <==> start % pageSize + size <= pageSize
  {
    hide AllTouched;
    Remainder(0, pageSize, size - 1);
    EveryPageTouchedIff(start, size, pageSize);
  }

  datatype Unit = Gib | Mib | Kib

  function Size(u: Unit): nat {
    match u case Gib => GIB case Mib => MIB case Kib => KIB
  }

  /** Stack taken by frames: their buffers plus what the compiler adds for each. */
  function Used(frames: seq<Unit>, extra: Unit -> nat): nat {
    if frames == [] then 0 else Size(frames[0]) + extra(frames[0]) + Used(frames[1..], extra)
  }

  /** How often a recursion that counts an `int` down by one, and stops at zero, takes a turn: a
      negative count goes the long way round. */
  function Turns(count: int): nat { count % INT }

  lemma TurnsStep(count: int)
    requires Int32(count) == count
    ensures Turns(count) == 0 <==> count == 0
    ensures count != 0 ==> Turns(Int32(count - 1)) == Turns(count) - 1
  {}

  lemma TurnsSame(count: int)
    requires 0 <= count && Int32(count) == count
    ensures Turns(count) == count
  {}

  const NO_EXTRA: Unit -> nat := _ => 0

  lemma UsedCons(u: Unit, frames: seq<Unit>, extra: Unit -> nat)
    ensures Used([u] + frames, extra) == Size(u) + extra(u) + Used(frames, extra)
    ensures frames == [] ==> Used(frames, extra) == 0
  {
    assert ([u] + frames)[1..] == frames;
  }

  /** The frames pushed for given counts, outermost first. */
  function Pushes(gib: nat, mib: nat, kib: nat): (r: seq<Unit>)
    ensures |r| == gib + mib + kib
  { seq(gib, _ => Gib) + seq(mib, _ => Mib) + seq(kib, _ => Kib) }

  lemma PushesFirst(gib: nat, mib: nat, kib: nat)
    ensures gib > 0 ==> Pushes(gib, mib, kib) == [Gib] + Pushes(gib - 1, mib, kib)
    ensures gib == 0 < mib ==> Pushes(gib, mib, kib) == [Mib] + Pushes(0, mib - 1, kib)
    ensures gib == 0 == mib && kib > 0 ==> Pushes(gib, mib, kib) == [Kib] + Pushes(0, 0, kib - 1)
  {}

  /** The unit whose frame comes next. */
  predicate Due(gib: int, mib: int, kib: int, u: Unit) {
    match u case Gib => gib != 0 case Mib => gib == 0 != mib case Kib => gib == mib == 0 != kib
  }

  lemma PushesNext(gib: int, mib: int, kib: int, u: Unit)
    requires Int32(gib) == gib && Int32(mib) == mib && Int32(kib) == kib && Due(gib, mib, kib, u)
    ensures
      var g := Turns(if u.Gib? then Int32(gib - 1) else gib);
      var m := Turns(if u.Mib? then Int32(mib - 1) else mib);
      var k := Turns(if u.Kib? then Int32(kib - 1) else kib);
      && Pushes(Turns(gib), Turns(mib), Turns(kib)) == [u] + Pushes(g, m, k)
      && g + m + k == Turns(gib) + Turns(mib) + Turns(kib) - 1
  {
    hide Pushes, Turns, Int32;
    TurnsStep(gib);
    TurnsStep(mib);
    TurnsStep(kib);
    PushesFirst(Turns(gib), Turns(mib), Turns(kib));
  }

  /** The buffers of the frames take what the counts say. */
  lemma {:induction false} PushesBytes(gib: nat, mib: nat, kib: nat)
    ensures Used(Pushes(gib, mib, kib), NO_EXTRA) == gib * GIB + mib * MIB + kib * KIB
    decreases gib + mib + kib
  {
    hide Pushes;
    PushesFirst(gib, mib, kib);
    var frames := Pushes(gib, mib, kib);
    if gib > 0 {
      PushesBytes(gib - 1, mib, kib);
      assert frames[1..] == Pushes(gib - 1, mib, kib);
    } else if mib > 0 {
      PushesBytes(0, mib - 1, kib);
      assert frames[1..] == Pushes(0, mib - 1, kib);
    } else if kib > 0 {
      PushesBytes(0, 0, kib - 1);
      assert frames[1..] == Pushes(0, 0, kib - 1);
    }
  }

  /** The buffer of a frame has its full size, and the first byte of each of its pages is 0xFF. */
  ghost predicate FrameTouched(u: Unit, buffer: seq<word>, pageSize: nat)
    requires 0 < pageSize
  {
    && 8 * |buffer| == Size(u)
    && forall w | 0 <= w < |buffer| && OnStride(8 * w, pageSize) :: buffer[w] % 256 == 255
  }

  ghost predicate AllFramesTouched(frames: seq<Unit>, buffers: seq<seq<word>>, pageSize: nat)
    requires 0 < pageSize
  {
    |buffers| == |frames| && forall i | 0 <= i < |frames| :: FrameTouched(frames[i], buffers[i], pageSize)
  }

  class Stack {
    const pageSize: nat
    const extra: Unit -> nat
    var gib: int
    var mib: int
    var kib: int
    /** Stack pointer, and its value in the last frame that recorded it. */
    var sp: int
    var lastSp: int
    /** Every frame pushed so far, in order, and its buffer once it had been touched. */
    ghost var frames: seq<Unit>
    ghost var buffers: seq<seq<word>>

    constructor (pageSize: nat, extra: Unit -> nat, sp: int)
      ensures this.pageSize == pageSize && this.extra == extra && this.sp == sp
      ensures gib == mib == kib == lastSp == 0 && frames == [] && buffers == []
    {
      this.pageSize, this.extra, this.sp := pageSize, extra, sp;
      gib, mib, kib, lastSp, frames, buffers := 0, 0, 0, 0, [], [];
    }

    /** The page size is a real one, and the counts are `int`s. */
    ghost predicate Ready()
      reads this
    {
      && 16 <= pageSize < WORD / 2 && pageSize % 8 == 0 && Int32(gib) == gib && Int32(mib) == mib && Int32(kib) == kib
      && AllFramesTouched(frames, buffers, pageSize)
    }

    /** stack_limit_func: ends after exactly one frame per counted unit, with the counts at zero and
        the stack pointer back, having recorded the depth below all of the frames. */
    method StackLimit()
      requires Ready()
      modifies this
      ensures Ready() && gib == mib == kib == 0 && sp == old(sp)
      ensures var pushed := Pushes(Turns(old(gib)), Turns(old(mib)), Turns(old(kib)));
        && frames == old(frames) + pushed
        && lastSp == if pushed == [] then old(lastSp) else old(sp) - Used(pushed, extra)
      decreases Turns(gib) + Turns(mib) + Turns(kib), 1
    {
      if gib != 0 {
        Frame(Gib);
      } else if mib != 0 {
        Frame(Mib);
      } else if kib != 0 {
        Frame(Kib);
      }
    }

    /** The frame's buffer, touched page by page. */
    method Buffer(u: Unit) returns (tmp: array<word>)
      requires 16 <= pageSize < WORD / 2 && pageSize % 8 == 0
      ensures fresh(tmp) && FrameTouched(u, tmp[..], pageSize)
    {
      tmp := new word[Size(u) / 8];
      Touch(tmp, pageSize);
    }

    /** The part of a frame function before its recursive call. */
    method Enter(u: Unit)
      requires Ready()
      modifies this
      ensures Ready() && sp == lastSp == old(sp) - Size(u) - extra(u) && frames == old(frames) + [u]
      ensures gib == if u.Gib? then Int32(old(gib) - 1) else old(gib)
      ensures mib == if u.Mib? then Int32(old(mib) - 1) else old(mib)
      ensures kib == if u.Kib? then Int32(old(kib) - 1) else old(kib)
    {
      hide Int32, OnStride, Marked;
      Int32Twice(gib - 1);
      Int32Twice(mib - 1);
      Int32Twice(kib - 1);
      sp := sp - Size(u) - extra(u);
      var tmp := Buffer(u);
      buffers := buffers + [tmp[..]];
      lastSp := sp;
      frames := frames + [u];
      match u {
        case Gib => gib := Int32(gib - 1);
        case Mib => mib := Int32(mib - 1);
        case Kib => kib := Int32(kib - 1);
      }
    }

    /** gib_func, mib_func and kib_func, which differ only in their unit. */
    method Frame(u: Unit)
      requires Ready()
      requires Due(gib, mib, kib, u)
      modifies this
      ensures Ready() && gib == mib == kib == 0 && sp == old(sp)
      ensures var pushed := Pushes(Turns(old(gib)), Turns(old(mib)), Turns(old(kib)));
        frames == old(frames) + pushed && lastSp == old(sp) - Used(pushed, extra)
      decreases Turns(gib) + Turns(mib) + Turns(kib), 0
    {
      hide Pushes, Used, Turns, Int32;
      PushesNext(gib, mib, kib, u);
      Enter(u);
      ghost var inner := Pushes(Turns(gib), Turns(mib), Turns(kib));
      UsedCons(u, inner, extra);
      StackLimit();
      assert frames == old(frames) + ([u] + inner);
      sp := sp + (Size(u) + extra(u));
    }
  }

  /** The whole test: it passes unless the size is zero.  It pushes one buffer for each turn of the
      counts it prints; below 2^61 bytes, and only there, those are the unique split of the size, and
      the buffers hold the size rounded down to a KiB.  The stack depth it then prints is that of its
      frames, or the raw stack pointer when there were none. */
  method StackTest(s: Stack, size: word) returns (passed: bool, gib: int, mib: int, kib: int, used: int)
    requires s.Ready() && s.frames == [] && s.lastSp == 0
    modifies s
    ensures passed <==> size != 0
    ensures |s.buffers| == |s.frames|
    ensures forall i | 0 <= i < |s.frames| ::
      && 8 * |s.buffers[i]| == Size(s.frames[i])
      && forall w | 0 <= w < |s.buffers[i]| && OnStride(8 * w, s.pageSize) :: s.buffers[i][w] % 256 == 255
    ensures passed ==>
      && (Splits(size, gib, mib, kib) <==> size < 0x2000_0000_0000_0000)
      && s.frames == Pushes(Turns(gib), Turns(mib), Turns(kib))
      && s.sp == old(s.sp)
      && used == if s.frames == [] then s.sp else Used(s.frames, s.extra)
    ensures 0 < size < 0x2000_0000_0000_0000 ==>
      && gib == size / GIB && mib == size % GIB / MIB && kib == size % MIB / KIB
      && |s.frames| == gib + mib + kib
      && Used(s.frames, NO_EXTRA) == size - size % KIB
  {
    if size == 0 { return false, 0, 0, 0, 0; }
    hide Splits, Used, Pushes, Turns;
    var firstSp := s.sp;
    gib, mib, kib := ValueToUnit(size);
    s.gib, s.mib, s.kib := gib, mib, kib;
    s.StackLimit();
    used := firstSp - s.lastSp;
    passed := true;
    if size < 0x2000_0000_0000_0000 {
      SplitUnique(size, gib, mib, kib);
      TurnsSame(gib);
      TurnsSame(mib);
      TurnsSame(kib);
      PushesBytes(gib, mib, kib);
    }
  }
}
