/** A file whose page p starts with byte p mod 256 is mapped and then remapped page by page in
    reverse order; a compare loop checks the result.  Page numbers are kept in an `int`, and the
    comparison reads through plain `char`, which is unsigned on aarch64 and signed on x86. */
module RemapFilePages {

  import opened Words

  /** remap_file_pages_hash */
  function Hash(page: nat): byte { page % 256 }

  /** Value of a plain `char` holding byte b. */
  function CharValue(b: byte, signed: bool): int { if signed && 128 <= b then b - 256 else b }

  lemma CharIs(b: byte, signed: bool)
    ensures var v := CharValue(b, signed);
      v % 256 == b && if signed then -128 <= v < 128 else 0 <= v < 256
  {}

  /** Contents of page p of the created file: its hash, then zeroes. */
  function Page(p: nat, pageSize: nat): (r: seq<byte>)
    requires 0 < pageSize
    ensures |r| == pageSize && r[0] == Hash(p)
  { [Hash(p)] + seq(pageSize - 1, _ => 0) }

  /** The file left by n writes, the p-th of which stores so many bytes of its page: all of them, some,
      or none if it fails. */
  function Written(n: nat, pageSize: nat, stored: int -> nat): seq<byte>
    requires 0 < pageSize
  {
    if n == 0 then [] else
    Written(n - 1, pageSize, stored) + Page(n - 1, pageSize)[..Min(stored(n - 1), pageSize)]
  }

  lemma PageStart(p: nat, n: nat, pageSize: nat)
    requires 0 < pageSize && p < n
    ensures 0 <= p * pageSize < p * pageSize + pageSize <= n * pageSize
  {
    assert (n - p - 1) * pageSize >= 0;
    assert n * pageSize == p * pageSize + pageSize + (n - p - 1) * pageSize;
  }

  /** When every write is complete, page p of the file starts with the hash of p. */
  lemma {:induction false} WrittenAll(n: nat, pageSize: nat, stored: int -> nat, p: nat)
    requires 0 < pageSize && forall q | 0 <= q < n :: stored(q) >= pageSize
    ensures |Written(n, pageSize, stored)| == n * pageSize
    ensures p < n ==> p * pageSize < n * pageSize && Written(n, pageSize, stored)[p * pageSize] == Hash(p)
  {
    hide Page, Hash;
    if 0 < n {
      WrittenAll(n - 1, pageSize, stored, p);
      assert n * pageSize == (n - 1) * pageSize + pageSize;
      var last := Page(n - 1, pageSize);
      assert last[..pageSize] == last;
      if p < n { PageStart(p, n, pageSize); }
      if p < n - 1 { PageStart(p, n - 1, pageSize); }
    }
  }

  /** Pages written at most: the counter is an `int`. */
  function WriteCount(size: word, pageSize: nat): nat
    requires 0 < pageSize
  { if size / pageSize <= INT / 2 then size / pageSize else INT / 2 }

  lemma PagesBelow(size: word, pageSize: nat)
    requires 4096 <= pageSize
    ensures 0 <= size / pageSize < WORD - INT
  {
    var n := size / pageSize;
    assert n >= WORD - INT ==> n * pageSize >= (WORD - INT) * 4096;
  }

  /** remap_file_pages_create_file: the one-page buffer is zeroed once, and only its first byte
      changes from write to write.  Failed and incomplete writes go unnoticed. */
  method CreateFile(size: word, pageSize: nat, stored: int -> nat) returns (file: seq<byte>)
    requires 4096 <= pageSize
    ensures file == Written(WriteCount(size, pageSize), pageSize, stored)
  {
    hide Int32, WriteCount, Page, Hash;
    var n := size / pageSize;
    var buf := new byte[pageSize](_ => 0);
    file := [];
    var page := 0;
    ghost var turns := 0;
    WriteTurn(size, pageSize, 0);
    while page % WORD < n
      invariant 0 <= turns <= WriteCount(size, pageSize) && page == Int32(turns)
      invariant file == Written(turns, pageSize, stored)
      invariant forall k | 1 <= k < pageSize :: buf[k] == 0
      decreases WriteCount(size, pageSize) - turns
    {
      WriteTurn(size, pageSize, turns);
      buf[0] := Hash(page);
      PageIs(buf[..], page);
      file := file + buf[..][..Min(stored(page), pageSize)];
      page := Int32(page + 1);
      turns := turns + 1;
    }
    WriteTurn(size, pageSize, turns);
  }

  lemma PageIs(buf: seq<byte>, p: nat)
    requires |buf| > 0 && buf[0] == Hash(p) && forall k | 1 <= k < |buf| :: buf[k] == 0
    ensures buf == Page(p, |buf|)
  {}

  /** The write loop's `int` counter after a number of turns, and when it stops the loop. */
  lemma WriteTurn(size: word, pageSize: nat, turns: nat)
    requires 4096 <= pageSize && turns <= WriteCount(size, pageSize)
    ensures Int32(0) == 0
    ensures Int32(turns) % WORD < size / pageSize <==> turns < WriteCount(size, pageSize)
    ensures turns < WriteCount(size, pageSize) ==> Int32(turns) == turns
  {
    hide Int32;
    PagesBelow(size, pageSize);
    assert Int32(0) == 0 by { CounterTurn(0, 0); }
    CounterTurn(size / pageSize, turns);
  }

  lemma CounterTurn(n: nat, turns: nat)
    requires n < WORD - INT && turns <= n && turns <= INT / 2
    ensures turns < INT / 2 ==> Int32(turns) == turns && Int32(turns) % WORD == turns
    ensures turns == INT / 2 ==> Int32(turns) % WORD == WORD - INT / 2 >= n
  {}

  /** The number of the last page as the remap and compare loops compute it. */
  function LastPage(size: word, pageSize: nat): int
    requires 0 < pageSize
  { Int32((size / pageSize - 1) % WORD) }

  /** It is the last page exactly up to 2^31 pages. */
  lemma LastPageIff(size: word, pageSize: nat)
    requires 4096 <= pageSize
    ensures LastPage(size, pageSize) == size / pageSize - 1 <==> size / pageSize <= INT / 2
    ensures -(INT / 2) <= LastPage(size, pageSize) < WriteCount(size, pageSize) <= size / pageSize
  {
    PagesBelow(size, pageSize);
    var n := size / pageSize;
    hide WriteCount;
    if n == 0 { assert (n - 1) % WORD == WORD - 1; } else { assert (n - 1) % WORD == n - 1; }
    assert WriteCount(size, pageSize) == if n <= INT / 2 then n else INT / 2;
  }

  /** A shared mapping of n pages of a file: mapping page j shows file page `shows[j]`. */
  class Mapping {
    const file: seq<byte>
    const pageSize: nat
    const shows: array<nat>
    /** How often each page has been remapped. */
    ghost var remaps: seq<nat>

    constructor (f: seq<byte>, n: nat, pageSize: nat)
      ensures Valid() && file == f && this.pageSize == pageSize && fresh(shows) && shows.Length == n
      ensures forall j | 0 <= j < n :: shows[j] == j
      ensures remaps == seq(n, _ => 0)
    {
      file := f;
      this.pageSize := pageSize;
      shows := new nat[n](i => i);
      remaps := seq(n, _ => 0);
    }

    ghost predicate Valid()
      reads this
    { shows.Length == |remaps| }

    /** remap_file_pages on one page. */
    method Remap(page: nat, pgoff: nat, denied: bool) returns (status: int)
      requires Valid() && page < shows.Length
      modifies this`remaps, shows
      ensures Valid() && status == if denied then -1 else 0
      ensures shows[..] == if denied then old(shows[..]) else old(shows[..])[page := pgoff]
      ensures remaps == if denied then old(remaps) else old(remaps)[page := old(remaps[page]) + 1]
    {
      if denied { return -1; }
      shows[page] := pgoff;
      remaps := remaps[page := remaps[page] + 1];
      return 0;
    }
  }

  /** Of the mapping pages 0 .. last, the final k have been remapped once each, to file pages
      0, ..., k - 1 from the end backwards; no other page has been touched. */
  ghost predicate Reversed(m: Mapping, last: int, k: nat, before: seq<int>)
    reads m, m.shows
  {
    && m.Valid() && |before| == m.shows.Length > last && (k == 0 || k <= last + 1)
    && (forall j | 0 <= j && last - k < j <= last :: m.shows[j] == last - j && m.remaps[j] == 1)
    && (forall j | 0 <= j < m.shows.Length && !(last - k < j <= last) :: m.shows[j] == before[j] && m.remaps[j] == 0)
  }

  /** The reversing loop stops at the first refused file page, if any, having remapped exactly the
      mapping pages that come before it in loop order. */
  method Reverse(m: Mapping, last: int, denied: int -> bool) returns (done: nat)
    requires m.Valid() && m.remaps == seq(m.shows.Length, _ => 0) && last < m.shows.Length
    modifies m, m.shows
    ensures Reversed(m, last, done, old(m.shows[..]))
    ensures forall p | 0 <= p < done :: !denied(p)
    ensures done <= last ==> denied(done)
  {
    ghost var n := m.shows.Length;
    var mmapPage, filePage := last, 0;
    while mmapPage >= 0
      invariant mmapPage + filePage == last && (filePage == 0 || -1 <= mmapPage)
      invariant Reversed(m, last, filePage, old(m.shows[..]))
      invariant forall p | 0 <= p < filePage :: !denied(p)
    {
      ghost var before := m.shows[..];
      var status := m.Remap(mmapPage, filePage, denied(filePage));
      assert forall j | 0 <= j < n && j != mmapPage :: m.shows[..][j] == before[j];
      if status != 0 {
        assert m.shows[..][mmapPage] == before[mmapPage];
        return filePage;
      }
      assert m.shows[..][mmapPage] == filePage;
      mmapPage, filePage := mmapPage - 1, filePage + 1;
    }
    return filePage;
  }

  /** Page p of the file starts, as `char` reads it, with `h`. */
  predicate Shows(file: seq<byte>, pageSize: nat, p: nat, h: byte, signed: bool) {
    0 <= p * pageSize < |file| && CharValue(file[p * pageSize], signed) == h
  }

  datatype Verdict = Pass | Mismatch | Signal | CallFailed

  /** remap_file_pages_compare: succeeds exactly when each page's first byte, read as a `char`, is the
      hash expected after reversal; reading past the end of the file is a fatal signal. */
  method Compare(m: Mapping, last: int, signed: bool) returns (v: Verdict)
    requires m.Valid() && last < m.shows.Length
    ensures v == Pass <==> forall j | 0 <= j <= last :: Shows(m.file, m.pageSize, m.shows[j], Hash(last - j), signed)
    ensures v != CallFailed
  {
    var remapPage, origPage := 0, last;
    while origPage >= 0
      invariant 0 <= remapPage && remapPage + origPage == last && (remapPage == 0 || -1 <= origPage)
      invariant forall j | 0 <= j < remapPage :: Shows(m.file, m.pageSize, m.shows[j], Hash(last - j), signed)
    {
      var p := m.shows[remapPage] * m.pageSize;
      if !(0 <= p < |m.file|) {
        assert !Shows(m.file, m.pageSize, m.shows[remapPage], Hash(last - remapPage), signed);
        return Signal;
      }
      if CharValue(m.file[p], signed) != Hash(origPage) {
        assert !Shows(m.file, m.pageSize, m.shows[remapPage], Hash(last - remapPage), signed);
        return Mismatch;
      }
      remapPage, origPage := remapPage + 1, origPage - 1;
    }
    return Pass;
  }

  /** A reversed mapping is accepted exactly when every file page up to the last starts with its hash. */
  lemma ReversedMatches(m: Mapping, last: int, signed: bool, before: seq<int>)
    requires -1 <= last && Reversed(m, last, last + 1, before)
    ensures (forall j | 0 <= j <= last :: Shows(m.file, m.pageSize, m.shows[j], Hash(last - j), signed))
      <==> (forall p | 0 <= p <= last :: Shows(m.file, m.pageSize, p, Hash(p), signed))
  {
    hide Shows, Hash;
    if forall j | 0 <= j <= last :: Shows(m.file, m.pageSize, m.shows[j], Hash(last - j), signed) {
      forall p | 0 <= p <= last ensures Shows(m.file, m.pageSize, p, Hash(p), signed) {
        assert m.shows[last - p] == p;
      }
    }
  }

  /** A fully written file passes always with an unsigned `char`, and exactly up to 128 pages with a
      signed one. */
  lemma FullFileIff(n: nat, pageSize: nat, stored: int -> nat, last: int, signed: bool)
    requires 0 < pageSize && last < n && forall p | 0 <= p < n :: stored(p) >= pageSize
    ensures var file := Written(n, pageSize, stored);
      (forall p | 0 <= p <= last :: Shows(file, pageSize, p, Hash(p), signed)) <==> !signed || last < 128
  {
    hide Written, Page;
    var file := Written(n, pageSize, stored);
    forall p | 0 <= p <= last
      ensures Shows(file, pageSize, p, Hash(p), signed) <==> CharValue(Hash(p), signed) == Hash(p)
    {
      WrittenAll(n, pageSize, stored, p);
      PageStart(p, n, pageSize);
    }
    if signed && 128 <= last {
      assert CharValue(Hash(128), signed) != Hash(128);
      assert !Shows(file, pageSize, 128, Hash(128), signed);
    }
  }

  /** Up to 256 pages nothing but the reversed mapping of a fully written file is accepted. */
  lemma OnlyReversedPasses(m: Mapping, n: nat, stored: int -> nat, last: int, signed: bool)
    requires 0 < m.pageSize && n <= 256 && last < m.shows.Length && forall p | 0 <= p < n :: stored(p) >= m.pageSize
    requires last < n && m.file == Written(n, m.pageSize, stored)
    requires forall j | 0 <= j <= last :: Shows(m.file, m.pageSize, m.shows[j], Hash(last - j), signed)
    ensures forall j | 0 <= j <= last :: m.shows[j] == last - j
  {
    hide Written, Page;
    forall j | 0 <= j <= last ensures m.shows[j] == last - j {
      var q := m.shows[j];
      WrittenAll(n, m.pageSize, stored, q);
      StartsInside(q, n, m.pageSize);
      SameHash(q, last - j, signed);
    }
  }

  lemma StartsInside(q: nat, n: nat, pageSize: nat)
    requires q * pageSize < n * pageSize
    ensures q < n
  {
    assert q >= n ==> (q - n) * pageSize >= 0;
    assert (q - n) * pageSize == q * pageSize - n * pageSize;
  }

  /** The hash tells 256 pages apart. */
  lemma SameHash(p: nat, q: nat, signed: bool)
    ensures CharValue(Hash(p), signed) == Hash(q) ==> p % 256 == q % 256
    ensures p < 256 ==> Hash(p) == p
  {}

  /** The whole test, whatever calls fail: it passes exactly when the mapping is made, no remap up to
      the computed last page is refused, and every file page up to there starts with its hash as
      `char` reads it. */
  method RemapTest(size: word, pageSize: nat, signed: bool, mapped: bool, stored: int -> nat, denied: int -> bool)
    returns (v: Verdict)
    requires 4096 <= pageSize
    ensures var last, file := LastPage(size, pageSize), Written(WriteCount(size, pageSize), pageSize, stored);
      v == Pass <==>
        && mapped
        && (forall p | 0 <= p <= last :: !denied(p))
        && (forall p | 0 <= p <= last :: Shows(file, pageSize, p, Hash(p), signed))
    ensures v == CallFailed <==> !(mapped && forall p | 0 <= p <= LastPage(size, pageSize) :: !denied(p))
    ensures (forall p | 0 <= p < WriteCount(size, pageSize) :: stored(p) >= pageSize) ==>
      var last := LastPage(size, pageSize);
      (v == Pass <==> mapped && (forall p | 0 <= p <= last :: !denied(p)) && (!signed || last < 128))
  {
    hide Written, Page, LastPage, WriteCount, Hash, CharValue;
    var file := CreateFile(size, pageSize, stored);
    ghost var n := WriteCount(size, pageSize);
    var last := LastPage(size, pageSize);
    LastPageIff(size, pageSize);
    if forall p | 0 <= p < n :: stored(p) >= pageSize { FullFileIff(n, pageSize, stored, last, signed); }
    if !mapped { return CallFailed; }
    var m := new Mapping(file, size / pageSize, pageSize);
    ghost var before := m.shows[..];
    var done := Reverse(m, last, denied);
    if done <= last { return CallFailed; }
    v := Compare(m, last, signed);
    if last >= -1 { ReversedMatches(m, last, signed, before); }
  }

  /** With 2^31 + 1 pages the last page comes out negative: nothing is remapped or compared, and the
      test passes even with a signed `char`. */
  lemma NothingCompared()
    ensures LastPage(0x8000_0001 * 4096, 4096) < 0
  {}
}
