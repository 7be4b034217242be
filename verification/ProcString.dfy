/** The read handler behind the driver's procfs string files: it copies from the file position on,
    trims the request at the end of the string and advances the position.  Positions and sizes are
    64-bit words, so the end-of-request sum can wrap. */
module ProcString {

  import opened Words

  const EFAULT := 14

  /** One read: the requested size, and whether copying a non-empty range to the user faults. */
  datatype Request = Request(nbytes: nat, fault: bool)

  /** Return value, bytes delivered, and position afterwards. */
  datatype Outcome = Outcome(ret: int, chunk: seq<byte>, pos: nat)

  /** Signed reading of a 64-bit word, as the handler returns its count. */
  function Signed(w: nat): int { if w < WORD / 2 then w else w - WORD }

  /** What a read is to do: deliver the part of the text between the position and the end of the
      request, or report a fault and stay. */
  function Ideal(text: seq<byte>, pos: nat, q: Request): Outcome {
    if pos > |text| then Outcome(0, [], pos) else
    var chunk := text[pos..Min(|text|, pos + q.nbytes)];
    if q.fault && chunk != [] then Outcome(-EFAULT, [], pos) else
    Outcome(|chunk|, chunk, pos + |chunk|)
  }

  /** The count bytes of memory from an offset into the string on. */
  function Memory(text: seq<byte>, beyond: int -> byte, from: nat, count: nat): (r: seq<byte>)
    ensures |r| == count
    ensures from + count <= |text| ==> r == text[from..from + count]
    ensures forall i | 0 <= i < count :: r[i] == if from + i < |text| then text[from + i] else beyond(from + i)
    decreases count
  {
    if count == 0 then [] else
    [if from < |text| then text[from] else beyond(from)] + Memory(text, beyond, from + 1, count - 1)
  }

  /** The byte count after the handler's end-of-text test. */
  function Trimmed(len: nat, pos: nat, nbytes: nat): nat
    requires pos <= len
  { if (pos + nbytes) % WORD > len then len - pos else nbytes }

  /** Without a wrap it is what is left of the text; with one it is the whole request. */
  lemma TrimmedIs(len: nat, pos: nat, nbytes: nat)
    requires pos <= len < WORD / 2 && nbytes < WORD
    ensures var count := Trimmed(len, pos, nbytes);
      if pos + nbytes < WORD then count == Min(len, pos + nbytes) - pos && (pos + count) % WORD == pos + count
      else count == nbytes > len - pos && (pos + count) % WORD == pos + count - WORD
  {}

  class File {
    const text: seq<byte>
    /** What lies in memory after the string. */
    const beyond: int -> byte
    var pos: nat

    constructor (t: seq<byte>, after: int -> byte)
      ensures text == t && beyond == after && pos == 0
    { text, beyond, pos := t, after, 0; }

    /** test_mck_procfs_string_read.  It does what it is to do exactly when the position is past
        the end, or the end of the request does not wrap, or a fault hides the difference. */
    method Read(q: Request) returns (ret: int, chunk: seq<byte>)
      requires |text| < WORD / 2 && pos < WORD && q.nbytes < WORD
      modifies this`pos
      ensures Outcome(ret, chunk, pos) == Ideal(text, old(pos), q) <==>
        Straight(text, old(pos), q)
      ensures old(pos) <= |text| && old(pos) + q.nbytes >= WORD && !q.fault ==>
        && ret == q.nbytes - WORD && pos == old(pos) + q.nbytes - WORD
        && |chunk| == q.nbytes > |text| - old(pos)
        && forall i | 0 <= i < |chunk| :: chunk[i] == if old(pos) + i < |text| then text[old(pos) + i] else beyond(old(pos) + i)
      ensures old(pos) <= |text| && old(pos) + q.nbytes >= WORD && q.fault ==> ret == -14 && chunk == [] && pos == old(pos)
      ensures pos < WORD
    {
      IdealAdvance(text, pos, q);
      hide Ideal, Memory;
      if pos > |text| { return 0, []; }
      var count := Trimmed(|text|, pos, q.nbytes);
      TrimmedIs(|text|, pos, q.nbytes);
      hide Trimmed;
      if q.fault && count > 0 { return -EFAULT, []; }
      chunk := Memory(text, beyond, pos, count);
      pos := (pos + count) % WORD;
      ret := Signed(count);
    }
  }

  /** The outcomes of a sequence of reads that do what they are to do. */
  function Run(text: seq<byte>, pos: nat, qs: seq<Request>): seq<Outcome>
    decreases |qs|
  {
    if qs == [] then [] else
    var o := Ideal(text, pos, qs[0]);
    [o] + Run(text, o.pos, qs[1..])
  }

  /** The bytes delivered by outcomes, and the position they lead to. */
  function Bytes(os: seq<Outcome>): seq<byte> { if os == [] then [] else os[0].chunk + Bytes(os[1..]) }
  function End(pos: nat, os: seq<Outcome>): nat
    decreases |os|
  { if os == [] then pos else End(os[0].pos, os[1..]) }

  /** Bytes asked for by the requests that do not fault. */
  function Asked(qs: seq<Request>): nat {
    if qs == [] then 0 else (if qs[0].fault then 0 else qs[0].nbytes) + Asked(qs[1..])
  }

  lemma IdealAdvance(text: seq<byte>, pos: nat, q: Request)
    ensures var o := Ideal(text, pos, q);
      if pos > |text| then o == Outcome(0, [], pos)
      else
        && o.pos == Min(|text|, pos + (if q.fault then 0 else q.nbytes)) && o.chunk == text[pos..o.pos]
        && o.ret == if q.fault && pos < |text| && q.nbytes > 0 then -EFAULT else o.pos - pos
  {
    if pos > |text| { return; }
    var stop := Min(|text|, pos + q.nbytes);
    assert |text[pos..stop]| == stop - pos;
  }

  /** Any sequence of reads delivers exactly the text between the first and the last position,
      which is where the requests that did not fault lead, cut at the end of the text. */
  lemma {:induction false} RunDelivers(text: seq<byte>, pos: nat, qs: seq<Request>)
    requires pos <= |text|
    ensures var os := Run(text, pos, qs);
      End(pos, os) == Min(|text|, pos + Asked(qs)) && Bytes(os) == text[pos..End(pos, os)]
    decreases |qs|
  {
    if qs == [] { return; }
    hide Ideal, Bytes, End;
    var o := Ideal(text, pos, qs[0]);
    var rest := Run(text, o.pos, qs[1..]);
    RunDelivers(text, o.pos, qs[1..]);
    IdealAdvance(text, pos, qs[0]);
    FirstOutcome(pos, o, rest);
    Slices(text, pos, o.pos, End(o.pos, rest));
  }

  lemma FirstOutcome(pos: nat, o: Outcome, rest: seq<Outcome>)
    ensures Bytes([o] + rest) == o.chunk + Bytes(rest) && End(pos, [o] + rest) == End(o.pos, rest)
  {
    assert ([o] + rest)[1..] == rest;
  }

  lemma Slices(text: seq<byte>, a: nat, b: nat, c: nat)
    requires a <= b <= c <= |text|
    ensures text[a..b] + text[b..c] == text[a..c]
  {}

  /** Requests that ask for the whole text get the whole text, after which every read returns 0
      and stays. */
  lemma WholeText(text: seq<byte>, qs: seq<Request>, q: Request)
    requires Asked(qs) >= |text|
    ensures Bytes(Run(text, 0, qs)) == text && End(0, Run(text, 0, qs)) == |text|
    ensures Ideal(text, |text|, q) == Outcome(0, [], |text|)
  {
    hide Run, Bytes, End, Asked;
    RunDelivers(text, 0, qs);
    assert text[0..|text|] == text;
  }

  /** The request does not wrap from this position, or it cannot be seen to. */
  predicate Straight(text: seq<byte>, pos: nat, q: Request) {
    pos > |text| || pos + q.nbytes < WORD || (q.fault && pos < |text|)
  }

  predicate AllStraight(text: seq<byte>, pos: nat, qs: seq<Request>)
    decreases |qs|
  {
    qs == [] || (Straight(text, pos, qs[0]) && AllStraight(text, Ideal(text, pos, qs[0]).pos, qs[1..]))
  }

  /** A reader that calls the handler once per request: what it gets is the run of its requests
      exactly when none of them wraps where that run would make it. */
  method ReadAll(f: File, qs: seq<Request>) returns (os: seq<Outcome>)
    requires |f.text| < WORD / 2 && f.pos < WORD && forall k | 0 <= k < |qs| :: qs[k].nbytes < WORD
    modifies f`pos
    ensures |os| == |qs| && f.pos == End(old(f.pos), os) < WORD
    ensures os == Run(f.text, old(f.pos), qs) <==> AllStraight(f.text, old(f.pos), qs)
    decreases |qs|
  {
    if qs == [] { return []; }
    ghost var pos := f.pos;
    var ret, chunk := f.Read(qs[0]);
    var o := Outcome(ret, chunk, f.pos);
    var rest := ReadAll(f, qs[1..]);
    os := [o] + rest;
    assert os[0] == o && os[1..] == rest;
    hide Ideal;
    ghost var run := Run(f.text, pos, qs);
    assert run[0] == Ideal(f.text, pos, qs[0]) && run[1..] == Run(f.text, run[0].pos, qs[1..]);
    assert os == run <==> os[0] == run[0] && os[1..] == run[1..] by { assert os == [os[0]] + os[1..] && run == [run[0]] + run[1..]; }
  }
}
