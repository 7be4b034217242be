/** Memory policies set page range by page range.  The kernel keeps the policies of a mapping
    as disjoint intervals that each mbind call splits and trims; the tests replay a list of
    overlapping requests and then compare every page with an expectation table. */
module NumaPolicy {
  import opened Intervals

  const NUM_REGION := 7

  datatype Mode = MpolDefault | MpolPreferred | MpolBind | MpolInterleave

  /** A mode and the first word of its node mask. */
  datatype Policy = Policy(mode: Mode, mask: nat)

  const DEFAULT := Policy(MpolDefault, 0)

  /** One mbind request: `pages` pages from page `npoff` of the buffer. */
  datatype Args = Args(mode: Mode, mask: nat, npoff: nat, pages: nat)

  /** The policy of page `p` as the last request covering it left it. */
  function LastWriter(reqs: seq<Args>, p: int): Option<Policy> {
    if reqs == [] then None else
    var r := reqs[|reqs| - 1];
    if r.npoff <= p < r.npoff + r.pages then Some(Policy(r.mode, r.mask)) else LastWriter(reqs[..|reqs| - 1], p)
  }

  function OrDefault(o: Option<Policy>): Policy { if o.Some? then o.value else DEFAULT }

  /** The request stays inside the buffer. */
  predicate InBuffer(r: Args) { r.pages == 0 || r.npoff + r.pages <= NUM_REGION }

  /** It does exactly when every page it names is one of the seven. */
  lemma InBufferIff(r: Args)
    ensures InBuffer(r) <==> forall p | r.npoff <= p < r.npoff + r.pages :: IsRegion(p)
  {
    if r.pages > 0 && !InBuffer(r) { assert !IsRegion(r.npoff + r.pages - 1); }
  }

  predicate IsRegion(p: int) { p in {0, 1, 2, 3, 4, 5, 6} }

  class Buffer {
    var policies: Store<Policy>

    constructor ()
      ensures policies == Empty
    { policies := Empty; }

    /** mbind: refused when the range leaves the mapping, otherwise it overrides what was there. */
    method Mbind(r: Args) returns (ret: int)
      requires Sorted(policies, 0)
      modifies this
      ensures Sorted(policies, 0)
      ensures ret == if InBuffer(r) then 0 else -1
      ensures forall p :: Find(policies, p) ==
                          if InBuffer(r) && r.npoff <= p < r.npoff + r.pages then Some(Policy(r.mode, r.mask))
                          else old(Find(policies, p))
    {
      if !InBuffer(r) { return -1; }
      if 0 < r.pages {
        OverlayCorrect(policies, r.npoff, r.npoff + r.pages, Policy(r.mode, r.mask), 0);
        policies := Overlay(policies, r.npoff, r.npoff + r.pages, Policy(r.mode, r.mask));
      }
      return 0;
    }

    /** get_mempolicy with MPOL_F_ADDR. */
    function Report(p: int): Policy
      reads this
    { OrDefault(Find(policies, p)) }
  }

  /** The replay loop: each request is followed by a get_mempolicy call, which succeeds as
      `probes` says.  Returns how many turns went through; the policies are those of the requests
      accepted so far, including one whose probe failed. */
  method Replay(b: Buffer, reqs: seq<Args>, probes: int -> bool) returns (n: nat)
    requires b.policies == Empty
    modifies b
    ensures n <= |reqs| && Sorted(b.policies, 0)
    ensures forall i | 0 <= i < n :: InBuffer(reqs[i]) && probes(i)
    ensures n < |reqs| ==> !(InBuffer(reqs[n]) && probes(n))
    ensures var done := if n < |reqs| && InBuffer(reqs[n]) then n + 1 else n;
      forall p :: Find(b.policies, p) == LastWriter(reqs[..done], p)
  {
    n := 0;
    while n < |reqs|
      invariant 0 <= n <= |reqs| && Sorted(b.policies, 0)
      invariant forall i | 0 <= i < n :: InBuffer(reqs[i]) && probes(i)
      invariant forall p :: Find(b.policies, p) == LastWriter(reqs[..n], p)
    {
      var ret := b.Mbind(reqs[n]);
      if ret != 0 { return; }
      assert reqs[..n + 1][..n] == reqs[..n];
      if !probes(n) { return; }
      n := n + 1;
    }
  }

  /** Region i is the first whose query fails or whose policy is not the expected one. */
  ghost predicate FirstBad(b: Buffer, expected: seq<Policy>, answers: int -> bool, i: int)
    reads b
  {
    && 0 <= i < |expected| && !(answers(i) && b.Report(i) == expected[i])
    && forall j | 0 <= j < i :: answers(j) && b.Report(j) == expected[j]
  }

  /** mbind_check: compare every region with the table; `answers(i)` says whether the i-th
      get_mempolicy call succeeds, and `words` is how many words of the mask such a call writes:
      enough for max_node bits, the policies' masks being one word long. */
  method MbindCheck(b: Buffer, expected: seq<Policy>, nodeMask: array<nat>, words: nat, answers: int -> bool) returns (ret: int)
    requires |expected| == NUM_REGION && 1 <= words <= nodeMask.Length
    modifies nodeMask
    ensures ret == 0 || ret == -1
    ensures ret == 0 <==> forall i | 0 <= i < NUM_REGION :: answers(i) && b.Report(i) == expected[i]
    ensures ret == 0 ==> nodeMask[0] == expected[NUM_REGION - 1].mask
    ensures ret != 0 ==> exists i :: FirstBad(b, expected, answers, i) && nodeMask[0] == if answers(i) then b.Report(i).mask else 0
    ensures forall j | 1 <= j < nodeMask.Length :: nodeMask[j] == if j < words && answers(0) then 0 else old(nodeMask[j])
  {
    for i := 0 to NUM_REGION
      invariant forall j | 0 <= j < i :: answers(j) && b.Report(j) == expected[j]
      invariant 0 < i ==> nodeMask[0] == expected[i - 1].mask
      invariant forall j | 1 <= j < nodeMask.Length ::
        nodeMask[j] == if 0 < i && j < words then 0 else old(nodeMask[j])
    {
      nodeMask[0] := 0;
      assert !(answers(i) && b.Report(i) == expected[i]) ==> FirstBad(b, expected, answers, i);
      if !answers(i) { return -1; }
      var got := b.Report(i);
      forall j | 0 <= j < words { nodeMask[j] := if j == 0 then got.mask else 0; }
      if got.mode != expected[i].mode { return -1; }
      if nodeMask[0] != expected[i].mask { return -1; }
    }
    return 0;
  }

  /** Every request fits, every call succeeds, and the table is the last-writer table. */
  ghost predicate Passes(reqs: seq<Args>, expected: seq<Policy>, probes: int -> bool, answers: int -> bool)
    requires |expected| == NUM_REGION
  {
    && (forall i | 0 <= i < |reqs| :: InBuffer(reqs[i]) && probes(i))
    && forall i | 0 <= i < NUM_REGION :: answers(i) && expected[i] == OrDefault(LastWriter(reqs, i))
  }

  /** A whole test: replay, then check.  It passes exactly when every request fits and the table
      is the last-writer table of the requests. */
  method MbindTest(reqs: seq<Args>, expected: seq<Policy>, words: nat, probes: int -> bool, answers: int -> bool)
    returns (passed: bool)
    requires |expected| == NUM_REGION && 1 <= words
    ensures passed <==> Passes(reqs, expected, probes, answers)
  {
    var b := new Buffer();
    var n := Replay(b, reqs, probes);
    if n < |reqs| { return false; }
    assert reqs[..n] == reqs;
    var nodeMask := new nat[words];
    var ret := MbindCheck(b, expected, nodeMask, words, answers);
    assert forall i | 0 <= i < NUM_REGION :: b.Report(i) == OrDefault(LastWriter(reqs, i));
    passed := ret == 0;
  }

  // ----- the tables of the suite -----

  function Table(reqs: seq<Args>): seq<Policy> {
    seq(NUM_REGION, i => OrDefault(LastWriter(reqs, i)))
  }

  const INTERLEAVE := Policy(MpolInterleave, 3)
  const PREFERRED := Policy(MpolPreferred, 2)
  const BIND := Policy(MpolBind, 1)

  function Two(npoff1: nat, pages1: nat, npoff2: nat, pages2: nat): seq<Args> {
    [Args(MpolInterleave, 3, npoff1, pages1), Args(MpolBind, 1, npoff2, pages2)]
  }

  function Three(pages1: nat, npoff2: nat, pages2: nat, npoff3: nat, pages3: nat): seq<Args> {
    [Args(MpolInterleave, 3, 1, pages1), Args(MpolPreferred, 2, npoff2, pages2), Args(MpolBind, 1, npoff3, pages3)]
  }

  lemma LastWriterNext(reqs: seq<Args>, r: Args, p: int)
    ensures LastWriter(reqs + [r], p) ==
            if r.npoff <= p < r.npoff + r.pages then Some(Policy(r.mode, r.mask)) else LastWriter(reqs, p)
  {
    assert (reqs + [r])[..|reqs|] == reqs;
  }

  lemma TableTwo(a: nat, m: nat, b: nat, n: nat)
    ensures forall i | 0 <= i < NUM_REGION ::
              Table(Two(a, m, b, n))[i] == (if b <= i < b + n then BIND else if a <= i < a + m then INTERLEAVE else DEFAULT)
  {
    var r := Two(a, m, b, n);
    forall i | 0 <= i < NUM_REGION
      ensures OrDefault(LastWriter(r, i)) == if b <= i < b + n then BIND else if a <= i < a + m then INTERLEAVE else DEFAULT
    {
      LastWriterNext([r[0]], r[1], i);
      LastWriterNext([], r[0], i);
      assert [] + [r[0]] == [r[0]] && [r[0]] + [r[1]] == r;
    }
  }

  lemma TableThree(m: nat, b: nat, n: nat, c: nat, k: nat)
    ensures forall i | 0 <= i < NUM_REGION ::
              Table(Three(m, b, n, c, k))[i] == (if c <= i < c + k then BIND else if b <= i < b + n then PREFERRED else if 1 <= i < 1 + m then INTERLEAVE else DEFAULT)
  {
    var r := Three(m, b, n, c, k);
    forall i | 0 <= i < NUM_REGION
      ensures OrDefault(LastWriter(r, i)) ==
        if c <= i < c + k then BIND else if b <= i < b + n then PREFERRED else if 1 <= i < 1 + m then INTERLEAVE else DEFAULT
    {
      LastWriterNext([r[0], r[1]], r[2], i);
      LastWriterNext([r[0]], r[1], i);
      LastWriterNext([], r[0], i);
      assert [] + [r[0]] == [r[0]] && [r[0]] + [r[1]] == [r[0], r[1]] && [r[0], r[1]] + [r[2]] == r;
    }
  }

  /** The nine overlap patterns of the suite and their expectation tables. */
  lemma SuiteTables()
    ensures DEFAULT == Policy(MpolDefault, 0x00) && INTERLEAVE == Policy(MpolInterleave, 0x03)
    ensures PREFERRED == Policy(MpolPreferred, 0x02) && BIND == Policy(MpolBind, 0x01)
    ensures Table(Two(2, 3, 0, 1)) == [BIND, DEFAULT, INTERLEAVE, INTERLEAVE, INTERLEAVE, DEFAULT, DEFAULT]
    ensures Table(Two(1, 3, 1, 3)) == [DEFAULT, BIND, BIND, BIND, DEFAULT, DEFAULT, DEFAULT]
    ensures Table(Two(1, 3, 0, 5)) == [BIND, BIND, BIND, BIND, BIND, DEFAULT, DEFAULT]
    ensures Table(Two(1, 3, 0, 2)) == [BIND, BIND, INTERLEAVE, INTERLEAVE, DEFAULT, DEFAULT, DEFAULT]
    ensures Table(Two(1, 3, 2, 1)) == [DEFAULT, INTERLEAVE, BIND, INTERLEAVE, DEFAULT, DEFAULT, DEFAULT]
    ensures Table(Two(1, 3, 3, 2)) == [DEFAULT, INTERLEAVE, INTERLEAVE, BIND, BIND, DEFAULT, DEFAULT]
    ensures Table(Three(3, 4, 2, 3, 2)) == [DEFAULT, INTERLEAVE, INTERLEAVE, BIND, BIND, PREFERRED, DEFAULT]
    ensures Table(Three(3, 4, 1, 3, 3)) == [DEFAULT, INTERLEAVE, INTERLEAVE, BIND, BIND, BIND, DEFAULT]
    ensures Table(Three(3, 5, 2, 3, 3)) == [DEFAULT, INTERLEAVE, INTERLEAVE, BIND, BIND, BIND, PREFERRED]
  {
    TableTwo(2, 3, 0, 1);
    TableTwo(1, 3, 1, 3);
    TableTwo(1, 3, 0, 5);
    TableTwo(1, 3, 0, 2);
    TableTwo(1, 3, 2, 1);
    TableTwo(1, 3, 3, 2);
    TableThree(3, 4, 2, 3, 2);
    TableThree(3, 4, 1, 3, 3);
    TableThree(3, 5, 2, 3, 3);
  }

  /** A list of requests, with its table, passes when no call fails. */
  ghost predicate Good(reqs: seq<Args>, table: seq<Policy>) {
    |table| == NUM_REGION && Passes(reqs, table, _ => true, _ => true)
  }

  lemma GoodTable(reqs: seq<Args>, table: seq<Policy>)
    requires Table(reqs) == table && forall i | 0 <= i < |reqs| :: InBuffer(reqs[i])
    ensures Good(reqs, table)
  {
    assert |Table(reqs)| == NUM_REGION;
    forall i | 0 <= i < NUM_REGION ensures table[i] == OrDefault(LastWriter(reqs, i)) {}
  }

  /** The suite's nine tests, mbind 015 to 023, pass on this kernel. */
  lemma SuitePasses()
    ensures Good(Two(2, 3, 0, 1), [BIND, DEFAULT, INTERLEAVE, INTERLEAVE, INTERLEAVE, DEFAULT, DEFAULT])
    ensures Good(Two(1, 3, 1, 3), [DEFAULT, BIND, BIND, BIND, DEFAULT, DEFAULT, DEFAULT])
    ensures Good(Two(1, 3, 0, 5), [BIND, BIND, BIND, BIND, BIND, DEFAULT, DEFAULT])
    ensures Good(Two(1, 3, 0, 2), [BIND, BIND, INTERLEAVE, INTERLEAVE, DEFAULT, DEFAULT, DEFAULT])
    ensures Good(Two(1, 3, 2, 1), [DEFAULT, INTERLEAVE, BIND, INTERLEAVE, DEFAULT, DEFAULT, DEFAULT])
    ensures Good(Two(1, 3, 3, 2), [DEFAULT, INTERLEAVE, INTERLEAVE, BIND, BIND, DEFAULT, DEFAULT])
    ensures Good(Three(3, 4, 2, 3, 2), [DEFAULT, INTERLEAVE, INTERLEAVE, BIND, BIND, PREFERRED, DEFAULT])
    ensures Good(Three(3, 4, 1, 3, 3), [DEFAULT, INTERLEAVE, INTERLEAVE, BIND, BIND, BIND, DEFAULT])
    ensures Good(Three(3, 5, 2, 3, 3), [DEFAULT, INTERLEAVE, INTERLEAVE, BIND, BIND, BIND, PREFERRED])
  {
    hide Table, Good;
    SuiteTables();
    GoodTable(Two(2, 3, 0, 1), Table(Two(2, 3, 0, 1)));
    GoodTable(Two(1, 3, 1, 3), Table(Two(1, 3, 1, 3)));
    GoodTable(Two(1, 3, 0, 5), Table(Two(1, 3, 0, 5)));
    GoodTable(Two(1, 3, 0, 2), Table(Two(1, 3, 0, 2)));
    GoodTable(Two(1, 3, 2, 1), Table(Two(1, 3, 2, 1)));
    GoodTable(Two(1, 3, 3, 2), Table(Two(1, 3, 3, 2)));
    GoodTable(Three(3, 4, 2, 3, 2), Table(Three(3, 4, 2, 3, 2)));
    GoodTable(Three(3, 4, 1, 3, 3), Table(Three(3, 4, 1, 3, 3)));
    GoodTable(Three(3, 5, 2, 3, 3), Table(Three(3, 5, 2, 3, 3)));
  }
}
