/** Node masks: arrays of 64-bit words in which bit i of word w stands for node 64 w + i.
    The builder and the checker both form the last word with the C expression
    `(1 << s) - 1`, whose operand is a 32-bit int: the shift uses s modulo 32 (as the
    hardware does; C itself defines it only up to s = 30).  The loops count words in an `int`.
 */
module NodeMask {

  import opened Words

  function Pow2(k: nat): (p: nat)
    ensures 0 < p
  { if k == 0 then 1 else 2 * Pow2(k - 1) }

  lemma {:induction false} Pow2Sum(a: nat, b: nat)
    ensures Pow2(a + b) == Pow2(a) * Pow2(b)
  {
    if b > 0 { Pow2Sum(a, b - 1); }
  }

  lemma Pow2Two()
    ensures Pow2(2) == 4
  {}

  lemma Pow2Word()
    ensures Pow2(64) == WORD
  {
    hide Pow2;
    Pow2Two();
    Pow2Sum(2, 2);
    Pow2Sum(4, 4);
    Pow2Sum(8, 8);
    Pow2Sum(16, 16);
    Pow2Sum(32, 32);
  }

  /** ULLONG_MAX */
  const ALL_ONES: word := WORD - 1

  predicate Bit(w: nat, b: nat) { if b == 0 then w % 2 == 1 else Bit(w / 2, b - 1) }

  /** Node `i` is in the mask. */
  predicate Node(ws: seq<word>, i: nat)
    requires i < 64 * |ws|
  {
    Bit(ws[i / 64], i % 64)
  }

  /** The mask holds exactly the nodes 0 .. n - 1. */
  ghost predicate IsRange(ws: seq<word>, n: nat) {
    forall i | 0 <= i < 64 * |ws| :: Node(ws, i) <==> i < n
  }

  /** `(1 << s) - 1` in 32-bit arithmetic, converted to an unsigned 64-bit word. */
  function IntMask(s: nat): (w: word) {
    Pow2Monotone(s % 32, 64);
    Pow2Word();
    Pow2(s % 32) - 1
  }

  // ----- bits -----

  lemma {:induction false} Pow2Monotone(a: nat, b: nat)
    requires a <= b
    ensures Pow2(a) <= Pow2(b) && (a < b ==> Pow2(a) < Pow2(b))
    decreases b
  {
    if a < b { Pow2Monotone(a, b - 1); }
  }

  /** The low k ones: bit b is set exactly when b < k. */
  lemma {:induction false} OnesBit(k: nat, b: nat)
    ensures Bit(Pow2(k) - 1, b) <==> b < k
    decreases b
  {
    if k > 0 {
      assert (Pow2(k) - 1) / 2 == Pow2(k - 1) - 1;
      if b > 0 { OnesBit(k - 1, b - 1); }
    } else if b > 0 {
      OnesBit(0, b - 1);
    }
  }

  /** Two words of k bits with the same bits are equal. */
  lemma {:induction false} BitsDetermine(v: nat, w: nat, k: nat)
    requires v < Pow2(k) && w < Pow2(k)
    requires forall b | 0 <= b < k :: Bit(v, b) <==> Bit(w, b)
    ensures v == w
    decreases k
  {
    if k > 0 {
      assert Bit(v, 0) <==> Bit(w, 0);
      forall b | 0 <= b < k - 1 ensures Bit(v / 2, b) <==> Bit(w / 2, b) {
        assert Bit(v, b + 1) <==> Bit(w, b + 1);
      }
      BitsDetermine(v / 2, w / 2, k - 1);
    }
  }

  /** Exactly the low k of the 64 bits are set. */
  ghost predicate LowOnes(w: nat, k: nat) { forall b | 0 <= b < 64 :: Bit(w, b) <==> b < k }

  lemma OnesIff(w: word, k: nat)
    requires k <= 64
    ensures w == Pow2(k) - 1 <==> LowOnes(w, k)
  {
    hide Pow2, Bit;
    Pow2Word();
    Pow2Monotone(k, 64);
    var ones := Pow2(k) - 1;
    forall b | 0 <= b < 64 ensures Bit(ones, b) <==> b < k { OnesBit(k, b); }
    assert LowOnes(ones, k);
    if LowOnes(w, k) { BitsDetermine(w, ones, 64); }
  }

  // ----- masks as sets of nodes -----

  function Clamp(x: int): nat { if x < 0 then 0 else if x > 64 then 64 else x }

  /** Word j of the mask for the range 0 .. n - 1. */
  predicate RangeWord(w: word, n: nat, j: nat) { w == Pow2(Clamp(n - 64 * j)) - 1 }

  lemma RangeWordHere(ws: seq<word>, n: nat, j: nat)
    requires IsRange(ws, n) && j < |ws|
    ensures RangeWord(ws[j], n, j)
  {
    forall b | 0 <= b < 64 ensures Bit(ws[j], b) <==> b < Clamp(n - 64 * j) {
      assert Node(ws, 64 * j + b) <==> 64 * j + b < n;
    }
    OnesIff(ws[j], Clamp(n - 64 * j));
  }

  lemma RangeBitHere(ws: seq<word>, n: nat, i: nat)
    requires i < 64 * |ws| && RangeWord(ws[i / 64], n, i / 64)
    ensures Node(ws, i) <==> i < n
  {
    OnesBit(Clamp(n - 64 * (i / 64)), i % 64);
  }

  /** A mask is the range 0 .. n - 1 iff each word is the right run of ones. */
  lemma RangeIff(ws: seq<word>, n: nat)
    ensures IsRange(ws, n) <==> forall j | 0 <= j < |ws| :: RangeWord(ws[j], n, j)
  {
    if IsRange(ws, n) {
      forall j | 0 <= j < |ws| ensures RangeWord(ws[j], n, j) { RangeWordHere(ws, n, j); }
    }
    hide RangeWord, Node;
    if forall j | 0 <= j < |ws| :: RangeWord(ws[j], n, j) {
      forall i | 0 <= i < 64 * |ws| ensures Node(ws, i) <==> i < n { RangeBitHere(ws, n, i); }
    }
  }

  // ----- the code -----

  /** create_node_mask */
  method CreateNodeMask(maxNode: word) returns (mask: array<word>)
    ensures fresh(mask) && mask.Length == WordsFor(maxNode)
    ensures forall j | 0 <= j < mask.Length :: mask[j] == 0
  {
    var nr := (maxNode + 63) % WORD / 64;
    if nr == 0 { nr := 1; }
    mask := new word[nr](_ => 0);
  }

  /** The words needed for so many nodes, in 64-bit arithmetic: the fewest that hold them and at least
      one, but one only where the rounding wraps. */
  function WordsFor(maxNode: word): (n: nat)
    ensures 1 <= n <= WORD / 64
    ensures if maxNode <= WORD - 64 then maxNode <= 64 * n < maxNode + 64 + (if maxNode == 0 then 1 else 0) else n == 1
  { Max(1, (maxNode + 63) % WORD / 64) }

  lemma WordsForNext(maxNode: word)
    ensures WordsFor((maxNode + 1) % WORD) == if maxNode < WORD - 64 then maxNode / 64 + 1 else 1
  {}

  /** Mask of `len` words as the mbind test builds it: all ones, then the int expression; words that
      the counter does not reach stay zero. */
  function Built(len: nat, maxNode: nat): seq<word> {
    seq(len, j => BuiltWord(len, maxNode, j))
  }

  function BuiltWord(len: nat, maxNode: nat, j: int): word {
    if j >= INT / 2 then 0 else if j == len - 1 then IntMask(maxNode % 64 + 1) else ALL_ONES
  }

  /** The counter after a number of turns, and when it stops the loop. */
  lemma CounterTurn(len: nat, turns: nat)
    requires len <= WORD / 64 && turns <= len && turns <= INT / 2
    ensures turns < INT / 2 ==> Int32(turns) == turns && turns % WORD == turns
    ensures turns == INT / 2 ==> Int32(turns) % WORD >= len
  {}

  /** The builder loop. */
  method BuildMask(maxNode: nat, mask: array<word>)
    requires mask.Length <= WORD / 64 && forall j | 0 <= j < mask.Length :: mask[j] == 0
    modifies mask
    ensures mask[..] == Built(mask.Length, maxNode)
  {
    hide Int32;
    var i := 0;
    ghost var turns := 0;
    CounterTurn(mask.Length, 0);
    while i % WORD < mask.Length
      invariant 0 <= turns <= mask.Length && turns <= INT / 2 && i == Int32(turns)
      invariant forall j | 0 <= j < turns :: mask[j] == BuiltWord(mask.Length, maxNode, j)
      invariant forall j | turns <= j < mask.Length :: mask[j] == 0
      decreases mask.Length - turns
    {
      CounterTurn(mask.Length, turns);
      if i == mask.Length - 1 {
        mask[i] := IntMask(maxNode % 64 + 1);
      } else {
        mask[i] := ALL_ONES;
      }
      i := Int32(i + 1);
      turns := turns + 1;
    }
    CounterTurn(mask.Length, turns);
  }

  /** The last word as the checker's `int` has it. */
  function LastWordIndex(len: nat): int { Int32((len - 1) % WORD) }

  lemma LastWordIff(len: nat)
    requires 1 <= len <= WORD / 64
    ensures -(INT / 2) <= LastWordIndex(len) < INT / 2 && LastWordIndex(len) < len
    ensures LastWordIndex(len) == len - 1 <==> len <= INT / 2
  {
    hide Int32;
    assert (len - 1) % WORD == len - 1;
    Int32Iff(len - 1);
  }

  /** node_mask_check: from the last word down. */
  method NodeMaskCheck(mask: array<word>, numBits: nat) returns (ret: int)
    requires 1 <= mask.Length <= WORD / 64
    ensures ret == if Accepted(mask[..], numBits) then 0 else -1
  {
    var i := LastWordIndex(mask.Length);
    LastWordIff(mask.Length);
    hide LastWordIndex;
    while i >= 0
      invariant i <= LastWordIndex(mask.Length) && (i == LastWordIndex(mask.Length) || -1 <= i)
      invariant forall j | 0 <= j && i < j <= LastWordIndex(mask.Length) ::
        mask[j] == if j == mask.Length - 1 then IntMask(numBits % 64) else ALL_ONES
    {
      if i == mask.Length - 1 {
        if mask[i] != IntMask(numBits % 64) { return -1; }
      } else {
        if mask[i] != ALL_ONES { return -1; }
      }
      i := i - 1;
    }
    return 0;
  }

  predicate Accepted(ws: seq<word>, numBits: nat)
    requires LastWordIndex(|ws|) < |ws|
  {
    forall j | 0 <= j <= LastWordIndex(|ws|) :: ws[j] == if j == |ws| - 1 then IntMask(numBits % 64) else ALL_ONES
  }

  // ----- when the code is right -----

  /** The int expression is the low s ones exactly up to s = 31. */
  lemma IntMaskIff(s: nat)
    requires s <= 64
    ensures IntMask(s) == Pow2(s) - 1 <==> s <= 31
  {
    var r := s % 32;
    assert r == if s <= 31 then s else if s < 64 then s - 32 else 0;
    hide Pow2;
    Pow2Monotone(r, s);
  }

  /** On masks sized for numBits + 1 nodes, the checker accepts exactly the masks holding
      0 .. numBits - 1 if and only if numBits mod 64 is at most 31 and an `int` can count the words. */
  lemma CheckIff(numBits: word)
    ensures LastWordIndex(numBits / 64 + 1) <= numBits / 64
    ensures (forall ws: seq<word> | |ws| == numBits / 64 + 1 :: Accepted(ws, numBits) <==> IsRange(ws, numBits))
            <==> numBits % 64 <= 31 && numBits / 64 < INT / 2
  {
    hide LastWordIndex, Pow2, Node, IsRange;
    var k, last := numBits % 64, numBits / 64;
    IntMaskIff(k);
    Pow2Word();
    LastWordIff(last + 1);
    if k <= 31 && last < INT / 2 {
      forall ws: seq<word> | |ws| == last + 1 ensures Accepted(ws, numBits) <==> IsRange(ws, numBits) {
        RangeIff(ws, numBits);
        LastWord(ws, numBits);
      }
    } else {
      var ws := seq(last + 1, j => WrongWord(numBits, j));
      assert Accepted(ws, numBits);
      RangeIff(ws, numBits);
      LastWordWrong(numBits);
      assert ws[last] == WrongWord(numBits, last);
    }
  }

  lemma LastWordWrong(numBits: word)
    requires numBits % 64 > 31 || numBits / 64 >= INT / 2
    ensures !RangeWord(WrongWord(numBits, numBits / 64), numBits, numBits / 64)
  {
    var k := numBits % 64;
    assert Clamp(numBits - 64 * (numBits / 64)) == k;
    hide Pow2;
    IntMaskIff(k);
    Pow2Word();
    Pow2Monotone(k, 64);
  }

  /** Words of an accepted mask that is not the range: the last one is wrong, or unread and wrong. */
  function WrongWord(numBits: nat, j: int): (w: word) {
    if j < numBits / 64 then ALL_ONES
    else if numBits / 64 < INT / 2 then IntMask(numBits % 64)
    else ALL_ONES
  }

  lemma LastWord(ws: seq<word>, n: nat)
    requires |ws| == n / 64 + 1
    ensures forall j | 0 <= j < |ws| :: Clamp(n - 64 * j) == if j == |ws| - 1 then n % 64 else 64
  {}

  /** The builder sets exactly the nodes 0 .. maxNode if and only if maxNode mod 64 is at most 30 and
      an `int` can count the words. */
  lemma BuilderIff(maxNode: word)
    ensures IsRange(Built(maxNode / 64 + 1, maxNode), maxNode + 1) <==> maxNode % 64 <= 30 && maxNode / 64 < INT / 2
  {
    hide Pow2, Node, IsRange, IntMask, RangeWord;
    var last := maxNode / 64;
    var ws := Built(last + 1, maxNode);
    RangeIff(ws, maxNode + 1);
    BuiltLast(maxNode);
    assert ws[last] == BuiltWord(last + 1, maxNode, last);
    forall j | 0 <= j < last && j < INT / 2 ensures RangeWord(ws[j], maxNode + 1, j) { FullWord(maxNode + 1, j); }
  }

  lemma FullWord(n: nat, j: nat)
    requires 64 * (j + 1) <= n
    ensures RangeWord(ALL_ONES, n, j)
  {
    hide Pow2;
    Pow2Word();
  }

  lemma BuiltLast(maxNode: word)
    ensures RangeWord(BuiltWord(maxNode / 64 + 1, maxNode, maxNode / 64), maxNode + 1, maxNode / 64)
      <==> maxNode % 64 <= 30 && maxNode / 64 < INT / 2
  {
    hide Pow2, IntMask;
    var s := maxNode % 64 + 1;
    assert Clamp(maxNode + 1 - 64 * (maxNode / 64)) == s;
    IntMaskIff(s);
    Pow2One();
    Pow2Monotone(0, s);
  }

  lemma Pow2One()
    ensures Pow2(0) == 1
  {}

  // ----- through the kernel and back -----

  /** The low k bits of a word. */
  function Low(w: nat, k: nat): (r: nat)
    ensures r < Pow2(k)
  {
    if k == 0 then 0 else w % 2 + 2 * Low(w / 2, k - 1)
  }

  lemma {:induction false} LowBit(w: nat, k: nat, b: nat)
    ensures Bit(Low(w, k), b) <==> b < k && Bit(w, b)
    decreases b
  {
    if k > 0 {
      if b > 0 { LowBit(w / 2, k - 1, b - 1); }
    } else if b > 0 {
      LowBit(w, 0, b - 1);
    }
  }

  /** The kernel keeps the nodes below maxnode - 1 and reports them back. */
  function Kept(ws: seq<word>, n: nat): seq<word> {
    seq(|ws|, j requires 0 <= j < |ws| => LowWord(ws[j], Clamp(n - 64 * j)))
  }

  function LowWord(w: word, k: nat): (r: word)
    requires k <= 64
  {
    Pow2Monotone(k, 64);
    Pow2Word();
    Low(w, k)
  }

  lemma KeptNodes(ws: seq<word>, n: nat)
    ensures forall i | 0 <= i < 64 * |ws| :: Node(Kept(ws, n), i) <==> i < n && Node(ws, i)
  {
    forall i | 0 <= i < 64 * |ws| ensures Node(Kept(ws, n), i) <==> i < n && Node(ws, i) {
      LowBit(ws[i / 64], Clamp(n - 64 * (i / 64)), i % 64);
    }
  }

  lemma {:induction false} LowSame(w: nat, k: nat)
    requires w < Pow2(k)
    ensures Low(w, k) == w
  {
    if k > 0 { LowSame(w / 2, k - 1); }
  }

  /** Word j of a built mask that has been through the kernel. */
  function ReportedWord(len: nat, maxNode: nat, j: nat): word {
    LowWord(BuiltWord(len, maxNode, j), Clamp(maxNode - 64 * j))
  }

  lemma Reported(len: nat, maxNode: nat)
    ensures var ws := Kept(Built(len, maxNode), maxNode);
      |ws| == len && forall j | 0 <= j < len :: ws[j] == ReportedWord(len, maxNode, j)
  {
    hide LowWord, BuiltWord;
  }

  /** Words before the last come back all ones, as far as the counter reached. */
  lemma InnerWord(len: nat, maxNode: nat, j: nat)
    requires j < INT / 2 && j < len - 1 && 64 * (j + 1) <= maxNode
    ensures ReportedWord(len, maxNode, j) == ALL_ONES
  {
    hide Low, Pow2;
    Pow2Word();
    LowSame(ALL_ONES, 64);
    assert Clamp(maxNode - 64 * j) == 64;
  }

  /** The last word comes back as the checker wants it exactly up to residue 30. */
  lemma FinalWordIff(maxNode: nat)
    requires maxNode / 64 < INT / 2
    ensures ReportedWord(maxNode / 64 + 1, maxNode, maxNode / 64) == IntMask(maxNode % 64) <==> maxNode % 64 <= 30
  {
    hide Low, Pow2, IntMask;
    var k := maxNode % 64;
    assert Clamp(maxNode - 64 * (maxNode / 64)) == k;
    if k <= 30 { BuiltRight(k); } else { BuiltTooShort(k); }
  }

  lemma BuiltRight(k: nat)
    requires k <= 30
    ensures Low(IntMask(k + 1), k) == IntMask(k)
  {
    hide Pow2, Bit, Low;
    assert k % 32 == k && (k + 1) % 32 == k + 1;
    forall b | 0 <= b < k ensures Bit(Low(IntMask(k + 1), k), b) <==> Bit(IntMask(k), b) {
      LowBit(IntMask(k + 1), k, b);
      OnesBit(k + 1, b);
      OnesBit(k, b);
    }
    BitsDetermine(Low(IntMask(k + 1), k), IntMask(k), k);
  }

  /** Build, keep the nodes below maxNode and check: accepted exactly when maxNode mod 64 is at most
      30, or when there are more words than an `int` can count, so that none or only some are read. */
  lemma MaskTestIff(maxNode: word)
    ensures LastWordIndex(maxNode / 64 + 1) <= maxNode / 64
    ensures Accepted(Kept(Built(maxNode / 64 + 1, maxNode), maxNode), maxNode)
            <==> maxNode % 64 <= 30 || maxNode / 64 >= INT / 2
  {
    hide LastWordIndex, ReportedWord, IntMask, Kept, Built, Pow2;
    var last := maxNode / 64;
    var ws := Kept(Built(last + 1, maxNode), maxNode);
    LastWordIff(last + 1);
    Reported(last + 1, maxNode);
    if last < INT / 2 { FinalWordIff(maxNode); }
    forall j | 0 <= j <= LastWordIndex(last + 1) && j != last ensures ws[j] == ALL_ONES {
      InnerWord(last + 1, maxNode, j);
    }
  }

  /** A single word for so many nodes that the size wraps is never accepted. */
  lemma WrappedTestFails(maxNode: word)
    requires 64 <= maxNode
    ensures LastWordIndex(1) < 1 && !Accepted(Kept(Built(1, maxNode), maxNode), maxNode)
  {
    hide Low, Pow2, IntMask, Kept, Built;
    var k := maxNode % 64;
    Pow2Word();
    LastWordIff(1);
    assert LastWordIndex(1) == 0;
    Reported(1, maxNode);
    LowSame(IntMask(k + 1), 64);
    IntMaskStep(k);
    hide LastWordIndex;
    assert Clamp(maxNode) == 64;
    assert ReportedWord(1, maxNode, 0) == IntMask(k + 1);
  }

  lemma IntMaskStep(k: nat)
    requires k < 64
    ensures IntMask(k + 1) != IntMask(k)
  {
    var a, b := k % 32, (k + 1) % 32;
    assert a != b;
    hide Pow2;
    if a < b { Pow2Monotone(a, b); } else { Pow2Monotone(b, a); }
  }

  /** From 31 on, the last word built never has the bits the checker looks for. */
  lemma BuiltTooShort(k: nat)
    requires 31 <= k < 64
    ensures Low(IntMask(k + 1), k) != IntMask(k)
  {
    hide Pow2, Bit, Low;
    Residues(k);
    var b := if k == 31 || k == 63 then 0 else k - 32;
    LowBit(IntMask(k + 1), k, b);
    OnesBit((k + 1) % 32, b);
    OnesBit(k % 32, b);
  }

  lemma Residues(k: nat)
    requires 31 <= k < 64
    ensures k % 32 == (if k == 31 then 31 else k - 32)
    ensures (k + 1) % 32 == (if k == 31 || k == 63 then 0 else k - 31)
  {}

  /** The whole mask test, on a kernel that keeps the nodes below maxnode - 1 and reports them.  The
      flags say whether memory is found, mbind and get_mempolicy succeed, and the mode comes back
      right. */
  method MaskTest(maxNode: word, found: bool, bound: bool, got: bool, modeRight: bool) returns (passed: bool)
    ensures passed <==>
      && maxNode != 0 && found && bound && got && modeRight
      && maxNode < WORD - 64 && (maxNode % 64 <= 30 || maxNode / 64 >= INT / 2)
  {
    if maxNode == 0 || !found { return false; }
    hide Built, Kept, LastWordIndex, Accepted, WordsFor, Pow2;
    WordsForNext(maxNode);
    var nodeMask := CreateNodeMask((maxNode + 1) % WORD);
    var mbindNodeMask := CreateNodeMask((maxNode + 1) % WORD);
    var len := nodeMask.Length;
    BuildMask(maxNode, mbindNodeMask);
    if !bound || !got || !modeRight { return false; }
    var reported := Kept(mbindNodeMask[..], maxNode);
    KeptLength(mbindNodeMask[..], maxNode);
    forall j | 0 <= j < len { nodeMask[j] := reported[j]; }
    assert nodeMask[..] == reported;
    var ret := NodeMaskCheck(nodeMask, maxNode);
    if maxNode < WORD - 64 { MaskTestIff(maxNode); } else { WrappedTestFails(maxNode); }
    passed := ret == 0;
  }

  lemma KeptLength(ws: seq<word>, n: nat)
    ensures |Kept(ws, n)| == |ws|
  {}
}
