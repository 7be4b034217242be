/** The ptrace tests' parent: it waits for the tracee to stop, overwrites the tracee's own
    brk with nops, plants a brk at a nop, lets the tracee run into it, puts the instruction
    back and (in one test) single-steps.  Every system call's outcome is an arbitrary answer
    of an oracle, so each result below holds for every behaviour of the kernel and the tracee.
    The tracee does not write its own text while it runs.
 */
module Tracer {

  const NOP_INST: bv32 := 0xd503201f
  const BRK_INST: bv32 := 0xd4200000
  /** -1 as an instruction word and as an address. */
  const MINUS_ONE: bv64 := 0xffffffffffffffff
  const BAD_ADDR := 0xffff_ffff_ffff_ffff
  const SIGTRAP := 5
  const TRAP_BRKPT := 1
  const TRAP_HWBKPT := 4

  /** Instructions by address; a 64-bit word at `a` is the instructions at `a` and `a + 4`. */
  type Text = int -> bv32

  /** Address of the next instruction, in 64-bit arithmetic. */
  function Next(a: int): int { (a + 4) % 0x1_0000_0000_0000_0000 }

  function Lo(x: bv64): bv32 { (x & 0xffffffff) as bv32 }
  function Hi(x: bv64): bv32 { ((x >> 32) & 0xffffffff) as bv32 }
  function Join(lo: bv32, hi: bv32): bv64 { ((hi as bv64) << 32) | (lo as bv64) }

  function Word(text: Text, a: int): bv64 { Join(text(a), text(Next(a))) }
  function Write(text: Text, a: int, x: bv64): Text {
    (b: int) => if b == a then Lo(x) else if b == Next(a) then Hi(x) else text(b)
  }

  /** The value written to plant the breakpoint. */
  function Patched(inst: bv64): bv64 { (inst & 0xffffffff00000000) | 0xd4200000 }

  lemma JoinParts(lo: bv32, hi: bv32)
    ensures Lo(Join(lo, hi)) == lo && Hi(Join(lo, hi)) == hi
  {}

  lemma PatchedParts(inst: bv64)
    ensures Lo(Patched(inst)) == BRK_INST && Hi(Patched(inst)) == Hi(inst)
  {}

  /** The words and codes in numbers: `nop; nop`, `brk #0` in the lower half, and the siginfo values. */
  lemma Encodings(inst: bv64)
    ensures TWO_NOPS == 0xd503201fd503201f
    ensures Patched(inst) & 0xffffffff == 0xd4200000 && Patched(inst) >> 32 == inst >> 32
    ensures SIGTRAP == 5 && TRAP_BRKPT == 1 && TRAP_HWBKPT == 4
    ensures MINUS_ONE + 1 == 0 && BAD_ADDR + 1 == 0x1_0000_0000_0000_0000
  {}

  lemma JoinBack(x: bv64)
    ensures Join(Lo(x), Hi(x)) == x
  {}

  // ----- the kernel's side -----

  datatype Obs = Running | Stopped | Gone

  datatype Info = Info(signo: int, errno: int, code: int, addr: int)

  /** One answer of the oracle; each call uses the fields that concern it. */
  datatype Answer = Answer(ok: bool, ours: bool, stopped: bool, stopSig: int, value: int, info: Info)

  datatype Kind = PeekData | PeekText | PokeText | Cont | SingleStep | GetSigInfo

  /** A request, with the tracee state the parent had last observed. */
  datatype Request = Request(kind: Kind, seen: Obs)

  /** A word written into the tracee's text. */
  datatype Poke = Poke(addr: int, word: bv64)

  /** Every request so far was made while the tracee had last been seen stopped. */
  predicate Orderly(log: seq<Request>) { forall i | 0 <= i < |log| :: log[i].seen == Stopped }

  /** Requests of these kinds, all made while the tracee was stopped. */
  function All(kinds: seq<Kind>): (r: seq<Request>)
    ensures |r| == |kinds| && forall i | 0 <= i < |r| :: r[i] == Request(kinds[i], Stopped)
  { seq(|kinds|, i requires 0 <= i < |kinds| => Request(kinds[i], Stopped)) }

  /** From `before` on, the log follows the script as far as it goes. */
  predicate Follows(before: seq<Request>, log: seq<Request>, script: seq<Kind>) {
    |before| <= |log| <= |before| + |script| && log == before + All(script[..|log| - |before|])
  }

  lemma AllAppend(a: seq<Kind>, b: seq<Kind>)
    ensures All(a + b) == All(a) + All(b)
  {}

  lemma FollowsAll(before: seq<Request>, script: seq<Kind>)
    ensures Follows(before, before + All(script), script)
  {
    assert script[..|script|] == script;
  }

  lemma FollowsMore(before: seq<Request>, log: seq<Request>, a: seq<Kind>, b: seq<Kind>)
    requires Follows(before, log, a)
    ensures Follows(before, log, a + b)
  {
    var n := |log| - |before|;
    assert (a + b)[..n] == a[..n];
  }

  lemma FollowsThen(before: seq<Request>, log: seq<Request>, a: seq<Kind>, b: seq<Kind>)
    requires Follows(before + All(a), log, b)
    ensures Follows(before, log, a + b)
    ensures log == before + All(a) + All(b) ==> log == before + All(a + b)
  {
    var n := |log| - |before| - |a|;
    assert (a + b)[..|a| + n] == a + b[..n];
    AllAppend(a, b[..n]);
    AllAppend(a, b);
    assert before + All(a) + All(b[..n]) == before + (All(a) + All(b[..n]));
  }

  /** No request, or the first of a script. */
  lemma FollowsStart(before: seq<Request>, k: Kind, rest: seq<Kind>)
    ensures Follows(before, before, [k] + rest) && Follows(before, before, [])
    ensures Follows(before, before + [Request(k, Stopped)], [k] + rest)
    ensures before + [Request(k, Stopped)] == before + All([k])
  {
    assert ([k] + rest)[..1] == [k];
    assert All([k]) == [Request(k, Stopped)];
    assert ([k] + rest)[..0] == [] && before + All([]) == before;
  }

  lemma FollowsTwo(before: seq<Request>, k: Kind, l: Kind)
    ensures Follows(before, before, [k, l]) && Follows(before, before + [Request(k, Stopped)], [k, l])
    ensures before + [Request(k, Stopped)] + [Request(l, Stopped)] == before + All([k, l])
    ensures Follows(before, before + All([k, l]), [k, l])
  {
    FollowsStart(before, k, [l]);
    assert [k] + [l] == [k, l];
    assert All([k, l]) == [Request(k, Stopped), Request(l, Stopped)];
    assert [k, l][..2] == [k, l];
  }

  /** A tracee that is left stopped has at least been told to continue. */
  predicate ToldToContinue(seen: Obs, log: seq<Request>) {
    seen == Stopped && log != [] ==> log[|log| - 1].kind == Cont
  }

  function Apply(text: Text, pokes: seq<Poke>): Text {
    if pokes == [] then text else
    var p := pokes[|pokes| - 1];
    Write(Apply(text, pokes[..|pokes| - 1]), p.addr, p.word)
  }

  class Tracee {
    const oracle: nat -> Answer
    var clock: nat
    var seen: Obs
    var text: Text
    var errno: int
    var log: seq<Request>
    var pokes: seq<Poke>
    var steps: seq<int>

    constructor (o: nat -> Answer, t: Text)
      ensures oracle == o && text == t && clock == 0 && seen == Running && log == [] && pokes == [] && steps == []
    {
      oracle, clock, seen, text, errno, log, pokes, steps := o, 0, Running, t, 0, [], [], [];
    }

    /** wait(): whether it reports our child, whether that is stopped, and by which signal. */
    method Wait() returns (ours: bool, stopped: bool, sig: int)
      modifies this`clock, this`seen
      ensures clock == old(clock) + 1
      ensures var a := oracle(old(clock)); ours == a.ours && stopped == a.stopped && sig == a.stopSig
      ensures seen == if ours then (if stopped then Stopped else Gone) else old(seen)
    {
      var a := oracle(clock);
      clock := clock + 1;
      ours, stopped, sig := a.ours, a.stopped, a.stopSig;
      if ours { seen := if stopped then Stopped else Gone; }
    }

    /** A peek of data the model does not hold: the oracle supplies the value. */
    method PeekData() returns (v: int)
      modifies this`clock, this`errno, this`log
      ensures clock == old(clock) + 1 && log == old(log) + [Request(Kind.PeekData, seen)]
      ensures var a := oracle(old(clock));
              if a.ok then v == a.value && errno == 0 else v == BAD_ADDR && errno != 0
    {
      var a := oracle(clock);
      clock, log := clock + 1, log + [Request(Kind.PeekData, seen)];
      if a.ok { v, errno := a.value, 0; } else { v, errno := BAD_ADDR, 5; }
    }

    method PeekText(at: int) returns (v: bv64)
      modifies this`clock, this`errno, this`log
      ensures clock == old(clock) + 1 && log == old(log) + [Request(Kind.PeekText, seen)]
      ensures if oracle(old(clock)).ok then v == Word(text, at) && errno == 0 else v == MINUS_ONE && errno != 0
    {
      var a := oracle(clock);
      clock, log := clock + 1, log + [Request(Kind.PeekText, seen)];
      if a.ok { v, errno := Word(text, at), 0; } else { v, errno := MINUS_ONE, 5; }
    }

    method PokeText(at: int, v: bv64) returns (failed: bool)
      modifies this`clock, this`text, this`errno, this`log, this`pokes
      ensures clock == old(clock) + 1 && failed == !oracle(old(clock)).ok
      ensures text == if failed then old(text) else Write(old(text), at, v)
      ensures pokes == if failed then old(pokes) else old(pokes) + [Poke(at, v)]
      ensures log == old(log) + [Request(Kind.PokeText, seen)]
    {
      failed := !oracle(clock).ok;
      clock, log := clock + 1, log + [Request(Kind.PokeText, seen)];
      if failed { errno := 5; } else { text, pokes := Write(text, at, v), pokes + [Poke(at, v)]; }
    }

    /** PTRACE_CONT and PTRACE_SINGLESTEP: the tracee runs until the next wait. */
    method Resume(kind: Kind) returns (failed: bool)
      modifies this`clock, this`seen, this`errno, this`log
      ensures clock == old(clock) + 1 && failed == !oracle(old(clock)).ok
      ensures seen == if failed then old(seen) else Running
      ensures log == old(log) + [Request(kind, old(seen))]
    {
      failed := !oracle(clock).ok;
      clock, log := clock + 1, log + [Request(kind, seen)];
      if failed { errno := 5; } else { seen := Running; }
    }

    method GetSigInfo() returns (failed: bool, info: Info)
      modifies this`clock, this`errno, this`log
      ensures clock == old(clock) + 1 && failed == !oracle(old(clock)).ok && info == oracle(old(clock)).info
      ensures log == old(log) + [Request(Kind.GetSigInfo, seen)]
    {
      failed, info := !oracle(clock).ok, oracle(clock).info;
      clock, log := clock + 1, log + [Request(Kind.GetSigInfo, seen)];
      if failed { errno := 5; }
    }

    /** Record that a single step was seen to stop at `at`. */
    method NoteStep(at: int)
      modifies this`steps
      ensures steps == old(steps) + [at]
    {
      steps := steps + [at];
    }
  }

  // ----- the parent -----

  /** Where a phase leaves to: the next phase, the final PTRACE_CONT, or straight out. */
  datatype Exit = Go | ToCont | ToOut

  const TWO_NOPS: bv64 := Join(NOP_INST, NOP_INST)

  /** The text writes of a full run, in order: the tracee's own brk, the breakpoint, the restore. */
  function Plan(brk: int, at: int, inst: bv64): seq<Poke> {
    [Poke(brk, TWO_NOPS), Poke(at, Patched(inst)), Poke(at, inst)]
  }

  /** The parent may go on to make requests only while the tracee is stopped. */
  predicate Ready(e: Exit, seen: Obs) { e == Go || e == ToCont ==> seen == Stopped }

  /** The text is what it was before the breakpoint (after the tracee's own brk was overwritten)
      exactly if the instruction word was really read, or happened to be all ones. */
  ghost predicate RestoredIfRead(text: Text, text0: Text, brk: int, at: int, peeked: bool) {
    var before := Write(text0, brk, TWO_NOPS);
    (forall b :: text(b) == before(b)) <==> peeked || Word(before, at) == MINUS_ONE
  }

  /** What both tests guarantee of any run, for every oracle. */
  ghost predicate Disciplined(t: Tracee, text0: Text, brk: int, at: int, inst: bv64, peeked: bool)
    reads t
  {
    && Orderly(t.log)
    && t.pokes <= Plan(brk, at, inst) && t.text == Apply(text0, t.pokes)
    && (2 <= |t.pokes| ==> inst == if peeked then Word(Write(text0, brk, TWO_NOPS), at) else MINUS_ONE)
  }

  lemma ApplyNext(text: Text, pokes: seq<Poke>, p: Poke)
    ensures Apply(text, []) == text
    ensures Apply(text, pokes + [p]) == Write(Apply(text, pokes), p.addr, p.word)
  {
    assert (pokes + [p])[..|pokes|] == pokes;
  }

  // The requests of each phase, in order.
  const REWRITE := [Kind.PeekData, Kind.PokeText]
  const PLANT_AT := [Kind.PeekText, Kind.PokeText]
  const ATTACH := REWRITE + [Kind.PeekData]
  const PLANT := ATTACH + PLANT_AT
  const STEP := [Kind.SingleStep, Kind.GetSigInfo]

  /** rewrite_brk_inst: two nops over the tracee's own brk. */
  method RewriteBrk(t: Tracee) returns (failed: bool, ghost brk: int)
    requires t.seen == Stopped && Orderly(t.log) && t.pokes == []
    modifies t
    ensures t.seen == Stopped && Orderly(t.log) && t.steps == old(t.steps)
    ensures t.pokes == if failed then [] else [Poke(brk, TWO_NOPS)]
    ensures t.text == if failed then old(t.text) else Write(old(t.text), brk, TWO_NOPS)
    ensures failed == !(t.oracle(old(t.clock)).ok && t.oracle(old(t.clock) + 1).ok)
    ensures !failed ==> t.clock == old(t.clock) + 2 && brk == t.oracle(old(t.clock)).value
    ensures Follows(old(t.log), t.log, REWRITE) && (!failed ==> t.log == old(t.log) + All(REWRITE))
  {
    hide Write, Join, Follows, All;
    FollowsTwo(t.log, Kind.PeekData, Kind.PokeText);
    var addr := t.PeekData();
    brk := addr;
    if addr == BAD_ADDR && t.errno != 0 { return true, brk; }
    failed := t.PokeText(addr, TWO_NOPS);
  }

  /** Read the instruction word at `at` and plant the breakpoint there.  `peeked` says whether
      the word was really read: the code tests the address instead of the word, so a failed
      read goes unnoticed unless the address itself is -1. */
  method PlantAt(t: Tracee, at: int, ghost brk: int, ghost text0: Text) returns (e: Exit, inst: bv64, ghost peeked: bool)
    requires t.seen == Stopped && Orderly(t.log)
    requires t.pokes == [Poke(brk, TWO_NOPS)] && t.text == Write(text0, brk, TWO_NOPS) == Apply(text0, t.pokes)
    modifies t
    ensures Orderly(t.log) && t.seen == Stopped && e != ToOut && t.steps == old(t.steps)
    ensures t.text == Apply(text0, t.pokes)
    ensures t.pokes == if e == Go then Plan(brk, at, inst)[..2] else [Poke(brk, TWO_NOPS)]
    ensures inst == if peeked then Word(Write(text0, brk, TWO_NOPS), at) else MINUS_ONE
    ensures peeked == t.oracle(old(t.clock)).ok
    ensures e == Go <==> (peeked || at != BAD_ADDR) && t.oracle(old(t.clock) + 1).ok
    ensures e == Go ==> t.clock == old(t.clock) + 2
    ensures Follows(old(t.log), t.log, PLANT_AT) && (e == Go ==> t.log == old(t.log) + All(PLANT_AT))
  {
    hide Write, Join, Apply, Patched, Word, Follows, All;
    FollowsTwo(t.log, Kind.PeekText, Kind.PokeText);
    peeked := t.oracle(t.clock).ok;
    inst := t.PeekText(at);
    if at == BAD_ADDR && t.errno != 0 { return ToCont, inst, peeked; }
    ApplyNext(text0, t.pokes, Poke(at, Patched(inst)));
    var failed := t.PokeText(at, Patched(inst));
    e := if failed then ToCont else Go;
  }

  /** The answers from call c on that let the parent learn the breakpoint's address. */
  predicate Attaches(o: nat -> Answer, c: nat) {
    o(c).ours && o(c).stopped && o(c + 1).ok && o(c + 2).ok && o(c + 3).ok
  }

  /** The addresses of the tracee's own brk and of the breakpoint are the ones read from it. */
  predicate Told(o: nat -> Answer, c: nat, brk: int, at: int) { brk == o(c + 1).value && at == o(c + 3).value }

  /** Both tests up to the address of the breakpoint. */
  method Attach(t: Tracee) returns (e: Exit, at: int, ghost brk: int)
    requires t.log == [] && t.pokes == []
    modifies t
    ensures Orderly(t.log) && Ready(e, t.seen) && t.steps == old(t.steps)
    ensures t.pokes == [] || t.pokes == [Poke(brk, TWO_NOPS)]
    ensures t.text == Apply(old(t.text), t.pokes)
    ensures e == Go ==> t.pokes == [Poke(brk, TWO_NOPS)] && t.text == Write(old(t.text), brk, TWO_NOPS)
    ensures e == Go <==> Attaches(t.oracle, old(t.clock))
    ensures e == Go ==> t.clock == old(t.clock) + 4 && Told(t.oracle, old(t.clock), brk, at)
    ensures Follows([], t.log, ATTACH) && (e == Go ==> t.log == All(ATTACH))
    ensures e == ToOut ==> ToldToContinue(t.seen, t.log)
  {
    hide Write, Join, Apply, Follows, All;
    at, brk := 0, 0;
    FollowsStart([], Kind.PeekData, [Kind.PokeText, Kind.PeekData]);
    assert [Kind.PeekData] + [Kind.PokeText, Kind.PeekData] == ATTACH;
    ghost var text0 := t.text;
    ApplyNext(text0, [], Poke(brk, TWO_NOPS));
    var ours, stopped, _ := t.Wait();
    if !ours || !stopped { return ToOut, at, brk; }
    var failed;
    failed, brk := RewriteBrk(t);
    FollowsMore([], t.log, REWRITE, [Kind.PeekData]);
    if failed { return ToCont, at, brk; }
    FollowsStart(t.log, Kind.PeekData, []);
    assert [] + All(REWRITE) == t.log && [Kind.PeekData] + [] == [Kind.PeekData];
    ApplyNext(text0, [], Poke(brk, TWO_NOPS));
    assert [] + [Poke(brk, TWO_NOPS)] == t.pokes;
    at := t.PeekData();
    FollowsThen([], t.log, REWRITE, [Kind.PeekData]);
    assert [] + All(ATTACH) == All(ATTACH);
    e := if at == BAD_ADDR && t.errno != 0 then ToCont else Go;
  }

  /** The answers from call c on that let the breakpoint be planted.  The answer to the read of
      the instruction word (call c + 4) matters only if the address is -1. */
  predicate Plants(o: nat -> Answer, c: nat) {
    Attaches(o, c) && (o(c + 4).ok || o(c + 3).value != BAD_ADDR) && o(c + 5).ok
  }

  /** Both tests up to planting the breakpoint. */
  method Plant(t: Tracee) returns (e: Exit, at: int, inst: bv64, ghost brk: int, ghost peeked: bool)
    requires t.log == [] && t.pokes == []
    modifies t
    ensures Ready(e, t.seen) && t.steps == old(t.steps)
    ensures Disciplined(t, old(t.text), brk, at, inst, peeked)
    ensures e == Go ==> t.pokes == Plan(brk, at, inst)[..2]
    ensures e == Go <==> Plants(t.oracle, old(t.clock))
    ensures e == Go ==> t.clock == old(t.clock) + 6 && Told(t.oracle, old(t.clock), brk, at) && peeked == t.oracle(old(t.clock) + 4).ok
    ensures Follows([], t.log, PLANT) && (e == Go ==> t.log == All(PLANT))
    ensures e == ToOut ==> ToldToContinue(t.seen, t.log)
  {
    hide Write, Join, Apply, Patched, Word, Orderly, Attaches, Follows, All;
    inst, peeked := 0, false;
    ghost var text0 := t.text;
    e, at, brk := Attach(t);
    FollowsMore([], t.log, ATTACH, PLANT_AT);
    if e == Go {
      assert [] + All(ATTACH) == t.log;
      e, inst, peeked := PlantAt(t, at, brk, text0);
      FollowsThen([], t.log, ATTACH, PLANT_AT);
      assert [] + All(PLANT) == All(PLANT);
    }
  }

  /** The tracee is resumed and seen to stop by SIGTRAP. */
  predicate Traps(o: nat -> Answer, c: nat) {
    o(c).ok && o(c + 1).ours && o(c + 1).stopped && o(c + 1).stopSig == SIGTRAP
  }

  predicate Reports(o: nat -> Answer, c: nat, code: int, at: int) { o(c).ok && o(c).info == Info(SIGTRAP, 0, code, at) }

  /** Let the tracee run into the breakpoint. */
  method RunToStop(t: Tracee) returns (e: Exit)
    requires t.seen == Stopped && Orderly(t.log)
    modifies t
    ensures Orderly(t.log) && Ready(e, t.seen) && t.steps == old(t.steps) && t.pokes == old(t.pokes) && t.text == old(t.text)
    ensures e == Go <==> Traps(t.oracle, old(t.clock))
    ensures e == Go ==> t.clock == old(t.clock) + 2
    ensures t.log == old(t.log) + All([Cont])
    ensures e == ToOut ==> ToldToContinue(t.seen, t.log)
  {
    FollowsStart(t.log, Cont, []);
    var failed := t.Resume(Cont);
    if failed { return ToOut; }
    var ours, stopped, sig := t.Wait();
    if !ours || !stopped { return ToOut; }
    return if sig == SIGTRAP then Go else ToCont;
  }

  /** Fetch the siginfo and compare it with a trap of the given code at `at`. */
  method CheckTrap(t: Tracee, code: int, at: int) returns (e: Exit)
    requires t.seen == Stopped && Orderly(t.log)
    modifies t
    ensures Orderly(t.log) && e != ToOut && t.seen == Stopped
    ensures t.steps == old(t.steps) && t.pokes == old(t.pokes) && t.text == old(t.text)
    ensures e == Go <==> Reports(t.oracle, old(t.clock), code, at)
    ensures e == Go ==> t.clock == old(t.clock) + 1
    ensures t.log == old(t.log) + [Request(Kind.GetSigInfo, Stopped)]
  {
    var failed, info := t.GetSigInfo();
    if failed { return ToCont; }
    if info.signo != SIGTRAP { return ToCont; }
    if info.errno != 0 { return ToCont; }
    if info.code != code { return ToCont; }
    return if info.addr == at then Go else ToCont;
  }

  predicate StepsTo(o: nat -> Answer, c: nat, at: int) { Traps(o, c) && Reports(o, c + 2, TRAP_HWBKPT, at) }

  /** One turn of the single-step loop, expected to stop at `at`. */
  method StepOnce(t: Tracee, at: int) returns (e: Exit)
    requires t.seen == Stopped && Orderly(t.log)
    modifies t
    ensures Orderly(t.log) && Ready(e, t.seen) && t.pokes == old(t.pokes) && t.text == old(t.text)
    ensures t.steps == if e == Go then old(t.steps) + [at] else old(t.steps)
    ensures e == Go <==> StepsTo(t.oracle, old(t.clock), at)
    ensures e == Go ==> t.clock == old(t.clock) + 3
    ensures Follows(old(t.log), t.log, STEP) && (e == Go ==> t.log == old(t.log) + All(STEP))
    ensures e == ToOut ==> ToldToContinue(t.seen, t.log)
  {
    hide Follows, All;
    FollowsTwo(t.log, SingleStep, Kind.GetSigInfo);
    var failed := t.Resume(SingleStep);
    if failed { return ToCont; }
    var ours, stopped, sig := t.Wait();
    if !ours || !stopped { return ToOut; }
    if sig != SIGTRAP { return ToCont; }
    e := CheckTrap(t, TRAP_HWBKPT, at);
    if e == Go { t.NoteStep(at); }
  }

  /** Put the instruction back. */
  method Restore(t: Tracee, at: int, inst: bv64, ghost brk: int, ghost text0: Text) returns (e: Exit)
    requires t.seen == Stopped && Orderly(t.log)
    requires t.pokes == Plan(brk, at, inst)[..2] && t.text == Apply(text0, t.pokes)
    modifies t
    ensures Orderly(t.log) && t.seen == Stopped && t.steps == old(t.steps)
    ensures t.pokes <= Plan(brk, at, inst) && t.text == Apply(text0, t.pokes)
    ensures e != ToOut && (e == Go ==> t.pokes == Plan(brk, at, inst))
    ensures e == Go <==> t.oracle(old(t.clock)).ok
    ensures t.clock == old(t.clock) + 1
    ensures t.log == old(t.log) + All([Kind.PokeText])
  {
    FollowsStart(t.log, Kind.PokeText, []);
    hide Write, Apply, Patched;
    ApplyNext(text0, t.pokes, Poke(at, inst));
    var failed := t.PokeText(at, inst);
    return if failed then ToCont else Go;
  }

  /** The final PTRACE_CONT, reached unless the tracee is known not to be stopped. */
  method Finish(t: Tracee, e: Exit) returns (ret: int)
    requires Orderly(t.log) && Ready(e, t.seen)
    modifies t
    ensures Orderly(t.log) && t.steps == old(t.steps) && t.pokes == old(t.pokes) && t.text == old(t.text)
    ensures ret == if e == Go && t.oracle(old(t.clock)).ok then 0 else -1
    ensures t.log == old(t.log) + if e == ToOut then [] else [Request(Cont, Stopped)]
    ensures e != ToOut || ToldToContinue(old(t.seen), old(t.log)) ==> ToldToContinue(t.seen, t.log)
  {
    ret := if e == Go then 0 else -1;
    if e != ToOut {
      var failed := t.Resume(Cont);
      if failed { ret := -1; }
    }
  }

  /** The address of the instruction reached by single step k from `at`. */
  function StepAddr(at: int, k: nat): int { (at + 4 * (k + 1)) % 0x1_0000_0000_0000_0000 }

  function StepAddrs(at: int, n: nat): seq<int> { seq(n, k requires 0 <= k => StepAddr(at, k)) }

  /** The answers, from call c on, for which the breakpoint test succeeds. */
  predicate BreakpointSucceeds(o: nat -> Answer, c: nat) {
    && Plants(o, c) && Traps(o, c + 6) && Reports(o, c + 8, TRAP_BRKPT, o(c + 3).value)
    && o(c + 9).ok && o(c + 10).ok
  }

  /** What the breakpoint test asks of the tracee, up to the final continuation. */
  const BREAKPOINT_SCRIPT := PLANT + [Cont] + [Kind.GetSigInfo] + [Kind.PokeText]

  /** The log is a part of the script from its start, with or without a final PTRACE_CONT; and a tracee
      that is left stopped has been told to continue. */
  ghost predicate Scripted(seen: Obs, log: seq<Request>, script: seq<Kind>) {
    && (Follows([], log, script) || (log != [] && log[|log| - 1] == Request(Cont, Stopped) && Follows([], log[..|log| - 1], script)))
    && ToldToContinue(seen, log)
  }

  lemma ScriptEnd(seen: Obs, done: seq<Request>, log: seq<Request>, script: seq<Kind>)
    requires Follows([], done, script) && ToldToContinue(seen, log)
    requires log == done || log == done + [Request(Cont, Stopped)]
    ensures Scripted(seen, log, script)
    ensures done == All(script) && log == done + [Request(Cont, Stopped)] ==> log == All(script + [Cont])
  {
    hide Follows, ToldToContinue;
    if log != done { assert log[..|log| - 1] == done; }
    AllAppend(script, [Cont]);
    assert All([Cont]) == [Request(Cont, Stopped)];
  }

  /** One more request after a complete script. */
  lemma Next1(log: seq<Request>, script: seq<Kind>, k: Kind)
    requires log == All(script) + All([k]) || log == All(script) + [Request(k, Stopped)]
    ensures log == All(script + [k]) && Follows([], log, script + [k])
  {
    AllAppend(script, [k]);
    assert All([k]) == [Request(k, Stopped)];
    assert (script + [k])[..|script| + 1] == script + [k];
    assert [] + All(script + [k]) == All(script + [k]);
  }

  /** Plant the breakpoint and let the tracee run into it. */
  method PlantAndRun(t: Tracee) returns (e: Exit, at: int, inst: bv64, ghost brk: int, ghost peeked: bool)
    requires t.log == [] && t.pokes == []
    modifies t
    ensures Ready(e, t.seen) && t.steps == old(t.steps)
    ensures Disciplined(t, old(t.text), brk, at, inst, peeked)
    ensures e == Go ==> t.pokes == Plan(brk, at, inst)[..2]
    ensures e == Go <==> Plants(t.oracle, old(t.clock)) && Traps(t.oracle, old(t.clock) + 6)
    ensures e == Go ==> t.clock == old(t.clock) + 8 && Told(t.oracle, old(t.clock), brk, at) && peeked == t.oracle(old(t.clock) + 4).ok
    ensures Follows([], t.log, PLANT + [Cont]) && (e == Go ==> t.log == All(PLANT + [Cont]))
    ensures e == ToOut ==> ToldToContinue(t.seen, t.log)
  {
    hide Write, Apply, Patched, Word, Follows, All, Orderly, ToldToContinue, Plants, Traps;
    e, at, inst, brk, peeked := Plant(t);
    FollowsMore([], t.log, PLANT, [Cont]);
    if e == Go {
      e := RunToStop(t);
      Next1(t.log, PLANT, Cont);
    }
  }

  /** The breakpoint test before its final PTRACE_CONT. */
  method Breakpoint(t: Tracee) returns (e: Exit, at: int, inst: bv64, ghost brk: int, ghost peeked: bool)
    requires t.log == [] && t.pokes == []
    modifies t
    ensures Ready(e, t.seen) && Disciplined(t, old(t.text), brk, at, inst, peeked)
    ensures e == Go ==> t.pokes == Plan(brk, at, inst)
    ensures e == Go <==> var o, c := t.oracle, old(t.clock);
      Plants(o, c) && Traps(o, c + 6) && Reports(o, c + 8, TRAP_BRKPT, o(c + 3).value) && o(c + 9).ok
    ensures e == Go ==> t.clock == old(t.clock) + 10 && Told(t.oracle, old(t.clock), brk, at) && peeked == t.oracle(old(t.clock) + 4).ok
    ensures Follows([], t.log, BREAKPOINT_SCRIPT) && (e == Go ==> t.log == All(BREAKPOINT_SCRIPT))
    ensures e == ToOut ==> ToldToContinue(t.seen, t.log)
  {
    hide Write, Apply, Patched, Word, Follows, All, Orderly, ToldToContinue, Plants, Traps, Reports;
    ghost var text0 := t.text;
    e, at, inst, brk, peeked := PlantAndRun(t);
    FollowsMore([], t.log, PLANT + [Cont], [Kind.GetSigInfo]);
    if e == Go {
      e := CheckTrap(t, TRAP_BRKPT, at);
      Next1(t.log, PLANT + [Cont], Kind.GetSigInfo);
    }
    FollowsMore([], t.log, PLANT + [Cont] + [Kind.GetSigInfo], [Kind.PokeText]);
    if e == Go {
      e := Restore(t, at, inst, brk, text0);
      Next1(t.log, PLANT + [Cont] + [Kind.GetSigInfo], Kind.PokeText);
    }
  }

  /** The breakpoint test. */
  method ParentBreakpoint(t: Tracee) returns (ret: int, ghost brk: int, ghost at: int, ghost inst: bv64, ghost peeked: bool)
    requires t.log == [] && t.pokes == [] && t.steps == []
    modifies t
    ensures Disciplined(t, old(t.text), brk, at, inst, peeked)
    ensures ret == if BreakpointSucceeds(t.oracle, old(t.clock)) then 0 else -1
    ensures ret == 0 ==> RestoredIfRead(t.text, old(t.text), brk, at, peeked)
    ensures ret == 0 ==> t.pokes == Plan(brk, at, inst) && peeked == t.oracle(old(t.clock) + 4).ok
    ensures ret == 0 ==> brk == t.oracle(old(t.clock) + 1).value && at == t.oracle(old(t.clock) + 3).value
    ensures Scripted(t.seen, t.log, BREAKPOINT_SCRIPT)
    ensures ret == 0 ==> t.log == All(BREAKPOINT_SCRIPT + [Cont])
  {
    hide Write, Apply, Patched, Word, RestoredIfRead, Follows, All, Orderly, ToldToContinue, Plants, Traps, Reports;
    ghost var text0 := t.text;
    var e, a, i;
    e, a, i, brk, peeked := Breakpoint(t);
    at, inst := a, i;
    ghost var done := t.log;
    ret := Finish(t, e);
    ScriptEnd(t.seen, done, t.log, BREAKPOINT_SCRIPT);
    if ret == 0 { RestoredIff(text0, brk, at, inst, peeked); }
  }

  lemma FirstStep(at: int)
    ensures Next(at) == StepAddr(at, 0) && StepAddrs(at, 0) == []
  {}

  lemma StepNext(at: int, k: nat)
    ensures Next(StepAddr(at, k)) == StepAddr(at, k + 1)
    ensures StepAddrs(at, k + 1) == StepAddrs(at, k) + [StepAddr(at, k)]
  {}

  /** The n answers to the single steps, from call c on, report the addresses after `at`. */
  predicate AllSteps(o: nat -> Answer, c: nat, at: int, n: nat) {
    forall k | 0 <= k < n :: StepsTo(o, c + 3 * k, StepAddr(at, k))
  }

  /** The requests of n single steps. */
  function Steps(n: nat): seq<Kind> { if n == 0 then [] else Steps(n - 1) + STEP }

  lemma StepsStart(log: seq<Request>, n: nat)
    ensures log == log + All(Steps(0))
    ensures n == 0 ==> Follows(log, log, Steps(n))
  {
    assert log + All([]) == log;
  }

  /** One more step, complete or not, is still part of the n steps. */
  lemma StepsMore(before: seq<Request>, log: seq<Request>, k: nat, n: nat)
    requires k < n && Follows(before + All(Steps(k)), log, STEP)
    ensures Follows(before, log, Steps(n))
    ensures log == before + All(Steps(k)) + All(STEP) ==> log == before + All(Steps(k + 1))
  {
    hide Follows, All;
    FollowsThen(before, log, Steps(k), STEP);
    StepsPrefix(before, log, k + 1, n);
  }

  lemma {:induction false} StepsPrefix(before: seq<Request>, log: seq<Request>, k: nat, n: nat)
    requires k <= n && Follows(before, log, Steps(k))
    ensures Follows(before, log, Steps(n))
    decreases n
  {
    hide Follows;
    if k < n {
      StepsPrefix(before, log, k, n - 1);
      FollowsMore(before, log, Steps(n - 1), STEP);
    }
  }

  /** The single-step loop. */
  method StepLoop(t: Tracee, at: int, n: nat) returns (e: Exit)
    requires t.seen == Stopped && Orderly(t.log) && t.steps == []
    modifies t
    ensures Orderly(t.log) && Ready(e, t.seen) && t.pokes == old(t.pokes) && t.text == old(t.text)
    ensures e == Go <==> AllSteps(t.oracle, old(t.clock), at, n)
    ensures e == Go ==> t.steps == StepAddrs(at, n) && t.clock == old(t.clock) + 3 * n
    ensures Follows(old(t.log), t.log, Steps(n)) && (e == Go ==> t.log == old(t.log) + All(Steps(n)))
    ensures e == ToOut ==> ToldToContinue(t.seen, t.log)
  {
    hide StepsTo, Orderly, StepAddr, StepAddrs, Next, Follows, All, Steps, ToldToContinue;
    StepsStart(t.log, n);
    ghost var c := t.clock;
    e := Go;
    FirstStep(at);
    var k, addr := 0, Next(at);
    while k < n
      invariant e == Go && 0 <= k <= n && addr == StepAddr(at, k)
      invariant Orderly(t.log) && t.seen == Stopped && t.pokes == old(t.pokes) && t.text == old(t.text)
      invariant t.steps == StepAddrs(at, k) && t.clock == c + 3 * k
      invariant AllSteps(t.oracle, c, at, k)
      invariant t.log == old(t.log) + All(Steps(k))
    {
      e := StepOnce(t, addr);
      StepsMore(old(t.log), t.log, k, n);
      if e != Go {
        assert !StepsTo(t.oracle, c + 3 * k, StepAddr(at, k));
        return;
      }
      StepNext(at, k);
      k, addr := k + 1, Next(addr);
    }
    FollowsAll(old(t.log), Steps(n));
  }

  /** The answers, from call c on, for which the single-step test succeeds. */
  predicate SingleStepSucceeds(o: nat -> Answer, c: nat, n: nat) {
    Plants(o, c) && Traps(o, c + 6) && o(c + 8).ok && AllSteps(o, c + 9, o(c + 3).value, n) && o(c + 9 + 3 * n).ok
  }

  /** What the single-step test asks of the tracee before it steps. */
  const SINGLE_STEP_SCRIPT := PLANT + [Cont] + [Kind.PokeText]

  /** The scripts, spelled out. */
  lemma Scripts()
    ensures BREAKPOINT_SCRIPT == [Kind.PeekData, Kind.PokeText, Kind.PeekData, Kind.PeekText, Kind.PokeText, Cont, Kind.GetSigInfo, Kind.PokeText]
    ensures SINGLE_STEP_SCRIPT == [Kind.PeekData, Kind.PokeText, Kind.PeekData, Kind.PeekText, Kind.PokeText, Cont, Kind.PokeText]
    ensures forall n: nat :: Steps(n + 1) == Steps(n) + [SingleStep, Kind.GetSigInfo]
  {}

  /** The single-step test before its final PTRACE_CONT. */
  method StepThrough(t: Tracee, n: nat) returns (e: Exit, at: int, inst: bv64, ghost brk: int, ghost peeked: bool)
    requires t.log == [] && t.pokes == [] && t.steps == []
    modifies t
    ensures Ready(e, t.seen) && Disciplined(t, old(t.text), brk, at, inst, peeked)
    ensures e == Go ==> t.pokes == Plan(brk, at, inst) && t.steps == StepAddrs(at, n)
    ensures e == Go <==> var o, c := t.oracle, old(t.clock);
      Plants(o, c) && Traps(o, c + 6) && o(c + 8).ok && AllSteps(o, c + 9, o(c + 3).value, n)
    ensures e == Go ==> t.clock == old(t.clock) + 9 + 3 * n && Told(t.oracle, old(t.clock), brk, at) && peeked == t.oracle(old(t.clock) + 4).ok
    ensures Follows([], t.log, SINGLE_STEP_SCRIPT + Steps(n)) && (e == Go ==> t.log == All(SINGLE_STEP_SCRIPT + Steps(n)))
    ensures e == ToOut ==> ToldToContinue(t.seen, t.log)
  {
    hide Write, Apply, Patched, Word, Plants, Traps, AllSteps, Orderly, Follows, All, Steps, StepAddrs, ToldToContinue;
    ghost var text0 := t.text;
    e, at, inst, brk, peeked := PlantAndRun(t);
    FollowsMore([], t.log, PLANT + [Cont], [Kind.PokeText]);
    if e == Go {
      e := Restore(t, at, inst, brk, text0);
      Next1(t.log, PLANT + [Cont], Kind.PokeText);
    }
    FollowsMore([], t.log, SINGLE_STEP_SCRIPT, Steps(n));
    if e == Go {
      assert [] + All(SINGLE_STEP_SCRIPT) == t.log;
      e := StepLoop(t, at, n);
      FollowsThen([], t.log, SINGLE_STEP_SCRIPT, Steps(n));
      assert [] + All(SINGLE_STEP_SCRIPT + Steps(n)) == All(SINGLE_STEP_SCRIPT + Steps(n));
    }
  }

  /** The single-step test with n steps (5 in the source). */
  method ParentSingleStep(t: Tracee, n: nat) returns (ret: int, ghost brk: int, ghost at: int, ghost inst: bv64, ghost peeked: bool)
    requires t.log == [] && t.pokes == [] && t.steps == []
    modifies t
    ensures Disciplined(t, old(t.text), brk, at, inst, peeked)
    ensures ret == if SingleStepSucceeds(t.oracle, old(t.clock), n) then 0 else -1
    ensures ret == 0 ==> RestoredIfRead(t.text, old(t.text), brk, at, peeked)
    ensures ret == 0 ==> t.pokes == Plan(brk, at, inst) && t.steps == StepAddrs(at, n) && peeked == t.oracle(old(t.clock) + 4).ok
    ensures ret == 0 ==> brk == t.oracle(old(t.clock) + 1).value && at == t.oracle(old(t.clock) + 3).value
    ensures Scripted(t.seen, t.log, SINGLE_STEP_SCRIPT + Steps(n))
    ensures ret == 0 ==> t.log == All(SINGLE_STEP_SCRIPT + Steps(n) + [Cont])
  {
    hide Write, Apply, Patched, Word, Plants, Traps, AllSteps, Orderly, RestoredIfRead, Follows, All, Steps, StepAddrs, ToldToContinue;
    ghost var text0 := t.text;
    var e, a, i;
    e, a, i, brk, peeked := StepThrough(t, n);
    at, inst := a, i;
    ghost var done := t.log;
    ret := Finish(t, e);
    ScriptEnd(t.seen, done, t.log, SINGLE_STEP_SCRIPT + Steps(n));
    if ret == 0 { RestoredIff(text0, brk, at, inst, peeked); }
  }

  // ----- what that means for the tracee's text -----

  /** A full run leaves the text as it was before the breakpoint exactly when the instruction
      word was really read (or happened to be all ones). */
  lemma RestoredIff(text0: Text, brk: int, at: int, inst: bv64, peeked: bool)
    requires inst == if peeked then Word(Write(text0, brk, TWO_NOPS), at) else MINUS_ONE
    ensures RestoredIfRead(Apply(text0, Plan(brk, at, inst)), text0, brk, at, peeked)
  {
    var text1 := Write(text0, brk, TWO_NOPS);
    AppliedPlan(text0, brk, at, inst);
    JoinParts(text1(at), text1(Next(at)));
    if !(peeked || Word(text1, at) == MINUS_ONE) {
      JoinBack(Word(text1, at));
      if Apply(text0, Plan(brk, at, inst))(at) == text1(at) && Apply(text0, Plan(brk, at, inst))(Next(at)) == text1(Next(at)) {
        JoinBack(inst);
        assert false;
      }
    }
  }

  lemma AppliedPlan(text0: Text, brk: int, at: int, inst: bv64)
    ensures forall b :: Apply(text0, Plan(brk, at, inst))(b) ==
                        if b == at then Lo(inst) else if b == Next(at) then Hi(inst) else Write(text0, brk, TWO_NOPS)(b)
  {
    hide Lo, Hi, Join, Patched, Apply;
    var p := Plan(brk, at, inst);
    ApplyNext(text0, [], p[0]);
    ApplyNext(text0, [p[0]], p[1]);
    ApplyNext(text0, [p[0], p[1]], p[2]);
    assert [] + [p[0]] == [p[0]] && [p[0]] + [p[1]] == [p[0], p[1]] && [p[0], p[1]] + [p[2]] == p;
  }

  /** Neither write at the breakpoint alters the instruction after it, exactly when the word was
      really read (or that instruction happened to be all ones); the breakpoint itself is a brk. */
  lemma NeighbourKeptIff(text0: Text, brk: int, at: int, inst: bv64, peeked: bool)
    requires inst == if peeked then Word(Write(text0, brk, TWO_NOPS), at) else MINUS_ONE
    ensures var upper := Write(text0, brk, TWO_NOPS)(Next(at)); var plan := Plan(brk, at, inst);
      && Lo(plan[1].word) == BRK_INST
      && (Hi(plan[1].word) == upper && Hi(plan[2].word) == upper <==> peeked || upper == 0xffffffff)
  {
    var text1 := Write(text0, brk, TWO_NOPS);
    PatchedParts(inst);
    JoinParts(text1(at), text1(Next(at)));
  }

  /** Everything goes well except that the read of the instruction word fails. */
  function UnreadOracle(brk: int, at: int): nat -> Answer {
    (c: nat) => Answer(c != 4, true, true, SIGTRAP, if c == 1 then brk else at, Info(SIGTRAP, 0, TRAP_BRKPT, at))
  }

  /** With that kernel the breakpoint test still reports success, and leaves the text changed. */
  lemma UnreadWordGoesUnnoticed(text0: Text, brk: int, at: int)
    requires at != BAD_ADDR && Word(Write(text0, brk, TWO_NOPS), at) != MINUS_ONE
    ensures var o := UnreadOracle(brk, at); BreakpointSucceeds(o, 0) && Told(o, 0, brk, at) && !o(4).ok
    ensures exists b :: Apply(text0, Plan(brk, at, MINUS_ONE))(b) != Write(text0, brk, TWO_NOPS)(b)
  {
    RestoredIff(text0, brk, at, MINUS_ONE, false);
  }
}
