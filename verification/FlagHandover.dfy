/** Two processes that hand a shared flag to each other: the child works while the flag is 1
    and then sets it to 2, the parent works while it is 2 and sets it back to 1, for a given
    number of rounds (5 in the source).  Reading the flag, printing and writing the flag are
    separate atomic steps; a process whose turn it is not just spins.
 */
module FlagHandover {

  datatype Pc = Spin | Print | Write | Done

  datatype Proc = Proc(i: nat, pc: Pc)

  datatype Who = Child | Parent

  /** A printed line: who printed, and its loop count. */
  datatype Line = Line(who: Who, count: nat)

  datatype State = State(flag: int, child: Proc, parent: Proc, log: seq<Line>)

  const INIT := State(1, Proc(0, Spin), Proc(0, Spin), [])

  function Turn(w: Who): int { if w == Child then 1 else 2 }
  function Other(w: Who): Who { if w == Child then Parent else Child }
  function Get(s: State, w: Who): Proc { if w == Child then s.child else s.parent }
  function Put(s: State, w: Who, p: Proc): State { if w == Child then s.(child := p) else s.(parent := p) }

  /** One step of process `w` with `n` rounds; spinning leaves the state as it is. */
  function Step(n: nat, s: State, w: Who): State {
    var p := Get(s, w);
    match p.pc
    case Spin =>
      if p.i >= n then Put(s, w, p.(pc := Done))
      else if s.flag == Turn(w) then Put(s, w, p.(pc := Print))
      else s
    case Print => Put(s, w, p.(pc := Write)).(log := s.log + [Line(w, p.i)])
    case Write => Put(s, w, Proc(p.i + 1, Spin)).(flag := Turn(Other(w)))
    case Done => s
  }

  function Exec(n: nat, s: State, sched: seq<Who>): State
    decreases sched
  {
    if sched == [] then s else Exec(n, Step(n, s, sched[0]), sched[1..])
  }

  /** child 0, parent 0, child 1, parent 1, ... */
  function Trace(k: nat): seq<Line> {
    if k == 0 then [] else Trace(k - 1) + [Line(Child, k - 1), Line(Parent, k - 1)]
  }

  predicate Idle(n: nat, p: Proc) { p.pc == Spin || (p.pc == Done && p.i == n) }

  /** The process whose turn it is may be anywhere; the other one is spinning or done. */
  predicate Inv(n: nat, s: State) {
    && s.child.i <= n && s.parent.i <= n
    && (s.child.pc == Print || s.child.pc == Write ==> s.child.i < n)
    && (s.parent.pc == Print || s.parent.pc == Write ==> s.parent.i < n)
    && (s.child.pc == Done ==> s.child.i == n) && (s.parent.pc == Done ==> s.parent.i == n)
    && (s.flag == 1 || s.flag == 2)
    && (s.flag == 1 ==>
      && s.child.i == s.parent.i && Idle(n, s.parent)
      && s.log == Trace(s.child.i) + if s.child.pc == Write then [Line(Child, s.child.i)] else [])
    && (s.flag == 2 ==>
      && s.child.i == s.parent.i + 1 && Idle(n, s.child)
      && s.log == Trace(s.parent.i) + [Line(Child, s.parent.i)] + if s.parent.pc == Write then [Line(Parent, s.parent.i)] else [])
  }

  lemma StepInv(n: nat, s: State, w: Who)
    requires Inv(n, s)
    ensures Inv(n, Step(n, s, w))
  {
    var k := Get(s, w).i;
    if w == Parent && s.parent.pc == Write {
      assert Trace(k + 1) == Trace(k) + [Line(Child, k), Line(Parent, k)];
    }
  }

  lemma {:induction false} RunInv(n: nat, s: State, sched: seq<Who>)
    requires Inv(n, s)
    ensures Inv(n, Exec(n, s, sched))
    decreases sched
  {
    if sched != [] {
      StepInv(n, s, sched[0]);
      RunInv(n, Step(n, s, sched[0]), sched[1..]);
    }
  }

  /** In every reachable state at most one process is between its wait and its flag write. */
  lemma MutualExclusion(n: nat, sched: seq<Who>)
    ensures var s := Exec(n, INIT, sched);
      s.child.pc == Spin || s.child.pc == Done || s.parent.pc == Spin || s.parent.pc == Done
  {
    RunInv(n, INIT, sched);
  }

  lemma {:induction false} TraceGrows(j: nat, k: nat)
    requires j <= k
    ensures Trace(j) <= Trace(k)
    ensures j < k ==> Trace(j) + [Line(Child, j), Line(Parent, j)] <= Trace(k)
    decreases k
  {
    if j < k { TraceGrows(j, k - 1); }
  }

  /** What has been printed is always a prefix of the alternating trace, and all of it at the end. */
  lemma AlternatingTrace(n: nat, sched: seq<Who>)
    ensures var s := Exec(n, INIT, sched);
      && s.log <= Trace(n)
      && (s.child.pc == Done && s.parent.pc == Done ==> s.log == Trace(n) && s.flag == 1)
  {
    RunInv(n, INIT, sched);
    var s := Exec(n, INIT, sched);
    var k := s.parent.i;
    TraceGrows(k, n);
    if k < n {
      var full := Trace(k) + [Line(Child, k), Line(Parent, k)];
      assert s.log <= full;
    }
  }

  /** Line 2c is the child's c-th, line 2c + 1 the parent's. */
  lemma {:induction false} TraceAt(k: nat, j: nat)
    requires j < 2 * k
    ensures |Trace(k)| == 2 * k && Trace(k)[j] == Line(if j % 2 == 0 then Child else Parent, j / 2)
  {
    if 1 < k { TraceAt(k - 1, if j < 2 * (k - 1) then j else 0); }
  }

  // ----- progress -----

  function Todo(n: nat, p: Proc): int {
    match p.pc
    case Spin => 3 * (n - p.i) + 1
    case Print => 3 * (n - p.i)
    case Write => 3 * (n - p.i) - 1
    case Done => 0
  }

  function Remaining(n: nat, s: State): int { Todo(n, s.child) + Todo(n, s.parent) }

  predicate Final(s: State) { s.child.pc == Done && s.parent.pc == Done }

  /** A step either only spins or is one of the finitely many steps that remain; unless both
      are done, one of the two processes can take such a step. */
  lemma Progress(n: nat, s: State)
    requires Inv(n, s)
    ensures forall w :: Step(n, s, w) == s || Remaining(n, Step(n, s, w)) == Remaining(n, s) - 1
    ensures !Final(s) ==> exists w :: Step(n, s, w) != s
    ensures 0 <= Remaining(n, s) && (Remaining(n, s) == 0 <==> Final(s))
  {
    if !Final(s) {
      assert Step(n, s, Child) != s || Step(n, s, Parent) != s;
    }
  }

  /** A schedule made of rounds in which both processes get a step, in either order. */
  function Rounds(order: seq<Who>): seq<Who> {
    if order == [] then [] else [order[0], Other(order[0])] + Rounds(order[1..])
  }

  lemma ExecTwo(n: nat, s: State, a: Who, b: Who, rest: seq<Who>)
    ensures Exec(n, s, [a, b] + rest) == Exec(n, Step(n, Step(n, s, a), b), rest)
  {
    var sched := [a, b] + rest;
    assert sched[1..] == [b] + rest && sched[1..][1..] == rest;
  }

  /** A round in which both processes step uses up at least one of the remaining steps. */
  lemma RoundProgress(n: nat, s: State, a: Who)
    requires Inv(n, s)
    ensures var s2 := Step(n, Step(n, s, a), Other(a));
      && Inv(n, s2) && Remaining(n, s2) <= Remaining(n, s)
      && (!Final(s) ==> Remaining(n, s2) < Remaining(n, s))
  {
    hide Inv, Step, Remaining;
    var s1 := Step(n, s, a);
    StepInv(n, s, a);
    StepInv(n, s1, Other(a));
    Progress(n, s);
    Progress(n, s1);
    if !Final(s) && s1 == s {
      var w :| Step(n, s, w) != s;
      assert w == Other(a);
    }
  }

  /** Under any scheduler that lets both processes step in every round, everything is printed,
      in order, within 6n + 2 rounds. */
  lemma {:induction false} FairRunsComplete(n: nat, s: State, order: seq<Who>)
    requires Inv(n, s) && Remaining(n, s) <= |order|
    ensures Final(Exec(n, s, Rounds(order)))
    decreases order
  {
    hide Inv, Step, Remaining, Final;
    Progress(n, s);
    if order != [] {
      var s2 := Step(n, Step(n, s, order[0]), Other(order[0]));
      RoundProgress(n, s, order[0]);
      Progress(n, s2);
      ExecTwo(n, s, order[0], Other(order[0]), Rounds(order[1..]));
      FairRunsComplete(n, s2, order[1..]);
    }
  }

  lemma FairRunsPrintEverything(n: nat, order: seq<Who>)
    requires 6 * n + 2 <= |order|
    ensures var s := Exec(n, INIT, Rounds(order)); Final(s) && s.log == Trace(n)
  {
    FairRunsComplete(n, INIT, order);
    AlternatingTrace(n, Rounds(order));
  }
}
