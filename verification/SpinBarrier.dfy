/** The start barrier of the thread-limit tests.  Main creates `n` children; each child sets
    its own `waiting` flag and then spins on a shared barrier word.  Main scans the flags one
    by one, starting again from the first whenever it reads a zero, then raises the barrier,
    joins every child and frees the array that holds the flags.  A child touches its entry of
    that array when it sets its flag and again after the barrier.
 */
module SpinBarrier {
  import opened Totals

  datatype Pc = Unborn | ToSet | Spinning | Running | Exited

  datatype MainPc = Create(i: nat) | Scan(i: nat) | Raise | Join(i: nat) | Free | Done

  datatype Child = Child(pc: Pc, waiting: bool)

  /** `flagsRead` is every flag that main has read, with what it read. */
  datatype State = State(main: MainPc, ch: seq<Child>, barrier: bool, freed: bool, flagsRead: seq<(nat, bool)>)

  datatype Actor = Main | Thread(k: nat)

  function Init(n: nat): State { State(Create(0), seq(n, _ => Child(Unborn, false)), false, false, []) }

  function ChildStep(c: Child, barrier: bool): Child {
    match c.pc
    case ToSet => Child(Spinning, true)
    case Spinning => if barrier then c.(pc := Running) else c
    case Running => c.(pc := Exited)
    case _ => c
  }

  function MainStep(s: State): State {
    var n := |s.ch|;
    match s.main
    case Create(i) => if i < n then s.(ch := s.ch[i := Child(ToSet, false)], main := Create(i + 1)) else s.(main := Scan(0))
    case Scan(i) =>
      if i < n then s.(flagsRead := s.flagsRead + [(i, s.ch[i].waiting)], main := if s.ch[i].waiting then Scan(i + 1) else Scan(0))
      else s.(main := Raise)
    case Raise => s.(barrier := true, main := Join(0))
    case Join(i) =>
      if i < n then if s.ch[i].pc == Exited then s.(main := Join(i + 1)) else s
      else s.(main := Free)
    case Free => s.(freed := true, main := Done)
    case Done => s
  }

  /** One step; an actor that has to wait leaves the state as it is. */
  function Step(s: State, a: Actor): State {
    match a
    case Main => MainStep(s)
    case Thread(k) => if k < |s.ch| then s.(ch := s.ch[k := ChildStep(s.ch[k], s.barrier)]) else s
  }

  function Exec(s: State, sched: seq<Actor>): State
    decreases sched
  {
    if sched == [] then s else Exec(Step(s, sched[0]), sched[1..])
  }

  // ----- the invariant -----

  predicate ChildOk(s: State, k: nat)
    requires k < |s.ch|
  {
    var c := s.ch[k];
    && (c.pc == Unborn <==> s.main.Create? && s.main.i <= k)
    && (c.waiting <==> c.pc != Unborn && c.pc != ToSet)
    && (s.main.Scan? && k < s.main.i ==> c.waiting)
    && (s.main == Raise || s.barrier ==> c.waiting)
    && (c.pc == Running || c.pc == Exited ==> s.barrier)
    && ((s.main.Join? && k < s.main.i) || s.main == Free || s.main == Done ==> c.pc == Exited)
  }

  /** The last i reads are one pass over the first i flags, all set. */
  predicate Pass(flagsRead: seq<(nat, bool)>, i: nat) {
    i <= |flagsRead| && forall k | 0 <= k < i :: flagsRead[|flagsRead| - i + k] == (k, true)
  }

  predicate Inv(s: State) {
    && (s.main.Scan? ==> Pass(s.flagsRead, s.main.i))
    && (s.main == Raise || s.barrier ==> Pass(s.flagsRead, |s.ch|))
    && (s.main.Create? || s.main.Scan? || s.main.Join? ==> s.main.i <= |s.ch|)
    && (s.barrier <==> s.main.Join? || s.main == Free || s.main == Done)
    && (s.freed <==> s.main == Done)
    && forall k | 0 <= k < |s.ch| :: ChildOk(s, k)
  }

  lemma InitInv(n: nat)
    ensures Inv(Init(n))
  {}

  lemma StepInv(s: State, a: Actor)
    requires Inv(s)
    ensures Inv(Step(s, a)) && |Step(s, a).ch| == |s.ch|
  {
    var s' := Step(s, a);
    forall k | 0 <= k < |s.ch| ensures ChildOk(s', k) {
      assert ChildOk(s, k);
      if s.main.Scan? && s.main.i < |s.ch| { assert ChildOk(s, s.main.i); }
    }
  }

  lemma {:induction false} RunInv(s: State, sched: seq<Actor>)
    requires Inv(s)
    ensures Inv(Exec(s, sched)) && |Exec(s, sched).ch| == |s.ch|
    decreases sched
  {
    if sched != [] {
      StepInv(s, sched[0]);
      RunInv(Step(s, sched[0]), sched[1..]);
    }
  }

  /** In every reachable state: if any child has left the spin loop then all have set their
      flag; and once the array is freed every child has exited, so none can touch it. */
  lemma BarrierSafety(n: nat, sched: seq<Actor>)
    ensures var s := Exec(Init(n), sched);
      && |s.ch| == n
      && (forall j, k | 0 <= j < n && 0 <= k < n :: s.ch[j].pc == Running || s.ch[j].pc == Exited ==> s.ch[k].waiting)
      && (s.freed ==> forall k | 0 <= k < n :: s.ch[k].pc == Exited && Step(s, Thread(k)) == s)
  {
    InitInv(n);
    RunInv(Init(n), sched);
    var s := Exec(Init(n), sched);
    forall j, k | 0 <= j < n && 0 <= k < n && (s.ch[j].pc == Running || s.ch[j].pc == Exited) ensures s.ch[k].waiting {
      assert ChildOk(s, j) && ChildOk(s, k);
    }
    forall k | 0 <= k < n && s.freed ensures s.ch[k].pc == Exited && Step(s, Thread(k)) == s {
      assert ChildOk(s, k);
      assert s.ch[k := s.ch[k]] == s.ch;
    }
  }

  /** Main raises the barrier only after one uninterrupted pass in which it read every flag set: a
      clear flag anywhere makes it start again from the first. */
  lemma FullPassBeforeRaise(n: nat, sched: seq<Actor>)
    ensures var s := Exec(Init(n), sched);
      s.main == Raise || s.barrier ==>
        n <= |s.flagsRead| && forall k | 0 <= k < n :: s.flagsRead[|s.flagsRead| - n + k] == (k, true)
  {
    InitInv(n);
    RunInv(Init(n), sched);
  }

  /** The flags only ever go up once a child exists: what the non-atomic scan relies on. */
  lemma FlagsMonotone(s: State, a: Actor, k: nat)
    requires Inv(s) && k < |s.ch| && s.ch[k].waiting
    ensures Step(s, a).ch[k].waiting
  {
    assert ChildOk(s, k);
  }

  // ----- completion under fair scheduling -----

  const CHILD_TODO: Child -> int :=
    (c: Child) => match c.pc
      case Unborn => 3
      case ToSet => 3
      case Spinning => 2
      case Running => 1
      case Exited => 0

  predicate AllWaiting(s: State) { forall k | 0 <= k < |s.ch| :: s.ch[k].waiting }

  /** Work left for main; a scan that is bound to restart counts as a constant. */
  function MainTodo(s: State): int {
    var n := |s.ch|;
    match s.main
    case Create(i) => 2 * n + 9 + n - i
    case Scan(i) => if AllWaiting(s) then n + 6 + n - i else 2 * n + 7
    case Raise => n + 4
    case Join(i) => n - i + 3
    case Free => 1
    case Done => 0
  }

  function Potential(s: State): int { Total(CHILD_TODO, s.ch) + MainTodo(s) }

  predicate Productive(s: State, a: Actor) { Potential(Step(s, a)) < Potential(s) }

  lemma PotentialNonNegative(s: State)
    requires Inv(s)
    ensures 0 <= Potential(s)
  {
    TotalBetween(CHILD_TODO, s.ch, 0, 3);
  }

  /** A child's step: productive unless it is unborn, exited or spinning on a low barrier,
      in which case nothing changes. */
  lemma ThreadEffect(s: State, k: nat)
    requires Inv(s) && k < |s.ch|
    ensures if s.ch[k].pc == ToSet || s.ch[k].pc == Running || (s.ch[k].pc == Spinning && s.barrier)
            then Productive(s, Thread(k)) else Step(s, Thread(k)) == s
  {
    var c' := ChildStep(s.ch[k], s.barrier);
    var s' := Step(s, Thread(k));
    assert ChildOk(s, k);
    TotalUpdate(CHILD_TODO, s.ch, k, c');
    if c' == s.ch[k] {
      assert s.ch[k := c'] == s.ch;
    } else if AllWaiting(s) {
      forall j | 0 <= j < |s.ch| ensures s'.ch[j].waiting {}
    }
  }

  /** A step of main: productive, except that it may wait in a join, and may walk about in a
      scan that some flag will stop. */
  lemma MainEffect(s: State)
    requires Inv(s)
    ensures var s' := MainStep(s);
      || Productive(s, Main)
      || s' == s
      || (s.main.Scan? && s'.main.Scan? && !AllWaiting(s) && s'.ch == s.ch && s'.barrier == s.barrier && Potential(s') == Potential(s))
    ensures Productive(s, Main) || s.main == Done || s.main.Join? || (s.main.Scan? && !AllWaiting(s))
  {
    var s' := MainStep(s);
    match s.main
    case Create(i) => if i < |s.ch| { assert ChildOk(s, i); TotalUpdate(CHILD_TODO, s.ch, i, s'.ch[i]); }
    case Scan(i) =>
      if i == |s.ch| {
        forall k | 0 <= k < |s.ch| ensures s.ch[k].waiting { assert ChildOk(s, k); }
      }
      assert AllWaiting(s') == AllWaiting(s);
    case _ =>
  }

  lemma StepEffect(s: State, a: Actor)
    requires Inv(s)
    ensures Productive(s, a) || Step(s, a) == s ||
            (a == Main && s.main.Scan? && Step(s, a).main.Scan? && !AllWaiting(s) && Step(s, a).ch == s.ch
             && Step(s, a).barrier == s.barrier && Potential(Step(s, a)) == Potential(s))
  {
    match a
    case Main => MainEffect(s);
    case Thread(k) => if k < |s.ch| { ThreadEffect(s, k); }
  }

  /** Until main is done, main or some child is productive. */
  lemma SomeoneProductive(s: State) returns (a: Actor)
    requires Inv(s) && s.main != Done
    ensures Productive(s, a) && (a.Thread? ==> a.k < |s.ch|)
  {
    MainEffect(s);
    if Productive(s, Main) {
      a := Main;
    } else if s.main.Scan? {
      var k :| 0 <= k < |s.ch| && !s.ch[k].waiting;
      assert ChildOk(s, k);
      ThreadEffect(s, k);
      a := Thread(k);
    } else {
      var i := s.main.i;
      if i < |s.ch| {
        assert ChildOk(s, i);
        ThreadEffect(s, i);
      }
      a := Thread(i);
    }
  }

  /** An actor that is productive stays so while the others make no progress. */
  lemma StaysProductive(s: State, a: Actor, b: Actor)
    requires Inv(s) && Productive(s, a) && !Productive(s, b)
    ensures Productive(Step(s, b), a) && Potential(Step(s, b)) == Potential(s)
  {
    StepEffect(s, b);
    var s' := Step(s, b);
    if s' != s {
      assert a.Thread?;
      assert a.k < |s.ch|;
      StepInv(s, b);
      ThreadEffect(s, a.k);
      ThreadEffect(s', a.k);
    }
  }

  /** A round in which every actor steps at least once makes progress. */
  lemma {:induction false} RoundProgress(s: State, round: seq<Actor>, a: Actor)
    requires Inv(s) && Productive(s, a) && a in round
    ensures Inv(Exec(s, round)) && Potential(Exec(s, round)) < Potential(s)
    decreases round
  {
    var b := round[0];
    StepInv(s, b);
    if Productive(s, b) {
      NeverMore(Step(s, b), round[1..]);
    } else {
      StaysProductive(s, a, b);
      RoundProgress(Step(s, b), round[1..], a);
    }
  }

  lemma {:induction false} NeverMore(s: State, sched: seq<Actor>)
    requires Inv(s)
    ensures Inv(Exec(s, sched)) && Potential(Exec(s, sched)) <= Potential(s) && |Exec(s, sched).ch| == |s.ch|
    decreases sched
  {
    if sched != [] {
      StepInv(s, sched[0]);
      StepEffect(s, sched[0]);
      NeverMore(Step(s, sched[0]), sched[1..]);
    }
  }

  ghost predicate Fair(n: nat, round: seq<Actor>) {
    Main in round && forall k | 0 <= k < n :: Thread(k) in round
  }

  function Flatten(rounds: seq<seq<Actor>>): seq<Actor> {
    if rounds == [] then [] else rounds[0] + Flatten(rounds[1..])
  }

  lemma {:induction false} ExecAppend(s: State, x: seq<Actor>, y: seq<Actor>)
    ensures Exec(s, x + y) == Exec(Exec(s, x), y)
    decreases x
  {
    if x == [] { assert x + y == y; }
    else {
      assert (x + y)[1..] == x[1..] + y;
      ExecAppend(Step(s, x[0]), x[1..], y);
    }
  }

  lemma DoneStays(s: State, sched: seq<Actor>)
    requires Inv(s) && s.main == Done
    ensures Exec(s, sched).main == Done
    decreases sched
  {
    if sched != [] {
      StepInv(s, sched[0]);
      DoneStays(Step(s, sched[0]), sched[1..]);
    }
  }

  /** Whatever the order inside each round, enough rounds in which everyone steps bring main
      to its end. */
  lemma {:induction false} FairRunsComplete(s: State, rounds: seq<seq<Actor>>)
    requires Inv(s) && Potential(s) <= |rounds|
    requires forall r | r in rounds :: Fair(|s.ch|, r)
    ensures Exec(s, Flatten(rounds)).main == Done
    decreases rounds
  {
    if s.main == Done {
      DoneStays(s, Flatten(rounds));
    } else {
      var a := SomeoneProductive(s);
      PotentialNonNegative(Step(s, a)) by { StepInv(s, a); }
      var r := rounds[0];
      assert r in rounds;
      assert Fair(|s.ch|, r) && a in r;
      RoundProgress(s, r, a);
      NeverMore(s, r);
      ExecAppend(s, r, Flatten(rounds[1..]));
      FairRunsComplete(Exec(s, r), rounds[1..]);
    }
  }

  lemma {:induction false} UnbornTodo(n: nat)
    ensures Total(CHILD_TODO, seq(n, _ => Child(Unborn, false))) == 3 * n
  {
    if 0 < n {
      assert seq(n, _ => Child(Unborn, false))[..n - 1] == seq(n - 1, _ => Child(Unborn, false));
      UnbornTodo(n - 1);
    }
  }

  /** From the start, 6n + 9 such rounds free the array with every child gone. */
  lemma FairRunsFinish(n: nat, rounds: seq<seq<Actor>>)
    requires 6 * n + 9 <= |rounds|
    requires forall r | r in rounds :: Fair(n, r)
    ensures var s := Exec(Init(n), Flatten(rounds));
      s.main == Done && s.freed && |s.ch| == n && forall k | 0 <= k < n :: s.ch[k].pc == Exited && s.ch[k].waiting
  {
    InitInv(n);
    UnbornTodo(n);
    FairRunsComplete(Init(n), rounds);
    RunInv(Init(n), Flatten(rounds));
    BarrierSafety(n, Flatten(rounds));
    var s := Exec(Init(n), Flatten(rounds));
    assert s.freed;
    forall k | 0 <= k < n ensures s.ch[k].pc == Exited && s.ch[k].waiting {
      assert s.ch[k].pc == Exited;
    }
  }
}
