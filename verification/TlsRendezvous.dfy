/** The thread-local-storage test: the main thread creates `n` children, waits on each
    child's `sync` semaphore, then posts each child's `start` semaphore, joins them and
    checks what they recorded.  Each child increments its own `tls` and the unprotected
    shared `notls` `inc` times (the source uses inc = 10000); an increment of `notls` is a
    load and a later store.  Every actor takes one atomic step at a time, in any order.
 */
module TlsRendezvous {
  import opened Totals
  import opened Words

  datatype Pc =
    | Unborn           // not created yet
    | ToPost           // about to post sync
    | ToWait           // about to wait on start
    | Top(i: nat)      // at the loop test with counter i
    | Load(i: nat)     // tls incremented, about to load notls
    | Save(i: nat)     // notls loaded, about to store
    | Record           // loop done, about to store data->tls
    | Exited

  datatype Thread = Thread(pc: Pc, tls: int, reg: int, sync: nat, start: nat, recorded: int)

  datatype MainPc = Create(i: nat) | Sync(i: nat) | Start(i: nat) | Join(i: nat) | Check(i: nat) | Finished(passed: bool)

  datatype State = State(main: MainPc, th: seq<Thread>, notls: int)

  datatype Actor = Main | Child(k: nat)

  const FRESH := Thread(Unborn, 0, 0, 0, 0, 0)

  function Init(n: nat): State { State(Create(0), seq(n, _ => FRESH), 0) }

  predicate Enabled(s: State, a: Actor) {
    match a
    case Child(k) =>
      && k < |s.th|
      && !s.th[k].pc.Unborn? && !s.th[k].pc.Exited?
      && (s.th[k].pc.ToWait? ==> 0 < s.th[k].start)
    case Main =>
      match s.main
      case Create(_) => true
      case Sync(i) => i < |s.th| ==> 0 < s.th[i].sync
      case Start(_) => true
      case Join(i) => i < |s.th| ==> s.th[i].pc.Exited?
      case Check(_) => true
      case Finished(_) => false
  }

  function ThreadStep(inc: nat, t: Thread, notls: int): (Thread, int) {
    match t.pc
    case ToPost => (t.(sync := t.sync + 1, pc := ToWait), notls)
    case ToWait => (if 0 < t.start then t.(start := t.start - 1, pc := Top(0)) else t, notls)
    case Top(i) => (if i < inc then t.(tls := t.tls + 1, pc := Load(i)) else t.(pc := Record), notls)
    case Load(i) => (t.(reg := notls, pc := Save(i)), notls)
    case Save(i) => (t.(pc := Top(i + 1)), t.reg + 1)
    case Record => (t.(recorded := t.tls, pc := Exited), notls)
    case _ => (t, notls)
  }

  function MainStep(inc: nat, s: State): State {
    var n := |s.th|;
    match s.main
    case Create(i) =>
      if i < n then s.(th := s.th[i := s.th[i].(pc := ToPost)], main := Create(i + 1)) else s.(main := Sync(0))
    case Sync(i) =>
      if i < n then
        if 0 < s.th[i].sync then s.(th := s.th[i := s.th[i].(sync := s.th[i].sync - 1)], main := Sync(i + 1)) else s
      else s.(main := Start(0))
    case Start(i) =>
      if i < n then s.(th := s.th[i := s.th[i].(start := s.th[i].start + 1)], main := Start(i + 1)) else s.(main := Join(0))
    case Join(i) => if i < n then s.(main := Join(i + 1)) else s.(main := Check(0))
    case Check(i) =>
      if i < n then s.(main := if s.th[i].recorded == inc then Check(i + 1) else Finished(false)) else s.(main := Finished(true))
    case Finished(_) => s
  }

  function Step(inc: nat, s: State, a: Actor): State {
    match a
    case Main => MainStep(inc, s)
    case Child(k) =>
      if k < |s.th| then
        var (t, v) := ThreadStep(inc, s.th[k], s.notls);
        s.(th := s.th[k := t], notls := v)
      else s
  }

  /** The schedule only names actors that can move. */
  predicate Runs(inc: nat, s: State, sched: seq<Actor>)
    decreases sched
  {
    sched == [] || (Enabled(s, sched[0]) && Runs(inc, Step(inc, s, sched[0]), sched[1..]))
  }

  function Exec(inc: nat, s: State, sched: seq<Actor>): State
    decreases sched
  {
    if sched == [] then s else Exec(inc, Step(inc, s, sched[0]), sched[1..])
  }

  // ----- the invariant -----

  /** The child has been created, posted sync, passed start. */
  predicate Posted(t: Thread) { !t.pc.Unborn? && !t.pc.ToPost? }
  predicate Released(t: Thread) { Posted(t) && !t.pc.ToWait? }

  /** Main has consumed child k's sync, or granted its start. */
  predicate Consumed(m: MainPc, k: nat) { !m.Create? && (m.Sync? ==> k < m.i) }
  predicate Granted(m: MainPc, k: nat) { !m.Create? && !m.Sync? && (m.Start? ==> k < m.i) }

  function Bit(b: bool): nat { if b then 1 else 0 }

  predicate TlsOk(inc: nat, t: Thread) {
    match t.pc
    case Top(i) => i <= inc && t.tls == i
    case Load(i) => i < inc && t.tls == i + 1
    case Save(i) => i < inc && t.tls == i + 1
    case Record => t.tls == inc
    case Exited => t.tls == inc && t.recorded == inc
    case _ => t.tls == 0
  }

  predicate ThreadOk(inc: nat, m: MainPc, t: Thread, k: nat) {
    && (t.pc.Unborn? <==> m.Create? && m.i <= k)
    && Bit(Posted(t)) == t.sync + Bit(Consumed(m, k))
    && Bit(Granted(m, k)) == t.start + Bit(Released(t))
    && TlsOk(inc, t)
    && (m.Join? && k < m.i ==> t.pc.Exited?)
    && (m.Check? || m.Finished? ==> t.pc.Exited?)
  }

  /** Stores to notls that one child has completed. */
  function Stores(inc: nat): Thread -> int {
    (t: Thread) => match t.pc
      case Top(i) => i
      case Load(i) => i
      case Save(i) => i
      case Record => inc
      case Exited => inc
      case _ => 0
  }

  ghost predicate Inv(inc: nat, s: State) {
    && (!s.main.Finished? ==> s.main.i <= |s.th|)
    && (s.main.Finished? ==> s.main.passed)
    && (forall k | 0 <= k < |s.th| :: ThreadOk(inc, s.main, s.th[k], k))
    && s.notls <= Total(Stores(inc), s.th)
    && (forall k | 0 <= k < |s.th| && s.th[k].pc.Save? :: s.th[k].reg <= Total(Stores(inc), s.th))
  }

  lemma {:induction false} NoStores(inc: nat, n: nat)
    ensures Total(Stores(inc), seq(n, _ => FRESH)) == 0
  {
    if 0 < n {
      assert seq(n, _ => FRESH)[..n - 1] == seq(n - 1, _ => FRESH);
      NoStores(inc, n - 1);
    }
  }

  lemma InitInv(inc: nat, n: nat)
    ensures Inv(inc, Init(n))
  {
    NoStores(inc, n);
  }

  /** One step of a child, seen from that child alone. */
  lemma ChildLocal(inc: nat, m: MainPc, t: Thread, k: nat, notls: int)
    requires ThreadOk(inc, m, t, k) && !t.pc.Unborn? && !t.pc.Exited? && (t.pc.ToWait? ==> 0 < t.start)
    ensures var (t', v) := ThreadStep(inc, t, notls);
      && ThreadOk(inc, m, t', k)
      && Stores(inc)(t') == Stores(inc)(t) + Bit(t.pc.Save?)
      && v == (if t.pc.Save? then t.reg + 1 else notls)
      && (t'.pc.Save? ==> t'.reg == notls)
  {}

  lemma ChildInv(inc: nat, s: State, k: nat)
    requires Inv(inc, s) && Enabled(s, Child(k))
    ensures Inv(inc, Step(inc, s, Child(k)))
  {
    var (t, v) := ThreadStep(inc, s.th[k], s.notls);
    ChildLocal(inc, s.main, s.th[k], k, s.notls);
    hide ThreadStep, ThreadOk, Stores;
    TotalUpdate(Stores(inc), s.th, k, t);
  }

  /** What a step of main does to child k, from its own position i. */
  lemma MainLocal(inc: nat, s: State, k: nat)
    requires k < |s.th| && ThreadOk(inc, s.main, s.th[k], k) && Enabled(s, Main)
    requires s.main.i <= |s.th|
    requires s.main.i < |s.th| ==> ThreadOk(inc, s.main, s.th[s.main.i], s.main.i)
    ensures var s' := MainStep(inc, s);
      && |s'.th| == |s.th| && ThreadOk(inc, s'.main, s'.th[k], k)
      && Stores(inc)(s'.th[k]) == Stores(inc)(s.th[k])
      && (s'.th[k].pc.Save? <==> s.th[k].pc.Save?) && s'.th[k].reg == s.th[k].reg
  {}

  lemma {:induction false} SameTotal(inc: nat, th: seq<Thread>, th': seq<Thread>)
    requires |th| == |th'| && forall k | 0 <= k < |th| :: Stores(inc)(th[k]) == Stores(inc)(th'[k])
    ensures Total(Stores(inc), th) == Total(Stores(inc), th')
  {
    if th != [] { SameTotal(inc, th[..|th| - 1], th'[..|th| - 1]); }
  }

  lemma MainInv(inc: nat, s: State)
    requires Inv(inc, s) && Enabled(s, Main)
    ensures Inv(inc, MainStep(inc, s))
  {
    var s' := MainStep(inc, s);
    assert s.main.i < |s.th| ==> ThreadOk(inc, s.main, s.th[s.main.i], s.main.i);
    forall k | 0 <= k < |s.th|
      ensures |s'.th| == |s.th| && ThreadOk(inc, s'.main, s'.th[k], k)
      ensures Stores(inc)(s'.th[k]) == Stores(inc)(s.th[k])
      ensures (s'.th[k].pc.Save? <==> s.th[k].pc.Save?) && s'.th[k].reg == s.th[k].reg
    {
      MainLocal(inc, s, k);
    }
    SameTotal(inc, s.th, s'.th);
  }

  lemma StepInv(inc: nat, s: State, a: Actor)
    requires Inv(inc, s) && Enabled(s, a)
    ensures Inv(inc, Step(inc, s, a))
  {
    if a.Child? { ChildInv(inc, s, a.k); } else { MainInv(inc, s); }
  }

  /** The invariant holds along every run, whatever the interleaving and the number of children. */
  lemma {:induction false} RunInv(inc: nat, s: State, sched: seq<Actor>)
    requires Inv(inc, s) && Runs(inc, s, sched)
    ensures Inv(inc, Exec(inc, s, sched)) && |Exec(inc, s, sched).th| == |s.th|
    decreases sched
  {
    if sched != [] {
      StepInv(inc, s, sched[0]);
      RunInv(inc, Step(inc, s, sched[0]), sched[1..]);
    }
  }

  // ----- what the invariant says -----

  /** No child is past its wait on `start` before every child has posted `sync`. */
  lemma NoEarlyStart(inc: nat, n: nat, sched: seq<Actor>, k: nat, j: nat)
    requires Runs(inc, Init(n), sched) && k < n && j < n
    ensures var s := Exec(inc, Init(n), sched);
      |s.th| == n && (Released(s.th[k]) ==> Posted(s.th[j]))
  {
    InitInv(inc, n);
    RunInv(inc, Init(n), sched);
    var s := Exec(inc, Init(n), sched);
    assert ThreadOk(inc, s.main, s.th[k], k) && ThreadOk(inc, s.main, s.th[j], j);
  }

  /** Every child that main has joined has recorded exactly `inc`, and so has never seen another
      child's increments; the shared counter never exceeds the stores made to it. */
  lemma CountersInEveryState(inc: nat, n: nat, sched: seq<Actor>)
    requires Runs(inc, Init(n), sched)
    ensures var s := Exec(inc, Init(n), sched);
      && |s.th| == n
      && (forall k | 0 <= k < n && (s.main.Check? || s.main.Finished? || (s.main.Join? && k < s.main.i)) :: s.th[k].recorded == inc)
      && (forall k | 0 <= k < n && s.th[k].pc.Top? :: s.th[k].tls == s.th[k].pc.i)
      && s.notls <= Total(Stores(inc), s.th) <= inc * n
  {
    InitInv(inc, n);
    RunInv(inc, Init(n), sched);
    var s := Exec(inc, Init(n), sched);
    forall k | 0 <= k < n
      ensures ThreadOk(inc, s.main, s.th[k], k) && 0 <= Stores(inc)(s.th[k]) <= inc
    {
      assert ThreadOk(inc, s.main, s.th[k], k);
    }
    TotalBetween(Stores(inc), s.th, 0, inc);
  }

  function Mains(k: nat): seq<Actor> { seq(k, _ => Main) }

  /** The final comparison, whatever the children recorded: it passes exactly when every record not
      yet compared is `inc`. */
  lemma {:induction false} CheckIff(inc: nat, s: State)
    requires s.main.Check? && s.main.i <= |s.th|
    ensures Exec(inc, s, Mains(|s.th| - s.main.i + 1)) ==
            s.(main := Finished(forall k | s.main.i <= k < |s.th| :: s.th[k].recorded == inc))
    decreases |s.th| - s.main.i
  {
    var s', rest := MainStep(inc, s), Mains(|s.th| - s.main.i);
    assert Mains(|s.th| - s.main.i + 1)[1..] == rest;
    if s'.main.Check? { CheckIff(inc, s'); } else { Halted(inc, s', |rest|); }
  }

  lemma {:induction false} Halted(inc: nat, s: State, k: nat)
    requires s.main.Finished?
    ensures Exec(inc, s, Mains(k)) == s
  {
    if 0 < k {
      assert Mains(k)[1..] == Mains(k - 1);
      Halted(inc, s, k - 1);
    }
  }

  lemma Unfold(inc: nat, s: State, a: Actor, rest: seq<Actor>)
    ensures Exec(inc, s, [a] + rest) == Exec(inc, Step(inc, s, a), rest)
    ensures Runs(inc, s, [a] + rest) == (Enabled(s, a) && Runs(inc, Step(inc, s, a), rest))
  {
    assert ([a] + rest)[1..] == rest;
  }

  /** A child about to load or to save, seen from the whole state. */
  lemma MemoryStep(inc: nat, s: State, k: nat)
    requires k < |s.th| && (s.th[k].pc.Load? || s.th[k].pc.Save?)
    ensures var s', t := Step(inc, s, Child(k)), s.th[k];
      && Enabled(s, Child(k)) && |s'.th| == |s.th|
      && (forall j | 0 <= j < |s.th| && j != k :: s'.th[j] == s.th[j])
      && (if t.pc.Load? then s'.th[k].pc.Save? && s'.th[k].reg == s.notls == s'.notls else s'.notls == t.reg + 1)
      && Total(Stores(inc), s'.th) == Total(Stores(inc), s.th) + Bit(t.pc.Save?)
  {
    var t := ThreadStep(inc, s.th[k], s.notls).0;
    assert Stores(inc)(t) == Stores(inc)(s.th[k]) + Bit(s.th[k].pc.Save?);
    hide Stores;
    TotalUpdate(Stores(inc), s.th, k, t);
  }

  /** When two children have both loaded before either stores, one increment is lost:
      two stores, one increment. */
  lemma LostUpdate(inc: nat, s: State, j: nat, k: nat)
    requires j < |s.th| && k < |s.th| && j != k && s.th[j].pc.Load? && s.th[k].pc.Load?
    ensures var sched := [Child(j), Child(k), Child(j), Child(k)];
      && Runs(inc, s, sched)
      && Exec(inc, s, sched).notls == s.notls + 1
      && Total(Stores(inc), Exec(inc, s, sched).th) == Total(Stores(inc), s.th) + 2
  {
    hide Exec, Runs, Step, Stores, Total, Enabled;
    var s1 := Step(inc, s, Child(j));
    var s2 := Step(inc, s1, Child(k));
    var s3 := Step(inc, s2, Child(j));
    var s4 := Step(inc, s3, Child(k));
    MemoryStep(inc, s, j);
    MemoryStep(inc, s1, k);
    MemoryStep(inc, s2, j);
    MemoryStep(inc, s3, k);
    UnfoldFour(inc, s, Child(j), Child(k), Child(j), Child(k));
  }

  lemma UnfoldFour(inc: nat, s: State, a: Actor, b: Actor, c: Actor, d: Actor)
    ensures var s1 := Step(inc, s, a); var s2 := Step(inc, s1, b); var s3 := Step(inc, s2, c);
      && Exec(inc, s, [a, b, c, d]) == Step(inc, s3, d)
      && Runs(inc, s, [a, b, c, d]) == (Enabled(s, a) && Enabled(s1, b) && Enabled(s2, c) && Enabled(s3, d))
  {
    hide Step, Enabled;
    var s1 := Step(inc, s, a);
    var s2 := Step(inc, s1, b);
    var s3 := Step(inc, s2, c);
    Unfold(inc, s, a, [b, c, d]);
    Unfold(inc, s1, b, [c, d]);
    Unfold(inc, s2, c, [d]);
    Unfold(inc, s3, d, []);
    assert [a, b, c, d] == [a] + [b, c, d] && [b, c, d] == [b] + [c, d] && [c, d] == [c] + [d] && [d] == [d] + [];
  }

  // ----- every run ends, passes, and takes the same number of steps -----

  /** Steps a child still has to take. */
  function Todo(inc: nat): Thread -> int {
    (t: Thread) => match t.pc
      case Unborn => 3 * inc + 4
      case ToPost => 3 * inc + 4
      case ToWait => 3 * inc + 3
      case Top(i) => 3 * (inc - i) + 2
      case Load(i) => 3 * (inc - i) + 1
      case Save(i) => 3 * (inc - i)
      case Record => 1
      case Exited => 0
  }

  function MainTodo(n: nat, m: MainPc): int {
    match m
    case Create(i) => 4 * (n + 1) + n - i + 1
    case Sync(i) => 3 * (n + 1) + n - i + 1
    case Start(i) => 2 * (n + 1) + n - i + 1
    case Join(i) => (n + 1) + n - i + 1
    case Check(i) => n - i + 1
    case Finished(_) => 0
  }

  function Remaining(inc: nat, s: State): int { MainTodo(|s.th|, s.main) + Total(Todo(inc), s.th) }

  lemma {:induction false} SameTodo(inc: nat, th: seq<Thread>, th': seq<Thread>)
    requires |th| == |th'| && forall k | 0 <= k < |th| :: Todo(inc)(th[k]) == Todo(inc)(th'[k])
    ensures Total(Todo(inc), th) == Total(Todo(inc), th')
  {
    if th != [] { SameTodo(inc, th[..|th| - 1], th'[..|th| - 1]); }
  }

  /** One step of a child leaves it one step less to take. */
  lemma ChildCounts(inc: nat, s: State, k: nat)
    requires Inv(inc, s) && Enabled(s, Child(k))
    ensures Remaining(inc, Step(inc, s, Child(k))) == Remaining(inc, s) - 1
  {
    var (t, v) := ThreadStep(inc, s.th[k], s.notls);
    assert ThreadOk(inc, s.main, s.th[k], k);
    assert Todo(inc)(t) == Todo(inc)(s.th[k]) - 1;
    hide Todo, ThreadStep, Inv;
    TotalUpdate(Todo(inc), s.th, k, t);
  }

  /** A step of main leaves main one step less, and each child as many as before. */
  lemma MainCounts(inc: nat, s: State)
    requires Inv(inc, s) && Enabled(s, Main)
    ensures Remaining(inc, MainStep(inc, s)) == Remaining(inc, s) - 1
  {
    var s' := MainStep(inc, s);
    assert s.main.i < |s.th| ==> ThreadOk(inc, s.main, s.th[s.main.i], s.main.i);
    SameTodo(inc, s.th, s'.th);
  }

  lemma StepCounts(inc: nat, s: State, a: Actor)
    requires Inv(inc, s) && Enabled(s, a)
    ensures Remaining(inc, Step(inc, s, a)) == Remaining(inc, s) - 1
  {
    hide Inv, Remaining;
    if a.Child? { ChildCounts(inc, s, a.k); } else { MainCounts(inc, s); }
  }

  lemma {:induction false} RunCounts(inc: nat, s: State, sched: seq<Actor>)
    requires Inv(inc, s) && Runs(inc, s, sched)
    ensures Remaining(inc, Exec(inc, s, sched)) == Remaining(inc, s) - |sched|
    decreases sched
  {
    if sched != [] {
      StepInv(inc, s, sched[0]);
      StepCounts(inc, s, sched[0]);
      RunCounts(inc, Step(inc, s, sched[0]), sched[1..]);
    }
  }

  /** No deadlock: until main has finished, someone can move. */
  lemma CanMove(inc: nat, s: State)
    requires Inv(inc, s) && !s.main.Finished?
    ensures exists a :: Enabled(s, a)
  {
    var i := s.main.i;
    if i < |s.th| {
      assert ThreadOk(inc, s.main, s.th[i], i);
      assert Enabled(s, Main) || Enabled(s, Child(i));
    } else {
      assert Enabled(s, Main);
    }
  }

  lemma {:induction false} FreshTodo(inc: nat, n: nat)
    ensures Total(Todo(inc), seq(n, _ => FRESH)) == n * (3 * inc + 4)
  {
    if 0 < n {
      assert seq(n, _ => FRESH)[..n - 1] == seq(n - 1, _ => FRESH);
      FreshTodo(inc, n - 1);
    }
  }

  lemma {:induction false} AllExited(inc: nat, th: seq<Thread>)
    requires forall k | 0 <= k < |th| :: th[k].pc.Exited?
    ensures Total(Todo(inc), th) == 0 && Total(Stores(inc), th) == inc * |th|
  {
    if th != [] { AllExited(inc, th[..|th| - 1]); }
  }

  /** A run that cannot go on has passed the test, and every such run has the same length. */
  lemma EveryMaximalRunPasses(inc: nat, n: nat, sched: seq<Actor>)
    requires Runs(inc, Init(n), sched)
    requires forall a :: !Enabled(Exec(inc, Init(n), sched), a)
    ensures var s := Exec(inc, Init(n), sched);
      && s.main == Finished(true)
      && |s.th| == n && (forall k | 0 <= k < n :: s.th[k].recorded == inc)
      && |sched| == 5 * (n + 1) + n * (3 * inc + 4)
  {
    InitInv(inc, n);
    RunInv(inc, Init(n), sched);
    RunCounts(inc, Init(n), sched);
    FreshTodo(inc, n);
    var s := Exec(inc, Init(n), sched);
    if !s.main.Finished? {
      CanMove(inc, s);
      assert false;
    }
    forall k | 0 <= k < n ensures s.th[k].pc.Exited? && s.th[k].recorded == inc {
      assert ThreadOk(inc, s.main, s.th[k], k);
    }
    AllExited(inc, s.th);
  }

  // ----- the values the shared counter can end with -----

  predicate AllStored(inc: nat, s: State) { |s.th| > 0 && forall k | 0 <= k < |s.th| :: Stores(inc)(s.th[k]) == inc }

  /** Once anything has been stored the counter is not zero, a child that has stored before has loaded
      a non-zero value, and when all stores are done the counter is two (or the only one). */
  ghost predicate LowInv(inc: nat, s: State) {
    && 0 <= s.notls
    && (forall k | 0 <= k < |s.th| :: 0 < Stores(inc)(s.th[k]) ==> 1 <= s.notls)
    && (forall k | 0 <= k < |s.th| && s.th[k].pc.Save? :: 0 <= s.th[k].reg && (0 < s.th[k].pc.i ==> 1 <= s.th[k].reg))
    && (AllStored(inc, s) ==> Min(inc, 2) <= s.notls)
  }

  lemma ChildLow(inc: nat, s: State, k: nat)
    requires Inv(inc, s) && LowInv(inc, s) && Enabled(s, Child(k))
    ensures LowInv(inc, Step(inc, s, Child(k)))
  {
    var t, t' := s.th[k], ThreadStep(inc, s.th[k], s.notls).0;
    var s' := Step(inc, s, Child(k));
    assert ThreadOk(inc, s.main, t, k);
    ChildLocal(inc, s.main, t, k, s.notls);
    assert forall j | 0 <= j < |s.th| && j != k :: s'.th[j] == s.th[j];
    assert s'.th[k] == t';
    assert t'.pc.Save? ==> t.pc.Load? && t'.pc.i == t.pc.i && Stores(inc)(t) == t.pc.i;
    assert t.pc.Save? ==> Stores(inc)(t) == t.pc.i;
    hide ThreadStep, ThreadOk, Stores, Inv;
    if AllStored(inc, s') {
      assert Stores(inc)(s'.th[k]) == inc;
      if !t.pc.Save? {
        forall j | 0 <= j < |s.th| ensures Stores(inc)(s.th[j]) == inc { assert Stores(inc)(s'.th[j]) == inc; }
        assert AllStored(inc, s);
      }
    }
  }

  /** A step of main changes no child's stores, no pending store and not the counter. */
  lemma MainKeeps(inc: nat, s: State)
    requires Inv(inc, s) && Enabled(s, Main)
    ensures var s' := MainStep(inc, s);
      && |s'.th| == |s.th| && s'.notls == s.notls
      && (forall k | 0 <= k < |s.th| :: Stores(inc)(s'.th[k]) == Stores(inc)(s.th[k]))
      && (forall k | 0 <= k < |s.th| && s'.th[k].pc.Save? :: s'.th[k].pc == s.th[k].pc && s'.th[k].reg == s.th[k].reg)
  {
    var s' := MainStep(inc, s);
    assert s.main.i < |s.th| ==> ThreadOk(inc, s.main, s.th[s.main.i], s.main.i);
    forall k | 0 <= k < |s.th|
      ensures |s'.th| == |s.th| && Stores(inc)(s'.th[k]) == Stores(inc)(s.th[k])
      ensures s'.th[k].pc.Save? ==> s'.th[k].pc == s.th[k].pc && s'.th[k].reg == s.th[k].reg
    {
      MainLocal(inc, s, k);
    }
  }

  lemma MainLow(inc: nat, s: State)
    requires Inv(inc, s) && LowInv(inc, s) && Enabled(s, Main)
    ensures LowInv(inc, MainStep(inc, s))
  {
    hide MainStep, Stores, Inv;
    MainKeeps(inc, s);
    var s' := MainStep(inc, s);
    if AllStored(inc, s') {
      forall j | 0 <= j < |s.th| ensures Stores(inc)(s.th[j]) == inc { assert Stores(inc)(s'.th[j]) == inc; }
    }
  }

  lemma {:induction false} RunLow(inc: nat, s: State, sched: seq<Actor>)
    requires Inv(inc, s) && LowInv(inc, s) && Runs(inc, s, sched)
    ensures LowInv(inc, Exec(inc, s, sched))
    decreases sched
  {
    if sched != [] {
      StepInv(inc, s, sched[0]);
      if sched[0].Child? { ChildLow(inc, s, sched[0].k); } else { MainLow(inc, s); }
      RunLow(inc, Step(inc, s, sched[0]), sched[1..]);
    }
  }

  /** However the increments of one or more children interleave, the shared counter ends between two
      (one, or zero, if each child makes only so many increments) and the number of increments. */
  lemma FinalCounter(inc: nat, n: nat, sched: seq<Actor>)
    requires 0 < n && Runs(inc, Init(n), sched)
    requires Exec(inc, Init(n), sched).main.Finished?
    ensures Min(inc, 2) <= Exec(inc, Init(n), sched).notls <= inc * n
  {
    InitInv(inc, n);
    RunInv(inc, Init(n), sched);
    RunLow(inc, Init(n), sched);
    CountersInEveryState(inc, n, sched);
    var s := Exec(inc, Init(n), sched);
    forall k | 0 <= k < n ensures Stores(inc)(s.th[k]) == inc { assert ThreadOk(inc, s.main, s.th[k], k); }
    assert AllStored(inc, s);
  }

  // Every value between the bounds is reached.

  ghost predicate Reaches(inc: nat, s: State, t: State) {
    exists sched :: Runs(inc, s, sched) && Exec(inc, s, sched) == t
  }

  lemma ReachesSelf(inc: nat, s: State)
    ensures Reaches(inc, s, s)
  {
    assert Runs(inc, s, []) && Exec(inc, s, []) == s;
  }

  lemma ReachesFirst(inc: nat, s: State, a: Actor, t: State)
    requires Enabled(s, a) && Reaches(inc, Step(inc, s, a), t)
    ensures Reaches(inc, s, t)
  {
    var sched :| Runs(inc, Step(inc, s, a), sched) && Exec(inc, Step(inc, s, a), sched) == t;
    Unfold(inc, s, a, sched);
    assert Runs(inc, s, [a] + sched) && Exec(inc, s, [a] + sched) == t;
  }

  lemma {:induction false} ExecAppend(inc: nat, s: State, x: seq<Actor>, y: seq<Actor>)
    ensures Exec(inc, s, x + y) == Exec(inc, Exec(inc, s, x), y)
    ensures Runs(inc, s, x + y) <==> Runs(inc, s, x) && Runs(inc, Exec(inc, s, x), y)
    decreases x
  {
    if x == [] {
      assert x + y == y;
    } else {
      assert (x + y)[0] == x[0] && (x + y)[1..] == x[1..] + y;
      ExecAppend(inc, Step(inc, s, x[0]), x[1..], y);
    }
  }

  lemma ReachesThen(inc: nat, s: State, t: State, u: State)
    requires Reaches(inc, s, t) && Reaches(inc, t, u)
    ensures Reaches(inc, s, u)
  {
    var x :| Runs(inc, s, x) && Exec(inc, s, x) == t;
    var y :| Runs(inc, t, y) && Exec(inc, t, y) == u;
    ExecAppend(inc, s, x, y);
    assert Runs(inc, s, x + y) && Exec(inc, s, x + y) == u;
  }

  lemma ReachesInv(inc: nat, s: State, t: State)
    requires Inv(inc, s) && Reaches(inc, s, t)
    ensures Inv(inc, t) && |t.th| == |s.th|
  {
    var x :| Runs(inc, s, x) && Exec(inc, s, x) == t;
    RunInv(inc, s, x);
  }

  /** Nobody has got beyond the first loop test. */
  ghost predicate Early(inc: nat, s: State) {
    Inv(inc, s) && s.notls == 0 && forall k | 0 <= k < |s.th| :: !Posted(s.th[k]) || s.th[k].pc.ToWait? || s.th[k].pc == Top(0)
  }

  predicate AllAtTop(s: State, i: nat) { forall k | 0 <= k < |s.th| :: s.th[k].pc == Top(i) }

  /** Until all are there, main or a child on its way there can move. */
  lemma EarlyMove(inc: nat, s: State) returns (a: Actor)
    requires Early(inc, s) && !AllAtTop(s, 0)
    ensures Enabled(s, a) && Early(inc, Step(inc, s, a)) && |Step(inc, s, a).th| == |s.th|
  {
    var k :| 0 <= k < |s.th| && s.th[k].pc != Top(0);
    assert ThreadOk(inc, s.main, s.th[k], k);
    if Posted(s.th[k]) && s.th[k].start > 0 {
      a := Child(k);
    } else if s.main.Sync? && s.main.i < |s.th| && s.th[s.main.i].sync == 0 {
      assert ThreadOk(inc, s.main, s.th[s.main.i], s.main.i);
      a := Child(s.main.i);
    } else {
      a := Main;
    }
    StepInv(inc, s, a);
    EarlyKept(inc, s, a);
  }

  lemma EarlyKept(inc: nat, s: State, a: Actor)
    requires Early(inc, s) && Enabled(s, a) && Inv(inc, Step(inc, s, a))
    requires a.Child? ==> s.th[a.k].pc != Top(0)
    ensures Early(inc, Step(inc, s, a)) && |Step(inc, s, a).th| == |s.th|
  {
    hide Inv;
  }

  lemma {:induction false} RemainingNonNegative(inc: nat, th: seq<Thread>)
    requires forall k | 0 <= k < |th| :: TlsOk(inc, th[k])
    ensures 0 <= Total(Todo(inc), th)
  {
    if th != [] { RemainingNonNegative(inc, th[..|th| - 1]); }
  }

  lemma RemainingBound(inc: nat, s: State)
    requires Inv(inc, s)
    ensures 0 <= Remaining(inc, s)
  {
    forall k | 0 <= k < |s.th| ensures TlsOk(inc, s.th[k]) { assert ThreadOk(inc, s.main, s.th[k], k); }
    RemainingNonNegative(inc, s.th);
  }

  lemma {:induction false} ReachTop(inc: nat, s: State) returns (t: State)
    requires Early(inc, s)
    ensures Reaches(inc, s, t) && Early(inc, t) && AllAtTop(t, 0) && |t.th| == |s.th|
    decreases Remaining(inc, s)
  {
    if AllAtTop(s, 0) {
      t := s;
      ReachesSelf(inc, s);
    } else {
      var a := EarlyMove(inc, s);
      StepCounts(inc, s, a);
      RemainingBound(inc, s);
      RemainingBound(inc, Step(inc, s, a));
      t := ReachTop(inc, Step(inc, s, a));
      ReachesFirst(inc, s, a, t);
    }
  }

  /** Child k alone makes d increments. */
  lemma {:induction false} RunAlone(inc: nat, s: State, k: nat, d: nat) returns (t: State)
    requires k < |s.th| && s.th[k].pc.Top? && s.th[k].pc.i + d <= inc
    ensures Reaches(inc, s, t) && t.notls == s.notls + d && |t.th| == |s.th|
    ensures t.th[k].pc == Top(s.th[k].pc.i + d) && forall j | 0 <= j < |s.th| && j != k :: t.th[j] == s.th[j]
    decreases d
  {
    if d == 0 {
      t := s;
      ReachesSelf(inc, s);
    } else {
      var s1 := Step(inc, s, Child(k));
      var s2 := Step(inc, s1, Child(k));
      var s3 := Step(inc, s2, Child(k));
      t := RunAlone(inc, s3, k, d - 1);
      ReachesFirst(inc, s2, Child(k), t);
      ReachesFirst(inc, s1, Child(k), t);
      ReachesFirst(inc, s, Child(k), t);
    }
  }

  /** Increments made so far that the shared counter does not show. */
  function Lost(inc: nat, s: State): int { Total(Stores(inc), s.th) - s.notls }

  /** All children from k on are at the loop test. */
  predicate TopFrom(inc: nat, s: State, k: nat) { forall j | k <= j < |s.th| :: s.th[j].pc.Top? && s.th[j].pc.i <= inc }

  predicate SameBelow(s: State, t: State, k: nat) { |t.th| == |s.th| && forall j | 0 <= j < k && j < |s.th| :: t.th[j] == s.th[j] }

  /** A child that runs alone loses nothing. */
  lemma RunChild(inc: nat, s: State, k: nat, d: nat) returns (t: State)
    requires k < |s.th| && s.th[k].pc.Top? && s.th[k].pc.i + d <= inc
    ensures Reaches(inc, s, t) && Lost(inc, t) == Lost(inc, s) && t.notls == s.notls + d && |t.th| == |s.th|
    ensures t.th[k].pc == Top(s.th[k].pc.i + d) && forall j | 0 <= j < |s.th| && j != k :: t.th[j] == s.th[j]
  {
    hide Reaches, Total;
    t := RunAlone(inc, s, k, d);
    assert t.th == s.th[k := t.th[k]];
    TotalUpdate(Stores(inc), s.th, k, t.th[k]);
  }

  /** The increments that m children have to make. */
  function Capacity(m: nat, inc: nat): nat { if m == 0 then 0 else inc + Capacity(m - 1, inc) }

  lemma {:induction false} CapacityIs(m: nat, inc: nat)
    ensures Capacity(m, inc) == m * inc
  {
    if m > 0 { CapacityIs(m - 1, inc); }
  }

  /** The children from k on, one after the other, make w increments in all. */
  lemma {:induction false} RunSome(inc: nat, s: State, k: nat, w: nat) returns (t: State)
    requires k <= |s.th| && w <= Capacity(|s.th| - k, inc) && forall j | k <= j < |s.th| :: s.th[j].pc == Top(0)
    ensures Reaches(inc, s, t) && Lost(inc, t) == Lost(inc, s) && t.notls == s.notls + w
    ensures TopFrom(inc, t, k) && SameBelow(s, t, k)
    decreases |s.th| - k
  {
    hide Reaches, Lost;
    if k == |s.th| {
      t := s;
      ReachesSelf(inc, s);
    } else {
      var d := Min(w, inc);
      var s1 := RunChild(inc, s, k, d);
      t := RunSome(inc, s1, k + 1, w - d);
      ReachesThen(inc, s, s1, t);
    }
  }

  /** The children from k on run to the end of their loops. */
  lemma {:induction false} RunRest(inc: nat, s: State, k: nat) returns (t: State)
    requires k <= |s.th| && TopFrom(inc, s, k)
    ensures Reaches(inc, s, t) && Lost(inc, t) == Lost(inc, s) && SameBelow(s, t, k)
    ensures forall j | k <= j < |s.th| :: t.th[j].pc == Top(inc)
    decreases |s.th| - k
  {
    hide Reaches, Lost;
    if k == |s.th| {
      t := s;
      ReachesSelf(inc, s);
    } else {
      var s1 := RunChild(inc, s, k, inc - s.th[k].pc.i);
      t := RunRest(inc, s1, k + 1);
      ReachesThen(inc, s, s1, t);
    }
  }

  /** When all stores are done, a run to the end leaves the counter alone. */
  lemma {:induction false} Finish(inc: nat, s: State) returns (t: State)
    requires Inv(inc, s) && AllStored(inc, s) && forall k | 0 <= k < |s.th| :: !s.th[k].pc.Save?
    ensures Reaches(inc, s, t) && t.main == Finished(true) && t.notls == s.notls
    decreases Remaining(inc, s)
  {
    if s.main.Finished? {
      t := s;
      ReachesSelf(inc, s);
    } else {
      CanMove(inc, s);
      var a :| Enabled(s, a);
      var s1 := Step(inc, s, a);
      StepInv(inc, s, a);
      StepCounts(inc, s, a);
      RemainingBound(inc, s);
      RemainingBound(inc, s1);
      StoredStays(inc, s, a);
      t := Finish(inc, s1);
      ReachesFirst(inc, s, a, t);
    }
  }

  lemma StoredStays(inc: nat, s: State, a: Actor)
    requires Inv(inc, s) && AllStored(inc, s) && Enabled(s, a) && forall k | 0 <= k < |s.th| :: !s.th[k].pc.Save?
    ensures var s' := Step(inc, s, a);
      AllStored(inc, s') && s'.notls == s.notls && forall k | 0 <= k < |s'.th| :: !s'.th[k].pc.Save?
  {
    if a.Child? {
      var t := s.th[a.k];
      assert ThreadOk(inc, s.main, t, a.k) && Stores(inc)(t) == inc;
      ChildLocal(inc, s.main, t, a.k, s.notls);
    } else {
      assert s.main.i < |s.th| ==> ThreadOk(inc, s.main, s.th[s.main.i], s.main.i);
      forall k | 0 <= k < |s.th|
        ensures Stores(inc)(MainStep(inc, s).th[k]) == Stores(inc)(s.th[k]) && !MainStep(inc, s).th[k].pc.Save?
      {
        assert ThreadOk(inc, s.main, s.th[k], k);
        MainLocal(inc, s, k);
      }
    }
  }

  /** A child at the loop test moves on to its load. */
  lemma TopStep(inc: nat, s: State, k: nat)
    requires k < |s.th| && s.th[k].pc.Top? && s.th[k].pc.i < inc
    ensures var s' := Step(inc, s, Child(k));
      && Enabled(s, Child(k)) && |s'.th| == |s.th| && s'.notls == s.notls
      && s'.th[k].pc == Load(s.th[k].pc.i) && (forall j | 0 <= j < |s.th| && j != k :: s'.th[j] == s.th[j])
      && Total(Stores(inc), s'.th) == Total(Stores(inc), s.th)
  {
    var t := ThreadStep(inc, s.th[k], s.notls).0;
    assert Stores(inc)(t) == Stores(inc)(s.th[k]);
    hide Stores, Total;
    TotalUpdate(Stores(inc), s.th, k, t);
  }

  /** A child at the loop test loads the counter and is about to store. */
  lemma LoadOnly(inc: nat, s: State, k: nat) returns (t: State)
    requires k < |s.th| && s.th[k].pc.Top? && s.th[k].pc.i < inc
    ensures Reaches(inc, s, t) && |t.th| == |s.th| && t.notls == s.notls && Lost(inc, t) == Lost(inc, s)
    ensures t.th[k].pc == Save(s.th[k].pc.i) && t.th[k].reg == s.notls
    ensures forall j | 0 <= j < |s.th| && j != k :: t.th[j] == s.th[j]
  {
    hide Reaches, Total, Stores, Step, Enabled;
    var s1 := Step(inc, s, Child(k));
    TopStep(inc, s, k);
    LoadStep(inc, s1, k);
    t := Step(inc, s1, Child(k));
    MemoryStep(inc, s1, k);
    ReachesSelf(inc, t);
    ReachesFirst(inc, s1, Child(k), t);
    ReachesFirst(inc, s, Child(k), t);
  }

  lemma LoadStep(inc: nat, s: State, k: nat)
    requires k < |s.th| && s.th[k].pc.Load?
    ensures Step(inc, s, Child(k)).th[k].pc == Save(s.th[k].pc.i)
  {}

  /** The store that follows. */
  lemma StoreOnly(inc: nat, s: State, k: nat) returns (t: State)
    requires k < |s.th| && s.th[k].pc.Save?
    ensures Reaches(inc, s, t) && |t.th| == |s.th| && t.notls == s.th[k].reg + 1
    ensures Lost(inc, t) == Lost(inc, s) + s.notls - s.th[k].reg
    ensures t.th[k].pc == Top(s.th[k].pc.i + 1) && forall j | 0 <= j < |s.th| && j != k :: t.th[j] == s.th[j]
  {
    t := Step(inc, s, Child(k));
    hide Reaches, Total, Stores;
    MemoryStep(inc, s, k);
    ReachesSelf(inc, t);
    ReachesFirst(inc, s, Child(k), t);
  }

  /** Child 0 loads zero, the others make w increments, child 0 stores one: w increments are lost. */
  lemma LoseSome(inc: nat, s: State, w: nat) returns (t: State)
    requires 0 < inc && 0 < |s.th| && s.notls == 0 && AllAtTop(s, 0) && w <= (|s.th| - 1) * inc
    ensures Reaches(inc, s, t) && |t.th| == |s.th| && TopFrom(inc, t, 0) && Lost(inc, t) == Lost(inc, s) + w
  {
    hide Reaches, Lost;
    CapacityIs(|s.th| - 1, inc);
    var s1 := LoadOnly(inc, s, 0);
    var s2 := RunSome(inc, s1, 1, w);
    t := StoreOnly(inc, s2, 0);
    ReachesThen(inc, s1, s2, t);
    ReachesThen(inc, s, s1, t);
  }

  /** Before that store child 1 keeps its last increment back; it loads the one, child 0 makes d more
      increments, and child 1 stores two: these d are lost as well. */
  lemma LoseMore(inc: nat, s: State, d: nat) returns (t: State)
    requires 2 <= inc && 2 <= |s.th| && s.notls == 0 && AllAtTop(s, 0) && d < inc
    ensures Reaches(inc, s, t) && |t.th| == |s.th| && TopFrom(inc, t, 0)
    ensures Lost(inc, t) == Lost(inc, s) + (|s.th| - 1) * inc - 1 + d
  {
    hide Reaches, Lost;
    var rest := (|s.th| - 2) * inc;
    CapacityIs(|s.th| - 2, inc);
    assert (|s.th| - 1) * inc == rest + inc;
    var s1 := LoadOnly(inc, s, 0);
    var s2 := RunSome(inc, s1, 2, rest);
    var s3 := RunChild(inc, s2, 1, inc - 1);
    var s4 := StoreOnly(inc, s3, 0);
    var s5 := LoadOnly(inc, s4, 1);
    var s6 := RunChild(inc, s5, 0, d);
    t := StoreOnly(inc, s6, 1);
    ReachesThen(inc, s5, s6, t);
    ReachesThen(inc, s4, s5, t);
    ReachesThen(inc, s3, s4, t);
    ReachesThen(inc, s2, s3, t);
    ReachesThen(inc, s1, s2, t);
    ReachesThen(inc, s, s1, t);
  }

  lemma InitEarly(inc: nat, n: nat)
    ensures Early(inc, Init(n)) && |Init(n).th| == n
  {
    InitInv(inc, n);
    hide Inv;
  }

  lemma {:induction false} TopTotal(inc: nat, th: seq<Thread>, i: nat)
    requires forall k | 0 <= k < |th| :: th[k].pc == Top(i)
    ensures Total(Stores(inc), th) == i * |th|
  {
    if th != [] {
      TopTotal(inc, th[..|th| - 1], i);
      assert i * |th| == i * (|th| - 1) + i;
    }
  }

  /** At the first loop test nothing has been lost. */
  lemma EarlyTop(inc: nat, s: State)
    requires Early(inc, s) && AllAtTop(s, 0)
    ensures Inv(inc, s) && s.notls == 0 && Lost(inc, s) == 0
  {
    hide Inv, Total, Stores;
    TopTotal(inc, s.th, 0);
  }

  lemma LateTop(inc: nat, s: State)
    requires AllAtTop(s, inc) && 0 < |s.th|
    ensures AllStored(inc, s) && (forall k | 0 <= k < |s.th| :: !s.th[k].pc.Save?) && s.notls == inc * |s.th| - Lost(inc, s)
  {
    hide Total;
    TopTotal(inc, s.th, inc);
  }

  /** With two or more children that make two or more increments each, the counter can end at every
      value from two to the number of increments, the test passing each time. */
  lemma EveryCounterReached(inc: nat, n: nat, v: int) returns (t: State)
    requires 2 <= inc && 2 <= n && 2 <= v <= inc * n
    ensures Reaches(inc, Init(n), t) && t.main == Finished(true) && t.notls == v
  {
    hide *;
    InitEarly(inc, n);
    var s1 := ReachTop(inc, Init(n));
    EarlyTop(inc, s1);
    var s2 := LoseExactly(inc, s1, inc * n - v);
    var s3 := RunRest(inc, s2, 0);
    SameLength(s2, s3);
    AtTopAll(s3, inc);
    LateTop(inc, s3);
    ReachesThen(inc, s1, s2, s3);
    ReachesInv(inc, s1, s3);
    t := Finish(inc, s3);
    ReachesThen(inc, s1, s3, t);
    ReachesThen(inc, Init(n), s1, t);
  }

  lemma AtTopAll(s: State, i: nat)
    requires forall j | 0 <= j < |s.th| :: s.th[j].pc == Top(i)
    ensures AllAtTop(s, i)
  {}

  lemma SameLength(s: State, t: State)
    requires SameBelow(s, t, 0)
    ensures |t.th| == |s.th|
  {}

  /** Any number of increments up to all but two can be lost. */
  lemma LoseExactly(inc: nat, s: State, lost: nat) returns (t: State)
    requires 2 <= inc && 2 <= |s.th| && s.notls == 0 && AllAtTop(s, 0) && lost <= inc * |s.th| - 2
    ensures Reaches(inc, s, t) && |t.th| == |s.th| && TopFrom(inc, t, 0) && Lost(inc, t) == Lost(inc, s) + lost
  {
    hide *;
    var most := (|s.th| - 1) * inc;
    assert inc * |s.th| == most + inc;
    if lost <= most { t := LoseSome(inc, s, lost); } else { t := LoseMore(inc, s, lost - most + 1); }
  }

  /** The values the counter can end with are exactly those. */
  lemma CounterIff(inc: nat, n: nat, v: int)
    requires 2 <= inc && 2 <= n
    ensures (exists t :: Reaches(inc, Init(n), t) && t.main.Finished? && t.notls == v) <==> 2 <= v <= inc * n
  {
    forall t | Reaches(inc, Init(n), t) && t.main.Finished? ensures 2 <= t.notls <= inc * n {
      var sched :| Runs(inc, Init(n), sched) && Exec(inc, Init(n), sched) == t;
      FinalCounter(inc, n, sched);
    }
    hide *;
    if 2 <= v <= inc * n {
      var t := EveryCounterReached(inc, n, v);
      assert Reaches(inc, Init(n), t) && t.main.Finished? && t.notls == v;
    }
  }
}
