/** The signal test's handler and reporting loop.  The handler stores the siginfo record of
    its signal and then ORs the signal's bit into `delivered_signal` (a load and a later
    store); it is installed with an empty mask, so a handler may be interrupted at any point
    by the handler of a different signal.  Main runs only while no handler is active: it
    looks for bits it has not seen (`old_ds ^ delivered_signal`), remembers them and prints
    their records.  Bit masks are sets of bit numbers.
 */
module SiginfoReport {

  /** ARCH_S64FX_SIGRTMIN: handled signals are 1 .. 31. */
  const SIGRTMIN := 32

  type Info = int

  /** A handler activation: about to store its record, to load the mask, or to store it back. */
  datatype Frame =
    | ToStore(sig: int, info: Info)
    | ToLoad(sig: int)
    | ToSave(sig: int, loaded: set<int>)

  datatype MainPc =
    | OuterTest
    | InnerTest
    | Merge(ds: set<int>)
    | Print(ds: set<int>, sig: int)
    | Left

  /** `stack` holds the active handlers, innermost last.  `masks` and `lines` are what main has
      passed to the printer and what it printed; `sent` is every (signal, record) delivered;
      `taken` is the mask as read when the latest pass began. */
  datatype State = State(
    delivered: set<int>, records: map<int, Info>, stack: seq<Frame>,
    main: MainPc, oldDs: set<int>, printDs: set<int>,
    masks: seq<set<int>>, lines: seq<(int, Info)>, sent: set<(int, Info)>, taken: set<int>)

  const INIT := State({}, map[], [], OuterTest, {}, {}, [], [], {}, {})

  datatype Event = Deliver(sig: int, info: Info) | Handler | Main

  function Xor(a: set<int>, b: set<int>): set<int> { (a - b) + (b - a) }

  /** A handled signal that is not being handled already (it is blocked during its own handler). */
  predicate CanDeliver(s: State, sig: int) {
    1 <= sig < SIGRTMIN && forall f | f in s.stack :: f.sig != sig
  }

  /** One step of the innermost handler. */
  function HandlerStep(s: State): State {
    if s.stack == [] then s else
    var m := |s.stack| - 1;
    match s.stack[m]
    case ToStore(sig, info) => s.(records := s.records[sig := info], stack := s.stack[m := ToLoad(sig)])
    case ToLoad(sig) => s.(stack := s.stack[m := ToSave(sig, s.delivered)])
    case ToSave(sig, loaded) => s.(delivered := loaded + {sig}, stack := s.stack[..m])
  }

  function MainStep(goal: set<int>, s: State): State {
    match s.main
    case OuterTest => s.(main := if s.delivered == goal then Left else InnerTest)
    case InnerTest =>
      var ds := Xor(s.oldDs, s.delivered);
      if ds == {} then s else s.(main := Merge(ds), taken := s.delivered)
    case Merge(ds) => s.(oldDs := s.oldDs + ds, main := Print(ds, 1), masks := s.masks + [ds])
    case Print(ds, sig) =>
      if sig >= SIGRTMIN then s.(main := OuterTest)
      else if sig in ds then
        s.(lines := s.lines + [(sig, if sig in s.records then s.records[sig] else 0)],
           printDs := s.printDs + {sig}, main := Print(ds, sig + 1))
      else s.(main := Print(ds, sig + 1))
    case Left => s
  }

  function Step(goal: set<int>, s: State, e: Event): State {
    match e
    case Deliver(sig, info) =>
      if CanDeliver(s, sig) then s.(stack := s.stack + [ToStore(sig, info)], sent := s.sent + {(sig, info)}) else s
    case Handler => HandlerStep(s)
    case Main => if s.stack == [] then MainStep(goal, s) else s
  }

  function Exec(goal: set<int>, s: State, es: seq<Event>): State
    decreases es
  {
    if es == [] then s else Exec(goal, Step(goal, s, es[0]), es[1..])
  }

  // ----- the invariant -----

  /** What main already relies on being set. */
  function Known(s: State): set<int> { s.oldDs + if s.main.Merge? then s.main.ds else {} }

  /** The signals already printed: all those seen, except those of the current mask still to come. */
  function Printed(s: State): set<int> {
    if s.main.Print? then set x | x in s.oldDs && (x in s.main.ds ==> x < s.main.sig) else s.oldDs
  }

  predicate FrameOk(s: State, f: Frame) {
    && 1 <= f.sig < SIGRTMIN
    && (f.ToStore? ==> (f.sig, f.info) in s.sent)
    && (!f.ToStore? ==> f.sig in s.records)
    && (f.ToSave? ==> Known(s) <= f.loaded && f.loaded <= s.records.Keys && forall x | x in f.loaded :: 1 <= x < SIGRTMIN)
  }

  ghost predicate Inv(s: State) {
    && (forall f | f in s.stack :: FrameOk(s, f))
    && Known(s) == s.taken <= s.delivered && s.delivered <= s.records.Keys
    && (forall x | x in s.delivered :: 1 <= x < SIGRTMIN)
    && (forall x | x in s.records :: (x, s.records[x]) in s.sent)
    && (s.main.Merge? ==> s.main.ds !! s.oldDs && s.main.ds != {})
    && (s.main.Print? ==> s.main.ds <= s.oldDs && 1 <= s.main.sig <= SIGRTMIN)
    && s.printDs == Printed(s)
    && ReportsOk(s)
  }

  /** The signals that lines have been printed for. */
  function Signals(lines: seq<(int, Info)>): set<int> { set i | 0 <= i < |lines| :: lines[i].0 }

  lemma SignalsNext(lines: seq<(int, Info)>, l: (int, Info))
    ensures Signals(lines + [l]) == Signals(lines) + {l.0}
  {
    var next := lines + [l];
    forall i | 0 <= i < |lines| ensures lines[i].0 in Signals(next) { assert next[i] == lines[i]; }
    assert next[|lines|] == l && l.0 in Signals(next);
  }

  /** Masks are disjoint parts of what was seen; each line is a different printed signal with a delivered record. */
  ghost predicate ReportsOk(s: State) {
    && (forall i | 0 <= i < |s.masks| :: s.masks[i] <= s.oldDs)
    && (forall i, j | 0 <= i < j < |s.masks| :: s.masks[i] !! s.masks[j])
    && (forall i | 0 <= i < |s.lines| :: s.lines[i] in s.sent) && Signals(s.lines) == s.printDs
    && (forall i, j | 0 <= i < j < |s.lines| :: s.lines[i].0 != s.lines[j].0)
  }

  lemma HandlerInv(s: State)
    requires Inv(s)
    ensures Inv(HandlerStep(s))
  {
    if s.stack != [] {
      var m := |s.stack| - 1;
      var s' := HandlerStep(s);
      assert s.stack[m] in s.stack && FrameOk(s, s.stack[m]);
      forall f | f in s'.stack ensures FrameOk(s', f) {
        if f in s.stack { assert FrameOk(s, f); }
      }
      assert Printed(s') == Printed(s);
    }
  }

  lemma MergeInv(s: State)
    requires Inv(s) && s.main.Merge? && s.stack == []
    ensures Inv(MainStep({}, s))
  {
    var s' := MainStep({}, s);
    var ds := s.main.ds;
    assert Printed(s') == s.oldDs;
    forall i, j | 0 <= i < j < |s'.masks| ensures s'.masks[i] !! s'.masks[j] {
      assert s.masks[i] <= s.oldDs;
    }
  }

  lemma PrintInv(s: State)
    requires Inv(s) && s.main.Print? && s.stack == []
    ensures Inv(MainStep({}, s))
  {
    var s' := MainStep({}, s);
    var ds, sig := s.main.ds, s.main.sig;
    if sig < SIGRTMIN {
      if sig in ds {
        SignalsNext(s.lines, s'.lines[|s.lines|]);
        forall i | 0 <= i < |s.lines| ensures s.lines[i].0 != sig { assert s.lines[i].0 in Signals(s.lines); }
      }
      assert Printed(s') == Printed(s) + (if sig in ds then {sig} else {});
    } else {
      assert Printed(s') == Printed(s);
    }
  }

  lemma StepInv(goal: set<int>, s: State, e: Event)
    requires Inv(s)
    ensures Inv(Step(goal, s, e))
  {
    var s' := Step(goal, s, e);
    match e
    case Deliver(sig, info) =>
      forall f | f in s'.stack ensures FrameOk(s', f) {
        if f in s.stack { assert FrameOk(s, f); }
      }
      assert Printed(s') == Printed(s);
    case Handler => HandlerInv(s);
    case Main =>
      if s.stack == [] {
        match s.main
        case Merge(_) => MergeInv(s);
        case Print(_, _) => PrintInv(s);
        case _ =>
      }
  }

  lemma {:induction false} RunInv(goal: set<int>, s: State, es: seq<Event>)
    requires Inv(s)
    ensures Inv(Exec(goal, s, es))
    decreases es
  {
    if es != [] {
      StepInv(goal, s, es[0]);
      RunInv(goal, Step(goal, s, es[0]), es[1..]);
    }
  }

  /** However handlers interrupt main and each other: main's memory of seen signals never
      overtakes the delivered mask; the masks it reports are pairwise disjoint; no signal is
      printed twice; between reports the printer's own mask equals main's; every printed record is
      one that was delivered for that signal; and the records of the seen and of the printed signals
      have been stored. */
  lemma ReportSafety(goal: set<int>, es: seq<Event>)
    ensures var s := Exec(goal, INIT, es);
      && s.oldDs <= s.delivered
      && (forall i, j | 0 <= i < j < |s.masks| :: s.masks[i] !! s.masks[j])
      && (forall i, j | 0 <= i < j < |s.lines| :: s.lines[i].0 != s.lines[j].0)
      && (s.main.OuterTest? || s.main.InnerTest? || s.main.Left? ==> s.printDs == s.oldDs)
      && (forall i | 0 <= i < |s.lines| :: s.lines[i] in s.sent)
      && (forall x | x in s.oldDs :: x in s.records)
      && (forall i | 0 <= i < |s.lines| :: s.lines[i].0 in s.records)
  {
    RunInv(goal, INIT, es);
    var s := Exec(goal, INIT, es);
    forall i | 0 <= i < |s.lines| ensures s.lines[i].0 in s.oldDs { assert s.lines[i].0 in Signals(s.lines); }
  }

  // ----- when a delivered signal's bit survives -----

  /** The mask once every active handler has run to its end with no further delivery. */
  function Unwind(stack: seq<Frame>, delivered: set<int>): set<int> {
    if stack == [] then delivered else
    var f := stack[|stack| - 1];
    Unwind(stack[..|stack| - 1], (if f.ToSave? then f.loaded else delivered) + {f.sig})
  }

  /** `Unwind` is what running the handlers gives: each handler step preserves it. */
  lemma {:induction false} UnwindStep(s: State)
    requires s.stack != []
    ensures Unwind(HandlerStep(s).stack, HandlerStep(s).delivered) == Unwind(s.stack, s.delivered)
  {
    var m := |s.stack| - 1;
    assert s.stack[m := ToLoad(s.stack[m].sig)][..m] == s.stack[..m];
    assert s.stack[m := ToSave(s.stack[m].sig, s.delivered)][..m] == s.stack[..m];
  }

  lemma {:induction false} HandlersKeepUnwind(goal: set<int>, s: State, n: nat)
    ensures var s' := Exec(goal, s, Handlers(n)); Unwind(s'.stack, s'.delivered) == Unwind(s.stack, s.delivered)
    ensures Work(s.stack) <= n ==> Exec(goal, s, Handlers(n)).stack == []
    decreases n
  {
    if n > 0 {
      assert Handlers(n)[1..] == Handlers(n - 1);
      if s.stack != [] {
        UnwindStep(s);
        WorkStep(s);
      }
      HandlersKeepUnwind(goal, HandlerStep(s), n - 1);
    }
  }

  function Handlers(n: nat): seq<Event> { seq(n, _ => Handler) }

  /** Steps the active handlers still have to take. */
  function Work(stack: seq<Frame>): nat {
    if stack == [] then 0 else
    Work(stack[..|stack| - 1]) +
      match stack[|stack| - 1] case ToStore(_, _) => 3 case ToLoad(_) => 2 case ToSave(_, _) => 1
  }

  lemma WorkStep(s: State)
    requires s.stack != []
    ensures Work(HandlerStep(s).stack) == Work(s.stack) - 1
  {
    var m := |s.stack| - 1;
    assert s.stack[m := ToLoad(s.stack[m].sig)][..m] == s.stack[..m];
    assert s.stack[m := ToSave(s.stack[m].sig, s.delivered)][..m] == s.stack[..m];
  }

  /** Left to themselves the active handlers all finish, and leave the mask that `Unwind` gives. */
  lemma HandlersFinish(goal: set<int>, s: State)
    ensures var s' := Exec(goal, s, Handlers(Work(s.stack)));
      s'.stack == [] && s'.delivered == Unwind(s.stack, s.delivered)
  {
    HandlersKeepUnwind(goal, s, Work(s.stack));
  }

  /** No handler is between its load and its store, or the outermost one that is had loaded `b`. */
  predicate Kept(stack: seq<Frame>, b: int) {
    forall i | 0 <= i < |stack| && stack[i].ToSave? ::
      b in stack[i].loaded || exists j :: 0 <= j < i && stack[j].ToSave?
  }

  predicate Saving(stack: seq<Frame>) { exists i :: 0 <= i < |stack| && stack[i].ToSave? }

  /** The outermost pending store decides about a bit that no active handler sets; without one, the
      current mask does. */
  lemma {:induction false} UnwindBit(stack: seq<Frame>, delivered: set<int>, b: int)
    requires forall f | f in stack :: f.sig != b
    ensures b in Unwind(stack, delivered) <==> if Saving(stack) then Kept(stack, b) else b in delivered
  {
    if stack != [] {
      var m := |stack| - 1;
      var f, rest := stack[m], stack[..m];
      assert f in stack;
      forall g | g in rest ensures g in stack {}
      UnwindBit(rest, (if f.ToSave? then f.loaded else delivered) + {f.sig}, b);
      assert forall i | 0 <= i < m :: rest[i] == stack[i];
      if Saving(rest) {
        var i :| 0 <= i < |rest| && rest[i].ToSave?;
        assert stack[i].ToSave?;
        KeptPrefix(stack, b, i);
      } else if f.ToSave? {
        assert stack[m].ToSave?;
      }
    }
  }

  lemma KeptPrefix(stack: seq<Frame>, b: int, i: nat)
    requires i < |stack| - 1 && stack[i].ToSave?
    ensures Kept(stack[..|stack| - 1], b) <==> Kept(stack, b)
  {
    var rest := stack[..|stack| - 1];
    assert forall j | 0 <= j < |rest| :: rest[j] == stack[j];
    if Kept(stack, b) {
      forall k | 0 <= k < |rest| && rest[k].ToSave? ensures b in rest[k].loaded || exists j :: 0 <= j < k && rest[j].ToSave? {
        if b !in stack[k].loaded {
          var j :| 0 <= j < k && stack[j].ToSave?;
          assert rest[j].ToSave?;
        }
      }
    }
    if Kept(rest, b) {
      forall k | 0 <= k < |stack| && stack[k].ToSave? ensures b in stack[k].loaded || exists j :: 0 <= j < k && stack[j].ToSave? {
        if k < |rest| {
          assert rest[k].ToSave?;
          if b !in rest[k].loaded {
            var j :| 0 <= j < k && rest[j].ToSave?;
            assert stack[j].ToSave?;
          }
        } else {
          assert stack[i].ToSave?;
        }
      }
    }
  }

  predicate NotRedelivered(es: seq<Event>, b: int) { forall i | 0 <= i < |es| :: es[i].Deliver? ==> es[i].sig != b }

  /** Whether bit `b` will be in the mask once the active handlers are done. */
  predicate Settles(s: State, b: int) { b in Unwind(s.stack, s.delivered) }

  /** Bits settle by membership alone, so what other handlers add on top does not matter. */
  lemma {:induction false} UnwindSame(stack: seq<Frame>, d: set<int>, e: set<int>, b: int)
    requires b in d <==> b in e
    ensures b in Unwind(stack, d) <==> b in Unwind(stack, e)
  {
    if stack != [] {
      var f := stack[|stack| - 1];
      UnwindSame(stack[..|stack| - 1], (if f.ToSave? then f.loaded else d) + {f.sig}, (if f.ToSave? then f.loaded else e) + {f.sig}, b);
    }
  }

  lemma {:induction false} EventsKeepBit(goal: set<int>, s: State, b: int, es: seq<Event>)
    requires NotRedelivered(es, b)
    ensures Settles(Exec(goal, s, es), b) <==> Settles(s, b)
    decreases es
  {
    if es != [] {
      var s1 := Step(goal, s, es[0]);
      match es[0] {
        case Deliver(sig, info) =>
          if CanDeliver(s, sig) {
            assert s1.stack[..|s.stack|] == s.stack;
            UnwindSame(s.stack, s.delivered + {sig}, s.delivered, b);
          }
        case Handler => if s.stack != [] { UnwindStep(s); }
        case Main =>
      }
      EventsKeepBit(goal, s1, b, es[1..]);
    }
  }

  /** Deliver `b` on top of any handlers, and let anything happen but another delivery of `b`: other
      signals, their handlers, main.  When no handler is active any more, the bit is set exactly if
      no interrupted handler was between its load and its store, or the outermost such handler had
      loaded the bit already. */
  lemma {:induction false} DeliveredBitIff(goal: set<int>, s: State, b: int, info: Info, es: seq<Event>)
    requires CanDeliver(s, b) && NotRedelivered(es, b)
    requires Exec(goal, Step(goal, s, Deliver(b, info)), es).stack == []
    ensures b in Exec(goal, Step(goal, s, Deliver(b, info)), es).delivered <==> Kept(s.stack, b)
  {
    var s1 := Step(goal, s, Deliver(b, info));
    EventsKeepBit(goal, s1, b, es);
    assert s1.stack[..|s.stack|] == s.stack;
    UnwindBit(s.stack, s.delivered + {b}, b);
  }

  lemma Unfold(goal: set<int>, s: State, e: Event, rest: seq<Event>)
    ensures Exec(goal, s, [e] + rest) == Exec(goal, Step(goal, s, e), rest)
  {
    assert ([e] + rest)[1..] == rest;
  }

  lemma {:induction false} ExecAppend(goal: set<int>, s: State, es: seq<Event>, fs: seq<Event>)
    ensures Exec(goal, s, es + fs) == Exec(goal, Exec(goal, s, es), fs)
    decreases es
  {
    if es == [] {
      assert es + fs == fs;
    } else {
      assert (es + fs)[0] == es[0] && (es + fs)[1..] == es[1..] + fs;
      ExecAppend(goal, Step(goal, s, es[0]), es[1..], fs);
    }
  }

  /** A delivery and its handler, uninterrupted. */
  function Whole(sig: int, info: Info): seq<Event> { [Deliver(sig, info), Handler, Handler, Handler] }

  lemma WholeRun(goal: set<int>, s: State, sig: int, info: Info)
    requires CanDeliver(s, sig)
    ensures Exec(goal, s, Whole(sig, info)) ==
      s.(records := s.records[sig := info], delivered := s.delivered + {sig}, sent := s.sent + {(sig, info)})
  {
    var s1 := Step(goal, s, Deliver(sig, info));
    var s2, s3, s4 := HandlerStep(s1), HandlerStep(HandlerStep(s1)), HandlerStep(HandlerStep(HandlerStep(s1)));
    Unfold(goal, s, Deliver(sig, info), [Handler, Handler, Handler]);
    Unfold(goal, s1, Handler, [Handler, Handler]);
    Unfold(goal, s2, Handler, [Handler]);
    Unfold(goal, s3, Handler, []);
    assert Whole(sig, info) == [Deliver(sig, info)] + [Handler, Handler, Handler];
    assert [Handler, Handler, Handler] == [Handler] + [Handler, Handler] && [Handler, Handler] == [Handler] + [Handler] && [Handler] == [Handler] + [];
    assert s4.stack == s.stack;
  }

  /** A run from the start that loses a bit: the handler of `b` runs while that of `a` is between
      its load and its store. */
  lemma LostBit(goal: set<int>, a: int, b: int, info: Info)
    requires 1 <= a < SIGRTMIN && 1 <= b < SIGRTMIN && a != b
    ensures var s := Exec(goal, INIT, [Deliver(a, info), Handler, Handler] + Whole(b, info) + [Handler]);
      s.stack == [] && s.delivered == {a} && (b, info) in s.sent && s.records == map[a := info, b := info]
  {
    var s1 := Step(goal, INIT, Deliver(a, info));
    var s2 := HandlerStep(s1);
    var s3 := HandlerStep(s2);
    var first := [Deliver(a, info), Handler, Handler];
    assert Exec(goal, INIT, first) == s3 by {
      Unfold(goal, INIT, Deliver(a, info), [Handler, Handler]);
      Unfold(goal, s1, Handler, [Handler]);
      Unfold(goal, s2, Handler, []);
      assert first == [Deliver(a, info)] + [Handler, Handler] && [Handler, Handler] == [Handler] + [Handler] && [Handler] == [Handler] + [];
    }
    assert s3.stack == [ToSave(a, {})];
    WholeRun(goal, s3, b, info);
    var s4 := Exec(goal, s3, Whole(b, info));
    ExecAppend(goal, INIT, first, Whole(b, info));
    ExecAppend(goal, INIT, first + Whole(b, info), [Handler]);
    Unfold(goal, s4, Handler, []);
    assert [Handler] + [] == [Handler];
  }

  // ----- when the loop leaves with everything printed -----

  lemma {:induction false} LeftWithin(goal: set<int>, s: State, es: seq<Event>)
    requires Inv(s) && (s.main.Left? ==> s.oldDs <= goal)
    ensures Exec(goal, s, es).main.Left? ==> Exec(goal, s, es).oldDs <= goal
    decreases es
  {
    if es != [] {
      StepInv(goal, s, es[0]);
      LeftWithin(goal, Step(goal, s, es[0]), es[1..]);
    }
  }

  /** A run that leaves the loop has printed exactly what the mask held when its last pass began; so
      it has printed all of the expected signals if and only if the mask was complete then, and
      otherwise it has missed those that were set later. */
  lemma PrintedAllIff(goal: set<int>, es: seq<Event>)
    requires Exec(goal, INIT, es).main.Left?
    ensures var s := Exec(goal, INIT, es);
      Signals(s.lines) == s.taken <= goal && (Signals(s.lines) == goal <==> s.taken == goal)
  {
    RunInv(goal, INIT, es);
    LeftWithin(goal, INIT, es);
  }

  /** The step that leaves: everything has been printed exactly if nothing has been added to the mask
      since the last pass began. */
  lemma LeavingStep(goal: set<int>, s: State)
    requires Inv(s) && s.main.OuterTest? && s.stack == [] && s.delivered == goal
    ensures Step(goal, s, Main).main.Left?
    ensures Signals(Step(goal, s, Main).lines) == goal <==> s.delivered == s.taken
  {}

  /** One bit too many, or one lost, and the loop never leaves: from a state whose mask is going to
      differ from the expected one in bit `b`, no run without another delivery of `b` ends. */
  lemma {:induction false} NeverLeaves(goal: set<int>, s: State, b: int, es: seq<Event>)
    requires Settles(s, b) != (b in goal) && !s.main.Left? && NotRedelivered(es, b)
    ensures !Exec(goal, s, es).main.Left?
    decreases es
  {
    if es != [] {
      assert [es[0]][0] == es[0];
      EventsKeepBit(goal, s, b, [es[0]]);
      assert [es[0]][1..] == [];
      NeverLeaves(goal, Step(goal, s, es[0]), b, es[1..]);
    }
  }

  /** Reports are never taken back, and a pass that has begun, or waits to begin, makes one before main
      can test again whether to leave. */
  lemma {:induction false} ReportsBeforeLeaving(goal: set<int>, s: State, es: seq<Event>)
    ensures s.masks <= Exec(goal, s, es).masks
    ensures (s.main.InnerTest? || s.main.Merge?) && Exec(goal, s, es).main.Left? ==> |s.masks| < |Exec(goal, s, es).masks|
    decreases es
  {
    if es != [] { ReportsBeforeLeaving(goal, Step(goal, s, es[0]), es[1..]); }
  }

  function Mains(n: nat): seq<Event> { seq(n, _ => Main) }

  /** The rest of a print loop in which no further signal is due. */
  lemma {:induction false} PrintRest(goal: set<int>, s: State)
    requires s.stack == [] && s.main.Print? && 1 <= s.main.sig <= SIGRTMIN
    requires forall x | x in s.main.ds :: x < s.main.sig
    ensures Exec(goal, s, Mains(SIGRTMIN + 1 - s.main.sig)) == s.(main := OuterTest)
    decreases SIGRTMIN - s.main.sig
  {
    var n := SIGRTMIN + 1 - s.main.sig;
    assert Mains(n)[1..] == Mains(n - 1);
    var s1 := Step(goal, s, Main);
    if s.main.sig < SIGRTMIN {
      PrintRest(goal, s1);
    } else {
      assert Exec(goal, s1, Mains(0)) == s1;
    }
  }

  /** The schedule of a run that misses a signal: 2 arrives while 1 is being printed. */
  function MissingRun(info: Info): seq<Event> { [Main] + Whole(1, info) + [Main, Main] + Whole(2, info) + Mains(32) + [Main] }

  /** The state once main is about to print signal 1. */
  function PrintingOne(info: Info): State {
    State({1}, map[1 := info], [], Print({1}, 1), {1}, {}, [{1}], [], {(1, info)}, {1})
  }

  lemma FirstSignal(info: Info)
    ensures var s1 := Step({1, 2}, INIT, Main);
      var s2 := Exec({1, 2}, s1, Whole(1, info));
      Step({1, 2}, Step({1, 2}, s2, Main), Main) == PrintingOne(info)
  {
    var goal := {1, 2};
    assert 1 in goal;
    var s1 := Step(goal, INIT, Main);
    WholeRun(goal, s1, 1, info);
    hide Exec;
    var s2 := Exec(goal, s1, Whole(1, info));
    assert 1 in Xor(s2.oldDs, s2.delivered) && Xor(s2.oldDs, s2.delivered) == {1};
  }

  lemma SecondSignal(info: Info, s4: State)
    requires s4 == PrintingOne(info)
    ensures var s6 := Step({1, 2}, Exec({1, 2}, s4, Whole(2, info)), Main);
      var s7 := Exec({1, 2}, s6, Mains(31));
      var s := Step({1, 2}, s7, Main);
      s.main.Left? && s.delivered == {1, 2} && s.lines == [(1, info)] && s.taken == {1}
  {
    var goal := {1, 2};
    WholeRun(goal, s4, 2, info);
    hide Exec;
    var s6 := Step(goal, Exec(goal, s4, Whole(2, info)), Main);
    PrintRest(goal, s6);
  }

  /** With signals 1 and 2 expected, that run leaves the loop having printed only signal 1. */
  lemma MissedSignal(info: Info)
    ensures var s := Exec({1, 2}, INIT, MissingRun(info));
      s.main.Left? && s.delivered == {1, 2} && s.lines == [(1, info)] && s.taken == {1}
  {
    hide *;
    var goal := {1, 2};
    var s1 := Step(goal, INIT, Main);
    var s2 := Exec(goal, s1, Whole(1, info));
    var s3 := Step(goal, s2, Main);
    var s4 := Step(goal, s3, Main);
    var s5 := Exec(goal, s4, Whole(2, info));
    var s6 := Step(goal, s5, Main);
    FirstSignal(info);
    SecondSignal(info, s4);
    MissingSteps(goal, info, s1, s2, s3, s4, s5, s6, Exec(goal, s6, Mains(31)));
  }

  lemma MissingSteps(goal: set<int>, info: Info, s1: State, s2: State, s3: State, s4: State, s5: State, s6: State, s7: State)
    requires s1 == Step(goal, INIT, Main) && s2 == Exec(goal, s1, Whole(1, info)) && s3 == Step(goal, s2, Main)
    requires s4 == Step(goal, s3, Main) && s5 == Exec(goal, s4, Whole(2, info)) && s6 == Step(goal, s5, Main)
    requires s7 == Exec(goal, s6, Mains(31))
    ensures Exec(goal, INIT, MissingRun(info)) == Step(goal, s7, Main)
  {
    hide Step, Exec, Whole;
    var t6 := Mains(31) + ([Main] + []);
    var t4 := Whole(2, info) + ([Main] + t6);
    var t1 := Whole(1, info) + ([Main] + ([Main] + t4));
    assert Mains(32) == [Main] + Mains(31);
    assert MissingRun(info) == [Main] + t1;
    Unfold(goal, INIT, Main, t1);
    ExecAppend(goal, s1, Whole(1, info), [Main] + ([Main] + t4));
    Unfold(goal, s2, Main, [Main] + t4);
    Unfold(goal, s3, Main, t4);
    ExecAppend(goal, s4, Whole(2, info), [Main] + t6);
    Unfold(goal, s5, Main, t6);
    ExecAppend(goal, s6, Mains(31), [Main] + []);
    Unfold(goal, s7, Main, []);
    EmptyRun(goal, Step(goal, s7, Main));
  }

  lemma EmptyRun(goal: set<int>, s: State)
    ensures Exec(goal, s, []) == s
  {}

  /** A bit that is set and not yet seen is taken up by main's next pass, with nothing else. */
  lemma {:induction false} NextPassTakesAll(goal: set<int>, s: State)
    requires Inv(s) && s.main.InnerTest? && s.stack == [] && s.delivered != s.oldDs
    ensures var s' := Exec(goal, s, [Main, Main]);
      s'.oldDs == s.delivered && s'.masks == s.masks + [s.delivered - s.oldDs]
  {
    assert [Main, Main][1..] == [Main] && [Main][1..] == [];
    var s1 := Step(goal, s, Main);
    assert Xor(s.oldDs, s.delivered) == s.delivered - s.oldDs != {};
    assert Exec(goal, s, [Main, Main]) == Exec(goal, s1, [Main]) == Step(goal, s1, Main);
  }
}
