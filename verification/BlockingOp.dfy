/** Interruptible blocking operations: one target thread that brackets blocking calls,
    any number of threads that interrupt it, and other users of the flag word. With
    atomic flags the locks are no-ops, so every flag access is a step of its own. */
module BlockingOp {

  /** The bits of the suspend-flag word; the word is the set of bits that are on, so
      fetch-or is union and fetch-and with a complement is difference. */
  datatype Bit = TERMINATE | SUSPEND | BREAKPOINT | EXIT | BLOCKING

  /** Where the target thread is: each constructor names the flag access or OS call it
      is about to make; `Inside` is the caller's blocking call itself. */
  datatype TargetPc =
    | Idle
    | BeginAssert | BeginSet | BeginTest | BeginUndo | OsBegin
    | Inside
    | EndAssert | EndClear | OsEnd

  datatype InterruptPc = SetTerminate | TestBlocking | WakeAndSleep | Returned

  /** `armed` records the interrupts whose TERMINATE bit nobody has cleared since. */
  datatype State = State(
    flags: set<Bit>,
    target: TargetPc,
    interrupts: map<nat, InterruptPc>,
    armed: set<nat>)

  datatype Action =
    | CallBegin | CallEnd | Target
    | CallInterrupt(k: nat) | Interrupt(k: nat)
    | OtherSets(bits: set<Bit>) | OtherClears(bits: set<Bit>)
    | ClearTerminate

  const INIT := State({}, Idle, map[], {})

  predicate Enabled(s: State, a: Action) {
    match a
    case CallBegin => s.target.Idle?
    case CallEnd => s.target.Inside?
    case Target => !s.target.Idle? && !s.target.Inside?
    case CallInterrupt(k) => k !in s.interrupts
    case Interrupt(k) => k in s.interrupts && !s.interrupts[k].Returned?
    case OtherSets(bits) => BLOCKING !in bits
    case OtherClears(bits) => BLOCKING !in bits && TERMINATE !in bits
    case ClearTerminate => true
  }

  function Apply(s: State, a: Action): State
    requires Enabled(s, a)
  {
    match a
    case CallBegin => s.(target := BeginAssert)
    case CallEnd => s.(target := EndAssert)
    case Target => TargetStep(s)
    case CallInterrupt(k) => s.(interrupts := s.interrupts[k := SetTerminate])
    case Interrupt(k) => InterruptStep(s, k)
    case OtherSets(bits) => s.(flags := s.flags + bits)
    case OtherClears(bits) => s.(flags := s.flags - bits)
    case ClearTerminate => s.(flags := s.flags - {TERMINATE}, armed := {})
  }

  function TargetStep(s: State): State
    requires Enabled(s, Target)
  {
    match s.target
    case BeginAssert => s.(target := BeginSet)
    case BeginSet => s.(flags := s.flags + {BLOCKING}, target := BeginTest)
    case BeginTest => s.(target := if TERMINATE in s.flags then BeginUndo else OsBegin)
    case BeginUndo => s.(flags := s.flags - {BLOCKING}, target := Idle)
    case OsBegin => s.(target := Inside)
    case EndAssert => s.(target := EndClear)
    case EndClear => s.(flags := s.flags - {BLOCKING}, target := OsEnd)
    case OsEnd => s.(target := Idle)
  }

  function InterruptStep(s: State, k: nat): State
    requires Enabled(s, Interrupt(k))
  {
    match s.interrupts[k]
    case SetTerminate =>
      s.(flags := s.flags + {TERMINATE}, interrupts := s.interrupts[k := TestBlocking], armed := s.armed + {k})
    case TestBlocking =>
      s.(interrupts := s.interrupts[k := if BLOCKING in s.flags then WakeAndSleep else Returned])
    case WakeAndSleep =>
      s.(interrupts := s.interrupts[k := TestBlocking])
  }

  /** The `bh_assert` that the step is about to evaluate, if any. */
  predicate AssertionHolds(s: State, a: Action) {
    && (a.Target? && s.target.BeginAssert? ==> BLOCKING !in s.flags)
    && (a.Target? && s.target.EndAssert? ==> BLOCKING in s.flags)
  }

  /** This step is the one by which a begin call decides to return true. */
  predicate BeginSucceeds(s: State, a: Action) {
    a.Target? && s.target.BeginTest? && TERMINATE !in s.flags
  }

  /** Between the decision to return true and the clearing of BLOCKING by end. */
  predicate InOperation(s: State) {
    s.target.OsBegin? || s.target.Inside? || s.target.EndAssert? || s.target.EndClear?
  }

  /** Interrupt `k` has returned and its TERMINATE has not been cleared. */
  predicate InForce(s: State, k: nat) {
    k in s.interrupts && s.interrupts[k].Returned? && k in s.armed
  }

  predicate ValidRun(s: State, run: seq<Action>)
    decreases |run|
  {
    run == [] || (Enabled(s, run[0]) && ValidRun(Apply(s, run[0]), run[1..]))
  }

  function After(s: State, run: seq<Action>): State
    requires ValidRun(s, run)
    decreases |run|
  {
    if run == [] then s else After(Apply(s, run[0]), run[1..])
  }

  ghost predicate Inv(s: State) {
    && (BLOCKING in s.flags <==> InOperation(s) || s.target.BeginTest? || s.target.BeginUndo?)
    && (s.armed != {} ==> TERMINATE in s.flags)
    && (forall k :: InForce(s, k) ==> !InOperation(s))
  }

  lemma StepKeepsInv(s: State, a: Action)
    requires Inv(s) && Enabled(s, a)
    ensures Inv(Apply(s, a))
  {
    var t := Apply(s, a);
    assert forall k :: InForce(t, k) && !a.Interrupt? ==> InForce(s, k);
    assert a.Interrupt? ==> forall k :: InForce(t, k) && k != a.k ==> InForce(s, k);
  }

  lemma {:induction false} RunKeepsInv(s: State, run: seq<Action>)
    requires Inv(s) && ValidRun(s, run)
    ensures Inv(After(s, run))
    decreases |run|
  {
    if run != [] {
      StepKeepsInv(s, run[0]);
      RunKeepsInv(Apply(s, run[0]), run[1..]);
    }
  }

  /** Under every interleaving, no BLOCKING assertion fails, and a target whose interrupt
      has returned is not between a successful begin and its end. */
  lemma Safety(run: seq<Action>, a: Action, k: nat)
    requires ValidRun(INIT, run) && Enabled(After(INIT, run), a)
    ensures AssertionHolds(After(INIT, run), a)
    ensures InForce(After(INIT, run), k) ==> !InOperation(After(INIT, run))
  {
    RunKeepsInv(INIT, run);
  }

  /** While nobody clears TERMINATE, an interrupt that has returned stays in force and no
      begin succeeds any more. */
  lemma {:induction false} NoBeginAfterInterrupt(s: State, k: nat, later: seq<Action>, a: Action)
    requires Inv(s) && InForce(s, k)
    requires ValidRun(s, later) && Enabled(After(s, later), a)
    requires ClearTerminate !in later
    ensures InForce(After(s, later), k) && !BeginSucceeds(After(s, later), a)
    decreases |later|
  {
    if later != [] {
      StepKeepsInv(s, later[0]);
      assert InForce(Apply(s, later[0]), k);
      NoBeginAfterInterrupt(Apply(s, later[0]), k, later[1..], a);
    }
  }

  /** The condition is exact: from any reachable state with an interrupt in force, some
      continuation makes a begin succeed, and every such continuation clears TERMINATE. */
  lemma BeginNeedsClear(run: seq<Action>, k: nat) returns (later: seq<Action>)
    requires ValidRun(INIT, run) && InForce(After(INIT, run), k)
    ensures ValidRun(After(INIT, run), later) && BeginSucceeds(After(After(INIT, run), later), Target)
    ensures forall c :: ValidRun(After(INIT, run), c) && ClearTerminate !in c ==>
              !BeginSucceeds(After(After(INIT, run), c), Target)
  {
    var s := After(INIT, run);
    RunKeepsInv(INIT, run);
    forall c | ValidRun(s, c) && ClearTerminate !in c
      ensures !BeginSucceeds(After(s, c), Target)
    {
      if Enabled(After(s, c), Target) {
        NoBeginAfterInterrupt(s, k, c, Target);
      }
    }
    later := BeginAgain(s);
  }

  /** Steps of the target to the test in begin. */
  function ToTest(s: State): nat {
    match s.target
    case BeginTest => if TERMINATE in s.flags then 1 else 0
    case BeginSet => 2
    case BeginAssert => 3
    case Idle => 4
    case _ => 5
  }

  lemma BeginAgain(s: State) returns (later: seq<Action>)
    requires !InOperation(s)
    ensures ValidRun(s, later) && BeginSucceeds(After(s, later), Target)
    decreases ToTest(s)
  {
    if ToTest(s) == 0 {
      later := [];
    } else {
      var a := if s.target.BeginTest? then ClearTerminate else if s.target.Idle? then CallBegin else Target;
      var rest := BeginAgain(Apply(s, a));
      later := [a] + rest;
      assert later[1..] == rest;
    }
  }

  // ----- What the calls do -----

  lemma OneStep(s: State, a: Action, rest: seq<Action>, run: seq<Action>)
    requires Enabled(s, a) && ValidRun(Apply(s, a), rest) && run == [a] + rest
    ensures ValidRun(s, run) && After(s, run) == After(Apply(s, a), rest)
  {
    assert run[1..] == rest;
  }

  /** Without anybody else, begin takes four steps and returns true with BLOCKING on, or with
      TERMINATE on returns false and leaves the flags as they were. */
  lemma BeginAlone(s: State)
    requires Inv(s) && s.target.Idle?
    ensures ValidRun(s, [CallBegin, Target, Target, Target, Target])
    ensures After(s, [CallBegin, Target, Target, Target, Target])
         == if TERMINATE in s.flags then s
            else s.(target := Inside, flags := s.flags + {BLOCKING})
  {
    var s1 := Apply(s, CallBegin);
    var s2 := Apply(s1, Target);
    var s3 := Apply(s2, Target);
    var s4 := Apply(s3, Target);
    OneStep(s4, Target, [], [Target]);
    OneStep(s3, Target, [Target], [Target, Target]);
    OneStep(s2, Target, [Target, Target], [Target, Target, Target]);
    OneStep(s1, Target, [Target, Target, Target], [Target, Target, Target, Target]);
    OneStep(s, CallBegin, [Target, Target, Target, Target], [CallBegin, Target, Target, Target, Target]);
  }

  /** Without anybody else, end takes three steps and leaves BLOCKING off. */
  lemma EndAlone(s: State)
    requires s.target.Inside?
    ensures ValidRun(s, [CallEnd, Target, Target, Target])
    ensures After(s, [CallEnd, Target, Target, Target]) == s.(target := Idle, flags := s.flags - {BLOCKING})
  {
    var s1 := Apply(s, CallEnd);
    var s2 := Apply(s1, Target);
    var s3 := Apply(s2, Target);
    OneStep(s3, Target, [], [Target]);
    OneStep(s2, Target, [Target], [Target, Target]);
    OneStep(s1, Target, [Target, Target], [Target, Target, Target]);
    OneStep(s, CallEnd, [Target, Target, Target], [CallEnd, Target, Target, Target]);
  }

  /** The target is in no call, or inside the operation. */
  predicate CallOver(s: State) {
    s.target.Idle? || s.target.Inside?
  }

  /** Some begin in the run passes its test. */
  predicate SomeBeginSucceeds(s: State, run: seq<Action>)
    requires ValidRun(s, run)
    decreases |run|
  {
    run != [] && (BeginSucceeds(s, run[0]) || SomeBeginSucceeds(Apply(s, run[0]), run[1..]))
  }

  predicate InBegin(pc: TargetPc) {
    pc.BeginAssert? || pc.BeginSet? || pc.BeginTest? || pc.BeginUndo? || pc.OsBegin?
  }

  lemma {:induction false} BeginFrom(s: State, run: seq<Action>)
    requires ValidRun(s, run) && CallBegin !in run && CallEnd !in run
    requires InBegin(s.target) || CallOver(s)
    ensures InBegin(After(s, run).target) || CallOver(After(s, run))
    ensures CallOver(After(s, run)) ==>
              (After(s, run).target.Inside? <==>
                 s.target.OsBegin? || s.target.Inside? || SomeBeginSucceeds(s, run))
    decreases |run|
  {
    if run != [] {
      BeginFrom(Apply(s, run[0]), run[1..]);
      if s.target.OsBegin? || s.target.Inside? || s.target.BeginUndo? || s.target.Idle? {
        NoTestLeft(s, run);
      }
      if Apply(s, run[0]).target != s.target && s.target.BeginTest? {
        NoTestLeft(Apply(s, run[0]), run[1..]);
      }
    }
  }

  /** Behind its test a begin does not test again. */
  lemma {:induction false} NoTestLeft(s: State, run: seq<Action>)
    requires ValidRun(s, run) && CallBegin !in run && CallEnd !in run
    requires s.target.OsBegin? || s.target.BeginUndo? || CallOver(s)
    ensures !SomeBeginSucceeds(s, run)
    decreases |run|
  {
    if run != [] {
      NoTestLeft(Apply(s, run[0]), run[1..]);
    }
  }

  /** Whatever the others do meanwhile: when a begin has returned, it has returned true exactly
      if its test found TERMINATE off, and then BLOCKING is on, and otherwise off. */
  lemma BeginOutcome(s: State, run: seq<Action>)
    requires Inv(s) && s.target.Idle? && ValidRun(Apply(s, CallBegin), run) && CallBegin !in run && CallEnd !in run
    requires CallOver(After(Apply(s, CallBegin), run))
    ensures var r := After(Apply(s, CallBegin), run);
            && (r.target.Inside? <==> SomeBeginSucceeds(Apply(s, CallBegin), run))
            && (BLOCKING in r.flags <==> r.target.Inside?)
  {
    StepKeepsInv(s, CallBegin);
    RunKeepsInv(Apply(s, CallBegin), run);
    BeginFrom(Apply(s, CallBegin), run);
  }

  lemma {:induction false} EndFrom(s: State, run: seq<Action>)
    requires ValidRun(s, run) && CallBegin !in run
    requires s.target.EndAssert? || s.target.EndClear? || s.target.OsEnd? || s.target.Idle?
    ensures var pc := After(s, run).target; pc.EndAssert? || pc.EndClear? || pc.OsEnd? || pc.Idle?
    decreases |run|
  {
    if run != [] {
      EndFrom(Apply(s, run[0]), run[1..]);
    }
  }

  /** Whatever the others do meanwhile: when an end has returned, the target is in no call and
      BLOCKING is off. */
  lemma EndOutcome(s: State, run: seq<Action>)
    requires Inv(s) && s.target.Inside? && ValidRun(Apply(s, CallEnd), run) && CallBegin !in run
    requires CallOver(After(Apply(s, CallEnd), run))
    ensures var r := After(Apply(s, CallEnd), run); r.target.Idle? && BLOCKING !in r.flags
  {
    StepKeepsInv(s, CallEnd);
    RunKeepsInv(Apply(s, CallEnd), run);
    EndFrom(Apply(s, CallEnd), run);
  }

  /** In the run interrupt `k` tests BLOCKING and finds it off. */
  predicate FindsOff(s: State, run: seq<Action>, k: nat)
    requires ValidRun(s, run)
    decreases |run|
  {
    && run != []
    && (|| (run[0] == Interrupt(k) && s.interrupts[k].TestBlocking? && BLOCKING !in s.flags)
        || FindsOff(Apply(s, run[0]), run[1..], k))
  }

  lemma {:induction false} InterruptFrom(s: State, run: seq<Action>, k: nat)
    requires ValidRun(s, run) && k in s.interrupts
    ensures k in After(s, run).interrupts
    ensures After(s, run).interrupts[k].Returned? <==> s.interrupts[k].Returned? || FindsOff(s, run, k)
    ensures ClearTerminate !in run && (k in s.armed || s.interrupts[k].SetTerminate?) ==>
              k in After(s, run).armed || After(s, run).interrupts[k].SetTerminate?
    decreases |run|
  {
    if run != [] {
      InterruptFrom(Apply(s, run[0]), run[1..], k);
      if s.interrupts[k].Returned? {
        NoTestAgain(s, run, k);
      } else if run[0] == Interrupt(k) && s.interrupts[k].TestBlocking? && BLOCKING !in s.flags {
        NoTestAgain(Apply(s, run[0]), run[1..], k);
      }
    }
  }

  lemma {:induction false} NoTestAgain(s: State, run: seq<Action>, k: nat)
    requires ValidRun(s, run) && k in s.interrupts && s.interrupts[k].Returned?
    ensures !FindsOff(s, run, k)
    decreases |run|
  {
    if run != [] {
      NoTestAgain(Apply(s, run[0]), run[1..], k);
    }
  }

  /** Whatever the others do meanwhile: an interrupt has returned exactly if it has found
      BLOCKING off, and unless somebody clears it TERMINATE is then on. */
  lemma InterruptOutcome(s: State, run: seq<Action>, k: nat)
    requires Inv(s) && k !in s.interrupts && ValidRun(Apply(s, CallInterrupt(k)), run)
    ensures var s0 := Apply(s, CallInterrupt(k));
            var r := After(s0, run);
            && k in r.interrupts && (r.interrupts[k].Returned? <==> FindsOff(s0, run, k))
            && (r.interrupts[k].Returned? && ClearTerminate !in run ==> InForce(r, k) && TERMINATE in r.flags)
  {
    StepKeepsInv(s, CallInterrupt(k));
    RunKeepsInv(Apply(s, CallInterrupt(k)), run);
    InterruptFrom(Apply(s, CallInterrupt(k)), run, k);
  }

  /** Where BLOCKING is off an interrupt that has set TERMINATE and runs alone returns. */
  lemma InterruptAlone(s: State, k: nat) returns (run: seq<Action>)
    requires k in s.interrupts && BLOCKING !in s.flags && !s.interrupts[k].SetTerminate?
    ensures ValidRun(s, run) && After(s, run) == s.(interrupts := s.interrupts[k := Returned])
    ensures |run| <= 2 && forall a :: a in run ==> a == Interrupt(k)
  {
    match s.interrupts[k]
    case Returned =>
      run := [];
      assert s.interrupts[k := Returned] == s.interrupts;
    case TestBlocking =>
      run := [Interrupt(k)];
      OneStep(s, Interrupt(k), [], run);
    case WakeAndSleep =>
      run := [Interrupt(k), Interrupt(k)];
      var t := Apply(s, Interrupt(k));
      OneStep(t, Interrupt(k), [], [Interrupt(k)]);
      OneStep(s, Interrupt(k), [Interrupt(k)], run);
      assert t.interrupts[k := Returned] == s.interrupts[k := Returned];
  }
}
