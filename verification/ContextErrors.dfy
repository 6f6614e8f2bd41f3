/** Which error a context gets, over every run: where it comes from, and that a call that returns has set one. */
module ContextErrors {
  import opened Machine
  import opened ContextTree
  import opened ContextRuns
  import opened ContextSafety
  import opened ContextPromises

  // ---------- causes ----------

  /** A cancel function of c called, or its timer fired, with error e; or its deadline found to have passed. */
  datatype Cause = Cause(c: nat, e: Error)

  ghost function CausedBy(s: State, step: Step): set<Cause>
    requires Sane(s) && Enabled(s, step)
  {
    match step
    case Call(_, c, e) => {Cause(c, e)}
    case Late(t) => {Cause(Top(s, t).c, DeadlineExceeded)}
    case _ => {}
  }

  /** The causes in a run. */
  ghost function Causes(s: State, steps: seq<Step>): set<Cause>
    decreases |steps|
  {
    if steps == [] || !Sane(s) || !Enabled(s, steps[0]) then {}
    else CausedBy(s, steps[0]) + Causes(Do(s, steps[0]), steps[1..])
  }

  // ---------- the invariant ----------

  /** The error e has reason to be that of c: a cause, or c's nearest cancellable ancestor has it. */
  ghost predicate Reason(s: State, g: set<Cause>, c: nat, e: Error)
    requires IsTree(s.shape) && |s.ctxs| == |s.shape|
  {
    c < |s.ctxs| && (Cause(c, e) in g || (Above(s.shape, c).Some? && s.ctxs[Above(s.shape, c).value].err == Some(e)))
  }

  /** What a frame is about to set has a reason; a loop passes on what its context has. */
  ghost predicate FrameHas(s: State, g: set<Cause>, f: Frame)
    requires IsTree(s.shape) && |s.ctxs| == |s.shape|
  {
    match f
    case CancelStart(c, e, _) => Reason(s, g, c, e)
    case CancelLoop(c, e, _, _) => c < |s.ctxs| && s.ctxs[c].err == Some(e)
    case _ => true
  }

  /** In propagateCancel below a cancelled context, the new one has no error before it has that one's. */
  ghost predicate HoldsLike(s: State, stack: seq<Frame>) {
    stack != [] && stack[0].Holding? ==>
      && stack[0].c < |s.ctxs| && stack[0].p < |s.ctxs|
      && if |stack| > 1 && stack[1].CancelStart?
         then s.ctxs[stack[0].c].err.None? && s.ctxs[stack[0].p].err == Some(stack[1].e)
         else s.ctxs[stack[0].c].err == s.ctxs[stack[0].p].err
  }

  ghost predicate StackHas(s: State, g: set<Cause>, stack: seq<Frame>)
    requires IsTree(s.shape) && |s.ctxs| == |s.shape|
  {
    HoldsLike(s, stack) && forall i :: 0 <= i < |stack| ==> FrameHas(s, g, stack[i])
  }

  /** The stack of thread t. */
  ghost predicate ThreadHas(s: State, g: set<Cause>, t: nat) {
    IsTree(s.shape) && |s.ctxs| == |s.shape| && t < |s.threads| && StackHas(s, g, s.threads[t])
  }

  ghost predicate CtxHas(s: State, g: set<Cause>, c: nat) {
    && IsTree(s.shape) && |s.ctxs| == |s.shape| && c < |s.ctxs|
    && (s.ctxs[c].err.Some? ==> Reason(s, g, c, s.ctxs[c].err.value))
  }

  /** Every error has a reason. */
  ghost predicate Reasoned(s: State, g: set<Cause>) {
    && IsTree(s.shape) && |s.ctxs| == |s.shape|
    && (forall c :: 0 <= c < |s.ctxs| ==> CtxHas(s, g, c))
    && forall t :: 0 <= t < |s.threads| ==> ThreadHas(s, g, t)
  }

  // ---------- what a step keeps ----------

  /** The tree grows at most. */
  ghost predicate Grows(s: State, s1: State) {
    && IsTree(s.shape) && |s.ctxs| == |s.shape| <= |s1.shape| && IsTree(s1.shape) && |s1.ctxs| == |s1.shape|
    && ErrorsStay(s, s1) && forall c :: 0 <= c < |s.shape| ==> Above(s1.shape, c) == Above(s.shape, c)
  }

  lemma StepGrows(s: State, step: Step)
    requires Inv(s) && Sane(s) && Enabled(s, step)
    ensures Grows(s, Do(s, step))
  {
    StepErrorsStay(s, step);
    if step.New? {
      forall c | 0 <= c < |s.shape| ensures Above(Do(s, step).shape, c) == Above(s.shape, c) {
        AboveStable(s.shape, Shape(step.parent, step.kind), c);
      }
    }
  }

  lemma ReasonStays(s: State, s1: State, g: set<Cause>, g1: set<Cause>, c: nat, e: Error)
    requires Grows(s, s1) && g <= g1 && Reason(s, g, c, e)
    ensures Reason(s1, g1, c, e)
  {
  }

  lemma FrameStays(s: State, s1: State, g: set<Cause>, g1: set<Cause>, f: Frame)
    requires Grows(s, s1) && g <= g1 && FrameHas(s, g, f)
    ensures FrameHas(s1, g1, f)
  {
    if f.CancelStart? { ReasonStays(s, s1, g, g1, f.c, f.e); }
  }

  /** Another thread's stack, whose context in construction is left alone. */
  lemma StackStays(s: State, s1: State, g: set<Cause>, g1: set<Cause>, u: nat)
    requires Grows(s, s1) && g <= g1 && ThreadHas(s, g, u) && StackOk(s, u)
    requires forall c :: 0 <= c < |s.ctxs| && Builds(s.threads[u], c) ==> s1.ctxs[c].err == s.ctxs[c].err
    ensures StackHas(s1, g1, s.threads[u])
  {
    var stack := s.threads[u];
    forall i | 0 <= i < |stack| ensures FrameHas(s1, g1, stack[i]) { FrameStays(s, s1, g, g1, stack[i]); }
    if stack != [] && stack[0].Holding? {
      assert FrameOk(s, u, stack[0]) && Builds(stack, stack[0].c);
    }
  }

  /** Only cancel sets an error, that of its frame. */
  lemma OnlyCancelSets(s: State, step: Step, c: nat)
    requires Sane(s) && Enabled(s, step) && c < |s.ctxs|
    ensures Do(s, step).ctxs[c].err != s.ctxs[c].err ==>
      && step.Run? && Top(s, step.t).CancelStart? && Top(s, step.t).c == c
      && Do(s, step).ctxs[c].err == Some(Top(s, step.t).e)
  {
  }

  /** What one thread is constructing, no other works on. */
  lemma BuiltAlone(s: State, t: nat, u: nat, c: nat)
    requires Inv(s) && t < |s.threads| && u < |s.threads| && t != u && s.threads[t] != []
    requires Builds(s.threads[u], c)
    ensures Top(s, t).c != c
  {
    assert StackOk(s, t) && StackOk(s, u);
    assert FrameOk(s, u, s.threads[u][0]);
  }

  lemma OthersSame(s: State, step: Step)
    requires Sane(s) && Enabled(s, step)
    ensures |Do(s, step).threads| == |s.threads| && step.t < |s.threads|
    ensures forall u :: 0 <= u < |s.threads| && u != step.t ==> Do(s, step).threads[u] == s.threads[u]
  {
  }

  lemma OthersStay(s: State, step: Step, g: set<Cause>, u: nat)
    requires Inv(s) && Reasoned(s, g) && Sane(s) && Enabled(s, step) && u < |s.threads| && step.t != u
    ensures ThreadHas(Do(s, step), g + CausedBy(s, step), u)
  {
    var s1 := Do(s, step);
    StepGrows(s, step);
    forall c | 0 <= c < |s.ctxs| && Builds(s.threads[u], c) ensures s1.ctxs[c].err == s.ctxs[c].err {
      OnlyCancelSets(s, step, c);
      if step.Run? { BuiltAlone(s, step.t, u, c); }
    }
    assert StackOk(s, u) && ThreadHas(s, g, u);
    OthersSame(s, step);
    StackStays(s, s1, g, g + CausedBy(s, step), u);
  }

  // ---------- the thread that takes the step ----------

  /** The outer frames of a stack whose context in construction is cancelled like its ancestor, and new inner ones. */
  lemma Joined(s: State, s1: State, g: set<Cause>, t: nat, frames: seq<Frame>)
    requires Grows(s, s1) && ThreadHas(s, g, t) && s.threads[t] != [] && StackOk(s, t)
    requires forall f :: f in frames ==> FrameHas(s1, g, f)
    requires HoldsLike(s1, Init(s, t) + frames)
    ensures StackHas(s1, g, Init(s, t) + frames)
  {
    var stack := Init(s, t) + frames;
    forall i | 0 <= i < |stack| ensures FrameHas(s1, g, stack[i]) {
      if i < |Init(s, t)| { FrameStays(s, s1, g, g, s.threads[t][i]); }
    }
  }

  /** What the construction knows stays, unless its own cancel is about to begin. */
  lemma HoldsOn(s: State, s1: State, t: nat, frames: seq<Frame>)
    requires Grows(s, s1) && t < |s.threads| && s.threads[t] != [] && StackOk(s, t) && HoldsLike(s, s.threads[t])
    requires !Top(s, t).CancelStart? && !Top(s, t).Propagate?
    requires frames == [] || (!frames[0].Holding? && !frames[0].CancelStart?)
    ensures HoldsLike(s1, Init(s, t) + frames)
  {
    var stack := Init(s, t) + frames;
    if Init(s, t) != [] && stack[0].Holding? {
      var old1 := s.threads[t];
      assert stack[0] == old1[0] && FrameOk(s, t, old1[0]) && Fits(s.shape, old1, 1);
    }
  }

  /** What follows a CancelStart frame. */
  function AfterStart(s: State, f: Frame): seq<Frame>
    requires f.CancelStart? && f.c < |s.ctxs| == |s.shape|
  {
    if s.ctxs[f.c].err.Some? then AfterCancel(s, f.c) else [CancelLoop(f.c, f.e, f.remove, s.ctxs[f.c].children)]
  }

  /** A construction's cancel begins: the new context gets the error of its ancestor. */
  lemma StartHolds(s: State, s1: State, t: nat)
    requires Grows(s, s1) && t < |s.threads| && s.threads[t] != [] && StackOk(s, t) && HoldsLike(s, s.threads[t])
    requires Top(s, t).CancelStart? && s1.ctxs[Top(s, t).c].err.Some?
    requires s.ctxs[Top(s, t).c].err.None? ==> s1.ctxs[Top(s, t).c].err == Some(Top(s, t).e)
    ensures HoldsLike(s1, Init(s, t) + AfterStart(s, Top(s, t)))
  {
    var stack, frames := s.threads[t], AfterStart(s, Top(s, t));
    assert FrameOk(s, t, Top(s, t));
    if Init(s, t) != [] && stack[0].Holding? {
      assert FrameOk(s, t, stack[0]) && Fits(s.shape, stack, 1);
      assert (Init(s, t) + frames)[0] == stack[0];
    }
  }

  lemma CancelStarts(s: State, t: nat, g: set<Cause>, k: Key)
    requires Inv(s) && Reasoned(s, g) && Sane(s) && Enabled(s, Run(t, k)) && Top(s, t).CancelStart?
    ensures ThreadHas(Do(s, Run(t, k)), g, t)
  {
    var s1, f := Do(s, Run(t, k)), Top(s, t);
    StepGrows(s, Run(t, k));
    assert StackOk(s, t) && ThreadHas(s, g, t) && FrameHas(s, g, f);
    var frames := AfterStart(s, f);
    assert s1.threads[t] == Init(s, t) + frames;
    StartHolds(s, s1, t);
    Joined(s, s1, g, t, frames);
    hide Inv, Reasoned, Sane, Enabled, StackOk;
  }

  lemma CancelLoops(s: State, t: nat, g: set<Cause>, k: Key)
    requires Inv(s) && Reasoned(s, g) && Sane(s) && Enabled(s, Run(t, k)) && Top(s, t).CancelLoop?
    ensures ThreadHas(Do(s, Run(t, k)), g, t)
  {
    var s1, f := Do(s, Run(t, k)), Top(s, t);
    StepGrows(s, Run(t, k));
    assert StackOk(s, t) && ThreadHas(s, g, t) && FrameHas(s, g, f) && FrameOk(s, t, f);
    var frames := if f.todo != {} then [f.(todo := f.todo - {k}), CancelStart(k.id, f.e, false)]
                  else if f.remove then [RemoveStart(f.c)] else AfterCancel(s, f.c);
    assert s1.threads[t] == Init(s, t) + frames;
    if f.todo != {} { assert Registered(s, f.c, k); }
    HoldsOn(s, s1, t, frames);
    Joined(s, s1, g, t, frames);
  }

  lemma Propagates(s: State, t: nat, g: set<Cause>, k: Key)
    requires Inv(s) && Reasoned(s, g) && Sane(s) && Enabled(s, Run(t, k)) && Top(s, t).Propagate?
    ensures ThreadHas(Do(s, Run(t, k)), g, t)
  {
    assert StackOk(s, t) && FrameOk(s, t, Top(s, t)) && Fits(s.shape, s.threads[t], |s.threads[t]| - 1);
  }

  /** The other frames: what follows them sets no error. */
  lemma OtherRuns(s: State, t: nat, g: set<Cause>, k: Key)
    requires Inv(s) && Reasoned(s, g) && Sane(s) && Enabled(s, Run(t, k))
    requires !Top(s, t).CancelStart? && !Top(s, t).CancelLoop? && !Top(s, t).Propagate?
    ensures ThreadHas(Do(s, Run(t, k)), g, t)
  {
    var s1, f := Do(s, Run(t, k)), Top(s, t);
    StepGrows(s, Run(t, k));
    assert StackOk(s, t) && ThreadHas(s, g, t);
    var frames := s1.threads[t][|s.threads[t]| - 1..];
    assert s1.threads[t] == Init(s, t) + frames;
    HoldsOn(s, s1, t, frames);
    Joined(s, s1, g, t, frames);
  }

  // ---------- steps and runs ----------

  /** A new call, or a passed deadline. */
  lemma CallStack(s: State, step: Step, g: set<Cause>)
    requires Inv(s) && Reasoned(s, g) && Sane(s) && Enabled(s, step) && !step.Run?
    ensures ThreadHas(Do(s, step), g + CausedBy(s, step), step.t)
  {
    StepGrows(s, step);
    if step.Late? { assert StackOk(s, step.t) && Fits(s.shape, s.threads[step.t], |s.threads[step.t]| - 1); }
    hide Inv, Reasoned, ErrorsStay, Above;
  }

  lemma RunStack(s: State, t: nat, k: Key, g: set<Cause>)
    requires Inv(s) && Reasoned(s, g) && Sane(s) && Enabled(s, Run(t, k))
    ensures ThreadHas(Do(s, Run(t, k)), g, t)
  {
    hide Inv, Reasoned, Do, ThreadHas;
    match Top(s, t)
    case CancelStart(_, _, _) => CancelStarts(s, t, g, k);
    case CancelLoop(_, _, _, _) => CancelLoops(s, t, g, k);
    case Propagate(_) => Propagates(s, t, g, k);
    case _ => OtherRuns(s, t, g, k);
  }

  lemma OwnStack(s: State, step: Step, g: set<Cause>)
    requires Inv(s) && Reasoned(s, g) && Sane(s) && Enabled(s, step)
    ensures ThreadHas(Do(s, step), g + CausedBy(s, step), step.t)
  {
    hide Inv, Reasoned, Do, ThreadHas, Sane, Enabled;
    if step.Run? {
      assert g + CausedBy(s, step) == g;
      RunStack(s, step.t, step.k, g);
    } else {
      CallStack(s, step, g);
    }
  }

  lemma CtxStays(s: State, step: Step, g: set<Cause>, c: nat)
    requires Inv(s) && Reasoned(s, g) && Sane(s) && Enabled(s, step) && c < |Do(s, step).ctxs|
    ensures CtxHas(Do(s, step), g + CausedBy(s, step), c)
  {
    var s1, g1 := Do(s, step), g + CausedBy(s, step);
    StepGrows(s, step);
    if c < |s.ctxs| && s1.ctxs[c].err.Some? {
      OnlyCancelSets(s, step, c);
      if s1.ctxs[c].err == s.ctxs[c].err {
        assert CtxHas(s, g, c);
      } else {
        assert ThreadHas(s, g, step.t) && FrameHas(s, g, Top(s, step.t));
      }
      ReasonStays(s, s1, g, g1, c, s1.ctxs[c].err.value);
    }
  }

  lemma StepReasoned(s: State, step: Step, g: set<Cause>)
    requires Inv(s) && Reasoned(s, g) && Sane(s) && Enabled(s, step)
    ensures Reasoned(Do(s, step), g + CausedBy(s, step))
  {
    var s1, g1 := Do(s, step), g + CausedBy(s, step);
    StepGrows(s, step);
    OthersSame(s, step);
    hide Inv, Do, Sane, Enabled, CausedBy, ThreadHas, CtxHas, ErrorsStay, IsTree;
    forall c | 0 <= c < |s1.ctxs| ensures CtxHas(s1, g1, c) { CtxStays(s, step, g, c); }
    forall t | 0 <= t < |s1.threads| ensures ThreadHas(s1, g1, t) {
      if t == step.t { OwnStack(s, step, g); } else { OthersStay(s, step, g, t); }
    }
  }

  lemma {:induction false} RunReasoned(s: State, steps: seq<Step>, s2: State, g: set<Cause>)
    requires Inv(s) && Reasoned(s, g) && Reaches(s, steps, s2)
    ensures Inv(s2) && Reasoned(s2, g + Causes(s, steps))
    decreases |steps|
  {
    if steps == [] {
      assert g + Causes(s, steps) == g;
    } else {
      StepInv(s, steps[0]);
      StepReasoned(s, steps[0], g);
      RunReasoned(Do(s, steps[0]), steps[1..], s2, g + CausedBy(s, steps[0]));
      assert g + Causes(s, steps) == g + CausedBy(s, steps[0]) + Causes(Do(s, steps[0]), steps[1..]);
    }
  }

  lemma StartReasoned(n: nat, steps: seq<Step>, s: State)
    requires Reaches(Start(n), steps, s)
    ensures Inv(s) && Reasoned(s, Causes(Start(n), steps))
  {
    RunReasoned(Start(n), steps, s, {});
    assert {} + Causes(Start(n), steps) == Causes(Start(n), steps);
  }

  // ---------- the laws ----------

  /** A cause for c's error, at c or at a cancellable ancestor. */
  ghost predicate CauseAt(s: State, g: set<Cause>, c: nat, a: nat)
    requires IsTree(s.shape) && |s.ctxs| == |s.shape| && c < |s.ctxs| && s.ctxs[c].err.Some?
  {
    (a == c || Descends(s.shape, a, c)) && Cause(a, s.ctxs[c].err.value) in g
  }

  lemma {:induction false} CauseUp(s: State, g: set<Cause>, c: nat) returns (a: nat)
    requires Reasoned(s, g) && c < |s.ctxs| && s.ctxs[c].err.Some?
    ensures CauseAt(s, g, c, a)
    decreases c
  {
    assert CtxHas(s, g, c);
    a := c;
    if Cause(c, s.ctxs[c].err.value) !in g { a := CauseUp(s, g, Above(s.shape, c).value); }
  }

  /**
   In every run, a context's error is that of a cancel function called or a timer fired on it or on a cancellable
   ancestor, or DeadlineExceeded from a deadline that one of them found passed.
   */
  lemma ErrorHasCause(n: nat, steps: seq<Step>, s: State, c: nat)
    requires Reaches(Start(n), steps, s) && c < |s.ctxs| && s.ctxs[c].err.Some?
    ensures IsTree(s.shape) && |s.ctxs| == |s.shape| && exists a: nat :: CauseAt(s, Causes(Start(n), steps), c, a)
  {
    StartReasoned(n, steps, s);
    var a := CauseUp(s, Causes(Start(n), steps), c);
  }

  /** Some step of the run is a call or a fired timer with error e, or a passed deadline where that is e. */
  ghost predicate Occurs(steps: seq<Step>, e: Error) {
    exists i :: 0 <= i < |steps| && if steps[i].Call? then steps[i].e == e else steps[i].Late? && e == DeadlineExceeded
  }

  lemma {:induction false} CauseOccurs(s: State, steps: seq<Step>, x: Cause)
    requires x in Causes(s, steps)
    ensures Occurs(steps, x.e)
    decreases |steps|
  {
    if x in CausedBy(s, steps[0]) {
      assert 0 < |steps|;
    } else {
      CauseOccurs(Do(s, steps[0]), steps[1..], x);
      var i :| 0 <= i < |steps[1..]| &&
        if steps[1..][i].Call? then steps[1..][i].e == x.e else steps[1..][i].Late? && x.e == DeadlineExceeded;
      assert steps[i + 1] == steps[1..][i];
    }
  }

  /** No error comes of nothing: neither Canceled without a cancel function nor DeadlineExceeded without a deadline. */
  lemma NoOtherError(n: nat, steps: seq<Step>, s: State, c: nat)
    requires Reaches(Start(n), steps, s) && c < |s.ctxs| && s.ctxs[c].err.Some?
    ensures Occurs(steps, s.ctxs[c].err.value)
  {
    ErrorHasCause(n, steps, s, c);
    var a: nat :| CauseAt(s, Causes(Start(n), steps), c, a);
    CauseOccurs(Start(n), steps, Cause(a, s.ctxs[c].err.value));
  }

  /** A constructor that finds its ancestor cancelled returns a context with that ancestor's error. */
  lemma LinkedLike(n: nat, steps: seq<Step>, s: State, t: nat, k: Key)
    requires Reaches(Start(n), steps, s) && t < |s.threads| && s.threads[t] != [] && Top(s, t).Holding?
    ensures Sane(s) && Enabled(s, Run(t, k))
    ensures var f, s1 := Top(s, t), Do(s, Run(t, k));
      && f.c !in s.linked && f.c in s1.linked && Above(s.shape, f.c) == Some(f.p)
      && s1.ctxs[f.c].err.Some? && s1.ctxs[f.c].err == s1.ctxs[f.p].err
  {
    StartReasoned(n, steps, s);
    InvSane(s);
    assert StackOk(s, t) && FrameOk(s, t, Top(s, t)) && Fits(s.shape, s.threads[t], |s.threads[t]| - 1);
    assert ThreadHas(s, Causes(Start(n), steps), t);
  }

  /** The context's call is still to begin, or it has an error. */
  ghost predicate Begun(s: State, t: nat, c: nat, e: Error) {
    && t < |s.threads| && c < |s.ctxs|
    && (s.ctxs[c].err.Some? || s.threads[t] == [CancelStart(c, e, true)])
  }

  lemma BegunOn(s: State, step: Step, t: nat, c: nat, e: Error)
    requires Inv(s) && Sane(s) && Enabled(s, step) && Begun(s, t, c, e)
    ensures Begun(Do(s, step), t, c, e)
  {
    StepErrorsStay(s, step);
    if s.ctxs[c].err.None? {
      OnlyCancelSets(s, step, c);
      if step.t == t { assert Top(s, t) == CancelStart(c, e, true); }
    }
  }

  lemma {:induction false} BegunStays(s: State, steps: seq<Step>, s2: State, t: nat, c: nat, e: Error)
    requires Inv(s) && Reaches(s, steps, s2) && Begun(s, t, c, e)
    ensures Begun(s2, t, c, e)
    decreases |steps|
  {
    if steps != [] {
      StepInv(s, steps[0]);
      BegunOn(s, steps[0], t, c, e);
      BegunStays(Do(s, steps[0]), steps[1..], s2, t, c, e);
    }
  }

  /** When a cancel function returns, its context has an error; and so when a fired timer is done. */
  lemma CallCancels(n: nat, steps: seq<Step>, s: State, t: nat, c: nat, e: Error, more: seq<Step>, s2: State)
    requires Reaches(Start(n), steps, s) && Sane(s) && Enabled(s, Call(t, c, e))
    requires Reaches(Do(s, Call(t, c, e)), more, s2) && t < |s2.threads| && s2.threads[t] == []
    ensures c < |s2.ctxs| && s2.ctxs[c].err.Some?
  {
    RunInv(Start(n), steps, s);
    StepInv(s, Call(t, c, e));
    BegunStays(Do(s, Call(t, c, e)), more, s2, t, c, e);
  }

  /** A constructor makes the context that it is asked for, live, without children, and goes on to propagateCancel. */
  lemma NewContext(s: State, t: nat, parent: Option<nat>, kind: Kind)
    requires Sane(s) && Enabled(s, New(t, parent, kind))
    ensures var s1, c := Do(s, New(t, parent, kind)), |s.ctxs|;
      && s1.shape == s.shape + [Shape(parent, kind)] && s1.ctxs == s.ctxs + [Ctx(None, 0, {})]
      && if kind.ValueCtx? then c in s1.linked else s1.threads[t] == [Propagate(c)]
  {
  }

  // ---------- timers ----------

  /** The thread is constructing c, or is about to set its timer or to cancel it. */
  predicate Arms(stack: seq<Frame>, c: nat) {
    stack != [] && stack[0].c == c
    && (stack[0].Propagate? || stack[0].Holding? || stack[0].SetTimer? || stack[0].CancelStart?)
  }

  ghost predicate TimedAt(s: State, c: nat)
    requires c < |s.ctxs| == |s.shape|
  {
    s.shape[c].kind.TimerCtx? && s.ctxs[c].err.None? ==>
      c in s.armed || exists t :: 0 <= t < |s.threads| && Arms(s.threads[t], c)
  }

  /** A live timer context has its timer, or a thread that sees to it. */
  ghost predicate Timed(s: State) { |s.ctxs| == |s.shape| && forall c :: 0 <= c < |s.ctxs| ==> TimedAt(s, c) }

  /** c has a timer, or thread t sees to it; or it has an error. */
  ghost predicate Armed(s: State, t: nat, c: nat) {
    c < |s.ctxs| && t < |s.threads| && (s.ctxs[c].err.Some? || c in s.armed || Arms(s.threads[t], c))
  }

  /** The thread that takes the step, its first frame being its innermost. */
  lemma ArmsLast(s: State, t: nat, k: Key, c: nat)
    requires Inv(s) && Sane(s) && Enabled(s, Run(t, k)) && c < |s.ctxs| && s.shape[c].kind.TimerCtx?
    requires |s.threads[t]| == 1 && Arms(s.threads[t], c)
    ensures Armed(Do(s, Run(t, k)), t, c)
  {
    assert StackOk(s, t) && Top(s, t) == s.threads[t][0];
    hide Inv, Above, KeyOf, StackOk;
  }

  /** Its first frame stays, or is one that cancels. */
  lemma ArmsFirst(s: State, step: Step, c: nat)
    requires Sane(s) && Enabled(s, step) && c < |s.ctxs| && Arms(s.threads[step.t], c)
    requires step.Run? ==> |s.threads[step.t]| > 1
    requires step.Late? ==> Fits(s.shape, s.threads[step.t], |s.threads[step.t]| - 1)
    ensures Armed(Do(s, step), step.t, c)
  {
  }

  lemma ArmsOn(s: State, step: Step, c: nat)
    requires Inv(s) && Sane(s) && Enabled(s, step) && c < |s.ctxs| && s.shape[c].kind.TimerCtx?
    requires Arms(s.threads[step.t], c)
    ensures Armed(Do(s, step), step.t, c)
  {
    if step.Run? && |s.threads[step.t]| == 1 {
      ArmsLast(s, step.t, step.k, c);
    } else {
      if step.Late? { assert StackOk(s, step.t); }
      ArmsFirst(s, step, c);
    }
  }

  lemma StepTimed(s: State, step: Step)
    requires Inv(s) && Timed(s) && Sane(s) && Enabled(s, step)
    ensures Timed(Do(s, step))
  {
    var s1 := Do(s, step);
    StepGrows(s, step);
    forall c | 0 <= c < |s1.ctxs| ensures TimedAt(s1, c) {
      if c < |s.ctxs| {
        TimedOn(s, step, c);
      } else if s1.shape[c].kind.TimerCtx? {
        assert Arms(s1.threads[step.t], c);
      }
    }
  }

  lemma ShapeStays(s: State, step: Step, c: nat)
    requires Sane(s) && Enabled(s, step) && c < |s.shape|
    ensures c < |Do(s, step).shape| && Do(s, step).shape[c] == s.shape[c]
  {
  }

  lemma TimedOn(s: State, step: Step, c: nat)
    requires Inv(s) && c < |s.ctxs| && TimedAt(s, c) && Sane(s) && Enabled(s, step)
    ensures TimedAt(Do(s, step), c)
  {
    var s1 := Do(s, step);
    StepErrorsStay(s, step);
    StepGrows(s, step);
    OthersSame(s, step);
    ShapeStays(s, step, c);
    hide Inv, Do, Sane, Enabled, IsTree, Arms;
    if s.shape[c].kind.TimerCtx? && s1.ctxs[c].err.None? {
      if c in s.armed {
        StaysArmed(s, step, c);
      } else {
        var t :| 0 <= t < |s.threads| && Arms(s.threads[t], c);
        if t == step.t { ArmsOn(s, step, c); } else { assert Arms(s1.threads[t], c); }
      }
    }
  }

  /** Only a context with an error has its timer stopped. */
  lemma StaysArmed(s: State, step: Step, c: nat)
    requires Inv(s) && Sane(s) && Enabled(s, step) && c in s.armed && s.ctxs[c].err.None?
    ensures c in Do(s, step).armed
  {
    if step.Run? && Top(s, step.t).StopTimer? { assert StackOk(s, step.t) && FrameOk(s, step.t, Top(s, step.t)); }
  }

  lemma {:induction false} RunTimed(s: State, steps: seq<Step>, s2: State)
    requires Inv(s) && Timed(s) && Reaches(s, steps, s2)
    ensures Timed(s2)
    decreases |steps|
  {
    if steps != [] {
      StepInv(s, steps[0]);
      StepTimed(s, steps[0]);
      RunTimed(Do(s, steps[0]), steps[1..], s2);
    }
  }

  /** When no call is in progress, exactly the live timer contexts have a timer. */
  lemma QuietTimers(n: nat, steps: seq<Step>, s: State, c: nat)
    requires Reaches(Start(n), steps, s) && Quiet(s) && c < |s.ctxs|
    ensures |s.shape| == |s.ctxs| && (c in s.armed <==> s.shape[c].kind.TimerCtx? && s.ctxs[c].err.None?)
  {
    RunInv(Start(n), steps, s);
    RunTimed(Start(n), steps, s);
    QuietTidy(n, steps, s);
    assert TimedAt(s, c);
  }
}
