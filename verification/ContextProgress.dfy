/**
 Every call of the context package ends: without new calls a run has a bounded number of steps, however it is
 scheduled.
 */
module ContextProgress {
  import opened Machine
  import opened ContextTree
  import opened ContextRuns
  import opened ContextSafety
  import opened ContextPromises

  // ---------- the measure ----------

  /** At most so many steps come of a frame, not counting what entering a live context adds. */
  function Weight(f: Frame): nat {
    match f
    case Propagate(_) => 13
    case Holding(_, _) => 7
    case SetTimer(_) => 6
    case CancelStart(_, _, _) => 5
    case CancelLoop(_, _, _, todo) => 3 + 6 * |todo|
    case RemoveStart(_) => 2
    case StopTimer(_) => 1
  }

  function StackWeight(stack: seq<Frame>): nat {
    if stack == [] then 0 else StackWeight(stack[..|stack| - 1]) + Weight(stack[|stack| - 1])
  }

  function Total(threads: seq<seq<Frame>>): nat {
    if threads == [] then 0 else StackWeight(threads[0]) + Total(threads[1..])
  }

  /** How many contexts are live. */
  function Live(ctxs: seq<Ctx>): nat {
    if ctxs == [] then 0 else (if ctxs[0].err.None? then 1 else 0) + Live(ctxs[1..])
  }

  function Product(a: nat, b: nat): nat { a * b }

  function Measure(s: State): nat { Total(s.threads) + 6 * Product(|s.ctxs|, Live(s.ctxs)) }

  lemma StackAppend(stack: seq<Frame>, f: Frame)
    ensures StackWeight(stack + [f]) == StackWeight(stack) + Weight(f)
  {
    assert (stack + [f])[..|stack|] == stack;
  }

  lemma {:induction false} TotalUpdate(threads: seq<seq<Frame>>, t: nat, stack: seq<Frame>)
    requires t < |threads|
    ensures Total(threads[t := stack]) == Total(threads) - StackWeight(threads[t]) + StackWeight(stack)
  {
    if t == 0 {
      assert threads[t := stack][1..] == threads[1..];
    } else {
      assert threads[t := stack][1..] == threads[1..][t - 1 := stack];
      TotalUpdate(threads[1..], t - 1, stack);
    }
  }

  lemma {:induction false} LiveUpdate(ctxs: seq<Ctx>, c: nat, x: Ctx)
    requires c < |ctxs|
    ensures Live(ctxs[c := x]) == Live(ctxs) - (if ctxs[c].err.None? then 1 else 0) + if x.err.None? then 1 else 0
  {
    if c == 0 {
      assert ctxs[c := x][1..] == ctxs[1..];
    } else {
      assert ctxs[c := x][1..] == ctxs[1..][c - 1 := x];
      LiveUpdate(ctxs[1..], c - 1, x);
    }
  }

  lemma OneLess(a: nat, b: nat)
    requires b > 0
    ensures Product(a, b - 1) == Product(a, b) - a
  {
  }

  /** Keys of contexts below n, one for each context at most, are at most n. */
  lemma {:induction false} KeysFew(shape: seq<Shape>, keys: set<Key>, n: nat)
    requires n <= |shape| && forall k :: k in keys ==> k.id < n && k == KeyOf(shape, k.id)
    ensures |keys| <= n
  {
    if n == 0 {
      assert keys == {};
    } else {
      var k, rest := KeyOf(shape, n - 1), keys - {KeyOf(shape, n - 1)};
      KeysFew(shape, rest, n - 1);
      assert keys <= rest + {k};
      assert |keys| <= |rest| + 1;
    }
  }

  lemma ChildrenFew(s: State, c: nat)
    requires CtxsOk(s) && c < |s.ctxs|
    ensures |s.ctxs[c].children| <= |s.ctxs|
  {
    forall k | k in s.ctxs[c].children ensures k.id < |s.ctxs| && k == KeyOf(s.shape, k.id) {
      assert Registered(s, c, k);
    }
    KeysFew(s.shape, s.ctxs[c].children, |s.ctxs|);
  }

  // ---------- one step ----------

  predicate Internal(step: Step) { step.Run? || step.Late? }

  function FramesWeight(frames: seq<Frame>): nat {
    if frames == [] then 0 else Weight(frames[0]) + FramesWeight(frames[1..])
  }

  lemma {:induction false} StackFrames(stack: seq<Frame>, frames: seq<Frame>)
    ensures StackWeight(stack + frames) == StackWeight(stack) + FramesWeight(frames)
    decreases |frames|
  {
    if frames == [] {
      assert stack + frames == stack;
    } else {
      assert stack + frames == (stack + [frames[0]]) + frames[1..];
      StackFrames(stack + [frames[0]], frames[1..]);
      StackAppend(stack, frames[0]);
    }
  }

  /** A step that replaces thread t's innermost frame. */
  ghost predicate Replaces(s: State, s1: State, t: nat, frames: seq<Frame>) {
    && t < |s.threads| && s.threads[t] != [] && |s1.ctxs| == |s.ctxs|
    && s1.threads == s.threads[t := s.threads[t][..|s.threads[t]| - 1] + frames]
  }

  lemma Replaced(s: State, s1: State, t: nat, frames: seq<Frame>)
    requires Replaces(s, s1, t, frames)
    ensures Total(s1.threads) == Total(s.threads) - Weight(Top(s, t)) + FramesWeight(frames)
  {
    var stack := s.threads[t];
    var init := stack[..|stack| - 1];
    assert stack == init + [Top(s, t)];
    StackAppend(init, Top(s, t));
    StackFrames(init, frames);
    TotalUpdate(s.threads, t, init + frames);
  }

  /** A step that leaves every error alone and puts lighter frames in the place of one. */
  lemma Lighter(s: State, s1: State, t: nat, frames: seq<Frame>)
    requires Replaces(s, s1, t, frames) && FramesWeight(frames) < Weight(Top(s, t)) && Live(s1.ctxs) == Live(s.ctxs)
    ensures Measure(s1) < Measure(s)
  {
    Replaced(s, s1, t, frames);
  }

  lemma OneFrame(f: Frame)
    ensures FramesWeight([f]) == Weight(f)
  {
    assert [f][1..] == [];
  }

  lemma TwoFrames(f: Frame, g: Frame)
    ensures FramesWeight([f, g]) == Weight(f) + Weight(g)
  {
    assert [f, g][1..] == [g];
    OneFrame(g);
  }

  /** What follows a constructor or a cancel is a timer frame or nothing. */
  lemma AfterLight(s: State, c: nat)
    requires c < |s.shape|
    ensures FramesWeight(AfterLink(s, c)) <= 6 && FramesWeight(AfterCancel(s, c)) <= 1
  {
    OneFrame(SetTimer(c));
    OneFrame(StopTimer(c));
  }

  lemma SameLive(s: State, p: nat, children: set<Key>)
    requires p < |s.ctxs|
    ensures Live(SetChildren(s.ctxs, p, children)) == Live(s.ctxs)
  {
    LiveUpdate(s.ctxs, p, s.ctxs[p].(children := children));
  }

  lemma EnterShrinks(s: State, t: nat, c: nat, e: Error, remove: bool)
    requires Inv(s) && t < |s.threads| && s.threads[t] != [] && Top(s, t) == CancelStart(c, e, remove) && c < |s.ctxs|
    ensures Measure(DoCancelStart(s, t, c, e, remove)) < Measure(s)
  {
    var s1 := DoCancelStart(s, t, c, e, remove);
    AfterLight(s, c);
    if s.ctxs[c].err.Some? {
      Lighter(s, s1, t, AfterCancel(s, c));
    } else {
      var f := CancelLoop(c, e, remove, s.ctxs[c].children);
      OneFrame(f);
      Replaced(s, s1, t, [f]);
      ChildrenFew(s, c);
      LiveUpdate(s.ctxs, c, Ctx(Some(e), s.ctxs[c].closes + 1, s.ctxs[c].children));
      OneLess(|s.ctxs|, Live(s.ctxs));
    }
  }

  lemma LoopShrinks(s: State, t: nat, f: Frame, k: Key)
    requires Inv(s) && t < |s.threads| && s.threads[t] != [] && Top(s, t) == f && f.CancelLoop? && f.c < |s.ctxs|
    requires f.todo != {} ==> k in f.todo
    ensures Measure(DoCancelLoop(s, t, f, k)) < Measure(s)
  {
    var s1 := DoCancelLoop(s, t, f, k);
    if f.todo != {} {
      TwoFrames(f.(todo := f.todo - {k}), CancelStart(k.id, f.e, false));
      assert |f.todo - {k}| == |f.todo| - 1;
      Lighter(s, s1, t, [f.(todo := f.todo - {k}), CancelStart(k.id, f.e, false)]);
    } else {
      AfterLight(s, f.c);
      OneFrame(RemoveStart(f.c));
      SameLive(s, f.c, {});
      Lighter(s, s1, t, if f.remove then [RemoveStart(f.c)] else AfterCancel(s, f.c));
    }
  }

  lemma PropagateShrinks(s: State, t: nat, c: nat)
    requires Inv(s) && t < |s.threads| && s.threads[t] != [] && Top(s, t) == Propagate(c) && c < |s.ctxs|
    ensures Measure(DoPropagate(s, t, c)) < Measure(s)
  {
    var s1 := DoPropagate(s, t, c);
    AfterLight(s, c);
    match Above(s.shape, c)
    case None => Lighter(s, s1, t, AfterLink(s, c));
    case Some(p) =>
      match s.ctxs[p].err
      case Some(e) =>
        TwoFrames(Holding(c, p), CancelStart(c, e, false));
        Lighter(s, s1, t, [Holding(c, p), CancelStart(c, e, false)]);
      case None =>
        SameLive(s, p, s.ctxs[p].children + {KeyOf(s.shape, c)});
        Lighter(s, s1, t, AfterLink(s, c));
  }

  lemma RemoveShrinks(s: State, t: nat, c: nat)
    requires Inv(s) && t < |s.threads| && s.threads[t] != [] && Top(s, t) == RemoveStart(c) && c < |s.ctxs|
    ensures Measure(DoRemove(s, t, c)) < Measure(s)
  {
    AfterLight(s, c);
    if Above(s.shape, c).Some? {
      var p := Above(s.shape, c).value;
      SameLive(s, p, s.ctxs[p].children - {CancelKey(c)});
    }
    Lighter(s, DoRemove(s, t, c), t, AfterCancel(s, c));
  }

  /** Every step of a thread that is no new call brings the measure down. */
  lemma StepShrinks(s: State, step: Step)
    requires Inv(s) && Sane(s) && Enabled(s, step) && Internal(step)
    ensures Measure(Do(s, step)) < Measure(s)
  {
    if step.Late? {
      var c := Top(s, step.t).c;
      OneFrame(CancelStart(c, DeadlineExceeded, true));
      Lighter(s, Do(s, step), step.t, [CancelStart(c, DeadlineExceeded, true)]);
    } else {
      RunShrinks(s, step.t, step.k);
    }
  }

  lemma RunShrinks(s: State, t: nat, k: Key)
    requires Inv(s) && Sane(s) && Enabled(s, Run(t, k))
    ensures Measure(Do(s, Run(t, k))) < Measure(s)
  {
    var f, s1 := Top(s, t), Do(s, Run(t, k));
    AfterLight(s, f.c);
    match f
    case Propagate(c) => PropagateShrinks(s, t, c);
    case Holding(c, p) => Lighter(s, s1, t, AfterLink(s, c));
    case SetTimer(c) => Lighter(s, s1, t, []);
    case CancelStart(c, e, remove) => EnterShrinks(s, t, c, e, remove);
    case CancelLoop(_, _, _, _) => LoopShrinks(s, t, f, k);
    case RemoveStart(c) => RemoveShrinks(s, t, c);
    case StopTimer(c) => Lighter(s, s1, t, []);
  }

  // ---------- runs ----------

  ghost predicate AllInternal(steps: seq<Step>) { forall i :: 0 <= i < |steps| ==> Internal(steps[i]) }

  lemma {:induction false} RunBound(s: State, steps: seq<Step>, s2: State)
    requires Inv(s) && Reaches(s, steps, s2) && AllInternal(steps)
    ensures |steps| + Measure(s2) <= Measure(s)
    decreases |steps|
  {
    if steps != [] {
      StepShrinks(s, steps[0]);
      StepInv(s, steps[0]);
      RunBound(Do(s, steps[0]), steps[1..], s2);
    }
  }

  /**
   Every call ends: from any reachable state a run without new calls has at most Measure(s) steps, whoever takes them;
   and where no thread can take a step any more, no call is in progress.
   */
  lemma CallsEnd(n: nat, steps: seq<Step>, s: State, more: seq<Step>, s2: State)
    requires Reaches(Start(n), steps, s) && Reaches(s, more, s2) && AllInternal(more)
    ensures |more| <= Measure(s) && Sane(s2)
    ensures (forall t, k :: !Enabled(s2, Run(t, k))) ==> Quiet(s2)
  {
    RunInv(Start(n), steps, s);
    RunBound(s, more, s2);
    ReachesOn(Start(n), steps, s, more, s2);
    RunInv(s, more, s2);
    InvSane(s2);
    if t :| 0 <= t < |s2.threads| && s2.threads[t] != [] {
      var t2, k := NoDeadlock(n, steps + more, s2, t);
    }
  }

  lemma {:induction false} ReachesOn(s0: State, steps: seq<Step>, s: State, more: seq<Step>, s2: State)
    requires Reaches(s0, steps, s) && Reaches(s, more, s2)
    ensures Reaches(s0, steps + more, s2)
    decreases |steps|
  {
    if steps == [] {
      assert steps + more == more;
    } else {
      assert (steps + more)[0] == steps[0] && (steps + more)[1..] == steps[1..] + more;
      ReachesOn(Do(s0, steps[0]), steps[1..], s, more, s2);
    }
  }
}
