/** What the context package promises, over every run with any number of threads in any interleaving. */
module ContextPromises {
  import opened Machine
  import opened ContextTree
  import opened ContextRuns
  import opened ContextSafety

  // ---------- runs ----------

  /** s2 is reached from s by the given steps, each enabled when it is taken. */
  ghost predicate Reaches(s: State, steps: seq<Step>, s2: State)
    decreases |steps|
  {
    if steps == [] then s2 == s
    else Sane(s) && Enabled(s, steps[0]) && Reaches(Do(s, steps[0]), steps[1..], s2)
  }

  /** No context yet, and n idle threads. */
  function Start(n: nat): State { State([], [], {}, {}, map[], seq(n, _ => [])) }

  /** Every error ever set stays, with its channel closed no second time. */
  ghost predicate ErrorsStay(s: State, s2: State) {
    |s.ctxs| <= |s2.ctxs| && forall c :: 0 <= c < |s.ctxs| && s.ctxs[c].err.Some? ==>
      s2.ctxs[c].err == s.ctxs[c].err && s2.ctxs[c].closes == s.ctxs[c].closes
  }

  lemma StepErrorsStay(s: State, step: Step)
    requires Sane(s) && Enabled(s, step)
    ensures ErrorsStay(s, Do(s, step))
  {
  }

  lemma {:induction false} RunInv(s: State, steps: seq<Step>, s2: State)
    requires Inv(s) && Reaches(s, steps, s2)
    ensures Inv(s2) && ErrorsStay(s, s2)
    decreases |steps|
  {
    if steps != [] {
      StepInv(s, steps[0]);
      StepErrorsStay(s, steps[0]);
      RunInv(Do(s, steps[0]), steps[1..], s2);
    }
  }

  // ---------- cancellation reaches everything below ----------

  /** a is a cancellable ancestor of d. */
  ghost predicate Descends(shape: seq<Shape>, a: nat, d: nat)
    requires IsTree(shape) && d < |shape|
    decreases d
  {
    var p := Above(shape, d);
    p.Some? && (p.value == a || Descends(shape, a, p.value))
  }

  lemma {:induction false} NearestLinked(s: State, parent: Option<nat>)
    requires CtxsOk(s) && (parent.Some? ==> parent.value in s.linked)
    ensures var p := Nearest(s.shape, parent); p.Some? ==> p.value in s.linked
    decreases if parent.Some? then parent.value + 1 else 0
  {
    if parent.Some? && s.shape[parent.value].kind.ValueCtx? {
      assert CtxOk(s, parent.value);
      NearestLinked(s, s.shape[parent.value].parent);
    }
  }

  /**
   Once a cancel of an ancestor has been through its loop, every linked context below, at any depth, has been
   cancelled and its own loop is over, whoever ran it.
   */
  lemma {:induction false} ThroughBelow(s: State, a: nat, d: nat)
    requires Inv(s) && d < |s.ctxs| && d in s.linked && !s.shape[d].kind.ValueCtx? && Descends(s.shape, a, d)
    requires a < |s.ctxs| && Through(s, a)
    ensures Through(s, d)
    decreases d
  {
    var p, k := Above(s.shape, d).value, KeyOf(s.shape, d);
    assert CtxOk(s, d) && LinkOk(s, d);
    NearestLinked(s, s.shape[d].parent);
    if p != a { ThroughBelow(s, a, p); }
    if Pending(s, p, k) { PendingLoops(s, p, k); }
  }

  /** Every linked cancellable context below a cancelled one that no thread is looping over is cancelled. */
  ghost predicate CancelledBelow(s: State)
    requires IsTree(s.shape) && |s.ctxs| == |s.shape|
  {
    forall a, d :: 0 <= a < |s.ctxs| && s.ctxs[a].err.Some? && !HasLoop(s, a)
        && d in s.linked && 0 <= d < |s.ctxs| && !s.shape[d].kind.ValueCtx? && Descends(s.shape, a, d)
      ==> s.ctxs[d].err.Some?
  }

  /**
   Safety over every run: a linked context below an ancestor, at any depth, whose cancel is through its loop is
   cancelled; a done channel is closed once exactly when there is an error; and errors never change later.
   */
  lemma RunSafety(n: nat, steps: seq<Step>, s: State, more: seq<Step>, s2: State)
    requires Reaches(Start(n), steps, s) && Reaches(s, more, s2)
    ensures IsTree(s.shape) && |s.ctxs| == |s.shape| && CancelledBelow(s)
    ensures forall c :: 0 <= c < |s.ctxs| ==> s.ctxs[c].closes == if s.ctxs[c].err.Some? then 1 else 0
    ensures ErrorsStay(s, s2)
  {
    RunInv(Start(n), steps, s);
    RunInv(s, more, s2);
    forall a, d | 0 <= a < |s.ctxs| && s.ctxs[a].err.Some? && !HasLoop(s, a)
        && d in s.linked && 0 <= d < |s.ctxs| && !s.shape[d].kind.ValueCtx? && Descends(s.shape, a, d)
      ensures s.ctxs[d].err.Some?
    {
      ThroughBelow(s, a, d);
    }
    forall c | 0 <= c < |s.ctxs|
      ensures s.ctxs[c].closes == if s.ctxs[c].err.Some? then 1 else 0
    {
      assert CtxOk(s, c);
    }
  }

  // ---------- when no call is in progress ----------

  ghost predicate Quiet(s: State) { forall t :: 0 <= t < |s.threads| ==> s.threads[t] == [] }

  lemma NoneHeld(s: State, c: nat)
    requires OwnersOk(s) && Quiet(s)
    ensures c !in s.owner
  {
  }

  lemma QuietFree(s: State)
    requires Inv(s) && Quiet(s)
    ensures s.owner == map[] && forall c :: 0 <= c < |s.ctxs| ==> c in s.linked && !Removing(s, c) && !Stopping(s, c)
  {
    forall c ensures c !in s.owner { NoneHeld(s, c); }
  }

  /**
   In every reachable state without a call in progress the tree is tidy: everything below a cancelled context is
   cancelled, a plain context is in a children map exactly while it and its ancestor are live, a timer context exactly
   while its ancestor is, and no cancelled context has a timer left.
   */
  lemma QuietTidy(n: nat, steps: seq<Step>, s: State)
    requires Reaches(Start(n), steps, s) && Quiet(s)
    ensures Tidy(s.shape, s.ctxs) && forall c :: c in s.armed ==> c < |s.ctxs| && s.ctxs[c].err.None?
  {
    RunInv(Start(n), steps, s);
    QuietFree(s);
    forall c | 0 <= c < |s.ctxs| ensures TidyAt(s.shape, s.ctxs, c) {
      assert CtxOk(s, c);
      QuietAt(s, c);
    }
    forall p, k | 0 <= p < |s.ctxs| && k in s.ctxs[p].children
      ensures RegisteredKey(s.shape, p, k)
    {
      assert Registered(s, p, k);
    }
    forall c | c in s.armed ensures s.ctxs[c].err.None? { assert EndsOk(s, c); }
  }

  lemma QuietAt(s: State, c: nat)
    requires Inv(s) && Quiet(s) && c < |s.ctxs|
    ensures TidyAt(s.shape, s.ctxs, c)
  {
    QuietFree(s);
    assert CtxOk(s, c) && LinkOk(s, c) && EndsOk(s, c);
    if !s.shape[c].kind.ValueCtx? && Above(s.shape, c).Some? {
      assert EndsOk(s, Above(s.shape, c).value);
    }
  }

  // ---------- no deadlock ----------

  lemma RunnableAt(s: State, t: nat) returns (k: Key)
    requires Inv(s) && Sane(s) && t < |s.threads| && s.threads[t] != []
    requires Awaits(s, Top(s, t)).Some? ==> Awaits(s, Top(s, t)).value !in s.owner
    ensures Enabled(s, Run(t, k))
  {
    k := CancelKey(0);
    if Top(s, t).CancelLoop? && Top(s, t).todo != {} {
      k :| k in Top(s, t).todo;
    }
  }

  /** The thread that holds lock x waits for nothing, or for a younger lock. */
  lemma HolderWaits(s: State, x: nat) returns (t2: nat)
    requires Inv(s) && x in s.owner
    ensures t2 < |s.threads| && s.threads[t2] != [] && Top(s, t2).c < |s.ctxs|
    ensures var a := Awaits(s, Top(s, t2)); a.Some? ==> x < a.value < |s.ctxs|
  {
    t2 := s.owner[x];
    var stack := s.threads[t2];
    var i :| 0 <= i < |stack| && LockOf(stack[i]) == Some(x);
    InvLocal(s, t2);
    StackWaits(s.shape, stack, i);
  }

  lemma StackWaits(shape: seq<Shape>, stack: seq<Frame>, i: nat)
    requires IsTree(shape) && AllFit(shape, stack) && i < |stack| && LockOf(stack[i]).Some?
    ensures var top := stack[|stack| - 1];
            top.Holding? || top.CancelLoop? || ((top.CancelStart? || top.StopTimer?) && LockOf(stack[i]).value < top.c)
  {
    assert Fits(shape, stack, |stack| - 1);
    if i < |stack| - 1 { LocksBelow(shape, stack, i, |stack| - 1); }
  }

  /** Following the holders of awaited locks, ever younger, ends at a thread that can run. */
  lemma {:induction false} Unblocked(s: State, x: nat) returns (t2: nat, k: Key)
    requires Inv(s) && Sane(s) && x in s.owner && x < |s.ctxs|
    ensures Enabled(s, Run(t2, k))
    decreases |s.ctxs| - x
  {
    t2 := HolderWaits(s, x);
    var a := Awaits(s, Top(s, t2));
    if a.Some? && a.value in s.owner {
      t2, k := Unblocked(s, a.value);
    } else {
      k := RunnableAt(s, t2);
    }
  }

  /** In every reachable state, if some call is in progress then some thread can take a step. */
  lemma NoDeadlock(n: nat, steps: seq<Step>, s: State, t: nat) returns (t2: nat, k: Key)
    requires Reaches(Start(n), steps, s) && t < |s.threads| && s.threads[t] != []
    ensures Sane(s) && Enabled(s, Run(t2, k))
  {
    RunInv(Start(n), steps, s);
    InvSane(s);
    InvLocal(s, t);
    var a := Awaits(s, Top(s, t));
    if a.Some? && a.value in s.owner {
      t2, k := Unblocked(s, a.value);
    } else {
      t2 := t;
      k := RunnableAt(s, t);
    }
  }
}
