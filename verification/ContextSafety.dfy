/** What every reachable state of the interleaved context tree satisfies, kept by every step. */
module ContextSafety {
  import opened Machine
  import opened ContextTree
  import opened ContextRuns

  /** The lock a frame holds. */
  function LockOf(f: Frame): Option<nat> {
    match f
    case Holding(_, p) => Some(p)
    case CancelLoop(c, _, _, _) => Some(c)
    case _ => None
  }

  // ---------- the invariant: contexts ----------

  /**
   An error is set exactly when the done channel has been closed, once; children are registered with their own key
   above them; whatever stands above a context is linked; timers belong to linked timer contexts.
   */
  ghost predicate CtxsOk(s: State) {
    && IsTree(s.shape) && |s.ctxs| == |s.shape|
    && (forall c :: 0 <= c < |s.ctxs| ==> CtxOk(s, c))
    && (forall c :: c in s.linked ==> c < |s.ctxs|)
    && (forall c :: c in s.armed ==> c < |s.ctxs| && s.shape[c].kind.TimerCtx?)
    && (forall p, k :: 0 <= p < |s.ctxs| && k in s.ctxs[p].children ==> Registered(s, p, k))
  }

  ghost predicate CtxOk(s: State, c: nat)
    requires c < |s.ctxs| == |s.shape|
  {
    && s.ctxs[c].closes == (if s.ctxs[c].err.Some? then 1 else 0)
    && (s.shape[c].kind.ValueCtx? ==> s.ctxs[c] == FRESH)
    && (s.shape[c].parent.Some? ==> s.shape[c].parent.value in s.linked)
  }

  ghost predicate Registered(s: State, p: nat, k: Key)
    requires IsTree(s.shape) && |s.ctxs| == |s.shape|
  {
    k.id in s.linked && RegisteredKey(s.shape, p, k)
  }

  // ---------- the invariant: threads ----------

  /** Some thread holding x's lock is in x's loop. */
  ghost predicate HasLoop(s: State, x: nat) {
    x in s.owner && s.owner[x] < |s.threads| && Loops(s.threads[s.owner[x]], x)
  }

  ghost predicate Loops(stack: seq<Frame>, x: nat) {
    exists i :: 0 <= i < |stack| && stack[i].CancelLoop? && stack[i].c == x
  }

  /** The cancel of c has been through its loop. */
  ghost predicate Through(s: State, c: nat)
    requires c < |s.ctxs|
  {
    s.ctxs[c].err.Some? && !HasLoop(s, c)
  }

  /** What one frame of thread t knows about the tree. */
  ghost predicate FrameOk(s: State, t: nat, f: Frame)
    requires IsTree(s.shape) && |s.ctxs| == |s.shape|
  {
    && f.c < |s.ctxs| && !s.shape[f.c].kind.ValueCtx?
    && match f
       case Propagate(c) => c !in s.linked && s.ctxs[c].err.None?
       case Holding(c, p) =>
         && c !in s.linked && Above(s.shape, c) == Some(p) && p in s.owner && s.owner[p] == t && s.ctxs[p].err.Some?
       case SetTimer(c) => s.shape[c].kind.TimerCtx?
       case CancelStart(c, _, _) => true
       case CancelLoop(c, _, _, todo) => c in s.owner && s.owner[c] == t && s.ctxs[c].err.Some? &&
         todo <= s.ctxs[c].children
       case RemoveStart(c) => Through(s, c)
       case StopTimer(c) => Through(s, c)
  }

  /**
   Frame i of a stack fits between its neighbours: each frame but the last holds a lock older than the next frame's
   context, and what a loop cancels is registered with the loop's context.
   */
  ghost predicate Fits(shape: seq<Shape>, stack: seq<Frame>, i: nat)
    requires IsTree(shape) && i < |stack|
  {
    var f, last := stack[i], i == |stack| - 1;
    && (i > 0 ==> LockOf(stack[i - 1]).Some? && LockOf(stack[i - 1]).value < f.c && Under(shape, stack[i - 1], f.c))
    && (f.Propagate? || f.RemoveStart? || f.SetTimer? ==> i == 0 && last)
    && (f.Holding? ==> i == 0 && (!last ==> stack[1].c == f.c))
    && (f.StopTimer? ==> last)
    && (f.CancelStart? ==> last && (f.remove <==> i == 0))
    && (f.CancelLoop? ==> (f.remove <==> i == 0))
  }

  /** The frame under one for c cancels it from its nearest cancellable ancestor, or waits for it in propagateCancel. */
  ghost predicate Under(shape: seq<Shape>, below: Frame, c: nat)
    requires IsTree(shape)
  {
    if below.CancelLoop? then c < |shape| && Above(shape, c) == Some(below.c) else below.c == c
  }

  ghost predicate AllFit(shape: seq<Shape>, stack: seq<Frame>)
    requires IsTree(shape)
  {
    forall i :: 0 <= i < |stack| ==> Fits(shape, stack, i)
  }

  /** The thread is in c's constructor, before c is linked. */
  ghost predicate Builds(stack: seq<Frame>, c: nat) {
    stack != [] && (stack[0].Propagate? || stack[0].Holding?) && stack[0].c == c
  }

  /** A thread works on linked contexts, and on the one it is building. */
  ghost predicate Known(linked: set<nat>, stack: seq<Frame>) {
    forall i :: 0 <= i < |stack| ==> stack[i].c in linked || Builds(stack, stack[i].c)
  }

  /** propagateCancel is back from cancelling its context. */
  ghost predicate Settled(s: State, stack: seq<Frame>) {
    |stack| == 1 && stack[0].Holding? ==> stack[0].c < |s.ctxs| && s.ctxs[stack[0].c].err.Some?
  }

  /** The stack of thread t. */
  ghost predicate StackOk(s: State, t: nat)
    requires IsTree(s.shape) && |s.ctxs| == |s.shape| && t < |s.threads|
  {
    && (forall i :: 0 <= i < |s.threads[t]| ==> FrameOk(s, t, s.threads[t][i]))
    && AllFit(s.shape, s.threads[t]) && Known(s.linked, s.threads[t]) && Settled(s, s.threads[t])
  }

  ghost predicate StacksOk(s: State)
    requires IsTree(s.shape) && |s.ctxs| == |s.shape|
  {
    forall t :: 0 <= t < |s.threads| ==> StackOk(s, t)
  }

  /** Every context is linked or being built, by one thread only. */
  ghost predicate BuildersOk(s: State) {
    && (forall c :: 0 <= c < |s.ctxs| ==> c in s.linked || exists t :: 0 <= t < |s.threads| && Builds(s.threads[t], c))
    && (forall t1, t2, c ::
          0 <= t1 < |s.threads| && 0 <= t2 < |s.threads| && Builds(s.threads[t1], c) && Builds(s.threads[t2], c)
          ==> t1 == t2)
  }

  ghost predicate OwnersOk(s: State) {
    forall c :: c in s.owner ==> s.owner[c] < |s.threads| && HasLock(s.threads[s.owner[c]], c)
  }

  ghost predicate HasLock(stack: seq<Frame>, c: nat) {
    exists i :: 0 <= i < |stack| && LockOf(stack[i]) == Some(c)
  }

  // ---------- the invariant: links ----------

  /** Frame i of a stack is p's loop over its children, and k's cancel is still to come or under way in it. */
  ghost predicate PendingAt(stack: seq<Frame>, i: int, p: nat, k: Key) {
    0 <= i < |stack| && stack[i].CancelLoop? && stack[i].c == p
    && (k in stack[i].todo || (i + 1 < |stack| && stack[i + 1].c == k.id))
  }

  ghost predicate Pending(s: State, p: nat, k: Key) {
    p in s.owner && s.owner[p] < |s.threads| && exists i :: PendingAt(s.threads[s.owner[p]], i, p, k)
  }

  predicate WillRemove(f: Frame) { f.RemoveStart? || (f.CancelLoop? && f.remove) }

  predicate WillStop(f: Frame) { f.RemoveStart? || f.CancelLoop? || f.StopTimer? }

  /** A cancel call that will still delete c's key above it. */
  ghost predicate Removing(s: State, c: nat) { exists t, i :: RemovesAt(s.threads, t, i, c) }

  ghost predicate RemovesAt(threads: seq<seq<Frame>>, t: int, i: int, c: nat) {
    && 0 <= t < |threads| && 0 <= i < |threads[t]|
    && threads[t][i].c == c && WillRemove(threads[t][i])
  }

  /** A cancel call that will still stop c's timer. */
  ghost predicate Stopping(s: State, c: nat) { exists t, i :: StopsAt(s.threads, t, i, c) }

  ghost predicate StopsAt(threads: seq<seq<Frame>>, t: int, i: int, c: nat) {
    && 0 <= t < |threads| && 0 <= i < |threads[t]|
    && threads[t][i].c == c && WillStop(threads[t][i])
  }

  /**
   d, linked below p. If its cancel is not through, it is registered, and p is live or about to cancel it. A timer
   context stays registered as long as p lives; a plain one that is cancelled only until some call has removed it.
   */
  ghost predicate Linked(s: State, d: nat, p: nat, k: Key)
    requires d < |s.ctxs| && p < |s.ctxs|
  {
    && (!Through(s, d) ==> k in s.ctxs[p].children && (s.ctxs[p].err.None? || Pending(s, p, k)))
    && (k.TimerKey? && s.ctxs[p].err.None? ==> k in s.ctxs[p].children)
    && (k.CancelKey? && s.ctxs[d].err.Some? && k in s.ctxs[p].children ==> HasLoop(s, p) || Removing(s, d))
  }

  ghost predicate LinkOk(s: State, d: nat)
    requires IsTree(s.shape) && |s.ctxs| == |s.shape| && d < |s.ctxs|
  {
    d in s.linked && !s.shape[d].kind.ValueCtx? && Above(s.shape, d).Some? ==>
      Linked(s, d, Above(s.shape, d).value, KeyOf(s.shape, d))
  }

  /** A cancelled context whose cancel is through has no children; one with a timer has a call that will stop it. */
  ghost predicate EndsOk(s: State, d: nat)
    requires d < |s.ctxs|
  {
    && (Through(s, d) ==> s.ctxs[d].children == {})
    && (d in s.armed && s.ctxs[d].err.Some? ==> Stopping(s, d))
  }

  ghost predicate LinksOk(s: State)
    requires IsTree(s.shape) && |s.ctxs| == |s.shape|
  {
    forall d :: 0 <= d < |s.ctxs| ==> LinkOk(s, d) && EndsOk(s, d)
  }

  ghost predicate Inv(s: State) {
    CtxsOk(s) && StacksOk(s) && BuildersOk(s) && OwnersOk(s) && LinksOk(s)
  }

  lemma InvSane(s: State)
    requires Inv(s)
    ensures Sane(s)
  {
    forall t, i | 0 <= t < |s.threads| && 0 <= i < |s.threads[t]| ensures s.threads[t][i].c < |s.ctxs| {
      assert StackOk(s, t) && FrameOk(s, t, s.threads[t][i]);
    }
    forall c, k | 0 <= c < |s.ctxs| && k in s.ctxs[c].children ensures k.id < |s.ctxs| { assert Registered(s, c, k); }
    forall t, i | 0 <= t < |s.threads| && 0 <= i < |s.threads[t]| && s.threads[t][i].CancelLoop?
      ensures s.threads[t][i].todo <= s.ctxs[s.threads[t][i].c].children
    {
      assert StackOk(s, t) && FrameOk(s, t, s.threads[t][i]);
    }
    forall t, i | 0 <= t < |s.threads| && 0 <= i < |s.threads[t]| && s.threads[t][i].Holding?
      ensures s.threads[t][i].p < |s.ctxs|
    {
      assert StackOk(s, t) && FrameOk(s, t, s.threads[t][i]);
    }
  }

  // ---------- locks of a stack ----------

  /** Down a stack, locks only grow: the frames below a position hold locks older than its context. */
  lemma {:induction false} LocksBelow(shape: seq<Shape>, stack: seq<Frame>, i: nat, j: nat)
    requires IsTree(shape) && AllFit(shape, stack) && i < j < |stack|
    ensures LockOf(stack[i]).Some? && LockOf(stack[i]).value < stack[j].c
    decreases j
  {
    assert Fits(shape, stack, j);
    if i < j - 1 {
      LocksBelow(shape, stack, i, j - 1);
      LockOld(shape, stack, j - 1);
    }
  }

  /** Above the first frame only loops hold locks, and those of their own contexts. */
  lemma LockOld(shape: seq<Shape>, stack: seq<Frame>, j: nat)
    requires IsTree(shape) && AllFit(shape, stack) && 0 < j < |stack| && LockOf(stack[j]).Some?
    ensures LockOf(stack[j]).value == stack[j].c
  {
    assert Fits(shape, stack, j);
  }

  // ---------- one step of one thread ----------

  function Init(s: State, t: nat): seq<Frame>
    requires t < |s.threads| && s.threads[t] != []
  {
    s.threads[t][..|s.threads[t]| - 1]
  }

  /** What a step of thread t needs to know of the invariant, besides the links. */
  ghost predicate Local(s: State, t: nat) {
    CtxsOk(s) && t < |s.threads| && s.threads[t] != [] && StackOk(s, t) && FrameOk(s, t, Top(s, t))
  }

  lemma InvLocal(s: State, t: nat)
    requires Inv(s) && t < |s.threads| && s.threads[t] != []
    ensures Local(s, t)
  {
    assert StackOk(s, t);
  }

  predicate Builder(f: Frame) { f.Propagate? || f.Holding? }

  /** The step ends the part of a constructor up to propagateCancel. */
  predicate LinksNow(top: Frame, frames: seq<Frame>) { Builder(top) && !(frames != [] && frames[0].Holding?) }

  /**
   What may take the place of the innermost frame, x being the context whose lock the step takes, keeps or gives
   back.
   */
  ghost predicate Follows(s: State, top: Frame, x: nat, frames: seq<Frame>) {
    && (top.CancelLoop? ==> top.c == x)
    && (frames != [] ==> frames[0].c == top.c)
    && forall f :: f in frames ==> FollowsOne(s, top, x, f)
  }

  ghost predicate FollowsOne(s: State, top: Frame, x: nat, f: Frame) {
    && (f.c == top.c || f.c in s.linked)
    && !f.Propagate? && (f.Holding? ==> top.Propagate?)
    && (f.CancelLoop? ==> f.c == x < |s.ctxs| && (top.CancelLoop? || s.ctxs[x].err.None?))
  }

  /**
   The contexts but x are as they were, and x has kept its error; a new error is that of the innermost frame's
   context.
   */
  ghost predicate CtxsKept(s: State, s1: State, top: Frame, x: nat) {
    && s1.shape == s.shape && |s1.ctxs| == |s.ctxs|
    && (forall c :: 0 <= c < |s.ctxs| && c != x ==> s1.ctxs[c] == s.ctxs[c])
    && (x < |s.ctxs| && s.ctxs[x].err.Some? ==> s1.ctxs[x].err == s.ctxs[x].err)
    && (x < |s.ctxs| && s.ctxs[x].err.None? && s1.ctxs[x].err.Some? ==> top.c == x)
    && (forall c :: c != x ==> (c in s1.armed <==> c in s.armed))
  }

  /** x's lock is thread t's before and after, if it is taken at all, and no outer frame holds it; other locks stay. */
  ghost predicate LocksKept(s: State, s1: State, t: nat, x: nat)
    requires t < |s.threads| && s.threads[t] != []
  {
    && (forall c :: c != x ==> (c in s1.owner <==> c in s.owner) && (c in s.owner ==> s1.owner[c] == s.owner[c]))
    && (x in s.owner ==> s.owner[x] == t) && (x in s1.owner ==> s1.owner[x] == t)
    && (forall i :: 0 <= i < |Init(s, t)| ==> LockOf(Init(s, t)[i]) != Some(x))
  }

  /**
   A step of thread t that replaces its innermost frame by `frames` and otherwise touches only context x and x's
   lock.
   */
  ghost predicate Touches(s: State, s1: State, t: nat, x: nat, frames: seq<Frame>) {
    && t < |s.threads| && s.threads[t] != [] && s1.threads == s.threads[t := Init(s, t) + frames]
    && CtxsKept(s, s1, Top(s, t), x) && LocksKept(s, s1, t, x) && Follows(s, Top(s, t), x, frames)
    && s1.linked == if LinksNow(Top(s, t), frames) then s.linked + {Top(s, t).c} else s.linked
  }

  // ---------- loops ----------

  /** A loop that was running runs on, unless it is x's. */
  lemma LoopKept(s: State, s1: State, t: nat, x: nat, frames: seq<Frame>, p: nat)
    requires Touches(s, s1, t, x, frames) && p != x && HasLoop(s, p)
    ensures HasLoop(s1, p)
  {
    var stack := s.threads[s.owner[p]];
    var i :| 0 <= i < |stack| && stack[i].CancelLoop? && stack[i].c == p;
    assert s1.threads[s.owner[p]][i] == stack[i];
  }

  /** A loop that runs after the step ran before it, or is entered by it. */
  lemma LoopBefore(s: State, s1: State, t: nat, x: nat, frames: seq<Frame>, c: nat)
    requires Local(s, t) && Touches(s, s1, t, x, frames) && HasLoop(s1, c)
    ensures HasLoop(s, c) || (c < |s.ctxs| && s.ctxs[c].err.None?)
  {
    var t1 := s1.owner[c];
    var i :| 0 <= i < |s1.threads[t1]| && s1.threads[t1][i].CancelLoop? && s1.threads[t1][i].c == c;
    if t1 == t && i >= |Init(s, t)| {
      assert s1.threads[t][i] in frames && FollowsOne(s, Top(s, t), x, s1.threads[t][i]);
      assert Top(s, t) == s.threads[t][|s.threads[t]| - 1];
    } else {
      assert s1.threads[t1][i] == s.threads[t1][i];
    }
  }

  /** A cancel that is through stays through. */
  lemma ThroughKept(s: State, s1: State, t: nat, x: nat, frames: seq<Frame>, c: nat)
    requires Local(s, t) && Touches(s, s1, t, x, frames) && c < |s.ctxs| && Through(s, c)
    ensures Through(s1, c)
  {
    if HasLoop(s1, c) { LoopBefore(s, s1, t, x, frames, c); }
  }

  // ---------- the other threads ----------

  /** No other thread works on the context a thread is building. */
  lemma Apart(s: State, t: nat, t1: nat, c: nat)
    requires BuildersOk(s) && t < |s.threads| && t1 < |s.threads| && t != t1 && s.threads[t] != []
    requires Builds(s.threads[t1], c) && c !in s.linked && Known(s.linked, s.threads[t])
    ensures Top(s, t).c != c
  {
    assert Top(s, t) == s.threads[t][|s.threads[t]| - 1];
  }

  lemma FrameKept(s: State, s1: State, t: nat, x: nat, frames: seq<Frame>, t1: nat, f: Frame)
    requires Local(s, t) && Touches(s, s1, t, x, frames) && FrameOk(s, t1, f)
    requires t1 != t || (f in Init(s, t) && !f.Propagate?)
    requires Builder(f) ==> f.c != Top(s, t).c || !Builder(Top(s, t))
    requires f.Propagate? ==> f.c != Top(s, t).c
    ensures FrameOk(s1, t1, f)
  {
    if f.RemoveStart? || f.StopTimer? { ThroughKept(s, s1, t, x, frames, f.c); }
    if f.CancelLoop? && t1 == t { assert LockOf(f) != Some(x); }
    if f.Holding? && t1 == t { assert LockOf(f) != Some(x); }
  }

  lemma OtherStack(s: State, s1: State, t: nat, x: nat, frames: seq<Frame>, t1: nat)
    requires Inv(s) && Touches(s, s1, t, x, frames) && t1 < |s.threads| && t1 != t
    ensures StackOk(s1, t1)
  {
    InvLocal(s, t);
    assert StackOk(s, t1);
    forall i | 0 <= i < |s1.threads[t1]| ensures FrameOk(s1, t1, s1.threads[t1][i]) {
      var f := s.threads[t1][i];
      if Builder(f) {
        assert Fits(s.shape, s.threads[t1], i) && FrameOk(s, t1, f);
        assert Builds(s.threads[t1], f.c);
        Apart(s, t, t1, f.c);
      }
      FrameKept(s, s1, t, x, frames, t1, f);
    }
    StackStays(s, s1, t1);
  }

  /** Of an unchanged stack, what does not depend on single frames. */
  lemma StackStays(s: State, s1: State, t1: nat)
    requires IsTree(s.shape) && s1.shape == s.shape && |s1.ctxs| == |s.ctxs| == |s.shape| && s.linked <= s1.linked
    requires forall c :: 0 <= c < |s.ctxs| && s.ctxs[c].err.Some? ==> s1.ctxs[c].err.Some?
    requires t1 < |s.threads| == |s1.threads| && s1.threads[t1] == s.threads[t1] && StackOk(s, t1)
    ensures AllFit(s1.shape, s1.threads[t1]) && Known(s1.linked, s1.threads[t1]) && Settled(s1, s1.threads[t1])
  {
  }

  /** The parts of the invariant a touching step has to show about its own thread. */
  ghost predicate StepsOk(s: State, s1: State, t: nat, x: nat, frames: seq<Frame>) {
    && Touches(s, s1, t, x, frames) && CtxsOk(s1)
    && AllFit(s1.shape, s1.threads[t]) && Settled(s1, s1.threads[t])
    && (forall f :: f in frames ==> FrameOk(s1, t, f))
    && (x in s1.owner ==> HasLock(frames, x))
    && (LockOf(Top(s, t)).Some? && LockOf(Top(s, t)).value != x ==> HasLock(frames, LockOf(Top(s, t)).value))
  }

  /** A frame of a stack that is not its last one builds nothing anew and needs a lock. */
  lemma InitFrame(s: State, t: nat, f: Frame)
    requires Local(s, t) && f in Init(s, t)
    ensures FrameOk(s, t, f) && !f.Propagate? && !Builder(Top(s, t))
  {
    var i :| 0 <= i < |Init(s, t)| && f == Init(s, t)[i];
    var n := |s.threads[t]| - 1;
    assert Fits(s.shape, s.threads[t], i) && Fits(s.shape, s.threads[t], n) && s.threads[t][n] == Top(s, t);
  }

  lemma OwnStack(s: State, s1: State, t: nat, x: nat, frames: seq<Frame>)
    requires Inv(s) && StepsOk(s, s1, t, x, frames)
    ensures StackOk(s1, t)
  {
    InvLocal(s, t);
    var init, stack1 := Init(s, t), s1.threads[t];
    forall i | 0 <= i < |stack1| ensures FrameOk(s1, t, stack1[i]) {
      if i < |init| {
        InitFrame(s, t, init[i]);
        FrameKept(s, s1, t, x, frames, t, init[i]);
      } else {
        assert stack1[i] in frames;
      }
    }
    OwnKnown(s, s1, t, x, frames);
  }

  /** The context that thread t builds is linked after the step, or still built by t. */
  lemma OwnBuilt(s: State, s1: State, t: nat, x: nat, frames: seq<Frame>, c: nat)
    requires Local(s, t) && Touches(s, s1, t, x, frames) && Builds(s.threads[t], c)
    ensures c in s1.linked || Builds(s1.threads[t], c)
  {
    if Init(s, t) == [] {
      assert s1.threads[t] == frames;
    } else {
      assert s1.threads[t][0] == s.threads[t][0];
    }
  }

  lemma OwnKnown(s: State, s1: State, t: nat, x: nat, frames: seq<Frame>)
    requires Local(s, t) && Touches(s, s1, t, x, frames)
    ensures Known(s1.linked, s1.threads[t])
  {
    var init, stack1 := Init(s, t), s1.threads[t];
    forall i | 0 <= i < |stack1| ensures stack1[i].c in s1.linked || Builds(stack1, stack1[i].c) {
      var c := stack1[i].c;
      if i < |init| {
        assert stack1[i] == s.threads[t][i];
      } else {
        assert stack1[i] in frames && FollowsOne(s, Top(s, t), x, stack1[i]);
        assert Top(s, t) == s.threads[t][|init|];
      }
      if c !in s.linked { OwnBuilt(s, s1, t, x, frames, c); }
    }
  }

  /** Whom thread t builds after the step it has built before. */
  lemma BuiltBefore(s: State, s1: State, t: nat, x: nat, frames: seq<Frame>, c: nat)
    requires Local(s, t) && Touches(s, s1, t, x, frames) && Builds(s1.threads[t], c)
    ensures Builds(s.threads[t], c)
  {
    if Init(s, t) == [] {
      assert s1.threads[t] == frames && frames[0] in frames && FollowsOne(s, Top(s, t), x, frames[0]);
      assert Top(s, t) == s.threads[t][0];
    } else {
      assert s1.threads[t][0] == s.threads[t][0];
    }
  }

  lemma TouchedBuilders(s: State, s1: State, t: nat, x: nat, frames: seq<Frame>)
    requires BuildersOk(s) && Local(s, t) && Touches(s, s1, t, x, frames)
    ensures BuildersOk(s1)
  {
    forall c | 0 <= c < |s1.ctxs| && c !in s1.linked
      ensures exists t1 :: 0 <= t1 < |s1.threads| && Builds(s1.threads[t1], c)
    {
      var t1 :| 0 <= t1 < |s.threads| && Builds(s.threads[t1], c);
      if t1 == t { OwnBuilt(s, s1, t, x, frames, c); } else { assert s1.threads[t1] == s.threads[t1]; }
    }
    forall t1, t2, c | 0 <= t1 < |s1.threads| && 0 <= t2 < |s1.threads| && Builds(s1.threads[t1], c) &&
      Builds(s1.threads[t2], c)
      ensures t1 == t2
    {
      if t1 == t { BuiltBefore(s, s1, t, x, frames, c); }
      if t2 == t { BuiltBefore(s, s1, t, x, frames, c); }
      assert Builds(s.threads[t1], c) && Builds(s.threads[t2], c);
    }
  }

  lemma TouchedOwners(s: State, s1: State, t: nat, x: nat, frames: seq<Frame>)
    requires OwnersOk(s) && StepsOk(s, s1, t, x, frames)
    ensures OwnersOk(s1)
  {
    var init := Init(s, t);
    forall c | c in s1.owner ensures s1.owner[c] < |s1.threads| && HasLock(s1.threads[s1.owner[c]], c) {
      if c == x || (s.owner[c] == t && LockOf(Top(s, t)) == Some(c)) {
        var i :| 0 <= i < |frames| && LockOf(frames[i]) == Some(c);
        assert LockOf((init + frames)[|init| + i]) == Some(c);
      } else {
        var stack := s.threads[s.owner[c]];
        var i :| 0 <= i < |stack| && LockOf(stack[i]) == Some(c);
        assert LockOf(s1.threads[s.owner[c]][i]) == Some(c);
      }
    }
  }

  lemma StepKeeps(s: State, s1: State, t: nat, x: nat, frames: seq<Frame>)
    requires Inv(s) && StepsOk(s, s1, t, x, frames) && LinksOk(s1)
    ensures Inv(s1)
  {
    InvLocal(s, t);
    forall t1 | 0 <= t1 < |s1.threads| ensures StackOk(s1, t1) {
      if t1 == t { OwnStack(s, s1, t, x, frames); } else { OtherStack(s, s1, t, x, frames, t1); }
    }
    TouchedBuilders(s, s1, t, x, frames);
    TouchedOwners(s, s1, t, x, frames);
  }

  // ---------- links, under a step ----------

  /** A call that will remove or stop goes on to do so, up to the step that does it. */
  ghost predicate Continues(s: State, top: Frame, frames: seq<Frame>)
    requires top.c < |s.shape|
  {
    && (WillRemove(top) && !top.RemoveStart? ==> frames != [] && WillRemove(frames[0]))
    && (WillStop(top) && !top.StopTimer? && s.shape[top.c].kind.TimerCtx? ==> frames != [] && WillStop(frames[0]))
  }

  ghost predicate Moves(s: State, s1: State, t: nat, x: nat, frames: seq<Frame>) {
    Local(s, t) && Touches(s, s1, t, x, frames) && Continues(s, Top(s, t), frames)
  }

  lemma RemovingKept(s: State, s1: State, t: nat, x: nat, frames: seq<Frame>, c: nat)
    requires Moves(s, s1, t, x, frames) && Removing(s, c) && !(Top(s, t).RemoveStart? && Top(s, t).c == c)
    ensures Removing(s1, c)
  {
    var t1, i :| RemovesAt(s.threads, t1, i, c);
    if t1 == t && i == |Init(s, t)| {
      assert s1.threads[t][i] == frames[0];
    }
    assert RemovesAt(s1.threads, t1, i, c);
  }

  lemma StoppingKept(s: State, s1: State, t: nat, x: nat, frames: seq<Frame>, c: nat)
    requires Moves(s, s1, t, x, frames) && Stopping(s, c) && c < |s.shape| && s.shape[c].kind.TimerCtx?
    requires !(Top(s, t).StopTimer? && Top(s, t).c == c)
    ensures Stopping(s1, c)
  {
    var t1, i :| StopsAt(s.threads, t1, i, c);
    if t1 == t && i == |Init(s, t)| {
      assert s1.threads[t][i] == frames[0];
    }
    assert StopsAt(s1.threads, t1, i, c);
  }

  /** A pending cancel stays pending, unless its call has come to its end. */
  lemma PendingKept(s: State, s1: State, t: nat, x: nat, frames: seq<Frame>, p: nat, k: Key)
    requires Moves(s, s1, t, x, frames) && p != x && Pending(s, p, k)
    requires frames != [] || Init(s, t) == [] || Top(s, t).c != k.id
    ensures Pending(s1, p, k)
  {
    var stack := s.threads[s.owner[p]];
    var i :| PendingAt(stack, i, p, k);
    assert PendingAt(s1.threads[s.owner[p]], i, p, k);
  }

  lemma PendingLoops(s: State, p: nat, k: Key)
    requires Pending(s, p, k)
    ensures HasLoop(s, p)
  {
    var stack := s.threads[s.owner[p]];
    var i :| PendingAt(stack, i, p, k);
    assert stack[i].CancelLoop? && stack[i].c == p;
  }

  /** The link to an ancestor that the step does not touch. */
  lemma LinkAway(s: State, s1: State, t: nat, x: nat, frames: seq<Frame>, d: nat, p: nat, k: Key)
    requires Moves(s, s1, t, x, frames) && d < |s.ctxs| && p < d && p != x && k.id == d && Linked(s, d, p, k)
    requires Top(s, t).RemoveStart? && Top(s, t).c == d ==> k.TimerKey?
    requires frames == [] && Init(s, t) != [] && Top(s, t).c == d ==> Through(s1, d)
    requires s.ctxs[d].err.None? && s1.ctxs[d].err.Some? && k.CancelKey? && k in s.ctxs[p].children ==>
      HasLoop(s1, p) || Removing(s1, d)
    ensures Linked(s1, d, p, k)
  {
    if !Through(s1, d) {
      if Through(s, d) { ThroughKept(s, s1, t, x, frames, d); }
      if s.ctxs[p].err.Some? { PendingKept(s, s1, t, x, frames, p, k); }
    }
    if k.CancelKey? && s.ctxs[d].err.Some? && k in s.ctxs[p].children {
      if HasLoop(s, p) { LoopKept(s, s1, t, x, frames, p); } else { RemovingKept(s, s1, t, x, frames, d); }
    }
  }

  /** The link to an ancestor that is in no loop and keeps its children and error. */
  lemma LinkStill(s: State, s1: State, t: nat, x: nat, frames: seq<Frame>, d: nat, k: Key)
    requires Moves(s, s1, t, x, frames) && d < |s.ctxs| && x < d && Linked(s, d, x, k)
    requires !HasLoop(s, x) && s1.ctxs[x].children == s.ctxs[x].children && s1.ctxs[x].err == s.ctxs[x].err
    requires !(Top(s, t).RemoveStart? && Top(s, t).c == d)
    ensures Linked(s1, d, x, k)
  {
    if !Through(s1, d) {
      if Through(s, d) { ThroughKept(s, s1, t, x, frames, d); }
      if s.ctxs[x].err.Some? { PendingLoops(s, x, k); }
    }
    if k.CancelKey? && s.ctxs[d].err.Some? && k in s.ctxs[x].children { RemovingKept(s, s1, t, x, frames, d); }
  }

  /** The end of a context that the step does not touch, or whose children and error it leaves alone outside a loop. */
  lemma EndsKept(s: State, s1: State, t: nat, x: nat, frames: seq<Frame>, d: nat)
    requires Moves(s, s1, t, x, frames) && d < |s.ctxs| && EndsOk(s, d)
    requires d == x ==> s1.ctxs[x].err == s.ctxs[x].err && (Through(s1, x) ==> s1.ctxs[x].children == {})
    requires d in s1.armed && d !in s.armed ==> s1.ctxs[d].err.None?
    requires Top(s, t).StopTimer? && Top(s, t).c == d ==> d !in s1.armed
    ensures EndsOk(s1, d)
  {
    if d != x && Through(s1, d) {
      if HasLoop(s, d) { LoopKept(s, s1, t, x, frames, d); }
    }
    if d in s1.armed && s1.ctxs[d].err.Some? { StoppingKept(s, s1, t, x, frames, d); }
  }

  /** All links and ends, for a step in which x is in no loop and keeps its children and error. */
  lemma QuietStep(s: State, s1: State, t: nat, x: nat, frames: seq<Frame>)
    requires Inv(s) && Moves(s, s1, t, x, frames) && !HasLoop(s, x)
    requires x < |s.ctxs| ==> s1.ctxs[x] == s.ctxs[x]
    requires !Top(s, t).RemoveStart? && forall d :: d in s1.linked && d !in s.linked ==> d < |s.ctxs| && LinkOk(s1, d)
    requires frames == [] && Init(s, t) != [] ==> Through(s1, Top(s, t).c)
    requires forall d :: d in s1.armed && d !in s.armed ==> d < |s.ctxs| && s.ctxs[d].err.None?
    requires Top(s, t).StopTimer? ==> Top(s, t).c !in s1.armed
    ensures LinksOk(s1)
  {
    forall d | 0 <= d < |s1.ctxs| ensures LinkOk(s1, d) && EndsOk(s1, d) {
      assert LinkOk(s, d) && EndsOk(s, d);
      if d in s.linked && !s.shape[d].kind.ValueCtx? && Above(s.shape, d).Some? {
        var p, k := Above(s.shape, d).value, KeyOf(s.shape, d);
        if p == x { LinkStill(s, s1, t, x, frames, d, k); } else { LinkAway(s, s1, t, x, frames, d, p, k); }
      }
      EndsKept(s, s1, t, x, frames, d);
    }
  }

  // ---------- what the steps share ----------

  lemma FitPop(shape: seq<Shape>, stack: seq<Frame>)
    requires IsTree(shape) && stack != [] && AllFit(shape, stack)
    ensures AllFit(shape, stack[..|stack| - 1])
  {
    var shorter := stack[..|stack| - 1];
    forall i | 0 <= i < |shorter| ensures Fits(shape, shorter, i) { assert Fits(shape, stack, i); }
  }

  lemma FitReplace(shape: seq<Shape>, stack: seq<Frame>, f: Frame)
    requires IsTree(shape) && stack != [] && AllFit(shape, stack) && f.c == stack[|stack| - 1].c && !Builder(f)
    requires f.RemoveStart? || f.SetTimer? ==> |stack| == 1
    requires f.CancelStart? || f.CancelLoop? ==> (f.remove <==> |stack| == 1)
    ensures AllFit(shape, stack[..|stack| - 1] + [f])
  {
    var n := |stack| - 1;
    forall i | 0 <= i <= n ensures Fits(shape, stack[..n] + [f], i) { assert Fits(shape, stack, i); }
  }

  lemma FitPush(shape: seq<Shape>, stack: seq<Frame>, f: Frame, g: Frame)
    requires IsTree(shape) && AllFit(shape, stack + [f]) && f.CancelLoop? && g.CancelStart? && !g.remove && f.c < g.c
    requires g.c < |shape| && Above(shape, g.c) == Some(f.c)
    ensures AllFit(shape, stack + [f, g])
  {
    var n := |stack|;
    forall i | 0 <= i < n + 2 ensures Fits(shape, stack + [f, g], i) {
      if i <= n { assert Fits(shape, stack + [f], i); }
    }
  }

  lemma FitAfter(shape: seq<Shape>, stack: seq<Frame>, frames: seq<Frame>)
    requires IsTree(shape) && stack != [] && AllFit(shape, stack)
    requires frames == [] || frames == [StopTimer(stack[|stack| - 1].c)]
    ensures AllFit(shape, stack[..|stack| - 1] + frames)
  {
    if frames == [] {
      FitPop(shape, stack);
      assert stack[..|stack| - 1] + [] == stack[..|stack| - 1];
    } else {
      FitReplace(shape, stack, frames[0]);
    }
  }

  /** A frame on top of Holding cancels the context that Holding is about. */
  lemma SettledAfter(s: State, s1: State, t: nat, frames: seq<Frame>)
    requires Local(s, t) && s1.shape == s.shape && |s1.ctxs| == |s.ctxs| && t < |s1.threads|
    requires s1.threads[t] == Init(s, t) + frames
    requires forall f :: f in frames ==> !f.Holding?
    requires frames == [] && Init(s, t) != [] ==> s1.ctxs[Top(s, t).c].err.Some?
    ensures Settled(s1, s1.threads[t])
  {
    if |s1.threads[t]| == 1 && Init(s, t) != [] {
      assert Fits(s.shape, s.threads[t], 0) && s.threads[t][1] == Top(s, t);
    }
  }

  lemma TopFits(s: State, t: nat)
    requires Local(s, t)
    ensures Fits(s.shape, s.threads[t], |s.threads[t]| - 1)
  {
  }

  lemma InitLocks(s: State, t: nat)
    requires Local(s, t)
    ensures forall i :: 0 <= i < |Init(s, t)| ==> LockOf(Init(s, t)[i]) != Some(Top(s, t).c)
  {
    forall i | 0 <= i < |Init(s, t)| ensures LockOf(Init(s, t)[i]) != Some(Top(s, t).c) {
      LocksBelow(s.shape, s.threads[t], i, |s.threads[t]| - 1);
    }
  }

  /** These frames stand alone on their stack. */
  lemma Alone(s: State, t: nat)
    requires Local(s, t)
    requires Builder(Top(s, t)) || Top(s, t).RemoveStart? || Top(s, t).SetTimer?
    ensures s.threads[t] == [Top(s, t)] && Init(s, t) == []
  {
    TopFits(s, t);
  }

  lemma OwnedExists(s: State)
    requires Inv(s)
    ensures forall c :: c in s.owner ==> c < |s.ctxs|
  {
    forall c | c in s.owner ensures c < |s.ctxs| {
      var stack := s.threads[s.owner[c]];
      var i :| 0 <= i < |stack| && LockOf(stack[i]) == Some(c);
      assert StackOk(s, s.owner[c]) && FrameOk(s, s.owner[c], stack[i]);
      if stack[i].Holding? { assert Above(s.shape, stack[i].c) == Some(c); }
    }
  }

  /** Only context x has changed, to something that fits the tree. */
  ghost predicate CtxsFit(s: State, s1: State, x: nat)
    requires IsTree(s.shape)
  {
    && s1.shape == s.shape && |s1.ctxs| == |s.ctxs| == |s.shape| && s.linked <= s1.linked
    && (forall c :: 0 <= c < |s.ctxs| && c != x ==> s1.ctxs[c] == s.ctxs[c])
    && (forall c :: c in s1.linked ==> c < |s.ctxs|)
    && (forall c :: c in s1.armed ==> c in s.armed || (c < |s.ctxs| && s.shape[c].kind.TimerCtx?))
    && (x < |s.ctxs| ==> !s.shape[x].kind.ValueCtx? && s1.ctxs[x].closes == if s1.ctxs[x].err.Some? then 1 else 0)
    && (x < |s.ctxs| ==> forall k :: k in s1.ctxs[x].children ==> k in s.ctxs[x].children || Registered(s1, x, k))
  }

  lemma CtxsStep(s: State, s1: State, x: nat)
    requires CtxsOk(s) && CtxsFit(s, s1, x)
    ensures CtxsOk(s1)
  {
    forall c | 0 <= c < |s1.ctxs| ensures CtxOk(s1, c) { assert CtxOk(s, c); }
    forall p, k | 0 <= p < |s1.ctxs| && k in s1.ctxs[p].children ensures Registered(s1, p, k) {
      if k in s.ctxs[p].children { assert Registered(s, p, k); }
    }
  }

  // ---------- cancel ----------

  /** Cancel finds its context already cancelled. */
  lemma StepAlready(s: State, t: nat, c: nat, e: Error, remove: bool)
    requires Inv(s) && t < |s.threads| && s.threads[t] != [] && Top(s, t) == CancelStart(c, e, remove)
    requires c !in s.owner && c < |s.ctxs| && s.ctxs[c].err.Some?
    ensures Inv(SetTop(s, t, AfterCancel(s, c)))
  {
    InvLocal(s, t);
    var s1, frames := SetTop(s, t, AfterCancel(s, c)), AfterCancel(s, c);
    AlreadyReady(s, t, c);
    QuietStep(s, s1, t, c, frames);
    StepKeeps(s, s1, t, c, frames);
  }

  lemma AlreadyReady(s: State, t: nat, c: nat)
    requires Local(s, t) && Top(s, t).CancelStart? && Top(s, t).c == c
    requires c !in s.owner && c < |s.ctxs| && s.ctxs[c].err.Some?
    ensures StepsOk(s, SetTop(s, t, AfterCancel(s, c)), t, c, AfterCancel(s, c))
    ensures Moves(s, SetTop(s, t, AfterCancel(s, c)), t, c, AfterCancel(s, c))
  {
    var s1 := SetTop(s, t, AfterCancel(s, c));
    InitLocks(s, t);
    FitAfter(s.shape, s.threads[t], AfterCancel(s, c));
    SettledAfter(s, s1, t, AfterCancel(s, c));
    assert CtxOk(s, c);
    CtxsStep(s, s1, c);
  }

  /** Cancel takes the lock, sets the error, closes done. */
  lemma StepEnter(s: State, t: nat, c: nat, e: Error, remove: bool)
    requires Inv(s) && t < |s.threads| && s.threads[t] != [] && Top(s, t) == CancelStart(c, e, remove)
    requires c !in s.owner && c < |s.ctxs| && s.ctxs[c].err.None?
    ensures Inv(DoCancelStart(s, t, c, e, remove))
  {
    InvLocal(s, t);
    var s1, f := DoCancelStart(s, t, c, e, remove), CancelLoop(c, e, remove, s.ctxs[c].children);
    EnterReady(s, t, c, e, remove);
    assert s1.threads[t][|Init(s, t)|] == f;
    forall d | 0 <= d < |s1.ctxs| ensures LinkOk(s1, d) && EndsOk(s1, d) {
      assert LinkOk(s, d) && EndsOk(s, d);
      if d in s.linked && !s.shape[d].kind.ValueCtx? && Above(s.shape, d).Some? {
        EnterLink(s, s1, t, c, f, d, Above(s.shape, d).value, KeyOf(s.shape, d));
      }
      if d == c { assert StopsAt(s1.threads, t, |Init(s, t)|, c); } else { EndsKept(s, s1, t, c, [f], d); }
    }
    StepKeeps(s, s1, t, c, [f]);
  }

  lemma EnterReady(s: State, t: nat, c: nat, e: Error, remove: bool)
    requires Local(s, t) && Top(s, t) == CancelStart(c, e, remove)
    requires c !in s.owner && c < |s.ctxs| && s.ctxs[c].err.None?
    ensures var frames := [CancelLoop(c, e, remove, s.ctxs[c].children)];
      StepsOk(s, DoCancelStart(s, t, c, e, remove), t, c, frames) &&
        Moves(s, DoCancelStart(s, t, c, e, remove), t, c, frames)
  {
    var s1, f := DoCancelStart(s, t, c, e, remove), CancelLoop(c, e, remove, s.ctxs[c].children);
    InitLocks(s, t);
    TopFits(s, t);
    FitReplace(s.shape, s.threads[t], f);
    SettledAfter(s, s1, t, [f]);
    assert CtxOk(s, c);
    CtxsStep(s, s1, c);
    assert LockOf([f][0]) == Some(c);
  }

  lemma EnterLink(s: State, s1: State, t: nat, c: nat, f: Frame, d: nat, p: nat, k: Key)
    requires Inv(s) && Moves(s, s1, t, c, [f]) && d in s.linked && d < |s.ctxs| && RegisteredKey(s.shape, p, k)
    requires k.id == d
    requires Linked(s, d, p, k)
    requires f.CancelLoop? && f.c == c < |s.ctxs| && f.todo == s.ctxs[c].children == s1.ctxs[c].children
    requires Top(s, t).CancelStart? && Top(s, t).c == c && f.remove == Top(s, t).remove
    requires s1.ctxs[c].err.Some? && c in s1.owner && s1.owner[c] == t
    ensures Linked(s1, d, p, k)
  {
    var n := |Init(s, t)|;
    assert s1.threads[t][n] == f;
    if p == c {
      assert HasLoop(s1, c);
      if !Through(s1, d) {
        if Through(s, d) { ThroughKept(s, s1, t, c, [f], d); }
        assert PendingAt(s1.threads[t], n, c, k);
      }
    } else {
      if d == c && k.CancelKey? && k in s.ctxs[p].children { EnterLoops(s, s1, t, c, f, p); }
      LinkAway(s, s1, t, c, [f], d, p, k);
    }
  }

  /** A context that is cancelled without removal is cancelled from the loop of the one it is registered with. */
  lemma EnterLoops(s: State, s1: State, t: nat, c: nat, f: Frame, p: nat)
    requires Inv(s) && Moves(s, s1, t, c, [f]) && c < |s.ctxs| && Above(s.shape, c) == Some(p) && p != c
    requires c in s.linked
    requires f.CancelLoop? && f.c == c && Top(s, t).CancelStart? && Top(s, t).c == c && f.remove == Top(s, t).remove
    ensures HasLoop(s1, p) || Removing(s1, c)
  {
    var n := |Init(s, t)|;
    assert s1.threads[t][n] == f;
    if f.remove {
      assert RemovesAt(s1.threads, t, n, c);
    } else {
      LoopBelow(s, t);
      assert HasLoop(s, p);
      LoopKept(s, s1, t, c, [f], p);
    }
  }

  /** Below a cancel without removal of a linked context is the loop of the one above it. */
  lemma LoopBelow(s: State, t: nat)
    requires Local(s, t) && Top(s, t).CancelStart? && !Top(s, t).remove && Top(s, t).c in s.linked
    ensures var n := |s.threads[t]| - 1;
      n > 0 && s.threads[t][n - 1].CancelLoop? && Above(s.shape, Top(s, t).c) == Some(s.threads[t][n - 1].c)
    ensures HasLoop(s, Above(s.shape, Top(s, t).c).value)
  {
    TopFits(s, t);
    var n := |s.threads[t]| - 1;
    var below := s.threads[t][n - 1];
    assert FrameOk(s, t, below);
    if below.CancelLoop? { assert Loops(s.threads[t], below.c); }
  }

  /** Only the innermost frame can loop over the innermost frame's context. */
  lemma OnlyLoop(shape: seq<Shape>, stack: seq<Frame>, i: int, k: Key)
    requires IsTree(shape) && AllFit(shape, stack) && stack != [] && PendingAt(stack, i, stack[|stack| - 1].c, k)
    ensures i == |stack| - 1
  {
    if i < |stack| - 1 {
      LocksBelow(shape, stack, i, |stack| - 1);
    }
  }

  /** Cancel picks the next child. */
  lemma StepPick(s: State, t: nat, f: Frame, k: Key)
    requires Inv(s) && t < |s.threads| && s.threads[t] != [] && Top(s, t) == f && f.CancelLoop? && k in f.todo
    requires f.c < |s.ctxs|
    ensures Inv(DoCancelLoop(s, t, f, k))
  {
    InvLocal(s, t);
    var s1, frames := DoCancelLoop(s, t, f, k), [f.(todo := f.todo - {k}), CancelStart(k.id, f.e, false)];
    PickReady(s, t, f, k);
    var n := |Init(s, t)|;
    assert s1.threads[t][n] == frames[0] && s1.threads[t][n + 1] == frames[1];
    assert HasLoop(s1, f.c);
    forall d | 0 <= d < |s1.ctxs| ensures LinkOk(s1, d) && EndsOk(s1, d) {
      assert LinkOk(s, d) && EndsOk(s, d);
      if d in s.linked && !s.shape[d].kind.ValueCtx? && Above(s.shape, d).Some? {
        PickLink(s, s1, t, f, k, d, Above(s.shape, d).value, KeyOf(s.shape, d));
      }
      EndsKept(s, s1, t, f.c, frames, d);
    }
    StepKeeps(s, s1, t, f.c, frames);
  }

  lemma PickReady(s: State, t: nat, f: Frame, k: Key)
    requires Local(s, t) && Top(s, t) == f && f.CancelLoop? && f.c < |s.ctxs| && k in f.todo
    ensures var s1, frames := DoCancelLoop(s, t, f, k), [f.(todo := f.todo - {k}), CancelStart(k.id, f.e, false)];
      StepsOk(s, s1, t, f.c, frames) && Moves(s, s1, t, f.c, frames)
  {
    var s1 := DoCancelLoop(s, t, f, k);
    var f1, g := f.(todo := f.todo - {k}), CancelStart(k.id, f.e, false);
    InitLocks(s, t);
    assert Registered(s, f.c, k);
    PickFits(s, t, f, f1, g);
    SettledAfter(s, s1, t, [f1, g]);
    assert CtxOk(s, f.c);
    CtxsStep(s, s1, f.c);
    assert LockOf([f1, g][0]) == Some(f.c);
  }

  lemma PickFits(s: State, t: nat, f: Frame, f1: Frame, g: Frame)
    requires Local(s, t) && Top(s, t) == f && f.CancelLoop? && f1.CancelLoop? && f1.c == f.c && f1.remove == f.remove
    requires g.CancelStart? && !g.remove && f.c < g.c < |s.shape| && Above(s.shape, g.c) == Some(f.c)
    ensures AllFit(s.shape, Init(s, t) + [f1, g])
  {
    TopFits(s, t);
    FitReplace(s.shape, s.threads[t], f1);
    FitPush(s.shape, Init(s, t), f1, g);
  }

  lemma PickLink(s: State, s1: State, t: nat, f: Frame, k: Key, d: nat, p: nat, kd: Key)
    requires f.CancelLoop? && Moves(s, s1, t, f.c, [f.(todo := f.todo - {k}), CancelStart(k.id, f.e, false)])
    requires d < |s.ctxs| && RegisteredKey(s.shape, p, kd) && kd.id == d && Linked(s, d, p, kd)
    requires Top(s, t) == f && s1.ctxs == s.ctxs && s1.owner == s.owner && HasLoop(s1, f.c)
    ensures Linked(s1, d, p, kd)
  {
    var frames, n := [f.(todo := f.todo - {k}), CancelStart(k.id, f.e, false)], |Init(s, t)|;
    if p == f.c {
      if !Through(s1, d) {
        if Through(s, d) { ThroughKept(s, s1, t, p, frames, d); }
        var i :| PendingAt(s.threads[t], i, p, kd);
        OnlyLoop(s.shape, s.threads[t], i, kd);
        assert s1.threads[t][n] == frames[0] && s1.threads[t][n + 1] == frames[1];
        assert PendingAt(s1.threads[t], n, p, kd);
      }
    } else {
      LinkAway(s, s1, t, f.c, frames, d, p, kd);
    }
  }

  /** Cancel has no child left: it drops the map and its lock. */
  lemma StepFinish(s: State, t: nat, f: Frame, k: Key)
    requires Inv(s) && t < |s.threads| && s.threads[t] != [] && Top(s, t) == f && f.CancelLoop? && f.todo == {}
    requires f.c < |s.ctxs|
    ensures Inv(DoCancelLoop(s, t, f, k))
  {
    InvLocal(s, t);
    var s1, frames := DoCancelLoop(s, t, f, k), if f.remove then [RemoveStart(f.c)] else AfterCancel(s, f.c);
    FinishReady(s, t, f, k);
    forall d | 0 <= d < |s1.ctxs| ensures LinkOk(s1, d) && EndsOk(s1, d) {
      assert LinkOk(s, d) && EndsOk(s, d);
      if d in s.linked && !s.shape[d].kind.ValueCtx? && Above(s.shape, d).Some? {
        FinishLink(s, s1, t, f, frames, d, Above(s.shape, d).value, KeyOf(s.shape, d));
      }
      EndsKept(s, s1, t, f.c, frames, d);
    }
    StepKeeps(s, s1, t, f.c, frames);
  }

  lemma FinishReady(s: State, t: nat, f: Frame, k: Key)
    requires Local(s, t) && Top(s, t) == f && f.CancelLoop? && f.c < |s.ctxs| && f.todo == {}
    ensures var s1, frames := DoCancelLoop(s, t, f, k), if f.remove then [RemoveStart(f.c)] else AfterCancel(s, f.c);
      StepsOk(s, s1, t, f.c, frames) && Moves(s, s1, t, f.c, frames)
  {
    var s1, frames := DoCancelLoop(s, t, f, k), if f.remove then [RemoveStart(f.c)] else AfterCancel(s, f.c);
    FinishTouches(s, t, f, k, s1, frames);
    FinishFits(s, t, f);
    SettledAfter(s, s1, t, frames);
    assert CtxOk(s, f.c);
    CtxsStep(s, s1, f.c);
  }

  lemma FinishTouches(s: State, t: nat, f: Frame, k: Key, s1: State, frames: seq<Frame>)
    requires Local(s, t) && Top(s, t) == f && f.CancelLoop? && f.c < |s.ctxs| && f.todo == {}
    requires s1 == DoCancelLoop(s, t, f, k) && frames == if f.remove then [RemoveStart(f.c)] else AfterCancel(s, f.c)
    ensures Touches(s, s1, t, f.c, frames) && Continues(s, f, frames)
  {
    InitLocks(s, t);
    assert Init(s, t) + [] == Init(s, t);
  }

  lemma FinishFits(s: State, t: nat, f: Frame)
    requires Local(s, t) && Top(s, t) == f && f.CancelLoop? && f.c < |s.ctxs|
    ensures AllFit(s.shape, Init(s, t) + if f.remove then [RemoveStart(f.c)] else AfterCancel(s, f.c))
  {
    TopFits(s, t);
    if f.remove {
      FitReplace(s.shape, s.threads[t], RemoveStart(f.c));
    } else {
      FitAfter(s.shape, s.threads[t], AfterCancel(s, f.c));
    }
  }

  lemma FinishLink(s: State, s1: State, t: nat, f: Frame, frames: seq<Frame>, d: nat, p: nat, kd: Key)
    requires Moves(s, s1, t, f.c, frames) && Top(s, t) == f && f.c < |s.ctxs|
    requires d < |s.ctxs| && RegisteredKey(s.shape, p, kd) && kd.id == d && Linked(s, d, p, kd) && f.CancelLoop?
    requires f.todo == {}
    requires s1.ctxs[f.c].children == {} && f.c !in s1.owner && s1.ctxs[f.c].err.Some?
    ensures Linked(s1, d, p, kd)
  {
    if p == f.c {
      if !Through(s1, d) {
        if Through(s, d) { ThroughKept(s, s1, t, p, frames, d); }
        var i :| PendingAt(s.threads[s.owner[p]], i, p, kd);
        OnlyLoop(s.shape, s.threads[t], i, kd);
        assert false;
      }
    } else {
      LinkAway(s, s1, t, f.c, frames, d, p, kd);
    }
  }

  // ---------- propagateCancel ----------

  /** propagateCancel registers c with its live ancestor. */
  lemma StepRegister(s: State, t: nat, c: nat, p: nat)
    requires Inv(s) && t < |s.threads| && s.threads[t] != [] && Top(s, t) == Propagate(c)
    requires c < |s.ctxs| && Above(s.shape, c) == Some(p) && p !in s.owner && s.ctxs[p].err.None?
    ensures Inv(DoPropagate(s, t, c))
  {
    InvLocal(s, t);
    var s1, frames := DoPropagate(s, t, c), AfterLink(s, c);
    RegisterReady(s, t, c, p);
    Alone(s, t);
    forall d | 0 <= d < |s1.ctxs| ensures LinkOk(s1, d) && EndsOk(s1, d) {
      assert LinkOk(s, d) && EndsOk(s, d);
      if d in s1.linked && !s.shape[d].kind.ValueCtx? && Above(s.shape, d).Some? {
        RegisterLink(s, s1, t, c, p, frames, d, Above(s.shape, d).value, KeyOf(s.shape, d));
      }
      EndsKept(s, s1, t, p, frames, d);
    }
    StepKeeps(s, s1, t, p, frames);
  }

  lemma RegisterReady(s: State, t: nat, c: nat, p: nat)
    requires Local(s, t) && Top(s, t) == Propagate(c)
    requires c < |s.ctxs| && Above(s.shape, c) == Some(p) && p !in s.owner && s.ctxs[p].err.None?
    ensures StepsOk(s, DoPropagate(s, t, c), t, p, AfterLink(s, c))
    ensures Moves(s, DoPropagate(s, t, c), t, p, AfterLink(s, c))
  {
    var s1 := DoPropagate(s, t, c);
    Alone(s, t);
    assert s1.threads[t] == AfterLink(s, c);
    assert CtxOk(s, p);
    CtxsStep(s, s1, p);
  }

  lemma RegisterLink(s: State, s1: State, t: nat, c: nat, p: nat, frames: seq<Frame>, d: nat, q: nat, k: Key)
    requires Inv(s) && Moves(s, s1, t, p, frames) && Top(s, t) == Propagate(c) && c < |s.ctxs| && p < c
    requires Init(s, t) == []
    requires d < |s.ctxs| && RegisteredKey(s.shape, q, k) && k.id == d && (d in s.linked ==> Linked(s, d, q, k))
    requires d in s.linked || (d == c && q == p)
    requires s1.ctxs[p] == s.ctxs[p].(children := s.ctxs[p].children + {KeyOf(s.shape, c)}) && s.ctxs[p].err.None?
    requires c !in s.linked && s.ctxs[c].err.None? && p !in s.owner
    ensures Linked(s1, d, q, k)
  {
    if d in s.linked && q != p {
      LinkAway(s, s1, t, p, frames, d, q, k);
    } else if d in s.linked {
      if !Through(s1, d) && Through(s, d) { ThroughKept(s, s1, t, p, frames, d); }
      if k.CancelKey? && s.ctxs[d].err.Some? && k in s.ctxs[p].children { RemovingKept(s, s1, t, p, frames, d); }
    }
  }

  /** No ancestor can be cancelled: nothing to register. */
  lemma StepRootless(s: State, t: nat, c: nat)
    requires Inv(s) && t < |s.threads| && s.threads[t] != [] && Top(s, t) == Propagate(c)
    requires c < |s.ctxs| && Above(s.shape, c) == None
    ensures Inv(DoPropagate(s, t, c))
  {
    var s1, frames, x := DoPropagate(s, t, c), AfterLink(s, c), |s.ctxs|;
    InvLocal(s, t);
    Alone(s, t);
    assert s1.threads[t] == frames;
    OwnedExists(s);
    CtxsStep(s, s1, x);
    QuietStep(s, s1, t, x, frames);
    StepKeeps(s, s1, t, x, frames);
  }

  /** The parent is already cancelled: its lock is held while the new context is cancelled with the parent's error. */
  lemma StepInherit(s: State, t: nat, c: nat, p: nat)
    requires Inv(s) && t < |s.threads| && s.threads[t] != [] && Top(s, t) == Propagate(c)
    requires c < |s.ctxs| && Above(s.shape, c) == Some(p) && p !in s.owner && s.ctxs[p].err.Some?
    ensures Inv(DoPropagate(s, t, c))
  {
    var s1, frames := DoPropagate(s, t, c), [Holding(c, p), CancelStart(c, s.ctxs[p].err.value, false)];
    InvLocal(s, t);
    InheritReady(s, t, c, p);
    QuietStep(s, s1, t, p, frames);
    StepKeeps(s, s1, t, p, frames);
  }

  lemma InheritReady(s: State, t: nat, c: nat, p: nat)
    requires Local(s, t) && Top(s, t) == Propagate(c)
    requires c < |s.ctxs| && Above(s.shape, c) == Some(p) && p !in s.owner && s.ctxs[p].err.Some?
    ensures var s1, frames := DoPropagate(s, t, c), [Holding(c, p), CancelStart(c, s.ctxs[p].err.value, false)];
      StepsOk(s, s1, t, p, frames) && Moves(s, s1, t, p, frames)
  {
    var s1, frames := DoPropagate(s, t, c), [Holding(c, p), CancelStart(c, s.ctxs[p].err.value, false)];
    Alone(s, t);
    assert s1.threads[t] == frames;
    assert CtxOk(s, p);
    CtxsStep(s, s1, p);
    assert LockOf(frames[0]) == Some(p);
  }

  /** propagateCancel unlocks the cancelled parent. */
  lemma StepRelease(s: State, t: nat, c: nat, p: nat)
    requires Inv(s) && t < |s.threads| && s.threads[t] != [] && Top(s, t) == Holding(c, p) && c < |s.ctxs|
    ensures Inv(DoRelease(s, t, c, p))
  {
    InvLocal(s, t);
    var s1, frames := DoRelease(s, t, c, p), AfterLink(s, c);
    ReleaseReady(s, t, c, p);
    Alone(s, t);
    assert !HasLoop(s, p);
    ReleasedLink(s, s1, t, c, p);
    QuietStep(s, s1, t, p, frames);
    StepKeeps(s, s1, t, p, frames);
  }

  lemma ReleaseReady(s: State, t: nat, c: nat, p: nat)
    requires Local(s, t) && Top(s, t) == Holding(c, p) && c < |s.ctxs|
    ensures StepsOk(s, DoRelease(s, t, c, p), t, p, AfterLink(s, c))
    ensures Moves(s, DoRelease(s, t, c, p), t, p, AfterLink(s, c))
  {
    var s1 := DoRelease(s, t, c, p);
    Alone(s, t);
    assert s1.threads[t] == AfterLink(s, c);
    assert CtxOk(s, p);
    CtxsStep(s, s1, p);
  }

  /** Only the thread that builds c has frames about it. */
  lemma BuiltAlone(s: State, t: nat, c: nat)
    requires Inv(s) && t < |s.threads| && Builds(s.threads[t], c) && c !in s.linked
    ensures forall t1, i :: 0 <= t1 < |s.threads| && t1 != t && 0 <= i < |s.threads[t1]| ==> s.threads[t1][i].c != c
  {
    forall t1, i | 0 <= t1 < |s.threads| && t1 != t && 0 <= i < |s.threads[t1]| ensures s.threads[t1][i].c != c {
      assert StackOk(s, t1);
    }
  }

  /** The context just cancelled under its parent's lock is linked: its cancel is through, and it is not registered. */
  lemma ReleasedLink(s: State, s1: State, t: nat, c: nat, p: nat)
    requires Inv(s) && Local(s, t) && s.threads[t] == [Holding(c, p)] && c < |s.ctxs| && s1 == DoRelease(s, t, c, p)
    ensures LinkOk(s1, c)
  {
    assert Settled(s, s.threads[t]) && FrameOk(s, t, Holding(c, p)) && Builds(s.threads[t], c);
    BuiltAlone(s, t, c);
    assert s1.threads[t] == AfterLink(s, c);
    assert forall t1 :: 0 <= t1 < |s.threads| && t1 != t ==> s1.threads[t1] == s.threads[t1];
    NotRegistered(s, p, KeyOf(s.shape, c));
  }

  lemma NotRegistered(s: State, p: nat, k: Key)
    requires CtxsOk(s) && p < |s.ctxs| && k.id !in s.linked
    ensures k !in s.ctxs[p].children
  {
  }

  // ---------- the timer ----------

  lemma StepSetTimer(s: State, t: nat, c: nat)
    requires Inv(s) && t < |s.threads| && s.threads[t] != [] && Top(s, t) == SetTimer(c) && c < |s.ctxs|
    requires c !in s.owner
    ensures Inv(DoSetTimer(s, t, c))
  {
    InvLocal(s, t);
    var s1 := DoSetTimer(s, t, c);
    Alone(s, t);
    assert s1.threads[t] == [];
    assert CtxOk(s, c);
    CtxsStep(s, s1, c);
    QuietStep(s, s1, t, c, []);
    StepKeeps(s, s1, t, c, []);
  }

  lemma StepLate(s: State, t: nat)
    requires Inv(s) && t < |s.threads| && s.threads[t] != [] && Top(s, t).SetTimer?
    ensures Inv(DoLate(s, t))
  {
    InvLocal(s, t);
    var s1, frames, x := DoLate(s, t), [CancelStart(Top(s, t).c, DeadlineExceeded, true)], |s.ctxs|;
    Alone(s, t);
    assert s1.threads[t] == frames;
    OwnedExists(s);
    CtxsStep(s, s1, x);
    QuietStep(s, s1, t, x, frames);
    StepKeeps(s, s1, t, x, frames);
  }

  lemma StepStopTimer(s: State, t: nat, c: nat)
    requires Inv(s) && t < |s.threads| && s.threads[t] != [] && Top(s, t) == StopTimer(c) && c < |s.ctxs|
    requires c !in s.owner
    ensures Inv(DoStopTimer(s, t, c))
  {
    InvLocal(s, t);
    var s1 := DoStopTimer(s, t, c);
    StopReady(s, t, c);
    QuietStep(s, s1, t, c, []);
    StepKeeps(s, s1, t, c, []);
  }

  lemma StopReady(s: State, t: nat, c: nat)
    requires Local(s, t) && Top(s, t) == StopTimer(c) && c < |s.ctxs| && c !in s.owner
    ensures StepsOk(s, DoStopTimer(s, t, c), t, c, []) && Moves(s, DoStopTimer(s, t, c), t, c, [])
  {
    var s1 := DoStopTimer(s, t, c);
    InitLocks(s, t);
    FitAfter(s.shape, s.threads[t], []);
    SettledAfter(s, s1, t, []);
    assert CtxOk(s, c);
    CtxsStep(s, s1, c);
  }

  // ---------- the removal ----------

  /** The removal deletes the *cancelCtx key of an already cancelled context. */
  lemma StepRemove(s: State, t: nat, c: nat)
    requires Inv(s) && t < |s.threads| && s.threads[t] != [] && Top(s, t) == RemoveStart(c) && c < |s.ctxs|
    requires Above(s.shape, c).Some? ==> Above(s.shape, c).value !in s.owner
    ensures Inv(DoRemove(s, t, c))
  {
    InvLocal(s, t);
    Alone(s, t);
    var s1, x := DoRemove(s, t, c), match Above(s.shape, c) case None => |s.ctxs| case Some(p) => p;
    OwnedExists(s);
    RemoveReady(s, t, c, x);
    forall d | 0 <= d < |s1.ctxs| ensures LinkOk(s1, d) && EndsOk(s1, d) {
      assert LinkOk(s, d) && EndsOk(s, d);
      if d in s.linked && !s.shape[d].kind.ValueCtx? && Above(s.shape, d).Some? {
        RemoveLink(s, s1, t, c, x, d, Above(s.shape, d).value, KeyOf(s.shape, d));
      }
      EndsKept(s, s1, t, x, AfterCancel(s, c), d);
    }
    StepKeeps(s, s1, t, x, AfterCancel(s, c));
  }

  lemma RemoveReady(s: State, t: nat, c: nat, x: nat)
    requires Local(s, t) && Top(s, t) == RemoveStart(c) && x !in s.owner && c < |s.ctxs|
    requires Above(s.shape, c) == if x == |s.ctxs| then None else Some(x)
    ensures StepsOk(s, DoRemove(s, t, c), t, x, AfterCancel(s, c))
    ensures Moves(s, DoRemove(s, t, c), t, x, AfterCancel(s, c))
  {
    var s1 := DoRemove(s, t, c);
    Alone(s, t);
    assert s1.threads[t] == AfterCancel(s, c);
    RemoveTouches(s, t, c, x, s1);
    FitAfter(s.shape, s.threads[t], AfterCancel(s, c));
    if x < |s.ctxs| { assert CtxOk(s, x); }
    CtxsStep(s, s1, x);
    if s.shape[c].kind.TimerCtx? { ThroughRemoved(s, s1, t, x, c); }
  }

  lemma RemoveTouches(s: State, t: nat, c: nat, x: nat, s1: State)
    requires Local(s, t) && Top(s, t) == RemoveStart(c) && x !in s.owner && c < |s.ctxs| && Init(s, t) == []
    requires Above(s.shape, c) == (if x == |s.ctxs| then None else Some(x)) && s1 == DoRemove(s, t, c)
    ensures Touches(s, s1, t, x, AfterCancel(s, c)) && Continues(s, Top(s, t), AfterCancel(s, c))
  {
  }

  lemma ThroughRemoved(s: State, s1: State, t: nat, x: nat, c: nat)
    requires Local(s, t) && c < |s.shape| && Touches(s, s1, t, x, AfterCancel(s, c)) && Top(s, t) == RemoveStart(c)
    ensures Through(s1, c)
  {
    ThroughKept(s, s1, t, x, AfterCancel(s, c), c);
  }

  lemma RemoveLink(s: State, s1: State, t: nat, c: nat, x: nat, d: nat, p: nat, k: Key)
    requires c < |s.shape| && Moves(s, s1, t, x, AfterCancel(s, c)) && Top(s, t) == RemoveStart(c) && x !in s.owner
    requires Above(s.shape, c) == if x == |s.ctxs| then None else Some(x)
    requires d < |s.ctxs| && RegisteredKey(s.shape, p, k) && k.id == d && Linked(s, d, p, k) && Init(s, t) == []
    requires x < |s.ctxs| ==> s1.ctxs[x] == s.ctxs[x].(children := s.ctxs[x].children - {CancelKey(c)})
    ensures Linked(s1, d, p, k)
  {
    var frames := AfterCancel(s, c);
    if p != x {
      LinkAway(s, s1, t, x, frames, d, p, k);
    } else {
      if !Through(s1, d) {
        if Through(s, d) { ThroughKept(s, s1, t, x, frames, d); }
        if s.ctxs[x].err.Some? { PendingLoops(s, x, k); }
      }
      if d != c && k.CancelKey? && s.ctxs[d].err.Some? && k in s.ctxs[x].children {
        RemovingKept(s, s1, t, x, frames, d);
      }
    }
  }

  // ---------- new calls ----------

  /** s2 is s with one context allocated, and a thread that was idle perhaps started. */
  ghost predicate Allocated(s: State, s2: State, x: Shape) {
    && IsTree(s.shape) && IsTree(s2.shape) && |s.ctxs| == |s.shape|
    && s2.shape == s.shape + [x] && s2.ctxs == s.ctxs + [FRESH] && s2.owner == s.owner && s2.armed == s.armed
    && s.linked <= s2.linked <= s.linked + {|s.ctxs|} && Woken(s, s2)
  }

  /** Busy threads stand where they stood, and those that have started are neither looping nor holding a lock. */
  ghost predicate Woken(s: State, s2: State) {
    && |s2.threads| == |s.threads|
    && forall t :: 0 <= t < |s.threads| ==> s2.threads[t] == s.threads[t] || s.threads[t] == []
  }

  lemma WokenLoops(s: State, s2: State, c: nat)
    requires OwnersOk(s) && s2.owner == s.owner && Woken(s, s2)
    ensures HasLoop(s2, c) <==> HasLoop(s, c)
    ensures Removing(s, c) ==> Removing(s2, c)
    ensures Stopping(s, c) ==> Stopping(s2, c)
  {
    if c in s.owner { assert HasLock(s.threads[s.owner[c]], c); }
    if Removing(s, c) {
      var t, i :| RemovesAt(s.threads, t, i, c);
      assert RemovesAt(s2.threads, t, i, c);
    }
    if Stopping(s, c) {
      var t, i :| StopsAt(s.threads, t, i, c);
      assert StopsAt(s2.threads, t, i, c);
    }
  }

  lemma WokenPending(s: State, s2: State, p: nat, k: Key)
    requires OwnersOk(s) && s2.owner == s.owner && Woken(s, s2) && Pending(s, p, k)
    ensures Pending(s2, p, k)
  {
    var i :| PendingAt(s.threads[s.owner[p]], i, p, k);
    assert PendingAt(s2.threads[s.owner[p]], i, p, k);
  }

  /** A link is not broken by an idle thread that starts. */
  lemma WokenLink(s: State, s2: State, d: nat, p: nat, k: Key)
    requires OwnersOk(s) && s2.owner == s.owner && Woken(s, s2) && d < |s.ctxs| <= |s2.ctxs| && p < |s.ctxs|
    requires Linked(s, d, p, k)
    requires s2.ctxs[d] == s.ctxs[d] && s2.ctxs[p] == s.ctxs[p]
    ensures Linked(s2, d, p, k)
  {
    WokenLoops(s, s2, d);
    WokenLoops(s, s2, p);
    if !Through(s, d) && s.ctxs[p].err.Some? { WokenPending(s, s2, p, k); }
  }

  lemma WokenOwners(s: State, s2: State)
    requires OwnersOk(s) && s2.owner == s.owner && Woken(s, s2)
    ensures OwnersOk(s2)
  {
    forall c | c in s2.owner ensures s2.owner[c] < |s2.threads| && HasLock(s2.threads[s2.owner[c]], c) {
      assert HasLock(s.threads[s.owner[c]], c);
    }
  }

  lemma AllocatedCtxs(s: State, s2: State, x: Shape)
    requires CtxsOk(s) && Allocated(s, s2, x) && (x.parent.Some? ==> x.parent.value in s.linked)
    ensures CtxsOk(s2)
  {
    forall c | 0 <= c < |s2.ctxs| ensures CtxOk(s2, c) {
      if c < |s.ctxs| { assert CtxOk(s, c); }
    }
    forall p, k | 0 <= p < |s2.ctxs| && k in s2.ctxs[p].children ensures Registered(s2, p, k) {
      assert Registered(s, p, k);
      AboveStable(s.shape, x, k.id);
    }
  }

  lemma AllocatedFrame(s: State, s2: State, x: Shape, t: nat, f: Frame)
    requires OwnersOk(s) && Allocated(s, s2, x) && FrameOk(s, t, f)
    ensures FrameOk(s2, t, f)
  {
    AboveStable(s.shape, x, f.c);
    WokenLoops(s, s2, f.c);
  }

  lemma AllocatedStack(s: State, s2: State, x: Shape, t: nat)
    requires Inv(s) && Allocated(s, s2, x) && t < |s.threads| && s2.threads[t] == s.threads[t]
    ensures StackOk(s2, t)
  {
    assert StackOk(s, t);
    var stack := s.threads[t];
    forall i | 0 <= i < |stack| ensures FrameOk(s2, t, stack[i]) && Fits(s2.shape, stack, i) {
      assert FrameOk(s, t, stack[i]) && Fits(s.shape, stack, i);
      AllocatedFrame(s, s2, x, t, stack[i]);
      AboveStable(s.shape, x, stack[i].c);
    }
  }

  lemma AllocatedLinks(s: State, s2: State, x: Shape)
    requires Inv(s) && Allocated(s, s2, x) && (|s.ctxs| in s2.linked ==> x.kind.ValueCtx?)
    ensures LinksOk(s2)
  {
    forall d | 0 <= d < |s2.ctxs| ensures LinkOk(s2, d) && EndsOk(s2, d) {
      if d < |s.ctxs| {
        assert LinkOk(s, d) && EndsOk(s, d);
        AboveStable(s.shape, x, d);
        WokenLoops(s, s2, d);
        if d in s.linked && !s.shape[d].kind.ValueCtx? && Above(s.shape, d).Some? {
          WokenLink(s, s2, d, Above(s.shape, d).value, KeyOf(s.shape, d));
        }
      }
    }
  }

  lemma StepNew(s: State, t: nat, parent: Option<nat>, kind: Kind)
    requires Inv(s) && Sane(s) && Enabled(s, New(t, parent, kind))
    ensures Inv(DoNew(s, t, parent, kind))
  {
    var s2, x := DoNew(s, t, parent, kind), Shape(parent, kind);
    AllocatedCtxs(s, s2, x);
    forall t2 | 0 <= t2 < |s2.threads| ensures StackOk(s2, t2) {
      if s2.threads[t2] == s.threads[t2] { AllocatedStack(s, s2, x, t2); }
    }
    WokenOwners(s, s2);
    NewBuilders(s, s2, t, x);
    AllocatedLinks(s, s2, x);
  }

  lemma NewBuilders(s: State, s2: State, t: nat, x: Shape)
    requires Inv(s) && Allocated(s, s2, x) && t < |s.threads| && s.threads[t] == []
    requires forall t1 :: 0 <= t1 < |s.threads| && t1 != t ==> s2.threads[t1] == s.threads[t1]
    requires if |s.ctxs| in s2.linked then s2.threads == s.threads else s2.threads[t] == [Propagate(|s.ctxs|)]
    ensures BuildersOk(s2)
  {
    var c0 := |s.ctxs|;
    forall c | 0 <= c < |s2.ctxs| && c !in s2.linked
      ensures exists t1 :: 0 <= t1 < |s2.threads| && Builds(s2.threads[t1], c)
    {
      if c == c0 {
        assert Builds(s2.threads[t], c);
      } else {
        var t1 :| 0 <= t1 < |s.threads| && Builds(s.threads[t1], c);
        assert Builds(s2.threads[t1], c);
      }
    }
    forall t1 | 0 <= t1 < |s.threads| ensures !Builds(s.threads[t1], c0) {
      assert StackOk(s, t1);
      if s.threads[t1] != [] { assert FrameOk(s, t1, s.threads[t1][0]); }
    }
  }

  lemma StepCall(s: State, t: nat, c: nat, e: Error)
    requires Inv(s) && Sane(s) && Enabled(s, Call(t, c, e))
    ensures Inv(Do(s, Call(t, c, e)))
  {
    var s2 := Do(s, Call(t, c, e));
    CtxsStep(s, s2, |s.ctxs|);
    forall t2 | 0 <= t2 < |s2.threads| ensures StackOk(s2, t2) {
      if t2 != t { CallStack(s, s2, t2); }
    }
    WokenOwners(s, s2);
    forall t1, c1 | 0 <= t1 < |s.threads| ensures Builds(s2.threads[t1], c1) <==> Builds(s.threads[t1], c1) {
    }
    forall d | 0 <= d < |s2.ctxs| ensures LinkOk(s2, d) && EndsOk(s2, d) {
      assert LinkOk(s, d) && EndsOk(s, d);
      WokenLoops(s, s2, d);
      if d in s.linked && !s.shape[d].kind.ValueCtx? && Above(s.shape, d).Some? {
        WokenLink(s, s2, d, Above(s.shape, d).value, KeyOf(s.shape, d));
      }
    }
  }

  lemma CallStack(s: State, s2: State, t: nat)
    requires Inv(s) && t < |s.threads| && s2 == s.(threads := s2.threads) && Woken(s, s2)
    requires s2.threads[t] == s.threads[t]
    ensures StackOk(s2, t)
  {
    assert StackOk(s, t);
    forall i | 0 <= i < |s.threads[t]| ensures FrameOk(s2, t, s.threads[t][i]) {
      assert FrameOk(s, t, s.threads[t][i]);
      WokenLoops(s, s2, s.threads[t][i].c);
    }
  }

  // ---------- every step ----------

  lemma StepInv(s: State, step: Step)
    requires Inv(s) && Sane(s) && Enabled(s, step)
    ensures Inv(Do(s, step))
  {
    match step
    case New(t, parent, kind) => StepNew(s, t, parent, kind);
    case Call(t, c, e) => StepCall(s, t, c, e);
    case Late(t) => StepLate(s, t);
    case Run(t, k) => InvLocal(s, t); StepRun(s, t, k);
  }

  lemma StepRun(s: State, t: nat, k: Key)
    requires Inv(s) && Sane(s) && Enabled(s, Run(t, k)) && Local(s, t)
    ensures Inv(Do(s, Run(t, k)))
  {
    match Top(s, t)
    case Propagate(c) =>
      if Above(s.shape, c).None? { StepRootless(s, t, c); }
      else if s.ctxs[Above(s.shape, c).value].err.Some? { StepInherit(s, t, c, Above(s.shape, c).value); }
      else { StepRegister(s, t, c, Above(s.shape, c).value); }
    case Holding(c, p) => StepRelease(s, t, c, p);
    case SetTimer(c) => StepSetTimer(s, t, c);
    case CancelStart(c, e, remove) =>
      if s.ctxs[c].err.Some? { StepAlready(s, t, c, e, remove); } else { StepEnter(s, t, c, e, remove); }
    case CancelLoop(c, e, remove, todo) =>
      if todo != {} { StepPick(s, t, Top(s, t), k); } else { StepFinish(s, t, Top(s, t), k); }
    case RemoveStart(c) => StepRemove(s, t, c);
    case StopTimer(c) => StepStopTimer(s, t, c);
  }
}
