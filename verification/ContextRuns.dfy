/**
 Every interleaving of the constructors, cancel functions and timers of a context tree, at the grain
 of lock operations: a thread holds a context's lock while it cancels the children one by one, and
 other threads run in between.
 */
module ContextRuns {
  import opened Machine
  import opened ContextTree

  /** Where a thread stands inside one call; a thread's stack has the innermost call last. */
  datatype Frame =
    | Propagate(c: nat)                                          // propagateCancel, before the parent's lock
    | Holding(c: nat, p: nat)                                    // propagateCancel, cancelling c under p's lock
    | SetTimer(c: nat)                                           // WithDeadline, before c's lock for its timer
    | CancelStart(c: nat, e: Error, remove: bool)                // cancel, before c's lock
    | CancelLoop(c: nat, e: Error, remove: bool, todo: set<Key>) // cancel, under c's lock, children left to cancel
    | RemoveStart(c: nat)                                        // cancel, before the parent's lock for the removal
    | StopTimer(c: nat)                                          // cancel of a timer context, before c's lock again

  /**
   `linked` are the contexts whose constructor has done its propagateCancel, `armed` those that have a timer;
   `owner` says which thread holds which lock.
   */
  datatype State = State(shape: seq<Shape>, ctxs: seq<Ctx>, linked: set<nat>, armed: set<nat>,
                         owner: map<nat, nat>, threads: seq<seq<Frame>>)

  datatype Step =
    | New(t: nat, parent: Option<nat>, kind: Kind)   // WithCancel, WithDeadline or WithValue called by thread t
    | Call(t: nat, c: nat, e: Error)                 // a cancel function called, or a timer fired
    | Late(t: nat)                                   // WithDeadline finds that its deadline has passed
    | Run(t: nat, k: Key)                            // thread t takes one step; k is the child a range loop picks

  // ---------- steps ----------

  predicate Sane(s: State) {
    && IsTree(s.shape) && |s.ctxs| == |s.shape|
    && (forall c :: c in s.linked ==> c < |s.ctxs|)
    && (forall t, i :: 0 <= t < |s.threads| && 0 <= i < |s.threads[t]| ==> s.threads[t][i].c < |s.ctxs|)
    && (forall c, k :: 0 <= c < |s.ctxs| && k in s.ctxs[c].children ==> k.id < |s.ctxs|)
    && (forall t, i :: 0 <= t < |s.threads| && 0 <= i < |s.threads[t]| && s.threads[t][i].CancelLoop? ==>
          s.threads[t][i].todo <= s.ctxs[s.threads[t][i].c].children)
    && (forall t, i :: 0 <= t < |s.threads| && 0 <= i < |s.threads[t]| && s.threads[t][i].Holding? ==>
      s.threads[t][i].p < |s.ctxs|)
  }

  function Top(s: State, t: nat): Frame
    requires t < |s.threads| && s.threads[t] != []
  {
    s.threads[t][|s.threads[t]| - 1]
  }

  /** The lock a frame needs before it can go on. */
  function Awaits(s: State, f: Frame): Option<nat>
    requires IsTree(s.shape) && f.c < |s.shape|
  {
    match f
    case Propagate(c) => Above(s.shape, c)
    case SetTimer(c) => Some(c)
    case CancelStart(c, _, _) => Some(c)
    case RemoveStart(c) => Above(s.shape, c)
    case StopTimer(c) => Some(c)
    case _ => None
  }

  predicate Enabled(s: State, step: Step)
    requires Sane(s)
  {
    match step
    case New(t, parent, kind) =>
      t < |s.threads| && s.threads[t] == [] && (parent.Some? ==> parent.value in s.linked)
    case Call(t, c, e) =>
      t < |s.threads| && s.threads[t] == [] && c in s.linked && !s.shape[c].kind.ValueCtx?
      && (e == DeadlineExceeded ==> c in s.armed)
    case Late(t) => t < |s.threads| && s.threads[t] != [] && Top(s, t).SetTimer?
    case Run(t, k) =>
      && t < |s.threads| && s.threads[t] != []
      && var f := Top(s, t);
         && (Awaits(s, f).Some? ==> Awaits(s, f).value !in s.owner)
         && (f.CancelLoop? && f.todo != {} ==> k in f.todo)
  }

  /** s with thread t's innermost frame replaced by `frames`. */
  function SetTop(s: State, t: nat, frames: seq<Frame>): State
    requires t < |s.threads| && s.threads[t] != []
  {
    s.(threads := s.threads[t := s.threads[t][..|s.threads[t]| - 1] + frames])
  }

  function DoNew(s: State, t: nat, parent: Option<nat>, kind: Kind): State
    requires Sane(s) && Enabled(s, New(t, parent, kind))
  {
    var c := |s.ctxs|;
    State(s.shape + [Shape(parent, kind)], s.ctxs + [FRESH],
          if kind.ValueCtx? then s.linked + {c} else s.linked, s.armed, s.owner,
          if kind.ValueCtx? then s.threads else s.threads[t := [Propagate(c)]])
  }

  /** What a constructor goes on to once its context is linked. */
  function AfterLink(s: State, c: nat): seq<Frame>
    requires c < |s.shape|
  {
    if s.shape[c].kind.TimerCtx? then [SetTimer(c)] else []
  }

  /** What cancel goes on to after the part it shares with a plain cancel context. */
  function AfterCancel(s: State, c: nat): seq<Frame>
    requires c < |s.shape|
  {
    if s.shape[c].kind.TimerCtx? then [StopTimer(c)] else []
  }

  function DoPropagate(s: State, t: nat, c: nat): State
    requires IsTree(s.shape) && |s.ctxs| == |s.shape| && t < |s.threads| && s.threads[t] != [] && c < |s.ctxs|
  {
    match Above(s.shape, c)
    case None => SetTop(s, t, AfterLink(s, c)).(linked := s.linked + {c})
    case Some(p) =>
      match s.ctxs[p].err
      case Some(e) => SetTop(s, t, [Holding(c, p), CancelStart(c, e, false)]).(owner := s.owner[p := t])
      case None =>
        SetTop(s, t, AfterLink(s, c))
        .(ctxs := SetChildren(s.ctxs, p, s.ctxs[p].children + {KeyOf(s.shape, c)}), linked := s.linked + {c})
  }

  function DoRelease(s: State, t: nat, c: nat, p: nat): State
    requires t < |s.threads| && s.threads[t] != [] && c < |s.shape|
  {
    SetTop(s, t, AfterLink(s, c)).(owner := s.owner - {p}, linked := s.linked + {c})
  }

  /** The timer is started unless c has been cancelled in the meantime. */
  function DoSetTimer(s: State, t: nat, c: nat): State
    requires t < |s.threads| && s.threads[t] != [] && c < |s.ctxs|
  {
    SetTop(s, t, []).(armed := if s.ctxs[c].err.None? then s.armed + {c} else s.armed)
  }

  function DoLate(s: State, t: nat): State
    requires t < |s.threads| && s.threads[t] != []
  {
    SetTop(s, t, [CancelStart(Top(s, t).c, DeadlineExceeded, true)])
  }

  function DoCancelStart(s: State, t: nat, c: nat, e: Error, remove: bool): State
    requires IsTree(s.shape) && |s.ctxs| == |s.shape| && t < |s.threads| && s.threads[t] != [] && c < |s.ctxs|
  {
    if s.ctxs[c].err.Some? then SetTop(s, t, AfterCancel(s, c))
    else
      SetTop(s, t, [CancelLoop(c, e, remove, s.ctxs[c].children)])
      .(ctxs := s.ctxs[c := Ctx(Some(e), s.ctxs[c].closes + 1, s.ctxs[c].children)], owner := s.owner[c := t])
  }

  function DoCancelLoop(s: State, t: nat, f: Frame, k: Key): State
    requires IsTree(s.shape) && |s.ctxs| == |s.shape| && t < |s.threads| && s.threads[t] != [] && f.CancelLoop?
    requires f.c < |s.ctxs|
  {
    if f.todo != {} then SetTop(s, t, [f.(todo := f.todo - {k}), CancelStart(k.id, f.e, false)])
    else
      SetTop(s, t, if f.remove then [RemoveStart(f.c)] else AfterCancel(s, f.c))
      .(ctxs := SetChildren(s.ctxs, f.c, {}), owner := s.owner - {f.c})
  }

  function DoRemove(s: State, t: nat, c: nat): State
    requires IsTree(s.shape) && |s.ctxs| == |s.shape| && t < |s.threads| && s.threads[t] != [] && c < |s.ctxs|
  {
    match Above(s.shape, c)
    case None => SetTop(s, t, AfterCancel(s, c))
    case Some(p) =>
      SetTop(s, t, AfterCancel(s, c)).(ctxs := SetChildren(s.ctxs, p, s.ctxs[p].children - {CancelKey(c)}))
  }

  function DoStopTimer(s: State, t: nat, c: nat): State
    requires t < |s.threads| && s.threads[t] != []
  {
    SetTop(s, t, []).(armed := s.armed - {c})
  }

  function Do(s: State, step: Step): State
    requires Sane(s) && Enabled(s, step)
  {
    match step
    case New(t, parent, kind) => DoNew(s, t, parent, kind)
    case Call(t, c, e) => s.(threads := s.threads[t := [CancelStart(c, e, true)]])
    case Late(t) => DoLate(s, t)
    case Run(t, k) =>
      match Top(s, t)
      case Propagate(c) => DoPropagate(s, t, c)
      case Holding(c, p) => DoRelease(s, t, c, p)
      case SetTimer(c) => DoSetTimer(s, t, c)
      case CancelStart(c, e, remove) => DoCancelStart(s, t, c, e, remove)
      case CancelLoop(_, _, _, _) => DoCancelLoop(s, t, Top(s, t), k)
      case RemoveStart(c) => DoRemove(s, t, c)
      case StopTimer(c) => DoStopTimer(s, t, c)
  }
}
