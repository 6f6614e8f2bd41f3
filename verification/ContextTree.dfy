/**
 Cancellation of a tree of contexts: what one cancel call does, as a function of the registered
 children, and the recursive method that does it in whatever order the child set is visited.
 */
module ContextTree {
  import opened Machine

  datatype Error = Canceled | DeadlineExceeded

  datatype Kind = CancelCtx | TimerCtx(deadline: int) | ValueCtx

  /** The fields of a context that never change. A context's parent is older than it; None is Background. */
  datatype Shape = Shape(parent: Option<nat>, kind: Kind)

  /**
   A key of a children map. WithCancel registers the *cancelCtx itself, WithDeadline the *timerCtx
   around it, and the two are different keys.
   */
  datatype Key = CancelKey(id: nat) | TimerKey(id: nat)

  /** The fields under a context's lock; `closes` counts the close(done) calls, a nil children map is empty. */
  datatype Ctx = Ctx(err: Option<Error>, closes: nat, children: set<Key>)

  const FRESH: Ctx := Ctx(None, 0, {})

  // ---------- the tree ----------

  predicate IsTree(shape: seq<Shape>) {
    forall c :: 0 <= c < |shape| && shape[c].parent.Some? ==> shape[c].parent.value < c
  }

  /** parentCancelCtx: the nearest ancestor that can be cancelled. */
  function Nearest(shape: seq<Shape>, parent: Option<nat>): (p: Option<nat>)
    requires IsTree(shape) && (parent.Some? ==> parent.value < |shape|)
    ensures p.Some? ==> parent.Some? && p.value <= parent.value && !shape[p.value].kind.ValueCtx?
    decreases if parent.Some? then parent.value + 1 else 0
  {
    if parent.None? || !shape[parent.value].kind.ValueCtx? then parent
    else Nearest(shape, shape[parent.value].parent)
  }

  /** The contexts of a chain are the value contexts between a child and p, which is none. */
  ghost predicate PastValues(shape: seq<Shape>, parent: Option<nat>, chain: seq<nat>, p: Option<nat>) {
    && (forall i :: 0 <= i < |chain| ==> chain[i] < |shape| && shape[chain[i]].kind.ValueCtx?)
    && (forall i :: 0 < i < |chain| ==> shape[chain[i - 1]].parent == Some(chain[i]))
    && (if chain == [] then parent == p else parent == Some(chain[0]) && shape[chain[|chain| - 1]].parent == p)
    && (p.Some? ==> p.value < |shape| && !shape[p.value].kind.ValueCtx?)
  }

  lemma {:induction false} NearestMeans(shape: seq<Shape>, parent: Option<nat>) returns (chain: seq<nat>)
    requires IsTree(shape) && (parent.Some? ==> parent.value < |shape|)
    ensures PastValues(shape, parent, chain, Nearest(shape, parent))
    decreases if parent.Some? then parent.value + 1 else 0
  {
    chain := [];
    if parent.Some? && shape[parent.value].kind.ValueCtx? {
      var rest := NearestMeans(shape, shape[parent.value].parent);
      chain := [parent.value] + rest;
    }
  }

  /** The cancellable context that c propagates from. */
  function Above(shape: seq<Shape>, c: nat): (p: Option<nat>)
    requires IsTree(shape) && c < |shape|
    ensures p.Some? ==> p.value < c
  {
    Nearest(shape, shape[c].parent)
  }

  function KeyOf(shape: seq<Shape>, c: nat): Key
    requires c < |shape|
  {
    if shape[c].kind.TimerCtx? then TimerKey(c) else CancelKey(c)
  }

  /** k is the key under which its context registers with p. */
  ghost predicate RegisteredKey(shape: seq<Shape>, p: nat, k: Key)
    requires IsTree(shape)
  {
    k.id < |shape| && !shape[k.id].kind.ValueCtx? && k == KeyOf(shape, k.id) && Above(shape, k.id) == Some(p)
  }

  lemma {:induction false} NearestStable(shape: seq<Shape>, more: seq<Shape>, parent: Option<nat>)
    requires IsTree(shape) && IsTree(shape + more) && (parent.Some? ==> parent.value < |shape|)
    ensures Nearest(shape + more, parent) == Nearest(shape, parent)
    decreases if parent.Some? then parent.value + 1 else 0
  {
    if parent.Some? && shape[parent.value].kind.ValueCtx? {
      assert (shape + more)[parent.value] == shape[parent.value];
      NearestStable(shape, more, shape[parent.value].parent);
    }
  }

  lemma AboveStable(shape: seq<Shape>, x: Shape, c: nat)
    requires IsTree(shape) && IsTree(shape + [x]) && c < |shape|
    ensures Above(shape + [x], c) == Above(shape, c) && KeyOf(shape + [x], c) == KeyOf(shape, c)
  {
    assert (shape + [x])[c] == shape[c];
    NearestStable(shape, [x], shape[c].parent);
  }

  function SetChildren(ctxs: seq<Ctx>, p: nat, children: set<Key>): seq<Ctx>
    requires p < |ctxs|
  {
    ctxs[p := ctxs[p].(children := children)]
  }

  /**
   A context of a tree with no call in progress. Below a cancelled context all are cancelled. It is registered above
   exactly while the one above is live and it is itself live; but a timer context even when it has been cancelled.
   */
  ghost predicate TidyAt(shape: seq<Shape>, ctxs: seq<Ctx>, c: nat)
    requires IsTree(shape) && c < |shape| == |ctxs|
  {
    && ctxs[c].closes == (if ctxs[c].err.Some? then 1 else 0)
    && (shape[c].kind.ValueCtx? ==> ctxs[c] == FRESH)
    && (ctxs[c].err.Some? ==> ctxs[c].children == {})
    && (!shape[c].kind.ValueCtx? && Above(shape, c).Some? ==>
          var p := Above(shape, c).value;
          && (ctxs[p].err.Some? ==> ctxs[c].err.Some?)
          && (KeyOf(shape, c) in ctxs[p].children <==>
            ctxs[p].err.None? && (ctxs[c].err.None? || shape[c].kind.TimerCtx?)))
  }

  ghost predicate Tidy(shape: seq<Shape>, ctxs: seq<Ctx>) {
    && IsTree(shape) && |ctxs| == |shape|
    && (forall c :: 0 <= c < |ctxs| ==> TidyAt(shape, ctxs, c))
    && (forall p, k :: 0 <= p < |ctxs| && k in ctxs[p].children ==> RegisteredKey(shape, p, k))
  }

  // ---------- the effect of cancel ----------

  /** c and its registered descendants, as far as they are all still live. */
  function Marked(ctxs: seq<Ctx>, c: nat): set<nat>
    requires c < |ctxs|
    decreases |ctxs| - c
  {
    if ctxs[c].err.Some? then {} else {c} + MarkedBelow(ctxs, c, ctxs[c].children)
  }

  /** The descendants marked through the given children of c. */
  function MarkedBelow(ctxs: seq<Ctx>, c: nat, keys: set<Key>): set<nat>
    requires c < |ctxs|
    decreases |ctxs| - c, 0
  {
    set k, d | k in keys && c < k.id < |ctxs| && d in Marked(ctxs, k.id) :: d
  }

  function Cancelled(x: Ctx, e: Error): Ctx { Ctx(Some(e), x.closes + 1, {}) }

  function CancelAll(ctxs: seq<Ctx>, marked: set<nat>, e: Error): (r: seq<Ctx>)
    ensures |r| == |ctxs|
  {
    seq(|ctxs|, i requires 0 <= i < |ctxs| => if i in marked then Cancelled(ctxs[i], e) else ctxs[i])
  }

  /** What cancel(c, e) does to the whole tree. */
  function CancelTree(ctxs: seq<Ctx>, c: nat, e: Error): (r: seq<Ctx>)
    requires c < |ctxs|
    ensures |r| == |ctxs|
  {
    CancelAll(ctxs, Marked(ctxs, c), e)
  }

  // ---------- properties of the marked set ----------

  lemma {:induction false} MarkedLive(ctxs: seq<Ctx>, c: nat)
    requires c < |ctxs|
    ensures forall d :: d in Marked(ctxs, c) ==> c <= d < |ctxs| && ctxs[d].err.None?
    decreases |ctxs| - c
  {
    forall d | d in Marked(ctxs, c) ensures c <= d < |ctxs| && ctxs[d].err.None? {
      if d != c {
        assert d in MarkedBelow(ctxs, c, ctxs[c].children);
        var k :| k in ctxs[c].children && c < k.id < |ctxs| && d in Marked(ctxs, k.id);
        MarkedLive(ctxs, k.id);
      }
    }
  }

  /** The live registered children of a marked context are marked. */
  lemma {:induction false} MarkedClosed(ctxs: seq<Ctx>, c: nat, d: nat, k: Key)
    requires c < |ctxs| && d in Marked(ctxs, c) && d < |ctxs| && k in ctxs[d].children && d < k.id < |ctxs|
    requires ctxs[k.id].err.None?
    ensures k.id in Marked(ctxs, c)
    decreases |ctxs| - c
  {
    if d == c {
      assert k.id in Marked(ctxs, k.id);
    } else {
      var k1 :| k1 in ctxs[c].children && c < k1.id < |ctxs| && d in Marked(ctxs, k1.id);
      MarkedClosed(ctxs, k1.id, d, k);
    }
  }

  /** A marked context other than c is a registered child of a marked one. */
  lemma {:induction false} MarkedParent(ctxs: seq<Ctx>, c: nat, d: nat) returns (p: nat, k: Key)
    requires c < |ctxs| && d in Marked(ctxs, c) && d != c
    ensures p in Marked(ctxs, c) && p < d && p < |ctxs| && k in ctxs[p].children && k.id == d
    decreases |ctxs| - c
  {
    MarkedLive(ctxs, c);
    k :| k in ctxs[c].children && c < k.id < |ctxs| && d in Marked(ctxs, k.id);
    if k.id == d {
      p := c;
    } else {
      var k1 := k;
      p, k := MarkedParent(ctxs, k1.id, d);
    }
  }

  ghost predicate ChildOf(ctxs: seq<Ctx>, p: nat, d: nat) {
    p < d < |ctxs| && p < |ctxs| && exists k :: k in ctxs[p].children && k.id == d
  }

  /** A path of live contexts, each registered with the one before. */
  ghost predicate LiveChain(ctxs: seq<Ctx>, chain: seq<nat>) {
    && chain != []
    && (forall i :: 0 <= i < |chain| ==> chain[i] < |ctxs| && ctxs[chain[i]].err.None?)
    && (forall i :: 0 < i < |chain| ==> ChildOf(ctxs, chain[i - 1], chain[i]))
  }

  /** The marked contexts are exactly those that a live chain of registrations leads to. */
  lemma {:induction false} MarkedIffChain(ctxs: seq<Ctx>, c: nat, d: nat)
    requires c < |ctxs|
    ensures d in Marked(ctxs, c) <==> exists chain :: LiveChain(ctxs, chain) && chain[0] == c && chain[|chain| - 1] == d
  {
    if d in Marked(ctxs, c) {
      var chain := ChainTo(ctxs, c, d);
    }
    if chain :| LiveChain(ctxs, chain) && chain[0] == c && chain[|chain| - 1] == d {
      ChainMarked(ctxs, chain);
    }
  }

  lemma {:induction false} ChainTo(ctxs: seq<Ctx>, c: nat, d: nat) returns (chain: seq<nat>)
    requires c < |ctxs| && d in Marked(ctxs, c)
    ensures LiveChain(ctxs, chain) && chain[0] == c && chain[|chain| - 1] == d
    decreases d
  {
    MarkedLive(ctxs, c);
    if d == c {
      chain := [c];
    } else {
      var p, k := MarkedParent(ctxs, c, d);
      chain := ChainTo(ctxs, c, p);
      chain := chain + [d];
    }
  }

  lemma {:induction false} ChainMarked(ctxs: seq<Ctx>, chain: seq<nat>)
    requires LiveChain(ctxs, chain)
    ensures chain[|chain| - 1] in Marked(ctxs, chain[0])
    decreases |chain|
  {
    if |chain| > 1 {
      var n := |chain| - 1;
      ChainMarked(ctxs, chain[..n]);
      MarkedLive(ctxs, chain[0]);
      assert ChildOf(ctxs, chain[n - 1], chain[n]);
      var k :| k in ctxs[chain[n - 1]].children && k.id == chain[n];
      MarkedClosed(ctxs, chain[0], chain[n - 1], k);
    }
  }

  ghost predicate AgreeFrom(a: seq<Ctx>, b: seq<Ctx>, k: nat) {
    |a| == |b| && forall i :: k <= i < |a| ==> a[i] == b[i]
  }

  lemma {:induction false} MarkedLocal(a: seq<Ctx>, b: seq<Ctx>, c: nat)
    requires c < |a| && AgreeFrom(a, b, c)
    ensures Marked(a, c) == Marked(b, c)
    decreases |a| - c
  {
    forall k | k in a[c].children && c < k.id < |a| ensures Marked(a, k.id) == Marked(b, k.id) {
      MarkedLocal(a, b, k.id);
    }
  }

  /**
   After cancelling a set closed under live children, what a later cancel would mark is what it would have
   marked, less that set.
   */
  lemma {:induction false} MarkedAfter(ctxs: seq<Ctx>, done: set<nat>, e: Error, c: nat)
    requires c < |ctxs|
    requires forall d, k ::
      d in done && c <= d < |ctxs| && k in ctxs[d].children && d < k.id < |ctxs| && ctxs[k.id].err.None?
      ==> k.id in done
    ensures Marked(CancelAll(ctxs, done, e), c) == Marked(ctxs, c) - done
    decreases |ctxs| - c
  {
    if ctxs[c].err.None? {
      var after := CancelAll(ctxs, done, e);
      forall k | k in ctxs[c].children && c < k.id < |ctxs|
        ensures Marked(after, k.id) == Marked(ctxs, k.id) - done
      {
        MarkedAfter(ctxs, done, e, k.id);
      }
      if c in done {
        forall d | d in Marked(ctxs, c) ensures d in done {
          if d != c {
            assert d in MarkedBelow(ctxs, c, ctxs[c].children);
            var k :| k in ctxs[c].children && c < k.id < |ctxs| && d in Marked(ctxs, k.id);
            assert k.id in done;
            assert d !in Marked(after, k.id);
          }
        }
        assert Marked(after, c) == {};
      } else {
        assert Marked(after, c) == {c} + MarkedBelow(after, c, ctxs[c].children);
        forall d
          ensures d in MarkedBelow(after, c, ctxs[c].children)
                  <==> d in MarkedBelow(ctxs, c, ctxs[c].children) && d !in done
        {
          if d in MarkedBelow(ctxs, c, ctxs[c].children) && d !in done {
            var k :| k in ctxs[c].children && c < k.id < |ctxs| && d in Marked(ctxs, k.id);
            assert d in Marked(after, k.id);
          }
          if d in MarkedBelow(after, c, ctxs[c].children) {
            var k :| k in ctxs[c].children && c < k.id < |ctxs| && d in Marked(after, k.id);
            assert d in Marked(ctxs, k.id);
          }
        }
      }
    }
  }

  lemma CancelTwice(ctxs: seq<Ctx>, done: set<nat>, more: set<nat>, e: Error)
    requires done !! more
    ensures CancelAll(CancelAll(ctxs, done, e), more, e) == CancelAll(ctxs, done + more, e)
  {
  }

  // ---------- the recursive method ----------

  /** What cancelling the children in `keys` (all but the still unvisited ones) adds to marking c. */
  function Visited(ctxs: seq<Ctx>, c: nat, todo: set<Key>): set<nat>
    requires c < |ctxs|
  {
    {c} + MarkedBelow(ctxs, c, ctxs[c].children - todo)
  }

  /** A context tree: every registered child is younger than its parent. */
  ghost predicate Younger(ctxs: seq<Ctx>) {
    forall c, k :: 0 <= c < |ctxs| && k in ctxs[c].children ==> c < k.id < |ctxs|
  }

  /** The nearest deadline at or above a context. */
  function DeadlineOf(shape: seq<Shape>, c: Option<nat>): Option<int>
    requires IsTree(shape) && (c.Some? ==> c.value < |shape|)
    decreases if c.Some? then c.value + 1 else 0
  {
    match c
    case None => None
    case Some(c) => if shape[c].kind.TimerCtx? then Some(shape[c].kind.deadline) else DeadlineOf(shape, shape[c].parent)
  }

  lemma {:induction false} DeadlineStable(shape: seq<Shape>, more: seq<Shape>, c: Option<nat>)
    requires IsTree(shape) && IsTree(shape + more) && (c.Some? ==> c.value < |shape|)
    ensures DeadlineOf(shape + more, c) == DeadlineOf(shape, c)
    decreases if c.Some? then c.value + 1 else 0
  {
    if c.Some? {
      assert (shape + more)[c.value] == shape[c.value];
      DeadlineStable(shape, more, shape[c.value].parent);
    }
  }

  /**
   What propagateCancel does for c: register it with its nearest cancellable ancestor, or cancel it like that
   ancestor.
   */
  function Propagated(shape: seq<Shape>, ctxs: seq<Ctx>, c: nat): (r: seq<Ctx>)
    requires IsTree(shape) && c < |ctxs| == |shape|
    ensures |r| == |ctxs|
  {
    match Above(shape, c)
    case None => ctxs
    case Some(p) =>
      match ctxs[p].err
      case Some(e) => CancelTree(ctxs, c, e)
      case None => SetChildren(ctxs, p, ctxs[p].children + {KeyOf(shape, c)})
  }

  /**
   What a call of c's cancel function does: nothing when c has an error, else cancel its tree and delete its
   *cancelCtx key.
   */
  function CancelledBy(shape: seq<Shape>, ctxs: seq<Ctx>, c: nat, e: Error): (r: seq<Ctx>)
    requires IsTree(shape) && c < |ctxs| == |shape|
    ensures |r| == |ctxs|
  {
    if ctxs[c].err.Some? then ctxs
    else
      var after := CancelTree(ctxs, c, e);
      match Above(shape, c)
      case None => after
      case Some(p) => SetChildren(after, p, after[p].children - {CancelKey(c)})
  }

  // ---------- tidy trees stay tidy ----------

  lemma TidyYounger(shape: seq<Shape>, ctxs: seq<Ctx>)
    requires Tidy(shape, ctxs)
    ensures Younger(ctxs)
  {
    forall p, k | 0 <= p < |ctxs| && k in ctxs[p].children
      ensures p < k.id < |ctxs|
    {
      assert RegisteredKey(shape, p, k);
    }
  }

  /** With c, the youngest, just allocated. */
  ghost predicate TidyBut(shape: seq<Shape>, ctxs: seq<Ctx>, c: nat) {
    && IsTree(shape) && |ctxs| == |shape| == c + 1 && ctxs[c] == FRESH
    && (forall d :: 0 <= d < c ==> TidyAt(shape, ctxs, d))
    && (forall p, k :: 0 <= p < |ctxs| && k in ctxs[p].children ==> RegisteredKey(shape, p, k) && k.id < c)
  }

  lemma TidyButYounger(shape: seq<Shape>, ctxs: seq<Ctx>, c: nat)
    requires TidyBut(shape, ctxs, c)
    ensures Younger(ctxs)
  {
    forall p, k | 0 <= p < |ctxs| && k in ctxs[p].children
      ensures p < k.id < |ctxs|
    {
      assert RegisteredKey(shape, p, k);
    }
  }

  lemma TidyGrown(shape: seq<Shape>, ctxs: seq<Ctx>, x: Shape)
    requires Tidy(shape, ctxs) && (x.parent.Some? ==> x.parent.value < |shape|)
    ensures TidyBut(shape + [x], ctxs + [FRESH], |shape|)
    ensures x.kind.ValueCtx? ==> Tidy(shape + [x], ctxs + [FRESH])
  {
    var shape1, ctxs1 := shape + [x], ctxs + [FRESH];
    forall d | 0 <= d < |ctxs| ensures TidyAt(shape1, ctxs1, d) {
      assert TidyAt(shape, ctxs, d);
      AboveStable(shape, x, d);
    }
    forall p, k | 0 <= p < |ctxs1| && k in ctxs1[p].children ensures RegisteredKey(shape1, p, k) && k.id < |ctxs| {
      assert RegisteredKey(shape, p, k);
      AboveStable(shape, x, k.id);
    }
  }

  lemma PropagatedTidy(shape: seq<Shape>, ctxs: seq<Ctx>, c: nat)
    requires TidyBut(shape, ctxs, c) && !shape[c].kind.ValueCtx?
    ensures Tidy(shape, Propagated(shape, ctxs, c))
  {
    var after := Propagated(shape, ctxs, c);
    assert Marked(ctxs, c) == {c};
    forall d | 0 <= d < |after| ensures TidyAt(shape, after, d) {
      if d < c { assert TidyAt(shape, ctxs, d); }
      if d == c && Above(shape, c).Some? { assert TidyAt(shape, ctxs, Above(shape, c).value); }
    }
  }

  /** A cancel marks everything live below what it marks, and only c without what is above it. */
  lemma MarkedTidy(shape: seq<Shape>, ctxs: seq<Ctx>, c: nat, d: nat)
    requires Tidy(shape, ctxs) && c < |ctxs| && d < |ctxs| && !shape[d].kind.ValueCtx? && Above(shape, d).Some?
    ensures var p, marked := Above(shape, d).value, Marked(ctxs, c);
      && (p in marked && ctxs[d].err.None? ==> d in marked)
      && (d in marked && d != c ==> p in marked)
      && (d in marked ==> ctxs[d].err.None? && ctxs[p].err.None?)
  {
    var p, k := Above(shape, d).value, KeyOf(shape, d);
    MarkedLive(ctxs, c);
    assert TidyAt(shape, ctxs, d) && TidyAt(shape, ctxs, p);
    if p in Marked(ctxs, c) && ctxs[d].err.None? { MarkedClosed(ctxs, c, p, k); }
    if d in Marked(ctxs, c) && d != c {
      var q, k1 := MarkedParent(ctxs, c, d);
      assert RegisteredKey(shape, q, k1);
    }
  }

  lemma CancelledByTidy(shape: seq<Shape>, ctxs: seq<Ctx>, c: nat, e: Error)
    requires Tidy(shape, ctxs) && c < |ctxs| && !shape[c].kind.ValueCtx?
    ensures Tidy(shape, CancelledBy(shape, ctxs, c, e))
  {
    if ctxs[c].err.None? {
      var after := CancelledBy(shape, ctxs, c, e);
      MarkedLive(ctxs, c);
      MarkedNoValues(shape, ctxs, c);
      forall d | 0 <= d < |after| ensures TidyAt(shape, after, d) { CancelledAt(shape, ctxs, c, e, d); }
      forall p, k | 0 <= p < |after| && k in after[p].children ensures RegisteredKey(shape, p, k) {
        assert k in ctxs[p].children;
      }
    }
  }

  lemma MarkedNoValues(shape: seq<Shape>, ctxs: seq<Ctx>, c: nat)
    requires Tidy(shape, ctxs) && c < |ctxs| && !shape[c].kind.ValueCtx?
    ensures forall d :: d in Marked(ctxs, c) ==> d < |ctxs| && !shape[d].kind.ValueCtx?
  {
    MarkedLive(ctxs, c);
    forall d | d in Marked(ctxs, c) && d != c ensures !shape[d].kind.ValueCtx? {
      var p, k := MarkedParent(ctxs, c, d);
      assert RegisteredKey(shape, p, k);
    }
  }

  lemma {:induction false} CancelledAt(shape: seq<Shape>, ctxs: seq<Ctx>, c: nat, e: Error, d: nat)
    requires Tidy(shape, ctxs) && c < |ctxs| && !shape[c].kind.ValueCtx? && ctxs[c].err.None? && d < |ctxs|
    requires forall d :: d in Marked(ctxs, c) ==> d < |ctxs| && !shape[d].kind.ValueCtx?
    ensures TidyAt(shape, CancelledBy(shape, ctxs, c, e), d)
  {
    assert TidyAt(shape, ctxs, d);
    assert c in Marked(ctxs, c);
    MarkedLive(ctxs, c);
    if !shape[d].kind.ValueCtx? && Above(shape, d).Some? {
      MarkedTidy(shape, ctxs, c, d);
      assert TidyAt(shape, ctxs, Above(shape, d).value);
    }
    if Above(shape, c).Some? { MarkedTidy(shape, ctxs, c, c); }
  }

  lemma PropagatedErrors(shape: seq<Shape>, ctxs: seq<Ctx>, c: nat)
    requires TidyBut(shape, ctxs, c) && !shape[c].kind.ValueCtx?
    ensures var p, after := Above(shape, c), Propagated(shape, ctxs, c);
      && after[c].err == (if p.Some? then ctxs[p.value].err else None)
      && forall d :: 0 <= d < |ctxs| && d != c ==> after[d].err == ctxs[d].err
  {
    assert Marked(ctxs, c) == {c};
    if Above(shape, c).Some? { assert TidyAt(shape, ctxs, Above(shape, c).value); }
  }

  class Contexts {
    var shape: seq<Shape>
    var ctxs: seq<Ctx>

    ghost predicate Valid()
      reads this
    {
      Tidy(shape, ctxs)
    }

    constructor ()
      ensures Valid() && shape == [] && ctxs == []
    {
      shape, ctxs := [], [];
    }

    /** parentCancelCtx: follow parents past the value contexts. */
    method ParentCancelCtx(parent: Option<nat>) returns (p: Option<nat>)
      requires IsTree(shape) && (parent.Some? ==> parent.value < |shape|)
      ensures p == Nearest(shape, parent)
    {
      p := parent;
      while p.Some? && shape[p.value].kind.ValueCtx?
        invariant p.Some? ==> p.value < |shape|
        invariant Nearest(shape, p) == Nearest(shape, parent)
        decreases if p.Some? then p.value + 1 else 0
      {
        p := shape[p.value].parent;
      }
    }

    /** propagateCancel for the context just allocated. */
    method PropagateCancel(c: nat)
      requires TidyBut(shape, ctxs, c) && !shape[c].kind.ValueCtx?
      modifies this`ctxs
      ensures Valid() && ctxs == Propagated(shape, old(ctxs), c)
      ensures ctxs[c].err == if Above(shape, c).Some? then old(ctxs)[Above(shape, c).value].err else None
      ensures forall d :: 0 <= d < |ctxs| && d != c ==> ctxs[d].err == old(ctxs)[d].err
    {
      PropagatedTidy(shape, ctxs, c);
      PropagatedErrors(shape, ctxs, c);
      TidyButYounger(shape, ctxs, c);
      hide Tidy, Younger;
      var p := ParentCancelCtx(shape[c].parent);
      if p.Some? {
        if ctxs[p.value].err.Some? {
          Cancel(c, ctxs[p.value].err.value);
        } else {
          ctxs := SetChildren(ctxs, p.value, ctxs[p.value].children + {KeyOf(shape, c)});
        }
      }
    }

    /** Allocates a context below parent and propagates cancellation to it. */
    method NewBelow(parent: Option<nat>, kind: Kind) returns (c: nat)
      requires Valid() && (parent.Some? ==> parent.value < |shape|) && !kind.ValueCtx?
      modifies this
      ensures Valid() && c == |old(ctxs)| && shape == old(shape) + [Shape(parent, kind)]
      ensures ctxs == Propagated(shape, old(ctxs) + [FRESH], c)
      ensures ctxs[c].err == if Above(shape, c).Some? then old(ctxs)[Above(shape, c).value].err else None
      ensures forall d :: 0 <= d < c ==> ctxs[d].err == old(ctxs)[d].err
    {
      c := |ctxs|;
      TidyGrown(shape, ctxs, Shape(parent, kind));
      shape, ctxs := shape + [Shape(parent, kind)], ctxs + [FRESH];
      PropagateCancel(c);
    }

    method WithValue(parent: Option<nat>) returns (c: nat)
      requires Valid() && (parent.Some? ==> parent.value < |shape|)
      modifies this
      ensures Valid() && c == |old(ctxs)| && shape == old(shape) + [Shape(parent, ValueCtx)]
      ensures ctxs == old(ctxs) + [FRESH]
    {
      c := |ctxs|;
      TidyGrown(shape, ctxs, Shape(parent, ValueCtx));
      shape, ctxs := shape + [Shape(parent, ValueCtx)], ctxs + [FRESH];
    }

    method WithCancel(parent: Option<nat>) returns (c: nat)
      requires Valid() && (parent.Some? ==> parent.value < |shape|)
      modifies this
      ensures Valid() && c == |old(ctxs)| && shape == old(shape) + [Shape(parent, CancelCtx)]
      ensures ctxs == Propagated(shape, old(ctxs) + [FRESH], c)
      ensures ctxs[c].err == if Above(shape, c).Some? then old(ctxs)[Above(shape, c).value].err else None
      ensures forall d :: 0 <= d < c ==> ctxs[d].err == old(ctxs)[d].err
    {
      c := NewBelow(parent, CancelCtx);
    }

    /**
     WithDeadline at time `now`: the new context's deadline is no later than asked and no later than its
     parent's, and a deadline already passed cancels it at once.
     */
    method WithDeadline(parent: Option<nat>, deadline: int, now: int) returns (c: nat)
      requires Valid() && (parent.Some? ==> parent.value < |shape|)
      modifies this
      ensures Valid() && c == |old(ctxs)| && |shape| == c + 1 && old(shape) <= shape && shape[c].parent == parent
      ensures var above := DeadlineOf(old(shape), parent);
              DeadlineOf(shape, Some(c))
              == Some(if above.Some? && above.value < deadline then above.value else deadline)
      ensures var made := Propagated(shape, old(ctxs) + [FRESH], c);
              ctxs == if shape[c].kind.TimerCtx? && deadline - now <= 0
                then CancelledBy(shape, made, c, DeadlineExceeded) else made
      ensures var e := if Above(shape, c).Some? then old(ctxs)[Above(shape, c).value].err else None;
              ctxs[c].err == if e.None? && shape[c].kind.TimerCtx? && deadline <= now then Some(DeadlineExceeded) else e
    {
      var above := DeadlineOf(shape, parent);
      if above.Some? && above.value < deadline {
        ghost var before := shape;
        c := WithCancel(parent);
        DeadlineStable(before, [Shape(parent, CancelCtx)], parent);
        return;
      }
      c := NewBelow(parent, TimerCtx(deadline));
      if deadline - now <= 0 {
        CancelFunc(c, DeadlineExceeded);
      }
    }

    /** cancel(true, e): the cascade, then the removal from the parent's children. */
    method CancelFunc(c: nat, e: Error)
      requires Valid() && c < |ctxs| && !shape[c].kind.ValueCtx?
      modifies this`ctxs
      ensures Valid() && ctxs == CancelledBy(shape, old(ctxs), c, e)
      ensures ctxs[c].err == if old(ctxs)[c].err.Some? then old(ctxs)[c].err else Some(e)
    {
      CancelledByTidy(shape, ctxs, c, e);
      if ctxs[c].err.Some? {
        return;
      }
      TidyYounger(shape, ctxs);
      Cancel(c, e);
      var p := ParentCancelCtx(shape[c].parent);
      if p.Some? {
        ctxs := SetChildren(ctxs, p.value, ctxs[p.value].children - {CancelKey(c)});
      }
    }

    /**
     cancel's first critical section, run to its end: sets err, closes done, cancels the children in an
     arbitrary order, and drops the children map. Whatever the order, exactly the live registered
     descendants end up cancelled, all with e, each closed once more, and nothing else is touched.
     */
    method Cancel(c: nat, e: Error)
      requires c < |ctxs| && Younger(ctxs)
      modifies this`ctxs
      ensures ctxs == CancelTree(old(ctxs), c, e)
      ensures forall d :: 0 <= d < |ctxs| ==>
        ctxs[d].err == if d in Marked(old(ctxs), c) then Some(e) else old(ctxs)[d].err
      decreases |ctxs| - c, 0
    {
      ghost var before := ctxs;
      if ctxs[c].err.Some? {
        assert CancelTree(before, c, e) == before;
        return;
      }
      ctxs := ctxs[c := ctxs[c].(err := Some(e), closes := ctxs[c].closes + 1)];
      var todo := ctxs[c].children;
      while todo != {}
        invariant todo <= before[c].children && |ctxs| == |before|
        invariant ctxs == CancelAll(before, Visited(before, c, todo), e)
          [c := Ctx(Some(e), before[c].closes + 1, before[c].children)]
        decreases todo
      {
        var k :| k in todo;
        CancelChild(k, e, c, todo, before);
        todo := todo - {k};
      }
      ctxs := ctxs[c := ctxs[c].(children := {})];
      assert before[c].children - {} == before[c].children;
    }

    /** One turn of the loop over the children. */
    method CancelChild(k: Key, e: Error, ghost c: nat, ghost todo: set<Key>, ghost before: seq<Ctx>)
      requires c < |before| == |ctxs| && Younger(before) && before[c].err.None? && todo <= before[c].children
      requires k in todo
      requires ctxs == CancelAll(before, Visited(before, c, todo), e)
        [c := Ctx(Some(e), before[c].closes + 1, before[c].children)]
      modifies this`ctxs
      ensures ctxs == CancelAll(before, Visited(before, c, todo - {k}), e)
        [c := Ctx(Some(e), before[c].closes + 1, before[c].children)]
      decreases |ctxs| - k.id, 1
    {
      ghost var now := ctxs;
      assert c < k.id < |ctxs|;
      Cancel(k.id, e);
      ChildCancelled(k, e, c, todo, before, now);
    }
  }

  /** What cancelling one more child makes of a tree whose c is being cancelled. */
  lemma ChildCancelled(k: Key, e: Error, c: nat, todo: set<Key>, before: seq<Ctx>, now: seq<Ctx>)
    requires c < |before| == |now| && Younger(before) && before[c].err.None? && todo <= before[c].children && k in todo
    requires now == CancelAll(before, Visited(before, c, todo), e)
      [c := Ctx(Some(e), before[c].closes + 1, before[c].children)]
    ensures c < k.id < |now|
    ensures CancelTree(now, k.id, e) == CancelAll(before, Visited(before, c, todo - {k}), e)[c := now[c]]
  {
    var done := Visited(before, c, todo);
    NextVisited(before, c, e, todo, k);
    MarkedLocal(now, CancelAll(before, done, e), k.id);
    CancelApart(CancelAll(before, done, e), c, now[c], Marked(before, k.id) - done, e);
    CancelTwice(before, done, Marked(before, k.id) - done, e);
  }

  lemma CancelApart(ctxs: seq<Ctx>, c: nat, x: Ctx, marked: set<nat>, e: Error)
    requires c < |ctxs| && c !in marked
    ensures CancelAll(ctxs[c := x], marked, e) == CancelAll(ctxs, marked, e)[c := x]
  {
  }

  lemma NextVisited(ctxs: seq<Ctx>, c: nat, e: Error, todo: set<Key>, k: Key)
    requires c < |ctxs| && Younger(ctxs) && k in todo && todo <= ctxs[c].children
    ensures Visited(ctxs, c, todo - {k}) == Visited(ctxs, c, todo) + Marked(ctxs, k.id)
    ensures Marked(CancelAll(ctxs, Visited(ctxs, c, todo), e), k.id) == Marked(ctxs, k.id) - Visited(ctxs, c, todo)
    ensures c !in Marked(ctxs, k.id)
  {
    assert c < k.id < |ctxs|;
    VisitedClosed(ctxs, c, todo, k.id);
    MarkedAfter(ctxs, Visited(ctxs, c, todo), e, k.id);
    MarkedLive(ctxs, k.id);
    OneMoreVisited(ctxs, c, todo, k);
  }

  /** Everything live below a visited context has been visited. */
  lemma VisitedClosed(ctxs: seq<Ctx>, c: nat, todo: set<Key>, from: nat)
    requires c < from < |ctxs|
    ensures forall d, k1 ::
      d in Visited(ctxs, c, todo) && from <= d < |ctxs| && k1 in ctxs[d].children && d < k1.id < |ctxs|
      && ctxs[k1.id].err.None?
      ==> k1.id in Visited(ctxs, c, todo)
  {
    forall d, k1 | d in Visited(ctxs, c, todo) && from <= d < |ctxs| && k1 in ctxs[d].children &&
      d < k1.id < |ctxs| && ctxs[k1.id].err.None?
      ensures k1.id in Visited(ctxs, c, todo)
    {
      var j :| j in ctxs[c].children - todo && c < j.id < |ctxs| && d in Marked(ctxs, j.id);
      MarkedClosed(ctxs, j.id, d, k1);
    }
  }

  lemma OneMoreVisited(ctxs: seq<Ctx>, c: nat, todo: set<Key>, k: Key)
    requires c < k.id < |ctxs| && k in todo && todo <= ctxs[c].children
    ensures Visited(ctxs, c, todo - {k}) == Visited(ctxs, c, todo) + Marked(ctxs, k.id)
  {
    assert ctxs[c].children - (todo - {k}) == ctxs[c].children - todo + {k};
  }
}
