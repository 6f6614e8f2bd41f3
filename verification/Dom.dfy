/**
 The sibling lists of the HTML tree: five pointers in each node, checked against a ghost map from each node
 to the sequence of its children.
 */
module Dom {
  datatype NodeType = ErrorNode | TextNode | DocumentNode | ElementNode | CommentNode | DoctypeNode | ScopeMarkerNode

  datatype Attribute = Attribute(namespace: string, key: string, val: string)

  /** What a node holds besides its pointers; tag is the name its atom stands for, or empty for no atom. */
  datatype Content = Content(kind: NodeType, tag: string, data: string, namespace: string, attr: seq<Attribute>)

  class Node {
    var parent: Node?
    var firstChild: Node?
    var lastChild: Node?
    var prevSibling: Node?
    var nextSibling: Node?
    const content: Content

    /** A node with no parent, no siblings and no children. */
    constructor (content: Content)
      ensures this.content == content && Pointers() == NO_LINKS
    {
      this.content := content;
      parent, firstChild, lastChild, prevSibling, nextSibling := null, null, null, null, null;
    }

    ghost function Pointers(): Links
      reads this
    {
      Links(parent, firstChild, lastChild, prevSibling, nextSibling)
    }

    predicate Attached()
      reads this
    {
      parent != null || prevSibling != null || nextSibling != null
    }

    /** Links newChild in between prev and next, the children on both sides of position p. */
    method Splice(newChild: Node, prev: Node?, next: Node?, ghost k: Children, ghost p: nat)
      requires Between(k, this, p, newChild, prev, next)
      modifies k.Keys
      ensures Changes(old(Snapshot(k.Keys)), Snapshot(k.Keys), k, this, p, newChild)
    {
      LinkBeside(newChild, prev, next, k);
      newChild.parent := this;
      newChild.prevSibling := prev;
      newChild.nextSibling := next;
    }

    /** The pointers to newChild: of prev and next, or of this node where there is none. */
    method LinkBeside(newChild: Node, prev: Node?, next: Node?, ghost k: Children)
      requires this in k && (prev == null || prev in k) && (next == null || next in k)
      modifies k.Keys
      ensures forall x :: x in k ==> x.Pointers() == Beside(x, old(x.Pointers()), this, prev, next, newChild)
    {
      if prev != null {
        prev.nextSibling := newChild;
      } else {
        firstChild := newChild;
      }
      if next != null {
        next.prevSibling := newChild;
      } else {
        lastChild := newChild;
      }
    }

    /** Puts newChild before oldChild, or at the end; not ok, a panic in the source, if newChild is attached already. */
    method InsertBefore(newChild: Node, oldChild: Node?, ghost k: Children) returns (ok: bool)
      requires Linked(k) && this in k && newChild in k && (oldChild == null || oldChild in k[this])
      modifies k.Keys
      ensures ok == !old(newChild.Attached())
      ensures ok ==> Linked(k[this := Inserted(k[this], newChild, oldChild)])
      ensures !ok ==> Linked(k)
    {
      if newChild.parent != null || newChild.prevSibling != null || newChild.nextSibling != null {
        return false;
      }
      ghost var h, p := Snapshot(k.Keys), Place(k[this], oldChild);
      InsertPoint(h, k, this, newChild, oldChild);
      var prev: Node?;
      var next: Node?;
      if oldChild != null {
        prev, next := oldChild.prevSibling, oldChild;
      } else {
        prev, next := lastChild, null;
      }
      Splice(newChild, prev, next, k, p);
      InsertKeeps(h, Snapshot(k.Keys), k, this, p, newChild);
      LinkedAgain(k, this, Inserted(k[this], newChild, oldChild));
      ok := true;
    }

    /** Puts c at the end; not ok, a panic in the source, if c is attached already. */
    method AppendChild(c: Node, ghost k: Children) returns (ok: bool)
      requires Linked(k) && this in k && c in k
      modifies k.Keys
      ensures ok == !old(c.Attached())
      ensures ok ==> Linked(k[this := k[this] + [c]])
      ensures !ok ==> Linked(k)
    {
      if c.parent != null || c.prevSibling != null || c.nextSibling != null {
        return false;
      }
      ghost var h, p := Snapshot(k.Keys), |k[this]|;
      InsertPoint(h, k, this, c, null);
      LinkLast(c, k);
      InsertKeeps(h, Snapshot(k.Keys), k, this, p, c);
      assert InsertedAt(k[this], p, c) == k[this] + [c];
      LinkedAgain(k, this, k[this] + [c]);
      ok := true;
    }

    method LinkLast(c: Node, ghost k: Children)
      requires this in k && Between(k, this, |k[this]|, c, lastChild, null) && !c.Attached()
      modifies k.Keys
      ensures Changes(old(Snapshot(k.Keys)), Snapshot(k.Keys), k, this, |k[this]|, c)
    {
      var last := lastChild;
      if last != null {
        last.nextSibling := c;
      } else {
        firstChild := c;
      }
      lastChild := c;
      c.parent := this;
      c.prevSibling := last;
    }

    /** Takes c out; not ok, a panic in the source, if it is no child of this node. */
    method RemoveChild(c: Node, ghost k: Children) returns (ok: bool)
      requires Linked(k) && this in k && c in k
      modifies k.Keys
      ensures ok == (c in k[this])
      ensures ok ==> !c.Attached() && Linked(k[this := Without(k[this], c)])
      ensures !ok ==> Linked(k)
    {
      ghost var h := Snapshot(k.Keys);
      if c.parent != this {
        NoChild(h, k, this, c);
        return false;
      }
      RemovePoint(h, k, this, c);
      ghost var p := Index(k[this], c);
      Unlink(c, k);
      RemoveKeeps(h, Snapshot(k.Keys), k, this, p, c);
      LinkedAgain(k, this, Without(k[this], c));
      ok := true;
    }

    method Bypass(c: Node, ghost k: Children)
      requires this in k && c in k && c.prevSibling != c && c.nextSibling != c
      requires (c.prevSibling == null || c.prevSibling in k) && (c.nextSibling == null || c.nextSibling in k)
      modifies k.Keys
      ensures forall x :: x in k ==> x.Pointers() == Bypassed(x, old(x.Pointers()), this, c, old(c.Pointers()))
    {
      BypassForward(c, k);
      if lastChild == c {
        lastChild := c.prevSibling;
      }
      if c.prevSibling != null {
        c.prevSibling.nextSibling := c.nextSibling;
      }
    }

    /** The pointers to c from the left end and from its next sibling. */
    method BypassForward(c: Node, ghost k: Children)
      requires this in k && c in k && c.nextSibling != c && (c.nextSibling == null || c.nextSibling in k)
      modifies k.Keys
      ensures forall x :: x in k ==> x.Pointers() == HalfBypassed(x, old(x.Pointers()), this, c, old(c.Pointers()))
    {
      if firstChild == c {
        firstChild := c.nextSibling;
      }
      if c.nextSibling != null {
        c.nextSibling.prevSibling := c.prevSibling;
      }
    }

    method Unlink(c: Node, ghost k: Children)
      requires this in k && c in k && c.prevSibling != c && c.nextSibling != c
      requires (c.prevSibling == null || c.prevSibling in k) && (c.nextSibling == null || c.nextSibling in k)
      modifies k.Keys
      ensures Removes(old(Snapshot(k.Keys)), Snapshot(k.Keys), k, this, c) && !c.Attached()
    {
      Bypass(c, k);
      c.parent := null;
      c.prevSibling := null;
      c.nextSibling := null;
    }
  }

  // ---------- the pointers as values ----------

  datatype Links = Links(parent: Node?, first: Node?, last: Node?, prev: Node?, next: Node?)

  const NO_LINKS: Links := Links(null, null, null, null, null)

  type Children = map<Node, seq<Node>>

  ghost function Snapshot(nodes: set<Node>): map<Node, Links>
    reads nodes
  {
    map x | x in nodes :: x.Pointers()
  }

  ghost function Of(h: map<Node, Links>, x: Node): Links { if x in h then h[x] else NO_LINKS }

  // ---------- sequences of children ----------

  ghost predicate Distinct(s: seq<Node>) { forall i, j :: 0 <= i < j < |s| ==> s[i] != s[j] }

  ghost function At(s: seq<Node>, i: int): Node? { if 0 <= i < |s| then s[i] else null }

  /** Where c stands in s. */
  ghost function Index(s: seq<Node>, c: Node): (i: nat)
    requires c in s
    ensures i < |s| && s[i] == c && c !in s[..i]
  {
    if s[0] == c then 0 else Index(s[1..], c) + 1
  }

  ghost function Place(s: seq<Node>, before: Node?): (p: nat)
    requires before == null || before in s
    ensures p <= |s| && (before == null ==> p == |s|) && At(s, p) == before
  {
    if before == null then |s| else Index(s, before)
  }

  ghost function InsertedAt(s: seq<Node>, p: nat, c: Node): seq<Node>
    requires p <= |s|
  {
    s[..p] + [c] + s[p..]
  }

  ghost function RemovedAt(s: seq<Node>, p: nat): seq<Node>
    requires p < |s|
  {
    s[..p] + s[p + 1..]
  }

  /** s with c before the given child, or at the end if there is none. */
  ghost function Inserted(s: seq<Node>, c: Node, before: Node?): seq<Node>
    requires before == null || before in s
  {
    InsertedAt(s, Place(s, before), c)
  }

  ghost function Without(s: seq<Node>, c: Node): seq<Node>
    requires c in s
  {
    RemovedAt(s, Index(s, c))
  }

  /** c comes directly before the first `before`, or last; and c goes from where it stands first. */
  lemma ListsMean(s: seq<Node>, c: Node, i: nat)
    requires i <= |s| && (i < |s| ==> s[i] !in s[..i])
    ensures Inserted(s, c, if i < |s| then s[i] else null) == s[..i] + [c] + s[i..]
    ensures i < |s| ==> Without(s, s[i]) == s[..i] + s[i + 1..]
  {
    if i < |s| {
      var j := Index(s, s[i]);
      assert forall x :: 0 <= x < i ==> s[..i][x] == s[x];
      assert forall x :: 0 <= x < j ==> s[..j][x] == s[x];
    }
  }

  // ---------- consistency ----------

  ghost predicate ChildAt(h: map<Node, Links>, n: Node, s: seq<Node>, i: nat)
    requires i < |s|
  {
    var x := Of(h, s[i]);
    x.parent == n && x.prev == At(s, i - 1) && x.next == At(s, i + 1)
  }

  /** n's children are s. */
  ghost predicate ListOf(h: map<Node, Links>, n: Node, s: seq<Node>) {
    && Of(h, n).first == At(s, 0) && Of(h, n).last == At(s, |s| - 1)
    && forall i :: 0 <= i < |s| ==> ChildAt(h, n, s, i)
  }

  /** c is a child of its parent, or has neither parent nor siblings. */
  ghost predicate Placed(h: map<Node, Links>, k: Children, c: Node) {
    var x := Of(h, c);
    if x.parent == null then x.prev == null && x.next == null else x.parent in k && c in k[x.parent]
  }

  /** All pointers of all nodes agree with k. */
  ghost predicate Consistent(h: map<Node, Links>, k: Children) {
    && (forall n, c :: n in k && c in k[n] ==> c in k)
    && (forall n :: n in k ==> Distinct(k[n]))
    && (forall n :: n in k ==> ListOf(h, n, k[n]))
    && (forall c :: c in k ==> Placed(h, k, c))
  }

  ghost predicate Linked(k: Children)
    reads k.Keys
  {
    Consistent(Snapshot(k.Keys), k)
  }

  /** What the five pointers of a node and of its children are. */
  lemma LinkedMeans(k: Children, n: Node, i: nat)
    requires Linked(k) && n in k
    ensures if k[n] == [] then n.firstChild == null && n.lastChild == null
            else n.firstChild == k[n][0] && n.lastChild == k[n][|k[n]| - 1]
    ensures i < |k[n]| ==> var c := k[n][i];
      && c.parent == n && c.prevSibling == (if i == 0 then null else k[n][i - 1])
      && c.nextSibling == (if i + 1 == |k[n]| then null else k[n][i + 1])
  {
    assert ListOf(Snapshot(k.Keys), n, k[n]);
    if i < |k[n]| { assert ChildAt(Snapshot(k.Keys), n, k[n], i); }
  }

  /** The new list of one node does not change which nodes there are. */
  lemma LinkedAgain(k: Children, n: Node, s: seq<Node>)
    requires n in k && Consistent(Snapshot(k.Keys), k[n := s])
    ensures Linked(k[n := s])
  {
    assert k[n := s].Keys == k.Keys;
  }

  /** A node without a parent is in no list. */
  lemma Orphan(h: map<Node, Links>, k: Children, c: Node, m: Node)
    requires Consistent(h, k) && m in k && Of(h, c).parent == null
    ensures c !in k[m]
  {
    forall i | 0 <= i < |k[m]|
      ensures k[m][i] != c
    {
      assert ChildAt(h, m, k[m], i);
    }
  }

  /** prev and next are the children on both sides of position p, and c is neither. */
  ghost predicate Between(k: Children, n: Node, p: nat, c: Node, prev: Node?, next: Node?) {
    && n in k && c in k && p <= |k[n]| && prev == At(k[n], p - 1) && next == At(k[n], p)
    && (prev == null || prev in k) && (next == null || next in k) && prev != c && next != c
  }

  lemma InsertPoint(h: map<Node, Links>, k: Children, n: Node, c: Node, before: Node?)
    requires Consistent(h, k) && n in k && c in k && Of(h, c).parent == null && (before == null || before in k[n])
    ensures CanInsert(h, k, n, Place(k[n], before), c)
    ensures Between(k, n, Place(k[n], before), c, if before == null then Of(h, n).last else Of(h, before).prev, before)
  {
    Orphan(h, k, c, n);
    Neighbours(h, k, n, Place(k[n], before));
  }

  /** The nodes on both sides of position p. */
  lemma Neighbours(h: map<Node, Links>, k: Children, n: Node, p: nat)
    requires Consistent(h, k) && n in k && p <= |k[n]|
    ensures p < |k[n]| ==> Of(h, k[n][p]).prev == At(k[n], p - 1) && Of(h, k[n][p]).next == At(k[n], p + 1)
    ensures p == |k[n]| ==> Of(h, n).last == At(k[n], p - 1)
    ensures p == 0 ==> Of(h, n).first == At(k[n], p)
    ensures At(k[n], p - 1) != null ==> At(k[n], p - 1) in k
  {
    if p < |k[n]| { assert ChildAt(h, n, k[n], p); }
  }

  // ---------- putting a node in ----------

  /** x's pointers when those to c are set, c coming between prev and next below n. */
  ghost function Beside(x: Node, old_: Links, n: Node, prev: Node?, next: Node?, c: Node): Links {
    Links(old_.parent,
          if x == n && prev == null then c else old_.first,
          if x == n && next == null then c else old_.last,
          if x == next then c else old_.prev,
          if x == prev then c else old_.next)
  }

  /** x's pointers when c has gone to position p of n's children s. */
  ghost function AfterInsert(x: Node, old_: Links, n: Node, s: seq<Node>, p: nat, c: Node): Links {
    Links(if x == c then n else old_.parent,
          if x == n && p == 0 then c else old_.first,
          if x == n && p == |s| then c else old_.last,
          if x == c then At(s, p - 1) else if x == At(s, p) then c else old_.prev,
          if x == c then At(s, p) else if x == At(s, p - 1) then c else old_.next)
  }

  ghost predicate Changes(h: map<Node, Links>, h1: map<Node, Links>, k: Children, n: Node, p: nat, c: Node)
    requires n in k
  {
    forall x :: x in k ==> Of(h1, x) == AfterInsert(x, Of(h, x), n, k[n], p, c)
  }

  ghost predicate CanInsert(h: map<Node, Links>, k: Children, n: Node, p: nat, c: Node) {
    Consistent(h, k) && n in k && p <= |k[n]| && c in k && Of(h, c).parent == null && c !in k[n]
  }

  lemma InsertElsewhere(h: map<Node, Links>, h1: map<Node, Links>, k: Children, n: Node, p: nat, c: Node, m: Node)
    requires CanInsert(h, k, n, p, c) && Changes(h, h1, k, n, p, c) && m in k && m != n
    ensures ListOf(h1, m, k[m])
  {
    var s, r := k[n], k[m];
    forall i | 0 <= i < |r|
      ensures ChildAt(h1, m, r, i)
    {
      assert ChildAt(h, m, r, i);
      if 0 < p { assert ChildAt(h, n, s, p - 1); }
      if p < |s| { assert ChildAt(h, n, s, p); }
    }
  }

  lemma InsertHere(h: map<Node, Links>, h1: map<Node, Links>, k: Children, n: Node, p: nat, c: Node)
    requires CanInsert(h, k, n, p, c) && Changes(h, h1, k, n, p, c)
    ensures Distinct(InsertedAt(k[n], p, c)) && ListOf(h1, n, InsertedAt(k[n], p, c))
  {
    var s := k[n];
    var r := InsertedAt(s, p, c);
    assert forall i :: 0 <= i < |r| ==> r[i] == if i < p then s[i] else if i == p then c else s[i - 1];
    forall i | 0 <= i < |r|
      ensures ChildAt(h1, n, r, i)
    {
      if i < p {
        assert ChildAt(h, n, s, i);
      } else if i > p {
        assert ChildAt(h, n, s, i - 1);
      }
    }
  }

  lemma InsertPlaced(h: map<Node, Links>, h1: map<Node, Links>, k: Children, n: Node, p: nat, c: Node, x: Node)
    requires CanInsert(h, k, n, p, c) && Changes(h, h1, k, n, p, c) && x in k
    ensures Placed(h1, k[n := InsertedAt(k[n], p, c)], x)
  {
    var s, r := k[n], InsertedAt(k[n], p, c);
    assert Placed(h, k, x);
    assert r[p] == c;
    assert x in s ==> x in r;
    if 0 < p { assert ChildAt(h, n, s, p - 1); }
    if p < |s| { assert ChildAt(h, n, s, p); }
  }

  lemma InsertKeeps(h: map<Node, Links>, h1: map<Node, Links>, k: Children, n: Node, p: nat, c: Node)
    requires CanInsert(h, k, n, p, c) && Changes(h, h1, k, n, p, c)
    ensures Consistent(h1, k[n := InsertedAt(k[n], p, c)])
  {
    var k1 := k[n := InsertedAt(k[n], p, c)];
    forall m | m in k
      ensures Distinct(k1[m]) && ListOf(h1, m, k1[m])
    {
      if m == n { InsertHere(h, h1, k, n, p, c); } else { InsertElsewhere(h, h1, k, n, p, c, m); }
    }
    forall x | x in k
      ensures Placed(h1, k1, x)
    {
      InsertPlaced(h, h1, k, n, p, c, x);
    }
  }

  // ---------- taking a node out ----------

  /** x's pointers when the child c, with pointers l, has left n. */
  ghost function AfterRemove(x: Node, old_: Links, n: Node, c: Node, l: Links): Links {
    var b := Bypassed(x, old_, n, c, l);
    if x == c then Links(null, b.first, b.last, null, null) else b
  }

  /** The same, while c still points to where it was. */
  ghost function Bypassed(x: Node, old_: Links, n: Node, c: Node, l: Links): Links {
    Links(old_.parent,
          if x == n && old_.first == c then l.next else old_.first,
          if x == n && old_.last == c then l.prev else old_.last,
          if x == l.next then l.prev else old_.prev,
          if x == l.prev then l.next else old_.next)
  }

  ghost function HalfBypassed(x: Node, old_: Links, n: Node, c: Node, l: Links): Links {
    old_.(first := if x == n && old_.first == c then l.next else old_.first,
          prev := if x == l.next then l.prev else old_.prev)
  }

  ghost predicate Removes(h: map<Node, Links>, h1: map<Node, Links>, k: Children, n: Node, c: Node) {
    forall x :: x in k ==> Of(h1, x) == AfterRemove(x, Of(h, x), n, c, Of(h, c))
  }

  ghost predicate CanRemove(h: map<Node, Links>, k: Children, n: Node, p: nat, c: Node) {
    && Consistent(h, k) && n in k && p < |k[n]| && c == k[n][p] && c in k
    && Of(h, c) == Links(n, Of(h, c).first, Of(h, c).last, At(k[n], p - 1), At(k[n], p + 1))
  }

  /** A node with a parent has one place, in the parent's list. */
  lemma RemovePoint(h: map<Node, Links>, k: Children, n: Node, c: Node)
    requires Consistent(h, k) && n in k && c in k && Of(h, c).parent == n
    ensures c in k[n] && CanRemove(h, k, n, Index(k[n], c), c)
  {
    assert Placed(h, k, c);
    Neighbours(h, k, n, Index(k[n], c));
  }

  lemma NoChild(h: map<Node, Links>, k: Children, n: Node, c: Node)
    requires Consistent(h, k) && n in k && Of(h, c).parent != n
    ensures c !in k[n]
  {
    forall i | 0 <= i < |k[n]|
      ensures k[n][i] != c
    {
      assert ChildAt(h, n, k[n], i);
    }
  }

  lemma RemoveElsewhere(h: map<Node, Links>, h1: map<Node, Links>, k: Children, n: Node, p: nat, c: Node, m: Node)
    requires CanRemove(h, k, n, p, c) && Removes(h, h1, k, n, c) && m in k && m != n
    ensures ListOf(h1, m, k[m])
  {
    var s, r := k[n], k[m];
    forall i | 0 <= i < |r|
      ensures ChildAt(h1, m, r, i)
    {
      assert ChildAt(h, m, r, i);
      if 0 < p { assert ChildAt(h, n, s, p - 1); }
      if p + 1 < |s| { assert ChildAt(h, n, s, p + 1); }
    }
  }

  lemma RemoveHere(h: map<Node, Links>, h1: map<Node, Links>, k: Children, n: Node, p: nat, c: Node)
    requires CanRemove(h, k, n, p, c) && Removes(h, h1, k, n, c)
    ensures Distinct(RemovedAt(k[n], p)) && ListOf(h1, n, RemovedAt(k[n], p))
  {
    var s := k[n];
    var r := RemovedAt(s, p);
    assert forall i :: 0 <= i < |r| ==> r[i] == if i < p then s[i] else s[i + 1];
    forall i | 0 <= i < |r|
      ensures ChildAt(h1, n, r, i)
    {
      assert ChildAt(h, n, s, if i < p then i else i + 1);
    }
  }

  lemma RemovePlaced(h: map<Node, Links>, h1: map<Node, Links>, k: Children, n: Node, p: nat, c: Node, x: Node)
    requires CanRemove(h, k, n, p, c) && Removes(h, h1, k, n, c) && x in k
    ensures Placed(h1, k[n := RemovedAt(k[n], p)], x)
  {
    var s, r := k[n], RemovedAt(k[n], p);
    assert Placed(h, k, x);
    if x in s && x != c {
      var i := Index(s, x);
      assert r[if i < p then i else i - 1] == x;
    }
    if 0 < p { assert ChildAt(h, n, s, p - 1); }
    if p + 1 < |s| { assert ChildAt(h, n, s, p + 1); }
  }

  lemma RemoveKeeps(h: map<Node, Links>, h1: map<Node, Links>, k: Children, n: Node, p: nat, c: Node)
    requires CanRemove(h, k, n, p, c) && Removes(h, h1, k, n, c)
    ensures Consistent(h1, k[n := RemovedAt(k[n], p)])
  {
    var k1 := k[n := RemovedAt(k[n], p)];
    forall m | m in k
      ensures Distinct(k1[m]) && ListOf(h1, m, k1[m])
    {
      if m == n { RemoveHere(h, h1, k, n, p, c); } else { RemoveElsewhere(h, h1, k, n, p, c, m); }
    }
    forall x | x in k
      ensures Placed(h1, k1, x)
    {
      RemovePlaced(h, h1, k, n, p, c, x);
    }
  }

  // ---------- moving all children ----------

  ghost function Moved(k: Children, dst: Node, src: Node): Children
    requires dst in k && src in k
  {
    k[dst := k[dst] + k[src]][src := []]
  }

  ghost function FirstMoved(k: Children, dst: Node, src: Node): Children
    requires dst in k && src in k && k[src] != []
  {
    var k1 := k[src := k[src][1..]];
    k1[dst := k1[dst] + [k[src][0]]]
  }

  /** The children after n turns of the loop, if it has not ended by then. */
  ghost function Turned(k: Children, dst: Node, src: Node, n: nat): Children
    requires dst in k && src in k
  {
    if n == 0 || k[src] == [] then k else Turned(FirstMoved(k, dst, src), dst, src, n - 1)
  }

  /** s turned round by n places. */
  ghost function Rotation(s: seq<Node>, n: nat): (r: seq<Node>)
    requires s != []
    ensures |r| == |s|
    decreases n
  {
    if n == 0 then s else Rotation(s[1..] + [s[0]], n - 1)
  }

  /** Onto itself the loop only turns the list of children round: it is never empty, and the loop never ends. */
  lemma {:induction false} NeverEnds(k: Children, src: Node, n: nat)
    requires src in k && k[src] != []
    ensures var now := Turned(k, src, src, n); src in now && now[src] == Rotation(k[src], n) != []
    decreases n
  {
    if n > 0 {
      NeverEnds(FirstMoved(k, src, src), src, n - 1);
    }
  }

  lemma FirstChildOf(k: Children, n: Node)
    requires Linked(k) && n in k
    ensures n.firstChild == At(k[n], 0) && (k[n] != [] ==> k[n][0] in k)
  {
    assert ListOf(Snapshot(k.Keys), n, k[n]);
  }

  /** One turn of the loop: the first child of src becomes the last of dst. */
  method MoveFirst(dst: Node, src: Node, child: Node, ghost k: Children)
    requires Linked(k) && dst in k && src in k && child in k && k[src] != [] && k[src][0] == child
    modifies k.Keys
    ensures Linked(FirstMoved(k, dst, src))
  {
    FirstRemoved(k, src, dst);
    var removed := src.RemoveChild(child, k);
    ghost var k1: Children := k[src := k[src][1..]];
    var appended := dst.AppendChild(child, k1);
  }

  lemma FirstRemoved(k: Children, n: Node, m: Node)
    requires n in k && k[n] != [] && m in k
    ensures Without(k[n], k[n][0]) == k[n][1..] && k[n := k[n][1..]].Keys == k.Keys && m in k[n := k[n][1..]]
  {
  }

  /** now is k with some of src's children moved to dst. */
  ghost predicate Moving(k: Children, now: Children, dst: Node, src: Node) {
    && dst in k && src in k && now.Keys == k.Keys && Moved(now, dst, src) == Moved(k, dst, src)
    && (dst == src ==> now[src] == [])
  }

  /** reparentChildren; with dst == src and a child the source never returns, see NeverEnds. */
  method ReparentChildren(dst: Node, src: Node, ghost k: Children)
    requires Linked(k) && dst in k && src in k && (dst == src ==> k[src] == [])
    modifies k.Keys
    ensures Linked(k[dst := k[dst] + k[src]][src := []])
  {
    ghost var now: Children := k;
    FirstChildOf(k, src);
    var child := src.firstChild;
    while child != null
      invariant Moving(k, now, dst, src) && Linked(now)
      invariant child == At(now[src], 0) && (child != null ==> child in now)
      decreases |now[src]|
    {
      MovedFirst(now, dst, src);
      MoveFirst(dst, src, child, now);
      now := FirstMoved(now, dst, src);
      FirstChildOf(now, src);
      child := src.firstChild;
    }
    AllMoved(k, now, dst, src);
  }

  lemma AllMoved(k: Children, now: Children, dst: Node, src: Node)
    requires Moving(k, now, dst, src) && now[src] == []
    ensures now == Moved(k, dst, src)
  {
    assert now[dst] + [] == now[dst];
  }

  lemma MovedFirst(k: Children, dst: Node, src: Node)
    requires dst in k && src in k && dst != src && k[src] != []
    ensures FirstMoved(k, dst, src).Keys == k.Keys && Moved(FirstMoved(k, dst, src), dst, src) == Moved(k, dst, src)
  {
    assert (k[dst] + [k[src][0]]) + k[src][1..] == k[dst] + k[src];
  }
}
