/**
 The two node stacks of the HTML parser: open elements and active formatting elements. Where a new node goes
 in the tree is not modelled here, only what happens to the stacks.
 */
module ParserStacks {
  import opened Dom

  // ---------- a stack of nodes ----------

  /** The top-most place of n, or -1. */
  function TopIndex(s: seq<Node>, n: Node): (i: int)
    ensures -1 <= i < |s| && (i == -1 <==> n !in s)
    ensures i >= 0 ==> s[i] == n && n !in s[i + 1..]
  {
    if s == [] then -1
    else
      var k := |s| - 1;
      if s[k] == n then k
      else
        assert s == s[..k] + [s[k]];
        var i := TopIndex(s[..k], n);
        assert i >= 0 ==> s[i + 1..] == s[..k][i + 1..] + [s[k]];
        i
  }

  class NodeStack {
    var nodes: seq<Node>

    constructor ()
      ensures nodes == []
    {
      nodes := [];
    }

    method Push(n: Node)
      modifies this
      ensures nodes == old(nodes) + [n]
    {
      nodes := nodes + [n];
    }

    method Pop() returns (n: Node)
      requires nodes != []
      modifies this
      ensures old(nodes) == nodes + [n]
    {
      var i := |nodes|;
      n := nodes[i - 1];
      nodes := nodes[..i - 1];
    }

    method Top() returns (n: Node?)
      ensures n == At(nodes, |nodes| - 1)
    {
      var i := |nodes|;
      if i > 0 {
        return nodes[i - 1];
      }
      n := null;
    }

    method IndexOf(n: Node) returns (i: int)
      ensures i == TopIndex(nodes, n)
    {
      i := |nodes| - 1;
      while i >= 0
        invariant -1 <= i < |nodes| && TopIndex(nodes, n) == TopIndex(nodes[..i + 1], n)
      {
        if nodes[i] == n {
          return;
        }
        i := i - 1;
        assert nodes[..i + 2][..i + 1] == nodes[..i + 1];
      }
    }

    /** Takes out the top-most n; other occurrences and the order stay. */
    method Remove(n: Node)
      modifies this
      ensures n !in old(nodes) ==> nodes == old(nodes)
      ensures n in old(nodes) ==> nodes == RemovedAt(old(nodes), TopIndex(old(nodes), n))
    {
      var i := IndexOf(n);
      if i == -1 {
        return;
      }
      nodes := nodes[..i] + nodes[i + 1..];
    }
  }

  // ---------- scopes ----------

  datatype Scope = DefaultScope | ListItemScope | ButtonScope | TableScope | TableRowScope | TableBodyScope |
    SelectScope

  function StopTags(namespace: string): set<string> {
    if namespace == "" then {"applet", "caption", "html", "table", "td", "th", "marquee", "object"}
    else if namespace == "math" then {"annotation-xml", "mi", "mn", "mo", "ms", "mtext"}
    else if namespace == "svg" then {"desc", "foreignObject", "title"}
    else {}
  }

  /** The stop tags that a scope has on its own; a row or body scope stops, with a panic, at any HTML element. */
  predicate OwnStop(scope: Scope, tag: string) {
    match scope
    case DefaultScope => false
    case ListItemScope => tag == "ol" || tag == "ul"
    case ButtonScope => tag == "button"
    case TableScope => tag == "html" || tag == "table"
    case TableRowScope => true
    case TableBodyScope => true
    case SelectScope => tag != "optgroup" && tag != "option"
  }

  predicate Stops(scope: Scope, c: Content) {
    || (c.namespace == "" && OwnStop(scope, c.tag))
    || ((scope.DefaultScope? || scope.ListItemScope? || scope.ButtonScope?) && c.tag in StopTags(c.namespace))
  }

  /** An element that ends a particular scope, as the HTML standard lists them. */
  predicate Particular(c: Content) {
    if c.namespace == "" then
      || c.tag == "applet" || c.tag == "caption" || c.tag == "html" || c.tag == "table" || c.tag == "td"
      || c.tag == "th" || c.tag == "marquee" || c.tag == "object"
    else if c.namespace == "math" then
      c.tag == "mi" || c.tag == "mo" || c.tag == "mn" || c.tag == "ms" || c.tag == "mtext" || c.tag == "annotation-xml"
    else
      c.namespace == "svg" && (c.tag == "foreignObject" || c.tag == "desc" || c.tag == "title")
  }

  /** What stops the search in each scope. */
  lemma StopsMean(scope: Scope, c: Content)
    ensures Stops(scope, c) <==>
      match scope
      case DefaultScope => Particular(c)
      case ListItemScope => Particular(c) || (c.namespace == "" && (c.tag == "ol" || c.tag == "ul"))
      case ButtonScope => Particular(c) || (c.namespace == "" && c.tag == "button")
      case TableScope => c.namespace == "" && (c.tag == "html" || c.tag == "table")
      case SelectScope => c.namespace == "" && c.tag != "optgroup" && c.tag != "option"
      case _ => c.namespace == ""
  {
  }

  predicate Matches(c: Content, tags: seq<string>) { c.namespace == "" && c.tag in tags }

  /** The element at j matches and nothing above it stops the search. */
  ghost predicate InScope(s: seq<Node>, scope: Scope, tags: seq<string>, j: int) {
    0 <= j < |s| && Matches(s[j].content, tags) && forall l :: j < l < |s| ==> !Stops(scope, s[l].content)
  }

  /** The search in a row or body scope panics: the highest HTML element does not match. */
  ghost predicate Panics(s: seq<Node>, scope: Scope, tags: seq<string>) {
    && (scope.TableRowScope? || scope.TableBodyScope?)
    && exists j :: Stopped(s, tags, j)
  }

  ghost predicate Stopped(s: seq<Node>, tags: seq<string>, j: int) {
    && 0 <= j < |s| && s[j].content.namespace == "" && !Matches(s[j].content, tags)
    && forall l :: j < l < |s| ==> s[l].content.namespace != ""
  }

  // ---------- active formatting elements ----------

  predicate Marker(n: Node) { n.content.kind == ScopeMarkerNode }

  /** n is identical to an element e as the source compares them: every attribute of n is one of e's, and as many. */
  predicate Family(n: Content, e: Content) {
    && n.kind == ElementNode && n.namespace == "" && n.tag == e.tag && |n.attr| == |e.attr|
    && forall a :: a in n.attr ==> a in e.attr
  }

  /** The entries of e's family after the last marker, in order. */
  function Members(s: seq<Node>, e: Content): seq<Node> {
    if s == [] || Marker(s[|s| - 1]) then []
    else Members(s[..|s| - 1], e) + if Family(s[|s| - 1].content, e) then [s[|s| - 1]] else []
  }

  /** All entries but those, in order. */
  function Others(s: seq<Node>, e: Content): seq<Node> {
    if s == [] || Marker(s[|s| - 1]) then s
    else Others(s[..|s| - 1], e) + if Family(s[|s| - 1].content, e) then [] else [s[|s| - 1]]
  }

  /** The list when the loop has come down to its bottom, having seen so many of e's family above. */
  function Trimmed(s: seq<Node>, e: Content, seen: nat): seq<Node> {
    if s == [] || Marker(s[|s| - 1]) then s
    else
      var n := s[|s| - 1];
      if !Family(n.content, e) then Trimmed(s[..|s| - 1], e, seen) + [n]
      else Trimmed(s[..|s| - 1], e, seen + 1) + if seen >= 2 then [] else [n]
  }

  /**
   What the loop makes of the list from entry i down: an entry too many is removed where it stands top-most, which is
   elsewhere if it stands there twice.
   */
  ghost function TrimmedFrom(s: seq<Node>, e: Content, i: int, seen: nat): seq<Node>
    decreases i
  {
    if i < 0 || i >= |s| || Marker(s[i]) then s
    else if !Family(s[i].content, e) then TrimmedFrom(s, e, i - 1, seen)
    else if seen < 2 then TrimmedFrom(s, e, i - 1, seen + 1)
    else TrimmedFrom(RemovedAt(s, TopIndex(s, s[i])), e, i - 1, seen + 1)
  }

  /** The last k of s, or all. */
  function Last(s: seq<Node>, k: int): seq<Node> {
    if k <= 0 then [] else if k >= |s| then s else s[|s| - k..]
  }

  lemma LastPush(s: seq<Node>, n: Node, k: int)
    ensures k >= 1 ==> Last(s + [n], k) == Last(s, k - 1) + [n]
    ensures k <= 0 ==> Last(s + [n], k) == Last(s, k - 1)
  {
  }

  lemma Pushed(t: seq<Node>, n: Node, e: Content)
    requires !Marker(n)
    ensures Members(t + [n], e) == if Family(n.content, e) then Members(t, e) + [n] else Members(t, e)
    ensures Others(t + [n], e) == if Family(n.content, e) then Others(t, e) else Others(t, e) + [n]
  {
    assert (t + [n])[..|t|] == t;
  }

  lemma TrimmedTurn(s: seq<Node>, e: Content, seen: nat)
    requires s != [] && !Marker(s[|s| - 1])
    ensures var n, front := s[|s| - 1], s[..|s| - 1];
      var t := Trimmed(front, e, if Family(n.content, e) then seen + 1 else seen);
      Trimmed(s, e, seen) == if Family(n.content, e) && seen >= 2 then t else t + [n]
  {
  }

  /** Of e's family the top-most stay, as many as make two with those seen. */
  lemma {:induction false} TrimmedMembers(s: seq<Node>, e: Content, seen: nat)
    ensures Members(Trimmed(s, e, seen), e) == Last(Members(s, e), 2 - seen)
  {
    if s != [] && !Marker(s[|s| - 1]) {
      var n, front := s[|s| - 1], s[..|s| - 1];
      var seen1 := if Family(n.content, e) then seen + 1 else seen;
      TrimmedTurn(s, e, seen);
      TrimmedMembers(front, e, seen1);
      Pushed(Trimmed(front, e, seen1), n, e);
      LastPush(Members(front, e), n, 2 - seen);
    }
  }

  /** All other entries stay. */
  lemma {:induction false} TrimmedOthers(s: seq<Node>, e: Content, seen: nat)
    ensures Others(Trimmed(s, e, seen), e) == Others(s, e)
  {
    if s != [] && !Marker(s[|s| - 1]) {
      var n, front := s[|s| - 1], s[..|s| - 1];
      var seen1 := if Family(n.content, e) then seen + 1 else seen;
      TrimmedTurn(s, e, seen);
      TrimmedOthers(front, e, seen1);
      Pushed(Trimmed(front, e, seen1), n, e);
    }
  }

  // ---------- identical elements ----------

  /** n is an HTML element with e's tag and e's attributes, in any order, each as often. */
  predicate Same(n: Content, e: Content) {
    n.kind == ElementNode && n.namespace == "" && n.tag == e.tag && multiset(n.attr) == multiset(e.attr)
  }

  /** The entries identical to e after the last marker, in order. */
  function Identical(s: seq<Node>, e: Content): seq<Node> {
    if s == [] || Marker(s[|s| - 1]) then []
    else Identical(s[..|s| - 1], e) + if Same(s[|s| - 1].content, e) then [s[|s| - 1]] else []
  }

  /** The Noah's Ark clause: at most three identical elements after each marker. */
  ghost predicate Ark(s: seq<Node>) { forall e, k :: 0 <= k <= |s| ==> |Identical(s[..k], e)| <= 3 }

  lemma SameLength(a: seq<Attribute>, b: seq<Attribute>)
    requires multiset(a) == multiset(b)
    ensures |a| == |b| && forall x :: x in a <==> x in b
  {
    assert |multiset(a)| == |a| && |multiset(b)| == |b|;
    forall x ensures x in a <==> x in b { assert x in a <==> x in multiset(a); }
  }

  /** The loop counts every identical element. */
  lemma SameCounted(n: Content, e: Content)
    requires Same(n, e)
    ensures Family(n, e)
  {
    SameLength(n.attr, e.attr);
  }

  lemma IdenticalPush(t: seq<Node>, n: Node, e: Content)
    requires !Marker(n)
    ensures Identical(t + [n], e) == if Same(n.content, e) then Identical(t, e) + [n] else Identical(t, e)
  {
    assert (t + [n])[..|t|] == t;
  }

  /** What is identical to e is counted for any element identical to e. */
  lemma {:induction false} IdenticalCounted(s: seq<Node>, e: Content, n: Content)
    requires n.tag == e.tag && multiset(n.attr) == multiset(e.attr)
    ensures |Identical(s, e)| <= |Members(s, n)|
  {
    if s != [] && !Marker(s[|s| - 1]) {
      IdenticalCounted(s[..|s| - 1], e, n);
      if Same(s[|s| - 1].content, e) { SameCounted(s[|s| - 1].content, n); }
    }
  }

  lemma OnTop(s: seq<Node>, j: nat, e: Content)
    requires j < |s| && !Marker(s[j])
    ensures var k := |s| - 1;
      if j == k then |Identical(RemovedAt(s, j), e)| <= |Identical(s, e)|
      else
        && Identical(s, e) == Identical(s[..k] + [s[k]], e)
        && Identical(RemovedAt(s, j), e) == Identical(RemovedAt(s[..k], j) + [s[k]], e)
  {
    var k := |s| - 1;
    assert s == s[..k] + [s[k]];
    assert RemovedAt(s, j) == if j == k then s[..k] else RemovedAt(s[..k], j) + [s[k]];
  }

  /** With one more on top, of which both lists are the rest, the longer stays the longer. */
  lemma IdenticalMore(t: seq<Node>, s: seq<Node>, n: Node, e: Content)
    requires |Identical(t, e)| <= |Identical(s, e)|
    ensures |Identical(t + [n], e)| <= |Identical(s + [n], e)|
  {
    if !Marker(n) {
      IdenticalPush(t, n, e);
      IdenticalPush(s, n, e);
    }
  }

  /** Taking out an entry adds none. */
  lemma {:induction false} RemovedFewer(s: seq<Node>, j: nat, e: Content)
    requires j < |s| && !Marker(s[j])
    ensures |Identical(RemovedAt(s, j), e)| <= |Identical(s, e)|
  {
    var k := |s| - 1;
    OnTop(s, j, e);
    if j < k {
      RemovedFewer(s[..k], j, e);
      IdenticalMore(RemovedAt(s[..k], j), s[..k], s[k], e);
    }
  }

  lemma RemovedKeepsArk(s: seq<Node>, j: nat)
    requires j < |s| && !Marker(s[j]) && Ark(s)
    ensures Ark(RemovedAt(s, j))
  {
    var r := RemovedAt(s, j);
    forall e, k | 0 <= k <= |r| ensures |Identical(r[..k], e)| <= 3 {
      if k <= j {
        assert r[..k] == s[..k];
      } else {
        assert r[..k] == RemovedAt(s[..k + 1], j);
        RemovedFewer(s[..k + 1], j, e);
      }
    }
  }

  /** The loop takes out entries and does nothing else. */
  lemma {:induction false} TrimmedFromKeepsArk(s: seq<Node>, e: Content, i: int, seen: nat)
    requires Ark(s)
    ensures Ark(TrimmedFrom(s, e, i, seen))
    decreases i
  {
    if 0 <= i < |s| && !Marker(s[i]) {
      if !Family(s[i].content, e) {
        TrimmedFromKeepsArk(s, e, i - 1, seen);
      } else if seen < 2 {
        TrimmedFromKeepsArk(s, e, i - 1, seen + 1);
      } else {
        var j := TopIndex(s, s[i]);
        RemovedKeepsArk(s, j);
        TrimmedFromKeepsArk(RemovedAt(s, j), e, i - 1, seen + 1);
      }
    }
  }

  // ---------- how many the loop leaves ----------

  /** How many entries from i on the loop counts for e, if no marker comes. */
  function Count(s: seq<Node>, e: Content, i: nat): nat
    requires i <= |s|
    decreases |s| - i
  {
    if i == |s| then 0 else (if Family(s[i].content, e) then 1 else 0) + Count(s, e, i + 1)
  }

  ghost predicate NoMarker(s: seq<Node>, i: int) { forall j :: 0 <= i <= j < |s| ==> !Marker(s[j]) }

  /** Above the last marker the members are all that count. */
  lemma {:induction false} MembersCount(s: seq<Node>, e: Content, i: nat)
    requires i <= |s| && NoMarker(s, i) && (i > 0 ==> Marker(s[i - 1]))
    ensures |Members(s, e)| == Count(s, e, i)
    decreases |s|
  {
    if i < |s| {
      MembersCount(s[..|s| - 1], e, i);
      CountSnoc(s, e, i);
    }
  }

  lemma {:induction false} CountSnoc(s: seq<Node>, e: Content, i: nat)
    requires i < |s|
    ensures Count(s, e, i) == Count(s[..|s| - 1], e, i) + if Family(s[|s| - 1].content, e) then 1 else 0
    decreases |s| - i
  {
    if i < |s| - 1 { CountSnoc(s, e, i + 1); }
  }

  lemma {:induction false} CountRemoved(s: seq<Node>, e: Content, i: nat, j: nat)
    requires i <= j < |s|
    ensures Count(RemovedAt(s, j), e, i) == Count(s, e, i) - if Family(s[j].content, e) then 1 else 0
    decreases |s| - i
  {
    if i < j { CountRemoved(s, e, i + 1, j); } else { CountSlid(s, e, j, j); }
  }

  lemma {:induction false} CountSlid(s: seq<Node>, e: Content, j: nat, i: nat)
    requires j <= i < |s|
    ensures Count(RemovedAt(s, j), e, i) == Count(s, e, i + 1)
    decreases |s| - i
  {
    if i + 1 < |s| { CountSlid(s, e, j, i + 1); }
  }

  /** The loop at i, with as many counted above as it has seen, or two. */
  ghost predicate Counting(s: seq<Node>, e: Content, i: int, seen: nat) {
    -1 <= i < |s| && NoMarker(s, i + 1) && Count(s, e, i + 1) == if seen <= 2 then seen else 2
  }

  /** It leaves at most two that it counts, whatever the list. */
  lemma {:induction false} TrimmedFromFew(s: seq<Node>, e: Content, i: int, seen: nat)
    requires Counting(s, e, i, seen)
    ensures |Members(TrimmedFrom(s, e, i, seen), e)| <= 2
    decreases i
  {
    if i < 0 || Marker(s[i]) {
      MembersCount(s, e, i + 1);
    } else if !Family(s[i].content, e) {
      TrimmedFromFew(s, e, i - 1, seen);
    } else if seen < 2 {
      TrimmedFromFew(s, e, i - 1, seen + 1);
    } else {
      var j := TopIndex(s, s[i]);
      TopMostAbove(s, i, j);
      CountingRemoved(s, e, i, seen, j);
      TrimmedFromFew(RemovedAt(s, j), e, i - 1, seen + 1);
    }
  }

  /** One counted too many at i, and the same entry taken out at j. */
  lemma CountingRemoved(s: seq<Node>, e: Content, i: nat, seen: nat, j: nat)
    requires Counting(s, e, i, seen) && seen >= 2 && !Marker(s[i]) && Family(s[i].content, e)
    requires i <= j < |s| && s[j] == s[i]
    ensures Counting(RemovedAt(s, j), e, i - 1, seen + 1)
  {
    CountRemoved(s, e, i, j);
  }

  /**
   Adding an HTML element to what the loop leaves keeps the clause, whatever the list and whatever attributes the
   element has or repeats.
   */
  lemma ArkKept(s: seq<Node>, n: Node)
    requires Ark(s) && n.content.kind == ElementNode && n.content.namespace == ""
    ensures Ark(TrimmedFrom(s, n.content, |s| - 1, 0) + [n])
  {
    var t := TrimmedFrom(s, n.content, |s| - 1, 0);
    TrimmedFromKeepsArk(s, n.content, |s| - 1, 0);
    TrimmedFromFew(s, n.content, |s| - 1, 0);
    forall e, k | 0 <= k <= |t| + 1 ensures |Identical((t + [n])[..k], e)| <= 3 {
      if k <= |t| {
        assert (t + [n])[..k] == t[..k];
      } else {
        assert (t + [n])[..k] == t + [n] && t[..|t|] == t;
        IdenticalPush(t, n, e);
        if Same(n.content, e) { IdenticalCounted(t, e, n.content); }
      }
    }
  }

  /** What the loop counts has at most three entries then, whatever the list was. */
  lemma NewFamilyFits(s: seq<Node>, n: Node)
    requires n.content.kind == ElementNode && n.content.namespace == ""
    ensures |Members(Trimmed(s, n.content, 0) + [n], n.content)|
         == (if |Members(s, n.content)| >= 2 then 3 else |Members(s, n.content)| + 1)
  {
    var t := Trimmed(s, n.content, 0);
    assert (t + [n])[..|t|] == t;
    TrimmedMembers(s, n.content, 0);
  }

  // ---------- when the loop takes out too much ----------

  /** What the clause asks for: of the entries identical to e the top-most stay, as many as make two with those seen. */
  function Required(s: seq<Node>, e: Content, seen: nat): seq<Node> {
    if s == [] || Marker(s[|s| - 1]) then s
    else
      var n := s[|s| - 1];
      if !Same(n.content, e) then Required(s[..|s| - 1], e, seen) + [n]
      else Required(s[..|s| - 1], e, seen + 1) + if seen >= 2 then [] else [n]
  }

  /** How many of so many are too many. */
  function Excess(count: nat, seen: nat): nat {
    if seen >= 2 then count else if count + seen >= 2 then count + seen - 2 else 0
  }

  lemma {:induction false} TrimmedLength(s: seq<Node>, e: Content, seen: nat)
    ensures |Trimmed(s, e, seen)| == |s| - Excess(|Members(s, e)|, seen)
  {
    if s != [] && !Marker(s[|s| - 1]) {
      TrimmedTurn(s, e, seen);
      TrimmedLength(s[..|s| - 1], e, if Family(s[|s| - 1].content, e) then seen + 1 else seen);
    }
  }

  lemma {:induction false} RequiredLength(s: seq<Node>, e: Content, seen: nat)
    ensures |Required(s, e, seen)| == |s| - Excess(|Identical(s, e)|, seen)
  {
    if s != [] && !Marker(s[|s| - 1]) {
      RequiredLength(s[..|s| - 1], e, if Same(s[|s| - 1].content, e) then seen + 1 else seen);
    }
  }

  /** Where everything counted is identical, both take out the same; and where nothing is too much, nothing. */
  lemma {:induction false} RequiredTrimmed(s: seq<Node>, e: Content, seen: nat)
    ensures |Identical(s, e)| <= |Members(s, e)|
    ensures |Identical(s, e)| == |Members(s, e)| ==> Trimmed(s, e, seen) == Required(s, e, seen)
  {
    if s != [] && !Marker(s[|s| - 1]) {
      var n, front := s[|s| - 1], s[..|s| - 1];
      if Same(n.content, e) { SameCounted(n.content, e); }
      RequiredTrimmed(front, e, if Family(n.content, e) then seen + 1 else seen);
      TrimmedTurn(s, e, seen);
    }
  }

  lemma {:induction false} NoneTrimmed(s: seq<Node>, e: Content, seen: nat)
    requires |Members(s, e)| + seen <= 2
    ensures Trimmed(s, e, seen) == s
  {
    if s != [] && !Marker(s[|s| - 1]) {
      TrimmedTurn(s, e, seen);
      NoneTrimmed(s[..|s| - 1], e, if Family(s[|s| - 1].content, e) then seen + 1 else seen);
      assert s == s[..|s| - 1] + [s[|s| - 1]];
    }
  }

  lemma {:induction false} NoneRequired(s: seq<Node>, e: Content, seen: nat)
    requires |Identical(s, e)| + seen <= 2
    ensures Required(s, e, seen) == s
  {
    if s != [] && !Marker(s[|s| - 1]) {
      var n, front := s[|s| - 1], s[..|s| - 1];
      RequiredTurn(s, e, seen);
      NoneRequired(front, e, if Same(n.content, e) then seen + 1 else seen);
      assert s == front + [n];
    }
  }

  lemma RequiredTurn(s: seq<Node>, e: Content, seen: nat)
    requires s != [] && !Marker(s[|s| - 1])
    ensures var n, front := s[|s| - 1], s[..|s| - 1];
      var same := Same(n.content, e);
      var t := Required(front, e, if same then seen + 1 else seen);
      && Required(s, e, seen) == (if same && seen >= 2 then t else t + [n])
      && |Identical(s, e)| == |Identical(front, e)| + if same then 1 else 0
  {
  }

  /**
   The loop counts an entry when every attribute of it is one of e's, and as many. So it takes out what the clause asks
   for exactly when no more than two entries count, or only identical ones do.
   */
  lemma TrimmedAsRequired(s: seq<Node>, e: Content)
    ensures Trimmed(s, e, 0) == Required(s, e, 0) <==> |Members(s, e)| <= 2 || |Members(s, e)| == |Identical(s, e)|
  {
    TrimmedLength(s, e, 0);
    RequiredLength(s, e, 0);
    RequiredTrimmed(s, e, 0);
    if |Members(s, e)| <= 2 {
      NoneTrimmed(s, e, 0);
      NoneRequired(s, e, 0);
    }
  }

  ghost predicate NoRepeats(attr: seq<Attribute>) { forall i, j :: 0 <= i < j < |attr| ==> attr[i] != attr[j] }

  /** An element without repeated attributes counts exactly if it is identical. */
  lemma CountedIsSame(n: Content, e: Content)
    requires NoRepeats(n.attr)
    ensures Family(n, e) <==> Same(n, e)
  {
    if Family(n, e) { MultisetOf(n.attr, e.attr); }
    if Same(n, e) { SameCounted(n, e); }
  }

  /** As many attributes without repetition, all among those of b, are those of b. */
  lemma {:induction false} MultisetOf(a: seq<Attribute>, b: seq<Attribute>)
    requires NoRepeats(a) && |a| == |b| && forall x :: x in a ==> x in b
    ensures multiset(a) == multiset(b)
  {
    if a != [] {
      var x, rest := a[0], a[1..];
      assert a == [x] + rest && x in a;
      var k :| 0 <= k < |b| && b[k] == x;
      var without := b[..k] + b[k + 1..];
      forall y | y in rest ensures y in without {
        assert y in a && y != x;
        InWithout(b, k, y);
      }
      MultisetOf(rest, without);
      assert b == b[..k] + ([x] + b[k + 1..]);
    }
  }

  /** What is in b and is not its entry k stands elsewhere. */
  lemma InWithout(b: seq<Attribute>, k: nat, y: Attribute)
    requires k < |b| && y in b && y != b[k]
    ensures y in b[..k] + b[k + 1..]
  {
    var l :| 0 <= l < |b| && b[l] == y;
    assert y == (b[..k] + b[k + 1..])[if l < k then l else l - 1];
  }

  /**
   One that repeats an attribute can count for an element it is not identical to: three elements that have x twice, and
   a new one that has y in the place of one x. The loop takes out one of them, and the clause none.
   */
  lemma RepeatedAttributeTrimmed(s: seq<Node>, e: Content, x: Attribute, y: Attribute)
    requires e.kind == ElementNode && e.namespace == "" && e.attr == [x, y] && x != y
    requires |s| == 3 && forall i :: 0 <= i < 3 ==> s[i].content == e.(attr := [x, x])
    ensures Required(s, e, 0) == s && |Trimmed(s, e, 0)| == 2
  {
    assert multiset([x, x])[x] == 2 && multiset([x, y])[x] == 1;
    MembersAll(s, e);
    IdenticalNone(s, e);
    TrimmedLength(s, e, 0);
    NoneRequired(s, e, 0);
  }

  lemma {:induction false} MembersAll(s: seq<Node>, e: Content)
    requires forall i :: 0 <= i < |s| ==> Family(s[i].content, e)
    ensures |Members(s, e)| == |s|
  {
    if s != [] { MembersAll(s[..|s| - 1], e); }
  }

  lemma {:induction false} IdenticalNone(s: seq<Node>, e: Content)
    requires forall i :: 0 <= i < |s| ==> !Same(s[i].content, e)
    ensures Identical(s, e) == []
  {
    if s != [] { IdenticalNone(s[..|s| - 1], e); }
  }

  // ---------- entries that stand twice ----------

  /** No entry but the marker stands in the list twice. */
  ghost predicate DistinctEntries(s: seq<Node>) { forall i, j :: 0 <= i < j < |s| && s[i] == s[j] ==> Marker(s[i]) }

  lemma {:induction false} TrimmedDistinct(s: seq<Node>, e: Content, seen: nat)
    requires DistinctEntries(s)
    ensures DistinctEntries(Trimmed(s, e, seen)) && forall x :: x in Trimmed(s, e, seen) ==> x in s
  {
    if s != [] && !Marker(s[|s| - 1]) {
      var n, front := s[|s| - 1], s[..|s| - 1];
      TrimmedTurn(s, e, seen);
      TrimmedDistinct(front, e, if Family(n.content, e) then seen + 1 else seen);
      assert n !in front;
    }
  }

  // ---------- reconstruction ----------

  /** The entries from m on replaced by clones as far as there are any, the clones pushed as addChild does. */
  ghost predicate Cloned(s: seq<Node>, now: seq<Node>, m: nat, clones: seq<Node>) {
    && m + |clones| <= |s| && Distinct(clones)
    && now == s[..m] + clones + s[m + |clones|..]
    && forall j :: 0 <= j < |clones| ==> clones[j].content == CloneOf(s[m + j].content)
  }

  lemma CloneStep(s: seq<Node>, now: seq<Node>, m: nat, clones: seq<Node>, c: Node)
    requires Cloned(s, now, m, clones) && m + |clones| < |s| && c !in clones
    requires c.content == CloneOf(now[m + |clones|].content)
    ensures Cloned(s, now[m + |clones| := c], m, clones + [c])
  {
    var i, more := m + |clones|, clones + [c];
    assert now[i] == s[i];
    SpliceClone(s[..m], clones, s[i..], c);
    assert s[i..][1..] == s[i + 1..];
    forall j | 0 <= j < |more|
      ensures more[j].content == CloneOf(s[m + j].content)
    {
    }
  }

  lemma ClonedDistinct(s: seq<Node>, now: seq<Node>, m: nat, clones: seq<Node>)
    requires Cloned(s, now, m, clones) && m + |clones| == |s| && DistinctEntries(s)
    requires forall c :: c in clones ==> c !in s
    ensures DistinctEntries(now)
  {
    forall j | m <= j < |now|
      ensures now[j] == clones[j - m] && now[j] !in s
    {
      assert clones[j - m] in clones;
    }
    forall i | 0 <= i < m
      ensures now[i] == s[i] && now[i] in s
    {
    }
  }

  /** Entries with the same contents have as many identical ones. */
  lemma {:induction false} IdenticalByContent(s: seq<Node>, t: seq<Node>, e: Content)
    requires |s| == |t| && forall i :: 0 <= i < |s| ==> s[i].content == t[i].content
    ensures |Identical(s, e)| == |Identical(t, e)|
  {
    if s != [] && !Marker(s[|s| - 1]) {
      IdenticalByContent(s[..|s| - 1], t[..|t| - 1], e);
    }
  }

  /** The entries are HTML elements and markers, as both functions that add to the list make them. */
  ghost predicate Listed(s: seq<Node>) {
    forall i :: 0 <= i < |s| ==> s[i].content.namespace == "" && (Marker(s[i]) || s[i].content.kind == ElementNode)
  }

  /** Reconstruction keeps the Noah's Ark clause. */
  lemma CloningKeepsArk(s: seq<Node>, now: seq<Node>, m: nat, clones: seq<Node>)
    requires Cloned(s, now, m, clones) && Ark(s) && Listed(s)
    ensures Ark(now) && Listed(now)
  {
    forall i | 0 <= i < |s| ensures now[i].content == s[i].content {
      if m <= i < m + |clones| { assert now[i] == clones[i - m]; }
    }
    forall e, k | 0 <= k <= |now| ensures |Identical(now[..k], e)| <= 3 {
      IdenticalByContent(s[..k], now[..k], e);
    }
  }

  lemma SpliceClone(front: seq<Node>, clones: seq<Node>, rest: seq<Node>, c: Node)
    requires rest != []
    ensures (front + clones + rest)[|front| + |clones| := c] == front + (clones + [c]) + rest[1..]
  {
  }

  lemma ElementsPush(clones: seq<Node>, c: Node)
    ensures Elements(clones + [c]) == Elements(clones) + Elements([c])
  {
    assert (clones + [c])[..|clones|] == clones && [c][..0] == [];
  }

  /** When all unopened entries are replaced, the last entry is open. */
  lemma AllOpen(s: seq<Node>, now: seq<Node>, m: nat, clones: seq<Node>, oe: seq<Node>)
    requires Cloned(s, now, m, clones) && m + |clones| == |s| && clones != []
    requires forall n :: n in s ==> Marker(n) || n.content.kind == ElementNode
    requires forall j :: m <= j < |s| ==> !Marker(s[j])
    ensures Elements(clones) == clones && UnopenedFrom(oe + Elements(clones), now) == |now|
  {
    forall j | 0 <= j < |clones|
      ensures clones[j].content.kind == ElementNode
    {
      assert s[m + j] in s;
    }
    ElementsAll(clones);
    assert now[|now| - 1] == clones[|clones| - 1];
  }

  predicate Unopened(oe: seq<Node>, n: Node) { !Marker(n) && n !in oe }

  /** Where the last entries begin that are neither markers nor open. */
  function UnopenedFrom(oe: seq<Node>, s: seq<Node>): (m: nat)
    ensures m <= |s| && (forall j :: m <= j < |s| ==> Unopened(oe, s[j])) && (m > 0 ==> !Unopened(oe, s[m - 1]))
  {
    if s == [] || !Unopened(oe, s[|s| - 1]) then |s| else UnopenedFrom(oe, s[..|s| - 1])
  }

  /**
   The open elements and the list after reconstruction, from open0 and s before it: the unopened entries at the end
   have been cloned, the clones stand in their places, and those that are elements are open.
   */
  ghost predicate Reconstructed(open0: seq<Node>, s: seq<Node>, open: seq<Node>, now: seq<Node>, clones: seq<Node>) {
    && Cloned(s, now, UnopenedFrom(open0, s), clones) && UnopenedFrom(open0, s) + |clones| == |now|
    && open == open0 + Elements(clones) && (DistinctEntries(s) ==> DistinctEntries(now))
  }

  lemma NothingToClone(open: seq<Node>, s: seq<Node>)
    requires s == [] || !Unopened(open, s[|s| - 1])
    ensures Reconstructed(open, s, open, s, [])
  {
    assert s[..|s|] + [] + s[|s|..] == s;
  }

  /** What clone copies: everything but the namespace. */
  function CloneOf(c: Content): Content { c.(namespace := "") }

  /** Those that addChild pushes. */
  function Elements(s: seq<Node>): seq<Node> {
    if s == [] then []
    else Elements(s[..|s| - 1]) + if s[|s| - 1].content.kind == ElementNode then [s[|s| - 1]] else []
  }

  lemma {:induction false} ElementsAll(s: seq<Node>)
    requires forall i :: 0 <= i < |s| ==> s[i].content.kind == ElementNode
    ensures Elements(s) == s
  {
    if s != [] {
      ElementsAll(s[..|s| - 1]);
    }
  }

  /** What is left up to and without the last marker. */
  function BeforeMarker(s: seq<Node>): seq<Node> {
    if s == [] then [] else if Marker(s[|s| - 1]) then s[..|s| - 1] else BeforeMarker(s[..|s| - 1])
  }

  lemma {:induction false} BeforeMarkerPrefix(s: seq<Node>)
    ensures BeforeMarker(s) <= s
  {
    if s != [] && !Marker(s[|s| - 1]) {
      BeforeMarkerPrefix(s[..|s| - 1]);
    }
  }

  /** t is s without its last marker and all above it; without a marker, everything is gone. */
  ghost predicate CutAtMarker(s: seq<Node>, t: seq<Node>) {
    && t <= s && (t != [] ==> |t| < |s| && Marker(s[|t|]))
    && forall j :: |t| < j < |s| ==> !Marker(s[j])
  }

  lemma {:induction false} BeforeMarkerMeans(s: seq<Node>)
    ensures CutAtMarker(s, BeforeMarker(s))
  {
    if s != [] && !Marker(s[|s| - 1]) {
      BeforeMarkerMeans(s[..|s| - 1]);
    }
  }

  // ---------- the parser ----------

  class Parser {
    const oe: NodeStack
    const afe: NodeStack

    constructor ()
      ensures oe != afe && oe.nodes == [] && afe.nodes == [] && fresh(oe) && fresh(afe)
    {
      oe := new NodeStack();
      afe := new NodeStack();
    }

    /** The list keeps the Noah's Ark clause. */
    ghost predicate Boarded()
      reads afe
    {
      Listed(afe.nodes) && Ark(afe.nodes)
    }

    /** The highest element in scope, or -1; not ok is a panic. */
    method IndexOfElementInScope(scope: Scope, matchTags: seq<string>) returns (ok: bool, i: int)
      ensures ok == !Panics(oe.nodes, scope, matchTags) && -1 <= i < |oe.nodes|
      ensures ok && i >= 0 ==> InScope(oe.nodes, scope, matchTags, i)
      ensures ok ==> forall j :: i < j ==> !InScope(oe.nodes, scope, matchTags, j)
    {
      ok, i := true, |oe.nodes| - 1;
      while i >= 0
        invariant -1 <= i < |oe.nodes|
        invariant forall j :: i < j < |oe.nodes| ==>
          !Stops(scope, oe.nodes[j].content) && !Matches(oe.nodes[j].content, matchTags)
      {
        var c := oe.nodes[i].content;
        if c.namespace == "" {
          if c.tag in matchTags {
            return;
          }
          if scope.TableRowScope? || scope.TableBodyScope? {
            assert Stopped(oe.nodes, matchTags, i);
            ok := false;
            return;
          }
          if OwnStop(scope, c.tag) {
            i := -1;
            return;
          }
        }
        if scope.DefaultScope? || scope.ListItemScope? || scope.ButtonScope? {
          if c.tag in StopTags(c.namespace) {
            i := -1;
            return;
          }
        }
        i := i - 1;
      }
    }

    /** Pops down to and with the highest element in scope, if there is one; not ok is a panic. */
    method PopUntil(scope: Scope, matchTags: seq<string>) returns (ok: bool, found: bool)
      modifies oe
      ensures ok == !Panics(old(oe.nodes), scope, matchTags)
      ensures ok ==> (found <==> exists j :: InScope(old(oe.nodes), scope, matchTags, j))
      ensures found ==> ok && oe.nodes < old(oe.nodes) && InScope(old(oe.nodes), scope, matchTags, |oe.nodes|)
      ensures found ==> forall j :: j > |oe.nodes| ==> !InScope(old(oe.nodes), scope, matchTags, j)
      ensures !found ==> oe.nodes == old(oe.nodes)
    {
      found := false;
      var i;
      ok, i := IndexOfElementInScope(scope, matchTags);
      if ok && i != -1 {
        oe.nodes := oe.nodes[..i];
        found := true;
      }
    }

    /** addChild, without the tree: an element is pushed on the stack of open elements. */
    method AddChild(n: Node)
      modifies oe
      ensures oe.nodes == old(oe.nodes) + Elements([n])
    {
      assert Elements([n]) == Elements([]) + if n.content.kind == ElementNode then [n] else [];
      if n.content.kind == ElementNode {
        oe.Push(n);
      }
    }

    /** The loop over the attributes. */
    method SameAttributes(n: Content, attr: seq<Attribute>) returns (same: bool)
      ensures same <==> forall a :: a in n.attr ==> a in attr
    {
      for i := 0 to |n.attr|
        invariant forall k :: 0 <= k < i ==> n.attr[k] in attr
      {
        if n.attr[i] !in attr {
          return false;
        }
      }
      same := true;
    }

    /** addFormattingElement for the current tag. */
    method AddFormattingElement(name: string, tag: string, attr: seq<Attribute>)
      requires oe != afe
      modifies oe, afe
      ensures |oe.nodes| == |old(oe.nodes)| + 1 && oe.nodes[..|old(oe.nodes)|] == old(oe.nodes)
      ensures var n := oe.nodes[|old(oe.nodes)|];
        && fresh(n) && n.content == Content(ElementNode, tag, name, "", attr)
        && afe.nodes == TrimmedFrom(old(afe.nodes), n.content, |old(afe.nodes)| - 1, 0) + [n]
        && multiset(afe.nodes) == multiset(Trimmed(old(afe.nodes), n.content, 0)) + multiset{n}
        && (DistinctEntries(old(afe.nodes)) ==> afe.nodes == Trimmed(old(afe.nodes), n.content, 0) + [n])
      ensures DistinctEntries(old(afe.nodes)) ==> DistinctEntries(afe.nodes)
      ensures old(Boarded()) ==> Boarded()
    {
      hide TrimmedFrom, Trimmed;
      var n := new Node(Content(ElementNode, tag, name, "", attr));
      ghost var s := afe.nodes;
      if Boarded() { StillBoarded(s, n); }
      TrimmedEntries(s, n.content);
      TrimmedInside(s, n.content);
      if DistinctEntries(s) { TrimmedExactly(s, n.content); }
      AddChild(n);
      assert n !in s;
      TrimFamily(n.content);
      afe.Push(n);
    }

    /** The loop of addFormattingElement, down to the last marker. */
    method TrimFamily(e: Content)
      modifies afe
      ensures afe.nodes == TrimmedFrom(old(afe.nodes), e, |old(afe.nodes)| - 1, 0)
    {
      var identicalElements := 0;
      var i := |afe.nodes| - 1;
      while i >= 0 && !Marker(afe.nodes[i])
        invariant -1 <= i < |afe.nodes|
        invariant TrimmedFrom(afe.nodes, e, i, identicalElements)
               == TrimmedFrom(old(afe.nodes), e, |old(afe.nodes)| - 1, 0)
        decreases i
      {
        identicalElements := TrimTurn(e, i, identicalElements);
        i := i - 1;
      }
    }

    /** One turn: one entry looked at, and removed if it is the third of its family or a later one. */
    method TrimTurn(e: Content, i: int, identicalElements: nat) returns (identicalElements1: nat)
      requires 0 <= i < |afe.nodes| && !Marker(afe.nodes[i])
      modifies afe
      ensures i - 1 < |afe.nodes|
      ensures TrimmedFrom(afe.nodes, e, i - 1, identicalElements1)
           == TrimmedFrom(old(afe.nodes), e, i, identicalElements)
    {
      var n := afe.nodes[i];
      identicalElements1 := identicalElements;
      if n.content.kind != ElementNode {
        return;
      }
      if n.content.namespace != "" {
        return;
      }
      if n.content.tag != e.tag {
        return;
      }
      if |n.content.attr| != |e.attr| {
        return;
      }
      var same := SameAttributes(n.content, e.attr);
      if !same {
        return;
      }
      identicalElements1 := identicalElements + 1;
      if identicalElements1 >= 3 {
        afe.Remove(n);
      }
    }

    /** The loop that goes down to the last entry that is a marker or open: the first one to clone. */
    method FirstUnopened() returns (i: int)
      requires afe.nodes != [] && Unopened(oe.nodes, afe.nodes[|afe.nodes| - 1])
      ensures i == UnopenedFrom(oe.nodes, afe.nodes) - 1
    {
      i := |afe.nodes| - 1;
      ghost var s := afe.nodes;
      assert s[..i + 1] == s;
      var n := afe.nodes[i];
      var open := oe.IndexOf(n);
      while !Marker(n) && open == -1
        invariant 0 <= i < |s| && n == s[i] && open == TopIndex(oe.nodes, n)
        invariant UnopenedFrom(oe.nodes, s) == UnopenedFrom(oe.nodes, s[..i + 1])
        decreases i
      {
        assert s[..i + 1][..i] == s[..i];
        if i == 0 {
          return -1;
        }
        i := i - 1;
        n := afe.nodes[i];
        open := oe.IndexOf(n);
      }
    }

    /** One turn: entry i replaced by a clone, the clone pushed. */
    method CloneEntry(i: nat) returns (clone: Node)
      requires oe != afe && i < |afe.nodes|
      modifies oe, afe
      ensures fresh(clone) && clone.content == CloneOf(old(afe.nodes)[i].content)
      ensures afe.nodes == old(afe.nodes)[i := clone] && oe.nodes == old(oe.nodes) + Elements([clone])
    {
      clone := new Node(CloneOf(afe.nodes[i].content));
      AddChild(clone);
      afe.nodes := afe.nodes[i := clone];
    }

    /** The loop that clones the entries from m on. */
    method CloneFrom(m: nat) returns (ghost clones: seq<Node>)
      requires oe != afe && m < |afe.nodes|
      modifies oe, afe
      ensures Cloned(old(afe.nodes), afe.nodes, m, clones) && m + |clones| == |afe.nodes|
      ensures oe.nodes == old(oe.nodes) + Elements(clones) && forall c :: c in clones ==> fresh(c)
    {
      clones := [];
      ghost var s, open := afe.nodes, oe.nodes;
      assert s[..m] + s[m..] == s;
      var i: nat := m;
      while i < |afe.nodes|
        invariant Cloning(s, open, m, clones) && i == m + |clones|
        invariant forall j :: 0 <= j < |clones| ==> fresh(clones[j])
        decreases |s| - i
      {
        clones := CloneTurn(i, s, open, m, clones);
        i := i + 1;
      }
    }

    /** Where the loop stands: the clones made are in their places, and open as far as they are elements. */
    ghost predicate Cloning(s: seq<Node>, open: seq<Node>, m: nat, clones: seq<Node>)
      reads oe, afe
    {
      Cloned(s, afe.nodes, m, clones) && oe.nodes == open + Elements(clones)
    }

    /** One turn of it. */
    method CloneTurn(i: nat, ghost s: seq<Node>, ghost open: seq<Node>, ghost m: nat, ghost clones0: seq<Node>)
        returns (ghost clones: seq<Node>)
      requires oe != afe && i < |afe.nodes| && Cloning(s, open, m, clones0) && i == m + |clones0|
      modifies oe, afe
      ensures Cloning(s, open, m, clones) && |clones| == |clones0| + 1
      ensures fresh(clones[|clones0|]) && forall j :: 0 <= j < |clones0| ==> clones[j] == clones0[j]
    {
      ghost var now := afe.nodes;
      var clone := CloneEntry(i);
      CloneStep(s, now, m, clones0, clone);
      ElementsPush(clones0, clone);
      clones := clones0 + [clone];
    }

    /** reconstructActiveFormattingElements: the unopened entries at the end become open clones, in order. */
    method Reconstruct() returns (ghost clones: seq<Node>)
      requires oe != afe
      modifies oe, afe
      ensures Reconstructed(old(oe.nodes), old(afe.nodes), oe.nodes, afe.nodes, clones)
      ensures forall c :: c in clones ==> fresh(c)
      ensures old(Boarded()) ==> Boarded()
    {
      clones := [];
      if afe.nodes == [] || !Unopened(oe.nodes, afe.nodes[|afe.nodes| - 1]) { NothingToClone(oe.nodes, afe.nodes); }
      var n := afe.Top();
      if n == null {
        return;
      }
      var open := oe.IndexOf(n);
      if Marker(n) || open != -1 {
        return;
      }
      ghost var s := afe.nodes;
      ghost var m := UnopenedFrom(oe.nodes, s);
      clones := CloneUnopened();
      if old(Boarded()) { CloningKeepsArk(s, afe.nodes, m, clones); }
    }

    /** The part of reconstructActiveFormattingElements that clones. */
    method CloneUnopened() returns (ghost clones: seq<Node>)
      requires oe != afe && afe.nodes != [] && Unopened(oe.nodes, afe.nodes[|afe.nodes| - 1])
      modifies oe, afe
      ensures Reconstructed(old(oe.nodes), old(afe.nodes), oe.nodes, afe.nodes, clones)
      ensures forall c :: c in clones ==> fresh(c)
    {
      ghost var s := afe.nodes;
      var i := FirstUnopened();
      clones := CloneFrom(i + 1);
      if DistinctEntries(s) { ClonedDistinct(s, afe.nodes, i + 1, clones); }
    }

    /** clearActiveFormattingElements: pops down to and with the last marker. */
    method ClearActive()
      requires afe.nodes != []
      modifies afe
      ensures afe.nodes == BeforeMarker(old(afe.nodes))
      ensures CutAtMarker(old(afe.nodes), afe.nodes)
      ensures DistinctEntries(old(afe.nodes)) ==> DistinctEntries(afe.nodes)
      ensures old(Boarded()) ==> Boarded()
    {
      hide CutAtMarker;
      BeforeMarkerPrefix(afe.nodes);
      BeforeMarkerMeans(afe.nodes);
      if Boarded() { PrefixBoarded(afe.nodes, BeforeMarker(afe.nodes)); }
      ghost var s := afe.nodes;
      var n := afe.Pop();
      while |afe.nodes| != 0 && !Marker(n)
        invariant BeforeMarker(s) == if Marker(n) then afe.nodes else BeforeMarker(afe.nodes)
        decreases |afe.nodes|
      {
        n := afe.Pop();
      }
    }
  }

  lemma PrefixBoarded(s: seq<Node>, t: seq<Node>)
    requires Listed(s) && Ark(s) && t <= s
    ensures Listed(t) && Ark(t)
  {
    forall e, k | 0 <= k <= |t| ensures |Identical(t[..k], e)| <= 3 { assert t[..k] == s[..k]; }
  }

  lemma StillBoarded(s: seq<Node>, n: Node)
    requires Listed(s) && Ark(s) && n.content.kind == ElementNode && n.content.namespace == ""
    ensures var t := TrimmedFrom(s, n.content, |s| - 1, 0) + [n]; Listed(t) && Ark(t)
  {
    ArkKept(s, n);
    var t := TrimmedFrom(s, n.content, |s| - 1, 0);
    TrimmedInside(s, n.content);
    forall i | 0 <= i < |t| ensures t[i] in s { assert t[i] in t; }
  }

  /** The list when the loop has come down to i: below it untouched, above it what stays of s. */
  ghost predicate Trimming(s: seq<Node>, now: seq<Node>, e: Content, i: int, seen: nat, tail: seq<Node>) {
    && -1 <= i < |s| && now == s[..i + 1] + tail
    && Trimmed(s, e, 0) == Trimmed(s[..i + 1], e, seen) + tail
    && forall x :: x in tail ==> x in s[i + 1..]
  }

  lemma TrimEnd(s: seq<Node>, now: seq<Node>, e: Content, i: int, seen: nat, tail: seq<Node>)
    requires Trimming(s, now, e, i, seen, tail) && (i >= 0 ==> Marker(now[i]))
    ensures now == Trimmed(s, e, 0)
  {
    if i >= 0 {
      assert now[i] == s[..i + 1][i];
    }
  }

  /** Where no entry stands twice the loop makes the trimmed list. */
  lemma {:induction false} TrimmedInPlace(s: seq<Node>, now: seq<Node>, e: Content, i: int, seen: nat, tail: seq<Node>)
    requires DistinctEntries(s) && Trimming(s, now, e, i, seen, tail)
    ensures TrimmedFrom(now, e, i, seen) == Trimmed(s, e, 0)
    decreases i
  {
    if i < 0 || Marker(now[i]) {
      TrimEnd(s, now, e, i, seen, tail);
    } else {
      var n := now[i];
      TrimStep(s, now, e, i, seen, tail);
      if !Family(n.content, e) {
        TrimmedInPlace(s, now, e, i - 1, seen, [n] + tail);
      } else if seen < 2 {
        TrimmedInPlace(s, now, e, i - 1, seen + 1, [n] + tail);
      } else {
        TrimmedInPlace(s, RemovedAt(now, i), e, i - 1, seen + 1, tail);
      }
    }
  }

  lemma Parts(s: seq<Node>, a: seq<Node>, b: seq<Node>)
    requires s == a + b
    ensures multiset(s) == multiset(a) + multiset(b)
  {
  }

  lemma OneMore(t: seq<Node>, n: Node, rest: seq<Node>)
    ensures multiset(t + [n]) + multiset(rest) == multiset(t) + multiset([n] + rest)
  {
    Parts([n] + rest, [n], rest);
    Parts(t + [n], t, [n]);
  }

  lemma WithoutOne(s: seq<Node>, k: nat)
    requires k < |s| && s[k] == s[0]
    ensures multiset(s[..k] + s[k + 1..]) == multiset(s[1..])
  {
    Parts(s, s[..k], s[k..]);
    Parts(s[k..], [s[k]], s[k + 1..]);
    Parts(s, [s[0]], s[1..]);
    Parts(s[..k] + s[k + 1..], s[..k], s[k + 1..]);
    calc {
      multiset(s[..k] + s[k + 1..]) + multiset{s[0]};
      multiset(s[..k]) + (multiset{s[k]} + multiset(s[k + 1..]));
      multiset(s[1..]) + multiset{s[0]};
    }
    assert multiset(s[1..]) == multiset(s[1..]) + multiset{s[0]} - multiset{s[0]};
  }

  lemma TopMostAbove(s: seq<Node>, i: nat, j: int)
    requires i < |s| && j == TopIndex(s, s[i])
    ensures i <= j < |s|
  {
    TailHas(s, j + 1, i);
  }

  lemma TailHas(s: seq<Node>, k: int, i: nat)
    requires i < |s|
    ensures 0 <= k <= i ==> s[i] in s[k..]
  {
    if 0 <= k <= i { assert s[k..][i - k] == s[i]; }
  }

  lemma RemovedAbove(s: seq<Node>, i: nat, j: nat)
    requires i <= j < |s|
    ensures RemovedAt(s, j)[..i] == s[..i] && RemovedAt(s, j)[i..] == s[i..][..j - i] + s[i..][j - i + 1..]
  {
    assert s[i..][j - i + 1..] == s[j + 1..] && s[i..][..j - i] == s[i..j];
  }

  lemma RemovedSame(s: seq<Node>, i: nat, j: nat, above: seq<Node>)
    requires i <= j < |s| && s[j] == s[i] && above == s[i..]
    ensures RemovedAt(s, j)[..i] == s[..i] && multiset(RemovedAt(s, j)[i..]) == multiset(s[i + 1..])
  {
    RemovedAbove(s, i, j);
    WithoutOne(above, j - i);
    assert above[1..] == s[i + 1..];
  }

  /** Whatever the list, the loop leaves the entries of the trimmed one, each as often as it has it. */
  lemma {:induction false} TrimmedSame(s: seq<Node>, e: Content, i: int, seen: nat, front: seq<Node>, rest: seq<Node>)
    requires -1 <= i < |s| && front == s[..i + 1] && rest == s[i + 1..]
    ensures multiset(TrimmedFrom(s, e, i, seen)) == multiset(Trimmed(front, e, seen)) + multiset(rest)
    decreases i, 2
  {
    if i < 0 || Marker(s[i]) {
      Parts(s, front, rest);
    } else if Family(s[i].content, e) && seen >= 2 {
      TrimmedTaken(s, e, i, seen, front, rest);
    } else {
      TrimmedLeft(s, e, i, seen, front, rest);
    }
  }

  /** An entry that stays. */
  lemma {:induction false} TrimmedLeft(s: seq<Node>, e: Content, i: nat, seen: nat, front: seq<Node>, rest: seq<Node>)
    requires i < |s| && front == s[..i + 1] && rest == s[i + 1..]
    requires !Marker(s[i]) && !(Family(s[i].content, e) && seen >= 2)
    ensures multiset(TrimmedFrom(s, e, i, seen)) == multiset(Trimmed(front, e, seen)) + multiset(rest)
    decreases i, 0
  {
    var n, shorter, seen1 := s[i], s[..i], if Family(s[i].content, e) then seen + 1 else seen;
    assert front[..i] == shorter && s[i..] == [n] + rest;
    TrimmedTurn(front, e, seen);
    TrimmedSame(s, e, i - 1, seen1, shorter, [n] + rest);
    OneMore(Trimmed(shorter, e, seen1), n, rest);
  }

  /** An entry too many. */
  lemma {:induction false} TrimmedTaken(s: seq<Node>, e: Content, i: nat, seen: nat, front: seq<Node>, rest: seq<Node>)
    requires i < |s| && front == s[..i + 1] && rest == s[i + 1..]
    requires !Marker(s[i]) && Family(s[i].content, e) && seen >= 2
    ensures multiset(TrimmedFrom(s, e, i, seen)) == multiset(Trimmed(front, e, seen)) + multiset(rest)
    decreases i, 1
  {
    var n, shorter, j := s[i], s[..i], TopIndex(s, s[i]);
    assert front[..i] == shorter && s[i..] == [n] + rest;
    TrimmedTurn(front, e, seen);
    TopMostAbove(s, i, j);
    RemovedSame(s, i, j, [n] + rest);
    TrimmedFromTurn(s, e, i, seen, j);
    TrimmedAway(RemovedAt(s, j), e, i, seen, shorter, rest);
  }

  lemma TrimmedFromTurn(s: seq<Node>, e: Content, i: nat, seen: nat, j: nat)
    requires i < |s| && !Marker(s[i]) && Family(s[i].content, e) && seen >= 2 && j == TopIndex(s, s[i])
    ensures TrimmedFrom(s, e, i, seen) == TrimmedFrom(RemovedAt(s, j), e, i - 1, seen + 1)
  {
  }

  /** An entry too many is removed, here or further up. */
  lemma {:induction false} TrimmedAway(now: seq<Node>, e: Content, i: nat, seen: nat, shorter: seq<Node>,
      rest: seq<Node>)
    requires i <= |now| && shorter == now[..i] && multiset(now[i..]) == multiset(rest)
    ensures multiset(TrimmedFrom(now, e, i - 1, seen + 1)) == multiset(Trimmed(shorter, e, seen + 1)) + multiset(rest)
    decreases i, 0
  {
    TrimmedSame(now, e, i - 1, seen + 1, shorter, now[i..]);
  }

  lemma SameEntries(a: seq<Node>, b: seq<Node>, x: Node)
    requires multiset(a) == multiset(b)
    ensures x in a <==> x in b
  {
    assert x in a <==> x in multiset(a);
  }

  lemma TrimmedEntries(s: seq<Node>, e: Content)
    ensures multiset(TrimmedFrom(s, e, |s| - 1, 0)) == multiset(Trimmed(s, e, 0))
  {
    assert s[..|s|] == s && s[|s|..] == [];
    TrimmedSame(s, e, |s| - 1, 0, s, []);
    var none: seq<Node> := [];
    assert multiset(none) == multiset{};
  }

  lemma TrimmedInside(s: seq<Node>, e: Content)
    ensures forall x :: x in TrimmedFrom(s, e, |s| - 1, 0) ==> x in s
  {
    TrimmedEntries(s, e);
    TrimmedWithin(s, e, 0);
    var t, r := TrimmedFrom(s, e, |s| - 1, 0), Trimmed(s, e, 0);
    forall x | x in t ensures x in s { SameEntries(t, r, x); }
  }

  /** For a list in which no element stands twice the loop is the trimming. */
  lemma TrimmedExactly(s: seq<Node>, e: Content)
    requires DistinctEntries(s)
    ensures TrimmedFrom(s, e, |s| - 1, 0) == Trimmed(s, e, 0) && DistinctEntries(Trimmed(s, e, 0))
  {
    assert s[..|s|] == s && s[|s|..] == [];
    TrimmedInPlace(s, s, e, |s| - 1, 0, []);
    TrimmedDistinct(s, e, 0);
  }

  lemma {:induction false} TrimmedWithin(s: seq<Node>, e: Content, seen: nat)
    ensures forall x :: x in Trimmed(s, e, seen) ==> x in s
  {
    if s != [] && !Marker(s[|s| - 1]) {
      TrimmedTurn(s, e, seen);
      TrimmedWithin(s[..|s| - 1], e, if Family(s[|s| - 1].content, e) then seen + 1 else seen);
    }
  }

  lemma {:induction false} TopMost(front: seq<Node>, n: Node, tail: seq<Node>)
    requires n !in tail
    ensures TopIndex(front + [n] + tail, n) == |front|
    decreases |tail|
  {
    var s, k := front + [n] + tail, |tail| - 1;
    if tail != [] {
      assert s[|s| - 1] == tail[k] && s[..|s| - 1] == front + [n] + tail[..k];
      TopMost(front, n, tail[..k]);
    }
  }

  lemma TrimDrop(s: seq<Node>, e: Content, i: nat, seen: nat, tail: seq<Node>)
    requires i < |s| && Trimming(s, s[..i + 1] + tail, e, i, seen, tail) && Family(s[i].content, e) && seen >= 2
    ensures Trimming(s, s[..i] + tail, e, i - 1, seen + 1, tail)
  {
    assert s[..i + 1][..i] == s[..i] && s[i..] == [s[i]] + s[i + 1..];
    TrimmedTurn(s[..i + 1], e, seen);
  }

  /** One entry kept: the list is the same, seen as one entry of the front moved to the tail. */
  lemma TrimKeep(s: seq<Node>, e: Content, i: nat, seen: nat, tail: seq<Node>, n: Node, front: seq<Node>)
    requires i < |s| && Trimming(s, front + [n] + tail, e, i, seen, tail) && !Marker(n) && n == s[i] && front == s[..i]
    requires !(Family(n.content, e) && seen >= 2)
    ensures Trimming(s, front + [n] + tail, e, i - 1, if Family(n.content, e) then seen + 1 else seen, [n] + tail)
  {
    assert s[..i + 1] == front + [n] && s[..i + 1][..i] == front && s[i..] == [n] + s[i + 1..];
    TrimmedTurn(s[..i + 1], e, seen);
    var t := Trimmed(front, e, if Family(n.content, e) then seen + 1 else seen);
    AppendTail(t, n, tail);
    AppendTail(front, n, tail);
  }

  lemma AppendTail(front: seq<Node>, n: Node, tail: seq<Node>)
    ensures (front + [n]) + tail == front + ([n] + tail)
  {
  }

  /** What one turn of the loop over the entries makes of the trimming: entry n at i dropped or kept. */
  lemma TrimStep(s: seq<Node>, now: seq<Node>, e: Content, i: nat, seen: nat, tail: seq<Node>)
    requires DistinctEntries(s) && Trimming(s, now, e, i, seen, tail) && !Marker(now[i])
    ensures TopIndex(now, now[i]) == i
    ensures Family(now[i].content, e) && seen >= 2 ==> Trimming(s, RemovedAt(now, i), e, i - 1, seen + 1, tail)
    ensures Family(now[i].content, e) && seen < 2 ==> Trimming(s, now, e, i - 1, seen + 1, [now[i]] + tail)
    ensures !Family(now[i].content, e) ==> Trimming(s, now, e, i - 1, seen, [now[i]] + tail)
  {
    var n, front := s[i], s[..i];
    TrimPlace(s, now, e, i, seen, tail);
    TopMost(front, n, tail);
    if Family(n.content, e) && seen >= 2 {
      TrimDrop(s, e, i, seen, tail);
    } else {
      TrimKeep(s, e, i, seen, tail, n, front);
    }
  }

  /** Where entry i stands. */
  lemma TrimPlace(s: seq<Node>, now: seq<Node>, e: Content, i: nat, seen: nat, tail: seq<Node>)
    requires DistinctEntries(s) && Trimming(s, now, e, i, seen, tail) && !Marker(now[i])
    ensures now[i] == s[i] && now == s[..i] + [s[i]] + tail && s[i] !in tail && RemovedAt(now, i) == s[..i] + tail
  {
    assert s[..i + 1] == s[..i] + [s[i]];
    assert s[i] !in s[i + 1..];
  }
}
