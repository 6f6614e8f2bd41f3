/** The generator: assigning indexes over the trie, printing the words, and the whole path from rules to lookup. */
module SuffixGenerator {
  import opened Machine
  import opened ByteOrder
  import opened SuffixRules
  import opened SuffixTable
  import TextLayout

  /** The index fields assignIndexes writes into a node and, below it, its children. */
  datatype Laid = Laid(firstChild: int, childrenIndex: int, kids: seq<Laid>)

  // ---------- positions in preorder ----------

  /** The number of nodes below t. */
  function Size(t: Trie): nat
    decreases t, |t.children| + 1
  {
    |t.children| + SizeUpto(t, |t.children|)
  }

  /** The number of nodes below t's first i children. */
  function SizeUpto(t: Trie, i: nat): nat
    requires i <= |t.children|
    decreases t, i
  {
    if i == 0 then 0 else SizeUpto(t, i - 1) + Size(t.children[i - 1])
  }

  /** The number of nodes at and below t that have children. */
  function Entries(t: Trie): nat
    decreases t, |t.children| + 1
  {
    if t.children == [] then 0 else 1 + EntriesUpto(t, |t.children|)
  }

  function EntriesUpto(t: Trie, i: nat): nat
    requires i <= |t.children|
    decreases t, i
  {
    if i == 0 then 0 else EntriesUpto(t, i - 1) + Entries(t.children[i - 1])
  }

  lemma {:induction false} UptoGrows(t: Trie, i: nat, j: nat)
    requires i <= j <= |t.children|
    ensures SizeUpto(t, i) <= SizeUpto(t, j) && EntriesUpto(t, i) <= EntriesUpto(t, j)
    decreases j
  {
    if i < j { UptoGrows(t, i, j - 1); }
  }

  /** Whether the fields of a table's words are wide enough: entries in the children table, and indexes below HI. */
  predicate Room(entries: nat, encoded: nat, end: int) { entries == 0 || (encoded + entries <= CHILDREN && end < HI) }

  /** Where the children of t's i-th child go, when t's own go at start. */
  function KidStart(t: Trie, i: nat, start: int): int
    requires i <= |t.children|
  {
    start + |t.children| + SizeUpto(t, i)
  }

  /** The children-table entry a node was given. */
  ghost predicate EntryOk(t: Trie, l: Laid, enc: seq<int>) {
    && l.childrenIndex < CHILDREN && EntryOf(enc, l.childrenIndex, t)
    && var u := enc[l.childrenIndex];
       if t.children == [] then EntryLo(u) == 0 && EntryHi(u) == 0
       else EntryLo(u) == l.firstChild && EntryHi(u) == l.firstChild + |t.children|
  }

  /** The fields of everything below t agree with a preorder listing that puts t's children at start. */
  ghost predicate LaidOut(t: Trie, l: Laid, start: int, enc: seq<int>)
    decreases t
  {
    && |l.kids| == |t.children|
    && (t.children != [] ==> l.firstChild == start)
    && forall i :: 0 <= i < |t.children| ==> KidLaid(t, l, i, start, enc)
  }

  ghost predicate KidLaid(t: Trie, l: Laid, i: nat, start: int, enc: seq<int>)
    requires i < |t.children| == |l.kids|
    decreases t, 0
  {
    EntryOk(t.children[i], l.kids[i], enc) && LaidOut(t.children[i], l.kids[i], KidStart(t, i, start), enc)
  }

  lemma {:induction false} LaidOutGrows(t: Trie, l: Laid, start: int, enc: seq<int>, enc2: seq<int>)
    requires LaidOut(t, l, start, enc) && enc <= enc2
    ensures LaidOut(t, l, start, enc2)
    decreases t
  {
    forall i | 0 <= i < |t.children| ensures KidLaid(t, l, i, start, enc2) {
      assert KidLaid(t, l, i, start, enc);
      LaidOutGrows(t.children[i], l.kids[i], KidStart(t, i, start), enc, enc2);
    }
  }

  /** The k-th child's fields. */
  ghost predicate KidOk(t: Trie, k: nat, kid: Laid, start: int, enc: seq<int>) {
    k < |t.children| && EntryOk(t.children[k], kid, enc) && LaidOut(t.children[k], kid, KidStart(t, k, start), enc)
  }

  /** The first children, as far as the walk has come. */
  ghost predicate KidsLaid(t: Trie, kids: seq<Laid>, start: int, enc: seq<int>) {
    |kids| <= |t.children| && forall k :: 0 <= k < |kids| ==> KidOk(t, k, kids[k], start, enc)
  }

  lemma KidOkGrows(t: Trie, k: nat, kid: Laid, start: int, enc: seq<int>, enc2: seq<int>)
    requires KidOk(t, k, kid, start, enc) && enc <= enc2
    ensures KidOk(t, k, kid, start, enc2)
  {
    LaidOutGrows(t.children[k], kid, KidStart(t, k, start), enc, enc2);
  }

  lemma KidsLaidStep(t: Trie, kids: seq<Laid>, start: int, enc: seq<int>, enc2: seq<int>, kid: Laid)
    requires KidsLaid(t, kids, start, enc) && enc <= enc2 && KidOk(t, |kids|, kid, start, enc2)
    ensures KidsLaid(t, kids + [kid], start, enc2)
  {
    forall k | 0 <= k < |kids| ensures KidOk(t, k, kids[k], start, enc2) {
      KidOkGrows(t, k, kids[k], start, enc, enc2);
    }
  }

  lemma EntryOkGrows(t: Trie, l: Laid, l2: Laid, enc: seq<int>, enc2: seq<int>)
    requires EntryOk(t, l, enc) && enc <= enc2 && l2.firstChild == l.firstChild && l2.childrenIndex == l.childrenIndex
    ensures EntryOk(t, l2, enc2)
  {
  }

  lemma KidsLaidAll(t: Trie, l: Laid, start: int, enc: seq<int>)
    requires KidsLaid(t, l.kids, start, enc) && |l.kids| == |t.children| && (t.children != [] ==> l.firstChild == start)
    ensures LaidOut(t, l, start, enc)
  {
    forall i | 0 <= i < |t.children| ensures KidLaid(t, l, i, start, enc) {
      assert KidOk(t, i, l.kids[i], start, enc);
    }
  }

  /** The counters after t's own entry, if it gets one, and its first i children, nothing having overflowed. */
  ghost predicate Assigned(t: Trie, i: nat, start: int, encoded: nat, own: nat, encoded1: nat, next: int) {
    && i <= |t.children| && next == KidStart(t, i, start)
    && encoded1 == encoded + own + EntriesUpto(t, i) && Room(own + EntriesUpto(t, i), encoded, next)
  }

  lemma Overflow(t: Trie, i: nat, encoded: nat, own: nat, start: int)
    requires i <= |t.children| && !Room(own + EntriesUpto(t, i), encoded, start + |t.children| + SizeUpto(t, i))
    ensures !Room(own + EntriesUpto(t, |t.children|), encoded, start + Size(t))
  {
    UptoGrows(t, i, |t.children|);
  }

  // ---------- labels ----------

  ghost predicate LabelsIn(t: Trie, names: set<string>) {
    forall i :: 0 <= i < |t.children| ==> t.children[i].labelText in names && LabelsIn(t.children[i], names)
  }

  lemma {:induction false} PutLabelsIn(ts: seq<Trie>, c: Trie, names: set<string>)
    requires forall i :: 0 <= i < |ts| ==> ts[i].labelText in names && LabelsIn(ts[i], names)
    requires c.labelText in names && LabelsIn(c, names)
    ensures forall i :: 0 <= i < |PutChild(ts, c)| ==>
      PutChild(ts, c)[i].labelText in names && LabelsIn(PutChild(ts, c)[i], names)
  {
    if ts != [] { PutLabelsIn(ts[1..], c, names); }
  }

  lemma {:induction false} ChildLabelsIn(ts: seq<Trie>, labelText: string, names: set<string>)
    requires forall i :: 0 <= i < |ts| ==> LabelsIn(ts[i], names)
    ensures ChildNode(ts, labelText).Some? ==> LabelsIn(ChildNode(ts, labelText).value, names)
  {
    if ts != [] { ChildLabelsIn(ts[1..], labelText, names); }
  }

  lemma {:induction false} AddLabelsIn(t: Trie, path: seq<string>, kind: RuleKind, icann: bool, names: set<string>)
    requires LabelsIn(t, names) && forall i :: 0 <= i < |path| ==> path[i] in names
    ensures LabelsIn(AddRule(t, path, kind, icann), names)
    decreases |path|
  {
    if path != [] {
      var c := ChildOrNew(t, path[0]);
      ChildLabel(t.children, path[0]);
      ChildLabelsIn(t.children, path[0], names);
      AddLabelsIn(c, path[1..], kind, icann, names);
      PutLabelsIn(t.children, AddRule(c, path[1..], kind, icann), names);
    }
  }

  ghost predicate RuleLabelsIn(rules: seq<Rule>, names: set<string>) {
    forall i, j :: 0 <= i < |rules| && 0 <= j < |rules[i].name| ==> rules[i].name[j] in names
  }

  lemma {:induction false} TrieLabelsIn(rules: seq<Rule>, icann: seq<bool>, names: set<string>)
    requires |icann| == |rules| && RuleLabelsIn(rules, names)
    ensures LabelsIn(BuildTrie(rules, icann), names)
  {
    if rules != [] {
      var n := |rules| - 1;
      TrieLabelsIn(rules[..n], icann[..n], names);
      AddLabelsIn(BuildTrie(rules[..n], icann[..n]), rules[n].name, rules[n].kind, icann[n], names);
    }
  }

  /** labelEncoding: where each label lies in the text, within the field widths. */
  ghost predicate Encodes(labelEncoding: map<string, int>, text: string, names: set<string>) {
    forall s :: s in names ==> s in labelEncoding && Encoding(labelEncoding[s], text, s)
  }

  ghost predicate Encoding(e: int, text: string, s: string) {
    && 0 <= LabelOffset(e) < TEXT_OFFSET && |s| < TEXT_LENGTH
    && e == PackLabel(LabelOffset(e), |s|) && TextLayout.OccursAt(text, s, LabelOffset(e))
  }

  // ---------- representation is kept by appending ----------

  lemma {:induction false} RepresentsGrows(ts: seq<Trie>, tab: Tables, tab2: Tables, lo: int, hi: int)
    requires Represents(ts, tab, lo, hi) && tab.nodes <= tab2.nodes && tab.children == tab2.children
    requires tab.text == tab2.text
    ensures Represents(ts, tab2, lo, hi)
  {
    forall i | 0 <= i < |ts| ensures NodeFor(ts[i], tab2, lo + i) {
      assert NodeFor(ts[i], tab, lo + i);
      var u := tab.children[ChildrenIndex(tab.nodes[lo + i])];
      RepresentsGrows(ts[i].children, tab, tab2, EntryLo(u), EntryHi(u));
    }
  }

  class Generator {
    var nextNodesIndex: int
    var childrenEncoding: seq<int>
    var firstCall: bool
    var nodes: seq<int>

    constructor ()
      ensures nextNodesIndex == 0 && childrenEncoding == EMPTY_ENTRIES && firstCall && nodes == []
    {
      nextNodesIndex, childrenEncoding, firstCall, nodes := 0, EMPTY_ENTRIES, true, [];
    }

    /**
     assignIndexes on one node: reserves consecutive indexes for its children and, except for the root,
     gives it a children-table entry. Not ok is the error it returns when a table is full.
     */
    method AssignNode(t: Trie) returns (ok: bool, firstChild: int, childrenIndex: int)
      requires EMPTY_ENTRIES <= childrenEncoding && 0 <= nextNodesIndex
      modifies this`nextNodesIndex, this`childrenEncoding, this`firstCall
      ensures ok ==> nextNodesIndex == old(nextNodesIndex) + |t.children|
      ensures ok ==> old(childrenEncoding) <= childrenEncoding
      ensures t.children != [] ==> firstChild == old(nextNodesIndex) && !firstCall
      ensures var own := if t.children != [] && !old(firstCall) then 1 else 0;
        && (ok <==> Room(own, |old(childrenEncoding)|, old(nextNodesIndex) + |t.children|))
        && (ok ==> |childrenEncoding| == |old(childrenEncoding)| + own)
      ensures !old(firstCall) ==> !firstCall
      ensures ok && !(old(firstCall) && t.children != [])
              ==> EntryOk(t, Laid(firstChild, childrenIndex, []), childrenEncoding)
    {
      firstChild, childrenIndex := 0, 0;
      if t.children != [] {
        firstChild := nextNodesIndex;
        nextNodesIndex := nextNodesIndex + |t.children|;
        if firstCall {
          firstCall := false;
          return true, firstChild, childrenIndex;
        }
        if |childrenEncoding| >= CHILDREN {
          return false, firstChild, childrenIndex;
        }
        childrenIndex := |childrenEncoding|;
        var lo, hi := firstChild, firstChild + |t.children|;
        if lo >= LO || hi >= HI {
          return false, firstChild, childrenIndex;
        }
        ChildrenUnpack(lo, hi, t.nodeType, t.wildcard);
        childrenEncoding := childrenEncoding + [PackChildren(lo, hi, t.nodeType, t.wildcard)];
      } else {
        childrenIndex := TypeCode(t.nodeType);
        if t.wildcard {
          childrenIndex := childrenIndex + NUM_NODE_TYPE;
        }
        EmptyEntries();
        assert childrenEncoding[childrenIndex] == EMPTY_ENTRIES[childrenIndex];
        ChildrenUnpack(0, 0, t.nodeType, t.wildcard);
      }
      ok := true;
    }

    /** walk(assignIndexes) over t and everything below it. It succeeds exactly when the tables have room. */
    method Assign(t: Trie) returns (ok: bool, l: Laid)
      requires EMPTY_ENTRIES <= childrenEncoding && 0 <= nextNodesIndex
      modifies this`nextNodesIndex, this`childrenEncoding, this`firstCall
      ensures ok ==> nextNodesIndex == old(nextNodesIndex) + Size(t) && old(childrenEncoding) <= childrenEncoding
      ensures ok ==> LaidOut(t, l, old(nextNodesIndex), childrenEncoding)
      ensures !old(firstCall) ==> !firstCall && (ok ==> EntryOk(t, l, childrenEncoding))
      ensures var entries := Entries(t) - if t.children != [] && old(firstCall) then 1 else 0;
        && (ok <==> Room(entries, |old(childrenEncoding)|, old(nextNodesIndex) + Size(t)))
        && (ok ==> |childrenEncoding| == |old(childrenEncoding)| + entries)
      decreases t, 2
    {
      ghost var start, encoded := nextNodesIndex, |childrenEncoding|;
      ghost var own := if t.children != [] && !firstCall then 1 else 0;
      var firstChild, childrenIndex;
      ok, firstChild, childrenIndex := AssignNode(t);
      l := Laid(firstChild, childrenIndex, []);
      if !ok {
        Overflow(t, 0, encoded, own, start);
        return;
      }
      ghost var enc := childrenEncoding;
      var kids;
      ok, kids := AssignKids(t, start, encoded, own);
      if ok {
        l := l.(kids := kids);
        KidsLaidAll(t, l, start, childrenEncoding);
        if !old(firstCall) { EntryOkGrows(t, Laid(firstChild, childrenIndex, []), l, enc, childrenEncoding); }
      }
    }

    /** The walk over t's children. */
    method AssignKids(t: Trie, ghost start: int, ghost encoded: nat, ghost own: nat) returns (ok: bool, kids: seq<Laid>)
      requires (t.children != [] ==> !firstCall) && EMPTY_ENTRIES <= childrenEncoding && 0 <= start && own <= 1
      requires Assigned(t, 0, start, encoded, own, |childrenEncoding|, nextNodesIndex)
      modifies this`nextNodesIndex, this`childrenEncoding, this`firstCall
      ensures firstCall == old(firstCall)
      ensures ok ==> old(childrenEncoding) <= childrenEncoding && |kids| == |t.children|
      ensures ok ==> KidsLaid(t, kids, start, childrenEncoding)
      ensures ok ==> Assigned(t, |t.children|, start, encoded, own, |childrenEncoding|, nextNodesIndex)
      ensures !ok ==> !Room(own + EntriesUpto(t, |t.children|), encoded, start + Size(t))
      decreases t, 1
    {
      kids := [];
      for i := 0 to |t.children|
        invariant |kids| == i && EMPTY_ENTRIES <= childrenEncoding && old(childrenEncoding) <= childrenEncoding
        invariant firstCall == old(firstCall)
        invariant Assigned(t, i, start, encoded, own, |childrenEncoding|, nextNodesIndex)
        invariant KidsLaid(t, kids, start, childrenEncoding)
      {
        var more, kid := AssignKid(t, i, kids, start, encoded, own);
        if !more {
          return false, kids;
        }
        kids := kids + [kid];
      }
      ok := true;
    }

    /** One turn of the walk over t's children. */
    method AssignKid(t: Trie, i: nat, ghost kids: seq<Laid>, ghost start: int, ghost encoded: nat, ghost own: nat)
        returns (ok: bool, kid: Laid)
      requires i < |t.children| && i == |kids| && !firstCall && EMPTY_ENTRIES <= childrenEncoding && 0 <= start
      requires own <= 1
      requires Assigned(t, i, start, encoded, own, |childrenEncoding|, nextNodesIndex)
      requires KidsLaid(t, kids, start, childrenEncoding)
      modifies this`nextNodesIndex, this`childrenEncoding, this`firstCall
      ensures !firstCall && (ok ==> old(childrenEncoding) <= childrenEncoding)
      ensures ok ==> Assigned(t, i + 1, start, encoded, own, |childrenEncoding|, nextNodesIndex)
      ensures ok ==> KidsLaid(t, kids + [kid], start, childrenEncoding)
      ensures !ok ==> !Room(own + EntriesUpto(t, |t.children|), encoded, start + Size(t))
      decreases t, 0
    {
      ghost var enc := childrenEncoding;
      ok, kid := Assign(t.children[i]);
      if ok {
        KidsLaidStep(t, kids, start, enc, childrenEncoding, kid);
      } else {
        UptoGrows(t, i + 1, |t.children|);
      }
    }

    ghost function Table(text: string): Tables
      reads this
    {
      Tables(nodes, childrenEncoding, text)
    }

    /** printNode on one node: the words of its children, which land at the index reserved for them. */
    method PrintNode(t: Trie, l: Laid, enc: map<string, int>, text: string, ghost names: set<string>)
      requires Printable(t, l, |nodes|, childrenEncoding, enc, text, names)
      modifies this`nodes
      ensures |nodes| == |old(nodes)| + |t.children| && old(nodes) <= nodes
      ensures WordsFor(t, l, |old(nodes)|, nodes, text)
    {
      for i := 0 to |t.children|
        invariant |nodes| == |old(nodes)| + i && old(nodes) <= nodes
        invariant forall k :: 0 <= k < i ==> WordFor(t.children[k], l.kids[k], nodes[|old(nodes)| + k], text)
      {
        var c, kid := t.children[i], l.kids[i];
        assert KidLaid(t, l, i, |old(nodes)|, childrenEncoding);
        NodeUnpacks(LabelOffset(enc[c.labelText]), |c.labelText|, c.icann, kid.childrenIndex);
        nodes := nodes + [PackNode(enc[c.labelText], c.icann, kid.childrenIndex)];
      }
    }

    /** walk(printNode): afterwards the nodes array represents everything below t. */
    method Print(t: Trie, l: Laid, enc: map<string, int>, text: string, ghost names: set<string>)
      requires Printable(t, l, |nodes|, childrenEncoding, enc, text, names)
      modifies this`nodes
      ensures |nodes| == |old(nodes)| + Size(t) && old(nodes) <= nodes
      ensures Represents(t.children, Table(text), |old(nodes)|, |old(nodes)| + |t.children|)
      decreases t, 1
    {
      ghost var start := |nodes|;
      PrintNode(t, l, enc, text, names);
      ghost var own := nodes;
      PrintBelow(t, l, enc, text, names, start);
      AllShown(t, l, start, own, Table(text));
    }

    /** The nodes below t's first i children are printed, behind those of before. */
    ghost predicate Printing(t: Trie, i: nat, start: nat, text: string, before: seq<int>)
      reads this
    {
      && i <= |t.children| && before <= nodes && |nodes| == KidStart(t, i, start)
      && KidsShown(t, i, start, Table(text))
    }

    /** The walk's recursive calls. */
    method PrintBelow(t: Trie, l: Laid, enc: map<string, int>, text: string, ghost names: set<string>, ghost start: nat)
      requires Printable(t, l, start, childrenEncoding, enc, text, names) && |nodes| == start + |t.children|
      modifies this`nodes
      ensures Printing(t, |t.children|, start, text, old(nodes))
      decreases t, 0, 1
    {
      ghost var before := nodes;
      for i := 0 to |t.children|
        invariant Printing(t, i, start, text, before)
      {
        PrintKid(t, l, enc, text, names, start, i, before);
      }
    }

    method PrintKid(t: Trie, l: Laid, enc: map<string, int>, text: string, ghost names: set<string>,
                    ghost start: nat, i: nat,
                    ghost before: seq<int>)
      requires Printable(t, l, start, childrenEncoding, enc, text, names) && i < |t.children|
      requires Printing(t, i, start, text, before)
      modifies this`nodes
      ensures Printing(t, i + 1, start, text, before)
      decreases t, 0, 0
    {
      KidPrintable(t, l, i, start, childrenEncoding, enc, text, names);
      ghost var table := Table(text);
      Print(t.children[i], l.kids[i], enc, text, names);
      KidsShownStep(t, i, start, table, Table(text));
    }
  }

  /** What printing t at start needs: laid out there, and all its labels encoded. */
  ghost predicate Printable(t: Trie, l: Laid, start: int, children: seq<int>, enc: map<string, int>, text: string,
      names: set<string>) {
    LaidOut(t, l, start, children) && LabelsIn(t, names) && Encodes(enc, text, names)
  }

  ghost predicate WordsFor(t: Trie, l: Laid, start: nat, nodes: seq<int>, text: string) {
    |l.kids| == |t.children| && start + |t.children| <= |nodes|
    && forall i :: 0 <= i < |t.children| ==> WordFor(t.children[i], l.kids[i], nodes[start + i], text)
  }

  /** The subtrees of the first i children are represented at their preorder places. */
  ghost predicate KidsShown(t: Trie, i: nat, start: int, tab: Tables) {
    i <= |t.children| && forall k :: 0 <= k < i ==>
      Represents(t.children[k].children, tab, KidStart(t, k, start), KidStart(t, k, start) + |t.children[k].children|)
  }

  lemma KidsShownStep(t: Trie, i: nat, start: int, tab: Tables, tab2: Tables)
    requires KidsShown(t, i, start, tab) && i < |t.children|
    requires tab.nodes <= tab2.nodes && tab.children == tab2.children && tab.text == tab2.text
    requires Represents(t.children[i].children, tab2, KidStart(t, i, start),
      KidStart(t, i, start) + |t.children[i].children|)
    ensures KidsShown(t, i + 1, start, tab2)
  {
    forall k | 0 <= k < i
      ensures Represents(t.children[k].children, tab2, KidStart(t, k, start),
        KidStart(t, k, start) + |t.children[k].children|)
    {
      RepresentsGrows(t.children[k].children, tab, tab2, KidStart(t, k, start),
        KidStart(t, k, start) + |t.children[k].children|);
    }
  }

  lemma AllShown(t: Trie, l: Laid, start: nat, own: seq<int>, tab: Tables)
    requires LaidOut(t, l, start, tab.children) && KidsShown(t, |t.children|, start, tab)
    requires own <= tab.nodes && start + |t.children| == |own| && WordsFor(t, l, start, own, tab.text)
    ensures Represents(t.children, tab, start, start + |t.children|)
  {
    forall i | 0 <= i < |t.children| ensures NodeFor(t.children[i], tab, start + i) {
      assert KidLaid(t, l, i, start, tab.children);
      assert WordFor(t.children[i], l.kids[i], own[start + i], tab.text) && own[start + i] == tab.nodes[start + i];
      NodeShown(t.children[i], l.kids[i], KidStart(t, i, start), start + i, tab);
    }
  }

  lemma NodeShown(c: Trie, kid: Laid, start: int, k: nat, tab: Tables)
    requires EntryOk(c, kid, tab.children) && LaidOut(c, kid, start, tab.children)
    requires Represents(c.children, tab, start, start + |c.children|)
    requires k < |tab.nodes| && WordFor(c, kid, tab.nodes[k], tab.text)
    ensures NodeFor(c, tab, k)
  {
    if c.children == [] { assert Represents(c.children, tab, 0, 0); }
  }

  lemma KidPrintable(t: Trie, l: Laid, i: nat, start: int, children: seq<int>, enc: map<string, int>, text: string,
      names: set<string>)
    requires Printable(t, l, start, children, enc, text, names) && i < |t.children|
    ensures Printable(t.children[i], l.kids[i], KidStart(t, i, start), children, enc, text, names)
    ensures KidStart(t, i + 1, start) == KidStart(t, i, start) + Size(t.children[i])
  {
    assert KidLaid(t, l, i, start, children);
  }

  lemma EmptyEntries()
    ensures |EMPTY_ENTRIES| == 6
    ensures forall t: NodeType, w: bool ::
      EMPTY_ENTRIES[TypeCode(t) + if w then NUM_NODE_TYPE else 0] == PackChildren(0, 0, t, w)
  {
  }

  /** A nodes word unpacks to its child's label, ICANN flag and children index. */
  ghost predicate WordFor(c: Trie, kid: Laid, x: int, text: string) {
    && LabelLength(x) == |c.labelText| && TextLayout.OccursAt(text, c.labelText, LabelOffset(x))
    && ChildrenIndex(x) == kid.childrenIndex && NodeIcann(x) == Bit(c.icann)
  }

  // ---------- the whole generator, and the lookup on what it generates ----------

  /** The labels of all rules, in the list's order. */
  function AllLabels(rules: seq<Rule>): seq<string> {
    if rules == [] then [] else AllLabels(rules[..|rules| - 1]) + rules[|rules| - 1].name
  }

  lemma {:induction false} AllLabelsHas(rules: seq<Rule>, i: nat, j: nat)
    requires i < |rules| && j < |rules[i].name|
    ensures rules[i].name[j] in AllLabels(rules)
  {
    var n := |rules| - 1;
    if i < n { AllLabelsHas(rules[..n], i, j); }
  }

  /** The same strings, and no longer together. */
  ghost predicate Collected(found: seq<string>, seen: seq<string>) {
    (forall s :: s in found <==> s in seen) && TextLayout.TotalLength(found) <= TextLayout.TotalLength(seen)
  }

  lemma CollectOne(found: seq<string>, seen: seq<string>, s: string)
    requires Collected(found, seen)
    ensures s in found ==> Collected(found, seen + [s])
    ensures Collected(found + [s], seen + [s])
  {
    TextLayout.TotalConcat(seen, [s]);
    TextLayout.TotalConcat(found, [s]);
    assert TextLayout.TotalLength([s]) >= 0;
  }

  /** labelsMap and labelsList: every label of every rule, without duplicates, sorted. */
  method CollectLabels(rules: seq<Rule>) returns (labelsList: seq<string>)
    ensures forall i, j :: 0 <= i < |rules| && 0 <= j < |rules[i].name| ==> rules[i].name[j] in labelsList
    ensures Collected(labelsList, AllLabels(rules)) && Sorted(labelsList)
    ensures forall i, j :: 0 <= i < j < |labelsList| ==> labelsList[i] != labelsList[j]
  {
    var found: seq<string> := [];
    for i := 0 to |rules|
      invariant Collected(found, AllLabels(rules[..i])) && NoneTwice(found)
    {
      found := CollectRule(found, AllLabels(rules[..i]), rules[i].name);
      assert rules[..i + 1][..i] == rules[..i];
    }
    assert rules[..|rules|] == rules;
    labelsList := SortStrings(found);
    TextLayout.TotalPermuted(found, labelsList);
    SameStrings(found, labelsList);
    forall i, j | 0 <= i < |rules| && 0 <= j < |rules[i].name| ensures rules[i].name[j] in labelsList {
      AllLabelsHas(rules, i, j);
    }
  }

  method CollectRule(found0: seq<string>, ghost seen: seq<string>, name: seq<string>) returns (found: seq<string>)
    requires Collected(found0, seen) && NoneTwice(found0)
    ensures Collected(found, seen + name) && NoneTwice(found)
  {
    found := found0;
    assert seen + name[..0] == seen;
    for j := 0 to |name|
      invariant Collected(found, seen + name[..j]) && NoneTwice(found)
    {
      CollectOne(found, seen + name[..j], name[j]);
      assert seen + name[..j + 1] == seen + name[..j] + [name[j]];
      if name[j] !in found {
        found := found + [name[j]];
      }
    }
    assert name[..|name|] == name;
  }

  /** The label encoding loop of printReal; not ok is its "text offset/length is too large" error. */
  method EncodeLabels(labelsList: seq<string>, text: string) returns (ok: bool, enc: map<string, int>)
    requires forall j :: 0 <= j < |labelsList| ==> TextLayout.Occurs(text, labelsList[j])
    ensures ok ==> Encodes(enc, text, set s | s in labelsList)
    ensures !ok ==> |text| >= TEXT_OFFSET || exists s :: s in labelsList && |s| >= TEXT_LENGTH
  {
    enc := map[];
    for j := 0 to |labelsList|
      invariant Encodes(enc, text, set s | s in labelsList[..j])
    {
      var s := labelsList[j];
      var offset := TextLayout.FirstIndex(text, s);
      if offset >= TEXT_OFFSET || |s| >= TEXT_LENGTH {
        return false, enc;
      }
      LabelUnpacks(offset, |s|);
      enc := enc[s := PackLabel(offset, |s|)];
      assert labelsList[..j + 1] == labelsList[..j] + [s];
    }
    assert labelsList[..|labelsList|] == labelsList;
    ok := true;
  }

  lemma LabelUnpacks(offset: int, length: int)
    requires 0 <= offset < TEXT_OFFSET && 0 <= length < TEXT_LENGTH
    ensures LabelOffset(PackLabel(offset, length)) == offset
  {
  }

  lemma {:induction false} PutSize(ts: seq<Trie>, c: Trie)
    ensures |PutChild(ts, c)| <= |ts| + 1
  {
    if ts != [] { PutSize(ts[1..], c); }
  }

  lemma {:induction false} RootSize(rules: seq<Rule>, icann: seq<bool>)
    requires |icann| == |rules| && forall i :: 0 <= i < |rules| ==> rules[i].name != []
    ensures |BuildTrie(rules, icann).children| <= |rules| && !BuildTrie(rules, icann).wildcard
  {
    if rules != [] {
      var n := |rules| - 1;
      RootSize(rules[..n], icann[..n]);
      var t, name := BuildTrie(rules[..n], icann[..n]), rules[n].name;
      PutSize(t.children, AddRule(ChildOrNew(t, name[0]), name[1..], rules[n].kind, icann[n]));
    }
  }

  /**
   What printReal leaves behind. `complete` says that assignIndexes met no full table: the source
   computes that error and drops it, going on to print a table that then represents nothing.
   */
  datatype Generated = Failed | Generated(tab: Tables, numTLD: int, complete: bool)

  /** Some label is too long, or all of them together may be; or there is no text at all. */
  ghost predicate TooLong(labels: seq<string>) {
    || (forall s :: s in labels ==> s == "")
    || (exists s :: s in labels && |s| >= TEXT_LENGTH)
    || TextLayout.TotalLength(labels) >= TEXT_OFFSET
  }

  /**
   main and printReal, from the rules to the tables. It gives up only over the text; the tables are
   complete exactly when the children table and the index fields have room.
   */
  method Generate(rules: seq<Rule>, icann: seq<bool>, crush: bool) returns (g: Generated)
    requires |icann| == |rules| < NOT_FOUND && forall i :: 0 <= i < |rules| ==> rules[i].name != []
    ensures g.Failed? ==> TooLong(AllLabels(rules))
    ensures var root := BuildTrie(rules, icann);
      g.Generated? ==> (g.complete <==> Room(EntriesUpto(root, |root.children|), |EMPTY_ENTRIES|, Size(root)))
    ensures g.Generated? ==> g.numTLD == |BuildTrie(rules, icann).children|
    ensures g.Generated? && g.complete ==> Represents(BuildTrie(rules, icann).children, g.tab, 0, g.numTLD)
  {
    var root := BuildTrie(rules, icann);
    var fits, text, enc, names := EncodeText(rules, crush);
    if !fits {
      return Failed;
    }
    TrieLabelsIn(rules, icann, names);
    g := Tabulate(root, enc, text, names);
  }

  /** printReal from there on: the tables for a trie whose labels are in the text. */
  method Tabulate(root: Trie, enc: map<string, int>, text: string, ghost names: set<string>) returns (g: Generated)
    requires LabelsIn(root, names) && Encodes(enc, text, names)
    ensures g.Generated? && g.numTLD == |root.children|
    ensures g.complete <==> Room(EntriesUpto(root, |root.children|), |EMPTY_ENTRIES|, Size(root))
    ensures g.complete ==> Represents(root.children, g.tab, 0, g.numTLD)
  {
    var gen := new Generator();
    var complete, l := gen.Assign(root);
    if complete {
      gen.Print(root, l, enc, text, names);
    }
    g := Generated(Tables(gen.nodes, gen.childrenEncoding, text), |root.children|, complete);
  }

  /** printReal up to the label encoding: the text and where the labels are in it. */
  method EncodeText(rules: seq<Rule>, crush: bool)
      returns (ok: bool, text: string, enc: map<string, int>, ghost names: set<string>)
    ensures !ok ==> TooLong(AllLabels(rules))
    ensures ok ==> RuleLabelsIn(rules, names) && Encodes(enc, text, names)
  {
    var labelsList := CollectLabels(rules);
    names := set s | s in labelsList;
    text := TextLayout.MakeText(labelsList, crush);
    enc := map[];
    if text == "" {
      forall s | s in labelsList ensures s == "" {
        assert TextLayout.Occurs(text, s);
      }
      return false, text, enc, names;
    }
    ok, enc := EncodeLabels(labelsList, text);
  }

  function ParseRules(lines: seq<string>): (rules: seq<Rule>)
    ensures |rules| == |lines| && forall i :: 0 <= i < |rules| ==> rules[i].name != []
  {
    seq(|lines|, i requires 0 <= i < |lines| => ParseRule(lines[i]))
  }

  /**
   From rules to suffix: whenever the generator's tables did not overflow, looking a domain up in the
   packed table chooses the suffix of the rule that prevails for it, exactly when the domain's shortest
   matching exception rule, if it has one, is not listed behind a plain rule for the same name.
   */
  method SuffixUnder(rules: seq<string>, icann: seq<bool>, crush: bool, domain: string)
      returns (g: Generated, suffix: Option<string>, section: bool, ghost o: Outcome, ghost n: nat)
    requires |icann| == |rules| < NOT_FOUND
    ensures g.Failed? ==> TooLong(AllLabels(ParseRules(rules)))
    ensures var root := BuildTrie(ParseRules(rules), icann);
      g.Generated? ==> (g.complete <==> Room(EntriesUpto(root, |root.children|), |EMPTY_ENTRIES|, Size(root)))
    ensures g.Generated? && g.complete ==>
      && o.k <= |Labels(domain)| && suffix == Chosen(domain, o)
      && (Prevails(ParseRules(rules), Labels(domain), o) <==> ExceptionsLead(ParseRules(rules), Labels(domain)))
    ensures g.Generated? && g.complete ==>
      && ComesTo(ParseRules(rules), Labels(domain), n)
      && section == (n > 0 && AllIcann(ParseRules(rules), icann, Labels(domain)[..n]))
  {
    suffix, section, o, n := None, false, Longest(0), 0;
    var parsed := ParseRules(rules);
    g := Generate(parsed, icann, crush);
    if g.Generated? && g.complete {
      ghost var root := BuildTrie(parsed, icann);
      TrieOrdered(parsed, icann);
      RootSize(parsed, icann);
      WalkPrevails(parsed, icann, Labels(domain));
      o := Walk(root, Labels(domain), 0, 0);
      n := WalkIcannMeans(parsed, icann, Labels(domain));
      suffix, section := PublicSuffix(g.tab, g.numTLD, domain, root);
    }
  }

  // ---------- what the chosen string is ----------

  lemma LastDotSuffix(s: string, p: nat)
    requires p <= |s|
    ensures LastDot(s) >= p ==> LastDot(s[p..]) == LastDot(s) - p
    ensures LastDot(s) < p ==> LastDot(s[p..]) == -1
  {
    var t, d := s[p..], LastDot(s[p..]);
    if d >= 0 { assert s[p + d] == DOT; }
    if LastDot(s) >= p { assert t[LastDot(s) - p] == DOT; }
  }

  lemma LabelsTurn(s: string)
    ensures LastDot(s) < 0 ==> Labels(s) == [s]
    ensures LastDot(s) >= 0 ==> Labels(s) == [s[LastDot(s) + 1..]] + Labels(s[..LastDot(s)])
  {
  }

  /** Cut off at p before the last dot d, s keeps its last label. */
  lemma LabelsCut(s: string, p: nat, d: nat)
    requires p <= d == LastDot(s)
    ensures Labels(s[p..]) == [s[d + 1..]] + Labels(s[..d][p..])
  {
    var t := s[p..];
    LastDotSuffix(s, p);
    LabelsTurn(t);
    assert t[d - p + 1..] == s[d + 1..] && t[..d - p] == s[..d][p..];
  }

  lemma FirstLabels(x: string, ls: seq<string>, k: nat)
    requires 1 <= k <= |ls| + 1
    ensures ([x] + ls)[..k] == [x] + ls[..k - 1]
  {
  }

  /** The last k labels' string: a suffix of the domain whose own labels are exactly those k. */
  lemma {:induction false} ChosenLabels(s: string, k: nat)
    requires 1 <= k <= |Labels(s)|
    ensures Labels(s[TailStart(s, k)..]) == Labels(s)[..k]
    decreases k
  {
    var d, p := LastDot(s), TailStart(s, k);
    LabelsTurn(s);
    if k > 1 {
      ChosenLabels(s[..d], k - 1);
      LabelsCut(s, p, d);
      FirstLabels(s[d + 1..], Labels(s[..d]), k);
    } else {
      LastDotSuffix(s, p);
      LabelsTurn(s[p..]);
    }
  }
}
