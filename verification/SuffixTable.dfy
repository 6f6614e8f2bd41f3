/**
 The packed public suffix table: the bit layout of its words, what a table represents, and the lookup
 that walks it, proved to choose what walking the trie chooses.

 A uint32 is an int here; shifts are multiplications and divisions by powers of two, and `|` of
 fields that do not overlap is addition.
 */
module SuffixTable {
  import opened Machine
  import opened ByteOrder
  import opened SuffixRules
  import TextLayout

  // widths 6, 15, 1, 9 of a nodes word and 14, 14, 2, 1 of a children word
  const TEXT_LENGTH: int := 0x40
  const TEXT_OFFSET: int := 0x8000
  const ICANN: int := 2
  const CHILDREN: int := 0x200
  const LO: int := 0x4000
  const HI: int := 0x4000
  const NODE_TYPE: int := 4
  const NUM_NODE_TYPE: int := 3

  datatype Tables = Tables(nodes: seq<int>, children: seq<int>, text: string)

  // ---------- words ----------

  function TypeCode(t: NodeType): (c: int)
    ensures 0 <= c < NUM_NODE_TYPE
  {
    match t case Normal => 0 case Exception => 1 case ParentOnly => 2
  }

  function Bit(b: bool): (c: int)
    ensures 0 <= c < 2
  {
    if b then 1 else 0
  }

  function PackLabel(offset: int, length: int): int { offset * TEXT_LENGTH + length }

  function PackNode(labelEncoding: int, icann: bool, childrenIndex: int): int {
    labelEncoding + Bit(icann) * (TEXT_LENGTH * TEXT_OFFSET) + childrenIndex * (TEXT_LENGTH * TEXT_OFFSET * ICANN)
  }

  function PackChildren(lo: int, hi: int, t: NodeType, wildcard: bool): int {
    hi * LO + lo + TypeCode(t) * (LO * HI) + Bit(wildcard) * (LO * HI * NODE_TYPE)
  }

  /** The node types and wildcard bits without children that open the children table. */
  const EMPTY_ENTRIES: seq<int> :=
    [PackChildren(0, 0, Normal, false), PackChildren(0, 0, Exception, false), PackChildren(0, 0, ParentOnly, false),
     PackChildren(0, 0, Normal, true), PackChildren(0, 0, Exception, true), PackChildren(0, 0, ParentOnly, true)]

  function LabelLength(x: int): int { x % TEXT_LENGTH }

  function LabelOffset(x: int): int { x / TEXT_LENGTH % TEXT_OFFSET }

  function NodeIcann(x: int): int { x / (TEXT_OFFSET * TEXT_LENGTH) % ICANN }

  function ChildrenIndex(x: int): int { x / (TEXT_OFFSET * TEXT_LENGTH) / ICANN % CHILDREN }

  function EntryLo(u: int): int { u % LO }

  function EntryHi(u: int): int { u / LO % HI }

  function EntryType(u: int): int { u / LO / HI % NODE_TYPE }

  function EntryWildcard(u: int): int { u / LO / HI / NODE_TYPE % 2 }

  lemma NodeUnpacks(offset: int, length: int, icann: bool, childrenIndex: int)
    requires 0 <= offset < TEXT_OFFSET && 0 <= length < TEXT_LENGTH && 0 <= childrenIndex < CHILDREN
    ensures var x := PackNode(PackLabel(offset, length), icann, childrenIndex);
            && 0 <= x <= 0xffff_ffff
            && LabelLength(x) == length && LabelOffset(x) == offset && ChildrenIndex(x) == childrenIndex
            && NodeIcann(x) == Bit(icann)
  {
    var x := PackNode(PackLabel(offset, length), icann, childrenIndex);
    var high := childrenIndex * ICANN + Bit(icann);
    assert x == (high * TEXT_OFFSET + offset) * TEXT_LENGTH + length;
    assert x / TEXT_LENGTH == high * TEXT_OFFSET + offset;
    assert x / (TEXT_OFFSET * TEXT_LENGTH) == high;
  }

  lemma ChildrenUnpack(lo: int, hi: int, t: NodeType, wildcard: bool)
    requires 0 <= lo < LO && 0 <= hi < HI
    ensures var u := PackChildren(lo, hi, t, wildcard);
            && 0 <= u <= 0xffff_ffff
            && EntryLo(u) == lo && EntryHi(u) == hi && EntryType(u) == TypeCode(t) && EntryWildcard(u) == Bit(wildcard)
  {
    var u := PackChildren(lo, hi, t, wildcard);
    var v := hi + TypeCode(t) * HI + Bit(wildcard) * (HI * NODE_TYPE);
    assert u == v * LO + lo && u / LO == v;
    assert v / HI == TypeCode(t) + Bit(wildcard) * NODE_TYPE;
  }

  // ---------- what a table represents ----------

  ghost predicate LabelAt(tab: Tables, k: int, labelText: string) {
    0 <= k < |tab.nodes| && TextLayout.OccursAt(tab.text, labelText, LabelOffset(tab.nodes[k]))
    && LabelLength(tab.nodes[k]) == |labelText|
  }

  ghost predicate EntryOf(children: seq<int>, ci: int, t: Trie) {
    && 0 <= ci < |children|
    && EntryType(children[ci]) == TypeCode(t.nodeType) && EntryWildcard(children[ci]) == Bit(t.wildcard)
  }

  /** nodes[lo..hi] are the trees ts, in order, with everything below them. */
  ghost predicate Represents(ts: seq<Trie>, tab: Tables, lo: int, hi: int) {
    0 <= lo && hi == lo + |ts| && forall i :: 0 <= i < |ts| ==> NodeFor(ts[i], tab, lo + i)
  }

  ghost predicate NodeFor(t: Trie, tab: Tables, k: int) {
    && LabelAt(tab, k, t.labelText) && NodeIcann(tab.nodes[k]) == Bit(t.icann)
    && var ci := ChildrenIndex(tab.nodes[k]);
       EntryOf(tab.children, ci, t) && Represents(t.children, tab, EntryLo(tab.children[ci]), EntryHi(tab.children[ci]))
  }

  // ---------- lookup ----------

  const NOT_FOUND: int := 0xffff_ffff

  /** nodeLabel: the text of node k. */
  function NodeLabel(tab: Tables, k: int): string
    requires 0 <= k < |tab.nodes|
    requires 0 <= LabelOffset(tab.nodes[k]) && LabelOffset(tab.nodes[k]) + LabelLength(tab.nodes[k]) <= |tab.text|
  {
    tab.text[LabelOffset(tab.nodes[k])..LabelOffset(tab.nodes[k]) + LabelLength(tab.nodes[k])]
  }

  lemma {:induction false} IncreasingPair(ts: seq<Trie>, i: nat, j: nat)
    requires Increasing(ts) && i < j < |ts|
    ensures Less(ts[i].labelText, ts[j].labelText)
    decreases j
  {
    if i > 0 {
      IncreasingPair(ts[1..], i - 1, j - 1);
    } else if j > 1 {
      IncreasingPair(ts[1..], 0, j - 1);
      LessTrans(ts[0].labelText, ts[1].labelText, ts[j].labelText);
    }
  }

  lemma {:induction false} ChildAt(ts: seq<Trie>, i: nat)
    requires Increasing(ts) && i < |ts|
    ensures ChildNode(ts, ts[i].labelText) == Some(ts[i])
  {
    if i > 0 {
      IncreasingPair(ts, 0, i);
      LessTotal(ts[0].labelText, ts[i].labelText);
      ChildAt(ts[1..], i - 1);
    }
  }

  lemma {:induction false} NoChild(ts: seq<Trie>, labelText: string)
    requires forall i :: 0 <= i < |ts| ==> ts[i].labelText != labelText
    ensures ChildNode(ts, labelText) == None
  {
    if ts != [] { NoChild(ts[1..], labelText); }
  }

  /** The half the search gives up does not hold the label. */
  lemma OneSide(ts: seq<Trie>, m: nat, labelText: string)
    requires Increasing(ts) && m < |ts| && ts[m].labelText != labelText
    ensures Less(ts[m].labelText, labelText) ==> forall i :: 0 <= i <= m ==> ts[i].labelText != labelText
    ensures !Less(ts[m].labelText, labelText) ==> forall i :: m <= i < |ts| ==> ts[i].labelText != labelText
  {
    LessTotal(ts[m].labelText, labelText);
    forall i | 0 <= i < |ts| && i != m && ts[i].labelText == labelText
      ensures if i < m then Less(labelText, ts[m].labelText) else Less(ts[m].labelText, labelText)
    {
      if i < m { IncreasingPair(ts, i, m); } else { IncreasingPair(ts, m, i); }
    }
  }

  /** The labels of the nodes from lo on are those of ts. */
  ghost predicate LabelsAt(ts: seq<Trie>, tab: Tables, lo: int) {
    forall i :: 0 <= i < |ts| ==> LabelAt(tab, lo + i, ts[i].labelText)
  }

  lemma RepresentedLabels(ts: seq<Trie>, tab: Tables, lo: int, hi: int)
    requires Represents(ts, tab, lo, hi)
    ensures LabelsAt(ts, tab, lo)
  {
    forall i | 0 <= i < |ts| ensures LabelAt(tab, lo + i, ts[i].labelText) {
      assert NodeFor(ts[i], tab, lo + i);
    }
  }

  lemma MiddleLabel(ts: seq<Trie>, tab: Tables, lo: int, k: int)
    requires LabelsAt(ts, tab, lo) && lo <= k < lo + |ts|
    ensures LabelAt(tab, k, ts[k - lo].labelText) && NodeLabel(tab, k) == ts[k - lo].labelText
  {
    assert LabelAt(tab, lo + (k - lo), ts[k - lo].labelText);
  }

  /** No tree of ts[a..b] has the label. */
  ghost predicate Absent(ts: seq<Trie>, a: int, b: int, labelText: string) {
    forall i :: a <= i < b && 0 <= i < |ts| ==> ts[i].labelText != labelText
  }

  lemma NarrowDown(ts: seq<Trie>, a: int, b: int, m: int, labelText: string)
    requires Increasing(ts) && 0 <= a <= m < b <= |ts|
    requires Absent(ts, 0, a, labelText) && Absent(ts, b, |ts|, labelText)
    ensures Less(ts[m].labelText, labelText) ==> Absent(ts, 0, m + 1, labelText)
    ensures !Less(ts[m].labelText, labelText) && ts[m].labelText != labelText ==> Absent(ts, m, |ts|, labelText)
  {
    LessTotal(ts[m].labelText, labelText);
    if ts[m].labelText != labelText {
      OneSide(ts, m, labelText);
    }
  }

  /** One turn of the search, s being the label at the middle: it is the one, or one half is left. */
  method Halve(s: string, labelText: string, mid: int, lo: int, hi: int, ghost lo0: int, ghost ts: seq<Trie>)
      returns (found: bool, lo1: int, hi1: int)
    requires Increasing(ts) && lo0 <= lo <= mid < hi <= lo0 + |ts| && s == ts[mid - lo0].labelText
    requires Absent(ts, 0, lo - lo0, labelText) && Absent(ts, hi - lo0, |ts|, labelText)
    ensures found ==> s == labelText
    ensures !found ==> lo <= lo1 <= hi1 <= hi && hi1 - lo1 < hi - lo
    ensures !found ==> Absent(ts, 0, lo1 - lo0, labelText) && Absent(ts, hi1 - lo0, |ts|, labelText)
  {
    NarrowDown(ts, lo - lo0, hi - lo0, mid - lo0, labelText);
    if Less(s, labelText) {
      return false, mid + 1, hi;
    } else if s == labelText {
      return true, mid, hi;
    }
    return false, lo, mid;
  }

  /** find: binary search for a label among the nodes lo..hi. */
  method Find(tab: Tables, labelText: string, lo0: int, hi0: int, ghost ts: seq<Trie>) returns (f: int)
    requires Represents(ts, tab, lo0, hi0) && Increasing(ts) && hi0 < NOT_FOUND
    ensures f == NOT_FOUND ==> ChildNode(ts, labelText) == None
    ensures f != NOT_FOUND ==> lo0 <= f < hi0 && ChildNode(ts, labelText) == Some(ts[f - lo0])
  {
    RepresentedLabels(ts, tab, lo0, hi0);
    var lo, hi := lo0, hi0;
    while lo < hi
      invariant lo0 <= lo <= hi <= hi0 == lo0 + |ts|
      invariant Absent(ts, 0, lo - lo0, labelText) && Absent(ts, hi - lo0, |ts|, labelText)
    {
      var mid := lo + (hi - lo) / 2;
      MiddleLabel(ts, tab, lo0, mid);
      var found;
      found, lo, hi := Halve(NodeLabel(tab, mid), labelText, mid, lo, hi, lo0, ts);
      if found {
        ChildAt(ts, mid - lo0);
        return mid;
      }
    }
    NoChild(ts, labelText);
    f := NOT_FOUND;
  }

  /** Where the last k labels of s start. */
  function TailStart(s: string, k: nat): (p: nat)
    requires 1 <= k <= |Labels(s)|
    ensures p <= |s| && (k > 1 ==> p < |s|)
    decreases |s|
  {
    var d := LastDot(s);
    if k == 1 then d + 1 else TailStart(s[..d], k - 1)
  }

  /** The suffix an outcome stands for; None is the slice panic of an exception rule with a single label. */
  function Chosen(domain: string, o: Outcome): Option<string>
    requires o.k <= |Labels(domain)|
  {
    match o
    case Excepted(k) => if k == 0 then None else Some(domain[TailStart(domain, k)..])
    case Longest(k) => Some(domain[TailStart(domain, if k == 0 then 1 else k)..])
  }

  /** s is what is left of domain after its last d labels and their dots. */
  ghost predicate Consumed(domain: string, s: string, d: nat) {
    && s <= domain && d < |Labels(domain)| && Labels(domain)[d..] == Labels(s)
    && (forall k :: 1 <= k <= |Labels(s)| ==> TailStart(domain, d + k) == TailStart(s, k))
    && (d > 0 ==> TailStart(domain, d) == |s| + 1 <= |domain|)
  }

  lemma ConsumeStep(domain: string, s: string, d: nat)
    requires Consumed(domain, s, d)
    ensures var dot := LastDot(s);
            && Labels(domain)[d] == s[dot + 1..] && TailStart(domain, d + 1) == dot + 1
            && (dot < 0 ==> d + 1 == |Labels(domain)|)
            && (dot >= 0 ==> Consumed(domain, s[..dot], d + 1))
  {
    var dot, ls := LastDot(s), Labels(domain);
    assert ls[d] == ls[d..][0];
    assert TailStart(s, 1) == dot + 1;
    if dot >= 0 {
      assert ls[d + 1..] == ls[d..][1..] == Labels(s[..dot]);
      forall k | 1 <= k <= |Labels(s[..dot])| ensures TailStart(domain, d + 1 + k) == TailStart(s[..dot], k) {
        assert TailStart(s, k + 1) == TailStart(s[..dot], k);
      }
    }
  }

  /** What is left of the domain after its last d labels and their dots. */
  function Left(domain: string, d: nat): string {
    if d == 0 then domain
    else
      var s := Left(domain, d - 1);
      if LastDot(s) < 0 then "" else s[..LastDot(s)]
  }

  lemma {:induction false} LeftConsumed(domain: string, d: nat)
    requires d < |Labels(domain)|
    ensures Consumed(domain, Left(domain, d), d)
  {
    if d > 0 {
      LeftConsumed(domain, d - 1);
      ConsumeStep(domain, Left(domain, d - 1), d - 1);
    }
  }

  /** One past the end of what is left of the domain after d labels. */
  function Before(domain: string, d: nat): int
    requires d <= |Labels(domain)|
  {
    if d == 0 then |domain| + 1 else TailStart(domain, d)
  }

  /** Label d of the domain stands behind the dot in s, which is what is left of it. */
  ghost predicate LabelBehind(domain: string, s: string, dot: int, d: nat) {
    && d < |Labels(domain)| && -1 <= dot < |s| && Labels(domain)[d] == s[1 + dot..]
    && 1 + dot == Cursor(domain, d + 1) && 1 + |s| == Before(domain, d)
    && (dot == -1 ==> d + 1 == |Labels(domain)|)
    && (dot >= 0 ==> d + 1 < |Labels(domain)| && s[..dot] == Left(domain, d + 1))
  }

  /** The label that the walk looks up after d labels, and where it stands. */
  lemma NextLabel(domain: string, s: string, d: nat)
    requires d < |Labels(domain)| && s == Left(domain, d)
    ensures LabelBehind(domain, s, LastDot(s), d)
  {
    LeftConsumed(domain, d);
    ConsumeStep(domain, s, d);
  }

  /** The suffix cursor for `best` matched labels; none yet is the end of the domain. */
  function Cursor(domain: string, best: nat): int
    requires best <= |Labels(domain)|
  {
    if best == 0 then |domain| else TailStart(domain, best)
  }

  /** The final slice of PublicSuffix. */
  method Slice(domain: string, suffix: int, ghost o: Outcome) returns (r: Option<string>)
    requires o.k <= |Labels(domain)|
    requires suffix == if o == Excepted(0) then |domain| + 1 else Cursor(domain, o.k)
    ensures r == Chosen(domain, o)
  {
    if suffix == |domain| {
      return Some(domain[LastDot(domain) + 1..]);
    }
    if suffix > |domain| {
      return None;
    }
    r := Some(domain[suffix..]);
  }

  /** Where the walk over the trie stands: at t, after d labels, with best of them matched. */
  datatype Place = Place(t: Trie, d: nat, best: nat)

  /**
   Where the walk over the table stands: the children's range, what is left of the domain, the suffix cursor, the
   wildcard flag and the ICANN flag.
   */
  datatype Spot = Spot(lo: int, hi: int, s: string, suffix: int, wildcard: bool, icann: bool)

  /** What the walk has reached: its outcome is o, and the cursor is that of the best match. */
  ghost predicate Reached(o: Outcome, domain: string, suffix: int, g: Place) {
    && g.best <= g.d <= |Labels(domain)| && suffix == Cursor(domain, g.best) && Ordered(g.t)
    && o == Walk(g.t, Labels(domain), g.d, g.best)
  }

  /** The range holds the children of t. */
  ghost predicate Below(tab: Tables, p: Spot, t: Trie) {
    Represents(t.children, tab, p.lo, p.hi) && p.hi < NOT_FOUND && p.wildcard == t.wildcard
  }

  /** The table's walk stands where the trie's does, whatever the table is; o is what comes out. */
  ghost predicate Standing(o: Outcome, domain: string, p: Spot, g: Place) {
    && Reached(o, domain, p.suffix, g) && p.wildcard == g.t.wildcard
    && g.d < |Labels(domain)| && p.s == Left(domain, g.d) && (g.d == 0 ==> !p.wildcard)
  }

  /** The two walks stand at the same place. */
  ghost predicate Walking(o: Outcome, tab: Tables, domain: string, p: Spot, g: Place) {
    Below(tab, p, g.t) && Standing(o, domain, p, g)
  }

  /** The words of node f and of its entry in the children table. */
  method ReadNode(tab: Tables, f: int, p0: Spot, ghost c: Trie) returns (p: Spot, nodeType: int)
    requires NodeFor(c, tab, f)
    ensures p == p0.(lo := p.lo, hi := p.hi, wildcard := p.wildcard, icann := c.icann) && Below(tab, p, c)
    ensures nodeType == TypeCode(c.nodeType)
  {
    var u := tab.children[ChildrenIndex(tab.nodes[f])];
    nodeType := EntryType(u);
    p := p0.(lo := EntryLo(u), hi := EntryHi(u), wildcard := EntryWildcard(u) != 0,
      icann := NodeIcann(tab.nodes[f]) != 0);
  }

  /** The walk from the child c that was found for label d - 1. */
  function WalkInto(c: Trie, names: seq<string>, d: nat, best: nat): Outcome
    requires 1 <= d <= |names|
  {
    match c.nodeType
    case Normal => Walk(c, names, d, d)
    case Exception => Excepted(d - 1)
    case ParentOnly => Walk(c, names, d, best)
  }

  /** The child for label d of the names, and what the walk does there. */
  lemma WalkAt(t: Trie, names: seq<string>, d: nat, best: nat)
    requires d < |names| && Ordered(t)
    ensures var best1 := if t.wildcard then d + 1 else best;
      match ChildNode(t.children, names[d])
      case None => Walk(t, names, d, best) == Longest(best1)
      case Some(c) => Ordered(c) && Walk(t, names, d, best) == WalkInto(c, names, d + 1, best1)
  {
    ChildOrdered(t.children, names[d]);
  }

  ghost predicate Answers(domain: string, o: Outcome, r: Option<string>) {
    o.k <= |Labels(domain)| && r == Chosen(domain, o)
  }

  /** The answer when the walk stops with the best match. */
  method Stop(domain: string, suffix: int, ghost o: Outcome, ghost best: nat) returns (r: Option<string>)
    requires Stopped(o, domain, suffix, best)
    ensures Answers(domain, o, r)
  {
    r := Slice(domain, suffix, Longest(best));
  }

  /** The node of the child with that label, if the range is not empty and holds one. */
  method LookUp(tab: Tables, labelText: string, p: Spot, ghost t: Trie) returns (f: int)
    requires Below(tab, p, t) && Increasing(t.children)
    ensures f == NOT_FOUND ==> ChildNode(t.children, labelText) == None
    ensures f != NOT_FOUND ==> var c := ChildNode(t.children, labelText); c.Some? && NodeFor(c.value, tab, f)
  {
    if p.lo == p.hi {
      NoChild(t.children, labelText);
      return NOT_FOUND;
    }
    f := Find(tab, labelText, p.lo, p.hi, t.children);
    if f != NOT_FOUND {
      assert NodeFor(t.children[f - p.lo], tab, p.lo + (f - p.lo));
    }
  }

  /** The walk into c with label d of the domain just consumed; s is what was left before it, dot where it starts. */
  ghost predicate Entering(o: Outcome, domain: string, p: Spot, dot: int, c: Trie, g: Place) {
    && 1 <= g.d <= |Labels(domain)| && g.best <= g.d && p.suffix == Cursor(domain, g.best) && g.t == c && Ordered(c)
    && -1 <= dot < |p.s| && 1 + dot == Cursor(domain, g.d) && 1 + |p.s| == Before(domain, g.d - 1)
    && (dot == -1 ==> g.d == |Labels(domain)|)
    && (dot >= 0 ==> g.d < |Labels(domain)| && p.s[..dot] == Left(domain, g.d))
    && o == WalkInto(c, Labels(domain), g.d, g.best)
  }

  /** The cursor and best match are those of the outcome. */
  ghost predicate Stopped(o: Outcome, domain: string, suffix: int, best: nat) {
    best <= |Labels(domain)| && suffix == Cursor(domain, best) && o == Longest(best)
  }

  /** What looking the next label up among the children of t will lead to. */
  ghost predicate Looking(o: Outcome, domain: string, p: Spot, dot: int, t: Trie, d: nat, best: nat) {
    && -1 <= dot < |p.s|
    && match ChildNode(t.children, p.s[1 + dot..])
       case None => Stopped(o, domain, p.suffix, best)
       case Some(c) => Entering(o, domain, p, dot, c, Place(c, d + 1, best))
  }

  /** ic is the flag that the walk over the trie ends with. */
  ghost predicate IcannAhead(ic: bool, domain: string, p: Spot, g: Place) {
    g.d <= |Labels(domain)| && ic == WalkIcann(g.t, Labels(domain), g.d, p.icann)
  }

  /** The same from the node that was found for label d - 1. */
  ghost predicate IcannInto(ic: bool, domain: string, c: Trie, d: nat) {
    d <= |Labels(domain)| && ic == if c.nodeType == Exception then c.icann else WalkIcann(c, Labels(domain), d, c.icann)
  }

  /** Looking the next label up among the children of g.t. */
  lemma NextIcann(ic: bool, o: Outcome, domain: string, p: Spot, dot: int, g: Place)
    requires Standing(o, domain, p, g) && dot == LastDot(p.s) && IcannAhead(ic, domain, p, g)
    ensures match ChildNode(g.t.children, p.s[1 + dot..])
      case None => ic == p.icann
      case Some(c) => IcannInto(ic, domain, c, g.d + 1)
  {
    NextLabel(domain, p.s, g.d);
  }

  /** A wildcard matches the next label; then that label is looked up. */
  lemma NextLooking(o: Outcome, domain: string, p: Spot, dot: int, g: Place)
    requires Standing(o, domain, p, g) && dot == LastDot(p.s)
    ensures var suffix, best := if p.wildcard then 1 + dot else p.suffix, if p.wildcard then g.d + 1 else g.best;
      Looking(o, domain, p.(suffix := suffix), dot, g.t, g.d, best)
  {
    NextLabel(domain, p.s, g.d);
    if p.wildcard {
      LookingAt(o, domain, p.(suffix := 1 + dot), dot, g.t, g.d, g.d + 1, g.best);
    } else {
      LookingAt(o, domain, p, dot, g.t, g.d, g.best, g.best);
    }
  }

  /** The cursor is that of the best match then. */
  lemma LookingAt(o: Outcome, domain: string, p: Spot, dot: int, t: Trie, d: nat, best1: nat, best: nat)
    requires LabelBehind(domain, p.s, dot, d) && Ordered(t) && best1 == if t.wildcard then d + 1 else best
    requires best <= d && p.suffix == Cursor(domain, best1) && o == Walk(t, Labels(domain), d, best)
    ensures Looking(o, domain, p, dot, t, d, best1)
  {
    WalkAt(t, Labels(domain), d, best);
  }

  /** The first half of a turn: a wildcard here matches one label more, then the next label is looked up. */
  method StepDown(tab: Tables, domain: string, p0: Spot, ghost o: Outcome, ghost ic: bool, ghost g0: Place)
      returns (f: int, dot: int, p: Spot, ghost g: Place)
    requires Walking(o, tab, domain, p0, g0) && IcannAhead(ic, domain, p0, g0)
    ensures p == p0.(suffix := p.suffix)
    ensures if f == NOT_FOUND then Stopped(o, domain, p.suffix, g.best) && ic == p.icann
            else NodeFor(g.t, tab, f) && Entering(o, domain, p, dot, g.t, g) && IcannInto(ic, domain, g.t, g.d)
  {
    p, g := p0, g0;
    dot := LastDot(p.s);
    NextLooking(o, domain, p, dot, g);
    NextIcann(ic, o, domain, p, dot, g);
    if p.wildcard {
      p := p.(suffix := 1 + dot);
      g := g.(best := g.d + 1);
    }
    f := LookUp(tab, p.s[1 + dot..], p, g.t);
    if f != NOT_FOUND {
      g := Place(ChildNode(g.t.children, p.s[1 + dot..]).value, g.d + 1, g.best);
    }
  }

  /** The second half of a turn, at node f for the trie g.t: done with the answer, or one level further down. */
  method ReadDown(tab: Tables, f: int, domain: string, p0: Spot, dot: int, ghost o: Outcome, ghost ic: bool,
      ghost g0: Place)
      returns (done: bool, r: Option<string>, p: Spot, ghost g: Place)
    requires NodeFor(g0.t, tab, f) && Entering(o, domain, p0, dot, g0.t, g0) && IcannInto(ic, domain, g0.t, g0.d)
    ensures done ==> Answers(domain, o, r) && p.icann == ic
    ensures !done ==> |p.s| < |p0.s| && Walking(o, tab, domain, p, g) && IcannAhead(ic, domain, p, g)
  {
    done, r, g := true, None, g0;
    var nodeType;
    p, nodeType := ReadNode(tab, f, p0, g.t);
    if nodeType == TypeCode(Exception) {
      r := Slice(domain, 1 + |p.s|, Excepted(g.d - 1));
      return;
    }
    if nodeType == TypeCode(Normal) {
      p := p.(suffix := 1 + dot);
      g := g.(best := g.d);
    }
    if dot == -1 {
      r := Stop(domain, p.suffix, o, g.best);
      return;
    }
    done, p := false, p.(s := p.s[..dot]);
  }

  /** PublicSuffix: the packed walk chooses what walking the trie would, with the ICANN flag that it ends with. */
  method PublicSuffix(tab: Tables, numTLD: int, domain: string, ghost root: Trie)
      returns (r: Option<string>, icann: bool)
    requires Represents(root.children, tab, 0, numTLD) && numTLD < NOT_FOUND && Ordered(root) && !root.wildcard
    ensures Walk(root, Labels(domain), 0, 0).k <= |Labels(domain)|
    ensures r == Chosen(domain, Walk(root, Labels(domain), 0, 0))
    ensures icann == WalkIcann(root, Labels(domain), 0, false)
  {
    ghost var o, g := Walk(root, Labels(domain), 0, 0), Place(root, 0, 0);
    ghost var ic := WalkIcann(root, Labels(domain), 0, false);
    var p := Spot(0, numTLD, domain, |domain|, false, false);
    var done := false;
    r := None;
    while !done
      invariant !done ==> Walking(o, tab, domain, p, g) && IcannAhead(ic, domain, p, g)
      invariant done ==> Answers(domain, o, r) && p.icann == ic
      decreases !done, |p.s|
    {
      var f, dot;
      f, dot, p, g := StepDown(tab, domain, p, o, ic, g);
      if f == NOT_FOUND {
        r := Stop(domain, p.suffix, o, g.best);
        return r, p.icann;
      }
      done, r, p, g := ReadDown(tab, f, domain, p, dot, o, ic, g);
    }
    icann := p.icann;
  }

  // ---------- one label more ----------

  lemma TailStartTurn(s: string, k: nat)
    requires 1 <= k <= |Labels(s)|
    ensures LastDot(s) < 0 ==> |Labels(s)| == 1
    ensures LastDot(s) >= 0 ==> |Labels(s)| == 1 + |Labels(s[..LastDot(s)])|
    ensures TailStart(s, k) == if k == 1 then LastDot(s) + 1 else TailStart(s[..LastDot(s)], k - 1)
  {
  }

  /** Before the suffix of k labels stand a dot and one more label, or nothing. */
  ghost predicate OneBefore(s: string, k: nat)
    requires 1 <= k <= |Labels(s)|
  {
    var p := TailStart(s, k);
    if k == |Labels(s)| then p == 0
    else 0 < p <= |s| && s[p - 1] == DOT && TailStart(s, k + 1) == LastDot(s[..p - 1]) + 1
  }

  /** The labels before the last dot d have it there, so s has it. */
  lemma OneBeforeCut(s: string, d: nat, k: nat)
    requires d == LastDot(s) && 1 <= k <= |Labels(s[..d])| && OneBefore(s[..d], k)
    ensures k + 1 <= |Labels(s)| && OneBefore(s, k + 1)
  {
    TailStartTurn(s, k + 1);
    if k < |Labels(s[..d])| {
      TailStartTurn(s, k + 2);
      SliceOfFront(s, d, TailStart(s[..d], k));
    }
  }

  lemma SliceOfFront(s: string, d: nat, p: nat)
    requires 0 < p <= d <= |s|
    ensures s[..d][..p - 1] == s[..p - 1] && s[..d][p - 1] == s[p - 1]
  {
  }

  lemma {:induction false} TailStartNext(s: string, k: nat)
    requires 1 <= k <= |Labels(s)|
    ensures OneBefore(s, k)
    decreases k
  {
    TailStartTurn(s, k);
    if k > 1 {
      TailStartNext(s[..LastDot(s)], k - 1);
      OneBeforeCut(s, LastDot(s), k - 1);
    } else if k < |Labels(s)| {
      TailStartTurn(s, 2);
      TailStartTurn(s[..LastDot(s)], 1);
    }
  }

  datatype PlusOne = CannotDerive | InvalidSuffix | PlusOne(name: string)

  /** The name with one label more than the suffix of k labels, or the error that there is none. */
  function OneMore(domain: string, k: nat): PlusOne
    requires 1 <= k <= |Labels(domain)|
  {
    if k == |Labels(domain)| then CannotDerive else PlusOne(domain[TailStart(domain, k + 1)..])
  }

  /** The steps of EffectiveTLDPlusOne for a given suffix. */
  function Derived(domain: string, suffix: string): PlusOne {
    if |domain| <= |suffix| then CannotDerive
    else
      var i := |domain| - |suffix| - 1;
      if domain[i] != DOT then InvalidSuffix else PlusOne(domain[1 + LastDot(domain[..i])..])
  }

  lemma DerivedIsOneMore(domain: string, suffix: string, k: nat)
    requires 1 <= k <= |Labels(domain)| && suffix == domain[TailStart(domain, k)..]
    ensures Derived(domain, suffix) == OneMore(domain, k)
  {
    TailStartNext(domain, k);
    OneMoreBehind(domain, k, TailStart(domain, k));
    DerivedBehind(domain, suffix, TailStart(domain, k));
  }

  lemma OneMoreBehind(domain: string, k: nat, p: nat)
    requires 1 <= k <= |Labels(domain)| && OneBefore(domain, k) && p == TailStart(domain, k)
    ensures p <= |domain| && (p > 0 ==> domain[p - 1] == DOT)
    ensures OneMore(domain, k) == if p == 0 then CannotDerive else PlusOne(domain[1 + LastDot(domain[..p - 1])..])
  {
  }

  lemma DerivedBehind(domain: string, suffix: string, p: nat)
    requires p <= |domain| && suffix == domain[p..] && (p > 0 ==> domain[p - 1] == DOT)
    ensures Derived(domain, suffix) == if p == 0 then CannotDerive else PlusOne(domain[1 + LastDot(domain[..p - 1])..])
  {
    assert |domain| - |suffix| - 1 == p - 1;
  }

  /**
   EffectiveTLDPlusOne: the name with one label more than the suffix that the walk chooses, or an error exactly
   when that suffix is the whole domain. Its other error cannot happen; None is the slice panic of PublicSuffix.
   */
  method EffectiveTLDPlusOne(tab: Tables, numTLD: int, domain: string, ghost root: Trie) returns (r: Option<PlusOne>)
    requires Represents(root.children, tab, 0, numTLD) && numTLD < NOT_FOUND && Ordered(root) && !root.wildcard
    ensures var o := Walk(root, Labels(domain), 0, 0);
      && o.k <= |Labels(domain)|
      && r == if o == Excepted(0) then None else Some(OneMore(domain, if o.k == 0 then 1 else o.k))
  {
    var suffix, _ := PublicSuffix(tab, numTLD, domain, root);
    if suffix.None? {
      return None;
    }
    ghost var o := Walk(root, Labels(domain), 0, 0);
    DerivedIsOneMore(domain, suffix.value, if o.k == 0 then 1 else o.k);
    var one := Derive(domain, suffix.value);
    r := Some(one);
  }

  method Derive(domain: string, suffix: string) returns (r: PlusOne)
    ensures r == Derived(domain, suffix)
  {
    if |domain| <= |suffix| {
      return CannotDerive;
    }
    var i := |domain| - |suffix| - 1;
    if domain[i] != DOT {
      return InvalidSuffix;
    }
    r := PlusOne(domain[1 + LastDot(domain[..i])..]);
  }
}
