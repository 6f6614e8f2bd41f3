/**
 Names, rules and table words as they are written: labels joined by dots, the marks of the list's lines, and the numbers
 of the packed words.
 */
module SuffixText {
  import opened Machine
  import opened SuffixRules
  import opened SuffixTable

  // ---------- names ----------

  /** Labels, last first, joined by dots. */
  function Dotted(ls: seq<string>): string
    requires ls != []
  {
    if |ls| == 1 then ls[0] else Dotted(ls[1..]) + "." + ls[0]
  }

  ghost predicate NoDots(ls: seq<string>) { forall i :: 0 <= i < |ls| ==> '.' !in ls[i] }

  /** The labels of a name are what it joins, and hold no dots. */
  lemma {:induction false} LabelsJoin(s: string)
    ensures NoDots(Labels(s)) && Dotted(Labels(s)) == s
    decreases |s|
  {
    var d := LastDot(s);
    if d >= 0 {
      LabelsJoin(s[..d]);
      assert Labels(s)[1..] == Labels(s[..d]);
      assert s == s[..d] + "." + s[d + 1..];
    }
  }

  lemma DotParts(a: string, b: string)
    ensures var s := a + "." + b; s[|a|] == '.' && s[..|a|] == a && s[|a| + 1..] == b
  {
    var s := a + "." + b;
    assert |a + "."| == |a| + 1 && s[..|a| + 1] == a + "." && s[|a| + 1..] == b;
    assert s[..|a|] == (a + ".")[..|a|] == a;
  }

  /** The last dot of a name whose last label has none. */
  lemma LastDotBefore(a: string, b: string)
    requires '.' !in b
    ensures LastDot(a + "." + b) == |a| && (a + "." + b)[..|a|] == a && (a + "." + b)[|a| + 1..] == b
  {
    hide LastDot;
    DotParts(a, b);
    var s := a + "." + b;
    forall i | |a| < i < |s| ensures s[i] != '.' { assert s[i] == s[|a| + 1..][i - |a| - 1]; }
    LastDotIs(s, |a|);
  }

  lemma LastDotIs(s: string, d: nat)
    requires d < |s| && s[d] == '.' && forall i :: d < i < |s| ==> s[i] != '.'
    ensures LastDot(s) == d
  {
  }

  /** And nothing else is. */
  lemma {:induction false} JoinedLabels(ls: seq<string>)
    requires ls != [] && NoDots(ls)
    ensures Labels(Dotted(ls)) == ls
    decreases |ls|
  {
    assert '.' !in ls[0];
    if |ls| > 1 {
      JoinedLabels(ls[1..]);
      OneMoreLabel(Dotted(ls[1..]), ls[0]);
      assert ls == [ls[0]] + ls[1..];
      hide Labels;
    } else {
      assert ls == [ls[0]];
    }
  }

  lemma OneMoreLabel(a: string, b: string)
    requires '.' !in b
    ensures Labels(a + "." + b) == [b] + Labels(a)
  {
    LastDotBefore(a, b);
  }

  lemma LabelsMean(s: string, ls: seq<string>)
    ensures ls == Labels(s) <==> ls != [] && NoDots(ls) && Dotted(ls) == s
  {
    LabelsJoin(s);
    if ls != [] && NoDots(ls) { JoinedLabels(ls); }
  }

  // ---------- rules ----------

  function RuleText(r: Rule): string
    requires r.name != []
  {
    (match r.kind case Plain => "" case Wildcard => "*." case Exclusion => "!") + Dotted(r.name)
  }

  /** What a line may be read as. */
  ghost predicate Writes(s: string, r: Rule) {
    && r.name != [] && NoDots(r.name) && RuleText(r) == s
    && (r.kind == Plain ==> !("*." <= s) && !("!" <= s))
  }

  lemma ParsedWrites(s: string)
    ensures Writes(s, ParseRule(s))
  {
    var rest := if "*." <= s then s[2..] else if "!" <= s then s[1..] else s;
    LabelsJoin(rest);
    hide Labels, Dotted;
    assert "*." <= s ==> s == "*." + rest;
    assert !("*." <= s) && "!" <= s ==> s == "!" + rest;
  }

  lemma WrittenParses(s: string, r: Rule)
    requires Writes(s, r)
    ensures ParseRule(s) == r
  {
    var t := Dotted(r.name);
    JoinedLabels(r.name);
    hide Labels, Dotted, NoDots;
    match r.kind
    case Plain => assert s == t;
    case Wildcard => assert s[0] == '*' && s[1] == '.' && s[2..] == t;
    case Exclusion => assert s[0] == '!' && s[1..] == t;
  }

  /** A line of the list is read as the one rule that it writes, a plain one if it has neither mark. */
  lemma RuleMeans(s: string, r: Rule)
    ensures ParseRule(s) == r <==> Writes(s, r)
  {
    ParsedWrites(s);
    if Writes(s, r) { WrittenParses(s, r); }
  }

  // ---------- words ----------

  /** A nodes word: 6 bits of length, 15 of offset, the section's bit, 9 of the children index. */
  lemma NodeWord(offset: nat, length: nat, icann: bool, childrenIndex: nat)
    ensures PackNode(PackLabel(offset, length), icann, childrenIndex)
      == length + 64 * offset + 2097152 * (if icann then 1 else 0) + 4194304 * childrenIndex
  {
  }

  /** A children word: 14 bits for each end, 2 for the type, 1 for the wildcard. */
  lemma ChildrenWord(lo: nat, hi: nat, t: NodeType, wildcard: bool)
    ensures PackChildren(lo, hi, t, wildcard)
      == lo + 16384 * hi + 268435456 * (match t case Normal => 0 case Exception => 1 case ParentOnly => 2)
         + 1073741824 * (if wildcard then 1 else 0)
  {
  }
}
