/**
 Public suffix rules, the publicsuffix.org matching algorithm over them, and the label trie the
 generator builds, whose walk finds the same prevailing rule.

 A name is its sequence of labels from the top level down: "foo.co.uk" is ["uk", "co", "foo"].
 */
module SuffixRules {
  import opened Machine
  import opened ByteOrder

  // ---------- names ----------

  const DOT: char := '.'

  /** strings.LastIndex(s, "."). */
  function LastDot(s: string): (d: int)
    ensures -1 <= d < |s|
    ensures d >= 0 ==> s[d] == DOT
    ensures forall i :: d < i < |s| ==> s[i] != DOT
  {
    if s == "" then -1 else if s[|s| - 1] == DOT then |s| - 1 else LastDot(s[..|s| - 1])
  }

  /** The labels of a name, last first; the empty name has one empty label. */
  function Labels(s: string): (ls: seq<string>)
    ensures ls != []
    decreases |s|
  {
    var d := LastDot(s);
    if d < 0 then [s] else [s[d + 1..]] + Labels(s[..d])
  }

  // ---------- rules ----------

  datatype RuleKind = Plain | Wildcard | Exclusion

  datatype Rule = Rule(kind: RuleKind, name: seq<string>)

  /** A line of the list: "*.name", "!name" or "name". */
  function ParseRule(s: string): (r: Rule)
    ensures r.name != []
  {
    if "*." <= s then Rule(Wildcard, Labels(s[2..]))
    else if "!" <= s then Rule(Exclusion, Labels(s[1..]))
    else Rule(Plain, Labels(s))
  }

  datatype NodeType = Normal | Exception | ParentOnly

  function TypeOf(kind: RuleKind): NodeType {
    match kind case Plain => Normal case Wildcard => ParentOnly case Exclusion => Exception
  }

  /** Which rule a name carries in its own right: the first plain or exception rule for it, if any. */
  function NameType(rules: seq<Rule>, q: seq<string>): NodeType {
    if rules == [] then ParentOnly
    else
      var last := rules[|rules| - 1];
      var before := NameType(rules[..|rules| - 1], q);
      if before == ParentOnly && last.name == q then TypeOf(last.kind) else before
  }

  predicate HasWildcard(rules: seq<Rule>, q: seq<string>) {
    exists i :: 0 <= i < |rules| && rules[i] == Rule(Wildcard, q)
  }

  /** Some rule's name is q or lies below it. */
  predicate Present(rules: seq<Rule>, q: seq<string>) {
    q == [] || exists i :: 0 <= i < |rules| && q <= rules[i].name
  }

  // ---------- the matching algorithm ----------

  /** An exception rule for the last k labels of the domain. */
  predicate ExceptionAt(rules: seq<Rule>, domain: seq<string>, k: int) {
    1 <= k <= |domain| && Rule(Exclusion, domain[..k]) in rules
  }

  /** A plain or wildcard rule that matches exactly the last k labels. */
  predicate MatchAt(rules: seq<Rule>, domain: seq<string>, k: int) {
    1 <= k <= |domain| && (Rule(Plain, domain[..k]) in rules || Rule(Wildcard, domain[..k - 1]) in rules)
  }

  datatype Outcome = Longest(k: nat) | Excepted(k: nat)

  /**
   The publicsuffix.org algorithm: a matching exception prevails (the shortest, were there several) and
   gives up its leftmost label; otherwise the matching rule with most labels; with no match, none.
   */
  ghost predicate Prevails(rules: seq<Rule>, domain: seq<string>, o: Outcome) {
    match o
    case Excepted(k) =>
      ExceptionAt(rules, domain, k + 1) && forall j :: j <= k ==> !ExceptionAt(rules, domain, j)
    case Longest(k) =>
      && (forall j :: !ExceptionAt(rules, domain, j))
      && (k == 0 || MatchAt(rules, domain, k))
      && (forall j :: MatchAt(rules, domain, j) ==> j <= k)
  }

  lemma PrevailsUnique(rules: seq<Rule>, domain: seq<string>, o1: Outcome, o2: Outcome)
    requires Prevails(rules, domain, o1) && Prevails(rules, domain, o2)
    ensures o1 == o2
  {
  }

  /** The first exception rule for q stands before every plain rule for it. */
  predicate ExceptionLeads(rules: seq<Rule>, q: seq<string>) {
    exists i :: 0 <= i < |rules| && rules[i] == Rule(Exclusion, q) && Rule(Plain, q) !in rules[..i]
  }

  /**
   Whether the shortest of the domain's names that have an exception rule, if any has, lists it before its plain
   rules.
   */
  ghost predicate ExceptionsLead(rules: seq<Rule>, domain: seq<string>) {
    forall k :: ExceptionAt(rules, domain, k) && (forall j :: j < k ==> !ExceptionAt(rules, domain, j))
      ==> ExceptionLeads(rules, domain[..k])
  }

  /** No name has both a plain rule and an exception rule. */
  ghost predicate NoConflict(rules: seq<Rule>) {
    forall r :: r in rules && r.kind == Exclusion ==> Rule(Plain, r.name) !in rules
  }

  lemma NoConflictLeads(rules: seq<Rule>, domain: seq<string>)
    requires NoConflict(rules)
    ensures ExceptionsLead(rules, domain)
  {
    forall k | ExceptionAt(rules, domain, k) ensures ExceptionLeads(rules, domain[..k]) {
      var q := domain[..k];
      var i :| 0 <= i < |rules| && rules[i] == Rule(Exclusion, q);
      assert Rule(Plain, q) !in rules[..i];
    }
  }

  // ---------- the types the generator keeps ----------

  /** A node keeps the type of the first plain or exception rule for its name, and has an own exception only by that. */
  lemma {:induction false} NameTypeMeans(rules: seq<Rule>, q: seq<string>)
    ensures NameType(rules, q) == Exception <==> ExceptionLeads(rules, q)
    ensures NameType(rules, q) == ParentOnly <==> Rule(Plain, q) !in rules && Rule(Exclusion, q) !in rules
  {
    if rules != [] {
      var n := |rules| - 1;
      var front := rules[..n];
      NameTypeMeans(front, q);
      assert rules == front + [rules[n]];
      if ExceptionLeads(front, q) {
        var i :| 0 <= i < n && front[i] == Rule(Exclusion, q) && Rule(Plain, q) !in front[..i];
        assert rules[i] == Rule(Exclusion, q) && rules[..i] == front[..i];
      }
      if ExceptionLeads(rules, q) {
        var i :| 0 <= i < |rules| && rules[i] == Rule(Exclusion, q) && Rule(Plain, q) !in rules[..i];
        if i < n { assert front[i] == Rule(Exclusion, q) && front[..i] == rules[..i]; }
      }
    }
  }

  predicate TypedException(rules: seq<Rule>, domain: seq<string>, k: int) {
    1 <= k <= |domain| && NameType(rules, domain[..k]) == Exception
  }

  predicate TypedMatch(rules: seq<Rule>, domain: seq<string>, k: int) {
    1 <= k <= |domain| && (NameType(rules, domain[..k]) == Normal || HasWildcard(rules, domain[..k - 1]))
  }

  /** The same algorithm, reading the type of each name instead of its rules: what the trie can know. */
  ghost predicate TypedPrevails(rules: seq<Rule>, domain: seq<string>, o: Outcome) {
    match o
    case Excepted(k) =>
      TypedException(rules, domain, k + 1) && forall j :: j <= k ==> !TypedException(rules, domain, j)
    case Longest(k) =>
      && (forall j :: !TypedException(rules, domain, j))
      && (k == 0 || TypedMatch(rules, domain, k))
      && (forall j :: TypedMatch(rules, domain, j) ==> j <= k)
  }

  lemma TypedUnique(rules: seq<Rule>, domain: seq<string>, o1: Outcome, o2: Outcome)
    requires TypedPrevails(rules, domain, o1) && TypedPrevails(rules, domain, o2)
    ensures o1 == o2
  {
  }

  lemma TypedByRules(rules: seq<Rule>, domain: seq<string>, k: int)
    ensures TypedException(rules, domain, k) ==> ExceptionAt(rules, domain, k)
    ensures TypedException(rules, domain, k) <==> 1 <= k <= |domain| && ExceptionLeads(rules, domain[..k])
    ensures !ExceptionAt(rules, domain, k) ==> (TypedMatch(rules, domain, k) <==> MatchAt(rules, domain, k))
  {
    if 1 <= k <= |domain| { NameTypeMeans(rules, domain[..k]); }
  }

  /** The shortest exception of a domain that has one. */
  lemma ShortestException(rules: seq<Rule>, domain: seq<string>, k: nat) returns (m: nat)
    requires ExceptionAt(rules, domain, k)
    ensures ExceptionAt(rules, domain, m) && forall j :: j < m ==> !ExceptionAt(rules, domain, j)
  {
    m := 0;
    while !ExceptionAt(rules, domain, m)
      invariant m <= k && forall j :: j < m ==> !ExceptionAt(rules, domain, j)
      decreases k - m
    {
      m := m + 1;
    }
  }

  lemma NoExceptions(rules: seq<Rule>, domain: seq<string>, o: Outcome)
    requires TypedPrevails(rules, domain, o) && forall k :: !ExceptionAt(rules, domain, k)
    ensures Prevails(rules, domain, o)
  {
    forall k
      ensures TypedException(rules, domain, k) ==> ExceptionAt(rules, domain, k)
      ensures TypedMatch(rules, domain, k) <==> MatchAt(rules, domain, k)
    {
      TypedByRules(rules, domain, k);
    }
  }

  lemma SomeException(rules: seq<Rule>, domain: seq<string>, o: Outcome, m: nat)
    requires TypedPrevails(rules, domain, o)
    requires ExceptionAt(rules, domain, m) && forall j :: j < m ==> !ExceptionAt(rules, domain, j)
    ensures Prevails(rules, domain, o) <==> ExceptionLeads(rules, domain[..m])
  {
    TypedByRules(rules, domain, m);
    forall j | j < m ensures !TypedException(rules, domain, j) {
      TypedByRules(rules, domain, j);
    }
    assert Prevails(rules, domain, Excepted(m - 1));
    if Prevails(rules, domain, o) { PrevailsUnique(rules, domain, o, Excepted(m - 1)); }
    if ExceptionLeads(rules, domain[..m]) { TypedUnique(rules, domain, o, Excepted(m - 1)); }
  }

  /**
   The types give the prevailing rule exactly when the shortest matching exception, if any, leads its name's
   rules.
   */
  lemma TypedIsPrevailing(rules: seq<Rule>, domain: seq<string>, o: Outcome)
    requires TypedPrevails(rules, domain, o)
    ensures Prevails(rules, domain, o) <==> ExceptionsLead(rules, domain)
  {
    if k: nat :| ExceptionAt(rules, domain, k) {
      var m := ShortestException(rules, domain, k);
      SomeException(rules, domain, o, m);
      assert forall j :: ExceptionAt(rules, domain, j) && j != m ==> m < j;
    } else {
      NoExceptions(rules, domain, o);
    }
  }

  // ---------- the trie ----------

  datatype Trie = Trie(labelText: string, nodeType: NodeType, icann: bool, wildcard: bool, children: seq<Trie>)

  function ChildNode(ts: seq<Trie>, labelText: string): Option<Trie> {
    if ts == [] then None
    else if ts[0].labelText == labelText then Some(ts[0])
    else ChildNode(ts[1..], labelText)
  }

  /** ts with c in the place of its namesake, or else inserted in label order. */
  function PutChild(ts: seq<Trie>, c: Trie): seq<Trie> {
    if ts == [] then [c]
    else if ts[0].labelText == c.labelText then [c] + ts[1..]
    else if Less(c.labelText, ts[0].labelText) then [c] + ts
    else [ts[0]] + PutChild(ts[1..], c)
  }

  function NewNode(labelText: string): Trie { Trie(labelText, ParentOnly, true, false, []) }

  function ChildOrNew(t: Trie, labelText: string): (c: Trie) {
    match ChildNode(t.children, labelText) case None => NewNode(labelText) case Some(c) => c
  }

  /** One rule inserted along its labels; child creates the nodes that are missing. */
  function AddRule(t: Trie, path: seq<string>, kind: RuleKind, icann: bool): (t1: Trie)
    ensures t1.labelText == t.labelText
    decreases |path|
  {
    if path == [] then
      Trie(t.labelText, if t.nodeType == ParentOnly then TypeOf(kind) else t.nodeType,
           t.icann && icann, t.wildcard || kind == Wildcard, t.children)
    else
      var c := ChildOrNew(t, path[0]);
      t.(children := PutChild(t.children, AddRule(c, path[1..], kind, icann)))
  }

  const ROOT: Trie := Trie("", ParentOnly, false, false, [])

  function BuildTrie(rules: seq<Rule>, icann: seq<bool>): Trie
    requires |icann| == |rules|
  {
    if rules == [] then ROOT
    else
      var n := |rules| - 1;
      AddRule(BuildTrie(rules[..n], icann[..n]), rules[n].name, rules[n].kind, icann[n])
  }

  function At(t: Trie, q: seq<string>): Option<Trie>
    decreases |q|
  {
    if q == [] then Some(t)
    else match ChildNode(t.children, q[0]) case None => None case Some(c) => At(c, q[1..])
  }

  /** Children in strictly increasing label order, at every node: what the binary search relies on. */
  predicate Ordered(t: Trie) {
    Increasing(t.children) && forall i :: 0 <= i < |t.children| ==> Ordered(t.children[i])
  }

  predicate Increasing(ts: seq<Trie>) {
    |ts| <= 1 || (Less(ts[0].labelText, ts[1].labelText) && Increasing(ts[1..]))
  }

  // ---------- the trie holds the rules ----------

  datatype Info = Info(present: bool, nodeType: NodeType, wildcard: bool)

  function InfoOf(o: Option<Trie>): Info {
    match o case None => Info(false, ParentOnly, false) case Some(t) => Info(true, t.nodeType, t.wildcard)
  }

  lemma {:induction false} ChildAfterPut(ts: seq<Trie>, c: Trie, labelText: string)
    ensures ChildNode(PutChild(ts, c), labelText)
         == if labelText == c.labelText then Some(c) else ChildNode(ts, labelText)
  {
    if ts != [] && ts[0].labelText != c.labelText && !Less(c.labelText, ts[0].labelText) {
      ChildAfterPut(ts[1..], c, labelText);
    }
  }

  lemma {:induction false} ChildLabel(ts: seq<Trie>, labelText: string)
    ensures ChildNode(ts, labelText).Some? ==> ChildNode(ts, labelText).value.labelText == labelText
  {
    if ts != [] { ChildLabel(ts[1..], labelText); }
  }

  /** What adding a rule for `path` does to the information at q. */
  function InfoAdded(was: Info, path: seq<string>, kind: RuleKind, q: seq<string>): Info {
    if q == path then
      Info(true, if was.nodeType == ParentOnly then TypeOf(kind) else was.nodeType, was.wildcard || kind == Wildcard)
    else if q <= path then Info(true, was.nodeType, was.wildcard)
    else was
  }

  lemma InfoAddedBelow(was: Info, path: seq<string>, kind: RuleKind, q: seq<string>)
    requires path != [] && q != []
    ensures InfoAdded(was, path, kind, q) == if q[0] == path[0] then InfoAdded(was, path[1..], kind, q[1..]) else was
  {
    assert q == [q[0]] + q[1..] && path == [path[0]] + path[1..];
  }

  lemma {:induction false} InfoAfterAdd(t: Trie, path: seq<string>, kind: RuleKind, icann: bool, q: seq<string>)
    ensures InfoOf(At(AddRule(t, path, kind, icann), q)) == InfoAdded(InfoOf(At(t, q)), path, kind, q)
    decreases |path|
  {
    if path != [] && q != [] {
      var c := ChildOrNew(t, path[0]);
      ChildLabel(t.children, path[0]);
      ChildAfterPut(t.children, AddRule(c, path[1..], kind, icann), q[0]);
      InfoAddedBelow(InfoOf(At(t, q)), path, kind, q);
      if q[0] == path[0] {
        InfoAfterAdd(c, path[1..], kind, icann, q[1..]);
        if ChildNode(t.children, path[0]).None? {
          NewNodeInfo(path[0], q[1..]);
          assert InfoAdded(Info(q[1..] == [], ParentOnly, false), path[1..], kind, q[1..])
              == InfoAdded(Info(false, ParentOnly, false), path[1..], kind, q[1..]);
        }
      }
    }
  }

  lemma NewNodeInfo(labelText: string, q: seq<string>)
    ensures InfoOf(At(NewNode(labelText), q)) == Info(q == [], ParentOnly, false)
  {
  }

  lemma {:induction false} TrieHoldsRules(rules: seq<Rule>, icann: seq<bool>, q: seq<string>)
    requires |icann| == |rules|
    ensures InfoOf(At(BuildTrie(rules, icann), q)) == Info(Present(rules, q), NameType(rules, q), HasWildcard(rules, q))
  {
    if rules != [] {
      var n := |rules| - 1;
      TrieHoldsRules(rules[..n], icann[..n], q);
      InfoAfterAdd(BuildTrie(rules[..n], icann[..n]), rules[n].name, rules[n].kind, icann[n], q);
      LastRule(rules, q);
    }
  }

  lemma LastRule(rules: seq<Rule>, q: seq<string>)
    requires rules != []
    ensures var n := |rules| - 1;
            && (Present(rules, q) <==> Present(rules[..n], q) || q <= rules[n].name)
            && (HasWildcard(rules, q) <==> HasWildcard(rules[..n], q) || rules[n] == Rule(Wildcard, q))
  {
    var n := |rules| - 1;
    if HasWildcard(rules[..n], q) {
      var i :| 0 <= i < n && rules[..n][i] == Rule(Wildcard, q);
      assert rules[i] == Rule(Wildcard, q);
    }
    if Present(rules[..n], q) && q != [] {
      var i :| 0 <= i < n && q <= rules[..n][i].name;
      assert q <= rules[i].name;
    }
    if HasWildcard(rules, q) {
      var i :| 0 <= i < |rules| && rules[i] == Rule(Wildcard, q);
      assert i == n || rules[..n][i] == Rule(Wildcard, q);
    }
    if Present(rules, q) && q != [] {
      var i :| 0 <= i < |rules| && q <= rules[i].name;
      assert i == n || q <= rules[..n][i].name;
    }
  }

  // ---------- the trie is ordered ----------

  lemma {:induction false} PutIncreasing(ts: seq<Trie>, c: Trie)
    requires Increasing(ts)
    ensures Increasing(PutChild(ts, c))
    ensures PutChild(ts, c)[0] == c || (ts != [] && PutChild(ts, c)[0] == ts[0])
  {
    if ts != [] {
      LessTotal(c.labelText, ts[0].labelText);
      if ts[0].labelText == c.labelText {
        assert ([c] + ts[1..])[1..] == ts[1..];
      } else if Less(c.labelText, ts[0].labelText) {
        assert ([c] + ts)[1..] == ts;
      } else {
        PutIncreasing(ts[1..], c);
        assert ([ts[0]] + PutChild(ts[1..], c))[1..] == PutChild(ts[1..], c);
      }
    }
  }

  lemma {:induction false} PutOrdered(ts: seq<Trie>, c: Trie)
    requires Ordered(c) && forall i :: 0 <= i < |ts| ==> Ordered(ts[i])
    ensures forall i :: 0 <= i < |PutChild(ts, c)| ==> Ordered(PutChild(ts, c)[i])
  {
    if ts != [] { PutOrdered(ts[1..], c); }
  }

  lemma {:induction false} ChildOrdered(ts: seq<Trie>, labelText: string)
    requires forall i :: 0 <= i < |ts| ==> Ordered(ts[i])
    ensures ChildNode(ts, labelText).Some? ==> Ordered(ChildNode(ts, labelText).value)
  {
    if ts != [] { ChildOrdered(ts[1..], labelText); }
  }

  lemma {:induction false} AddOrdered(t: Trie, path: seq<string>, kind: RuleKind, icann: bool)
    requires Ordered(t)
    ensures Ordered(AddRule(t, path, kind, icann))
    decreases |path|
  {
    if path != [] {
      var c := ChildOrNew(t, path[0]);
      ChildOrdered(t.children, path[0]);
      AddOrdered(c, path[1..], kind, icann);
      PutIncreasing(t.children, AddRule(c, path[1..], kind, icann));
      PutOrdered(t.children, AddRule(c, path[1..], kind, icann));
    }
  }

  lemma {:induction false} TrieOrdered(rules: seq<Rule>, icann: seq<bool>)
    requires |icann| == |rules|
    ensures Ordered(BuildTrie(rules, icann))
  {
    if rules != [] {
      var n := |rules| - 1;
      TrieOrdered(rules[..n], icann[..n]);
      AddOrdered(BuildTrie(rules[..n], icann[..n]), rules[n].name, rules[n].kind, icann[n]);
    }
  }

  // ---------- walking the trie ----------

  /** The lookup's walk, d labels below the root with `best` labels matched so far. */
  function Walk(t: Trie, domain: seq<string>, d: nat, best: nat): Outcome
    requires d <= |domain|
    decreases |domain| - d
  {
    if d == |domain| then Longest(best)
    else
      var best1 := if t.wildcard then d + 1 else best;
      match ChildNode(t.children, domain[d])
      case None => Longest(best1)
      case Some(c) =>
        match c.nodeType
        case Normal => Walk(c, domain, d + 1, d + 1)
        case Exception => Excepted(d)
        case ParentOnly => Walk(c, domain, d + 1, best1)
  }

  /** The ICANN flag that the lookup's walk ends with: that of the deepest node it comes to. */
  function WalkIcann(t: Trie, domain: seq<string>, d: nat, icann: bool): bool
    requires d <= |domain|
    decreases |domain| - d
  {
    if d == |domain| then icann
    else
      match ChildNode(t.children, domain[d])
      case None => icann
      case Some(c) => if c.nodeType == Exception then c.icann else WalkIcann(c, domain, d + 1, c.icann)
  }

  /** No exception and no longer match than `best` among the first d labels. */
  ghost predicate BestSoFar(rules: seq<Rule>, domain: seq<string>, d: nat, best: nat) {
    && d <= |domain|
    && (best == 0 || (best <= d && TypedMatch(rules, domain, best)))
    && (forall j :: j <= d ==> !TypedException(rules, domain, j))
    && (forall j :: j <= d && TypedMatch(rules, domain, j) ==> j <= best)
  }

  lemma {:induction false} AtStep(t: Trie, q: seq<string>, labelText: string)
    ensures At(t, q + [labelText]) == match At(t, q) case None => None case Some(c) => ChildNode(c.children, labelText)
    decreases |q|
  {
    var ql := q + [labelText];
    if q == [] {
      assert ql[1..] == [];
    } else {
      assert ql[0] == q[0] && ql[1..] == q[1..] + [labelText];
      match ChildNode(t.children, q[0])
      case None =>
      case Some(c) => AtStep(c, q[1..], labelText);
    }
  }

  lemma AbsentBelow(rules: seq<Rule>, domain: seq<string>, d: nat)
    requires d <= |domain| && !Present(rules, domain[..d])
    ensures forall j :: d <= j <= |domain| ==>
      NameType(rules, domain[..j]) == ParentOnly && !HasWildcard(rules, domain[..j])
  {
    forall j | d <= j <= |domain|
      ensures NameType(rules, domain[..j]) == ParentOnly && !HasWildcard(rules, domain[..j])
    {
      assert domain[..d] <= domain[..j];
      NotNamed(rules, domain[..d], domain[..j]);
    }
  }

  lemma {:induction false} NotNamed(rules: seq<Rule>, p: seq<string>, q: seq<string>)
    requires p <= q && !Present(rules, p)
    ensures NameType(rules, q) == ParentOnly && !HasWildcard(rules, q)
  {
    if rules != [] {
      LastRule(rules, p);
      NotNamed(rules[..|rules| - 1], p, q);
      LastRule(rules, q);
    }
  }

  /** The walk's next step, seen from the rules. */
  lemma WalkStep(rules: seq<Rule>, domain: seq<string>, d: nat, best: nat)
    requires d < |domain| && BestSoFar(rules, domain, d, best)
    ensures var best1 := if HasWildcard(rules, domain[..d]) then d + 1 else best;
            match NameType(rules, domain[..d + 1])
            case Normal => BestSoFar(rules, domain, d + 1, d + 1)
            case Exception => TypedPrevails(rules, domain, Excepted(d))
            case ParentOnly => BestSoFar(rules, domain, d + 1, best1)
  {
  }

  lemma WalkStops(rules: seq<Rule>, domain: seq<string>, d: nat, best: nat)
    requires 0 < d && BestSoFar(rules, domain, d, best) && !Present(rules, domain[..d])
    ensures TypedPrevails(rules, domain, Longest(best))
  {
    AbsentBelow(rules, domain, d);
  }

  /** The trie's node for every name says what the rules say of it. */
  ghost predicate Holds(rules: seq<Rule>, root: Trie) {
    forall q :: InfoOf(At(root, q)) == Info(Present(rules, q), NameType(rules, q), HasWildcard(rules, q))
  }

  /** The node t for the first d labels and its child for the next one, seen from the rules. */
  lemma NodeAndChild(rules: seq<Rule>, root: Trie, t: Trie, domain: seq<string>, d: nat)
    requires Holds(rules, root) && d < |domain| && At(root, domain[..d]) == Some(t)
    ensures t.wildcard == HasWildcard(rules, domain[..d])
    ensures At(root, domain[..d + 1]) == ChildNode(t.children, domain[d])
    ensures match ChildNode(t.children, domain[d])
      case None => !Present(rules, domain[..d + 1]) && NameType(rules, domain[..d + 1]) == ParentOnly
      case Some(c) => NameType(rules, domain[..d + 1]) == c.nodeType
  {
    assert InfoOf(At(root, domain[..d])).wildcard == HasWildcard(rules, domain[..d]);
    AtStep(root, domain[..d], domain[d]);
    assert domain[..d + 1] == domain[..d] + [domain[d]];
    assert InfoOf(At(root, domain[..d + 1])).present == Present(rules, domain[..d + 1]);
    assert InfoOf(At(root, domain[..d + 1])).nodeType == NameType(rules, domain[..d + 1]);
  }

  /** One turn of the walk: it stops with the prevailing rule, or stands at the child with the best match so far. */
  lemma WalkNext(rules: seq<Rule>, root: Trie, t: Trie, domain: seq<string>, d: nat, best: nat)
    requires Holds(rules, root) && BestSoFar(rules, domain, d, best) && d < |domain| && At(root, domain[..d]) == Some(t)
    ensures var best1 := if t.wildcard then d + 1 else best;
      match ChildNode(t.children, domain[d])
      case None => TypedPrevails(rules, domain, Longest(best1))
      case Some(c) =>
        At(root, domain[..d + 1]) == Some(c)
        && match c.nodeType
           case Normal => BestSoFar(rules, domain, d + 1, d + 1)
           case Exception => TypedPrevails(rules, domain, Excepted(d))
           case ParentOnly => BestSoFar(rules, domain, d + 1, best1)
  {
    NodeAndChild(rules, root, t, domain, d);
    WalkStep(rules, domain, d, best);
    if ChildNode(t.children, domain[d]) == None {
      WalkStops(rules, domain, d + 1, if t.wildcard then d + 1 else best);
    }
  }

  lemma {:induction false} WalkFrom(rules: seq<Rule>, root: Trie, t: Trie, domain: seq<string>, d: nat, best: nat)
    requires Holds(rules, root) && BestSoFar(rules, domain, d, best) && At(root, domain[..d]) == Some(t)
    ensures TypedPrevails(rules, domain, Walk(t, domain, d, best))
    decreases |domain| - d
  {
    if d == |domain| {
      WalkedAll(rules, domain, best);
    } else {
      WalkNext(rules, root, t, domain, d, best);
      match ChildNode(t.children, domain[d])
      case None =>
      case Some(c) =>
        if c.nodeType == Normal {
          WalkFrom(rules, root, c, domain, d + 1, d + 1);
        } else if c.nodeType == ParentOnly {
          WalkFrom(rules, root, c, domain, d + 1, if t.wildcard then d + 1 else best);
        }
    }
  }

  lemma WalkedAll(rules: seq<Rule>, domain: seq<string>, best: nat)
    requires BestSoFar(rules, domain, |domain|, best)
    ensures TypedPrevails(rules, domain, Longest(best))
  {
  }

  lemma WalkTyped(rules: seq<Rule>, icann: seq<bool>, domain: seq<string>)
    requires |icann| == |rules| && forall i :: 0 <= i < |rules| ==> rules[i].name != []
    ensures TypedPrevails(rules, domain, Walk(BuildTrie(rules, icann), domain, 0, 0))
  {
    var root := BuildTrie(rules, icann);
    forall q ensures InfoOf(At(root, q)) == Info(Present(rules, q), NameType(rules, q), HasWildcard(rules, q)) {
      TrieHoldsRules(rules, icann, q);
    }
    assert domain[..0] == [];
    WalkFrom(rules, root, root, domain, 0, 0);
  }

  /**
   Walking the trie of a rule list finds the list's prevailing rule, exactly for the domains whose shortest matching
   exception, if they have one, leads its name's rules; so for every domain when no name has both kinds of rule.
   */
  lemma WalkPrevails(rules: seq<Rule>, icann: seq<bool>, domain: seq<string>)
    requires |icann| == |rules| && forall i :: 0 <= i < |rules| ==> rules[i].name != []
    ensures Prevails(rules, domain, Walk(BuildTrie(rules, icann), domain, 0, 0)) <==> ExceptionsLead(rules, domain)
    ensures NoConflict(rules) ==> Prevails(rules, domain, Walk(BuildTrie(rules, icann), domain, 0, 0))
  {
    WalkTyped(rules, icann, domain);
    TypedIsPrevailing(rules, domain, Walk(BuildTrie(rules, icann), domain, 0, 0));
    if NoConflict(rules) { NoConflictLeads(rules, domain); }
  }

  // ---------- the ICANN flag ----------

  function IcannOf(o: Option<Trie>): bool { match o case None => true case Some(t) => t.icann }

  /** Every rule for that very name stands in the ICANN section. */
  ghost predicate AllIcann(rules: seq<Rule>, icann: seq<bool>, q: seq<string>)
    requires |icann| == |rules|
  {
    forall i :: 0 <= i < |rules| && rules[i].name == q ==> icann[i]
  }

  lemma {:induction false} IcannAfterAdd(t: Trie, path: seq<string>, kind: RuleKind, icann: bool, q: seq<string>)
    ensures IcannOf(At(AddRule(t, path, kind, icann), q)) == (IcannOf(At(t, q)) && (q == path ==> icann))
    decreases |path|
  {
    if path != [] && q != [] {
      var c := ChildOrNew(t, path[0]);
      ChildLabel(t.children, path[0]);
      ChildAfterPut(t.children, AddRule(c, path[1..], kind, icann), q[0]);
      assert q == [q[0]] + q[1..] && path == [path[0]] + path[1..];
      if q[0] == path[0] {
        IcannAfterAdd(c, path[1..], kind, icann, q[1..]);
      }
    }
  }

  lemma {:induction false} TrieHoldsIcann(rules: seq<Rule>, icann: seq<bool>, q: seq<string>)
    requires |icann| == |rules| && q != []
    ensures IcannOf(At(BuildTrie(rules, icann), q)) == AllIcann(rules, icann, q)
  {
    if rules != [] {
      var n := |rules| - 1;
      TrieHoldsIcann(rules[..n], icann[..n], q);
      IcannAfterAdd(BuildTrie(rules[..n], icann[..n]), rules[n].name, rules[n].kind, icann[n], q);
      AllIcannLast(rules, icann, q);
    }
  }

  lemma AllIcannLast(rules: seq<Rule>, icann: seq<bool>, q: seq<string>)
    requires |icann| == |rules| > 0
    ensures var n := |rules| - 1;
      AllIcann(rules, icann, q) <==> AllIcann(rules[..n], icann[..n], q) && (rules[n].name == q ==> icann[n])
  {
    var n := |rules| - 1;
    if AllIcann(rules, icann, q) {
      forall i | 0 <= i < n && rules[..n][i].name == q ensures icann[..n][i] { assert rules[i].name == q; }
    }
    if AllIcann(rules[..n], icann[..n], q) && (rules[n].name == q ==> icann[n]) {
      forall i | 0 <= i < |rules| && rules[i].name == q ensures icann[i] {
        if i < n { assert rules[..n][i].name == q && icann[..n][i]; }
      }
    }
  }

  /** The walk comes down to the first n labels: they lead to a node, no exception on the way, and not further. */
  ghost predicate ComesTo(rules: seq<Rule>, domain: seq<string>, n: nat) {
    && n <= |domain| && Present(rules, domain[..n])
    && (forall j :: 0 < j < n ==> NameType(rules, domain[..j]) != Exception)
    && (n == |domain| || !Present(rules, domain[..n + 1]) || (n > 0 && NameType(rules, domain[..n]) == Exception))
  }

  /** The walk stands at t, after d labels and no exception, with the flag of the name they make. */
  ghost predicate Down(rules: seq<Rule>, icann: seq<bool>, t: Trie, domain: seq<string>, d: nat, was: bool)
    requires |icann| == |rules|
  {
    && d <= |domain| && At(BuildTrie(rules, icann), domain[..d]) == Some(t) && Present(rules, domain[..d])
    && (forall j :: 0 < j <= d ==> NameType(rules, domain[..j]) != Exception)
    && was == (d > 0 && AllIcann(rules, icann, domain[..d]))
  }

  lemma DownStep(rules: seq<Rule>, icann: seq<bool>, t: Trie, domain: seq<string>, d: nat, was: bool)
    requires |icann| == |rules| && Holds(rules, BuildTrie(rules, icann)) && Down(rules, icann, t, domain, d, was)
    requires d < |domain|
    ensures match ChildNode(t.children, domain[d])
      case None => ComesTo(rules, domain, d)
      case Some(c) =>
        && c.icann == AllIcann(rules, icann, domain[..d + 1])
        && if c.nodeType == Exception then ComesTo(rules, domain, d + 1)
           else Down(rules, icann, c, domain, d + 1, c.icann)
  {
    var root := BuildTrie(rules, icann);
    NodeAndChild(rules, root, t, domain, d);
    TrieHoldsIcann(rules, icann, domain[..d + 1]);
    assert InfoOf(At(root, domain[..d + 1])).present == Present(rules, domain[..d + 1]);
  }

  lemma {:induction false} IcannFrom(rules: seq<Rule>, icann: seq<bool>, t: Trie, domain: seq<string>, d: nat,
      was: bool) returns (n: nat)
    requires |icann| == |rules| && Holds(rules, BuildTrie(rules, icann)) && Down(rules, icann, t, domain, d, was)
    ensures ComesTo(rules, domain, n)
    ensures WalkIcann(t, domain, d, was) == (n > 0 && AllIcann(rules, icann, domain[..n]))
    decreases |domain| - d
  {
    n := d;
    if d < |domain| {
      DownStep(rules, icann, t, domain, d, was);
      match ChildNode(t.children, domain[d])
      case None =>
      case Some(c) =>
        if c.nodeType == Exception {
          n := d + 1;
        } else {
          n := IcannFrom(rules, icann, c, domain, d + 1, c.icann);
        }
    }
  }

  /** The flag says whether all rules for exactly the name that the walk comes down to stand in the ICANN section. */
  lemma WalkIcannMeans(rules: seq<Rule>, icann: seq<bool>, domain: seq<string>) returns (n: nat)
    requires |icann| == |rules|
    ensures ComesTo(rules, domain, n)
    ensures WalkIcann(BuildTrie(rules, icann), domain, 0, false) == (n > 0 && AllIcann(rules, icann, domain[..n]))
  {
    var root := BuildTrie(rules, icann);
    forall q ensures InfoOf(At(root, q)) == Info(Present(rules, q), NameType(rules, q), HasWildcard(rules, q)) {
      TrieHoldsRules(rules, icann, q);
    }
    assert domain[..0] == [];
    n := IcannFrom(rules, icann, root, domain, 0, false);
  }

  /** There is one such name. */
  lemma ComesToOne(rules: seq<Rule>, domain: seq<string>, n: nat, m: nat)
    requires ComesTo(rules, domain, n) && ComesTo(rules, domain, m)
    ensures n == m
  {
    if n < m {
      PresentBelow(rules, domain[..n + 1], domain[..m]);
    } else if m < n {
      PresentBelow(rules, domain[..m + 1], domain[..n]);
    }
  }

  lemma PresentBelow(rules: seq<Rule>, p: seq<string>, q: seq<string>)
    requires p <= q && Present(rules, q)
    ensures Present(rules, p)
  {
  }

  /** Two labels, with both kinds of rule for the whole name, the plain one first. */
  ghost predicate Conflicting(rules: seq<Rule>, a: string, b: string) {
    && a != b
    && rules == [Rule(Wildcard, [b]), Rule(Plain, [b, a]), Rule(Exclusion, [b, a])]
  }

  lemma ConflictTypes(rules: seq<Rule>, a: string, b: string)
    requires Conflicting(rules, a, b)
    ensures NameType(rules, [b, a]) == Normal && NameType(rules, [b]) == ParentOnly
  {
    NameTypeMeans(rules, [b]);
    NameTypeMeans(rules, [b, a]);
    assert rules[1] == Rule(Plain, [b, a]) && [b] != [b, a];
    assert !ExceptionLeads(rules, [b, a]);
  }

  lemma ConflictOutcomes(rules: seq<Rule>, a: string, b: string)
    requires Conflicting(rules, a, b)
    ensures Prevails(rules, [b, a], Excepted(1)) && TypedPrevails(rules, [b, a], Longest(2))
  {
    var domain := [b, a];
    ConflictTypes(rules, a, b);
    assert domain[..1] == [b] && domain[..2] == domain && [b] != domain;
    assert rules[2] == Rule(Exclusion, domain);
    assert TypedMatch(rules, domain, 2);
  }

  /** Listed after a plain rule for its name an exception rule is lost: "*.b", "a.b", "!a.b" and the domain a.b. */
  lemma ExceptionLost(rules: seq<Rule>, icann: seq<bool>, a: string, b: string)
    requires Conflicting(rules, a, b) && |icann| == |rules|
    ensures Prevails(rules, [b, a], Excepted(1)) && Walk(BuildTrie(rules, icann), [b, a], 0, 0) == Longest(2)
  {
    ConflictOutcomes(rules, a, b);
    WalkTyped(rules, icann, [b, a]);
    TypedUnique(rules, [b, a], Longest(2), Walk(BuildTrie(rules, icann), [b, a], 0, 0));
  }
}
