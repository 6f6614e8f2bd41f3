/**
 Crushing a list of strings into one text: drop strings contained in others, then keep merging the
 pair with the longest suffix/prefix overlap. Both table generators lay their strings out this way.
 */
module TextLayout {
  import opened ByteOrder

  ghost predicate OccursAt(text: string, s: string, k: int) {
    0 <= k && k + |s| <= |text| && text[k..k + |s|] == s
  }

  ghost predicate Occurs(text: string, s: string) {
    exists k :: OccursAt(text, s, k)
  }

  /** Some entry of the layout still holds s; the empty string needs no holder. */
  ghost predicate Held(layout: seq<string>, s: string) {
    exists i :: 0 <= i < |layout| && Occurs(layout[i], s)
  }

  ghost predicate AllHeld(layout: seq<string>, labels: seq<string>) {
    forall j :: 0 <= j < |labels| ==> labels[j] == "" || Held(layout, labels[j])
  }

  function TotalLength(layout: seq<string>): nat {
    if layout == [] then 0 else |layout[0]| + TotalLength(layout[1..])
  }

  function Join(layout: seq<string>): string {
    if layout == [] then "" else layout[0] + Join(layout[1..])
  }

  /** The number of entries not yet blanked: what makes both loops stop. */
  function Live(layout: seq<string>): nat {
    if layout == [] then 0 else (if layout[0] == "" then 0 else 1) + Live(layout[1..])
  }

  // ---------- occurrences ----------

  lemma OccursTrans(a: string, b: string, c: string)
    requires Occurs(a, b) && Occurs(b, c)
    ensures Occurs(a, c)
  {
    var i :| OccursAt(a, b, i);
    var j :| OccursAt(b, c, j);
    var ac := a[i + j..i + j + |c|];
    forall k | 0 <= k < |c| ensures ac[k] == c[k] {
      assert a[i + j + k] == b[j + k];
    }
    assert ac == c;
    assert OccursAt(a, c, i + j);
  }

  lemma OccursInConcat(x: string, y: string, z: string)
    ensures Occurs(x + y + z, y)
  {
    assert OccursAt(x + y + z, y, |x|);
  }

  /** Replacing entry j by one that contains the old one, or blanking it when entry i contains it, keeps every label. */
  lemma HeldAfter(layout: seq<string>, layout1: seq<string>, labels: seq<string>)
    requires AllHeld(layout, labels)
    requires forall i :: 0 <= i < |layout| && layout[i] != "" ==> Held(layout1, layout[i])
    ensures AllHeld(layout1, labels)
  {
    forall j | 0 <= j < |labels| && labels[j] != "" ensures Held(layout1, labels[j]) {
      var i :| 0 <= i < |layout| && Occurs(layout[i], labels[j]);
      var i1 :| 0 <= i1 < |layout1| && Occurs(layout1[i1], layout[i]);
      OccursTrans(layout1[i1], layout[i], labels[j]);
    }
  }

  lemma HeldBy(layout: seq<string>, i: nat, s: string)
    requires i < |layout| && Occurs(layout[i], s)
    ensures Held(layout, s)
  {
  }

  lemma OccursSelf(s: string)
    ensures Occurs(s, s)
  {
    assert OccursAt(s, s, 0);
  }

  lemma {:induction false} JoinHolds(layout: seq<string>, i: nat)
    requires i < |layout|
    ensures Occurs(Join(layout), layout[i])
  {
    if i == 0 {
      OccursInConcat("", layout[0], Join(layout[1..]));
      assert "" + layout[0] + Join(layout[1..]) == Join(layout);
    } else {
      JoinHolds(layout[1..], i - 1);
      OccursInConcat(layout[0], Join(layout[1..]), "");
      assert layout[0] + Join(layout[1..]) + "" == Join(layout);
      OccursTrans(Join(layout), Join(layout[1..]), layout[i]);
    }
  }

  lemma {:induction false} JoinLength(layout: seq<string>)
    ensures |Join(layout)| == TotalLength(layout)
  {
    if layout != [] { JoinLength(layout[1..]); }
  }

  // ---------- updates ----------

  lemma {:induction false} TotalAfter(layout: seq<string>, i: nat, s: string)
    requires i < |layout|
    ensures TotalLength(layout[i := s]) == TotalLength(layout) - |layout[i]| + |s|
    ensures Live(layout[i := s]) == Live(layout) - (if layout[i] == "" then 0 else 1) + if s == "" then 0 else 1
  {
    if i == 0 {
      assert layout[i := s][1..] == layout[1..];
    } else {
      assert layout[i := s][1..] == layout[1..][i - 1 := s];
      TotalAfter(layout[1..], i - 1, s);
    }
  }

  // ---------- string search ----------

  /** strings.Contains. */
  method Contains(s: string, t: string) returns (found: bool)
    ensures found <==> Occurs(s, t)
  {
    var k := FirstIndex(s, t);
    found := k >= 0;
  }

  /** strings.Index: the least position of t in s, or -1. */
  method FirstIndex(s: string, t: string) returns (k: int)
    ensures k >= 0 ==> OccursAt(s, t, k) && forall j :: 0 <= j < k ==> !OccursAt(s, t, j)
    ensures k < 0 <==> !Occurs(s, t)
    ensures -1 <= k
  {
    k := 0;
    while k + |t| <= |s|
      invariant 0 <= k && forall j :: 0 <= j < k ==> !OccursAt(s, t, j)
    {
      if s[k..k + |t|] == t {
        assert OccursAt(s, t, k);
        return;
      }
      k := k + 1;
    }
    k := -1;
  }

  // ---------- the two loops ----------

  /** No other live entry occurs in entry i. */
  ghost predicate NoneInside(layout: seq<string>, i: nat)
    requires i < |layout|
  {
    forall j :: 0 <= j < |layout| && j != i && layout[i] != "" && layout[j] != "" ==> !Occurs(layout[i], layout[j])
  }

  /** One sweep of the first loop for entry i: blank every other entry it contains. */
  method BlankContained(layout0: seq<string>, i: nat, ghost labels: seq<string>)
      returns (layout: seq<string>, changed: bool)
    requires i < |layout0| && layout0[i] != "" && AllHeld(layout0, labels)
    ensures |layout| == |layout0| && layout[i] == layout0[i] && AllHeld(layout, labels)
    ensures TotalLength(layout) <= TotalLength(layout0) && Live(layout) <= Live(layout0)
    ensures if changed then Live(layout) < Live(layout0) else layout == layout0
    ensures NoneInside(layout, i)
  {
    layout, changed := layout0, false;
    for j := 0 to |layout|
      invariant |layout| == |layout0| && layout[i] == layout0[i] && AllHeld(layout, labels)
      invariant TotalLength(layout) <= TotalLength(layout0) && Live(layout) <= Live(layout0)
      invariant if changed then Live(layout) < Live(layout0) else layout == layout0
      invariant forall m :: 0 <= m < j && m != i && layout[m] != "" ==> !Occurs(layout[i], layout[m])
    {
      if i != j && layout[j] != "" {
        var inside := Contains(layout[i], layout[j]);
        if inside {
          BlankKeeps(layout, i, j, labels);
          TotalAfter(layout, j, "");
          changed := true;
          layout := layout[j := ""];
        }
      }
    }
  }

  lemma BlankKeeps(layout: seq<string>, i: nat, j: nat, labels: seq<string>)
    requires i < |layout| && j < |layout| && i != j && Occurs(layout[i], layout[j]) && AllHeld(layout, labels)
    ensures AllHeld(layout[j := ""], labels)
  {
    var layout1 := layout[j := ""];
    forall k | 0 <= k < |layout| ensures Held(layout1, layout[k]) {
      OccursSelf(layout[k]);
      HeldBy(layout1, if k == j then i else k, layout[k]);
    }
    HeldAfter(layout, layout1, labels);
  }

  /** The first loop: afterwards no string that is left occurs in another one. */
  method DropContained(layout0: seq<string>, ghost labels: seq<string>) returns (layout: seq<string>)
    requires AllHeld(layout0, labels)
    ensures AllHeld(layout, labels) && TotalLength(layout) <= TotalLength(layout0)
    ensures forall i :: 0 <= i < |layout| ==> NoneInside(layout, i)
  {
    layout := layout0;
    var changed := true;
    while changed
      invariant AllHeld(layout, labels) && TotalLength(layout) <= TotalLength(layout0)
      invariant !changed ==> forall m :: 0 <= m < |layout| ==> NoneInside(layout, m)
      decreases Live(layout), changed
    {
      layout, changed := DropPass(layout, labels);
    }
  }

  /** One pass over the entries. */
  method DropPass(layout0: seq<string>, ghost labels: seq<string>) returns (layout: seq<string>, changed: bool)
    requires AllHeld(layout0, labels)
    ensures AllHeld(layout, labels) && TotalLength(layout) <= TotalLength(layout0) && |layout| == |layout0|
    ensures if changed then Live(layout) < Live(layout0) else layout == layout0
    ensures !changed ==> forall m :: 0 <= m < |layout| ==> NoneInside(layout, m)
  {
    layout, changed := layout0, false;
    for i := 0 to |layout|
      invariant AllHeld(layout, labels) && TotalLength(layout) <= TotalLength(layout0) && |layout| == |layout0|
      invariant if changed then Live(layout) < Live(layout0) else layout == layout0
      invariant !changed ==> forall m :: 0 <= m < i ==> NoneInside(layout, m)
    {
      if layout[i] != "" {
        var more;
        layout, more := BlankContained(layout, i, labels);
        changed := changed || more;
      }
    }
  }

  ghost predicate Overlap(s: string, t: string, k: int) {
    0 < k <= |s| && k <= |t| && s[|s| - k..] == t[..k]
  }

  /** The pair to merge: the last overlap found that is longer than every earlier one. */
  method BestOverlap(layout: seq<string>) returns (i: int, j: int, k: int)
    ensures k >= 0
    ensures k > 0 ==> 0 <= i < |layout| && 0 <= j < |layout| && i != j && Overlap(layout[i], layout[j], k)
    ensures forall a, b, c :: 0 <= a < |layout| && 0 <= b < |layout| && a != b && Overlap(layout[a], layout[b], c) ==>
      c <= k
  {
    i, j, k := -1, -1, 0;
    for a := 0 to |layout|
      invariant k >= 0
      invariant k > 0 ==> 0 <= i < |layout| && 0 <= j < |layout| && i != j && Overlap(layout[i], layout[j], k)
      invariant forall a1, b, c ::
        0 <= a1 < a && 0 <= b < |layout| && a1 != b && Overlap(layout[a1], layout[b], c) ==> c <= k
    {
      if layout[a] != "" {
        i, j, k := BestOverlapWith(layout, a, i, j, k);
      }
    }
  }

  method BestOverlapWith(layout: seq<string>, a: nat, i0: int, j0: int, k0: int) returns (i: int, j: int, k: int)
    requires a < |layout| && k0 >= 0
    requires k0 > 0 ==> 0 <= i0 < |layout| && 0 <= j0 < |layout| && i0 != j0 && Overlap(layout[i0], layout[j0], k0)
    ensures k >= k0
    ensures k > 0 ==> 0 <= i < |layout| && 0 <= j < |layout| && i != j && Overlap(layout[i], layout[j], k)
    ensures forall b, c :: 0 <= b < |layout| && a != b && Overlap(layout[a], layout[b], c) ==> c <= k
  {
    i, j, k := i0, j0, k0;
    for b := 0 to |layout|
      invariant k >= k0
      invariant k > 0 ==> 0 <= i < |layout| && 0 <= j < |layout| && i != j && Overlap(layout[i], layout[j], k)
      invariant forall b1, c :: 0 <= b1 < b && a != b1 && Overlap(layout[a], layout[b1], c) ==> c <= k
    {
      if a != b {
        var c := k + 1;
        while c <= |layout[a]| && c <= |layout[b]|
          invariant k < c && k >= k0
          invariant k > 0 ==> 0 <= i < |layout| && 0 <= j < |layout| && i != j && Overlap(layout[i], layout[j], k)
          invariant forall b1, c1 :: 0 <= b1 < b && a != b1 && Overlap(layout[a], layout[b1], c1) ==> c1 <= k
          invariant forall c1 :: Overlap(layout[a], layout[b], c1) && c1 < c ==> c1 <= k
        {
          if layout[a][|layout[a]| - c..] == layout[b][..c] {
            i, j, k := a, b, c;
          }
          c := c + 1;
        }
      }
    }
  }

  lemma MergeKeeps(layout: seq<string>, i: nat, j: nat, k: nat, labels: seq<string>)
    requires i < |layout| && j < |layout| && i != j && Overlap(layout[i], layout[j], k) && AllHeld(layout, labels)
    ensures AllHeld(layout[i := layout[i] + layout[j][k..]][j := ""], labels)
  {
    var s, t := layout[i], layout[j];
    var merged := s + t[k..];
    var layout1 := layout[i := merged][j := ""];
    forall n | 0 <= n < |layout| ensures Held(layout1, layout[n]) {
      if n == i {
        assert OccursAt(merged, s, 0);
        HeldBy(layout1, i, s);
      } else if n == j {
        assert merged == s[..|s| - k] + t;
        assert OccursAt(merged, t, |s| - k);
        HeldBy(layout1, i, t);
      } else {
        OccursSelf(layout[n]);
        HeldBy(layout1, n, layout[n]);
      }
    }
    HeldAfter(layout, layout1, labels);
  }

  method MergeOverlaps(layout0: seq<string>, ghost labels: seq<string>) returns (layout: seq<string>)
    requires AllHeld(layout0, labels)
    ensures AllHeld(layout, labels) && TotalLength(layout) <= TotalLength(layout0)
    ensures forall a, b, c :: 0 <= a < |layout| && 0 <= b < |layout| && a != b ==> !Overlap(layout[a], layout[b], c)
  {
    layout := layout0;
    while true
      invariant AllHeld(layout, labels) && TotalLength(layout) <= TotalLength(layout0)
      decreases Live(layout)
    {
      var i, j, k := BestOverlap(layout);
      if k == 0 {
        return;
      }
      MergeKeeps(layout, i, j, k, labels);
      var merged := layout[i] + layout[j][k..];
      TotalAfter(layout, i, merged);
      TotalAfter(layout[i := merged], j, "");
      layout := layout[i := merged][j := ""];
    }
  }

  // ---------- the text ----------

  lemma AllHeldSelf(labels: seq<string>)
    ensures AllHeld(labels, labels)
  {
    forall j | 0 <= j < |labels| ensures Held(labels, labels[j]) {
      OccursSelf(labels[j]);
      HeldBy(labels, j, labels[j]);
    }
  }

  lemma JoinKeeps(layout: seq<string>, labels: seq<string>)
    requires AllHeld(layout, labels)
    ensures forall j :: 0 <= j < |labels| ==> Occurs(Join(layout), labels[j])
  {
    forall j | 0 <= j < |labels| ensures Occurs(Join(layout), labels[j]) {
      if labels[j] == "" {
        assert OccursAt(Join(layout), "", 0);
      } else {
        assert Held(layout, labels[j]);
        var i :| 0 <= i < |layout| && Occurs(layout[i], labels[j]);
        JoinHolds(layout, i);
        OccursTrans(Join(layout), layout[i], labels[j]);
      }
    }
  }

  /**
   The atom generator's layout: every string can be found in the text, which is no longer than the strings
   together.
   */
  method LayOut(all: seq<string>) returns (text: string)
    ensures forall j :: 0 <= j < |all| ==> Occurs(text, all[j])
    ensures |text| <= TotalLength(all)
  {
    AllHeldSelf(all);
    var layout := DropContained(all, all);
    layout := MergeOverlaps(layout, all);
    JoinKeeps(layout, all);
    JoinLength(layout);
    text := Join(layout);
  }

  // ---------- the public suffix generator's text ----------

  lemma {:induction false} TotalConcat(a: seq<string>, b: seq<string>)
    ensures TotalLength(a + b) == TotalLength(a) + TotalLength(b)
  {
    if a == [] {
      assert a + b == b;
    } else {
      assert (a + b)[1..] == a[1..] + b;
      TotalConcat(a[1..], b);
    }
  }

  /** Total length only depends on which strings there are. */
  lemma {:induction false} TotalPermuted(a: seq<string>, b: seq<string>)
    requires multiset(a) == multiset(b)
    ensures TotalLength(a) == TotalLength(b)
  {
    if a == [] {
      assert |multiset(b)| == 0;
    } else {
      assert a[0] in multiset(b);
      var i :| 0 <= i < |b| && b[i] == a[0];
      RemoveAt(b, i);
      assert a == [a[0]] + a[1..];
      assert multiset(a[1..]) == multiset(a) - multiset{a[0]};
      TotalPermuted(a[1..], b[..i] + b[i + 1..]);
    }
  }

  lemma RemoveAt(b: seq<string>, i: nat)
    requires i < |b|
    ensures multiset(b[..i] + b[i + 1..]) == multiset(b) - multiset{b[i]}
    ensures TotalLength(b) == |b[i]| + TotalLength(b[..i] + b[i + 1..])
  {
    assert b == b[..i] + ([b[i]] + b[i + 1..]);
    TotalConcat(b[..i], b[i + 1..]);
    TotalConcat(b[..i], [b[i]] + b[i + 1..]);
    TotalConcat([b[i]], b[i + 1..]);
  }

  lemma PermutedHeld(a: seq<string>, b: seq<string>, labels: seq<string>)
    requires multiset(a) == multiset(b) && AllHeld(a, labels)
    ensures AllHeld(b, labels)
  {
    forall i | 0 <= i < |a| && a[i] != "" ensures Held(b, a[i]) {
      assert a[i] in multiset(b);
      var k :| 0 <= k < |b| && b[k] == a[i];
      OccursSelf(a[i]);
      HeldBy(b, k, a[i]);
    }
    HeldAfter(a, b, labels);
  }

  lemma TailHeld(layout: seq<string>, labels: seq<string>)
    requires layout != [] && layout[0] == "" && AllHeld(layout, labels)
    ensures AllHeld(layout[1..], labels)
  {
    forall i | 0 <= i < |layout| && layout[i] != "" ensures Held(layout[1..], layout[i]) {
      OccursSelf(layout[i]);
      HeldBy(layout[1..], i - 1, layout[i]);
    }
    HeldAfter(layout, layout[1..], labels);
  }

  /**
   makeText: with crush, the merged text; without, plain concatenation. Every label can be found in
   it, so the generator's "could not find" error cannot happen.
   */
  method MakeText(labelsList: seq<string>, crush: bool) returns (text: string)
    ensures forall j :: 0 <= j < |labelsList| ==> Occurs(text, labelsList[j])
    ensures |text| <= TotalLength(labelsList)
  {
    AllHeldSelf(labelsList);
    var ss := labelsList;
    if crush {
      ss := DropContained(ss, labelsList);
      ghost var dropped := ss;
      ss := SortStrings(ss);
      TotalPermuted(dropped, ss);
      PermutedHeld(dropped, ss, labelsList);
      while ss != [] && ss[0] == ""
        invariant AllHeld(ss, labelsList) && TotalLength(ss) <= TotalLength(labelsList)
      {
        TailHeld(ss, labelsList);
        ss := ss[1..];
      }
      ss := MergeOverlaps(ss, labelsList);
    }
    JoinKeeps(ss, labelsList);
    JoinLength(ss);
    text := Join(ss);
  }
}
