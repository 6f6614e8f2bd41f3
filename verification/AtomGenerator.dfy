/** The atom generator from its list of names to the printed table, and the lookup of a name in what it printed. */
module AtomGenerator {
  import opened Machine
  import opened ByteOrder
  import opened AtomTable
  import TextLayout

  // ---------- the names ----------

  /** The same strings, each once, and the greatest of their lengths. */
  ghost predicate Uniq(sorted: seq<string>, all: seq<string>, maxLen: nat) {
    && NoneTwice(all) && (forall s :: s in all <==> s in sorted)
    && (forall s :: s in all ==> |s| <= maxLen)
    && (if all == [] then maxLen == 0 else exists s :: s in all && |s| == maxLen)
  }

  /** In a sorted list a string that differs from the last one has not come before. */
  lemma {:induction false} NewInSorted(sorted: seq<string>, i: nat, j: nat)
    requires Sorted(sorted) && j < i < |sorted| && sorted[i - 1] != sorted[i]
    ensures sorted[j] != sorted[i] && Less(sorted[j], sorted[i])
    decreases i - j
  {
    LessTotal(sorted[i - 1], sorted[i]);
    if j < i - 1 {
      NotAfter(sorted, j, i - 1);
      if sorted[j] != sorted[i - 1] { LessTrans(sorted[j], sorted[i - 1], sorted[i]); }
    }
    LessTotal(sorted[j], sorted[i]);
  }

  lemma {:induction false} NotAfter(sorted: seq<string>, j: nat, i: nat)
    requires Sorted(sorted) && j < i < |sorted|
    ensures sorted[j] == sorted[i] || Less(sorted[j], sorted[i])
    decreases i
  {
    LessTotal(sorted[i - 1], sorted[i]);
    if j < i - 1 {
      NotAfter(sorted, j, i - 1);
      if sorted[j] != sorted[i - 1] && sorted[i - 1] != sorted[i] { LessTrans(sorted[j], sorted[i - 1], sorted[i]); }
    }
  }

  /** The first i names have been looked at. */
  ghost predicate Looked(sorted: seq<string>, i: nat, all: seq<string>, maxLen: nat) {
    && i <= |sorted| && Uniq(sorted[..i], all, maxLen)
    && (if i == 0 then all == [] else all != [] && all[|all| - 1] == sorted[i - 1])
  }

  lemma LookedNext(sorted: seq<string>, i: nat, all: seq<string>, maxLen: nat)
    requires Sorted(sorted) && i < |sorted| && Looked(sorted, i, all, maxLen)
    ensures var s := sorted[i];
      if all == [] || all[|all| - 1] != s then Looked(sorted, i + 1, all + [s], if maxLen < |s| then |s| else maxLen)
      else Looked(sorted, i + 1, all, maxLen)
  {
    assert sorted[..i + 1] == sorted[..i] + [sorted[i]];
    if all == [] || all[|all| - 1] != sorted[i] {
      NotSeen(sorted, i);
      UniqNew(sorted[..i], all, maxLen, sorted[i]);
    } else {
      assert sorted[i] == sorted[..i][i - 1];
      UniqSeen(sorted[..i], all, maxLen, sorted[i]);
    }
  }

  /** The loop that keeps each name once and computes the greatest length. */
  method Unique(sorted: seq<string>) returns (all: seq<string>, maxLen: nat)
    requires Sorted(sorted)
    ensures Uniq(sorted, all, maxLen)
  {
    all, maxLen := [], 0;
    for i := 0 to |sorted|
      invariant Looked(sorted, i, all, maxLen)
    {
      LookedNext(sorted, i, all, maxLen);
      if all == [] || all[|all| - 1] != sorted[i] {
        if maxLen < |sorted[i]| {
          maxLen := |sorted[i]|;
        }
        all := all + [sorted[i]];
      }
    }
    assert sorted[..|sorted|] == sorted;
  }

  lemma UniqNew(seen: seq<string>, all: seq<string>, maxLen: nat, s: string)
    requires Uniq(seen, all, maxLen) && s !in seen
    ensures Uniq(seen + [s], all + [s], if maxLen < |s| then |s| else maxLen)
  {
    assert s in all + [s];
    if maxLen >= |s| && all != [] {
      var t :| t in all && |t| == maxLen;
      assert t in all + [s];
    }
  }

  lemma UniqSeen(seen: seq<string>, all: seq<string>, maxLen: nat, s: string)
    requires Uniq(seen, all, maxLen) && s in seen
    ensures Uniq(seen + [s], all, maxLen)
  {
  }

  lemma NotSeen(sorted: seq<string>, i: nat)
    requires Sorted(sorted) && i < |sorted| && (i > 0 ==> sorted[i - 1] != sorted[i])
    ensures sorted[i] !in sorted[..i]
  {
    forall j | 0 <= j < i ensures sorted[j] != sorted[i] { NewInSorted(sorted, i, j); }
  }

  // ---------- the table ----------

  /** A table attempt that succeeded: its starting value, its size as a power of two, its slots. */
  datatype Found = Found(h0: int, k: nat, tab: seq<string>)

  ghost predicate Stores(f: Found, all: seq<string>) {
    && Ok(f.h0, f.tab) && |f.tab| == Pow2(f.k) && f.k <= 16
    && forall s :: s != "" ==> (Held(f.tab, s) <==> s in all)
  }

  ghost predicate Names(all: seq<string>) { NoneTwice(all) && "" !in all }

  /** init for one starting value and size. */
  method Try(h: int, k: nat, all: seq<string>) returns (f: Option<Found>)
    requires 0 <= h <= 0xffff_ffff && k <= 16 && Names(all)
    ensures f.Some? ==> f.value.k == k && Stores(f.value, all)
  {
    var t := new Table(h, k);
    var ok := t.InsertAll(all);
    f := if ok then Some(Found(h, k, t.tab[..])) else None;
  }

  /** The smallest size up to 16 bits that works for one starting value, if it is smaller than the best so far. */
  method TrySizes(h: int, all: seq<string>, best0: Option<Found>) returns (best: Option<Found>)
    requires 0 <= h <= 0xffff_ffff && Names(all) && (best0.Some? ==> Stores(best0.value, all))
    ensures best.Some? ==> Stores(best.value, all)
    ensures best0.Some? ==> best.Some? && best.value.k <= best0.value.k
  {
    best := best0;
    var k := 0;
    while k <= 16 && !(best.Some? && k >= best.value.k)
      invariant k <= 17 && best == best0
    {
      var f := Try(h, k, all);
      if f.Some? {
        best := f;
        return;
      }
      k := k + 1;
    }
  }

  /**
   The search over the starting values, which are random numbers in the source: the smallest table it comes to,
   if any.
   */
  method FindTable(hashes: seq<int>, all: seq<string>) returns (best: Option<Found>)
    requires Names(all) && forall i :: 0 <= i < |hashes| ==> 0 <= hashes[i] <= 0xffff_ffff
    ensures best.Some? ==> Stores(best.value, all)
  {
    best := None;
    for i := 0 to |hashes|
      invariant best.Some? ==> Stores(best.value, all)
    {
      if best.Some? && (best.value.k == 0 || Pow2(best.value.k - 1) < |all|) {
        return;
      }
      best := TrySizes(hashes[i], all, best);
    }
  }

  // ---------- from the names to a lookup ----------

  /** What the generator prints: the hash's starting value, the text, the table and the greatest length. */
  datatype Generated = NoTable | Generated(h0: int, text: string, table: seq<int>, maxAtomLen: nat)

  /** Every name is short enough, and all of them together are. */
  predicate AllFit(names: seq<string>) {
    TextLayout.TotalLength(names) < 0x100_0000 && forall s :: s in names ==> |s| < LEN
  }

  /** A table whose slots hold exactly the names, printed. */
  ghost predicate Prints(g: Generated, names: seq<string>, tab: seq<string>) {
    && g.Generated? && Ok(g.h0, tab) && Printed(g.text, tab, g.table)
    && (forall s :: s != "" ==> (Held(tab, s) <==> s in names))
    && (forall i :: 0 <= i < |tab| ==> |tab[i]| <= g.maxAtomLen)
  }

  /** Every name fits its atom, given where the text has it. */
  ghost predicate EachFits(text: string, names: seq<string>) { forall s :: s in names ==> Fits(text, s) }

  /** What is printed has exactly the names in its slots, each as its atom if all fit; and all do if they are short. */
  method Generate(names: seq<string>, hashes: seq<int>) returns (g: Generated, ghost tab: seq<string>)
    requires "" !in names && forall i :: 0 <= i < |hashes| ==> 0 <= hashes[i] <= 0xffff_ffff
    ensures g.Generated? ==> 0 <= g.h0 <= 0xffff_ffff && g.table != []
    ensures g.Generated? ==> forall i :: 0 <= i < |g.table| ==> 0 <= g.table[i]
    ensures g.Generated? ==> (EachFits(g.text, names) <==> Prints(g, names, tab))
    ensures g.Generated? && AllFit(names) ==> EachFits(g.text, names)
  {
    tab := [];
    var sorted := SortStrings(names);
    SameStrings(sorted, names);
    var all, maxLen := Unique(sorted);
    var best := FindTable(hashes, all);
    if best.None? {
      return NoTable, tab;
    }
    tab := best.value.tab;
    g := PrintFound(names, all, maxLen, best.value);
  }

  /** The text and the table for what was found. */
  method PrintFound(ghost names: seq<string>, all: seq<string>, maxLen: nat, f: Found) returns (g: Generated)
    requires "" !in names && Uniq(names, all, maxLen) && Stores(f, all)
    ensures g.Generated? && 0 <= g.h0 <= 0xffff_ffff && g.table != []
    ensures forall i :: 0 <= i < |g.table| ==> 0 <= g.table[i]
    ensures EachFits(g.text, names) <==> Prints(g, names, f.tab)
    ensures AllFit(names) ==> EachFits(g.text, names)
  {
    HeldIn(f.tab, all);
    assert f.tab != [];
    var text := TextLayout.LayOut(all);
    var table := PrintTable(text, f.tab);
    g := Generated(f.h0, text, table, maxLen);
    StoredFit(text, names, f.tab);
    FoundPrints(g, names, all, f);
    if AllFit(names) { NamesFit(names, all, text); }
  }

  /** Besides the printing nothing can be wrong. */
  lemma FoundPrints(g: Generated, names: seq<string>, all: seq<string>, f: Found)
    requires g.Generated? && g.h0 == f.h0 && Uniq(names, all, g.maxAtomLen) && Stores(f, all)
    ensures Prints(g, names, f.tab) <==> Printed(g.text, f.tab, g.table)
  {
    HeldIn(f.tab, all);
  }

  /** The names are what stands in the slots. */
  lemma StoredFit(text: string, names: seq<string>, tab: seq<string>)
    requires "" !in names && forall s :: s != "" ==> (Held(tab, s) <==> s in names)
    ensures EachFits(text, names) <==> forall i :: 0 <= i < |tab| && tab[i] != "" ==> Fits(text, tab[i])
  {
    forall i | 0 <= i < |tab| && tab[i] != "" ensures tab[i] in names { assert Held(tab, tab[i]); }
    forall s | s in names ensures exists i :: 0 <= i < |tab| && tab[i] == s { assert Held(tab, s); }
  }

  lemma HeldIn(tab: seq<string>, all: seq<string>)
    requires forall s :: s != "" ==> (Held(tab, s) <==> s in all)
    ensures forall i :: 0 <= i < |tab| && tab[i] != "" ==> tab[i] in all
  {
    forall i | 0 <= i < |tab| && tab[i] != "" ensures tab[i] in all { assert Held(tab, tab[i]); }
  }

  /** A text no longer than short names together has every offset within 24 bits. */
  lemma NamesFit(names: seq<string>, all: seq<string>, text: string)
    requires AllFit(names) && NoneTwice(all) && (forall s :: s in all <==> s in names)
    requires |text| <= TextLayout.TotalLength(all) && forall j :: 0 <= j < |all| ==> TextLayout.Occurs(text, all[j])
    ensures forall s :: s in all && s != "" ==> Fits(text, s)
  {
    TotalOfDistinct(all, names);
    forall s | s in all && s != "" ensures Fits(text, s) {
      var k :| 0 <= k <= |text| && TextLayout.OccursAt(text, s, k);
      assert Early(text, s);
    }
  }

  /** Distinct members of a list are together no longer than the list. */
  lemma {:induction false} TotalOfDistinct(all: seq<string>, names: seq<string>)
    requires NoneTwice(all) && forall s :: s in all ==> s in names
    ensures TextLayout.TotalLength(all) <= TextLayout.TotalLength(names)
  {
    if all != [] {
      var s, rest := all[0], all[1..];
      assert all == [s] + rest && s !in rest && s in all;
      var k :| 0 <= k < |names| && names[k] == s;
      var without := names[..k] + names[k + 1..];
      forall x | x in rest ensures x in without {
        assert x in all;
        var i :| 0 <= i < |names| && names[i] == x;
        assert i != k;
        assert x == without[if i < k then i else i - 1];
      }
      TotalOfDistinct(rest, without);
      assert names == names[..k] + ([s] + names[k + 1..]);
      TextLayout.TotalConcat(names[..k], [s] + names[k + 1..]);
      TextLayout.TotalConcat([s], names[k + 1..]);
      TextLayout.TotalConcat(names[..k], names[k + 1..]);
    }
  }

  /**
   Both programs together, for any list of names: a nonzero answer is an atom whose string is the name asked for; and if
   every name fits, which short names do, the answer is nonzero exactly for the names in the list.
   */
  method LookupIn(names: seq<string>, hashes: seq<int>, s: string) returns (g: Generated, ok: bool, a: int)
    requires "" !in names && forall i :: 0 <= i < |hashes| ==> 0 <= hashes[i] <= 0xffff_ffff
    ensures g.Generated? && ok ==> 0 <= a && (a != 0 ==> AtomString(g.text, a) == s)
    ensures g.Generated? && EachFits(g.text, names) ==> ok && (a != 0 <==> s in names)
    ensures g.Generated? && AllFit(names) ==> EachFits(g.text, names)
  {
    ghost var tab;
    ok, a := true, 0;
    g, tab := Generate(names, hashes);
    if g.Generated? {
      ok, a := Lookup(g.h0, g.text, g.table, g.maxAtomLen, s, tab);
    }
  }
}
