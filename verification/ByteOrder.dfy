/** The bytewise string order of Go's `<`, and sort.Strings. */
module ByteOrder {

  predicate Less(a: string, b: string) {
    if b == "" then false
    else if a == "" then true
    else a[0] < b[0] || (a[0] == b[0] && Less(a[1..], b[1..]))
  }

  lemma {:induction false} LessTotal(a: string, b: string)
    ensures Less(a, b) || a == b || Less(b, a)
    ensures !(Less(a, b) && (a == b || Less(b, a)))
  {
    if a != "" && b != "" {
      LessTotal(a[1..], b[1..]);
      assert a == [a[0]] + a[1..] && b == [b[0]] + b[1..];
    }
  }

  lemma {:induction false} LessTrans(a: string, b: string, c: string)
    requires Less(a, b) && Less(b, c)
    ensures Less(a, c)
  {
    if a != "" && a[0] == b[0] && b[0] == c[0] {
      LessTrans(a[1..], b[1..], c[1..]);
    }
  }

  ghost predicate Sorted(ss: seq<string>) {
    forall i :: 0 < i < |ss| ==> !Less(ss[i], ss[i - 1])
  }

  /** sort.Strings, as an insertion sort: a sorted permutation of its argument. */
  method SortStrings(ss: seq<string>) returns (r: seq<string>)
    ensures multiset(r) == multiset(ss) && Sorted(r)
  {
    r := [];
    for n := 0 to |ss|
      invariant multiset(r) == multiset(ss[..n]) && Sorted(r)
    {
      assert ss[..n + 1] == ss[..n] + [ss[n]];
      r := InsertSorted(r, ss[n]);
    }
    assert ss[..|ss|] == ss;
  }

  method InsertSorted(ss: seq<string>, s: string) returns (r: seq<string>)
    requires Sorted(ss)
    ensures multiset(r) == multiset(ss) + multiset{s} && Sorted(r)
  {
    var k := 0;
    while k < |ss| && !Less(s, ss[k])
      invariant k <= |ss| && (k > 0 ==> !Less(s, ss[k - 1]))
    {
      k := k + 1;
    }
    if k < |ss| { LessTotal(ss[k], s); }
    InsertedAt(ss, k, s);
    r := ss[..k] + [s] + ss[k..];
  }

  lemma InsertedAt(ss: seq<string>, k: nat, s: string)
    requires Sorted(ss) && k <= |ss| && (k > 0 ==> !Less(s, ss[k - 1])) && (k < |ss| ==> !Less(ss[k], s))
    ensures var r := ss[..k] + [s] + ss[k..]; multiset(r) == multiset(ss) + multiset{s} && Sorted(r)
  {
    assert ss == ss[..k] + ss[k..];
    forall i | 0 < i < |ss| + 1 ensures !Less((ss[..k] + [s] + ss[k..])[i], (ss[..k] + [s] + ss[k..])[i - 1]) {
      InsertedPair(ss, k, s, i);
    }
  }

  lemma InsertedPair(ss: seq<string>, k: nat, s: string, i: nat)
    requires 0 < i <= |ss| && k <= |ss|
    ensures var r := ss[..k] + [s] + ss[k..];
            && (i < k ==> r[i - 1] == ss[i - 1] && r[i] == ss[i])
            && (i == k ==> r[i - 1] == ss[k - 1] && r[i] == s)
            && (i == k + 1 ==> r[i - 1] == s && r[i] == ss[k])
            && (i > k + 1 ==> r[i - 1] == ss[i - 2] && r[i] == ss[i - 1])
  {
  }

  // ---------- lists without repetition ----------

  ghost predicate NoneTwice(s: seq<string>) { forall i, j :: 0 <= i < j < |s| ==> s[i] != s[j] }

  lemma SameStrings(a: seq<string>, b: seq<string>)
    requires multiset(a) == multiset(b)
    ensures forall s :: s in a <==> s in b
    ensures NoneTwice(a) ==> NoneTwice(b)
  {
    forall s
      ensures s in a <==> s in b
    {
      assert s in a <==> s in multiset(a);
      assert s in b <==> s in multiset(b);
    }
    if NoneTwice(a) {
      forall i, j | 0 <= i < j < |b|
        ensures b[i] != b[j]
      {
        if b[i] == b[j] {
          TwiceCounted(b, i, j);
          OnceCounted(a, b[i]);
        }
      }
    }
  }

  lemma TwiceCounted(b: seq<string>, i: nat, j: nat)
    requires i < j < |b| && b[i] == b[j]
    ensures multiset(b)[b[i]] >= 2
  {
    assert b == b[..i] + [b[i]] + b[i + 1..j] + [b[j]] + b[j + 1..];
  }

  lemma {:induction false} OnceCounted(a: seq<string>, s: string)
    requires NoneTwice(a)
    ensures multiset(a)[s] <= 1
  {
    if a != [] {
      var n := |a| - 1;
      OnceCounted(a[..n], s);
      assert a == a[..n] + [a[n]];
      if a[n] == s {
        assert s !in a[..n];
      }
    }
  }
}
