/**
 The atom table: cuckoo hashing in the generator, and the two-slot lookup on the table it prints.
 The empty string marks a vacant slot.
 */
module AtomTable {
  import opened Machine
  import TextLayout

  // ---------- hashing ----------

  /** The FNV hash with starting value h, in uint32 arithmetic. */
  function Fnv(h: int, s: string): (r: int)
    requires 0 <= h <= 0xffff_ffff
    ensures 0 <= r <= 0xffff_ffff
    decreases |s|
  {
    if s == "" then h else Fnv(Uint32(Xor(h, s[0] as int) * 16777619), s[1..])
  }

  method ComputeFnv(h0: int, s: string) returns (h: int)
    requires 0 <= h0 <= 0xffff_ffff
    ensures h == Fnv(h0, s)
  {
    h := h0;
    for i := 0 to |s|
      invariant 0 <= h <= 0xffff_ffff && Fnv(h, s[i..]) == Fnv(h0, s)
    {
      assert s[i..][1..] == s[i + 1..];
      h := Xor(h, s[i] as int);
      h := Uint32(h * 16777619);
    }
  }

  lemma XorStep(a: nat, b: nat)
    requires a > 0 && b > 0
    ensures Xor(a, b) == 2 * Xor(a / 2, b / 2) + (a + b) % 2
  {
  }

  lemma BasisXorA()
    ensures Xor(0x811c_9dc5, 97) == 0x811c_9da4
  {
    assert Xor(16922939, 0) == 16922939;
    hide Xor;
    XorStep(33845879, 1);
    XorStep(67691758, 3);
    XorStep(135383516, 6);
    XorStep(270767032, 12);
    XorStep(541534065, 24);
    XorStep(1083068130, 48);
    XorStep(2166136261, 97);
  }

  /** The hash of "a" from the offset basis of FNV-1a. */
  lemma FnvOfA()
    ensures Fnv(0x811c_9dc5, "a") == 0xe40c_292c
  {
    BasisXorA();
    hide Xor;
    assert "a"[1..] == "" && "a"[0] as int == 97;
    assert Uint32(0x811c_9da4 * 16777619) == 0xe40c_292c;
  }

  /** The two slots of s in a table of the given size (a power of two in the source, its mask size - 1). */
  function Slot1(h0: int, size: nat, s: string): (i: nat)
    requires 0 <= h0 <= 0xffff_ffff && size > 0
    ensures i < size
  {
    Fnv(h0, s) % size
  }

  function Slot2(h0: int, size: nat, s: string): (i: nat)
    requires 0 <= h0 <= 0xffff_ffff && size > 0
    ensures i < size
  {
    Fnv(h0, s) / 65536 % size
  }

  // ---------- tables ----------

  ghost predicate Placed(h0: int, t: seq<string>, i: nat)
    requires 0 <= h0 <= 0xffff_ffff && i < |t|
  {
    t[i] == "" || i == Slot1(h0, |t|, t[i]) || i == Slot2(h0, |t|, t[i])
  }

  /** Every string is in one of its two slots, and in one slot only. */
  ghost predicate Ok(h0: int, t: seq<string>) {
    && 0 <= h0 <= 0xffff_ffff && |t| > 0
    && (forall i :: 0 <= i < |t| ==> Placed(h0, t, i))
    && (forall i, j :: 0 <= i < j < |t| && t[i] != "" ==> t[i] != t[j])
  }

  /** The other slot of the string in slot i. */
  function Alt(h0: int, t: seq<string>, i: nat): int
    requires 0 <= h0 <= 0xffff_ffff && i < |t|
  {
    Slot1(h0, |t|, t[i]) + Slot2(h0, |t|, t[i]) - i
  }

  // ---------- pushing along a path ----------

  /** Slots visited by pushing from path[0]: each string's other slot, all occupied but the last. */
  ghost predicate IsPath(h0: int, t: seq<string>, path: seq<nat>) {
    && 0 <= h0 <= 0xffff_ffff && |path| >= 2
    && (forall m :: 0 <= m < |path| ==> path[m] < |t|)
    && (forall m :: 0 <= m < |path| - 1 ==> t[path[m]] != "" && path[m + 1] == Alt(h0, t, path[m]))
    && t[path[|path| - 1]] == ""
  }

  ghost predicate Simple(path: seq<nat>) {
    forall a, b :: 0 <= a < b < |path| ==> path[a] != path[b]
  }

  lemma {:induction false} Periodic(h0: int, t: seq<string>, path: seq<nat>, a: nat, b: nat, n: nat)
    requires IsPath(h0, t, path) && a < b && b + n < |path| && path[a] == path[b]
    ensures path[a + n] == path[b + n]
    decreases n
  {
    if n > 0 { Periodic(h0, t, path, a, b, n - 1); }
  }

  /** A path that ends in a vacancy visits no slot twice: coming back to a slot would go round for ever. */
  lemma PathSimple(h0: int, t: seq<string>, path: seq<nat>)
    requires IsPath(h0, t, path)
    ensures Simple(path)
  {
    forall a, b | 0 <= a < b < |path| ensures path[a] != path[b] {
      if path[a] == path[b] { Periodic(h0, t, path, a, b, |path| - 1 - b); }
    }
  }

  /** Distinct numbers below n are at most n many. */
  lemma {:induction false} Pigeonhole(path: seq<nat>, n: nat)
    requires Simple(path) && forall m :: 0 <= m < |path| ==> path[m] < n
    ensures |path| <= n
    decreases n
  {
    if n > 0 {
      if n - 1 in path {
        var m :| 0 <= m < |path| && path[m] == n - 1;
        var rest: seq<nat> := path[..m] + path[m + 1..];
        forall a, b | 0 <= a < b < |rest| ensures rest[a] != rest[b] {
          assert rest[a] == path[if a < m then a else a + 1] && rest[b] == path[if b < m then b else b + 1];
        }
        forall a | 0 <= a < |rest| ensures rest[a] < n - 1 {
          assert rest[a] == path[if a < m then a else a + 1];
        }
        Pigeonhole(rest, n - 1);
      } else {
        Pigeonhole(path, n - 1);
      }
    }
  }

  /** Pushing has nowhere to go from slot i: no path from it ends in a vacancy. */
  ghost predicate Stuck(h0: int, t: seq<string>, i: nat) {
    forall path :: IsPath(h0, t, path) ==> path[0] != i
  }

  /** No path of at most `max` slots from slot i ends in a vacancy. */
  ghost predicate NoPath(h0: int, t: seq<string>, i: nat, max: int) {
    forall path :: IsPath(h0, t, path) && path[0] == i ==> |path| > max
  }

  /** A push that ran out of depth would have gone round for ever. */
  lemma DepthSuffices(h0: int, t: seq<string>, i: nat)
    requires NoPath(h0, t, i, |t| + 2)
    ensures Stuck(h0, t, i)
  {
    forall path | IsPath(h0, t, path) ensures path[0] != i {
      PathSimple(h0, t, path);
      Pigeonhole(path, |t|);
    }
  }

  lemma NoPathBack(h0: int, t: seq<string>, i: nat, j: nat, max: int)
    requires 0 <= h0 <= 0xffff_ffff && i < |t| && j < |t| && j == Alt(h0, t, i) && t[j] != ""
    requires NoPath(h0, t, j, max - 1)
    ensures NoPath(h0, t, i, max)
  {
    forall path | IsPath(h0, t, path) && path[0] == i ensures |path| > max {
      assert path[1] == j;
      assert IsPath(h0, t, path[1..]);
    }
  }

  /** The table after every string on the path has moved one slot on; path[0] keeps its string too. */
  function Shifted(t: seq<string>, path: seq<nat>): (r: seq<string>)
    requires forall m :: 0 <= m < |path| ==> path[m] < |t|
    ensures |r| == |t|
  {
    if |path| < 2 then t else Shifted(t, path[1..])[path[1] := t[path[0]]]
  }

  lemma {:induction false} ShiftedAt(t: seq<string>, path: seq<nat>)
    requires Simple(path) && forall m :: 0 <= m < |path| ==> path[m] < |t|
    ensures forall m :: 1 <= m < |path| ==> Shifted(t, path)[path[m]] == t[path[m - 1]]
    ensures forall i :: 0 <= i < |t| && i !in path[if |path| == 0 then 0 else 1..] ==> Shifted(t, path)[i] == t[i]
  {
    if |path| >= 2 {
      var rest := path[1..];
      ShiftedAt(t, rest);
      forall m | 1 <= m < |path| ensures Shifted(t, path)[path[m]] == t[path[m - 1]] {
        if m >= 2 { assert rest[m - 1] == path[m] && rest[m - 2] == path[m - 1]; }
      }
      forall i | 0 <= i < |t| && i !in rest ensures Shifted(t, path)[i] == t[i] {
        assert forall x :: x in rest[1..] ==> x in rest;
      }
    }
  }

  /** A path with one occupied slot in front. */
  lemma PathFront(h0: int, t: seq<string>, i: nat, rest: seq<nat>)
    requires IsPath(h0, t, rest) && i < |t| && t[i] != "" && rest[0] == Alt(h0, t, i)
    ensures IsPath(h0, t, [i] + rest) && Shifted(t, [i] + rest) == Shifted(t, rest)[rest[0] := t[i]]
  {
    assert ([i] + rest)[1..] == rest;
  }

  lemma PathEnd(h0: int, t: seq<string>, i: nat, j: nat)
    requires 0 <= h0 <= 0xffff_ffff && i < |t| && j < |t| && t[i] != "" && t[j] == "" && j == Alt(h0, t, i)
    ensures IsPath(h0, t, [i, j]) && Shifted(t, [i, j]) == t[j := t[i]]
  {
    assert [i, j][1..] == [j];
  }

  ghost predicate Held(t: seq<string>, s: string) { exists i :: 0 <= i < |t| && t[i] == s }

  /** s stored where the push along the path made room. */
  function Stored(t: seq<string>, path: seq<nat>, s: string): (u: seq<string>)
    requires path != [] && forall m :: 0 <= m < |path| ==> path[m] < |t|
    ensures |u| == |t|
  {
    Shifted(t, path)[path[0] := s]
  }

  /** The slot that the string now in slot i came from. */
  lemma CameFrom(h0: int, t: seq<string>, path: seq<nat>, s: string, i: nat) returns (a: nat, m: nat)
    requires IsPath(h0, t, path) && i < |t| && i != path[0]
    ensures a < |t| && Stored(t, path, s)[i] == t[a]
    ensures if i in path then 1 <= m < |path| && path[m] == i && a == path[m - 1] else a == i
  {
    PathSimple(h0, t, path);
    ShiftedAt(t, path);
    a, m := i, 0;
    if i in path {
      m :| 0 <= m < |path| && path[m] == i;
      a := path[m - 1];
    }
  }

  lemma StoredPlaced(h0: int, t: seq<string>, path: seq<nat>, s: string)
    requires Ok(h0, t) && IsPath(h0, t, path)
    requires path[0] == Slot1(h0, |t|, s) || path[0] == Slot2(h0, |t|, s)
    ensures forall i :: 0 <= i < |t| ==> Placed(h0, Stored(t, path, s), i)
  {
    forall i | 0 <= i < |t| ensures Placed(h0, Stored(t, path, s), i) {
      if i != path[0] {
        var a, m := CameFrom(h0, t, path, s, i);
        assert Placed(h0, t, a);
      }
    }
  }

  lemma StoredDistinct(h0: int, t: seq<string>, path: seq<nat>, s: string, i: nat, j: nat)
    requires Ok(h0, t) && IsPath(h0, t, path) && !Held(t, s) && i < j < |t| && Stored(t, path, s)[i] != ""
    ensures Stored(t, path, s)[i] != Stored(t, path, s)[j]
  {
    PathSimple(h0, t, path);
    if i == path[0] {
      var b, m := CameFrom(h0, t, path, s, j);
    } else if j == path[0] {
      var a, m := CameFrom(h0, t, path, s, i);
    } else {
      var a, m := CameFrom(h0, t, path, s, i);
      var b, n := CameFrom(h0, t, path, s, j);
      assert a != b;
    }
  }

  lemma StoredHoldsOnly(h0: int, t: seq<string>, path: seq<nat>, s: string, x: string)
    requires Ok(h0, t) && IsPath(h0, t, path) && Held(Stored(t, path, s), x)
    ensures x == s || Held(t, x)
  {
    var u := Stored(t, path, s);
    var i :| 0 <= i < |u| && u[i] == x;
    if i != path[0] {
      var a, m := CameFrom(h0, t, path, s, i);
    }
  }

  lemma StoredHoldsAll(h0: int, t: seq<string>, path: seq<nat>, s: string, x: string)
    requires Ok(h0, t) && IsPath(h0, t, path) && x != "" && Held(t, x)
    ensures Held(Stored(t, path, s), x)
  {
    var u := Stored(t, path, s);
    PathSimple(h0, t, path);
    ShiftedAt(t, path);
    var i :| 0 <= i < |t| && t[i] == x;
    if i in path {
      var m :| 0 <= m < |path| && path[m] == i;
      assert path[m + 1] != path[0];
      assert u[path[m + 1]] == t[path[m]];
    } else {
      assert u[i] == t[i];
    }
  }

  lemma StoredHolds(h0: int, t: seq<string>, path: seq<nat>, s: string, x: string)
    requires Ok(h0, t) && IsPath(h0, t, path) && x != ""
    ensures Held(Stored(t, path, s), x) <==> x == s || Held(t, x)
  {
    assert Stored(t, path, s)[path[0]] == s;
    if Held(Stored(t, path, s), x) {
      StoredHoldsOnly(h0, t, path, s, x);
    }
    if Held(t, x) {
      StoredHoldsAll(h0, t, path, s, x);
    }
  }

  /** t with s inserted: every other string keeps its place or has moved to its other slot. */
  ghost predicate Inserted(h0: int, t: seq<string>, s: string, u: seq<string>) {
    |u| == |t| && Ok(h0, u) && forall x :: x != "" ==> (Held(u, x) <==> x == s || Held(t, x))
  }

  lemma PushedIn(h0: int, t: seq<string>, path: seq<nat>, s: string)
    requires Ok(h0, t) && IsPath(h0, t, path) && s != "" && !Held(t, s)
    requires path[0] == Slot1(h0, |t|, s) || path[0] == Slot2(h0, |t|, s)
    ensures Inserted(h0, t, s, Stored(t, path, s))
  {
    StoredPlaced(h0, t, path, s);
    forall i, j | 0 <= i < j < |t| && Stored(t, path, s)[i] != ""
      ensures Stored(t, path, s)[i] != Stored(t, path, s)[j]
    {
      StoredDistinct(h0, t, path, s, i, j);
    }
    forall x | x != "" ensures Held(Stored(t, path, s), x) <==> x == s || Held(t, x) { StoredHolds(h0, t, path, s, x); }
  }

  lemma DroppedIn(h0: int, t: seq<string>, i: nat, s: string)
    requires Ok(h0, t) && i < |t| && t[i] == "" && s != "" && !Held(t, s)
    requires i == Slot1(h0, |t|, s) || i == Slot2(h0, |t|, s)
    ensures Inserted(h0, t, s, t[i := s])
  {
    var u := t[i := s];
    forall j | 0 <= j < |u| ensures Placed(h0, u, j) { assert Placed(h0, t, j); }
    forall x | x != "" ensures Held(u, x) <==> x == s || Held(t, x) {
      if Held(t, x) {
        var j :| 0 <= j < |t| && t[j] == x;
        assert u[j] == x;
      }
      assert u[i] == s;
    }
  }

  // ---------- the generator's table ----------

  class Table {
    var h0: int
    var tab: array<string>

    ghost predicate Valid()
      reads this, tab
    {
      Ok(h0, tab[..])
    }

    constructor (h: int, k: nat)
      requires 0 <= h <= 0xffff_ffff
      ensures Valid() && h0 == h && fresh(tab) && tab.Length == Pow2(k) && forall i :: 0 <= i < tab.Length ==>
        tab[i] == ""
    {
      h0 := h;
      tab := new string[Pow2(k)](_ => "");
    }

    /**
     push: moves the string in slot i to its other slot, pushing on whatever is there, at most to the
     depth of the table size. On failure nothing has changed; on success the strings have moved along a
     path to a vacancy, each by one slot. The path is the caller's to store over path[0].
     */
    method Push(i: nat, depth: nat) returns (ok: bool, ghost path: seq<nat>)
      requires Valid() && i < tab.Length && tab[i] != ""
      modifies tab
      ensures !ok ==> tab[..] == old(tab[..])
      ensures ok ==> IsPath(h0, old(tab[..]), path) && path[0] == i && tab[..] == Shifted(old(tab[..]), path)
      ensures !ok ==> NoPath(h0, tab[..], i, tab.Length + 2 - depth)
      decreases tab.Length + 1 - depth
    {
      path := [i];
      if depth > tab.Length {
        return false, path;
      }
      ghost var t := tab[..];
      var s := tab[i];
      var h1, h2 := Slot1(h0, tab.Length, s), Slot2(h0, tab.Length, s);
      assert Placed(h0, t, i);
      var j := h1 + h2 - i;
      if tab[j] != "" {
        var more, rest := Push(j, depth + 1);
        if !more {
          NoPathBack(h0, t, i, j, tab.Length + 2 - depth);
          return false, path;
        }
        PathFront(h0, t, i, rest);
        path := [i] + rest;
      } else {
        PathEnd(h0, t, i, j);
        path := [i, j];
      }
      tab[j] := s;
      ok := true;
    }

    /** Stores s in its slot i, which is empty. */
    method Drop(i: nat, s: string)
      requires Valid() && s != "" && !Held(tab[..], s) && i < tab.Length && tab[i] == ""
      requires i == Slot1(h0, tab.Length, s) || i == Slot2(h0, tab.Length, s)
      modifies tab
      ensures Valid() && Inserted(h0, old(tab[..]), s, tab[..])
    {
      DroppedIn(h0, tab[..], i, s);
      tab[i] := s;
    }

    /** Makes room for s in its slot i by pushing, and stores it there; if that fails, there was no way. */
    method PushAndStore(i: nat, s: string) returns (ok: bool)
      requires Valid() && s != "" && !Held(tab[..], s) && i < tab.Length && tab[i] != ""
      requires i == Slot1(h0, tab.Length, s) || i == Slot2(h0, tab.Length, s)
      modifies tab
      ensures ok ==> Inserted(h0, old(tab[..]), s, tab[..])
      ensures !ok ==> tab[..] == old(tab[..]) && Stuck(h0, tab[..], i)
      ensures Valid()
    {
      ghost var t := tab[..];
      ghost var path;
      ok, path := Push(i, 0);
      if ok {
        PushedIn(h0, t, path, s);
        tab[i] := s;
      } else {
        DepthSuffices(h0, t, i);
      }
    }

    /** Stores s in one of its slots if one is empty. */
    method DropEither(h1: nat, h2: nat, s: string) returns (ok: bool)
      requires Valid() && s != "" && !Held(tab[..], s) && h1 == Slot1(h0, tab.Length, s)
      requires h2 == Slot2(h0, tab.Length, s)
      modifies tab
      ensures ok ==> Inserted(h0, old(tab[..]), s, tab[..])
      ensures !ok ==> tab[..] == old(tab[..]) && tab[h1] != "" && tab[h2] != ""
      ensures Valid()
    {
      ok := true;
      if tab[h1] == "" {
        Drop(h1, s);
      } else if tab[h2] == "" {
        Drop(h2, s);
      } else {
        ok := false;
      }
    }

    /** insert: into an empty slot, else by pushing; false, and nothing changed, only if neither slot can be freed. */
    method Insert(s: string) returns (ok: bool)
      requires Valid() && s != "" && !Held(tab[..], s)
      modifies tab
      ensures ok ==> Inserted(h0, old(tab[..]), s, tab[..])
      ensures !ok ==> tab[..] == old(tab[..])
      ensures !ok ==> Stuck(h0, tab[..], Slot1(h0, tab.Length, s)) && Stuck(h0, tab[..], Slot2(h0, tab.Length, s))
      ensures Valid()
    {
      var h1, h2 := Slot1(h0, tab.Length, s), Slot2(h0, tab.Length, s);
      ok := DropEither(h1, h2, s);
      if !ok {
        ok := PushEither(h1, h2, s);
      }
    }

    /** Both slots are taken: the first is pushed, and if that fails the second. */
    method PushEither(h1: nat, h2: nat, s: string) returns (ok: bool)
      requires Valid() && s != "" && !Held(tab[..], s) && h1 == Slot1(h0, tab.Length, s)
      requires h2 == Slot2(h0, tab.Length, s)
      requires tab[h1] != "" && tab[h2] != ""
      modifies tab
      ensures ok ==> Inserted(h0, old(tab[..]), s, tab[..])
      ensures !ok ==> tab[..] == old(tab[..]) && Stuck(h0, tab[..], h1) && Stuck(h0, tab[..], h2)
      ensures Valid()
    {
      ghost var t := tab[..];
      ok := PushAndStore(h1, s);
      if ok {
        return;
      }
      assert tab[..][h2] == t[h2];
      ok := PushAndStore(h2, s);
    }

    /** s is not stored, and no pushing from either of its slots leads to a vacancy. */
    ghost predicate Refused(s: string)
      reads this, tab
    {
      Valid() && !Held(tab[..], s) && Stuck(h0, tab[..], Slot1(h0, tab.Length, s)) &&
        Stuck(h0, tab[..], Slot2(h0, tab.Length, s))
    }

    /** The loop of init over the strings to store. */
    method InsertAll(x: seq<string>) returns (ok: bool)
      requires Valid() && forall i :: 0 <= i < tab.Length ==> tab[i] == ""
      requires forall i :: 0 <= i < |x| ==> x[i] != ""
      requires forall i, j :: 0 <= i < j < |x| ==> x[i] != x[j]
      modifies tab
      ensures Valid() && (ok ==> forall s :: s != "" ==> (Held(tab[..], s) <==> s in x))
      ensures !ok ==> exists n :: 0 <= n < |x| && Refused(x[n])
    {
      assert !exists s :: s != "" && Held(tab[..], s);
      for n := 0 to |x|
        invariant Valid() && forall s :: s != "" ==> (Held(tab[..], s) <==> s in x[..n])
      {
        assert x[..n + 1] == x[..n] + [x[n]];
        ok := Insert(x[n]);
        if !ok {
          assert Refused(x[n]);
          return;
        }
      }
      assert x[..|x|] == x;
      ok := true;
    }
  }

  function Pow2(k: nat): (r: nat)
    ensures r > 0
  {
    if k == 0 then 1 else 2 * Pow2(k - 1)
  }

  // ---------- the printed table and its lookup ----------

  const LEN: int := 0x100

  /** An atom packs the offset and length of its name. */
  function AtomLen(a: int): int { a % LEN }

  function AtomStart(a: int): int { a / LEN }

  ghost predicate IsAtom(text: string, s: string, a: int) {
    0 < |s| == AtomLen(a) && 0 < a <= 0xffff_ffff && TextLayout.OccursAt(text, s, AtomStart(a))
  }

  /** s occurs in the text at an offset of 24 bits. */
  ghost predicate Early(text: string, s: string) { exists k :: 0 <= k < 0x100_0000 && TextLayout.OccursAt(text, s, k) }

  /** The first place of s in the text. */
  ghost predicate FirstAt(text: string, s: string, off: nat) {
    TextLayout.OccursAt(text, s, off) && forall j :: 0 <= j < off ==> !TextLayout.OccursAt(text, s, j)
  }

  /** A name that an atom can stand for: its length fits a byte and its offset the three others. */
  ghost predicate Fits(text: string, s: string) { |s| < LEN && Early(text, s) }

  /**
   The atom generator's last part: where each name lies in the text, for every name; it is its atom exactly if it
   fits.
   */
  method MakeAtom(text: string, s: string) returns (a: int)
    requires TextLayout.Occurs(text, s) && s != ""
    ensures 0 <= a <= 0xffff_ffff && (IsAtom(text, s, a) <==> Fits(text, s))
    ensures Fits(text, s) ==> exists off: nat :: a == 256 * off + |s| && FirstAt(text, s, off)
  {
    var off := TextLayout.FirstIndex(text, s);
    a := Uint32(Or(off * LEN, |s|));
    AtomParts(off, |s|);
    AtomIfFits(text, s, off, a);
    AtomOfFirst(text, s, off, a);
    hide Or, Fits, FirstAt, AtomLen, AtomStart, IsAtom;
  }

  /** The first place is early if any is, and then it is in the atom. */
  lemma AtomOfFirst(text: string, s: string, off: nat, a: int)
    requires TextLayout.OccursAt(text, s, off) && forall j :: 0 <= j < off ==> !TextLayout.OccursAt(text, s, j)
    requires 0 <= a && AtomLen(a) == |s| % LEN && (|s| < LEN ==> AtomStart(a) == off % 0x100_0000)
    ensures Fits(text, s) ==> exists off: nat :: a == 256 * off + |s| && FirstAt(text, s, off)
  {
    if Fits(text, s) {
      var k :| 0 <= k < 0x100_0000 && TextLayout.OccursAt(text, s, k);
      assert a == 256 * off + |s| && FirstAt(text, s, off);
    }
  }

  /** What is left of an offset and a length in the 32 bits of an atom. */
  lemma AtomParts(off: nat, length: nat)
    ensures var a := Uint32(Or(off * LEN, length));
      AtomLen(a) == length % LEN && (length < LEN ==> AtomStart(a) == off % 0x100_0000)
  {
    OrByte(off, length, off * LEN);
    PartsOf(Or(off * LEN, length), Or(off, length / LEN), length % LEN);
  }

  lemma PartsOf(word: nat, start: nat, low: nat)
    requires low < LEN && word == LEN * start + low
    ensures AtomLen(Uint32(word)) == low && AtomStart(Uint32(word)) == start % 0x100_0000
  {
    LowBits(start, low);
  }

  lemma LowBits(start: nat, low: nat)
    requires low < LEN
    ensures Uint32(LEN * start + low) == LEN * (start % 0x100_0000) + low
  {
    assert start == 0x100_0000 * (start / 0x100_0000) + start % 0x100_0000;
  }

  /** From the first place of s in the text. */
  lemma AtomIfFits(text: string, s: string, off: nat, a: int)
    requires s != "" && TextLayout.OccursAt(text, s, off)
    requires forall j :: 0 <= j < off ==> !TextLayout.OccursAt(text, s, j)
    requires 0 <= a <= 0xffff_ffff && AtomLen(a) == |s| % LEN && (|s| < LEN ==> AtomStart(a) == off % 0x100_0000)
    ensures IsAtom(text, s, a) <==> Fits(text, s)
  {
    if Early(text, s) {
      var k :| 0 <= k < 0x100_0000 && TextLayout.OccursAt(text, s, k);
      assert off <= k;
    }
  }

  /** What is printed for the slots of a table: the atom of each name, and zero for a vacant slot. */
  method PrintTable(text: string, tab: seq<string>) returns (table: seq<int>)
    requires forall i :: 0 <= i < |tab| && tab[i] != "" ==> TextLayout.Occurs(text, tab[i])
    ensures |table| == |tab| && forall i :: 0 <= i < |table| ==> 0 <= table[i]
    ensures (Printed(text, tab, table) <==> forall i :: 0 <= i < |tab| && tab[i] != "" ==> Fits(text, tab[i]))
  {
    table := [];
    for i := 0 to |tab|
      invariant |table| == i && forall j :: 0 <= j < i ==> 0 <= table[j]
      invariant forall j :: 0 <= j < i ==>
        (PrintedSlot(text, tab[j], table[j]) <==> (tab[j] != "" ==> Fits(text, tab[j])))
    {
      var a := 0;
      if tab[i] != "" {
        a := MakeAtom(text, tab[i]);
      }
      table := table + [a];
    }
  }

  ghost predicate PrintedSlot(text: string, s: string, a: int) {
    if s == "" then a == 0 else IsAtom(text, s, a)
  }

  ghost predicate Printed(text: string, tab: seq<string>, table: seq<int>) {
    |table| == |tab| && forall i :: 0 <= i < |tab| ==> PrintedSlot(text, tab[i], table[i])
  }

  /** Atom.String. */
  function AtomString(text: string, a: int): (s: string)
    requires 0 <= a
  {
    if AtomStart(a) + AtomLen(a) > |text| then "" else text[AtomStart(a)..AtomStart(a) + AtomLen(a)]
  }

  /** match: t compared with the name s of the same length. */
  method Match(s: string, t: string) returns (same: bool)
    requires |s| == |t|
    ensures same <==> s == t
  {
    for i := 0 to |t|
      invariant s[..i] == t[..i]
    {
      if s[i] != t[i] {
        return false;
      }
    }
    same := true;
  }

  /** Whether the atom in a slot is that of s, whatever the word; not ok is the panic of a slice outside the text. */
  method SlotIs(text: string, a: int, s: string) returns (ok: bool, same: bool)
    requires 0 <= a
    ensures ok == (AtomLen(a) == |s| ==> AtomStart(a) + |s| <= |text|)
    ensures same <==> ok && AtomLen(a) == |s| && TextLayout.OccursAt(text, s, AtomStart(a))
  {
    ok, same := true, false;
    if AtomLen(a) == |s| {
      if AtomStart(a) + AtomLen(a) > |text| {
        return false, false;
      }
      same := Match(text[AtomStart(a)..AtomStart(a) + AtomLen(a)], s);
    }
  }

  /** The name of the slot decides, where the slot is printed right. */
  lemma PrintedDecides(text: string, name: string, a: int, s: string)
    requires PrintedSlot(text, name, a) && s != ""
    ensures AtomLen(a) == |s| ==> AtomStart(a) + |s| <= |text|
    ensures name == s <==> AtomLen(a) == |s| && TextLayout.OccursAt(text, s, AtomStart(a))
  {
  }

  /** A table with all its slots printed right, and room for its longest name. */
  ghost predicate Right(h0: int, text: string, table: seq<int>, maxAtomLen: int, tab: seq<string>) {
    Ok(h0, tab) && Printed(text, tab, table) && forall i :: 0 <= i < |tab| ==> |tab[i]| <= maxAtomLen
  }

  /**
   Lookup. On any table a nonzero answer is an atom whose string is the name asked for; on one that the generator
   accepted and printed right it answers a nonzero atom exactly for the stored names. Not ok is a panic.
   */
  method Lookup(h0: int, text: string, table: seq<int>, maxAtomLen: int, s: string, ghost tab: seq<string>)
      returns (ok: bool, a: int)
    requires 0 <= h0 <= 0xffff_ffff && table != [] && forall i :: 0 <= i < |table| ==> 0 <= table[i]
    ensures ok ==> 0 <= a && (a != 0 ==> AtomString(text, a) == s)
    ensures var h := Fnv(h0, s); a != 0 ==> a == table[h % |table|] || a == table[h / 65536 % |table|]
    ensures Right(h0, text, table, maxAtomLen, tab) ==> ok && (a != 0 <==> s != "" && Held(tab, s))
  {
    ok, a := true, 0;
    if |s| == 0 || |s| > maxAtomLen {
      return;
    }
    var h := ComputeFnv(h0, s);
    var i1, i2 := h % |table|, h / 65536 % |table|;
    if Right(h0, text, table, maxAtomLen, tab) { TwoSlots(h0, text, table, maxAtomLen, s, tab); }
    var same;
    ok, same := SlotIs(text, table[i1], s);
    if !ok || same {
      a := table[i1];
      return;
    }
    ok, same := SlotIs(text, table[i2], s);
    if !ok || same {
      a := table[i2];
    }
  }

  /** On a right table the two slots of s tell. */
  lemma TwoSlots(h0: int, text: string, table: seq<int>, maxAtomLen: int, s: string, tab: seq<string>)
    requires Right(h0, text, table, maxAtomLen, tab) && s != ""
    ensures var a1, a2 := table[Slot1(h0, |table|, s)], table[Slot2(h0, |table|, s)];
      && (AtomLen(a1) == |s| ==> AtomStart(a1) + |s| <= |text|)
      && (AtomLen(a2) == |s| ==> AtomStart(a2) + |s| <= |text|)
      && (Held(tab, s) <==>
          || (AtomLen(a1) == |s| && TextLayout.OccursAt(text, s, AtomStart(a1)))
          || (AtomLen(a2) == |s| && TextLayout.OccursAt(text, s, AtomStart(a2))))
  {
    var i1, i2 := Slot1(h0, |table|, s), Slot2(h0, |table|, s);
    assert PrintedSlot(text, tab[i1], table[i1]) && PrintedSlot(text, tab[i2], table[i2]);
    PrintedDecides(text, tab[i1], table[i1], s);
    PrintedDecides(text, tab[i2], table[i2], s);
    if Held(tab, s) {
      var i :| 0 <= i < |tab| && tab[i] == s;
      assert Placed(h0, tab, i);
    }
  }
}
