/**
 Where raw text ends: what the tokenizer's loop computes, and how that relates to the next end tag, which
 is where its comment says it ends.
 */
module RawText {
  import opened Machine

  const LT: byte := '<' as int
  const GT: byte := '>' as int
  const SLASH: byte := '/' as int
  const CASE: int := 32

  predicate IsSpace(c: byte) { c == 32 || c == 10 || c == 13 || c == 9 || c == 12 }

  /** A byte of the end tag's name against one of the lower-case name. */
  predicate Same(c: byte, t: byte) { c == t || c == (t + 256 - CASE) % 256 }

  /** How many bytes of the name match from p on, i of them known already. */
  function Match(input: seq<byte>, p: nat, tag: seq<byte>, i: nat): (n: nat)
    requires i <= |tag| && p + i <= |input|
    ensures i <= n <= |tag| && p + n <= |input|
    ensures forall j :: i <= j < n ==> Same(input[p + j], tag[j])
    decreases |tag| - i
  {
    if i == |tag| || p + i == |input| || !Same(input[p + i], tag[i]) then i else Match(input, p, tag, i + 1)
  }

  /** The name and a byte that ends it stand at p, behind the "</". */
  predicate EndTagAt(input: seq<byte>, p: nat, tag: seq<byte>)
    requires p <= |input|
  {
    && p + |tag| < |input| && Match(input, p, tag, 0) == |tag|
    && (IsSpace(input[p + |tag|]) || input[p + |tag|] == SLASH || input[p + |tag|] == GT)
  }

  /** An end tag with that name starts at k. */
  predicate EndsAt(input: seq<byte>, k: nat, tag: seq<byte>) {
    k + 2 <= |input| && input[k] == LT && input[k + 1] == SLASH && EndTagAt(input, k + 2, tag)
  }

  /** Where the loop stops when it goes on from p: in front of an end tag, or at the end of the input. */
  function RawEnd(input: seq<byte>, p: nat, tag: seq<byte>): (q: nat)
    requires p <= |input|
    ensures p <= q <= |input| && (q == |input| || EndsAt(input, q, tag))
    decreases |input| - p
  {
    if p == |input| then p
    else if input[p] != LT then RawEnd(input, p + 1, tag)
    else if p + 1 == |input| then p + 1
    else if input[p + 1] != SLASH then RawEnd(input, p + 2, tag)
    else if EndTagAt(input, p + 2, tag) then p
    else RawEnd(input, p + 2 + Match(input, p + 2, tag, 0), tag)
  }

  // ---------- what the loop's parts owe it ----------

  /** The first i bytes of the name match at p, and pos is behind them. */
  ghost predicate Matched(input: seq<byte>, p: nat, tag: seq<byte>, i: nat, pos: int) {
    i <= |tag| && p + i == pos <= |input| && Match(input, p, tag, i) == Match(input, p, tag, 0)
  }

  /** The name does not match to its end, and pos is behind what matches. */
  ghost predicate Stopped(input: seq<byte>, p: nat, tag: seq<byte>, pos: int) {
    p <= |input| && Match(input, p, tag, 0) < |tag| && pos == p + Match(input, p, tag, 0)
  }

  /** The result of an attempt at an end tag: found and back in front of the "</", or behind what matches. */
  ghost predicate TriedEndTag(input: seq<byte>, p: nat, tag: seq<byte>, found: bool, pos: int) {
    p <= |input| && found == EndTagAt(input, p, tag) && pos == if found then p - 2 else p + Match(input, p, tag, 0)
  }

  /** The loop is at pos, and has stopped there or will stop at end. */
  ghost predicate Ahead(input: seq<byte>, pos: int, tag: seq<byte>, done: bool, end: nat) {
    0 <= pos <= |input| && end == if done then pos else RawEnd(input, pos, tag)
  }

  /** A turn that tried an end tag at p: at its start if found, else as far as before. */
  lemma TurnEnds(input: seq<byte>, p: nat, tag: seq<byte>, found: bool, pos: int, end: nat)
    requires p + 2 <= |input| && input[p] == LT && input[p + 1] == SLASH && TriedEndTag(input, p + 2, tag, found, pos)
    requires Ahead(input, p, tag, false, end)
    ensures Ahead(input, pos, tag, found, end) && (pos == |input| ==> end == pos)
  {
  }

  /** A turn at the end of the input. */
  lemma EndsThere(input: seq<byte>, p: nat, tag: seq<byte>, end: nat)
    requires Ahead(input, p, tag, false, end)
    ensures p == |input| ==> Ahead(input, p, tag, true, end)
  {
  }

  /** A turn that read a "<" at the end of the input. */
  lemma EndsBehind(input: seq<byte>, p: nat, tag: seq<byte>, end: nat)
    requires p < |input| && input[p] == LT && Ahead(input, p, tag, false, end)
    ensures p + 1 == |input| ==> Ahead(input, p + 1, tag, true, end)
  {
  }

  /** A turn that read a byte that is no "<". */
  lemma ByteSkips(input: seq<byte>, p: nat, tag: seq<byte>, end: nat)
    requires p < |input| && input[p] != LT && Ahead(input, p, tag, false, end)
    ensures Ahead(input, p + 1, tag, false, end)
  {
  }

  /** A turn that read "<" and a byte that is no slash. */
  lemma TurnSkips(input: seq<byte>, p: nat, tag: seq<byte>, end: nat)
    requires p + 2 <= |input| && input[p] == LT && input[p + 1] != SLASH && Ahead(input, p, tag, false, end)
    ensures Ahead(input, p + 2, tag, false, end)
  {
  }

  // ---------- the next end tag ----------

  predicate Letters(tag: seq<byte>) { forall i :: 0 <= i < |tag| ==> 'a' as int <= tag[i] <= 'z' as int }

  /** The number of "<" bytes directly before k, from p on. */
  function Run(input: seq<byte>, p: nat, k: nat): nat
    requires p <= k <= |input|
  {
    if k > p && input[k - 1] == LT then 1 + Run(input, p, k - 1) else 0
  }

  lemma {:induction false} RunSkip(input: seq<byte>, p: nat, q: nat, k: nat)
    requires p < q <= k <= |input| && input[q - 1] != LT
    ensures Run(input, p, k) == Run(input, q, k)
    decreases k
  {
    if k > q { RunSkip(input, p, q, k - 1); }
  }

  lemma {:induction false} RunTwo(input: seq<byte>, p: nat, k: nat)
    requires p + 2 <= k <= |input| && input[p] == LT
    ensures Run(input, p, k) % 2 == Run(input, p + 2, k) % 2
    decreases k
  {
    if input[p + 1] != LT {
      RunSkip(input, p, p + 2, k);
    } else if k > p + 2 {
      RunTwo(input, p, k - 1);
    } else {
      assert Run(input, p, p + 1) == 1 + Run(input, p, p);
    }
  }

  /** What an attempt at an end tag has consumed holds no "<". */
  lemma NoLessThan(input: seq<byte>, p: nat, tag: seq<byte>, j: nat)
    requires p + 2 <= |input| && input[p + 1] == SLASH && Letters(tag)
    requires p + 1 <= j < p + 2 + Match(input, p + 2, tag, 0)
    ensures input[j] != LT
  {
    if j > p + 1 {
      assert Same(input[p + 2 + (j - p - 2)], tag[j - p - 2]);
    }
  }

  /**
   The loop stops at the next end tag exactly when the number of "<" directly before it is even: of an odd
   number the last is read as the byte after a "<", and the end tag is passed over.
   */
  lemma {:induction false} StopsAtNext(input: seq<byte>, p: nat, tag: seq<byte>, k: nat)
    requires p <= k && Letters(tag) && EndsAt(input, k, tag) && forall j :: p <= j < k ==> !EndsAt(input, j, tag)
    ensures RawEnd(input, p, tag) == k <==> Run(input, p, k) % 2 == 0
    decreases k - p
  {
    if p == k {
    } else if input[p] != LT {
      RunSkip(input, p, p + 1, k);
      StopsAtNext(input, p + 1, tag, k);
    } else if input[p + 1] != SLASH {
      if p + 1 == k {
        assert Run(input, p, k) == 1 + Run(input, p, p);
      } else {
        RunTwo(input, p, k);
        StopsAtNext(input, p + 2, tag, k);
      }
    } else {
      assert !EndsAt(input, p, tag);
      var q := p + 2 + Match(input, p + 2, tag, 0);
      if k < q { NoLessThan(input, p, tag, k); }
      NoLessThan(input, p, tag, q - 1);
      RunSkip(input, p, q, k);
      StopsAtNext(input, q, tag, k);
    }
  }

  /** Without an end tag the loop reads everything. */
  lemma NoneToStopAt(input: seq<byte>, p: nat, tag: seq<byte>)
    requires p <= |input| && forall j :: p <= j ==> !EndsAt(input, j, tag)
    ensures RawEnd(input, p, tag) == |input|
  {
  }

  /** The shortest text whose end tag is missed, for any tag name: "<</" and the name. */
  lemma MissedEndTag(tag: seq<byte>)
    requires Letters(tag) && tag != []
    ensures var input := [LT, LT, SLASH] + tag + [GT]; EndsAt(input, 1, tag) && RawEnd(input, 0, tag) == |input|
  {
    var input := [LT, LT, SLASH] + tag + [GT];
    MatchAll(input, 3, tag, 0);
    assert EndsAt(input, 1, tag);
    assert RawEnd(input, 0, tag) == RawEnd(input, 2, tag);
    NoStop(input, 2, tag);
  }

  lemma {:induction false} MatchAll(input: seq<byte>, p: nat, tag: seq<byte>, i: nat)
    requires i <= |tag| && p + |tag| <= |input| && input[p..p + |tag|] == tag
    ensures Match(input, p, tag, i) == |tag|
    decreases |tag| - i
  {
    if i < |tag| {
      assert input[p + i] == input[p..p + |tag|][i];
      MatchAll(input, p, tag, i + 1);
    }
  }

  lemma {:induction false} NoStop(input: seq<byte>, p: nat, tag: seq<byte>)
    requires p <= |input| && forall j :: p <= j < |input| ==> input[j] != LT
    ensures RawEnd(input, p, tag) == |input|
    decreases |input| - p
  {
    if p < |input| { NoStop(input, p + 1, tag); }
  }
}
