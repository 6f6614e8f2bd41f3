/** The encoder's insertions replayed by the decoder: the round trip, its exact condition, and the converse. */
module PunycodeProofs {
  import opened Machine
  import opened PunycodeSpec

  // ---------- the scan order ----------

  lemma {:induction false} BelowConcat(a: seq<Rune>, b: seq<Rune>, n: int)
    ensures Below(a + b, n) == Below(a, n) + Below(b, n)
  {
    if a == [] {
      assert a + b == b;
    } else {
      assert (a + b)[1..] == a[1..] + b;
      BelowConcat(a[1..], b, n);
    }
  }

  /** How one scan step moves the handled runes and the position among them. */
  lemma ScanStep(s: seq<Rune>, n: int, j: nat)
    requires j < |s|
    ensures Passed(s, n, j + 1) == Passed(s, n, j) + (if s[j] <= n then 1 else 0)
    ensures Passed(s, n, j) <= |Handled(s, n, j)|
    ensures s[j] != n ==> Handled(s, n, j + 1) == Handled(s, n, j)
    ensures s[j] == n ==> Handled(s, n, j + 1) == Insert(Handled(s, n, j), Passed(s, n, j), n)
  {
    assert s[..j + 1] == s[..j] + [s[j]];
    BelowConcat(s[..j], [s[j]], n + 1);
    assert s[j..] == [s[j]] + s[j + 1..];
    if s[j] == n {
      assert Handled(s, n, j)[..Passed(s, n, j)] == Below(s[..j], n + 1);
    }
  }

  lemma RowEnd(s: seq<Rune>, n: int)
    ensures Handled(s, n, |s|) == Handled(s, n + 1, 0)
    ensures Passed(s, n, |s|) == |Handled(s, n, |s|)| && Passed(s, n + 1, 0) == 0
  {
    assert s[..|s|] == s && s[|s|..] == [] && s[..0] == [] && s[0..] == s;
  }

  lemma {:induction false} AllBelow(s: seq<Rune>)
    ensures Below(s, MAX_RUNE + 1) == s
  {
    if s != [] { AllBelow(s[1..]); }
  }

  lemma ScanEnd(s: seq<Rune>)
    ensures Handled(s, MAX_RUNE + 1, 0) == s
  {
    AllBelow(s);
    assert s[..0] == [] && s[0..] == s;
  }

  // ---------- encoder state and decoder state in step ----------

  /**
   The encoder at value n, index j with counters (delta, h) and the decoder in state <nd, i> with
   output out agree: delta counts the decoder's unit steps from <nd, i> to here.
   */
  ghost predicate InStep(s: seq<Rune>, n: nat, j: nat, delta: nat, h: nat, nd: nat, i: nat, out: seq<Rune>) {
    && j <= |s| && nd <= n <= MAX_RUNE + 1 && i <= h && |out| == h
    && (n == MAX_RUNE + 1 ==> j == 0)
    && out == Handled(s, n, j)
    && |Basic(s)| <= h
    && (i == 0 <==> h == |Basic(s)|)
    && delta + i == (n - nd) * (h + 1) + Passed(s, n, j)
  }

  lemma NextRow(n: int, nd: int, h: int)
    ensures (n + 1 - nd) * (h + 1) == (n - nd) * (h + 1) + h + 1
  {
  }

  lemma InStepSkip(s: seq<Rune>, n: nat, j: nat, delta: nat, h: nat, nd: nat, i: nat, out: seq<Rune>)
    requires InStep(s, n, j, delta, h, nd, i, out) && n <= MAX_RUNE && (j < |s| ==> s[j] != n)
    ensures j == |s| ==> InStep(s, n + 1, 0, delta + 1, h, nd, i, out)
    ensures j < |s| && s[j] < n ==> InStep(s, n, j + 1, delta + 1, h, nd, i, out)
    ensures j < |s| && s[j] > n ==> InStep(s, n, j + 1, delta, h, nd, i, out)
  {
    if j == |s| {
      RowEnd(s, n);
      NextRow(n, nd, h);
    } else {
      ScanStep(s, n, j);
    }
  }

  /** Where both machines stand when the scan meets its own value: the decoder's division recovers <n, index>. */
  lemma InStepMeet(s: seq<Rune>, n: nat, j: nat, delta: nat, h: nat, nd: nat, i: nat, out: seq<Rune>)
    requires InStep(s, n, j, delta, h, nd, i, out) && j < |s| && s[j] == n
    ensures (i + delta) / (h + 1) == n - nd && (i + delta) % (h + 1) == Passed(s, n, j) <= h
    ensures InStep(s, n, j + 1, 0, h + 1, n, Passed(s, n, j) + 1, Insert(out, Passed(s, n, j), n))
  {
    ScanStep(s, n, j);
    DivModOf(n - nd, Passed(s, n, j), h + 1);
  }

  /** One round of the decoder, given the integer it reads. */
  lemma DecodedRound(e: seq<Rune>, n: nat, i: nat, out: seq<Rune>, bias: int, i1: int, rest: seq<Rune>, n1: nat, p: nat)
    requires e != [] && ReadVarInt(e, BASE, bias, i, 1) == VarInt(i1, rest)
    requires i <= i1 && n1 == n + i1 / (|out| + 1) && p == i1 % (|out| + 1) <= |out|
    ensures DecodedTail(e, n, i, out, bias)
         == if n1 > MAX_RUNE || |out| >= MAX_OUTPUT then None
            else DecodedTail(rest, n1, p + 1, Insert(out, p, n1), Adapt(i1 - i, |out| + 1, i == 0))
  {
  }

  lemma DecodedNone(e: seq<Rune>, n: nat, i: nat, out: seq<Rune>, bias: int)
    requires e != [] && ReadVarInt(e, BASE, bias, i, 1) == Malformed
    ensures DecodedTail(e, n, i, out, bias) == None
  {
  }

  /** The decoder reads one insertion back, or rejects exactly when the insertion is not carried. */
  lemma DecodeOne(st: Insertion, rest: seq<Rune>, n: nat, nd: nat, out: seq<Rune>, p: nat)
    requires |out| == st.h && (st.i + st.delta) / (st.h + 1) == n - nd && (st.i + st.delta) % (st.h + 1) == p <= st.h
    requires n <= MAX_RUNE
    ensures DecodedTail(Digits(st.delta, BASE, st.bias) + rest, nd, st.i, out, st.bias)
         == if CarriedStep(st)
            then DecodedTail(rest, n, p + 1, Insert(out, p, n), Adapt(st.delta, st.h + 1, st.i == 0))
            else None
  {
    var e := Digits(st.delta, BASE, st.bias) + rest;
    ReadDigits(st.delta, BASE, st.bias, st.i, 1, rest);
    if ReadVarInt(e, BASE, st.bias, st.i, 1).Malformed? {
      DecodedNone(e, nd, st.i, out, st.bias);
    } else {
      DecodedRound(e, nd, st.i, out, st.bias, st.i + st.delta, rest, n, p);
    }
  }

  lemma StepsCons(st: Insertion, steps: seq<Insertion>)
    ensures Carried([st] + steps) <==> CarriedStep(st) && Carried(steps)
    ensures Text([st] + steps) == Digits(st.delta, BASE, st.bias) + Text(steps)
  {
    var all := [st] + steps;
    assert all[1..] == steps;
    assert all[0] == st;
    if Carried(all) {
      forall k | 0 <= k < |steps| ensures CarriedStep(steps[k]) {
        assert all[k + 1] == steps[k];
      }
    }
  }

  lemma StepsFollow(e: seq<Rune>, st: Insertion, rest: seq<Rune>, steps: seq<Insertion>)
    requires e == Digits(st.delta, BASE, st.bias) + rest && rest == Text(steps)
    requires CarriedStep(st) && Carried(steps)
    ensures e == Text([st] + steps) && Carried([st] + steps)
  {
    StepsCons(st, steps);
  }

  /** Decoding the text of these steps gives s, exactly when they are carried. */
  ghost predicate DecodesTo(steps: seq<Insertion>, s: seq<Rune>, nd: nat, i: nat, out: seq<Rune>, bias: int) {
    DecodedTail(Text(steps), nd, i, out, bias) == if Carried(steps) then Some(s) else None
  }

  /** One insertion in front of steps that decode to s. */
  lemma DecodeNext(s: seq<Rune>, st: Insertion, steps: seq<Insertion>, n: nat, nd: nat, out: seq<Rune>, p: nat)
    requires |out| == st.h && (st.i + st.delta) / (st.h + 1) == n - nd && (st.i + st.delta) % (st.h + 1) == p <= st.h
    requires n <= MAX_RUNE
    requires DecodesTo(steps, s, n, p + 1, Insert(out, p, n), Adapt(st.delta, st.h + 1, st.i == 0))
    ensures DecodesTo([st] + steps, s, nd, st.i, out, st.bias)
  {
    StepsCons(st, steps);
    DecodeOne(st, Text(steps), n, nd, out, p);
  }

  /** One turn of the scan. */
  lemma InsertionsTurn(s: seq<Rune>, n: nat, j: nat, delta: nat, h: nat, bias: int, i: nat)
    requires j <= |s| && n <= MAX_RUNE
    ensures j == |s| ==> Insertions(s, n, j, delta, h, bias, i) == Insertions(s, n + 1, 0, delta + 1, h, bias, i)
    ensures j < |s| && s[j] != n ==>
      Insertions(s, n, j, delta, h, bias, i)
      == Insertions(s, n, j + 1, if s[j] < n then delta + 1 else delta, h, bias, i)
    ensures j < |s| && s[j] == n ==>
      Insertions(s, n, j, delta, h, bias, i)
      == [Insertion(delta, i, h, bias)]
         + Insertions(s, n, j + 1, 0, h + 1, Adapt(delta, h + 1, h == |Basic(s)|), Passed(s, n, j) + 1)
  {
  }

  lemma DecodeEnd(s: seq<Rune>, n: nat, j: nat, delta: nat, h: nat, bias: int, nd: nat, i: nat, out: seq<Rune>)
    requires InStep(s, n, j, delta, h, nd, i, out) && n > MAX_RUNE
    ensures DecodesTo(Insertions(s, n, j, delta, h, bias, i), s, nd, i, out, bias)
  {
    ScanEnd(s);
    assert Text([]) == [];
  }

  lemma DecodeMeet(s: seq<Rune>, n: nat, j: nat, delta: nat, h: nat, bias: int, nd: nat, i: nat, out: seq<Rune>,
      steps: seq<Insertion>)
    requires InStep(s, n, j, delta, h, nd, i, out) && j < |s| && s[j] == n && Passed(s, n, j) <= h
    requires DecodesTo(steps, s, n, Passed(s, n, j) + 1, Insert(out, Passed(s, n, j), n),
      Adapt(delta, h + 1, h == |Basic(s)|))
    ensures DecodesTo([Insertion(delta, i, h, bias)] + steps, s, nd, i, out, bias)
  {
    InStepMeet(s, n, j, delta, h, nd, i, out);
    DecodeNext(s, Insertion(delta, i, h, bias), steps, n, nd, out, Passed(s, n, j));
  }

  /** From states in step, decoding the encoder's remaining text gives s back, exactly when that text is carried. */
  lemma {:induction false} InsertionsDecode(s: seq<Rune>, n: nat, j: nat, delta: nat, h: nat, bias: int, nd: nat,
      i: nat, out: seq<Rune>,
                                            steps: seq<Insertion>)
    requires InStep(s, n, j, delta, h, nd, i, out) && steps == Insertions(s, n, j, delta, h, bias, i)
    ensures DecodesTo(steps, s, nd, i, out, bias)
    decreases MAX_RUNE + 1 - n, |s| - j
  {
    if n > MAX_RUNE {
      DecodeEnd(s, n, j, delta, h, bias, nd, i, out);
    } else {
      InsertionsTurn(s, n, j, delta, h, bias, i);
      if j == |s| {
        InStepSkip(s, n, j, delta, h, nd, i, out);
        InsertionsDecode(s, n + 1, 0, delta + 1, h, bias, nd, i, out, steps);
      } else if s[j] != n {
        InStepSkip(s, n, j, delta, h, nd, i, out);
        InsertionsDecode(s, n, j + 1, if s[j] < n then delta + 1 else delta, h, bias, nd, i, out, steps);
      } else {
        InStepMeet(s, n, j, delta, h, nd, i, out);
        var p, bias1 := Passed(s, n, j), Adapt(delta, h + 1, h == |Basic(s)|);
        var tail := Insertions(s, n, j + 1, 0, h + 1, bias1, p + 1);
        InsertionsDecode(s, n, j + 1, 0, h + 1, bias1, n, p + 1, Insert(out, p, n), tail);
        DecodeMeet(s, n, j, delta, h, bias, nd, i, out, tail);
      }
    }
  }

  lemma StartInStep(s: seq<Rune>)
    ensures InStep(s, INITIAL_N, 0, 0, |Basic(s)|, INITIAL_N, 0, Basic(s))
  {
    assert s[..0] == [] && s[0..] == s;
  }

  lemma TailStartAt(a: seq<Rune>, b: seq<Rune>)
    requires forall j :: 0 <= j < |b| ==> b[j] != HYPHEN
    requires a == [] || a[|a| - 1] == HYPHEN
    ensures TailStart(a + b) == |a|
  {
    var e := a + b;
    assert forall j :: |a| <= j < |e| ==> e[j] == b[j - |a|];
    assert a != [] ==> e[|a| - 1] == HYPHEN;
  }

  /**
   Round trip, exactly: decoding what the encoder writes gives the label back if and only if every
   insertion is carried (its target is an int32, its digit weights stay under the cap, and fewer
   than 1024 runes precede it).
   */
  lemma RoundTrip(s: seq<Rune>)
    ensures Decoded(Encoded(s)) == if Carried(AllInsertions(s)) then Some(s) else None
  {
    StartInStep(s);
    InsertionsDecode(s, INITIAL_N, 0, 0, |Basic(s)|, INITIAL_BIAS, INITIAL_N, 0, Basic(s), AllInsertions(s));
    DecodedParts(Basic(s), Text(AllInsertions(s)));
  }

  /** What the decoder does with a basic part and digits laid out as the encoder does. */
  lemma DecodedParts(basic: seq<Rune>, tail: seq<Rune>)
    requires forall j :: 0 <= j < |tail| ==> tail[j] != HYPHEN
    ensures Decoded(Head(basic) + tail) == DecodedTail(tail, INITIAL_N, 0, basic, INITIAL_BIAS)
  {
    var head := Head(basic);
    TailStartAt(head, tail);
    var e := head + tail;
    assert e[|head|..] == tail;
    if basic != [] {
      assert e[..|head| - 1] == basic;
      if tail == [] { assert e == head; }
    }
  }

  // ---------- skipping scans that insert nothing ----------

  ghost predicate NotAfter(n: int, j: int, n2: int, j2: int) {
    n < n2 || (n == n2 && j <= j2)
  }

  lemma {:induction false} HandledGrows(s: seq<Rune>, n: nat, j: nat, n2: nat, j2: nat)
    requires j <= |s| && j2 <= |s| && NotAfter(n, j, n2, j2)
    ensures |Handled(s, n, j)| <= |Handled(s, n2, j2)|
    decreases n2 - n, |s| - j
  {
    if n == n2 && j == j2 {
    } else if j == |s| {
      RowEnd(s, n);
      HandledGrows(s, n + 1, 0, n2, j2);
    } else {
      ScanStep(s, n, j);
      HandledGrows(s, n, j + 1, n2, j2);
    }
  }

  /** Two points of the scan in step with one decoder state have the same insertions ahead of them. */
  lemma {:induction false} InsertionsSkip(s: seq<Rune>, n: nat, j: nat, delta: nat, n2: nat, j2: nat, delta2: nat,
                         h: nat, bias: int, nd: nat, i: nat, out: seq<Rune>)
    requires InStep(s, n, j, delta, h, nd, i, out) && InStep(s, n2, j2, delta2, h, nd, i, out)
    requires NotAfter(n, j, n2, j2)
    ensures Insertions(s, n, j, delta, h, bias, i) == Insertions(s, n2, j2, delta2, h, bias, i)
    decreases n2 - n, |s| - j
  {
    if n == n2 && j == j2 {
    } else {
      if j < |s| && s[j] == n {
        ScanStep(s, n, j);
        HandledGrows(s, n, j + 1, n2, j2);
      }
      InStepSkip(s, n, j, delta, h, nd, i, out);
      if j == |s| {
        InsertionsSkip(s, n + 1, 0, delta + 1, n2, j2, delta2, h, bias, nd, i, out);
      } else {
        InsertionsSkip(s, n, j + 1, if s[j] < n then delta + 1 else delta, n2, j2, delta2, h, bias, nd, i, out);
      }
    }
  }

  // ---------- the converse ----------

  /** Every inserted rune is at most n, and those equal to n stand before i. */
  ghost predicate DecoderState(n: nat, i: nat, out: seq<Rune>) {
    && INITIAL_N <= n <= MAX_RUNE && i <= |out|
    && forall k :: 0 <= k < |out| ==> out[k] < n || (out[k] == n && k < i)
  }

  predicate Under(r: seq<Rune>, a: int) { forall k :: 0 <= k < |r| ==> r[k] < a }

  lemma UnderParts(x: seq<Rune>, y: seq<Rune>, a: int)
    requires Under(x + y, a)
    ensures Under(x, a) && Under(y, a)
  {
    forall k | 0 <= k < |x| ensures x[k] < a { assert (x + y)[k] == x[k]; }
    forall k | 0 <= k < |y| ensures y[k] < a { assert (x + y)[|x| + k] == y[k]; }
  }

  lemma {:induction false} BelowShrink(x: seq<Rune>, a: int, b: int)
    requires a <= b && Under(Below(x, b), a)
    ensures Below(x, a) == Below(x, b)
  {
    if x != [] {
      var first := if x[0] < b then [x[0]] else [];
      UnderParts(first, Below(x[1..], b), a);
      assert first == [] || first[0] == x[0];
      BelowShrink(x[1..], a, b);
    }
  }

  /** The least index before je that has passed i runes. */
  lemma {:induction false} PassedAt(s: seq<Rune>, n: int, je: nat, i: nat) returns (j: nat)
    requires je <= |s| && i <= Passed(s, n, je)
    ensures j <= je && Passed(s, n, j) == i && (i > 0 ==> j > 0 && Passed(s, n, j - 1) == i - 1)
    decreases je
  {
    if je == 0 {
      j := 0;
    } else {
      ScanStep(s, n, je - 1);
      if i <= Passed(s, n, je - 1) {
        j := PassedAt(s, n, je - 1, i);
      } else {
        j := je;
      }
    }
  }

  /** The handled runes at j and at je, cut at both. */
  lemma HandledParts(s: seq<Rune>, n: nat, j: nat, je: nat)
    requires j <= je <= |s|
    ensures Handled(s, n, j) == (Below(s[..j], n + 1) + Below(s[j..je], n)) + Below(s[je..], n)
    ensures Handled(s, n, je) == (Below(s[..j], n + 1) + Below(s[j..je], n + 1)) + Below(s[je..], n)
  {
    var mid := s[j..je];
    assert s[..je] == s[..j] + mid && s[j..] == mid + s[je..];
    BelowConcat(s[..j], mid, n + 1);
    BelowConcat(mid, s[je..], n);
    assert Below(s[..j], n + 1) + (Below(mid, n) + Below(s[je..], n))
        == (Below(s[..j], n + 1) + Below(mid, n)) + Below(s[je..], n);
  }

  /** Handled(s, n, j) only misses runes equal to n when compared with a later point of the same row. */
  lemma HandledBack(s: seq<Rune>, n: nat, j: nat, je: nat)
    requires j <= je <= |s|
    requires DecoderState(n, Passed(s, n, j), Handled(s, n, je))
    ensures Handled(s, n, j) == Handled(s, n, je)
  {
    HandledParts(s, n, j, je);
    BetweenUnder(Below(s[..j], n + 1), Below(s[j..je], n + 1), Below(s[je..], n), n);
    BelowShrink(s[j..je], n, n + 1);
  }

  lemma BetweenUnder(a: seq<Rune>, mid: seq<Rune>, c: seq<Rune>, n: nat)
    requires DecoderState(n, |a|, (a + mid) + c)
    ensures Under(mid, n)
  {
    var out := (a + mid) + c;
    forall k | 0 <= k < |mid| ensures mid[k] < n { assert out[|a| + k] == mid[k]; }
  }

  lemma HandledRowBack(s: seq<Rune>, n: nat, n2: nat, je: nat)
    requires n < n2 && je <= |s| && Under(Handled(s, n2, je), n + 1)
    ensures Handled(s, n, |s|) == Handled(s, n2, je)
  {
    UnderParts(Below(s[..je], n2 + 1), Below(s[je..], n2), n + 1);
    BelowShrink(s[..je], n + 1, n2 + 1);
    BelowShrink(s[je..], n + 1, n2);
    BelowConcat(s[..je], s[je..], n + 1);
    assert s[..je] + s[je..] == s && s[..|s|] == s && s[|s|..] == [];
  }

  /** A decoder state whose output is what the scan has handled at a later point is itself a point of the scan. */
  lemma ScanPoint(s: seq<Rune>, n: nat, i: nat, out: seq<Rune>, n2: nat, je: nat) returns (j: nat)
    requires DecoderState(n, i, out) && je <= |s| && n <= n2 && out == Handled(s, n2, je)
    requires n == n2 ==> i <= Passed(s, n, je)
    ensures j <= |s| && NotAfter(n, j, n2, je) && out == Handled(s, n, j) && i == Passed(s, n, j)
    ensures i > 0 ==> j > 0 && Passed(s, n, j - 1) == i - 1
  {
    var last := je;
    if n < n2 {
      HandledRowBack(s, n, n2, je);
      RowEnd(s, n);
      last := |s|;
    }
    j := PassedAt(s, n, last, i);
    HandledBack(s, n, j, last);
  }

  lemma InsertInjective(a: seq<Rune>, b: seq<Rune>, p: nat, r: Rune)
    requires p <= |a| && p <= |b| && Insert(a, p, r) == Insert(b, p, r)
    ensures a == b
  {
    assert a == Insert(a, p, r)[..p] + Insert(a, p, r)[p + 1..];
    assert b == Insert(b, p, r)[..p] + Insert(b, p, r)[p + 1..];
  }

  /** A scan step that passes a rune puts it behind those already passed. */
  lemma PassedLast(s: seq<Rune>, n: Rune, j: nat)
    requires 0 < j <= |s| && Passed(s, n, j) == Passed(s, n, j - 1) + 1
    ensures Passed(s, n, j) <= |Handled(s, n, j)| && Handled(s, n, j)[Passed(s, n, j - 1)] == s[j - 1]
  {
    assert s[..j] == s[..j - 1] + [s[j - 1]];
    BelowConcat(s[..j - 1], [s[j - 1]], n + 1);
  }

  /** The rune at a point that has just passed p + 1 runes is the one the decoder put at p. */
  lemma LastPassed(s: seq<Rune>, n: Rune, j: nat, p: nat, out: seq<Rune>)
    requires 0 < j <= |s| && p <= |out| && Passed(s, n, j) == p + 1 && Passed(s, n, j - 1) == p
    requires Handled(s, n, j) == Insert(out, p, n)
    ensures s[j - 1] == n && Handled(s, n, j - 1) == out
  {
    PassedLast(s, n, j);
    ScanStep(s, n, j - 1);
    InsertInjective(Handled(s, n, j - 1), out, p, n);
  }

  lemma DecoderStateNext(n: nat, i: nat, out: seq<Rune>, n2: nat, p: nat)
    requires DecoderState(n, i, out) && n <= n2 <= MAX_RUNE && p <= |out| && (n2 == n ==> i <= p)
    ensures DecoderState(n2, p + 1, Insert(out, p, n2))
  {
    var out2 := Insert(out, p, n2);
    forall k | 0 <= k < |out2| ensures out2[k] < n2 || (out2[k] == n2 && k < p + 1) {
      if k > p { assert out2[k] == out[k - 1]; }
    }
  }

  predicate LowerDigits(e: seq<Rune>) {
    forall j :: 0 <= j < |e| && DigitValue(e[j]).Some? ==> IsLowerDigit(e[j])
  }

  lemma RowsLeft(n: int, h: nat)
    requires n <= MAX_RUNE
    ensures (MAX_RUNE + 1 - n) * (h + 1) >= h + 1
  {
  }

  lemma FinalPoint(s: seq<Rune>, n: nat, i: nat, bias: int) returns (j: nat)
    requires DecoderState(n, i, s) && |Basic(s)| <= |s| && (i == 0 <==> |s| == |Basic(s)|)
    ensures InStep(s, n, j, 0, |s|, n, i, s) && (i > 0 ==> j > 0 && Passed(s, n, j - 1) == i - 1)
    ensures Insertions(s, n, j, 0, |s|, bias, i) == []
  {
    ScanEnd(s);
    j := ScanPoint(s, n, i, s, MAX_RUNE + 1, 0);
    NothingLeft(s, n, j, i, bias);
  }

  lemma NothingLeft(s: seq<Rune>, n: nat, j: nat, i: nat, bias: int)
    requires n <= MAX_RUNE && InStep(s, n, j, 0, |s|, n, i, s)
    ensures Insertions(s, n, j, 0, |s|, bias, i) == []
  {
    var delta := PastTheEnd(s, n, j, i);
    InsertionsSkip(s, n, j, 0, MAX_RUNE + 1, 0, delta, |s|, bias, n, i, s);
  }

  /** The end of the scan, in step with a decoder that has all of s. */
  lemma PastTheEnd(s: seq<Rune>, n: nat, j: nat, i: nat) returns (delta: nat)
    requires n <= MAX_RUNE && InStep(s, n, j, 0, |s|, n, i, s)
    ensures InStep(s, MAX_RUNE + 1, 0, delta, |s|, n, i, s)
  {
    ScanEnd(s);
    RowsLeft(n, |s|);
    RowEnd(s, MAX_RUNE);
    delta := (MAX_RUNE + 1 - n) * (|s| + 1) - i;
  }

  /**
   The scan points before and after one decoded insertion of n2 at p, given the point after it:
   the encoder, started where the decoder stands, makes exactly that insertion next.
   */
  lemma InsertionBack(s: seq<Rune>, n: nat, i: nat, out: seq<Rune>, bias: int, q: nat, n2: nat, p: nat, j2: nat)
      returns (j: nat)
    requires DecoderState(n, i, out) && |Basic(s)| <= |out| && (i == 0 <==> |out| == |Basic(s)|)
    requires n <= n2 <= MAX_RUNE && p <= |out| && (n2 == n ==> i <= p) && i + q == (n2 - n) * (|out| + 1) + p
    requires 0 < j2 <= |s| && Handled(s, n2, j2) == Insert(out, p, n2)
    requires Passed(s, n2, j2) == p + 1 && Passed(s, n2, j2 - 1) == p
    ensures InStep(s, n, j, 0, |out|, n, i, out) && (i > 0 ==> j > 0 && Passed(s, n, j - 1) == i - 1)
    ensures Insertions(s, n, j, 0, |out|, bias, i)
         == [Insertion(q, i, |out|, bias)]
            + Insertions(s, n2, j2, 0, |out| + 1, Adapt(q, |out| + 1, i == 0), p + 1)
  {
    LastPassed(s, n2, j2, p, out);
    j := ScanPoint(s, n, i, out, n2, j2 - 1);
    BackInsertions(s, n, i, out, bias, q, n2, p, j, j2 - 1);
  }

  /** From j the scan reaches j1 without inserting and inserts there. */
  lemma BackInsertions(s: seq<Rune>, n: nat, i: nat, out: seq<Rune>, bias: int, q: nat, n2: nat, p: nat, j: nat,
      j1: nat)
    requires InStep(s, n, j, 0, |out|, n, i, out) && InStep(s, n2, j1, q, |out|, n, i, out) && NotAfter(n, j, n2, j1)
    requires j1 < |s| && s[j1] == n2 <= MAX_RUNE && Passed(s, n2, j1) == p
    ensures Insertions(s, n, j, 0, |out|, bias, i)
         == [Insertion(q, i, |out|, bias)]
            + Insertions(s, n2, j1 + 1, 0, |out| + 1, Adapt(q, |out| + 1, i == 0), p + 1)
  {
    InsertionsSkip(s, n, j, 0, n2, j1, q, |out|, bias, n, i, out);
    InsertionsTurn(s, n2, j1, q, |out|, bias, i);
  }

  /** The digits the decoder accepts next, and what is left. */
  lemma DecodedDigits(e: seq<Rune>, bias: int, i: nat) returns (q: nat, rest: seq<Rune>)
    requires LowerDigits(e) && ReadVarInt(e, BASE, bias, i, 1).VarInt?
    ensures ReadVarInt(e, BASE, bias, i, 1) == VarInt(i + q, rest) && i + q <= MAX_INT32
    ensures e == Digits(q, BASE, bias) + rest && WeightsFit(q, BASE, bias, 1) && |rest| < |e| && LowerDigits(rest)
  {
    q := DigitsRead(e, BASE, bias, i, 1);
    ReadVarIntAdvances(e, BASE, bias, i, 1);
    rest := ReadVarInt(e, BASE, bias, i, 1).rest;
    LowerDigitsDrop(e, Digits(q, BASE, bias), rest);
  }

  lemma LowerDigitsDrop(e: seq<Rune>, front: seq<Rune>, rest: seq<Rune>)
    requires LowerDigits(e) && e == front + rest
    ensures LowerDigits(rest)
  {
    forall k | 0 <= k < |rest| && DigitValue(rest[k]).Some? ensures IsLowerDigit(rest[k]) {
      assert rest[k] == e[|front| + k];
    }
  }

  /** One insertion of an accepting run: its digits are those of a carried insertion. */
  lemma DecodedStep(e: seq<Rune>, n: nat, i: nat, out: seq<Rune>, bias: int, s: seq<Rune>)
      returns (q: nat, rest: seq<Rune>, n2: nat, p: nat)
    requires e != [] && DecodedTail(e, n, i, out, bias) == Some(s) && LowerDigits(e)
    ensures e == Digits(q, BASE, bias) + rest && |rest| < |e| && LowerDigits(rest)
    ensures CarriedStep(Insertion(q, i, |out|, bias))
    ensures n <= n2 <= MAX_RUNE && p <= |out| && (n2 == n ==> i <= p) && i + q == (n2 - n) * (|out| + 1) + p
    ensures DecodedTail(rest, n2, p + 1, Insert(out, p, n2), Adapt(q, |out| + 1, i == 0)) == Some(s)
  {
    if ReadVarInt(e, BASE, bias, i, 1).Malformed? {
      DecodedNone(e, n, i, out, bias);
    }
    q, rest := DecodedDigits(e, bias, i);
    n2, p := DecodedPlace(n, i + q, |out| + 1);
    DecodedRound(e, n, i, out, bias, i + q, rest, n2, p);
  }

  /** The conclusion of DecodedTailEncodes: the scan point j where the encoder stands with the decoder. */
  ghost predicate EncodesFrom(e: seq<Rune>, n: nat, i: nat, out: seq<Rune>, bias: int, s: seq<Rune>, j: nat) {
    && InStep(s, n, j, 0, |out|, n, i, out)
    && (i > 0 ==> j > 0 && Passed(s, n, j - 1) == i - 1)
    && e == Text(Insertions(s, n, j, 0, |out|, bias, i))
    && Carried(Insertions(s, n, j, 0, |out|, bias, i))
  }

  lemma EncodesBack(e: seq<Rune>, n: nat, i: nat, out: seq<Rune>, bias: int, s: seq<Rune>,
                    q: nat, rest: seq<Rune>, n2: nat, p: nat, j2: nat) returns (j: nat)
    requires DecoderState(n, i, out) && |Basic(s)| <= |out| && (i == 0 <==> |out| == |Basic(s)|)
    requires e == Digits(q, BASE, bias) + rest && CarriedStep(Insertion(q, i, |out|, bias))
    requires n <= n2 <= MAX_RUNE && p <= |out| && (n2 == n ==> i <= p) && i + q == (n2 - n) * (|out| + 1) + p
    requires EncodesFrom(rest, n2, p + 1, Insert(out, p, n2), Adapt(q, |out| + 1, i == 0), s, j2)
    ensures EncodesFrom(e, n, i, out, bias, s, j)
  {
    j := InsertionBack(s, n, i, out, bias, q, n2, p, j2);
    StepsFollow(e, Insertion(q, i, |out|, bias), rest,
                Insertions(s, n2, j2, 0, |out| + 1, Adapt(q, |out| + 1, i == 0), p + 1));
  }

  /** The decoder state that can stand before more digits of s. */
  ghost predicate Decoding(n: nat, i: nat, out: seq<Rune>, s: seq<Rune>) {
    DecoderState(n, i, out) && |Basic(s)| <= |out| && (i == 0 <==> |out| == |Basic(s)|)
  }

  /** Whatever digits the decoder accepts are the encoder's own digits for the decoded label. */
  lemma {:induction false} DecodedTailEncodes(e: seq<Rune>, n: nat, i: nat, out: seq<Rune>, bias: int, s: seq<Rune>)
      returns (j: nat)
    requires DecodedTail(e, n, i, out, bias) == Some(s) && LowerDigits(e) && Decoding(n, i, out, s)
    ensures EncodesFrom(e, n, i, out, bias, s, j)
    decreases |e|
  {
    if e == [] {
      j := FinalPoint(s, n, i, bias);
      assert Text([]) == [];
    } else {
      var q, rest, n2, p := DecodedStep(e, n, i, out, bias, s);
      DecoderStateNext(n, i, out, n2, p);
      var j2 := DecodedTailEncodes(rest, n2, p + 1, Insert(out, p, n2), Adapt(q, |out| + 1, i == 0), s);
      j := EncodesBack(e, n, i, out, bias, s, q, rest, n2, p, j2);
    }
  }

  /** The decoder's division of i into a rune and a position. */
  lemma DecodedPlace(n: nat, i: nat, x: nat) returns (n2: nat, p: nat)
    requires x > 0
    ensures n2 == n + i / x && p == i % x && n <= n2 && p < x && i == (n2 - n) * x + p
    ensures n2 == n ==> p == i
  {
    DivModSmall(i, x);
    n2, p := n + i / x, i % x;
  }

  lemma {:induction false} DecodedTailKeepsBasic(e: seq<Rune>, n: nat, i: nat, out: seq<Rune>, bias: int)
    requires DecodedTail(e, n, i, out, bias).Some? && n >= INITIAL_N
    ensures Basic(DecodedTail(e, n, i, out, bias).value) == Basic(out)
    decreases |e|
  {
    if e != [] {
      ReadVarIntAdvances(e, BASE, bias, i, 1);
      var r := ReadVarInt(e, BASE, bias, i, 1);
      var x := |out| + 1;
      DivModSmall(r.value, x);
      var p, n2 := r.value % x, n + r.value / x;
      BelowConcat(out[..p] + [n2], out[p..], INITIAL_N);
      BelowConcat(out[..p], [n2], INITIAL_N);
      BelowConcat(out[..p], out[p..], INITIAL_N);
      assert out[..p] + out[p..] == out;
      DecodedTailKeepsBasic(r.rest, n2, p + 1, Insert(out, p, n2), Adapt(r.value - i, x, i == 0));
    }
  }

  lemma {:induction false} BasicOfAscii(s: seq<Rune>)
    requires forall k :: 0 <= k < |s| ==> s[k] < INITIAL_N
    ensures Basic(s) == s
  {
    if s != [] { BasicOfAscii(s[1..]); }
  }

  lemma AsciiHasNoInsertions(s: seq<Rune>)
    requires forall k :: 0 <= k < |s| ==> s[k] < INITIAL_N
    ensures AllInsertions(s) == []
  {
    BasicOfAscii(s);
    var j := FinalPoint(s, INITIAL_N, 0, INITIAL_BIAS);
    StartInStep(s);
    InsertionsSkip(s, INITIAL_N, 0, 0, INITIAL_N, j, 0, |s|, INITIAL_BIAS, INITIAL_N, 0, s);
  }

  predicate Ascii(e: seq<Rune>) { forall k :: 0 <= k < |e| ==> e[k] < INITIAL_N }

  /** An ASCII string whose digits after the last hyphen are lower-case: the only strings an encoder writes. */
  predicate Canonical(e: seq<Rune>) { Ascii(e) && LowerDigits(e[TailStart(e)..]) }

  /** A label of ASCII runes, written with its hyphen. */
  lemma HyphenEncodes(s: seq<Rune>)
    requires Ascii(s) && s != []
    ensures s + [HYPHEN] == Encoded(s) && Carried(AllInsertions(s))
  {
    AsciiHasNoInsertions(s);
    BasicOfAscii(s);
    assert Head(s) + Text([]) == s + [HYPHEN];
  }

  lemma EmptyEncodes()
    ensures Encoded([]) == [] && Carried(AllInsertions([]))
  {
    AsciiHasNoInsertions([]);
    BasicOfAscii([]);
  }

  /** A basic part and digits that decode to s. */
  lemma TailEncodes(basic: seq<Rune>, tail: seq<Rune>, s: seq<Rune>)
    requires Ascii(basic) && LowerDigits(tail)
    requires DecodedTail(tail, INITIAL_N, 0, basic, INITIAL_BIAS) == Some(s)
    ensures Head(basic) + tail == Encoded(s) && Carried(AllInsertions(s))
  {
    TailDecodes(basic, tail, s);
  }

  /** A string with digits, cut at its last hyphen. */
  lemma CutAtHyphen(e: seq<Rune>)
    requires TailStart(e) != 1
    ensures e == Head(if TailStart(e) == 0 then [] else e[..TailStart(e) - 1]) + e[TailStart(e)..]
  {
  }

  /** Converse: a canonical string the decoder accepts is what the encoder writes for the decoded label. */
  lemma DecodedEncodes(e: seq<Rune>)
    requires Canonical(e) && Decoded(e).Some?
    ensures e == Encoded(Decoded(e).value) && Carried(AllInsertions(Decoded(e).value))
  {
    var pos, s := TailStart(e), Decoded(e).value;
    if e == [] {
      EmptyEncodes();
    } else if pos == |e| {
      HyphenEncodes(s);
    } else {
      CutAtHyphen(e);
      TailEncodes(if pos == 0 then [] else e[..pos - 1], e[pos..], s);
    }
  }

  lemma TailDecodes(basic: seq<Rune>, tail: seq<Rune>, s: seq<Rune>)
    requires Ascii(basic) && LowerDigits(tail)
    requires DecodedTail(tail, INITIAL_N, 0, basic, INITIAL_BIAS) == Some(s)
    ensures Basic(s) == basic && tail == Text(AllInsertions(s)) && Carried(AllInsertions(s))
  {
    BasicOfAscii(basic);
    DecodedTailKeepsBasic(tail, INITIAL_N, 0, basic, INITIAL_BIAS);
    var j := DecodedTailEncodes(tail, INITIAL_N, 0, basic, INITIAL_BIAS, s);
    StartInStep(s);
    InsertionsSkip(s, INITIAL_N, 0, 0, INITIAL_N, j, 0, |basic|, INITIAL_BIAS, INITIAL_N, 0, basic);
  }

  /**
   The bijection: on canonical strings, `e decodes to s` and `s encodes to e, and is carried` are
   the same relation.
   */
  lemma Bijection(e: seq<Rune>, s: seq<Rune>)
    requires Canonical(e)
    ensures Decoded(e) == Some(s) <==> e == Encoded(s) && Carried(AllInsertions(s))
  {
    if Decoded(e) == Some(s) {
      DecodedEncodes(e);
    }
    RoundTrip(s);
  }

  lemma EncodedIsCanonical(s: seq<Rune>)
    ensures Canonical(Encoded(s))
  {
    TailStartAt(Head(Basic(s)), Text(AllInsertions(s)));
    assert Encoded(s)[|Head(Basic(s))|..] == Text(AllInsertions(s));
  }

  // ---------- which labels are carried ----------

  /** With bias at most 190, an integer below this bound never drives a digit weight to the cap. */
  const SAFE_DELTA: int := 26 * ((WEIGHT_CAP - 1) / 10)
  const SAFE_BIAS: int := 190
  /** Labels no longer than this keep every delta below SAFE_DELTA. */
  const SAFE_LENGTH: int := 139

  function MaxWeight(m: nat): nat {
    if m <= 1 then 1 else if m == 2 then 35 else if m == 3 then 1225
    else if m == 4 then 42_875 else if m == 5 then 1_500_625 else 52_521_875
  }

  lemma MulLe(a: nat, b: nat, c: nat)
    requires a <= b
    ensures a * c <= b * c
  {
  }

  lemma {:induction false} SafeWeights(q: nat, k: int, bias: int, w: nat, m: nat)
    requires m >= 1 && k == BASE * m && w >= 1 && (m <= 6 ==> w <= MaxWeight(m))
    requires q * w <= SAFE_DELTA && bias <= SAFE_BIAS
    ensures WeightsFit(q, k, bias, w)
    decreases q
  {
    var t := Threshold(k, bias);
    if q >= t {
      WeightSplit(q, Lead(q, t), Rest(q, t), BASE - t, w);
      MulNat(Lead(q, t), w);
      MulLe(BASE - t, 35, w);
      MulAtLeast(w, BASE - t);
      if m >= 6 {
        assert t == 26;
        MulLe(26, q, w);
      }
      SafeWeights(Rest(q, t), k + BASE, bias, w * (BASE - t), m + 1);
    }
  }

  function Scale(l: nat): nat { if l == 0 then 455 else 35 * Scale(l - 1) }

  lemma AdaptLast(delta: nat)
    requires delta <= 455
    ensures 36 * delta / (delta + 38) <= 33
  {
    DivModSmall(36 * delta, delta + 38);
    var d := 36 * delta / (delta + 38);
    if d >= 34 {
      MulLe(34, d, delta + 38);
    }
  }

  lemma {:induction false} AdaptLoopBound(delta: nat, k: nat, l: nat)
    requires delta <= Scale(l)
    ensures AdaptLoop(delta, k) <= k + BASE * l + 33
    decreases l
  {
    if delta > 455 {
      AdaptLoopBound(delta / 35, k + BASE, l - 1);
    } else {
      AdaptLast(delta);
    }
  }

  lemma DivLe(a: nat, x: int)
    requires x >= 1
    ensures 0 <= a / x <= a
  {
    DivModSmall(a, x);
    MulLe(1, x, a / x);
  }

  /** An int32 delta keeps the bias at most 213; a safe delta keeps it at most 177. */
  lemma AdaptBound(delta: nat, numPoints: nat, first: bool)
    requires numPoints > 0 && delta <= MAX_INT32
    ensures Adapt(delta, numPoints, first) <= 213
    ensures delta <= SAFE_DELTA ==> Adapt(delta, numPoints, first) <= 177
  {
    var d := if first then delta / DAMP else delta / 2;
    DivLe(d, numPoints);
    assert Scale(5) >= MAX_INT32 && Scale(4) >= SAFE_DELTA by {
      assert Scale(1) == 15_925 && Scale(2) == 557_375;
      assert Scale(3) == 19_508_125 && Scale(4) == 682_784_375;
    }
    AdaptLoopBound(d + d / numPoints, 0, 5);
    if delta <= SAFE_DELTA {
      AdaptLoopBound(d + d / numPoints, 0, 4);
    }
  }

  lemma SafeDelta(n: nat, nd: nat, h: nat, passed: nat)
    requires INITIAL_N <= nd <= n <= MAX_RUNE && h < SAFE_LENGTH && passed <= h
    ensures (n - nd) * (h + 1) + passed <= SAFE_DELTA
  {
    MulLe(n - nd, MAX_RUNE - INITIAL_N, h + 1);
    MulLe(h + 1, SAFE_LENGTH, MAX_RUNE - INITIAL_N);
  }

  /** A short label's next insertion is carried and leaves a bias within bounds. */
  lemma SafeStep(s: seq<Rune>, n: nat, j: nat, delta: nat, h: nat, bias: int, nd: nat, i: nat, out: seq<Rune>)
    requires InStep(s, n, j, delta, h, nd, i, out) && nd >= INITIAL_N && |s| <= SAFE_LENGTH && bias <= 177
    requires j < |s| && s[j] == n
    ensures CarriedStep(Insertion(delta, i, h, bias)) && Adapt(delta, h + 1, h == |Basic(s)|) <= 177
  {
    InStepMeet(s, n, j, delta, h, nd, i, out);
    assert |Handled(s, n, j + 1)| <= |s[..j + 1]| + |s[j + 1..]|;
    SafeDelta(n, nd, h, Passed(s, n, j));
    AdaptBound(delta, h + 1, h == |Basic(s)|);
    SafeWeights(delta, BASE, bias, 1, 1);
  }

  lemma {:induction false} SafeInsertions(s: seq<Rune>, n: nat, j: nat, delta: nat, h: nat, bias: int, nd: nat,
      i: nat, out: seq<Rune>,
                                          steps: seq<Insertion>)
    requires InStep(s, n, j, delta, h, nd, i, out) && nd >= INITIAL_N && |s| <= SAFE_LENGTH && bias <= 177
    requires steps == Insertions(s, n, j, delta, h, bias, i)
    ensures Carried(steps)
    decreases MAX_RUNE + 1 - n, |s| - j
  {
    if n <= MAX_RUNE {
      InsertionsTurn(s, n, j, delta, h, bias, i);
      if j == |s| {
        InStepSkip(s, n, j, delta, h, nd, i, out);
        SafeInsertions(s, n + 1, 0, delta + 1, h, bias, nd, i, out, steps);
      } else if s[j] != n {
        InStepSkip(s, n, j, delta, h, nd, i, out);
        SafeInsertions(s, n, j + 1, if s[j] < n then delta + 1 else delta, h, bias, nd, i, out, steps);
      } else {
        InStepMeet(s, n, j, delta, h, nd, i, out);
        SafeStep(s, n, j, delta, h, bias, nd, i, out);
        var p, bias1 := Passed(s, n, j), Adapt(delta, h + 1, h == |Basic(s)|);
        var tail := Insertions(s, n, j + 1, 0, h + 1, bias1, p + 1);
        SafeInsertions(s, n, j + 1, 0, h + 1, bias1, n, p + 1, Insert(out, p, n), tail);
        StepsCons(Insertion(delta, i, h, bias), tail);
      }
    }
  }

  /** Every label of at most 139 code points (a DNS label has at most 63) survives the round trip. */
  lemma ShortLabelsRoundTrip(s: seq<Rune>)
    requires |s| <= SAFE_LENGTH
    ensures Carried(AllInsertions(s)) && Decoded(Encoded(s)) == Some(s)
  {
    StartInStep(s);
    SafeInsertions(s, INITIAL_N, 0, 0, |Basic(s)|, INITIAL_BIAS, INITIAL_N, 0, Basic(s), AllInsertions(s));
    RoundTrip(s);
  }

  lemma LastRuneMet(a: seq<Rune>, r: Rune)
    requires Ascii(a) && r >= INITIAL_N
    ensures Basic(a + [r]) == a
    ensures InStep(a + [r], r, |a|, (r - INITIAL_N) * (|a| + 1) + |a|, |a|, INITIAL_N, 0, a)
  {
    var s, h := a + [r], |a|;
    BelowConcat(a, [r], INITIAL_N);
    BasicOfAscii(a);
    assert s[..h] == a && s[h..] == [r];
    assert Under(a, r + 1);
    BelowAll(a, r + 1);
    MulNat(r - INITIAL_N, h + 1);
  }

  /** Both machines past the last rune. */
  lemma LastMet(s: seq<Rune>, h: nat, r: Rune, delta: nat, out: seq<Rune>)
    requires |s| == h + 1 && s == out + [r] && InStep(s, r, h, delta, h, INITIAL_N, 0, out)
    ensures Passed(s, r, h) == h && InStep(s, r, h + 1, 0, h + 1, r, h + 1, s)
  {
    InStepMeet(s, r, h, delta, h, INITIAL_N, 0, out);
    assert Handled(s, r, h) == out && Below(s[h..], r) == [] by { assert s[h..] == [r]; }
    assert Insert(out, h, r) == s;
  }

  /** Where the scan meets the last rune: one insertion, and nothing after it. */
  lemma LastStep(s: seq<Rune>, h: nat, r: Rune, delta: nat, out: seq<Rune>)
    requires |s| == h + 1 && s == out + [r] && InStep(s, r, h, delta, h, INITIAL_N, 0, out)
    ensures Insertions(s, r, h, delta, h, INITIAL_BIAS, 0) == [Insertion(delta, 0, h, INITIAL_BIAS)]
  {
    LastMet(s, h, r, delta, out);
    NothingLeft(s, r, h + 1, h + 1, Adapt(delta, h + 1, h == |Basic(s)|));
    InsertionsTurn(s, r, h, delta, h, INITIAL_BIAS, 0);
  }

  /** An ASCII label followed by one other rune makes a single insertion at its end. */
  lemma LastRuneInsertion(a: seq<Rune>, r: Rune)
    requires Ascii(a) && r >= INITIAL_N
    ensures AllInsertions(a + [r]) == [Insertion((r - INITIAL_N) * (|a| + 1) + |a|, 0, |a|, INITIAL_BIAS)]
  {
    var h: nat := |a|;
    MulNat(r - INITIAL_N, h + 1);
    LastRuneMet(a, r);
    OneInsertion(a + [r], h, r, (r - INITIAL_N) * (h + 1) + h, a);
  }

  lemma OneInsertion(s: seq<Rune>, h: nat, r: Rune, delta: nat, out: seq<Rune>)
    requires |s| == h + 1 && s == out + [r] && Basic(s) == out && r >= INITIAL_N
    requires InStep(s, r, h, delta, h, INITIAL_N, 0, out)
    ensures AllInsertions(s) == [Insertion(delta, 0, h, INITIAL_BIAS)]
  {
    StartInStep(s);
    InsertionsSkip(s, INITIAL_N, 0, 0, r, h, delta, h, INITIAL_BIAS, INITIAL_N, 0, out);
    LastStep(s, h, r, delta, out);
  }

  lemma {:induction false} BelowAll(x: seq<Rune>, n: int)
    requires Under(x, n)
    ensures Below(x, n) == x
  {
    if x != [] { BelowAll(x[1..], n); }
  }

  /** The round trip fails for longer labels: 318 ASCII runes and U+10FFFF encode to a string the decoder rejects. */
  lemma LongLabelRejected(a: seq<Rune>)
    requires Ascii(a) && |a| == 318
    ensures Decoded(Encoded(a + [MAX_RUNE])) == None
  {
    LastRuneInsertion(a, MAX_RUNE);
    var st := AllInsertions(a + [MAX_RUNE])[0];
    assert st.delta == 355_360_895;
    assert !WeightsFit(st.delta, BASE, INITIAL_BIAS, 1) by { HeavyDelta(); }
    assert !CarriedStep(st);
    RoundTrip(a + [MAX_RUNE]);
  }

  lemma HeavyDelta()
    ensures !WeightsFit(355_360_895, 36, 72, 1)
  {
    assert !WeightsFit(26, 252, 72, 12_250_000);
    assert !WeightsFit(287, 216, 72, 1_225_000);
    assert !WeightsFit(2_898, 180, 72, 122_500);
    assert !WeightsFit(29_006, 144, 72, 12_250);
    assert !WeightsFit(290_090, 108, 72, 1_225);
    assert !WeightsFit(10_153_168, 72, 72, 35);
  }
}
