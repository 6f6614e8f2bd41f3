/**
 The source's Punycode loops, with every int32 operation wrapping as it does in Go, proved
 against the unbounded specification in PunycodeSpec.
 */
module Punycode {
  import opened Machine
  import opened PunycodeSpec
  import opened PunycodeProofs
  import opened PunycodeWrap
  import opened PunycodeRfc

  const MAX_BIAS: int := 213

  // ---------- shared pieces ----------

  /** The bias adaptation of section 6.1; no int32 operation in it wraps. */
  method AdaptBias(delta0: int, numPoints: int, firstTime: bool) returns (bias: int)
    requires 0 <= delta0 <= MAX_INT32 && 1 <= numPoints <= MAX_INT32
    ensures bias == Adapt(delta0, numPoints, firstTime) && 0 <= bias <= MAX_BIAS
  {
    AdaptBound(delta0, numPoints, firstTime);
    var delta: nat := if firstTime then delta0 / DAMP else delta0 / 2;
    DivLe(delta, numPoints);
    delta := Int32(delta + delta / numPoints);
    var k: nat := 0;
    while delta > (BASE - T_MIN) * T_MAX / 2
      invariant delta <= MAX_INT32 && AdaptLoop(delta, k) == Adapt(delta0, numPoints, firstTime)
    {
      AdaptLoopAtLeast(delta, k);
      delta := delta / (BASE - T_MIN);
      k := Int32(k + BASE);
    }
    AdaptLoopAtLeast(delta, k);
    AdaptLast(delta);
    bias := Int32(k + Int32((BASE - T_MIN + 1) * delta) / Int32(delta + SKEW));
  }

  lemma {:induction false} AdaptLoopAtLeast(delta: nat, k: nat)
    ensures AdaptLoop(delta, k) >= k
    decreases delta
  {
    if delta > 455 {
      AdaptLoopAtLeast(delta / 35, k + BASE);
    } else {
      DivModSmall(36 * delta, delta + 38);
    }
  }

  method ClampThreshold(k: int, bias: int) returns (t: int)
    requires 0 <= k <= MAX_INT32 && 0 <= bias <= MAX_BIAS
    ensures t == Threshold(k, bias)
  {
    t := Int32(k - bias);
    if t < T_MIN {
      t := T_MIN;
    } else if t > T_MAX {
      t := T_MAX;
    }
  }

  // ---------- decode ----------

  /**
   The digit loop of decode: reads one variable-length integer at pos, adding it to i. The result is
   the unbounded one: the test i < 0 catches every wrap of i, and the cap keeps w and digit * w in range.
   `step` bounds what was added, so that dividing it can never push n past an int32.
   */
  method DecodeDelta(encoded: seq<Rune>, pos0: nat, i0: int, bias: int) returns (ok: bool, pos: nat, i: int)
    requires pos0 <= |encoded| && 0 <= i0 <= MAX_INT32 && 0 <= bias <= MAX_BIAS
    ensures var r := ReadVarInt(encoded[pos0..], BASE, bias, i0, 1);
            if r.Malformed? then !ok else ok && pos0 < pos <= |encoded| && r == VarInt(i, encoded[pos..])
    ensures ok ==> i0 <= i <= MAX_INT32 && i - i0 <= 29 * WEIGHT_CAP
  {
    var w, k := 1, BASE;
    pos, i := pos0, i0;
    ghost var m := 1;
    while true
      invariant pos0 <= pos <= |encoded| && i0 <= i <= MAX_INT32 && i - i0 <= 4 * w
      invariant 1 <= w < WEIGHT_CAP && 1 <= m <= 8 && k == BASE * m && Pow10(m - 1) <= w
      invariant ReadVarInt(encoded[pos0..], BASE, bias, i0, 1) == ReadVarInt(encoded[pos..], k, bias, i, w)
      decreases |encoded| - pos
    {
      if pos == |encoded| {
        return false, pos, i;
      }
      var digit := DigitValue(encoded[pos]);
      if digit.None? {
        return false, pos, i;
      }
      assert encoded[pos..][0] == encoded[pos] && encoded[pos..][1..] == encoded[pos + 1..];
      pos := pos + 1;
      DigitFits(digit.value, w, k, bias);
      i := Int32(i + Int32(digit.value * w));
      if i < 0 {
        return false, pos, i;
      }
      var t := ClampThreshold(k, bias);
      if digit.value < t {
        return true, pos, i;
      }
      w := Int32(w * Int32(BASE - t));
      if w >= WEIGHT_CAP {
        return false, pos, i;
      }
      PowersSmall(m);
      k, m := Int32(k + BASE), m + 1;
    }
  }

  /** Neither product of the digit loop wraps, and the next weight is at least ten times this one. */
  lemma DigitFits(digit: nat, w: nat, k: int, bias: int)
    requires digit < BASE && 1 <= w < WEIGHT_CAP
    ensures var t := Threshold(k, bias);
            && 0 <= digit * w <= 35 * w <= MAX_INT32 && (digit < t ==> digit * w <= 25 * w)
            && 10 * w <= w * (BASE - t) <= 35 * w
  {
    var t := Threshold(k, bias);
    MulLe(digit, 35, w);
    MulNat(digit, w);
    MulLe(10, BASE - t, w);
    MulLe(BASE - t, 35, w);
    if digit < t { MulLe(digit, 25, w); }
  }

  function Pow10(m: nat): nat { if m == 0 then 1 else 10 * Pow10(m - 1) }

  lemma PowersSmall(m: nat)
    requires m <= 8
    ensures m == 8 ==> Pow10(m) >= WEIGHT_CAP
  {
    assert Pow10(4) == 10_000;
    assert Pow10(6) == 1_000_000;
  }

  /** Insertion in place: grow by one, shift the tail right, store. */
  method InsertRune(output: seq<Rune>, i: nat, n: Rune) returns (grown: seq<Rune>)
    requires i <= |output|
    ensures grown == Insert(output, i, n)
  {
    grown := output + [0];
    grown := grown[..i + 1] + grown[i..|output|];
    grown := grown[i := n];
  }

  /** strings.LastIndex for the delimiter: the last hyphen, or -1. */
  method LastHyphen(e: seq<Rune>) returns (k: int)
    ensures -1 <= k < |e| && k + 1 == TailStart(e)
  {
    k := |e| - 1;
    while k >= 0 && e[k] != HYPHEN
      invariant -1 <= k < |e| && TailStart(e) == TailStart(e[..k + 1])
    {
      assert e[..k + 1][..k] == e[..k];
      k := k - 1;
    }
    assert e[..|e|] == e;
  }

  /** One round of decode's outer loop: read a delta, adapt, and insert one rune. */
  method DecodeRound(encoded: seq<Rune>, pos0: nat, n0: int, i0: int, bias0: int, output0: seq<Rune>)
      returns (ok: bool, pos: nat, n: int, i: int, bias: int, output: seq<Rune>)
    requires pos0 < |encoded| < MAX_INT32 && |output0| <= pos0
    requires INITIAL_N <= n0 <= MAX_RUNE && 0 <= i0 <= |output0| && 0 <= bias0 <= MAX_BIAS
    ensures var whole := DecodedTail(encoded[pos0..], n0, i0, output0, bias0);
            if !ok then whole == None
            else && pos0 < pos <= |encoded| && |output| <= pos
                 && INITIAL_N <= n <= MAX_RUNE && 0 <= i <= |output| && 0 <= bias <= MAX_BIAS
                 && whole == DecodedTail(encoded[pos..], n, i, output, bias)
  {
    n, bias, output := n0, bias0, output0;
    ReadVarIntAdvances(encoded[pos0..], BASE, bias, i0, 1);
    ok, pos, i := DecodeDelta(encoded, pos0, i0, bias);
    if !ok {
      DecodedNone(encoded[pos0..], n, i0, output, bias);
      return;
    }
    NextRuneFits(n, i, |output| + 1, i0);
    DecodedRound(encoded[pos0..], n, i0, output, bias, i, encoded[pos..], n + i / (|output| + 1), i % (|output| + 1));
    ok, n, i, bias, output := PlaceRune(n, i, i0, output);
  }

  /** The rune and the place that i stands for, its bias, and the insertion. */
  method PlaceRune(n0: int, i1: int, i0: int, output0: seq<Rune>)
      returns (ok: bool, n: int, i: int, bias: int, output: seq<Rune>)
    requires |output0| + 1 < MAX_INT32 && 0 <= i0 <= i1 <= MAX_INT32
    requires 0 <= i1 % (|output0| + 1) <= |output0| && INITIAL_N <= n0 <= n0 + i1 / (|output0| + 1) <= MAX_INT32
    ensures n == n0 + i1 / (|output0| + 1) && ok == (n <= MAX_RUNE && |output0| < MAX_OUTPUT) && 0 <= bias <= MAX_BIAS
    ensures bias == Adapt(i1 - i0, |output0| + 1, i0 == 0)
    ensures ok ==> output == Insert(output0, i1 % (|output0| + 1), n) && i == i1 % (|output0| + 1) + 1
  {
    output := output0;
    var x := Int32(|output| + 1);
    bias := AdaptBias(Int32(i1 - i0), x, i0 == 0);
    n := Int32(n0 + i1 / x);
    i := i1 % x;
    ok := !(n > MAX_RUNE || |output| >= MAX_OUTPUT);
    if ok {
      output := InsertRune(output, i, n);
      i := Int32(i + 1);
    }
  }

  /** decode: the unbounded decoder's answer, which is the label that the RFC says the string stands for, if any. */
  method Decode(encoded: seq<Rune>) returns (r: Option<seq<Rune>>)
    requires |encoded| < MAX_INT32
    ensures r == Decoded(encoded)
    ensures if r.Some? then Means(encoded, r.value) else forall s: seq<Rune> :: !Means(encoded, s)
  {
    DecodedStands(encoded);
    if encoded == [] {
      return Some([]);
    }
    var k := LastHyphen(encoded);
    var pos: nat := 1 + k;
    if pos == 1 {
      return None;
    }
    if pos == |encoded| {
      return Some(encoded[..|encoded| - 1]);
    }
    var output: seq<Rune> := if pos != 0 then encoded[..pos - 1] else [];
    var i, n, bias := 0, INITIAL_N, INITIAL_BIAS;
    while pos < |encoded|
      invariant pos <= |encoded| && 0 <= i <= |output| <= pos && INITIAL_N <= n <= MAX_RUNE && 0 <= bias <= MAX_BIAS
      invariant DecodedTail(encoded[pos..], n, i, output, bias) == Decoded(encoded)
    {
      var ok;
      ok, pos, n, i, bias, output := DecodeRound(encoded, pos, n, i, bias, output);
      if !ok {
        return None;
      }
    }
    return Some(output);
  }

  /** n += i / x stays an int32: with x == 1 nothing has been decoded yet, and one delta is small. */
  lemma NextRuneFits(n: int, i: int, x: int, oldI: int)
    requires INITIAL_N <= n <= MAX_RUNE && 0 <= oldI <= i <= MAX_INT32 && x >= 1
    requires oldI < x && i - oldI <= 29 * WEIGHT_CAP
    ensures 0 <= i % x < x && i / x >= 0 && n + i / x <= MAX_INT32
  {
    DivModSmall(i, x);
    if x >= 2 {
      MulLe(2, x, i / x);
    }
  }

  // ---------- encode ----------

  /** One digit of q at threshold t, and what is left; nothing wraps. */
  method PutDigit(q: nat, t: int) returns (c: Rune, q1: nat)
    requires q <= MAX_INT32 && T_MIN <= t <= T_MAX && t <= q
    ensures c == DigitChar(Lead(q, t)) && q1 == Rest(q, t) && q1 <= q / 10
  {
    ghost var lead, rest := Lead(q, t), Rest(q, t);
    assert Int32(q - t) == q - t && Int32(BASE - t) == BASE - t;
    c := DigitChar(Int32(t + Int32(q - t) % Int32(BASE - t)));
    q1 := Int32(q - t) / Int32(BASE - t);
  }

  /** The digit loop of encode, for one delta. */
  method EncodeDelta(delta: int, bias: int) returns (ds: seq<Rune>)
    requires 0 <= delta <= MAX_INT32 && 0 <= bias <= MAX_BIAS
    ensures ds == Digits(delta, BASE, bias) && IsNumber(ds, bias, delta)
  {
    hide IsNumber;
    DigitsMean(delta, bias);
    ds := [];
    var q: nat, k := delta, BASE;
    ghost var m: nat := 0;
    var t := ClampThreshold(k, bias);
    while q >= t
      invariant k == BASE * (m + 1) && m <= 10 && t == Threshold(k, bias) && q <= Tenth(m)
      invariant ds + Digits(q, k, bias) == Digits(delta, BASE, bias)
    {
      TenthOfTen(m);
      DigitsTurn(ds, q, k, bias);
      var c;
      c, q := PutDigit(q, t);
      ds := ds + [c];
      k, m := Int32(k + BASE), m + 1;
      t := ClampThreshold(k, bias);
    }
    ds := ds + [DigitChar(q)];
  }

  lemma DigitsTurn(ds: seq<Rune>, q: nat, k: int, bias: int)
    requires q >= Threshold(k, bias)
    ensures var t := Threshold(k, bias);
      ds + Digits(q, k, bias) == ds + [DigitChar(Lead(q, t))] + Digits(Rest(q, t), k + BASE, bias)
  {
    var t := Threshold(k, bias);
    var rest := Digits(Rest(q, t), k + BASE, bias);
    assert ds + ([DigitChar(Lead(q, t))] + rest) == ds + [DigitChar(Lead(q, t))] + rest;
  }

  /** An int32 after m divisions by at least 10. */
  function Tenth(m: nat): nat { if m == 0 then MAX_INT32 else Tenth(m - 1) / 10 }

  lemma TenthOfTen(m: nat)
    requires m <= 10
    ensures Tenth(m) <= MAX_INT32 && (m == 10 ==> Tenth(m) == 0)
  {
    assert Tenth(3) == 2_147_483 && Tenth(6) == 2_147 && Tenth(9) == 2;
  }

  /** Where the unbounded encoder stands: insertions already made, and its own delta, nd, i and bias. */
  datatype Trace = Trace(done: seq<Insertion>, delta: nat, nd: nat, i: nat, bias: int)

  /**
   The insertions done all pass and stand written in tail, in the bias that follows them; the rest is still to
   come.
   */
  ghost predicate Tracks(s: seq<Rune>, n: nat, j: nat, h: nat, bias: int, tail: seq<Rune>, g: Trace) {
    && j <= |s|
    && InStep(s, n, j, g.delta, h, g.nd, g.i, Handled(s, n, j))
    && AllPass(g.done) && tail == Text(Written(g.done, INITIAL_BIAS)) && bias == BiasAfter(g.done, INITIAL_BIAS)
    && AllInsertions(s) == g.done + Insertions(s, n, j, g.delta, h, g.bias, g.i)
  }

  /** delta is the int32 of the row's jump and what the scan has counted since. */
  predicate Counted(n: nat, h: nat, delta: int, g: Trace) {
    && g.nd <= n && 0 <= delta <= MAX_INT32
    && var p := JumpPart(n - g.nd, g.i, h);
       0 <= Int32(p) && delta == Int32(p) + (g.delta - p)
  }

  lemma {:induction false} TextConcat(a: seq<Insertion>, b: seq<Insertion>)
    ensures Text(a + b) == Text(a) + Text(b)
  {
    if a == [] {
      assert a + b == b;
    } else {
      assert (a + b)[1..] == a[1..] + b;
      TextConcat(a[1..], b);
    }
  }

  // the scan of one value n

  lemma TracksSkip(s: seq<Rune>, n: nat, j: nat, h: nat, bias: int, tail: seq<Rune>, g: Trace)
    requires Tracks(s, n, j, h, bias, tail, g) && n <= MAX_RUNE && (j < |s| ==> s[j] != n)
    ensures j == |s| ==> Tracks(s, n + 1, 0, h, bias, tail, g.(delta := g.delta + 1))
    ensures j < |s| && s[j] < n ==> Tracks(s, n, j + 1, h, bias, tail, g.(delta := g.delta + 1))
    ensures j < |s| && s[j] > n ==> Tracks(s, n, j + 1, h, bias, tail, g)
  {
    InStepSkip(s, n, j, g.delta, h, g.nd, g.i, Handled(s, n, j));
    if j < |s| { ScanStep(s, n, j); } else { RowEnd(s, n); }
  }

  /** The insertion met at n passes, and is written with the delta the code has. */
  lemma MetPasses(s: seq<Rune>, n: nat, j: nat, h: nat, bias: int, tail: seq<Rune>, delta: int, g: Trace)
    requires Tracks(s, n, j, h, bias, tail, g) && Counted(n, h, delta, g) && j < |s| && s[j] == n
    ensures var st := Insertion(g.delta, g.i, h, g.bias); Passes(st) && DeltaOf(st) == delta
  {
    MetJump(s, n, j, g.delta, h, g.bias, g.nd, g.i, Handled(s, n, j));
  }

  lemma WrittenMet(done: seq<Insertion>, st: Insertion, tail: seq<Rune>, bias: int, delta: int)
    requires AllPass(done) && tail == Text(Written(done, INITIAL_BIAS)) && bias == BiasAfter(done, INITIAL_BIAS)
    requires Passes(st) && DeltaOf(st) == delta
    ensures AllPass(done + [st]) && tail + Digits(delta, BASE, bias) == Text(Written(done + [st], INITIAL_BIAS))
    ensures BiasAfter(done + [st], INITIAL_BIAS) == Adapt(delta, st.h + 1, st.i == 0)
  {
    var last := Insertion(delta, st.i, st.h, bias);
    WrittenSnoc(done, st, INITIAL_BIAS);
    TextConcat(Written(done, INITIAL_BIAS), [last]);
    StepsCons(last, []);
    assert Text([]) == [];
  }

  lemma TracksMeet(s: seq<Rune>, n: nat, j: nat, h: nat, bias: int, tail: seq<Rune>, delta: int, g: Trace)
      returns (g2: Trace)
    requires Tracks(s, n, j, h, bias, tail, g) && Counted(n, h, delta, g) && j < |s| && s[j] == n
    ensures g2.delta == 0 && g2.nd == n && Counted(n, h + 1, 0, g2)
    ensures Tracks(s, n, j + 1, h + 1, Adapt(delta, h + 1, h == |Basic(s)|), tail + Digits(delta, BASE, bias), g2)
  {
    hide Digits, Adapt, Passed;
    InStepMeet(s, n, j, g.delta, h, g.nd, g.i, Handled(s, n, j));
    MetPasses(s, n, j, h, bias, tail, delta, g);
    var st := Insertion(g.delta, g.i, h, g.bias);
    WrittenMet(g.done, st, tail, bias, delta);
    ScanStep(s, n, j);
    g2 := Trace(g.done + [st], 0, n, Passed(s, n, j) + 1, Adapt(g.delta, h + 1, h == |Basic(s)|));
    InsertionsTurn(s, n, j, g.delta, h, g.bias, g.i);
    assert g.done + ([st] + Insertions(s, n, j + 1, 0, h + 1, g2.bias, g2.i))
        == g2.done + Insertions(s, n, j + 1, 0, h + 1, g2.bias, g2.i);
  }

  /** Within a row that n occurs in: before its first insertion the jump is pending, afterwards little is counted. */
  ghost predicate Following(s: seq<Rune>, n: nat, j: nat, h: nat, bias: int, tail: seq<Rune>, delta: int, g: Trace) {
    && 0 <= bias <= MAX_BIAS && n <= MAX_RUNE && h <= |s| && n in s
    && Tracks(s, n, j, h, bias, tail, g) && Counted(n, h, delta, g)
    && (g.nd < n ==> n !in s[..j])
    && (g.nd == n ==> g.delta <= j)
  }

  lemma HandledLength(s: seq<Rune>, n: int, j: nat)
    requires j <= |s|
    ensures |Handled(s, n, j)| <= |s|
  {
    assert |s[..j]| + |s[j..]| == |s|;
  }

  /** A delta that turns negative belongs to an insertion that does not pass: n is still to come in this row. */
  lemma NotPassed(s: seq<Rune>, n: nat, j: nat, h: nat, bias: int, tail: seq<Rune>, g: Trace)
    requires Tracks(s, n, j, h, bias, tail, g) && n <= MAX_RUNE && n in s[j..]
    requires var p := JumpPart(n - g.nd, g.i, h); Int32(p) < 0 || Int32(p) + (g.delta - p) > MAX_INT32
    ensures !AllPass(AllInsertions(s))
  {
    NextInRow(s, n, j, g.delta, h, g.bias, g.nd, g.i, Handled(s, n, j));
    assert !Passes(AllInsertions(s)[|g.done|]);
  }

  /** delta++ in the scan: it stays in step, or turns negative before an insertion that does not pass. */
  lemma CountOne(s: seq<Rune>, n: nat, j: nat, h: nat, bias: int, tail: seq<Rune>, delta: int, g: Trace)
    requires j < |s| < MAX_INT32 && Following(s, n, j, h, bias, tail, delta, g) && s[j] < n
    ensures if Int32(delta + 1) < 0 then !AllPass(AllInsertions(s))
            else Following(s, n, j + 1, h, bias, tail, Int32(delta + 1), g.(delta := g.delta + 1))
  {
    StillInRow(s, n, j);
    TracksSkip(s, n, j, h, bias, tail, g);
    if delta == MAX_INT32 {
      CountedOut(s, n, j, h, bias, tail, g);
    }
  }

  /** A count that leaves int32 was pending since the jump. */
  lemma CountedOut(s: seq<Rune>, n: nat, j: nat, h: nat, bias: int, tail: seq<Rune>, g: Trace)
    requires j < |s| < MAX_INT32 && Following(s, n, j, h, bias, tail, MAX_INT32, g) && s[j] < n
    ensures !AllPass(AllInsertions(s))
  {
    StillInRow(s, n, j);
    TracksSkip(s, n, j, h, bias, tail, g);
    NotPassed(s, n, j + 1, h, bias, tail, g.(delta := g.delta + 1));
  }

  lemma StillInRow(s: seq<Rune>, n: nat, j: nat)
    requires j < |s| && n in s && s[j] != n
    ensures (n in s[..j + 1] <==> n in s[..j]) && (n !in s[..j] ==> n in s[j + 1..])
  {
    assert s == s[..j] + [s[j]] + s[j + 1..] && s[..j + 1] == s[..j] + [s[j]];
  }

  /** One rune of encode's inner loop. */
  method EncodeRune(s: seq<Rune>, b: int, n: int, j: nat, h0: int, bias0: int, tail0: seq<Rune>, delta0: int,
      ghost g0: Trace)
      returns (ok: bool, h: int, bias: int, tail: seq<Rune>, delta: int, ghost g: Trace)
    requires j < |s| < MAX_INT32 && b == |Basic(s)| && 0 <= n && 0 <= h0
    requires Following(s, n, j, h0, bias0, tail0, delta0, g0)
    ensures ok ==> h == (h0 + if s[j] == n then 1 else 0) && Following(s, n, j + 1, h, bias, tail, delta, g)
    ensures !ok ==> !AllPass(AllInsertions(s))
  {
    h, bias, tail, delta, g, ok := h0, bias0, tail0, delta0, g0, true;
    if s[j] < n {
      CountOne(s, n, j, h, bias, tail, delta, g);
      delta := Int32(delta + 1);
      g := g.(delta := g.delta + 1);
      ok := delta >= 0;
    } else if s[j] > n {
      assert s[..j + 1] == s[..j] + [s[j]];
      TracksSkip(s, n, j, h, bias, tail, g);
    } else {
      h, bias, tail, delta, g := EncodeMet(s, b, n, j, h, bias, tail, delta, g);
    }
  }

  /** The branch for the value itself: the delta is written. */
  method EncodeMet(s: seq<Rune>, b: int, n: int, j: nat, h0: int, bias0: int, tail0: seq<Rune>, delta0: int,
      ghost g0: Trace)
      returns (h: int, bias: int, tail: seq<Rune>, delta: int, ghost g: Trace)
    requires j < |s| < MAX_INT32 && b == |Basic(s)| && 0 <= n == s[j] && 0 <= h0
    requires Following(s, n, j, h0, bias0, tail0, delta0, g0)
    ensures h == h0 + 1 && Following(s, n, j + 1, h, bias, tail, delta, g)
  {
    h, bias, tail, delta := h0, bias0, tail0, delta0;
    ScanStep(s, n, j);
    HandledLength(s, n, j + 1);
    g := TracksMeet(s, n, j, h, bias, tail, delta, g0);
    var ds := EncodeDelta(delta, bias);
    tail := tail + ds;
    bias := AdaptBias(delta, Int32(h + 1), h == b);
    delta := 0;
    h := Int32(h + 1);
  }

  // jumping to the next value that occurs

  lemma {:induction false} BelowGap(s: seq<Rune>, n: int, m: int)
    requires n <= m && forall k :: 0 <= k < |s| ==> s[k] < n || s[k] >= m
    ensures Below(s, n) == Below(s, m)
  {
    if s != [] { BelowGap(s[1..], n, m); }
  }

  /** The least rune of s that is at least n. */
  method LeastFrom(s: seq<Rune>, n: int) returns (m: int)
    requires |Below(s, n)| < |s|
    ensures m in s && n <= m <= MAX_RUNE && forall k :: 0 <= k < |s| ==> s[k] < n || s[k] >= m
  {
    if Under(s, n) { BelowAll(s, n); }
    m := MAX_INT32;
    for j := 0 to |s|
      invariant forall k :: 0 <= k < j ==> s[k] < n || s[k] >= m
      invariant m == MAX_INT32 || (n <= m && m in s)
    {
      if m > s[j] && s[j] >= n {
        m := s[j];
      }
    }
  }

  lemma TracksJump(s: seq<Rune>, n: nat, m: nat, h: nat, bias: int, tail: seq<Rune>, g: Trace) returns (g2: Trace)
    requires Tracks(s, n, 0, h, bias, tail, g) && n <= m <= MAX_RUNE
    requires forall k :: 0 <= k < |s| ==> s[k] < n || s[k] >= m
    ensures g2 == g.(delta := g2.delta) && g2.delta == g.delta + (m - n) * (h + 1)
    ensures Tracks(s, m, 0, h, bias, tail, g2)
  {
    BelowGap(s, n, m);
    assert s[..0] == [] && s[0..] == s;
    MulNat(m - n, h + 1);
    g2 := g.(delta := g.delta + (m - n) * (h + 1));
    JumpDistance(n, m, g.nd, h);
    InsertionsSkip(s, n, 0, g.delta, m, 0, g2.delta, h, g.bias, g.nd, g.i, Handled(s, n, 0));
  }

  lemma JumpDistance(n: int, m: int, nd: int, h: int)
    ensures (m - nd) * (h + 1) == (n - nd) * (h + 1) + (m - n) * (h + 1)
  {
  }

  /** int32 addition of an int32 product is the int32 of the exact sum, however often the product wraps. */
  lemma WrappedSum(a: int, p: int)
    ensures Int32(a + Int32(p)) == Int32(a + p)
  {
  }

  /** The state between two rounds of encode's outer loop: everything counted since the last insertion fits. */
  ghost predicate BetweenRounds(s: seq<Rune>, n: nat, h: nat, bias: int, tail: seq<Rune>, delta: int, g: Trace) {
    && INITIAL_N <= n <= MAX_RUNE + 1 && 0 <= bias <= MAX_BIAS
    && h == |Below(s, n)| && Tracks(s, n, 0, h, bias, tail, g)
    && delta == g.delta <= |s| + 1 && (g.nd == n ==> delta == 0)
  }

  /** Where the row of m starts, its whole delta is the jump. */
  lemma RowStart(s: seq<Rune>, m: nat, h: nat, bias: int, tail: seq<Rune>, g: Trace)
    requires Tracks(s, m, 0, h, bias, tail, g) && (g.nd == m ==> g.delta == 0)
    ensures JumpPart(m - g.nd, g.i, h) == g.delta
  {
    assert s[..0] == [];
  }

  /** After the jump: the scan can follow, or the delta is negative and the insertion it leads to does not pass. */
  lemma AfterJump(s: seq<Rune>, m: nat, h: nat, bias: int, tail: seq<Rune>, g: Trace)
    requires Tracks(s, m, 0, h, bias, tail, g) && (g.nd == m ==> g.delta == 0)
    requires m in s && m <= MAX_RUNE && h <= |s| && 0 <= bias <= MAX_BIAS
    ensures if Int32(g.delta) < 0 then !AllPass(AllInsertions(s))
            else Following(s, m, 0, h, bias, tail, Int32(g.delta), g)
  {
    RowStart(s, m, h, bias, tail, g);
    assert s[..0] == [] && s[0..] == s;
    if Int32(g.delta) < 0 {
      NotPassed(s, m, 0, h, bias, tail, g);
    }
  }

  /** encode's inner loop over the whole label, for the value n. */
  method EncodeScan(s: seq<Rune>, b: int, n: int, h0: int, bias0: int, tail0: seq<Rune>, delta0: int, ghost g0: Trace)
      returns (ok: bool, h: int, bias: int, tail: seq<Rune>, delta: int, ghost g: Trace)
    requires |s| < MAX_INT32 && b == |Basic(s)| && 0 <= n && 0 <= h0 && Following(s, n, 0, h0, bias0, tail0, delta0, g0)
    ensures ok ==> h0 < h && Following(s, n, |s|, h, bias, tail, delta, g)
    ensures !ok ==> !AllPass(AllInsertions(s))
  {
    h, bias, tail, delta, g := h0, bias0, tail0, delta0, g0;
    var j := 0;
    ok := true;
    while j < |s|
      invariant j <= |s| && h0 <= h && Following(s, n, j, h, bias, tail, delta, g)
      invariant h == h0 ==> n !in s[..j]
    {
      assert s[..j + 1] == s[..j] + [s[j]];
      ok, h, bias, tail, delta, g := EncodeRune(s, b, n, j, h, bias, tail, delta, g);
      if !ok {
        return;
      }
      j := j + 1;
    }
    assert s[..|s|] == s;
  }

  /** delta += (m - n) * (h + 1), with its test. */
  method EncodeJump(s: seq<Rune>, n: int, h: int, bias: int, tail: seq<Rune>, delta0: int, ghost g0: Trace)
      returns (m: int, delta: int, ghost g: Trace)
    requires h < |s| < MAX_INT32 && 0 <= n && 0 <= h && BetweenRounds(s, n, h, bias, tail, delta0, g0)
    ensures n <= m <= MAX_RUNE && -0x8000_0000 <= delta <= MAX_INT32
    ensures if delta < 0 then !AllPass(AllInsertions(s)) else Following(s, m, 0, h, bias, tail, delta, g)
  {
    m := LeastFrom(s, n);
    delta := Int32(delta0 + Int32(Int32(m - n) * Int32(h + 1)));
    g := TracksJump(s, n, m, h, bias, tail, g0);
    assert Int32(m - n) * Int32(h + 1) == (m - n) * (h + 1);
    WrappedSum(delta0, (m - n) * (h + 1));
    AfterJump(s, m, h, bias, tail, g);
  }

  /** The end of a row: delta++ and n++, neither of which wraps. */
  lemma AfterRow(s: seq<Rune>, n: nat, h: nat, bias: int, tail: seq<Rune>, delta: int, g: Trace)
    requires INITIAL_N <= n && |s| < MAX_INT32 && Following(s, n, |s|, h, bias, tail, delta, g)
    ensures BetweenRounds(s, n + 1, h, bias, tail, Int32(delta + 1), g.(delta := g.delta + 1))
  {
    RowEnd(s, n);
    assert s[..0] == [] && s[0..] == s && s[..|s|] == s;
    TracksSkip(s, n, |s|, h, bias, tail, g);
  }

  /** One round of encode's outer loop: jump to the next value that occurs and scan the label for it. */
  method EncodeRound(s: seq<Rune>, b: int, n0: int, h0: int, bias0: int, tail0: seq<Rune>, delta0: int, ghost g0: Trace)
      returns (ok: bool, n: int, h: int, bias: int, tail: seq<Rune>, delta: int, ghost g: Trace)
    requires h0 < |s| < MAX_INT32 && b == |Basic(s)| && 0 <= n0 && 0 <= h0
    requires BetweenRounds(s, n0, h0, bias0, tail0, delta0, g0)
    ensures ok ==> n0 <= n && h0 < h <= |s| && BetweenRounds(s, n, h, bias, tail, delta, g)
    ensures !ok ==> !AllPass(AllInsertions(s))
  {
    h, bias, tail := h0, bias0, tail0;
    n, delta, g := EncodeJump(s, n0, h, bias, tail, delta0, g0);
    if delta < 0 {
      ok := false;
      return;
    }
    ok, h, bias, tail, delta, g := EncodeScan(s, b, n, h, bias, tail, delta, g);
    if !ok {
      return;
    }
    AfterRow(s, n, h, bias, tail, delta, g);
    g := g.(delta := g.delta + 1);
    delta := Int32(delta + 1);
    n := Int32(n + 1);
  }

  lemma BasicSnoc(s: seq<Rune>, k: nat)
    requires k < |s|
    ensures Basic(s[..k + 1]) == Basic(s[..k]) + if s[k] < INITIAL_N then [s[k]] else []
  {
    assert s[..k + 1] == s[..k] + [s[k]];
    BelowConcat(s[..k], [s[k]], INITIAL_N);
  }

  /** The basic runes, copied in order, and how many others there are. */
  lemma BasicCopied(prefix: seq<Rune>, s: seq<Rune>, k: nat, output: seq<Rune>)
    requires k < |s| && output == prefix + Basic(s[..k])
    ensures prefix + Basic(s[..k + 1]) == if s[k] < 0x80 then output + [s[k]] else output
    ensures |Basic(s[..k + 1])| == |Basic(s[..k])| + if s[k] < 0x80 then 1 else 0
  {
    BasicSnoc(s, k);
  }

  method CopyBasic(prefix: seq<Rune>, s: seq<Rune>) returns (output: seq<Rune>, b: int, remaining: int)
    requires |s| < MAX_INT32
    ensures output == prefix + Basic(s) && b == |Basic(s)| && remaining == |s| - b
  {
    output, b, remaining := prefix, 0, 0;
    for k := 0 to |s|
      invariant output == prefix + Basic(s[..k]) && b == |Basic(s[..k])| && remaining == k - b
    {
      BasicCopied(prefix, s, k, output);
      if s[k] < 0x80 {
        b := Int32(b + 1);
        output := output + [s[k]];
      } else {
        remaining := Int32(remaining + 1);
      }
    }
    assert s[..|s|] == s;
  }

  /**
   encode, for every label: an error exactly when the int32 delta of some insertion turns negative, and otherwise behind
   the prefix a string that stands for the label, exactly if the label is carried.
   */
  method Encode(prefix: seq<Rune>, s: seq<Rune>) returns (r: Option<seq<Rune>>)
    requires |s| < MAX_INT32
    ensures r == EncodeAnswer(prefix, s)
    ensures r.Some? ==> prefix <= r.value && (Means(r.value[|prefix|..], s) <==> Carried(AllInsertions(s)))
  {
    AnswerStands(prefix, s);
    var output, b, remaining := CopyBasic(prefix, s);
    var h := b;
    if b > 0 {
      output := output + [HYPHEN];
    }
    assert output == prefix + Head(Basic(s));
    var delta, n, bias := 0, INITIAL_N, INITIAL_BIAS;
    var tail: seq<Rune> := [];
    ghost var g := StartTrace(s);
    while remaining != 0
      invariant 0 <= h <= |s| && remaining == |s| - h && 0 <= n && BetweenRounds(s, n, h, bias, tail, delta, g)
    {
      var ok, h0 := true, h;
      ok, n, h, bias, tail, delta, g := EncodeRound(s, b, n, h, bias, tail, delta, g);
      if !ok {
        return None;
      }
      remaining := Int32(remaining - (h - h0));
    }
    AllEncoded(s, n, h, bias, tail, g);
    return Some(output + tail);
  }

  lemma StartTrace(s: seq<Rune>) returns (g: Trace)
    ensures BetweenRounds(s, INITIAL_N, |Basic(s)|, INITIAL_BIAS, [], 0, g)
  {
    StartInStep(s);
    g := Trace([], 0, INITIAL_N, 0, INITIAL_BIAS);
    assert g.done + AllInsertions(s) == AllInsertions(s);
    assert s[..0] == [] && s[0..] == s;
  }

  lemma AllEncoded(s: seq<Rune>, n: nat, h: nat, bias: int, tail: seq<Rune>, g: Trace)
    requires Tracks(s, n, 0, h, bias, tail, g) && h == |s|
    ensures AllPass(AllInsertions(s)) && tail == Text(Written(AllInsertions(s), INITIAL_BIAS))
  {
    NoneLeft(s, n, 0, g.delta, h, g.bias, g.nd, g.i, Handled(s, n, 0));
    assert AllInsertions(s) == g.done;
  }

  lemma {:induction false} NoneLeft(s: seq<Rune>, n: nat, j: nat, delta: nat, h: nat, bias: int, nd: nat, i: nat,
      out: seq<Rune>)
    requires InStep(s, n, j, delta, h, nd, i, out) && h == |s|
    ensures Insertions(s, n, j, delta, h, bias, i) == []
    decreases MAX_RUNE + 1 - n, |s| - j
  {
    if n > MAX_RUNE {
    } else if j < |s| && s[j] == n {
      ScanStep(s, n, j);
      assert false;
    } else {
      InStepSkip(s, n, j, delta, h, nd, i, out);
      if j == |s| {
        NoneLeft(s, n + 1, 0, delta + 1, h, bias, nd, i, out);
      } else {
        NoneLeft(s, n, j + 1, if s[j] < n then delta + 1 else delta, h, bias, nd, i, out);
      }
    }
  }
}
