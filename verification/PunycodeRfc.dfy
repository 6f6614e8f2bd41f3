/**
 Section 6.2 of RFC 3492 written out once more, with its characters and numbers as the RFC gives them and nothing taken
 from the code: which strings stand for which labels. The decoder is proved to accept exactly these, and the encoder
 to write them.
 */
module PunycodeRfc {
  import opened Machine
  import opened PunycodeSpec
  import opened PunycodeProofs
  import opened PunycodeWrap

  // ---------- numerals ----------

  /** The digit that a character is: a to z and A to Z are 0 to 25, 0 to 9 are 26 to 35; others are none. */
  function Value(c: int): int {
    if 97 <= c <= 122 then c - 97 else if 65 <= c <= 90 then c - 65 else if 48 <= c <= 57 then c - 48 + 26 else -1
  }

  function Clamp(x: int): int { if x < 1 then 1 else if x > 26 then 26 else x }

  /** The weight of digit number j: digit number l has the threshold 36 * (l + 1) - bias, between 1 and 26. */
  function Weight(bias: int, j: nat): (w: nat)
    ensures w >= 1
  {
    if j == 0 then 1
    else
      var m := 36 - Clamp(36 * j - bias);
      MulAtLeast(Weight(bias, j - 1), m);
      Weight(bias, j - 1) * m
  }

  /** What the first j digits add up to. */
  function Total(ds: seq<Rune>, bias: int, j: nat): int
    requires j <= |ds|
  {
    if j == 0 then 0 else Total(ds, bias, j - 1) + Value(ds[j - 1]) * Weight(bias, j - 1)
  }

  /** Digits, all but the last at least their threshold. */
  ghost predicate Going(ds: seq<Rune>, bias: int, j: nat)
    requires j <= |ds|
  {
    forall l :: 0 <= l < j ==> Value(ds[l]) >= Clamp(36 * (l + 1) - bias)
  }

  /** The first l characters are one number. */
  ghost predicate Numeral(ds: seq<Rune>, bias: int, l: nat) {
    0 < l <= |ds| && Going(ds, bias, l - 1) && 0 <= Value(ds[l - 1]) < Clamp(36 * l - bias)
  }

  lemma {:induction false} TotalOfPrefix(ds: seq<Rune>, bias: int, j: nat, rest: seq<Rune>)
    requires j <= |ds|
    ensures Total(ds + rest, bias, j) == Total(ds, bias, j)
  {
    if j > 0 { TotalOfPrefix(ds, bias, j - 1, rest); }
  }

  lemma CharValue(c: Rune)
    ensures DigitValue(c) == if Value(c) < 0 then None else Some(Value(c))
    ensures Value(c) < 36
  {
  }

  /** The number can be added to i: no sum leaves int32 on the way, and no weight reaches its limit. */
  ghost predicate Fits(ds: seq<Rune>, bias: int, i: int, l: nat)
    requires l <= |ds|
  {
    && (forall j :: 0 < j <= l ==> i + Total(ds, bias, j) <= 0x7fff_ffff)
    && (forall j :: 0 < j < l ==> Weight(bias, j) < 59_652_323)
  }

  ghost predicate Readable(ds: seq<Rune>, bias: int, i: int, l: nat) { Numeral(ds, bias, l) && Fits(ds, bias, i, l) }

  /** How far a number has been read: m digits, none of them the last, and nothing too large. */
  ghost predicate Halfway(e: seq<Rune>, bias: int, i: int, m: nat) {
    m <= |e| && Going(e, bias, m) && Fits(e, bias, i, m) && (m > 0 ==> Weight(bias, m) < 59_652_323)
  }

  lemma OneNumeral(e: seq<Rune>, bias: int, l: nat, m: nat)
    requires Numeral(e, bias, l) && Numeral(e, bias, m)
    ensures l == m
  {
  }

  lemma DigitRead(e: seq<Rune>, bias: int, i: int, m: nat)
    requires m < |e| && Value(e[m]) >= 0
    ensures ReadVarInt(e[m..], 36 * (m + 1), bias, i + Total(e, bias, m), Weight(bias, m))
         == if i + Total(e, bias, m + 1) > 0x7fff_ffff then Malformed
            else if Value(e[m]) < Clamp(36 * (m + 1) - bias) then VarInt(i + Total(e, bias, m + 1), e[m + 1..])
            else if Weight(bias, m + 1) >= 59_652_323 then Malformed
            else ReadVarInt(e[m + 1..], 36 * (m + 2), bias, i + Total(e, bias, m + 1), Weight(bias, m + 1))
  {
    CharValue(e[m]);
    assert e[m..][0] == e[m] && e[m..][1..] == e[m + 1..];
    assert Threshold(36 * (m + 1), bias) == Clamp(36 * (m + 1) - bias);
    assert MAX_INT32 / BASE == 59_652_323;
  }

  /** What goes on at m is no number up to there. */
  lemma StillGoing(e: seq<Rune>, bias: int, m: nat, k: nat)
    requires m <= |e| && Going(e, bias, m) && Numeral(e, bias, k)
    ensures m < k
  {
  }

  lemma NumberEnds(e: seq<Rune>, bias: int, i: int, m: nat)
    requires Halfway(e, bias, i, m) && m < |e| && 0 <= Value(e[m]) < Clamp(36 * (m + 1) - bias)
    ensures if i + Total(e, bias, m + 1) <= 0x7fff_ffff then Readable(e, bias, i, m + 1)
            else forall k: nat :: !Readable(e, bias, i, k)
  {
    assert Numeral(e, bias, m + 1);
    forall k: nat | Readable(e, bias, i, k)
      ensures i + Total(e, bias, m + 1) <= 0x7fff_ffff
    {
      OneNumeral(e, bias, k, m + 1);
    }
  }

  lemma NotReadable(e: seq<Rune>, bias: int, i: int, m: nat)
    requires 0 < m <= |e| && Going(e, bias, m)
    requires i + Total(e, bias, m) > 0x7fff_ffff || Weight(bias, m) >= 59_652_323
    ensures forall k: nat :: !Readable(e, bias, i, k)
  {
    forall k: nat | Numeral(e, bias, k) ensures m < k { StillGoing(e, bias, m, k); }
  }

  lemma NoDigit(e: seq<Rune>, bias: int, i: int, m: nat)
    requires m <= |e| && Going(e, bias, m) && (m < |e| ==> Value(e[m]) < 0)
    ensures forall k: nat :: !Readable(e, bias, i, k)
  {
    forall k: nat | Numeral(e, bias, k)
      ensures m < k && m < |e| && Value(e[m]) >= 0
    {
      StillGoing(e, bias, m, k);
    }
  }

  lemma StillHalfway(e: seq<Rune>, bias: int, i: int, m: nat)
    requires Halfway(e, bias, i, m) && m < |e| && Value(e[m]) >= Clamp(36 * (m + 1) - bias)
    requires i + Total(e, bias, m + 1) <= 0x7fff_ffff && Weight(bias, m + 1) < 59_652_323
    ensures Halfway(e, bias, i, m + 1)
  {
  }

  /** Reading gives the number that stands there, or a rejection exactly if none can be read. */
  lemma {:induction false} NumberRead(e: seq<Rune>, bias: int, i: int, m: nat) returns (l: nat)
    requires Halfway(e, bias, i, m)
    ensures var r := ReadVarInt(e[m..], 36 * (m + 1), bias, i + Total(e, bias, m), Weight(bias, m));
      if r.VarInt? then Readable(e, bias, i, l) && r == VarInt(i + Total(e, bias, l), e[l..])
      else forall k: nat :: !Readable(e, bias, i, k)
    decreases |e| - m
  {
    l := m;
    if m < |e| && Value(e[m]) >= 0 {
      DigitRead(e, bias, i, m);
      if Value(e[m]) < Clamp(36 * (m + 1) - bias) {
        l := m + 1;
        hide *;
        NumberEnds(e, bias, i, m);
      } else if i + Total(e, bias, m + 1) <= 0x7fff_ffff && Weight(bias, m + 1) < 59_652_323 {
        StillHalfway(e, bias, i, m);
        hide *;
        l := NumberRead(e, bias, i, m + 1);
      } else {
        assert Going(e, bias, m + 1);
        hide *;
        NotReadable(e, bias, i, m + 1);
      }
    } else {
      if m < |e| { CharValue(e[m]); }
      NoDigit(e, bias, i, m);
    }
  }

  /** The characters are one number, of value v. */
  ghost predicate IsNumber(ds: seq<Rune>, bias: int, v: int) {
    Numeral(ds, bias, |ds|) && Total(ds, bias, |ds|) == v
  }

  /** One more digit. */
  lemma DigitBehind(front: seq<Rune>, d: nat, bias: int)
    requires Going(front, bias, |front|) && d < 36
    ensures var m, next := |front|, front + [DigitChar(d)];
      && Value(next[m]) == d && Total(next, bias, m + 1) == Total(front, bias, m) + d * Weight(bias, m)
      && if d < Clamp(36 * (m + 1) - bias) then Numeral(next, bias, m + 1) else Going(next, bias, m + 1)
  {
    CharValue(DigitChar(d));
    TotalOfPrefix(front, bias, |front|, [DigitChar(d)]);
  }

  /** The first of the digits of q, and the rest behind it. */
  lemma DigitsSplit(front: seq<Rune>, q: nat, k: int, bias: int)
    ensures q < Threshold(k, bias) ==> Digits(q, k, bias) == [DigitChar(q)]
    ensures var t := Threshold(k, bias);
      q >= t ==>
        front + Digits(q, k, bias) == front + [DigitChar(Lead(q, t))] + Digits(Rest(q, t), k + 36, bias)
  {
    var t := Threshold(k, bias);
    if q >= t {
      var c, rest := DigitChar(Lead(q, t)), Digits(Rest(q, t), k + 36, bias);
      hide *;
      assert front + ([c] + rest) == front + [c] + rest;
    }
  }

  /** What the first digit adds, and what the rest does, add up. */
  lemma DigitAdds(q: nat, bias: int, m: nat, sum: int, d: nat, rest: nat)
    requires var t := Threshold(36 * (m + 1), bias); q >= t && d == Lead(q, t) && rest == Rest(q, t)
    ensures sum + d * Weight(bias, m) + rest * Weight(bias, m + 1) == sum + q * Weight(bias, m)
  {
    var t, w := Threshold(36 * (m + 1), bias), Weight(bias, m);
    assert Weight(bias, m + 1) == w * (36 - t);
    WeightSplit(q, d, rest, 36 - t, w);
  }

  /** With the digits of q behind it, a number that has come so far is complete and has added q times its weight. */
  lemma {:induction false} DigitsBehind(front: seq<Rune>, q: nat, bias: int)
    requires Going(front, bias, |front|)
    ensures var m := |front|;
      IsNumber(front + Digits(q, 36 * (m + 1), bias), bias, Total(front, bias, m) + q * Weight(bias, m))
    decreases q
  {
    var m := |front|;
    var k := 36 * (m + 1);
    var t := Threshold(k, bias);
    DigitsSplit(front, q, k, bias);
    if q < t {
      DigitBehind(front, q, bias);
    } else {
      var d, rest := Lead(q, t), Rest(q, t);
      DigitBehind(front, d, bias);
      DigitAdds(q, bias, m, Total(front, bias, m), d, rest);
      var next := front + [DigitChar(d)];
      assert d >= Clamp(k - bias) && |next| == m + 1;
      hide *;
      DigitsBehind(next, rest, bias);
    }
  }

  /** The digits that encode writes for a delta are one number, whose digits add up to that delta. */
  lemma DigitsMean(q: nat, bias: int)
    ensures IsNumber(Digits(q, 36, bias), bias, q)
  {
    hide IsNumber, Digits;
    DigitsBehind([], q, bias);
    assert [] + Digits(q, 36, bias) == Digits(q, 36, bias);
  }

  // ---------- the bias ----------

  function Scaled(delta: nat, k: nat): nat
    decreases delta
  {
    if delta > 455 then Scaled(delta / 35, k + 36) else k + 36 * delta / (delta + 38)
  }

  /** The bias after a delta, so many runes standing there then. */
  function NextBias(delta: nat, points: nat, first: bool): nat
    requires points > 0
  {
    var d := delta / if first then 700 else 2;
    DivModSmall(d, points);
    Scaled(d + d / points, 0)
  }

  lemma {:induction false} ScaledLoop(delta: nat, k: nat)
    ensures AdaptLoop(delta, k) == Scaled(delta, k)
    decreases delta
  {
    if delta > 455 { ScaledLoop(delta / 35, k + 36); }
  }

  lemma BiasMeans(delta: nat, points: nat, first: bool)
    requires points > 0
    ensures Adapt(delta, points, first) == NextBias(delta, points, first)
  {
    var d := delta / if first then 700 else 2;
    DivModSmall(d, points);
    ScaledLoop(d + d / points, 0);
  }

  // ---------- strings ----------

  /** The state <n, i> of section 6.2, the bias, and what has been inserted so far. */
  datatype State = State(n: nat, i: nat, bias: int, out: seq<Rune>)

  /** The rune and the place that a number v says is next. */
  function RuneOf(st: State, v: nat): (r: nat) {
    DivModSmall(st.i + v, |st.out| + 1);
    st.n + (st.i + v) / (|st.out| + 1)
  }

  function PlaceOf(st: State, v: nat): (at: nat)
    ensures at <= |st.out|
  {
    (st.i + v) % (|st.out| + 1)
  }

  predicate Allowed(st: State, v: nat) { RuneOf(st, v) <= 0x10_FFFF && |st.out| < 1024 }

  function After(st: State, v: nat): State
    requires Allowed(st, v)
  {
    var rune, at := RuneOf(st, v), PlaceOf(st, v);
    State(rune, at + 1, NextBias(v, |st.out| + 1, st.i == 0), st.out[..at] + [rune] + st.out[at..])
  }

  /** From this state e stands for s. */
  ghost predicate TailMeans(e: seq<Rune>, st: State, s: seq<Rune>)
    decreases |e|
  {
    if e == [] then s == st.out else exists l: nat :: Readable(e, st.bias, st.i, l) && NumberMeans(e, st, s, l)
  }

  /** The first l characters are a number; it tells which rune comes where, and the rest goes on from there. */
  ghost predicate NumberMeans(e: seq<Rune>, st: State, s: seq<Rune>, l: nat)
    requires 0 < l <= |e|
    decreases |e|, 0
  {
    var v := Total(e, st.bias, l);
    v >= 0 && Allowed(st, v) && TailMeans(e[l..], After(st, v), s)
  }

  /** The hyphen at p is the last one. */
  ghost predicate LastHyphenAt(e: seq<Rune>, p: int) {
    0 <= p < |e| && e[p] == 45 && forall j :: p < j < |e| ==> e[j] != 45
  }

  /**
   The string e stands for the label s: what is before the last hyphen stands there as it is, what is behind it says
   what else is in the label. A hyphen must not come first and last.
   */
  ghost predicate Means(e: seq<Rune>, s: seq<Rune>) {
    if 45 !in e then TailMeans(e, State(128, 0, 72, []), s)
    else exists p :: LastHyphenAt(e, p) && p > 0 && TailMeans(e[p + 1..], State(128, 0, 72, e[..p]), s)
  }

  /** One number of the tail: there is one reading of it. */
  lemma OneReading(e: seq<Rune>, st: State, s: seq<Rune>, l: nat)
    requires e != [] && Readable(e, st.bias, st.i, l)
    ensures TailMeans(e, st, s) <==> NumberMeans(e, st, s, l)
  {
    forall k: nat | Readable(e, st.bias, st.i, k) ensures k == l { OneNumeral(e, st.bias, k, l); }
  }

  function TailFrom(e: seq<Rune>, st: State): Option<seq<Rune>> { DecodedTail(e, st.n, st.i, st.out, st.bias) }

  /** The decoder's step with the number that it has read. */
  lemma StepDecoded(e: seq<Rune>, st: State, v: nat, rest: seq<Rune>)
    requires e != [] && ReadVarInt(e, BASE, st.bias, st.i, 1) == VarInt(st.i + v, rest)
    ensures TailFrom(e, st) == if Allowed(st, v) then TailFrom(rest, After(st, v)) else None
  {
    ReadVarIntAdvances(e, BASE, st.bias, st.i, 1);
    BiasMeans(v, |st.out| + 1, st.i == 0);
  }

  /** The decoder's tail is what the RFC says it is. */
  lemma {:induction false} TailDecoded(e: seq<Rune>, st: State, s: seq<Rune>)
    ensures TailMeans(e, st, s) <==> TailFrom(e, st) == Some(s)
    decreases |e|
  {
    if e != [] {
      var l := NumberRead(e, st.bias, st.i, 0);
      assert e[0..] == e;
      ReadVarIntAdvances(e, BASE, st.bias, st.i, 1);
      if ReadVarInt(e, BASE, st.bias, st.i, 1).VarInt? {
        var v := Total(e, st.bias, l);
        OneReading(e, st, s, l);
        StepDecoded(e, st, v, e[l..]);
        if Allowed(st, v) { TailDecoded(e[l..], After(st, v), s); }
      }
    }
  }

  /** decode accepts exactly the strings that stand for a label, with that label. */
  lemma DecodedMeans(e: seq<Rune>, s: seq<Rune>)
    ensures Decoded(e) == Some(s) <==> Means(e, s)
  {
    var pos := TailStart(e);
    if pos == 0 {
      assert 45 !in e;
      assert e[0..] == e;
      TailDecoded(e, State(128, 0, 72, []), s);
    } else {
      assert LastHyphenAt(e, pos - 1) && e[pos - 1] in e;
      TailDecoded(e[pos..], State(128, 0, 72, e[..pos - 1]), s);
      forall p | LastHyphenAt(e, p) ensures p == pos - 1 { }
    }
  }

  // ---------- what the encoder writes ----------

  /** ASCII, with no capital letter behind the last hyphen. */
  ghost predicate Plain(e: seq<Rune>) {
    && (forall k :: 0 <= k < |e| ==> e[k] < 128)
    && forall k :: 0 <= k < |e| && 65 <= e[k] <= 90 ==> exists p :: k < p && LastHyphenAt(e, p)
  }

  lemma PlainIsCanonical(e: seq<Rune>)
    requires Plain(e)
    ensures Canonical(e)
  {
    var pos := TailStart(e);
    forall j | 0 <= j < |e| - pos && DigitValue(e[pos..][j]).Some?
      ensures IsLowerDigit(e[pos..][j])
    {
      assert e[pos..][j] == e[pos + j];
    }
  }

  /** Among plain strings the one that stands for a label is its encoding, and there is one if the label is carried. */
  lemma EncodedMeans(e: seq<Rune>, s: seq<Rune>)
    requires Plain(e)
    ensures Means(e, s) <==> EncodeAnswer([], s) == Some(e) && Carried(AllInsertions(s))
  {
    PlainIsCanonical(e);
    DecodedMeans(e, s);
    Bijection(e, s);
    RightAnswer([], s);
    if Carried(AllInsertions(s)) { CarriedIsSmall(AllInsertions(s)); }
    assert [] + Encoded(s) == Encoded(s);
  }

  lemma DecodedStands(e: seq<Rune>)
    ensures if Decoded(e).Some? then Means(e, Decoded(e).value) else forall s: seq<Rune> :: !Means(e, s)
  {
    forall s: seq<Rune> ensures Means(e, s) <==> Decoded(e) == Some(s) { DecodedMeans(e, s); }
  }

  lemma AnswerStands(prefix: seq<Rune>, s: seq<Rune>)
    ensures var r := EncodeAnswer(prefix, s);
      r.Some? ==> prefix <= r.value && (Means(r.value[|prefix|..], s) <==> Carried(AllInsertions(s)))
  {
    var r := EncodeAnswer(prefix, s);
    if r.Some? {
      var e := EncodeAnswer([], s).value;
      assert r.value == prefix + e && r.value[|prefix|..] == e;
      AnswerDecodes(s);
      DecodedMeans(e, s);
    }
  }

  /** The tail is one number after the other, each with the delta and under the bias of its insertion. */
  ghost predicate Numbers(e: seq<Rune>, steps: seq<Insertion>)
    decreases |steps|
  {
    if steps == [] then e == []
    else exists l: nat :: l <= |e| && IsNumber(e[..l], steps[0].bias, steps[0].delta) && Numbers(e[l..], steps[1..])
  }

  /** Also for a label that is not carried, what is written are the deltas that the encoder has. */
  lemma {:induction false} TextMeans(steps: seq<Insertion>)
    ensures Numbers(Text(steps), steps)
  {
    if steps != [] {
      var ds := Digits(steps[0].delta, 36, steps[0].bias);
      DigitsMean(steps[0].delta, steps[0].bias);
      TextMeans(steps[1..]);
      assert Text(steps)[..|ds|] == ds && Text(steps)[|ds|..] == Text(steps[1..]);
    }
  }

  // ---------- known answers ----------

  function Runes(s: string): (e: seq<Rune>)
    ensures |e| == |s|
  {
    seq(|s|, i requires 0 <= i < |s| => s[i] as int % 128)
  }

  /** The numbers of "kva" and of "ck1hg65u", digit by digit. */
  lemma KnownNumbers()
    ensures ReadVarInt([107, 118, 97], 36, 72, 0, 1) == VarInt(745, [])
    ensures ReadVarInt([99, 107, 49, 104, 103, 54, 53, 117], 36, 72, 0, 1) == VarInt(119_177, [103, 54, 53, 117])
    ensures ReadVarInt([103, 54, 53, 117], 36, 30, 6, 1) == VarInt(70_272, [])
  {
    assert ReadVarInt([97], 108, 72, 745, 1225) == VarInt(745, [97][1..]);
    assert [107, 118, 97][1..] == [118, 97] && [118, 97][1..] == [97];
    assert ReadVarInt([118, 97], 72, 72, 10, 35) == VarInt(745, []);
    KnownHi();
    KnownLow();
  }

  lemma KnownHi()
    ensures ReadVarInt([99, 107, 49, 104, 103, 54, 53, 117], 36, 72, 0, 1) == VarInt(119_177, [103, 54, 53, 117])
  {
    var a: seq<Rune>, rest: seq<Rune> := [104, 103, 54, 53, 117], [103, 54, 53, 117];
    assert a[1..] == rest;
    assert ReadVarInt(a, 144, 72, 33_427, 12_250) == VarInt(119_177, rest);
    var b: seq<Rune> := [49, 104, 103, 54, 53, 117];
    assert b[1..] == a;
    assert ReadVarInt(b, 108, 72, 352, 1225) == VarInt(119_177, rest);
    var c: seq<Rune> := [107, 49, 104, 103, 54, 53, 117];
    assert c[1..] == b;
    assert ReadVarInt(c, 72, 72, 2, 35) == VarInt(119_177, rest);
    assert [99, 107, 49, 104, 103, 54, 53, 117][1..] == c;
  }

  lemma KnownLow()
    ensures ReadVarInt([103, 54, 53, 117], 36, 30, 6, 1) == VarInt(70_272, [])
  {
    var a: seq<Rune> := [117];
    assert a[1..] == [];
    assert ReadVarInt(a, 144, 30, 10_272, 3000) == VarInt(70_272, []);
    var b: seq<Rune> := [53, 117];
    assert b[1..] == a;
    assert ReadVarInt(b, 108, 30, 972, 300) == VarInt(70_272, []);
    var c: seq<Rune> := [54, 53, 117];
    assert c[1..] == b;
    assert ReadVarInt(c, 72, 30, 12, 30) == VarInt(70_272, []);
    assert [103, 54, 53, 117][1..] == c;
  }

  const BUECHER: seq<Rune> := [0x62, 0xfc, 0x63, 0x68, 0x65, 0x72]
  const HELLO: seq<Rune> := [0x48, 0x65, 0x6c, 0x6c, 0x6f]
  const HELLO_WORLD: seq<Rune> := HELLO + [0x4e16, 0x754c]

  /** What the tails lead to: one rune of the first, the first and the second rune of the other. */
  lemma BuecherTail()
    ensures TailFrom([107, 118, 97], State(128, 0, 72, [0x62, 0x63, 0x68, 0x65, 0x72])) == Some(BUECHER)
  {
    KnownNumbers();
    var st := State(128, 0, 72, [0x62, 0x63, 0x68, 0x65, 0x72]);
    StepDecoded([107, 118, 97], st, 745, []);
    assert RuneOf(st, 745) == 0xfc && PlaceOf(st, 745) == 1;
    assert After(st, 745).out == BUECHER;
  }

  lemma WorldTail()
    ensures TailFrom([103, 54, 53, 117], State(0x4e16, 6, 30, HELLO + [0x4e16])) == Some(HELLO_WORLD)
  {
    KnownLow();
    var st := State(0x4e16, 6, 30, HELLO + [0x4e16]);
    StepDecoded([103, 54, 53, 117], st, 70_266, []);
    assert RuneOf(st, 70_266) == 0x754c && PlaceOf(st, 70_266) == 6;
    assert After(st, 70_266).out == HELLO_WORLD;
  }

  lemma HelloTail()
    ensures TailFrom(HELLO_TAIL, State(128, 0, 72, HELLO)) == Some(HELLO_WORLD)
  {
    KnownHi();
    var st := State(128, 0, 72, HELLO);
    assert RuneOf(st, 119_177) == 0x4e16 && PlaceOf(st, 119_177) == 5;
    HelloBias();
    assert Allowed(st, 119_177) && After(st, 119_177) == State(0x4e16, 6, 30, HELLO + [0x4e16]);
    hide *;
    StepDecoded([99, 107, 49, 104, 103, 54, 53, 117], st, 119_177, [103, 54, 53, 117]);
    WorldTail();
  }

  lemma HelloBias()
    ensures NextBias(119_177, 6, true) == 30
  {
    assert Scaled(198, 0) == 30;
  }

  lemma PlainParts(e: seq<Rune>, p: nat)
    requires LastHyphenAt(e, p) && forall k :: 0 <= k < |e| ==> e[k] < 128
    requires forall k :: p < k < |e| ==> !(65 <= e[k] <= 90)
    ensures Plain(e)
  {
  }

  /** A basic part, a hyphen and a tail that leads to the label. */
  lemma KnownAnswer(basic: seq<Rune>, tail: seq<Rune>, s: seq<Rune>)
    requires basic != [] && tail != [] && forall k :: 0 <= k < |basic| ==> basic[k] < 128
    requires forall k :: 0 <= k < |tail| ==> tail[k] < 128 && tail[k] != 45 && !(65 <= tail[k] <= 90)
    requires TailFrom(tail, State(128, 0, 72, basic)) == Some(s)
    ensures var e := basic + [45] + tail; Means(e, s) && Decoded(e) == Some(s) && EncodeAnswer([], s) == Some(e)
  {
    var e, p := basic + [45] + tail, |basic|;
    assert LastHyphenAt(e, p) && e[p + 1..] == tail && e[..p] == basic;
    PlainParts(e, p);
    TailDecoded(tail, State(128, 0, 72, basic), s);
    assert Means(e, s);
    hide *;
    DecodedMeans(e, s);
    EncodedMeans(e, s);
  }

  /** The label with u umlaut between b and cher. */
  lemma Buecher()
    ensures Decoded(Runes("bcher-kva")) == Some(BUECHER) && EncodeAnswer([], BUECHER) == Some(Runes("bcher-kva"))
  {
    var basic: seq<Rune>, tail: seq<Rune> := [0x62, 0x63, 0x68, 0x65, 0x72], [107, 118, 97];
    assert Runes("bcher-kva") == basic + [45] + tail;
    hide *;
    BuecherTail();
    KnownAnswer(basic, tail, BUECHER);
  }

  const HELLO_TAIL: seq<Rune> := [99, 107, 49, 104, 103, 54, 53, 117]

  lemma HelloRunes()
    ensures Runes("Hello-ck1hg65u") == HELLO + [45] + HELLO_TAIL
  {
  }

  lemma HelloParts()
    ensures HELLO != [] && HELLO_TAIL != [] && forall k :: 0 <= k < |HELLO| ==> HELLO[k] < 128
    ensures forall k :: 0 <= k < |HELLO_TAIL| ==>
      HELLO_TAIL[k] < 128 && HELLO_TAIL[k] != 45 && !(65 <= HELLO_TAIL[k] <= 90)
  {
  }

  /** Hello and the two Chinese characters for world: two insertions, under different biases. */
  lemma HelloWorld()
    ensures Decoded(Runes("Hello-ck1hg65u")) == Some(HELLO_WORLD)
    ensures EncodeAnswer([], HELLO_WORLD) == Some(Runes("Hello-ck1hg65u"))
  {
    hide *;
    HelloRunes();
    HelloParts();
    HelloTail();
    KnownAnswer(HELLO, HELLO_TAIL, HELLO_WORLD);
  }
}
