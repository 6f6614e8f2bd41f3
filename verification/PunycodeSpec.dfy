/**
 The Punycode code of RFC 3492 over unbounded integers, and the bijection between
 accepted strings and decoded labels.

 A label is a sequence of code points. `Decoded` is the decoder of section 6.2 with the
 source's rejection tests. `Insertions` is the encoder of section 6.3 taken one unit step
 at a time: it scans the label once for every code point value n and records an insertion
 whenever it meets n. The imperative code in module Punycode jumps over the empty scans.
 */
module PunycodeSpec {
  import opened Machine

  type Rune = r: int | 0 <= r <= MAX_RUNE

  const MAX_RUNE: int := 0x10_FFFF
  const BASE: int := 36
  const DAMP: int := 700
  const INITIAL_BIAS: int := 72
  const INITIAL_N: int := 128
  const SKEW: int := 38
  const T_MAX: int := 26
  const T_MIN: int := 1
  /** The decoder refuses a digit weight that reaches this cap. */
  const WEIGHT_CAP: int := MAX_INT32 / BASE
  const MAX_OUTPUT: int := 1024
  const HYPHEN: Rune := '-' as int

  // ---------- digits ----------

  function DigitValue(c: Rune): Option<nat> {
    if '0' as int <= c <= '9' as int then Some(c - ('0' as int - 26))
    else if 'A' as int <= c <= 'Z' as int then Some(c - 'A' as int)
    else if 'a' as int <= c <= 'z' as int then Some(c - 'a' as int)
    else None
  }

  function DigitChar(d: nat): (c: Rune)
    requires d < BASE
    ensures DigitValue(c) == Some(d) && IsLowerDigit(c)
  {
    if d < 26 then d + 'a' as int else d + ('0' as int - 26)
  }

  predicate IsLowerDigit(c: Rune) {
    '0' as int <= c <= '9' as int || 'a' as int <= c <= 'z' as int
  }

  function Threshold(k: int, bias: int): (t: int)
    ensures T_MIN <= t <= T_MAX
  {
    if k - bias < T_MIN then T_MIN else if k - bias > T_MAX then T_MAX else k - bias
  }

  /** The digit that q leaves at threshold t <= q. */
  function Lead(q: nat, t: int): (d: int)
    requires T_MIN <= t <= T_MAX && t <= q
    ensures t <= d < BASE
  {
    t + (q - t) % (BASE - t)
  }

  /** What is left of q after that digit. */
  function Rest(q: nat, t: int): (r: nat)
    requires T_MIN <= t <= T_MAX && t <= q
    ensures 0 <= 10 * r < q
    ensures q == Lead(q, t) + r * (BASE - t)
  {
    DivModSmall(q - t, BASE - t);
    var r := (q - t) / (BASE - t);
    MulAtLeastTen(r, BASE - t);
    r
  }

  /** The variable-length integer q, least significant digit first, for positions k, k + 36, ... */
  function Digits(q: nat, k: int, bias: int): (ds: seq<Rune>)
    ensures ds != [] && forall i :: 0 <= i < |ds| ==> IsLowerDigit(ds[i])
  {
    var t := Threshold(k, bias);
    if q < t then [DigitChar(q)]
    else [DigitChar(Lead(q, t))] + Digits(Rest(q, t), k + BASE, bias)
  }

  /** Whether every digit weight met while reading q back stays below the decoder's cap. */
  predicate WeightsFit(q: nat, k: int, bias: int, w: nat)
    decreases q
  {
    var t := Threshold(k, bias);
    q < t || (w * (BASE - t) < WEIGHT_CAP && WeightsFit(Rest(q, t), k + BASE, bias, w * (BASE - t)))
  }

  datatype VarInt = Malformed | VarInt(value: int, rest: seq<Rune>)

  /** Reads one variable-length integer and adds it, weighted, to i. */
  function ReadVarInt(e: seq<Rune>, k: int, bias: int, i: int, w: int): VarInt
    decreases |e|
  {
    if e == [] || DigitValue(e[0]).None? then Malformed
    else
      var digit := DigitValue(e[0]).value;
      var iNext := i + digit * w;
      var t := Threshold(k, bias);
      var w1 := w * (BASE - t);
      if iNext > MAX_INT32 then Malformed
      else if digit < t then VarInt(iNext, e[1..])
      else if w1 >= WEIGHT_CAP then Malformed
      else ReadVarInt(e[1..], k + BASE, bias, iNext, w1)
  }

  function AdaptLoop(delta: nat, k: nat): nat
    decreases delta
  {
    if delta > (BASE - T_MIN) * T_MAX / 2 then AdaptLoop(delta / (BASE - T_MIN), k + BASE)
    else k + (BASE - T_MIN + 1) * delta / (delta + SKEW)
  }

  function Adapt(delta: nat, numPoints: nat, firstTime: bool): nat
    requires numPoints > 0
  {
    var d := if firstTime then delta / DAMP else delta / 2;
    DivModSmall(d, numPoints);
    AdaptLoop(d + d / numPoints, 0)
  }

  // ---------- decoder ----------

  function Insert(s: seq<Rune>, i: nat, r: Rune): seq<Rune>
    requires i <= |s|
  {
    s[..i] + [r] + s[i..]
  }

  /** Decodes the digits e from the state <n, i> of section 6.2, `out` holding the runes so far. */
  function DecodedTail(e: seq<Rune>, n: nat, i: nat, out: seq<Rune>, bias: int): Option<seq<Rune>>
    decreases |e|
  {
    if e == [] then Some(out)
    else
      match ReadVarInt(e, BASE, bias, i, 1)
      case Malformed => None
      case VarInt(i1, rest) =>
        ReadVarIntAdvances(e, BASE, bias, i, 1);
        var x := |out| + 1;
        DivModSmall(i1, x);
        if n + i1 / x > MAX_RUNE || |out| >= MAX_OUTPUT then None
        else DecodedTail(rest, n + i1 / x, i1 % x + 1, Insert(out, i1 % x, n + i1 / x), Adapt(i1 - i, x, i == 0))
  }

  /** One past the index of the last hyphen, or 0. */
  function TailStart(e: seq<Rune>): (pos: nat)
    ensures pos <= |e|
    ensures pos > 0 ==> e[pos - 1] == HYPHEN
    ensures forall j :: pos <= j < |e| ==> e[j] != HYPHEN
  {
    if e == [] then 0
    else if e[|e| - 1] == HYPHEN then |e|
    else TailStart(e[..|e| - 1])
  }

  function Decoded(e: seq<Rune>): Option<seq<Rune>> {
    var pos := TailStart(e);
    if e == [] then Some([])
    else if pos == 1 then None
    else if pos == |e| then Some(e[..|e| - 1])
    else DecodedTail(e[pos..], INITIAL_N, 0, if pos == 0 then [] else e[..pos - 1], INITIAL_BIAS)
  }

  // ---------- encoder ----------

  /** The subsequence of runes below n. */
  function Below(s: seq<Rune>, n: int): (r: seq<Rune>)
    ensures |r| <= |s|
    ensures forall k :: 0 <= k < |r| ==> r[k] < n
  {
    if s == [] then [] else (if s[0] < n then [s[0]] else []) + Below(s[1..], n)
  }

  /** One insertion: delta from the decoder's position i, under `bias`, into h runes. */
  datatype Insertion = Insertion(delta: nat, i: nat, h: nat, bias: int)

  /** The insertions an encoder still makes at value n, index j of its scan of s. */
  function Insertions(s: seq<Rune>, n: nat, j: nat, delta: nat, h: nat, bias: int, i: nat): seq<Insertion>
    requires j <= |s|
    decreases MAX_RUNE + 1 - n, |s| - j
  {
    if n > MAX_RUNE then []
    else if j == |s| then Insertions(s, n + 1, 0, delta + 1, h, bias, i)
    else if s[j] < n then Insertions(s, n, j + 1, delta + 1, h, bias, i)
    else if s[j] > n then Insertions(s, n, j + 1, delta, h, bias, i)
    else [Insertion(delta, i, h, bias)]
         + Insertions(s, n, j + 1, 0, h + 1, Adapt(delta, h + 1, h == |Basic(s)|), Passed(s, n, j) + 1)
  }

  function Basic(s: seq<Rune>): seq<Rune> { Below(s, INITIAL_N) }

  function AllInsertions(s: seq<Rune>): seq<Insertion> {
    Insertions(s, INITIAL_N, 0, 0, |Basic(s)|, INITIAL_BIAS, 0)
  }

  function Text(steps: seq<Insertion>): (e: seq<Rune>)
    ensures forall i :: 0 <= i < |e| ==> IsLowerDigit(e[i])
    ensures steps != [] ==> e != []
  {
    if steps == [] then [] else Digits(steps[0].delta, BASE, steps[0].bias) + Text(steps[1..])
  }

  function Head(basic: seq<Rune>): seq<Rune> {
    basic + if basic == [] then [] else [HYPHEN]
  }

  function Encoded(s: seq<Rune>): seq<Rune> {
    Head(Basic(s)) + Text(AllInsertions(s))
  }

  /** Each insertion's target stays an int32, its digit weights stay below the cap, and the output below its limit. */
  predicate Carried(steps: seq<Insertion>) {
    forall k :: 0 <= k < |steps| ==> CarriedStep(steps[k])
  }

  predicate CarriedStep(st: Insertion) {
    st.i + st.delta <= MAX_INT32 && WeightsFit(st.delta, BASE, st.bias, 1) && st.h < MAX_OUTPUT
  }

  /** The runes of s already inserted when the scan stands at value n, index j. */
  function Handled(s: seq<Rune>, n: int, j: nat): seq<Rune>
    requires j <= |s|
  {
    Below(s[..j], n + 1) + Below(s[j..], n)
  }

  /** How many of those lie before index j. */
  function Passed(s: seq<Rune>, n: int, j: nat): nat
    requires j <= |s|
  {
    |Below(s[..j], n + 1)|
  }

  // ---------- arithmetic ----------

  lemma DivModSmall(a: int, m: int)
    requires a >= 0 && m > 0
    ensures a / m >= 0 && 0 <= a % m < m && a == m * (a / m) + a % m
  {
  }

  lemma MulAtLeastTen(r: nat, m: int)
    requires 10 <= m
    ensures 10 * r <= r * m
  {
  }

  lemma MulAtLeast(m: int, d: int)
    requires m > 0 && d >= 1
    ensures m * d >= m
  {
  }

  lemma DivModOf(q: int, r: int, m: int)
    requires 0 <= r < m
    ensures (q * m + r) / m == q && (q * m + r) % m == r
  {
    var a := q * m + r;
    assert a == m * (a / m) + a % m;
    assert m * (q - a / m) == a % m - r;
    if q - a / m >= 1 {
      MulAtLeast(m, q - a / m);
    } else if q - a / m <= -1 {
      MulAtLeast(m, a / m - q);
    }
  }

  /** (d + q m) w, split into the digit's part and the rest's. */
  lemma WeightSplit(q: int, d: int, q1: nat, m: nat, w: nat)
    requires q == d + q1 * m
    ensures q * w == d * w + q1 * (w * m) && q1 * (w * m) >= 0
  {
    calc {
      q * w;
      (d + q1 * m) * w;
      d * w + q1 * (w * m);
    }
    MulNat(w, m);
    MulNat(q1, w * m);
  }

  lemma MulNat(a: nat, b: nat)
    ensures a * b >= 0
  {
  }

  /** Lead and Rest undo the recombination of a digit with what follows it. */
  lemma RecombinedDigit(d: nat, q1: nat, t: int) returns (q: nat)
    requires T_MIN <= t <= T_MAX && t <= d < BASE
    ensures q == d + q1 * (BASE - t) && t <= q && Lead(q, t) == d && Rest(q, t) == q1
  {
    MulNat(q1, BASE - t);
    q := d + q1 * (BASE - t);
    DivModOf(q1, d - t, BASE - t);
  }

  // ---------- variable-length integers ----------

  lemma {:induction false} ReadVarIntAdvances(e: seq<Rune>, k: int, bias: int, i: int, w: int)
    requires w >= 0
    ensures var r := ReadVarInt(e, k, bias, i, w); r.VarInt? ==> |r.rest| < |e| && i <= r.value <= MAX_INT32
    decreases |e|
  {
    if e != [] && DigitValue(e[0]).Some? {
      var digit, t := DigitValue(e[0]).value, Threshold(k, bias);
      MulNat(digit, w);
      MulNat(w, BASE - t);
      ReadVarIntAdvances(e[1..], k + BASE, bias, i + digit * w, w * (BASE - t));
    }
  }

  lemma {:induction false} ReadDigits(q: nat, k: int, bias: int, i: nat, w: nat, rest: seq<Rune>)
    requires w >= 1
    ensures ReadVarInt(Digits(q, k, bias) + rest, k, bias, i, w)
         == if i + q * w <= MAX_INT32 && WeightsFit(q, k, bias, w) then VarInt(i + q * w, rest) else Malformed
    decreases q
  {
    var t := Threshold(k, bias);
    var e := Digits(q, k, bias) + rest;
    if q < t {
      assert e[1..] == rest;
    } else {
      var q1, d := Rest(q, t), Lead(q, t);
      assert e[1..] == Digits(q1, k + BASE, bias) + rest;
      WeightSplit(q, d, q1, BASE - t, w);
      MulNat(d, w);
      MulAtLeast(w, BASE - t);
      if i + d * w <= MAX_INT32 && w * (BASE - t) < WEIGHT_CAP {
        ReadDigits(q1, k + BASE, bias, i + d * w, w * (BASE - t), rest);
      }
    }
  }

  lemma {:induction false} DigitsRead(e: seq<Rune>, k: int, bias: int, i: nat, w: nat) returns (q: nat)
    requires w >= 1
    requires ReadVarInt(e, k, bias, i, w).VarInt?
    requires forall j :: 0 <= j < |e| && DigitValue(e[j]).Some? ==> IsLowerDigit(e[j])
    ensures var r := ReadVarInt(e, k, bias, i, w);
            e == Digits(q, k, bias) + r.rest && r.value == i + q * w && WeightsFit(q, k, bias, w)
    decreases |e|
  {
    var d, t := DigitValue(e[0]).value, Threshold(k, bias);
    assert e == [DigitChar(d)] + e[1..];
    if d < t {
      q := d;
    } else {
      MulNat(d, w);
      MulAtLeast(w, BASE - t);
      var q1 := DigitsRead(e[1..], k + BASE, bias, i + d * w, w * (BASE - t));
      q := RecombinedDigit(d, q1, t);
      WeightSplit(q, d, q1, BASE - t, w);
      var rest := ReadVarInt(e, k, bias, i, w).rest;
      assert e == [DigitChar(d)] + (Digits(q1, k + BASE, bias) + rest);
    }
  }
}
