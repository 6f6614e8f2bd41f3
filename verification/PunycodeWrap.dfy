/**
 What int32 arithmetic makes of the encoder: the answer of encode for every label. Only the jump to the
 next value that occurs multiplies, and only there can the delta wrap and come out positive again; after
 an insertion it starts at zero, so every insertion wraps on its own.
 */
module PunycodeWrap {
  import opened Machine
  import opened PunycodeSpec
  import opened PunycodeProofs

  // ---------- one insertion ----------

  /** How many whole rounds of h + 1 positions the insertion passes: by how much the value n rises. */
  function Rounds(st: Insertion): nat {
    DivModSmall(st.i + st.delta, st.h + 1);
    (st.i + st.delta) / (st.h + 1)
  }

  /** The part of delta that a jump of that many values adds, from the decoder's position i; none within a scan. */
  function JumpPart(rounds: nat, i: nat, h: nat): int { if rounds == 0 then 0 else rounds * (h + 1) - i }

  function Jump(st: Insertion): (d: int)
    ensures d <= st.delta
  {
    DivModSmall(st.i + st.delta, st.h + 1);
    JumpPart(Rounds(st), st.i, st.h)
  }

  /** The delta that encode has when it writes this insertion: the jump as an int32, the rest counted up. */
  function DeltaOf(st: Insertion): int { Int32(Jump(st)) + (st.delta - Jump(st)) }

  /** The insertion passes both tests for a negative delta: after the jump and while counting. */
  predicate Passes(st: Insertion) { 0 <= Int32(Jump(st)) && DeltaOf(st) <= MAX_INT32 }

  predicate AllPass(steps: seq<Insertion>) { forall k :: 0 <= k < |steps| ==> Passes(steps[k]) }

  /** The insertions as they are written, starting with the given bias. */
  function Written(steps: seq<Insertion>, bias: int): seq<Insertion>
    requires AllPass(steps)
  {
    if steps == [] then []
    else
      var st := steps[0];
      assert Passes(st);
      [Insertion(DeltaOf(st), st.i, st.h, bias)] + Written(steps[1..], Adapt(DeltaOf(st), st.h + 1, st.i == 0))
  }

  function BiasAfter(steps: seq<Insertion>, bias: int): int
    requires AllPass(steps)
  {
    if steps == [] then bias
    else
      var st := steps[0];
      assert Passes(st);
      BiasAfter(steps[1..], Adapt(DeltaOf(st), st.h + 1, st.i == 0))
  }

  /** encode's answer, for every label: an error if some insertion does not pass, else what is written. */
  function EncodeAnswer(prefix: seq<Rune>, s: seq<Rune>): Option<seq<Rune>> {
    var steps := AllInsertions(s);
    if AllPass(steps) then Some(prefix + Head(Basic(s)) + Text(Written(steps, INITIAL_BIAS))) else None
  }

  lemma {:induction false} WrittenSnoc(steps: seq<Insertion>, st: Insertion, bias: int)
    requires AllPass(steps) && Passes(st)
    ensures AllPass(steps + [st])
    ensures Written(steps + [st], bias)
         == Written(steps, bias) + [Insertion(DeltaOf(st), st.i, st.h, BiasAfter(steps, bias))]
    ensures BiasAfter(steps + [st], bias) == Adapt(DeltaOf(st), st.h + 1, st.i == 0)
  {
    if steps != [] {
      var first := steps[0];
      assert Passes(first) && (steps + [st])[1..] == steps[1..] + [st];
      WrittenSnoc(steps[1..], st, Adapt(DeltaOf(first), first.h + 1, first.i == 0));
    } else {
      assert ([st])[1..] == [];
    }
  }

  // ---------- the insertion the scan makes ----------

  /** The jump of an insertion met at value n by a decoder that stands at nd. */
  lemma MetJump(s: seq<Rune>, n: nat, j: nat, delta: nat, h: nat, bias: int, nd: nat, i: nat, out: seq<Rune>)
    requires InStep(s, n, j, delta, h, nd, i, out) && j < |s| && s[j] == n
    ensures Jump(Insertion(delta, i, h, bias)) == JumpPart(n - nd, i, h)
  {
    InStepMeet(s, n, j, delta, h, nd, i, out);
  }

  lemma JumpNotNegative(rounds: nat, i: nat, h: nat)
    requires i <= h
    ensures JumpPart(rounds, i, h) >= 0
  {
    if rounds > 0 { MulLe(1, rounds, h + 1); }
  }

  /** The next insertion when n still occurs in its row: its jump is the row's, and it has counted no less. */
  lemma {:induction false} NextInRow(s: seq<Rune>, n: nat, j: nat, delta: nat, h: nat, bias: int, nd: nat, i: nat,
      out: seq<Rune>)
    requires InStep(s, n, j, delta, h, nd, i, out) && n <= MAX_RUNE && n in s[j..]
    ensures var steps := Insertions(s, n, j, delta, h, bias, i);
      steps != [] && Jump(steps[0]) == JumpPart(n - nd, i, h) && steps[0].delta >= delta
    decreases |s| - j
  {
    InsertionsTurn(s, n, j, delta, h, bias, i);
    if s[j] == n {
      MetJump(s, n, j, delta, h, bias, nd, i, out);
    } else {
      assert s[j..] == [s[j]] + s[j + 1..];
      InStepSkip(s, n, j, delta, h, nd, i, out);
      NextInRow(s, n, j + 1, if s[j] < n then delta + 1 else delta, h, bias, nd, i, out);
    }
  }

  // ---------- when the answer is the encoding ----------

  predicate Small(steps: seq<Insertion>) {
    forall k :: 0 <= k < |steps| ==> steps[k].delta <= MAX_INT32
  }

  /** An insertion with a small delta passes and is written as it is. */
  lemma SmallPasses(st: Insertion)
    requires st.delta <= MAX_INT32 && Jump(st) >= 0
    ensures Passes(st) && DeltaOf(st) == st.delta
  {
  }

  /** One whose jump fits 32 bits unsigned passes only with a small delta: a wrap makes it negative. */
  lemma WrapShows(st: Insertion)
    requires 0 <= Jump(st) <= 0xffff_ffff
    ensures Passes(st) <==> st.delta <= MAX_INT32
  {
  }

  /** The steps' own biases are those of an encoder that starts with the given one. */
  predicate Chained(steps: seq<Insertion>, bias: int) {
    || steps == []
    || (steps[0].bias == bias && Chained(steps[1..], Adapt(steps[0].delta, steps[0].h + 1, steps[0].i == 0)))
  }

  /** No insertion's jump is negative. */
  predicate Forward(steps: seq<Insertion>) { forall k :: 0 <= k < |steps| ==> Jump(steps[k]) >= 0 }

  lemma {:induction false} ScanChained(s: seq<Rune>, n: nat, j: nat, delta: nat, h: nat, bias: int, nd: nat, i: nat,
      out: seq<Rune>,
                                       steps: seq<Insertion>)
    requires InStep(s, n, j, delta, h, nd, i, out) && steps == Insertions(s, n, j, delta, h, bias, i)
    ensures Chained(steps, bias) && Forward(steps)
    decreases MAX_RUNE + 1 - n, |s| - j
  {
    if n <= MAX_RUNE {
      InsertionsTurn(s, n, j, delta, h, bias, i);
      if j == |s| {
        InStepSkip(s, n, j, delta, h, nd, i, out);
        ScanChained(s, n + 1, 0, delta + 1, h, bias, nd, i, out, steps);
      } else if s[j] != n {
        InStepSkip(s, n, j, delta, h, nd, i, out);
        ScanChained(s, n, j + 1, if s[j] < n then delta + 1 else delta, h, bias, nd, i, out, steps);
      } else {
        InStepMeet(s, n, j, delta, h, nd, i, out);
        var p, bias1 := Passed(s, n, j), Adapt(delta, h + 1, h == |Basic(s)|);
        var st, tail := Insertion(delta, i, h, bias), Insertions(s, n, j + 1, 0, h + 1, bias1, p + 1);
        ScanChained(s, n, j + 1, 0, h + 1, bias1, n, p + 1, Insert(out, p, n), tail);
        MetJump(s, n, j, delta, h, bias, nd, i, out);
        JumpNotNegative(n - nd, i, h);
        ForwardCons(st, tail, bias, bias1);
      }
    }
  }

  lemma ForwardCons(st: Insertion, tail: seq<Insertion>, bias: int, bias1: int)
    requires Forward(tail) && Chained(tail, bias1) && Jump(st) >= 0
    requires st.bias == bias && bias1 == Adapt(st.delta, st.h + 1, st.i == 0)
    ensures Forward([st] + tail) && Chained([st] + tail, bias)
  {
    assert ([st] + tail)[1..] == tail;
  }

  lemma {:induction false} SmallWritten(steps: seq<Insertion>, bias: int)
    requires Chained(steps, bias) && Forward(steps) && Small(steps)
    ensures AllPass(steps) && Written(steps, bias) == steps
  {
    if steps != [] {
      var st, tail := steps[0], steps[1..];
      SmallPasses(st);
      SmallWritten(tail, Adapt(st.delta, st.h + 1, st.i == 0));
      forall k | 0 <= k < |steps| ensures Passes(steps[k]) {
        if k > 0 { assert steps[k] == tail[k - 1]; }
      }
      assert steps == [st] + tail;
    }
  }

  lemma StepsOf(s: seq<Rune>)
    ensures Chained(AllInsertions(s), INITIAL_BIAS) && Forward(AllInsertions(s))
  {
    StartInStep(s);
    ScanChained(s, INITIAL_N, 0, 0, |Basic(s)|, INITIAL_BIAS, INITIAL_N, 0, Basic(s), AllInsertions(s));
  }

  lemma {:induction false} DigitsFirst(q1: nat, q2: nat, k: int, bias: int, r1: seq<Rune>, r2: seq<Rune>)
    requires Digits(q1, k, bias) + r1 == Digits(q2, k, bias) + r2
    ensures q1 == q2 && r1 == r2
    decreases q1
  {
    var t := Threshold(k, bias);
    var e1, e2 := Digits(q1, k, bias) + r1, Digits(q2, k, bias) + r2;
    FirstDigit(q1, k, bias, r1);
    FirstDigit(q2, k, bias, r2);
    if q1 >= t && q2 >= t {
      DigitsFirst(Rest(q1, t), Rest(q2, t), k + BASE, bias, r1, r2);
    }
  }

  /** What the text of a number starts with: a digit below the threshold ends it. */
  lemma FirstDigit(q: nat, k: int, bias: int, r: seq<Rune>)
    ensures var t, e := Threshold(k, bias), Digits(q, k, bias) + r;
      if q < t then DigitValue(e[0]) == Some(q) && e[1..] == r
      else DigitValue(e[0]) == Some(Lead(q, t)) && Lead(q, t) >= t && e[1..] == Digits(Rest(q, t), k + BASE, bias) + r
  {
    var t, e := Threshold(k, bias), Digits(q, k, bias) + r;
    if q < t {
      assert e[1..] == r;
    } else {
      assert e[1..] == Digits(Rest(q, t), k + BASE, bias) + r;
    }
  }

  /** Two chains of insertions with the same text from the same bias have the same deltas. */
  lemma {:induction false} WrittenSame(steps: seq<Insertion>, bias: int)
    requires Chained(steps, bias) && AllPass(steps) && Text(Written(steps, bias)) == Text(steps)
    ensures Small(steps)
  {
    if steps != [] {
      var st, tail := steps[0], steps[1..];
      assert Passes(st);
      var bias1 := Adapt(DeltaOf(st), st.h + 1, st.i == 0);
      var w := Written(tail, bias1);
      TextOfFirst(steps);
      StepsCons(Insertion(DeltaOf(st), st.i, st.h, bias), w);
      DigitsFirst(DeltaOf(st), st.delta, BASE, bias, Text(w), Text(tail));
      WrittenSame(tail, bias1);
      forall k | 0 <= k < |steps| ensures steps[k].delta <= MAX_INT32 {
        if k > 0 { assert steps[k] == tail[k - 1]; }
      }
    }
  }

  lemma TextOfFirst(steps: seq<Insertion>)
    requires steps != []
    ensures Text(steps) == Digits(steps[0].delta, BASE, steps[0].bias) + Text(steps[1..])
  {
  }

  /** encode answers with the encoding exactly when every delta is an int32. */
  lemma RightAnswer(prefix: seq<Rune>, s: seq<Rune>)
    ensures EncodeAnswer(prefix, s) == Some(prefix + Encoded(s)) <==> Small(AllInsertions(s))
  {
    var steps, front := AllInsertions(s), prefix + Head(Basic(s));
    StepsOf(s);
    assert prefix + Encoded(s) == front + Text(steps);
    if Small(steps) {
      SmallWritten(steps, INITIAL_BIAS);
    } else if EncodeAnswer(prefix, s) == Some(prefix + Encoded(s)) {
      var w := Text(Written(steps, INITIAL_BIAS));
      assert front + w == front + Text(steps);
      assert (front + w)[|front|..] == w && (front + Text(steps))[|front|..] == Text(steps);
      WrittenSame(steps, INITIAL_BIAS);
    }
  }

  // ---------- which labels show every wrap ----------

  /** Up to this length every jump is below 2^32, so a wrapped delta is negative and the label is rejected. */
  const CHECKED_LENGTH: int := 3855

  predicate Narrow(steps: seq<Insertion>) { forall k :: 0 <= k < |steps| ==> Jump(steps[k]) <= 0xffff_ffff }

  lemma JumpBound(rounds: nat, i: nat, h: nat)
    requires rounds <= MAX_RUNE - INITIAL_N && h + 1 <= CHECKED_LENGTH
    ensures JumpPart(rounds, i, h) <= 0xffff_ffff
  {
    MulLe(h + 1, CHECKED_LENGTH, rounds);
    assert (MAX_RUNE - INITIAL_N) * CHECKED_LENGTH <= 0xffff_ffff;
  }

  lemma {:induction false} ScanNarrow(s: seq<Rune>, n: nat, j: nat, delta: nat, h: nat, bias: int, nd: nat, i: nat,
      out: seq<Rune>,
                                      steps: seq<Insertion>)
    requires InStep(s, n, j, delta, h, nd, i, out) && steps == Insertions(s, n, j, delta, h, bias, i)
    requires nd >= INITIAL_N && |s| <= CHECKED_LENGTH
    ensures Narrow(steps)
    decreases MAX_RUNE + 1 - n, |s| - j
  {
    if n <= MAX_RUNE {
      InsertionsTurn(s, n, j, delta, h, bias, i);
      if j == |s| {
        InStepSkip(s, n, j, delta, h, nd, i, out);
        ScanNarrow(s, n + 1, 0, delta + 1, h, bias, nd, i, out, steps);
      } else if s[j] != n {
        InStepSkip(s, n, j, delta, h, nd, i, out);
        ScanNarrow(s, n, j + 1, if s[j] < n then delta + 1 else delta, h, bias, nd, i, out, steps);
      } else {
        InStepMeet(s, n, j, delta, h, nd, i, out);
        var p, bias1 := Passed(s, n, j), Adapt(delta, h + 1, h == |Basic(s)|);
        var tail := Insertions(s, n, j + 1, 0, h + 1, bias1, p + 1);
        ScanNarrow(s, n, j + 1, 0, h + 1, bias1, n, p + 1, Insert(out, p, n), tail);
        NarrowMet(s, n, j, delta, h, bias, nd, i, out, tail);
      }
    }
  }

  lemma NarrowMet(s: seq<Rune>, n: nat, j: nat, delta: nat, h: nat, bias: int, nd: nat, i: nat, out: seq<Rune>,
      tail: seq<Insertion>)
    requires InStep(s, n, j, delta, h, nd, i, out) && j < |s| && s[j] == n <= MAX_RUNE && nd >= INITIAL_N
    requires |s| <= CHECKED_LENGTH && Narrow(tail)
    ensures Narrow([Insertion(delta, i, h, bias)] + tail)
  {
    MetJump(s, n, j, delta, h, bias, nd, i, out);
    InsertedLength(s, n, j);
    JumpBound(n - nd, i, h);
    NarrowCons(Insertion(delta, i, h, bias), tail);
  }

  lemma NarrowCons(st: Insertion, tail: seq<Insertion>)
    requires Narrow(tail) && Jump(st) <= 0xffff_ffff
    ensures Narrow([st] + tail)
  {
  }

  lemma InsertedLength(s: seq<Rune>, n: nat, j: nat)
    requires j < |s| && s[j] == n
    ensures |Handled(s, n, j)| + 1 <= |s|
  {
    ScanStep(s, n, j);
    assert |Handled(s, n, j + 1)| <= |s[..j + 1]| + |s[j + 1..]|;
  }

  /**
   For a label of at most 3855 code points encode gives the encoding, or an error exactly when a delta is no
   int32.
   */
  lemma ShortAnswer(prefix: seq<Rune>, s: seq<Rune>)
    requires |s| <= CHECKED_LENGTH
    ensures EncodeAnswer(prefix, s) == if Small(AllInsertions(s)) then Some(prefix + Encoded(s)) else None
  {
    var steps := AllInsertions(s);
    StepsOf(s);
    StartInStep(s);
    ScanNarrow(s, INITIAL_N, 0, 0, |Basic(s)|, INITIAL_BIAS, INITIAL_N, 0, Basic(s), steps);
    RightAnswer(prefix, s);
    if !Small(steps) {
      var k :| 0 <= k < |steps| && steps[k].delta > MAX_INT32;
      WrapShows(steps[k]);
      assert !AllPass(steps);
    }
  }

  /**
   The bound cannot be raised: 3855 ASCII runes and U+10FFFF jump by 4295518448, whose int32 is 551152. encode accepts
   the label, writes the delta 555007 for it, and that does not decode to the label.
   */
  lemma WrapUnnoticed(a: seq<Rune>)
    requires Ascii(a) && |a| == CHECKED_LENGTH
    ensures var s := a + [MAX_RUNE];
      && EncodeAnswer([], s) == Some(Head(a) + Digits(555_007, BASE, INITIAL_BIAS))
      && !Small(AllInsertions(s))
      && Decoded(EncodeAnswer([], s).value) != Some(s)
  {
    var s, st := a + [MAX_RUNE], Insertion(WRAPPED_DELTA, 0, CHECKED_LENGTH, INITIAL_BIAS);
    LastRuneInsertion(a, MAX_RUNE);
    LastRuneMet(a, MAX_RUNE);
    assert AllInsertions(s) == [st];
    WrappedStep(st);
    WrittenOne(st);
    assert [] + Head(Basic(s)) == Head(a);
    AnswerDecodes(s);
  }

  const WRAPPED_DELTA: int := 4_295_522_303

  lemma WrappedStep(st: Insertion)
    requires st == Insertion(WRAPPED_DELTA, 0, CHECKED_LENGTH, INITIAL_BIAS)
    ensures Passes(st) && DeltaOf(st) == 555_007 && !Small([st]) && !Carried([st])
  {
    assert WRAPPED_DELTA / 3856 == 1_113_983;
    assert Jump(st) == 4_295_518_448 && Int32(4_295_518_448) == 551_152;
    assert [st][0] == st && !CarriedStep(st);
  }

  lemma WrittenOne(st: Insertion)
    requires Passes(st)
    ensures AllPass([st]) && Text(Written([st], INITIAL_BIAS)) == Digits(DeltaOf(st), BASE, INITIAL_BIAS)
  {
    WrittenSnoc([], st, INITIAL_BIAS);
    assert [] + [st] == [st];
    StepsCons(Insertion(DeltaOf(st), st.i, st.h, INITIAL_BIAS), []);
    assert Text([]) == [];
  }

  // ---------- decoding the answer ----------

  /**
   The source's own promise, for the int32 code: decoding what encode answered gives the label back if and only if every
   insertion of the label is carried.
   */
  lemma AnswerDecodes(s: seq<Rune>)
    ensures var r := EncodeAnswer([], s); r.Some? && Decoded(r.value) == Some(s) <==> Carried(AllInsertions(s))
  {
    var r := EncodeAnswer([], s);
    if Carried(AllInsertions(s)) {
      CarriedIsSmall(AllInsertions(s));
      RightAnswer([], s);
      RoundTrip(s);
      assert [] + Encoded(s) == Encoded(s);
    }
    if r.Some? {
      AnswerIsCanonical(s, r.value);
      Bijection(r.value, s);
    }
  }

  /** Whatever encode answers is a canonical string behind the prefix. */
  lemma AnswerIsCanonical(s: seq<Rune>, e: seq<Rune>)
    requires EncodeAnswer([], s) == Some(e)
    ensures Canonical(e)
  {
    var head, tail := Head(Basic(s)), Text(Written(AllInsertions(s), INITIAL_BIAS));
    assert e == head + tail;
    CanonicalParts(s, tail);
  }

  lemma CanonicalParts(s: seq<Rune>, tail: seq<Rune>)
    requires forall i :: 0 <= i < |tail| ==> IsLowerDigit(tail[i])
    ensures Canonical(Head(Basic(s)) + tail)
  {
    var head := Head(Basic(s));
    TailStartAt(head, tail);
    assert (head + tail)[|head|..] == tail;
  }

  lemma CarriedIsSmall(steps: seq<Insertion>)
    requires Carried(steps)
    ensures Small(steps)
  {
    forall k | 0 <= k < |steps| ensures steps[k].delta <= MAX_INT32 { assert CarriedStep(steps[k]); }
  }
}
