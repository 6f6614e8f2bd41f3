/**
 The tokenizer's sliding buffer over a reader that may deliver its input in any chunks: readByte with
 its compaction, growth and span shifting, proved to yield the input bytes in order.
 */
module TokenBuffer {
  import opened Machine

  // ---------- the reader ----------

  datatype ReadErr = Nil | EOF | NoProgress

  /** How one Read call behaves: at most `want` bytes, and whether EOF comes together with the last of them. */
  datatype Turn = Turn(want: nat, eofWithData: bool)

  /** Not a hundred empty reads in a row. */
  predicate Lively(plan: seq<Turn>) {
    forall i :: 0 <= i <= |plan| - 100 ==> SomeWant(plan, i)
  }

  predicate SomeWant(plan: seq<Turn>, i: nat)
    requires i + 100 <= |plan|
  {
    exists j :: i <= j < i + 100 && plan[j].want > 0
  }

  class Reader {
    var rest: seq<byte>
    var plan: seq<Turn>

    constructor (input: seq<byte>, turns: seq<Turn>)
      ensures rest == input && plan == turns
    {
      rest, plan := input, turns;
    }

    /** Read into b[from..]. Turns decide about short and empty reads; without turns it reads all it can. */
    method Read(b: array<byte>, from: nat) returns (n: nat, e: ReadErr)
      requires from < b.Length
      modifies this, b
      ensures from + n <= b.Length && n <= |old(rest)| && rest == old(rest)[n..]
      ensures b[..from] == old(b[..from]) && b[from..from + n] == old(rest)[..n]
      ensures e == Nil || (e == EOF && rest == [])
      ensures plan == if old(plan) == [] then [] else old(plan)[1..]
      ensures n == 0 && e == Nil ==> old(plan) != [] && old(plan)[0].want == 0
    {
      var turn := if plan == [] then Turn(b.Length, true) else plan[0];
      if plan != [] { plan := plan[1..]; }
      n := Min(Min(turn.want, b.Length - from), |rest|);
      ghost var left := plan;
      for i := 0 to n
        invariant rest == old(rest) && b[..from] == old(b[..from]) && b[from..from + i] == rest[..i]
        invariant plan == left
      {
        b[from + i] := rest[i];
      }
      rest := rest[n..];
      e := if rest == [] && (turn.eofWithData || (n == 0 && turn.want > 0)) then EOF else Nil;
    }
  }

  // ---------- the buffer ----------

  /** Offsets into the buffer. */
  datatype Span = Span(start: int, end: int)

  function Shift(s: Span, x: int): Span { Span(s.start - x, s.end - x) }

  datatype Attr = Attr(key: Span, val: Span)

  function ShiftAttr(a: Attr, x: int): Attr { Attr(Shift(a.key, x), Shift(a.val, x)) }

  function ShiftAll(attrs: seq<Attr>, x: int): (r: seq<Attr>)
    ensures |r| == |attrs| && forall i :: 0 <= i < |attrs| ==> r[i] == ShiftAttr(attrs[i], x)
  {
    seq(|attrs|, i requires 0 <= i < |attrs| => ShiftAttr(attrs[i], x))
  }

  /** `live` lies in the input at base, and `rest` follows it. */
  ghost predicate Holds(input: seq<byte>, base: int, live: seq<byte>, rest: seq<byte>) {
    0 <= base && base + |live| <= |input| && live == input[base..base + |live|] && rest == input[base + |live|..]
  }

  lemma HoldsMore(input: seq<byte>, base: int, live: seq<byte>, rest: seq<byte>, n: nat)
    requires Holds(input, base, live, rest) && n <= |rest|
    ensures Holds(input, base, live + rest[..n], rest[n..])
  {
  }

  lemma HoldsLess(input: seq<byte>, base: int, live: seq<byte>, rest: seq<byte>, x: nat)
    requires Holds(input, base, live, rest) && x <= |live|
    ensures Holds(input, base + x, live[x..], rest)
  {
  }

  /** Shifting by x and moving the base up by x cancel out. */
  lemma ShiftedBack(attrs: seq<Attr>, x: int, base: int)
    ensures ShiftAll(ShiftAll(attrs, x), 0 - (base + x)) == ShiftAll(attrs, 0 - base)
    ensures x == 0 ==> ShiftAll(attrs, x) == attrs
  {
  }

  /** The stream positions that a buffer's offsets stand for: what shifting must not change. */
  datatype View =
    View(input: seq<byte>, start: int, pos: int, data: Span, pending: Attr, attrs: seq<Attr>, err: ReadErr)

  class Buffer {
    const r: Reader
    var buf: array<byte>
    var len: nat
    var raw: Span
    var data: Span
    var pendingAttr: Attr
    var attr: seq<Attr>
    var err: ReadErr
    var readErr: ReadErr
    ghost const input: seq<byte>
    ghost const lively: bool
    ghost var base: int   // the stream position of buf[0]

    ghost predicate Valid()
      reads this, r, buf
    {
      && 0 < buf.Length && len <= buf.Length && 0 <= raw.start <= raw.end <= len
      && Holds(input, base, buf[..len], r.rest)
      && (lively ==> Lively(r.plan) && readErr != NoProgress)
      && (readErr == EOF ==> r.rest == [])
      && (err != Nil ==> err == readErr && raw.end == len)
    }

    ghost function Here(): View
      reads this
    {
      View(input, base + raw.start, base + raw.end, Shift(data, 0 - base), ShiftAttr(pendingAttr, 0 - base),
        ShiftAll(attr, 0 - base), err)
    }

    constructor (reader: Reader, capacity: nat)
      requires capacity > 0
      ensures Valid() && r == reader && fresh(buf) && input == reader.rest && lively == Lively(reader.plan)
      ensures Here() == View(reader.rest, 0, 0, Span(0, 0), Attr(Span(0, 0), Span(0, 0)), [], Nil)
    {
      r, input, lively := reader, reader.rest, Lively(reader.plan);
      buf := new byte[capacity];
      len, base, err, readErr := 0, 0, Nil, Nil;
      raw, data, pendingAttr, attr := Span(0, 0), Span(0, 0), Attr(Span(0, 0), Span(0, 0)), [];
    }

    /** A span that lies inside raw denotes the stream bytes at its positions. */
    lemma SpanDenotes(s: Span)
      requires Valid() && raw.start <= s.start <= s.end <= raw.end
      ensures buf[s.start..s.end] == input[base + s.start..base + s.end]
    {
      PartOfPart(input, base, base + len, s.start, s.end);
      PartOfPart(buf[..], 0, len, s.start, s.end);
      assert buf[..][s.start..s.end] == buf[s.start..s.end] && buf[..][0..len] == buf[..len];
    }

    /** The raw bytes at the front of this buffer, or of one twice as long when they fill more than half of it. */
    method CopyRaw() returns (buf1: array<byte>)
      requires 0 < buf.Length && 0 <= raw.start <= raw.end <= buf.Length
      modifies buf
      ensures (buf1 == buf || fresh(buf1)) && raw.end - raw.start < buf1.Length
      ensures buf1[..raw.end - raw.start] == old(buf[raw.start..raw.end])
    {
      var c, d := buf.Length, raw.end - raw.start;
      buf1 := buf;
      if 2 * d > c {
        buf1 := new byte[2 * c];
      }
      CopyDown(buf1, buf, raw.start, raw.end);
    }

    /** Moves the live bytes to the front. */
    method MoveLive()
      requires Valid() && raw.end == len && err == Nil && readErr == Nil
      modifies this`buf, this`len, this`raw, this`base, buf
      ensures Valid() && (buf == old(buf) || fresh(buf))
      ensures base == old(base + raw.start) && raw == Span(0, old(raw.end - raw.start)) && raw.end == len < buf.Length
    {
      var d := raw.end - raw.start;
      HoldsLess(input, base, buf[..len], r.rest, raw.start);
      assert buf[..len][raw.start..] == buf[raw.start..len];
      var buf1 := CopyRaw();
      base := base + raw.start;
      raw, len, buf := Span(0, d), d, buf1;
    }

    /** The move and the shift of every span together: no span changes its stream positions. */
    method Compact()
      requires Valid() && raw.end == len && err == Nil && readErr == Nil
      modifies this`buf, this`len, this`raw, this`data, this`pendingAttr, this`attr, this`base, buf
      ensures Valid() && (buf == old(buf) || fresh(buf)) && Here() == old(Here())
      ensures raw.end == len < buf.Length
    {
      var x := raw.start;
      ShiftedBack(attr, x, base);
      MoveLive();
      if x != 0 {
        data, pendingAttr, attr := Shift(data, x), ShiftAttr(pendingAttr, x), ShiftAll(attr, x);
      }
    }

    /** readAtLeastOneByte: give up after a hundred empty reads. */
    method Fill()
      requires Valid() && raw.end == len < buf.Length && err == Nil && readErr == Nil
      modifies this`len, this`readErr, r, buf
      ensures Valid() && old(len) <= len
      ensures len == old(len) ==> readErr != Nil
    {
      ghost var plan := r.plan;
      for i := 0 to 100
        invariant Valid() && len == old(len) && readErr == Nil
        invariant i <= |plan| && r.plan == plan[i..] && forall j :: 0 <= j < i ==> plan[j].want == 0
      {
        var done := FillOnce();
        if done {
          return;
        }
      }
      if lively { NotAllEmpty(plan); }
      readErr := NoProgress;
    }

    /** One Read of the remainder of the buffer; done when it brought bytes or an error. */
    method FillOnce() returns (done: bool)
      requires Valid() && raw.end == len < buf.Length && err == Nil && readErr == Nil
      modifies this`len, this`readErr, r, buf
      ensures Valid() && old(len) <= len
      ensures done ==> len > old(len) || readErr != Nil
      ensures !done ==> len == old(len) && readErr == Nil
      ensures !done ==> old(r.plan) != [] && old(r.plan)[0].want == 0 && r.plan == old(r.plan)[1..]
    {
      if lively { LivelyTail(r.plan); }
      ghost var live, rest := buf[..len], r.rest;
      var n, e := r.Read(buf, len);
      HoldsMore(input, base, live, rest, n);
      assert buf[..len + n] == buf[..len] + buf[len..len + n];
      done := n != 0 || e != Nil;
      len, readErr := len + n, e;
    }

    /** The slow path of readByte: false when the stream has ended, else there is a byte at raw.end. */
    method Refill() returns (ok: bool)
      requires Valid() && raw.end == len
      modifies this`buf, this`len, this`raw, this`data, this`pendingAttr, this`attr, this`err, this`readErr,
        this`base, r, buf
      ensures Valid() && (buf == old(buf) || fresh(buf)) && Here() == old(Here()).(err := err)
      ensures if ok then raw.end < len && err == Nil == old(err) else err != Nil && (old(err) == Nil || old(err) == err)
    {
      if readErr != Nil {
        err := readErr;
        return false;
      }
      Compact();
      Fill();
      if len == raw.end {
        err := readErr;
        return false;
      }
      ok := true;
    }

    /**
     readByte: the next byte of the stream, or an error once there is none. Nothing it does to the buffer
     changes which stream positions the spans stand for.
     */
    method ReadByte() returns (c: byte)
      requires Valid()
      modifies this`buf, this`len, this`raw, this`data, this`pendingAttr, this`attr, this`err, this`readErr,
        this`base, r, buf
      ensures Valid() && (buf == old(buf) || fresh(buf))
      ensures err != Nil ==> c == 0 && Here() == old(Here()).(err := err) && (old(err) == Nil || old(err) == err)
      ensures err == Nil ==> old(err) == Nil && Here() == old(Here()).(pos := old(Here()).pos + 1)
      ensures err == Nil ==> old(Here()).pos < |input| && c == input[old(Here()).pos]
    {
      if raw.end >= len {
        var ok := Refill();
        if !ok {
          return 0;
        }
      }
      c := Advance();
    }

    /** The byte at the end of raw, which is then part of it. */
    method Advance() returns (c: byte)
      requires Valid() && raw.end < len && err == Nil
      modifies this`raw
      ensures Valid() && Here() == old(Here()).(pos := old(Here()).pos + 1)
      ensures old(Here()).pos < |input| && c == input[old(Here()).pos]
    {
      c := ByteAt(raw.end);
      raw := Span(raw.start, raw.end + 1);
    }

    function ByteAt(k: int): (c: byte)
      reads this, r, buf
      requires Valid() && 0 <= k < len
      ensures base + k < |input| && c == input[base + k]
    {
      assert buf[k] == buf[..len][k];
      buf[k]
    }

    /** Once there is an error, the position is the end of what the reader gave; with EOF, that is all of the input. */
    lemma ErrorAtEnd()
      requires Valid() && err != Nil
      ensures err == EOF ==> Here().pos == |input|
      ensures lively ==> err == EOF
    {
    }
  }

  lemma PartOfPart<T>(q: seq<T>, a: nat, b: nat, i: nat, j: nat)
    requires a <= b <= |q| && i <= j <= b - a
    ensures q[a..b][i..j] == q[a + i..a + j]
  {
    var x, y := q[a..b][i..j], q[a + i..a + j];
    forall k | 0 <= k < j - i
      ensures x[k] == y[k]
    {
    }
  }

  lemma LivelyTail(plan: seq<Turn>)
    requires Lively(plan)
    ensures Lively(if plan == [] then [] else plan[1..])
  {
    if plan != [] {
      var tail := plan[1..];
      forall i | 0 <= i <= |tail| - 100 ensures SomeWant(tail, i) {
        assert SomeWant(plan, i + 1);
        var j :| i + 1 <= j < i + 101 && plan[j].want > 0;
        assert tail[j - 1].want > 0;
      }
    }
  }

  lemma NotAllEmpty(plan: seq<Turn>)
    requires Lively(plan) && |plan| >= 100
    ensures exists j :: 0 <= j < 100 && plan[j].want > 0
  {
    assert SomeWant(plan, 0);
  }

  /** copy(dst, src[from..to]) for a destination at or below the source. */
  method CopyDown(dst: array<byte>, src: array<byte>, from: nat, to: nat)
    requires from <= to <= src.Length && to - from <= dst.Length
    modifies dst
    ensures dst[..to - from] == old(src[from..to])
  {
    ghost var was := src[from..to];
    for i := 0 to to - from
      invariant dst[..i] == was[..i]
      invariant forall k :: i <= k < to - from ==> src[from + k] == was[k]
    {
      dst[i] := src[from + i];
    }
  }
}
