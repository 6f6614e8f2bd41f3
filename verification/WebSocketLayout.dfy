/**
 The frame format of section 5.2 of RFC 6455, byte by byte and with its numbers as they stand there: what the frame
 writer's bytes are, and which header the reader finds in any bytes.
 */
module WebSocketLayout {
  import opened Machine
  import opened WebSocketFrames

  /** The number that bytes in network order are. */
  function BigEndian(s: seq<bv8>): nat {
    if s == [] then 0 else 256 * BigEndian(s[..|s| - 1]) + s[|s| - 1] as int
  }

  /** How many bytes stand before the key: two, and two or eight for the length where the seven bits say so. */
  function KeyAt(w: seq<bv8>): nat
    requires |w| >= 2
  {
    if w[1] & 0x7f == 126 then 4 else if w[1] & 0x7f == 127 then 10 else 2
  }

  /** The length: seven bits, or sixteen, or sixty-four; those are stored in an int64. */
  function LengthAt(w: seq<bv8>): int
    requires |w| >= 2 && |w| >= KeyAt(w)
  {
    if w[1] & 0x7f == 126 then w[2] as int * 256 + w[3] as int
    else if w[1] & 0x7f == 127 then
      var v := BigEndian(w[2..10]);
      if v < 0x8000_0000_0000_0000 then v else v - 0x1_0000_0000_0000_0000
    else (w[1] & 0x7f) as int
  }

  /** The bytes w start with a header of so many bytes that says this. */
  ghost predicate HeaderAt(w: seq<bv8>, h: Header, length: int, taken: nat) {
    && 2 <= taken <= |w| && KeyAt(w) <= taken && |h.rsv| == 3
    && (w[0] & 0x80 != 0) == h.fin && (w[0] & 0x40 != 0) == h.rsv[0] && (w[0] & 0x20 != 0) == h.rsv[1]
    && (w[0] & 0x10 != 0) == h.rsv[2] && w[0] & 0x0f == h.opCode && length == LengthAt(w)
    && if w[1] & 0x80 != 0 then taken == KeyAt(w) + 4 && h.key == Some(w[KeyAt(w)..taken])
       else taken == KeyAt(w) && h.key == None
  }

  /** There is one such header at most. */
  lemma OneHeader(w: seq<bv8>, h: Header, length: int, taken: nat, h2: Header, length2: int, taken2: nat)
    requires HeaderAt(w, h, length, taken) && HeaderAt(w, h2, length2, taken2)
    ensures h == h2 && length == length2 && taken == taken2
  {
    assert h.rsv == h2.rsv;
  }

  lemma ByteNumber(b: bv8)
    ensures FromByte(b) == b as int < 256
  {
  }

  lemma Wraps(x: int, b: nat)
    ensures Int64(Int64(x) * 256 + b) == Int64(x * 256 + b)
  {
    var m, k := 0x1_0000_0000_0000_0000, (x + MAX_INT64 + 1) / 0x1_0000_0000_0000_0000;
    assert Int64(x) == x - k * m;
    SameRemainder(x * 256 + b + MAX_INT64 + 1, 256 * k);
  }

  lemma SameRemainder(x: int, k: int)
    ensures (x - k * 0x1_0000_0000_0000_0000) % 0x1_0000_0000_0000_0000 == x % 0x1_0000_0000_0000_0000
  {
  }

  /** What the reader computes from length bytes is their number as an int64. */
  lemma {:induction false} LengthIsBigEndian(s: seq<bv8>)
    ensures LengthOf(s) == Int64(BigEndian(s))
  {
    if s != [] {
      var front, b := s[..|s| - 1], s[|s| - 1];
      LengthIsBigEndian(front);
      ByteNumber(b);
      Wraps(BigEndian(front), FromByte(b));
    }
  }

  function Power(n: nat): nat { if n == 0 then 1 else 256 * Power(n - 1) }

  lemma {:induction false} BigEndianBound(s: seq<bv8>)
    ensures BigEndian(s) < Power(|s|)
  {
    if s != [] {
      BigEndianBound(s[..|s| - 1]);
      ByteNumber(s[|s| - 1]);
    }
  }

  lemma TwoBytes(s: seq<bv8>)
    requires |s| == 2
    ensures BigEndian(s) == s[0] as int * 256 + s[1] as int < 65536
  {
    assert s[..1][..0] == [] && s[..1][0] == s[0];
    assert BigEndian(s[..1]) == s[0] as int;
    ByteNumber(s[0]);
    ByteNumber(s[1]);
  }

  lemma EightBytes(s: seq<bv8>)
    requires |s| == 8
    ensures BigEndian(s) < 0x1_0000_0000_0000_0000
    ensures Int64(BigEndian(s))
         == if BigEndian(s) < 0x8000_0000_0000_0000 then BigEndian(s) else BigEndian(s) - 0x1_0000_0000_0000_0000
  {
    BigEndianBound(s);
    assert Power(4) == 0x1_0000_0000 && Power(8) == 0x1_0000_0000_0000_0000;
  }

  // ---------- the reader ----------

  /** The length that is parsed is the one that stands there. */
  lemma LengthParsed(w: seq<bv8>)
    requires |w| >= 2 && |w| >= KeyAt(w)
    ensures KeyAt(w) == 2 + FieldsOf(w[1])
    ensures LengthAt(w) == if FieldsOf(w[1]) == 0 then FromByte(w[1] & 0x7f) else LengthOf(w[2..2 + FieldsOf(w[1])])
  {
    if w[1] & 0x7f == 126 {
      LengthIsBigEndian(w[2..4]);
      TwoBytes(w[2..4]);
    } else if w[1] & 0x7f == 127 {
      LengthIsBigEndian(w[2..10]);
      EightBytes(w[2..10]);
    } else {
      ByteNumber(w[1] & 0x7f);
    }
  }

  /** The bits of the first byte. */
  lemma FirstBits(b: bv8)
    ensures Bit(b, 7) == (b & 0x80 != 0) && Bit(b, 6) == (b & 0x40 != 0) && Bit(b, 5) == (b & 0x20 != 0)
    ensures Bit(b, 4) == (b & 0x10 != 0)
  {
  }

  /** What is found stands there; where nothing is found there is no whole header. */
  ghost predicate Stands(w: seq<bv8>, r: Option<Found>) {
    match r
    case Some(f) => HeaderAt(w, f.header, f.length, f.taken)
    case None => forall h: Header, length: int, taken: nat :: !HeaderAt(w, h, length, taken)
  }

  /** So it is for any bytes. */
  lemma ParsedStands(w: seq<bv8>)
    ensures Stands(w, Parsed(w))
  {
    if |w| >= 2 {
      FirstBits(w[0]);
      if |w| >= KeyAt(w) { LengthParsed(w); }
    }
  }

  // ---------- the writer ----------

  /** The first byte: the flags from the highest bit down, then the code. */
  function Flagged(h: Header): bv8
    requires |h.rsv| == 3
  {
    (if h.fin then 0x80 else 0) | (if h.rsv[0] then 0x40 else 0) | (if h.rsv[1] then 0x20 else 0)
    | (if h.rsv[2] then 0x10 else 0) | h.opCode
  }

  /** The shortest of the three forms of the length, as section 5.2 asks for. */
  ghost predicate LengthWritten(w: seq<bv8>, length: nat)
    requires |w| >= 2
  {
    var n := w[1] & 0x7f;
    if length <= 125 then n as int == length
    else if length <= 65535 then n == 126 && |w| >= 4 && w[2] as int * 256 + w[3] as int == length
    else n == 127 && |w| >= 10 && BigEndian(w[2..10]) == length
  }

  /** From byte at on w is the message, each byte combined with one of the key's, if there is a key. */
  ghost predicate PayloadAt(w: seq<bv8>, at: nat, key: Option<seq<bv8>>, msg: seq<bv8>)
    requires key.Some? ==> |key.value| == 4
  {
    && |w| == at + |msg|
    && forall i :: 0 <= i < |msg| ==> w[at + i] == if key.Some? then msg[i] ^ key.value[i % 4] else msg[i]
  }

  /** The bytes w are a frame with this header and message, and nothing else. */
  ghost predicate FrameOf(w: seq<bv8>, h: Header, msg: seq<bv8>)
    requires WellFormed(h)
  {
    && |w| >= 2 && w[0] == Flagged(h) && (w[1] & 0x80 != 0 <==> h.key.Some?) && LengthWritten(w, |msg|)
    && var at := KeyAt(w) + if h.key.Some? then 4 else 0;
       && PayloadAt(w, at, h.key, msg) && (h.key.Some? ==> w[at - 4..at] == h.key.value)
  }

  lemma FlagWritten(h: Header, i: nat)
    requires |h.rsv| == 3 && i < 3
    ensures FlagBits(h, i + 1)
         == FlagBits(h, i) | if h.rsv[i] then (if i == 0 then 0x40 else if i == 1 then 0x20 else 0x10) else 0
  {
  }

  lemma FlagsWritten(h: Header)
    requires |h.rsv| == 3
    ensures FirstByte(h) == Flagged(h)
  {
    FlagWritten(h, 0);
    FlagWritten(h, 1);
    FlagWritten(h, 2);
    assert FlagBits(h, 0) == if h.fin then 0x80 else 0;
    hide FlagBits;
  }

  /** The length bytes, most significant first. */
  lemma {:induction false} LengthBytesStand(l: nat, k: nat, i: nat)
    requires i <= k && Shifted(l, k) == 0
    ensures BigEndian(LengthBytes(l, k, i)) == Shifted(l, k - i)
  {
    if i > 0 {
      LengthBytesStand(l, k, i - 1);
      LengthByteRead(l, k - i);
      ByteNumber(LengthByte(l, k - i));
      var front := LengthBytes(l, k, i - 1);
      assert LengthBytes(l, k, i)[..i - 1] == front;
      assert Shifted(l, k - i + 1) == Shifted(l, k - i) / 256;
    }
  }

  /** The second byte and what follows it. */
  lemma LengthStands(h: Header, l: nat, w: seq<bv8>)
    requires l <= MAX_INT64 && |w| >= 2 + LengthFields(l) && w[1] == SecondByte(h, l)
    requires w[2..2 + LengthFields(l)] == LengthBytes(l, LengthFields(l), LengthFields(l))
    ensures (w[1] & 0x80 != 0 <==> h.key.Some?) && KeyAt(w) == 2 + LengthFields(l) && LengthWritten(w, l)
  {
    var k := LengthFields(l);
    SecondByteRoundTrip(h, l);
    ByteNumber(w[1] & 0x7f);
    ShiftedOut(l);
    if k > 0 {
      LengthBytesStand(l, k, k);
      if k == 2 { TwoBytes(w[2..4]); }
    }
  }

  /** What the writer's function gives is a frame in that format. */
  lemma EncodedStands(h: Header, msg: seq<bv8>)
    requires WellFormed(h) && |msg| <= MAX_INT64
    ensures FrameOf(Encoded(h, msg), h, msg)
  {
    var w, l, data := Encoded(h, msg), |msg|, Masked(h.key, msg, 0);
    HeaderParts(h, l, data);
    PayloadStands(h, msg);
    assert |HeaderBytes(h, l)| == 2 + LengthFields(l) + |KeyBytes(h)|;
    assert KeyBytes(h) == if h.key.Some? then h.key.value else [];
    hide Encoded, HeaderBytes, Masked, PayloadAt, KeyBytes, LengthWritten, LengthBytes, FirstByte, SecondByte, Flagged;
    FlagsWritten(h);
    LengthStands(h, l, w);
  }

  lemma PayloadStands(h: Header, msg: seq<bv8>)
    requires WellFormed(h)
    ensures PayloadAt(Encoded(h, msg), |HeaderBytes(h, |msg|)|, h.key, msg)
  {
  }
}
