/** WebSocket frames as functions of bytes, and what is written read back. Bytes are bit vectors here. */
module WebSocketFrames {
  import opened Machine

  const MAX_INT64: int := 0x7fff_ffff_ffff_ffff

  /** The int64 that Go stores for an exact result x. */
  function Int64(x: int): (r: int)
    ensures -MAX_INT64 - 1 <= x <= MAX_INT64 ==> r == x
  {
    (x + MAX_INT64 + 1) % 0x1_0000_0000_0000_0000 - MAX_INT64 - 1
  }

  // ---------- bytes and numbers ----------

  /** The byte with these bits, the highest first. */
  function OfBits(b7: bool, b6: bool, b5: bool, b4: bool, b3: bool, b2: bool, b1: bool, b0: bool): bv8 {
    (if b7 then 0x80 else 0) | (if b6 then 0x40 else 0) | (if b5 then 0x20 else 0) | (if b4 then 0x10 else 0)
    | (if b3 then 8 else 0) | (if b2 then 4 else 0) | (if b1 then 2 else 0) | (if b0 then 1 else 0)
  }

  /** x halved i times. */
  function Half(x: nat, i: nat): nat { if i == 0 then x else Half(x, i - 1) / 2 }

  predicate BitOf(x: nat, i: nat) { Half(x, i) % 2 == 1 }

  /** The byte for a number below 256. */
  function ToByte(x: nat): bv8 {
    OfBits(BitOf(x, 7), BitOf(x, 6), BitOf(x, 5), BitOf(x, 4), BitOf(x, 3), BitOf(x, 2), BitOf(x, 1), BitOf(x, 0))
  }

  /** The number a byte stands for. */
  function FromByte(b: bv8): (x: nat)
    ensures x < 256
  {
    (if b & 0x80 != 0 then 128 else 0) + (if b & 0x40 != 0 then 64 else 0) + (if b & 0x20 != 0 then 32 else 0)
    + (if b & 0x10 != 0 then 16 else 0) + (if b & 8 != 0 then 8 else 0) + (if b & 4 != 0 then 4 else 0)
    + (if b & 2 != 0 then 2 else 0) + (if b & 1 != 0 then 1 else 0)
  }

  lemma BitsRead(b7: bool, b6: bool, b5: bool, b4: bool, b3: bool, b2: bool, b1: bool, b0: bool)
    ensures var b := OfBits(b7, b6, b5, b4, b3, b2, b1, b0);
      && (b & 0x80 != 0) == b7 && (b & 0x40 != 0) == b6 && (b & 0x20 != 0) == b5 && (b & 0x10 != 0) == b4
      && (b & 8 != 0) == b3 && (b & 4 != 0) == b2 && (b & 2 != 0) == b1 && (b & 1 != 0) == b0
  {
  }

  lemma ByteRoundTrip(x: nat)
    requires x < 256
    ensures FromByte(ToByte(x)) == x
  {
    BitsRead(BitOf(x, 7), BitOf(x, 6), BitOf(x, 5), BitOf(x, 4), BitOf(x, 3), BitOf(x, 2), BitOf(x, 1), BitOf(x, 0));
    BinaryDigits(x);
  }

  function Digit(b: bool, value: nat): nat { if b then value else 0 }

  lemma HalfTwice(x: nat, i: nat)
    ensures Half(x, i) == 2 * Half(x, i + 1) + Digit(BitOf(x, i), 1)
  {
  }

  lemma BinaryDigits(x: nat)
    requires x < 256
    ensures x == Digit(BitOf(x, 7), 128) + Digit(BitOf(x, 6), 64) + Digit(BitOf(x, 5), 32) + Digit(BitOf(x, 4), 16)
              + Digit(BitOf(x, 3), 8) + Digit(BitOf(x, 2), 4) + Digit(BitOf(x, 1), 2) + Digit(BitOf(x, 0), 1)
  {
    var n1, n2, n3, n4 := Half(x, 1), Half(x, 2), Half(x, 3), Half(x, 4);
    var n5, n6, n7, n8 := Half(x, 5), Half(x, 6), Half(x, 7), Half(x, 8);
    assert x == 2 * n1 + Digit(BitOf(x, 0), 1) by { HalfTwice(x, 0); }
    assert n1 == 2 * n2 + Digit(BitOf(x, 1), 1) by { HalfTwice(x, 1); }
    assert n2 == 2 * n3 + Digit(BitOf(x, 2), 1) by { HalfTwice(x, 2); }
    assert n3 == 2 * n4 + Digit(BitOf(x, 3), 1) by { HalfTwice(x, 3); }
    assert n4 == 2 * n5 + Digit(BitOf(x, 4), 1) by { HalfTwice(x, 4); }
    assert n5 == 2 * n6 + Digit(BitOf(x, 5), 1) by { HalfTwice(x, 5); }
    assert n6 == 2 * n7 + Digit(BitOf(x, 6), 1) by { HalfTwice(x, 6); }
    assert n7 == 2 * n8 + Digit(BitOf(x, 7), 1) by { HalfTwice(x, 7); }
    assert n8 == 0;
  }

  datatype Header = Header(fin: bool, rsv: seq<bool>, opCode: bv8, key: Option<seq<bv8>>)

  /** What the writer accepts: three reserved bits, and a key of four bytes if any. */
  predicate WellFormed(h: Header) { |h.rsv| == 3 && (h.key.Some? ==> |h.key.value| == 4) }

  // ---------- the first byte ----------

  function FinBit(fin: bool): bv8 { if fin then 0x80 else 0 }

  /** The final bit and the first i reserved bits. */
  function FlagBits(h: Header, i: nat): bv8
    requires i <= |h.rsv| == 3
  {
    if i == 0 then FinBit(h.fin) else FlagBits(h, i - 1) | if h.rsv[i - 1] then (1 as bv8) << (7 - i) else 0
  }

  function FirstByte(h: Header): bv8
    requires |h.rsv| == 3
  {
    FlagBits(h, 3) | h.opCode
  }

  function Bit(b: bv8, j: nat): bool
    requires j < 8
  {
    (b >> j) & 1 != 0
  }

  function RsvOf(b: bv8): seq<bool> { [Bit(b, 6), Bit(b, 5), Bit(b, 4)] }

  /** Bits and operation code are read back exactly when the code has four bits. */
  lemma FirstByteRoundTrip(h: Header)
    requires |h.rsv| == 3
    ensures Bit(FirstByte(h), 7) == h.fin && RsvOf(FirstByte(h)) == h.rsv && FirstByte(h) & 0x0f == h.opCode <==>
      h.opCode < 16
  {
    assert FlagBits(h, 1) == FinBit(h.fin) | if h.rsv[0] then 0x40 else 0;
    assert FlagBits(h, 2) == FlagBits(h, 1) | if h.rsv[1] then 0x20 else 0;
    assert FlagBits(h, 3) == FlagBits(h, 2) | if h.rsv[2] then 0x10 else 0;
  }

  // ---------- the length ----------

  /** l shifted right by n bytes. */
  function Shifted(l: nat, n: nat): nat { if n == 0 then l else Shifted(l, n - 1) / 256 }

  function LengthByte(l: nat, n: nat): bv8 { ToByte(Shifted(l, n) % 256) }

  /** The low k bytes of l, the highest first, and of these the first i. */
  function LengthBytes(l: nat, k: nat, i: nat): (s: seq<bv8>)
    requires i <= k
    ensures |s| == i
  {
    if i == 0 then [] else LengthBytes(l, k, i - 1) + [LengthByte(l, k - i)]
  }

  /** The length that the reader computes from the bytes, an int64. */
  function LengthOf(s: seq<bv8>): int {
    if s == [] then 0 else Int64(LengthOf(s[..|s| - 1]) * 256 + FromByte(s[|s| - 1]))
  }

  lemma {:induction false} ShiftedSmaller(l: nat, n: nat)
    ensures Shifted(l, n) <= l
  {
    if n > 0 {
      ShiftedSmaller(l, n - 1);
    }
  }

  /** After i bytes the reader has the top of l, if l has no more than k bytes. */
  lemma {:induction false} LengthRoundTrip(l: nat, k: nat, i: nat)
    requires i <= k && Shifted(l, k) == 0 && l <= MAX_INT64
    ensures LengthOf(LengthBytes(l, k, i)) == Shifted(l, k - i)
  {
    if i > 0 {
      LengthRoundTrip(l, k, i - 1);
      NextByteRead(l, k, i);
      ShiftedSmaller(l, k - i);
      LastByteBack(Shifted(l, k - i), LengthOf(LengthBytes(l, k, i - 1)));
    }
  }

  /** The reader's step for byte number i. */
  lemma NextByteRead(l: nat, k: nat, i: nat)
    requires 0 < i <= k
    ensures LengthOf(LengthBytes(l, k, i)) == Int64(LengthOf(LengthBytes(l, k, i - 1)) * 256 + Shifted(l, k - i) % 256)
  {
    hide LengthOf, LengthByte, Shifted, FromByte, Int64;
    LengthByteRead(l, k - i);
    LengthOfMore(LengthBytes(l, k, i - 1), LengthByte(l, k - i), Shifted(l, k - i) % 256);
  }

  lemma LengthOfMore(front: seq<bv8>, b: bv8, x: nat)
    requires FromByte(b) == x
    ensures LengthOf(front + [b]) == Int64(LengthOf(front) * 256 + x)
  {
    assert (front + [b])[..|front|] == front;
  }

  lemma LengthByteRead(l: nat, n: nat)
    ensures FromByte(LengthByte(l, n)) == Shifted(l, n) % 256
  {
    ByteRoundTrip(Shifted(l, n) % 256);
  }

  /** A number from what is left of it without its last byte, and that byte. */
  lemma LastByteBack(n: nat, q: int)
    requires n <= MAX_INT64 && q == n / 256
    ensures Int64(q * 256 + n % 256) == n
  {
  }

  lemma ShiftedOut(l: nat)
    ensures l < 65536 ==> Shifted(l, 2) == 0
    ensures l <= MAX_INT64 ==> Shifted(l, 8) == 0
  {
    var l2 := Shifted(l, 2);
    assert Shifted(l, 1) == Shifted(l, 0) / 256 == l / 256 && l2 == l / 256 / 256;
    assert l2 == l / 65536;
    var l4 := Shifted(l, 4);
    assert Shifted(l, 3) == l2 / 256 && l4 == l2 / 256 / 256 == l2 / 65536;
    var l6 := Shifted(l, 6);
    assert Shifted(l, 5) == l4 / 256 && l6 == l4 / 256 / 256 == l4 / 65536;
    assert Shifted(l, 7) == l6 / 256 && Shifted(l, 8) == l6 / 256 / 256 == l6 / 65536;
  }

  /** How many length bytes follow the second byte, and what its low seven bits say. */
  function LengthFields(l: nat): nat { if l <= 125 then 0 else if l < 65536 then 2 else 8 }

  function Length7(l: nat): bv8 { if l <= 125 then ToByte(l) else if l < 65536 then 126 else 127 }

  function SecondByte(h: Header, l: nat): bv8 { (if h.key.Some? then 0x80 else 0) | Length7(l) }

  // ---------- masking ----------

  /** s masked, its first byte being number at of the payload. */
  function Masked(key: Option<seq<bv8>>, s: seq<bv8>, at: nat): (r: seq<bv8>)
    requires key.Some? ==> |key.value| == 4
    ensures |r| == |s| && (key.None? ==> r == s)
    ensures key.Some? ==> forall i :: 0 <= i < |s| ==> r[i] == s[i] ^ key.value[(at + i) % 4]
  {
    if key.None? then s else seq(|s|, i requires 0 <= i < |s| => s[i] ^ key.value[(at + i) % 4])
  }

  lemma MaskTwice(key: Option<seq<bv8>>, s: seq<bv8>, at: nat)
    requires key.Some? ==> |key.value| == 4
    ensures Masked(key, Masked(key, s, at), at) == s
  {
    if key.Some? {
      forall i | 0 <= i < |s|
        ensures Masked(key, Masked(key, s, at), at)[i] == s[i]
      {
        var k := key.value[(at + i) % 4];
        assert (s[i] ^ k) ^ k == s[i];
      }
    }
  }

  /** Masking in pieces is masking the whole. */
  lemma MaskPieces(key: Option<seq<bv8>>, s: seq<bv8>, t: seq<bv8>, at: nat)
    requires key.Some? ==> |key.value| == 4
    ensures Masked(key, s + t, at) == Masked(key, s, at) + Masked(key, t, at + |s|)
  {
    var whole, front, back := Masked(key, s + t, at), Masked(key, s, at), Masked(key, t, at + |s|);
    if key.Some? {
      forall i | 0 <= i < |s| + |t|
        ensures whole[i] == if i < |s| then front[i] else back[i - |s|]
      {
        assert (s + t)[i] == if i < |s| then s[i] else t[i - |s|];
        assert at + i == at + |s| + (i - |s|);
      }
    }
  }

  // ---------- frames ----------

  function KeyBytes(h: Header): seq<bv8> { if h.key.Some? then h.key.value else [] }

  function HeaderBytes(h: Header, l: nat): seq<bv8>
    requires WellFormed(h)
  {
    [FirstByte(h), SecondByte(h, l)] + LengthBytes(l, LengthFields(l), LengthFields(l)) + KeyBytes(h)
  }

  function Encoded(h: Header, msg: seq<bv8>): seq<bv8>
    requires WellFormed(h)
  {
    HeaderBytes(h, |msg|) + Masked(h.key, msg, 0)
  }

  /**
   The header that the reader finds at the start of s, the payload length and the bytes taken; None at an early
   end.
   */
  datatype Found = Found(header: Header, length: int, taken: nat)

  function FieldsOf(b: bv8): nat { if b & 0x7f == 126 then 2 else if b & 0x7f == 127 then 8 else 0 }

  predicate HasKey(b: bv8) { b & 0x80 != 0 }

  function Parsed(s: seq<bv8>): (r: Option<Found>)
    ensures r.Some? ==> r.value.taken <= |s| && WellFormed(r.value.header) && r.value.header.opCode < 16
  {
    if |s| < 2 then None
    else
      var fields := FieldsOf(s[1]);
      var keyed := HasKey(s[1]);
      var taken := 2 + fields + if keyed then 4 else 0;
      if |s| < taken then None
      else
        var length := if fields == 0 then FromByte(s[1] & 0x7f) else LengthOf(s[2..2 + fields]);
        var key := if keyed then Some(s[2 + fields..taken]) else None;
        Some(Found(Header(Bit(s[0], 7), RsvOf(s[0]), s[0] & 0x0f, key), length, taken))
  }

  lemma SecondByteRoundTrip(h: Header, l: nat)
    ensures SecondByte(h, l) & 0x7f == Length7(l) && (SecondByte(h, l) & 0x80 != 0 <==> h.key.Some?)
    ensures FieldsOf(SecondByte(h, l)) == LengthFields(l)
    ensures l <= 125 ==> FromByte(SecondByte(h, l) & 0x7f) == l
  {
    if l <= 125 {
      ByteRoundTrip(l);
      SevenBits(ToByte(l));
    } else {
      SevenBits(Length7(l));
    }
  }

  lemma SevenBits(b: bv8)
    requires b <= 127
    ensures (0x80 | b) & 0x7f == b && (0x80 | b) & 0x80 != 0 && (0 | b) & 0x7f == b && (0 | b) & 0x80 == 0
  {
  }

  lemma HeaderParts(h: Header, l: nat, rest: seq<bv8>)
    requires WellFormed(h)
    ensures var s, k := HeaderBytes(h, l) + rest, 2 + LengthFields(l);
      && |HeaderBytes(h, l)| == k + |KeyBytes(h)| && s[0] == FirstByte(h) && s[1] == SecondByte(h, l)
      && s[2..k] == LengthBytes(l, k - 2, k - 2) && s[k..k + |KeyBytes(h)|] == KeyBytes(h)
  {
  }

  /** The length is read back from its bytes. */
  lemma FieldsRoundTrip(l: nat)
    requires l <= MAX_INT64
    ensures LengthFields(l) > 0 ==> LengthOf(LengthBytes(l, LengthFields(l), LengthFields(l))) == l
  {
    ShiftedOut(l);
    if LengthFields(l) > 0 {
      LengthRoundTrip(l, LengthFields(l), LengthFields(l));
    }
  }

  /** What is parsed, from the parts of s. */
  lemma ParsedFrom(s: seq<bv8>, fields: nat, key: Option<seq<bv8>>, length: int, taken: nat)
    requires |s| >= 2 && FieldsOf(s[1]) == fields && (HasKey(s[1]) <==> key.Some?)
    requires taken == 2 + fields + (if key.Some? then 4 else 0) <= |s|
    requires key.Some? ==> s[2 + fields..taken] == key.value
    requires length == if fields == 0 then FromByte(s[1] & 0x7f) else LengthOf(s[2..2 + fields])
    ensures Parsed(s) == Some(Found(Header(Bit(s[0], 7), RsvOf(s[0]), s[0] & 0x0f, key), length, taken))
  {
  }

  /** The length found in the bytes behind the first, when those are of a header for l bytes. */
  lemma LengthFound(h: Header, l: nat, s: seq<bv8>)
    requires l <= MAX_INT64 && |s| >= 2 + LengthFields(l) && s[1] == SecondByte(h, l)
    requires s[2..2 + LengthFields(l)] == LengthBytes(l, LengthFields(l), LengthFields(l))
    ensures l == if LengthFields(l) == 0 then FromByte(s[1] & 0x7f) else LengthOf(s[2..2 + LengthFields(l)])
  {
    SecondByteRoundTrip(h, l);
    FieldsRoundTrip(l);
  }

  /** A frame's header is read back whatever follows; the operation code must have four bits. */
  lemma HeaderRoundTrip(h: Header, l: nat, rest: seq<bv8>)
    requires WellFormed(h) && h.opCode < 16 && l <= MAX_INT64
    ensures Parsed(HeaderBytes(h, l) + rest) == Some(Found(h, l, |HeaderBytes(h, l)|))
  {
    var s := HeaderBytes(h, l) + rest;
    HeaderParts(h, l, rest);
    FirstByteRoundTrip(h);
    SecondByteRoundTrip(h, l);
    LengthFound(h, l, s);
    ParsedFrom(s, LengthFields(l), h.key, l, |HeaderBytes(h, l)|);
  }

  // ---------- a stream of messages ----------

  datatype Message = Message(header: Header, payload: seq<bv8>)

  predicate Sendable(m: Message) { WellFormed(m.header) && m.header.opCode < 16 && |m.payload| <= MAX_INT64 }

  function EncodedAll(ms: seq<Message>): seq<bv8>
    requires AllSendable(ms)
  {
    if ms == [] then []
    else
      assert Sendable(ms[0]);
      Encoded(ms[0].header, ms[0].payload) + EncodedAll(ms[1..])
  }

  /** The payload on the wire: as long as the header says, or to the end. */
  function Wire(f: Found, s: seq<bv8>): seq<bv8>
    requires f.taken <= |s|
  {
    var n := if f.length < 0 then 0 else if f.length > |s| - f.taken then |s| - f.taken else f.length;
    s[f.taken..f.taken + n]
  }

  /** The first message of s, and how many bytes it takes; None if its header is cut off. */
  function Next(s: seq<bv8>): (r: Option<(Message, nat)>)
    ensures r.Some? ==> r.value.1 <= |s|
  {
    var p := Parsed(s);
    if p.None? then None
    else
      var w := Wire(p.value, s);
      Some((Message(p.value.header, Masked(p.value.header.key, w, 0)), p.value.taken + |w|))
  }

  /** The messages that reading n frames gives, fewer if a header is cut off. */
  function Received(s: seq<bv8>, n: nat): seq<Message> {
    if n == 0 then []
    else
      var r := Next(s);
      if r.None? then [] else [r.value.0] + Received(s[r.value.1..], n - 1)
  }

  lemma NextTurn(s: seq<bv8>, f: Found)
    requires Parsed(s) == Some(f)
    ensures var w := Wire(f, s); Next(s) == Some((Message(f.header, Masked(f.header.key, w, 0)), f.taken + |w|))
  {
  }

  lemma FrameParsed(m: Message, rest: seq<bv8>)
    requires Sendable(m)
    ensures var s := Encoded(m.header, m.payload) + rest;
      Parsed(s) == Some(Found(m.header, |m.payload|, |s| - |m.payload| - |rest|))
  {
    var h, l, w := m.header, |m.payload|, Masked(m.header.key, m.payload, 0);
    assert Encoded(h, m.payload) + rest == HeaderBytes(h, l) + (w + rest);
    HeaderRoundTrip(h, l, w + rest);
  }

  /** A frame is read back whatever follows it. */
  lemma FrameRoundTrip(m: Message, rest: seq<bv8>)
    requires Sendable(m)
    ensures Next(Encoded(m.header, m.payload) + rest) == Some((m, |Encoded(m.header, m.payload)|))
  {
    var s, l, w := Encoded(m.header, m.payload) + rest, |m.payload|, Masked(m.header.key, m.payload, 0);
    var f := Found(m.header, l, |s| - l - |rest|);
    FrameParsed(m, rest);
    NextTurn(s, f);
    assert Wire(f, s) == w;
    MaskTwice(m.header.key, m.payload, 0);
  }

  lemma FirstReceived(m: Message, rest: seq<bv8>, n: nat)
    requires Sendable(m)
    ensures Received(Encoded(m.header, m.payload) + rest, n + 1) == [m] + Received(rest, n)
  {
    FrameRoundTrip(m, rest);
    var e := Encoded(m.header, m.payload);
    assert (e + rest)[|e|..] == rest;
  }

  ghost predicate AllSendable(ms: seq<Message>) { forall i :: 0 <= i < |ms| ==> Sendable(ms[i]) }

  lemma EncodedFirst(m: Message, tail: seq<Message>)
    requires AllSendable([m] + tail)
    ensures Sendable(m) && AllSendable(tail)
    ensures EncodedAll([m] + tail) == Encoded(m.header, m.payload) + EncodedAll(tail)
  {
    var ms := [m] + tail;
    assert Sendable(ms[0]) && ms[1..] == tail;
    forall i | 0 <= i < |tail|
      ensures Sendable(tail[i])
    {
      assert tail[i] == ms[i + 1];
    }
  }

  /** Any list of messages written one after the other is read back. */
  lemma {:induction false} MessagesRoundTrip(ms: seq<Message>)
    requires AllSendable(ms)
    ensures Received(EncodedAll(ms), |ms|) == ms
  {
    if ms != [] {
      var m, tail := ms[0], ms[1..];
      assert ms == [m] + tail;
      EncodedFirst(m, tail);
      MessagesRoundTrip(tail);
      FirstReceived(m, EncodedAll(tail), |tail|);
    }
  }
}
