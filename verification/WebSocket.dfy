/**
 WebSocket frames (sections 5.2 and 5.3 of RFC 6455): the frame writer, the header reader and the unmasking
 reader of the payload.
 */
module WebSocket {
  import opened Machine
  import opened WebSocketFrames
  import opened WebSocketLayout

  // ---------- the writer ----------

  datatype WriteResult = Written(n: nat) | BadMaskingKey

  class FrameWriter {
    const header: Header
    var out: seq<bv8>

    constructor (header: Header, out: seq<bv8>)
      ensures this.header == header && this.out == out
    {
      this.header := header;
      this.out := out;
    }

    /** The first byte, flag by flag. */
    method Flags() returns (b: bv8)
      requires |header.rsv| == 3
      ensures b == FirstByte(header)
    {
      b := 0;
      if header.fin {
        b := b | 0x80;
      }
      for i := 0 to 3
        invariant b == FlagBits(header, i)
      {
        if header.rsv[i] {
          var j := 6 - i;
          b := b | ((1 as bv8) << j);
        }
      }
      b := b | header.opCode;
    }

    /** The length bytes. */
    method PutLength(length: nat, lengthFields: nat) returns (bs: seq<bv8>)
      ensures bs == LengthBytes(length, lengthFields, lengthFields)
    {
      bs := [];
      for i := 0 to lengthFields
        invariant bs == LengthBytes(length, lengthFields, i)
      {
        bs := bs + [LengthByte(length, lengthFields - i - 1)];
      }
    }

    /** The header up to the length bytes. */
    method StartHeader(length: nat) returns (bytes: seq<bv8>)
      requires |header.rsv| == 3
      ensures bytes == [FirstByte(header), SecondByte(header, length)]
                     + LengthBytes(length, LengthFields(length), LengthFields(length))
    {
      var b := Flags();
      bytes := [b];
      b := if header.key.Some? then 0x80 else 0;
      var lengthFields := 0;
      if length <= 125 {
        b := b | ToByte(length);
      } else if length < 65536 {
        b := b | 126;
        lengthFields := 2;
      } else {
        b := b | 127;
        lengthFields := 8;
      }
      bytes := bytes + [b];
      var l := PutLength(length, lengthFields);
      bytes := bytes + l;
    }

    /** Writes a frame, or nothing if there is a masking key that has not four bytes. */
    method Write(msg: seq<bv8>) returns (r: WriteResult)
      requires |header.rsv| == 3
      modifies this
      ensures WellFormed(header) ==> r == Written(|msg|)
      ensures WellFormed(header) ==> out == old(out) + Encoded(header, msg)
      ensures WellFormed(header) && |msg| <= MAX_INT64 ==>
        |old(out)| <= |out| && FrameOf(out[|old(out)|..], header, msg)
      ensures !WellFormed(header) ==> r == BadMaskingKey && out == old(out)
    {
      hide FrameOf, FirstByte, SecondByte, LengthBytes;
      var length := |msg|;
      if WellFormed(header) && length <= MAX_INT64 { FrameBehind(out, header, msg); }
      var bytes := StartHeader(length);
      if header.key.Some? {
        if |header.key.value| != 4 {
          return BadMaskingKey;
        }
        bytes := bytes + header.key.value;
        assert bytes == HeaderBytes(header, length);
        var data := MaskData(msg, header.key.value);
        out := out + bytes;
        out := out + data;
        return Written(length);
      }
      assert bytes == HeaderBytes(header, length);
      out := out + bytes;
      out := out + msg;
      r := Written(length);
    }
  }

  lemma FrameBehind(out: seq<bv8>, h: Header, msg: seq<bv8>)
    requires WellFormed(h) && |msg| <= MAX_INT64
    ensures var now := out + Encoded(h, msg); FrameOf(now[|out|..], h, msg)
  {
    EncodedStands(h, msg);
    assert (out + Encoded(h, msg))[|out|..] == Encoded(h, msg);
  }

  method MaskData(msg: seq<bv8>, key: seq<bv8>) returns (data: seq<bv8>)
    requires |key| == 4
    ensures data == Masked(Some(key), msg, 0)
  {
    var a := new bv8[|msg|];
    for i := 0 to |msg|
      invariant forall k :: 0 <= k < i ==> a[k] == msg[k] ^ key[k % 4]
    {
      a[i] := msg[i] ^ key[i % 4];
    }
    data := a[..];
  }

  // ---------- the reader ----------

  /** The buffered reader of the connection; errors other than the end are not modelled. */
  class Source {
    const bytes: seq<bv8>
    const size: nat
    var at: nat

    constructor (bytes: seq<bv8>, size: nat)
      ensures this.bytes == bytes && this.size == size && at == 0
    {
      this.bytes, this.size := bytes, size;
      at := 0;
    }

    method ReadByte() returns (b: Option<bv8>)
      requires at <= |bytes|
      modifies this
      ensures if old(at) < |bytes| then b == Some(bytes[old(at)]) && at == old(at) + 1 else b == None && at == old(at)
    {
      if at == |bytes| {
        return None;
      }
      b := Some(bytes[at]);
      at := at + 1;
    }

    /** The loop over the length bytes. */
    method ReadLength(lengthFields: nat) returns (length: Option<int>)
      requires at <= |bytes|
      modifies this
      ensures length.Some? <==> old(at) + lengthFields <= |bytes|
      ensures length.Some? ==> at == old(at) + lengthFields && length.value == LengthOf(bytes[old(at)..at])
      ensures old(at) <= at <= |bytes|
    {
      var l := 0;
      for i := 0 to lengthFields
        invariant at == old(at) + i <= |bytes| && l == LengthOf(bytes[old(at)..at])
      {
        var b := ReadByte();
        if b.None? {
          return None;
        }
        assert bytes[old(at)..at][..i] == bytes[old(at)..at - 1];
        l := Int64(l * 256 + FromByte(b.value));
      }
      length := Some(l);
    }

    /** The loop over the masking key. */
    method ReadKey() returns (key: Option<seq<bv8>>)
      requires at <= |bytes|
      modifies this
      ensures key.Some? <==> old(at) + 4 <= |bytes|
      ensures key.Some? ==> at == old(at) + 4 && key.value == bytes[old(at)..at]
      ensures old(at) <= at <= |bytes|
    {
      var k := [];
      for i := 0 to 4
        invariant at == old(at) + i <= |bytes| && k == bytes[old(at)..at]
      {
        var b := ReadByte();
        if b.None? {
          return None;
        }
        k := k + [b.value];
      }
      key := Some(k);
    }
  }

  // ---------- how the reads go ----------

  /**
   How one Read goes: the room in the caller's buffer, how many bytes the connection gives at most, and whether it
   reports its end together with its last bytes. The buffered reader hands that on only where it reads past its
   buffer, which it does not for less than its buffer's size.
   */
  datatype Turn = Turn(room: nat, chunk: nat, withEnd: bool)

  /** The reads of one frame, and the size of the buffered reader's buffer. */
  datatype Plan = Plan(size: nat, turns: nat -> Turn)

  /** A read that may bring the end along, with so much of the payload left. */
  predicate Direct(turn: Turn, left: int, size: nat) { turn.withEnd && Min(turn.room, left) >= size }

  /** How many bytes the first k reads take together where the payload goes on. */
  function Offered(plan: Plan, k: nat): nat {
    if k == 0 then 0 else Offered(plan, k - 1) + Min(plan.turns(k - 1).room, plan.turns(k - 1).chunk)
  }

  /** How many bytes there are to read for a length, when the connection has so many more. */
  function Reach(length: int, have: nat): nat { if length <= 0 then 0 else Min(length, have) }

  /** The payload runs to the end of the connection, and read number k takes its last bytes along with the end. */
  ghost predicate LostAt(plan: Plan, length: int, have: nat, k: nat) {
    && have <= length && Direct(plan.turns(k), length - Offered(plan, k), plan.size)
    && Offered(plan, k) < have <= Offered(plan, k + 1)
  }

  /** How many bytes of the payload are taken from the connection and never given to the caller. */
  ghost function Lost(plan: Plan, length: int, have: nat): (n: nat)
    ensures n <= Reach(length, have)
    ensures n == 0 <==> forall k: nat :: !LostAt(plan, length, have, k)
  {
    if k: nat :| LostAt(plan, length, have, k) then have - Offered(plan, k) else 0
  }

  lemma {:induction false} OfferedGrows(plan: Plan, i: nat, k: nat)
    requires i <= k
    ensures Offered(plan, i) <= Offered(plan, k)
    decreases k
  {
    if i < k { OfferedGrows(plan, i, k - 1); }
  }

  /** At most one read takes the last bytes. */
  lemma LostOnce(plan: Plan, length: int, have: nat, k: nat)
    requires LostAt(plan, length, have, k)
    ensures Lost(plan, length, have) == have - Offered(plan, k)
  {
    var m: nat :| LostAt(plan, length, have, m) && Lost(plan, length, have) == have - Offered(plan, m);
    if k < m { OfferedGrows(plan, k + 1, m); }
    if m < k { OfferedGrows(plan, m + 1, k); }
  }

  /** Where the first i reads have come to, if none of them met the end. */
  function Come(plan: Plan, i: nat, length: int, have: nat): nat { Min(Offered(plan, i), Reach(length, have)) }

  /** How many bytes read number i takes there. */
  function Taken(plan: Plan, i: nat, length: int, have: nat): nat {
    var at := Come(plan, i, length, have);
    Reach(length - at, Min(Min(plan.turns(i).room, plan.turns(i).chunk), have - at))
  }

  /** Whether that read meets an end. */
  predicate EndsAt(plan: Plan, i: nat, length: int, have: nat) {
    var at, n := Come(plan, i, length, have), Taken(plan, i, length, have);
    length - at <= 0 || at == have || (Direct(plan.turns(i), length - at, plan.size) && n > 0 && at + n == have)
  }

  /**
   One read: it comes as far as its turn allows; one that meets the end loses what it took, and no other loses
   anything.
   */
  lemma OneRead(plan: Plan, i: nat, length: int, have: nat)
    requires plan.turns(i).room > 0 && plan.turns(i).chunk > 0
    ensures var at, n, ends := Come(plan, i, length, have), Taken(plan, i, length, have), EndsAt(plan, i, length, have);
      && at + n == Come(plan, i + 1, length, have)
      && (ends ==> at + n == Reach(length, have))
      && (ends && n > 0 ==> LostAt(plan, length, have, i) && n == have - Offered(plan, i))
      && (ends && n == 0 ==> Offered(plan, i) >= Reach(length, have))
      && (!ends ==> n > 0 && !LostAt(plan, length, have, i))
  {
  }

  ghost predicate NoneLost(plan: Plan, i: nat, length: int, have: nat) {
    forall k: nat :: k < i ==> !LostAt(plan, length, have, k)
  }

  /** What the reads up to the first that meets an end have lost. */
  lemma LostUpto(plan: Plan, i: nat, length: int, have: nat)
    requires plan.turns(i).room > 0 && plan.turns(i).chunk > 0 && EndsAt(plan, i, length, have)
    requires NoneLost(plan, i, length, have)
    ensures Taken(plan, i, length, have) == Lost(plan, length, have)
  {
    OneRead(plan, i, length, have);
    if Taken(plan, i, length, have) > 0 {
      LostOnce(plan, length, have, i);
    } else {
      forall k: nat | k >= i ensures !LostAt(plan, length, have, k) {
        OfferedGrows(plan, i, k);
      }
    }
  }

  class FrameReader {
    const header: Header
    const length: int
    const source: Source
    /** Where the payload starts in the source. */
    ghost const start: nat
    /** How many bytes of the payload have been unmasked; only counted when there is a key. */
    var pos: nat
    /** What the limited reader still gives. */
    var left: int
    /** How many bytes Read took from the source without giving them to its caller. */
    ghost var lost: nat

    constructor (header: Header, length: int, source: Source)
      requires WellFormed(header) && source.at <= |source.bytes|
      ensures this.header == header && this.length == length && this.source == source && start == source.at
      ensures Valid() && lost == 0
    {
      this.header, this.length, this.source, this.start := header, length, source, source.at;
      pos, left, lost := 0, length, 0;
    }

    ghost predicate Valid()
      reads this, source
    {
      && WellFormed(header) && start <= source.at <= |source.bytes|
      && left == length - (source.at - start) && (left >= 0 || source.at == start)
      && lost <= source.at - start && (lost > 0 ==> source.at == |source.bytes|)
      && (header.key.Some? ==> pos == source.at - start - lost)
    }

    /** The payload in plain from byte i of the source to byte j. */
    ghost function Plain(i: nat, j: nat): seq<bv8>
      requires WellFormed(header) && start <= i <= j <= |source.bytes|
    {
      Masked(header.key, source.bytes[i..j], i - start)
    }

    /** The loop that unmasks the n bytes just read. */
    method Unmask(msg: array<bv8>, n: nat, ghost wire: seq<bv8>)
      requires n == |wire| <= msg.Length && msg[..n] == wire && WellFormed(header) && header.key.Some?
      modifies this`pos, msg
      ensures pos == old(pos) + n && msg[..n] == Masked(header.key, wire, old(pos)) && msg[n..] == old(msg[n..])
    {
      ghost var pos0 := pos;
      for i := 0 to n
        invariant pos == pos0 + i
        invariant forall k :: 0 <= k < i ==> msg[k] == wire[k] ^ header.key.value[(pos0 + k) % 4]
        invariant forall k :: i <= k < n ==> msg[k] == wire[k]
        invariant msg[n..] == old(msg[n..])
      {
        msg[i] := msg[i] ^ header.key.value[pos % 4];
        pos := pos + 1;
      }
    }

    /** How many bytes a Read takes from the connection. */
    ghost function Take(room: nat, chunk: nat): nat
      requires Valid()
      reads this, source
    {
      Reach(left, Min(Min(room, chunk), |source.bytes| - source.at))
    }

    /** Whether a Read meets the end: of the payload, of the connection, or of the connection with its last bytes. */
    ghost predicate Ends(turn: Turn)
      requires Valid()
      reads this, source
    {
      var n := Take(turn.room, turn.chunk);
      left <= 0 || (turn.room > 0 && source.at == |source.bytes|) ||
        (Direct(turn, left, source.size) && n > 0 && source.at + n == |source.bytes|)
    }

    /** How many bytes the limited reader over the connection gives, and whether it gives the end with them. */
    method Give(turn: Turn) returns (n: nat, ended: bool)
      requires Valid() && turn.chunk > 0
      ensures n == Take(turn.room, turn.chunk) && ended == Ends(turn)
    {
      if left <= 0 {
        return 0, true;
      }
      n := if turn.room > left then left else turn.room;
      if n == 0 {
        return 0, false;
      }
      if source.at == |source.bytes| {
        return 0, true;
      }
      if n > turn.chunk {
        n := turn.chunk;
      }
      if n > |source.bytes| - source.at {
        n := |source.bytes| - source.at;
      }
      ended := Direct(turn, left, source.size) && source.at + n == |source.bytes|;
    }

    /** The connection's next n bytes, copied to the front of msg. */
    method Fetch(msg: array<bv8>, n: nat)
      requires n <= msg.Length && source.at + n <= |source.bytes|
      modifies source, msg
      ensures source.at == old(source.at) + n
      ensures msg[..n] == source.bytes[old(source.at)..source.at] && msg[n..] == old(msg[n..])
    {
      ghost var wire := source.bytes[source.at..source.at + n];
      for i := 0 to n
        invariant source.at == old(source.at) && msg[..i] == wire[..i] && msg[n..] == old(msg[n..])
      {
        msg[i] := source.bytes[source.at + i];
      }
      source.at := source.at + n;
    }

    /**
     Read: the next bytes of the payload in plain, at most as many as msg holds; None at the end. Bytes that arrive
     together with the end are dropped.
     */
    method Read(msg: array<bv8>, turn: Turn) returns (n: Option<nat>)
      requires Valid() && turn.room == msg.Length && turn.chunk > 0
      modifies this, source, msg
      ensures Valid()
      ensures source.at == old(source.at) + old(Take(turn.room, turn.chunk))
      ensures n == if old(Ends(turn)) then None else Some(old(Take(turn.room, turn.chunk)))
      ensures lost == old(lost) + if n.None? then source.at - old(source.at) else 0
      ensures n.Some? ==> n.value <= msg.Length && source.at == old(source.at) + n.value
      ensures n.Some? ==> msg[..n.value] == Plain(old(source.at), source.at)
      ensures n.Some? ==> msg[n.value..] == old(msg[n.value..])
    {
      var count, ended := Give(turn);
      Fetch(msg, count);
      left := left - count;
      if ended {
        lost := lost + count;
        return None;
      }
      if header.key.Some? {
        Unmask(msg, count, source.bytes[old(source.at)..source.at]);
      }
      n := Some(count);
    }
  }

  /** From byte at on stood, up to end, what follows a second byte b; None if the connection ends before. */
  ghost predicate TailRead(bytes: seq<bv8>, at: nat, b: bv8, r: Option<(int, Option<seq<bv8>>)>, end: nat) {
    var k := FieldsOf(b);
    var taken := k + if HasKey(b) then 4 else 0;
    && at <= end <= |bytes| && (r.Some? <==> at + taken <= |bytes|)
    && (r.Some? ==>
      && end == at + taken
      && r.value.0 == (if k == 0 then FromByte(b & 0x7f) else LengthOf(bytes[at..at + k]))
      && r.value.1 == if HasKey(b) then Some(bytes[at + k..end]) else None)
  }

  /** What follows the second byte of the header: the length bytes, if any, and the key, if any. */
  method ReadTail(src: Source, b: bv8) returns (r: Option<(int, Option<seq<bv8>>)>)
    requires src.at <= |src.bytes|
    modifies src
    ensures TailRead(src.bytes, old(src.at), b, r, src.at)
  {
    var mask := b & 0x80 != 0;
    var length := FromByte(b & 0x7f);
    var lengthFields := FieldsOf(b);
    if lengthFields > 0 {
      var l := src.ReadLength(lengthFields);
      if l.None? {
        return None;
      }
      length := l.value;
    }
    var key: Option<seq<bv8>> := None;
    if mask {
      key := src.ReadKey();
      if key.None? {
        return None;
      }
    }
    r := Some((length, key));
  }

  lemma EarlyEnd(s: seq<bv8>)
    requires |s| < 2 || |s| < 2 + FieldsOf(s[1]) + if HasKey(s[1]) then 4 else 0
    ensures Parsed(s) == None
  {
  }

  lemma PartFrom(bytes: seq<bv8>, at: nat, i: nat, j: nat)
    requires i <= j && at + j <= |bytes|
    ensures bytes[at..][i..j] == bytes[at + i..at + j]
  {
  }

  /** The bytes of the header, one by one. */
  method ReadHeader(src: Source) returns (r: Option<(Header, int)>)
    requires src.at <= |src.bytes|
    modifies src
    ensures src.at <= |src.bytes|
    ensures var p := Parsed(src.bytes[old(src.at)..]);
      && (r.Some? <==> p.Some?)
      && (r.Some? ==> src.at >= old(src.at) && p.value == Found(r.value.0, r.value.1, src.at - old(src.at)))
    ensures Stands(src.bytes[old(src.at)..],
      if r.Some? then Some(Found(r.value.0, r.value.1, src.at - old(src.at))) else None)
  {
    ghost var s, at := src.bytes[src.at..], src.at;
    ParsedStands(s);
    hide Stands, Parsed;
    var b0 := src.ReadByte();
    if b0.None? {
      EarlyEnd(s);
      return None;
    }
    var b1 := src.ReadByte();
    if b1.None? {
      EarlyEnd(s);
      return None;
    }
    r := ReadBehind(src, b0.value, b1.value, s, at);
  }

  function HeaderOf(b0: bv8, key: Option<seq<bv8>>): Header { Header(Bit(b0, 7), RsvOf(b0), b0 & 0x0f, key) }

  /** What has been read from the third byte up to end, from the whole s. */
  lemma TailParsed(bytes: seq<bv8>, at: nat, s: seq<bv8>, tail: Option<(int, Option<seq<bv8>>)>, end: nat)
    requires at + 2 <= |bytes| && s == bytes[at..] && TailRead(bytes, at + 2, s[1], tail, end)
    ensures Parsed(s) == if tail.None? then None
                         else Some(Found(HeaderOf(s[0], tail.value.1), tail.value.0, end - at))
  {
    if tail.None? {
      EarlyEnd(s);
    } else {
      var k := FieldsOf(s[1]);
      PartFrom(bytes, at, 2, 2 + k);
      PartFrom(bytes, at, 2 + k, end - at);
      ParsedFrom(s, k, tail.value.1, tail.value.0, end - at);
    }
  }

  /** The same from the third byte on. */
  method ReadBehind(src: Source, b0: bv8, b1: bv8, ghost s: seq<bv8>, ghost at: nat) returns (r: Option<(Header, int)>)
    requires at + 2 == src.at <= |src.bytes| && s == src.bytes[at..] && b0 == s[0] && b1 == s[1]
    modifies src
    ensures at <= src.at <= |src.bytes|
    ensures Parsed(s) == if r.Some? then Some(Found(r.value.0, r.value.1, src.at - at)) else None
  {
    hide Parsed, HeaderOf;
    var tail := ReadTail(src, b1);
    TailParsed(src.bytes, at, s, tail, src.at);
    r := if tail.None? then None else Some((HeaderOf(b0, tail.value.1), tail.value.0));
  }

  /** NewFrameReader: a reader for the frame whose header is next, None if the connection ends within the header. */
  method NewFrameReader(src: Source) returns (r: Option<FrameReader>)
    requires src.at <= |src.bytes|
    modifies src
    ensures src.at <= |src.bytes|
    ensures var p := Parsed(src.bytes[old(src.at)..]);
      && (r.Some? <==> p.Some?)
      && (r.Some? ==> fresh(r.value) && r.value.Valid() && r.value.source == src && r.value.lost == 0)
      && (r.Some? ==> r.value.header == p.value.header && r.value.length == p.value.length)
      && (r.Some? ==> r.value.start == src.at == old(src.at) + p.value.taken)
  {
    var h := ReadHeader(src);
    if h.None? {
      return None;
    }
    var frame := new FrameReader(h.value.0, h.value.1, src);
    r := Some(frame);
  }

  ghost predicate Lively(plan: Plan, size: nat) {
    plan.size == size && forall i :: plan.turns(i).room > 0 && plan.turns(i).chunk > 0
  }

  /** After i reads of the plan without an end everything taken so far has been given. */
  ghost predicate Halfway(frame: FrameReader, plan: Plan, i: nat, length: int, have: nat)
    reads frame, frame.source
  {
    && frame.Valid() && frame.lost == 0 && frame.length == length && frame.start + have == |frame.source.bytes|
    && plan.size == frame.source.size
    && frame.source.at == frame.start + Come(plan, i, length, have) && NoneLost(plan, i, length, have)
  }

  /** Everything there was has been taken, and only what Lost says was not given. */
  ghost predicate AllRead(frame: FrameReader, plan: Plan, length: int, have: nat)
    reads frame, frame.source
  {
    && frame.Valid() && frame.length == length && frame.start + have == |frame.source.bytes|
    && frame.source.at == frame.start + Reach(length, have) && frame.lost == Lost(plan, length, have)
  }

  /**
   Reads to the end of the payload, however the calls and the connection split it: everything is given but the bytes
   that arrive together with the end of the connection.
   */
  method ReadAll(frame: FrameReader, plan: Plan) returns (data: seq<bv8>)
    requires frame.Valid() && frame.source.at == frame.start && frame.lost == 0 && Lively(plan, frame.source.size)
    modifies frame, frame.source
    ensures frame.Valid() && frame.source.at == frame.start + Reach(frame.length, |frame.source.bytes| - frame.start)
    ensures frame.lost == Lost(plan, frame.length, |frame.source.bytes| - frame.start)
    ensures data == frame.Plain(frame.start, frame.source.at - frame.lost)
  {
    data := [];
    var i, done := 0, false;
    ghost var length, have := frame.length, |frame.source.bytes| - frame.start;
    while !done
      invariant if done then AllRead(frame, plan, length, have) else Halfway(frame, plan, i, length, have)
      invariant Given(frame, data)
      decreases !done, |frame.source.bytes| - frame.source.at
    {
      done, data := ReadOnce(frame, plan.turns(i), data, plan, i, length, have);
      i := i + 1;
    }
  }

  /** Where read number i brings the frame, if it is the next. */
  lemma NextRead(frame: FrameReader, plan: Plan, i: nat, length: int, have: nat, turn: Turn)
    requires Halfway(frame, plan, i, length, have) && turn == plan.turns(i) && turn.room > 0 && turn.chunk > 0
    ensures var n := frame.Take(turn.room, turn.chunk);
      if frame.Ends(turn) then frame.source.at + n == frame.start + Reach(length, have) && n == Lost(plan, length, have)
      else
        && n > 0 && frame.source.at + n == frame.start + Come(plan, i + 1, length, have)
        && NoneLost(plan, i + 1, length, have)
  {
    OneRead(plan, i, length, have);
    assert frame.Take(turn.room, turn.chunk) == Taken(plan, i, length, have);
    assert frame.Ends(turn) == EndsAt(plan, i, length, have);
    if EndsAt(plan, i, length, have) { LostUpto(plan, i, length, have); }
  }

  /** data is the payload in plain, up to what was lost. */
  ghost predicate Given(frame: FrameReader, data: seq<bv8>)
    reads frame, frame.source
  {
    frame.Valid() && data == frame.Plain(frame.start, frame.source.at - frame.lost)
  }

  lemma GivenMore(frame: FrameReader, at: nat, data: seq<bv8>, piece: seq<bv8>)
    requires frame.Valid() && frame.lost == 0 && frame.start <= at <= frame.source.at
    requires data == frame.Plain(frame.start, at) && piece == frame.Plain(at, frame.source.at)
    ensures Given(frame, data + piece)
  {
    PlainGrows(frame.header.key, frame.source.bytes, frame.start, at, frame.source.at);
  }

  lemma GivenStill(frame: FrameReader, at: nat, data: seq<bv8>)
    requires frame.Valid() && frame.start <= at == frame.source.at - frame.lost && data == frame.Plain(frame.start, at)
    ensures Given(frame, data)
  {
  }

  /** One Read into a buffer of its own, appending what it gives. */
  method ReadPiece(frame: FrameReader, turn: Turn, data0: seq<bv8>) returns (done: bool, data: seq<bv8>)
    requires frame.Valid() && frame.lost == 0 && Given(frame, data0) && turn.room > 0 && turn.chunk > 0
    modifies frame, frame.source
    ensures frame.Valid() && Given(frame, data) && done == old(frame.Ends(turn))
    ensures frame.source.at == old(frame.source.at + frame.Take(turn.room, turn.chunk))
    ensures frame.lost == if done then old(frame.Take(turn.room, turn.chunk)) else 0
  {
    var msg := new bv8[turn.room];
    data := data0;
    var n := frame.Read(msg, turn);
    done := n.None?;
    if done {
      GivenStill(frame, old(frame.source.at), data);
    } else {
      GivenMore(frame, old(frame.source.at), data, msg[..n.value]);
      data := data + msg[..n.value];
    }
  }

  /** One Read of the plan. */
  method ReadOnce(frame: FrameReader, turn: Turn, data0: seq<bv8>, ghost plan: Plan, ghost i: nat,
      ghost length: int, ghost have: nat)
      returns (done: bool, data: seq<bv8>)
    requires Halfway(frame, plan, i, length, have) && turn == plan.turns(i) && turn.room > 0 && turn.chunk > 0
    requires Given(frame, data0)
    modifies frame, frame.source
    ensures if done then AllRead(frame, plan, length, have) else Halfway(frame, plan, i + 1, length, have)
    ensures !done ==> frame.source.at > old(frame.source.at)
    ensures Given(frame, data)
  {
    NextRead(frame, plan, i, length, have, turn);
    done, data := ReadPiece(frame, turn, data0);
  }

  /** The plain text of bytes start to j is that up to i and that from i on. */
  lemma PlainGrows(key: Option<seq<bv8>>, bytes: seq<bv8>, start: nat, i: nat, j: nat)
    requires (key.Some? ==> |key.value| == 4) && start <= i <= j <= |bytes|
    ensures Masked(key, bytes[start..j], 0) == Masked(key, bytes[start..i], 0) + Masked(key, bytes[i..j], i - start)
  {
    CutInTwo(bytes, start, i, j);
    MaskedInTwo(key, bytes[start..j], bytes[start..i], bytes[i..j], i - start);
  }

  lemma CutInTwo(bytes: seq<bv8>, start: nat, i: nat, j: nat)
    requires start <= i <= j <= |bytes|
    ensures bytes[start..j] == bytes[start..i] + bytes[i..j] && |bytes[start..i]| == i - start
  {
  }

  lemma MaskedInTwo(key: Option<seq<bv8>>, whole: seq<bv8>, s: seq<bv8>, t: seq<bv8>, at: nat)
    requires (key.Some? ==> |key.value| == 4) && whole == s + t && at == |s|
    ensures Masked(key, whole, 0) == Masked(key, s, 0) + Masked(key, t, at)
  {
    MaskPieces(key, s, t, 0);
  }

  // ---------- messages over a connection ----------

  /** What the reads of a plan lose of the frame f, when the connection has so many bytes from its header on. */
  ghost function LostOf(f: Found, size: nat, plan: Plan): nat
    requires f.taken <= size
  {
    Lost(plan, f.length, size - f.taken)
  }

  lemma LostInWire(f: Found, s: seq<bv8>, plan: Plan)
    requires f.taken <= |s|
    ensures LostOf(f, |s|, plan) <= Reach(f.length, |s| - f.taken) == |Wire(f, s)|
  {
  }

  /** The message without its last n bytes. */
  function Short(m: Message, n: nat): Message
    requires n <= |m.payload|
  {
    m.(payload := m.payload[..|m.payload| - n])
  }

  /** The message that the reads of a plan give for the first frame of s, and how many bytes it takes. */
  ghost function NextBy(s: seq<bv8>, plan: Plan): (r: Option<(Message, nat)>)
    ensures r.Some? ==> r.value.1 <= |s|
  {
    var r := Next(s);
    if r.None? then None
    else
      LostInWire(Parsed(s).value, s, plan);
      Some((Short(r.value.0, LostOf(Parsed(s).value, |s|, plan)), r.value.1))
  }

  /** A message whose frame ends the connection, without what the reads lose of it. */
  ghost function Cut(m: Message, plan: Plan): Message { Short(m, Lost(plan, |m.payload|, |m.payload|)) }

  /** What arrives of messages sent one after the other, the first read by plan number i: the last may be cut. */
  ghost function Arrived(ms: seq<Message>, plans: nat -> Plan, i: nat): seq<Message>
    decreases |ms|
  {
    if ms == [] then []
    else if |ms| == 1 then [Cut(ms[0], plans(i))]
    else [ms[0]] + Arrived(ms[1..], plans, i + 1)
  }

  lemma FrameArrives(m: Message, rest: seq<bv8>, plan: Plan)
    requires Sendable(m)
    ensures NextBy(Encoded(m.header, m.payload) + rest, plan)
         == Some((if rest == [] then Cut(m, plan) else m, |Encoded(m.header, m.payload)|))
  {
    FrameRoundTrip(m, rest);
    FrameParsed(m, rest);
    if rest != [] { GoesOn(m, rest, plan); }
  }

  /** Where something follows the payload none of it is lost. */
  lemma GoesOn(m: Message, rest: seq<bv8>, plan: Plan)
    requires rest != []
    ensures Short(m, Lost(plan, |m.payload|, |m.payload| + |rest|)) == m
  {
    var l, have := |m.payload|, |m.payload| + |rest|;
    assert forall k: nat :: !LostAt(plan, l, have, k);
    assert m.payload[..l] == m.payload;
  }

  lemma EncodedSome(ms: seq<Message>)
    requires AllSendable(ms)
    ensures EncodedAll(ms) == [] <==> ms == []
  {
    if ms != [] {
      EncodedFirst(ms[0], ms[1..]);
      assert ms == [ms[0]] + ms[1..];
    }
  }

  /** No read of the payload that ends the connection takes its last bytes along with the end. */
  ghost predicate EndApart(payload: seq<bv8>, plan: Plan) {
    forall k: nat :: !LostAt(plan, |payload|, |payload|, k)
  }

  /** The end of the connection comes apart from the last message's last bytes. */
  ghost predicate EndAlone(ms: seq<Message>, plans: nat -> Plan, i: nat) {
    ms == [] || EndApart(ms[|ms| - 1].payload, plans(i + |ms| - 1))
  }

  lemma CutWhole(m: Message, plan: Plan)
    ensures Cut(m, plan) == m <==> EndApart(m.payload, plan)
  {
    var n := Lost(plan, |m.payload|, |m.payload|);
    if n == 0 { assert m.payload[..|m.payload|] == m.payload; }
  }

  /** Everything arrives exactly when the end of the connection comes alone. */
  lemma {:induction false} ArrivesWhole(ms: seq<Message>, plans: nat -> Plan, i: nat)
    ensures Arrived(ms, plans, i) == ms <==> EndAlone(ms, plans, i)
    decreases |ms|
  {
    if |ms| == 1 {
      CutWhole(ms[0], plans(i));
      assert ms == [ms[0]];
    } else if ms != [] {
      var tail := ms[1..];
      ArrivesWhole(tail, plans, i + 1);
      assert ms == [ms[0]] + tail && tail[|tail| - 1] == ms[|ms| - 1];
      assert i + 1 + |tail| - 1 == i + |ms| - 1;
      assert ([ms[0]] + Arrived(tail, plans, i + 1))[1..] == Arrived(tail, plans, i + 1);
    }
  }

  /**
   One read with room for the whole last payload, of at least the size of the buffer, that gets it together with the
   end: none of it arrives.
   */
  lemma PayloadLost(m: Message, plans: nat -> Plan)
    requires m.payload != [] && |m.payload| <= plans(0).turns(0).room && |m.payload| <= plans(0).turns(0).chunk
    requires plans(0).turns(0).withEnd && plans(0).size <= |m.payload|
    ensures Arrived([m], plans, 0) == [m.(payload := [])]
  {
    var l := |m.payload|;
    assert Offered(plans(0), 0) == 0;
    LostOnce(plans(0), l, l, 0);
  }

  /** A payload smaller than the buffer always arrives whole, as no read of it goes past the buffer. */
  lemma ShortArrives(ms: seq<Message>, plans: nat -> Plan, i: nat)
    requires ms != [] ==> |ms[|ms| - 1].payload| < plans(i + |ms| - 1).size
    ensures Arrived(ms, plans, i) == ms
  {
    ArrivesWhole(ms, plans, i);
  }

  ghost predicate AllLively(plans: nat -> Plan, size: nat) { forall i :: Lively(plans(i), size) }

  /** Reads the frame of m, which rest follows on the connection. */
  method ReceiveOne(src: Source, plan: Plan, ghost m: Message, ghost rest: seq<bv8>)
      returns (got: Option<Message>)
    requires src.at <= |src.bytes| && Lively(plan, src.size)
    requires Sendable(m) && src.bytes[src.at..] == Encoded(m.header, m.payload) + rest
    modifies src
    ensures src.at <= |src.bytes| && src.bytes[src.at..] == rest
    ensures got == Some(if rest == [] then Cut(m, plan) else m)
  {
    ghost var s, at := src.bytes[src.at..], src.at;
    FrameArrives(m, rest, plan);
    got := ReadMessage(src, plan);
    assert s[src.at - at..] == src.bytes[src.at..];
  }

  /** Reads one frame to its end. */
  method ReadMessage(src: Source, plan: Plan) returns (m: Option<Message>)
    requires src.at <= |src.bytes| && Lively(plan, src.size)
    modifies src
    ensures src.at <= |src.bytes|
    ensures m.Some? ==> old(src.at) <= src.at
    ensures NextBy(src.bytes[old(src.at)..], plan) == if m.None? then None else Some((m.value, src.at - old(src.at)))
  {
    ghost var s, at := src.bytes[src.at..], src.at;
    var r := NewFrameReader(src);
    if r.None? {
      return None;
    }
    var data := ReadPayload(r.value, plan, s, at, Parsed(s).value);
    m := Some(Message(r.value.header, data));
  }

  /** Reads the payload of the frame f whose header starts at byte at. */
  method ReadPayload(frame: FrameReader, plan: Plan, ghost s: seq<bv8>, ghost at: nat, ghost f: Found)
      returns (data: seq<bv8>)
    requires frame.Valid() && frame.source.at == frame.start == at + f.taken && frame.lost == 0
    requires Lively(plan, frame.source.size)
    requires s == frame.source.bytes[at..] && Parsed(s) == Some(f) && frame.header == f.header
    requires frame.length == f.length
    modifies frame, frame.source
    ensures at <= frame.source.at <= |frame.source.bytes|
    ensures NextBy(s, plan) == Some((Message(f.header, data), frame.source.at - at))
  {
    data := ReadAll(frame, plan);
    PayloadGiven(frame, plan, s, at, f, data);
  }

  /** What is read of the payload, as the message by that plan. */
  lemma PayloadGiven(frame: FrameReader, plan: Plan, s: seq<bv8>, at: nat, f: Found, data: seq<bv8>)
    requires frame.Valid() && frame.start == at + f.taken <= |frame.source.bytes| && frame.length == f.length
    requires s == frame.source.bytes[at..] && Parsed(s) == Some(f) && frame.header == f.header
    requires frame.source.at == frame.start + Reach(frame.length, |frame.source.bytes| - frame.start)
    requires frame.lost == Lost(plan, frame.length, |frame.source.bytes| - frame.start)
    requires data == frame.Plain(frame.start, frame.source.at - frame.lost)
    ensures at <= frame.source.at <= |frame.source.bytes|
    ensures NextBy(s, plan) == Some((Message(f.header, data), frame.source.at - at))
  {
    var bytes, start, end, lost := frame.source.bytes, frame.start, frame.source.at, frame.lost;
    PlainFromStart(frame, end - lost);
    GivenIsNext(bytes, at, s, f, plan, start, end, lost, data);
  }

  lemma PlainFromStart(frame: FrameReader, j: nat)
    requires WellFormed(frame.header) && frame.start <= j <= |frame.source.bytes|
    ensures frame.Plain(frame.start, j) == Masked(frame.header.key, frame.source.bytes[frame.start..j], 0)
  {
  }

  /** What the reads of the frame at byte at give is its message by that plan. */
  lemma GivenIsNext(bytes: seq<bv8>, at: nat, s: seq<bv8>, f: Found, plan: Plan, start: nat, end: nat, lost: nat,
      data: seq<bv8>)
    requires at <= |bytes| && s == bytes[at..] && Parsed(s) == Some(f) && start == at + f.taken
    requires lost == Lost(plan, f.length, |bytes| - start) && end == start + Reach(f.length, |bytes| - start)
    requires data == Masked(f.header.key, bytes[start..end - lost], 0)
    ensures NextBy(s, plan) == Some((Message(f.header, data), end - at))
  {
    var w := Wire(f, s);
    LostInWire(f, s, plan);
    SliceOfSlice(bytes, at, start, end, lost, w);
    NextByTurn(s, f, plan, w);
  }

  lemma SliceOfSlice(bytes: seq<bv8>, at: nat, start: nat, end: nat, lost: nat, w: seq<bv8>)
    requires at <= start <= end - lost <= end <= |bytes| && w == bytes[at..][start - at..end - at]
    ensures w[..|w| - lost] == bytes[start..end - lost]
  {
  }

  lemma NextByTurn(s: seq<bv8>, f: Found, plan: Plan, w: seq<bv8>)
    requires Parsed(s) == Some(f) && w == Wire(f, s) && LostOf(f, |s|, plan) <= |w|
    ensures NextBy(s, plan)
         == Some((Message(f.header, Masked(f.header.key, w[..|w| - LostOf(f, |s|, plan)], 0)), f.taken + |w|))
  {
    NextTurn(s, f);
    MaskedFront(f.header.key, w, |w| - LostOf(f, |s|, plan));
  }

  /** The front of what is masked is the masked front. */
  lemma MaskedFront(key: Option<seq<bv8>>, s: seq<bv8>, k: nat)
    requires (key.Some? ==> |key.value| == 4) && k <= |s|
    ensures Masked(key, s[..k], 0) == Masked(key, s, 0)[..k]
  {
    assert s == s[..k] + s[k..];
    MaskPieces(key, s[..k], s[k..], 0);
  }

  /** The writing side: one frame after the other. */
  method WriteMessages(ms: seq<Message>) returns (out: seq<bv8>)
    requires AllSendable(ms)
    ensures out == EncodedAll(ms)
  {
    out := [];
    assert ms[0..] == ms;
    for i := 0 to |ms|
      invariant out + EncodedAll(ms[i..]) == EncodedAll(ms)
    {
      assert Sendable(ms[i]) && ms[i..][1..] == ms[i + 1..];
      out := WriteMessage(ms[i], out, EncodedAll(ms[i + 1..]));
    }
  }

  method WriteMessage(m: Message, out: seq<bv8>, ghost rest: seq<bv8>) returns (out1: seq<bv8>)
    requires Sendable(m)
    ensures out1 + rest == out + (Encoded(m.header, m.payload) + rest)
  {
    var w := new FrameWriter(m.header, out);
    var r := w.Write(m.payload);
    out1 := w.out;
  }

  /** What has come and what is still to come of the messages ms, the next one being number i. */
  ghost predicate Coming(src: Source, ms: seq<Message>, plans: nat -> Plan, got: seq<Message>, i: nat)
    requires AllSendable(ms)
    reads src
  {
    && i <= |ms| && src.at <= |src.bytes| && src.bytes[src.at..] == EncodedAll(ms[i..])
    && got + Arrived(ms[i..], plans, i) == Arrived(ms, plans, 0)
  }

  lemma ComingStart(src: Source, ms: seq<Message>, plans: nat -> Plan)
    requires AllSendable(ms) && src.at == 0 && src.bytes == EncodedAll(ms)
    ensures Coming(src, ms, plans, [], 0)
  {
    assert src.bytes[0..] == src.bytes && ms[0..] == ms;
  }

  lemma ComingEnd(src: Source, ms: seq<Message>, plans: nat -> Plan, got: seq<Message>)
    requires AllSendable(ms) && Coming(src, ms, plans, got, |ms|)
    ensures got == Arrived(ms, plans, 0)
  {
    assert ms[|ms|..] == [];
  }

  /** The next message is in front of what is still to come. */
  lemma ComingFirst(ms: seq<Message>, plans: nat -> Plan, i: nat)
    requires AllSendable(ms) && i < |ms|
    ensures Sendable(ms[i]) && EncodedAll(ms[i..]) == Encoded(ms[i].header, ms[i].payload) + EncodedAll(ms[i + 1..])
    ensures Arrived(ms[i..], plans, i)
         == [if EncodedAll(ms[i + 1..]) == [] then Cut(ms[i], plans(i)) else ms[i]] + Arrived(ms[i + 1..], plans, i + 1)
  {
    assert ms[i..] == [ms[i]] + ms[i + 1..];
    EncodedFirst(ms[i], ms[i + 1..]);
    EncodedSome(ms[i + 1..]);
  }

  /** One turn of the receiver. */
  method Receive(src: Source, ghost ms: seq<Message>, plans: nat -> Plan, got0: seq<Message>, i: nat)
      returns (got: seq<Message>)
    requires AllSendable(ms) && AllLively(plans, src.size) && i < |ms| && Coming(src, ms, plans, got0, i)
    modifies src
    ensures Coming(src, ms, plans, got, i + 1)
  {
    ComingFirst(ms, plans, i);
    assert Lively(plans(i), src.size);
    var m := ReceiveOne(src, plans(i), ms[i], EncodedAll(ms[i + 1..]));
    got := got0 + [m.value];
    assert got0 + ([m.value] + Arrived(ms[i + 1..], plans, i + 1)) == got + Arrived(ms[i + 1..], plans, i + 1);
  }

  /** Both sides: what comes back, however the reads are split, and when that is every message whole. */
  method Exchange(ms: seq<Message>, size: nat, plans: nat -> Plan) returns (got: seq<Message>)
    requires AllSendable(ms) && AllLively(plans, size)
    ensures got == Arrived(ms, plans, 0)
    ensures got == ms <==> EndAlone(ms, plans, 0)
  {
    var out := WriteMessages(ms);
    var src := new Source(out, size);
    got := [];
    ComingStart(src, ms, plans);
    for i := 0 to |ms|
      invariant Coming(src, ms, plans, got, i)
    {
      got := Receive(src, ms, plans, got, i);
    }
    ComingEnd(src, ms, plans, got);
    ArrivesWhole(ms, plans, 0);
  }
}
