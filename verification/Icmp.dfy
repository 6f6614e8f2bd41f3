/**
 The checksum of ICMP messages: the code adds little-endian words in 32 bits and folds twice; RFC 1071 asks
 for the one's complement sum of big-endian words.
 */
module Icmp {
  import opened Machine

  const PSEUDO_HEADER_LEN: int := 40
  const LENGTH_OFFSET: int := 32
  /** The longest text whose words cannot overflow a 32-bit sum, whatever they are: 65537 times 65535 is 2^32 - 1. */
  const MAX_LEN: int := 131074

  // ---------- sums of 16-bit words ----------

  function Word(lo: nat, hi: nat): nat { lo + 256 * hi }

  /** The words with the low byte first, the last odd byte padded with a zero. */
  function Little(s: seq<byte>): (n: nat)
    ensures n <= 65535 * ((|s| + 1) / 2)
  {
    if s == [] then 0
    else if |s| % 2 == 1 then Little(s[..|s| - 1]) + s[|s| - 1]
    else Little(s[..|s| - 2]) + Word(s[|s| - 2], s[|s| - 1])
  }

  /** The words in network order. */
  function Big(s: seq<byte>): nat {
    if s == [] then 0
    else if |s| % 2 == 1 then Big(s[..|s| - 1]) + Word(0, s[|s| - 1])
    else Big(s[..|s| - 2]) + Word(s[|s| - 1], s[|s| - 2])
  }

  /** The second bytes of the words. */
  function Seconds(s: seq<byte>): nat {
    if s == [] then 0
    else if |s| % 2 == 1 then Seconds(s[..|s| - 1])
    else Seconds(s[..|s| - 2]) + s[|s| - 1]
  }

  /** End-around carry until the sum has 16 bits. */
  function Fold(x: nat): (r: nat)
    ensures r <= 0xffff
  {
    if x <= 0xffff then x else Fold(x / 0x1_0000 + x % 0x1_0000)
  }

  /** The one's complement sum of section 1 of RFC 1071. */
  function OnesSum(s: seq<byte>): nat { Fold(Big(s)) }

  lemma {:induction false} FoldFull(x: nat)
    ensures Fold(x) == 0xffff <==> x > 0 && x % 0xffff == 0
  {
    if x > 0xffff {
      var y := x / 0x1_0000 + x % 0x1_0000;
      FoldFull(y);
      assert x == 0xffff * (x / 0x1_0000) + y;
      ModPlus(x / 0x1_0000, y);
    }
  }

  lemma ModPlus(q: nat, y: int)
    ensures (0xffff * q + y) % 0xffff == y % 0xffff
  {
  }

  lemma Multiple(x: int, k: int)
    requires x == 0xffff * k
    ensures x % 0xffff == 0
  {
  }

  /** Both byte orders differ by a factor of 256 and a multiple of 65535. */
  lemma {:induction false} Orders(s: seq<byte>)
    ensures Big(s) == 256 * Little(s) - 0xffff * Seconds(s)
    ensures Big(s) == 0 <==> Little(s) == 0
  {
    if s != [] {
      Orders(if |s| % 2 == 1 then s[..|s| - 1] else s[..|s| - 2]);
    }
  }

  /** So a full sum in one order is a full sum in the other. */
  lemma EitherOrder(s: seq<byte>)
    requires Little(s) > 0 && Little(s) % 0xffff == 0
    ensures OnesSum(s) == 0xffff
  {
    Orders(s);
    var q := Little(s) / 0xffff;
    Multiple(Big(s), 256 * q - Seconds(s));
    FoldFull(Big(s));
  }

  /** Filling in a zero word adds it to the sum. */
  lemma {:induction false} FillWord(s: seq<byte>, p: nat, lo: byte, hi: byte)
    requires p % 2 == 0 && p + 1 < |s| && s[p] == 0 && s[p + 1] == 0
    ensures Little(s[p := lo][p + 1 := hi]) == Little(s) + Word(lo, hi)
  {
    var k := if |s| % 2 == 1 then |s| - 1 else |s| - 2;
    var t := s[p := lo][p + 1 := hi];
    if p < k {
      FillWord(s[..k], p, lo, hi);
      assert t[..k] == s[..k][p := lo][p + 1 := hi];
    } else {
      assert t[..k] == s[..k];
    }
  }

  // ---------- the code's folding ----------

  /** Two shifts and additions in 32 bits. */
  function FoldTwice(s: nat): nat {
    var s1 := s / 0x1_0000 + s % 0x1_0000;
    s1 + s1 / 0x1_0000
  }

  /** The complement of the low 16 bits completes the sum to a multiple of 65535. */
  lemma Complement(s: nat)
    requires s <= 0xffff_ffff
    ensures var c := 0xffff - FoldTwice(s) % 0x1_0000; s + c > 0 && (s + c) % 0xffff == 0
    ensures FoldTwice(s) <= 0x1_ffff
  {
    var q, r := s / 0x1_0000, s % 0x1_0000;
    var s1 := q + r;
    var carry := s1 / 0x1_0000;
    assert FoldTwice(s) % 0x1_0000 == s1 - 0xffff * carry;
    assert s + (0xffff - (s1 - 0xffff * carry)) == 0xffff * (q + 1 + carry);
  }

  // ---------- Marshal ----------

  lemma LittleBound(s: seq<byte>)
    requires |s| <= MAX_LEN
    ensures Little(s) <= 0xffff_ffff
  {
    assert (|s| + 1) / 2 <= 0x1_0001;
  }

  lemma LittleStep(s: seq<byte>, i: nat)
    requires i % 2 == 0 && i + 2 <= |s| <= MAX_LEN
    ensures Little(s[..i + 2]) == Little(s[..i]) + Word(s[i], s[i + 1]) <= 0xffff_ffff
  {
    assert s[..i + 2][..i] == s[..i];
    LittleBound(s[..i + 2]);
  }

  lemma LittleEnd(s: seq<byte>)
    requires s != [] && |s| <= MAX_LEN && |s| % 2 == 1
    ensures Little(s) == Little(s[..|s| - 1]) + s[|s| - 1] <= 0xffff_ffff
  {
    LittleBound(s);
  }

  /** The loop over the words: no addition wraps, so the 32-bit sum is the exact one. */
  method Sum(b: array<byte>) returns (s: nat)
    requires 1 <= b.Length <= MAX_LEN
    ensures s == Little(b[..]) && s <= 0xffff_ffff
  {
    var csumcv := b.Length - 1;
    s := SumWords(b, csumcv);
    LittleBound(b[..]);
    assert b[..][..b.Length] == b[..];
    if csumcv % 2 == 0 {
      LittleEnd(b[..]);
      s := Uint32(s + b[csumcv]);
    }
  }

  function AddWord(s: nat, lo: byte, hi: byte): (r: nat)
    ensures s + Word(lo, hi) <= 0xffff_ffff ==> r == s + Word(lo, hi)
  {
    Uint32(s + Word(lo, hi))
  }

  /** The words before position csumcv. */
  method SumWords(b: array<byte>, csumcv: nat) returns (s: nat)
    requires csumcv + 1 == b.Length <= MAX_LEN
    ensures s == Little(b[..][..csumcv + csumcv % 2])
  {
    ghost var whole := b[..];
    s := 0;
    var i := 0;
    while i < csumcv
      invariant i % 2 == 0 && i <= csumcv + 1 && s == Little(whole[..i])
    {
      LittleStep(whole, i);
      s := AddWord(s, b[i], b[i + 1]);
      i := i + 2;
    }
    assert i == csumcv + csumcv % 2;
  }

  /** The pseudo header of IPv6 with the length of the message written into it. */
  function Filled(psh: seq<byte>, l: nat): seq<byte>
    requires |psh| == PSEUDO_HEADER_LEN
  {
    psh[..LENGTH_OFFSET] + [l / 0x100_0000 % 256, l / 0x1_0000 % 256, l / 256 % 256, l % 256] + psh[LENGTH_OFFSET + 4..]
  }

  /** f is the pseudo header with the length. */
  predicate LengthIn(psh: seq<byte>, l: nat, f: seq<byte>) {
    && |psh| == |f| == 40 && f[..32] == psh[..32] && f[36..] == psh[36..]
    && var a: int, b: int, c: int, d: int := f[32], f[33], f[34], f[35];
       a * 0x100_0000 + b * 0x1_0000 + c * 0x100 + d == l
  }

  /** The length stands in network order behind the two addresses, as section 8.1 of RFC 2460 has it. */
  lemma FilledMeans(psh: seq<byte>, l: nat)
    requires |psh| == 40 && l <= 0xffff_ffff
    ensures LengthIn(psh, l, Filled(psh, l))
  {
    var a, b, c := l / 0x100_0000, l / 0x1_0000, l / 256;
    assert l == c * 256 + l % 256 && c == b * 256 + c % 256 && b == a * 256 + b % 256;
  }

  function Header(mtype: int, code: int): seq<byte> { [mtype % 256, code % 256, 0, 0] }

  /** What the checksum covers, the checksum itself being zero. */
  function Covered(psh: seq<byte>, mtype: int, code: int, body: seq<byte>): seq<byte>
    requires psh == [] || |psh| == PSEUDO_HEADER_LEN
  {
    var m := Header(mtype, code) + body;
    if psh == [] then m else Filled(psh, |m|) + m
  }

  /** The checksum that the code puts behind the type and the code. */
  function Checksum(covered: seq<byte>): (c: nat)
    ensures c <= 0xffff
  {
    0xffff - FoldTwice(Little(covered)) % 0x1_0000
  }

  /** m with the checksum filled in. */
  function Summed(m: seq<byte>, c: nat): seq<byte>
    requires |m| >= 4 && c <= 0xffff
  {
    m[2 := c % 256][3 := c / 256]
  }

  /** With its checksum filled in at p, everything covered has the one's complement sum 0xffff. */
  lemma ChecksumCompletes(covered: seq<byte>, p: nat)
    requires p % 2 == 0 && p + 1 < |covered| <= MAX_LEN && covered[p] == 0 && covered[p + 1] == 0
    ensures OnesSum(covered[p := Checksum(covered) % 256][p + 1 := Checksum(covered) / 256]) == 0xffff
  {
    var c := Checksum(covered);
    var t: seq<byte> := covered[p := c % 256][p + 1 := c / 256];
    LittleBound(covered);
    Complement(Little(covered));
    FillWord(covered, p, c % 256, c / 256);
    EitherOrder(t);
  }

  /** The checksum of a message behind a prefix. */
  lemma SummedMessage(covered: seq<byte>, h: nat)
    requires h + 4 <= |covered|
    ensures var c := Checksum(covered);
      covered[h + 2 := c % 256][h + 3 := c / 256] == covered[..h] + Summed(covered[h..], c)
  {
  }

  /** The two bytes of ^s, s being below 2^17. */
  lemma ComplementBytes(s: nat)
    requires s <= 0x1_ffff
    ensures var c := 0xffff - s % 0x1_0000;
      (0xffff_ffff - s) % 256 == c % 256 && (0xffff_ffff - s) / 256 % 256 == c / 256
  {
    var c := 0xffff - s % 0x1_0000;
    var high := 0xffff - s / 0x1_0000;
    assert 0xffff_ffff - s == 0x1_0000 * high + c;
    assert (0xffff_ffff - s) / 256 == 256 * high + c / 256;
  }

  /** The length written into the pseudo header, when there is one. */
  method FillLength(b: array<byte>, psh: seq<byte>, m: seq<byte>)
    requires |psh| == PSEUDO_HEADER_LEN && b[..] == psh + m
    modifies b
    ensures b[..] == Filled(psh, |m|) + m
  {
    var off, l := LENGTH_OFFSET, b.Length - |psh|;
    b[off] := l / 0x100_0000 % 256;
    b[off + 1] := l / 0x1_0000 % 256;
    b[off + 2] := l / 256 % 256;
    b[off + 3] := l % 256;
  }

  /** Both folds and the complement, in 32 bits; the low two bytes of what they give. */
  method FoldAndInvert(sum: nat) returns (lo: byte, hi: byte)
    requires sum <= 0xffff_ffff
    ensures var c := 0xffff - FoldTwice(sum) % 0x1_0000; lo == c % 256 && hi == c / 256
  {
    var s := sum;
    Complement(s);
    s := Uint32(s / 0x1_0000 + s % 0x1_0000);
    s := Uint32(s + s / 0x1_0000);
    ComplementBytes(s);
    lo, hi := (0xffff_ffff - s) % 256, (0xffff_ffff - s) / 256 % 256;
  }

  /** Exclusive or of two bytes is a byte. */
  function XorBytes(x: byte, y: byte): (r: byte)
    ensures x == 0 ==> r == y
  {
    XorBelow(x, y, 256);
    Xor(x, y)
  }

  lemma {:induction false} XorBelow(x: nat, y: nat, k: nat)
    requires x < k && y < k
    requires (k == 1 || k == 2 || k == 4 || k == 8 || k == 16 || k == 32 || k == 64 || k == 128 || k == 256)
    ensures Xor(x, y) < k
    decreases k
  {
    if k > 1 && x != 0 && y != 0 { XorBelow(x / 2, y / 2, k / 2); }
  }

  /** s with its own checksum combined into the two bytes at p. */
  function Patched(s: seq<byte>, p: nat): (t: seq<byte>)
    requires p + 1 < |s|
    ensures |t| == |s|
  {
    s[p := XorBytes(s[p], Checksum(s) % 256)][p + 1 := XorBytes(s[p + 1], Checksum(s) / 256)]
  }

  /** The checksum computed over b and combined into the bytes at p. */
  method PutChecksum(b: array<byte>, p: nat)
    requires p + 1 < b.Length <= MAX_LEN
    modifies b
    ensures b[..] == Patched(old(b[..]), p)
  {
    var s := Sum(b);
    var lo, hi := FoldAndInvert(s);
    b[p] := XorBytes(b[p], lo);
    b[p + 1] := XorBytes(b[p + 1], hi);
  }

  /**
   Message.Marshal, the body being marshalled already; without a pseudo header an ICMPv6 message is left to the kernel.
   The source cuts the length of the given pseudo header off, also where ICMPv4 has none in front of the message, and
   then panics (None) or patches the wrong bytes.
   */
  method Marshal(v6: bool, mtype: int, code: int, psh: Option<seq<byte>>, body: seq<byte>)
      returns (m: Option<seq<byte>>)
    requires v6 && psh.Some? ==> |psh.value| == PSEUDO_HEADER_LEN
    requires (if v6 && psh.Some? then PSEUDO_HEADER_LEN else 0) + 4 + |body| <= MAX_LEN
    ensures v6 && psh.None? ==> m == Some([mtype % 256, code % 256, 0, 0] + body)
    ensures v6 || psh.None? || psh.value == [] ==> m.Some? && Carries(m.value, mtype, code, body)
    ensures !v6 && (psh.None? || psh.value == []) ==> OnesSum(m.value) == 0xffff
    ensures v6 && psh.Some? ==> OnesSum(Filled(psh.value, |m.value|) + m.value) == 0xffff
    ensures !v6 && psh.Some? ==> var whole, k := Header(mtype, code) + body, |psh.value|;
      m == if k + 4 > |whole| then None else Some(Patched(whole, k + 2)[k..])
  {
    hide OnesSum, Patched, Carries;
    var h := if v6 && psh.Some? then psh.value else [];
    var cut := if psh.Some? then |psh.value| else 0;
    var b := Joined(h, mtype, code, body);
    if v6 {
      if psh.None? {
        PlainCarries(mtype, code, body);
        assert b[..] == Header(mtype, code) + body;
        return Some(b[..]);
      }
      FillLength(b, h, Header(mtype, code) + body);
    }
    CoveredParts(h, mtype, code, body);
    if cut == |h| { PatchedCompletes(h, mtype, code, body); }
    if cut + 3 >= b.Length {
      return None;
    }
    PutChecksum(b, cut + 2);
    m := Some(b[..][cut..]);
  }

  /** The message has the type, the code and the body. */
  ghost predicate Carries(m: seq<byte>, mtype: int, code: int, body: seq<byte>) {
    |m| == 4 + |body| && m[..2] == [mtype % 256, code % 256] && m[4..] == body
  }

  lemma PlainCarries(mtype: int, code: int, body: seq<byte>)
    ensures Carries(Header(mtype, code) + body, mtype, code, body)
    ensures Header(mtype, code) == [mtype % 256, code % 256, 0, 0]
  {
  }

  /** Patched behind the pseudo header, the message carries what it should and all that is covered is complete. */
  lemma PatchedCompletes(h: seq<byte>, mtype: int, code: int, body: seq<byte>)
    requires h == [] || |h| == PSEUDO_HEADER_LEN
    requires |h| + 4 + |body| <= MAX_LEN
    ensures var covered := Covered(h, mtype, code, body);
      var t := Patched(covered, |h| + 2);
      && OnesSum(t) == 0xffff && Carries(t[|h|..], mtype, code, body) && t[..|h|] == covered[..|h|]
      && t == covered[..|h|] + t[|h|..]
  {
    var covered := Covered(h, mtype, code, body);
    CoveredParts(h, mtype, code, body);
    ChecksumCompletes(covered, |h| + 2);
    SummedMessage(covered, |h|);
    var c, whole := Checksum(covered), Header(mtype, code) + body;
    assert Patched(covered, |h| + 2) == covered[..|h|] + Summed(whole, c);
    assert Summed(whole, c)[..2] == whole[..2] && Summed(whole, c)[4..] == whole[4..] == body;
  }

  method Joined(h: seq<byte>, mtype: int, code: int, body: seq<byte>) returns (b: array<byte>)
    ensures fresh(b) && b[..] == h + (Header(mtype, code) + body)
  {
    var whole: seq<byte> := h + (Header(mtype, code) + body);
    b := new byte[|whole|](i requires 0 <= i < |whole| => whole[i]);
  }

  lemma CoveredParts(h: seq<byte>, mtype: int, code: int, body: seq<byte>)
    requires h == [] || |h| == PSEUDO_HEADER_LEN
    ensures var m := Header(mtype, code) + body;
      var covered := Covered(h, mtype, code, body);
      && |covered| == |h| + |m| && covered[|h| + 2] == 0 && covered[|h| + 3] == 0 && covered[|h|..] == m
      && (h == [] ==> covered == h + m) && (h != [] ==> covered[..|h|] == Filled(h, |m|))
  {
  }
}
