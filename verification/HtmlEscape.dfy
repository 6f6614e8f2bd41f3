/**
 Escaping and unescaping of HTML text. `Unescaped` decodes a copy from left to right; the methods do it
 in place, writing behind the read cursor. The entity tables are a parameter.
 */
module HtmlEscape {
  import opened Machine

  const AMP: byte := '&' as int
  const HASH: byte := '#' as int
  const SEMICOLON: byte := ';' as int
  const EQUALS: byte := '=' as int
  const LONGEST_WITHOUT_SEMICOLON: int := 6
  const RUNE_ERROR: int := 0xFFFD

  /** The named references: one rune, or two; a name that is missing stands for the rune 0. */
  datatype Entities = Entities(one: map<seq<byte>, int>, two: map<seq<byte>, (int, int)>) {
    function Rune(name: seq<byte>): int { if name in one then one[name] else 0 }
    function Runes(name: seq<byte>): (int, int) { if name in two then two[name] else (0, 0) }
  }

  // ---------- UTF-8 ----------

  /** utf8.EncodeRune: one to four bytes; an int32 that is no code point becomes U+FFFD. */
  function Utf8(r: int): (bs: seq<byte>)
    ensures 1 <= |bs| <= 4
  {
    var u := Uint32(r);
    if u <= 0x7F then [u]
    else if u <= 0x7FF then [0xC0 + u / 64, 0x80 + u % 64]
    else if u > 0x10FFFF || 0xD800 <= u <= 0xDFFF then [0xEF, 0xBF, 0xBD]
    else if u <= 0xFFFF then [0xE0 + u / 4096, 0x80 + u / 64 % 64, 0x80 + u % 64]
    else [0xF0 + u / 262144, 0x80 + u / 4096 % 64, 0x80 + u / 64 % 64, 0x80 + u % 64]
  }

  // ---------- the pure decoder ----------

  /** What 0x80 to 0x9F stand for in Windows-1252. */
  const REPLACEMENTS: seq<int> :=
    [0x20AC, 0x81, 0x201A, 0x192, 0x201E, 0x2026, 0x2020, 0x2021,
     0x2C6, 0x2030, 0x160, 0x2039, 0x152, 0x8D, 0x17D, 0x8F,
     0x90, 0x2018, 0x2019, 0x201C, 0x201D, 0x2022, 0x2013, 0x2014,
     0x2DC, 0x2122, 0x161, 0x203A, 0x153, 0x9D, 0x17E, 0x178]

  predicate IsDigit(c: byte) { '0' as int <= c <= '9' as int }

  predicate IsAlnum(c: byte) { 'a' as int <= c <= 'z' as int || 'A' as int <= c <= 'Z' as int || IsDigit(c) }

  /** The digit's value, or -1. */
  function DigitOf(c: byte, hex: bool): int {
    if IsDigit(c) then c - '0' as int
    else if hex && 'a' as int <= c <= 'f' as int then c - 'a' as int + 10
    else if hex && 'A' as int <= c <= 'F' as int then c - 'A' as int + 10
    else -1
  }

  /** x with one more digit; the rune x is an int32 and may wrap. */
  function NextValue(x: int, c: byte, hex: bool): int { Int32((if hex then 16 else 10) * x + DigitOf(c, hex)) }

  /** Digits from i on, and a semicolon after them if there is one: the value and where it ends. */
  function ScanDigits(s: seq<byte>, i: nat, hex: bool, x: int): (r: (int, nat))
    requires i <= |s|
    ensures i <= r.1 <= |s|
    decreases |s| - i
  {
    if i == |s| then (x, i)
    else if DigitOf(s[i], hex) >= 0 then ScanDigits(s, i + 1, hex, NextValue(x, s[i], hex))
    else (x, if s[i] == SEMICOLON then i + 1 else i)
  }

  /** Letters and digits from i on, and a semicolon after them if there is one: where the name ends. */
  function ScanName(s: seq<byte>, i: nat): (r: nat)
    requires i <= |s|
    ensures i <= r <= |s|
    decreases |s| - i
  {
    if i == |s| then i
    else if IsAlnum(s[i]) then ScanName(s, i + 1)
    else if s[i] == SEMICOLON then i + 1 else i
  }

  function CodePoint(x: int): int {
    if 0x80 <= x <= 0x9F then REPLACEMENTS[x - 0x80]
    else if x == 0 || 0xD800 <= x <= 0xDFFF || x > 0x10FFFF then RUNE_ERROR
    else x
  }

  /** What a reference decodes to, and how many bytes of s it takes. */
  datatype Decoded = Decoded(out: seq<byte>, taken: nat)

  function Numeric(s: seq<byte>): (r: Decoded)
    requires |s| > 1 && s[0] == AMP && s[1] == HASH
    ensures 1 <= r.taken <= |s| && 1 <= |r.out| <= r.taken
  {
    if |s| <= 3 then Decoded([AMP], 1)
    else
      var hex := s[2] == 'x' as int || s[2] == 'X' as int;
      var (x, i) := ScanDigits(s, if hex then 3 else 2, hex, 0);
      if i <= 3 then Decoded([AMP], 1) else Decoded(Utf8(CodePoint(x)), i)
  }

  /** The longest prefix of the name, from length j down to 2, that is itself a reference; 0 if none is. */
  function KnownPrefix(t: Entities, name: seq<byte>, j: int): (r: nat)
    requires j < |name|
    ensures r == 0 || (2 <= r <= j && t.Rune(name[..r]) != 0)
    ensures forall k :: r < k <= j && k >= 2 ==> t.Rune(name[..k]) == 0
    decreases j
  {
    if j <= 1 then 0 else if t.Rune(name[..j]) != 0 then j else KnownPrefix(t, name, j - 1)
  }

  function PrefixLimit(name: seq<byte>): int {
    if |name| - 1 > LONGEST_WITHOUT_SEMICOLON then LONGEST_WITHOUT_SEMICOLON else |name| - 1
  }

  function Named(t: Entities, s: seq<byte>, attribute: bool): (r: Decoded)
    requires |s| > 1 && s[0] == AMP
    ensures 1 <= r.taken <= |s|
  {
    var i := ScanName(s, 1);
    var name := s[1..i];
    if name == [] then Decoded(s[..i], i)
    else if attribute && name[|name| - 1] != SEMICOLON && |s| > i && s[i] == EQUALS then Decoded(s[..i], i)
    else if t.Rune(name) != 0 then Decoded(Utf8(t.Rune(name)), i)
    else if t.Runes(name).0 != 0 then Decoded(Utf8(t.Runes(name).0) + Utf8(t.Runes(name).1), i)
    else
      var j := if attribute then 0 else KnownPrefix(t, name, PrefixLimit(name));
      if j > 0 then Decoded(Utf8(t.Rune(name[..j])), j + 1) else Decoded(s[..i], i)
  }

  function CharRef(t: Entities, s: seq<byte>, attribute: bool): (r: Decoded)
    requires s != [] && s[0] == AMP
    ensures 1 <= r.taken <= |s|
  {
    if |s| <= 1 then Decoded([AMP], 1)
    else if s[1] == HASH then Numeric(s)
    else Named(t, s, attribute)
  }

  function Unescaped(t: Entities, s: seq<byte>, attribute: bool): seq<byte>
    decreases |s|
  {
    if s == [] then []
    else if s[0] != AMP then [s[0]] + Unescaped(t, s[1..], attribute)
    else var d := CharRef(t, s, attribute); d.out + Unescaped(t, s[d.taken..], attribute)
  }

  /** No replacement is wider than its reference: what decoding in place needs of the tables. */
  ghost predicate Narrow(t: Entities) {
    && (forall name :: t.Rune(name) != 0 ==> |Utf8(t.Rune(name))| <= |name| + 1)
    && (forall name :: t.Runes(name).0 != 0 ==> |Utf8(t.Runes(name).0)| + |Utf8(t.Runes(name).1)| <= |name| + 1)
  }

  lemma RefNarrow(t: Entities, s: seq<byte>, attribute: bool)
    requires Narrow(t) && s != [] && s[0] == AMP
    ensures |CharRef(t, s, attribute).out| <= CharRef(t, s, attribute).taken
  {
  }

  // ---------- in place ----------

  /** utf8.EncodeRune(b[dst:], r). */
  method PutRune(b: array<byte>, dst: nat, r: int) returns (dst1: nat)
    requires dst + |Utf8(r)| <= b.Length
    modifies b
    ensures dst1 == dst + |Utf8(r)| && b[..dst1] == old(b[..dst]) + Utf8(r) && b[dst1..] == old(b[dst1..])
  {
    var bs := Utf8(r);
    for i := 0 to |bs|
      invariant b[..dst + i] == old(b[..dst]) + bs[..i] && b[dst + |bs|..] == old(b[dst + |bs|..])
    {
      b[dst + i] := bs[i];
    }
    dst1 := dst + |bs|;
  }

  /** copy(b[dst:], b[src:src+n]), the destination not after the source. */
  method MoveDown(b: array<byte>, dst: nat, src: nat, n: nat)
    requires dst <= src && src + n <= b.Length
    modifies b
    ensures b[..dst + n] == old(b[..dst]) + old(b[src..src + n]) && b[src + n..] == old(b[src + n..])
  {
    ghost var moved, rest := b[src..src + n], b[src + n..];
    for i := 0 to n
      invariant b[..dst + i] == old(b[..dst]) + moved[..i]
      invariant forall k :: i <= k < n ==> b[src + k] == moved[k]
      invariant b[src + n..] == rest
    {
      b[dst + i] := b[src + i];
    }
  }

  /**
   What one decoding step leaves: the output extended, the unread input untouched, the write cursor not past the
   read cursor.
   */
  ghost predicate StepDone(before: seq<byte>, dst: nat, src: nat, d: Decoded, after: seq<byte>, dst1: int, src1: int) {
    && dst <= src <= |before| == |after|
    && src1 == src + d.taken && dst1 == dst + |d.out| && dst1 <= src1 <= |before|
    && after[..dst1] == before[..dst] + d.out && after[src1..] == before[src1..]
  }

  /** The digit loop, over b[src:]. */
  method ReadDigits(b: array<byte>, src: nat, i0: nat, hex: bool) returns (x: int, i: nat)
    requires src + i0 <= b.Length
    ensures (x, i) == ScanDigits(b[src..], i0, hex, 0) && src + i <= b.Length
  {
    x, i := 0, i0;
    ghost var s := b[src..];
    while src + i < b.Length
      invariant src + i <= b.Length && ScanDigits(s, i, hex, x) == ScanDigits(s, i0, hex, 0)
    {
      var c := b[src + i];
      if DigitOf(c, hex) >= 0 {
        x := NextValue(x, c, hex);
        i := i + 1;
      } else {
        if c == SEMICOLON {
          i := i + 1;
        }
        return;
      }
    }
  }

  /** The name loop, over b[src:]. */
  method ReadName(b: array<byte>, src: nat) returns (i: nat)
    requires src + 1 <= b.Length
    ensures i == ScanName(b[src..], 1) && src + i <= b.Length
  {
    i := 1;
    ghost var s := b[src..];
    while src + i < b.Length
      invariant 1 <= i && src + i <= b.Length && ScanName(s, i) == ScanName(s, 1)
    {
      var c := b[src + i];
      if IsAlnum(c) {
        i := i + 1;
      } else {
        if c == SEMICOLON {
          i := i + 1;
        }
        return;
      }
    }
  }

  /** The loop over the name's prefixes. */
  method LongestPrefix(t: Entities, name: seq<byte>) returns (j: nat)
    requires name != []
    ensures j == KnownPrefix(t, name, PrefixLimit(name))
  {
    j := PrefixLimit(name);
    while j > 1
      invariant j <= PrefixLimit(name) && KnownPrefix(t, name, j) == KnownPrefix(t, name, PrefixLimit(name))
    {
      if t.Rune(name[..j]) != 0 {
        return;
      }
      j := j - 1;
    }
    j := 0;
  }

  /** One rune in place of i bytes. */
  method PutReference(b: array<byte>, dst: nat, src: nat, i: nat, r: int) returns (dst1: nat, src1: nat)
    requires dst <= src && src + i <= b.Length && |Utf8(r)| <= i
    modifies b
    ensures StepDone(old(b[..]), dst, src, Decoded(Utf8(r), i), b[..], dst1, src1)
  {
    dst1 := PutRune(b, dst, r);
    src1 := src + i;
    assert b[src1..] == b[dst1..][src1 - dst1..];
  }

  /** Two runes in place of i bytes. */
  method PutPair(b: array<byte>, dst: nat, src: nat, i: nat, r: (int, int)) returns (dst1: nat, src1: nat)
    requires dst <= src && src + i <= b.Length && |Utf8(r.0)| + |Utf8(r.1)| <= i
    modifies b
    ensures StepDone(old(b[..]), dst, src, Decoded(Utf8(r.0) + Utf8(r.1), i), b[..], dst1, src1)
  {
    var mid := PutRune(b, dst, r.0);
    ghost var between := b[mid..];
    dst1 := PutRune(b, mid, r.1);
    src1 := src + i;
    assert b[dst1..] == between[dst1 - mid..];
    assert b[src1..] == b[dst1..][src1 - dst1..];
  }

  /** The i bytes as they are. */
  method KeepLiteral(b: array<byte>, dst: nat, src: nat, i: nat) returns (dst1: nat, src1: nat)
    requires dst <= src && src + i <= b.Length
    modifies b
    ensures StepDone(old(b[..]), dst, src, Decoded(old(b[src..])[..i], i), b[..], dst1, src1)
  {
    MoveDown(b, dst, src, i);
    dst1, src1 := dst + i, src + i;
    assert old(b[src..src + i]) == old(b[src..])[..i];
  }

  method UnescapeNumeric(b: array<byte>, dst: nat, src: nat) returns (dst1: nat, src1: nat)
    requires dst <= src && src + 1 < b.Length && b[src] == AMP && b[src + 1] == HASH
    modifies b
    ensures StepDone(old(b[..]), dst, src, Numeric(old(b[src..])), b[..], dst1, src1)
  {
    assert b[src..][..1] == [AMP];
    if b.Length - src <= 3 {
      dst1, src1 := KeepLiteral(b, dst, src, 1);
      return;
    }
    var hex := b[src + 2] == 'x' as int || b[src + 2] == 'X' as int;
    var x, i := ReadDigits(b, src, if hex then 3 else 2, hex);
    if i <= 3 {
      dst1, src1 := KeepLiteral(b, dst, src, 1);
    } else {
      dst1, src1 := PutReference(b, dst, src, i, CodePoint(x));
    }
  }

  method UnescapeNamed(t: Entities, b: array<byte>, dst: nat, src: nat, attribute: bool) returns (dst1: nat, src1: nat)
    requires Narrow(t) && dst <= src && src + 1 < b.Length && b[src] == AMP
    modifies b
    ensures StepDone(old(b[..]), dst, src, Named(t, old(b[src..]), attribute), b[..], dst1, src1)
  {
    var i := ReadName(b, src);
    var name := b[src + 1..src + i];
    assert name == b[src..][1..i];
    if name == [] {
      dst1, src1 := KeepLiteral(b, dst, src, i);
    } else if attribute && name[|name| - 1] != SEMICOLON && b.Length - src > i && b[src + i] == EQUALS {
      dst1, src1 := KeepLiteral(b, dst, src, i);
    } else if t.Rune(name) != 0 {
      dst1, src1 := PutReference(b, dst, src, i, t.Rune(name));
    } else if t.Runes(name).0 != 0 {
      dst1, src1 := PutPair(b, dst, src, i, t.Runes(name));
    } else {
      var j := 0;
      if !attribute {
        j := LongestPrefix(t, name);
      }
      if j > 0 {
        dst1, src1 := PutReference(b, dst, src, j + 1, t.Rune(name[..j]));
      } else {
        dst1, src1 := KeepLiteral(b, dst, src, i);
      }
    }
  }

  /** unescapeEntity: one reference, read at src and written at dst. */
  method UnescapeEntity(t: Entities, b: array<byte>, dst: nat, src: nat, attribute: bool) returns (dst1: nat, src1: nat)
    requires Narrow(t) && dst <= src < b.Length && b[src] == AMP
    modifies b
    ensures StepDone(old(b[..]), dst, src, CharRef(t, old(b[src..]), attribute), b[..], dst1, src1)
  {
    if b.Length - src <= 1 {
      assert b[src..][..1] == [AMP];
      dst1, src1 := KeepLiteral(b, dst, src, 1);
      return;
    }
    if b[src + 1] == HASH {
      dst1, src1 := UnescapeNumeric(b, dst, src);
    } else {
      dst1, src1 := UnescapeNamed(t, b, dst, src, attribute);
    }
  }

  // ---------- the whole text ----------

  /** What the text starts with: a reference, or one byte that stands for itself. */
  function First(t: Entities, s: seq<byte>, attribute: bool): (d: Decoded)
    requires s != []
    ensures 1 <= d.taken <= |s|
    ensures Unescaped(t, s, attribute) == d.out + Unescaped(t, s[d.taken..], attribute)
  {
    if s[0] == AMP then CharRef(t, s, attribute) else Decoded([s[0]], 1)
  }

  lemma StepKeeps(t: Entities, before: seq<byte>, dst: nat, src: nat, after: seq<byte>, dst1: nat, src1: nat,
      attribute: bool)
    requires src < |before| && StepDone(before, dst, src, First(t, before[src..], attribute), after, dst1, src1)
    ensures after[..dst1] + Unescaped(t, after[src1..], attribute)
         == before[..dst] + Unescaped(t, before[src..], attribute)
  {
    var d := First(t, before[src..], attribute);
    assert before[src..][d.taken..] == before[src1..];
    Regroup(before[..dst], d.out, Unescaped(t, after[src1..], attribute));
  }

  lemma Regroup(a: seq<byte>, b: seq<byte>, c: seq<byte>)
    ensures (a + b) + c == a + (b + c)
  {
  }

  lemma {:induction false} NoReference(t: Entities, s: seq<byte>, i: nat, attribute: bool)
    requires i <= |s| && AMP !in s[..i]
    ensures Unescaped(t, s, attribute) == s[..i] + Unescaped(t, s[i..], attribute)
    decreases i
  {
    if i > 0 {
      NoReference(t, s, i - 1, attribute);
      assert s[..i] == s[..i - 1] + [s[i - 1]] && s[i - 1..][1..] == s[i..];
      assert AMP !in s[..i - 1];
    } else {
      assert s[0..] == s;
    }
  }

  /** unescape, in place: the first n bytes afterwards are what the pure decoder makes of a copy. */
  method Unescape(t: Entities, b: array<byte>, attribute: bool) returns (n: nat)
    requires Narrow(t)
    modifies b
    ensures n <= b.Length && b[..n] == Unescaped(t, old(b[..]), attribute)
  {
    ghost var whole := b[..];
    var i := 0;
    while i < b.Length && b[i] != AMP
      invariant i <= b.Length && AMP !in b[..i] && b[..] == whole
    {
      i := i + 1;
    }
    NoReference(t, whole, i, attribute);
    var dst: nat, src: nat := i, i;
    while src < b.Length
      invariant dst <= src <= b.Length
      invariant b[..dst] + Unescaped(t, b[src..], attribute) == Unescaped(t, whole, attribute)
    {
      ghost var before, dst0, src0 := b[..], dst, src;
      dst, src := UnescapeStep(t, b, dst, src, attribute);
      StepKeeps(t, before, dst0, src0, b[..], dst, src, attribute);
    }
    assert b[src..] == [];
    n := dst;
  }

  method UnescapeStep(t: Entities, b: array<byte>, dst0: nat, src0: nat, attribute: bool) returns (dst: nat, src: nat)
    requires Narrow(t) && dst0 <= src0 < b.Length
    modifies b
    ensures StepDone(old(b[..]), dst0, src0, First(t, old(b[src0..]), attribute), b[..], dst, src)
  {
    if b[src0] == AMP {
      dst, src := UnescapeEntity(t, b, dst0, src0, attribute);
    } else {
      assert b[src0..][..1] == [b[src0]];
      dst, src := KeepLiteral(b, dst0, src0, 1);
    }
  }

  /** UnescapeString: a text without references is returned as it is. */
  method UnescapeString(t: Entities, s: seq<byte>) returns (r: seq<byte>)
    requires Narrow(t)
    ensures r == Unescaped(t, s, false)
  {
    for i := 0 to |s|
      invariant AMP !in s[..i]
    {
      if s[i] == AMP {
        var b := new byte[|s|](k requires 0 <= k < |s| => s[k]);
        assert b[..] == s;
        var n := Unescape(t, b, false);
        return b[..n];
      }
    }
    NoReference(t, s, |s|, false);
    r := s;
  }

  // ---------- escaping ----------

  const APOSTROPHE: byte := '\'' as int
  const LESS: byte := '<' as int
  const GREATER: byte := '>' as int
  const QUOTE: byte := '"' as int
  const CR: byte := '\r' as int
  const LF: byte := '\n' as int

  predicate Special(c: byte) { c == AMP || c == APOSTROPHE || c == LESS || c == GREATER || c == QUOTE || c == CR }

  /** The reference that stands for a special byte: &amp; &#39; &lt; &gt; &#34; and &#13;. */
  function Reference(c: byte): seq<byte>
    requires Special(c)
  {
    if c == AMP then [AMP] + AMP_NAME
    else if c == APOSTROPHE then [AMP, HASH, '3' as int, '9' as int, SEMICOLON]
    else if c == LESS then [AMP] + LT_NAME
    else if c == GREATER then [AMP] + GT_NAME
    else if c == QUOTE then [AMP, HASH, '3' as int, '4' as int, SEMICOLON]
    else [AMP, HASH, '1' as int, '3' as int, SEMICOLON]
  }

  const AMP_NAME: seq<byte> := ['a' as int, 'm' as int, 'p' as int, SEMICOLON]
  const LT_NAME: seq<byte> := ['l' as int, 't' as int, SEMICOLON]
  const GT_NAME: seq<byte> := ['g' as int, 't' as int, SEMICOLON]

  function Escaped(s: seq<byte>): seq<byte> {
    if s == [] then [] else (if Special(s[0]) then Reference(s[0]) else [s[0]]) + Escaped(s[1..])
  }

  lemma {:induction false} EscapedPrefix(s: seq<byte>, i: nat)
    requires i <= |s| && forall k :: 0 <= k < i ==> !Special(s[k])
    ensures Escaped(s) == s[..i] + Escaped(s[i..])
    decreases i
  {
    if i > 0 {
      EscapedPrefix(s, i - 1);
      assert s[i - 1..][0] == s[i - 1] && s[i - 1..][1..] == s[i..];
      assert Escaped(s[i - 1..]) == [s[i - 1]] + Escaped(s[i..]);
      assert s[..i] == s[..i - 1] + [s[i - 1]];
    } else {
      assert s[0..] == s;
    }
  }

  /** i is the first special byte of s, or -1 if there is none. */
  ghost predicate FirstSpecial(s: seq<byte>, i: int) {
    && -1 <= i < |s|
    && (i >= 0 ==> Special(s[i]))
    && forall k :: 0 <= k < (if i == -1 then |s| else i) ==> !Special(s[k])
  }

  lemma EscapedTurn(s: seq<byte>, i: int)
    requires FirstSpecial(s, i)
    ensures i >= 0 ==> Escaped(s) == s[..i] + Reference(s[i]) + Escaped(s[i + 1..])
    ensures i == -1 ==> Escaped(s) == s
  {
    if i >= 0 {
      EscapedPrefix(s, i);
      assert s[i..][0] == s[i] && s[i..][1..] == s[i + 1..];
      assert s[..i] + (Reference(s[i]) + Escaped(s[i + 1..])) == s[..i] + Reference(s[i]) + Escaped(s[i + 1..]);
    } else {
      EscapedPrefix(s, |s|);
      assert s[|s|..] == [];
    }
  }

  /** strings.IndexAny(s, escapedChars). */
  method IndexSpecial(s: seq<byte>) returns (i: int)
    ensures FirstSpecial(s, i)
  {
    for j := 0 to |s|
      invariant forall k :: 0 <= k < j ==> !Special(s[k])
    {
      if Special(s[j]) {
        return j;
      }
    }
    i := -1;
  }

  /** escape, the writer being the text written so far. */
  method Escape(text: seq<byte>) returns (w: seq<byte>)
    ensures w == Escaped(text)
  {
    var s := text;
    w := [];
    var i := IndexSpecial(s);
    while i != -1
      invariant w + Escaped(s) == Escaped(text) && FirstSpecial(s, i)
      decreases |s|
    {
      EscapedTurn(s, i);
      w := w + s[..i];
      w := w + Reference(s[i]);
      s := s[i + 1..];
      i := IndexSpecial(s);
    }
    EscapedTurn(s, -1);
    w := w + s;
  }

  method EscapeString(s: seq<byte>) returns (r: seq<byte>)
    ensures r == Escaped(s)
  {
    var i := IndexSpecial(s);
    EscapedTurn(s, i);
    if i == -1 {
      return s;
    }
    r := Escape(s);
  }

  /** The three names that escaping writes. */
  ghost predicate KnowsEscapes(t: Entities) {
    t.Rune(AMP_NAME) == AMP && t.Rune(LT_NAME) == LESS && t.Rune(GT_NAME) == GREATER
  }

  lemma NumericReference(c: byte, rest: seq<byte>)
    requires c == APOSTROPHE || c == QUOTE || c == CR
    ensures Numeric(Reference(c) + rest) == Decoded([c], 5)
  {
    var s := Reference(c) + rest;
    var tens: int := DigitOf(s[2], false);
    assert NextValue(0, s[2], false) == tens;
    assert NextValue(tens, s[3], false) == c;
    assert ScanDigits(s, 4, false, c) == (c as int, 5);
    assert ScanDigits(s, 3, false, tens) == (c as int, 5);
    assert ScanDigits(s, 2, false, 0) == (c as int, 5);
  }

  lemma {:induction false} NameEnds(s: seq<byte>, i: nat, k: nat)
    requires i <= k < |s| && s[k] == SEMICOLON && forall j :: i <= j < k ==> IsAlnum(s[j])
    ensures ScanName(s, i) == k + 1
    decreases k - i
  {
    if i < k {
      NameEnds(s, i + 1, k);
    }
  }

  lemma NamedReference(t: Entities, c: byte, rest: seq<byte>, attribute: bool)
    requires KnowsEscapes(t) && (c == AMP || c == LESS || c == GREATER)
    ensures Named(t, Reference(c) + rest, attribute) == Decoded([c], |Reference(c)|)
  {
    var s := Reference(c) + rest;
    NameEnds(s, 1, |Reference(c)| - 1);
    assert s[1..|Reference(c)|] == Reference(c)[1..];
  }

  lemma ReferenceDecodes(t: Entities, c: byte, rest: seq<byte>, attribute: bool)
    requires KnowsEscapes(t) && Special(c)
    ensures CharRef(t, Reference(c) + rest, attribute) == Decoded([c], |Reference(c)|)
  {
    if c == AMP || c == LESS || c == GREATER {
      NamedReference(t, c, rest, attribute);
    } else {
      NumericReference(c, rest);
    }
  }

  /** Unescaping what was escaped gives it back, for every text and in both modes. */
  lemma {:induction false} EscapeRoundTrip(t: Entities, s: seq<byte>, attribute: bool)
    requires KnowsEscapes(t)
    ensures Unescaped(t, Escaped(s), attribute) == s
  {
    if s != [] {
      var rest := Escaped(s[1..]);
      EscapeRoundTrip(t, s[1..], attribute);
      if Special(s[0]) {
        ReferenceDecodes(t, s[0], rest, attribute);
        assert (Reference(s[0]) + rest)[|Reference(s[0])|..] == rest;
      } else {
        assert ([s[0]] + rest)[1..] == rest;
      }
    }
  }

  /** No special byte but the ampersand survives escaping. */
  lemma {:induction false} EscapedIsSafe(s: seq<byte>)
    ensures forall c :: c in Escaped(s) && Special(c) ==> c == AMP
  {
    if s != [] {
      EscapedIsSafe(s[1..]);
    }
  }

  /** UnescapeString(EscapeString(s)), by the code. */
  method EscapeThenUnescape(t: Entities, s: seq<byte>) returns (r: seq<byte>)
    requires Narrow(t) && KnowsEscapes(t)
    ensures r == s
  {
    var e := EscapeString(s);
    r := UnescapeString(t, e);
    EscapeRoundTrip(t, s, false);
  }

  // ---------- newlines ----------

  /** How many bytes the first character or line end takes. */
  function Width(s: seq<byte>): nat
    requires s != []
  {
    if s[0] == CR && |s| > 1 && s[1] == LF then 2 else 1
  }

  function NewlineFor(c: byte): byte { if c == CR then LF else c }

  /** Every CR LF and every lone CR becomes one LF. */
  function Newlines(s: seq<byte>): seq<byte> {
    if s == [] then [] else [NewlineFor(s[0])] + Newlines(s[Width(s)..])
  }

  lemma {:induction false} NewlinesClean(s: seq<byte>)
    ensures CR !in Newlines(s) && |Newlines(s)| <= |s|
  {
    if s != [] {
      NewlinesClean(s[Width(s)..]);
    }
  }

  /** Text without a CR is left alone; with NewlinesClean, converting twice is converting once. */
  lemma {:induction false} NewlinesKeeps(s: seq<byte>)
    requires CR !in s
    ensures Newlines(s) == s
  {
    if s != [] {
      NewlinesKeeps(s[1..]);
    }
  }

  /** A CR LF torn between two pieces. */
  predicate Torn(a: seq<byte>, b: seq<byte>) { a != [] && b != [] && a[|a| - 1] == CR && b[0] == LF }

  lemma {:induction false} NewlinesWhole(a: seq<byte>, b: seq<byte>)
    requires !Torn(a, b)
    ensures Newlines(a + b) == Newlines(a) + Newlines(b)
  {
    if a == [] {
      assert a + b == b;
    } else {
      var k := Width(a);
      assert Width(a + b) == k && (a + b)[k..] == a[k..] + b;
      NewlinesWhole(a[k..], b);
      assert [NewlineFor(a[0])] + (Newlines(a[k..]) + Newlines(b)) == Newlines(a) + Newlines(b);
    }
  }

  /** A torn CR LF costs one LF too many. */
  lemma NewlinesTorn(front: seq<byte>, rest: seq<byte>)
    ensures Newlines(front + [CR]) == Newlines(front) + [LF]
    ensures Newlines((front + [CR]) + ([LF] + rest)) == Newlines(front) + ([LF] + Newlines(rest))
    ensures Newlines([LF] + rest) == [LF] + Newlines(rest)
  {
    NewlinesWhole(front, [CR]);
    NewlinesWhole(front, [CR, LF] + rest);
    Regroup(front, [CR], [LF] + rest);
    assert [CR] + ([LF] + rest) == [CR, LF] + rest;
    assert ([CR, LF] + rest)[2..] == rest && ([LF] + rest)[1..] == rest;
  }

  lemma TornDiffers(front: seq<byte>, rest: seq<byte>)
    ensures Newlines((front + [CR]) + ([LF] + rest)) != Newlines(front + [CR]) + Newlines([LF] + rest)
  {
    NewlinesTorn(front, rest);
    assert |Newlines(front + [CR]) + Newlines([LF] + rest)| == |Newlines(front)| + |Newlines(rest)| + 2;
  }

  /** Converting piecewise agrees with converting the whole exactly when no CR LF is torn. */
  lemma NewlinesPiecewise(a: seq<byte>, b: seq<byte>)
    ensures Newlines(a + b) == Newlines(a) + Newlines(b) <==> !Torn(a, b)
  {
    if Torn(a, b) {
      var front, rest := a[..|a| - 1], b[1..];
      assert a == front + [CR] && b == [LF] + rest;
      TornDiffers(front, rest);
    } else {
      NewlinesWhole(a, b);
    }
  }

  /** One character written at dst and its bytes read at src. */
  lemma NewlinesTurn(before: seq<byte>, dst: nat, src: nat, after: seq<byte>, src1: nat)
    requires dst <= src < |before| == |after| && dst < src1 == src + Width(before[src..])
    requires after[..dst + 1] == before[..dst] + [NewlineFor(before[src])] && after[src1..] == before[src1..]
    ensures after[..dst + 1] + Newlines(after[src1..]) == before[..dst] + Newlines(before[src..])
  {
    assert before[src..][Width(before[src..])..] == before[src1..];
    var rest := Newlines(before[src1..]);
    assert (before[..dst] + [NewlineFor(before[src])]) + rest == before[..dst] + ([NewlineFor(before[src])] + rest);
  }

  /** Writing one byte at dst, before what is still to be read at src. */
  method Put(s: array<byte>, dst: nat, c: byte, ghost src: nat)
    requires dst < src <= s.Length
    modifies s
    ensures s[..][..dst + 1] == old(s[..])[..dst] + [c] && s[..][src..] == old(s[..])[src..]
  {
    s[dst] := c;
  }

  /** One turn of the shifting loop: one byte written at dst, one or two read at src. */
  method NewlineTurn(s: array<byte>, dst: nat, src0: nat) returns (src: nat)
    requires dst < src0 < s.Length
    modifies s
    ensures src0 < src <= s.Length
    ensures s[..][..dst + 1] == old(s[..])[..dst] + [NewlineFor(old(s[src0]))]
    ensures src == src0 + Width(old(s[..])[src0..]) && s[..][src..] == old(s[..])[src..]
  {
    src := src0;
    if s[src] == CR {
      if src + 1 < s.Length && s[src + 1] == LF {
        src := src + 1;
      }
      Put(s, dst, LF, src + 1);
    } else {
      Put(s, dst, s[src], src + 1);
    }
    src := src + 1;
  }

  /** From a CR LF on, the text reads the same as from its LF on. */
  lemma NewlineFromLF(s: seq<byte>, i: nat)
    requires i + 1 < |s| && s[i] == CR && s[i + 1] == LF
    ensures Newlines(s[i..]) == Newlines(s[i + 1..])
  {
    assert s[i..][2..] == s[i + 2..] && s[i + 1..][1..] == s[i + 2..];
  }

  /** The loop that drops the LF of each CR LF, from the first one, at i. */
  method ShiftNewlines(s: array<byte>, i: nat) returns (dst: nat)
    requires i + 1 < s.Length && s[i] == CR && s[i + 1] == LF
    modifies s
    ensures dst <= s.Length && s[..dst] == old(s[..i]) + old(Newlines(s[..][i..]))
  {
    ghost var goal := s[..i] + Newlines(s[..][i..]);
    NewlineFromLF(s[..], i);
    dst := i;
    var src := i + 1;
    while src < s.Length
      invariant dst < src <= s.Length && s[..][..dst] + Newlines(s[..][src..]) == goal
      decreases s.Length - src
    {
      ghost var before, src0 := s[..], src;
      src := NewlineTurn(s, dst, src);
      NewlinesTurn(before, dst, src0, s[..], src);
      dst := dst + 1;
    }
    assert s[..][src..] == [] && s[..][..dst] == s[..dst];
  }

  /** convertNewlines, in place. */
  method ConvertNewlines(s: array<byte>) returns (n: nat)
    modifies s
    ensures n <= s.Length && s[..n] == Newlines(old(s[..]))
  {
    ghost var goal := Newlines(s[..]);
    assert s[..][0..] == s[..];
    for i := 0 to s.Length
      invariant s[..][..i] + Newlines(s[..][i..]) == goal
    {
      if s[i] == CR && i + 1 < s.Length && s[i + 1] == LF {
        n := ShiftNewlines(s, i);
        return;
      }
      ghost var before := s[..];
      Put(s, i, if s[i] == CR then LF else s[i], i + 1);
      NewlinesTurn(before, i, i, s[..], i + 1);
    }
    assert s[..][s.Length..] == [];
    n := s.Length;
  }
}
