/**
 What character references stand for, apart from how they are read: written numerals and their values, the code points
 of those, UTF-8 as a relation, and the names. The decoder of HtmlEscape is proved to give just that.
 */
module HtmlReferences {
  import opened Machine
  import opened HtmlEscape

  // ---------- numerals ----------

  /** The digit that a character is in the base, or -1. */
  function DigitIn(c: byte, base: int): int {
    var d := if 48 <= c <= 57 then c - 48 else if 97 <= c <= 102 then c - 87 else if 65 <= c <= 70 then c - 55 else -1;
    if d < base then d else -1
  }

  ghost predicate Digits(ds: seq<byte>, base: int) { forall k :: 0 <= k < |ds| ==> DigitIn(ds[k], base) >= 0 }

  /** The number that digits write, the most significant first. */
  function Value(ds: seq<byte>, base: int): int {
    if ds == [] then 0 else Value(ds[..|ds| - 1], base) * base + DigitIn(ds[|ds| - 1], base)
  }

  // ---------- code points ----------

  /** What a number stands for: Windows-1252 from 0x80 to 0x9F, and U+FFFD for what is no character. */
  function Meant(n: int): int {
    if n == 0 || 0xD800 <= n <= 0xDFFF || n > 0x10FFFF then 0xFFFD
    else if n == 0x80 then 0x20AC
    else if n == 0x82 then 0x201A
    else if n == 0x83 then 0x0192
    else if n == 0x84 then 0x201E
    else if n == 0x85 then 0x2026
    else if n == 0x86 then 0x2020
    else if n == 0x87 then 0x2021
    else if n == 0x88 then 0x02C6
    else if n == 0x89 then 0x2030
    else if n == 0x8A then 0x0160
    else if n == 0x8B then 0x2039
    else if n == 0x8C then 0x0152
    else if n == 0x8E then 0x017D
    else if n == 0x91 then 0x2018
    else if n == 0x92 then 0x2019
    else if n == 0x93 then 0x201C
    else if n == 0x94 then 0x201D
    else if n == 0x95 then 0x2022
    else if n == 0x96 then 0x2013
    else if n == 0x97 then 0x2014
    else if n == 0x98 then 0x02DC
    else if n == 0x99 then 0x2122
    else if n == 0x9A then 0x0161
    else if n == 0x9B then 0x203A
    else if n == 0x9C then 0x0153
    else if n == 0x9E then 0x017E
    else if n == 0x9F then 0x0178
    else n
  }

  lemma CodePointMeans(x: int)
    ensures CodePoint(x) == Meant(x)
  {
  }

  /** The bytes are a code point in the form of section 3 of RFC 3629, the shortest. */
  ghost predicate IsUtf8(bs: seq<byte>, r: int) {
    && (forall k :: 1 <= k < |bs| ==> 0x80 <= bs[k] <= 0xBF)
    && if r <= 0x7F then |bs| == 1 && bs[0] == r
       else if r <= 0x7FF then |bs| == 2 && r == Bits(bs[0], 0xC0) * 64 + Bits(bs[1], 0x80) && bs[0] <= 0xDF
       else if r <= 0xFFFF then
         && |bs| == 3 && 0xE0 <= bs[0] <= 0xEF
         && r == Bits(bs[0], 0xE0) * 4096 + Bits(bs[1], 0x80) * 64 + Bits(bs[2], 0x80)
       else
         && |bs| == 4 && 0xF0 <= bs[0] <= 0xF7
         && r == Bits(bs[0], 0xF0) * 262144 + Bits(bs[1], 0x80) * 4096 + Bits(bs[2], 0x80) * 64 + Bits(bs[3], 0x80)
  }

  /** What a byte carries beside its mark. */
  function Bits(b: int, mark: int): int { b - mark }

  /** A number in digits of base 64. */
  lemma Sixes(r: nat)
    ensures r / 4096 == r / 64 / 64 && r / 262144 == r / 64 / 64 / 64
    ensures r == r / 64 * 64 + r % 64 && r / 64 == r / 4096 * 64 + r / 64 % 64
    ensures r / 4096 == r / 262144 * 64 + r / 4096 % 64
  {
  }

  lemma ThreeBytes(r: nat)
    requires 0x7FF < r <= 0xFFFF && !(0xD800 <= r <= 0xDFFF)
    ensures IsUtf8(Utf8(r), r)
  {
    Sixes(r);
    var a, b, c := r / 4096, r / 64 % 64, r % 64;
    assert a <= 15 && Utf8(r) == [0xE0 + a, 0x80 + b, 0x80 + c];
    hide Utf8;
  }

  lemma FourBytes(r: nat)
    requires 0xFFFF < r <= 0x10FFFF
    ensures IsUtf8(Utf8(r), r)
  {
    Sixes(r);
    var a, b, c, d := r / 262144, r / 4096 % 64, r / 64 % 64, r % 64;
    assert a <= 4 && Utf8(r) == [0xF0 + a, 0x80 + b, 0x80 + c, 0x80 + d];
    hide Utf8;
  }

  /** Every character is written in UTF-8. */
  lemma Utf8Means(r: int)
    requires 0 <= r <= 0x10FFFF && !(0xD800 <= r <= 0xDFFF)
    ensures IsUtf8(Utf8(r), r)
  {
    if r > 0xFFFF {
      FourBytes(r);
    } else if r > 0x7FF {
      ThreeBytes(r);
    }
  }

  // ---------- numeric references ----------

  /** From there on k characters are digits of the base, and no more. */
  ghost predicate RunAt(s: seq<byte>, from: nat, k: nat, base: int) {
    && from + k <= |s| && (forall j :: from <= j < from + k ==> DigitIn(s[j], base) >= 0)
    && (from + k < |s| ==> DigitIn(s[from + k], base) < 0)
  }

  lemma DigitMeans(c: byte, hex: bool)
    ensures DigitOf(c, hex) == DigitIn(c, if hex then 16 else 10)
  {
  }

  lemma WrapsOn(v: int, base: int, d: int)
    requires base == 10 || base == 16
    ensures Int32(base * Int32(v) + d) == Int32(v * base + d)
  {
    var m, k := 0x1_0000_0000, (v + 0x8000_0000) / 0x1_0000_0000;
    assert Int32(v) == v - k * m;
    SameLow(v * base + d + 0x8000_0000, base * k);
    assert base * Int32(v) + d == v * base + d - (base * k) * m;
  }

  lemma SameLow(x: int, k: int)
    ensures (x - k * 0x1_0000_0000) % 0x1_0000_0000 == x % 0x1_0000_0000
  {
  }

  /** One digit more, in the code's arithmetic. */
  lemma NextMeans(ds: seq<byte>, c: byte, hex: bool)
    ensures var base := if hex then 16 else 10;
      NextValue(Int32(Value(ds, base)), c, hex) == Int32(Value(ds + [c], base))
  {
    var base := if hex then 16 else 10;
    DigitMeans(c, hex);
    assert (ds + [c])[..|ds|] == ds;
    WrapsOn(Value(ds, base), base, DigitIn(c, base));
  }

  /** The digit loop gives the value of the digits as an int32, and where they and a semicolon end. */
  lemma {:induction false} DigitsScanned(s: seq<byte>, from: nat, i: nat, hex: bool, k: nat)
    requires var base := if hex then 16 else 10; from <= i <= from + k && RunAt(s, from, k, base)
    ensures var base, end := if hex then 16 else 10, from + k;
      ScanDigits(s, i, hex, Int32(Value(s[from..i], base)))
      == (Int32(Value(s[from..end], base)), if end < |s| && s[end] == 59 then end + 1 else end)
    decreases from + k - i
  {
    if i < |s| { DigitMeans(s[i], hex); }
    if i < from + k {
      NextMeans(s[from..i], s[i], hex);
      assert s[from..i] + [s[i]] == s[from..i + 1];
      DigitsScanned(s, from, i + 1, hex, k);
    }
  }

  /** Behind "&#" x or X makes it hexadecimal. */
  predicate Hexadecimal(s: seq<byte>) { |s| > 2 && (s[2] == 120 || s[2] == 88) }

  /**
   A numeric reference, k being the number of its digits: the character that their value stands for, an int32. With too
   few characters the ampersand stays. That one decimal digit without a semicolon behind it stays too, and that "&#x;"
   has the value 0, is what the code does.
   */
  lemma NumericMeans(s: seq<byte>, k: nat)
    requires |s| > 1 && s[0] == 38 && s[1] == 35
    requires RunAt(s, if Hexadecimal(s) then 3 else 2, k, if Hexadecimal(s) then 16 else 10)
    ensures var from, base := if Hexadecimal(s) then 3 else 2, if Hexadecimal(s) then 16 else 10;
      var end := if from + k < |s| && s[from + k] == 59 then from + k + 1 else from + k;
      Numeric(s) == if |s| <= 3 || end <= 3 then Decoded([38], 1)
                    else Decoded(Utf8(Meant(Int32(Value(s[from..from + k], base)))), end)
  {
    var from, hex := if Hexadecimal(s) then 3 else 2, Hexadecimal(s);
    if |s| > 3 {
      DigitsScanned(s, from, from, hex, k);
      assert s[from..from] == [];
      CodePointMeans(Int32(Value(s[from..from + k], if hex then 16 else 10)));
    }
  }

  // ---------- named references ----------

  predicate LetterOrDigit(c: byte) { 48 <= c <= 57 || 65 <= c <= 90 || 97 <= c <= 122 }

  /** From the second character on there are letters and digits up to m, and no more. */
  ghost predicate LettersTo(s: seq<byte>, m: nat) {
    1 <= m <= |s| && (forall j :: 1 <= j < m ==> LetterOrDigit(s[j])) && (m < |s| ==> !LetterOrDigit(s[m]))
  }

  /** The name behind the ampersand ends at i: letters and digits, all there are, and a semicolon if one follows. */
  ghost predicate NameEnds(s: seq<byte>, i: nat) {
    exists m: nat :: LettersTo(s, m) && i == if m < |s| && s[m] == 59 then m + 1 else m
  }

  lemma {:induction false} NameScanned(s: seq<byte>, i: nat)
    requires 1 <= i <= |s| && forall j :: 1 <= j < i ==> LetterOrDigit(s[j])
    ensures NameEnds(s, ScanName(s, i))
    decreases |s| - i
  {
    if i < |s| && LetterOrDigit(s[i]) {
      NameScanned(s, i + 1);
    } else {
      assert LettersTo(s, i);
    }
  }

  lemma OneName(s: seq<byte>, i: nat, i2: nat)
    requires NameEnds(s, i) && NameEnds(s, i2)
    ensures i == i2
  {
  }

  /** The longest prefix of the name that is a name by itself: at least two characters, at most six, and not all. */
  ghost predicate LongestKnown(t: Entities, name: seq<byte>, j: nat) {
    && Shorter(name, j) && t.Rune(name[..j]) != 0
    && forall k: nat :: k > j && Shorter(name, k) ==> t.Rune(name[..k]) == 0
  }

  predicate Shorter(name: seq<byte>, k: nat) { 2 <= k <= 6 && k < |name| }

  /** In an attribute a name without a semicolon, before an equals sign, is none. */
  predicate AttributeText(s: seq<byte>, i: nat, attribute: bool)
    requires i <= |s|
  {
    attribute && i > 1 && s[i - 1] != 59 && i < |s| && s[i] == 61
  }

  /**
   A named reference, its name ending at i: the whole name if it is known, for one rune or for two; outside attributes
   the longest prefix that is; otherwise, and where it is text, it stays as it is.
   */
  lemma NamedMeans(t: Entities, s: seq<byte>, attribute: bool, i: nat)
    requires |s| > 1 && s[0] == 38 && NameEnds(s, i)
    ensures i <= |s|
    ensures var d, name := Named(t, s, attribute), s[1..i];
      if name == [] || AttributeText(s, i, attribute) then d == Decoded(s[..i], i)
      else if t.Rune(name) != 0 then d == Decoded(Utf8(t.Rune(name)), i)
      else if t.Runes(name).0 != 0 then d == Decoded(Utf8(t.Runes(name).0) + Utf8(t.Runes(name).1), i)
      else if attribute then d == Decoded(s[..i], i)
      else
        && (forall j: nat :: LongestKnown(t, name, j) ==> d == Decoded(Utf8(t.Rune(name[..j])), j + 1))
        && ((forall j: nat :: !LongestKnown(t, name, j)) ==> d == Decoded(s[..i], i))
  {
    NameScanned(s, 1);
    OneName(s, i, ScanName(s, 1));
    var name := s[1..i];
    if name != [] && !attribute { PrefixMeans(t, name); }
  }

  lemma PrefixMeans(t: Entities, name: seq<byte>)
    requires name != []
    ensures var j := KnownPrefix(t, name, PrefixLimit(name));
      && (j > 0 ==> LongestKnown(t, name, j))
      && forall k: nat :: LongestKnown(t, name, k) ==> k == j
  {
    var j := KnownPrefix(t, name, PrefixLimit(name));
    forall k: nat | LongestKnown(t, name, k)
      ensures k == j
    {
      assert Shorter(name, k) && k <= PrefixLimit(name);
      assert j > 0 ==> Shorter(name, j);
    }
  }

  // ---------- in a text ----------

  /** "&#", the mark for hexadecimal if wanted, the digits of n and a semicolon. */
  function Written(ds: seq<byte>, mark: seq<byte>): seq<byte> { [38, 35] + mark + ds + [59] }

  /** For every number below 2^31 and every numeral of it in either base: its character, and the text goes on. */
  lemma WrittenMeans(t: Entities, ds: seq<byte>, mark: seq<byte>, rest: seq<byte>, attribute: bool)
    requires ds != [] && (mark == [] || mark == [120] || mark == [88])
    requires var base := if mark == [] then 10 else 16; Digits(ds, base) && Value(ds, base) <= 0x7fff_ffff
    ensures var n := Value(ds, if mark == [] then 10 else 16);
      Unescaped(t, Written(ds, mark) + rest, attribute) == Utf8(Meant(n)) + Unescaped(t, rest, attribute)
  {
    var s, from, base := Written(ds, mark) + rest, 2 + |mark|, if mark == [] then 10 else 16;
    var end := from + |ds|;
    WrittenParts(ds, mark, rest);
    ValueNat(ds, base);
    NumericMeans(s, |ds|);
  }

  lemma WrittenParts(ds: seq<byte>, mark: seq<byte>, rest: seq<byte>)
    requires ds != [] && (mark == [] || mark == [120] || mark == [88]) && Digits(ds, if mark == [] then 10 else 16)
    ensures var s, from, base := Written(ds, mark) + rest, 2 + |mark|, if mark == [] then 10 else 16;
      && |s| > 3 && s[0] == 38 && s[1] == 35 && Hexadecimal(s) == (mark != []) && RunAt(s, from, |ds|, base)
      && s[from..from + |ds|] == ds && s[from + |ds|] == 59 && s[from + |ds| + 1..] == rest
  {
    var s, from, base := Written(ds, mark) + rest, 2 + |mark|, if mark == [] then 10 else 16;
    forall j | from <= j < from + |ds| ensures s[j] == ds[j - from] { }
    assert DigitIn(ds[0], base) >= 0;
  }

  lemma {:induction false} ValueNat(ds: seq<byte>, base: int)
    requires Digits(ds, base) && base > 0
    ensures Value(ds, base) >= 0
  {
    if ds != [] { ValueNat(ds[..|ds| - 1], base); }
  }

  lemma TwoDigits(a: byte, b: byte, base: int)
    ensures Value([a, b], base) == DigitIn(a, base) * base + DigitIn(b, base)
  {
    assert [a, b][..1] == [a] && [a][..0] == [];
    assert Value([a], base) == Value([], base) * base + DigitIn(a, base);
  }

  /** A numeral of two digits with the value 65, written as a reference, is the letter A. */
  lemma SixtyFive(t: Entities, a: byte, b: byte, mark: seq<byte>, attribute: bool)
    requires mark == [] || mark == [120] || mark == [88]
    requires var base := if mark == [] then 10 else 16;
      DigitIn(a, base) >= 0 && DigitIn(b, base) >= 0 && DigitIn(a, base) * base + DigitIn(b, base) == 65
    ensures Unescaped(t, Written([a, b], mark), attribute) == [65]
  {
    hide Unescaped, Utf8, Meant, Written, Value, DigitIn;
    TwoDigits(a, b, if mark == [] then 10 else 16);
    WrittenMeans(t, [a, b], mark, [], attribute);
    NothingLeft(t, attribute);
    assert Written([a, b], mark) + [] == Written([a, b], mark);
  }

  lemma NothingLeft(t: Entities, attribute: bool)
    ensures Utf8(Meant(65)) + Unescaped(t, [], attribute) == [65]
  {
  }

  /** "&#x41;" and "&#65;" are A. */
  lemma LetterA(t: Entities, attribute: bool)
    ensures Unescaped(t, [38, 35, 120, 52, 49, 59], attribute) == [65]
    ensures Unescaped(t, [38, 35, 54, 53, 59], attribute) == [65]
  {
    hide Unescaped;
    SixtyFive(t, 52, 49, [120], attribute);
    SixtyFive(t, 54, 53, [], attribute);
    assert Written([52, 49], [120]) == [38, 35, 120, 52, 49, 59] && Written([54, 53], []) == [38, 35, 54, 53, 59];
  }

  // ---------- escapes and line ends ----------

  /** The bytes of an ASCII text. */
  function Ascii(s: string): seq<int> { seq(|s|, i requires 0 <= i < |s| => s[i] as int) }

  /** What escaping writes for each special byte. */
  lemma ReferencesAre()
    ensures Reference(38) == Ascii("&amp;") && Reference(39) == Ascii("&#39;") && Reference(60) == Ascii("&lt;")
    ensures Reference(62) == Ascii("&gt;") && Reference(34) == Ascii("&#34;") && Reference(13) == Ascii("&#13;")
  {
    var amp, apos, lt, gt, quot, cr := "&amp;", "&#39;", "&lt;", "&gt;", "&#34;", "&#13;";
    assert amp[0] == '&' && amp[1] == 'a' && amp[2] == 'm' && amp[3] == 'p' && amp[4] == ';';
    assert apos[0] == '&' && apos[1] == '#' && apos[2] == '3' && apos[3] == '9' && apos[4] == ';';
    assert lt[0] == '&' && lt[1] == 'l' && lt[2] == 't' && lt[3] == ';';
    assert gt[0] == '&' && gt[1] == 'g' && gt[2] == 't' && gt[3] == ';';
    assert quot[0] == '&' && quot[1] == '#' && quot[2] == '3' && quot[3] == '4' && quot[4] == ';';
    assert cr[0] == '&' && cr[1] == '#' && cr[2] == '1' && cr[3] == '3' && cr[4] == ';';
  }

  /** s without each LF that follows a CR, and with LF for each CR, from position i on. */
  function LinesFrom(s: seq<byte>, i: nat): seq<byte>
    requires i <= |s|
    decreases |s| - i
  {
    if i == |s| then []
    else if s[i] == 10 && i > 0 && s[i - 1] == 13 then LinesFrom(s, i + 1)
    else [if s[i] == 13 then 10 else s[i]] + LinesFrom(s, i + 1)
  }

  lemma NewlinesMean(s: seq<byte>)
    ensures Newlines(s) == LinesFrom(s, 0)
  {
    NewlinesFrom(s, 0);
    assert s[0..] == s;
  }

  lemma {:induction false} NewlinesFrom(s: seq<byte>, i: nat)
    requires i <= |s| && (0 < i < |s| ==> s[i] != 10 || s[i - 1] != 13)
    ensures Newlines(s[i..]) == LinesFrom(s, i)
    decreases |s| - i
  {
    if i < |s| {
      var k := i + Width(s[i..]);
      assert s[i..][Width(s[i..])..] == s[k..];
      NewlinesFrom(s, k);
    }
  }
}
