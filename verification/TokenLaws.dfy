/**
 What tokens hold, from the bytes that stand in the input: where comments and CDATA sections end, how far names, keys
 and values go, and that a written tag is read back.
 */
module TokenLaws {
  import opened Machine
  import opened RawText
  import opened TokenBuffer
  import opened TokenSpec

  // ---------- comments ----------

  /** "-->" or "--!>" with its dashes at i; those of the opening "<!--", directly before p, may be among them. */
  predicate Closer(input: seq<byte>, p: nat, i: nat) {
    && p <= i + 2 && i + 2 < |input| && input[i] == 45 && input[i + 1] == 45
    && (input[i + 2] == 62 || (i + 3 < |input| && input[i + 2] == 33 && input[i + 3] == 62))
  }

  function CloserEnd(input: seq<byte>, i: nat): nat
    requires i + 2 < |input|
  {
    if input[i + 2] == 62 then i + 3 else i + 4
  }

  /** How many "--!" stand in a row directly before i. */
  function Bangs(input: seq<byte>, p: nat, i: nat): nat
    requires i <= |input|
  {
    if i < 3 || i <= p || input[i - 3] != 45 || input[i - 2] != 45 || input[i - 1] != 33 then 0
    else 1 + Bangs(input, p, i - 3)
  }

  /** How many dashes the scan counts before j: the one behind a counted "--!" is lost. */
  function Counted(input: seq<byte>, p: nat, j: nat): nat
    requires p <= j <= |input|
    decreases j
  {
    if j == p then 2 else if input[j - 1] == 45 && !Lost(input, p, j - 1) then Counted(input, p, j - 1) + 1 else 0
  }

  predicate Lost(input: seq<byte>, p: nat, j: nat)
    requires p <= j <= |input|
    decreases j
  {
    p < j && input[j - 1] == 33 && Counted(input, p, j - 1) >= 2
  }

  /** Behind two dashes at i. */
  lemma {:induction false} CountedTwo(input: seq<byte>, p: nat, i: nat)
    requires 2 <= p <= i + 2 <= |input| && input[p - 2] == 45 && input[p - 1] == 45
    requires input[i] == 45 && input[i + 1] == 45
    ensures Counted(input, p, i + 2) >= 2 <==> Bangs(input, p, i) % 2 == 0
    decreases i
  {
    if i >= p {
      assert Counted(input, p, i + 2) == Counted(input, p, i + 1) + 1;
      if i > p && input[i - 1] == 33 {
        CountedBack(input, p, i - 1);
        if input[i - 3] == 45 && input[i - 2] == 45 { CountedTwo(input, p, i - 3); }
      } else if i == p {
        assert Bangs(input, p, i) == 0;
      }
    } else {
      assert Bangs(input, p, i) == 0;
    }
  }

  /** Dashes that are counted are there. */
  lemma CountedBack(input: seq<byte>, p: nat, j: nat)
    requires 2 <= p <= j <= |input| && input[p - 2] == 45 && input[p - 1] == 45
    ensures Counted(input, p, j) >= 2 ==> input[j - 2] == 45 && input[j - 1] == 45
  {
    if p < j - 1 { assert Counted(input, p, j) <= Counted(input, p, j - 1) + 1; }
  }

  /** The scan from p on, at j. */
  ghost predicate CommentGoesOn(input: seq<byte>, p: nat, j: nat)
    requires p <= |input|
  {
    && p <= j <= |input|
    && CommentEnd(input, p, 2)
       == if Lost(input, p, j) then BehindBang(input, j) else CommentEnd(input, j, Counted(input, p, j))
  }

  /** A closer that closes: the number of "--!" directly before it is even. */
  predicate Closes(input: seq<byte>, p: nat, i: nat) { Closer(input, p, i) && Bangs(input, p, i) % 2 == 0 }

  /** Until a closer counts, it goes on. */
  lemma {:induction false} CommentAhead(input: seq<byte>, p: nat, j: nat)
    requires p <= j <= |input|
    requires forall i: nat :: Closer(input, p, i) && CloserEnd(input, i) <= j ==> !Closes(input, p, i)
    requires 2 <= p && input[p - 2] == 45 && input[p - 1] == 45
    ensures CommentGoesOn(input, p, j)
    decreases j
  {
    if p < j {
      CommentAhead(input, p, j - 1);
      if input[j - 1] == 62 && Counted(input, p, j - 1) >= 2 {
        CountedBack(input, p, j - 1);
        CountedTwo(input, p, j - 3);
        assert Closes(input, p, j - 3);
        assert false;
      }
      if input[j - 1] == 62 && Lost(input, p, j - 1) {
        CountedBack(input, p, j - 2);
        CountedTwo(input, p, j - 4);
        assert Closes(input, p, j - 4);
        assert false;
      }
    }
  }

  ghost predicate FirstToClose(input: seq<byte>, p: nat, i: nat) {
    Closes(input, p, i) && forall j: nat :: j < i ==> !Closes(input, p, j)
  }

  /**
   A comment ends at the first closer that closes: at the first "-->" or "--!>", unless an odd number of "--!" stands
   directly before it, of which the last has cost it a dash.
   */
  lemma CommentEnds(input: seq<byte>, p: nat, i: nat)
    requires 2 <= p <= |input| && input[p - 2] == 45 && input[p - 1] == 45
    requires FirstToClose(input, p, i)
    ensures CommentAt(input, p) == Found(Span(p, if i < p then p else i), Spot(CloserEnd(input, i), false))
  {
    CommentAhead(input, p, i + 2);
    CountedTwo(input, p, i);
    if input[i + 2] == 33 { assert BehindBang(input, i + 3) == Scan(i, Spot(i + 4, false)); }
  }

  /** Without one it ends with the input. */
  lemma CommentOpen(input: seq<byte>, p: nat)
    requires 2 <= p <= |input| && input[p - 2] == 45 && input[p - 1] == 45
    requires forall j: nat :: !Closes(input, p, j)
    ensures CommentAt(input, p).spot == Spot(|input|, true)
  {
    CommentAhead(input, p, |input|);
  }

  /** "<!--!-->" does not end there. */
  lemma CommentMissed(input: seq<byte>)
    requires input == [60, 33, 45, 45, 33, 45, 45, 62]
    ensures Closer(input, 4, 5) && CommentAt(input, 4).spot == Spot(8, true)
  {
    assert Bangs(input, 4, 2) == 0;
    CommentOpen(input, 4);
  }

  // ---------- CDATA sections ----------

  /** "]]>" stands at i. */
  predicate CdataCloses(input: seq<byte>, i: nat) {
    i + 2 < |input| && input[i] == 93 && input[i + 1] == 93 && input[i + 2] == 62
  }

  /** A CDATA section ends before the first "]]>", or with the input. */
  lemma CdataEnds(input: seq<byte>, p: nat, i: nat)
    requires p <= i && CdataCloses(input, i) && forall j: nat :: p <= j < i ==> !CdataCloses(input, j)
    ensures CdataAt(input, p) == Found(Span(p, i), Spot(i + 3, false))
  {
    CdataAhead(input, p, p, 0, i);
  }

  lemma {:induction false} CdataAhead(input: seq<byte>, p: nat, j: nat, brackets: nat, i: nat)
    requires p <= i && p <= j <= i + 2 && CdataCloses(input, i)
    requires forall k: nat :: p <= k < i ==> !CdataCloses(input, k)
    requires brackets <= j - p && (forall k :: j - brackets <= k < j ==> input[k] == 93)
    requires (brackets == 0 && j > p ==> input[j - 1] != 93) && (brackets == 1 && j > p + 1 ==> input[j - 2] != 93)
    ensures CdataEnd(input, j, brackets) == Scan(i, Spot(i + 3, false))
    decreases i + 2 - j
  {
    if j < i + 2 {
      if input[j] == 93 {
        CdataAhead(input, p, j + 1, brackets + 1, i);
      } else {
        if input[j] == 62 && brackets >= 2 { assert CdataCloses(input, j - 2); }
        CdataAhead(input, p, j + 1, 0, i);
      }
    }
  }

  /** From any position with so many brackets before it, without a "]]>" the scan reads everything. */
  lemma {:induction false} CdataOpen(input: seq<byte>, p: nat, j: nat, brackets: nat)
    requires p <= j <= |input| && forall k: nat :: p <= k ==> !CdataCloses(input, k)
    requires brackets <= j - p && (forall k :: j - brackets <= k < j ==> input[k] == 93)
    ensures CdataEnd(input, j, brackets) == Scan(|input|, Spot(|input|, true))
    decreases |input| - j
  {
    if j < |input| {
      if input[j] == 93 {
        CdataOpen(input, p, j + 1, brackets + 1);
      } else {
        if input[j] == 62 && brackets >= 2 { assert CdataCloses(input, j - 2); }
        CdataOpen(input, p, j + 1, 0);
      }
    }
  }

  // ---------- scans ----------

  /** White space. */
  predicate Blank(c: byte) { c == 32 || c == 10 || c == 13 || c == 9 || c == 12 }

  /** What ends a tag name, a key, a bare value, a quoted value, or text up to an angle bracket. */
  predicate EndsScan(target: Target, c: byte) {
    match target
    case Name => Blank(c) || c == 47 || c == 62
    case Key => Blank(c) || c == 47 || c == 61 || c == 62
    case Bare => Blank(c) || c == 62
    case Quoted(quote) => c == quote
    case Angle => c == 62
  }

  /** Whether that byte is left: a slash or ">" behind a name, "=" or ">" behind a key, ">" behind a bare value. */
  predicate Left(target: Target, c: byte) {
    match target
    case Name => c == 47 || c == 62
    case Key => c == 61 || c == 62
    case Bare => c == 62
    case _ => false
  }

  /** The scan ends at the first byte that ends it, or with the input. */
  lemma {:induction false} ScanMeans(target: Target, input: seq<byte>, p: nat, e: nat)
    requires p <= e <= |input| && forall j :: p <= j < e ==> !EndsScan(target, input[j])
    requires e < |input| ==> EndsScan(target, input[e])
    ensures ScanFor(target, input, p)
      == Scan(e, if e == |input| then Spot(e, true) else Spot(if Left(target, input[e]) then e else e + 1, false))
    decreases e - p
  {
    if p < e { ScanMeans(target, input, p + 1, e); }
  }

  /** White space ends at the first other byte. */
  lemma {:induction false} SpacesMean(input: seq<byte>, p: nat, e: nat)
    requires p <= e < |input| && (forall j :: p <= j < e ==> Blank(input[j])) && !Blank(input[e])
    ensures SpacesEnd(input, p) == Spot(e, false)
    decreases e - p
  {
    if p < e { SpacesMean(input, p + 1, e); }
  }

  /** "<" and a letter, "/", "!" or "?" stand at i. */
  predicate Begins(input: seq<byte>, i: nat) {
    && i + 1 < |input| && input[i] == 60
    && var c := input[i + 1]; 97 <= c <= 122 || 65 <= c <= 90 || c == 47 || c == 33 || c == 63
  }

  /** Text outside raw text goes up to the first such "<", or to the end of the input. */
  lemma {:induction false} TextEnds(input: seq<byte>, p: nat, e: nat)
    requires p <= e <= |input| && (e < |input| ==> Begins(input, e))
    requires forall j: nat :: p <= j < e ==> !Begins(input, j)
    ensures FirstOpen(input, p) == Spot(e, e == |input|)
    decreases e - p
  {
    if p < e {
      assert !Begins(input, p);
      TextEnds(input, p + 1, e);
    }
  }

  // ---------- written tags ----------

  /** Keys and values. */
  type Attrs = seq<(seq<byte>, seq<byte>)>

  /** Attributes as a token writes them, and the end of the tag. */
  function AttrsWritten(attrs: Attrs, slash: bool): seq<byte> {
    if attrs == [] then if slash then [47, 62] else [62]
    else [32] + attrs[0].0 + [61, 34] + attrs[0].1 + [34] + AttrsWritten(attrs[1..], slash)
  }

  /** "<" and the name, or a start tag's whole text. */
  function TagWritten(name: seq<byte>, attrs: Attrs, slash: bool): seq<byte> {
    [60] + name + AttrsWritten(attrs, slash)
  }

  predicate NameText(s: seq<byte>) {
    s != [] && (97 <= s[0] <= 122 || 65 <= s[0] <= 90) && forall i :: 0 <= i < |s| ==> !EndsScan(Name, s[i])
  }

  predicate KeyText(s: seq<byte>) { s != [] && forall i :: 0 <= i < |s| ==> !EndsScan(Key, s[i]) }

  /** Keys that can be read back, and values without a double quote. */
  predicate AttrTexts(attrs: Attrs) {
    forall i :: 0 <= i < |attrs| ==> KeyText(attrs[i].0) && 34 !in attrs[i].1
  }

  /** These bytes stand at p. */
  predicate StandsAt(input: seq<byte>, p: nat, s: seq<byte>) { p + |s| <= |input| && input[p..p + |s|] == s }

  lemma StandsIn(input: seq<byte>, p: nat, a: seq<byte>, b: seq<byte>)
    requires StandsAt(input, p, a + b)
    ensures StandsAt(input, p, a) && StandsAt(input, p + |a|, b)
    ensures forall i :: 0 <= i < |a| ==> input[p + i] == a[i]
  {
    var n := |a|;
    assert input[p..p + n] == (a + b)[..n] && input[p + n..p + n + |b|] == (a + b)[n..];
    forall i | 0 <= i < n ensures input[p + i] == a[i] { assert input[p..p + n + |b|][i] == a[i]; }
  }

  /** A scan over bytes that do not end it, up to one that does. */
  lemma ScanOver(target: Target, input: seq<byte>, p: nat, s: seq<byte>)
    requires StandsAt(input, p, s) && (forall i :: 0 <= i < |s| ==> !EndsScan(target, s[i]))
    requires p + |s| < |input| && EndsScan(target, input[p + |s|])
    ensures ScanFor(target, input, p)
      == Scan(p + |s|, Spot(if Left(target, input[p + |s|]) then p + |s| else p + |s| + 1, false))
  {
    forall j | p <= j < p + |s| ensures !EndsScan(target, input[j]) { assert input[j] == input[p..p + |s|][j - p]; }
    ScanMeans(target, input, p, p + |s|);
  }

  /** The bytes of a key, "=" and a value in double quotes. */
  lemma PairBytes(input: seq<byte>, p: nat, key: seq<byte>, val: seq<byte>)
    requires StandsAt(input, p, key + ([61, 34] + (val + [34])))
    ensures var k, v := p + |key|, p + |key| + 2;
      && StandsAt(input, p, key) && StandsAt(input, v, val) && v + |val| < |input|
      && input[k] == 61 && input[k + 1] == 34 && input[v + |val|] == 34 && (key != [] ==> input[p] == key[0])
  {
    var k, v := p + |key|, p + |key| + 2;
    StandsIn(input, p, key, [61, 34] + (val + [34]));
    StandsIn(input, k, [61, 34], val + [34]);
    StandsIn(input, v, val, [34]);
    assert input[k] == [61, 34][0] && input[k + 1] == [61, 34][1] && input[v + |val|] == [34][0];
    if key != [] { assert input[p + 0] == key[0]; }
  }

  /** They are read so. */
  lemma PairReads(input: seq<byte>, p: nat, key: seq<byte>, val: seq<byte>)
    requires KeyText(key) && 34 !in val && StandsAt(input, p, key + ([61, 34] + (val + [34])))
    ensures p < |input| && input[p] != GT
    ensures var k, v := p + |key|, p + |key| + 2;
      PairAt(input, p) == Found(Attr(Span(p, k), Span(v, v + |val|)), Spot(v + |val| + 1, false))
  {
    PairBytes(input, p, key, val);
    hide StandsAt, ScanFor;
    var k, v := p + |key|, p + |key| + 2;
    assert !EndsScan(Key, key[0]);
    ScanOver(Key, input, p, key);
    ScanOver(Quoted(34), input, v, val);
  }

  /** A slash before the end of the tag reads as an attribute without a key, which is not kept. */
  lemma NoKey(input: seq<byte>, p: nat, save: bool)
    requires p + 1 < |input| && input[p] == 47 && input[p + 1] == 62
    ensures AttributesAt(input, SpacesEnd(input, p), save) == Found([], Spot(p + 2, false))
  {
    assert SpacesEnd(input, p) == Spot(p, false) && SpacesEnd(input, p + 1) == Spot(p + 1, false);
    assert PairAt(input, p) == Found(Attr(Span(p, p), Span(p + 1, p + 1)), Spot(p + 1, false));
    assert AttributesAt(input, Spot(p + 1, false), save) == Found([], Spot(p + 2, false));
    hide PairAt;
    assert Saved(Attr(Span(p, p), Span(p + 1, p + 1)), save) + [] == [];
  }

  /** Only the end of the tag. */
  lemma NoAttrs(input: seq<byte>, p: nat, slash: bool, save: bool)
    requires StandsAt(input, p, AttrsWritten([], slash))
    ensures AttributesAt(input, SpacesEnd(input, p), save) == Found([], Spot(p + |AttrsWritten([], slash)|, false))
  {
    if slash {
      StandsIn(input, p, [47, 62], []);
      assert [47, 62] + [] == AttrsWritten([], slash);
      assert input[p + 0] == [47, 62][0] && input[p + 1] == [47, 62][1];
      NoKey(input, p, save);
    } else {
      StandsIn(input, p, [62], []);
      assert [62] + [] == AttrsWritten([], slash);
      assert input[p + 0] == [62][0];
      assert SpacesEnd(input, p) == Spot(p, false);
    }
  }

  /** Where the first attribute stands, and the rest. */
  lemma FirstWritten(input: seq<byte>, p: nat, attrs: Attrs, slash: bool)
    requires attrs != [] && AttrTexts(attrs) && StandsAt(input, p, AttrsWritten(attrs, slash))
    ensures var key, val := attrs[0].0, attrs[0].1;
      && p + 1 < |input| && input[p] == 32 && !Blank(input[p + 1]) && SpacesEnd(input, p) == Spot(p + 1, false)
      && KeyText(key) && key != [] && 34 !in val && StandsAt(input, p + 1, key + ([61, 34] + (val + [34])))
      && StandsAt(input, p + 1 + |key| + 3 + |val|, AttrsWritten(attrs[1..], slash))
  {
    var key, val, rest := attrs[0].0, attrs[0].1, AttrsWritten(attrs[1..], slash);
    var pair := key + ([61, 34] + (val + [34]));
    assert AttrsWritten(attrs, slash) == [32] + (pair + rest);
    hide AttrsWritten;
    StandsIn(input, p, [32], pair + rest);
    StandsIn(input, p + 1, pair, rest);
    assert input[p] == [32][0] && input[p + 1] == pair[0] == key[0];
    SpacesMean(input, p, p + 1);
  }

  /** One attribute, and those behind it. */
  lemma OneThenMore(input: seq<byte>, p: nat, a: Attr, q: nat)
    requires p < |input| && input[p] != GT && a.key.start < a.key.end && q <= |input|
    requires PairAt(input, p) == Found(a, Spot(q, false))
    ensures var rest := AttributesAt(input, SpacesEnd(input, q), true);
      AttributesAt(input, Spot(p, false), true) == Found([a] + rest.it, rest.spot)
  {
  }

  lemma NoCuts(input: seq<byte>)
    ensures CutAll(input, []) == []
  {
  }

  lemma CutMore(input: seq<byte>, a: Attr, rest: seq<Attr>)
    ensures CutAll(input, [a] + rest) == [(Cut(input, a.key), Cut(input, a.val))] + CutAll(input, rest)
  {
  }

  /** The rest of a tag is read as it was written, from where white space ends. */
  lemma {:induction false} AttrsRead(input: seq<byte>, p: nat, attrs: Attrs, slash: bool)
    requires AttrTexts(attrs) && StandsAt(input, p, AttrsWritten(attrs, slash))
    ensures var r := AttributesAt(input, SpacesEnd(input, p), true);
      CutAll(input, r.it) == attrs && r.spot == Spot(p + |AttrsWritten(attrs, slash)|, false)
    decreases |attrs|
  {
    hide AttributesAt, CutAll, StandsAt, PairAt, Cut, SpacesEnd, Blank, KeyText;
    if attrs == [] {
      NoAttrs(input, p, slash, true);
      NoCuts(input);
    } else {
      var key, val, rest := attrs[0].0, attrs[0].1, AttrsWritten(attrs[1..], slash);
      var q := p + 1 + |key| + 3 + |val|;
      FirstWritten(input, p, attrs, slash);
      PairReads(input, p + 1, key, val);
      AttrsRead(input, q, attrs[1..], slash);
      var a := Attr(Span(p + 1, p + 1 + |key|), Span(q - 1 - |val|, q - 1));
      OneThenMore(input, p + 1, a, q);
      CutMore(input, a, AttributesAt(input, SpacesEnd(input, q), true).it);
      PairCut(input, p + 1, key, val);
    }
  }

  lemma PairCut(input: seq<byte>, p: nat, key: seq<byte>, val: seq<byte>)
    requires StandsAt(input, p, key + ([61, 34] + (val + [34])))
    ensures Cut(input, Span(p, p + |key|)) == key && Cut(input, Span(p + |key| + 2, p + |key| + 2 + |val|)) == val
  {
    StandsIn(input, p, key, [61, 34] + (val + [34]));
    StandsIn(input, p + |key|, [61, 34], val + [34]);
    StandsIn(input, p + |key| + 2, val, [34]);
  }

  /** The name of a written tag, and what comes behind it. */
  lemma NameReads(input: seq<byte>, p: nat, name: seq<byte>, attrs: Attrs, slash: bool)
    requires NameText(name) && StandsAt(input, p, name + AttrsWritten(attrs, slash))
    ensures StandsAt(input, p, name) && StandsAt(input, p + |name|, AttrsWritten(attrs, slash))
    ensures var n := ScanFor(Name, input, p + 1); var q := p + |name|;
      n.end == q && q < |input| && AfterSpaces(input, n.spot) == SpacesEnd(input, q)
  {
    var q, tail := p + |name|, AttrsWritten(attrs, slash);
    StandsIn(input, p, name, tail);
    assert name == [name[0]] + name[1..];
    StandsIn(input, p, [name[0]], name[1..]);
    assert input[q] == input[q..q + |tail|][0] == tail[0];
    ScanOver(Name, input, p + 1, name[1..]);
  }

  lemma TagFound(input: seq<byte>, p: nat, name: seq<byte>, attrs: Attrs, slash: bool)
    requires NameText(name) && AttrTexts(attrs) && StandsAt(input, p, name + AttrsWritten(attrs, slash))
    ensures StandsAt(input, p, name) && p + 1 <= |input|
    ensures var r := TagAt(input, p + 1, true);
      && r.spot == Spot(p + |name| + |AttrsWritten(attrs, slash)|, false) && r.it.name == Span(p, p + |name|)
      && CutAll(input, r.it.attrs) == attrs
  {
    hide AttributesAt, SpacesEnd, AttrsWritten, NameText, AttrTexts, CutAll, StandsAt, ScanFor, AfterSpaces;
    NameReads(input, p, name, attrs, slash);
    AttrsRead(input, p + |name|, attrs, slash);
  }

  /** The token that begins at p has that text, and is seen so. */
  ghost predicate ReadAs(input: seq<byte>, p: nat, cdata: bool, text: seq<byte>, tt: TokenType, data: seq<byte>,
                         attrs: Attrs)
  {
    && p <= |input|
    && var s := TokenAt(input, Between(Spot(p, false), []), cdata);
       s.next.spot == Spot(p + |text|, false) && PieceOf(input, s) == Piece(tt, text, data, attrs, false, false)
  }

  /** What is seen of a step. */
  lemma StepSeen(input: seq<byte>, s: Step, data: seq<byte>, text: seq<byte>)
    requires var t := s.token;
      && 0 <= t.start && StandsAt(input, t.start, text) && 0 <= t.data.start && StandsAt(input, t.data.start, data)
      && t.data.end == t.data.start + |data| && s.next.spot == Spot(t.start + |text|, false)
      && t.tt != ErrorToken && !t.isRaw && !t.converted
    ensures var t := s.token; var tag := t.tt == StartTagToken || t.tt == SelfClosingTagToken;
      PieceOf(input, s) == Piece(t.tt, text, data, if tag then CutAll(input, t.attrs) else [], false, false)
  {
  }

  /** The token at a "<" and a name. */
  lemma TagStep(input: seq<byte>, p: nat, name: seq<byte>, e: nat, cdata: bool)
    requires NameText(name) && StandsAt(input, p + 1, name) && p < |input| && input[p] == 60 && p + 2 < e
    requires var r := TagAt(input, p + 2, true); r.spot == Spot(e, false) && r.it.name == Span(p + 1, p + 1 + |name|)
    ensures var r := TagAt(input, p + 2, true); var s := TokenAt(input, Between(Spot(p, false), []), cdata);
      && e <= |input| && s.next.spot == r.spot
      && var tt := if input[e - 2] == SLASH then SelfClosingTagToken else StartTagToken;
         s.token == Token(tt, p, r.it.name, r.it.attrs, false, false)
  {
    assert input[p + 1] == input[p + 1..p + 1 + |name|][0] == name[0];
    TextEnds(input, p, p);
  }

  /** The byte before the end of the tag. */
  lemma SlashLast(input: seq<byte>, p: nat, name: seq<byte>, attrs: Attrs, slash: bool)
    requires NameText(name) && AttrTexts(attrs) && StandsAt(input, p, name + AttrsWritten(attrs, slash))
    ensures var e := p + |name| + |AttrsWritten(attrs, slash)|; p + 2 <= e && (input[e - 2] == 47 <==> slash)
  {
    hide AttrsWritten, AttrTexts;
    var w, q := AttrsWritten(attrs, slash), p + |name|;
    LastButOne(attrs, slash);
    StandsIn(input, p, name, w);
    if |w| > 1 {
      assert input[q..q + |w|][|w| - 2] == w[|w| - 2];
    } else {
      assert input[p + (|name| - 1)] == name[|name| - 1] && !EndsScan(Name, name[|name| - 1]);
    }
  }

  lemma {:induction false} LastButOne(attrs: Attrs, slash: bool)
    ensures var w := AttrsWritten(attrs, slash); w != [] && (attrs == [] && !slash ==> |w| == 1)
    ensures var w := AttrsWritten(attrs, slash); attrs != [] || slash ==> |w| > 1 && (w[|w| - 2] == 47 <==> slash)
    decreases |attrs|
  {
    if attrs != [] { LastButOne(attrs[1..], slash); }
  }

  /** The token of a written tag. */
  lemma TagToken(input: seq<byte>, p: nat, name: seq<byte>, attrs: Attrs, slash: bool, cdata: bool)
    requires NameText(name) && AttrTexts(attrs) && StandsAt(input, p, [60] + (name + AttrsWritten(attrs, slash)))
    ensures p <= |input| && StandsAt(input, p + 1, name)
    ensures var s := TokenAt(input, Between(Spot(p, false), []), cdata);
      var tt := if slash then SelfClosingTagToken else StartTagToken;
      && s.next.spot == Spot(p + 1 + |name| + |AttrsWritten(attrs, slash)|, false)
      && s.token == Token(tt, p, Span(p + 1, p + 1 + |name|), s.token.attrs, false, false)
      && CutAll(input, s.token.attrs) == attrs
  {
    hide TokenAt, TagAt, CutAll, AttrsWritten, NameText, AttrTexts, StandsAt;
    StandsIn(input, p, [60], name + AttrsWritten(attrs, slash));
    assert input[p + 0] == [60][0];
    TagFound(input, p + 1, name, attrs, slash);
    SlashLast(input, p + 1, name, attrs, slash);
    TagStep(input, p, name, p + 1 + |name| + |AttrsWritten(attrs, slash)|, cdata);
  }

  /**
   A start tag that has been written is read back: its name, its keys and its values, whether it closes itself, and
   where it ends, whatever follows.
   */
  lemma TagReads(input: seq<byte>, p: nat, name: seq<byte>, attrs: Attrs, slash: bool, cdata: bool)
    requires NameText(name) && AttrTexts(attrs) && StandsAt(input, p, TagWritten(name, attrs, slash))
    ensures var tt := if slash then SelfClosingTagToken else StartTagToken;
      ReadAs(input, p, cdata, TagWritten(name, attrs, slash), tt, name, attrs)
  {
    var w := AttrsWritten(attrs, slash);
    assert TagWritten(name, attrs, slash) == [60] + (name + w);
    hide TokenAt, PieceOf, CutAll, AttrsWritten, NameText, AttrTexts, TagWritten, StandsAt;
    TagToken(input, p, name, attrs, slash, cdata);
    StepSeen(input, TokenAt(input, Between(Spot(p, false), []), cdata), name, [60] + (name + w));
  }

  /** What "</" and a name come to. */
  lemma EndStep(input: seq<byte>, p: nat, n: nat, cdata: bool)
    requires Begins(input, p) && input[p + 1] == 47 && p + 2 < |input| && n > 0 && NameText([input[p + 2]])
    requires TagAt(input, p + 3, false) == Found(Tag(Span(p + 2, p + 2 + n), []), Spot(p + n + 3, false))
    ensures TokenAt(input, Between(Spot(p, false), []), cdata)
      == Plain(EndTagToken, p, Span(p + 2, p + 2 + n), Between(Spot(p + n + 3, false), []))
  {
    assert [input[p + 2]][0] == input[p + 2];
    TextEnds(input, p, p);
    hide TagAt, Begins, FirstOpen;
  }

  /** A name and ">". */
  lemma BareFound(input: seq<byte>, p: nat, name: seq<byte>)
    requires NameText(name) && StandsAt(input, p, name + [62])
    ensures p + 1 <= |input| && StandsAt(input, p, name) && input[p] == name[0]
    ensures TagAt(input, p + 1, false) == Found(Tag(Span(p, p + |name|), []), Spot(p + |name| + 1, false))
  {
    assert AttrsWritten([], false) == [62];
    NameReads(input, p, name, [], false);
    NoAttrs(input, p + |name|, false, false);
    assert input[p..p + |name|][0] == name[0];
    hide ScanFor, AttributesAt, SpacesEnd, NameText, AfterSpaces, StandsAt;
  }

  /** An end tag that has been written is read back. */
  lemma EndTagReads(input: seq<byte>, p: nat, name: seq<byte>, cdata: bool)
    requires NameText(name) && StandsAt(input, p, [60, 47] + (name + [62]))
    ensures ReadAs(input, p, cdata, [60, 47] + (name + [62]), EndTagToken, name, [])
  {
    hide TokenAt, TagAt, StandsAt, PieceOf;
    StandsIn(input, p, [60, 47], name + [62]);
    assert input[p + 0] == [60, 47][0] && input[p + 1] == [60, 47][1];
    BareFound(input, p + 2, name);
    EndStep(input, p, |name|, cdata);
    StepSeen(input, TokenAt(input, Between(Spot(p, false), []), cdata), name, [60, 47] + (name + [62]));
  }

  /** What "<!--" comes to. */
  lemma CommentStepAt(input: seq<byte>, p: nat, data: Span, e: nat, cdata: bool)
    requires p + 4 <= |input| && input[p] == 60 && input[p + 1] == 33 && input[p + 2] == 45 && input[p + 3] == 45
    requires CommentAt(input, p + 4) == Found(data, Spot(e, false))
    ensures TokenAt(input, Between(Spot(p, false), []), cdata)
      == Plain(CommentToken, p, data, Between(Spot(e, false), []))
  {
    TextEnds(input, p, p);
    hide CommentAt, FirstOpen;
  }

  /** So is a comment, if nothing in it closes it before its end. */
  lemma CommentReads(input: seq<byte>, p: nat, data: seq<byte>, cdata: bool)
    requires StandsAt(input, p, [60, 33, 45, 45] + (data + [45, 45, 62]))
    requires FirstToClose(input, p + 4, p + 4 + |data|)
    ensures ReadAs(input, p, cdata, [60, 33, 45, 45] + (data + [45, 45, 62]), CommentToken, data, [])
  {
    hide TokenAt, FirstToClose, CommentAt, PieceOf, StandsAt;
    var q := p + 4;
    var open: seq<byte> := [60, 33, 45, 45];
    StandsIn(input, p, open, data + [45, 45, 62]);
    StandsIn(input, q, data, [45, 45, 62]);
    assert input[p + 0] == open[0] && input[p + 1] == open[1] && input[p + 2] == open[2] && input[p + 3] == open[3];
    StandsIn(input, q + |data|, [45, 45, 62], []);
    assert input[q + |data| + 2] == [45, 45, 62][2];
    CommentEnds(input, q, q + |data|);
    CommentStepAt(input, p, Span(q, q + |data|), q + |data| + 3, cdata);
    StepSeen(input, TokenAt(input, Between(Spot(p, false), []), cdata), data, open + (data + [45, 45, 62]));
  }

  // ---------- declarations and raw text ----------

  /** A keyword stands there, each byte as it is or `fold` above. */
  ghost predicate KeywordStands(input: seq<byte>, p: nat, s: seq<byte>, fold: int) {
    p + |s| <= |input| && forall j :: 0 <= j < |s| ==> KeyByte(input, p, s, fold, j)
  }

  predicate KeyByte(input: seq<byte>, p: nat, s: seq<byte>, fold: int, j: nat)
    requires j < |s| && p + j < |input|
  {
    input[p + j] == s[j] || input[p + j] == s[j] + fold
  }

  lemma {:induction false} KeywordMeans(input: seq<byte>, p: nat, s: seq<byte>, fold: int, i: nat)
    requires i <= |s| && p + i <= |input| && forall j :: 0 <= j < i ==> KeyByte(input, p, s, fold, j)
    ensures KeywordAt(input, p, s, fold, i).it <==> KeywordStands(input, p, s, fold)
    decreases |s| - i
  {
    if i < |s| && p + i < |input| && KeyByte(input, p, s, fold, i) { KeywordMeans(input, p, s, fold, i + 1); }
  }

  /** "DOCTYPE" in letters of either case. */
  predicate Doctype(s: seq<byte>) {
    && |s| == 7 && (s[0] == 68 || s[0] == 100) && (s[1] == 79 || s[1] == 111) && (s[2] == 67 || s[2] == 99)
    && (s[3] == 84 || s[3] == 116) && (s[4] == 89 || s[4] == 121) && (s[5] == 80 || s[5] == 112)
    && (s[6] == 69 || s[6] == 101)
  }

  lemma DoctypeWord(input: seq<byte>, p: nat)
    requires p + 7 <= |input|
    ensures KeywordStands(input, p, Bytes("DOCTYPE"), CASE) <==> Doctype(input[p..p + 7])
  {
    var w := "DOCTYPE";
    assert w[0] == 'D' && w[1] == 'O' && w[2] == 'C' && w[3] == 'T' && w[4] == 'Y' && w[5] == 'P' && w[6] == 'E';
    assert Bytes(w) == [68, 79, 67, 84, 89, 80, 69];
    hide Bytes;
    var s: seq<byte> := [68, 79, 67, 84, 89, 80, 69];
    assert KeywordStands(input, p, s, CASE) ==>
      KeyByte(input, p, s, CASE, 0) && KeyByte(input, p, s, CASE, 1) && KeyByte(input, p, s, CASE, 2)
      && KeyByte(input, p, s, CASE, 3) && KeyByte(input, p, s, CASE, 4) && KeyByte(input, p, s, CASE, 5)
      && KeyByte(input, p, s, CASE, 6);
  }

  /** "[CDATA[". */
  predicate Cdata(s: seq<byte>) {
    && |s| == 7 && s[0] == 91 && s[1] == 67 && s[2] == 68 && s[3] == 65 && s[4] == 84 && s[5] == 65 && s[6] == 91
  }

  lemma CdataWord(input: seq<byte>, p: nat)
    requires p + 7 <= |input|
    ensures KeywordStands(input, p, Bytes("[CDATA["), 0) <==> Cdata(input[p..p + 7])
  {
    var w := "[CDATA[";
    assert w[0] == '[' && w[1] == 'C' && w[2] == 'D' && w[3] == 'A' && w[4] == 'T' && w[5] == 'A' && w[6] == '[';
    assert Bytes(w) == [91, 67, 68, 65, 84, 65, 91];
    hide Bytes;
    var s: seq<byte> := [91, 67, 68, 65, 84, 65, 91];
    assert KeywordStands(input, p, s, 0) ==>
      KeyByte(input, p, s, 0, 0) && KeyByte(input, p, s, 0, 1) && KeyByte(input, p, s, 0, 2)
      && KeyByte(input, p, s, 0, 3) && KeyByte(input, p, s, 0, 4) && KeyByte(input, p, s, 0, 5)
      && KeyByte(input, p, s, 0, 6);
  }

  /** The seven bytes at p, if there are so many. */
  function Seven(input: seq<byte>, p: nat): seq<byte> { if p + 7 <= |input| then input[p..p + 7] else [] }

  /** A declaration is a doctype or a CDATA section exactly by its keyword, and a comment otherwise. */
  lemma MarkupMeans(input: seq<byte>, p: nat, cdata: bool)
    requires p <= |input|
    ensures var m := MarkupAt(input, p, cdata).it;
      m.tt == (if Doctype(Seven(input, p)) then DoctypeToken
               else if cdata && Cdata(Seven(input, p)) then TextToken else CommentToken)
      && m.converted == (m.tt == TextToken)
  {
    KeywordMeans(input, p, Bytes("DOCTYPE"), CASE, 0);
    KeywordMeans(input, p, Bytes("[CDATA["), 0, 0);
    if p + 7 <= |input| {
      DoctypeWord(input, p);
      CdataWord(input, p);
    }
    hide Bytes, KeywordStands;
  }

  /** What "DOCTYPE " comes to, its data beginning at d with no white space. */
  lemma DoctypeFound(input: seq<byte>, p: nat, d: nat, e: nat, cdata: bool)
    requires p + 8 == d <= e < |input| && Doctype(input[p..p + 7]) && Blank(input[p + 7]) && !Blank(input[d])
    requires input[e] == 62 && forall j :: d <= j < e ==> input[j] != 62
    ensures MarkupAt(input, p, cdata) == Found(Markup(DoctypeToken, Span(d, e), false), Spot(e + 1, false))
  {
    KeywordMeans(input, p, Bytes("DOCTYPE"), CASE, 0);
    DoctypeWord(input, p);
    SpacesMean(input, p + 7, d);
    ScanMeans(Angle, input, d, e);
    assert input[p..p + 7][0] == input[p];
    hide Bytes, KeywordStands, KeywordAt, SpacesEnd, ScanFor, Blank;
  }

  /** What "<!DOCTYPE " comes to. */
  lemma DoctypeStep(input: seq<byte>, p: nat, d: nat, e: nat, cdata: bool)
    requires p + 10 == d <= e < |input| && input[p] == 60 && input[p + 1] == 33
    requires MarkupAt(input, p + 2, cdata) == Found(Markup(DoctypeToken, Span(d, e), false), Spot(e + 1, false))
    ensures TokenAt(input, Between(Spot(p, false), []), cdata)
      == Plain(DoctypeToken, p, Span(d, e), Between(Spot(e + 1, false), []))
  {
    TextEnds(input, p, p);
    hide FirstOpen, MarkupAt;
  }

  /** So is a doctype, if its data is not empty, does not begin with white space and has no ">". */
  lemma DoctypeReads(input: seq<byte>, p: nat, data: seq<byte>, cdata: bool)
    requires StandsAt(input, p, [60, 33, 68, 79, 67, 84, 89, 80, 69, 32] + (data + [62]))
    requires data != [] && !Blank(data[0]) && 62 !in data
    ensures ReadAs(input, p, cdata, [60, 33, 68, 79, 67, 84, 89, 80, 69, 32] + (data + [62]), DoctypeToken, data, [])
  {
    var open: seq<byte> := [60, 33, 68, 79, 67, 84, 89, 80, 69, 32];
    var d, e := p + 10, p + 10 + |data|;
    StandsIn(input, p, open, data + [62]);
    StandsIn(input, d, data, [62]);
    assert input[p..d] == open && input[p + 2..p + 9] == open[2..9];
    assert input[p + 0] == open[0] && input[p + 1] == open[1] && input[p + 9] == open[9] && input[d + 0] == data[0];
    assert input[e..e + 1] == [62];
    forall j | d <= j < e ensures input[j] != 62 { assert input[j] == input[d..e][j - d]; }
    hide TokenAt, PieceOf, StandsAt, MarkupAt;
    DoctypeFound(input, p + 2, d, e, cdata);
    DoctypeStep(input, p, d, e, cdata);
    StepSeen(input, TokenAt(input, Between(Spot(p, false), []), cdata), data, open + (data + [62]));
  }

  /** The tags whose content is raw text, by name. */
  lemma RawNames(name: seq<byte>)
    ensures TagAfter(name) == if
      || name == Bytes("iframe") || name == Bytes("noembed") || name == Bytes("noframes") || name == Bytes("noscript")
      || name == Bytes("plaintext") || name == Bytes("script") || name == Bytes("style") || name == Bytes("textarea")
      || name == Bytes("title") || name == Bytes("xmp") then name else []
  {
    hide Bytes;
    assert name == Bytes("iframe") ==> name == Bytes(RAW_NAMES[0]);
    assert name == Bytes("noembed") ==> name == Bytes(RAW_NAMES[1]);
    assert name == Bytes("noframes") ==> name == Bytes(RAW_NAMES[2]);
    assert name == Bytes("noscript") ==> name == Bytes(RAW_NAMES[3]);
    assert name == Bytes("plaintext") ==> name == Bytes(RAW_NAMES[4]);
    assert name == Bytes("script") ==> name == Bytes(RAW_NAMES[5]);
    assert name == Bytes("style") ==> name == Bytes(RAW_NAMES[6]);
    assert name == Bytes("textarea") ==> name == Bytes(RAW_NAMES[7]);
    assert name == Bytes("title") ==> name == Bytes(RAW_NAMES[8]);
    assert name == Bytes("xmp") ==> name == Bytes(RAW_NAMES[9]);
  }
}
