/**
 What the tokenizer's loops promise, in stream positions: how far they may move, what they leave behind, and
 how that agrees with what the input has there.
 */
module TokenViews {
  import opened Machine
  import opened RawText
  import opened TokenBuffer
  import opened TokenSpec

  // ---------- how far a scan may move ----------

  /** Same stream and token start; the position at least `floor`; once ended, nothing moves. */
  ghost predicate Moved(v: View, w: View, floor: int) {
    && w.input == v.input && w.start == v.start && w.start <= floor <= w.pos <= |w.input|
    && (v.err != Nil ==> w.err == v.err && w.pos == v.pos)
  }

  /** Moved, with every span still at its stream positions. */
  ghost predicate Still(v: View, w: View, floor: int) {
    Moved(v, w, floor) && w.data == v.data && w.pending == v.pending && w.attrs == v.attrs
  }

  function SpotOf(v: View): Spot { Spot(v.pos, v.err != Nil) }

  /** The tokenizer stands at s, unless its reader gave up without an end. */
  ghost predicate Reads(w: View, s: Spot) { w.err != NoProgress ==> SpotOf(w) == s }

  ghost predicate Inside(s: Span, v: View) { v.start <= s.start <= s.end <= v.pos }

  ghost predicate AttrInside(a: Attr, v: View) { Inside(a.key, v) && Inside(a.val, v) }

  ghost predicate AttrsInside(v: View) {
    forall i :: 0 <= i < |v.attrs| ==> AttrInside(v.attrs[i], v) && v.attrs[i].key.start < v.attrs[i].key.end
  }

  /** One turn of the script scan has come to w: done where it stops, else in state st. */
  ghost predicate TurnIs(r: Turned, done: bool, st: ScriptState, w: View) {
    w.err != NoProgress ==> r == if done then Stops(SpotOf(w)) else To(Stage(st, w.pos))
  }

  /** i bytes of the name match from p on, and n will. */
  ghost predicate Doubled(w: View, p: int, lower: seq<byte>, upper: seq<byte>, i: nat, n: nat) {
    0 <= p && i <= |lower| == |upper| && w.pos == p + i <= |w.input| && DoubleMatch(w.input, p, lower, upper, i) == n
  }

  /** The match from p has ended at w: at the end of the input, or before a byte that differs. */
  ghost predicate DoubleStopped(w: View, p: int, lower: seq<byte>, n: nat) {
    w.err != NoProgress ==> n < |lower| && w.pos == p + n && (w.err == EOF <==> w.pos == |w.input|)
  }

  /** A scan has ended: the thing at end, the tokenizer where the scan stands. */
  ghost predicate ScanDone(w: View, end: int, r: Scan) { w.err != NoProgress ==> end == r.end && SpotOf(w) == r.spot }

  /** The data is what is found, and the tokenizer stands behind it. */
  ghost predicate FoundData(w: View, r: Found<Span>) { w.err != NoProgress ==> w.data == r.it && SpotOf(w) == r.spot }

  ghost predicate KeywordDone(w: View, matched: bool, r: Found<bool>) {
    w.err != NoProgress ==> matched == r.it && SpotOf(w) == r.spot
  }

  /** No value has been found yet: an empty span inside what has been read. */
  ghost predicate NoValue(v: View) { Inside(v.pending.val, v) && v.pending.val.start == v.pending.val.end }

  /** No value has been found yet, and the byte c has been read since. */
  ghost predicate Behind(v: View, c: byte) {
    && NoValue(v) && v.err == Nil && v.pending.val.end < v.pos <= |v.input| && 0 < v.pos && c == v.input[v.pos - 1]
  }

  /** The byte at s has been read, if there is one. */
  ghost predicate PastSpace(w: View, c: byte, s: Spot) {
    w.err != NoProgress ==>
      if w.err == Nil then !s.eof && 0 <= s.pos < |w.input| && w.pos == s.pos + 1 && c == w.input[s.pos]
      else SpotOf(w) == s
  }

  /** A value lies inside what has been read; everything else is as it was. */
  ghost predicate ValueRead(v: View, w: View) {
    w.attrs == v.attrs && w.data == v.data && w.pending.key == v.pending.key && Inside(w.pending.val, w)
  }

  /** The pending value is what is found. */
  ghost predicate FoundVal(w: View, r: Found<Span>) {
    w.err != NoProgress ==> w.pending.val == r.it && SpotOf(w) == r.spot
  }

  ghost predicate FoundPair(w: View, r: Found<Attr>) {
    w.err != NoProgress ==> w.pending == r.it && SpotOf(w) == r.spot
  }

  /** With those still to be read from w, the attributes are all. */
  ghost predicate AttrsLeft(w: View, save: bool, all: Found<seq<Attr>>) {
    w.err != NoProgress ==>
      On(w.input, SpotOf(w))
      && var r := AttributesAt(w.input, SpotOf(w), save); w.attrs + r.it == all.it && r.spot == all.spot
  }

  ghost predicate AttrsRead(w: View, all: Found<seq<Attr>>) {
    w.err != NoProgress ==> w.attrs == all.it && SpotOf(w) == all.spot
  }

  /** The end of the input, or the closing ">" read from v to w, ends the attributes. */
  lemma AttrsEnd(v: View, w: View, save: bool, all: Found<seq<Attr>>)
    requires AttrsLeft(v, save, all) && v.err == Nil && Still(v, w, v.pos)
    requires w.err == Nil ==> v.pos + 1 == w.pos && w.input[v.pos] == GT
    requires w.err == EOF ==> v.pos == |v.input| == w.pos
    ensures AttrsRead(w, all)
  {
  }

  /** Some attributes have been read, if only the closing ">". */
  ghost predicate AttrsOn(v: View, w: View) { w.data == v.data && AttrsInside(w) && (w.err == Nil ==> v.pos < w.pos) }

  /** From v one attribute has been read and saved at u, and the space behind it skipped at w. */
  lemma LeftAfterOne(v: View, u: View, w: View, save: bool, all: Found<seq<Attr>>)
    requires AttrsLeft(v, save, all) && v.err == Nil && 0 <= v.pos < |v.input| && v.input[v.pos] != GT
    requires u.input == v.input && u.attrs == v.attrs + Saved(u.pending, save) && FoundPair(u, PairAt(v.input, v.pos))
    requires w.input == u.input && w.attrs == u.attrs && (u.err != Nil ==> w.err == u.err)
    requires On(u.input, SpotOf(u)) && Reads(w, AfterSpaces(u.input, SpotOf(u)))
    ensures AttrsLeft(w, save, all)
  {
    if w.err != NoProgress {
      assert AttributesAt(v.input, SpotOf(v), save) == AttributesFrom(v.input, v.pos, save);
      var rest := AttributesAt(w.input, SpotOf(w), save);
      assert v.attrs + (Saved(u.pending, save) + rest.it) == w.attrs + rest.it;
    }
  }

  /** A tag's name ends where it should, and the tokenizer stands behind the white space. */
  ghost predicate NameRead(w: View, n: Scan) {
    w.err != NoProgress ==> w.data.end == n.end && On(w.input, n.spot) && SpotOf(w) == AfterSpaces(w.input, n.spot)
  }

  ghost predicate TagDone(w: View, r: Found<Tag>) {
    w.err != NoProgress ==> w.data == r.it.name && w.attrs == r.it.attrs && SpotOf(w) == r.spot
  }

  /** A comment has ended before w, or goes on there. */
  ghost predicate CommentTurn(w: View, done: bool, end: int, dashes: nat, r: Scan) {
    if done then end <= w.pos && ScanDone(w, end, r)
    else 0 <= w.pos <= |w.input| && CommentEnd(w.input, w.pos, dashes) == r
  }

  /** i bytes of the keyword match from p on. */
  ghost predicate Keyed(w: View, p: int, s: seq<byte>, fold: int, i: nat, r: Found<bool>) {
    0 <= p && i <= |s| && w.pos == p + i <= |w.input| && KeywordAt(w.input, p, s, fold, i) == r
  }

  /** The keyword's loop has ended, behind the byte that differs if one does. */
  ghost predicate KeywordEnds(w: View, matched: bool, r: Found<bool>) {
    w.err != NoProgress ==>
      r.it == matched && r.spot.eof == (w.err != Nil) && (matched || r.spot.eof ==> r.spot.pos == w.pos)
  }

  /** The token is the one of the step, and what is left behind is what follows it. */
  ghost predicate TokenMade(w: View, t: TokenType, rawTag: seq<byte>, textIsRaw: bool, convertNUL: bool, s: Step) {
    w.err != NoProgress ==>
      && t == s.token.tt && w.start == s.token.start && s.next == Between(SpotOf(w), rawTag)
      && (t != ErrorToken ==> w.data == s.token.data && textIsRaw == s.token.isRaw && convertNUL == s.token.converted)
      && (t == StartTagToken || t == SelfClosingTagToken ==> w.attrs == s.token.attrs)
  }

  /** What follows a start tag read up to w, and what kind it is. */
  ghost predicate KindOf(w: View, t: TokenType, rawTag: seq<byte>)
    requires 0 <= w.start <= w.pos - 2 && w.pos <= |w.input| && Inside(w.data, w)
  {
    if w.err != Nil then t == ErrorToken && rawTag == [] else
      && t == (if w.input[w.pos - 2] == SLASH then SelfClosingTagToken else StartTagToken)
      && rawTag == TagAfter(LowerAll(w.input[w.data.start..w.data.end]))
  }

  /** The start tag read up to w is the one that stands before p. */
  lemma StartTagMade(w: View, t: TokenType, rawTag: seq<byte>, p: int)
    requires 0 <= w.start == p - 2 && p <= w.pos <= |w.input| && TagDone(w, TagAt(w.input, p, true))
    requires Inside(w.data, w)
    requires KindOf(w, t, rawTag)
    ensures TokenMade(w, t, rawTag, false, false, StartTagAt(w.input, w.start, p))
  {
  }

  /** From p on two bytes have been read, or as many as there are. */
  ghost predicate TwoRead(w: View, p: int, c0: byte, c1: byte) {
    && 0 <= p <= w.pos <= |w.input|
    && (w.err == Nil ==> w.pos == p + 2 && c0 == w.input[p] && c1 == w.input[p + 1])
    && (w.err == EOF ==> w.pos == |w.input| <= p + 1)
  }

  ghost predicate MarkupDone(w: View, t: TokenType, converted0: bool, converted: bool, r: Found<Markup>) {
    w.err != NoProgress ==>
      t == r.it.tt && w.data == r.it.data && SpotOf(w) == r.spot && converted == (converted0 || r.it.converted)
  }

  /** A turn of Next's loop goes on, or the input has ended, or a "<" opens something. */
  datatype NextResult = More | Ended | Open

  /** What a turn has come to at w, o being where the first "<" stands that opens something. */
  ghost predicate OpenAhead(w: View, step: NextResult, c: byte, o: Spot) {
    match step
    case More => w.err == Nil && 0 <= w.pos <= |w.input| && FirstOpen(w.input, w.pos) == o
    case Ended => w.err != Nil && (w.err != NoProgress ==> o.eof && w.pos == |w.input|)
    case Open =>
      w.err == Nil && 2 <= w.pos <= |w.input| && o == Spot(w.pos - 2, false) && c == w.input[w.pos - 1] && Opens(c)
  }

  // ---------- tokens and pieces ----------

  ghost predicate TokenDone(w: View, t: TokenType) {
    && (t == ErrorToken ==> w.err != Nil)
    && (t != ErrorToken ==> w.start < w.pos && Inside(w.data, w))
    && (t == StartTagToken || t == SelfClosingTagToken ==> AttrsInside(w))
  }

  /** What Next owes its caller. */
  ghost predicate NextDone(v: View, w: View, t: TokenType) {
    && w.input == v.input && w.start == v.pos <= w.pos <= |w.input|
    && (v.err != Nil ==> t == ErrorToken && w.err == v.err && w.pos == v.pos)
    && TokenDone(w, t)
  }

  function Join(pieces: seq<Piece>): seq<byte> {
    if pieces == [] then [] else pieces[0].raw + Join(pieces[1..])
  }

  lemma {:induction false} JoinSnoc(pieces: seq<Piece>, s: Piece)
    ensures Join(pieces + [s]) == Join(pieces) + s.raw
  {
    if pieces == [] {
      assert Join([s]) == s.raw + Join([]);
    } else {
      assert (pieces + [s])[1..] == pieces[1..] + [s];
      JoinSnoc(pieces[1..], s);
    }
  }

  /** The token read up to w, as it is seen. */
  ghost function PieceHere(w: View, t: TokenType, textIsRaw: bool, convertNUL: bool): Piece {
    var raw := Cut(w.input, Span(w.start, w.pos));
    if t == ErrorToken then Piece(t, raw, [], [], false, false)
    else
      var attrs := if t == StartTagToken || t == SelfClosingTagToken then CutAll(w.input, w.attrs) else [];
      Piece(t, raw, Cut(w.input, w.data), attrs, textIsRaw, convertNUL)
  }

  lemma PieceSeen(w: View, t: TokenType, rawTag: seq<byte>, textIsRaw: bool, convertNUL: bool, s: Step)
    requires TokenMade(w, t, rawTag, textIsRaw, convertNUL, s)
    ensures w.err != NoProgress ==>
      && PieceHere(w, t, textIsRaw, convertNUL) == PieceOf(w.input, s)
      && s.next == Between(SpotOf(w), rawTag) && s.token.tt == t
  {
  }

  /** The pieces read up to pos, t being the last token. */
  ghost predicate Pieced(pieces: seq<Piece>, input: seq<byte>, pos: int, t: TokenType) {
    && 0 <= pos <= |input| && Join(pieces) == input[..pos]
    && (if t == ErrorToken then pieces != [] && |pieces| <= pos + 1 else |pieces| <= pos)
    && forall i :: 0 <= i < (if t == ErrorToken then |pieces| - 1 else |pieces|) ==> pieces[i].raw != []
  }

  lemma PiecedStep(pieces: seq<Piece>, input: seq<byte>, p: nat, pos: nat, t: TokenType, s: Piece)
    requires Pieced(pieces, input, p, TextToken) && p <= pos <= |input| && s.raw == input[p..pos]
    requires (t != ErrorToken ==> s.raw != [])
    ensures Pieced(pieces + [s], input, pos, t)
  {
    JoinSnoc(pieces, s);
    assert input[..pos] == input[..p] + input[p..pos];
  }
}
