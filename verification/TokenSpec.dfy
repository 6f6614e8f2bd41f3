/**
 What the tokenizer makes of its input: every scan and every token as a function of the input bytes and the state
 between tokens. The tokenizer over the sliding buffer is proved to follow it, so that how a reader splits the input
 does not matter.
 */
module TokenSpec {
  import opened Machine
  import opened RawText
  import opened TokenBuffer

  datatype TokenType = ErrorToken | TextToken | StartTagToken | EndTagToken | SelfClosingTagToken | CommentToken |
    DoctypeToken

  // ---------- bytes ----------

  const BANG: byte := '!' as int
  const QUERY: byte := '?' as int
  const DASH: byte := '-' as int
  const EQ: byte := '=' as int
  const QUOT: byte := '"' as int
  const APOS: byte := 39
  const RBRACKET: byte := ']' as int

  predicate IsUpper(c: byte) { 'A' as int <= c <= 'Z' as int }

  predicate IsLetter(c: byte) { 'a' as int <= c <= 'z' as int || IsUpper(c) }

  function Lower(c: byte): byte { if IsUpper(c) then c + CASE else c }

  function LowerAll(s: seq<byte>): (r: seq<byte>)
    ensures |r| == |s|
  {
    seq(|s|, i requires 0 <= i < |s| => Lower(s[i]))
  }

  function Bytes(s: string): (r: seq<byte>)
    ensures |r| == |s|
  {
    seq(|s|, i requires 0 <= i < |s| => (s[i] as int) % 256)
  }

  // ---------- positions ----------

  /** Where a scan stands, and whether it has tried to read past the end of the input. */
  datatype Spot = Spot(pos: int, eof: bool)

  predicate On(input: seq<byte>, s: Spot) { 0 <= s.pos <= |input| }

  /** Where white space ends. */
  function SpacesEnd(input: seq<byte>, p: nat): (s: Spot)
    requires p <= |input|
    ensures On(input, s) && p <= s.pos && (!s.eof ==> s.pos < |input| && !IsSpace(input[s.pos]))
    decreases |input| - p
  {
    if p == |input| then Spot(p, true) else if IsSpace(input[p]) then SpacesEnd(input, p + 1) else Spot(p, false)
  }

  function AfterSpaces(input: seq<byte>, s: Spot): (s1: Spot)
    requires On(input, s)
    ensures On(input, s1) && s.pos <= s1.pos
  {
    if s.eof then s else SpacesEnd(input, s.pos)
  }

  // ---------- names, keys, values ----------

  /** What a scan looks for: the end of a tag name, a key, a bare value, a quoted value, or the next ">". */
  datatype Target = Name | Key | Bare | Quoted(quote: byte) | Angle

  /** It goes on, ends before a byte that it takes, or ends before a byte that it leaves. */
  datatype Action = Go | Take | Leave

  function ActionAt(target: Target, c: byte): Action {
    match target
    case Name => if IsSpace(c) then Take else if c == SLASH || c == GT then Leave else Go
    case Key => if IsSpace(c) || c == SLASH then Take else if c == EQ || c == GT then Leave else Go
    case Bare => if IsSpace(c) then Take else if c == GT then Leave else Go
    case Quoted(quote) => if c == quote then Take else Go
    case Angle => if c == GT then Take else Go
  }

  /** Where the thing ends, and where the scan stands then. */
  datatype Scan = Scan(end: int, spot: Spot)

  function ScanFor(target: Target, input: seq<byte>, p: nat): (r: Scan)
    requires p <= |input|
    ensures On(input, r.spot) && p <= r.end <= r.spot.pos
    decreases |input| - p
  {
    if p == |input| then Scan(p, Spot(p, true))
    else
      match ActionAt(target, input[p])
      case Go => ScanFor(target, input, p + 1)
      case Take => Scan(p, Spot(p + 1, false))
      case Leave => Scan(p, Spot(p, false))
  }

  datatype Found<T> = Found(it: T, spot: Spot)

  /** The value behind a key, if there is an equals sign; there may be none, which is then where the key ended. */
  function ValueAt(input: seq<byte>, s: Spot): (r: Found<Span>)
    requires On(input, s)
    ensures On(input, r.spot) && s.pos <= r.spot.pos
  {
    var s1 := AfterSpaces(input, s);
    if s1.eof then Found(Span(s.pos, s.pos), s1) else ValueFrom(input, s1.pos, s.pos)
  }

  function ValueFrom(input: seq<byte>, p: nat, none: int): (r: Found<Span>)
    requires p < |input|
    ensures On(input, r.spot) && p <= r.spot.pos
  {
    if input[p] != EQ then Found(Span(none, none), Spot(p, false)) else ValueAfterEquals(input, p + 1, none)
  }

  function ValueAfterEquals(input: seq<byte>, p: nat, none: int): (r: Found<Span>)
    requires p <= |input|
    ensures On(input, r.spot) && p <= r.spot.pos
  {
    var s := SpacesEnd(input, p);
    if s.eof then Found(Span(none, none), s) else QuotedOrBare(input, s.pos, none)
  }

  function QuotedOrBare(input: seq<byte>, p: nat, none: int): (r: Found<Span>)
    requires p < |input|
    ensures On(input, r.spot) && p <= r.spot.pos
  {
    if input[p] == GT then Found(Span(none, none), Spot(p, false))
    else if input[p] == APOS || input[p] == QUOT then
      var r := ScanFor(Quoted(input[p]), input, p + 1);
      Found(Span(p + 1, r.end), r.spot)
    else
      var r := ScanFor(Bare, input, p + 1);
      Found(Span(p, r.end), r.spot)
  }

  /** A key and its value, at a byte that is no ">". */
  function PairAt(input: seq<byte>, p: nat): (r: Found<Attr>)
    requires p < |input| && input[p] != GT
    ensures On(input, r.spot) && p <= r.spot.pos && (!r.spot.eof ==> p < r.spot.pos)
  {
    var k := ScanFor(Key, input, p);
    var v := ValueAt(input, k.spot);
    Found(Attr(Span(p, k.end), v.it), v.spot)
  }

  /** The attributes up to and including the closing ">"; those without a key are not kept. */
  function AttributesAt(input: seq<byte>, s: Spot, save: bool): (r: Found<seq<Attr>>)
    requires On(input, s)
    ensures On(input, r.spot) && s.pos <= r.spot.pos && (!r.spot.eof ==> s.pos < r.spot.pos)
    decreases |input| - s.pos, if s.eof then 0 else 1
  {
    if s.eof then Found([], s)
    else if s.pos == |input| then Found([], Spot(s.pos, true))
    else if input[s.pos] == GT then Found([], Spot(s.pos + 1, false))
    else AttributesFrom(input, s.pos, save)
  }

  /** The same at a byte that is no ">": one attribute, and those behind it. */
  function AttributesFrom(input: seq<byte>, p: nat, save: bool): (r: Found<seq<Attr>>)
    requires p < |input| && input[p] != GT
    ensures On(input, r.spot) && p <= r.spot.pos && (!r.spot.eof ==> p < r.spot.pos)
    decreases |input| - p, 0
  {
    var a := PairAt(input, p);
    var rest := AttributesAt(input, AfterSpaces(input, a.spot), save);
    Found(Saved(a.it, save) + rest.it, rest.spot)
  }

  function Saved(a: Attr, save: bool): seq<Attr> { if save && a.key.start != a.key.end then [a] else [] }

  /** The name and the attributes of a tag whose name's first byte stands before p. */
  datatype Tag = Tag(name: Span, attrs: seq<Attr>)

  function TagAt(input: seq<byte>, p: nat, save: bool): (r: Found<Tag>)
    requires 1 <= p <= |input|
    ensures On(input, r.spot) && p <= r.spot.pos && p - 1 < r.it.name.end <= r.spot.pos && r.it.name.start == p - 1
    ensures !r.spot.eof ==> p < r.spot.pos
  {
    var n := ScanFor(Name, input, p);
    var a := AttributesAt(input, AfterSpaces(input, n.spot), save);
    Found(Tag(Span(p - 1, n.end), a.it), a.spot)
  }

  // ---------- markup declarations ----------

  /** Where a comment's data ends, so many dashes having just been read. */
  function CommentEnd(input: seq<byte>, p: nat, dashes: nat): (r: Scan)
    requires p <= |input|
    ensures On(input, r.spot) && p <= r.spot.pos && r.end <= r.spot.pos
    decreases |input| - p
  {
    if p == |input| then Scan(p - Min(dashes, 2), Spot(p, true))
    else if input[p] == DASH then CommentEnd(input, p + 1, dashes + 1)
    else if input[p] == GT && dashes >= 2 then Scan(p + 1 - 3, Spot(p + 1, false))
    else if input[p] == BANG && dashes >= 2 then BehindBang(input, p + 1)
    else CommentEnd(input, p + 1, 0)
  }

  /** The same behind "--!". */
  function BehindBang(input: seq<byte>, p: nat): (r: Scan)
    requires p <= |input|
    ensures On(input, r.spot) && p <= r.spot.pos && r.end <= r.spot.pos
    decreases |input| - p
  {
    if p == |input| then Scan(p, Spot(p, true))
    else if input[p] == GT then Scan(p + 1 - 4, Spot(p + 1, false))
    else CommentEnd(input, p + 1, 0)
  }

  /** A comment behind its "<!--"; a negative length is none. */
  function CommentAt(input: seq<byte>, p: nat): (r: Found<Span>)
    requires p <= |input|
    ensures On(input, r.spot) && p <= r.spot.pos
  {
    var r := CommentEnd(input, p, 2);
    Found(Span(p, if r.end < p then p else r.end), r.spot)
  }

  /** The bytes of a keyword from its i-th on; where they differ the scan is back at p. */
  function KeywordAt(input: seq<byte>, p: nat, s: seq<byte>, fold: int, i: nat): (r: Found<bool>)
    requires p + i <= |input| && i <= |s|
    ensures On(input, r.spot) && p <= r.spot.pos && (r.it ==> r.spot == Spot(p + |s|, false))
    ensures !r.it && !r.spot.eof ==> r.spot.pos == p
    decreases |s| - i
  {
    if i == |s| then Found(true, Spot(p + i, false))
    else if p + i == |input| then Found(false, Spot(p + i, true))
    else if input[p + i] != s[i] && input[p + i] != s[i] + fold then Found(false, Spot(p, false))
    else KeywordAt(input, p, s, fold, i + 1)
  }

  /** What stands up to the next ">". */
  function UpToAngle(input: seq<byte>, s: Spot): (r: Found<Span>)
    requires On(input, s)
    ensures On(input, r.spot) && s.pos <= r.spot.pos
  {
    if s.eof then Found(Span(s.pos, s.pos), s)
    else
      var r := ScanFor(Angle, input, s.pos);
      Found(Span(s.pos, r.end), r.spot)
  }

  /** A doctype's data behind the keyword. */
  function DoctypeAt(input: seq<byte>, p: nat): (r: Found<Span>)
    requires p <= |input|
    ensures On(input, r.spot) && p <= r.spot.pos
  {
    UpToAngle(input, SpacesEnd(input, p))
  }

  /** Where a CDATA section's data ends, so many closing brackets having just been read. */
  function CdataEnd(input: seq<byte>, p: nat, brackets: nat): (r: Scan)
    requires p <= |input|
    ensures On(input, r.spot) && p <= r.spot.pos
    decreases |input| - p
  {
    if p == |input| then Scan(p, Spot(p, true))
    else if input[p] == RBRACKET then CdataEnd(input, p + 1, brackets + 1)
    else if input[p] == GT && brackets >= 2 then Scan(p + 1 - 3, Spot(p + 1, false))
    else CdataEnd(input, p + 1, 0)
  }

  function CdataAt(input: seq<byte>, p: nat): (r: Found<Span>)
    requires p <= |input|
    ensures On(input, r.spot) && p <= r.spot.pos
  {
    var r := CdataEnd(input, p, 0);
    Found(Span(p, r.end), r.spot)
  }

  /** The token that begins with "<!", behind that, and whether its NULs are converted. */
  datatype Markup = Markup(tt: TokenType, data: Span, converted: bool)

  function MarkupAt(input: seq<byte>, p: nat, allowCDATA: bool): (r: Found<Markup>)
    requires p <= |input|
    ensures On(input, r.spot) && p <= r.spot.pos
  {
    if p + 1 >= |input| then Found(Markup(CommentToken, Span(p, |input|), false), Spot(|input|, true))
    else if input[p] == DASH && input[p + 1] == DASH then Comment(CommentAt(input, p + 2))
    else DoctypeOrBogusAt(input, p, allowCDATA)
  }

  function Comment(r: Found<Span>): Found<Markup> { Found(Markup(CommentToken, r.it, false), r.spot) }

  function DoctypeOrBogusAt(input: seq<byte>, p: nat, allowCDATA: bool): (r: Found<Markup>)
    requires p <= |input|
    ensures On(input, r.spot) && p <= r.spot.pos
  {
    var d := KeywordAt(input, p, Bytes("DOCTYPE"), CASE, 0);
    if d.it then
      var r := DoctypeAt(input, d.spot.pos);
      Found(Markup(DoctypeToken, r.it, false), r.spot)
    else CdataOrBogusAt(input, d.spot, allowCDATA)
  }

  function CdataOrBogusAt(input: seq<byte>, s: Spot, allowCDATA: bool): (r: Found<Markup>)
    requires On(input, s)
    ensures On(input, r.spot) && s.pos <= r.spot.pos
  {
    if s.eof || !allowCDATA then Bogus(input, s)
    else
      var c := KeywordAt(input, s.pos, Bytes("[CDATA["), 0, 0);
      if c.it then
        var r := CdataAt(input, c.spot.pos);
        Found(Markup(TextToken, r.it, true), r.spot)
      else Bogus(input, c.spot)
  }

  function Bogus(input: seq<byte>, s: Spot): (r: Found<Markup>)
    requires On(input, s)
    ensures On(input, r.spot) && s.pos <= r.spot.pos
  {
    Comment(UpToAngle(input, s))
  }

  // ---------- script text ----------

  datatype ScriptState =
    | Data | LessThanSign | EndTagOpen | EscapeStart | EscapeStartDash
    | Escaped | EscapedDash | EscapedDashDash | EscapedLessThanSign | EscapedEndTagOpen
    | DoubleEscapeStart | DoubleEscaped | DoubleEscapedDash | DoubleEscapedDashDash
    | DoubleEscapedLessThanSign | DoubleEscapeEnd

  /** How many bytes of the token have been read on entering a state, so that it can back up. */
  function Entered(st: ScriptState): nat {
    match st
    case EndTagOpen => 2 case EscapedEndTagOpen => 2 case DoubleEscapeEnd => 2
    case LessThanSign => 1 case EscapedLessThanSign => 1 case DoubleEscapedLessThanSign => 1 case DoubleEscapeStart => 1
    case _ => 0
  }

  /** The position a state really works from: DoubleEscapeStart begins by stepping back. */
  function Eff(st: ScriptState, pos: int): int { if st == DoubleEscapeStart then pos - 1 else pos }

  function Rank(st: ScriptState): nat {
    match st
    case Data => 0 case Escaped => 1 case DoubleEscaped => 1 case DoubleEscapeStart => 2
    case _ => 3
  }

  /** What a state that reads one byte does with it: the next state, and whether the byte is given back. */
  function ScriptNext(st: ScriptState, c: byte): (ScriptState, bool) {
    match st
    case Data => (if c == LT then LessThanSign else Data, false)
    case LessThanSign =>
      if c == SLASH then (EndTagOpen, false) else if c == BANG then (EscapeStart, false) else (Data, true)
    case EscapeStart => if c == DASH then (EscapeStartDash, false) else (Data, true)
    case EscapeStartDash => if c == DASH then (EscapedDashDash, false) else (Data, true)
    case Escaped => (if c == DASH then EscapedDash else if c == LT then EscapedLessThanSign else Escaped, false)
    case EscapedDash => (if c == DASH then EscapedDashDash else if c == LT then EscapedLessThanSign else Escaped, false)
    case EscapedDashDash =>
      (if c == DASH then EscapedDashDash else if c == LT then EscapedLessThanSign
       else if c == GT then Data else Escaped, false)
    case EscapedLessThanSign =>
      if c == SLASH then (EscapedEndTagOpen, false)
      else if IsLetter(c) then (DoubleEscapeStart, false)
      else (Data, true)
    case DoubleEscaped =>
      (if c == DASH then DoubleEscapedDash else if c == LT then DoubleEscapedLessThanSign else DoubleEscaped, false)
    case DoubleEscapedDash =>
      (if c == DASH then DoubleEscapedDashDash else if c == LT then DoubleEscapedLessThanSign else DoubleEscaped, false)
    case DoubleEscapedDashDash =>
      (if c == DASH then DoubleEscapedDashDash else if c == LT then DoubleEscapedLessThanSign
       else if c == GT then Data else DoubleEscaped, false)
    case DoubleEscapedLessThanSign => if c == SLASH then (DoubleEscapeEnd, false) else (DoubleEscaped, true)
    case _ => (st, false)
  }

  /** A later state of the script scan: further on, or equally far and of lower rank. */
  predicate Later(st: ScriptState, pos: int, st2: ScriptState, pos2: int) {
    Eff(st, pos) < Eff(st2, pos2) || (Eff(st, pos) == Eff(st2, pos2) && Rank(st2) < Rank(st))
  }

  predicate TagState(st: ScriptState) { st == EndTagOpen || st == EscapedEndTagOpen || st == DoubleEscapeEnd }

  /** A state that reads one byte goes to a later one, and no further back than that one may step. */
  lemma ScriptNextLater(st: ScriptState, c: byte, pos: int)
    requires !TagState(st) && st != DoubleEscapeStart
    ensures var (st2, back) := ScriptNext(st, c);
      var pos2 := if back then pos else pos + 1;
      Later(st, pos, st2, pos2) && Entered(st2) - Entered(st) <= pos2 - pos
  {
  }

  /** How many bytes from p on are those of a name in lower or upper case, byte by byte; i of them are known to be. */
  function DoubleMatch(input: seq<byte>, p: nat, lower: seq<byte>, upper: seq<byte>, i: nat): (n: nat)
    requires p + i <= |input| && i <= |lower| == |upper|
    ensures i <= n <= |lower| && p + n <= |input|
    decreases |lower| - i
  {
    if i == |lower| || p + i == |input| || (input[p + i] != lower[i] && input[p + i] != upper[i]) then i
    else DoubleMatch(input, p, lower, upper, i + 1)
  }

  /** A state of the script scan and where it stands. */
  datatype Stage = Stage(st: ScriptState, pos: int)

  /** One turn of the script scan: the next stage, or where it stops. */
  datatype Turned = To(stage: Stage) | Stops(spot: Spot)

  function AfterTag(st: ScriptState): ScriptState {
    if st == EndTagOpen then Data else if st == EscapedEndTagOpen then Escaped else DoubleEscaped
  }

  /** A state that looks for the closing tag, whose name is the tag. */
  function TagTurn(input: seq<byte>, st: ScriptState, p: nat, tag: seq<byte>): (r: Turned)
    requires 2 <= p <= |input| && TagState(st)
    ensures match r
      case To(g) => 0 <= g.pos <= |input| && p - Entered(st) <= g.pos - Entered(g.st) && Later(st, p, g.st, g.pos)
      case Stops(s) => On(input, s)
  {
    if EndTagAt(input, p, tag) then
      if st == DoubleEscapeEnd then To(Stage(Escaped, p + |tag| + 1)) else Stops(Spot(p - 2, false))
    else
      var q := p + Match(input, p, tag, 0);
      if q == |input| then Stops(Spot(q, true)) else To(Stage(AfterTag(st), q))
  }

  /** The state that looks for a name, in lower or upper case, from one byte back. */
  function DoubleStartTurn(input: seq<byte>, p: nat, lower: seq<byte>, upper: seq<byte>): (r: Turned)
    requires 1 <= p <= |input| && 1 <= |lower| == |upper|
    ensures match r
      case To(g) => 0 <= g.pos <= |input| && p - 1 <= g.pos - Entered(g.st) && Later(DoubleEscapeStart, p, g.st, g.pos)
      case Stops(s) => On(input, s)
  {
    var n := DoubleMatch(input, p - 1, lower, upper, 0);
    if n == |lower| then DoubleCloseTurn(input, p - 1 + n)
    else if p - 1 + n == |input| then Stops(Spot(|input|, true))
    else To(Stage(Escaped, p - 1 + n))
  }

  /** What that turn comes to, the name beginning at p. */
  ghost predicate DoubleStarts(input: seq<byte>, p: int, lower: seq<byte>, upper: seq<byte>, r: Turned)
    requires |lower| == |upper|
  {
    && 0 <= p <= |input|
    && var n := DoubleMatch(input, p, lower, upper, 0);
       r == if n == |lower| then DoubleCloseTurn(input, p + n)
            else if p + n == |input| then Stops(Spot(p + n, true)) else To(Stage(Escaped, p + n))
  }

  /** Behind that name. */
  function DoubleCloseTurn(input: seq<byte>, q: nat): (r: Turned)
    requires q <= |input|
    ensures match r
      case To(g) => q <= g.pos <= |input| && (g.st == Escaped || g.st == DoubleEscaped)
      case Stops(s) => On(input, s)
  {
    if q == |input| then Stops(Spot(q, true))
    else if IsSpace(input[q]) || input[q] == SLASH || input[q] == GT then To(Stage(DoubleEscaped, q + 1))
    else To(Stage(Escaped, q))
  }

  /** A state that reads one byte. */
  function ByteTurn(input: seq<byte>, st: ScriptState, p: nat): (r: Turned)
    requires Entered(st) <= p <= |input| && !TagState(st) && st != DoubleEscapeStart
    ensures match r
      case To(g) => 0 <= g.pos <= |input| && p - Entered(st) <= g.pos - Entered(g.st) && Later(st, p, g.st, g.pos)
      case Stops(s) => On(input, s)
  {
    if p == |input| then Stops(Spot(p, true))
    else
      ScriptNextLater(st, input[p], p);
      var (st2, back) := ScriptNext(st, input[p]);
      To(Stage(st2, if back then p else p + 1))
  }

  /** A turn of the scan for the end tag with that name, lower-case and upper-case. */
  function ScriptTurn(input: seq<byte>, lower: seq<byte>, upper: seq<byte>, st: ScriptState, p: nat): (r: Turned)
    requires Entered(st) <= p <= |input| && 1 <= |lower| == |upper|
    ensures match r
      case To(g) => 0 <= g.pos <= |input| && p - Entered(st) <= g.pos - Entered(g.st) && Later(st, p, g.st, g.pos)
      case Stops(s) => On(input, s)
  {
    if TagState(st) then TagTurn(input, st, p, lower)
    else if st == DoubleEscapeStart then DoubleStartTurn(input, p, lower, upper)
    else ByteTurn(input, st, p)
  }

  /** Where the script scan stops when it goes on from a stage. */
  function ScriptEnd(input: seq<byte>, lower: seq<byte>, upper: seq<byte>, st: ScriptState, p: nat): (s: Spot)
    requires Entered(st) <= p <= |input| && 1 <= |lower| == |upper|
    ensures On(input, s)
    decreases |input| - Eff(st, p), Rank(st)
  {
    match ScriptTurn(input, lower, upper, st, p)
    case To(g) => ScriptEnd(input, lower, upper, g.st, g.pos)
    case Stops(s) => s
  }

  // ---------- tokens ----------

  /** Tags whose content is raw text. */
  const RAW_NAMES: seq<string> :=
    ["iframe", "noembed", "noframes", "noscript", "plaintext", "script", "style", "textarea", "title", "xmp"]

  predicate OneOf(name: seq<byte>, ss: seq<string>) { exists i :: 0 <= i < |ss| && name == Bytes(ss[i]) }

  predicate RawName(name: seq<byte>) { OneOf(name, RAW_NAMES) }

  /** The tag names that readStartTag looks for after a first letter. */
  function RawFrom(c: byte): (ss: seq<string>) {
    if c == 'i' as int then ["iframe"]
    else if c == 'n' as int then ["noembed", "noframes", "noscript"]
    else if c == 'p' as int then ["plaintext"]
    else if c == 's' as int then ["script", "style"]
    else if c == 't' as int then ["textarea", "title"]
    else if c == 'x' as int then ["xmp"]
    else []
  }

  /** Looking by the first letter misses none of them. */
  lemma RawByFirst(name: seq<byte>)
    requires name != []
    ensures OneOf(name, RawFrom(name[0])) <==> RawName(name)
  {
    var ss := RawFrom(name[0]);
    if RawName(name) {
      var i :| 0 <= i < |RAW_NAMES| && name == Bytes(RAW_NAMES[i]);
      assert name[0] == (RAW_NAMES[i][0] as int) % 256;
      assert RAW_NAMES[i] in ss;
    }
    if OneOf(name, ss) {
      var i :| 0 <= i < |ss| && name == Bytes(ss[i]);
      assert ss[i] in RAW_NAMES;
    }
  }

  /** The tag whose raw text follows a start tag with that name. */
  function TagAfter(name: seq<byte>): seq<byte> { if RawName(name) then name else [] }

  /** Between two tokens: where the input stands, and the tag whose raw text follows, if any. */
  datatype Between = Between(spot: Spot, rawTag: seq<byte>)

  /** A token: its type, where it begins, its data, a start tag's attributes, and how its text is to be read. */
  datatype Token = Token(tt: TokenType, start: int, data: Span, attrs: seq<Attr>, isRaw: bool, converted: bool)

  /** A token, and what follows it. */
  datatype Step = Step(token: Token, next: Between)

  function Plain(tt: TokenType, start: int, data: Span, next: Between): Step {
    Step(Token(tt, start, data, [], false, false), next)
  }

  /** At the end of the input: the text that is left, or the error token. */
  function AtEnd(input: seq<byte>, start: int, rawTag: seq<byte>): Step {
    var next := Between(Spot(|input|, true), rawTag);
    if start < |input| then Plain(TextToken, start, Span(start, |input|), next)
    else Plain(ErrorToken, start, Span(start, start), next)
  }

  function StartTagAt(input: seq<byte>, start: int, p: nat): (r: Step)
    requires 2 <= p <= |input|
    ensures On(input, r.next.spot) && p <= r.next.spot.pos
  {
    var r := TagAt(input, p, true);
    var name := LowerAll(input[r.it.name.start..r.it.name.end]);
    if r.spot.eof then Step(Token(ErrorToken, start, r.it.name, r.it.attrs, false, false), Between(r.spot, []))
    else
      var tt := if input[r.spot.pos - 2] == SLASH then SelfClosingTagToken else StartTagToken;
      Step(Token(tt, start, r.it.name, r.it.attrs, false, false), Between(r.spot, TagAfter(name)))
  }

  function CommentStep(start: int, r: Found<Span>): Step { Plain(CommentToken, start, r.it, Between(r.spot, [])) }

  /** What begins with "</", behind that. */
  function EndTagAfter(input: seq<byte>, start: int, p: nat): (r: Step)
    requires 2 <= p <= |input|
    ensures On(input, r.next.spot) && p <= r.next.spot.pos
  {
    if p == |input| then AtEnd(input, start, []) else EndTagFrom(input, start, p)
  }

  function EndTagFrom(input: seq<byte>, start: int, p: nat): (r: Step)
    requires 2 <= p < |input|
    ensures On(input, r.next.spot) && p <= r.next.spot.pos
  {
    if input[p] == GT then Plain(CommentToken, start, Span(start, start), Between(Spot(p + 1, false), []))
    else if IsLetter(input[p]) then
      var r := TagAt(input, p + 1, false);
      Plain(if r.spot.eof then ErrorToken else EndTagToken, start, r.it.name, Between(r.spot, []))
    else CommentStep(start, UpToAngle(input, Spot(p, false)))
  }

  function DeclaredStep(start: int, r: Found<Markup>): Step {
    Step(Token(r.it.tt, start, r.it.data, [], false, r.it.converted), Between(r.spot, []))
  }

  predicate Opens(c: byte) { IsLetter(c) || c == SLASH || c == BANG || c == QUERY }

  /** The token that "<c" at p begins. */
  function Opened(input: seq<byte>, p: nat, allowCDATA: bool): (r: Step)
    requires p + 2 <= |input| && Opens(input[p + 1])
    ensures On(input, r.next.spot) && p + 1 <= r.next.spot.pos
  {
    if IsLetter(input[p + 1]) then StartTagAt(input, p, p + 2)
    else if input[p + 1] == SLASH then EndTagAfter(input, p, p + 2)
    else DeclaredAt(input, p, allowCDATA)
  }

  /** The token that "<!" or "<?" at p begins. */
  function DeclaredAt(input: seq<byte>, p: nat, allowCDATA: bool): (r: Step)
    requires p + 2 <= |input|
    ensures On(input, r.next.spot) && p + 1 <= r.next.spot.pos
  {
    if input[p + 1] == BANG then DeclaredStep(p, MarkupAt(input, p + 2, allowCDATA))
    else CommentStep(p, UpToAngle(input, Spot(p + 1, false)))
  }

  /** What "<c" at p makes of text that began at start. */
  function OpenedAfter(input: seq<byte>, start: nat, p: nat, allowCDATA: bool): (r: Step)
    requires start <= p && p + 2 <= |input| && Opens(input[p + 1])
    ensures On(input, r.next.spot) && start <= r.next.spot.pos
    ensures r.token.tt != ErrorToken ==> start < r.next.spot.pos
  {
    if start < p then Plain(TextToken, start, Span(start, p), Between(Spot(p, false), []))
    else Opened(input, p, allowCDATA)
  }

  /** Where the first "<" stands that opens something, if any does. */
  function FirstOpen(input: seq<byte>, p: nat): (s: Spot)
    requires p <= |input|
    ensures On(input, s) && p <= s.pos && (s.eof ==> s.pos == |input|)
    ensures !s.eof ==> s.pos + 2 <= |input| && Opens(input[s.pos + 1])
    decreases |input| - p
  {
    if p == |input| then Spot(p, true)
    else if input[p] != LT then FirstOpen(input, p + 1)
    else if p + 1 == |input| then Spot(p + 1, true)
    else if Opens(input[p + 1]) then Spot(p, false)
    else FirstOpen(input, p + 1)
  }

  /** The text up to there, or else the token that begins there. */
  function TextOrOpened(input: seq<byte>, p: nat, allowCDATA: bool): (r: Step)
    requires p <= |input|
    ensures On(input, r.next.spot) && (r.token.tt != ErrorToken ==> p < r.next.spot.pos)
  {
    var s := FirstOpen(input, p);
    if s.eof then AtEnd(input, p, []) else OpenedAfter(input, p, s.pos, allowCDATA)
  }

  /** Where raw text ends. */
  function RawSpot(input: seq<byte>, p: nat, rawTag: seq<byte>): (s: Spot)
    requires p <= |input|
    ensures On(input, s)
  {
    if rawTag == Bytes("plaintext") then Spot(|input|, true)
    else if rawTag == Bytes("script") then ScriptEnd(input, Bytes("script"), Bytes("SCRIPT"), Data, p)
    else Spot(RawEnd(input, p, rawTag), RawEnd(input, p, rawTag) == |input|)
  }

  /** The next token. */
  function TokenAt(input: seq<byte>, b: Between, allowCDATA: bool): (r: Step)
    requires On(input, b.spot)
    ensures On(input, r.next.spot)
    ensures r.token.tt != ErrorToken ==> b.spot.pos < r.next.spot.pos
  {
    var p := b.spot.pos;
    if b.spot.eof then Plain(ErrorToken, p, Span(p, p), b)
    else if b.rawTag == [] then TextOrOpened(input, p, allowCDATA)
    else RawOrNext(input, p, b.rawTag, RawSpot(input, p, b.rawTag), allowCDATA)
  }

  /** A text token of the raw text from p to the spot, or what follows if there is none. */
  function RawOrNext(input: seq<byte>, p: nat, rawTag: seq<byte>, s: Spot, allowCDATA: bool): (r: Step)
    requires p <= |input| && On(input, s)
    ensures On(input, r.next.spot)
    ensures r.token.tt != ErrorToken ==> p < r.next.spot.pos
  {
    var left := if rawTag == Bytes("plaintext") then rawTag else [];
    if s.pos > p then
      var isRaw := rawTag != Bytes("textarea") && rawTag != Bytes("title");
      Step(Token(TextToken, p, Span(p, s.pos), [], isRaw, true), Between(s, left))
    else if s.eof then AtEnd(input, p, left)
    else TextOrOpened(input, p, allowCDATA)
  }

  // ---------- the whole input ----------

  /** What a caller may do between two calls: clear the raw-text flag, and allow CDATA sections or not. */
  datatype Choice = Choice(notRaw: bool, allowCDATA: bool)

  /** What a caller sees of a token: its type, its bytes, its data, a start tag's keys and values, its text's flags. */
  datatype Piece = Piece(tt: TokenType, raw: seq<byte>, data: seq<byte>, attrs: seq<(seq<byte>, seq<byte>)>,
    isRaw: bool, converted: bool)

  function Cut(input: seq<byte>, s: Span): seq<byte> {
    if 0 <= s.start <= s.end <= |input| then input[s.start..s.end] else []
  }

  function CutAll(input: seq<byte>, attrs: seq<Attr>): (r: seq<(seq<byte>, seq<byte>)>)
    ensures |r| == |attrs|
  {
    seq(|attrs|, i requires 0 <= i < |attrs| => (Cut(input, attrs[i].key), Cut(input, attrs[i].val)))
  }

  /** The token of a step as it is seen; of the error token, only its bytes. */
  function PieceOf(input: seq<byte>, s: Step): Piece {
    var t := s.token;
    var raw := Cut(input, Span(t.start, s.next.spot.pos));
    if t.tt == ErrorToken then Piece(t.tt, raw, [], [], false, false)
    else
      var attrs := if t.tt == StartTagToken || t.tt == SelfClosingTagToken then CutAll(input, t.attrs) else [];
      Piece(t.tt, raw, Cut(input, t.data), attrs, t.isRaw, t.converted)
  }

  /** The next token after the caller's choice. */
  function Chosen(input: seq<byte>, b: Between, c: Choice): (r: Step)
    requires On(input, b.spot)
    ensures On(input, r.next.spot) && (r.token.tt != ErrorToken ==> b.spot.pos < r.next.spot.pos)
  {
    TokenAt(input, if c.notRaw then b.(rawTag := []) else b, c.allowCDATA)
  }

  /** All tokens from here on behind those seen, the caller deciding by what it has seen. */
  function PiecesFrom(input: seq<byte>, b: Between, client: seq<Piece> -> Choice, seen: seq<Piece>): seq<Piece>
    requires On(input, b.spot)
    decreases |input| - b.spot.pos
  {
    var s := Chosen(input, b, client(seen));
    var now := seen + [PieceOf(input, s)];
    if s.token.tt == ErrorToken then now else PiecesFrom(input, s.next, client, now)
  }
}
