/**
 Where a script's text ends, from the marks that stand in it: comments, and script elements written inside comments. The
 scan of TokenSpec, a machine of sixteen states, is proved to stop just there.
 */
module ScriptText {
  import opened Machine
  import opened RawText
  import opened TokenSpec

  // ---------- marks ----------

  /** "<!--" stands at k. */
  predicate Opens(input: seq<byte>, k: nat) {
    k + 4 <= |input| && input[k] == 60 && input[k + 1] == 33 && input[k + 2] == 45 && input[k + 3] == 45
  }

  /** "-->" stands at k. */
  predicate Closes(input: seq<byte>, k: nat) {
    k + 3 <= |input| && input[k] == 45 && input[k + 1] == 45 && input[k + 2] == 62
  }

  const SCRIPT: seq<byte> := [115, 99, 114, 105, 112, 116]

  predicate Alpha(c: byte) { 97 <= c <= 122 || 65 <= c <= 90 }

  /** White space, a slash or ">". */
  predicate Ends(c: byte) { c == 32 || c == 10 || c == 13 || c == 9 || c == 12 || c == 47 || c == 62 }

  /** Byte i of the name "script", in either case, stands at k + i. */
  predicate Fits(input: seq<byte>, k: nat, i: nat) {
    k + i < |input| && i < 6 && (input[k + i] == SCRIPT[i] || input[k + i] == SCRIPT[i] - 32)
  }

  /** The name "script" in letters of either case, and a byte that ends a name, stand at k. */
  predicate NameAt(input: seq<byte>, k: nat) {
    k + 7 <= |input| && Ends(input[k + 6]) && forall i: nat :: i < 6 ==> Fits(input, k, i)
  }

  /** "<script" stands at k. */
  predicate Starts(input: seq<byte>, k: nat) { k < |input| && input[k] == 60 && NameAt(input, k + 1) }

  /** "</script" stands at k. */
  predicate Stops(input: seq<byte>, k: nat) {
    k + 1 < |input| && input[k] == 60 && input[k + 1] == 47 && NameAt(input, k + 2)
  }

  /** A "<" at k that begins no tag. */
  predicate Stray(input: seq<byte>, k: nat) {
    k + 1 < |input| && input[k] == 60 && input[k + 1] != 47 && !Alpha(input[k + 1])
  }

  // ---------- sections ----------

  /** Script text, a comment in it, or a script in that comment. */
  datatype Section = Script | Comment | Hidden

  /**
   The section before position j, the text having begun at p. "<!--" opens a comment and "-->" ends it, wherever its
   dashes stand; in a comment "<script" begins a hidden script and "</script" ends that. That a "<" which begins no tag
   ends the comment too is what the code does.
   */
  function SectionAt(input: seq<byte>, p: nat, j: nat): Section
    requires p <= j <= |input|
  {
    if j == p then Script
    else
      match SectionAt(input, p, j - 1)
      case Script =>
        if j >= p + 4 && Opens(input, j - 4) && SectionAt(input, p, j - 4).Script? then Comment else Script
      case Comment =>
        if (j >= 3 && Closes(input, j - 3)) || Stray(input, j - 1) then Script
        else if j >= 8 && Starts(input, j - 8) then Hidden
        else Comment
      case Hidden =>
        if j >= 3 && Closes(input, j - 3) then Script else if j >= 9 && Stops(input, j - 9) then Comment else Hidden
  }

  /** An end tag at k that ends the text. */
  predicate EndsText(input: seq<byte>, p: nat, k: nat) {
    p <= k && Stops(input, k) && !SectionAt(input, p, k).Hidden?
  }

  /** The text from p on ends before the first end tag from there on that is not hidden, or with the input. */
  ghost predicate TextEnds(input: seq<byte>, p: nat, from: int, s: Spot) {
    && from <= s.pos && (if s.eof then s.pos == |input| else s.pos >= 0 && EndsText(input, p, s.pos))
    && forall k: nat :: from <= k < s.pos ==> !EndsText(input, p, k)
  }

  // ---------- names ----------

  lemma ScriptBytes()
    ensures Bytes("script") == SCRIPT
    ensures |Bytes("SCRIPT")| == 6 && forall i :: 0 <= i < 6 ==> Bytes("SCRIPT")[i] == SCRIPT[i] - 32
  {
    var lower, upper := "script", "SCRIPT";
    assert lower[0] == 's' && lower[1] == 'c' && lower[2] == 'r';
    assert lower[3] == 'i' && lower[4] == 'p' && lower[5] == 't';
    assert upper[0] == 'S' && upper[1] == 'C' && upper[2] == 'R';
    assert upper[3] == 'I' && upper[4] == 'P' && upper[5] == 'T';
  }

  /** The first n bytes from p on are those of the name, and no more. */
  ghost predicate NameTo(input: seq<byte>, p: nat, n: nat) {
    && n <= 6 && p + n <= |input| && (forall i: nat :: i < n ==> Fits(input, p, i))
    && !Fits(input, p, n)
  }

  lemma {:induction false} Matched(input: seq<byte>, p: nat, i: nat)
    requires i <= 6 && p + i <= |input| && forall j: nat :: j < i ==> Fits(input, p, j)
    ensures NameTo(input, p, Match(input, p, SCRIPT, i))
    decreases 6 - i
  {
    if i < 6 && p + i < |input| {
      assert Same(input[p + i], SCRIPT[i]) <==> Fits(input, p, i);
      if Fits(input, p, i) { Matched(input, p, i + 1); }
    }
  }

  lemma {:induction false} DoubleMatched(input: seq<byte>, p: nat, upper: seq<byte>, i: nat)
    requires |upper| == 6 && forall j :: 0 <= j < 6 ==> upper[j] == SCRIPT[j] - 32
    requires i <= 6 && p + i <= |input| && forall j: nat :: j < i ==> Fits(input, p, j)
    ensures NameTo(input, p, DoubleMatch(input, p, SCRIPT, upper, i))
    decreases 6 - i
  {
    if i < 6 && p + i < |input| {
      if Fits(input, p, i) { DoubleMatched(input, p, upper, i + 1); }
    }
  }

  /** The end tag that the scan looks for. */
  lemma TagMeans(input: seq<byte>, p: nat)
    requires p <= |input|
    ensures EndTagAt(input, p, SCRIPT) <==> NameAt(input, p)
    ensures NameTo(input, p, Match(input, p, SCRIPT, 0))
  {
    Matched(input, p, 0);
  }

  // ---------- positions in a section ----------

  /** The mark that changes the section stands at k. */
  predicate Mark(input: seq<byte>, k: nat, s: Section) {
    match s case Script => Opens(input, k) case Comment => Starts(input, k) case Hidden => Stops(input, k)
  }

  function Size(s: Section): nat { match s case Script => 4 case Comment => 8 case Hidden => 9 }

  /** The section before pos, and no mark that would change it runs over pos. */
  ghost predicate In(input: seq<byte>, p: nat, pos: int, s: Section) {
    && p <= pos <= |input| && SectionAt(input, p, pos) == s
    && forall k: nat :: k < pos && Mark(input, k, s) && (s.Script? ==> p <= k && SectionAt(input, p, k).Script?) ==>
         k + Size(s) <= pos
  }

  /** A mark begins with its only "<". */
  lemma OneLessThan(input: seq<byte>, k: nat, s: Section, j: nat)
    requires Mark(input, k, s) && k < j < k + Size(s)
    ensures j < |input| && input[j] != 60
  {
    match s
    case Script =>
    case Comment => if j < k + 7 { assert Fits(input, k + 1, j - k - 1); }
    case Hidden => if k + 1 < j < k + 8 { assert Fits(input, k + 2, j - k - 2); }
  }

  /** The byte behind its "<" tells which mark it is. */
  lemma Second(input: seq<byte>, k: nat, s: Section)
    requires Mark(input, k, s)
    ensures match s
      case Script => input[k + 1] == 33
      case Comment => Alpha(input[k + 1])
      case Hidden => input[k + 1] == 47
  {
    if s.Comment? { assert Fits(input, k + 1, 0); }
  }

  /** The byte that ends a name, and the one before it. */
  lemma LastTwo(input: seq<byte>, k: nat, s: Section)
    requires Mark(input, k, s) && !s.Script?
    ensures var q := k + Size(s); q <= |input| && Alpha(input[q - 2]) && Ends(input[q - 1])
  {
    assert Fits(input, if s.Comment? then k + 1 else k + 2, 5);
  }

  /** A mark that is complete at j counts. */
  predicate Counts(input: seq<byte>, p: nat, j: nat, s: Section)
    requires p <= j <= |input|
  {
    && Size(s) <= j && Mark(input, j - Size(s), s)
    && (s.Script? ==> p <= j - Size(s) && SectionAt(input, p, j - Size(s)).Script?)
  }

  lemma Stays(input: seq<byte>, p: nat, j: nat, s: Section)
    requires p < j <= |input| && SectionAt(input, p, j - 1) == s && !Counts(input, p, j, s)
    requires !s.Script? ==> j < 3 || !Closes(input, j - 3)
    requires s.Comment? ==> !Stray(input, j - 1)
    ensures SectionAt(input, p, j) == s
  {
  }

  /** A byte that ends no mark and begins none. */
  lemma OneOn(input: seq<byte>, p: nat, k: nat, s: Section)
    requires In(input, p, k, s) && k < |input| && input[k] != 60
    requires s.Script? || k < 2 || !Closes(input, k - 2)
    ensures In(input, p, k + 1, s)
  {
    Stays(input, p, k + 1, s);
  }

  /** From a "<" on, as long as no mark is complete and no section is closed. */
  lemma {:induction false} Through(input: seq<byte>, p: nat, k: nat, q: nat, s: Section)
    requires In(input, p, k, s) && k < q <= |input| && input[k] == 60 && (s.Comment? ==> !Stray(input, k))
    requires forall j :: k < j < q ==> input[j] != 60 && (input[j] == 62 ==> s.Script?)
    requires Mark(input, k, s) ==> q < k + Size(s)
    ensures SectionAt(input, p, q) == s
    ensures !Mark(input, k, s) ==> In(input, p, q, s)
    decreases q
  {
    if k + 1 < q { Through(input, p, k, q - 1, s); }
    Stays(input, p, q, s);
    if !Mark(input, k, s) { NoneOver(input, k, q, s); }
  }

  /** Behind a "<" that begins no mark, and no other, none runs on. */
  lemma NoneOver(input: seq<byte>, k: nat, q: nat, s: Section)
    requires k < q <= |input| && input[k] == 60 && (Mark(input, k, s) ==> k + Size(s) <= q)
    requires forall j :: k < j < q ==> input[j] != 60
    ensures forall j: nat :: j < q && Mark(input, j, s) ==> j + Size(s) <= q
  {
    forall j: nat | j < q && Mark(input, j, s)
      ensures j + Size(s) <= q
    {
      if j < k < j + Size(s) { OneLessThan(input, j, s, k); }
    }
  }

  // ---------- the states of the scan ----------

  /** The section that a state works in. */
  function Where(st: ScriptState): Section {
    match st
    case Data => Script case LessThanSign => Script case EndTagOpen => Script case EscapeStart => Script
    case EscapeStartDash => Script
    case DoubleEscaped => Hidden case DoubleEscapedDash => Hidden case DoubleEscapedDashDash => Hidden
    case DoubleEscapedLessThanSign => Hidden case DoubleEscapeEnd => Hidden
    case _ => Comment
  }

  /** How many bytes the state has read since a "<". */
  function Begun(st: ScriptState): nat {
    match st
    case LessThanSign => 1 case EscapedLessThanSign => 1 case DoubleEscapedLessThanSign => 1
    case EndTagOpen => 2 case EscapedEndTagOpen => 2 case DoubleEscapeEnd => 2 case DoubleEscapeStart => 2
    case EscapeStart => 2 case EscapeStartDash => 3
    case _ => 0
  }

  /** What has been read since. */
  ghost predicate HasBegun(input: seq<byte>, st: ScriptState, k: int) {
    && 0 <= k && k + Begun(st) <= |input| && (Begun(st) > 0 ==> input[k] == 60)
    && match st
       case EndTagOpen => input[k + 1] == 47
       case EscapedEndTagOpen => input[k + 1] == 47
       case DoubleEscapeEnd => input[k + 1] == 47
       case DoubleEscapeStart => Alpha(input[k + 1])
       case EscapeStart => input[k + 1] == 33
       case EscapeStartDash => input[k + 1] == 33 && input[k + 2] == 45
       case _ => true
  }

  /** The dashes directly before a state in a comment: none, one, or more. */
  ghost predicate Dashes(input: seq<byte>, st: ScriptState, k: int) {
    match st
    case Escaped => 1 <= k <= |input| && input[k - 1] != 45
    case DoubleEscaped => 1 <= k <= |input| && input[k - 1] != 45
    case EscapedDash => 2 <= k <= |input| && input[k - 1] == 45 && input[k - 2] != 45
    case DoubleEscapedDash => 2 <= k <= |input| && input[k - 1] == 45 && input[k - 2] != 45
    case EscapedDashDash => 2 <= k <= |input| && input[k - 1] == 45 && input[k - 2] == 45
    case DoubleEscapedDashDash => 2 <= k <= |input| && input[k - 1] == 45 && input[k - 2] == 45
    case _ => true
  }

  /** What holds in a state of the scan. */
  ghost predicate Standing(input: seq<byte>, p: nat, st: ScriptState, pos: int) {
    && In(input, p, pos - Begun(st), Where(st)) && HasBegun(input, st, pos - Begun(st)) && Dashes(input, st, pos)
  }

  /** The next stage is good too, and no end tag is passed over that ends the text. */
  ghost predicate Keeps(input: seq<byte>, p: nat, st: ScriptState, pos: int, g: Stage) {
    && Standing(input, p, g.st, g.pos) && pos - Entered(st) <= g.pos - Entered(g.st)
    && forall k: nat :: pos - Entered(st) <= k < g.pos - Entered(g.st) ==> !EndsText(input, p, k)
  }

  /** What a turn owes. */
  ghost predicate Good(input: seq<byte>, p: nat, st: ScriptState, pos: int, r: Turned) {
    match r
    case To(g) => Keeps(input, p, st, pos, g)
    case Stops(s) => TextEnds(input, p, pos - Entered(st), s)
  }

  function After(s: Section): Section { match s case Script => Comment case Comment => Hidden case Hidden => Comment }

  /** Behind a mark that counts. */
  lemma Turns(input: seq<byte>, p: nat, k: nat, s: Section)
    requires In(input, p, k, s) && Mark(input, k, s)
    ensures In(input, p, k + Size(s), After(s)) && (!s.Script? ==> input[k + Size(s) - 1] != 45)
  {
    var q := k + Size(s);
    Second(input, k, s);
    forall j | k < j < q - 1
      ensures input[j] != 60 && (input[j] == 62 ==> s.Script?)
    {
      OneLessThan(input, k, s, j);
      NotClosed(input, k, s, j);
    }
    OneLessThan(input, k, s, q - 1);
    Through(input, p, k, q - 1, s);
    Changes(input, p, k, s);
    if Mark(input, k, After(s)) { Second(input, k, After(s)); }
    NoneOver(input, k, q, After(s));
  }

  /** No ">" inside a mark. */
  lemma NotClosed(input: seq<byte>, k: nat, s: Section, j: nat)
    requires Mark(input, k, s) && k < j < k + Size(s) - 1
    ensures input[j] != 62
  {
    match s
    case Script =>
    case Comment => assert Fits(input, k + 1, j - k - 1);
    case Hidden => if k + 1 < j { assert Fits(input, k + 2, j - k - 2); }
  }

  lemma Changes(input: seq<byte>, p: nat, k: nat, s: Section)
    requires p <= k && Mark(input, k, s) && k + Size(s) <= |input| && SectionAt(input, p, k + Size(s) - 1) == s
    requires s.Script? ==> SectionAt(input, p, k).Script?
    ensures SectionAt(input, p, k + Size(s)) == After(s) && (!s.Script? ==> input[k + Size(s) - 1] != 45)
  {
    if !s.Script? { LastTwo(input, k, s); }
  }

  /** Outside comments, between marks. */
  lemma DataTurn(input: seq<byte>, p: nat, pos: nat)
    requires Standing(input, p, Data, pos)
    ensures Good(input, p, Data, pos, ByteTurn(input, Data, pos))
  {
    hide SectionAt;
    if pos < |input| && input[pos] != 60 { OneOn(input, p, pos, Script); }
  }

  /** Behind "<" outside comments. */
  lemma LessThanTurn(input: seq<byte>, p: nat, pos: nat)
    requires Standing(input, p, LessThanSign, pos)
    ensures Good(input, p, LessThanSign, pos, ByteTurn(input, LessThanSign, pos))
  {
    hide SectionAt;
    if pos < |input| { Through(input, p, pos - 1, pos, Script); }
  }

  /** Behind "<!" outside comments. */
  lemma OpeningTurn(input: seq<byte>, p: nat, pos: nat)
    requires Standing(input, p, EscapeStart, pos)
    ensures Good(input, p, EscapeStart, pos, ByteTurn(input, EscapeStart, pos))
  {
    hide SectionAt;
    if pos < |input| { Through(input, p, pos - 2, pos, Script); }
  }

  /** Behind "<!-" outside comments. */
  lemma OpenedTurn(input: seq<byte>, p: nat, pos: nat)
    requires Standing(input, p, EscapeStartDash, pos)
    ensures Good(input, p, EscapeStartDash, pos, ByteTurn(input, EscapeStartDash, pos))
  {
    hide SectionAt;
    if pos < |input| {
      if input[pos] == 45 { Turns(input, p, pos - 3, Script); } else { Through(input, p, pos - 3, pos, Script); }
    }
  }

  predicate InComment(st: ScriptState) {
    st.Escaped? || st.EscapedDash? || st.EscapedDashDash? || st.DoubleEscaped? || st.DoubleEscapedDash?
    || st.DoubleEscapedDashDash?
  }

  /** In a comment, hidden or not, between marks: the section behind a byte. */
  lemma CommentGoesOn(input: seq<byte>, p: nat, st: ScriptState, pos: nat)
    requires Standing(input, p, st, pos) && InComment(st) && pos < |input| && input[pos] != 60
    ensures In(input, p, pos + 1, Where(ScriptNext(st, input[pos]).0))
  {
    hide SectionAt;
    if input[pos] == 62 && 2 <= pos && Closes(input, pos - 2) {
      Leaves(input, p, pos, Where(st));
    } else {
      OneOn(input, p, pos, Where(st));
    }
    hide In;
  }

  lemma CommentNext(input: seq<byte>, p: nat, st: ScriptState, pos: nat)
    requires Standing(input, p, st, pos) && InComment(st) && pos < |input|
    ensures Standing(input, p, ScriptNext(st, input[pos]).0, pos + 1) && !ScriptNext(st, input[pos]).1
    ensures Begun(st) == 0 && Begun(ScriptNext(st, input[pos]).0) == if input[pos] == 60 then 1 else 0
  {
    if input[pos] != 60 { CommentGoesOn(input, p, st, pos); }
    hide In;
  }

  lemma CommentTurn(input: seq<byte>, p: nat, st: ScriptState, pos: nat)
    requires Standing(input, p, st, pos) && InComment(st)
    ensures Good(input, p, st, pos, ByteTurn(input, st, pos))
  {
    if pos < |input| {
      CommentNext(input, p, st, pos);
      hide Standing, ScriptNext, SectionAt;
    }
  }

  /** The end of a comment. */
  lemma Leaves(input: seq<byte>, p: nat, pos: nat, s: Section)
    requires In(input, p, pos, s) && !s.Script? && 2 <= pos && Closes(input, pos - 2)
    ensures In(input, p, pos + 1, Script)
  {
  }

  /** Behind "<" in a comment. */
  lemma CommentLessThanTurn(input: seq<byte>, p: nat, pos: nat)
    requires Standing(input, p, EscapedLessThanSign, pos)
    ensures Good(input, p, EscapedLessThanSign, pos, ByteTurn(input, EscapedLessThanSign, pos))
  {
    hide SectionAt;
    if pos < |input| && Stray(input, pos - 1) { Strays(input, p, pos - 1); }
  }

  lemma Strays(input: seq<byte>, p: nat, k: nat)
    requires In(input, p, k, Comment) && Stray(input, k)
    ensures In(input, p, k + 1, Script)
  {
    assert SectionAt(input, p, k + 1).Script?;
    hide SectionAt;
    forall j: nat | p <= j < k + 1 && Opens(input, j) && SectionAt(input, p, j).Script?
      ensures j + 4 <= k + 1
    {
      if j < k < j + 4 { OneLessThan(input, j, Script, k); }
    }
  }

  /** Behind "<" in a hidden script. */
  lemma HiddenLessThanTurn(input: seq<byte>, p: nat, pos: nat)
    requires Standing(input, p, DoubleEscapedLessThanSign, pos)
    ensures Good(input, p, DoubleEscapedLessThanSign, pos, ByteTurn(input, DoubleEscapedLessThanSign, pos))
  {
    hide SectionAt;
    if pos < |input| { Through(input, p, pos - 1, pos, Hidden); }
  }

  // ---------- names in the scan ----------

  /** Behind "</", or "<" and a letter: what has matched holds no "<", "-" or ">". */
  lemma NameBytes(input: seq<byte>, p: nat, n: nat, j: nat)
    requires NameTo(input, p, n) && p <= j < p + n
    ensures Alpha(input[j])
  {
    assert Fits(input, p, j - p);
  }

  /** Only at a "<" does an end tag stand. */
  lemma NoneBetween(input: seq<byte>, p: nat, k: nat, q: nat)
    requires p <= k <= |input| && (Stops(input, k) ==> SectionAt(input, p, k).Hidden?)
    requires q <= |input| && forall j :: k < j < q ==> input[j] != 60
    ensures forall j: nat :: k <= j < q ==> !EndsText(input, p, j)
  {
  }

  /** Past a name that is not there, from a "<" on. */
  lemma Passes(input: seq<byte>, p: nat, k: nat, from: nat, n: nat, s: Section)
    requires In(input, p, k, s) && k < from <= k + 2 && from + n <= |input| && input[k] == 60 && NameTo(input, from, n)
    requires k + 1 < |input| && (input[k + 1] == 47 || Alpha(input[k + 1])) && (from == k + 2 ==> input[k + 1] == 47)
    requires !Mark(input, k, s) && (Stops(input, k) ==> s.Hidden?)
    ensures In(input, p, from + n, s) && input[from + n - 1] != 45
    ensures forall j: nat :: k <= j < from + n ==> !EndsText(input, p, j)
  {
    hide SectionAt;
    var q := from + n;
    forall j | k < j < q
      ensures input[j] != 60 && input[j] != 62 && input[j] != 45
    {
      if j >= from { NameBytes(input, from, n, j); }
    }
    Through(input, p, k, q, s);
    NoneBetween(input, p, k, q);
  }

  /** Past a name in a comment, hidden or not. */
  lemma Completes(input: seq<byte>, p: nat, k: nat, s: Section)
    requires In(input, p, k, s) && Mark(input, k, s) && !s.Script?
    ensures In(input, p, k + Size(s), After(s)) && input[k + Size(s) - 1] != 45
    ensures forall j: nat :: k <= j < k + Size(s) ==> !EndsText(input, p, j)
  {
    hide SectionAt;
    Turns(input, p, k, s);
    Second(input, k, s);
    forall j: nat | k < j < k + Size(s) ensures input[j] != 60 { OneLessThan(input, k, s, j); }
    NoneBetween(input, p, k, k + Size(s));
  }

  /** Behind "</" outside hidden scripts. */
  lemma EndTagTurn(input: seq<byte>, p: nat, st: ScriptState, pos: nat)
    requires Standing(input, p, st, pos) && (st.EndTagOpen? || st.EscapedEndTagOpen?)
    ensures Good(input, p, st, pos, TagTurn(input, st, pos, SCRIPT))
  {
    hide SectionAt;
    var k, n := pos - 2, Match(input, pos, SCRIPT, 0);
    TagMeans(input, pos);
    if !NameAt(input, pos) {
      if Mark(input, k, Where(st)) { Second(input, k, Where(st)); }
      Passes(input, p, k, pos, n, Where(st));
    }
    hide NameAt, EndsText, Match, In, SCRIPT, Fits;
  }

  /** Behind "</" in a hidden script. */
  lemma HiddenEndTurn(input: seq<byte>, p: nat, pos: nat)
    requires Standing(input, p, DoubleEscapeEnd, pos)
    ensures Good(input, p, DoubleEscapeEnd, pos, TagTurn(input, DoubleEscapeEnd, pos, SCRIPT))
  {
    hide SectionAt;
    var k, n := pos - 2, Match(input, pos, SCRIPT, 0);
    TagMeans(input, pos);
    if NameAt(input, pos) {
      Completes(input, p, k, Hidden);
    } else {
      Passes(input, p, k, pos, n, Hidden);
    }
    hide NameAt, EndsText, Match, In, Fits;
  }

  /** What the state behind "<" and a letter comes to. */
  lemma StartGives(input: seq<byte>, upper: seq<byte>, pos: nat, n: nat)
    requires |upper| == 6 && 1 <= pos <= |input| && n == DoubleMatch(input, pos - 1, SCRIPT, upper, 0)
    requires NameTo(input, pos - 1, n)
    ensures DoubleStartTurn(input, pos, SCRIPT, upper)
      == if NameAt(input, pos - 1) then To(Stage(DoubleEscaped, pos + 6))
         else if pos - 1 + n == |input| then Turned.Stops(Spot(|input|, true))
         else To(Stage(Escaped, pos - 1 + n))
  {
  }

  /** Behind "<" and a letter in a comment. */
  lemma StartTurn(input: seq<byte>, p: nat, upper: seq<byte>, pos: nat)
    requires |upper| == 6 && forall j :: 0 <= j < 6 ==> upper[j] == SCRIPT[j] - 32
    requires Standing(input, p, DoubleEscapeStart, pos)
    ensures Good(input, p, DoubleEscapeStart, pos, DoubleStartTurn(input, pos, SCRIPT, upper))
  {
    hide SectionAt, DoubleStartTurn;
    var k, n := pos - 2, DoubleMatch(input, pos - 1, SCRIPT, upper, 0);
    DoubleMatched(input, pos - 1, upper, 0);
    StartGives(input, upper, pos, n);
    if NameAt(input, k + 1) {
      Completes(input, p, k, Comment);
    } else {
      Passes(input, p, k, k + 1, n, Comment);
    }
    hide EndsText, DoubleMatch, In, Fits, NameAt;
  }

  // ---------- the law ----------

  lemma TurnGood(input: seq<byte>, p: nat, upper: seq<byte>, st: ScriptState, pos: nat)
    requires |upper| == 6 && forall j :: 0 <= j < 6 ==> upper[j] == SCRIPT[j] - 32
    requires Standing(input, p, st, pos) && Entered(st) <= pos <= |input|
    ensures Good(input, p, st, pos, ScriptTurn(input, SCRIPT, upper, st, pos))
  {
    hide Good, Standing, TagTurn, DoubleStartTurn, ByteTurn;
    match st
    case Data => DataTurn(input, p, pos);
    case LessThanSign => LessThanTurn(input, p, pos);
    case EscapeStart => OpeningTurn(input, p, pos);
    case EscapeStartDash => OpenedTurn(input, p, pos);
    case EndTagOpen => EndTagTurn(input, p, st, pos);
    case EscapedEndTagOpen => EndTagTurn(input, p, st, pos);
    case EscapedLessThanSign => CommentLessThanTurn(input, p, pos);
    case DoubleEscapedLessThanSign => HiddenLessThanTurn(input, p, pos);
    case DoubleEscapeStart => StartTurn(input, p, upper, pos);
    case DoubleEscapeEnd => HiddenEndTurn(input, p, pos);
    case _ => CommentTurn(input, p, st, pos);
  }

  /** From any good stage on. */
  lemma {:induction false} ScanEnds(input: seq<byte>, p: nat, upper: seq<byte>, st: ScriptState, pos: nat)
    requires |upper| == 6 && forall j :: 0 <= j < 6 ==> upper[j] == SCRIPT[j] - 32
    requires Standing(input, p, st, pos) && Entered(st) <= pos <= |input|
    ensures TextEnds(input, p, pos - Entered(st), ScriptEnd(input, SCRIPT, upper, st, pos))
    decreases |input| - Eff(st, pos), Rank(st)
  {
    TurnGood(input, p, upper, st, pos);
    match ScriptTurn(input, SCRIPT, upper, st, pos)
    case To(g) => ScanEnds(input, p, upper, g.st, g.pos);
    case Stops(s) =>
  }

  /** What stops the scan is the end tag of its own definition. */
  lemma EndTagMeans(input: seq<byte>, k: nat)
    ensures EndsAt(input, k, Bytes("script")) <==> Stops(input, k)
  {
    ScriptBytes();
    if k + 2 <= |input| { TagMeans(input, k + 2); }
  }

  /**
   A script's text that begins at p ends before the first end tag that is not hidden, or with the input: the end tags
   passed over are exactly those in a script inside a comment.
   */
  lemma ScriptStops(input: seq<byte>, p: nat)
    requires p <= |input|
    ensures TextEnds(input, p, p, ScriptEnd(input, Bytes("script"), Bytes("SCRIPT"), Data, p))
  {
    ScriptBytes();
    ScanEnds(input, p, Bytes("SCRIPT"), Data, p);
  }

  /** Only one place is that. */
  lemma TextEndsOnce(input: seq<byte>, p: nat, from: int, s: Spot, s2: Spot)
    requires p <= from && TextEnds(input, p, from, s) && TextEnds(input, p, from, s2)
    ensures s == s2
  {
  }

  /** Without "<!--" all is script text. */
  lemma {:induction false} NoComment(input: seq<byte>, p: nat, k: nat)
    requires p <= k <= |input| && forall j: nat :: p <= j < k ==> !Opens(input, j)
    ensures SectionAt(input, p, k) == Script
    decreases k
  {
    if p < k { NoComment(input, p, k - 1); }
  }

  /** With no "<!--" before it, the scan stops at the first end tag. */
  lemma FirstEndTag(input: seq<byte>, p: nat, k: nat)
    requires p <= k && Stops(input, k) && forall j: nat :: p <= j < k ==> !Stops(input, j) && !Opens(input, j)
    ensures ScriptEnd(input, Bytes("script"), Bytes("SCRIPT"), Data, p) == Spot(k, false)
  {
    ScriptStops(input, p);
    NoComment(input, p, k);
    hide Bytes, ScriptEnd, SectionAt;
    TextEndsOnce(input, p, p, ScriptEnd(input, Bytes("script"), Bytes("SCRIPT"), Data, p), Spot(k, false));
  }

  // ---------- sections and the standard ----------

  /** "<!--" at o, and no "-->" since, up to k. */
  ghost predicate OpenSince(input: seq<byte>, p: nat, o: nat, k: nat) {
    p <= o && o + 4 <= k && Opens(input, o) && forall j: nat :: o + 2 <= j && j + 3 <= k ==> !Closes(input, j)
  }

  /** Behind it "<script" at b, and no "</script" since, up to k. */
  ghost predicate HiddenSince(input: seq<byte>, o: nat, b: nat, k: nat) {
    o + 4 <= b && b + 8 <= k && Starts(input, b) && forall j: nat :: b + 8 <= j && j + 9 <= k ==> !Stops(input, j)
  }

  /** The two do not overlap. */
  lemma Behind(input: seq<byte>, o: nat, b: nat)
    requires Opens(input, o) && Starts(input, b) && o + 4 < b + 8
    ensures o + 4 <= b
  {
    Second(input, b, Comment);
    if o < b < o + 4 {
      OneLessThan(input, o, Script, b);
    } else if b < o {
      OneLessThan(input, b, Comment, o);
    }
  }

  /** A comment has been opened and not been closed; a hidden script has been begun in it and not been ended. */
  lemma {:induction false} SectionMeans(input: seq<byte>, p: nat, k: nat) returns (o: nat, b: nat)
    requires p <= k <= |input|
    ensures !SectionAt(input, p, k).Script? ==> OpenSince(input, p, o, k)
    ensures SectionAt(input, p, k).Hidden? ==> HiddenSince(input, o, b, k)
    decreases k
  {
    o, b := 0, 0;
    if p < k {
      o, b := SectionMeans(input, p, k - 1);
      var s, s2 := SectionAt(input, p, k - 1), SectionAt(input, p, k);
      if s.Script? && s2.Comment? { o := k - 4; }
      if s.Comment? && s2.Hidden? {
        b := k - 8;
        Behind(input, o, b);
      }
    }
  }

  /** The section by the HTML standard, in which a "<" in a comment that begins no tag has no effect. */
  function StandardAt(input: seq<byte>, p: nat, j: nat): Section
    requires p <= j <= |input|
  {
    if j == p then Script
    else
      match StandardAt(input, p, j - 1)
      case Script =>
        if j >= p + 4 && Opens(input, j - 4) && StandardAt(input, p, j - 4).Script? then Comment else Script
      case Comment =>
        if j >= 3 && Closes(input, j - 3) then Script else if j >= 8 && Starts(input, j - 8) then Hidden else Comment
      case Hidden =>
        if j >= 3 && Closes(input, j - 3) then Script else if j >= 9 && Stops(input, j - 9) then Comment else Hidden
  }

  /** Up to k, the sections are those of the standard. */
  ghost predicate Agree(input: seq<byte>, p: nat, k: nat)
    requires k <= |input|
  {
    forall j: nat :: p <= j <= k ==> SectionAt(input, p, j) == StandardAt(input, p, j)
  }

  /** Before k, no such "<" stands in a comment. */
  ghost predicate NoneStray(input: seq<byte>, p: nat, k: nat)
    requires k <= |input|
  {
    forall j: nat :: p <= j < k && SectionAt(input, p, j).Comment? ==> !Stray(input, j)
  }

  /** The code follows the standard exactly as long as no such "<" stands in a comment. */
  lemma {:induction false} AsStandard(input: seq<byte>, p: nat, k: nat)
    requires p <= k <= |input|
    ensures Agree(input, p, k) <==> NoneStray(input, p, k)
    decreases k
  {
    if p < k {
      AsStandard(input, p, k - 1);
      if Agree(input, p, k - 1) { NextAgrees(input, p, k); }
      assert Agree(input, p, k) ==> Agree(input, p, k - 1);
      assert NoneStray(input, p, k) ==> NoneStray(input, p, k - 1);
    }
  }

  lemma NextAgrees(input: seq<byte>, p: nat, k: nat)
    requires p < k <= |input| && Agree(input, p, k - 1)
    ensures SectionAt(input, p, k) == StandardAt(input, p, k)
      <==> !(SectionAt(input, p, k - 1).Comment? && Stray(input, k - 1))
  {
    assert SectionAt(input, p, k - 1) == StandardAt(input, p, k - 1);
    if k >= p + 4 { assert SectionAt(input, p, k - 4) == StandardAt(input, p, k - 4); }
  }
}
