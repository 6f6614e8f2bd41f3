/**
 The tokenizer's loops over the sliding buffer. Their contracts speak about stream positions only: what a call leaves as
 the raw token, that it never backs up beyond where that token starts, and that it stands where the functions of the
 input say, whatever the reader delivers when.
 */
module Tokenizer {
  import opened Machine
  import opened RawText
  import opened TokenBuffer
  import opened TokenSpec
  import opened TokenViews
  import ScriptText

  class Tokens {
    const z: Buffer
    var tt: TokenType
    var rawTag: seq<byte>
    var textIsRaw: bool
    var convertNUL: bool
    var allowCDATA: bool

    ghost predicate Valid()
      reads this, z, z.r, z.buf
    {
      z.Valid()
    }

    constructor (reader: Reader, capacity: nat)
      requires capacity > 0
      ensures Valid() && fresh(z) && fresh(z.buf) && z.r == reader && z.input == reader.rest
      ensures z.lively == Lively(reader.plan)
      ensures z.Here().start == z.Here().pos == 0 && z.err == Nil && rawTag == []
    {
      z := new Buffer(reader, capacity);
      tt, rawTag, textIsRaw, convertNUL, allowCDATA := ErrorToken, [], false, false, false;
    }

    /** One byte, in the terms of this module. */
    method ReadByte() returns (c: byte)
      requires Valid()
      modifies z, z.r, z.buf
      ensures Valid() && (z.buf == old(z.buf) || fresh(z.buf)) && Still(old(z.Here()), z.Here(), old(z.Here()).pos)
      ensures z.err == Nil ==>
        old(z.err) == Nil && z.Here().pos == old(z.Here()).pos + 1 && c == z.input[old(z.Here()).pos]
      ensures z.err != Nil ==> z.Here().pos == old(z.Here()).pos
      ensures z.err == Nil ==> old(z.Here()).pos < |z.input|
      ensures z.err == EOF ==> z.Here().pos == |z.input|
    {
      c := z.ReadByte();
      if z.err != Nil { z.ErrorAtEnd(); }
    }

    /** z.raw.end -= n. */
    method Unread(n: nat)
      requires Valid() && z.err == Nil && z.Here().start + n <= z.Here().pos
      modifies z`raw
      ensures Valid() && z.Here() == old(z.Here()).(pos := old(z.Here()).pos - n)
    {
      z.raw := Span(z.raw.start, z.raw.end - n);
    }

    /** z.raw.end += n, over bytes still in the buffer. */
    method Reread(n: nat)
      requires Valid() && z.err == Nil && z.raw.end + n <= z.len
      modifies z`raw
      ensures Valid() && z.Here() == old(z.Here()).(pos := old(z.Here()).pos + n) && z.Here().pos <= |z.input|
    {
      z.raw := Span(z.raw.start, z.raw.end + n);
    }

    method SetData(start: int, end: int)
      requires Valid()
      modifies z`data
      ensures Valid() && z.data == Span(start, end)
      ensures z.Here() == old(z.Here()).(data := Span(z.base + start, z.base + end))
    {
      z.data := Span(start, end);
    }

    method SkipWhiteSpace()
      requires Valid()
      modifies z, z.r, z.buf
      ensures Valid() && (z.buf == old(z.buf) || fresh(z.buf)) && Still(old(z.Here()), z.Here(), old(z.Here()).pos)
      ensures Reads(z.Here(), AfterSpaces(z.input, SpotOf(old(z.Here()))))
    {
      if z.err != Nil {
        return;
      }
      ghost var v := z.Here();
      var more := true;
      while more
        invariant Valid() && (z.buf == old(z.buf) || fresh(z.buf)) && Still(v, z.Here(), v.pos)
        invariant if more then z.err == Nil && SpacesEnd(z.input, v.pos) == SpacesEnd(z.input, z.Here().pos)
                  else Reads(z.Here(), SpacesEnd(z.input, v.pos))
        decreases more, |z.input| - z.Here().pos
      {
        more := SkipByte();
      }
    }

    /** One byte of white space, or none. */
    method SkipByte() returns (more: bool)
      requires Valid() && z.err == Nil
      modifies z, z.r, z.buf
      ensures Valid() && (z.buf == old(z.buf) || fresh(z.buf)) && Still(old(z.Here()), z.Here(), old(z.Here()).pos)
      ensures more ==> z.err == Nil && z.Here().pos > old(z.Here()).pos
      ensures more ==> SpacesEnd(z.input, old(z.Here()).pos) == SpacesEnd(z.input, z.Here().pos)
      ensures !more ==> Reads(z.Here(), SpacesEnd(z.input, old(z.Here()).pos))
    {
      var c := ReadByte();
      more := z.err == Nil && IsSpace(c);
      if z.err == Nil && !more {
        Unread(1);
      }
    }

    // ---------- raw text ----------

    /**
     readRawEndTag, "</" already consumed: when it finds the end tag it backs up to before the "</", the
     tag being still in the buffer; otherwise it stands behind the part of the name that matched.
     */
    method ReadRawEndTag() returns (found: bool)
      requires Valid() && z.err == Nil && z.Here().start + 2 <= z.Here().pos
      modifies z, z.r, z.buf
      ensures Valid() && (z.buf == old(z.buf) || fresh(z.buf))
      ensures Still(old(z.Here()), z.Here(), if found then old(z.Here()).pos - 2 else old(z.Here()).pos)
      ensures found ==> z.err == Nil && z.Here().pos == old(z.Here()).pos - 2 && z.raw.end + 3 + |rawTag| <= z.len
      ensures z.err != NoProgress ==> TriedEndTag(z.input, old(z.Here()).pos, rawTag, found, z.Here().pos)
      ensures z.err != NoProgress && !found ==> (z.err == EOF <==> z.Here().pos == |z.input|)
    {
      ghost var p := z.Here().pos;
      var matched := MatchName();
      if !matched {
        return false;
      }
      found := CloseName(p);
      if found {
        Unread(3 + |rawTag|);
      }
    }

    /** How far the loop over the name has come: i bytes of it match, or it has stopped. */
    ghost predicate Naming(v: View, i: nat, matched: bool)
      reads this, z, z.r, z.buf
    {
      && Valid() && Still(v, z.Here(), v.pos) && i <= |rawTag| && 0 <= v.pos
      && (matched ==> z.err == Nil && Matched(z.input, v.pos, rawTag, i, z.Here().pos))
      && (!matched && z.err != NoProgress ==> Stopped(z.input, v.pos, rawTag, z.Here().pos))
      && (!matched && z.err != NoProgress ==> (z.err == EOF <==> z.Here().pos == |z.input|))
    }

    /** The loop over the name; at the end of input, or behind what matched. */
    method MatchName() returns (matched: bool)
      requires Valid() && z.err == Nil && z.Here().start <= z.Here().pos
      modifies z, z.r, z.buf
      ensures Valid() && (z.buf == old(z.buf) || fresh(z.buf)) && Still(old(z.Here()), z.Here(), old(z.Here()).pos)
      ensures matched ==> z.err == Nil && Matched(z.input, old(z.Here()).pos, rawTag, |rawTag|, z.Here().pos)
      ensures !matched && z.err != NoProgress ==> Stopped(z.input, old(z.Here()).pos, rawTag, z.Here().pos)
      ensures !matched && z.err != NoProgress ==> (z.err == EOF <==> z.Here().pos == |z.input|)
    {
      ghost var v := z.Here();
      var i := 0;
      matched := true;
      while matched && i < |rawTag|
        invariant Naming(v, i, matched) && (z.buf == old(z.buf) || fresh(z.buf))
        decreases |rawTag| - i
      {
        matched := MatchByte(i, v);
        i := i + 1;
      }
    }

    /** One byte of the name. */
    method MatchByte(i: nat, ghost v: View) returns (same: bool)
      requires Naming(v, i, true) && i < |rawTag|
      modifies z, z.r, z.buf
      ensures Naming(v, i + 1, same) && (z.buf == old(z.buf) || fresh(z.buf))
    {
      var c := ReadByte();
      if z.err != Nil {
        return false;
      }
      same := c == rawTag[i] || c == (rawTag[i] + 256 - CASE) % 256;
      if !same {
        Unread(1);
      }
    }

    /** The byte after the name: read, and given back if it does not end an end tag. */
    method CloseName(ghost p: nat) returns (found: bool)
      requires Valid() && z.err == Nil && z.Here().start <= p && Matched(z.input, p, rawTag, |rawTag|, z.Here().pos)
      modifies z, z.r, z.buf
      ensures Valid() && (z.buf == old(z.buf) || fresh(z.buf)) && Still(old(z.Here()), z.Here(), old(z.Here()).pos)
      ensures found ==> z.err == Nil && z.Here().pos == p + |rawTag| + 1 && EndTagAt(z.input, p, rawTag)
      ensures !found && z.err != NoProgress ==> TriedEndTag(z.input, p, rawTag, false, z.Here().pos)
      ensures !found && z.err != NoProgress ==> (z.err == EOF <==> z.Here().pos == |z.input|)
    {
      var c := ReadByte();
      if z.err != Nil {
        return false;
      }
      found := IsSpace(c) || c == SLASH || c == GT;
      if !found {
        Unread(1);
      }
    }

    /** readRawOrRCDATA: up to the end tag that rawTag names, which is left for the next token. */
    method ReadRawOrRCDATA()
      requires Valid() && z.err == Nil
      modifies z, z.r, z.buf, this`textIsRaw, this`rawTag
      ensures Valid() && (z.buf == old(z.buf) || fresh(z.buf)) && Moved(old(z.Here()), z.Here(), old(z.Here()).start)
      ensures z.Here().data == Span(old(z.Here()).data.start, z.Here().pos) && rawTag == []
      ensures old(rawTag) != Bytes("plaintext") ==> Reads(z.Here(), RawSpot(z.input, old(z.Here()).pos, old(rawTag)))
      ensures textIsRaw == (old(rawTag) != Bytes("textarea") && old(rawTag) != Bytes("title"))
    {
      if rawTag == Bytes("script") {
        ReadScript(Bytes("SCRIPT"));
        textIsRaw, rawTag := true, [];
        return;
      }
      ReadOther();
      textIsRaw := rawTag != Bytes("textarea") && rawTag != Bytes("title");
      rawTag := [];
    }

    /** Raw text that is not a script. */
    method ReadOther()
      requires Valid() && z.err == Nil
      modifies z, z.r, z.buf
      ensures Valid() && (z.buf == old(z.buf) || fresh(z.buf)) && Moved(old(z.Here()), z.Here(), old(z.Here()).start)
      ensures z.Here().data == Span(old(z.Here()).data.start, z.Here().pos)
      ensures z.err != NoProgress ==> z.Here().pos == RawEnd(z.input, old(z.Here()).pos, rawTag)
      ensures z.err != NoProgress ==> (z.err == EOF <==> z.Here().pos == |z.input|)
    {
      ReadToEndTag();
      SetData(z.data.start, z.raw.end);
    }

    /** Its loop. */
    method ReadToEndTag()
      requires Valid() && z.err == Nil
      modifies z, z.r, z.buf
      ensures Valid() && (z.buf == old(z.buf) || fresh(z.buf)) && Still(old(z.Here()), z.Here(), old(z.Here()).pos)
      ensures z.err != NoProgress ==> z.Here().pos == RawEnd(z.input, old(z.Here()).pos, rawTag)
      ensures z.err != NoProgress ==> (z.err == EOF <==> z.Here().pos == |z.input|)
    {
      var done := false;
      ghost var v := z.Here();
      ghost var end := RawEnd(z.input, v.pos, rawTag);
      while !done
        invariant Valid() && (z.buf == old(z.buf) || fresh(z.buf)) && Still(v, z.Here(), v.pos)
        invariant !done ==> z.err == Nil
        invariant z.err != NoProgress ==> Ahead(z.input, z.Here().pos, rawTag, done, end)
        invariant done && z.err != NoProgress ==> (z.err == EOF <==> z.Here().pos == |z.input|)
        decreases !done, |z.input| - z.Here().pos
      {
        done := RawStep(end);
      }
    }

    /** One turn of that loop: a byte, or "<" and more. */
    method RawStep(ghost end: nat) returns (done: bool)
      requires Valid() && z.err == Nil && Ahead(z.input, z.Here().pos, rawTag, false, end)
      modifies z, z.r, z.buf
      ensures Valid() && (z.buf == old(z.buf) || fresh(z.buf)) && Still(old(z.Here()), z.Here(), old(z.Here()).pos)
      ensures !done ==> z.err == Nil && old(z.Here()).pos < z.Here().pos
      ensures z.err != NoProgress ==> Ahead(z.input, z.Here().pos, rawTag, done, end)
      ensures done && z.err != NoProgress ==> (z.err == EOF <==> z.Here().pos == |z.input|)
    {
      ghost var p := z.Here().pos;
      EndsThere(z.input, p, rawTag, end);
      var c := ReadByte();
      done := z.err != Nil;
      if done {
        return;
      }
      if c == LT {
        done := RawMarkup(p, end);
      } else {
        ByteSkips(z.input, p, rawTag, end);
      }
    }

    /** The rest of a turn, after a "<" at p: a byte, or a slash and an attempt at the end tag. */
    method RawMarkup(ghost p: nat, ghost end: nat) returns (done: bool)
      requires Valid() && z.err == Nil && z.Here().start <= p && z.Here().pos == p + 1 && z.input[p] == LT
      requires Ahead(z.input, p, rawTag, false, end)
      modifies z, z.r, z.buf
      ensures Valid() && (z.buf == old(z.buf) || fresh(z.buf)) && Still(old(z.Here()), z.Here(), p)
      ensures !done ==> z.err == Nil && p + 1 < z.Here().pos
      ensures z.err != NoProgress ==> Ahead(z.input, z.Here().pos, rawTag, done, end)
      ensures done && z.err != NoProgress ==> (z.err == EOF <==> z.Here().pos == |z.input|)
    {
      EndsBehind(z.input, p, rawTag, end);
      var c := ReadByte();
      done := z.err != Nil;
      if done {
        return;
      }
      if c == SLASH {
        done := RawSlash(p, end);
      } else {
        TurnSkips(z.input, p, rawTag, end);
      }
    }

    /** An attempt at the end tag, after "</". */
    method RawSlash(ghost p: nat, ghost end: nat) returns (done: bool)
      requires Valid() && z.err == Nil && z.Here().start <= p && p + 2 == z.Here().pos
      requires z.input[p] == LT && z.input[p + 1] == SLASH && Ahead(z.input, p, rawTag, false, end)
      modifies z, z.r, z.buf
      ensures Valid() && (z.buf == old(z.buf) || fresh(z.buf)) && Still(old(z.Here()), z.Here(), p)
      ensures !done ==> z.err == Nil && p + 2 <= z.Here().pos
      ensures z.err != NoProgress ==> Ahead(z.input, z.Here().pos, rawTag, done, end)
      ensures done && z.err != NoProgress ==> (z.err == EOF <==> z.Here().pos == |z.input|)
    {
      var found := ReadRawEndTag();
      done := found || z.err != Nil;
      if z.err != NoProgress { TurnEnds(z.input, p, rawTag, found, z.Here().pos, end); }
      if z.err != Nil { z.ErrorAtEnd(); }
    }

    /** "<script" after a "<" inside the comment-like part of a script: to DoubleEscaped, or back to Escaped. */
    method ScriptDoubleEscapeStart(lower: seq<byte>, upper: seq<byte>, ghost r: Turned) returns (st: ScriptState)
      requires Valid() && z.err == Nil && z.Here().start + 1 <= z.Here().pos && 1 <= |lower| == |upper|
      requires DoubleStarts(z.input, z.Here().pos - 1, lower, upper, r)
      modifies z, z.r, z.buf
      ensures Valid() && (z.buf == old(z.buf) || fresh(z.buf)) && Still(old(z.Here()), z.Here(), old(z.Here()).pos - 1)
      ensures st == Escaped || st == DoubleEscaped
      ensures TurnIs(r, z.err != Nil, st, z.Here())
    {
      Unread(1);
      st := DoubleFrom(lower, upper, r);
    }

    /** The same from there. */
    method DoubleFrom(lower: seq<byte>, upper: seq<byte>, ghost r: Turned) returns (st: ScriptState)
      requires Valid() && z.err == Nil && |lower| == |upper| && DoubleStarts(z.input, z.Here().pos, lower, upper, r)
      modifies z, z.r, z.buf
      ensures Valid() && (z.buf == old(z.buf) || fresh(z.buf)) && Still(old(z.Here()), z.Here(), old(z.Here()).pos)
      ensures st == Escaped || st == DoubleEscaped
      ensures TurnIs(r, z.err != Nil, st, z.Here())
    {
      ghost var p := z.Here().pos;
      var matched := DoubleName(lower, upper, p);
      st := Escaped;
      if matched {
        st := DoubleClose(r);
      }
    }

    /** The loop over the name from p on; it stands behind the bytes that match. */
    method DoubleName(lower: seq<byte>, upper: seq<byte>, ghost p: nat) returns (matched: bool)
      requires Valid() && z.err == Nil && |lower| == |upper| && p == z.Here().pos
      modifies z, z.r, z.buf
      ensures Valid() && (z.buf == old(z.buf) || fresh(z.buf)) && Still(old(z.Here()), z.Here(), p)
      ensures var n := DoubleMatch(z.input, p, lower, upper, 0);
        if matched then z.err == Nil && n == |lower| && z.Here().pos == p + n else DoubleStopped(z.Here(), p, lower, n)
    {
      ghost var v := z.Here();
      ghost var n := DoubleMatch(z.input, p, lower, upper, 0);
      var i := 0;
      matched := true;
      while matched && i < |lower|
        invariant Valid() && (z.buf == old(z.buf) || fresh(z.buf)) && Still(v, z.Here(), p) && i <= |lower|
        invariant if matched then z.err == Nil && Doubled(z.Here(), p, lower, upper, i, n)
                  else DoubleStopped(z.Here(), p, lower, n)
        decreases |lower| - i
      {
        matched := DoubleByte(lower, upper, i, p, n);
        i := i + 1;
      }
    }

    /** One byte of it, in either case. */
    method DoubleByte(lower: seq<byte>, upper: seq<byte>, i: nat, ghost p: int, ghost n: nat) returns (matched: bool)
      requires Valid() && z.err == Nil && i < |lower| && Doubled(z.Here(), p, lower, upper, i, n)
      modifies z, z.r, z.buf
      ensures Valid() && (z.buf == old(z.buf) || fresh(z.buf)) && Still(old(z.Here()), z.Here(), old(z.Here()).pos)
      ensures if matched then z.err == Nil && Doubled(z.Here(), p, lower, upper, i + 1, n)
              else DoubleStopped(z.Here(), p, lower, n)
    {
      var c := ReadByte();
      matched := z.err == Nil && (c == lower[i] || c == upper[i]);
      if z.err == Nil && !matched {
        Unread(1);
      }
    }

    /** The byte behind "script": read, and given back if the name goes on. */
    method DoubleClose(ghost r: Turned) returns (st: ScriptState)
      requires Valid() && z.err == Nil && z.Here().start <= z.Here().pos && r == DoubleCloseTurn(z.input, z.Here().pos)
      modifies z, z.r, z.buf
      ensures Valid() && (z.buf == old(z.buf) || fresh(z.buf)) && Still(old(z.Here()), z.Here(), old(z.Here()).pos)
      ensures st == Escaped || st == DoubleEscaped
      ensures TurnIs(r, z.err != Nil, st, z.Here())
    {
      var c := ReadByte();
      if z.err != Nil {
        return Escaped;
      }
      if IsSpace(c) || c == SLASH || c == GT {
        return DoubleEscaped;
      }
      Unread(1);
      st := Escaped;
    }

    /** A state that looks for the closing tag. */
    method ScriptTag(st: ScriptState, ghost r: Turned) returns (done: bool, st2: ScriptState)
      requires Valid() && z.err == Nil && |rawTag| == 6 && z.Here().start + 2 <= z.Here().pos && TagState(st)
      requires r == TagTurn(z.input, st, z.Here().pos, rawTag)
      modifies z, z.r, z.buf
      ensures Valid() && (z.buf == old(z.buf) || fresh(z.buf)) && Still(old(z.Here()), z.Here(), z.Here().start)
      ensures !done ==> z.err == Nil
      ensures TurnIs(r, done, st2, z.Here())
    {
      var found := ReadRawEndTag();
      if found && st == DoubleEscapeEnd {
        Reread(|Bytes("</script>")|);
        return false, Escaped;
      }
      done := found || z.err != Nil;
      st2 := if st == EndTagOpen then Data else if st == EscapedEndTagOpen then Escaped else DoubleEscaped;
    }

    /** A state that reads one byte. */
    method ScriptByte(st: ScriptState, ghost r: Turned) returns (st2: ScriptState)
      requires Valid() && z.err == Nil && z.Here().start + Entered(st) <= z.Here().pos && !TagState(st)
      requires st != DoubleEscapeStart
      requires r == ByteTurn(z.input, st, z.Here().pos)
      modifies z, z.r, z.buf
      ensures Valid() && (z.buf == old(z.buf) || fresh(z.buf)) && Still(old(z.Here()), z.Here(), old(z.Here()).pos)
      ensures z.err == Nil ==>
        z.Here().start + Entered(st2) <= z.Here().pos && Later(st, old(z.Here()).pos, st2, z.Here().pos)
      ensures TurnIs(r, z.err != Nil, st2, z.Here())
    {
      ghost var pos := z.Here().pos;
      var c := ReadByte();
      if z.err != Nil {
        return st;
      }
      var (next, back) := ScriptNext(st, c);
      ScriptNextLater(st, c, pos);
      st2 := next;
      if back {
        Unread(1);
      }
    }

    /** One state of readScript; done at the end of input and at the closing tag. */
    method ScriptStep(upper: seq<byte>, st: ScriptState) returns (done: bool, st2: ScriptState)
      requires Valid() && z.err == Nil && |rawTag| == |upper| == 6 && z.Here().start + Entered(st) <= z.Here().pos
      modifies z, z.r, z.buf
      ensures Valid() && (z.buf == old(z.buf) || fresh(z.buf)) && Still(old(z.Here()), z.Here(), z.Here().start)
      ensures !done ==> z.err == Nil
      ensures TurnIs(ScriptTurn(z.input, rawTag, upper, st, old(z.Here()).pos), done, st2, z.Here())
    {
      ghost var r := ScriptTurn(z.input, rawTag, upper, st, z.Here().pos);
      if TagState(st) {
        done, st2 := ScriptTag(st, r);
      } else if st == DoubleEscapeStart {
        st2 := ScriptDoubleEscapeStart(rawTag, upper, r);
        done := z.err != Nil;
      } else {
        st2 := ScriptByte(st, r);
        done := z.err != Nil;
      }
    }

    /** The state machine of readScript: the escaping rules of script text; upper is its tag in capitals. */
    method ScanScript(upper: seq<byte>)
      requires Valid() && z.err == Nil && |rawTag| == |upper| == 6
      modifies z, z.r, z.buf
      ensures Valid() && (z.buf == old(z.buf) || fresh(z.buf)) && Still(old(z.Here()), z.Here(), old(z.Here()).start)
      ensures Reads(z.Here(), ScriptEnd(z.input, rawTag, upper, Data, old(z.Here()).pos))
    {
      ghost var v := z.Here();
      ghost var end := ScriptEnd(z.input, rawTag, upper, Data, v.pos);
      var st, done := Data, false;
      while !done
        invariant Valid() && (z.buf == old(z.buf) || fresh(z.buf)) && Still(v, z.Here(), v.start)
        invariant !done ==> z.err == Nil && z.Here().start + Entered(st) <= z.Here().pos
        invariant if done then Reads(z.Here(), end) else ScriptEnd(z.input, rawTag, upper, st, z.Here().pos) == end
        decreases !done, |z.input| - Eff(st, z.Here().pos), Rank(st)
      {
        done, st := ScriptStep(upper, st);
      }
    }

    /** readScript: the text up to the end tag that ends the script. */
    method ReadScript(upper: seq<byte>)
      requires Valid() && z.err == Nil && |rawTag| == |upper| == 6
      modifies z, z.r, z.buf
      ensures Valid() && (z.buf == old(z.buf) || fresh(z.buf)) && Moved(old(z.Here()), z.Here(), old(z.Here()).start)
      ensures z.Here().data == Span(old(z.Here()).data.start, z.Here().pos)
      ensures Reads(z.Here(), ScriptEnd(z.input, rawTag, upper, Data, old(z.Here()).pos))
      ensures rawTag == Bytes("script") && upper == Bytes("SCRIPT") && z.err != NoProgress ==>
        ScriptText.TextEnds(z.input, old(z.Here()).pos, old(z.Here()).pos, SpotOf(z.Here()))
    {
      ScriptText.ScriptStops(z.input, z.Here().pos);
      ScanScript(upper);
      SetData(z.data.start, z.raw.end);
    }

    // ---------- comments, doctypes, CDATA ----------

    /** Ends the data of a comment at offset `end`, or where it starts if that is later. */
    method EndComment(end: int)
      requires Valid() && z.Here().start <= z.Here().data.start <= z.Here().pos && end <= z.raw.end
      modifies z`data
      ensures Valid() && z.Here() == old(z.Here()).(data := z.Here().data) && Inside(z.Here().data, z.Here())
      ensures var p := old(z.Here()).data.start; z.Here().data == Span(p, if z.base + end < p then p else z.base + end)
    {
      SetData(z.data.start, end);
      if z.data.end < z.data.start {
        SetData(z.data.start, z.data.start);
      }
    }

    method ReadComment()
      requires Valid() && z.err == Nil
      modifies z, z.r, z.buf
      ensures Valid() && (z.buf == old(z.buf) || fresh(z.buf)) && Moved(old(z.Here()), z.Here(), old(z.Here()).pos)
      ensures Inside(z.Here().data, z.Here())
      ensures FoundData(z.Here(), CommentAt(z.input, old(z.Here()).pos))
    {
      SetData(z.raw.end, z.data.end);
      var end := ScanComment();
      EndComment(end);
    }

    /** The loop over the comment's bytes; the offset where its data ends. */
    method ScanComment() returns (end: int)
      requires Valid() && z.err == Nil
      modifies z, z.r, z.buf
      ensures Valid() && (z.buf == old(z.buf) || fresh(z.buf)) && Still(old(z.Here()), z.Here(), old(z.Here()).pos)
      ensures end <= z.raw.end
      ensures ScanDone(z.Here(), z.base + end, CommentEnd(z.input, old(z.Here()).pos, 2))
    {
      ghost var v := z.Here();
      ghost var r := CommentEnd(z.input, v.pos, 2);
      var dashCount: nat, done := 2, false;
      end := 0;
      while !done
        invariant Valid() && (z.buf == old(z.buf) || fresh(z.buf)) && Still(v, z.Here(), v.pos)
        invariant !done ==> z.err == Nil
        invariant CommentTurn(z.Here(), done, z.base + end, dashCount, r)
        decreases !done, |z.input| - z.Here().pos
      {
        done, end, dashCount := CommentByte(dashCount, r);
      }
    }

    /** One turn of it; r is how the comment ends. */
    method CommentByte(dashCount0: nat, ghost r: Scan) returns (done: bool, end: int, dashCount: nat)
      requires Valid() && z.err == Nil && CommentTurn(z.Here(), false, 0, dashCount0, r)
      modifies z, z.r, z.buf
      ensures Valid() && (z.buf == old(z.buf) || fresh(z.buf)) && Still(old(z.Here()), z.Here(), old(z.Here()).pos)
      ensures !done ==> z.err == Nil && old(z.Here()).pos < z.Here().pos
      ensures CommentTurn(z.Here(), done, z.base + end, dashCount, r)
    {
      done, end, dashCount := true, 0, 0;
      var c := ReadByte();
      if z.err != Nil {
        end := z.raw.end - if dashCount0 > 2 then 2 else dashCount0;
      } else if c == DASH {
        done, dashCount := false, dashCount0 + 1;
      } else if c == GT && dashCount0 >= 2 {
        end := z.raw.end - |Bytes("-->")|;
      } else if c == BANG && dashCount0 >= 2 {
        done, end := CommentBang(r);
      } else {
        done := false;
      }
    }

    /** The byte behind "--!". */
    method CommentBang(ghost r: Scan) returns (done: bool, end: int)
      requires Valid() && z.err == Nil && r == BehindBang(z.input, z.Here().pos)
      modifies z, z.r, z.buf
      ensures Valid() && (z.buf == old(z.buf) || fresh(z.buf)) && Still(old(z.Here()), z.Here(), old(z.Here()).pos)
      ensures !done ==> z.err == Nil && old(z.Here()).pos < z.Here().pos
      ensures CommentTurn(z.Here(), done, z.base + end, 0, r)
    {
      var c := ReadByte();
      done := z.err != Nil || c == GT;
      end := if z.err != Nil then z.raw.end else z.raw.end - |Bytes("--!>")|;
    }

    method ReadUntilCloseAngle()
      requires Valid()
      modifies z, z.r, z.buf
      ensures Valid() && (z.buf == old(z.buf) || fresh(z.buf)) && Moved(old(z.Here()), z.Here(), old(z.Here()).pos)
      ensures Inside(z.Here().data, z.Here())
      ensures FoundData(z.Here(), UpToAngle(z.input, SpotOf(old(z.Here()))))
    {
      SetData(z.raw.end, z.data.end);
      if z.err != Nil {
        // readByte reports the error again
        SetData(z.data.start, z.raw.end);
        return;
      }
      var end := ScanTo(Angle);
      SetData(z.data.start, end);
    }

    /** The loops that look for the end of a name, key, value or anything up to ">": the offset where it ends. */
    method ScanTo(target: Target) returns (end: int)
      requires Valid() && z.err == Nil
      modifies z, z.r, z.buf
      ensures Valid() && (z.buf == old(z.buf) || fresh(z.buf)) && Still(old(z.Here()), z.Here(), old(z.Here()).pos)
      ensures old(z.Here()).pos <= z.base + end <= z.Here().pos
      ensures ScanDone(z.Here(), z.base + end, ScanFor(target, z.input, old(z.Here()).pos))
    {
      ghost var v := z.Here();
      var done := false;
      end := 0;
      while !done
        invariant Valid() && (z.buf == old(z.buf) || fresh(z.buf)) && Still(v, z.Here(), v.pos)
        invariant !done ==> z.err == Nil && ScanFor(target, z.input, z.Here().pos) == ScanFor(target, z.input, v.pos)
        invariant done ==> v.pos <= z.base + end <= z.Here().pos
        invariant done ==> ScanDone(z.Here(), z.base + end, ScanFor(target, z.input, v.pos))
        decreases !done, |z.input| - z.Here().pos
      {
        done, end := ScanByte(target);
      }
    }

    /** One byte of such a loop. */
    method ScanByte(target: Target) returns (done: bool, end: int)
      requires Valid() && z.err == Nil
      modifies z, z.r, z.buf
      ensures Valid() && (z.buf == old(z.buf) || fresh(z.buf)) && Still(old(z.Here()), z.Here(), old(z.Here()).pos)
      ensures !done ==> z.err == Nil && old(z.Here()).pos < z.Here().pos
      ensures !done ==> ScanFor(target, z.input, z.Here().pos) == ScanFor(target, z.input, old(z.Here()).pos)
      ensures done ==> old(z.Here()).pos <= z.base + end <= z.Here().pos
      ensures done ==> ScanDone(z.Here(), z.base + end, ScanFor(target, z.input, old(z.Here()).pos))
    {
      var c := ReadByte();
      if z.err != Nil {
        return true, z.raw.end;
      }
      match ActionAt(target, c)
      case Go =>
        done, end := false, 0;
      case Take =>
        done, end := true, z.raw.end - 1;
      case Leave =>
        Unread(1);
        done, end := true, z.raw.end;
    }

    /** Matches the bytes of a keyword, upper- or, with fold, lower-case; on a mismatch backs up to data.start. */
    method ReadKeyword(s: seq<byte>, fold: int) returns (matched: bool)
      requires Valid() && z.err == Nil && z.Here().data.start == z.Here().pos && (fold == 0 || fold == CASE)
      modifies z, z.r, z.buf
      ensures Valid() && (z.buf == old(z.buf) || fresh(z.buf)) && Moved(old(z.Here()), z.Here(), old(z.Here()).pos)
      ensures z.Here().data.start == old(z.Here()).data.start
      ensures matched ==> z.err == Nil
      ensures !matched && z.err == Nil ==> z.Here().pos == old(z.Here()).pos
      ensures KeywordDone(z.Here(), matched, KeywordAt(z.input, old(z.Here()).pos, s, fold, 0))
    {
      matched := ScanKeyword(s, fold);
      if z.err != Nil {
        SetData(z.data.start, z.raw.end);
      } else if !matched {
        z.raw := Span(z.raw.start, z.data.start);
      }
    }

    /** Its loop, which stops behind the byte that differs. */
    method ScanKeyword(s: seq<byte>, fold: int) returns (matched: bool)
      requires Valid() && z.err == Nil
      modifies z, z.r, z.buf
      ensures Valid() && (z.buf == old(z.buf) || fresh(z.buf)) && Still(old(z.Here()), z.Here(), old(z.Here()).pos)
      ensures matched ==> z.err == Nil
      ensures KeywordEnds(z.Here(), matched, KeywordAt(z.input, old(z.Here()).pos, s, fold, 0))
    {
      ghost var v := z.Here();
      ghost var r := KeywordAt(z.input, v.pos, s, fold, 0);
      var i := 0;
      matched := true;
      while matched && i < |s|
        invariant Valid() && (z.buf == old(z.buf) || fresh(z.buf)) && Still(v, z.Here(), v.pos) && i <= |s|
        invariant if matched then z.err == Nil && Keyed(z.Here(), v.pos, s, fold, i, r)
          else KeywordEnds(z.Here(), false, r)
        decreases |s| - i
      {
        matched := KeywordByte(s, fold, i, v.pos, r);
        i := i + 1;
      }
    }

    /** One byte of the keyword. */
    method KeywordByte(s: seq<byte>, fold: int, i: nat, ghost p: int, ghost r: Found<bool>) returns (matched: bool)
      requires Valid() && z.err == Nil && i < |s| && Keyed(z.Here(), p, s, fold, i, r)
      modifies z, z.r, z.buf
      ensures Valid() && (z.buf == old(z.buf) || fresh(z.buf)) && Still(old(z.Here()), z.Here(), old(z.Here()).pos)
      ensures if matched then z.err == Nil && Keyed(z.Here(), p, s, fold, i + 1, r) else KeywordEnds(z.Here(), false, r)
    {
      var c := ReadByte();
      matched := z.err == Nil && (c == s[i] || c == s[i] + fold);
    }

    method ReadDoctype() returns (found: bool)
      requires Valid() && z.err == Nil && z.Here().data.start == z.Here().pos
      modifies z, z.r, z.buf
      ensures Valid() && (z.buf == old(z.buf) || fresh(z.buf)) && Moved(old(z.Here()), z.Here(), old(z.Here()).pos)
      ensures found ==> Inside(z.Here().data, z.Here())
      ensures !found && z.err == Nil ==> z.Here().pos == old(z.Here()).pos == z.Here().data.start
      ensures z.err != NoProgress ==>
        var d := KeywordAt(z.input, old(z.Here()).pos, Bytes("DOCTYPE"), CASE, 0);
        found == d.it && if found then FoundData(z.Here(), DoctypeAt(z.input, d.spot.pos))
          else SpotOf(z.Here()) == d.spot
    {
      found := ReadKeyword(Bytes("DOCTYPE"), CASE);
      if found {
        ReadDoctypeData();
      }
    }

    /** What follows the keyword. */
    method ReadDoctypeData()
      requires Valid() && z.err == Nil
      modifies z, z.r, z.buf
      ensures Valid() && (z.buf == old(z.buf) || fresh(z.buf)) && Moved(old(z.Here()), z.Here(), old(z.Here()).pos)
      ensures Inside(z.Here().data, z.Here())
      ensures FoundData(z.Here(), DoctypeAt(z.input, old(z.Here()).pos))
    {
      SkipWhiteSpace();
      if z.err != Nil {
        SetData(z.raw.end, z.raw.end);
        return;
      }
      ReadUntilCloseAngle();
    }

    method ReadCDATA() returns (found: bool)
      requires Valid() && (z.err == Nil ==> z.Here().data.start == z.Here().pos)
      modifies z, z.r, z.buf
      ensures Valid() && (z.buf == old(z.buf) || fresh(z.buf)) && Moved(old(z.Here()), z.Here(), old(z.Here()).pos)
      ensures found ==> Inside(z.Here().data, z.Here())
      ensures old(z.err) != Nil ==> !found
      ensures old(z.err) == Nil && z.err != NoProgress ==>
        var c := KeywordAt(z.input, old(z.Here()).pos, Bytes("[CDATA["), 0, 0);
        found == c.it
        && if found then FoundData(z.Here(), CdataAt(z.input, c.spot.pos)) else SpotOf(z.Here()) == c.spot
    {
      if z.err != Nil {
        // readByte would report the error again
        SetData(z.data.start, z.raw.end);
        return false;
      }
      found := ReadKeyword(Bytes("[CDATA["), 0);
      if found {
        SetData(z.raw.end, z.data.end);
        var end := ScanCDATA();
        SetData(z.data.start, end);
      }
    }

    /** The loop over the section's bytes; the offset where its data ends. */
    method ScanCDATA() returns (end: int)
      requires Valid() && z.err == Nil
      modifies z, z.r, z.buf
      ensures Valid() && (z.buf == old(z.buf) || fresh(z.buf)) && Still(old(z.Here()), z.Here(), old(z.Here()).pos)
      ensures old(z.Here()).pos <= z.base + end <= z.Here().pos
      ensures ScanDone(z.Here(), z.base + end, CdataEnd(z.input, old(z.Here()).pos, 0))
    {
      ghost var v := z.Here();
      var brackets: nat, done := 0, false;
      end := 0;
      while !done
        invariant Valid() && (z.buf == old(z.buf) || fresh(z.buf)) && Still(v, z.Here(), v.pos)
        invariant !done ==> z.err == Nil && brackets <= z.Here().pos - v.pos
        invariant !done ==> CdataEnd(z.input, z.Here().pos, brackets) == CdataEnd(z.input, v.pos, 0)
        invariant done ==> v.pos <= z.base + end <= z.Here().pos
        invariant done ==> ScanDone(z.Here(), z.base + end, CdataEnd(z.input, v.pos, 0))
        decreases !done, |z.input| - z.Here().pos
      {
        done, end, brackets := CdataByte(brackets, v.pos);
      }
    }

    /** One turn of it. */
    method CdataByte(brackets0: nat, ghost p: int) returns (done: bool, end: int, brackets: nat)
      requires Valid() && z.err == Nil && brackets0 <= z.Here().pos - p
      modifies z, z.r, z.buf
      ensures Valid() && (z.buf == old(z.buf) || fresh(z.buf)) && Still(old(z.Here()), z.Here(), old(z.Here()).pos)
      ensures !done ==> z.err == Nil && old(z.Here()).pos < z.Here().pos && brackets <= z.Here().pos - p
      ensures !done ==> CdataEnd(z.input, z.Here().pos, brackets) == CdataEnd(z.input, old(z.Here()).pos, brackets0)
      ensures done ==> p <= z.base + end <= z.Here().pos
      ensures done ==> ScanDone(z.Here(), z.base + end, CdataEnd(z.input, old(z.Here()).pos, brackets0))
    {
      done, end, brackets := false, 0, 0;
      var c := ReadByte();
      if z.err != Nil {
        done, end := true, z.raw.end;
      } else if c == RBRACKET {
        brackets := brackets0 + 1;
      } else if c == GT && brackets0 >= 2 {
        done, end := true, z.raw.end - |Bytes("]]>")|;
      }
    }

    /** readMarkupDeclaration, "<!" already consumed. */
    method ReadMarkupDeclaration() returns (t: TokenType)
      requires Valid() && z.err == Nil
      modifies z, z.r, z.buf, this`convertNUL
      ensures Valid() && (z.buf == old(z.buf) || fresh(z.buf)) && Moved(old(z.Here()), z.Here(), old(z.Here()).pos)
      ensures Inside(z.Here().data, z.Here()) && (t == CommentToken || t == DoctypeToken || t == TextToken)
      ensures MarkupDone(z.Here(), t, old(convertNUL), convertNUL, MarkupAt(z.input, old(z.Here()).pos, allowCDATA))
    {
      ghost var p := z.Here().pos;
      ghost var r := MarkupAt(z.input, p, allowCDATA);
      SetData(z.raw.end, z.data.end);
      var c0, c1 := ReadTwo();
      t := ReadDeclared(c0, c1, p, r);
    }

    /** The rest of it, its two bytes read, unless the input has ended. */
    method ReadDeclared(c0: byte, c1: byte, ghost p: int, ghost r: Found<Markup>) returns (t: TokenType)
      requires Valid() && 0 <= z.Here().start <= z.Here().data.start == p && TwoRead(z.Here(), p, c0, c1)
      requires z.err != NoProgress ==> r == MarkupAt(z.input, p, allowCDATA)
      modifies z, z.r, z.buf, this`convertNUL
      ensures Valid() && (z.buf == old(z.buf) || fresh(z.buf)) && Moved(old(z.Here()), z.Here(), p)
      ensures Inside(z.Here().data, z.Here()) && (t == CommentToken || t == DoctypeToken || t == TextToken)
      ensures MarkupDone(z.Here(), t, old(convertNUL), convertNUL, r)
    {
      hide CommentAt, DoctypeOrBogusAt;
      if z.err != Nil {
        SetData(z.data.start, z.raw.end);
        t := CommentToken;
      } else if c0 == DASH && c1 == DASH {
        ReadComment();
        t := CommentToken;
      } else {
        Unread(2);
        t := ReadDoctypeOrBogus();
      }
    }

    /** Two bytes, or as many as there are. */
    method ReadTwo() returns (c0: byte, c1: byte)
      requires Valid() && z.err == Nil
      modifies z, z.r, z.buf
      ensures Valid() && (z.buf == old(z.buf) || fresh(z.buf)) && Still(old(z.Here()), z.Here(), old(z.Here()).pos)
      ensures TwoRead(z.Here(), old(z.Here()).pos, c0, c1)
    {
      c1 := 0;
      c0 := ReadByte();
      if z.err == Nil {
        c1 := ReadByte();
      }
    }

    /** "<!" not followed by "--": a doctype, a CDATA section where allowed, or a bogus comment. */
    method ReadDoctypeOrBogus() returns (t: TokenType)
      requires Valid() && z.err == Nil && z.Here().data.start == z.Here().pos
      modifies z, z.r, z.buf, this`convertNUL
      ensures Valid() && (z.buf == old(z.buf) || fresh(z.buf)) && Moved(old(z.Here()), z.Here(), old(z.Here()).pos)
      ensures Inside(z.Here().data, z.Here()) && (t == CommentToken || t == DoctypeToken || t == TextToken)
      ensures MarkupDone(z.Here(), t, old(convertNUL), convertNUL,
        DoctypeOrBogusAt(z.input, old(z.Here()).pos, allowCDATA))
    {
      var doctype := ReadDoctype();
      if doctype {
        t := DoctypeToken;
      } else {
        t := ReadCdataOrBogus();
      }
    }

    /** Neither a comment nor a doctype. */
    method ReadCdataOrBogus() returns (t: TokenType)
      requires Valid() && (z.err == Nil ==> z.Here().data.start == z.Here().pos)
      modifies z, z.r, z.buf, this`convertNUL
      ensures Valid() && (z.buf == old(z.buf) || fresh(z.buf)) && Moved(old(z.Here()), z.Here(), old(z.Here()).pos)
      ensures Inside(z.Here().data, z.Here()) && (t == CommentToken || t == TextToken)
      ensures MarkupDone(z.Here(), t, old(convertNUL), convertNUL,
        CdataOrBogusAt(z.input, SpotOf(old(z.Here())), allowCDATA))
    {
      if allowCDATA {
        var cdata := ReadCDATA();
        if cdata {
          convertNUL := true;
          return TextToken;
        }
      }
      ReadUntilCloseAngle();
      t := CommentToken;
    }

    // ---------- tags ----------

    method ReadTagName()
      requires Valid() && z.err == Nil && z.Here().start + 1 <= z.Here().pos
      modifies z, z.r, z.buf
      ensures Valid() && (z.buf == old(z.buf) || fresh(z.buf)) && Moved(old(z.Here()), z.Here(), old(z.Here()).pos)
      ensures z.Here().attrs == old(z.Here()).attrs
      ensures Inside(z.Here().data, z.Here()) && z.Here().data.start == old(z.Here()).pos - 1 < z.Here().data.end
      ensures ScanDone(z.Here(), z.Here().data.end, ScanFor(Name, z.input, old(z.Here()).pos))
    {
      SetData(z.raw.end - 1, z.data.end);
      var end := ScanTo(Name);
      SetData(z.data.start, end);
    }

    /** z.pendingAttr[0] = {start, end}. */
    method SetKey(start: int, end: int)
      requires Valid()
      modifies z`pendingAttr
      ensures Valid() && z.pendingAttr == old(z.pendingAttr).(key := Span(start, end))
      ensures z.Here() == old(z.Here()).(pending := old(z.Here()).pending.(key := Span(z.base + start, z.base + end)))
    {
      z.pendingAttr := z.pendingAttr.(key := Span(start, end));
    }

    /** z.pendingAttr[1] = {start, end}. */
    method SetVal(start: int, end: int)
      requires Valid()
      modifies z`pendingAttr
      ensures Valid() && z.pendingAttr == old(z.pendingAttr).(val := Span(start, end))
      ensures z.Here() == old(z.Here()).(pending := old(z.Here()).pending.(val := Span(z.base + start, z.base + end)))
    {
      z.pendingAttr := z.pendingAttr.(val := Span(start, end));
    }

    method ReadTagAttrKey()
      requires Valid() && z.err == Nil
      modifies z, z.r, z.buf
      ensures Valid() && (z.buf == old(z.buf) || fresh(z.buf)) && Moved(old(z.Here()), z.Here(), old(z.Here()).pos)
      ensures z.Here().attrs == old(z.Here()).attrs && z.Here().data == old(z.Here()).data
      ensures Inside(z.Here().pending.key, z.Here()) && z.Here().pending.key.start == old(z.Here()).pos
      ensures ScanDone(z.Here(), z.Here().pending.key.end, ScanFor(Key, z.input, old(z.Here()).pos))
    {
      SetKey(z.raw.end, z.pendingAttr.key.end);
      var end := ScanTo(Key);
      SetKey(z.pendingAttr.key.start, end);
    }

    /** A value in quotes, up to the closing quote, or a bare value whose first byte is read already. */
    method ReadVal(back: nat, target: Target)
      requires Valid() && z.err == Nil && z.Here().start + back <= z.Here().pos
      modifies z, z.r, z.buf
      ensures Valid() && (z.buf == old(z.buf) || fresh(z.buf)) && Moved(old(z.Here()), z.Here(), old(z.Here()).pos)
      ensures ValueRead(old(z.Here()), z.Here())
      ensures z.Here().pending.val.start == old(z.Here()).pos - back
      ensures ScanDone(z.Here(), z.Here().pending.val.end, ScanFor(target, z.input, old(z.Here()).pos))
    {
      SetVal(z.raw.end - back, z.pendingAttr.val.end);
      var end := ScanTo(target);
      SetVal(z.pendingAttr.val.start, end);
    }

    method ReadTagAttrVal()
      requires Valid()
      modifies z, z.r, z.buf
      ensures Valid() && (z.buf == old(z.buf) || fresh(z.buf)) && Moved(old(z.Here()), z.Here(), old(z.Here()).pos)
      ensures ValueRead(old(z.Here()), z.Here())
      ensures FoundVal(z.Here(), ValueAt(z.input, SpotOf(old(z.Here()))))
    {
      hide SpacesEnd, ValueFrom;
      ghost var r := ValueAt(z.input, SpotOf(z.Here()));
      SetVal(z.raw.end, z.raw.end);
      var c := ReadPastSpace();
      if z.err == Nil {
        ReadValBehind(c, r);
      }
    }

    /** Skips white space and reads the byte behind it. */
    method ReadPastSpace() returns (c: byte)
      requires Valid()
      modifies z, z.r, z.buf
      ensures Valid() && (z.buf == old(z.buf) || fresh(z.buf)) && Still(old(z.Here()), z.Here(), old(z.Here()).pos)
      ensures z.err == Nil ==> old(z.Here()).pos < z.Here().pos
      ensures PastSpace(z.Here(), c, AfterSpaces(z.input, SpotOf(old(z.Here()))))
    {
      c := 0;
      SkipWhiteSpace();
      if z.err == Nil {
        c := ReadByte();
      }
    }

    /** The value after the byte behind the key, if that is an equals sign. */
    method ReadValBehind(c: byte, ghost r: Found<Span>)
      requires Behind(z.Here(), c) && Valid()
      requires r == ValueFrom(z.input, z.Here().pos - 1, z.Here().pending.val.start)
      modifies z, z.r, z.buf
      ensures Valid() && (z.buf == old(z.buf) || fresh(z.buf)) && Moved(old(z.Here()), z.Here(), old(z.Here()).pos - 1)
      ensures ValueRead(old(z.Here()), z.Here())
      ensures FoundVal(z.Here(), r)
    {
      if c != EQ {
        Unread(1);
      } else {
        ReadValAfterEquals(r);
      }
    }

    method ReadValAfterEquals(ghost r: Found<Span>)
      requires Valid() && z.err == Nil && NoValue(z.Here())
      requires r == ValueAfterEquals(z.input, z.Here().pos, z.Here().pending.val.start)
      modifies z, z.r, z.buf
      ensures Valid() && (z.buf == old(z.buf) || fresh(z.buf)) && Moved(old(z.Here()), z.Here(), old(z.Here()).pos)
      ensures ValueRead(old(z.Here()), z.Here())
      ensures FoundVal(z.Here(), r)
    {
      var quote := ReadPastSpace();
      if z.err == Nil {
        ReadQuotedOrBare(quote, r);
      }
    }

    /** The value that a byte behind the equals sign begins. */
    method ReadQuotedOrBare(quote: byte, ghost r: Found<Span>)
      requires Behind(z.Here(), quote) && Valid()
      requires r == QuotedOrBare(z.input, z.Here().pos - 1, z.Here().pending.val.start)
      modifies z, z.r, z.buf
      ensures Valid() && (z.buf == old(z.buf) || fresh(z.buf)) && Moved(old(z.Here()), z.Here(), old(z.Here()).pos - 1)
      ensures ValueRead(old(z.Here()), z.Here())
      ensures FoundVal(z.Here(), r)
    {
      if quote == GT {
        Unread(1);
      } else if quote == APOS || quote == QUOT {
        ReadVal(0, Quoted(quote));
      } else {
        ReadVal(1, Bare);
      }
    }

    /** z.attr = append(z.attr, z.pendingAttr), when its key is not empty. */
    method SavePending(saveAttr: bool)
      requires Valid() && AttrInside(z.Here().pending, z.Here()) && AttrsInside(z.Here())
      modifies z`attr
      ensures Valid() && z.Here() == old(z.Here()).(attrs := z.Here().attrs) && AttrsInside(z.Here())
      ensures z.Here().attrs == old(z.Here()).attrs + Saved(z.Here().pending, saveAttr)
    {
      if saveAttr && z.pendingAttr.key.start != z.pendingAttr.key.end {
        z.attr := z.attr + [z.pendingAttr];
      }
    }

    /** One attribute, at a byte that is neither a space nor ">"; all is what the tag's attributes will be. */
    method ReadAttr(saveAttr: bool, ghost all: Found<seq<Attr>>)
      requires Valid() && z.err == Nil && AttrsInside(z.Here()) && AttrsLeft(z.Here(), saveAttr, all)
      requires z.Here().pos < |z.input| && z.input[z.Here().pos] != GT
      modifies z, z.r, z.buf
      ensures Valid() && (z.buf == old(z.buf) || fresh(z.buf)) && Moved(old(z.Here()), z.Here(), old(z.Here()).pos)
      ensures AttrsOn(old(z.Here()), z.Here())
      ensures AttrsLeft(z.Here(), saveAttr, all)
    {
      ghost var v := z.Here();
      ReadPair(saveAttr);
      ghost var u := z.Here();
      SkipWhiteSpace();
      LeftAfterOne(v, u, z.Here(), saveAttr, all);
    }

    /** The key and the value of an attribute, saved if wanted. */
    method ReadPair(saveAttr: bool)
      requires Valid() && z.err == Nil && AttrsInside(z.Here())
      requires z.Here().pos < |z.input| && z.input[z.Here().pos] != GT
      modifies z, z.r, z.buf
      ensures Valid() && (z.buf == old(z.buf) || fresh(z.buf)) && Moved(old(z.Here()), z.Here(), old(z.Here()).pos)
      ensures AttrsOn(old(z.Here()), z.Here())
      ensures z.Here().attrs == old(z.Here()).attrs + Saved(z.Here().pending, saveAttr)
      ensures FoundPair(z.Here(), PairAt(z.input, old(z.Here()).pos))
    {
      ReadKeyAndVal();
      SavePending(saveAttr);
    }

    /** The key and the value of an attribute, into the pending one. */
    method ReadKeyAndVal()
      requires Valid() && z.err == Nil && z.Here().pos < |z.input| && z.input[z.Here().pos] != GT
      modifies z, z.r, z.buf
      ensures Valid() && (z.buf == old(z.buf) || fresh(z.buf)) && Moved(old(z.Here()), z.Here(), old(z.Here()).pos)
      ensures z.Here().data == old(z.Here()).data && z.Here().attrs == old(z.Here()).attrs
      ensures AttrInside(z.Here().pending, z.Here())
      ensures FoundPair(z.Here(), PairAt(z.input, old(z.Here()).pos))
    {
      ReadTagAttrKey();
      ReadTagAttrVal();
    }

    /** The attributes of a tag, up to and including the closing ">". */
    method ReadAttrs(saveAttr: bool, ghost all: Found<seq<Attr>>)
      requires Valid() && AttrsInside(z.Here()) && AttrsLeft(z.Here(), saveAttr, all)
      modifies z, z.r, z.buf
      ensures Valid() && (z.buf == old(z.buf) || fresh(z.buf)) && Moved(old(z.Here()), z.Here(), old(z.Here()).pos)
      ensures AttrsOn(old(z.Here()), z.Here())
      ensures AttrsRead(z.Here(), all)
    {
      ghost var v := z.Here();
      while z.err == Nil
        invariant Valid() && (z.buf == old(z.buf) || fresh(z.buf)) && Moved(v, z.Here(), v.pos)
        invariant z.Here().data == v.data && AttrsInside(z.Here()) && AttrsLeft(z.Here(), saveAttr, all)
        decreases |z.input| - z.Here().pos + if z.err == Nil then 1 else 0
      {
        var done := NextAttr(saveAttr, all);
        if done {
          return;
        }
      }
    }

    /** One turn: the end of the tag, or one attribute. */
    method NextAttr(saveAttr: bool, ghost all: Found<seq<Attr>>) returns (done: bool)
      requires Valid() && AttrsInside(z.Here()) && z.err == Nil && AttrsLeft(z.Here(), saveAttr, all)
      modifies z, z.r, z.buf
      ensures Valid() && (z.buf == old(z.buf) || fresh(z.buf)) && Moved(old(z.Here()), z.Here(), old(z.Here()).pos)
      ensures AttrsOn(old(z.Here()), z.Here())
      ensures if done then AttrsRead(z.Here(), all) else AttrsLeft(z.Here(), saveAttr, all)
    {
      ghost var v := z.Here();
      var c := ReadByte();
      done := z.err != Nil || c == GT;
      if done {
        AttrsEnd(v, z.Here(), saveAttr, all);
      } else {
        Unread(1);
        ReadAttr(saveAttr, all);
      }
    }

    /** readTag: the tag name and the attributes. */
    method ReadTag(saveAttr: bool)
      requires Valid() && z.err == Nil && z.Here().start + 1 <= z.Here().pos
      modifies z, z.r, z.buf
      ensures Valid() && (z.buf == old(z.buf) || fresh(z.buf)) && Moved(old(z.Here()), z.Here(), old(z.Here()).pos)
      ensures Inside(z.Here().data, z.Here()) && z.Here().data.start == old(z.Here()).pos - 1 < z.Here().data.end
      ensures AttrsInside(z.Here()) && (z.err == Nil ==> old(z.Here()).pos < z.Here().pos)
      ensures TagDone(z.Here(), TagAt(z.input, old(z.Here()).pos, saveAttr))
    {
      ghost var p := z.Here().pos;
      ghost var r := TagAt(z.input, p, saveAttr);
      StartName();
      ReadAttrs(saveAttr, Found(r.it.attrs, r.spot));
    }

    /** No attributes yet, the name, and the white space behind it. */
    method StartName()
      requires Valid() && z.err == Nil && z.Here().start + 1 <= z.Here().pos
      modifies z, z.r, z.buf
      ensures Valid() && (z.buf == old(z.buf) || fresh(z.buf)) && Moved(old(z.Here()), z.Here(), old(z.Here()).pos)
      ensures Inside(z.Here().data, z.Here()) && z.Here().data.start == old(z.Here()).pos - 1 < z.Here().data.end
      ensures z.Here().attrs == [] && NameRead(z.Here(), ScanFor(Name, z.input, old(z.Here()).pos))
    {
      z.attr := [];
      ReadTagName();
      SkipWhiteSpace();
    }

    /** startTagIn: whether the tag name matches one of ss, ignoring case. */
    method StartTagIn(ss: seq<string>) returns (found: bool)
      requires Valid() && 0 <= z.data.start <= z.data.end <= z.len
      ensures found == OneOf(LowerAll(z.buf[z.data.start..z.data.end]), ss)
    {
      var name := LowerAll(z.buf[z.data.start..z.data.end]);
      for i := 0 to |ss|
        invariant forall j :: 0 <= j < i ==> name != Bytes(ss[j])
      {
        if name == Bytes(ss[i]) {
          return true;
        }
      }
      found := false;
    }

    /** Tags whose content is raw text. */
    method NameIsRaw(c: byte) returns (isRaw: bool)
      requires Valid() && 0 <= z.data.start < z.data.end <= z.len && c == Lower(z.buf[z.data.start])
      ensures isRaw == RawName(LowerAll(z.buf[z.data.start..z.data.end]))
    {
      RawByFirst(LowerAll(z.buf[z.data.start..z.data.end]));
      isRaw := false;
      if c == 'i' as int { isRaw := StartTagIn(["iframe"]); }
      else if c == 'n' as int { isRaw := StartTagIn(["noembed", "noframes", "noscript"]); }
      else if c == 'p' as int { isRaw := StartTagIn(["plaintext"]); }
      else if c == 's' as int { isRaw := StartTagIn(["script", "style"]); }
      else if c == 't' as int { isRaw := StartTagIn(["textarea", "title"]); }
      else if c == 'x' as int { isRaw := StartTagIn(["xmp"]); }
    }

    method ReadStartTag(ghost s: Step) returns (t: TokenType)
      requires Blank() && z.err == Nil && rawTag == [] && 0 <= z.Here().start == z.Here().pos - 2
      requires s == StartTagAt(z.input, z.Here().start, z.Here().pos)
      modifies z, z.r, z.buf, this`rawTag
      ensures Valid() && (z.buf == old(z.buf) || fresh(z.buf)) && Moved(old(z.Here()), z.Here(), old(z.Here()).pos)
      ensures Tagged(t, false, s)
    {
      ghost var p := z.Here().pos;
      ReadTag(true);
      t := TagKind(TagAt(z.input, p, true));
      StartTagMade(z.Here(), t, rawTag, p);
    }

    /** The name and the byte before the last one, in the buffer and in the input. */
    lemma NameDenotes()
      requires Valid() && z.Here().start + 2 <= z.Here().pos && Inside(z.Here().data, z.Here())
      ensures z.buf[z.data.start..z.data.end] == z.input[z.Here().data.start..z.Here().data.end]
      ensures z.buf[z.raw.end - 2] == z.input[z.Here().pos - 2]
    {
      z.SpanDenotes(z.data);
      z.SpanDenotes(Span(z.raw.end - 2, z.raw.end));
      assert z.buf[z.raw.end - 2] == z.buf[z.raw.end - 2..z.raw.end][0];
    }

    /** A start tag has been read: whether raw text follows it, and whether it closes itself. */
    method TagKind(ghost r: Found<Tag>) returns (t: TokenType)
      requires Valid() && rawTag == [] && 0 <= z.Here().start <= z.Here().pos - 2 && TagDone(z.Here(), r)
      requires Inside(z.Here().data, z.Here()) && z.Here().data.start < z.Here().data.end
      modifies this`rawTag
      ensures KindOf(z.Here(), t, rawTag)
    {
      if z.err != Nil {
        return ErrorToken;
      }
      NameDenotes();
      var isRaw := NameIsRaw(Lower(z.buf[z.data.start]));
      if isRaw {
        rawTag := LowerAll(z.buf[z.data.start..z.data.end]);
      }
      t := if z.buf[z.raw.end - 2] == SLASH then SelfClosingTagToken else StartTagToken;
    }

    // ---------- Next ----------

    /** The token is the one of the step. */
    ghost predicate Made(t: TokenType, s: Step)
      reads this, z
    {
      TokenMade(z.Here(), t, rawTag, textIsRaw, convertNUL, s)
    }

    /** The input is at its end, and the step is what is left of it. */
    ghost predicate Finished(s: Step)
      reads this, z
    {
      z.err != Nil
      && (z.err != NoProgress ==> z.Here().pos == |z.input| && s == AtEnd(z.input, z.Here().start, rawTag))
    }

    /** The step is what Next's loop will come to. */
    ghost predicate Ready(s: Step)
      reads this, z
    {
      var v := z.Here();
      && 0 <= v.start == v.pos <= |z.input|
      && if z.err != Nil then Finished(s) else rawTag == [] && s == TextOrOpened(z.input, v.pos, allowCDATA)
    }

    /** Nothing about the token is known yet. */
    ghost predicate Blank()
      reads this, z, z.r, z.buf
    {
      Valid() && z.Here().data == Span(z.Here().start, z.Here().start) && !textIsRaw && !convertNUL
    }

    /** The step's token has been made, or the input has ended before its type was known. */
    ghost predicate Tagged(t: TokenType, ended: bool, s: Step)
      reads this, z, z.r, z.buf
    {
      if ended then z.err != Nil && Blank() && Finished(s) else TokenDone(z.Here(), t) && Made(t, s)
    }

    /** The raw text or RCDATA that follows a start tag which asked for it. */
    method NextRawText()
      requires Valid() && z.err == Nil && rawTag != [] && z.Here().start == z.Here().pos
      requires z.Here().data == Span(z.Here().pos, z.Here().pos)
      modifies z, z.r, z.buf, this`textIsRaw, this`rawTag
      ensures Valid() && (z.buf == old(z.buf) || fresh(z.buf)) && Moved(old(z.Here()), z.Here(), old(z.Here()).start)
      ensures z.Here().data == Span(z.Here().start, z.Here().pos)
      ensures Reads(z.Here(), RawSpot(z.input, old(z.Here()).pos, old(rawTag)))
      ensures rawTag == if old(rawTag) == Bytes("plaintext") then old(rawTag) else []
      ensures textIsRaw == (old(rawTag) != Bytes("textarea") && old(rawTag) != Bytes("title"))
      ensures z.err == Nil ==> rawTag == []
    {
      if rawTag == Bytes("plaintext") {
        ReadToEnd();
        SetData(z.data.start, z.raw.end);
        textIsRaw := true;
      } else {
        ReadRawOrRCDATA();
      }
    }

    /** Everything up to the end of the input. */
    method ReadToEnd()
      requires Valid()
      modifies z, z.r, z.buf
      ensures Valid() && (z.buf == old(z.buf) || fresh(z.buf)) && Still(old(z.Here()), z.Here(), old(z.Here()).pos)
      ensures Reads(z.Here(), Spot(|z.input|, true))
    {
      ghost var v := z.Here();
      while z.err == Nil
        invariant Valid() && (z.buf == old(z.buf) || fresh(z.buf)) && Still(v, z.Here(), v.pos)
        decreases |z.input| - z.Here().pos + if z.err == Nil then 1 else 0
      {
        var c := ReadByte();
      }
      z.ErrorAtEnd();
    }

    /** A text token of that, if there is any text. */
    method NextRaw(ghost s: Step) returns (done: bool)
      requires Valid() && z.err == Nil && rawTag != [] && 0 <= z.Here().start == z.Here().pos <= |z.input|
      requires z.Here().data == Span(z.Here().pos, z.Here().pos)
      requires s == TokenAt(z.input, Between(SpotOf(z.Here()), rawTag), allowCDATA)
      modifies z, z.r, z.buf, this`textIsRaw, this`rawTag, this`tt, this`convertNUL
      ensures Valid() && (z.buf == old(z.buf) || fresh(z.buf)) && Moved(old(z.Here()), z.Here(), old(z.Here()).start)
      ensures z.Here().data == Span(z.Here().start, z.Here().pos)
      ensures if done then TokenDone(z.Here(), tt) && Made(tt, s) else z.Here().start == z.Here().pos && Ready(s)
    {
      ghost var p, end := z.Here().pos, RawSpot(z.input, z.Here().pos, rawTag);
      ghost var tag := rawTag;
      NextRawText();
      done := RawRead(tag, end, s);
    }

    /** The raw text up to the spot has been read: a token if it is not empty. */
    method RawRead(ghost tag: seq<byte>, ghost end: Spot, ghost s: Step) returns (done: bool)
      requires Valid() && 0 <= z.Here().start <= z.Here().pos <= |z.input| && Reads(z.Here(), end)
      requires z.Here().data == Span(z.Here().start, z.Here().pos) && On(z.input, end)
      requires z.err != NoProgress ==> s == RawOrNext(z.input, z.Here().start, tag, end, allowCDATA)
      requires rawTag == if tag == Bytes("plaintext") then tag else []
      requires textIsRaw == (tag != Bytes("textarea") && tag != Bytes("title"))
      requires z.err == Nil ==> rawTag == []
      modifies this`tt, this`convertNUL
      ensures if done then TokenDone(z.Here(), tt) && Made(tt, s) else z.Here().start == z.Here().pos && Ready(s)
    {
      done := z.data.end > z.data.start;
      if done {
        tt, convertNUL := TextToken, true;
      } else if z.err != Nil {
        z.ErrorAtEnd();
      }
    }

    /** What a "<c" at the very start of a token makes of it, unless the input ends after "</". */
    method NextTag(c: byte, ghost s: Step) returns (t: TokenType, ended: bool)
      requires Blank() && z.err == Nil && 0 <= z.Here().start == z.Here().pos - 2 && rawTag == []
      requires c == z.input[z.Here().start + 1] && Opens(c) && s == Opened(z.input, z.Here().start, allowCDATA)
      modifies z, z.r, z.buf, this`rawTag, this`convertNUL
      ensures Valid() && (z.buf == old(z.buf) || fresh(z.buf)) && Moved(old(z.Here()), z.Here(), old(z.Here()).pos - 1)
      ensures Tagged(t, ended, s)
    {
      ended := false;
      if IsLetter(c) {
        t := ReadStartTag(s);
      } else if c == SLASH {
        t, ended := NextEndTag(s);
      } else {
        t := NextDeclared(c, s);
      }
    }

    /** A token that begins with "<!" or "<?". */
    method NextDeclared(c: byte, ghost s: Step) returns (t: TokenType)
      requires Blank() && z.err == Nil && 0 <= z.Here().start == z.Here().pos - 2 && rawTag == []
      requires c == z.input[z.Here().start + 1] && (c == BANG || c == QUERY)
      requires s == DeclaredAt(z.input, z.Here().start, allowCDATA)
      modifies z, z.r, z.buf, this`convertNUL
      ensures Valid() && (z.buf == old(z.buf) || fresh(z.buf)) && Moved(old(z.Here()), z.Here(), old(z.Here()).pos - 1)
      ensures Tagged(t, false, s)
    {
      if c == BANG {
        t := NextDeclaration(s);
      } else {
        t := NextBogus(s);
      }
    }

    /** A token that begins with "<!". */
    method NextDeclaration(ghost s: Step) returns (t: TokenType)
      requires Blank() && z.err == Nil && 0 <= z.Here().start == z.Here().pos - 2 && rawTag == []
      requires s == DeclaredStep(z.Here().start, MarkupAt(z.input, z.Here().pos, allowCDATA))
      modifies z, z.r, z.buf, this`convertNUL
      ensures Valid() && (z.buf == old(z.buf) || fresh(z.buf)) && Moved(old(z.Here()), z.Here(), old(z.Here()).pos)
      ensures Tagged(t, false, s)
    {
      t := ReadMarkupDeclaration();
    }

    /** A comment from the byte just read up to the next ">". */
    method NextBogus(ghost s: Step) returns (t: TokenType)
      requires Blank() && z.err == Nil && 0 <= z.Here().start <= z.Here().pos - 2 && rawTag == []
      requires s == CommentStep(z.Here().start, UpToAngle(z.input, Spot(z.Here().pos - 1, false)))
      modifies z, z.r, z.buf
      ensures Valid() && (z.buf == old(z.buf) || fresh(z.buf)) && Moved(old(z.Here()), z.Here(), old(z.Here()).pos - 1)
      ensures Tagged(t, false, s)
    {
      Unread(1);
      ReadUntilCloseAngle();
      t := CommentToken;
    }

    method NextEndTag(ghost s: Step) returns (t: TokenType, ended: bool)
      requires Blank() && z.err == Nil && 0 <= z.Here().start == z.Here().pos - 2 && rawTag == []
      requires s == EndTagAfter(z.input, z.Here().start, z.Here().pos)
      modifies z, z.r, z.buf
      ensures Valid() && (z.buf == old(z.buf) || fresh(z.buf)) && Moved(old(z.Here()), z.Here(), old(z.Here()).pos)
      ensures Tagged(t, ended, s)
    {
      t := CommentToken;
      var c := ReadByte();
      ended := z.err != Nil;
      if !ended {
        t := EndTagOpened(c, s);
      }
    }

    /** The end tag or comment whose first byte has just been read. */
    method EndTagOpened(c: byte, ghost s: Step) returns (t: TokenType)
      requires Blank() && z.err == Nil && 0 <= z.Here().start == z.Here().pos - 3 && rawTag == []
      requires c == z.input[z.Here().pos - 1] && s == EndTagFrom(z.input, z.Here().start, z.Here().pos - 1)
      modifies z, z.r, z.buf
      ensures Valid() && (z.buf == old(z.buf) || fresh(z.buf)) && Moved(old(z.Here()), z.Here(), old(z.Here()).pos - 1)
      ensures Tagged(t, false, s)
    {
      t := CommentToken;
      if c == GT {
        return;
      }
      if IsLetter(c) {
        ReadTag(false);
        t := if z.err != Nil then ErrorToken else EndTagToken;
      } else {
        t := NextBogus(s);
      }
    }

    /**
     One turn of Next's loop: a text byte, or a "<" that opens something with the byte c behind it. The first
     such "<" is at o.
     */
    method NextStep(ghost o: Spot) returns (step: NextResult, c: byte)
      requires Valid() && z.err == Nil && OpenAhead(z.Here(), More, 0, o)
      modifies z, z.r, z.buf
      ensures Valid() && (z.buf == old(z.buf) || fresh(z.buf)) && Still(old(z.Here()), z.Here(), old(z.Here()).pos)
      ensures OpenAhead(z.Here(), step, c, o) && (step == More ==> old(z.Here()).pos < z.Here().pos)
    {
      c := ReadByte();
      if z.err != Nil {
        step := Ended;
      } else if c != LT {
        step := More;
      } else {
        step, c := NextMarkup(o);
      }
    }

    /** The rest of a turn, after a "<": the byte behind it says whether it opens something. */
    method NextMarkup(ghost o: Spot) returns (step: NextResult, c: byte)
      requires Valid() && z.err == Nil && 0 <= z.Here().start < z.Here().pos && z.input[z.Here().pos - 1] == LT
      requires FirstOpen(z.input, z.Here().pos - 1) == o
      modifies z, z.r, z.buf
      ensures Valid() && (z.buf == old(z.buf) || fresh(z.buf)) && Still(old(z.Here()), z.Here(), old(z.Here()).pos)
      ensures OpenAhead(z.Here(), step, c, o)
    {
      c := ReadByte();
      if z.err != Nil {
        step := Ended;
      } else if Opens(c) {
        step := Open;
      } else {
        Unread(1);
        step := More;
      }
    }

    /** "<c" opens something at the very start of the token. */
    method NextOpened(c: byte, ghost s: Step)
      requires Blank() && z.err == Nil && 0 <= z.Here().start == z.Here().pos - 2 && rawTag == []
      requires c == z.input[z.Here().start + 1] && Opens(c) && s == Opened(z.input, z.Here().start, allowCDATA)
      modifies z, z.r, z.buf, this`tt, this`rawTag, this`convertNUL
      ensures Valid() && (z.buf == old(z.buf) || fresh(z.buf)) && Moved(old(z.Here()), z.Here(), old(z.Here()).start)
      ensures TokenDone(z.Here(), tt) && Made(tt, s)
    {
      var t, ended := NextTag(c, s);
      if ended {
        EndText(s);
      } else {
        tt := t;
      }
    }

    /** The text before a "<c" is a token of its own, and the two bytes are given back. */
    method TextBefore(ghost s: Step)
      requires Blank() && z.err == Nil && 0 <= z.Here().start < z.Here().pos - 2 && rawTag == []
      requires var start, p := z.Here().start, z.Here().pos - 2;
        s == Plain(TextToken, start, Span(start, p), Between(Spot(p, false), []))
      modifies z, z.r, z.buf, this`tt
      ensures Valid() && (z.buf == old(z.buf) || fresh(z.buf)) && Moved(old(z.Here()), z.Here(), old(z.Here()).start)
      ensures TokenDone(z.Here(), tt) && Made(tt, s)
    {
      Unread(2);
      SetData(z.data.start, z.raw.end);
      tt := TextToken;
    }

    /** Next's loop, and what it finds. */
    method NextToken(ghost s: Step)
      requires Blank() && Ready(s)
      modifies z, z.r, z.buf, this`tt, this`rawTag, this`convertNUL
      ensures Valid() && (z.buf == old(z.buf) || fresh(z.buf)) && NextDone(old(z.Here()), z.Here(), tt)
      ensures Made(tt, s)
    {
      if z.err != Nil {
        EndText(s);
      } else {
        ghost var o := FirstOpen(z.input, z.Here().pos);
        var ended, c := NextLoop(o);
        if ended {
          EndText(s);
        } else {
          AfterLoop(c, o, s);
        }
      }
    }

    /** The loop has found a "<c" at o that opens something. The text before that comes first, as a token of its own. */
    method AfterLoop(c: byte, ghost o: Spot, ghost s: Step)
      requires Blank() && OpenAhead(z.Here(), Open, c, o) && 0 <= z.Here().start <= o.pos && rawTag == []
      requires s == OpenedAfter(z.input, z.Here().start, o.pos, allowCDATA)
      modifies z, z.r, z.buf, this`tt, this`rawTag, this`convertNUL
      ensures Valid() && (z.buf == old(z.buf) || fresh(z.buf)) && Moved(old(z.Here()), z.Here(), old(z.Here()).start)
      ensures TokenDone(z.Here(), tt) && Made(tt, s)
    {
      if z.raw.start < z.raw.end - 2 {
        TextBefore(s);
      } else {
        NextOpened(c, s);
      }
    }

    /** The loop, up to the "<c" that opens something. */
    method NextLoop(ghost o: Spot) returns (ended: bool, c: byte)
      requires Valid() && z.err == Nil && 0 <= z.Here().pos && FirstOpen(z.input, z.Here().pos) == o
      modifies z, z.r, z.buf
      ensures Valid() && (z.buf == old(z.buf) || fresh(z.buf)) && Still(old(z.Here()), z.Here(), old(z.Here()).pos)
      ensures OpenAhead(z.Here(), if ended then Ended else Open, c, o)
    {
      ghost var v := z.Here();
      var step := More;
      c := 0;
      while step == More
        invariant Valid() && (z.buf == old(z.buf) || fresh(z.buf)) && Still(v, z.Here(), v.pos)
        invariant OpenAhead(z.Here(), step, c, o)
        decreases step == More, |z.input| - z.Here().pos
      {
        step, c := NextStep(o);
      }
      ended := step == Ended;
    }

    /** The end of Next at the end of input. */
    method EndText(ghost s: Step)
      requires Blank() && Finished(s)
      modifies z`data, this`tt
      ensures Valid() && z.Here() == old(z.Here()).(data := z.Here().data)
      ensures if z.Here().start < z.Here().pos then tt == TextToken && Inside(z.Here().data, z.Here())
        else tt == ErrorToken
      ensures Made(tt, s)
    {
      if z.raw.start < z.raw.end {
        SetData(z.data.start, z.raw.end);
        tt := TextToken;
      } else {
        tt := ErrorToken;
      }
    }

    /**
     Next: the new raw token starts where the last one ended; unless it is the error token it is not
     empty, and its data and attributes lie inside it. It is the token that the input has there.
     */
    method Next() returns (t: TokenType)
      requires Valid() && 0 <= z.Here().pos <= |z.input|
      modifies this, z, z.r, z.buf
      ensures Valid() && (z.buf == old(z.buf) || fresh(z.buf)) && NextDone(old(z.Here()), z.Here(), t) && tt == t
      ensures allowCDATA == old(allowCDATA)
      ensures Made(t, TokenAt(z.input, Between(SpotOf(old(z.Here())), old(rawTag)), old(allowCDATA)))
    {
      BeginToken();
      if z.err != Nil {
        tt := ErrorToken;
        return tt;
      }
      MakeToken();
      t := tt;
    }

    /** Next, but for its first statements: raw text, if there is any, or its loop. */
    method MakeToken()
      requires Valid() && z.err == Nil && 0 <= z.Here().start == z.Here().pos <= |z.input|
      requires z.Here().data == Span(z.Here().pos, z.Here().pos)
      modifies z, z.r, z.buf, this`textIsRaw, this`rawTag, this`tt, this`convertNUL
      ensures Valid() && (z.buf == old(z.buf) || fresh(z.buf)) && NextDone(old(z.Here()), z.Here(), tt)
      ensures Made(tt, TokenAt(z.input, Between(SpotOf(old(z.Here())), old(rawTag)), allowCDATA))
    {
      ghost var s := TokenAt(z.input, Between(SpotOf(z.Here()), rawTag), allowCDATA);
      if rawTag != [] {
        var done := NextRaw(s);
        if done {
          return;
        }
      }
      textIsRaw, convertNUL := false, false;
      NextToken(s);
    }

    /** The new token starts, empty, where the last one ended. */
    method BeginToken()
      requires Valid()
      modifies z`raw, z`data
      ensures Valid()
      ensures z.Here() == old(z.Here()).(start := old(z.Here()).pos, data := Span(old(z.Here()).pos, old(z.Here()).pos))
    {
      z.raw := Span(z.raw.end, z.raw.end);
      SetData(z.raw.end, z.raw.end);
    }

    method AllowCDATA(allow: bool)
      modifies this`allowCDATA
      ensures allowCDATA == allow
    {
      allowCDATA := allow;
    }

    method NextIsNotRawText()
      modifies this`rawTag
      ensures rawTag == []
    {
      rawTag := [];
    }

    /** Raw: the bytes of the current token. */
    method Raw() returns (s: seq<byte>)
      requires Valid()
      ensures s == z.input[z.Here().start..z.Here().pos]
    {
      z.SpanDenotes(z.raw);
      s := z.buf[z.raw.start..z.raw.end];
    }

    /** The bytes of the token's data, which lies inside the current token. */
    method DataBytes() returns (s: seq<byte>)
      requires Valid() && Inside(z.Here().data, z.Here())
      ensures s == Cut(z.input, z.Here().data)
    {
      z.SpanDenotes(z.data);
      s := z.buf[z.data.start..z.data.end];
    }

    /** TagAttr, until there is no more: the bytes of every key and value. */
    method AttrBytes() returns (attrs: seq<(seq<byte>, seq<byte>)>)
      requires Valid() && AttrsInside(z.Here())
      ensures attrs == CutAll(z.input, z.Here().attrs)
    {
      ghost var all := CutAll(z.input, z.Here().attrs);
      attrs := [];
      for i := 0 to |z.attr|
        invariant |attrs| == i && forall j :: 0 <= j < i ==> attrs[j] == all[j]
      {
        var a := TagAttr(i);
        attrs := attrs + [a];
      }
    }

    /** The bytes of one key and value. */
    method TagAttr(i: nat) returns (a: (seq<byte>, seq<byte>))
      requires Valid() && AttrsInside(z.Here()) && i < |z.attr|
      ensures var b := z.Here().attrs[i]; a == (Cut(z.input, b.key), Cut(z.input, b.val))
    {
      assert AttrInside(z.Here().attrs[i], z.Here());
      z.SpanDenotes(z.attr[i].key);
      z.SpanDenotes(z.attr[i].val);
      a := (z.buf[z.attr[i].key.start..z.attr[i].key.end], z.buf[z.attr[i].val.start..z.attr[i].val.end]);
    }

    /** What a caller can see of the current token. */
    method Seen() returns (p: Piece)
      requires Valid() && TokenDone(z.Here(), tt)
      ensures p == PieceHere(z.Here(), tt, textIsRaw, convertNUL)
    {
      var raw := Raw();
      if tt == ErrorToken {
        return Piece(tt, raw, [], [], false, false);
      }
      var data := DataBytes();
      var attrs := [];
      if tt == StartTagToken || tt == SelfClosingTagToken {
        attrs := AttrBytes();
      }
      p := Piece(tt, raw, data, attrs, textIsRaw, convertNUL);
    }

    /**
     Calls Next until the error token, keeping what is seen of every token; between calls the caller, judging
     by what it has seen, may clear the raw-text flag and allow CDATA or not. The raw pieces make up exactly
     what was read, which is the whole input when the error is EOF (as it is for every lively reader), no piece
     but the last is empty, and there are at most as many as input bytes plus one. Their number, boundaries,
     types, data and attributes are those of the input alone, however the reader splits it.
     */
    method Pieces(client: seq<Piece> -> Choice) returns (pieces: seq<Piece>)
      requires Valid() && z.Here().start == z.Here().pos == 0 && z.err == Nil
      modifies this, z, z.r, z.buf
      ensures Valid() && Join(pieces) == z.input[..z.Here().pos] && z.err != Nil
      ensures z.err == EOF ==> Join(pieces) == z.input
      ensures z.lively ==> z.err == EOF
      ensures pieces != [] && |pieces| <= |z.input| + 1 && forall i :: 0 <= i < |pieces| - 1 ==> pieces[i].raw != []
      ensures z.err == EOF ==> pieces == PiecesFrom(z.input, Between(Spot(0, false), old(rawTag)), client, [])
    {
      ghost var all := PiecesFrom(z.input, Between(Spot(0, false), rawTag), client, []);
      pieces := [];
      var t := TextToken;
      while t != ErrorToken
        invariant Valid() && (z.buf == old(z.buf) || fresh(z.buf)) && 0 <= z.Here().pos <= |z.input|
        invariant Pieced(pieces, z.input, z.Here().pos, t) && (t == ErrorToken ==> z.err != Nil)
        invariant PiecesLeft(client, pieces, t, all)
        decreases t != ErrorToken, |z.input| - z.Here().pos
      {
        ghost var p := z.Here().pos;
        var s;
        t, s := NextPiece(client, pieces, all);
        PiecedStep(pieces, z.input, p, z.Here().pos, t, s);
        pieces := pieces + [s];
      }
      z.ErrorAtEnd();
    }

    /** Behind the pieces seen, those still to come make all of them. */
    ghost predicate PiecesLeft(client: seq<Piece> -> Choice, seen: seq<Piece>, t: TokenType, all: seq<Piece>)
      reads this, z
    {
      z.err != NoProgress ==>
        && On(z.input, SpotOf(z.Here()))
        && all == if t == ErrorToken then seen else
                    PiecesFrom(z.input, Between(SpotOf(z.Here()), rawTag), client, seen)
    }

    /** What the caller does between calls. */
    method Choose(choice: Choice)
      requires Valid()
      modifies this`rawTag, this`allowCDATA
      ensures Valid() && allowCDATA == choice.allowCDATA && rawTag == if choice.notRaw then [] else old(rawTag)
    {
      if choice.notRaw { NextIsNotRawText(); }
      AllowCDATA(choice.allowCDATA);
    }

    /** What the caller does between calls, a call of Next, and what is seen of the token. */
    method NextPiece(client: seq<Piece> -> Choice, seen: seq<Piece>, ghost all: seq<Piece>)
      returns (t: TokenType, s: Piece)
      requires Valid() && 0 <= z.Here().pos <= |z.input| && PiecesLeft(client, seen, TextToken, all)
      modifies this, z, z.r, z.buf
      ensures Valid() && (z.buf == old(z.buf) || fresh(z.buf)) && old(z.Here()).pos <= z.Here().pos <= |z.input|
      ensures s.raw == z.input[old(z.Here()).pos..z.Here().pos]
      ensures if t == ErrorToken then z.err != Nil else s.raw != []
      ensures PiecesLeft(client, seen + [s], t, all)
    {
      ghost var v, tag := z.Here(), rawTag;
      var choice := client(seen);
      Choose(choice);
      ghost var b := Between(SpotOf(v), rawTag);
      assert v.err != NoProgress ==>
        TokenAt(z.input, b, allowCDATA) == Chosen(z.input, Between(SpotOf(v), tag), choice);
      t := Next();
      s := Seen();
      PieceSeen(z.Here(), t, rawTag, textIsRaw, convertNUL, Chosen(z.input, Between(SpotOf(v), tag), choice));
    }
  }

  /** Two readers that deliver the same input in different chunks: the same tokens. */
  method SameForAllReaders(input: seq<byte>, plan1: seq<Turn>, plan2: seq<Turn>, capacity1: nat, capacity2: nat,
                           client: seq<Piece> -> Choice) returns (pieces1: seq<Piece>, pieces2: seq<Piece>)
    requires Lively(plan1) && Lively(plan2) && capacity1 > 0 && capacity2 > 0
    ensures pieces1 == pieces2 && Join(pieces1) == input
  {
    var r1 := new Reader(input, plan1);
    var t1 := new Tokens(r1, capacity1);
    pieces1 := t1.Pieces(client);
    var r2 := new Reader(input, plan2);
    var t2 := new Tokens(r2, capacity2);
    pieces2 := t2.Pieces(client);
  }
}
