/**
  `GenericReader` over a NUL-terminated buffer: the recursive-descent parser, the in-situ string mode
  and the iterative parser. Every method is proved against the grammar functions of `ReaderSpec`.
 */
module Reader {
  import opened Json
  import opened Numbers
  import opened ReaderSpec
  import opened Iterative

  newtype uint32 = n: int | 0 <= n <= 0xFFFF_FFFF
  newtype uint64 = n: int | 0 <= n <= 0xFFFF_FFFF_FFFF_FFFF

  datatype ParseResult = NoError | ParseError(code: ErrorCode, offset: int)

  /** A string handed to the handler in in-situ mode: a slice of the buffer itself. */
  datatype Span = Span(start: nat, length: nat)

  /** The contents of the string and key events, in order. */
  function Strings(es: seq<Event>): seq<Bytes> {
    if es == [] then []
    else
      var last := es[|es| - 1];
      Strings(es[..|es| - 1]) +
      (match last case StringE(s) => [s] case Key(s) => [s] case _ => [])
  }

  class Reader {
    const flags: Flags
    const insitu: bool
    /** The text followed by its terminator. */
    const buf: array<Byte>
    /** The read cursor of the stream. */
    var pos: nat
    /** The write cursor of the in-situ stream. */
    var dst: nat
    /** The character stack of the copying mode. */
    var chars: Bytes
    /** What the handler, which never refuses an event, has received. */
    var events: seq<Event>
    /** In in-situ mode, the slice passed with each string event. */
    var spans: seq<Span>
    var result: ParseResult
    /** The frame stack of the iterative parser. */
    var stack: seq<nat>

    ghost predicate Valid()
      reads this`pos, this`events, this`spans, buf
    {
      && 1 <= buf.Length
      && pos < buf.Length
      && buf[buf.Length - 1] == 0
      && (insitu ==> Intact())
    }

    /** Every string handed out so far still stands in the buffer, terminated, behind the read cursor. */
    ghost predicate Intact()
      reads this`pos, this`events, this`spans, buf
    {
      && |spans| == |Strings(events)|
      && forall i :: 0 <= i < |spans| ==> Holds(spans[i], Strings(events)[i])
    }

    ghost predicate Holds(span: Span, content: Bytes)
      reads this`pos, this`events, this`spans, buf
    {
      && span.start + span.length < pos <= buf.Length
      && span.length == |content|
      && (forall j :: 0 <= j < |content| ==> buf[span.start + j] == content[j])
      && buf[span.start + span.length] == 0
    }

    ghost function Rest(): (s: Bytes)
      reads this`pos, this`events, this`spans, buf
      requires Valid()
      ensures |s| == buf.Length - 1 - pos
    {
      buf[pos..buf.Length - 1]
    }

    /** The state is what outcome `o` prescribes for a run entered with `before` already delivered. */
    ghost predicate Reached(o: Outcome, before: seq<Event>)
      reads this, buf
      requires Valid()
    {
      match o
      case Good(es, rest) => result == NoError && events == before + es && Rest() == rest
      case Bad(es, code, left) =>
        result == ParseError(code, buf.Length - 1 - left) && events == before + es
    }

    /** Nothing behind the cursor of the old state changed, and nothing at all when copying. */
    twostate predicate Behind()
      reads this, buf
    {
      && old(pos) <= pos
      && forall j :: 0 <= j < buf.Length && (!insitu || j < old(pos)) ==> buf[j] == old(buf[j])
    }

    constructor (text: array<Byte>, flags: Flags, insitu: bool)
      requires 1 <= text.Length && text[text.Length - 1] == 0
      ensures Valid() && buf == text && this.flags == flags && this.insitu == insitu
      ensures pos == 0 && events == [] && spans == [] && result == NoError && stack == []
    {
      this.flags := flags;
      this.insitu := insitu;
      buf := text;
      pos, dst, chars, events, spans, result, stack := 0, 0, [], [], [], NoError, [];
    }

    function PeekByte(): (c: Byte)
      reads this`pos, this`events, this`spans, buf
      requires Valid()
      ensures c == Peek(Rest())
    {
      buf[pos]
    }

    method Emit(e: Event)
      requires Valid() && !e.StringE? && !e.Key?
      modifies this`events
      ensures Valid() && events == old(events) + [e] && Rest() == old(Rest())
    {
      assert (events + [e])[..|events|] == events;
      events := events + [e];
      assert Strings(events) == old(Strings(events));
    }

    /** `RAPIDJSON_PARSE_ERROR` at the current position. */
    method Fail(code: ErrorCode)
      requires Valid()
      modifies this`result
      ensures Valid() && result == ParseError(code, buf.Length - 1 - |Rest()|) && Rest() == old(Rest())
    {
      result := ParseError(code, pos);
    }

    method FailAt(code: ErrorCode, offset: int)
      requires Valid()
      modifies this`result
      ensures Valid() && result == ParseError(code, offset) && Rest() == old(Rest())
    {
      result := ParseError(code, offset);
    }

    method Consume(c: Byte) returns (taken: bool)
      requires Valid() && c != 0
      modifies this`pos
      ensures Valid()
      ensures taken == (Peek(old(Rest())) == c)
      ensures taken ==> pos == old(pos) + 1 && Rest() == old(Rest())[1..]
      ensures !taken ==> pos == old(pos)
    {
      taken := PeekByte() == c;
      if taken {
        pos := pos + 1;
      }
    }

    // -------------------------------------------------------------- white space and comments

    method SkipWhitespace()
      requires Valid()
      modifies this`pos
      ensures Valid() && old(pos) <= pos
      ensures Rest() == SkipBlanks(old(Rest()))
    {
      while IsBlank(PeekByte())
        invariant Valid() && old(pos) <= pos
        invariant SkipBlanks(Rest()) == SkipBlanks(old(Rest()))
        decreases buf.Length - pos
      {
        assert Rest()[1..] == buf[pos + 1..buf.Length - 1];
        pos := pos + 1;
      }
    }

    /** The inside of a block comment, up to and including its end. */
    method SkipBlockComment()
      requires Valid() && result == NoError
      modifies this`pos, this`result
      ensures Valid() && old(pos) <= pos
      ensures var r := BlockCommentEnd(old(Rest()));
              if r.Skipped? then result == NoError && Rest() == r.rest
              else result == ParseError(UnspecificSyntaxError, buf.Length - 1 - r.left)
    {
      while true
        invariant Valid() && old(pos) <= pos && result == NoError
        invariant BlockCommentEnd(Rest()) == BlockCommentEnd(old(Rest()))
        decreases buf.Length - pos
      {
        ghost var s := Rest();
        if PeekByte() == 0 {
          Fail(UnspecificSyntaxError);
          return;
        }
        var star := Consume(0x2A);
        if star {
          var slash := Consume(0x2F);
          if slash {
            assert s[1..][1..] == s[2..];
            return;
          }
        } else {
          pos := pos + 1;
          assert Rest() == s[1..];
        }
      }
    }

    method SkipLineComment()
      requires Valid()
      modifies this`pos
      ensures Valid() && old(pos) <= pos
      ensures Rest() == LineCommentEnd(old(Rest()))
    {
      while PeekByte() != 0
        invariant Valid() && old(pos) <= pos
        invariant LineCommentEnd(Rest()) == LineCommentEnd(old(Rest()))
        decreases buf.Length - pos
      {
        var c := PeekByte();
        assert Rest()[1..] == buf[pos + 1..buf.Length - 1];
        pos := pos + 1;
        if c == 0x0A {
          return;
        }
      }
    }

    method SkipWhitespaceAndComments()
      requires Valid() && result == NoError
      modifies this`pos, this`result
      ensures Valid() && old(pos) <= pos
      ensures var r := Skip(flags, old(Rest()));
              if r.Skipped? then result == NoError && Rest() == r.rest
              else result == ParseError(UnspecificSyntaxError, buf.Length - 1 - r.left)
    {
      hide Valid, Rest;
      SkipWhitespace();
      if flags.comments {
        while true
          invariant Valid() && old(pos) <= pos && result == NoError
          invariant SkipComments(Rest()) == SkipComments(SkipBlanks(old(Rest())))
          decreases buf.Length - pos
        {
          ghost var s := Rest();
          var slash := Consume(0x2F);
          if !slash {
            return;
          }
          var star := Consume(0x2A);
          if star {
            assert Rest() == s[2..];
            SkipBlockComment();
            if result != NoError {
              return;
            }
          } else {
            var second := Consume(0x2F);
            if second {
              assert Rest() == s[2..];
              SkipLineComment();
            } else {
              Fail(UnspecificSyntaxError);
              return;
            }
          }
          SkipWhitespace();
        }
      }
    }

    // -------------------------------------------------------------- strings

    /** The four digits of a \u escape; failure is reported at the backslash. */
    method ParseHex4(escapeOffset: nat) returns (codepoint: uint32)
      requires Valid() && result == NoError
      modifies this`pos, this`result
      ensures Valid() && old(pos) <= pos
      ensures if HasHex4(old(Rest())) then
                result == NoError && pos == old(pos) + 4 && Rest() == old(Rest())[4..] && codepoint as int == Hex4(old(Rest()))
              else result == ParseError(StringUnicodeEscapeInvalidHex, escapeOffset)
    {
      codepoint := 0;
      ghost var s := Rest();
      var i := 0;
      while i < 4
        invariant 0 <= i <= 4 && pos == old(pos) + i
        invariant Valid() && result == NoError && i <= |s| && Rest() == s[i..]
        invariant forall k :: 0 <= k < i ==> IsHex(s[k])
        invariant codepoint as int ==
                  if i == 0 then 0
                  else if i == 1 then HexValue(s[0])
                  else if i == 2 then HexValue(s[0]) * 16 + HexValue(s[1])
                  else if i == 3 then (HexValue(s[0]) * 16 + HexValue(s[1])) * 16 + HexValue(s[2])
                  else Hex4(s)
      {
        var c := PeekByte();
        if !IsHex(c) {
          result := ParseError(StringUnicodeEscapeInvalidHex, escapeOffset);
          return;
        }
        assert c == s[i];
        codepoint := codepoint * 16 + HexValue(c) as uint32;
        pos := pos + 1;
        i := i + 1;
      }
    }

    /** One turn of the loop of `ParseStringToStream`, up to what is put to the output stream. */
    method ReadUnit() returns (closed: bool, chunk: Bytes)
      requires Valid() && result == NoError
      modifies this`pos, this`result
      ensures Valid() && old(pos) <= pos
      ensures var u := UnitAt(old(Rest()));
              match u
              case Chunk(bytes, rest) => result == NoError && !closed && chunk == bytes && Rest() == rest
              case Close(rest) => result == NoError && closed && Rest() == rest
              case UnitError(code, left) => result == ParseError(code, buf.Length - 1 - left)
    {
      hide Utf8, Hex4, HexValue, PairAt, Valid, Rest;
      closed, chunk := false, [];
      ghost var s := Rest();
      var c := PeekByte();
      if c == 0x5C {
        var escapeOffset := pos;
        var _ := Take();
        var e := PeekByte();
        if Unescape(e) != 0 {
          var _ := Take();
          assert Rest() == s[2..];
          chunk := [Unescape(e)];
        } else if e == 0x75 {
          var _ := Take();
          assert Rest() == s[2..];
          var codepoint := ParseHex4(escapeOffset);
          if result != NoError {
            return;
          }
          assert Rest() == s[6..];
          if 0xD800 <= codepoint <= 0xDBFF {
            chunk := ReadTrail(escapeOffset, codepoint);
          } else {
            chunk := Utf8(codepoint as nat);
          }
        } else {
          result := ParseError(StringEscapeInvalid, escapeOffset);
        }
      } else if c == 0x22 {
        var _ := Take();
        closed := true;
      } else if c < 0x20 {
        Fail(if c == 0 then StringMissQuotationMark else StringEscapeInvalid);
      } else {
        var _ := Take();
        chunk := [c];
      }
    }

    /** The second half of a surrogate pair. */
    method ReadTrail(escapeOffset: nat, lead: uint32) returns (chunk: Bytes)
      requires Valid() && result == NoError && IsLead(lead as nat) && escapeOffset < buf.Length
      modifies this`pos, this`result
      ensures Valid() && old(pos) <= pos
      ensures var u := PairAt(lead as nat, old(Rest()), buf.Length - 1 - escapeOffset);
              if u.Chunk? then result == NoError && chunk == u.bytes && Rest() == u.rest
              else result == ParseError(u.code, escapeOffset)
    {
      hide Utf8, Hex4, HexValue;
      chunk := [];
      ghost var s := Rest();
      var backslash := Consume(0x5C);
      var u := false;
      if backslash {
        u := Consume(0x75);
      }
      if !u {
        result := ParseError(StringUnicodeSurrogateInvalid, escapeOffset);
        return;
      }
      assert Rest() == s[2..];
      var trail := ParseHex4(escapeOffset);
      if result != NoError {
        return;
      }
      if trail < 0xDC00 || trail > 0xDFFF {
        result := ParseError(StringUnicodeSurrogateInvalid, escapeOffset);
        return;
      }
      assert s[2..][4..] == s[6..];
      chunk := Utf8(((lead - 0xD800) * 1024 + (trail - 0xDC00) + 0x10000) as nat);
    }

    /**
      Puts bytes to the output stream: at the write cursor of the buffer, which must not pass the read cursor,
      or onto the character stack.
     */
    method PutAll(bytes: Bytes)
      requires Valid() && dst + |bytes| <= pos
      requires insitu ==> forall i :: 0 <= i < |spans| ==> spans[i].start + spans[i].length < dst
      modifies this`dst, this`chars, buf
      ensures Valid() && dst == old(dst) + |bytes|
      ensures !insitu ==> chars == old(chars) + bytes
      ensures insitu ==> forall k :: 0 <= k < |bytes| ==> buf[old(dst) + k] == bytes[k]
      ensures forall j :: 0 <= j < buf.Length && (!insitu || j < old(dst) || j >= dst) ==> buf[j] == old(buf[j])
      ensures Rest() == old(Rest())
    {
      var k := 0;
      while k < |bytes|
        invariant 0 <= k <= |bytes| && dst == old(dst) + k
        invariant Valid()
        invariant !insitu ==> chars == old(chars) + bytes[..k]
        invariant insitu ==> forall i :: 0 <= i < k ==> buf[old(dst) + i] == bytes[i]
        invariant forall j :: 0 <= j < buf.Length && (!insitu || j < old(dst) || j >= dst) ==> buf[j] == old(buf[j])
      {
        if insitu {
          buf[dst] := bytes[k];
        } else {
          chars := chars + [bytes[k]];
        }
        dst := dst + 1;
        k := k + 1;
      }
    }

    /** The bytes decoded so far, wherever the mode keeps them. */
    ghost predicate Decoded(head: nat, content: Bytes)
      reads this, buf
    {
      if insitu then
        && head + |content| == dst <= buf.Length
        && forall k :: 0 <= k < |content| ==> buf[head + k] == content[k]
      else
        chars == content
    }

    /** Puts one decoded unit after the bytes already decoded. */
    method Store(ghost head: nat, ghost content: Bytes, bytes: Bytes)
      requires Valid() && head <= dst && dst + |bytes| <= pos && Decoded(head, content)
      requires insitu ==> forall i :: 0 <= i < |spans| ==> spans[i].start + spans[i].length < head
      modifies this`dst, this`chars, buf
      ensures Valid() && dst == old(dst) + |bytes| && Rest() == old(Rest())
      ensures Decoded(head, content + bytes)
      ensures forall j :: 0 <= j < buf.Length && (!insitu || j < head) ==> buf[j] == old(buf[j])
    {
      PutAll(bytes);
      if insitu {
        forall k | 0 <= k < |content + bytes| ensures buf[head + k] == (content + bytes)[k] {
          if k >= |content| {
            assert buf[head + |content| + (k - |content|)] == bytes[k - |content|];
          }
        }
      }
    }

    /** `ParseStringToStream`: decodes up to the closing quote and terminates the result. */
    method ParseStringToStream(head: nat)
      requires Valid() && result == NoError && head == pos == dst
      requires insitu ==> forall i :: 0 <= i < |spans| ==> spans[i].start + spans[i].length < head
      requires !insitu ==> chars == []
      modifies this`pos, this`dst, this`chars, this`result, buf
      ensures Valid() && Behind()
      ensures var t := StringAt(old(Rest()));
              if t.StringText? then
                result == NoError && Rest() == t.rest && Decoded(head, t.content + [0]) && dst <= pos
              else result == ParseError(t.code, buf.Length - 1 - t.left)
    {
      hide UnitAt;
      ghost var s := Rest();
      ghost var content: Bytes := [];
      while true
        invariant Valid() && Behind() && result == NoError
        invariant head <= dst <= pos
        invariant StringAt(s) == Extend(content, StringAt(Rest()))
        invariant Decoded(head, content)
        decreases buf.Length - pos
      {
        ghost var unread := Rest();
        var closed, chunk := ReadUnit();
        if result != NoError {
          return;
        }
        if closed {
          Store(head, content, [0]);
          assert content + [] == content;
          return;
        }
        Store(head, content, chunk);
        ExtendExtend(content, chunk, StringAt(Rest()));
        content := content + chunk;
      }
    }

    /** `ParseString`, for both modes. */
    method ParseString(isKey: bool)
      requires Valid() && result == NoError
      requires Peek(Rest()) == 0x22
      modifies this, buf
      ensures Valid() && Behind() && stack == old(stack)
      ensures Reached(StringEventAt(old(Rest()), isKey), old(events))
    {
      ghost var s := Rest();
      assert insitu ==> forall i :: 0 <= i < |spans| ==> spans[i].start + spans[i].length < pos by {
        if insitu {
          assert forall i :: 0 <= i < |spans| ==> Holds(spans[i], Strings(events)[i]);
        }
      }
      pos := pos + 1;
      assert Rest() == s[1..];
      var head := pos;
      dst, chars := pos, [];
      ParseStringToStream(head);
      if result == NoError {
        DeliverDecoded(isKey, head, StringAt(s[1..]).content);
      }
    }

    /** Reads the decoded bytes back, without their terminator. */
    method DeliverDecoded(isKey: bool, head: nat, ghost content: Bytes)
      requires Valid() && dst <= pos && Decoded(head, content + [0])
      modifies this`events, this`spans
      ensures Valid()
      ensures events == old(events) + [if isKey then Key(content) else StringE(content)]
    {
      ghost var stored := content + [0];
      assert stored[|content|] == 0 && stored[..|content|] == content;
      if insitu {
        var length := dst - head - 1;
        assert buf[head + |content|] == stored[|content|];
        forall k | 0 <= k < |content| ensures buf[head + k] == content[k] {
          assert buf[head + k] == stored[k];
        }
        assert buf[head..head + length] == content;
        Deliver(isKey, buf[head..head + length], Span(head, length));
      } else {
        Deliver(isKey, chars[..|chars| - 1], Span(0, 0));
      }
    }

    /** Hands a string to the handler. */
    method Deliver(isKey: bool, content: Bytes, span: Span)
      requires Valid() && (insitu ==> Holds(span, content))
      modifies this`events, this`spans
      ensures Valid()
      ensures events == old(events) + [if isKey then Key(content) else StringE(content)]
    {
      var e := if isKey then Key(content) else StringE(content);
      assert (events + [e])[..|events|] == events;
      events := events + [e];
      assert Strings(events) == old(Strings(events)) + [content];
      if insitu {
        spans := spans + [span];
      }
    }

    // -------------------------------------------------------------- numbers

    method Take() returns (c: Byte)
      requires Valid() && Peek(Rest()) != 0
      modifies this`pos
      ensures Valid() && old(pos) <= pos
      ensures c == Peek(old(Rest())) && Rest() == old(Rest())[1..]
    {
      c := PeekByte();
      assert Rest()[1..] == buf[pos + 1..buf.Length - 1];
      pos := pos + 1;
    }

    /** `k` bytes of `body` have been read. */
    ghost predicate ReadTo(body: Bytes, k: nat)
      reads this, buf
      requires Valid()
    {
      k <= |body| && Rest() == body[k..]
    }

    /** The 32-bit loops: stops at the last digit, or right before the accumulator would leave its range. */
    method Accumulate32(minus: bool, ghost body: Bytes) returns (i: uint32, significandDigit: nat, use64bit: bool)
      requires Valid() && Rest() == body && 0x31 <= Peek(body) <= 0x39
      modifies this`pos
      ensures Valid() && old(pos) <= pos
      ensures significandDigit < DigitRun(body) && ReadTo(body, significandDigit + 1)
      ensures i as int == DecValue(body[..significandDigit + 1])
      ensures !use64bit ==> significandDigit + 1 == DigitRun(body) && (minus ==> i <= 0x8000_0000)
      ensures use64bit ==>
                significandDigit + 1 < DigitRun(body)
                && DecValue(body[..significandDigit + 2]) > (if minus then 0x8000_0000 else 0xFFFF_FFFF)
    {
      hide Valid, Rest, DigitRun;
      assert body[0..] == body;
      NextDigit(body, 0);
      var c := Take();
      i := (c - 0x30) as uint32;
      significandDigit, use64bit := 0, false;
      while IsDigit(PeekByte())
        invariant Valid() && old(pos) <= pos && !use64bit
        invariant significandDigit < DigitRun(body) && ReadTo(body, significandDigit + 1)
        invariant i as int == DecValue(body[..significandDigit + 1])
        invariant minus ==> i <= 0x8000_0000
        decreases |Rest()|
      {
        c := PeekByte();
        NextDigit(body, significandDigit + 1);
        if minus && i >= 214748364 && (i != 214748364 || c > 0x38) {
          use64bit := true;
          break;
        }
        if !minus && i >= 429496729 && (i != 429496729 || c > 0x35) {
          use64bit := true;
          break;
        }
        c := Take();
        i := i * 10 + (c - 0x30) as uint32;
        significandDigit := significandDigit + 1;
      }
    }

    /** The 64-bit loops. */
    method Accumulate64(minus: bool, ghost body: Bytes, start: uint64, digits: nat)
      returns (i64: uint64, significandDigit: nat, useDouble: bool)
      requires Valid() && digits < DigitRun(body) && ReadTo(body, digits + 1)
      requires start as int == DecValue(body[..digits + 1]) && (minus ==> start <= 0x8000_0000_0000_0000)
      modifies this`pos
      ensures Valid() && old(pos) <= pos
      ensures digits <= significandDigit < DigitRun(body) && ReadTo(body, significandDigit + 1)
      ensures i64 as int == DecValue(body[..significandDigit + 1])
      ensures !useDouble ==> significandDigit + 1 == DigitRun(body) && (minus ==> i64 <= 0x8000_0000_0000_0000)
      ensures useDouble ==>
                significandDigit + 1 < DigitRun(body)
                && ExceedsInteger(minus, DecValue(body[..significandDigit + 2]))
    {
      hide Valid, Rest, DigitRun, DecValue;
      i64, significandDigit, useDouble := start, digits, false;
      while IsDigit(PeekByte())
        invariant Valid() && old(pos) <= pos && !useDouble
        invariant digits <= significandDigit < DigitRun(body) && ReadTo(body, significandDigit + 1)
        invariant i64 as int == DecValue(body[..significandDigit + 1])
        invariant minus ==> i64 <= 0x8000_0000_0000_0000
        decreases |Rest()|
      {
        var c := PeekByte();
        NextDigit(body, significandDigit + 1);
        if minus && i64 >= 0x0CCC_CCCC_CCCC_CCCC && (i64 != 0x0CCC_CCCC_CCCC_CCCC || c > 0x38) {
          useDouble := true;
          break;
        }
        if !minus && i64 >= 0x1999_9999_9999_9999 && (i64 != 0x1999_9999_9999_9999 || c > 0x35) {
          useDouble := true;
          break;
        }
        c := Take();
        i64 := i64 * 10 + (c - 0x30) as uint64;
        significandDigit := significandDigit + 1;
      }
    }

    /** The big-integer loop, with the double accumulator held exactly. */
    method AccumulateDouble(startOffset: nat, ghost body: Bytes, start: uint64, digits: nat)
      requires Valid() && result == NoError && digits + 1 < DigitRun(body) && ReadTo(body, digits + 1)
      requires start as int == DecValue(body[..digits + 1])
      modifies this`pos, this`result
      ensures Valid() && old(pos) <= pos
      ensures if DecValue(body[..DigitRun(body)]) / 10 >= DoubleGuard() then
                result == ParseError(NumberTooBig, startOffset)
              else result == NoError && ReadTo(body, DigitRun(body))
    {
      hide Rest, DigitRun, DoubleGuard;
      var d: nat := start as nat;
      ghost var k: nat := digits + 1;
      ghost var all := body[..DigitRun(body)];
      while IsDigit(PeekByte())
        invariant Valid() && old(pos) <= pos && result == NoError
        invariant k <= DigitRun(body) && ReadTo(body, k)
        invariant d == DecValue(body[..k])
        invariant k == DigitRun(body) ==> DecValue(all) / 10 < DoubleGuard()
        decreases |Rest()|
      {
        NextDigit(body, k);
        if d >= DoubleGuard() {
          assert all[..k] == body[..k];
          DecValueProperPrefix(all, k);
          result := ParseError(NumberTooBig, startOffset);
          return;
        }
        var c := Take();
        d := d * 10 + (c - 0x30);
        k := k + 1;
      }
      RunEnds(body, k);
    }

    /** The digits after the decimal point; answers how many of them scale the exponent. */
    method ParseFraction(useDouble: bool, whole: uint64, digits: nat, ghost s: Bytes) returns (scaled: nat)
      requires Valid() && Rest() == s
      requires useDouble ==> digits >= SIGNIFICAND_MAX
      modifies this`pos
      ensures Valid() && old(pos) <= pos && ReadTo(s, DigitRun(s))
      ensures scaled == if useDouble then 0 else CountedFraction(whole as nat, digits, s[..DigitRun(s)])
    {
      hide Valid, Rest, DigitRun, CountedFraction, DecValue;
      ghost var fraction := s[..DigitRun(s)];
      ghost var k: nat := 0;
      assert fraction[0..] == fraction && s[0..] == s;
      var i64 := whole;
      var significandDigit: nat := digits;
      scaled := 0;
      if !useDouble {
        while IsDigit(PeekByte()) && i64 <= 0x1F_FFFF_FFFF_FFFF
          invariant Valid() && old(pos) <= pos && k <= |fraction| && ReadTo(s, k)
          invariant scaled + CountedFraction(i64 as nat, significandDigit, fraction[k..])
                    == CountedFraction(whole as nat, digits, fraction)
          decreases |Rest()|
        {
          NextDigit(s, k);
          CountedStep(i64 as nat, significandDigit, fraction[k..]);
          assert fraction[k..][1..] == fraction[k + 1..];
          var c := Take();
          i64 := i64 * 10 + (c - 0x30) as uint64;
          scaled := scaled + 1;
          if i64 != 0 {
            significandDigit := significandDigit + 1;
          }
          k := k + 1;
        }
      }
      while IsDigit(PeekByte())
        invariant Valid() && old(pos) <= pos && k <= |fraction| && ReadTo(s, k)
        invariant useDouble ==> scaled == 0 && significandDigit >= SIGNIFICAND_MAX
        invariant !useDouble ==>
                    scaled + CountedFraction(i64 as nat, significandDigit, fraction[k..])
                    == CountedFraction(whole as nat, digits, fraction)
        invariant !useDouble && IsDigit(PeekByte()) ==> i64 > 0x1F_FFFF_FFFF_FFFF
        decreases |Rest()|
      {
        NextDigit(s, k);
        if !useDouble {
          CountedStep(i64 as nat, significandDigit, fraction[k..]);
          assert fraction[k..][1..] == fraction[k + 1..];
        }
        if significandDigit < SIGNIFICAND_MAX {
          scaled := scaled + 1;
          significandDigit := significandDigit + 1;
        }
        var c := Take();
        k := k + 1;
      }
      RunEnds(s, k);
      CountedNone(i64 as nat, significandDigit);
      assert fraction[k..] == [];
    }

    /** The exponent, its letter already taken. */
    method ParseExponent(startOffset: nat, maxExp: nat)
      requires Valid() && result == NoError && 308 <= maxExp
      modifies this`pos, this`result
      ensures Valid() && old(pos) <= pos
      ensures var t := ExponentTail(maxExp, old(Rest()), buf.Length - 1 - startOffset);
              if t.Tail? then result == NoError && Rest() == t.rest
              else result == ParseError(t.code, buf.Length - 1 - t.left)
    {
      hide Rest, DigitRun;
      var plus := Consume(0x2B);
      var expMinus := false;
      if !plus {
        expMinus := Consume(0x2D);
      }
      ghost var t := Rest();
      assert t[0..] == t && (IsDigit(Peek(t)) ==> DigitRun(t) > 0) by {
        if IsDigit(Peek(t)) {
          NextDigit(t, 0);
        }
      }
      if !IsDigit(PeekByte()) {
        RunEnds(t, 0);
        Fail(NumberMissExponent);
        return;
      }
      if expMinus {
        ParseNegativeExponent(t);
      } else {
        ParsePositiveExponent(startOffset, maxExp, t);
      }
    }

    /** Consumes the rest of a run of digits. */
    method SkipDigits(ghost t: Bytes, ghost from: nat)
      requires Valid() && from <= DigitRun(t) && ReadTo(t, from)
      modifies this`pos
      ensures Valid() && old(pos) <= pos && ReadTo(t, DigitRun(t))
    {
      hide Valid, Rest, DigitRun, DecValue;
      ghost var k: nat := from;
      while IsDigit(PeekByte())
        invariant Valid() && old(pos) <= pos && k <= DigitRun(t) && ReadTo(t, k)
        decreases |Rest()|
      {
        NextDigit(t, k);
        var c := Take();
        k := k + 1;
      }
      RunEnds(t, k);
    }

    /** The loop for a negative exponent, which stops accumulating before it could overflow. */
    method ParseNegativeExponent(ghost t: Bytes)
      requires Valid() && Rest() == t && IsDigit(Peek(t))
      modifies this`pos
      ensures Valid() && old(pos) <= pos && ReadTo(t, DigitRun(t))
    {
      hide Valid, Rest, DigitRun, DecValue;
      assert t[0..] == t;
      NextDigit(t, 0);
      var c := Take();
      var exp: nat := c - 0x30;
      ghost var k: nat := 1;
      while IsDigit(PeekByte())
        invariant Valid() && old(pos) <= pos && k <= DigitRun(t) && ReadTo(t, k)
        invariant IsDigit(PeekByte()) ==> exp < 214748364
        decreases |Rest()|
      {
        NextDigit(t, k);
        c := Take();
        exp := exp * 10 + (c - 0x30);
        k := k + 1;
        if exp >= 214748364 {
          SkipDigits(t, k);
          k := DigitRun(t);
        }
      }
      RunEnds(t, k);
    }

    /** The loop for a positive exponent. */
    method ParsePositiveExponent(startOffset: nat, maxExp: nat, ghost t: Bytes)
      requires Valid() && result == NoError && 308 <= maxExp
      requires Rest() == t && IsDigit(Peek(t))
      modifies this`pos, this`result
      ensures Valid() && old(pos) <= pos
      ensures if DecValue(t[..DigitRun(t)]) > maxExp then result == ParseError(NumberTooBig, startOffset)
              else result == NoError && ReadTo(t, DigitRun(t))
    {
      hide Valid, Rest, DigitRun, DecValue;
      NoValue();
      assert t[0..] == t && t[..0] == [];
      NextDigit(t, 0);
      var c := Take();
      var exp: nat := c - 0x30;
      ghost var k: nat := 1;
      while IsDigit(PeekByte())
        invariant Valid() && old(pos) <= pos && result == NoError && k <= DigitRun(t) && ReadTo(t, k)
        invariant exp == DecValue(t[..k]) <= maxExp
        decreases |Rest()|
      {
        NextDigit(t, k);
        c := Take();
        exp := exp * 10 + (c - 0x30);
        k := k + 1;
        if exp > maxExp {
          assert t[..DigitRun(t)][..k] == t[..k];
          DecValuePrefix(t[..DigitRun(t)], k);
          FailAt(NumberTooBig, startOffset);
          return;
        }
      }
      RunEnds(t, k);
    }

    /** The event for an integer literal, through the two's complement negation of the source. */
    method EmitInteger(minus: bool, use64bit: bool, i: uint32, i64: uint64, ghost whole: nat)
      requires Valid() && !ExceedsInteger(minus, whole)
      requires whole == if use64bit then i64 as int else i as int
      requires use64bit == (whole > if minus then 0x8000_0000 else 0xFFFF_FFFF)
      modifies this`events
      ensures Valid() && Rest() == old(Rest())
      ensures events == old(events) + [IntegerEvent(minus, whole)]
    {
      if use64bit {
        if minus {
          var complement: uint64 := 0xFFFF_FFFF_FFFF_FFFF - i64 + 1;
          Emit(NumE(Int64, complement as int - 0x1_0000_0000_0000_0000));
        } else {
          Emit(NumE(Uint64, i64 as int));
        }
      } else if minus {
        var complement: uint32 := if i == 0 then 0 else 0xFFFF_FFFF - i + 1;
        Emit(NumE(Int, if complement >= 0x8000_0000 then complement as int - 0x1_0000_0000 else complement as int));
      } else {
        Emit(NumE(Uint, i as int));
      }
    }

    /** The integer part of a literal: its value when it fits 64 bits, and how many digits it has. */
    method ParseWhole(startOffset: nat, minus: bool, ghost body: Bytes)
      returns (i: uint32, i64: uint64, significandDigit: nat, use64bit: bool, useDouble: bool)
      requires Valid() && result == NoError && Rest() == body && 0x31 <= Peek(body) <= 0x39
      modifies this`pos, this`result
      ensures Valid() && old(pos) <= pos
      ensures useDouble == ExceedsInteger(minus, DecValue(body[..DigitRun(body)]))
      ensures useDouble && DecValue(body[..DigitRun(body)]) / 10 >= DoubleGuard() ==>
                result == ParseError(NumberTooBig, startOffset)
      ensures useDouble && DecValue(body[..DigitRun(body)]) / 10 < DoubleGuard() ==>
                result == NoError && ReadTo(body, DigitRun(body)) && significandDigit >= SIGNIFICAND_MAX
      ensures !useDouble ==>
                && result == NoError && ReadTo(body, DigitRun(body)) && significandDigit + 1 == DigitRun(body)
                && DecValue(body[..DigitRun(body)]) == (if use64bit then i64 as int else i as int)
      ensures !useDouble ==>
                use64bit == (DecValue(body[..DigitRun(body)]) > if minus then 0x8000_0000 else 0xFFFF_FFFF)
    {
      hide Valid, Rest, DigitRun, DoubleGuard, DecValue;
      i64, useDouble := 0, false;
      ghost var all := body[..DigitRun(body)];
      i, significandDigit, use64bit := Accumulate32(minus, body);
      if use64bit {
        assert all[..significandDigit + 2] == body[..significandDigit + 2];
        DecValuePrefix(all, significandDigit + 2);
        i64, significandDigit, useDouble := Accumulate64(minus, body, i as uint64, significandDigit);
        if useDouble {
          assert all[..significandDigit + 2] == body[..significandDigit + 2];
          DecValuePrefix(all, significandDigit + 2);
          BigHasManyDigits(body[..significandDigit + 2]);
          AccumulateDouble(startOffset, body, i64, significandDigit);
        }
      }
    }

    method ParseOptionalExponent(startOffset: nat, maxExp: nat, isDouble: bool) returns (useDouble: bool)
      requires Valid() && result == NoError && 308 <= maxExp
      modifies this`pos, this`result
      ensures Valid() && old(pos) <= pos
      ensures var t := ExponentAt(isDouble, maxExp, old(Rest()), buf.Length - 1 - startOffset);
              if t.Tail? then result == NoError && Rest() == t.rest && useDouble == t.isDouble
              else result == ParseError(t.code, buf.Length - 1 - t.left)
    {
      hide Valid, ExponentTail;
      useDouble := isDouble;
      var e := Consume(0x65);
      if !e {
        e := Consume(0x45);
      }
      if e {
        useDouble := true;
        ParseExponent(startOffset, maxExp);
      }
    }

    /** Fraction and exponent, if any. */
    method ParseTail(startOffset: nat, big: bool, whole: uint64, significandDigit: nat) returns (useDouble: bool)
      requires Valid() && result == NoError
      requires big ==> significandDigit >= SIGNIFICAND_MAX
      modifies this`pos, this`result
      ensures Valid() && old(pos) <= pos
      ensures var t := FractionAt(big, whole as nat, significandDigit + 1, old(Rest()), buf.Length - 1 - startOffset);
              if t.Tail? then result == NoError && Rest() == t.rest && useDouble == t.isDouble
              else result == ParseError(t.code, buf.Length - 1 - t.left)
    {
      hide Valid, Rest, DigitRun, DecValue, CountedFraction, ExponentAt;
      ghost var s := Rest();
      var point := Consume(0x2E);
      if !point {
        useDouble := ParseOptionalExponent(startOffset, 308, big);
        return;
      }
      ghost var fraction := Rest();
      assert fraction[0..] == fraction;
      if !IsDigit(PeekByte()) {
        RunEnds(fraction, 0);
        Fail(NumberMissFraction);
        useDouble := true;
        return;
      }
      NextDigit(fraction, 0);
      var scaled := ParseFraction(big, whole, significandDigit, fraction);
      assert s[1..][DigitRun(fraction)..] == s[1 + DigitRun(fraction)..];
      useDouble := ParseOptionalExponent(startOffset, 308 + scaled, true);
    }

    /** The event for a double, which keeps its literal. */
    method EmitDouble(startOffset: nat, ghost s: Bytes)
      requires Valid() && startOffset <= pos && buf[startOffset..buf.Length - 1] == s
      modifies this`events
      ensures Valid() && Rest() == old(Rest())
      ensures events == old(events) + [DoubleE(s[..|s| - |Rest()|])]
    {
      assert buf[startOffset..pos] == s[..|s| - |Rest()|];
      Emit(DoubleE(buf[startOffset..pos]));
    }

    /** The digits of the integer part, a leading zero standing alone. */
    method ParseInteger(startOffset: nat, minus: bool, ghost body: Bytes)
      returns (i: uint32, i64: uint64, significandDigit: nat, use64bit: bool, big: bool)
      requires Valid() && result == NoError && Rest() == body && IsDigit(Peek(body))
      modifies this`pos, this`result
      ensures Valid() && old(pos) <= pos
      ensures var whole := DecValue(body[..IntDigits(body)]);
              && big == ExceedsInteger(minus, whole)
              && (big && whole / 10 >= DoubleGuard() ==> result == ParseError(NumberTooBig, startOffset))
              && (!big || whole / 10 < DoubleGuard() ==> result == NoError && ReadTo(body, IntDigits(body)))
              && (result == NoError && big ==> significandDigit >= SIGNIFICAND_MAX)
              && (!big ==>
                    && significandDigit + 1 == IntDigits(body)
                    && whole == (if use64bit then i64 as int else i as int)
                    && use64bit == (whole > if minus then 0x8000_0000 else 0xFFFF_FFFF))
    {
      hide Valid, Rest, DigitRun, DoubleGuard, DecValue;
      i, i64, significandDigit, use64bit, big := 0, 0, 0, false, false;
      if PeekByte() == 0x30 {
        assert body[..1] == [0x30];
        ZeroValue();
        var c := Take();
      } else {
        i, i64, significandDigit, use64bit, big := ParseWhole(startOffset, minus, body);
      }
    }

    /** `ParseNumber`: exact integers up to 64 bits, doubles by their literal. */
    method ParseNumber()
      requires Valid() && result == NoError
      modifies this`pos, this`result, this`events
      ensures Valid() && old(pos) <= pos
      ensures var r := NumberAt(old(Rest()));
              if r.Scalar? then result == NoError && events == old(events) + [r.event] && Rest() == r.rest
              else result == ParseError(r.code, buf.Length - 1 - r.left) && events == old(events)
    {
      hide Valid, DigitRun, IntDigits, DoubleGuard, DecValue, FractionAt, IntegerEvent, ExceedsInteger;
      ghost var s := Rest();
      var startOffset := pos;
      assert buf[startOffset..buf.Length - 1] == s;
      hide Rest;
      var minus := Consume(0x2D);
      ghost var body := Rest();
      if !IsDigit(PeekByte()) {
        Fail(ValueInvalid);
        return;
      }
      var i, i64, significandDigit, use64bit, big := ParseInteger(startOffset, minus, body);
      if result != NoError {
        return;
      }
      ghost var k, whole := IntDigits(body), DecValue(body[..IntDigits(body)]);
      var value := if use64bit then i64 else i as uint64;
      var isDouble := ParseTail(startOffset, big, value, significandDigit);
      if big {
        BigTail(whole, k, value as nat, significandDigit + 1, body[k..], |s|);
      }
      if result != NoError {
        return;
      }
      if isDouble {
        EmitDouble(startOffset, s);
      } else {
        EmitInteger(minus, use64bit, i, i64, whole);
      }
    }

    // -------------------------------------------------------------- recursive descent

    /** Events delivered on the way lead the outcome of the rest. */
    lemma ReachedPrepend(before: seq<Event>, es: seq<Event>, o: Outcome)
      requires Valid() && Reached(o, before + es)
      ensures Reached(Prepend(es, o), before)
    {
      assert before + es + o.events == before + (es + o.events);
    }

    /** `ParseNull`, `ParseTrue` and `ParseFalse`: the keyword is consumed byte by byte. */
    method ParseKeyword(word: Bytes, event: Event)
      requires Valid() && result == NoError && word != [] && 0 !in word
      requires !event.StringE? && !event.Key?
      modifies this`pos, this`result, this`events
      ensures Valid() && old(pos) <= pos
      ensures Reached(KeywordAt(old(Rest()), word, event), old(events))
    {
      hide Valid, Rest;
      ghost var s := Rest();
      assert s[0..] == s && word[0..] == word;
      var i := 0;
      while i < |word|
        invariant 0 <= i <= |word| && i <= |s|
        invariant Valid() && old(pos) <= pos && result == NoError && Rest() == s[i..] && events == old(events)
        invariant Matched(s, word) == i + Matched(s[i..], word[i..])
      {
        var taken := Consume(word[i]);
        if !taken {
          assert events + [] == events;
          Fail(ValueInvalid);
          return;
        }
        assert s[i..][1..] == s[i + 1..] && word[i..][1..] == word[i + 1..];
        i := i + 1;
      }
      Emit(event);
    }

    method ParseScalar()
      requires Valid() && result == NoError
      modifies this, buf
      ensures Valid() && Behind() && stack == old(stack)
      ensures Reached(ScalarAt(old(Rest())), old(events))
    {
      hide Valid, Rest, KeywordAt, NumberAt, StringEventAt;
      var c := PeekByte();
      if c == 0x6E {
        ParseKeyword(NULL_TEXT, NullE);
      } else if c == 0x74 {
        ParseKeyword(TRUE_TEXT, BoolE(true));
      } else if c == 0x66 {
        ParseKeyword(FALSE_TEXT, BoolE(false));
      } else if c == 0x22 {
        ParseString(false);
      } else {
        ParseNumber();
      }
    }

    /** `ParseValue`. */
    method ParseValue()
      requires Valid() && result == NoError
      modifies this, buf
      ensures Valid() && Behind() && stack == old(stack)
      ensures Reached(ValueAt(flags, old(Rest())), old(events))
      decreases buf.Length - pos, 2
    {
      var c := PeekByte();
      if c == 0x7B {
        ParseObject();
      } else if c == 0x5B {
        ParseArray();
      } else {
        hide ScalarAt;
        ParseScalar();
      }
    }

    /** Takes the bracket, announces the compound, and skips to its first entry. */
    method OpenCompound(event: Event)
      requires Valid() && result == NoError && Peek(Rest()) != 0
      requires event == StartArray || event == StartObject
      modifies this`pos, this`result, this`events
      ensures Valid() && old(pos) < pos
      ensures events == old(events) + [event]
      ensures var r := Skip(flags, old(Rest())[1..]);
              if r.Skipped? then result == NoError && Rest() == r.rest
              else result == ParseError(UnspecificSyntaxError, buf.Length - 1 - r.left)
    {
      hide Skip;
      var c := Take();
      Emit(event);
      SkipWhitespaceAndComments();
    }

    method ParseArray()
      requires Valid() && result == NoError && Peek(Rest()) == 0x5B
      modifies this, buf
      ensures Valid() && Behind() && stack == old(stack)
      ensures Reached(ValueAt(flags, old(Rest())), old(events))
      decreases buf.Length - pos, 1
    {
      hide Valid, Rest, Skip, AtElement;
      ghost var s, before := Rest(), events;
      OpenCompound(StartArray);
      if result != NoError {
        return;
      }
      ghost var t := Rest();
      assert ValueAt(flags, s) == Prepend([StartArray], AtArrayInitial(flags, t));
      var empty := Consume(0x5D);
      if empty {
        Emit(EndArray(0));
        ReachedPrepend(before, [StartArray], AtArrayInitial(flags, t));
        return;
      }
      hide ValueAt;
      var elementCount := 0;
      ghost var done := [StartArray];
      var more := true;
      while more
        invariant Valid() && Behind() && stack == old(stack) && old(pos) < pos
        invariant more ==> result == NoError && events == before + done
        invariant more ==> ValueAt(flags, s) == Prepend(done, AtElement(flags, Rest(), elementCount))
        invariant !more ==> Reached(ValueAt(flags, s), before)
        decreases if more then 1 else 0, buf.Length - pos
      {
        ghost var unread := Rest();
        ghost var es;
        more, es := ParseElement(elementCount);
        if more {
          PrependPrepend(done, es, AtElement(flags, Rest(), elementCount + 1));
          assert before + done + es == before + (done + es);
          done := done + es;
          elementCount := elementCount + 1;
        } else {
          ReachedPrepend(before, done, AtElement(flags, unread, elementCount));
        }
      }
    }

    /** One turn of the element loop: an element, and the comma or bracket after it. */
    method ParseElement(elementCount: nat) returns (more: bool, ghost es: seq<Event>)
      requires Valid() && result == NoError
      modifies this, buf
      ensures Valid() && Behind() && stack == old(stack)
      ensures more ==> result == NoError && events == old(events) + es && old(pos) < pos
      ensures more ==>
                AtElement(flags, old(Rest()), elementCount)
                == Prepend(es, AtElement(flags, Rest(), elementCount + 1))
      ensures !more ==> Reached(AtElement(flags, old(Rest()), elementCount), old(events))
      decreases buf.Length - pos, 3
    {
      hide Valid, Rest, Skip, ValueAt;
      more := false;
      ghost var s, before := Rest(), events;
      ParseValue();
      ghost var o := ValueAt(flags, s);
      es := o.events;
      if result != NoError {
        return;
      }
      assert |Rest()| < |s|;
      SkipWhitespaceAndComments();
      if result != NoError {
        return;
      }
      ghost var t := Rest();
      assert AtElement(flags, s, elementCount) == Prepend(es, AtElementEnd(flags, t, elementCount));
      var comma := Consume(0x2C);
      if comma {
        SkipWhitespaceAndComments();
        if result != NoError {
          return;
        }
        assert AtElementEnd(flags, t, elementCount) == AtElementDelimiter(flags, Rest(), elementCount + 1);
        if flags.trailingCommas && PeekByte() == 0x5D {
          Emit(EndArray(elementCount + 1));
          var c := Take();
          ReachedPrepend(before, es, AtElementEnd(flags, t, elementCount));
          return;
        }
        more := true;
        return;
      }
      var closed := Consume(0x5D);
      if closed {
        Emit(EndArray(elementCount + 1));
        ReachedPrepend(before, es, AtElementEnd(flags, t, elementCount));
      } else {
        Fail(ArrayMissCommaOrSquareBracket);
      }
    }

    method ParseObject()
      requires Valid() && result == NoError && Peek(Rest()) == 0x7B
      modifies this, buf
      ensures Valid() && Behind() && stack == old(stack)
      ensures Reached(ValueAt(flags, old(Rest())), old(events))
      decreases buf.Length - pos, 1
    {
      hide Valid, Rest, Skip, AtKey;
      ghost var s, before := Rest(), events;
      OpenCompound(StartObject);
      if result != NoError {
        return;
      }
      ghost var t := Rest();
      assert ValueAt(flags, s) == Prepend([StartObject], AtObjectInitial(flags, t));
      var empty := Consume(0x7D);
      if empty {
        Emit(EndObject(0));
        ReachedPrepend(before, [StartObject], AtObjectInitial(flags, t));
        return;
      }
      hide ValueAt;
      var memberCount := 0;
      ghost var done := [StartObject];
      var more := true;
      while more
        invariant Valid() && Behind() && stack == old(stack) && old(pos) < pos
        invariant more ==> result == NoError && events == before + done
        invariant more ==> ValueAt(flags, s) == Prepend(done, AtKey(flags, Rest(), memberCount))
        invariant !more ==> Reached(ValueAt(flags, s), before)
        decreases if more then 1 else 0, buf.Length - pos
      {
        ghost var unread := Rest();
        ghost var es;
        more, es := ParseMember(memberCount);
        if more {
          PrependPrepend(done, es, AtKey(flags, Rest(), memberCount + 1));
          assert before + done + es == before + (done + es);
          done := done + es;
          memberCount := memberCount + 1;
        } else {
          ReachedPrepend(before, done, AtKey(flags, unread, memberCount));
        }
      }
    }

    /** The name, the colon, and the white space up to the member's value. */
    method ParseName(memberCount: nat) returns (ghost es: seq<Event>)
      requires Valid() && result == NoError
      modifies this, buf
      ensures Valid() && Behind() && stack == old(stack)
      ensures result == NoError ==> events == old(events) + es && old(pos) < pos
      ensures result == NoError ==>
                AtKey(flags, old(Rest()), memberCount) == Prepend(es, AtMemberValue(flags, Rest(), memberCount))
      ensures result != NoError ==> Reached(AtKey(flags, old(Rest()), memberCount), old(events))
    {
      hide Valid, Rest, Skip, ValueAt, StringEventAt;
      es := [];
      ghost var s, before := Rest(), events;
      if PeekByte() != 0x22 {
        Fail(ObjectMissName);
        return;
      }
      ParseString(true);
      es := StringEventAt(s, true).events;
      if result != NoError {
        return;
      }
      assert |Rest()| < |s|;
      SkipWhitespaceAndComments();
      if result != NoError {
        return;
      }
      ghost var t := Rest();
      assert AtKey(flags, s, memberCount) == Prepend(es, AtKeyEnd(flags, t, memberCount));
      var colon := Consume(0x3A);
      if !colon {
        Fail(ObjectMissColon);
        return;
      }
      SkipWhitespaceAndComments();
    }

    /** One turn of the member loop: a member, and the comma or bracket after it. */
    method ParseMember(memberCount: nat) returns (more: bool, ghost es: seq<Event>)
      requires Valid() && result == NoError
      modifies this, buf
      ensures Valid() && Behind() && stack == old(stack)
      ensures more ==> result == NoError && events == old(events) + es && old(pos) < pos
      ensures more ==>
                AtKey(flags, old(Rest()), memberCount) == Prepend(es, AtKey(flags, Rest(), memberCount + 1))
      ensures !more ==> Reached(AtKey(flags, old(Rest()), memberCount), old(events))
      decreases buf.Length - pos, 4
    {
      hide Valid, Rest, AtKey, AtMemberValue;
      more := false;
      ghost var s, before := Rest(), events;
      ghost var named, valued;
      named := ParseName(memberCount);
      es := named;
      if result != NoError {
        return;
      }
      ghost var t := Rest();
      more, valued := ParseMemberValue(memberCount);
      if more {
        PrependPrepend(named, valued, AtKey(flags, Rest(), memberCount + 1));
        es := named + valued;
      } else {
        ReachedPrepend(before, named, AtMemberValue(flags, t, memberCount));
      }
    }

    method ParseMemberValue(memberCount: nat) returns (more: bool, ghost es: seq<Event>)
      requires Valid() && result == NoError
      modifies this, buf
      ensures Valid() && Behind() && stack == old(stack)
      ensures more ==> result == NoError && events == old(events) + es && old(pos) < pos
      ensures more ==>
                AtMemberValue(flags, old(Rest()), memberCount)
                == Prepend(es, AtKey(flags, Rest(), memberCount + 1))
      ensures !more ==> Reached(AtMemberValue(flags, old(Rest()), memberCount), old(events))
      decreases buf.Length - pos, 3
    {
      hide Valid, Rest, Skip, ValueAt, AtKey;
      more := false;
      ghost var s, before := Rest(), events;
      ParseValue();
      es := ValueAt(flags, s).events;
      if result != NoError {
        return;
      }
      assert |Rest()| < |s|;
      SkipWhitespaceAndComments();
      if result != NoError {
        return;
      }
      ghost var t := Rest();
      assert AtMemberValue(flags, s, memberCount) == Prepend(es, AtMemberEnd(flags, t, memberCount));
      var c := PeekByte();
      if c == 0x2C {
        c := Take();
        SkipWhitespaceAndComments();
        if result != NoError {
          return;
        }
        assert AtMemberEnd(flags, t, memberCount) == AtMemberDelimiter(flags, Rest(), memberCount + 1);
        if flags.trailingCommas && PeekByte() == 0x7D {
          Emit(EndObject(memberCount + 1));
          c := Take();
          ReachedPrepend(before, es, AtMemberEnd(flags, t, memberCount));
          return;
        }
        more := true;
      } else if c == 0x7D {
        c := Take();
        Emit(EndObject(memberCount + 1));
        ReachedPrepend(before, es, AtMemberEnd(flags, t, memberCount));
      } else {
        Fail(ObjectMissCommaOrCurlyBracket);
      }
    }

    /** `Parse`, without the iterative flag. */
    method Parse()
      requires Valid() && result == NoError
      modifies this, buf
      ensures Valid() && Behind()
      ensures Reached(DocumentAt(flags, old(Rest())), old(events))
    {
      hide Valid, Rest, Skip, ValueAt;
      ghost var before := events;
      SkipWhitespaceAndComments();
      if result != NoError {
        return;
      }
      ghost var t := Rest();
      if PeekByte() == 0 {
        Fail(DocumentEmpty);
        return;
      }
      ParseValue();
      if result != NoError || flags.stopWhenDone {
        return;
      }
      SkipWhitespaceAndComments();
      if result != NoError {
        return;
      }
      if PeekByte() != 0 {
        Fail(DocumentRootNotSingular);
      }
    }

    // -------------------------------------------------------------- the iterative parser

    /** The machine stands in `state` over `frames`. */
    ghost predicate Stands(state: State, frames: seq<Frame>)
      reads this`stack
    {
      Consistent(state, frames) && FreshlyEntered(state, frames) && stack == Flatten(frames)
    }

    /** One step has delivered `es` and what remains of outcome `o` is left to the new configuration. */
    ghost predicate Advanced(o: Outcome, before: seq<Event>, es: seq<Event>, next: State, frames: seq<Frame>)
      reads this, buf
      requires Valid()
    {
      && result == NoError
      && Stands(next, frames)
      && events == before + es
      && o == Prepend(es, ResumeAfterSkip(flags, next, frames, Rest()))
    }

    /** Pushes a frame: the state to return to, then a zero count. */
    method PushFrame(src: State, ghost frames: seq<Frame>)
      requires Valid() && stack == Flatten(frames)
      modifies this`stack
      ensures Valid() && Rest() == old(Rest())
      ensures stack == Flatten(frames + [Frame(ReturnState(src), 0)])
    {
      hide Valid, Rest, Flatten;
      var n := src;
      if src == ArrayInitial || src == ElementDelimiter {
        n := Element;
      } else if src == KeyValueDelimiter {
        n := MemberValue;
      }
      FlattenPush(frames, Frame(n, 0));
      stack := stack + [Code(n)];
      stack := stack + [0];
    }

    /** Pops a frame; the outermost one leads to Finish. */
    method PopFrame(counting: bool, ghost frames: seq<Frame>) returns (c: nat, n: State)
      requires Valid() && frames != [] && stack == Flatten(frames)
      modifies this`stack
      ensures Valid() && Rest() == old(Rest())
      ensures stack == Flatten(frames[..|frames| - 1])
      ensures c == frames[|frames| - 1].count + (if counting then 1 else 0)
      ensures n == AfterClose(frames)
    {
      hide Valid, Rest, Flatten;
      FlattenTop(frames);
      c := stack[|stack| - 1];
      stack := stack[..|stack| - 1];
      if counting {
        c := c + 1;
      }
      n := Decode(stack[|stack| - 1]);
      DecodeCode(frames[|frames| - 1].state);
      stack := stack[..|stack| - 1];
      if n == Start {
        n := Finish;
      }
    }

    /** Counts one more entry in the innermost frame. */
    method CountEntry(ghost frames: seq<Frame>)
      requires Valid() && frames != [] && stack == Flatten(frames)
      modifies this`stack
      ensures Valid() && Rest() == old(Rest())
      ensures var top := frames[|frames| - 1];
              stack == Flatten(frames[|frames| - 1 := top.(count := top.count + 1)])
    {
      hide Valid, Rest, Flatten;
      ghost var top := frames[|frames| - 1];
      ghost var counted := frames[|frames| - 1 := top.(count := top.count + 1)];
      assert counted[..|counted| - 1] == frames[..|frames| - 1];
      FlattenTop(frames);
      FlattenTop(counted);
      stack := stack[|stack| - 1 := stack[|stack| - 1] + 1];
    }

    /** ObjectInitial and ArrayInitial. */
    method TransitOpen(src: State, dst: State, ghost frames: seq<Frame>) returns (ghost inner: seq<Frame>)
      requires Valid() && result == NoError && Stands(src, frames) && ExpectsValue(src)
      requires (dst == ArrayInitial && Peek(Rest()) == 0x5B) || (dst == ObjectInitial && Peek(Rest()) == 0x7B)
      modifies this`pos, this`events, this`stack
      ensures Valid() && old(pos) < pos
      ensures Advanced(Resume(flags, src, frames, old(Rest())), old(events),
                       [if dst == ArrayInitial then StartArray else StartObject], dst, inner)
    {
      hide Valid, Rest, Resume, ResumeAfterSkip, Flatten;
      ghost var s := Rest();
      var event := if dst == ArrayInitial then StartArray else StartObject;
      ResumeOpen(flags, src, frames, s, dst, event);
      inner := frames + [Frame(ReturnState(src), 0)];
      PushFrame(src, frames);
      Emit(event);
      var c := Take();
      assert |Rest()| < |s|;
    }

    /** Element, MemberValue and the single root value. */
    method TransitValue(src: State, ghost frames: seq<Frame>) returns (next: State, ghost es: seq<Event>)
      requires Valid() && result == NoError && Stands(src, frames) && ExpectsValue(src)
      requires IsScalarToken(Tokenize(Peek(Rest()))) && Peek(Rest()) != 0
      modifies this, buf
      ensures Valid() && Behind()
      ensures next == ErrorState ==> result != NoError && Reached(Resume(flags, src, frames, old(Rest())), old(events))
      ensures next != ErrorState ==>
                old(pos) < pos && Advanced(Resume(flags, src, frames, old(Rest())), old(events), es, next, frames)
    {
      hide Valid, Rest, Resume, ResumeAfterSkip, ValueAt, Flatten;
      ghost var s := Rest();
      ResumeValue(flags, src, frames, s);
      ParseValue();
      es := ValueAt(flags, s).events;
      if result != NoError {
        next := ErrorState;
      } else {
        next := if src == Start then Finish
                else if src == KeyValueDelimiter then MemberValue
                else Element;
        assert |Rest()| < |s|;
      }
    }

    /** MemberKey. */
    method TransitKey(src: State, ghost frames: seq<Frame>) returns (next: State, ghost es: seq<Event>)
      requires Valid() && result == NoError && Stands(src, frames)
      requires (src == ObjectInitial || src == MemberDelimiter) && Peek(Rest()) == 0x22
      modifies this, buf
      ensures Valid() && Behind()
      ensures next == ErrorState ==> result != NoError && Reached(Resume(flags, src, frames, old(Rest())), old(events))
      ensures next != ErrorState ==>
                old(pos) < pos && Advanced(Resume(flags, src, frames, old(Rest())), old(events), es, next, frames)
    {
      hide Valid, Rest, ResumeAfterSkip, StringEventAt, Current, SkipThen, Flatten;
      ghost var s := Rest();
      ghost var top := frames[|frames| - 1];
      CurrentKey(flags, src, top.count, s);
      assert frames[|frames| - 1 := top.(count := top.count)] == frames;
      ParseString(true);
      es := StringEventAt(s, true).events;
      if result != NoError {
        next := ErrorState;
      } else {
        next := MemberKey;
        ResumeInside(flags, src, frames, s, es, MemberKey, top.count, Rest());
        assert |Rest()| < |s|;
      }
    }

    /** KeyValueDelimiter, MemberDelimiter and ElementDelimiter. */
    method TransitDelimiter(src: State, dst: State, ghost frames: seq<Frame>) returns (ghost changed: seq<Frame>)
      requires Valid() && result == NoError && Stands(src, frames)
      requires (src == MemberKey && dst == KeyValueDelimiter && Peek(Rest()) == 0x3A)
               || (src == MemberValue && dst == MemberDelimiter && Peek(Rest()) == 0x2C)
               || (src == Element && dst == ElementDelimiter && Peek(Rest()) == 0x2C)
      modifies this`pos, this`stack
      ensures Valid() && old(pos) < pos
      ensures Advanced(Resume(flags, src, frames, old(Rest())), old(events), [], dst, changed)
    {
      hide Valid, Rest, Resume, ResumeAfterSkip, Flatten;
      ghost var s := Rest();
      ghost var top := frames[|frames| - 1];
      ghost var count := if dst == KeyValueDelimiter then top.count else top.count + 1;
      changed := frames[|frames| - 1 := top.(count := count)];
      StepDelimiter(src, dst, frames, count, s);
      assert dst == KeyValueDelimiter ==> changed == frames;
      assert events + [] == events;
      var c := Take();
      assert |Rest()| < |s|;
      if dst != KeyValueDelimiter {
        CountEntry(frames);
      }
    }

    lemma StepDelimiter(src: State, dst: State, frames: seq<Frame>, count: nat, s: Bytes)
      requires Consistent(src, frames) && frames != []
      requires (src == MemberKey && dst == KeyValueDelimiter && Peek(s) == 0x3A)
               || (src == MemberValue && dst == MemberDelimiter && Peek(s) == 0x2C)
               || (src == Element && dst == ElementDelimiter && Peek(s) == 0x2C)
      requires count == frames[|frames| - 1].count + (if dst == KeyValueDelimiter then 0 else 1)
      ensures var changed := frames[|frames| - 1 := frames[|frames| - 1].(count := count)];
              Consistent(dst, changed)
              && Resume(flags, src, frames, s) == Prepend([], ResumeAfterSkip(flags, dst, changed, s[1..]))
    {
      var top := frames[|frames| - 1];
      if Skip(flags, s[1..]).Skipped? {
        PrependNothing(Current(flags, dst, count, Skip(flags, s[1..]).rest));
      }
      ResumeInside(flags, src, frames, s, [], dst, count, s[1..]);
    }

    /** ObjectFinish and ArrayFinish. */
    method TransitFinish(src: State, dst: State, ghost frames: seq<Frame>)
      returns (next: State, ghost es: seq<Event>, ghost outer: seq<Frame>)
      requires Valid() && result == NoError && Stands(src, frames) && frames != []
      requires (dst == ObjectFinish && Peek(Rest()) == 0x7D
                && (src == ObjectInitial || src == MemberValue || src == MemberDelimiter))
               || (dst == ArrayFinish && Peek(Rest()) == 0x5D
                   && (src == ArrayInitial || src == Element || src == ElementDelimiter))
      modifies this`pos, this`events, this`stack, this`result
      ensures Valid() && old(pos) <= pos
      ensures next == ErrorState ==> result != NoError && Reached(Resume(flags, src, frames, old(Rest())), old(events))
      ensures next != ErrorState ==>
                old(pos) < pos && Advanced(Resume(flags, src, frames, old(Rest())), old(events), es, next, outer)
    {
      hide Valid, Rest, Resume, ResumeAfterSkip, Flatten, Consistent, FreshlyEntered, Current, Skip, ValueAt;
      ghost var s := Rest();
      es, outer := [], frames;
      if !flags.trailingCommas && (src == MemberDelimiter || src == ElementDelimiter) {
        ResumeTrailing(flags, src, frames, s);
        assert events + [] == events;
        Fail(if src == MemberDelimiter then ObjectMissName else ValueInvalid);
        next := ErrorState;
        return;
      }
      ghost var count := frames[|frames| - 1].count + (if src == MemberValue || src == Element then 1 else 0);
      ghost var event := if dst == ObjectFinish then EndObject(count) else EndArray(count);
      StepFinish(src, dst, frames, s, event);
      outer := frames[..|frames| - 1];
      es := [event];
      var c;
      c, next := PopFrame(src == MemberValue || src == Element, frames);
      Emit(if dst == ObjectFinish then EndObject(c) else EndArray(c));
      var taken := Take();
      assert |Rest()| < |s|;
    }

    lemma StepFinish(src: State, dst: State, frames: seq<Frame>, s: Bytes, event: Event)
      requires Consistent(src, frames) && FreshlyEntered(src, frames) && frames != []
      requires (dst == ObjectFinish && Peek(s) == 0x7D
                && (src == ObjectInitial || src == MemberValue || src == MemberDelimiter))
               || (dst == ArrayFinish && Peek(s) == 0x5D
                   && (src == ArrayInitial || src == Element || src == ElementDelimiter))
      requires flags.trailingCommas || (src != MemberDelimiter && src != ElementDelimiter)
      requires var count := frames[|frames| - 1].count + (if src == MemberValue || src == Element then 1 else 0);
               event == if dst == ObjectFinish then EndObject(count) else EndArray(count)
      ensures Consistent(AfterClose(frames), frames[..|frames| - 1])
      ensures FreshlyEntered(AfterClose(frames), frames[..|frames| - 1]) && AfterClose(frames) != ErrorState
      ensures Resume(flags, src, frames, s)
           == Prepend([event], ResumeAfterSkip(flags, AfterClose(frames), frames[..|frames| - 1], s[1..]))
    {
      hide Resume, ResumeAfterSkip, Skip, ValueAt;
      assert Current(flags, src, frames[|frames| - 1].count, s) == Good([event], s[1..]);
      ResumeClose(flags, src, frames, s, event, s[1..]);
    }

    /** `Transit`: acts on the state the table predicts. */
    method Transit(src: State, token: Token, dst: State, ghost frames: seq<Frame>)
      returns (next: State, ghost es: seq<Event>, ghost frames': seq<Frame>)
      requires Valid() && result == NoError && Stands(src, frames) && Peek(Rest()) != 0
      requires token == Tokenize(Peek(Rest())) && dst == Predict(src, token)
      requires !(flags.stopWhenDone && src == Finish)
      modifies this, buf
      ensures Valid() && Behind()
      ensures next == ErrorState && result == NoError ==>
                events == old(events) && Rest() == old(Rest())
                && Resume(flags, src, frames, old(Rest())) == Bad([], ErrorFor(src), |Rest()|)
      ensures next == ErrorState && result != NoError ==>
                Reached(Resume(flags, src, frames, old(Rest())), old(events))
      ensures next != ErrorState ==>
                old(pos) < pos && Advanced(Resume(flags, src, frames, old(Rest())), old(events), es, next, frames')
    {
      hide Valid, Rest, Resume, ResumeAfterSkip, Flatten;
      es, frames' := [], frames;
      if dst == ErrorState {
        ResumeStuck(flags, src, frames, Rest());
        next := dst;
      } else if dst == ObjectInitial || dst == ArrayInitial {
        frames' := TransitOpen(src, dst, frames);
        es := [if dst == ArrayInitial then StartArray else StartObject];
        next := dst;
      } else if dst == MemberKey {
        next, es := TransitKey(src, frames);
      } else if dst == KeyValueDelimiter {
        assert token == Colon;
        frames' := TransitDelimiter(src, dst, frames);
        next := dst;
      } else if dst == MemberValue || dst == Element {
        next, es := TransitValue(src, frames);
      } else if dst == MemberDelimiter || dst == ElementDelimiter {
        frames' := TransitDelimiter(src, dst, frames);
        next := dst;
      } else if dst == ObjectFinish || dst == ArrayFinish {
        next, es, frames' := TransitFinish(src, dst, frames);
      } else {
        assert dst == SingleValue;
        next, es := TransitValue(src, frames);
      }
    }

    /** `HandleError`: the first error stands. */
    method HandleError(src: State)
      requires Valid() && src != ErrorState && src != ObjectFinish && src != ArrayFinish && src != SingleValue
      modifies this`result
      ensures Valid() && Rest() == old(Rest())
      ensures result == if old(result) != NoError then old(result)
                        else ParseError(ErrorFor(src), buf.Length - 1 - |Rest()|)
    {
      if result != NoError {
        return;
      }
      if src == Start {
        Fail(DocumentEmpty);
      } else if src == Finish {
        Fail(DocumentRootNotSingular);
      } else if src == ObjectInitial || src == MemberDelimiter {
        Fail(ObjectMissName);
      } else if src == MemberKey {
        Fail(ObjectMissColon);
      } else if src == MemberValue {
        Fail(ObjectMissCommaOrCurlyBracket);
      } else if src == KeyValueDelimiter || src == ArrayInitial || src == ElementDelimiter {
        Fail(ValueInvalid);
      } else {
        assert src == Element;
        Fail(ArrayMissCommaOrSquareBracket);
      }
    }

    /** One turn of the loop: a transition, then white space, unless the run is over. */
    method Turn(state: State, ghost frames: seq<Frame>)
      returns (over: bool, next: State, ghost es: seq<Event>, ghost frames': seq<Frame>)
      requires Valid() && result == NoError && Stands(state, frames) && Peek(Rest()) != 0
      requires !(flags.stopWhenDone && state == Finish)
      modifies this, buf
      ensures Valid() && Behind()
      ensures over ==> Reached(Resume(flags, state, frames, old(Rest())), old(events))
      ensures over && result == NoError ==> stack == []
      ensures !over ==>
                && old(pos) < pos && result == NoError
                && Stands(next, frames') && !(flags.stopWhenDone && next == Finish)
                && events == old(events) + es
                && Resume(flags, state, frames, old(Rest())) == Prepend(es, Resume(flags, next, frames', Rest()))
    {
      hide Valid, Rest, Resume, Skip, Flatten, Consistent, FreshlyEntered;
      ghost var before := events;
      LoopState(state, frames);
      var token := Tokenize(PeekByte());
      var predicted := Predict(state, token);
      next, es, frames' := Transit(state, token, predicted, frames);
      over := true;
      if next == ErrorState {
        assert events + [] == events;
        HandleError(state);
        if state != Finish {
          HandleError(state);
        }
        return;
      }
      ghost var left := ResumeAfterSkip(flags, next, frames', Rest());
      if flags.stopWhenDone && next == Finish {
        assert events + [] == events;
        FlattenNone();
        FinishIsEmpty(frames');
        ReachedPrepend(before, es, left);
        return;
      }
      SkipWhitespaceAndComments();
      if result != NoError {
        assert events + [] == events;
        ReachedPrepend(before, es, left);
        return;
      }
      over := false;
    }

    /**
      `IterativeParse`: for every text and flags, the outcome of the recursive grammar, except that a document
      starting with a stray structural byte is reported as empty. Finish is reached only with an empty stack,
      and every turn of the loop consumes at least one byte.
     */
    method IterativeParse()
      requires Valid() && result == NoError && stack == []
      modifies this, buf
      ensures Valid() && Behind()
      ensures Reached(IterativeAt(flags, old(Rest())), old(events))
      ensures result == NoError ==> stack == []
    {
      hide Valid, Rest, Resume, Skip, Flatten, IterativeAt, Consistent, FreshlyEntered;
      ghost var s, before := Rest(), events;
      StartStands();
      SkipWhitespaceAndComments();
      StartResume(s);
      if result != NoError {
        assert events + [] == events;
        return;
      }
      FlattenNone();
      var state := Start;
      ghost var frames: seq<Frame> := [];
      ghost var done: seq<Event> := [];
      PrependNothing(Resume(flags, Start, [], Rest()));
      var over := false;
      while !over && PeekByte() != 0
        invariant Valid() && Behind()
        invariant !over ==>
                    && result == NoError && Stands(state, frames) && !(flags.stopWhenDone && state == Finish)
                    && events == before + done
                    && IterativeAt(flags, s) == Prepend(done, Resume(flags, state, frames, Rest()))
        invariant over ==> Reached(IterativeAt(flags, s), before) && (result == NoError ==> stack == [])
        decreases if over then 0 else 1, |Rest()|
      {
        ghost var unread := Rest();
        var next;
        ghost var es, frames';
        over, next, es, frames' := Turn(state, frames);
        if over {
          ReachedPrepend(before, done, Resume(flags, state, frames, unread));
        } else {
          state, frames := next, frames';
          assert before + done + es == before + (done + es);
          PrependPrepend(done, es, Resume(flags, state, frames, Rest()));
          done := done + es;
        }
      }
      if !over {
        FinishLoop(state, frames, s, before, done);
      }
    }

    /** The end of file. */
    method FinishLoop(state: State, ghost frames: seq<Frame>, ghost s: Bytes, ghost before: seq<Event>,
                      ghost done: seq<Event>)
      requires Valid() && result == NoError && Stands(state, frames) && PeekByte() == 0
      requires events == before + done
      requires IterativeAt(flags, s) == Prepend(done, Resume(flags, state, frames, Rest()))
      modifies this`result
      ensures Valid() && Reached(IterativeAt(flags, s), before)
      ensures result == NoError ==> stack == []
    {
      hide Valid, Rest, Resume, Skip, Flatten, IterativeAt;
      FlattenNone();
      assert events + [] == events;
      ghost var left := Resume(flags, state, frames, Rest());
      if state != Finish {
        ResumeStuck(flags, state, frames, Rest());
        HandleError(state);
      } else {
        AtFinish(Rest());
      }
      ReachedPrepend(before, done, left);
    }

    lemma StartResume(s: Bytes)
      ensures Skip(flags, s).Skipped? ==> IterativeAt(flags, s) == Resume(flags, Start, [], Skip(flags, s).rest)
      ensures Skip(flags, s).SkipError? ==> IterativeAt(flags, s) == Bad([], UnspecificSyntaxError, Skip(flags, s).left)
    {
    }

    lemma LoopState(state: State, frames: seq<Frame>)
      requires Consistent(state, frames)
      ensures state != ErrorState && state != ObjectFinish && state != ArrayFinish && state != SingleValue
    {
    }

    lemma StartStands()
      ensures Consistent(Start, []) && FreshlyEntered(Start, [])
    {
    }

    lemma FinishIsEmpty(frames: seq<Frame>)
      requires Consistent(Finish, frames)
      ensures frames == []
    {
    }

    lemma FlattenNone()
      ensures Flatten([]) == []
    {
    }

    lemma AtFinish(s: Bytes)
      requires Peek(s) == 0
      ensures Resume(flags, Finish, [], s) == Good([], s)
    {
    }
  }
}
