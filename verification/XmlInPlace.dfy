/**
  RapidXML's parser as it works: inside its own text, expanding references in place and ending names and values
  with zeros, so that nodes can point into the text.
 */
module XmlInPlace {
  import opened Json
  import opened Numbers
  import opened XmlSpec
  import R = ReaderSpec

  // ---------------------------------------------------------------- the text from a position

  /** What is left to read at a position of zero-terminated text. */
  function Rest(b: Bytes, i: nat): Bytes
    requires i < |b|
  {
    b[i..|b| - 1]
  }

  predicate Terminated(b: Bytes) {
    b != [] && b[|b| - 1] == 0
  }

  lemma PeekRest(b: Bytes, i: nat)
    requires Terminated(b) && i < |b|
    ensures Peek(Rest(b, i)) == b[i]
    ensures b[i] != 0 ==> i + 1 < |b| && Rest(b, i) != [] && Rest(b, i)[0] == b[i] && Rest(b, i)[1..] == Rest(b, i + 1)
  {
  }

  /** Texts that agree from a position on. */
  lemma SameRest(b: Bytes, c: Bytes, i: nat)
    requires |b| == |c| && i < |b| && b[i..] == c[i..]
    ensures Rest(b, i) == Rest(c, i)
    ensures forall j :: i <= j < |b| ==> b[j] == c[j] && b[j..] == c[j..]
  {
    assert Rest(b, i) == b[i..][..|b| - 1 - i];
    forall j | i <= j < |b| ensures b[j] == c[j] && b[j..] == c[j..] {
      assert b[j] == b[i..][j - i] && c[j] == c[i..][j - i];
      assert b[j..] == b[i..][j - i..] && c[j..] == c[i..][j - i..];
    }
  }

  // ---------------------------------------------------------------- plain skipping

  lemma SpanStep(k: CharClass, b: Bytes, i: nat)
    requires Terminated(b) && i < |b|
    ensures Span(k, Rest(b, i)) == if In(k, b[i]) && i + 1 < |b| then 1 + Span(k, Rest(b, i + 1)) else 0
    ensures In(k, b[i]) ==> i + 1 < |b|
  {
    PeekRest(b, i);
    if i + 1 < |b| {
      assert Rest(b, i)[1..] == Rest(b, i + 1);
    }
  }

  /** `skip`. */
  method Skip(k: CharClass, buf: array<Byte>, i: nat) returns (j: nat)
    requires Terminated(buf[..]) && i < buf.Length
    ensures i <= j < buf.Length && j - i == Span(k, Rest(buf[..], i)) && !In(k, buf[j])
  {
    hide In, Span;
    j := i;
    SpanStep(k, buf[..], j);
    while In(k, buf[j])
      invariant i <= j < buf.Length
      invariant (j - i) + Span(k, Rest(buf[..], j)) == Span(k, Rest(buf[..], i))
      decreases buf.Length - j
    {
      SpanStep(k, buf[..], j);
      j := j + 1;
    }
    SpanStep(k, buf[..], j);
  }

  // ---------------------------------------------------------------- references in place

  lemma LaterTwice(a: Bytes, m: nat, b: Bytes, n: nat, p: Piece)
    requires |a| <= m && |b| <= n
    ensures Later(a, m, Later(b, n, p)) == Later(a + b, m + n, p)
  {
    if p.Piece? {
      assert a + (b + p.bytes) == a + b + p.bytes;
    }
  }

  lemma LaterNone(p: Piece)
    ensures Later([], 0, p) == p
  {
    if p.Piece? {
      assert [] + p.bytes == p.bytes;
    }
  }

  lemma ExpandTurn(k: CharClass, s: Bytes)
    requires s != [] && In(k, s[0])
    ensures var p := PieceAt(s);
            Expand(k, s) == if p.PieceError? then p else Later(p.bytes, |s| - |p.rest|, Expand(k, p.rest))
  {
    hide PieceAt, In;
  }

  /** Does the text continue like this? */
  method Matches(buf: array<Byte>, at: nat, pattern: Bytes) returns (yes: bool)
    requires Terminated(buf[..]) && at < buf.Length && 0 !in pattern
    ensures yes <==> pattern <= Rest(buf[..], at)
  {
    var i := 0;
    while i < |pattern|
      invariant 0 <= i <= |pattern| && at + i < buf.Length
      invariant forall j :: 0 <= j < i ==> pattern[j] == Rest(buf[..], at)[j]
    {
      if buf[at + i] != pattern[i] {
        return false;
      }
      assert buf[at + i] != 0;
      i := i + 1;
    }
    return true;
  }

  datatype MaybeFault = Fine | Bad(fault: Fault)

  lemma CodeStep(base: nat, code: nat, b: Bytes, j: nat)
    requires Terminated(b) && j < |b| && (base == 10 || base == 16)
    ensures if IsHex(b[j]) then j + 1 < |b| && CodeOf(base, code, Rest(b, j)) == CodeOf(base, NextCode(base, code, b[j]), Rest(b, j + 1))
            else CodeOf(base, code, Rest(b, j)) == (code, Rest(b, j))
  {
    hide NextCode;
    PeekRest(b, j);
  }

  /** The digits of a numeric reference. */
  method ReadCode(buf: array<Byte>, base: nat, i: nat) returns (code: nat, j: nat)
    requires Terminated(buf[..]) && i < buf.Length && (base == 10 || base == 16)
    ensures i <= j < buf.Length && CodeOf(base, 0, Rest(buf[..], i)) == (code, Rest(buf[..], j))
    ensures j <= i + 1 ==> code < 16
  {
    hide CodeOf, NextCode, IsHex;
    code, j := 0, i;
    while IsHex(buf[j])
      invariant i <= j < buf.Length
      invariant CodeOf(base, code, Rest(buf[..], j)) == CodeOf(base, 0, Rest(buf[..], i))
      invariant (j == i ==> code == 0) && (j == i + 1 ==> code < 16)
      decreases buf.Length - j
    {
      CodeStep(base, code, buf[..], j);
      FirstCode(base, buf[j]);
      code := NextCode(base, code, buf[j]);
      j := j + 1;
    }
    CodeStep(base, code, buf[..], j);
  }

  /** `insert_coded_character`: UTF-8, last byte first. */
  method InsertCoded(buf: array<Byte>, dest: nat, code: nat) returns (end: nat)
    requires code < 0x110000 && dest + |R.Utf8(code)| <= buf.Length
    modifies buf
    ensures end == dest + |R.Utf8(code)| && buf[dest..end] == R.Utf8(code)
    ensures buf[..dest] == old(buf[..dest]) && buf[end..] == old(buf[end..])
  {
    if code < 0x80 {
      buf[dest] := code;
      end := dest + 1;
    } else if code < 0x800 {
      buf[dest + 1] := 0x80 + code % 64;
      buf[dest] := 0xC0 + code / 64;
      end := dest + 2;
    } else if code < 0x10000 {
      buf[dest + 2] := 0x80 + code % 64;
      buf[dest + 1] := 0x80 + code / 64 % 64;
      buf[dest] := 0xE0 + code / 4096;
      end := dest + 3;
    } else {
      buf[dest + 3] := 0x80 + code % 64;
      buf[dest + 2] := 0x80 + code / 64 % 64;
      buf[dest + 1] := 0x80 + code / 4096 % 64;
      buf[dest] := 0xF0 + code / 262144;
      end := dest + 4;
    }
  }

  lemma SmallCode(code: nat, digits: nat)
    requires code < 0x110000 && (digits <= 1 ==> code < 16)
    ensures |R.Utf8(code)| <= 2 + digits
  {
  }

  lemma RestDrop(b: Bytes, i: nat, n: nat)
    requires i + n < |b|
    ensures Rest(b, i)[n..] == Rest(b, i + n)
  {
  }

  lemma NumericMeans(base: nat, s: Bytes, left: nat, code: nat, after: Bytes)
    requires (base == 10 || base == 16) && CodeOf(base, 0, s) == (code, after)
    ensures NumericAt(base, s, left)
         == if code >= 0x110000 then PieceError(InvalidNumericEntity, left)
            else if Peek(after) != SEMICOLON then PieceError(ExpectedSemicolon, |after|)
            else Piece(R.Utf8(code), after[1..])
  {
    hide CodeOf, R.Utf8;
  }

  /** Where a fault of the translation is reported: an invalid code where its character would go, `left` from the end. */
  function FaultLeft(fault: Fault, left: nat, after: Bytes): nat {
    if fault == InvalidNumericEntity then left else |after|
  }

  /** A numeric reference: its digits, the character put at `dest`, and the semicolon. */
  method PutNumeric(buf: array<Byte>, base: nat, src0: nat, dest: nat, ghost left: nat)
      returns (src: nat, end: nat, fault: MaybeFault)
    requires Terminated(buf[..]) && src0 < buf.Length && dest + 2 <= src0 && (base == 10 || base == 16)
    modifies buf
    ensures src0 <= src < buf.Length && Terminated(buf[..]) && dest <= end <= src
    ensures buf[..dest] == old(buf[..dest]) && buf[end..] == old(buf[end..])
    ensures fault == Bad(InvalidNumericEntity) ==> end == dest
    ensures var s := Rest(old(buf[..]), src0);
            if fault.Bad? then
              NumericAt(base, s, left) == PieceError(fault.fault, FaultLeft(fault.fault, left, Rest(old(buf[..]), src)))
            else NumericAt(base, s, left) == Piece(buf[dest..end], Rest(old(buf[..]), src))
  {
    hide CodeOf, R.Utf8, NumericAt;
    end, fault := dest, Fine;
    var code;
    code, src := ReadCode(buf, base, src0);
    PeekRest(buf[..], src);
    NumericMeans(base, Rest(buf[..], src0), left, code, Rest(buf[..], src));
    if code >= 0x110000 {
      fault := Bad(InvalidNumericEntity);
      return;
    }
    SmallCode(code, src - src0);
    ghost var before := buf[..];
    end := InsertCoded(buf, dest, code);
    assert buf[src..] == before[src..] by {
      assert buf[src..] == buf[end..][src - end..] && before[src..] == before[end..][src - end..];
    }
    SameRest(before, buf[..], src);
    if buf[src] == SEMICOLON {
      src := src + 1;
    } else {
      fault := Bad(ExpectedSemicolon);
    }
  }

  /** One character at `dest`, behind `src`. */
  method PutOne(buf: array<Byte>, dest: nat, src: nat, c: Byte) returns (end: nat)
    requires Terminated(buf[..]) && dest < src < buf.Length
    modifies buf
    ensures Terminated(buf[..]) && end == dest + 1
    ensures buf[..dest] == old(buf[..dest]) && buf[end..] == old(buf[end..]) && buf[dest..end] == [c]
  {
    buf[dest] := c;
    end := dest + 1;
  }

  /** The named reference the text starts with, and its character. */
  datatype Named = NoName | Named(c: Byte, length: nat)

  function NamedAt(s: Bytes): Named {
    if AMP_REF <= s then Named(AMP, 5)
    else if APOS_REF <= s then Named(APOS, 6)
    else if QUOT_REF <= s then Named(QUOT, 6)
    else if GT_REF <= s then Named(GT, 4)
    else if LT_REF <= s then Named(LT, 4)
    else NoName
  }

  method FindNamed(buf: array<Byte>, src: nat) returns (r: Named)
    requires Terminated(buf[..]) && src < buf.Length
    ensures r == NamedAt(Rest(buf[..], src)) && (r.Named? ==> 0 < r.length && src + r.length < buf.Length)
  {
    var yes := Matches(buf, src, AMP_REF);
    if yes {
      return Named(AMP, 5);
    }
    yes := Matches(buf, src, APOS_REF);
    if yes {
      return Named(APOS, 6);
    }
    yes := Matches(buf, src, QUOT_REF);
    if yes {
      return Named(QUOT, 6);
    }
    yes := Matches(buf, src, GT_REF);
    if yes {
      return Named(GT, 4);
    }
    yes := Matches(buf, src, LT_REF);
    if yes {
      return Named(LT, 4);
    }
    return NoName;
  }

  lemma PieceByName(s: Bytes)
    requires s != []
    ensures var r := NamedAt(s);
            && (r.Named? ==> r.length <= |s| && PieceAt(s) == Piece([r.c], s[r.length..]))
            && (r.NoName? ==>
                  PieceAt(s) == if s[0] == AMP && Peek(s[1..]) == 0x23 then
                                  if Peek(s[2..]) == 0x78 then NumericAt(16, s[3..], |s|) else NumericAt(10, s[2..], |s|)
                                else Piece([s[0]], s[1..]))
            && (s[0] != AMP ==> r.NoName?)
  {
    hide NumericAt;
  }

  /** One turn of the translation loop: a character or reference at `src`, put at `dest`. */
  method PutPiece(buf: array<Byte>, src0: nat, dest: nat) returns (src: nat, end: nat, fault: MaybeFault)
    requires Terminated(buf[..]) && src0 < buf.Length && buf[src0] != 0 && dest <= src0
    modifies buf
    ensures src0 <= src < buf.Length && Terminated(buf[..]) && dest <= end <= src && (fault.Fine? ==> src0 < src)
    ensures buf[..dest] == old(buf[..dest]) && buf[end..] == old(buf[end..])
    ensures fault == Bad(InvalidNumericEntity) ==> end == dest
    ensures var s := Rest(old(buf[..]), src0);
            if fault.Bad? then
              PieceAt(s) == PieceError(fault.fault, FaultLeft(fault.fault, |s|, Rest(old(buf[..]), src)))
            else PieceAt(s) == Piece(buf[dest..end], Rest(old(buf[..]), src))
  {
    hide PieceAt, NumericAt, NamedAt;
    src, end, fault := src0, dest, Fine;
    ghost var b := buf[..];
    PeekRest(b, src);
    PieceByName(Rest(b, src));
    var named := FindNamed(buf, src);
    if named.Named? {
      RestDrop(b, src, named.length);
      src := src + named.length;
      end := PutOne(buf, dest, src, named.c);
      return;
    }
    if buf[src] == AMP {
      PeekRest(b, src + 1);
      if buf[src + 1] == 0x23 {
        RestDrop(b, src, 1);
        RestDrop(b, src, 2);
        PeekRest(b, src + 2);
        if buf[src + 2] == 0x78 {
          RestDrop(b, src, 3);
          src, end, fault := PutNumeric(buf, 16, src + 3, dest, |Rest(b, src0)|);
        } else {
          src, end, fault := PutNumeric(buf, 10, src + 2, dest, |Rest(b, src0)|);
        }
        return;
      }
    }
    src := src + 1;
    end := PutOne(buf, dest, src, buf[src0]);
  }

  // ---------------------------------------------------------------- skip_and_expand_character_refs

  /** Nothing to translate yet: characters of the class other than '&'. */
  method SkipPure(k: CharClass, buf: array<Byte>, i: nat) returns (j: nat)
    requires Terminated(buf[..]) && i < buf.Length && !In(k, 0)
    ensures i <= j < buf.Length
    ensures Expand(k, Rest(buf[..], i)) == Later(buf[i..j], j - i, Expand(k, Rest(buf[..], j)))
  {
    hide Expand, In;
    j := i;
    assert buf[i..j] == [];
    LaterNone(Expand(k, Rest(buf[..], i)));
    while In(k, buf[j]) && buf[j] != AMP
      invariant i <= j < buf.Length
      invariant Expand(k, Rest(buf[..], i)) == Later(buf[i..j], j - i, Expand(k, Rest(buf[..], j)))
      decreases buf.Length - j
    {
      PureTurn(k, buf[..], j);
      LaterTwice(buf[i..j], j - i, [buf[j]], 1, Expand(k, Rest(buf[..], j + 1)));
      assert buf[i..j + 1] == buf[i..j] + [buf[j]];
      j := j + 1;
    }
  }

  lemma PureTurn(k: CharClass, b: Bytes, j: nat)
    requires Terminated(b) && j < |b| && b[j] != 0 && b[j] != AMP && In(k, b[j])
    ensures j + 1 < |b| && Expand(k, Rest(b, j)) == Later([b[j]], 1, Expand(k, Rest(b, j + 1)))
  {
    hide In, Expand, PieceAt, NamedAt;
    PeekRest(b, j);
    PieceByName(Rest(b, j));
    ExpandTurn(k, Rest(b, j));
  }

  /** The text `c` is `b` with everything from `i` to `src` translated and packed into `i` to `dest`. */
  ghost predicate Translated(k: CharClass, b: Bytes, i: nat, c: Bytes, src: nat, dest: nat) {
    && i <= dest <= src < |b| == |c| && Terminated(c)
    && c[..i] == b[..i] && c[dest..] == b[dest..]
    && Expand(k, Rest(b, i)) == Later(c[i..dest], src - i, Expand(k, Rest(b, src)))
  }

  lemma SameAfter(b: Bytes, c: Bytes, i: nat, j: nat)
    requires |b| == |c| && i <= j < |b| && b[i..] == c[i..]
    ensures Rest(b, j) == Rest(c, j) && b[j] == c[j] && b[j..] == c[j..]
  {
    SameRest(b, c, i);
    SameRest(b, c, j);
  }

  lemma TranslateTurn(k: CharClass, b: Bytes, i: nat, c: Bytes, src0: nat, dest0: nat, d: Bytes, src: nat, dest: nat)
    requires Translated(k, b, i, c, src0, dest0) && In(k, c[src0]) && c[src0] != 0
    requires src0 <= src < |d| == |c| && dest0 <= dest <= src && Terminated(d)
    requires d[..dest0] == c[..dest0] && d[dest..] == c[dest..]
    requires PieceAt(Rest(c, src0)) == Piece(d[dest0..dest], Rest(c, src))
    ensures Translated(k, b, i, d, src, dest)
  {
    hide Expand, In, PieceAt;
    SameAfter(b, c, dest0, src0);
    SameAfter(b, c, dest0, src);
    SameAfter(b, c, dest0, dest);
    PeekRest(c, src0);
    ExpandTurn(k, Rest(c, src0));
    Below(c, d, i, dest0);
    assert d[i..dest] == c[i..dest0] + d[dest0..dest];
    LaterTwice(c[i..dest0], src0 - i, d[dest0..dest], src - src0, Expand(k, Rest(b, src)));
  }

  lemma TranslateFault(k: CharClass, b: Bytes, i: nat, c: Bytes, src0: nat, dest0: nat, fault: Fault,
      src: nat)
    requires Translated(k, b, i, c, src0, dest0) && In(k, c[src0]) && c[src0] != 0 && src0 <= src < |c|
    requires PieceAt(Rest(c, src0)) == PieceError(fault, FaultLeft(fault, |Rest(c, src0)|, Rest(c, src)))
    ensures Expand(k, Rest(b, i)) == PieceError(fault, |Rest(b, if fault == InvalidNumericEntity then dest0 else src)|)
  {
    hide Expand, In, PieceAt, Later;
    SameAfter(b, c, dest0, src0);
    FaultPlace(fault, c[i..dest0], src0 - i, FaultLeft(fault, |Rest(c, src0)|, Rest(c, src)));
    PeekRest(c, src0);
    ExpandTurn(k, Rest(c, src0));
  }

  lemma TranslatedMeans(k: CharClass, b: Bytes, i: nat, c: Bytes, src: nat, dest: nat)
    requires Translated(k, b, i, c, src, dest)
    ensures i <= dest <= src < |b| == |c| && Terminated(c) && c[..i] == b[..i] && c[dest..] == b[dest..]
  {
  }

  lemma TranslateStarts(k: CharClass, b: Bytes, i: nat, j: nat)
    requires i <= j < |b| && Terminated(b) && Expand(k, Rest(b, i)) == Later(b[i..j], j - i, Expand(k, Rest(b, j)))
    ensures Translated(k, b, i, b, j, j)
  {
  }

  lemma TranslateDone(k: CharClass, b: Bytes, i: nat, c: Bytes, src: nat, dest: nat)
    requires Translated(k, b, i, c, src, dest) && Terminated(b) && !In(k, c[src])
    ensures Expand(k, Rest(b, i)) == Piece(c[i..dest], Rest(b, src))
  {
    hide Expand, In;
    SameAfter(b, c, dest, src);
    PeekRest(b, src);
    Stopped(k, Rest(b, src), c[i..dest], src - i);
  }

  /**
    The in-place translation: the write cursor never passes the read cursor, so the unread text stays intact. On a
    fault `text` is the place reported: the write cursor for an invalid code, the read cursor otherwise.
   */
  method SkipAndExpand(k: CharClass, buf: array<Byte>, i: nat) returns (text: nat, end: nat, fault: MaybeFault)
    requires Terminated(buf[..]) && i < buf.Length && !In(k, 0)
    modifies buf
    ensures i <= end <= text < buf.Length && Terminated(buf[..])
    ensures buf[..i] == old(buf[..i]) && buf[text..] == old(buf[text..])
    ensures var s := Rest(old(buf[..]), i);
            if fault.Bad? then Expand(k, s) == PieceError(fault.fault, |Rest(old(buf[..]), text)|)
            else Expand(k, s) == Piece(buf[i..end], Rest(old(buf[..]), text)) && !In(k, buf[text])
  {
    hide Expand, In, PieceAt, Later, Translated;
    ghost var b := buf[..];
    fault := Fine;
    text := SkipPure(k, buf, i);
    end := text;
    TranslateStarts(k, b, i, text);
    while In(k, buf[text])
      invariant i <= end <= text < buf.Length && Translated(k, b, i, buf[..], text, end) && fault.Fine?
      decreases buf.Length - text
    {
      ghost var c, src0, dest0 := buf[..], text, end;
      TranslatedMeans(k, b, i, c, src0, dest0);
      text, end, fault := PutPiece(buf, text, end);
      SameAfter(b, c, dest0, src0);
      Below(c, buf[..], i, dest0);
      if fault.Bad? {
        TranslateFault(k, b, i, c, src0, dest0, fault.fault, text);
        SameAfter(b, c, dest0, end);
        SameAfter(b, buf[..], end, text);
        if fault.fault == InvalidNumericEntity {
          text := end;
        }
        return;
      }
      TranslateTurn(k, b, i, c, src0, dest0, buf[..], text, end);
    }
    TranslatedMeans(k, b, i, buf[..], text, end);
    SameAfter(b, buf[..], end, text);
    TranslateDone(k, b, i, buf[..], text, end);
  }

  lemma Below(b: Bytes, c: Bytes, i: nat, j: nat)
    requires i <= j <= |b| == |c| && b[..j] == c[..j]
    ensures b[..i] == c[..i] && b[i..j] == c[i..j]
  {
    assert b[..i] == b[..j][..i] && c[..i] == c[..j][..i];
    assert b[i..j] == b[..j][i..] && c[i..j] == c[..j][i..];
  }

  lemma FaultPlace(fault: Fault, done: Bytes, taken: nat, left: nat)
    requires |done| <= taken
    ensures Later(done, taken, PieceError(fault, left))
         == PieceError(fault, if fault == InvalidNumericEntity then left + (taken - |done|) else left)
  {
  }

  lemma Stopped(k: CharClass, s: Bytes, done: Bytes, taken: nat)
    requires !In(k, Peek(s)) && |done| <= taken
    ensures Later(done, taken, Expand(k, s)) == Piece(done, s)
  {
    assert done + [] == done;
  }

  // ---------------------------------------------------------------- pointers into the text

  datatype Ptr = Nil | Ptr(start: nat, length: nat)

  datatype PAttribute = PAttribute(name: Ptr, value: Ptr)

  datatype PNode =
    | PElement(name: Ptr, value: Ptr, attributes: seq<PAttribute>, children: seq<PNode>)
    | PData(text: Ptr)
    | PCdata(text: Ptr)

  /** Points between two positions. */
  predicate PtrIn(p: Ptr, lo: nat, hi: nat) {
    p.Ptr? ==> lo <= p.start && p.start + p.length <= hi
  }

  predicate AttributeIn(a: PAttribute, lo: nat, hi: nat) {
    PtrIn(a.name, lo, hi) && PtrIn(a.value, lo, hi)
  }

  predicate AttributesIn(list: seq<PAttribute>, lo: nat, hi: nat) {
    forall i :: 0 <= i < |list| ==> AttributeIn(list[i], lo, hi)
  }

  predicate NodeIn(n: PNode, lo: nat, hi: nat)
    decreases n
  {
    match n
    case PElement(name, value, attributes, children) =>
      PtrIn(name, lo, hi) && PtrIn(value, lo, hi) && AttributesIn(attributes, lo, hi)
      && forall i :: 0 <= i < |children| ==> NodeIn(children[i], lo, hi)
    case PData(text) => PtrIn(text, lo, hi)
    case PCdata(text) => PtrIn(text, lo, hi)
  }

  predicate NodesIn(ns: seq<PNode>, lo: nat, hi: nat) {
    forall i :: 0 <= i < |ns| ==> NodeIn(ns[i], lo, hi)
  }

  /** What the pointers show. */
  function Show(b: Bytes, p: Ptr): Bytes
    requires PtrIn(p, 0, |b|)
  {
    if p.Nil? then [] else b[p.start..p.start + p.length]
  }

  function ShowAttribute(b: Bytes, a: PAttribute): Attribute
    requires AttributeIn(a, 0, |b|)
  {
    Attribute(Show(b, a.name), Show(b, a.value))
  }

  function ShowAttributes(b: Bytes, list: seq<PAttribute>): seq<Attribute>
    requires AttributesIn(list, 0, |b|)
  {
    seq(|list|, i requires 0 <= i < |list| => ShowAttribute(b, list[i]))
  }

  function ShowNode(b: Bytes, n: PNode): Node
    requires NodeIn(n, 0, |b|)
    decreases n
  {
    match n
    case PElement(name, value, attributes, children) =>
      Element(Show(b, name), Show(b, value), ShowAttributes(b, attributes),
              seq(|children|, i requires 0 <= i < |children| => ShowNode(b, children[i])))
    case PData(text) => Data(Show(b, text))
    case PCdata(text) => Cdata(Show(b, text))
  }

  function ShowNodes(b: Bytes, ns: seq<PNode>): seq<Node>
    requires NodesIn(ns, 0, |b|)
  {
    seq(|ns|, i requires 0 <= i < |ns| => ShowNode(b, ns[i]))
  }

  lemma PtrWider(p: Ptr, lo: nat, hi: nat, lo2: nat, hi2: nat)
    requires PtrIn(p, lo, hi) && lo2 <= lo && hi <= hi2
    ensures PtrIn(p, lo2, hi2)
  {
  }

  lemma AttributesWider(list: seq<PAttribute>, lo: nat, hi: nat, lo2: nat, hi2: nat)
    requires AttributesIn(list, lo, hi) && lo2 <= lo && hi <= hi2
    ensures AttributesIn(list, lo2, hi2)
  {
    forall i | 0 <= i < |list| ensures AttributeIn(list[i], lo2, hi2) {
      assert AttributeIn(list[i], lo, hi);
    }
  }

  lemma {:induction false} NodeWider(n: PNode, lo: nat, hi: nat, lo2: nat, hi2: nat)
    requires NodeIn(n, lo, hi) && lo2 <= lo && hi <= hi2
    ensures NodeIn(n, lo2, hi2)
    decreases n
  {
    if n.PElement? {
      AttributesWider(n.attributes, lo, hi, lo2, hi2);
      forall i | 0 <= i < |n.children| ensures NodeIn(n.children[i], lo2, hi2) {
        NodeWider(n.children[i], lo, hi, lo2, hi2);
      }
    }
  }

  lemma NodesWider(ns: seq<PNode>, lo: nat, hi: nat, lo2: nat, hi2: nat)
    requires NodesIn(ns, lo, hi) && lo2 <= lo && hi <= hi2
    ensures NodesIn(ns, lo2, hi2)
  {
    forall i | 0 <= i < |ns| ensures NodeIn(ns[i], lo2, hi2) {
      NodeWider(ns[i], lo, hi, lo2, hi2);
    }
  }

  /** Texts that agree between two positions show the same there. */
  predicate AgreeIn(b: Bytes, c: Bytes, lo: nat, hi: nat) {
    |b| == |c| && hi <= |b| && forall i :: lo <= i < hi ==> b[i] == c[i]
  }

  lemma ShowSame(b: Bytes, c: Bytes, p: Ptr, lo: nat, hi: nat)
    requires AgreeIn(b, c, lo, hi) && PtrIn(p, lo, hi)
    ensures PtrIn(p, 0, |b|) && Show(b, p) == Show(c, p)
  {
  }

  lemma AttributesSame(b: Bytes, c: Bytes, list: seq<PAttribute>, lo: nat, hi: nat)
    requires AgreeIn(b, c, lo, hi) && AttributesIn(list, lo, hi)
    ensures AttributesIn(list, 0, |b|) && ShowAttributes(b, list) == ShowAttributes(c, list)
  {
    hide Show, AgreeIn;
    AttributesWider(list, lo, hi, 0, hi);
    assert hi <= |b| == |c| by { AgreeLength(b, c, lo, hi); }
    AttributesWider(list, lo, hi, 0, |b|);
    forall i | 0 <= i < |list| ensures ShowAttribute(b, list[i]) == ShowAttribute(c, list[i]) {
      assert AttributeIn(list[i], lo, hi);
      ShowSame(b, c, list[i].name, lo, hi);
      ShowSame(b, c, list[i].value, lo, hi);
    }
  }

  lemma AgreeLength(b: Bytes, c: Bytes, lo: nat, hi: nat)
    requires AgreeIn(b, c, lo, hi)
    ensures hi <= |b| == |c|
  {
  }

  lemma {:induction false} NodeSame(b: Bytes, c: Bytes, n: PNode, lo: nat, hi: nat)
    requires AgreeIn(b, c, lo, hi) && NodeIn(n, lo, hi)
    ensures NodeIn(n, 0, |b|) && |b| == |c| && ShowNode(b, n) == ShowNode(c, n)
    decreases n
  {
    hide Show, AgreeIn, ShowAttributes;
    AgreeLength(b, c, lo, hi);
    NodeWider(n, lo, hi, 0, |b|);
    if n.PElement? {
      ShowSame(b, c, n.name, lo, hi);
      ShowSame(b, c, n.value, lo, hi);
      AttributesSame(b, c, n.attributes, lo, hi);
      forall i | 0 <= i < |n.children| ensures ShowNode(b, n.children[i]) == ShowNode(c, n.children[i]) {
        NodeSame(b, c, n.children[i], lo, hi);
      }
    } else {
      ShowSame(b, c, n.text, lo, hi);
    }
  }

  lemma NodesSame(b: Bytes, c: Bytes, ns: seq<PNode>, lo: nat, hi: nat)
    requires AgreeIn(b, c, lo, hi) && NodesIn(ns, lo, hi)
    ensures NodesIn(ns, 0, |b|) && |b| == |c| && ShowNodes(b, ns) == ShowNodes(c, ns)
  {
    hide ShowNode, AgreeIn;
    AgreeLength(b, c, lo, hi);
    NodesWider(ns, lo, hi, 0, |b|);
    forall i | 0 <= i < |ns| ensures ShowNode(b, ns[i]) == ShowNode(c, ns[i]) {
      NodeSame(b, c, ns[i], lo, hi);
    }
  }
}
