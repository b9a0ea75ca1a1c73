/**
  `GenericPointer::Parse` as it fills its name buffer and token table, which are allocated from the length of
  the source and its number of '/'.
 */
module PointerParse {
  import opened Json
  import opened Numbers
  import opened Utf
  import opened Pointer

  /** A token as stored: where its name starts in the buffer, its length and its index. */
  datatype Slot = Slot(start: nat, length: nat, index: nat)

  datatype MaybeError = NoError | Failed(code: PointerError)

  function Slashes(s: Bytes): nat {
    if s == [] then 0 else (if s[0] == SLASH then 1 else 0) + Slashes(s[1..])
  }

  lemma {:induction false} SlashesSkip(s: Bytes, n: nat)
    requires n <= |s| && SLASH !in s[..n]
    ensures Slashes(s[n..]) == Slashes(s)
    decreases n
  {
    if n > 0 {
      assert s[0] == s[..n][0];
      assert s[1..][..n - 1] == s[..n][1..];
      assert s[1..][n - 1..] == s[n..];
      SlashesSkip(s[1..], n - 1);
    }
  }

  lemma {:induction false} TripletsHoldNoSlash(s: Bytes, count: nat)
    ensures var n := 3 * |Triplets(s, count)|; SLASH !in s[..n]
    decreases count
  {
    if count > 0 && IsTriplet(s) {
      TripletsHoldNoSlash(s[3..], count - 1);
      var n := 3 * |Triplets(s, count)|;
      assert s[..n] == s[..3] + s[3..][..n - 3];
    }
  }

  lemma UnescapedSkips(c: Byte, s: Bytes)
    ensures var p := Unescaped(c, s); p.Part? ==> Slashes(p.rest) == Slashes(s) && |p.bytes| == 1
  {
  }

  /** A part of a name never reaches over a '/'. */
  lemma PartSkips(fragment: bool, s: Bytes)
    requires s != [] && s[0] != SLASH
    ensures var p := PartAt(fragment, s); p.Part? ==> Slashes(p.rest) == Slashes(s) && p.rest == s[|s| - |p.rest|..]
  {
    hide Validate, Triplets, Slashes;
    var p := PartAt(fragment, s);
    if p.Part? {
      if fragment && s[0] == PERCENT {
        var t := Triplets(s, 4);
        var n := Validate(t).taken;
        TripletsHoldNoSlash(s, 4);
        assert s[..3 * n] <= s[..3 * |t|];
        SlashesSkip(s, 3 * n);
        if n == 1 {
          UnescapedSkips(t[0], s[3..]);
        }
      } else {
        assert s[..1] == [s[0]];
        SlashesSkip(s, 1);
        UnescapedSkips(s[0], s[1..]);
      }
    }
  }

  function PrependPart(bytes: Bytes, p: Part): Part {
    match p
    case Part(more, rest) => Part(bytes + more, rest)
    case PartError(_, _) => p
  }

  function PrependNames(names: seq<Bytes>, r: Parsed): Parsed {
    match r
    case Names(more) => Names(names + more)
    case ParseError(_, _) => r
  }

  /** A character of more than one byte holds no digit. */
  lemma LongPartIsNoNumber(s: Bytes)
    requires s != [] && s[0] == PERCENT && Validate(Triplets(s, 4)).taken > 1 && PercentAt(s).Part?
    ensures !AllDigits(PercentAt(s).bytes)
  {
    hide Triplets;
    var t := Triplets(s, 4);
    ValidateIsDecode(t);
    DecodeIsGrammar(t);
    assert t[..Validate(t).taken][0] == t[0];
  }

  class GenericPointer {
    var nameBuffer: array<Byte>
    var tokens: array<Slot>
    var tokenCount: nat
    var parseErrorCode: MaybeError
    var parseErrorOffset: nat

    /** Nothing has been parsed yet. */
    predicate Fresh()
      reads this
    {
      nameBuffer.Length == 0 && tokens.Length == 0 && tokenCount == 0 && parseErrorCode == NoError
    }

    /** The tokens spell these names, with their lengths, terminators and indices, all inside the buffer. */
    ghost predicate Spells(names: seq<Bytes>)
      reads this, nameBuffer, tokens
    {
      tokenCount == |names| == tokens.Length && Stored(nameBuffer, tokens, names, nameBuffer.Length)
    }

    constructor ()
      ensures Fresh()
    {
      nameBuffer, tokens, tokenCount := new Byte[0], new Slot[0], 0;
      parseErrorCode, parseErrorOffset := NoError, 0;
    }

    /**
      Counts the tokens, allocates exactly that many slots and one byte of buffer per source character, then
      fills both. Every store is inside its array, and on success every slot is used.
     */
    method Parse(source: Bytes)
      requires Fresh()
      modifies this
      ensures parseErrorCode.NoError? <==> ParseNames(source).Names?
      ensures parseErrorCode.NoError? ==> Spells(ParseNames(source).names) && tokenCount == Slashes(source)
      ensures parseErrorCode.Failed? ==> tokenCount == 0 && parseErrorOffset <= |source|
      ensures parseErrorCode.Failed? ==>
                ParseNames(source) == ParseError(parseErrorCode.code, |source| - parseErrorOffset)
    {
      hide Slashes, NamesAt;
      var count := CountSlashes(source);
      var buffer, table := new Byte[|source|], new Slot[count];
      var i := 0;
      var fragment := IsFragment(source);
      if fragment {
        i := 1;
        HashIsNoSlash(source);
      }
      assert source[0..] == source;
      if i != |source| && source[i] != SLASH {
        parseErrorCode, parseErrorOffset := Failed(TokenMustBeginWithSolidus), i;
        return;
      }
      i, parseErrorCode := ParseTokens(source, i, fragment, buffer, table);
      if parseErrorCode.Failed? {
        parseErrorOffset := i;
        return;
      }
      nameBuffer, tokens, tokenCount := buffer, table, count;
    }
  }

  /** The outer loop of `Parse`. */
  method ParseTokens(source: Bytes, i0: nat, fragment: bool, buffer: array<Byte>, table: array<Slot>)
      returns (i: nat, code: MaybeError)
    requires i0 <= |source| && buffer.Length == |source| && table.Length == Slashes(source[i0..])
    requires i0 == |source| || source[i0] == SLASH
    modifies buffer, table
    ensures i <= |source|
    ensures code.Failed? ==> NamesAt(fragment, source[i0..]) == ParseError(code.code, |source| - i)
    ensures code.NoError? ==> NamesAt(fragment, source[i0..]).Names?
    ensures code.NoError? ==> var names := NamesAt(fragment, source[i0..]).names;
              |names| == table.Length && Stored(buffer, table, names, buffer.Length)
  {
    hide Slashes, NameAt, NamesAt, StoredIn;
    i, code := i0, NoError;
    var name: nat := 0;
    var token: nat := 0;
    ghost var names: seq<Bytes> := [];
    ghost var all := NamesAt(fragment, source[i..]);
    NoNames(all);
    NothingStored(buffer[..], table[..]);
    while i < |source|
      invariant name <= i <= |source| && token + Slashes(source[i..]) == table.Length && token == |names|
      invariant i == |source| || source[i] == SLASH
      invariant all == PrependNames(names, NamesAt(fragment, source[i..]))
      invariant Stored(buffer, table, names, name)
      invariant code.NoError?
      decreases |source| - i
    {
      ghost var s := source[i..];
      assert s[1..] == source[i + 1..];
      SlashCounts(s);
      NamesStep(fragment, s);
      ghost var text := NameAt(fragment, source[i + 1..]);
      i, name, code := ParseToken(source, i, fragment, buffer, table, name, token, names);
      if code.Failed? {
        return;
      }
      PrependNamesTwice(names, [text.bytes], NamesAt(fragment, source[i..]));
      token := token + 1;
      names := names + [text.bytes];
    }
    assert source[i..] == [];
    NoSlashes();
    AllNames(fragment, names);
    StoredWithin(buffer[..], table[..], names, name);
  }

  /** One token: its name, the terminator, and the index. */
  method ParseToken(source: Bytes, i0: nat, fragment: bool, buffer: array<Byte>, table: array<Slot>, name0: nat,
                    token: nat, ghost names: seq<Bytes>)
      returns (i: nat, name: nat, code: MaybeError)
    requires i0 < |source| && source[i0] == SLASH && buffer.Length == |source| && name0 <= i0
    requires token == |names| < table.Length && Stored(buffer, table, names, name0)
    modifies buffer, table
    ensures i <= |source|
    ensures code.Failed? ==> NameAt(fragment, source[i0 + 1..]) == PartError(code.code, |source| - i)
    ensures code.NoError? ==> i0 < i && name <= i && (i == |source| || source[i] == SLASH)
    ensures code.NoError? ==> NameAt(fragment, source[i0 + 1..]).Part?
    ensures code.NoError? ==> NameAt(fragment, source[i0 + 1..]).rest == source[i..]
    ensures code.NoError? ==> Stored(buffer, table, names + [NameAt(fragment, source[i0 + 1..]).bytes], name)
    ensures code.NoError? ==> Slashes(source[i..]) == Slashes(source[i0 + 1..])
  {
    hide Slashes, NameAt, StoredIn, AllDigits, IndexOf;
    ghost var before := buffer[..];
    var isNumber;
    i, name, isNumber, code := ParseName(source, i0 + 1, fragment, buffer, name0);
    if code.Failed? {
      return;
    }
    ghost var text := buffer[name0..name];
    buffer[name] := 0;
    StoredKept(before, buffer[..], table[..], names, name0);
    assert buffer[name0..name] == text;
    var index := ToIndex(buffer[name0..name], isNumber && name - name0 > 0);
    StoredElsewhere(buffer[..], table[..], table[..][token := Slot(name0, name - name0, index)], names, name0);
    table[token] := Slot(name0, name - name0, index);
    StoredMore(buffer[..], table[..], names, text, name0, name);
    name := name + 1;
    NameStops(fragment, source[i0 + 1..]);
  }

  /** The first slots of the table spell these names in a buffer of which `used` bytes are filled. */
  ghost predicate StoredIn(buffer: Bytes, table: seq<Slot>, names: seq<Bytes>, used: nat) {
    && |names| <= |table| && used <= |buffer|
    && forall k :: 0 <= k < |names| ==> SlotSpells(buffer, table[k], names[k], used)
  }

  ghost predicate SlotSpells(buffer: Bytes, t: Slot, name: Bytes, used: nat) {
    && t.length == |name| && t.start + t.length < used <= |buffer|
    && buffer[t.start..t.start + t.length] == name && buffer[t.start + t.length] == 0
    && t.index == IndexOf(name)
  }

  ghost predicate Stored(buffer: array<Byte>, table: array<Slot>, names: seq<Bytes>, used: nat)
    reads buffer, table
  {
    StoredIn(buffer[..], table[..], names, used)
  }

  lemma StoredKept(before: Bytes, after: Bytes, table: seq<Slot>, names: seq<Bytes>, used: nat)
    requires StoredIn(before, table, names, used) && |after| == |before| && after[..used] == before[..used]
    ensures StoredIn(after, table, names, used)
  {
    forall k | 0 <= k < |names| ensures SlotSpells(after, table[k], names[k], used) {
      var t := table[k];
      assert SlotSpells(before, t, names[k], used);
      assert after[t.start..t.start + t.length] == after[..used][t.start..t.start + t.length];
      assert before[t.start..t.start + t.length] == before[..used][t.start..t.start + t.length];
      assert after[t.start + t.length] == after[..used][t.start + t.length];
    }
  }

  lemma StoredElsewhere(buffer: Bytes, before: seq<Slot>, after: seq<Slot>, names: seq<Bytes>, used: nat)
    requires StoredIn(buffer, before, names, used) && |after| == |before| && after[..|names|] == before[..|names|]
    ensures StoredIn(buffer, after, names, used)
  {
    hide SlotSpells;
    forall k | 0 <= k < |names| ensures SlotSpells(buffer, after[k], names[k], used) {
      assert after[k] == after[..|names|][k] && before[k] == before[..|names|][k];
    }
  }

  lemma NothingStored(buffer: Bytes, table: seq<Slot>)
    ensures StoredIn(buffer, table, [], 0)
  {
  }

  lemma StoredMore(buffer: Bytes, table: seq<Slot>, names: seq<Bytes>, text: Bytes, start: nat, name: nat)
    requires StoredIn(buffer, table, names, start) && start <= name < |buffer| && |names| < |table|
    requires buffer[start..name] == text && buffer[name] == 0
    requires table[|names|] == Slot(start, name - start, IndexOf(text))
    ensures StoredIn(buffer, table, names + [text], name + 1)
  {
    hide IndexOf;
    var more := names + [text];
    forall k | 0 <= k < |more| ensures SlotSpells(buffer, table[k], more[k], name + 1) {
      if k < |names| {
        assert SlotSpells(buffer, table[k], names[k], start);
      }
    }
  }

  lemma StoredWithin(buffer: Bytes, table: seq<Slot>, names: seq<Bytes>, used: nat)
    requires StoredIn(buffer, table, names, used)
    ensures StoredIn(buffer, table, names, |buffer|)
  {
    hide IndexOf;
    forall k | 0 <= k < |names| ensures SlotSpells(buffer, table[k], names[k], |buffer|) {
      assert SlotSpells(buffer, table[k], names[k], used);
    }
  }

  lemma HashIsNoSlash(source: Bytes)
    requires IsFragment(source)
    ensures Slashes(source[1..]) == Slashes(source)
  {
  }

  lemma SlashCounts(s: Bytes)
    requires s != [] && s[0] == SLASH
    ensures Slashes(s) == 1 + Slashes(s[1..])
  {
  }

  lemma NoSlashes()
    ensures Slashes([]) == 0
  {
  }

  lemma NamesStep(fragment: bool, s: Bytes)
    requires s != [] && s[0] == SLASH
    ensures var name := NameAt(fragment, s[1..]);
            NamesAt(fragment, s) == if name.PartError? then ParseError(name.code, name.left)
                                    else PrependNames([name.bytes], NamesAt(fragment, name.rest))
  {
    hide NameAt;
  }

  lemma NameStops(fragment: bool, s: Bytes)
    requires NameAt(fragment, s).Part?
    ensures var rest := NameAt(fragment, s).rest; rest == [] || rest[0] == SLASH
  {
  }

  lemma NoNames(r: Parsed)
    ensures PrependNames([], r) == r
  {
    if r.Names? {
      assert [] + r.names == r.names;
    }
  }

  lemma AllNames(fragment: bool, names: seq<Bytes>)
    ensures PrependNames(names, NamesAt(fragment, [])) == Names(names)
  {
    assert names + [] == names;
  }

  lemma PrependNamesTwice(a: seq<Bytes>, b: seq<Bytes>, r: Parsed)
    ensures PrependNames(a, PrependNames(b, r)) == PrependNames(a + b, r)
  {
    if r.Names? {
      assert a + (b + r.names) == a + b + r.names;
    }
  }

  method CountSlashes(source: Bytes) returns (n: nat)
    ensures n == Slashes(source)
  {
    n := 0;
    for i := 0 to |source|
      invariant n + Slashes(source[i..]) == Slashes(source)
    {
      assert source[i..][1..] == source[i + 1..];
      if source[i] == SLASH {
        n := n + 1;
      }
    }
  }

  /** The conversion of a name to an index. */
  method ToIndex(name: Bytes, isNumber: bool) returns (index: nat)
    requires isNumber == (name != [] && AllDigits(name))
    ensures index == IndexOf(name)
  {
    hide AllDigits;
    if !isNumber || (|name| > 1 && name[0] == 0x30) {
      return INVALID_INDEX;
    }
    var n := 0;
    var j := 0;
    while j < |name|
      invariant 0 <= j <= |name| && AllDigits(name[j..])
      invariant Accumulated(n, name[j..]) == Accumulated(0, name)
    {
      assert name[j..][0] == name[j] && name[j..][1..] == name[j + 1..];
      TailDigits(name[j..]);
      var m := (n * 10 + (name[j] - 0x30)) % SIZE_RANGE;
      if m < n {
        return INVALID_INDEX;
      }
      n := m;
      j := j + 1;
    }
    return n;
  }

  lemma TailDigits(s: Bytes)
    requires s != [] && AllDigits(s)
    ensures AllDigits(s[1..]) && 0x30 <= s[0] <= 0x39
  {
  }

  lemma NameStep(fragment: bool, s: Bytes)
    requires s != [] && s[0] != SLASH
    ensures var p := PartAt(fragment, s);
            NameAt(fragment, s) == if p.PartError? then p else PrependPart(p.bytes, NameAt(fragment, p.rest))
  {
    hide PartAt;
  }

  lemma PrependTwice(a: Bytes, b: Bytes, p: Part)
    ensures PrependPart(a, PrependPart(b, p)) == PrependPart(a + b, p)
  {
    if p.Part? {
      assert a + (b + p.bytes) == a + b + p.bytes;
    }
  }

  /** Copies what the UTF-8 validation puts. */
  method PutAll(buffer: array<Byte>, at: nat, bytes: Bytes)
    requires at + |bytes| <= buffer.Length
    modifies buffer
    ensures buffer[..at] == old(buffer[..at]) && buffer[at..at + |bytes|] == bytes
  {
    for k := 0 to |bytes|
      invariant buffer[..at] == old(buffer[..at])
      invariant forall j :: 0 <= j < k ==> buffer[at + j] == bytes[j]
    {
      buffer[at + k] := bytes[k];
    }
  }

  /** A triplet cannot start so late that its bytes would not fit. */
  lemma PercentFits(s: Bytes)
    requires s != [] && s[0] == PERCENT
    ensures var t := Triplets(s, 4);
            |t| > 0 ==> |s| >= 3 && Validate(t).taken <= 4 && |Validate(t).put| == Validate(t).taken
    ensures var t := Triplets(s, 4); t == [] ==> Validate(t).taken == 1 && |Validate(t).put| == 1
    ensures Validate(Triplets(s, 4)).taken >= 1
  {
    hide Triplets;
  }

  /**
    One part of a name: the characters the inner loop of `Parse` consumes in one turn, and what they put in
    the buffer.
   */
  method ParsePart(source: Bytes, i0: nat, fragment: bool, buffer: array<Byte>, name0: nat)
      returns (i: nat, name: nat, digits: bool, code: MaybeError)
    requires i0 < |source| && source[i0] != SLASH && name0 + 1 <= i0 && buffer.Length == |source|
    modifies buffer
    ensures buffer[..name0] == old(buffer[..name0]) && name0 <= name <= buffer.Length && i <= |source|
    ensures code.Failed? ==> PartAt(fragment, source[i0..]) == PartError(code.code, |source| - i)
    ensures code.NoError? ==> PartAt(fragment, source[i0..]) == Part(buffer[name0..name], source[i..])
    ensures code.NoError? ==> digits == AllDigits(buffer[name0..name])
  {
    hide Validate, Triplets, NeedPercentEncode, AllDigits, Unescaped, Decode;
    i, name, digits, code := i0, name0, true, NoError;
    var s := source[i..];
    assert s[1..] == source[i + 1..];
    var c := source[i];
    if fragment {
      if c == PERCENT {
        var t := Triplets(s, 4);
        var v := Validate(t);
        PercentFits(s);
        PutAll(buffer, name, v.put);
        if v.taken > |t| || !v.ok {
          code := Failed(InvalidPercentEncoding);
          return;
        }
        ValidateIsDecode(t);
        assert s[3 * v.taken..] == source[i + 3 * v.taken..];
        i := i + 3 * v.taken - 1;
        if v.taken == 1 {
          c := buffer[name];
          assert c == t[0];
        } else {
          LongPartIsNoNumber(s);
          name := name + v.taken;
          digits := false;
          i := i + 1;
          return;
        }
      } else if NeedPercentEncode(c) {
        code := Failed(CharacterMustPercentEncode);
        return;
      }
    }
    i := i + 1;
    assert PartAt(fragment, s) == Unescaped(c, source[i..]);
    i, c, code := TakeEscape(source, i, c);
    if code.Failed? {
      return;
    }
    digits := 0x30 <= c <= 0x39;
    buffer[name] := c;
    name := name + 1;
    assert buffer[name0..name] == [c];
    OneDigit(c);
  }

  /** "~0" and "~1" once the first character has been taken. */
  method TakeEscape(source: Bytes, i0: nat, c0: Byte) returns (i: nat, c: Byte, code: MaybeError)
    requires i0 <= |source|
    ensures i0 <= i <= |source|
    ensures code.Failed? ==> Unescaped(c0, source[i0..]) == PartError(code.code, |source| - i)
    ensures code.NoError? ==> Unescaped(c0, source[i0..]) == Part([c], source[i..])
  {
    i, c, code := i0, c0, NoError;
    if c == TILDE {
      if i < |source| {
        c := source[i];
        assert source[i..][1..] == source[i + 1..];
        if c == 0x30 {
          c := TILDE;
        } else if c == 0x31 {
          c := SLASH;
        } else {
          code := Failed(InvalidEscape);
          return;
        }
        i := i + 1;
      } else {
        code := Failed(InvalidEscape);
        return;
      }
    }
  }

  lemma OneDigit(c: Byte)
    ensures AllDigits([c]) <==> 0x30 <= c <= 0x39
  {
    assert [c][0] == c;
  }

  lemma DigitsJoin(a: Bytes, b: Bytes)
    ensures AllDigits(a + b) <==> AllDigits(a) && AllDigits(b)
  {
    if AllDigits(a + b) {
      assert forall i :: 0 <= i < |a| ==> (a + b)[i] == a[i];
      assert forall i :: 0 <= i < |b| ==> (a + b)[|a| + i] == b[i];
    }
  }

  /** The inner loop of `Parse`: a name up to the next '/' or the end of the source. */
  method ParseName(source: Bytes, i0: nat, fragment: bool, buffer: array<Byte>, name0: nat)
      returns (i: nat, name: nat, isNumber: bool, code: MaybeError)
    requires i0 <= |source| && name0 + 1 <= i0 && buffer.Length == |source|
    modifies buffer
    ensures buffer[..name0] == old(buffer[..name0]) && i <= |source|
    ensures code.NoError? ==> name0 <= name < i
    ensures code.Failed? ==> NameAt(fragment, source[i0..]) == PartError(code.code, |source| - i)
    ensures code.NoError? ==> NameAt(fragment, source[i0..]) == Part(buffer[name0..name], source[i..])
    ensures code.NoError? ==> isNumber == AllDigits(buffer[name0..name])
    ensures code.NoError? ==> Slashes(source[i..]) == Slashes(source[i0..])
  {
    hide AllDigits, PartAt, NameAt, Slashes;
    i, name, isNumber, code := i0, name0, true, NoError;
    assert buffer[name0..name] == [];
    NoDigits();
    NoPrefix(NameAt(fragment, source[i0..]));
    while i < |source| && source[i] != SLASH
      invariant i0 <= i <= |source| && name0 <= name && name + i0 <= i + name0 && code == NoError
      invariant buffer[..name0] == old(buffer[..name0])
      invariant NameAt(fragment, source[i0..]) == PrependPart(buffer[name0..name], NameAt(fragment, source[i..]))
      invariant isNumber == AllDigits(buffer[name0..name])
      invariant Slashes(source[i..]) == Slashes(source[i0..])
      decreases |source| - i
    {
      var digits;
      ghost var s := source[i..];
      ghost var done, before, at := buffer[name0..name], buffer[..name], name;
      NameStep(fragment, s);
      PartSkips(fragment, s);
      i, name, digits, code := ParsePart(source, i, fragment, buffer, name);
      if code.Failed? {
        return;
      }
      assert buffer[..name0] == before[..name0];
      assert buffer[name0..at] == before[name0..] == done;
      assert buffer[name0..name] == done + buffer[at..name];
      DigitsJoin(done, buffer[at..name]);
      PrependTwice(done, buffer[at..name], NameAt(fragment, source[i..]));
      isNumber := isNumber && digits;
    }
    NameEnds(fragment, source[i..]);
  }

  lemma NoDigits()
    ensures AllDigits([])
  {
  }

  lemma NoPrefix(p: Part)
    ensures PrependPart([], p) == p
  {
    if p.Part? {
      assert [] + p.bytes == p.bytes;
    }
  }

  lemma NameEnds(fragment: bool, s: Bytes)
    requires s == [] || s[0] == SLASH
    ensures NameAt(fragment, s) == Part([], s)
  {
  }
}
