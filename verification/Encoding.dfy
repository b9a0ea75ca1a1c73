/**
  The grammar of RFC 8259 is over Unicode characters, and section 8.1 has them encoded in UTF-8; the reader works on
  bytes and does not check the encoding. Here the two are compared: a text of the byte grammar is a text of the
  grammar over characters exactly when it is well-formed UTF-8.
 */
module Encoding {
  import opened Json
  import opened Numbers
  import opened ReaderSpec
  import opened Utf
  import opened Grammar
  import opened GrammarTheorem

  // ---------------------------------------------------------------- characters (section 7)

  /** One character of a string, as the grammar has it. */
  datatype Char =
    | Unescaped(c: nat)
    | Escape(e: Byte)
    | CodeEscape(hex: Bytes)

  predicate LegalChar(ch: Char) {
    match ch
    case Unescaped(c) => IsScalar(c) && c >= 0x20 && c != 0x22 && c != 0x5C
    case Escape(e) => LegalLetter(Short(e))
    case CodeEscape(hex) => LegalLetter(Code(hex))
  }

  /** The bytes as letters that stand for themselves. */
  function Plains(bs: Bytes): (ls: seq<Letter>)
    ensures |ls| == |bs|
  {
    seq(|bs|, i requires 0 <= i < |bs| => Plain(bs[i]))
  }

  /** How a character is spelled in UTF-8. */
  function Spelled(ch: Char): seq<Letter>
    requires LegalChar(ch)
  {
    match ch
    case Unescaped(c) => Plains(Utf8(c))
    case Escape(e) => [Short(e)]
    case CodeEscape(hex) => [Code(hex)]
  }

  predicate LegalChars(chs: seq<Char>) {
    forall i :: 0 <= i < |chs| ==> LegalChar(chs[i])
  }

  function SpelledAll(chs: seq<Char>): seq<Letter>
    requires LegalChars(chs)
  {
    if chs == [] then [] else Spelled(chs[0]) + SpelledAll(chs[1..])
  }

  /** The letters spell a string of characters. */
  ghost predicate SpellsChars(ls: seq<Letter>) {
    exists chs :: LegalChars(chs) && ls == SpelledAll(chs)
  }

  // ---------------------------------------------------------------- cutting UTF-8

  /** No character reaches over this point: nothing follows, or an ASCII byte does. */
  predicate StartsAscii(s: Bytes) {
    s == [] || s[0] < 0x80
  }

  lemma WellFormedFirst(s: Bytes, n: nat)
    requires 1 <= n <= |s| && Utf8Char(s[..n])
    ensures WellFormed(s) <==> WellFormed(s[n..])
  {
    hide Decode, Utf8Char;
    DecodeFirst(s, n);
    if WellFormed(s) {
      var m :| 1 <= m <= |s| && Utf8Char(s[..m]) && WellFormed(s[m..]);
      DecodeFirst(s, m);
    }
  }

  lemma CharBytes(s: Bytes)
    requires Utf8Char(s)
    ensures s != [] && forall i :: 1 <= i < |s| ==> s[i] >= 0x80
    ensures s[0] < 0x80 ==> |s| == 1
  {
  }

  lemma AsciiChar(s: Bytes)
    requires s != [] && s[0] < 0x80
    ensures Utf8Char(s[..1])
  {
  }

  lemma {:induction false} Joined(a: Bytes, b: Bytes)
    requires WellFormed(a) && WellFormed(b)
    ensures WellFormed(a + b)
    decreases |a|
  {
    hide WellFormed, Utf8Char;
    if a == [] {
      assert a + b == b;
    } else {
      StartsWithChar(a);
      var n :| 1 <= n <= |a| && Utf8Char(a[..n]);
      assert (a + b)[..n] == a[..n] && (a + b)[n..] == a[n..] + b;
      WellFormedFirst(a, n);
      WellFormedFirst(a + b, n);
      Joined(a[n..], b);
    }
  }

  /** The first character lies in front of an ASCII byte. */
  lemma CharInFront(a: Bytes, b: Bytes, n: nat)
    requires a != [] && StartsAscii(b) && 1 <= n <= |a + b| && Utf8Char((a + b)[..n])
    ensures n <= |a| && (a + b)[..n] == a[..n]
  {
    hide Utf8Char;
    var s := (a + b)[..n];
    assert |a| < n ==> s[|a|] == b[0];
    CharBytes(s);
  }

  lemma {:induction false} TakenApart(a: Bytes, b: Bytes)
    requires StartsAscii(b) && WellFormed(a + b)
    ensures WellFormed(a) && WellFormed(b)
    decreases |a|
  {
    hide WellFormed, Utf8Char;
    if a == [] {
      assert a + b == b;
      NothingIsWellFormed();
    } else {
      StartsWithChar(a + b);
      var n :| 1 <= n <= |a + b| && Utf8Char((a + b)[..n]);
      CharInFront(a, b, n);
      assert (a + b)[n..] == a[n..] + b;
      WellFormedFirst(a + b, n);
      WellFormedFirst(a, n);
      TakenApart(a[n..], b);
    }
  }

  /** Text cut in front of an ASCII byte is well-formed exactly when both sides are. */
  lemma Cut(a: Bytes, b: Bytes)
    requires StartsAscii(b)
    ensures WellFormed(a + b) <==> WellFormed(a) && WellFormed(b)
  {
    hide WellFormed;
    if WellFormed(a + b) {
      TakenApart(a, b);
    }
    if WellFormed(a) && WellFormed(b) {
      Joined(a, b);
    }
  }

  lemma NothingIsWellFormed()
    ensures WellFormed([])
  {
  }

  lemma StartsWithChar(s: Bytes)
    requires s != [] && WellFormed(s)
    ensures exists n :: 1 <= n <= |s| && Utf8Char(s[..n])
  {
    hide Utf8Char;
  }

  /** A text of ASCII bytes only. */
  predicate AllAscii(s: Bytes) {
    forall i :: 0 <= i < |s| ==> s[i] < 0x80
  }

  lemma {:induction false} AsciiIsWellFormed(s: Bytes)
    requires AllAscii(s)
    ensures WellFormed(s)
    decreases |s|
  {
    hide Utf8Char;
    if s != [] {
      AsciiChar(s);
      AsciiIsWellFormed(s[1..]);
    }
  }

  /** ASCII in front of a text makes no difference. */
  lemma AsciiBefore(a: Bytes, b: Bytes)
    requires AllAscii(a)
    ensures WellFormed(a + b) <==> WellFormed(b)
    decreases |a|
  {
    hide Utf8Char, WellFormed;
    if a == [] {
      assert a + b == b;
    } else {
      AsciiChar(a + b);
      WellFormedFirst(a + b, 1);
      assert (a + b)[1..] == a[1..] + b;
      AsciiBefore(a[1..], b);
    }
  }

  // ---------------------------------------------------------------- strings

  lemma SpelledLegal(ch: Char)
    requires LegalChar(ch)
    ensures Spelled(ch) != [] && LegalLetters(Spelled(ch))
    ensures ch.Unescaped? ==> LettersText(Spelled(ch)) == Utf8(ch.c)
  {
    if ch.Unescaped? {
      PlainsText(Utf8(ch.c));
    }
  }

  lemma {:induction false} PlainsText(bs: Bytes)
    ensures LettersText(Plains(bs)) == bs
    decreases bs
  {
    if bs != [] {
      assert Plains(bs)[1..] == Plains(bs[1..]);
      PlainsText(bs[1..]);
      assert bs == [bs[0]] + bs[1..];
    }
  }

  lemma EscapeIsAscii(l: Letter)
    requires LegalLetter(l) && !l.Plain?
    ensures AllAscii(LetterText(l))
  {
  }

  /** An encoded character in front of a text makes no difference. */
  lemma EncodedBefore(c: nat, b: Bytes)
    requires IsScalar(c)
    ensures WellFormed(Utf8(c) + b) <==> WellFormed(b)
  {
    hide Utf8, Decode, Utf8Char, WellFormed;
    var s := Utf8(c) + b;
    DecodeEncoded(c, b);
    DecodeIsGrammar(s);
    WellFormedFirst(s, |Utf8(c)|);
    assert s[|Utf8(c)|..] == b;
  }

  lemma {:induction false} SpelledIsWellFormed(chs: seq<Char>)
    requires LegalChars(chs)
    ensures LegalLetters(SpelledAll(chs)) && WellFormed(LettersText(SpelledAll(chs)))
    decreases chs
  {
    hide LegalLetter, LetterText, WellFormed, Utf8, LegalChar, Spelled, LettersText;
    if chs == [] {
      NothingIsWellFormed();
      NoLetters();
    } else {
      SpelledLegal(chs[0]);
      SpelledIsWellFormed(chs[1..]);
      LettersTextJoin(Spelled(chs[0]), SpelledAll(chs[1..]));
      SpelledBefore(chs[0], LettersText(SpelledAll(chs[1..])));
    }
  }

  lemma SpelledBefore(ch: Char, b: Bytes)
    requires LegalChar(ch)
    ensures WellFormed(LettersText(Spelled(ch)) + b) <==> WellFormed(b)
  {
    hide WellFormed, Utf8, LettersText;
    SpelledLegal(ch);
    match ch
    case Unescaped(c) => EncodedBefore(c, b);
    case Escape(e) => OneLetter(Short(e)); AsciiBefore(LetterText(Short(e)), b);
    case CodeEscape(hex) => OneLetter(Code(hex)); EscapeIsAscii(Code(hex)); AsciiBefore(LetterText(Code(hex)), b);
  }

  /** Bytes outside ASCII in a string are letters by themselves. */
  lemma {:induction false} HighBytes(ls: seq<Letter>, n: nat)
    requires LegalLetters(ls) && n <= |LettersText(ls)| && forall i :: 0 <= i < n ==> LettersText(ls)[i] >= 0x80
    ensures n <= |ls| && ls[..n] == Plains(LettersText(ls)[..n])
    decreases n
  {
    hide LettersText;
    if n > 0 {
      if ls == [] {
        NoLetters();
      }
      LettersTextStep(ls);
      var text, rest := LettersText(ls), LettersText(ls[1..]);
      assert text[0] == LetterText(ls[0])[0] && ls[0].Plain?;
      assert rest == text[1..];
      HighBytes(ls[1..], n - 1);
      assert ls[..n] == [ls[0]] + ls[1..][..n - 1];
      assert Plains(text[..n]) == [Plain(text[0])] + Plains(rest[..n - 1]);
    }
  }

  /** The first character of a string whose text is well-formed. */
  lemma FirstChar(ls: seq<Letter>) returns (ch: Char, n: nat)
    requires LegalLetters(ls) && ls != [] && WellFormed(LettersText(ls))
    ensures LegalChar(ch) && 1 <= n <= |ls| && Spelled(ch) == ls[..n]
  {
    hide WellFormed, LettersText, Utf8Char, Decode;
    LettersTextStep(ls);
    if !ls[0].Plain? {
      n := 1;
      ch := if ls[0].Short? then Escape(ls[0].e) else CodeEscape(ls[0].hex);
    } else {
      var text := LettersText(ls);
      StartsWithChar(text);
      n :| 1 <= n <= |text| && Utf8Char(text[..n]);
      CharBytes(text[..n]);
      DecodeFirst(text, n);
      EncodeDecoded(text);
      var c := Decode(text).codepoint;
      PlainRun(ls, n);
      ch := Unescaped(c);
      OrdinaryChar(c, ls[0].b);
    }
  }

  lemma OrdinaryChar(c: nat, b: Byte)
    requires IsScalar(c) && Utf8(c)[0] == b && b >= 0x20 && b != 0x22 && b != 0x5C
    ensures c >= 0x20 && c != 0x22 && c != 0x5C
  {
  }

  lemma PlainRun(ls: seq<Letter>, n: nat)
    requires LegalLetters(ls) && ls != [] && ls[0].Plain? && 1 <= n <= |LettersText(ls)|
    requires forall i :: 1 <= i < n ==> LettersText(ls)[i] >= 0x80
    ensures n <= |ls| && ls[..n] == Plains(LettersText(ls)[..n])
  {
    hide LettersText;
    LettersTextStep(ls);
    var text, rest := LettersText(ls), LettersText(ls[1..]);
    assert rest == text[1..];
    HighBytes(ls[1..], n - 1);
    assert ls[..n] == [ls[0]] + ls[1..][..n - 1];
    assert Plains(text[..n]) == [Plain(text[0])] + Plains(rest[..n - 1]);
  }

  lemma {:induction false} SpellOut(ls: seq<Letter>) returns (chs: seq<Char>)
    requires LegalLetters(ls) && WellFormed(LettersText(ls))
    ensures LegalChars(chs) && ls == SpelledAll(chs)
    decreases |ls|
  {
    hide WellFormed, LettersText, LegalChar, LegalLetter, Spelled;
    if ls == [] {
      chs := [];
    } else {
      var ch, n := FirstChar(ls);
      assert ls == ls[..n] + ls[n..];
      LettersTextJoin(ls[..n], ls[n..]);
      SpelledBefore(ch, LettersText(ls[n..]));
      var more := SpellOut(ls[n..]);
      chs := [ch] + more;
      assert chs[1..] == more;
    }
  }

  /** A string of the byte grammar spells a string of characters exactly when it is well-formed UTF-8. */
  lemma StringsAreCharacters(ls: seq<Letter>)
    requires LegalLetters(ls)
    ensures SpellsChars(ls) <==> WellFormed(LettersText(ls))
  {
    hide WellFormed, LettersText, LegalChars, SpelledAll, LegalLetters;
    if chs :| LegalChars(chs) && ls == SpelledAll(chs) {
      SpelledIsWellFormed(chs);
    }
    if WellFormed(LettersText(ls)) {
      var chs := SpellOut(ls);
    }
  }

  // ---------------------------------------------------------------- values

  /** Every string and name of a derivation spells characters: it is a derivation of the grammar over characters. */
  ghost predicate OverCharacters(d: Derivation)
    decreases d
  {
    match d
    case StringD(letters) => SpellsChars(letters)
    case ArrayD(_, items) => ItemsOverCharacters(items)
    case ObjectD(_, entries) => EntriesOverCharacters(entries)
    case _ => true
  }

  ghost predicate ItemsOverCharacters(items: seq<Item>)
    decreases items
  {
    items == [] || (ItemOverCharacters(items[0]) && ItemsOverCharacters(items[1..]))
  }

  ghost predicate ItemOverCharacters(i: Item)
    decreases i
  {
    OverCharacters(i.value)
  }

  ghost predicate EntriesOverCharacters(entries: seq<Entry>)
    decreases entries
  {
    entries == [] || (EntryOverCharacters(entries[0]) && EntriesOverCharacters(entries[1..]))
  }

  ghost predicate EntryOverCharacters(e: Entry)
    decreases e
  {
    SpellsChars(e.name) && OverCharacters(e.value)
  }

  lemma BlankIsAscii(blank: Bytes)
    requires WhiteSpace(blank)
    ensures AllAscii(blank)
  {
  }

  lemma NumIsAscii(n: Num)
    requires LegalNum(n)
    ensures AllAscii(NumText(n))
  {
    AsciiJoin(n.whole, FractionText(n.fraction) + ExponentText(n.exponent));
    assert AllAscii(FractionText(n.fraction)) && AllAscii(ExponentText(n.exponent));
  }

  lemma AsciiJoin(a: Bytes, b: Bytes)
    ensures AllAscii(a) && AllAscii(b) ==> AllAscii(a + b)
  {
  }

  lemma LiteralCut(ls: seq<Letter>)
    requires LegalLetters(ls)
    ensures WellFormed(StringLiteral(ls)) <==> SpellsChars(ls)
    ensures StartsAscii(StringLiteral(ls)) && StringLiteral(ls) != []
  {
    hide WellFormed, LettersText, LegalLetters, SpellsChars;
    StringsAreCharacters(ls);
    AsciiBefore([0x22], LettersText(ls) + [0x22]);
    Associate([0x22], LettersText(ls), [0x22]);
    Cut(LettersText(ls), [0x22]);
    AsciiIsWellFormed([0x22]);
  }

  /** The text of a derivation is well-formed UTF-8 exactly when its strings spell characters. */
  lemma {:induction false} ValueCut(d: Derivation)
    requires Legal(d)
    ensures WellFormed(DText(d)) <==> OverCharacters(d)
    decreases d, 3
  {
    hide WellFormed, NumText, StringLiteral, LegalNum, LegalLetters, SpellsChars, ItemsText, EntriesText, LegalItems,
         LegalEntries, WhiteSpace, ItemsOverCharacters, EntriesOverCharacters;
    match d
    case NullD => AsciiIsWellFormed(NULL_TEXT);
    case BoolD(b) => AsciiIsWellFormed(if b then TRUE_TEXT else FALSE_TEXT);
    case NumberD(n) => NumIsAscii(n); AsciiIsWellFormed(NumText(n));
    case StringD(letters) => LiteralCut(letters);
    case ArrayD(blank, items) =>
      if items == [] {
        EmptyArray(blank);
        EmptyCut(blank, 0x5B, 0x5D);
        NoParts();
      } else {
        FullArray(d);
        ItemsCut(items);
        ItemsUnfold(items);
        FirstBlank(items);
        OpenCut(0x5B, items[0].before, ItemsText(items));
      }
    case ObjectD(blank, entries) =>
      if entries == [] {
        EmptyObject(blank);
        EmptyCut(blank, 0x7B, 0x7D);
        NoParts();
      } else {
        FullObject(d);
        EntriesCut(entries);
        EntriesUnfold(entries);
        FirstEntryBlank(entries);
        OpenCut(0x7B, entries[0].before, EntriesText(entries));
      }
  }

  lemma NoParts()
    ensures ItemsOverCharacters([]) && EntriesOverCharacters([])
  {
  }

  lemma FirstBlank(items: seq<Item>)
    requires LegalItems(items) && items != []
    ensures WhiteSpace(items[0].before) && WhiteSpace(items[0].after) && Legal(items[0].value) && LegalItems(items[1..])
  {
    hide Legal, WhiteSpace;
    assert LegalItem(items[0]);
  }

  lemma FirstEntryBlank(entries: seq<Entry>)
    requires LegalEntries(entries) && entries != []
    ensures WhiteSpace(entries[0].before) && LegalEntry(entries[0]) && LegalEntries(entries[1..])
  {
    hide Legal, WhiteSpace, LegalLetters;
  }

  lemma EmptyCut(blank: Bytes, open: Byte, close: Byte)
    requires WhiteSpace(blank) && open < 0x80 && close < 0x80
    ensures WellFormed([open] + (blank + [close]))
  {
    hide WellFormed;
    BlankIsAscii(blank);
    AsciiIsWellFormed([open] + (blank + [close]));
  }

  lemma OpenCut(open: Byte, blank: Bytes, s: Bytes)
    requires WhiteSpace(blank) && open < 0x80
    ensures WellFormed([open] + (blank + s)) <==> WellFormed(s)
  {
    hide WellFormed, WhiteSpace;
    BlankIsAscii(blank);
    AsciiBefore([open], blank + s);
    AsciiBefore(blank, s);
  }

  /** A part followed by blanks and something that starts with an ASCII byte. */
  lemma PartCut(part: Bytes, blank: Bytes, s: Bytes)
    requires WhiteSpace(blank) && s != [] && s[0] < 0x80
    ensures WellFormed(part + (blank + s)) <==> WellFormed(part) && WellFormed(s)
  {
    hide WellFormed;
    BlankIsAscii(blank);
    AsciiBefore(blank, s);
    assert StartsAscii(blank + s);
    Cut(part, blank + s);
  }

  lemma {:induction false} ItemsCut(items: seq<Item>)
    requires LegalItems(items) && items != []
    ensures WellFormed(ItemsText(items)) <==> ItemsOverCharacters(items)
    decreases items, 2
  {
    hide WellFormed, DText, ItemsText, Legal, LegalItems, WhiteSpace, OverCharacters, ClosingText;
    FirstBlank(items);
    var i := items[0];
    ValueCut(i.value);
    TextOfItems(items);
    ClosingStarts(items, []);
    assert ClosingText(items) + [] == ClosingText(items);
    PartCut(DText(i.value), i.after, ClosingText(items));
    ClosingCut(items);
  }

  lemma {:induction false} ClosingCut(items: seq<Item>)
    requires LegalItems(items) && items != []
    ensures WellFormed(ClosingText(items)) <==> ItemsOverCharacters(items[1..])
    decreases items, 1
  {
    hide WellFormed, DText, ItemsText, Legal, LegalItems, WhiteSpace, ItemsOverCharacters;
    FirstBlank(items);
    if |items| == 1 {
      assert items[1..] == [];
      AsciiIsWellFormed([0x5D]);
      NoParts();
    } else {
      FirstBlank(items[1..]);
      ItemsCut(items[1..]);
      OpenCut(0x2C, items[1].before, ItemsText(items[1..]));
    }
  }

  lemma {:induction false} EntriesCut(entries: seq<Entry>)
    requires LegalEntries(entries) && entries != []
    ensures WellFormed(EntriesText(entries)) <==> EntriesOverCharacters(entries)
    decreases entries, 2
  {
    hide WellFormed, DText, EntriesText, Legal, LegalEntries, WhiteSpace, OverCharacters, ClosingEntries, StringLiteral,
         LegalLetters, SpellsChars, FromColon, FromValue;
    FirstEntryBlank(entries);
    var e := entries[0];
    LegalEntryParts(e);
    EntriesUnfold(entries);
    LiteralCut(e.name);
    ColonStarts(entries, []);
    assert FromColon(entries) + [] == FromColon(entries);
    PartCut(StringLiteral(e.name), e.beforeColon, FromColon(entries));
    TextFromColon(entries);
    OpenCut(0x3A, e.afterColon, FromValue(entries));
    ValueCut(e.value);
    EntryClosingStarts(entries, []);
    assert ClosingEntries(entries) + [] == ClosingEntries(entries);
    TextFromValue(entries);
    PartCut(DText(e.value), e.after, ClosingEntries(entries));
    ClosingEntriesCut(entries);
  }

  lemma TextFromColon(entries: seq<Entry>)
    requires entries != []
    ensures FromColon(entries) == [0x3A] + (entries[0].afterColon + FromValue(entries))
  {
    hide FromValue;
  }

  lemma TextFromValue(entries: seq<Entry>)
    requires entries != []
    ensures FromValue(entries) == DText(entries[0].value) + (entries[0].after + ClosingEntries(entries))
  {
    hide DText, ClosingEntries;
  }

  lemma {:induction false} ClosingEntriesCut(entries: seq<Entry>)
    requires LegalEntries(entries) && entries != []
    ensures WellFormed(ClosingEntries(entries)) <==> EntriesOverCharacters(entries[1..])
    decreases entries, 1
  {
    hide WellFormed, DText, EntriesText, Legal, LegalEntries, WhiteSpace, EntriesOverCharacters;
    FirstEntryBlank(entries);
    if |entries| == 1 {
      assert entries[1..] == [];
      AsciiIsWellFormed([0x7D]);
      NoParts();
    } else {
      FirstEntryBlank(entries[1..]);
      EntriesCut(entries[1..]);
      OpenCut(0x2C, entries[1].before, EntriesText(entries[1..]));
    }
  }

  // ---------------------------------------------------------------- documents

  lemma DocumentCut(before: Bytes, d: Derivation, after: Bytes, s: Bytes)
    requires Derives(before, d, after, s)
    ensures Legal(d) && (WellFormed(s) <==> OverCharacters(d))
  {
    hide WellFormed, DText, Legal, WhiteSpace, OverCharacters;
    BlankIsAscii(before);
    BlankIsAscii(after);
    AsciiBefore(before, DText(d) + after);
    assert StartsAscii(after) by {
      BlankIsAscii(after);
    }
    Cut(DText(d), after);
    AsciiIsWellFormed(after);
    ValueCut(d);
  }

  /** A JSON text of RFC 8259, up to its NUL, in which no literal is refused. */
  ghost predicate IsJson(s: Bytes) {
    exists k, before, d, after ::
      && 0 <= k <= |s| && Peek(s[k..]) == 0 && Derives(before, d, after, s[..k])
      && OverCharacters(d) && RefusalOf(d).Taken?
  }

  /**
    The JSON texts of RFC 8259 without a refused literal are exactly those the strict reader accepts and that are
    well-formed UTF-8 as far as they are read.
   */
  lemma JsonExactly(f: Flags, s: Bytes)
    requires Strict(f) && !f.stopWhenDone
    ensures IsJson(s) <==> DocumentAt(f, s).Good? && WellFormed(s[..|s| - |DocumentAt(f, s).rest|])
  {
    hide DocumentAt, DEvents, RefusalOf, Legal, WhiteSpace, DText, OverCharacters, WellFormed;
    if DocumentAt(f, s).Good? {
      var before, d, after := DocumentSound(f, s);
      var _, _, _ := DocumentSplit(f, s);
      var k := |s| - |DocumentAt(f, s).rest|;
      DocumentCut(before, d, after, s[..k]);
      assert s[k..] == DocumentAt(f, s).rest;
    }
    if IsJson(s) {
      var k, before, d, after :|
        && 0 <= k <= |s| && Peek(s[k..]) == 0 && Derives(before, d, after, s[..k])
        && OverCharacters(d) && RefusalOf(d).Taken?;
      assert s == s[..k] + s[k..];
      DocumentCut(before, d, after, s[..k]);
      DocumentComplete(f, before, d, after, s[..k], s[k..]);
    }
  }

  /** On well-formed UTF-8 the strict reader accepts exactly the JSON texts of RFC 8259 without a refused literal. */
  lemma Utf8Exactly(f: Flags, s: Bytes)
    requires Strict(f) && !f.stopWhenDone && WellFormed(s)
    ensures DocumentAt(f, s).Good? <==> IsJson(s)
  {
    hide DocumentAt, WellFormed, IsJson;
    JsonExactly(f, s);
    if DocumentAt(f, s).Good? {
      var _, _, _ := DocumentSplit(f, s);
      Cut(s[..|s| - |DocumentAt(f, s).rest|], DocumentAt(f, s).rest);
    }
  }

  /** The reader accepts the string of the single byte 0xFF, which is not UTF-8 and so no JSON text. */
  lemma UncheckedByte(f: Flags)
    requires Strict(f) && !f.stopWhenDone
    ensures DocumentAt(f, [0x22, 0xFF, 0x22]) == Good([StringE([0xFF])], []) && !IsJson([0x22, 0xFF, 0x22])
  {
    hide DocumentAt, WellFormed, IsJson, Utf8Char;
    var ls, s := [Plain(0xFF)], [0x22, 0xFF, 0x22];
    OneLetter(ls[0]);
    NoLetters();
    assert ls[1..] == [] && LettersBytes(ls) == [0xFF] + [];
    assert LettersText(ls) == [0xFF] && StringLiteral(ls) == s;
    assert [] + (DText(StringD(ls)) + []) == s && s + [] == s;
    DocumentComplete(f, [], StringD(ls), [], s, []);
    JsonExactly(f, s);
    LiteralCut(ls);
    StringsAreCharacters(ls);
    if WellFormed([0xFF]) {
      StartsWithChar([0xFF]);
      NoSuchChar();
    }
    assert s[..3] == s && |s| == 3;
    assert !WellFormed(s);
  }

  lemma NoSuchChar()
    ensures forall n :: 1 <= n <= |[0xFF]| ==> !Utf8Char([0xFF][..n])
  {
  }
}
