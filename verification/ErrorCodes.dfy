/**
  The errors of the reader, told by the text: where the grammar of RFC 8259 breaks off, and which code is raised there.
 */
module ErrorCodes {
  import opened Json
  import opened Numbers
  import opened ReaderSpec
  import opened RoundTrip
  import opened Grammar
  import opened GrammarTheorem

  // ---------------------------------------------------------------- texts that break off

  /**
    A value that is in order up to some place: a scalar that is none, or an array or object whose next element, name,
    colon, member value or comma is missing or broken. `rest` is the text from the place on.
   */
  datatype Broken =
    | BadScalar(rest: Bytes)
    | BadElement(items: seq<Item>, before: Bytes, value: Broken)
    | NoComma(items: seq<Item>, before: Bytes, last: Derivation, after: Bytes, rest: Bytes)
    | NoName(entries: seq<Entry>, before: Bytes, rest: Bytes)
    | NoColon(entries: seq<Entry>, before: Bytes, name: seq<Letter>, beforeColon: Bytes, rest: Bytes)
    | BadMember(entries: seq<Entry>, before: Bytes, name: seq<Letter>, beforeColon: Bytes, afterColon: Bytes, value: Broken)
    | NoMemberComma(entries: seq<Entry>, before: Bytes, name: seq<Letter>, beforeColon: Bytes, afterColon: Bytes,
                    last: Derivation, after: Bytes, rest: Bytes)

  /** Items, each followed by a comma, and what comes then. */
  function OpenItems(items: seq<Item>, tail: Bytes): Bytes {
    if items == [] then tail
    else
      items[0].before + (DText(items[0].value) + (items[0].after + ([0x2C] + OpenItems(items[1..], tail))))
  }

  function MemberStart(name: seq<Letter>, beforeColon: Bytes, tail: Bytes): Bytes {
    StringLiteral(name) + (beforeColon + tail)
  }

  function OpenEntries(entries: seq<Entry>, tail: Bytes): Bytes {
    if entries == [] then tail
    else
      var e := entries[0];
      e.before + MemberStart(e.name, e.beforeColon,
                             [0x3A] + (e.afterColon + (DText(e.value) + (e.after + ([0x2C] + OpenEntries(entries[1..], tail))))))
  }

  function BrokenText(b: Broken): Bytes
    decreases b
  {
    match b
    case BadScalar(rest) => rest
    case BadElement(items, before, value) => [0x5B] + OpenItems(items, before + BrokenText(value))
    case NoComma(items, before, last, after, rest) => [0x5B] + OpenItems(items, before + (DText(last) + (after + rest)))
    case NoName(entries, before, rest) => [0x7B] + OpenEntries(entries, before + rest)
    case NoColon(entries, before, name, beforeColon, rest) =>
      [0x7B] + OpenEntries(entries, before + MemberStart(name, beforeColon, rest))
    case BadMember(entries, before, name, beforeColon, afterColon, value) =>
      [0x7B] + OpenEntries(entries, before + MemberStart(name, beforeColon, [0x3A] + (afterColon + BrokenText(value))))
    case NoMemberComma(entries, before, name, beforeColon, afterColon, last, after, rest) =>
      [0x7B] + OpenEntries(entries, before + MemberStart(name, beforeColon,
                                                         [0x3A] + (afterColon + (DText(last) + (after + rest)))))
  }

  /** The text from a place on does not go on with white space or with these bytes. */
  predicate Stuck(rest: Bytes, a: Byte, b: Byte) {
    !IsBlank(Peek(rest)) && Peek(rest) != a && Peek(rest) != b
  }

  /** Values in order, and nothing refused before the place. */
  predicate LegalBroken(b: Broken)
    decreases b
  {
    match b
    case BadScalar(rest) =>
      Peek(rest) != 0x7B && Peek(rest) != 0x5B && !IsBlank(Peek(rest)) && ScalarAt(rest).Bad?
    case BadElement(items, before, value) =>
      && LegalItems(items) && ItemsRefusal(items).Taken? && WhiteSpace(before) && LegalBroken(value)
      && (items == [] && value.BadScalar? ==> Peek(value.rest) != 0x5D)
    case NoComma(items, before, last, after, rest) =>
      && LegalItems(items) && ItemsRefusal(items).Taken? && WhiteSpace(before) && WhiteSpace(after)
      && Legal(last) && RefusalOf(last).Taken? && Stuck(rest, 0x2C, 0x5D) && EndsNumber(after + rest)
    case NoName(entries, before, rest) =>
      && LegalEntries(entries) && EntriesRefusal(entries).Taken? && WhiteSpace(before)
      && Stuck(rest, 0x22, 0x22) && (entries == [] ==> Peek(rest) != 0x7D)
    case NoColon(entries, before, name, beforeColon, rest) =>
      && LegalEntries(entries) && EntriesRefusal(entries).Taken? && WhiteSpace(before) && WhiteSpace(beforeColon)
      && LegalLetters(name) && !Unpaired(name) && Stuck(rest, 0x3A, 0x3A)
    case BadMember(entries, before, name, beforeColon, afterColon, value) =>
      && LegalEntries(entries) && EntriesRefusal(entries).Taken? && WhiteSpace(before) && WhiteSpace(beforeColon)
      && LegalLetters(name) && !Unpaired(name) && WhiteSpace(afterColon) && LegalBroken(value)
    case NoMemberComma(entries, before, name, beforeColon, afterColon, last, after, rest) =>
      && LegalEntries(entries) && EntriesRefusal(entries).Taken? && WhiteSpace(before) && WhiteSpace(beforeColon)
      && LegalLetters(name) && !Unpaired(name) && WhiteSpace(afterColon) && WhiteSpace(after)
      && Legal(last) && RefusalOf(last).Taken? && Stuck(rest, 0x2C, 0x7D) && EndsNumber(after + rest)
  }

  /** The code raised, and how much text is left where it is reported. */
  function ErrorOf(b: Broken): (e: (ErrorCode, int))
    requires LegalBroken(b)
    decreases b
  {
    match b
    case BadScalar(rest) => (ScalarAt(rest).code, ScalarAt(rest).left)
    case BadElement(_, _, value) => ErrorOf(value)
    case NoComma(_, _, _, _, rest) => (ArrayMissCommaOrSquareBracket, |rest|)
    case NoName(_, _, rest) => (ObjectMissName, |rest|)
    case NoColon(_, _, _, _, rest) => (ObjectMissColon, |rest|)
    case BadMember(_, _, _, _, _, value) => ErrorOf(value)
    case NoMemberComma(_, _, _, _, _, _, _, rest) => (ObjectMissCommaOrCurlyBracket, |rest|)
  }

  // ---------------------------------------------------------------- the reader stops there

  predicate Fails(o: Outcome, e: (ErrorCode, int)) {
    o.Bad? && o.code == e.0 && o.left == e.1
  }

  lemma FailsLater(es: seq<Event>, o: Outcome, e: (ErrorCode, int))
    requires Fails(o, e)
    ensures Fails(Prepend(es, o), e)
  {
  }

  lemma TakenItems(items: seq<Item>)
    requires LegalItems(items) && items != [] && ItemsRefusal(items).Taken?
    ensures LegalItem(items[0]) && LegalItems(items[1..])
    ensures RefusalOf(items[0].value).Taken? && ItemsRefusal(items[1..]).Taken?
  {
    hide Legal, DText, DEvents, RefusalOf, ItemsRefusal;
    ItemsUnfold(items);
  }

  lemma TakenValue(f: Flags, d: Derivation, tail: Bytes)
    requires Strict(f) && Legal(d) && EndsNumber(tail) && RefusalOf(d).Taken?
    ensures ValueAt(f, DText(d) + tail).Good? && ValueAt(f, DText(d) + tail).rest == tail
    ensures !IsBlank(Peek(DText(d) + tail)) && Peek(DText(d) + tail) != 0x5D
  {
    hide ValueAt, DText, DEvents, RefusalOf, EndsNumber, Legal;
    ValueComplete(f, d, tail);
    DerivationStarts(d);
  }

  /** Where the elements begin after white space, the run fails as it does after the complete items. */
  lemma {:induction false} ItemsFail(f: Flags, items: seq<Item>, tail: Bytes, t: Bytes, count: nat, e: (ErrorCode, int))
      returns (start: Bytes)
    requires Strict(f) && LegalItems(items) && ItemsRefusal(items).Taken?
    requires Skip(f, tail) == Skipped(t) && Fails(AtElement(f, t, count + |items|), e)
    ensures Skip(f, OpenItems(items, tail)) == Skipped(start) && Fails(AtElement(f, start, count), e)
    ensures items == [] ==> start == t
    ensures items != [] ==> Peek(start) != 0x5D
    decreases items
  {
    hide ValueAt, Skip, AtElement, AtElementEnd, DText, Legal, LegalItems, ItemsRefusal, RefusalOf, WhiteSpace, EndsNumber,
         IsBlank;
    if items == [] {
      start := t;
    } else {
      TakenItems(items);
      var i := items[0];
      LegalParts(i);
      var more := OpenItems(items[1..], tail);
      var next := ItemsFail(f, items[1..], tail, t, count + 1, e);
      var comma := [0x2C] + more;
      CommaStarts(more);
      BlankThen(i.after, comma);
      start := DText(i.value) + (i.after + comma);
      TakenValue(f, i.value, i.after + comma);
      SkipTo(f, i.before, start);
      SkipTo(f, i.after, comma);
      ElementStep(f, start, count, comma);
      CommaThen(f, more, next, count);
      FailsLater(ValueAt(f, start).events, AtElementEnd(f, comma, count), e);
    }
  }

  lemma CommaStarts(more: Bytes)
    ensures Follows(Peek([0x2C] + more)) && !IsBlank(Peek([0x2C] + more))
  {
  }

  lemma ArrayFails(f: Flags, s: Bytes, t: Bytes, e: (ErrorCode, int))
    requires Skip(f, s) == Skipped(t) && Peek(t) != 0x5D && Fails(AtElement(f, t, 0), e)
    ensures Fails(ValueAt(f, [0x5B] + s), e)
  {
    hide ValueAt, Skip, AtElement;
    ArrayOpens(f, s, t);
    ItemsInitial(f, t);
  }

  lemma ObjectFails(f: Flags, s: Bytes, t: Bytes, e: (ErrorCode, int))
    requires Skip(f, s) == Skipped(t) && Peek(t) != 0x7D && Fails(AtKey(f, t, 0), e)
    ensures Fails(ValueAt(f, [0x7B] + s), e)
  {
    hide ValueAt, Skip, AtKey;
    ObjectOpens(f, s, t);
    EntriesInitial(f, t);
  }

  /** A complete name and the white space behind it. */
  lemma NamePassed(f: Flags, name: seq<Letter>, beforeColon: Bytes, tail: Bytes, count: nat)
    requires Strict(f) && LegalLetters(name) && !Unpaired(name) && WhiteSpace(beforeColon) && !IsBlank(Peek(tail))
    ensures var s := MemberStart(name, beforeColon, tail);
            && Peek(s) == 0x22 && !IsBlank(0x22)
            && AtKey(f, s, count) == Prepend([Key(LettersBytes(name))], AtKeyEnd(f, tail, count))
  {
    hide StringEventAt, Skip, AtKeyEnd, StringLiteral, LettersBytes, LegalLetters, Unpaired, WhiteSpace;
    QuotedComplete(name, true, beforeColon + tail);
    SkipTo(f, beforeColon, tail);
    KeyStep(f, MemberStart(name, beforeColon, tail), count, tail);
  }

  lemma NoColonFails(f: Flags, rest: Bytes, count: nat)
    requires Peek(rest) != 0x3A
    ensures Fails(AtKeyEnd(f, rest, count), (ObjectMissColon, |rest|))
  {
  }

  /** A complete name and colon: what follows decides. */
  lemma ColonPassed(f: Flags, afterColon: Bytes, tail: Bytes, count: nat)
    requires Strict(f) && WhiteSpace(afterColon) && !IsBlank(Peek(tail))
    ensures Peek([0x3A] + (afterColon + tail)) == 0x3A && !IsBlank(0x3A)
    ensures AtKeyEnd(f, [0x3A] + (afterColon + tail), count) == AtMemberValue(f, tail, count)
  {
    hide Skip, AtMemberValue, WhiteSpace, AtKeyEnd;
    DropHead([0x3A], afterColon + tail);
    SkipTo(f, afterColon, tail);
    ColonStep(f, [0x3A] + (afterColon + tail), count, tail);
  }

  lemma TakenEntries(entries: seq<Entry>)
    requires LegalEntries(entries) && entries != [] && EntriesRefusal(entries).Taken?
    ensures LegalEntry(entries[0]) && LegalEntries(entries[1..]) && LegalLetters(entries[0].name) && Legal(entries[0].value)
    ensures !Unpaired(entries[0].name) && RefusalOf(entries[0].value).Taken? && EntriesRefusal(entries[1..]).Taken?
  {
    hide Legal, DText, DEvents, RefusalOf, EntriesRefusal, LettersBytes, LegalLetters, StringLiteral;
    EntriesUnfold(entries);
    LegalEntryParts(entries[0]);
  }

  lemma {:induction false} EntriesFail(f: Flags, entries: seq<Entry>, tail: Bytes, t: Bytes, count: nat, e: (ErrorCode, int))
      returns (start: Bytes)
    requires Strict(f) && LegalEntries(entries) && EntriesRefusal(entries).Taken?
    requires Skip(f, tail) == Skipped(t) && Fails(AtKey(f, t, count + |entries|), e)
    ensures Skip(f, OpenEntries(entries, tail)) == Skipped(start) && Fails(AtKey(f, start, count), e)
    ensures entries == [] ==> start == t
    ensures entries != [] ==> Peek(start) != 0x7D
    decreases entries
  {
    hide ValueAt, Skip, AtKey, AtKeyEnd, AtMemberValue, AtMemberEnd, DText, Legal, LegalEntries, EntriesRefusal, RefusalOf,
         WhiteSpace, EndsNumber, LegalLetters, Unpaired, MemberStart, LettersBytes, IsBlank;
    if entries == [] {
      start := t;
    } else {
      TakenEntries(entries);
      var m := entries[0];
      LegalEntryParts(m);
      var more := OpenEntries(entries[1..], tail);
      var next := EntriesFail(f, entries[1..], tail, t, count + 1, e);
      var comma := [0x2C] + more;
      CommaStarts(more);
      BlankThen(m.after, comma);
      var value := DText(m.value) + (m.after + comma);
      TakenValue(f, m.value, m.after + comma);
      ColonPassed(f, m.afterColon, value, count);
      var colon := [0x3A] + (m.afterColon + value);
      start := MemberStart(m.name, m.beforeColon, colon);
      NamePassed(f, m.name, m.beforeColon, colon, count);
      SkipTo(f, m.before, start);
      SkipTo(f, m.after, comma);
      MemberStep(f, value, count, comma);
      CommaThen(f, more, next, count);
      FailsLater(ValueAt(f, value).events, AtMemberEnd(f, comma, count), e);
      FailsLater([Key(LettersBytes(m.name))], AtKeyEnd(f, colon, count), e);
    }
  }

  lemma ElementBad(f: Flags, s: Bytes, count: nat, e: (ErrorCode, int))
    requires Fails(ValueAt(f, s), e)
    ensures Fails(AtElement(f, s, count), e) && Fails(AtMemberValue(f, s, count), e)
  {
    hide ValueAt, Skip;
  }

  lemma NoCommaFails(f: Flags, rest: Bytes, count: nat)
    ensures Stuck(rest, 0x2C, 0x5D) ==> Fails(AtElementEnd(f, rest, count), (ArrayMissCommaOrSquareBracket, |rest|))
    ensures Stuck(rest, 0x2C, 0x7D) ==> Fails(AtMemberEnd(f, rest, count), (ObjectMissCommaOrCurlyBracket, |rest|))
    ensures Stuck(rest, 0x22, 0x22) ==> Fails(AtKey(f, rest, count), (ObjectMissName, |rest|))
  {
    hide Skip, AtElementDelimiter, AtMemberDelimiter, StringEventAt;
  }

  lemma BrokenStarts(b: Broken)
    requires LegalBroken(b)
    ensures !IsBlank(Peek(BrokenText(b)))
    ensures !b.BadScalar? ==> Peek(BrokenText(b)) == 0x5B || Peek(BrokenText(b)) == 0x7B
  {
    hide OpenItems, OpenEntries, ScalarAt, ItemsRefusal, EntriesRefusal, RefusalOf, LegalItems, LegalEntries, LegalLetters,
         Unpaired, EndsNumber, WhiteSpace, Legal;
  }

  lemma ScalarFails(f: Flags, rest: Bytes)
    requires Peek(rest) != 0x7B && Peek(rest) != 0x5B
    ensures ValueAt(f, rest) == ScalarAt(rest)
  {
    hide ScalarAt, Skip, AtArrayInitial, AtObjectInitial;
  }

  lemma {:induction false} ArrayBreaks(f: Flags, b: Broken)
    requires Strict(f) && LegalBroken(b) && (b.BadElement? || b.NoComma?)
    ensures Fails(ValueAt(f, BrokenText(b)), ErrorOf(b))
    decreases b, 0
  {
    hide ValueAt, Skip, AtElement, AtElementEnd, DText, Legal, LegalItems, ItemsRefusal, RefusalOf, WhiteSpace, EndsNumber,
         OpenItems, ScalarAt, IsBlank, Fails;
    var e, tail, t := ErrorOf(b), [], [];
    if b.BadElement? {
      t := BrokenText(b.value);
      tail := b.before + t;
      BrokenStarts(b.value);
      SkipTo(f, b.before, t);
      ValueBreaks(f, b.value);
      ElementBad(f, t, |b.items|, e);
    } else {
      t := DText(b.last) + (b.after + b.rest);
      tail := b.before + t;
      TakenValue(f, b.last, b.after + b.rest);
      SkipTo(f, b.before, t);
      SkipTo(f, b.after, b.rest);
      ElementStep(f, t, |b.items|, b.rest);
      NoCommaFails(f, b.rest, |b.items|);
      FailsLater(ValueAt(f, t).events, AtElementEnd(f, b.rest, |b.items|), e);
    }
    var start := ItemsFail(f, b.items, tail, t, 0, e);
    ArrayFails(f, OpenItems(b.items, tail), start, e);
  }

  lemma {:induction false} ObjectBreaks(f: Flags, b: Broken)
    requires Strict(f) && LegalBroken(b) && !b.BadScalar? && !b.BadElement? && !b.NoComma?
    ensures Fails(ValueAt(f, BrokenText(b)), ErrorOf(b))
    decreases b, 1
  {
    hide ValueAt, Skip, AtKey, AtKeyEnd, AtMemberValue, AtMemberEnd, DText, Legal, LegalEntries, EntriesRefusal, RefusalOf,
         WhiteSpace, EndsNumber, OpenEntries, ScalarAt, MemberStart, LegalLetters, Unpaired, LettersBytes, Fails, IsBlank;
    var e, tail, t, n := ErrorOf(b), [], [], |b.entries|;
    if b.NoName? {
      t := b.rest;
      NoCommaFails(f, b.rest, n);
    } else {
      var key := [Key(LettersBytes(b.name))];
      var after := MemberRestText(b);
      MemberBreaks(f, b, n);
      NamePassed(f, b.name, b.beforeColon, after, n);
      t := MemberStart(b.name, b.beforeColon, after);
      FailsLater(key, AtKeyEnd(f, after, n), e);
    }
    tail := b.before + t;
    SkipTo(f, b.before, t);
    var start := EntriesFail(f, b.entries, tail, t, 0, e);
    ObjectFails(f, OpenEntries(b.entries, tail), start, e);
  }

  /** The text from the colon of the broken member on, or from where the colon should be. */
  function MemberRestText(b: Broken): Bytes
    requires b.NoColon? || b.BadMember? || b.NoMemberComma?
  {
    match b
    case NoColon(_, _, _, _, rest) => rest
    case BadMember(_, _, _, _, afterColon, value) => [0x3A] + (afterColon + BrokenText(value))
    case NoMemberComma(_, _, _, _, afterColon, last, after, rest) => [0x3A] + (afterColon + (DText(last) + (after + rest)))
  }

  lemma {:induction false} MemberBreaks(f: Flags, b: Broken, n: nat)
    requires Strict(f) && LegalBroken(b) && (b.NoColon? || b.BadMember? || b.NoMemberComma?)
    ensures !IsBlank(Peek(MemberRestText(b))) && Fails(AtKeyEnd(f, MemberRestText(b), n), ErrorOf(b))
    decreases b, 0
  {
    hide ValueAt, Skip, AtKey, AtKeyEnd, AtMemberValue, AtMemberEnd, DText, Legal, LegalEntries, EntriesRefusal, RefusalOf,
         WhiteSpace, EndsNumber, OpenEntries, ScalarAt, MemberStart, LegalLetters, Unpaired, Fails, IsBlank;
    var e := ErrorOf(b);
    if b.NoColon? {
      NoColonFails(f, b.rest, n);
    } else if b.BadMember? {
      BrokenStarts(b.value);
      ValueBreaks(f, b.value);
      ElementBad(f, BrokenText(b.value), n, e);
      ColonPassed(f, b.afterColon, BrokenText(b.value), n);
    } else {
      var value := DText(b.last) + (b.after + b.rest);
      TakenValue(f, b.last, b.after + b.rest);
      SkipTo(f, b.after, b.rest);
      MemberStep(f, value, n, b.rest);
      NoCommaFails(f, b.rest, n);
      FailsLater(ValueAt(f, value).events, AtMemberEnd(f, b.rest, n), e);
      ColonPassed(f, b.afterColon, value, n);
    }
  }

  lemma {:induction false} ValueBreaks(f: Flags, b: Broken)
    requires Strict(f) && LegalBroken(b)
    ensures Fails(ValueAt(f, BrokenText(b)), ErrorOf(b))
    decreases b, 2
  {
    hide ValueAt, LegalBroken, ErrorOf, BrokenText;
    if b.BadScalar? {
      ScalarBreaks(f, b);
    } else if b.BadElement? || b.NoComma? {
      ArrayBreaks(f, b);
    } else {
      ObjectBreaks(f, b);
    }
  }

  lemma ScalarBreaks(f: Flags, b: Broken)
    requires LegalBroken(b) && b.BadScalar?
    ensures Fails(ValueAt(f, BrokenText(b)), ErrorOf(b))
  {
    hide ScalarAt, ValueAt;
    ScalarFails(f, b.rest);
  }

  // ---------------------------------------------------------------- scalars

  /** What starts no value. */
  lemma NotAValue(rest: Bytes)
    requires !StartsDerivation(Peek(rest))
    ensures Fails(ScalarAt(rest), (ValueInvalid, |rest|))
  {
    hide FractionAt, DoubleGuard, IntDigits, DecValue;
  }

  lemma {:induction false} MatchedPart(word: Bytes, k: nat, rest: Bytes)
    requires k < |word| && (rest == [] || rest[0] != word[k])
    ensures Matched(word[..k] + rest, word) == k
    decreases k
  {
    if k == 0 {
      assert word[..0] + rest == rest;
    } else {
      var s := word[..k] + rest;
      assert s[1..] == word[1..][..k - 1] + rest;
      MatchedPart(word[1..], k - 1, rest);
    }
  }

  /** null, true or false broken off after its first letter: at the first byte that differs. */
  lemma BrokenKeyword(word: Bytes, k: nat, rest: Bytes)
    requires word == NULL_TEXT || word == TRUE_TEXT || word == FALSE_TEXT
    requires 0 < k < |word| && (rest == [] || rest[0] != word[k])
    ensures Fails(ScalarAt(word[..k] + rest), (ValueInvalid, |rest|))
  {
    hide Matched, NumberAt, StringEventAt;
    MatchedPart(word, k, rest);
    assert (word[..k] + rest)[0] == word[0];
  }

  /** A minus sign without a digit. */
  lemma BareMinus(rest: Bytes)
    requires !IsDigit(Peek(rest))
    ensures Fails(ScalarAt([0x2D] + rest), (ValueInvalid, |rest|))
  {
    hide FractionAt, DoubleGuard, IntDigits, DecValue;
    DropHead([0x2D], rest);
  }

  /** An integer whose digits alone are not refused. */
  predicate PlainWhole(minus: bool, whole: Bytes) {
    && whole != [] && AllDigits(whole) && (whole[0] == 0x30 ==> |whole| == 1)
    && !(ExceedsInteger(minus, DecValue(whole)) && DecValue(whole) / 10 >= DoubleGuard())
  }

  /** What the reader makes of an integer and whatever follows that is no digit. */
  lemma WholeThen(minus: bool, whole: Bytes, more: Bytes, code: ErrorCode, left: int)
    requires PlainWhole(minus, whole) && !IsDigit(Peek(more))
    requires var s := SignText(minus) + (whole + more);
             FractionAt(ExceedsInteger(minus, DecValue(whole)), DecValue(whole), |whole|, more, |s|)
             == TailError(code, left)
    ensures Fails(ScalarAt(SignText(minus) + (whole + more)), (code, left))
  {
    hide FractionAt, DecValue, DoubleGuard, IntDigits, NumberAt, AllDigits, ExceedsInteger, StringEventAt, KeywordAt;
    var s, body := SignText(minus) + (whole + more), whole + more;
    WholeRun(whole, more);
    DropHead(whole, more);
    if minus {
      DropHead([0x2D], body);
    } else {
      assert SignText(false) + body == body;
    }
    NumberMeans(s, minus, body);
  }

  /** A decimal point without a digit behind it. */
  lemma NoFractionDigits(minus: bool, whole: Bytes, rest: Bytes)
    requires PlainWhole(minus, whole) && !IsDigit(Peek(rest))
    ensures Fails(ScalarAt(SignText(minus) + (whole + ([0x2E] + rest))), (NumberMissFraction, |rest|))
  {
    hide ScalarAt, PlainWhole, ExceedsInteger, DecValue, SignText, ExponentAt, CountedFraction;
    assert whole != [] by { WholeIsSome(minus, whole); }
    DropHead([0x2E], rest);
    assert AllDigits(whole) by { WholeIsSome(minus, whole); }
    WholeThen(minus, whole, [0x2E] + rest, NumberMissFraction, |rest|);
  }

  lemma WholeIsSome(minus: bool, whole: Bytes)
    requires PlainWhole(minus, whole)
    ensures whole != [] && AllDigits(whole)
  {
  }

  /** An exponent without a digit, behind an integer. */
  lemma NoExponentDigits(minus: bool, whole: Bytes, e: Byte, sign: Bytes, rest: Bytes)
    requires PlainWhole(minus, whole) && (e == 0x65 || e == 0x45) && (sign == [] || sign == [0x2B] || sign == [0x2D])
    requires !IsDigit(Peek(rest)) && (sign == [] ==> Peek(rest) != 0x2B && Peek(rest) != 0x2D)
    ensures Fails(ScalarAt(SignText(minus) + (whole + ([e] + (sign + rest)))), (NumberMissExponent, |rest|))
  {
    hide ScalarAt, PlainWhole, ExceedsInteger, DecValue, SignText, CountedFraction;
    WholeIsSome(minus, whole);
    DropHead([e], sign + rest);
    DropHead(sign, rest);
    assert sign == [] ==> sign + rest == rest;
    WholeThen(minus, whole, [e] + (sign + rest), NumberMissExponent, |rest|);
  }

  /** A string in order up to some place: what stands there decides. */
  lemma {:induction false} StringBreaks(ls: seq<Letter>, rest: Bytes)
    requires LegalLetters(ls) && !Unpaired(ls) && UnitAt(rest).UnitError?
    ensures StringAt(LettersText(ls) + rest) == StringError(UnitAt(rest).code, UnitAt(rest).left)
    decreases ls
  {
    hide UnitAt, LegalLetter, LetterText, LetterBytes, PairBytes, LeadLetter, TrailLetter;
    if ls == [] {
      assert LettersText(ls) + rest == rest;
    } else if PairFirst(ls) {
      LettersTextStep(ls);
      var after := LettersText(ls[2..]) + rest;
      Associate(LetterText(ls[0]), LetterText(ls[1]) + LettersText(ls[2..]), rest);
      Associate(LetterText(ls[1]), LettersText(ls[2..]), rest);
      CoupleComplete(ls[0], ls[1], after);
      StringBreaks(ls[2..], rest);
    } else {
      var after := LettersText(ls[1..]) + rest;
      Associate(LetterText(ls[0]), LettersText(ls[1..]), rest);
      LetterComplete(ls[0], after);
      StringBreaks(ls[1..], rest);
    }
  }

  lemma StringFails(ls: seq<Letter>, rest: Bytes)
    requires LegalLetters(ls) && !Unpaired(ls) && UnitAt(rest).UnitError?
    ensures Fails(ScalarAt([0x22] + (LettersText(ls) + rest)), (UnitAt(rest).code, UnitAt(rest).left))
  {
    hide UnitAt, LettersText, LegalLetters, Unpaired, NumberAt, KeywordAt;
    StringBreaks(ls, rest);
    DropHead([0x22], LettersText(ls) + rest);
  }

  /** The places where a string breaks off, all reported where they are. */
  lemma BrokenString(ls: seq<Letter>, rest: Bytes)
    requires LegalLetters(ls) && !Unpaired(ls)
    ensures var s := [0x22] + (LettersText(ls) + rest);
            // The end of the text, or a NUL, before the closing quote.
            && (Peek(rest) == 0 ==> Fails(ScalarAt(s), (StringMissQuotationMark, |rest|)))
            // A control character.
            && (0 < Peek(rest) < 0x20 ==> Fails(ScalarAt(s), (StringEscapeInvalid, |rest|)))
            // A backslash before anything but a letter of the grammar.
            && (Peek(rest) == 0x5C && !LegalLetter(Short(Peek(rest[1..]))) && Peek(rest[1..]) != 0x75 ==>
                  Fails(ScalarAt(s), (StringEscapeInvalid, |rest|)))
            // Fewer than four hexadecimal digits.
            && (Peek(rest) == 0x5C && Peek(rest[1..]) == 0x75 && !HasHex4(rest[2..]) ==>
                  Fails(ScalarAt(s), (StringUnicodeEscapeInvalidHex, |rest|)))
            // A leading surrogate, and then an escape without four hexadecimal digits.
            && (|rest| >= 8 && rest[0] == 0x5C && rest[1] == 0x75 && HasHex4(rest[2..]) && IsLead(Hex4(rest[2..]))
                && rest[6] == 0x5C && rest[7] == 0x75 && !HasHex4(rest[8..]) ==>
                  Fails(ScalarAt(s), (StringUnicodeEscapeInvalidHex, |rest|)))
  {
    hide LettersText, LegalLetters, Unpaired, ScalarAt;
    UnitErrors(rest);
    hide UnitAt;
    if UnitAt(rest).UnitError? {
      StringFails(ls, rest);
    }
  }

  lemma UnitErrors(rest: Bytes)
    ensures Peek(rest) == 0 ==> UnitAt(rest) == UnitError(StringMissQuotationMark, |rest|)
    ensures 0 < Peek(rest) < 0x20 ==> UnitAt(rest) == UnitError(StringEscapeInvalid, |rest|)
    ensures Peek(rest) == 0x5C && !LegalLetter(Short(Peek(rest[1..]))) && Peek(rest[1..]) != 0x75 ==>
              UnitAt(rest) == UnitError(StringEscapeInvalid, |rest|)
    ensures Peek(rest) == 0x5C && Peek(rest[1..]) == 0x75 && !HasHex4(rest[2..]) ==>
              UnitAt(rest) == UnitError(StringUnicodeEscapeInvalidHex, |rest|)
    ensures |rest| >= 8 && rest[0] == 0x5C && rest[1] == 0x75 && HasHex4(rest[2..]) && IsLead(Hex4(rest[2..]))
            && rest[6] == 0x5C && rest[7] == 0x75 && !HasHex4(rest[8..]) ==>
              UnitAt(rest) == UnitError(StringUnicodeEscapeInvalidHex, |rest|)
  {
    hide Hex4, HasHex4, Utf8;
    if |rest| >= 8 {
      assert rest[6..][1..] == rest[7..] && rest[6..][2..] == rest[8..] && Peek(rest[6..]) == rest[6];
      assert Peek(rest[7..]) == rest[7] && Peek(rest[1..]) == rest[1];
    }
  }

  // ---------------------------------------------------------------- documents

  /** A document whose value breaks off is refused there, with the code of the place. */
  lemma DocumentBreaks(f: Flags, before: Bytes, b: Broken)
    requires Strict(f) && WhiteSpace(before) && LegalBroken(b) && Peek(BrokenText(b)) != 0
    ensures Fails(DocumentAt(f, before + BrokenText(b)), ErrorOf(b))
  {
    hide ValueAt, Skip, LegalBroken, ErrorOf, BrokenText, WhiteSpace, IsBlank;
    BrokenStarts(b);
    SkipTo(f, before, BrokenText(b));
    ValueBreaks(f, b);
  }

  /** White space alone is an empty document. */
  lemma EmptyDocument(f: Flags, before: Bytes, tail: Bytes)
    requires Strict(f) && WhiteSpace(before) && Peek(tail) == 0
    ensures Fails(DocumentAt(f, before + tail), (DocumentEmpty, |tail|))
  {
    hide ValueAt, Skip, WhiteSpace;
    SkipTo(f, before, tail);
  }

  /** After a complete document nothing but white space may follow. */
  lemma SecondRoot(f: Flags, before: Bytes, d: Derivation, after: Bytes, rest: Bytes)
    requires Strict(f) && !f.stopWhenDone && WhiteSpace(before) && WhiteSpace(after) && Legal(d) && RefusalOf(d).Taken?
    requires !IsBlank(Peek(rest)) && Peek(rest) != 0 && EndsNumber(after + rest)
    ensures Fails(DocumentAt(f, before + (DText(d) + (after + rest))), (DocumentRootNotSingular, |rest|))
  {
    hide ValueAt, Skip, WhiteSpace, DText, Legal, RefusalOf, EndsNumber, IsBlank;
    TakenValue(f, d, after + rest);
    DerivationStarts(d);
    SkipTo(f, before, DText(d) + (after + rest));
    SkipTo(f, after, rest);
  }
}
