/**
  Values and documents of the grammar of RFC 8259, read on bytes: the reader accepts exactly the texts that have a
  derivation in which no literal is refused, and delivers the meaning of the derivation. A literal is refused when it
  is a number of too large a magnitude or a string with an unpaired leading surrogate; the first one is the error.
 */
module GrammarTheorem {
  import opened Json
  import opened Numbers
  import opened ReaderSpec
  import opened RoundTrip
  import opened Grammar

  // ---------------------------------------------------------------- derivations (sections 2 to 5)

  datatype Derivation =
    | NullD
    | BoolD(b: bool)
    | NumberD(n: Num)
    | StringD(letters: seq<Letter>)
    | ArrayD(blank: Bytes, items: seq<Item>)
    | ObjectD(blank: Bytes, entries: seq<Entry>)

  /** A value with the white space around it. */
  datatype Item = Item(before: Bytes, value: Derivation, after: Bytes)

  datatype Entry =
    Entry(before: Bytes, name: seq<Letter>, beforeColon: Bytes, afterColon: Bytes, value: Derivation, after: Bytes)

  predicate Legal(d: Derivation)
    decreases d
  {
    match d
    case NullD => true
    case BoolD(_) => true
    case NumberD(n) => LegalNum(n)
    case StringD(letters) => LegalLetters(letters)
    case ArrayD(blank, items) =>
      WhiteSpace(blank) && LegalItems(items)
    case ObjectD(blank, entries) =>
      WhiteSpace(blank) && LegalEntries(entries)
  }

  predicate LegalItems(items: seq<Item>)
    decreases items
  {
    items == [] || (LegalItem(items[0]) && LegalItems(items[1..]))
  }

  predicate LegalEntries(entries: seq<Entry>)
    decreases entries
  {
    entries == [] || (LegalEntry(entries[0]) && LegalEntries(entries[1..]))
  }

  predicate LegalItem(i: Item)
    decreases i
  {
    WhiteSpace(i.before) && WhiteSpace(i.after) && Legal(i.value)
  }

  predicate LegalEntry(e: Entry)
    decreases e
  {
    && WhiteSpace(e.before) && WhiteSpace(e.beforeColon) && WhiteSpace(e.afterColon) && WhiteSpace(e.after)
    && LegalLetters(e.name) && Legal(e.value)
  }

  /** The text a derivation derives. */
  function DText(d: Derivation): Bytes
    decreases d
  {
    match d
    case NullD => [0x6E, 0x75, 0x6C, 0x6C]
    case BoolD(b) => if b then [0x74, 0x72, 0x75, 0x65] else [0x66, 0x61, 0x6C, 0x73, 0x65]
    case NumberD(n) => NumText(n)
    case StringD(letters) => StringLiteral(letters)
    case ArrayD(blank, items) => [0x5B] + if items == [] then blank + [0x5D] else items[0].before + ItemsText(items)
    case ObjectD(blank, entries) =>
      [0x7B] + if entries == [] then blank + [0x7D] else entries[0].before + EntriesText(entries)
  }

  /** The items after the white space before the first, up to and including the bracket. */
  function ItemsText(items: seq<Item>): Bytes
    requires items != []
    decreases items
  {
    DText(items[0].value) + (items[0].after
      + if |items| == 1 then [0x5D] else [0x2C] + (items[1].before + ItemsText(items[1..])))
  }

  function EntriesText(entries: seq<Entry>): Bytes
    requires entries != []
    decreases entries
  {
    var e := entries[0];
    StringLiteral(e.name) + (e.beforeColon + ([0x3A] + (e.afterColon + (DText(e.value) + (e.after
      + if |entries| == 1 then [0x7D] else [0x2C] + (entries[1].before + EntriesText(entries[1..])))))))
  }

  /** What a derivation means: the events it stands for. */
  function DEvents(d: Derivation): seq<Event>
    requires Legal(d)
    decreases d
  {
    match d
    case NullD => [NullE]
    case BoolD(b) => [BoolE(b)]
    case NumberD(n) => [NumEvent(n)]
    case StringD(letters) => [StringE(LettersBytes(letters))]
    case ArrayD(_, items) => [StartArray] + (ItemsEvents(items) + [EndArray(|items|)])
    case ObjectD(_, entries) => [StartObject] + (EntriesEvents(entries) + [EndObject(|entries|)])
  }

  function ItemsEvents(items: seq<Item>): seq<Event>
    requires LegalItems(items)
    decreases items
  {
    if items == [] then []
    else
      assert LegalItem(items[0]) && Legal(items[0].value);
      DEvents(items[0].value) + ItemsEvents(items[1..])
  }

  function EntriesEvents(entries: seq<Entry>): seq<Event>
    requires LegalEntries(entries)
    decreases entries
  {
    if entries == [] then []
    else
      assert LegalEntry(entries[0]) && Legal(entries[0].value);
      [Key(LettersBytes(entries[0].name))] + (DEvents(entries[0].value) + EntriesEvents(entries[1..]))
  }

  /**
    The first refused literal of a derivation: the events delivered before it, the error, and how much of the
    derivation's text is left where the error is reported.
   */
  datatype Refusal = Taken | Refusal(before: seq<Event>, code: ErrorCode, left: nat)

  /** The same, after other events. */
  function Onto(es: seq<Event>, r: Refusal): Refusal {
    if r.Taken? then r else r.(before := es + r.before)
  }

  /** A part with these events, followed by `more` bytes, and then what comes after it. */
  function Then(es: seq<Event>, first: Refusal, more: nat, others: Refusal): Refusal {
    if first.Taken? then Onto(es, others) else first.(left := first.left + more)
  }

  function StringRefusal(ls: seq<Letter>): Refusal {
    if Unpaired(ls) then Refusal([], StringUnicodeSurrogateInvalid, LeftUnpaired(ls, [])) else Taken
  }

  function NumberRefusal(n: Num): Refusal
    requires LegalNum(n)
  {
    if Refused(n) then Refusal([], NumberTooBig, |NumText(n)|) else Taken
  }

  function RefusalOf(d: Derivation): Refusal
    requires Legal(d)
    decreases d
  {
    match d
    case NumberD(n) => NumberRefusal(n)
    case StringD(letters) => StringRefusal(letters)
    case ArrayD(_, items) => Onto([StartArray], ItemsRefusal(items))
    case ObjectD(_, entries) => Onto([StartObject], EntriesRefusal(entries))
    case _ => Taken
  }

  function ItemsRefusal(items: seq<Item>): Refusal
    requires LegalItems(items)
    decreases items
  {
    if items == [] then Taken
    else
      assert LegalItem(items[0]) && Legal(items[0].value);
      Then(DEvents(items[0].value), RefusalOf(items[0].value), |items[0].after + ClosingText(items)|,
           ItemsRefusal(items[1..]))
  }

  function EntriesRefusal(entries: seq<Entry>): Refusal
    requires LegalEntries(entries)
    decreases entries
  {
    if entries == [] then Taken
    else
      assert LegalEntry(entries[0]) && Legal(entries[0].value);
      var e := entries[0];
      Then([Key(LettersBytes(e.name))], StringRefusal(e.name), |e.beforeColon + FromColon(entries)|,
           Then(DEvents(e.value), RefusalOf(e.value), |e.after + ClosingEntries(entries)|, EntriesRefusal(entries[1..])))
  }

  // ---------------------------------------------------------------- soundness

  /** The flags of strict JSON. */
  predicate Strict(f: Flags) {
    !f.comments && !f.trailingCommas
  }

  lemma {:induction false} BlankSplit(s: Bytes) returns (b: Bytes)
    ensures WhiteSpace(b) && s == b + SkipBlanks(s)
    decreases s
  {
    if s != [] && IsBlank(s[0]) {
      var c := BlankSplit(s[1..]);
      b := [s[0]] + c;
      HeadTail(s);
      Associate([s[0]], c, SkipBlanks(s));
    } else {
      b := [];
      assert [] + s == s;
    }
  }

  lemma EventsAssociate(a: seq<Event>, b: seq<Event>, c: seq<Event>)
    ensures a + b + c == a + (b + c)
  {
  }

  lemma KeywordSound(s: Bytes, word: Bytes, event: Event)
    requires word != [] && KeywordAt(s, word, event).Good?
    ensures s == word + KeywordAt(s, word, event).rest && KeywordAt(s, word, event).events == [event]
  {
    MatchedAll(s, word);
  }

  lemma {:induction false} MatchedAll(s: Bytes, word: Bytes)
    requires Matched(s, word) == |word|
    ensures |word| <= |s| && s[..|word|] == word && s == word + s[|word|..]
    decreases word
  {
    if word != [] {
      MatchedAll(s[1..], word[1..]);
      HeadTail(s);
      HeadTail(word);
      assert s[..|word|] == [s[0]] + s[1..][..|word| - 1];
    }
  }

  lemma QuotedSound(s: Bytes, isKey: bool) returns (ls: seq<Letter>)
    requires Peek(s) == 0x22 && StringEventAt(s, isKey).Good?
    ensures LegalLetters(ls) && s == StringLiteral(ls) + StringEventAt(s, isKey).rest
    ensures StringEventAt(s, isKey).events == [if isKey then Key(LettersBytes(ls)) else StringE(LettersBytes(ls))]
  {
    hide StringAt, LettersText, LettersBytes, LegalLetters;
    HeadTail(s);
    ls := StringSound(s[1..]);
    var rest := StringAt(s[1..]).rest;
    Associate([0x22], LettersText(ls) + [0x22], rest);
    Associate([0x22], LettersText(ls), [0x22]);
  }

  lemma ScalarSound(s: Bytes) returns (d: Derivation)
    requires ScalarAt(s).Good?
    ensures Legal(d) && s == DText(d) + ScalarAt(s).rest && ScalarAt(s).events == DEvents(d)
  {
    hide NumberAt, StringEventAt, KeywordAt, LegalNum, LegalLetters, LettersBytes, NumEvent, NumText, StringLiteral;
    if Peek(s) == 0x6E {
      KeywordSound(s, NULL_TEXT, NullE);
      d := NullD;
    } else if Peek(s) == 0x74 {
      KeywordSound(s, TRUE_TEXT, BoolE(true));
      d := BoolD(true);
    } else if Peek(s) == 0x66 {
      KeywordSound(s, FALSE_TEXT, BoolE(false));
      d := BoolD(false);
    } else if Peek(s) == 0x22 {
      var ls := QuotedSound(s, false);
      d := StringD(ls);
    } else {
      var n := NumberSound(s);
      d := NumberD(n);
    }
  }

  lemma SkipStrict(f: Flags, s: Bytes)
    requires Strict(f)
    ensures Skip(f, s) == Skipped(SkipBlanks(s))
  {
  }

  /** Every value the reader takes has a derivation, whose meaning is what was delivered. */
  lemma {:induction false} ValueSound(f: Flags, s: Bytes) returns (d: Derivation)
    requires Strict(f) && ValueAt(f, s).Good?
    ensures Legal(d) && s == DText(d) + ValueAt(f, s).rest && ValueAt(f, s).events == DEvents(d)
    decreases |s|, 0
  {
    hide ScalarAt, AtArrayInitial, AtObjectInitial, SkipBlanks, Skip;
    if Peek(s) == 0x7B {
      HeadTail(s);
      SkipStrict(f, s[1..]);
      d := ObjectSound(f, s[1..]);
    } else if Peek(s) == 0x5B {
      HeadTail(s);
      SkipStrict(f, s[1..]);
      d := ArraySound(f, s[1..]);
    } else {
      d := ScalarSound(s);
    }
  }

  /** After the opening bracket. */
  lemma {:induction false} ArraySound(f: Flags, s: Bytes) returns (d: Derivation)
    requires Strict(f) && AtArrayInitial(f, SkipBlanks(s)).Good?
    ensures Legal(d) && [0x5B] + s == DText(d) + AtArrayInitial(f, SkipBlanks(s)).rest
    ensures [StartArray] + AtArrayInitial(f, SkipBlanks(s)).events == DEvents(d)
    decreases |s|, 3
  {
    hide AtElement, SkipBlanks, WhiteSpace, DText, ItemsText, ItemsEvents, ItemsRefusal;
    var t := SkipBlanks(s);
    var b := BlankSplit(s);
    var rest := AtArrayInitial(f, t).rest;
    if Peek(t) == 0x5D {
      d := ArrayD(b, []);
      EmptyArray(b);
      HeadTail(t);
      Associate(b, [0x5D], rest);
      Associate([0x5B], b + [0x5D], rest);
    } else {
      var found := ElementsSound(f, t, 0);
      ItemsBefore(found, b);
      var items := found[0 := found[0].(before := b)];
      d := ArrayD(b, items);
      FullArray(d);
      Associate(b, ItemsText(items), rest);
      Associate([0x5B], b + ItemsText(items), rest);
    }
  }

  lemma EmptyArray(b: Bytes)
    ensures DText(ArrayD(b, [])) == [0x5B] + (b + [0x5D])
    ensures WhiteSpace(b) ==> DEvents(ArrayD(b, [])) == [StartArray] + [EndArray(0)]
                              && RefusalOf(ArrayD(b, [])) == Taken
  {
  }

  lemma FullArray(d: Derivation)
    requires d.ArrayD? && d.items != []
    ensures DText(d) == [0x5B] + (d.items[0].before + ItemsText(d.items))
    ensures Legal(d) ==> DEvents(d) == [StartArray] + (ItemsEvents(d.items) + [EndArray(|d.items|)])
    ensures Legal(d) ==> RefusalOf(d) == Onto([StartArray], ItemsRefusal(d.items))
  {
  }

  /** The white space before the first item is not part of the items' text or meaning. */
  lemma ItemsBefore(items: seq<Item>, before: Bytes)
    requires items != [] && WhiteSpace(before)
    ensures var others := items[0 := items[0].(before := before)];
            && ItemsText(others) == ItemsText(items)
            && (LegalItems(items) ==> LegalItems(others) && ItemsEvents(others) == ItemsEvents(items))
  {
    hide Legal, WhiteSpace, DText, DEvents, LegalItems, ItemsEvents, RefusalOf, ItemsRefusal;
    var others := items[0 := items[0].(before := before)];
    assert others[1..] == items[1..];
    ItemsUnfold(items);
    ItemsUnfold(others);
    assert LegalItem(items[0]) ==> LegalItem(others[0]);
  }

  lemma ItemsUnfold(items: seq<Item>)
    requires items != []
    ensures ItemsText(items)
         == DText(items[0].value) + (items[0].after
              + if |items| == 1 then [0x5D] else [0x2C] + (items[1].before + ItemsText(items[1..])))
    ensures LegalItems(items) <==> LegalItem(items[0]) && LegalItems(items[1..])
    ensures LegalItems(items) ==> ItemsEvents(items) == DEvents(items[0].value) + ItemsEvents(items[1..])
    ensures LegalItems(items) ==>
              ItemsRefusal(items) == Then(DEvents(items[0].value), RefusalOf(items[0].value),
                                          |items[0].after + ClosingText(items)|, ItemsRefusal(items[1..]))
    ensures ItemsEvents([]) == []
  {
    hide Legal, DText, DEvents, RefusalOf;
  }

  /** The elements of an array, from the first byte of one of them. */
  lemma {:induction false} ElementsSound(f: Flags, s: Bytes, count: nat) returns (items: seq<Item>)
    requires Strict(f) && AtElement(f, s, count).Good?
    ensures items != [] && LegalItems(items) && s == ItemsText(items) + AtElement(f, s, count).rest
    ensures AtElement(f, s, count).events == ItemsEvents(items) + [EndArray(count + |items|)]
    decreases |s|, 1
  {
    hide ValueAt, SkipBlanks, Skip, WhiteSpace, DText, DEvents, Legal, ItemsText, ItemsEvents, LegalItems, AtElementEnd,
         RefusalOf, ItemsRefusal;
    var d := ValueSound(f, s);
    var r := ValueAt(f, s).rest;
    SkipStrict(f, r);
    var t := SkipBlanks(r);
    var after := BlankSplit(r);
    ElementStep(f, s, count, t);
    var more := ElementEndSound(f, t, count, d, after);
    items := more;
    var rest := AtElementEnd(f, t, count).rest;
    ItemsUnfold(items);
    var close := ClosingText(items);
    Associate(DText(d), after + close, rest);
    Associate(after, close, rest);
    EventsAssociate(DEvents(d), ItemsEvents(items[1..]), [EndArray(count + |items|)]);
  }

  function ClosingText(items: seq<Item>): Bytes
    requires items != []
  {
    if |items| == 1 then [0x5D] else [0x2C] + (items[1].before + ItemsText(items[1..]))
  }

  lemma ElementStep(f: Flags, s: Bytes, count: nat, t: Bytes)
    requires ValueAt(f, s).Good? && Skip(f, ValueAt(f, s).rest) == Skipped(t)
    ensures AtElement(f, s, count) == Prepend(ValueAt(f, s).events, AtElementEnd(f, t, count))
  {
    hide ValueAt, Skip, AtElementEnd;
  }

  /** After an element: the bracket, or a comma and more elements. */
  lemma {:induction false} ElementEndSound(f: Flags, t: Bytes, count: nat, d: Derivation, after: Bytes)
      returns (items: seq<Item>)
    requires Strict(f) && AtElementEnd(f, t, count).Good? && Legal(d) && WhiteSpace(after)
    ensures items != [] && LegalItems(items) && items[0] == Item([], d, after)
    ensures t == ClosingText(items) + AtElementEnd(f, t, count).rest
    ensures AtElementEnd(f, t, count).events == ItemsEvents(items[1..]) + [EndArray(count + |items|)]
    decreases |t|, 3
  {
    hide AtElement, SkipBlanks, Skip, WhiteSpace, DText, DEvents, Legal, ItemsText, ItemsEvents, LegalItems, RefusalOf,
         ItemsRefusal;
    HeadTail(t);
    NoBlank();
    if Peek(t) == 0x5D {
      items := [Item([], d, after)];
      ItemsUnfold(items);
      NoItems();
      assert items[1..] == [];
      assert [] + [EndArray(count + 1)] == [EndArray(count + 1)];
    } else {
      SkipStrict(f, t[1..]);
      var u := SkipBlanks(t[1..]);
      var before := BlankSplit(t[1..]);
      var found := ElementsSound(f, u, count + 1);
      ItemsBefore(found, before);
      var more := found[0 := found[0].(before := before)];
      items := [Item([], d, after)] + more;
      assert items[1..] == more && items[1] == more[0];
      ItemsUnfold(items);
      var rest := AtElement(f, u, count + 1).rest;
      Associate(before, ItemsText(more), rest);
      Associate([0x2C], before + ItemsText(more), rest);
    }
  }

  lemma NoBlank()
    ensures WhiteSpace([])
  {
  }

  lemma NoItems()
    ensures LegalItems([]) && ItemsEvents([]) == [] && LegalEntries([]) && EntriesEvents([]) == []
    ensures ItemsRefusal([]) == Taken && EntriesRefusal([]) == Taken
  {
  }

  lemma EmptyObject(b: Bytes)
    ensures DText(ObjectD(b, [])) == [0x7B] + (b + [0x7D])
    ensures WhiteSpace(b) ==> DEvents(ObjectD(b, [])) == [StartObject] + [EndObject(0)]
                              && RefusalOf(ObjectD(b, [])) == Taken
  {
  }

  lemma FullObject(d: Derivation)
    requires d.ObjectD? && d.entries != []
    ensures DText(d) == [0x7B] + (d.entries[0].before + EntriesText(d.entries))
    ensures Legal(d) ==> DEvents(d) == [StartObject] + (EntriesEvents(d.entries) + [EndObject(|d.entries|)])
    ensures Legal(d) ==> RefusalOf(d) == Onto([StartObject], EntriesRefusal(d.entries))
  {
  }

  lemma EntriesBefore(entries: seq<Entry>, before: Bytes)
    requires entries != [] && WhiteSpace(before)
    ensures var others := entries[0 := entries[0].(before := before)];
            && EntriesText(others) == EntriesText(entries)
            && (LegalEntries(entries) ==> LegalEntries(others) && EntriesEvents(others) == EntriesEvents(entries))
  {
    hide Legal, WhiteSpace, DText, DEvents, LegalLetters, LettersBytes, StringLiteral, LegalEntries, EntriesEvents,
         RefusalOf, EntriesRefusal;
    var others := entries[0 := entries[0].(before := before)];
    assert others[1..] == entries[1..];
    EntriesUnfold(entries);
    EntriesUnfold(others);
    assert LegalEntry(entries[0]) ==> LegalEntry(others[0]);
  }

  /** After the opening brace. */
  lemma {:induction false} ObjectSound(f: Flags, s: Bytes) returns (d: Derivation)
    requires Strict(f) && AtObjectInitial(f, SkipBlanks(s)).Good?
    ensures Legal(d) && [0x7B] + s == DText(d) + AtObjectInitial(f, SkipBlanks(s)).rest
    ensures [StartObject] + AtObjectInitial(f, SkipBlanks(s)).events == DEvents(d)
    decreases |s|, 3
  {
    hide AtKey, SkipBlanks, WhiteSpace, DText, EntriesText, EntriesEvents, EntriesRefusal;
    var t := SkipBlanks(s);
    var b := BlankSplit(s);
    var rest := AtObjectInitial(f, t).rest;
    if Peek(t) == 0x7D {
      d := ObjectD(b, []);
      EmptyObject(b);
      HeadTail(t);
      Associate(b, [0x7D], rest);
      Associate([0x7B], b + [0x7D], rest);
    } else {
      var found := EntriesSound(f, t, 0);
      EntriesBefore(found, b);
      var entries := found[0 := found[0].(before := b)];
      d := ObjectD(b, entries);
      FullObject(d);
      Associate(b, EntriesText(entries), rest);
      Associate([0x7B], b + EntriesText(entries), rest);
    }
  }

  function ClosingEntries(entries: seq<Entry>): Bytes
    requires entries != []
  {
    if |entries| == 1 then [0x7D] else [0x2C] + (entries[1].before + EntriesText(entries[1..]))
  }

  /** A member from its value on. */
  function FromValue(entries: seq<Entry>): Bytes
    requires entries != []
  {
    DText(entries[0].value) + (entries[0].after + ClosingEntries(entries))
  }

  /** A member from behind its name on. */
  function FromColon(entries: seq<Entry>): Bytes
    requires entries != []
  {
    [0x3A] + (entries[0].afterColon + FromValue(entries))
  }

  /** What may be refused from the value of the first member on. */
  function MemberRefusal(entries: seq<Entry>): Refusal
    requires entries != [] && LegalEntries(entries)
  {
    assert LegalEntry(entries[0]) && Legal(entries[0].value);
    Then(DEvents(entries[0].value), RefusalOf(entries[0].value), |entries[0].after + ClosingEntries(entries)|,
         EntriesRefusal(entries[1..]))
  }

  lemma EntriesUnfold(entries: seq<Entry>)
    requires entries != []
    ensures EntriesText(entries) == StringLiteral(entries[0].name) + (entries[0].beforeColon + FromColon(entries))
    ensures LegalEntries(entries) <==> LegalEntry(entries[0]) && LegalEntries(entries[1..])
    ensures LegalEntries(entries) ==>
              LegalLetters(entries[0].name) && Legal(entries[0].value)
              && EntriesRefusal(entries)
              == Then([Key(LettersBytes(entries[0].name))], StringRefusal(entries[0].name),
                      |entries[0].beforeColon + FromColon(entries)|, MemberRefusal(entries))
    ensures LegalEntries(entries) ==>
              LegalLetters(entries[0].name) && Legal(entries[0].value)
              && EntriesEvents(entries)
              == [Key(LettersBytes(entries[0].name))] + (DEvents(entries[0].value) + EntriesEvents(entries[1..]))
  {
    hide Legal, DText, DEvents, LettersBytes, StringLiteral, LegalLetters, RefusalOf;
  }

  lemma KeyStep(f: Flags, s: Bytes, count: nat, t: Bytes)
    requires Peek(s) == 0x22 && StringEventAt(s, true).Good? && Skip(f, StringEventAt(s, true).rest) == Skipped(t)
    ensures AtKey(f, s, count) == Prepend(StringEventAt(s, true).events, AtKeyEnd(f, t, count))
  {
    hide StringEventAt, Skip, AtKeyEnd;
  }

  lemma ColonStep(f: Flags, s: Bytes, count: nat, t: Bytes)
    requires Peek(s) == 0x3A && Skip(f, s[1..]) == Skipped(t)
    ensures AtKeyEnd(f, s, count) == AtMemberValue(f, t, count)
  {
    hide Skip, AtMemberValue;
  }

  lemma MemberStep(f: Flags, s: Bytes, count: nat, t: Bytes)
    requires ValueAt(f, s).Good? && Skip(f, ValueAt(f, s).rest) == Skipped(t)
    ensures AtMemberValue(f, s, count) == Prepend(ValueAt(f, s).events, AtMemberEnd(f, t, count))
  {
    hide ValueAt, Skip, AtMemberEnd;
  }

  /** The members of an object, from the quote of one of their names. */
  lemma {:induction false} EntriesSound(f: Flags, s: Bytes, count: nat) returns (entries: seq<Entry>)
    requires Strict(f) && AtKey(f, s, count).Good?
    ensures entries != [] && LegalEntries(entries) && s == EntriesText(entries) + AtKey(f, s, count).rest
    ensures AtKey(f, s, count).events == EntriesEvents(entries) + [EndObject(count + |entries|)]
    decreases |s|, 1
  {
    hide StringEventAt, SkipBlanks, Skip, WhiteSpace, DText, DEvents, Legal, EntriesText, EntriesEvents, LegalEntries,
         AtKeyEnd, LettersBytes, LegalLetters, StringLiteral, FromColon, RefusalOf, EntriesRefusal;
    var name := QuotedSound(s, true);
    var r := StringEventAt(s, true).rest;
    SkipStrict(f, r);
    var t := SkipBlanks(r);
    var before := BlankSplit(r);
    KeyStep(f, s, count, t);
    entries := ColonSound(f, t, count, name, before);
    var rest := AtKeyEnd(f, t, count).rest;
    EntriesUnfold(entries);
    Associate(StringLiteral(name), before + FromColon(entries), rest);
    Associate(before, FromColon(entries), rest);
    var value := DEvents(entries[0].value);
    EventsAssociate([Key(LettersBytes(name))], value + EntriesEvents(entries[1..]), [EndObject(count + |entries|)]);
  }

  lemma {:induction false} ColonSound(f: Flags, s: Bytes, count: nat, name: seq<Letter>, before: Bytes)
      returns (entries: seq<Entry>)
    requires Strict(f) && AtKeyEnd(f, s, count).Good? && LegalLetters(name) && WhiteSpace(before)
    ensures entries != [] && LegalEntries(entries) && entries[0].name == name && entries[0].beforeColon == before
    ensures s == FromColon(entries) + AtKeyEnd(f, s, count).rest && Legal(entries[0].value)
    ensures LegalEntries(entries[1..])
    ensures AtKeyEnd(f, s, count).events
         == DEvents(entries[0].value) + EntriesEvents(entries[1..]) + [EndObject(count + |entries|)]
    decreases |s|, 3
  {
    hide SkipBlanks, Skip, WhiteSpace, DText, DEvents, Legal, EntriesText, EntriesEvents, LegalEntries, AtMemberValue,
         LettersBytes, LegalLetters, StringLiteral, FromValue, RefusalOf, EntriesRefusal;
    HeadTail(s);
    SkipStrict(f, s[1..]);
    var t := SkipBlanks(s[1..]);
    var after := BlankSplit(s[1..]);
    ColonStep(f, s, count, t);
    entries := MemberSound(f, t, count, name, before, after);
    var rest := AtMemberValue(f, t, count).rest;
    Associate([0x3A], after + FromValue(entries), rest);
    Associate(after, FromValue(entries), rest);
  }

  lemma {:induction false} MemberSound(f: Flags, s: Bytes, count: nat, name: seq<Letter>, before: Bytes, colon: Bytes)
      returns (entries: seq<Entry>)
    requires Strict(f) && AtMemberValue(f, s, count).Good? && LegalLetters(name) && WhiteSpace(before) && WhiteSpace(colon)
    ensures entries != [] && LegalEntries(entries) && entries[0].name == name
    ensures entries[0].beforeColon == before && entries[0].afterColon == colon
    ensures s == FromValue(entries) + AtMemberValue(f, s, count).rest && Legal(entries[0].value)
    ensures LegalEntries(entries[1..])
    ensures AtMemberValue(f, s, count).events
         == DEvents(entries[0].value) + EntriesEvents(entries[1..]) + [EndObject(count + |entries|)]
    decreases |s|, 1
  {
    hide ValueAt, SkipBlanks, Skip, WhiteSpace, DText, DEvents, Legal, EntriesText, EntriesEvents, LegalEntries,
         AtMemberEnd, LegalLetters, ClosingEntries, RefusalOf, EntriesRefusal;
    var d := ValueSound(f, s);
    var r := ValueAt(f, s).rest;
    SkipStrict(f, r);
    var t := SkipBlanks(r);
    var after := BlankSplit(r);
    MemberStep(f, s, count, t);
    NoBlank();
    entries := MemberEndSound(f, t, count, Entry([], name, before, colon, d, after));
    var rest := AtMemberEnd(f, t, count).rest;
    Associate(DText(d), after + ClosingEntries(entries), rest);
    Associate(after, ClosingEntries(entries), rest);
    EventsAssociate(DEvents(d), EntriesEvents(entries[1..]), [EndObject(count + |entries|)]);
  }

  /** After a member: the brace, or a comma and more members. */
  lemma {:induction false} MemberEndSound(f: Flags, t: Bytes, count: nat, e: Entry) returns (entries: seq<Entry>)
    requires Strict(f) && AtMemberEnd(f, t, count).Good? && LegalEntry(e)
    ensures entries != [] && LegalEntries(entries) && entries[0] == e && LegalEntries(entries[1..])
    ensures t == ClosingEntries(entries) + AtMemberEnd(f, t, count).rest
    ensures AtMemberEnd(f, t, count).events == EntriesEvents(entries[1..]) + [EndObject(count + |entries|)]
    decreases |t|, 3
  {
    hide AtKey, SkipBlanks, Skip, WhiteSpace, DText, DEvents, Legal, EntriesText, EntriesEvents, LegalEntries,
         LegalEntry, RefusalOf, EntriesRefusal;
    HeadTail(t);
    if Peek(t) == 0x7D {
      entries := [e];
      EntriesUnfold(entries);
      NoItems();
      assert entries[1..] == [];
      assert [] + [EndObject(count + 1)] == [EndObject(count + 1)];
    } else {
      SkipStrict(f, t[1..]);
      var u := SkipBlanks(t[1..]);
      var before := BlankSplit(t[1..]);
      var found := EntriesSound(f, u, count + 1);
      EntriesBefore(found, before);
      var more := found[0 := found[0].(before := before)];
      entries := [e] + more;
      assert entries[1..] == more && entries[1] == more[0];
      EntriesUnfold(entries);
      var rest := AtKey(f, u, count + 1).rest;
      Associate(before, EntriesText(more), rest);
      Associate([0x2C], before + EntriesText(more), rest);
    }
  }

  // ---------------------------------------------------------------- completeness

  /** The outcome a derivation calls for: its meaning, or the refusal of its first refused literal. */
  predicate Meets(o: Outcome, es: seq<Event>, rest: Bytes, refusal: Refusal) {
    o == if refusal.Taken? then Good(es, rest) else Bad(refusal.before, refusal.code, refusal.left + |rest|)
  }

  lemma MeetsPrepend(a: seq<Event>, o: Outcome, es: seq<Event>, rest: Bytes, refusal: Refusal)
    requires Meets(o, es, rest, refusal)
    ensures Meets(Prepend(a, o), a + es, rest, Onto(a, refusal))
  {
  }

  lemma SkipTo(f: Flags, blank: Bytes, rest: Bytes)
    requires Strict(f) && WhiteSpace(blank) && !IsBlank(Peek(rest))
    ensures Skip(f, blank + rest) == Skipped(rest)
  {
    SkipBlankRun(blank, rest);
  }

  predicate StartsDerivation(b: int) {
    b == 0x6E || b == 0x74 || b == 0x66 || b == 0x22 || b == 0x2D || IsDigit(b) || b == 0x5B || b == 0x7B
  }

  lemma DerivationStarts(d: Derivation)
    requires Legal(d)
    ensures DText(d) != [] && StartsDerivation(DText(d)[0])
  {
  }

  lemma ScalarComplete(f: Flags, d: Derivation, tail: Bytes)
    requires Legal(d) && !d.ArrayD? && !d.ObjectD? && EndsNumber(tail)
    ensures Meets(ValueAt(f, DText(d) + tail), DEvents(d), tail, RefusalOf(d))
  {
    hide NumberAt, StringEventAt, KeywordAt, NumText, NumEvent, LettersBytes, StringLiteral, EndsNumber, Meets;
    match d
    case NullD => ReadKeyword(f, NULL_TEXT, NullE, tail); MeetsGood([NullE], tail);
    case BoolD(b) =>
      ReadKeyword(f, if b then TRUE_TEXT else FALSE_TEXT, BoolE(b), tail);
      MeetsGood([BoolE(b)], tail);
    case NumberD(n) => NumberValue(f, n, tail);
    case StringD(ls) => StringValue(f, ls, tail);
  }

  lemma MeetsGood(es: seq<Event>, rest: Bytes)
    ensures Meets(Good(es, rest), es, rest, Taken)
  {
  }

  lemma NumberValue(f: Flags, n: Num, tail: Bytes)
    requires LegalNum(n) && EndsNumber(tail)
    ensures Meets(ValueAt(f, NumText(n) + tail), [NumEvent(n)], tail, NumberRefusal(n))
  {
    hide NumberAt, ValueAt, NumEvent, EndsNumber, NumText, LegalNum, Refused;
    NumberStarts(n);
    NumberBranch(f, NumText(n) + tail);
    NumberComplete(n, tail);
  }

  lemma NumberBranch(f: Flags, s: Bytes)
    requires IsDigit(Peek(s)) || Peek(s) == 0x2D
    ensures ValueAt(f, s) == if NumberAt(s).Scalar? then Good([NumberAt(s).event], NumberAt(s).rest)
                             else Bad([], NumberAt(s).code, NumberAt(s).left)
  {
    hide NumberAt, StringEventAt, KeywordAt, Skip;
  }

  lemma NumberStarts(n: Num)
    requires LegalNum(n)
    ensures NumText(n) != [] && (IsDigit(NumText(n)[0]) || NumText(n)[0] == 0x2D)
  {
  }

  lemma QuotedComplete(ls: seq<Letter>, isKey: bool, tail: Bytes)
    requires LegalLetters(ls)
    ensures Peek(StringLiteral(ls) + tail) == 0x22
    ensures Meets(StringEventAt(StringLiteral(ls) + tail, isKey),
                  [if isKey then Key(LettersBytes(ls)) else StringE(LettersBytes(ls))], tail, StringRefusal(ls))
  {
    hide StringAt, LettersText, LettersBytes, LegalLetters, Unpaired;
    var body := LettersText(ls) + [0x22] + tail;
    Associate([0x22], LettersText(ls), [0x22]);
    Associate([0x22], LettersText(ls) + [0x22], tail);
    DropHead([0x22], body);
    StringComplete(ls, tail);
  }

  lemma StringValue(f: Flags, ls: seq<Letter>, tail: Bytes)
    requires LegalLetters(ls)
    ensures Meets(ValueAt(f, StringLiteral(ls) + tail), [StringE(LettersBytes(ls))], tail, StringRefusal(ls))
  {
    hide NumberAt, StringEventAt, KeywordAt, StringLiteral, LettersBytes, LegalLetters, StringRefusal, Meets;
    QuotedComplete(ls, false, tail);
  }

  /** Every derivation is read as what it means, or stops at its first refused literal. */
  lemma {:induction false} ValueComplete(f: Flags, d: Derivation, tail: Bytes)
    requires Strict(f) && Legal(d) && EndsNumber(tail)
    ensures Meets(ValueAt(f, DText(d) + tail), DEvents(d), tail, RefusalOf(d))
    decreases d
  {
    hide ValueAt, DText, DEvents, Meets, EndsNumber, RefusalOf;
    if d.ArrayD? {
      ArrayComplete(f, d, tail);
    } else if d.ObjectD? {
      ObjectComplete(f, d, tail);
    } else {
      ScalarComplete(f, d, tail);
    }
  }

  /** What may follow an item or member. */
  predicate Follows(b: int) {
    b == 0x2C || b == 0x5D || b == 0x7D
  }

  lemma BlankThen(blank: Bytes, rest: Bytes)
    requires WhiteSpace(blank) && Follows(Peek(rest))
    ensures EndsNumber(blank + rest) && !IsBlank(Peek(rest))
  {
    if blank == [] {
      assert blank + rest == rest;
    }
  }

  lemma ArrayOpens(f: Flags, s: Bytes, t: Bytes)
    requires Skip(f, s) == Skipped(t)
    ensures ValueAt(f, [0x5B] + s) == Prepend([StartArray], AtArrayInitial(f, t))
  {
    hide Skip, AtArrayInitial, AtObjectInitial, ScalarAt;
    DropHead([0x5B], s);
  }

  lemma {:induction false} ArrayComplete(f: Flags, d: Derivation, tail: Bytes)
    requires Strict(f) && Legal(d) && d.ArrayD?
    ensures Meets(ValueAt(f, DText(d) + tail), DEvents(d), tail, RefusalOf(d))
    decreases d, 0
  {
    hide ValueAt, DText, DEvents, Meets, EndsNumber, Skip, AtArrayInitial, WhiteSpace, ItemsText, ItemsEvents, Legal,
         RefusalOf, ItemsRefusal;
    LegalArray(d);
    if d.items == [] {
      EmptyArray(d.blank);
      var t := [0x5D] + tail;
      Associate([0x5B], d.blank + [0x5D], tail);
      Associate(d.blank, [0x5D], tail);
      SkipTo(f, d.blank, t);
      ArrayOpens(f, d.blank + t, t);
      EmptyInitial(f, tail);
      MeetsGood([EndArray(0)], tail);
      MeetsPrepend([StartArray], AtArrayInitial(f, t), [EndArray(0)], tail, Taken);
    } else {
      FullArray(d);
      var before := d.items[0].before;
      var t := ItemsText(d.items) + tail;
      Associate([0x5B], before + ItemsText(d.items), tail);
      Associate(before, ItemsText(d.items), tail);
      ItemsStart(d.items, tail);
      SkipTo(f, before, t);
      ArrayOpens(f, before + t, t);
      ItemsInitial(f, t);
      ItemsComplete(f, d.items, 0, tail);
      MeetsPrepend([StartArray], AtElement(f, t, 0), ItemsEvents(d.items) + [EndArray(|d.items|)], tail,
                   ItemsRefusal(d.items));
    }
  }

  lemma LegalArray(d: Derivation)
    requires Legal(d) && d.ArrayD?
    ensures WhiteSpace(d.blank) && LegalItems(d.items) && (d.items != [] ==> LegalItem(d.items[0]) && WhiteSpace(d.items[0].before))
  {
    hide WhiteSpace;
  }

  lemma EmptyInitial(f: Flags, tail: Bytes)
    ensures AtArrayInitial(f, [0x5D] + tail) == Good([EndArray(0)], tail)
    ensures AtObjectInitial(f, [0x7D] + tail) == Good([EndObject(0)], tail)
  {
    DropHead([0x5D], tail);
    DropHead([0x7D], tail);
  }

  lemma ItemsInitial(f: Flags, t: Bytes)
    requires Peek(t) != 0x5D
    ensures AtArrayInitial(f, t) == AtElement(f, t, 0)
  {
  }

  lemma ItemsStart(items: seq<Item>, tail: Bytes)
    requires items != [] && LegalItems(items)
    ensures !IsBlank(Peek(ItemsText(items) + tail)) && Peek(ItemsText(items) + tail) != 0x5D
  {
    hide DText, ItemsText, DEvents, Legal, RefusalOf;
    ItemsUnfold(items);
    assert LegalItem(items[0]) && Legal(items[0].value);
    DerivationStarts(items[0].value);
  }

  lemma ElementThen(f: Flags, s: Bytes, count: nat, es: seq<Event>, r: Bytes, first: Refusal, t: Bytes, fs: seq<Event>,
      tail: Bytes, others: Refusal)
    requires Meets(ValueAt(f, s), es, r, first) && Skip(f, r) == Skipped(t)
    requires Meets(AtElementEnd(f, t, count), fs, tail, others) && |tail| <= |r|
    ensures Meets(AtElement(f, s, count), es + fs, tail, Then(es, first, |r| - |tail|, others))
  {
    hide ValueAt, Skip, AtElementEnd;
  }

  lemma {:induction false} ItemsComplete(f: Flags, items: seq<Item>, count: nat, tail: Bytes)
    requires Strict(f) && items != [] && LegalItems(items)
    ensures Meets(AtElement(f, ItemsText(items) + tail, count), ItemsEvents(items) + [EndArray(count + |items|)], tail,
                  ItemsRefusal(items))
    decreases items, 1
  {
    hide ValueAt, DText, DEvents, Meets, EndsNumber, Skip, AtElement, AtElementEnd, WhiteSpace, ItemsText, ItemsEvents,
         Legal, LegalItems, ClosingText, RefusalOf, ItemsRefusal;
    ItemsUnfold(items);
    var i := items[0];
    LegalParts(i);
    var t := ClosingText(items) + tail;
    assert ItemsText(items) == DText(i.value) + (i.after + ClosingText(items)) by { TextOfItems(items); }
    Associate(DText(i.value), i.after + ClosingText(items), tail);
    Associate(i.after, ClosingText(items), tail);
    ClosingStarts(items, tail);
    BlankThen(i.after, t);
    SkipTo(f, i.after, t);
    ValueComplete(f, i.value, i.after + t);
    ItemsEndComplete(f, items, count, tail);
    ElementThen(f, DText(i.value) + (i.after + t), count, DEvents(i.value), i.after + t, RefusalOf(i.value),
                t, ItemsEvents(items[1..]) + [EndArray(count + |items|)], tail, ItemsRefusal(items[1..]));
    EventsAssociate(DEvents(i.value), ItemsEvents(items[1..]), [EndArray(count + |items|)]);
  }

  lemma LegalParts(i: Item)
    requires LegalItem(i)
    ensures WhiteSpace(i.before) && WhiteSpace(i.after) && Legal(i.value)
  {
    hide Legal, WhiteSpace;
  }

  lemma TextOfItems(items: seq<Item>)
    requires items != []
    ensures ItemsText(items) == DText(items[0].value) + (items[0].after + ClosingText(items))
  {
    hide DText;
  }

  lemma ClosingStarts(items: seq<Item>, tail: Bytes)
    requires items != []
    ensures Follows(Peek(ClosingText(items) + tail))
  {
    hide ItemsText;
  }

  lemma CommaThen(f: Flags, s: Bytes, t: Bytes, count: nat)
    requires Strict(f) && Skip(f, s) == Skipped(t)
    ensures AtElementEnd(f, [0x2C] + s, count) == AtElement(f, t, count + 1)
    ensures AtMemberEnd(f, [0x2C] + s, count) == AtKey(f, t, count + 1)
  {
    hide Skip, AtElement, AtKey;
    DropHead([0x2C], s);
  }

  lemma BracketThenEnd(f: Flags, tail: Bytes, count: nat)
    ensures AtElementEnd(f, [0x5D] + tail, count) == Good([EndArray(count + 1)], tail)
    ensures AtMemberEnd(f, [0x7D] + tail, count) == Good([EndObject(count + 1)], tail)
  {
    hide AtElement, AtKey, Skip;
    DropHead([0x5D], tail);
    DropHead([0x7D], tail);
  }

  lemma {:induction false} ItemsEndComplete(f: Flags, items: seq<Item>, count: nat, tail: Bytes)
    requires Strict(f) && items != [] && LegalItems(items)
    ensures LegalItems(items[1..])
    ensures Meets(AtElementEnd(f, ClosingText(items) + tail, count), ItemsEvents(items[1..]) + [EndArray(count + |items|)],
                  tail, ItemsRefusal(items[1..]))
    decreases items, 0
  {
    hide DText, DEvents, Meets, Skip, AtElement, AtElementEnd, WhiteSpace, ItemsText, ItemsEvents, Legal, LegalItems,
         RefusalOf, ItemsRefusal;
    ItemsUnfold(items);
    if |items| == 1 {
      BracketThenEnd(f, tail, count);
      assert items[1..] == [];
      NoItems();
      assert [] + [EndArray(count + 1)] == [EndArray(count + 1)];
      MeetsGood([EndArray(count + 1)], tail);
    } else {
      var more := items[1..];
      ItemsUnfold(more);
      LegalParts(more[0]);
      var t := ItemsText(more) + tail;
      Associate([0x2C], more[0].before + ItemsText(more), tail);
      Associate(more[0].before, ItemsText(more), tail);
      ItemsStart(more, tail);
      SkipTo(f, more[0].before, t);
      CommaThen(f, more[0].before + t, t, count);
      ItemsComplete(f, more, count + 1, tail);
    }
  }

  lemma ObjectOpens(f: Flags, s: Bytes, t: Bytes)
    requires Skip(f, s) == Skipped(t)
    ensures ValueAt(f, [0x7B] + s) == Prepend([StartObject], AtObjectInitial(f, t))
  {
    hide Skip, AtArrayInitial, AtObjectInitial, ScalarAt;
    DropHead([0x7B], s);
  }

  lemma LegalObject(d: Derivation)
    requires Legal(d) && d.ObjectD?
    ensures WhiteSpace(d.blank) && LegalEntries(d.entries)
    ensures d.entries != [] ==> LegalEntry(d.entries[0]) && WhiteSpace(d.entries[0].before)
  {
    hide WhiteSpace;
  }

  lemma EntriesStart(entries: seq<Entry>, tail: Bytes)
    requires entries != []
    ensures Peek(EntriesText(entries) + tail) == 0x22
  {
    hide DText, LettersText;
  }

  lemma EntriesInitial(f: Flags, t: Bytes)
    requires Peek(t) != 0x7D
    ensures AtObjectInitial(f, t) == AtKey(f, t, 0)
  {
  }

  lemma {:induction false} ObjectComplete(f: Flags, d: Derivation, tail: Bytes)
    requires Strict(f) && Legal(d) && d.ObjectD?
    ensures Meets(ValueAt(f, DText(d) + tail), DEvents(d), tail, RefusalOf(d))
    decreases d, 0
  {
    hide ValueAt, DText, DEvents, Meets, EndsNumber, Skip, AtObjectInitial, WhiteSpace, EntriesText, EntriesEvents,
         Legal, RefusalOf, EntriesRefusal;
    LegalObject(d);
    if d.entries == [] {
      EmptyObject(d.blank);
      var t := [0x7D] + tail;
      Associate([0x7B], d.blank + [0x7D], tail);
      Associate(d.blank, [0x7D], tail);
      SkipTo(f, d.blank, t);
      ObjectOpens(f, d.blank + t, t);
      EmptyInitial(f, tail);
      MeetsGood([EndObject(0)], tail);
      MeetsPrepend([StartObject], AtObjectInitial(f, t), [EndObject(0)], tail, Taken);
    } else {
      FullObject(d);
      var before := d.entries[0].before;
      var t := EntriesText(d.entries) + tail;
      Associate([0x7B], before + EntriesText(d.entries), tail);
      Associate(before, EntriesText(d.entries), tail);
      EntriesStart(d.entries, tail);
      SkipTo(f, before, t);
      ObjectOpens(f, before + t, t);
      EntriesInitial(f, t);
      EntriesComplete(f, d.entries, 0, tail);
      MeetsPrepend([StartObject], AtKey(f, t, 0), EntriesEvents(d.entries) + [EndObject(|d.entries|)], tail,
                   EntriesRefusal(d.entries));
    }
  }

  lemma LegalEntryParts(e: Entry)
    requires LegalEntry(e)
    ensures WhiteSpace(e.before) && WhiteSpace(e.beforeColon) && WhiteSpace(e.afterColon) && WhiteSpace(e.after)
    ensures LegalLetters(e.name) && Legal(e.value)
  {
    hide Legal, WhiteSpace, LegalLetters;
  }

  lemma MemberThen(f: Flags, s: Bytes, count: nat, es: seq<Event>, r: Bytes, first: Refusal, t: Bytes, fs: seq<Event>,
      tail: Bytes, others: Refusal)
    requires Meets(ValueAt(f, s), es, r, first) && Skip(f, r) == Skipped(t)
    requires Meets(AtMemberEnd(f, t, count), fs, tail, others) && |tail| <= |r|
    ensures Meets(AtMemberValue(f, s, count), es + fs, tail, Then(es, first, |r| - |tail|, others))
  {
    hide ValueAt, Skip, AtMemberEnd;
  }

  lemma KeyThen(f: Flags, s: Bytes, count: nat, es: seq<Event>, r: Bytes, first: Refusal, t: Bytes, fs: seq<Event>,
      tail: Bytes, others: Refusal)
    requires Peek(s) == 0x22 && Meets(StringEventAt(s, true), es, r, first) && Skip(f, r) == Skipped(t)
    requires Meets(AtKeyEnd(f, t, count), fs, tail, others) && |tail| <= |r|
    ensures Meets(AtKey(f, s, count), es + fs, tail, Then(es, first, |r| - |tail|, others))
  {
    hide StringEventAt, Skip, AtKeyEnd;
  }

  lemma ColonStarts(entries: seq<Entry>, tail: Bytes)
    requires entries != []
    ensures Peek(FromColon(entries) + tail) == 0x3A && !IsBlank(0x3A)
    ensures (FromColon(entries) + tail)[1..] == entries[0].afterColon + (FromValue(entries) + tail)
  {
    hide FromValue;
    var e := entries[0];
    Associate([0x3A], e.afterColon + FromValue(entries), tail);
    Associate(e.afterColon, FromValue(entries), tail);
    DropHead([0x3A], e.afterColon + FromValue(entries) + tail);
  }

  lemma EntryClosingStarts(entries: seq<Entry>, tail: Bytes)
    requires entries != []
    ensures Follows(Peek(ClosingEntries(entries) + tail))
  {
    hide EntriesText;
  }

  lemma {:induction false} EntriesComplete(f: Flags, entries: seq<Entry>, count: nat, tail: Bytes)
    requires Strict(f) && entries != [] && LegalEntries(entries)
    ensures Meets(AtKey(f, EntriesText(entries) + tail, count), EntriesEvents(entries) + [EndObject(count + |entries|)], tail,
                  EntriesRefusal(entries))
    decreases entries, 2
  {
    hide DText, DEvents, Meets, Skip, AtKey, AtKeyEnd, AtMemberValue, WhiteSpace, EntriesText, EntriesEvents, Legal,
         LegalEntries, FromColon, FromValue, StringEventAt, StringLiteral, LegalLetters, LettersBytes, IsBlank,
         RefusalOf, EntriesRefusal;
    EntriesUnfold(entries);
    var e := entries[0];
    LegalEntryParts(e);
    var t := FromColon(entries) + tail;
    var key := [Key(LettersBytes(e.name))];
    Associate(StringLiteral(e.name), e.beforeColon + FromColon(entries), tail);
    Associate(e.beforeColon, FromColon(entries), tail);
    QuotedComplete(e.name, true, e.beforeColon + t);
    ColonStarts(entries, tail);
    SkipTo(f, e.beforeColon, t);
    var u := FromValue(entries) + tail;
    ValueStart(entries, tail);
    SkipTo(f, e.afterColon, u);
    ColonStep(f, t, count, u);
    MemberComplete(f, entries, count, tail);
    var es := DEvents(e.value) + EntriesEvents(entries[1..]);
    KeyThen(f, StringLiteral(e.name) + (e.beforeColon + t), count, key, e.beforeColon + t, StringRefusal(e.name),
            t, es + [EndObject(count + |entries|)], tail, MemberRefusal(entries));
    EventsAssociate(key, es, [EndObject(count + |entries|)]);
  }

  lemma ValueStart(entries: seq<Entry>, tail: Bytes)
    requires entries != [] && LegalEntry(entries[0])
    ensures !IsBlank(Peek(FromValue(entries) + tail))
  {
    hide DText, ClosingEntries, Legal;
    LegalEntryParts(entries[0]);
    DerivationStarts(entries[0].value);
  }

  lemma {:induction false} MemberComplete(f: Flags, entries: seq<Entry>, count: nat, tail: Bytes)
    requires Strict(f) && entries != [] && LegalEntries(entries)
    ensures LegalEntry(entries[0]) && Legal(entries[0].value) && LegalEntries(entries[1..])
    ensures Meets(AtMemberValue(f, FromValue(entries) + tail, count),
                  DEvents(entries[0].value) + EntriesEvents(entries[1..]) + [EndObject(count + |entries|)], tail,
                  MemberRefusal(entries))
    decreases entries, 1
  {
    hide ValueAt, DText, DEvents, Meets, EndsNumber, Skip, AtMemberValue, AtMemberEnd, WhiteSpace, EntriesText,
         EntriesEvents, Legal, LegalEntries, ClosingEntries, RefusalOf, EntriesRefusal;
    EntriesUnfold(entries);
    var e := entries[0];
    LegalEntryParts(e);
    var t := ClosingEntries(entries) + tail;
    Associate(DText(e.value), e.after + ClosingEntries(entries), tail);
    Associate(e.after, ClosingEntries(entries), tail);
    EntryClosingStarts(entries, tail);
    BlankThen(e.after, t);
    SkipTo(f, e.after, t);
    ValueComplete(f, e.value, e.after + t);
    EntriesEndComplete(f, entries, count, tail);
    MemberThen(f, DText(e.value) + (e.after + t), count, DEvents(e.value), e.after + t, RefusalOf(e.value),
               t, EntriesEvents(entries[1..]) + [EndObject(count + |entries|)], tail, EntriesRefusal(entries[1..]));
    EventsAssociate(DEvents(e.value), EntriesEvents(entries[1..]), [EndObject(count + |entries|)]);
  }

  lemma {:induction false} EntriesEndComplete(f: Flags, entries: seq<Entry>, count: nat, tail: Bytes)
    requires Strict(f) && entries != [] && LegalEntries(entries)
    ensures LegalEntries(entries[1..])
    ensures Meets(AtMemberEnd(f, ClosingEntries(entries) + tail, count),
                  EntriesEvents(entries[1..]) + [EndObject(count + |entries|)], tail, EntriesRefusal(entries[1..]))
    decreases entries, 0
  {
    hide FromColon, StringLiteral, LegalLetters, LettersBytes, StringRefusal, MemberRefusal, Then;
    hide DText, DEvents, Meets, Skip, AtKey, AtMemberEnd, WhiteSpace, EntriesText, EntriesEvents, Legal, LegalEntries,
         RefusalOf, EntriesRefusal;
    EntriesUnfold(entries);
    if |entries| == 1 {
      BracketThenEnd(f, tail, count);
      assert entries[1..] == [];
      NoItems();
      assert [] + [EndObject(count + 1)] == [EndObject(count + 1)];
      MeetsGood([EndObject(count + 1)], tail);
    } else {
      var more := entries[1..];
      EntriesUnfold(more);
      LegalEntryParts(more[0]);
      var t := EntriesText(more) + tail;
      Associate([0x2C], more[0].before + EntriesText(more), tail);
      Associate(more[0].before, EntriesText(more), tail);
      EntriesStart(more, tail);
      SkipTo(f, more[0].before, t);
      CommaThen(f, more[0].before + t, t, count);
      EntriesComplete(f, more, count + 1, tail);
    }
  }

  // ---------------------------------------------------------------- documents

  /** A JSON text: white space, a value, white space. */
  predicate Derives(before: Bytes, d: Derivation, after: Bytes, s: Bytes) {
    WhiteSpace(before) && WhiteSpace(after) && Legal(d) && s == before + (DText(d) + after)
  }

  /**
    The white space, value and white space of an accepted text, which ends at a NUL or with the input.
   */
  lemma DocumentSplit(f: Flags, s: Bytes) returns (before: Bytes, d: Derivation, after: Bytes)
    requires Strict(f) && !f.stopWhenDone && DocumentAt(f, s).Good?
    ensures Derives(before, d, after, s[..|s| - |DocumentAt(f, s).rest|]) && Peek(DocumentAt(f, s).rest) == 0
    ensures s == s[..|s| - |DocumentAt(f, s).rest|] + DocumentAt(f, s).rest
    ensures DocumentAt(f, s).events == DEvents(d)
  {
    hide ValueAt, SkipBlanks, Skip, WhiteSpace, DText, DEvents, Legal;
    SkipStrict(f, s);
    before := BlankSplit(s);
    var t := SkipBlanks(s);
    d := ValueSound(f, t);
    var r := ValueAt(f, t).rest;
    SkipStrict(f, r);
    after := BlankSplit(r);
    var rest := SkipBlanks(r);
    assert DEvents(d) + [] == DEvents(d);
    Associate(DText(d), after, rest);
    Associate(before, DText(d) + after, rest);
    DropHead(before + (DText(d) + after), rest);
  }

  /**
    A text of the grammar, followed by nothing or by a NUL, is accepted with its meaning exactly unless a literal in it
    is refused; then the first such literal is the error, after the events before it and at its place.
   */
  lemma DocumentComplete(f: Flags, before: Bytes, d: Derivation, after: Bytes, s: Bytes, tail: Bytes)
    requires Strict(f) && !f.stopWhenDone && Derives(before, d, after, s) && Peek(tail) == 0
    ensures Meets(DocumentAt(f, s + tail), DEvents(d), tail, Then(DEvents(d), RefusalOf(d), |after|, Taken))
    ensures DocumentAt(f, s + tail) == Good(DEvents(d), tail) <==> RefusalOf(d).Taken?
  {
    hide ValueAt, SkipBlanks, Skip, WhiteSpace, DText, DEvents, Legal, EndsNumber, RefusalOf;
    DerivationStarts(d);
    var t := after + tail;
    Associate(before, DText(d) + after, tail);
    Associate(DText(d), after, tail);
    SkipTo(f, before, DText(d) + t);
    BlankEnds(after, tail);
    SkipTo(f, after, tail);
    ValueComplete(f, d, t);
    assert DEvents(d) + [] == DEvents(d);
  }

  lemma BlankEnds(blank: Bytes, tail: Bytes)
    requires WhiteSpace(blank) && Peek(tail) == 0
    ensures EndsNumber(blank + tail)
  {
    if blank == [] {
      assert blank + tail == tail;
    }
  }

  /**
    Every text the reader accepts with the strict flags is one of the grammar (up to a NUL, which ends the text) with
    no literal refused, and the events delivered are its meaning.
   */
  lemma DocumentSound(f: Flags, s: Bytes) returns (before: Bytes, d: Derivation, after: Bytes)
    requires Strict(f) && !f.stopWhenDone && DocumentAt(f, s).Good?
    ensures Derives(before, d, after, s[..|s| - |DocumentAt(f, s).rest|]) && Peek(DocumentAt(f, s).rest) == 0
    ensures DocumentAt(f, s).events == DEvents(d) && RefusalOf(d).Taken?
  {
    hide DocumentAt, DEvents, Legal, Derives, RefusalOf;
    before, d, after := DocumentSplit(f, s);
    assert Legal(d) by { DerivesLegal(before, d, after, s[..|s| - |DocumentAt(f, s).rest|]); }
    DocumentComplete(f, before, d, after, s[..|s| - |DocumentAt(f, s).rest|], DocumentAt(f, s).rest);
  }

  lemma DerivesLegal(before: Bytes, d: Derivation, after: Bytes, s: Bytes)
    requires Derives(before, d, after, s)
    ensures Legal(d)
  {
    hide Legal, DText, WhiteSpace;
  }

  /** A text up to its NUL that has a derivation, on bytes, without a refused literal. */
  ghost predicate IsText(s: Bytes) {
    exists k, before, d, after ::
      0 <= k <= |s| && Peek(s[k..]) == 0 && Derives(before, d, after, s[..k]) && RefusalOf(d).Taken?
  }

  /** The strict reader accepts exactly the texts of the grammar, read on bytes, that hold no refused literal. */
  lemma AcceptsExactly(f: Flags, s: Bytes)
    requires Strict(f) && !f.stopWhenDone
    ensures DocumentAt(f, s).Good? <==> IsText(s)
  {
    hide DocumentAt, DEvents, RefusalOf, Legal, WhiteSpace, DText;
    if DocumentAt(f, s).Good? {
      var before, d, after := DocumentSound(f, s);
      var _, _, _ := DocumentSplit(f, s);
      var k := |s| - |DocumentAt(f, s).rest|;
      assert s[k..] == DocumentAt(f, s).rest;
    }
    if IsText(s) {
      var k, before, d, after :|
        0 <= k <= |s| && Peek(s[k..]) == 0 && Derives(before, d, after, s[..k]) && RefusalOf(d).Taken?;
      assert s == s[..k] + s[k..];
      DocumentComplete(f, before, d, after, s[..k], s[k..]);
    }
  }
}
