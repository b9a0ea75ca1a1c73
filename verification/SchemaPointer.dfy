/**
  The validator's document pointer is a JSON Pointer text: parsing it gives the reference tokens of the location.
 */
module SchemaPointer {
  import opened Json
  import SchemaSpec
  import opened SchemaMachine
  import opened SchemaProof
  import opened SchemaPath
  import opened Utf
  import P = Pointer
  import Writer

  /** The reference tokens of the current children of all frames. */
  function ChildTokens(frames: seq<Frame>): seq<Bytes> {
    if frames == [] then []
    else ChildTokens(frames[..|frames| - 1]) + FrameToken(frames[|frames| - 1])
  }

  function FrameToken(f: Frame): seq<Bytes> {
    match f
    case ArrayFrame(begun) => if begun == 0 then [] else [Writer.Decimal(begun - 1)]
    case ObjectFrame(pending, key) => if pending then [key] else []
  }

  function LocationTokens(frames: seq<Frame>): seq<Bytes> {
    if frames != [] && frames[|frames| - 1].ArrayFrame? then ChildTokens(frames[..|frames| - 1]) else ChildTokens(frames)
  }

  lemma {:induction false} EscapedNameText(name: Bytes)
    ensures P.NameText(false, name) == Text(EscapedName(name))
    decreases name
  {
    hide Utf.Validate;
    if name != [] {
      EscapedNameText(name[1..]);
    }
  }

  lemma {:induction false} PlainNameText(name: Bytes)
    requires P.TILDE !in name && P.SLASH !in name
    ensures P.NameText(false, name) == Text(name)
    decreases name
  {
    hide Utf.Validate;
    if name != [] {
      PlainNameText(name[1..]);
      assert [name[0]] + name[1..] == name;
    }
  }

  lemma {:induction false} DecimalIsPlain(n: nat)
    ensures P.TILDE !in Writer.Decimal(n) && P.SLASH !in Writer.Decimal(n)
    decreases n
  {
    if n >= 10 {
      DecimalIsPlain(n / 10);
    }
  }

  lemma NoTokens()
    ensures P.NamesText(false, []) == Text([])
  {
  }

  lemma RestIsText(names: seq<Bytes>)
    requires names != [] && P.NamesText(false, names).Text?
    ensures P.NamesText(false, names[1..]).Text?
  {
    hide P.NameText;
  }

  lemma Reassociate(head: Transcoded<Byte>, more: Transcoded<Byte>, last: Bytes)
    requires Cons([P.SLASH], P.Append(head, more)).Text?
    ensures more.Text?
    ensures Cons([P.SLASH], P.Append(head, Text(more.units + last)))
         == Text(Cons([P.SLASH], P.Append(head, more)).units + last)
  {
    assert [P.SLASH] + (head.units + (more.units + last)) == [P.SLASH] + (head.units + more.units) + last;
  }

  lemma {:induction false} NamesTextConcat(a: seq<Bytes>, b: seq<Bytes>)
    requires P.NamesText(false, a).Text? && P.NamesText(false, b).Text?
    ensures P.NamesText(false, a + b) == Text(P.NamesText(false, a).units + P.NamesText(false, b).units)
    decreases |a|
  {
    hide P.NameText, P.Append, Utf.Cons;
    if a == [] {
      NoTokens();
      assert a + b == b;
    } else {
      assert (a + b)[0] == a[0] && (a + b)[1..] == a[1..] + b;
      RestIsText(a);
      NamesTextConcat(a[1..], b);
      Reassociate(P.NameText(false, a[0]), P.NamesText(false, a[1..]), P.NamesText(false, b).units);
    }
  }

  lemma TokenText(f: Frame)
    ensures P.NamesText(false, FrameToken(f)) == Text(ChildToken(f))
  {
    hide P.NameText, EscapedName;
    match f
    case ArrayFrame(begun) =>
      if begun > 0 {
        DecimalIsPlain(begun - 1);
        PlainNameText(Writer.Decimal(begun - 1));
        assert FrameToken(f)[1..] == [];
        assert P.NamesText(false, []) == Text([]);
      }
    case ObjectFrame(pending, key) =>
      if pending {
        EscapedNameText(key);
        assert FrameToken(f)[1..] == [];
        assert P.NamesText(false, []) == Text([]);
      }
  }

  lemma {:induction false} PathText(frames: seq<Frame>)
    ensures P.NamesText(false, ChildTokens(frames)) == Text(ChildPath(frames))
    decreases |frames|
  {
    hide ChildToken, FrameToken;
    if frames != [] {
      var n := |frames| - 1;
      PathText(frames[..n]);
      TokenText(frames[n]);
      NamesTextConcat(ChildTokens(frames[..n]), FrameToken(frames[n]));
    }
  }

  /** At every point of a valid run, the document pointer parses to the reference tokens of the location. */
  lemma DocumentParses(p: Producer, s: SchemaSpec.Schema, v: Value, k: nat)
    requires k <= |Events(p, v)|
    ensures Sane(NewValidator(s)) && FollowAll([], Events(p, v)[..k]).Place?
    ensures var r := Run(NewValidator(s), Events(p, v)[..k]);
            r.valid ==> P.ParseNames(r.document) == P.Names(LocationTokens(FollowAll([], Events(p, v)[..k]).frames))
  {
    hide Run, Events, FollowAll, Depth, P.ParseNames, P.NamesText;
    DocumentIsPointer(p, s, v, k);
    var frames := FollowAll([], Events(p, v)[..k]).frames;
    PathText(frames);
    if frames != [] {
      PathText(frames[..|frames| - 1]);
    }
    P.PointerRoundTrip(false, LocationTokens(frames));
  }
}
