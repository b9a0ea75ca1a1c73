/**
  The printer with `print_no_indenting`, and the whole way round: print, then parse the printed text in place.
 */
module XmlPrinter {
  import opened Json
  import opened XmlSpec
  import opened XmlRoundTrip
  import opened XmlInPlace
  import opened XmlParser

  /** `copy_and_expand_chars`. */
  method CopyAndExpand(s: Bytes, noexpand: Byte, out0: Bytes) returns (out: Bytes)
    ensures out == out0 + EscapedText(s, noexpand)
  {
    hide Escaped;
    out := out0;
    var i := 0;
    assert s[0..] == s;
    while i < |s|
      invariant 0 <= i <= |s| && out + EscapedText(s[i..], noexpand) == out0 + EscapedText(s, noexpand)
    {
      assert s[i..][1..] == s[i + 1..];
      assert out + (Escaped(s[i], noexpand) + EscapedText(s[i + 1..], noexpand))
          == out + Escaped(s[i], noexpand) + EscapedText(s[i + 1..], noexpand);
      out := out + Escaped(s[i], noexpand);
      i := i + 1;
    }
    assert s[i..] == [];
  }

  /** `find_char`. */
  method FindChar(s: Bytes, c: Byte) returns (found: bool)
    ensures found <==> c in s
  {
    var i := 0;
    while i < |s|
      invariant 0 <= i <= |s| && c !in s[..i]
    {
      if s[i] == c {
        return true;
      }
      assert s[..i + 1] == s[..i] + [s[i]];
      i := i + 1;
    }
    assert s[..i] == s;
    return false;
  }

  /** A value, in the quotes that suit it. */
  method PrintQuoted(value: Bytes, out0: Bytes) returns (out: Bytes)
    ensures out == out0 + QuotedText(value)
  {
    hide EscapedText;
    var hasQuote := FindChar(value, QUOT);
    var quote, noexpand := if hasQuote then APOS else QUOT, if hasQuote then QUOT else APOS;
    out := CopyAndExpand(value, noexpand, out0 + [quote]);
    out := out + [quote];
    assert out == out0 + ([quote] + EscapedText(value, noexpand) + [quote]);
  }

  /** `print_attributes`. */
  method PrintAttributes(list: seq<Attribute>, out0: Bytes) returns (out: Bytes)
    ensures out == out0 + AttributesText(list)
  {
    hide QuotedText, AttributesText;
    out := out0;
    var i := 0;
    assert list[0..] == list;
    while i < |list|
      invariant 0 <= i <= |list| && out + AttributesText(list[i..]) == out0 + AttributesText(list)
    {
      FirstAttribute(out, list[i..]);
      assert list[i..][1..] == list[i + 1..];
      out := PrintQuoted(list[i].value, out + [0x20] + list[i].name + [EQUALS]);
      i := i + 1;
    }
    assert list[i..] == [];
    NoText();
  }

  lemma NoText()
    ensures AttributesText([]) == []
  {
  }

  lemma FirstAttribute(before: Bytes, list: seq<Attribute>)
    requires list != []
    ensures before + AttributesText(list)
         == before + [0x20] + list[0].name + [EQUALS] + QuotedText(list[0].value) + AttributesText(list[1..])
  {
    hide QuotedText;
    var name, quoted, rest := list[0].name, QuotedText(list[0].value), AttributesText(list[1..]);
    assert AttributesText(list) == [0x20] + name + [EQUALS] + quoted + rest;
    hide AttributesText;
    Associate(before, [0x20] + name + [EQUALS] + quoted, rest);
    Associate(before, [0x20] + name + [EQUALS], quoted);
    Associate(before, [0x20] + name, [EQUALS]);
    Associate(before, [0x20], name);
  }

  lemma Associate(a: Bytes, b: Bytes, c: Bytes)
    ensures a + (b + c) == a + b + c
  {
  }

  /** `print_node` and `print_element_node`. */
  method PrintNode(n: Node, out0: Bytes) returns (out: Bytes)
    ensures out == out0 + NodeText(n)
    decreases n, 1
  {
    hide EscapedText, AttributesText, ChildrenText;
    match n
    case Data(text) =>
      out := CopyAndExpand(text, 0, out0);
    case Cdata(text) =>
      out := out0 + [LT] + CDATA_OPEN + text + CDATA_CLOSE;
    case Element(name, value, attributes, children) =>
      out := out0 + [LT] + name;
      out := PrintAttributes(attributes, out);
      ghost var head := out;
      if value == [] && children == [] {
        out := out + [SLASH, GT];
      } else {
        out := out + [GT];
        if children == [] {
          out := CopyAndExpand(value, 0, out);
        } else {
          out := PrintChildren(children, out);
        }
        out := out + [LT, SLASH] + name + [GT];
      }
  }

  /** `print_children`. */
  method PrintChildren(ns: seq<Node>, out0: Bytes) returns (out: Bytes)
    ensures out == out0 + ChildrenText(ns)
    decreases ns, 0
  {
    hide NodeText;
    out := out0;
    var i := 0;
    assert ns[0..] == ns;
    while i < |ns|
      invariant 0 <= i <= |ns| && out + ChildrenText(ns[i..]) == out0 + ChildrenText(ns)
    {
      assert ns[i..][1..] == ns[i + 1..];
      assert out + (NodeText(ns[i]) + ChildrenText(ns[i + 1..])) == out + NodeText(ns[i]) + ChildrenText(ns[i + 1..]);
      out := PrintNode(ns[i], out);
      i := i + 1;
    }
    assert ns[i..] == [];
  }

  /**
    Prints a document, puts the text with its terminating zero into a buffer and parses it there: the nodes show
    the normal form of the document, which is the document itself exactly when it is settled.
   */
  method PrintAndParse(ns: seq<Node>) returns (buf: array<Byte>, children: seq<PNode>)
    requires PrintableAll(ns) && TopBlank(ns)
    ensures NodesIn(children, 0, buf.Length) && ShowNodes(buf[..], children) == Gather([], ns)
    ensures ShowNodes(buf[..], children) == ns <==> SettledAll(ns)
  {
    hide Printable, Settled, SettledAll, ChildrenText, Parse, ShowNodes, NodesIn, ShowNode, Gather;
    var text := PrintChildren(ns, []);
    assert text == ChildrenText(ns);
    buf := new Byte[|text| + 1](i requires 0 <= i < |text| + 1 => if i < |text| then text[i] else 0);
    assert buf[..buf.Length - 1] == text;
    NormalRoundTrip(ns);
    GatherFixed(ns);
    var where, fault;
    children, where, fault := ParseDocument(buf);
  }
}
