/**
 Document trees: as an application sees them (`Node`, strings already decoded) and as the
 parser leaves them (`Parsed`, every string still a `StrPair` into the character buffer).
 */
module XmlTree {
  import opened XmlText
  import opened XmlDecode

  // ------------------------------------------------------------- decoded trees

  datatype Attribute = Attribute(name: string, value: string)

  datatype Node =
    | Element(name: string, attributes: seq<Attribute>, children: seq<Node>)
    | Text(value: string, cdata: bool)
    | Comment(value: string)
    | Declaration(value: string)
    | Unknown(value: string)

  datatype Document = Document(bom: bool, children: seq<Node>)

  // ------------------------------------------------------------- parsed trees

  /**
   `_start`, `_end` and `_flags` of a `StrPair`, as offsets into the buffer; `flush` is
   `NEEDS_FLUSH`: the terminator is not written yet and the flags are still to be applied.
   */
  datatype StrPair = StrPair(start: nat, end: nat, flags: Flags, flush: bool)

  datatype ParsedAttribute = ParsedAttribute(line: nat, name: StrPair, value: StrPair)

  datatype Parsed =
    | PElement(line: nat, name: StrPair, attributes: seq<ParsedAttribute>, children: seq<Parsed>)
    | PText(line: nat, value: StrPair, cdata: bool)
    | PComment(line: nat, value: StrPair)
    | PDeclaration(line: nat, value: StrPair)
    | PUnknown(line: nat, value: StrPair)

  // ------------------------------------------------------------- decoding a parsed tree

  /** The string a `StrPair` of the text `s` stands for. */
  function PairValue(s: string, sp: StrPair): string {
    if sp.start <= sp.end <= |s| then Value(s[sp.start..sp.end], sp.flags) else ""
  }

  function DecodeAttributes(s: string, atts: seq<ParsedAttribute>): (r: seq<Attribute>)
    ensures |r| == |atts|
  {
    if atts == [] then []
    else [Attribute(PairValue(s, atts[0].name), PairValue(s, atts[0].value))] + DecodeAttributes(s, atts[1..])
  }

  function DecodeNode(s: string, n: Parsed): Node
    decreases n, 1
  {
    match n
    case PElement(_, name, atts, children) =>
      Element(PairValue(s, name), DecodeAttributes(s, atts), DecodeNodes(s, children))
    case PText(_, v, cdata) => Text(PairValue(s, v), cdata)
    case PComment(_, v) => Comment(PairValue(s, v))
    case PDeclaration(_, v) => Declaration(PairValue(s, v))
    case PUnknown(_, v) => Unknown(PairValue(s, v))
  }

  function DecodeNodes(s: string, ns: seq<Parsed>): (r: seq<Node>)
    ensures |r| == |ns|
    decreases ns, 0
  {
    if ns == [] then [] else [DecodeNode(s, ns[0])] + DecodeNodes(s, ns[1..])
  }

  lemma {:induction false} DecodeNodesAppend(s: string, a: seq<Parsed>, b: seq<Parsed>)
    ensures DecodeNodes(s, a + b) == DecodeNodes(s, a) + DecodeNodes(s, b)
  {
    if a == [] {
      assert a + b == b;
    } else {
      assert (a + b)[0] == a[0] && (a + b)[1..] == a[1..] + b;
      DecodeNodesAppend(s, a[1..], b);
    }
  }

  lemma {:induction false} DecodeAttributesAppend(s: string, a: seq<ParsedAttribute>, b: seq<ParsedAttribute>)
    ensures DecodeAttributes(s, a + b) == DecodeAttributes(s, a) + DecodeAttributes(s, b)
  {
    if a == [] {
      assert a + b == b;
    } else {
      assert (a + b)[0] == a[0] && (a + b)[1..] == a[1..] + b;
      DecodeAttributesAppend(s, a[1..], b);
    }
  }

  // ------------------------------------------------------------- the StrPairs of a tree

  function AttributePairs(atts: seq<ParsedAttribute>): seq<StrPair> {
    if atts == [] then [] else [atts[0].name, atts[0].value] + AttributePairs(atts[1..])
  }

  /** All `StrPair`s of a node, in document order. */
  function Pairs(n: Parsed): seq<StrPair>
    decreases n, 1
  {
    match n
    case PElement(_, name, atts, children) => [name] + AttributePairs(atts) + AllPairs(children)
    case PText(_, v, _) => [v]
    case PComment(_, v) => [v]
    case PDeclaration(_, v) => [v]
    case PUnknown(_, v) => [v]
  }

  function AllPairs(ns: seq<Parsed>): seq<StrPair>
    decreases ns, 0
  {
    if ns == [] then [] else Pairs(ns[0]) + AllPairs(ns[1..])
  }

  lemma {:induction false} AllPairsAppend(a: seq<Parsed>, b: seq<Parsed>)
    ensures AllPairs(a + b) == AllPairs(a) + AllPairs(b)
  {
    if a == [] {
      assert a + b == b;
    } else {
      assert (a + b)[0] == a[0] && (a + b)[1..] == a[1..] + b;
      AllPairsAppend(a[1..], b);
      assert Pairs(a[0]) + (AllPairs(a[1..]) + AllPairs(b)) == (Pairs(a[0]) + AllPairs(a[1..])) + AllPairs(b);
    }
  }

  lemma {:induction false} AttributePairsAppend(a: seq<ParsedAttribute>, b: seq<ParsedAttribute>)
    ensures AttributePairs(a + b) == AttributePairs(a) + AttributePairs(b)
  {
    if a == [] {
      assert a + b == b;
    } else {
      assert (a + b)[0] == a[0] && (a + b)[1..] == a[1..] + b;
      AttributePairsAppend(a[1..], b);
    }
  }
}
