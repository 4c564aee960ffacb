/**
 What the parser accepts and builds, as functions on the text.

 Offsets play the part of the source's pointers.  `ParseLoop` is `XMLNode::ParseDeep`,
 `ParseElement` is `XMLElement::ParseDeep`, and `Failed` carries the error and line the
 document ends up with.
 */
module XmlParserSpec {
  import opened Wrappers
  import opened XmlText
  import opened XmlDecode
  import opened XmlTree

  datatype XmlError =
    | XML_ERROR_PARSING_ELEMENT
    | XML_ERROR_PARSING_ATTRIBUTE
    | XML_ERROR_PARSING_TEXT
    | XML_ERROR_PARSING_CDATA
    | XML_ERROR_PARSING_COMMENT
    | XML_ERROR_PARSING_DECLARATION
    | XML_ERROR_PARSING_UNKNOWN
    | XML_ERROR_EMPTY_DOCUMENT
    | XML_ERROR_MISMATCHED_ELEMENT
    | XML_ERROR_PARSING

  /** The two construction options of an `XMLDocument`. */
  datatype Options = Options(processEntities: bool, collapseWhitespace: bool) {
    function TextFlags(): Flags { Flags(processEntities, true, collapseWhitespace) }
    function AttributeFlags(): Flags { Flags(processEntities, true, false) }
  }

  const DEFAULT_OPTIONS := Options(true, false)

  /** The flags of comments, declarations, unknowns and CDATA sections. */
  const MARKUP_FLAGS := Flags(false, true, false)

  datatype ClosingType = OPEN | CLOSED | CLOSING

  // ------------------------------------------------------------- attributes

  datatype AttributeResult = NoAttribute | OneAttribute(attribute: ParsedAttribute, next: nat)

  /** `XMLAttribute::ParseDeep`; the name has been read once, so it is flushed. */
  function ParseAttribute(s: string, i: nat, o: Options): (r: AttributeResult)
    requires i < |s| && IsNameStartChar(s[i])
    ensures r.OneAttribute? ==> i < r.next <= |s|
    ensures r.OneAttribute? ==> var a := r.attribute;
            i == a.name.start < a.name.end < a.value.start <= a.value.end < r.next
  {
    var e := NameEnd(s, i + 1);
    var eq := SkipWs(s, e);
    if eq >= |s| || s[eq] != '=' then NoAttribute
    else
      var quote := SkipWs(s, eq + 1);
      if quote >= |s| || (s[quote] != '"' && s[quote] != '\'') then NoAttribute
      else match FindTag(s, quote + 1, [s[quote]])
        case None => NoAttribute
        case Some(j) =>
          OneAttribute(ParsedAttribute(LineAt(s, i), StrPair(i, e, PLAIN, false),
                                       StrPair(quote + 1, j, o.AttributeFlags(), true)), j + 1)
  }

  predicate HasAttribute(s: string, atts: seq<ParsedAttribute>, name: string) {
    exists k | 0 <= k < |atts| :: PairValue(s, atts[k].name) == name
  }

  datatype AttributesResult =
    | AttributesFailed(error: XmlError, line: nat)
    | Attributes(list: seq<ParsedAttribute>, next: nat, sealed: bool)

  /** `XMLElement::ParseAttributes`; `sealed` says the tag ended in `/>`. */
  function ParseAttributes(s: string, i: nat, line: nat, acc: seq<ParsedAttribute>, o: Options): (r: AttributesResult)
    requires i <= |s|
    ensures r.Attributes? ==> i < r.next <= |s|
    decreases |s| - i
  {
    var j := SkipWs(s, i);
    if j == |s| then AttributesFailed(XML_ERROR_PARSING_ELEMENT, line)
    else if IsNameStartChar(s[j]) then
      match ParseAttribute(s, j, o)
      case NoAttribute => AttributesFailed(XML_ERROR_PARSING_ATTRIBUTE, LineAt(s, j))
      case OneAttribute(a, next) =>
        if HasAttribute(s, acc, PairValue(s, a.name)) then
          AttributesFailed(XML_ERROR_PARSING_ATTRIBUTE, LineAt(s, j))
        else ParseAttributes(s, next, line, acc + [a], o)
    else if s[j] == '>' then Attributes(acc, j + 1, false)
    else if s[j] == '/' && At(s, j + 1) == '>' then Attributes(acc, j + 2, true)
    else AttributesFailed(XML_ERROR_PARSING_ELEMENT, line)
  }

  // ------------------------------------------------------------- nodes

  datatype Kind = KDeclaration | KComment | KCData | KUnknown | KElement | KText

  /** `XMLDocument::Identify` on a non-empty rest: the kind, and where its parser starts. */
  function Identify(s: string, i: nat): (r: (Kind, nat))
    requires i <= |s| && SkipWs(s, i) < |s|
    ensures if r.0.KText? then r.1 == i && s[SkipWs(s, i)] != '<' else SkipWs(s, i) < r.1 <= |s|
  {
    var p := SkipWs(s, i);
    if Matches(s, p, "<?") then (KDeclaration, p + 2)
    else if Matches(s, p, "<!--") then (KComment, p + 4)
    else if Matches(s, p, "<![CDATA[") then (KCData, p + 9)
    else if Matches(s, p, "<!") then (KUnknown, p + 2)
    else if Matches(s, p, "<") then (KElement, p + 1)
    else
      assert s[p..p + 1] == [s[p]];
      (KText, i)
  }

  datatype NodeResult =
    | NodeFailed(error: Option<XmlError>, line: nat)
    | NodeParsed(node: Parsed, closing: ClosingType, endTag: Option<StrPair>, next: nat)

  datatype LoopResult =
    | LoopFailed(error: XmlError, line: nat)
    | LoopEnded(nodes: seq<Parsed>)
    | LoopClosed(nodes: seq<Parsed>, endTag: StrPair, next: nat)

  /** The end tag, the error and the node of the kinds whose body is all text. */
  function EndTagOf(kind: Kind): string {
    match kind
    case KDeclaration => "?>"
    case KComment => "-->"
    case KCData => "]]>"
    case _ => ">"
  }

  function ErrorOf(kind: Kind): XmlError {
    match kind
    case KDeclaration => XML_ERROR_PARSING_DECLARATION
    case KComment => XML_ERROR_PARSING_COMMENT
    case KCData => XML_ERROR_PARSING_CDATA
    case _ => XML_ERROR_PARSING_UNKNOWN
  }

  function MarkupNode(kind: Kind, line: nat, v: StrPair): Parsed {
    match kind
    case KDeclaration => PDeclaration(line, v)
    case KComment => PComment(line, v)
    case KCData => PText(line, v, true)
    case _ => PUnknown(line, v)
  }

  function ParseMarkup(s: string, i: nat, kind: Kind, line: nat): (r: NodeResult)
    requires i <= |s|
    ensures r.NodeParsed? ==> i < r.next <= |s|
  {
    match FindTag(s, i, EndTagOf(kind))
    case None => NodeFailed(Some(ErrorOf(kind)), line)
    case Some(j) =>
      NodeParsed(MarkupNode(kind, line, StrPair(i, j, MARKUP_FLAGS, true)), OPEN, None, j + |EndTagOf(kind)|)
  }

  /** A plain text node: it fails, without an error of its own, when its `<` ends the document. */
  function ParsePlainText(s: string, i: nat, line: nat, o: Options): (r: NodeResult)
    requires i <= |s| && SkipWs(s, i) < |s| && s[SkipWs(s, i)] != '<'
    ensures r.NodeParsed? ==> i < r.next <= |s|
  {
    match FindTag(s, i, "<")
    case None => NodeFailed(Some(XML_ERROR_PARSING_TEXT), line)
    case Some(j) =>
      if j + 1 == |s| then NodeFailed(None, line)
      else
        assert s[j..j + 1] == [s[j]];
        assert i < j by { if i == j { SkipWsAt(s, i, i); } }
        NodeParsed(PText(line, StrPair(i, j, o.TextFlags(), true), false), OPEN, None, j)
  }

  /** `XMLElement::ParseDeep`, from behind the `<`. */
  function ParseElement(s: string, i: nat, line: nat, o: Options): (r: NodeResult)
    requires i <= |s|
    ensures r.NodeParsed? ==> r.node.PElement? && i < r.next <= |s|
    ensures r.NodeParsed? ==> i <= r.node.name.start < r.node.name.end <= |s|
    decreases |s| - i, 0
  {
    var j := SkipWs(s, i);
    var slash := At(s, j) == '/';
    var start := if slash then j + 1 else j;
    if start >= |s| || !IsNameStartChar(s[start]) then NodeFailed(None, line)
    else
      var e := NameEnd(s, start + 1);
      var name := StrPair(start, e, PLAIN, true);
      match ParseAttributes(s, e, line, [], o)
      case AttributesFailed(error, l) => NodeFailed(Some(error), l)
      case Attributes(list, next, sealed) =>
        var closing := if sealed then CLOSED else if slash then CLOSING else OPEN;
        if next == |s| || closing != OPEN then
          NodeParsed(PElement(line, name, list, []), closing, None, next)
        else match ParseLoop(s, next, false, [], o)
          case LoopFailed(error, l) => NodeFailed(Some(error), l)
          case LoopEnded(_) => NodeFailed(None, line)
          case LoopClosed(children, endTag, after) =>
            NodeParsed(PElement(line, name, list, children), OPEN, Some(endTag), after)
  }

  function ParseNode(s: string, i: nat, kind: Kind, line: nat, o: Options): (r: NodeResult)
    requires i <= |s| && (kind.KText? ==> SkipWs(s, i) < |s| && s[SkipWs(s, i)] != '<')
    ensures r.NodeParsed? ==> i < r.next <= |s|
    ensures r.NodeParsed? ==> (r.node.PElement? <==> kind.KElement?)
    ensures r.NodeParsed? && kind.KElement? ==> i <= r.node.name.start < r.node.name.end <= |s|
    decreases |s| - i, 1
  {
    match kind
    case KElement => ParseElement(s, i, line, o)
    case KText => ParsePlainText(s, i, line, o)
    case _ => ParseMarkup(s, i, kind, line)
  }

  /** Declarations go first, and only into the document itself. */
  predicate WellLocated(inDocument: bool, existing: seq<Parsed>) {
    inDocument && forall k | 0 <= k < |existing| :: existing[k].PDeclaration?
  }

  /** The end tag read by the child must close an open element of the same name. */
  predicate Mismatch(s: string, name: StrPair, closing: ClosingType, endTag: Option<StrPair>)
    requires name.start <= name.end <= |s|
  {
    match endTag
    case None => closing == OPEN
    case Some(e) => closing != OPEN || PairValue(s, e) != PairValue(s, name)
  }

  /** Comparing the names flushes the element's. */
  function AfterComparison(n: Parsed, endTag: Option<StrPair>): Parsed {
    if n.PElement? && endTag.Some? then n.(name := n.name.(flush := false)) else n
  }

  /** `XMLNode::ParseDeep`, with the children linked in so far in `acc`. */
  function ParseLoop(s: string, i: nat, inDocument: bool, acc: seq<Parsed>, o: Options): (r: LoopResult)
    requires i <= |s|
    ensures r.LoopClosed? ==> i < r.next <= |s|
    ensures r.LoopClosed? ==> i < r.endTag.start <= r.endTag.end <= |s|
    decreases |s| - i, 2
  {
    var j := SkipWs(s, i);
    if j == |s| then LoopEnded(acc)
    else
      var (kind, start) := Identify(s, i);
      var line := LineAt(s, j);
      match ParseNode(s, start, kind, line, o)
      case NodeFailed(error, l) =>
        if error.Some? then LoopFailed(error.value, l) else LoopFailed(XML_ERROR_PARSING, line)
      case NodeParsed(node, closing, endTag, next) =>
        if node.PDeclaration? && !WellLocated(inDocument, acc) then
          LoopFailed(XML_ERROR_PARSING_DECLARATION, line)
        else if node.PElement? && closing == CLOSING then
          LoopClosed(acc, node.name, next)
        else if node.PElement? && Mismatch(s, node.name, closing, endTag) then
          LoopFailed(XML_ERROR_MISMATCHED_ELEMENT, line)
        else
          ParseLoop(s, next, inDocument, acc + [AfterComparison(node, endTag)], o)
  }

  // ------------------------------------------------------------- documents

  const BOM: string := [0xef as char, 0xbb as char, 0xbf as char]

  datatype ParseResult =
    | ParseFailed(error: XmlError, line: nat)
    | ParsedDocument(bom: bool, nodes: seq<Parsed>)

  /** `XMLDocument::Parse` on the bytes before the first NUL. */
  function ParseDocument(s: string, o: Options): ParseResult {
    var i := SkipWs(s, 0);
    var bom := Matches(s, i, BOM);
    var p := if bom then i + 3 else i;
    if p == |s| then ParseFailed(XML_ERROR_EMPTY_DOCUMENT, 0)
    else match ParseLoop(s, p, true, [], o)
      case LoopFailed(error, line) => ParseFailed(error, line)
      case LoopEnded(nodes) => ParsedDocument(bom, nodes)
      // a closing tag that closes nothing ends the document without an error
      case LoopClosed(nodes, _, _) => ParsedDocument(bom, nodes)
  }

  datatype ReadResult = ReadFailed(error: XmlError, line: nat) | Read(document: Document)

  /** Parsing, then reading every string. */
  function ReadDocument(s: string, o: Options): ReadResult {
    match ParseDocument(s, o)
    case ParseFailed(error, line) => ReadFailed(error, line)
    case ParsedDocument(bom, nodes) => Read(Document(bom, DecodeNodes(s, nodes)))
  }
}
