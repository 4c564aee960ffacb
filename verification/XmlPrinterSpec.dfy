/**
 What a compact `XMLPrinter` writes, and which documents survive being written.
 */
module XmlPrinterSpec {
  import opened XmlText
  import opened XmlDecode
  import opened XmlTree
  import opened XmlParserSpec

  /** The entity of a character, if `PrintString` escapes it; only attribute values escape quotes. */
  function EscapeChar(c: char, restricted: bool): string {
    if c == '&' then "&amp;"
    else if c == '<' then "&lt;"
    else if c == '>' then "&gt;"
    else if c == '"' && !restricted then "&quot;"
    else if c == '\'' && !restricted then "&apos;"
    else [c]
  }

  /** `XMLPrinter::PrintString` with entity processing on. */
  function Escape(v: string, restricted: bool): string {
    if v == "" then "" else EscapeChar(v[0], restricted) + Escape(v[1..], restricted)
  }

  function PrintAttribute(a: Attribute): string {
    " " + a.name + "=\"" + Escape(a.value, false) + "\""
  }

  function PrintAttributes(atts: seq<Attribute>): string {
    if atts == [] then "" else PrintAttribute(atts[0]) + PrintAttributes(atts[1..])
  }

  function PrintNode(n: Node): string
    decreases n, 1
  {
    match n
    case Element(name, atts, children) =>
      "<" + name + PrintAttributes(atts) +
      if children == [] then "/>" else ">" + PrintNodes(children) + "</" + name + ">"
    case Text(v, cdata) => if cdata then "<![CDATA[" + v + "]]>" else Escape(v, true)
    case Comment(v) => "<!--" + v + "-->"
    case Declaration(v) => "<?" + v + "?>"
    case Unknown(v) => "<!" + v + ">"
  }

  function PrintNodes(ns: seq<Node>): string
    decreases ns, 0
  {
    if ns == [] then "" else PrintNode(ns[0]) + PrintNodes(ns[1..])
  }

  function PrintDocument(d: Document): string {
    (if d.bom then BOM else "") + PrintNodes(d.children)
  }

  // ------------------------------------------------------------- well-formed trees

  predicate IsName(name: string) {
    name != "" && IsNameStartChar(name[0]) && forall k | 0 <= k < |name| :: IsNameChar(name[k])
  }

  predicate Free(v: string, tag: string) {
    forall k | 0 <= k < |v| :: !Matches(v, k, tag)
  }

  predicate DistinctNames(atts: seq<Attribute>) {
    forall i, j | 0 <= i < j < |atts| :: atts[i].name != atts[j].name
  }

  ghost predicate GoodAttributes(atts: seq<Attribute>) {
    && DistinctNames(atts)
    && forall k | 0 <= k < |atts| :: IsName(atts[k].name) && NulFree(atts[k].value)
  }

  /**
   A tree whose markup can be told apart once written: names are names, and no body
   contains its own end tag.  Below the document there are no declarations.
   */
  ghost predicate WellFormed(n: Node)
    decreases n, 1
  {
    match n
    case Element(name, atts, children) =>
      IsName(name) && NulFree(name) && GoodAttributes(atts) && AllWellFormed(children)
      && forall k | 0 <= k < |children| :: !children[k].Declaration?
    case Text(v, cdata) => NulFree(v) && (cdata ==> Free(v, "]]>"))
    case Comment(v) => NulFree(v) && Free(v, "-->")
    case Declaration(v) => NulFree(v) && Free(v, "?>")
    case Unknown(v) => NulFree(v) && Free(v, ">") && !Matches(v, 0, "--") && !Matches(v, 0, "[CDATA[")
  }

  ghost predicate AllWellFormed(ns: seq<Node>)
    decreases ns, 0
  {
    ns != [] ==> WellFormed(ns[0]) && AllWellFormed(ns[1..])
  }

  /** Declarations come before everything else. */
  ghost predicate DeclarationsFirst(ns: seq<Node>) {
    forall i, j | 0 <= i < j < |ns| && ns[j].Declaration? :: ns[i].Declaration?
  }

  ghost predicate WellFormedDocument(d: Document) {
    AllWellFormed(d.children) && DeclarationsFirst(d.children)
  }

  // ------------------------------------------------------------- what reading back makes of a tree

  predicate IsPlainText(n: Node) {
    n.Text? && !n.cdata
  }

  predicate Blank(v: string) {
    forall k | 0 <= k < |v| :: IsWhiteSpace(v[k])
  }

  /** Newline normalisation: what any written value is read back as. */
  function Normal(v: string): string {
    Decoded(v, MARKUP_FLAGS)
  }

  function NormalAttributes(atts: seq<Attribute>): seq<Attribute> {
    if atts == [] then []
    else [Attribute(atts[0].name, Normal(atts[0].value))] + NormalAttributes(atts[1..])
  }

  /** The number of plain text nodes at the front. */
  function TextRun(ns: seq<Node>): (m: nat)
    ensures m <= |ns|
    ensures forall k | 0 <= k < m :: IsPlainText(ns[k])
    ensures m < |ns| ==> !IsPlainText(ns[m])
  {
    if ns != [] && IsPlainText(ns[0]) then
      var m := TextRun(ns[1..]);
      assert forall k | 0 < k < m + 1 :: ns[k] == ns[1..][k - 1];
      m + 1
    else 0
  }

  function RunText(ns: seq<Node>): string
    requires forall k | 0 <= k < |ns| :: IsPlainText(ns[k])
  {
    if ns == [] then "" else
      assert IsPlainText(ns[0]);
      ns[0].value + RunText(ns[1..])
  }

  /**
   What a written sequence of siblings reads back as: neighbouring plain texts become one,
   a text of whitespace only disappears, and line ends are normalised.
   */
  function NormalNodes(ns: seq<Node>): seq<Node>
    decreases ns, 0
  {
    if ns == [] then []
    else if IsPlainText(ns[0]) then
      var m := TextRun(ns);
      var v := RunText(ns[..m]);
      (if Blank(v) then [] else [Text(Normal(v), false)]) + NormalNodes(ns[m..])
    else [NormalNode(ns[0])] + NormalNodes(ns[1..])
  }

  function NormalNode(n: Node): Node
    decreases n, 1
  {
    match n
    case Element(name, atts, children) => Element(name, NormalAttributes(atts), NormalNodes(children))
    case Text(v, cdata) => Text(Normal(v), cdata)
    case Comment(v) => Comment(Normal(v))
    case Declaration(v) => Declaration(Normal(v))
    case Unknown(v) => Unknown(Normal(v))
  }

  // ------------------------------------------------------------- examples

  /** Every character that is escaped, in an attribute value and in a text. */
  lemma EscapedSample()
    ensures Escape("\"<'&>", false) == "&quot;&lt;&apos;&amp;&gt;"
    ensures Escape("<\"", true) == "&lt;\""
  {
  }

  lemma MarkupSample()
    ensures PrintNode(Comment("c")) == "<!--c-->" && PrintNode(Declaration("d")) == "<?d?>" && PrintNode(Unknown("u")) == "<!u>"
    ensures PrintNode(Text("t", true)) == "<![CDATA[t]]>"
  {
  }

  lemma AttributeSample()
    ensures PrintAttributes([Attribute("k", "v")]) == " k=\"v\""
  {
    assert [Attribute("k", "v")][1..] == [];
  }

  lemma TagSample(c: string)
    ensures PrintNode(Element("a", [], [])) == "<a/>"
    ensures PrintNode(Element("a", [], [Text(c, true)])) == "<a>" + PrintNode(Text(c, true)) + "</a>"
  {
    var t := Text(c, true);
    assert PrintNodes([t]) == PrintNode(t) by { hide PrintNode; assert [t][1..] == []; }
  }
}
