/**
 The documents the parser accepts, as a grammar: spellings of tags, attributes, markup and character
 data with all the whitespace and both kinds of quotes that are allowed, each with its meaning.  The
 parser reads a text if and only if the grammar spells it, and then as what the spelling means.
 */
module XmlGrammar {
  import opened Wrappers
  import opened XmlText
  import opened XmlDecode
  import opened XmlTree
  import opened XmlParserSpec
  import opened XmlPrinterSpec

  // ------------------------------------------------------------- spellings

  /** An attribute with the whitespace in front of it and around its `=`. */
  datatype Att = Att(before: string, name: string, left: string, right: string, quote: char, raw: string)

  /** A tag: a start tag, an end tag if it has a slash, or an empty element if it is sealed. */
  datatype Tag = Tag(space: string, slash: bool, name: string, atts: seq<Att>, end: string, sealed: bool)

  /** The kinds of markup that hold text. */
  datatype Mark = CommentMark | SectionMark | DeclarationMark | OtherMark

  datatype Item =
    | Chars(raw: string)
    | Markup(mark: Mark, raw: string)
    | Single(tag: Tag)
    | Pair(open: Tag, items: seq<Item>, close: Tag)

  function AttText(a: Att): string {
    a.before + (a.name + (a.left + ("=" + (a.right + ([a.quote] + (a.raw + [a.quote]))))))
  }

  function AttsText(atts: seq<Att>): string {
    if atts == [] then "" else AttText(atts[0]) + AttsText(atts[1..])
  }

  function TagText(t: Tag): string {
    "<" + (t.space + ((if t.slash then "/" else "") + (t.name + (AttsText(t.atts) + (t.end + (if t.sealed then "/>" else ">"))))))
  }

  function Opener(m: Mark): string {
    match m
    case CommentMark => "<!--"
    case SectionMark => "<![CDATA["
    case DeclarationMark => "<?"
    case OtherMark => "<!"
  }

  function Closer(m: Mark): string {
    match m
    case CommentMark => "-->"
    case SectionMark => "]]>"
    case DeclarationMark => "?>"
    case OtherMark => ">"
  }

  function ItemText(n: Item): string
    decreases n, 1
  {
    match n
    case Chars(raw) => raw
    case Markup(mark, raw) => Opener(mark) + (raw + Closer(mark))
    case Single(tag) => TagText(tag)
    case Pair(open, items, close) => TagText(open) + (ItemsText(items) + TagText(close))
  }

  function ItemsText(ns: seq<Item>): string
    decreases ns, 0
  {
    if ns == [] then "" else ItemText(ns[0]) + ItemsText(ns[1..])
  }

  // ------------------------------------------------------------- which spellings are good

  predicate GoodAtt(a: Att) {
    && Blank(a.before) && Blank(a.left) && Blank(a.right) && IsName(a.name)
    && (a.quote == '"' || a.quote == '\'') && forall k | 0 <= k < |a.raw| :: a.raw[k] != a.quote
  }

  predicate GoodTag(t: Tag) {
    && Blank(t.space) && Blank(t.end) && IsName(t.name)
    && (forall k | 0 <= k < |t.atts| :: GoodAtt(t.atts[k]))
    && (t.atts != [] ==> t.atts[0].before != "")
    && forall i, j | 0 <= i < j < |t.atts| :: t.atts[i].name != t.atts[j].name
  }

  predicate BlankChars(n: Item) {
    n.Chars? && Blank(n.raw)
  }

  predicate GoodItem(n: Item)
    decreases n, 1
  {
    match n
    case Chars(raw) => raw != "" && forall k | 0 <= k < |raw| :: raw[k] != '<'
    case Markup(mark, raw) => Free(raw, Closer(mark)) && (mark.OtherMark? ==> !Matches(raw, 0, "--") && !Matches(raw, 0, "[CDATA["))
    case Single(tag) => GoodTag(tag) && tag.sealed
    case Pair(open, items, close) =>
      && GoodTag(open) && !open.sealed && !open.slash && GoodTag(close) && !close.sealed && close.slash
      && open.name == close.name && GoodItems(items, false)
  }

  predicate Declares(n: Item) {
    n.Markup? && n.mark.DeclarationMark?
  }

  /** Siblings; `first` says that a declaration may still come. */
  predicate GoodItems(ns: seq<Item>, first: bool)
    decreases ns, 0
  {
    ns != [] ==>
      && GoodItem(ns[0])
      && (ns[0].Chars? && |ns| > 1 ==> !ns[1].Chars?)
      && (Declares(ns[0]) ==> first)
      && GoodItems(ns[1..], first && (Declares(ns[0]) || BlankChars(ns[0])))
  }

  // ------------------------------------------------------------- what they mean

  function AttsMeaning(atts: seq<Att>, o: Options): (r: seq<Attribute>)
    ensures |r| == |atts|
  {
    if atts == [] then []
    else [Attribute(atts[0].name, Value(atts[0].raw, Flags(o.processEntities, true, false)))] + AttsMeaning(atts[1..], o)
  }

  function MarkMeaning(m: Mark, v: string): Node {
    match m
    case CommentMark => Comment(v)
    case SectionMark => Text(v, true)
    case DeclarationMark => Declaration(v)
    case OtherMark => Unknown(v)
  }

  function ItemMeaning(n: Item, o: Options): seq<Node>
    decreases n, 1
  {
    match n
    case Chars(raw) =>
      if Blank(raw) then [] else [Text(Value(raw, Flags(o.processEntities, true, o.collapseWhitespace)), false)]
    case Markup(mark, raw) => [MarkMeaning(mark, Value(raw, Flags(false, true, false)))]
    case Single(tag) => [Element(tag.name, AttsMeaning(tag.atts, o), [])]
    case Pair(open, items, _) => [Element(open.name, AttsMeaning(open.atts, o), ItemsMeaning(items, o))]
  }

  function ItemsMeaning(ns: seq<Item>, o: Options): seq<Node>
    decreases ns, 0
  {
    if ns == [] then [] else ItemMeaning(ns[0], o) + ItemsMeaning(ns[1..], o)
  }

  // ------------------------------------------------------------- documents

  /** An end tag that closes nothing, and whatever stands behind it. */
  datatype Stray = Stray(close: Tag, rest: string)

  datatype Spelt = Spelt(lead: string, bom: bool, items: seq<Item>, stray: Option<Stray>)

  const MARK: string := [0xef as char, 0xbb as char, 0xbf as char]

  function StrayText(x: Option<Stray>): string {
    match x
    case None => ""
    case Some(y) => TagText(y.close) + y.rest
  }

  function SpeltText(d: Spelt): string {
    d.lead + ((if d.bom then MARK else "") + (ItemsText(d.items) + StrayText(d.stray)))
  }

  predicate GoodSpelt(d: Spelt) {
    && Blank(d.lead) && GoodItems(d.items, true) && (d.items != [] || d.stray.Some?)
    && (d.stray.Some? ==> GoodTag(d.stray.value.close) && d.stray.value.close.slash && !d.stray.value.close.sealed)
    && (d.stray == None && d.items[|d.items| - 1].Chars? ==> BlankChars(d.items[|d.items| - 1]))
    && (!d.bom && d.items != [] && d.items[0].Chars? ==> !IsWhiteSpace(At(d.items[0].raw, 0)) && !Matches(d.items[0].raw, 0, MARK))
  }
}
