/**
 What is wrong with a text that is no document: each fault the parser reports, as it looks in the
 text, with its error code and line.  A fault stops the parser wherever it stands, however deep.
 */
module XmlFaults {
  import opened Wrappers
  import opened XmlText
  import opened XmlDecode
  import opened XmlTree
  import opened XmlParserSpec
  import opened XmlPrinterSpec
  import opened XmlRoundTrip
  import opened XmlGrammar
  import opened XmlSpeltRead

  // ------------------------------------------------------------- the faults

  /** Where an attribute breaks off: its name is not followed by `=`, that not by a quote, or that not by another. */
  datatype Cut = NoEquals(left: string) | NoQuote(left: string, right: string) | NoEndQuote(left: string, right: string, quote: char)

  /** The front of a tag: all up to some attribute. */
  datatype Front = Front(space: string, slash: bool, name: string, atts: seq<Att>)

  datatype Fault =
    | OpenMarkup(mark: Mark)
    | OpenText
    | LoneBracket(raw: string)
    | NoName(space: string, slash: bool)
    | BrokenTag(front: Front, gap: string)
    | BrokenAttribute(front: Front, gap: string, name: string, cut: Cut)
    | DoubledAttribute(front: Front, att: Att)
    | LateDeclaration(raw: string)
    | WrongEnd(open: Tag, items: seq<Item>, close: Tag)
    | TagAtEnd(open: Tag)
    | NoEndTag(open: Tag, items: seq<Item>)

  function ErrorCode(f: Fault): XmlError {
    match f
    case OpenMarkup(mark) => (
      match mark
      case CommentMark => XML_ERROR_PARSING_COMMENT
      case SectionMark => XML_ERROR_PARSING_CDATA
      case DeclarationMark => XML_ERROR_PARSING_DECLARATION
      case OtherMark => XML_ERROR_PARSING_UNKNOWN)
    case OpenText => XML_ERROR_PARSING_TEXT
    case LoneBracket(_) => XML_ERROR_PARSING
    case NoName(_, _) => XML_ERROR_PARSING
    case BrokenTag(_, _) => XML_ERROR_PARSING_ELEMENT
    case BrokenAttribute(_, _, _, _) => XML_ERROR_PARSING_ATTRIBUTE
    case DoubledAttribute(_, _) => XML_ERROR_PARSING_ATTRIBUTE
    case LateDeclaration(_) => XML_ERROR_PARSING_DECLARATION
    case WrongEnd(_, _, _) => XML_ERROR_MISMATCHED_ELEMENT
    case TagAtEnd(_) => XML_ERROR_MISMATCHED_ELEMENT
    case NoEndTag(_, _) => XML_ERROR_PARSING
  }

  function FrontText(f: Front): string {
    "<" + (f.space + ((if f.slash then "/" else "") + (f.name + AttsText(f.atts))))
  }

  /** How far into the fault the line is counted: attributes have lines of their own, and so has a text after blank lines. */
  function Offset(s: string, i: nat, f: Fault): nat
    requires i <= |s|
  {
    match f
    case OpenText => SkipWs(s, i) - i
    case LoneBracket(_) => SkipWs(s, i) - i
    case BrokenAttribute(front, gap, _, _) => |FrontText(front)| + |gap|
    case DoubledAttribute(front, att) => |FrontText(front)| + |att.before|
    case _ => 0
  }

  predicate GoodFront(f: Front) {
    && Blank(f.space) && IsName(f.name) && (forall k | 0 <= k < |f.atts| :: GoodAtt(f.atts[k]))
    && (f.atts != [] ==> f.atts[0].before != "")
    && forall i, j | 0 <= i < j < |f.atts| :: f.atts[i].name != f.atts[j].name
  }

  /** How the text goes on behind the name of a broken attribute. */
  ghost predicate BreaksAt(s: string, e: nat, b: Cut) {
    match b
    case NoEquals(left) => Blank(left) && Matches(s, e, left) && At(s, e + |left|) != '=' && !IsWhiteSpace(At(s, e + |left|)) && !IsNameChar(At(s, e))
    case NoQuote(left, right) =>
      var q := e + |left| + 1 + |right|;
      Blank(left) && Blank(right) && Matches(s, e, left + "=" + right) && At(s, q) != '"' && At(s, q) != '\'' && !IsWhiteSpace(At(s, q))
    case NoEndQuote(left, right, quote) =>
      var q := e + |left| + 1 + |right|;
      && Blank(left) && Blank(right) && (quote == '"' || quote == '\'') && Matches(s, e, left + "=" + right + [quote])
      && forall k | q < k < |s| :: s[k] != quote
  }

  /** The fault is what the text has at `i`; `first` says that a declaration would be in place. */
  ghost predicate FaultAt(s: string, i: nat, f: Fault, first: bool)
    requires i <= |s|
  {
    match f
    case OpenMarkup(m) =>
      && Matches(s, i, Opener(m)) && (forall k | i + |Opener(m)| <= k < |s| :: !Matches(s, k, Closer(m)))
      && (m.OtherMark? ==> !Matches(s, i + 2, "--") && !Matches(s, i + 2, "[CDATA["))
    case OpenText => SkipWs(s, i) < |s| && forall k | i <= k < |s| :: s[k] != '<'
    case LoneBracket(raw) => GoodItem(Chars(raw)) && !Blank(raw) && s[i..] == raw + "<"
    case NoName(space, slash) =>
      var j := i + 1 + |space|; var n := if slash then j + 1 else j;
      && Blank(space) && Matches(s, i, "<" + space) && (At(s, j) == '/' <==> slash) && !IsNameStartChar(At(s, n))
      && (!slash ==> !IsWhiteSpace(At(s, j))) && At(s, i + 1) != '?' && At(s, i + 1) != '!'
    case BrokenTag(front, gap) =>
      var n := i + |FrontText(front)|; var j := n + |gap|;
      && GoodFront(front) && Blank(gap) && Matches(s, i, FrontText(front)) && Matches(s, n, gap) && !IsWhiteSpace(At(s, j))
      && !IsNameStartChar(At(s, j)) && At(s, j) != '>' && !(At(s, j) == '/' && At(s, j + 1) == '>') && !IsNameChar(At(s, n))
    case BrokenAttribute(front, gap, name, b) =>
      var n := i + |FrontText(front)|; var j := n + |gap|;
      && GoodFront(front) && Blank(gap) && (front.atts == [] ==> gap != "") && IsName(name)
      && Matches(s, i, FrontText(front)) && Matches(s, n, gap) && Matches(s, j, name) && BreaksAt(s, j + |name|, b)
    case DoubledAttribute(front, att) =>
      && GoodFront(front) && GoodAtt(att) && Matches(s, i, FrontText(front)) && Matches(s, i + |FrontText(front)|, AttText(att))
      && exists k :: 0 <= k < |front.atts| && front.atts[k].name == att.name
    case LateDeclaration(raw) => !first && GoodItem(Markup(DeclarationMark, raw)) && Matches(s, i, ItemText(Markup(DeclarationMark, raw)))
    case WrongEnd(open, items, close) =>
      && GoodTag(open) && !open.sealed && !open.slash && GoodTag(close) && !close.sealed && close.slash && open.name != close.name
      && GoodItems(items, false) && Matches(s, i, TagText(open) + (ItemsText(items) + TagText(close)))
    case TagAtEnd(open) => GoodTag(open) && !open.sealed && !open.slash && s[i..] == TagText(open)
    case NoEndTag(open, items) =>
      && GoodTag(open) && !open.sealed && !open.slash && GoodItems(items, false) && items != []
      && (items[|items| - 1].Chars? ==> BlankChars(items[|items| - 1])) && s[i..] == TagText(open) + ItemsText(items)
  }

  // ------------------------------------------------------------- faults of markup and text

  lemma {:induction false} OpenMarkupFails(s: string, i: nat, m: Mark, inDocument: bool, acc: seq<Parsed>, o: Options, first: bool)
    requires i <= |s| && FaultAt(s, i, OpenMarkup(m), first)
    ensures ParseLoop(s, i, inDocument, acc, o) == LoopFailed(ErrorCode(OpenMarkup(m)), LineAt(s, i))
  {
    hide SkipWs, LineAt, Identify, FindTag, Opener, Closer, EndTagOf, Header, Matches;
    MarkTable(m);
    MatchesBounds(s, i, Opener(m));
    HeaderIdentified(s, i, KindOfMark(m));
    var start := i + |Opener(m)|;
    assert FindTag(s, start, Closer(m)) == None by {
      var r := FindTag(s, start, Closer(m));
      if r.Some? {
        MatchesBounds(s, r.value, Closer(m));
        CloserThere(m);
      }
    }
  }

  lemma CloserThere(m: Mark)
    ensures Closer(m) != ""
  {
  }

  lemma {:induction false} OpenTextFails(s: string, i: nat, inDocument: bool, acc: seq<Parsed>, o: Options, first: bool)
    requires i <= |s| && FaultAt(s, i, OpenText, first)
    ensures ParseLoop(s, i, inDocument, acc, o) == LoopFailed(XML_ERROR_PARSING_TEXT, LineAt(s, SkipWs(s, i)))
  {
    hide SkipWs, LineAt, Identify;
    IdentifyText(s, i);
    var r := FindTag(s, i, "<");
    if r.Some? {
      MatchesChar(s, r.value, "<", 0);
    }
  }

  lemma {:induction false} LoneBracketFails(s: string, i: nat, raw: string, inDocument: bool, acc: seq<Parsed>, o: Options, first: bool)
    requires i <= |s| && FaultAt(s, i, LoneBracket(raw), first)
    ensures ParseLoop(s, i, inDocument, acc, o) == LoopFailed(XML_ERROR_PARSING, LineAt(s, SkipWs(s, i)))
  {
    hide SkipWs, LineAt, Identify, Blank, FindTag, Matches;
    Whole(s, i, raw, "<");
    NotBlank(s, i, raw);
    IdentifyText(s, i);
    FreeOfCharacter(raw, '<');
    assert "<" == ['<'];
    MatchesConcat(s, i, raw, "<");
    FindTagAfter(s, i, raw, "<");
  }

  lemma Whole(s: string, i: nat, a: string, b: string)
    requires i <= |s| && s[i..] == a + b
    ensures Matches(s, i, a) && Matches(s, i + |a|, b) && i + |a| + |b| == |s|
  {
    Behind(s, i, a, b);
  }

  lemma {:induction false} LateDeclarationFails(s: string, i: nat, raw: string, inDocument: bool, acc: seq<Parsed>, o: Options)
    requires i <= |s| && FaultAt(s, i, LateDeclaration(raw), WellLocated(inDocument, acc))
    ensures ParseLoop(s, i, inDocument, acc, o) == LoopFailed(XML_ERROR_PARSING_DECLARATION, LineAt(s, i))
  {
    hide SkipWs, LineAt, Identify, Matches, ParseMarkup, WellLocated, ItemText, GoodItem;
    var start := MarkIdentified(s, i, DeclarationMark, raw);
    MarkParsed(s, start, DeclarationMark, raw, LineAt(s, i));
    assert ParseNode(s, start, KDeclaration, LineAt(s, i), o) == ParseMarkup(s, start, KDeclaration, LineAt(s, i));
  }

  // ------------------------------------------------------------- faults of tags

  /** Where the parts of the front of a tag are. */
  lemma {:induction false} FrontSplit(s: string, i: nat, f: Front)
    requires Matches(s, i, FrontText(f))
    ensures var j := i + 1 + |f.space|; var n := j + (if f.slash then 1 else 0); var e := n + |f.name|;
      && Matches(s, i, "<") && Matches(s, i + 1, f.space) && Matches(s, j, if f.slash then "/" else "") && Matches(s, n, f.name)
      && Matches(s, e, AttsText(f.atts)) && i + |FrontText(f)| == e + |AttsText(f.atts)| <= |s|
  {
    hide Matches, AttsText;
    var slash := if f.slash then "/" else "";
    var j := i + 1 + |f.space|;
    var n := j + |slash|;
    var t3 := f.name + AttsText(f.atts);
    var t2 := slash + t3;
    MatchesBounds(s, i, FrontText(f));
    MatchesConcat(s, i, "<", f.space + t2);
    MatchesConcat(s, i + 1, f.space, t2);
    MatchesConcat(s, j, slash, t3);
    MatchesConcat(s, n, f.name, AttsText(f.atts));
  }

  /** The front of a tag is read: what becomes of the tag depends on what the attribute loop makes of the rest. */
  lemma {:induction false} FrontRead(s: string, i: nat, f: Front, o: Options, line: nat) returns (rs: seq<ParsedAttribute>)
    requires GoodFront(f) && Matches(s, i, FrontText(f)) && (f.atts == [] ==> !IsNameChar(At(s, i + |FrontText(f)|)))
    ensures i < |s| && SkipWs(s, i) == i && Identify(s, i) == (KElement, i + 1) && i + |FrontText(f)| <= |s|
    ensures DecodeAttributes(s, rs) == AttsMeaning(f.atts, o)
    ensures var r := ParseAttributes(s, i + |FrontText(f)|, line, rs, o);
      r.AttributesFailed? ==> ParseElement(s, i + 1, line, o) == NodeFailed(Some(r.error), r.line)
  {
    hide Matches, SkipWs, NameEnd, PairValue, ParseAttributes, AttsText, FrontText, Blank, IsName, Identify, AttsMeaning, GoodFront, GoodAtts, Apart, IsNameStartChar,
         DecodeAttributes, ParseElement;
    FrontSplit(s, i, f);
    FrontParts(f);
    NoneApart(s, f.atts);
    var e := i + 1 + |f.space| + (if f.slash then 1 else 0) + |f.name|;
    NothingThere(f.atts);
    AfterTagName(s, e, f.atts);
    TagNameRead(s, i, f.space, f.slash, f.name);
    rs := AttsRead(s, e, f.atts, [], line, o);
    assert [] + rs == rs;
    AttributesDecide(s, i + 1, e, line, o);
  }

  /** An element fails with its attributes. */
  lemma AttributesDecide(s: string, i: nat, e: nat, line: nat, o: Options)
    requires i <= |s|
    requires var j := SkipWs(s, i); var n := if At(s, j) == '/' then j + 1 else j; n < |s| && IsNameStartChar(s[n]) && NameEnd(s, n + 1) == e
    ensures var r := ParseAttributes(s, e, line, [], o);
      r.AttributesFailed? ==> ParseElement(s, i, line, o) == NodeFailed(Some(r.error), r.line)
  {
    hide SkipWs, NameEnd, ParseAttributes, ParseLoop, IsNameStartChar;
  }

  lemma FrontParts(f: Front)
    requires GoodFront(f)
    ensures Blank(f.space) && IsName(f.name) && GoodAtts(f.atts)
    ensures f.atts != [] ==> Blank(f.atts[0].before) && f.atts[0].before != ""
  {
  }

  /** An error within a tag is the loop's. */
  lemma {:induction false} TagFails(s: string, i: nat, inDocument: bool, acc: seq<Parsed>, o: Options, error: XmlError, l: nat)
    requires i < |s| && SkipWs(s, i) == i && Identify(s, i) == (KElement, i + 1)
    requires ParseElement(s, i + 1, LineAt(s, i), o) == NodeFailed(Some(error), l)
    ensures ParseLoop(s, i, inDocument, acc, o) == LoopFailed(error, l)
  {
    hide SkipWs, LineAt, Identify, ParseElement;
    assert ParseNode(s, i + 1, KElement, LineAt(s, i), o) == ParseElement(s, i + 1, LineAt(s, i), o);
  }

  lemma {:induction false} BrokenTagFails(s: string, i: nat, f: Front, gap: string, inDocument: bool, acc: seq<Parsed>, o: Options, first: bool)
    requires i <= |s| && FaultAt(s, i, BrokenTag(f, gap), first)
    ensures ParseLoop(s, i, inDocument, acc, o) == LoopFailed(XML_ERROR_PARSING_ELEMENT, LineAt(s, i))
  {
    hide SkipWs, LineAt, Identify, ParseElement, FrontText, Matches, Blank, GoodFront, AttsMeaning, ParseLoop, ParseAttributes, DecodeAttributes;
    var line := LineAt(s, i);
    var n := i + |FrontText(f)|;
    var rs := FrontRead(s, i, f, o, line);
    MatchesBounds(s, n, gap);
    Skipped(s, n, gap);
    NoAttributeHere(s, n, line, rs, o);
    TagFails(s, i, inDocument, acc, o, XML_ERROR_PARSING_ELEMENT, line);
  }

  lemma NoAttributeHere(s: string, n: nat, line: nat, rs: seq<ParsedAttribute>, o: Options)
    requires n <= |s| && var j := SkipWs(s, n);
      !IsNameStartChar(At(s, j)) && At(s, j) != '>' && !(At(s, j) == '/' && At(s, j + 1) == '>')
    ensures ParseAttributes(s, n, line, rs, o) == AttributesFailed(XML_ERROR_PARSING_ELEMENT, line)
  {
    hide SkipWs, ParseAttribute;
  }

  /** The attribute loop fails at an attribute that is spoilt or there already. */
  lemma SpoiltHere(s: string, n: nat, j: nat, line: nat, rs: seq<ParsedAttribute>, o: Options)
    requires n <= |s| && SkipWs(s, n) == j < |s| && IsNameStartChar(s[j])
    requires var r := ParseAttribute(s, j, o); r.OneAttribute? ==> HasAttribute(s, rs, PairValue(s, r.attribute.name))
    ensures ParseAttributes(s, n, line, rs, o) == AttributesFailed(XML_ERROR_PARSING_ATTRIBUTE, LineAt(s, j))
  {
    hide SkipWs, ParseAttribute, LineAt, PairValue, HasAttribute;
  }

  lemma {:induction false} BrokenAttributeFails(s: string, i: nat, f: Front, gap: string, name: string, b: Cut, inDocument: bool, acc: seq<Parsed>, o: Options, first: bool)
    requires i <= |s| && FaultAt(s, i, BrokenAttribute(f, gap, name, b), first)
    ensures i + |FrontText(f)| + |gap| <= |s|
    ensures ParseLoop(s, i, inDocument, acc, o) == LoopFailed(XML_ERROR_PARSING_ATTRIBUTE, LineAt(s, i + |FrontText(f)| + |gap|))
  {
    hide SkipWs, LineAt, Identify, ParseElement, FrontText, Matches, Blank, GoodFront, AttsMeaning, ParseLoop, ParseAttribute, BreaksAt, IsName,
         ParseAttributes, DecodeAttributes, IsNameStartChar;
    var line := LineAt(s, i);
    var n := i + |FrontText(f)|;
    var j := n + |gap|;
    NameStarts(name);
    MatchesChar(s, j, name, 0);
    AfterGap(s, n, gap, f.atts);
    var rs := FrontRead(s, i, f, o, line);
    Skipped(s, n, gap);
    CutFails(s, j, name, b, o);
    SpoiltHere(s, n, j, line, rs, o);
    TagFails(s, i, inDocument, acc, o, XML_ERROR_PARSING_ATTRIBUTE, LineAt(s, j));
  }

  lemma AfterGap(s: string, n: nat, gap: string, atts: seq<Att>)
    requires Blank(gap) && Matches(s, n, gap) && (atts == [] ==> gap != "")
    ensures atts == [] ==> !IsNameChar(At(s, n))
  {
    if gap != "" {
      MatchesChar(s, n, gap, 0);
    }
  }

  lemma CutBeforeQuote(s: string, j: nat, o: Options)
    requires j < |s| && IsNameStartChar(s[j])
    requires var eq := SkipWs(s, NameEnd(s, j + 1));
      At(s, eq) != '=' || eq >= |s| || var q := SkipWs(s, eq + 1); At(s, q) != '"' && At(s, q) != '\''
    ensures ParseAttribute(s, j, o) == NoAttribute
  {
    hide SkipWs, NameEnd, FindTag, LineAt;
  }

  lemma CutBehindQuote(s: string, j: nat, o: Options)
    requires j < |s| && IsNameStartChar(s[j])
    requires var eq := SkipWs(s, NameEnd(s, j + 1)); eq < |s| && var q := SkipWs(s, eq + 1); q < |s| && FindTag(s, q + 1, [s[q]]) == None
    ensures ParseAttribute(s, j, o) == NoAttribute
  {
    hide SkipWs, NameEnd, FindTag, LineAt;
  }

  lemma NoEqualsFails(s: string, j: nat, name: string, left: string, o: Options)
    requires IsName(name) && Matches(s, j, name) && BreaksAt(s, j + |name|, NoEquals(left))
    ensures j < |s| && IsNameStartChar(s[j]) && ParseAttribute(s, j, o) == NoAttribute
  {
    hide SkipWs, NameEnd, Matches, Blank, IsName, ParseAttribute;
    MatchesBounds(s, j, name);
    MatchesBounds(s, j + |name|, left);
    NameScanned(s, j, name);
    Skipped(s, j + |name|, left);
    CutBeforeQuote(s, j, o);
  }

  lemma NoQuoteFails(s: string, j: nat, name: string, left: string, right: string, o: Options)
    requires IsName(name) && Matches(s, j, name) && BreaksAt(s, j + |name|, NoQuote(left, right))
    ensures j < |s| && IsNameStartChar(s[j]) && ParseAttribute(s, j, o) == NoAttribute
  {
    hide SkipWs, NameEnd, Matches, Blank, IsName, ParseAttribute;
    NameStarts(name);
    MatchesChar(s, j, name, 0);
    UpToQuote(s, j, name, left, right);
    CutBeforeQuote(s, j, o);
  }

  lemma NoEndQuoteFails(s: string, j: nat, name: string, left: string, right: string, quote: char, o: Options)
    requires IsName(name) && Matches(s, j, name) && BreaksAt(s, j + |name|, NoEndQuote(left, right, quote))
    ensures j < |s| && IsNameStartChar(s[j]) && ParseAttribute(s, j, o) == NoAttribute
  {
    hide SkipWs, NameEnd, FindTag, Matches, Blank, IsName, ParseAttribute;
    NameStarts(name);
    MatchesChar(s, j, name, 0);
    var e := j + |name|;
    MatchesConcat(s, e, left + "=" + right, [quote]);
    var q := e + |left| + 1 + |right|;
    MatchesChar(s, q, [quote], 0);
    UpToQuote(s, j, name, left, right);
    NoSecondQuote(s, q + 1, quote);
    CutBehindQuote(s, j, o);
  }

  /** An attribute that breaks off is none. */
  lemma {:induction false} CutFails(s: string, j: nat, name: string, b: Cut, o: Options)
    requires IsName(name) && Matches(s, j, name) && BreaksAt(s, j + |name|, b)
    ensures j < |s| && IsNameStartChar(s[j]) && ParseAttribute(s, j, o) == NoAttribute
  {
    hide BreaksAt, Matches, IsName, ParseAttribute, IsNameStartChar;
    match b
    case NoEquals(left) => NoEqualsFails(s, j, name, left, o);
    case NoQuote(left, right) => NoQuoteFails(s, j, name, left, right, o);
    case NoEndQuote(left, right, quote) => NoEndQuoteFails(s, j, name, left, right, quote, o);
  }

  lemma NoSecondQuote(s: string, i: nat, c: char)
    requires i <= |s| && forall k | i <= k < |s| :: s[k] != c
    ensures FindTag(s, i, [c]) == None
  {
    hide FindTag;
    var r := FindTag(s, i, [c]);
    if r.Some? {
      MatchesChar(s, r.value, [c], 0);
    }
  }

  lemma {:induction false} UpToQuote(s: string, j: nat, name: string, left: string, right: string)
    requires IsName(name) && Matches(s, j, name) && Blank(left) && Blank(right) && Matches(s, j + |name|, left + "=" + right)
    requires !IsWhiteSpace(At(s, j + |name| + |left| + 1 + |right|))
    ensures var e := j + |name|; var eq := e + |left|; var q := eq + 1 + |right|;
      && NameEnd(s, j + 1) == e <= |s| && SkipWs(s, e) == eq < |s| && s[eq] == '=' && SkipWs(s, eq + 1) == q <= |s|
  {
    hide SkipWs, NameEnd, Matches, Blank, IsName;
    var e := j + |name|;
    var eq := e + |left|;
    MatchesConcat(s, e, left + "=", right);
    MatchesConcat(s, e, left, "=");
    MatchesBounds(s, eq + 1, right);
    MatchesChar(s, eq, "=", 0);
    Skipped(s, e, left);
    Skipped(s, eq + 1, right);
    BlankThen(s, e, left, '=');
    NameScanned(s, j, name);
  }

  lemma {:induction false} DoubledAttributeFails(s: string, i: nat, f: Front, a: Att, inDocument: bool, acc: seq<Parsed>, o: Options, first: bool)
    requires i <= |s| && FaultAt(s, i, DoubledAttribute(f, a), first)
    ensures i + |FrontText(f)| + |a.before| <= |s|
    ensures ParseLoop(s, i, inDocument, acc, o) == LoopFailed(XML_ERROR_PARSING_ATTRIBUTE, LineAt(s, i + |FrontText(f)| + |a.before|))
  {
    hide SkipWs, LineAt, Identify, ParseElement, FrontText, Matches, GoodFront, AttsMeaning, ParseLoop, ParseAttribute, AttText, GoodAtt, PairValue,
         DecodeAttributes, IsNameStartChar, ParseAttributes, HasAttribute;
    var line := LineAt(s, i);
    var n := i + |FrontText(f)|;
    var rs := FrontRead(s, i, f, o, line);
    AttRead(s, n, a, o);
    NamesThere(s, rs, f.atts, a.name, o);
    SpoiltHere(s, n, n + |a.before|, line, rs, o);
    TagFails(s, i, inDocument, acc, o, XML_ERROR_PARSING_ATTRIBUTE, LineAt(s, n + |a.before|));
  }

  lemma {:induction false} NamesThere(s: string, rs: seq<ParsedAttribute>, atts: seq<Att>, name: string, o: Options)
    requires DecodeAttributes(s, rs) == AttsMeaning(atts, o) && exists k :: 0 <= k < |atts| && atts[k].name == name
    ensures HasAttribute(s, rs, name)
  {
    hide PairValue, Value;
    var k :| 0 <= k < |atts| && atts[k].name == name;
    NameThere(s, rs, atts, k, o);
  }

  lemma {:induction false} NameThere(s: string, rs: seq<ParsedAttribute>, atts: seq<Att>, k: nat, o: Options)
    requires DecodeAttributes(s, rs) == AttsMeaning(atts, o) && k < |atts|
    ensures k < |rs| && PairValue(s, rs[k].name) == atts[k].name
  {
    hide PairValue, Value;
    assert |rs| == |atts|;
    assert DecodeAttributes(s, rs)[0].name == PairValue(s, rs[0].name) && AttsMeaning(atts, o)[0].name == atts[0].name;
    if k > 0 {
      assert DecodeAttributes(s, rs)[1..] == DecodeAttributes(s, rs[1..]);
      assert AttsMeaning(atts, o)[1..] == AttsMeaning(atts[1..], o);
      NameThere(s, rs[1..], atts[1..], k - 1, o);
    }
  }

  lemma {:induction false} NoNameFails(s: string, i: nat, space: string, slash: bool, inDocument: bool, acc: seq<Parsed>, o: Options, first: bool)
    requires i <= |s| && FaultAt(s, i, NoName(space, slash), first)
    ensures ParseLoop(s, i, inDocument, acc, o) == LoopFailed(XML_ERROR_PARSING, LineAt(s, i))
  {
    hide SkipWs, LineAt, Identify, Blank, Matches, ParseElement, ParseLoop, IsNameStartChar;
    MatchesConcat(s, i, "<", space);
    MatchesChar(s, i, "<", 0);
    MatchesBounds(s, i + 1, space);
    HeaderIdentified(s, i, KElement);
    Skipped(s, i + 1, space);
    NoNameHere(s, i + 1, LineAt(s, i), o);
    LoopStops(s, i, inDocument, acc, o);
  }

  lemma NoNameHere(s: string, i: nat, line: nat, o: Options)
    requires i <= |s|
    requires var j := SkipWs(s, i); var n := if At(s, j) == '/' then j + 1 else j; n >= |s| || !IsNameStartChar(s[n])
    ensures ParseElement(s, i, line, o) == NodeFailed(None, line)
  {
    hide SkipWs, NameEnd, ParseAttributes, ParseLoop, IsNameStartChar;
  }

  lemma LoopStops(s: string, i: nat, inDocument: bool, acc: seq<Parsed>, o: Options)
    requires i < |s| && SkipWs(s, i) == i && Identify(s, i) == (KElement, i + 1)
    requires ParseElement(s, i + 1, LineAt(s, i), o) == NodeFailed(None, LineAt(s, i))
    ensures ParseLoop(s, i, inDocument, acc, o) == LoopFailed(XML_ERROR_PARSING, LineAt(s, i))
  {
    hide SkipWs, LineAt, Identify, ParseElement;
    assert ParseNode(s, i + 1, KElement, LineAt(s, i), o) == NodeFailed(None, LineAt(s, i));
  }

  // ------------------------------------------------------------- faults of elements

  /** A start tag with something behind it: what becomes of it is up to the children. */
  lemma {:induction false} OpenRead(s: string, i: nat, open: Tag, o: Options) returns (name: StrPair, rs: seq<ParsedAttribute>)
    requires GoodTag(open) && !open.sealed && !open.slash && Matches(s, i, TagText(open))
    ensures i < |s| && SkipWs(s, i) == i && Identify(s, i) == (KElement, i + 1) && i + |TagText(open)| <= |s|
    ensures name.start <= name.end <= |s| && PairValue(s, name) == open.name
    ensures var line, next := LineAt(s, i), i + |TagText(open)|;
      ParseElement(s, i + 1, line, o) ==
        if next == |s| then NodeParsed(PElement(line, name, rs, []), OPEN, None, next)
        else match ParseLoop(s, next, false, [], o)
          case LoopFailed(error, l) => NodeFailed(Some(error), l)
          case LoopEnded(_) => NodeFailed(None, line)
          case LoopClosed(children, endTag, after) => NodeParsed(PElement(line, name, rs, children), OPEN, Some(endTag), after)
  {
    hide Matches, SkipWs, NameEnd, PairValue, ParseAttributes, ParseLoop, TagText, ParseElement, LineAt, Identify, GoodTag, IsNameStartChar,
         DecodeAttributes, AttsMeaning;
    MatchesBounds(s, i, TagText(open));
    rs := TagRead(s, i, open, LineAt(s, i), o);
    TagElement(s, i, open, LineAt(s, i), rs, o);
    name := StrPair(i + 1 + |open.space|, i + 1 + |open.space| + |open.name|, PLAIN, true);
  }

  /** The loop at an element that was parsed but is not closed by the right end tag, or that was not parsed. */
  lemma {:induction false} ElementFails(s: string, i: nat, inDocument: bool, acc: seq<Parsed>, o: Options)
    requires i < |s| && SkipWs(s, i) == i && Identify(s, i) == (KElement, i + 1)
    ensures var p := ParseElement(s, i + 1, LineAt(s, i), o); var r := ParseLoop(s, i, inDocument, acc, o);
      && (p == NodeFailed(None, LineAt(s, i)) ==> r == LoopFailed(XML_ERROR_PARSING, LineAt(s, i)))
      && (p.NodeParsed? && p.closing == OPEN && Mismatch(s, p.node.name, OPEN, p.endTag) ==> r == LoopFailed(XML_ERROR_MISMATCHED_ELEMENT, LineAt(s, i)))
  {
    hide SkipWs, LineAt, Identify, ParseElement, Mismatch, WellLocated;
    assert ParseNode(s, i + 1, KElement, LineAt(s, i), o) == ParseElement(s, i + 1, LineAt(s, i), o);
  }

  lemma {:induction false} WrongEndFails(s: string, i: nat, open: Tag, items: seq<Item>, close: Tag, inDocument: bool, acc: seq<Parsed>, o: Options, first: bool)
    requires i <= |s| && FaultAt(s, i, WrongEnd(open, items, close), first)
    ensures ParseLoop(s, i, inDocument, acc, o) == LoopFailed(XML_ERROR_MISMATCHED_ELEMENT, LineAt(s, i))
  {
    hide Matches, SkipWs, ParseLoop, ParseElement, LineAt, Identify, GoodTag, TagText, ItemsText, GoodItems, Followed, PairValue, DecodeNodes, ItemsMeaning;
    var b := i + |TagText(open)|;
    var c := b + |ItemsText(items)|;
    MatchesConcat(s, i, TagText(open), ItemsText(items) + TagText(close));
    MatchesConcat(s, b, ItemsText(items), TagText(close));
    BeforeTag(s, c, close, items);
    var name, atts := OpenRead(s, i, open, o);
    var rs := ItemsRead(s, b, items, false, false, [], o);
    assert [] + rs == rs;
    CloseRead(s, c, close, false, rs, o);
    ElementFails(s, i, inDocument, acc, o);
  }

  lemma {:induction false} TagAtEndFails(s: string, i: nat, open: Tag, inDocument: bool, acc: seq<Parsed>, o: Options, first: bool)
    requires i <= |s| && FaultAt(s, i, TagAtEnd(open), first)
    ensures ParseLoop(s, i, inDocument, acc, o) == LoopFailed(XML_ERROR_MISMATCHED_ELEMENT, LineAt(s, i))
  {
    hide Matches, SkipWs, ParseLoop, ParseElement, LineAt, Identify, GoodTag, TagText, PairValue;
    assert TagText(open) + "" == TagText(open);
    Whole(s, i, TagText(open), "");
    var name, atts := OpenRead(s, i, open, o);
    ElementFails(s, i, inDocument, acc, o);
  }

  lemma {:induction false} NoEndTagFails(s: string, i: nat, open: Tag, items: seq<Item>, inDocument: bool, acc: seq<Parsed>, o: Options, first: bool)
    requires i <= |s| && FaultAt(s, i, NoEndTag(open, items), first)
    ensures ParseLoop(s, i, inDocument, acc, o) == LoopFailed(XML_ERROR_PARSING, LineAt(s, i))
  {
    hide Matches, SkipWs, ParseLoop, ParseElement, LineAt, Identify, GoodTag, TagText, ItemsText, GoodItems, PairValue, DecodeNodes, ItemsMeaning, BlankChars;
    var b := i + |TagText(open)|;
    Whole(s, i, TagText(open), ItemsText(items));
    ItemsThere(items, false);
    var name, atts := OpenRead(s, i, open, o);
    var rs := ItemsRead(s, b, items, false, false, [], o);
    assert [] + rs == rs;
    LoopAtEnd(s, rs, o);
    ElementFails(s, i, inDocument, acc, o);
  }

  lemma LoopAtEnd(s: string, rs: seq<Parsed>, o: Options)
    ensures ParseLoop(s, |s|, false, rs, o) == LoopEnded(rs)
  {
  }

  lemma ItemsThere(ns: seq<Item>, first: bool)
    requires GoodItems(ns, first) && ns != []
    ensures ItemsText(ns) != ""
  {
    hide AttsText;
    if !ns[0].Chars? {
      ItemStarts(ns[0]);
    }
  }

  // ------------------------------------------------------------- all faults

  lemma {:induction false} FaultThere(s: string, i: nat, f: Fault, first: bool)
    requires i <= |s| && FaultAt(s, i, f, first)
    ensures i < |s| && i + Offset(s, i, f) <= |s|
  {
    hide Matches, SkipWs, AttsText, GoodItems, GoodTag, ItemsText, Blank, IsName;
    match f
    case OpenMarkup(m) => MatchesBounds(s, i, Opener(m));
    case NoName(space, slash) => MatchesBounds(s, i, "<" + space);
    case LateDeclaration(raw) => MatchesBounds(s, i, ItemText(Markup(DeclarationMark, raw)));
    case WrongEnd(open, items, close) => MatchesBounds(s, i, TagText(open) + (ItemsText(items) + TagText(close)));
    case BrokenTag(front, gap) => MatchesBounds(s, i, FrontText(front));
    case BrokenAttribute(front, gap, name, b) =>
      MatchesBounds(s, i, FrontText(front));
      MatchesBounds(s, i + |FrontText(front)|, gap);
    case DoubledAttribute(front, att) =>
      MatchesBounds(s, i, FrontText(front));
      MatchesBounds(s, i + |FrontText(front)|, AttText(att));
    case _ =>
  }

  /** Every fault is reported with its code, in its line. */
  lemma {:induction false} FaultFails(s: string, i: nat, f: Fault, inDocument: bool, acc: seq<Parsed>, o: Options)
    requires i <= |s| && FaultAt(s, i, f, WellLocated(inDocument, acc))
    ensures i < |s| && i + Offset(s, i, f) <= |s|
    ensures ParseLoop(s, i, inDocument, acc, o) == LoopFailed(ErrorCode(f), LineAt(s, i + Offset(s, i, f)))
  {
    hide ParseLoop, LineAt, SkipWs, WellLocated, FrontText, FaultAt;
    var first := WellLocated(inDocument, acc);
    FaultThere(s, i, f, first);
    match f
    case OpenMarkup(m) => OpenMarkupFails(s, i, m, inDocument, acc, o, first);
    case OpenText => OpenTextFails(s, i, inDocument, acc, o, first);
    case LoneBracket(raw) => LoneBracketFails(s, i, raw, inDocument, acc, o, first);
    case NoName(space, slash) => NoNameFails(s, i, space, slash, inDocument, acc, o, first);
    case BrokenTag(front, gap) => BrokenTagFails(s, i, front, gap, inDocument, acc, o, first);
    case BrokenAttribute(front, gap, name, b) => BrokenAttributeFails(s, i, front, gap, name, b, inDocument, acc, o, first);
    case DoubledAttribute(front, att) => DoubledAttributeFails(s, i, front, att, inDocument, acc, o, first);
    case LateDeclaration(raw) => LateDeclarationFails(s, i, raw, inDocument, acc, o);
    case WrongEnd(open, items, close) => WrongEndFails(s, i, open, items, close, inDocument, acc, o, first);
    case TagAtEnd(open) => TagAtEndFails(s, i, open, inDocument, acc, o, first);
    case NoEndTag(open, items) => NoEndTagFails(s, i, open, items, inDocument, acc, o, first);
  }

  // ------------------------------------------------------------- faults anywhere

  /** An element that is open around the fault, and its siblings before it. */
  datatype Level = Level(before: seq<Item>, open: Tag)

  function LevelsText(ls: seq<Level>): string {
    if ls == [] then "" else ItemsText(ls[0].before) + (TagText(ls[0].open) + LevelsText(ls[1..]))
  }

  predicate GoodLevels(ls: seq<Level>, first: bool) {
    ls != [] ==>
      && GoodItems(ls[0].before, first) && GoodTag(ls[0].open) && !ls[0].open.sealed && !ls[0].open.slash
      && GoodLevels(ls[1..], false)
  }

  ghost predicate AllDeclared(ns: seq<Node>) {
    forall k | 0 <= k < |ns| :: ns[k].Declaration?
  }

  /** An error below a start tag is the error of the siblings it stands among. */
  lemma {:induction false} LevelFails(s: string, i: nat, open: Tag, inDocument: bool, acc: seq<Parsed>, o: Options, error: XmlError, l: nat)
    requires GoodTag(open) && !open.sealed && !open.slash && Matches(s, i, TagText(open)) && i + |TagText(open)| < |s|
    requires ParseLoop(s, i + |TagText(open)|, false, [], o) == LoopFailed(error, l)
    ensures ParseLoop(s, i, inDocument, acc, o) == LoopFailed(error, l)
  {
    hide Matches, SkipWs, ParseLoop, ParseElement, LineAt, Identify, GoodTag, TagText, PairValue;
    var name, atts := OpenRead(s, i, open, o);
    TagFails(s, i, inDocument, acc, o, error, l);
  }

  lemma {:induction false} DeclaredAlike(s: string, acc: seq<Parsed>, rs: seq<Parsed>, inDocument: bool)
    ensures WellLocated(inDocument, acc + rs) <==> WellLocated(inDocument, acc) && AllDeclared(DecodeNodes(s, rs))
  {
    hide PairValue, DecodeAttributes;
    forall k | 0 <= k < |rs| ensures rs[k].PDeclaration? <==> DecodeNodes(s, rs)[k].Declaration? {
      DecodedAt(s, rs, k);
    }
    assert forall k | 0 <= k < |acc| :: (acc + rs)[k] == acc[k];
    assert forall k | 0 <= k < |rs| :: (acc + rs)[|acc| + k] == rs[k];
  }

  lemma {:induction false} DecodedAt(s: string, rs: seq<Parsed>, k: nat)
    requires k < |rs|
    ensures DecodeNodes(s, rs)[k] == DecodeNode(s, rs[k])
  {
    hide PairValue, DecodeAttributes, DecodeNode;
    if k > 0 {
      DecodedAt(s, rs[1..], k - 1);
    }
  }

  /** From `i` to `x` stand the levels and then the siblings in front of a fault at `x`. */
  ghost predicate Around(s: string, i: nat, ls: seq<Level>, before: seq<Item>, x: nat, first: bool) {
    && GoodLevels(ls, first) && GoodItems(before, ls == [] && first)
    && Matches(s, i, LevelsText(ls)) && Matches(s, i + |LevelsText(ls)|, ItemsText(before))
    && x == i + |LevelsText(ls)| + |ItemsText(before)|
    && (before != [] && before[|before| - 1].Chars? ==> x + 1 < |s| && s[x] == '<')
  }

  lemma AroundBounds(s: string, i: nat, ls: seq<Level>, before: seq<Item>, x: nat, first: bool)
    requires Around(s, i, ls, before, x, first)
    ensures i <= x <= |s|
  {
    hide GoodItems, GoodLevels, ItemsText, LevelsText;
  }

  /** The levels around the fault, one by one. */
  lemma {:induction false} LevelsFail(s: string, i: nat, ls: seq<Level>, before: seq<Item>, f: Fault, inDocument: bool, acc: seq<Parsed>, o: Options, x: nat)
    requires i <= x <= |s| && Around(s, i, ls, before, x, WellLocated(inDocument, acc))
    requires FaultAt(s, x, f, ls == [] && WellLocated(inDocument, acc) && AllDeclared(ItemsMeaning(before, o)))
    ensures x + Offset(s, x, f) <= |s| && ParseLoop(s, i, inDocument, acc, o) == LoopFailed(ErrorCode(f), LineAt(s, x + Offset(s, x, f)))
    decreases |ls|
  {
    hide Matches, ParseLoop, LineAt, GoodTag, TagText, ItemsText, GoodItems, ItemsMeaning, FaultAt, Offset, DecodeNodes, WellLocated, AllDeclared;
    if ls == [] {
      var rs := ItemsRead(s, i, before, WellLocated(inDocument, acc), inDocument, acc, o);
      DeclaredAlike(s, acc, rs, inDocument);
      FaultFails(s, x, f, inDocument, acc + rs, o);
    } else {
      var l, rest := ls[0], LevelsText(ls[1..]);
      var j := i + |ItemsText(l.before)|;
      var b := j + |TagText(l.open)|;
      MatchesConcat(s, i, ItemsText(l.before), TagText(l.open) + rest);
      MatchesConcat(s, j, TagText(l.open), rest);
      BeforeTag(s, j, l.open, l.before);
      var rs := ItemsRead(s, i, l.before, WellLocated(inDocument, acc), inDocument, acc, o);
      Inside();
      AroundBounds(s, b, ls[1..], before, x, false);
      LevelsFail(s, b, ls[1..], before, f, false, [], o, x);
      FaultThere(s, x, f, false);
      LevelFails(s, j, l.open, inDocument, acc + rs, o, ErrorCode(f), LineAt(s, x + Offset(s, x, f)));
    }
  }

  lemma Inside()
    ensures !WellLocated(false, [])
  {
  }

  /**
   Main result.  A fault anywhere, within any elements and behind any siblings, under all options:
   the text is no document, and the error is that of the fault, in its line.
   */
  lemma {:induction false} FaultyDocument(s: string, lead: string, bom: bool, ls: seq<Level>, before: seq<Item>, f: Fault, o: Options, p: nat, x: nat)
    requires Blank(lead) && Matches(s, 0, lead) && (|lead| < |s| ==> !IsWhiteSpace(s[|lead|])) && (Matches(s, |lead|, MARK) <==> bom)
    requires p == (if bom then |lead| + 3 else |lead|) && Around(s, p, ls, before, x, true)
    requires FaultAt(s, x, f, ls == [] && AllDeclared(ItemsMeaning(before, o)))
    ensures x + Offset(s, x, f) <= |s| && ReadDocument(s, o) == ReadFailed(ErrorCode(f), LineAt(s, x + Offset(s, x, f)))
  {
    hide Matches, ParseLoop, LineAt, Around, ItemsMeaning, FaultAt, Offset, AllDeclared, SkipWs, Blank;
    MatchesBounds(s, 0, lead);
    AroundBounds(s, p, ls, before, x, true);
    Skipped(s, 0, lead);
    FaultThere(s, x, f, ls == [] && AllDeclared(ItemsMeaning(before, o)));
    FirstOfAll();
    LevelsFail(s, p, ls, before, f, true, [], o, x);
  }

  lemma FirstOfAll()
    ensures WellLocated(true, [])
  {
  }

  /** Nothing but whitespace, or a byte order mark alone, is no document either. */
  lemma {:induction false} EmptyDocumentFails(lead: string, bom: bool, o: Options)
    requires Blank(lead)
    ensures ReadDocument(lead + (if bom then MARK else ""), o) == ReadFailed(XML_ERROR_EMPTY_DOCUMENT, 0)
  {
    hide ParseLoop, Blank, SkipWs;
    var s := lead + (if bom then MARK else "");
    assert Matches(s, 0, lead);
    Skipped(s, 0, lead);
    if bom {
      assert s[|lead|..|lead| + 3] == MARK;
    }
  }
}
