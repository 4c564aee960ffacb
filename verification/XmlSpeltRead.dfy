/**
 Every spelling of the grammar is read as what it means.
 */
module XmlSpeltRead {
  import opened Wrappers
  import opened XmlText
  import opened XmlDecode
  import opened XmlTree
  import opened XmlParserSpec
  import opened XmlPrinterSpec
  import opened XmlRoundTrip
  import R = XmlReadBack
  import opened XmlGrammar

  // ------------------------------------------------------------- tags are read

  lemma {:induction false} Skipped(s: string, i: nat, w: string)
    requires Matches(s, i, w) && Blank(w) && (i + |w| < |s| ==> !IsWhiteSpace(s[i + |w|]))
    ensures SkipWs(s, i) == i + |w|
  {
    hide SkipWs;
    forall k | i <= k < i + |w| ensures IsWhiteSpace(s[k]) {
      MatchesChar(s, i, w, k - i);
    }
    SkipWsAt(s, i, i + |w|);
  }

  lemma NameStarts(name: string)
    requires IsName(name)
    ensures name != "" && IsNameStartChar(name[0]) && !IsWhiteSpace(name[0]) && name[0] != '/' && name[0] != '?' && name[0] != '!'
  {
  }

  /** Where the parts of an attribute are. */
  lemma {:induction false} AttSplit(s: string, i: nat, a: Att)
    requires Matches(s, i, AttText(a))
    ensures var n := i + |a.before|; var e := n + |a.name|; var eq := e + |a.left|; var q := eq + 1 + |a.right|;
      && Matches(s, i, a.before) && Matches(s, n, a.name) && Matches(s, e, a.left) && Matches(s, eq, "=")
      && Matches(s, eq + 1, a.right) && Matches(s, q, [a.quote]) && Matches(s, q + 1, a.raw + [a.quote])
      && i + |AttText(a)| == q + 2 + |a.raw| <= |s|
  {
    hide Matches;
    var n := i + |a.before|;
    var e := n + |a.name|;
    var eq := e + |a.left|;
    var q := eq + 1 + |a.right|;
    var t6 := a.raw + [a.quote];
    var t5 := [a.quote] + t6;
    var t4 := a.right + t5;
    var t3 := "=" + t4;
    var t2 := a.left + t3;
    MatchesBounds(s, i, AttText(a));
    MatchesConcat(s, i, a.before, a.name + t2);
    MatchesConcat(s, n, a.name, t2);
    MatchesConcat(s, e, a.left, t3);
    MatchesConcat(s, eq, "=", t4);
    MatchesConcat(s, eq + 1, a.right, t5);
    MatchesConcat(s, q, [a.quote], t6);
  }

  lemma {:induction false} AttHeadRead(s: string, i: nat, a: Att)
    requires GoodAtt(a) && Matches(s, i, AttText(a))
    ensures var n := i + |a.before|; var e := n + |a.name|; var eq := e + |a.left|; var q := eq + 1 + |a.right|;
      && SkipWs(s, i) == n < |s| && IsNameStartChar(s[n]) && NameEnd(s, n + 1) == e <= |s|
      && SkipWs(s, e) == eq < |s| && s[eq] == '=' && SkipWs(s, eq + 1) == q < |s| && s[q] == a.quote
  {
    hide Matches, SkipWs, NameEnd, AttText, Blank, IsName;
    AttSplit(s, i, a);
    var n := i + |a.before|;
    var e := n + |a.name|;
    var eq := e + |a.left|;
    var q := eq + 1 + |a.right|;
    NameStarts(a.name);
    MatchesChar(s, n, a.name, 0);
    MatchesChar(s, eq, "=", 0);
    MatchesChar(s, q, [a.quote], 0);
    Skipped(s, i, a.before);
    Skipped(s, e, a.left);
    Skipped(s, eq + 1, a.right);
    hide IsWhiteSpace;
    BlankThen(s, e, a.left, '=');
    NameScanned(s, n, a.name);
  }

  lemma {:induction false} AttValueRead(s: string, i: nat, a: Att)
    requires GoodAtt(a) && Matches(s, i, AttText(a))
    ensures var q := i + |a.before| + |a.name| + |a.left| + 1 + |a.right|; var v := q + 1 + |a.raw|;
      && v + 1 == i + |AttText(a)| <= |s| && FindTag(s, q + 1, [a.quote]) == Some(v) && s[q + 1..v] == a.raw
  {
    hide Matches, FindTag, AttText, Blank, IsName;
    AttSplit(s, i, a);
    var q := i + |a.before| + |a.name| + |a.left| + 1 + |a.right|;
    FreeOfCharacter(a.raw, a.quote);
    FindTagAfter(s, q + 1, a.raw, [a.quote]);
  }

  lemma {:induction false} AttRead(s: string, i: nat, a: Att, o: Options)
    requires GoodAtt(a) && Matches(s, i, AttText(a))
    ensures var n := i + |a.before|;
      && SkipWs(s, i) == n < |s| && IsNameStartChar(s[n])
      && var r := ParseAttribute(s, n, o);
      && r.OneAttribute? && r.next == i + |AttText(a)| && PairValue(s, r.attribute.name) == a.name
      && PairValue(s, r.attribute.value) == Value(a.raw, Flags(o.processEntities, true, false))
  {
    hide Matches, SkipWs, NameEnd, FindTag, LineAt, AttText, Value, Blank, IsName;
    AttHeadRead(s, i, a);
    AttValueRead(s, i, a);
    AttSplit(s, i, a);
    NameValue(s, i + |a.before|, i + |a.before| + |a.name|, a.name);
    hide PairValue;
    PairIs(s, a, i + |a.before| + |a.name| + |a.left| + 2 + |a.right|, Flags(o.processEntities, true, false));
  }

  lemma PairIs(s: string, a: Att, i: nat, f: Flags)
    requires i + |a.raw| <= |s| && s[i..i + |a.raw|] == a.raw
    ensures PairValue(s, StrPair(i, i + |a.raw|, f, true)) == Value(a.raw, f)
  {
    hide Value;
  }

  lemma NameValue(s: string, n: nat, e: nat, name: string)
    requires IsName(name) && Matches(s, n, name) && e == n + |name|
    ensures PairValue(s, StrPair(n, e, PLAIN, false)) == name && PairValue(s, StrPair(n, e, PLAIN, true)) == name
  {
    NameNulFree(name);
  }

  /** What follows whitespace or stands there without any is no name character. */
  lemma BlankThen(s: string, e: nat, w: string, c: char)
    requires Matches(s, e, w) && Blank(w) && At(s, e + |w|) == c && !IsNameChar(c)
    ensures !IsNameChar(At(s, e))
  {
    if w != "" {
      MatchesChar(s, e, w, 0);
    }
  }

  ghost predicate Apart(s: string, acc: seq<ParsedAttribute>, atts: seq<Att>) {
    forall j, k | 0 <= j < |acc| && 0 <= k < |atts| :: PairValue(s, acc[j].name) != atts[k].name
  }

  ghost predicate GoodAtts(atts: seq<Att>) {
    && (forall k | 0 <= k < |atts| :: GoodAtt(atts[k]))
    && forall i, j | 0 <= i < j < |atts| :: atts[i].name != atts[j].name
  }

  lemma {:induction false} StayApart(s: string, acc: seq<ParsedAttribute>, r: ParsedAttribute, atts: seq<Att>)
    requires atts != [] && GoodAtts(atts) && Apart(s, acc, atts) && PairValue(s, r.name) == atts[0].name
    ensures !HasAttribute(s, acc, atts[0].name) && GoodAtt(atts[0])
    ensures GoodAtts(atts[1..]) && Apart(s, acc + [r], atts[1..])
  {
    hide PairValue, GoodAtt;
    assert forall k | 0 <= k < |atts[1..]| :: atts[1..][k] == atts[k + 1];
  }

  lemma {:induction false} AttsRead(s: string, i: nat, atts: seq<Att>, acc: seq<ParsedAttribute>, line: nat, o: Options)
    returns (rs: seq<ParsedAttribute>)
    requires GoodAtts(atts) && Apart(s, acc, atts) && Matches(s, i, AttsText(atts))
    ensures i + |AttsText(atts)| <= |s| && DecodeAttributes(s, rs) == AttsMeaning(atts, o)
    ensures ParseAttributes(s, i, line, acc, o) == ParseAttributes(s, i + |AttsText(atts)|, line, acc + rs, o)
    decreases |atts|
  {
    hide ParseAttribute, ParseAttributes, PairValue, Value, AttText, Apart, GoodAtts, GoodAtt, HasAttribute, Matches, SkipWs;
    MatchesBounds(s, i, AttsText(atts));
    if atts == [] {
      rs := [];
      assert acc + rs == acc;
    } else {
      var a := atts[0];
      MatchesConcat(s, i, AttText(a), AttsText(atts[1..]));
      assert GoodAtt(a) by { FirstAtt(atts); }
      AttRead(s, i, a, o);
      var r := ParseAttribute(s, i + |a.before|, o).attribute;
      StayApart(s, acc, r, atts);
      AttLinked(s, i, acc, line, o);
      var rest := AttsRead(s, i + |AttText(a)|, atts[1..], acc + [r], line, o);
      rs := [r] + rest;
      assert acc + rs == acc + [r] + rest;
      assert rs[0] == r && rs[1..] == rest;
    }
  }

  /** One turn of the attribute loop. */
  lemma AttLinked(s: string, i: nat, acc: seq<ParsedAttribute>, line: nat, o: Options)
    requires i <= |s| && SkipWs(s, i) < |s| && IsNameStartChar(s[SkipWs(s, i)]) && ParseAttribute(s, SkipWs(s, i), o).OneAttribute?
    requires var r := ParseAttribute(s, SkipWs(s, i), o); !HasAttribute(s, acc, PairValue(s, r.attribute.name))
    ensures var r := ParseAttribute(s, SkipWs(s, i), o);
      ParseAttributes(s, i, line, acc, o) == ParseAttributes(s, r.next, line, acc + [r.attribute], o)
  {
    hide ParseAttribute, PairValue, HasAttribute, SkipWs;
  }

  lemma FirstAtt(atts: seq<Att>)
    requires atts != [] && GoodAtts(atts)
    ensures GoodAtt(atts[0])
  {
  }

  lemma {:induction false} TagEnds(s: string, e: nat, end: string, sealed: bool, line: nat, rs: seq<ParsedAttribute>, o: Options)
    requires Blank(end) && Matches(s, e, end + (if sealed then "/>" else ">"))
    ensures e <= |s| && !IsNameChar(At(s, e))
    ensures ParseAttributes(s, e, line, rs, o) == Attributes(rs, e + |end| + (if sealed then 2 else 1), sealed)
  {
    hide Matches, SkipWs, Blank, ParseAttribute;
    var close := if sealed then "/>" else ">";
    MatchesConcat(s, e, end, close);
    MatchesChar(s, e + |end|, close, 0);
    if sealed {
      MatchesChar(s, e + |end|, close, 1);
    }
    Skipped(s, e, end);
    BlankThen(s, e, end, close[0]);
  }

  /** Where the parts of a tag are. */
  lemma {:induction false} TagSplit(s: string, i: nat, t: Tag)
    requires Matches(s, i, TagText(t))
    ensures var j := i + 1 + |t.space|; var n := j + (if t.slash then 1 else 0); var e := n + |t.name|; var f := e + |AttsText(t.atts)|;
      && Matches(s, i, "<") && Matches(s, i + 1, t.space) && Matches(s, j, if t.slash then "/" else "") && Matches(s, n, t.name)
      && Matches(s, e, AttsText(t.atts)) && Matches(s, f, t.end + (if t.sealed then "/>" else ">"))
      && i + |TagText(t)| == f + |t.end| + (if t.sealed then 2 else 1) <= |s|
  {
    hide Matches, AttsText;
    var slash, close := if t.slash then "/" else "", if t.sealed then "/>" else ">";
    var j := i + 1 + |t.space|;
    var n := j + |slash|;
    var e := n + |t.name|;
    var t5 := t.end + close;
    var t4 := AttsText(t.atts) + t5;
    var t3 := t.name + t4;
    var t2 := slash + t3;
    MatchesBounds(s, i, TagText(t));
    MatchesConcat(s, i, "<", t.space + t2);
    MatchesConcat(s, i + 1, t.space, t2);
    MatchesConcat(s, j, slash, t3);
    MatchesConcat(s, n, t.name, t4);
    MatchesConcat(s, e, AttsText(t.atts), t5);
  }

  lemma {:induction false} AfterTagName(s: string, e: nat, atts: seq<Att>)
    requires Matches(s, e, AttsText(atts)) && (if atts == [] then !IsNameChar(At(s, e)) else Blank(atts[0].before) && atts[0].before != "")
    ensures !IsNameChar(At(s, e))
  {
    if atts != [] {
      var w := atts[0].before;
      MatchesConcat(s, e, AttText(atts[0]), AttsText(atts[1..]));
      AttSplit(s, e, atts[0]);
      MatchesChar(s, e, w, 0);
    }
  }

  /** The name of a tag, and its slash. */
  lemma {:induction false} TagNameRead(s: string, i: nat, space: string, slash: bool, name: string)
    requires Blank(space) && IsName(name)
    requires var j := i + 1 + |space|; var n := j + (if slash then 1 else 0);
      && Matches(s, i, "<") && Matches(s, i + 1, space) && Matches(s, j, if slash then "/" else "") && Matches(s, n, name)
      && !IsNameChar(At(s, n + |name|))
    ensures i < |s| && s[i] == '<' && SkipWs(s, i) == i && Identify(s, i) == (KElement, i + 1)
    ensures var j := i + 1 + |space|; var n := j + (if slash then 1 else 0); var e := n + |name|;
      && SkipWs(s, i + 1) == j && (At(s, j) == '/' <==> slash) && n < e <= |s| && IsNameStartChar(s[n]) && NameEnd(s, n + 1) == e
      && forall flush: bool :: PairValue(s, StrPair(n, e, PLAIN, flush)) == name
  {
    hide Matches, SkipWs, NameEnd, PairValue, Blank, IsName, Identify;
    var j := i + 1 + |space|;
    var n := j + (if slash then 1 else 0);
    NameStarts(name);
    MatchesChar(s, i, "<", 0);
    MatchesChar(s, n, name, 0);
    if slash {
      MatchesChar(s, j, "/", 0);
    }
    Skipped(s, i + 1, space);
    NameScanned(s, n, name);
    AfterMark(s, i, space);
    HeaderIdentified(s, i, KElement);
  }

  /** What the parser finds out about a tag. */
  lemma {:induction false} TagRead(s: string, i: nat, t: Tag, line: nat, o: Options) returns (rs: seq<ParsedAttribute>)
    requires GoodTag(t) && Matches(s, i, TagText(t))
    ensures i < |s| && s[i] == '<' && i + |TagText(t)| <= |s| && SkipWs(s, i) == i && Identify(s, i) == (KElement, i + 1)
    ensures var j := i + 1 + |t.space|; var n := j + (if t.slash then 1 else 0); var e := n + |t.name|;
      && SkipWs(s, i + 1) == j && (At(s, j) == '/' <==> t.slash) && n < e <= |s| && IsNameStartChar(s[n]) && NameEnd(s, n + 1) == e
      && (forall flush: bool :: PairValue(s, StrPair(n, e, PLAIN, flush)) == t.name)
      && DecodeAttributes(s, rs) == AttsMeaning(t.atts, o)
      && ParseAttributes(s, e, line, [], o) == Attributes(rs, i + |TagText(t)|, t.sealed)
  {
    hide Matches, SkipWs, NameEnd, PairValue, ParseAttributes, AttsText, TagText, Blank, IsName, Identify, AttsMeaning, IsNameStartChar, GoodTag, GoodAtts,
         DecodeAttributes;
    TagSplit(s, i, t);
    TagOnItsOwn(t);
    var e := i + 1 + |t.space| + (if t.slash then 1 else 0) + |t.name|;
    rs := TagAttributesRead(s, i, e, t, line, o);
    TagNameRead(s, i, t.space, t.slash, t.name);
  }

  lemma {:induction false} TagAttributesRead(s: string, i: nat, e: nat, t: Tag, line: nat, o: Options) returns (rs: seq<ParsedAttribute>)
    requires GoodTag(t) && Matches(s, i, TagText(t)) && e == i + 1 + |t.space| + (if t.slash then 1 else 0) + |t.name|
    ensures i + |TagText(t)| <= |s| && !IsNameChar(At(s, e)) && DecodeAttributes(s, rs) == AttsMeaning(t.atts, o)
    ensures e <= |s| && ParseAttributes(s, e, line, [], o) == Attributes(rs, i + |TagText(t)|, t.sealed)
  {
    hide Matches, PairValue, ParseAttributes, AttsText, TagText, Blank, IsName, AttsMeaning, IsNameChar, GoodTag, GoodAtts, Apart;
    TagSplit(s, i, t);
    TagOnItsOwn(t);
    NoneApart(s, t.atts);
    rs := AttsRead(s, e, t.atts, [], line, o);
    assert [] + rs == rs;
    TagEnds(s, e + |AttsText(t.atts)|, t.end, t.sealed, line, rs, o);
    NothingThere(t.atts);
    AfterTagName(s, e, t.atts);
  }

  lemma NothingThere(atts: seq<Att>)
    ensures atts == [] ==> AttsText(atts) == ""
  {
  }

  lemma NoneApart(s: string, atts: seq<Att>)
    ensures Apart(s, [], atts)
  {
  }

  lemma TagOnItsOwn(t: Tag)
    requires GoodTag(t)
    ensures Blank(t.space) && Blank(t.end) && IsName(t.name) && GoodAtts(t.atts)
    ensures t.atts != [] ==> Blank(t.atts[0].before) && t.atts[0].before != ""
  {
  }

  lemma AfterMark(s: string, i: nat, space: string)
    requires Blank(space) && Matches(s, i + 1, space) && SkipWs(s, i + 1) == i + 1 + |space| < |s|
    requires s[i + 1 + |space|] != '?' && s[i + 1 + |space|] != '!'
    ensures At(s, i + 1) != '?' && At(s, i + 1) != '!'
  {
    if space != "" {
      MatchesChar(s, i + 1, space, 0);
    }
  }

  /** What `XMLElement::ParseDeep` makes of a tag. */
  lemma {:induction false} TagElement(s: string, i: nat, t: Tag, line: nat, rs: seq<ParsedAttribute>, o: Options)
    requires i + 1 <= |s| && i + |TagText(t)| <= |s|
    requires var j := i + 1 + |t.space|; var n := j + (if t.slash then 1 else 0); var e := n + |t.name|;
      && SkipWs(s, i + 1) == j && (At(s, j) == '/' <==> t.slash) && n < e <= |s| && IsNameStartChar(s[n]) && NameEnd(s, n + 1) == e
      && ParseAttributes(s, e, line, [], o) == Attributes(rs, i + |TagText(t)|, t.sealed)
    ensures var n := i + 1 + |t.space| + (if t.slash then 1 else 0); var name := StrPair(n, n + |t.name|, PLAIN, true);
      var next := i + |TagText(t)|;
      ParseElement(s, i + 1, line, o) ==
        if t.sealed then NodeParsed(PElement(line, name, rs, []), CLOSED, None, next)
        else if t.slash then NodeParsed(PElement(line, name, rs, []), CLOSING, None, next)
        else if next == |s| then NodeParsed(PElement(line, name, rs, []), OPEN, None, next)
        else match ParseLoop(s, next, false, [], o)
          case LoopFailed(error, l) => NodeFailed(Some(error), l)
          case LoopEnded(_) => NodeFailed(None, line)
          case LoopClosed(children, endTag, after) => NodeParsed(PElement(line, name, rs, children), OPEN, Some(endTag), after)
  {
    hide ParseAttributes, SkipWs, NameEnd, ParseLoop, TagText;
  }

  // ------------------------------------------------------------- items are read

  lemma {:induction false} ItemStarts(n: Item)
    requires GoodItem(n) && !n.Chars?
    ensures |ItemText(n)| >= 2 && ItemText(n)[0] == '<'
  {
    hide AttsText, GoodItems, ItemsText;
  }

  /** What follows character data: markup, or the end of the text if the data is blank. */
  ghost predicate Followed(s: string, e: nat, ns: seq<Item>) {
    ns != [] && ns[|ns| - 1].Chars? ==> (e == |s| && BlankChars(ns[|ns| - 1])) || (e + 1 < |s| && s[e] == '<')
  }

  /** The first of several siblings, and what is behind it. */
  lemma {:induction false} FirstItem(s: string, i: nat, ns: seq<Item>, first: bool)
    requires ns != [] && GoodItems(ns, first) && Matches(s, i, ItemsText(ns)) && Followed(s, i + |ItemsText(ns)|, ns)
    ensures var e := i + |ItemText(ns[0])|;
      && Matches(s, i, ItemText(ns[0])) && Matches(s, e, ItemsText(ns[1..])) && Followed(s, i + |ItemsText(ns)|, ns[1..])
      && GoodItem(ns[0]) && GoodItems(ns[1..], first && (Declares(ns[0]) || BlankChars(ns[0])))
      && i + |ItemsText(ns)| == e + |ItemsText(ns[1..])| && e <= |s|
      && Followed(s, e, [ns[0]])
  {
    hide Matches, ItemText, GoodItem;
    var e := i + |ItemText(ns[0])|;
    MatchesConcat(s, i, ItemText(ns[0]), ItemsText(ns[1..]));
    MatchesBounds(s, i, ItemText(ns[0]));
    if |ns| > 1 {
      assert ns[1..][|ns[1..]| - 1] == ns[|ns| - 1];
      if ns[0].Chars? {
        assert GoodItems(ns[1..], first && BlankChars(ns[0]));
        assert ns[1..][0] == ns[1];
        MatchesConcat(s, e, ItemText(ns[1]), ItemsText(ns[1..][1..]));
        ItemStarts(ns[1]);
        MatchesChar(s, e, ItemText(ns[1]), 0);
        MatchesChar(s, e, ItemText(ns[1]), 1);
      }
    }
  }

  lemma {:induction false} BlankRead(s: string, i: nat, raw: string, inDocument: bool, acc: seq<Parsed>, o: Options)
    requires Blank(raw) && Matches(s, i, raw) && i + |raw| <= |s| && (i + |raw| < |s| ==> s[i + |raw|] == '<')
    ensures ParseLoop(s, i, inDocument, acc, o) == ParseLoop(s, i + |raw|, inDocument, acc, o)
  {
    hide Matches, Blank, SkipWs, ParseLoop;
    Skipped(s, i, raw);
    LoopSkips(s, i, i + |raw|, inDocument, acc, o);
  }

  lemma {:induction false} NotBlank(s: string, i: nat, raw: string)
    requires !Blank(raw) && Matches(s, i, raw) && forall k | 0 <= k < |raw| :: raw[k] != '<'
    ensures i <= |s| && SkipWs(s, i) < i + |raw| <= |s| && s[SkipWs(s, i)] != '<'
  {
    var k :| 0 <= k < |raw| && !IsWhiteSpace(raw[k]);
    MatchesChar(s, i, raw, k);
    var j := SkipWs(s, i);
    MatchesChar(s, i, raw, j - i);
  }

  /** Character data that is not blank. */
  lemma {:induction false} CharsRead(s: string, i: nat, raw: string, inDocument: bool, acc: seq<Parsed>, o: Options)
    returns (r: Parsed)
    requires GoodItem(Chars(raw)) && !Blank(raw) && Matches(s, i, raw) && i + |raw| + 1 < |s| && s[i + |raw|] == '<'
    ensures !r.PDeclaration? && DecodeNode(s, r) == Text(Value(raw, Flags(o.processEntities, true, o.collapseWhitespace)), false)
    ensures ParseLoop(s, i, inDocument, acc, o) == ParseLoop(s, i + |raw|, inDocument, acc + [r], o)
  {
    hide SkipWs, Identify, LineAt, Value, Blank, FindTag;
    NotBlank(s, i, raw);
    IdentifyText(s, i);
    var e := i + |raw|;
    FreeOfCharacter(raw, '<');
    assert s[e..e + 1] == "<";
    MatchesConcat(s, i, raw, "<");
    FindTagAfter(s, i, raw, "<");
    r := PText(LineAt(s, SkipWs(s, i)), StrPair(i, e, o.TextFlags(), true), false);
    assert ParseNode(s, i, KText, LineAt(s, SkipWs(s, i)), o) == NodeParsed(r, OPEN, None, e);
  }

  function KindOfMark(m: Mark): Kind {
    match m
    case CommentMark => KComment
    case SectionMark => KCData
    case DeclarationMark => KDeclaration
    case OtherMark => KUnknown
  }

  lemma MarkTable(m: Mark)
    ensures Header(KindOfMark(m)) == Opener(m) && EndTagOf(KindOfMark(m)) == Closer(m) && SharpTag(Closer(m))
  {
  }

  /** Markup that holds text. */
  lemma {:induction false} MarkRead(s: string, i: nat, m: Mark, raw: string, inDocument: bool, acc: seq<Parsed>, o: Options)
    returns (r: Parsed)
    requires GoodItem(Markup(m, raw)) && Matches(s, i, ItemText(Markup(m, raw)))
    requires m.DeclarationMark? ==> WellLocated(inDocument, acc)
    ensures (r.PDeclaration? <==> m.DeclarationMark?) && DecodeNode(s, r) == MarkMeaning(m, Value(raw, Flags(false, true, false)))
    ensures ParseLoop(s, i, inDocument, acc, o) == ParseLoop(s, i + |ItemText(Markup(m, raw))|, inDocument, acc + [r], o)
  {
    hide SkipWs, Identify, LineAt, Value, Matches, WellLocated, ParseMarkup, ItemText, GoodItem, Opener;
    var start := MarkIdentified(s, i, m, raw);
    var line := LineAt(s, i);
    MarkParsed(s, start, m, raw, line);
    r := MarkupNode(KindOfMark(m), line, StrPair(start, start + |raw|, MARKUP_FLAGS, true));
    assert ParseNode(s, start, KindOfMark(m), line, o) == ParseMarkup(s, start, KindOfMark(m), line);
  }

  /** The markup is recognised for what it is. */
  lemma {:induction false} MarkIdentified(s: string, i: nat, m: Mark, raw: string) returns (start: nat)
    requires GoodItem(Markup(m, raw)) && Matches(s, i, ItemText(Markup(m, raw)))
    ensures SkipWs(s, i) == i < start <= |s| && i < |s| && Identify(s, i) == (KindOfMark(m), start)
    ensures Matches(s, start, raw + Closer(m)) && Free(raw, Closer(m)) && i + |ItemText(Markup(m, raw))| == start + |raw| + |Closer(m)| <= |s|
  {
    hide SkipWs, Identify, Matches, Free, Opener, Closer, Header;
    MarkTable(m);
    start := i + |Opener(m)|;
    MatchesConcat(s, i, Opener(m), raw + Closer(m));
    MatchesConcat(s, start, raw, Closer(m));
    MatchesBounds(s, start, raw + Closer(m));
    if m.OtherMark? {
      MarkEnds(s, i, raw);
      HeaderApart(s, start, raw);
    }
    HeaderIdentified(s, i, KindOfMark(m));
  }

  lemma {:induction false} MarkParsed(s: string, start: nat, m: Mark, raw: string, line: nat)
    requires Matches(s, start, raw + Closer(m)) && Free(raw, Closer(m)) && start <= |s|
    ensures var r := MarkupNode(KindOfMark(m), line, StrPair(start, start + |raw|, MARKUP_FLAGS, true));
      && ParseMarkup(s, start, KindOfMark(m), line) == NodeParsed(r, OPEN, None, start + |raw| + |Closer(m)|)
      && (r.PDeclaration? <==> m.DeclarationMark?) && DecodeNode(s, r) == MarkMeaning(m, Value(raw, Flags(false, true, false)))
  {
    hide FindTag, Value, Matches, Free, Closer, EndTagOf;
    MarkTable(m);
    FindTagAfter(s, start, raw, Closer(m));
  }

  lemma MarkEnds(s: string, i: nat, raw: string)
    requires Matches(s, i + |Opener(OtherMark)| + |raw|, Closer(OtherMark))
    ensures Matches(s, i + 2 + |raw|, ">") && |Opener(OtherMark)| == 2
  {
  }

  /** An end tag ends the list of siblings it stands behind. */
  lemma {:induction false} CloseRead(s: string, i: nat, t: Tag, inDocument: bool, acc: seq<Parsed>, o: Options)
    requires GoodTag(t) && t.slash && !t.sealed && Matches(s, i, TagText(t))
    ensures i + |TagText(t)| <= |s|
    ensures var sp := StrPair(i + 2 + |t.space|, i + 2 + |t.space| + |t.name|, PLAIN, true);
      && ParseLoop(s, i, inDocument, acc, o) == LoopClosed(acc, sp, i + |TagText(t)|)
      && PairValue(s, sp) == t.name
  {
    hide Matches, SkipWs, NameEnd, PairValue, ParseAttributes, TagText, ParseElement, LineAt, Identify, GoodTag, IsNameStartChar;
    MatchesBounds(s, i, TagText(t));
    var rs := TagRead(s, i, t, LineAt(s, i), o);
    TagElement(s, i, t, LineAt(s, i), rs, o);
  }

  /** An element without children. */
  lemma {:induction false} SingleRead(s: string, i: nat, t: Tag, inDocument: bool, acc: seq<Parsed>, o: Options) returns (r: Parsed)
    requires GoodTag(t) && t.sealed && Matches(s, i, TagText(t))
    ensures !r.PDeclaration? && DecodeNode(s, r) == Element(t.name, AttsMeaning(t.atts, o), [])
    ensures ParseLoop(s, i, inDocument, acc, o) == ParseLoop(s, i + |TagText(t)|, inDocument, acc + [r], o)
  {
    hide Matches, SkipWs, NameEnd, PairValue, ParseAttributes, ParseLoop, TagText, ParseElement, LineAt, Identify, GoodTag, IsNameStartChar, DecodeAttributes, AttsMeaning;
    MatchesBounds(s, i, TagText(t));
    var rs := TagRead(s, i, t, LineAt(s, i), o);
    TagElement(s, i, t, LineAt(s, i), rs, o);
    var p := ParseElement(s, i + 1, LineAt(s, i), o);
    R.ElementLinked(s, i, inDocument, acc, p, o);
    r := AfterComparison(p.node, p.endTag);
    R.NoNodes(s);
  }

  /** The element between its tags. */
  lemma {:induction false} PairRead(s: string, i: nat, n: Item, inDocument: bool, acc: seq<Parsed>, o: Options) returns (r: Parsed)
    requires n.Pair? && GoodItem(n) && Matches(s, i, ItemText(n))
    ensures !r.PDeclaration? && DecodeNode(s, r) == Element(n.open.name, AttsMeaning(n.open.atts, o), ItemsMeaning(n.items, o))
    ensures ParseLoop(s, i, inDocument, acc, o) == ParseLoop(s, i + |ItemText(n)|, inDocument, acc + [r], o)
    decreases n, 1
  {
    hide Matches, SkipWs, NameEnd, PairValue, ParseAttributes, ParseLoop, TagText, ParseElement, LineAt, Identify, GoodTag, IsNameStartChar,
         DecodeAttributes, AttsMeaning, ItemsText, ItemsMeaning, GoodItems, Followed, DecodeNodes;
    var b := i + |TagText(n.open)|;
    var c := b + |ItemsText(n.items)|;
    MatchesConcat(s, i, TagText(n.open), ItemsText(n.items) + TagText(n.close));
    MatchesConcat(s, b, ItemsText(n.items), TagText(n.close));
    MatchesBounds(s, i, TagText(n.open));
    var atts := TagRead(s, i, n.open, LineAt(s, i), o);
    BeforeTag(s, c, n.close, n.items);
    var rs := ItemsRead(s, b, n.items, false, false, [], o);
    assert [] + rs == rs;
    CloseRead(s, c, n.close, false, rs, o);
    TagElement(s, i, n.open, LineAt(s, i), atts, o);
    var p := ParseElement(s, i + 1, LineAt(s, i), o);
    R.ElementLinked(s, i, inDocument, acc, p, o);
    r := AfterComparison(p.node, p.endTag);
  }

  lemma BeforeTag(s: string, c: nat, t: Tag, ns: seq<Item>)
    requires Matches(s, c, TagText(t))
    ensures Followed(s, c, ns) && c + 1 < |s| && s[c] == '<'
  {
    hide AttsText;
    MatchesChar(s, c, TagText(t), 0);
    MatchesChar(s, c, TagText(t), 1);
  }

  /** One item that gives a node. */
  lemma {:induction false} ItemRead(s: string, i: nat, n: Item, inDocument: bool, acc: seq<Parsed>, o: Options) returns (r: Parsed)
    requires GoodItem(n) && !BlankChars(n) && Matches(s, i, ItemText(n)) && (Declares(n) ==> WellLocated(inDocument, acc))
    requires i + |ItemText(n)| <= |s| && Followed(s, i + |ItemText(n)|, [n])
    ensures (r.PDeclaration? <==> Declares(n)) && ItemMeaning(n, o) == [DecodeNode(s, r)]
    ensures ParseLoop(s, i, inDocument, acc, o) == ParseLoop(s, i + |ItemText(n)|, inDocument, acc + [r], o)
    decreases n, 2
  {
    hide Matches, ParseLoop, DecodeNode, Value, AttsMeaning, ItemsMeaning, ItemsText, GoodTag, TagText, WellLocated, Blank, Opener, Closer;
    match n
    case Chars(raw) => r := CharsRead(s, i, raw, inDocument, acc, o);
    case Markup(mark, raw) => r := MarkRead(s, i, mark, raw, inDocument, acc, o);
    case Single(tag) => r := SingleRead(s, i, tag, inDocument, acc, o);
    case Pair(_, _, _) => r := PairRead(s, i, n, inDocument, acc, o);
  }

  /** Siblings are read as what they mean, and parsing goes on right behind them. */
  lemma {:induction false} ItemsRead(s: string, i: nat, ns: seq<Item>, first: bool, inDocument: bool, acc: seq<Parsed>, o: Options)
    returns (rs: seq<Parsed>)
    requires GoodItems(ns, first) && (first ==> WellLocated(inDocument, acc))
    requires Matches(s, i, ItemsText(ns)) && Followed(s, i + |ItemsText(ns)|, ns)
    ensures i + |ItemsText(ns)| <= |s| && DecodeNodes(s, rs) == ItemsMeaning(ns, o)
    ensures ParseLoop(s, i, inDocument, acc, o) == ParseLoop(s, i + |ItemsText(ns)|, inDocument, acc + rs, o)
    decreases ns, 0
  {
    hide Matches, ParseLoop, DecodeNode, ItemText, ItemMeaning, GoodItem, Followed, Blank, WellLocated;
    MatchesBounds(s, i, ItemsText(ns));
    if ns == [] {
      rs := [];
      assert acc + rs == acc;
    } else {
      FirstItem(s, i, ns, first);
      var e := i + |ItemText(ns[0])|;
      if BlankChars(ns[0]) {
        BlankItem(s, i, ns[0], inDocument, acc, o);
        rs := ItemsRead(s, e, ns[1..], first, inDocument, acc, o);
      } else {
        var r := ItemRead(s, i, ns[0], inDocument, acc, o);
        StillFirst(first && Declares(ns[0]), inDocument, acc, r);
        var rest := ItemsRead(s, e, ns[1..], first && Declares(ns[0]), inDocument, acc + [r], o);
        rs := [r] + rest;
        assert acc + rs == acc + [r] + rest;
        assert rs[1..] == rest;
      }
    }
  }

  lemma StillFirst(first: bool, inDocument: bool, acc: seq<Parsed>, r: Parsed)
    requires first ==> WellLocated(inDocument, acc) && r.PDeclaration?
    ensures first ==> WellLocated(inDocument, acc + [r])
  {
  }

  lemma {:induction false} BlankItem(s: string, i: nat, n: Item, inDocument: bool, acc: seq<Parsed>, o: Options)
    requires BlankChars(n) && Matches(s, i, ItemText(n)) && i + |ItemText(n)| <= |s| && Followed(s, i + |ItemText(n)|, [n])
    ensures ItemMeaning(n, o) == []
    ensures ParseLoop(s, i, inDocument, acc, o) == ParseLoop(s, i + |ItemText(n)|, inDocument, acc, o)
  {
    hide Matches, ParseLoop, Blank;
    BlankRead(s, i, n.raw, inDocument, acc, o);
  }

  // ------------------------------------------------------------- documents are read

  /** What the items begin with. */
  lemma {:induction false} SpeltStarts(d: Spelt, s: string, p: nat)
    requires GoodSpelt(d) && p <= |s| && s[p..] == ItemsText(d.items) + StrayText(d.stray)
    ensures p < |s|
    ensures d.items == [] || !d.items[0].Chars? ==> s[p] == '<'
    ensures d.items != [] && d.items[0].Chars? ==>
      var raw := d.items[0].raw; raw != "" && s[p] == raw[0] && Matches(s, p, raw) && (p + |raw| < |s| ==> s[p + |raw|] == '<')
  {
    hide Blank, GoodItem, ItemText, AttsText;
    var rest := ItemsText(d.items) + StrayText(d.stray);
    Behind(s, p, ItemsText(d.items), StrayText(d.stray));
    if d.items == [] {
      assert "" + StrayText(d.stray) == StrayText(d.stray);
      assert s[p] == rest[0] == '<';
    } else {
      MatchesConcat(s, p, ItemText(d.items[0]), ItemsText(d.items[1..]));
      if d.items[0].Chars? {
        CharsFirst(d, s, p);
      } else {
        ItemStarts(d.items[0]);
        MatchesChar(s, p, ItemText(d.items[0]), 0);
      }
    }
  }

  lemma Behind(s: string, p: nat, a: string, b: string)
    requires p <= |s| && s[p..] == a + b
    ensures Matches(s, p, a) && Matches(s, p + |a|, b) && p + |a| + |b| == |s|
  {
    assert s[p..p + |a|] == s[p..][..|a|] == a;
    assert s[p + |a|..p + |a| + |b|] == s[p..][|a|..] == b;
  }

  lemma {:induction false} CharsFirst(d: Spelt, s: string, p: nat)
    requires GoodSpelt(d) && d.items != [] && d.items[0].Chars?
    requires Matches(s, p, ItemText(d.items[0])) && Matches(s, p + |ItemText(d.items[0])|, ItemsText(d.items[1..]))
    requires Matches(s, p + |ItemsText(d.items)|, StrayText(d.stray)) && p + |ItemsText(d.items)| + |StrayText(d.stray)| == |s|
    ensures var raw := d.items[0].raw; raw != "" && p < |s| && s[p] == raw[0] && Matches(s, p, raw) && (p + |raw| < |s| ==> s[p + |raw|] == '<')
  {
    hide Matches, Blank, AttsText;
    var raw := d.items[0].raw;
    var e := p + |raw|;
    assert GoodItem(d.items[0]);
    MatchesChar(s, p, raw, 0);
    if |d.items| > 1 {
      var rest := d.items[1..];
      assert rest[0] == d.items[1] && GoodItems(rest, BlankChars(d.items[0]));
      assert GoodItem(rest[0]);
      MatchesConcat(s, e, ItemText(d.items[1]), ItemsText(d.items[1..][1..]));
      ItemStarts(d.items[1]);
      MatchesChar(s, e, ItemText(d.items[1]), 0);
    } else if d.stray.Some? {
      MatchesChar(s, e, StrayText(d.stray), 0);
    }
  }

  /** The byte order mark is where the spelling says. */
  lemma {:induction false} MarkRecognised(d: Spelt, s: string)
    requires GoodSpelt(d) && s == SpeltText(d)
    ensures SkipWs(s, 0) == |d.lead| && (Matches(s, |d.lead|, BOM) <==> d.bom)
    ensures var p := |d.lead| + if d.bom then 3 else 0; p < |s| && s[p..] == ItemsText(d.items) + StrayText(d.stray)
  {
    hide ItemsText, StrayText, Matches, Blank, SkipWs, GoodItems;
    var i := |d.lead|;
    var t := ItemsText(d.items) + StrayText(d.stray);
    var mark := if d.bom then MARK else "";
    assert s[0..] == s && s[i..] == mark + t;
    Behind(s, 0, d.lead, mark + t);
    Behind(s, i, mark, t);
    var p := i + |mark|;
    assert s[p..] == t;
    SpeltStarts(d, s, p);
    if d.bom {
      MatchesChar(s, i, MARK, 0);
      Skipped(s, 0, d.lead);
    } else {
      NoMark(d, s, i);
      Skipped(s, 0, d.lead);
    }
  }

  lemma {:induction false} NoMark(d: Spelt, s: string, i: nat)
    requires GoodSpelt(d) && !d.bom && i < |s| && s[i..] == ItemsText(d.items) + StrayText(d.stray)
    ensures !IsWhiteSpace(s[i]) && !Matches(s, i, BOM)
  {
    hide ItemsText, StrayText, Matches, Blank, GoodItems;
    SpeltStarts(d, s, i);
    if d.items != [] && d.items[0].Chars? {
      var raw := d.items[0].raw;
      if |raw| < 3 {
        NoMatch(s, i, BOM, |raw|);
      } else {
        MatchesInside(s, i, raw, 0, BOM);
      }
    } else {
      NoMatch(s, i, BOM, 0);
    }
  }

  /** A document is what the loop makes of the text behind the byte order mark. */
  lemma WholeRead(s: string, i: nat, bom: bool, rs: seq<Parsed>, o: Options)
    requires SkipWs(s, 0) == i && (Matches(s, i, BOM) <==> bom)
    requires var p := i + if bom then 3 else 0;
      p < |s| && var r := ParseLoop(s, p, true, [], o); r == LoopEnded(rs) || (r.LoopClosed? && r.nodes == rs)
    ensures ReadDocument(s, o) == Read(Document(bom, DecodeNodes(s, rs)))
  {
    hide SkipWs, Matches, ParseLoop, DecodeNodes;
  }

  /** What is spelled well is read as what it means. */
  lemma {:induction false} SpeltRead(d: Spelt, o: Options)
    requires GoodSpelt(d)
    ensures ReadDocument(SpeltText(d), o) == Read(Document(d.bom, ItemsMeaning(d.items, o)))
  {
    hide ItemsText, StrayText, Matches, Blank, SkipWs, GoodItems, ParseLoop, ItemsMeaning, SpeltText, Followed, ReadDocument;
    var s := SpeltText(d);
    MarkRecognised(d, s);
    var p := |d.lead| + if d.bom then 3 else 0;
    var e := p + |ItemsText(d.items)|;
    Behind(s, p, ItemsText(d.items), StrayText(d.stray));
    EndFollowed(d, s, e);
    var rs := ItemsRead(s, p, d.items, true, true, [], o);
    assert [] + rs == rs;
    if d.stray == None {
      EndReached(s, rs, o);
    } else {
      MatchesConcat(s, e, TagText(d.stray.value.close), d.stray.value.rest);
      assert StrayText(d.stray) == TagText(d.stray.value.close) + d.stray.value.rest by { StrayIs(d.stray); }
      CloseRead(s, e, d.stray.value.close, true, rs, o);
    }
    WholeRead(s, |d.lead|, d.bom, rs, o);
  }

  lemma StrayIs(x: Option<Stray>)
    ensures if x.Some? then StrayText(x) == TagText(x.value.close) + x.value.rest else StrayText(x) == ""
  {
  }

  lemma EndReached(s: string, acc: seq<Parsed>, o: Options)
    ensures ParseLoop(s, |s|, true, acc, o) == LoopEnded(acc)
  {
  }

  lemma {:induction false} EndFollowed(d: Spelt, s: string, e: nat)
    requires GoodSpelt(d) && Matches(s, e, StrayText(d.stray)) && e + |StrayText(d.stray)| == |s|
    ensures Followed(s, e, d.items) && (d.stray == None ==> e == |s|)
  {
    hide AttsText, Blank, GoodItems, Matches;
    if d.stray.Some? {
      MatchesChar(s, e, StrayText(d.stray), 0);
      MatchesChar(s, e, StrayText(d.stray), 1);
    }
  }
}
