/**
 Reading back what the compact printer wrote.

 Each lemma follows one printing function: given its output at an offset of the text, the
 matching parsing function consumes exactly that output.
 */
module XmlRoundTrip {
  import opened Wrappers
  import opened XmlText
  import opened XmlDecode
  import opened XmlTree
  import opened XmlParserSpec
  import opened XmlPrinterSpec
  import opened XmlEscape

  // ------------------------------------------------------------- end tags

  /** The last character of an end tag differs from its others, so tags do not overlap. */
  ghost predicate SharpTag(tag: string) {
    tag != "" && NulFree(tag) && forall j | 0 <= j < |tag| - 1 :: tag[j] != tag[|tag| - 1]
  }

  lemma {:induction false} TagNotEarlier(s: string, i: nat, v: string, tag: string, k: nat)
    requires SharpTag(tag) && Free(v, tag) && Matches(s, i, v + tag) && k < |v|
    ensures !Matches(s, i + k, tag)
  {
    MatchesConcat(s, i, v, tag);
    if k + |tag| <= |v| {
      MatchesInside(s, i, v, k, tag);
    } else {
      var last := |tag| - 1;
      MatchesChar(s, i + |v|, tag, k + last - |v|);
      NoMatch(s, i + k, tag, last);
    }
  }

  lemma {:induction false} FindTagAfter(s: string, i: nat, v: string, tag: string)
    requires SharpTag(tag) && Free(v, tag) && Matches(s, i, v + tag)
    ensures i + |v| <= |s| && s[i..i + |v|] == v
    ensures FindTag(s, i, tag) == Some(i + |v|)
  {
    MatchesConcat(s, i, v, tag);
    forall k | i <= k < i + |v| ensures !Matches(s, k, tag) {
      TagNotEarlier(s, i, v, tag, k - i);
    }
    FindTagAt(s, i, i + |v|, tag);
  }

  lemma {:induction false} FreeOfCharacter(v: string, c: char)
    requires forall k | 0 <= k < |v| :: v[k] != c
    ensures Free(v, [c])
  {
    forall k | 0 <= k < |v| ensures !Matches(v, k, [c]) {
      assert v[k..k + 1] == [v[k]];
    }
  }

  // ------------------------------------------------------------- names and attributes

  lemma {:induction false} NameNulFree(name: string)
    requires IsName(name)
    ensures NulFree(name)
    ensures Value(name, PLAIN) == name
  {
    assert forall k | 0 <= k < |name| :: IsNameChar(name[k]);
    CStrOfNulFree(name);
  }

  /** A name in the text, followed by something else, is scanned to its end. */
  lemma {:induction false} NameScanned(s: string, i: nat, name: string)
    requires IsName(name) && Matches(s, i, name)
    requires !IsNameChar(At(s, i + |name|))
    ensures i < |s| && IsNameStartChar(s[i])
    ensures NameEnd(s, i + 1) == i + |name|
    ensures PairValue(s, StrPair(i, i + |name|, PLAIN, false)) == name
    ensures PairValue(s, StrPair(i, i + |name|, PLAIN, true)) == name
  {
    forall k | 0 <= k < |name| ensures s[i + k] == name[k] {
      MatchesChar(s, i, name, k);
    }
    forall k | i + 1 <= k < i + |name| ensures IsNameChar(s[k]) {
      assert s[k] == s[i + (k - i)] == name[k - i];
    }
    NameEndAt(s, i + 1, i + |name|);
    NameNulFree(name);
  }

  /** The pieces of a printed attribute. */
  lemma {:induction false} AttributeSplit(s: string, i: nat, a: Attribute)
    requires Matches(s, i, PrintAttribute(a))
    ensures var e := i + 1 + |a.name|;
            && Matches(s, i, " ") && Matches(s, i + 1, a.name) && Matches(s, e, "=\"")
            && Matches(s, e + 2, Escape(a.value, false))
            && Matches(s, e + 2 + |Escape(a.value, false)|, "\"")
            && e + 3 + |Escape(a.value, false)| == i + |PrintAttribute(a)|
  {
    hide Escape, Matches;
    var v := Escape(a.value, false);
    MatchesConcat(s, i, " " + a.name + "=\"" + v, "\"");
    MatchesConcat(s, i, " " + a.name + "=\"", v);
    MatchesConcat(s, i, " " + a.name, "=\"");
    MatchesConcat(s, i, " ", a.name);
  }

  lemma {:induction false} AttributeRead(s: string, i: nat, a: Attribute)
    requires IsName(a.name) && NulFree(a.value) && Matches(s, i, PrintAttribute(a))
    ensures SkipWs(s, i) == i + 1 < |s| && s[i] == ' ' && IsNameStartChar(s[i + 1])
    ensures var r := ParseAttribute(s, i + 1, DEFAULT_OPTIONS);
            && r.OneAttribute?
            && r.next == i + |PrintAttribute(a)|
            && PairValue(s, r.attribute.name) == a.name
            && PairValue(s, r.attribute.value) == Normal(a.value)
  {
    hide Escape, FindTag, NameEnd, SkipWs, PairValue, LineAt, Matches, PrintAttribute;
    var e := i + 1 + |a.name|;
    AttributeSplit(s, i, a);
    MatchesChar(s, i, " ", 0);
    MatchesChar(s, e, "=\"", 0);
    MatchesChar(s, e, "=\"", 1);
    NameScanned(s, i + 1, a.name);
    SkipWsAt(s, i, i + 1);
    SkipWsAt(s, e, e);
    SkipWsAt(s, e + 1, e + 1);
    AttributeValueRead(s, e + 2, a.value);
  }

  lemma {:induction false} AttributeValueRead(s: string, i: nat, value: string)
    requires NulFree(value)
    requires Matches(s, i, Escape(value, false)) && Matches(s, i + |Escape(value, false)|, "\"")
    ensures var j := i + |Escape(value, false)|;
            && j <= |s| && FindTag(s, i, "\"") == Some(j)
            && PairValue(s, StrPair(i, j, DEFAULT_OPTIONS.AttributeFlags(), true)) == Normal(value)
  {
    hide Escape, FindTag, Value, SkipWs, DecodeFrom, Normal;
    var v := Escape(value, false);
    EscapeHasNoDelimiter(value, false);
    FreeOfCharacter(v, '"');
    MatchesConcat(s, i, v, "\"");
    FindTagAfter(s, i, v, "\"");
    ValueOfEscaped(value, false);
  }

  ghost predicate NamesApart(s: string, acc: seq<ParsedAttribute>, atts: seq<Attribute>) {
    forall j, k | 0 <= j < |acc| && 0 <= k < |atts| :: PairValue(s, acc[j].name) != atts[k].name
  }

  lemma {:induction false} FirstGood(atts: seq<Attribute>)
    requires atts != [] && GoodAttributes(atts)
    ensures IsName(atts[0].name) && NulFree(atts[0].value)
  {
  }

  lemma {:induction false} NamesStayApart(s: string, acc: seq<ParsedAttribute>, r: ParsedAttribute, atts: seq<Attribute>)
    requires atts != [] && GoodAttributes(atts) && NamesApart(s, acc, atts)
    requires PairValue(s, r.name) == atts[0].name
    ensures !HasAttribute(s, acc, atts[0].name)
    ensures GoodAttributes(atts[1..]) && NamesApart(s, acc + [r], atts[1..])
  {
    hide PairValue, IsName;
    assert forall k | 0 <= k < |atts[1..]| :: atts[1..][k] == atts[k + 1];
    forall j, k | 0 <= j < |acc + [r]| && 0 <= k < |atts[1..]|
      ensures PairValue(s, (acc + [r])[j].name) != atts[1..][k].name
    {
      assert atts[1..][k] == atts[k + 1];
    }
  }

  lemma {:induction false} AttributesRead(s: string, i: nat, atts: seq<Attribute>, acc: seq<ParsedAttribute>, line: nat)
    returns (rs: seq<ParsedAttribute>)
    requires GoodAttributes(atts) && NamesApart(s, acc, atts)
    requires Matches(s, i, PrintAttributes(atts))
    ensures i + |PrintAttributes(atts)| <= |s|
    ensures DecodeAttributes(s, rs) == NormalAttributes(atts)
    ensures ParseAttributes(s, i, line, acc, DEFAULT_OPTIONS)
         == ParseAttributes(s, i + |PrintAttributes(atts)|, line, acc + rs, DEFAULT_OPTIONS)
    decreases |atts|
  {
    hide ParseAttribute, PairValue, Normal, Escape, PrintAttribute, NamesApart, GoodAttributes, HasAttribute, Matches, IsName, SkipWs;
    MatchesBounds(s, i, PrintAttributes(atts));
    if atts == [] {
      rs := [];
      assert acc + rs == acc;
    } else {
      var a := atts[0];
      var next := i + |PrintAttribute(a)|;
      MatchesConcat(s, i, PrintAttribute(a), PrintAttributes(atts[1..]));
      assert IsName(a.name) && NulFree(a.value) by { FirstGood(atts); }
      AttributeRead(s, i, a);
      var r := ParseAttribute(s, i + 1, DEFAULT_OPTIONS).attribute;
      NamesStayApart(s, acc, r, atts);
      var rest := AttributesRead(s, next, atts[1..], acc + [r], line);
      rs := [r] + rest;
      assert acc + rs == acc + [r] + rest;
      assert rs[0] == r && rs[1..] == rest;
    }
  }

  // ------------------------------------------------------------- plain text

  lemma {:induction false} PrintRun(ns: seq<Node>, m: nat)
    requires m <= |ns| && forall k | 0 <= k < m :: IsPlainText(ns[k])
    ensures PrintNodes(ns) == Escape(RunText(ns[..m]), true) + PrintNodes(ns[m..])
  {
    hide Escape;
    if m == 0 {
      EscapeHead("", true);
      assert ns[..0] == [] && ns[0..] == ns;
    } else {
      assert IsPlainText(ns[0]);
      PrintTextFirst(ns);
      hide PrintNodes;
      var rest, run := ns[1..], ns[1..][..m - 1];
      assert forall k | 0 <= k < m - 1 :: rest[k] == ns[k + 1];
      PrintRun(rest, m - 1);
      assert RunText(ns[..m]) == ns[0].value + RunText(run) by { assert ns[..m][1..] == run; }
      assert rest[m - 1..] == ns[m..];
      EscapeAppend(ns[0].value, RunText(run), true);
      ConcatAssociative(Escape(ns[0].value, true), Escape(RunText(run), true), PrintNodes(ns[m..]));
    }
  }

  lemma {:induction false} PrintTextFirst(ns: seq<Node>)
    requires ns != [] && IsPlainText(ns[0])
    ensures PrintNodes(ns) == Escape(ns[0].value, true) + PrintNodes(ns[1..])
  {
    hide Escape;
  }

  lemma {:induction false} RunNulFree(ns: seq<Node>)
    requires AllWellFormed(ns) && forall k | 0 <= k < |ns| :: IsPlainText(ns[k])
    ensures NulFree(RunText(ns))
  {
    if ns != [] {
      assert IsPlainText(ns[0]);
      RunNulFree(ns[1..]);
    }
  }

  /** Leading whitespace of a value is written as it is. */
  lemma {:induction false} EscapeLeading(v: string, k: nat)
    requires k <= |v| && forall j | 0 <= j < k :: IsWhiteSpace(v[j])
    ensures Escape(v, true) == v[..k] + Escape(v[k..], true)
  {
    hide Escape;
    if k == 0 {
      assert v[..0] == "" && v[0..] == v;
    } else {
      EscapeHead(v, true);
      EscapeLeading(v[1..], k - 1);
      var front, back := v[1..][..k - 1], Escape(v[k..], true);
      assert v[1..][k - 1..] == v[k..];
      assert v[..k] == [v[0]] + front;
      ConcatAssociative([v[0]], front, back);
    }
  }

  /** A written value and the value itself have the same leading whitespace. */
  lemma {:induction false} SkipEscaped(s: string, i: nat, v: string)
    requires Matches(s, i, Escape(v, true))
    requires i + |Escape(v, true)| == |s| || s[i + |Escape(v, true)|] == '<'
    ensures SkipWs(s, i) == i + SkipWs(v, 0)
    ensures !Blank(v) ==> SkipWs(s, i) < i + |Escape(v, true)| && s[SkipWs(s, i)] != '<'
    ensures Blank(v) ==> |Escape(v, true)| == |v|
  {
    hide Escape, SkipWs, Matches;
    var k := SkipWs(v, 0);
    var e := Escape(v, true);
    LeadingWritten(v);
    MatchesBounds(s, i, e);
    forall j | i <= j < i + k ensures IsWhiteSpace(s[j]) {
      MatchesChar(s, i, e, j - i);
    }
    if k < |v| {
      MatchesChar(s, i, e, k);
    }
    SkipWsAt(s, i, i + k);
  }

  lemma {:induction false} LeadingWritten(v: string)
    ensures var k, e := SkipWs(v, 0), Escape(v, true);
            && k <= |e|
            && (forall j | 0 <= j < k :: IsWhiteSpace(e[j]))
            && (k == |v| ==> |e| == |v|)
            && (k < |v| ==> k < |e| && !IsWhiteSpace(e[k]) && e[k] != '<')
            && (Blank(v) <==> k == |v|)
  {
    hide Escape;
    var k, e := SkipWs(v, 0), Escape(v, true);
    EscapeLeading(v, k);
    EscapeHead(v[k..], true);
    EscapeHasNoDelimiter(v, true);
    forall j | 0 <= j < k ensures e[j] == v[j] {
      assert e[j] == v[..k][j];
    }
    if k < |v| {
      assert v[k..][0] == v[k];
      assert e[k] == Escape(v[k..], true)[0];
    }
  }

  /** After whitespace only, the loop is where it would be behind it. */
  lemma {:induction false} LoopSkips(s: string, i: nat, j: nat, inDocument: bool, acc: seq<Parsed>, o: Options)
    requires i <= j <= |s| && SkipWs(s, i) == j
    requires j < |s| ==> s[j] == '<'
    ensures ParseLoop(s, i, inDocument, acc, o) == ParseLoop(s, j, inDocument, acc, o)
  {
    SkipWsAt(s, j, j);
    if j < |s| {
      assert s[j..j + 1] == "<";
      assert Identify(s, i) == Identify(s, j);
    }
  }

  lemma {:induction false} TextRead(s: string, i: nat, v: string, inDocument: bool, acc: seq<Parsed>)
    returns (rs: seq<Parsed>)
    requires NulFree(v) && Matches(s, i, Escape(v, true))
    requires var e := i + |Escape(v, true)|; e + 1 < |s| && s[e] == '<'
    ensures DecodeNodes(s, rs) == if Blank(v) then [] else [Text(Normal(v), false)]
    ensures |rs| <= 1 && (rs != [] ==> rs[0].PText?)
    ensures ParseLoop(s, i, inDocument, acc, DEFAULT_OPTIONS)
         == ParseLoop(s, i + |Escape(v, true)|, inDocument, acc + rs, DEFAULT_OPTIONS)
  {
    var e := i + |Escape(v, true)|;
    SkipEscaped(s, i, v);
    if Blank(v) {
      rs := [];
      assert acc + rs == acc;
      LoopSkips(s, i, e, inDocument, acc, DEFAULT_OPTIONS);
    } else {
      rs := TextNodeRead(s, i, v, inDocument, acc);
    }
  }

  lemma {:induction false} IdentifyText(s: string, i: nat)
    requires i <= |s| && SkipWs(s, i) < |s| && s[SkipWs(s, i)] != '<'
    ensures Identify(s, i) == (KText, i)
  {
    var p := SkipWs(s, i);
    NoMatch(s, p, "<?", 0);
    NoMatch(s, p, "<!--", 0);
    NoMatch(s, p, "<![CDATA[", 0);
    NoMatch(s, p, "<!", 0);
    NoMatch(s, p, "<", 0);
  }

  lemma {:induction false} PlainTextParsed(s: string, i: nat, v: string, line: nat)
    requires NulFree(v) && Matches(s, i, Escape(v, true))
    requires var e := i + |Escape(v, true)|; e + 1 < |s| && s[e] == '<'
    requires SkipWs(s, i) < |s| && s[SkipWs(s, i)] != '<'
    ensures var e, sp := i + |Escape(v, true)|, StrPair(i, i + |Escape(v, true)|, TEXT_FLAGS, true);
            && ParsePlainText(s, i, line, DEFAULT_OPTIONS) == NodeParsed(PText(line, sp, false), OPEN, None, e)
            && PairValue(s, sp) == Normal(v)
  {
    hide Escape, FindTag, Value, SkipWs, DecodeFrom, Normal;
    var w := Escape(v, true);
    var e := i + |w|;
    EscapeHasNoDelimiter(v, true);
    FreeOfCharacter(w, '<');
    assert s[e..e + 1] == "<";
    MatchesConcat(s, i, w, "<");
    FindTagAfter(s, i, w, "<");
    ValueOfEscaped(v, true);
  }

  lemma {:induction false} TextNodeRead(s: string, i: nat, v: string, inDocument: bool, acc: seq<Parsed>)
    returns (rs: seq<Parsed>)
    requires NulFree(v) && Matches(s, i, Escape(v, true))
    requires var e := i + |Escape(v, true)|; e + 1 < |s| && s[e] == '<'
    requires SkipWs(s, i) < |s| && s[SkipWs(s, i)] != '<'
    ensures |rs| == 1 && rs[0].PText? && DecodeNodes(s, rs) == [Text(Normal(v), false)]
    ensures ParseLoop(s, i, inDocument, acc, DEFAULT_OPTIONS)
         == ParseLoop(s, i + |Escape(v, true)|, inDocument, acc + rs, DEFAULT_OPTIONS)
  {
    hide Escape, Identify, Normal, PairValue, ParsePlainText, SkipWs, LineAt;
    var line := LineAt(s, SkipWs(s, i));
    IdentifyText(s, i);
    PlainTextParsed(s, i, v, line);
    rs := [PText(line, StrPair(i, i + |Escape(v, true)|, TEXT_FLAGS, true), false)];
    assert rs[1..] == [];
  }

  // ------------------------------------------------------------- markup

  /** How each kind of markup begins. */
  function Header(kind: Kind): string
    requires !kind.KText?
  {
    match kind
    case KDeclaration => "<?"
    case KComment => "<!--"
    case KCData => "<![CDATA["
    case KUnknown => "<!"
    case KElement => "<"
  }

  /** A header is identified, provided no longer one is spelled out. */
  lemma {:induction false} HeaderIdentified(s: string, i: nat, kind: Kind)
    requires !kind.KText? && Matches(s, i, Header(kind))
    requires kind.KUnknown? ==> !Matches(s, i + 2, "--") && !Matches(s, i + 2, "[CDATA[")
    requires kind.KElement? ==> At(s, i + 1) != '?' && At(s, i + 1) != '!'
    ensures SkipWs(s, i) == i < |s|
    ensures Identify(s, i) == (kind, i + |Header(kind)|)
  {
    MatchesChar(s, i, Header(kind), 0);
    SkipWsAt(s, i, i);
    if !kind.KDeclaration? && !kind.KElement? {
      MatchesChar(s, i, Header(kind), 1);
      NoMatch(s, i, "<?", 1);
    }
    if kind.KElement? {
      NoMatch(s, i, "<?", 1);
      NoMatch(s, i, "<!--", 1);
      NoMatch(s, i, "<![CDATA[", 1);
      NoMatch(s, i, "<!", 1);
    }
    if kind.KCData? {
      MatchesChar(s, i, Header(kind), 2);
      NoMatch(s, i, "<!--", 2);
    }
    if kind.KUnknown? {
      assert "<!" + "--" == "<!--";
      assert "<!" + "[CDATA[" == "<![CDATA[";
      MatchesConcat(s, i, "<!", "--");
      MatchesConcat(s, i, "<!", "[CDATA[");
    }
  }

  /** The kind and the value of a node whose body is all text. */
  function KindOf(n: Node): Kind {
    match n
    case Element(_, _, _) => KElement
    case Text(_, cdata) => if cdata then KCData else KText
    case Comment(_) => KComment
    case Declaration(_) => KDeclaration
    case Unknown(_) => KUnknown
  }

  lemma {:induction false} MarkupParsed(s: string, start: nat, kind: Kind, v: string, line: nat)
    requires NulFree(v) && Free(v, EndTagOf(kind)) && Matches(s, start, v + EndTagOf(kind))
    ensures var sp := StrPair(start, start + |v|, MARKUP_FLAGS, true);
            && ParseMarkup(s, start, kind, line)
               == NodeParsed(MarkupNode(kind, line, sp), OPEN, None, start + |v| + |EndTagOf(kind)|)
            && PairValue(s, sp) == Normal(v)
  {
    hide FindTag, Value, Normal, Free, MarkupNode;
    FindTagAfter(s, start, v, EndTagOf(kind));
    ValueOfMarkup(v);
  }

  /** A printed node whose body is all text: header, value, end tag. */
  lemma {:induction false} MarkupSplit(s: string, i: nat, n: Node)
    requires !n.Element? && !IsPlainText(n) && Matches(s, i, PrintNode(n))
    ensures var header, tag := Header(KindOf(n)), EndTagOf(KindOf(n));
            && |PrintNode(n)| == |header| + |n.value| + |tag|
            && i + |PrintNode(n)| <= |s|
            && Matches(s, i, header)
            && Matches(s, i + |header|, n.value + tag)
            && Matches(s, i + |header|, n.value)
            && Matches(s, i + |header| + |n.value|, tag)
  {
    hide Matches;
    var header, tag := Header(KindOf(n)), EndTagOf(KindOf(n));
    assert PrintNode(n) == header + n.value + tag;
    MatchesConcat(s, i, header + n.value, tag);
    MatchesConcat(s, i, header, n.value);
    MatchesConcat(s, i + |header|, n.value, tag);
    assert i + |PrintNode(n)| <= |s| by { MatchesBounds(s, i, PrintNode(n)); }
  }

  lemma {:induction false} MarkupRead(s: string, i: nat, n: Node)
    requires WellFormed(n) && !n.Element? && !IsPlainText(n)
    requires Matches(s, i, PrintNode(n))
    ensures SkipWs(s, i) == i < |s|
    ensures Identify(s, i) == (KindOf(n), i + |Header(KindOf(n))|)
    ensures i + |PrintNode(n)| <= |s|
    ensures var start, next := i + |Header(KindOf(n))|, i + |PrintNode(n)|;
            var sp := StrPair(start, start + |n.value|, MARKUP_FLAGS, true);
            var line := LineAt(s, i);
            && ParseMarkup(s, start, KindOf(n), line)
               == NodeParsed(MarkupNode(KindOf(n), line, sp), OPEN, None, next)
            && PairValue(s, sp) == Normal(n.value)
  {
    hide LineAt, Value, Normal, SkipWs, Identify, ParseMarkup, PrintNode, PairValue, Matches;
    var kind := KindOf(n);
    var start := i + |Header(kind)|;
    MarkupSplit(s, i, n);
    if kind.KUnknown? {
      HeaderApart(s, start, n.value);
    }
    HeaderIdentified(s, i, kind);
    MarkupParsed(s, start, kind, n.value, LineAt(s, i));
  }

  /** An unknown's value followed by its `>` spells out no longer header. */
  lemma {:induction false} HeaderApart(s: string, i: nat, v: string)
    requires Matches(s, i, v) && Matches(s, i + |v|, ">")
    requires !Matches(v, 0, "--") && !Matches(v, 0, "[CDATA[")
    ensures !Matches(s, i, "--") && !Matches(s, i, "[CDATA[")
  {
    MatchesChar(s, i + |v|, ">", 0);
    PrefixApart(s, i, v, "--");
    PrefixApart(s, i, v, "[CDATA[");
  }

  lemma {:induction false} PrefixApart(s: string, i: nat, v: string, w: string)
    requires Matches(s, i, v) && At(s, i + |v|) == '>'
    requires !Matches(v, 0, w) && forall k | 0 <= k < |w| :: w[k] != '>' && w[k] != NUL
    ensures !Matches(s, i, w)
  {
    if |w| <= |v| {
      MatchesInside(s, i, v, 0, w);
    } else {
      NoMatch(s, i, w, |v|);
    }
  }

  // ------------------------------------------------------------- elements

  lemma {:induction false} AttributeStart(a: Attribute)
    ensures PrintAttribute(a) != "" && PrintAttribute(a)[0] == ' '
  {
    hide Escape;
  }

  /** The head of an element up to, not including, its `>` or `/>`. */
  lemma {:induction false} HeadRead(s: string, i: nat, name: string, atts: seq<Attribute>, line: nat)
    returns (rs: seq<ParsedAttribute>)
    requires IsName(name) && GoodAttributes(atts)
    requires Matches(s, i, name + PrintAttributes(atts))
    requires var e := i + |name + PrintAttributes(atts)|; At(s, e) == '>' || At(s, e) == '/'
    ensures var e := i + |name + PrintAttributes(atts)|;
            && e <= |s|
            && ParseAttributes(s, i + |name|, line, [], DEFAULT_OPTIONS) == ParseAttributes(s, e, line, rs, DEFAULT_OPTIONS)
    ensures DecodeAttributes(s, rs) == NormalAttributes(atts)
    ensures i < |s| && IsNameStartChar(s[i])
    ensures NameEnd(s, i + 1) == i + |name|
    ensures PairValue(s, StrPair(i, i + |name|, PLAIN, false)) == name
  {
    hide PairValue, NameEnd, Normal, Escape, ParseAttributes, GoodAttributes, Matches, PrintAttribute;
    MatchesConcat(s, i, name, PrintAttributes(atts));
    if atts != [] {
      MatchesConcat(s, i + |name|, PrintAttribute(atts[0]), PrintAttributes(atts[1..]));
      AttributeStart(atts[0]);
      MatchesChar(s, i + |name|, PrintAttribute(atts[0]), 0);
    }
    NameScanned(s, i, name);
    rs := AttributesRead(s, i + |name|, atts, [], line);
    assert [] + rs == rs;
  }

  lemma {:induction false} HeadEnds(s: string, e: nat, line: nat, rs: seq<ParsedAttribute>)
    requires e <= |s|
    ensures Matches(s, e, ">") ==>
              ParseAttributes(s, e, line, rs, DEFAULT_OPTIONS) == Attributes(rs, e + 1, false)
    ensures Matches(s, e, "/>") ==>
              ParseAttributes(s, e, line, rs, DEFAULT_OPTIONS) == Attributes(rs, e + 2, true)
  {
    if Matches(s, e, ">") {
      MatchesChar(s, e, ">", 0);
      SkipWsAt(s, e, e);
    }
    if Matches(s, e, "/>") {
      MatchesChar(s, e, "/>", 0);
      MatchesChar(s, e, "/>", 1);
      SkipWsAt(s, e, e);
    }
  }
}
