/**
 Whatever the parser reads can be spelled by the grammar; so the grammar says exactly which texts
 are documents, and which.
 */
module XmlSpelled {
  import opened Wrappers
  import opened XmlText
  import opened XmlDecode
  import opened XmlTree
  import opened XmlParserSpec
  import opened XmlPrinterSpec
  import opened XmlRoundTrip
  import opened XmlGrammar
  import opened XmlSpeltRead

  // ------------------------------------------------------------- what was read can be spelled

  lemma {:induction false} AttSpelled(s: string, i: nat, o: Options) returns (a: Att)
    requires i <= |s| && SkipWs(s, i) < |s| && IsNameStartChar(s[SkipWs(s, i)]) && ParseAttribute(s, SkipWs(s, i), o).OneAttribute?
    ensures var r := ParseAttribute(s, SkipWs(s, i), o);
      && GoodAtt(a) && Matches(s, i, AttText(a)) && i + |AttText(a)| == r.next && PairValue(s, r.attribute.name) == a.name
      && i + |a.before| == SkipWs(s, i)
  {
    hide Matches, AttText, PairValue, ParseAttribute, SkipWs, NameEnd, FindTag, Blank, IsName;
    var n := SkipWs(s, i);
    var e, eq, q, v := AttParts(s, n, o);
    a := Att(s[i..n], s[n..e], s[e..eq], s[eq + 1..q], s[q], s[q + 1..v]);
    BlankPart(s, i, n);
    BlankPart(s, e, eq);
    BlankPart(s, eq + 1, q);
    NamePart(s, n, e);
    NoTagInside(s, q + 1, v, s[q]);
    AttJoined(s, i, n, e, eq, q, v);
    PartMatches(s, n, e);
    NameValue(s, n, e, a.name);
  }

  /** Where `ParseAttribute` found the parts of the attribute. */
  lemma AttParts(s: string, n: nat, o: Options) returns (e: nat, eq: nat, q: nat, v: nat)
    requires n < |s| && IsNameStartChar(s[n]) && ParseAttribute(s, n, o).OneAttribute?
    ensures n < e == NameEnd(s, n + 1) <= eq == SkipWs(s, e) < |s| && s[eq] == '=' && eq + 1 <= q == SkipWs(s, eq + 1) < |s|
    ensures (s[q] == '"' || s[q] == '\'') && FindTag(s, q + 1, [s[q]]) == Some(v)
    ensures var r := ParseAttribute(s, n, o); r.next == v + 1 && r.attribute.name == StrPair(n, e, PLAIN, false)
  {
    hide SkipWs, NameEnd, FindTag, LineAt;
    e := NameEnd(s, n + 1);
    eq := SkipWs(s, e);
    q := SkipWs(s, eq + 1);
    v := FindTag(s, q + 1, [s[q]]).value;
  }

  lemma BlankPart(s: string, i: nat, j: nat)
    requires i <= j <= |s| && forall k | i <= k < j :: IsWhiteSpace(s[k])
    ensures Blank(s[i..j])
  {
  }

  lemma NamePart(s: string, n: nat, e: nat)
    requires n < e <= |s| && IsNameStartChar(s[n]) && forall k | n + 1 <= k < e :: IsNameChar(s[k])
    ensures IsName(s[n..e])
  {
  }

  lemma PartMatches(s: string, i: nat, j: nat)
    requires i <= j <= |s|
    ensures Matches(s, i, s[i..j]) && i + |s[i..j]| == j
  {
  }

  lemma {:induction false} NoTagInside(s: string, i: nat, v: nat, c: char)
    requires i <= |s| && FindTag(s, i, [c]) == Some(v)
    ensures v < |s| && s[v] == c && forall k | 0 <= k < |s[i..v]| :: s[i..v][k] != c
  {
    hide FindTag;
    MatchesChar(s, v, [c], 0);
    forall k | i <= k < v ensures s[k] != c {
      assert !Matches(s, k, [c]);
      assert s[k..k + 1] == [s[k]];
    }
  }

  lemma {:induction false} AttJoined(s: string, i: nat, n: nat, e: nat, eq: nat, q: nat, v: nat)
    requires i <= n <= e <= eq < q < v < |s| && s[eq] == '=' && s[v] == s[q]
    ensures var a := Att(s[i..n], s[n..e], s[e..eq], s[eq + 1..q], s[q], s[q + 1..v]);
      Matches(s, i, AttText(a)) && i + |AttText(a)| == v + 1
  {
    hide Matches;
    var a := Att(s[i..n], s[n..e], s[e..eq], s[eq + 1..q], s[q], s[q + 1..v]);
    var t6 := a.raw + [a.quote];
    var t5 := [a.quote] + t6;
    var t4 := a.right + t5;
    var t3 := "=" + t4;
    var t2 := a.left + t3;
    OneMatches(s, v);
    OneMatches(s, q);
    OneMatches(s, eq);
    PartMatches(s, q + 1, v);
    PartMatches(s, eq + 1, q);
    PartMatches(s, e, eq);
    PartMatches(s, n, e);
    PartMatches(s, i, n);
    MatchesConcat(s, q + 1, a.raw, [a.quote]);
    MatchesConcat(s, q, [a.quote], t6);
    MatchesConcat(s, eq + 1, a.right, t5);
    assert "=" == [s[eq]];
    MatchesConcat(s, eq, "=", t4);
    MatchesConcat(s, e, a.left, t3);
    MatchesConcat(s, n, a.name, t2);
    MatchesConcat(s, i, a.before, a.name + t2);
  }

  lemma OneMatches(s: string, i: nat)
    requires i < |s|
    ensures Matches(s, i, [s[i]])
  {
  }

  lemma {:induction false} AttsSpelled(s: string, i: nat, line: nat, acc: seq<ParsedAttribute>, o: Options) returns (atts: seq<Att>, end: string)
    requires i <= |s| && ParseAttributes(s, i, line, acc, o).Attributes?
    ensures var r := ParseAttributes(s, i, line, acc, o); var close := if r.sealed then "/>" else ">"; var e := i + |AttsText(atts)|;
      && GoodAtts(atts) && Apart(s, acc, atts) && Blank(end)
      && Matches(s, i, AttsText(atts)) && Matches(s, e, end + close) && e + |end| + |close| == r.next
    decreases |s| - i
  {
    hide Matches, SkipWs, ParseAttribute, HasAttribute, PairValue, AttText, GoodAtt, Blank;
    var j := SkipWs(s, i);
    if IsNameStartChar(s[j]) {
      var a := AttSpelled(s, i, o);
      var r := ParseAttribute(s, j, o);
      var rest;
      rest, end := AttsSpelled(s, r.next, line, acc + [r.attribute], o);
      atts := [a] + rest;
      MatchesConcat(s, i, AttText(a), AttsText(rest));
      assert atts[1..] == rest;
      OneMore(s, acc, r.attribute, a, rest);
    } else {
      atts, end := [], s[i..j];
      TagEndSpelled(s, i, j);
    }
  }

  lemma OneMore(s: string, acc: seq<ParsedAttribute>, r: ParsedAttribute, a: Att, rest: seq<Att>)
    requires GoodAtt(a) && GoodAtts(rest) && Apart(s, acc + [r], rest) && PairValue(s, r.name) == a.name && !HasAttribute(s, acc, a.name)
    ensures GoodAtts([a] + rest) && Apart(s, acc, [a] + rest)
  {
    hide GoodAtt, PairValue;
    assert (acc + [r])[|acc|] == r;
    assert forall j | 0 <= j < |acc| :: (acc + [r])[j] == acc[j];
  }

  lemma {:induction false} TagEndSpelled(s: string, i: nat, j: nat)
    requires i <= j < |s| && SkipWs(s, i) == j && (s[j] == '>' || (s[j] == '/' && At(s, j + 1) == '>'))
    ensures Matches(s, i, "") && Blank(s[i..j]) && |s[i..j]| == j - i
    ensures s[j] == '>' ==> Matches(s, i, s[i..j] + ">")
    ensures s[j] == '/' ==> Matches(s, i, s[i..j] + "/>")
  {
    BlankPart(s, i, j);
    if s[j] == '>' {
      assert s[i..j + 1] == s[i..j] + ">";
    } else {
      assert s[i..j + 2] == s[i..j] + "/>";
    }
  }

  lemma {:induction false} TagJoined(s: string, i: nat, t: Tag)
    requires var j := i + 1 + |t.space|; var n := j + (if t.slash then 1 else 0); var e := n + |t.name|; var f := e + |AttsText(t.atts)|;
      && Matches(s, i, "<") && Matches(s, i + 1, t.space) && Matches(s, j, if t.slash then "/" else "") && Matches(s, n, t.name)
      && Matches(s, e, AttsText(t.atts)) && Matches(s, f, t.end + (if t.sealed then "/>" else ">"))
    ensures Matches(s, i, TagText(t))
  {
    hide Matches, AttsText;
    var slash, close := if t.slash then "/" else "", if t.sealed then "/>" else ">";
    var j := i + 1 + |t.space|;
    var n := j + |slash|;
    var e := n + |t.name|;
    var t5 := t.end + close;
    var t4 := AttsText(t.atts) + t5;
    var t3 := t.name + t4;
    var t2 := slash + t3;
    MatchesConcat(s, e, AttsText(t.atts), t5);
    MatchesConcat(s, n, t.name, t4);
    MatchesConcat(s, j, slash, t3);
    MatchesConcat(s, i + 1, t.space, t2);
    MatchesConcat(s, i, "<", t.space + t2);
  }

  /** The tag `ParseElement` has read. */
  lemma {:induction false} TagSpelled(s: string, i: nat, j: nat, n: nat, e: nat, line: nat, o: Options, r: AttributesResult) returns (t: Tag)
    requires i < j <= n < e <= |s| && s[i] == '<' && SkipWs(s, i + 1) == j && n == if At(s, j) == '/' then j + 1 else j
    requires IsNameStartChar(s[n]) && NameEnd(s, n + 1) == e && r == ParseAttributes(s, e, line, [], o) && r.Attributes?
    ensures GoodTag(t) && Matches(s, i, TagText(t)) && i + |TagText(t)| == r.next && (t.slash <==> n == j + 1) && t.sealed == r.sealed
    ensures forall flush: bool :: PairValue(s, StrPair(n, e, PLAIN, flush)) == t.name
  {
    hide Matches, TagText, ParseAttributes, AttsText, Blank, GoodAtt, PairValue, IsName;
    var slash := n == j + 1;
    var atts, end := AttsSpelled(s, e, line, [], o);
    t := Tag(s[i + 1..j], slash, s[n..e], atts, end, r.sealed);
    BlankPart(s, i + 1, j);
    NamePart(s, n, e);
    OneMatches(s, i);
    PartMatches(s, i + 1, j);
    PartMatches(s, n, e);
    NameValue(s, n, e, s[n..e]);
    SlashMatches(s, j, slash);
    FirstBefore(s, e, atts);
    assert "<" == [s[i]];
    TagJoined(s, i, t);
    LengthOfTag(t);
  }

  lemma LengthOfTag(t: Tag)
    ensures |TagText(t)| == 1 + |t.space| + (if t.slash then 1 else 0) + |t.name| + |AttsText(t.atts)| + |t.end| + if t.sealed then 2 else 1
  {
    hide AttsText;
  }

  lemma SlashMatches(s: string, j: nat, slash: bool)
    requires j <= |s| && (At(s, j) == '/' <==> slash)
    ensures Matches(s, j, if slash then "/" else "")
  {
  }

  lemma {:induction false} FirstBefore(s: string, e: nat, atts: seq<Att>)
    requires GoodAtts(atts) && Matches(s, e, AttsText(atts)) && (e < |s| ==> !IsNameChar(s[e]))
    ensures atts != [] ==> atts[0].before != ""
  {
    hide Matches;
    if atts != [] {
      MatchesConcat(s, e, AttText(atts[0]), AttsText(atts[1..]));
      AttSplit(s, e, atts[0]);
      MatchesChar(s, e + |atts[0].before|, atts[0].name, 0);
    }
  }

  /** The siblings `ns` are what the loop has read from `i` on, and `close` is the end tag it stopped at. */
  ghost predicate Spelling(s: string, i: nat, r: LoopResult, first: bool, ns: seq<Item>, close: Option<Tag>) {
    && GoodItems(ns, first) && Matches(s, i, ItemsText(ns)) && (ns != [] && ns[0].Chars? ==> i < |s| && s[i] != '<')
    && match r
      case LoopFailed(_, _) => false
      case LoopEnded(_) => close == None && i + |ItemsText(ns)| == |s| && (ns != [] && ns[|ns| - 1].Chars? ==> BlankChars(ns[|ns| - 1]))
      case LoopClosed(_, endTag, next) => close.Some? && Closes(s, i + |ItemsText(ns)|, close.value, endTag, next)
  }

  ghost predicate Closes(s: string, e: nat, t: Tag, endTag: StrPair, next: nat) {
    GoodTag(t) && t.slash && !t.sealed && Matches(s, e, TagText(t)) && e + |TagText(t)| == next && PairValue(s, endTag) == t.name
  }

  lemma {:induction false} SpellingCons(s: string, i: nat, n: Item, r: LoopResult, first: bool, ns: seq<Item>, close: Option<Tag>)
    requires GoodItem(n) && Matches(s, i, ItemText(n)) && (Declares(n) ==> first)
    requires Spelling(s, i + |ItemText(n)|, r, first && (Declares(n) || BlankChars(n)), ns, close)
    requires var e := i + |ItemText(n)|;
      n.Chars? ==> i < |s| && s[i] != '<' && (e < |s| ==> s[e] == '<') && (!Blank(n.raw) ==> e < |s|)
    ensures Spelling(s, i, r, first, [n] + ns, close)
  {
    hide Matches, ItemText, GoodItem, Closes, Blank;
    var all := [n] + ns;
    assert all[1..] == ns && all[0] == n;
    MatchesConcat(s, i, ItemText(n), ItemsText(ns));
    assert ItemsText(all) == ItemText(n) + ItemsText(ns);
    if ns != [] {
      assert all[|all| - 1] == ns[|ns| - 1] && all[1] == ns[0];
    }
  }

  lemma {:induction false} MarkSpelled(s: string, i: nat, m: Mark, line: nat)
    requires i <= |s| && SkipWs(s, i) < |s| && Identify(s, i).0 == KindOfMark(m) && ParseMarkup(s, Identify(s, i).1, KindOfMark(m), line).NodeParsed?
    ensures var r := ParseMarkup(s, Identify(s, i).1, KindOfMark(m), line); var j, start := SkipWs(s, i), Identify(s, i).1;
      && start <= r.next - |Closer(m)| <= |s| && r.next <= |s|
      && var n := Markup(m, s[start..r.next - |Closer(m)|]);
      GoodItem(n) && Matches(s, j, ItemText(n)) && j + |ItemText(n)| == r.next
  {
    hide Matches, FindTag, SkipWs, EndTagOf, Header;
    MarkTable(m);
    var j, start := SkipWs(s, i), Identify(s, i).1;
    var v := FindTag(s, start, EndTagOf(KindOfMark(m))).value;
    MatchesBounds(s, v, Closer(m));
    var raw := s[start..v];
    PartMatches(s, start, v);
    FreePart(s, start, v, Closer(m));
    if m.OtherMark? {
      assert "<!" + "--" == "<!--" && "<!" + "[CDATA[" == "<![CDATA[";
      NotInside(s, j, start, v, "--");
      NotInside(s, j, start, v, "[CDATA[");
    }
    MatchesConcat(s, start, raw, Closer(m));
    MatchesConcat(s, j, Opener(m), raw + Closer(m));
  }

  lemma {:induction false} NotInside(s: string, j: nat, start: nat, v: nat, w: string)
    requires start == j + 2 <= v <= |s| && Matches(s, j, "<!") && !Matches(s, j, "<!" + w)
    ensures !Matches(s[start..v], 0, w)
  {
    hide Matches;
    MatchesConcat(s, j, "<!", w);
    PartMatches(s, start, v);
    var raw := s[start..v];
    if |w| <= |raw| {
      MatchesInside(s, start, raw, 0, w);
    } else {
      TooShort(raw, w);
    }
  }

  lemma TooShort(t: string, w: string)
    requires |w| > |t|
    ensures !Matches(t, 0, w)
  {
  }

  lemma {:induction false} FreePart(s: string, i: nat, v: nat, tag: string)
    requires i <= v <= |s| && tag != "" && forall k | i <= k < v :: !Matches(s, k, tag)
    ensures Free(s[i..v], tag)
  {
    hide Matches;
    var raw := s[i..v];
    PartMatches(s, i, v);
    forall k | 0 <= k < |raw| ensures !Matches(raw, k, tag) {
      assert !Matches(s, i + k, tag);
      if k + |tag| <= |raw| {
        MatchesInside(s, i, raw, k, tag);
      } else {
        PastEnd(raw, k, tag);
      }
    }
  }

  lemma PastEnd(t: string, k: nat, w: string)
    requires k + |w| > |t|
    ensures !Matches(t, k, w)
  {
  }

  lemma {:induction false} CharsSpelled(s: string, i: nat, line: nat, o: Options)
    requires i <= |s| && SkipWs(s, i) < |s| && s[SkipWs(s, i)] != '<' && ParsePlainText(s, i, line, o).NodeParsed?
    ensures var r := ParsePlainText(s, i, line, o);
      && i < r.next && r.next + 1 < |s| && s[r.next] == '<' && r.closing == OPEN && r.endTag == None && r.node.PText?
      && var n := Chars(s[i..r.next]); GoodItem(n) && !BlankChars(n) && Matches(s, i, ItemText(n)) && i + |ItemText(n)| == r.next && s[i] != '<'
  {
    hide Matches, FindTag, SkipWs;
    var v := FindTag(s, i, "<").value;
    assert "<" == ['<'];
    NoTagInside(s, i, v, '<');
    PartMatches(s, i, v);
    var j := SkipWs(s, i);
    forall k | i <= k < v ensures s[k] != '<' {
      assert s[i..v][k - i] == s[k];
    }
    if j < v {
      assert s[i..v][j - i] == s[j];
    }
    assert i < v;
    assert s[i..v][0] == s[i];
  }

  /** What `ParseElement` went through when it succeeded. */
  lemma {:induction false} ElementParts(s: string, i: nat, line: nat, o: Options, p: NodeResult)
    returns (j: nat, n: nat, e: nat, r: AttributesResult)
    requires i <= |s| && p == ParseElement(s, i, line, o) && p.NodeParsed?
    ensures j == SkipWs(s, i) && n == (if At(s, j) == '/' then j + 1 else j) && n < |s| && IsNameStartChar(s[n])
    ensures e == NameEnd(s, n + 1) && r == ParseAttributes(s, e, line, [], o) && r.Attributes?
    ensures p.node.PElement? && p.node.name == StrPair(n, e, PLAIN, true)
    ensures p.closing == (if r.sealed then CLOSED else if n == j + 1 then CLOSING else OPEN)
    ensures p.closing != OPEN || r.next == |s| ==> p.endTag == None && p.next == r.next
    ensures p.closing == OPEN && r.next < |s| ==>
      ParseLoop(s, r.next, false, [], o).LoopClosed? && p.endTag == Some(ParseLoop(s, r.next, false, [], o).endTag)
    ensures p.closing == OPEN && r.next < |s| ==> p.next == ParseLoop(s, r.next, false, [], o).next
  {
    hide ParseLoop, ParseAttributes, SkipWs, NameEnd;
    j := SkipWs(s, i);
    n := if At(s, j) == '/' then j + 1 else j;
    e := NameEnd(s, n + 1);
    r := ParseAttributes(s, e, line, [], o);
  }

  /** The end tag at `i`. */
  lemma {:induction false} CloseSpelled(s: string, i: nat, line: nat, o: Options) returns (t: Tag)
    requires i < |s| && s[i] == '<' && ParseElement(s, i + 1, line, o).NodeParsed? && ParseElement(s, i + 1, line, o).closing == CLOSING
    ensures var p := ParseElement(s, i + 1, line, o); Closes(s, i, t, p.node.name, p.next)
  {
    hide ParseElement, ParseLoop, ParseAttributes, SkipWs, NameEnd, Matches, TagText, GoodTag, PairValue;
    var j, n, e, r := ElementParts(s, i + 1, line, o, ParseElement(s, i + 1, line, o));
    t := TagSpelled(s, i, j, n, e, line, o, r);
  }

  /** The element at `i`. */
  lemma {:induction false} ElementSpelled(s: string, i: nat, line: nat, o: Options) returns (n: Item)
    requires i < |s| && s[i] == '<'
    requires var p := ParseElement(s, i + 1, line, o); p.NodeParsed? && p.closing != CLOSING && !Mismatch(s, p.node.name, p.closing, p.endTag)
    ensures var p := ParseElement(s, i + 1, line, o);
      GoodItem(n) && !n.Chars? && !n.Markup? && Matches(s, i, ItemText(n)) && i + |ItemText(n)| == p.next
    decreases |s| - i, 0
  {
    hide ParseElement, ParseLoop, ParseAttributes, SkipWs, NameEnd, Matches, TagText, GoodTag, PairValue, ItemsText, GoodItems;
    var j, m, e, r := ElementParts(s, i + 1, line, o, ParseElement(s, i + 1, line, o));
    var t := TagSpelled(s, i, j, m, e, line, o, r);
    if r.sealed {
      n := Single(t);
    } else {
      var items, close := LoopSpelled(s, r.next, false, [], o);
      n := Pair(t, items, close.value);
      MatchesConcat(s, r.next, ItemsText(items), TagText(close.value));
      MatchesConcat(s, i, TagText(t), ItemsText(items) + TagText(close.value));
    }
  }

  /** The siblings the loop has read. */
  lemma {:induction false} LoopSpelled(s: string, i: nat, inDocument: bool, acc: seq<Parsed>, o: Options) returns (ns: seq<Item>, close: Option<Tag>)
    requires i <= |s| && !ParseLoop(s, i, inDocument, acc, o).LoopFailed?
    ensures Spelling(s, i, ParseLoop(s, i, inDocument, acc, o), WellLocated(inDocument, acc), ns, close)
    decreases |s| - i, 3
  {
    hide ParseLoop, Spelling, WellLocated, SkipWs;
    var j := SkipWs(s, i);
    if j < |s| && s[j] != '<' {
      ns, close := TextSpelled(s, i, inDocument, acc, o);
    } else {
      if j == |s| {
        ns, close := [], None;
        EndSpelled(s, i, inDocument, acc, o);
      } else {
        ns, close := MarkupSpelled(s, i, inDocument, acc, o);
      }
      if i < j {
        var r := ParseLoop(s, i, inDocument, acc, o);
        BlankSpelled(s, i, j);
        SpellingCons(s, i, Chars(s[i..j]), r, WellLocated(inDocument, acc), ns, close);
        ns := [Chars(s[i..j])] + ns;
      }
    }
  }

  lemma EndSpelled(s: string, i: nat, inDocument: bool, acc: seq<Parsed>, o: Options)
    requires i <= |s| && SkipWs(s, i) == |s|
    ensures Spelling(s, |s|, ParseLoop(s, i, inDocument, acc, o), WellLocated(inDocument, acc), [], None)
  {
  }

  lemma BlankSpelled(s: string, i: nat, j: nat)
    requires i < j <= |s| && forall k | i <= k < j :: IsWhiteSpace(s[k])
    ensures var n := Chars(s[i..j]); GoodItem(n) && BlankChars(n) && Matches(s, i, ItemText(n)) && i + |ItemText(n)| == j && s[i] != '<'
  {
    PartMatches(s, i, j);
    BlankPart(s, i, j);
  }

  lemma {:induction false} TextSpelled(s: string, i: nat, inDocument: bool, acc: seq<Parsed>, o: Options) returns (ns: seq<Item>, close: Option<Tag>)
    requires i <= |s| && SkipWs(s, i) < |s| && s[SkipWs(s, i)] != '<' && !ParseLoop(s, i, inDocument, acc, o).LoopFailed?
    ensures Spelling(s, i, ParseLoop(s, i, inDocument, acc, o), WellLocated(inDocument, acc), ns, close)
    decreases |s| - i, 2
  {
    hide Spelling, SkipWs, ParsePlainText, LineAt, Identify, ParseLoop, GoodItem, ItemText, Matches, WellLocated, Blank;
    var line := LineAt(s, SkipWs(s, i));
    TextLooped(s, i, inDocument, acc, o);
    CharsSpelled(s, i, line, o);
    var p := ParsePlainText(s, i, line, o);
    var r := ParseLoop(s, i, inDocument, acc, o);
    ns, close := LoopSpelled(s, p.next, inDocument, acc + [p.node], o);
    NotFirst(inDocument, acc, p.node);
    SpellingCons(s, i, Chars(s[i..p.next]), r, WellLocated(inDocument, acc), ns, close);
    ns := [Chars(s[i..p.next])] + ns;
  }

  /** A successful turn of the loop at character data. */
  lemma TextLooped(s: string, i: nat, inDocument: bool, acc: seq<Parsed>, o: Options)
    requires i <= |s| && SkipWs(s, i) < |s| && s[SkipWs(s, i)] != '<' && !ParseLoop(s, i, inDocument, acc, o).LoopFailed?
    ensures var p := ParsePlainText(s, i, LineAt(s, SkipWs(s, i)), o);
      && p.NodeParsed? && p.next <= |s| && p.node.PText?
      && ParseLoop(s, i, inDocument, acc, o) == ParseLoop(s, p.next, inDocument, acc + [p.node], o)
  {
    hide SkipWs, FindTag, LineAt, Identify;
    IdentifyText(s, i);
  }

  lemma NotFirst(inDocument: bool, acc: seq<Parsed>, n: Parsed)
    ensures WellLocated(inDocument, acc + [n]) <==> WellLocated(inDocument, acc) && n.PDeclaration?
  {
    assert (acc + [n])[|acc|] == n && forall k | 0 <= k < |acc| :: (acc + [n])[k] == acc[k];
  }

  /** What begins with the `<` behind the whitespace at `i`. */
  lemma {:induction false} MarkupSpelled(s: string, i: nat, inDocument: bool, acc: seq<Parsed>, o: Options) returns (ns: seq<Item>, close: Option<Tag>)
    requires i <= |s| && SkipWs(s, i) < |s| && s[SkipWs(s, i)] == '<' && !ParseLoop(s, i, inDocument, acc, o).LoopFailed?
    ensures Spelling(s, SkipWs(s, i), ParseLoop(s, i, inDocument, acc, o), WellLocated(inDocument, acc), ns, close)
    decreases |s| - i, 2
  {
    hide Spelling, SkipWs, ParseNode, ParseLoop, LineAt, WellLocated;
    var j := SkipWs(s, i);
    var (kind, start) := Identify(s, i);
    if kind.KElement? {
      assert start == j + 1;
      hide Identify;
      ns, close := TagsSpelled(s, i, j, inDocument, acc, o);
    } else {
      var m := MarkOf(kind);
      hide Identify;
      ns, close := MarksSpelled(s, i, m, inDocument, acc, o);
    }
  }

  function MarkOf(kind: Kind): (m: Mark)
    requires !kind.KText? && !kind.KElement?
    ensures KindOfMark(m) == kind
  {
    match kind
    case KComment => CommentMark
    case KCData => SectionMark
    case KDeclaration => DeclarationMark
    case _ => OtherMark
  }

  lemma {:induction false} MarksSpelled(s: string, i: nat, m: Mark, inDocument: bool, acc: seq<Parsed>, o: Options) returns (ns: seq<Item>, close: Option<Tag>)
    requires i <= |s| && SkipWs(s, i) < |s| && Identify(s, i).0 == KindOfMark(m) && !ParseLoop(s, i, inDocument, acc, o).LoopFailed?
    ensures Spelling(s, SkipWs(s, i), ParseLoop(s, i, inDocument, acc, o), WellLocated(inDocument, acc), ns, close)
    decreases |s| - i, 1
  {
    hide Spelling, SkipWs, LineAt, Identify, ParseMarkup, WellLocated, Closer, GoodItem, ItemText, Matches, ParseLoop;
    var j := SkipWs(s, i);
    var start := Identify(s, i).1;
    var line := LineAt(s, j);
    var p := ParseMarkup(s, start, KindOfMark(m), line);
    MarkLooped(s, i, m, inDocument, acc, o);
    MarkSpelled(s, i, m, line);
    var r := ParseLoop(s, p.next, inDocument, acc + [p.node], o);
    ns, close := LoopSpelled(s, p.next, inDocument, acc + [p.node], o);
    NotFirst(inDocument, acc, p.node);
    var n := Markup(m, s[start..p.next - |Closer(m)|]);
    SpellingCons(s, j, n, r, WellLocated(inDocument, acc), ns, close);
    ns := [n] + ns;
  }

  /** A successful turn of the loop at markup that holds text. */
  lemma {:induction false} MarkLooped(s: string, i: nat, m: Mark, inDocument: bool, acc: seq<Parsed>, o: Options)
    requires i <= |s| && SkipWs(s, i) < |s| && Identify(s, i).0 == KindOfMark(m) && !ParseLoop(s, i, inDocument, acc, o).LoopFailed?
    ensures var p := ParseMarkup(s, Identify(s, i).1, KindOfMark(m), LineAt(s, SkipWs(s, i)));
      && p.NodeParsed? && p.next <= |s| && (p.node.PDeclaration? <==> m.DeclarationMark?) && (m.DeclarationMark? ==> WellLocated(inDocument, acc))
      && ParseLoop(s, i, inDocument, acc, o) == ParseLoop(s, p.next, inDocument, acc + [p.node], o)
  {
    hide SkipWs, LineAt, Identify, FindTag, WellLocated;
  }

  lemma {:induction false} TagsSpelled(s: string, i: nat, j: nat, inDocument: bool, acc: seq<Parsed>, o: Options) returns (ns: seq<Item>, close: Option<Tag>)
    requires i <= |s| && SkipWs(s, i) == j < |s| && s[j] == '<' && Identify(s, i) == (KElement, j + 1) && !ParseLoop(s, i, inDocument, acc, o).LoopFailed?
    ensures Spelling(s, j, ParseLoop(s, i, inDocument, acc, o), WellLocated(inDocument, acc), ns, close)
    decreases |s| - i, 1
  {
    hide Spelling, SkipWs, LineAt, Identify, ParseElement, WellLocated, Mismatch, ParseLoop, GoodItem, ItemText, Matches, Closes, BlankChars, Declares;
    var line := LineAt(s, j);
    var p := ParseElement(s, j + 1, line, o);
    TagLooped(s, i, j, inDocument, acc, o);
    var r := ParseLoop(s, i, inDocument, acc, o);
    if p.closing == CLOSING {
      var t := CloseSpelled(s, j, line, o);
      ns, close := [], Some(t);
      ClosedSpelling(s, j, acc, p.node.name, p.next, WellLocated(inDocument, acc), t);
    } else {
      var n := ElementSpelled(s, j, line, o);
      var node := AfterComparison(p.node, p.endTag);
      ns, close := LoopSpelled(s, p.next, inDocument, acc + [node], o);
      NotFirst(inDocument, acc, node);
      TagIsNoMark(n);
      SpellingCons(s, j, n, r, WellLocated(inDocument, acc), ns, close);
      ns := [n] + ns;
    }
  }

  lemma TagIsNoMark(n: Item)
    requires !n.Chars? && !n.Markup?
    ensures !Declares(n) && !BlankChars(n)
  {
  }

  lemma ClosedSpelling(s: string, j: nat, acc: seq<Parsed>, endTag: StrPair, next: nat, first: bool, t: Tag)
    requires Closes(s, j, t, endTag, next) && j <= |s|
    ensures Spelling(s, j, LoopClosed(acc, endTag, next), first, [], Some(t))
  {
    hide Closes;
  }

  /** A successful turn of the loop at a tag. */
  lemma {:induction false} TagLooped(s: string, i: nat, j: nat, inDocument: bool, acc: seq<Parsed>, o: Options)
    requires i <= |s| && SkipWs(s, i) == j < |s| && Identify(s, i) == (KElement, j + 1) && !ParseLoop(s, i, inDocument, acc, o).LoopFailed?
    ensures var p := ParseElement(s, j + 1, LineAt(s, j), o);
      && p.NodeParsed? && p.node.PElement? && p.next <= |s|
      && (p.closing == CLOSING ==> ParseLoop(s, i, inDocument, acc, o) == LoopClosed(acc, p.node.name, p.next))
      && (p.closing != CLOSING ==> !Mismatch(s, p.node.name, p.closing, p.endTag))
      && (p.closing != CLOSING ==>
            ParseLoop(s, i, inDocument, acc, o) == ParseLoop(s, p.next, inDocument, acc + [AfterComparison(p.node, p.endTag)], o))
  {
    hide SkipWs, LineAt, Identify, ParseElement, WellLocated, Mismatch;
    assert ParseNode(s, j + 1, KElement, LineAt(s, j), o) == ParseElement(s, j + 1, LineAt(s, j), o);
  }

  // ------------------------------------------------------------- documents

  /** What is read can be spelled. */
  lemma {:induction false} ReadSpelled(s: string, o: Options) returns (d: Spelt)
    requires ReadDocument(s, o).Read?
    ensures GoodSpelt(d) && SpeltText(d) == s
  {
    hide ItemsText, Matches, SkipWs, GoodItems, ParseLoop, Spelling, Blank, TagText;
    var i := SkipWs(s, 0);
    var bom := Matches(s, i, BOM);
    var p := if bom then i + 3 else i;
    if bom { MatchesBounds(s, i, BOM); }
    var ns, close := LoopSpelled(s, p, true, [], o);
    var r := ParseLoop(s, p, true, [], o);
    SpellingParts(s, p, r, ns, close);
    var e := p + |ItemsText(ns)|;
    NoItems();
    SkipWsAt(s, i, i);
    var stray := if close == None then None else Some(Stray(close.value, s[r.next..]));
    d := Spelt(s[..i], bom, ns, stray);
    BlankPart(s, 0, i);
    assert s[0..i] == s[..i];
    JoinedText(s, i, p, e, d, r.LoopClosed?, if r.LoopClosed? then r.next else 0);
    FirstChars(s, p, ns, bom);
  }

  lemma NoItems()
    ensures ItemsText([]) == ""
  {
  }

  lemma SpellingParts(s: string, p: nat, r: LoopResult, ns: seq<Item>, close: Option<Tag>)
    requires p <= |s| && Spelling(s, p, r, true, ns, close)
    ensures GoodItems(ns, true) && Matches(s, p, ItemsText(ns)) && p + |ItemsText(ns)| <= |s| && !r.LoopFailed?
    ensures ns != [] && ns[0].Chars? ==> p < |s| && s[p] != '<'
    ensures r.LoopEnded? ==> close == None && p + |ItemsText(ns)| == |s| && (ns != [] && ns[|ns| - 1].Chars? ==> BlankChars(ns[|ns| - 1]))
    ensures r.LoopClosed? ==> close.Some? && GoodTag(close.value) && close.value.slash && !close.value.sealed
    ensures r.LoopClosed? ==> Matches(s, p + |ItemsText(ns)|, TagText(close.value))
    ensures r.LoopClosed? ==> p + |ItemsText(ns)| + |TagText(close.value)| == r.next <= |s|
  {
    hide GoodItems, GoodTag, TagText;
  }

  lemma {:induction false} JoinedText(s: string, i: nat, p: nat, e: nat, d: Spelt, closed: bool, next: nat)
    requires i <= p <= e <= |s| && d.lead == s[..i] && p == (if d.bom then i + 3 else i) && (d.bom ==> Matches(s, i, BOM))
    requires Matches(s, p, ItemsText(d.items)) && e == p + |ItemsText(d.items)|
    requires if closed then d.stray.Some? && e <= next <= |s| && Matches(s, e, TagText(d.stray.value.close))
      && next == e + |TagText(d.stray.value.close)| && d.stray.value.rest == s[next..] else d.stray == None && e == |s|
    ensures SpeltText(d) == s
  {
    hide ItemsText, TagText, StrayText;
    StrayIs(d.stray);
    if closed {
      Joined(s, e, TagText(d.stray.value.close), s[next..]);
    } else {
      assert s[e..] == "";
    }
    var behind := ItemsText(d.items) + StrayText(d.stray);
    Joined(s, p, ItemsText(d.items), StrayText(d.stray));
    if d.bom {
      Joined(s, i, MARK, behind);
    } else {
      assert "" + behind == behind;
    }
    assert Matches(s, 0, d.lead) && s[0..] == s;
    Joined(s, 0, d.lead, s[i..]);
  }

  lemma Joined(s: string, i: nat, a: string, b: string)
    requires Matches(s, i, a) && s[i + |a|..] == b
    ensures s[i..] == a + b
  {
    assert s[i..] == s[i..i + |a|] + s[i + |a|..];
  }

  lemma {:induction false} FirstChars(s: string, p: nat, ns: seq<Item>, bom: bool)
    requires p <= |s| && GoodItems(ns, true) && Matches(s, p, ItemsText(ns))
    requires !bom ==> SkipWs(s, p) == p && !Matches(s, p, BOM)
    ensures !bom && ns != [] && ns[0].Chars? ==> !IsWhiteSpace(At(ns[0].raw, 0)) && !Matches(ns[0].raw, 0, MARK)
  {
    hide Matches, SkipWs;
    if !bom && ns != [] && ns[0].Chars? {
      var raw := ns[0].raw;
      MatchesConcat(s, p, raw, ItemsText(ns[1..]));
      MatchesChar(s, p, raw, 0);
      if |raw| >= 3 {
        MatchesInside(s, p, raw, 0, BOM);
      } else {
        TooShort(raw, BOM);
      }
    }
  }

  /**
   Main theorem.  The parser reads a text as a document if and only if the text spells it: every
   spelling of the grammar is read as what it means, under all options, and nothing else is read.
   */
  lemma {:induction false} ReadExactly(s: string, o: Options, d: Document)
    ensures ReadDocument(s, o) == Read(d) <==>
      exists x: Spelt :: GoodSpelt(x) && SpeltText(x) == s && d == Document(x.bom, ItemsMeaning(x.items, o))
  {
    hide ReadDocument, GoodSpelt, SpeltText, ItemsMeaning;
    if ReadDocument(s, o) == Read(d) {
      var x := ReadSpelled(s, o);
      SpeltRead(x, o);
    }
    if x: Spelt :| GoodSpelt(x) && SpeltText(x) == s && d == Document(x.bom, ItemsMeaning(x.items, o)) {
      SpeltRead(x, o);
    }
  }
}
