/**
 Printed trees are spelled by the grammar, with and without entity processing.  So the grammar says
 what comes of them under all options, and of printed text that is spoilt: an end tag that does not
 name the element it closes.
 */
module XmlPrintSpelt {
  import opened Wrappers
  import opened XmlText
  import opened XmlDecode
  import opened XmlTree
  import opened XmlParserSpec
  import opened XmlPrinterSpec
  import opened XmlEscape
  import opened XmlRoundTrip
  import R = XmlReadBack
  import opened XmlGrammar
  import opened XmlSpeltRead
  import opened XmlFaults
  import opened XmlPieces
  import opened XmlWritten

  // ------------------------------------------------------------- the spelling of printed trees

  function AttsOf(atts: seq<Attribute>, e: bool): (r: seq<Att>)
    ensures |r| == |atts|
  {
    if atts == [] then [] else [Att(" ", atts[0].name, "", "", '"', WrittenValue(atts[0].value, false, e))] + AttsOf(atts[1..], e)
  }

  function StartOf(name: string, atts: seq<Attribute>, sealed: bool, e: bool): Tag {
    Tag("", false, name, AttsOf(atts, e), "", sealed)
  }

  function EndOf(name: string): Tag {
    Tag("", true, name, [], "", false)
  }

  function CharsOf(v: string, e: bool): seq<Item> {
    if v == "" then [] else [Chars(WrittenValue(v, true, e))]
  }

  function ItemOf(n: Node, e: bool): Item
    decreases n, 1
  {
    match n
    case Element(name, atts, children) =>
      if children == [] then Single(StartOf(name, atts, true, e))
      else Pair(StartOf(name, atts, false, e), ItemsOf(children, e), EndOf(name))
    case Text(v, _) => Markup(SectionMark, v)
    case Comment(v) => Markup(CommentMark, v)
    case Declaration(v) => Markup(DeclarationMark, v)
    case Unknown(v) => Markup(OtherMark, v)
  }

  function ItemsOf(ns: seq<Node>, e: bool): seq<Item>
    decreases ns, 0
  {
    if ns == [] then []
    else if IsPlainText(ns[0]) then CharsOf(RunText(ns[..TextRun(ns)]), e) + ItemsOf(ns[TextRun(ns)..], e)
    else [ItemOf(ns[0], e)] + ItemsOf(ns[1..], e)
  }

  // ------------------------------------------------------------- what can be written, and how it is read

  predicate FitAttributes(atts: seq<Attribute>, e: bool) {
    e || forall k | 0 <= k < |atts| :: '"' !in atts[k].value
  }

  /** Without entity processing no text may hold a `<`, and no attribute value a quote. */
  predicate Fit(n: Node, e: bool)
    decreases n, 1
  {
    match n
    case Element(_, atts, children) => FitAttributes(atts, e) && FitAll(children, e)
    case Text(v, cdata) => e || cdata || '<' !in v
    case _ => true
  }

  predicate FitAll(ns: seq<Node>, e: bool)
    decreases ns, 0
  {
    ns != [] ==> Fit(ns[0], e) && FitAll(ns[1..], e)
  }

  /** A tree whose texts are collapsed to words. */
  function Collapsed(n: Node): Node
    decreases n, 1
  {
    match n
    case Element(name, atts, children) => Element(name, atts, CollapsedAll(children))
    case Text(v, cdata) => if cdata then n else Text(JoinWords(Words(v, 0)), false)
    case _ => n
  }

  function CollapsedAll(ns: seq<Node>): seq<Node>
    decreases ns, 0
  {
    if ns == [] then [] else [Collapsed(ns[0])] + CollapsedAll(ns[1..])
  }

  /** What a written forest is read as: its normal form, its texts collapsed if the options say so. */
  function AsRead(ns: seq<Node>, o: Options): seq<Node> {
    if o.collapseWhitespace then CollapsedAll(NormalNodes(ns)) else NormalNodes(ns)
  }

  function OneAsRead(n: Node, o: Options): Node {
    if o.collapseWhitespace then Collapsed(NormalNode(n)) else NormalNode(n)
  }

  lemma {:induction false} CollapsedAppend(a: seq<Node>, b: seq<Node>)
    ensures CollapsedAll(a + b) == CollapsedAll(a) + CollapsedAll(b)
  {
    hide Collapsed;
    if a == [] {
      assert a + b == b;
    } else {
      CollapsedAppend(a[1..], b);
      assert (a + b)[1..] == a[1..] + b;
    }
  }

  lemma AsReadCons(n: Node, ns: seq<Node>, o: Options)
    requires !IsPlainText(n)
    ensures AsRead([n] + ns, o) == [OneAsRead(n, o)] + AsRead(ns, o)
  {
    hide NormalNode, Collapsed;
    assert ([n] + ns)[1..] == ns && [NormalNode(n)][1..] == [];
    CollapsedAppend([NormalNode(n)], NormalNodes(ns));
  }

  /** The value that is read of a written one. */
  lemma {:induction false} ValueRead(v: string, restricted: bool, e: bool, collapse: bool)
    requires NulFree(v)
    ensures Value(WrittenValue(v, restricted, e), Flags(e, true, collapse)) == if collapse then JoinWords(Words(Normal(v), 0)) else Normal(v)
  {
    hide Normal, Escape, Words, Decoded;
    var w := WrittenValue(v, restricted, e);
    if e {
      ValueOfEscaped(v, restricted);
    } else {
      ValueOfMarkup(v);
    }
    SameDecoded(w, Flags(e, true, collapse), Flags(e, true, false));
    CollapseJoinsWords(Normal(v));
  }

  /** Collapsing is no part of decoding. */
  lemma {:induction false} SameDecoded(s: string, f: Flags, g: Flags)
    requires f.entities == g.entities && f.newlines == g.newlines
    ensures Decoded(s, f) == Decoded(s, g)
  {
    SameDecodedFrom(s, 0, "", f, g);
  }

  lemma {:induction false} SameDecodedFrom(s: string, p: nat, out: string, f: Flags, g: Flags)
    requires f.entities == g.entities && f.newlines == g.newlines && |out| <= p <= |s|
    ensures DecodeFrom(s, p, out, f) == DecodeFrom(s, p, out, g)
    decreases |s| - p
  {
    if p < |s| {
      assert DecodeStep(s, p, f) == DecodeStep(s, p, g) by { hide EntityAt, GetCharacterRef; }
      hide DecodeStep;
      var st := DecodeStep(s, p, f);
      SameDecodedFrom(s, st.next, out + if st.stale then [s[|out|]] else st.bytes, f, g);
    }
  }

  // ------------------------------------------------------------- tags

  lemma {:induction false} AttsOfAt(atts: seq<Attribute>, e: bool, k: nat)
    requires k < |atts|
    ensures AttsOf(atts, e)[k] == Att(" ", atts[k].name, "", "", '"', WrittenValue(atts[k].value, false, e))
  {
    hide WrittenValue;
    if k > 0 {
      AttsOfAt(atts[1..], e, k - 1);
    }
  }

  lemma {:induction false} AttsOfText(atts: seq<Attribute>, e: bool)
    ensures AttsText(AttsOf(atts, e)) == WrittenAttributes(atts, e)
  {
    hide WrittenValue;
    if atts != [] {
      AttsOfText(atts[1..], e);
      assert AttsOf(atts, e)[1..] == AttsOf(atts[1..], e);
      AttOfText(atts[0], e);
    }
  }

  lemma AttOfText(a: Attribute, e: bool)
    ensures AttText(Att(" ", a.name, "", "", '"', WrittenValue(a.value, false, e))) == WrittenAttribute(a, e)
  {
    hide WrittenValue;
    var v := WrittenValue(a.value, false, e);
    assert "" + ("=" + ("" + (['"'] + (v + ['"'])))) == "=\"" + v + "\"";
  }

  lemma {:induction false} StartGood(name: string, atts: seq<Attribute>, sealed: bool, e: bool)
    requires IsName(name) && GoodAttributes(atts) && FitAttributes(atts, e)
    ensures GoodTag(StartOf(name, atts, sealed, e))
  {
    hide IsName, Escape;
    var r := AttsOf(atts, e);
    forall k | 0 <= k < |atts| ensures r[k].name == atts[k].name && GoodAtt(r[k]) && r[k].before == " " {
      AttsOfAt(atts, e, k);
      EscapeHasNoDelimiter(atts[k].value, false);
    }
  }

  lemma StartText(name: string, atts: seq<Attribute>, sealed: bool, e: bool)
    ensures TagText(StartOf(name, atts, sealed, e)) == "<" + name + WrittenAttributes(atts, e) + if sealed then "/>" else ">"
  {
    hide WrittenAttributes, AttsText;
    AttsOfText(atts, e);
    var close, w := if sealed then "/>" else ">", WrittenAttributes(atts, e);
    assert "" + ("" + (name + (w + ("" + close)))) == name + w + close;
    assert "<" + (name + w + close) == "<" + name + w + close;
  }

  lemma EndText(name: string)
    ensures TagText(EndOf(name)) == "</" + name + ">" && (IsName(name) ==> GoodTag(EndOf(name)))
  {
    hide IsName;
    assert AttsText([]) == "";
    assert "" + ("/" + (name + ("" + ("" + ">")))) == "/" + name + ">";
    assert "<" + ("/" + name + ">") == "</" + name + ">";
  }

  lemma {:induction false} AttsOfMeaning(atts: seq<Attribute>, o: Options)
    requires forall k | 0 <= k < |atts| :: NulFree(atts[k].value)
    ensures AttsMeaning(AttsOf(atts, o.processEntities), o) == NormalAttributes(atts)
  {
    hide WrittenValue, Value, Normal;
    if atts != [] {
      ValueRead(atts[0].value, false, o.processEntities, false);
      AttsOfMeaning(atts[1..], o);
      assert AttsOf(atts, o.processEntities)[1..] == AttsOf(atts[1..], o.processEntities);
    }
  }

  // ------------------------------------------------------------- printed trees

  predicate NoDeclarations(ns: seq<Node>) {
    forall k | 0 <= k < |ns| :: !ns[k].Declaration?
  }

  /** A written value is blank where the value is, and holds no `<`. */
  lemma {:induction false} WrittenChars(v: string, e: bool)
    requires e || '<' !in v
    ensures var w := WrittenValue(v, true, e); (w == "" <==> v == "") && (Blank(w) <==> Blank(v)) && forall k | 0 <= k < |w| :: w[k] != '<'
  {
    hide Escape;
    EscapeHead(v, true);
    EscapeHasNoDelimiter(v, true);
    LeadingWritten(v);
    BlankLength(v);
    BlankLength(Escape(v, true));
  }

  lemma BlankLength(v: string)
    ensures Blank(v) <==> SkipWs(v, 0) == |v|
  {
  }

  /** What comes of a run of texts. */
  lemma {:induction false} RunSpelled(v: string, o: Options)
    requires NulFree(v) && (o.processEntities || '<' !in v)
    ensures var ns := CharsOf(v, o.processEntities);
      && ItemsText(ns) == WrittenValue(v, true, o.processEntities)
      && (forall k | 0 <= k < |ns| :: ns[k].Chars? && GoodItem(ns[k]))
      && ItemsMeaning(ns, o) == if Blank(v) then [] else [Text(if o.collapseWhitespace then JoinWords(Words(Normal(v), 0)) else Normal(v), false)]
  {
    hide Value, Normal, WrittenValue, Words, Blank;
    var e := o.processEntities;
    WrittenChars(v, e);
    if v != "" {
      var ns := CharsOf(v, e);
      assert ns[1..] == [] && WrittenValue(v, true, e) + "" == WrittenValue(v, true, e);
      ValueRead(v, true, e, o.collapseWhitespace);
    } else {
      NothingIsBlank();
    }
  }

  lemma NothingIsBlank()
    ensures Blank("")
  {
  }

  lemma {:induction false} ItemsCons(n: Item, rest: seq<Item>, first: bool, o: Options)
    requires GoodItem(n) && (n.Chars? && rest != [] ==> !rest[0].Chars?) && (Declares(n) ==> first)
    requires GoodItems(rest, first && (Declares(n) || BlankChars(n)))
    ensures GoodItems([n] + rest, first) && ItemsText([n] + rest) == ItemText(n) + ItemsText(rest)
    ensures ItemsMeaning([n] + rest, o) == ItemMeaning(n, o) + ItemsMeaning(rest, o)
  {
    hide GoodItem, ItemText, ItemMeaning, Blank;
    assert ([n] + rest)[1..] == rest;
  }

  /** Declarations may come: first of all, or none at all. */
  ghost predicate InPlace(ns: seq<Node>, first: bool) {
    NoDeclarations(ns) || (first && DeclarationsFirst(ns))
  }

  lemma InPlaceRest(ns: seq<Node>, m: nat, first: bool)
    requires InPlace(ns, first) && 0 < m <= |ns| && (m == 1 || IsPlainText(ns[0]))
    ensures ns[0].Declaration? ==> first && m == 1 && InPlace(ns[1..], true)
    ensures !ns[0].Declaration? ==> forall b: bool :: InPlace(ns[m..], b)
  {
    if !ns[0].Declaration? {
      assert NoDeclarations(ns);
      assert NoDeclarations(ns[m..]);
    }
  }

  lemma {:induction false} PrintedItem(n: Node, o: Options)
    requires WellFormed(n) && !IsPlainText(n) && Fit(n, o.processEntities)
    ensures var x := ItemOf(n, o.processEntities);
      && GoodItem(x) && !x.Chars? && (Declares(x) <==> n.Declaration?) && ItemText(x) == WrittenNode(n, o.processEntities)
      && ItemMeaning(x, o) == [OneAsRead(n, o)]
    decreases n, 1
  {
    match n
    case Element(name, atts, children) => PrintedElement(n, o);
    case _ => PrintedMark(n, o);
  }

  lemma {:induction false} PrintedMark(n: Node, o: Options)
    requires WellFormed(n) && !IsPlainText(n) && !n.Element?
    ensures var x := ItemOf(n, o.processEntities);
      && GoodItem(x) && !x.Chars? && (Declares(x) <==> n.Declaration?) && ItemText(x) == WrittenNode(n, o.processEntities)
      && ItemMeaning(x, o) == [OneAsRead(n, o)]
  {
    hide Value, Normal, Free, Matches;
    ValueOfMarkup(n.value);
    var m := ItemOf(n, o.processEntities).mark;
    assert Opener(m) + (n.value + Closer(m)) == Opener(m) + n.value + Closer(m);
  }

  lemma {:induction false} PrintedElement(n: Node, o: Options)
    requires WellFormed(n) && n.Element? && Fit(n, o.processEntities)
    ensures var x := ItemOf(n, o.processEntities);
      GoodItem(x) && ItemText(x) == WrittenNode(n, o.processEntities) && ItemMeaning(x, o) == [OneAsRead(n, o)]
    decreases n, 0
  {
    hide Value, Normal, WrittenAttributes, WrittenNodes, TagText, GoodTag, AttsMeaning, NormalAttributes, NormalNodes, ItemsOf, ItemsText, GoodItems,
         ItemsMeaning, IsName, DeclarationsFirst, FitAll, CollapsedAll;
    var e := o.processEntities;
    StartGood(n.name, n.attributes, n.children == [], e);
    StartText(n.name, n.attributes, n.children == [], e);
    AttsOfMeaning(n.attributes, o);
    if n.children == [] {
      NothingNormal();
    } else {
      EndText(n.name);
      PrintedItems(n.children, false, o);
      var head, body, close := "<" + n.name + WrittenAttributes(n.attributes, e), WrittenNodes(n.children, e), "</" + n.name + ">";
      assert head + ">" + (body + close) == head + (">" + body + close);
    }
  }

  lemma NothingNormal()
    ensures NormalNodes([]) == [] && CollapsedAll([]) == []
  {
  }

  /** What is written is spelled, and means what is said to be read. */
  lemma {:induction false} PrintedItems(ns: seq<Node>, first: bool, o: Options)
    requires AllWellFormed(ns) && InPlace(ns, first) && FitAll(ns, o.processEntities)
    ensures var xs := ItemsOf(ns, o.processEntities);
      && GoodItems(xs, first) && ItemsText(xs) == WrittenNodes(ns, o.processEntities) && ItemsMeaning(xs, o) == AsRead(ns, o)
      && (xs != [] && xs[0].Chars? ==> ns != [] && IsPlainText(ns[0]))
    decreases ns, 2
  {
    hide WellFormed, InPlace, WrittenNode, ItemText, ItemMeaning, NormalNodes, Normal, ItemOf, GoodItem, Blank, AsRead, OneAsRead, Fit;
    if ns == [] {
      NothingRead(o);
    } else if IsPlainText(ns[0]) {
      PrintedRun(ns, first, o);
    } else {
      InPlaceRest(ns, 1, first);
      PrintedItem(ns[0], o);
      var n, rest := ItemOf(ns[0], o.processEntities), ItemsOf(ns[1..], o.processEntities);
      NotBlankItem(n);
      PrintedItems(ns[1..], first && Declares(n), o);
      ItemsCons(n, rest, first, o);
      assert ns == [ns[0]] + ns[1..];
      AsReadCons(ns[0], ns[1..], o);
    }
  }

  lemma NothingRead(o: Options)
    ensures AsRead([], o) == []
  {
  }

  lemma NotBlankItem(n: Item)
    requires !n.Chars?
    ensures !BlankChars(n)
  {
  }

  lemma {:induction false} PrintedRun(ns: seq<Node>, first: bool, o: Options)
    requires ns != [] && IsPlainText(ns[0]) && AllWellFormed(ns) && InPlace(ns, first) && FitAll(ns, o.processEntities)
    ensures var xs := ItemsOf(ns, o.processEntities);
      GoodItems(xs, first) && ItemsText(xs) == WrittenNodes(ns, o.processEntities) && ItemsMeaning(xs, o) == AsRead(ns, o)
    decreases ns, 1
  {
    hide WellFormed, InPlace, WrittenNodes, WrittenValue, ItemText, ItemMeaning, NormalNodes, Normal, ItemOf, GoodItem, Blank, RunText, CharsOf, AllWellFormed, GoodItems,
         ItemsText, ItemsMeaning, AsRead, FitAll, Words;
    var e := o.processEntities;
    var m := TextRun(ns);
    var v := RunText(ns[..m]);
    R.RunWellFormed(ns, m);
    RunNulFree(ns[..m]);
    RunFit(ns, m, e);
    RunSpelled(v, o);
    WrittenRun(ns, m, e);
    AsReadRun(ns, o);
    InPlaceRest(ns, m, first);
    var rest := ItemsOf(ns[m..], e);
    if v == "" {
      PrintedItems(ns[m..], first, o);
      NoChars(v, rest, e);
    } else {
      var n := Chars(WrittenValue(v, true, e));
      PrintedItems(ns[m..], first && (Declares(n) || BlankChars(n)), o);
      OneChars(v, n, o);
      assert CharsOf(v, e)[0] == n;
      assert m < |ns| ==> ns[m..][0] == ns[m];
      ItemsCons(n, rest, first, o);
    }
  }

  /** Texts side by side are written as one. */
  lemma {:induction false} WrittenRun(ns: seq<Node>, m: nat, e: bool)
    requires m <= |ns| && forall k | 0 <= k < m :: IsPlainText(ns[k])
    ensures WrittenNodes(ns, e) == WrittenValue(RunText(ns[..m]), true, e) + WrittenNodes(ns[m..], e)
  {
    hide Escape;
    if m == 0 {
      EscapeHead("", true);
      assert ns[..0] == [] && ns[0..] == ns;
    } else {
      assert IsPlainText(ns[0]);
      var rest, run := ns[1..], ns[1..][..m - 1];
      assert forall k | 0 <= k < m - 1 :: rest[k] == ns[k + 1];
      WrittenRun(rest, m - 1, e);
      assert RunText(ns[..m]) == ns[0].value + RunText(run) by { assert ns[..m][1..] == run; }
      assert rest[m - 1..] == ns[m..];
      EscapeAppend(ns[0].value, RunText(run), true);
      ConcatAssociative(WrittenValue(ns[0].value, true, e), WrittenValue(RunText(run), true, e), WrittenNodes(ns[m..], e));
    }
  }

  lemma {:induction false} RunFit(ns: seq<Node>, m: nat, e: bool)
    requires m <= |ns| && (forall k | 0 <= k < m :: IsPlainText(ns[k])) && FitAll(ns, e)
    ensures FitAll(ns[m..], e) && (e || '<' !in RunText(ns[..m]))
  {
    hide Fit;
    if m == 0 {
      assert ns[..0] == [] && ns[0..] == ns;
    } else {
      assert IsPlainText(ns[0]);
      assert Fit(ns[0], e) ==> e || '<' !in ns[0].value by { FitText(ns[0], e); }
      RunFit(ns[1..], m - 1, e);
      assert ns[..m][1..] == ns[1..][..m - 1] && ns[1..][m - 1..] == ns[m..];
    }
  }

  lemma FitText(n: Node, e: bool)
    requires IsPlainText(n)
    ensures Fit(n, e) ==> e || '<' !in n.value
  {
  }

  lemma {:induction false} AsReadRun(ns: seq<Node>, o: Options)
    requires ns != [] && IsPlainText(ns[0])
    ensures var m := TextRun(ns); var v := RunText(ns[..m]);
      AsRead(ns, o) == (if Blank(v) then [] else [Text(if o.collapseWhitespace then JoinWords(Words(Normal(v), 0)) else Normal(v), false)]) + AsRead(ns[m..], o)
  {
    hide Blank, RunText, Normal, NormalNodes, Words;
    R.NormalOfRun(ns);
    var m := TextRun(ns);
    var v := RunText(ns[..m]);
    var one := if Blank(v) then [] else [Text(Normal(v), false)];
    CollapsedAppend(one, NormalNodes(ns[m..]));
    if !Blank(v) {
      assert one[1..] == [];
    }
  }

  lemma NoChars(v: string, rest: seq<Item>, e: bool)
    requires v == ""
    ensures CharsOf(v, e) == [] && [] + rest == rest && WrittenValue(v, true, e) == "" && Blank(v)
  {
  }

  lemma OneChars(v: string, n: Item, o: Options)
    requires v != "" && n == Chars(WrittenValue(v, true, o.processEntities))
    ensures var ns := CharsOf(v, o.processEntities); ns == [n] && ItemText(n) == n.raw && ItemsMeaning(ns, o) == ItemMeaning(n, o)
    ensures !Declares(n)
  {
    hide WrittenValue, Value, Blank;
    assert [n][1..] == [] && ItemMeaning(n, o) + [] == ItemMeaning(n, o);
  }

  // ------------------------------------------------------------- all options

  /**
   Main result.  A document that begins and ends with markup, written without or with entities and
   read under the same options, is read as its normal form, its texts collapsed if that is asked for.
   */
  lemma {:induction false} WrittenRead(d: Document, o: Options)
    requires WellFormedDocument(d) && FitAll(d.children, o.processEntities)
    requires d.children != [] && !IsPlainText(d.children[0]) && !IsPlainText(d.children[|d.children| - 1])
    ensures ReadDocument(WrittenDocument(d, o.processEntities), o) == Read(Document(d.bom, AsRead(d.children, o)))
  {
    hide WrittenNodes, ItemsText, ItemsOf, AllWellFormed, NormalNodes, ItemsMeaning, GoodItems, ReadDocument, FitAll, AsRead, IsWhiteSpace, Matches;
    var xs := ItemsOf(d.children, o.processEntities);
    var x := Spelt("", d.bom, xs, None);
    PrintedItems(d.children, true, o);
    LastItem(d.children, o.processEntities);
    NothingIsBlank();
    assert WrittenNodes(d.children, o.processEntities) + "" == WrittenNodes(d.children, o.processEntities);
    assert SpeltText(x) == WrittenDocument(d, o.processEntities);
    SpeltRead(x, o);
  }

  /** The spelling ends with markup where the siblings do. */
  lemma {:induction false} LastItem(ns: seq<Node>, e: bool)
    requires ns != [] && !IsPlainText(ns[|ns| - 1])
    ensures var xs := ItemsOf(ns, e); xs != [] && !xs[|xs| - 1].Chars?
    decreases |ns|
  {
    hide CharsOf, RunText;
    if IsPlainText(ns[0]) {
      var m := TextRun(ns);
      assert ns[m..][|ns[m..]| - 1] == ns[|ns| - 1];
      LastItem(ns[m..], e);
    } else if |ns| > 1 {
      assert ns[1..][|ns[1..]| - 1] == ns[|ns| - 1];
      LastItem(ns[1..], e);
    }
  }

  // ------------------------------------------------------------- end tags in printed text

  /** An element with these children, written, but with an end tag of its own. */
  function EndedText(a: string, atts: seq<Attribute>, ns: seq<Node>, b: string, e: bool): string {
    "<" + a + WrittenAttributes(atts, e) + ">" + WrittenNodes(ns, e) + "</" + b + ">"
  }

  lemma EndedIs(a: string, atts: seq<Attribute>, ns: seq<Node>, b: string, o: Options)
    requires AllWellFormed(ns) && NoDeclarations(ns) && FitAll(ns, o.processEntities)
    ensures EndedText(a, atts, ns, b, o.processEntities)
      == TagText(StartOf(a, atts, false, o.processEntities)) + (ItemsText(ItemsOf(ns, o.processEntities)) + TagText(EndOf(b)))
  {
    hide WrittenNodes, WrittenAttributes, TagText, ItemsText, ItemsOf, AllWellFormed, NormalNodes, ItemsMeaning, GoodItems, FitAll, AsRead;
    var e := o.processEntities;
    StartText(a, atts, false, e);
    EndText(b);
    PrintedItems(ns, false, o);
    var head, body, close := "<" + a + WrittenAttributes(atts, e) + ">", WrittenNodes(ns, e), "</" + b + ">";
    assert head + body + "</" + b + ">" == head + body + close;
    ConcatAssociative(head, body, close);
  }

  /** The right end tag: the element is read. */
  lemma {:induction false} RightEnd(a: string, atts: seq<Attribute>, ns: seq<Node>, o: Options)
    requires IsName(a) && GoodAttributes(atts) && AllWellFormed(ns) && NoDeclarations(ns)
    requires FitAttributes(atts, o.processEntities) && FitAll(ns, o.processEntities)
    ensures ReadDocument(EndedText(a, atts, ns, a, o.processEntities), o) == Read(Document(false, [Element(a, NormalAttributes(atts), AsRead(ns, o))]))
  {
    hide WrittenNodes, WrittenAttributes, TagText, ItemsText, ItemsOf, AllWellFormed, NormalNodes, NormalAttributes, ItemsMeaning, AttsMeaning, GoodItems,
         GoodTag, IsName, GoodAttributes, EndedText, ReadDocument, FitAll, FitAttributes, AsRead;
    var n := Pair(StartOf(a, atts, false, o.processEntities), ItemsOf(ns, o.processEntities), EndOf(a));
    StartGood(a, atts, false, o.processEntities);
    EndText(a);
    PrintedItems(ns, false, o);
    GoodAttributesNulFree(atts);
    AttsOfMeaning(atts, o);
    EndedIs(a, atts, ns, a, o);
    OneItem(n, o);
    SpeltRead(Spelt("", false, [n], None), o);
  }

  lemma GoodAttributesNulFree(atts: seq<Attribute>)
    requires GoodAttributes(atts)
    ensures forall k | 0 <= k < |atts| :: NulFree(atts[k].value)
  {
  }

  lemma OneItem(n: Item, o: Options)
    requires GoodItem(n) && n.Pair?
    ensures GoodSpelt(Spelt("", false, [n], None)) && SpeltText(Spelt("", false, [n], None)) == ItemText(n)
    ensures ItemsMeaning([n], o) == ItemMeaning(n, o)
  {
    hide GoodItem, ItemText, ItemMeaning;
    assert [n][1..] == [] && ItemMeaning(n, o) + [] == ItemMeaning(n, o);
    assert GoodItems([n][1..], false) && !Declares(n);
    assert GoodItems([n], true) && Blank("");
    assert ItemsText([n]) == ItemText(n) + "";
    assert ItemText(n) + "" == ItemText(n) && "" + ItemText(n) == ItemText(n);
  }

  /** A written element that is open around other text, and its siblings before it. */
  datatype Parent = Parent(before: seq<Node>, name: string, atts: seq<Attribute>)

  function ParentsText(ps: seq<Parent>, e: bool): string {
    if ps == [] then ""
    else WrittenNodes(ps[0].before, e) + ("<" + ps[0].name + WrittenAttributes(ps[0].atts, e) + ">" + ParentsText(ps[1..], e))
  }

  ghost predicate GoodParents(ps: seq<Parent>, first: bool, e: bool) {
    ps != [] ==>
      && AllWellFormed(ps[0].before) && InPlace(ps[0].before, first) && FitAll(ps[0].before, e)
      && IsName(ps[0].name) && GoodAttributes(ps[0].atts) && FitAttributes(ps[0].atts, e)
      && GoodParents(ps[1..], false, e)
  }

  function LevelsOf(ps: seq<Parent>, e: bool): seq<Level> {
    if ps == [] then [] else [Level(ItemsOf(ps[0].before, e), StartOf(ps[0].name, ps[0].atts, false, e))] + LevelsOf(ps[1..], e)
  }

  lemma {:induction false} ParentsSpelled(ps: seq<Parent>, first: bool, o: Options)
    requires GoodParents(ps, first, o.processEntities)
    ensures var ls := LevelsOf(ps, o.processEntities);
      GoodLevels(ls, first) && LevelsText(ls) == ParentsText(ps, o.processEntities) && |ls| == |ps|
  {
    hide WrittenNodes, WrittenAttributes, TagText, ItemsText, ItemsOf, AllWellFormed, NormalNodes, ItemsMeaning, GoodItems, GoodTag, IsName, GoodAttributes,
         InPlace, FitAll, FitAttributes, AsRead;
    if ps != [] {
      var p, e := ps[0], o.processEntities;
      ParentsSpelled(ps[1..], false, o);
      PrintedItems(p.before, first, o);
      StartGood(p.name, p.atts, false, e);
      StartText(p.name, p.atts, false, e);
      assert LevelsOf(ps, e)[1..] == LevelsOf(ps[1..], e);
    }
  }

  /**
   Main result.  Within any written parents and behind any written siblings, an end tag that does
   not name its element makes the text no document, whatever follows; the error is a mismatch, in
   the line of the start tag.
   */
  lemma {:induction false} WrongEndInside(s: string, ps: seq<Parent>, before: seq<Node>, a: string, atts: seq<Attribute>, ns: seq<Node>, b: string, rest: string, o: Options)
    requires GoodParents(ps, true, o.processEntities) && AllWellFormed(before) && InPlace(before, ps == []) && FitAll(before, o.processEntities)
    requires IsName(a) && IsName(b) && a != b && GoodAttributes(atts) && AllWellFormed(ns) && NoDeclarations(ns)
    requires FitAttributes(atts, o.processEntities) && FitAll(ns, o.processEntities)
    requires s == ParentsText(ps, o.processEntities) + WrittenNodes(before, o.processEntities) + EndedText(a, atts, ns, b, o.processEntities) + rest
    requires SkipWs(s, 0) == 0 && !Matches(s, 0, BOM)
    ensures var x := |ParentsText(ps, o.processEntities)| + |WrittenNodes(before, o.processEntities)|;
      x <= |s| && ReadDocument(s, o) == ReadFailed(XML_ERROR_MISMATCHED_ELEMENT, LineAt(s, x))
  {
    hide WrittenNodes, WrittenAttributes, TagText, ItemsText, ItemsOf, AllWellFormed, NormalNodes, ItemsMeaning, GoodItems, GoodTag, IsName, GoodAttributes,
         EndedText, ReadDocument, GoodParents, ParentsText, GoodLevels, LevelsText, LevelsOf, InPlace, Matches, SkipWs, LineAt, AllDeclared, FitAll,
         FitAttributes, AsRead;
    var e := o.processEntities;
    var x := |ParentsText(ps, e)| + |WrittenNodes(before, e)|;
    var f := WrongEnd(StartOf(a, atts, false, e), ItemsOf(ns, e), EndOf(b));
    var ls, items := LevelsOf(ps, e), ItemsOf(before, e);
    ParentsSpelled(ps, true, o);
    PrintedItems(before, ps == [], o);
    NoneInPlace(ns);
    PrintedItems(ns, false, o);
    StartGood(a, atts, false, e);
    EndText(b);
    EndedIs(a, atts, ns, b, o);
    FourParts(s, ParentsText(ps, e), WrittenNodes(before, e), EndedText(a, atts, ns, b, e), rest);
    StartsTag(s, x, StartOf(a, atts, false, e), ItemsText(ItemsOf(ns, e)) + TagText(EndOf(b)));
    AroundHere(s, ls, items, x);
    SamePlace(ps, ls);
    EmptyLead(s);
    FaultyDocument(s, "", false, ls, items, f, o, 0, x);
  }

  lemma NoneInPlace(ns: seq<Node>)
    requires NoDeclarations(ns)
    ensures InPlace(ns, false)
  {
  }

  lemma SamePlace(ps: seq<Parent>, ls: seq<Level>)
    requires |ls| == |ps|
    ensures ls == [] <==> ps == []
  {
  }

  lemma EmptyLead(s: string)
    requires SkipWs(s, 0) == 0
    ensures Blank("") && Matches(s, 0, "") && (0 < |s| ==> !IsWhiteSpace(s[0]))
  {
  }

  lemma FourParts(s: string, a: string, b: string, c: string, d: string)
    requires s == a + b + c + d
    ensures Matches(s, 0, a) && Matches(s, |a|, b) && Matches(s, |a| + |b|, c) && |a| + |b| + |c| <= |s|
  {
    assert s[|a|..|a| + |b|] == b && s[|a| + |b|..|a| + |b| + |c|] == c;
  }

  lemma StartsTag(s: string, x: nat, t: Tag, rest: string)
    requires Matches(s, x, TagText(t) + rest)
    ensures x + 1 < |s| && s[x] == '<'
  {
    hide AttsText;
    MatchesConcat(s, x, TagText(t), rest);
    BeforeTag(s, x, t, []);
  }

  lemma AroundHere(s: string, ls: seq<Level>, items: seq<Item>, x: nat)
    requires GoodLevels(ls, true) && GoodItems(items, ls == []) && Matches(s, 0, LevelsText(ls)) && Matches(s, |LevelsText(ls)|, ItemsText(items))
    requires x == |LevelsText(ls)| + |ItemsText(items)| && x + 1 < |s| && s[x] == '<'
    ensures Around(s, 0, ls, items, x, true)
  {
    hide GoodLevels, GoodItems, LevelsText, ItemsText, Matches;
  }

  /**
   Main result.  A written element is read if and only if its end tag names it; with any other name
   the error is a mismatch in the first line.
   */
  lemma {:induction false} EndTagExact(a: string, atts: seq<Attribute>, ns: seq<Node>, b: string, o: Options)
    requires IsName(a) && IsName(b) && GoodAttributes(atts) && AllWellFormed(ns) && NoDeclarations(ns)
    requires FitAttributes(atts, o.processEntities) && FitAll(ns, o.processEntities)
    ensures ReadDocument(EndedText(a, atts, ns, b, o.processEntities), o) ==
      if a == b then Read(Document(false, [Element(a, NormalAttributes(atts), AsRead(ns, o))])) else ReadFailed(XML_ERROR_MISMATCHED_ELEMENT, 1)
  {
    hide WrittenNodes, WrittenAttributes, AllWellFormed, NormalNodes, IsName, GoodAttributes, EndedText, ReadDocument, Matches, SkipWs, FitAll, FitAttributes, AsRead;
    if a == b {
      RightEnd(a, atts, ns, o);
    } else {
      var s := EndedText(a, atts, ns, b, o.processEntities);
      EndedStarts(a, atts, ns, b, o.processEntities);
      NothingBefore(o.processEntities);
      assert "" + "" + s + "" == s;
      WrongEndInside(s, [], [], a, atts, ns, b, "", o);
    }
  }

  lemma NothingBefore(e: bool)
    ensures GoodParents([], true, e) && ParentsText([], e) == "" && WrittenNodes([], e) == "" && AllWellFormed([]) && InPlace([], true) && FitAll([], e)
  {
  }

  lemma EndedStarts(a: string, atts: seq<Attribute>, ns: seq<Node>, b: string, e: bool)
    ensures var s := EndedText(a, atts, ns, b, e); SkipWs(s, 0) == 0 && !Matches(s, 0, BOM) && LineAt(s, 0) == 1
  {
    hide WrittenNodes, WrittenAttributes, Matches;
    var s := EndedText(a, atts, ns, b, e);
    assert s[0] == '<';
    NoMatch(s, 0, BOM, 0);
  }

  /** With the default options, in terms of what the printer writes. */
  lemma {:induction false} EndTagMustMatch(a: string, ns: seq<Node>, b: string)
    requires IsName(a) && IsName(b) && AllWellFormed(ns) && NoDeclarations(ns)
    ensures ReadDocument("<" + a + ">" + PrintNodes(ns) + "</" + b + ">", DEFAULT_OPTIONS) ==
      if a == b then Read(Document(false, [Element(a, [], NormalNodes(ns))])) else ReadFailed(XML_ERROR_MISMATCHED_ELEMENT, 1)
  {
    hide WrittenNodes, PrintNodes, AllWellFormed, NormalNodes, IsName, ReadDocument, FitAll;
    WrittenPrinted(ns);
    AllFit(ns);
    EndTagExact(a, [], ns, b, DEFAULT_OPTIONS);
    assert "<" + a + "" + ">" == "<" + a + ">";
  }

  lemma {:induction false} AllFit(ns: seq<Node>)
    ensures FitAll(ns, true)
    decreases ns, 0
  {
    if ns != [] {
      if ns[0].Element? { AllFit(ns[0].children); }
      AllFit(ns[1..]);
    }
  }
}
