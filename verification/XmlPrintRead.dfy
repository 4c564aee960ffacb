/**
 What comes of any well-formed document, printable or not, when it is printed compactly and read
 again: an error, or its normal form; and one round is enough to settle it.
 */
module XmlPrintRead {
  import opened Wrappers
  import opened XmlText
  import opened XmlDecode
  import opened XmlTree
  import opened XmlParserSpec
  import opened XmlPrinterSpec
  import opened XmlEscape
  import opened XmlRoundTrip
  import opened XmlReadBack
  import opened XmlParserOutput
  import opened XmlTheorems

  // ------------------------------------------------------------- the text a document begins with

  /** The plain text at the front of the document, as one string. */
  function LeadingText(ns: seq<Node>): string {
    RunText(ns[..TextRun(ns)])
  }

  /** How much of the leading text the parser passes over: whitespace, and what looks like a byte order mark. */
  function Passed(u: string): (cut: nat)
    ensures cut <= |u|
  {
    var k := SkipWs(u, 0);
    if Matches(u, k, BOM) then k + 3 else k
  }

  function TakesMark(u: string): bool {
    Matches(u, SkipWs(u, 0), BOM)
  }

  /** The plain text at the end of the document, as one string. */
  function TrailingText(ns: seq<Node>): string {
    RunText(ns[|WithoutTrailingTexts(ns)|..])
  }

  /** The document as the parser gets to see it: its nodes up to the last markup, the text behind, and the mark. */
  datatype Sight = Sight(bom: bool, front: seq<Node>, tail: string)

  function Seen(d: Document): Sight {
    var front, v := WithoutTrailingTexts(d.children), TrailingText(d.children);
    if d.bom then Sight(true, front, v)
    else if front == [] then Sight(TakesMark(v), [], v[Passed(v)..])
    else
      var u := LeadingText(front);
      Sight(TakesMark(u), CutFront(front, Passed(u)), v)
  }

  // ------------------------------------------------------------- from the text to the parser

  lemma MatchesFrom(s: string, k: nat, w: string)
    requires k <= |s|
    ensures Matches(s, k, w) <==> Matches(s[k..], 0, w)
  {
    if k + |w| <= |s| {
      assert s[k..k + |w|] == s[k..][0..|w|];
    }
  }

  /** Unescaped characters at the front of a value are written as they are. */
  lemma {:induction false} EscapeBehind(v: string, w: string)
    requires Unescaped(w) && Matches(v, 0, w)
    ensures Escape(v, true) == w + Escape(v[|w|..], true)
    decreases |w|
  {
    if w == "" {
      assert v[0..] == v && "" + Escape(v, true) == Escape(v, true);
    } else {
      MatchesChar(v, 0, w, 0);
      assert v == [v[0]] + v[1..] && w == [w[0]] + w[1..];
      ConsMatches(v[0], v[1..], w[1..]);
      EscapeBehind(v[1..], w[1..]);
      assert v[1..][|w[1..]|..] == v[|w|..];
      assert Escape(v, true) == [v[0]] + Escape(v[1..], true);
      ConcatAssociative([w[0]], w[1..], Escape(v[|w|..], true));
    }
  }

  /** Where parsing starts in a text that begins with a written value, and what is left of the value there. */
  lemma {:induction false} StartsBehind(s: string, u: string, tail: string)
    requires s == Escape(u, true) + tail && (tail == "" || tail[0] == '<')
    ensures var i := SkipWs(s, 0);
            && (Matches(s, i, BOM) <==> TakesMark(u))
            && var p := if Matches(s, i, BOM) then i + 3 else i;
            p <= |s| && p == Passed(u) && s[p..] == Escape(u[Passed(u)..], true) + tail
  {
    hide SkipWs, Escape;
    var k := SkipWs(u, 0);
    BehindLeading(s, u, tail);
    MatchesFrom(s, k, BOM);
    MatchesFrom(u, k, BOM);
    MarkOfBom();
    EscapedPrefix(u[k..], tail, BOM);
    if TakesMark(u) {
      EscapeBehind(u[k..], BOM);
      assert u[k..][3..] == u[k + 3..];
      ConcatAssociative(BOM, Escape(u[k + 3..], true), tail);
      assert s[k..][3..] == s[k + 3..];
    }
  }

  lemma {:induction false} EmptyRest(front: seq<Node>, v: string)
    requires front != [] ==> !IsPlainText(front[|front| - 1])
    ensures PrintNodes(front) + Escape(v, true) == "" <==> front == [] && v == ""
  {
    hide PrintNode;
    EscapeHead(v, true);
    if front != [] {
      var n := |front| - 1;
      assert front == front[..n] + [front[n]];
      PrintNodesAppend(front[..n], [front[n]]);
      MarkupStart(front[n]);
      assert PrintNodes([front[n]]) == PrintNode(front[n]) + PrintNodes([]);
    }
  }

  /** What is read when the parser starts where `front` and then `v` were printed. */
  lemma {:induction false} ReadFrom(s: string, bom: bool, front: seq<Node>, v: string)
    requires AllWellFormed(front) && Located(true, [], front)
    requires front != [] ==> !IsPlainText(front[|front| - 1])
    requires Matches(s, SkipWs(s, 0), BOM) == bom
    requires var p := if bom then SkipWs(s, 0) + 3 else SkipWs(s, 0);
             p <= |s| && s[p..] == PrintNodes(front) + Escape(v, true)
    ensures ReadsAs(ReadDocument(s, DEFAULT_OPTIONS), Sight(bom, front, v))
  {
    hide ParseLoop, PrintNodes, NormalNodes, DecodeNodes, AllWellFormed, SkipWs, Escape, Matches, Blank;
    var p := if bom then SkipWs(s, 0) + 3 else SkipWs(s, 0);
    var rs := PrintedRead(s, p, front, v);
    EmptyRest(front, v);
    NothingIsBlank();
    assert p == |s| <==> s[p..] == "";
  }

  lemma NothingIsBlank()
    ensures Blank("")
  {
  }

  /** What the parser answers to a document it sees like that. */
  ghost predicate ReadsAs(r: ReadResult, seen: Sight) {
    if seen.front == [] && seen.tail == "" then r == ReadFailed(XML_ERROR_EMPTY_DOCUMENT, 0)
    else if !Blank(seen.tail) then r.ReadFailed? && r.error == XML_ERROR_PARSING_TEXT
    else r == Read(Document(seen.bom, NormalNodes(seen.front)))
  }

  lemma {:induction false} SeenWellFormed(d: Document)
    requires WellFormedDocument(d)
    ensures var front := Seen(d).front;
            AllWellFormed(front) && Located(true, [], front) && (front != [] ==> !IsPlainText(front[|front| - 1]))
  {
    hide AllWellFormed, CutFront, Passed, TakesMark;
    var front := WithoutTrailingTexts(d.children);
    PrefixWellFormed(d.children, front);
    if !d.bom && front != [] {
      CutWellFormed(front, Passed(LeadingText(front)));
    } else if front == [] {
      assert AllWellFormed([]);
    }
    FirstLocated(Seen(d).front);
  }

  /**
   Main result.  Printing any well-formed document and reading the text: text behind the last
   markup is an error unless it is blank, nothing at all is an error, and everything else comes
   back in its normal form, less the whitespace and the mark the parser passes over at the front.
   */
  lemma {:induction false} PrintThenRead(d: Document)
    requires WellFormedDocument(d)
    ensures ReadsAs(ReadDocument(PrintDocument(d), DEFAULT_OPTIONS), Seen(d))
  {
    hide PrintNodes, AllWellFormed, SkipWs, Escape, ReadDocument, ReadsAs, CutFront, Matches, Passed, TakesMark, DeclarationsFirst;
    var s := PrintDocument(d);
    var front, v := WithoutTrailingTexts(d.children), TrailingText(d.children);
    SeenWellFormed(d);
    PrintSplit(d.children);
    if d.bom {
      BomRead(s, PrintNodes(d.children));
      ReadFrom(s, true, front, v);
    } else if front == [] {
      PrintNothing();
      assert s == Escape(v, true) + "" && s == PrintNodes([]) + Escape(v, true);
      StartsBehind(s, v, "");
      assert Escape(v[Passed(v)..], true) + "" == PrintNodes([]) + Escape(v[Passed(v)..], true);
      ReadFrom(s, TakesMark(v), [], v[Passed(v)..]);
    } else {
      FrontRead(d, s, front, v);
    }
  }

  lemma {:induction false} FrontRead(d: Document, s: string, front: seq<Node>, v: string)
    requires WellFormedDocument(d) && !d.bom && front == WithoutTrailingTexts(d.children) && front != [] && v == TrailingText(d.children)
    requires s == PrintNodes(front) + Escape(v, true)
    ensures ReadsAs(ReadDocument(s, DEFAULT_OPTIONS), Seen(d))
  {
    hide PrintNodes, AllWellFormed, SkipWs, Escape, ReadDocument, ReadsAs, CutFront, Matches, Passed, TakesMark,
         DeclarationsFirst, RunText, WellFormedDocument, WithoutTrailingTexts, TextRun, Blank;
    SeenWellFormed(d);
    var m := TextRun(front);
    var u := LeadingText(front);
    var tail := PrintNodes(front[m..]) + Escape(v, true);
    assert s == Escape(u, true) + tail by {
      PrintRun(front, m);
      ConcatAssociative(Escape(u, true), PrintNodes(front[m..]), Escape(v, true));
    }
    assert tail != "" && tail[0] == '<' by { PrintFront(front[m..]); }
    StartsBehind(s, u, tail);
    assert Escape(u[Passed(u)..], true) + tail == PrintNodes(CutFront(front, Passed(u))) + Escape(v, true) by {
      CutPrint(front, Passed(u));
      ConcatAssociative(Escape(u[Passed(u)..], true), PrintNodes(front[m..]), Escape(v, true));
    }
    ReadFrom(s, TakesMark(u), CutFront(front, Passed(u)), v);
  }

  /** A document that begins and ends with markup is read back as its normal form. */
  lemma {:induction false} MarkupThenRead(d: Document)
    requires WellFormedDocument(d) && d.children != []
    requires !IsPlainText(d.children[0]) && !IsPlainText(d.children[|d.children| - 1])
    ensures ReadDocument(PrintDocument(d), DEFAULT_OPTIONS) == Read(Document(d.bom, NormalNodes(d.children)))
  {
    hide ReadDocument, PrintDocument, NormalNodes, AllWellFormed, DeclarationsFirst;
    var ns := d.children;
    PrintThenRead(d);
    assert WithoutTrailingTexts(ns) == ns && ns[|ns|..] == [] && TrailingText(ns) == "";
    assert TextRun(ns) == 0 && ns[..0] == [] && ns[0..] == ns && LeadingText(ns) == "";
  }

  // ------------------------------------------------------------- one round settles

  lemma {:induction false} NormalAttributesSettled(atts: seq<Attribute>)
    ensures SettledAttributes(NormalAttributes(atts))
  {
    hide Normal, CrFree;
    if atts != [] {
      NormalAttributesSettled(atts[1..]);
      NormalIsFixpoint(atts[0].value);
      var r := NormalAttributes(atts);
      assert r[1..] == NormalAttributes(atts[1..]);
      assert forall k | 0 < k < |r| :: r[k] == r[1..][k - 1];
    }
  }

  lemma {:induction false} NormalNodeSettled(n: Node)
    ensures SettledNode(NormalNode(n)) && IsPlainText(NormalNode(n)) == IsPlainText(n)
    decreases n, 1
  {
    hide Normal, CrFree, NormalAttributes, SettledAttributes, SettledNodes, NormalNodes;
    match n
    case Element(_, atts, children) =>
      NormalAttributesSettled(atts);
      NormalNodesSettled(children);
    case _ =>
      NormalIsFixpoint(n.value);
  }

  /** Line ends apart, a value is as blank as its normal form. */
  lemma {:induction false} NormalBlank(v: string, k: nat)
    requires k <= |v| && !Blank(v[k..])
    ensures !Blank(IdealFrom(v, k, MARKUP_FLAGS))
    decreases |v| - k
  {
    var st := DecodeStep(v, k, MARKUP_FLAGS);
    assert v[k..] == [v[k]] + v[k + 1..];
    NormalStep(v, k);
    var rest := IdealFrom(v, st.next, MARKUP_FLAGS);
    if IsWhiteSpace(v[k]) {
      assert st.next == k + 2 ==> v[k + 1..] == [v[k + 1]] + v[k + 2..];
      NormalBlank(v, st.next);
      var j :| 0 <= j < |rest| && !IsWhiteSpace(rest[j]);
      assert (st.bytes + rest)[j + 1] == rest[j];
    } else {
      assert (st.bytes + rest)[0] == v[k];
    }
  }

  lemma {:induction false} SettledCons(n: Node, ns: seq<Node>)
    requires SettledNode(n) && SettledNodes(ns)
    requires IsPlainText(n) ==> !Blank(n.value) && (ns != [] ==> !IsPlainText(ns[0]))
    ensures SettledNodes([n] + ns)
  {
    assert ([n] + ns)[1..] == ns;
  }

  /** The normal form begins with text only where the siblings do. */
  lemma {:induction false} NormalFirst(ns: seq<Node>)
    requires ns != [] && !IsPlainText(ns[0])
    ensures NormalNodes(ns) != [] && !IsPlainText(NormalNodes(ns)[0])
  {
    hide NormalAttributes, Normal;
  }

  /** A normal form is settled. */
  lemma {:induction false} NormalNodesSettled(ns: seq<Node>)
    ensures SettledNodes(NormalNodes(ns))
    decreases ns, 0
  {
    hide Normal, NormalNode, SettledNode, Blank, RunText, SettledNodes;
    if ns == [] {
      NothingSettled();
    } else if IsPlainText(ns[0]) {
      var m := TextRun(ns);
      var v := RunText(ns[..m]);
      NormalOfRun(ns);
      NormalNodesSettled(ns[m..]);
      if m < |ns| { NormalFirst(ns[m..]); }
      if Blank(v) {
        assert [] + NormalNodes(ns[m..]) == NormalNodes(ns[m..]);
      } else {
        assert v[0..] == v;
        NormalBlank(v, 0);
        NormalIsIdeal(v);
        TextSettled(v);
        SettledCons(Text(Normal(v), false), NormalNodes(ns[m..]));
      }
    } else {
      NormalNodeSettled(ns[0]);
      NormalNodesSettled(ns[1..]);
      SettledCons(NormalNode(ns[0]), NormalNodes(ns[1..]));
    }
  }

  lemma NothingSettled()
    ensures SettledNodes(NormalNodes([]))
  {
  }

  lemma TextSettled(v: string)
    ensures SettledNode(Text(Normal(v), false))
  {
    NormalIsFixpoint(v);
  }

  /** The normal form ends with markup where the siblings do. */
  lemma {:induction false} NormalLast(ns: seq<Node>)
    requires ns != [] && !IsPlainText(ns[|ns| - 1])
    ensures var r := NormalNodes(ns); r != [] && !IsPlainText(r[|r| - 1])
    decreases |ns|
  {
    hide Normal, Blank, RunText, NormalAttributes;
    if IsPlainText(ns[0]) {
      var m := TextRun(ns);
      NormalOfRun(ns);
      assert ns[m..][|ns[m..]| - 1] == ns[|ns| - 1];
      NormalLast(ns[m..]);
    } else if |ns| > 1 {
      assert ns[1..][|ns[1..]| - 1] == ns[|ns| - 1];
      NormalLast(ns[1..]);
    } else {
      assert NormalNodes(ns[1..]) == [];
    }
  }

  /** The first text of what is read starts with neither whitespace nor a mark. */
  lemma {:induction false} ClearFirst(front: seq<Node>)
    requires front != [] && !IsPlainText(front[|front| - 1])
    requires !TakesMark(LeadingText(front))
    ensures var r := NormalNodes(CutFront(front, Passed(LeadingText(front))));
            r != [] && (IsPlainText(r[0]) ==> !IsWhiteSpace(At(r[0].value, 0)) && !Matches(r[0].value, 0, BOM))
  {
    hide Matches, NormalNodes, Normal, RunText;
    var m := TextRun(front);
    var u := LeadingText(front);
    var k := Passed(u);
    var ns := CutFront(front, k);
    if k == |u| {
      NormalFirst(ns);
    } else {
      assert front[m..][|front[m..]| - 1] == front[|front| - 1];
      var v := u[k..];
      assert ns[0] == Text(v, false) && ns[1] == front[m];
      assert !Blank(v) by { assert !IsWhiteSpace(v[0]); }
      FirstOfNormal(ns);
      NormalKeepsFirst(v);
      NormalIsIdeal(v);
      MarkOfBom();
      if Matches(Normal(v), 0, BOM) {
        PrefixOfNormal(v, 0, BOM);
      }
      MatchesFrom(u, k, BOM);
    }
  }

  /**
   One round is enough: what was printed and read, from any well-formed document, comes back
   unchanged from every further round, unless it has no children at all.
   */
  lemma {:induction false} OneRoundSettles(d: Document)
    requires WellFormedDocument(d)
    requires ReadDocument(PrintDocument(d), DEFAULT_OPTIONS).Read?
    ensures var d' := ReadDocument(PrintDocument(d), DEFAULT_OPTIONS).document;
            ReadDocument(PrintDocument(d'), DEFAULT_OPTIONS) == Read(d') <==> d'.children != []
  {
    hide ReadDocument, PrintDocument, NormalNodes, SettledNodes, CutFront, Passed, TakesMark, AllWellFormed, DeclarationsFirst, Blank, Matches;
    var s := PrintDocument(d);
    var d' := ReadDocument(s, DEFAULT_OPTIONS).document;
    WellFormedCStrings(d.children);
    PrintedNulFree(d);
    ReadIsWellFormed(s, DEFAULT_OPTIONS);
    WellFormedCStrings(d'.children);
    PrintThenRead(d);
    RoundTrip(d');
    var front := Seen(d).front;
    SeenWellFormed(d);
    NormalNodesSettled(front);
    if front == [] {
      NormalNothing();
    } else {
      NormalLast(front);
      if !d'.bom {
        ClearFirst(WithoutTrailingTexts(d.children));
      }
    }
  }

  lemma NormalNothing()
    ensures NormalNodes([]) == []
  {
  }

  lemma {:induction false} PrintedNulFree(d: Document)
    requires CStrings(d.children)
    ensures NulFree(PrintDocument(d))
  {
    hide PrintNodes;
    PrintNulFree(d.children);
  }

  /**
   Reading, writing and reading again: a text that begins and ends with markup is read back as the
   normal form of what was read first, and as the same document exactly if that was settled.
   */
  lemma {:induction false} ReadPrintRead(s: string)
    requires NulFree(s) && ReadDocument(s, DEFAULT_OPTIONS).Read?
    requires var ns := ReadDocument(s, DEFAULT_OPTIONS).document.children;
      ns != [] && !IsPlainText(ns[0]) && !IsPlainText(ns[|ns| - 1])
    ensures var d := ReadDocument(s, DEFAULT_OPTIONS).document;
      && ReadDocument(PrintDocument(d), DEFAULT_OPTIONS) == Read(Document(d.bom, NormalNodes(d.children)))
      && (ReadDocument(PrintDocument(d), DEFAULT_OPTIONS) == ReadDocument(s, DEFAULT_OPTIONS) <==> SettledNodes(d.children))
  {
    hide ReadDocument, PrintDocument, WellFormedDocument, SettledNodes, NormalNodes;
    var d := ReadDocument(s, DEFAULT_OPTIONS).document;
    ReadIsWellFormed(s, DEFAULT_OPTIONS);
    MarkupThenRead(d);
    NormalNodesFixed(d.children);
  }
}
