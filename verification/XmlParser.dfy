/**
 The parser of tinyxml2 as it runs: one character buffer, a line counter and an error
 code, with names terminated in place while parsing goes on.

 `text` is the document before parsing, up to its first NUL.  Null pointers are -1.
 */
module XmlParser {
  import opened Wrappers
  import opened XmlText
  import opened XmlDecode
  import opened XmlTree
  import opened XmlParserSpec
  import opened XmlLayout
  import opened XmlBuffer
  import opened XmlParserOutput

  // ------------------------------------------------------------- strings in a buffer being overwritten

  /** The bytes of a pair are still those of the text; a flushed pair is terminated. */
  ghost predicate Held(b: seq<char>, s: string, sp: StrPair) {
    && sp.start <= sp.end <= |s| && sp.end < |b|
    && (forall k | sp.start <= k < sp.end :: b[k] == s[k])
    && (!sp.flush ==> sp.flags == PLAIN && b[sp.end] == NUL)
  }

  ghost predicate AllHeld(b: seq<char>, s: string, ps: seq<StrPair>) {
    forall k | 0 <= k < |ps| :: Held(b, s, ps[k])
  }

  /** Writing behind all pairs leaves them alone. */
  lemma {:induction false} HeldAfter(now: seq<char>, before: seq<char>, s: string, ps: seq<StrPair>, lo: nat, mid: nat, hi: nat)
    requires AllHeld(before, s, ps) && InRange(ps, lo, mid) && OnlyWithin(now, before, mid, hi)
    ensures AllHeld(now, s, ps)
  {
  }

  lemma {:induction false} HeldApart(now: seq<char>, before: seq<char>, s: string, sp: StrPair, lo: nat, hi: nat)
    requires Held(before, s, sp) && OnlyWithin(now, before, lo, hi) && (sp.end < lo || hi <= sp.start)
    ensures Held(now, s, sp)
  {
  }

  lemma {:induction false} HeldConcat(b: seq<char>, s: string, p: seq<StrPair>, q: seq<StrPair>)
    requires AllHeld(b, s, p) && AllHeld(b, s, q)
    ensures AllHeld(b, s, p + q)
  {
  }

  /** Text without a line feed does not change the line. */
  lemma {:induction false} SameLine(s: string, i: nat, j: nat)
    requires i <= j <= |s| && forall k | i <= k < j :: s[k] != LF
    ensures LineAt(s, j) == LineAt(s, i)
  {
    if i < j {
      SameLine(s, i, j - 1);
    }
  }

  /** What the loop makes of the outcome of a node parser. */
  ghost function AfterNode(s: string, r: NodeResult, line: nat, inDocument: bool, acc: seq<Parsed>, o: Options): LoopResult
    requires r.NodeParsed? ==> r.next <= |s|
    requires r.NodeParsed? && r.node.PElement? ==> r.node.name.start <= r.node.name.end <= |s|
  {
    match r
    case NodeFailed(error, l) =>
      if error.Some? then LoopFailed(error.value, l) else LoopFailed(XML_ERROR_PARSING, line)
    case NodeParsed(node, closing, endTag, next) =>
      if node.PDeclaration? && !WellLocated(inDocument, acc) then LoopFailed(XML_ERROR_PARSING_DECLARATION, line)
      else if node.PElement? && closing == CLOSING then LoopClosed(acc, node.name, next)
      else if node.PElement? && Mismatch(s, node.name, closing, endTag) then LoopFailed(XML_ERROR_MISMATCHED_ELEMENT, line)
      else ParseLoop(s, next, inDocument, acc + [AfterComparison(node, endTag)], o)
  }

  lemma {:induction false} LoopUnfolds(s: string, i: nat, inDocument: bool, acc: seq<Parsed>, o: Options)
    requires i <= |s| && SkipWs(s, i) < |s|
    ensures var (kind, start) := Identify(s, i);
            var line := LineAt(s, SkipWs(s, i));
            ParseLoop(s, i, inDocument, acc, o) == AfterNode(s, ParseNode(s, start, kind, line, o), line, inDocument, acc, o)
  {
    hide ParseNode, Identify, SkipWs, LineAt, Mismatch, WellLocated;
  }

  class XMLDocument {
    const options: Options
    var charBuffer: array<char>
    var parseCurLineNum: nat
    var errorID: Option<XmlError>
    var errorLineNum: nat
    var writeBOM: bool
    var children: seq<Parsed>
    ghost var text: string

    constructor (processEntities: bool, collapseWhitespace: bool)
      ensures options == Options(processEntities, collapseWhitespace)
      ensures errorID.None? && children == [] && !writeBOM
      ensures fresh(charBuffer)
    {
      options := Options(processEntities, collapseWhitespace);
      charBuffer := new char[0];
      parseCurLineNum, errorLineNum := 0, 0;
      errorID, writeBOM, children := None, false, [];
      text := "";
    }

    /**
     Parsing stands at `p`: from there on the buffer is untouched, and the counter shows
     one more than the line feeds consumed.
     */
    ghost predicate Ready(p: nat)
      reads `text, `charBuffer, `parseCurLineNum, charBuffer
    {
      && p <= |text| && NulFree(text)
      && Holds(charBuffer, 0, text, p)
      && parseCurLineNum == LineAt(text, p)
    }

    lemma {:induction false} Peek(p: nat)
      requires Ready(p)
      ensures p < charBuffer.Length && charBuffer[p] == At(text, p)
      ensures charBuffer[p] == NUL <==> p == |text|
    {
      assert p < |text| ==> charBuffer[0 + p] == text[p];
    }

    method SetError(error: XmlError, lineNum: nat)
      modifies `errorID, `errorLineNum
      ensures errorID == Some(error) && errorLineNum == lineNum
    {
      errorID := Some(error);
      errorLineNum := lineNum;
    }

    lemma {:induction false} LineOf(p: nat)
      requires Ready(p)
      ensures parseCurLineNum == LineAt(text, p)
    {
    }

    lemma {:induction false} StepOver(p: nat)
      requires Ready(p) && p < |text| && text[p] != LF
      ensures Ready(p + 1)
    {
    }

    /** Stepping over one byte, which may be a line feed. */
    method CountLine(p: nat)
      requires Ready(p) && p < |text|
      modifies `parseCurLineNum
      ensures Ready(p + 1)
    {
      Peek(p);
      if charBuffer[p] == LF {
        parseCurLineNum := parseCurLineNum + 1;
      }
    }

    /** `XMLUtil::SkipWhiteSpace` with the line counter. */
    method SkipWhiteSpaceLines(p: nat) returns (r: nat)
      requires Ready(p)
      modifies `parseCurLineNum
      ensures r == SkipWs(text, p) && Ready(r)
    {
      r := p;
      while IsWhiteSpace(charBuffer[r])
        invariant p <= r <= |text| && Ready(r)
        invariant SkipWs(text, p) == SkipWs(text, r)
        decreases |text| - r
      {
        CountLine(r);
        r := r + 1;
      }
    }

    /** `StrPair::ParseText`. */
    method ParseText(p: nat, endTag: string, flags: Flags) returns (r: int, sp: StrPair)
      requires Ready(p) && endTag != "" && NulFree(endTag) && OneLine(endTag)
      modifies `parseCurLineNum
      ensures match FindTag(text, p, endTag)
              case None => r == -1
              case Some(j) => r == j + |endTag| && sp == StrPair(p, j, flags, true) && Ready(j + |endTag|)
    {
      hide LineAt, Matches;
      var q := p;
      sp := StrPair(p, p, flags, true);
      while charBuffer[q] != NUL
        invariant p <= q <= |text| && Ready(q)
        invariant FindTag(text, p, endTag) == FindTag(text, q, endTag)
        decreases |text| - q
      {
        Peek(q);
        var found := false;
        if charBuffer[q] == endTag[0] {
          found := StartsWith(charBuffer, q, endTag, 0, text);
        } else {
          NoMatch(text, q, endTag, 0);
        }
        if found {
          sp := StrPair(p, q, flags, true);
          MatchesBounds(text, q, endTag);
          TagOnOneLine(q, endTag);
          assert FindTag(text, q, endTag) == Some(q);
          return q + |endTag|, sp;
        }
        CountLine(q);
        q := q + 1;
      }
      Peek(q);
      r := -1;
    }

    lemma {:induction false} TagOnOneLine(q: nat, endTag: string)
      requires q <= |text| && Matches(text, q, endTag) && OneLine(endTag)
      ensures LineAt(text, q + |endTag|) == LineAt(text, q)
    {
      forall k | q <= k < q + |endTag| ensures text[k] != LF {
        MatchesChar(text, q, endTag, k - q);
      }
      SameLine(text, q, q + |endTag|);
    }

    /** `StrPair::ParseName`. */
    method ParseName(p: nat) returns (r: int, sp: StrPair)
      requires Ready(p)
      modifies `parseCurLineNum
      ensures if p < |text| && IsNameStartChar(text[p]) then
                r == NameEnd(text, p + 1) && sp == StrPair(p, r, PLAIN, true) && Ready(NameEnd(text, p + 1))
              else r == -1
    {
      sp := StrPair(p, p, PLAIN, true);
      if charBuffer[p] == NUL || !IsNameStartChar(charBuffer[p]) {
        return -1, sp;
      }
      var q := p + 1;
      while charBuffer[q] != NUL && IsNameChar(charBuffer[q])
        invariant p < q <= |text| && NameEnd(text, p + 1) == NameEnd(text, q)
        invariant forall k | p <= k < q :: text[k] != LF
        decreases |text| - q
      {
        q := q + 1;
      }
      SameLine(text, p, q);
      return q, StrPair(p, q, PLAIN, true);
    }

    // ----------------------------------------------------------- attributes

    /** The opening quote behind an attribute's name, past whitespace and the equals sign, or -1. */
    method SkipToQuote(p: nat) returns (quote: int)
      requires Ready(p)
      modifies `parseCurLineNum
      ensures var eq := SkipWs(text, p);
              if eq < |text| && text[eq] == '=' && At(text, SkipWs(text, eq + 1)) in {'"', '\''} then
                quote == SkipWs(text, eq + 1) && Ready(SkipWs(text, eq + 1))
              else quote == -1
    {
      hide Ready, SkipWs;
      var eq := SkipWhiteSpaceLines(p);
      Peek(eq);
      if charBuffer[eq] != '=' {
        return -1;
      }
      StepOver(eq);
      quote := SkipWhiteSpaceLines(eq + 1);
      Peek(quote);
      if charBuffer[quote] != '"' && charBuffer[quote] != '\'' {
        return -1;
      }
    }

    /** `XMLAttribute::ParseDeep`; its name is still to be flushed. */
    method ParseAttributeDeep(p: nat) returns (r: int, a: ParsedAttribute)
      requires Ready(p) && p < |text| && IsNameStartChar(text[p])
      modifies `parseCurLineNum
      ensures match ParseAttribute(text, p, options)
              case NoAttribute => r == -1
              case OneAttribute(b, next) => r == next && a == b.(name := b.name.(flush := true)) && Ready(next)
    {
      hide LineAt, FindTag, NameEnd, SkipWs, Ready;
      LineOf(p);
      var line := parseCurLineNum;
      var e, name := ParseName(p);
      a := ParsedAttribute(line, name, name);
      Peek(e);
      if charBuffer[e] == NUL {
        EndIsNoAttribute(p, e);
        return -1, a;
      }
      var quote := SkipToQuote(e);
      if quote == -1 {
        return -1, a;
      }
      Peek(quote);
      StepOver(quote);
      var value;
      r, value := ParseText(quote + 1, [charBuffer[quote]], options.AttributeFlags());
      a := ParsedAttribute(line, name, value);
    }

    lemma {:induction false} EndIsNoAttribute(p: nat, e: nat)
      requires p < |text| && IsNameStartChar(text[p]) && NameEnd(text, p + 1) == e == |text|
      ensures ParseAttribute(text, p, options) == NoAttribute
    {
    }

    /** A flushed name is a C string in the buffer. */
    lemma {:induction false} HeldName(sp: StrPair)
      requires NulFree(text) && Held(charBuffer[..], text, sp) && !sp.flush
      ensures CStringAt(charBuffer, sp.start, PairValue(text, sp))
    {
      CStrOfNulFree(text[sp.start..sp.end]);
    }

    /** `Attribute( attrib->Name() )`: whether an earlier attribute has this name. */
    method FindAttribute(list: seq<ParsedAttribute>, name: StrPair) returns (b: bool)
      requires NulFree(text) && AllHeld(charBuffer[..], text, AttributePairs(list))
      requires forall k | 0 <= k < |list| :: !list[k].name.flush
      requires Held(charBuffer[..], text, name) && !name.flush
      ensures b <==> HasAttribute(text, list, PairValue(text, name))
    {
      hide Held, PairValue, CStringAt;
      HeldName(name);
      var k := 0;
      while k < |list|
        invariant k <= |list|
        invariant forall j | 0 <= j < k :: PairValue(text, list[j].name) != PairValue(text, name)
      {
        AttributeNameHeld(list, k);
        HeldName(list[k].name);
        var same := StringEqual(charBuffer, list[k].name.start, name.start,
                                PairValue(text, list[k].name), PairValue(text, name));
        if same {
          return true;
        }
        k := k + 1;
      }
      return false;
    }

    lemma {:induction false} AttributeNameHeld(list: seq<ParsedAttribute>, k: nat)
      requires k < |list| && AllHeld(charBuffer[..], text, AttributePairs(list))
      ensures Held(charBuffer[..], text, list[k].name)
    {
      NamePosition(list, k);
    }

    lemma {:induction false} NamePosition(list: seq<ParsedAttribute>, k: nat)
      requires k < |list|
      ensures 2 * k < |AttributePairs(list)| && AttributePairs(list)[2 * k] == list[k].name
    {
      if k > 0 {
        NamePosition(list[1..], k - 1);
      }
    }

    /** `Name()` of a pair that has not been read: only its terminator is written. */
    method FlushName(sp: StrPair, ghost next: nat) returns (sp': StrPair)
      requires Ready(next) && sp.end < next
      requires sp.flush && sp.flags == PLAIN && NulFree(text) && Held(charBuffer[..], text, sp)
      modifies charBuffer
      ensures sp' == sp.(flush := false) && Held(charBuffer[..], text, sp') && Ready(next)
      ensures OnlyWithin(charBuffer[..], old(charBuffer[..]), sp.end, sp.end + 1)
    {
      sp' := GetStr(charBuffer, sp);
    }

    /** The attributes linked in so far: their pairs lie in order, and are still what they were. */
    ghost predicate Linked(list: seq<ParsedAttribute>, lo: nat, hi: nat)
      reads `text, `charBuffer, charBuffer
    {
      && LaidOut(AttributePairs(list), lo, hi)
      && AllHeld(charBuffer[..], text, AttributePairs(list))
      && forall k | 0 <= k < |list| :: !list[k].name.flush
    }

    /** Creates an attribute: its name is flushed and looked up among the earlier ones. */
    method LookUp(list: seq<ParsedAttribute>, a: ParsedAttribute, lo: nat, p: nat, next: nat)
      returns (b: ParsedAttribute, duplicate: bool)
      requires Ready(next) && Holds(charBuffer, 0, text, p) && lo <= p && Linked(list, lo, p)
      requires a.name.flush && a.name.flags == PLAIN && a.value.flush
      requires p <= a.name.start < a.name.end < a.value.start <= a.value.end < next
      modifies charBuffer
      ensures b == a.(name := a.name.(flush := false))
      ensures duplicate <==> HasAttribute(text, list, PairValue(text, b.name))
      ensures Ready(next) && Linked(list + [b], lo, next)
      ensures OnlyWithin(charBuffer[..], old(charBuffer[..]), p, next)
    {
      hide PairValue, HasAttribute;
      ghost var before := charBuffer[..];
      UntouchedHeld(a.name, p);
      UntouchedHeld(a.value, p);
      var name := FlushName(a.name, next);
      b := a.(name := name);
      WithinWider(charBuffer[..], before, name.end, name.end + 1, p, next);
      HeldAfter(charBuffer[..], before, text, AttributePairs(list), lo, p, next);
      HeldApart(charBuffer[..], before, text, a.value, name.end, name.end + 1);
      AttributeHeld(list, b);
      AttributeLinked(list, b, lo, p, next);
      duplicate := FindAttribute(list, name);
    }

    lemma {:induction false} UntouchedHeld(sp: StrPair, p: nat)
      requires Holds(charBuffer, 0, text, p) && p <= sp.start <= sp.end <= |text| && sp.flush
      ensures Held(charBuffer[..], text, sp)
    {
      forall k | sp.start <= k < sp.end ensures charBuffer[..][k] == text[k] {
        assert charBuffer[0 + k] == text[k];
      }
    }

    lemma {:induction false} AttributeHeld(list: seq<ParsedAttribute>, b: ParsedAttribute)
      requires AllHeld(charBuffer[..], text, AttributePairs(list))
      requires Held(charBuffer[..], text, b.name) && Held(charBuffer[..], text, b.value)
      ensures AllHeld(charBuffer[..], text, AttributePairs(list + [b]))
    {
      AttributePairsAppend(list, [b]);
      assert AttributePairs([b]) == [b.name, b.value] by { assert [b][1..] == []; }
      HeldConcat(charBuffer[..], text, AttributePairs(list), [b.name, b.value]);
    }

    /** The text is there from `p` on, and the lines before it are counted. */
    lemma {:induction false} StillReady(p: nat)
      requires p <= |text| && NulFree(text) && Holds(charBuffer, 0, text, p) && parseCurLineNum == LineAt(text, p)
      ensures Ready(p)
    {
    }

    /** The part of `XMLElement::ParseAttributes` for one attribute. */
    method NextAttribute(list: seq<ParsedAttribute>, lo: nat, p: nat) returns (r: int, list': seq<ParsedAttribute>)
      requires Ready(p) && errorID.None? && p < |text| && IsNameStartChar(text[p])
      requires lo <= p && Linked(list, lo, p)
      modifies `parseCurLineNum, `errorID, `errorLineNum, charBuffer
      ensures OnlyWithin(charBuffer[..], old(charBuffer[..]), p, |text| + 1)
      ensures match ParseAttribute(text, p, options)
              case NoAttribute =>
                r == -1 && errorID == Some(XML_ERROR_PARSING_ATTRIBUTE) && errorLineNum == LineAt(text, p)
              case OneAttribute(a, next) =>
                if HasAttribute(text, list, PairValue(text, a.name)) then
                  r == -1 && errorID == Some(XML_ERROR_PARSING_ATTRIBUTE) && errorLineNum == LineAt(text, p)
                else
                  && r == next && list' == list + [a] && errorID.None?
                  && Ready(next) && Linked(list', lo, next) && OnlyWithin(charBuffer[..], old(charBuffer[..]), p, next)
    {
      hide LineAt, FindTag, NameEnd, SkipWs, Linked, HasAttribute, PairValue, Held;
      var attrLineNum := parseCurLineNum;
      var next, a := ParseAttributeDeep(p);
      if next == -1 {
        SetError(XML_ERROR_PARSING_ATTRIBUTE, attrLineNum);
        return -1, list;
      }
      var b, duplicate := LookUp(list, a, lo, p, next);
      if duplicate {
        SetError(XML_ERROR_PARSING_ATTRIBUTE, attrLineNum);
        return -1, list;
      }
      return next, list + [b];
    }

    lemma {:induction false} LinkedWider(list: seq<ParsedAttribute>, lo: nat, hi: nat, hi': nat)
      requires Linked(list, lo, hi) && hi <= hi'
      ensures Linked(list, lo, hi')
    {
    }

    /** `XMLElement::ParseAttributes`; an attribute found twice, or spoilt, is an error. */
    method ParseAttributesDeep(p: nat, lineNum: nat) returns (r: int, list: seq<ParsedAttribute>, sealed: bool)
      requires Ready(p) && errorID.None?
      modifies `parseCurLineNum, `errorID, `errorLineNum, charBuffer
      ensures OnlyWithin(charBuffer[..], old(charBuffer[..]), p, |text| + 1)
      ensures match ParseAttributes(text, p, lineNum, [], options)
              case AttributesFailed(error, l) => r == -1 && errorID == Some(error) && errorLineNum == l
              case Attributes(spec, next, sp) =>
                && r == next && list == spec && sealed == sp && errorID.None?
                && Ready(next) && Linked(list, p, next) && OnlyWithin(charBuffer[..], old(charBuffer[..]), p, next)
    {
      hide LineAt, FindTag, NameEnd, SkipWs, Ready, Linked, OnlyWithin, Holds, ParseAttribute, HasAttribute, PairValue, Held;
      ghost var before := charBuffer[..];
      list, sealed := [], false;
      var q := p;
      NothingLinked(p);
      Peek(p);
      WithinSelf(before, p, p);
      while true
        invariant p <= q <= |text| && Ready(q) && Linked(list, p, q) && errorID.None?
        invariant OnlyWithin(charBuffer[..], before, p, q)
        invariant ParseAttributes(text, p, lineNum, [], options) == ParseAttributes(text, q, lineNum, list, options)
        decreases |text| - q
      {
        var j := SkipWhiteSpaceLines(q);
        Peek(j);
        LinkedWider(list, p, q, j);
        WithinWider(charBuffer[..], before, p, q, p, j);
        WithinWider(charBuffer[..], before, p, q, p, |text| + 1);
        if charBuffer[j] == NUL {
          SetError(XML_ERROR_PARSING_ELEMENT, lineNum);
          return -1, list, false;
        }
        ghost var now := charBuffer[..];
        if IsNameStartChar(charBuffer[j]) {
          var next, list' := NextAttribute(list, p, j);
          WithinWider(charBuffer[..], now, j, |text| + 1, p, |text| + 1);
          WithinTwice(charBuffer[..], now, before, p, j, |text| + 1);
          if next == -1 {
            return -1, list, false;
          }
          WithinWider(charBuffer[..], now, j, next, p, next);
          WithinTwice(charBuffer[..], now, before, p, j, next);
          list, q := list', next;
        } else {
          r, sealed := EndOfTag(j, lineNum);
          if r != -1 {
            LinkedWider(list, p, j, r);
            WithinWider(charBuffer[..], before, p, j, p, r);
          }
          return r, list, sealed;
        }
      }
    }

    /** The end of a tag, `>` or `/>`; anything else is an error. */
    method EndOfTag(p: nat, lineNum: nat) returns (r: int, sealed: bool)
      requires Ready(p) && errorID.None? && p < |text|
      modifies `errorID, `errorLineNum
      ensures if text[p] == '>' then r == p + 1 && !sealed && Ready(p + 1) && errorID.None?
              else if text[p] == '/' && At(text, p + 1) == '>' then
                r == p + 2 <= |text| && sealed && Ready(p + 2) && errorID.None?
              else r == -1 && errorID == Some(XML_ERROR_PARSING_ELEMENT) && errorLineNum == lineNum
    {
      hide Ready;
      Peek(p);
      if charBuffer[p] == '>' {
        StepOver(p);
        return p + 1, false;
      }
      if charBuffer[p] == '/' {
        StepOver(p);
        Peek(p + 1);
        if charBuffer[p + 1] == '>' {
          StepOver(p + 1);
          return p + 2, true;
        }
      }
      SetError(XML_ERROR_PARSING_ELEMENT, lineNum);
      return -1, false;
    }

    lemma {:induction false} NothingLinked(p: nat)
      ensures Linked([], p, p)
    {
    }

    // ----------------------------------------------------------- nodes

    /** `XMLDocument::Identify`: a text backs up to where its leading whitespace began. */
    method IdentifyNode(p: nat) returns (found: bool, kind: Kind, start: nat, lineNum: nat)
      requires Ready(p)
      modifies `parseCurLineNum
      ensures found <==> SkipWs(text, p) < |text|
      ensures found ==> (kind, start) == Identify(text, p) && Ready(start) && lineNum == LineAt(text, SkipWs(text, p))
    {
      hide Ready, SkipWs, LineAt, Matches;
      var startLine := parseCurLineNum;
      LineOf(p);
      ReadyParts(p);
      var q := SkipWhiteSpaceLines(p);
      Peek(q);
      LineOf(q);
      found, kind, start, lineNum := charBuffer[q] != NUL, KText, q, parseCurLineNum;
      if !found {
        return;
      }
      var len;
      kind, len := ReadHeader(q);
      IdentifyBehind(p, q);
      if kind == KText {
        start := p;
        parseCurLineNum := startLine;
        StillReady(p);
      } else {
        start := q + len;
      }
    }

    lemma {:induction false} ReadyParts(p: nat)
      requires Ready(p)
      ensures p <= |text| && NulFree(text) && Holds(charBuffer, 0, text, p)
    {
    }

    lemma {:induction false} IdentifyBehind(p: nat, q: nat)
      requires p <= |text| && SkipWs(text, p) == q < |text| && SkipWs(text, q) == q
      ensures Identify(text, p).0 == Identify(text, q).0
      ensures Identify(text, p).1 == if Identify(text, q).0.KText? then p else Identify(text, q).1
    {
    }

    /** Whether a header is at `p`; parsing then goes on behind it. */
    method TryHeader(p: nat, header: string) returns (b: bool)
      requires Ready(p) && NulFree(header) && OneLine(header)
      ensures b <==> Matches(text, p, header)
      ensures b ==> Ready(p + |header|)
    {
      b := StartsWith(charBuffer, p, header, 0, text);
      if b {
        HeaderRead(p, header);
      }
    }

    /** The header the text at `p` starts with, in the order the source tries them. */
    method ReadHeader(p: nat) returns (kind: Kind, len: nat)
      requires Ready(p) && p < |text| && !IsWhiteSpace(text[p])
      ensures SkipWs(text, p) == p
      ensures if kind.KText? then Identify(text, p).0.KText? else Identify(text, p) == (kind, p + len) && Ready(p + len)
    {
      hide Ready, Matches, SkipWs;
      SkipWsAt(text, p, p);
      var b := TryHeader(p, "<?");
      if b { return KDeclaration, 2; }
      b := TryHeader(p, "<!--");
      if b { return KComment, 4; }
      b := TryHeader(p, "<![CDATA[");
      if b { return KCData, 9; }
      b := TryHeader(p, "<!");
      if b { return KUnknown, 2; }
      b := TryHeader(p, "<");
      if b { return KElement, 1; }
      return KText, 0;
    }

    lemma {:induction false} HeaderRead(p: nat, header: string)
      requires Ready(p) && Matches(text, p, header) && OneLine(header)
      ensures p + |header| <= |text| && Ready(p + |header|)
    {
      TagOnOneLine(p, header);
    }

    /** What a node parser leaves, compared with the outcome the specification gives. */
    ghost predicate Outcome(spec: NodeResult, r: int, node: Parsed, closing: ClosingType, endTag: Option<StrPair>)
      reads `text, `charBuffer, `parseCurLineNum, `errorID, `errorLineNum, charBuffer
    {
      match spec
      case NodeFailed(error, l) =>
        r == -1 && if error.Some? then errorID == error && errorLineNum == l else errorID.None?
      case NodeParsed(n, c, t, next) =>
        && r == next && node == n && closing == c && endTag == t && errorID.None?
        && Ready(next) && AllHeld(charBuffer[..], text, Pairs(node))
        && (t.Some? ==> Held(charBuffer[..], text, t.value) && t.value.flush && t.value.flags == PLAIN)
    }

    /** The `ParseDeep` of comments, declarations, unknowns and CDATA sections. */
    method ParseMarkupDeep(p: nat, kind: Kind, lineNum: nat) returns (r: int, node: Parsed)
      requires Ready(p) && errorID.None? && !kind.KElement? && !kind.KText?
      modifies `parseCurLineNum, `errorID, `errorLineNum
      ensures Outcome(ParseMarkup(text, p, kind, lineNum), r, node, OPEN, None)
    {
      hide LineAt, FindTag;
      var value;
      ReadyParts(p);
      EndTagsOneLine(kind);
      r, value := ParseText(p, EndTagOf(kind), MARKUP_FLAGS);
      node := MarkupNode(kind, lineNum, value);
      if r == -1 {
        SetError(ErrorOf(kind), lineNum);
      } else {
        UntouchedHeld(value, p);
        assert Pairs(node) == [value];
      }
    }

    lemma {:induction false} EndTagsOneLine(kind: Kind)
      ensures EndTagOf(kind) != "" && NulFree(EndTagOf(kind)) && OneLine(EndTagOf(kind))
    {
    }

    /** `XMLText::ParseDeep` on plain text; a `<` that ends the document is a failure without an error. */
    method ParsePlainTextDeep(p: nat, lineNum: nat) returns (r: int, node: Parsed)
      requires Ready(p) && errorID.None? && SkipWs(text, p) < |text| && text[SkipWs(text, p)] != '<'
      modifies `parseCurLineNum, `errorID, `errorLineNum
      ensures Outcome(ParsePlainText(text, p, lineNum, options), r, node, OPEN, None)
    {
      hide LineAt, FindTag, SkipWs;
      var value;
      ReadyParts(p);
      r, value := ParseText(p, "<", options.TextFlags());
      node := PText(lineNum, value, false);
      if r == -1 {
        SetError(XML_ERROR_PARSING_TEXT, lineNum);
        return;
      }
      Peek(r);
      if charBuffer[r] == NUL {
        r := -1;
        return;
      }
      r := r - 1;
      TagOnOneLine(r, "<");
      UntouchedHeld(value, p);
      assert Pairs(node) == [value];
    }

    /** Whether every child linked in so far is a declaration. */
    method OnlyDeclarations(nodes: seq<Parsed>) returns (b: bool)
      ensures b <==> forall k | 0 <= k < |nodes| :: nodes[k].PDeclaration?
    {
      var k := 0;
      while k < |nodes|
        invariant k <= |nodes| && forall j | 0 <= j < k :: nodes[j].PDeclaration?
      {
        if !nodes[k].PDeclaration? {
          return false;
        }
        k := k + 1;
      }
      return true;
    }

    /** The end tag's name against the element's; both are flushed by being read. */
    method CompareNames(node: Parsed, endTag: StrPair, ghost lo: nat, ghost hi: nat) returns (same: bool, node': Parsed)
      requires Ready(hi) && node.PElement? && node.name.flush && node.name.flags == PLAIN
      requires AllHeld(charBuffer[..], text, Pairs(node)) && LaidOut(Pairs(node), lo, endTag.start)
      requires Held(charBuffer[..], text, endTag) && endTag.flush && endTag.flags == PLAIN && endTag.end < hi
      modifies charBuffer
      ensures node' == AfterComparison(node, Some(endTag))
      ensures same <==> PairValue(text, endTag) == PairValue(text, node.name)
      ensures AllHeld(charBuffer[..], text, Pairs(node')) && Ready(hi)
      ensures OnlyWithin(charBuffer[..], old(charBuffer[..]), lo, hi)
    {
      hide PairValue, CStringAt, Held, LaidOut, Ready;
      ReadyParts(hi);
      ghost var before := charBuffer[..];
      NameFirst(node, lo, endTag);
      var e := FlushName(endTag, hi);
      ghost var between := charBuffer[..];
      HeldApart(between, before, text, node.name, endTag.end, endTag.end + 1);
      PairsApart(between, before, Pairs(node), lo, endTag.start, endTag.end, endTag.end + 1);
      var name := FlushName(node.name, hi);
      node' := node.(name := name);
      HeldApart(charBuffer[..], between, text, e, name.end, name.end + 1);
      NameFlushed(node, between, charBuffer[..]);
      WithinWider(between, before, endTag.end, endTag.end + 1, lo, hi);
      WithinWider(charBuffer[..], between, name.end, name.end + 1, lo, hi);
      WithinTwice(charBuffer[..], between, before, lo, hi, hi);
      HeldName(e);
      HeldName(name);
      same := StringEqual(charBuffer, e.start, name.start, PairValue(text, e), PairValue(text, name));
      FlushKeepsValue(endTag);
      FlushKeepsValue(node.name);
    }

    lemma {:induction false} FlushKeepsValue(sp: StrPair)
      ensures PairValue(text, sp.(flush := false)) == PairValue(text, sp)
    {
    }

    lemma {:induction false} NameFirst(node: Parsed, lo: nat, endTag: StrPair)
      requires node.PElement? && LaidOut(Pairs(node), lo, endTag.start)
      requires AllHeld(charBuffer[..], text, Pairs(node)) && Held(charBuffer[..], text, endTag)
      ensures lo <= node.name.start <= node.name.end < endTag.start <= endTag.end
      ensures Held(charBuffer[..], text, node.name)
      ensures node.name.end < |text| && Ordered(Pairs(node))
    {
      assert Pairs(node)[0] == node.name;
    }

    lemma {:induction false} PairsApart(now: seq<char>, before: seq<char>, ps: seq<StrPair>, lo: nat, mid: nat, a: nat, b: nat)
      requires AllHeld(before, text, ps) && LaidOut(ps, lo, mid) && mid <= a && OnlyWithin(now, before, a, b)
      ensures AllHeld(now, text, ps)
    {
    }

    /** Terminating an element's name leaves its other pairs, which come later, alone. */
    lemma {:induction false} NameFlushed(node: Parsed, before: seq<char>, now: seq<char>)
      requires node.PElement? && AllHeld(before, text, Pairs(node)) && Ordered(Pairs(node))
      requires OnlyWithin(now, before, node.name.end, node.name.end + 1)
      requires Held(now, text, node.name.(flush := false))
      ensures AllHeld(now, text, Pairs(node.(name := node.name.(flush := false))))
    {
      hide AttributePairs, AllPairs;
      var m := node.(name := node.name.(flush := false));
      var rest := AttributePairs(node.attributes) + AllPairs(node.children);
      assert Pairs(node) == [node.name] + rest && Pairs(m) == [m.name] + rest;
      forall k | 0 <= k < |Pairs(m)| ensures Held(now, text, Pairs(m)[k]) {
        if k > 0 {
          assert Pairs(m)[k] == Pairs(node)[k];
          assert Pairs(node)[0] == node.name;
        }
      }
    }

    /** The start of `XMLElement::ParseDeep`: an optional slash and the element's name. */
    method ParseElementName(p: nat) returns (r: int, slash: bool, name: StrPair)
      requires Ready(p)
      modifies `parseCurLineNum
      ensures var j := SkipWs(text, p);
              var start := if At(text, j) == '/' then j + 1 else j;
              && slash == (At(text, j) == '/')
              && if start < |text| && IsNameStartChar(text[start]) then
                   r == NameEnd(text, start + 1) && name == StrPair(start, r, PLAIN, true) && Ready(NameEnd(text, start + 1))
                 else r == -1
    {
      hide Ready, SkipWs, NameEnd;
      var j := SkipWhiteSpaceLines(p);
      Peek(j);
      slash := charBuffer[j] == '/';
      if slash {
        StepOver(j);
        j := j + 1;
      }
      r, name := ParseName(j);
    }

    /** `XMLElement::ParseDeep` up to its children: the name and the attributes. */
    method ParseElementHead(p: nat, lineNum: nat)
      returns (q: int, name: StrPair, list: seq<ParsedAttribute>, closing: ClosingType)
      requires Ready(p) && errorID.None?
      modifies `parseCurLineNum, `errorID, `errorLineNum, charBuffer
      ensures OnlyWithin(charBuffer[..], old(charBuffer[..]), p, |text| + 1)
      ensures q == -1 ==>
                var spec := ParseElement(text, p, lineNum, options);
                spec.NodeFailed? && if spec.error.Some? then errorID == spec.error && errorLineNum == spec.line else errorID.None?
      ensures q != -1 ==>
                && p < q <= |text| && Ready(q) && errorID.None?
                && OnlyWithin(charBuffer[..], old(charBuffer[..]), p, q)
                && AllHeld(charBuffer[..], text, Pairs(PElement(lineNum, name, list, [])))
                && InRange(Pairs(PElement(lineNum, name, list, [])), 0, q)
                && ParseElement(text, p, lineNum, options) == AfterHead(q, name, list, closing, lineNum)
    {
      hide LineAt, SkipWs, NameEnd, ParseAttributes, ParseLoop, OnlyWithin, Linked, AllHeld, Held, Ready, Holds;
      ghost var before := charBuffer[..];
      ReadyParts(p);
      var e, slash;
      e, slash, name := ParseElementName(p);
      closing, list := if slash then CLOSING else OPEN, [];
      WithinSelf(before, p, |text| + 1);
      if e == -1 {
        return -1, name, list, closing;
      }
      UntouchedHeld(name, p);
      var sealed;
      q, list, sealed := ParseAttributesDeep(e, lineNum);
      WithinWider(charBuffer[..], before, e, |text| + 1, p, |text| + 1);
      if q == -1 {
        return;
      }
      if sealed {
        closing := CLOSED;
      }
      HeadHeld(lineNum, name, list, e, q, before);
      WithinWider(charBuffer[..], before, e, q, p, q);
    }

    /** What `XMLElement::ParseDeep` gives once the head ends at `q`. */
    ghost function AfterHead(q: nat, name: StrPair, list: seq<ParsedAttribute>, closing: ClosingType, line: nat): NodeResult
      requires q <= |text|
      reads `text
    {
      if q == |text| || closing != OPEN then NodeParsed(PElement(line, name, list, []), closing, None, q)
      else match ParseLoop(text, q, false, [], options)
        case LoopFailed(error, l) => NodeFailed(Some(error), l)
        case LoopEnded(_) => NodeFailed(None, line)
        case LoopClosed(children, endTag, after) =>
          NodeParsed(PElement(line, name, list, children), OPEN, Some(endTag), after)
    }

    /** `XMLElement::ParseDeep`, from behind the `<`. */
    method ParseElementDeep(p: nat, lineNum: nat)
      returns (r: int, node: Parsed, closing: ClosingType, endTag: Option<StrPair>)
      requires Ready(p) && errorID.None?
      modifies `parseCurLineNum, `errorID, `errorLineNum, charBuffer
      ensures OnlyWithin(charBuffer[..], old(charBuffer[..]), p, |text| + 1)
      ensures Outcome(ParseElement(text, p, lineNum, options), r, node, closing, endTag)
      ensures r != -1 ==> OnlyWithin(charBuffer[..], old(charBuffer[..]), p, r)
      decreases |text| - p, 0
    {
      hide ParseElement, ParseLoop, OnlyWithin, AllHeld, Held, Ready, Pairs, InRange;
      ghost var before := charBuffer[..];
      var q, name, list;
      q, name, list, closing := ParseElementHead(p, lineNum);
      ghost var between := charBuffer[..];
      node, endTag := PElement(lineNum, name, list, []), None;
      if q == -1 {
        return -1, node, closing, endTag;
      }
      Peek(q);
      if charBuffer[q] == NUL || closing != OPEN {
        return q, node, closing, endTag;
      }
      var children, end;
      r, children, end := ParseChildrenDeep(q, false);
      WithinWider(charBuffer[..], between, q, |text| + 1, p, |text| + 1);
      WithinTwice(charBuffer[..], between, before, p, q, |text| + 1);
      if r == -1 {
        return -1, node, closing, endTag;
      }
      WithinWider(charBuffer[..], between, q, r, p, r);
      WithinTwice(charBuffer[..], between, before, p, q, r);
      ElementHeld(lineNum, name, list, children, q, between, r);
      node, endTag := PElement(lineNum, name, list, children), Some(end);
    }

    /** The pairs of an element without children. */
    lemma {:induction false} HeadHeld(line: nat, name: StrPair, list: seq<ParsedAttribute>, e: nat, q: nat, before: seq<char>)
      requires Held(before, text, name) && name.flush && name.end == e < q
      requires Linked(list, e, q) && OnlyWithin(charBuffer[..], before, e, q)
      ensures AllHeld(charBuffer[..], text, Pairs(PElement(line, name, list, [])))
      ensures InRange(Pairs(PElement(line, name, list, [])), 0, q)
    {
      hide AttributePairs;
      var head := [name] + AttributePairs(list);
      assert Pairs(PElement(line, name, list, [])) == head;
    }

    /** The pairs of an element whose children were parsed behind its head. */
    lemma {:induction false} ElementHeld(line: nat, name: StrPair, list: seq<ParsedAttribute>, children: seq<Parsed>,
                                         q: nat, before: seq<char>, r: nat)
      requires AllHeld(before, text, Pairs(PElement(line, name, list, [])))
      requires InRange(Pairs(PElement(line, name, list, [])), 0, q)
      requires OnlyWithin(charBuffer[..], before, q, r) && AllHeld(charBuffer[..], text, AllPairs(children))
      ensures AllHeld(charBuffer[..], text, Pairs(PElement(line, name, list, children)))
    {
      hide AttributePairs, AllPairs, Held;
      NoPairs(0, 0);
      var head := [name] + AttributePairs(list);
      assert Pairs(PElement(line, name, list, [])) == head;
      HeldAfter(charBuffer[..], before, text, head, 0, q, r);
      HeldConcat(charBuffer[..], text, head, AllPairs(children));
    }

    /** The virtual `ParseDeep` of a node just identified. */
    method ParseNodeDeep(p: nat, kind: Kind, lineNum: nat)
      returns (r: int, node: Parsed, closing: ClosingType, endTag: Option<StrPair>)
      requires Ready(p) && errorID.None?
      requires kind.KText? ==> SkipWs(text, p) < |text| && text[SkipWs(text, p)] != '<'
      modifies `parseCurLineNum, `errorID, `errorLineNum, charBuffer
      ensures OnlyWithin(charBuffer[..], old(charBuffer[..]), p, |text| + 1)
      ensures Outcome(ParseNode(text, p, kind, lineNum, options), r, node, closing, endTag)
      ensures r != -1 ==> OnlyWithin(charBuffer[..], old(charBuffer[..]), p, r)
      decreases |text| - p, 1
    {
      hide ParseElement, ParseMarkup, ParsePlainText, Ready, Outcome, SkipWs;
      closing, endTag := OPEN, None;
      if kind == KElement {
        r, node, closing, endTag := ParseElementDeep(p, lineNum);
      } else if kind == KText {
        r, node := ParsePlainTextDeep(p, lineNum);
      } else {
        r, node := ParseMarkupDeep(p, kind, lineNum);
      }
    }

    /** What the loop leaves, compared with the outcome the specification gives. */
    ghost predicate LoopOutcome(spec: LoopResult, r: int, nodes: seq<Parsed>, endTag: StrPair)
      reads `text, `charBuffer, `parseCurLineNum, `errorID, `errorLineNum, charBuffer
    {
      match spec
      case LoopFailed(error, l) => r == -1 && errorID == Some(error) && errorLineNum == l
      case LoopEnded(ns) => r == -1 && errorID.None? && nodes == ns && AllHeld(charBuffer[..], text, AllPairs(ns))
      case LoopClosed(ns, e, next) =>
        && r == next && errorID.None? && nodes == ns && AllHeld(charBuffer[..], text, AllPairs(ns))
        && endTag == e && Held(charBuffer[..], text, e) && e.flush && e.flags == PLAIN && Ready(next)
    }

    /** `XMLNode::ParseDeep`: children up to the closing tag, which is handed to the parent. */
    method ParseChildrenDeep(p: nat, inDocument: bool) returns (r: int, nodes: seq<Parsed>, endTag: StrPair)
      requires Ready(p) && errorID.None?
      modifies `parseCurLineNum, `errorID, `errorLineNum, charBuffer
      ensures OnlyWithin(charBuffer[..], old(charBuffer[..]), p, |text| + 1)
      ensures LoopOutcome(ParseLoop(text, p, inDocument, [], options), r, nodes, endTag)
      ensures r != -1 ==> OnlyWithin(charBuffer[..], old(charBuffer[..]), p, r)
      decreases |text| - p, 3
    {
      hide ParseLoop, OnlyWithin, Ready, LoopOutcome, Children;
      ghost var before := charBuffer[..];
      nodes, endTag := [], StrPair(p, p, PLAIN, true);
      var q := p;
      Peek(p);
      WithinSelf(before, p, p);
      NoChildren(p);
      while true
        invariant p <= q <= |text| && Ready(q) && errorID.None? && Children(nodes, p, q)
        invariant OnlyWithin(charBuffer[..], before, p, q)
        invariant ParseLoop(text, p, inDocument, [], options) == ParseLoop(text, q, inDocument, nodes, options)
        decreases |text| - q
      {
        ghost var now := charBuffer[..];
        var more, next, nodes', end := ParseChild(q, p, nodes, inDocument);
        WithinWider(charBuffer[..], now, q, |text| + 1, p, |text| + 1);
        WithinTwice(charBuffer[..], now, before, p, q, |text| + 1);
        if next != -1 {
          WithinWider(charBuffer[..], now, q, next, p, next);
          WithinTwice(charBuffer[..], now, before, p, q, next);
        }
        if !more {
          return next, nodes', end;
        }
        nodes, q := nodes', next;
      }
    }

    /** The children linked in before `hi`. */
    ghost predicate Children(nodes: seq<Parsed>, lo: nat, hi: nat)
      reads `text, `charBuffer, charBuffer
    {
      LaidOut(AllPairs(nodes), lo, Bound(text, hi)) && AllHeld(charBuffer[..], text, AllPairs(nodes))
    }

    lemma {:induction false} NoChildren(p: nat)
      ensures Children([], p, p)
    {
    }

    /** One turn of the loop of `XMLNode::ParseDeep`; `more` says the loop goes on at `r`. */
    method ParseChild(p: nat, ghost lo: nat, nodes: seq<Parsed>, inDocument: bool)
      returns (more: bool, r: int, nodes': seq<Parsed>, endTag: StrPair)
      requires Ready(p) && errorID.None? && lo <= p && Children(nodes, lo, p)
      modifies `parseCurLineNum, `errorID, `errorLineNum, charBuffer
      ensures OnlyWithin(charBuffer[..], old(charBuffer[..]), p, |text| + 1)
      ensures r != -1 ==> p < r <= |text| && OnlyWithin(charBuffer[..], old(charBuffer[..]), p, r)
      ensures p <= |text|
      ensures if more then
                && r != -1 && Ready(r) && errorID.None? && Children(nodes', lo, r)
                && ParseLoop(text, p, inDocument, nodes, options) == ParseLoop(text, r, inDocument, nodes', options)
              else
                LoopOutcome(ParseLoop(text, p, inDocument, nodes, options), r, nodes', endTag)
      decreases |text| - p, 2
    {
      hide OnlyWithin, Ready, LoopOutcome, Children, Outcome, SkipWs, Identify, ParseNode, ParseLoop, LineAt, Bound;
      ghost var before := charBuffer[..];
      more, r, nodes', endTag := false, -1, nodes, StrPair(p, p, PLAIN, true);
      ReadyParts(p);
      WithinSelf(before, p, |text| + 1);
      var found, kind, start, lineNum := IdentifyNode(p);
      if !found {
        NothingFound(p, nodes, inDocument, endTag, lo);
        return;
      }
      IdentifyFits(p);
      StartsBehind(text, p);
      ChildrenBehind(nodes, lo, p, start);
      var next, node, closing, end := ParseNodeDeep(start, kind, lineNum);
      ghost var between := charBuffer[..];
      ghost var spec := ParseNode(text, start, kind, lineNum, options);
      LoopUnfolds(text, p, inDocument, nodes, options);
      WithinWider(between, before, start, |text| + 1, p, |text| + 1);
      if next == -1 {
        ReportFailure(spec, lineNum, node, closing, end);
        FailedChild(spec, lineNum, inDocument, nodes, endTag);
        return;
      }
      OutcomeBounds(spec, next, node, closing, end);
      WithinWider(between, before, start, next, p, next);
      HeldAfter(between, before, text, AllPairs(nodes), lo, start, next);
      BoundAhead(p);
      ChildLinkable(p, lo, nodes, next, node, closing, end, lineNum);
      more, r, nodes', endTag := LinkChild(p, lo, nodes, inDocument, next, node, closing, end, lineNum, spec);
      WithinWider(charBuffer[..], between, Bound(text, p), next, p, next);
      WithinTwice(charBuffer[..], between, before, p, next, next);
      WithinWider(charBuffer[..], before, p, next, p, |text| + 1);
    }

    /** The preconditions of a node parser, as `Identify` establishes them. */
    lemma {:induction false} IdentifyFits(p: nat)
      requires p <= |text| && SkipWs(text, p) < |text|
      ensures var (kind, start) := Identify(text, p);
              && p <= start <= |text|
              && (kind.KText? ==> SkipWs(text, start) < |text| && text[SkipWs(text, start)] != '<')
    {
    }

    /** At the end of the document the loop ends. */
    lemma {:induction false} NothingFound(p: nat, nodes: seq<Parsed>, inDocument: bool, endTag: StrPair, lo: nat)
      requires p <= |text| && SkipWs(text, p) == |text| && errorID.None? && Children(nodes, lo, p)
      ensures LoopOutcome(ParseLoop(text, p, inDocument, nodes, options), -1, nodes, endTag)
    {
    }

    /** The pairs of the children end before the next node starts. */
    lemma {:induction false} ChildrenBehind(nodes: seq<Parsed>, lo: nat, p: nat, start: nat)
      requires Children(nodes, lo, p) && Bound(text, p) <= start
      ensures InRange(AllPairs(nodes), lo, start) && AllHeld(charBuffer[..], text, AllPairs(nodes))
      ensures LaidOut(AllPairs(nodes), lo, Bound(text, p))
    {
    }

    lemma {:induction false} OutcomeBounds(spec: NodeResult, r: int, node: Parsed, closing: ClosingType, endTag: Option<StrPair>)
      requires Outcome(spec, r, node, closing, endTag) && r != -1
      ensures spec == NodeParsed(node, closing, endTag, r) && 0 <= r <= |text| && errorID.None?
    {
    }

    /** A failed node parser that set no error makes it a general parsing error. */
    method ReportFailure(ghost spec: NodeResult, lineNum: nat, node: Parsed, closing: ClosingType, endTag: Option<StrPair>)
      requires Outcome(spec, -1, node, closing, endTag)
      modifies `errorID, `errorLineNum
      ensures spec.NodeFailed?
      ensures errorID == Some(if spec.error.Some? then spec.error.value else XML_ERROR_PARSING)
      ensures errorLineNum == if spec.error.Some? then spec.line else lineNum
    {
      if errorID.None? {
        SetError(XML_ERROR_PARSING, lineNum);
      }
    }

    lemma {:induction false} FailedChild(spec: NodeResult, lineNum: nat, inDocument: bool, nodes: seq<Parsed>, endTag: StrPair)
      requires spec.NodeFailed?
      requires errorID == Some(if spec.error.Some? then spec.error.value else XML_ERROR_PARSING)
      requires errorLineNum == if spec.error.Some? then spec.line else lineNum
      ensures LoopOutcome(AfterNode(text, spec, lineNum, inDocument, nodes, options), -1, nodes, endTag)
    {
    }

    lemma {:induction false} BoundAhead(p: nat)
      ensures p <= Bound(text, p)
    {
    }

    /** An element's name has not been read yet when its parser returns. */
    lemma {:induction false} NodeNames(p: nat, kind: Kind, lineNum: nat)
      requires p <= |text| && (kind.KText? ==> SkipWs(text, p) < |text| && text[SkipWs(text, p)] != '<')
      ensures var r := ParseNode(text, p, kind, lineNum, options);
              r.NodeParsed? ==> p < r.next && (r.node.PElement? ==> r.node.name.flush && r.node.name.flags == PLAIN)
    {
      hide SkipWs, NameEnd, ParseAttributes, ParseLoop, LineAt, FindTag;
    }

    /** What `LinkChild` is given: a node parsed behind the children linked in so far. */
    ghost predicate Linkable(p: nat, lo: nat, nodes: seq<Parsed>, next: nat, node: Parsed, closing: ClosingType,
                             end: Option<StrPair>, spec: NodeResult)
      reads `text, `charBuffer, `parseCurLineNum, `errorID, `errorLineNum, charBuffer
    {
      && lo <= p && p < next <= |text|
      && spec == NodeParsed(node, closing, end, next) && Outcome(spec, next, node, closing, end)
      && LaidOut(AllPairs(nodes), lo, Bound(text, p)) && AllHeld(charBuffer[..], text, AllPairs(nodes))
      && LaidOut(Pairs(node), Bound(text, p), Bound(text, next)) && Bound(text, p) <= Bound(text, next)
      && (node.PElement? ==>
            && Bound(text, p) <= node.name.start <= node.name.end <= |text|
            && node.name.flush && node.name.flags == PLAIN
            && (end.Some? ==>
                  && Bound(text, p) <= end.value.start <= end.value.end < next
                  && LaidOut(Pairs(node), Bound(text, p), end.value.start)))
      && (!node.PElement? ==> end.None?)
    }

    lemma {:induction false} ChildLinkable(p: nat, lo: nat, nodes: seq<Parsed>, next: nat, node: Parsed,
                                           closing: ClosingType, end: Option<StrPair>, lineNum: nat)
      requires lo <= p <= |text| && SkipWs(text, p) < |text|
      requires LaidOut(AllPairs(nodes), lo, Bound(text, p)) && AllHeld(charBuffer[..], text, AllPairs(nodes))
      requires var (kind, start) := Identify(text, p);
               var spec := ParseNode(text, start, kind, lineNum, options);
               Outcome(spec, next, node, closing, end) && spec == NodeParsed(node, closing, end, next)
      ensures var (kind, start) := Identify(text, p);
              Linkable(p, lo, nodes, next, node, closing, end, ParseNode(text, start, kind, lineNum, options))
    {
      hide Identify, ParseNode, LaidOut, Pairs, AllPairs, AllHeld, Outcome, SkipWs;
      var (kind, start) := Identify(text, p);
      IdentifyFits(p);
      StartsBehind(text, p);
      NodeLaidOut(text, p, lineNum, options);
      NodeNames(start, kind, lineNum);
      LeafHasNoEnd(start, kind, lineNum);
      ParsedBehind(start, kind, lineNum);
    }

    lemma {:induction false} LeafHasNoEnd(p: nat, kind: Kind, lineNum: nat)
      requires p <= |text| && (kind.KText? ==> SkipWs(text, p) < |text| && text[SkipWs(text, p)] != '<')
      ensures var r := ParseNode(text, p, kind, lineNum, options);
              r.NodeParsed? && !r.node.PElement? ==> r.endTag.None?
    {
      hide SkipWs, FindTag, ParseElement;
    }

    lemma {:induction false} ParsedBehind(p: nat, kind: Kind, lineNum: nat)
      requires p <= |text| && (kind.KText? ==> SkipWs(text, p) < |text| && text[SkipWs(text, p)] != '<')
      ensures var r := ParseNode(text, p, kind, lineNum, options);
              r.NodeParsed? ==>
                && p < r.next <= |text|
                && (r.node.PElement? ==> r.node.name.start <= r.node.name.end <= |text|)
    {
      hide SkipWs, FindTag, ParseElement;
    }

    /** The part of the loop of `XMLNode::ParseDeep` that follows a successful node parser. */
    method LinkChild(p: nat, ghost lo: nat, nodes: seq<Parsed>, inDocument: bool, next: nat,
                     node: Parsed, closing: ClosingType, end: Option<StrPair>, lineNum: nat, ghost spec: NodeResult)
      returns (more: bool, r: int, nodes': seq<Parsed>, endTag: StrPair)
      requires Linkable(p, lo, nodes, next, node, closing, end, spec)
      modifies `errorID, `errorLineNum, charBuffer
      ensures r == -1 || r == next
      ensures OnlyWithin(charBuffer[..], old(charBuffer[..]), Bound(text, p), next)
      ensures if more then
                && r == next && Ready(next) && errorID.None? && Children(nodes', lo, next)
                && AfterNode(text, spec, lineNum, inDocument, nodes, options)
                   == ParseLoop(text, next, inDocument, nodes', options)
              else
                LoopOutcome(AfterNode(text, spec, lineNum, inDocument, nodes, options), r, nodes', endTag)
    {
      hide LaidOut, Pairs, AllPairs, Held, AllHeld, Ready, PairValue, ParseLoop;
      more, r, nodes', endTag := false, -1, nodes, StrPair(p, p, PLAIN, true);
      WithinSelf(charBuffer[..], Bound(text, p), next);
      if node.PDeclaration? {
        var located := inDocument;
        if located {
          located := OnlyDeclarations(nodes);
        }
        if !located {
          SetError(XML_ERROR_PARSING_DECLARATION, lineNum);
          return;
        }
      }
      if node.PElement? && closing == CLOSING {
        ClosingNameHeld(node);
        return false, next, nodes, node.name;
      }
      var node' := node;
      if node.PElement? {
        var mismatch;
        node', mismatch := CheckEndTag(p, lo, nodes, next, node, closing, end, spec);
        if mismatch {
          SetError(XML_ERROR_MISMATCHED_ELEMENT, lineNum);
          return;
        }
      }
      ChildAdded(p, lo, nodes, next, node, node', end);
      return true, next, nodes + [node'], endTag;
    }

    lemma {:induction false} ClosingNameHeld(node: Parsed)
      requires node.PElement? && AllHeld(charBuffer[..], text, Pairs(node))
      ensures Held(charBuffer[..], text, node.name)
    {
      assert Pairs(node)[0] == node.name;
    }

    /** Whether the end tag read by the child fails to close it. */
    method CheckEndTag(p: nat, ghost lo: nat, nodes: seq<Parsed>, next: nat, node: Parsed, closing: ClosingType,
                       end: Option<StrPair>, ghost spec: NodeResult)
      returns (node': Parsed, mismatch: bool)
      requires Linkable(p, lo, nodes, next, node, closing, end, spec) && node.PElement?
      modifies charBuffer
      ensures node' == AfterComparison(node, end)
      ensures mismatch <==> Mismatch(text, node.name, closing, end)
      ensures Ready(next) && AllHeld(charBuffer[..], text, Pairs(node')) && AllHeld(charBuffer[..], text, AllPairs(nodes))
      ensures OnlyWithin(charBuffer[..], old(charBuffer[..]), Bound(text, p), next)
    {
      hide LaidOut, Pairs, AllPairs, Held, AllHeld, Ready, PairValue, Bound;
      node', mismatch := node, closing == OPEN;
      WithinSelf(charBuffer[..], Bound(text, p), next);
      if end.Some? {
        ghost var before := charBuffer[..];
        var same;
        same, node' := CompareNames(node, end.value, Bound(text, p), next);
        mismatch := closing != OPEN || !same;
        RangeOf(AllPairs(nodes), lo, Bound(text, p));
        HeldAfter(charBuffer[..], before, text, AllPairs(nodes), lo, Bound(text, p), next);
      }
    }

    lemma {:induction false} RangeOf(ps: seq<StrPair>, lo: nat, hi: nat)
      requires LaidOut(ps, lo, hi)
      ensures InRange(ps, lo, hi)
    {
    }

    lemma {:induction false} ChildAdded(p: nat, lo: nat, nodes: seq<Parsed>, next: nat, node: Parsed, node': Parsed, end: Option<StrPair>)
      requires lo <= p && LaidOut(AllPairs(nodes), lo, Bound(text, p)) && AllHeld(charBuffer[..], text, AllPairs(nodes))
      requires LaidOut(Pairs(node), Bound(text, p), Bound(text, next)) && Bound(text, p) <= Bound(text, next)
      requires node' == AfterComparison(node, end) && AllHeld(charBuffer[..], text, Pairs(node'))
      ensures Children(nodes + [node'], lo, next)
    {
      hide LaidOut, Pairs, AllHeld;
      ComparisonKeepsLayout(node, end, Bound(text, p), Bound(text, next));
      ChildLinked(nodes, node', lo, Bound(text, p), Bound(text, next));
      AllPairsAppend(nodes, [node']);
      assert AllPairs([node']) == Pairs(node') by { assert [node'][1..] == []; }
      HeldConcat(charBuffer[..], text, AllPairs(nodes), Pairs(node'));
    }

    // ----------------------------------------------------------- documents

    /** `XMLUtil::ReadBOM`. */
    method ReadBOM(p: nat) returns (r: nat, bom: bool)
      requires Ready(p)
      ensures bom <==> Matches(text, p, BOM)
      ensures r == (if bom then p + 3 else p) && Ready(r)
    {
      BomOneLine();
      bom := StartsWith(charBuffer, p, BOM, 0, text);
      r := p;
      if bom {
        HeaderRead(p, BOM);
        r := p + 3;
      }
    }

    lemma {:induction false} BomOneLine()
      ensures NulFree(BOM) && OneLine(BOM) && |BOM| == 3
    {
    }

    /** All strings of the parsed tree are in the buffer, in order and undamaged. */
    ghost predicate Intact()
      reads `text, `charBuffer, `children, charBuffer
    {
      && NulFree(text)
      && LaidOut(AllPairs(children), 0, |text| + 1)
      && AllHeld(charBuffer[..], text, AllPairs(children))
    }

    /** What parsing leaves, compared with the specification of a whole document. */
    ghost predicate Finished(spec: ParseResult)
      reads `text, `charBuffer, `children, `errorID, `errorLineNum, `writeBOM, charBuffer
    {
      match spec
      case ParseFailed(error, line) => errorID == Some(error) && errorLineNum == line
      case ParsedDocument(bom, nodes) => errorID.None? && writeBOM == bom && children == nodes && Intact()
    }

    /** `XMLDocument::Parse` on the buffer. */
    method ParseBuffer()
      requires NulFree(text) && Holds(charBuffer, 0, text, 0) && errorID.None? && children == []
      modifies `parseCurLineNum, `errorID, `errorLineNum, `writeBOM, `children, charBuffer
      ensures Finished(ParseDocument(text, options))
    {
      hide SkipWs, ParseLoop, Ready, AllHeld, LaidOut, AllPairs, Bound, Held;
      parseCurLineNum := 1;
      StillReady(0);
      var q := SkipWhiteSpaceLines(0);
      q, writeBOM := ReadBOM(q);
      Peek(q);
      if charBuffer[q] == NUL {
        SetError(XML_ERROR_EMPTY_DOCUMENT, 0);
        return;
      }
      ghost var spec := ParseLoop(text, q, true, [], options);
      NoPairs(q, Bound(text, q));
      LoopLaidOut(text, q, true, [], options, q);
      var r, nodes, endTag := ParseChildrenDeep(q, true);
      if errorID.None? {
        children := nodes;
        TopLaidOut(spec, q);
      }
    }

    lemma {:induction false} TopLaidOut(spec: LoopResult, lo: nat)
      requires match spec
               case LoopFailed(_, _) => false
               case LoopEnded(nodes) => LaidOut(AllPairs(nodes), lo, |text| + 1)
               case LoopClosed(nodes, e, next) => LaidOut(AllPairs(nodes), lo, e.start) && e.start <= |text|
      ensures LaidOut(AllPairs(spec.nodes), 0, |text| + 1)
    {
    }

    /** A NUL-terminated copy. */
    method CopyOf(p: seq<char>) returns (copy: array<char>)
      ensures fresh(copy) && copy.Length == |p| + 1 && copy[..|p|] == p && copy[|p|] == NUL
    {
      copy := new char[|p| + 1](_ => NUL);
      var k := 0;
      while k < |p|
        invariant k <= |p|
        invariant forall j | 0 <= j < k :: copy[j] == p[j]
        invariant copy[|p|] == NUL
      {
        copy[k] := p[k];
        k := k + 1;
      }
    }

    /**
     `XMLDocument::Parse( p, len )`: a copy of the bytes is parsed.  After an error no
     children are left.
     */
    method Parse(p: seq<char>)
      modifies this
      ensures text == CStr(p)
      ensures fresh(charBuffer)
      ensures Finished(ParseDocument(text, options))
      ensures errorID.Some? ==> children == []
    {
      children := [];
      errorID, errorLineNum := None, 0;
      charBuffer := new char[0];
      text := CStr(p);
      if |p| == 0 || p[0] == NUL {
        SetError(XML_ERROR_EMPTY_DOCUMENT, 0);
        return;
      }
      charBuffer := CopyOf(p);
      assert Holds(charBuffer, 0, text, 0);
      ParseBuffer();
      if errorID.Some? {
        children := [];
      }
    }
  }
}
