/**
 Printing a parsed document: the visitor reads every string through `GetStr`, which
 decodes it in place the first time, while the tree and its buffer go on representing the
 same document.
 */
module XmlAccept {
  import opened Wrappers
  import opened XmlText
  import opened XmlDecode
  import opened XmlTree
  import opened XmlParserSpec
  import opened XmlPrinterSpec
  import opened XmlLayout
  import opened XmlBuffer
  import opened XmlParser
  import opened XmlPrinter
  import XmlTheorems

  // ------------------------------------------------------------- what a buffer and a tree represent

  /** Reading the pair gives `v`, whether or not it has been read before. */
  ghost predicate Reads(b: seq<char>, sp: StrPair, v: string) {
    && sp.start <= sp.end < |b| && NulFree(v)
    && if sp.flush then Value(b[sp.start..sp.end], sp.flags) == v
       else sp.start + |v| <= sp.end && b[sp.start..sp.start + |v|] == v && b[sp.start + |v|] == NUL
  }

  ghost predicate ReadsAttribute(b: seq<char>, p: ParsedAttribute, a: Attribute) {
    Reads(b, p.name, a.name) && Reads(b, p.value, a.value)
  }

  ghost predicate Represents(b: seq<char>, p: Parsed, n: Node)
    decreases p
  {
    match p
    case PElement(_, name, atts, children) =>
      && n.Element? && Reads(b, name, n.name)
      && |atts| == |n.attributes| && |children| == |n.children|
      && (forall k | 0 <= k < |atts| :: ReadsAttribute(b, atts[k], n.attributes[k]))
      && forall k | 0 <= k < |children| :: Represents(b, children[k], n.children[k])
    case PText(_, v, cdata) => n.Text? && n.cdata == cdata && Reads(b, v, n.value)
    case PComment(_, v) => n.Comment? && Reads(b, v, n.value)
    case PDeclaration(_, v) => n.Declaration? && Reads(b, v, n.value)
    case PUnknown(_, v) => n.Unknown? && Reads(b, v, n.value)
  }

  ghost predicate RepresentsAll(b: seq<char>, ps: seq<Parsed>, ns: seq<Node>) {
    |ps| == |ns| && forall k | 0 <= k < |ps| :: Represents(b, ps[k], ns[k])
  }

  // ------------------------------------------------------------- writes elsewhere

  /** No pair meets the bytes `lo..hi`, terminators included. */
  ghost predicate Apart(ps: seq<StrPair>, lo: int, hi: int) {
    forall k | 0 <= k < |ps| :: ps[k].end < lo || hi <= ps[k].start
  }

  lemma {:induction false} ReadsApart(now: seq<char>, before: seq<char>, sp: StrPair, v: string, lo: int, hi: int)
    requires Reads(before, sp, v) && OnlyWithin(now, before, lo, hi) && (sp.end < lo || hi <= sp.start)
    ensures Reads(now, sp, v)
  {
    assert now[sp.start..sp.end] == before[sp.start..sp.end];
    if !sp.flush {
      assert now[sp.start..sp.start + |v|] == before[sp.start..sp.start + |v|];
    }
  }

  lemma {:induction false} ApartParts(a: seq<StrPair>, b: seq<StrPair>, lo: int, hi: int)
    ensures Apart(a + b, lo, hi) <==> Apart(a, lo, hi) && Apart(b, lo, hi)
  {
    if Apart(a + b, lo, hi) {
      assert forall k | 0 <= k < |a| :: (a + b)[k] == a[k];
      assert forall k | 0 <= k < |b| :: (a + b)[k + |a|] == b[k];
    }
  }

  lemma {:induction false} AttributesApart(now: seq<char>, before: seq<char>, ps: seq<ParsedAttribute>, atts: seq<Attribute>, lo: int, hi: int)
    requires |ps| == |atts| && forall k | 0 <= k < |ps| :: ReadsAttribute(before, ps[k], atts[k])
    requires OnlyWithin(now, before, lo, hi) && Apart(AttributePairs(ps), lo, hi)
    ensures forall k | 0 <= k < |ps| :: ReadsAttribute(now, ps[k], atts[k])
    decreases |ps|
  {
    hide Reads;
    if ps != [] {
      ApartParts([ps[0].name, ps[0].value], AttributePairs(ps[1..]), lo, hi);
      assert [ps[0].name, ps[0].value][0] == ps[0].name && [ps[0].name, ps[0].value][1] == ps[0].value;
      ReadsApart(now, before, ps[0].name, atts[0].name, lo, hi);
      ReadsApart(now, before, ps[0].value, atts[0].value, lo, hi);
      AttributesApart(now, before, ps[1..], atts[1..], lo, hi);
      forall k | 0 <= k < |ps| ensures ReadsAttribute(now, ps[k], atts[k]) {
        if k > 0 { assert ps[k] == ps[1..][k - 1] && atts[k] == atts[1..][k - 1]; }
      }
    }
  }

  lemma {:induction false} RepresentsApart(now: seq<char>, before: seq<char>, p: Parsed, n: Node, lo: int, hi: int)
    requires Represents(before, p, n) && OnlyWithin(now, before, lo, hi) && Apart(Pairs(p), lo, hi)
    ensures Represents(now, p, n)
    decreases p, 1
  {
    hide Reads, ReadsAttribute, OnlyWithin, AttributePairs, AllPairs;
    match p
    case PElement(_, name, atts, children) =>
      ApartParts([name] + AttributePairs(atts), AllPairs(children), lo, hi);
      ApartParts([name], AttributePairs(atts), lo, hi);
      assert [name][0] == name;
      ReadsApart(now, before, name, n.name, lo, hi);
      AttributesApart(now, before, atts, n.attributes, lo, hi);
      AllApart(now, before, children, n.children, lo, hi);
    case _ =>
      assert Pairs(p)[0] == p.value;
      ReadsApart(now, before, p.value, n.value, lo, hi);
  }

  lemma {:induction false} AllApart(now: seq<char>, before: seq<char>, ps: seq<Parsed>, ns: seq<Node>, lo: int, hi: int)
    requires RepresentsAll(before, ps, ns) && OnlyWithin(now, before, lo, hi) && Apart(AllPairs(ps), lo, hi)
    ensures RepresentsAll(now, ps, ns)
    decreases ps, 0
  {
    hide Represents, OnlyWithin, Pairs;
    if ps != [] {
      ApartParts(Pairs(ps[0]), AllPairs(ps[1..]), lo, hi);
      RepresentsApart(now, before, ps[0], ns[0], lo, hi);
      AllApart(now, before, ps[1..], ns[1..], lo, hi);
      forall k | 0 <= k < |ps| ensures Represents(now, ps[k], ns[k]) {
        if k > 0 { assert ps[k] == ps[1..][k - 1] && ns[k] == ns[1..][k - 1]; }
      }
    }
  }

  // ------------------------------------------------------------- a parsed document represents its decoding

  lemma {:induction false} HeldReads(b: seq<char>, s: string, sp: StrPair)
    requires NulFree(s) && Held(b, s, sp)
    ensures Reads(b, sp, PairValue(s, sp))
  {
    assert b[sp.start..sp.end] == s[sp.start..sp.end];
    if !sp.flush {
      CStrOfNulFree(s[sp.start..sp.end]);
    }
  }

  lemma {:induction false} HeldParts(b: seq<char>, s: string, p: seq<StrPair>, q: seq<StrPair>)
    requires AllHeld(b, s, p + q)
    ensures AllHeld(b, s, p) && AllHeld(b, s, q)
  {
    assert forall k | 0 <= k < |p| :: (p + q)[k] == p[k];
    assert forall k | 0 <= k < |q| :: (p + q)[k + |p|] == q[k];
  }

  lemma {:induction false} AttributesDecoded(b: seq<char>, s: string, ps: seq<ParsedAttribute>)
    requires NulFree(s) && AllHeld(b, s, AttributePairs(ps))
    ensures forall k | 0 <= k < |ps| :: ReadsAttribute(b, ps[k], DecodeAttributes(s, ps)[k])
    decreases |ps|
  {
    hide Reads, Held, PairValue;
    if ps != [] {
      HeldParts(b, s, [ps[0].name, ps[0].value], AttributePairs(ps[1..]));
      assert [ps[0].name, ps[0].value][0] == ps[0].name && [ps[0].name, ps[0].value][1] == ps[0].value;
      HeldReads(b, s, ps[0].name);
      HeldReads(b, s, ps[0].value);
      AttributesDecoded(b, s, ps[1..]);
      forall k | 0 <= k < |ps| ensures ReadsAttribute(b, ps[k], DecodeAttributes(s, ps)[k]) {
        if k > 0 { assert ps[k] == ps[1..][k - 1] && DecodeAttributes(s, ps)[k] == DecodeAttributes(s, ps[1..])[k - 1]; }
      }
    }
  }

  lemma {:induction false} NodeDecoded(b: seq<char>, s: string, p: Parsed)
    requires NulFree(s) && AllHeld(b, s, Pairs(p))
    ensures Represents(b, p, DecodeNode(s, p))
    decreases p, 1
  {
    hide Reads, ReadsAttribute, Held, PairValue, AttributePairs, AllPairs;
    match p
    case PElement(_, name, atts, children) =>
      HeldParts(b, s, [name] + AttributePairs(atts), AllPairs(children));
      HeldParts(b, s, [name], AttributePairs(atts));
      assert [name][0] == name;
      HeldReads(b, s, name);
      AttributesDecoded(b, s, atts);
      NodesDecoded(b, s, children);
    case _ =>
      assert Pairs(p)[0] == p.value;
      HeldReads(b, s, p.value);
  }

  /** Right after parsing, the tree in the buffer represents the decoded tree. */
  lemma {:induction false} NodesDecoded(b: seq<char>, s: string, ps: seq<Parsed>)
    requires NulFree(s) && AllHeld(b, s, AllPairs(ps))
    ensures RepresentsAll(b, ps, DecodeNodes(s, ps))
    decreases ps, 0
  {
    hide Represents, DecodeNode, Pairs;
    if ps != [] {
      HeldParts(b, s, Pairs(ps[0]), AllPairs(ps[1..]));
      NodeDecoded(b, s, ps[0]);
      NodesDecoded(b, s, ps[1..]);
      forall k | 0 <= k < |ps| ensures Represents(b, ps[k], DecodeNodes(s, ps)[k]) {
        if k > 0 { assert ps[k] == ps[1..][k - 1] && DecodeNodes(s, ps)[k] == DecodeNodes(s, ps[1..])[k - 1]; }
      }
    }
  }

  // ------------------------------------------------------------- reading a string

  /** Reading may move the start of a string up, past trimmed whitespace, and nothing else. */
  ghost predicate Tightens(ps': seq<StrPair>, ps: seq<StrPair>) {
    |ps'| == |ps| && forall k | 0 <= k < |ps| :: ps[k].start <= ps'[k].start <= ps'[k].end == ps[k].end
  }

  lemma {:induction false} TightLayout(ps': seq<StrPair>, ps: seq<StrPair>, lo: nat, hi: nat)
    requires Tightens(ps', ps) && LaidOut(ps, lo, hi)
    ensures LaidOut(ps', lo, hi)
  {
  }

  /** `Value()` or `Name()`: the pair's C string, decoded in place on first use. */
  method ReadValue(buf: array<char>, sp: StrPair, ghost v: string) returns (sp': StrPair, s: string)
    requires Reads(buf[..], sp, v)
    modifies buf
    ensures s == v && Reads(buf[..], sp', v) && sp.start <= sp'.start <= sp'.end == sp.end
    ensures OnlyWithin(buf[..], old(buf[..]), sp.start, sp.end + 1)
  {
    hide Value;
    assert buf[..][sp.start..sp.end] == buf[sp.start..sp.end];
    sp' := GetStr(buf, sp);
    if sp.flush {
      StringAfterRead(buf, sp', v);
    }
    s := StringAt(buf, sp', v);
  }

  /** The characters of a string that has been read, up to its terminator. */
  method StringAt(buf: array<char>, sp: StrPair, ghost v: string) returns (s: string)
    requires Reads(buf[..], sp, v) && !sp.flush
    ensures s == v
  {
    s := "";
    var i := sp.start;
    ByteOfValue(buf[..], sp, v, 0);
    while buf[i] != NUL
      invariant i == sp.start + |s| < buf.Length && |s| <= |v| && s == v[..|s|]
      decreases |v| - |s|
    {
      ByteOfValue(buf[..], sp, v, |s|);
      s := s + [buf[i]];
      i := i + 1;
      ByteOfValue(buf[..], sp, v, |s|);
    }
    ByteOfValue(buf[..], sp, v, |s|);
    assert v[..|v|] == v;
  }

  lemma {:induction false} StringAfterRead(buf: array<char>, sp: StrPair, v: string)
    requires CStringAt(buf, sp.start, v) && sp.start + |v| <= sp.end < buf.Length && !sp.flush
    ensures Reads(buf[..], sp, v)
  {
    assert buf[..][sp.start..sp.start + |v|] == v;
  }

  lemma {:induction false} ByteOfValue(b: seq<char>, sp: StrPair, v: string, k: nat)
    requires Reads(b, sp, v) && !sp.flush && k <= |v|
    ensures sp.start + k < |b| && b[sp.start + k] == At(v, k)
    ensures b[sp.start + k] == NUL <==> k == |v|
  {
    if k < |v| {
      assert b[sp.start + k] == b[sp.start..sp.start + |v|][k];
    }
  }

  // ------------------------------------------------------------- printing attributes

  lemma {:induction false} PairAt(ps: seq<ParsedAttribute>, k: nat)
    requires k < |ps|
    ensures 2 * k + 1 < |AttributePairs(ps)|
    ensures AttributePairs(ps)[2 * k] == ps[k].name && AttributePairs(ps)[2 * k + 1] == ps[k].value
  {
    if k > 0 {
      PairAt(ps[1..], k - 1);
    }
  }

  lemma {:induction false} PairsPerAttribute(ps: seq<ParsedAttribute>)
    ensures |AttributePairs(ps)| == 2 * |ps|
  {
    if ps != [] {
      PairsPerAttribute(ps[1..]);
    }
  }

  lemma {:induction false} AttributesTighten(ps': seq<ParsedAttribute>, ps: seq<ParsedAttribute>)
    requires |ps'| == |ps|
    requires forall k | 0 <= k < |ps| ::
               Tighter(ps'[k].name, ps[k].name) && Tighter(ps'[k].value, ps[k].value)
    ensures Tightens(AttributePairs(ps'), AttributePairs(ps))
  {
    PairsPerAttribute(ps);
    PairsPerAttribute(ps');
    var a', a := AttributePairs(ps'), AttributePairs(ps);
    forall m | 0 <= m < |a| ensures a[m].start <= a'[m].start <= a'[m].end == a[m].end {
      PairAt(ps, m / 2);
      PairAt(ps', m / 2);
      assert m == 2 * (m / 2) || m == 2 * (m / 2) + 1;
    }
  }

  predicate Tighter(sp': StrPair, sp: StrPair) {
    sp.start <= sp'.start <= sp'.end == sp.end
  }

  ghost predicate AttributesRepresent(b: seq<char>, ps: seq<ParsedAttribute>, atts: seq<Attribute>) {
    |ps| == |atts| && forall k | 0 <= k < |ps| :: ReadsAttribute(b, ps[k], atts[k])
  }

  /** Reading one string of one attribute leaves all the others alone. */
  lemma {:induction false} OthersUnread(now: seq<char>, before: seq<char>, ps: seq<ParsedAttribute>, atts: seq<Attribute>,
                                        k: nat, sp: StrPair, lo: nat, hi: nat)
    requires k < |ps| && AttributesRepresent(before, ps, atts) && LaidOut(AttributePairs(ps), lo, hi)
    requires (sp == ps[k].name || sp == ps[k].value) && OnlyWithin(now, before, sp.start, sp.end + 1)
    ensures forall j | 0 <= j < |ps| && j != k :: ReadsAttribute(now, ps[j], atts[j])
    ensures sp == ps[k].name ==> Reads(now, ps[k].value, atts[k].value)
    ensures sp == ps[k].value ==> Reads(now, ps[k].name, atts[k].name)
    ensures OnlyWithin(now, before, lo, hi) && sp.start <= sp.end
  {
    hide Reads;
    PairAt(ps, k);
    forall j | 0 <= j < |ps| && j != k ensures ReadsAttribute(now, ps[j], atts[j]) {
      PairAt(ps, j);
      ReadsApart(now, before, ps[j].name, atts[j].name, sp.start, sp.end + 1);
      ReadsApart(now, before, ps[j].value, atts[j].value, sp.start, sp.end + 1);
    }
    assert ReadsAttribute(before, ps[k], atts[k]);
    if sp == ps[k].name {
      ReadsApart(now, before, ps[k].value, atts[k].value, sp.start, sp.end + 1);
    } else {
      ReadsApart(now, before, ps[k].name, atts[k].name, sp.start, sp.end + 1);
    }
  }

  /** Reads the name, or the value, of attribute `k` of a list. */
  method ReadOne(buf: array<char>, ps: seq<ParsedAttribute>, k: nat, value: bool, ghost atts: seq<Attribute>, ghost lo: nat, ghost hi: nat)
    returns (ps': seq<ParsedAttribute>, s: string)
    requires k < |ps| && AttributesRepresent(buf[..], ps, atts) && LaidOut(AttributePairs(ps), lo, hi)
    modifies buf
    ensures s == if value then atts[k].value else atts[k].name
    ensures AttributesRepresent(buf[..], ps', atts)
    ensures Tightens(AttributePairs(ps'), AttributePairs(ps)) && LaidOut(AttributePairs(ps'), lo, hi)
    ensures OnlyWithin(buf[..], old(buf[..]), lo, hi)
  {
    hide Reads, LaidOut, OnlyWithin;
    ghost var before := buf[..];
    var a := ps[k];
    var old_ := if value then a.value else a.name;
    assert ReadsAttribute(before, ps[k], atts[k]);
    var sp;
    sp, s := ReadValue(buf, old_, if value then atts[k].value else atts[k].name);
    OthersUnread(buf[..], before, ps, atts, k, old_, lo, hi);
    ps' := ps[k := if value then a.(value := sp) else a.(name := sp)];
    PairsValid(ps, lo, hi);
    AttributesTighten(ps', ps);
    TightLayout(AttributePairs(ps'), AttributePairs(ps), lo, hi);
  }

  lemma {:induction false} PairsValid(ps: seq<ParsedAttribute>, lo: nat, hi: nat)
    requires LaidOut(AttributePairs(ps), lo, hi)
    ensures forall k | 0 <= k < |ps| :: ps[k].name.start <= ps[k].name.end < ps[k].value.start <= ps[k].value.end
  {
    forall k | 0 <= k < |ps| ensures ps[k].name.start <= ps[k].name.end < ps[k].value.start <= ps[k].value.end {
      PairAt(ps, k);
    }
  }

  lemma {:induction false} TightensTwice(c: seq<StrPair>, b: seq<StrPair>, a: seq<StrPair>)
    requires Tightens(b, a) && Tightens(c, b)
    ensures Tightens(c, a)
  {
  }

  lemma {:induction false} TightensSelf(ps: seq<StrPair>, lo: nat, hi: nat)
    requires LaidOut(ps, lo, hi)
    ensures Tightens(ps, ps)
  {
  }

  /** Reads and prints attribute `k` of a list. */
  method PushOne(buf: array<char>, ps: seq<ParsedAttribute>, k: nat, pr: XMLPrinter, ghost atts: seq<Attribute>, ghost lo: nat, ghost hi: nat)
    returns (ps': seq<ParsedAttribute>)
    requires k < |ps| && AttributesRepresent(buf[..], ps, atts) && LaidOut(AttributePairs(ps), lo, hi)
    requires pr.Valid() && buf != pr.buffer.mem
    modifies buf, pr, pr.buffer, pr.buffer.mem
    ensures AttributesRepresent(buf[..], ps', atts)
    ensures Tightens(AttributePairs(ps'), AttributePairs(ps)) && LaidOut(AttributePairs(ps'), lo, hi)
    ensures OnlyWithin(buf[..], old(buf[..]), lo, hi)
    ensures pr.Valid() && pr.buffer == old(pr.buffer) && (pr.buffer.mem == old(pr.buffer.mem) || fresh(pr.buffer.mem))
    ensures pr.State() == old(pr.State()).PushAttribute(atts[k].name, atts[k].value)
  {
    hide LaidOut, Tightens, OnlyWithin, AttributesRepresent, PrinterState.PushAttribute, AttributePairs;
    ghost var before := buf[..];
    SameLength(before, ps, atts);
    var mid, name := ReadOne(buf, ps, k, false, atts, lo, hi);
    ghost var between := buf[..];
    SameLength(between, mid, atts);
    var value;
    ps', value := ReadOne(buf, mid, k, true, atts, lo, hi);
    WithinTwice(buf[..], between, before, lo, hi, hi);
    TightensTwice(AttributePairs(ps'), AttributePairs(mid), AttributePairs(ps));
    ghost var now := buf[..];
    pr.PushAttribute(name, value);
    assert buf[..] == now;
  }

  lemma {:induction false} SameLength(b: seq<char>, ps: seq<ParsedAttribute>, atts: seq<Attribute>)
    requires AttributesRepresent(b, ps, atts)
    ensures |ps| == |atts|
  {
  }

  lemma {:induction false} PushLast(st: PrinterState, atts: seq<Attribute>, k: nat)
    requires k < |atts|
    ensures PushAttributes(st, atts[..k + 1]) == PushAttributes(st, atts[..k]).PushAttribute(atts[k].name, atts[k].value)
    decreases k
  {
    hide PrinterState.PushAttribute;
    if k == 0 {
      assert atts[..1][1..] == [] && atts[..0] == [];
    } else {
      assert atts[..k + 1][1..] == atts[1..][..k] && atts[..k][1..] == atts[1..][..k - 1];
      PushLast(st.PushAttribute(atts[0].name, atts[0].value), atts[1..], k - 1);
    }
  }

  /** The attributes of an element, read and printed one after the other. */
  method PushAll(buf: array<char>, ps: seq<ParsedAttribute>, pr: XMLPrinter, ghost atts: seq<Attribute>, ghost lo: nat, ghost hi: nat)
    returns (cur: seq<ParsedAttribute>)
    requires AttributesRepresent(buf[..], ps, atts) && LaidOut(AttributePairs(ps), lo, hi)
    requires pr.Valid() && buf != pr.buffer.mem
    modifies buf, pr, pr.buffer, pr.buffer.mem
    ensures AttributesRepresent(buf[..], cur, atts)
    ensures Tightens(AttributePairs(cur), AttributePairs(ps)) && LaidOut(AttributePairs(cur), lo, hi)
    ensures OnlyWithin(buf[..], old(buf[..]), lo, hi)
    ensures pr.Valid() && pr.buffer == old(pr.buffer) && (pr.buffer.mem == old(pr.buffer.mem) || fresh(pr.buffer.mem))
    ensures pr.State() == PushAttributes(old(pr.State()), atts)
  {
    hide LaidOut, Tightens, OnlyWithin, AttributesRepresent, PrinterState.PushAttribute, AttributePairs, PushAttributes;
    cur := ps;
    var k := 0;
    ghost var before, start := buf[..], pr.State();
    SameLength(before, ps, atts);
    WithinSelf(before, lo, hi);
    TightensSelf(AttributePairs(ps), lo, hi);
    PushNone(start, atts);
    while k < |cur|
      invariant k <= |cur| == |atts|
      invariant AttributesRepresent(buf[..], cur, atts) && LaidOut(AttributePairs(cur), lo, hi)
      invariant Tightens(AttributePairs(cur), AttributePairs(ps)) && OnlyWithin(buf[..], before, lo, hi)
      invariant pr.Valid() && pr.buffer == old(pr.buffer) && buf != pr.buffer.mem
      invariant pr.buffer.mem == old(pr.buffer.mem) || fresh(pr.buffer.mem)
      invariant pr.State() == PushAttributes(start, atts[..k])
    {
      ghost var now, last := buf[..], cur;
      PushLast(start, atts, k);
      cur := PushOne(buf, cur, k, pr, atts, lo, hi);
      SameLength(buf[..], cur, atts);
      WithinTwice(buf[..], now, before, lo, hi, hi);
      TightensTwice(AttributePairs(cur), AttributePairs(last), AttributePairs(ps));
      k := k + 1;
    }
    assert atts[..k] == atts;
  }

  lemma {:induction false} PushNone(st: PrinterState, atts: seq<Attribute>)
    ensures PushAttributes(st, atts[..0]) == st
  {
  }

  // ------------------------------------------------------------- a part of a layout

  /** The bytes a run of pairs takes up, from its first start to behind its last terminator. */
  function SpanLo(ps: seq<StrPair>, lo: nat): nat {
    if ps == [] then lo else ps[0].start
  }

  function SpanHi(ps: seq<StrPair>, lo: nat): nat {
    if ps == [] then lo else ps[|ps| - 1].end + 1
  }

  lemma {:induction false} Middle(a: seq<StrPair>, b: seq<StrPair>, c: seq<StrPair>, lo: nat, hi: nat)
    requires lo <= hi && LaidOut(a + b + c, lo, hi)
    ensures var x, y := SpanLo(b, lo), SpanHi(b, lo);
            lo <= x <= y <= hi && LaidOut(b, x, y) && Apart(a, x, y) && Apart(c, x, y)
  {
    var ps := a + b + c;
    assert forall k | 0 <= k < |a| :: ps[k] == a[k];
    assert forall k | 0 <= k < |b| :: ps[k + |a|] == b[k];
    assert forall k | 0 <= k < |c| :: ps[k + |a| + |b|] == c[k];
  }

  lemma {:induction false} MiddleTightens(a: seq<StrPair>, b: seq<StrPair>, c: seq<StrPair>, b': seq<StrPair>, lo: nat, hi: nat)
    requires LaidOut(a + b + c, lo, hi) && Tightens(b', b)
    ensures Tightens(a + b' + c, a + b + c) && LaidOut(a + b' + c, lo, hi)
  {
    var ps, ps' := a + b + c, a + b' + c;
    forall k | 0 <= k < |ps| ensures ps[k].start <= ps'[k].start <= ps'[k].end == ps[k].end {
      if k < |a| {
        assert ps'[k] == ps[k];
      } else if k < |a| + |b| {
        assert ps[k] == b[k - |a|] && ps'[k] == b'[k - |a|];
      } else {
        assert ps'[k] == ps[k];
      }
    }
    TightLayout(ps', ps, lo, hi);
  }

  lemma {:induction false} NodeSlot(ps: seq<Parsed>, k: nat)
    requires k < |ps|
    ensures AllPairs(ps) == AllPairs(ps[..k]) + Pairs(ps[k]) + AllPairs(ps[k + 1..])
  {
    hide Pairs;
    assert ps == ps[..k] + ([ps[k]] + ps[k + 1..]);
    AllPairsAppend(ps[..k], [ps[k]] + ps[k + 1..]);
    AllPairsAppend([ps[k]], ps[k + 1..]);
    assert AllPairs([ps[k]]) == Pairs(ps[k]) by { assert [ps[k]][1..] == []; }
  }

  /** One of several siblings has been visited: the others are as they were. */
  lemma {:induction false} SiblingVisited(now: seq<char>, before: seq<char>, ps: seq<Parsed>, ns: seq<Node>, k: nat, p: Parsed, lo: nat, hi: nat)
    requires k < |ps| && RepresentsAll(before, ps, ns) && lo <= hi && LaidOut(AllPairs(ps), lo, hi)
    requires var x, y := SpanLo(Pairs(ps[k]), lo), SpanHi(Pairs(ps[k]), lo);
             OnlyWithin(now, before, x, y) && Represents(now, p, ns[k]) && Tightens(Pairs(p), Pairs(ps[k]))
    ensures RepresentsAll(now, ps[k := p], ns)
    ensures Tightens(AllPairs(ps[k := p]), AllPairs(ps)) && LaidOut(AllPairs(ps[k := p]), lo, hi)
    ensures OnlyWithin(now, before, lo, hi)
  {
    hide Represents, Pairs, AllPairs, LaidOut, Tightens;
    var a, b, c := AllPairs(ps[..k]), Pairs(ps[k]), AllPairs(ps[k + 1..]);
    var x, y := SpanLo(b, lo), SpanHi(b, lo);
    NodeSlot(ps, k);
    Middle(a, b, c, lo, hi);
    AllApart(now, before, ps[..k], ns[..k], x, y);
    AllApart(now, before, ps[k + 1..], ns[k + 1..], x, y);
    var ps' := ps[k := p];
    forall j | 0 <= j < |ps| ensures Represents(now, ps'[j], ns[j]) {
      if j < k {
        assert ps[..k][j] == ps'[j] && ns[..k][j] == ns[j];
      } else if j > k {
        assert ps[k + 1..][j - k - 1] == ps'[j] && ns[k + 1..][j - k - 1] == ns[j];
      }
    }
    NodeSlot(ps', k);
    assert ps'[..k] == ps[..k] && ps'[k + 1..] == ps[k + 1..];
    MiddleTightens(a, b, c, Pairs(p), lo, hi);
    WithinWider(now, before, x, y, lo, hi);
  }

  lemma {:induction false} VisitLast(st: PrinterState, ns: seq<Node>, k: nat)
    requires k < |ns|
    ensures VisitAll(st, ns[..k + 1]) == Visit(VisitAll(st, ns[..k]), ns[k])
    decreases k
  {
    hide Visit;
    if k == 0 {
      assert ns[..1][1..] == [] && ns[..0] == [];
    } else {
      assert ns[..k + 1][1..] == ns[1..][..k] && ns[..k][1..] == ns[1..][..k - 1];
      VisitLast(Visit(st, ns[0]), ns[1..], k - 1);
    }
  }

  lemma {:induction false} ElementParts(b: seq<char>, p: Parsed, n: Node)
    requires p.PElement? && Represents(b, p, n)
    ensures n.Element? && Reads(b, p.name, n.name)
    ensures AttributesRepresent(b, p.attributes, n.attributes) && RepresentsAll(b, p.children, n.children)
    ensures Pairs(p) == [] + [p.name] + (AttributePairs(p.attributes) + AllPairs(p.children))
    ensures Pairs(p) == [p.name] + AttributePairs(p.attributes) + AllPairs(p.children)
    ensures Pairs(p) == ([p.name] + AttributePairs(p.attributes)) + AllPairs(p.children) + []
  {
    hide Reads, AttributePairs, AllPairs;
    assert [] + [p.name] == [p.name];
    assert [p.name] + AttributePairs(p.attributes) + AllPairs(p.children)
        == [p.name] + (AttributePairs(p.attributes) + AllPairs(p.children));
  }

  lemma {:induction false} ElementFrom(b: seq<char>, p: Parsed, n: Node)
    requires p.PElement? && n.Element? && Reads(b, p.name, n.name)
    requires AttributesRepresent(b, p.attributes, n.attributes) && RepresentsAll(b, p.children, n.children)
    ensures Represents(b, p, n)
  {
    hide Reads;
  }

  /** After the name has been read. */
  lemma {:induction false} NameVisited(now: seq<char>, before: seq<char>, p: Parsed, n: Node, name: StrPair, lo: nat, hi: nat)
    requires p.PElement? && Represents(before, p, n) && lo <= hi && LaidOut(Pairs(p), lo, hi)
    requires OnlyWithin(now, before, p.name.start, p.name.end + 1) && Reads(now, name, n.name) && Tighter(name, p.name)
    ensures var p' := p.(name := name);
            Represents(now, p', n) && Tightens(Pairs(p'), Pairs(p)) && LaidOut(Pairs(p'), lo, hi)
    ensures OnlyWithin(now, before, lo, hi)
  {
    hide Reads, LaidOut, Pairs, AttributePairs, AllPairs, Represents, Apart, AttributesRepresent, RepresentsAll, Tightens;
    var p' := p.(name := name);
    ElementParts(before, p, n);
    var ap, cp := AttributePairs(p.attributes), AllPairs(p.children);
    Middle([], [p.name], ap + cp, lo, hi);
    assert [p.name][0] == p.name && [p.name][|[p.name]| - 1] == p.name;
    var x, y := p.name.start, p.name.end + 1;
    ApartParts(ap, cp, x, y);
    AttributesRepresentApart(now, before, p.attributes, n.attributes, x, y);
    AllApart(now, before, p.children, n.children, x, y);
    ElementFrom(now, p', n);
    ElementParts(now, p', n);
    assert Tightens([name], [p.name]) by { OneTightens(name, p.name); }
    MiddleTightens([], [p.name], ap + cp, [name], lo, hi);
    WithinWider(now, before, x, y, lo, hi);
  }

  lemma {:induction false} OneTightens(sp': StrPair, sp: StrPair)
    requires Tighter(sp', sp)
    ensures Tightens([sp'], [sp])
  {
  }

  lemma {:induction false} AttributesRepresentApart(now: seq<char>, before: seq<char>, ps: seq<ParsedAttribute>, atts: seq<Attribute>, lo: int, hi: int)
    requires AttributesRepresent(before, ps, atts) && OnlyWithin(now, before, lo, hi) && Apart(AttributePairs(ps), lo, hi)
    ensures AttributesRepresent(now, ps, atts)
  {
    AttributesApart(now, before, ps, atts, lo, hi);
  }

  /** After the attributes have been read. */
  lemma {:induction false} AttributesVisited(now: seq<char>, before: seq<char>, p: Parsed, n: Node, list: seq<ParsedAttribute>, lo: nat, hi: nat)
    requires p.PElement? && Represents(before, p, n) && lo <= hi && LaidOut(Pairs(p), lo, hi)
    requires var b := AttributePairs(p.attributes); OnlyWithin(now, before, SpanLo(b, lo), SpanHi(b, lo))
    requires AttributesRepresent(now, list, n.attributes) && Tightens(AttributePairs(list), AttributePairs(p.attributes))
    ensures var p' := p.(attributes := list);
            Represents(now, p', n) && Tightens(Pairs(p'), Pairs(p)) && LaidOut(Pairs(p'), lo, hi)
    ensures OnlyWithin(now, before, lo, hi)
  {
    hide Reads, LaidOut, Pairs, AttributePairs, AllPairs, Represents, Apart, AttributesRepresent, RepresentsAll, Tightens;
    var p' := p.(attributes := list);
    ElementParts(before, p, n);
    var ap, cp := AttributePairs(p.attributes), AllPairs(p.children);
    Middle([p.name], ap, cp, lo, hi);
    var x, y := SpanLo(ap, lo), SpanHi(ap, lo);
    ApartOne(p.name, x, y);
    ReadsApart(now, before, p.name, n.name, x, y);
    AllApart(now, before, p.children, n.children, x, y);
    ElementFrom(now, p', n);
    ElementParts(now, p', n);
    MiddleTightens([p.name], ap, cp, AttributePairs(list), lo, hi);
    WithinWider(now, before, x, y, lo, hi);
  }

  lemma {:induction false} ApartOne(sp: StrPair, lo: int, hi: int)
    ensures Apart([sp], lo, hi) <==> sp.end < lo || hi <= sp.start
  {
    assert [sp][0] == sp;
  }

  /** After the children have been visited. */
  lemma {:induction false} ChildrenVisited(now: seq<char>, before: seq<char>, p: Parsed, n: Node, children: seq<Parsed>, lo: nat, hi: nat)
    requires p.PElement? && Represents(before, p, n) && lo <= hi && LaidOut(Pairs(p), lo, hi)
    requires var b := AllPairs(p.children); OnlyWithin(now, before, SpanLo(b, lo), SpanHi(b, lo))
    requires RepresentsAll(now, children, n.children) && Tightens(AllPairs(children), AllPairs(p.children))
    ensures var p' := p.(children := children);
            Represents(now, p', n) && Tightens(Pairs(p'), Pairs(p)) && LaidOut(Pairs(p'), lo, hi)
    ensures OnlyWithin(now, before, lo, hi)
  {
    hide Reads, LaidOut, Pairs, AttributePairs, AllPairs, Represents, Apart, AttributesRepresent, RepresentsAll, Tightens;
    var p' := p.(children := children);
    ElementParts(before, p, n);
    var ap, cp := AttributePairs(p.attributes), AllPairs(p.children);
    Middle([p.name] + ap, cp, [], lo, hi);
    var x, y := SpanLo(cp, lo), SpanHi(cp, lo);
    ApartParts([p.name], ap, x, y);
    ApartOne(p.name, x, y);
    ReadsApart(now, before, p.name, n.name, x, y);
    AttributesRepresentApart(now, before, p.attributes, n.attributes, x, y);
    ElementFrom(now, p', n);
    ElementParts(now, p', n);
    MiddleTightens([p.name] + ap, cp, [], AllPairs(children), lo, hi);
    WithinWider(now, before, x, y, lo, hi);
  }

  // ------------------------------------------------------------- Accept

  /** What visiting a node keeps. */
  ghost predicate Kept(now: seq<char>, before: seq<char>, p': Parsed, p: Parsed, n: Node, lo: nat, hi: nat) {
    && Represents(now, p', n)
    && Tightens(Pairs(p'), Pairs(p)) && LaidOut(Pairs(p'), lo, hi)
    && OnlyWithin(now, before, lo, hi)
  }

  lemma {:induction false} KeptThen(c: seq<char>, b: seq<char>, a: seq<char>, r: Parsed, q: Parsed, p: Parsed, n: Node, lo: nat, hi: nat)
    requires Kept(b, a, q, p, n, lo, hi) && Kept(c, b, r, q, n, lo, hi)
    ensures Kept(c, a, r, p, n, lo, hi)
  {
    hide Represents, Pairs, LaidOut, Tightens, OnlyWithin;
    TightensTwice(Pairs(r), Pairs(q), Pairs(p));
    WithinTwice(c, b, a, lo, hi, hi);
  }

  /** `Accept` on a node whose body is all text: its string is read and pushed. */
  method AcceptLeaf(buf: array<char>, p: Parsed, pr: XMLPrinter, ghost n: Node, ghost lo: nat, ghost hi: nat) returns (p': Parsed)
    requires !p.PElement? && Represents(buf[..], p, n) && LaidOut(Pairs(p), lo, hi)
    requires pr.Valid() && buf != pr.buffer.mem
    modifies buf, pr, pr.buffer, pr.buffer.mem
    ensures Kept(buf[..], old(buf[..]), p', p, n, lo, hi)
    ensures pr.Valid() && pr.buffer == old(pr.buffer) && (pr.buffer.mem == old(pr.buffer.mem) || fresh(pr.buffer.mem))
    ensures pr.State() == Visit(old(pr.State()), n)
  {
    hide Reads, PrinterState.PushMarkup, PrinterState.PushText;
    ghost var before := buf[..];
    var sp, v := ReadValue(buf, p.value, n.value);
    p' := p.(value := sp);
    LeafKept(buf[..], before, p, n, sp, lo, hi);
    ghost var now := buf[..];
    match p {
      case PText(_, _, cdata) => pr.PushText(v, cdata);
      case PComment(_, _) => pr.PushMarkup("<!--", v, "-->");
      case PDeclaration(_, _) => pr.PushMarkup("<?", v, "?>");
      case PUnknown(_, _) => pr.PushMarkup("<!", v, ">");
    }
    assert buf[..] == now;
  }

  lemma {:induction false} LeafKept(now: seq<char>, before: seq<char>, p: Parsed, n: Node, sp: StrPair, lo: nat, hi: nat)
    requires !p.PElement? && Represents(before, p, n) && LaidOut(Pairs(p), lo, hi)
    requires Reads(now, sp, n.value) && Tighter(sp, p.value) && OnlyWithin(now, before, p.value.start, p.value.end + 1)
    ensures Kept(now, before, p.(value := sp), p, n, lo, hi)
  {
    hide Reads;
    assert Pairs(p)[0] == p.value;
  }

  /** `Accept` on a node, with the printer as visitor. */
  method AcceptNode(buf: array<char>, p: Parsed, pr: XMLPrinter, ghost n: Node, ghost lo: nat, ghost hi: nat) returns (p': Parsed)
    requires Represents(buf[..], p, n) && lo <= hi && LaidOut(Pairs(p), lo, hi)
    requires pr.Valid() && buf != pr.buffer.mem
    modifies buf, pr, pr.buffer, pr.buffer.mem
    ensures Kept(buf[..], old(buf[..]), p', p, n, lo, hi)
    ensures pr.Valid() && pr.buffer == old(pr.buffer) && (pr.buffer.mem == old(pr.buffer.mem) || fresh(pr.buffer.mem))
    ensures pr.State() == Visit(old(pr.State()), n)
    decreases p, 1
  {
    hide Kept, Represents, LaidOut, Visit;
    if p.PElement? {
      p' := AcceptElement(buf, p, pr, n, lo, hi);
    } else {
      p' := AcceptLeaf(buf, p, pr, n, lo, hi);
    }
  }

  /** `VisitEnter` on an element: its start tag, with name and attributes. */
  method EnterElement(buf: array<char>, p: Parsed, pr: XMLPrinter, ghost n: Node, ghost lo: nat, ghost hi: nat) returns (p': Parsed)
    requires p.PElement? && Represents(buf[..], p, n) && lo <= hi && LaidOut(Pairs(p), lo, hi)
    requires pr.Valid() && buf != pr.buffer.mem
    modifies buf, pr, pr.buffer, pr.buffer.mem
    ensures n.Element? && p'.PElement? && p'.children == p.children
    ensures Kept(buf[..], old(buf[..]), p', p, n, lo, hi)
    ensures pr.Valid() && pr.buffer == old(pr.buffer) && (pr.buffer.mem == old(pr.buffer.mem) || fresh(pr.buffer.mem))
    ensures pr.State() == PushAttributes(old(pr.State()).OpenElement(n.name), n.attributes)
  {
    hide Represents, LaidOut, Tightens, OnlyWithin, Reads, PushAttributes, PrinterState.OpenElement, Pairs, AttributesRepresent,
         AttributePairs, AllPairs, RepresentsAll, Apart;
    ghost var before := buf[..];
    ElementParts(before, p, n);
    var name, s := ReadValue(buf, p.name, n.name);
    ghost var second := buf[..];
    NameVisited(second, before, p, n, name, lo, hi);
    var q := p.(name := name);
    pr.OpenElement(s);
    assert buf[..] == second;
    ElementParts(second, q, n);
    Middle([q.name], AttributePairs(q.attributes), AllPairs(q.children), lo, hi);
    ghost var b := AttributePairs(q.attributes);
    var list := PushAll(buf, q.attributes, pr, n.attributes, SpanLo(b, lo), SpanHi(b, lo));
    AttributesVisited(buf[..], second, q, n, list, lo, hi);
    p' := q.(attributes := list);
    KeptThen(buf[..], second, before, p', q, p, n, lo, hi);
  }

  /** `Accept` on an element. */
  method AcceptElement(buf: array<char>, p: Parsed, pr: XMLPrinter, ghost n: Node, ghost lo: nat, ghost hi: nat) returns (p': Parsed)
    requires p.PElement? && Represents(buf[..], p, n) && lo <= hi && LaidOut(Pairs(p), lo, hi)
    requires pr.Valid() && buf != pr.buffer.mem
    modifies buf, pr, pr.buffer, pr.buffer.mem
    ensures Kept(buf[..], old(buf[..]), p', p, n, lo, hi)
    ensures pr.Valid() && pr.buffer == old(pr.buffer) && (pr.buffer.mem == old(pr.buffer.mem) || fresh(pr.buffer.mem))
    ensures pr.State() == Visit(old(pr.State()), n)
    decreases p, 0
  {
    hide Represents, LaidOut, Tightens, OnlyWithin, Reads, PushAttributes, PrinterState.OpenElement, Pairs, AttributesRepresent,
         AttributePairs, AllPairs, RepresentsAll, Apart, VisitAll, PrinterState.CloseElement;
    ghost var before := buf[..];
    var q := EnterElement(buf, p, pr, n, lo, hi);
    ghost var second := buf[..];
    ElementParts(second, q, n);
    ghost var b := AllPairs(q.children);
    Middle([q.name] + AttributePairs(q.attributes), b, [], lo, hi);
    var children := AcceptAll(buf, p.children, pr, n.children, SpanLo(b, lo), SpanHi(b, lo));
    ghost var third := buf[..];
    ChildrenVisited(third, second, q, n, children, lo, hi);
    p' := q.(children := children);
    KeptThen(third, second, before, p', q, p, n, lo, hi);
    HeadKeeps(old(pr.State()), n.name, n.attributes);
    pr.CloseElement();
    assert buf[..] == third;
  }

  /** `Accept` on all children, one after the other. */
  method AcceptAll(buf: array<char>, ps: seq<Parsed>, pr: XMLPrinter, ghost ns: seq<Node>, ghost lo: nat, ghost hi: nat)
    returns (cur: seq<Parsed>)
    requires RepresentsAll(buf[..], ps, ns) && lo <= hi && LaidOut(AllPairs(ps), lo, hi)
    requires pr.Valid() && buf != pr.buffer.mem
    modifies buf, pr, pr.buffer, pr.buffer.mem
    ensures RepresentsAll(buf[..], cur, ns)
    ensures Tightens(AllPairs(cur), AllPairs(ps)) && LaidOut(AllPairs(cur), lo, hi)
    ensures OnlyWithin(buf[..], old(buf[..]), lo, hi)
    ensures pr.Valid() && pr.buffer == old(pr.buffer) && (pr.buffer.mem == old(pr.buffer.mem) || fresh(pr.buffer.mem))
    ensures pr.State() == VisitAll(old(pr.State()), ns)
    decreases ps, 0
  {
    hide Represents, LaidOut, Tightens, OnlyWithin, Pairs, AllPairs, Apart, VisitAll, Visit, RepresentsAll;
    cur := ps;
    var k := 0;
    ghost var before, start := buf[..], pr.State();
    SameNodes(before, ps, ns);
    WithinSelf(before, lo, hi);
    TightensSelf(AllPairs(ps), lo, hi);
    VisitNone(start, ns);
    while k < |ps|
      invariant k <= |ps| == |cur| == |ns|
      invariant forall j | k <= j < |ps| :: cur[j] == ps[j]
      invariant RepresentsAll(buf[..], cur, ns) && LaidOut(AllPairs(cur), lo, hi)
      invariant Tightens(AllPairs(cur), AllPairs(ps)) && OnlyWithin(buf[..], before, lo, hi)
      invariant pr.Valid() && pr.buffer == old(pr.buffer) && buf != pr.buffer.mem
      invariant pr.buffer.mem == old(pr.buffer.mem) || fresh(pr.buffer.mem)
      invariant pr.State() == VisitAll(start, ns[..k])
    {
      ghost var now, last := buf[..], cur;
      OneOf(now, cur, ns, k);
      NodeSlot(cur, k);
      Middle(AllPairs(cur[..k]), Pairs(cur[k]), AllPairs(cur[k + 1..]), lo, hi);
      ghost var b := Pairs(cur[k]);
      VisitLast(start, ns, k);
      var p' := AcceptNode(buf, ps[k], pr, ns[k], SpanLo(b, lo), SpanHi(b, lo));
      SiblingVisited(buf[..], now, cur, ns, k, p', lo, hi);
      cur := cur[k := p'];
      WithinTwice(buf[..], now, before, lo, hi, hi);
      TightensTwice(AllPairs(cur), AllPairs(last), AllPairs(ps));
      k := k + 1;
    }
    assert ns[..k] == ns;
  }

  lemma {:induction false} SameNodes(b: seq<char>, ps: seq<Parsed>, ns: seq<Node>)
    requires RepresentsAll(b, ps, ns)
    ensures |ps| == |ns|
  {
  }

  lemma {:induction false} OneOf(b: seq<char>, ps: seq<Parsed>, ns: seq<Node>, k: nat)
    requires RepresentsAll(b, ps, ns) && k < |ps|
    ensures Represents(b, ps[k], ns[k])
  {
    hide Represents;
  }

  lemma {:induction false} VisitNone(st: PrinterState, ns: seq<Node>)
    ensures VisitAll(st, ns[..0]) == st
  {
  }

  // ------------------------------------------------------------- documents

  /** The document object shows the tree `d`, whatever has been read of it so far. */
  ghost predicate Shows(doc: XMLDocument, d: Document)
    reads doc, doc.charBuffer
  {
    && doc.writeBOM == d.bom
    && RepresentsAll(doc.charBuffer[..], doc.children, d.children)
    && LaidOut(AllPairs(doc.children), 0, |doc.text| + 1)
  }

  /** After a successful parse the document shows what the specification reads. */
  lemma {:induction false} ParsedShows(doc: XMLDocument)
    requires doc.errorID.None? && doc.Finished(ParseDocument(doc.text, doc.options))
    ensures ReadDocument(doc.text, doc.options).Read?
    ensures Shows(doc, ReadDocument(doc.text, doc.options).document)
  {
    hide ParseDocument, LaidOut, AllPairs, AllHeld, RepresentsAll;
    NodesDecoded(doc.charBuffer[..], doc.text, doc.children);
  }

  /** `XMLDocument::Print`: the printer visits the document, which still shows the same tree. */
  method PrintTo(doc: XMLDocument, pr: XMLPrinter, ghost d: Document)
    requires Shows(doc, d) && pr.Valid() && doc.charBuffer != pr.buffer.mem
    modifies doc`children, doc.charBuffer, pr, pr.buffer, pr.buffer.mem
    ensures Shows(doc, d)
    ensures pr.Valid() && pr.buffer == old(pr.buffer) && (pr.buffer.mem == old(pr.buffer.mem) || fresh(pr.buffer.mem))
    ensures pr.State() == VisitDocument(old(pr.State()), d, doc.options.processEntities)
  {
    hide RepresentsAll, LaidOut, AllPairs, VisitAll, Entered;
    ghost var now := doc.charBuffer[..];
    pr.VisitEnter(doc.writeBOM, doc.options.processEntities);
    assert doc.charBuffer[..] == now;
    var cur := AcceptAll(doc.charBuffer, doc.children, pr, d.children, 0, |doc.text| + 1);
    doc.children := cur;
  }

  /** A fresh compact printer writes the document as `PrintDocument` says. */
  lemma {:induction false} CompactDocument(d: Document)
    ensures var st := PrinterState("", false, true, 0, -1, [], true, true);
            VisitDocument(st, d, true).out == PrintDocument(d)
  {
    hide Visit, PrintNode, VisitAll, PrintNodes;
    var st := PrinterState("", false, true, 0, -1, [], true, true);
    var entered := Entered(st, d.bom, true);
    assert entered.out == if d.bom then BOM else "";
    CompactVisitAll(entered, d.children);
    if d.children == [] {
      EmptyDocument(entered, d);
    }
  }

  lemma {:induction false} EmptyDocument(st: PrinterState, d: Document)
    requires d.children == []
    ensures PrintNodes(d.children) == "" && VisitAll(st, d.children) == st
  {
  }

  /**
   End to end: a document that shows a printable tree is printed compactly, and parsing
   what was printed gives a document that shows the same tree.
   */
  method Reread(doc: XMLDocument, ghost d: Document) returns (again: XMLDocument)
    requires Shows(doc, d) && doc.options == DEFAULT_OPTIONS && XmlTheorems.Printable(d)
    modifies doc`children, doc.charBuffer
    ensures fresh(again) && again.errorID.None?
    ensures Shows(again, d) && Shows(doc, d)
  {
    hide Shows, XmlTheorems.Printable, ReadDocument, PrintDocument, ParseDocument, VisitDocument;
    var pr := new XMLPrinter(true);
    CompactDocument(d);
    assert doc.charBuffer != pr.buffer.mem;
    PrintTo(doc, pr, d);
    var s := pr.buffer.mem[..pr.buffer.size - 1];
    assert s == PrintDocument(d);
    XmlTheorems.PrintableText(d);
    CStrOfNulFree(s);
    again := new XMLDocument(true, false);
    again.Parse(s);
    XmlTheorems.PrintableIsRead(d);
    ReadSucceeded(again);
    ParsedShows(again);
  }

  lemma {:induction false} ReadSucceeded(doc: XMLDocument)
    requires doc.Finished(ParseDocument(doc.text, doc.options)) && ReadDocument(doc.text, doc.options).Read?
    ensures doc.errorID.None?
  {
    hide ParseDocument;
  }
}
