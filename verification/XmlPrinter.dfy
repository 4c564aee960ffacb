/**
 `XMLPrinter` as it runs: flags and depths that change from call to call, over a growing
 NUL-terminated buffer.  `PrinterState` is the same printer as a value, in both its modes;
 in compact mode it writes what `PrintNode` says.
 */
module XmlPrinter {
  import opened XmlText
  import opened XmlDecode
  import opened XmlTree
  import opened XmlPrinterSpec
  import opened XmlEscape
  import S = XmlParserSpec
  import opened DynArrays

  // ------------------------------------------------------------- the printer as a value

  datatype PrinterState = PrinterState(
    out: string,
    justOpened: bool,
    firstElement: bool,
    depth: int,
    textDepth: int,
    stack: seq<string>,
    processEntities: bool,
    compact: bool)
  {
    function Print(s: string): PrinterState {
      this.(out := out + s)
    }

    function PrintString(v: string, restricted: bool): PrinterState {
      Print(if processEntities then Escape(v, restricted) else v)
    }

    /** `SealElementIfJustOpened`. */
    function Seal(): PrinterState {
      if justOpened then this.(justOpened := false).Print(">") else this
    }

    /** The line break and indentation in front of a comment, declaration or unknown. */
    function Indent(): PrinterState {
      if textDepth < 0 && !firstElement && !compact then Print("\n").Print(Spaces(depth)) else this
    }

    function NewLine(): PrinterState {
      if textDepth < 0 && !firstElement && !compact then Print("\n") else this
    }

    function Pad(): PrinterState {
      if !compact then Print(Spaces(depth)) else this
    }

    function OpenElement(name: string): PrinterState {
      var sealed := Seal();
      sealed.(stack := sealed.stack + [name]).NewLine().Pad().Print("<" + name).Opened()
    }

    /** The flags behind a start tag. */
    function Opened(): PrinterState {
      this.(justOpened := true, firstElement := false, depth := depth + 1)
    }

    function PushAttribute(name: string, value: string): PrinterState {
      Print(" " + name + "=\"").PrintString(value, false).Print("\"")
    }

    function EndTag(name: string): PrinterState {
      if justOpened then Print("/>")
      else (if textDepth < 0 && !compact then Print("\n").Print(Spaces(depth)) else this).Print("</" + name + ">")
    }

    /** The flags behind an end tag, and the line break behind a top-level element. */
    function Closed(): PrinterState {
      var texted := if textDepth == depth then this.(textDepth := -1) else this;
      var ended := if texted.depth == 0 && !compact then texted.Print("\n") else texted;
      ended.(justOpened := false)
    }

    function CloseElement(): PrinterState
      requires stack != []
    {
      this.(depth := depth - 1, stack := stack[..|stack| - 1]).EndTag(stack[|stack| - 1]).Closed()
    }

    function PushText(v: string, cdata: bool): PrinterState {
      var sealed := this.(textDepth := depth - 1).Seal();
      if cdata then sealed.Print("<![CDATA[" + v + "]]>") else sealed.PrintString(v, true)
    }

    /** `PushComment`, `PushDeclaration` and `PushUnknown`, which differ in their delimiters. */
    function PushMarkup(open: string, v: string, close: string): PrinterState {
      Seal().Indent().(firstElement := false).Print(open + v + close)
    }
  }

  /** `PrintSpace`: four spaces a level. */
  function Spaces(depth: int): string
    decreases depth
  {
    if depth <= 0 then "" else Spaces(depth - 1) + "    "
  }

  function PushAttributes(st: PrinterState, atts: seq<Attribute>): PrinterState
    decreases |atts|
  {
    if atts == [] then st else PushAttributes(st.PushAttribute(atts[0].name, atts[0].value), atts[1..])
  }

  /** `Accept` on a node, with the printer as visitor. */
  function Visit(st: PrinterState, n: Node): (r: PrinterState)
    ensures r.stack == st.stack && r.compact == st.compact && r.processEntities == st.processEntities
    ensures r.depth == st.depth
    decreases n, 1
  {
    match n
    case Element(name, atts, children) =>
      var entered := PushAttributes(st.OpenElement(name), atts);
      HeadKeeps(st, name, atts);
      var inside := VisitAll(entered, children);
      CloseKeeps(inside);
      inside.CloseElement()
    case Text(v, cdata) => st.PushText(v, cdata)
    case Comment(v) => st.PushMarkup("<!--", v, "-->")
    case Declaration(v) => st.PushMarkup("<?", v, "?>")
    case Unknown(v) => st.PushMarkup("<!", v, ">")
  }

  function Entered(st: PrinterState, bom: bool, processEntities: bool): PrinterState {
    var st' := st.(processEntities := processEntities);
    if bom then st'.Print(S.BOM) else st'
  }

  function VisitAll(st: PrinterState, ns: seq<Node>): (r: PrinterState)
    ensures r.stack == st.stack && r.compact == st.compact && r.processEntities == st.processEntities
    ensures r.depth == st.depth
    decreases ns, 0
  {
    if ns == [] then st else VisitAll(Visit(st, ns[0]), ns[1..])
  }

  function VisitDocument(st: PrinterState, d: Document, processEntities: bool): PrinterState {
    VisitAll(Entered(st, d.bom, processEntities), d.children)
  }

  lemma {:induction false} HeadKeeps(st: PrinterState, name: string, atts: seq<Attribute>)
    ensures var r := PushAttributes(st.OpenElement(name), atts);
            && r.stack == st.stack + [name] && r.depth == st.depth + 1
            && r.compact == st.compact && r.processEntities == st.processEntities
  {
    hide Spaces;
    AttributesKeep(st.OpenElement(name), atts);
  }

  lemma {:induction false} CloseKeeps(st: PrinterState)
    requires st.stack != []
    ensures var r := st.CloseElement();
            && r.stack == st.stack[..|st.stack| - 1] && r.depth == st.depth - 1
            && r.compact == st.compact && r.processEntities == st.processEntities
  {
    hide Spaces;
  }

  lemma {:induction false} AttributesKeep(st: PrinterState, atts: seq<Attribute>)
    ensures var r := PushAttributes(st, atts); r == st.(out := r.out)
    decreases |atts|
  {
    if atts != [] {
      AttributesKeep(st.PushAttribute(atts[0].name, atts[0].value), atts[1..]);
    }
  }

  // ------------------------------------------------------------- compact mode

  lemma {:induction false} AttributesWritten(st: PrinterState, atts: seq<Attribute>)
    requires st.processEntities
    ensures PushAttributes(st, atts).out == st.out + PrintAttributes(atts)
    decreases |atts|
  {
    hide Escape;
    if atts == [] {
      assert st.out + "" == st.out;
    } else {
      var next := st.PushAttribute(atts[0].name, atts[0].value);
      assert next.out == st.out + PrintAttribute(atts[0]);
      AttributesWritten(next, atts[1..]);
      ConcatAssociative(st.out, PrintAttribute(atts[0]), PrintAttributes(atts[1..]));
    }
  }

  /** A start tag left open is sealed by whatever comes next. */
  function Pending(st: PrinterState): string {
    if st.justOpened then ">" else ""
  }

  /** In compact mode, visiting a node writes its printed form, after sealing an open start tag. */
  lemma {:induction false} CompactVisit(st: PrinterState, n: Node)
    requires st.compact && st.processEntities
    ensures Visit(st, n).out == st.out + Pending(st) + PrintNode(n)
    ensures !Visit(st, n).justOpened
    decreases n, 1
  {
    hide Escape, PrintAttributes, VisitAll, PrintNodes;
    match n
    case Element(name, atts, children) =>
      var first := st.OpenElement(name);
      var entered := PushAttributes(first, atts);
      AttributesKeep(first, atts);
      AttributesWritten(first, atts);
      CompactVisitAll(entered, children);
      ElementWritten(st, entered, n);
    case _ =>
  }

  lemma {:induction false} ElementWritten(st: PrinterState, entered: PrinterState, n: Node)
    requires st.compact && n.Element?
    requires entered.out == st.out + Pending(st) + ("<" + n.name) + PrintAttributes(n.attributes)
    requires entered == st.OpenElement(n.name).(out := entered.out)
    requires var inner := VisitAll(entered, n.children);
             && (n.children == [] ==> inner == entered)
             && (n.children != [] ==> inner.out == entered.out + ">" + PrintNodes(n.children) && !inner.justOpened)
    ensures VisitAll(entered, n.children).CloseElement().out == st.out + Pending(st) + PrintNode(n)
  {
    hide PrintAttributes, VisitAll, PrintNodes, Spaces;
    var inner := VisitAll(entered, n.children);
    var head := "<" + n.name + PrintAttributes(n.attributes);
    var before := st.out + Pending(st);
    ConcatAssociative(before, "<" + n.name, PrintAttributes(n.attributes));
    assert entered.out == before + head;
    var name := inner.stack[|inner.stack| - 1];
    assert name == n.name;
    if n.children == [] {
      ConcatAssociative(before, head, "/>");
    } else {
      var body, close := ">" + PrintNodes(n.children), "</" + name + ">";
      assert PrintNode(n) == head + (body + close);
      assert inner.out == before + head + body;
      ConcatAssociative(before + head, body, close);
      ConcatAssociative(before, head, body + close);
    }
  }

  lemma {:induction false} CompactVisitAll(st: PrinterState, ns: seq<Node>)
    requires st.compact && st.processEntities
    ensures ns == [] ==> VisitAll(st, ns) == st
    ensures ns != [] ==> VisitAll(st, ns).out == st.out + Pending(st) + PrintNodes(ns) && !VisitAll(st, ns).justOpened
    decreases ns, 0
  {
    hide Visit, PrintNode;
    if ns != [] {
      var next := Visit(st, ns[0]);
      CompactVisit(st, ns[0]);
      CompactVisitAll(next, ns[1..]);
      var before := st.out + Pending(st);
      if ns[1..] == [] {
        assert PrintNodes(ns) == PrintNode(ns[0]) + "";
        assert PrintNodes(ns) == PrintNode(ns[0]);
      } else {
        assert next.out + Pending(next) == next.out;
        ConcatAssociative(before, PrintNode(ns[0]), PrintNodes(ns[1..]));
      }
    }
  }

  // ------------------------------------------------------------- the printer as an object

  const ENTITY_RANGE := 64

  lemma EscapeNothing(restricted: bool)
    ensures Escape("", restricted) == ""
  {
  }

  class XMLPrinter {
    var buffer: DynArray<char>
    var elementJustOpened: bool
    var firstElement: bool
    var depth: int
    var textDepth: int
    var stack: seq<string>
    var processEntities: bool
    const compactMode: bool
    var entityFlag: seq<bool>
    var restrictedEntityFlag: seq<bool>

    ghost predicate Valid()
      reads this, buffer, buffer.mem
    {
      && buffer.Valid() && buffer.size > 0 && buffer.mem[buffer.size - 1] == NUL
      && FlagsSet(entityFlag, false) && FlagsSet(restrictedEntityFlag, true)
    }

    /** The printer's state as a value; its output is the buffer up to the terminator. */
    ghost function State(): PrinterState
      reads this, buffer, buffer.mem
      requires Valid()
    {
      PrinterState(buffer.mem[..buffer.size - 1], elementJustOpened, firstElement, depth, textDepth, stack,
                   processEntities, compactMode)
    }

    constructor (compact: bool)
      ensures Valid() && fresh(buffer) && fresh(buffer.mem)
      ensures State() == PrinterState("", false, true, 0, -1, [], true, compact)
    {
      elementJustOpened, firstElement, depth, textDepth, stack := false, true, 0, -1, [];
      processEntities, compactMode := true, compact;
      var flags := seq(ENTITY_RANGE, _ => false);
      restrictedEntityFlag := flags['&' as int := true]['<' as int := true]['>' as int := true];
      entityFlag := flags['"' as int := true]['&' as int := true]['\'' as int := true]['<' as int := true]['>' as int := true];
      buffer := new DynArray<char>(20);
      new;
      buffer.Push(NUL);
    }

    /** `VisitEnter` of a document: its options, and its byte order mark. */
    method VisitEnter(bom: bool, processEntities: bool)
      requires Valid()
      modifies this, buffer, buffer.mem
      ensures Valid() && buffer == old(buffer)
      ensures State() == Entered(old(State()), bom, processEntities)
      ensures buffer.mem == old(buffer.mem) || fresh(buffer.mem)
    {
      hide DynArray.Accounted;
      this.processEntities := processEntities;
      if bom {
        Print(S.BOM);
      }
    }

    /** `Print`: the text overwrites the terminator, and a new one follows it. */
    method Print(s: string)
      requires Valid()
      modifies buffer, buffer.mem
      ensures Valid() && buffer == old(buffer)
      ensures State() == old(State()).Print(s)
      ensures buffer.mem == old(buffer.mem) || fresh(buffer.mem)
    {
      ghost var before := buffer.mem[..buffer.size - 1];
      var start := buffer.PushArr(|s|);
      assert buffer.mem[..start - 1] == buffer.Contents()[..start][..start - 1] == before;
      WriteString(buffer.mem, start - 1, s);
      JoinedAt(buffer.mem, start - 1, before, s);
    }

    /** `PrintSpace`. */
    method PrintSpace(d: int)
      requires Valid()
      modifies buffer, buffer.mem
      ensures Valid() && buffer == old(buffer)
      ensures State() == old(State()).Print(Spaces(d))
      ensures buffer.mem == old(buffer.mem) || fresh(buffer.mem)
    {
      hide DynArray.Accounted, PrinterState.Print;
      var i := 0;
      PrintsNothing(State());
      while i < d
        invariant i == 0 || 0 <= i <= d
        invariant Valid() && buffer == old(buffer) && State() == old(State()).Print(Spaces(i))
        invariant buffer.mem == old(buffer.mem) || fresh(buffer.mem)
      {
        PrintsTwice(old(State()), Spaces(i), "    ");
        Print("    ");
        i := i + 1;
      }
    }

    /** `PrintString`: runs between the characters to be escaped are written in one piece. */
    method PrintString(v: string, restricted: bool)
      requires Valid()
      modifies buffer, buffer.mem
      ensures Valid() && buffer == old(buffer)
      ensures State() == old(State()).PrintString(v, restricted)
      ensures buffer.mem == old(buffer.mem) || fresh(buffer.mem)
    {
      hide DynArray.Accounted, Escape, PrinterState.Print;
      if !processEntities {
        Print(v);
        return;
      }
      var p, q := 0, 0;
      ghost var st := State();
      PrintsNothing(st);
      assert v[..0] == "" && v[..|v|] == v && Escape("", restricted) == "" by { EscapeNothing(restricted); }
      while q < |v|
        invariant p <= q <= |v|
        invariant Valid() && buffer == old(buffer) && State() == st.Print(Escape(v[..p], restricted))
        invariant buffer.mem == old(buffer.mem) || fresh(buffer.mem)
        invariant forall k | p <= k < q :: !Escaped(v[k], restricted)
      {
        if Flagged(v[q], restricted) {
          EscapeStep(st, v, p, q, restricted);
          Print(v[p..q]);
          Print(EscapeChar(v[q], restricted));
          p := q + 1;
        }
        q := q + 1;
      }
      EscapeEnd(st, v, p, restricted);
      Print(v[p..]);
    }

    /** `SealElementIfJustOpened`. */
    method SealElementIfJustOpened()
      requires Valid()
      modifies this, buffer, buffer.mem
      ensures Valid() && buffer == old(buffer)
      ensures State() == old(State()).Seal()
      ensures buffer.mem == old(buffer.mem) || fresh(buffer.mem)
    {
      hide DynArray.Accounted, Spaces, Escape;
      if !elementJustOpened {
        return;
      }
      elementJustOpened := false;
      Print(">");
    }

    /** The line break and indentation of `PushComment` and its like. */
    method Indent()
      requires Valid()
      modifies this, buffer, buffer.mem
      ensures Valid() && buffer == old(buffer)
      ensures State() == old(State()).Indent()
      ensures buffer.mem == old(buffer.mem) || fresh(buffer.mem)
    {
      hide DynArray.Accounted, Spaces, Escape;
      if textDepth < 0 && !firstElement && !compactMode {
        Print("\n");
        PrintSpace(depth);
      }
    }

    /** The line break in front of a start tag. */
    method NewLine()
      requires Valid()
      modifies this, buffer, buffer.mem
      ensures Valid() && buffer == old(buffer)
      ensures State() == old(State()).NewLine()
      ensures buffer.mem == old(buffer.mem) || fresh(buffer.mem)
    {
      hide DynArray.Accounted, Spaces, Escape;
      if textDepth < 0 && !firstElement && !compactMode {
        Print("\n");
      }
    }

    /** The indentation in front of a start tag. */
    method Pad()
      requires Valid()
      modifies this, buffer, buffer.mem
      ensures Valid() && buffer == old(buffer)
      ensures State() == old(State()).Pad()
      ensures buffer.mem == old(buffer.mem) || fresh(buffer.mem)
    {
      hide DynArray.Accounted, Spaces, Escape;
      if !compactMode {
        PrintSpace(depth);
      }
    }

    /** `OpenElement`. */
    method OpenElement(name: string)
      requires Valid()
      modifies this, buffer, buffer.mem
      ensures Valid() && buffer == old(buffer)
      ensures State() == old(State()).OpenElement(name)
      ensures buffer.mem == old(buffer.mem) || fresh(buffer.mem)
    {
      hide DynArray.Accounted, Spaces, Escape, PrinterState.NewLine, PrinterState.Pad, PrinterState.Seal, PrinterState.Print, PrinterState.Opened;
      SealElementIfJustOpened();
      stack := stack + [name];
      NewLine();
      Pad();
      Print("<" + name);
      Enter();
    }

    /** The flags behind a start tag. */
    method Enter()
      requires Valid()
      modifies this
      ensures Valid() && buffer == old(buffer) && buffer.mem == old(buffer.mem)
      ensures State() == old(State()).Opened()
    {
      elementJustOpened := true;
      firstElement := false;
      depth := depth + 1;
    }

    /** `PushAttribute`. */
    method PushAttribute(name: string, value: string)
      requires Valid()
      modifies this, buffer, buffer.mem
      ensures Valid() && buffer == old(buffer)
      ensures State() == old(State()).PushAttribute(name, value)
      ensures buffer.mem == old(buffer.mem) || fresh(buffer.mem)
    {
      hide DynArray.Accounted, Spaces, Escape;
      Print(" " + name + "=\"");
      PrintString(value, false);
      Print("\"");
    }

    /** The end tag, or the end of the start tag of an element without children. */
    method EndTag(name: string)
      requires Valid()
      modifies this, buffer, buffer.mem
      ensures Valid() && buffer == old(buffer)
      ensures State() == old(State()).EndTag(name)
      ensures buffer.mem == old(buffer.mem) || fresh(buffer.mem)
    {
      hide DynArray.Accounted, Spaces, Escape;
      if elementJustOpened {
        Print("/>");
      } else {
        if textDepth < 0 && !compactMode {
          Print("\n");
          PrintSpace(depth);
        }
        Print("</" + name + ">");
      }
    }

    /** The bookkeeping behind an end tag. */
    method Close()
      requires Valid()
      modifies this, buffer, buffer.mem
      ensures Valid() && buffer == old(buffer)
      ensures State() == old(State()).Closed()
      ensures buffer.mem == old(buffer.mem) || fresh(buffer.mem)
    {
      hide DynArray.Accounted, Spaces, Escape;
      if textDepth == depth {
        textDepth := -1;
      }
      if depth == 0 && !compactMode {
        Print("\n");
      }
      elementJustOpened := false;
    }

    /** `CloseElement`. */
    method CloseElement()
      requires Valid()
      modifies this, buffer, buffer.mem
      ensures Valid() && buffer == old(buffer)
      requires stack != []
      ensures State() == old(State()).CloseElement()
      ensures buffer.mem == old(buffer.mem) || fresh(buffer.mem)
    {
      hide DynArray.Accounted, Spaces, Escape, PrinterState.EndTag, PrinterState.Closed, PrinterState.Print;
      depth := depth - 1;
      var name := stack[|stack| - 1];
      stack := stack[..|stack| - 1];
      EndTag(name);
      Close();
    }

    /** `PushText`. */
    method PushText(text: string, cdata: bool)
      requires Valid()
      modifies this, buffer, buffer.mem
      ensures Valid() && buffer == old(buffer)
      ensures State() == old(State()).PushText(text, cdata)
      ensures buffer.mem == old(buffer.mem) || fresh(buffer.mem)
    {
      hide DynArray.Accounted, Spaces, Escape;
      textDepth := depth - 1;
      SealElementIfJustOpened();
      if cdata {
        Print("<![CDATA[" + text + "]]>");
      } else {
        PrintString(text, true);
      }
    }

    /** `PushComment`, `PushDeclaration` and `PushUnknown`. */
    method PushMarkup(open: string, value: string, close: string)
      requires Valid()
      modifies this, buffer, buffer.mem
      ensures Valid() && buffer == old(buffer)
      ensures State() == old(State()).PushMarkup(open, value, close)
      ensures buffer.mem == old(buffer.mem) || fresh(buffer.mem)
    {
      hide DynArray.Accounted, Spaces, Escape, PrinterState.Seal, PrinterState.Indent, PrinterState.Print;
      SealElementIfJustOpened();
      Indent();
      firstElement := false;
      Print(open + value + close);
    }

    /** The flag table's answer, for characters below its range. */
    predicate Flagged(c: char, restricted: bool)
      requires Valid()
      reads this, buffer, buffer.mem
      ensures Flagged(c, restricted) <==> Escaped(c, restricted)
    {
      0 < c as int < ENTITY_RANGE && (if restricted then restrictedEntityFlag else entityFlag)[c as int]
    }
  }

  lemma {:induction false} JoinedAt(mem: array<char>, at: nat, a: string, b: string)
    requires at + |b| <= mem.Length && mem[..at] == a && mem[at..at + |b|] == b
    ensures mem[..at + |b|] == a + b
  {
  }

  /** Writes a C string into memory. */
  method WriteString(mem: array<char>, at: nat, s: string)
    requires at + |s| < mem.Length
    modifies mem
    ensures mem[..at] == old(mem[..at]) && mem[at..at + |s|] == s && mem[at + |s|] == NUL
  {
    var k := 0;
    while k < |s|
      invariant k <= |s|
      invariant mem[..at] == old(mem[..at]) && mem[at..at + k] == s[..k]
    {
      mem[at + k] := s[k];
      k := k + 1;
    }
    mem[at + |s|] := NUL;
  }

  lemma {:induction false} PrintsNothing(st: PrinterState)
    ensures st.Print("") == st && st.Print(Spaces(0)) == st && st.Print(Escape("", true)) == st && st.Print(Escape("", false)) == st
  {
    assert st.out + "" == st.out;
  }

  lemma {:induction false} PrintsTwice(st: PrinterState, a: string, b: string)
    ensures st.Print(a).Print(b) == st.Print(a + b)
  {
    ConcatAssociative(st.out, a, b);
  }

  /** A run without characters to be escaped is written as it is. */
  lemma {:induction false} EscapeRun(v: string, p: nat, q: nat, restricted: bool)
    requires p <= q <= |v| && forall k | p <= k < q :: !Escaped(v[k], restricted)
    ensures Escape(v[..q], restricted) == Escape(v[..p], restricted) + v[p..q]
    decreases q - p
  {
    hide Escape;
    if p < q {
      EscapeRun(v, p, q - 1, restricted);
      EscapeOne(v, q - 1, restricted);
      assert v[p..q] == v[p..q - 1] + [v[q - 1]];
      ConcatAssociative(Escape(v[..p], restricted), v[p..q - 1], [v[q - 1]]);
    }
  }

  /** A run and the character after it, printed one after the other. */
  lemma {:induction false} EscapeStep(st: PrinterState, v: string, p: nat, q: nat, restricted: bool)
    requires p <= q < |v| && forall k | p <= k < q :: !Escaped(v[k], restricted)
    ensures st.Print(Escape(v[..p], restricted)).Print(v[p..q]).Print(EscapeChar(v[q], restricted))
      == st.Print(Escape(v[..q + 1], restricted))
  {
    hide Escape, PrinterState.Print;
    EscapeRun(v, p, q, restricted);
    EscapeOne(v, q, restricted);
    PrintsTwice(st, Escape(v[..p], restricted), v[p..q]);
    PrintsTwice(st, Escape(v[..q], restricted), EscapeChar(v[q], restricted));
  }

  lemma {:induction false} EscapeEnd(st: PrinterState, v: string, p: nat, restricted: bool)
    requires p <= |v| && forall k | p <= k < |v| :: !Escaped(v[k], restricted)
    ensures st.Print(Escape(v[..p], restricted)).Print(v[p..]) == st.Print(Escape(v, restricted))
  {
    hide Escape, PrinterState.Print;
    EscapeRun(v, p, |v|, restricted);
    assert v[..|v|] == v && v[p..|v|] == v[p..];
    PrintsTwice(st, Escape(v[..p], restricted), v[p..]);
  }

  lemma {:induction false} EscapeOne(v: string, q: nat, restricted: bool)
    requires q < |v|
    ensures Escape(v[..q + 1], restricted) == Escape(v[..q], restricted) + EscapeChar(v[q], restricted)
  {
    assert v[..q + 1] == v[..q] + [v[q]];
    EscapeAppend(v[..q], [v[q]], restricted);
    assert [v[q]][1..] == "";
  }

  /** Which characters a flag table marks. */
  ghost predicate FlagsSet(flags: seq<bool>, restricted: bool) {
    |flags| == ENTITY_RANGE && forall k | 0 <= k < ENTITY_RANGE :: flags[k] <==> Escaped(k as char, restricted)
  }
}
