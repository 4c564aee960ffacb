/**
 What the text of a document means, written down without the decoder: pieces such as characters,
 line ends, entities and numeric references, each with its spelling and its meaning.  The decoder
 turns the spelling of any sequence of pieces into its meaning.
 */
module XmlPieces {
  import opened Wrappers
  import opened XmlText
  import opened XmlDecode
  import opened XmlNumbers
  import opened XmlParserSpec
  import opened XmlPrinterSpec
  import opened XmlEscape

  // ------------------------------------------------------------- digits and entities

  const LOWER := "01234567" + "89abcdef"
  const UPPER := "01234567" + "89ABCDEF"

  /** The digits of both bases, by their places in the table. */
  lemma DigitTable(d: nat, base: nat)
    requires (base == 10 || base == 16) && d < base
    ensures |LOWER| == |UPPER| == 16
    ensures DigitOf(LOWER[d], base) == Some(d) == DigitOf(UPPER[d], base)
  {
  }

  /** Nothing else is a digit. */
  lemma OnlyDigits(c: char, base: nat)
    requires (base == 10 || base == 16) && DigitOf(c, base).Some?
    ensures |LOWER| == |UPPER| == 16
    ensures DigitOf(c, base).value < base && (c == LOWER[DigitOf(c, base).value] || c == UPPER[DigitOf(c, base).value])
  {
  }

  /** The five predefined entities of XML 1.0, section 4.6. */
  predicate Predefined(name: string, c: char) {
    || (name == "lt" && c == '<') || (name == "gt" && c == '>') || (name == "amp" && c == '&')
    || (name == "apos" && c == '\'') || (name == "quot" && c == '"')
  }

  // ------------------------------------------------------------- pieces

  datatype Piece =
    | Plain(c: char)
    | LineEnd(e: string)
    | Entity(name: string, c: char)
    | Numeric(base: nat, digits: seq<nat>, upper: bool)

  predicate IsLineEnd(e: string) {
    e == "\r\n" || e == "\n\r" || e == "\r" || e == "\n"
  }

  /** The value of digits, the first one most significant. */
  function NumberOf(base: nat, digits: seq<nat>): nat
    decreases |digits|
  {
    if digits == [] then 0 else NumberOf(base, digits[..|digits| - 1]) * base + digits[|digits| - 1]
  }

  function DigitString(digits: seq<nat>, upper: bool): (r: string)
    requires forall k | 0 <= k < |digits| :: digits[k] < 16
    ensures |r| == |digits|
  {
    assert |LOWER| == |UPPER| == 16;
    seq(|digits|, k requires 0 <= k < |digits| => if upper then UPPER[digits[k]] else LOWER[digits[k]])
  }

  predicate GoodPiece(p: Piece, f: Flags) {
    match p
    case Plain(c) => (f.newlines ==> c != CR && c != LF) && (f.entities ==> c != '&')
    case LineEnd(e) => f.newlines && IsLineEnd(e)
    case Entity(name, c) => f.entities && Predefined(name, c)
    case Numeric(base, digits, _) =>
      && f.entities && (base == 10 || base == 16) && NumberOf(base, digits) < TWO_32
      && forall k | 0 <= k < |digits| :: digits[k] < base
  }

  function Spelled(p: Piece): string
    requires p.Numeric? ==> forall k | 0 <= k < |p.digits| :: p.digits[k] < 16
  {
    match p
    case Plain(c) => [c]
    case LineEnd(e) => e
    case Entity(name, _) => "&" + name + ";"
    case Numeric(base, digits, upper) => (if base == 16 then "&#x" else "&#") + DigitString(digits, upper) + ";"
  }

  function Meant(p: Piece): string {
    match p
    case Plain(c) => [c]
    case LineEnd(_) => "\n"
    case Entity(_, c) => [c]
    case Numeric(base, digits, _) => Utf8(NumberOf(base, digits))
  }

  /** A line end of one character is not followed by one it would make a pair with. */
  predicate Separate(p: Piece, next: Piece) {
    p.LineEnd? && next.LineEnd? && next.e != "" ==> p.e + [next.e[0]] != "\r\n" && p.e + [next.e[0]] != "\n\r"
  }

  predicate GoodPieces(ps: seq<Piece>, f: Flags) {
    ps != [] ==> GoodPiece(ps[0], f) && (|ps| > 1 ==> Separate(ps[0], ps[1])) && GoodPieces(ps[1..], f)
  }

  function SpelledAll(ps: seq<Piece>, f: Flags): string
    requires GoodPieces(ps, f)
  {
    if ps == [] then "" else Spelled(ps[0]) + SpelledAll(ps[1..], f)
  }

  function MeantAll(ps: seq<Piece>): string {
    if ps == [] then "" else Meant(ps[0]) + MeantAll(ps[1..])
  }

  // ------------------------------------------------------------- one piece

  lemma {:induction false} DigitsSpelled(base: nat, digits: seq<nat>, upper: bool)
    requires base == 10 || base == 16
    requires forall k | 0 <= k < |digits| :: digits[k] < base
    ensures var ds := DigitString(digits, upper);
      Digits(ds, 0, |ds|, base) && Numeral(ds, 0, |ds|, base) == NumberOf(base, digits)
    decreases |digits|
  {
    hide DigitOf;
    var ds := DigitString(digits, upper);
    forall k | 0 <= k < |ds| ensures DigitOf(ds[k], base) == Some(digits[k]) {
      DigitTable(digits[k], base);
    }
    if digits != [] {
      var n := |digits| - 1;
      DigitsSpelled(base, digits[..n], upper);
      assert DigitString(digits[..n], upper) == ds[..n];
      NumeralFront(ds, n, base);
    }
  }

  lemma {:induction false} NumeralFront(ds: string, n: nat, base: nat)
    requires n <= |ds| && Digits(ds, 0, |ds|, base)
    ensures Digits(ds, 0, n, base) && Digits(ds[..n], 0, n, base) && Numeral(ds, 0, n, base) == Numeral(ds[..n], 0, n, base)
  {
    hide DigitOf;
    assert forall k | 0 <= k < n :: ds[..n][k] == ds[k];
    FrontFrom(ds, n, n, base);
  }

  lemma {:induction false} FrontFrom(ds: string, n: nat, m: nat, base: nat)
    requires m <= n <= |ds| && Digits(ds, 0, n, base) && Digits(ds[..n], 0, n, base)
    ensures Digits(ds, 0, m, base) && Digits(ds[..n], 0, m, base) && Numeral(ds, 0, m, base) == Numeral(ds[..n], 0, m, base)
  {
    hide DigitOf;
    if m > 0 {
      FrontFrom(ds, n, m - 1, base);
      assert ds[..n][m - 1] == ds[m - 1];
    }
  }

  lemma EntityMatched(s: string, p: nat, name: string, c: char, f: Flags)
    requires f.entities && Predefined(name, c) && Matches(s, p, "&" + name + ";")
    ensures p < |s| && DecodeStep(s, p, f) == Step(p + |name| + 2, [c], false)
  {
    hide EntityAt, GetCharacterRef;
    assert EscapeChar(c, false) == "&" + name + ";";
    MatchesChar(s, p, "&" + name + ";", 0);
    EntityRead(s, p, c, false);
  }

  lemma NumericMatched(s: string, p: nat, base: nat, digits: seq<nat>, upper: bool, f: Flags)
    requires GoodPiece(Numeric(base, digits, upper), f) && Matches(s, p, Spelled(Numeric(base, digits, upper)))
    ensures p < |s|
    ensures DecodeStep(s, p, f) == Step(p + |Spelled(Numeric(base, digits, upper))|, Utf8(NumberOf(base, digits)), false)
  {
    hide EntityAt, GetCharacterRef, Utf8, Matches, Digits, Numeral, DigitString, NumberOf;
    var ds := DigitString(digits, upper);
    DigitsSpelled(base, digits, upper);
    assert Spelled(Numeric(base, digits, upper)) == Opening(base) + ds + ";";
    var u := ReferenceValue(s, p, ds, base);
    MatchesChar(s, p, Opening(base) + ds + ";", 0);
  }

  /** What a piece begins with. */
  lemma SpelledFirst(p: Piece, f: Flags)
    requires GoodPiece(p, f)
    ensures Spelled(p) != ""
    ensures match p
      case Plain(c) => Spelled(p)[0] == c
      case LineEnd(e) => Spelled(p)[0] == e[0]
      case _ => Spelled(p)[0] == '&'
  {
    hide DigitString;
  }

  lemma LineEndMatched(s: string, p: nat, e: string, f: Flags)
    requires f.newlines && IsLineEnd(e) && Matches(s, p, e)
    requires |e| == 1 ==> e + [At(s, p + 1)] != "\r\n" && e + [At(s, p + 1)] != "\n\r"
    ensures p < |s| && DecodeStep(s, p, f) == Step(p + |e|, "\n", false)
  {
    MatchesChar(s, p, e, 0);
    if |e| == 2 {
      MatchesChar(s, p, e, 1);
    }
  }

  lemma RestMatched(s: string, p: nat, a: string, b: string)
    requires p <= |s| && s[p..] == a + b
    ensures Matches(s, p, a) && p + |a| <= |s| && s[p + |a|..] == b
  {
    assert s[p..p + |a|] == s[p..][..|a|] == a;
    assert s[p + |a|..] == s[p..][|a|..] == b;
  }

  /** The decoder takes one piece at a time. */
  lemma {:induction false} PieceStep(ps: seq<Piece>, f: Flags, s: string, p: nat)
    requires ps != [] && GoodPieces(ps, f) && p <= |s| && s[p..] == SpelledAll(ps, f)
    ensures var q := p + |Spelled(ps[0])|;
      && p < q <= |s| && s[q..] == SpelledAll(ps[1..], f)
      && DecodeStep(s, p, f) == Step(q, Meant(ps[0]), false)
  {
    hide EntityAt, GetCharacterRef, Matches, Spelled, Utf8, NumberOf, DigitString;
    RestMatched(s, p, Spelled(ps[0]), SpelledAll(ps[1..], f));
    SpelledFirst(ps[0], f);
    match ps[0]
    case Plain(c) =>
      SpelledPlain(c);
      MatchesChar(s, p, [c], 0);
      PlainStep(s, p, f);
    case LineEnd(e) =>
      SpelledLineEnd(e);
      if |e| == 1 {
        AfterLineEnd(ps, f, s, p);
      }
      LineEndMatched(s, p, e, f);
    case Entity(name, c) =>
      SpelledEntity(name, c);
      EntityMatched(s, p, name, c, f);
    case Numeric(base, digits, upper) =>
      NumericMatched(s, p, base, digits, upper, f);
  }

  lemma SpelledPlain(c: char)
    ensures Spelled(Plain(c)) == [c]
  {
  }

  lemma SpelledLineEnd(e: string)
    ensures Spelled(LineEnd(e)) == e
  {
  }

  lemma SpelledEntity(name: string, c: char)
    ensures Spelled(Entity(name, c)) == "&" + name + ";"
  {
  }

  lemma PlainStep(s: string, p: nat, f: Flags)
    requires p < |s| && (f.newlines ==> s[p] != CR && s[p] != LF) && (f.entities ==> s[p] != '&')
    ensures DecodeStep(s, p, f) == Step(p + 1, [s[p]], false)
  {
  }

  lemma {:induction false} AfterLineEnd(ps: seq<Piece>, f: Flags, s: string, p: nat)
    requires ps != [] && GoodPieces(ps, f) && ps[0].LineEnd? && |ps[0].e| == 1
    requires p + 1 <= |s| && s[p + 1..] == SpelledAll(ps[1..], f)
    ensures ps[0].e + [At(s, p + 1)] != "\r\n" && ps[0].e + [At(s, p + 1)] != "\n\r"
  {
    hide Spelled;
    if |ps| > 1 {
      SpelledFirst(ps[1], f);
      assert s[p + 1..][0] == s[p + 1] == Spelled(ps[1])[0];
      OtherCharacter(ps[0].e, At(s, p + 1));
      if ps[1].LineEnd? {
        assert ps[1].e[0] == s[p + 1];
      }
    } else {
      OtherCharacter(ps[0].e, NUL);
    }
  }

  lemma OtherCharacter(e: string, c: char)
    requires |e| == 1
    ensures c != LF && c != CR ==> e + [c] != "\r\n" && e + [c] != "\n\r"
  {
    assert (e + [c])[1] == c;
  }

  // ------------------------------------------------------------- whole texts

  lemma {:induction false} PiecesFrom(ps: seq<Piece>, f: Flags, s: string, p: nat, out: string)
    requires GoodPieces(ps, f) && |out| <= p <= |s| && s[p..] == SpelledAll(ps, f)
    ensures DecodeFrom(s, p, out, f) == out + MeantAll(ps)
    decreases |ps|
  {
    hide DecodeStep, Spelled, Meant;
    if ps == [] {
      assert out + "" == out;
    } else {
      PieceStep(ps, f, s, p);
      var q := p + |Spelled(ps[0])|;
      PiecesFrom(ps[1..], f, s, q, out + Meant(ps[0]));
      ConcatAssociative(out, Meant(ps[0]), MeantAll(ps[1..]));
    }
  }

  /** Main result: pieces of text, however they are put together, are decoded to what they mean. */
  lemma {:induction false} PiecesDecoded(ps: seq<Piece>, f: Flags)
    requires GoodPieces(ps, f)
    ensures Decoded(SpelledAll(ps, f), f) == MeantAll(ps)
    ensures f != PLAIN ==> var v := CStr(MeantAll(ps));
      Value(SpelledAll(ps, f), f) == if f.collapse then JoinWords(Words(v, 0)) else v
  {
    hide DecodeFrom, Collapse, Words;
    var s := SpelledAll(ps, f);
    assert s[0..] == s;
    PiecesFrom(ps, f, s, 0, "");
    assert "" + MeantAll(ps) == MeantAll(ps);
    CollapseJoinsWords(CStr(MeantAll(ps)));
  }

  // ------------------------------------------------------------- lines

  /** Lines with `e` between them. */
  function Lines(ls: seq<string>, e: string): string {
    if ls == [] then "" else if |ls| == 1 then ls[0] else ls[0] + e + Lines(ls[1..], e)
  }

  /** The characters of a line. */
  ghost predicate OneLine(l: string, f: Flags) {
    forall k | 0 <= k < |l| :: l[k] != CR && l[k] != LF && l[k] != NUL && (f.entities ==> l[k] != '&')
  }

  function PlainPieces(l: string, rest: seq<Piece>): seq<Piece> {
    if l == "" then rest else [Plain(l[0])] + PlainPieces(l[1..], rest)
  }

  lemma {:induction false} PlainPiecesGood(l: string, rest: seq<Piece>, f: Flags)
    requires OneLine(l, f) && GoodPieces(rest, f)
    ensures var ps := PlainPieces(l, rest);
      && GoodPieces(ps, f) && SpelledAll(ps, f) == l + SpelledAll(rest, f) && MeantAll(ps) == l + MeantAll(rest)
      && (l != "" ==> ps != [] && ps[0].Plain?)
  {
    if l == "" {
      assert "" + SpelledAll(rest, f) == SpelledAll(rest, f) && "" + MeantAll(rest) == MeantAll(rest);
    } else {
      var ps' := PlainPieces(l[1..], rest);
      PlainPiecesGood(l[1..], rest, f);
      assert ([Plain(l[0])] + ps')[1..] == ps';
      assert l == [l[0]] + l[1..];
      ConcatAssociative([l[0]], l[1..], SpelledAll(rest, f));
      ConcatAssociative([l[0]], l[1..], MeantAll(rest));
    }
  }

  function LinePieces(ls: seq<string>, e: string): seq<Piece> {
    if ls == [] then []
    else PlainPieces(ls[0], if |ls| == 1 then [] else [LineEnd(e)] + LinePieces(ls[1..], e))
  }

  lemma {:induction false} LinePiecesGood(ls: seq<string>, e: string, f: Flags)
    requires f.newlines && IsLineEnd(e) && forall l | l in ls :: OneLine(l, f)
    ensures var ps := LinePieces(ls, e);
      && GoodPieces(ps, f) && SpelledAll(ps, f) == Lines(ls, e) && MeantAll(ps) == Lines(ls, "\n")
      && (ps != [] && ps[0].LineEnd? ==> ps[0].e == e)
  {
    hide OneLine;
    if ls != [] {
      assert OneLine(ls[0], f);
      if |ls| == 1 {
        PlainPiecesGood(ls[0], [], f);
        assert ls[0] + "" == ls[0];
      } else {
        var ps' := LinePieces(ls[1..], e);
        LinePiecesGood(ls[1..], e, f);
        var rest := [LineEnd(e)] + ps';
        assert rest[1..] == ps';
        Apart(e);
        assert GoodPieces(rest, f);
        PlainPiecesGood(ls[0], rest, f);
        ConcatAssociative(ls[0], e, Lines(ls[1..], e));
        ConcatAssociative(ls[0], "\n", Lines(ls[1..], "\n"));
      }
    }
  }

  lemma Apart(e: string)
    requires IsLineEnd(e)
    ensures Separate(LineEnd(e), LineEnd(e))
  {
    assert (e + [e[0]])[0] == e[0] && (e + [e[0]])[|e|] == e[0];
  }

  lemma {:induction false} LinesNulFree(ls: seq<string>, f: Flags)
    requires forall l | l in ls :: OneLine(l, f)
    ensures NulFree(Lines(ls, "\n"))
  {
    if |ls| > 1 {
      assert OneLine(ls[0], f);
      LinesNulFree(ls[1..], f);
    } else if |ls| == 1 {
      assert OneLine(ls[0], f);
    }
  }

  /** Whatever the line ends of a file are, what is read of markup has line feeds only. */
  lemma {:induction false} LinesNormal(ls: seq<string>, e: string)
    requires IsLineEnd(e) && forall l | l in ls :: OneLine(l, MARKUP_FLAGS)
    ensures Normal(Lines(ls, e)) == Lines(ls, "\n")
  {
    hide OneLine, Lines, Decoded;
    LinePiecesGood(ls, e, MARKUP_FLAGS);
    PiecesDecoded(LinePieces(ls, e), MARKUP_FLAGS);
  }

  /** The same of texts and attribute values without references, under all options. */
  lemma {:induction false} LinesRead(ls: seq<string>, e: string, f: Flags)
    requires f.newlines && IsLineEnd(e) && forall l | l in ls :: OneLine(l, f)
    ensures var t := Lines(ls, "\n"); Value(Lines(ls, e), f) == if f.collapse then JoinWords(Words(t, 0)) else t
  {
    hide OneLine, Lines, Decoded, Words;
    LinePiecesGood(ls, e, f);
    PiecesDecoded(LinePieces(ls, e), f);
    LinesNulFree(ls, f);
    CStrOfNulFree(Lines(ls, "\n"));
  }

  // ------------------------------------------------------------- every text is lines

  /** Every text without references consists of pieces: nothing is left out above. */
  lemma {:induction false} AllPieces(s: string, f: Flags) returns (ps: seq<Piece>)
    requires f.newlines && (f.entities ==> forall k | 0 <= k < |s| :: s[k] != '&')
    ensures GoodPieces(ps, f) && SpelledAll(ps, f) == s
    ensures ps != [] && ps[0].LineEnd? ==> s != "" && ps[0].e[0] == s[0]
    decreases |s|
  {
    if s == "" {
      ps := [];
    } else if s[0] != CR && s[0] != LF {
      RestFree(s, 1, f);
      var rest := AllPieces(s[1..], f);
      ps := [Plain(s[0])] + rest;
      assert ps[1..] == rest && s == [s[0]] + s[1..];
    } else {
      var n := if |s| > 1 && (s[1] == CR || s[1] == LF) && s[1] != s[0] then 2 else 1;
      var e := s[..n];
      RestFree(s, n, f);
      var rest := AllPieces(s[n..], f);
      ps := [LineEnd(e)] + rest;
      assert ps[1..] == rest && s == e + s[n..];
      FirstLineEnd(s, n);
    }
  }

  lemma RestFree(s: string, n: nat, f: Flags)
    requires n <= |s| && (f.entities ==> forall k | 0 <= k < |s| :: s[k] != '&')
    ensures f.entities ==> forall k | 0 <= k < |s[n..]| :: s[n..][k] != '&'
  {
  }

  lemma FirstLineEnd(s: string, n: nat)
    requires s != "" && (s[0] == CR || s[0] == LF)
    requires n == if |s| > 1 && (s[1] == CR || s[1] == LF) && s[1] != s[0] then 2 else 1
    ensures IsLineEnd(s[..n]) && s[..n][0] == s[0]
    ensures n == 1 && |s| > 1 ==> s[..1] + [s[1]] != "\r\n" && s[..1] + [s[1]] != "\n\r"
    ensures n == 2 ==> forall c: char :: s[..2] + [c] != "\r\n" && s[..2] + [c] != "\n\r"
  {
    if n == 1 && |s| > 1 {
      assert (s[..1] + [s[1]])[0] == s[0] && (s[..1] + [s[1]])[1] == s[1];
    }
    if n == 2 {
      assert s[..2] == "\r\n" || s[..2] == "\n\r";
      forall c: char ensures s[..2] + [c] != "\r\n" && s[..2] + [c] != "\n\r" {
        assert |s[..2] + [c]| == 3;
      }
    }
  }

  // ------------------------------------------------------------- references that are none

  /** Every ampersand starts a numeric reference that has at least a first character. */
  predicate OnlyNumeric(s: string) {
    forall k | 0 <= k < |s| && s[k] == '&' :: At(s, k + 1) == '#' && At(s, k + 2) != NUL
  }

  lemma {:induction false} UnfinishedFrom(s: string, p: nat, f: Flags)
    requires p <= |s| && OnlyNumeric(s) && forall k | 0 <= k < |s| :: s[k] != ';' && s[k] != CR && s[k] != LF
    ensures DecodeFrom(s, p, s[..p], f) == s
    decreases |s| - p
  {
    if p == |s| {
      assert s[..p] == s;
    } else {
      if s[p] == '&' {
        assert At(s, p + 1) == '#' && At(s, p + 2) != NUL;
        assert FindSemicolon(s, p + 2) == None && FindSemicolon(s, p + 3) == None;
        assert GetCharacterRef(s, p) == None;
      }
      assert DecodeStep(s, p, f) == Step(p + 1, [s[p]], false);
      UnfinishedFrom(s, p + 1, f);
      assert s[..p + 1] == s[..p] + [s[p]];
    }
  }

  /** Numeric references that never end are left as they are. */
  lemma {:induction false} UnfinishedKept(s: string, f: Flags)
    requires OnlyNumeric(s) && forall k | 0 <= k < |s| :: s[k] != ';' && s[k] != CR && s[k] != LF
    ensures Decoded(s, f) == s
  {
    UnfinishedFrom(s, 0, f);
    assert s[..0] == "";
  }

  // ------------------------------------------------------------- characters and lines

  /** What is written for a character: the entity predefined for it, or the character itself. */
  lemma WrittenAs(c: char, restricted: bool, name: string)
    ensures (exists n :: Predefined(n, c)) <==> c == '<' || c == '>' || c == '&' || c == '\'' || c == '"'
    ensures Predefined(name, c) && !(restricted && (c == '"' || c == '\'')) ==> EscapeChar(c, restricted) == "&" + name + ";"
    ensures (restricted && (c == '"' || c == '\'')) || !(exists n :: Predefined(n, c)) ==> EscapeChar(c, restricted) == [c]
  {
    if c == '<' { assert Predefined("lt", c); }
    if c == '>' { assert Predefined("gt", c); }
    if c == '&' { assert Predefined("amp", c); }
    if c == '\'' { assert Predefined("apos", c); }
    if c == '"' { assert Predefined("quot", c); }
  }

  const SPACES := " \t\n\r" + [11 as char, 12 as char]
  const LETTERS := "abcdefghijklm" + "nopqrstuvwxyz"
  const CAPITALS := "ABCDEFGHIJKLM" + "NOPQRSTUVWXYZ"
  const DIGITS := "0123456789"

  lemma SpaceIs(c: char)
    ensures IsWhiteSpace(c) <==> c in SPACES
  {
    assert |SPACES| == 6;
    if IsWhiteSpace(c) {
      assert c == SPACES[0] || c == SPACES[1] || c == SPACES[2] || c == SPACES[3] || c == SPACES[4] || c == SPACES[5];
    }
  }

  lemma LetterIs(c: char)
    ensures 'a' <= c <= 'z' <==> c in LETTERS
  {
    assert |LETTERS| == 26;
    assert forall k | 0 <= k < 26 :: LETTERS[k] == 'a' + k as char;
    if 'a' <= c <= 'z' { assert c == LETTERS[c as int - 'a' as int]; }
  }

  lemma CapitalIs(c: char)
    ensures 'A' <= c <= 'Z' <==> c in CAPITALS
  {
    assert |CAPITALS| == 26;
    assert forall k | 0 <= k < 26 :: CAPITALS[k] == 'A' + k as char;
    if 'A' <= c <= 'Z' { assert c == CAPITALS[c as int - 'A' as int]; }
  }

  lemma DigitIs(c: char)
    ensures '0' <= c <= '9' <==> c in DIGITS
  {
    assert |DIGITS| == 10;
    assert forall k | 0 <= k < 10 :: DIGITS[k] == '0' + k as char;
    if '0' <= c <= '9' { assert c == DIGITS[c as int - '0' as int]; }
  }

  /** Whitespace, and what a name begins with and goes on with: bytes of multi-byte characters always do. */
  lemma CharacterClasses(c: char)
    ensures IsWhiteSpace(c) <==> c in SPACES
    ensures IsNameStartChar(c) <==> c as int >= 0x80 || c in LETTERS || c in CAPITALS || c == ':' || c == '_'
    ensures IsNameChar(c) <==> IsNameStartChar(c) || c in DIGITS || c == '.' || c == '-'
  {
    SpaceIs(c);
    LetterIs(c);
    CapitalIs(c);
    DigitIs(c);
    hide IsWhiteSpace, SPACES, LETTERS, CAPITALS, DIGITS;
  }

  /** The line counter at the end of a text is the number of its lines. */
  lemma {:induction false} LineOfLines(ls: seq<string>)
    requires ls != [] && forall l | l in ls :: forall k | 0 <= k < |l| :: l[k] != LF
    ensures var t := Lines(ls, "\n"); LineAt(t, |t|) == |ls|
  {
    LinesBefore(ls, "", 0);
    assert "" + Lines(ls, "\n") == Lines(ls, "\n");
  }

  lemma {:induction false} LinesBefore(ls: seq<string>, front: string, n: nat)
    requires ls != [] && forall l | l in ls :: forall k | 0 <= k < |l| :: l[k] != LF
    requires LineAt(front, |front|) == n + 1
    ensures var t := front + Lines(ls, "\n"); LineAt(t, |t|) == n + |ls|
  {
    var l := ls[0];
    assert l in ls;
    if |ls| == 1 {
      LineGoesOn(front + l, |front|, front);
    } else {
      var f := front + l + "\n";
      LineGoesOn(f, |front|, front);
      assert LineAt(f, |front| + |l|) == n + 1;
      assert f[|f| - 1] == LF;
      LinesBefore(ls[1..], f, n + 1);
      assert front + (l + "\n" + Lines(ls[1..], "\n")) == f + Lines(ls[1..], "\n");
    }
  }

  /** The counter does not change over a stretch without line feeds, whatever comes later. */
  lemma {:induction false} LineGoesOn(t: string, i: nat, front: string)
    requires i == |front| <= |t| && front <= t
    ensures LineAt(t, i) == LineAt(front, i)
    ensures forall j | i <= j <= |t| && (forall k | i <= k < j :: t[k] != LF) :: LineAt(t, j) == LineAt(t, i)
  {
    LineOfFront(t, front, i);
    forall j | i <= j <= |t| && (forall k | i <= k < j :: t[k] != LF) ensures LineAt(t, j) == LineAt(t, i) {
      NoFeed(t, i, j);
    }
  }

  lemma {:induction false} NoFeed(t: string, i: nat, j: nat)
    requires i <= j <= |t| && forall k | i <= k < j :: t[k] != LF
    ensures LineAt(t, j) == LineAt(t, i)
    decreases j - i
  {
    if i < j {
      NoFeed(t, i, j - 1);
    }
  }

  lemma {:induction false} LineOfFront(t: string, front: string, i: nat)
    requires front <= t && i <= |front|
    ensures LineAt(t, i) == LineAt(front, i)
  {
    if i > 0 {
      LineOfFront(t, front, i - 1);
    }
  }
}
