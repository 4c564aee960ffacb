/**
 What a `StrPair` turns its bytes into: character references, the five predefined
 entities, newline normalisation and whitespace collapsing.

 `Decoded` says exactly which bytes `StrPair::GetStr` leaves behind, including its
 branch for an ampersand that starts no entity, which steps the write cursor over a
 byte without writing it.  `Ideal` is the same decoder out of place, where that branch
 copies the ampersand.
 */
module XmlDecode {
  import opened Wrappers
  import opened XmlText

  const TWO_32: nat := 0x1_0000_0000

  /** The flags of a `StrPair` other than its ownership bit. */
  datatype Flags = Flags(entities: bool, newlines: bool, collapse: bool)

  const PLAIN := Flags(false, false, false)

  // ------------------------------------------------------------- UTF-8

  /** A byte made of high bits `mark` and a payload. */
  function ByteOf(mark: nat, payload: nat): char
    requires mark + payload < 256
  {
    (mark + payload) as char
  }

  function Continuation(u: nat): char {
    ByteOf(0x80, u % 64)
  }

  /** `XMLUtil::ConvertUTF32ToUTF8`; a value of 0x200000 or more gives nothing. */
  function Utf8(u: nat): (r: string)
    ensures |r| <= 4
  {
    if u < 0x80 then [ByteOf(0, u)]
    else if u < 0x800 then [ByteOf(0xC0, u / 64), Continuation(u)]
    else if u < 0x10000 then [ByteOf(0xE0, u / 4096), Continuation(u / 64), Continuation(u)]
    else if u < 0x20_0000 then
      [ByteOf(0xF0, u / 0x40000), Continuation(u / 4096), Continuation(u / 64), Continuation(u)]
    else ""
  }

  // ------------------------------------------------------------- numeric references

  /** `strchr( q, ';' )`: stops at the terminator. */
  function FindSemicolon(s: string, i: nat): (r: Option<nat>)
    ensures r.Some? ==> i <= r.value < |s| && s[r.value] == ';'
    ensures r.Some? ==> forall k | i <= k < r.value :: s[k] != NUL && s[k] != ';'
    decreases |s| - i
  {
    if i >= |s| || s[i] == NUL then None
    else if s[i] == ';' then Some(i)
    else FindSemicolon(s, i + 1)
  }

  /** The value of one digit, in the given base (10 or 16). */
  function DigitOf(c: char, base: nat): (d: Option<nat>)
    ensures d.Some? ==> d.value < base || base < 10
  {
    if '0' <= c <= '9' then Some(c as int - '0' as int)
    else if base == 16 && 'a' <= c <= 'f' then Some(c as int - 'a' as int + 10)
    else if base == 16 && 'A' <= c <= 'F' then Some(c as int - 'A' as int + 10)
    else None
  }

  /**
   The digit loop: it reads from the semicolon back to the nearest `stop` character,
   scaling by a 32-bit multiplier that wraps around.
   */
  function ScanBack(s: string, q: nat, stop: char, base: nat, mult: nat, ucs: nat, ghost lo: nat): (r: Option<nat>)
    requires lo <= q < |s| && s[lo] == stop
    decreases q
  {
    if s[q] == stop then Some(ucs)
    else match DigitOf(s[q], base)
      case None => None
      case Some(digit) =>
        ScanBack(s, q - 1, stop, base, mult * base % TWO_32, ucs + mult * digit % TWO_32, lo)
  }

  /** A decoding step: the bytes it stands for and where reading resumes. */
  datatype Ref = Ref(next: nat, bytes: string)

  /** `XMLUtil::GetCharacterRef` on the `&#` at offset `p`; `None` is its null result. */
  function GetCharacterRef(s: string, p: nat): (r: Option<Ref>)
    requires p + 1 < |s| && s[p + 1] == '#'
    ensures r.Some? ==> p < r.value.next <= |s| && |r.value.bytes| <= r.value.next - p
  {
    if At(s, p + 2) == NUL then Some(Ref(p + 1, ""))
    else
      var hex := s[p + 2] == 'x';
      var first := if hex then p + 3 else p + 2;
      var base := if hex then 16 else 10;
      if At(s, first) == NUL then None
      else match FindSemicolon(s, first)
        case None => None
        case Some(semi) =>
          match ScanBack(s, semi - 1, s[first - 1], base, 1, 0, first - 1)
          case None => None
          case Some(ucs) =>
            Some(Ref(semi + 1, Utf8(ucs)))
  }

  // ------------------------------------------------------------- entities

  const PATTERNS: seq<string> := ["quot", "amp", "apos", "lt", "gt"]
  const VALUES: string := "\"&'<>"

  /** The first entity, in table order from `i`, that the text at `p` spells out. */
  function EntityAt(s: string, p: nat, i: nat): (r: Option<nat>)
    requires i <= 5
    ensures r.Some? ==> r.value < 5 && p + |PATTERNS[r.value]| + 2 <= |s|
    decreases 5 - i
  {
    if i == 5 then None
    else if Matches(s, p + 1, PATTERNS[i]) && At(s, p + |PATTERNS[i]| + 1) == ';' then Some(i)
    else EntityAt(s, p, i + 1)
  }

  // ------------------------------------------------------------- one step of GetStr

  /** `stale` marks the branch that moves the write cursor without writing. */
  datatype Step = Step(next: nat, bytes: string, stale: bool)

  function DecodeStep(s: string, p: nat, f: Flags): (r: Step)
    requires p < |s|
    ensures p < r.next <= |s| && |r.bytes| <= r.next - p
    ensures r.stale ==> r == Step(p + 1, "&", true) && s[p] == '&'
  {
    if f.newlines && s[p] == CR then
      Step(if At(s, p + 1) == LF then p + 2 else p + 1, [LF], false)
    else if f.newlines && s[p] == LF then
      Step(if At(s, p + 1) == CR then p + 2 else p + 1, [LF], false)
    else if f.entities && s[p] == '&' then
      if At(s, p + 1) == '#' then
        match GetCharacterRef(s, p)
        case None => Step(p + 1, [s[p]], false)
        case Some(ref) => Step(ref.next, ref.bytes, false)
      else
        match EntityAt(s, p, 0)
        case None => Step(p + 1, "&", true)
        case Some(e) => Step(p + |PATTERNS[e]| + 2, [VALUES[e]], false)
    else
      Step(p + 1, [s[p]], false)
  }

  /**
   The bytes in front of the write cursor once the loop of `GetStr` has run, given those
   in front of it when the read cursor is at `p`.  A byte stepped over keeps its old value.
   */
  function DecodeFrom(s: string, p: nat, out: string, f: Flags): (r: string)
    requires |out| <= p <= |s|
    ensures |r| <= |s|
    ensures out <= r
    decreases |s| - p
  {
    if p == |s| then out
    else
      var st := DecodeStep(s, p, f);
      DecodeFrom(s, st.next, out + if st.stale then [s[|out|]] else st.bytes, f)
  }

  function Decoded(s: string, f: Flags): (r: string)
    ensures |r| <= |s|
  {
    DecodeFrom(s, 0, "", f)
  }

  /** The out-of-place decoder. */
  function IdealFrom(s: string, p: nat, f: Flags): (r: string)
    requires p <= |s|
    decreases |s| - p
  {
    if p == |s| then ""
    else
      var st := DecodeStep(s, p, f);
      st.bytes + IdealFrom(s, st.next, f)
  }

  function Ideal(s: string, f: Flags): string {
    IdealFrom(s, 0, f)
  }

  /**
   Whenever the loop, with its cursors at `p` and `q`, meets an ampersand that starts
   neither an entity nor a numeric reference, the byte under the write cursor is an
   ampersand already.
   */
  predicate StaleBytesAreAmpersands(s: string, p: nat, q: nat, f: Flags)
    requires q <= p <= |s|
    decreases |s| - p
  {
    p < |s| ==>
      var st := DecodeStep(s, p, f);
      && (st.stale ==> s[q] == '&')
      && StaleBytesAreAmpersands(s, st.next, q + |st.bytes|, f)
  }

  lemma {:induction false} DecodedFromIdeal(s: string, p: nat, out: string, f: Flags)
    requires |out| <= p <= |s|
    ensures |DecodeFrom(s, p, out, f)| == |out + IdealFrom(s, p, f)|
    ensures DecodeFrom(s, p, out, f) == out + IdealFrom(s, p, f)
            <==> StaleBytesAreAmpersands(s, p, |out|, f)
    decreases |s| - p
  {
    hide DecodeStep;
    if p < |s| {
      var st := DecodeStep(s, p, f);
      var piece := if st.stale then [s[|out|]] else st.bytes;
      var rest := IdealFrom(s, st.next, f);
      DecodedFromIdeal(s, st.next, out + piece, f);
      assert out + (st.bytes + rest) == (out + st.bytes) + rest;
      if st.stale && s[|out|] != '&' {
        var r := DecodeFrom(s, st.next, out + piece, f);
        assert r[|out|] == (out + piece)[|out|] == s[|out|];
        assert (out + (st.bytes + rest))[|out|] == '&';
      }
    }
  }

  /** In place and out of place agree exactly when no stepped-over byte differs from `&`. */
  lemma {:induction false} DecodedIsIdeal(s: string, f: Flags)
    ensures |Decoded(s, f)| == |Ideal(s, f)|
    ensures Decoded(s, f) == Ideal(s, f) <==> StaleBytesAreAmpersands(s, 0, 0, f)
  {
    DecodedFromIdeal(s, 0, "", f);
    assert "" + Ideal(s, f) == Ideal(s, f);
  }

  /** The ampersand at `p` starts a numeric reference or one of the five entities. */
  predicate StartsReference(s: string, p: nat) {
    At(s, p + 1) == '#' || exists e :: 0 <= e < 5 && Matches(s, p + 1, PATTERNS[e] + ";")
  }

  lemma {:induction false} EntitySpelled(s: string, p: nat, e: nat, i: nat)
    requires i <= e < 5 && Matches(s, p + 1, PATTERNS[e] + ";")
    ensures EntityAt(s, p, i).Some?
    decreases e - i
  {
    hide Matches;
    if i < e {
      EntitySpelled(s, p, e, i + 1);
    } else {
      MatchesConcat(s, p + 1, PATTERNS[e], ";");
      MatchesChar(s, p + 1 + |PATTERNS[e]|, ";", 0);
    }
  }

  lemma {:induction false} NoneStale(s: string, p: nat, q: nat, f: Flags)
    requires q <= p <= |s|
    requires f.entities ==> forall k | 0 <= k < |s| && s[k] == '&' :: StartsReference(s, k)
    ensures StaleBytesAreAmpersands(s, p, q, f)
    decreases |s| - p
  {
    if p < |s| {
      if f.entities && s[p] == '&' && At(s, p + 1) != '#' {
        var e :| 0 <= e < 5 && Matches(s, p + 1, PATTERNS[e] + ";");
        EntitySpelled(s, p, e, 0);
      }
      var st := DecodeStep(s, p, f);
      assert !st.stale;
      hide DecodeStep, StartsReference;
      NoneStale(s, st.next, q + |st.bytes|, f);
    }
  }

  /** Where every ampersand starts a reference, or entities are off, decoding in place loses nothing. */
  lemma {:induction false} ReferencesDecode(s: string, f: Flags)
    requires f.entities ==> forall k | 0 <= k < |s| && s[k] == '&' :: StartsReference(s, k)
    ensures Decoded(s, f) == Ideal(s, f)
  {
    NoneStale(s, 0, 0, f);
    DecodedIsIdeal(s, f);
  }

  /** A bare ampersand behind a shrunken entity comes out as the byte that lay there before. */
  lemma StaleByteShows()
    ensures Decoded("&lt;& ", Flags(true, true, false)) == "<l "
    ensures Ideal("&lt;& ", Flags(true, true, false)) == "<& "
  {
    var s, f := "&lt;& ", Flags(true, true, false);
    assert s[1..3] == PATTERNS[3];
    assert s[1..5] != PATTERNS[0] && s[1..4] != PATTERNS[1] && s[1..5] != PATTERNS[2] by {
      assert s[1..5][0] != PATTERNS[0][0];
      assert s[1..4][0] != PATTERNS[1][0];
      assert s[1..5][0] != PATTERNS[2][0];
    }
    assert EntityAt(s, 0, 3) == Some(3);
    assert EntityAt(s, 0, 2) == Some(3);
    assert EntityAt(s, 0, 1) == Some(3);
    assert DecodeStep(s, 0, f) == Step(4, "<", false);
    assert EntityAt(s, 4, 5) == None;
    assert EntityAt(s, 4, 4) == None;
    assert EntityAt(s, 4, 3) == None;
    assert EntityAt(s, 4, 2) == None;
    assert EntityAt(s, 4, 1) == None;
    assert DecodeStep(s, 4, f) == Step(5, "&", true);
    assert DecodeStep(s, 5, f) == Step(6, " ", false);
    assert DecodeFrom(s, 6, "<l ", f) == "<l ";
    assert DecodeFrom(s, 5, "<l", f) == "<l ";
    assert DecodeFrom(s, 4, "<", f) == "<l ";
    assert IdealFrom(s, 5, f) == " ";
    assert IdealFrom(s, 4, f) == "& ";
  }

  // ------------------------------------------------------------- whitespace collapsing

  /** What the loop of `CollapseWhitespace` writes from read position `i` on. */
  function Squeeze(t: string, i: nat): (r: string)
    requires i <= |t|
    ensures |r| <= |t| - i
    decreases |t| - i
  {
    if i == |t| then ""
    else if IsWhiteSpace(t[i]) then
      var j := SkipWs(t, i);
      if j == |t| then "" else " " + [t[j]] + Squeeze(t, j + 1)
    else [t[i]] + Squeeze(t, i + 1)
  }

  /** `StrPair::CollapseWhitespace` on a C string. */
  function Collapse(t: string): (r: string)
    ensures |r| <= |t|
  {
    Squeeze(t, SkipWs(t, 0))
  }

  /** The maximal runs of non-whitespace characters from `i` on. */
  function Words(t: string, i: nat): (ws: seq<string>)
    requires i <= |t|
    decreases |t| - i
  {
    var a := SkipWs(t, i);
    if a == |t| then []
    else
      var b := WordEnd(t, a);
      [t[a..b]] + Words(t, b)
  }

  function WordEnd(t: string, i: nat): (j: nat)
    requires i <= |t|
    ensures i <= j <= |t|
    ensures i < |t| && !IsWhiteSpace(t[i]) ==> i < j
    ensures j < |t| ==> IsWhiteSpace(t[j])
    ensures forall k | i <= k < j :: !IsWhiteSpace(t[k])
    decreases |t| - i
  {
    if i < |t| && !IsWhiteSpace(t[i]) then WordEnd(t, i + 1) else i
  }

  function JoinWords(ws: seq<string>): string {
    if |ws| == 0 then "" else if |ws| == 1 then ws[0] else ws[0] + " " + JoinWords(ws[1..])
  }

  lemma {:induction false} SqueezeWord(t: string, i: nat, b: nat)
    requires i <= b <= |t|
    requires forall k | i <= k < b :: !IsWhiteSpace(t[k])
    ensures Squeeze(t, i) == t[i..b] + Squeeze(t, b)
    decreases b - i
  {
    if i == b {
      assert t[i..b] == "";
    } else {
      SqueezeWord(t, i + 1, b);
      var tail, rest := t[i + 1..b], Squeeze(t, b);
      assert t[i..b] == [t[i]] + tail;
      assert Squeeze(t, i) == [t[i]] + Squeeze(t, i + 1);
      ConcatAssociative([t[i]], tail, rest);
    }
  }

  /** A gap in front of a further word is squeezed to one space. */
  lemma {:induction false} SqueezeGap(t: string, b: nat)
    requires b < |t| && IsWhiteSpace(t[b])
    ensures var j := SkipWs(t, b);
            Squeeze(t, b) == if j == |t| then "" else " " + Squeeze(t, j)
  {
    var j := SkipWs(t, b);
    if j < |t| {
      assert Squeeze(t, j) == [t[j]] + Squeeze(t, j + 1);
      assert " " + [t[j]] + Squeeze(t, j + 1) == " " + ([t[j]] + Squeeze(t, j + 1));
    }
  }

  /** Leading whitespace makes no word. */
  lemma {:induction false} WordsAfterGap(t: string, i: nat)
    requires i <= |t|
    ensures Words(t, i) == Words(t, SkipWs(t, i))
    ensures Words(t, i) == [] <==> SkipWs(t, i) == |t|
  {
    SkipWsAt(t, SkipWs(t, i), SkipWs(t, i));
  }

  lemma {:induction false} SqueezeEnd(t: string)
    ensures Squeeze(t, |t|) == ""
  {
  }

  lemma {:induction false} SqueezeIsJoin(t: string, i: nat)
    requires i <= |t|
    requires i < |t| ==> !IsWhiteSpace(t[i])
    ensures Squeeze(t, i) == JoinWords(Words(t, i))
    decreases |t| - i
  {
    hide Squeeze;
    SkipWsAt(t, i, i);
    SqueezeEnd(t);
    if i < |t| {
      var b := WordEnd(t, i);
      var w := t[i..b];
      SqueezeWord(t, i, b);
      WordsAfterGap(t, b);
      var rest := Words(t, b);
      assert Words(t, i) == [w] + rest;
      assert ([w] + rest)[1..] == rest;
      if b < |t| {
        SqueezeGap(t, b);
        var j := SkipWs(t, b);
        SqueezeIsJoin(t, j);
        ConcatAssociative(w, " ", JoinWords(rest));
      }
    }
  }

  /** Collapsing gives the words of the text joined by single spaces. */
  lemma {:induction false} CollapseJoinsWords(t: string)
    ensures Collapse(t) == JoinWords(Words(t, 0))
  {
    var i := SkipWs(t, 0);
    SqueezeIsJoin(t, i);
    SkipWsAt(t, i, i);
  }

  /** The C string `GetStr` returns for the bytes of an unread `StrPair`. */
  function Value(raw: string, f: Flags): (v: string)
    ensures NulFree(v)
  {
    if f == PLAIN then CStr(raw)
    else if f.collapse then CollapseNulFree(CStr(Decoded(raw, f))); Collapse(CStr(Decoded(raw, f)))
    else CStr(Decoded(raw, f))
  }

  lemma {:induction false} SqueezeNulFree(t: string, i: nat)
    requires NulFree(t) && i <= |t|
    ensures NulFree(Squeeze(t, i))
    decreases |t| - i
  {
    if i < |t| {
      if IsWhiteSpace(t[i]) {
        var j := SkipWs(t, i);
        if j < |t| { SqueezeNulFree(t, j + 1); }
      } else {
        SqueezeNulFree(t, i + 1);
      }
    }
  }

  lemma {:induction false} CollapseNulFree(t: string)
    requires NulFree(t)
    ensures NulFree(Collapse(t))
  {
    SqueezeNulFree(t, SkipWs(t, 0));
  }
}
