/**
 Numeric character references: the digit loop, which runs from right to left with a 32-bit
 multiplier, against the value of a numeral read from left to right; and UTF-8 output
 against a decoder that accepts the shortest forms only.
 */
module XmlNumbers {
  import opened Wrappers
  import opened XmlText
  import opened XmlDecode

  // ------------------------------------------------------------- numerals

  ghost predicate Digits(s: string, a: nat, b: nat, base: nat) {
    a <= b <= |s| && forall k | a <= k < b :: DigitOf(s[k], base).Some?
  }

  /** The value of the numeral `s[a..b]`. */
  ghost function Numeral(s: string, a: nat, b: nat, base: nat): nat
    requires Digits(s, a, b, base)
  {
    if a == b then 0 else Numeral(s, a, b - 1, base) * base + DigitOf(s[b - 1], base).value
  }

  ghost predicate Congruent(a: nat, b: nat) {
    exists x: int :: a == b + x * TWO_32
  }

  lemma {:induction false} CongruentMod(a: nat, b: nat)
    requires Congruent(a, b)
    ensures a % TWO_32 == b % TWO_32
  {
    var x: int :| a == b + x * TWO_32;
    if x >= 0 { ModShift(b, x); } else { assert b == a + (-x) * TWO_32; ModShift(a, -x); }
  }

  lemma {:induction false} ModShift(r: nat, x: nat)
    ensures (r + x * TWO_32) % TWO_32 == r % TWO_32
    decreases x
  {
    if x > 0 {
      ModShift(r, x - 1);
      assert r + x * TWO_32 == (r + (x - 1) * TWO_32) + TWO_32;
    }
  }

  lemma {:induction false} Reduced(a: nat)
    ensures Congruent(a % TWO_32, a)
  {
    assert a % TWO_32 == a + (-(a / TWO_32)) * TWO_32;
  }

  lemma {:induction false} CongruentTimes(a: nat, b: nat, d: nat)
    requires Congruent(a, b)
    ensures Congruent(a * d, b * d)
  {
    var x: int :| a == b + x * TWO_32;
    Distribute(b, x * TWO_32, d);
    Shuffle(x, d);
    assert a * d == b * d + (x * d) * TWO_32;
  }

  lemma {:induction false} Distribute(a: int, b: int, d: int)
    ensures (a + b) * d == a * d + b * d
  {
  }

  lemma {:induction false} Shuffle(x: int, d: int)
    ensures x * TWO_32 * d == (x * d) * TWO_32
  {
  }

  lemma {:induction false} CongruentSum(a: nat, b: nat, c: nat)
    requires Congruent(a, b)
    ensures Congruent(a + c, b + c)
  {
    var x: int :| a == b + x * TWO_32;
    assert a + c == (b + c) + x * TWO_32;
  }

  lemma {:induction false} CongruentChain(a: nat, b: nat, c: nat)
    requires Congruent(a, b) && Congruent(b, c)
    ensures Congruent(a, c)
  {
    var x: int :| a == b + x * TWO_32;
    var y: int :| b == c + y * TWO_32;
    assert a == c + (x + y) * TWO_32;
  }

  /** `ucs` plus a numeral of value `v` at weight `p`. */
  ghost function Total(ucs: nat, v: nat, p: nat): nat {
    ucs + v * p
  }

  /** `v` digits-worth more at weight `p`: the two ways of adding the last digit. */
  lemma {:induction false} Regroup(ucs: nat, v: nat, base: nat, d: nat, p: nat)
    ensures Total(ucs, v * base + d, p) == Total(ucs + p * d, v, p * base)
  {
    calc {
      (v * base + d) * p;
      { Distribute(v * base, d, p); }
      v * base * p + d * p;
      v * (p * base) + p * d;
    }
  }

  lemma {:induction false} AtLeast(ucs: nat, d: nat, w: nat, p: nat)
    ensures p * d <= Total(ucs, w + d, p) && (d > 0 ==> p <= p * d)
  {
    Distribute(w, d, p);
    assert w * p >= 0;
  }

  /** Adding one digit with the wrapped multiplier, against adding it at its true weight. */
  lemma {:induction false} DigitAdded(ucs: nat, v: nat, base: nat, d: nat, p: nat, mult: nat)
    requires mult == p % TWO_32
    ensures var step := mult * d % TWO_32;
            var t1, t := Total(ucs + step, v, p * base), Total(ucs, v * base + d, p);
            Congruent(t1, t) && (t < TWO_32 ==> t1 == t)
  {
    hide Congruent, Total;
    var step := mult * d % TWO_32;
    Regroup(ucs, v, base, d, p);
    Reduced(p);
    CongruentTimes(mult, p, d);
    Reduced(mult * d);
    CongruentChain(step, mult * d, p * d);
    CongruentTotals(step, p * d, ucs, v, p * base);
    if Total(ucs, v * base + d, p) < TWO_32 {
      AtLeast(ucs, d, v * base, p);
      SmallStep(d, p, mult);
    }
  }

  lemma CongruentTotals(a: nat, b: nat, ucs: nat, v: nat, p: nat)
    requires Congruent(a, b)
    ensures Congruent(Total(ucs + a, v, p), Total(ucs + b, v, p))
  {
    hide Congruent;
    CongruentSum(a, b, ucs + v * p);
  }

  lemma {:induction false} SmallStep(d: nat, p: nat, mult: nat)
    requires mult == p % TWO_32 && p * d < TWO_32 && (d > 0 ==> p <= p * d)
    ensures mult * d % TWO_32 == p * d
  {
    if d > 0 {
      assert mult == p;
    }
  }

  lemma {:induction false} WeightWraps(p: nat, mult: nat, base: nat)
    requires mult == p % TWO_32
    ensures mult * base % TWO_32 == (p * base) % TWO_32
  {
    Reduced(p);
    CongruentTimes(mult, p, base);
    CongruentMod(mult * base, p * base);
  }

  /** The loop with the numeral `s[a..q + 1]` still to read, at weight `p`. */
  lemma {:induction false} ScanBackValue(s: string, a: nat, q: nat, stop: char, base: nat, p: nat, mult: nat, ucs: nat)
    requires 0 < a <= q + 1 <= |s| && s[a - 1] == stop && DigitOf(stop, base).None?
    requires Digits(s, a, q + 1, base) && mult == p % TWO_32
    ensures var r := ScanBack(s, q, stop, base, mult, ucs, a - 1);
            var total := Total(ucs, Numeral(s, a, q + 1, base), p);
            r.Some? && Congruent(r.value, total) && (total < TWO_32 ==> r.value == total)
    decreases q
  {
    hide Congruent, DigitOf;
    if q >= a {
      var d := DigitOf(s[q], base).value;
      var v := Numeral(s, a, q, base);
      var step, weight, wrapped := mult * d % TWO_32, p * base, mult * base % TWO_32;
      hide Total;
      WeightWraps(p, mult, base);
      ScanBackValue(s, a, q - 1, stop, base, weight, wrapped, ucs + step);
      DigitAdded(ucs, v, base, d, p, mult);
      CongruentChain(ScanBack(s, q - 1, stop, base, wrapped, ucs + step, a - 1).value,
                     Total(ucs + step, v, weight), Total(ucs, v * base + d, p));
    } else {
      Same(ucs);
    }
  }

  lemma {:induction false} Same(a: nat)
    ensures Congruent(a, a)
  {
    assert a == a + 0 * TWO_32;
  }

  /** The prefix of a reference in the given base. */
  function Opening(base: nat): string {
    if base == 16 then "&#x" else "&#"
  }

  /**
   A reference with a numeral of any length, leading zeros included: its code point is the
   numeral's value, as long as that fits 32 bits, and congruent to it otherwise.
   */
  lemma {:induction false} ReferenceValue(s: string, p: nat, ds: string, base: nat) returns (u: nat)
    requires base == 10 || base == 16
    requires Digits(ds, 0, |ds|, base) && Matches(s, p, Opening(base) + ds + ";")
    ensures p + 1 < |s| && s[p + 1] == '#'
    ensures GetCharacterRef(s, p) == Some(Ref(p + |Opening(base)| + |ds| + 1, Utf8(u)))
    ensures var v := Numeral(ds, 0, |ds|, base); u % TWO_32 == v % TWO_32 && (v < TWO_32 ==> u == v)
  {
    hide DigitOf, Numeral, ScanBack, FindSemicolon, Utf8, Total, Congruent, Digits, GetCharacterRef;
    var first := p + |Opening(base)|;
    var semi := first + |ds|;
    MatchesConcat(s, p, Opening(base) + ds, ";");
    MatchesConcat(s, p, Opening(base), ds);
    MatchesChar(s, p, Opening(base), 1);
    MatchesChar(s, p, Opening(base), |Opening(base)| - 1);
    MatchesChar(s, semi, ";", 0);
    forall k | 0 <= k < |ds| ensures s[first + k] == ds[k] {
      MatchesChar(s, first, ds, k);
    }
    NumeralMoved(s, first, ds, |ds|, base);
    SemicolonExists(s, first, semi, base);
    StopIsNoDigit(base);
    ScanBackValue(s, first, semi - 1, s[first - 1], base, 1, 1, 0);
    var r := ScanBack(s, semi - 1, s[first - 1], base, 1, 0, first - 1);
    u := r.value;
    var v := Numeral(ds, 0, |ds|, base);
    assert Total(0, v, 1) == v by { TotalOne(v); }
    CongruentMod(u, v);
    if base == 10 { NotHexMarker(s, p, ds, base); }
    DigitFirst(s, first, ds, base);
    ReferenceRead(s, p, first, semi, base, u);
  }

  lemma {:induction false} TotalOne(v: nat)
    ensures Total(0, v, 1) == v
  {
  }

  lemma {:induction false} StopIsNoDigit(base: nat)
    ensures DigitOf('x', base).None? && DigitOf('#', base).None?
  {
  }

  lemma {:induction false} DigitFirst(s: string, i: nat, ds: string, base: nat)
    requires i + |ds| < |s| && s[i + |ds|] == ';' && Digits(s, i, i + |ds|, base)
    ensures s[i] != NUL
  {
    if ds != "" {
      assert DigitOf(s[i], base).Some?;
    }
  }

  /** The branches of `GetCharacterRef` on a complete reference. */
  lemma {:induction false} ReferenceRead(s: string, p: nat, first: nat, semi: nat, base: nat, u: nat)
    requires base == 10 || base == 16
    requires first == p + |Opening(base)| && first <= semi < |s| && s[p + 1] == '#' && s[first] != NUL
    requires if base == 16 then s[p + 2] == 'x' else s[p + 2] != 'x'
    requires FindSemicolon(s, first) == Some(semi)
    requires ScanBack(s, semi - 1, s[first - 1], base, 1, 0, first - 1) == Some(u)
    ensures GetCharacterRef(s, p) == Some(Ref(semi + 1, Utf8(u)))
  {
    hide ScanBack, FindSemicolon, Utf8;
  }

  lemma {:induction false} NumeralMoved(s: string, i: nat, ds: string, n: nat, base: nat)
    requires n <= |ds| && i + |ds| <= |s| && Digits(ds, 0, |ds|, base)
    requires forall k | 0 <= k < |ds| :: s[i + k] == ds[k]
    ensures Digits(s, i, i + |ds|, base)
    ensures Numeral(s, i, i + n, base) == Numeral(ds, 0, n, base)
  {
    forall k | i <= k < i + |ds| ensures DigitOf(s[k], base).Some? {
      assert s[k] == s[i + (k - i)] == ds[k - i];
    }
    if n > 0 {
      NumeralMoved(s, i, ds, n - 1, base);
      assert s[i + (n - 1)] == ds[n - 1];
    }
  }

  lemma {:induction false} SemicolonExists(s: string, i: nat, j: nat, base: nat)
    requires i <= j < |s| && s[j] == ';' && Digits(s, i, j, base)
    ensures FindSemicolon(s, i) == Some(j)
    decreases j - i
  {
    if i < j {
      assert DigitOf(s[i], base).Some?;
      SemicolonExists(s, i + 1, j, base);
    }
  }

  /** Decimal digits do not look like the hexadecimal marker. */
  lemma {:induction false} NotHexMarker(s: string, p: nat, ds: string, base: nat)
    requires Digits(ds, 0, |ds|, base) && base == 10
    requires p + 2 + |ds| < |s| && s[p + 2 + |ds|] == ';'
    requires forall k | 0 <= k < |ds| :: s[p + 2 + k] == ds[k]
    ensures s[p + 2] != 'x' && s[p + 2] != NUL
  {
    if ds != "" {
      assert s[p + 2 + 0] == ds[0];
      assert DigitOf(ds[0], base).Some?;
    }
  }

  // ------------------------------------------------------------- UTF-8

  /** A list of code points written one after the other. */
  function EncodeAll(us: seq<nat>): string {
    if us == [] then "" else Utf8(us[0]) + EncodeAll(us[1..])
  }

  predicate IsContinuation(c: char) {
    0x80 <= c as int < 0xC0
  }

  function Payload(s: string, i: nat): nat
    requires i < |s| && IsContinuation(s[i])
  {
    s[i] as int - 0x80
  }

  datatype CodePoint = CodePoint(value: nat, length: nat)

  /** A decoder of one code point that accepts the shortest form only. */
  function DecodeOne(s: string, i: nat): (r: Option<CodePoint>)
    requires i < |s|
    ensures r.Some? ==> 1 <= r.value.length && i + r.value.length <= |s|
  {
    var c := s[i] as int;
    if c < 0x80 then Some(CodePoint(c, 1))
    else if 0xC0 <= c < 0xE0 && i + 1 < |s| && IsContinuation(s[i + 1]) then
      var u := (c - 0xC0) * 64 + Payload(s, i + 1);
      if u < 0x80 then None else Some(CodePoint(u, 2))
    else if 0xE0 <= c < 0xF0 && i + 2 < |s| && IsContinuation(s[i + 1]) && IsContinuation(s[i + 2]) then
      var u := (c - 0xE0) * 4096 + Payload(s, i + 1) * 64 + Payload(s, i + 2);
      if u < 0x800 then None else Some(CodePoint(u, 3))
    else if 0xF0 <= c < 0xF8 && i + 3 < |s|
            && IsContinuation(s[i + 1]) && IsContinuation(s[i + 2]) && IsContinuation(s[i + 3]) then
      var u := (c - 0xF0) * 0x40000 + Payload(s, i + 1) * 4096 + Payload(s, i + 2) * 64 + Payload(s, i + 3);
      if u < 0x10000 then None else Some(CodePoint(u, 4))
    else None
  }

  function DecodeAll(s: string, i: nat): Option<seq<nat>>
    requires i <= |s|
    decreases |s| - i
  {
    if i == |s| then Some([])
    else match DecodeOne(s, i)
      case None => None
      case Some(cp) =>
        match DecodeAll(s, i + cp.length)
        case None => None
        case Some(us) => Some([cp.value] + us)
  }

  lemma {:induction false} SixBits(u: nat, h: nat, z: nat)
    requires z < 64
    ensures u == h * 64 + z <==> h == u / 64 && z == u % 64
  {
  }

  /** The bytes of a written code point, and what the decoder makes of such bytes. */
  lemma {:induction false} ThreeBytes(u: nat, a: nat, y: nat, z: nat)
    requires y < 64 && z < 64
    ensures u == a * 4096 + y * 64 + z <==> a == u / 4096 && y == u / 64 % 64 && z == u % 64
  {
    SixBits(u, a * 64 + y, z);
    SixBits(u / 64, a, y);
    assert u / 64 / 64 == u / 4096;
  }

  lemma {:induction false} FourBytes(u: nat, a: nat, x: nat, y: nat, z: nat)
    requires x < 64 && y < 64 && z < 64
    ensures u == a * 0x40000 + x * 4096 + y * 64 + z
            <==> a == u / 0x40000 && x == u / 4096 % 64 && y == u / 64 % 64 && z == u % 64
  {
    SixBits(u, a * 4096 + x * 64 + y, z);
    ThreeBytes(u / 64, a, x, y);
    assert u / 64 / 4096 == u / 0x40000 && u / 64 / 64 == u / 4096;
  }

  lemma {:induction false} ByteMatches(s: string, i: nat, mark: nat, payload: nat)
    requires i < |s| && mark + payload < 256
    ensures s[i] == ByteOf(mark, payload) <==> s[i] as int == mark + payload
  {
  }

  lemma {:induction false} WordMatches(s: string, i: nat, w: string)
    ensures Matches(s, i, w) <==> i + |w| <= |s| && forall k | 0 <= k < |w| :: s[i + k] == w[k]
  {
    if Matches(s, i, w) {
      forall k | 0 <= k < |w| ensures s[i + k] == w[k] { MatchesChar(s, i, w, k); }
    }
    if i + |w| <= |s| && forall k | 0 <= k < |w| :: s[i + k] == w[k] {
      assert s[i..i + |w|] == w;
    }
  }

  lemma {:induction false} OneByteWritten(s: string, i: nat, u: nat)
    requires i < |s| && u < 0x80
    ensures Matches(s, i, Utf8(u)) <==> DecodeOne(s, i) == Some(CodePoint(u, 1))
  {
    WordMatches(s, i, Utf8(u));
    ByteMatches(s, i, 0, u);
    assert Utf8(u)[0] == ByteOf(0, u);
    if s[i] == ByteOf(0, u) { assert forall k | 0 <= k < 1 :: s[i + k] == Utf8(u)[k]; }
    if Matches(s, i, Utf8(u)) { assert s[i + 0] == Utf8(u)[0]; }
  }

  lemma {:induction false} TwoBytesWritten(s: string, i: nat, u: nat)
    requires i < |s| && 0x80 <= u < 0x800
    ensures Matches(s, i, Utf8(u)) <==> DecodeOne(s, i) == Some(CodePoint(u, 2))
  {
    hide Matches;
    var w := Utf8(u);
    WordMatches(s, i, w);
    if i + 2 <= |s| {
      assert Matches(s, i, w) <==> s[i] == w[0] && s[i + 1] == w[1] by {
        assert Matches(s, i, w) ==> s[i + 0] == w[0] && s[i + 1] == w[1];
      }
      ByteMatches(s, i, 0xC0, u / 64);
      ByteMatches(s, i + 1, 0x80, u % 64);
      if IsContinuation(s[i + 1]) && s[i] as int >= 0xC0 {
        SixBits(u, s[i] as int - 0xC0, Payload(s, i + 1));
      }
    }
  }

  lemma {:induction false} ThreeBytesWritten(s: string, i: nat, u: nat)
    requires i < |s| && 0x800 <= u < 0x10000
    ensures Matches(s, i, Utf8(u)) <==> DecodeOne(s, i) == Some(CodePoint(u, 3))
  {
    hide Matches;
    var w := Utf8(u);
    WordMatches(s, i, w);
    if i + 3 <= |s| {
      assert Matches(s, i, w) <==> s[i] == w[0] && s[i + 1] == w[1] && s[i + 2] == w[2] by {
        assert Matches(s, i, w) ==> s[i + 0] == w[0] && s[i + 1] == w[1] && s[i + 2] == w[2];
      }
      ByteMatches(s, i, 0xE0, u / 4096);
      ByteMatches(s, i + 1, 0x80, u / 64 % 64);
      ByteMatches(s, i + 2, 0x80, u % 64);
      if IsContinuation(s[i + 1]) && IsContinuation(s[i + 2]) && s[i] as int >= 0xE0 {
        ThreeBytes(u, s[i] as int - 0xE0, Payload(s, i + 1), Payload(s, i + 2));
      }
    }
  }

  lemma {:induction false} FourBytesWritten(s: string, i: nat, u: nat)
    requires i < |s| && 0x10000 <= u < 0x20_0000
    ensures Matches(s, i, Utf8(u)) <==> DecodeOne(s, i) == Some(CodePoint(u, 4))
  {
    hide Matches;
    var w := Utf8(u);
    WordMatches(s, i, w);
    if i + 4 <= |s| {
      assert Matches(s, i, w) <==> s[i] == w[0] && s[i + 1] == w[1] && s[i + 2] == w[2] && s[i + 3] == w[3] by {
        assert Matches(s, i, w) ==> s[i + 0] == w[0] && s[i + 1] == w[1] && s[i + 2] == w[2] && s[i + 3] == w[3];
      }
      ByteMatches(s, i, 0xF0, u / 0x40000);
      ByteMatches(s, i + 1, 0x80, u / 4096 % 64);
      ByteMatches(s, i + 2, 0x80, u / 64 % 64);
      ByteMatches(s, i + 3, 0x80, u % 64);
      if IsContinuation(s[i + 1]) && IsContinuation(s[i + 2]) && IsContinuation(s[i + 3]) && s[i] as int >= 0xF0 {
        FourBytes(u, s[i] as int - 0xF0, Payload(s, i + 1), Payload(s, i + 2), Payload(s, i + 3));
      }
    }
  }

  /** One code point is written in the one form the decoder accepts. */
  lemma {:induction false} OneWritten(s: string, i: nat, u: nat)
    requires i < |s| && u < 0x20_0000
    ensures Matches(s, i, Utf8(u)) <==> DecodeOne(s, i) == Some(CodePoint(u, |Utf8(u)|))
  {
    hide Matches, DecodeOne;
    if u < 0x80 { OneByteWritten(s, i, u); }
    else if u < 0x800 { TwoBytesWritten(s, i, u); }
    else if u < 0x10000 { ThreeBytesWritten(s, i, u); }
    else { FourBytesWritten(s, i, u); }
  }

  /** What the decoder accepts is below the limit, and as long as its written form. */
  lemma {:induction false} DecodedRange(s: string, i: nat)
    requires i < |s| && DecodeOne(s, i).Some?
    ensures var cp := DecodeOne(s, i).value; cp.value < 0x20_0000 && cp.length == |Utf8(cp.value)|
  {
  }

  /** Written code points, and no other bytes, decode to the list that was written. */
  lemma {:induction false} EncodeDecode(s: string, i: nat, us: seq<nat>)
    requires i <= |s| && forall k | 0 <= k < |us| :: us[k] < 0x20_0000
    ensures s[i..] == EncodeAll(us) <==> DecodeAll(s, i) == Some(us)
    decreases |us|
  {
    hide Utf8, DecodeOne;
    if us == [] {
      if i < |s| && DecodeAll(s, i).Some? {
        assert |DecodeAll(s, i).value| > 0;
      }
    } else {
      var u, w, rest := us[0], Utf8(us[0]), us[1..];
      Utf8Nonempty(u);
      if i < |s| {
        OneWritten(s, i, u);
        if i + |w| <= |s| {
          assert s[i..] == s[i..i + |w|] + s[i + |w|..];
          EncodeDecode(s, i + |w|, rest);
          SplitTail(s[i..i + |w|], s[i + |w|..], w, EncodeAll(rest));
        }
        if DecodeOne(s, i).Some? {
          DecodedRange(s, i);
        }
        assert us == [u] + rest;
        HeadTail(s, i, us);
      }
    }
  }

  lemma {:induction false} Utf8Nonempty(u: nat)
    requires u < 0x20_0000
    ensures Utf8(u) != ""
  {
  }

  lemma {:induction false} SplitTail(a: string, b: string, w: string, r: string)
    requires |a| == |w|
    ensures a + b == w + r <==> a == w && b == r
  {
    if a + b == w + r {
      assert (a + b)[..|a|] == (w + r)[..|w|];
      assert (a + b)[|a|..] == (w + r)[|w|..];
    }
  }

  lemma {:induction false} HeadTail(s: string, i: nat, us: seq<nat>)
    requires i < |s| && us != []
    ensures DecodeAll(s, i) == Some(us) <==>
            DecodeOne(s, i).Some? && DecodeOne(s, i).value.value == us[0]
            && DecodeAll(s, i + DecodeOne(s, i).value.length) == Some(us[1..])
  {
    hide DecodeOne;
    if DecodeOne(s, i).Some? && DecodeAll(s, i + DecodeOne(s, i).value.length).Some? {
      var cp, rest := DecodeOne(s, i).value, DecodeAll(s, i + DecodeOne(s, i).value.length).value;
      assert ([cp.value] + rest)[1..] == rest && ([cp.value] + rest)[0] == cp.value;
      assert us == [us[0]] + us[1..];
    }
  }
}
