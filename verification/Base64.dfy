/**
 Base64 as the repository's own codec does it: three bytes to four characters through small
 buffers, and back.  Masks and shifts are written as arithmetic on the bytes.
 */
module Base64 {
  import opened Wrappers
  import opened Bytes

  type sixbit = i: int | 0 <= i < 64

  /** The table of characters. */
  function CharAt(i: sixbit): char {
    if i < 26 then 'A' + i as char
    else if i < 52 then 'a' + (i - 26) as char
    else if i < 62 then '0' + (i - 52) as char
    else if i == 62 then '+'
    else '/'
  }

  /** `find` in the table, cast to a byte: 255 when the character is nowhere. */
  function Find(c: char): byte {
    FindFrom(c, 0)
  }

  function FindFrom(c: char, i: nat): (r: byte)
    requires i <= 64
    ensures r == 255 || (i <= r < 64 && CharAt(r) == c)
    decreases 64 - i
  {
    if i == 64 then 255 else if CharAt(i) == c then i else FindFrom(c, i + 1)
  }

  predicate IsBase64(c: char) {
    'A' <= c <= 'Z' || 'a' <= c <= 'z' || '0' <= c <= '9' || c == '+' || c == '/'
  }

  lemma {:induction false} FindsFrom(i: sixbit, k: nat)
    requires k <= i
    ensures FindFrom(CharAt(i), k) == i
    decreases i - k
  {
    if k < i {
      FindsFrom(i, k + 1);
    }
  }

  lemma FindsIt(i: sixbit)
    ensures Find(CharAt(i)) == i && IsBase64(CharAt(i)) && CharAt(i) != '='
  {
    FindsFrom(i, 0);
  }

  // ------------------------------------------------------------- groups

  /** The four numbers of six bits that three bytes are split into. */
  function First(a: byte): sixbit { a / 4 }

  function Second(a: byte, b: byte): sixbit { a % 4 * 16 + b / 16 }

  function Third(b: byte, c: byte): sixbit { b % 16 * 4 + c / 64 }

  function Fourth(c: byte): sixbit { c % 64 }

  function Split(a: byte, b: byte, c: byte): (sixbit, sixbit, sixbit, sixbit) {
    (First(a), Second(a, b), Third(b, c), Fourth(c))
  }

  /** The three bytes put together from neighbouring table positions; 255 stands for a character not found. */
  function Upper(w: byte, x: byte): byte { (w * 4 + x / 16 % 4) % 256 }

  function Middle(x: byte, y: byte): byte { (x % 16 * 16 + y / 4 % 16) % 256 }

  function Lower(y: byte, z: byte): byte { (y % 4 * 64 + z) % 256 }

  function Merge(w: byte, x: byte, y: byte, z: byte): (byte, byte, byte) {
    (Upper(w, x), Middle(x, y), Lower(y, z))
  }

  /** Each byte is put together again from the two numbers it was split between. */
  lemma FirstByte(a: byte, b: byte)
    ensures Upper(First(a), Second(a, b)) == a
  {
    assert Second(a, b) / 16 == a % 4;
  }

  lemma SecondByte(a: byte, b: byte, c: byte)
    ensures Middle(Second(a, b), Third(b, c)) == b
  {
    hide Second, Third;
    SecondHalves(a, b, c);
  }

  lemma SecondHalves(a: byte, b: byte, c: byte)
    ensures Second(a, b) % 16 == b / 16 && Third(b, c) / 4 == b % 16
  {
    LowDigit(a % 4, b / 16);
    HighDigit(b % 16, c / 64);
  }

  lemma LowDigit(x: nat, y: nat)
    requires y < 16
    ensures (x * 16 + y) % 16 == y
  {
  }

  lemma HighDigit(x: nat, y: nat)
    requires y < 4
    ensures (x * 4 + y) / 4 == x
  {
  }

  lemma ThirdByte(b: byte, c: byte)
    ensures Lower(Third(b, c), Fourth(c)) == c
  {
    assert Third(b, c) % 4 == c / 64;
  }

  /** Merging undoes splitting, and the first bytes do not depend on what follows a short group. */
  lemma MergeSplit(a: byte, b: byte, c: byte, y: byte, z: byte)
    ensures Merge(First(a), Second(a, b), Third(b, c), Fourth(c)) == (a, b, c)
    ensures Merge(First(a), Second(a, b), Third(b, c), z) == (a, b, Lower(Third(b, c), z))
    ensures Merge(First(a), Second(a, b), y, z).0 == a
  {
    hide First, Second, Third, Fourth, Upper, Middle, Lower;
    FirstByte(a, b);
    SecondByte(a, b, c);
    ThirdByte(b, c);
  }

  function Group(a: byte, b: byte, c: byte): (r: string)
    ensures |r| == 4
  {
    var (s, t, u, v) := Split(a, b, c);
    [CharAt(s), CharAt(t), CharAt(u), CharAt(v)]
  }

  /** The encoding: full groups, and a short one filled with zeros and padded. */
  function Encoded(s: seq<byte>): (r: string) {
    if s == [] then ""
    else if |s| == 1 then Group(s[0], 0, 0)[..2] + "=="
    else if |s| == 2 then Group(s[0], s[1], 0)[..3] + "="
    else Group(s[0], s[1], s[2]) + Encoded(s[3..])
  }

  function Ungroup(g: string): (r: seq<byte>)
    requires |g| == 4
    ensures |r| == 3
  {
    var (a, b, c) := Merge(Find(g[0]), Find(g[1]), Find(g[2]), Find(g[3]));
    [a, b, c]
  }

  /** The characters up to the first that is not in the table. */
  function Usable(t: string): (r: string)
    ensures |r| <= |t|
  {
    if t == "" || t[0] == '=' || !IsBase64(t[0]) then "" else [t[0]] + Usable(t[1..])
  }

  /** The decoding of usable characters: a short group is filled with characters not in the table. */
  function DecodedGroups(t: string): (r: seq<byte>) {
    if t == "" then []
    else if |t| < 4 then Ungroup(t + seq(4 - |t|, i => '\0'))[..|t| - 1]
    else Ungroup(t[..4]) + DecodedGroups(t[4..])
  }

  /** The range of the decoder's index, a signed 32-bit number counted up once for every usable character. */
  const INT_RANGE := 0x8000_0000

  type Index = i: int | 0 <= i < INT_RANGE

  /** The decoding; none when the index would overflow. */
  function Decoded(t: string): Option<seq<byte>> {
    if |Usable(t)| < INT_RANGE then Some(DecodedGroups(Usable(t))) else None
  }

  // ------------------------------------------------------------- what the characters stand for

  /** The alphabet of RFC 4648, section 4. */
  const ALPHABET :=
    "ABCDEFGH" + "IJKLMNOP" + "QRSTUVWX" + "YZabcdef" + "ghijklmn" + "opqrstuv" + "wxyz0123" + "456789+/"

  /** The table is the standard alphabet; of its characters, and of no others, a place is found. */
  lemma StandardAlphabet(i: sixbit, c: char)
    ensures |ALPHABET| == 64 && CharAt(i) == ALPHABET[i]
    ensures IsBase64(c) <==> c in ALPHABET
    ensures if c in ALPHABET then Find(c) < 64 && ALPHABET[Find(c)] == c else Find(c) == 255
  {
    hide FindFrom;
    TableRead(i);
    if IsBase64(c) {
      var k := PlaceOf(c);
      FindsIt(k);
      TableRead(k);
    } else if c in ALPHABET {
      var k :| 0 <= k < |ALPHABET| && ALPHABET[k] == c;
      TableRead(k);
      FindsIt(k);
    }
    if Find(c) != 255 {
      TableRead(Find(c));
      FindsIt(Find(c));
    }
  }

  lemma TableRead(i: sixbit)
    ensures |ALPHABET| == 64 && CharAt(i) == ALPHABET[i]
  {
  }

  function PlaceOf(c: char): (i: sixbit)
    requires IsBase64(c)
    ensures CharAt(i) == c
  {
    if 'A' <= c <= 'Z' then c as int - 'A' as int
    else if 'a' <= c <= 'z' then c as int - 'a' as int + 26
    else if '0' <= c <= '9' then c as int - '0' as int + 52
    else if c == '+' then 62
    else 63
  }

  /** Bytes as the digits of a number to base 256, the first one most significant, behind `acc`. */
  function Number256(acc: nat, s: seq<byte>): nat
    decreases |s|
  {
    if s == [] then acc else Number256(acc * 256 + s[0], s[1..])
  }

  /** Characters as the digits of a number to base 64, by their places in the alphabet. */
  function Number64(acc: nat, t: string): nat
    decreases |t|
  {
    if t == "" then acc else Number64(acc * 64 + Find(t[0]), t[1..])
  }

  lemma {:induction false} Number64Cons(acc: nat, c: char, t: string)
    ensures Number64(acc, [c] + t) == Number64(acc * 64 + Find(c), t)
  {
    hide Find;
    assert ([c] + t)[1..] == t;
  }

  lemma {:induction false} Number64Four(acc: nat, g: string, t: string)
    requires |g| == 4
    ensures Number64(acc, g + t)
      == Number64((((acc * 64 + Find(g[0])) * 64 + Find(g[1])) * 64 + Find(g[2])) * 64 + Find(g[3]), t)
  {
    hide Number64, Find;
    var a1 := acc * 64 + Find(g[0]);
    var a2 := a1 * 64 + Find(g[1]);
    assert g + t == [g[0]] + ([g[1]] + ([g[2]] + ([g[3]] + t)));
    Number64Cons(acc, g[0], [g[1]] + ([g[2]] + ([g[3]] + t)));
    Number64Cons(a1, g[1], [g[2]] + ([g[3]] + t));
    Number64Cons(a2, g[2], [g[3]] + t);
    Number64Cons(a2 * 64 + Find(g[2]), g[3], t);
  }

  lemma {:induction false} Number256Cons(acc: nat, b: byte, s: seq<byte>)
    ensures Number256(acc, [b] + s) == Number256(acc * 256 + b, s)
  {
    assert ([b] + s)[1..] == s;
  }

  lemma {:induction false} Number256Three(acc: nat, a: byte, b: byte, c: byte, s: seq<byte>)
    ensures Number256(acc, [a, b, c] + s) == Number256(((acc * 256 + a) * 256 + b) * 256 + c, s)
  {
    hide Number256;
    assert [a, b, c] + s == [a] + ([b] + ([c] + s));
    Number256Cons(acc, a, [b] + ([c] + s));
    Number256Cons(acc * 256 + a, b, [c] + s);
    Number256Cons((acc * 256 + a) * 256 + b, c, s);
  }

  /** Three bytes and the four numbers they are split into are the same 24 bits. */
  lemma SameBits(acc: nat, a: byte, b: byte, c: byte)
    ensures (((acc * 64 + First(a)) * 64 + Second(a, b)) * 64 + Third(b, c)) * 64 + Fourth(c) == ((acc * 256 + a) * 256 + b) * 256 + c
  {
  }

  lemma {:induction false} GroupNumber(acc: nat, a: byte, b: byte, c: byte, t: string)
    ensures Number64(acc, Group(a, b, c) + t) == Number64(((acc * 256 + a) * 256 + b) * 256 + c, t)
  {
    hide Find, CharAt, First, Second, Third, Fourth, Number64;
    FindsIt(First(a));
    FindsIt(Second(a, b));
    FindsIt(Third(b, c));
    FindsIt(Fourth(c));
    SameBits(acc, a, b, c);
    Number64Four(acc, Group(a, b, c), t);
  }

  // ------------------------------------------------------------- round trip

  lemma {:induction false} UsableThen(a: string, t: string)
    requires forall i | 0 <= i < |a| :: IsBase64(a[i]) && a[i] != '='
    ensures Usable(a + t) == a + Usable(t)
  {
    if a == "" {
      assert a + t == t && a + Usable(t) == Usable(t);
    } else {
      UsableThen(a[1..], t);
      assert (a + t)[1..] == a[1..] + t;
      assert [a[0]] + (a[1..] + Usable(t)) == a + Usable(t);
    }
  }

  lemma {:induction false} GroupUsable(a: byte, b: byte, c: byte)
    ensures var g := Group(a, b, c); forall i | 0 <= i < 4 :: IsBase64(g[i]) && g[i] != '='
    ensures Ungroup(Group(a, b, c)) == [a, b, c]
  {
    hide Find, CharAt, IsBase64, First, Second, Third, Fourth, Upper, Middle, Lower;
    FindsIt(First(a));
    FindsIt(Second(a, b));
    FindsIt(Third(b, c));
    FindsIt(Fourth(c));
    MergeSplit(a, b, c, 0, 0);
  }

  /** The groups of the encoding stand for the bytes, whatever their number; what is not padding is usable. */
  lemma {:induction false} GroupsRoundTrip(s: seq<byte>)
    ensures DecodedGroups(Usable(Encoded(s))) == s
    ensures |Usable(Encoded(s))| == |s| / 3 * 4 + if |s| % 3 == 0 then 0 else |s| % 3 + 1
  {
    hide Find, CharAt, IsBase64, Group, Ungroup, Usable;
    if |s| >= 3 {
      var g := Group(s[0], s[1], s[2]);
      GroupUsable(s[0], s[1], s[2]);
      UsableThen(g, Encoded(s[3..]));
      GroupsRoundTrip(s[3..]);
      var u := Usable(Encoded(s[3..]));
      assert (g + u)[..4] == g && (g + u)[4..] == u;
      assert s == [s[0], s[1], s[2]] + s[3..];
    } else if s != [] {
      ShortGroup(s);
    } else {
      NothingUsable();
      assert s == [];
    }
  }

  lemma NothingUsable()
    ensures Usable("") == ""
  {
  }

  lemma PaddingUnusable(pad: string)
    requires pad != "" && pad[0] == '='
    ensures Usable(pad) == ""
  {
  }

  lemma {:induction false} ShortGroup(s: seq<byte>)
    requires 1 <= |s| <= 2
    ensures DecodedGroups(Usable(Encoded(s))) == s && |Usable(Encoded(s))| == |s| + 1
  {
    hide Find, CharAt, IsBase64, Group, DecodedGroups, Ungroup, Usable;
    var a, b := s[0], if |s| == 2 then s[1] else 0;
    var n, pad := |s| + 1, if |s| == 1 then "==" else "=";
    var g := Group(a, b, 0);
    GroupUsable(a, b, 0);
    assert forall i | 0 <= i < n :: g[..n][i] == g[i];
    UsableThen(g[..n], pad);
    PaddingUnusable(pad);
    assert g[..n] + "" == g[..n];
    ShortDecoded(s, a, b, n);
  }

  /** A number of `n` bytes, filled with zero bits up to a whole character. */
  function Filled(v: nat, n: nat): nat {
    match n % 3
    case 0 => v
    case 1 => v * 16
    case _ => v * 4
  }

  /** How often the encoding is padded. */
  function Padding(n: nat): string {
    match n % 3
    case 0 => ""
    case 1 => "=="
    case _ => "="
  }

  /**
   The encoding, in the standard alphabet, is the bytes as one long number, the first byte most
   significant, filled with zero bits up to a whole character, and padded.
   */
  lemma {:induction false} EncodedNumber(acc: nat, s: seq<byte>)
    ensures Number64(acc, Usable(Encoded(s))) == Filled(Number256(acc, s), |s|)
    ensures Encoded(s) == Usable(Encoded(s)) + Padding(|s|)
    decreases |s|
  {
    hide Find, CharAt, IsBase64, Group, Usable, Number64, Number256, Filled, Padding, Encoded;
    FilledAlike(Number256(acc, s), |s|);
    if |s| >= 3 {
      var acc' := UsableStep(acc, s);
      EncodedNumber(acc', s[3..]);
      ConcatThree(Group(s[0], s[1], s[2]), Usable(Encoded(s[3..])), Padding(|s|));
    } else if s != [] {
      ShortNumber(acc, s);
    } else {
      NothingUsable();
      NumbersEnd(acc);
      assert Encoded([]) == "" by { NothingEncoded(); }
    }
  }

  lemma NothingEncoded()
    ensures Encoded([]) == ""
  {
  }

  lemma ConcatThree(a: string, b: string, c: string)
    ensures a + (b + c) == a + b + c
  {
  }

  /** One group further: on both sides three bytes more behind `acc`. */
  lemma {:induction false} UsableStep(acc: nat, s: seq<byte>) returns (acc': nat)
    requires |s| >= 3
    ensures Encoded(s) == Group(s[0], s[1], s[2]) + Encoded(s[3..])
    ensures Usable(Encoded(s)) == Group(s[0], s[1], s[2]) + Usable(Encoded(s[3..]))
    ensures Number64(acc, Usable(Encoded(s))) == Number64(acc', Usable(Encoded(s[3..])))
    ensures Number256(acc, s) == Number256(acc', s[3..])
  {
    hide Find, CharAt, IsBase64, Group, Usable, Number64, Number256;
    var rest := Encoded(s[3..]);
    GroupUsable(s[0], s[1], s[2]);
    UsableThen(Group(s[0], s[1], s[2]), rest);
    GroupNumber(acc, s[0], s[1], s[2], Usable(rest));
    Number256Three(acc, s[0], s[1], s[2], s[3..]);
    assert s == [s[0], s[1], s[2]] + s[3..];
    acc' := ((acc * 256 + s[0]) * 256 + s[1]) * 256 + s[2];
  }

  lemma FilledAlike(v: nat, n: nat)
    ensures n >= 3 ==> Filled(v, n) == Filled(v, n - 3) && Padding(n) == Padding(n - 3)
    ensures Filled(v, 0) == v && Padding(0) == ""
  {
  }

  lemma NumbersEnd(acc: nat)
    ensures Number64(acc, "") == acc == Number256(acc, [])
  {
  }

  lemma {:induction false} ShortNumber(acc: nat, s: seq<byte>)
    requires 1 <= |s| <= 2
    ensures Number64(acc, Usable(Encoded(s))) == Filled(Number256(acc, s), |s|)
    ensures Encoded(s) == Usable(Encoded(s)) + Padding(|s|)
  {
    hide Find, CharAt, IsBase64, Group, Usable, Number64, Number256;
    var a, b := s[0], if |s| == 2 then s[1] else 0;
    var n, pad := |s| + 1, Padding(|s|);
    var g := Group(a, b, 0);
    GroupUsable(a, b, 0);
    assert forall i | 0 <= i < n :: g[..n][i] == g[i];
    UsableThen(g[..n], pad);
    PaddingUnusable(pad);
    assert g[..n] + "" == g[..n];
    ShortGroupNumber(acc, a, b, n);
    ShortBytesNumber(acc, s);
  }

  lemma {:induction false} ShortBytesNumber(acc: nat, s: seq<byte>)
    requires 1 <= |s| <= 2
    ensures Number256(acc, s) == if |s| == 1 then acc * 256 + s[0] else (acc * 256 + s[0]) * 256 + s[1]
  {
    hide Number256;
    NumbersEnd(acc * 256 + s[0]);
    if |s| == 1 {
      assert s == [s[0]] + [];
      Number256Cons(acc, s[0], []);
    } else {
      assert s == [s[0]] + ([s[1]] + []);
      Number256Cons(acc, s[0], [s[1]] + []);
      Number256Cons(acc * 256 + s[0], s[1], []);
      NumbersEnd((acc * 256 + s[0]) * 256 + s[1]);
    }
  }

  /** Some first characters of a group. */
  lemma {:induction false} FrontNumber(acc: nat, t: string)
    requires 1 <= |t| <= 3
    ensures Number64(acc, t[..1]) == acc * 64 + Find(t[0])
    ensures |t| >= 2 ==> Number64(acc, t[..2]) == (acc * 64 + Find(t[0])) * 64 + Find(t[1])
    ensures |t| == 3 ==> Number64(acc, t) == ((acc * 64 + Find(t[0])) * 64 + Find(t[1])) * 64 + Find(t[2])
  {
    hide Find, Number64;
    var a1 := acc * 64 + Find(t[0]);
    NumbersEnd(a1);
    assert t[..1] == [t[0]] + "";
    Number64Cons(acc, t[0], "");
    if |t| >= 2 {
      var a2 := a1 * 64 + Find(t[1]);
      NumbersEnd(a2);
      assert t[..2] == [t[0]] + ([t[1]] + "");
      Number64Cons(acc, t[0], [t[1]] + "");
      Number64Cons(a1, t[1], "");
      if |t| == 3 {
        NumbersEnd(a2 * 64 + Find(t[2]));
        assert t == [t[0]] + ([t[1]] + ([t[2]] + ""));
        Number64Cons(acc, t[0], [t[1]] + ([t[2]] + ""));
        Number64Cons(a1, t[1], [t[2]] + "");
        Number64Cons(a2, t[2], "");
      }
    }
  }

  lemma {:induction false} ShortGroupNumber(acc: nat, a: byte, b: byte, n: nat)
    requires 2 <= n <= 3 && (n == 2 ==> b == 0)
    ensures Number64(acc, Group(a, b, 0)[..n]) == if n == 2 then (acc * 256 + a) * 16 else ((acc * 256 + a) * 256 + b) * 4
  {
    hide Find, CharAt, First, Second, Third, Fourth, Number64;
    FindsIt(First(a));
    FindsIt(Second(a, b));
    FindsIt(Third(b, 0));
    var t := Group(a, b, 0)[..n];
    FrontNumber(acc, t);
    assert t[..n] == t;
    ShortBits(acc, a, b);
  }

  lemma ShortBits(acc: nat, a: byte, b: byte)
    ensures (acc * 64 + First(a)) * 64 + Second(a, 0) == (acc * 256 + a) * 16
    ensures ((acc * 64 + First(a)) * 64 + Second(a, b)) * 64 + Third(b, 0) == ((acc * 256 + a) * 256 + b) * 4
  {
  }

  /** What is usable is the longest front part in the alphabet. */
  lemma {:induction false} UsableIs(t: string)
    ensures Usable(t) <= t && forall k | 0 <= k < |Usable(t)| :: IsBase64(t[k]) && t[k] != '='
    ensures |Usable(t)| < |t| ==> t[|Usable(t)|] == '=' || !IsBase64(t[|Usable(t)|])
  {
    hide IsBase64;
    if t != "" && t[0] != '=' && IsBase64(t[0]) {
      UsableIs(t[1..]);
      assert t == [t[0]] + t[1..];
    }
  }

  /** A number of `n` characters without the bits beyond the last whole byte. */
  function Trimmed(v: nat, n: nat): nat {
    match n % 4
    case 0 => v
    case 1 => v / 64
    case 2 => v / 16
    case _ => v / 4
  }

  /** Decoding characters of the alphabet, whatever their number, gives the bytes of that number, less the bits beyond. */
  lemma {:induction false} DecodedNumber(acc: nat, t: string)
    requires forall k | 0 <= k < |t| :: IsBase64(t[k])
    ensures Number256(acc, DecodedGroups(t)) == Trimmed(Number64(acc, t), |t|)
    ensures |DecodedGroups(t)| == |t| / 4 * 3 + if |t| % 4 == 0 then 0 else |t| % 4 - 1
    decreases |t|
  {
    hide Find, IsBase64, Ungroup, Number64, Number256, Trimmed;
    TrimmedAlike(Number64(acc, t), |t|);
    if t == "" {
      NumbersEnd(acc);
    } else if |t| < 4 {
      ShortDecodedNumber(acc, t);
    } else {
      var g, rest := t[..4], t[4..];
      var acc' := (((acc * 64 + Find(g[0])) * 64 + Find(g[1])) * 64 + Find(g[2])) * 64 + Find(g[3]);
      assert t == g + rest;
      Number64Four(acc, g, rest);
      Places(t, 4);
      UngroupNumber(acc, g);
      var b := Ungroup(g);
      assert b == [b[0], b[1], b[2]];
      Number256Three(acc, b[0], b[1], b[2], DecodedGroups(rest));
      DecodedNumber(acc', rest);
    }
  }

  lemma TrimmedAlike(v: nat, n: nat)
    ensures n >= 4 ==> Trimmed(v, n) == Trimmed(v, n - 4)
    ensures Trimmed(v, 0) == v
  {
  }

  lemma {:induction false} Places(t: string, n: nat)
    requires n <= |t| && forall k | 0 <= k < |t| :: IsBase64(t[k])
    ensures forall k | 0 <= k < n :: Find(t[k]) < 64
  {
    hide Find, IsBase64;
    forall k | 0 <= k < n ensures Find(t[k]) < 64 {
      FindsIt(PlaceOf(t[k]));
    }
  }

  lemma {:induction false} UngroupNumber(acc: nat, g: string)
    requires |g| == 4 && forall k | 0 <= k < 4 :: Find(g[k]) < 64
    ensures ((acc * 256 + Ungroup(g)[0]) * 256 + Ungroup(g)[1]) * 256 + Ungroup(g)[2]
      == (((acc * 64 + Find(g[0])) * 64 + Find(g[1])) * 64 + Find(g[2])) * 64 + Find(g[3])
  {
    hide Find, Upper, Middle, Lower;
    MergedBits(acc, Find(g[0]), Find(g[1]), Find(g[2]), Find(g[3]));
  }

  lemma MergedBits(acc: nat, w: byte, x: byte, y: byte, z: byte)
    requires w < 64 && x < 64 && y < 64 && z < 64
    ensures ((acc * 256 + Upper(w, x)) * 256 + Middle(x, y)) * 256 + Lower(y, z) == (((acc * 64 + w) * 64 + x) * 64 + y) * 64 + z
  {
    hide Upper, Middle, Lower;
    MergedBytes(w, x, y, z);
  }

  lemma MergedBytes(w: byte, x: byte, y: byte, z: byte)
    requires w < 64 && x < 64 && y < 64 && z < 64
    ensures Upper(w, x) == w * 4 + x / 16 && Middle(x, y) == x % 16 * 16 + y / 4 && Lower(y, z) == y % 4 * 64 + z
  {
  }

  lemma MergedShort(acc: nat, w: byte, x: byte, y: byte)
    requires w < 64 && x < 64 && y < 64
    ensures acc * 256 + Upper(w, x) == ((acc * 64 + w) * 64 + x) / 16
    ensures (acc * 256 + Upper(w, x)) * 256 + Middle(x, y) == (((acc * 64 + w) * 64 + x) * 64 + y) / 4
  {
    hide Upper, Middle, Lower;
    MergedBytes(w, x, y, 0);
    Quotient((acc * 256 + Upper(w, x)), x % 16, 16);
    Quotient((acc * 256 + Upper(w, x)) * 256 + Middle(x, y), y % 4, 4);
  }

  lemma Quotient(q: nat, rest: nat, d: nat)
    requires rest < d && (d == 4 || d == 16)
    ensures (q * d + rest) / d == q
  {
  }

  lemma {:induction false} ShortDecodedNumber(acc: nat, t: string)
    requires 0 < |t| < 4 && forall k | 0 <= k < |t| :: IsBase64(t[k])
    ensures Number256(acc, DecodedGroups(t)) == Trimmed(Number64(acc, t), |t|) && |DecodedGroups(t)| == |t| - 1
  {
    hide Find, IsBase64, Number64, Number256, DecodedGroups, Upper, Middle, Lower;
    var g := t + seq(4 - |t|, i => '\0');
    ShortGroups(t);
    var b := DecodedGroups(t);
    Places(t, |t|);
    FrontNumber(acc, t);
    assert t[..|t|] == t && forall k | 0 <= k < |t| :: g[k] == t[k];
    if |t| == 1 {
      NumbersEnd(acc);
      assert b == [];
    } else {
      MergedShort(acc, Find(t[0]), Find(t[1]), if |t| == 3 then Find(t[2]) else 0);
      ShortBytesNumber(acc, b);
    }
  }

  /** The number of bytes from which on the encoding is too long for the decoder's index. */
  const TOO_MANY := 0x6000_0000

  /** Decoding what was encoded gives back the bytes, or overflows the index: from 1.5 * 2^30 bytes on, always. */
  lemma {:induction false} RoundTrip(s: seq<byte>)
    ensures Decoded(Encoded(s)) == if |s| < TOO_MANY then Some(s) else None
  {
    hide Encoded, Usable, DecodedGroups;
    GroupsRoundTrip(s);
  }

  lemma ShortGroups(t: string)
    requires 0 < |t| < 4
    ensures DecodedGroups(t) == Ungroup(t + seq(4 - |t|, i => '\0'))[..|t| - 1]
  {
    hide Ungroup;
  }

  lemma {:induction false} ShortDecoded(s: seq<byte>, a: byte, b: byte, n: nat)
    requires 1 <= |s| <= 2 && n == |s| + 1 && a == s[0] && b == if |s| == 2 then s[1] else 0
    ensures DecodedGroups(Group(a, b, 0)[..n]) == s
  {
    hide DecodedGroups, Ungroup, Group;
    var g := Group(a, b, 0);
    var t := g[..n] + seq(4 - n, i => '\0');
    ShortGroups(g[..n]);
    ShortUngroup(a, b, t, n);
    assert s == if n == 2 then [a] else [a, b];
    assert Ungroup(t)[..|s|] == s;
  }

  lemma {:induction false} ShortUngroup(a: byte, b: byte, t: string, n: nat)
    requires 2 <= n <= 3 && |t| == 4 && t[..n] == Group(a, b, 0)[..n]
    ensures Ungroup(t)[0] == a && (n == 3 ==> Ungroup(t)[1] == b)
  {
    hide CharAt, Find, First, Second, Third, Fourth, Ungroup, Split;
    FirstOfGroup(a, b, t, n);
    FirstBack(a, b, t);
    if n == 3 {
      SecondBack(a, b, 0, t);
    }
  }

  lemma FirstOfGroup(a: byte, b: byte, t: string, n: nat)
    requires 2 <= n <= 3 && |t| == 4 && t[..n] == Group(a, b, 0)[..n]
    ensures t[0] == CharAt(First(a)) && t[1] == CharAt(Second(a, b)) && (n == 3 ==> t[2] == CharAt(Third(b, 0)))
  {
    hide CharAt, First, Second, Third, Fourth;
    var g := Group(a, b, 0);
    assert t[0] == t[..n][0] == g[..n][0] && t[1] == t[..n][1] == g[..n][1] && (n == 3 ==> t[2] == t[..n][2] == g[..n][2]);
  }

  lemma FirstBack(a: byte, b: byte, t: string)
    requires |t| == 4 && t[0] == CharAt(First(a)) && t[1] == CharAt(Second(a, b))
    ensures Ungroup(t)[0] == a
  {
    hide CharAt, Find, IsBase64, First, Second, Upper, Middle, Lower;
    FindsIt(First(a));
    FindsIt(Second(a, b));
    FirstByte(a, b);
  }

  lemma SecondBack(a: byte, b: byte, c: byte, t: string)
    requires |t| == 4 && t[1] == CharAt(Second(a, b)) && t[2] == CharAt(Third(b, c))
    ensures Ungroup(t)[1] == b
  {
    hide CharAt, Find, IsBase64, Second, Third, Upper, Middle, Lower;
    FindsIt(Second(a, b));
    FindsIt(Third(b, c));
    SecondByte(a, b, c);
  }

  /** `Base64EncodedLength`. */
  lemma {:induction false} EncodedLength(s: seq<byte>)
    ensures |Encoded(s)| == (|s| + 2) / 3 * 4
  {
    hide Group;
    if |s| >= 3 {
      EncodedLength(s[3..]);
      assert (|s| - 3 + 2) / 3 + 1 == (|s| + 2) / 3;
    }
  }

  const UINT_RANGE := 0x1_0000_0000

  /** The length cast to an unsigned 32-bit number. */
  function CastLength(n: nat): (r: nat)
    ensures r <= n && (r == n <==> n < UINT_RANGE)
  {
    n % UINT_RANGE
  }

  /**
   Through the strings: the bytes come back exactly when the encoding fits the index. That limit
   is reached long before the length is cut off.
   */
  lemma {:induction false} RoundTripExact(s: seq<byte>)
    ensures Decoded(Encoded(s[..CastLength(|s|)])) == Some(s) <==> |s| < TOO_MANY
  {
    hide Encoded, Decoded;
    var c := CastLength(|s|);
    RoundTrip(s[..c]);
    assert |s[..c]| == c;
    if c == |s| {
      assert s[..c] == s;
    }
  }

  /** Apart from the index, only the cast loses bytes. */
  lemma {:induction false} CastExact(s: seq<byte>)
    ensures DecodedGroups(Usable(Encoded(s[..CastLength(|s|)]))) == s <==> |s| < UINT_RANGE
  {
    hide Encoded, Usable, DecodedGroups;
    var c := CastLength(|s|);
    GroupsRoundTrip(s[..c]);
    assert |s[..c]| == c;
    if c == |s| {
      assert s[..c] == s;
    }
  }

  // ------------------------------------------------------------- the loops

  lemma {:induction false} EncodedAppend(s: seq<byte>, t: seq<byte>)
    requires |s| % 3 == 0
    ensures Encoded(s + t) == Encoded(s) + Encoded(t)
  {
    hide Group;
    if s == [] {
      assert s + t == t && "" + Encoded(t) == Encoded(t);
    } else {
      EncodedAppend(s[3..], t);
      assert (s + t)[3..] == s[3..] + t;
      assert Group(s[0], s[1], s[2]) + (Encoded(s[3..]) + Encoded(t)) == Group(s[0], s[1], s[2]) + Encoded(s[3..]) + Encoded(t);
    }
  }

  lemma {:induction false} DecodedAppend(s: string, t: string)
    requires |s| % 4 == 0
    ensures DecodedGroups(s + t) == DecodedGroups(s) + DecodedGroups(t)
  {
    hide Ungroup;
    if s == "" {
      assert s + t == t && [] + DecodedGroups(t) == DecodedGroups(t);
    } else {
      DecodedAppend(s[4..], t);
      assert (s + t)[4..] == s[4..] + t && (s + t)[..4] == s[..4];
      assert Ungroup(s[..4]) + (DecodedGroups(s[4..]) + DecodedGroups(t)) == Ungroup(s[..4]) + DecodedGroups(s[4..]) + DecodedGroups(t);
    }
  }

  lemma OneGroup(a: byte, b: byte, c: byte)
    ensures Encoded([a, b, c]) == Group(a, b, c)
  {
    hide Group;
    assert [a, b, c][3..] == [];
  }

  lemma OneUngroup(g: string)
    requires |g| == 4
    ensures DecodedGroups(g) == Ungroup(g)
  {
    hide Ungroup;
    assert g[..4] == g && g[4..] == "";
  }

  /** The first `n` characters of a group, appended one by one. */
  method AppendChars(ret: string, group: array<byte>, n: nat) returns (r: string)
    requires group.Length == 3 && n <= 4
    ensures r == ret + Group(group[0], group[1], group[2])[..n]
  {
    hide CharAt, Split;
    var split := Split(group[0], group[1], group[2]);
    var four := new sixbit[4];
    four[0], four[1], four[2], four[3] := split.0, split.1, split.2, split.3;
    ghost var g := Group(group[0], group[1], group[2]);
    assert forall j | 0 <= j < 4 :: CharAt(four[j]) == g[j];
    hide Group;
    r := ret;
    for j := 0 to n
      invariant r == ret + g[..j]
    {
      r := r + [CharAt(four[j])];
      assert g[..j + 1] == g[..j] + [g[j]];
    }
  }

  /** `Encode` on a pointer and a length. */
  method EncodeBytes(bytes: seq<byte>, inLen: nat) returns (ret: string)
    requires inLen <= |bytes|
    ensures ret == Encoded(bytes[..inLen])
  {
    hide Group, Encoded, Encoding;
    ret := "";
    var three := new byte[3];
    var i, k := 0, 0;
    EncodingStart(bytes, three[..]);
    while k < inLen
      invariant i < 3 && k <= inLen && Encoding(bytes, k, i, three[..], ret)
    {
      EncodingTake(bytes, k, i, three[..], ret);
      three[i] := bytes[k];
      i, k := i + 1, k + 1;
      if i == 3 {
        EncodingFlush(bytes, k, three[..], ret);
        ret := AppendChars(ret, three, 4);
        i := 0;
      }
    }
    EncodingEnd(bytes, k, i, three[..], ret);
    if i != 0 {
      ret := EncodeTail(ret, three, i);
    }
  }

  /** `k` bytes were read, and the last `i` of them wait in the buffer. */
  predicate Encoding(bytes: seq<byte>, k: nat, i: nat, buf: seq<byte>, ret: string) {
    && |buf| == 3 && i <= 3 && i <= k <= |bytes| && (k - i) % 3 == 0
    && ret == Encoded(bytes[..k - i]) && buf[..i] == bytes[k - i..k]
  }

  lemma EncodingStart(bytes: seq<byte>, buf: seq<byte>)
    requires |buf| == 3
    ensures Encoding(bytes, 0, 0, buf, "")
  {
  }

  /** One more item waits in the buffer. */
  lemma OneWaiting<T>(items: seq<T>, k: nat, i: nat, buf: seq<T>)
    requires i <= k < |items| && i < |buf| && buf[..i] == items[k - i..k]
    ensures buf[i := items[k]][..i + 1] == items[k - i..k + 1]
  {
    assert buf[i := items[k]][..i + 1] == buf[..i] + [items[k]];
    assert items[k - i..k + 1] == items[k - i..k] + [items[k]];
  }

  lemma EncodingTake(bytes: seq<byte>, k: nat, i: nat, buf: seq<byte>, ret: string)
    requires Encoding(bytes, k, i, buf, ret) && i < 3 && k < |bytes|
    ensures |buf| == 3 && Encoding(bytes, k + 1, i + 1, buf[i := bytes[k]], ret)
  {
    hide Encoded;
    OneWaiting(bytes, k, i, buf);
  }

  lemma EncodingFlush(bytes: seq<byte>, k: nat, buf: seq<byte>, ret: string)
    requires Encoding(bytes, k, 3, buf, ret)
    ensures |buf| == 3 && Encoding(bytes, k, 0, buf, ret + Group(buf[0], buf[1], buf[2])[..4])
  {
    hide Encoded, Group;
    assert buf == buf[..3] && buf == [buf[0], buf[1], buf[2]];
    ThreeMore(bytes, k - 3, buf[0], buf[1], buf[2]);
  }

  lemma EncodingEnd(bytes: seq<byte>, k: nat, i: nat, buf: seq<byte>, ret: string)
    requires Encoding(bytes, k, i, buf, ret) && i < 3
    ensures |buf| == 3
    ensures Encoded(bytes[..k]) ==
      if i == 0 then ret else ret + Group(buf[0], if i == 2 then buf[1] else 0, 0)[..i + 1] + Pad(3 - i)
  {
    hide Encoded, Group, Pad;
    if i != 0 {
      assert buf[0] == buf[..i][0] && (i == 2 ==> buf[1] == buf[..i][1]);
      LastGroup(bytes, k, i, if i == 2 then buf[1] else 0);
    }
  }

  /** The short group at the end: filled with zeros, and padded. */
  method EncodeTail(ret: string, three: array<byte>, count: nat) returns (r: string)
    requires three.Length == 3 && 1 <= count <= 2
    modifies three
    ensures r == ret + Group(old(three[0]), if count == 2 then old(three[1]) else 0, 0)[..count + 1] + Pad(3 - count)
  {
    hide Group;
    var i := count;
    for j := i to 3
      invariant three[0] == old(three[0]) && (i == 2 ==> three[1] == old(three[1]))
      invariant forall l | i <= l < j :: three[l] == 0
    {
      three[j] := 0;
    }
    r := AppendChars(ret, three, i + 1);
    ghost var chars := r;
    assert chars == chars + Pad(0);
    while i < 3
      invariant count <= i <= 3 && r == chars + Pad(i - count)
    {
      assert Pad(i - count) + "=" == Pad(i - count + 1);
      r := r + "=";
      i := i + 1;
    }
  }

  function Pad(n: nat): string {
    seq(n, i => '=')
  }

  lemma ThreeMore(bytes: seq<byte>, k: nat, a: byte, b: byte, c: byte)
    requires k + 3 <= |bytes| && k % 3 == 0 && bytes[k..k + 3] == [a, b, c]
    ensures Encoded(bytes[..k + 3]) == Encoded(bytes[..k]) + Group(a, b, c)[..4]
  {
    hide Group;
    assert bytes[..k + 3] == bytes[..k] + [a, b, c];
    EncodedAppend(bytes[..k], [a, b, c]);
    OneGroup(a, b, c);
    assert Group(a, b, c)[..4] == Group(a, b, c);
  }

  lemma LastGroup(bytes: seq<byte>, n: nat, i: nat, b: byte)
    requires 1 <= i <= 2 && i <= n <= |bytes| && (n - i) % 3 == 0 && b == if i == 2 then bytes[n - 1] else 0
    ensures Encoded(bytes[..n]) == Encoded(bytes[..n - i]) + Group(bytes[n - i], b, 0)[..i + 1] + Pad(3 - i)
  {
    hide Group;
    assert bytes[..n] == bytes[..n - i] + bytes[n - i..n];
    EncodedAppend(bytes[..n - i], bytes[n - i..n]);
    assert Pad(3 - i) == if i == 1 then "==" else "=";
    assert Encoded(bytes[n - i..n]) == Group(bytes[n - i], b, 0)[..i + 1] + Pad(3 - i);
    hide Encoded, Pad;
    assert Encoded(bytes[..n - i]) + (Group(bytes[n - i], b, 0)[..i + 1] + Pad(3 - i))
      == Encoded(bytes[..n - i]) + Group(bytes[n - i], b, 0)[..i + 1] + Pad(3 - i);
  }

  /** `Encode` on a string. */
  method Encode(s: seq<byte>) returns (ret: string)
    ensures ret == Encoded(s[..CastLength(|s|)])
  {
    ret := EncodeBytes(s, CastLength(|s|));
  }

  /** The first `n` bytes of a group, appended one by one. */
  method AppendBytes(ret: seq<byte>, group: array<char>, n: nat) returns (r: seq<byte>)
    requires group.Length == 4 && n <= 3
    ensures r == ret + Ungroup(group[..])[..n]
  {
    hide Find, Merge;
    var four := new byte[4];
    for j := 0 to 4
      invariant forall l | 0 <= l < j :: four[l] == Find(group[l])
    {
      four[j] := Find(group[j]);
    }
    var merged := Merge(four[0], four[1], four[2], four[3]);
    var three := new byte[3];
    three[0], three[1], three[2] := merged.0, merged.1, merged.2;
    ghost var g := Ungroup(group[..]);
    assert three[..] == g;
    hide Ungroup;
    r := ret;
    for j := 0 to n
      invariant r == ret + g[..j]
    {
      r := r + [three[j]];
      assert g[..j + 1] == g[..j] + [g[j]];
    }
  }

  lemma {:induction false} UsablePart(t: string, k: nat)
    requires k <= |t| && forall i | 0 <= i < k :: IsBase64(t[i]) && t[i] != '='
    requires k == |t| || t[k] == '=' || !IsBase64(t[k])
    ensures Usable(t) == t[..k]
  {
    hide IsBase64;
    assert t == t[..k] + t[k..];
    UsableThen(t[..k], t[k..]);
    assert Usable(t[k..]) == "";
    assert t[..k] + "" == t[..k];
  }

  lemma {:induction false} UsableAtLeast(t: string, k: nat)
    requires k <= |t| && forall i | 0 <= i < k :: IsBase64(t[i]) && t[i] != '='
    ensures k <= |Usable(t)|
  {
    hide IsBase64;
    assert t == t[..k] + t[k..];
    UsableThen(t[..k], t[k..]);
  }

  lemma FourMore(t: string, k: nat, g: string)
    requires k + 4 <= |t| && k % 4 == 0 && t[k..k + 4] == g
    ensures DecodedGroups(t[..k + 4]) == DecodedGroups(t[..k]) + Ungroup(g)[..3]
  {
    hide Ungroup;
    assert t[..k + 4] == t[..k] + g;
    DecodedAppend(t[..k], g);
    OneUngroup(g);
    assert Ungroup(g)[..3] == Ungroup(g);
  }

  lemma LastUngroup(t: string, k: nat, i: nat, g: string)
    requires 1 <= i <= 3 && i <= k <= |t| && (k - i) % 4 == 0 && |g| == 4
    requires g == t[k - i..k] + seq(4 - i, l => '\0')
    ensures DecodedGroups(t[..k]) == DecodedGroups(t[..k - i]) + Ungroup(g)[..i - 1]
  {
    hide Ungroup;
    assert t[..k] == t[..k - i] + t[k - i..k];
    DecodedAppend(t[..k - i], t[k - i..k]);
  }

  /** `k` usable characters were read, and the last `i` of them wait in the buffer. */
  predicate Decoding(t: string, k: nat, i: nat, buf: string, ret: seq<byte>) {
    && |buf| == 4 && i <= 4 && i <= k <= |t| && (k - i) % 4 == 0
    && (forall l | 0 <= l < k :: IsBase64(t[l]) && t[l] != '=')
    && ret == DecodedGroups(t[..k - i]) && buf[..i] == t[k - i..k]
  }

  lemma DecodingStart(t: string, buf: string)
    requires |buf| == 4
    ensures Decoding(t, 0, 0, buf, [])
  {
  }

  lemma DecodingTake(t: string, k: nat, i: nat, buf: string, ret: seq<byte>)
    requires Decoding(t, k, i, buf, ret) && i < 4 && k < |t| && IsBase64(t[k]) && t[k] != '='
    ensures |buf| == 4 && Decoding(t, k + 1, i + 1, buf[i := t[k]], ret)
  {
    hide DecodedGroups, IsBase64;
    OneWaiting(t, k, i, buf);
  }

  lemma DecodingFlush(t: string, k: nat, buf: string, ret: seq<byte>)
    requires Decoding(t, k, 4, buf, ret)
    ensures |buf| == 4 && Decoding(t, k, 0, buf, ret + Ungroup(buf)[..3])
  {
    hide DecodedGroups, Ungroup, IsBase64;
    assert buf == buf[..4];
    FourMore(t, k - 4, buf);
  }

  lemma DecodingEnd(t: string, k: nat, i: nat, buf: string, ret: seq<byte>)
    requires Decoding(t, k, i, buf, ret) && i < 4 && (k == |t| || t[k] == '=' || !IsBase64(t[k]))
    ensures |buf| == 4
    ensures |Usable(t)| == k
    ensures DecodedGroups(Usable(t)) == if i == 0 then ret else ret + Ungroup(buf[..i] + seq(4 - i, l => '\0'))[..i - 1]
  {
    hide DecodedGroups, Ungroup, IsBase64;
    UsablePart(t, k);
    if i != 0 {
      LastUngroup(t, k, i, buf[..i] + seq(4 - i, l => '\0'));
    }
  }

  /** `k` characters counted are more than the index holds. */
  lemma DecodingTooMany(t: string, k: nat, i: nat, buf: string, ret: seq<byte>)
    requires Decoding(t, k, i, buf, ret) && k >= INT_RANGE
    ensures Decoded(t) == None
  {
    UsableAtLeast(t, k);
  }

  /** `Decode`; nothing is returned where the index of the source would overflow. */
  method Decode(t: string) returns (r: Option<seq<byte>>)
    ensures r == Decoded(t)
  {
    hide DecodedGroups, Ungroup, IsBase64, Decoding, Usable;
    var ret: seq<byte> := [];
    var four := new char[4];
    var i := 0;
    var k: Index := 0;
    DecodingStart(t, four[..]);
    while k < |t| && t[k] != '=' && IsBase64(t[k])
      invariant i < 4 && k <= |t| && Decoding(t, k, i, four[..], ret)
      decreases |t| - k
    {
      DecodingTake(t, k, i, four[..], ret);
      four[i] := t[k];
      i := i + 1;
      if k == INT_RANGE - 1 {
        DecodingTooMany(t, k + 1, i, four[..], ret);
        return None;
      }
      k := k + 1;
      if i == 4 {
        DecodingFlush(t, k, four[..], ret);
        ret := AppendBytes(ret, four, 3);
        i := 0;
      }
    }
    DecodingEnd(t, k, i, four[..], ret);
    if i != 0 {
      assert four[..][..i] == four[..i];
      ret := DecodeTail(ret, four, i);
    }
    r := Some(ret);
  }

  /** The short group at the end, filled with characters not in the table. */
  method DecodeTail(ret: seq<byte>, four: array<char>, i: nat) returns (r: seq<byte>)
    requires four.Length == 4 && 1 <= i <= 3
    modifies four
    ensures r == ret + Ungroup(old(four[..i]) + seq(4 - i, l => '\0'))[..i - 1]
  {
    hide Ungroup;
    for j := i to 4
      invariant four[..i] == old(four[..i]) && forall l | i <= l < j :: four[l] == '\0'
    {
      four[j] := '\0';
    }
    assert four[..] == four[..i] + seq(4 - i, l => '\0');
    r := AppendBytes(ret, four, i - 1);
  }
}
