/**
 The wire form of a service message: the sender's id, a zero byte, the receiver's id, a zero
 byte, four bytes of message id, and the payload.
 */
module KnetMessage {
  import opened Wrappers
  import opened Bytes

  datatype Received = Received(fromSid: seq<byte>, toSid: seq<byte>, msgId: int32, payload: seq<byte>, key: seq<byte>)

  /** What `MessageDecoder::Encode` writes; nothing when a service id is empty. */
  function Encoding(fromSid: seq<byte>, toSid: seq<byte>, msgId: int32, payload: seq<byte>): (r: seq<byte>) {
    if fromSid == [] || toSid == [] then [] else fromSid + [0] + toSid + [0] + Store(msgId) + payload
  }

  /** Nothing is sent exactly when a service id is empty. */
  lemma EmptyIdSendsNothing(fromSid: seq<byte>, toSid: seq<byte>, msgId: int32, payload: seq<byte>)
    ensures Encoding(fromSid, toSid, msgId, payload) == [] <==> fromSid == [] || toSid == []
  {
    if fromSid != [] && toSid != [] {
      assert Encoding(fromSid, toSid, msgId, payload)[0] == fromSid[0];
    }
  }

  /** A message on the wire, byte for byte: sender, receiver, id, payload. */
  lemma MessageBytes()
    ensures Encoding([65, 66], [67], 0x0403_0201, [9, 8]) == [65, 66, 0, 67, 0, 1, 2, 3, 4, 9, 8]
  {
  }

  /** The first zero byte at or after `i`; the length when there is none. */
  function ZeroFrom(p: seq<byte>, i: nat): (z: nat)
    requires i <= |p|
    ensures i <= z <= |p| && (forall k | i <= k < z :: p[k] != 0) && (z < |p| ==> p[z] == 0)
    decreases |p| - i
  {
    if i == |p| || p[i] == 0 then i else ZeroFrom(p, i + 1)
  }

  /** `MessageDecoder::Decode`. */
  function Decoding(p: seq<byte>, key: seq<byte>): (r: Option<Received>) {
    if |p| <= 4 || key == [] then None
    else
      var a := ZeroFrom(p, 0);
      if a == |p| then None
      else
        var b := ZeroFrom(p, a + 1);
        if b == |p| || a == 0 || b == a + 1 || b + 5 > |p| then None
        else Some(Received(p[..a], p[a + 1..b], Load(p[b + 1..b + 5]), p[b + 5..], key))
  }

  predicate NulFree(s: seq<byte>) {
    forall i | 0 <= i < |s| :: s[i] != 0
  }

  predicate Proper(sid: seq<byte>) {
    sid != [] && NulFree(sid)
  }

  lemma StoreLoaded(b: seq<byte>)
    requires |b| == 4
    ensures Store(Load(b)) == b
  {
    var u3: int := b[3];
    var u2 := (b[2] as int) + 0x100 * u3;
    var u1 := (b[1] as int) + 0x100 * u2;
    var u := (b[0] as int) + 0x100 * u1;
    OneDigit(b[2], u3);
    OneDigit(b[1], u2);
    OneDigit(b[0], u1);
    Unsigned(b, u);
    assert Store(Load(b)) == [u % 0x100, u / 0x100 % 0x100, u / 0x100 / 0x100 % 0x100, u / 0x100 / 0x100 / 0x100] by { hide Load; }
  }

  lemma OneDigit(d: byte, rest: int)
    ensures ((d as int) + 0x100 * rest) / 0x100 == rest && ((d as int) + 0x100 * rest) % 0x100 == d
  {
  }

  /** What is loaded is the unsigned value, moved into the range of signed numbers. */
  lemma Unsigned(b: seq<byte>, u: int)
    requires |b| == 4 && u == (b[0] as int) + 0x100 * ((b[1] as int) + 0x100 * ((b[2] as int) + 0x100 * (b[3] as int)))
    ensures 0 <= u < 0x1_0000_0000 && u == if Load(b) < 0 then Load(b) + 0x1_0000_0000 else Load(b)
  {
  }

  lemma {:induction false} ZeroIs(p: seq<byte>, i: nat, z: nat)
    requires i <= z < |p| && p[z] == 0 && forall k | i <= k < z :: p[k] != 0
    ensures ZeroFrom(p, i) == z
  {
  }

  /** Where the parts of an encoding are. */
  lemma Parts(f: seq<byte>, t: seq<byte>, id: seq<byte>, payload: seq<byte>, p: seq<byte>)
    requires p == f + [0] + t + [0] + id + payload && |id| == 4
    ensures var (a, b) := (|f|, |f| + 1 + |t|);
      && |p| == b + 5 + |payload| && p[..a] == f && p[a] == 0 && p[a + 1..b] == t && p[b] == 0
      && p[b + 1..b + 5] == id && p[b + 5..] == payload
  {
  }

  lemma Pieces(p: seq<byte>, a: nat, b: nat)
    requires a < b && b + 5 <= |p| && p[a] == 0 && p[b] == 0
    ensures p == p[..a] + [0] + p[a + 1..b] + [0] + p[b + 1..b + 5] + p[b + 5..]
  {
    assert p == p[..a] + [p[a]] + p[a + 1..];
    assert p[a + 1..] == p[a + 1..b] + [p[b]] + p[b + 1..];
    assert p[b + 1..] == p[b + 1..b + 5] + p[b + 5..];
  }

  lemma ProperPiece(p: seq<byte>, i: nat, z: nat)
    requires i < z <= |p| && forall k | i <= k < z :: p[k] != 0
    ensures Proper(p[i..z]) && (i == 0 ==> Proper(p[..z]))
  {
    assert p[0..z] == p[..z];
  }

  lemma Encoded(p: seq<byte>, a: nat, b: nat)
    requires a < b && b + 5 <= |p| && p == p[..a] + [0] + p[a + 1..b] + [0] + p[b + 1..b + 5] + p[b + 5..]
    requires Proper(p[..a]) && Proper(p[a + 1..b]) && Store(Load(p[b + 1..b + 5])) == p[b + 1..b + 5]
    ensures Encoding(p[..a], p[a + 1..b], Load(p[b + 1..b + 5]), p[b + 5..]) == p
  {
    hide Store, Load, NulFree;
  }

  lemma DecodedAt(p: seq<byte>, key: seq<byte>) returns (a: nat, b: nat)
    requires Decoding(p, key).Some?
    ensures 0 < a && a + 1 < b && b + 5 <= |p| && p[a] == 0 && p[b] == 0
    ensures forall k | 0 <= k < b && k != a :: p[k] != 0
    ensures Decoding(p, key) == Some(Received(p[..a], p[a + 1..b], Load(p[b + 1..b + 5]), p[b + 5..], key))
  {
    hide Load, ZeroFrom;
    a := ZeroFrom(p, 0);
    b := ZeroFrom(p, a + 1);
  }

  /** Encoding what was decoded gives back the bytes. */
  lemma {:induction false} EncodeDecoded(p: seq<byte>, key: seq<byte>)
    requires Decoding(p, key).Some?
    ensures var r := Decoding(p, key).value;
      Proper(r.fromSid) && Proper(r.toSid) && r.key == key && Encoding(r.fromSid, r.toSid, r.msgId, r.payload) == p
  {
    hide Store, Load, Encoding, Decoding, Proper;
    var a, b := DecodedAt(p, key);
    StoreLoaded(p[b + 1..b + 5]);
    ProperPiece(p, 0, a);
    ProperPiece(p, a + 1, b);
    Pieces(p, a, b);
    Encoded(p, a, b);
  }

  lemma {:induction false} DecodeEncoded(f: seq<byte>, t: seq<byte>, id: int32, payload: seq<byte>, key: seq<byte>)
    requires key != [] && Proper(f) && Proper(t)
    ensures Decoding(Encoding(f, t, id, payload), key) == Some(Received(f, t, id, payload, key))
  {
    hide Store, Load, ZeroFrom;
    var p := Encoding(f, t, id, payload);
    Parts(f, t, Store(id), payload, p);
    LoadStored(id);
    hide Encoding;
    assert p[0..|f|] == p[..|f|];
    ZeroAfter(p, 0, |f|, f);
    ZeroAfter(p, |f| + 1, |f| + 1 + |t|, t);
  }

  lemma ZeroAfter(p: seq<byte>, i: nat, z: nat, f: seq<byte>)
    requires i <= z < |p| && p[i..z] == f && p[z] == 0 && Proper(f)
    ensures ZeroFrom(p, i) == z
  {
    hide ZeroFrom;
    forall k | i <= k < z ensures p[k] != 0 {
      assert p[k] == f[k - i];
    }
    ZeroIs(p, i, z);
  }

  /** Decoding restores all fields of a message exactly when its service ids are not empty and have no zero byte. */
  lemma {:induction false} DecodeExact(f: seq<byte>, t: seq<byte>, id: int32, payload: seq<byte>, key: seq<byte>)
    requires key != []
    ensures Decoding(Encoding(f, t, id, payload), key) == Some(Received(f, t, id, payload, key)) <==> Proper(f) && Proper(t)
  {
    hide Encoding, Decoding, Proper;
    if Proper(f) && Proper(t) {
      DecodeEncoded(f, t, id, payload, key);
    }
    if Decoding(Encoding(f, t, id, payload), key).Some? {
      EncodeDecoded(Encoding(f, t, id, payload), key);
    }
  }

  /** The bytes that are accepted are exactly the encodings of messages with proper service ids. */
  lemma {:induction false} AcceptedExactly(p: seq<byte>, key: seq<byte>)
    ensures Decoding(p, key).Some? <==>
      (key != [] && exists f: seq<byte>, t: seq<byte>, id: int32, payload: seq<byte> ::
        Proper(f) && Proper(t) && Encoding(f, t, id, payload) == p)
  {
    if Decoding(p, key).Some? {
      EncodeDecoded(p, key);
    }
    if key != [] {
      forall f: seq<byte>, t: seq<byte>, id: int32, payload: seq<byte> | Proper(f) && Proper(t) && Encoding(f, t, id, payload) == p
        ensures Decoding(p, key).Some?
      {
        DecodeExact(f, t, id, payload, key);
      }
    }
  }

  class SendMsg {
    const fromSid: seq<byte>
    const toSid: seq<byte>
    const msgId: int32
    const payload: seq<byte>
    var buffer: array<byte>

    constructor (fromSid: seq<byte>, toSid: seq<byte>, msgId: int32, payload: seq<byte>)
      ensures this.fromSid == fromSid && this.toSid == toSid && this.msgId == msgId && this.payload == payload
      ensures buffer[..] == []
    {
      this.fromSid, this.toSid, this.msgId, this.payload := fromSid, toSid, msgId, payload;
      buffer := new byte[0];
    }

    /** `MessageDecoder::Encode`: the buffer is cleared to its size, and a position moves through it. */
    method Encode()
      modifies this
      ensures fromSid != [] && toSid != [] ==> fresh(buffer) && buffer[..] == Encoding(fromSid, toSid, msgId, payload)
      ensures fromSid == [] || toSid == [] ==> buffer == old(buffer)
    {
      if fromSid == [] || toSid == [] {
        return;
      }
      var a := new byte[|fromSid| + 1 + |toSid| + 1 + 4 + |payload|](_ => 0);
      buffer := a;
      var pos := 0;
      CopyTo(a, pos, fromSid);
      pos := pos + |fromSid| + 1;
      assert a[..pos] == fromSid + [0];
      assert a[pos..] == seq(a.Length - pos, i => 0);
      CopyTo(a, pos, toSid);
      pos := pos + |toSid| + 1;
      assert a[..pos] == fromSid + [0] + toSid + [0];
      CopyTo(a, pos, Store(msgId));
      pos := pos + 4;
      assert a[..pos] == fromSid + [0] + toSid + [0] + Store(msgId);
      CopyTo(a, pos, payload);
      assert a[..] == a[..pos] + payload;
    }
  }

  /** `MessageDecoder::Decode`, with its two markers. */
  method Decode(p: seq<byte>, key: seq<byte>) returns (r: Option<Received>)
    ensures r == Decoding(p, key)
  {
    if |p| <= 4 || key == [] {
      return None;
    }
    var pFrom, pTo := -1, -1;
    var i := 0;
    while i != |p|
      invariant 0 <= i <= |p| && pTo == -1
      invariant pFrom == -1 ==> forall k | 0 <= k < i :: p[k] != 0
      invariant pFrom != -1 ==> 0 <= pFrom < i && p[pFrom] == 0 && forall k | 0 <= k < i :: p[k] == 0 ==> k == pFrom
      decreases |p| - i
    {
      if p[i] == 0 {
        if pFrom == -1 {
          pFrom := i;
          i := i + 1;
          continue;
        }
        pTo := i;
        break;
      }
      i := i + 1;
    }
    if pFrom == -1 || pTo == -1 {
      return None;
    }
    ZeroIs(p, 0, pFrom);
    ZeroIs(p, pFrom + 1, pTo);
    var fromSid := p[..pFrom];
    if fromSid == [] {
      return None;
    }
    var pos := pFrom + 1;
    var toSid := p[pos..pTo];
    if toSid == [] {
      return None;
    }
    pos := pTo + 1;
    if pos + 4 > |p| {
      return None;
    }
    var msgId := Load(p[pos..pos + 4]);
    pos := pos + 4;
    r := Some(Received(fromSid, toSid, msgId, p[pos..], key));
  }
}
