/**
 * The signed envelope: 4-byte little-endian body length, body, signature. The Go reader
 * (sdk-go/grant/grant.go) with its uint32 index, and the TypeScript codec
 * (packages/policy/src/certs/codec.ts). Base64 (section 4 of RFC 4648) is outside.
 */
module Envelope {
  import opened Prelude

  const TWO_32 := 0x1_0000_0000

  newtype Byte = b: int | 0 <= b < 256

  type Bytes = seq<Byte>

  datatype Unpacked = Malformed | Parts(body: Bytes, signature: Bytes) | Panic

  /** `binary.LittleEndian.Uint32`. */
  function Uint32(s: Bytes): nat
    requires |s| == 4
  {
    (s[0] as int) + 0x100 * (s[1] as int) + 0x1_0000 * (s[2] as int) + 0x100_0000 * (s[3] as int)
  }

  function LittleEndian(n: nat): (s: Bytes)
    requires n < TWO_32
  {
    [(n % 256) as Byte, (n / 0x100 % 256) as Byte, (n / 0x1_0000 % 256) as Byte, (n / 0x100_0000) as Byte]
  }

  /** `packCert`; `writeUInt32LE` throws when the length does not fit. */
  function Pack(body: Bytes, signature: Bytes): Option<Bytes> {
    if |body| >= TWO_32 then None else Some(LittleEndian(|body|) + body + signature)
  }

  /** Go's `unpack` past base64: the guard is computed in uint64, the index in uint32. */
  function UnpackGo(combined: Bytes): Unpacked {
    if |combined| < 5 then Malformed
    else
      var bodyLen := Uint32(combined[..4]);
      if |combined| <= 4 + bodyLen then Malformed
      else
        var end := (4 + bodyLen) % TWO_32;
        if end < 4 then Panic else Parts(combined[4..end], combined[end..])
  }

  /** `unpackCert`: numbers are exact, and the signature may be empty. */
  function UnpackJs(combined: Bytes): Unpacked {
    if |combined| < 5 then Malformed
    else
      var bodyLen := Uint32(combined[..4]);
      if |combined| < 4 + bodyLen then Malformed else Parts(combined[4..4 + bodyLen], combined[4 + bodyLen..])
  }

  lemma LengthRoundTrip(n: nat)
    requires n < TWO_32
    ensures Uint32(LittleEndian(n)) == n
  {
    var a, b, c := n / 0x100, n / 0x1_0000, n / 0x100_0000;
    assert n == a * 0x100 + n % 256;
    assert a == b * 0x100 + a % 256;
    assert b == c * 0x100 + b % 256;
  }

  lemma Digits(a: int, b: int, c: int, d: int)
    requires 0 <= a < 256 && 0 <= b < 256 && 0 <= c < 256 && 0 <= d < 256
    ensures var n := a + 0x100 * b + 0x1_0000 * c + 0x100_0000 * d;
            && n % 256 == a && n / 0x100 == b + 0x100 * c + 0x1_0000 * d
            && n / 0x1_0000 == c + 0x100 * d && n / 0x100_0000 == d
            && (b + 0x100 * c + 0x1_0000 * d) % 256 == b && (c + 0x100 * d) % 256 == c
  {
  }

  lemma BytesRoundTrip(s: Bytes)
    requires |s| == 4
    ensures Uint32(s) < TWO_32 && LittleEndian(Uint32(s)) == s
  {
    Digits(s[0] as int, s[1] as int, s[2] as int, s[3] as int);
  }

  /** The string declares the length of this body, holds it, and the rest is this signature. */
  predicate SplitsInto(combined: Bytes, body: Bytes, signature: Bytes) {
    && |combined| >= 4 && Uint32(combined[..4]) == |body| && |combined| >= 4 + |body|
    && body == combined[4..4 + |body|] && signature == combined[4 + |body|..]
  }

  lemma PackedSplits(body: Bytes, signature: Bytes)
    requires |body| < TWO_32
    ensures SplitsInto(LittleEndian(|body|) + body + signature, body, signature)
  {
    LengthRoundTrip(|body|);
    var packed := LittleEndian(|body|) + body + signature;
    assert packed[..4] == LittleEndian(|body|);
    assert packed[4..4 + |body|] == body && packed[4 + |body|..] == signature;
  }

  lemma SplitIsPacked(combined: Bytes, body: Bytes, signature: Bytes)
    requires SplitsInto(combined, body, signature)
    ensures Pack(body, signature) == Some(combined)
  {
    BytesRoundTrip(combined[..4]);
    assert combined == combined[..4] + combined[4..4 + |body|] + combined[4 + |body|..];
  }

  /** A byte string that declares a length it can hold is the packing of its parts, and of no others. */
  lemma PackingIsUnique(combined: Bytes, body: Bytes, signature: Bytes)
    ensures Pack(body, signature) == Some(combined) <==> SplitsInto(combined, body, signature)
  {
    if |body| < TWO_32 {
      PackedSplits(body, signature);
    }
    if SplitsInto(combined, body, signature) {
      SplitIsPacked(combined, body, signature);
    }
  }

  lemma LengthBound(s: Bytes)
    requires |s| == 4
    ensures Uint32(s) < TWO_32
  {
  }

  lemma IndexWraps(n: nat)
    requires n < TWO_32
    ensures (4 + n) % TWO_32 == if n < TWO_32 - 4 then 4 + n else 4 + n - TWO_32
  {
  }

  /**
   * The uint32 index wraps, and the slice panics, exactly for a declared length within 4 of 2^32
   * that the input really holds.
   */
  lemma PanicsExactly(combined: Bytes)
    ensures UnpackGo(combined) == Panic
            <==> |combined| >= 5 && Uint32(combined[..4]) >= TWO_32 - 4 && |combined| > 4 + Uint32(combined[..4])
    ensures |combined| <= TWO_32 ==> UnpackGo(combined) != Panic
  {
    if |combined| >= 5 {
      LengthBound(combined[..4]);
      IndexWraps(Uint32(combined[..4]));
    }
  }

  lemma GoSplits(combined: Bytes, body: Bytes, signature: Bytes)
    ensures UnpackGo(combined) == Parts(body, signature)
            <==> SplitsInto(combined, body, signature) && signature != [] && |body| < TWO_32 - 4
  {
    if |combined| >= 5 {
      LengthBound(combined[..4]);
      IndexWraps(Uint32(combined[..4]));
      var n := Uint32(combined[..4]);
      if n < TWO_32 - 4 && |combined| > 4 + n {
        assert |combined[4..4 + n]| == n && |combined[4 + n..]| > 0;
      }
    }
  }

  /** The Go reader accepts exactly the packings with a non-empty signature and a body its index can address. */
  lemma GoAcceptsExactly(combined: Bytes, body: Bytes, signature: Bytes)
    ensures UnpackGo(combined) == Parts(body, signature)
            <==> signature != [] && |body| < TWO_32 - 4 && Pack(body, signature) == Some(combined)
  {
    PackingIsUnique(combined, body, signature);
    GoSplits(combined, body, signature);
  }

  /** Reading back what was packed succeeds for every body the index can address, and only for those. */
  lemma RoundTripExactly(body: Bytes, signature: Bytes)
    requires |body| < TWO_32 && signature != []
    ensures UnpackGo(Pack(body, signature).value) == Parts(body, signature) <==> |body| < TWO_32 - 4
    ensures |body| >= TWO_32 - 4 ==> UnpackGo(Pack(body, signature).value) == Panic
  {
    var packed := Pack(body, signature).value;
    GoAcceptsExactly(packed, body, signature);
    PackedSplits(body, signature);
    PanicsExactly(packed);
  }

  /** The TypeScript reader accepts exactly the packings of five bytes or more, an empty signature included. */
  lemma JsAcceptsExactly(combined: Bytes, body: Bytes, signature: Bytes)
    ensures UnpackJs(combined) == Parts(body, signature) <==> |combined| >= 5 && Pack(body, signature) == Some(combined)
  {
    PackingIsUnique(combined, body, signature);
    if |combined| >= 5 {
      LengthBound(combined[..4]);
      var n := Uint32(combined[..4]);
      assert |combined| >= 4 + n ==> |combined[4..4 + n]| == n;
    }
  }

  /**
   * The readers part ways exactly on an empty signature, which Go refuses, and on a body past its
   * index, where Go panics.
   */
  lemma ReadersDifferExactly(combined: Bytes)
    ensures UnpackJs(combined) != UnpackGo(combined)
            <==> |combined| >= 5 && var n := Uint32(combined[..4]);
                 |combined| == 4 + n || (|combined| > 4 + n && n >= TWO_32 - 4)
    ensures UnpackJs(combined) != UnpackGo(combined) ==>
              && UnpackJs(combined).Parts?
              && UnpackGo(combined) == if UnpackJs(combined).signature == [] then Malformed else Panic
  {
    if |combined| >= 5 {
      LengthBound(combined[..4]);
      IndexWraps(Uint32(combined[..4]));
    }
  }

  /** On the wire the length stands least significant byte first, then the body, then the signature. */
  lemma WireFormat(body: Bytes, signature: Bytes)
    requires |body| < TWO_32
    ensures var wire := Pack(body, signature).value;
            && |wire| == 4 + |body| + |signature|
            && |body| == wire[0] as int + 256 * (wire[1] as int) + 65536 * (wire[2] as int)
              + 16777216 * (wire[3] as int)
            && wire[4..4 + |body|] == body && wire[4 + |body|..] == signature
  {
    LengthRoundTrip(|body|);
    PackedSplits(body, signature);
    var wire := Pack(body, signature).value;
    assert wire[..4] == LittleEndian(|body|);
    assert wire[0] == wire[..4][0] && wire[1] == wire[..4][1] && wire[2] == wire[..4][2] && wire[3] == wire[..4][3];
  }
}
