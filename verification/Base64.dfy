/** Base64 with padding (RFC 4648, section 4), on bytes. */
module Base64 {
  import opened Options

  type Sextet = v: int | 0 <= v < 64

  /** The equals sign. */
  const PAD: Byte := 61

  /** The alphabet, in ASCII: A-Z, a-z, 0-9, + and /. */
  function CodeOf(v: Sextet): Byte {
    if v < 26 then 65 + v
    else if v < 52 then 97 + (v - 26)
    else if v < 62 then 48 + (v - 52)
    else if v == 62 then 43
    else 47
  }

  function ValueOf(b: Byte): Option<Sextet> {
    if 65 <= b <= 90 then Some(b - 65)
    else if 97 <= b <= 122 then Some(b - 97 + 26)
    else if 48 <= b <= 57 then Some(b - 48 + 52)
    else if b == 43 then Some(62)
    else if b == 47 then Some(63)
    else None
  }

  /** Twenty-four bits as four sextets, and back. */
  function Sextets(x: Byte, y: Byte, z: Byte): (Sextet, Sextet, Sextet, Sextet) {
    (x / 4, x % 4 * 16 + y / 16, y % 16 * 4 + z / 64, z % 64)
  }

  function Bytes(a: Sextet, b: Sextet, c: Sextet, d: Sextet): (Byte, Byte, Byte) {
    (a * 4 + b / 16, b % 16 * 16 + c / 4, c % 4 * 64 + d)
  }

  /** One to three bytes as four; what is missing is zero bits, and then padding. */
  function EncodeGroup(bs: seq<Byte>): (t: seq<Byte>)
    requires 1 <= |bs| <= 3
    ensures |t| == 4
  {
    var s := Sextets(bs[0], if |bs| > 1 then bs[1] else 0, if |bs| > 2 then bs[2] else 0);
    [CodeOf(s.0), CodeOf(s.1), if |bs| > 1 then CodeOf(s.2) else PAD, if |bs| > 2 then CodeOf(s.3) else PAD]
  }

  function Encode(bs: seq<Byte>): seq<Byte> {
    if |bs| == 0 then []
    else if |bs| <= 3 then EncodeGroup(bs)
    else EncodeGroup(bs[..3]) + Encode(bs[3..])
  }

  /** Padding may close the last group; the bits that it cuts off must be zero. */
  function DecodeGroup(t: seq<Byte>, last: bool): Option<seq<Byte>>
    requires |t| == 4
  {
    var a, b, c, d := ValueOf(t[0]), ValueOf(t[1]), ValueOf(t[2]), ValueOf(t[3]);
    if a == None || b == None then None
    else if c.Some? && d.Some? then
      var r := Bytes(a.value, b.value, c.value, d.value);
      Some([r.0, r.1, r.2])
    else if !last || t[3] != PAD then None
    else if c.Some? then
      var r := Bytes(a.value, b.value, c.value, 0);
      if r.2 == 0 then Some([r.0, r.1]) else None
    else
      var r := Bytes(a.value, b.value, 0, 0);
      if t[2] == PAD && r.1 == 0 then Some([r.0]) else None
  }

  function Decode(t: seq<Byte>): Option<seq<Byte>> {
    if |t| == 0 then Some([])
    else if |t| < 4 then None
    else
      var front, rest := DecodeGroup(t[..4], |t| == 4), Decode(t[4..]);
      if front.Some? && rest.Some? then Some(front.value + rest.value) else None
  }

  // ----- the two are inverse -----

  lemma {:induction false} CodesAreRead(v: Sextet)
    ensures ValueOf(CodeOf(v)) == Some(v) && CodeOf(v) != PAD && CodeOf(v) != 0
  {
  }

  lemma {:induction false} ValuesAreWritten(b: Byte)
    ensures ValueOf(b).Some? ==> CodeOf(ValueOf(b).value) == b
  {
  }

  lemma {:induction false} Packed(p: nat, q: nat)
    ensures q < 16 ==> (p * 16 + q) / 16 == p && (p * 16 + q) % 16 == q
    ensures q < 4 ==> (p * 4 + q) / 4 == p && (p * 4 + q) % 4 == q
    ensures q < 64 ==> (p * 64 + q) / 64 == p && (p * 64 + q) % 64 == q
  {
  }

  lemma {:induction false} BytesOfSextets(x: Byte, y: Byte, z: Byte)
    ensures var s := Sextets(x, y, z); Bytes(s.0, s.1, s.2, s.3) == (x, y, z)
  {
    Packed(x % 4, y / 16);
    Packed(y % 16, z / 64);
  }

  lemma {:induction false} SextetsOfBytes(a: Sextet, b: Sextet, c: Sextet, d: Sextet)
    ensures var r := Bytes(a, b, c, d); Sextets(r.0, r.1, r.2) == (a, b, c, d)
  {
    Packed(a, b / 16);
    Packed(b % 16, c / 4);
    Packed(c % 4, d);
  }

  lemma {:induction false} MissingBytesAreZeroBits(x: Byte, y: Byte)
    ensures Sextets(x, y, 0).3 == 0 && Sextets(x, 0, 0).2 == 0
  {
  }

  lemma {:induction false} PaddingHasNoValue()
    ensures ValueOf(PAD) == None
  {
  }

  lemma {:induction false} FullGroupDecodes(a: Sextet, b: Sextet, c: Sextet, d: Sextet, last: bool)
    ensures var r := Bytes(a, b, c, d);
            DecodeGroup([CodeOf(a), CodeOf(b), CodeOf(c), CodeOf(d)], last) == Some([r.0, r.1, r.2])
  {
    CodesAreRead(a);
    CodesAreRead(b);
    CodesAreRead(c);
    CodesAreRead(d);
  }

  lemma {:induction false} PairDecodes(a: Sextet, b: Sextet, c: Sextet)
    requires Bytes(a, b, c, 0).2 == 0
    ensures var r := Bytes(a, b, c, 0);
            DecodeGroup([CodeOf(a), CodeOf(b), CodeOf(c), PAD], true) == Some([r.0, r.1])
  {
    CodesAreRead(a);
    CodesAreRead(b);
    CodesAreRead(c);
    PaddingHasNoValue();
  }

  lemma {:induction false} SingleDecodes(a: Sextet, b: Sextet)
    requires Bytes(a, b, 0, 0).1 == 0
    ensures DecodeGroup([CodeOf(a), CodeOf(b), PAD, PAD], true) == Some([Bytes(a, b, 0, 0).0])
  {
    CodesAreRead(a);
    CodesAreRead(b);
    PaddingHasNoValue();
  }

  lemma {:induction false} GroupDecodes(bs: seq<Byte>, last: bool)
    requires 1 <= |bs| <= 3 && (|bs| < 3 ==> last)
    ensures DecodeGroup(EncodeGroup(bs), last) == Some(bs)
  {
    if |bs| == 1 {
      OneByteDecodes(bs[0]);
      assert bs == [bs[0]];
    } else if |bs| == 2 {
      TwoBytesDecode(bs[0], bs[1]);
      assert bs == [bs[0], bs[1]];
    } else {
      ThreeBytesDecode(bs[0], bs[1], bs[2], last);
      assert bs == [bs[0], bs[1], bs[2]];
    }
  }

  lemma {:induction false} OneByteDecodes(x: Byte)
    ensures DecodeGroup(EncodeGroup([x]), true) == Some([x])
  {
    var s := Sextets(x, 0, 0);
    BytesOfSextets(x, 0, 0);
    MissingBytesAreZeroBits(x, 0);
    SingleDecodes(s.0, s.1);
    assert EncodeGroup([x]) == [CodeOf(s.0), CodeOf(s.1), PAD, PAD];
  }

  lemma {:induction false} TwoBytesDecode(x: Byte, y: Byte)
    ensures DecodeGroup(EncodeGroup([x, y]), true) == Some([x, y])
  {
    var s := Sextets(x, y, 0);
    BytesOfSextets(x, y, 0);
    MissingBytesAreZeroBits(x, y);
    PairDecodes(s.0, s.1, s.2);
    assert EncodeGroup([x, y]) == [CodeOf(s.0), CodeOf(s.1), CodeOf(s.2), PAD];
  }

  lemma {:induction false} ThreeBytesDecode(x: Byte, y: Byte, z: Byte, last: bool)
    ensures DecodeGroup(EncodeGroup([x, y, z]), last) == Some([x, y, z])
  {
    var s := Sextets(x, y, z);
    BytesOfSextets(x, y, z);
    FullGroupDecodes(s.0, s.1, s.2, s.3, last);
    assert EncodeGroup([x, y, z]) == [CodeOf(s.0), CodeOf(s.1), CodeOf(s.2), CodeOf(s.3)];
  }

  lemma {:induction false} EncodedDecodes(bs: seq<Byte>)
    ensures Decode(Encode(bs)) == Some(bs)
  {
    if 0 < |bs| <= 3 {
      GroupDecodes(bs, true);
      assert Encode(bs)[..4] == EncodeGroup(bs) && Decode(Encode(bs)[4..]) == Some([]);
      assert bs + [] == bs;
    } else if |bs| > 3 {
      var front, rest := EncodeGroup(bs[..3]), Encode(bs[3..]);
      GroupDecodes(bs[..3], false);
      EncodedDecodes(bs[3..]);
      assert (front + rest)[..4] == front && (front + rest)[4..] == rest;
      assert bs == bs[..3] + bs[3..];
    }
  }

  lemma {:induction false} GroupEncodes(t: seq<Byte>, last: bool)
    requires |t| == 4 && DecodeGroup(t, last).Some?
    ensures var bs := DecodeGroup(t, last).value; 1 <= |bs| <= 3 && EncodeGroup(bs) == t && (!last ==> |bs| == 3)
  {
    var a, b, c, d := ValueOf(t[0]), ValueOf(t[1]), ValueOf(t[2]), ValueOf(t[3]);
    PaddingHasNoValue();
    ValuesAreWritten(t[0]);
    ValuesAreWritten(t[1]);
    ValuesAreWritten(t[2]);
    ValuesAreWritten(t[3]);
    SextetsOfBytes(a.value, b.value, if c.Some? then c.value else 0, if c.Some? && d.Some? then d.value else 0);
  }

  lemma {:induction false} DecodedEncodes(t: seq<Byte>)
    requires Decode(t).Some?
    ensures Encode(Decode(t).value) == t
  {
    if |t| > 0 {
      var front, rest := DecodeGroup(t[..4], |t| == 4).value, Decode(t[4..]).value;
      GroupEncodes(t[..4], |t| == 4);
      DecodedEncodes(t[4..]);
      assert (front + rest)[..|front|] == front && (front + rest)[|front|..] == rest;
      assert t == t[..4] + t[4..];
    }
  }

  /** Decoding accepts exactly the encodings, each of them as what it encodes. */
  lemma {:induction false} DecodeInvertsEncode(bs: seq<Byte>, t: seq<Byte>)
    ensures Decode(t) == Some(bs) <==> Encode(bs) == t
  {
    EncodedDecodes(bs);
    if Decode(t).Some? {
      DecodedEncodes(t);
    }
  }

  predicate IsText(t: seq<Byte>) {
    forall i :: 0 <= i < |t| ==> ValueOf(t[i]).Some? || t[i] == PAD
  }

  lemma {:induction false} GroupText(bs: seq<Byte>)
    requires 1 <= |bs| <= 3
    ensures IsText(EncodeGroup(bs))
  {
    var y: Byte, z: Byte := if |bs| > 1 then bs[1] else 0, if |bs| > 2 then bs[2] else 0;
    var s := Sextets(bs[0], y, z);
    CodesAreRead(s.0);
    CodesAreRead(s.1);
    CodesAreRead(s.2);
    CodesAreRead(s.3);
  }

  lemma {:induction false} TextJoins(t: seq<Byte>, u: seq<Byte>)
    requires IsText(t) && IsText(u)
    ensures IsText(t + u)
  {
  }

  lemma {:induction false} ZeroIsNoText(b: Byte)
    requires ValueOf(b).Some? || b == PAD
    ensures b != 0
  {
  }

  lemma {:induction false} TextHasNoZero(t: seq<Byte>)
    requires IsText(t)
    ensures forall i :: 0 <= i < |t| ==> t[i] != 0
  {
    forall i | 0 <= i < |t| ensures t[i] != 0 {
      ZeroIsNoText(t[i]);
    }
  }

  /** The number of groups that `n` bytes take. */
  function Groups(n: nat): nat {
    if n == 0 then 0 else if n <= 3 then 1 else 1 + Groups(n - 3)
  }

  lemma {:induction false} GroupsRoundUp(n: nat)
    ensures Groups(n) == (n + 2) / 3
  {
    if n > 3 {
      GroupsRoundUp(n - 3);
    }
  }

  lemma {:induction false} EncodedLength(bs: seq<Byte>)
    ensures |Encode(bs)| == 4 * Groups(|bs|)
  {
    if |bs| > 3 {
      EncodedLength(bs[3..]);
    }
  }

  lemma {:induction false} EncodedIsText(bs: seq<Byte>)
    ensures IsText(Encode(bs))
  {
    if 0 < |bs| <= 3 {
      GroupText(bs);
    } else if |bs| > 3 {
      GroupText(bs[..3]);
      EncodedIsText(bs[3..]);
      TextJoins(EncodeGroup(bs[..3]), Encode(bs[3..]));
    }
  }

  /** Four bytes for every three, rounded up, each from the alphabet or padding. */
  lemma {:induction false} EncodedText(bs: seq<Byte>)
    ensures |Encode(bs)| == 4 * ((|bs| + 2) / 3) && IsText(Encode(bs))
  {
    EncodedLength(bs);
    GroupsRoundUp(|bs|);
    EncodedIsText(bs);
  }

  // ----- the text itself -----

  /** The alphabet of RFC 4648, table 1. */
  lemma {:induction false} AlphabetIs(v: Sextet)
    ensures CodeOf(v) ==
            if v < 26 then "ABCDEFGHIJKLMNOPQRSTUVWXYZ"[v] as int
            else if v < 52 then "abcdefghijklmnopqrstuvwxyz"[v - 26] as int
            else if v < 62 then "0123456789"[v - 52] as int
            else if v == 62 then '+' as int
            else '/' as int
    ensures PAD == '=' as int
  {
    if v < 26 {
      Alphabets(v);
    } else if v < 52 {
      Alphabets(v - 26);
    } else if v < 62 {
      Digits(v - 52);
    }
  }

  lemma {:induction false} Alphabets(n: nat)
    requires n < 26
    ensures "ABCDEFGHIJKLMNOPQRSTUVWXYZ"[n] as int == 65 + n
    ensures "abcdefghijklmnopqrstuvwxyz"[n] as int == 97 + n
  {
  }

  lemma {:induction false} Digits(n: nat)
    requires n < 10
    ensures "0123456789"[n] as int == 48 + n
  {
  }

  lemma {:induction false} DigitsAreUnique(p: Byte, q: Byte, r: Byte, x: Byte, y: Byte, z: Byte)
    requires 65536 * p + 256 * q + r == 65536 * x + 256 * y + z
    ensures (p, q, r) == (x, y, z)
  {
  }

  /** Four digits to the base 64, the highest first. */
  function Number(a: Sextet, b: Sextet, c: Sextet, d: Sextet): nat {
    262144 * a + 4096 * b + 64 * c + d
  }

  lemma {:induction false} SextetsOfNumber(x: Byte, y: Byte, z: Byte, a: Sextet, b: Sextet, c: Sextet, d: Sextet)
    requires 65536 * x + 256 * y + z == Number(a, b, c, d)
    ensures Sextets(x, y, z) == (a, b, c, d)
  {
    var r := Bytes(a, b, c, d);
    assert b == b / 16 * 16 + b % 16 && c == c / 4 * 4 + c % 4;
    DigitsAreUnique(r.0, r.1, r.2, x, y, z);
    SextetsOfBytes(a, b, c, d);
  }

  /** Three bytes are one number of 24 bits, written in four digits to the base 64,
      the highest first; digits that stand for no byte are written `=`. */
  lemma {:induction false} GroupsEncodeAsNumbers(
    x: Byte, y: Byte, z: Byte, a: Sextet, b: Sextet, c: Sextet, d: Sextet)
    requires 65536 * x + 256 * y + z == Number(a, b, c, d)
    ensures Encode([x, y, z]) == [CodeOf(a), CodeOf(b), CodeOf(c), CodeOf(d)]
    ensures z == 0 ==> Encode([x, y]) == [CodeOf(a), CodeOf(b), CodeOf(c), '=' as int]
    ensures y == z == 0 ==> Encode([x]) == [CodeOf(a), CodeOf(b), '=' as int, '=' as int]
  {
    SextetsOfNumber(x, y, z, a, b, c, d);
  }

  /** Whole groups are encoded on their own. */
  lemma {:induction false} EncodesByGroups(bs: seq<Byte>, rest: seq<Byte>)
    requires |bs| % 3 == 0
    ensures Encode(bs + rest) == Encode(bs) + Encode(rest)
  {
    if bs == [] {
      assert bs + rest == rest;
    } else {
      EncodesByGroups(bs[3..], rest);
      GroupFirst(bs[..3], bs[3..] + rest);
      GroupFirst(bs[..3], bs[3..]);
      assert bs + rest == bs[..3] + (bs[3..] + rest) && bs == bs[..3] + bs[3..];
    }
  }

  lemma {:induction false} GroupFirst(group: seq<Byte>, rest: seq<Byte>)
    requires |group| == 3
    ensures Encode(group + rest) == EncodeGroup(group) + Encode(rest)
  {
    if rest == [] {
      assert group + rest == group;
    } else {
      assert (group + rest)[..3] == group && (group + rest)[3..] == rest;
    }
  }

  lemma {:induction false} PadsTheLastGroup(bs: seq<Byte>)
    requires |bs| % 3 == 2
    ensures |Encode(bs)| > 0 && Encode(bs)[|Encode(bs)| - 1] == '=' as int
  {
    var n := |bs| - 2;
    EncodesByGroups(bs[..n], bs[n..]);
    assert bs == bs[..n] + bs[n..] && |Encode(bs[n..])| == 4 && Encode(bs[n..])[3] == PAD;
  }
}
