/**
 UTF-8 (RFC 3629, section 3) as far as the query text needs it: its encoding is
 injective and leaves ASCII alone, so it is one of the codecs that
 `FormEncoding` assumes.
 */
module Utf8 {
  import opened Options
  import opened FormEncoding

  function Trail(v: nat): Byte {
    0x80 + v % 64
  }

  function EncodeChar(c: char): (bs: seq<Byte>)
    ensures 1 <= |bs| <= 4
    ensures IsAscii(c) ==> bs == [c as int]
  {
    var v := c as int;
    if v < 0x80 then [v]
    else if v < 0x800 then [0xC0 + v / 64, Trail(v)]
    else if v < 0x1_0000 then [0xE0 + v / 64 / 64, Trail(v / 64), Trail(v)]
    else [0xF0 + v / 64 / 64 / 64, Trail(v / 64 / 64), Trail(v / 64), Trail(v)]
  }

  function Encode(s: string): seq<Byte> {
    if s == "" then [] else EncodeChar(s[0]) + Encode(s[1..])
  }

  /** How many bytes follow a leading byte. */
  function Length(b: Byte): nat {
    if b < 0x80 then 1 else if b < 0xE0 then 2 else if b < 0xF0 then 3 else 4
  }

  lemma {:induction false} LeadingByteTellsTheLength(c: char)
    ensures Length(EncodeChar(c)[0]) == |EncodeChar(c)|
  {
  }

  /** The code point that one to four bytes stand for. */
  function CodePoint(bs: seq<Byte>): int
    requires 1 <= |bs| <= 4
  {
    var lead: int := bs[0];
    if |bs| == 1 then lead
    else
      var second: int := bs[1] as int - 0x80;
      if |bs| == 2 then (lead - 0xC0) * 64 + second
      else
        var third: int := bs[2] as int - 0x80;
        if |bs| == 3 then ((lead - 0xE0) * 64 + second) * 64 + third
        else (((lead - 0xF0) * 64 + second) * 64 + third) * 64 + (bs[3] as int - 0x80)
  }

  lemma {:induction false} CodePointOfEncoded(c: char)
    ensures CodePoint(EncodeChar(c)) == c as int
  {
    var v := c as int;
    assert v == v / 64 * 64 + v % 64;
    assert v / 64 == v / 64 / 64 * 64 + v / 64 % 64;
    assert v / 64 / 64 == v / 64 / 64 / 64 * 64 + v / 64 / 64 % 64;
  }

  type Bits = n: int | 0 <= n < 64

  lemma {:induction false} Sixes(v: nat, w: nat, x: Bits, y: Bits, z: Bits)
    requires v == ((w * 64 + x) * 64 + y) * 64 + z
    ensures v % 64 == z && v / 64 % 64 == y && v / 64 / 64 % 64 == x && v / 64 / 64 / 64 == w
  {
    assert v / 64 == (w * 64 + x) * 64 + y;
    assert v / 64 / 64 == w * 64 + x;
  }

  /** The bytes of the character of number `v`, as section 3 of RFC 3629 lays out its
      bits: a leading byte that tells how many trailing bytes follow, and six bits in
      each of these. */
  lemma {:induction false} CharacterBytes(c: char, w: nat, x: Bits, y: Bits, z: Bits)
    requires c as int == ((w * 64 + x) * 64 + y) * 64 + z
    ensures c as int < 0x80 ==> EncodeChar(c) == [c as int]
    ensures 0x80 <= c as int < 0x800 ==> EncodeChar(c) == [0xC0 + y, 0x80 + z]
    ensures 0x800 <= c as int < 0x1_0000 ==> EncodeChar(c) == [0xE0 + x, 0x80 + y, 0x80 + z]
    ensures 0x1_0000 <= c as int ==> EncodeChar(c) == [0xF0 + w, 0x80 + x, 0x80 + y, 0x80 + z]
  {
    Sixes(c as int, w, x, y, z);
  }

  /** A text is encoded character by character. */
  lemma {:induction false} EncodesOneByOne(c: char, s: string)
    ensures Encode("") == [] && Encode([c] + s) == EncodeChar(c) + Encode(s)
  {
    assert ([c] + s)[1..] == s;
  }

  lemma {:induction false} PrefixFree(c: char, d: char, x: seq<Byte>, y: seq<Byte>)
    requires EncodeChar(c) + x == EncodeChar(d) + y
    ensures c == d && x == y
  {
    var a, b := EncodeChar(c), EncodeChar(d);
    assert a[0] == (a + x)[0] && b[0] == (b + y)[0];
    LeadingByteTellsTheLength(c);
    LeadingByteTellsTheLength(d);
    assert a == (a + x)[..|a|] && b == (b + y)[..|b|];
    assert x == (a + x)[|a|..] && y == (b + y)[|b|..];
    CodePointOfEncoded(c);
    CodePointOfEncoded(d);
  }

  /** No two texts have the same bytes. */
  lemma {:induction false} EncodeIsInjective(s: string, t: string)
    requires Encode(s) == Encode(t)
    ensures s == t
  {
    if s != "" && t != "" {
      PrefixFree(s[0], t[0], Encode(s[1..]), Encode(t[1..]));
      EncodeIsInjective(s[1..], t[1..]);
      assert s == [s[0]] + s[1..] && t == [t[0]] + t[1..];
    }
  }

  lemma {:induction false} AsciiIsPlain(s: string, bs: seq<Byte>)
    requires Plain(bs, s)
    ensures Encode(s) == bs
  {
    if s != "" {
      AsciiIsPlain(s[1..], bs[1..]);
      assert bs == [bs[0]] + bs[1..];
    }
  }

  /** Whatever a decoder makes of malformed bytes, with UTF-8 to encode it is
      enough that it undoes the encoding. */
  lemma {:induction false} Utf8CodecsAreValid(codec: Codec)
    requires forall s :: codec.encode(s) == Encode(s)
    requires forall s :: codec.decode(codec.encode(s)) == s
    ensures codec.Valid()
  {
    forall bs, s | Plain(bs, s) ensures codec.decode(bs) == s {
      AsciiIsPlain(s, bs);
      assert codec.decode(codec.encode(s)) == s;
    }
  }

  ghost function Decode(bs: seq<Byte>): string {
    if exists s :: Encode(s) == bs then var s :| Encode(s) == bs; s else ""
  }

  /** There are such decoders. */
  lemma {:induction false} Utf8CodecExists()
    ensures exists codec: Codec :: codec.Valid() && forall s :: codec.encode(s) == Encode(s)
  {
    var codec := Codec(s => Encode(s), bs => Decode(bs));
    forall s ensures codec.decode(codec.encode(s)) == s {
      EncodeIsInjective(Decode(Encode(s)), s);
    }
    Utf8CodecsAreValid(codec);
  }
}
