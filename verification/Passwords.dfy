/**
 Passwords on their way into bcrypt: SHA-256, then base64, so that bcrypt's habit
 of stopping at a zero byte or after 72 bytes loses nothing.
 */
module Passwords {
  import opened Options
  import opened Base64

  /** SHA-256 of a password's UTF-8 bytes, and bcrypt as it works on the bytes
      that it does not throw away. */
  datatype Library = Library(
    digest: string -> seq<Byte>,
    core: (seq<Byte>, string) -> string,
    saltOf: string -> Option<string>)
  {
    /** Digests are 32 bytes, and the salt can be read off a hash. */
    ghost predicate Valid() {
      && (forall password :: |digest(password)| == 32)
      && (forall input, salt :: saltOf(core(input, salt)) == Some(salt))
    }
  }

  const LIMIT := 72

  function UpToZero(bs: seq<Byte>): (r: seq<Byte>)
    ensures r <= bs && forall i :: 0 <= i < |r| ==> r[i] != 0
  {
    if bs == [] || bs[0] == 0 then [] else [bs[0]] + UpToZero(bs[1..])
  }

  /** What of its input bcrypt looks at. */
  function Seen(bs: seq<Byte>): seq<Byte> {
    var r := UpToZero(bs);
    if |r| > LIMIT then r[..LIMIT] else r
  }

  function HashPw(lib: Library, input: seq<Byte>, salt: string): string {
    lib.core(Seen(input), salt)
  }

  /** A stored hash without a readable salt raises ValueError. */
  function CheckPw(lib: Library, input: seq<Byte>, stored: string): Option<bool> {
    match lib.saltOf(stored)
    case None => None
    case Some(salt) => Some(HashPw(lib, input, salt) == stored)
  }

  function Prehash(lib: Library, password: string): seq<Byte> {
    Encode(lib.digest(password))
  }

  function HashPassword(lib: Library, password: string, salt: string): string {
    HashPw(lib, Prehash(lib, password), salt)
  }

  /** A malformed stored hash is a failed login. */
  function VerifyPassword(lib: Library, password: string, stored: string): bool {
    match CheckPw(lib, Prehash(lib, password), stored)
    case None => false
    case Some(same) => same
  }

  lemma {:induction false} WithoutZeroAllIsLeft(bs: seq<Byte>)
    requires forall i :: 0 <= i < |bs| ==> bs[i] != 0
    ensures UpToZero(bs) == bs
  {
    if bs != [] {
      WithoutZeroAllIsLeft(bs[1..]);
    }
  }

  lemma {:induction false} ShortTextIsSeenWhole(bs: seq<Byte>)
    requires |bs| <= LIMIT && forall i :: 0 <= i < |bs| ==> bs[i] != 0
    ensures Seen(bs) == bs
  {
    WithoutZeroAllIsLeft(bs);
  }

  lemma {:induction false} ZeroEnds(bs: seq<Byte>, rest: seq<Byte>)
    ensures UpToZero(bs + [0] + rest) == UpToZero(bs)
  {
    if bs == [] {
      assert bs + [0] + rest == [0] + rest;
    } else {
      ZeroEnds(bs[1..], rest);
      assert (bs + [0] + rest)[1..] == bs[1..] + [0] + rest;
    }
  }

  /** bcrypt looks at the first 72 bytes, and at nothing from a zero byte on. */
  lemma {:induction false} SeenIs(bs: seq<Byte>, rest: seq<Byte>)
    ensures 0 !in bs ==> Seen(bs) == if |bs| <= 72 then bs else bs[..72]
    ensures Seen(bs + [0] + rest) == Seen(bs)
  {
    if 0 !in bs {
      WithoutZeroAllIsLeft(bs);
    }
    ZeroEnds(bs, rest);
  }

  /** Every prehashed password is the digest in base64: 44 bytes long, the last a
      padding sign, and seen whole. */
  lemma {:induction false} PrehashIsSeenWhole(lib: Library, password: string)
    requires lib.Valid()
    ensures Decode(Prehash(lib, password)) == Some(lib.digest(password))
    ensures |Prehash(lib, password)| == 44 && Prehash(lib, password)[43] == '=' as int
    ensures Seen(Prehash(lib, password)) == Prehash(lib, password)
  {
    var digest := lib.digest(password);
    EncodedText(digest);
    TextHasNoZero(Prehash(lib, password));
    ShortTextIsSeenWhole(Prehash(lib, password));
    EncodedDecodes(digest);
    PadsTheLastGroup(digest);
  }

  /** Two passwords are the same to bcrypt exactly when their digests agree. */
  lemma {:induction false} SeenAlikeIffDigestsAgree(lib: Library, p: string, q: string)
    requires lib.Valid()
    ensures Seen(Prehash(lib, p)) == Seen(Prehash(lib, q)) <==> lib.digest(p) == lib.digest(q)
  {
    PrehashIsSeenWhole(lib, p);
    PrehashIsSeenWhole(lib, q);
    EncodedDecodes(lib.digest(p));
    EncodedDecodes(lib.digest(q));
  }

  /** Two different inputs, seen whole, to which bcrypt gives one hash. */
  predicate Collide(lib: Library, x: seq<Byte>, y: seq<Byte>, salt: string) {
    x != y && lib.core(x, salt) == lib.core(y, salt)
  }

  /** A password is accepted against a stored text exactly when that is a hash with
      some salt, and bcrypt's hash of the encoded digest with that salt. */
  lemma {:induction false} AcceptedExactlyWhen(lib: Library, password: string, stored: string)
    requires lib.Valid()
    ensures VerifyPassword(lib, password, stored) <==>
            exists salt :: stored == lib.core(Prehash(lib, password), salt)
  {
    PrehashIsSeenWhole(lib, password);
    forall salt | stored == lib.core(Prehash(lib, password), salt) ensures lib.saltOf(stored) == Some(salt) {
    }
  }

  /** A password is accepted against the hash of another one exactly when bcrypt
      gives the two encoded digests one hash under that salt: when the digests
      agree, or else are a collision of bcrypt itself on two inputs of 44 bytes. */
  lemma {:induction false} AcceptedIffDigestsAgree(lib: Library, p: string, q: string, salt: string)
    requires lib.Valid()
    ensures VerifyPassword(lib, q, HashPassword(lib, p, salt)) <==>
            lib.core(Prehash(lib, q), salt) == lib.core(Prehash(lib, p), salt)
    ensures VerifyPassword(lib, q, HashPassword(lib, p, salt)) <==>
            lib.digest(p) == lib.digest(q) || Collide(lib, Prehash(lib, p), Prehash(lib, q), salt)
  {
    PrehashIsSeenWhole(lib, p);
    PrehashIsSeenWhole(lib, q);
    SeenAlikeIffDigestsAgree(lib, p, q);
  }

  lemma {:induction false} SharedPrefixIsKept(a: seq<Byte>, b: seq<Byte>)
    ensures |UpToZero(a)| < |a| ==> UpToZero(a + b) == UpToZero(a)
    ensures |UpToZero(a)| == |a| ==> UpToZero(a + b) == a + UpToZero(b)
  {
    if a != [] {
      SharedPrefixIsKept(a[1..], b);
      assert (a + b)[1..] == a[1..] + b;
    } else {
      assert a + b == b;
    }
  }

  /** Without the digest, all inputs that share 72 bytes would be one to bcrypt. */
  lemma {:induction false} RawInputsCollide(shared: seq<Byte>, a: seq<Byte>, b: seq<Byte>)
    requires |shared| >= 72
    ensures Seen(shared + a) == Seen(shared + b)
  {
    SharedPrefixIsKept(shared, a);
    SharedPrefixIsKept(shared, b);
  }
}
