/**
 The application/x-www-form-urlencoded text of a query string, as urllib.parse
 reads it (parse_qsl keeping blank values) and prints it (urlencode).
 */
module FormEncoding {
  import opened Options

  type Pair = (string, string)

  predicate IsAscii(c: char) {
    c as int < 128
  }

  predicate AllAscii(s: string) {
    forall i :: 0 <= i < |s| ==> IsAscii(s[i])
  }

  /** Bytes below 128 as the characters they stand for. */
  ghost predicate Plain(bs: seq<Byte>, s: string) {
    |bs| == |s| && forall i :: 0 <= i < |s| ==> IsAscii(s[i]) && bs[i] == s[i] as int
  }

  /** The text encoding of the library: UTF-8 to print, and UTF-8 with malformed
      input replaced to read. */
  datatype Codec = Codec(encode: string -> seq<Byte>, decode: seq<Byte> -> string) {
    ghost predicate Valid() {
      && (forall s :: decode(encode(s)) == s)
      && (forall bs, s :: Plain(bs, s) ==> decode(bs) == s)
    }
  }

  // ----- percent escapes -----

  const HEX := "0123456789ABCDEF"
  const LOWER_HEX := "0123456789abcdef"

  /** The value of a hexadecimal digit of either case, or 16. */
  function HexValue(c: char): (v: nat)
    ensures v <= 16
  {
    if '0' <= c <= '9' then c as int - '0' as int
    else if 'A' <= c <= 'F' then c as int - 'A' as int + 10
    else if 'a' <= c <= 'f' then c as int - 'a' as int + 10
    else 16
  }

  predicate IsEscape(s: string) {
    |s| >= 3 && s[0] == '%' && HexValue(s[1]) < 16 && HexValue(s[2]) < 16
  }

  /** Escapes become bytes; a `%` that starts none stands for itself. */
  function Unescape(s: string): seq<Byte>
    requires AllAscii(s)
  {
    if s == "" then []
    else if IsEscape(s) then [16 * HexValue(s[1]) + HexValue(s[2])] + Unescape(s[3..])
    else [s[0] as int] + Unescape(s[1..])
  }

  /** The length of the leading ASCII run. */
  function AsciiRun(s: string): (n: nat)
    ensures n <= |s| && AllAscii(s[..n])
    ensures s != "" && IsAscii(s[0]) ==> n > 0
    ensures AllAscii(s) ==> n == |s|
  {
    if s == "" || !IsAscii(s[0]) then 0 else 1 + AsciiRun(s[1..])
  }

  function UnquoteRuns(codec: Codec, s: string): string {
    if s == "" then ""
    else if IsAscii(s[0]) then codec.decode(Unescape(s[..AsciiRun(s)])) + UnquoteRuns(codec, s[AsciiRun(s)..])
    else [s[0]] + UnquoteRuns(codec, s[1..])
  }

  function Unquote(codec: Codec, s: string): string {
    if '%' !in s then s else UnquoteRuns(codec, s)
  }

  predicate IsSafe(b: Byte) {
    || 'A' as int <= b <= 'Z' as int
    || 'a' as int <= b <= 'z' as int
    || '0' as int <= b <= '9' as int
    || b == '_' as int || b == '.' as int || b == '-' as int || b == '~' as int
  }

  function QuoteByte(b: Byte): string {
    if IsSafe(b) then [b as char]
    else if b == ' ' as int then "+"
    else ['%', HEX[b / 16], HEX[b % 16]]
  }

  function QuoteBytes(bs: seq<Byte>): string {
    if bs == [] then "" else QuoteByte(bs[0]) + QuoteBytes(bs[1..])
  }

  function QuotePlus(codec: Codec, s: string): string {
    QuoteBytes(codec.encode(s))
  }

  function Spaced(s: string): string {
    seq(|s|, i requires 0 <= i < |s| => if s[i] == '+' then ' ' else s[i])
  }

  // ----- fields -----

  /** Where `c` first stands, or the length. */
  function Find(s: string, c: char): (i: nat)
    ensures i <= |s| && c !in s[..i]
    ensures i < |s| ==> s[i] == c
  {
    if s == "" || s[0] == c then 0 else 1 + Find(s[1..], c)
  }

  function Split(s: string, separator: char): (parts: seq<string>) {
    var i := Find(s, separator);
    if i == |s| then [s] else [s[..i]] + Split(s[i + 1..], separator)
  }

  function FormDecode(codec: Codec, s: string): string {
    Unquote(codec, Spaced(s))
  }

  /** A field without `=` is a name with a blank value. */
  function ParseField(codec: Codec, field: string): Pair {
    var i := Find(field, '=');
    if i == |field| then (FormDecode(codec, field), "")
    else (FormDecode(codec, field[..i]), FormDecode(codec, field[i + 1..]))
  }

  /** Empty fields are skipped. */
  function ParseFields(codec: Codec, fields: seq<string>): seq<Pair> {
    if fields == [] then []
    else if fields[0] == "" then ParseFields(codec, fields[1..])
    else [ParseField(codec, fields[0])] + ParseFields(codec, fields[1..])
  }

  function ParseQsl(codec: Codec, query: string): seq<Pair> {
    ParseFields(codec, Split(query, '&'))
  }

  function PrintPair(codec: Codec, p: Pair): string {
    QuotePlus(codec, p.0) + "=" + QuotePlus(codec, p.1)
  }

  function UrlEncode(codec: Codec, pairs: seq<Pair>): string {
    if pairs == [] then ""
    else if |pairs| == 1 then PrintPair(codec, pairs[0])
    else PrintPair(codec, pairs[0]) + "&" + UrlEncode(codec, pairs[1..])
  }

  // ----- what reading means -----

  /** `c` is the digit for `n`, in either case. */
  predicate IsDigit(c: char, n: nat) {
    n < 16 && (c == HEX[n] || c == LOWER_HEX[n])
  }

  ghost predicate IsHexDigit(c: char) {
    exists n: nat :: IsDigit(c, n)
  }

  lemma {:induction false} HexValueMeans(c: char)
    ensures HexValue(c) < 16 <==> IsHexDigit(c)
    ensures HexValue(c) < 16 ==> IsDigit(c, HexValue(c))
  {
    if HexValue(c) < 16 {
      HexValueIsRight(c);
    } else {
      forall n: nat ensures !IsDigit(c, n) {
        if n < 16 {
          HexDigit(n);
        }
      }
    }
  }

  lemma {:induction false} HexValueIsRight(c: char)
    requires HexValue(c) < 16
    ensures IsDigit(c, HexValue(c))
  {
  }

  lemma {:induction false} PercentIsRead(rest: string)
    requires AllAscii(rest) && |rest| >= 2 && HexValue(rest[0]) < 16 && HexValue(rest[1]) < 16
    ensures AllAscii("%" + rest)
    ensures Unescape("%" + rest) == [16 * HexValue(rest[0]) + HexValue(rest[1])] + Unescape(rest[2..])
  {
    assert ("%" + rest)[3..] == rest[2..];
  }

  lemma {:induction false} PercentStays(rest: string)
    requires AllAscii(rest) && (|rest| >= 2 && HexValue(rest[0]) < 16 ==> HexValue(rest[1]) >= 16)
    ensures AllAscii("%" + rest)
    ensures Unescape("%" + rest) == ['%' as int] + Unescape(rest)
  {
    assert ("%" + rest)[1..] == rest;
  }

  /** What a `%` stands for: with two hexadecimal digits of either case the byte
      that they denote, and without them itself. */
  lemma {:induction false} PercentMeans(rest: string)
    requires AllAscii(rest)
    ensures AllAscii("%" + rest)
    ensures if |rest| >= 2 && IsHexDigit(rest[0]) && IsHexDigit(rest[1]) then
              exists a: nat, b: nat ::
                && IsDigit(rest[0], a) && IsDigit(rest[1], b)
                && Unescape("%" + rest) == [16 * a + b] + Unescape(rest[2..])
            else
              Unescape("%" + rest) == ['%' as int] + Unescape(rest)
  {
    if |rest| >= 2 {
      HexValueMeans(rest[0]);
      HexValueMeans(rest[1]);
    }
    if |rest| >= 2 && HexValue(rest[0]) < 16 && HexValue(rest[1]) < 16 {
      PercentIsRead(rest);
    } else {
      PercentStays(rest);
    }
  }

  /** Nowhere does an escape begin. */
  predicate NoEscapes(s: string) {
    forall i :: 0 <= i < |s| ==> !IsEscape(s[i..])
  }

  lemma {:induction false} NoEscapesIn(s: string, from: nat, to: nat)
    requires NoEscapes(s) && from <= to <= |s|
    ensures NoEscapes(s[from..to])
  {
    var t := s[from..to];
    forall i | 0 <= i < |t| ensures !IsEscape(t[i..]) {
      assert !IsEscape(s[from + i..]);
    }
  }

  lemma {:induction false} UnescapedIsPlain(s: string)
    requires AllAscii(s) && NoEscapes(s)
    ensures Plain(Unescape(s), s)
  {
    if s != "" {
      NoEscapesIn(s, 1, |s|);
      assert s[0..] == s;
      UnescapedIsPlain(s[1..]);
    }
  }

  lemma {:induction false} RunWithoutEscapesStays(codec: Codec, s: string, n: nat)
    requires codec.Valid() && NoEscapes(s) && n <= |s| && AllAscii(s[..n])
    ensures codec.decode(Unescape(s[..n])) == s[..n]
  {
    NoEscapesIn(s, 0, n);
    UnescapedIsPlain(s[..n]);
  }

  lemma {:induction false} RunsWithoutEscapesStay(codec: Codec, s: string)
    requires codec.Valid() && NoEscapes(s)
    ensures UnquoteRuns(codec, s) == s
  {
    if s != "" {
      if IsAscii(s[0]) {
        var n := AsciiRun(s);
        NoEscapesIn(s, n, |s|);
        RunsWithoutEscapesStay(codec, s[n..]);
        RunWithoutEscapesStays(codec, s, n);
        assert s == s[..n] + s[n..];
      } else {
        NoEscapesIn(s, 1, |s|);
        RunsWithoutEscapesStay(codec, s[1..]);
        assert s == [s[0]] + s[1..];
      }
    }
  }

  /** A `%` that is not followed by two hexadecimal digits stands for itself: text
      without escapes is read as it stands, but for its plus signs. */
  lemma {:induction false} MalformedEscapesStay(codec: Codec, s: string)
    requires codec.Valid() && NoEscapes(Spaced(s))
    ensures |FormDecode(codec, s)| == |s|
    ensures forall i :: 0 <= i < |s| ==> FormDecode(codec, s)[i] == if s[i] == '+' then ' ' else s[i]
  {
    RunsWithoutEscapesStay(codec, Spaced(s));
  }

  lemma {:induction false} RunEndsAt(s: string, c: char, t: string)
    requires !IsAscii(c)
    ensures AsciiRun(s + [c] + t) == AsciiRun(s)
  {
    if s != "" {
      RunEndsAt(s[1..], c, t);
      assert (s + [c] + t)[1..] == s[1..] + [c] + t;
    } else {
      assert s + [c] + t == [c] + t;
    }
  }

  lemma {:induction false} RunsJoin(codec: Codec, s: string, c: char, t: string)
    requires !IsAscii(c)
    ensures UnquoteRuns(codec, s + [c] + t) == UnquoteRuns(codec, s) + [c] + UnquoteRuns(codec, t)
  {
    var u := s + [c] + t;
    if s == "" {
      assert u == [c] + t && u[1..] == t;
    } else if IsAscii(s[0]) {
      var n := AsciiRun(s);
      RunEndsAt(s, c, t);
      assert u[..n] == s[..n] && u[n..] == s[n..] + [c] + t;
      RunsJoin(codec, s[n..], c, t);
    } else {
      assert u[1..] == s[1..] + [c] + t;
      RunsJoin(codec, s[1..], c, t);
    }
  }

  lemma {:induction false} FormDecodeByRuns(codec: Codec, s: string)
    requires codec.Valid()
    ensures FormDecode(codec, s) == UnquoteRuns(codec, Spaced(s))
  {
    if '%' !in Spaced(s) {
      assert NoEscapes(Spaced(s));
      RunsWithoutEscapesStay(codec, Spaced(s));
    }
  }

  /** ASCII text is read as the bytes that it denotes. */
  lemma {:induction false} AsciiIsReadAsBytes(codec: Codec, s: string)
    requires codec.Valid() && AllAscii(s)
    ensures AllAscii(Spaced(s)) && FormDecode(codec, s) == codec.decode(Unescape(Spaced(s)))
  {
    FormDecodeByRuns(codec, s);
    ReadInOneRun(codec, Spaced(s));
  }

  /** A character outside ASCII stands for itself, and nothing is read across it. */
  lemma {:induction false} TextIsReadInRuns(codec: Codec, s: string, c: char, t: string)
    requires codec.Valid() && !IsAscii(c)
    ensures FormDecode(codec, s + [c] + t) == FormDecode(codec, s) + [c] + FormDecode(codec, t)
  {
    FormDecodeByRuns(codec, s);
    FormDecodeByRuns(codec, t);
    FormDecodeByRuns(codec, s + [c] + t);
    SpacedAround(s, c, t);
    RunsJoin(codec, Spaced(s), c, Spaced(t));
  }

  lemma {:induction false} SpacedAround(s: string, c: char, t: string)
    requires !IsAscii(c)
    ensures Spaced(s + [c] + t) == Spaced(s) + [c] + Spaced(t)
  {
  }

  lemma {:induction false} ReadInOneRun(codec: Codec, s: string)
    requires codec.Valid() && AllAscii(s)
    ensures UnquoteRuns(codec, s) == codec.decode(Unescape(s))
  {
    if s == "" {
      assert Plain([], "");
    } else {
      assert s[..AsciiRun(s)] == s && s[AsciiRun(s)..] == "";
    }
  }

  function Join(parts: seq<string>, separator: char): string {
    if parts == [] then ""
    else if |parts| == 1 then parts[0]
    else parts[0] + [separator] + Join(parts[1..], separator)
  }

  /** Splitting is the one way to take a text apart at every separator. */
  lemma {:induction false} SplitMeans(s: string, c: char, parts: seq<string>)
    ensures parts == Split(s, c) <==>
            parts != [] && Join(parts, c) == s && forall part :: part in parts ==> c !in part
  {
    SplitParts(s, c);
    if parts != [] && Join(parts, c) == s && forall part :: part in parts ==> c !in part {
      SplitJoined(parts, c);
    }
  }

  lemma {:induction false} SplitParts(s: string, c: char)
    ensures Split(s, c) != [] && Join(Split(s, c), c) == s
    ensures forall part :: part in Split(s, c) ==> c !in part
  {
    var i := Find(s, c);
    if i < |s| {
      SplitParts(s[i + 1..], c);
      assert s == s[..i] + [c] + s[i + 1..];
      assert Split(s, c)[1..] == Split(s[i + 1..], c);
    }
  }

  lemma {:induction false} SplitFirst(part: string, c: char, rest: string)
    requires c !in part
    ensures Split(part, c) == [part]
    ensures Split(part + [c] + rest, c) == [part] + Split(rest, c)
  {
    var s := part + [c] + rest;
    FindAfter(part, c, rest);
    assert s[..|part|] == part && s[|part| + 1..] == rest;
  }

  lemma {:induction false} SplitJoined(parts: seq<string>, c: char)
    requires parts != [] && forall part :: part in parts ==> c !in part
    ensures Split(Join(parts, c), c) == parts
  {
    assert c !in parts[0];
    SplitFirst(parts[0], c, Join(parts[1..], c));
    if |parts| == 1 {
      assert parts == [parts[0]];
    } else {
      SplitJoined(parts[1..], c);
      assert parts == [parts[0]] + parts[1..];
    }
  }

  /** A field is read as the name before its first `=` and the value after it; a
      field without one is a name with a blank value. */
  lemma {:induction false} FieldMeans(codec: Codec, name: string, value: string)
    requires '=' !in name
    ensures ParseField(codec, name + "=" + value) == (FormDecode(codec, name), FormDecode(codec, value))
    ensures ParseField(codec, name) == (FormDecode(codec, name), "")
  {
    FindAfter(name, '=', value);
    var field := name + ['='] + value;
    assert field == name + "=" + value;
    assert field[..|name|] == name && field[|name| + 1..] == value;
  }

  function NonEmpty(fields: seq<string>): seq<string> {
    if fields == [] then []
    else (if fields[0] == "" then [] else [fields[0]]) + NonEmpty(fields[1..])
  }

  /** Each non-empty field is one pair, in order; empty fields are none. */
  lemma {:induction false} EveryFieldIsAPair(codec: Codec, fields: seq<string>)
    ensures |ParseFields(codec, fields)| == |NonEmpty(fields)|
    ensures forall i :: 0 <= i < |NonEmpty(fields)| ==>
              ParseFields(codec, fields)[i] == ParseField(codec, NonEmpty(fields)[i])
  {
    if fields != [] {
      EveryFieldIsAPair(codec, fields[1..]);
      if fields[0] == "" {
        assert NonEmpty(fields) == NonEmpty(fields[1..]);
      } else {
        forall i | 0 <= i < |NonEmpty(fields)|
          ensures ParseFields(codec, fields)[i] == ParseField(codec, NonEmpty(fields)[i])
        {
          assert i > 0 ==> NonEmpty(fields)[i] == NonEmpty(fields[1..])[i - 1];
        }
      }
    }
  }

  // ----- printing then parsing -----

  /** Printed text is harmless inside a query, and inside a URL. */
  predicate Harmless(s: string) {
    forall c :: c in s ==> IsAscii(c) && c !in "&=#\t\r\n"
  }

  lemma {:induction false} QuotedIsHarmless(bs: seq<Byte>)
    ensures Harmless(QuoteBytes(bs))
  {
    if bs != [] {
      HexDigitsRead(bs[0]);
      QuotedIsHarmless(bs[1..]);
    }
  }

  lemma {:induction false} HexDigitsRead(b: Byte)
    ensures Harmless(QuoteByte(b))
    ensures HexValue(HEX[b / 16]) == b / 16 && HexValue(HEX[b % 16]) == b % 16
    ensures HEX[b / 16] != '+' && HEX[b % 16] != '+'
  {
    HexDigit(b / 16);
    HexDigit(b % 16);
  }

  lemma {:induction false} HexDigit(n: nat)
    requires n < 16
    ensures HexValue(HEX[n]) == n && HEX[n] != '+' && Harmless([HEX[n]])
    ensures HexValue(LOWER_HEX[n]) == n
  {
  }

  lemma {:induction false} UnescapeEscape(b: Byte, rest: string)
    requires AllAscii(rest)
    ensures var s := ['%', HEX[b / 16], HEX[b % 16]] + rest;
            AllAscii(s) && Unescape(s) == [b] + Unescape(rest)
  {
    HexDigitsRead(b);
    HexIsAscii(b / 16);
    HexIsAscii(b % 16);
    var digits := [HEX[b / 16], HEX[b % 16]] + rest;
    PercentIsRead(digits);
    assert "%" + digits == ['%', HEX[b / 16], HEX[b % 16]] + rest;
    assert digits[2..] == rest;
    assert 16 * (b / 16) + b % 16 == b;
  }

  lemma {:induction false} HexIsAscii(n: nat)
    requires n < 16
    ensures IsAscii(HEX[n])
  {
  }

  lemma {:induction false} UnescapePlain(c: char, rest: string)
    requires AllAscii(rest) && IsAscii(c) && c != '%'
    ensures AllAscii([c] + rest) && Unescape([c] + rest) == [c as int] + Unescape(rest)
  {
    assert ([c] + rest)[1..] == rest;
  }

  lemma {:induction false} UnescapeQuotedByte(b: Byte, rest: string)
    requires AllAscii(rest)
    ensures AllAscii(Spaced(QuoteByte(b)) + rest)
    ensures Unescape(Spaced(QuoteByte(b)) + rest) == [b] + Unescape(rest)
  {
    if IsSafe(b) || b == ' ' as int {
      UnescapePlain(b as char, rest);
      assert Spaced(QuoteByte(b)) == [b as char];
    } else {
      HexDigitsRead(b);
      UnescapeEscape(b, rest);
      assert Spaced(QuoteByte(b)) == ['%', HEX[b / 16], HEX[b % 16]];
    }
  }

  lemma {:induction false} SpacedJoins(s: string, t: string)
    ensures Spaced(s + t) == Spaced(s) + Spaced(t)
  {
  }

  lemma {:induction false} UnescapeQuoted(bs: seq<Byte>)
    ensures AllAscii(Spaced(QuoteBytes(bs)))
    ensures Unescape(Spaced(QuoteBytes(bs))) == bs
  {
    if bs != [] {
      UnescapeQuoted(bs[1..]);
      UnescapeQuotedByte(bs[0], Spaced(QuoteBytes(bs[1..])));
      SpacedJoins(QuoteByte(bs[0]), QuoteBytes(bs[1..]));
    }
  }

  lemma {:induction false} QuotedTextDecodes(codec: Codec, s: string)
    requires codec.Valid()
    ensures FormDecode(codec, QuotePlus(codec, s)) == s
  {
    var bs := codec.encode(s);
    var t := Spaced(QuoteBytes(bs));
    UnescapeQuoted(bs);
    if '%' in t {
      assert t[..AsciiRun(t)] == t;
      assert UnquoteRuns(codec, t[AsciiRun(t)..]) == "";
    } else {
      assert NoEscapes(t);
      UnescapedIsPlain(t);
    }
  }

  /** Letters, digits, `_`, `.`, `-` and `~` print as themselves, a space as `+`,
      and every other byte as `%` and two upper-case hexadecimal digits. */
  lemma {:induction false} BytePrintsAs(b: Byte)
    ensures 65 <= b <= 90 || 97 <= b <= 122 || 48 <= b <= 57 ==> QuoteBytes([b]) == [b as char]
    ensures b == 95 || b == 46 || b == 45 || b == 126 ==> QuoteBytes([b]) == [b as char]
    ensures b == 32 ==> QuoteBytes([b]) == "+"
    ensures !(65 <= b <= 90 || 97 <= b <= 122 || 48 <= b <= 57 || b in {95, 46, 45, 126, 32}) ==>
              QuoteBytes([b]) == ['%', "0123456789ABCDEF"[b / 16], "0123456789ABCDEF"[b % 16]]
  {
    assert QuoteBytes([b]) == QuoteByte(b);
  }

  /** Bytes print one by one. */
  lemma {:induction false} BytesPrintOneByOne(b: Byte, bs: seq<Byte>)
    ensures QuoteBytes([]) == ""
    ensures QuoteBytes([b] + bs) == QuoteBytes([b]) + QuoteBytes(bs)
  {
    assert ([b] + bs)[1..] == bs;
    assert QuoteBytes([b]) == QuoteByte(b);
  }

  /** A printed query has one field for each pair, in order: the quoted name, an
      equals sign, the quoted value. */
  lemma {:induction false} FieldsPrintAs(codec: Codec, pairs: seq<Pair>)
    requires codec.Valid() && pairs != []
    ensures var fields := Split(UrlEncode(codec, pairs), '&');
            && |fields| == |pairs|
            && forall i :: 0 <= i < |pairs| ==>
                 fields[i] == QuoteBytes(codec.encode(pairs[i].0)) + "=" + QuoteBytes(codec.encode(pairs[i].1))
  {
    var field, rest := PrintPair(codec, pairs[0]), UrlEncode(codec, pairs[1..]);
    PrintedPairParses(codec, pairs[0]);
    SplitFirst(field, '&', rest);
    if |pairs| > 1 {
      FieldsPrintAs(codec, pairs[1..]);
      assert field + "&" + rest == field + ['&'] + rest;
      assert forall i :: 0 < i < |pairs| ==> pairs[i] == pairs[1..][i - 1];
    }
  }

  lemma {:induction false} FindAfter(s: string, c: char, t: string)
    requires c !in s
    ensures Find(s, c) == |s|
    ensures Find(s + [c] + t, c) == |s|
  {
    if s != "" {
      FindAfter(s[1..], c, t);
      assert (s + [c] + t)[1..] == s[1..] + [c] + t;
    }
  }

  lemma {:induction false} PrintedPairParses(codec: Codec, p: Pair)
    requires codec.Valid()
    ensures PrintPair(codec, p) != "" && '&' !in PrintPair(codec, p)
    ensures ParseField(codec, PrintPair(codec, p)) == p
  {
    var k, v := QuotePlus(codec, p.0), QuotePlus(codec, p.1);
    QuotedIsHarmless(codec.encode(p.0));
    QuotedIsHarmless(codec.encode(p.1));
    FindAfter(k, '=', v);
    var field := k + ['='] + v;
    assert PrintPair(codec, p) == field;
    assert field[..|k|] == k && field[|k| + 1..] == v;
    QuotedTextDecodes(codec, p.0);
    QuotedTextDecodes(codec, p.1);
  }

  lemma {:induction false} FieldFirst(codec: Codec, field: string, fields: seq<string>)
    requires field != ""
    ensures ParseFields(codec, [field] + fields) == [ParseField(codec, field)] + ParseFields(codec, fields)
  {
    assert ([field] + fields)[1..] == fields;
  }

  lemma {:induction false} NothingParses(codec: Codec)
    ensures ParseQsl(codec, "") == []
  {
    assert Split("", '&') == [""];
    assert ParseFields(codec, [""]) == ParseFields(codec, []);
  }

  lemma {:induction false} PrintedFirst(codec: Codec, p: Pair, rest: string)
    requires codec.Valid()
    ensures ParseQsl(codec, PrintPair(codec, p)) == [p]
    ensures ParseQsl(codec, PrintPair(codec, p) + "&" + rest) == [p] + ParseQsl(codec, rest)
  {
    var field := PrintPair(codec, p);
    PrintedPairParses(codec, p);
    SplitFirst(field, '&', rest);
    assert field + "&" + rest == field + ['&'] + rest;
    FieldFirst(codec, field, []);
    assert [field] + [] == [field];
    FieldFirst(codec, field, Split(rest, '&'));
  }

  lemma {:induction false} OnePairParses(codec: Codec, p: Pair)
    requires codec.Valid()
    ensures ParseQsl(codec, UrlEncode(codec, [p])) == [p]
  {
    PrintedFirst(codec, p, "");
  }

  lemma {:induction false} OneMorePairParses(codec: Codec, p: Pair, pairs: seq<Pair>)
    requires codec.Valid() && pairs != []
    ensures ParseQsl(codec, UrlEncode(codec, [p] + pairs)) == [p] + ParseQsl(codec, UrlEncode(codec, pairs))
  {
    PrintedFirst(codec, p, UrlEncode(codec, pairs));
    assert ([p] + pairs)[1..] == pairs;
  }

  /** Whatever pairs are printed, reading the query back gives exactly those
      pairs: in order, with repeats, blanks and any characters. */
  lemma {:induction false} PrintedPairsParse(codec: Codec, pairs: seq<Pair>)
    requires codec.Valid()
    ensures ParseQsl(codec, UrlEncode(codec, pairs)) == pairs
  {
    if pairs == [] {
      NothingParses(codec);
    } else if |pairs| == 1 {
      OnePairParses(codec, pairs[0]);
      assert pairs == [pairs[0]];
    } else {
      OneMorePairParses(codec, pairs[0], pairs[1..]);
      PrintedPairsParse(codec, pairs[1..]);
      assert pairs == [pairs[0]] + pairs[1..];
    }
  }

  /** A printed query never ends itself or needs cleaning. */
  lemma {:induction false} PrintedQueryIsClean(codec: Codec, pairs: seq<Pair>)
    ensures forall c :: c in UrlEncode(codec, pairs) ==> c !in "#\t\r\n"
  {
    if pairs != [] {
      QuotedIsHarmless(codec.encode(pairs[0].0));
      QuotedIsHarmless(codec.encode(pairs[0].1));
      PrintedQueryIsClean(codec, pairs[1..]);
    }
  }
}
