/** The application/x-www-form-urlencoded serializer that
    `new URLSearchParams(params).toString()` runs (section 5.2 of the WHATWG
    URL Standard), and, as its inverse, the parser of section 5.1. */
module FormUrlEncoded {
  import opened Wrappers
  import opened Text

  type Byte = b: int | 0 <= b < 256

  /** The UTF-8 encoding of one Unicode scalar value. */
  function Utf8(c: char): (bs: seq<Byte>)
    ensures 1 <= |bs| <= 4
  {
    var cp := c as int;
    if cp < 0x80 then [cp]
    else if cp < 0x800 then [0xC0 + cp / 64, 0x80 + cp % 64]
    else if cp < 0x10000 then [0xE0 + cp / 4096, 0x80 + (cp / 64) % 64, 0x80 + cp % 64]
    else [0xF0 + cp / 262144, 0x80 + (cp / 4096) % 64, 0x80 + (cp / 64) % 64, 0x80 + cp % 64]
  }

  function Utf8Encode(s: string): seq<Byte> {
    if s == [] then [] else Utf8(s[0]) + Utf8Encode(s[1..])
  }

  /** The bytes the serializer leaves as they are: ASCII alphanumerics and
      `*`, `-`, `.`, `_`.  Every other byte is in the
      application/x-www-form-urlencoded percent-encode set. */
  predicate Unreserved(b: Byte) {
    ('0' as int <= b <= '9' as int) || ('A' as int <= b <= 'Z' as int) || ('a' as int <= b <= 'z' as int)
    || b == '*' as int || b == '-' as int || b == '.' as int || b == '_' as int
  }

  /** One byte as the serializer writes it: itself, `+` for a space, or
      `%` and two upper-case hexadecimal digits. */
  function EncodeByte(b: Byte): (s: string)
    ensures '&' !in s && '=' !in s
  {
    if Unreserved(b) then [b as char]
    else if b == 0x20 then "+"
    else ['%', HexChar(b / 16, true), HexChar(b % 16, true)]
  }

  function EncodeBytes(bs: seq<Byte>): (s: string)
    ensures '&' !in s && '=' !in s
  {
    if bs == [] then "" else EncodeByte(bs[0]) + EncodeBytes(bs[1..])
  }

  /** A name or a value, UTF-8 encoded and then percent-encoded. */
  function Encode(s: string): (r: string)
    ensures '&' !in r && '=' !in r
  {
    EncodeBytes(Utf8Encode(s))
  }

  /** The serializer: each pair as `name=value`, the pairs in order joined
      by `&`. */
  function Serialize(pairs: seq<(string, string)>): string {
    Join(PairTexts(pairs), "&")
  }

  function PairTexts(pairs: seq<(string, string)>): (ts: seq<string>)
    ensures |ts| == |pairs|
    ensures forall i :: 0 <= i < |pairs| ==> ts[i] == Encode(pairs[i].0) + "=" + Encode(pairs[i].1)
  {
    seq(|pairs|, i requires 0 <= i < |pairs| => Encode(pairs[i].0) + "=" + Encode(pairs[i].1))
  }

  // The application/x-www-form-urlencoded parser (section 5.1), the
  // inverse against which the serializer is proved.

  /** Percent-decoding after `+` is read as a space: `%` and two
      hexadecimal digits give one byte, any other character its UTF-8
      bytes. */
  function PercentDecode(s: string): seq<Byte> {
    if s == [] then []
    else if s[0] == '+' then [0x20] + PercentDecode(s[1..])
    else if s[0] == '%' && |s| >= 3 && HexValue(s[1]) >= 0 && HexValue(s[2]) >= 0 then
      [16 * HexValue(s[1]) + HexValue(s[2])] + PercentDecode(s[3..])
    else Utf8(s[0]) + PercentDecode(s[1..])
  }

  predicate IsContinuation(b: Byte) {
    0x80 <= b < 0xC0
  }

  /** The scalar value at the front of a UTF-8 byte sequence and the number
      of bytes it takes, or None if the bytes there are not well formed. */
  function DecodeOne(bs: seq<Byte>): (r: Option<(char, nat)>)
    requires bs != []
    ensures r.Some? ==> 1 <= r.value.1 <= |bs|
  {
    var b0: int := bs[0];
    if b0 < 0x80 then Some((b0 as char, 1))
    else if 0xC0 <= b0 < 0xE0 && |bs| >= 2 && IsContinuation(bs[1]) then
      var cp := (b0 - 0xC0) * 64 + (bs[1] as int - 0x80);
      if 0x80 <= cp then Some((cp as char, 2)) else None
    else if 0xE0 <= b0 < 0xF0 && |bs| >= 3 && IsContinuation(bs[1]) && IsContinuation(bs[2]) then
      var cp := (b0 - 0xE0) * 4096 + (bs[1] as int - 0x80) * 64 + (bs[2] as int - 0x80);
      if 0x800 <= cp && !(0xD800 <= cp < 0xE000) then Some((cp as char, 3)) else None
    else if 0xF0 <= b0 < 0xF8 && |bs| >= 4 && IsContinuation(bs[1]) && IsContinuation(bs[2]) && IsContinuation(bs[3]) then
      var cp := (b0 - 0xF0) * 262144 + (bs[1] as int - 0x80) * 4096 + (bs[2] as int - 0x80) * 64 + (bs[3] as int - 0x80);
      if 0x10000 <= cp < 0x110000 then Some((cp as char, 4)) else None
    else None
  }

  /** UTF-8 decoding; None for bytes that are not well formed (where the
      standard substitutes U+FFFD). */
  function Utf8Decode(bs: seq<Byte>): Option<string>
    decreases |bs|
  {
    if bs == [] then Some([])
    else match DecodeOne(bs)
      case None => None
      case Some((c, n)) =>
        match Utf8Decode(bs[n..])
        case None => None
        case Some(rest) => Some([c] + rest)
  }

  /** A name or a value as the parser reads it back. */
  function Decode(s: string): Option<string> {
    Utf8Decode(PercentDecode(s))
  }

  /** A sequence cut at its first `=`: the name, and the value (empty when
      there is no `=`). */
  function CutAtEquals(s: string): (string, string) {
    if s == [] then ("", "")
    else if s[0] == '=' then ("", s[1..])
    else
      var (name, value) := CutAtEquals(s[1..]);
      ([s[0]] + name, value)
  }

  /** The parser: the `&`-separated sequences, empty ones skipped, each cut
      at its first `=` and decoded. */
  function Parse(query: string): Option<seq<(string, string)>> {
    ParseSequences(Split(query, '&'))
  }

  function ParseSequences(seqs: seq<string>): Option<seq<(string, string)>> {
    if seqs == [] then Some([])
    else if seqs[0] == [] then ParseSequences(seqs[1..])
    else
      var (name, value) := CutAtEquals(seqs[0]);
      match (Decode(name), Decode(value), ParseSequences(seqs[1..]))
      case (Some(n), Some(v), Some(rest)) => Some([(n, v)] + rest)
      case _ => None
  }

  lemma DecodeOneTwo(c: char, rest: seq<Byte>)
    requires 0x80 <= c as int < 0x800
    ensures DecodeOne(Utf8(c) + rest) == Some((c, 2))
  {
    var cp := c as int;
    var bs := Utf8(c) + rest;
    assert bs[0] == 0xC0 + cp / 64 && bs[1] == 0x80 + cp % 64;
    assert (bs[0] as int - 0xC0) * 64 + (bs[1] as int - 0x80) == cp;
  }

  lemma DecodeOneThree(c: char, rest: seq<Byte>)
    requires 0x800 <= c as int < 0x10000
    ensures DecodeOne(Utf8(c) + rest) == Some((c, 3))
  {
    var cp := c as int;
    var hi, mid, lo := cp / 4096, (cp / 64) % 64, cp % 64;
    assert cp == hi * 4096 + mid * 64 + lo;
    var bs := Utf8(c) + rest;
    assert bs[0] == 0xE0 + hi && bs[1] == 0x80 + mid && bs[2] == 0x80 + lo;
  }

  /** The four-byte form, on the bytes alone. */
  lemma DecodeFourBytes(b0: Byte, b1: Byte, b2: Byte, b3: Byte, rest: seq<Byte>, cp: int)
    requires 0xF0 <= b0 < 0xF8 && IsContinuation(b1) && IsContinuation(b2) && IsContinuation(b3)
    requires cp == (b0 - 0xF0) * 262144 + (b1 - 0x80) * 4096 + (b2 - 0x80) * 64 + (b3 - 0x80)
    requires 0x10000 <= cp < 0x110000
    ensures DecodeOne([b0, b1, b2, b3] + rest) == Some((cp as char, 4))
  {
    var bs := [b0, b1, b2, b3] + rest;
    assert bs[0] == b0 && bs[1] == b1 && bs[2] == b2 && bs[3] == b3;
  }

  lemma FourDigits(cp: int)
    requires 0x10000 <= cp < 0x110000
    ensures 0 <= cp / 262144 < 8
    ensures cp == (cp / 262144) * 262144 + ((cp / 4096) % 64) * 4096 + ((cp / 64) % 64) * 64 + cp % 64
  {
    var q := cp / 64;
    assert cp == q * 64 + cp % 64;
    var r := q / 64;
    assert q == r * 64 + q % 64;
    assert r == cp / 4096;
    assert r == (r / 64) * 64 + r % 64;
    assert r / 64 == cp / 262144;
  }

  lemma DecodeOneFour(c: char, rest: seq<Byte>)
    requires 0x10000 <= c as int
    ensures DecodeOne(Utf8(c) + rest) == Some((c, 4))
  {
    var cp := c as int;
    FourDigits(cp);
    var top, hi, mid, lo := cp / 262144, (cp / 4096) % 64, (cp / 64) % 64, cp % 64;
    assert Utf8(c) == [0xF0 + top, 0x80 + hi, 0x80 + mid, 0x80 + lo];
    DecodeFourBytes(0xF0 + top, 0x80 + hi, 0x80 + mid, 0x80 + lo, rest, cp);
  }

  /** The decoder reads one encoded scalar value back, whatever follows it. */
  lemma DecodeOneUtf8(c: char, rest: seq<Byte>)
    ensures DecodeOne(Utf8(c) + rest) == Some((c, |Utf8(c)|))
  {
    var cp := c as int;
    if cp < 0x80 {
    } else if cp < 0x800 {
      DecodeOneTwo(c, rest);
    } else if cp < 0x10000 {
      DecodeOneThree(c, rest);
    } else {
      DecodeOneFour(c, rest);
    }
  }

  /** UTF-8 decoding undoes UTF-8 encoding. */
  lemma {:induction false} Utf8RoundTrip(s: string)
    ensures Utf8Decode(Utf8Encode(s)) == Some(s)
  {
    if s != [] {
      var bs := Utf8Encode(s);
      DecodeOneUtf8(s[0], Utf8Encode(s[1..]));
      assert bs[|Utf8(s[0])|..] == Utf8Encode(s[1..]);
      Utf8RoundTrip(s[1..]);
      assert [s[0]] + s[1..] == s;
    }
  }

  lemma PercentDecodeByte(b: Byte, rest: string)
    ensures PercentDecode(EncodeByte(b) + rest) == [b] + PercentDecode(rest)
  {
    var s := EncodeByte(b) + rest;
    if Unreserved(b) {
      assert s[0] == b as char && s[1..] == rest;
    } else if b == 0x20 {
      assert s[0] == '+' && s[1..] == rest;
    } else {
      HexValueOfHexChar(b / 16, true);
      HexValueOfHexChar(b % 16, true);
      assert s[0] == '%' && s[1] == HexChar(b / 16, true) && s[2] == HexChar(b % 16, true);
      assert s[3..] == rest;
    }
  }

  lemma {:induction false} PercentRoundTrip(bs: seq<Byte>)
    ensures PercentDecode(EncodeBytes(bs)) == bs
  {
    if bs != [] {
      PercentDecodeByte(bs[0], EncodeBytes(bs[1..]));
      PercentRoundTrip(bs[1..]);
      assert [bs[0]] + bs[1..] == bs;
    }
  }

  /** Decoding an encoded name or value gives it back. */
  lemma DecodeEncode(s: string)
    ensures Decode(Encode(s)) == Some(s)
  {
    PercentRoundTrip(Utf8Encode(s));
    Utf8RoundTrip(s);
  }

  lemma {:induction false} CutAtFirstEquals(x: string, y: string)
    requires '=' !in x
    ensures CutAtEquals(x + "=" + y) == (x, y)
  {
    if x == [] {
      assert x + "=" + y == "=" + y;
    } else {
      assert (x + "=" + y)[1..] == x[1..] + "=" + y;
      CutAtFirstEquals(x[1..], y);
      assert [x[0]] + x[1..] == x;
    }
  }

  lemma {:induction false} ParsePairTexts(pairs: seq<(string, string)>)
    ensures ParseSequences(PairTexts(pairs)) == Some(pairs)
  {
    if pairs != [] {
      var ts := PairTexts(pairs);
      var (k, v) := pairs[0];
      assert ts[0] == Encode(k) + "=" + Encode(v) && ts[0] != [];
      CutAtFirstEquals(Encode(k), Encode(v));
      DecodeEncode(k);
      DecodeEncode(v);
      assert ts[1..] == PairTexts(pairs[1..]);
      ParsePairTexts(pairs[1..]);
      assert [(k, v)] + pairs[1..] == pairs;
    }
  }

  /** The parser reads the serializer's output back to the same pairs, in
      the same order. */
  lemma ParseSerialize(pairs: seq<(string, string)>)
    ensures Parse(Serialize(pairs)) == Some(pairs)
  {
    var ts := PairTexts(pairs);
    if pairs == [] {
      assert Split("", '&') == [""];
    } else {
      forall i | 0 <= i < |ts| ensures '&' !in ts[i] {
        assert ts[i] == Encode(pairs[i].0) + "=" + Encode(pairs[i].1);
      }
      SplitJoin(ts, '&');
    }
    ParsePairTexts(pairs);
  }
}
