/**
 * `encodeURIComponent` and `decodeURIComponent` as the token codec uses
 * them: every character outside the unescaped set is written as the
 * `%XX` escapes of its UTF-8 bytes (upper-case hex), and decoding reverses
 * that, failing (the source's `URIError`) on a malformed escape or an
 * invalid UTF-8 sequence.
 */
module UriComponent {
  import opened Wrappers

  /** The characters `encodeURIComponent` leaves alone: ASCII letters and digits and `- _ . ! ~ * ' ( )`. */
  predicate IsUnescaped(c: char) {
    || ('A' <= c <= 'Z') || ('a' <= c <= 'z') || ('0' <= c <= '9')
    || c == '-' || c == '_' || c == '.' || c == '!' || c == '~' || c == '*'
    || c == '\'' || c == '(' || c == ')'
  }

  predicate IsUpperHexDigit(c: char) {
    ('0' <= c <= '9') || ('A' <= c <= 'F')
  }

  /** A hexadecimal digit of either case, read as its value. */
  function HexValue(c: char): (r: Option<int>)
    ensures r.Some? ==> 0 <= r.value < 16
  {
    if '0' <= c <= '9' then Some(c as int - '0' as int)
    else if 'A' <= c <= 'F' then Some(c as int - 'A' as int + 10)
    else if 'a' <= c <= 'f' then Some(c as int - 'a' as int + 10)
    else None
  }

  /** The upper-case hexadecimal digit `encodeURIComponent` writes for a nibble. */
  function HexDigit(n: int): (c: char)
    requires 0 <= n < 16
    ensures IsUpperHexDigit(c) && HexValue(c) == Some(n)
  {
    if n < 10 then ('0' as int + n) as char else ('A' as int + n - 10) as char
  }

  predicate IsByte(b: int) {
    0 <= b < 256
  }

  predicate AreBytes(bs: seq<int>) {
    forall i :: 0 <= i < |bs| ==> IsByte(bs[i])
  }

  // ---------------------------------------------------------------------
  // UTF-8

  predicate IsContinuation(b: int) {
    0x80 <= b < 0xC0
  }

  /** The length of the UTF-8 sequence a leading byte announces; 0 when the byte cannot lead one. */
  function Utf8SequenceLength(b: int): (n: nat)
    ensures n <= 4
  {
    if b < 0x80 then 1
    else if b < 0xC0 then 0
    else if b < 0xE0 then 2
    else if b < 0xF0 then 3
    else if b < 0xF8 then 4
    else 0
  }

  /** The UTF-8 encoding of one Unicode scalar value. */
  function Utf8Encode(c: char): (bs: seq<int>)
    ensures 1 <= |bs| <= 4 && AreBytes(bs)
    ensures |bs| == 1 <==> c as int < 0x80
  {
    var cp := c as int;
    if cp < 0x80 then [cp]
    else if cp < 0x800 then [0xC0 + cp / 64, 0x80 + cp % 64]
    else if cp < 0x10000 then [0xE0 + cp / 4096, 0x80 + (cp / 64) % 64, 0x80 + cp % 64]
    else [0xF0 + cp / 262144, 0x80 + (cp / 4096) % 64, 0x80 + (cp / 64) % 64, 0x80 + cp % 64]
  }

  /** The smallest code point a sequence of `n` bytes may encode (shorter forms are "overlong"). */
  function MinCodePoint(n: nat): int {
    if n <= 1 then 0 else if n == 2 then 0x80 else if n == 3 then 0x800 else 0x10000
  }

  /**
   * Reads one complete UTF-8 sequence: the length its leading byte announces,
   * continuation bytes after it, no overlong form, no surrogate, nothing past
   * U+10FFFF.
   */
  function Utf8Decode(bs: seq<int>): (r: Option<char>)
    requires AreBytes(bs)
    ensures r.Some? ==> |bs| >= 1 && |bs| == Utf8SequenceLength(bs[0]) && forall i :: 1 <= i < |bs| ==> IsContinuation(bs[i])
    ensures r.Some? ==> (|bs| == 1 <==> r.value as int < 0x80)
  {
    if bs == [] || Utf8SequenceLength(bs[0]) != |bs| then None
    else if exists i :: 1 <= i < |bs| && !IsContinuation(bs[i]) then None
    else
      var cp :=
        if |bs| == 1 then bs[0]
        else if |bs| == 2 then (bs[0] - 0xC0) * 64 + (bs[1] - 0x80)
        else if |bs| == 3 then ((bs[0] - 0xE0) * 64 + (bs[1] - 0x80)) * 64 + (bs[2] - 0x80)
        else (((bs[0] - 0xF0) * 64 + (bs[1] - 0x80)) * 64 + (bs[2] - 0x80)) * 64 + (bs[3] - 0x80);
      if cp < MinCodePoint(|bs|) || (0xD800 <= cp < 0xE000) || cp > 0x10FFFF then None
      else Some(cp as char)
  }

  lemma DivDiv64(x: nat)
    ensures (x / 64) / 64 == x / 4096
  {
    var q, r := x / 64, x % 64;
    var q2, r2 := q / 64, q % 64;
    assert x == 4096 * q2 + (64 * r2 + r);
    assert 0 <= 64 * r2 + r < 4096;
  }

  /** Decoding the UTF-8 encoding of a character gives the character back. */
  lemma Utf8RoundTrip(c: char)
    ensures Utf8SequenceLength(Utf8Encode(c)[0]) == |Utf8Encode(c)|
    ensures Utf8Decode(Utf8Encode(c)) == Some(c)
  {
    var cp := c as int;
    if cp < 0x80 {
    } else if cp < 0x800 {
      var bs := Utf8Encode(c);
      assert (bs[0] - 0xC0) * 64 + (bs[1] - 0x80) == cp;
    } else if cp < 0x10000 {
      Utf8RoundTripThree(c);
    } else {
      Utf8RoundTripFour(c);
    }
  }

  lemma Utf8RoundTripThree(c: char)
    requires 0x800 <= c as int < 0x10000
    ensures Utf8SequenceLength(Utf8Encode(c)[0]) == |Utf8Encode(c)|
    ensures Utf8Decode(Utf8Encode(c)) == Some(c)
  {
    var cp := c as int;
    var bs := Utf8Encode(c);
    DivDiv64(cp);
    assert ((bs[0] - 0xE0) * 64 + (bs[1] - 0x80)) == cp / 64;
  }

  lemma Utf8RoundTripFour(c: char)
    requires 0x10000 <= c as int
    ensures Utf8SequenceLength(Utf8Encode(c)[0]) == |Utf8Encode(c)|
    ensures Utf8Decode(Utf8Encode(c)) == Some(c)
  {
    var cp := c as int;
    var bs := Utf8Encode(c);
    DivDiv64(cp);
    DivDiv64(cp / 64);
    assert (cp / 64) / 4096 == cp / 262144 by {
      var q := cp / 4096;
      assert q / 64 == cp / 262144 by {
        assert cp == 262144 * (q / 64) + (4096 * (q % 64) + cp % 4096);
      }
    }
    assert ((bs[0] - 0xF0) * 64 + (bs[1] - 0x80)) == cp / 4096;
    assert ((bs[0] - 0xF0) * 64 + (bs[1] - 0x80)) * 64 + (bs[2] - 0x80) == cp / 64;
  }

  /** `q * 64 + r` with a remainder below 64 divides back into `q` and `r`. */
  lemma DivMod64(q: nat, r: nat)
    requires r < 64
    ensures (q * 64 + r) / 64 == q && (q * 64 + r) % 64 == r
  {
  }

  /**
   * Encoding the character a UTF-8 sequence decodes to gives that sequence
   * back: every accepted sequence is the one encoding of its character.
   */
  lemma Utf8DecodeRoundTrip(bs: seq<int>)
    requires AreBytes(bs) && Utf8Decode(bs).Some?
    ensures Utf8Encode(Utf8Decode(bs).value) == bs
  {
    var cp := Utf8Decode(bs).value as int;
    if |bs| == 2 {
      assert cp == (bs[0] - 0xC0) * 64 + (bs[1] - 0x80);
      DivMod64(bs[0] - 0xC0, bs[1] - 0x80);
    } else if |bs| == 3 {
      var hi := (bs[0] - 0xE0) * 64 + (bs[1] - 0x80);
      assert cp == hi * 64 + (bs[2] - 0x80);
      DivMod64(hi, bs[2] - 0x80);
      DivMod64(bs[0] - 0xE0, bs[1] - 0x80);
      DivDiv64(cp);
    } else if |bs| == 4 {
      Utf8DecodeRoundTripFour(bs);
    }
  }

  lemma Utf8DecodeRoundTripFour(bs: seq<int>)
    requires AreBytes(bs) && Utf8Decode(bs).Some? && |bs| == 4
    ensures Utf8Encode(Utf8Decode(bs).value) == bs
  {
    var cp := Utf8Decode(bs).value as int;
    var top := (bs[0] - 0xF0) * 64 + (bs[1] - 0x80);
    var mid := top * 64 + (bs[2] - 0x80);
    assert cp == mid * 64 + (bs[3] - 0x80);
    DivMod64(mid, bs[3] - 0x80);
    DivMod64(top, bs[2] - 0x80);
    DivMod64(bs[0] - 0xF0, bs[1] - 0x80);
    DivDiv64(cp);
    DivDiv64(cp / 64);
    assert cp / 4096 == top;
    assert cp / 262144 == bs[0] - 0xF0 by {
      var q := cp / 4096;
      assert cp == 262144 * (q / 64) + (4096 * (q % 64) + cp % 4096);
    }
  }

  // ---------------------------------------------------------------------
  // Encoding

  /** One byte as a `%XX` escape. */
  function EscapeByte(b: int): (s: string)
    requires IsByte(b)
    ensures IsEncoded(s)
  {
    var s := ['%', HexDigit(b / 16), HexDigit(b % 16)];
    assert EncodedAt(s, 0) && EncodedAt(s, 1) && EncodedAt(s, 2);
    s
  }

  function EscapeBytes(bs: seq<int>): (s: string)
    requires AreBytes(bs)
    ensures |s| == 3 * |bs|
  {
    if bs == [] then [] else EscapeByte(bs[0]) + EscapeBytes(bs[1..])
  }

  function EncodeChar(c: char): (s: string)
    ensures IsEncoded(s)
  {
    if IsUnescaped(c) then [c]
    else
      EscapeBytesEncoded(Utf8Encode(c));
      EscapeBytes(Utf8Encode(c))
  }

  /**
   * Text made only of unescaped characters and `%XX` escapes with upper-case
   * hexadecimal digits.
   */
  predicate IsEncoded(s: string) {
    forall i :: 0 <= i < |s| ==> EncodedAt(s, i)
  }

  /** Position `i` holds an unescaped character or starts a complete `%XX` escape. */
  predicate EncodedAt(s: string, i: nat)
    requires i < |s|
  {
    IsUnescaped(s[i]) || (s[i] == '%' && i + 2 < |s| && IsUpperHexDigit(s[i + 1]) && IsUpperHexDigit(s[i + 2]))
  }

  /** Encoded text holds none of the characters that delimit a JSON object. */
  lemma EncodedHasNoJsonPunctuation(s: string)
    requires forall i :: 0 <= i < |s| ==> IsUnescaped(s[i]) || s[i] == '%'
    ensures '{' !in s && '"' !in s && ':' !in s && ',' !in s && '}' !in s
  {
  }

  /** Encoded text holds nothing but unescaped characters and `%`. */
  lemma EncodedChars(s: string)
    requires IsEncoded(s)
    ensures forall i :: 0 <= i < |s| ==> IsUnescaped(s[i]) || s[i] == '%'
  {
    forall i | 0 <= i < |s| ensures IsUnescaped(s[i]) || s[i] == '%' {
      assert EncodedAt(s, i);
    }
  }

  lemma EncodedConcat(a: string, b: string)
    requires IsEncoded(a) && IsEncoded(b)
    ensures IsEncoded(a + b)
  {
    var s := a + b;
    forall i | 0 <= i < |s|
      ensures EncodedAt(s, i)
    {
      if i < |a| {
        assert EncodedAt(a, i);
        if !IsUnescaped(a[i]) {
          assert s[i] == a[i] && s[i + 1] == a[i + 1] && s[i + 2] == a[i + 2];
        }
      } else {
        var k := i - |a|;
        assert EncodedAt(b, k);
        if !IsUnescaped(b[k]) {
          assert s[i] == b[k] && s[i + 1] == b[k + 1] && s[i + 2] == b[k + 2];
        }
      }
    }
  }

  lemma {:induction false} EscapeBytesEncoded(bs: seq<int>)
    requires AreBytes(bs)
    ensures IsEncoded(EscapeBytes(bs))
  {
    if bs != [] {
      EscapeBytesEncoded(bs[1..]);
      EncodedConcat(EscapeByte(bs[0]), EscapeBytes(bs[1..]));
    }
  }

  /** `encodeURIComponent`. */
  function EncodeURIComponent(s: string): (r: string)
    ensures IsEncoded(r)
  {
    if s == [] then []
    else
      var head := EncodeChar(s[0]);
      var tail := EncodeURIComponent(s[1..]);
      EncodedConcat(head, tail);
      head + tail
  }

  // ---------------------------------------------------------------------
  // Decoding

  /** `decodeURIComponent` throws a `URIError`. */
  datatype UriError = UriError

  /** Reads one `%XX` escape at the front of `s`. */
  function ReadEscape(s: string): (r: Option<(int, string)>)
    ensures r.Some? ==> IsByte(r.value.0) && |s| >= 3 && r.value.1 == s[3..]
  {
    if |s| < 3 || s[0] != '%' then None
    else match (HexValue(s[1]), HexValue(s[2]))
      case (Some(hi), Some(lo)) => Some((16 * hi + lo, s[3..]))
      case _ => None
  }

  /** Reads `k` escapes in a row. */
  function ReadEscapes(s: string, k: nat): (r: Option<(seq<int>, string)>)
    ensures r.Some? ==> |r.value.0| == k && AreBytes(r.value.0) && |r.value.1| == |s| - 3 * k
  {
    if k == 0 then Some(([], s))
    else match ReadEscape(s)
      case None => None
      case Some((b, rest)) =>
        match ReadEscapes(rest, k - 1)
        case None => None
        case Some((more, rest')) => Some(([b] + more, rest'))
  }

  /** Decodes the escape sequence for one character at the front of `s`. */
  function DecodeEscape(s: string): (r: Result<(char, string), UriError>)
    ensures r.Ok? ==> |r.value.1| < |s|
  {
    match ReadEscape(s)
    case None => Err(UriError)
    case Some((b, rest)) =>
      if b < 0x80 then Ok((b as char, rest))
      else
        var n := Utf8SequenceLength(b);
        if n == 0 then Err(UriError)
        else match ReadEscapes(rest, n - 1)
          case None => Err(UriError)
          case Some((more, rest')) =>
            match Utf8Decode([b] + more)
            case None => Err(UriError)
            case Some(c) => Ok((c, rest'))
  }

  /**
   * `decodeURIComponent`: the decoded text is never longer than the input,
   * and text without `%` decodes to itself.
   */
  function DecodeURIComponent(s: string): (r: Result<string, UriError>)
    ensures r.Ok? ==> |r.value| <= |s|
    ensures '%' !in s ==> r == Ok(s)
    decreases |s|
  {
    if s == [] then Ok([])
    else if s[0] != '%' then
      assert s == [s[0]] + s[1..];
      match DecodeURIComponent(s[1..])
      case Ok(t) => Ok([s[0]] + t)
      case Err(e) => Err(e)
    else
      match DecodeEscape(s)
      case Err(e) => Err(e)
      case Ok((c, rest)) =>
        match DecodeURIComponent(rest)
        case Ok(t) => Ok([c] + t)
        case Err(e) => Err(e)
  }

  // ---------------------------------------------------------------------
  // Round trip

  lemma ReadEscapeByte(b: int, rest: string)
    requires IsByte(b)
    ensures ReadEscape(EscapeByte(b) + rest) == Some((b, rest))
  {
    var s := EscapeByte(b) + rest;
    assert s[1] == HexDigit(b / 16) && s[2] == HexDigit(b % 16);
    assert s[3..] == rest;
  }

  lemma {:induction false} ReadEscapeBytes(bs: seq<int>, rest: string)
    requires AreBytes(bs)
    ensures ReadEscapes(EscapeBytes(bs) + rest, |bs|) == Some((bs, rest))
  {
    if bs != [] {
      var tail := EscapeBytes(bs[1..]) + rest;
      assert EscapeBytes(bs) + rest == EscapeByte(bs[0]) + tail;
      ReadEscapeByte(bs[0], tail);
      ReadEscapeBytes(bs[1..], rest);
      assert ReadEscapes(tail, |bs| - 1) == Some((bs[1..], rest));
      assert ReadEscape(EscapeBytes(bs) + rest) == Some((bs[0], tail));
      assert [bs[0]] + bs[1..] == bs;
    } else {
      assert EscapeBytes(bs) + rest == rest;
    }
  }

  lemma DecodeEncodedChar(c: char, rest: string)
    ensures DecodeURIComponent(EncodeChar(c) + rest) ==
            match DecodeURIComponent(rest)
            case Ok(t) => Ok([c] + t)
            case Err(e) => Err(e)
  {
    var s := EncodeChar(c) + rest;
    if IsUnescaped(c) {
      assert s[0] == c && s[1..] == rest;
    } else {
      var bs := Utf8Encode(c);
      Utf8RoundTrip(c);
      var tail := EscapeBytes(bs[1..]) + rest;
      assert s == EscapeByte(bs[0]) + tail;
      ReadEscapeByte(bs[0], tail);
      ReadEscapeBytes(bs[1..], rest);
      assert [bs[0]] + bs[1..] == bs;
      if bs[0] < 0x80 {
        assert c as int == bs[0];
      }
      assert DecodeEscape(s) == Ok((c, rest));
    }
  }

  /** `decodeURIComponent(encodeURIComponent(s)) == s` for every string. */
  lemma {:induction false} DecodeEncode(s: string)
    ensures DecodeURIComponent(EncodeURIComponent(s)) == Ok(s)
  {
    if s != [] {
      DecodeEncode(s[1..]);
      DecodeEncodedChar(s[0], EncodeURIComponent(s[1..]));
      assert [s[0]] + s[1..] == s;
    }
  }
}
