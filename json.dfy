/**
 * The JSON text of a token: `JSON.stringify` of the object
 * `{sessionId, userId}` and the part of `JSON.parse` that reads it back.
 *
 * The parser reads a JSON text whose top level is an object of scalar
 * members: strings, integers, `true`, `false`, `null`. It reports a
 * syntax error for text that breaks the grammar inside that fragment. It
 * reports "unsupported" as soon as it meets the first character of
 * something outside the fragment (a `.`, `e` or `E` after digits, a `\`
 * in a string, a nested `{` or `[`, a scalar at the top level) without
 * reading further, so "unsupported" covers valid JSON beyond the fragment
 * and invalid text alike (`-` alone, `1.`, an unterminated string, an
 * unknown escape).
 */
module Json {
  import opened Wrappers

  /** A member value: an integer, or any other scalar (never equal to a number). */
  datatype Scalar = Number(n: int) | NotNumber

  datatype JsonError = SyntaxError | Unsupported

  type Members = seq<(string, Scalar)>

  // ---------------------------------------------------------------------
  // Integers in decimal

  predicate IsDigit(c: char) {
    '0' <= c <= '9'
  }

  predicate AllDigits(s: string) {
    forall i :: 0 <= i < |s| ==> IsDigit(s[i])
  }

  function DigitChar(d: int): (c: char)
    requires 0 <= d < 10
    ensures IsDigit(c)
  {
    ('0' as int + d) as char
  }

  /** The decimal digits of a natural number: no leading zero, `"0"` for zero. */
  function NatToDecimal(n: nat): (s: string)
    ensures |s| >= 1 && AllDigits(s)
    ensures s[0] == '0' ==> s == "0"
  {
    if n < 10 then [DigitChar(n)]
    else NatToDecimal(n / 10) + [DigitChar(n % 10)]
  }

  /**
   * How `JSON.stringify` writes an integral number: its decimal digits,
   * after a minus sign when it is negative.
   */
  function IntToDecimal(n: int): (s: string)
    ensures n >= 0 ==> AllDigits(s) && DecimalValue(s) == n
    ensures n < 0 ==> |s| >= 2 && s[0] == '-' && AllDigits(s[1..]) && DecimalValue(s[1..]) == -n
  {
    if n < 0 then
      DecimalRoundTrip(-n);
      var s := "-" + NatToDecimal(-n);
      assert s[1..] == NatToDecimal(-n);
      s
    else
      DecimalRoundTrip(n);
      NatToDecimal(n)
  }

  /** The value of a string of decimal digits. */
  function DecimalValue(ds: string): nat
    requires AllDigits(ds)
  {
    if ds == [] then 0
    else DecimalValue(ds[..|ds| - 1]) * 10 + (ds[|ds| - 1] as int - '0' as int)
  }

  lemma {:induction false} DecimalRoundTrip(n: nat)
    ensures DecimalValue(NatToDecimal(n)) == n
  {
    if n >= 10 {
      DecimalRoundTrip(n / 10);
      var s := NatToDecimal(n);
      assert s[..|s| - 1] == NatToDecimal(n / 10);
    }
  }

  /** Splits off the longest run of digits at the front of `s`. */
  function SpanDigits(s: string): (r: (string, string))
    ensures r.0 + r.1 == s && AllDigits(r.0)
    ensures r.1 == [] || !IsDigit(r.1[0])
  {
    if s != [] && IsDigit(s[0]) then
      var (ds, rest) := SpanDigits(s[1..]);
      assert [s[0]] + (ds + rest) == s;
      ([s[0]] + ds, rest)
    else
      ([], s)
  }

  lemma {:induction false} SpanDigitsOf(ds: string, rest: string)
    requires AllDigits(ds)
    requires rest == [] || !IsDigit(rest[0])
    ensures SpanDigits(ds + rest) == (ds, rest)
  {
    if ds != [] {
      var s := ds + rest;
      SpanDigitsOf(ds[1..], rest);
      assert s[0] == ds[0] && IsDigit(s[0]);
      assert s[1..] == ds[1..] + rest;
      assert SpanDigits(s) == ([s[0]] + ds[1..], rest);
      assert [ds[0]] + ds[1..] == ds;
    } else {
      assert ds + rest == rest;
    }
  }

  /** A JSON number at the front of `s`, read where it is an integer. */
  function ParseNumber(s: string): (r: Result<(int, string), JsonError>)
    ensures r.Ok? ==> |r.value.1| < |s|
  {
    var negative := s != [] && s[0] == '-';
    var t := if negative then s[1..] else s;
    var (ds, rest) := SpanDigits(t);
    if ds == [] || (ds[0] == '0' && |ds| > 1) then Err(SyntaxError)
    else if rest != [] && (rest[0] == '.' || rest[0] == 'e' || rest[0] == 'E') then Err(Unsupported)
    else
      var magnitude: int := DecimalValue(ds);
      Ok((if negative then -magnitude else magnitude, rest))
  }

  /** A number is followed by something that cannot continue it. */
  predicate EndsNumber(rest: string) {
    rest == [] || (!IsDigit(rest[0]) && rest[0] != '.' && rest[0] != 'e' && rest[0] != 'E')
  }

  lemma ParseIntToDecimal(n: int, rest: string)
    requires EndsNumber(rest)
    ensures ParseNumber(IntToDecimal(n) + rest) == Ok((n, rest))
  {
    if n < 0 {
      assert IntToDecimal(n) + rest == "-" + (NatToDecimal(-n) + rest);
      ParseDigitsAfterSign(n, rest);
    } else {
      ParseDigits(n, rest);
    }
  }

  /** The digits of a natural number, then something that ends the number. */
  lemma ParseDigits(m: nat, rest: string)
    requires EndsNumber(rest)
    ensures ParseNumber(NatToDecimal(m) + rest) == Ok((m, rest))
  {
    var digits := NatToDecimal(m);
    var s := digits + rest;
    DecimalRoundTrip(m);
    SpanDigitsOf(digits, rest);
    assert s[0] == digits[0] && s[0] != '-';
  }

  /** A minus sign, the digits of a natural number, then something that ends the number. */
  lemma ParseDigitsAfterSign(n: int, rest: string)
    requires n < 0
    requires EndsNumber(rest)
    ensures ParseNumber("-" + (NatToDecimal(-n) + rest)) == Ok((n, rest))
  {
    var digits := NatToDecimal(-n);
    var s := "-" + (digits + rest);
    assert s[0] == '-' && s[1..] == digits + rest;
    assert SpanDigits(s[1..]) == (digits, rest) by {
      SpanDigitsOf(digits, rest);
    }
    assert DecimalValue(digits) == -n by {
      DecimalRoundTrip(-n);
    }
    assert digits != [] && !(digits[0] == '0' && |digits| > 1);
  }

  // ---------------------------------------------------------------------
  // Whitespace and strings

  predicate IsWhitespace(c: char) {
    c == ' ' || c == '\t' || c == '\n' || c == '\r'
  }

  function SkipWhitespace(s: string): (r: string)
    ensures |r| <= |s| && r == s[|s| - |r|..]
    ensures forall i :: 0 <= i < |s| - |r| ==> IsWhitespace(s[i])
    ensures r == [] || !IsWhitespace(r[0])
  {
    if s != [] && IsWhitespace(s[0]) then SkipWhitespace(s[1..]) else s
  }

  /** A character that may stand for itself inside a JSON string literal. */
  predicate IsPlainStringChar(c: char) {
    c != '"' && c != '\\' && c as int >= 0x20
  }

  /** Text that may stand inside a string literal without escapes. */
  predicate IsPlainString(s: string) {
    forall i :: 0 <= i < |s| ==> IsPlainStringChar(s[i])
  }

  /** The two keys of a token object need no escaping. */
  lemma TokenKeysArePlain()
    ensures IsPlainString("sessionId") && IsPlainString("userId")
  {
  }

  function SpanStringChars(s: string): (r: (string, string))
    ensures r.0 + r.1 == s
    ensures forall i :: 0 <= i < |r.0| ==> IsPlainStringChar(r.0[i])
    ensures r.1 == [] || !IsPlainStringChar(r.1[0])
  {
    if s != [] && IsPlainStringChar(s[0]) then
      var (body, rest) := SpanStringChars(s[1..]);
      assert [s[0]] + (body + rest) == s;
      ([s[0]] + body, rest)
    else
      ([], s)
  }

  /** A string literal at the front of `s`. */
  function ParseString(s: string): (r: Result<(string, string), JsonError>)
    ensures r.Ok? ==> |r.value.1| < |s|
  {
    if s == [] || s[0] != '"' then Err(SyntaxError)
    else
      var (body, rest) := SpanStringChars(s[1..]);
      if rest != [] && rest[0] == '"' then Ok((body, rest[1..]))
      else if rest != [] && rest[0] == '\\' then Err(Unsupported)
      else Err(SyntaxError)
  }

  lemma ParsePlainString(body: string, rest: string)
    requires IsPlainString(body)
    ensures ParseString("\"" + body + "\"" + rest) == Ok((body, rest))
  {
    var s := "\"" + body + "\"" + rest;
    SpanPlain(body, "\"" + rest);
    assert s[1..] == body + ("\"" + rest);
  }

  lemma {:induction false} SpanPlain(body: string, rest: string)
    requires forall i :: 0 <= i < |body| ==> IsPlainStringChar(body[i])
    requires rest == [] || !IsPlainStringChar(rest[0])
    ensures SpanStringChars(body + rest) == (body, rest)
  {
    if body != [] {
      SpanPlain(body[1..], rest);
      assert (body + rest)[1..] == body[1..] + rest;
      assert [body[0]] + body[1..] == body;
    } else {
      assert body + rest == rest;
    }
  }

  // ---------------------------------------------------------------------
  // Values, members and the object

  predicate StartsWith(s: string, prefix: string) {
    |prefix| <= |s| && s[..|prefix|] == prefix
  }

  function ParseValue(s: string): (r: Result<(Scalar, string), JsonError>)
    ensures r.Ok? ==> |r.value.1| < |s|
  {
    if s == [] then Err(SyntaxError)
    else if s[0] == '"' then
      match ParseString(s)
      case Ok((_, rest)) => Ok((NotNumber, rest))
      case Err(e) => Err(e)
    else if s[0] == '{' || s[0] == '[' then Err(Unsupported)
    else if StartsWith(s, "true") then Ok((NotNumber, s[4..]))
    else if StartsWith(s, "false") then Ok((NotNumber, s[5..]))
    else if StartsWith(s, "null") then Ok((NotNumber, s[4..]))
    else
      match ParseNumber(s)
      case Ok((n, rest)) => Ok((Number(n), rest))
      case Err(e) => Err(e)
  }

  /** One member `"key": value` at the front of `s`; the rest starts after the whitespace that follows it. */
  function ParseMember(s: string): (r: Result<((string, Scalar), string), JsonError>)
    ensures r.Ok? ==> |r.value.1| < |s|
  {
    match ParseString(s)
    case Err(e) => Err(e)
    case Ok((key, afterKey)) =>
      var colon := SkipWhitespace(afterKey);
      if colon == [] || colon[0] != ':' then Err(SyntaxError)
      else
        match ParseValue(SkipWhitespace(colon[1..]))
        case Err(e) => Err(e)
        case Ok((value, afterValue)) => Ok(((key, value), SkipWhitespace(afterValue)))
  }

  /** The members of an object after its `{`, up to and including its `}`. */
  function ParseMembers(s: string): (r: Result<(Members, string), JsonError>)
    ensures r.Ok? ==> |r.value.1| < |s|
    decreases |s|
  {
    match ParseMember(s)
    case Err(e) => Err(e)
    case Ok((member, next)) =>
      if next != [] && next[0] == '}' then Ok(([member], next[1..]))
      else if next != [] && next[0] == ',' then
        match ParseMembers(SkipWhitespace(next[1..]))
        case Err(e) => Err(e)
        case Ok((more, rest)) => Ok(([member] + more, rest))
      else Err(SyntaxError)
  }

  /**
   * `JSON.parse` on a text whose top level is an object of scalar members.
   * Text that is empty or only whitespace is a syntax error, and a parsed
   * object has an opening brace.
   */
  function ParseObject(text: string): (r: Result<Members, JsonError>)
    ensures (forall i :: 0 <= i < |text| ==> IsWhitespace(text[i])) ==> r == Err(SyntaxError)
    ensures r.Ok? ==> '{' in text
  {
    var s := SkipWhitespace(text);
    if s == [] then Err(SyntaxError)
    else if s[0] != '{' then
      (if s[0] == '"' || s[0] == '[' || s[0] == '-' || IsDigit(s[0])
          || StartsWith(s, "true") || StartsWith(s, "false") || StartsWith(s, "null")
       then Err(Unsupported) else Err(SyntaxError))
    else
      var body := SkipWhitespace(s[1..]);
      var parsed: Result<(Members, string), JsonError> :=
        if body != [] && body[0] == '}' then Ok(([], body[1..])) else ParseMembers(body);
      match parsed
      case Err(e) => Err(e)
      case Ok((members, rest)) =>
        if SkipWhitespace(rest) == [] then Ok(members) else Err(SyntaxError)
  }

  /** The value of a key as a property read sees it: the last member with that key wins. */
  function Lookup(members: Members, key: string): (r: Option<Scalar>)
    ensures r.None? <==> forall i :: 0 <= i < |members| ==> members[i].0 != key
    ensures r.Some? ==> exists i :: 0 <= i < |members| && members[i] == (key, r.value)
                                    && forall j :: i < j < |members| ==> members[j].0 != key
  {
    if members == [] then None
    else
      var last := members[|members| - 1];
      if last.0 == key then Some(last.1)
      else Lookup(members[..|members| - 1], key)
  }

  /** A numeric property of the parsed object, `None` where reading it gives something other than a number. */
  function NumberProperty(members: Members, key: string): Option<int> {
    match Lookup(members, key)
    case Some(Number(n)) => Some(n)
    case _ => None
  }

  // ---------------------------------------------------------------------
  // The token object

  /** The text of one member `"key":n`, as `JSON.stringify` writes it. */
  function MemberText(key: string, n: int): string {
    "\"" + key + "\":" + IntToDecimal(n)
  }

  predicate IsAscii(s: string) {
    forall i :: 0 <= i < |s| ==> s[i] as int < 0x80
  }

  lemma AsciiConcat(a: string, b: string)
    requires IsAscii(a) && IsAscii(b)
    ensures IsAscii(a + b)
  {
    forall i | 0 <= i < |a + b| ensures (a + b)[i] as int < 0x80 {
      if i >= |a| {
        assert (a + b)[i] == b[i - |a|];
      }
    }
  }

  /** The decimal text of an integer is ASCII. */
  lemma DecimalIsAscii(n: int)
    ensures IsAscii(IntToDecimal(n))
  {
    var ds := IntToDecimal(n);
    if n < 0 {
      var digits := ds[1..];
      assert IsAscii(digits) by {
        assert forall i :: 0 <= i < |digits| ==> IsDigit(digits[i]);
      }
      assert ds == "-" + digits;
      AsciiConcat("-", digits);
    }
  }

  /** An ASCII key gives an ASCII member text. */
  lemma MemberTextIsAscii(key: string, n: int)
    requires IsAscii(key)
    ensures IsAscii(MemberText(key, n))
  {
    DecimalIsAscii(n);
    AsciiConcat("\"", key);
    AsciiConcat("\"" + key, "\":");
    AsciiConcat("\"" + key + "\":", IntToDecimal(n));
  }

  /**
   * `JSON.stringify({sessionId, userId})`: the keys in that order, no
   * whitespace. The text is an object in braces and is pure ASCII.
   */
  function StringifyToken(sessionId: int, userId: int): (text: string)
    ensures |text| >= 2 && text[0] == '{' && text[|text| - 1] == '}'
    ensures IsAscii(text)
  {
    TokenTextIsAscii(sessionId, userId);
    "{" + TokenMembersText(sessionId, userId)
  }

  /** The token object's text is pure ASCII. */
  lemma TokenTextIsAscii(sessionId: int, userId: int)
    ensures IsAscii("{" + TokenMembersText(sessionId, userId))
  {
    MembersTextIsAscii(sessionId, userId);
    AsciiConcat("{", TokenMembersText(sessionId, userId));
  }

  /** The members' text, without the opening brace, is pure ASCII. */
  lemma MembersTextIsAscii(sessionId: int, userId: int)
    ensures IsAscii(TokenMembersText(sessionId, userId))
  {
    var second := MemberText("userId", userId);
    var close := second + "}";
    assert IsAscii(close) by {
      MemberTextIsAscii("userId", userId);
      AsciiConcat(second, "}");
    }
    AsciiConcat(",", close);
    MemberTextIsAscii("sessionId", sessionId);
    AsciiConcat(MemberText("sessionId", sessionId), "," + close);
  }

  /** The token object's text after its opening brace. */
  function TokenMembersText(sessionId: int, userId: int): string {
    MemberText("sessionId", sessionId) + ("," + (MemberText("userId", userId) + "}"))
  }

  /** An integer member value, followed by something that ends the number. */
  lemma ParseIntValue(n: int, rest: string)
    requires EndsNumber(rest)
    ensures ParseValue(IntToDecimal(n) + rest) == Ok((Number(n), rest))
  {
    var s := IntToDecimal(n) + rest;
    ParseIntToDecimal(n, rest);
    assert IsDigit(s[0]) || s[0] == '-';
    DiffersAtStart(s, "true");
    DiffersAtStart(s, "false");
    DiffersAtStart(s, "null");
  }

  /** A text whose first character differs from the prefix's does not start with it. */
  lemma DiffersAtStart(s: string, prefix: string)
    requires s != [] && prefix != [] && s[0] != prefix[0]
    ensures !StartsWith(s, prefix)
  {
    if |prefix| <= |s| {
      assert s[..|prefix|][0] == s[0];
    }
  }

  /** A member as `JSON.stringify` writes it, followed by a separator. */
  lemma ParseIntMember(key: string, n: int, rest: string)
    requires IsPlainString(key)
    requires rest != [] && EndsNumber(rest) && !IsWhitespace(rest[0])
    ensures ParseMember(MemberText(key, n) + rest) == Ok(((key, Number(n)), rest))
  {
    var afterKey := ":" + (IntToDecimal(n) + rest);
    MemberKeyRead(key, n, rest);
    MemberValueRead(n, rest);
    ParseMemberOf(MemberText(key, n) + rest, key, afterKey, Number(n), rest);
    assert SkipWhitespace(rest) == rest;
  }

  /** The key of a written member reads back, leaving the colon and the value. */
  lemma MemberKeyRead(key: string, n: int, rest: string)
    requires IsPlainString(key)
    ensures ParseString(MemberText(key, n) + rest) == Ok((key, ":" + (IntToDecimal(n) + rest)))
  {
    var afterKey := ":" + (IntToDecimal(n) + rest);
    assert MemberText(key, n) + rest == "\"" + key + "\"" + afterKey;
    ParsePlainString(key, afterKey);
  }

  /** After the colon of a written member, its value reads back. */
  lemma MemberValueRead(n: int, rest: string)
    requires EndsNumber(rest)
    ensures var afterKey := ":" + (IntToDecimal(n) + rest);
            ParseValue(SkipWhitespace(afterKey[1..])) == Ok((Number(n), rest))
  {
    var value := IntToDecimal(n) + rest;
    assert (":" + value)[1..] == value;
    SkipNonWhitespace(value);
    ParseIntValue(n, rest);
  }

  /** A member whose key, colon and value have each been read. */
  lemma ParseMemberOf(s: string, key: string, afterKey: string, value: Scalar, rest: string)
    requires ParseString(s) == Ok((key, afterKey))
    requires afterKey != [] && afterKey[0] == ':'
    requires ParseValue(SkipWhitespace(afterKey[1..])) == Ok((value, rest))
    ensures ParseMember(s) == Ok(((key, value), SkipWhitespace(rest)))
  {
    assert !IsWhitespace(afterKey[0]);
    assert SkipWhitespace(afterKey) == afterKey;
  }

  /** The last member of an object, followed by the closing brace and nothing else. */
  lemma ParseLastMember(key: string, n: int)
    requires IsPlainString(key)
    ensures ParseMembers(MemberText(key, n) + "}") == Ok(([(key, Number(n))], []))
  {
    ParseIntMember(key, n, "}");
  }

  /** A member followed by a comma and the remaining members. */
  lemma ParseMemberThenMore(key: string, n: int, more: string, others: Members, rest: string)
    requires IsPlainString(key)
    requires more != [] && !IsWhitespace(more[0])
    requires ParseMembers(more) == Ok((others, rest))
    ensures ParseMembers(MemberText(key, n) + ("," + more)) == Ok(([(key, Number(n))] + others, rest))
  {
    ParseIntMember(key, n, "," + more);
    assert ("," + more)[1..] == more;
  }

  /** Reading the two properties of a parsed token object. */
  lemma TokenProperties(sessionId: int, userId: int)
    ensures NumberProperty([("sessionId", Number(sessionId)), ("userId", Number(userId))], "sessionId") == Some(sessionId)
    ensures NumberProperty([("sessionId", Number(sessionId)), ("userId", Number(userId))], "userId") == Some(userId)
  {
    var members := [("sessionId", Number(sessionId)), ("userId", Number(userId))];
    assert |"userId"| != |"sessionId"|;
    assert members[|members| - 1].0 == "userId";
    assert Lookup(members, "userId") == Some(Number(userId));
    var front := members[..|members| - 1];
    assert front == [("sessionId", Number(sessionId))];
    assert Lookup(front, "sessionId") == Some(Number(sessionId));
    assert Lookup(members, "sessionId") == Lookup(front, "sessionId");
  }

  /** An object whose members fill the text up to its closing brace. */
  lemma ParseObjectOfMembers(body: string, members: Members)
    requires body != [] && body[0] == '"'
    requires ParseMembers(body) == Ok((members, []))
    ensures ParseObject("{" + body) == Ok(members)
  {
    var text := "{" + body;
    assert text[0] == '{' && !IsWhitespace(text[0]);
    assert SkipWhitespace(text) == text;
    assert text[1..] == body;
    assert !IsWhitespace(body[0]);
    assert SkipWhitespace(body) == body;
  }

  lemma ParseTokenMembers(sessionId: int, userId: int)
    ensures TokenMembersText(sessionId, userId)[0] == '"'
    ensures ParseMembers(TokenMembersText(sessionId, userId))
            == Ok(([("sessionId", Number(sessionId)), ("userId", Number(userId))], []))
  {
    var second := MemberText("userId", userId) + "}";
    var last := [("userId", Number(userId))];
    var text := MemberText("sessionId", sessionId) + ("," + second);
    assert TokenMembersText(sessionId, userId) == text;
    assert text[0] == '"';
    assert ParseMembers(text) == Ok(([("sessionId", Number(sessionId))] + last, [])) by {
      TokenKeysArePlain();
      assert ParseMembers(second) == Ok((last, [])) by {
        ParseLastMember("userId", userId);
      }
      assert second != [] && !IsWhitespace(second[0]) by {
        assert second[0] == '"';
      }
      ParseMemberThenMore("sessionId", sessionId, second, last, []);
    }
    assert [("sessionId", Number(sessionId))] + last == [("sessionId", Number(sessionId)), ("userId", Number(userId))];
  }

  /** Parsing the text `JSON.stringify` wrote gives back its two members. */
  lemma ParseStringifiedToken(sessionId: int, userId: int)
    ensures ParseObject(StringifyToken(sessionId, userId))
            == Ok([("sessionId", Number(sessionId)), ("userId", Number(userId))])
  {
    ParseTokenMembers(sessionId, userId);
    ParseObjectOfMembers(TokenMembersText(sessionId, userId),
                         [("sessionId", Number(sessionId)), ("userId", Number(userId))]);
  }

  /** A decimal number starts with a digit or a minus sign, never with whitespace. */
  lemma SkipNonWhitespace(s: string)
    requires s != [] && (IsDigit(s[0]) || s[0] == '-')
    ensures SkipWhitespace(s) == s
  {
  }
}
