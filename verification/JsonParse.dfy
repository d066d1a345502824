/** What cJSON's recursive-descent parser reads, as functions on what is left of the text. */
module JsonParse {
  import opened Wrappers
  import opened Bytes
  import opened JsonValue

  datatype Parsed<T> = Fail | Ok(value: T, rest: Text)

  /** The next byte; the terminating NUL behind the text. */
  function Head(s: Text): byte { if s == [] then 0 else s[0] }

  function Skip(s: Text): (r: Text)
    ensures |r| <= |s|
    ensures Head(r) == 0 || Head(r) > 32
  {
    if Head(s) != 0 && Head(s) <= 32 then Skip(s[1..]) else s
  }

  predicate Starts(s: Text, word: Text) { |word| <= |s| && s[..|word|] == word }

  // ----- numbers -----

  predicate IsDigit(b: byte) { 48 <= b <= 57 }

  function DigitValue(b: byte): int { b as int - 48 }

  /** Reads digits on top of a value and counts them. */
  function ReadDigits(n: int, s: Text): (r: (int, Text))
    ensures |r.1| <= |s| && !IsDigit(Head(r.1))
    ensures IsDigit(Head(s)) ==> |r.1| < |s|
    decreases |s|
  {
    if IsDigit(Head(s)) then ReadDigits(10 * n + DigitValue(s[0]), s[1..]) else (n, s)
  }

  function AfterSign(s: Text): Text { if Head(s) == 45 then s[1..] else s }

  function AfterZero(s: Text): Text { if Head(s) == 48 then s[1..] else s }

  function IntegerPart(s: Text): (r: (int, Text))
    ensures |r.1| <= |s|
  {
    if 49 <= Head(s) <= 57 then ReadDigits(0, s) else (0, s)
  }

  /** A fraction needs a digit behind its point; the scale is minus the number of its digits. */
  function Fraction(n: int, s: Text): (r: (int, int, Text))
    ensures |r.2| <= |s|
  {
    if Head(s) == 46 && IsDigit(Head(s[1..])) then
      var d := ReadDigits(n, s[1..]);
      (d.0, |d.1| - |s[1..]|, d.1)
    else (n, 0, s)
  }

  /** An exponent may have a sign and may have no digits. */
  function Exponent(s: Text): (r: (int, Text))
    ensures |r.1| <= |s|
  {
    if Head(s) == 101 || Head(s) == 69 then
      var t := s[1..];
      if Head(t) == 43 then ReadDigits(0, t[1..])
      else if Head(t) == 45 then var d := ReadDigits(0, t[1..]); (-d.0, d.1)
      else ReadDigits(0, t)
    else (0, s)
  }

  function ParseNumber(s: Text): (r: (Json, Text))
    requires Head(s) == 45 || IsDigit(Head(s))
    ensures |r.1| < |s|
  {
    var a := AfterZero(AfterSign(s));
    var i := IntegerPart(a);
    var f := Fraction(i.0, i.1);
    var e := Exponent(f.2);
    (Number(if Head(s) == 45 then -f.0 else f.0, f.1 + e.0), e.1)
  }

  // ----- strings -----

  /** Where the literal behind an opening quote ends: the offset of its closing quote or NUL. */
  function Scan(s: Text): (r: Option<nat>)
    ensures r.Some? ==> r.value <= |s| && (Head(s[r.value..]) == QUOTE || Head(s[r.value..]) == 0)
  {
    if Head(s) == QUOTE || Head(s) == 0 then Some(0)
    else if s[0] == BACKSLASH then
      if Head(s[1..]) == 0 then None
      else var r := Scan(s[2..]); if r.None? then None else Some(r.value + 2)
    else var r := Scan(s[1..]); if r.None? then None else Some(r.value + 1)
  }

  /** Four hexadecimal digits; zero if one of them is none. */
  function Hex4(s: Text): (u: nat)
    ensures u < 0x10000
  {
    if |s| < 4 then 0
    else
      var a, b, c, d := HexValue(s[0]), HexValue(s[1]), HexValue(s[2]), HexValue(s[3]);
      if a.None? || b.None? || c.None? || d.None? then 0
      else a.value * 4096 + b.value * 256 + c.value * 16 + d.value
  }

  /** UTF-8, section 3 of RFC 3629. */
  function Utf8(c: nat): Text
    requires c < 0x110000
  {
    if c < 0x80 then [c]
    else if c < 0x800 then [0xC0 + c / 64, 0x80 + c % 64]
    else if c < 0x10000 then [0xE0 + c / 4096, 0x80 + c / 64 % 64, 0x80 + c % 64]
    else [0xF0 + c / 262144, 0x80 + c / 4096 % 64, 0x80 + c / 64 % 64, 0x80 + c % 64]
  }

  function SimpleEscape(b: byte): Option<byte> {
    if b == 98 then Some(8)
    else if b == 102 then Some(12)
    else if b == 110 then Some(10)
    else if b == 114 then Some(13)
    else if b == 116 then Some(9)
    else if b == QUOTE || b == BACKSLASH || b == 47 then Some(b)
    else None
  }

  /** The scalar value of a \u escape or a surrogate pair, and the length of its text. */
  function UnicodeEscape(c: Text): (r: Option<(nat, nat)>)
    requires |c| >= 2
    ensures r.Some? ==> 0 < r.value.0 < 0x110000 && 6 <= r.value.1 <= |c|
  {
    var u := Hex4(c[2..]);
    if |c| < 6 then None
    else if 0xDC00 <= u <= 0xDFFF || u == 0 then None
    else if 0xD800 <= u <= 0xDBFF then
      if |c| < 11 then None
      else if c[6] != BACKSLASH || c[7] != 117 then None
      else
        var u2 := Hex4(c[8..]);
        if u2 < 0xDC00 || u2 > 0xDFFF then None
        else Some((0x10000 + u % 0x400 * 0x400 + u2 % 0x400, 12))
    else Some((u, 6))
  }

  /** The bytes that the content of a literal stands for. */
  function Unescape(c: Text): Option<Text>
    decreases |c|
  {
    if c == [] then Some([])
    else if c[0] != BACKSLASH then
      var r := Unescape(c[1..]);
      if r.None? then None else Some([c[0]] + r.value)
    else if |c| < 2 then None
    else if c[1] == 117 then
      var u := UnicodeEscape(c);
      if u.None? then None
      else
        var r := Unescape(c[u.value.1..]);
        if r.None? then None else Some(Utf8(u.value.0) + r.value)
    else
      var e := SimpleEscape(c[1]);
      if e.None? then None
      else
        var r := Unescape(c[2..]);
        if r.None? then None else Some([e.value] + r.value)
  }

  /** Puts bytes in front of a decoded text. */
  function Prepend(head: Text, r: Option<Text>): Option<Text> { if r.None? then None else Some(head + r.value) }

  /** A literal may also end with the text. */
  function ParseString(s: Text): (r: Parsed<Text>)
    ensures r.Ok? ==> |r.rest| < |s|
  {
    if Head(s) != QUOTE then Fail
    else
      var n := Scan(s[1..]);
      if n.None? then Fail
      else
        var u := Unescape(s[1..][..n.value]);
        var rest := s[1..][n.value..];
        if u.None? then Fail
        else Ok(u.value, if Head(rest) == QUOTE then rest[1..] else rest)
  }

  // ----- values -----

  function ParseValue(s: Text): (r: Parsed<Json>)
    ensures r.Ok? ==> |r.rest| < |s|
    decreases |s|, 0
  {
    if Starts(s, NULL_TEXT) then Ok(Null, s[4..])
    else if Starts(s, FALSE_TEXT) then Ok(False, s[5..])
    else if Starts(s, TRUE_TEXT) then Ok(True, s[4..])
    else if Head(s) == QUOTE then
      var r := ParseString(s);
      if r.Fail? then Fail else Ok(String(r.value), r.rest)
    else if Head(s) == 45 || IsDigit(Head(s)) then
      var r := ParseNumber(s);
      Ok(r.0, r.1)
    else if Head(s) == OPEN_ARRAY then
      var t := Skip(s[1..]);
      if Head(t) == CLOSE_ARRAY then Ok(Array([]), t[1..])
      else
        var r := ParseItems(t);
        if r.Fail? then Fail else Ok(Array(r.value), r.rest)
    else if Head(s) == OPEN_OBJECT then
      var t := Skip(s[1..]);
      if Head(t) == CLOSE_OBJECT then Ok(Object([]), t[1..])
      else
        var r := ParseMembers(t);
        if r.Fail? then Fail else Ok(Object(r.value), r.rest)
    else Fail
  }

  /** The elements of an array up to and including its closing bracket. */
  function ParseItems(s: Text): (r: Parsed<seq<Json>>)
    ensures r.Ok? ==> |r.rest| < |s| && r.value != []
    decreases |s|, 1
  {
    var v := ParseValue(Skip(s));
    if v.Fail? then Fail
    else
      var t := Skip(v.rest);
      if Head(t) == COMMA then
        var more := ParseItems(t[1..]);
        if more.Fail? then Fail else Ok([v.value] + more.value, more.rest)
      else if Head(t) == CLOSE_ARRAY then Ok([v.value], t[1..])
      else Fail
  }

  /** A key, a colon and a value. */
  function ParseMember(s: Text): (r: Parsed<Member>)
    ensures r.Ok? ==> |r.rest| < |s|
    decreases |s|, 1
  {
    var k := ParseString(Skip(s));
    if k.Fail? then Fail
    else
      var t := Skip(k.rest);
      if Head(t) != COLON then Fail
      else
        var v := ParseValue(Skip(t[1..]));
        if v.Fail? then Fail else Ok(Member(k.value, v.value), v.rest)
  }

  /** The members of an object up to and including its closing brace. */
  function ParseMembers(s: Text): (r: Parsed<seq<Member>>)
    ensures r.Ok? ==> |r.rest| < |s| && r.value != []
    decreases |s|, 2
  {
    var m := ParseMember(s);
    if m.Fail? then Fail
    else
      var t := Skip(m.rest);
      if Head(t) == COMMA then
        var more := ParseMembers(t[1..]);
        if more.Fail? then Fail else Ok([m.value] + more.value, more.rest)
      else if Head(t) == CLOSE_OBJECT then Ok([m.value], t[1..])
      else Fail
  }

  /** cJSON_ParseWithOpts: leading space is skipped; optionally nothing may follow the value. */
  function ParseDocument(s: Text, requireEnd: bool): Parsed<Json> {
    var r := ParseValue(Skip(s));
    if r.Fail? then Fail
    else if requireEnd then
      if Head(Skip(r.rest)) != 0 then Fail else Ok(r.value, Skip(r.rest))
    else r
  }
}
