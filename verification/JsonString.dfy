/** String literals: UTF-16 escapes become UTF-8, and the output fits the space counted for it. */
module JsonString {
  import opened Wrappers
  import opened Bytes
  import opened JsonValue
  import opened JsonParse

  // ----- UTF-8 and UTF-16 as their standards define them -----

  /** Unicode scalar values: code points that are no surrogates. */
  predicate Scalar(c: nat) { c < 0xD800 || 0xE000 <= c < 0x110000 }

  predicate Tail(b: byte) { 0x80 <= b <= 0xBF }

  function Low6(b: byte): int { b as int - 0x80 }

  function Lead(b: byte, mark: int): int { b as int - mark }

  /** The first character of a UTF-8 text, by the syntax in section 4 of RFC 3629, and its length. */
  function Utf8Decode(s: Text): Option<(int, nat)> {
    if s == [] then None
    else if s[0] <= 0x7F then Some((s[0] as int, 1 as nat))
    else if 0xC2 <= s[0] <= 0xDF && |s| >= 2 && Tail(s[1]) then
      Some((Lead(s[0], 0xC0) * 64 + Low6(s[1]), 2 as nat))
    else if 0xE0 <= s[0] <= 0xEF && |s| >= 3 && Tail(s[1]) && Tail(s[2])
            && (s[0] == 0xE0 ==> s[1] >= 0xA0) && (s[0] == 0xED ==> s[1] <= 0x9F) then
      Some((Lead(s[0], 0xE0) * 4096 + Low6(s[1]) * 64 + Low6(s[2]), 3 as nat))
    else if 0xF0 <= s[0] <= 0xF4 && |s| >= 4 && Tail(s[1]) && Tail(s[2]) && Tail(s[3])
            && (s[0] == 0xF0 ==> s[1] >= 0x90) && (s[0] == 0xF4 ==> s[1] <= 0x8F) then
      Some((Lead(s[0], 0xF0) * 262144 + Low6(s[1]) * 4096 + Low6(s[2]) * 64 + Low6(s[3]), 4 as nat))
    else None
  }

  /** The six-bit digits of a code point. */
  lemma SixBits(c: nat)
    requires c < 0x110000
    ensures c == c / 64 * 64 + c % 64 && c / 64 == c / 4096 * 64 + c / 64 % 64
    ensures c / 4096 == c / 262144 * 64 + c / 4096 % 64 && c / 262144 <= 4
  {}

  lemma Digits2(a: nat, b: nat)
    requires b < 64
    ensures (a * 64 + b) / 64 == a && (a * 64 + b) % 64 == b
  {}

  lemma Decode2(s: Text, a: nat, b: nat)
    requires |s| >= 2 && 2 <= a < 32 && b < 64 && s[0] == 0xC0 + a && s[1] == 0x80 + b
    ensures Utf8Decode(s) == Some((a * 64 + b, 2 as nat))
  {}

  lemma Decode3(s: Text, a: nat, b: nat, c: nat)
    requires |s| >= 3 && a < 16 && b < 64 && c < 64 && s[0] == 0xE0 + a && s[1] == 0x80 + b && s[2] == 0x80 + c
    requires (a == 0 ==> b >= 32) && (a == 13 ==> b < 32)
    ensures Utf8Decode(s) == Some((a * 4096 + b * 64 + c, 3 as nat))
  {}

  lemma Decode4(s: Text, a: nat, b: nat, c: nat, d: nat)
    requires |s| >= 4 && a <= 4 && b < 64 && c < 64 && d < 64
    requires s[0] == 0xF0 + a && s[1] == 0x80 + b && s[2] == 0x80 + c && s[3] == 0x80 + d
    requires (a == 0 ==> b >= 16) && (a == 4 ==> b < 16)
    ensures Utf8Decode(s) == Some((a * 262144 + b * 4096 + c * 64 + d, 4 as nat))
  {}

  /** The bytes given for a scalar value are read back as that value. */
  lemma Utf8IsDecoded(c: nat, rest: Text)
    requires Scalar(c)
    ensures Utf8Decode(Utf8(c) + rest) == Some((c as int, |Utf8(c)|))
  {
    SixBits(c);
    var s := Utf8(c) + rest;
    assert forall i :: 0 <= i < |Utf8(c)| ==> s[i] == Utf8(c)[i];
    if c >= 0x80 {
      hide Utf8Decode;
      if c < 0x800 {
        Decode2(s, c / 64, c % 64);
      } else if c < 0x10000 {
        Decode3(s, c / 4096, c / 64 % 64, c % 64);
      } else {
        Decode4(s, c / 262144, c / 4096 % 64, c / 64 % 64, c % 64);
      }
    }
  }

  lemma Unique2(s: Text)
    requires Utf8Decode(s).Some? && Utf8Decode(s).value.1 == 2
    ensures var (c, n) := Utf8Decode(s).value;
            c >= 0 && Scalar(c) && n <= |s| && Utf8(c) == s[..n]
  {
    Digits2(s[0] - 0xC0, s[1] - 0x80);
  }

  lemma Unique3(s: Text)
    requires Utf8Decode(s).Some? && Utf8Decode(s).value.1 == 3
    ensures var (c, n) := Utf8Decode(s).value;
            c >= 0 && Scalar(c) && n <= |s| && Utf8(c) == s[..n]
  {
    var a: nat, b: nat, d: nat := s[0] - 0xE0, s[1] - 0x80, s[2] - 0x80;
    Digits2(a * 64 + b, d);
    Digits2(a, b);
  }

  lemma Unique4(s: Text)
    requires Utf8Decode(s).Some? && Utf8Decode(s).value.1 == 4
    ensures var (c, n) := Utf8Decode(s).value;
            c >= 0 && Scalar(c) && n <= |s| && Utf8(c) == s[..n]
  {
    var a: nat, b: nat, d: nat, e: nat := s[0] - 0xF0, s[1] - 0x80, s[2] - 0x80, s[3] - 0x80;
    Digits2(a * 4096 + b * 64 + d, e);
    Digits2(a * 64 + b, d);
    Digits2(a, b);
  }

  /** They are its only form: whatever reads as a character is the encoding of a scalar value. */
  lemma Utf8IsUnique(s: Text)
    requires Utf8Decode(s).Some?
    ensures var (c, n) := Utf8Decode(s).value;
            c >= 0 && Scalar(c) && n <= |s| && Utf8(c) == s[..n]
  {
    var n := Utf8Decode(s).value.1;
    if n == 2 {
      Unique2(s);
    } else if n == 3 {
      Unique3(s);
    } else if n == 4 {
      Unique4(s);
    }
  }

  /** UTF-16, section 2.1 of RFC 2781. */
  function Utf16(c: nat): (u: seq<nat>)
    requires c < 0x110000
    ensures 1 <= |u| <= 2
  {
    if c < 0x10000 then [c] else [0xD800 + (c - 0x10000) / 0x400, 0xDC00 + (c - 0x10000) % 0x400]
  }

  /** Four hexadecimal digits with the given value. */
  predicate HexText(s: Text, u: nat) {
    |s| >= 4
    && HexValue(s[0]).Some? && HexValue(s[1]).Some? && HexValue(s[2]).Some? && HexValue(s[3]).Some?
    && u == HexValue(s[0]).value * 4096 + HexValue(s[1]).value * 256 + HexValue(s[2]).value * 16 + HexValue(s[3]).value
  }

  /** The text starts with \u escapes of the units. */
  predicate Escapes(c: Text, units: seq<nat>)
    decreases |units|
  {
    units == [] ||
    (|c| >= 6 && c[0] == BACKSLASH && c[1] == 117 && HexText(c[2..], units[0]) && Escapes(c[6..], units[1..]))
  }

  lemma HexIsText(s: Text, u: nat)
    requires u != 0
    ensures Hex4(s) == u <==> HexText(s, u)
  {}

  lemma EscapesOne(c: Text, u: nat)
    ensures Escapes(c, [u]) <==> |c| >= 6 && c[0] == BACKSLASH && c[1] == 117 && HexText(c[2..], u)
  {
    assert [u][1..] == [];
  }

  lemma EscapesTwo(c: Text, u: nat, v: nat)
    ensures Escapes(c, [u, v])
       <==> |c| >= 6 && c[0] == BACKSLASH && c[1] == 117 && HexText(c[2..], u) && Escapes(c[6..], [v])
  {
    assert [u, v][1..] == [v];
  }

  /**
   A \u escape or a pair of them is accepted exactly if it spells the UTF-16 form of
   a scalar value other than zero, and then it gives that value; lone and
   mismatched surrogates, bad digits and \u0000 are refused.
   */
  lemma EscapeIsUtf16(c: Text, u: nat, n: nat)
    requires |c| >= 2 && c[0] == BACKSLASH && c[1] == 117 && u < 0x110000
    ensures UnicodeEscape(c) == Some((u, n)) <==>
              u != 0 && Scalar(u) && Escapes(c, Utf16(u)) && n == 6 * |Utf16(u)|
  {
    hide HexText, Hex4;
    var h := Hex4(c[2..]);
    if u != 0 {
      HexIsText(c[2..], u);
    }
    EscapesOne(c, u);
    if u >= 0x10000 {
      var hi, lo := Utf16(u)[0], Utf16(u)[1];
      EscapesTwo(c, hi, lo);
      HexIsText(c[2..], hi);
      if |c| >= 6 {
        EscapesOne(c[6..], lo);
        if |c| >= 8 {
          assert c[6..][2..] == c[8..];
          HexIsText(c[8..], lo);
        }
      }
    }
  }

  // ----- reading a literal from a NUL-terminated text -----

  /** A byte of the text or its terminator; nothing behind that is ever read. */
  function At(s: Text, i: nat): (b: byte)
    requires i <= |s|
    ensures b == Head(s[i..])
  {
    if i < |s| then s[i] else 0
  }

  /** The space counted for the content of a literal: one byte for each character or escape pair. */
  function Space(c: Text): nat
    decreases |c|
  {
    if c == [] then 0
    else if c[0] == BACKSLASH && |c| >= 2 then 1 + Space(c[2..])
    else 1 + Space(c[1..])
  }

  function Shifted(r: Option<nat>, k: nat): Option<nat> { if r.None? then None else Some(r.value + k) }

  /** The scan has come to i and counted len characters. */
  ghost predicate Scanned(s: Text, p: nat, i: nat, len: nat) {
    && p <= i <= |s|
    && Scan(s[p..]) == Shifted(Scan(s[i..]), i - p)
    && (Scan(s[i..]).Some? ==> var e := i + Scan(s[i..]).value; e <= |s| && Space(s[p..e]) == len + Space(s[i..e]))
  }

  lemma ScanPlainByte(s: Text, p: nat, i: nat, len: nat)
    requires Scanned(s, p, i, len) && i < |s| && s[i] != QUOTE && s[i] != 0 && s[i] != BACKSLASH
    ensures Scanned(s, p, i + 1, len + 1)
  {
    hide Scan, Space;
    var t := s[i..];
    ScanOfPlain(t);
    assert t[1..] == s[i + 1..];
    if Scan(t).Some? {
      var e := i + Scan(t).value;
      SpaceOfPlain(s[i..e]);
      assert s[i..e][1..] == s[i + 1..e];
    }
  }

  lemma ScanOfPlain(t: Text)
    requires t != [] && t[0] != QUOTE && t[0] != 0 && t[0] != BACKSLASH
    ensures Scan(t) == Shifted(Scan(t[1..]), 1)
  {}

  lemma SpaceOfPlain(c: Text)
    requires c != [] && c[0] != BACKSLASH
    ensures Space(c) == 1 + Space(c[1..])
  {}

  lemma ScanEscapedPair(s: Text, p: nat, i: nat, len: nat)
    requires Scanned(s, p, i, len) && i + 1 < |s| && s[i] == BACKSLASH && s[i + 1] != 0
    ensures Scanned(s, p, i + 2, len + 1)
  {
    hide Scan, Space;
    var t := s[i..];
    ScanOfPair(t);
    assert t[2..] == s[i + 2..];
    if Scan(t).Some? {
      var e := i + Scan(t).value;
      SpaceOfPair(s[i..e]);
      assert s[i..e][2..] == s[i + 2..e];
    }
  }

  lemma SpaceOfPair(c: Text)
    requires |c| >= 2 && c[0] == BACKSLASH
    ensures Space(c) == 1 + Space(c[2..])
  {}

  lemma ScanOfPair(t: Text)
    requires |t| >= 2 && t[0] == BACKSLASH && t[1] != 0
    ensures Scan(t) == Shifted(Scan(t[2..]), 2)
  {
    assert t[1..][0] == t[1];
  }

  lemma ScanBrokenPair(s: Text, p: nat, i: nat, len: nat)
    requires Scanned(s, p, i, len) && i < |s| && s[i] == BACKSLASH && Head(s[i + 1..]) == 0
    ensures Scan(s[p..]).None?
  {
    assert s[i..][1..] == s[i + 1..];
  }

  lemma ScanDone(s: Text, p: nat, i: nat, len: nat)
    requires Scanned(s, p, i, len) && (Head(s[i..]) == QUOTE || Head(s[i..]) == 0)
    ensures Scan(s[p..]) == Some(i - p) && Space(s[p..i]) == len
  {
    assert s[i..i] == [];
  }

  /** First loop of parse_string: finds the end of the literal and counts its characters. */
  method ScanLiteral(s: Text, p: nat) returns (ok: bool, end: nat, len: nat)
    requires p <= |s| && 0 !in s
    ensures ok <==> Scan(s[p..]).Some?
    ensures ok ==> p <= end <= |s| && end == p + Scan(s[p..]).value && len == Space(s[p..end])
  {
    end, len := p, 0;
    while At(s, end) != QUOTE && At(s, end) != 0
      invariant Scanned(s, p, end, len)
      decreases |s| - end
    {
      hide Scanned, Scan, Space;
      if At(s, end) == BACKSLASH {
        if At(s, end + 1) == 0 {
          ScanBrokenPair(s, p, end, len);
          return false, end, len;
        }
        ScanEscapedPair(s, p, end, len);
        end := end + 2;
      } else {
        ScanPlainByte(s, p, end, len);
        end := end + 1;
      }
      len := len + 1;
    }
    ScanDone(s, p, end, len);
    return true, end, len;
  }

  /** Reads four hexadecimal digits and stops at the first byte that is none. */
  method ParseHex4(s: Text, p: nat) returns (h: nat)
    requires p <= |s| && 0 !in s
    ensures h == Hex4(s[p..])
  {
    var t := s[p..];
    assert forall k :: 0 <= k < |t| ==> t[k] == s[p + k];
    var v := HexValue(At(s, p));
    if v.None? { return 0; }
    h := v.value * 16;
    v := HexValue(At(s, p + 1));
    if v.None? { return 0; }
    h := (h + v.value) * 16;
    v := HexValue(At(s, p + 2));
    if v.None? { return 0; }
    h := (h + v.value) * 16;
    v := HexValue(At(s, p + 3));
    if v.None? { return 0; }
    h := h + v.value;
  }

  /** A literal's content ends before a quote or the terminator. */
  predicate EndsContent(s: Text, end: nat) { end <= |s| && (Head(s[end..]) == QUOTE || Head(s[end..]) == 0) }

  /** Digits are never read across the end of the literal: its end is no digit. */
  lemma HexWithin(s: Text, i: nat, end: nat)
    requires i <= end && EndsContent(s, end)
    ensures Hex4(s[i..]) == Hex4(s[i..end])
  {
    var t, c := s[i..], s[i..end];
    assert forall k :: 0 <= k < |c| ==> t[k] == c[k];
    if |c| < 4 {
      assert end < |s| ==> t[|c|] == s[end] && HexValue(s[end]).None?;
    }
  }

  /** The \u branch: one escape, or a pair for a character beyond the basic plane. */
  method DecodeUnicode(s: Text, p: nat, end: nat) returns (ok: bool, uc: nat, next: nat)
    requires p + 1 < end && EndsContent(s, end) && 0 !in s && s[p] == BACKSLASH && s[p + 1] == 117
    ensures ok <==> UnicodeEscape(s[p..end]).Some?
    ensures ok ==> UnicodeEscape(s[p..end]) == Some((uc, next - p)) && p + 6 <= next <= end
  {
    ghost var c := s[p..end];
    hide Hex4;
    assert c[2..] == s[p + 2..end];
    HexWithin(s, p + 2, end);
    uc := ParseHex4(s, p + 2);
    var ptr := p + 5;
    next := 0;
    if ptr >= end {
      return false, uc, next;
    }
    if 0xDC00 <= uc <= 0xDFFF || uc == 0 {
      return false, uc, next;
    }
    if 0xD800 <= uc <= 0xDBFF {
      if ptr + 6 > end {
        return false, uc, next;
      }
      assert c[6] == s[p + 6] && c[7] == s[p + 7] && c[8..] == s[p + 8..end];
      if At(s, ptr + 1) != BACKSLASH || At(s, ptr + 2) != 117 {
        return false, uc, next;
      }
      HexWithin(s, p + 8, end);
      var uc2 := ParseHex4(s, ptr + 3);
      ptr := ptr + 6;
      if uc2 < 0xDC00 || uc2 > 0xDFFF {
        return false, uc, next;
      }
      uc := 0x10000 + (uc % 0x400 * 0x400 + uc2 % 0x400);
    }
    return true, uc, ptr + 1;
  }

  /** Stores the UTF-8 form of a code point, last byte first. */
  method WriteUtf8(out: array<byte>, at: nat, c: nat) returns (len: nat)
    requires 0 < c < 0x110000 && at + |Utf8(c)| <= out.Length
    modifies out
    ensures len == |Utf8(c)| && out[at..at + len] == Utf8(c)
    ensures forall i :: 0 <= i < out.Length && !(at <= i < at + len) ==> out[i] == old(out[i])
  {
    Shifts(c);
    len := if c < 0x80 then 1 else if c < 0x800 then 2 else if c < 0x10000 then 3 else 4;
    var mark := if len == 1 then 0 else if len == 2 then 0xC0 else if len == 3 then 0xE0 else 0xF0;
    var uc := c;
    if len >= 4 {
      out[at + 3] := 0x80 + uc % 64;
      uc := uc / 64;
    }
    if len >= 3 {
      out[at + 2] := 0x80 + uc % 64;
      uc := uc / 64;
    }
    if len >= 2 {
      out[at + 1] := 0x80 + uc % 64;
      uc := uc / 64;
    }
    out[at] := mark + uc;
    assert forall i :: 0 <= i < len ==> out[at + i] == Utf8(c)[i];
  }

  lemma Shifts(c: nat)
    requires c < 0x110000
    ensures c / 64 / 64 == c / 4096 && c / 64 / 64 / 64 == c / 262144
    ensures c < 0x800 ==> c / 64 < 32
    ensures c < 0x10000 ==> c / 4096 < 16
    ensures c / 262144 <= 4
  {}

  // ----- the second loop: decoding into the allocated space -----

  /** Every backslash has the byte it escapes. */
  predicate Paired(c: Text)
    decreases |c|
  {
    c == [] || (if c[0] == BACKSLASH then |c| >= 2 && Paired(c[2..]) else Paired(c[1..]))
  }

  lemma {:induction false} ScanPairs(t: Text)
    requires Scan(t).Some?
    ensures Scan(t).value <= |t| && Paired(t[..Scan(t).value])
    decreases |t|
  {
    if Head(t) == QUOTE || Head(t) == 0 {
    } else if t[0] == BACKSLASH {
      ScanPairs(t[2..]);
      assert t[..Scan(t).value][2..] == t[2..][..Scan(t[2..]).value];
    } else {
      ScanPairs(t[1..]);
      assert t[..Scan(t).value][1..] == t[1..][..Scan(t[1..]).value];
    }
  }

  lemma PlainStep(c: Text, b: byte)
    requires c != [] && c[0] == b && b != BACKSLASH && Paired(c)
    ensures Paired(c[1..]) && Space(c) == 1 + Space(c[1..]) && Unescape(c) == Prepend([b], Unescape(c[1..]))
  {}

  lemma SimpleStep(c: Text)
    requires |c| >= 2 && c[0] == BACKSLASH && c[1] != 117 && Paired(c)
    ensures Paired(c[2..]) && Space(c) == 1 + Space(c[2..])
    ensures var e := SimpleEscape(c[1]);
            Unescape(c) == if e.None? then None else Prepend([e.value], Unescape(c[2..]))
  {}

  /** Four plain bytes in a row. */
  lemma FourPlain(c: Text)
    requires |c| >= 4 && Paired(c) && forall i :: 0 <= i < 4 ==> c[i] != BACKSLASH
    ensures Paired(c[4..]) && Space(c) == 4 + Space(c[4..])
  {
    var a := c[1..];
    var b := a[1..];
    var d := b[1..];
    PlainStep(c, c[0]);
    PlainStep(a, c[1]);
    PlainStep(b, c[2]);
    PlainStep(d, c[3]);
    assert d[1..] == c[4..];
  }

  lemma SixBytes(c: Text)
    requires |c| >= 6 && c[0] == BACKSLASH && Paired(c) && Hex4(c[2..]) != 0
    ensures Paired(c[6..]) && Space(c) == 5 + Space(c[6..])
  {
    FourPlain(c[2..]);
    assert c[2..][4..] == c[6..];
  }

  lemma UnicodeStep(c: Text)
    requires |c| >= 2 && c[0] == BACKSLASH && c[1] == 117 && Paired(c)
    ensures UnicodeEscape(c).None? ==> Unescape(c).None?
    ensures UnicodeEscape(c).Some? ==>
              var (u, n) := UnicodeEscape(c).value;
              && Paired(c[n..]) && Space(c) >= |Utf8(u)| + Space(c[n..])
              && Unescape(c) == Prepend(Utf8(u), Unescape(c[n..]))
  {
    if UnicodeEscape(c).Some? {
      SixBytes(c);
      if UnicodeEscape(c).value.1 == 12 {
        assert c[6..][0] == BACKSLASH && c[6..][2..] == c[8..];
        SixBytes(c[6..]);
        assert c[6..][6..] == c[12..];
      }
    }
  }

  /** The content from p on decodes to what is stored, followed by what is left from ptr on. */
  ghost predicate Decoding(c: Text, k: nat, stored: Text, len: nat) {
    && k <= |c| && Paired(c[k..]) && |stored| + Space(c[k..]) <= len
    && Unescape(c) == Prepend(stored, Unescape(c[k..]))
  }

  lemma DecodingStarts(c: Text)
    requires Paired(c)
    ensures Decoding(c, 0, [], Space(c))
  {
    assert c[0..] == c;
    if Unescape(c).Some? {
      assert [] + Unescape(c).value == Unescape(c).value;
    }
  }

  lemma DecodingEnds(c: Text, stored: Text, len: nat)
    requires Decoding(c, |c|, stored, len)
    ensures Unescape(c) == Some(stored) && |stored| <= len
  {
    assert c[|c|..] == [] && stored + [] == stored;
  }

  lemma DecodingGoesOn(c: Text, k: nat, k': nat, stored: Text, more: Text, len: nat)
    requires Decoding(c, k, stored, len) && k <= k' <= |c|
    requires Paired(c[k'..]) && Space(c[k..]) >= |more| + Space(c[k'..])
    requires Unescape(c[k..]) == Prepend(more, Unescape(c[k'..]))
    ensures Decoding(c, k', stored + more, len)
  {
    hide Unescape, Paired, Space;
    PrependTwice(stored, more, Unescape(c[k'..]));
  }

  lemma PrependTwice(a: Text, b: Text, r: Option<Text>)
    ensures Prepend(a, Prepend(b, r)) == Prepend(a + b, r)
  {
    if r.Some? {
      assert a + (b + r.value) == a + b + r.value;
    }
  }

  lemma DecodingFails(c: Text, k: nat, stored: Text, len: nat)
    requires Decoding(c, k, stored, len) && Unescape(c[k..]).None?
    ensures Unescape(c).None?
  {}

  /** A plain byte or a simple escape takes one byte. */
  lemma OneByteStep(c: Text, k: nat, stored: Text, len: nat)
    requires Decoding(c, k, stored, len) && k < |c|
    requires !(c[k] == BACKSLASH && k + 1 < |c| && c[k + 1] == 117)
    ensures |stored| < len && (c[k] == BACKSLASH ==> k + 1 < |c|)
    ensures c[k] != BACKSLASH ==> Decoding(c, k + 1, stored + [c[k]], len)
    ensures c[k] == BACKSLASH ==>
              var e := SimpleEscape(c[k + 1]);
              if e.None? then Unescape(c).None? else Decoding(c, k + 2, stored + [e.value], len)
  {
    var t := c[k..];
    assert t[0] == c[k] && t[1..] == c[k + 1..];
    if c[k] != BACKSLASH {
      PlainStep(t, c[k]);
      DecodingGoesOn(c, k, k + 1, stored, [c[k]], len);
    } else {
      assert t[1] == c[k + 1] && t[2..] == c[k + 2..];
      SimpleStep(t);
      var e := SimpleEscape(c[k + 1]);
      if e.None? {
        DecodingFails(c, k, stored, len);
      } else {
        DecodingGoesOn(c, k, k + 2, stored, [e.value], len);
      }
    }
  }

  lemma WideStep(c: Text, k: nat, stored: Text, len: nat)
    requires Decoding(c, k, stored, len) && k + 1 < |c| && c[k] == BACKSLASH && c[k + 1] == 117
    ensures UnicodeEscape(c[k..]).None? ==> Unescape(c).None?
    ensures UnicodeEscape(c[k..]).Some? ==>
              var (u, n) := UnicodeEscape(c[k..]).value;
              |stored| + |Utf8(u)| <= len && k + n <= |c| && Decoding(c, k + n, stored + Utf8(u), len)
  {
    hide UnicodeEscape, Utf8, Unescape, Paired, Space;
    var t := c[k..];
    UnicodeStep(t);
    if UnicodeEscape(t).None? {
      DecodingFails(c, k, stored, len);
    } else {
      var (u, n) := UnicodeEscape(t).value;
      assert t[n..] == c[k + n..];
      hide Prepend;
      DecodingGoesOn(c, k, k + n, stored, Utf8(u), len);
    }
  }

  /** One character or escape of the content. */
  method DecodeOne(s: Text, p: nat, end: nat, out: array<byte>, ptr: nat, n: nat) returns (ok: bool, ptr': nat, n': nat)
    requires p <= ptr < end && EndsContent(s, end) && 0 !in s && n < out.Length
    requires Decoding(s[p..end], ptr - p, out[..n], out.Length - 1)
    modifies out
    ensures !ok ==> Unescape(s[p..end]).None?
    ensures ok ==> ptr < ptr' <= end && n' < out.Length && Decoding(s[p..end], ptr' - p, out[..n'], out.Length - 1)
  {
    hide Decoding, UnicodeEscape, Utf8, Unescape, SimpleEscape, Space;
    ghost var c, k, stored := s[p..end], ptr - p, out[..n];
    assert c[k] == s[ptr] && (ptr + 1 < end ==> c[k + 1] == s[ptr + 1]) && s[ptr..end] == c[k..];
    ok, ptr', n' := true, ptr, n;
    if ptr + 1 < end && s[ptr] == BACKSLASH && s[ptr + 1] == 117 {
      WideStep(c, k, stored, out.Length - 1);
      var uc;
      ok, uc, ptr' := DecodeUnicode(s, ptr, end);
      if ok {
        var len := WriteUtf8(out, n, uc);
        n' := n + len;
        assert out[..n'] == stored + Utf8(uc);
      }
    } else {
      OneByteStep(c, k, stored, out.Length - 1);
      ok, ptr', n' := DecodeByte(s, ptr, end, out, n);
    }
  }

  method DecodeByte(s: Text, ptr: nat, end: nat, out: array<byte>, n: nat) returns (ok: bool, ptr': nat, n': nat)
    requires ptr < end <= |s| && n + 1 < out.Length && (s[ptr] == BACKSLASH ==> ptr + 1 < end)
    modifies out
    ensures s[ptr] != BACKSLASH ==> ok && ptr' == ptr + 1 && n' == n + 1 && out[..n'] == old(out[..n]) + [s[ptr]]
    ensures s[ptr] == BACKSLASH ==>
              var e := SimpleEscape(s[ptr + 1]);
              && (ok <==> e.Some?)
              && (ok ==> ptr' == ptr + 2 && n' == n + 1 && out[..n'] == old(out[..n]) + [e.value])
  {
    var b := At(s, ptr);
    ok, ptr', n' := true, ptr + 1, n;
    if b == BACKSLASH {
      var e := SimpleEscape(At(s, ptr'));
      if e.None? {
        return false, ptr', n;
      }
      b := e.value;
      ptr' := ptr' + 1;
    }
    out[n] := b;
    n' := n + 1;
  }

  /** Second loop of parse_string: decodes the content into the allocated space, never beyond it. */
  method DecodeContent(s: Text, p: nat, end: nat, out: array<byte>) returns (ok: bool, n: nat)
    requires p <= end && EndsContent(s, end) && 0 !in s && Paired(s[p..end])
    requires out.Length == Space(s[p..end]) + 1
    modifies out
    ensures ok <==> Unescape(s[p..end]).Some?
    ensures ok ==> n < out.Length && out[..n] == Unescape(s[p..end]).value
  {
    hide Decoding, Unescape, Space, Paired;
    var ptr := p;
    n, ok := 0, true;
    DecodingStarts(s[p..end]);
    assert out[..0] == [];
    while ptr < end
      invariant p <= ptr <= end && n < out.Length
      invariant Decoding(s[p..end], ptr - p, out[..n], out.Length - 1)
      decreases end - ptr
    {
      ok, ptr, n := DecodeOne(s, p, end, out, ptr, n);
      if !ok {
        return;
      }
    }
    DecodingEnds(s[p..end], out[..n], out.Length - 1);
  }

  /** How the parts of a literal make up what it reads as. */
  lemma LiteralAt(s: Text, start: nat, end: nat)
    requires start < end <= |s| && s[start] == QUOTE && Scan(s[start + 1..]) == Some((end - start - 1) as nat)
    ensures var u := Unescape(s[start + 1..end]);
            ParseString(s[start..]) ==
            if u.None? then Fail
            else Ok(u.value, if end < |s| && s[end] == QUOTE then s[end + 1..] else s[end..])
  {
    hide Unescape, Scan;
    var p := start + 1;
    assert s[start..][1..] == s[p..];
    assert s[p..][..end - p] == s[p..end] && s[p..][end - p..] == s[end..];
    assert end < |s| ==> s[end..][1..] == s[end + 1..];
  }

  lemma NoLiteralAt(s: Text, start: nat)
    requires start <= |s|
    ensures start == |s| || s[start] != QUOTE || Scan(s[start + 1..]).None? ==> ParseString(s[start..]).Fail?
  {
    if start < |s| {
      assert s[start..][1..] == s[start + 1..];
    }
  }

  /** Decodes the content of a literal into a new block of exactly the counted size. */
  method DecodeInto(s: Text, p: nat, end: nat, len: nat) returns (ok: bool, out: array<byte>, n: nat)
    requires p <= end <= |s| && 0 !in s && Scan(s[p..]) == Some((end - p) as nat) && len == Space(s[p..end])
    ensures fresh(out) && out.Length == len + 1
    ensures ok <==> Unescape(s[p..end]).Some?
    ensures ok ==> n < out.Length && out[..n] == Unescape(s[p..end]).value && out[n] == 0
  {
    ScanPairs(s[p..]);
    assert s[p..][..end - p] == s[p..end];
    hide Scan, Unescape, Space, Paired;
    out := new byte[len + 1];
    ok, n := DecodeContent(s, p, end, out);
    if ok {
      ghost var content := out[..n];
      out[n] := 0;
      assert out[..n] == content;
    }
  }

  /**
   parse_string on the text from `start`: gives the decoded string, NUL-terminated in
   an allocated block of exactly the counted size, and the place behind the literal.
   */
  method ParseLiteral(s: Text, start: nat) returns (ok: bool, next: nat, out: array?<byte>, n: nat)
    requires start <= |s| && 0 !in s
    ensures ok <==> ParseString(s[start..]).Ok?
    ensures ok ==>
              && next <= |s| && ParseString(s[start..]).rest == s[next..]
              && out != null && fresh(out) && n < out.Length
              && out[..n] == ParseString(s[start..]).value && out[n] == 0
  {
    out, n, next := null, 0, start;
    NoLiteralAt(s, start);
    if At(s, start) != QUOTE {
      return false, next, out, n;
    }
    var p := start + 1;
    var end, len;
    ok, end, len := ScanLiteral(s, p);
    if !ok {
      return;
    }
    LiteralAt(s, start, end);
    hide ParseString, Scan, Unescape, Space;
    ok, out, n := DecodeInto(s, p, end, len);
    next := if At(s, end) == QUOTE then end + 1 else end;
  }
}
