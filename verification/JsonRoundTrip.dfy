/** Parsing undoes printing, formatted or not. */
module JsonRoundTrip {
  import opened Wrappers
  import opened Bytes
  import opened JsonValue
  import opened JsonParse

  // ----- numbers -----

  predicate AllDigits(a: Text) { forall i :: 0 <= i < |a| ==> IsDigit(a[i]) }

  function Val(n: int, a: Text): int
    decreases |a|
  {
    if a == [] then n else Val(10 * n + DigitValue(a[0]), a[1..])
  }

  lemma {:induction false} ReadsVal(n: int, a: Text, rest: Text)
    requires AllDigits(a) && !IsDigit(Head(rest))
    ensures ReadDigits(n, a + rest) == (Val(n, a), rest)
    decreases |a|
  {
    if a == [] {
      assert a + rest == rest;
    } else {
      assert (a + rest)[1..] == a[1..] + rest;
      ReadsVal(10 * n + DigitValue(a[0]), a[1..], rest);
    }
  }

  lemma {:induction false} ValSnoc(n: int, a: Text, d: byte)
    ensures Val(n, a + [d]) == 10 * Val(n, a) + DigitValue(d)
    decreases |a|
  {
    if a == [] {
      assert a + [d] == [d] && [d][1..] == [];
    } else {
      assert (a + [d])[1..] == a[1..] + [d];
      ValSnoc(10 * n + DigitValue(a[0]), a[1..], d);
    }
  }

  lemma {:induction false} DigitsMeanNumber(n: nat)
    ensures AllDigits(Digits(n)) && Val(0, Digits(n)) == n
    ensures n > 0 ==> Digits(n)[0] > 48
  {
    if n < 10 {
      assert [48 + n][1..] == [];
    } else {
      DigitsMeanNumber(n / 10);
      ValSnoc(0, Digits(n / 10), 48 + n % 10);
    }
  }

  /** A text that does not go on with the number before it. */
  predicate Stops(s: Text) { !IsDigit(Head(s)) && Head(s) != 46 && Head(s) != 101 && Head(s) != 69 }

  lemma NothingFollows(n: int, rest: Text)
    requires Stops(rest)
    ensures Fraction(n, rest) == (n, 0, rest) && Exponent(rest) == (0, rest)
  {}

  lemma IntegerComesBack(n: nat, rest: Text)
    requires Stops(rest)
    ensures Head(Digits(n) + rest) == Digits(n)[0] && IsDigit(Digits(n)[0])
    ensures IntegerPart(AfterZero(Digits(n) + rest)) == (n, rest)
  {
    DigitsMeanNumber(n);
    if n == 0 {
      assert Digits(0) + rest == [48] + rest && ([48] + rest)[1..] == rest;
    } else {
      ReadsVal(0, Digits(n), rest);
    }
  }

  lemma SignComesBack(m: int, rest: Text)
    requires Stops(rest)
    ensures var n: nat := if m < 0 then -m else m;
            AfterSign(Decimal(m) + rest) == Digits(n) + rest && (Head(Decimal(m) + rest) == 45 <==> m < 0)
    ensures m >= 0 ==> IsDigit(Head(Decimal(m) + rest))
  {
    var n: nat := if m < 0 then -m else m;
    IntegerComesBack(n, rest);
    hide Digits;
    if m < 0 {
      assert Decimal(m) + rest == [45] + (Digits(n) + rest);
    }
  }

  lemma NumberComesBack(m: int, rest: Text)
    requires Stops(rest)
    ensures var s := Decimal(m) + rest;
            && (Head(s) == 45 || IsDigit(Head(s)))
            && ParseNumber(s) == (Number(m, 0), rest)
  {
    var n: nat := if m < 0 then -m else m;
    SignComesBack(m, rest);
    IntegerComesBack(n, rest);
    NothingFollows(n, rest);
    hide Decimal, Digits, AfterSign, AfterZero, IntegerPart, Fraction, Exponent, Stops, IsDigit, Head;
  }

  // ----- strings -----

  lemma ScanPlain(b: byte, tail: Text)
    requires b != QUOTE && b != BACKSLASH && b != 0
    ensures Scan([b] + tail) == var r := Scan(tail); if r.None? then None else Some(r.value + 1)
  {
    assert ([b] + tail)[1..] == tail;
  }

  lemma ScanPair(b: byte, tail: Text)
    requires b != 0
    ensures Scan([BACKSLASH, b] + tail) == var r := Scan(tail); if r.None? then None else Some(r.value + 2)
  {
    var s := [BACKSLASH, b] + tail;
    assert s[1..] == [b] + tail && s[2..] == tail;
  }

  lemma EscapeShape(b: byte)
    requires b != 0
    ensures var e := EscapeByte(b);
            || (e == [b] && b != QUOTE && b != BACKSLASH)
            || (|e| == 2 && e == [BACKSLASH, e[1]] && e[1] != 0)
            || (|e| == 6 && b < 32 && e == [BACKSLASH, 117, 48, 48, HexDigit(b / 16), HexDigit(b % 16)])
  {}

  lemma ScanEscapedByte(b: byte, tail: Text)
    requires b != 0
    ensures Scan(EscapeByte(b) + tail) == var r := Scan(tail); if r.None? then None else Some(r.value + |EscapeByte(b)|)
  {
    var e := EscapeByte(b);
    EscapeShape(b);
    hide Scan, EscapeByte;
    if |e| == 1 {
      ScanPlain(b, tail);
    } else if |e| == 2 {
      ScanPair(e[1], tail);
    } else {
      ScanControl(HexDigit(b / 16), HexDigit(b % 16), tail);
    }
  }

  lemma ScanControl(h: byte, l: byte, tail: Text)
    requires h != QUOTE && h != BACKSLASH && h != 0 && l != QUOTE && l != BACKSLASH && l != 0
    ensures Scan([BACKSLASH, 117, 48, 48, h, l] + tail)
         == var r := Scan(tail); if r.None? then None else Some(r.value + 6)
  {
    hide Scan;
    var t1 := [l] + tail;
    var t2 := [h] + t1;
    var t3 := [48] + t2;
    var t4 := [48] + t3;
    ScanPlain(l, tail);
    ScanPlain(h, t1);
    ScanPlain(48, t2);
    ScanPlain(48, t3);
    ScanPair(117, t4);
    assert [BACKSLASH, 117, 48, 48, h, l] + tail == [BACKSLASH, 117] + t4;
  }

  lemma {:induction false} ScanFindsEnd(s: Text, rest: Text)
    requires 0 !in s
    ensures Scan(Escape(s) + [QUOTE] + rest) == Some(|Escape(s)|)
    decreases |s|
  {
    if s == [] {
    } else {
      var e, tail := EscapeByte(s[0]), Escape(s[1..]) + [QUOTE] + rest;
      assert Escape(s) + [QUOTE] + rest == e + tail;
      ScanFindsEnd(s[1..], rest);
      ScanEscapedByte(s[0], tail);
    }
  }

  lemma HexComesBack(n: nat)
    requires n < 16
    ensures HexValue(HexDigit(n)) == Some(n)
  {}

  lemma UnescapesPlain(b: byte, tail: Text)
    requires b != BACKSLASH
    ensures Unescape([b] + tail) == Prepend([b], Unescape(tail))
  {
    assert ([b] + tail)[1..] == tail;
  }

  lemma UnescapesPair(x: byte, tail: Text)
    requires x != 117 && SimpleEscape(x).Some?
    ensures Unescape([BACKSLASH, x] + tail) == Prepend([SimpleEscape(x).value], Unescape(tail))
  {
    var c := [BACKSLASH, x] + tail;
    assert c[0] == BACKSLASH && c[1] == x && c[2..] == tail;
  }

  lemma UnescapesUnicode(e: Text, tail: Text, u: nat)
    requires |e| >= 2 && e[0] == BACKSLASH && e[1] == 117
    requires UnicodeEscape(e + tail) == Some((u, |e|))
    ensures u < 0x110000 && Unescape(e + tail) == Prepend(Utf8(u), Unescape(tail))
  {
    hide UnicodeEscape, Utf8;
    assert (e + tail)[|e|..] == tail;
  }

  lemma PairEscapes(b: byte)
    requires |EscapeByte(b)| == 2
    ensures var x := EscapeByte(b)[1];
            EscapeByte(b) == [BACKSLASH, x] && x != 117 && SimpleEscape(x) == Some(b)
  {}

  lemma UnescapesByte(b: byte, tail: Text)
    requires b != 0
    ensures Unescape(EscapeByte(b) + tail) == Prepend([b], Unescape(tail))
  {
    var e := EscapeByte(b);
    if |e| == 1 {
      UnescapesPlain(b, tail);
    } else if |e| == 2 {
      PairEscapes(b);
      UnescapesPair(e[1], tail);
    } else {
      hide Unescape, UnicodeEscape, Utf8;
      ControlEscape(b, tail);
      UnescapesUnicode(e, tail, b);
    }
  }

  lemma ControlEscape(b: byte, tail: Text)
    requires 0 < b < 32
    ensures var c := [BACKSLASH, 117, 48, 48, HexDigit(b / 16), HexDigit(b % 16)] + tail;
            UnicodeEscape(c) == Some((b as nat, 6 as nat)) && Utf8(b) == [b]
  {
    var c := [BACKSLASH, 117, 48, 48, HexDigit(b / 16), HexDigit(b % 16)] + tail;
    HexComesBack(b / 16);
    HexComesBack(b % 16);
    var x := c[2..];
    assert x[0] == 48 && x[1] == 48 && x[2] == HexDigit(b / 16) && x[3] == HexDigit(b % 16);
    hide HexValue, HexDigit;
    assert HexValue(48) == Some(0) by { ZeroDigit(); }
    assert Hex4(x) == b / 16 * 16 + b % 16;
  }

  lemma ZeroDigit()
    ensures HexValue(48) == Some(0)
  {}

  lemma {:induction false} UnescapeUndoesEscape(s: Text)
    requires 0 !in s
    ensures Unescape(Escape(s)) == Some(s)
    decreases |s|
  {
    if s != [] {
      UnescapeUndoesEscape(s[1..]);
      UnescapesByte(s[0], Escape(s[1..]));
      assert s == [s[0]] + s[1..];
    }
  }

  /** A literal with its closing quote found. */
  lemma LiteralReads(c: Text, y: Text)
    requires Scan(c + [QUOTE] + y) == Some(|c|)
    ensures ParseString([QUOTE] + c + [QUOTE] + y)
         == var u := Unescape(c); if u.None? then Fail else Ok(u.value, y)
  {
    hide Scan, Unescape;
    var t := [QUOTE] + c + [QUOTE] + y;
    assert t[1..] == c + [QUOTE] + y;
    assert t[1..][..|c|] == c && t[1..][|c|..] == [QUOTE] + y && ([QUOTE] + y)[1..] == y;
  }

  lemma StringComesBack(s: Text, rest: Text)
    requires 0 !in s
    ensures ParseString(PrintString(s) + rest) == Ok(s, rest)
  {
    ScanFindsEnd(s, rest);
    UnescapeUndoesEscape(s);
    hide Scan;
    LiteralReads(Escape(s), rest);
  }

  // ----- values -----

  lemma FirstByte(t: Json, depth: nat, fmt: bool)
    ensures var p := Print(t, depth, fmt); p != [] && p[0] > 32 && p[0] != CLOSE_ARRAY && p[0] != CLOSE_OBJECT
  {
    if t.Number? {
      var n: nat := if t.mantissa < 0 then -t.mantissa else t.mantissa;
      DigitsMeanNumber(n);
    }
  }

  lemma SkipNothing(s: Text)
    requires Head(s) == 0 || Head(s) > 32
    ensures Skip(s) == s
  {}

  lemma {:induction false} SkipTabs(n: nat, s: Text)
    ensures Skip(Tabs(n) + s) == Skip(s)
  {
    if n == 0 {
      assert Tabs(0) + s == s;
    } else {
      assert (Tabs(n) + s)[1..] == Tabs(n - 1) + s;
      SkipTabs(n - 1, s);
    }
  }

  lemma SkipOne(b: byte, s: Text)
    requires 0 < b <= 32
    ensures Skip([b] + s) == Skip(s)
  {
    assert ([b] + s)[1..] == s;
  }

  lemma {:induction false} SkipTwice(s: Text)
    ensures Skip(Skip(s)) == Skip(s)
    decreases |s|
  {
    if Head(s) != 0 && Head(s) <= 32 {
      SkipTwice(s[1..]);
    }
  }

  /** Space before an element makes no difference. */
  lemma ItemsAfterSpace(s: Text, s': Text)
    requires Skip(s) == Skip(s')
    ensures ParseItems(s) == ParseItems(s')
  {}

  lemma MembersAfterSpace(s: Text, s': Text)
    requires Skip(s) == Skip(s')
    ensures ParseMembers(s) == ParseMembers(s')
  {}

  /** What ParseItems does with a value that reads back, at the comma behind it. */
  lemma ItemThenMore(v: Json, text: Text, t: Text, rest: Text)
    requires Skip(text) == text && ParseValue(text) == Ok(v, [COMMA] + t)
    ensures ParseItems(text) == var more := ParseItems(t); if more.Fail? then Fail else Ok([v] + more.value, more.rest)
  {
    assert ([COMMA] + t)[1..] == t;
    SkipNothing([COMMA] + t);
  }

  lemma ItemThenEnd(v: Json, text: Text, rest: Text)
    requires Skip(text) == text && ParseValue(text) == Ok(v, [CLOSE_ARRAY] + rest)
    ensures ParseItems(text) == Ok([v], rest)
  {
    assert ([CLOSE_ARRAY] + rest)[1..] == rest;
    SkipNothing([CLOSE_ARRAY] + rest);
  }

  lemma ItemsText(items: seq<Json>, depth: nat, fmt: bool, rest: Text, more: Text)
    requires |items| > 1 && more == PrintItems(items[1..], depth, fmt) + [CLOSE_ARRAY] + rest
    ensures PrintItems(items, depth, fmt) + [CLOSE_ARRAY] + rest
         == Print(items[0], depth, fmt) + ([COMMA] + (If(fmt, [32]) + more))
  {
    hide Print;
  }

  lemma {:induction false} ItemsComeBack(items: seq<Json>, depth: nat, fmt: bool, rest: Text)
    requires items != [] && forall i :: 0 <= i < |items| ==> Printable(items[i])
    ensures ParseItems(PrintItems(items, depth, fmt) + [CLOSE_ARRAY] + rest) == Ok(items, rest)
    decreases items, 1
  {
    hide ParseItems, ParseValue, Print, Printable;
    var first := Print(items[0], depth, fmt);
    var text := PrintItems(items, depth, fmt) + [CLOSE_ARRAY] + rest;
    FirstByte(items[0], depth, fmt);
    SkipNothing(text);
    if |items| == 1 {
      assert text == first + ([CLOSE_ARRAY] + rest);
      ValueComesBack(items[0], depth, fmt, [CLOSE_ARRAY] + rest);
      ItemThenEnd(items[0], text, rest);
      assert items == [items[0]];
    } else {
      var more := PrintItems(items[1..], depth, fmt) + [CLOSE_ARRAY] + rest;
      var t := If(fmt, [32]) + more;
      ItemsText(items, depth, fmt, rest, more);
      hide PrintItems;
      ValueComesBack(items[0], depth, fmt, [COMMA] + t);
      ItemThenMore(items[0], text, t, rest);
      if fmt {
        SkipOne(32, more);
      } else {
        assert t == more;
      }
      ItemsAfterSpace(t, more);
      ItemsComeBack(items[1..], depth, fmt, rest);
      assert items == [items[0]] + items[1..];
    }
  }

  lemma ReadsArray(body: Text)
    ensures ParseValue([OPEN_ARRAY] + body) ==
            var t := Skip(body);
            if Head(t) == CLOSE_ARRAY then Ok(Array([]), t[1..])
            else var r := ParseItems(t); if r.Fail? then Fail else Ok(Array(r.value), r.rest)
  {
    hide ParseItems, ParseMembers;
    var s := [OPEN_ARRAY] + body;
    assert s[1..] == body && s[0] == OPEN_ARRAY;
    assert forall w: Text :: w != [] && w[0] != OPEN_ARRAY ==> !Starts(s, w);
  }

  lemma ReadsObject(body: Text)
    ensures ParseValue([OPEN_OBJECT] + body) ==
            var t := Skip(body);
            if Head(t) == CLOSE_OBJECT then Ok(Object([]), t[1..])
            else var r := ParseMembers(t); if r.Fail? then Fail else Ok(Object(r.value), r.rest)
  {
    hide ParseItems, ParseMembers;
    var s := [OPEN_OBJECT] + body;
    assert s[1..] == body && s[0] == OPEN_OBJECT;
    assert forall w: Text :: w != [] && w[0] != OPEN_OBJECT ==> !Starts(s, w);
  }

  lemma ReadsString(s: Text)
    requires Head(s) == QUOTE
    ensures ParseValue(s) == var r := ParseString(s); if r.Fail? then Fail else Ok(String(r.value), r.rest)
  {
    assert forall w: Text :: w != [] && w[0] != QUOTE ==> !Starts(s, w);
  }

  lemma ReadsNumber(s: Text)
    requires Head(s) == 45 || IsDigit(Head(s))
    ensures ParseValue(s) == Ok(ParseNumber(s).0, ParseNumber(s).1)
  {
    assert forall w: Text :: w != [] && w[0] > 57 ==> !Starts(s, w);
  }

  lemma ReadsLiteral(t: Json, depth: nat, fmt: bool, rest: Text)
    requires t.Null? || t.False? || t.True?
    ensures ParseValue(Print(t, depth, fmt) + rest) == Ok(t, rest)
  {
    var w := Print(t, depth, fmt);
    var s := w + rest;
    assert s[..|w|] == w && s[|w|..] == rest && s[0] == w[0];
  }

  lemma ArrayComesBack(items: seq<Json>, depth: nat, fmt: bool, rest: Text)
    requires forall i :: 0 <= i < |items| ==> Printable(items[i])
    ensures ParseValue(Print(Array(items), depth, fmt) + rest) == Ok(Array(items), rest)
    decreases items, 2
  {
    hide ParseItems, ParseValue, Printable;
    var body := PrintItems(items, depth + 1, fmt) + [CLOSE_ARRAY] + rest;
    assert Print(Array(items), depth, fmt) + rest == [OPEN_ARRAY] + body;
    ReadsArray(body);
    if items == [] {
      assert body == [CLOSE_ARRAY] + rest && body[1..] == rest;
    } else {
      hide Print;
      ItemsComeBack(items, depth + 1, fmt, rest);
      FirstByte(items[0], depth + 1, fmt);
      assert Head(body) == Print(items[0], depth + 1, fmt)[0];
    }
    SkipNothing(body);
  }

  // ----- objects -----

  lemma MemberReads(m: Member, text: Text, afterKey: Text, afterColon: Text, rest: Text)
    requires ParseString(Skip(text)) == Ok(m.key, [COLON] + afterColon)
    requires ParseValue(Skip(afterColon)) == Ok(m.value, rest)
    ensures ParseMember(text) == Ok(m, rest)
  {
    assert ([COLON] + afterColon)[1..] == afterColon;
    SkipNothing([COLON] + afterColon);
  }

  lemma MemberComesBack(m: Member, depth: nat, fmt: bool, rest: Text)
    requires 0 !in m.key && Printable(m.value) && Stops(rest)
    ensures ParseMember(PrintMember(m, depth, fmt) + rest) == Ok(m, rest)
    decreases m, 1
  {
    hide ParseMember, ParseValue, ParseString, Print, Printable, PrintString, Escape;
    var value := Print(m.value, depth, fmt) + rest;
    var afterColon := If(fmt, [TAB]) + value;
    var key := PrintString(m.key) + ([COLON] + afterColon);
    var text := PrintMember(m, depth, fmt) + rest;
    assert text == If(fmt, Tabs(depth)) + key;
    QuoteFirst(m.key, [COLON] + afterColon);
    FirstByte(m.value, depth, fmt);
    if fmt {
      SkipTabs(depth, key);
      SkipOne(TAB, value);
    } else {
      assert text == key && afterColon == value;
    }
    SkipNothing(key);
    SkipNothing(value);
    StringComesBack(m.key, [COLON] + afterColon);
    ValueComesBack(m.value, depth, fmt, rest);
    MemberReads(m, text, key, afterColon, rest);
  }

  lemma QuoteFirst(s: Text, rest: Text)
    ensures Head(PrintString(s) + rest) == QUOTE
  {}

  /** Behind a member: a comma and the other members. */
  lemma MemberThenMore(m: Member, text: Text, t: Text)
    requires ParseMember(text) == Ok(m, [COMMA] + t)
    ensures ParseMembers(text)
         == var more := ParseMembers(t); if more.Fail? then Fail else Ok([m] + more.value, more.rest)
  {
    hide ParseMember;
    assert ([COMMA] + t)[1..] == t;
    SkipNothing([COMMA] + t);
  }

  /** Behind the last member: space and the closing brace. */
  lemma MemberThenEnd(m: Member, text: Text, space: Text, rest: Text)
    requires ParseMember(text) == Ok(m, space + ([CLOSE_OBJECT] + rest))
    requires Skip(space + ([CLOSE_OBJECT] + rest)) == [CLOSE_OBJECT] + rest
    ensures ParseMembers(text) == Ok([m], rest)
  {
    hide ParseMember;
    assert ([CLOSE_OBJECT] + rest)[1..] == rest;
  }

  lemma SpaceBeforeBrace(fmt: bool, k: nat, rest: Text)
    ensures var space := If(fmt, [NEWLINE]) + If(fmt, Tabs(k)); var end := [CLOSE_OBJECT] + rest;
            Skip(space + end) == end && Stops(space + end)
  {
    var end := [CLOSE_OBJECT] + rest;
    SkipNothing(end);
    if fmt {
      SkipTabs(k, end);
      SkipOne(NEWLINE, Tabs(k) + end);
      assert [NEWLINE] + Tabs(k) + end == [NEWLINE] + (Tabs(k) + end);
    } else {
      assert [] + [] + end == end;
    }
  }

  lemma {:induction false} MembersComeBack(members: seq<Member>, depth: nat, fmt: bool, k: nat, rest: Text)
    requires members != []
    requires forall i :: 0 <= i < |members| ==> 0 !in members[i].key && Printable(members[i].value)
    ensures ParseMembers(PrintMembers(members, depth, fmt) + If(fmt, Tabs(k)) + ([CLOSE_OBJECT] + rest))
         == Ok(members, rest)
    decreases members, 2
  {
    hide ParseMember, ParseMembers, PrintMember, Printable, Stops, Skip;
    var m, end := members[0], If(fmt, Tabs(k)) + ([CLOSE_OBJECT] + rest);
    var first := PrintMember(m, depth, fmt);
    var text := PrintMembers(members, depth, fmt) + If(fmt, Tabs(k)) + ([CLOSE_OBJECT] + rest);
    if |members| == 1 {
      var space := If(fmt, [NEWLINE]) + If(fmt, Tabs(k));
      assert text == first + (space + ([CLOSE_OBJECT] + rest));
      SpaceBeforeBrace(fmt, k, rest);
      MemberComesBack(m, depth, fmt, space + ([CLOSE_OBJECT] + rest));
      MemberThenEnd(m, text, space, rest);
      assert members == [m];
    } else {
      var more := PrintMembers(members[1..], depth, fmt) + If(fmt, Tabs(k)) + ([CLOSE_OBJECT] + rest);
      var t := If(fmt, [NEWLINE]) + more;
      Regroup(first, If(fmt, [NEWLINE]), PrintMembers(members[1..], depth, fmt), If(fmt, Tabs(k)),
              [CLOSE_OBJECT] + rest);
      hide If;
      CommaStops(t);
      MemberComesBack(m, depth, fmt, [COMMA] + t);
      MemberThenMore(m, text, t);
      SpaceSkipped(fmt, more);
      MembersAfterSpace(t, more);
      MembersComeBack(members[1..], depth, fmt, k, rest);
      assert members == [m] + members[1..];
    }
  }

  lemma Regroup(a: Text, b: Text, c: Text, d: Text, e: Text)
    ensures a + [COMMA] + b + c + d + e == a + ([COMMA] + (b + (c + d + e)))
  {}

  lemma CommaStops(t: Text)
    ensures Stops([COMMA] + t)
  {}

  lemma ObjectComesBack(members: seq<Member>, depth: nat, fmt: bool, rest: Text)
    requires forall i :: 0 <= i < |members| ==> 0 !in members[i].key && Printable(members[i].value)
    ensures ParseValue(Print(Object(members), depth, fmt) + rest) == Ok(Object(members), rest)
    decreases members, 3
  {
    hide ParseMembers, ParseValue, Printable, Skip, PrintMembers;
    var end := [CLOSE_OBJECT] + rest;
    var more := PrintMembers(members, depth + 1, fmt) + If(fmt, Tabs(depth)) + end;
    assert Print(Object(members), depth, fmt) + rest == [OPEN_OBJECT] + (If(fmt, [NEWLINE]) + more);
    ReadsObject(If(fmt, [NEWLINE]) + more);
    SpaceSkipped(fmt, more);
    if members == [] {
      NoMembers(depth, fmt, rest);
    } else {
      hide Print, If;
      MembersComeBack(members, depth + 1, fmt, depth, rest);
      MembersStart(members, depth + 1, fmt, If(fmt, Tabs(depth)) + end);
      assert more == PrintMembers(members, depth + 1, fmt) + (If(fmt, Tabs(depth)) + end);
      MembersAfterSpace(Skip(more), more);
    }
  }

  lemma NoMembers(depth: nat, fmt: bool, rest: Text)
    ensures Skip(PrintMembers([], depth + 1, fmt) + If(fmt, Tabs(depth)) + ([CLOSE_OBJECT] + rest))
         == [CLOSE_OBJECT] + rest
    ensures ([CLOSE_OBJECT] + rest)[1..] == rest
  {
    var end := [CLOSE_OBJECT] + rest;
    SkipNothing(end);
    if fmt {
      SkipTabs(depth, end);
      assert [] + Tabs(depth) + end == Tabs(depth) + end;
    } else {
      assert [] + [] + end == end;
    }
  }

  lemma SpaceSkipped(fmt: bool, s: Text)
    ensures Skip(If(fmt, [NEWLINE]) + s) == Skip(s) && Skip(Skip(s)) == Skip(s)
  {
    SkipTwice(s);
    if fmt {
      SkipOne(NEWLINE, s);
    } else {
      assert [] + s == s;
    }
  }

  lemma MembersStart(members: seq<Member>, depth: nat, fmt: bool, tail: Text)
    requires members != []
    ensures Head(Skip(PrintMembers(members, depth, fmt) + tail)) == QUOTE
  {
    hide PrintString, Print;
    var m, all := members[0], PrintMembers(members, depth, fmt);
    var tabs, key := If(fmt, Tabs(depth)), PrintString(m.key);
    var text := all + tail;
    QuoteFirst(m.key, []);
    assert key + [] == key;
    var first, value := PrintMember(m, depth, fmt), [COLON] + If(fmt, [TAB]) + Print(m.value, depth, fmt);
    assert first == tabs + key + value;
    assert all[..|first|] == first;
    assert all[..|tabs|] == first[..|tabs|] == tabs && all[|tabs|] == first[|tabs|] == key[0];
    var s := text[|tabs|..];
    assert text == tabs + s;
    if fmt {
      SkipTabs(depth, s);
    } else {
      assert text == s;
    }
    SkipNothing(s);
  }

  /**
   Printing a tree, formatted or not, and parsing the text rebuilds the tree; the
   parser stops exactly behind it.
   */
  lemma {:induction false} ValueComesBack(t: Json, depth: nat, fmt: bool, rest: Text)
    requires Printable(t) && (t.Number? ==> Stops(rest))
    ensures ParseValue(Print(t, depth, fmt) + rest) == Ok(t, rest)
    decreases t, 0
  {
    match t
    case Number(m, _) =>
      NumberComesBack(m, rest);
      ReadsNumber(Decimal(m) + rest);
    case String(s) =>
      StringComesBack(s, rest);
      ReadsString(PrintString(s) + rest);
    case Array(items) => ArrayComesBack(items, depth, fmt, rest);
    case Object(members) => ObjectComesBack(members, depth, fmt, rest);
    case _ => ReadsLiteral(t, depth, fmt, rest);
  }

  /** The whole document comes back, with and without the demand that nothing follows it. */
  lemma DocumentComesBack(t: Json, fmt: bool, requireEnd: bool)
    requires Printable(t)
    ensures ParseDocument(Print(t, 0, fmt), requireEnd) == Ok(t, [])
  {
    var text := Print(t, 0, fmt);
    assert text + [] == text;
    ValueComesBack(t, 0, fmt, []);
    FirstByte(t, 0, fmt);
    SkipNothing(text);
  }
}
