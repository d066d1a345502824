/** The texts that cJSON accepts, spelled out as a grammar: it reads exactly these, and with their meaning. */
module JsonSyntax {
  import opened Wrappers
  import opened Bytes
  import opened JsonValue
  import opened JsonParse
  import opened JsonString
  import opened JsonRoundTrip

  // ----- the content of string literals -----

  /** The letters of the short escapes and the bytes that they stand for, section 7 of RFC 8259. */
  const SHORT: Text := [98, 102, 110, 114, 116, 34, 92, 47]
  const MEANT: Text := [8, 12, 10, 13, 9, 34, 92, 47]

  datatype AnyUnit = Raw(b: byte) | Short(k: nat) | Unicode(u: nat, text: Text)

  /** A byte for itself, a short escape, or the UTF-16 escapes of a scalar value. */
  predicate IsUnit(x: AnyUnit) {
    match x
    case Raw(b) => b != 92
    case Short(k) => k < 8
    case Unicode(u, text) => u != 0 && Scalar(u) && |text| == 6 * |Utf16(u)| && Escapes(text, Utf16(u))
  }

  type Unit = x: AnyUnit | IsUnit(x) witness Short(0)

  function UnitText(x: Unit): Text {
    match x
    case Raw(b) => [b]
    case Short(k) => [92, SHORT[k]]
    case Unicode(_, text) => text
  }

  function UnitValue(x: Unit): Text {
    match x
    case Raw(b) => [b]
    case Short(k) => [MEANT[k]]
    case Unicode(u, _) => Utf8(u)
  }

  function UnitsText(us: seq<Unit>): Text { if us == [] then [] else UnitText(us[0]) + UnitsText(us[1..]) }

  function UnitsValue(us: seq<Unit>): Text { if us == [] then [] else UnitValue(us[0]) + UnitsValue(us[1..]) }

  lemma ShortIsSimple(k: nat)
    requires k < 8
    ensures SHORT[k] != 117 && SHORT[k] != 0 && SimpleEscape(SHORT[k]) == Some(MEANT[k])
  {}

  lemma ShortOf(x: byte) returns (k: nat)
    requires SimpleEscape(x).Some?
    ensures k < 8 && SHORT[k] == x
  {
    assert SHORT[0] == 98 && SHORT[1] == 102 && SHORT[2] == 110 && SHORT[3] == 114 && SHORT[4] == 116;
    k := if x == 98 then 0 else if x == 102 then 1 else if x == 110 then 2 else if x == 114 then 3
         else if x == 116 then 4 else if x == 34 then 5 else if x == 92 then 6 else 7;
  }

  /** What the printer writes for a byte: the short escapes of the table but for the slash, four hexadecimal digits
      for other control bytes, and everything else as it is. */
  lemma PrinterEscapes(b: byte)
    ensures forall k :: 0 <= k < 7 ==> EscapeByte(MEANT[k]) == [92, SHORT[k]]
    ensures b < 32 && b !in MEANT ==>
      exists h, l ::
        EscapeByte(b) == [92, 117, 48, 48, h, l] && HexValue(h) == Some(b / 16) && HexValue(l) == Some(b % 16)
    ensures b >= 32 && b != 34 && b != 92 ==> EscapeByte(b) == [b]
  {
    assert MEANT[0] == 8 && MEANT[1] == 12 && MEANT[2] == 10 && MEANT[3] == 13 && MEANT[4] == 9;
    if b < 32 && b !in MEANT {
      var h, l := HexDigit(b / 16), HexDigit(b % 16);
      assert EscapeByte(b) == [92, 117, 48, 48, h, l] && HexValue(h) == Some(b / 16) && HexValue(l) == Some(b % 16);
    }
  }

  lemma UnicodeStarts(x: Unit)
    requires x.Unicode?
    ensures |x.text| >= 6 && x.text[0] == 92 && x.text[1] == 117
  {}

  /** Escapes stay escapes when more text follows. */
  lemma {:induction false} EscapesInFront(c: Text, units: seq<nat>, tail: Text)
    requires Escapes(c, units)
    ensures Escapes(c + tail, units)
    decreases |units|
  {
    if units != [] {
      EscapesInFront(c[6..], units[1..], tail);
      assert (c + tail)[6..] == c[6..] + tail;
    }
  }

  lemma UnitIsDecoded(x: Unit, tail: Text)
    ensures Unescape(UnitText(x) + tail) == Prepend(UnitValue(x), Unescape(tail))
  {
    match x
    case Raw(b) => UnescapesPlain(b, tail);
    case Short(k) =>
      ShortIsSimple(k);
      UnescapesPair(SHORT[k], tail);
    case Unicode(u, text) =>
      UnicodeStarts(x);
      EscapesInFront(text, Utf16(u), tail);
      EscapeIsUtf16(text + tail, u, |text|);
      hide Unescape, UnicodeEscape, Utf8, Escapes;
      UnescapesUnicode(text, tail, u);
  }

  /** Whatever mix of plain bytes and escapes stands in front is decoded, and what follows it is read on its own. */
  lemma {:induction false} UnitsAreDecoded(us: seq<Unit>, tail: Text)
    ensures Unescape(UnitsText(us) + tail) == Prepend(UnitsValue(us), Unescape(tail))
  {
    hide Unescape, UnitText, UnitValue;
    if us == [] {
      assert [] + tail == tail;
      PrependTwice([], [], Unescape(tail));
    } else {
      var more := UnitsText(us[1..]) + tail;
      assert UnitsText(us) + tail == UnitText(us[0]) + more;
      UnitIsDecoded(us[0], more);
      UnitsAreDecoded(us[1..], tail);
      PrependTwice(UnitValue(us[0]), UnitsValue(us[1..]), Unescape(tail));
    }
  }

  lemma PrependTwice(a: Text, b: Text, r: Option<Text>)
    ensures Prepend(a, Prepend(b, r)) == Prepend(a + b, r) && Prepend([], r) == r
  {
    if r.Some? {
      assert a + (b + r.value) == a + b + r.value && [] + r.value == r.value;
    }
  }

  /** The first unit of a text that can be decoded. */
  lemma FirstUnit(c: Text) returns (x: Unit)
    requires c != [] && Unescape(c).Some?
    ensures UnitText(x) <= c && UnitText(x) != [] && Unescape(c[|UnitText(x)|..]).Some?
  {
    if c[0] != BACKSLASH {
      x := Raw(c[0]);
    } else if c[1] == 117 {
      var (u, n) := UnicodeEscape(c).value;
      EscapeIsUtf16(c, u, n);
      EscapesPrefix(c, Utf16(u));
      x := Unicode(u, c[..n]);
    } else {
      var k := ShortOf(c[1]);
      x := Short(k);
      assert c[..2] == [92, SHORT[k]];
    }
  }

  lemma {:induction false} EscapesPrefix(c: Text, units: seq<nat>)
    requires Escapes(c, units)
    ensures 6 * |units| <= |c| && Escapes(c[..6 * |units|], units)
    decreases |units|
  {
    if units != [] {
      EscapesPrefix(c[6..], units[1..]);
      assert c[..6 * |units|][6..] == c[6..][..6 * (|units| - 1)];
      assert c[..6 * |units|][2..][..4] == c[2..][..4];
    }
  }

  lemma {:induction false} Units(c: Text) returns (us: seq<Unit>)
    requires Unescape(c).Some?
    ensures UnitsText(us) == c
    decreases |c|
  {
    us := [];
    if c != [] {
      hide Unescape, UnitText;
      var x := FirstUnit(c);
      var n := |UnitText(x)|;
      var more := Units(c[n..]);
      us := [x] + more;
      assert us[1..] == more && c == c[..n] + c[n..];
    }
  }

  /** A text is decoded to some bytes exactly if it spells them by the table and the UTF-16 escapes. */
  lemma DecodesWhatIsSpelled(c: Text, s: Text)
    ensures Unescape(c) == Some(s) <==> exists us: seq<Unit> :: UnitsText(us) == c && UnitsValue(us) == s
  {
    assert Unescape([]) == Some([]);
    hide Unescape;
    if Unescape(c) == Some(s) {
      var us := Units(c);
      UnitsAreDecoded(us, []);
      assert UnitsText(us) + [] == c && UnitsValue(us) + [] == UnitsValue(us);
      assert UnitsText(us) == c && UnitsValue(us) == s;
    }
    if us: seq<Unit> :| UnitsText(us) == c && UnitsValue(us) == s {
      UnitsAreDecoded(us, []);
      assert UnitsText(us) + [] == c && s + [] == s;
    }
  }

  /** Any other letter behind a backslash is refused, wherever it stands. */
  lemma OtherEscapesFail(us: seq<Unit>, x: byte, tail: Text)
    requires x !in SHORT && x != 117
    ensures Unescape(UnitsText(us) + ([92, x] + tail)) == None
  {
    var c := [92, x] + tail;
    assert SHORT[0] == 98 && SHORT[1] == 102 && SHORT[2] == 110 && SHORT[3] == 114 && SHORT[4] == 116;
    assert SHORT[5] == 34 && SHORT[6] == 92 && SHORT[7] == 47;
    assert c[0] == 92 && c[1] == x;
    UnitsAreDecoded(us, c);
  }

  /** Quotes and NUL only stand escaped in a literal. */
  predicate InLiteral(us: seq<Unit>) { forall i :: 0 <= i < |us| && us[i].Raw? ==> us[i].b != 34 && us[i].b != 0 }

  type Literal = us: seq<Unit> | InLiteral(us) witness []

  function LiteralText(us: Literal): Text { [34] + UnitsText(us) + [34] }

  lemma ScanUnit(x: Unit, tail: Text)
    requires x.Raw? ==> x.b != 34 && x.b != 0
    ensures Scan(UnitText(x) + tail) == var r := Scan(tail); if r.None? then None else Some(r.value + |UnitText(x)|)
  {
    match x
    case Raw(b) => ScanPlain(b, tail);
    case Short(k) =>
      ShortIsSimple(k);
      ScanPair(SHORT[k], tail);
    case Unicode(u, text) =>
      ScanEscapes(text, Utf16(u), tail);
  }

  lemma {:induction false} ScanEscapes(c: Text, units: seq<nat>, tail: Text)
    requires |c| == 6 * |units| && Escapes(c, units)
    ensures Scan(c + tail) == var r := Scan(tail); if r.None? then None else Some(r.value + |c|)
    decreases |units|
  {
    if units == [] {
      assert c + tail == tail;
    } else {
      var h := c[2..];
      assert h[0] == c[2] && h[1] == c[3] && h[2] == c[4] && h[3] == c[5];
      hide Scan, HexValue;
      ScanEscapes(c[6..], units[1..], tail);
      ScanHexes(c[2], c[3], c[4], c[5], c[6..] + tail);
      CutSix(c, tail);
    }
  }

  lemma CutSix(c: Text, tail: Text)
    requires |c| >= 6 && c[0] == 92 && c[1] == 117
    ensures c + tail == [92, 117, c[2], c[3], c[4], c[5]] + (c[6..] + tail)
  {}

  lemma ScanTwo(a: byte, b: byte, tail: Text)
    requires a != 34 && a != 92 && a != 0 && b != 34 && b != 92 && b != 0
    ensures Scan([a, b] + tail) == var r := Scan(tail); if r.None? then None else Some(r.value + 2)
  {
    ScanPlain(b, tail);
    ScanPlain(a, [b] + tail);
    hide Scan;
    assert [a, b] + tail == [a] + ([b] + tail);
  }

  lemma SixBytes(a: byte, b: byte, c: byte, d: byte, more: Text)
    ensures [92, 117, a, b, c, d] + more == [92, 117] + ([a, b] + ([c, d] + more))
  {}

  lemma ScanHexes(a: byte, b: byte, c: byte, d: byte, more: Text)
    requires HexValue(a).Some? && HexValue(b).Some? && HexValue(c).Some? && HexValue(d).Some?
    ensures Scan([92, 117, a, b, c, d] + more) == var r := Scan(more); if r.None? then None else Some(r.value + 6)
  {
    hide Scan, HexValue;
    NoMark(a);
    NoMark(b);
    NoMark(c);
    NoMark(d);
    var m2 := [c, d] + more;
    var m1 := [a, b] + m2;
    ScanTwo(c, d, more);
    ScanTwo(a, b, m2);
    ScanPair(117, m1);
    SixBytes(a, b, c, d, more);
  }

  lemma NoMark(a: byte)
    requires HexValue(a).Some?
    ensures a != 34 && a != 92 && a != 0
  {}

  lemma UnitsFront(us: seq<Unit>, tail: Text)
    requires us != []
    ensures UnitsText(us) + tail == UnitText(us[0]) + (UnitsText(us[1..]) + tail)
  {
    hide UnitText;
  }

  lemma {:induction false} ScanUnits(us: Literal, rest: Text)
    ensures Scan(UnitsText(us) + ([34] + rest)) == Some(|UnitsText(us)|)
    decreases |us|
  {
    if us == [] {
      assert [] + ([34] + rest) == [34] + rest;
    } else {
      var more: Literal := us[1..];
      UnitsFront(us, [34] + rest);
      ScanUnits(more, rest);
      hide Scan, UnitText;
      ScanUnit(us[0], UnitsText(more) + ([34] + rest));
    }
  }

  lemma LiteralIsRead(us: Literal, rest: Text)
    ensures ParseString(LiteralText(us) + rest) == Ok(UnitsValue(us), rest)
  {
    ScanUnits(us, rest);
    assert UnitsText(us) + [34] + rest == UnitsText(us) + ([34] + rest);
    UnitsAreDecoded(us, []);
    assert UnitsText(us) + [] == UnitsText(us) && UnitsValue(us) + [] == UnitsValue(us);
    hide Scan;
    LiteralReads(UnitsText(us), rest);
  }

  /** The literal in front of a text ends with a quote, not with the text. */
  predicate Closes(s: Text) { s != [] && Scan(s[1..]).Some? && Head(s[1..][Scan(s[1..]).value..]) == 34 }

  lemma {:induction false} UnitsInLiteral(us: seq<Unit>, rest: Text)
    requires Scan(UnitsText(us) + ([34] + rest)) == Some(|UnitsText(us)|)
    ensures InLiteral(us)
    decreases |us|
  {
    hide Scan, UnitText;
    if us != [] {
      var x, more := us[0], us[1..];
      UnitIsText(x);
      FirstInLiteral(x, UnitsText(more), [34] + rest);
      UnitsInLiteral(more, rest);
      assert us == [x] + more;
    }
  }

  lemma FirstInLiteral(x: Unit, more: Text, tail: Text)
    requires Scan(UnitText(x) + more + tail) == Some(|UnitText(x)| + |more|) && UnitText(x) != []
    ensures (x.Raw? ==> x.b != 34 && x.b != 0) && Scan(more + tail) == Some(|more|)
  {
    Assoc(UnitText(x), more, tail);
    RawInFront(x, more + tail);
    hide Scan, UnitText, IsUnit;
    ScanUnit(x, more + tail);
  }

  lemma RawInFront(x: Unit, tail: Text)
    requires Scan(UnitText(x) + tail) != Some(0 as nat)
    ensures x.Raw? ==> x.b != 34 && x.b != 0
  {}

  lemma UnitIsText(x: Unit)
    ensures UnitText(x) != []
  {}

  lemma ClosedLiteral(s: Text)
    requires ParseString(s).Ok? && Closes(s)
    ensures var n, t := Scan(s[1..]).value, s[1..];
            && t == t[..n] + ([34] + ParseString(s).rest) && s == [34] + t && Unescape(t[..n]).Some? && |t[..n]| == n
  {
    hide Unescape;
    var n, t := Scan(s[1..]).value, s[1..];
    assert t[n..] == [34] + t[n..][1..];
  }

  lemma LiteralOf(s: Text) returns (us: Literal)
    requires ParseString(s).Ok? && Closes(s)
    ensures s == LiteralText(us) + ParseString(s).rest
  {
    var n, t, r := Scan(s[1..]).value, s[1..], ParseString(s).rest;
    ClosedLiteral(s);
    assert Scan(t) == Some(n);
    hide Scan, Unescape, ParseString, Closes;
    var units := Units(t[..n]);
    UnitsInLiteral(units, r);
    us := units;
    Bracketed([34], t[..n], [34], r);
  }

  // ----- numbers -----

  datatype AnyExp = NoExp | Exp(mark: byte, sign: Text, digits: Text)

  datatype AnyNumeral = Numeral(neg: bool, zero: bool, whole: Text, frac: Text, exp: AnyExp)

  predicate IsExp(e: AnyExp) {
    e.Exp? ==>
      && (e.mark == 101 || e.mark == 69) && (e.sign == [] || e.sign == [43] || e.sign == [45])
      && AllDigits(e.digits)
  }

  /** Numbers as cJSON takes them: a zero may stand in front of other digits, and digits may be missing behind an
      exponent mark or between a minus sign and what follows it. */
  predicate IsNumeral(x: AnyNumeral) {
    && AllDigits(x.whole) && (x.whole == [] || x.whole[0] != 48) && AllDigits(x.frac) && IsExp(x.exp)
    && (x.neg || x.zero || x.whole != [])
  }

  type Numeral = x: AnyNumeral | IsNumeral(x) witness Numeral(true, false, [], [], NoExp)

  function ExpText(e: AnyExp): Text { if e.NoExp? then [] else [e.mark] + e.sign + e.digits }

  function FracText(frac: Text): Text { if frac == [] then [] else [46] + frac }

  function NumeralText(x: Numeral): Text {
    If(x.neg, [45]) + (If(x.zero, [48]) + (x.whole + (FracText(x.frac) + ExpText(x.exp))))
  }

  /** What decimal digits mean, the last one counting for one. */
  function Value(a: Text): int {
    if a == [] then 0 else 10 * Value(a[..|a| - 1]) + (a[|a| - 1] as int - 48)
  }

  function ExpValue(e: AnyExp): int {
    if e.NoExp? then 0 else if e.sign == [45] then -Value(e.digits) else Value(e.digits)
  }

  /** All digits together are the mantissa; those behind the point lower the exponent. */
  function NumeralValue(x: Numeral): Json {
    var m := Value(x.whole + x.frac);
    Number(if x.neg then -m else m, ExpValue(x.exp) - |x.frac|)
  }

  /** What cannot go on with a number. */
  predicate Ends(s: Text) {
    var b := Head(s);
    !IsDigit(b) && b != 43 && b != 45 && b != 46 && b != 101 && b != 69
  }

  lemma {:induction false} ValIsValue(a: Text)
    ensures Val(0, a) == Value(a)
  {
    if a != [] {
      ValIsValue(a[..|a| - 1]);
      ValSnoc(0, a[..|a| - 1], a[|a| - 1]);
      assert a == a[..|a| - 1] + [a[|a| - 1]];
    }
  }

  lemma {:induction false} ValAppend(n: int, a: Text, b: Text)
    ensures Val(Val(n, a), b) == Val(n, a + b)
    decreases |a|
  {
    if a == [] {
      assert a + b == b;
    } else {
      assert (a + b)[1..] == a[1..] + b;
      ValAppend(10 * n + DigitValue(a[0]), a[1..], b);
    }
  }

  lemma HeadOfSum(a: Text, b: Text)
    ensures Head(a + b) == if a == [] then Head(b) else a[0]
  {
    if a == [] {
      assert a + b == b;
    }
  }

  lemma WholeIsRead(a: Text, rest: Text)
    requires AllDigits(a) && (a == [] || a[0] != 48) && !IsDigit(Head(rest))
    ensures IntegerPart(a + rest) == (Val(0, a), rest)
  {
    HeadOfSum(a, rest);
    ReadsVal(0, a, rest);
    assert a == [] ==> a + rest == rest;
  }

  lemma FracIsRead(n: int, frac: Text, rest: Text)
    requires AllDigits(frac) && !IsDigit(Head(rest)) && Head(rest) != 46
    ensures Fraction(n, FracText(frac) + rest) == (Val(n, frac), -|frac|, rest)
  {
    if frac == [] {
      assert FracText(frac) + rest == rest;
    } else {
      assert ([46] + frac + rest)[1..] == frac + rest;
      HeadOfSum(frac, rest);
      ReadsVal(n, frac, rest);
    }
  }

  lemma ExpIsRead(e: AnyExp, rest: Text)
    requires IsExp(e) && Ends(rest)
    ensures Exponent(ExpText(e) + rest) == (ExpValue(e), rest)
  {
    if e.NoExp? {
      assert ExpText(e) + rest == rest;
    } else {
      var t := e.sign + (e.digits + rest);
      assert (ExpText(e) + rest)[1..] == t;
      HeadOfSum(e.digits, rest);
      HeadOfSum(e.sign, e.digits + rest);
      ReadsVal(0, e.digits, rest);
      ValIsValue(e.digits);
      assert e.sign == [] ==> t == e.digits + rest;
      assert e.sign != [] ==> t[1..] == e.digits + rest;
    }
  }

  lemma SignAndZero(neg: bool, zero: bool, t: Text)
    requires zero || Head(t) != 48
    requires zero || (Head(t) != 45 && (neg || IsDigit(Head(t))))
    ensures var s := If(neg, [45]) + (If(zero, [48]) + t);
            AfterZero(AfterSign(s)) == t && (Head(s) == 45 <==> neg) && (neg || IsDigit(Head(s)))
  {
    var u := If(zero, [48]) + t;
    assert zero ==> u[1..] == t;
    assert !zero ==> u == t;
    var s := If(neg, [45]) + u;
    assert neg ==> s[1..] == u;
    assert !neg ==> s == u;
  }

  lemma NumeralRegrouped(x: Numeral, rest: Text)
    ensures NumeralText(x) + rest
         == If(x.neg, [45]) + (If(x.zero, [48]) + (x.whole + (FracText(x.frac) + (ExpText(x.exp) + rest))))
  {
    hide If, FracText, ExpText;
  }

  lemma ParsedFrom(t: Text, u: Text, a: (int, Text), b: (int, int, Text), c: (int, Text))
    requires Head(t) == 45 || IsDigit(Head(t))
    requires u == AfterZero(AfterSign(t)) && IntegerPart(u) == a && Fraction(a.0, a.1) == b && Exponent(b.2) == c
    ensures ParseNumber(t) == (Number(if Head(t) == 45 then -b.0 else b.0, b.1 + c.0), c.1)
  {}

  /** The first byte of what is left behind the parts of a number. */
  lemma PartsStart(x: Numeral, rest: Text)
    requires Ends(rest)
    ensures var e := ExpText(x.exp) + rest; var f := FracText(x.frac) + e; var w := x.whole + f;
            && !IsDigit(Head(e)) && Head(e) != 46 && !IsDigit(Head(f)) && Head(w) != 48 && Head(w) != 45
            && (x.whole != [] ==> IsDigit(Head(w)))
  {
    var e := ExpText(x.exp) + rest;
    var f := FracText(x.frac) + e;
    HeadOfSum(ExpText(x.exp), rest);
    HeadOfSum(FracText(x.frac), e);
    HeadOfSum(x.whole, f);
  }

  lemma NumeralValueIs(x: Numeral)
    ensures NumeralValue(x)
         == Number(if x.neg then -Val(Val(0, x.whole), x.frac) else Val(Val(0, x.whole), x.frac),
                   -|x.frac| + ExpValue(x.exp))
  {
    ValAppend(0, x.whole, x.frac);
    ValIsValue(x.whole + x.frac);
  }

  lemma PartsAreRead(x: Numeral, rest: Text)
    requires Ends(rest)
    ensures var e := ExpText(x.exp) + rest; var f := FracText(x.frac) + e;
            && IntegerPart(x.whole + f) == (Val(0, x.whole), f)
            && Fraction(Val(0, x.whole), f) == (Val(Val(0, x.whole), x.frac), -|x.frac|, e)
            && Exponent(e) == (ExpValue(x.exp), rest)
  {
    var e := ExpText(x.exp) + rest;
    PartsStart(x, rest);
    WholeIsRead(x.whole, FracText(x.frac) + e);
    FracIsRead(Val(0, x.whole), x.frac, e);
    ExpIsRead(x.exp, rest);
    hide *;
  }

  lemma FrontIsRead(x: Numeral, rest: Text)
    requires Ends(rest)
    ensures var s := NumeralText(x) + rest;
            && AfterZero(AfterSign(s)) == x.whole + (FracText(x.frac) + (ExpText(x.exp) + rest))
            && (Head(s) == 45 <==> x.neg) && (x.neg || IsDigit(Head(s)))
  {
    PartsStart(x, rest);
    NumeralRegrouped(x, rest);
    SignAndZero(x.neg, x.zero, x.whole + (FracText(x.frac) + (ExpText(x.exp) + rest)));
    hide AfterZero, AfterSign, NumeralText, If, FracText, ExpText;
  }

  /** Every number is read with its sign, its digits on both sides of the point, and its exponent. */
  lemma NumeralIsRead(x: Numeral, rest: Text)
    requires Ends(rest)
    ensures var s := NumeralText(x) + rest;
            (Head(s) == 45 || IsDigit(Head(s))) && ParseNumber(s) == (NumeralValue(x), rest)
  {
    var e := ExpText(x.exp) + rest;
    var f := FracText(x.frac) + e;
    FrontIsRead(x, rest);
    PartsAreRead(x, rest);
    NumeralValueIs(x);
    hide *;
    ParsedFrom(NumeralText(x) + rest, x.whole + f, (Val(0, x.whole), f),
               (Val(Val(0, x.whole), x.frac), -|x.frac|, e), (ExpValue(x.exp), rest));
  }

  /** The digits that are read off. */
  lemma {:induction false} TakeDigits(n: int, s: Text) returns (p: Text)
    ensures AllDigits(p) && s == p + ReadDigits(n, s).1 && (IsDigit(Head(s)) <==> p != [])
    decreases |s|
  {
    p := [];
    if IsDigit(Head(s)) {
      var q := TakeDigits(10 * n + DigitValue(s[0]), s[1..]);
      p := [s[0]] + q;
    }
  }

  lemma ExponentRest(s: Text, sign: Text)
    requires s != [] && (s[0] == 101 || s[0] == 69)
    requires sign == var t := s[1..]; if Head(t) == 43 || Head(t) == 45 then [t[0]] else []
    ensures |sign| < |s| && s == [s[0]] + sign + s[1 + |sign|..]
    ensures Exponent(s).1 == ReadDigits(0, s[1 + |sign|..]).1
  {
    hide ReadDigits;
    assert s[1..][|sign|..] == s[1 + |sign|..];
  }

  lemma ExpOf(s: Text) returns (e: AnyExp)
    ensures IsExp(e) && s == ExpText(e) + Exponent(s).1
  {
    e := NoExp;
    if Head(s) == 101 || Head(s) == 69 {
      var t := s[1..];
      var sign := if Head(t) == 43 || Head(t) == 45 then [t[0]] else [];
      ExponentRest(s, sign);
      hide Exponent, ReadDigits, AllDigits;
      var p := TakeDigits(0, s[1 + |sign|..]);
      e := Exp(s[0], sign, p);
      Assoc([s[0]] + sign, p, Exponent(s).1);
    }
  }

  lemma Assoc(a: Text, b: Text, c: Text)
    ensures a + (b + c) == a + b + c
  {}

  lemma FracOf(n: int, s: Text) returns (frac: Text)
    ensures AllDigits(frac) && s == FracText(frac) + Fraction(n, s).2
  {
    frac := [];
    if Head(s) == 46 && IsDigit(Head(s[1..])) {
      frac := TakeDigits(n, s[1..]);
      assert s == [46] + s[1..];
    }
  }

  lemma WholeOf(s: Text) returns (a: Text)
    ensures AllDigits(a) && (a == [] || a[0] != 48) && s == a + IntegerPart(s).1
    ensures 49 <= Head(s) <= 57 ==> a != []
  {
    a := [];
    if 49 <= Head(s) <= 57 {
      a := TakeDigits(0, s);
    }
  }

  lemma Stacked(s: Text, s1: Text, s2: Text, r1: Text, r2: Text, r3: Text, a: Text, b: Text, c: Text, d: Text, e: Text)
    requires s == a + s1 && s1 == b + s2 && s2 == c + r1 && r1 == d + r2 && r2 == e + r3
    ensures s == a + (b + (c + (d + e))) + r3
  {
    Assoc(d, e, r3);
    Assoc(c, d + e, r3);
    Assoc(b, c + (d + e), r3);
    Assoc(a, b + (c + (d + e)), r3);
  }

  lemma SignAndZeroOf(s: Text)
    requires Head(s) == 45 || IsDigit(Head(s))
    ensures s == If(Head(s) == 45, [45]) + AfterSign(s)
    ensures AfterSign(s) == If(Head(AfterSign(s)) == 48, [48]) + AfterZero(AfterSign(s))
    ensures Head(s) == 45 || Head(AfterSign(s)) == 48 || 49 <= Head(AfterZero(AfterSign(s))) <= 57
  {}

  lemma NumeralOf(s: Text) returns (x: Numeral)
    requires Head(s) == 45 || IsDigit(Head(s))
    ensures s == NumeralText(x) + ParseNumber(s).1
  {
    var s1 := AfterSign(s);
    var s2 := AfterZero(s1);
    var a := IntegerPart(s2);
    var b := Fraction(a.0, a.1);
    var r := Exponent(b.2).1;
    SignAndZeroOf(s);
    assert ParseNumber(s).1 == r;
    hide IntegerPart, Fraction, Exponent, If, FracText, ExpText, AllDigits, IsExp, ParseNumber, AfterZero, AfterSign;
    var whole := WholeOf(s2);
    var frac := FracOf(a.0, a.1);
    var e := ExpOf(b.2);
    x := Numeral(Head(s) == 45, Head(s1) == 48, whole, frac, e);
    Stacked(s, s1, s2, a.1, b.2, r, If(x.neg, [45]), If(x.zero, [48]), whole, FracText(frac), ExpText(e));
  }

  /** The printed text of an integer: its digits, none of them an idle zero. */
  lemma PrintedDigits(m: int)
    ensures var d := if m < 0 then Decimal(m)[1..] else Decimal(m);
            && d != [] && Value(d) == (if m < 0 then -m else m) && (m < 0 ==> Decimal(m)[0] == 45)
            && (forall i :: 0 <= i < |d| ==> 48 <= d[i] <= 57) && (d[0] == 48 ==> d == [48] && m == 0)
  {
    var n: nat := if m < 0 then -m else m;
    DigitsMeanNumber(n);
    ValIsValue(Digits(n));
    assert m < 0 ==> Decimal(m)[1..] == Digits(n);
    hide Value;
  }

  // ----- values -----

  /** Space as the parser skips it, or a comment as the minifier strips it. */
  datatype AnyPiece = Blank(b: byte) | Line(c: Text) | Block(c: Text)

  /** No end mark stands in a block comment before its end; its opening star may be part of an end mark. */
  predicate IsBlock(c: Text) { 0 !in c && forall i :: 0 <= i <= |c| ==> !EndMark([42] + c + [42], i) }

  predicate EndMark(s: Text, i: nat) { i + 1 < |s| && s[i] == 42 && s[i + 1] == 47 }

  predicate IsPiece(p: AnyPiece) {
    match p
    case Blank(b) => 0 < b <= 32
    case Line(c) => 0 !in c && 10 !in c
    case Block(c) => IsBlock(c)
  }

  type Piece = p: AnyPiece | IsPiece(p) witness Blank(32)

  type Gap = seq<Piece>

  function PieceText(p: Piece): Text {
    match p
    case Blank(b) => [b]
    case Line(c) => [47, 47] + c + [10]
    case Block(c) => [47, 42] + c + [42, 47]
  }

  function GapText(g: Gap): Text { if g == [] then [] else PieceText(g[0]) + GapText(g[1..]) }

  predicate AllBlank(g: Gap) { forall i :: 0 <= i < |g| ==> g[i].Blank? }

  /** A value with its tokens and with the gaps between them. */
  datatype Syntax =
    | NullWord
    | FalseWord
    | TrueWord
    | Num(x: Numeral)
    | Str(us: Literal)
    | NoItems(inner: Gap)
    | Items(items: seq<Element>)
    | NoFields(inner: Gap)
    | Fields(fields: seq<Field>)

  datatype Element = Element(before: Gap, value: Syntax, after: Gap)

  datatype Field = Field(before: Gap, key: Literal, beforeColon: Gap, afterColon: Gap, value: Syntax, after: Gap)

  function SyntaxText(t: Syntax): Text
    decreases t, 0
  {
    match t
    case NullWord => [110, 117, 108, 108]
    case FalseWord => [102, 97, 108, 115, 101]
    case TrueWord => [116, 114, 117, 101]
    case Num(x) => NumeralText(x)
    case Str(us) => LiteralText(us)
    case NoItems(g) => [91] + GapText(g) + [93]
    case Items(items) => [91] + ElementsText(items) + [93]
    case NoFields(g) => [123] + GapText(g) + [125]
    case Fields(fields) => [123] + FieldsText(fields) + [125]
  }

  function ElementText(e: Element): Text
    decreases e, 1
  {
    GapText(e.before) + SyntaxText(e.value) + GapText(e.after)
  }

  function ElementsText(items: seq<Element>): Text
    decreases items, 2
  {
    if items == [] then []
    else if |items| == 1 then ElementText(items[0])
    else ElementText(items[0]) + [44] + ElementsText(items[1..])
  }

  function FieldText(f: Field): Text
    decreases f, 1
  {
    GapText(f.before) + LiteralText(f.key) + GapText(f.beforeColon) + [58]
    + (GapText(f.afterColon) + SyntaxText(f.value) + GapText(f.after))
  }

  function FieldsText(fields: seq<Field>): Text
    decreases fields, 2
  {
    if fields == [] then []
    else if |fields| == 1 then FieldText(fields[0])
    else FieldText(fields[0]) + [44] + FieldsText(fields[1..])
  }

  function Meaning(t: Syntax): Json
    decreases t, 0
  {
    match t
    case NullWord => Null
    case FalseWord => False
    case TrueWord => True
    case Num(x) => NumeralValue(x)
    case Str(us) => String(UnitsValue(us))
    case NoItems(_) => Array([])
    case Items(items) => Array(ElementsMeaning(items))
    case NoFields(_) => Object([])
    case Fields(fields) => Object(FieldsMeaning(fields))
  }

  function ElementsMeaning(items: seq<Element>): seq<Json>
    decreases items, 2
  {
    if items == [] then [] else [Meaning(items[0].value)] + ElementsMeaning(items[1..])
  }

  function MemberOf(f: Field): Member
    decreases f, 1
  {
    Member(UnitsValue(f.key), Meaning(f.value))
  }

  function FieldsMeaning(fields: seq<Field>): seq<Member>
    decreases fields, 2
  {
    if fields == [] then []
    else [MemberOf(fields[0])] + FieldsMeaning(fields[1..])
  }

  /** No comments anywhere. */
  predicate NoComments(t: Syntax)
    decreases t, 0
  {
    match t
    case NoItems(g) => AllBlank(g)
    case NoFields(g) => AllBlank(g)
    case Items(items) => NoneInElements(items)
    case Fields(fields) => NoneInFields(fields)
    case _ => true
  }

  predicate NoneInElements(items: seq<Element>)
    decreases items, 2
  {
    items != [] ==>
      && AllBlank(items[0].before) && NoComments(items[0].value) && AllBlank(items[0].after)
      && NoneInElements(items[1..])
  }

  predicate NoneInFields(fields: seq<Field>)
    decreases fields, 2
  {
    fields != [] ==>
      var f := fields[0];
      && AllBlank(f.before) && AllBlank(f.beforeColon) && AllBlank(f.afterColon) && AllBlank(f.after)
      && NoComments(f.value)
      && NoneInFields(fields[1..])
  }

  // ----- the parser reads what is spelled -----

  /** Space between tokens is skipped. */
  lemma {:induction false} GapIsSkipped(g: Gap, s: Text)
    requires AllBlank(g)
    ensures Skip(GapText(g) + s) == Skip(s)
  {
    hide Skip;
    if g == [] {
      assert [] + s == s;
    } else {
      var more := GapText(g[1..]) + s;
      assert GapText(g) + s == [g[0].b] + more;
      SkipOne(g[0].b, more);
      GapIsSkipped(g[1..], s);
    }
  }

  /** Tokens start with no space, no comment, no closing bracket and no comma. */
  predicate StartsToken(s: Text) {
    var b := Head(s);
    b > 32 && b != 47 && b != 44 && b != 93 && b != 125
  }

  lemma ValueStarts(t: Syntax, rest: Text)
    ensures StartsToken(SyntaxText(t) + rest)
  {
    if t.Num? {
      NumeralStarts(t.x, rest);
    } else {
      assert Head(SyntaxText(t) + rest) == SyntaxText(t)[0];
    }
  }

  lemma NumeralStarts(x: Numeral, rest: Text)
    ensures StartsToken(NumeralText(x) + rest)
  {
    var w := x.whole + (FracText(x.frac) + ExpText(x.exp));
    HeadOfSum(x.whole, FracText(x.frac) + ExpText(x.exp));
    HeadOfSum(If(x.zero, [48]), w);
    HeadOfSum(If(x.neg, [45]), If(x.zero, [48]) + w);
    HeadOfSum(NumeralText(x), rest);
  }

  lemma TokenStays(s: Text)
    requires StartsToken(s)
    ensures Skip(s) == s
  {}

  /** What may stand behind a value: nothing that goes on with a number. */
  lemma GapEnds(g: Gap, b: byte, s: Text)
    requires AllBlank(g) && (b == 44 || b == 58 || b == 93 || b == 125)
    ensures Ends(GapText(g) + ([b] + s)) && Skip(GapText(g) + ([b] + s)) == [b] + s && ([b] + s)[1..] == s
  {
    GapIsSkipped(g, [b] + s);
    if g != [] {
      assert (GapText(g) + ([b] + s))[0] == g[0].b;
    } else {
      assert [] + ([b] + s) == [b] + s;
    }
  }

  lemma {:induction false} ValueIsRead(t: Syntax, rest: Text)
    requires NoComments(t) && (t.Num? ==> Ends(rest))
    ensures ParseValue(SyntaxText(t) + rest) == Ok(Meaning(t), rest)
    decreases t, 0
  {
    match t
    case Num(x) =>
      NumeralIsRead(x, rest);
      ReadsNumber(NumeralText(x) + rest);
    case Str(us) =>
      LiteralIsRead(us, rest);
      ReadsString(LiteralText(us) + rest);
    case NoItems(g) => NoItemsIsRead(g, rest);
    case NoFields(g) => NoFieldsIsRead(g, rest);
    case Items(items) =>
      if items == [] {
        NoItemsIsRead([], rest);
      } else {
        ArrayIsRead(items, rest);
      }
    case Fields(fields) =>
      if fields == [] {
        NoFieldsIsRead([], rest);
      } else {
        ObjectIsRead(fields, rest);
      }
    case _ => WordIsRead(t, rest);
  }

  lemma WordIsRead(t: Syntax, rest: Text)
    requires t.NullWord? || t.FalseWord? || t.TrueWord?
    ensures ParseValue(SyntaxText(t) + rest) == Ok(Meaning(t), rest)
  {
    ReadsLiteral(Meaning(t), 0, false, rest);
  }

  lemma NoItemsIsRead(g: Gap, rest: Text)
    requires AllBlank(g)
    ensures ParseValue([91] + GapText(g) + [93] + rest) == Ok(Array([]), rest)
  {
    GapEnds(g, 93, rest);
    Bracketed([91], GapText(g), [93], rest);
    hide *;
    ReadsNoItems(GapText(g) + ([93] + rest), rest);
  }

  lemma ReadsNoItems(body: Text, rest: Text)
    requires Skip(body) == [93] + rest
    ensures ParseValue([91] + body) == Ok(Array([]), rest)
  {
    hide ParseValue, ParseItems, Skip;
    ReadsArray(body);
    assert ([93] + rest)[1..] == rest;
  }

  lemma ReadsItems(body: Text)
    requires Head(Skip(body)) != 93
    ensures ParseValue([91] + body)
         == var r := ParseItems(body); if r.Fail? then Fail else Ok(Array(r.value), r.rest)
  {
    hide ParseValue, ParseItems, Skip;
    ReadsArray(body);
    SkipTwice(body);
    ItemsAfterSpace(Skip(body), body);
  }

  lemma NoFieldsIsRead(g: Gap, rest: Text)
    requires AllBlank(g)
    ensures ParseValue([123] + GapText(g) + [125] + rest) == Ok(Object([]), rest)
  {
    GapEnds(g, 125, rest);
    Bracketed([123], GapText(g), [125], rest);
    hide *;
    ReadsNoFields(GapText(g) + ([125] + rest), rest);
  }

  lemma ReadsNoFields(body: Text, rest: Text)
    requires Skip(body) == [125] + rest
    ensures ParseValue([123] + body) == Ok(Object([]), rest)
  {
    hide ParseValue, ParseMembers, Skip;
    ReadsObject(body);
    assert ([125] + rest)[1..] == rest;
  }

  lemma ReadsFields(body: Text)
    requires Head(Skip(body)) != 125
    ensures ParseValue([123] + body)
         == var r := ParseMembers(body); if r.Fail? then Fail else Ok(Object(r.value), r.rest)
  {
    hide ParseValue, ParseMembers, Skip;
    ReadsObject(body);
    SkipTwice(body);
    MembersAfterSpace(Skip(body), body);
  }

  lemma ArrayIsRead(items: seq<Element>, rest: Text)
    requires NoneInElements(items) && items != []
    ensures ParseValue([91] + ElementsText(items) + [93] + rest) == Ok(Array(ElementsMeaning(items)), rest)
    decreases items, 3
  {
    ElementsStart(items, [93] + rest);
    ElementsAreRead(items, rest);
    hide ParseValue, ParseItems, Skip, ElementsText, ElementsMeaning, NoneInElements;
    ReadsItems(ElementsText(items) + ([93] + rest));
    Bracketed([91], ElementsText(items), [93], rest);
  }

  lemma ObjectIsRead(fields: seq<Field>, rest: Text)
    requires NoneInFields(fields) && fields != []
    ensures ParseValue([123] + FieldsText(fields) + [125] + rest) == Ok(Object(FieldsMeaning(fields)), rest)
    decreases fields, 3
  {
    FieldsStart(fields, [125] + rest);
    FieldsAreRead(fields, rest);
    hide ParseValue, ParseMembers, Skip, FieldsText, FieldsMeaning, NoneInFields;
    ReadsFields(FieldsText(fields) + ([125] + rest));
    Bracketed([123], FieldsText(fields), [125], rest);
  }

  /** An element list starts, behind its space, with its first value. */
  lemma ElementsStart(items: seq<Element>, rest: Text)
    requires items != [] && AllBlank(items[0].before)
    ensures StartsToken(Skip(ElementsText(items) + rest))
  {
    hide SyntaxText, GapText, Skip, StartsToken;
    var e := items[0];
    var tail := if |items| == 1 then rest else [44] + ElementsText(items[1..]) + rest;
    var s := SyntaxText(e.value) + (GapText(e.after) + tail);
    assert ElementsText(items) + rest == GapText(e.before) + s;
    GapIsSkipped(e.before, s);
    ValueStarts(e.value, GapText(e.after) + tail);
    TokenStays(s);
  }

  lemma FieldsStart(fields: seq<Field>, rest: Text)
    requires fields != [] && AllBlank(fields[0].before)
    ensures StartsToken(Skip(FieldsText(fields) + rest))
  {
    hide SyntaxText, GapText, Skip, UnitsText;
    var f := fields[0];
    var tail := if |fields| == 1 then rest else [44] + FieldsText(fields[1..]) + rest;
    var more := GapText(f.beforeColon) + [58] + (GapText(f.afterColon) + SyntaxText(f.value) + GapText(f.after)) + tail;
    var s := LiteralText(f.key) + more;
    FieldRegrouped(f, tail, more);
    assert FieldsText(fields) + rest == FieldText(f) + tail;
    GapIsSkipped(f.before, s);
    assert s[0] == 34;
    TokenStays(s);
  }

  lemma FieldRegrouped(f: Field, tail: Text, more: Text)
    requires more == GapText(f.beforeColon) + [58]
                     + (GapText(f.afterColon) + SyntaxText(f.value) + GapText(f.after)) + tail
    ensures FieldText(f) + tail == GapText(f.before) + (LiteralText(f.key) + more)
    ensures more == GapText(f.beforeColon) + ([58] + (GapText(f.afterColon) + (SyntaxText(f.value)
                                                                             + (GapText(f.after) + tail))))
  {
    hide SyntaxText, GapText, LiteralText;
  }

  /** One step of ParseItems: a value with space around it, and a comma or a bracket. */
  lemma ItemsStep(s: Text, v: Json, after: Text, b: byte, more: Text)
    requires ParseValue(Skip(s)) == Ok(v, after) && Skip(after) == [b] + more && ([b] + more)[1..] == more
    ensures b == 93 ==> ParseItems(s) == Ok([v], more)
    ensures b == 44 ==>
      ParseItems(s) == var r := ParseItems(more); if r.Fail? then Fail else Ok([v] + r.value, r.rest)
  {
    hide ParseValue, Skip;
  }

  lemma ElementIsRead(e: Element, b: byte, tail: Text)
    requires AllBlank(e.before) && NoComments(e.value) && AllBlank(e.after) && (b == 44 || b == 93)
    ensures ParseValue(Skip(ElementText(e) + ([b] + tail))) == Ok(Meaning(e.value), GapText(e.after) + ([b] + tail))
    decreases e, 1
  {
    hide ParseValue, SyntaxText, GapText, Skip, Meaning, NoComments, StartsToken;
    var s := SyntaxText(e.value) + (GapText(e.after) + ([b] + tail));
    assert ElementText(e) + ([b] + tail) == GapText(e.before) + s;
    GapIsSkipped(e.before, s);
    ValueStarts(e.value, GapText(e.after) + ([b] + tail));
    TokenStays(s);
    GapEnds(e.after, b, tail);
    ValueIsRead(e.value, GapText(e.after) + ([b] + tail));
  }

  /** An element and what follows it. */
  lemma ElementThen(e: Element, b: byte, tail: Text)
    requires AllBlank(e.before) && NoComments(e.value) && AllBlank(e.after) && (b == 44 || b == 93)
    ensures var s := ElementText(e) + ([b] + tail);
            && (b == 93 ==> ParseItems(s) == Ok([Meaning(e.value)], tail))
            && (b == 44 ==>
                  ParseItems(s) == var r := ParseItems(tail);
                                   if r.Fail? then Fail else Ok([Meaning(e.value)] + r.value, r.rest))
    decreases e, 2
  {
    hide ParseItems, ParseValue, ElementText, GapText, Skip, Meaning, NoComments, Ends;
    ElementIsRead(e, b, tail);
    GapEnds(e.after, b, tail);
    ItemsStep(ElementText(e) + ([b] + tail), Meaning(e.value), GapText(e.after) + ([b] + tail), b, tail);
  }

  lemma ElementsBegin(items: seq<Element>, tail: Text)
    requires items != []
    ensures |items| == 1 ==> ElementsText(items) + tail == ElementText(items[0]) + tail
    ensures |items| > 1 ==>
      ElementsText(items) + tail == ElementText(items[0]) + ([44] + (ElementsText(items[1..]) + tail))
  {
    hide ElementText;
    if |items| > 1 {
      Bracketed(ElementText(items[0]), [44], ElementsText(items[1..]), tail);
    }
  }

  lemma ElementsMean(items: seq<Element>)
    requires items != []
    ensures ElementsMeaning(items) == [Meaning(items[0].value)] + ElementsMeaning(items[1..])
    ensures |items| == 1 ==> ElementsMeaning(items) == [Meaning(items[0].value)]
  {
    hide Meaning, UnitsValue;
  }

  lemma {:induction false} ElementsAreRead(items: seq<Element>, rest: Text)
    requires NoneInElements(items) && items != []
    ensures ParseItems(ElementsText(items) + ([93] + rest)) == Ok(ElementsMeaning(items), rest)
    decreases items, 2
  {
    ElementsMean(items);
    ElementsBegin(items, [93] + rest);
    hide ParseItems, ParseValue, ElementText, GapText, Skip, Meaning, NoComments, Ends, ElementsText, ElementsMeaning;
    if |items| == 1 {
      ElementThen(items[0], 93, rest);
    } else {
      ElementsAreRead(items[1..], rest);
      ElementThen(items[0], 44, ElementsText(items[1..]) + ([93] + rest));
    }
  }

  lemma FieldIsRead(f: Field, b: byte, tail: Text)
    requires AllBlank(f.before) && AllBlank(f.beforeColon) && AllBlank(f.afterColon)
    requires NoComments(f.value) && AllBlank(f.after) && (b == 44 || b == 125)
    ensures ParseMember(FieldText(f) + ([b] + tail))
         == Ok(MemberOf(f), GapText(f.after) + ([b] + tail))
    decreases f, 1
  {
    var after := GapText(f.after) + ([b] + tail);
    var value := SyntaxText(f.value) + after;
    var colon := [58] + (GapText(f.afterColon) + value);
    var more := GapText(f.beforeColon) + colon;
    var key := LiteralText(f.key) + more;
    assert Head(key) == 34;
    hide ParseValue, ParseString, ParseMember, SyntaxText, GapText, LiteralText, UnitsValue, Skip, Meaning, NoComments;
    FieldGrouped(f, [b] + tail, more);
    GapIsSkipped(f.before, key);
    TokenStays(key);
    LiteralIsRead(f.key, more);
    GapEnds(f.beforeColon, 58, GapText(f.afterColon) + value);
    GapIsSkipped(f.afterColon, value);
    ValueStarts(f.value, after);
    TokenStays(value);
    GapEnds(f.after, b, tail);
    ValueIsRead(f.value, after);
    MemberStep(GapText(f.before) + key, UnitsValue(f.key), more, GapText(f.afterColon) + value, Meaning(f.value),
               after);
  }

  lemma FieldGrouped(f: Field, tail: Text, more: Text)
    requires more == GapText(f.beforeColon) + ([58] + (GapText(f.afterColon) + (SyntaxText(f.value)
                                                                              + (GapText(f.after) + tail))))
    ensures FieldText(f) + tail == GapText(f.before) + (LiteralText(f.key) + more)
  {
    hide SyntaxText, GapText, LiteralText;
  }

  /** What ParseMember does with a key, a colon and a value. */
  lemma MemberStep(s: Text, k: Text, more: Text, t: Text, v: Json, rest: Text)
    requires ParseString(Skip(s)) == Ok(k, more) && Skip(more) == [58] + t && ([58] + t)[1..] == t
    requires ParseValue(Skip(t)) == Ok(v, rest)
    ensures ParseMember(s) == Ok(Member(k, v), rest)
  {
    hide ParseValue, ParseString, Skip;
  }

  lemma MembersStep(s: Text, m: Member, after: Text, b: byte, more: Text)
    requires ParseMember(s) == Ok(m, after) && Skip(after) == [b] + more && ([b] + more)[1..] == more
    ensures b == 125 ==> ParseMembers(s) == Ok([m], more)
    ensures b == 44 ==>
      ParseMembers(s) == var r := ParseMembers(more); if r.Fail? then Fail else Ok([m] + r.value, r.rest)
  {
    hide ParseMember, Skip;
  }

  /** A field and what follows it. */
  lemma FieldThen(f: Field, b: byte, tail: Text)
    requires AllBlank(f.before) && AllBlank(f.beforeColon) && AllBlank(f.afterColon)
    requires NoComments(f.value) && AllBlank(f.after) && (b == 44 || b == 125)
    ensures var s := FieldText(f) + ([b] + tail);
            && (b == 125 ==> ParseMembers(s) == Ok([MemberOf(f)], tail))
            && (b == 44 ==>
                  ParseMembers(s) == var r := ParseMembers(tail);
                                     if r.Fail? then Fail else Ok([MemberOf(f)] + r.value, r.rest))
    decreases f, 2
  {
    hide ParseMembers, ParseMember, FieldText, GapText, Skip, MemberOf, NoComments, Ends;
    FieldIsRead(f, b, tail);
    GapEnds(f.after, b, tail);
    MembersStep(FieldText(f) + ([b] + tail), MemberOf(f), GapText(f.after) + ([b] + tail), b, tail);
  }

  lemma FieldsBegin(fields: seq<Field>, tail: Text)
    requires fields != []
    ensures |fields| == 1 ==> FieldsText(fields) + tail == FieldText(fields[0]) + tail
    ensures |fields| > 1 ==>
      FieldsText(fields) + tail == FieldText(fields[0]) + ([44] + (FieldsText(fields[1..]) + tail))
  {
    hide FieldText;
    if |fields| > 1 {
      Bracketed(FieldText(fields[0]), [44], FieldsText(fields[1..]), tail);
    }
  }

  lemma FieldsMean(fields: seq<Field>)
    requires fields != []
    ensures FieldsMeaning(fields) == [MemberOf(fields[0])] + FieldsMeaning(fields[1..])
    ensures |fields| == 1 ==> FieldsMeaning(fields) == [MemberOf(fields[0])]
  {
    hide Meaning, UnitsValue;
  }

  lemma {:induction false} FieldsAreRead(fields: seq<Field>, rest: Text)
    requires NoneInFields(fields) && fields != []
    ensures ParseMembers(FieldsText(fields) + ([125] + rest)) == Ok(FieldsMeaning(fields), rest)
    decreases fields, 2
  {
    FieldsMean(fields);
    FieldsBegin(fields, [125] + rest);
    hide ParseMembers, ParseMember, FieldText, GapText, Skip, MemberOf, NoComments, Ends;
    hide FieldsText, FieldsMeaning;
    if |fields| == 1 {
      FieldThen(fields[0], 125, rest);
    } else {
      FieldsAreRead(fields[1..], rest);
      FieldThen(fields[0], 44, FieldsText(fields[1..]) + ([125] + rest));
    }
  }

  // ----- whatever the parser accepts is spelled -----

  lemma {:induction false} GapOf(s: Text) returns (g: Gap)
    ensures AllBlank(g) && s == GapText(g) + Skip(s)
    decreases |s|
  {
    g := [];
    if Head(s) != 0 && Head(s) <= 32 {
      var more := GapOf(s[1..]);
      g := [Blank(s[0])] + more;
      assert g[1..] == more;
    }
  }

  /** A literal with something behind it has its closing quote. */
  lemma MustClose(s: Text)
    requires ParseString(s).Ok? && Head(Skip(ParseString(s).rest)) != 0
    ensures Closes(s)
  {}

  lemma WordOf(s: Text) returns (t: Syntax)
    requires Starts(s, NULL_TEXT) || Starts(s, FALSE_TEXT) || Starts(s, TRUE_TEXT)
    ensures NoComments(t) && s == SyntaxText(t) + ParseValue(s).rest
  {
    t := if Starts(s, NULL_TEXT) then NullWord else if Starts(s, FALSE_TEXT) then FalseWord else TrueWord;
  }

  lemma AtomOf(s: Text) returns (t: Syntax)
    requires Head(s) == 34 || Head(s) == 45 || IsDigit(Head(s))
    requires ParseValue(s).Ok? && (Head(s) == 34 ==> Closes(s))
    ensures NoComments(t) && s == SyntaxText(t) + ParseValue(s).rest
  {
    hide ParseString, ParseNumber, ParseValue, NumeralText, LiteralText, Closes;
    if Head(s) == 34 {
      ReadsString(s);
      var us := LiteralOf(s);
      t := Str(us);
    } else {
      ReadsNumber(s);
      var x := NumeralOf(s);
      t := Num(x);
    }
  }

  /** A value as it was read: only a literal at the end of the text may lack its closing quote. */
  lemma {:induction false} ValueOf(s: Text) returns (t: Syntax)
    requires ParseValue(s).Ok? && (Head(s) == 34 ==> Closes(s))
    ensures NoComments(t) && s == SyntaxText(t) + ParseValue(s).rest
    decreases |s|, 1
  {
    hide ParseString, ParseNumber, Skip, ParseItems, ParseMembers, SyntaxText, NoComments, Closes;
    if Starts(s, NULL_TEXT) || Starts(s, FALSE_TEXT) || Starts(s, TRUE_TEXT) {
      t := WordOf(s);
    } else if Head(s) == 34 || Head(s) == 45 || IsDigit(Head(s)) {
      t := AtomOf(s);
    } else if Head(s) == 91 {
      t := ArrayOf(s);
    } else {
      t := ObjectOf(s);
    }
  }

  lemma Bracketed(a: Text, b: Text, c: Text, d: Text)
    ensures a + (b + (c + d)) == a + b + c + d
  {}

  lemma EmptyIs(g: Gap)
    ensures SyntaxText(NoItems(g)) == [91] + GapText(g) + [93] && NoComments(NoItems(g)) == AllBlank(g)
    ensures SyntaxText(NoFields(g)) == [123] + GapText(g) + [125] && NoComments(NoFields(g)) == AllBlank(g)
  {}

  lemma ItemsAre(items: seq<Element>)
    ensures SyntaxText(Items(items)) == [91] + ElementsText(items) + [93]
    ensures NoComments(Items(items)) == NoneInElements(items)
  {}

  lemma FieldsAre(fields: seq<Field>)
    ensures SyntaxText(Fields(fields)) == [123] + FieldsText(fields) + [125]
    ensures NoComments(Fields(fields)) == NoneInFields(fields)
  {}

  lemma ArrayOf(s: Text) returns (t: Syntax)
    requires ParseValue(s).Ok? && Head(s) == 91
    ensures NoComments(t) && s == SyntaxText(t) + ParseValue(s).rest
    decreases |s|, 0
  {
    var body := s[1..];
    var rest := ParseValue(s).rest;
    var inner := Skip(body);
    assert s == [91] + body;
    hide ParseValue, ParseItems, Skip, NoComments, SyntaxText, ElementsText, GapText, AllBlank, NoneInElements;
    if Head(inner) == 93 {
      var g := GapOf(body);
      assert inner == [93] + inner[1..];
      ReadsNoItems(body, inner[1..]);
      t := NoItems(g);
      EmptyIs(g);
      Bracketed([91], GapText(g), [93], rest);
    } else {
      ReadsItems(body);
      var items := ElementsOf(body);
      t := Items(items);
      ItemsAre(items);
      Bracketed([91], ElementsText(items), [93], rest);
    }
  }

  lemma ObjectOf(s: Text) returns (t: Syntax)
    requires ParseValue(s).Ok? && Head(s) == 123
    ensures NoComments(t) && s == SyntaxText(t) + ParseValue(s).rest
    decreases |s|, 0
  {
    var body := s[1..];
    var rest := ParseValue(s).rest;
    var inner := Skip(body);
    assert s == [123] + body;
    hide ParseValue, ParseMembers, Skip, NoComments, SyntaxText, FieldsText, GapText, AllBlank, NoneInFields;
    if Head(inner) == 125 {
      var g := GapOf(body);
      assert inner == [125] + inner[1..];
      ReadsNoFields(body, inner[1..]);
      t := NoFields(g);
      EmptyIs(g);
      Bracketed([123], GapText(g), [125], rest);
    } else {
      ReadsFields(body);
      var fields := FieldsOf(body);
      t := Fields(fields);
      FieldsAre(fields);
      Bracketed([123], FieldsText(fields), [125], rest);
    }
  }

  /** The first element of a list with the space around it, and what it leaves behind that. */
  lemma ElementOf(s: Text) returns (e: Element)
    requires ParseItems(s).Ok?
    ensures AllBlank(e.before) && NoComments(e.value) && AllBlank(e.after)
    ensures s == ElementText(e) + Skip(ParseValue(Skip(s)).rest)
    decreases |s|, 2
  {
    var v := ParseValue(Skip(s));
    if Head(Skip(s)) == 34 {
      ReadsString(Skip(s));
      MustClose(Skip(s));
    }
    hide ParseValue, ParseString, Closes, Skip;
    var before := GapOf(s);
    var value := ValueOf(Skip(s));
    var after := GapOf(v.rest);
    e := Element(before, value, after);
    hide GapText, SyntaxText;
    Bracketed(GapText(before), SyntaxText(value), GapText(after), Skip(v.rest));
  }

  lemma {:induction false} ElementsOf(s: Text) returns (items: seq<Element>)
    requires ParseItems(s).Ok?
    ensures NoneInElements(items) && items != [] && s == ElementsText(items) + ([93] + ParseItems(s).rest)
    decreases |s|, 3
  {
    var t := Skip(ParseValue(Skip(s)).rest);
    assert Head(t) == 44 || Head(t) == 93;
    assert t == [Head(t)] + t[1..];
    hide ParseValue, Skip;
    var e := ElementOf(s);
    items := [e];
    if Head(t) == 44 {
      var more := ElementsOf(t[1..]);
      items := [e] + more;
      assert items[1..] == more;
    }
    hide ParseItems, ElementText, NoComments;
    ElementsBegin(items, [93] + ParseItems(s).rest);
  }

  /** A member up to its value. */
  lemma FieldOf(s: Text) returns (f: Field)
    requires ParseMember(s).Ok? && Head(Skip(ParseMember(s).rest)) != 0
    ensures AllBlank(f.before) && AllBlank(f.beforeColon) && AllBlank(f.afterColon) && NoComments(f.value)
    ensures AllBlank(f.after) && s == FieldText(f) + Skip(ParseMember(s).rest)
    decreases |s|, 2
  {
    var k := ParseString(Skip(s));
    var c := Skip(k.rest);
    var v := Skip(c[1..]);
    var rest := ParseMember(s).rest;
    assert c == [58] + c[1..];
    MustClose(Skip(s));
    if Head(v) == 34 {
      ReadsString(v);
      MustClose(v);
    }
    hide ParseValue, ParseString, ParseMember, Closes, Skip;
    var before := GapOf(s);
    var key := LiteralOf(Skip(s));
    var beforeColon := GapOf(k.rest);
    var afterColon := GapOf(c[1..]);
    var value := ValueOf(v);
    var after := GapOf(rest);
    f := Field(before, key, beforeColon, afterColon, value, after);
    hide GapText, SyntaxText, LiteralText;
    FieldGrouped(f, Skip(rest), k.rest);
  }

  lemma {:induction false} FieldsOf(s: Text) returns (fields: seq<Field>)
    requires ParseMembers(s).Ok?
    ensures NoneInFields(fields) && fields != [] && s == FieldsText(fields) + ([125] + ParseMembers(s).rest)
    decreases |s|, 3
  {
    var t := Skip(ParseMember(s).rest);
    assert Head(t) == 44 || Head(t) == 125;
    assert t == [Head(t)] + t[1..];
    hide ParseMember, Skip;
    var f := FieldOf(s);
    fields := [f];
    if Head(t) == 44 {
      var more := FieldsOf(t[1..]);
      fields := [f] + more;
      assert fields[1..] == more;
    }
    hide ParseMembers, FieldText, NoComments;
    FieldsBegin(fields, [125] + ParseMembers(s).rest);
  }

  // ----- whole documents -----

  datatype Document = Document(before: Gap, value: Syntax, after: Gap)

  function DocumentText(d: Document): Text { GapText(d.before) + SyntaxText(d.value) + GapText(d.after) }

  predicate Uncommented(d: Document) { AllBlank(d.before) && NoComments(d.value) && AllBlank(d.after) }

  /** A document is read to the end of the text, with its meaning. */
  lemma DocumentIsRead(d: Document, end: Text)
    requires Uncommented(d) && Head(end) == 0
    ensures ParseDocument(DocumentText(d) + end, true) == Ok(Meaning(d.value), end)
  {
    var after := GapText(d.after) + end;
    var s := SyntaxText(d.value) + after;
    Bracketed(GapText(d.before), SyntaxText(d.value), GapText(d.after), end);
    GapIsSkipped(d.before, s);
    ValueStarts(d.value, after);
    TokenStays(s);
    GapIsSkipped(d.after, end);
    SkipNothing(end);
    assert Ends(after) by {
      if d.after != [] {
        assert after[0] == d.after[0].b;
      } else {
        assert after == end;
      }
    }
    ValueIsRead(d.value, after);
    hide ParseValue, SyntaxText, GapText, Meaning;
  }

  /** Without the demand that nothing follows, reading stops right behind the value. */
  lemma FrontIsEnough(before: Gap, t: Syntax, rest: Text)
    requires AllBlank(before) && NoComments(t) && (t.Num? ==> Ends(rest))
    ensures ParseDocument(GapText(before) + (SyntaxText(t) + rest), false) == Ok(Meaning(t), rest)
  {
    GapIsSkipped(before, SyntaxText(t) + rest);
    ValueStarts(t, rest);
    TokenStays(SyntaxText(t) + rest);
    ValueIsRead(t, rest);
    hide ParseValue, SyntaxText, GapText, Meaning;
  }

  /** The whole text is a literal without closing quote, which the parser accepts as well. */
  predicate OpenLiteral(s: Text) { Head(Skip(s)) == 34 && !Closes(Skip(s)) }

  lemma DocumentOf(s: Text) returns (d: Document, end: Text)
    requires ParseDocument(s, true).Ok? && !OpenLiteral(s)
    ensures Uncommented(d) && s == DocumentText(d) + end && Head(end) == 0
  {
    var r := ParseValue(Skip(s)).rest;
    end := Skip(r);
    hide ParseValue, Closes;
    var before := GapOf(s);
    var value := ValueOf(Skip(s));
    var after := GapOf(r);
    d := Document(before, value, after);
    hide GapText, SyntaxText, Skip;
    Bracketed(GapText(before), SyntaxText(value), GapText(after), end);
  }

  lemma BackPart(s: Text, a: Text, b: Text)
    requires 0 !in s && s == a + b
    ensures 0 !in b
  {
    assert forall i :: 0 <= i < |b| ==> s[|a| + i] == b[i];
  }

  /** cJSON accepts a text to its end if and only if it is a document, or a lone literal without closing quote; and
      it reads a document's meaning. */
  lemma AcceptsDocuments(s: Text)
    requires 0 !in s && !OpenLiteral(s)
    ensures ParseDocument(s, true).Ok? <==> exists d :: Uncommented(d) && DocumentText(d) == s
    ensures forall d :: Uncommented(d) && DocumentText(d) == s ==> ParseDocument(s, true) == Ok(Meaning(d.value), [])
  {
    hide ParseDocument, OpenLiteral, DocumentText;
    if ParseDocument(s, true).Ok? {
      var d, end := DocumentOf(s);
      BackPart(s, DocumentText(d), end);
      assert DocumentText(d) + [] == DocumentText(d);
    }
    forall d | Uncommented(d) && DocumentText(d) == s
      ensures ParseDocument(s, true) == Ok(Meaning(d.value), [])
    {
      DocumentIsRead(d, []);
      assert DocumentText(d) + [] == DocumentText(d);
    }
  }

  // ----- the same tokens with other gaps -----

  /** The tokens with every gap replaced. */
  function Regapped(t: Syntax, f: Gap -> Gap): Syntax
    decreases t, 0
  {
    match t
    case NoItems(g) => NoItems(f(g))
    case NoFields(g) => NoFields(f(g))
    case Items(items) => Items(RegappedElements(items, f))
    case Fields(fields) => Fields(RegappedFields(fields, f))
    case _ => t
  }

  function RegappedElements(items: seq<Element>, f: Gap -> Gap): seq<Element>
    decreases items, 2
  {
    if items == [] then []
    else
      var e := items[0];
      [Element(f(e.before), Regapped(e.value, f), f(e.after))] + RegappedElements(items[1..], f)
  }

  function RegappedFields(fields: seq<Field>, f: Gap -> Gap): seq<Field>
    decreases fields, 2
  {
    if fields == [] then []
    else
      var d := fields[0];
      [Field(f(d.before), d.key, f(d.beforeColon), f(d.afterColon), Regapped(d.value, f), f(d.after))]
      + RegappedFields(fields[1..], f)
  }

  function RegappedDocument(d: Document, f: Gap -> Gap): Document {
    Document(f(d.before), Regapped(d.value, f), f(d.after))
  }

  /** Gaps mean nothing. */
  lemma {:induction false} RegappedMeans(t: Syntax, f: Gap -> Gap)
    ensures Meaning(Regapped(t, f)) == Meaning(t)
    ensures (forall g :: AllBlank(f(g))) ==> NoComments(Regapped(t, f))
    decreases t, 0
  {
    match t
    case Items(items) => RegappedElementsMean(items, f);
    case Fields(fields) => RegappedFieldsMean(fields, f);
    case _ =>
  }

  lemma {:induction false} RegappedElementsMean(items: seq<Element>, f: Gap -> Gap)
    ensures ElementsMeaning(RegappedElements(items, f)) == ElementsMeaning(items)
    ensures (forall g :: AllBlank(f(g))) ==> NoneInElements(RegappedElements(items, f))
    decreases items, 2
  {
    hide AllBlank;
    if items != [] {
      RegappedMeans(items[0].value, f);
      RegappedElementsMean(items[1..], f);
      assert RegappedElements(items, f)[1..] == RegappedElements(items[1..], f);
    }
  }

  lemma {:induction false} RegappedFieldsMean(fields: seq<Field>, f: Gap -> Gap)
    ensures FieldsMeaning(RegappedFields(fields, f)) == FieldsMeaning(fields)
    ensures (forall g :: AllBlank(f(g))) ==> NoneInFields(RegappedFields(fields, f))
    decreases fields, 2
  {
    hide AllBlank, UnitsValue;
    if fields != [] {
      RegappedMeans(fields[0].value, f);
      RegappedFieldsMean(fields[1..], f);
      assert RegappedFields(fields, f)[1..] == RegappedFields(fields[1..], f);
    }
  }
}
