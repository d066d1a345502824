/** cJSON_Minify, which strips space and comments in place, keeps what the text means. */
module JsonMinify {
  import opened Wrappers
  import opened Bytes
  import opened JsonValue
  import opened JsonParse
  import opened JsonString
  import opened JsonRoundTrip
  import opened JsonSyntax

  const SLASH: byte := 47
  const STAR: byte := 42

  predicate IsSpace(b: byte) { b == 32 || b == 9 || b == 13 || b == 10 }

  /** What is left behind a double-slash comment: its line end stays. */
  function AfterLine(s: Text): (r: Text)
    ensures |r| <= |s| && (Head(r) == 0 || Head(r) == 10)
    ensures Head(s) != 0 && Head(s) != 10 ==> |r| < |s|
  {
    if Head(s) == 0 || Head(s) == 10 then s else AfterLine(s[1..])
  }

  /** What is left behind a block comment, if it is closed. */
  function AfterComment(s: Text): (r: Option<Text>)
    ensures r.Some? ==> |r.value| + 2 <= |s|
  {
    if Head(s) == 0 then None
    else if s[0] == STAR && Head(s[1..]) == SLASH then Some(s[2..])
    else AfterComment(s[1..])
  }

  /** The length of the literal content behind an opening quote, if it has a closing one. */
  function LiteralLength(t: Text): (r: Option<nat>)
    ensures r.Some? ==> r.value < |t| && t[r.value] == QUOTE
  {
    if Scan(t).Some? && Head(t[Scan(t).value..]) == QUOTE then Scan(t) else None
  }

  /** All literals and all block comments are closed. */
  predicate Closed(s: Text)
    decreases |s|
  {
    if Head(s) == 0 then true
    else if s[0] == SLASH && Head(s[1..]) == SLASH then Closed(AfterLine(s))
    else if s[0] == SLASH && Head(s[1..]) == STAR then AfterComment(s).Some? && Closed(AfterComment(s).value)
    else if s[0] == QUOTE then LiteralLength(s[1..]).Some? && Closed(s[LiteralLength(s[1..]).value + 2..])
    else Closed(s[1..])
  }

  /** The minified text. */
  function Minified(s: Text): Text
    requires Closed(s)
    decreases |s|
  {
    if Head(s) == 0 then []
    else if IsSpace(s[0]) then Minified(s[1..])
    else if s[0] == SLASH && Head(s[1..]) == SLASH then Minified(AfterLine(s))
    else if s[0] == SLASH && Head(s[1..]) == STAR then Minified(AfterComment(s).value)
    else if s[0] == QUOTE then
      var n := LiteralLength(s[1..]).value + 2;
      s[..n] + Minified(s[n..])
    else [s[0]] + Minified(s[1..])
  }

  // ----- minifying formatted text gives the unformatted one -----

  /** Bytes that minifying keeps and that start nothing. */
  predicate Plain(b: byte) { b != 0 && !IsSpace(b) && b != SLASH && b != QUOTE }

  lemma {:induction false} KeepsPlain(a: Text, rest: Text)
    requires Closed(rest) && forall i :: 0 <= i < |a| ==> Plain(a[i])
    ensures Closed(a + rest) && Minified(a + rest) == a + Minified(rest)
    decreases |a|
  {
    if a == [] {
      assert a + rest == rest;
    } else {
      assert (a + rest)[1..] == a[1..] + rest;
      KeepsPlain(a[1..], rest);
      assert a == [a[0]] + a[1..];
    }
  }

  lemma DropsSpace(b: byte, rest: Text)
    requires IsSpace(b) && Closed(rest)
    ensures Closed([b] + rest) && Minified([b] + rest) == Minified(rest)
  {
    assert ([b] + rest)[1..] == rest;
  }

  lemma {:induction false} DropsTabs(n: nat, rest: Text)
    requires Closed(rest)
    ensures Closed(Tabs(n) + rest) && Minified(Tabs(n) + rest) == Minified(rest)
  {
    if n == 0 {
      assert Tabs(0) + rest == rest;
    } else {
      DropsTabs(n - 1, rest);
      DropsSpace(TAB, Tabs(n - 1) + rest);
      assert Tabs(n) + rest == [TAB] + (Tabs(n - 1) + rest);
    }
  }

  lemma KeepsLiteral(c: Text, rest: Text)
    requires Scan(c + [QUOTE] + rest) == Some(|c|) && Closed(rest)
    ensures var s := [QUOTE] + c + [QUOTE];
            Closed(s + rest) && Minified(s + rest) == s + Minified(rest)
  {
    var s := [QUOTE] + c + [QUOTE];
    var t := s + rest;
    assert t[1..] == c + [QUOTE] + rest;
    assert t[1..][|c|..] == [QUOTE] + rest;
    assert t[|c| + 2..] == rest && t[..|c| + 2] == s;
  }

  lemma KeepsString(s: Text, rest: Text)
    requires 0 !in s && Closed(rest)
    ensures Closed(PrintString(s) + rest) && Minified(PrintString(s) + rest) == PrintString(s) + Minified(rest)
  {
    ScanFindsEnd(s, rest);
    KeepsLiteral(Escape(s), rest);
  }

  lemma KeepsNumber(m: int, rest: Text)
    requires Closed(rest)
    ensures Closed(Decimal(m) + rest) && Minified(Decimal(m) + rest) == Decimal(m) + Minified(rest)
  {
    var n: nat := if m < 0 then -m else m;
    DigitsMeanNumber(n);
    KeepsPlain(Decimal(m), rest);
  }

  lemma {:induction false} MinifiedItems(items: seq<Json>, depth: nat, rest: Text)
    requires (forall i :: 0 <= i < |items| ==> Printable(items[i])) && Closed(rest)
    ensures var p := PrintItems(items, depth, true) + rest;
            Closed(p) && Minified(p) == PrintItems(items, depth, false) + Minified(rest)
    decreases items, 1
  {
    hide Printable, Print, Closed, Minified;
    if items == [] {
      assert [] + rest == rest;
    } else if |items| == 1 {
      MinifiedPrint(items[0], depth, rest);
    } else {
      var more := PrintItems(items[1..], depth, true) + rest;
      MinifiedItems(items[1..], depth, rest);
      DropsSpace(32, more);
      KeepsPlain([COMMA], [32] + more);
      MinifiedPrint(items[0], depth, [COMMA] + ([32] + more));
      var a, b := Print(items[0], depth, true), Print(items[0], depth, false);
      assert PrintItems(items, depth, true) + rest == a + ([COMMA] + ([32] + more));
      assert PrintItems(items, depth, false) == b + [COMMA] + PrintItems(items[1..], depth, false);
    }
  }

  lemma MinifiedMember(m: Member, depth: nat, rest: Text)
    requires 0 !in m.key && Printable(m.value) && Closed(rest)
    ensures var p := PrintMember(m, depth, true) + rest;
            Closed(p) && Minified(p) == PrintMember(m, depth, false) + Minified(rest)
    decreases m, 1
  {
    hide Printable, Print, PrintString, Closed, Minified;
    var value := Print(m.value, depth, true) + rest;
    MinifiedPrint(m.value, depth, rest);
    DropsSpace(TAB, value);
    KeepsPlain([COLON], [TAB] + value);
    KeepsString(m.key, [COLON] + ([TAB] + value));
    DropsTabs(depth, PrintString(m.key) + ([COLON] + ([TAB] + value)));
    assert PrintMember(m, depth, true) + rest == Tabs(depth) + (PrintString(m.key) + ([COLON] + ([TAB] + value)));
    assert PrintMember(m, depth, false) == PrintString(m.key) + [COLON] + Print(m.value, depth, false);
  }

  lemma {:induction false} MinifiedMembers(members: seq<Member>, depth: nat, rest: Text)
    requires forall i :: 0 <= i < |members| ==> 0 !in members[i].key && Printable(members[i].value)
    requires Closed(rest)
    ensures var p := PrintMembers(members, depth, true) + rest;
            Closed(p) && Minified(p) == PrintMembers(members, depth, false) + Minified(rest)
    decreases members, 2
  {
    hide Printable, PrintMember, Closed, Minified;
    if members == [] {
      assert [] + rest == rest;
    } else {
      var a, b := PrintMember(members[0], depth, true), PrintMember(members[0], depth, false);
      if |members| == 1 {
        DropsSpace(NEWLINE, rest);
        MinifiedMember(members[0], depth, [NEWLINE] + rest);
        assert a + [NEWLINE] + rest == a + ([NEWLINE] + rest);
        assert b + [] == b;
      } else {
        var more := PrintMembers(members[1..], depth, true) + rest;
        MinifiedMembers(members[1..], depth, rest);
        DropsSpace(NEWLINE, more);
        KeepsPlain([COMMA], [NEWLINE] + more);
        MinifiedMember(members[0], depth, [COMMA] + ([NEWLINE] + more));
        assert PrintMembers(members, depth, true) + rest == a + ([COMMA] + ([NEWLINE] + more));
        assert PrintMembers(members, depth, false) == b + [COMMA] + PrintMembers(members[1..], depth, false);
      }
    }
  }

  lemma MinifiedPrintedArray(items: seq<Json>, depth: nat, rest: Text)
    requires (forall i :: 0 <= i < |items| ==> Printable(items[i])) && Closed(rest)
    ensures var p := Print(Array(items), depth, true) + rest;
            Closed(p) && Minified(p) == Print(Array(items), depth, false) + Minified(rest)
    decreases items, 2
  {
    hide Printable, Closed, Minified, PrintItems;
    KeepsPlain([CLOSE_ARRAY], rest);
    var end := [CLOSE_ARRAY] + rest;
    MinifiedItems(items, depth + 1, end);
    KeepsPlain([OPEN_ARRAY], PrintItems(items, depth + 1, true) + end);
    assert Print(Array(items), depth, true) + rest == [OPEN_ARRAY] + (PrintItems(items, depth + 1, true) + end);
  }

  lemma MinifiedPrintedObject(members: seq<Member>, depth: nat, rest: Text)
    requires (forall i :: 0 <= i < |members| ==> 0 !in members[i].key && Printable(members[i].value)) && Closed(rest)
    ensures var p := Print(Object(members), depth, true) + rest;
            Closed(p) && Minified(p) == Print(Object(members), depth, false) + Minified(rest)
    decreases members, 3
  {
    hide Printable, Closed, Minified, PrintMembers;
    KeepsPlain([CLOSE_OBJECT], rest);
    var end := Tabs(depth) + ([CLOSE_OBJECT] + rest);
    DropsTabs(depth, [CLOSE_OBJECT] + rest);
    MinifiedMembers(members, depth + 1, end);
    var body := PrintMembers(members, depth + 1, true) + end;
    DropsSpace(NEWLINE, body);
    KeepsPlain([OPEN_OBJECT], [NEWLINE] + body);
    assert Print(Object(members), depth, true) + rest == [OPEN_OBJECT] + ([NEWLINE] + body);
  }

  /** Minifying the formatted text of a tree gives its unformatted text, byte for byte. */
  lemma {:induction false} MinifiedPrint(t: Json, depth: nat, rest: Text)
    requires Printable(t) && Closed(rest)
    ensures var p := Print(t, depth, true) + rest;
            Closed(p) && Minified(p) == Print(t, depth, false) + Minified(rest)
    decreases t, 0
  {
    hide Closed, Minified;
    match t
    case Number(m, _) => KeepsNumber(m, rest);
    case String(s) => KeepsString(s, rest);
    case Array(items) => MinifiedPrintedArray(items, depth, rest);
    case Object(members) => MinifiedPrintedObject(members, depth, rest);
    case _ => KeepsPlain(Print(t, depth, true), rest);
  }

  lemma MinifyUnformats(t: Json)
    requires Printable(t)
    ensures Closed(Print(t, 0, true)) && Minified(Print(t, 0, true)) == Print(t, 0, false)
  {
    MinifiedPrint(t, 0, []);
    assert Print(t, 0, true) + [] == Print(t, 0, true) && Print(t, 0, false) + [] == Print(t, 0, false);
  }

  // ----- comments go -----

  lemma {:induction false} AfterLineIs(c: Text, rest: Text)
    requires 0 !in c && 10 !in c
    ensures AfterLine(c + [10] + rest) == [10] + rest && AfterLine(c) == []
    decreases |c|
  {
    if c == [] {
      assert [] + [10] + rest == [10] + rest;
    } else {
      assert (c + [10] + rest)[1..] == c[1..] + [10] + rest;
      AfterLineIs(c[1..], rest);
    }
  }

  /** A double-slash comment goes with its line end, and nothing else goes. */
  lemma LineCommentGoes(c: Text, rest: Text)
    requires 0 !in c && 10 !in c && Closed(rest)
    ensures var s := [47, 47] + c + [10] + rest; Closed(s) && Minified(s) == Minified(rest)
    ensures Closed([47, 47] + c) && Minified([47, 47] + c) == []
  {
    var s := [47, 47] + c + [10] + rest;
    assert [47, 47] + c + [10] + rest == ([47, 47] + c) + [10] + rest;
    AfterLineIs([47, 47] + c, rest);
    DropsSpace(10, rest);
  }

  lemma {:induction false} AfterCommentIs(u: Text, rest: Text)
    requires 0 !in u && u != [] && u[|u| - 1] == 42 && forall i :: 0 <= i < |u| ==> !EndMark(u, i)
    ensures AfterComment(u + [47] + rest) == Some(rest)
    decreases |u|
  {
    var s := u + [47] + rest;
    assert s[1..] == u[1..] + [47] + rest;
    if |u| == 1 {
      assert s[2..] == rest;
    } else {
      assert !EndMark(u, 0);
      forall i | 0 <= i < |u| - 1
        ensures !EndMark(u[1..], i)
      {
        assert !EndMark(u, i + 1);
      }
      AfterCommentIs(u[1..], rest);
    }
  }

  /** A block comment goes up to the first end mark, which may use its opening star. */
  lemma BlockCommentGoes(c: Text, rest: Text)
    requires IsBlock(c) && Closed(rest)
    ensures var s := [47, 42] + c + [42, 47] + rest; Closed(s) && Minified(s) == Minified(rest)
  {
    var u := [42] + c + [42];
    var s := [47, 42] + c + [42, 47] + rest;
    assert s[1..] == u + [47] + rest;
    assert s[0] == 47 && s[1] == 42;
    AfterCommentIs(u, rest);
  }

  /** Of a gap only space of other kinds than the four is left. */
  function StripGap(g: Gap): Gap {
    if g == [] then []
    else (if g[0].Blank? && !IsSpace(g[0].b) then [g[0]] else []) + StripGap(g[1..])
  }

  lemma {:induction false} StrippedIsBlank(g: Gap)
    ensures AllBlank(StripGap(g))
  {
    if g != [] {
      StrippedIsBlank(g[1..]);
    }
  }

  function KeptOf(p: Piece): Text { if p.Blank? && !IsSpace(p.b) then [p.b] else [] }

  lemma PieceGoes(p: Piece, rest: Text)
    requires Closed(rest)
    ensures Closed(PieceText(p) + rest)
    ensures Minified(PieceText(p) + rest) == KeptOf(p) + Minified(rest)
  {
    match p
    case Blank(b) =>
      if IsSpace(b) {
        DropsSpace(b, rest);
      } else {
        KeepsPlain([b], rest);
      }
    case Line(c) => LineCommentGoes(c, rest);
    case Block(c) => BlockCommentGoes(c, rest);
  }

  lemma GapFront(g: Gap, rest: Text)
    requires g != []
    ensures GapText(g) + rest == PieceText(g[0]) + (GapText(g[1..]) + rest)
  {
    hide PieceText;
  }

  lemma {:induction false} MinifiedGap(g: Gap, rest: Text)
    requires Closed(rest)
    ensures Closed(GapText(g) + rest) && Minified(GapText(g) + rest) == GapText(StripGap(g)) + Minified(rest)
  {
    hide Closed, Minified, PieceText, IsSpace;
    if g == [] {
      assert [] + rest == rest && [] + Minified(rest) == Minified(rest);
    } else {
      GapFront(g, rest);
      StrippedText(g);
      hide GapText, StripGap;
      MinifiedGap(g[1..], rest);
      PieceGoes(g[0], GapText(g[1..]) + rest);
      Assoc(KeptOf(g[0]), GapText(StripGap(g[1..])), Minified(rest));
    }
  }

  lemma StrippedText(g: Gap)
    requires g != []
    ensures GapText(StripGap(g)) == KeptOf(g[0]) + GapText(StripGap(g[1..]))
  {
    var tail := StripGap(g[1..]);
    if g[0].Blank? && !IsSpace(g[0].b) {
      assert ([g[0]] + tail)[1..] == tail;
    } else {
      assert [] + tail == tail;
    }
  }

  // ----- tokens stay -----

  function Stripped(t: Syntax): Syntax { Regapped(t, StripGap) }

  predicate AllPlain(a: Text) { forall i :: 0 <= i < |a| ==> Plain(a[i]) }

  lemma NumeralIsPlain(x: Numeral)
    ensures AllPlain(If(x.neg, [45])) && AllPlain(If(x.zero, [48])) && AllPlain(x.whole)
    ensures AllPlain(FracText(x.frac)) && AllPlain(ExpText(x.exp))
  {}

  lemma PlainJoin(a: Text, b: Text)
    requires AllPlain(a) && AllPlain(b)
    ensures AllPlain(a + b)
  {}

  lemma MinifiedNumeral(x: Numeral, rest: Text)
    requires Closed(rest)
    ensures Closed(NumeralText(x) + rest) && Minified(NumeralText(x) + rest) == NumeralText(x) + Minified(rest)
  {
    NumeralIsPlain(x);
    assert AllPlain(NumeralText(x)) by {
      hide AllPlain, FracText, ExpText;
      PlainJoin(FracText(x.frac), ExpText(x.exp));
      PlainJoin(x.whole, FracText(x.frac) + ExpText(x.exp));
      PlainJoin(If(x.zero, [48]), x.whole + (FracText(x.frac) + ExpText(x.exp)));
      PlainJoin(If(x.neg, [45]), If(x.zero, [48]) + (x.whole + (FracText(x.frac) + ExpText(x.exp))));
    }
    hide NumeralText, Closed, Minified;
    KeepsPlain(NumeralText(x), rest);
  }

  lemma MinifiedLiteral(us: Literal, rest: Text)
    requires Closed(rest)
    ensures Closed(LiteralText(us) + rest) && Minified(LiteralText(us) + rest) == LiteralText(us) + Minified(rest)
  {
    ScanUnits(us, rest);
    assert UnitsText(us) + [34] + rest == UnitsText(us) + ([34] + rest);
    hide Scan, Minified, Closed;
    KeepsLiteral(UnitsText(us), rest);
  }

  lemma {:induction false} MinifiedSyntax(t: Syntax, rest: Text)
    requires Closed(rest)
    ensures Closed(SyntaxText(t) + rest)
    ensures Minified(SyntaxText(t) + rest) == SyntaxText(Stripped(t)) + Minified(rest)
    decreases t, 0
  {
    hide Closed, Minified, GapText, StripGap, NumeralText, LiteralText;
    match t
    case Num(x) => MinifiedNumeral(x, rest);
    case Str(us) => MinifiedLiteral(us, rest);
    case NoItems(g) => MinifiedEmpty(91, g, 93, rest);
    case NoFields(g) => MinifiedEmpty(123, g, 125, rest);
    case Items(items) => MinifiedArray(items, rest);
    case Fields(fields) => MinifiedObject(fields, rest);
    case _ => KeepsPlain(SyntaxText(t), rest);
  }

  lemma MinifiedBracket(open: byte, a: Text, b: Text, close: byte, rest: Text)
    requires Plain(open) && Closed(rest) && Closed(a + ([close] + rest))
    requires Minified(a + ([close] + rest)) == b + ([close] + Minified(rest))
    ensures Closed([open] + a + [close] + rest)
    ensures Minified([open] + a + [close] + rest) == [open] + b + [close] + Minified(rest)
  {
    hide Closed, Minified;
    KeepsPlain([open], a + ([close] + rest));
    Bracketed([open], a, [close], rest);
    Bracketed([open], b, [close], Minified(rest));
  }

  lemma MinifiedEmpty(open: byte, g: Gap, close: byte, rest: Text)
    requires Plain(open) && Plain(close) && Closed(rest)
    ensures Closed([open] + GapText(g) + [close] + rest)
    ensures Minified([open] + GapText(g) + [close] + rest) == [open] + GapText(StripGap(g)) + [close] + Minified(rest)
  {
    hide Closed, Minified, GapText, StripGap;
    KeepsPlain([close], rest);
    MinifiedGap(g, [close] + rest);
    MinifiedBracket(open, GapText(g), GapText(StripGap(g)), close, rest);
  }

  lemma MinifiedArray(items: seq<Element>, rest: Text)
    requires Closed(rest)
    ensures var a := [91] + ElementsText(items) + [93];
            var b := [91] + ElementsText(RegappedElements(items, StripGap)) + [93];
            Closed(a + rest) && Minified(a + rest) == b + Minified(rest)
    decreases items, 3
  {
    hide Closed, Minified, ElementsText, RegappedElements;
    KeepsPlain([93], rest);
    MinifiedElements(items, [93] + rest);
    MinifiedBracket(91, ElementsText(items), ElementsText(RegappedElements(items, StripGap)), 93, rest);
  }

  lemma MinifiedObject(fields: seq<Field>, rest: Text)
    requires Closed(rest)
    ensures var a := [123] + FieldsText(fields) + [125];
            var b := [123] + FieldsText(RegappedFields(fields, StripGap)) + [125];
            Closed(a + rest) && Minified(a + rest) == b + Minified(rest)
    decreases fields, 3
  {
    hide Closed, Minified, FieldsText, RegappedFields;
    KeepsPlain([125], rest);
    MinifiedFields(fields, [125] + rest);
    MinifiedBracket(123, FieldsText(fields), FieldsText(RegappedFields(fields, StripGap)), 125, rest);
  }

  lemma MinifiedElement(e: Element, rest: Text)
    requires Closed(rest)
    ensures var f := Element(StripGap(e.before), Stripped(e.value), StripGap(e.after));
            Closed(ElementText(e) + rest) && Minified(ElementText(e) + rest) == ElementText(f) + Minified(rest)
    decreases e, 1
  {
    hide Closed, Minified, GapText, SyntaxText, StripGap, Regapped;
    MinifiedGap(e.after, rest);
    MinifiedSyntax(e.value, GapText(e.after) + rest);
    MinifiedGap(e.before, SyntaxText(e.value) + (GapText(e.after) + rest));
    Bracketed(GapText(e.before), SyntaxText(e.value), GapText(e.after), rest);
    Bracketed(GapText(StripGap(e.before)), SyntaxText(Stripped(e.value)), GapText(StripGap(e.after)), Minified(rest));
  }

  lemma {:induction false} MinifiedElements(items: seq<Element>, rest: Text)
    requires Closed(rest)
    ensures var more := RegappedElements(items, StripGap);
            Closed(ElementsText(items) + rest)
            && Minified(ElementsText(items) + rest) == ElementsText(more) + Minified(rest)
    decreases items, 2
  {
    hide Closed, Minified, ElementText, StripGap, Regapped;
    var more := RegappedElements(items, StripGap);
    if items == [] {
      assert [] + rest == rest && [] + Minified(rest) == Minified(rest);
    } else {
      ElementsBegin(items, rest);
      ElementsBegin(more, Minified(rest));
      assert more[1..] == RegappedElements(items[1..], StripGap);
      if |items| == 1 {
        MinifiedElement(items[0], rest);
      } else {
        var tail := ElementsText(items[1..]) + rest;
        MinifiedElements(items[1..], rest);
        KeepsPlain([44], tail);
        MinifiedElement(items[0], [44] + tail);
      }
    }
  }

  lemma MinifiedField(f: Field, rest: Text)
    requires Closed(rest)
    ensures var g := Field(StripGap(f.before), f.key, StripGap(f.beforeColon), StripGap(f.afterColon),
                           Stripped(f.value), StripGap(f.after));
            Closed(FieldText(f) + rest) && Minified(FieldText(f) + rest) == FieldText(g) + Minified(rest)
    decreases f, 1
  {
    hide Closed, Minified, GapText, SyntaxText, LiteralText, StripGap, Regapped;
    var g := Field(StripGap(f.before), f.key, StripGap(f.beforeColon), StripGap(f.afterColon), Stripped(f.value),
                   StripGap(f.after));
    var end := GapText(f.after) + rest;
    var value := GapText(f.afterColon) + (SyntaxText(f.value) + end);
    var key := GapText(f.beforeColon) + ([58] + value);
    MinifiedGap(f.after, rest);
    MinifiedSyntax(f.value, end);
    MinifiedGap(f.afterColon, SyntaxText(f.value) + end);
    KeepsPlain([58], value);
    MinifiedGap(f.beforeColon, [58] + value);
    MinifiedLiteral(f.key, key);
    MinifiedGap(f.before, LiteralText(f.key) + key);
    FieldGrouped(f, rest, key);
    FieldGrouped(g, Minified(rest), Minified(key));
  }

  lemma {:induction false} MinifiedFields(fields: seq<Field>, rest: Text)
    requires Closed(rest)
    ensures var more := RegappedFields(fields, StripGap);
            Closed(FieldsText(fields) + rest)
            && Minified(FieldsText(fields) + rest) == FieldsText(more) + Minified(rest)
    decreases fields, 2
  {
    hide Closed, Minified, FieldText, StripGap, Regapped;
    var more := RegappedFields(fields, StripGap);
    if fields == [] {
      assert [] + rest == rest && [] + Minified(rest) == Minified(rest);
    } else {
      FieldsBegin(fields, rest);
      FieldsBegin(more, Minified(rest));
      assert more[1..] == RegappedFields(fields[1..], StripGap);
      if |fields| == 1 {
        MinifiedField(fields[0], rest);
      } else {
        var tail := FieldsText(fields[1..]) + rest;
        MinifiedFields(fields[1..], rest);
        KeepsPlain([44], tail);
        MinifiedField(fields[0], [44] + tail);
      }
    }
  }

  // ----- meaning stays -----

  /** Minifying a document removes exactly its comments and space. */
  lemma MinifiedDocument(d: Document, end: Text)
    requires Head(end) == 0
    ensures Closed(DocumentText(d) + end)
    ensures Minified(DocumentText(d) + end) == DocumentText(RegappedDocument(d, StripGap))
  {
    var e := RegappedDocument(d, StripGap);
    assert Closed(end) && Minified(end) == [];
    hide Closed, Minified, GapText, SyntaxText, StripGap, Regapped;
    MinifiedGap(d.after, end);
    MinifiedSyntax(d.value, GapText(d.after) + end);
    MinifiedGap(d.before, SyntaxText(d.value) + (GapText(d.after) + end));
    Bracketed(GapText(d.before), SyntaxText(d.value), GapText(d.after), end);
    Bracketed(GapText(e.before), SyntaxText(e.value), GapText(e.after), []);
    assert GapText(e.after) + [] == GapText(e.after) && DocumentText(e) + [] == DocumentText(e);
  }

  /** A document with comments anywhere between its tokens means after minifying what its tokens mean. */
  lemma MinifiedDocumentMeans(d: Document, end: Text)
    requires Head(end) == 0
    ensures Closed(DocumentText(d) + end)
    ensures ParseDocument(Minified(DocumentText(d) + end), true) == Ok(Meaning(d.value), [])
  {
    var e := RegappedDocument(d, StripGap);
    MinifiedDocument(d, end);
    forall g
      ensures AllBlank(StripGap(g))
    {
      StrippedIsBlank(g);
    }
    RegappedMeans(d.value, StripGap);
    hide Meaning, NoComments, Regapped, ParseDocument, DocumentText, Closed, Minified;
    DocumentIsRead(e, []);
    assert DocumentText(e) + [] == DocumentText(e);
  }

  /** Putting comments and space between the tokens of an accepted text, or taking them out, does not change what
      the minified text parses to. */
  lemma CommentsChangeNothing(d: Document, e: Document)
    requires Uncommented(d) && RegappedDocument(d, g => []) == RegappedDocument(e, g => [])
    ensures Closed(DocumentText(e))
    ensures ParseDocument(Minified(DocumentText(e)), true) == ParseDocument(DocumentText(d), true)
  {
    RegappedMeans(d.value, g => []);
    RegappedMeans(e.value, g => []);
    hide Meaning, NoComments, Regapped, ParseDocument, DocumentText, Closed, Minified;
    MinifiedDocumentMeans(e, []);
    DocumentIsRead(d, []);
    assert DocumentText(e) + [] == DocumentText(e) && DocumentText(d) + [] == DocumentText(d);
  }

  /** All string literals are closed, comments or not. */
  predicate LiteralsClosed(s: Text)
    decreases |s|
  {
    if Head(s) == 0 then true
    else if s[0] == QUOTE then
      LiteralLength(s[1..]).Some? && LiteralsClosed(s[LiteralLength(s[1..]).value + 2..])
    else LiteralsClosed(s[1..])
  }

  lemma {:induction false} NoOpenLiteral(s: Text)
    requires LiteralsClosed(s)
    ensures !OpenLiteral(s)
    decreases |s|
  {
    if Head(s) != 0 && Head(s) <= 32 {
      NoOpenLiteral(s[1..]);
    }
  }

  /** An accepted text with closed literals has no comment that could be left open. */
  lemma AcceptedIsClosed(s: Text)
    requires LiteralsClosed(s) && ParseDocument(s, true).Ok?
    ensures Closed(s)
  {
    NoOpenLiteral(s);
    hide Closed, LiteralsClosed, ParseDocument, OpenLiteral;
    var d, end := DocumentOf(s);
    MinifiedDocument(d, end);
  }

  /**
   A text whose literals are closed and which the parser accepts to its end means
   the same after minifying: it is accepted to its end, with the same tree.
   */
  lemma MinifyKeepsMeaning(s: Text)
    requires LiteralsClosed(s) && ParseDocument(s, true).Ok?
    ensures Closed(s) && ParseDocument(Minified(s), true).Ok?
    ensures ParseDocument(Minified(s), true).value == ParseDocument(s, true).value
  {
    NoOpenLiteral(s);
    hide Closed, Minified, LiteralsClosed, ParseDocument, OpenLiteral, DocumentText;
    var d, end := DocumentOf(s);
    DocumentIsRead(d, end);
    MinifiedDocumentMeans(d, end);
  }

  // ----- in place -----

  /** From j on the buffer still holds the text and its terminator. */
  ghost predicate HoldsFrom(now: Text, s: Text, j: nat) {
    j <= |s| < |now| && forall i {:trigger now[i]} :: j <= i <= |s| ==> now[i] == if i < |s| then s[i] else 0
  }

  /** The reader stands at j; what it will still keep goes behind the first `into` bytes. */
  ghost predicate Minifying(s: Text, now: Text, into: nat, j: nat) {
    && into <= j && HoldsFrom(now, s, j)
    && Closed(s) && Closed(s[j..]) && Minified(s) == now[..into] + Minified(s[j..])
  }

  /** The reader skips to k without anything kept. */
  lemma Passes(s: Text, now: Text, into: nat, j: nat, k: nat)
    requires Minifying(s, now, into, j) && j <= k <= |s|
    requires Closed(s[k..]) && Minified(s[j..]) == Minified(s[k..])
    ensures Minifying(s, now, into, k)
  {}

  /** A stretch that is kept has been copied down. */
  lemma Copied(s: Text, now: Text, next: Text, into: nat, j: nat, k: nat)
    requires Minifying(s, now, into, j) && j <= k <= |s| && HoldsFrom(next, s, k) && |next| == |now|
    requires next[..into + (k - j)] == now[..into] + s[j..k]
    requires Closed(s[k..]) && Minified(s[j..]) == s[j..k] + Minified(s[k..])
    ensures Minifying(s, next, into + (k - j), k)
  {
    assert now[..into] + (s[j..k] + Minified(s[k..])) == now[..into] + s[j..k] + Minified(s[k..]);
  }

  /** Skips a double-slash comment. */
  method PassLine(json: array<byte>, ghost s: Text, j: nat) returns (k: nat)
    requires HoldsFrom(json[..], s, j) && 0 !in s
    ensures j <= k <= |s| && s[k..] == AfterLine(s[j..])
  {
    k := j;
    while json[k] != 0 && json[k] != 10
      invariant j <= k <= |s| && AfterLine(s[k..]) == AfterLine(s[j..])
      decreases |s| - k
    {
      assert json[..][k] == json[k];
      assert s[k..][1..] == s[k + 1..];
      k := k + 1;
    }
    assert json[..][k] == json[k];
  }

  /** Skips a closed block comment. */
  method PassComment(json: array<byte>, ghost s: Text, j: nat) returns (k: nat)
    requires HoldsFrom(json[..], s, j) && 0 !in s && AfterComment(s[j..]).Some?
    ensures j <= k <= |s| && s[k..] == AfterComment(s[j..]).value
  {
    assert j <= |s|;
    hide AfterComment, HoldsFrom;
    k := j;
    CommentOpen(s, k);
    SeesTwo(json[..], s, j, k);
    while json[k] != 0 && !(json[k] == STAR && json[k + 1] == SLASH)
      invariant j <= k < |s| && AfterComment(s[k..]) == AfterComment(s[j..])
      invariant k + 1 < json.Length && json[k] == s[k] && json[k + 1] == if k + 1 < |s| then s[k + 1] else 0
      decreases |s| - k
    {
      CommentGoesOn(s, k);
      k := k + 1;
      SeesTwo(json[..], s, j, k);
    }
    CommentByte(s, k);
    k := k + 2;
  }

  lemma CommentOpen(s: Text, k: nat)
    requires k <= |s| && AfterComment(s[k..]).Some?
    ensures k < |s|
  {}

  lemma CommentGoesOn(s: Text, k: nat)
    requires k < |s| && AfterComment(s[k..]).Some? && !(s[k] == STAR && k + 1 < |s| && s[k + 1] == SLASH)
    ensures k + 1 < |s| && AfterComment(s[k..]) == AfterComment(s[k + 1..])
  {
    CommentByte(s, k);
    CommentOpen(s, k + 1);
  }

  lemma SeesTwo(now: Text, s: Text, j: nat, k: nat)
    requires HoldsFrom(now, s, j) && j <= k < |s|
    ensures k + 1 < |now| && now[k] == s[k] && now[k + 1] == if k + 1 < |s| then s[k + 1] else 0
  {}

  lemma CommentByte(s: Text, k: nat)
    requires k <= |s| && AfterComment(s[k..]).Some?
    ensures k < |s|
    ensures s[k] == STAR && k + 1 < |s| && s[k + 1] == SLASH ==> AfterComment(s[k..]).value == s[k + 2..]
    ensures !(s[k] == STAR && k + 1 < |s| && s[k + 1] == SLASH) ==> AfterComment(s[k..]) == AfterComment(s[k + 1..])
  {
    var t := s[k..];
    assert t[1..] == s[k + 1..] && (k + 2 <= |s| ==> t[2..] == s[k + 2..]);
  }

  /** Copies a literal down, quotes included. */
  method CopyLiteral(json: array<byte>, into: nat, j: nat, ghost s: Text) returns (into': nat, k: nat)
    requires HoldsFrom(json[..], s, j) && 0 !in s && into <= j < |s| && s[j] == QUOTE && LiteralLength(s[j + 1..]).Some?
    modifies json
    ensures k == j + LiteralLength(s[j + 1..]).value + 2 <= |s| && into' == into + (k - j)
    ensures HoldsFrom(json[..], s, k) && json[..into'] == old(json[..into]) + s[j..k]
  {
    ghost var start := json[..into];
    ghost var goal := LiteralLength(s[j + 1..]).value;
    hide LiteralLength, HoldsFrom;
    assert s[j..j] == [] && start + [] == start;
    into', k := CopyByte(json, into, j, s, start, j);
    SeesByte(json[..], s, k);
    while json[k] != 0 && json[k] != QUOTE
      invariant j < k < |s| && into' == into + (k - j) && LiteralLength(s[k..]) == Some(goal - (k - j - 1))
      invariant HoldsFrom(json[..], s, k) && json[..into'] == start + s[j..k] && k < json.Length && json[k] == s[k]
      decreases |s| - k
    {
      into', k := CopyUnit(json, into', k, s, start, j);
      SeesByte(json[..], s, k);
    }
    LiteralByte(s, k);
    into', k := CopyByte(json, into', k, s, start, j);
  }

  /** A plain byte of a literal, or an escape pair. */
  method CopyUnit(json: array<byte>, into: nat, k: nat, ghost s: Text, ghost start: Text, ghost j: nat)
    returns (into': nat, k': nat)
    requires HoldsFrom(json[..], s, k) && |start| <= j <= k < |s| && into == |start| + (k - j) && 0 !in s
    requires json[..into] == start + s[j..k] && s[k] != QUOTE && LiteralLength(s[k..]).Some?
    modifies json
    ensures k < k' < |s| && into' == into + (k' - k) && LiteralLength(s[k'..]).Some?
    ensures LiteralLength(s[k'..]).value == LiteralLength(s[k..]).value - (k' - k)
    ensures HoldsFrom(json[..], s, k') && json[..into'] == start + s[j..k']
  {
    hide LiteralLength, HoldsFrom;
    SeesByte(json[..], s, k);
    LiteralByte(s, k);
    into', k' := into, k;
    if json[k] == BACKSLASH {
      into', k' := CopyByte(json, into', k', s, start, j);
    }
    into', k' := CopyByte(json, into', k', s, start, j);
  }

  lemma SeesByte(now: Text, s: Text, k: nat)
    requires HoldsFrom(now, s, k)
    ensures k < |now| && (k < |s| ==> now[k] == s[k])
  {}

  lemma LiteralByte(s: Text, k: nat)
    requires k < |s| && 0 !in s && LiteralLength(s[k..]).Some?
    ensures s[k] == QUOTE ==> LiteralLength(s[k..]).value == 0
    ensures s[k] == BACKSLASH ==>
              k + 2 < |s| && LiteralLength(s[k + 2..]).Some?
              && LiteralLength(s[k..]).value == LiteralLength(s[k + 2..]).value + 2
    ensures s[k] != QUOTE && s[k] != BACKSLASH ==>
              k + 1 < |s| && LiteralLength(s[k + 1..]).Some?
              && LiteralLength(s[k..]).value == LiteralLength(s[k + 1..]).value + 1
  {
    var t := s[k..];
    assert t[1..] == s[k + 1..];
    if s[k] == BACKSLASH {
      assert t[2..] == s[k + 2..];
    }
  }

  /** One byte goes down and both places move on. */
  method CopyByte(json: array<byte>, into: nat, k: nat, ghost s: Text, ghost start: Text, ghost j: nat)
    returns (into': nat, k': nat)
    requires HoldsFrom(json[..], s, k) && |start| <= j <= k < |s| && into == |start| + (k - j)
    requires json[..into] == start + s[j..k]
    modifies json
    ensures into' == into + 1 && k' == k + 1
    ensures HoldsFrom(json[..], s, k') && json[..into'] == start + s[j..k']
  {
    ghost var now := json[..];
    assert now[k] == json[k] == s[k];
    json[into] := json[k];
    into', k' := into + 1, k + 1;
    assert json[..] == now[into := s[k]];
    assert json[..into'] == now[..into] + [s[k]];
    assert s[j..k'] == s[j..k] + [s[k]];
  }

  /** What one turn of the minifier does at the start of a text. */
  lemma MinifyTurn(s: Text)
    requires Closed(s) && s != [] && 0 !in s
    ensures IsSpace(s[0]) ==> Closed(s[1..]) && Minified(s) == Minified(s[1..])
    ensures s[0] == SLASH && Head(s[1..]) == SLASH ==> Closed(AfterLine(s)) && Minified(s) == Minified(AfterLine(s))
    ensures s[0] == SLASH && Head(s[1..]) == STAR ==>
              AfterComment(s).Some? && Closed(AfterComment(s).value) && Minified(s) == Minified(AfterComment(s).value)
    ensures s[0] == QUOTE ==>
              && LiteralLength(s[1..]).Some?
              && var n := LiteralLength(s[1..]).value + 2; Closed(s[n..]) && Minified(s) == s[..n] + Minified(s[n..])
    ensures !IsSpace(s[0]) && s[0] != QUOTE && !(s[0] == SLASH && (Head(s[1..]) == SLASH || Head(s[1..]) == STAR)) ==>
              Closed(s[1..]) && Minified(s) == [s[0]] + Minified(s[1..])
  {}

  /** One turn of cJSON_Minify's loop. */
  method MinifyStep(json: array<byte>, into: nat, j: nat, ghost s: Text) returns (into': nat, k: nat)
    requires Minifying(s, json[..], into, j) && 0 !in s && j < |s|
    modifies json
    ensures Minifying(s, json[..], into', k) && j < k <= |s|
  {
    hide Minified, Closed, LiteralLength, AfterComment, AfterLine;
    ghost var now, t := json[..], s[j..];
    SeesTwo(now, s, j, j);
    MinifyTurn(t);
    assert t[1..] == s[j + 1..];
    into', k := into, j + 1;
    if IsSpace(json[j]) {
      Passes(s, now, into, j, k);
    } else if json[j] == SLASH && json[j + 1] == SLASH {
      k := PassLine(json, s, j);
      LineShrinks(t);
      Passes(s, now, into, j, k);
    } else if json[j] == SLASH && json[j + 1] == STAR {
      k := PassComment(json, s, j);
      CommentShrinks(t);
      Passes(s, now, into, j, k);
    } else if json[j] == QUOTE {
      into', k := CopyLiteral(json, into, j, s);
      assert t[..k - j] == s[j..k] && t[k - j..] == s[k..];
      Copied(s, now, json[..], into, j, k);
    } else {
      assert json[..into] + s[j..j] == json[..into];
      into', k := CopyByte(json, into, j, s, json[..into], j);
      assert s[j..k] == [s[j]];
      Copied(s, now, json[..], into, j, k);
    }
  }

  lemma LineShrinks(t: Text)
    requires t != [] && t[0] == SLASH
    ensures |AfterLine(t)| < |t|
  {}

  lemma CommentShrinks(t: Text)
    requires AfterComment(t).Some?
    ensures |AfterComment(t).value| < |t|
  {}

  /** cJSON_Minify: the buffer ends up holding the minified text, NUL-terminated. */
  method Minify(json: array<byte>, ghost s: Text)
    requires HoldsFrom(json[..], s, 0) && 0 !in s && Closed(s)
    modifies json
    ensures |Minified(s)| <= |s| && json[..|Minified(s)|] == Minified(s) && json[|Minified(s)|] == 0
  {
    hide Closed, Minified;
    var into: nat, j: nat := 0, 0;
    assert s[0..] == s && json[..0] + Minified(s) == Minified(s);
    while json[j] != 0
      invariant Minifying(s, json[..], into, j)
      decreases |s| - j
    {
      assert json[..][j] == json[j];
      into, j := MinifyStep(json, into, j, s);
    }
    assert json[..][j] == json[j];
    assert s[j..] == [];
    NothingMinified();
    json[into] := 0;
  }

  lemma NothingMinified()
    ensures Closed([]) && Minified([]) == []
  {}
}
