/** JSON values as trees, and the text that cJSON's printers give them. */
module JsonValue {
  import opened Bytes

  type Text = seq<byte>

  const QUOTE: byte := 34
  const BACKSLASH: byte := 92
  const COMMA: byte := 44
  const COLON: byte := 58
  const TAB: byte := 9
  const NEWLINE: byte := 10
  const OPEN_ARRAY: byte := 91
  const CLOSE_ARRAY: byte := 93
  const OPEN_OBJECT: byte := 123
  const CLOSE_OBJECT: byte := 125
  const NULL_TEXT: Text := [110, 117, 108, 108]
  const TRUE_TEXT: Text := [116, 114, 117, 101]
  const FALSE_TEXT: Text := [102, 97, 108, 115, 101]

  /** A number is mantissa * 10^exponent, exactly as its text spells it. */
  datatype Json =
    | Null
    | False
    | True
    | Number(mantissa: int, exponent: int)
    | String(text: Text)
    | Array(items: seq<Json>)
    | Object(members: seq<Member>)

  datatype Member = Member(key: Text, value: Json)

  const INT_MIN: int := -0x8000_0000
  const INT_MAX: int := 0x7fff_ffff

  /** Trees whose printed text stands for them: integers in int range, strings without NUL. */
  ghost predicate Printable(t: Json) {
    match t
    case Number(m, e) => e == 0 && INT_MIN <= m <= INT_MAX
    case String(s) => 0 !in s
    case Array(items) => forall i :: 0 <= i < |items| ==> Printable(items[i])
    case Object(members) => forall i :: 0 <= i < |members| ==> 0 !in members[i].key && Printable(members[i].value)
    case _ => true
  }

  // ----- printing -----

  function Digits(n: nat): (d: Text)
    ensures d != []
  {
    if n < 10 then [48 + n] else Digits(n / 10) + [48 + n % 10]
  }

  function Decimal(n: int): Text { if n < 0 then [45] + Digits(-n) else Digits(n) }

  function HexDigit(n: nat): byte
    requires n < 16
  {
    if n < 10 then 48 + n else 87 + n
  }

  /** The text of one byte of a string: escaped if JSON demands it. */
  function EscapeByte(b: byte): Text {
    if b == BACKSLASH || b == QUOTE then [BACKSLASH, b]
    else if b == 8 then [BACKSLASH, 98]
    else if b == 12 then [BACKSLASH, 102]
    else if b == 10 then [BACKSLASH, 110]
    else if b == 13 then [BACKSLASH, 114]
    else if b == 9 then [BACKSLASH, 116]
    else if b < 32 then [BACKSLASH, 117, 48, 48, HexDigit(b / 16), HexDigit(b % 16)]
    else [b]
  }

  function Escape(s: Text): Text {
    if s == [] then [] else EscapeByte(s[0]) + Escape(s[1..])
  }

  function PrintString(s: Text): Text { [QUOTE] + Escape(s) + [QUOTE] }

  function Tabs(n: nat): Text { seq(n, _ => TAB) }

  function If(b: bool, s: Text): Text { if b then s else [] }

  /** The text of a value at a nesting depth, formatted or not. */
  function Print(t: Json, depth: nat, fmt: bool): Text
    decreases t, 0
  {
    match t
    case Null => NULL_TEXT
    case False => FALSE_TEXT
    case True => TRUE_TEXT
    case Number(m, _) => Decimal(m)
    case String(s) => PrintString(s)
    case Array(items) => [OPEN_ARRAY] + PrintItems(items, depth + 1, fmt) + [CLOSE_ARRAY]
    case Object(members) =>
      [OPEN_OBJECT] + If(fmt, [NEWLINE]) + PrintMembers(members, depth + 1, fmt) + If(fmt, Tabs(depth)) + [CLOSE_OBJECT]
  }

  function PrintItems(items: seq<Json>, depth: nat, fmt: bool): Text
    decreases items, 1
  {
    if items == [] then []
    else if |items| == 1 then Print(items[0], depth, fmt)
    else Print(items[0], depth, fmt) + [COMMA] + If(fmt, [32]) + PrintItems(items[1..], depth, fmt)
  }

  function PrintMember(m: Member, depth: nat, fmt: bool): Text
    decreases m, 1
  {
    If(fmt, Tabs(depth)) + PrintString(m.key) + [COLON] + If(fmt, [TAB]) + Print(m.value, depth, fmt)
  }

  function PrintMembers(members: seq<Member>, depth: nat, fmt: bool): Text
    decreases members, 2
  {
    if members == [] then []
    else if |members| == 1 then PrintMember(members[0], depth, fmt) + If(fmt, [NEWLINE])
    else PrintMember(members[0], depth, fmt) + [COMMA] + If(fmt, [NEWLINE]) + PrintMembers(members[1..], depth, fmt)
  }

  // ----- the formatted layout -----

  function Flat(rows: seq<Text>): Text { if rows == [] then [] else rows[0] + Flat(rows[1..]) }

  /** A line of a formatted object: tabs, the key, a colon and a tab, the value, and a comma unless it is the last. */
  ghost predicate IsRow(row: Text, m: Member, last: bool, depth: nat) {
    row == seq(depth, _ => 9) + PrintString(m.key) + [58, 9] + Print(m.value, depth, true)
           + (if last then [] else [44]) + [10]
  }

  lemma {:induction false} MembersAreRows(members: seq<Member>, depth: nat, rows: seq<Text>)
    requires |rows| == |members|
    requires forall i :: 0 <= i < |rows| ==> IsRow(rows[i], members[i], i + 1 == |rows|, depth)
    ensures PrintMembers(members, depth, true) == Flat(rows)
    decreases |members|
  {
    hide Print, PrintString;
    if members != [] {
      MembersAreRows(members[1..], depth, rows[1..]);
      var m, more := members[0], PrintMembers(members[1..], depth, true);
      assert IsRow(rows[0], m, 1 == |rows|, depth);
      assert PrintMember(m, depth, true)
          == seq(depth, _ => 9) + PrintString(m.key) + [58, 9] + Print(m.value, depth, true);
      hide IsRow, PrintMember;
      if |members| == 1 {
        assert Flat(rows[1..]) == [];
      } else {
        assert PrintMembers(members, depth, true) == PrintMember(m, depth, true) + [44] + [10] + more;
      }
    }
  }

  /** A formatted object has a line for each member and closes at its own depth. */
  lemma ObjectIsRows(members: seq<Member>, depth: nat, rows: seq<Text>)
    requires |rows| == |members|
    requires forall i :: 0 <= i < |rows| ==> IsRow(rows[i], members[i], i + 1 == |rows|, depth + 1)
    ensures Print(Object(members), depth, true) == [123, 10] + Flat(rows) + seq(depth, _ => 9) + [125]
  {
    MembersAreRows(members, depth + 1, rows);
    hide PrintMembers, Flat, IsRow;
  }

  /** A formatted array stands on one line with a comma and a space between its elements. */
  lemma {:induction false} ArrayIsRow(items: seq<Json>, depth: nat, parts: seq<Text>)
    requires |parts| == |items|
    requires forall i :: 0 <= i < |parts| ==>
      parts[i] == Print(items[i], depth, true) + if i + 1 == |parts| then [] else [44, 32]
    ensures PrintItems(items, depth, true) == Flat(parts)
    ensures depth > 0 ==> Print(Array(items), depth - 1, true) == [91] + Flat(parts) + [93]
    decreases |items|
  {
    if items != [] {
      ArrayIsRow(items[1..], depth, parts[1..]);
      hide Print;
      var more := PrintItems(items[1..], depth, true);
      if |items| == 1 {
        assert Flat(parts[1..]) == [];
      } else {
        assert PrintItems(items, depth, true) == Print(items[0], depth, true) + [44] + [32] + more;
      }
    }
  }
}
