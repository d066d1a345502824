/** cJSON's buffered printer: whatever the buffer does, the text is the one of the simple printer. */
module JsonPrint {
  import opened Bytes
  import opened JsonValue
  import opened JsonRoundTrip
  import opened JsonParse

  // ----- growing to a power of two -----

  function Pow2(k: nat): nat { if k == 0 then 1 else 2 * Pow2(k - 1) }

  function BitLength(n: nat): nat { if n == 0 then 0 else 1 + BitLength(n / 2) }

  /** The operators | and >> of the source on non-negative integers. */
  function Or(a: nat, b: nat): nat {
    if a == 0 && b == 0 then 0 else 2 * Or(a / 2, b / 2) + (if a % 2 == 1 || b % 2 == 1 then 1 else 0)
  }

  function Shift(a: nat, k: nat): nat { if k == 0 then a else Shift(a / 2, k - 1) }

  predicate Bit(a: nat, k: nat) { Shift(a, k) % 2 == 1 }

  lemma {:induction false} ShiftShift(a: nat, k: nat, j: nat)
    ensures Shift(Shift(a, k), j) == Shift(a, k + j)
  {
    if k > 0 {
      ShiftShift(a / 2, k - 1, j);
    }
  }

  lemma {:induction false} ShiftOr(a: nat, b: nat, k: nat)
    ensures Shift(Or(a, b), k) == Or(Shift(a, k), Shift(b, k))
  {
    if k > 0 {
      ShiftOr(a / 2, b / 2, k - 1);
    }
  }

  lemma {:induction false} ShiftedOut(a: nat)
    ensures Shift(a, BitLength(a)) == 0
    ensures a > 0 ==> Bit(a, BitLength(a) - 1)
    ensures a < Pow2(BitLength(a)) && (a > 0 ==> Pow2(BitLength(a) - 1) <= a)
  {
    if a > 0 {
      ShiftedOut(a / 2);
    }
  }

  /** The number has `len` bits and the highest `w` of them are set. */
  ghost predicate Ones(a: nat, len: nat, w: nat) {
    Shift(a, len) == 0 && forall k: nat :: len - w <= k < len ==> Bit(a, k)
  }

  lemma BitOr(a: nat, b: nat, k: nat)
    ensures Bit(Or(a, b), k) <==> Bit(a, k) || Bit(b, k)
  {
    ShiftOr(a, b, k);
  }

  lemma SmearedOut(a: nat, len: nat, w: nat)
    requires Shift(a, len) == 0
    ensures Shift(Or(a, Shift(a, w)), len) == 0
  {
    ShiftOr(a, Shift(a, w), len);
    ShiftShift(a, w, len);
    ShiftShift(a, len, w);
    ShiftZero(w);
  }

  lemma Smear(a: nat, len: nat, w: nat)
    requires Ones(a, len, w)
    ensures Ones(Or(a, Shift(a, w)), len, 2 * w)
  {
    SmearedOut(a, len, w);
    forall k: nat | len - 2 * w <= k < len
      ensures Bit(Or(a, Shift(a, w)), k)
    {
      BitOr(a, Shift(a, w), k);
      ShiftShift(a, w, k);
      assert Bit(Shift(a, w), k) == Bit(a, w + k);
      hide Or, Shift;
      assert k >= len - w || len - w <= w + k < len;
    }
  }

  lemma {:induction false} ShiftZero(k: nat)
    ensures Shift(0, k) == 0
  {
    if k > 0 {
      ShiftZero(k - 1);
    }
  }

  lemma {:induction false} AllOnes(a: nat, len: nat)
    requires Ones(a, len, len)
    ensures a + 1 == Pow2(len)
  {
    if len > 0 {
      assert Bit(a, 0);
      forall k: nat | k < len - 1
        ensures Bit(a / 2, k)
      {
        assert Bit(a, k + 1);
      }
      AllOnes(a / 2, len - 1);
    }
  }

  lemma {:induction false} ShortLength(n: nat, k: nat)
    requires n < Pow2(k)
    ensures BitLength(n) <= k
  {
    if n > 0 {
      ShortLength(n / 2, k - 1);
    }
  }

  /** pow2gt for 32-bit integers: the least power of two that is not below x. */
  method Pow2gt(x: nat) returns (r: nat)
    requires 1 <= x <= MAX_POW2
    ensures r == Pow2(BitLength(x - 1)) && x <= r <= MAX_POW2
    ensures forall k :: x <= Pow2(k) ==> r <= Pow2(k)
  {
    hide Or, Shift, Bit, Ones;
    ghost var len := BitLength(x - 1);
    ShiftedOut(x - 1);
    assert Pow2(10) == 1024;
    assert Pow2(20) == 1024 * 1024;
    assert Pow2(30) == MAX_POW2;
    ShortLength(x - 1, 30);
    r := x - 1;
    FirstOne(r);
    Smear(r, len, 1);
    r := Or(r, Shift(r, 1));
    Smear(r, len, 2);
    r := Or(r, Shift(r, 2));
    Smear(r, len, 4);
    r := Or(r, Shift(r, 4));
    Smear(r, len, 8);
    r := Or(r, Shift(r, 8));
    Smear(r, len, 16);
    r := Or(r, Shift(r, 16));
    AllSet(r, len);
    r := r + 1;
    Pow2Grows(len, 30);
    forall k | x <= Pow2(k)
      ensures r <= Pow2(k)
    {
      if k < len {
        Pow2Grows(k, len - 1);
      } else {
        Pow2Grows(len, k);
      }
    }
  }

  const MAX_POW2: nat := 0x4000_0000

  lemma FirstOne(a: nat)
    ensures Ones(a, BitLength(a), 1)
  {
    ShiftedOut(a);
  }

  lemma AllSet(a: nat, len: nat)
    requires Ones(a, len, 32) && len <= 32
    ensures a + 1 == Pow2(len)
  {
    AllOnes(a, len);
  }

  lemma {:induction false} Pow2Grows(j: nat, k: nat)
    requires j <= k
    ensures Pow2(j) <= Pow2(k)
  {
    if j < k {
      Pow2Grows(j, k - 1);
    }
  }

  // ----- escaping -----

  lemma {:induction false} EscapeSplits(a: Text, b: Text)
    ensures Escape(a + b) == Escape(a) + Escape(b)
    decreases |a|
  {
    if a == [] {
      assert a + b == b;
    } else {
      assert (a + b)[1..] == a[1..] + b;
      EscapeSplits(a[1..], b);
    }
  }

  lemma EscapeSnoc(s: Text, i: nat)
    requires i < |s|
    ensures Escape(s[..i + 1]) == Escape(s[..i]) + EscapeByte(s[i])
  {
    assert s[..i + 1] == s[..i] + [s[i]] && [s[i]][1..] == [];
    EscapeSplits(s[..i], [s[i]]);
  }

  lemma {:induction false} NothingToEscape(s: Text)
    requires forall i :: 0 <= i < |s| ==> |EscapeByte(s[i])| == 1
    ensures Escape(s) == s
    decreases |s|
  {
    if s != [] {
      NothingToEscape(s[1..]);
      assert s == [s[0]] + s[1..];
    }
  }

  /** Whether some byte of a string has to be escaped. */
  method NeedsEscape(s: Text) returns (flag: bool)
    requires 0 !in s
    ensures !flag ==> Escape(s) == s
  {
    flag := false;
    for i := 0 to |s|
      invariant !flag ==> forall k :: 0 <= k < i ==> |EscapeByte(s[k])| == 1
    {
      flag := flag || 0 < s[i] < 32 || s[i] == QUOTE || s[i] == BACKSLASH;
    }
    if !flag {
      NothingToEscape(s);
    }
  }

  /** The space an escaped string takes. */
  method EscapedLength(s: Text) returns (len: nat)
    requires 0 !in s
    ensures len == |Escape(s)|
  {
    len := 0;
    for i := 0 to |s|
      invariant len == |Escape(s[..i])|
    {
      EscapeSnoc(s, i);
      len := len + 1;
      if s[i] == QUOTE || s[i] == BACKSLASH || 8 <= s[i] <= 10 || s[i] == 12 || s[i] == 13 {
        len := len + 1;
      } else if s[i] < 32 {
        len := len + 5;
      }
    }
    assert s[..|s|] == s;
  }

  /** Writes bytes from a place on. */
  method PutBytes(buf: array<byte>, at: nat, text: Text)
    requires at + |text| <= buf.Length
    modifies buf
    ensures buf[..at + |text|] == old(buf[..at]) + text
  {
    var k := 0;
    while k < |text|
      invariant k <= |text| && buf[..at + k] == old(buf[..at]) + text[..k]
    {
      ghost var was := buf[..at + k];
      buf[at + k] := text[k];
      assert buf[..at + k] == was;
      k := k + 1;
    }
    assert text[..|text|] == text;
  }

  lemma Append3(a: Text, b: Text, c: Text, d: Text)
    ensures a + b + c + d == a + (b + c + d) && a + b + c == a + (b + c)
  {}

  lemma Regroup(a: Text, b: Text, c: Text, d: Text, e: Text, f: Text)
    ensures a + b + c + d + [] + e + f == a + (b + c + d + e + f)
  {
    assert a + b + c + d + [] == a + (b + c + d);
    Append3(a, b + c + d, e, f);
  }

  lemma EscapeRoom(s: Text, i: nat)
    requires i < |s|
    ensures Escape(s[..i + 1]) == Escape(s[..i]) + EscapeByte(s[i])
    ensures |Escape(s[..i])| + |EscapeByte(s[i])| <= |Escape(s)|
  {
    hide Escape, EscapeByte;
    EscapeSnoc(s, i);
    EscapeSplits(s[..i + 1], s[i + 1..]);
    assert s[..i + 1] + s[i + 1..] == s;
  }

  /** Writes a string with its escapes. */
  method PutEscaped(buf: array<byte>, at: nat, s: Text)
    requires 0 !in s && at + |Escape(s)| <= buf.Length
    modifies buf
    ensures buf[..at + |Escape(s)|] == old(buf[..at]) + Escape(s)
  {
    ghost var before := buf[..at];
    ghost var done: Text := [];
    var ptr := at;
    hide EscapeByte;
    assert s[..0] == [] && s[..|s|] == s;
    for i := 0 to |s|
      invariant done == Escape(s[..i]) && ptr == at + |done| <= buf.Length && buf[..ptr] == before + done
    {
      EscapeRoom(s, i);
      hide Escape;
      var piece := EscapeByte(s[i]);
      PutBytes(buf, ptr, piece);
      ptr := ptr + |piece|;
      Append3(before, done, piece, []);
      done := done + piece;
    }
  }

  /** Writes a string between quotes and a NUL. */
  method PutQuoted(buf: array<byte>, at: nat, s: Text)
    requires 0 !in s && at + |PrintString(s)| < buf.Length
    modifies buf
    ensures buf[..at + |PrintString(s)|] == old(buf[..at]) + PrintString(s) && buf[at + |PrintString(s)|] == 0
  {
    hide Escape;
    ghost var before := buf[..at];
    PutBytes(buf, at, [QUOTE]);
    PutEscaped(buf, at + 1, s);
    var ptr := at + 1 + |Escape(s)|;
    PutBytes(buf, ptr, [QUOTE]);
    assert before + [QUOTE] + Escape(s) + [QUOTE] == before + PrintString(s);
    PutNul(buf, ptr + 1);
  }

  method PutNul(buf: array<byte>, at: nat)
    requires at < buf.Length
    modifies buf
    ensures buf[..at] == old(buf[..at]) && buf[at] == 0
  {
    buf[at] := 0;
  }

  /** The least power of two that is not below a need. */
  ghost predicate IsLeastPow2(size: nat, need: nat) {
    need <= size && (exists k :: size == Pow2(k)) && forall k :: need <= Pow2(k) ==> size <= Pow2(k)
  }

  // ----- what the printed text is like -----

  function ItemText(items: seq<Json>, i: nat, depth: nat, fmt: bool): Text
    requires i < |items|
  {
    Print(items[i], depth, fmt) + if i + 1 < |items| then [COMMA] + If(fmt, [32]) else []
  }

  function KeyText(m: Member, depth: nat, fmt: bool): Text {
    If(fmt, Tabs(depth)) + PrintString(m.key) + ([COLON] + If(fmt, [TAB]))
  }

  function Separator(members: seq<Member>, i: nat, fmt: bool): Text {
    If(i + 1 < |members|, [COMMA]) + If(fmt, [NEWLINE])
  }

  function MemberText(members: seq<Member>, i: nat, depth: nat, fmt: bool): Text
    requires i < |members|
  {
    PrintMember(members[i], depth, fmt) + Separator(members, i, fmt)
  }

  lemma MemberParts(members: seq<Member>, i: nat, depth: nat, fmt: bool)
    requires i < |members|
    ensures MemberText(members, i, depth, fmt)
         == KeyText(members[i], depth, fmt) + Print(members[i].value, depth, fmt) + Separator(members, i, fmt)
  {
    hide Print, PrintString;
    var m := members[i];
    assert PrintMember(m, depth, fmt) == KeyText(m, depth, fmt) + Print(m.value, depth, fmt);
  }

  lemma ItemsGoOn(items: seq<Json>, i: nat, depth: nat, fmt: bool, text: Text)
    requires i < |items|
    ensures text + PrintItems(items[i..], depth, fmt)
         == text + ItemText(items, i, depth, fmt) + PrintItems(items[i + 1..], depth, fmt)
  {
    hide Print;
    var rest := items[i..];
    assert rest[0] == items[i] && rest[1..] == items[i + 1..];
    if |rest| == 1 {
      assert PrintItems(items[i + 1..], depth, fmt) == [];
    }
  }

  lemma ObjectNeed(members: seq<Member>, depth: nat, fmt: bool)
    requires members != []
    ensures Need(Object(members), depth, fmt)
         == (if fmt then 2 else 1)
            + Max(MembersNeed(members, depth + 1, fmt),
                  |PrintMembers(members, depth + 1, fmt)| + if fmt then depth + 2 else 2)
  {}

  lemma ItemsEnd(items: seq<Json>, depth: nat, fmt: bool, text: Text)
    ensures text + PrintItems(items[|items|..], depth, fmt) == text
  {}

  lemma ArrayText(items: seq<Json>, depth: nat, fmt: bool, before: Text)
    ensures before + [OPEN_ARRAY] + PrintItems(items, depth + 1, fmt) + [CLOSE_ARRAY]
         == before + Print(Array(items), depth, fmt)
  {}

  lemma MembersGoOn(members: seq<Member>, i: nat, depth: nat, fmt: bool, text: Text)
    requires i < |members|
    ensures text + PrintMembers(members[i..], depth, fmt)
         == text + MemberText(members, i, depth, fmt) + PrintMembers(members[i + 1..], depth, fmt)
  {
    hide PrintMember;
    var rest := members[i..];
    assert rest[0] == members[i] && rest[1..] == members[i + 1..];
    if |rest| == 1 {
      assert PrintMembers(members[i + 1..], depth, fmt) == [];
    }
  }

  lemma MembersEnd(members: seq<Member>, depth: nat, fmt: bool, text: Text)
    ensures text + PrintMembers(members[|members|..], depth, fmt) == text
  {}

  lemma NoMembersText(depth: nat, fmt: bool)
    ensures Print(Object([]), depth, fmt) == [OPEN_OBJECT] + If(fmt, [NEWLINE]) + If(fmt, Tabs(depth)) + [CLOSE_OBJECT]
    ensures Need(Object([]), depth, fmt) == if fmt then depth + 4 else 3
  {}

  lemma ObjectText(members: seq<Member>, depth: nat, fmt: bool, before: Text)
    ensures before + ([OPEN_OBJECT] + If(fmt, [NEWLINE])) + PrintMembers(members, depth + 1, fmt)
              + (If(fmt, Tabs(depth)) + [CLOSE_OBJECT])
         == before + Print(Object(members), depth, fmt)
  {}

  lemma {:induction false} NoNulInEscape(s: Text)
    requires 0 !in s
    ensures 0 !in Escape(s)
    decreases |s|
  {
    if s != [] {
      NoNulInEscape(s[1..]);
    }
  }

  lemma NoNulInString(s: Text)
    requires 0 !in s
    ensures 0 !in PrintString(s)
  {
    NoNulInEscape(s);
  }

  lemma {:induction false} DigitsFit(n: nat, k: nat)
    requires k > 0 && n < Pow10(k)
    ensures |Digits(n)| <= k
  {
    if n >= 10 {
      DigitsFit(n / 10, k - 1);
    }
  }

  function Pow10(k: nat): nat { if k == 0 then 1 else 10 * Pow10(k - 1) }

  lemma IntFits(m: int)
    requires INT_MIN <= m <= INT_MAX
    ensures |Decimal(m)| <= 11
  {
    assert Pow10(5) == 100000;
    assert Pow10(10) == 10000000000;
    DigitsFit(if m < 0 then -m else m, 10);
  }

  lemma {:induction false} NoNul(t: Json, depth: nat, fmt: bool)
    requires Printable(t)
    ensures 0 !in Print(t, depth, fmt)
    decreases t, 0
  {
    match t
    case Number(m, _) => DigitsMeanNumber(if m < 0 then -m else m);
    case String(s) => NoNulInString(s);
    case Array(items) => NoNulInItems(items, depth + 1, fmt);
    case Object(members) => NoNulInMembers(members, depth + 1, fmt);
    case _ =>
  }

  lemma {:induction false} NoNulInItems(items: seq<Json>, depth: nat, fmt: bool)
    requires forall i :: 0 <= i < |items| ==> Printable(items[i])
    ensures 0 !in PrintItems(items, depth, fmt)
    decreases items, 1
  {
    hide Print, Printable;
    if items != [] {
      NoNul(items[0], depth, fmt);
      NoNulInItems(items[1..], depth, fmt);
    }
  }

  lemma {:induction false} NoNulInMembers(members: seq<Member>, depth: nat, fmt: bool)
    requires forall i :: 0 <= i < |members| ==> 0 !in members[i].key && Printable(members[i].value)
    ensures 0 !in PrintMembers(members, depth, fmt)
    decreases members, 1
  {
    hide Print, Printable, PrintString;
    if members != [] {
      NoNul(members[0].value, depth, fmt);
      NoNulInString(members[0].key);
      assert 0 !in PrintMember(members[0], depth, fmt);
      hide PrintMember;
      NoNulInMembers(members[1..], depth, fmt);
    }
  }

  // ----- how much room printing asks for -----

  function Max(a: nat, b: nat): nat { if a > b then a else b }

  function NumberNeed(m: int): nat { if m == 0 then 2 else 21 }

  /** The largest request made while a value is printed, counted from where the value starts. */
  function Need(t: Json, depth: nat, fmt: bool): nat
    decreases t, 0
  {
    match t
    case Null => 5
    case False => 6
    case True => 5
    case Number(m, _) => NumberNeed(m)
    case String(s) => |PrintString(s)| + 1
    case Array(items) =>
      if items == [] then 3
      else 1 + Max(ItemsNeed(items, depth + 1, fmt), |PrintItems(items, depth + 1, fmt)| + 2)
    case Object(members) =>
      if members == [] then if fmt then depth + 4 else 3
      else
        (if fmt then 2 else 1)
        + Max(MembersNeed(members, depth + 1, fmt),
              |PrintMembers(members, depth + 1, fmt)| + if fmt then depth + 2 else 2)
  }

  /** The same for an element with its comma, and for the elements one after the other. */
  function ItemNeed(items: seq<Json>, i: nat, depth: nat, fmt: bool): nat
    requires i < |items|
    decreases items, 0
  {
    Max(Need(items[i], depth, fmt), if i + 1 < |items| then |ItemText(items, i, depth, fmt)| + 1 else 0)
  }

  function ItemsNeed(items: seq<Json>, depth: nat, fmt: bool): nat
    decreases items, 1
  {
    if items == [] then 0
    else Max(ItemNeed(items, 0, depth, fmt), |ItemText(items, 0, depth, fmt)| + ItemsNeed(items[1..], depth, fmt))
  }

  /** The same for a member with its key and comma, and for the members one after the other. */
  function MemberNeed(members: seq<Member>, i: nat, depth: nat, fmt: bool): nat
    requires i < |members|
    decreases members, 0
  {
    Max(|KeyText(members[i], depth, fmt)| + Need(members[i].value, depth, fmt),
        |MemberText(members, i, depth, fmt)| + 1)
  }

  function MembersNeed(members: seq<Member>, depth: nat, fmt: bool): nat
    decreases members, 1
  {
    if members == [] then 0
    else
      Max(MemberNeed(members, 0, depth, fmt),
          |MemberText(members, 0, depth, fmt)| + MembersNeed(members[1..], depth, fmt))
  }

  lemma ItemsNeedHead(items: seq<Json>, depth: nat, fmt: bool)
    requires items != []
    ensures ItemsNeed(items, depth, fmt)
         == Max(ItemNeed(items, 0, depth, fmt), |ItemText(items, 0, depth, fmt)| + ItemsNeed(items[1..], depth, fmt))
  {
    hide Max, ItemNeed, ItemText;
  }

  lemma ItemFrom(items: seq<Json>, i: nat, depth: nat, fmt: bool)
    requires i < |items|
    ensures ItemText(items[i..], 0, depth, fmt) == ItemText(items, i, depth, fmt)
    ensures ItemNeed(items[i..], 0, depth, fmt) == ItemNeed(items, i, depth, fmt)
  {
    hide Print, Need, Max;
  }

  lemma ItemsNeedFrom(items: seq<Json>, i: nat, depth: nat, fmt: bool)
    requires i < |items|
    ensures ItemsNeed(items[i..], depth, fmt)
         == Max(ItemNeed(items, i, depth, fmt),
                |ItemText(items, i, depth, fmt)| + ItemsNeed(items[i + 1..], depth, fmt))
  {
    hide Max, ItemsNeed, ItemNeed, ItemText, Need, Print;
    var rest := items[i..];
    assert rest[0] == items[i] && rest[1..] == items[i + 1..];
    ItemFrom(items, i, depth, fmt);
    ItemsNeedHead(rest, depth, fmt);
  }

  lemma MembersNeedHead(members: seq<Member>, depth: nat, fmt: bool)
    requires members != []
    ensures MembersNeed(members, depth, fmt)
         == Max(MemberNeed(members, 0, depth, fmt),
                |MemberText(members, 0, depth, fmt)| + MembersNeed(members[1..], depth, fmt))
  {
    hide Max, MemberNeed, MemberText;
  }

  lemma MemberFrom(members: seq<Member>, i: nat, depth: nat, fmt: bool)
    requires i < |members|
    ensures MemberText(members[i..], 0, depth, fmt) == MemberText(members, i, depth, fmt)
    ensures MemberNeed(members[i..], 0, depth, fmt) == MemberNeed(members, i, depth, fmt)
  {
    hide PrintMember, Need, Max, KeyText;
  }

  lemma MembersNeedFrom(members: seq<Member>, i: nat, depth: nat, fmt: bool)
    requires i < |members|
    ensures MembersNeed(members[i..], depth, fmt)
         == Max(MemberNeed(members, i, depth, fmt),
                |MemberText(members, i, depth, fmt)| + MembersNeed(members[i + 1..], depth, fmt))
  {
    hide Max, MembersNeed, MemberNeed, MemberText, Need, PrintMember;
    var rest := members[i..];
    assert rest[0] == members[i] && rest[1..] == members[i + 1..];
    MemberFrom(members, i, depth, fmt);
    MembersNeedHead(rest, depth, fmt);
  }

  /** With the elements before i printed: what is missing of the goal, and whether a fixed buffer suffices for it. */
  ghost predicate ItemsLeft(items: seq<Json>, i: nat, depth: nat, fmt: bool, done: Text, goal: Text, enough: bool,
                            size: nat, fixed: bool)
    requires i <= |items|
  {
    && done + PrintItems(items[i..], depth, fmt) == goal
    && (fixed ==> (enough <==> |done| + ItemsNeed(items[i..], depth, fmt) <= size))
  }

  lemma ItemsLeftAt(items: seq<Json>, depth: nat, fmt: bool, done: Text, goal: Text, enough: bool, size: nat,
                    fixed: bool)
    ensures ItemsLeft(items, 0, depth, fmt, done, goal, enough, size, fixed)
       <==> && done + PrintItems(items, depth, fmt) == goal
            && (fixed ==> (enough <==> |done| + ItemsNeed(items, depth, fmt) <= size))
    ensures ItemsLeft(items, |items|, depth, fmt, done, goal, enough, size, fixed)
       <==> done == goal && (fixed ==> (enough <==> |done| <= size))
  {
    assert items[0..] == items;
  }

  lemma ItemsLeftFrom(items: seq<Json>, i: nat, depth: nat, fmt: bool, done: Text, goal: Text, enough: bool,
                      size: nat, fixed: bool)
    requires i < |items| && ItemsLeft(items, i, depth, fmt, done, goal, enough, size, fixed)
    ensures fixed && enough ==> |done| + ItemNeed(items, i, depth, fmt) <= size
    ensures (fixed ==> |done| + ItemNeed(items, i, depth, fmt) <= size) ==>
      ItemsLeft(items, i + 1, depth, fmt, done + ItemText(items, i, depth, fmt), goal, enough, size, fixed)
  {
    ItemsGoOn(items, i, depth, fmt, done);
    ItemsNeedFrom(items, i, depth, fmt);
    hide ItemsNeed, ItemNeed, ItemText, PrintItems;
  }

  /** With the members before i printed: what is missing of the goal, and whether a fixed buffer suffices for it. */
  ghost predicate MembersLeft(members: seq<Member>, i: nat, depth: nat, fmt: bool, done: Text, goal: Text, enough: bool,
                              size: nat, fixed: bool)
    requires i <= |members|
  {
    && done + PrintMembers(members[i..], depth, fmt) == goal
    && (fixed ==> (enough <==> |done| + MembersNeed(members[i..], depth, fmt) <= size))
  }

  lemma MembersLeftAt(members: seq<Member>, depth: nat, fmt: bool, done: Text, goal: Text, enough: bool, size: nat,
                      fixed: bool)
    ensures MembersLeft(members, 0, depth, fmt, done, goal, enough, size, fixed)
       <==> && done + PrintMembers(members, depth, fmt) == goal
            && (fixed ==> (enough <==> |done| + MembersNeed(members, depth, fmt) <= size))
    ensures MembersLeft(members, |members|, depth, fmt, done, goal, enough, size, fixed)
       <==> done == goal && (fixed ==> (enough <==> |done| <= size))
  {
    assert members[0..] == members;
  }

  lemma MembersLeftFrom(members: seq<Member>, i: nat, depth: nat, fmt: bool, done: Text, goal: Text, enough: bool,
                        size: nat, fixed: bool)
    requires i < |members| && MembersLeft(members, i, depth, fmt, done, goal, enough, size, fixed)
    ensures fixed && enough ==> |done| + MemberNeed(members, i, depth, fmt) <= size
    ensures (fixed ==> |done| + MemberNeed(members, i, depth, fmt) <= size) ==>
      MembersLeft(members, i + 1, depth, fmt, done + MemberText(members, i, depth, fmt), goal, enough, size, fixed)
  {
    MembersGoOn(members, i, depth, fmt, done);
    MembersNeedFrom(members, i, depth, fmt);
    hide MembersNeed, MemberNeed, MemberText, PrintMembers;
  }

  /** The text and its NUL always fit what is asked for, and at most SLACK - 1 bytes more are. */
  lemma {:induction false} NeedIsClose(t: Json, depth: nat, fmt: bool)
    requires Printable(t)
    ensures |Print(t, depth, fmt)| < Need(t, depth, fmt) <= |Print(t, depth, fmt)| + SLACK
    decreases t, 0
  {
    match t
    case Number(m, _) => IntFits(m);
    case Array(items) =>
      ItemsNeedIsClose(items, depth + 1, fmt);
    case Object(members) =>
      MembersNeedIsClose(members, depth + 1, fmt);
      if members == [] {
        NoMembersText(depth, fmt);
      }
    case _ =>
  }

  lemma {:induction false} ItemsNeedIsClose(items: seq<Json>, depth: nat, fmt: bool)
    requires forall i :: 0 <= i < |items| ==> Printable(items[i])
    ensures ItemsNeed(items, depth, fmt) <= |PrintItems(items, depth, fmt)| + SLACK
    decreases items, 1
  {
    if items != [] {
      NeedIsClose(items[0], depth, fmt);
      ItemsNeedIsClose(items[1..], depth, fmt);
      hide Need, Print, Printable;
      ItemsGoOn(items, 0, depth, fmt, []);
      assert items[0..] == items;
    }
  }

  lemma {:induction false} MembersNeedIsClose(members: seq<Member>, depth: nat, fmt: bool)
    requires forall i :: 0 <= i < |members| ==> 0 !in members[i].key && Printable(members[i].value)
    ensures MembersNeed(members, depth, fmt) <= |PrintMembers(members, depth, fmt)| + SLACK
    decreases members, 1
  {
    if members != [] {
      NeedIsClose(members[0].value, depth, fmt);
      MembersNeedIsClose(members[1..], depth, fmt);
      hide Need, Print, Printable, PrintString, KeyText, Separator;
      MembersGoOn(members, 0, depth, fmt, []);
      MemberParts(members, 0, depth, fmt);
      assert members[0..] == members;
    }
  }

  // ----- memory -----

  /** The allocator, and how often it has failed. */
  class Memory {
    ghost var failures: nat

    constructor ()
      ensures failures == 0
    {
      failures := 0;
    }

    method Allocate(size: nat) returns (out: array?<byte>)
      modifies this`failures
      ensures failures == old(failures) + if out == null then 1 else 0
      ensures out != null ==> fresh(out) && out.Length == size
    {
      var enough: bool := *;
      out := null;
      if enough {
        out := new byte[size](_ => 0);
      } else {
        Refuse();
      }
    }

    method Refuse()
      modifies this`failures
      ensures failures == old(failures) + 1
    {
      failures := failures + 1;
    }
  }

  // ----- the buffer -----

  /** How far a request for room may exceed the text that follows: numbers ask for 21 bytes. */
  const SLACK: nat := 20

  class PrintBuffer {
    var buffer: array?<byte>     // null once an allocation has failed
    var offset: nat
    const noalloc: bool
    const memory: Memory

    ghost predicate Valid()
      reads this
    {
      buffer != null && offset <= buffer.Length
    }

    constructor (buf: array<byte>, noalloc: bool, memory: Memory)
      ensures Valid() && buffer == buf && offset == 0 && this.noalloc == noalloc && this.memory == memory
    {
      buffer, offset := buf, 0;
      this.noalloc, this.memory := noalloc, memory;
    }

    /** Success and failure have their reason: whether `size` bytes fit the fixed buffer, or whether the growing one
        is still there. */
    ghost predicate Decided(ok: bool, size: nat)
      reads this`buffer
    {
      if noalloc then buffer != null && (ok <==> size <= buffer.Length) else ok <==> buffer != null
    }

    /** Room for `needed` bytes at the offset, in a larger copy of the buffer if need be and allowed. */
    method Ensure(needed: nat) returns (ok: bool)
      requires Valid()
      modifies this`buffer, memory`failures
      ensures buffer == old(buffer) || buffer == null || fresh(buffer)
      ensures noalloc ==> buffer == old(buffer)
      ensures memory.failures == old(memory.failures) + if buffer == null then 1 else 0
      ensures ok ==> buffer != null
      ensures Decided(ok, offset + needed)
      ensures ok ==> buffer != null && offset + needed <= buffer.Length && old(buffer.Length) <= buffer.Length
      ensures ok ==> buffer[..offset] == old(buffer[..offset])
      ensures ok ==> buffer == old(buffer) || IsLeastPow2(buffer.Length, offset + needed)
    {
      var need := needed + offset;
      if need <= buffer.Length {
        return true;
      }
      if noalloc {
        return false;
      }
      if need > MAX_POW2 {
        memory.Refuse();
        buffer := null;
        return false;
      }
      var newsize := Pow2gt(need);
      var newbuffer := memory.Allocate(newsize);
      if newbuffer == null {
        buffer := null;
        return false;
      }
      forall i | 0 <= i < buffer.Length {
        newbuffer[i] := buffer[i];
      }
      buffer := newbuffer;
      return true;
    }

    /** The bytes up to the offset are the text so far. */
    ghost predicate Written(text: Text)
      reads this`buffer, this`offset, buffer
    {
      buffer != null && offset <= buffer.Length && buffer[..offset] == text
    }

    /** A piece of text stands behind `before`, NUL-terminated; the offset may still point into the piece. */
    ghost predicate Printed(before: Text, text: Text)
      reads this`buffer, this`offset, buffer
    {
      var end := |before| + |text|;
      && buffer != null && end < buffer.Length && |before| <= offset <= end
      && buffer[..end] == before + text && buffer[end] == 0
    }

    /** Copies text to the offset, which stays where it is. */
    method Store(text: Text, room: nat, terminate: bool, ghost before: Text) returns (ok: bool)
      requires Written(before) && |text| + (if terminate then 1 else 0) <= room
      modifies this`buffer, buffer, memory`failures
      ensures buffer == old(buffer) || buffer == null || fresh(buffer)
      ensures noalloc ==> buffer == old(buffer)
      ensures memory.failures == old(memory.failures) + if buffer == null then 1 else 0
      ensures ok ==> buffer != null
      ensures ok ==> buffer != null && offset + |text| <= buffer.Length && buffer[..offset + |text|] == before + text
      ensures Decided(ok, |before| + room)
      ensures ok && terminate ==> Printed(before, text)
    {
      ok := Ensure(room);
      if !ok {
        return;
      }
      var buf := buffer;
      PutBytes(buf, offset, text);
      if terminate {
        ghost var was := buf[..offset + |text|];
        buf[offset + |text|] := 0;
        assert buf[..offset + |text|] == was;
      }
    }

    /** print_string_ptr: a string between quotes, escaped where needed. */
    method PrintStringPtr(s: Text, ghost before: Text) returns (ok: bool)
      requires Written(before) && 0 !in s
      modifies this`buffer, buffer, memory`failures
      ensures buffer == old(buffer) || buffer == null || fresh(buffer)
      ensures noalloc ==> buffer == old(buffer)
      ensures memory.failures == old(memory.failures) + if buffer == null then 1 else 0
      ensures ok ==> buffer != null
      ensures ok ==> Printed(before, PrintString(s))
      ensures Decided(ok, |before| + |PrintString(s)| + 1)
    {
      var flag := NeedsEscape(s);
      if !flag {
        ok := Store([QUOTE] + s + [QUOTE], |s| + 3, true, before);
        return;
      }
      var len := EscapedLength(s);
      ok := Ensure(len + 3);
      if ok {
        PutQuoted(buffer, offset, s);
      }
    }

    /** The new end of the text: the first NUL from the offset on. */
    method Update(ghost before: Text, ghost text: Text) returns (end: nat)
      requires Printed(before, text) && 0 !in text
      ensures end == |before| + |text|
    {
      ghost var goal := |before| + |text|;
      forall i | offset <= i < goal
        ensures buffer[i] != 0
      {
        assert buffer[i] == buffer[..goal][i] == text[i - |before|];
      }
      end := offset;
      while buffer[end] != 0
        invariant offset <= end <= goal
        decreases goal - end
      {
        end := end + 1;
      }
    }

    /** Stores text and moves the offset behind it. */
    method Add(text: Text, room: nat, terminate: bool, ghost before: Text) returns (ok: bool)
      requires Written(before) && |text| + (if terminate then 1 else 0) <= room
      modifies this, buffer, memory`failures
      ensures buffer == old(buffer) || buffer == null || fresh(buffer)
      ensures noalloc ==> buffer == old(buffer)
      ensures memory.failures == old(memory.failures) + if buffer == null then 1 else 0
      ensures ok ==> buffer != null
      ensures ok ==> Written(before + text)
      ensures Decided(ok, |before| + room)
    {
      ok := Store(text, room, terminate, before);
      if ok {
        offset := offset + |text|;
      }
    }

    /** Prints a string and moves the offset behind it. */
    method AddString(s: Text, ghost before: Text) returns (ok: bool)
      requires Written(before) && 0 !in s
      modifies this, buffer, memory`failures
      ensures buffer == old(buffer) || buffer == null || fresh(buffer)
      ensures noalloc ==> buffer == old(buffer)
      ensures memory.failures == old(memory.failures) + if buffer == null then 1 else 0
      ensures ok ==> buffer != null
      ensures ok ==> Written(before + PrintString(s))
      ensures Decided(ok, |before| + |PrintString(s)| + 1)
    {
      hide Escape, PrintString;
      ok := PrintStringPtr(s, before);
      if ok {
        NoNulInString(s);
        offset := Update(before, PrintString(s));
      }
    }

    /** Prints a value and moves the offset behind it. */
    method AddValue(item: Json, depth: nat, fmt: bool, ghost before: Text) returns (ok: bool)
      requires Written(before) && Printable(item)
      modifies this, buffer, memory`failures
      ensures buffer == old(buffer) || buffer == null || fresh(buffer)
      ensures noalloc ==> buffer == old(buffer)
      ensures memory.failures == old(memory.failures) + if buffer == null then 1 else 0
      ensures ok ==> buffer != null
      ensures ok ==> Written(before + Print(item, depth, fmt))
      ensures Decided(ok, |before| + Need(item, depth, fmt))
      decreases item, 1
    {
      assert buffer != null;
      hide Print, Printable;
      ok := PrintValue(item, depth, fmt, before);
      if ok {
        NoNul(item, depth, fmt);
        offset := Update(before, Print(item, depth, fmt));
      }
    }

    method PrintNumber(m: int, ghost before: Text) returns (ok: bool)
      requires Written(before) && INT_MIN <= m <= INT_MAX
      modifies this, buffer, memory`failures
      ensures buffer == old(buffer) || buffer == null || fresh(buffer)
      ensures noalloc ==> buffer == old(buffer)
      ensures memory.failures == old(memory.failures) + if buffer == null then 1 else 0
      ensures ok ==> buffer != null
      ensures ok ==> Printed(before, Decimal(m))
      ensures Decided(ok, |before| + NumberNeed(m))
    {
      if m == 0 {
        ok := Store([48], 2, true, before);
      } else {
        IntFits(m);
        ok := Store(Decimal(m), 21, true, before);
      }
    }

    method PrintArray(items: seq<Json>, depth: nat, fmt: bool, ghost before: Text) returns (ok: bool)
      requires Written(before) && forall i :: 0 <= i < |items| ==> Printable(items[i])
      modifies this, buffer, memory`failures
      ensures buffer == old(buffer) || buffer == null || fresh(buffer)
      ensures noalloc ==> buffer == old(buffer)
      ensures memory.failures == old(memory.failures) + if buffer == null then 1 else 0
      ensures ok ==> buffer != null
      ensures ok ==> Printed(before, Print(Array(items), depth, fmt))
      ensures Decided(ok, |before| + Need(Array(items), depth, fmt))
      decreases items, 4
    {
      if items == [] {
        ok := Store([OPEN_ARRAY, CLOSE_ARRAY], 3, true, before);
        return;
      }
      ok := Add([OPEN_ARRAY], 1, false, before);
      if !ok {
        return;
      }
      hide Print, PrintItems, Printable, Written, Printed;
      ghost var text;
      ok, text := AddItems(items, depth + 1, fmt, before + [OPEN_ARRAY]);
      if !ok {
        return;
      }
      ok := Store([CLOSE_ARRAY], 2, true, text);
      if ok {
        ArrayText(items, depth, fmt, before);
        PrintedFrom(before, text, [CLOSE_ARRAY], Print(Array(items), depth, fmt));
      }
    }

    /** One step of the loop over the elements, seen from its goal. */
    method NextItem(items: seq<Json>, i: nat, depth: nat, fmt: bool, ghost done: Text, ghost goal: Text,
                    ghost enough: bool, ghost size: nat)
      returns (ok: bool)
      requires Written(done) && i < |items| && Printable(items[i])
      requires ItemsLeft(items, i, depth, fmt, done, goal, enough, size, noalloc)
      requires noalloc ==> size == buffer.Length
      modifies this, buffer, memory`failures
      ensures buffer == old(buffer) || buffer == null || fresh(buffer)
      ensures noalloc ==> buffer == old(buffer)
      ensures memory.failures == old(memory.failures) + if buffer == null then 1 else 0
      ensures ok ==> buffer != null && Written(done + ItemText(items, i, depth, fmt))
      ensures ok ==>
        ItemsLeft(items, i + 1, depth, fmt, done + ItemText(items, i, depth, fmt), goal, enough, size, noalloc)
      ensures !ok ==> if noalloc then !enough else buffer == null
      decreases items, 2
    {
      assert buffer != null;
      hide ItemsLeft, Print, Printable, Written, Need, ItemNeed, ItemText;
      ItemsLeftFrom(items, i, depth, fmt, done, goal, enough, size, noalloc);
      ok := AddItem(items, i, depth, fmt, done);
    }

    /** The elements one after the other. */
    method AddItems(items: seq<Json>, depth: nat, fmt: bool, ghost before: Text)
      returns (ok: bool, ghost text: Text)
      requires Written(before)
      requires forall i :: 0 <= i < |items| ==> Printable(items[i])
      modifies this, buffer, memory`failures
      ensures buffer == old(buffer) || buffer == null || fresh(buffer)
      ensures noalloc ==> buffer == old(buffer)
      ensures memory.failures == old(memory.failures) + if buffer == null then 1 else 0
      ensures ok ==> buffer != null
      ensures text == before + PrintItems(items, depth, fmt)
      ensures ok ==> Written(text)
      ensures Decided(ok, |before| + ItemsNeed(items, depth, fmt))
      decreases items, 3
    {
      assert buffer != null;
      hide ItemsLeft, Print, PrintItems, Printable, Written, ItemsNeed, ItemNeed, ItemText;
      ghost var goal := before + PrintItems(items, depth, fmt);
      ghost var size := buffer.Length;
      ghost var enough := |before| + ItemsNeed(items, depth, fmt) <= size;
      ItemsLeftAt(items, depth, fmt, before, goal, enough, size, noalloc);
      ghost var done := before;
      var i := 0;
      ok, text := true, goal;
      while i < |items|
        invariant i <= |items|
        invariant (buffer == old(buffer) || buffer == null || fresh(buffer)) && (noalloc ==> buffer == old(buffer))
        invariant buffer != null && memory.failures == old(memory.failures)
        invariant Written(done)
        invariant ItemsLeft(items, i, depth, fmt, done, goal, enough, size, noalloc)
      {
        ok := NextItem(items, i, depth, fmt, done, goal, enough, size);
        if !ok {
          return;
        }
        done := done + ItemText(items, i, depth, fmt);
        i := i + 1;
      }
      ItemsLeftAt(items, depth, fmt, done, goal, enough, size, noalloc);
      WrittenFits(done);
    }

    lemma WrittenFits(text: Text)
      requires Written(text)
      ensures |text| <= buffer.Length
    {}

    lemma PrintedFrom(before: Text, text: Text, last: Text, whole: Text)
      requires Printed(text, last) && text + last == before + whole && |before| <= |text|
      ensures Printed(before, whole)
    {}

    /** An element and, unless it is the last, its comma. */
    method AddItem(items: seq<Json>, i: nat, depth: nat, fmt: bool, ghost before: Text) returns (ok: bool)
      requires Written(before) && i < |items| && Printable(items[i])
      modifies this, buffer, memory`failures
      ensures buffer == old(buffer) || buffer == null || fresh(buffer)
      ensures noalloc ==> buffer == old(buffer)
      ensures memory.failures == old(memory.failures) + if buffer == null then 1 else 0
      ensures ok ==> buffer != null
      ensures ok ==> Written(before + ItemText(items, i, depth, fmt))
      ensures Decided(ok, |before| + ItemNeed(items, i, depth, fmt))
      decreases items, 1
    {
      assert buffer != null;
      hide Print, Printable, Written;
      ok := AddValue(items[i], depth, fmt, before);
      if ok && i + 1 < |items| {
        var sep := [COMMA] + If(fmt, [32]);
        ghost var text := before + Print(items[i], depth, fmt);
        ok := Add(sep, |sep| + 1, true, text);
        assert text + sep == before + ItemText(items, i, depth, fmt);
      } else if ok {
        assert before + ItemText(items, i, depth, fmt) == before + Print(items[i], depth, fmt);
      }
    }

    /** A key between its tabs and its colon. */
    method AddKey(m: Member, depth: nat, fmt: bool, ghost before: Text) returns (ok: bool)
      requires Written(before) && 0 !in m.key
      modifies this, buffer, memory`failures
      ensures buffer == old(buffer) || buffer == null || fresh(buffer)
      ensures noalloc ==> buffer == old(buffer)
      ensures memory.failures == old(memory.failures) + if buffer == null then 1 else 0
      ensures ok ==> buffer != null
      ensures ok ==> Written(before + KeyText(m, depth, fmt))
      ensures Decided(ok, |before| + |KeyText(m, depth, fmt)|)
    {
      assert buffer != null;
      hide Written, PrintString, Escape;
      ghost var text := before;
      assert before + [] == before;
      ok := true;
      if fmt {
        ok := Add(Tabs(depth), depth, false, text);
        if !ok {
          return;
        }
      }
      text := text + If(fmt, Tabs(depth));
      ok := AddString(m.key, text);
      if !ok {
        return;
      }
      text := text + PrintString(m.key);
      var colon := [COLON] + If(fmt, [TAB]);
      ok := Add(colon, |colon|, false, text);
      Append3(before, If(fmt, Tabs(depth)), PrintString(m.key), colon);
    }

    /** A member with its key, colon and comma, as far as they are due. */
    method AddMember(members: seq<Member>, i: nat, depth: nat, fmt: bool, ghost before: Text) returns (ok: bool)
      requires Written(before) && i < |members| && 0 !in members[i].key && Printable(members[i].value)
      modifies this, buffer, memory`failures
      ensures buffer == old(buffer) || buffer == null || fresh(buffer)
      ensures noalloc ==> buffer == old(buffer)
      ensures memory.failures == old(memory.failures) + if buffer == null then 1 else 0
      ensures ok ==> buffer != null
      ensures ok ==> Written(before + MemberText(members, i, depth, fmt))
      ensures Decided(ok, |before| + MemberNeed(members, i, depth, fmt))
      decreases members, 1
    {
      var m := members[i];
      var sep := Separator(members, i, fmt);
      MemberParts(members, i, depth, fmt);
      assert buffer != null;
      hide Print, Printable, Written, PrintString, KeyText, MemberText, Separator;
      ghost var text := before + KeyText(m, depth, fmt);
      ok := AddKey(m, depth, fmt, before);
      if !ok {
        return;
      }
      ok := AddValue(m.value, depth, fmt, text);
      if !ok {
        return;
      }
      text := text + Print(m.value, depth, fmt);
      ok := Add(sep, |sep| + 1, true, text);
      Append3(before, KeyText(m, depth, fmt), Print(m.value, depth, fmt), sep);
    }

    method PrintObject(members: seq<Member>, depth: nat, fmt: bool, ghost before: Text) returns (ok: bool)
      requires Written(before)
      requires forall i :: 0 <= i < |members| ==> 0 !in members[i].key && Printable(members[i].value)
      modifies this, buffer, memory`failures
      ensures buffer == old(buffer) || buffer == null || fresh(buffer)
      ensures noalloc ==> buffer == old(buffer)
      ensures memory.failures == old(memory.failures) + if buffer == null then 1 else 0
      ensures ok ==> buffer != null
      ensures ok ==> Printed(before, Print(Object(members), depth, fmt))
      ensures Decided(ok, |before| + Need(Object(members), depth, fmt))
      decreases members, 4
    {
      hide Need, MembersNeed, Print, PrintMembers, Printable, Written, Printed;
      if members == [] {
        var braces := [OPEN_OBJECT] + If(fmt, [NEWLINE]) + If(fmt, Tabs(depth)) + [CLOSE_OBJECT];
        NoMembersText(depth, fmt);
        ok := Store(braces, if fmt then depth + 4 else 3, true, before);
        return;
      }
      ObjectNeed(members, depth, fmt);
      var open := [OPEN_OBJECT] + If(fmt, [NEWLINE]);
      ok := Add(open, |open| + 1, true, before);
      if !ok {
        return;
      }
      ghost var text;
      ok, text := AddMembers(members, depth + 1, fmt, before + open);
      if !ok {
        return;
      }
      var close := If(fmt, Tabs(depth)) + [CLOSE_OBJECT];
      ok := Store(close, if fmt then depth + 2 else 2, true, text);
      if ok {
        ObjectText(members, depth, fmt, before);
        PrintedFrom(before, text, close, Print(Object(members), depth, fmt));
      }
    }

    /** One step of the loop over the members, seen from its goal. */
    method NextMember(members: seq<Member>, i: nat, depth: nat, fmt: bool, ghost done: Text, ghost goal: Text,
                      ghost enough: bool, ghost size: nat)
      returns (ok: bool)
      requires Written(done) && i < |members| && 0 !in members[i].key && Printable(members[i].value)
      requires MembersLeft(members, i, depth, fmt, done, goal, enough, size, noalloc)
      requires noalloc ==> size == buffer.Length
      modifies this, buffer, memory`failures
      ensures buffer == old(buffer) || buffer == null || fresh(buffer)
      ensures noalloc ==> buffer == old(buffer)
      ensures memory.failures == old(memory.failures) + if buffer == null then 1 else 0
      ensures ok ==> buffer != null && Written(done + MemberText(members, i, depth, fmt))
      ensures ok ==>
        MembersLeft(members, i + 1, depth, fmt, done + MemberText(members, i, depth, fmt), goal, enough, size, noalloc)
      ensures !ok ==> if noalloc then !enough else buffer == null
      decreases members, 2
    {
      assert buffer != null;
      hide MembersLeft, Print, Printable, Written, Need, MemberNeed, MemberText;
      MembersLeftFrom(members, i, depth, fmt, done, goal, enough, size, noalloc);
      ok := AddMember(members, i, depth, fmt, done);
    }

    /** The members one after the other. */
    method AddMembers(members: seq<Member>, depth: nat, fmt: bool, ghost before: Text)
      returns (ok: bool, ghost text: Text)
      requires Written(before)
      requires forall i :: 0 <= i < |members| ==> 0 !in members[i].key && Printable(members[i].value)
      modifies this, buffer, memory`failures
      ensures buffer == old(buffer) || buffer == null || fresh(buffer)
      ensures noalloc ==> buffer == old(buffer)
      ensures memory.failures == old(memory.failures) + if buffer == null then 1 else 0
      ensures ok ==> buffer != null
      ensures text == before + PrintMembers(members, depth, fmt)
      ensures ok ==> Written(text)
      ensures Decided(ok, |before| + MembersNeed(members, depth, fmt))
      decreases members, 3
    {
      assert buffer != null;
      hide MembersLeft, Print, PrintMembers, Printable, Written, MembersNeed, MemberNeed, MemberText, PrintMember, Need;
      hide PrintString, KeyText, Separator, If, Tabs, Max;
      ghost var goal := before + PrintMembers(members, depth, fmt);
      ghost var size := buffer.Length;
      ghost var enough := |before| + MembersNeed(members, depth, fmt) <= size;
      MembersLeftAt(members, depth, fmt, before, goal, enough, size, noalloc);
      ghost var done := before;
      var i := 0;
      ok, text := true, goal;
      while i < |members|
        invariant i <= |members|
        invariant (buffer == old(buffer) || buffer == null || fresh(buffer)) && (noalloc ==> buffer == old(buffer))
        invariant buffer != null && memory.failures == old(memory.failures)
        invariant Written(done)
        invariant MembersLeft(members, i, depth, fmt, done, goal, enough, size, noalloc)
      {
        ok := NextMember(members, i, depth, fmt, done, goal, enough, size);
        if !ok {
          return;
        }
        done := done + MemberText(members, i, depth, fmt);
        i := i + 1;
      }
      MembersLeftAt(members, depth, fmt, done, goal, enough, size, noalloc);
      WrittenFits(done);
    }

    method PrintValue(item: Json, depth: nat, fmt: bool, ghost before: Text) returns (ok: bool)
      requires Written(before) && Printable(item)
      modifies this, buffer, memory`failures
      ensures buffer == old(buffer) || buffer == null || fresh(buffer)
      ensures noalloc ==> buffer == old(buffer)
      ensures memory.failures == old(memory.failures) + if buffer == null then 1 else 0
      ensures ok ==> buffer != null
      ensures ok ==> Printed(before, Print(item, depth, fmt))
      ensures Decided(ok, |before| + Need(item, depth, fmt))
      decreases item, 0
    {
      match item
      case Null => ok := Store(NULL_TEXT, 5, true, before);
      case False => ok := Store(FALSE_TEXT, 6, true, before);
      case True => ok := Store(TRUE_TEXT, 5, true, before);
      case Number(m, _) => ok := PrintNumber(m, before);
      case String(s) => ok := PrintStringPtr(s, before);
      case Array(items) => ok := PrintArray(items, depth, fmt, before);
      case Object(members) => ok := PrintObject(members, depth, fmt, before);
    }
  }

  // ----- what a caller gets -----

  /** A C string: the text and its NUL stand at the start of the array. */
  ghost predicate Holds(a: array<byte>, text: Text)
    reads a
  {
    |text| < a.Length && a[..|text|] == text && a[|text|] == 0
  }

  /** cJSON_PrintBuffered: the text of the simple printer, exactly unless an allocation fails. */
  method PrintBuffered(memory: Memory, item: Json, prebuffer: nat, fmt: bool) returns (out: array?<byte>)
    requires Printable(item)
    modifies memory`failures
    ensures out != null ==> fresh(out) && Holds(out, Print(item, 0, fmt))
    ensures memory.failures == old(memory.failures) + if out == null then 1 else 0
  {
    out := null;
    var buf := memory.Allocate(prebuffer);
    if buf == null {
      return;
    }
    var p := new PrintBuffer(buf, false, memory);
    var ok := p.PrintValue(item, 0, fmt, []);
    if ok {
      assert [] + Print(item, 0, fmt) == Print(item, 0, fmt);
      out := p.buffer;
    }
  }

  /** cJSON_PrintPreallocated: the same text inside the caller's array, accepted exactly if its largest request fits. */
  method PrintPreallocated(item: Json, buf: array<byte>, fmt: bool) returns (ok: bool)
    requires Printable(item)
    modifies buf
    ensures ok ==> Holds(buf, Print(item, 0, fmt))
    ensures ok <==> Need(item, 0, fmt) <= buf.Length
    ensures buf.Length >= |Print(item, 0, fmt)| + SLACK ==> ok
    ensures buf.Length <= |Print(item, 0, fmt)| ==> !ok
  {
    var memory := new Memory();
    NeedIsClose(item, 0, fmt);
    var p := new PrintBuffer(buf, true, memory);
    ok := p.PrintValue(item, 0, fmt, []);
    assert [] + Print(item, 0, fmt) == Print(item, 0, fmt);
  }

  // ----- the simple printer: one allocation for each node -----

  method Strdup(memory: Memory, text: Text) returns (out: array?<byte>)
    modifies memory`failures
    ensures memory.failures >= old(memory.failures) && (out == null <==> memory.failures > old(memory.failures))
    ensures out != null ==> fresh(out) && Holds(out, text)
  {
    out := memory.Allocate(|text| + 1);
    if out != null {
      PutBytes(out, 0, text);
      out[|text|] := 0;
    }
  }

  method SimpleNumber(memory: Memory, m: int) returns (out: array?<byte>)
    requires INT_MIN <= m <= INT_MAX
    modifies memory`failures
    ensures memory.failures >= old(memory.failures) && (out == null <==> memory.failures > old(memory.failures))
    ensures out != null ==> fresh(out) && Holds(out, Decimal(m))
  {
    if m == 0 {
      out := Strdup(memory, [48]);
      return;
    }
    out := memory.Allocate(21);
    if out != null {
      IntFits(m);
      PutBytes(out, 0, Decimal(m));
      PutNul(out, |Decimal(m)|);
    }
  }

  method SimpleString(memory: Memory, s: Text) returns (out: array?<byte>)
    requires 0 !in s
    modifies memory`failures
    ensures memory.failures >= old(memory.failures) && (out == null <==> memory.failures > old(memory.failures))
    ensures out != null ==> fresh(out) && Holds(out, PrintString(s))
  {
    var flag := NeedsEscape(s);
    if !flag {
      out := Strdup(memory, [QUOTE] + s + [QUOTE]);
      return;
    }
    var len := EscapedLength(s);
    out := memory.Allocate(len + 3);
    if out != null {
      PutQuoted(out, 0, s);
    }
  }

  /** The C string that stands in an array. */
  method Strlen(a: array<byte>, ghost text: Text) returns (len: nat)
    requires Holds(a, text) && 0 !in text
    ensures len == |text|
  {
    forall i | 0 <= i < |text|
      ensures a[i] != 0
    {
      assert a[i] == a[..|text|][i];
    }
    len := 0;
    while a[len] != 0
      invariant len <= |text|
      decreases |text| - len
    {
      len := len + 1;
    }
  }

  /** The pointers to the printed parts are kept in tables of their own. */
  const POINTER_SIZE: nat := 4

  /** What the length computations allow for each element or member. */
  function ItemsRoom(items: seq<Json>, depth: nat, fmt: bool): nat {
    if items == [] then 0
    else |Print(items[0], depth, fmt)| + 2 + (if fmt then 1 else 0) + ItemsRoom(items[1..], depth, fmt)
  }

  function MembersRoom(members: seq<Member>, depth: nat, fmt: bool): nat {
    if members == [] then 0
    else
      |Print(members[0].value, depth, fmt)| + |PrintString(members[0].key)| + 2 + (if fmt then 2 + depth else 0)
      + MembersRoom(members[1..], depth, fmt)
  }

  lemma {:induction false} ItemsHaveRoom(items: seq<Json>, depth: nat, fmt: bool)
    ensures |PrintItems(items, depth, fmt)| <= ItemsRoom(items, depth, fmt)
  {
    if items != [] {
      ItemsHaveRoom(items[1..], depth, fmt);
    }
  }

  lemma {:induction false} MembersHaveRoom(members: seq<Member>, depth: nat, fmt: bool)
    ensures |PrintMembers(members, depth, fmt)|
         <= MembersRoom(members, depth, fmt) + (if fmt && members != [] then 1 else 0)
  {
    if members != [] {
      hide PrintString, Print;
      MembersHaveRoom(members[1..], depth, fmt);
    }
  }

  lemma MembersRoomStep(members: seq<Member>, i: nat, depth: nat, fmt: bool)
    requires i < |members|
    ensures MembersRoom(members[i..], depth, fmt)
         == |Print(members[i].value, depth, fmt)| + |PrintString(members[i].key)| + 2 + (if fmt then 2 + depth else 0)
            + MembersRoom(members[i + 1..], depth, fmt)
  {
    assert members[i..][0] == members[i] && members[i..][1..] == members[i + 1..];
  }

  /** Prints the elements one by one, and adds up the room they take together. */
  method SimpleItems(memory: Memory, items: seq<Json>, depth: nat, fmt: bool)
    returns (entries: seq<array<byte>>, len: nat)
    requires forall i :: 0 <= i < |items| ==> Printable(items[i])
    modifies memory`failures
    ensures memory.failures >= old(memory.failures) && (|entries| < |items| <==> memory.failures > old(memory.failures))
    ensures |entries| <= |items|
    ensures forall j :: 0 <= j < |entries| ==> fresh(entries[j]) && Holds(entries[j], Print(items[j], depth, fmt))
    ensures |entries| == |items| ==> len == 5 + ItemsRoom(items, depth, fmt)
    decreases items, 1
  {
    hide Print, Printable, Holds;
    entries, len := [], 5;
    var i := 0;
    assert items[0..] == items;
    while i < |items|
      invariant i == |entries| <= |items| && memory.failures == old(memory.failures)
      invariant forall j :: 0 <= j < i ==> fresh(entries[j]) && Holds(entries[j], Print(items[j], depth, fmt))
      invariant len + ItemsRoom(items[i..], depth, fmt) == 5 + ItemsRoom(items, depth, fmt)
    {
      var ret := SimpleValue(memory, items[i], depth, fmt);
      if ret == null {
        return;
      }
      NoNul(items[i], depth, fmt);
      var size := Strlen(ret, Print(items[i], depth, fmt));
      assert items[i..][0] == items[i] && items[i..][1..] == items[i + 1..];
      len := len + size + 2 + (if fmt then 1 else 0);
      entries := entries + [ret];
      i := i + 1;
    }
  }

  /** Copies a printed part behind the text so far. */
  method Join(out: array<byte>, at: nat, part: array<byte>, ghost text: Text) returns (end: nat)
    requires part != out && Holds(part, text) && 0 !in text && at + |text| <= out.Length
    modifies out
    ensures end == at + |text| && out[..end] == old(out[..at]) + text
  {
    var size := Strlen(part, text);
    PutBytes(out, at, part[..size]);
    end := at + size;
  }

  method JoinItems(out: array<byte>, entries: seq<array<byte>>, ghost items: seq<Json>, depth: nat, fmt: bool)
    returns (end: nat)
    requires |entries| == |items| && forall i :: 0 <= i < |items| ==> Printable(items[i])
    requires forall j :: 0 <= j < |entries| ==> entries[j] != out && Holds(entries[j], Print(items[j], depth, fmt))
    requires 1 + |PrintItems(items, depth, fmt)| <= out.Length
    modifies out
    ensures end == 1 + |PrintItems(items, depth, fmt)| && out[..end] == [OPEN_ARRAY] + PrintItems(items, depth, fmt)
  {
    hide Print, PrintItems, Printable;
    ghost var goal := [OPEN_ARRAY] + PrintItems(items, depth, fmt);
    out[0] := OPEN_ARRAY;
    end := 1;
    ghost var done: Text := [OPEN_ARRAY];
    assert items[0..] == items;
    for i := 0 to |entries|
      invariant end == |done| <= out.Length && out[..end] == done
      invariant forall j :: 0 <= j < |entries| ==> Holds(entries[j], Print(items[j], depth, fmt))
      invariant done + PrintItems(items[i..], depth, fmt) == goal
    {
      ItemsGoOn(items, i, depth, fmt, done);
      NoNul(items[i], depth, fmt);
      ghost var text := Print(items[i], depth, fmt);
      end := Join(out, end, entries[i], text);
      var sep := if i + 1 < |entries| then [COMMA] + If(fmt, [32]) else [];
      PutBytes(out, end, sep);
      end := end + |sep|;
      assert done + text + sep == done + ItemText(items, i, depth, fmt);
      done := done + text + sep;
    }
    ItemsEnd(items, depth, fmt, done);
  }

  method SimpleArray(memory: Memory, items: seq<Json>, depth: nat, fmt: bool) returns (out: array?<byte>)
    requires forall i :: 0 <= i < |items| ==> Printable(items[i])
    modifies memory`failures
    ensures memory.failures >= old(memory.failures) && (out == null <==> memory.failures > old(memory.failures))
    ensures out != null ==> fresh(out) && Holds(out, Print(Array(items), depth, fmt))
    decreases items, 2
  {
    if items == [] {
      out := Strdup(memory, [OPEN_ARRAY, CLOSE_ARRAY]);
      return;
    }
    hide PrintItems, ItemsRoom, Printable;
    out := memory.Allocate(|items| * POINTER_SIZE);
    if out == null {
      return;
    }
    var entries, len := SimpleItems(memory, items, depth + 1, fmt);
    out := null;
    if |entries| == |items| {
      out := memory.Allocate(len);
      if out != null {
        ItemsHaveRoom(items, depth + 1, fmt);
        var end := JoinItems(out, entries, items, depth + 1, fmt);
        PutBytes(out, end, [CLOSE_ARRAY]);
        PutNul(out, end + 1);
      }
    }
  }

  /** The key and the value of one member, and the length of both texts. */
  method SimpleMember(memory: Memory, m: Member, depth: nat, fmt: bool)
    returns (name: array?<byte>, entry: array?<byte>, size: nat)
    requires 0 !in m.key && Printable(m.value)
    modifies memory`failures
    ensures memory.failures >= old(memory.failures)
    ensures name == null || entry == null <==> memory.failures > old(memory.failures)
    ensures name != null ==> fresh(name) && Holds(name, PrintString(m.key))
    ensures entry != null ==> fresh(entry) && Holds(entry, Print(m.value, depth, fmt))
    ensures name != null && entry != null ==> size == |Print(m.value, depth, fmt)| + |PrintString(m.key)|
    decreases m, 1
  {
    hide Print, PrintString, Printable;
    name := SimpleString(memory, m.key);
    entry := SimpleValue(memory, m.value, depth, fmt);
    size := 0;
    if name != null && entry != null {
      NoNul(m.value, depth, fmt);
      NoNulInString(m.key);
      size := Strlen(entry, Print(m.value, depth, fmt));
      var nameSize := Strlen(name, PrintString(m.key));
      size := size + nameSize;
    }
  }

  /** The keys and values of an object, printed one by one. */
  method SimpleMembers(memory: Memory, members: seq<Member>, depth: nat, fmt: bool)
    returns (names: seq<array<byte>>, entries: seq<array<byte>>, len: nat)
    requires forall i :: 0 <= i < |members| ==> 0 !in members[i].key && Printable(members[i].value)
    modifies memory`failures
    ensures memory.failures >= old(memory.failures) && (|names| < |members| <==> memory.failures > old(memory.failures))
    ensures |names| == |entries| <= |members|
    ensures forall j :: 0 <= j < |names| ==> fresh(names[j]) && Holds(names[j], PrintString(members[j].key))
    ensures forall j :: 0 <= j < |names| ==> fresh(entries[j]) && Holds(entries[j], Print(members[j].value, depth, fmt))
    ensures |names| == |members| ==> len == 7 + (if fmt then depth else 0) + MembersRoom(members, depth, fmt)
    decreases members, 1
  {
    hide Print, PrintString, Printable, Holds;
    names, entries, len := [], [], 7 + (if fmt then depth else 0);
    ghost var goal := len + MembersRoom(members, depth, fmt);
    var i := 0;
    assert members[0..] == members;
    while i < |members|
      invariant i == |names| == |entries| <= |members| && memory.failures == old(memory.failures)
      invariant forall j :: 0 <= j < i ==> fresh(names[j]) && Holds(names[j], PrintString(members[j].key))
      invariant forall j :: 0 <= j < i ==> fresh(entries[j]) && Holds(entries[j], Print(members[j].value, depth, fmt))
      invariant len + MembersRoom(members[i..], depth, fmt) == goal
    {
      var str, ret, size := SimpleMember(memory, members[i], depth, fmt);
      if str == null || ret == null {
        return;
      }
      MembersRoomStep(members, i, depth, fmt);
      hide MembersRoom;
      len := len + size + 2 + (if fmt then 2 + depth else 0);
      names, entries := names + [str], entries + [ret];
      i := i + 1;
    }
  }

  /** Copies a printed part with what stands before and behind it. */
  method JoinBetween(out: array<byte>, at: nat, lead: Text, part: array<byte>, tail: Text, ghost text: Text)
    returns (end: nat)
    requires part != out && Holds(part, text) && 0 !in text && at + |lead| + |text| + |tail| <= out.Length
    modifies out
    ensures end == at + |lead| + |text| + |tail| && out[..end] == old(out[..at]) + lead + text + tail
  {
    PutBytes(out, at, lead);
    end := Join(out, at + |lead|, part, text);
    PutBytes(out, end, tail);
    end := end + |tail|;
  }

  /** Writes one member: tabs, key, colon, value, comma and line end. */
  method JoinMember(out: array<byte>, at: nat, name: array<byte>, entry: array<byte>,
                    ghost members: seq<Member>, i: nat, count: nat, depth: nat, fmt: bool) returns (end: nat)
    requires i < count == |members| && name != out && entry != out
    requires 0 !in members[i].key && Printable(members[i].value)
    requires Holds(name, PrintString(members[i].key)) && Holds(entry, Print(members[i].value, depth, fmt))
    requires at + |MemberText(members, i, depth, fmt)| <= out.Length
    modifies out
    ensures end == at + |MemberText(members, i, depth, fmt)|
    ensures out[..end] == old(out[..at]) + MemberText(members, i, depth, fmt)
  {
    ghost var m := members[i];
    ghost var key, value := PrintString(m.key), Print(m.value, depth, fmt);
    ghost var before := out[..at];
    var tabs := If(fmt, Tabs(depth));
    var colon := [COLON] + If(fmt, [TAB]);
    var sep := If(i + 1 < count, [COMMA]) + If(fmt, [NEWLINE]);
    assert KeyText(m, depth, fmt) == tabs + key + colon;
    MemberParts(members, i, depth, fmt);
    NoNul(m.value, depth, fmt);
    NoNulInString(m.key);
    assert sep == Separator(members, i, fmt);
    hide Print, PrintString, Printable, KeyText, MemberText, Separator, If, Tabs;
    end := JoinBetween(out, at, tabs, name, colon, key);
    end := JoinBetween(out, end, [], entry, sep, value);
    Regroup(before, tabs, key, colon, value, sep);
  }

  method JoinMembers(out: array<byte>, names: seq<array<byte>>, entries: seq<array<byte>>,
                     ghost members: seq<Member>, depth: nat, fmt: bool) returns (end: nat)
    requires |names| == |entries| == |members|
    requires forall i :: 0 <= i < |members| ==> 0 !in members[i].key && Printable(members[i].value)
    requires forall j :: 0 <= j < |names| ==> names[j] != out && Holds(names[j], PrintString(members[j].key))
    requires forall j :: 0 <= j < |names| ==>
      entries[j] != out && Holds(entries[j], Print(members[j].value, depth, fmt))
    requires |[OPEN_OBJECT] + If(fmt, [NEWLINE]) + PrintMembers(members, depth, fmt)| <= out.Length
    modifies out
    ensures end == |[OPEN_OBJECT] + If(fmt, [NEWLINE]) + PrintMembers(members, depth, fmt)|
    ensures out[..end] == [OPEN_OBJECT] + If(fmt, [NEWLINE]) + PrintMembers(members, depth, fmt)
  {
    hide Print, PrintMember, PrintMembers, PrintString, Printable;
    ghost var goal := [OPEN_OBJECT] + If(fmt, [NEWLINE]) + PrintMembers(members, depth, fmt);
    var open := [OPEN_OBJECT] + If(fmt, [NEWLINE]);
    PutBytes(out, 0, open);
    end := |open|;
    ghost var done: Text := open;
    assert members[0..] == members;
    for i := 0 to |entries|
      invariant end == |done| <= out.Length && out[..end] == done
      invariant forall j :: 0 <= j < |names| ==> Holds(names[j], PrintString(members[j].key))
      invariant forall j :: 0 <= j < |names| ==> Holds(entries[j], Print(members[j].value, depth, fmt))
      invariant done + PrintMembers(members[i..], depth, fmt) == goal
    {
      MembersGoOn(members, i, depth, fmt, done);
      end := JoinMember(out, end, names[i], entries[i], members, i, |entries|, depth, fmt);
      done := done + MemberText(members, i, depth, fmt);
    }
    MembersEnd(members, depth, fmt, done);
  }

  method SimpleObject(memory: Memory, members: seq<Member>, depth: nat, fmt: bool) returns (out: array?<byte>)
    requires forall i :: 0 <= i < |members| ==> 0 !in members[i].key && Printable(members[i].value)
    modifies memory`failures
    ensures memory.failures >= old(memory.failures) && (out == null <==> memory.failures > old(memory.failures))
    ensures out != null ==> fresh(out) && Holds(out, Print(Object(members), depth, fmt))
    decreases members, 3
  {
    if members == [] {
      NoMembersText(depth, fmt);
      out := Strdup(memory, [OPEN_OBJECT] + If(fmt, [NEWLINE]) + If(fmt, Tabs(depth)) + [CLOSE_OBJECT]);
      return;
    }
    ObjectHasRoom(members, depth, fmt);
    hide Print, PrintMembers, MembersRoom, Printable, PrintString, If, Tabs;
    out := memory.Allocate(|members| * POINTER_SIZE);
    if out != null {
      out := memory.Allocate(|members| * POINTER_SIZE);
    }
    if out == null {
      return;
    }
    var names, entries, len := SimpleMembers(memory, members, depth + 1, fmt);
    out := null;
    if |entries| == |members| {
      out := memory.Allocate(len);
      if out != null {
        ComposeObject(out, names, entries, members, depth, fmt);
      }
    }
  }

  lemma ObjectHasRoom(members: seq<Member>, depth: nat, fmt: bool)
    requires members != []
    ensures |Print(Object(members), depth, fmt)|
          < 7 + (if fmt then depth + 1 else 0) + MembersRoom(members, depth + 1, fmt)
  {
    hide PrintMembers, MembersRoom;
    MembersHaveRoom(members, depth + 1, fmt);
  }

  /** Puts an object together from its printed parts. */
  method ComposeObject(out: array<byte>, names: seq<array<byte>>, entries: seq<array<byte>>,
                       ghost members: seq<Member>, depth: nat, fmt: bool)
    requires |names| == |entries| == |members|
    requires forall i :: 0 <= i < |members| ==> 0 !in members[i].key && Printable(members[i].value)
    requires forall j :: 0 <= j < |names| ==> names[j] != out && Holds(names[j], PrintString(members[j].key))
    requires forall j :: 0 <= j < |names| ==>
      entries[j] != out && Holds(entries[j], Print(members[j].value, depth + 1, fmt))
    requires |Print(Object(members), depth, fmt)| < out.Length
    modifies out
    ensures Holds(out, Print(Object(members), depth, fmt))
  {
    var close := If(fmt, Tabs(depth)) + [CLOSE_OBJECT];
    ghost var whole := Print(Object(members), depth, fmt);
    assert whole == [OPEN_OBJECT] + If(fmt, [NEWLINE]) + PrintMembers(members, depth + 1, fmt) + close;
    hide Print, PrintMembers, PrintString, Printable, If, Tabs;
    var end := JoinMembers(out, names, entries, members, depth + 1, fmt);
    PutBytes(out, end, close);
    PutNul(out, end + |close|);
  }

  /** print_value without a buffer. */
  method SimpleValue(memory: Memory, item: Json, depth: nat, fmt: bool) returns (out: array?<byte>)
    requires Printable(item)
    modifies memory`failures
    ensures memory.failures >= old(memory.failures) && (out == null <==> memory.failures > old(memory.failures))
    ensures out != null ==> fresh(out) && Holds(out, Print(item, depth, fmt))
    decreases item, 0
  {
    match item
    case Null => out := Strdup(memory, NULL_TEXT);
    case False => out := Strdup(memory, FALSE_TEXT);
    case True => out := Strdup(memory, TRUE_TEXT);
    case Number(m, _) => out := SimpleNumber(memory, m);
    case String(s) => out := SimpleString(memory, s);
    case Array(items) => out := SimpleArray(memory, items, depth, fmt);
    case Object(members) => out := SimpleObject(memory, members, depth, fmt);
  }
}
