/** The AT parser's IP and hex parameters, and the texts that it prints for them. */
module AtParameter {
  import opened Wrappers
  import opened Bytes

  type Text = seq<byte>

  const SEPARATOR: byte := 44
  const CR: byte := 13
  const LF: byte := 10
  const COLON: byte := 58
  const DOT: byte := 46
  const QUO: byte := 34

  /** The option word of a descriptor: the size limit and the two ways to end that it allows. */
  datatype Options = Options(sizeLimit: nat, endPara: bool, endLine: bool)

  /** What a successful parameter yields: its bytes, whether the line is over, and where to go on. */
  datatype Taken = Taken(value: seq<byte>, over: bool, rest: Text)

  /** The byte at an index; the terminating NUL behind the text. */
  function ByteAt(s: Text, i: nat): byte { if i < |s| then s[i] else 0 }

  predicate EndsText(b: byte) { b == SEPARATOR || b == CR || b == LF }

  /** The text without its quotes. */
  function Unquoted(w: Text): Text {
    if w == [] then []
    else Unquoted(w[..|w| - 1]) + if w[|w| - 1] == QUO then [] else [w[|w| - 1]]
  }

  /** Where a parameter ends: at the first byte that may end one, or with the text. */
  function EndOf(s: Text, colonEnds: bool): (t: nat)
    ensures t <= |s|
    ensures forall i :: 0 <= i < t ==> !EndsText(s[i]) && !(colonEnds && s[i] == COLON)
    ensures t < |s| ==> EndsText(s[t]) || (colonEnds && s[t] == COLON)
  {
    if s == [] || EndsText(s[0]) || (colonEnds && s[0] == COLON) then 0 else 1 + EndOf(s[1..], colonEnds)
  }

  lemma {:induction false} EndIs(s: Text, colonEnds: bool, t: nat)
    requires t < |s| && (EndsText(s[t]) || (colonEnds && s[t] == COLON))
    requires forall i :: 0 <= i < t ==> !EndsText(s[i]) && !(colonEnds && s[i] == COLON)
    ensures EndOf(s, colonEnds) == t
  {
    if t > 0 {
      EndIs(s[1..], colonEnds, t - 1);
    }
  }

  predicate Allowed(end: byte, opt: Options) {
    if end == CR || end == LF then opt.endLine else opt.endPara
  }

  /** Behind the end of a line, with LF after CR taken along, or behind a separator. */
  function Behind(s: Text, t: nat): nat {
    if ByteAt(s, t) == CR && ByteAt(s, t + 1) == LF then t + 2 else t + 1
  }

  function From(s: Text, i: nat): Text { if i <= |s| then s[i..] else [] }

  lemma UnquotedMore(w: Text, b: byte)
    ensures Unquoted(w + [b]) == Unquoted(w) + if b == QUO then [] else [b]
  {
    assert (w + [b])[..|w|] == w;
  }

  lemma UnquotedNext(s: Text, i: nat)
    requires i < |s|
    ensures Unquoted(s[..i + 1]) == Unquoted(s[..i]) + if s[i] == QUO then [] else [s[i]]
  {
    assert s[..i + 1] == s[..i] + [s[i]];
    UnquotedMore(s[..i], s[i]);
  }

  // ----- IP addresses -----

  predicate IsDec(b: byte) { 48 <= b <= 57 }

  predicate AllDec(g: Text) { forall i :: 0 <= i < |g| ==> IsDec(g[i]) }

  function Atoi(g: Text): nat
    requires AllDec(g)
  {
    if g == [] then 0 else 10 * Atoi(g[..|g| - 1]) + (g[|g| - 1] - 48)
  }

  /** A group of an address: one to three digits, at most 255. */
  predicate IsOctet(g: Text) { 1 <= |g| <= 3 && AllDec(g) && Atoi(g) <= 255 }

  /** The groups between dots; at least one, maybe empty. */
  function Groups(w: Text): (gs: seq<Text>)
    ensures gs != []
  {
    if w == [] then [[]]
    else
      var gs, b, n := Groups(w[..|w| - 1]), w[|w| - 1], |Groups(w[..|w| - 1])| - 1;
      if b == DOT then gs + [[]] else gs[..n] + [gs[n] + [b]]
  }

  predicate IsIp(w: Text) { |Groups(w)| == 4 && forall i :: 0 <= i < 4 ==> IsOctet(Groups(w)[i]) }

  function Octet(g: Text): byte
    requires IsOctet(g)
  {
    Atoi(g)
  }

  function IpValue(w: Text): seq<byte>
    requires IsIp(w)
  {
    var gs := Groups(w);
    [Octet(gs[0]), Octet(gs[1]), Octet(gs[2]), Octet(gs[3])]
  }

  /** What an IP parameter means: four octets between dots, quotes aside, and an end that the options allow. */
  function IpParameter(s: Text, opt: Options): Option<Taken> {
    var t := EndOf(s, false);
    var w := Unquoted(s[..t]);
    if t < |s| && Allowed(s[t], opt) && IsIp(w) then Some(Taken(IpValue(w), s[t] != SEPARATOR, From(s, Behind(s, t))))
    else None
  }

  /** The beginning of a text that cannot become an address any more. */
  predicate Spoilt(w: Text) {
    var gs := Groups(w);
    || |gs| > 4
    || (exists i :: 0 <= i < |gs| - 1 && !IsOctet(gs[i]))
    || |gs[|gs| - 1]| > 3 || !AllDec(gs[|gs| - 1])
  }

  lemma GroupsMore(w: Text, b: byte)
    ensures var gs, n := Groups(w), |Groups(w)| - 1;
            Groups(w + [b]) == if b == DOT then gs + [[]] else gs[..n] + [gs[n] + [b]]
  {
    assert (w + [b])[..|w|] == w;
  }

  lemma SpoiltMore(w: Text, b: byte)
    requires Spoilt(w)
    ensures Spoilt(w + [b])
  {
    GroupsMore(w, b);
    var gs, hs, n := Groups(w), Groups(w + [b]), |Groups(w)| - 1;
    if i :| 0 <= i < n && !IsOctet(gs[i]) {
      assert !IsOctet(hs[i]);
    } else if b == DOT {
      assert hs[n] == gs[n];
    } else if !AllDec(gs[n]) {
      var i :| 0 <= i < |gs[n]| && !IsDec(gs[n][i]);
      assert !IsDec(hs[n][i]);
    }
  }

  lemma {:induction false} SpoiltStays(w: Text, v: Text)
    requires Spoilt(Unquoted(w))
    ensures Spoilt(Unquoted(w + v)) && !IsIp(Unquoted(w + v))
  {
    if v == [] {
      assert w + v == w;
    } else {
      var n := |v| - 1;
      SpoiltStays(w, v[..n]);
      assert w + v == (w + v[..n]) + [v[n]];
      UnquotedMore(w + v[..n], v[n]);
      if v[n] != QUO {
        SpoiltMore(Unquoted(w + v[..n]), v[n]);
      } else {
        assert Unquoted(w + v) == Unquoted(w + v[..n]);
      }
    }
  }

  /** The end of a parameter: how it ends and how far. */
  method TakeEnd(s: Text, i: nat) returns (ended: bool, over: bool, next: nat)
    ensures ended <==> i < |s| && EndsText(s[i])
    ensures ended ==> next == Behind(s, i) && (over <==> s[i] != SEPARATOR)
  {
    ended, over, next := true, true, i + 1;
    if ByteAt(s, i) == SEPARATOR {
      over := false;
    } else if ByteAt(s, i) == CR {
      if ByteAt(s, next) == LF {
        next := next + 1;
      }
    } else if ByteAt(s, i) != LF {
      ended := false;
    }
  }

  /** The groups read so far, with their octets, and the digits of the group that is being read. */
  ghost predicate IpState(w: Text, octets: seq<byte>, gs: seq<Text>, dec: Text) {
    && Groups(w) == gs + [dec] && |octets| == |gs| <= 4
    && |dec| <= 3 && AllDec(dec) && (|octets| == 4 ==> dec == [])
    && forall j :: 0 <= j < |gs| ==> IsOctet(gs[j]) && octets[j] == Octet(gs[j])
  }

  /** get_ip_para: it accepts exactly the IP parameters and reads off their octets. */
  method GetIpPara(s: Text, opt: Options) returns (r: Option<Taken>)
    ensures r == IpParameter(s, opt)
  {
    var i := 0;
    var octets: seq<byte>, dec: Text := [], [];
    ghost var gs: seq<Text> := [];
    assert Unquoted(s[..0]) == [] && IpState([], [], [], []) && NoEnd(s, 0);
    hide Unquoted, Groups, Spoilt, IpParameter, EndOf, IpState, Behind, ByteAt, EndsText, NoEnd;
    while |octets| < 4
      invariant 0 <= i <= |s| && IpState(Unquoted(s[..i]), octets, gs, dec) && NoEnd(s, i)
      decreases |s| - i
    {
      var ended, over, next := TakeEnd(s, i);
      if ended {
        IpEnd(s, i);
        r := FinishIp(s, opt, i, octets, dec, over, next, gs);
        return;
      }
      if i == |s| {
        EndOfAll(s, opt);
        return None;
      }
      UnquotedNext(s, i);
      var ok;
      ok, octets, dec, gs := TakeIpByte(s[i], octets, dec, gs, Unquoted(s[..i]));
      NoEndYet(s, i);
      i := i + 1;
      if !ok {
        NeverIp(s, i, opt);
        return None;
      }
    }
    SpoiltByNumber(Unquoted(s[..i]), octets, gs, dec);
    NeverIp(s, i, opt);
    r := None;
  }

  /** A quote is skipped, a dot ends a group, a digit continues it, and anything else is an error. */
  method TakeIpByte(b: byte, octets: seq<byte>, dec: Text, ghost gs: seq<Text>, ghost w: Text)
    returns (ok: bool, octets': seq<byte>, dec': Text, ghost gs': seq<Text>)
    requires IpState(w, octets, gs, dec) && |octets| < 4
    ensures ok ==> IpState(w + if b == QUO then [] else [b], octets', gs', dec')
    ensures !ok ==> Spoilt(w + if b == QUO then [] else [b])
  {
    ok, octets', dec', gs' := true, octets, dec, gs;
    GroupsMore(w, b);
    assert w + [] == w;
    hide Spoilt, Groups, Octet, Atoi, IsOctet;
    if b == QUO {
    } else if b == DOT {
      ok := IsOctet(dec);
      if ok {
        octets', gs', dec' := octets + [Octet(dec)], gs + [dec], [];
      } else {
        SpoiltByGroup(w + [b], gs, dec);
      }
    } else if IsDec(b) && |dec| < 3 {
      dec' := dec + [b];
    } else {
      ok := false;
      SpoiltByByte(w + [b], gs, dec, b);
    }
  }

  lemma SpoiltByGroup(w: Text, gs: seq<Text>, dec: Text)
    requires Groups(w) == gs + [dec] + [[]] && !IsOctet(dec)
    ensures Spoilt(w)
  {
    assert Groups(w)[|gs|] == dec;
  }

  lemma SpoiltByByte(w: Text, gs: seq<Text>, dec: Text, b: byte)
    requires Groups(w) == gs + [dec + [b]] && (!IsDec(b) || |dec| >= 3)
    ensures Spoilt(w)
  {
    assert (dec + [b])[|dec|] == b;
  }

  lemma SpoiltByNumber(w: Text, octets: seq<byte>, gs: seq<Text>, dec: Text)
    requires IpState(w, octets, gs, dec) && |octets| >= 4
    ensures Spoilt(w)
  {}

  /** The checks behind the loop. */
  method FinishIp(s: Text, opt: Options, t: nat, octets: seq<byte>, dec: Text, over: bool, next: nat,
                  ghost gs: seq<Text>)
    returns (r: Option<Taken>)
    requires t < |s| && EndOf(s, false) == t && IpState(Unquoted(s[..t]), octets, gs, dec) && |octets| < 4
    requires (over <==> s[t] != SEPARATOR) && next == Behind(s, t)
    ensures r == IpParameter(s, opt)
  {
    r := None;
    if Allowed(s[t], opt) && IsOctet(dec) && |octets| + 1 == 4 {
      var value := octets + [Octet(dec)];
      assert value == IpValue(Unquoted(s[..t]));
      r := Some(Taken(value, over, From(s, next)));
    }
  }

  lemma IpEnd(s: Text, i: nat)
    requires i < |s| && NoEnd(s, i) && EndsText(s[i])
    ensures EndOf(s, false) == i
  {
    EndIs(s, false, i);
  }

  ghost predicate NoEnd(s: Text, i: nat) { i <= |s| && forall j :: 0 <= j < i ==> !EndsText(s[j]) }

  lemma NoEndYet(s: Text, i: nat)
    requires i < |s| && NoEnd(s, i) && !EndsText(s[i])
    ensures NoEnd(s, i + 1)
  {}

  lemma EndOfAll(s: Text, opt: Options)
    requires NoEnd(s, |s|)
    ensures IpParameter(s, opt) == None
  {}

  lemma NeverIp(s: Text, i: nat, opt: Options)
    requires i <= |s| && NoEnd(s, i) && Spoilt(Unquoted(s[..i]))
    ensures IpParameter(s, opt) == None
  {
    var t := EndOf(s, false);
    if t < |s| {
      assert t >= i;
      assert s[..t] == s[..i] + s[i..t];
      SpoiltStays(s[..i], s[i..t]);
    }
  }

  /** "%d" of a byte. */
  function Dec(b: byte): Text {
    if b < 10 then [48 + b]
    else if b < 100 then [48 + b / 10, 48 + b % 10]
    else [48 + b / 100, 48 + b / 10 % 10, 48 + b % 10]
  }

  /** Parts with a byte between them. */
  function Joined(parts: seq<Text>, between: byte): Text {
    if parts == [] then []
    else if |parts| == 1 then parts[0]
    else Joined(parts[..|parts| - 1], between) + [between] + parts[|parts| - 1]
  }

  /** at_get_value for IP addresses. */
  method FormatIp(value: seq<byte>) returns (text: Text)
    ensures text == Joined(DecParts(value), DOT)
  {
    if value == [] {
      return [];
    }
    text := Dec(value[0]);
    for i := 1 to |value|
      invariant text == Joined(DecParts(value)[..i], DOT)
    {
      assert DecParts(value)[..i + 1][..i] == DecParts(value)[..i];
      text := text + ([DOT] + Dec(value[i]));
    }
    assert DecParts(value)[..|value|] == DecParts(value);
  }

  function DecParts(value: seq<byte>): seq<Text> { seq(|value|, i requires 0 <= i < |value| => Dec(value[i])) }

  lemma DecIsOctet(b: byte)
    ensures IsOctet(Dec(b)) && Octet(Dec(b)) == b && (|Dec(b)| > 1 ==> Dec(b)[0] != 48)
  {
    var g := Dec(b);
    assert forall i :: 0 <= i < |g| ==> IsDec(g[i]);
    if b < 10 {
      assert g[..0] == [];
    } else if b < 100 {
      assert g[..1] == [g[0]] && g[..1][..0] == [];
      assert Atoi(g[..1]) == b / 10;
    } else {
      assert g[..2] == [g[0], g[1]] && g[..2][..1] == [g[0]] && g[..1][..0] == [];
      var n: int := b;
      assert Atoi(g[..1]) == n / 100;
      assert Atoi(g[..2]) == 10 * (n / 100) + n / 10 % 10;
      assert g[..|g| - 1] == g[..2];
      assert Atoi(g) == 10 * (10 * (n / 100) + n / 10 % 10) + n % 10;
      assert n / 100 == n / 10 / 10;
    }
  }

  /** The groups with more text in the last one. */
  ghost function Extended(gs: seq<Text>, p: Text): seq<Text>
    requires gs != []
  {
    gs[..|gs| - 1] + [gs[|gs| - 1] + p]
  }

  lemma ExtendTwice(gs: seq<Text>, p: Text, b: byte)
    requires gs != []
    ensures Extended(Extended(gs, p), [b]) == Extended(gs, p + [b])
  {
    assert gs[|gs| - 1] + p + [b] == gs[|gs| - 1] + (p + [b]);
  }

  lemma ExtendByNothing(gs: seq<Text>)
    requires gs != []
    ensures Extended(gs, []) == gs
  {
    assert gs[|gs| - 1] + [] == gs[|gs| - 1];
  }

  lemma ExtendByByte(w: Text, b: byte)
    requires b != DOT
    ensures Groups(w + [b]) == Extended(Groups(w), [b])
  {
    GroupsMore(w, b);
  }

  lemma LastByte(w: Text, p: Text)
    requires p != []
    ensures w + p == (w + p[..|p| - 1]) + [p[|p| - 1]] && p[..|p| - 1] + [p[|p| - 1]] == p
  {}

  /** Text without dots continues the last group. */
  lemma {:induction false} GroupsAppend(w: Text, p: Text)
    requires DOT !in p
    ensures Groups(w + p) == Extended(Groups(w), p)
    decreases |p|
  {
    hide Groups, Extended;
    if p == [] {
      assert w + p == w;
      ExtendByNothing(Groups(w));
    } else {
      var q, b := p[..|p| - 1], p[|p| - 1];
      LastByte(w, p);
      GroupsAppend(w, q);
      ExtendByByte(w + q, b);
      ExtendTwice(Groups(w), q, b);
    }
  }

  lemma {:induction false} GroupsOfJoined(parts: seq<Text>)
    requires parts != [] && forall i :: 0 <= i < |parts| ==> DOT !in parts[i]
    ensures Groups(Joined(parts, DOT)) == parts
  {
    hide Groups;
    var n := |parts| - 1;
    assert [] + parts[n] == parts[n];
    if n == 0 {
      NoGroups();
      GroupsAppend([], parts[0]);
    } else {
      var w := Joined(parts[..n], DOT);
      GroupsOfJoined(parts[..n]);
      GroupsMore(w, DOT);
      GroupsAppend(w + [DOT], parts[n]);
      hide Joined;
      assert Extended(parts[..n] + [[]], parts[n]) == parts;
    }
  }

  lemma NoGroups()
    ensures Groups([]) == [[]]
  {}

  /** Bytes that may stand in a parameter without ending it or being skipped. */
  predicate IsPlain(w: Text, colonEnds: bool) {
    forall i :: 0 <= i < |w| ==> !EndsText(w[i]) && w[i] != QUO && !(colonEnds && w[i] == COLON)
  }

  lemma {:induction false} UnquotedPlain(w: Text)
    requires QUO !in w
    ensures Unquoted(w) == w
  {
    if w != [] {
      UnquotedPlain(w[..|w| - 1]);
      assert w == w[..|w| - 1] + [w[|w| - 1]];
    }
  }

  lemma {:induction false} JoinedIsPlain(parts: seq<Text>, between: byte)
    requires forall i :: 0 <= i < |parts| ==> IsPlain(parts[i], false)
    requires !EndsText(between) && between != QUO
    ensures IsPlain(Joined(parts, between), false)
  {
    if |parts| > 1 {
      JoinedIsPlain(parts[..|parts| - 1], between);
    }
  }

  // ----- every way to end a parameter -----

  /** Nothing in front of the end can end the parameter. */
  predicate NoEnds(w: Text, colonEnds: bool) { 44 !in w && 13 !in w && 10 !in w && (colonEnds ==> 58 !in w) }

  /** A comma, a lone LF, CR LF, a CR that no LF follows, and for some parameters a colon. */
  predicate IsEnd(end: Text, more: Text, colonEnds: bool) {
    end == [44] || end == [10] || end == [13, 10] || (end == [13] && (more == [] || more[0] != 10))
    || (colonEnds && end == [58])
  }

  lemma CutAt(w: Text, end: Text, more: Text, colonEnds: bool)
    requires NoEnds(w, colonEnds) && IsEnd(end, more, colonEnds)
    ensures var s := w + end + more;
            && EndOf(s, colonEnds) == |w| && |w| < |s| && s[|w|] == end[0] && s[..|w|] == w
            && s[|w| + |end|..] == more && (end != [58] ==> Behind(s, |w|) == |w| + |end|)
  {
    var s := w + end + more;
    forall i | 0 <= i < |w|
      ensures !EndsText(s[i]) && !(colonEnds && s[i] == COLON)
    {
      assert s[i] == w[i];
    }
    assert s[|w|] == end[0];
    EndIs(s, colonEnds, |w|);
    if |end| == 2 {
      assert s[|w| + 1] == end[1];
    } else if more != [] {
      assert s[|w| + 1] == more[0];
    }
  }

  /** Quotes are left out wherever they stand, and nothing else is. */
  lemma QuotesAreSkipped(u: Text, v: Text)
    ensures 34 !in u ==> Unquoted(u) == u
    ensures Unquoted(u + [34] + v) == Unquoted(u) + Unquoted(v)
  {
    if QUO !in u {
      UnquotedPlain(u);
    }
    UnquotedMore(u, 34);
    UnquotedSplits(u + [34], v);
  }

  /** An address in front of an end: what is read, when it is refused, and where reading goes on. */
  lemma IpBefore(w: Text, end: Text, more: Text, opt: Options)
    requires NoEnds(w, false) && IsEnd(end, more, false)
    ensures IpParameter(w + end + more, opt)
         == if (if end == [44] then opt.endPara else opt.endLine) && IsIp(Unquoted(w))
            then Some(Taken(IpValue(Unquoted(w)), end != [44], more)) else None
  {
    CutAt(w, end, more, false);
  }

  lemma IpWithoutEnd(w: Text, opt: Options)
    requires NoEnds(w, false)
    ensures IpParameter(w, opt) == None
  {}

  /** A group is an octet if its one to three digits give at most 255; leading zeros do no harm. */
  lemma OctetIs(a: nat, b: nat, c: nat)
    requires a < 10 && b < 10 && c < 10
    ensures IsOctet([48 + a]) && Octet([48 + a]) == a
    ensures IsOctet([48 + a, 48 + b]) && Octet([48 + a, 48 + b]) == 10 * a + b
    ensures var g := [48 + a, 48 + b, 48 + c]; IsOctet(g) <==> 100 * a + 10 * b + c <= 255
    ensures var g := [48 + a, 48 + b, 48 + c]; IsOctet(g) ==> Octet(g) == 100 * a + 10 * b + c
  {
    var g1, g2, g3: Text := [48 + a], [48 + a, 48 + b], [48 + a, 48 + b, 48 + c];
    assert g1[..|g1| - 1] == [] && g2[..|g2| - 1] == g1 && g3[..|g3| - 1] == g2;
    assert Atoi(g1) == a;
    assert Atoi(g2) == 10 * a + b;
  }

  lemma OnlyDigits(g: Text)
    requires IsOctet(g)
    ensures 1 <= |g| <= 3 && forall i :: 0 <= i < |g| ==> 48 <= g[i] <= 57
  {}

  /** An address is four octets with dots between them. */
  lemma AddressIsFour(parts: seq<Text>)
    requires parts != [] && forall i :: 0 <= i < |parts| ==> 46 !in parts[i]
    ensures IsIp(Joined(parts, 46)) <==> |parts| == 4 && forall i :: 0 <= i < 4 ==> IsOctet(parts[i])
    ensures IsIp(Joined(parts, 46)) ==>
      IpValue(Joined(parts, 46)) == [Octet(parts[0]), Octet(parts[1]), Octet(parts[2]), Octet(parts[3])]
  {
    GroupsOfJoined(parts);
  }

  /** Any four bytes printed as an address come back, whatever ends them. */
  lemma IpComesBack(value: seq<byte>, end: Text, more: Text, opt: Options)
    requires |value| == 4 && IsEnd(end, more, false) && if end == [44] then opt.endPara else opt.endLine
    ensures IpParameter(Joined(DecParts(value), DOT) + end + more, opt) == Some(Taken(value, end != [44], more))
  {
    hide Dec, Joined, Groups, Unquoted, IsOctet, Octet, IsPlain, EndOf, IsIp, IpValue, IpParameter;
    var parts := DecParts(value);
    var w := Joined(parts, DOT);
    forall i | 0 <= i < 4
      ensures IsOctet(parts[i]) && Octet(parts[i]) == value[i] && IsPlain(parts[i], false) && DOT !in parts[i]
    {
      DecIsOctet(value[i]);
      DecIsPlain(value[i]);
    }
    GroupsOfJoined(parts);
    JoinedIsPlain(parts, DOT);
    PlainHasNoEnds(w, false);
    UnquotedPlain(w);
    IpBefore(w, end, more, opt);
    AddressIs(w, value);
  }

  lemma PlainHasNoEnds(w: Text, colonEnds: bool)
    requires IsPlain(w, colonEnds)
    ensures NoEnds(w, colonEnds) && QUO !in w
  {}

  lemma DecIsPlain(b: byte)
    ensures IsPlain(Dec(b), false) && DOT !in Dec(b)
  {}

  lemma AddressIs(w: Text, value: seq<byte>)
    requires |value| == 4 && Groups(w) == DecParts(value)
    requires forall i :: 0 <= i < 4 ==> IsOctet(DecParts(value)[i]) && Octet(DecParts(value)[i]) == value[i]
    ensures IsIp(w) && IpValue(w) == value
  {
    hide Dec, Groups, IsOctet, Octet;
  }

  // ----- hexadecimal bytes -----

  predicate AllHex(w: Text) { forall i :: 0 <= i < |w| ==> HexValue(w[i]).Some? }

  function Pair(hi: byte, lo: byte): byte
    requires HexValue(hi).Some? && HexValue(lo).Some?
  {
    16 * HexValue(hi).value + HexValue(lo).value
  }

  /** Two digits for each byte. */
  function Pairs(w: Text): seq<byte>
    requires AllHex(w)
  {
    seq(|w| / 2, i requires 0 <= i < |w| / 2 => Pair(w[2 * i], w[2 * i + 1]))
  }

  /** A colon ends a parameter and is skipped; behind every other end one more byte is skipped. */
  function BehindHex(s: Text, t: nat): nat { if ByteAt(s, t) == COLON then t + 1 else Behind(s, t) + 1 }

  /** What a hex parameter means: pairs of digits, at least one and at most as many as the size limit. */
  function HexParameter(s: Text, opt: Options): Option<Taken> {
    var t := EndOf(s, true);
    var w := Unquoted(s[..t]);
    if t < |s| && Allowed(s[t], opt) && AllHex(w) && |w| % 2 == 0 && 0 < |w| <= 2 * opt.sizeLimit then
      Some(Taken(Pairs(w), s[t] == CR || s[t] == LF, From(s, BehindHex(s, t))))
    else None
  }

  /** The bytes stored so far and the digits that wait for being stored. */
  ghost predicate HexState(w: Text, stored: seq<byte>, digits: Text) {
    && AllHex(w) && |digits| <= 2 && |w| == 2 * |stored| + |digits| && w[2 * |stored|..] == digits
    && Pairs(w[..2 * |stored|]) == stored
  }

  ghost predicate NoHexEnd(s: Text, i: nat) { i <= |s| && forall j :: 0 <= j < i ==> !EndsText(s[j]) && s[j] != COLON }

  lemma HexEnd(s: Text, i: nat)
    requires i < |s| && NoHexEnd(s, i) && (EndsText(s[i]) || s[i] == COLON)
    ensures EndOf(s, true) == i
  {
    EndIs(s, true, i);
  }

  lemma StoreByte(w: Text, stored: seq<byte>, digits: Text)
    requires HexState(w, stored, digits) && |digits| == 2
    ensures AllHex(digits) && HexState(w, stored + [Pair(digits[0], digits[1])], [])
  {
    var n := 2 * |stored|;
    assert digits[0] == w[n] && digits[1] == w[n + 1];
    assert w[..n + 2] == w;
    var more := stored + [Pair(digits[0], digits[1])];
    forall i | 0 <= i < |more|
      ensures Pairs(w)[i] == more[i]
    {
      if i < |stored| {
        assert Pairs(w[..n])[i] == stored[i];
      }
    }
  }

  lemma AddDigit(w: Text, stored: seq<byte>, digits: Text, b: byte)
    requires HexState(w, stored, digits) && |digits| < 2 && HexValue(b).Some?
    ensures HexState(w + [b], stored, digits + [b])
  {
    assert (w + [b])[..2 * |stored|] == w[..2 * |stored|];
  }

  lemma {:induction false} UnquotedSplits(u: Text, v: Text)
    ensures Unquoted(u + v) == Unquoted(u) + Unquoted(v)
  {
    if v == [] {
      assert u + v == u;
    } else {
      var n := |v| - 1;
      UnquotedSplits(u, v[..n]);
      UnquotedMore(u + v[..n], v[n]);
      UnquotedMore(v[..n], v[n]);
      hide Unquoted;
      LastByte(u, v);
      Assoc(Unquoted(u), Unquoted(v[..n]), if v[n] == QUO then [] else [v[n]]);
    }
  }

  lemma Assoc(a: Text, b: Text, c: Text)
    ensures a + (b + c) == a + b + c
  {}

  lemma NeverHex(s: Text, i: nat, opt: Options)
    requires NoHexEnd(s, i)
    requires !AllHex(Unquoted(s[..i])) || |Unquoted(s[..i])| > 2 * opt.sizeLimit || i == |s|
    ensures HexParameter(s, opt) == None
  {
    var t := EndOf(s, true);
    if t < |s| {
      assert t >= i;
      assert s[..t] == s[..i] + s[i..t];
      UnquotedSplits(s[..i], s[i..t]);
      var u, w := Unquoted(s[..i]), Unquoted(s[..t]);
      if j :| 0 <= j < |u| && HexValue(u[j]).None? {
        assert w[j] == u[j];
      }
    }
  }

  /** A byte is stored only in front of another one that belongs to the parameter. */
  ghost predicate MoreFollows(s: Text, i: nat, stored: seq<byte>, digits: Text) {
    stored != [] && digits == [] ==> i < |s| && !EndsText(s[i]) && s[i] != COLON && s[i] != QUO
  }

  /** get_hex_para: it accepts exactly the hex parameters and reads off their bytes. */
  method GetHexPara(s: Text, opt: Options) returns (r: Option<Taken>)
    ensures r == HexParameter(s, opt)
  {
    var i := 0;
    var stored: seq<byte>, digits: Text := [], [];
    assert Unquoted(s[..0]) == [] && HexState([], [], []);
    hide Unquoted, HexParameter, EndOf, HexState, BehindHex, NoHexEnd, EndsText, Pairs, AllHex, Pair, MoreFollows;
    assert MoreFollows(s, i, stored, digits) by { NothingStored(s, i); }
    assert NoHexEnd(s, 0) by { NoHexEndYet(s); }
    while |stored| < opt.sizeLimit
      invariant 0 <= i <= |s| && HexState(Unquoted(s[..i]), stored, digits) && NoHexEnd(s, i)
      invariant MoreFollows(s, i, stored, digits) && (|stored| >= opt.sizeLimit ==> digits == [])
      decreases |s| - i, |digits|
    {
      var ended, over, next := TakeEnd(s, i);
      if ended || ByteAt(s, i) == COLON {
        r := FinishHex(s, opt, i, stored, digits, ended && over, if ended then next + 1 else i + 1);
        return;
      }
      if i == |s| {
        NeverHex(s, i, opt);
        return None;
      }
      var ok;
      ok, i, stored, digits := TakeHexByte(s, i, stored, digits, opt);
      if !ok {
        return None;
      }
    }
    TooManyHex(s, i, stored, digits, opt);
    r := None;
  }

  lemma NothingStored(s: Text, i: nat)
    ensures MoreFollows(s, i, [], [])
  {}

  lemma NoHexEndYet(s: Text)
    ensures NoHexEnd(s, 0)
  {}

  lemma TooManyHex(s: Text, i: nat, stored: seq<byte>, digits: Text, opt: Options)
    requires i <= |s| && HexState(Unquoted(s[..i]), stored, digits) && NoHexEnd(s, i)
    requires MoreFollows(s, i, stored, digits)
    requires |stored| >= opt.sizeLimit && digits == []
    ensures HexParameter(s, opt) == None
  {
    if stored != [] {
      UnquotedNext(s, i);
      NeverHex(s, i + 1, opt);
    }
  }

  /** A quote is skipped; a digit waits for its partner; two digits are stored when another byte follows. */
  method TakeHexByte(s: Text, i: nat, stored: seq<byte>, digits: Text, opt: Options)
    returns (ok: bool, i': nat, stored': seq<byte>, digits': Text)
    requires i < |s| && !EndsText(s[i]) && s[i] != COLON && |stored| < opt.sizeLimit
    requires HexState(Unquoted(s[..i]), stored, digits) && NoHexEnd(s, i) && MoreFollows(s, i, stored, digits)
    ensures ok ==> i' <= |s| && HexState(Unquoted(s[..i']), stored', digits') && NoHexEnd(s, i')
    ensures ok ==> MoreFollows(s, i', stored', digits') && (|stored'| >= opt.sizeLimit ==> digits' == [])
    ensures ok ==> i' > i || (i' == i && |digits'| < |digits|)
    ensures !ok ==> HexParameter(s, opt) == None
  {
    ok, i', stored', digits' := true, i, stored, digits;
    ghost var w := Unquoted(s[..i]);
    UnquotedNext(s, i);
    if s[i] == QUO {
      assert w + [] == w;
      i' := i + 1;
    } else if |digits| < 2 {
      ok := HexValue(s[i]).Some?;
      if ok {
        AddDigit(w, stored, digits, s[i]);
        digits', i' := digits + [s[i]], i + 1;
      } else {
        assert HexValue((w + [s[i]])[|w|]).None?;
        NeverHex(s, i + 1, opt);
      }
    } else {
      StoreByte(w, stored, digits);
      stored', digits' := stored + [Pair(digits[0], digits[1])], [];
    }
  }

  /** The checks behind the loop; the last two digits are stored here. */
  method FinishHex(s: Text, opt: Options, t: nat, stored: seq<byte>, digits: Text, over: bool, next: nat)
    returns (r: Option<Taken>)
    requires t < |s| && NoHexEnd(s, t) && (EndsText(s[t]) || s[t] == COLON) && |stored| < opt.sizeLimit
    requires HexState(Unquoted(s[..t]), stored, digits) && MoreFollows(s, t, stored, digits)
    requires (over <==> s[t] == CR || s[t] == LF) && next == BehindHex(s, t)
    ensures r == HexParameter(s, opt)
  {
    HexEnd(s, t);
    r := None;
    if Allowed(s[t], opt) && |digits| == 2 {
      StoreByte(Unquoted(s[..t]), stored, digits);
      r := Some(Taken(stored + [Pair(digits[0], digits[1])], over, From(s, next)));
      WholeHex(Unquoted(s[..t]), stored + [Pair(digits[0], digits[1])]);
    }
  }

  lemma WholeHex(w: Text, stored: seq<byte>)
    requires HexState(w, stored, [])
    ensures Pairs(w) == stored && |w| == 2 * |stored|
  {
    assert w[..2 * |stored|] == w;
  }

  /** "%02X" of a byte. */
  function Hex2(b: byte): Text { [HexDigit(b / 16), HexDigit(b % 16)] }

  function HexDigit(n: nat): byte
    requires n < 16
  {
    if n < 10 then 48 + n else 55 + n
  }

  function HexParts(value: seq<byte>): seq<Text> { seq(|value|, i requires 0 <= i < |value| => Hex2(value[i])) }

  /** at_get_value for hexadecimal bytes. */
  method FormatHex(value: seq<byte>) returns (text: Text)
    ensures text == Joined(HexParts(value), COLON)
  {
    if value == [] {
      return [];
    }
    text := Hex2(value[0]);
    for i := 1 to |value|
      invariant text == Joined(HexParts(value)[..i], COLON)
    {
      assert HexParts(value)[..i + 1][..i] == HexParts(value)[..i];
      text := text + ([COLON] + Hex2(value[i]));
    }
    assert HexParts(value)[..|value|] == HexParts(value);
  }

  lemma Hex2IsHex(b: byte)
    ensures IsPlain(Hex2(b), true) && AllHex(Hex2(b)) && Pairs(Hex2(b)) == [b]
    ensures HexValue(Hex2(b)[0]) == Some(b / 16) && HexValue(Hex2(b)[1]) == Some(b % 16)
    ensures Hex2(b)[0] < 97 && Hex2(b)[1] < 97
  {
    var w := Hex2(b);
    assert HexValue(w[0]) == Some(b / 16) && HexValue(w[1]) == Some(b % 16);
    assert Pairs(w)[0] == Pair(w[2 * 0], w[2 * 0 + 1]);
  }

  predicate IsHex(w: Text, limit: nat) { AllHex(w) && |w| % 2 == 0 && 0 < |w| <= 2 * limit }

  /** Hexadecimal text in front of an end: behind every end but a colon, one more byte is skipped. */
  lemma HexBefore(w: Text, end: Text, more: Text, opt: Options)
    requires NoEnds(w, true) && IsEnd(end, more, true)
    ensures HexParameter(w + end + more, opt)
         == if (if end == [44] || end == [58] then opt.endPara else opt.endLine) && IsHex(Unquoted(w), opt.sizeLimit)
            then Some(Taken(Pairs(Unquoted(w)), end != [44] && end != [58],
                            if end == [58] || more == [] then more else more[1..]))
            else None
  {
    hide Pairs, AllHex, Unquoted, HexParameter, EndOf, BehindHex, From, IsHex;
    CutAt(w, end, more, true);
    HexAt(w + end + more, |w|, opt);
    RestBehind(w + end + more, |w|, end, more);
  }

  lemma RestBehind(s: Text, t: nat, end: Text, more: Text)
    requires IsEnd(end, more, true) && t < |s| && s[t] == end[0] && t + |end| <= |s| && s[t + |end|..] == more
    requires end != [58] ==> Behind(s, t) == t + |end|
    ensures From(s, BehindHex(s, t)) == if end == [58] || more == [] then more else more[1..]
  {
    assert more != [] ==> s[t + |end|..][1..] == s[t + |end| + 1..];
  }

  lemma HexAt(s: Text, t: nat, opt: Options)
    requires EndOf(s, true) == t < |s|
    ensures HexParameter(s, opt)
         == if Allowed(s[t], opt) && IsHex(Unquoted(s[..t]), opt.sizeLimit)
            then Some(Taken(Pairs(Unquoted(s[..t])), s[t] == CR || s[t] == LF, From(s, BehindHex(s, t)))) else None
  {
    hide Pairs, AllHex, Unquoted, EndOf;
  }

  lemma HexWithoutEnd(w: Text, opt: Options)
    requires NoEnds(w, true)
    ensures HexParameter(w, opt) == None
  {}

  function HexWord(value: seq<byte>): Text { if value == [] then [] else Hex2(value[0]) + HexWord(value[1..]) }

  lemma PairInFront(u: Text, v: Text)
    requires AllHex(u) && AllHex(v) && |u| == 2
    ensures AllHex(u + v) && Pairs(u + v) == Pairs(u) + Pairs(v)
  {
    hide HexValue;
    var w := u + v;
    forall i | 0 < i < |w| / 2
      ensures Pairs(w)[i] == Pairs(v)[i - 1]
    {
      assert w[2 * i] == v[2 * (i - 1)] && w[2 * i + 1] == v[2 * (i - 1) + 1];
    }
    assert Pairs(w)[0] == Pairs(u)[0];
  }

  lemma {:induction false} HexWordIsHex(value: seq<byte>)
    ensures AllHex(HexWord(value)) && |HexWord(value)| == 2 * |value| && Pairs(HexWord(value)) == value
    ensures IsPlain(HexWord(value), true)
  {
    if value != [] {
      HexWordIsHex(value[1..]);
      Hex2IsHex(value[0]);
      PairInFront(Hex2(value[0]), HexWord(value[1..]));
      hide AllHex, Pairs, HexDigit;
      assert value == [value[0]] + value[1..];
    }
  }

  /** Bytes written as digits come back whatever ends them, exactly if there is room for them. */
  lemma HexWordComesBack(value: seq<byte>, end: Text, more: Text, opt: Options)
    requires value != [] && IsEnd(end, more, true)
    requires if end == [44] || end == [58] then opt.endPara else opt.endLine
    ensures HexParameter(HexWord(value) + end + more, opt)
         == if |value| > opt.sizeLimit then None
            else Some(Taken(value, end != [44] && end != [58], if end == [58] || more == [] then more else more[1..]))
  {
    var w := HexWord(value);
    HexWordIsHex(value);
    hide HexWord, IsPlain, Pairs, AllHex, HexParameter, Unquoted;
    PlainHasNoEnds(w, true);
    UnquotedPlain(w);
    HexBefore(w, end, more, opt);
  }

  // ----- lists of parameters -----

  datatype Kind = Hex | Ip

  datatype Descriptor = Descriptor(kind: Kind, opt: Options)

  function Parameter(s: Text, d: Descriptor): Option<Taken> {
    if d.kind == Hex then HexParameter(s, d.opt) else IpParameter(s, d.opt)
  }

  /** The values up to the end of the line or the first error, and whether there was one. */
  function Parameters(s: Text, list: seq<Descriptor>): (r: (seq<seq<byte>>, bool))
    decreases |list|
  {
    if list == [] then ([], false)
    else
      var p := Parameter(s, list[0]);
      if p.None? then ([], true)
      else if p.value.over then ([p.value.value], false)
      else
        var rest := Parameters(p.value.rest, list[1..]);
        ([p.value.value] + rest.0, rest.1)
  }

  ghost function WithValues(values: seq<seq<byte>>, r: (seq<seq<byte>>, bool)): (seq<seq<byte>>, bool) {
    (values + r.0, r.1)
  }

  lemma NextParameter(values: seq<seq<byte>>, s: Text, list: seq<Descriptor>)
    requires list != []
    ensures var p := Parameter(s, list[0]);
            WithValues(values, Parameters(s, list)) ==
            if p.None? then (values, true)
            else if p.value.over then (values + [p.value.value], false)
            else WithValues(values + [p.value.value], Parameters(p.value.rest, list[1..]))
  {
    hide Parameter;
    assert values + [] == values;
    var p := Parameter(s, list[0]);
    if p.Some? {
      var rest := Parameters(p.value.rest, list[1..]).0;
      assert values + ([p.value.value] + rest) == values + [p.value.value] + rest;
    }
  }

  /** Without descriptors, the line has to end at once. */
  function CommandParameters(s: Text, list: seq<Descriptor>): (seq<seq<byte>>, bool) {
    if list == [] then ([], ByteAt(s, 0) != LF && ByteAt(s, 0) != CR) else Parameters(s, list)
  }

  /** at_get_parameters. */
  method GetParameters(s: Text, list: seq<Descriptor>) returns (values: seq<seq<byte>>, error: bool)
    ensures (values, error) == CommandParameters(s, list)
    ensures list == [] ==> values == [] && (error <==> s == [] || (s[0] != 10 && s[0] != 13))
  {
    values, error := [], false;
    if list == [] {
      error := ByteAt(s, 0) != LF && ByteAt(s, 0) != CR;
      return;
    }
    var para := s;
    assert list[0..] == list && [] + Parameters(s, list).0 == Parameters(s, list).0;
    for i := 0 to |list|
      invariant !error && Parameters(s, list) == WithValues(values, Parameters(para, list[i..]))
    {
      assert list[i..][0] == list[i] && list[i..][1..] == list[i + 1..];
      NextParameter(values, para, list[i..]);
      hide HexParameter, IpParameter, Parameters, WithValues;
      var res;
      if list[i].kind == Hex {
        res := GetHexPara(para, list[i].opt);
      } else {
        res := GetIpPara(para, list[i].opt);
      }
      if res.None? {
        error := true;
        return;
      }
      values := values + [res.value.value];
      para := res.value.rest;
      if res.value.over {
        return;
      }
    }
    assert values + [] == values;
  }

  // ----- whole lists come back -----

  /** A value as it is typed: an address, or two digits for each byte. */
  function Typed(value: seq<byte>, d: Descriptor): Text {
    if d.kind == Ip then Joined(DecParts(value), DOT) else HexWord(value)
  }

  /** A value that the descriptor has room for. */
  predicate Suits(value: seq<byte>, d: Descriptor) {
    if d.kind == Ip then |value| == 4 else 0 < |value| <= d.opt.sizeLimit
  }

  /** A value with more to come: a comma behind an address; behind digits a colon, or a comma and one byte to skip. */
  ghost predicate Continues(text: Text, value: seq<byte>, d: Descriptor) {
    || text == Typed(value, d) + (if d.kind == Ip then [44] else [58])
    || (d.kind == Hex && |text| == |Typed(value, d)| + 2 && text[..|text| - 1] == Typed(value, d) + [44])
  }

  lemma OneValue(text: Text, value: seq<byte>, d: Descriptor, more: Text)
    requires Suits(value, d) && d.opt.endPara && Continues(text, value, d)
    ensures Parameter(text + more, d) == Some(Taken(value, false, more))
  {
    hide Joined, DecParts, HexWord, IpParameter, HexParameter;
    var w := Typed(value, d);
    if d.kind == Ip {
      IpComesBack(value, [44], more, d.opt);
    } else if text == w + [58] {
      HexWordComesBack(value, [58], more, d.opt);
    } else {
      var skipped := [text[|text| - 1]];
      HexWordComesBack(value, [44], skipped + more, d.opt);
      assert text + more == w + [44] + (skipped + more) && (skipped + more)[1..] == more;
    }
  }

  lemma LastValue(value: seq<byte>, d: Descriptor, end: Text, more: Text)
    requires Suits(value, d) && d.opt.endLine && IsEnd(end, more, false) && end != [44]
    ensures var r := Parameter(Typed(value, d) + end + more, d);
            r.Some? && r.value.value == value && r.value.over
  {
    hide Joined, DecParts, HexWord, IpParameter, HexParameter;
    if d.kind == Ip {
      IpComesBack(value, end, more, d.opt);
    } else {
      HexWordComesBack(value, end, more, d.opt);
    }
  }

  /** Texts one after the other. */
  function Flat(texts: seq<Text>): Text { if texts == [] then [] else texts[0] + Flat(texts[1..]) }

  /** Each text is its value with more to come. */
  ghost predicate AllContinue(texts: seq<Text>, values: seq<seq<byte>>, list: seq<Descriptor>) {
    && |texts| == |values| <= |list|
    && forall i :: 0 <= i < |values| ==>
         Suits(values[i], list[i]) && list[i].opt.endPara && Continues(texts[i], values[i], list[i])
  }

  /** The values at the front of a line are read, and reading goes on exactly behind them. */
  lemma {:induction false} FrontComesBack(texts: seq<Text>, values: seq<seq<byte>>, list: seq<Descriptor>, more: Text)
    requires AllContinue(texts, values, list)
    ensures var r := Parameters(more, list[|values|..]);
            Parameters(Flat(texts) + more, list) == (values + r.0, r.1)
    decreases |values|
  {
    hide Parameter, Continues, Suits;
    if values == [] {
      assert Flat(texts) + more == more && list[0..] == list;
      assert values + Parameters(more, list).0 == Parameters(more, list).0;
    } else {
      var rest := Flat(texts[1..]) + more;
      assert Flat(texts) + more == texts[0] + rest;
      OneValue(texts[0], values[0], list[0], rest);
      FrontComesBack(texts[1..], values[1..], list[1..], more);
      assert list[1..][|values| - 1..] == list[|values|..];
      var r := Parameters(more, list[|values|..]);
      assert [values[0]] + (values[1..] + r.0) == values + r.0;
    }
  }

  /** A line with at most as many values as descriptors gives exactly those values. */
  lemma LineComesBack(texts: seq<Text>, values: seq<seq<byte>>, last: seq<byte>, list: seq<Descriptor>, end: Text,
                      more: Text)
    requires AllContinue(texts, values, list) && |values| < |list|
    requires var d := list[|values|]; Suits(last, d) && d.opt.endLine && IsEnd(end, more, false) && end != [44]
    ensures Parameters(Flat(texts) + (Typed(last, list[|values|]) + end + more), list) == (values + [last], false)
  {
    hide Typed, IsEnd, Suits, Parameter;
    FrontComesBack(texts, values, list, Typed(last, list[|values|]) + end + more);
    LastValue(last, list[|values|], end, more);
  }

  /** When the descriptors run out, the rest of the line is left alone; a value that cannot be read is an error. */
  lemma LineBreaksOff(texts: seq<Text>, values: seq<seq<byte>>, list: seq<Descriptor>, more: Text)
    requires AllContinue(texts, values, list)
    requires |values| == |list| || Parameter(more, list[|values|]).None?
    ensures Parameters(Flat(texts) + more, list) == (values, |values| < |list|)
  {
    hide Parameter;
    FrontComesBack(texts, values, list, more);
    assert values + [] == values;
  }

  lemma {:induction false} JoinedFront(parts: seq<Text>, between: byte)
    requires |parts| > 1
    ensures Joined(parts, between) == parts[0] + [between] + Joined(parts[1..], between)
  {
    var n := |parts| - 1;
    if n > 1 {
      JoinedFront(parts[..n], between);
      assert parts[..n][1..] == parts[1..][..n - 1];
    }
  }

  function Singles(value: seq<byte>): seq<seq<byte>> { seq(|value|, i requires 0 <= i < |value| => [value[i]]) }

  /** Values as texts that a separator follows each, and the last one without. */
  lemma {:induction false} JoinedIsFlat(parts: seq<Text>, between: byte, texts: seq<Text>)
    requires |parts| == |texts| + 1 && forall i :: 0 <= i < |texts| ==> texts[i] == parts[i] + [between]
    ensures Joined(parts, between) == Flat(texts) + parts[|texts|]
    decreases |parts|
  {
    if texts != [] {
      JoinedFront(parts, between);
      JoinedIsFlat(parts[1..], between, texts[1..]);
      assert parts[1..][|texts| - 1] == parts[|texts|];
      hide Joined;
      Assoc(texts[0], Flat(texts[1..]), parts[|texts|]);
    }
  }

  /** A list of values printed one after the other with a byte between them. */
  function Printed(values: seq<seq<byte>>, list: seq<Descriptor>): seq<Text>
    requires |values| == |list|
  {
    seq(|values|, i requires 0 <= i < |values| => Typed(values[i], list[i]))
  }

  /** Any addresses printed, joined with commas, ended by CR LF and read through as many descriptors come back. */
  lemma IpListComesBack(values: seq<seq<byte>>, list: seq<Descriptor>, more: Text)
    requires values != [] && |list| == |values| && list[|list| - 1].opt.endLine
    requires forall i :: 0 <= i < |list| ==> list[i].kind == Ip && |values[i]| == 4
    requires forall i :: 0 <= i < |list| - 1 ==> list[i].opt.endPara
    ensures Parameters(Joined(Printed(values, list), 44) + [13, 10] + more, list) == (values, false)
  {
    ListComesBack(values, list, 44, more);
  }

  lemma ListComesBack(values: seq<seq<byte>>, list: seq<Descriptor>, between: byte, more: Text)
    requires values != [] && |list| == |values| && list[|list| - 1].opt.endLine
    requires forall i :: 0 <= i < |list| ==> Suits(values[i], list[i])
    requires forall i :: 0 <= i < |list| ==> between == if list[i].kind == Ip then 44 else 58
    requires forall i :: 0 <= i < |list| - 1 ==> list[i].opt.endPara
    ensures Parameters(Joined(Printed(values, list), between) + [13, 10] + more, list) == (values, false)
  {
    var parts, n := Printed(values, list), |values| - 1;
    var texts := seq(n, i requires 0 <= i < n => parts[i] + [between]);
    hide AllContinue, Suits, Typed, Parameters, Flat, Joined, IsEnd;
    JoinedIsFlat(parts, between, texts);
    PrintedContinue(values, list, between, parts, texts);
    LineEndIsEnd(more);
    LineComesBack(texts, values[..n], values[n], list, [13, 10], more);
    Regroup(Flat(texts), parts[n], [13, 10], more);
    FrontAndLast(values);
  }

  lemma FrontAndLast(values: seq<seq<byte>>)
    requires values != []
    ensures values[..|values| - 1] + [values[|values| - 1]] == values
  {}

  lemma Regroup(a: Text, b: Text, c: Text, d: Text)
    ensures a + b + c + d == a + (b + c + d)
  {}

  lemma LineEndIsEnd(more: Text)
    ensures IsEnd([13, 10], more, false)
  {}

  lemma PrintedContinue(values: seq<seq<byte>>, list: seq<Descriptor>, between: byte, parts: seq<Text>,
                        texts: seq<Text>)
    requires values != [] && |list| == |values| && parts == Printed(values, list) && |texts| == |values| - 1
    requires forall i :: 0 <= i < |texts| ==> texts[i] == parts[i] + [between]
    requires forall i :: 0 <= i < |list| ==> Suits(values[i], list[i])
    requires forall i :: 0 <= i < |list| ==> between == if list[i].kind == Ip then 44 else 58
    requires forall i :: 0 <= i < |list| - 1 ==> list[i].opt.endPara
    ensures AllContinue(texts, values[..|texts|], list)
  {
    hide Suits, Typed;
  }

  lemma SinglesArePrinted(value: seq<byte>, list: seq<Descriptor>)
    requires |list| == |value| && forall i :: 0 <= i < |list| ==> list[i].kind == Hex
    ensures Printed(Singles(value), list) == HexParts(value)
  {
    forall i | 0 <= i < |value|
      ensures Printed(Singles(value), list)[i] == Hex2(value[i])
    {
      assert HexWord([value[i]]) == Hex2(value[i]) + HexWord([]);
    }
  }

  /** Any bytes printed in hexadecimal with colons and read through as many one-byte descriptors come back. */
  lemma HexComesBack(value: seq<byte>, list: seq<Descriptor>, more: Text)
    requires value != [] && |list| == |value|
    requires forall i :: 0 <= i < |list| ==> list[i].kind == Hex && list[i].opt.sizeLimit >= 1
    requires forall i :: 0 <= i < |list| - 1 ==> list[i].opt.endPara
    requires list[|list| - 1].opt.endLine
    ensures Parameters(Joined(HexParts(value), COLON) + [CR, LF] + more, list) == (Singles(value), false)
  {
    SinglesArePrinted(value, list);
    ListComesBack(Singles(value), list, COLON, more);
  }
}
