/** CoreMark's number scanner, its grammar, and the benchmark body that corrupts and restores its input. */
module CoreState {
  import Crc

  type Symbol = bv8

  const COMMA: Symbol := 44

  datatype State = Start | Invalid | S1 | S2 | Int | Float | Exponent | Scientific

  const NUM_STATES: nat := 8

  function Index(s: State): (i: nat)
    ensures i < NUM_STATES
  {
    match s
    case Start => 0
    case Invalid => 1
    case S1 => 2
    case S2 => 3
    case Int => 4
    case Float => 5
    case Exponent => 6
    case Scientific => 7
  }

  predicate IsDigit(c: Symbol) { 48 <= c <= 57 }

  predicate IsSign(c: Symbol) { c == 43 || c == 45 }

  predicate IsPoint(c: Symbol) { c == 46 }

  predicate IsE(c: Symbol) { c == 69 || c == 101 }

  // ----- the automaton -----

  function Next(s: State, c: Symbol): State {
    match s
    case Start => if IsDigit(c) then Int else if IsSign(c) then S1 else if IsPoint(c) then Float else Invalid
    case S1 => if IsDigit(c) then Int else if IsPoint(c) then Float else Invalid
    case Int => if IsPoint(c) then Float else if IsDigit(c) then Int else Invalid
    case Float => if IsE(c) then S2 else if IsDigit(c) then Float else Invalid
    case S2 => if IsSign(c) then Exponent else Invalid
    case Exponent => if IsDigit(c) then Scientific else Invalid
    case Scientific => if IsDigit(c) then Scientific else Invalid
    case Invalid => Invalid
  }

  /** The state after all symbols of a token. */
  function Final(w: seq<Symbol>): State {
    if w == [] then Start else Next(Final(w[..|w| - 1]), w[|w| - 1])
  }

  lemma FinalOfMore(w: seq<Symbol>, c: Symbol)
    ensures Final(w + [c]) == Next(Final(w), c)
  {
    assert (w + [c])[..|w|] == w;
  }

  /** Once invalid, a token stays so whatever follows. */
  lemma {:induction false} InvalidStays(v: seq<Symbol>, w: seq<Symbol>)
    requires Final(v) == Invalid
    ensures Final(v + w) == Invalid
  {
    if w == [] {
      assert v + w == v;
    } else {
      var n := |w| - 1;
      InvalidStays(v, w[..n]);
      assert v + w == (v + w[..n]) + [w[n]];
      FinalOfMore(v + w[..n], w[n]);
    }
  }

  // ----- the grammar -----

  predicate Digits(w: seq<Symbol>) { forall i :: 0 <= i < |w| ==> IsDigit(w[i]) }

  /** What remains behind an optional sign. */
  function Unsigned(w: seq<Symbol>): seq<Symbol> { if w != [] && IsSign(w[0]) then w[1..] else w }

  predicate IsInteger(w: seq<Symbol>) { Unsigned(w) != [] && Digits(Unsigned(w)) }

  /** A point with any number of digits on both sides, even none. */
  ghost predicate IsFloating(w: seq<Symbol>) { exists k :: PointAt(Unsigned(w), k) }

  predicate PointAt(u: seq<Symbol>, k: int) { 0 <= k < |u| && IsPoint(u[k]) && Digits(u[..k]) && Digits(u[k + 1..]) }

  /** A floating number, E, a sign that may not be missing, and at least one digit. */
  ghost predicate IsScientific(w: seq<Symbol>) { exists k :: EAt(w, k) && k + 2 < |w| && Digits(w[k + 2..]) }

  /** A floating number and E end before k + 1, and a sign follows. */
  ghost predicate EAt(w: seq<Symbol>, k: int) {
    0 <= k && k + 1 < |w| && IsFloating(w[..k]) && IsE(w[k]) && IsSign(w[k + 1])
  }

  /** The language that a state stands for. */
  ghost predicate Matches(w: seq<Symbol>, s: State)
    requires s != Invalid
  {
    match s
    case Start => w == []
    case S1 => |w| == 1 && IsSign(w[0])
    case Int => IsInteger(w)
    case Float => IsFloating(w)
    case S2 => w != [] && IsFloating(w[..|w| - 1]) && IsE(w[|w| - 1])
    case Exponent => EAt(w, |w| - 2)
    case Scientific => IsScientific(w)
  }

  // ----- how each language grows by a symbol -----

  ghost predicate Before(w: seq<Symbol>) { w == [] || (|w| == 1 && IsSign(w[0])) }

  lemma UnsignedOfMore(v: seq<Symbol>, c: Symbol)
    ensures v != [] ==> Unsigned(v + [c]) == Unsigned(v) + [c]
    ensures v == [] ==> Unsigned(v + [c]) == if IsSign(c) then [] else [c]
  {
    if v != [] {
      assert (v + [c])[1..] == v[1..] + [c];
    }
  }

  lemma DigitsOfMore(u: seq<Symbol>, c: Symbol)
    ensures Digits(u + [c]) <==> Digits(u) && IsDigit(c)
  {
    if Digits(u + [c]) {
      assert (u + [c])[|u|] == c;
      forall i | 0 <= i < |u|
        ensures IsDigit(u[i])
      {
        assert (u + [c])[i] == u[i];
      }
    }
  }

  lemma IntegerOfMore(v: seq<Symbol>, c: Symbol)
    ensures IsInteger(v + [c]) <==> IsDigit(c) && (Before(v) || IsInteger(v))
  {
    UnsignedOfMore(v, c);
    DigitsOfMore(Unsigned(v), c);
    DigitsOfMore([], c);
    assert [] + [c] == [c];
  }

  lemma PointOfMore(u: seq<Symbol>, c: Symbol, k: nat)
    requires k < |u|
    ensures PointAt(u + [c], k) <==> PointAt(u, k) && IsDigit(c)
  {
    assert (u + [c])[..k] == u[..k] && (u + [c])[k + 1..] == u[k + 1..] + [c];
    DigitsOfMore(u[k + 1..], c);
  }

  lemma FloatingOfMore(v: seq<Symbol>, c: Symbol)
    ensures IsFloating(v + [c]) <==> (IsPoint(c) && (Before(v) || IsInteger(v))) || (IsDigit(c) && IsFloating(v))
  {
    var u, w := Unsigned(v), Unsigned(v + [c]);
    UnsignedOfMore(v, c);
    if v == [] {
      assert PointAt([c], 0) <==> IsPoint(c);
    } else {
      assert w == u + [c] && w[..|u|] == u && w[|u| + 1..] == [];
      forall k: nat | k < |u|
        ensures PointAt(w, k) <==> PointAt(u, k) && IsDigit(c)
      {
        PointOfMore(u, c, k);
      }
      assert PointAt(w, |u|) <==> IsPoint(c) && Digits(u);
      assert u == [] <==> Before(v);
      if IsFloating(v + [c]) {
        var k :| PointAt(w, k);
      }
      if IsDigit(c) && IsFloating(v) {
        var k :| PointAt(u, k);
        assert PointAt(w, k);
      }
    }
  }

  lemma EOfMore(v: seq<Symbol>, c: Symbol, k: nat)
    requires k + 1 < |v|
    ensures EAt(v + [c], k) <==> EAt(v, k)
  {
    assert (v + [c])[..k] == v[..k];
  }

  lemma ScientificOfMore(v: seq<Symbol>, c: Symbol)
    ensures IsScientific(v + [c]) <==> IsDigit(c) && (EAt(v, |v| - 2) || IsScientific(v))
  {
    var w := v + [c];
    hide EAt;
    forall k: nat | k + 2 < |w|
      ensures Digits(w[k + 2..]) <==> Digits(v[k + 2..]) && IsDigit(c)
      ensures EAt(w, k) <==> EAt(v, k)
    {
      assert w[k + 2..] == v[k + 2..] + [c];
      DigitsOfMore(v[k + 2..], c);
      EOfMore(v, c, k);
    }
    SignBehindE(v);
    SignBehindE(w);
    if IsScientific(w) {
      var k :| EAt(w, k) && k + 2 < |w| && Digits(w[k + 2..]);
      assert EAt(v, k);
    }
    if IsDigit(c) && EAt(v, |v| - 2) {
      assert v[|v|..] == [];
      assert EAt(w, |v| - 2) && Digits(w[|v|..]);
    }
    if IsDigit(c) && IsScientific(v) {
      var k :| EAt(v, k) && k + 2 < |v| && Digits(v[k + 2..]);
      assert EAt(w, k);
    }
  }

  lemma SignBehindE(w: seq<Symbol>)
    ensures forall k :: EAt(w, k) ==> 0 <= k && k + 1 < |w|
  {}

  /** A state other than the invalid one is reached exactly on the tokens of its language. */
  lemma {:induction false} Classifies(w: seq<Symbol>, s: State)
    requires s != Invalid
    ensures Final(w) == s <==> Matches(w, s)
    decreases |w|
  {
    if w == [] {
      assert Unsigned(w) == [];
    } else {
      var v, c := w[..|w| - 1], w[|w| - 1];
      assert w == v + [c];
      IntegerOfMore(v, c);
      FloatingOfMore(v, c);
      ScientificOfMore(v, c);
      Classifies(v, Start);
      Classifies(v, S1);
      Classifies(v, Int);
      Classifies(v, Float);
      Classifies(v, S2);
      Classifies(v, Exponent);
      Classifies(v, Scientific);
      LongerMatches(v, c);
    }
  }

  lemma LongerMatches(v: seq<Symbol>, c: Symbol)
    ensures Matches(v + [c], S2) <==> Matches(v, Float) && IsE(c)
    ensures Matches(v + [c], Exponent) <==> Matches(v, S2) && IsSign(c)
  {
    var w := v + [c];
    assert w[..|v|] == v;
    if v != [] {
      assert w[..|v| - 1] == v[..|v| - 1];
    }
  }

  // ----- tokens in memory -----

  /** Where the token at a position ends: at the next comma or NUL. */
  function TokenEnd(m: seq<Symbol>, pos: nat): (e: nat)
    requires pos <= |m|
    ensures pos <= e <= |m| && (e < |m| ==> m[e] == 0 || m[e] == COMMA)
    ensures forall i :: pos <= i < e ==> m[i] != 0 && m[i] != COMMA
    decreases |m| - pos
  {
    if pos == |m| || m[pos] == 0 || m[pos] == COMMA then pos else TokenEnd(m, pos + 1)
  }

  function Token(m: seq<Symbol>, pos: nat): seq<Symbol>
    requires pos <= |m|
  {
    m[pos..TokenEnd(m, pos)]
  }

  /** How much of an invalid token is consumed: up to and including the symbol that makes it invalid. */
  function Offence(w: seq<Symbol>): (k: nat)
    requires Final(w) == Invalid
    ensures 0 < k <= |w| && Final(w[..k]) == Invalid && Final(w[..k - 1]) != Invalid
  {
    var v := w[..|w| - 1];
    assert w[..|w|] == w;
    if Final(v) == Invalid then
      var k := Offence(v);
      assert v[..k] == w[..k] && v[..k - 1] == w[..k - 1];
      k
    else |w|
  }

  /** Where scanning goes on: behind the offending symbol, or behind the comma, or at the NUL. */
  function ScanEnd(m: seq<Symbol>, pos: nat): (e: nat)
    requires pos <= |m|
    ensures pos <= e <= |m|
    ensures pos < |m| && m[pos] != 0 ==> e > pos
  {
    if Final(Token(m, pos)) == Invalid then pos + Offence(Token(m, pos))
    else if TokenEnd(m, pos) < |m| && m[TokenEnd(m, pos)] == COMMA then TokenEnd(m, pos) + 1
    else TokenEnd(m, pos)
  }

  /** What scanning a symbol adds to the counter of a state: states count being left, except that an invalid
      ending of a scientific number counts for the invalid state, and an invalid start for both. */
  function Bump(s: State, c: Symbol, k: State): nat {
    if Next(s, c) == s then 0
    else if s == Scientific then if k == Invalid then 1 else 0
    else if k == s || (s == Start && Next(s, c) == Invalid && k == Invalid) then 1
    else 0
  }

  function Tally(w: seq<Symbol>, k: State): nat {
    if w == [] then 0 else Tally(w[..|w| - 1], k) + Bump(Final(w[..|w| - 1]), w[|w| - 1], k)
  }

  function Rank(s: State): nat {
    match s
    case Start => 0
    case S1 => 1
    case Int => 2
    case Float => 3
    case S2 => 4
    case Exponent => 5
    case Scientific => 6
    case Invalid => 7
  }

  /** No state is left twice, so a token adds at most one to each counter. */
  lemma {:induction false} CountedOnce(w: seq<Symbol>, k: State)
    ensures Tally(w, k) <= 1
    ensures Rank(Final(w)) <= Rank(k) && k != Invalid ==> Tally(w, k) == 0
    ensures Final(w) != Invalid && k == Invalid ==> Tally(w, k) == 0
    ensures k == Start ==> Tally(w, k) == if w == [] then 0 else 1
    decreases |w|
  {
    if w != [] {
      CountedOnce(w[..|w| - 1], k);
      Leaving(Final(w[..|w| - 1]), w[|w| - 1]);
    }
  }

  /** Some beginning of the token is of the language of a state, and the next symbol ends that. */
  ghost predicate Leaves(w: seq<Symbol>, k: State)
    requires k != Invalid
  {
    exists j :: LeavesAt(w, k, j)
  }

  ghost predicate LeavesAt(w: seq<Symbol>, k: State, j: int)
    requires k != Invalid
  {
    0 <= j < |w| && Matches(w[..j], k) && !Matches(w[..j + 1], k)
  }

  predicate StartsNothing(c: Symbol) { c != 43 && c != 45 && c != 46 && !(48 <= c <= 57) }

  /** Which counters a token raises: those of the languages that it leaves, but for scientific numbers, which count
      for the invalid state when they are left; and that one also counts a first symbol that starts nothing. */
  lemma CountersOfToken(w: seq<Symbol>, k: State)
    ensures k != Invalid ==> Tally(w, k) == if k != Scientific && Leaves(w, k) then 1 else 0
    ensures k == Invalid ==> Tally(w, k) == if (w != [] && StartsNothing(w[0])) || Leaves(w, Scientific) then 1 else 0
  {
    TallyIsLeaving(w, k);
    CountedOnce(w, k);
  }

  lemma {:induction false} TallyIsLeaving(w: seq<Symbol>, k: State)
    ensures k != Invalid ==> (Tally(w, k) > 0 <==> k != Scientific && Leaves(w, k))
    ensures k == Invalid ==> (Tally(w, k) > 0 <==> (w != [] && StartsNothing(w[0])) || Leaves(w, Scientific))
    decreases |w|
  {
    if w != [] {
      var n := |w| - 1;
      var s, c := Final(w[..n]), w[n];
      assert w[..n + 1] == w;
      TallyIsLeaving(w[..n], k);
      LeavesOfMore(w, if k == Invalid then Scientific else k);
      assert n == 0 ==> w[..0] == [];
      assert Next(Start, c) == Invalid <==> StartsNothing(c);
      assert s == Start <==> n == 0 by { OnlyNothingStarts(w[..n]); }
      hide Next, Matches, Final, Leaves;
    }
  }

  lemma OnlyNothingStarts(w: seq<Symbol>)
    ensures Final(w) == Start <==> w == []
  {
    if w != [] {
      Leaving(Final(w[..|w| - 1]), w[|w| - 1]);
    }
  }

  /** The last symbol ends the language of a state, or an earlier one has. */
  lemma LeavesOfMore(w: seq<Symbol>, k: State)
    requires w != [] && k != Invalid
    ensures var n := |w| - 1; Leaves(w, k) <==> Leaves(w[..n], k) || (Final(w[..n]) == k && Final(w) != k)
  {
    hide Matches, Final;
    var n := |w| - 1;
    Classifies(w[..n], k);
    Classifies(w, k);
    assert w[..n + 1] == w;
    assert LeavesAt(w, k, n) <==> Final(w[..n]) == k && Final(w) != k;
    forall j: nat | j < n
      ensures LeavesAt(w, k, j) <==> LeavesAt(w[..n], k, j)
    {
      assert w[..n][..j] == w[..j] && w[..n][..j + 1] == w[..j + 1];
    }
    assert forall j :: LeavesAt(w, k, j) ==> 0 <= j <= n;
    assert forall j :: LeavesAt(w[..n], k, j) ==> 0 <= j < n;
    hide LeavesAt;
    if j :| LeavesAt(w, k, j) {
      assert j < n ==> LeavesAt(w[..n], k, j);
    }
    if j :| LeavesAt(w[..n], k, j) {
      assert LeavesAt(w, k, j);
    }
  }

  lemma Leaving(s: State, c: Symbol)
    ensures Rank(s) <= Rank(Next(s, c)) && Next(s, c) != Start
  {}

  /** The end of what is looked at, without a comma. */
  ghost function ScannedTo(m: seq<Symbol>, pos: nat): (e: nat)
    requires pos <= |m|
    ensures pos <= e <= |m|
  {
    if Final(Token(m, pos)) == Invalid then pos + Offence(Token(m, pos)) else TokenEnd(m, pos)
  }

  /** The counters of one transition. */
  method Count(counts: array<nat>, state: State, c: Symbol)
    requires counts.Length == NUM_STATES
    modifies counts
    ensures forall k: State :: counts[Index(k)] == old(counts[Index(k)]) + Bump(state, c, k)
  {
    if state == Start {
      if Next(Start, c) == Invalid {
        counts[Index(Invalid)] := counts[Index(Invalid)] + 1;
      }
      counts[Index(Start)] := counts[Index(Start)] + 1;
    } else if state == Scientific {
      if !IsDigit(c) {
        counts[Index(Invalid)] := counts[Index(Invalid)] + 1;
      }
    } else if Next(state, c) != state {
      counts[Index(state)] := counts[Index(state)] + 1;
    }
  }

  lemma {:induction false} TokenEndIs(m: seq<Symbol>, pos: nat, e: nat)
    requires pos <= e < |m| && (m[e] == 0 || m[e] == COMMA)
    requires forall i :: pos <= i < e ==> m[i] != 0 && m[i] != COMMA
    ensures TokenEnd(m, pos) == e
    decreases e - pos
  {
    if pos < e {
      TokenEndIs(m, pos + 1, e);
    }
  }

  lemma EndOfToken(m: seq<Symbol>, pos: nat, e: nat)
    requires pos <= e < |m| && (m[e] == 0 || m[e] == COMMA) && Final(m[pos..e]) != Invalid
    requires forall i :: pos <= i < e ==> m[i] != 0 && m[i] != COMMA
    ensures Token(m, pos) == m[pos..e] && ScannedTo(m, pos) == e
    ensures ScanEnd(m, pos) == if m[e] == COMMA then e + 1 else e
  {
    TokenEndIs(m, pos, e);
  }

  /** A token that turns invalid is invalid as a whole, and that place is the first of its kind. */
  lemma Offends(m: seq<Symbol>, pos: nat, e: nat)
    requires pos < e <= |m| && Final(m[pos..e]) == Invalid && Final(m[pos..e - 1]) != Invalid
    requires forall i :: pos <= i < e ==> m[i] != 0 && m[i] != COMMA
    ensures Final(Token(m, pos)) == Invalid && ScanEnd(m, pos) == ScannedTo(m, pos) == e
  {
    hide Final;
    var t := TokenEnd(m, pos);
    assert t >= e;
    assert Token(m, pos) == m[pos..e] + m[e..t];
    assert Token(m, pos)[..e - pos] == m[pos..e] && Token(m, pos)[..e - pos - 1] == m[pos..e - 1];
    InvalidStays(m[pos..e], m[e..t]);
    OneOffence(Token(m, pos), Offence(Token(m, pos)), e - pos);
  }

  lemma InvalidPrefix(w: seq<Symbol>, j: nat, i: nat)
    requires j <= i <= |w| && Final(w[..j]) == Invalid
    ensures Final(w[..i]) == Invalid
  {
    assert w[..i] == w[..j] + w[j..i];
    InvalidStays(w[..j], w[j..i]);
  }

  lemma OneOffence(w: seq<Symbol>, j: nat, k: nat)
    requires 0 < j <= |w| && Final(w[..j]) == Invalid && Final(w[..j - 1]) != Invalid
    requires 0 < k <= |w| && Final(w[..k]) == Invalid && Final(w[..k - 1]) != Invalid
    ensures j == k
  {
    hide Final;
    if j < k {
      InvalidPrefix(w, j, k - 1);
    } else if k < j {
      InvalidPrefix(w, k, j - 1);
    }
  }

  /** The part of a token that has been scanned, and the state it leads to. */
  ghost predicate Scanning(m: seq<Symbol>, pos: nat, str: nat, state: State) {
    && pos <= str <= |m| && state == Final(m[pos..str])
    && (forall i :: pos <= i < str ==> m[i] != 0 && m[i] != COMMA)
    && (str > pos ==> Final(m[pos..str - 1]) != Invalid)
  }

  lemma ScanGoesOn(m: seq<Symbol>, pos: nat, str: nat, state: State)
    requires Scanning(m, pos, str, state) && str < |m| && state != Invalid && m[str] != 0 && m[str] != COMMA
    ensures Scanning(m, pos, str + 1, Next(state, m[str]))
    ensures forall k :: Tally(m[pos..str + 1], k) == Tally(m[pos..str], k) + Bump(state, m[str], k)
  {
    var w := m[pos..str];
    assert m[pos..str + 1] == w + [m[str]];
    FinalOfMore(w, m[str]);
    TallyOfMore(w, m[str]);
    hide Next, Bump, Final, Tally;
  }

  lemma TallyOfMore(w: seq<Symbol>, c: Symbol)
    ensures forall k :: Tally(w + [c], k) == Tally(w, k) + Bump(Final(w), c, k)
  {
    assert (w + [c])[..|w|] == w;
  }

  lemma ScanEnds(m: seq<Symbol>, pos: nat, str: nat, state: State)
    requires Scanning(m, pos, str, state) && str < |m|
    requires state == Invalid || m[str] == 0 || m[str] == COMMA
    ensures Final(Token(m, pos)) == state && ScannedTo(m, pos) == str
    ensures ScanEnd(m, pos) == if state != Invalid && m[str] == COMMA then str + 1 else str
  {
    if state == Invalid {
      assert Final([]) == Start && m[pos..pos] == [];
      Offends(m, pos, str);
    } else {
      EndOfToken(m, pos, str);
    }
  }

  /** core_state_transition: the state of the token and the place where scanning goes on. */
  method Transition(m: seq<Symbol>, pos: nat, counts: array<nat>) returns (state: State, end: nat)
    requires counts.Length == NUM_STATES && pos < |m| && exists z :: pos <= z < |m| && m[z] == 0
    modifies counts
    ensures state == Final(Token(m, pos)) && end == ScanEnd(m, pos)
    ensures forall k: State :: counts[Index(k)] == old(counts[Index(k)]) + Tally(m[pos..ScannedTo(m, pos)], k)
  {
    ghost var z :| pos <= z < |m| && m[z] == 0;
    state, end := Start, pos;
    assert Scanning(m, pos, pos, Start) && m[pos..pos] == [];
    hide Final, Scanning, Bump, Next;
    while m[end] != 0 && state != Invalid
      invariant pos <= end <= z && Scanning(m, pos, end, state)
      invariant forall k: State :: counts[Index(k)] == old(counts[Index(k)]) + Tally(m[pos..end], k)
      decreases z - end
    {
      var c := m[end];
      if c == COMMA {
        ScanEnds(m, pos, end, state);
        end := end + 1;
        return;
      }
      ScanGoesOn(m, pos, end, state);
      Count(counts, state, c);
      state, end := Next(state, c), end + 1;
    }
    ScanEnds(m, pos, end, state);
  }

  // ----- all tokens of a text -----

  /** The states of all tokens up to the NUL. */
  function Tokens(m: seq<Symbol>, pos: nat): seq<State>
    requires pos <= |m|
    decreases |m| - pos
  {
    if pos == |m| || m[pos] == 0 then [] else [Final(Token(m, pos))] + Tokens(m, ScanEnd(m, pos))
  }

  /** A token of a valid or unfinished language in front of a comma or NUL: scanning goes on behind the comma. */
  lemma TokenIsRead(m: seq<Symbol>, pos: nat, w: seq<Symbol>, s: State)
    requires s != Invalid && Matches(w, s) && 0 !in w && 44 !in w
    requires pos + |w| < |m| && m[pos..pos + |w|] == w && (m[pos + |w|] == 44 || (m[pos + |w|] == 0 && w != []))
    ensures Tokens(m, pos) == [s] + if m[pos + |w|] == 44 then Tokens(m, pos + |w| + 1) else []
  {
    hide Matches, Final, Tokens;
    Classifies(w, s);
    TextIs(m, pos, w);
    ReadAt(m, pos, pos + |w|);
  }

  lemma TextIs(m: seq<Symbol>, pos: nat, w: seq<Symbol>)
    requires pos + |w| <= |m| && m[pos..pos + |w|] == w && 0 !in w && 44 !in w
    ensures forall i :: pos <= i < pos + |w| ==> m[i] != 0 && m[i] != COMMA
  {
    assert forall i :: pos <= i < pos + |w| ==> m[i] == w[i - pos];
  }

  lemma ReadAt(m: seq<Symbol>, pos: nat, e: nat)
    requires pos <= e < |m| && Final(m[pos..e]) != Invalid && (m[e] == COMMA || (m[e] == 0 && e > pos))
    requires forall i :: pos <= i < e ==> m[i] != 0 && m[i] != COMMA
    ensures Tokens(m, pos) == [Final(m[pos..e])] + if m[e] == COMMA then Tokens(m, e + 1) else []
  {
    EndOfToken(m, pos, e);
    hide Final, ScanEnd, Token;
  }

  lemma RefusedAt(m: seq<Symbol>, pos: nat, e: nat)
    requires pos < e <= |m| && Final(m[pos..e]) == Invalid && Final(m[pos..e - 1]) != Invalid
    requires forall i :: pos <= i < e ==> m[i] != 0 && m[i] != COMMA
    ensures Tokens(m, pos) == [Invalid] + Tokens(m, e)
  {
    Offends(m, pos, e);
    hide Final, ScanEnd, Token;
  }

  ghost predicate NoLanguage(w: seq<Symbol>) {
    !Matches(w, Start) && !Matches(w, S1) && !Matches(w, Int) && !Matches(w, S2) && !Matches(w, Float)
    && !Matches(w, Exponent) && !Matches(w, Scientific)
  }

  /** A symbol with which no language goes on: scanning goes on right behind it. */
  lemma TokenIsRefused(m: seq<Symbol>, pos: nat, v: seq<Symbol>, s: State)
    requires s != Invalid && Matches(v, s) && 0 !in v && 44 !in v
    requires pos + |v| < |m| && m[pos..pos + |v|] == v && m[pos + |v|] != 0 && m[pos + |v|] != 44
    requires NoLanguage(v + [m[pos + |v|]])
    ensures Tokens(m, pos) == [Invalid] + Tokens(m, pos + |v| + 1)
  {
    hide Matches, Final, Tokens, NoLanguage;
    var e := pos + |v| + 1;
    var w := v + [m[e - 1]];
    assert m[pos..e] == w && m[pos..e - 1] == v;
    Classifies(v, s);
    NoLanguageIsInvalid(w);
    TextIs(m, pos, w);
    RefusedAt(m, pos, e);
  }

  lemma NoLanguageIsInvalid(w: seq<Symbol>)
    requires NoLanguage(w)
    ensures Final(w) == Invalid
  {
    if Final(w) != Invalid {
      Classifies(w, Final(w));
    }
    hide Final, Matches;
  }

  ghost function Tallies(m: seq<Symbol>, pos: nat, k: State): nat
    requires pos <= |m|
    decreases |m| - pos
  {
    if pos == |m| || m[pos] == 0 then 0
    else Tally(m[pos..ScannedTo(m, pos)], k) + Tallies(m, ScanEnd(m, pos), k)
  }

  function Occurrences(ts: seq<State>, k: State): nat {
    if ts == [] then 0 else (if ts[0] == k then 1 else 0) + Occurrences(ts[1..], k)
  }

  /** The counters of the final states add up to the number of tokens. */
  lemma {:induction false} EveryTokenIsCounted(ts: seq<State>)
    ensures Occurrences(ts, Start) + Occurrences(ts, Invalid) + Occurrences(ts, S1) + Occurrences(ts, Int)
          + Occurrences(ts, S2) + Occurrences(ts, Float) + Occurrences(ts, Exponent) + Occurrences(ts, Scientific)
         == |ts|
  {
    if ts != [] {
      EveryTokenIsCounted(ts[1..]);
    }
  }

  /** One loop of core_bench_state over its input. */
  method CountTokens(m: seq<Symbol>, finals: array<nat>, tracks: array<nat>)
    requires finals.Length == tracks.Length == NUM_STATES && finals != tracks
    requires exists z :: 0 <= z < |m| && m[z] == 0
    modifies finals, tracks
    ensures forall k: State :: finals[Index(k)] == old(finals[Index(k)]) + Occurrences(Tokens(m, 0), k)
    ensures forall k: State :: tracks[Index(k)] == old(tracks[Index(k)]) + Tallies(m, 0, k)
  {
    ghost var z := TextEnd(m);
    var p := 0;
    while m[p] != 0
      invariant 0 <= p <= z
      invariant forall k: State ::
        finals[Index(k)] + Occurrences(Tokens(m, p), k) == old(finals[Index(k)]) + Occurrences(Tokens(m, 0), k)
      invariant forall k: State :: tracks[Index(k)] + Tallies(m, p, k) == old(tracks[Index(k)]) + Tallies(m, 0, k)
      decreases z - p
    {
      StaysInText(m, p, z);
      var fstate, end := Transition(m, p, tracks);
      finals[Index(fstate)] := finals[Index(fstate)] + 1;
      DistinctIndices(fstate);
      p := end;
    }
  }

  lemma DistinctIndices(s: State)
    ensures forall k: State :: Index(k) == Index(s) ==> k == s
  {}

  /** The first NUL. */
  ghost function TextEnd(m: seq<Symbol>): (z: nat)
    requires exists z :: 0 <= z < |m| && m[z] == 0
    ensures z < |m| && m[z] == 0 && forall i :: 0 <= i < z ==> m[i] != 0
  {
    if m[0] == 0 then 0
    else
      var z :| 0 <= z < |m| && m[z] == 0;
      assert m[1..][z - 1] == 0;
      1 + TextEnd(m[1..])
  }

  lemma StaysInText(m: seq<Symbol>, p: nat, z: nat)
    requires p < z < |m| && m[z] == 0
    requires forall i :: 0 <= i < z ==> m[i] != 0
    ensures ScanEnd(m, p) <= z
  {
    var t := TokenEnd(m, p);
    assert t <= z;
  }

  // ----- corruption -----

  /** Commas are spared. */
  function Corrupted(c: Symbol, x: Symbol): Symbol { if c == COMMA then c else c ^ x }

  /** The positions from p on in steps, as far as they are below the size. */
  predicate Visited(i: nat, p: nat, size: nat, step: nat)
    requires step > 0
    decreases size - p
  {
    p < size && (i == p || Visited(i, p + step, size, step))
  }

  lemma {:induction false} VisitedIsBetween(i: nat, p: nat, size: nat, step: nat)
    requires step > 0 && Visited(i, p, size, step)
    ensures p <= i < size
    decreases size - p
  {
    if i != p {
      VisitedIsBetween(i, p + step, size, step);
    }
  }

  /** The visited positions are the multiples of the step below the size. */
  lemma {:induction false} VisitedAre(i: nat, p: nat, size: nat, step: nat)
    requires step > 0
    ensures Visited(i, p, size, step) <==> i < size && exists k: nat :: i == p + k * step
    decreases size - p
  {
    if p < size {
      VisitedAre(i, p + step, size, step);
      if k: nat :| i == p + k * step {
        if k == 0 {
          assert i == p;
        } else {
          var j: nat := k - 1;
          assert i == p + step + j * step;
        }
      }
      if j: nat :| i == p + step + j * step {
        assert i == p + (j + 1) * step;
      }
      assert p == p + 0 * step;
    } else if k: nat :| i == p + k * step {
      assert k * step >= 0;
    }
  }

  method Corrupt(mem: array<Symbol>, size: nat, x: Symbol, step: nat)
    requires size <= mem.Length && step > 0
    modifies mem
    ensures mem[..] == AllCorrupted(old(mem[..]), size, x, step)
  {
    var p := 0;
    while p < size
      invariant 0 <= p
      invariant forall i :: 0 <= i < mem.Length && Visited(i, p, size, step) ==>
        mem[i] == old(mem[i]) && Visited(i, 0, size, step)
      invariant forall i :: 0 <= i < mem.Length && !Visited(i, p, size, step) ==>
        mem[i] == Expected(old(mem[i]), i, size, x, step)
      decreases size - p
    {
      ghost var q := p + step;
      forall i: nat | Visited(i, q, size, step)
        ensures i > p
      {
        VisitedIsBetween(i, q, size, step);
      }
      assert Visited(p, p, size, step);
      if mem[p] != COMMA {
        mem[p] := mem[p] ^ x;
      }
      p := p + step;
    }
  }

  function Expected(c: Symbol, i: nat, size: nat, x: Symbol, step: nat): Symbol
    requires step > 0
  {
    if Visited(i, 0, size, step) then Corrupted(c, x) else c
  }

  ghost function AllCorrupted(m: seq<Symbol>, size: nat, x: Symbol, step: nat): seq<Symbol>
    requires step > 0
  {
    seq(|m|, i requires 0 <= i < |m| => Expected(m[i], i, size, x, step))
  }

  /** Corrupting a symbol twice in the same way restores it, unless the first time has made it a comma. */
  lemma TwiceRestores(c: Symbol, x: Symbol)
    ensures Corrupted(Corrupted(c, x), x) == c <==> x == 0 || c != COMMA ^ x
  {
    assert (c ^ x) ^ x == c;
    assert c ^ x == COMMA <==> c == COMMA ^ x;
    assert COMMA ^ x == COMMA <==> x == 0;
  }

  /** No visited symbol is the one that corruption turns into a comma. */
  predicate MakesNoComma(m: seq<Symbol>, size: nat, x: Symbol, step: nat)
    requires step > 0
  {
    forall i :: 0 <= i < |m| && Visited(i, 0, size, step) ==> m[i] != COMMA ^ x
  }

  /** The input is restored exactly if nothing is changed at all or no visited symbol was made a comma. */
  lemma UndoRestores(m: seq<Symbol>, size: nat, x: Symbol, step: nat)
    requires step > 0 && size <= |m|
    ensures AllCorrupted(AllCorrupted(m, size, x, step), size, x, step) == m
       <==> x == 0 || MakesNoComma(m, size, x, step)
  {
    var n := AllCorrupted(AllCorrupted(m, size, x, step), size, x, step);
    hide Corrupted;
    forall i | 0 <= i < |m|
      ensures n[i] == m[i] <==> !Visited(i, 0, size, step) || x == 0 || m[i] != COMMA ^ x
    {
      TwiceRestores(m[i], x);
    }
    if n == m && x != 0 {
      forall i | 0 <= i < |m| && Visited(i, 0, size, step)
        ensures m[i] != COMMA ^ x
      {
        assert n[i] == m[i];
      }
    }
  }

  // ----- the answer -----

  /** The halves of a counter of 32 bits, low one first. */
  function Halves(n: nat): seq<bv16> {
    var w := Word(n);
    [(w & 0xffff) as bv16, (w >> 16) as bv16]
  }

  function Word(n: nat): bv32 { (n % 0x1_0000_0000) as bv32 }

  /** The counters of both kinds in turn, from a state on. */
  function Words(finals: seq<nat>, tracks: seq<nat>): seq<bv16>
    requires |finals| == |tracks|
  {
    if finals == [] then [] else Halves(finals[0]) + Halves(tracks[0]) + Words(finals[1..], tracks[1..])
  }

  /** Each counter gives its low and its high half, the one for final states before the one for transitions. */
  lemma {:induction false} WordsAt(finals: seq<nat>, tracks: seq<nat>, i: nat)
    requires |finals| == |tracks| && i < |finals|
    ensures var w := Words(finals, tracks);
            && |w| == 4 * |finals|
            && w[4 * i..4 * i + 2] == Halves(finals[i]) && w[4 * i + 2..4 * i + 4] == Halves(tracks[i])
    decreases i
  {
    var w, more := Words(finals, tracks), Words(finals[1..], tracks[1..]);
    WordsLength(finals, tracks);
    hide Words, Halves;
    if i > 0 {
      WordsAt(finals[1..], tracks[1..], i - 1);
      var j := 4 * (i - 1);
      assert w[4 * i..4 * i + 2] == more[j..j + 2] && w[4 * i + 2..4 * i + 4] == more[j + 2..j + 4];
    }
  }

  lemma {:induction false} WordsLength(finals: seq<nat>, tracks: seq<nat>)
    requires |finals| == |tracks|
    ensures |Words(finals, tracks)| == 4 * |finals| && forall n :: |Halves(n)| == 2
    ensures finals != [] ==>
      Words(finals, tracks) == Halves(finals[0]) + Halves(tracks[0]) + Words(finals[1..], tracks[1..])
  {
    if finals != [] {
      WordsLength(finals[1..], tracks[1..]);
    }
  }

  lemma TwoHalves(n: nat, crc: bv16)
    ensures Crc.CrcOf(Halves(n), crc)
         == Crc.Crc16((Word(n) >> 16) as bv16, Crc.Crc16((Word(n) & 0xffff) as bv16, crc))
  {
    hide Crc.Crc16, Word;
    var h := Halves(n);
    assert h[1..] == [h[1]] && h[1..][1..] == [];
    assert Crc.CrcOf(h, crc) == Crc.CrcOf(h[1..], Crc.Crc16(h[0], crc));
    assert Crc.CrcOf(h[1..], Crc.Crc16(h[0], crc)) == Crc.Crc16(h[1], Crc.Crc16(h[0], crc));
  }

  lemma {:induction false} WordsOfMore(finals: seq<nat>, tracks: seq<nat>, f: nat, t: nat)
    requires |finals| == |tracks|
    ensures Words(finals + [f], tracks + [t]) == Words(finals, tracks) + Halves(f) + Halves(t)
    decreases |finals|
  {
    hide Halves;
    if finals == [] {
      assert (finals + [f])[1..] == [] && (tracks + [t])[1..] == [];
      assert finals + [f] == [f] && tracks + [t] == [t];
    } else {
      assert (finals + [f])[1..] == finals[1..] + [f] && (tracks + [t])[1..] == tracks[1..] + [t];
      WordsOfMore(finals[1..], tracks[1..], f, t);
    }
  }

  /** The CRC over all counters. */
  method Checksum(finals: array<nat>, tracks: array<nat>, crc: bv16) returns (r: bv16)
    requires finals.Length == tracks.Length == NUM_STATES
    ensures r == Crc.CrcOf(Words(finals[..], tracks[..]), crc)
  {
    hide Crc.CrcOf, Crc.Crc16, Halves, Word;
    r := crc;
    assert Words([], []) == [];
    NoWords(crc);
    for i := 0 to NUM_STATES
      invariant r == Crc.CrcOf(Words(finals[..i], tracks[..i]), crc)
    {
      ghost var f, t, done := finals[i], tracks[i], Words(finals[..i], tracks[..i]);
      assert finals[..i + 1] == finals[..i] + [f] && tracks[..i + 1] == tracks[..i] + [t];
      WordsOfMore(finals[..i], tracks[..i], f, t);
      Crc.MessageSplits(done, Halves(f), crc);
      Crc.MessageSplits(done + Halves(f), Halves(t), crc);
      TwoHalves(f, r);
      r := Crc.Crcu32(Word(finals[i]), r);
      TwoHalves(t, r);
      r := Crc.Crcu32(Word(tracks[i]), r);
    }
    assert finals[..NUM_STATES] == finals[..] && tracks[..NUM_STATES] == tracks[..];
  }

  lemma NoWords(crc: bv16)
    ensures Crc.CrcOf([], crc) == crc
  {}

  /** core_bench_state: scan, corrupt, scan again, undo, and the CRC over the counters. The text must still end inside
      the memory after the corruption. */
  method BenchState(mem: array<Symbol>, size: nat, seed1: Symbol, seed2: Symbol, step: nat, crc: bv16)
    returns (finals: array<nat>, tracks: array<nat>, answer: bv16)
    requires size <= mem.Length && step > 0
    requires exists z :: 0 <= z < mem.Length && mem[z] == 0
    requires exists z :: 0 <= z < mem.Length && Expected(mem[z], z, size, seed1, step) == 0
    modifies mem
    ensures finals.Length == tracks.Length == NUM_STATES
    ensures var spoilt := AllCorrupted(old(mem[..]), size, seed1, step);
            && (forall k: State :: finals[Index(k)] == Occurrences(Tokens(old(mem[..]), 0) + Tokens(spoilt, 0), k))
            && (forall k: State :: tracks[Index(k)] == Tallies(old(mem[..]), 0, k) + Tallies(spoilt, 0, k))
            && mem[..] == AllCorrupted(spoilt, size, seed2, step)
    ensures seed1 == seed2 ==>
      (mem[..] == old(mem[..]) <==> seed1 == 0 || MakesNoComma(old(mem[..]), size, seed1, step))
    ensures answer == Crc.CrcOf(Words(finals[..], tracks[..]), crc)
  {
    hide Tokens, Tallies, Occurrences, AllCorrupted, MakesNoComma, Words, Expected;
    finals, tracks := ScanTwice(mem, size, seed1, seed2, step);
    answer := Checksum(finals, tracks, crc);
  }

  /** All but the CRC. */
  method ScanTwice(mem: array<Symbol>, size: nat, seed1: Symbol, seed2: Symbol, step: nat)
    returns (finals: array<nat>, tracks: array<nat>)
    requires size <= mem.Length && step > 0
    requires exists z :: 0 <= z < mem.Length && mem[z] == 0
    requires exists z :: 0 <= z < mem.Length && Expected(mem[z], z, size, seed1, step) == 0
    modifies mem
    ensures finals.Length == tracks.Length == NUM_STATES && fresh(finals) && fresh(tracks)
    ensures var spoilt := AllCorrupted(old(mem[..]), size, seed1, step);
            && (forall k: State :: finals[Index(k)] == Occurrences(Tokens(old(mem[..]), 0) + Tokens(spoilt, 0), k))
            && (forall k: State :: tracks[Index(k)] == Tallies(old(mem[..]), 0, k) + Tallies(spoilt, 0, k))
            && mem[..] == AllCorrupted(spoilt, size, seed2, step)
    ensures seed1 == seed2 ==>
      (mem[..] == old(mem[..]) <==> seed1 == 0 || MakesNoComma(old(mem[..]), size, seed1, step))
  {
    ghost var m := mem[..];
    finals, tracks := new nat[NUM_STATES](_ => 0), new nat[NUM_STATES](_ => 0);
    ghost var z :| 0 <= z < mem.Length && mem[z] == 0;
    assert mem[..][z] == 0;
    CountTokens(mem[..], finals, tracks);
    ghost var y :| 0 <= y < mem.Length && Expected(m[y], y, size, seed1, step) == 0;
    Corrupt(mem, size, seed1, step);
    assert mem[..][y] == 0;
    CountTokens(mem[..], finals, tracks);
    BothScans(Tokens(m, 0), Tokens(mem[..], 0));
    Corrupt(mem, size, seed2, step);
    UndoRestores(m, size, seed1, step);
  }

  lemma BothScans(a: seq<State>, b: seq<State>)
    ensures forall k :: Occurrences(a + b, k) == Occurrences(a, k) + Occurrences(b, k)
  {
    if a == [] {
      assert a + b == b;
    } else {
      assert (a + b)[1..] == a[1..] + b;
      BothScans(a[1..], b);
    }
  }
}