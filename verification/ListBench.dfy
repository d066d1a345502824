/** CoreMark's linked-list benchmark: it scrambles the list and leaves it as it found it. */
module ListBench {
  import opened MergeSort
  import Crc

  ghost predicate Chain(list: ListHead?, s: Nodes)
    reads (set x | x in s)`next
  {
    list == First(s) && NoDup(s) && Linked(s) && Ends(s)
  }

  /** What core_list_find looks for: an index, or a data byte when the index is negative. */
  datatype Wanted = Wanted(idx: int, data16: bv16)

  predicate Fits(d: Item, w: Wanted) { if w.idx >= 0 then d.1 == w.idx else d.0 & 0xff == w.data16 }

  predicate Matches(d: ListData, w: Wanted)
    reads d
  {
    Fits((d.data16, d.idx), w)
  }

  method Find(list: ListHead?, w: Wanted, ghost s: Nodes) returns (found: ListHead?, ghost k: nat)
    requires Chain(list, s)
    ensures k <= |s| && forall i :: 0 <= i < k ==> !Matches(s[i].info, w)
    ensures if k == |s| then found == null else found == s[k] && Matches(s[k].info, w)
  {
    found, k := list, 0;
    while found != null && !Matches(found.info, w)
      invariant k <= |s| && found == First(s[k..])
      invariant forall i :: 0 <= i < k ==> !Matches(s[i].info, w)
      decreases |s| - k
    {
      assert k + 1 < |s| ==> s[k].next == s[k + 1];
      found, k := found.next, k + 1;
    }
  }

  function Reversed(s: Nodes): (r: Nodes)
    ensures |r| == |s| && forall i :: 0 <= i < |s| ==> r[i] == s[|s| - 1 - i]
    ensures multiset(r) == multiset(s)
  {
    if s == [] then [] else
      assert s == [s[0]] + s[1..];
      Reversed(s[1..]) + [s[0]]
  }

  /** Turns the list round by relinking every node. */
  method Reverse(head: ListHead?, ghost s: Nodes) returns (next: ListHead?)
    requires Chain(head, s)
    modifies (set x | x in s)`next
    ensures Chain(next, Reversed(s))
  {
    next := null;
    var list := head;
    ghost var k := 0;
    while list != null
      invariant k <= |s| && list == First(s[k..]) && next == (if k == 0 then null else s[k - 1])
      invariant forall i :: k <= i < |s| - 1 ==> s[i].next == s[i + 1]
      invariant k < |s| ==> s[|s| - 1].next == null
      invariant forall i :: 0 < i < k ==> s[i].next == s[i - 1]
      invariant k > 0 ==> s[0].next == null
      decreases |s| - k
    {
      var tmp := list.next;
      list.next := next;
      next := list;
      list := tmp;
      k := k + 1;
    }
    var r := Reversed(s);
    assert forall i :: 0 <= i < |s| ==> r[i] == s[|s| - 1 - i];
  }

  // ----- moving, removing and putting back one node -----

  /** The node behind place k moves to the second place. */
  function Cached(s: Nodes, k: nat): (r: Nodes)
    requires k + 1 < |s|
    ensures |r| == |s| && r[0] == s[0] && r[1] == s[k + 1]
    ensures forall i :: 1 <= i <= k ==> r[i + 1] == s[i]
    ensures forall i :: k + 1 < i < |s| ==> r[i] == s[i]
  {
    if k == 0 then s else s[..1] + [s[k + 1]] + s[1..k + 1] + s[k + 2..]
  }

  lemma CachedIsPermutation(s: Nodes, k: nat)
    requires k + 1 < |s| && NoDup(s)
    ensures |Cached(s, k)| == |s| && multiset(Cached(s, k)) == multiset(s) && NoDup(Cached(s, k))
  {
    if k > 0 {
      var c := Cached(s, k);
      assert s == s[..1] + s[1..k + 1] + [s[k + 1]] + s[k + 2..];
      forall i, j | 0 <= i < j < |c|
        ensures c[i] != c[j]
      {
        assert c[i] == s[if i == 0 then 0 else if i == 1 then k + 1 else if i <= k + 1 then i - 1 else i];
        assert c[j] == s[if j == 0 then 0 else if j == 1 then k + 1 else if j <= k + 1 then j - 1 else j];
      }
    }
  }

  /** Moves the node behind the found one to the place behind the head. */
  method CacheNext(list: ListHead, thisFind: ListHead, ghost s: Nodes, ghost k: nat)
    requires Chain(list, s) && k + 1 < |s| && thisFind == s[k]
    modifies (set x | x in s)`next
    ensures Chain(list, Cached(s, k))
  {
    CachedIsPermutation(s, k);
    var finder := thisFind.next;
    thisFind.next := finder.next;
    finder.next := list.next;
    list.next := finder;
    ghost var c := Cached(s, k);
    if k == 0 {
      assert forall i :: 0 <= i < |s| - 1 ==> s[i].next == s[i + 1];
    } else {
      forall i | 0 <= i < |c| - 1
        ensures c[i].next == c[i + 1]
      {
        assert c[i] == s[if i == 0 then 0 else if i == 1 then k + 1 else if i <= k + 1 then i - 1 else i];
      }
    }
  }

  /** Takes the node behind `item` out of the list; the two swap their data first. */
  method Remove(item: ListHead, ghost s: Nodes) returns (ret: ListHead)
    requires |s| >= 3 && Chain(s[0], s) && item == s[1]
    modifies item, s[2]
    ensures ret == s[2] && ret.next == null && Chain(s[0], s[..2] + s[3..])
    ensures item.info == old(ret.info) && ret.info == old(item.info)
    ensures item.next == old(ret.next)
  {
    ret := item.next;
    var tmp := item.info;
    item.info := ret.info;
    ret.info := tmp;
    item.next := item.next.next;
    ret.next := null;
    ghost var t := s[..2] + s[3..];
    assert forall i :: 0 <= i < |t| ==> t[i] == s[if i < 2 then i else i + 1];
  }

  /** Links a removed node back and swaps the data back. */
  method UndoRemove(removed: ListHead, modified: ListHead)
    requires removed != modified
    modifies removed, modified
    ensures removed.info == old(modified.info) && modified.info == old(removed.info)
    ensures removed.next == old(modified.next) && modified.next == removed
  {
    var tmp := removed.info;
    removed.info := modified.info;
    modified.info := tmp;
    removed.next := modified.next;
    modified.next := removed;
  }

  // ----- the benchmark -----

  function Repeated(w: bv16, n: nat): seq<bv16> { seq(n, _ => w) }

  lemma OnceMore(w: bv16, n: nat, c: bv16)
    ensures Crc.CrcOf(Repeated(w, n + 1), c) == Crc.Crc16(w, Crc.CrcOf(Repeated(w, n), c))
  {
    hide Crc.Crc16;
    assert Repeated(w, n + 1) == Repeated(w, n) + [w] && [w][1..] == [];
    Crc.MessageSplits(Repeated(w, n), [w], c);
  }

  /** Runs the register over the head's data once for each node from `from` on. */
  method CrcWalk(list: ListHead, from: ListHead?, retval: bv16, ghost s: Nodes, ghost k: nat) returns (r: bv16)
    requires Chain(list, s) && k <= |s| && from == First(s[k..])
    ensures r == Crc.CrcOf(Repeated(list.info.data16, |s| - k), retval)
  {
    hide Crc.CrcOf, Crc.Crc16;
    r := retval;
    var finder := from;
    ghost var i := k;
    NoWords(list.info.data16, retval);
    while finder != null
      invariant k <= i <= |s| && finder == First(s[i..])
      invariant r == Crc.CrcOf(Repeated(list.info.data16, i - k), retval)
      decreases |s| - i
    {
      assert i + 1 < |s| ==> s[i].next == s[i + 1];
      OnceMore(list.info.data16, i - k, retval);
      r := Crc.Crcu16(list.info.data16, r);
      finder := finder.next;
      i := i + 1;
    }
  }

  lemma NoWords(w: bv16, c: bv16)
    ensures Crc.CrcOf(Repeated(w, 0), c) == c
  {}

  const S16_MAX := 0x7fff

  /** info.idx++ in sixteen signed bits. */
  function Inc16(i: int): int { if i == S16_MAX then -0x8000 else i + 1 }

  // ----- what the searches find and count -----

  /** What the nodes' items hold. */
  type View = map<ListHead, Item>

  ghost function ViewOf(s: Nodes): View
    reads (set x | x in s)`info, set x | x in s :: x.info
  {
    map x | x in s :: (x.info.data16, x.info.idx)
  }

  function Data(v: View, x: ListHead): bv16 { if x in v then v[x].0 else 0 }

  /** One search: the list before and after it, and the place of what it found, behind the end for nothing. */
  datatype Round = Round(before: Nodes, hit: nat, after: Nodes)

  /** The list is turned round, and behind a found node that is not the last one then, the next one is moved. */
  function Turned(s: Nodes, hit: nat): Nodes
    requires hit <= |s|
  {
    if 0 < hit < |s| then Cached(Reversed(s), |s| - 1 - hit) else Reversed(s)
  }

  /** The first match is found, and there is none if nothing is. */
  ghost predicate IsRound(r: Round, v: View, w: Wanted) {
    && |r.before| >= 3 && r.hit <= |r.before| && (forall x :: x in r.before ==> x in v)
    && (forall i :: 0 <= i < r.hit ==> !Fits(v[r.before[i]], w))
    && (r.hit < |r.before| ==> Fits(v[r.before[r.hit]], w))
    && r.after == Turned(r.before, r.hit)
  }

  /** The index that is looked for after i searches: it is raised unless negative, in sixteen bits. */
  function Later(idx: int, i: nat): int {
    if idx < 0 then idx else if idx > S16_MAX || idx + i <= S16_MAX then idx + i else -0x8000
  }

  /** Searches one after the other, for data 0 to 255 in turn, that take the list from s to t. */
  ghost predicate Searches(rounds: seq<Round>, v: View, idx: int, s: Nodes, t: Nodes) {
    && (if rounds == [] then t == s else rounds[0].before == s && rounds[|rounds| - 1].after == t)
    && (forall i :: 0 <= i < |rounds| ==> IsRound(rounds[i], v, Wanted(Later(idx, i), (i % 256) as bv16)))
    && (forall i :: 0 < i < |rounds| ==> rounds[i].before == rounds[i - 1].after)
  }

  lemma OneMoreSearch(rounds: seq<Round>, v: View, idx: int, s: Nodes, r: Round)
    requires Searches(rounds, v, idx, s, r.before)
    requires IsRound(r, v, Wanted(Later(idx, |rounds|), (|rounds| % 256) as bv16))
    ensures Searches(rounds + [r], v, idx, s, r.after)
  {
    hide IsRound;
  }

  predicate BitSet(d: bv16, k: nat)
    requires k < 16
  {
    (d >> k) & 1 != 0
  }

  /** What a search adds: bit 9 of the found data if that is odd, or bit 8 of the last node but one if there is none. */
  function BitOf(r: Round, v: View): nat {
    if r.hit >= |r.before| then if |r.before| >= 2 && BitSet(Data(v, r.before[|r.before| - 2]), 8) then 1 else 0
    else if BitSet(Data(v, r.before[r.hit]), 0) && BitSet(Data(v, r.before[r.hit]), 9) then 1 else 0
  }

  function Bits(rounds: seq<Round>, v: View): nat {
    if rounds == [] then 0 else Bits(rounds[..|rounds| - 1], v) + BitOf(rounds[|rounds| - 1], v)
  }

  function Hits(rounds: seq<Round>): nat {
    if rounds == [] then 0
    else var r := rounds[|rounds| - 1]; Hits(rounds[..|rounds| - 1]) + if r.hit < |r.before| then 1 else 0
  }

  lemma CountOneMore(rounds: seq<Round>, r: Round, v: View)
    ensures Bits(rounds + [r], v) == Bits(rounds, v) + BitOf(r, v)
    ensures Hits(rounds + [r]) == Hits(rounds) + if r.hit < |r.before| then 1 else 0
  {
    hide BitOf;
    assert (rounds + [r])[..|rounds|] == rounds;
  }

  /** Sixteen bits, as ee_u16 has them. */
  function Wrap16(n: int): nat { n % 0x1_0000 }

  lemma WrapAdd(a: int, b: int)
    ensures Wrap16(Wrap16(a) + b) == Wrap16(a + b)
  {}

  lemma WrapCount(b: int, h: int, m: int)
    ensures Wrap16(Wrap16(b) + Wrap16(h) * 4 - Wrap16(m)) == Wrap16(b + 4 * h - m)
    ensures Wrap16(0) == 0
  {}

  /** Four for each hit, one less for each miss, and the bits, in sixteen bits. */
  function Count(rounds: seq<Round>, v: View): (c: nat)
    ensures c < 0x1_0000
  {
    Wrap16(Bits(rounds, v) + 4 * Hits(rounds) - (|rounds| - Hits(rounds)))
  }

  /** The three counters of the loop. */
  ghost predicate Tally(rounds: seq<Round>, v: View, retval: nat, found: nat, missed: nat) {
    retval == Wrap16(Bits(rounds, v)) && found == Wrap16(Hits(rounds)) && missed == Wrap16(|rounds| - Hits(rounds))
  }

  lemma TallyMore(rounds: seq<Round>, r: Round, v: View, retval: nat, found: nat, missed: nat)
    requires Tally(rounds, v, retval, found, missed)
    ensures var hit := r.hit < |r.before|;
            Tally(rounds + [r], v, Wrap16(retval + BitOf(r, v)), if hit then Wrap16(found + 1) else found,
                  if hit then missed else Wrap16(missed + 1))
  {
    CountOneMore(rounds, r, v);
    WrapAdd(Bits(rounds, v), BitOf(r, v));
    WrapAdd(Hits(rounds), 1);
    WrapAdd(|rounds| - Hits(rounds), 1);
    hide Wrap16, Bits, Hits, BitOf;
  }

  lemma TallyCounts(rounds: seq<Round>, v: View, retval: nat, found: nat, missed: nat)
    requires Tally(rounds, v, retval, found, missed)
    ensures Wrap16(retval + found * 4 - missed) == Count(rounds, v)
  {
    WrapCount(Bits(rounds, v), Hits(rounds), |rounds| - Hits(rounds));
    hide Wrap16, Bits, Hits;
  }

  function Word(n: nat): bv16
    requires n < 0x1_0000
  {
    n as bv16
  }

  /** What was looked for last. */
  function LastWanted(idx: int, n: nat): Wanted {
    Wanted(Later(idx, n), if n == 0 then 0 else ((n - 1) % 256) as bv16)
  }

  /** The searches: each finds a value, turns the list round and moves a node. */
  method Scramble(head: ListHead, findNum: int, idx: int, ghost s: Nodes, ghost v: View)
    returns (list: ListHead, w: Wanted, retval: nat, ghost t: Nodes, ghost rounds: seq<Round>)
    requires |s| >= 3 && Chain(head, s) && Views(v, s)
    modifies (set x | x in s)`next
    ensures Chain(list, t) && multiset(t) == multiset(s) && |t| == |s|
    ensures |rounds| == (if findNum < 0 then 0 else findNum) && w == LastWanted(idx, |rounds|)
    ensures Searches(rounds, v, idx, s, t) && retval == Count(rounds, v)
  {
    hide Searches, Chain, Reversed, Cached, Fits, LastWanted, Wrap16, Tally, Count, IsRound, BitOf;
    list, w, retval, t, rounds := head, Wanted(idx, 0), 0, s, [];
    var found: nat, missed: nat := 0, 0;
    var i := 0;
    NoSearches(v, idx, s);
    while i < findNum
      invariant Chain(list, t) && multiset(t) == multiset(s) && |t| == |s| && Views(v, t)
      invariant i == |rounds| <= (if findNum < 0 then 0 else findNum) && w == LastWanted(idx, i)
      invariant Searches(rounds, v, idx, s, t)
      invariant Tally(rounds, v, retval, found, missed)
      decreases findNum - i
    {
      ghost var r;
      var bit, hit;
      SameMembers(t, s);
      list, w, bit, hit, r := SearchOnce(list, w, i, t, v, idx);
      SameMembers(r.after, t);
      OneMoreSearch(rounds, v, idx, s, r);
      TallyMore(rounds, r, v, retval, found, missed);
      rounds, t := rounds + [r], r.after;
      retval := Wrap16(retval + bit);
      if hit {
        found := Wrap16(found + 1);
      } else {
        missed := Wrap16(missed + 1);
      }
      i := i + 1;
    }
    TallyCounts(rounds, v, retval, found, missed);
    retval := Wrap16(retval + found * 4 - missed);
  }

  lemma NoSearches(v: View, idx: int, s: Nodes)
    ensures Searches([], v, idx, s, s) && LastWanted(idx, 0) == Wanted(idx, 0) && Tally([], v, 0, 0, 0)
  {}

  /** The view holds what the nodes' items hold. */
  ghost predicate Views(v: View, s: Nodes)
    reads (set x | x in s)`info, set x | x in s :: x.info
  {
    forall i :: 0 <= i < |s| ==> s[i] in v && v[s[i]] == (s[i].info.data16, s[i].info.idx)
  }

  /** One turn of the search loop. */
  method SearchOnce(head: ListHead, wanted: Wanted, i: nat, ghost s: Nodes, ghost v: View, ghost idx: int)
    returns (list: ListHead, w: Wanted, bit: nat, hit: bool, ghost r: Round)
    requires |s| >= 3 && Chain(head, s) && Views(v, s) && wanted == LastWanted(idx, i)
    modifies (set x | x in s)`next
    ensures r.before == s && IsRound(r, v, Wanted(Later(idx, i), (i % 256) as bv16))
    ensures Chain(list, r.after) && multiset(r.after) == multiset(s) && |r.after| == |s|
    ensures (hit <==> r.hit < |s|) && bit == BitOf(r, v) && w == LastWanted(idx, i + 1)
  {
    w := wanted.(data16 := (i % 0x100) as bv16);
    list, bit, hit, r := FindAndTurn(head, w, s, v);
    if w.idx >= 0 {
      w := w.(idx := Inc16(w.idx));
    }
  }

  method FindAndTurn(head: ListHead, w: Wanted, ghost s: Nodes, ghost v: View)
    returns (list: ListHead, bit: nat, hit: bool, ghost r: Round)
    requires |s| >= 3 && Chain(head, s) && Views(v, s)
    modifies (set x | x in s)`next
    ensures r.before == s && IsRound(r, v, w)
    ensures Chain(list, r.after) && multiset(r.after) == multiset(s) && |r.after| == |s|
    ensures (hit <==> r.hit < |s|) && bit == BitOf(r, v)
  {
    hide Reversed, Fits, BitSet, Cached;
    var thisFind;
    ghost var k;
    thisFind, list, k := FindAndReverse(head, w, s);
    r := Round(s, k, Turned(s, k));
    RoundOf(r, s, v, k, w);
    assert (k == 0 || k == |s| ==> r.after == Reversed(s)) && |r.after| == |s|;
    hide Chain, IsRound, BitOf, Turned, Matches, Views;
    bit := BitFor(list, thisFind);
    hit := thisFind != null;
    if thisFind != null && thisFind.next != null {
      CacheFound(list, thisFind, s, k);
    }
  }

  /** The bit of the found item, or of the second one if there is none. */
  method BitFor(list: ListHead, thisFind: ListHead?) returns (bit: nat)
    requires list.next != null
    ensures thisFind == null ==> bit == if BitSet(list.next.info.data16, 8) then 1 else 0
    ensures thisFind != null ==>
      var d := thisFind.info.data16; bit == if BitSet(d, 0) && BitSet(d, 9) then 1 else 0
  {
    hide BitSet;
    bit := 0;
    if thisFind == null {
      if BitSet(list.next.info.data16, 8) {
        bit := 1;
      }
    } else if BitSet(thisFind.info.data16, 0) && BitSet(thisFind.info.data16, 9) {
      bit := 1;
    }
  }

  method FindAndReverse(head: ListHead, w: Wanted, ghost s: Nodes)
    returns (thisFind: ListHead?, list: ListHead, ghost k: nat)
    requires |s| >= 3 && Chain(head, s)
    modifies (set x | x in s)`next
    ensures k <= |s| && (forall i :: 0 <= i < k ==> !Matches(s[i].info, w)) && (k < |s| ==> Matches(s[k].info, w))
    ensures if k == |s| then thisFind == null else thisFind == s[k] && (thisFind.next == null <==> k == 0)
    ensures Chain(list, Reversed(s)) && list.next == s[|s| - 2] && multiset(Reversed(s)) == multiset(s)
  {
    thisFind, k := Find(head, w, s);
    list := Reverse(head, s);
    ghost var t := Reversed(s);
    assert list == t[0] && list.next == t[1] == s[|s| - 2];
    LastHasNoNext(list, t, k);
  }

  lemma RoundOf(r: Round, s: Nodes, v: View, k: nat, w: Wanted)
    requires |s| >= 3 && k <= |s| && r == Round(s, k, Turned(s, k)) && Views(v, s)
    requires (forall i :: 0 <= i < k ==> !Matches(s[i].info, w)) && (k < |s| ==> Matches(s[k].info, w))
    ensures IsRound(r, v, w)
    ensures k == |s| ==> BitOf(r, v) == if BitSet(s[|s| - 2].info.data16, 8) then 1 else 0
    ensures k < |s| ==> var d := s[k].info.data16; BitOf(r, v) == if BitSet(d, 0) && BitSet(d, 9) then 1 else 0
  {
    hide Fits, BitSet, Turned;
  }

  lemma ViewHolds(s: Nodes, nodes: Nodes)
    requires forall x :: x in s ==> x in nodes
    ensures Views(ViewOf(nodes), s)
  {}

  lemma LastHasNoNext(list: ListHead?, t: Nodes, k: nat)
    requires Chain(list, t)
    ensures k < |t| ==> (t[|t| - 1 - k].next == null <==> k == 0)
  {
    if 0 < k < |t| {
      assert t[|t| - 1 - k].next == t[|t| - 1 - k + 1];
    }
  }

  /** The node behind the found one is cached. */
  method CacheFound(list: ListHead, thisFind: ListHead, ghost s: Nodes, ghost k: nat)
    requires k < |s| && |s| >= 3 && Chain(list, Reversed(s)) && thisFind == s[k] && thisFind.next != null
    modifies (set x | x in s)`next
    ensures Chain(list, Turned(s, k)) && multiset(Turned(s, k)) == multiset(s)
  {
    ghost var t := Reversed(s);
    ghost var j := |s| - 1 - k;
    assert thisFind == t[j];
    SameMembers(t, s);
    CachedIsPermutation(t, j);
    CacheNext(list, thisFind, t, j);
  }

  // ----- back to the original state -----

  /** The list is sorted by pairwise distinct indices. */
  ghost predicate Indexed(s: Nodes)
    reads (set x | x in s)`info, (set x | x in s :: x.info)`idx
  {
    forall i, j :: 0 <= i < j < |s| ==> s[i].info.idx < s[j].info.idx
  }

  /** The low byte of an item equals the high byte it is rebuilt from. */
  predicate Original(d: ListData) reads d { d.data16 & 0xff == High(d.data16) }

  lemma SortedIsIndexed(orig: Nodes, out: Nodes, nodes: Nodes)
    requires Indexed(nodes) && NoDup(out) && multiset(out) == multiset(nodes)
    requires forall x :: x in out ==> x in orig
    requires SortedStable(ByIdx(true), orig, out)
    ensures Indexed(out)
  {
    SameMembers(out, nodes);
    forall i, j | 0 <= i < j < |out|
      ensures out[i].info.idx < out[j].info.idx
    {
      assert AtMost(ByIdx(true), Key(ByIdx(true), out[i].info), Key(ByIdx(true), out[j].info));
      assert out[i] in nodes && out[j] in nodes && out[i] != out[j];
    }
  }

  /** Only one order of the nodes is sorted by distinct indices. */
  lemma {:induction false} IndexedIsUnique(a: Nodes, b: Nodes)
    requires Indexed(a) && Indexed(b) && multiset(a) == multiset(b)
    ensures a == b
    decreases |a|
  {
    SameMembers(a, b);
    if a != [] {
      SameHead(a, b);
      SameTails(a, b);
      IndexedIsUnique(a[1..], b[1..]);
    }
  }

  lemma SameHead(a: Nodes, b: Nodes)
    requires Indexed(a) && Indexed(b) && multiset(a) == multiset(b) && a != [] && b != []
    ensures a[0] == b[0]
  {
    SameMembers(a, b);
    SameMembers(b, a);
    assert a[0] in b && b[0] in a;
    var i :| 0 <= i < |a| && a[i] == b[0];
    var j :| 0 <= j < |b| && b[j] == a[0];
  }

  lemma SameTails(a: Nodes, b: Nodes)
    requires multiset(a) == multiset(b) && a != [] && b != [] && a[0] == b[0]
    ensures multiset(a[1..]) == multiset(b[1..])
  {
    assert a == [a[0]] + a[1..] && b == [b[0]] + b[1..];
    assert multiset(a[1..]) == multiset(a) - multiset{a[0]};
    assert multiset(b[1..]) == multiset(b) - multiset{b[0]};
  }

  lemma SameBits(d: bv16, o: bv16)
    requires d & 0xff == High(d) && o & 0xff == High(o) && High(d) == High(o)
    ensures d == o
  {}

  twostate predicate InfosKept(s: Nodes)
    reads (set x | x in s)`info
  {
    forall i :: 0 <= i < |s| ==> s[i].info == old(s[i].info)
  }

  /** The data items of the nodes. */
  ghost function Infos(s: Nodes): set<ListData>
    reads (set x | x in s)`info
  {
    set i | 0 <= i < |s| :: s[i].info
  }

  function FirstMatch(u: Nodes, v: View, w: Wanted): (k: nat)
    ensures k <= |u| && forall i :: 0 <= i < k ==> u[i] in v && !Fits(v[u[i]], w)
    ensures k < |u| ==> u[k] !in v || Fits(v[u[k]], w)
  {
    if u == [] || u[0] !in v || Fits(v[u[0]], w) then 0 else 1 + FirstMatch(u[1..], v, w)
  }

  lemma {:induction false} FirstMatchIs(u: Nodes, v: View, w: Wanted, k: nat)
    requires k <= |u| && forall i :: 0 <= i < k ==> u[i] in v && !Fits(v[u[i]], w)
    requires k < |u| ==> u[k] in v && Fits(v[u[k]], w)
    ensures FirstMatch(u, v, w) == k
  {
    if k > 0 {
      FirstMatchIs(u[1..], v, w, k - 1);
    }
  }

  /** Where the search finds something among the items without the second one; behind the head if it finds nothing. */
  function FoundAt(s: Nodes, v: View, w: Wanted): nat
    requires |s| >= 3
  {
    var u := s[..1] + s[2..];
    if FirstMatch(u, v, w) == |u| then 1 else FirstMatch(u, v, w)
  }

  /** Removing the second node, searching, and putting it back leaves every node as it was. */
  method RemoveAndRestore(list: ListHead, w: Wanted, retval: bv16, ghost s: Nodes, ghost nodes: Nodes) returns (r: bv16)
    requires |s| >= 3 && Chain(list, s) && multiset(s) == multiset(nodes)
    modifies s[1], s[2]
    ensures Chain(list, s) && InfosKept(nodes) && Infos(nodes) == old(Infos(nodes))
    ensures var v := old(ViewOf(nodes));
            var k := FoundAt(s, v, w); k <= |s| - 1 && r == Crc.CrcOf(Repeated(Data(v, s[0]), |s| - 1 - k), retval)
  {
    SameMembers(s, nodes);
    ghost var v := ViewOf(nodes);
    ViewHolds(s, nodes);
    r := CrcWithoutSecond(list, w, retval, s, v);
    SameMembers(nodes, s);
    forall i | 0 <= i < |nodes|
      ensures nodes[i].info == old(nodes[i].info)
    {
      assert nodes[i] in s;
    }
  }

  /** Without the third node and with its item in the second one, the items are those without the second one. */
  lemma ItemsMoveUp(s: Nodes, v: View, t: Nodes, u: Nodes)
    requires |s| >= 3 && t == s[..2] + s[3..] && u == s[..1] + s[2..] && forall i :: 0 <= i < |s| ==> s[i] in v
    requires v[s[0]] == (s[0].info.data16, s[0].info.idx) && v[s[2]] == (s[1].info.data16, s[1].info.idx)
    requires forall i :: 3 <= i < |s| ==> v[s[i]] == (s[i].info.data16, s[i].info.idx)
    ensures forall i :: 0 <= i < |t| ==> u[i] in v && v[u[i]] == (t[i].info.data16, t[i].info.idx)
  {
    forall i | 0 <= i < |t|
      ensures u[i] in v && v[u[i]] == (t[i].info.data16, t[i].info.idx)
    {
      assert u[i] == s[if i < 1 then i else i + 1];
      assert t[i] == s[if i < 2 then i else i + 1];
    }
  }

  method CrcWithoutSecond(list: ListHead, w: Wanted, retval: bv16, ghost s: Nodes, ghost v: View) returns (r: bv16)
    requires |s| >= 3 && Chain(list, s) && Views(v, s)
    modifies s[1], s[2]
    ensures Chain(list, s) && forall x :: x in s ==> x.info == old(x.info)
    ensures var k := FoundAt(s, v, w); k <= |s| - 1 && r == Crc.CrcOf(Repeated(Data(v, s[0]), |s| - 1 - k), retval)
  {
    hide Crc.CrcOf, Fits, FirstMatch;
    var remover := Remove(list.next, s);
    ghost var t := s[..2] + s[3..];
    ghost var u := s[..1] + s[2..];
    ItemsMoveUp(s, v, t, u);
    r := SearchAndWalk(list, w, retval, t, u, v);
    PutBack(remover, list.next, s);
  }

  /** The CRC from the found node on, or from the second one if nothing is found. */
  method SearchAndWalk(list: ListHead, w: Wanted, retval: bv16, ghost t: Nodes, ghost u: Nodes, ghost v: View)
    returns (r: bv16)
    requires |t| == |u| >= 2 && Chain(list, t)
    requires forall i :: 0 <= i < |t| ==> u[i] in v && v[u[i]] == (t[i].info.data16, t[i].info.idx)
    ensures var m := FirstMatch(u, v, w); var k := if m == |u| then 1 else m;
            r == Crc.CrcOf(Repeated(Data(v, u[0]), |t| - k), retval)
  {
    hide Crc.CrcOf, Fits;
    var finder;
    ghost var k;
    finder, k := Find(list, w, t);
    FirstMatchIs(u, v, w, k);
    if finder == null {
      finder, k := list.next, 1;
    }
    assert list == t[0] && t[0].next == t[1];
    r := CrcWalk(list, finder, retval, t, k);
  }

  method PutBack(removed: ListHead, modified: ListHead, ghost s: Nodes)
    requires |s| >= 3 && NoDup(s) && Chain(s[0], s[..2] + s[3..]) && removed == s[2] && modified == s[1]
    modifies removed, modified
    ensures removed.info == old(modified.info) && modified.info == old(removed.info) && Chain(s[0], s)
  {
    ghost var t := s[..2] + s[3..];
    assert forall i :: 0 <= i < |t| ==> t[i] == s[if i < 2 then i else i + 1];
    assert t[0].next == t[1];
    assert |s| > 3 ==> t[1].next == t[2] == s[3];
    assert |s| == 3 ==> t[1] == t[|t| - 1];
    forall i | 3 <= i < |s| - 1
      ensures s[i].next == s[i + 1]
    {
      assert t[i - 1].next == t[i];
    }
    assert |s| > 3 ==> t[|t| - 1] == s[|s| - 1];
    UndoRemove(removed, modified);
  }

  twostate predicate HighBytesKept(datas: set<ListData>)
    reads datas`data16
  {
    forall d :: d in datas ==> High(d.data16) == High(old(d.data16))
  }

  /** Every item has its value cached, and the values rise; equal ones stay as they were. */
  ghost predicate ByValue(cur: Nodes, mid: Nodes, v: View)
    requires forall x :: x in cur ==> x in mid
  {
    && (forall x :: x in cur ==> x in v && IsCached(v[x].0))
    && forall i, j :: 0 <= i < j < |cur| ==>
         var a, b := CachedValue(v[cur[i]].0) as int, CachedValue(v[cur[j]].0) as int;
         a <= b && (a == b ==> Place(mid, cur[i]) < Place(mid, cur[j]))
  }

  /** The searches, and for a positive index the sort by data. */
  method Shuffle(head: ListHead, findNum: int, finderIdx: int, ghost nodes: Nodes, ghost datas: set<ListData>)
    returns (list: ListHead, w: Wanted, retval: nat, ghost rounds: seq<Round>, ghost mid: Nodes, ghost cur: Nodes)
    requires |nodes| >= 3 && Chain(head, nodes) && datas == Infos(nodes)
    modifies (set x | x in nodes)`next, datas`data16
    ensures Chain(list, cur) && multiset(cur) == multiset(nodes) && |cur| == |nodes| && HighBytesKept(datas)
    ensures Scrambled(findNum, finderIdx, nodes, old(ViewOf(nodes)), w, retval, rounds, mid)
    ensures finderIdx <= 0 ==> cur == mid && ViewOf(nodes) == old(ViewOf(nodes))
    ensures finderIdx > 0 ==> (forall x :: x in cur ==> x in mid) && ByValue(cur, mid, ViewOf(nodes))
  {
    hide Searches, Count, LastWanted, Views;
    ghost var v := ViewOf(nodes);
    ViewHolds(nodes, nodes);
    list, w, retval, mid, rounds := Scramble(head, findNum, finderIdx, nodes, v);
    assert Scrambled(findNum, finderIdx, nodes, v, w, retval, rounds, mid) && ViewOf(nodes) == v;
    hide Scrambled, ViewOf;
    cur := mid;
    if finderIdx > 0 {
      list, cur := SortByValue(list, mid, nodes, datas);
    }
  }

  /** What the searches leave behind. */
  ghost predicate Scrambled(findNum: int, finderIdx: int, nodes: Nodes, v: View, w: Wanted, retval: nat,
                            rounds: seq<Round>, mid: Nodes)
  {
    && |rounds| == (if findNum < 0 then 0 else findNum) && w == LastWanted(finderIdx, |rounds|)
    && Searches(rounds, v, finderIdx, nodes, mid) && retval == Count(rounds, v) && multiset(mid) == multiset(nodes)
  }

  method SortByValue(head: ListHead, ghost mid: Nodes, ghost nodes: Nodes, ghost datas: set<ListData>)
    returns (list: ListHead, ghost cur: Nodes)
    requires |nodes| >= 3 && Chain(head, mid) && multiset(mid) == multiset(nodes) && datas == Infos(nodes)
    modifies (set x | x in nodes)`next, datas`data16
    ensures Chain(list, cur) && multiset(cur) == multiset(nodes) && |cur| == |nodes| && HighBytesKept(datas)
    ensures (forall x :: x in cur ==> x in mid) && ByValue(cur, mid, ViewOf(nodes))
  {
    hide Settled, Chain, High, SortedStable, ByValue, Infos;
    ItemsOwned(mid, nodes);
    ChainIs(head, mid);
    SameMembers(mid, nodes);
    list, cur := Mergesort(ByData, head, mid, datas);
    ChainOf(list, cur);
    SortedIsByValue(cur, mid, nodes);
  }

  lemma SortedIsByValue(cur: Nodes, mid: Nodes, nodes: Nodes)
    requires forall x :: x in cur ==> x in mid && x in nodes
    requires SortedStable(ByData, mid, cur) && forall x :: x in cur ==> Settled(ByData, x.info)
    ensures ByValue(cur, mid, ViewOf(nodes))
  {
    var v := ViewOf(nodes);
    forall x | x in cur
      ensures x in v && v[x].0 == x.info.data16 && IsCached(v[x].0) && Key(ByData, x.info).0 == CachedValue(v[x].0)
    {
      IsSettled(x.info);
      KeyIs(x.info);
    }
    hide IsCached, CachedValue, Place;
    forall i, j | 0 <= i < j < |cur|
      ensures var a, b := CachedValue(v[cur[i]].0) as int, CachedValue(v[cur[j]].0) as int;
              a <= b && (a == b ==> Place(mid, cur[i]) < Place(mid, cur[j]))
    {
      assert AtMost(ByData, Key(ByData, cur[i].info), Key(ByData, cur[j].info));
      assert AtMost(ByData, Key(ByData, cur[j].info), Key(ByData, cur[i].info))
        ==> Place(mid, cur[i]) < Place(mid, cur[j]);
    }
  }

  lemma ChainIs(list: ListHead?, s: Nodes)
    requires Chain(list, s)
    ensures list == First(s) && NoDup(s) && Linked(s) && Ends(s)
  {}

  lemma ChainOf(list: ListHead?, s: Nodes)
    requires list == First(s) && NoDup(s) && Linked(s) && Ends(s)
    ensures Chain(list, s)
  {}

  /** The sort by index, which rebuilds the data: it undoes every shuffle. */
  method Restore(head: ListHead, ghost cur: Nodes, ghost nodes: Nodes, ghost datas: set<ListData>)
    returns (list: ListHead)
    requires |nodes| >= 3 && Chain(head, cur) && multiset(cur) == multiset(nodes) && |cur| == |nodes|
    requires Indexed(nodes) && datas == Infos(nodes)
    modifies (set x | x in nodes)`next, datas`data16
    ensures Chain(list, nodes) && HighBytesKept(datas)
    ensures forall d :: d in datas ==> Original(d)
  {
    hide High, Original, Settled, Key, SortedStable, Linked, Ends, Indexed, Infos;
    ItemsOwned(cur, nodes);
    ghost var out;
    list, out := Mergesort(ByIdx(true), head, cur, datas);
    SortedIsIndexed(cur, out, nodes);
    IndexedIsUnique(out, nodes);
    assert out == nodes;
    AllSettled(nodes, datas);
  }

  lemma ItemsOwned(cur: Nodes, nodes: Nodes)
    requires multiset(cur) == multiset(nodes)
    ensures forall x :: x in cur ==> x in nodes && x.info in Infos(nodes)
  {
    SameMembers(cur, nodes);
    forall x | x in cur
      ensures x.info in Infos(nodes)
    {
      var i :| 0 <= i < |nodes| && nodes[i] == x;
      assert nodes[i].info in Infos(nodes);
    }
  }

  lemma AllSettled(nodes: Nodes, datas: set<ListData>)
    requires datas == Infos(nodes) && forall x :: x in nodes ==> Settled(ByIdx(true), x.info)
    ensures forall d :: d in datas ==> Original(d)
  {}

  /**
   The whole benchmark. Whatever the searches and the first sort do to a list that
   was sorted by distinct indices with original data, at the end it has the same
   nodes in the same order with the same data.
   */
  method BenchList(head: ListHead, findNum: int, finderIdx: int, ghost nodes: Nodes, ghost datas: set<ListData>)
    returns (list: ListHead, retval: bv16, ghost rounds: seq<Round>, ghost mid: Nodes, ghost cur: Nodes, ghost v: View)
    requires |nodes| >= 3 && Chain(head, nodes) && Indexed(nodes)
    requires datas == Infos(nodes)
    requires forall d :: d in datas ==> Original(d)
    modifies (set x | x in nodes), datas`data16
    ensures list == head && Chain(head, nodes)
    ensures InfosKept(nodes)
    ensures forall d :: d in datas ==> d.data16 == old(d.data16)
    // the searches take the list to mid, the sort by data to cur, which then holds v
    ensures var w, count := LastWanted(finderIdx, |rounds|), Count(rounds, old(ViewOf(nodes)));
            Scrambled(findNum, finderIdx, nodes, old(ViewOf(nodes)), w, count, rounds, mid)
    ensures multiset(cur) == multiset(nodes) && |cur| == |nodes|
    ensures finderIdx <= 0 ==> cur == mid && v == old(ViewOf(nodes))
    ensures finderIdx > 0 ==> (forall x :: x in cur ==> x in mid) && ByValue(cur, mid, v)
    ensures retval == Answer(cur, v, LastWanted(finderIdx, |rounds|), Count(rounds, old(ViewOf(nodes))),
                             old(Data(ViewOf(nodes), nodes[0])))
  {
    hide Linked, Ends, NoDup, Infos, Scrambled, Count, ByValue, FoundAt, Crc.CrcOf, ViewOf, Indexed, Repeated, Data;
    ghost var first := nodes[0].info.data16;
    FirstData(nodes);
    list, retval, rounds, mid, cur, v := Upset(head, findNum, finderIdx, nodes, datas);
    list := Restore(list, cur, nodes, datas);
    forall d | d in datas
      ensures d.data16 == old(d.data16)
    {
      SameBits(d.data16, old(d.data16));
    }
    retval := CrcBehindHead(list, retval, nodes);
    assert nodes[0].info in datas && nodes[0].info.data16 == first;
  }

  lemma FirstData(nodes: Nodes)
    requires nodes != []
    ensures Data(ViewOf(nodes), nodes[0]) == nodes[0].info.data16 && nodes[0].info in Infos(nodes)
  {}

  /** The benchmark up to the sort by index. */
  method Upset(head: ListHead, findNum: int, finderIdx: int, ghost nodes: Nodes, ghost datas: set<ListData>)
    returns (list: ListHead, retval: bv16, ghost rounds: seq<Round>, ghost mid: Nodes, ghost cur: Nodes, ghost v: View)
    requires |nodes| >= 3 && Chain(head, nodes) && datas == Infos(nodes)
    modifies (set x | x in nodes), datas`data16
    ensures Chain(list, cur) && HighBytesKept(datas) && InfosKept(nodes) && datas == Infos(nodes)
    ensures var w, count := LastWanted(finderIdx, |rounds|), Count(rounds, old(ViewOf(nodes)));
            Scrambled(findNum, finderIdx, nodes, old(ViewOf(nodes)), w, count, rounds, mid)
    ensures multiset(cur) == multiset(nodes) && |cur| == |nodes|
    ensures finderIdx <= 0 ==> cur == mid && v == old(ViewOf(nodes))
    ensures finderIdx > 0 ==> (forall x :: x in cur ==> x in mid) && ByValue(cur, mid, v)
    ensures retval == FirstAnswer(cur, v, LastWanted(finderIdx, |rounds|), Count(rounds, old(ViewOf(nodes))))
  {
    hide Linked, Ends, NoDup, Infos, Scrambled, Count, ByValue, FoundAt, Crc.CrcOf, ViewOf, Repeated, Data;
    var w, count;
    ghost var v0 := ViewOf(nodes);
    list, w, count, rounds, mid, cur := Shuffle(head, findNum, finderIdx, nodes, datas);
    SameMembers(cur, nodes);
    v := ViewOf(nodes);
    WhatScrambled(findNum, finderIdx, nodes, v0, w, count, rounds, mid);
    retval := RemoveAndRestore(list, w, Word(count), cur, nodes);
  }

  lemma WhatScrambled(findNum: int, finderIdx: int, nodes: Nodes, v: View, w: Wanted, retval: nat,
                      rounds: seq<Round>, mid: Nodes)
    requires Scrambled(findNum, finderIdx, nodes, v, w, retval, rounds, mid)
    ensures w == LastWanted(finderIdx, |rounds|) && retval == Count(rounds, v)
  {}

  /** After the count, the CRC of the head's data once for each node from the found one on. */
  function FirstAnswer(cur: Nodes, v: View, w: Wanted, count: nat): bv16
    requires |cur| >= 3 && count < 0x1_0000
  {
    var k := FoundAt(cur, v, w);
    Crc.CrcOf(Repeated(Data(v, cur[0]), if k <= |cur| - 1 then |cur| - 1 - k else 0), Word(count))
  }

  /** And then of the first node's original data once for each other node. */
  function Answer(cur: Nodes, v: View, w: Wanted, count: nat, first: bv16): bv16
    requires |cur| >= 3 && count < 0x1_0000
  {
    Crc.CrcOf(Repeated(first, |cur| - 1), FirstAnswer(cur, v, w, count))
  }

  method CrcBehindHead(list: ListHead, retval: bv16, ghost s: Nodes) returns (r: bv16)
    requires s != [] && Chain(list, s)
    ensures r == Crc.CrcOf(Repeated(list.info.data16, |s| - 1), retval)
  {
    assert |s| > 1 ==> s[0].next == s[1];
    r := CrcWalk(list, list.next, retval, s, 1);
  }
}
