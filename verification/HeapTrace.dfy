/** The heap tracer: a fixed table with a search hint and running totals, against the map that it stands for. */
module HeapTrace {

  const MAX_CNT: nat := 1024

  /** A block on record; pointer zero marks a free slot. */
  datatype Slot = Slot(ptr: nat, size: nat)

  datatype Info = Info(entryCnt: int, entryCntMax: int, sum: int, sumMax: int)

  const FREE_SLOT := Slot(0, 0)

  type Region = nat -> bool

  // ----- what a table adds up to -----

  predicate Counts(s: Slot, region: Region) { s.ptr != 0 && region(s.ptr) }

  function Sum(t: seq<Slot>, region: Region): int {
    if t == [] then 0 else Sum(t[..|t| - 1], region) + if Counts(t[|t| - 1], region) then t[|t| - 1].size else 0
  }

  function Count(t: seq<Slot>, region: Region): int {
    if t == [] then 0 else Count(t[..|t| - 1], region) + if Counts(t[|t| - 1], region) then 1 else 0
  }

  /** Exchanging one slot changes the totals by the difference of the two slots. */
  lemma {:induction false} ExchangeSlot(t: seq<Slot>, i: nat, s: Slot, region: Region)
    requires i < |t|
    ensures Sum(t[i := s], region)
         == Sum(t, region) - (if Counts(t[i], region) then t[i].size else 0) + (if Counts(s, region) then s.size else 0)
    ensures Count(t[i := s], region)
         == Count(t, region) - (if Counts(t[i], region) then 1 else 0) + (if Counts(s, region) then 1 else 0)
  {
    var n := |t| - 1;
    if i == n {
      assert t[i := s][..n] == t[..n];
    } else {
      assert t[i := s][..n] == t[..n][i := s];
      ExchangeSlot(t[..n], i, s, region);
    }
  }

  lemma {:induction false} NothingCounted(t: seq<Slot>, region: Region)
    requires forall i :: 0 <= i < |t| ==> t[i].ptr == 0
    ensures Sum(t, region) == 0 && Count(t, region) == 0
  {
    if t != [] {
      NothingCounted(t[..|t| - 1], region);
    }
  }

  // ----- the map that a table stands for -----

  /** The occupied slots are the entries of the map, each once. */
  ghost predicate Represents(t: seq<Slot>, m: map<nat, nat>) {
    && 0 !in m
    && (forall i, j :: 0 <= i < j < |t| && t[i].ptr == t[j].ptr ==> t[i].ptr == 0)
    && (forall i :: 0 <= i < |t| && t[i].ptr != 0 ==> t[i].ptr in m && m[t[i].ptr] == t[i].size)
    && (forall p :: p in m ==> exists i :: 0 <= i < |t| && t[i].ptr == p)
  }

  function Everything(): Region { _ => true }

  lemma WithoutLast(t: seq<Slot>, m: map<nat, nat>)
    requires t != [] && Represents(t, m)
    ensures Represents(t[..|t| - 1], m - {t[|t| - 1].ptr})
  {
    var n, rest := |t| - 1, m - {t[|t| - 1].ptr};
    forall p | p in rest
      ensures exists i :: 0 <= i < n && t[..n][i].ptr == p
    {
      var i :| 0 <= i < |t| && t[i].ptr == p;
      assert t[..n][i].ptr == p;
    }
  }

  lemma OneLess(m: map<nat, nat>, p: nat)
    ensures |m| == |m - {p}| + if p in m then 1 else 0
  {
    if p in m {
      assert m.Keys == (m - {p}).Keys + {p};
    } else {
      assert m - {p} == m;
    }
  }

  /** The number of occupied slots is the number of entries. */
  lemma {:induction false} CountIsSize(t: seq<Slot>, m: map<nat, nat>)
    requires Represents(t, m)
    ensures Count(t, Everything()) == |m|
  {
    if t == [] {
      assert m.Keys == {};
    } else {
      var last := t[|t| - 1];
      WithoutLast(t, m);
      OneLess(m, last.ptr);
      assert last.ptr in m <==> last.ptr != 0;
      hide Represents;
      CountIsSize(t[..|t| - 1], m - {last.ptr});
    }
  }

  lemma {:induction false} NoFreeSlot(t: seq<Slot>)
    requires forall i :: 0 <= i < |t| ==> t[i].ptr != 0
    ensures Count(t, Everything()) == |t|
  {
    if t != [] {
      NoFreeSlot(t[..|t| - 1]);
    }
  }

  lemma {:induction false} SomeFreeSlot(t: seq<Slot>, i: nat)
    requires i < |t| && t[i].ptr == 0
    ensures Count(t, Everything()) < |t|
  {
    var full := t[i := Slot(1, 0)];
    ExchangeSlot(t, i, Slot(1, 0), Everything());
    AtMostAll(full, Everything());
  }

  lemma {:induction false} AtMostAll(t: seq<Slot>, region: Region)
    ensures 0 <= Count(t, region) <= |t|
  {
    if t != [] {
      AtMostAll(t[..|t| - 1], region);
    }
  }

  /** The map without one pointer and with another; pointer zero stands for none. */
  function Moved(m: map<nat, nat>, from: nat, to: nat, size: nat): map<nat, nat> {
    if to == 0 then m - {from} else (m - {from})[to := size]
  }

  /** Every entry of the changed map has its slot. */
  lemma EntriesHaveSlots(t: seq<Slot>, u: seq<Slot>, m: map<nat, nat>, i: nat, s: Slot, p: nat)
    requires Represents(t, m) && i < |t| && u == t[i := s] && p in Moved(m, t[i].ptr, s.ptr, s.size)
    ensures exists k :: 0 <= k < |u| && u[k].ptr == p
  {
    if p == s.ptr {
      assert u[i].ptr == p;
    } else {
      var k :| 0 <= k < |t| && t[k].ptr == p;
      assert u[k].ptr == p;
    }
  }

  /** One slot is filled, emptied or given a new pointer. */
  lemma SlotIsSet(t: seq<Slot>, m: map<nat, nat>, i: nat, s: Slot)
    requires Represents(t, m) && i < |t| && (s.ptr == 0 || s.ptr == t[i].ptr || s.ptr !in m)
    ensures Represents(t[i := s], Moved(m, t[i].ptr, s.ptr, s.size))
  {
    var u, n := t[i := s], Moved(m, t[i].ptr, s.ptr, s.size);
    forall p | p in n
      ensures exists k :: 0 <= k < |u| && u[k].ptr == p
    {
      EntriesHaveSlots(t, u, m, i, s, p);
    }
    forall k | 0 <= k < |t| && u[k].ptr != 0
      ensures u[k].ptr in n && n[u[k].ptr] == u[k].size
    {
      assert k != i ==> u[k] == t[k] && t[k].ptr != t[i].ptr;
    }
  }

  // ----- maxima -----

  /** The largest value so far of a total over the tables of a history. */
  ghost predicate IsMaxSum(x: int, past: seq<seq<Slot>>, region: Region) {
    && (forall k :: 0 <= k < |past| ==> Sum(past[k], region) <= x)
    && (exists k :: 0 <= k < |past| && Sum(past[k], region) == x)
  }

  ghost predicate IsMaxCount(x: int, past: seq<seq<Slot>>) {
    && (forall k :: 0 <= k < |past| ==> Count(past[k], Everything()) <= x)
    && (exists k :: 0 <= k < |past| && Count(past[k], Everything()) == x)
  }

  function Max(a: int, b: int): int { if a > b then a else b }

  lemma NextMaxSum(x: int, past: seq<seq<Slot>>, t: seq<Slot>, region: Region)
    requires IsMaxSum(x, past, region)
    ensures IsMaxSum(Max(x, Sum(t, region)), past + [t], region)
  {
    var all := past + [t];
    if x >= Sum(t, region) {
      var k :| 0 <= k < |past| && Sum(past[k], region) == x;
      assert all[k] == past[k];
    } else {
      assert all[|past|] == t;
    }
  }

  lemma NextMaxCount(x: int, past: seq<seq<Slot>>, t: seq<Slot>)
    requires IsMaxCount(x, past)
    ensures IsMaxCount(Max(x, Count(t, Everything())), past + [t])
  {
    var all := past + [t];
    if x >= Count(t, Everything()) {
      var k :| 0 <= k < |past| && Count(past[k], Everything()) == x;
      assert all[k] == past[k];
    } else {
      assert all[|past|] == t;
    }
  }

  // ----- the books -----

  /** Sum and largest sum are those of the table and its history. */
  ghost predicate Adds(info: Info, t: seq<Slot>, region: Region, past: seq<seq<Slot>>) {
    info.sum == Sum(t, region) && IsMaxSum(info.sumMax, past, region)
  }

  /** How exchanging a slot has to appear in the books of a region. */
  ghost predicate Booked(a: Info, b: Info, was: Slot, s: Slot, region: Region) {
    && b.sum == a.sum - (if Counts(was, region) then was.size else 0) + (if Counts(s, region) then s.size else 0)
    && (b.sumMax == Max(a.sumMax, b.sum) || (b.sumMax == a.sumMax && b.sum <= a.sum))
  }

  lemma AddsAfter(a: Info, b: Info, t: seq<Slot>, i: nat, s: Slot, region: Region, past: seq<seq<Slot>>)
    requires i < |t| && Adds(a, t, region, past) && Booked(a, b, t[i], s, region)
    requires past != [] && past[|past| - 1] == t
    ensures Adds(b, t[i := s], region, past + [t[i := s]])
  {
    ExchangeSlot(t, i, s, region);
    NextMaxSum(a.sumMax, past, t[i := s], region);
    assert Sum(past[|past| - 1], region) <= a.sumMax;
  }

  /** The totals are those of the table and its history, which ends with the table. */
  ghost predicate Books(total: Info, inSram: Info, inPsram: Info, t: seq<Slot>, past: seq<seq<Slot>>,
                        sram: Region, psram: Region) {
    && past != [] && past[|past| - 1] == t
    && Adds(total, t, Everything(), past) && Adds(inSram, t, sram, past) && Adds(inPsram, t, psram, past)
    && total.entryCnt == Count(t, Everything()) && IsMaxCount(total.entryCntMax, past)
  }

  /** The maxima are the largest totals over a history. */
  ghost predicate Maxima(total: Info, inSram: Info, inPsram: Info, past: seq<seq<Slot>>, sram: Region, psram: Region) {
    && IsMaxSum(total.sumMax, past, Everything()) && IsMaxCount(total.entryCntMax, past)
    && IsMaxSum(inSram.sumMax, past, sram) && IsMaxSum(inPsram.sumMax, past, psram)
  }

  /** The number of entries and its maximum after a slot has been exchanged. */
  ghost predicate Numbered(a: Info, b: Info, was: Slot, s: Slot) {
    && b.entryCnt == a.entryCnt - (if was.ptr != 0 then 1 else 0) + (if s.ptr != 0 then 1 else 0)
    && (b.entryCntMax == Max(a.entryCntMax, b.entryCnt) || (b.entryCntMax == a.entryCntMax && b.entryCnt <= a.entryCnt))
  }

  lemma BooksAreKept(t: seq<Slot>, i: nat, s: Slot, past: seq<seq<Slot>>, sram: Region, psram: Region,
                     a: Info, b: Info, c: Info, total: Info, inSram: Info, inPsram: Info)
    requires i < |t| && Books(a, b, c, t, past, sram, psram)
    requires Booked(a, total, t[i], s, Everything()) && Booked(b, inSram, t[i], s, sram)
    requires Booked(c, inPsram, t[i], s, psram)
    requires Numbered(a, total, t[i], s)
    ensures Books(total, inSram, inPsram, t[i := s], past + [t[i := s]], sram, psram)
  {
    assert Count(past[|past| - 1], Everything()) <= a.entryCntMax;
    ExchangeSlot(t, i, s, Everything());
    NextMaxCount(a.entryCntMax, past, t[i := s]);
    AddsAfter(a, total, t, i, s, Everything(), past);
    AddsAfter(b, inSram, t, i, s, sram, past);
    AddsAfter(c, inPsram, t, i, s, psram, past);
  }

  lemma BooksStay(t: seq<Slot>, past: seq<seq<Slot>>, sram: Region, psram: Region, a: Info, b: Info, c: Info)
    requires Books(a, b, c, t, past, sram, psram)
    ensures Books(a, b, c, t, past + [t], sram, psram)
  {
    var last := past[|past| - 1];
    assert Sum(last, Everything()) <= a.sumMax && Sum(last, sram) <= b.sumMax && Sum(last, psram) <= c.sumMax;
    assert Count(last, Everything()) <= a.entryCntMax;
    NextMaxSum(a.sumMax, past, t, Everything());
    NextMaxSum(b.sumMax, past, t, sram);
    NextMaxSum(c.sumMax, past, t, psram);
    NextMaxCount(a.entryCntMax, past, t);
  }

  function Entered(info: Info, size: nat): Info {
    var cnt, sum := info.entryCnt + 1, info.sum + size;
    Info(cnt, Max(info.entryCntMax, cnt), sum, Max(info.sumMax, sum))
  }

  function Left(info: Info, size: nat): Info { info.(entryCnt := info.entryCnt - 1, sum := info.sum - size) }

  function Resized(info: Info, oldSize: nat, newSize: nat): Info {
    var sum := info.sum - oldSize + newSize;
    info.(sum := sum, sumMax := Max(info.sumMax, sum))
  }

  /** The books of a region after a block has moved, perhaps across its border. */
  function ResizedIn(info: Info, m: map<nat, nat>, from: nat, to: nat, newSize: nat, region: Region): Info
    requires from in m
  {
    Resized(info, if region(from) then m[from] else 0, if region(to) then newSize else 0)
  }

  // ----- runs of notifications -----

  /** A NULL pointer is zero; an allocation that has failed returns it. */
  datatype Event = Malloc(ptr: nat, size: nat) | Free(ptr: nat) | Realloc(from: nat, to: nat, size: nat)

  /** The blocks that are really allocated after an event. */
  function LiveAfter(l: map<nat, nat>, e: Event): map<nat, nat> {
    match e
    case Malloc(p, size) => if p == 0 then l else l[p := size]
    case Free(p) => l - {p}
    case Realloc(from, to, size) =>
      if size == 0 then l - {from}
      else if to == 0 then l
      else (l - {from})[to := size]
  }

  /** What a heap can do: it frees what is allocated and hands out what is not. */
  predicate Legal(l: map<nat, nat>, e: Event) {
    match e
    case Malloc(p, _) => p !in l
    case Free(p) => p == 0 || p in l
    case Realloc(from, to, size) => (from == 0 || from in l) && (to == from || to !in l)
  }

  function Insert(m: map<nat, nat>, p: nat, size: nat): map<nat, nat> { if |m| >= MAX_CNT then m else m[p := size] }

  /** The blocks on record after an event. */
  function RecordedAfter(m: map<nat, nat>, e: Event): map<nat, nat> {
    match e
    case Malloc(p, size) => if p == 0 then m else Insert(m, p, size)
    case Free(p) => m - {p}
    case Realloc(from, to, size) =>
      if size == 0 then m - {from}
      else if to == 0 then m
      else if from == 0 then Insert(m, to, size)
      else if from in m then (m - {from})[to := size]
      else m
  }

  lemma ReallocCases(m: map<nat, nat>, from: nat, to: nat, size: nat)
    requires 0 !in m && |m| <= MAX_CNT
    ensures var r := RecordedAfter(m, Realloc(from, to, size));
            if size == 0 then r == if from == 0 then m else m - {from}
            else if to == 0 then r == m
            else if from == 0 then r == if |m| == MAX_CNT then m else m[to := size]
            else r == if from in m then (m - {from})[to := size] else m
  {
    NoneLess(m);
  }

  function Live(l: map<nat, nat>, es: seq<Event>): map<nat, nat>
    decreases |es|
  {
    if es == [] then l else Live(LiveAfter(l, es[0]), es[1..])
  }

  function Recorded(m: map<nat, nat>, es: seq<Event>): map<nat, nat>
    decreases |es|
  {
    if es == [] then m else Recorded(RecordedAfter(m, es[0]), es[1..])
  }

  predicate LegalRun(l: map<nat, nat>, es: seq<Event>)
    decreases |es|
  {
    es == [] || (Legal(l, es[0]) && LegalRun(LiveAfter(l, es[0]), es[1..]))
  }

  predicate NeverMoreThan(l: map<nat, nat>, es: seq<Event>, n: nat)
    decreases |es|
  {
    |l| <= n && (es == [] || NeverMoreThan(LiveAfter(l, es[0]), es[1..], n))
  }

  ghost predicate PartOf(m: map<nat, nat>, l: map<nat, nat>) {
    0 !in l && forall p :: p in m ==> p in l && l[p] == m[p]
  }

  lemma StillPartOf(m: map<nat, nat>, l: map<nat, nat>, e: Event)
    requires PartOf(m, l) && Legal(l, e)
    ensures PartOf(RecordedAfter(m, e), LiveAfter(l, e))
  {
    forall p | p in RecordedAfter(m, e)
      ensures p in LiveAfter(l, e) && LiveAfter(l, e)[p] == RecordedAfter(m, e)[p]
    {}
  }

  /** Which blocks are on record: a new one if there is room for it, a moved one if it was on record before, and any
      other that is still allocated if and only if it was. */
  lemma RecordedBlocks(m: map<nat, nat>, l: map<nat, nat>, e: Event, p: nat)
    requires PartOf(m, l) && Legal(l, e) && p in LiveAfter(l, e)
    ensures p in RecordedAfter(m, e) <==>
      if e.Malloc? && p == e.ptr && p != 0 then |m| < 1024
      else if e.Realloc? && e.size != 0 && p == e.to && p != 0 then
        if e.from == 0 then |m| < 1024 || p in m else e.from in m
      else p in m
  {}

  /** Whatever happened before, the table lists no block that is not allocated, and none with a wrong size. */
  lemma {:induction false} TableIsPartOfHeap(m: map<nat, nat>, l: map<nat, nat>, es: seq<Event>)
    requires PartOf(m, l) && LegalRun(l, es)
    ensures PartOf(Recorded(m, es), Live(l, es))
    decreases |es|
  {
    if es != [] {
      StillPartOf(m, l, es[0]);
      TableIsPartOfHeap(RecordedAfter(m, es[0]), LiveAfter(l, es[0]), es[1..]);
    }
  }

  /** As long as there are never more blocks than slots, the table is exactly the heap. */
  lemma {:induction false} TableIsHeap(l: map<nat, nat>, es: seq<Event>)
    requires 0 !in l && LegalRun(l, es) && NeverMoreThan(l, es, MAX_CNT)
    ensures Recorded(l, es) == Live(l, es)
    decreases |es|
  {
    if es != [] {
      SameStep(l, es[0]);
      TableIsHeap(LiveAfter(l, es[0]), es[1..]);
    }
  }

  lemma OneMore(l: map<nat, nat>, p: nat, size: nat)
    requires p !in l
    ensures |l[p := size]| == |l| + 1
  {
    assert l[p := size].Keys == l.Keys + {p};
  }

  lemma NoneLess(l: map<nat, nat>)
    requires 0 !in l
    ensures l - {0} == l
  {}

  lemma SameRealloc(l: map<nat, nat>, from: nat, to: nat, size: nat)
    requires var e := Realloc(from, to, size); 0 !in l && Legal(l, e) && |LiveAfter(l, e)| <= MAX_CNT
    ensures var e := Realloc(from, to, size); RecordedAfter(l, e) == LiveAfter(l, e) && 0 !in LiveAfter(l, e)
  {
    NoneLess(l);
    if from == 0 && to != 0 && size != 0 {
      OneMore(l, to, size);
    }
  }

  lemma SameStep(l: map<nat, nat>, e: Event)
    requires 0 !in l && Legal(l, e) && |LiveAfter(l, e)| <= MAX_CNT
    ensures RecordedAfter(l, e) == LiveAfter(l, e) && 0 !in LiveAfter(l, e)
  {
    match e
    case Malloc(p, size) => OneMore(l, p, size);
    case Free(_) =>
    case Realloc(from, to, size) =>
      hide LiveAfter, RecordedAfter, Legal;
      SameRealloc(l, from, to, size);
  }

  // ----- entry counts of regions -----

  /** How far the entry count of a region is above the number of its slots. */
  ghost function Surplus(info: Info, t: seq<Slot>, region: Region): int { info.entryCnt - Count(t, region) }

  function One(b: bool): int { if b then 1 else 0 }

  lemma SurplusAfter(a: Info, b: Info, t: seq<Slot>, i: nat, s: Slot, region: Region)
    requires i < |t|
    ensures Surplus(b, t[i := s], region)
         == Surplus(a, t, region) + b.entryCnt - a.entryCnt + One(Counts(t[i], region)) - One(Counts(s, region))
  {
    ExchangeSlot(t, i, s, region);
  }

  /** A single move keeps a region's entry count right exactly if the block does not cross the region's border. */
  lemma RegionCountDrifts(info: Info, t: seq<Slot>, i: nat, s: Slot, region: Region)
    requires i < |t| && t[i].ptr != 0 && s.ptr != 0 && info.entryCnt == Count(t, region)
    ensures info.entryCnt == Count(t[i := s], region) <==> (region(t[i].ptr) <==> region(s.ptr))
  {
    ExchangeSlot(t, i, s, region);
  }

  /** The blocks that a run moves out of a region by reallocating them. */
  function MovesOut(m: map<nat, nat>, es: seq<Event>, region: Region): nat
    decreases |es|
  {
    if es == [] then 0
    else
      (if Crosses(m, es[0], region) && region(es[0].from) then 1 else 0)
      + MovesOut(RecordedAfter(m, es[0]), es[1..], region)
  }

  /** The blocks that a run moves into a region. */
  function MovesIn(m: map<nat, nat>, es: seq<Event>, region: Region): nat
    decreases |es|
  {
    if es == [] then 0
    else
      (if Crosses(m, es[0], region) && region(es[0].to) then 1 else 0)
      + MovesIn(RecordedAfter(m, es[0]), es[1..], region)
  }

  /** One table for each event, standing for the blocks on record after it. */
  ghost predicate Follows(tables: seq<seq<Slot>>, m: map<nat, nat>, es: seq<Event>)
    decreases |es|
  {
    && |tables| == |es|
    && (es != [] ==>
          Represents(tables[0], RecordedAfter(m, es[0])) && Follows(tables[1..], RecordedAfter(m, es[0]), es[1..]))
  }

  lemma {:induction false} FollowsAt(tables: seq<seq<Slot>>, m: map<nat, nat>, es: seq<Event>, k: nat)
    requires Follows(tables, m, es) && k < |es|
    ensures Represents(tables[k], Recorded(m, es[..k + 1]))
    decreases |es|
  {
    var n, prefix := RecordedAfter(m, es[0]), es[..k + 1];
    assert prefix[0] == es[0] && prefix[1..] == es[1..][..k];
    assert Recorded(m, prefix) == Recorded(n, es[1..][..k]);
    if k == 0 {
      assert es[1..][..0] == [];
    } else {
      FollowsAt(tables[1..], n, es[1..], k - 1);
    }
  }

  lemma FollowsMore(t: seq<Slot>, tables: seq<seq<Slot>>, m: map<nat, nat>, es: seq<Event>)
    requires es != [] && Represents(t, RecordedAfter(m, es[0]))
    requires Follows(tables, RecordedAfter(m, es[0]), es[1..])
    ensures Follows([t] + tables, m, es)
  {
    assert ([t] + tables)[1..] == tables;
  }

  predicate Balanced(m: map<nat, nat>, es: seq<Event>, region: Region) {
    MovesOut(m, es, region) == MovesIn(m, es, region)
  }

  /** A block on record is moved across the border of a region. */
  predicate Crosses(m: map<nat, nat>, e: Event, region: Region) {
    e.Realloc? && e.size != 0 && e.to != 0 && e.from in m && e.from != 0 && region(e.from) != region(e.to)
  }

  /** How an event shifts the surplus of a region. */
  function Shift(m: map<nat, nat>, e: Event, region: Region): int {
    if Crosses(m, e, region) then One(region(e.from)) - One(region(e.to)) else 0
  }

  lemma Crossings(m: map<nat, nat>, es: seq<Event>, region: Region)
    ensures es == [] ==> MovesOut(m, es, region) == MovesIn(m, es, region) == 0
    ensures es != [] ==>
      var n := RecordedAfter(m, es[0]);
      MovesOut(m, es, region) - MovesIn(m, es, region)
        == Shift(m, es[0], region) + MovesOut(n, es[1..], region) - MovesIn(n, es[1..], region)
  {}

  // ----- the tracer -----

  class Tracer {
    const sram: Region
    const psram: Region
    const slots: array<Slot>
    var emptyIdx: nat
    var info: Info
    var sramInfo: Info
    var psramInfo: Info
    ghost var blocks: map<nat, nat>      // the map that the table stands for
    ghost var past: seq<seq<Slot>>       // the table after each notification

    ghost predicate Valid()
      reads this, slots
    {
      && slots.Length == MAX_CNT && Represents(slots[..], blocks)
      && emptyIdx <= MAX_CNT && (forall i :: 0 <= i < emptyIdx ==> slots[i].ptr != 0)
      && Books(info, sramInfo, psramInfo, slots[..], past, sram, psram)
    }

    ghost function SramSurplus(): int
      reads this`sramInfo, slots
    {
      Surplus(sramInfo, slots[..], sram)
    }

    ghost function PsramSurplus(): int
      reads this`psramInfo, slots
    {
      Surplus(psramInfo, slots[..], psram)
    }

    constructor (sram: Region, psram: Region)
      ensures Valid() && blocks == map[] && this.sram == sram && this.psram == psram && fresh(slots)
      ensures SramSurplus() == 0 && PsramSurplus() == 0
    {
      this.sram, this.psram := sram, psram;
      slots := new Slot[MAX_CNT](_ => FREE_SLOT);
      emptyIdx := 0;
      info, sramInfo, psramInfo := Info(0, 0, 0, 0), Info(0, 0, 0, 0), Info(0, 0, 0, 0);
      blocks, past := map[], [seq(MAX_CNT, _ => FREE_SLOT)];
      new;
      assert slots[..] == past[0];
      NothingCounted(slots[..], Everything());
      NothingCounted(slots[..], sram);
      NothingCounted(slots[..], psram);
    }

    /** The first free slot, searched from the hint on; there is none only if the table is full. */
    method FreeSlot() returns (i: nat)
      requires Valid()
      ensures i <= MAX_CNT && (i == MAX_CNT <==> |blocks| == MAX_CNT)
      ensures i < MAX_CNT ==> slots[i].ptr == 0
      ensures forall k :: 0 <= k < i ==> slots[k].ptr != 0
    {
      i := emptyIdx;
      while i < MAX_CNT && slots[i].ptr != 0
        invariant emptyIdx <= i <= MAX_CNT && forall k :: 0 <= k < i ==> slots[k].ptr != 0
      {
        i := i + 1;
      }
      CountIsSize(slots[..], blocks);
      if i == MAX_CNT {
        NoFreeSlot(slots[..]);
      } else {
        SomeFreeSlot(slots[..], i);
      }
    }

    /** The slot of a pointer, if it has one. */
    method SlotOf(ptr: nat) returns (i: nat)
      requires Valid() && ptr != 0
      ensures i <= MAX_CNT && (i < MAX_CNT <==> ptr in blocks)
      ensures i < MAX_CNT ==> slots[i] == Slot(ptr, blocks[ptr])
    {
      i := 0;
      while i < MAX_CNT && slots[i].ptr != ptr
        invariant i <= MAX_CNT && forall k :: 0 <= k < i ==> slots[k].ptr != ptr
      {
        i := i + 1;
      }
      assert i < MAX_CNT ==> slots[..][i] == slots[i];
    }

    /** Sets one slot together with the books and the hint. */
    method SetSlot(i: nat, s: Slot, total: Info, inSram: Info, inPsram: Info, hint: nat)
      requires Valid() && i < MAX_CNT && (s.ptr == 0 || s.ptr == slots[i].ptr || s.ptr !in blocks)
      requires Booked(info, total, slots[i], s, Everything()) && Booked(sramInfo, inSram, slots[i], s, sram)
      requires Booked(psramInfo, inPsram, slots[i], s, psram)
      requires Numbered(info, total, slots[i], s)
      requires hint <= MAX_CNT && forall k :: 0 <= k < hint ==> if k == i then s.ptr != 0 else slots[k].ptr != 0
      modifies this, slots
      ensures Valid() && slots[..] == old(slots[..])[i := s] && emptyIdx == hint
      ensures info == total && sramInfo == inSram && psramInfo == inPsram
      ensures past == old(past) + [slots[..]]
      ensures SramSurplus()
           == old(SramSurplus()) + inSram.entryCnt - old(sramInfo.entryCnt)
              + old(One(Counts(slots[i], sram))) - One(Counts(s, sram))
      ensures PsramSurplus()
           == old(PsramSurplus()) + inPsram.entryCnt - old(psramInfo.entryCnt)
              + old(One(Counts(slots[i], psram))) - One(Counts(s, psram))
      ensures blocks == Moved(old(blocks), old(slots[i].ptr), s.ptr, s.size)
    {
      ghost var t := slots[..];
      SlotIsSet(t, blocks, i, s);
      BooksAreKept(t, i, s, past, sram, psram, info, sramInfo, psramInfo, total, inSram, inPsram);
      SurplusAfter(sramInfo, inSram, t, i, s, sram);
      SurplusAfter(psramInfo, inPsram, t, i, s, psram);
      hide Represents, Booked, Numbered, Books, Surplus;
      blocks := Moved(blocks, slots[i].ptr, s.ptr, s.size);
      slots[i] := s;
      assert slots[..] == t[i := s];
      past := past + [slots[..]];
      info, sramInfo, psramInfo, emptyIdx := total, inSram, inPsram, hint;
    }

    /** A notification that changes nothing. */
    ghost method Note()
      requires Valid()
      modifies this`past
      ensures Valid() && past == old(past) + [slots[..]]
    {
      BooksStay(slots[..], past, sram, psram, info, sramInfo, psramInfo);
      past := past + [slots[..]];
    }

    /** heap_trace_add_entry; the table is reported full only if it is. */
    method AddEntry(ptr: nat, size: nat) returns (full: bool)
      requires Valid() && ptr != 0 && ptr !in blocks
      modifies this, slots
      ensures Valid()
      ensures past == old(past) + [slots[..]]
      ensures full <==> |old(blocks)| == MAX_CNT
      ensures full ==> blocks == old(blocks) && slots[..] == old(slots[..])
      ensures !full ==> blocks == old(blocks)[ptr := size]
      ensures info == if full then old(info) else Entered(old(info), size)
      ensures sramInfo == if !full && sram(ptr) then Entered(old(sramInfo), size) else old(sramInfo)
      ensures psramInfo == if !full && psram(ptr) then Entered(old(psramInfo), size) else old(psramInfo)
      ensures SramSurplus() == old(SramSurplus())
      ensures PsramSurplus() == old(PsramSurplus())
    {
      var i := FreeSlot();
      full := i == MAX_CNT;
      if full {
        Note();
      } else {
        EnterAt(i, ptr, size);
      }
    }

    method EnterAt(i: nat, ptr: nat, size: nat)
      requires Valid() && ptr != 0 && ptr !in blocks && i < MAX_CNT && slots[i].ptr == 0
      requires forall k :: 0 <= k < i ==> slots[k].ptr != 0
      modifies this, slots
      ensures Valid() && past == old(past) + [slots[..]] && blocks == old(blocks)[ptr := size]
      ensures info == Entered(old(info), size)
      ensures sramInfo == if sram(ptr) then Entered(old(sramInfo), size) else old(sramInfo)
      ensures psramInfo == if psram(ptr) then Entered(old(psramInfo), size) else old(psramInfo)
      ensures SramSurplus() == old(SramSurplus()) && PsramSurplus() == old(PsramSurplus())
    {
      assert Moved(blocks, 0, ptr, size) == blocks[ptr := size];
      SetSlot(i, Slot(ptr, size), Entered(info, size), if sram(ptr) then Entered(sramInfo, size) else sramInfo,
              if psram(ptr) then Entered(psramInfo, size) else psramInfo, i + 1);
    }

    /** heap_trace_delete_entry; a pointer that is not on record is reported. */
    method DeleteEntry(ptr: nat) returns (missed: bool)
      requires Valid() && ptr != 0
      modifies this, slots
      ensures Valid() && blocks == old(blocks) - {ptr}
      ensures past == old(past) + [slots[..]]
      ensures missed <==> ptr !in old(blocks)
      ensures info == if missed then old(info) else Left(old(info), old(blocks)[ptr])
      ensures sramInfo == if !missed && sram(ptr) then Left(old(sramInfo), old(blocks)[ptr]) else old(sramInfo)
      ensures psramInfo == if !missed && psram(ptr) then Left(old(psramInfo), old(blocks)[ptr]) else old(psramInfo)
      ensures SramSurplus() == old(SramSurplus())
      ensures PsramSurplus() == old(PsramSurplus())
    {
      var i := SlotOf(ptr);
      missed := i == MAX_CNT;
      if missed {
        assert blocks - {ptr} == blocks;
        Note();
      } else {
        var size := slots[i].size;
        SetSlot(i, FREE_SLOT, Left(info, size), if sram(ptr) then Left(sramInfo, size) else sramInfo,
                if psram(ptr) then Left(psramInfo, size) else psramInfo, if i < emptyIdx then i else emptyIdx);
      }
    }

    /** heap_trace_update_entry; the sums of the regions follow the block, their entry counts do not. */
    method UpdateEntry(from: nat, to: nat, newSize: nat) returns (missed: bool)
      requires Valid() && from != 0 && to != 0 && newSize != 0 && (to == from || to !in blocks)
      modifies this, slots
      ensures Valid()
      ensures missed <==> from !in old(blocks)
      ensures blocks == if missed then old(blocks) else (old(blocks) - {from})[to := newSize]
      ensures past == old(past) + [slots[..]]
      ensures info == if missed then old(info) else Resized(old(info), old(blocks)[from], newSize)
      ensures sramInfo ==
        if missed then old(sramInfo) else ResizedIn(old(sramInfo), old(blocks), from, to, newSize, sram)
      ensures psramInfo
           == if missed then old(psramInfo) else ResizedIn(old(psramInfo), old(blocks), from, to, newSize, psram)
      ensures SramSurplus()
           == old(SramSurplus()) + Shift(old(blocks), Realloc(from, to, newSize), sram)
      ensures PsramSurplus()
           == old(PsramSurplus()) + Shift(old(blocks), Realloc(from, to, newSize), psram)
    {
      var i := SlotOf(from);
      missed := i == MAX_CNT;
      if !missed {
        var oldSize := slots[i].size;
        SetSlot(i, Slot(to, newSize), Resized(info, oldSize, newSize),
                Resized(sramInfo, if sram(from) then oldSize else 0, if sram(to) then newSize else 0),
                Resized(psramInfo, if psram(from) then oldSize else 0, if psram(to) then newSize else 0), emptyIdx);
      } else {
        Note();
      }
    }

    method TraceMalloc(ptr: nat, size: nat) returns (full: bool)
      requires Valid() && ptr !in blocks
      modifies this, slots
      ensures Valid() && blocks == RecordedAfter(old(blocks), Malloc(ptr, size))
      ensures past == old(past) + [slots[..]]
      ensures SramSurplus() == old(SramSurplus()) + Shift(old(blocks), Malloc(ptr, size), sram)
      ensures PsramSurplus() == old(PsramSurplus()) + Shift(old(blocks), Malloc(ptr, size), psram)
      ensures full <==> ptr != 0 && |old(blocks)| >= MAX_CNT
    {
      full := false;
      AtMostTheTable();
      if ptr != 0 {
        full := AddEntry(ptr, size);
      } else {
        Note();
      }
    }

    method TraceFree(ptr: nat) returns (missed: bool)
      requires Valid()
      modifies this, slots
      ensures Valid() && blocks == RecordedAfter(old(blocks), Free(ptr))
      ensures past == old(past) + [slots[..]]
      ensures SramSurplus() == old(SramSurplus()) + Shift(old(blocks), Free(ptr), sram)
      ensures PsramSurplus() == old(PsramSurplus()) + Shift(old(blocks), Free(ptr), psram)
      ensures missed <==> ptr != 0 && ptr !in old(blocks)
    {
      missed := false;
      if ptr == 0 {
        assert blocks - {0} == blocks;
        Note();
        return;
      }
      missed := DeleteEntry(ptr);
    }

    method TraceRealloc(from: nat, to: nat, newSize: nat)
      requires Valid() && (to == from || to !in blocks)
      modifies this, slots
      ensures Valid() && blocks == RecordedAfter(old(blocks), Realloc(from, to, newSize))
      ensures past == old(past) + [slots[..]]
      ensures SramSurplus() == old(SramSurplus()) + Shift(old(blocks), Realloc(from, to, newSize), sram)
      ensures PsramSurplus() == old(PsramSurplus()) + Shift(old(blocks), Realloc(from, to, newSize), psram)
    {
      AtMostTheTable();
      ReallocCases(blocks, from, to, newSize);
      hide Valid, RecordedAfter;
      if newSize == 0 {
        if from != 0 {
          var _ := DeleteEntry(from);
        } else {
          Note();
        }
      } else if from == 0 {
        if to != 0 {
          var _ := AddEntry(to, newSize);
        } else {
          Note();
        }
      } else if to != 0 {
        var _ := UpdateEntry(from, to, newSize);
      } else {
        Note();
      }
    }

    lemma AtMostTheTable()
      requires Valid()
      ensures |blocks| <= MAX_CNT && 0 !in blocks
    {
      CountIsSize(slots[..], blocks);
      AtMostAll(slots[..], Everything());
    }

    /** A whole run of notifications of a heap that behaves: the map and the history it leaves, the maxima over that
        history, and when the entry counts of the regions are right. */
    method TraceRun(es: seq<Event>, ghost l: map<nat, nat>) returns (ghost tables: seq<seq<Slot>>)
      requires Valid() && PartOf(blocks, l) && LegalRun(l, es)
      modifies this, slots
      ensures Valid() && blocks == Recorded(old(blocks), es) && PartOf(blocks, Live(l, es))
      ensures past == old(past) + tables && Follows(tables, old(blocks), es)
      ensures Maxima(info, sramInfo, psramInfo, old(past) + tables, sram, psram)
      ensures old(SramSurplus()) == 0 ==>
        (sramInfo.entryCnt == Count(slots[..], sram) <==> Balanced(old(blocks), es, sram))
      ensures old(PsramSurplus()) == 0 ==>
        (psramInfo.entryCnt == Count(slots[..], psram) <==> Balanced(old(blocks), es, psram))
    {
      tables := TraceSteps(es, l);
      hide Follows, PartOf, Recorded, Live, MovesIn, MovesOut;
    }

    method TraceSteps(es: seq<Event>, ghost l: map<nat, nat>) returns (ghost tables: seq<seq<Slot>>)
      requires Valid() && PartOf(blocks, l) && LegalRun(l, es)
      modifies this, slots
      ensures Valid() && blocks == Recorded(old(blocks), es) && PartOf(blocks, Live(l, es))
      ensures past == old(past) + tables && Follows(tables, old(blocks), es)
      ensures SramSurplus()
           == old(SramSurplus()) + MovesOut(old(blocks), es, sram) - MovesIn(old(blocks), es, sram)
      ensures PsramSurplus()
           == old(PsramSurplus()) + MovesOut(old(blocks), es, psram) - MovesIn(old(blocks), es, psram)
      decreases |es|
    {
      Crossings(blocks, es, sram);
      Crossings(blocks, es, psram);
      tables := [];
      if es == [] {
        assert past + tables == past;
        return;
      }
      ghost var m, before := blocks, past;
      TraceOne(es[0], l);
      ghost var t := slots[..];
      assert Represents(t, blocks);
      hide Follows, Represents, PartOf, RecordedAfter, LiveAfter, Shift, Crosses, MovesIn, MovesOut;
      tables := TraceSteps(es[1..], LiveAfter(l, es[0]));
      FollowsMore(t, tables, m, es);
      assert before + [t] + tables == before + ([t] + tables);
      tables := [t] + tables;
    }

    /** One notification. */
    method TraceOne(e: Event, ghost l: map<nat, nat>)
      requires Valid() && PartOf(blocks, l) && Legal(l, e)
      modifies this, slots
      ensures Valid() && blocks == RecordedAfter(old(blocks), e) && PartOf(blocks, LiveAfter(l, e))
      ensures past == old(past) + [slots[..]]
      ensures SramSurplus() == old(SramSurplus()) + Shift(old(blocks), e, sram)
      ensures PsramSurplus() == old(PsramSurplus()) + Shift(old(blocks), e, psram)
    {
      StillPartOf(blocks, l, e);
      match e {
        case Malloc(p, size) => var _ := TraceMalloc(p, size);
        case Free(p) => var _ := TraceFree(p);
        case Realloc(from, to, size) => TraceRealloc(from, to, size);
      }
    }
  }

  lemma MoveOut(region: Region)
    requires region(1) && !region(2)
    ensures RecordedAfter(map[], Malloc(1, 4)) == map[1 := 4] && Shift(map[], Malloc(1, 4), region) == 0
    ensures RecordedAfter(map[1 := 4], Realloc(1, 2, 4)) == map[2 := 4]
    ensures Shift(map[1 := 4], Realloc(1, 2, 4), region) == 1
  {
    assert map[1 := 4] - {1} == map[];
  }

  /** A block that moves out of the SRAM stays in the entry count of the SRAM, which is then too high. */
  method CountDrifts() returns (t: Tracer)
    ensures t.Valid() && t.blocks == map[2 := 4] && t.sramInfo.entryCnt == Count(t.slots[..], t.sram) + 1
  {
    var sram: Region := p => p == 1;
    MoveOut(sram);
    hide Shift, RecordedAfter, Represents, Books, Count;
    t := new Tracer(sram, p => p == 2);
    var _ := t.TraceMalloc(1, 4);
    t.TraceRealloc(1, 2, 4);
  }
}
