/**
 The in-place, non-recursive merge sort of CoreMark's linked list, with the two
 comparators that write to the items they compare.
 */
module MergeSort {

  class ListData {
    var data16: bv16
    var idx: int
    constructor (data16: bv16, idx: int)
      ensures this.data16 == data16 && this.idx == idx
    {
      this.data16, this.idx := data16, idx;
    }
  }

  class ListHead {
    var next: ListHead?
    var info: ListData
    constructor (info: ListData)
      ensures this.info == info && next == null
    {
      this.info, next := info, null;
    }
  }

  type Nodes = seq<ListHead>

  // ----- comparators -----

  /** What a comparator may look at. */
  type Item = (bv16, int)

  ghost predicate IsTotalPreorder(f: (Item, Item) -> int) {
    && (forall a, b :: f(a, b) <= 0 || f(b, a) <= 0)
    && (forall a, b, c :: f(a, b) <= 0 && f(b, c) <= 0 ==> f(a, c) <= 0)
  }

  type Preorder = f: (Item, Item) -> int | IsTotalPreorder(f) witness (_, _) => 0

  /** cmp_complex, cmp_idx with or without a NULL result record, or any total preorder. */
  datatype Cmp = ByData | ByIdx(regenerate: bool) | ByOrder(f: Preorder)

  /** The byte from which an item's data can be rebuilt. */
  function High(data: bv16): bv16 { data >> 8 }

  /** An item that a comparison leaves as it is. */
  ghost predicate Settled(cmp: Cmp, d: ListData)
    reads d`data16
  {
    match cmp
    case ByData => IsCached(d.data16)
    case ByIdx(regenerate) => regenerate ==> d.data16 & 0xff == High(d.data16)
    case ByOrder(_) => true
  }

  lemma NothingToSettle(d: ListData)
    ensures Settled(ByIdx(false), d)
  {}

  lemma AllSettled(f: Preorder, d: ListData)
    ensures Settled(ByOrder(f), d)
  {}

  /** What a settled item is compared by. */
  ghost function Key(cmp: Cmp, d: ListData): Item
    reads d
  {
    match cmp
    case ByData => (CachedValue(d.data16), 0)
    case _ => (d.data16, d.idx)
  }

  /** The order that a comparator stands for. */
  ghost predicate AtMost(cmp: Cmp, a: Item, b: Item) {
    match cmp
    case ByData => a.0 as int <= b.0 as int
    case ByIdx(_) => a.1 <= b.1
    case ByOrder(f) => f(a, b) <= 0
  }

  lemma AtMostIsPreorder(cmp: Cmp, a: Item, b: Item, c: Item)
    ensures AtMost(cmp, a, b) || AtMost(cmp, b, a)
    ensures AtMost(cmp, a, b) && AtMost(cmp, b, c) ==> AtMost(cmp, a, c)
  {}

  /** The data with a seven-bit result cached in its low byte. */
  function Cache(data: bv16, val: bv16): bv16 { (data & 0xff00) | 0x80 | val }

  predicate IsCached(data: bv16) { (data >> 7) & 1 != 0 }

  function CachedValue(data: bv16): bv16 { data & 0x7f }

  lemma CacheBits(data: bv16, retval: bv16)
    ensures var val := CachedValue(retval);
            IsCached(Cache(data, val)) && CachedValue(Cache(data, val)) == val && High(Cache(data, val)) == High(data)
  {}

  /** What an item holds once it has its value: bit 7 set, the value in the seven bits below, the high byte as it was.
      A value is computed only if bit 7 was clear, and is the data itself unless a kernel is to compute it. */
  ghost predicate Cached(before: bv16, after: bv16, val: bv16) {
    && after & 0x80 != 0 && after & 0x7f == val && after & 0xff00 == before & 0xff00
    && (before & 0x80 != 0 || before & 7 > 1 ==> val == before & 0x7f)
    && (before & 0x80 != 0 ==> after == before)
  }

  lemma CachedAlready(data: bv16)
    ensures IsCached(data) ==> Cached(data, data, CachedValue(data))
    ensures IsCached(data) <==> data & 0x80 != 0
  {}

  lemma CachedNow(data: bv16, retval: bv16)
    requires !IsCached(data) && (data & 7 > 1 ==> retval == data)
    ensures Cached(data, Cache(data, CachedValue(retval)), CachedValue(retval))
  {}

  lemma RegeneratedBits(data: bv16)
    ensures var rebuilt := (data & 0xff00) | (0xff & (data >> 8));
            rebuilt & 0xff == High(rebuilt) && High(rebuilt) == High(data)
  {}

  lemma RegeneratedIsSame(data: bv16)
    requires data & 0xff == High(data)
    ensures (data & 0xff00) | (0xff & (data >> 8)) == data
  {}

  /**
   The seven-bit value of an item, cached in its low byte. The benchmark kernel
   behind the operation types 0 and 1 may give any value.
   */
  method CalcFunc(d: ListData) returns (val: bv16)
    modifies d`data16
    ensures Settled(ByData, d) && val == Key(ByData, d).0
    ensures High(d.data16) == High(old(d.data16))
    ensures old(Settled(ByData, d)) ==> d.data16 == old(d.data16)
    ensures Cached(old(d.data16), d.data16, val)
  {
    var data := d.data16;
    IsSettled(d);
    hide Settled, Key;
    if IsCached(data) {
      KeyIs(d);
      CachedAlready(data);
      return CachedValue(data);
    }
    var retval: bv16;
    if data & 7 == 0 || data & 7 == 1 {
      retval := *;
    } else {
      retval := data;
    }
    CacheBits(data, retval);
    CachedNow(data, retval);
    hide High, Cache, CachedValue, IsCached, Cached;
    val := CachedValue(retval);
    d.data16 := Cache(data, val);
    IsSettled(d);
    KeyIs(d);
  }

  /** What the comparators of the source look at, bit by bit. */
  lemma ComparedBits(a: ListData, b: ListData)
    ensures Settled(ByData, a) <==> a.data16 & 0x80 != 0
    ensures Settled(ByIdx(true), a) <==> a.data16 & 0xff == a.data16 >> 8
    ensures AtMost(ByData, Key(ByData, a), Key(ByData, b)) <==> (a.data16 & 0x7f) as int <= (b.data16 & 0x7f) as int
    ensures forall r :: AtMost(ByIdx(r), Key(ByIdx(r), a), Key(ByIdx(r), b)) <==> a.idx <= b.idx
  {
    CachedAlready(a.data16);
  }

  lemma IsSettled(d: ListData)
    ensures Settled(ByData, d) <==> IsCached(d.data16)
  {}

  lemma KeyIs(d: ListData)
    ensures CachedValue(d.data16) == Key(ByData, d).0
  {}

  method Compare(cmp: Cmp, a: ListData, b: ListData) returns (order: int)
    modifies a`data16, b`data16
    ensures Settled(cmp, a) && Settled(cmp, b)
    ensures order <= 0 <==> AtMost(cmp, Key(cmp, a), Key(cmp, b))
    ensures forall d :: d in {a, b} ==> High(d.data16) == High(old(d.data16))
    ensures forall d :: d in {a, b} && old(Settled(cmp, d)) ==> d.data16 == old(d.data16)
  {
    hide Settled, High;
    match cmp
    case ByData => order := CompareData(a, b);
    case ByIdx(regenerate) =>
      if regenerate {
        Regenerate(a);
        Regenerate(b);
      } else {
        NothingToSettle(a);
        NothingToSettle(b);
      }
      order := a.idx - b.idx;
    case ByOrder(f) =>
      AllSettled(f, a);
      AllSettled(f, b);
      order := f((a.data16, a.idx), (b.data16, b.idx));
  }

  method CompareData(a: ListData, b: ListData) returns (order: int)
    modifies a`data16, b`data16
    ensures Settled(ByData, a) && Settled(ByData, b)
    ensures order <= 0 <==> AtMost(ByData, Key(ByData, a), Key(ByData, b))
    ensures forall d :: d in {a, b} ==> High(d.data16) == High(old(d.data16))
    ensures forall d :: d in {a, b} && old(Settled(ByData, d)) ==> d.data16 == old(d.data16)
  {
    hide Settled, Key, High;
    var val1 := CalcFunc(a);
    var val2 := CalcFunc(b);
    order := val1 as int - val2 as int;
  }

  /** Rebuilds the low byte of an item from its high byte. */
  method Regenerate(d: ListData)
    modifies d`data16
    ensures Settled(ByIdx(true), d) && High(d.data16) == High(old(d.data16))
    ensures old(Settled(ByIdx(true), d)) ==> d.data16 == old(d.data16)
  {
    RegeneratedBits(d.data16);
    if d.data16 & 0xff == High(d.data16) { RegeneratedIsSame(d.data16); }
    d.data16 := (d.data16 & 0xff00) | (0xff & (d.data16 >> 8));
  }

  // ----- runs, on the values of the nodes -----

  /** The keys of the nodes compared so far. */
  type Keys = map<ListHead, Item>

  /** How nodes are ordered: by a comparator, and nodes with equal keys by their place in the list as it was given. */
  datatype Order = Order(cmp: Cmp, place: map<ListHead, nat>)

  ghost predicate Less(key: Keys, ord: Order, a: ListHead, b: ListHead) {
    && a in key && b in key && a in ord.place && b in ord.place
    && AtMost(ord.cmp, key[a], key[b])
    && (AtMost(ord.cmp, key[b], key[a]) ==> ord.place[a] < ord.place[b])
  }

  ghost predicate Ordered(key: Keys, ord: Order, s: Nodes) {
    forall i, j :: 0 <= i < j < |s| ==> Less(key, ord, s[i], s[j])
  }

  ghost predicate Across(key: Keys, ord: Order, a: Nodes, b: Nodes) {
    forall i, j :: 0 <= i < |a| && 0 <= j < |b| ==> Less(key, ord, a[i], b[j])
  }

  ghost predicate Ranked(ord: Order, s: Nodes, lo: nat, hi: nat) {
    forall i :: 0 <= i < |s| ==> s[i] in ord.place && lo <= ord.place[s[i]] < hi
  }

  /** A sorted run of the nodes with original places in [lo, hi). */
  ghost predicate Run(key: Keys, ord: Order, s: Nodes, lo: nat, hi: nat) {
    lo < hi && |s| == hi - lo && Ranked(ord, s, lo, hi) && Ordered(key, ord, s)
  }

  /** Merging ps and qs into `run`: what is out is sorted and before all that is left. */
  ghost predicate Merging(key: Keys, ord: Order, lo: nat, mid: nat, hi: nat, run: Nodes, ps: Nodes, qs: Nodes) {
    && lo < hi && lo <= mid <= hi && |run| + |ps| + |qs| == hi - lo
    && Ranked(ord, run, lo, hi) && Ranked(ord, ps, lo, mid) && Ranked(ord, qs, mid, hi)
    && Ordered(key, ord, run) && Ordered(key, ord, ps) && Ordered(key, ord, qs)
    && Across(key, ord, run, ps) && Across(key, ord, run, qs)
  }

  /** The next node may come from the first run: it is not above the head of the second. */
  lemma TakeFirst(key: Keys, ord: Order, lo: nat, mid: nat, hi: nat, run: Nodes, ps: Nodes, qs: Nodes)
    requires Merging(key, ord, lo, mid, hi, run, ps, qs) && ps != []
    requires qs != [] ==> ps[0] in key && qs[0] in key && AtMost(ord.cmp, key[ps[0]], key[qs[0]])
    ensures Merging(key, ord, lo, mid, hi, run + [ps[0]], ps[1..], qs)
  {
    forall j | 0 <= j < |qs|
      ensures Less(key, ord, ps[0], qs[j])
    {
      assert j > 0 ==> Less(key, ord, qs[0], qs[j]);
      AtMostIsPreorder(ord.cmp, key[ps[0]], key[qs[0]], key[qs[j]]);
    }
  }

  /** The next node may come from the second run: it is below the head of the first. */
  lemma TakeSecond(key: Keys, ord: Order, lo: nat, mid: nat, hi: nat, run: Nodes, ps: Nodes, qs: Nodes)
    requires Merging(key, ord, lo, mid, hi, run, ps, qs) && qs != []
    requires ps != [] ==> ps[0] in key && qs[0] in key && !AtMost(ord.cmp, key[ps[0]], key[qs[0]])
    ensures Merging(key, ord, lo, mid, hi, run + [qs[0]], ps, qs[1..])
  {
    forall j | 0 <= j < |ps|
      ensures Less(key, ord, qs[0], ps[j])
    {
      assert j > 0 ==> Less(key, ord, ps[0], ps[j]);
      AtMostIsPreorder(ord.cmp, key[qs[0]], key[ps[0]], key[ps[j]]);
      AtMostIsPreorder(ord.cmp, key[ps[0]], key[ps[j]], key[qs[0]]);
      assert AtMost(ord.cmp, key[ps[0]], key[ps[j]]);
    }
  }

  ghost predicate Extends(key: Keys, key': Keys) { forall x :: x in key ==> x in key' && key'[x] == key[x] }

  lemma OrderedExtends(key: Keys, key': Keys, ord: Order, s: Nodes)
    requires Extends(key, key') && Ordered(key, ord, s)
    ensures Ordered(key', ord, s)
  {
    forall i, j | 0 <= i < j < |s|
      ensures Less(key', ord, s[i], s[j])
    {
      assert Less(key, ord, s[i], s[j]);
    }
  }

  lemma AcrossExtends(key: Keys, key': Keys, ord: Order, a: Nodes, b: Nodes)
    requires Extends(key, key') && Across(key, ord, a, b)
    ensures Across(key', ord, a, b)
  {
    forall i, j | 0 <= i < |a| && 0 <= j < |b|
      ensures Less(key', ord, a[i], b[j])
    {
      assert Less(key, ord, a[i], b[j]);
    }
  }

  lemma MergingExtends(key: Keys, key': Keys, ord: Order, lo: nat, mid: nat, hi: nat, run: Nodes, ps: Nodes, qs: Nodes)
    requires Extends(key, key') && Merging(key, ord, lo, mid, hi, run, ps, qs)
    ensures Merging(key', ord, lo, mid, hi, run, ps, qs)
  {
    OrderedExtends(key, key', ord, run);
    OrderedExtends(key, key', ord, ps);
    OrderedExtends(key, key', ord, qs);
    AcrossExtends(key, key', ord, run, ps);
    AcrossExtends(key, key', ord, run, qs);
  }

  // ----- threads of nodes -----

  ghost predicate NoDup(s: Nodes) { forall i, j :: 0 <= i < j < |s| ==> s[i] != s[j] }

  ghost predicate Linked(s: Nodes)
    reads (set x | x in s)`next
  {
    forall i :: 0 <= i < |s| - 1 ==> s[i].next == s[i + 1]
  }

  ghost predicate Ends(s: Nodes)
    reads (set x | x in s)`next
  {
    s != [] ==> s[|s| - 1].next == null
  }

  function First(s: Nodes): ListHead? { if s == [] then null else s[0] }

  function Last(s: Nodes): ListHead? { if s == [] then null else s[|s| - 1] }

  /**
   The list is cut in three: `out` is relinked already, `ps` is what is left of the
   run at p, and `qr` is everything from q on.
   */
  ghost predicate Threads(list: ListHead?, tail: ListHead?, p: ListHead?, q: ListHead?,
                          out: Nodes, ps: Nodes, qr: Nodes)
    reads (set x | x in out)`next, (set x | x in ps)`next, (set x | x in qr)`next
  {
    && NoDup(out + ps + qr)
    && list == First(out) && tail == Last(out) && Linked(out)
    && (ps != [] ==> p == ps[0]) && Linked(ps)
    && q == First(qr) && Linked(qr) && Ends(qr)
  }

  lemma Rotate(out: Nodes, ps: Nodes, qr: Nodes)
    requires NoDup(out + ps + qr) && qr != []
    ensures NoDup(out + [qr[0]] + ps + qr[1..])
    ensures multiset(out + [qr[0]] + ps + qr[1..]) == multiset(out + ps + qr)
  {
    assert qr == [qr[0]] + qr[1..];
    var all, moved := out + ps + qr, out + [qr[0]] + ps + qr[1..];
    forall i, j | 0 <= i < j < |moved|
      ensures moved[i] != moved[j]
    {
      var a, b := |out|, |out| + |ps|;
      assert moved[i] == all[if i < a then i else if i == a then b else if i <= b then i - 1 else i];
      assert moved[j] == all[if j < a then j else if j == a then b else if j <= b then j - 1 else j];
    }
  }

  lemma TailApart(out: Nodes, ps: Nodes, qr: Nodes)
    requires NoDup(out + ps + qr) && out != []
    ensures forall i :: 0 <= i < |out| - 1 ==> out[i] != Last(out)
    ensures forall i :: 0 <= i < |ps| ==> ps[i] != Last(out)
    ensures forall i :: 0 <= i < |qr| ==> qr[i] != Last(out)
  {
    var all := out + ps + qr;
    assert Last(out) == all[|out| - 1];
    assert forall i :: 0 <= i < |out| ==> all[i] == out[i];
    assert forall i :: 0 <= i < |ps| ==> all[|out| + i] == ps[i];
    assert forall i :: 0 <= i < |qr| ==> all[|out| + |ps| + i] == qr[i];
  }

  /** Adds the next node to the merged list. */
  method Append(list: ListHead?, tail: ListHead?, e: ListHead, ghost out: Nodes, ghost ps: Nodes, ghost qr: Nodes)
    returns (list': ListHead?)
    requires NoDup(out + ps + qr) && list == First(out) && tail == Last(out) && Linked(out)
    modifies (set x | x in out)`next
    ensures list' == First(out + [e]) && Linked(out + [e])
    ensures forall i :: 0 <= i < |ps| ==> ps[i].next == old(ps[i].next)
    ensures forall i :: 0 <= i < |qr| ==> qr[i].next == old(qr[i].next)
  {
    if tail != null {
      TailApart(out, ps, qr);
      tail.next := e;
      list' := list;
    } else {
      list' := e;
    }
  }

  /** Links the head of the first run behind the tail. */
  method MoveP(list: ListHead?, tail: ListHead?, p: ListHead, ghost q: ListHead?,
               ghost out: Nodes, ghost ps: Nodes, ghost qr: Nodes)
    returns (list': ListHead?, p': ListHead?)
    requires Threads(list, tail, p, q, out, ps, qr) && ps != []
    modifies (set x | x in out)`next
    ensures Threads(list', p, p', q, out + [p], ps[1..], qr) && (|ps| > 1 ==> p' == ps[1])
  {
    assert out + [p] + ps[1..] + qr == out + ps + qr;
    p' := p.next;
    list' := Append(list, tail, p, out, ps, qr);
  }

  /** Links the head of the second run behind the tail. */
  method MoveQ(list: ListHead?, tail: ListHead?, ghost p: ListHead?, q: ListHead,
               ghost out: Nodes, ghost ps: Nodes, ghost qr: Nodes)
    returns (list': ListHead?, q': ListHead?)
    requires Threads(list, tail, p, q, out, ps, qr) && qr != []
    modifies (set x | x in out)`next
    ensures Threads(list', q, p, q', out + [q], ps, qr[1..]) && q' == First(qr[1..])
  {
    Rotate(out, ps, qr);
    q' := q.next;
    list' := Append(list, tail, q, out, ps, qr);
  }

  // ----- merging two runs -----

  ghost predicate Within(s: Nodes, nodes: set<ListHead>) { forall i :: 0 <= i < |s| ==> s[i] in nodes }

  /** The keys are those of settled items. */
  ghost predicate Tie(cmp: Cmp, key: Keys)
    reads key.Keys`info, set x | x in key :: x.info
  {
    forall x :: x in key ==> Settled(cmp, x.info) && Key(cmp, x.info) == key[x]
  }

  /** The items of the nodes keep their high byte, and keep everything once settled. */
  twostate predicate Gentle(cmp: Cmp, datas: set<ListData>)
    reads datas`data16
  {
    forall d :: d in datas ==>
      High(d.data16) == High(old(d.data16)) && (old(Settled(cmp, d)) ==> d.data16 == old(d.data16))
  }

  ghost predicate Carries(nodes: set<ListHead>, datas: set<ListData>)
    reads nodes`info
  {
    forall x :: x in nodes ==> x.info in datas
  }

  /** Compares the heads of two runs and records their keys. */
  method CompareHeads(cmp: Cmp, p: ListHead, q: ListHead, ghost nodes: set<ListHead>,
                      ghost datas: set<ListData>, ghost key: Keys)
    returns (order: int, ghost key': Keys)
    requires p in nodes && q in nodes && key.Keys <= nodes && Carries(nodes, datas) && Tie(cmp, key)
    modifies datas`data16
    ensures Extends(key, key') && key'.Keys <= nodes && Tie(cmp, key') && Gentle(cmp, datas)
    ensures p in key' && q in key' && (order <= 0 <==> AtMost(cmp, key'[p], key'[q]))
  {
    order := Compare(cmp, p.info, q.info);
    hide Settled, Key, High;
    key' := key[p := Key(cmp, p.info)][q := Key(cmp, q.info)];
  }

  /** The nodes of the merged run and of what is left of the two runs, counted together. */
  ghost function Pool(run: Nodes, ps: Nodes, qs: Nodes): multiset<ListHead> {
    multiset(run) + multiset(ps) + multiset(qs)
  }

  lemma MovesHead(before: Nodes, run: Nodes, ps: Nodes, qs: Nodes)
    requires ps != []
    ensures Pool(run + [ps[0]], ps[1..], qs) == Pool(run, ps, qs)
    ensures Pool(run + [ps[0]], qs, ps[1..]) == Pool(run, qs, ps)
    ensures before + run + [ps[0]] == before + (run + [ps[0]])
  {
    assert ps == [ps[0]] + ps[1..];
  }

  /** Takes the next node off its run and links it behind the tail. */
  method TakeNext(fromP: bool, list: ListHead?, tail: ListHead?, p: ListHead?, q: ListHead?,
                  ghost before: Nodes, ghost run: Nodes, ghost ps: Nodes, ghost qs: Nodes, ghost rest: Nodes)
    returns (list': ListHead?, e: ListHead, p': ListHead?, q': ListHead?, ghost ps': Nodes, ghost qs': Nodes)
    requires Threads(list, tail, p, q, before + run, ps, qs + rest)
    requires if fromP then ps != [] else qs != []
    modifies (set x | x in before)`next, (set x | x in run)`next
    ensures if fromP then e == ps[0] && ps' == ps[1..] && qs' == qs else e == qs[0] && ps' == ps && qs' == qs[1..]
    ensures Threads(list', e, p', q', before + (run + [e]), ps', qs' + rest)
    ensures q' == First(qs' + rest) && (ps' != [] ==> p' == ps'[0])
    ensures Pool(run + [e], ps', qs') == Pool(run, ps, qs)
  {
    hide Threads, Pool;
    ThreadsHeads(list, tail, p, q, before + run, ps, qs + rest);
    list', p', q', ps', qs' := list, p, q, ps, qs;
    if fromP {
      e := p;
      MovesHead(before, run, ps, qs);
      list', p' := MoveP(list, tail, p, q, before + run, ps, qs + rest);
      ps' := ps[1..];
    } else {
      e := q;
      MovesHead(before, run, qs, ps);
      assert (qs + rest)[1..] == qs[1..] + rest;
      list', q' := MoveQ(list, tail, p, q, before + run, ps, qs + rest);
      qs' := qs[1..];
    }
  }

  lemma ThreadsHeads(list: ListHead?, tail: ListHead?, p: ListHead?, q: ListHead?, out: Nodes, ps: Nodes, qr: Nodes)
    requires Threads(list, tail, p, q, out, ps, qr)
    ensures list == First(out) && tail == Last(out) && q == First(qr) && (ps != [] ==> p == ps[0])
  {}

  /** Decides whether the next node comes from the first run; the keys make either move sound. */
  method Choose(cmp: Cmp, p: ListHead?, psize: nat, q: ListHead?, qsize: nat,
                ghost nodes: set<ListHead>, ghost datas: set<ListData>, ghost ord: Order, ghost key: Keys,
                ghost lo: nat, ghost mid: nat, ghost hi: nat, ghost run: Nodes, ghost ps: Nodes, ghost qs: Nodes)
    returns (fromP: bool, ghost key': Keys)
    requires cmp == ord.cmp
    requires Merging(key, ord, lo, mid, hi, run, ps, qs) && psize == |ps| && (qsize > 0 && q != null <==> qs != [])
    requires ps != [] || qs != []
    requires (ps != [] ==> p == ps[0]) && (qs != [] ==> q == qs[0]) && Within(ps, nodes) && Within(qs, nodes)
    requires Carries(nodes, datas) && Tie(cmp, key) && key.Keys <= nodes
    modifies datas`data16
    ensures Extends(key, key') && key'.Keys <= nodes && Tie(cmp, key') && Gentle(cmp, datas)
    ensures fromP ==> ps != [] && Merging(key', ord, lo, mid, hi, run + [ps[0]], ps[1..], qs)
    ensures !fromP ==> qs != [] && Merging(key', ord, lo, mid, hi, run + [qs[0]], ps, qs[1..])
  {
    hide Merging, Tie, Settled, Key;
    key' := key;
    if psize == 0 {
      fromP := false;
    } else if qsize == 0 || q == null {
      fromP := true;
    } else {
      var order;
      order, key' := CompareHeads(cmp, p, q, nodes, datas, key);
      MergingExtends(key, key', ord, lo, mid, hi, run, ps, qs);
      fromP := order <= 0;
    }
    if fromP {
      TakeFirst(key', ord, lo, mid, hi, run, ps, qs);
    } else {
      TakeSecond(key', ord, lo, mid, hi, run, ps, qs);
    }
  }

  /** One turn of the inner loop: compares if both runs have nodes left, and moves one node. */
  method MergeStep(cmp: Cmp, list: ListHead?, tail: ListHead?, p: ListHead?, psize: nat, q: ListHead?, qsize: nat,
                   ghost nodes: set<ListHead>, ghost datas: set<ListData>, ghost ord: Order, ghost key: Keys,
                   ghost lo: nat, ghost mid: nat, ghost hi: nat,
                   ghost before: Nodes, ghost run: Nodes, ghost ps: Nodes, ghost qs: Nodes, ghost rest: Nodes)
    returns (list': ListHead?, e: ListHead, p': ListHead?, psize': nat, q': ListHead?, qsize': nat,
             ghost key': Keys, ghost ps': Nodes, ghost qs': Nodes)
    requires cmp == ord.cmp
    requires Threads(list, tail, p, q, before + run, ps, qs + rest) && q == First(qs + rest)
    requires psize == |ps| && |qs| <= qsize && (rest != [] ==> |qs| == qsize) && (psize > 0 || (qsize > 0 && q != null))
    requires Merging(key, ord, lo, mid, hi, run, ps, qs)
    requires Within(before, nodes) && Within(run, nodes) && Within(ps, nodes) && Within(qs, nodes)
    requires Carries(nodes, datas) && Tie(cmp, key) && key.Keys <= nodes
    modifies nodes`next, datas`data16
    ensures Threads(list', e, p', q', before + (run + [e]), ps', qs' + rest) && q' == First(qs' + rest)
    ensures psize' == |ps'| && |qs'| <= qsize' && (rest != [] ==> |qs'| == qsize')
    ensures |ps'| + |qs'| < |ps| + |qs|
    ensures Merging(key', ord, lo, mid, hi, run + [e], ps', qs')
    ensures Within(run + [e], nodes) && Within(ps', nodes) && Within(qs', nodes)
    ensures Extends(key, key') && Tie(cmp, key') && key'.Keys <= nodes && Gentle(cmp, datas)
    ensures Pool(run + [e], ps', qs') == Pool(run, ps, qs)
  {
    hide Merging, Threads, Tie, Settled, Key, Pool, Carries;
    ThreadsHeads(list, tail, p, q, before + run, ps, qs + rest);
    var fromP;
    fromP, key' := Choose(cmp, p, psize, q, qsize, nodes, datas, ord, key, lo, mid, hi, run, ps, qs);
    list', e, p', q', ps', qs' := TakeNext(fromP, list, tail, p, q, before, run, ps, qs, rest);
    psize', qsize' := if fromP then psize - 1 else psize, if fromP then qsize else qsize - 1;
  }

  /**
   The inner loop: merges the run of `psize` nodes at p with the at most `qsize`
   nodes at q behind the list built so far.
   */
  method MergeTwo(cmp: Cmp, list: ListHead?, tail: ListHead?, p: ListHead?, psize: nat, q: ListHead?, qsize: nat,
                  ghost nodes: set<ListHead>, ghost datas: set<ListData>, ghost ord: Order, ghost key: Keys,
                  ghost lo: nat, ghost mid: nat, ghost hi: nat,
                  ghost before: Nodes, ghost ps: Nodes, ghost qs: Nodes, ghost rest: Nodes)
    returns (list': ListHead?, tail': ListHead?, q': ListHead?, ghost key': Keys, ghost run: Nodes)
    requires cmp == ord.cmp
    requires Threads(list, tail, p, q, before, ps, qs + rest)
    requires psize == |ps| && |qs| <= qsize && (rest != [] ==> |qs| == qsize)
    requires Merging(key, ord, lo, mid, hi, [], ps, qs)
    requires Within(before, nodes) && Within(ps, nodes) && Within(qs, nodes)
    requires Carries(nodes, datas) && Tie(cmp, key) && key.Keys <= nodes
    modifies nodes`next, datas`data16
    ensures Threads(list', tail', q', q', before + run, [], rest)
    ensures Merging(key', ord, lo, mid, hi, run, [], []) && Within(run, nodes)
    ensures Extends(key, key') && Tie(cmp, key') && key'.Keys <= nodes && Gentle(cmp, datas)
    ensures Pool(run, [], []) == Pool([], ps, qs)
  {
    hide Merging, Threads, Tie, Settled, Key, Pool, Carries;
    ThreadsHeads(list, tail, p, q, before, ps, qs + rest);
    list', tail', q', key', run := list, tail, q, key, [];
    var p', psize', qsize' := p, psize, qsize;
    ghost var ps', qs' := ps, qs;
    assert before + [] == before;
    while psize' > 0 || (qsize' > 0 && q' != null)
      invariant psize' == |ps'| && |qs'| <= qsize' && (rest != [] ==> |qs'| == qsize')
      invariant Threads(list', tail', p', q', before + run, ps', qs' + rest) && q' == First(qs' + rest)
      invariant Merging(key', ord, lo, mid, hi, run, ps', qs')
      invariant Within(before, nodes) && Within(run, nodes) && Within(ps', nodes) && Within(qs', nodes)
      invariant Extends(key, key') && Tie(cmp, key') && key'.Keys <= nodes && Gentle(cmp, datas)
      invariant Pool(run, ps', qs') == Pool([], ps, qs)
      decreases |ps'| + |qs'|
    {
      var e;
      list', e, p', psize', q', qsize', key', ps', qs' :=
        MergeStep(cmp, list', tail', p', psize', q', qsize', nodes, datas, ord, key', lo, mid, hi,
                  before, run, ps', qs', rest);
      tail', run := e, run + [e];
    }
    assert qs' + rest == rest;
    ThreadsEnd(list', tail', p', q', before + run, rest);
  }

  lemma ThreadsEnd(list: ListHead?, tail: ListHead?, p: ListHead?, q: ListHead?, out: Nodes, rest: Nodes)
    requires Threads(list, tail, p, q, out, [], rest)
    ensures Threads(list, tail, q, q, out, [], rest) && q == First(rest)
  {}

  // ----- one pass over the list -----

  function Min(a: nat, b: nat): nat { if a < b then a else b }

  /** The list is cut into sorted runs of w nodes, the last one perhaps shorter; places count from lo. */
  ghost predicate Blocks(key: Keys, ord: Order, s: Nodes, w: nat, lo: nat)
    requires w > 0
    decreases |s|
  {
    s == [] ||
    var m := Min(w, |s|);
    Run(key, ord, s[..m], lo, lo + m) && Blocks(key, ord, s[m..], w, lo + m)
  }

  /** All runs have w nodes. */
  ghost predicate FullBlocks(key: Keys, ord: Order, s: Nodes, w: nat, lo: nat)
    requires w > 0
    decreases |s|
  {
    s == [] || (|s| >= w && Run(key, ord, s[..w], lo, lo + w) && FullBlocks(key, ord, s[w..], w, lo + w))
  }

  lemma {:induction false} BlocksJoin(key: Keys, ord: Order, a: Nodes, b: Nodes, w: nat, lo: nat)
    requires w > 0 && FullBlocks(key, ord, a, w, lo)
    ensures Blocks(key, ord, b, w, lo + |a|) ==> Blocks(key, ord, a + b, w, lo)
    ensures FullBlocks(key, ord, b, w, lo + |a|) ==> FullBlocks(key, ord, a + b, w, lo)
    decreases |a|
  {
    hide Run;
    if a == [] {
      assert a + b == b;
    } else {
      BlocksJoin(key, ord, a[w..], b, w, lo + w);
      assert (a + b)[..w] == a[..w] && (a + b)[w..] == a[w..] + b;
    }
  }

  lemma OneBlock(key: Keys, ord: Order, run: Nodes, w: nat, lo: nat)
    requires 0 < |run| <= w && Run(key, ord, run, lo, lo + |run|)
    ensures Blocks(key, ord, run, w, lo)
    ensures |run| == w ==> FullBlocks(key, ord, run, w, lo)
  {
    assert run[..|run|] == run;
  }

  lemma RunExtends(key: Keys, key': Keys, ord: Order, s: Nodes, lo: nat, hi: nat)
    requires Extends(key, key') && Run(key, ord, s, lo, hi)
    ensures Run(key', ord, s, lo, hi)
  {
    OrderedExtends(key, key', ord, s);
  }

  lemma {:induction false} BlocksExtend(key: Keys, key': Keys, ord: Order, s: Nodes, w: nat, lo: nat)
    requires w > 0 && Extends(key, key')
    ensures Blocks(key, ord, s, w, lo) ==> Blocks(key', ord, s, w, lo)
    ensures FullBlocks(key, ord, s, w, lo) ==> FullBlocks(key', ord, s, w, lo)
    decreases |s|
  {
    if s != [] {
      var m := Min(w, |s|);
      if Run(key, ord, s[..m], lo, lo + m) {
        RunExtends(key, key', ord, s[..m], lo, lo + m);
      }
      BlocksExtend(key, key', ord, s[m..], w, lo + m);
    }
  }

  /** Walks at most `insize` places along from p. */
  method StepAlong(p: ListHead, insize: nat, ghost rest: Nodes) returns (q: ListHead?, psize: nat)
    requires insize > 0 && p == First(rest) && Linked(rest) && Ends(rest)
    ensures psize == Min(insize, |rest|) && q == First(rest[psize..])
  {
    q := p;
    psize := 0;
    var i := 0;
    while i < insize
      invariant i == psize <= insize && psize < |rest| && q == rest[psize]
    {
      assert psize + 1 < |rest| ==> rest[psize].next == rest[psize + 1];
      psize := psize + 1;
      q := q.next;
      if q == null {
        break;
      }
      i := i + 1;
    }
  }

  lemma SplitThreads(list: ListHead?, tail: ListHead?, p: ListHead?, out: Nodes, rest: Nodes, m: nat)
    requires Threads(list, tail, p, p, out, [], rest) && 0 < m <= |rest|
    ensures Threads(list, tail, p, First(rest[m..]), out, rest[..m], rest[m..])
  {
    assert out + rest[..m] + rest[m..] == out + [] + rest;
  }

  /** The first two blocks of the rest are ready to be merged. */
  lemma MergeStarts(key: Keys, ord: Order, rest: Nodes, w: nat, lo: nat)
    requires rest != [] && w > 0 && Blocks(key, ord, rest, w, lo)
    ensures var m := Min(w, |rest|); var qr := rest[m..]; var m2 := Min(w, |qr|);
            && Merging(key, ord, lo, lo + m, lo + m + m2, [], rest[..m], qr[..m2])
            && Blocks(key, ord, qr[m2..], w, lo + m + m2)
            && m + m2 == Min(2 * w, |rest|) && (qr[m2..] != [] ==> m2 == w && m + m2 == 2 * w)
  {
    var m := Min(w, |rest|);
    assert Run(key, ord, rest[..m], lo, lo + m);
  }

  lemma MergeEnds(key: Keys, ord: Order, lo: nat, mid: nat, hi: nat, run: Nodes)
    requires Merging(key, ord, lo, mid, hi, run, [], [])
    ensures Run(key, ord, run, lo, hi)
  {}

  /** A merged run joins the blocks of double size. */
  lemma BlockAdded(key: Keys, key': Keys, ord: Order, out: Nodes, run: Nodes, rest: Nodes, w: nat)
    requires w > 0 && Extends(key, key') && FullBlocks(key, ord, out, 2 * w, 0)
    requires Run(key', ord, run, |out|, |out| + |run|) && |run| <= 2 * w && (rest != [] ==> |run| == 2 * w)
    requires Blocks(key, ord, rest, w, |out| + |run|)
    ensures Blocks(key', ord, out + run, 2 * w, 0) && Blocks(key', ord, rest, w, |out + run|)
    ensures rest != [] ==> FullBlocks(key', ord, out + run, 2 * w, 0)
  {
    hide Blocks, FullBlocks, Extends;
    BlocksExtend(key, key', ord, out, 2 * w, 0);
    BlocksExtend(key, key', ord, rest, w, |out| + |run|);
    OneBlock(key', ord, run, 2 * w, |out|);
    BlocksJoin(key', ord, out, run, 2 * w, 0);
  }

  lemma PoolIsKept(out: Nodes, rest: Nodes, run: Nodes, ps: Nodes, qs: Nodes, rest': Nodes)
    requires Pool(run, [], []) == Pool([], ps, qs) && rest == ps + (qs + rest')
    ensures multiset(out + run + rest') == multiset(out + rest)
    ensures |run| == |ps| + |qs|
  {
    calc {
      multiset(run);
      Pool(run, [], []);
      Pool([], ps, qs);
      multiset(ps) + multiset(qs);
    }
    assert multiset(rest) == multiset(ps) + multiset(qs) + multiset(rest');
    assert multiset(out + run + rest') == multiset(out) + multiset(run) + multiset(rest');
    assert |multiset(run)| == |run| && |multiset(ps) + multiset(qs)| == |ps| + |qs|;
  }

  lemma BlockStarts(key: Keys, ord: Order, list: ListHead?, tail: ListHead?, p: ListHead?, nodes: set<ListHead>,
                    out: Nodes, rest: Nodes, w: nat)
    returns (ps: Nodes, qs: Nodes, rest': Nodes, mid: nat, hi: nat)
    requires Threads(list, tail, p, p, out, [], rest) && Within(rest, nodes)
    requires rest != [] && w > 0 && Blocks(key, ord, rest, w, |out|)
    ensures rest == ps + (qs + rest') && |ps| == Min(w, |rest|) && |qs| <= w
    ensures rest' != [] ==> |qs| == w && |ps| == w
    ensures mid == |out| + |ps| && hi == mid + |qs| && |ps| + |qs| == Min(2 * w, |rest|)
    ensures Threads(list, tail, p, First(rest[|ps|..]), out, ps, qs + rest')
    ensures Merging(key, ord, |out|, mid, hi, [], ps, qs) && Blocks(key, ord, rest', w, hi)
    ensures Within(ps, nodes) && Within(qs, nodes) && Within(rest', nodes)
  {
    hide Threads, Merging, Blocks, Within;
    ps, qs, rest' := CutTwo(rest, w, nodes);
    mid, hi := |out| + |ps|, |out| + |ps| + |qs|;
    SplitThreads(list, tail, p, out, rest, |ps|);
    MergeStarts(key, ord, rest, w, |out|);
  }

  /** Two stretches of nodes from the front. */
  lemma CutTwo(rest: Nodes, w: nat, nodes: set<ListHead>) returns (ps: Nodes, qs: Nodes, rest': Nodes)
    requires rest != [] && w > 0 && Within(rest, nodes)
    ensures ps == rest[..Min(w, |rest|)] && rest[|ps|..] == qs + rest' && rest == ps + (qs + rest')
    ensures var qr := rest[|ps|..]; qs == qr[..Min(w, |qr|)] && rest' == qr[|qs|..]
    ensures |ps| == Min(w, |rest|) && |qs| <= w && |ps| + |qs| == Min(2 * w, |rest|)
    ensures rest' != [] ==> |qs| == w && |ps| == w
    ensures Within(ps, nodes) && Within(qs, nodes) && Within(rest', nodes)
  {
    ps := rest[..Min(w, |rest|)];
    var qr := rest[|ps|..];
    qs := qr[..Min(w, |qr|)];
    rest' := qr[|qs|..];
    assert qr == qs + rest' && rest == ps + qr;
    assert Within(qr, nodes);
  }

  lemma BlockEnds(key: Keys, key': Keys, ord: Order, out: Nodes, rest: Nodes, run: Nodes, ps: Nodes, qs: Nodes,
                  rest': Nodes, mid: nat, hi: nat, w: nat)
    requires Pool(run, [], []) == Pool([], ps, qs) && rest == ps + (qs + rest')
    requires w > 0 && Extends(key, key') && FullBlocks(key, ord, out, 2 * w, 0)
    requires Merging(key', ord, |out|, mid, hi, run, [], []) && Blocks(key, ord, rest', w, hi)
    requires |ps| + |qs| <= 2 * w && (rest' != [] ==> |ps| + |qs| == 2 * w)
    ensures Blocks(key', ord, out + run, 2 * w, 0) && Blocks(key', ord, rest', w, |out + run|)
    ensures rest' != [] ==> FullBlocks(key', ord, out + run, 2 * w, 0)
    ensures |run| == |ps| + |qs| && multiset(out + run + rest') == multiset(out + rest)
  {
    PoolIsKept(out, rest, run, ps, qs, rest');
    MergeEnds(key', ord, |out|, mid, hi, run);
    BlockAdded(key, key', ord, out, run, rest', w);
  }

  /** One merge of a pass: two blocks of the rest become one of double size. */
  method MergeBlock(cmp: Cmp, list: ListHead?, tail: ListHead?, p: ListHead, insize: nat,
                    ghost nodes: set<ListHead>, ghost datas: set<ListData>, ghost ord: Order, ghost key: Keys,
                    ghost out: Nodes, ghost rest: Nodes)
    returns (list': ListHead?, tail': ListHead?, p': ListHead?, ghost key': Keys, ghost out': Nodes, ghost rest': Nodes)
    requires cmp == ord.cmp
    requires insize > 0 && rest != []
    requires Threads(list, tail, p, p, out, [], rest)
    requires Within(out, nodes) && Within(rest, nodes)
    requires Carries(nodes, datas) && Tie(cmp, key) && key.Keys <= nodes
    requires FullBlocks(key, ord, out, 2 * insize, 0) && Blocks(key, ord, rest, insize, |out|)
    modifies nodes`next, datas`data16
    ensures Threads(list', tail', p', p', out', [], rest') && p' == First(rest')
    ensures Within(out', nodes) && Within(rest', nodes) && multiset(out' + rest') == multiset(out + rest)
    ensures Extends(key, key') && Tie(cmp, key') && key'.Keys <= nodes && Gentle(cmp, datas)
    ensures Blocks(key', ord, out', 2 * insize, 0) && Blocks(key', ord, rest', insize, |out'|)
    ensures |out'| == |out| + Min(2 * insize, |rest|)
    ensures rest' != [] ==> FullBlocks(key', ord, out', 2 * insize, 0)
  {
    hide Merging, Threads, Tie, Settled, Key, Pool, Carries, Blocks, FullBlocks, Run, Linked, Ends, Extends;
    ThreadsRest(list, tail, p, out, rest);
    var q, psize := StepAlong(p, insize, rest);
    ghost var ps, qs, mid, hi;
    ps, qs, rest', mid, hi := BlockStarts(key, ord, list, tail, p, nodes, out, rest, insize);
    ghost var run;
    list', tail', p', key', run :=
      MergeTwo(cmp, list, tail, p, psize, q, insize, nodes, datas, ord, key, |out|, mid, hi, out, ps, qs, rest');
    ThreadsHeads(list', tail', p', p', out + run, [], rest');
    BlockEnds(key, key', ord, out, rest, run, ps, qs, rest', mid, hi, insize);
    out' := out + run;
  }

  lemma ThreadsRest(list: ListHead?, tail: ListHead?, p: ListHead?, out: Nodes, rest: Nodes)
    requires Threads(list, tail, p, p, out, [], rest)
    ensures p == First(rest) && Linked(rest) && Ends(rest)
  {}

  // ----- the whole sort -----

  /** Ends the merged list. */
  method CloseList(list: ListHead?, tail: ListHead, ghost p: ListHead?, ghost out: Nodes)
    requires out != [] && Threads(list, tail, p, p, out, [], [])
    modifies tail`next
    ensures list == First(out) && NoDup(out) && Linked(out) && Ends(out)
  {
    assert out + [] + [] == out;
    tail.next := null;
  }

  lemma PassStarts(key: Keys, ord: Order, head: ListHead, cur: Nodes, w: nat)
    requires head == First(cur) && NoDup(cur) && Linked(cur) && Ends(cur) && w > 0
    ensures Threads(null, null, head, head, [], [], cur)
    ensures FullBlocks(key, ord, [], 2 * w, 0) && Blocks(key, ord, [], 2 * w, 0)
  {
    assert [] + [] + cur == cur;
  }

  /** One pass: merges neighbouring blocks all along the list and counts the merges. */
  method Pass(cmp: Cmp, head: ListHead, insize: nat,
              ghost nodes: set<ListHead>, ghost datas: set<ListData>, ghost ord: Order, ghost key: Keys,
              ghost cur: Nodes)
    returns (list: ListHead?, nmerges: nat, ghost key': Keys, ghost out: Nodes)
    requires cmp == ord.cmp
    requires insize > 0 && head == First(cur) && NoDup(cur) && Linked(cur) && Ends(cur) && Within(cur, nodes)
    requires Carries(nodes, datas) && Tie(cmp, key) && key.Keys <= nodes
    requires Blocks(key, ord, cur, insize, 0)
    modifies nodes`next, datas`data16
    ensures list == First(out) && NoDup(out) && Linked(out) && Ends(out) && Within(out, nodes)
    ensures multiset(out) == multiset(cur) && |out| == |cur|
    ensures Tie(cmp, key') && key'.Keys <= nodes && Gentle(cmp, datas)
    ensures Blocks(key', ord, out, 2 * insize, 0)
    ensures nmerges <= 1 <==> |cur| <= 2 * insize
  {
    hide Threads, Merging, Tie, Settled, Key, Carries, Blocks, FullBlocks, Linked, Ends, NoDup;
    PassStarts(key, ord, head, cur, insize);
    list := null;
    var tail, p: ListHead? := null, head;
    nmerges := 0;
    key', out := key, [];
    ghost var rest := cur;
    assert [] + cur == cur;
    while p != null
      invariant Threads(list, tail, p, p, out, [], rest) && p == First(rest)
      invariant Within(out, nodes) && Within(rest, nodes) && multiset(out + rest) == multiset(cur)
      invariant |out| + |rest| == |cur|
      invariant Tie(cmp, key') && key'.Keys <= nodes && Gentle(cmp, datas)
      invariant Blocks(key', ord, rest, insize, |out|) && Blocks(key', ord, out, 2 * insize, 0)
      invariant rest != [] ==> FullBlocks(key', ord, out, 2 * insize, 0)
      invariant nmerges == 0 <==> out == []
      invariant nmerges == 1 ==> |out| == Min(2 * insize, |cur|)
      invariant nmerges > 1 ==> |out| > 2 * insize
      decreases |rest|
    {
      list, tail, p, key', out, rest := MergeBlock(cmp, list, tail, p, insize, nodes, datas, ord, key', out, rest);
      nmerges := nmerges + 1;
    }
    assert out + rest == out;
    ThreadsHeads(list, tail, p, p, out, [], rest);
    CloseList(list, tail, p, out);
  }

  ghost predicate Placed(ord: Order, orig: Nodes) {
    forall i :: 0 <= i < |orig| ==> orig[i] in ord.place && ord.place[orig[i]] == i
  }

  lemma {:induction false} SingleBlocks(ord: Order, orig: Nodes, lo: nat)
    requires Placed(ord, orig) && lo <= |orig|
    ensures Blocks(map[], ord, orig[lo..], 1, lo)
    decreases |orig| - lo
  {
    if lo < |orig| {
      SingleBlocks(ord, orig, lo + 1);
      assert orig[lo..][1..] == orig[lo + 1..];
    }
  }

  /** The place of a node in a list. */
  ghost function Place(s: Nodes, x: ListHead): (i: nat)
    requires x in s
    ensures i < |s| && s[i] == x
  {
    var i :| 0 <= i < |s| && s[i] == x; i
  }

  /** Sorted by key, and nodes with equal keys keep the order they had. */
  ghost predicate SortedStable(cmp: Cmp, orig: Nodes, out: Nodes)
    requires forall x :: x in out ==> x in orig
    reads (set x | x in out)`info, set x | x in out :: x.info
  {
    forall i, j :: 0 <= i < j < |out| ==>
      && AtMost(cmp, Key(cmp, out[i].info), Key(cmp, out[j].info))
      && (AtMost(cmp, Key(cmp, out[j].info), Key(cmp, out[i].info)) ==> Place(orig, out[i]) < Place(orig, out[j]))
  }

  lemma SameMembers(a: Nodes, b: Nodes)
    requires multiset(a) == multiset(b)
    ensures forall x :: x in a ==> x in b
    ensures |a| == |b|
  {
    forall x | x in a ensures x in b { assert x in multiset(a); }
    assert |multiset(a)| == |a| && |multiset(b)| == |b|;
  }

  lemma OneRunIsSorted(cmp: Cmp, key: Keys, ord: Order, orig: Nodes, out: Nodes, w: nat)
    requires w > 0 && Blocks(key, ord, out, w, 0) && 0 < |out| <= w && Tie(cmp, key) && cmp == ord.cmp
    requires Placed(ord, orig) && multiset(out) == multiset(orig) && forall x :: x in out ==> x in orig
    ensures SortedStable(cmp, orig, out)
    ensures |out| > 1 ==> forall x :: x in out ==> Settled(cmp, x.info)
  {
    hide Key, Settled;
    assert out[..|out|] == out;
    forall i, j | 0 <= i < j < |out|
      ensures out[i] in key && out[j] in key && AtMost(cmp, key[out[i]], key[out[j]])
      ensures AtMost(cmp, key[out[j]], key[out[i]]) ==> Place(orig, out[i]) < Place(orig, out[j])
    {
      assert Less(key, ord, out[i], out[j]);
      assert ord.place[out[i]] == Place(orig, out[i]) && ord.place[out[j]] == Place(orig, out[j]);
    }
    if |out| > 1 {
      forall k | 0 <= k < |out|
        ensures out[k] in key
      {
        assert if k == 0 then Less(key, ord, out[0], out[1]) else Less(key, ord, out[0], out[k]);
      }
    }
  }

  /**
   Sorts the list in place: the same nodes come out, sorted by what the comparator
   compares, equal ones in their old order; with more than one node every item
   has been compared and so settled.
   */
  method Mergesort(cmp: Cmp, head: ListHead, ghost orig: Nodes, ghost datas: set<ListData>)
    returns (list: ListHead, ghost out: Nodes)
    requires orig != [] && head == First(orig) && NoDup(orig) && Linked(orig) && Ends(orig)
    requires forall x :: x in orig ==> x.info in datas
    modifies (set x | x in orig)`next, datas`data16
    ensures list == First(out) && NoDup(out) && Linked(out) && Ends(out)
    ensures multiset(out) == multiset(orig) && |out| == |orig| && forall x :: x in out ==> x in orig
    ensures SortedStable(cmp, orig, out)
    ensures |orig| > 1 ==> forall x :: x in out ==> Settled(cmp, x.info)
    ensures Gentle(cmp, datas)
  {
    hide Tie, Settled, Key, Carries, Blocks, Linked, Ends, NoDup, Placed, SortedStable, First;
    ghost var nodes: set<ListHead>, key: Keys := set x | x in orig, map[];
    ghost var ord := Order(cmp, map x | x in orig :: Place(orig, x));
    SortStarts(cmp, ord, orig, nodes, datas);
    list, out := head, orig;
    var insize := 1;
    while true
      invariant list == First(out) && NoDup(out) && Linked(out) && Ends(out) && Within(out, nodes)
      invariant multiset(out) == multiset(orig) && |out| == |orig|
      invariant Carries(nodes, datas) && Tie(cmp, key) && key.Keys <= nodes && Gentle(cmp, datas)
      invariant 0 < insize <= |out| && Blocks(key, ord, out, insize, 0)
      decreases |orig| - insize
    {
      var next, nmerges;
      next, nmerges, key, out := Pass(cmp, list, insize, nodes, datas, ord, key, out);
      NotEmpty(out);
      list := next;
      if nmerges <= 1 {
        SameMembers(out, orig);
        OneRunIsSorted(cmp, key, ord, orig, out, 2 * insize);
        return;
      }
      insize := insize * 2;
    }
  }

  lemma NotEmpty(s: Nodes)
    ensures s != [] ==> First(s) != null
  {}

  lemma SortStarts(cmp: Cmp, ord: Order, orig: Nodes, nodes: set<ListHead>, datas: set<ListData>)
    requires NoDup(orig) && orig != [] && nodes == (set x | x in orig)
    requires ord == Order(cmp, map x | x in orig :: Place(orig, x))
    requires forall x :: x in orig ==> x.info in datas
    ensures Placed(ord, orig) && Blocks(map[], ord, orig, 1, 0) && Within(orig, nodes)
    ensures Carries(nodes, datas) && Tie(cmp, map[])
  {
    SingleBlocks(ord, orig, 0);
    assert orig[0..] == orig;
  }
}
