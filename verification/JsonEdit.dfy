/** cJSON_Duplicate, and replacing and deleting the elements of a list together with all they own. */
module JsonEdit {
  import opened Bytes
  import opened JsonValue
  import opened JsonNode
  import opened JsonTree
  import opened JsonBuild

  predicate SameText(a: Str?, b: Str?) { (a == null <==> b == null) && (a != null && b != null ==> a.text == b.text) }

  /** A copy of everything but the links; a copied reference becomes an ordinary item. */
  ghost predicate Same(t: Tree, d: Tree, recurse: bool) {
    && d.typ == t.typ.(isReference := false) && d.number == t.number
    && SameText(t.val, d.val) && SameText(t.key, d.key) && (t.typ.stringIsConst ==> d.key == t.key)
    && (if recurse then |d.kids| == |t.kids| && forall i :: 0 <= i < |t.kids| ==> Same(t.kids[i], d.kids[i], true)
        else d.kids == [])
  }

  lemma RootIsSame(t: Tree, d: Tree, recurse: bool)
    requires d.typ == t.typ.(isReference := false) && d.number == t.number
    requires SameText(t.val, d.val) && SameText(t.key, d.key) && (t.typ.stringIsConst ==> d.key == t.key)
    requires if recurse then |d.kids| == |t.kids| && Copies(t.kids, d.kids) else d.kids == []
    ensures Same(t, d, recurse)
  {}

  ghost predicate Copies(ts: seq<Tree>, ds: seq<Tree>) {
    |ds| <= |ts| && forall i :: 0 <= i < |ds| ==> Same(ts[i], ds[i], true)
  }

  lemma MoreCopies(ts: seq<Tree>, ds: seq<Tree>, more: seq<Tree>)
    requires Copies(ts, ds) && |ds| < |ts| && |more| == |ds| + 1 && more[..|ds|] == ds
    requires Same(ts[|ds|], more[|ds|], true)
    ensures Copies(ts, more)
  {
    hide Same;
    forall i | 0 <= i < |more|
      ensures Same(ts[i], more[i], true)
    {
      if i < |ds| {
        assert more[i] == ds[i];
      }
    }
  }

  /** A recursive copy stands for the same JSON value. */
  lemma {:induction false} SameMeansSame(t: Tree, d: Tree)
    requires Same(t, d, true)
    ensures ValueOf(d) == ValueOf(t) && TextOf(d.key) == TextOf(t.key)
  {
    forall i | 0 <= i < |t.kids|
      ensures ValueOf(d.kids[i]) == ValueOf(t.kids[i]) && TextOf(d.kids[i].key) == TextOf(t.kids[i].key)
    {
      SameMeansSame(t.kids[i], d.kids[i]);
    }
    ParentValue(t);
    ParentValue(d);
    assert ValuesOf(t.kids) == ValuesOf(d.kids);
    assert MembersOf(t.kids) == MembersOf(d.kids);
  }

  /** The tree at a node, as its fields say. */
  ghost function TreeAt(n: Node, kids: seq<Tree>): Tree
    reads n
  {
    Tree(n, n.typ, n.number, n.valuestring, n.name, kids)
  }

  ghost function OwnName(n: Node): set<object>
    reads n
  {
    if n.typ.stringIsConst then {} else Block(n.name)
  }

  lemma TreeAtIs(n: Node, kids: seq<Tree>)
    requires Family(n.child, kids) && !n.typ.isReference
    requires n !in Owned(kids) && OwnName(n) !! Owned(kids) && Block(n.valuestring) !! Owned(kids)
    requires OwnName(n) !! Block(n.valuestring)
    ensures Is(TreeAt(n, kids), false) && ApartIn(TreeAt(n, kids)) && NoReferences([TreeAt(n, kids)])
    ensures OwnedBy(TreeAt(n, kids)) == {n} + OwnName(n) + Block(n.valuestring) + Owned(kids)
  {
    RootsAreNodes(kids, false);
    BelowIsInside(kids, false);
    var t := TreeAt(n, kids);
    assert Contents(t) == Block(n.valuestring) + Owned(kids);
    assert t.node !in Contents(t);
  }

  lemma {:induction false} AreEach(ts: seq<Tree>, deep: bool, i: nat)
    requires Are(ts, deep) && i < |ts|
    ensures Is(ts[i], deep)
  {
    hide Is;
    if i > 0 {
      AreEach(ts[1..], deep, i - 1);
    }
  }

  lemma UnderIsOwnedBy(t: Tree)
    ensures Under(t, false) <= OwnedBy(t)
  {
    UnderIsOwned(t);
  }

  /** Deletes one detached tree. */
  method DeleteTree(heap: Heap, n: Node, ghost t: Tree)
    requires n == t.node && n.next == null && Is(t, false) && ApartIn(t) && OwnedBy(t) <= heap.live
    modifies heap`live, n, Under(t, false)
    ensures heap.live == old(heap.live) - OwnedBy(t)
  {
    RootsOfOne(t);
    assert Are([t], false);
    Delete(heap, n, [t]);
  }

  // ----- duplicating -----

  /** A detached copy made of new blocks only, or nothing allocated at all. */
  method DuplicateNode(heap: Heap, item: Node, recurse: bool, ghost t: Tree) returns (n: Node?, ghost d: Tree)
    requires t.node == item && Is(t, true)
    modifies heap`live, heap`failures
    ensures heap.failures >= old(heap.failures)
    ensures n == null ==> heap.live == old(heap.live) && heap.failures > old(heap.failures)
    ensures n != null ==> d.node == n && n.next == n.prev == null && Is(d, false) && ApartIn(d) && NoReferences([d])
    ensures n != null ==> fresh(OwnedBy(d)) && heap.live == old(heap.live) + OwnedBy(d)
    ensures n != null ==> Same(t, d, recurse)
    decreases t, 3
  {
    NodesExist([t], true);
    assert {t.node} + Under(t, true) <= Nodes([t], true);
    assert item.typ == t.typ && item.number == t.number && item.valuestring == t.val && item.name == t.key;
    hide Same, Are, Is, ApartIn, OwnedBy, Nodes, Under, NoReferences, RootBlocks, Block, OwnName, SameText;
    d := t;
    var ok: bool;
    n, ok := CopyRoot(heap, item);
    if n == null {
      return;
    }
    assert Is(t, true);
    ok, d := CopyBelow(heap, item, n, ok, recurse, t);
    assert fresh(OwnedBy(d));
    if !ok {
      UnderIsOwnedBy(d);
      assert fresh(Under(d, false));
      DeleteTree(heap, n, d);
      n := null;
    }
  }

  /** The blocks of a node itself. */
  ghost function RootBlocks(n: Node): set<object>
    reads n
  {
    {n} + OwnName(n) + Block(n.valuestring)
  }

  /** The children of the copy, unless copying has failed already, and the tree that this makes. */
  method CopyBelow(heap: Heap, item: Node, n: Node, sound: bool, recurse: bool, ghost t: Tree)
    returns (ok: bool, ghost d: Tree)
    requires t.node == item && Is(t, true) && n !in Nodes([t], true) && n.child == n.next == n.prev == null
    requires n.typ == t.typ.(isReference := false) && n.number == t.number
    requires sound ==> SameText(t.val, n.valuestring) && SameText(t.key, n.name)
    requires sound && t.typ.stringIsConst ==> n.name == t.key
    requires OwnName(n) !! Block(n.valuestring) && RootBlocks(n) <= heap.live
    modifies heap`live, heap`failures, n`child
    ensures heap.failures >= old(heap.failures) && (!ok ==> !sound || heap.failures > old(heap.failures))
    ensures d.node == n && Is(d, false) && ApartIn(d) && NoReferences([d])
    ensures RootBlocks(n) == old(RootBlocks(n)) <= OwnedBy(d) && fresh(OwnedBy(d) - RootBlocks(n))
    ensures heap.live == old(heap.live) + OwnedBy(d)
    ensures ok ==> Same(t, d, recurse)
    decreases t, 2
  {
    ghost var done := [];
    NoKids();
    hide Same, Are, Is, Apart, ApartIn, OwnedBy, Nodes, Under, NoReferences, Family, Owned, Copies;
    ok := sound;
    if ok && recurse {
      ok, done := DuplicateKids(heap, item, n, t);
    }
    TreeAtIs(n, done);
    d := TreeAt(n, done);
    if ok {
      RootIsSame(t, d, recurse);
    }
  }

  /** The new node with its own strings; a constant key is shared. */
  method CopyRoot(heap: Heap, item: Node) returns (n: Node?, ok: bool)
    modifies heap`live, heap`failures
    ensures heap.failures >= old(heap.failures) && (n == null ==> !ok) && (!ok ==> heap.failures > old(heap.failures))
    ensures n == null ==> heap.live == old(heap.live)
    ensures n != null ==> fresh(n) && n.next == n.prev == n.child == null
    ensures n != null ==> n.typ == item.typ.(isReference := false) && n.number == item.number
    ensures n != null ==> fresh(RootBlocks(n)) && OwnName(n) !! Block(n.valuestring)
    ensures n != null ==> heap.live == old(heap.live) + RootBlocks(n)
    ensures ok ==> SameText(item.valuestring, n.valuestring) && SameText(item.name, n.name)
    ensures ok && item.typ.stringIsConst ==> n.name == item.name
  {
    ok := false;
    n := heap.NewItem();
    if n == null {
      return;
    }
    n.typ := item.typ.(isReference := false);
    n.number := item.number;
    if item.valuestring != null {
      n.valuestring := heap.NewStr(item.valuestring.text);
      if n.valuestring == null {
        return;
      }
    }
    if item.name != null {
      if item.typ.stringIsConst {
        n.name := item.name;
      } else {
        n.name := heap.NewStr(item.name.text);
      }
      if n.name == null {
        return;
      }
    }
    ok := true;
  }

  /** Copies the children one by one, each linked behind the copy before it. */
  method DuplicateKids(heap: Heap, item: Node, n: Node, ghost t: Tree) returns (ok: bool, ghost done: seq<Tree>)
    requires t.node == item && Is(t, true) && n !in Nodes([t], true) && n.child == null
    modifies heap`live, heap`failures, n`child
    ensures heap.failures >= old(heap.failures) && (!ok ==> heap.failures > old(heap.failures))
    ensures Family(n.child, done) && fresh(Owned(done)) && heap.live == old(heap.live) + Owned(done)
    ensures ok ==> |done| == |t.kids| && Copies(t.kids, done)
    decreases t, 1
  {
    NodesExist([t], true);
    NoKids();
    ok, done := true, [];
    var cptr := item.child;
    var last: Node? := null;
    assert Linked(item.child, Roots(t.kids));
    assert forall k: nat :: k <= |t.kids| ==> (At(Roots(t.kids), k) == null <==> k == |t.kids|);
    assert Copies(t.kids, done) && {t.node} + Under(t, true) <= Nodes([t], true);
    hide Is, Family, Owned, Nodes, Under, Copies, Roots, LastOf, At, Linked, Same;
    while cptr != null
      invariant |done| <= |t.kids| && cptr == At(Roots(t.kids), |done|) && Is(t, true)
      invariant heap.failures >= old(heap.failures)
      invariant Family(n.child, done) && fresh(Owned(done)) && heap.live == old(heap.live) + Owned(done)
      invariant n !in Owned(done) && last == LastOf(done) && (last != null ==> fresh(last))
      invariant Copies(t.kids, done)
      decreases |t.kids| - |done|
    {
      var newchild, next;
      ghost var more;
      newchild, next, more := DuplicateStep(heap, n, cptr, last, t, done);
      if newchild == null {
        return false, done;
      }
      last, cptr, done := newchild, next, more;
    }
  }

  /** Copies the child at the cursor and moves the cursor on; the source stays as it is. */
  method DuplicateStep(heap: Heap, n: Node, cptr: Node, last: Node?, ghost t: Tree, ghost done: seq<Tree>)
    returns (newchild: Node?, next: Node?, ghost more: seq<Tree>)
    requires Is(t, true) && |done| < |t.kids| && cptr == At(Roots(t.kids), |done|) && Copies(t.kids, done)
    requires n !in Under(t, true) && n != t.node && Only(last) !! ({t.node} + Under(t, true))
    requires Family(n.child, done) && last == LastOf(done) && n !in Owned(done) && Owned(done) <= heap.live
    modifies heap`live, heap`failures, n`child, Only(last)`next
    ensures Is(t, true) && heap.failures >= old(heap.failures)
    ensures newchild == null ==>
      heap.live == old(heap.live) && heap.failures > old(heap.failures) && Family(n.child, done)
    ensures newchild != null ==> |more| == |done| + 1 && Copies(t.kids, more) && next == At(Roots(t.kids), |more|)
    ensures newchild != null ==> Family(n.child, more) && newchild == LastOf(more) && fresh(newchild)
    ensures newchild != null ==> Owned(done) <= Owned(more) && fresh(Owned(more) - Owned(done))
    ensures newchild != null ==> heap.live == old(heap.live) + Owned(more) && n !in Owned(more)
    decreases t, 0
  {
    NodesExist([t], true);
    assert {t.node} + Under(t, true) <= Nodes([t], true);
    hide Is, Family, Owned, Nodes, Under, Copies, Roots, LastOf, At, Linked, Same;
    KidIs(t, |done|);
    newchild, more := DuplicateNext(heap, n, cptr, last, t.kids[|done|], done);
    next := cptr.next;
    if newchild != null {
      MoreCopies(t.kids, done, more);
    }
  }

  lemma KidIs(t: Tree, i: nat)
    requires Is(t, true) && i < |t.kids|
    ensures Is(t.kids[i], true) && At(Roots(t.kids), i) == t.kids[i].node
    ensures t.kids[i].node.next == At(Roots(t.kids), i + 1) && t.kids[i].node in Under(t, true)
  {
    RootsAreNodes(t.kids, true);
    AreEach(t.kids, true, i);
    assert Roots(t.kids)[i] == t.kids[i].node;
  }

  /** One more child: copied, then linked. */
  method DuplicateNext(heap: Heap, n: Node, cptr: Node, last: Node?, ghost kid: Tree, ghost done: seq<Tree>)
    returns (newchild: Node?, ghost more: seq<Tree>)
    requires kid.node == cptr && Is(kid, true)
    requires Family(n.child, done) && last == LastOf(done) && n !in Owned(done) && Owned(done) <= heap.live
    modifies heap`live, heap`failures, n`child, Only(last)`next
    ensures heap.failures >= old(heap.failures)
    ensures newchild == null ==>
      heap.live == old(heap.live) && heap.failures > old(heap.failures) && Family(n.child, done)
    ensures newchild != null ==> |more| == |done| + 1 && more[..|done|] == done && Same(kid, more[|done|], true)
    ensures newchild != null ==> Family(n.child, more) && newchild == LastOf(more) && fresh(newchild)
    ensures newchild != null ==> Owned(done) <= Owned(more) && fresh(Owned(more) - Owned(done))
    ensures newchild != null ==> heap.live == old(heap.live) + Owned(more) && n !in Owned(more)
    decreases kid, 4
  {
    NodesAreOwned(done);
    NodesExist(done, false);
    BelowIsInside(done, false);
    RootsAreNodes(done, false);
    ghost var d;
    hide Same, Is, Apart, ApartIn, Are, Linked, Below, Under, Nodes, NoReferences;
    newchild, d := DuplicateNode(heap, cptr, true, kid);
    more := done;
    if newchild != null {
      LinkCopy(n, last, newchild, done, d);
      more := done + [d];
    }
  }

  method LinkCopy(n: Node, last: Node?, newchild: Node, ghost done: seq<Tree>, ghost d: Tree)
    requires Family(n.child, done) && last == LastOf(done) && n !in Owned(done)
    requires d.node == newchild && newchild.next == newchild.prev == null
    requires Is(d, false) && ApartIn(d) && NoReferences([d]) && Owned(done) !! OwnedBy(d) && n !in OwnedBy(d)
    modifies n`child, Only(last)`next, newchild`prev
    ensures Family(n.child, done + [d]) && Owned(done + [d]) == Owned(done) + OwnedBy(d)
  {
    NodesAreOwned(done);
    NodesExist(done, false);
    NodesExist([d], false);
    RootsOfOne(d);
    UnderIsOwned(d);
    RootsAreNodes(done, false);
    if last != null {
      assert last == Roots(done)[|done| - 1];
    }
    assert newchild !in Under(d, false) && Only(last) !! Under(d, false) && n !in Under(d, false);
    hide Is, Are, Apart, ApartIn, Nodes, Under, Owned, Below;
    Link(n, last, newchild, done);
    FamilyGrows(n.child, done, d);
  }

  /** cJSON_Duplicate: there is no copy of nothing. */
  method Duplicate(heap: Heap, item: Node?, recurse: bool, ghost ts: seq<Tree>) returns (n: Node?, ghost ds: seq<Tree>)
    requires if item == null then ts == [] else |ts| == 1 && ts[0].node == item && Is(ts[0], true)
    modifies heap`live, heap`failures
    ensures item == null ==> n == null
    ensures n == null ==> heap.live == old(heap.live) && (item == null || heap.failures > old(heap.failures))
    ensures n != null ==> |ds| == 1 && ds[0].node == n && n.next == n.prev == null && Same(ts[0], ds[0], recurse)
    ensures n != null ==> Is(ds[0], false) && ApartIn(ds[0]) && NoReferences(ds)
    ensures n != null ==> fresh(OwnedBy(ds[0])) && heap.live == old(heap.live) + OwnedBy(ds[0])
  {
    n, ds := null, [];
    if item != null {
      ghost var d;
      n, d := DuplicateNode(heap, item, recurse, ts[0]);
      ds := [d];
    }
  }

  // ----- references -----

  /** create_reference: shows the same value and children, but owns nothing except itself. */
  method CreateReference(heap: Heap, item: Node) returns (n: Node?)
    modifies heap`live, heap`failures
    ensures n == null ==> heap.live == old(heap.live) && heap.failures > old(heap.failures)
    ensures n != null ==> fresh(n) && heap.live == old(heap.live) + {n} && n.next == n.prev == null
    ensures n != null ==> n.typ == item.typ.(isReference := true) && n.number == item.number
    ensures n != null ==> n.child == item.child && n.valuestring == item.valuestring && n.name == null
    ensures n != null ==> Is(TreeAt(n, []), false) && ApartIn(TreeAt(n, [])) && OwnedBy(TreeAt(n, [])) == {n}
  {
    n := heap.NewItem();
    if n != null {
      n.child, n.number, n.valuestring := item.child, item.number, item.valuestring;
      n.typ := item.typ.(isReference := true);
    }
  }

  // ----- taking out and exchanging elements -----

  /** The forest without its k-th tree. */
  ghost function Without(ts: seq<Tree>, k: nat): seq<Tree>
    requires k < |ts|
  {
    ts[..k] + ts[k + 1..]
  }

  lemma Cut(ts: seq<Tree>, k: nat)
    requires k < |ts|
    ensures ts == ts[..k] + ([ts[k]] + ts[k + 1..]) && Roots(Without(ts, k)) == DetachAt(Roots(ts), k)
  {}

  lemma TakenOutAre(a: seq<Tree>, t: Tree, b: seq<Tree>)
    ensures Are(a + ([t] + b), false) <==> Are(a + b, false) && Is(t, false)
  {
    hide Is;
    AppendAre(a, [t] + b, false);
    AppendAre([t], b, false);
    AppendAre(a, b, false);
    assert Are([t], false) == Is(t, false);
  }

  lemma TakenOutOwned(a: seq<Tree>, t: Tree, b: seq<Tree>)
    ensures Owned(a + ([t] + b)) == Owned(a + b) + OwnedBy(t)
    ensures Nodes(a + ([t] + b), false) == Nodes(a + b, false) + {t.node} + Under(t, false)
  {
    AppendOwned(a, [t] + b);
    AppendOwned([t], b);
    AppendOwned(a, b);
    AppendNodes(a, [t] + b, false);
    AppendNodes([t], b, false);
    AppendNodes(a, b, false);
    RootsOfOne(t);
  }

  lemma TakenOutApart(a: seq<Tree>, t: Tree, b: seq<Tree>)
    ensures Apart(a + ([t] + b)) <==> Apart(a + b) && ApartIn(t) && Owned(a + b) !! OwnedBy(t)
  {
    hide ApartIn;
    AppendApart(a, [t] + b);
    AppendApart([t], b);
    AppendApart(a, b);
    AppendOwned([t], b);
    AppendOwned(a, b);
    RootsOfOne(t);
  }

  lemma TakenOut(ts: seq<Tree>, k: nat)
    requires k < |ts|
    ensures Roots(Without(ts, k)) == DetachAt(Roots(ts), k) && Roots(ts)[k] == ts[k].node
    ensures Are(ts, false) <==> Are(Without(ts, k), false) && Is(ts[k], false)
    ensures Apart(ts) <==> Apart(Without(ts, k)) && ApartIn(ts[k]) && Owned(Without(ts, k)) !! OwnedBy(ts[k])
    ensures Owned(ts) == Owned(Without(ts, k)) + OwnedBy(ts[k])
    ensures Nodes(ts, false) == Nodes(Without(ts, k), false) + {ts[k].node} + Under(ts[k], false)
  {
    Cut(ts, k);
    hide Is, ApartIn, Apart, Owned, Nodes, Are;
    TakenOutAre(ts[..k], ts[k], ts[k + 1..]);
    TakenOutOwned(ts[..k], ts[k], ts[k + 1..]);
    TakenOutApart(ts[..k], ts[k], ts[k + 1..]);
  }

  /** A list of trees hangs below a node, which belongs to none of them. */
  ghost predicate ListIs(list: Node, kids: seq<Tree>)
    reads list`child
    reads Nodes(kids, false)`typ, Nodes(kids, false)`number, Nodes(kids, false)`valuestring, Nodes(kids, false)`name
    reads Nodes(kids, false)`child, Nodes(kids, false)`next, Nodes(kids, false)`prev
  {
    && list !in Owned(kids)
    && (RootsAreNodes(kids, false); Linked(list.child, Roots(kids)))
    && (BelowIsInside(kids, false); Are(kids, false)) && Apart(kids)
  }

  /** The element leaves the list, and exactly its blocks are freed; past the end, nothing happens. */
  method DeleteItemFromArray(heap: Heap, list: Node, which: int, ghost kids: seq<Tree>)
    requires ListIs(list, kids) && Owned(kids) <= heap.live
    modifies heap`live, list`child, Nodes(kids, false)
    ensures Place(which) >= |kids| ==> ListIs(list, kids) && heap.live == old(heap.live)
    ensures Place(which) < |kids| ==> ListIs(list, Without(kids, Place(which)))
    ensures Place(which) < |kids| ==> heap.live == old(heap.live) - OwnedBy(kids[Place(which)])
  {
    NodesExist(kids, false);
    NodesAreOwned(kids);
    RootsAreNodes(kids, false);
    BelowIsInside(kids, false);
    RootsAreNotBelow(kids);
    hide Is, ApartIn, Nodes, Below, Under, OwnedBy, Owned, Apart;
    var c := DetachItemFromArray(list, which, Roots(kids));
    assert Are(kids, false);
    if c != null {
      ghost var k := Place(which);
      TakenOut(kids, k);
      RemoveTree(heap, list, c, Without(kids, k), kids[k]);
    }
  }

  /** Deletes a tree that has just left its list. */
  method RemoveTree(heap: Heap, list: Node, c: Node, ghost rest: seq<Tree>, ghost t: Tree)
    requires c == t.node && c.next == null && Is(t, false) && ApartIn(t) && OwnedBy(t) <= heap.live
    requires ListIs(list, rest) && Owned(rest) !! OwnedBy(t) && list !in OwnedBy(t)
    modifies heap`live, c, Under(t, false)
    ensures ListIs(list, rest) && heap.live == old(heap.live) - OwnedBy(t)
  {
    NodesExist(rest, false);
    NodesAreOwned(rest);
    UnderIsOwnedBy(t);
    assert c in OwnedBy(t);
    hide Is, ApartIn, Nodes, Below, Under, OwnedBy, Owned, Apart, Are, Linked;
    DeleteTree(heap, c, t);
  }

  /** The k-th tree exchanged for another one. */
  lemma PutIn(ts: seq<Tree>, k: nat, t: Tree)
    requires k < |ts| && Are(ts, false) && Apart(ts) && Is(t, false) && ApartIn(t) && OwnedBy(t) !! Owned(ts)
    ensures Are(ts[k := t], false) && Apart(ts[k := t]) && Owned(ts[k := t]) <= Owned(ts) + OwnedBy(t)
    ensures Is(ts[k], false) && ApartIn(ts[k])
    ensures Owned(ts[k := t]) !! OwnedBy(ts[k]) && OwnedBy(ts[k]) <= Owned(ts)
    ensures Nodes(ts[k := t], false) <= Nodes(ts, false) + {t.node} + Under(t, false)
    ensures {ts[k].node} + Under(ts[k], false) <= Nodes(ts, false)
    ensures Roots(ts[k := t]) == ReplaceAt(Roots(ts), k, t.node) && Roots(ts)[k] == ts[k].node
  {
    assert Without(ts[k := t], k) == Without(ts, k);
    assert ts[k := t][k] == t;
    hide Is, ApartIn, Apart, Owned, OwnedBy, Nodes, Are, Without;
    TakenOut(ts, k);
    TakenOut(ts[k := t], k);
  }

  /** A detached tree takes the place of an element, and exactly the old element's blocks are freed. */
  method ReplaceItemInArray(heap: Heap, list: Node, which: int, newitem: Node, ghost kids: seq<Tree>, ghost t: Tree)
    requires ListIs(list, kids) && Owned(kids) <= heap.live
    requires newitem == t.node && Is(t, false) && ApartIn(t) && OwnedBy(t) !! Owned(kids) && list !in OwnedBy(t)
    modifies heap`live, list`child, Nodes(kids, false), newitem`next, newitem`prev
    ensures Place(which) >= |kids| ==> ListIs(list, kids) && Is(t, false) && heap.live == old(heap.live)
    ensures Place(which) < |kids| ==> ListIs(list, kids[Place(which) := t])
    ensures Place(which) < |kids| ==> heap.live == old(heap.live) - OwnedBy(kids[Place(which)])
  {
    var c := Exchange(list, which, newitem, kids, t);
    ghost var k := Place(which);
    if c != null {
      NodesExist(kids, false);
      PutIn(kids, k, t);
      Exchanged(list, kids, k, t);
      hide Is, ApartIn, Nodes, Below, Under, OwnedBy, Owned, Apart, Are, Linked;
      RemoveTree(heap, list, c, kids[k := t], kids[k]);
    }
  }

  /** The relinking alone: both trees are whole afterwards, and the old one is detached. */
  method Exchange(list: Node, which: int, newitem: Node, ghost kids: seq<Tree>, ghost t: Tree) returns (c: Node?)
    requires ListIs(list, kids)
    requires newitem == t.node && Is(t, false) && ApartIn(t) && OwnedBy(t) !! Owned(kids) && list !in OwnedBy(t)
    modifies list`child, Nodes(kids, false), newitem`next, newitem`prev
    ensures Are(kids, false) && Is(t, false) && c == At(Roots(kids), Place(which))
    ensures Linked(list.child, ReplaceAt(Roots(kids), Place(which), newitem)) && (c != null ==> c.next == null)
  {
    NodesExist([t], false);
    ExchangeFrame(list, kids, t);
    hide Is, Are, ApartIn, Nodes, Below, Under, OwnedBy, Owned, Apart;
    c := ExchangeAmong(list, which, newitem, kids);
  }

  /** The relinking leaves the trees of the list whole. */
  method ExchangeAmong(list: Node, which: int, newitem: Node, ghost kids: seq<Tree>) returns (c: Node?)
    requires Linked(list.child, Roots(kids)) && Are(kids, false)
    requires list !in Nodes(kids, false) && newitem !in Nodes(kids, false) && Below(kids, false) <= Nodes(kids, false)
    requires forall n :: n in Roots(kids) ==> n in Nodes(kids, false) && n !in Below(kids, false)
    modifies list`child, Roots(kids)`next, Roots(kids)`prev, newitem`next, newitem`prev
    ensures Are(kids, false) && c == At(Roots(kids), Place(which))
    ensures Linked(list.child, ReplaceAt(Roots(kids), Place(which), newitem)) && (c != null ==> c.next == null)
  {
    NodesExist(kids, false);
    hide Are, Nodes, Below;
    c := ExchangeItem(list, which, newitem, Roots(kids));
  }

  /** The link fields of the roots concern neither the trees below them nor the new tree. */
  lemma ExchangeFrame(list: Node, kids: seq<Tree>, t: Tree)
    requires Apart(kids) && ApartIn(t) && OwnedBy(t) !! Owned(kids) && list !in OwnedBy(t) && list !in Owned(kids)
    ensures forall n :: n in Roots(kids) ==> n !in Below(kids, false) && n !in Under(t, false) && n != t.node
    ensures t.node !in Under(t, false) && t.node !in Nodes(kids, false) && list != t.node
    ensures list !in Nodes(kids, false) && list !in Under(t, false)
    ensures Below(kids, false) <= Nodes(kids, false)
    ensures forall n :: n in Roots(kids) ==> n in Nodes(kids, false)
    ensures Nodes([t], false) == {t.node} + Under(t, false)
  {
    RootsOfOne(t);
    NodesAreOwned(kids);
    RootsAreNodes(kids, false);
    BelowIsInside(kids, false);
    RootsAreNotBelow(kids);
    UnderIsOwned(t);
    UnderIsOwnedBy(t);
    assert t.node in OwnedBy(t);
  }

  lemma Exchanged(list: Node, kids: seq<Tree>, k: nat, t: Tree)
    requires k < |kids| && Linked(list.child, ReplaceAt(Roots(kids), k, t.node)) && Are(kids, false) && Apart(kids)
    requires Is(t, false) && ApartIn(t) && OwnedBy(t) !! Owned(kids) && list !in OwnedBy(t) && list !in Owned(kids)
    ensures ListIs(list, kids[k := t])
  {
    hide Is, ApartIn, Nodes, Below, Under, OwnedBy, Owned, Apart;
    PutIn(kids, k, t);
    RootsAreNodes(kids[k := t], false);
    BelowIsInside(kids[k := t], false);
  }
}