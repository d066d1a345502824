/** Trees of cJSON nodes on the heap: who owns which block, and who frees it. */
module JsonTree {
  import opened Bytes
  import opened JsonNode

  // ----- the allocator -----

  /** Which blocks are allocated, and how often an allocation has failed. */
  class Heap {
    ghost var live: set<object>
    ghost var failures: nat

    constructor ()
      ensures live == {} && failures == 0
    {
      live, failures := {}, 0;
    }

    method NewItem() returns (n: Node?)
      modifies this`live, this`failures
      ensures n == null ==> live == old(live) && failures == old(failures) + 1
      ensures n != null ==> fresh(n) && live == old(live) + {n} && failures == old(failures)
      ensures n != null ==> n.next == n.prev == n.child == null && n.valuestring == n.name == null
      ensures n != null ==> n.typ == Type(Invalid, false, false) && n.number == (0, 0)
    {
      var enough: bool := *;
      if !enough {
        failures := failures + 1;
        return null;
      }
      n := new Node();
      live := live + {n};
    }

    /** Room for a string, and the bytes that will be written to it. */
    method NewStr(text: seq<byte>) returns (s: Str?)
      modifies this`live, this`failures
      ensures s == null ==> live == old(live) && failures == old(failures) + 1
      ensures s != null ==> fresh(s) && s.text == text && live == old(live) + {s} && failures == old(failures)
    {
      var enough: bool := *;
      if !enough {
        failures := failures + 1;
        return null;
      }
      s := new Str(text);
      live := live + {s};
    }

    method FreeStr(s: Str)
      requires s in live
      modifies this`live
      ensures live == old(live) - {s}
    {
      live := live - {s};
    }

    /** Nothing can be said about the fields of a node that has been freed. */
    method FreeNode(n: Node)
      requires n in live
      modifies this`live, n
      ensures live == old(live) - {n}
    {
      n.next, n.prev, n.child := *, *, *;
      n.typ, n.number, n.valuestring, n.name := *, *, *, *;
      live := live - {n};
    }
  }

  // ----- trees -----

  /** What a node holds and which trees hang below it. */
  datatype Tree = Tree(node: Node, typ: Type, number: (int, int), val: Str?, key: Str?, kids: seq<Tree>)

  ghost function Roots(ts: seq<Tree>): seq<Node> { seq(|ts|, i requires 0 <= i < |ts| => ts[i].node) }

  /** The nodes of a forest; behind a reference item only if `deep`. */
  ghost function Nodes(ts: seq<Tree>, deep: bool): set<Node> {
    if ts == [] then {}
    else {ts[0].node} + Under(ts[0], deep) + Nodes(ts[1..], deep)
  }

  ghost function Under(t: Tree, deep: bool): set<Node> {
    if Seen(t, deep) then Nodes(t.kids, deep) else {}
  }

  predicate Seen(t: Tree, deep: bool) { deep || !t.typ.isReference }

  ghost function Below(ts: seq<Tree>, deep: bool): set<Node> {
    if ts == [] then {} else Under(ts[0], deep) + Below(ts[1..], deep)
  }

  /** The heap holds this tree: the node's fields, and its children linked in order. */
  ghost predicate RootIs(t: Tree, deep: bool)
    reads t.node`typ, t.node`number, t.node`valuestring, t.node`name, t.node`child
    reads Under(t, deep)`next, Under(t, deep)`prev
  {
    && t.node.typ == t.typ && t.node.number == t.number && t.node.valuestring == t.val && t.node.name == t.key
    && (Seen(t, deep) ==> (RootsAreUnder(t, deep); Linked(t.node.child, Roots(t.kids))))
  }

  lemma {:induction false} RootsAreNodes(ts: seq<Tree>, deep: bool)
    ensures forall n :: n in Roots(ts) ==> n in Nodes(ts, deep)
  {
    if ts != [] {
      RootsAreNodes(ts[1..], deep);
      assert Roots(ts) == [ts[0].node] + Roots(ts[1..]);
    }
  }

  lemma RootsAreUnder(t: Tree, deep: bool)
    requires deep || !t.typ.isReference
    ensures forall n :: n in Roots(t.kids) ==> n in Under(t, deep)
  {
    RootsAreNodes(t.kids, deep);
  }

  lemma {:induction false} BelowIsInside(ts: seq<Tree>, deep: bool)
    ensures Below(ts, deep) <= Nodes(ts, deep)
  {
    if ts != [] {
      BelowIsInside(ts[1..], deep);
    }
  }

  ghost predicate Are(ts: seq<Tree>, deep: bool)
    reads Nodes(ts, deep)`typ, Nodes(ts, deep)`number, Nodes(ts, deep)`valuestring, Nodes(ts, deep)`name
    reads Nodes(ts, deep)`child
    reads Below(ts, deep)`next, Below(ts, deep)`prev
    decreases ts
  {
    ts == [] ||
    (BelowIsInside(ts, deep); Is(ts[0], deep) && Are(ts[1..], deep))
  }

  ghost predicate Is(t: Tree, deep: bool)
    reads t.node`typ, t.node`number, t.node`valuestring, t.node`name, t.node`child
    reads Under(t, deep)`typ, Under(t, deep)`number, Under(t, deep)`valuestring, Under(t, deep)`name
    reads Under(t, deep)`child
    reads Under(t, deep)`next, Under(t, deep)`prev
    decreases t
  {
    RootIs(t, deep) && (Seen(t, deep) ==> (BelowIsInside(t.kids, deep); Are(t.kids, deep)))
  }

  // ----- ownership -----

  ghost function Block(s: Str?): set<object> { if s == null then {} else {s} }

  /** A constant key belongs to the caller. */
  ghost function KeyBlock(t: Tree): set<object> { if t.typ.stringIsConst then {} else Block(t.key) }

  /** What a node owns apart from itself and its key; a reference item owns neither value nor children. */
  ghost function Contents(t: Tree): set<object>
    decreases t, 0
  {
    if t.typ.isReference then {} else Block(t.val) + Owned(t.kids)
  }

  /** The blocks that deleting these trees has to free. */
  ghost function Owned(ts: seq<Tree>): set<object> {
    if ts == [] then {} else OwnedBy(ts[0]) + Owned(ts[1..])
  }

  ghost function OwnedBy(t: Tree): set<object>
    decreases t, 1
  {
    {t.node} + KeyBlock(t) + Contents(t)
  }

  /** No block belongs to two owners. */
  ghost predicate Apart(ts: seq<Tree>) {
    ts == [] || (ApartIn(ts[0]) && OwnedBy(ts[0]) !! Owned(ts[1..]) && Apart(ts[1..]))
  }

  ghost predicate ApartIn(t: Tree) {
    && t.node !in Contents(t) && KeyBlock(t) !! Contents(t)
    && (!t.typ.isReference ==> Block(t.val) !! Owned(t.kids) && Apart(t.kids))
  }

  ghost predicate NoReferences(ts: seq<Tree>) {
    forall i :: 0 <= i < |ts| ==> !ts[i].typ.isReference && NoReferences(ts[i].kids)
  }

  lemma {:induction false} NodesAreOwned(ts: seq<Tree>)
    ensures Nodes(ts, false) <= Owned(ts)
  {
    if ts != [] {
      NodesAreOwned(ts[0].kids);
      assert Under(ts[0], false) <= Contents(ts[0]);
      NodesAreOwned(ts[1..]);
    }
  }

  lemma UnderIsOwned(t: Tree)
    ensures Under(t, false) <= Contents(t)
  {
    NodesAreOwned(t.kids);
  }

  // ----- deleting -----

  method Delete(heap: Heap, first: Node?, ghost ts: seq<Tree>)
    requires Nexts(first, Roots(ts)) && Are(ts, false) && Apart(ts) && Owned(ts) <= heap.live
    modifies heap`live, Nodes(ts, false)
    ensures heap.live == old(heap.live) - Owned(ts)
    decreases ts
  {
    var c := first;
    ghost var k := 0;
    assert ts[0..] == ts;
    while c != null
      invariant k <= |ts| && Nexts(c, Roots(ts[k..])) && Are(ts[k..], false) && Apart(ts[k..])
      invariant Nodes(ts[k..], false) <= Nodes(ts, false) && Owned(ts[k..]) <= Owned(ts)
      invariant heap.live == old(heap.live) - Owned(ts) + Owned(ts[k..])
      decreases |ts| - k
    {
      ghost var rest := ts[k..];
      NextSibling(c, rest);
      RootsAreNodes(rest[1..], false);
      NodesAreOwned(rest[1..]);
      UnderIsOwned(rest[0]);
      BelowIsInside(rest[1..], false);
      assert rest[1..] == ts[k + 1..] && ts[k] == rest[0];
      hide ApartIn;
      var next := c.next;
      DeleteOne(heap, c, rest[0]);
      c := next;
      k := k + 1;
    }
  }

  lemma NextSibling(c: Node, ts: seq<Tree>)
    requires Nexts(c, Roots(ts))
    ensures ts != [] && c == ts[0].node && Nexts(c.next, Roots(ts[1..]))
  {
    assert c == Roots(ts)[0];
    assert Roots(ts)[1..] == Roots(ts[1..]);
    assert Roots(ts)[0].next == At(Roots(ts), 1);
  }

  /** One node with everything it owns. */
  method DeleteOne(heap: Heap, c: Node, ghost t: Tree)
    requires c == t.node && Is(t, false) && ApartIn(t) && OwnedBy(t) <= heap.live
    modifies heap`live, c, Under(t, false)
    ensures heap.live == old(heap.live) - OwnedBy(t)
    decreases t, 0
  {
    UnderIsOwned(t);
    if !c.typ.isReference && c.child != null {
      Delete(heap, c.child, t.kids);
    } else if !c.typ.isReference {
      assert t.kids == [];
    }
    if !c.typ.isReference && c.valuestring != null {
      heap.FreeStr(c.valuestring);
    }
    if !c.typ.stringIsConst && c.name != null {
      heap.FreeStr(c.name);
    }
    heap.FreeNode(c);
  }

  // ----- growing a forest at its end -----

  /** What a tree mentions exists already, so nothing allocated later is part of it. */
  lemma {:induction false} NodesExist(ts: seq<Tree>, deep: bool)
    ensures forall n | n in Nodes(ts, deep) :: allocated(n)
  {
    if ts != [] {
      match ts[0]
      case Tree(n, _, _, _, _, kids) =>
        var rest := ts[1..];
        assert allocated(ts[0]) && allocated(rest);
        assert allocated(n) && allocated(kids);
        NodesExist(kids, deep);
        NodesExist(rest, deep);
        assert Nodes(ts, deep) == {n} + Under(ts[0], deep) + Nodes(rest, deep);
        assert forall m | m in Under(ts[0], deep) :: allocated(m);
    }
  }

  lemma {:induction false} AppendNodes(ts: seq<Tree>, us: seq<Tree>, deep: bool)
    ensures Nodes(ts + us, deep) == Nodes(ts, deep) + Nodes(us, deep)
    ensures Below(ts + us, deep) == Below(ts, deep) + Below(us, deep)
  {
    if ts == [] {
      assert ts + us == us;
    } else {
      assert (ts + us)[1..] == ts[1..] + us;
      AppendNodes(ts[1..], us, deep);
    }
  }

  lemma {:induction false} AppendOwned(ts: seq<Tree>, us: seq<Tree>)
    ensures Owned(ts + us) == Owned(ts) + Owned(us)
  {
    if ts == [] {
      assert ts + us == us;
    } else {
      assert (ts + us)[1..] == ts[1..] + us;
      AppendOwned(ts[1..], us);
    }
  }

  lemma {:induction false} AppendApart(ts: seq<Tree>, us: seq<Tree>)
    ensures Apart(ts + us) <==> Apart(ts) && Apart(us) && Owned(ts) !! Owned(us)
  {
    hide ApartIn, OwnedBy;
    if ts == [] {
      assert ts + us == us;
    } else {
      assert (ts + us)[1..] == ts[1..] + us;
      AppendApart(ts[1..], us);
      AppendOwned(ts[1..], us);
    }
  }

  lemma {:induction false} AppendAre(ts: seq<Tree>, us: seq<Tree>, deep: bool)
    ensures Are(ts + us, deep) <==> Are(ts, deep) && Are(us, deep)
  {
    hide Is;
    if ts == [] {
      assert ts + us == us;
    } else {
      assert (ts + us)[1..] == ts[1..] + us;
      AppendAre(ts[1..], us, deep);
    }
  }

  /** The link fields of the roots are not among those that the trees depend on. */
  lemma {:induction false} RootsAreNotBelow(ts: seq<Tree>)
    requires Apart(ts)
    ensures forall n :: n in Roots(ts) ==> n !in Below(ts, false)
  {
    if ts != [] {
      RootsAreNotBelow(ts[1..]);
      UnderIsOwned(ts[0]);
      NodesAreOwned(ts[1..]);
      RootsAreNodes(ts[1..], false);
      BelowIsInside(ts[1..], false);
      assert Roots(ts) == [ts[0].node] + Roots(ts[1..]);
    }
  }

  /** A list of complete trees without references, linked under some node. */
  ghost predicate Family(first: Node?, ts: seq<Tree>)
    reads Nodes(ts, false)`typ, Nodes(ts, false)`number, Nodes(ts, false)`valuestring, Nodes(ts, false)`name
    reads Nodes(ts, false)`child, Nodes(ts, false)`next, Nodes(ts, false)`prev
  {
    && (RootsAreNodes(ts, false); Linked(first, Roots(ts)))
    && (BelowIsInside(ts, false); Are(ts, false)) && Apart(ts) && NoReferences(ts)
  }

  lemma RootsOfOne(t: Tree)
    ensures Roots([t]) == [t.node] && Owned([t]) == OwnedBy(t) && Nodes([t], false) == {t.node} + Under(t, false)
    ensures Apart([t]) == ApartIn(t)
  {}

  lemma FamilyGrows(first: Node?, ts: seq<Tree>, t: Tree)
    requires Linked(first, Roots(ts) + [t.node]) && Are(ts, false) && Apart(ts) && NoReferences(ts)
    requires Is(t, false) && ApartIn(t) && NoReferences([t]) && Owned(ts) !! OwnedBy(t)
    ensures Family(first, ts + [t]) && Owned(ts + [t]) == Owned(ts) + OwnedBy(t)
  {
    RootsOfOne(t);
    assert Roots(ts + [t]) == Roots(ts) + [t.node];
    AppendApart(ts, [t]);
    AppendAre(ts, [t], false);
    AppendOwned(ts, [t]);
  }
}
