/** cJSON's parser as it builds nodes on the heap, under any pattern of failing allocations. */
module JsonBuild {
  import opened Wrappers
  import opened Bytes
  import opened JsonValue
  import opened JsonParse
  import opened JsonNode
  import opened JsonTree

  // ----- what a tree of nodes stands for -----

  ghost function TextOf(s: Str?): Text { if s == null then [] else s.text }

  ghost function ValueOf(t: Tree): Json {
    match t.typ.kind
    case IsNull => Null
    case IsFalse => False
    case IsTrue => True
    case IsNumber => Number(t.number.0, t.number.1)
    case IsString => String(TextOf(t.val))
    case IsArray => Array(seq(|t.kids|, i requires 0 <= i < |t.kids| => ValueOf(t.kids[i])))
    case IsObject =>
      Object(seq(|t.kids|, i requires 0 <= i < |t.kids| => Member(TextOf(t.kids[i].key), ValueOf(t.kids[i]))))
    case Invalid => Null
  }

  ghost function ValuesOf(ts: seq<Tree>): seq<Json> {
    seq(|ts|, i requires 0 <= i < |ts| => ValueOf(ts[i]))
  }

  lemma ParentValue(t: Tree)
    ensures t.typ.kind == IsArray ==> ValueOf(t) == Array(ValuesOf(t.kids))
    ensures t.typ.kind == IsObject ==> ValueOf(t) == Object(MembersOf(t.kids))
  {
    if t.typ.kind == IsArray {
      assert ValueOf(t).items == ValuesOf(t.kids);
    }
    if t.typ.kind == IsObject {
      assert ValueOf(t).members == MembersOf(t.kids);
    }
  }

  ghost function MemberOf(t: Tree): Member { Member(TextOf(t.key), ValueOf(t)) }

  ghost function MembersOf(ts: seq<Tree>): seq<Member> {
    seq(|ts|, i requires 0 <= i < |ts| => MemberOf(ts[i]))
  }

  // ----- the state of a loop over elements -----

  /** What the rest of an array's text means after the elements so far. */
  ghost function MoreItems(vs: seq<Json>, t: Text): Parsed<seq<Json>> {
    if Head(t) == COMMA then
      var more := ParseItems(t[1..]);
      if more.Fail? then Fail else Ok(vs + more.value, more.rest)
    else if Head(t) == CLOSE_ARRAY then Ok(vs, t[1..])
    else Fail
  }

  ghost function MoreMembers(ms: seq<Member>, t: Text): Parsed<seq<Member>> {
    if Head(t) == COMMA then
      var more := ParseMembers(t[1..]);
      if more.Fail? then Fail else Ok(ms + more.value, more.rest)
    else if Head(t) == CLOSE_OBJECT then Ok(ms, t[1..])
    else Fail
  }

  lemma NextItem(vs: seq<Json>, t: Text)
    requires Head(t) == COMMA
    ensures var v := ParseValue(Skip(t[1..]));
            MoreItems(vs, t) == if v.Fail? then Fail else MoreItems(vs + [v.value], Skip(v.rest))
  {
    var v := ParseValue(Skip(t[1..]));
    if v.Ok? {
      var u := Skip(v.rest);
      if Head(u) == COMMA {
        var more := ParseItems(u[1..]);
        if more.Ok? {
          assert vs + ([v.value] + more.value) == vs + [v.value] + more.value;
        }
      }
    }
  }

  lemma NoMoreItems(vs: seq<Json>, t: Text)
    requires Head(t) != COMMA
    ensures MoreItems(vs, t) == if Head(t) == CLOSE_ARRAY then Ok(vs, t[1..]) else Fail
  {}

  lemma FirstItem(t: Text)
    ensures var v := ParseValue(Skip(t));
            ParseItems(t) == if v.Fail? then Fail else MoreItems([] + [v.value], Skip(v.rest))
  {
    var v := ParseValue(Skip(t));
    if v.Ok? {
      assert [] + [v.value] == [v.value];
    }
  }

  lemma NextMember(ms: seq<Member>, t: Text)
    requires Head(t) == COMMA
    ensures var m := ParseMember(t[1..]);
            MoreMembers(ms, t) == if m.Fail? then Fail else MoreMembers(ms + [m.value], Skip(m.rest))
  {
    var m := ParseMember(t[1..]);
    if m.Ok? {
      var u := Skip(m.rest);
      if Head(u) == COMMA {
        var more := ParseMembers(u[1..]);
        if more.Ok? {
          assert ms + ([m.value] + more.value) == ms + [m.value] + more.value;
        }
      }
    }
  }

  lemma NoMoreMembers(vs: seq<Member>, t: Text)
    requires Head(t) != COMMA
    ensures MoreMembers(vs, t) == if Head(t) == CLOSE_OBJECT then Ok(vs, t[1..]) else Fail
  {}

  lemma FirstMember(t: Text)
    ensures var m := ParseMember(t);
            ParseMembers(t) == if m.Fail? then Fail else MoreMembers([] + [m.value], Skip(m.rest))
  {
    var m := ParseMember(t);
    if m.Ok? {
      assert [] + [m.value] == [m.value];
    }
  }

  lemma ArrayText(s: Text)
    requires Head(s) == OPEN_ARRAY
    ensures var t := Skip(s[1..]);
            ParseValue(s) ==
            if Head(t) == CLOSE_ARRAY then Ok(Array([]), t[1..])
            else var r := ParseItems(t); if r.Fail? then Fail else Ok(Array(r.value), r.rest)
  {
    hide ParseItems;
  }

  lemma ObjectText(s: Text)
    requires Head(s) == OPEN_OBJECT
    ensures var t := Skip(s[1..]);
            ParseValue(s) ==
            if Head(t) == CLOSE_OBJECT then Ok(Object([]), t[1..])
            else var r := ParseMembers(t); if r.Fail? then Fail else Ok(Object(r.value), r.rest)
  {
    hide ParseMembers;
  }

  // ----- building -----

  /** A node that a parser may fill. */
  ghost predicate Blank(n: Node)
    reads n`child, n`valuestring, n`typ
  {
    n.child == null && n.valuestring == null && !n.typ.isReference && !n.typ.stringIsConst
  }

  /** A tree whose root is this node, without references or constant keys, all blocks apart. */
  ghost predicate Built(t: Tree, n: Node)
    reads n`typ, n`number, n`valuestring, n`name, n`child
    reads Under(t, false)`typ, Under(t, false)`number, Under(t, false)`valuestring, Under(t, false)`name
    reads Under(t, false)`child
    reads Under(t, false)`next, Under(t, false)`prev
  {
    t.node == n && NoReferences([t]) && !t.typ.stringIsConst && Is(t, false) && ApartIn(t)
  }

  lemma NoKids()
    ensures Family(null, []) && LastOf([]) == null && Owned([]) == {} && ValuesOf([]) == [] && MembersOf([]) == []
  {
    RootsAreNodes([], false);
  }

  ghost function Leaf(n: Node): Tree
    reads n
  {
    Tree(n, n.typ, n.number, n.valuestring, n.name, [])
  }

  ghost function Parent(n: Node, kids: seq<Tree>): Tree
    reads n
  {
    Tree(n, n.typ, n.number, null, n.name, kids)
  }

  lemma LeafIsBuilt(n: Node)
    requires n.child == null && !n.typ.isReference && !n.typ.stringIsConst && Block(n.name) !! Block(n.valuestring)
    ensures Built(Leaf(n), n) && Contents(Leaf(n)) == Block(n.valuestring) && KeyBlock(Leaf(n)) == Block(n.name)
  {
    var t := Leaf(n);
    assert Owned(t.kids) == {} && Apart(t.kids);
    assert t.node !in Contents(t);
    assert KeyBlock(t) !! Contents(t);
  }

  lemma ParentIsBuilt(n: Node, kids: seq<Tree>)
    requires Family(n.child, kids) && !n.typ.isReference && !n.typ.stringIsConst && n.valuestring == null
    requires n !in Owned(kids) && Block(n.name) !! Owned(kids)
    ensures Built(Parent(n, kids), n) && Contents(Parent(n, kids)) == Owned(kids)
  {
    RootsAreNodes(kids, false);
    BelowIsInside(kids, false);
  }

  /** A new node at the end of the children of `item`. */
  method NewChild(heap: Heap, item: Node, last: Node?, ghost kids: seq<Tree>) returns (n: Node?)
    requires Family(item.child, kids) && item !in Nodes(kids, false)
    requires last == LastOf(kids)
    modifies heap`live, heap`failures, item`child, Only(last)`next
    ensures n == null ==> heap.live == old(heap.live) && heap.failures > old(heap.failures) && Family(item.child, kids)
    ensures n != null ==> fresh(n) && heap.live == old(heap.live) + {n} && heap.failures == old(heap.failures)
    ensures n != null ==> Blank(n) && n.name == null && n.next == null
    ensures n != null ==> Linked(item.child, Roots(kids) + [n]) && Are(kids, false)
  {
    NodesExist(kids, false);
    BelowIsInside(kids, false);
    hide Is, ApartIn, Nodes, Below, Under, Owned, OwnedBy;
    n := heap.NewItem();
    if n != null {
      Link(item, last, n, kids);
    } else if last == null {
      item.child := null;
      assert kids == [];
    }
  }

  ghost function LastOf(kids: seq<Tree>): Node? { if kids == [] then null else kids[|kids| - 1].node }

  /** The last node of a list is none of those below the roots, and no other root. */
  lemma LastIsApart(first: Node?, kids: seq<Tree>)
    requires Family(first, kids)
    ensures Below(kids, false) <= Nodes(kids, false)
    ensures kids != [] ==>
      var ns := Roots(kids);
      && LastOf(kids) == ns[|ns| - 1] && LastOf(kids) in Nodes(kids, false) && LastOf(kids) !in Below(kids, false)
      && forall i :: 0 <= i < |ns| - 1 ==> ns[i] != LastOf(kids)
  {
    var ns := Roots(kids);
    RootsAreNodes(kids, false);
    BelowIsInside(kids, false);
    RootsAreNotBelow(kids);
    if kids != [] {
      assert ns[|ns| - 1] in ns;
      Others(first, ns, |ns| - 1);
    }
  }

  method Link(item: Node, last: Node?, n: Node, ghost kids: seq<Tree>)
    requires Family(item.child, kids) && item !in Nodes(kids, false)
    requires n !in Nodes(kids, false) && n != item && n.prev == null && n.next == null && last == LastOf(kids)
    modifies item`child, Only(last)`next, n`prev
    ensures n.next == null && Linked(item.child, Roots(kids) + [n]) && Are(kids, false)
  {
    ghost var ns := Roots(kids);
    LastIsApart(item.child, kids);
    RootsAreNodes(kids, false);
    hide Is, Are, Apart, ApartIn, Nodes, Below, Under, Owned, OwnedBy, NoReferences;
    if last == null {
      item.child := n;
    } else {
      last.next := n;
      n.prev := last;
    }
    Appended(item.child, ns, n);
  }

  /** parse_string: the block is tied to its node before it is filled, so that a failure cannot lose it. */
  method ParseStringInto(heap: Heap, item: Node, s: Text) returns (r: Option<Text>)
    requires Blank(item)
    modifies heap`live, heap`failures, item`valuestring, item`typ
    ensures heap.failures >= old(heap.failures)
    ensures fresh(Block(item.valuestring)) && heap.live == old(heap.live) + Block(item.valuestring)
    ensures item.typ == if item.valuestring == null then old(item.typ) else Type(IsString, false, false)
    ensures r.Some? ==> item.valuestring != null && ParseString(s) == Ok(item.valuestring.text, r.value)
    ensures r.None? ==> heap.failures > old(heap.failures) || ParseString(s).Fail?
  {
    r := None;
    if Head(s) != QUOTE {
      return;
    }
    var end := Scan(s[1..]);
    if end.None? {
      return;
    }
    var decoded := Unescape(s[1..][..end.value]);
    var content: Text := *;
    if decoded.Some? {
      content := decoded.value;
    }
    var out := heap.NewStr(content);
    if out == null {
      return;
    }
    item.valuestring := out;
    item.typ := Type(IsString, false, false);
    if decoded.None? {
      return;
    }
    var rest := s[1..][end.value..];
    r := Some(if Head(rest) == QUOTE then rest[1..] else rest);
  }

  /** parse_value: fills a node, and on failure leaves a tree that can still be deleted as a whole. */
  method ParseValueInto(heap: Heap, item: Node, s: Text) returns (r: Option<Text>, ghost t: Tree)
    requires Blank(item) && item in heap.live && Block(item.name) <= heap.live
    modifies heap`live, heap`failures, item`child, item`typ, item`number, item`valuestring
    ensures heap.failures >= old(heap.failures)
    ensures Built(t, item) && t.key == item.name && fresh(Contents(t)) && heap.live == old(heap.live) + Contents(t)
    ensures r.Some? ==> ParseValue(s) == Ok(ValueOf(t), r.value)
    ensures r.None? ==> heap.failures > old(heap.failures) || ParseValue(s).Fail?
    decreases |s|, 1
  {
    if Starts(s, NULL_TEXT) {
      item.typ := Type(IsNull, false, false);
      r := Some(s[4..]);
    } else if Starts(s, FALSE_TEXT) {
      item.typ := Type(IsFalse, false, false);
      r := Some(s[5..]);
    } else if Starts(s, TRUE_TEXT) {
      item.typ := Type(IsTrue, false, false);
      r := Some(s[4..]);
    } else if Head(s) == QUOTE {
      r := ParseStringInto(heap, item, s);
    } else if Head(s) == 45 || IsDigit(Head(s)) {
      var n := ParseNumber(s);
      item.number := (n.0.mantissa, n.0.exponent);
      item.typ := Type(IsNumber, false, false);
      r := Some(n.1);
    } else if Head(s) == OPEN_ARRAY {
      r, t := ParseArrayInto(heap, item, s);
      return;
    } else if Head(s) == OPEN_OBJECT {
      r, t := ParseObjectInto(heap, item, s);
      return;
    } else {
      r := None;
    }
    t := Leaf(item);
    LeafIsBuilt(item);
  }

  /** parse_array. */
  method ParseArrayInto(heap: Heap, item: Node, s: Text) returns (r: Option<Text>, ghost t: Tree)
    requires Blank(item) && item in heap.live && Block(item.name) <= heap.live && Head(s) == OPEN_ARRAY
    modifies heap`live, heap`failures, item`child, item`typ
    ensures heap.failures >= old(heap.failures)
    ensures Built(t, item) && t.key == item.name && fresh(Contents(t)) && heap.live == old(heap.live) + Contents(t)
    ensures r.Some? ==> ParseValue(s) == Ok(ValueOf(t), r.value)
    ensures r.None? ==> heap.failures > old(heap.failures) || ParseValue(s).Fail?
    decreases |s|, 0
  {
    ArrayText(s);
    hide ParseValue, ParseItems, Family, Owned, Built;
    item.typ := Type(IsArray, false, false);
    NoKids();
    var value := Skip(s[1..]);
    ghost var kids := [];
    if Head(value) == CLOSE_ARRAY {
      r := Some(value[1..]);
    } else {
      r, kids := ParseItemsInto(heap, item, value);
    }
    assert Block(item.name) !! Owned(kids);
    ParentIsBuilt(item, kids);
    t := Parent(item, kids);
    ParentValue(t);
  }

  /** The elements of an array, each a new node behind the last. */
  method ParseItemsInto(heap: Heap, item: Node, s: Text) returns (r: Option<Text>, ghost kids: seq<Tree>)
    requires item.child == null && item in heap.live
    modifies heap`live, heap`failures, item`child
    ensures heap.failures >= old(heap.failures)
    ensures Family(item.child, kids) && fresh(Owned(kids)) && heap.live == old(heap.live) + Owned(kids)
    ensures r.Some? ==> ParseItems(s) == Ok(ValuesOf(kids), r.value)
    ensures r.None? ==> heap.failures > old(heap.failures) || ParseItems(s).Fail?
    decreases |s|, 5
  {
    var child: Node?;
    var value: Option<Text>;
    kids := [];
    FirstItem(s);
    NoKids();
    hide ParseValue, ParseMember, ParseItems, MoreItems, Family, Owned, ValuesOf, LastOf, Nodes, NoReferences;
    child, value, kids := ParseNextItem(heap, item, null, s, kids);
    if value.None? {
      return None, kids;
    }
    var t := Skip(value.value);
    while Head(t) == COMMA
      invariant Family(item.child, kids) && fresh(Owned(kids)) && heap.live == old(heap.live) + Owned(kids)
      invariant child != null && fresh(child) && item !in Owned(kids)
      invariant heap.failures >= old(heap.failures) && child == LastOf(kids) && |t| < |s|
      invariant ParseItems(s) == MoreItems(ValuesOf(kids), t)
      decreases |t|
    {
      NextItem(ValuesOf(kids), t);
      child, value, kids := ParseNextItem(heap, item, child, t[1..], kids);
      if value.None? {
        return None, kids;
      }
      t := Skip(value.value);
    }
    NoMoreItems(ValuesOf(kids), t);
    if Head(t) == CLOSE_ARRAY {
      return Some(t[1..]), kids;
    }
    return None, kids;
  }

  /** One more element: a new node, linked before it is filled. */
  method ParseNextItem(heap: Heap, item: Node, last: Node?, s: Text, ghost kids: seq<Tree>)
    returns (n: Node?, r: Option<Text>, ghost more: seq<Tree>)
    requires Family(item.child, kids) && last == LastOf(kids)
    requires item in heap.live && item !in Owned(kids) && Owned(kids) <= heap.live
    modifies heap`live, heap`failures, item`child, Only(last)`next
    ensures heap.failures >= old(heap.failures)
    ensures Family(item.child, more) && n == LastOf(more) && item !in Owned(more)
    ensures r.Some? ==> n != null && fresh(n)
    ensures Owned(kids) <= Owned(more) && fresh(Owned(more) - Owned(kids)) && heap.live == old(heap.live) + Owned(more)
    ensures r.Some? ==>
      var v := ParseValue(Skip(s)); v.Ok? && r.value == v.rest && ValuesOf(more) == ValuesOf(kids) + [v.value]
    ensures r.None? ==> heap.failures > old(heap.failures) || ParseValue(Skip(s)).Fail?
    decreases |s|, 4
  {
    NodesAreOwned(kids);
    n := NewChild(heap, item, last, kids);
    if n == null {
      return last, None, kids;
    }
    r, more := FillItem(heap, item.child, n, s, kids);
  }

  method FillItem(heap: Heap, first: Node, n: Node, s: Text, ghost kids: seq<Tree>)
    returns (r: Option<Text>, ghost more: seq<Tree>)
    requires Linked(first, Roots(kids) + [n]) && Are(kids, false) && Apart(kids) && NoReferences(kids)
    requires Blank(n) && n.name == null && n in heap.live && n !in Owned(kids) && Owned(kids) <= heap.live
    modifies heap`live, heap`failures, n`child, n`typ, n`number, n`valuestring, n`name
    ensures heap.failures >= old(heap.failures)
    ensures Family(first, more) && n == LastOf(more)
    ensures Owned(kids) + {n} <= Owned(more) && fresh(Owned(more) - Owned(kids) - {n})
    ensures heap.live == old(heap.live) + Owned(more)
    ensures r.Some? ==>
      var v := ParseValue(Skip(s)); v.Ok? && r.value == v.rest && ValuesOf(more) == ValuesOf(kids) + [v.value]
    ensures r.None? ==> heap.failures > old(heap.failures) || ParseValue(Skip(s)).Fail?
    decreases |s|, 3
  {
    NodesAreOwned(kids);
    NodesExist(kids, false);
    BelowIsInside(kids, false);
    hide Is, ApartIn, Under, Nodes, Below, ParseValue, Apart, Linked;
    ghost var t;
    r, t := ParseValueInto(heap, n, Skip(s));
    FamilyGrows(first, kids, t);
    more := kids + [t];
  }

  /** parse_object. */
  method ParseObjectInto(heap: Heap, item: Node, s: Text) returns (r: Option<Text>, ghost t: Tree)
    requires Blank(item) && item in heap.live && Block(item.name) <= heap.live && Head(s) == OPEN_OBJECT
    modifies heap`live, heap`failures, item`child, item`typ
    ensures heap.failures >= old(heap.failures)
    ensures Built(t, item) && t.key == item.name && fresh(Contents(t)) && heap.live == old(heap.live) + Contents(t)
    ensures r.Some? ==> ParseValue(s) == Ok(ValueOf(t), r.value)
    ensures r.None? ==> heap.failures > old(heap.failures) || ParseValue(s).Fail?
    decreases |s|, 0
  {
    ObjectText(s);
    hide ParseValue, ParseMembers, Family, Owned, Built;
    item.typ := Type(IsObject, false, false);
    NoKids();
    var value := Skip(s[1..]);
    ghost var kids := [];
    if Head(value) == CLOSE_OBJECT {
      r := Some(value[1..]);
    } else {
      r, kids := ParseMembersInto(heap, item, value);
    }
    assert Block(item.name) !! Owned(kids);
    ParentIsBuilt(item, kids);
    t := Parent(item, kids);
    ParentValue(t);
  }

  /** The members of an object, each a new node behind the last. */
  method ParseMembersInto(heap: Heap, item: Node, s: Text) returns (r: Option<Text>, ghost kids: seq<Tree>)
    requires item.child == null && item in heap.live
    modifies heap`live, heap`failures, item`child
    ensures heap.failures >= old(heap.failures)
    ensures Family(item.child, kids) && fresh(Owned(kids)) && heap.live == old(heap.live) + Owned(kids)
    ensures r.Some? ==> ParseMembers(s) == Ok(MembersOf(kids), r.value)
    ensures r.None? ==> heap.failures > old(heap.failures) || ParseMembers(s).Fail?
    decreases |s|, 5
  {
    var child: Node?;
    var value: Option<Text>;
    kids := [];
    FirstMember(s);
    NoKids();
    hide ParseValue, ParseMember, ParseMembers, ParseString, MoreMembers;
    hide Family, Owned, MembersOf, LastOf, Nodes, NoReferences;
    child, value, kids := ParseNextMember(heap, item, null, s, kids);
    if value.None? {
      return None, kids;
    }
    var t := Skip(value.value);
    while Head(t) == COMMA
      invariant Family(item.child, kids) && fresh(Owned(kids)) && heap.live == old(heap.live) + Owned(kids)
      invariant child != null && fresh(child) && item !in Owned(kids)
      invariant heap.failures >= old(heap.failures) && child == LastOf(kids) && |t| < |s|
      invariant ParseMembers(s) == MoreMembers(MembersOf(kids), t)
      decreases |t|
    {
      NextMember(MembersOf(kids), t);
      child, value, kids := ParseNextMember(heap, item, child, t[1..], kids);
      if value.None? {
        return None, kids;
      }
      t := Skip(value.value);
    }
    NoMoreMembers(MembersOf(kids), t);
    if Head(t) == CLOSE_OBJECT {
      return Some(t[1..]), kids;
    }
    return None, kids;
  }

  method ParseNextMember(heap: Heap, item: Node, last: Node?, s: Text, ghost kids: seq<Tree>)
    returns (n: Node?, r: Option<Text>, ghost more: seq<Tree>)
    requires Family(item.child, kids) && last == LastOf(kids)
    requires item in heap.live && item !in Owned(kids) && Owned(kids) <= heap.live
    modifies heap`live, heap`failures, item`child, Only(last)`next
    ensures heap.failures >= old(heap.failures)
    ensures Family(item.child, more) && n == LastOf(more) && item !in Owned(more)
    ensures r.Some? ==> n != null && fresh(n)
    ensures Owned(kids) <= Owned(more) && fresh(Owned(more) - Owned(kids)) && heap.live == old(heap.live) + Owned(more)
    ensures r.Some? ==>
      var m := ParseMember(s); m.Ok? && r.value == m.rest && MembersOf(more) == MembersOf(kids) + [m.value]
    ensures r.None? ==> heap.failures > old(heap.failures) || ParseMember(s).Fail?
    decreases |s|, 4
  {
    NodesAreOwned(kids);
    n := NewChild(heap, item, last, kids);
    if n == null {
      return last, None, kids;
    }
    r, more := FillMember(heap, item.child, n, s, kids);
  }

  method FillMember(heap: Heap, first: Node, n: Node, s: Text, ghost kids: seq<Tree>)
    returns (r: Option<Text>, ghost more: seq<Tree>)
    requires Linked(first, Roots(kids) + [n]) && Are(kids, false) && Apart(kids) && NoReferences(kids)
    requires Blank(n) && n.name == null && n in heap.live && n !in Owned(kids) && Owned(kids) <= heap.live
    modifies heap`live, heap`failures, n`child, n`typ, n`number, n`valuestring, n`name
    ensures heap.failures >= old(heap.failures)
    ensures Family(first, more) && n == LastOf(more)
    ensures Owned(kids) + {n} <= Owned(more) && fresh(Owned(more) - Owned(kids) - {n})
    ensures heap.live == old(heap.live) + Owned(more)
    ensures r.Some? ==>
      var v := ParseMember(s); v.Ok? && r.value == v.rest && MembersOf(more) == MembersOf(kids) + [v.value]
    ensures r.None? ==> heap.failures > old(heap.failures) || ParseMember(s).Fail?
    decreases |s|, 3
  {
    NodesAreOwned(kids);
    NodesExist(kids, false);
    BelowIsInside(kids, false);
    hide Is, ApartIn, Under, Nodes, Below, ParseMember, Apart, Linked;
    ghost var t;
    r, t := ParseMemberInto(heap, n, s);
    FamilyGrows(first, kids, t);
    more := kids + [t];
  }

  /** A key, a colon and a value: the key's block moves from the value to the name. */
  method ParseMemberInto(heap: Heap, item: Node, s: Text) returns (r: Option<Text>, ghost t: Tree)
    requires Blank(item) && item.name == null && item in heap.live
    modifies heap`live, heap`failures, item`child, item`typ, item`number, item`valuestring, item`name
    ensures heap.failures >= old(heap.failures)
    ensures Built(t, item) && fresh(Contents(t) + KeyBlock(t))
    ensures heap.live == old(heap.live) + Contents(t) + KeyBlock(t)
    ensures r.Some? ==> ParseMember(s) == Ok(MemberOf(t), r.value)
    ensures r.None? ==> heap.failures > old(heap.failures) || ParseMember(s).Fail?
    decreases |s|, 2
  {
    r := ParseStringInto(heap, item, Skip(s));
    if r.None? {
      t := Leaf(item);
      LeafIsBuilt(item);
      return;
    }
    item.name := item.valuestring;
    item.valuestring := null;
    var rest := Skip(r.value);
    if Head(rest) != COLON {
      r := None;
      t := Leaf(item);
      LeafIsBuilt(item);
      return;
    }
    r, t := ParseValueInto(heap, item, Skip(rest[1..]));
  }

  // ----- whole documents -----

  /** cJSON_ParseWithOpts: a tree for the text, or nothing allocated at all. */
  method ParseWithOpts(heap: Heap, s: Text, requireEnd: bool) returns (c: Node?, end: Text, ghost trees: seq<Tree>)
    modifies heap`live, heap`failures
    ensures c == null ==> heap.live == old(heap.live)
    ensures c == null ==> heap.failures > old(heap.failures) || ParseDocument(s, requireEnd).Fail?
    ensures c != null ==> |trees| == 1 && Built(trees[0], c) && c.next == c.prev == null && c.name == null
    ensures c != null ==> fresh(Owned(trees)) && heap.live == old(heap.live) + Owned(trees)
    ensures c != null ==> ParseDocument(s, requireEnd) == Ok(ValueOf(trees[0]), end)
  {
    end, trees := s, [];
    c := heap.NewItem();
    if c == null {
      return;
    }
    ghost var t;
    var r;
    r, t := ParseValueInto(heap, c, Skip(s));
    trees := [t];
    RootsOfOne(t);
    NodesAreOwned(trees);
    hide ParseValue, Is, ApartIn, Nodes, Under, Contents;
    var accepted := r.Some?;
    if accepted {
      end := r.value;
      if requireEnd {
        end := Skip(end);
        accepted := Head(end) == 0;
      }
    }
    if !accepted {
      Delete(heap, c, trees);
      c := null;
    }
  }
}
