/** cJSON's nodes and the doubly linked lists that their children form. */
module JsonNode {
  import opened Bytes

  /** A string on the heap. */
  class Str {
    const text: seq<byte>

    constructor (text: seq<byte>)
      ensures this.text == text
    {
      this.text := text;
    }
  }

  datatype Kind = Invalid | IsNull | IsFalse | IsTrue | IsNumber | IsString | IsArray | IsObject

  /** The type word of a node: its kind and its two flags. */
  datatype Type = Type(kind: Kind, isReference: bool, stringIsConst: bool)

  class Node {
    var next: Node?
    var prev: Node?
    var child: Node?
    var typ: Type
    var number: (int, int)      // mantissa and exponent of the value
    var valuestring: Str?
    var name: Str?

    /** All zero, as cJSON_New_Item leaves it. */
    constructor ()
      ensures next == prev == child == null
      ensures typ == Type(Invalid, false, false) && number == (0, 0) && valuestring == name == null
    {
      next, prev, child := null, null, null;
      typ, number, valuestring, name := Type(Invalid, false, false), (0, 0), null, null;
    }
  }

  // ----- lists of siblings -----

  ghost function At(ns: seq<Node>, i: nat): Node? { if i < |ns| then ns[i] else null }

  /** Following next from `head` meets exactly these nodes and then the end. */
  ghost predicate Nexts(head: Node?, ns: seq<Node>)
    reads ns`next
  {
    head == At(ns, 0) && forall i :: 0 <= i < |ns| ==> ns[i].next == At(ns, i + 1)
  }

  /** The first node has no predecessor and prev undoes next elsewhere. */
  ghost predicate Prevs(ns: seq<Node>)
    reads ns`prev
  {
    forall i :: 0 <= i < |ns| ==> ns[i].prev == Before(ns, i)
  }

  ghost predicate Linked(head: Node?, ns: seq<Node>)
    reads ns`next, ns`prev
  {
    Nexts(head, ns) && Prevs(ns)
  }

  /** A linked list has no cycle: no node occurs twice. */
  lemma {:induction false} NoCycle(head: Node?, ns: seq<Node>, i: nat, j: nat)
    requires Nexts(head, ns) && i < j < |ns|
    ensures ns[i] != ns[j]
    decreases |ns| - j
  {
    if ns[i] == ns[j] && j + 1 < |ns| {
      NoCycle(head, ns, i + 1, j + 1);
    }
  }

  ghost function Before(ns: seq<Node>, i: nat): Node?
    requires i <= |ns|
  {
    if i == 0 then null else ns[i - 1]
  }

  /** Two lists from the same head are the same list. */
  lemma {:induction false} OneList(head: Node?, ns: seq<Node>, ms: seq<Node>)
    requires Nexts(head, ns) && Nexts(head, ms)
    ensures ns == ms
    decreases |ns|
  {
    if ns != [] {
      OneList(ns[0].next, ns[1..], ms[1..]);
      assert ns == [ns[0]] + ns[1..] && ms == [ms[0]] + ms[1..];
    }
  }

  // ----- the operations as functions on sequences -----

  /** A negative position is the first one. */
  function Place(which: int): nat { if which < 0 then 0 else which }

  /** Past the end, inserting is appending. */
  ghost function InsertAt(ns: seq<Node>, k: nat, n: Node): seq<Node> {
    if k < |ns| then ns[..k] + [n] + ns[k..] else ns + [n]
  }

  /** Past the end, there is nothing to detach or to replace. */
  ghost function DetachAt(ns: seq<Node>, k: nat): seq<Node> {
    if k < |ns| then ns[..k] + ns[k + 1..] else ns
  }

  ghost function ReplaceAt(ns: seq<Node>, k: nat, n: Node): seq<Node> {
    if k < |ns| then ns[k := n] else ns
  }

  /** Detaching undoes inserting, and replacing is detaching and inserting. */
  lemma InsertDetachReplace(ns: seq<Node>, k: nat, n: Node)
    ensures DetachAt(InsertAt(ns, k, n), if k < |ns| then k else |ns|) == ns
    ensures k < |ns| ==> ReplaceAt(ns, k, n) == InsertAt(DetachAt(ns, k), k, n)
    ensures k < |ns| ==> InsertAt(DetachAt(ns, k), k, ns[k]) == ns
  {
    var at := if k < |ns| then k else |ns|;
    var inserted := InsertAt(ns, k, n);
    assert inserted[..at] == ns[..at] && inserted[at + 1..] == ns[at..];
    assert ns[..at] + ns[at..] == ns;
    if k < |ns| {
      var rest := DetachAt(ns, k);
      assert rest[..k] == ns[..k] && rest[k..] == ns[k + 1..];
      assert ns[k := n] == ns[..k] + [n] + ns[k + 1..];
      assert ns == ns[..k] + [ns[k]] + ns[k + 1..];
    }
  }

  // ----- the operations -----

  /** The element at a position; without a list there is none. */
  method GetArrayItem(list: Node?, which: int, ghost ns: seq<Node>) returns (c: Node?)
    requires if list == null then ns == [] else Nexts(list.child, ns)
    ensures c == At(ns, Place(which))
  {
    c := if list == null then null else list.child;
    var left := which;
    ghost var i := 0;
    while c != null && left > 0
      invariant i <= |ns| && c == At(ns, i) && i + Place(left) == Place(which)
      decreases |ns| - i
    {
      c := c.next;
      left, i := left - 1, i + 1;
    }
  }

  ghost function Only(item: Node?): set<Node> { if item == null then {} else {item} }

  /** Nodes other than the k-th are other nodes. */
  lemma Others(head: Node?, ns: seq<Node>, k: nat)
    requires Nexts(head, ns) && k < |ns|
    ensures forall i :: 0 <= i < |ns| && i != k ==> ns[i] != ns[k]
  {
    forall i | 0 <= i < |ns| && i != k
      ensures ns[i] != ns[k]
    {
      if i < k {
        NoCycle(head, ns, i, k);
      } else {
        NoCycle(head, ns, k, i);
      }
    }
  }

  /** The nodes around position k are told apart from all others. */
  lemma Neighbours(head: Node?, ns: seq<Node>, k: nat)
    requires Nexts(head, ns) && k < |ns|
    ensures forall i :: 0 <= i < |ns| && i != k ==> ns[i] != ns[k]
    ensures k > 0 ==> forall i :: 0 <= i < |ns| && i != k - 1 ==> ns[i] != ns[k - 1]
    ensures k + 1 < |ns| ==> forall i :: 0 <= i < |ns| && i != k + 1 ==> ns[i] != ns[k + 1]
  {
    Others(head, ns, k);
    if k > 0 {
      Others(head, ns, k - 1);
    }
    if k + 1 < |ns| {
      Others(head, ns, k + 1);
    }
  }

  lemma Appended(head: Node?, ns: seq<Node>, n: Node)
    requires Prevs(ns) && n.prev == Before(ns, |ns|) && n.next == null
    requires head == if ns == [] then n else ns[0]
    requires forall i :: 0 <= i < |ns| - 1 ==> ns[i].next == At(ns, i + 1)
    requires ns != [] ==> ns[|ns| - 1].next == n
    ensures Linked(head, ns + [n])
  {
    var ms := ns + [n];
    forall i | 0 <= i < |ns| - 1
      ensures ms[i].next == At(ms, i + 1)
    {
      assert ms[i] == ns[i];
    }
  }

  lemma Detached(head: Node?, ns: seq<Node>, k: nat)
    requires k < |ns| && head == At(ns, if k == 0 then 1 else 0)
    requires forall i :: 0 <= i < |ns| && i != k && i + 1 != k ==> ns[i].next == At(ns, i + 1)
    requires forall i :: 0 <= i < |ns| && i != k && i != k + 1 ==> ns[i].prev == Before(ns, i)
    requires k > 0 ==> ns[k - 1].next == At(ns, k + 1)
    requires k + 1 < |ns| ==> ns[k + 1].prev == Before(ns, k)
    ensures Linked(head, DetachAt(ns, k))
  {}

  lemma Inserted(head: Node?, ns: seq<Node>, k: nat, n: Node)
    requires k < |ns| && head == if k == 0 then n else ns[0]
    requires forall i :: 0 <= i < |ns| && i + 1 != k ==> ns[i].next == At(ns, i + 1)
    requires forall i :: 0 <= i < |ns| && i != k ==> ns[i].prev == Before(ns, i)
    requires k > 0 ==> ns[k - 1].next == n
    requires ns[k].prev == n && n.next == ns[k] && n.prev == Before(ns, k)
    ensures Linked(head, InsertAt(ns, k, n))
  {}

  lemma Replaced(head: Node?, ns: seq<Node>, k: nat, n: Node)
    requires k < |ns| && head == if k == 0 then n else ns[0]
    requires forall i :: 0 <= i < |ns| && i != k && i + 1 != k ==> ns[i].next == At(ns, i + 1)
    requires forall i :: 0 <= i < |ns| && i != k && i != k + 1 ==> ns[i].prev == Before(ns, i)
    requires k > 0 ==> ns[k - 1].next == n
    requires k + 1 < |ns| ==> ns[k + 1].prev == n
    requires n.next == At(ns, k + 1) && n.prev == Before(ns, k)
    ensures Linked(head, ReplaceAt(ns, k, n))
  {}

  method AddItemToArray(list: Node, item: Node?, ghost ns: seq<Node>)
    requires Linked(list.child, ns)
    requires item != null ==> item !in ns && item.next == item.prev == null
    modifies list`child, ns`next, Only(item)`prev
    ensures item == null ==> list.child == old(list.child) && Linked(list.child, ns)
    ensures item != null ==> Linked(list.child, ns + [item])
  {
    if item == null {
      return;
    }
    var c := list.child;
    if c == null {
      list.child := item;
      Appended(item, ns, item);
      return;
    }
    ghost var i := 0;
    while c.next != null
      invariant i < |ns| && c == ns[i]
      decreases |ns| - i
    {
      c, i := c.next, i + 1;
    }
    Others(list.child, ns, i);
    c.next := item;
    item.prev := c;
    Appended(list.child, ns, item);
  }

  method DetachItemFromArray(list: Node, which: int, ghost ns: seq<Node>) returns (c: Node?)
    requires Linked(list.child, ns)
    modifies list`child, ns`next, ns`prev
    ensures c == At(ns, Place(which)) && Linked(list.child, DetachAt(ns, Place(which)))
    ensures c != null ==> c.next == c.prev == null
    ensures c == null ==> list.child == old(list.child)
  {
    c := GetArrayItem(list, which, ns);
    if c == null {
      return;
    }
    ghost var k := Place(which);
    assert c == ns[k] && c.next == At(ns, k + 1) && c.prev == Before(ns, k);
    Neighbours(list.child, ns, k);
    if c.prev != null {
      c.prev.next := c.next;
    }
    if c.next != null {
      c.next.prev := c.prev;
    }
    if c == list.child {
      list.child := c.next;
    }
    c.prev := null;
    c.next := null;
    Detached(list.child, ns, k);
  }

  method InsertItemInArray(list: Node, which: int, newitem: Node, ghost ns: seq<Node>)
    requires Linked(list.child, ns)
    requires newitem !in ns && newitem.next == newitem.prev == null
    modifies list`child, ns`next, ns`prev, newitem`next, newitem`prev
    ensures Linked(list.child, InsertAt(ns, Place(which), newitem))
  {
    var c := GetArrayItem(list, which, ns);
    if c == null {
      AddItemToArray(list, newitem, ns);
      return;
    }
    ghost var k := Place(which);
    assert c == ns[k] && c.next == At(ns, k + 1) && c.prev == Before(ns, k);
    Neighbours(list.child, ns, k);
    newitem.next := c;
    newitem.prev := c.prev;
    c.prev := newitem;
    if c == list.child {
      list.child := newitem;
    } else {
      newitem.prev.next := newitem;
    }
    Inserted(list.child, ns, k, newitem);
  }

  /** The relinking of cJSON_ReplaceItemInArray, up to deleting the old item. */
  method ExchangeItem(list: Node, which: int, newitem: Node, ghost ns: seq<Node>) returns (c: Node?)
    requires Linked(list.child, ns) && newitem !in ns
    modifies list`child, ns`next, ns`prev, newitem`next, newitem`prev
    ensures c == At(ns, Place(which)) && Linked(list.child, ReplaceAt(ns, Place(which), newitem))
    ensures c != null ==> c.next == c.prev == null
    ensures c == null ==> newitem.next == old(newitem.next) && newitem.prev == old(newitem.prev)
    ensures c == null ==> list.child == old(list.child)
  {
    c := GetArrayItem(list, which, ns);
    if c != null {
      TakePlace(list, c, newitem, ns, Place(which));
      c.next := null;
      c.prev := null;
      Replaced(list.child, ns, Place(which), newitem);
    }
  }

  /** Links a new item where another one was; the old one still points to its neighbours. */
  method TakePlace(list: Node, c: Node, newitem: Node, ghost ns: seq<Node>, ghost k: nat)
    requires Linked(list.child, ns) && newitem !in ns && k < |ns| && c == ns[k]
    modifies list`child, ns`next, ns`prev, newitem`next, newitem`prev
    ensures list.child == if k == 0 then newitem else ns[0]
    ensures newitem.next == At(ns, k + 1) && newitem.prev == Before(ns, k)
    ensures forall i :: 0 <= i < |ns| ==> ns[i].next == if i + 1 == k then newitem else At(ns, i + 1)
    ensures forall i :: 0 <= i < |ns| ==> ns[i].prev == if i == k + 1 then newitem else Before(ns, i)
    ensures forall i :: 0 <= i < |ns| && i != k ==> ns[i] != c
  {
    assert c.next == At(ns, k + 1) && c.prev == Before(ns, k);
    Neighbours(list.child, ns, k);
    newitem.next := c.next;
    newitem.prev := c.prev;
    if newitem.next != null {
      newitem.next.prev := newitem;
    }
    if c == list.child {
      list.child := newitem;
    } else {
      newitem.prev.next := newitem;
    }
  }

  // ----- scripts of operations -----

  datatype Edit =
    | Append(item: Node)
    | Insert(which: int, item: Node)
    | Detach(which: int)
    | Replace(which: int, item: Node)

  ghost function Edited(ns: seq<Node>, e: Edit): seq<Node> {
    match e
    case Append(item) => ns + [item]
    case Insert(which, item) => InsertAt(ns, Place(which), item)
    case Detach(which) => DetachAt(ns, Place(which))
    case Replace(which, item) => ReplaceAt(ns, Place(which), item)
  }

  /** A list after a script. */
  ghost function After(ns: seq<Node>, script: seq<Edit>): seq<Node>
    decreases |script|
  {
    if script == [] then ns else After(Edited(ns, script[0]), script[1..])
  }

  ghost function ItemOf(e: Edit): set<Node> { if e.Detach? then {} else {e.item} }

  ghost function Items(script: seq<Edit>): set<Node> {
    if script == [] then {} else ItemOf(script[0]) + Items(script[1..])
  }

  /** At its turn, an operation uses an item that is not in the list: a new one, or one taken out before. */
  ghost predicate Usable(ns: seq<Node>, script: seq<Edit>)
    decreases |script|
  {
    script == [] || (Outside(ItemOf(script[0]), ns) && Usable(Edited(ns, script[0]), script[1..]))
  }

  ghost predicate Loose(items: set<Node>)
    reads items`next, items`prev
  {
    forall n :: n in items ==> n.next == n.prev == null
  }

  /** The nodes that are not in the list. */
  ghost function Off(items: set<Node>, ns: seq<Node>): set<Node> { set n | n in items && n !in ns }

  ghost predicate Outside(items: set<Node>, ns: seq<Node>) { forall n :: n in items ==> n !in ns }

  /** What a script mentions exists already. */
  lemma {:induction false} ItemsExist(script: seq<Edit>)
    ensures forall n | n in Items(script) :: allocated(n)
  {
    if script != [] {
      var rest := script[1..];
      assert allocated(script[0]) && allocated(rest);
      ItemsExist(rest);
      assert forall n | n in ItemOf(script[0]) :: allocated(n);
    }
  }

  lemma EditedMembers(ns: seq<Node>, e: Edit)
    ensures forall n :: n in Edited(ns, e) ==> n in ns || n in ItemOf(e)
  {}

  ghost function Involved(ns: seq<Node>, e: Edit): set<Node> { (set n | n in ns) + ItemOf(e) }

  /** One operation is the matching one on sequences, and what is not in the list afterwards is detached. */
  method Do(list: Node, e: Edit, ghost ns: seq<Node>)
    requires Linked(list.child, ns) && Loose(ItemOf(e)) && Outside(ItemOf(e), ns)
    modifies list`child, ns`next, ns`prev, ItemOf(e)`next, ItemOf(e)`prev
    ensures Linked(list.child, Edited(ns, e)) && Loose(Off(Involved(ns, e), Edited(ns, e)))
  {
    StaysInList(ns, e);
    match e {
      case Append(item) => AddItemToArray(list, item, ns);
      case Insert(which, item) => InsertItemInArray(list, which, item, ns);
      case Detach(which) => var _ := DetachItemFromArray(list, which, ns);
      case Replace(which, item) => var _ := ExchangeItem(list, which, item, ns);
    }
  }

  /** Who leaves the list: the element that is detached or replaced, or an item that finds no place. */
  lemma StaysInList(ns: seq<Node>, e: Edit)
    ensures e.Append? || e.Insert? ==> Off(Involved(ns, e), Edited(ns, e)) == {}
    ensures e.Detach? || e.Replace? ==>
      var k := Place(e.which);
      forall n :: n in Off(Involved(ns, e), Edited(ns, e)) ==> if k < |ns| then n == ns[k] else n in ItemOf(e)
  {
    var ms := Edited(ns, e);
    forall i | 0 <= i < |ns|
      ensures ns[i] in ms || ((e.Detach? || e.Replace?) && i == Place(e.which))
    {
      KeptNode(ns, e, i);
    }
    assert !e.Detach? && !e.Replace? ==> e.item in ms;
    assert e.Replace? && Place(e.which) < |ns| ==> ms[Place(e.which)] == e.item;
  }

  lemma KeptNode(ns: seq<Node>, e: Edit, i: nat)
    requires i < |ns|
    ensures ns[i] in Edited(ns, e) || ((e.Detach? || e.Replace?) && i == Place(e.which))
  {
    var ms := Edited(ns, e);
    match e {
      case Append(_) => assert ms[i] == ns[i];
      case Insert(which, _) =>
        var k := Place(which);
        assert ns[i] == ms[if k < |ns| && k <= i then i + 1 else i];
      case Detach(which) =>
        var k := Place(which);
        assert i != k ==> ns[i] == ms[if k < |ns| && k < i then i - 1 else i];
      case Replace(which, _) =>
        assert i != Place(which) ==> ns[i] == ms[i];
    }
  }

  /** Any script that uses detached items keeps the doubly linked list and equals the script on sequences; an
      element may be taken out and put back any number of times. */
  method Run(list: Node, script: seq<Edit>, ghost ns: seq<Node>)
    requires Linked(list.child, ns) && Usable(ns, script) && Loose(Off(Items(script), ns))
    modifies list`child, ns`next, ns`prev, Items(script)`next, Items(script)`prev
    ensures Linked(list.child, After(ns, script))
    decreases |script|
  {
    if script != [] {
      ItemsExist(script);
      ItemsSplit(ns, script);
      ghost var ms, idle := Edited(ns, script[0]), Off(Items(script[1..]), ns) - ItemOf(script[0]);
      ghost var out := Off(Involved(ns, script[0]), ms);
      OffAfter(ns, script[0], Items(script[1..]));
      assert Loose(ItemOf(script[0])) && Loose(idle);
      hide Linked, Edited, ItemOf, Items, Outside, Usable, After, Involved, Off;
      Do(list, script[0], ns);
      assert Loose(idle);
      assert Loose(out + idle);
      Run(list, script[1..], ms);
    }
  }

  lemma ItemsSplit(ns: seq<Node>, script: seq<Edit>)
    requires script != [] && Usable(ns, script)
    ensures var e, rest := script[0], Items(script[1..]);
            && Items(script) == ItemOf(e) + rest && Outside(ItemOf(e), ns) && Usable(Edited(ns, e), script[1..])
            && Off(Items(script), ns) == ItemOf(e) + Off(rest, ns)
            && After(ns, script) == After(Edited(ns, e), script[1..])
    ensures forall n :: n in Edited(ns, script[0]) ==> n in ns || n in ItemOf(script[0])
    ensures forall n :: n in Off(Items(script[1..]), ns) - ItemOf(script[0]) ==> n !in ns
  {
    EditedMembers(ns, script[0]);
  }

  /** Items outside the list afterwards either took part in the operation or were outside all along. */
  lemma OffAfter(ns: seq<Node>, e: Edit, items: set<Node>)
    ensures Off(items, Edited(ns, e)) <= Off(Involved(ns, e), Edited(ns, e)) + (Off(items, ns) - ItemOf(e))
  {}
}
