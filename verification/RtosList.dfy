/** The kernel's circular doubly linked list: items threaded on a ring with an end marker,
    an index that walks round it and an item count. */
module RtosList {

  const MAX_DELAY: nat := 0xFFFF_FFFF

  class Item {
    var value: nat
    var next: Item?
    var prev: Item?
    var list: List?

    constructor (v: nat)
      ensures value == v && list == null
    {
      value, next, prev, list := v, null, null, null;
    }
  }

  /** Neighbours on a ring of n nodes. */
  function After(i: nat, n: nat): nat
    requires i < n
  {
    if i + 1 < n then i + 1 else 0
  }

  function Before(i: nat, n: nat): nat
    requires i < n
  {
    if i > 0 then i - 1 else n - 1
  }

  ghost predicate Distinct(s: seq<Item>) {
    forall i, j :: 0 <= i < j < |s| ==> s[i] != s[j]
  }

  /** The links of the nodes run through the sequence and close at its end, both ways. */
  ghost predicate Ring(s: seq<Item>)
    reads s`next, s`prev
  {
    && Distinct(s)
    && (forall i {:trigger s[i].next} :: 0 <= i < |s| ==> s[i].next == s[After(i, |s|)])
    && (forall i {:trigger s[i].prev} :: 0 <= i < |s| ==> s[i].prev == s[Before(i, |s|)])
  }

  function InsertAt<T>(s: seq<T>, k: nat, x: T): seq<T>
    requires k <= |s|
  {
    s[..k] + [x] + s[k..]
  }

  function RemoveAt<T>(s: seq<T>, k: nat): seq<T>
    requires k < |s|
  {
    s[..k] + s[k + 1..]
  }

  /** Where vListInsert places a value: behind everything that is not larger, and at the very end
      for a value equal to that of the end marker. */
  function Spot(vals: seq<nat>, v: nat): (k: nat)
    ensures k <= |vals|
  {
    if v == MAX_DELAY then |vals|
    else if vals == [] || vals[0] > v then 0
    else 1 + Spot(vals[1..], v)
  }

  lemma {:induction false} SpotIs(vals: seq<nat>, v: nat, k: nat)
    requires v != MAX_DELAY && k <= |vals|
    requires forall i :: 0 <= i < k ==> vals[i] <= v
    requires k < |vals| ==> vals[k] > v
    ensures Spot(vals, v) == k
  {
    if k > 0 {
      assert forall i :: 0 <= i < k - 1 ==> vals[1..][i] == vals[i + 1];
      assert k < |vals| ==> vals[1..][k - 1] == vals[k];
      SpotIs(vals[1..], v, k - 1);
    }
  }

  lemma SpotLast(vals: seq<nat>)
    ensures Spot(vals, MAX_DELAY) == |vals|
  {
  }

  /** The node at a position and its neighbours. */
  lemma RingAt(s: seq<Item>, i: nat)
    requires Ring(s) && i < |s|
    ensures s[i].next == s[After(i, |s|)] && s[i].prev == s[Before(i, |s|)]
    ensures s[i].next.prev == s[i] && s[i].prev.next == s[i]
  {
    var a, b := After(i, |s|), Before(i, |s|);
    assert s[a].prev == s[Before(a, |s|)] && s[b].next == s[After(b, |s|)];
  }

  lemma RingDistinct(s: seq<Item>)
    requires Ring(s)
    ensures Distinct(s)
  {
  }

  /** A ring apart from the next link at a and the prev link at b. */
  ghost predicate RingBut(s: seq<Item>, a: nat, b: nat)
    reads s`next, s`prev
  {
    && Distinct(s)
    && (forall i {:trigger s[i].next} :: 0 <= i < |s| && i != a ==> s[i].next == s[After(i, |s|)])
    && (forall i {:trigger s[i].prev} :: 0 <= i < |s| && i != b ==> s[i].prev == s[Before(i, |s|)])
  }

  lemma InsertIndex<T>(s: seq<T>, k: nat, x: T, i: nat)
    requires k <= |s| && i <= |s|
    ensures InsertAt(s, k, x)[i] == if i < k then s[i] else if i == k then x else s[i - 1]
  {
  }

  lemma RemoveIndex<T>(s: seq<T>, k: nat, i: nat)
    requires k < |s| && i < |s| - 1
    ensures RemoveAt(s, k)[i] == if i < k then s[i] else s[i + 1]
  {
  }

  lemma InsertDistinct(s: seq<Item>, k: nat, x: Item)
    requires k <= |s| && x !in s && Distinct(s)
    ensures Distinct(InsertAt(s, k, x))
  {
  }

  lemma RemoveDistinct(s: seq<Item>, k: nat)
    requires k < |s| && Distinct(s)
    ensures Distinct(RemoveAt(s, k))
  {
  }

  /** Linking x between the nodes at k - 1 and k makes the ring with x at position k. */
  lemma LinkedIn(s: seq<Item>, k: nat, x: Item)
    requires 1 <= k <= |s| && x !in s && RingBut(s, k - 1, After(k - 1, |s|))
    requires x.prev == s[k - 1] && x.next == s[After(k - 1, |s|)]
    requires s[k - 1].next == x && s[After(k - 1, |s|)].prev == x
    ensures Ring(InsertAt(s, k, x))
  {
    hide InsertAt;
    hide Distinct;
    var r := InsertAt(s, k, x);
    InsertLength(s, k, x);
    InsertDistinct(s, k, x);
    forall i | 0 <= i < |r|
      ensures r[i].next == r[After(i, |r|)] && r[i].prev == r[Before(i, |r|)]
    {
      InsertIndex(s, k, x, i);
      InsertIndex(s, k, x, After(i, |r|));
      InsertIndex(s, k, x, Before(i, |r|));
    }
  }

  lemma InsertLength<T>(s: seq<T>, k: nat, x: T)
    requires k <= |s|
    ensures |InsertAt(s, k, x)| == |s| + 1
  {
  }

  lemma RemoveLength<T>(s: seq<T>, k: nat)
    requires k < |s|
    ensures |RemoveAt(s, k)| == |s| - 1
  {
  }

  /** Linking the neighbours of the node at k makes the ring without it. */
  lemma LinkedOut(s: seq<Item>, k: nat)
    requires 1 <= k < |s| && RingBut(s, k - 1, After(k, |s|))
    requires s[k - 1].next == s[After(k, |s|)] && s[After(k, |s|)].prev == s[k - 1]
    ensures Ring(RemoveAt(s, k))
  {
    hide RemoveAt;
    hide Distinct;
    var r := RemoveAt(s, k);
    RemoveLength(s, k);
    RemoveDistinct(s, k);
    forall i | 0 <= i < |r|
      ensures r[i].next == r[After(i, |r|)] && r[i].prev == r[Before(i, |r|)]
    {
      RemoveIndex(s, k, i);
      RemoveIndex(s, k, After(i, |r|));
      RemoveIndex(s, k, Before(i, |r|));
    }
  }

  /** The end marker comes first and has the largest value; the items know their list. */
  ghost predicate Members(s: seq<Item>, l: List)
    requires |s| > 0
    reads s`value, s`list
  {
    s[0].value == MAX_DELAY && forall i :: 1 <= i < |s| ==> s[i].list == l && s[i].value <= MAX_DELAY
  }

  ghost function SeqValues(s: seq<Item>): (r: seq<nat>)
    reads s`value
    ensures |r| == |s|
  {
    if s == [] then [] else [s[0].value] + SeqValues(s[1..])
  }

  lemma {:induction false} SeqValuesAt(s: seq<Item>)
    ensures |SeqValues(s)| == |s| && forall i :: 0 <= i < |s| ==> SeqValues(s)[i] == s[i].value
  {
    if s != [] { SeqValuesAt(s[1..]); }
  }

  /** The values of the items, without the end marker. */
  ghost function ItemValues(s: seq<Item>): (r: seq<nat>)
    requires |s| > 0
    reads s`value
    ensures |r| == |s| - 1
  {
    SeqValues(s[1..])
  }

  lemma ItemValuesAt(s: seq<Item>)
    requires |s| > 0
    ensures |ItemValues(s)| == |s| - 1 && forall i :: 0 <= i < |s| - 1 ==> ItemValues(s)[i] == s[i + 1].value
  {
    SeqValuesAt(s[1..]);
  }

  lemma InsertValue(s: seq<Item>, k: nat, x: Item)
    requires 1 <= k <= |s|
    ensures |InsertAt(s, k, x)| == |s| + 1 && |ItemValues(s)| == |s| - 1
    ensures ItemValues(InsertAt(s, k, x)) == InsertAt(ItemValues(s), k - 1, x.value)
  {
    hide ItemValues;
    ItemValuesAt(s);
    ItemValuesAt(InsertAt(s, k, x));
  }

  lemma RemoveValue(s: seq<Item>, k: nat)
    requires 1 <= k < |s|
    ensures |RemoveAt(s, k)| == |s| - 1 && |ItemValues(s)| == |s| - 1
    ensures ItemValues(RemoveAt(s, k)) == RemoveAt(ItemValues(s), k - 1)
  {
    hide ItemValues;
    ItemValuesAt(s);
    ItemValuesAt(RemoveAt(s, k));
  }

  lemma InsertMember(s: seq<Item>, k: nat, x: Item, l: List)
    requires 1 <= k <= |s| && Members(s, l) && x.list == l && x.value <= MAX_DELAY
    ensures |InsertAt(s, k, x)| == |s| + 1 && Members(InsertAt(s, k, x), l)
  {
  }

  lemma RemoveMember(s: seq<Item>, k: nat, l: List)
    requires 1 <= k < |s| && Members(s, l) && Distinct(s)
    ensures |RemoveAt(s, k)| == |s| - 1 && Members(RemoveAt(s, k), l) && s[k] !in RemoveAt(s, k)
  {
  }

  class List {
    const end: Item
    var index: Item
    var count: nat
    ghost var nodes: seq<Item>   // the end marker, then the items in ring order
    ghost var at: nat            // position of index

    ghost predicate Valid()
      reads this, nodes
    {
      && |nodes| > 0 && nodes[0] == end && Ring(nodes)
      && at < |nodes| && index == nodes[at]
      && count == |nodes| - 1
      && Members(nodes, this)
    }

    ghost function Values(): (r: seq<nat>)
      requires |nodes| > 0
      reads this, nodes
      ensures |r| == |nodes| - 1
    {
      ItemValues(nodes)
    }

    constructor ()
      ensures Valid() && nodes == [end] && at == 0 && fresh(end)
    {
      var e := new Item(MAX_DELAY);
      e.next, e.prev := e, e;
      end := e;
      index := e;
      count := 0;
      nodes := [e];
      at := 0;
    }

    /** vListInsertEnd: in front of the index. */
    method InsertEnd(x: Item)
      requires Valid() && x !in nodes && x.value <= MAX_DELAY
      modifies this, nodes, x
      ensures Valid() && index == old(index) && x.value == old(x.value)
      ensures nodes == InsertAt(old(nodes), old(if at == 0 then |nodes| else at), x)
      ensures Rotation(nodes, at) == old(Rotation(nodes, at)) + [x]
    {
      hide Ring;
      hide Members;
      hide InsertAt;
      hide Rotation;
      ghost var k := if at == 0 then |nodes| else at;
      RingAt(nodes, at);
      LinkBefore(nodes, k, index, x);
      InsertEndIsVisitedLast(nodes, at, x);
      Adopt(x, k);
    }

    /** The linked item becomes a member. */
    method Adopt(x: Item, ghost k: nat)
      requires 1 <= k <= |nodes| && nodes[0] == end && at < |nodes| && index == nodes[at] && count == |nodes| - 1
      requires Members(nodes, this) && x.value <= MAX_DELAY && x !in nodes && Ring(InsertAt(nodes, k, x))
      modifies this, x`list
      ensures Valid() && nodes == InsertAt(old(nodes), k, x) && index == old(index)
      ensures at == if old(at) < k then old(at) else old(at) + 1
      ensures Values() == InsertAt(old(Values()), k - 1, x.value)
    {
      hide ItemValues;
      hide Ring;
      hide Members;
      hide InsertAt;
      x.list := this;
      count := count + 1;
      InsertMember(nodes, k, x, this);
      InsertValue(nodes, k, x);
      InsertIndex(nodes, k, x, 0);
      InsertIndex(nodes, k, x, if at < k then at else at + 1);
      nodes := InsertAt(nodes, k, x);
      at := if at < k then at else at + 1;
    }

    /** vListInsert: search from the end marker, then link behind the place found. */
    method Insert(x: Item)
      requires Valid() && x !in nodes && x.value <= MAX_DELAY
      modifies this, nodes, x
      ensures Valid() && index == old(index) && x.value == old(x.value)
      ensures nodes == InsertAt(old(nodes), 1 + Spot(old(Values()), old(x.value)), x)
      ensures Values() == InsertAt(old(Values()), Spot(old(Values()), x.value), x.value)
      ensures Sorted(old(Values())) ==> Sorted(Values())
    {
      hide Ring;
      hide Spot;
      hide Members;
      hide InsertAt;
      hide ItemValues;
      hide Distinct;
      hide SeqValues;
      hide Sorted;
      var it, k := Place(x.value);
      SortedInsert(nodes, x.value, this);
      LinkBehind(nodes, k + 1, it, x);
      Adopt(x, k + 1);
    }

    method Place(v: nat) returns (it: Item, ghost k: nat)
      requires Valid() && v <= MAX_DELAY
      ensures k < |nodes| && it == nodes[k] && k == Spot(Values(), v)
    {
      hide Ring;
      hide Spot;
      if v == MAX_DELAY {
        RingAt(nodes, 0);
        SpotLast(Values());
        it, k := end.prev, |nodes| - 1;
      } else {
        it, k := Search(v);
      }
    }

    method Search(v: nat) returns (it: Item, ghost k: nat)
      requires Valid() && v < MAX_DELAY
      ensures k < |nodes| && it == nodes[k] && k == Spot(Values(), v)
    {
      hide Ring;
      it, k := end, 0;
      RingAt(nodes, 0);
      while it.next.value <= v
        invariant k < |nodes| && it == nodes[k] && it.next == nodes[After(k, |nodes|)]
        invariant forall i :: 1 <= i <= k ==> nodes[i].value <= v
        decreases |nodes| - k
      {
        it := it.next;
        k := k + 1;
        RingAt(nodes, k);
      }
      ItemValuesAt(nodes);
      SpotIs(Values(), v, k);
    }

    /** The item k places behind the head. */
    method ItemAt(k: nat) returns (x: Item)
      requires Valid() && k + 1 < |nodes|
      ensures x == nodes[k + 1]
    {
      hide Ring;
      RingAt(nodes, 0);
      x := end.next;
      for i := 0 to k
        invariant i + 1 < |nodes| && x == nodes[i + 1]
      {
        RingAt(nodes, i + 1);
        x := x.next;
      }
    }

    /** uxListRemove. */
    method Remove(x: Item, ghost k: nat) returns (left: nat)
      requires Valid() && 1 <= k < |nodes| && x == nodes[k]
      modifies this, nodes
      ensures Valid() && left == count == old(count) - 1
      ensures nodes == RemoveAt(old(nodes), k) && x.list == null
      ensures Values() == RemoveAt(old(Values()), k - 1)
      ensures Sorted(old(Values())) ==> Sorted(Values())
      ensures index == if old(index) == x then old(x.prev) else old(index)
    {
      hide Ring;
      hide Members;
      hide RemoveAt;
      hide ItemValues;
      hide Distinct;
      hide Sorted;
      SortedRemove(Values(), k - 1);
      RingAt(nodes, k);
      RingDistinct(nodes);
      assert index == x <==> at == k by { DistinctFrom(nodes, k); }
      RemoveIndex(nodes, k, if at >= k then at - 1 else at);
      Unlink(nodes, k, x);
      if index == x {
        index := x.prev;
      }
      Release(x, k);
      left := count;
    }

    /** The unlinked item is no member any more. */
    method Release(x: Item, ghost k: nat)
      requires 1 <= k < |nodes| && x == nodes[k] && nodes[0] == end && count == |nodes| - 1 && at < |nodes|
      requires Members(nodes, this) && Distinct(nodes) && Ring(RemoveAt(nodes, k))
      requires index == RemoveAt(nodes, k)[if at >= k then at - 1 else at]
      modifies this, x`list
      ensures Valid() && nodes == RemoveAt(old(nodes), k) && index == old(index)
      ensures count == old(count) - 1 && x.list == null
      ensures Values() == RemoveAt(old(Values()), k - 1)
    {
      hide Ring;
      hide Members;
      hide RemoveAt;
      hide ItemValues;
      hide Distinct;
      RemoveIndex(nodes, k, 0);
      RemoveMember(nodes, k, this);
      x.list := null;
      RemoveValue(nodes, k);
      count := count - 1;
      nodes := RemoveAt(nodes, k);
      at := if at >= k then at - 1 else at;
    }
  }

  /** A sorted list stays sorted by an insertion at the place found. */
  lemma SortedInsert(s: seq<Item>, v: nat, l: List)
    requires |s| > 0 && Members(s, l) && v <= MAX_DELAY
    ensures Sorted(ItemValues(s)) ==> Sorted(InsertAt(ItemValues(s), Spot(ItemValues(s), v), v))
  {
    hide ItemValues;
    ItemValuesAt(s);
    var vals := ItemValues(s);
    if Sorted(vals) {
      SpotDivides(vals, v);
      PlaceSorted(vals, Spot(vals, v), v);
    }
  }

  lemma PlaceSorted(vals: seq<nat>, k: nat, v: nat)
    requires Sorted(vals) && k <= |vals|
    requires (forall i :: 0 <= i < k ==> vals[i] <= v) && forall i :: k <= i < |vals| ==> vals[i] > v
    ensures Sorted(InsertAt(vals, k, v))
  {
  }

  lemma SortedRemove(vals: seq<nat>, k: nat)
    requires k < |vals|
    ensures Sorted(vals) ==> Sorted(RemoveAt(vals, k))
  {
  }

  lemma DistinctFrom(s: seq<Item>, a: nat)
    requires Ring(s) && a < |s|
    ensures forall i :: 0 <= i < |s| && i != a ==> s[i] != s[a]
  {
  }

  /** The four link updates of vListInsertEnd, x going in front of the node `at`. */
  method LinkBefore(ghost s: seq<Item>, ghost k: nat, at: Item, x: Item)
    requires Ring(s) && 1 <= k <= |s| && x !in s && at == s[After(k - 1, |s|)]
    modifies s`next, s`prev, x`next, x`prev
    ensures Ring(InsertAt(s, k, x))
  {
    hide Distinct;
    RingAt(s, k - 1);
    DistinctFrom(s, k - 1);
    DistinctFrom(s, After(k - 1, |s|));
    x.next := at;
    x.prev := at.prev;
    at.prev.next := x;
    at.prev := x;
    LinkedIn(s, k, x);
  }

  /** The four link updates of vListInsert, x going behind the node `it`. */
  method LinkBehind(ghost s: seq<Item>, ghost k: nat, it: Item, x: Item)
    requires Ring(s) && 1 <= k <= |s| && x !in s && it == s[k - 1]
    modifies s`next, s`prev, x`next, x`prev
    ensures Ring(InsertAt(s, k, x))
  {
    hide Distinct;
    RingAt(s, k - 1);
    DistinctFrom(s, k - 1);
    DistinctFrom(s, After(k - 1, |s|));
    x.next := it.next;
    x.next.prev := x;
    x.prev := it;
    it.next := x;
    LinkedIn(s, k, x);
  }

  /** The two link updates of uxListRemove. */
  method Unlink(ghost s: seq<Item>, ghost k: nat, x: Item)
    requires Ring(s) && 1 <= k < |s| && x == s[k]
    modifies s`next, s`prev
    ensures Ring(RemoveAt(s, k)) && x.prev == old(x.prev)
  {
    hide Distinct;
    RingAt(s, k);
    RingAt(s, k - 1);
    DistinctFrom(s, k - 1);
    DistinctFrom(s, After(k, |s|));
    x.next.prev := x.prev;
    x.prev.next := x.next;
    LinkedOut(s, k);
  }

  // ---- Fairness of the index ----

  /** The items in the order the index visits them before it is back where it is. */
  function Rotation<T>(s: seq<T>, at: nat): seq<T>
    requires at < |s|
  {
    s[at + 1..] + s[..at]
  }

  /** The j-th item visited is j + 1 places further round the ring. */
  lemma RotationAt<T>(s: seq<T>, at: nat, j: nat)
    requires at < |s| && j < |s| - 1
    ensures var n := at + 1 + j;
            |Rotation(s, at)| == |s| - 1 && Rotation(s, at)[j] == s[if n < |s| then n else n - |s|]
  {
  }

  /** An item put in by vListInsertEnd is the last the index reaches. */
  lemma InsertEndIsVisitedLast<T>(s: seq<T>, at: nat, x: T)
    requires at < |s|
    ensures Rotation(InsertAt(s, if at == 0 then |s| else at, x), if at == 0 then 0 else at + 1) == Rotation(s, at) + [x]
  {
    if at > 0 {
      var r := InsertAt(s, at, x);
      assert r[at + 2..] == s[at + 1..];
      assert r[..at + 1] == s[..at] + [x];
    }
  }

  // ---- Order over whole runs ----

  /** An item value with the time of its insertion. */
  datatype Stamped = Stamped(value: nat, stamp: nat)

  datatype Op = InsertOp(v: nat) | RemoveOp(k: nat)

  function Vals(s: seq<Stamped>): seq<nat> {
    seq(|s|, i requires 0 <= i < |s| => s[i].value)
  }

  /** What vListInsert and uxListRemove do to the item sequence. */
  function Apply(s: seq<Stamped>, op: Op, now: nat): seq<Stamped> {
    match op
    case InsertOp(v) => InsertAt(s, Spot(Vals(s), v), Stamped(v, now))
    case RemoveOp(k) => if k < |s| then RemoveAt(s, k) else s
  }

  function Run(ops: seq<Op>): seq<Stamped> {
    if ops == [] then [] else Apply(Run(ops[..|ops| - 1]), ops[|ops| - 1], |ops| - 1)
  }

  predicate Earlier(a: Stamped, b: Stamped) {
    a.value < b.value || (a.value == b.value && a.stamp < b.stamp)
  }

  ghost predicate Ordered(s: seq<Stamped>, now: nat) {
    && (forall i, j :: 0 <= i < j < |s| ==> Earlier(s[i], s[j]))
    && (forall i :: 0 <= i < |s| ==> s[i].stamp < now && s[i].value <= MAX_DELAY)
  }

  ghost predicate Sorted(vals: seq<nat>) {
    forall i, j :: 0 <= i < j < |vals| ==> vals[i] <= vals[j]
  }

  /** In a sorted list the place found divides it: nothing larger before, only larger values behind. */
  lemma {:induction false} SpotDivides(vals: seq<nat>, v: nat)
    requires Sorted(vals) && v <= MAX_DELAY && forall i :: 0 <= i < |vals| ==> vals[i] <= MAX_DELAY
    ensures forall i :: 0 <= i < Spot(vals, v) ==> vals[i] <= v
    ensures forall i :: Spot(vals, v) <= i < |vals| ==> vals[i] > v
  {
    if v != MAX_DELAY && vals != [] && vals[0] <= v {
      var rest := vals[1..];
      assert forall i :: 0 <= i < |rest| ==> rest[i] == vals[i + 1];
      SpotDivides(rest, v);
      assert forall i :: 1 <= i < |vals| ==> vals[i] == rest[i - 1];
    }
  }

  lemma ApplyKeepsOrder(s: seq<Stamped>, op: Op, now: nat)
    requires Ordered(s, now) && (op.InsertOp? ==> op.v <= MAX_DELAY)
    ensures Ordered(Apply(s, op, now), now + 1)
  {
    match op {
      case InsertOp(v) => SpotDivides(Vals(s), v); PlaceKeepsOrder(s, Spot(Vals(s), v), v, now);
      case RemoveOp(k) => if k < |s| { DropKeepsOrder(s, k, now); }
    }
  }

  lemma PlaceKeepsOrder(s: seq<Stamped>, k: nat, v: nat, now: nat)
    requires Ordered(s, now) && k <= |s| && v <= MAX_DELAY
    requires forall i :: 0 <= i < k ==> Vals(s)[i] <= v
    requires forall i :: k <= i < |s| ==> Vals(s)[i] > v
    ensures Ordered(InsertAt(s, k, Stamped(v, now)), now + 1)
  {
    var x := Stamped(v, now);
    var r := InsertAt(s, k, x);
    assert forall i :: 0 <= i < k ==> Earlier(s[i], x) by {
      assert forall i :: 0 <= i < k ==> s[i].value == Vals(s)[i];
    }
    assert forall i :: k <= i < |s| ==> Earlier(x, s[i]) by {
      assert forall i :: k <= i < |s| ==> s[i].value == Vals(s)[i];
    }
    hide Earlier;
  }

  lemma DropKeepsOrder(s: seq<Stamped>, k: nat, now: nat)
    requires Ordered(s, now) && k < |s|
    ensures Ordered(RemoveAt(s, k), now + 1)
  {
    hide Earlier;
  }

  /** A list built by vListInsert and uxListRemove alone is sorted by value at every moment, and equal
      values are in the order of their insertion. */
  lemma {:induction false} RunsStaySorted(ops: seq<Op>)
    requires forall i :: 0 <= i < |ops| && ops[i].InsertOp? ==> ops[i].v <= MAX_DELAY
    ensures Ordered(Run(ops), |ops|)
  {
    if ops != [] {
      RunsStaySorted(ops[..|ops| - 1]);
      ApplyKeepsOrder(Run(ops[..|ops| - 1]), ops[|ops| - 1], |ops| - 1);
    }
  }

  // ---- The same runs on the linked list ----

  lemma ValsInsert(s: seq<Stamped>, k: nat, x: Stamped)
    requires k <= |s|
    ensures Vals(InsertAt(s, k, x)) == InsertAt(Vals(s), k, x.value)
  {
  }

  lemma ValsRemove(s: seq<Stamped>, k: nat)
    requires k < |s|
    ensures Vals(RemoveAt(s, k)) == RemoveAt(Vals(s), k)
  {
  }

  /** Any sequence of insertions and removals, done on a fresh linked list: its values are those of the
      stamped sequence, which is sorted with equal values in the order of their insertion. */
  method RunOnList(ops: seq<Op>) returns (l: List)
    requires forall i :: 0 <= i < |ops| && ops[i].InsertOp? ==> ops[i].v <= MAX_DELAY
    ensures fresh(l) && l.Valid() && l.Values() == Vals(Run(ops)) && Ordered(Run(ops), |ops|)
  {
    hide Ring;
    hide Members;
    hide Ordered;
    hide InsertAt;
    hide RemoveAt;
    hide ItemValues;
    hide Sorted;
    l := new List();
    assert l.Values() == [] by { ItemValuesAt(l.nodes); }
    for i := 0 to |ops|
      invariant fresh(l) && l.Valid() && (forall j :: 0 <= j < |l.nodes| ==> fresh(l.nodes[j]))
      invariant l.Values() == Vals(Run(ops[..i]))
    {
      ghost var s := Run(ops[..i]);
      assert ops[..i + 1][..i] == ops[..i];
      match ops[i] {
        case InsertOp(v) =>
          var x := new Item(v);
          ghost var was := l.nodes;
          l.Insert(x);
          ValsInsert(s, Spot(Vals(s), v), Stamped(v, i));
          InsertMembers(was, 1 + Spot(Vals(s), v), x);
        case RemoveOp(k) =>
          if k < l.count {
            ghost var was := l.nodes;
            var x := l.ItemAt(k);
            var _ := l.Remove(x, k + 1);
            ValsRemove(s, k);
            RemoveMembers(was, k + 1);
          }
      }
    }
    assert ops[..|ops|] == ops;
    RunsStaySorted(ops);
  }

  lemma InsertMembers(s: seq<Item>, k: nat, x: Item)
    requires k <= |s|
    ensures forall j :: 0 <= j < |InsertAt(s, k, x)| ==> InsertAt(s, k, x)[j] == x || InsertAt(s, k, x)[j] in s
  {
  }

  lemma RemoveMembers(s: seq<Item>, k: nat)
    requires k < |s|
    ensures forall j :: 0 <= j < |RemoveAt(s, k)| ==> RemoveAt(s, k)[j] in s
  {
  }
}
