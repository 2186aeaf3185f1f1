/** The singly linked lists of lib/list.cc, against sequences. */
module LinkedLists {
  type Compare<!T> = (T, T) -> int

  /** Where SortedList::Insert puts an item: in front of the first item it compares less than. */
  function InsertPoint<T>(compare: Compare<T>, list: seq<T>, item: T): (k: nat)
    ensures k <= |list|
    ensures forall i :: 0 <= i < k ==> compare(item, list[i]) >= 0
    ensures k < |list| ==> compare(item, list[k]) < 0
  {
    if list == [] || compare(item, list[0]) < 0 then 0 else 1 + InsertPoint(compare, list[1..], item)
  }

  lemma InsertPointIs<T>(compare: Compare<T>, list: seq<T>, item: T, k: nat)
    requires k <= |list| && (forall i :: 0 <= i < k ==> compare(item, list[i]) >= 0)
    requires k < |list| ==> compare(item, list[k]) < 0
    ensures InsertPoint(compare, list, item) == k
  {
    hide InsertPoint;
  }

  function InsertedBy<T>(compare: Compare<T>, list: seq<T>, item: T): seq<T> {
    var k := InsertPoint(compare, list, item);
    list[..k] + [item] + list[k..]
  }

  ghost predicate SortedBy<T>(compare: Compare<T>, list: seq<T>) {
    forall i, j :: 0 <= i < j < |list| ==> compare(list[i], list[j]) <= 0
  }

  /** A comparison by some key, as the callers' are. */
  ghost predicate KeyedBy<T(!new)>(compare: Compare<T>, key: T -> int) {
    forall a, b :: Keyed(compare, key, a, b)
  }

  ghost predicate Keyed<T>(compare: Compare<T>, key: T -> int, a: T, b: T) {
    (compare(a, b) < 0 <==> key(a) < key(b)) && (compare(a, b) == 0 <==> key(a) == key(b))
  }

  /** Insertion keeps a list sorted and puts equals in order of arrival. */
  lemma InsertedIsSorted<T(!new)>(compare: Compare<T>, key: T -> int, list: seq<T>, item: T)
    requires KeyedBy(compare, key) && SortedBy(compare, list)
    ensures SortedBy(compare, InsertedBy(compare, list, item))
    ensures var k := InsertPoint(compare, list, item);
            && (forall i :: 0 <= i < k ==> compare(list[i], item) <= 0)
            && (forall i :: k <= i < |list| ==> compare(item, list[i]) < 0)
  {
    hide InsertPoint;
    var k := InsertPoint(compare, list, item);
    forall i | 0 <= i < k
      ensures compare(list[i], item) <= 0
    {
      assert Keyed(compare, key, item, list[i]) && Keyed(compare, key, list[i], item);
    }
    forall i | k <= i < |list|
      ensures compare(item, list[i]) < 0
    {
      if i > k {
        assert compare(list[k], list[i]) <= 0;
        assert Keyed(compare, key, item, list[k]) && Keyed(compare, key, list[k], list[i]) && Keyed(compare, key, item, list[i]);
      }
    }
    var list' := InsertedBy(compare, list, item);
    forall i, j | 0 <= i < j < |list'|
      ensures compare(list'[i], list'[j]) <= 0
    {
      if i != k && j != k {
        var a, b := if i < k then i else i - 1, if j < k then j else j - 1;
        assert compare(list[a], list[b]) <= 0;
      }
    }
  }

  class Node<T> {
    var item: T
    var next: Node?<T>

    constructor (itm: T)
      ensures item == itm && next == null
    {
      item := itm;
      next := null;
    }
  }

  ghost function ItemsOf<T>(spine: seq<Node<T>>): seq<T>
    reads spine
  {
    seq(|spine|, i requires 0 <= i < |spine| reads spine => spine[i].item)
  }

  ghost predicate Distinct<T>(spine: seq<Node<T>>) {
    forall i, j :: 0 <= i < j < |spine| ==> spine[i] != spine[j]
  }

  lemma DistinctWithout<T>(s: seq<Node<T>>, k: nat)
    requires Distinct(s) && k < |s|
    ensures Distinct(s[..k] + s[k + 1..])
  {
  }

  lemma DistinctWith<T>(s: seq<Node<T>>, k: nat, element: Node<T>)
    requires Distinct(s) && k <= |s| && element !in s
    ensures Distinct(s[..k] + [element] + s[k..])
  {
  }

  /** The node that follows position i. */
  ghost function After<T>(spine: seq<Node<T>>, i: nat): Node?<T>
    requires i < |spine|
  {
    if i + 1 < |spine| then spine[i + 1] else null
  }

  lemma AfterIs<T>(s: seq<Node<T>>, i: nat)
    requires i < |s|
    ensures After(s, i) == if i + 1 < |s| then s[i + 1] else null
  {
  }

  lemma AfterIsNull<T>(s: seq<Node<T>>, i: nat)
    requires i < |s|
    ensures After(s, i) == null <==> i == |s| - 1
  {
  }

  lemma AfterAppend<T>(s: seq<Node<T>>, element: Node<T>, i: nat)
    requires i <= |s|
    ensures After(s + [element], i) == if i == |s| then null else if i == |s| - 1 then element else After(s, i)
  {
  }

  lemma AfterPrepend<T>(s: seq<Node<T>>, element: Node<T>, i: nat)
    requires i <= |s|
    ensures After([element] + s, i) == if i > 0 then After(s, i - 1) else if s == [] then null else s[0]
  {
  }

  lemma AfterWithout<T>(s: seq<Node<T>>, k: nat, i: nat)
    requires 1 <= k < |s| && i < |s| - 1
    ensures After(s[..k] + s[k + 1..], i) == if i < k - 1 then After(s, i) else After(s, i + 1)
  {
  }

  lemma AfterWith<T>(s: seq<Node<T>>, k: nat, element: Node<T>, i: nat)
    requires 1 <= k <= |s| && i <= |s|
    ensures After(s[..k] + [element] + s[k..], i) ==
            if i < k - 1 then After(s, i) else if i == k - 1 then element else After(s, i - 1)
  {
  }

  lemma DistinctOthers<T>(s: seq<Node<T>>, k: nat)
    requires Distinct(s) && k < |s|
    ensures forall i :: 0 <= i < |s| && i != k ==> s[i] != s[k]
  {
  }

  /** The nodes of spine are distinct and linked in this order. */
  ghost predicate Linked<T>(spine: seq<Node<T>>)
    reads spine
  {
    && Distinct(spine)
    && (forall i :: 0 <= i < |spine| ==> spine[i].next == After(spine, i))
  }

  ghost predicate NoRepeats<T>(items: seq<T>) {
    forall i, j :: 0 <= i < j < |items| ==> items[i] != items[j]
  }

  lemma NoRepeatsWith<T>(items: seq<T>, k: nat, item: T)
    requires NoRepeats(items) && k <= |items| && item !in items
    ensures NoRepeats(items[..k] + [item] + items[k..])
  {
  }

  lemma NoRepeatsWithout<T>(items: seq<T>, k: nat)
    requires NoRepeats(items) && k < |items|
    ensures NoRepeats(items[..k] + items[k + 1..]) && items[k] !in items[..k] + items[k + 1..]
  {
  }

  class List<T(==)> {
    var first: Node?<T>
    var last: Node?<T>
    var numInList: nat
    ghost var spine: seq<Node<T>>

    ghost predicate Valid()
      reads this, spine
    {
      && numInList == |spine|
      && Linked(spine) && NoRepeats(ItemsOf(spine))
      && (if spine == [] then first == null && last == null else first == spine[0] && last == spine[|spine| - 1])
    }

    ghost function Items(): seq<T>
      reads this, spine
    {
      ItemsOf(spine)
    }

    constructor ()
      ensures Valid() && Items() == []
    {
      first, last, numInList, spine := null, null, 0, [];
    }

    method IsInList(item: T) returns (found: bool)
      requires Valid()
      ensures found <==> item in Items()
    {
      var ptr := first;
      ghost var i := 0;
      while ptr != null
        invariant 0 <= i <= |spine|
        invariant ptr == if i < |spine| then spine[i] else null
        invariant forall j :: 0 <= j < i ==> spine[j].item != item
        decreases |spine| - i
      {
        if ptr.item == item {
          assert Items()[i] == item;
          return true;
        }
        ptr := ptr.next;
        i := i + 1;
      }
      return false;
    }

    method Append(item: T)
      requires Valid() && item !in Items()
      modifies this, spine
      ensures Valid() && Items() == old(Items()) + [item]
      ensures fresh(spine[|spine| - 1]) && spine == old(spine) + [spine[|spine| - 1]]
    {
      hide Distinct, After, NoRepeats;
      var element := new Node(item);
      ghost var s, items := spine, Items();
      DistinctWith(s, |s|, element);
      if numInList == 0 {
        first, last := element, element;
      } else {
        DistinctOthers(s, |s| - 1);
        last.next := element;
        last := element;
      }
      spine := s + [element];
      assert s[..|s|] + [element] + s[|s|..] == spine;
      numInList := numInList + 1;
      forall i | 0 <= i < |spine|
        ensures spine[i].next == After(spine, i)
      {
        AfterAppend(s, element, i);
      }
      NoRepeatsWith(items, |items|, item);
      assert Items() == items[..|items|] + [item] + items[|items|..];
    }

    method Prepend(item: T)
      requires Valid() && item !in Items()
      modifies this, spine
      ensures Valid() && Items() == [item] + old(Items())
      ensures fresh(spine[0]) && spine == [spine[0]] + old(spine)
    {
      hide Distinct, After, NoRepeats;
      var element := new Node(item);
      ghost var s, items := spine, Items();
      DistinctWith(s, 0, element);
      if numInList == 0 {
        first, last := element, element;
      } else {
        element.next := first;
        first := element;
      }
      spine := [element] + s;
      assert s[..0] + [element] + s[0..] == spine;
      numInList := numInList + 1;
      forall i | 0 <= i < |spine|
        ensures spine[i].next == After(spine, i)
      {
        AfterPrepend(s, element, i);
      }
      NoRepeatsWith(items, 0, item);
      assert Items() == items[..0] + [item] + items[0..];
    }

    method RemoveFront() returns (thing: T)
      requires Valid() && Items() != []
      modifies this
      ensures Valid() && [thing] + Items() == old(Items())
      ensures spine == old(spine)[1..]
    {
      hide NoRepeats;
      ghost var items := Items();
      NoRepeatsWithout(items, 0);
      var element := first;
      thing := first.item;
      if first == last {
        assert |spine| == 1;
        first, last := null, null;
      } else {
        first := element.next;
      }
      spine := spine[1..];
      numInList := numInList - 1;
      assert Items() == items[..0] + items[1..];
    }

    /** Take the node at position k, behind prev, out of the list. */
    method Unlink(prev: Node<T>, ptr: Node<T>, ghost k: nat)
      requires Valid() && 1 <= k < |spine| && prev == spine[k - 1] && ptr == spine[k]
      modifies this, prev`next
      ensures Valid() && Items() == old(Items())[..k] + old(Items())[k + 1..]
    {
      hide Distinct, After, NoRepeats;
      ghost var s, items := spine, Items();
      DistinctWithout(s, k);
      DistinctOthers(s, k - 1);
      AfterIsNull(s, k);
      prev.next := ptr.next;
      if prev.next == null {
        last := prev;
      }
      spine := s[..k] + s[k + 1..];
      numInList := numInList - 1;
      forall i | 0 <= i < |spine|
        ensures spine[i].next == After(spine, i)
      {
        AfterWithout(s, k, i);
        if i < k {
          assert spine[i] == s[i];
        } else {
          assert spine[i] == s[i + 1] && s[i + 1].next == After(s, i + 1);
        }
      }
      NoRepeatsWithout(items, k);
      assert Items() == items[..k] + items[k + 1..];
    }

    /** The item must be in the list, and is not afterwards; where it stood is given back as k. */
    method Remove(item: T) returns (ghost k: nat)
      requires Valid() && item in Items()
      modifies this, spine
      ensures Valid()
      ensures k < |old(Items())| && old(Items())[k] == item && item !in old(Items())[..k]
      ensures Items() == old(Items())[..k] + old(Items())[k + 1..] && item !in Items()
    {
      hide NoRepeats;
      k := 0;
      ghost var items := Items();
      if item == first.item {
        NoRepeatsWithout(items, 0);
        var _ := RemoveFront();
        assert Items() == items[..0] + items[1..];
      } else {
        var prev := first;
        var ptr := first.next;
        k := 1;
        ghost var j :| 0 <= j < |spine| && spine[j].item == item;
        while ptr.item != item
          invariant 1 <= k <= j < |spine| && spine[j].item == item
          invariant prev == spine[k - 1] && ptr == spine[k]
          invariant forall i :: 0 <= i < k ==> spine[i].item != item
          decreases |spine| - k
        {
          prev, ptr := ptr, ptr.next;
          k := k + 1;
        }
        NoRepeatsWithout(items, k);
        Unlink(prev, ptr, k);
      }
    }

    /** Put a new node behind the node at position i. */
    method LinkAfter(ptr: Node<T>, element: Node<T>, ghost i: nat)
      requires Valid() && i < |spine| && ptr == spine[i] && element !in spine && element.item !in Items()
      modifies this, ptr`next, element`next
      ensures Valid() && Items() == old(Items())[..i + 1] + [old(element.item)] + old(Items())[i + 1..]
    {
      hide Distinct, After, NoRepeats;
      ghost var s, items := spine, Items();
      DistinctWith(s, i + 1, element);
      DistinctOthers(s, i);
      AfterIsNull(s, i);
      element.next := ptr.next;
      if ptr.next == null {
        last := element;
      }
      ptr.next := element;
      spine := s[..i + 1] + [element] + s[i + 1..];
      numInList := numInList + 1;
      forall j | 0 <= j < |spine|
        ensures spine[j].next == After(spine, j)
      {
        AfterWith(s, i + 1, element, j);
        if j <= i {
          assert spine[j] == s[j];
        } else if j > i + 1 {
          assert spine[j] == s[j - 1] && s[j - 1].next == After(s, j - 1);
        }
      }
      NoRepeatsWith(items, i + 1, element.item);
      assert Items() == items[..i + 1] + [element.item] + items[i + 1..];
    }

    /** The walk of SortedList::Insert: the last node before the item's place. */
    method FindBefore(compare: Compare<T>, item: T) returns (ptr: Node<T>, ghost i: nat)
      requires Valid() && spine != [] && compare(item, first.item) >= 0
      ensures i < |spine| && ptr == spine[i] && InsertPoint(compare, Items(), item) == i + 1
    {
      hide NoRepeats, Distinct, InsertPoint, After;
      ptr, i := first, 0;
      AfterIs(spine, 0);
      while ptr.next != null && compare(item, ptr.next.item) >= 0
        invariant 0 <= i < |spine| && ptr == spine[i]
        invariant ptr.next == if i + 1 < |spine| then spine[i + 1] else null
        invariant forall j :: 0 <= j <= i ==> compare(item, Items()[j]) >= 0
        decreases |spine| - i
      {
        ptr := ptr.next;
        i := i + 1;
        AfterIs(spine, i);
      }
      InsertPointIs(compare, Items(), item, i + 1);
    }

    /** SortedList::Insert. */
    method Insert(compare: Compare<T>, item: T)
      requires Valid() && item !in Items()
      modifies this, spine
      ensures Valid() && Items() == InsertedBy(compare, old(Items()), item)
    {
      hide NoRepeats, Distinct, InsertPoint, After;
      if numInList == 0 || compare(item, first.item) < 0 {
        InsertPointIs(compare, Items(), item, 0);
        Prepend(item);
        return;
      }
      var ptr, i := FindBefore(compare, item);
      var element := new Node(item);
      LinkAfter(ptr, element, i);
    }
  }
}
