/** Singly linked lists of cells with sort keys. */
module Lists {
  import opened Common

  /** What a cell carries. */
  datatype Entry<T> = Entry(key: int, item: T)

  class ListElement<T> {
    var next: ListElement?<T>
    var key: int
    var item: T

    constructor (itemPtr: T, sortKey: int)
      ensures next == null && key == sortKey && item == itemPtr
    {
      item, key, next := itemPtr, sortKey, null;
    }
  }

  // ---------------------------------------------------------------- sequences of entries

  /** Where SortedInsert puts a key: before the first larger one, searching from `i` on. */
  function Position<T>(s: seq<Entry<T>>, key: int, i: nat): (p: nat)
    requires i <= |s|
    ensures i <= p <= |s| && (p < |s| ==> key < s[p].key)
    ensures forall j :: i <= j < p ==> s[j].key <= key
    decreases |s| - i
  {
    if i == |s| || key < s[i].key then i else Position(s, key, i + 1)
  }

  function Inserted<T>(s: seq<Entry<T>>, item: T, key: int): seq<Entry<T>> {
    var p := Position(s, key, 0);
    s[..p] + [Entry(key, item)] + s[p..]
  }

  ghost predicate Sorted<T>(s: seq<Entry<T>>) {
    forall i, j :: 0 <= i < j < |s| ==> s[i].key <= s[j].key
  }

  /** In a sorted list an insertion keeps the order, goes after all equal keys, and loses nothing. */
  lemma InsertedSorted<T>(s: seq<Entry<T>>, item: T, key: int)
    requires Sorted(s)
    ensures Sorted(Inserted(s, item, key))
    ensures var p := Position(s, key, 0); forall j :: p <= j < |s| ==> key < s[j].key
    ensures multiset(Inserted(s, item, key)) == multiset(s) + multiset{Entry(key, item)}
  {
    var p, t := Position(s, key, 0), Inserted(s, item, key);
    InsertedBag(s, p, Entry(key, item));
    forall i, j | 0 <= i < j < |t|
      ensures t[i].key <= t[j].key
    {
      var i', j' := if i < p then i else i - 1, if j < p then j else j - 1;
      assert i != p && j != p ==> t[i] == s[i'] && t[j] == s[j'];
    }
  }

  lemma InsertedBag<E>(s: seq<E>, p: nat, e: E)
    requires p <= |s|
    ensures multiset(s[..p] + [e] + s[p..]) == multiset(s) + multiset{e}
  {
    assert s == s[..p] + s[p..];
  }

  /** The first entry from `i` on that carries `item`, or -1. */
  function FirstWith<T(==)>(s: seq<Entry<T>>, item: T, i: nat): (p: int)
    requires i <= |s|
    ensures p == -1 ==> forall j :: i <= j < |s| ==> s[j].item != item
    ensures p != -1 ==> i <= p < |s| && s[p].item == item && forall j :: i <= j < p ==> s[j].item != item
    decreases |s| - i
  {
    if i == |s| then -1 else if s[i].item == item then i else FirstWith(s, item, i + 1)
  }

  // ---------------------------------------------------------------- the list

  class List<T(==)> {
    var first: ListElement?<T>
    var last: ListElement?<T>
    ghost var cells: seq<ListElement<T>>

    /** The cells from `first` on are all there is, each one once, and `last` is the final one. */
    ghost predicate Valid()
      reads this, cells
    {
      && (forall i, j :: 0 <= i < j < |cells| ==> cells[i] != cells[j])
      && (if |cells| == 0 then first == null && last == null else first == cells[0] && last == cells[|cells| - 1])
      && (|cells| > 0 ==> cells[|cells| - 1].next == null)
      && (forall i {:trigger cells[i].next} :: 0 <= i < |cells| - 1 ==> cells[i].next == cells[i + 1])
    }

    ghost function Contents(): (s: seq<Entry<T>>)
      reads this, cells
      ensures |s| == |cells|
    {
      seq(|cells|, i requires 0 <= i < |cells| reads this, cells => Entry(cells[i].key, cells[i].item))
    }

    /** The cells that have come into use since. */
    twostate predicate Grown()
      reads this
    {
      forall c :: c in cells ==> c in old(cells) || fresh(c)
    }

    constructor ()
      ensures Valid() && Contents() == [] && cells == []
    {
      first, last, cells := null, null, [];
    }

    method IsEmpty() returns (empty: bool)
      requires Valid()
      ensures empty <==> Contents() == []
    {
      empty := first == null;
    }

    /** Puts a new cell at the end. */
    method LinkLast(element: ListElement<T>)
      requires Valid() && element !in cells && element.next == null
      modifies this, cells, element`next
      ensures Valid() && cells == old(cells) + [element]
      ensures Contents() == old(Contents()) + [Entry(element.key, element.item)]
    {
      if first == null {
        first := element;
        last := element;
      } else {
        last.next := element;
        last := element;
      }
      ghost var before := cells;
      cells := before + [element];
      assert forall i :: 0 <= i < |before| ==> cells[i] == before[i];
    }

    /** Puts a new cell at the front. */
    method LinkFirst(element: ListElement<T>)
      requires Valid() && element !in cells && element.next == null
      modifies this, element`next
      ensures Valid() && cells == [element] + old(cells)
      ensures Contents() == [Entry(element.key, element.item)] + old(Contents())
    {
      if first == null {
        first := element;
        last := element;
      } else {
        element.next := first;
        first := element;
      }
      ghost var before := cells;
      cells := [element] + before;
      assert forall i :: 1 <= i < |cells| ==> cells[i] == before[i - 1];
    }

    /** Puts a new cell behind the cell `ptr`, the one with index `i`. */
    method LinkAfter(ptr: ListElement<T>, ghost i: nat, element: ListElement<T>)
      requires Valid() && element !in cells && i + 1 < |cells| && ptr == cells[i]
      modifies this, ptr, element`next
      ensures Valid() && cells == old(cells)[..i + 1] + [element] + old(cells)[i + 1..]
      ensures Contents() == old(Contents())[..i + 1] + [Entry(element.key, element.item)] + old(Contents())[i + 1..]
    {
      element.next := ptr.next;
      ptr.next := element;
      ghost var before := cells;
      cells := before[..i + 1] + [element] + before[i + 1..];
      assert forall k :: 0 <= k <= i ==> cells[k] == before[k];
      assert forall k :: i + 2 <= k < |cells| ==> cells[k] == before[k - 1];
    }

    method Append(item: T)
      requires Valid()
      modifies this, cells
      ensures Valid() && Grown()
      ensures Contents() == old(Contents()) + [Entry(0, item)]
    {
      var element := new ListElement(item, 0);
      LinkLast(element);
    }

    method Prepend(item: T)
      requires Valid()
      modifies this, cells
      ensures Valid() && Grown()
      ensures Contents() == [Entry(0, item)] + old(Contents())
    {
      var element := new ListElement(item, 0);
      LinkFirst(element);
    }

    method SortedRemove() returns (thing: Option<Entry<T>>)
      requires Valid()
      modifies this
      ensures Valid() && Grown()
      ensures if old(Contents()) == [] then thing == None && Contents() == []
              else thing == Some(old(Contents())[0]) && Contents() == old(Contents())[1..]
    {
      var element := first;
      var empty := IsEmpty();
      if empty {
        return None;
      }
      thing := Some(Entry(element.key, element.item));
      if first == last {
        first := null;
        last := null;
      } else {
        first := element.next;
      }
      ghost var before := cells;
      cells := before[1..];
      assert forall i :: 0 <= i < |cells| ==> cells[i] == before[i + 1];
    }

    /** Remove from the front, ignoring the key. */
    method Remove() returns (thing: Option<T>)
      requires Valid()
      modifies this
      ensures Valid() && Grown()
      ensures if old(Contents()) == [] then thing == None && Contents() == []
              else thing == Some(old(Contents())[0].item) && Contents() == old(Contents())[1..]
    {
      var entry := SortedRemove();
      thing := if entry.Some? then Some(entry.value.item) else None;
    }

    /** Takes the first cell with `item` off the list; there has to be one. */
    method RemoveItem(item: T)
      requires Valid() && FirstWith(Contents(), item, 0) != -1
      modifies this, cells
      ensures Valid() && Grown()
      ensures var p := FirstWith(old(Contents()), item, 0); Contents() == old(Contents())[..p] + old(Contents())[p + 1..]
    {
      var cur, prec: ListElement?<T> := first, null;
      ghost var s, i := Contents(), 0;
      while cur.item != item
        invariant 0 <= i < |cells| && cur == cells[i] && prec == (if i == 0 then null else cells[i - 1])
        invariant FirstWith(s, item, i) == FirstWith(s, item, 0)
        decreases |cells| - i
      {
        prec := cur;
        cur := cur.next;
        i := i + 1;
      }
      if cur == last {
        last := prec;
      }
      if prec == null {
        first := cur.next;
      } else {
        prec.next := cur.next;
      }
      ghost var before := cells;
      cells := before[..i] + before[i + 1..];
      assert forall k :: 0 <= k < i ==> cells[k] == before[k];
      assert forall k :: i <= k < |cells| ==> cells[k] == before[k + 1];
    }

    method Length() returns (n: nat)
      requires Valid()
      ensures n == |Contents()|
    {
      n := 0;
      var cur := first;
      while cur != null
        invariant n <= |cells| && cur == if n < |cells| then cells[n] else null
        decreases |cells| - n
      {
        n := n + 1;
        cur := cur.next;
      }
    }

    /** The search loop of SortedInsert: the last of the leading cells whose keys are not above `sortKey`. */
    method FindPredecessor(sortKey: int) returns (ptr: ListElement<T>, ghost i: nat)
      requires Valid() && first != null && first.key <= sortKey
      ensures i < |cells| && ptr == cells[i] && Position(Contents(), sortKey, 0) == i + 1
    {
      ptr, i := first, 0;
      ghost var s := Contents();
      while ptr.next != null
        invariant i < |cells| && ptr == cells[i]
        invariant Position(s, sortKey, 0) == Position(s, sortKey, i + 1)
        decreases |cells| - i
      {
        if sortKey < ptr.next.key {
          return;
        }
        ptr := ptr.next;
        i := i + 1;
      }
    }

    method SortedInsert(item: T, sortKey: int)
      requires Valid()
      modifies this, cells
      ensures Valid() && Grown()
      ensures Contents() == Inserted(old(Contents()), item, sortKey)
    {
      var element := new ListElement(item, sortKey);
      if first == null || sortKey < first.key {
        LinkFirst(element);
      } else {
        var ptr, i := FindPredecessor(sortKey);
        if ptr.next != null {
          LinkAfter(ptr, i, element);
        } else {
          LinkLast(element);
        }
      }
    }
  }
}
