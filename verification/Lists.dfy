/**
 The singly linked list of threads/list.cc: elements with a sort key, a first and a last pointer
 rewritten in place.  The list is proved against the sequence of its (item, key) pairs.
 */
module Lists {
  import opened Options

  type Entry<T> = (T, int)

  /** Where SortedInsert puts an entry: before the first one with a greater key. */
  function Inserted<T>(s: seq<Entry<T>>, x: T, key: int): seq<Entry<T>> {
    if s == [] then [(x, key)]
    else if key < s[0].1 then [(x, key)] + s
    else [s[0]] + Inserted(s[1..], x, key)
  }

  ghost predicate AtLeast<T>(s: seq<Entry<T>>, key: int) {
    forall e <- s :: key <= e.1
  }

  ghost predicate Sorted<T>(s: seq<Entry<T>>) {
    s == [] || (AtLeast(s[1..], s[0].1) && Sorted(s[1..]))
  }

  /** SortedInsert adds exactly the new entry, wherever it puts it. */
  lemma {:induction false} InsertedAdds<T>(s: seq<Entry<T>>, x: T, key: int)
    ensures multiset(Inserted(s, x, key)) == multiset(s) + multiset{(x, key)}
    ensures |Inserted(s, x, key)| == |s| + 1
  {
    if s != [] && s[0].1 <= key {
      InsertedAdds(s[1..], x, key);
      assert s == [s[0]] + s[1..];
    }
  }

  lemma {:induction false} InsertedAtLeast<T>(s: seq<Entry<T>>, x: T, key: int, low: int)
    requires AtLeast(s, low) && low <= key
    ensures AtLeast(Inserted(s, x, key), low)
  {
    if s != [] && s[0].1 <= key {
      InsertedAtLeast(s[1..], x, key, low);
    }
  }

  lemma {:induction false} InsertedStaysSorted<T>(s: seq<Entry<T>>, x: T, key: int)
    requires Sorted(s)
    ensures Sorted(Inserted(s, x, key))
  {
    if s == [] {
    } else {
      if s[0].1 <= key {
        InsertedStaysSorted(s[1..], x, key);
        InsertedAtLeast(s[1..], x, key, s[0].1);
      } else {
        assert s == [s[0]] + s[1..];
        assert ([(x, key)] + s)[1..] == s;
      }
    }
  }

  /** In a sorted list the new entry goes behind every entry with the same or a smaller key and
      before every greater one, and the others keep their order. */
  lemma {:induction false} InsertedPlace<T>(s: seq<Entry<T>>, x: T, key: int) returns (p: nat)
    requires Sorted(s)
    ensures p <= |s| && Inserted(s, x, key) == s[..p] + [(x, key)] + s[p..]
    ensures forall i :: 0 <= i < p ==> s[i].1 <= key
    ensures forall i :: p <= i < |s| ==> key < s[i].1
  {
    p := 0;
    if s != [] && s[0].1 <= key {
      var q := InsertedPlace(s[1..], x, key);
      p := q + 1;
      assert s[..p] == [s[0]] + s[1..][..q];
    } else if s != [] {
      assert forall i :: 0 < i < |s| ==> s[i] == s[1..][i - 1];
    }
  }

  /** The walk of SortedInsert stops at the place of the new entry. */
  lemma {:induction false} InsertedAt<T>(s: seq<Entry<T>>, n: nat, x: T, key: int)
    requires n <= |s| && (forall i :: 0 <= i < n ==> s[i].1 <= key) && (n < |s| ==> key < s[n].1)
    ensures Inserted(s, x, key) == s[..n] + [(x, key)] + s[n..]
  {
    if n == 0 {
    } else {
      InsertedAt(s[1..], n - 1, x, key);
      assert s[..n] == [s[0]] + s[1..][..n - 1];
    }
  }

  /** s with x before index n, index by index. */
  lemma Spliced<U>(s: seq<U>, n: nat, x: U) returns (r: seq<U>)
    requires n <= |s|
    ensures |r| == |s| + 1 && r[n] == x
    ensures forall i :: 0 <= i < n ==> r[i] == s[i]
    ensures forall i :: n < i < |r| ==> r[i] == s[i - 1]
  {
    r := s[..n] + [x] + s[n..];
  }

  class ListElement<T> {
    var next: ListElement?<T>
    var key: int
    var item: T

    constructor (item: T, key: int)
      ensures this.item == item && this.key == key && next == null
    {
      this.item, this.key, next := item, key, null;
    }
  }

  class List<T> {
    var first: ListElement?<T>
    var last: ListElement?<T>
    ghost var spine: seq<ListElement<T>>   // the elements from first to last
    ghost var repr: set<ListElement<T>>    // every element that was ever on the list

    ghost predicate Valid()
      reads this, repr
    {
      && (forall i :: 0 <= i < |spine| ==> spine[i] in repr)
      && (spine == [] ==> first == null && last == null)
      && (spine != [] ==> first == spine[0] && last == spine[|spine| - 1] && last.next == null)
      && (forall i, j :: 0 <= i && j == i + 1 < |spine| ==> spine[i].next == spine[j])
      && (forall i, j :: 0 <= i < j < |spine| ==> spine[i] != spine[j])
    }

    ghost function View(): seq<Entry<T>>
      requires Valid()
      reads this, repr
    {
      Pairs(spine)
    }

    static ghost function Pairs(es: seq<ListElement<T>>): seq<Entry<T>>
      reads es
    {
      seq(|es|, i requires 0 <= i < |es| reads es => (es[i].item, es[i].key))
    }

    constructor ()
      ensures Valid() && View() == [] && repr == {}
    {
      first, last, spine, repr := null, null, [], {};
    }

    method IsEmpty() returns (empty: bool)
      requires Valid()
      ensures empty <==> View() == []
    {
      empty := first == null;
    }

    method Append(item: T)
      requires Valid()
      modifies this, repr
      ensures Valid() && View() == old(View()) + [(item, 0)]
      ensures fresh(repr - old(repr))
    {
      AppendElement(item, 0);
    }

    method AppendElement(item: T, key: int)
      requires Valid()
      modifies this, repr
      ensures Valid() && View() == old(View()) + [(item, key)]
      ensures fresh(repr - old(repr))
    {
      var element := new ListElement(item, key);
      if first == null {
        first := element;
        last := element;
      } else {
        last.next := element;
        last := element;
      }
      spine, repr := spine + [element], repr + {element};
    }

    method Prepend(item: T)
      requires Valid()
      modifies this
      ensures Valid() && View() == [(item, 0)] + old(View())
      ensures fresh(repr - old(repr))
    {
      PrependElement(item, 0);
    }

    method PrependElement(item: T, key: int)
      requires Valid()
      modifies this
      ensures Valid() && View() == [(item, key)] + old(View())
      ensures fresh(repr - old(repr))
    {
      var element := new ListElement(item, key);
      if first == null {
        first := element;
        last := element;
      } else {
        element.next := first;
        first := element;
      }
      spine, repr := [element] + spine, repr + {element};
    }

    method InsertAfter(ptr: ListElement<T>, ghost i: nat, item: T, key: int)
      requires Valid() && i + 1 < |spine| && ptr == spine[i]
      modifies this, ptr
      ensures Valid() && View() == old(View()[..i + 1]) + [(item, key)] + old(View()[i + 1..])
      ensures fresh(repr - old(repr))
    {
      var element := new ListElement(item, key);
      element.next := ptr.next;
      ptr.next := element;
      spine := Spliced(spine, i + 1, element);
      repr := repr + {element};
    }

    /** The loop of SortedInsert: the last element before the place of the new one. */
    method FindPlace(sortKey: int) returns (ptr: ListElement<T>, ghost n: nat)
      requires Valid() && spine != [] && spine[0].key <= sortKey
      ensures 0 < n <= |spine| && ptr == spine[n - 1] && (ptr.next == null <==> n == |spine|)
      ensures forall i :: 0 <= i < n ==> spine[i].key <= sortKey
      ensures n < |spine| ==> sortKey < spine[n].key
    {
      ptr, n := first, 1;
      while ptr.next != null && ptr.next.key <= sortKey
        invariant 0 < n <= |spine| && ptr == spine[n - 1] && (n < |spine| ==> ptr.next == spine[n])
        invariant forall i :: 0 <= i < n ==> spine[i].key <= sortKey
        decreases |spine| - n
      {
        ptr := ptr.next;
        n := n + 1;
      }
    }

    method SortedInsert(item: T, sortKey: int)
      requires Valid()
      modifies this, repr
      ensures Valid() && View() == Inserted(old(View()), item, sortKey)
      ensures fresh(repr - old(repr))
    {
      ghost var was := View();
      if first == null {
        AppendElement(item, sortKey);
      } else if sortKey < first.key {
        PrependElement(item, sortKey);
      } else {
        var ptr, n := FindPlace(sortKey);
        InsertedAt(was, n, item, sortKey);
        if ptr.next != null {
          InsertAfter(ptr, n - 1, item, sortKey);
        } else {
          assert was[..n] == was && was[n..] == [];
          AppendElement(item, sortKey);
        }
      }
    }

    method SortedRemove() returns (r: Option<Entry<T>>)
      requires Valid()
      modifies this
      ensures Valid()
      ensures old(View()) == [] ==> r == None && View() == []
      ensures old(View()) != [] ==> r == Some(old(View())[0]) && View() == old(View())[1..]
      ensures repr <= old(repr)
    {
      if first == null { return None; }
      r := Some((first.item, first.key));
      if first == last {
        first := null;
        last := null;
      } else {
        first := first.next;
      }
      spine := spine[1..];
    }
  }
}
