/** The list array of categories: no list, one list, or an array of lists, to which
    batches of lists are attached at the front. */
module ListArray {
  import opened Bits

  function Flatten<T>(lists: seq<seq<T>>): seq<T> {
    if lists == [] then [] else lists[0] + Flatten(lists[1..])
  }

  /** All batches in one, the newest first. */
  function NewestFirst<T>(batches: seq<seq<T>>): seq<T> {
    if batches == [] then [] else batches[|batches| - 1] + NewestFirst(batches[..|batches| - 1])
  }

  ghost predicate NoneEmpty<T>(lists: seq<seq<T>>) {
    forall k :: 0 <= k < |lists| ==> lists[k] != []
  }

  lemma {:induction false} FlattenSplit<T>(lists: seq<seq<T>>, k: nat)
    requires k < |lists|
    ensures Flatten(lists[..k + 1]) == Flatten(lists[..k]) + lists[k]
  {
    if k == 0 {
      assert lists[..1] == [lists[0]];
    } else {
      FlattenSplit(lists[1..], k - 1);
      assert lists[..k + 1][1..] == lists[1..][..k] && lists[..k][1..] == lists[1..][..k - 1];
    }
  }

  // ------------------------------------------------------------------ the iterator

  /** A position among the elements of some lists. */
  class Iterator<T> {
    const all: seq<seq<T>>
    const listsEnd: nat
    var lists: nat
    var m: nat
    var mEnd: nat

    constructor (all: seq<seq<T>>, begin: nat, end: nat)
      requires begin <= end <= |all|
      ensures this.all == all && listsEnd == end && lists == begin && Valid()
      ensures begin != end ==> m == 0
    {
      this.all, listsEnd, lists := all, end, begin;
      m, mEnd := 0, if begin != end then |all[begin]| else 0;
    }

    ghost predicate Valid()
      reads this
    {
      lists <= listsEnd <= |all| && (lists < listsEnd ==> m <= mEnd == |all[lists]|)
    }

    /** The elements from here to the end. */
    ghost function Remaining(): seq<T>
      requires Valid()
      reads this
    {
      if lists == listsEnd then [] else all[lists][m..] + Flatten(all[lists + 1..listsEnd])
    }

    /** The lists before this position are not empty, and neither is its own unless the
        position is past its elements. */
    ghost predicate NoneEmptySoFar()
      requires Valid()
      reads this
    {
      NoneEmpty(all[..lists]) && (lists < listsEnd && m == mEnd ==> all[lists] == [])
    }

    lemma ElementIsFirst()
      requires Valid() && lists < listsEnd && m != mEnd
      ensures Remaining() == [Element()] + Remaining()[1..]
    {
    }

    predicate Differs(rhs: Iterator<T>)
      reads this, rhs
    {
      lists != rhs.lists || (lists != listsEnd && m != rhs.m)
    }

    function Element(): T
      requires Valid() && lists < listsEnd && m != mEnd
      reads this
    {
      all[lists][m]
    }

    /** operator++: moves past one element. */
    method Next()
      requires Valid() && lists < listsEnd && m != mEnd
      modifies this
      ensures Valid() && Remaining() == old(Remaining())[1..]
      ensures old(NoneEmptySoFar()) ==> NoneEmptySoFar()
    {
      m := m + 1;
      if m == mEnd {
        ghost var rest := all[lists + 1..listsEnd];
        assert all[..lists + 1] == all[..lists] + [all[lists]];
        lists := lists + 1;
        if lists != listsEnd {
          m, mEnd := 0, |all[lists]|;
          assert rest == [all[lists]] + all[lists + 1..listsEnd];
        }
      }
    }
  }

  // ------------------------------------------------------------------ the container

  datatype Storage<T> = Empty | One(list: seq<T>) | Many(lists: array<seq<T>>)

  class ListArray<T> {
    var store: Storage<T>
    ghost var batches: seq<seq<seq<T>>>

    constructor ()
      ensures Valid() && batches == []
    {
      store, batches := Empty, [];
    }

    ghost function Footprint(): set<object>
      reads this
    {
      if store.Many? then {store.lists} else {}
    }

    /** The lists in their order. */
    ghost function Lists(): seq<seq<T>>
      reads this, Footprint()
    {
      match store
      case Empty => []
      case One(list) => [list]
      case Many(lists) => lists[..]
    }

    /** The newest batch is first, and an array is used exactly for several lists. */
    ghost predicate Valid()
      reads this, Footprint()
    {
      Lists() == NewestFirst(batches) && (store.Many? ==> store.lists.Length >= 2)
    }

    /** attachLists: puts the added lists before all others. */
    method AttachLists(addedLists: array<seq<T>>, addedCount: nat)
      requires Valid() && addedCount <= addedLists.Length && addedLists !in Footprint()
      modifies this, Footprint()
      ensures Valid() && fresh(Footprint() - old(Footprint()))
      ensures Lists() == addedLists[..addedCount] + old(Lists())
      ensures batches == if addedCount == 0 then old(batches) else old(batches) + [addedLists[..addedCount]]
      ensures addedLists[..] == old(addedLists[..])
    {
      if addedCount == 0 {
        return;
      }
      ghost var before := Lists();
      ghost var added := addedLists[..addedCount];
      if store.Many? {
        AttachToMany(addedLists, addedCount);
      } else if store.Empty? && addedCount == 1 {
        store := One(addedLists[0]);
        assert added == [addedLists[0]];
      } else {
        AttachToFew(addedLists, addedCount);
      }
      assert Lists() == added + before;
      batches := batches + [added];
      assert batches[..|batches| - 1] == old(batches);
    }

    /** Many lists to more: the array is grown and its lists are moved up. */
    method AttachToMany(addedLists: array<seq<T>>, addedCount: nat)
      requires store.Many? && 0 < addedCount <= addedLists.Length
      modifies this`store
      ensures store.Many? && fresh(store.lists) && store.lists.Length == addedCount + old(store.lists.Length)
      ensures Lists() == addedLists[..addedCount] + old(Lists())
    {
      var oldCount := store.lists.Length;
      var grown := Realloc(store.lists, oldCount + addedCount);
      ghost var before := store.lists[..];
      MoveUp(grown, addedCount, oldCount);
      assert grown[addedCount..] == before;
      CopyFront(grown, addedLists, addedCount);
      assert grown[..] == grown[..addedCount] + grown[addedCount..];
      store := Many(grown);
    }

    /** No list or one to several: a new array. */
    method AttachToFew(addedLists: array<seq<T>>, addedCount: nat)
      requires !store.Many? && 0 < addedCount <= addedLists.Length && (store.Empty? ==> addedCount > 1)
      modifies this`store
      ensures store.Many? && fresh(store.lists) && store.lists.Length >= 2
      ensures Lists() == addedLists[..addedCount] + old(Lists())
    {
      var oldCount := if store.One? then 1 else 0;
      var lists := new seq<T>[oldCount + addedCount](_ => []);
      if store.One? {
        lists[addedCount] := store.list;
      }
      CopyFront(lists, addedLists, addedCount);
      assert lists[..] == lists[..addedCount] + lists[addedCount..];
      store := Many(lists);
    }

    function CountLists(): (n: nat)
      reads this, Footprint()
      ensures n == |Lists()|
    {
      match store
      case Empty => 0
      case One(_) => 1
      case Many(lists) => lists.Length
    }

    /** The lists that beginLists and endLists delimit. */
    function Delimited(): (all: seq<seq<T>>)
      reads this, Footprint()
      ensures all == Lists()
    {
      match store
      case Empty => []
      case One(list) => [list]
      case Many(lists) => lists[..]
    }

    /** count: the number of elements, as a 32-bit sum. */
    method Count() returns (result: nat)
      ensures result == |Flatten(Lists())| % WORD32
    {
      result := 0;
      var all := Delimited();
      var i := 0;
      while i < |all|
        invariant i <= |all| && result == |Flatten(all[..i])| % WORD32
      {
        result := (result + |all[i]|) % WORD32;
        FlattenSplit(all, i);
        i := i + 1;
      }
      assert all[..i] == all;
    }

    /** The elements from begin() to end(). */
    method Enumerate() returns (elements: seq<T>, ok: bool)
      ensures ok <==> NoneEmpty(Lists())
      ensures ok ==> elements == Flatten(Lists())
    {
      var all := Delimited();
      elements, ok := FromBeginToEnd(all);
    }
  }

  /** The loop from begin() to end(). It runs off the end of an empty list, and so it
      lists the elements exactly when no list is empty. */
  method FromBeginToEnd<T>(all: seq<seq<T>>) returns (elements: seq<T>, ok: bool)
    ensures ok <==> NoneEmpty(all)
    ensures ok ==> elements == Flatten(all)
  {
    var it := new Iterator<T>(all, 0, |all|);
    var end := new Iterator<T>(all, |all|, |all|);
    elements := [];
    AllRemain(it);
    while it.Differs(end)
      invariant it.Valid() && it.all == all && it.listsEnd == |all| && end.lists == |all|
      invariant elements + it.Remaining() == Flatten(all)
      invariant it.NoneEmptySoFar()
      decreases |it.Remaining()|
    {
      if it.m == it.mEnd {
        return elements, false;
      }
      ghost var rest := it.Remaining();
      it.ElementIsFirst();
      elements := elements + [it.Element()];
      it.Next();
    }
    assert all[..|all|] == all;
    ok := true;
  }

  lemma AllRemain<T>(it: Iterator<T>)
    requires it.Valid() && it.lists == 0 && it.listsEnd == |it.all| && (it.all != [] ==> it.m == 0)
    ensures it.Remaining() == Flatten(it.all)
  {
    assert it.all == [] || it.all == [it.all[0]] + it.all[1..|it.all|];
  }

  /** realloc: a larger array with the same beginning. */
  method Realloc<T>(a: array<seq<T>>, n: nat) returns (b: array<seq<T>>)
    requires a.Length <= n
    ensures fresh(b) && b.Length == n && b[..a.Length] == a[..]
  {
    b := new seq<T>[n](i requires 0 <= i < n reads a => if i < a.Length then a[i] else []);
  }

  /** memmove within one array. */
  method MoveUp<T>(a: array<seq<T>>, shift: nat, n: nat)
    requires shift + n == a.Length
    modifies a
    ensures a[shift..] == old(a[..n])
  {
    var i := n;
    while i > 0
      invariant 0 <= i <= n && a[shift + i..] == old(a[i..n]) && a[..i] == old(a[..i])
    {
      i := i - 1;
      a[shift + i] := a[i];
    }
  }

  /** memcpy to the front of an array. */
  method CopyFront<T>(a: array<seq<T>>, b: array<seq<T>>, n: nat)
    requires a != b && n <= a.Length && n <= b.Length
    modifies a
    ensures a[..n] == b[..n] && a[n..] == old(a[n..])
  {
    var i := 0;
    while i < n
      invariant i <= n && a[..i] == b[..i] && a[n..] == old(a[n..])
    {
      a[i] := b[i];
      i := i + 1;
    }
  }
}
