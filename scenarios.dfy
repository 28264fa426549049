/** Client code that drives the list through its interface, with the
    outcomes each sequence of calls promises. */
module Scenarios {

  import opened SingleLinkedLists
  import Comparisons

  /** Swapping two lists twice gives each its own elements and nodes back. */
  method SwapTwice<T(0)>(a: SingleLinkedList<T>, b: SingleLinkedList<T>)
    requires a.Valid() && b.Valid()
    requires a == b || a.Repr() !! b.Repr()
    modifies a, a.head, b, b.head
    ensures a.Valid() && b.Valid()
    ensures a.Contents == old(a.Contents) && b.Contents == old(b.Contents)
    ensures a.chain == old(a.chain) && b.chain == old(b.chain)
  {
    Swap(a, b);
    Swap(a, b);
    assert a.chain == [a.head] + a.chain[1..] && b.chain == [b.head] + b.chain[1..];
  }

  /** A copy keeps the elements it was made with when the original
      changes afterwards. */
  method CopyIsIndependent(source: SingleLinkedList<int>) returns (copy: SingleLinkedList<int>)
    requires source.Valid()
    modifies source, source.head
    ensures copy.Valid() && source.Valid()
    ensures copy.Contents == old(source.Contents)
    ensures source.Contents == [0] + old(source.Contents)
  {
    copy := new SingleLinkedList.Copy(source);
    source.PushFront(0);
  }

  /** Changing a copy leaves the original as it was: the original is not
      even among the objects the calls may modify. */
  method OriginalIsIndependent(source: SingleLinkedList<int>) returns (copy: SingleLinkedList<int>)
    requires source.Valid()
    ensures copy.Valid() && copy.Contents == []
    ensures source.Valid() && source.Contents == old(source.Contents)
  {
    copy := new SingleLinkedList.Copy(source);
    copy.PushFront(7);
    copy.Clear();
  }

  /** On any non-empty list, removing the front element and pushing it
      back gives a list equal to a copy taken before, of the same size. */
  method FrontRoundTrip<T(0,==)>(list: SingleLinkedList<T>) returns (same: bool, size: nat)
    requires list.Valid() && !list.IsEmpty()
    modifies list, list.head
    ensures list.Valid() && same && size == |old(list.Contents)|
  {
    var copy := new SingleLinkedList.Copy(list);
    assert list !in copy.Repr() && list.head !in copy.Repr();
    var front := list.Begin().Deref();
    list.PopFront();
    list.PushFront(front);
    assert list.Contents == old(list.Contents);
    same := Equal(list, copy);
    size := list.GetSize();
  }

  /** Erasing after `before_begin()` removes the first element and yields
      the new first one; inserting after that yields the new node. */
  method EditAtFront() returns (afterEdit: seq<int>, inserted: int)
    ensures afterEdit == [2, 5, 3] && inserted == 5
  {
    var list := new SingleLinkedList.FromValues([1, 2, 3]);
    var first := list.EraseAfter(list.BeforeBegin());
    list.PositionAt(1);
    assert first.node in list.Repr();
    var it := list.InsertAfter(first, 5);
    afterEdit := list.Values();
    inserted := it.Deref();
  }

  /** Assigning through the iterator at the second element of `{1, 2, 3}`
      changes only that element. */
  method WriteThroughIterator() returns (afterWrite: seq<int>)
    ensures afterWrite == [1, 7, 3]
  {
    var list := new SingleLinkedList.FromValues([1, 2, 3]);
    list.IterStep(0);
    var it := list.Begin().Next();
    list.PositionAt(2);
    assert it.node in list.Repr();
    list.SetValue(it, 7);
    afterWrite := list.Values();
  }

  /** Clearing a non-empty list leaves `begin() == end()`. */
  method ClearEmpties() returns (emptied: bool, size: nat)
    ensures emptied && size == 0
  {
    var list := new SingleLinkedList.FromValues([1, 2, 3]);
    list.Clear();
    emptied := list.IsEmpty() && list.Begin() == list.End();
    size := list.GetSize();
  }

  /** `{} < {1}`: the empty list precedes every other. */
  method EmptyFirst() returns (emptyFirst: bool, notBack: bool)
    ensures emptyFirst && notBack
  {
    var empty := new SingleLinkedList<int>();
    var one := new SingleLinkedList.FromValues([1]);
    Comparisons.IntExamples();
    emptyFirst := Less(empty, one, Comparisons.IntLess);
    notBack := !Less(one, empty, Comparisons.IntLess) && NotEqual(empty, one);
  }

  /** `{1, 2} < {1, 2, 3}`: a proper prefix comes first, and `<=` and `>=`
      agree. */
  method PrefixFirst() returns (prefixFirst: bool, derived: bool)
    ensures prefixFirst && derived
  {
    var a := new SingleLinkedList.FromValues([1, 2]);
    var b := new SingleLinkedList.FromValues([1, 2, 3]);
    Comparisons.IntExamples();
    prefixFirst := Less(a, b, Comparisons.IntLess);
    derived := LessOrEqual(a, b, Comparisons.IntLess) && !GreaterOrEqual(a, b, Comparisons.IntLess);
  }

  /** `{1, 2, 3} < {1, 3}`: the first differing element decides, whatever
      the lengths, and `>` and `!=` agree. */
  method LaterElementDecides() returns (laterDecides: bool, derived: bool)
    ensures laterDecides && derived
  {
    var b := new SingleLinkedList.FromValues([1, 2, 3]);
    var c := new SingleLinkedList.FromValues([1, 3]);
    Comparisons.IntExamples();
    laterDecides := Less(b, c, Comparisons.IntLess);
    derived := Greater(c, b, Comparisons.IntLess) && NotEqual(b, c);
  }
}
