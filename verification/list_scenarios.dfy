/** Client-side consequences of the list's contracts: what a caller of
    `DynamicLinkedList` can conclude from the specifications alone. */
module ListScenarios {
  import opened LinkedList

  /** The sequence of calls in src/test.rs:4-11: three appends to a new list
      leave the elements in insertion order. */
  method AppendThree() returns (l: DynamicLinkedList<int>)
    ensures l.Valid() && fresh(l.Repr) && l.Elems == [10, 20, 30]
  {
    l := new DynamicLinkedList();
    l.Insert(10);
    l.Insert(20);
    l.Insert(30);
  }

  /** Inserting at index 0 of an empty list gives the one-element list. */
  method PrependToEmpty(x: int) returns (l: DynamicLinkedList<int>)
    ensures l.Valid() && l.Elems == [x]
  {
    l := new DynamicLinkedList();
    l.InsertAtIndex(0, x);
  }

  /** A positive index changes nothing, within the chain (1) and past its
      end (5) alike; index 0 still prepends afterwards. */
  method PositiveIndexLeavesList(x: int) returns (l: DynamicLinkedList<int>)
    ensures l.Valid() && l.Elems == [x, 10, 20, 30]
  {
    l := AppendThree();
    l.InsertAtIndex(1, 99);
    assert l.Elems == [10, 20, 30];
    l.InsertAtIndex(5, 99);
    assert l.Elems == [10, 20, 30];
    l.InsertAtIndex(0, x);
  }
}
