/**
 * Callers of SimpleVector that use only the contracts of its members: a worked
 * sequence of operations, the independence of a copy, the round trips of
 * Insert/Erase and PushBack/PopBack, and the capacity schedule of repeated PushBack.
 */
module Clients {
  import opened Wrappers
  import opened VectorSpec
  import opened Vector

  /**
   * {1, 2, 3}; PushBack(4); Insert(1, 99); Erase(0); At(10); Resize(2); Resize(6).
   * The full vector of capacity 3 grows to 6, and the last Resize fits in place.
   */
  method Walkthrough() returns (contents: seq<int>, cap: nat, outOfRange: Result<int>)
    ensures contents == [99, 2, 0, 0, 0, 0] && cap == 6 && outOfRange == Failure(OutOfRange)
  {
    var v := new SimpleVector.FromList([1, 2, 3], 0);
    v.PushBack(4);
    assert v.Contents() == [1, 2, 3, 4] && v.capacity == 6;
    var at := v.Insert(1, 99);
    assert v.Contents() == [1, 99, 2, 3, 4] && v.capacity == 6;
    at := v.Erase(0);
    assert v.Contents() == [99, 2, 3, 4];
    outOfRange := v.At(10);
    v.Resize(2);
    assert v.Contents() == [99, 2];
    v.Resize(6);
    assert v.Contents() == [99, 2] + Filled(4, 0) == [99, 2, 0, 0, 0, 0];
    contents := v.buf[..v.size];
    cap := v.GetCapacity();
  }

  /** A copy has its own buffer: mutating the copy leaves the original as it was. */
  method CopyThenMutate<T(0)>(v: SimpleVector<T>, x: T) returns (c: SimpleVector<T>)
    requires v.Valid()
    ensures v.Valid() && v.Contents() == old(v.Contents())
    ensures fresh(c) && c.Valid() && c.Contents() == old(v.Contents()) + [x]
  {
    c := new SimpleVector.Copy(v);
    c.PushBack(x);
    var at := c.Insert(0, x);
    at := c.Erase(at);
  }

  /** Insert(pos, x) followed by Erase at the returned position restores the contents. */
  method InsertThenErase<T(0)>(v: SimpleVector<T>, pos: nat, x: T)
    requires v.Valid() && pos <= |v.Contents()|
    modifies v, v.buf
    ensures v.Valid() && v.Contents() == old(v.Contents()) && v.capacity >= old(v.capacity)
  {
    var at := v.Insert(pos, x);
    at := v.Erase(at);
    EraseAfterInsert(old(v.Contents()), pos, x);
  }

  /** PushBack followed by PopBack restores the contents; the capacity may have grown. */
  method PushThenPop<T(0)>(v: SimpleVector<T>, x: T)
    requires v.Valid()
    modifies v, v.buf
    ensures v.Valid() && v.Contents() == old(v.Contents()) && v.capacity >= old(v.capacity)
  {
    v.PushBack(x);
    v.PopBack();
  }

  /**
   * Pushing n items one by one into an empty vector: the capacity follows the doubling
   * schedule, so it ends as the least power of two that holds all n items.
   */
  method PushAll<T(0)>(items: seq<T>, zero: T) returns (v: SimpleVector<T>)
    ensures fresh(v) && v.Valid() && v.Contents() == items
    ensures v.capacity == CapacityAfterPushes(|items|)
    ensures |items| >= 1 ==> |items| <= v.capacity < 2 * |items|
  {
    v := new SimpleVector.Empty(zero);
    var i := 0;
    while i != |items|
      invariant 0 <= i <= |items|
      invariant fresh(v) && fresh(v.buf) && v.Valid()
      invariant v.Contents() == items[..i] && v.capacity == CapacityAfterPushes(i)
    {
      v.PushBack(items[i]);
      assert items[..i + 1] == items[..i] + [items[i]];
      i := i + 1;
    }
    assert items[..i] == items;
    if |items| >= 1 {
      DoublingSchedule(|items|);
    }
  }
}
