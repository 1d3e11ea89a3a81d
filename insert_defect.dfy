/**
 * The in-place branch of the copying Insert overload (simple_vector.h:280) passes
 * pos + 1 as the destination end of std::copy_backward, where the moving overload
 * (simple_vector.h:307) passes size + 1. For pos < size the destination end pos + 1
 * lies in (pos, size], which breaks copy_backward's precondition, so the call is
 * undefined behaviour. This module gives the element-by-element effect of that call
 * (Algorithms.CopyBackwardSteps), shows that even this effect is not the insertion,
 * and proves the size + 1 form is the insertion the documentation promises.
 */
module InsertDefect {
  import opened Wrappers
  import opened VectorSpec
  import opened Algorithms

  /** Shifting with d_last = size + 1 and then writing value at pos gives the insertion. */
  lemma ShiftThenWriteInserts<T>(a: seq<T>, size: nat, pos: nat, value: T)
    requires pos <= size < |a|
    ensures CopyBackwardSteps(a, pos, size, size + 1).Some?
    ensures CopyBackwardSteps(a, pos, size, size + 1).value[pos := value][..size + 1] == Inserted(a[..size], pos, value)
  {
    CopyBackwardShifts(a, pos, size, size + 1);
    var b := CopyBackwardSteps(a, pos, size, size + 1).value;
    var r := b[pos := value][..size + 1];
    forall i | 0 <= i < pos ensures r[i] == a[..size][i] {
      assert r[i] == b[i] == a[i];
    }
    forall i | pos < i < |r| ensures r[i] == a[..size][i - 1] {
      assert r[i] == b[i];
    }
    InsertedUnique(r, a[..size], pos, value);
  }

  /**
   * The in-place Insert as written at line 280: shift with d_last = pos + 1, then
   * write value, taking the element-by-element effect of the shift. An insert with
   * 2 * pos + 1 < size writes before the buffer; an append at pos == size is right.
   */
  function InsertInPlaceAsWritten<T>(a: seq<T>, size: nat, pos: nat, value: T): (r: Option<seq<T>>)
    requires pos <= size < |a|
    ensures r.None? <==> 2 * pos + 1 < size
    ensures r.Some? ==> |r.value| == size + 1 && r.value[pos] == value
    ensures pos == size ==> r == Some(Inserted(a[..size], pos, value))
  {
    assert pos == size ==> a[pos := value][..size + 1] == Inserted(a[..size], pos, value);
    match CopyBackwardSteps(a, pos, size, pos + 1)
    case None => None
    case Some(b) => Some(b[pos := value][..size + 1])
  }

  /** The in-place Insert with d_last = size + 1, as at line 307: exactly the promised insertion. */
  function InsertInPlace<T>(a: seq<T>, size: nat, pos: nat, value: T): (r: Option<seq<T>>)
    requires pos <= size < |a|
    ensures r == Some(Inserted(a[..size], pos, value))
  {
    ShiftThenWriteInserts(a, size, pos, value);
    match CopyBackwardSteps(a, pos, size, size + 1)
    case None => None
    case Some(b) => Some(b[pos := value][..size + 1])
  }

  /**
   * As written, an insert before the last element keeps the first size - 1 elements,
   * puts value next and then the spare slot a[size] instead of the old last element.
   */
  lemma {:induction false} AsWrittenAtLastTakesSpareSlot<T>(a: seq<T>, size: nat, value: T)
    requires 1 <= size < |a|
    ensures InsertInPlaceAsWritten(a, size, size - 1, value) == Some(a[..size - 1] + [value, a[size]])
  {
    var p := size - 1;
    assert a[p := a[size - 1]] == a;
    assert CopyBackwardSteps(a, p, size, p + 1) == CopyBackwardSteps(a, p, p, p) == Some(a);
    var r := a[p := value][..size + 1];
    assert r == a[..size - 1] + [value, a[size]];
  }

  /**
   * {1, 2} in a buffer with one spare slot, inserting 9 at position 1: the call is
   * undefined behaviour (d_last = last), and its element-by-element effect loses the 2.
   */
  lemma AsWrittenLosesAnElement()
    ensures InsertInPlaceAsWritten([1, 2, 0], 2, 1, 9) == Some([1, 9, 0])
    ensures InsertInPlace([1, 2, 0], 2, 1, 9) == Some([1, 9, 2])
  {
    AsWrittenAtLastTakesSpareSlot([1, 2, 0], 2, 9);
    assert [1, 2, 0][..1] + [9, 0] == [1, 9, 0];
    assert [1, 2, 0][..2] == [1, 2];
    InsertedUnique([1, 9, 2], [1, 2], 1, 9);
  }

  /**
   * {1, 2, 3} with one spare slot, inserting 9 at position 1: the call is undefined
   * behaviour, and its element-by-element effect overwrites the 1 and loses the 2.
   */
  lemma AsWrittenOverwritesPrefix()
    ensures InsertInPlaceAsWritten([1, 2, 3, 0], 3, 1, 9) == Some([3, 9, 3, 0])
    ensures InsertInPlace([1, 2, 3, 0], 3, 1, 9) == Some([1, 9, 2, 3])
  {
    assert [1, 2, 3, 0][1 := 3] == [1, 3, 3, 0];
    assert [1, 3, 3, 0][0 := 3] == [3, 3, 3, 0];
    assert CopyBackwardSteps([1, 2, 3, 0], 1, 3, 2) == CopyBackwardSteps([1, 3, 3, 0], 1, 2, 1);
    assert CopyBackwardSteps([1, 3, 3, 0], 1, 2, 1) == CopyBackwardSteps([3, 3, 3, 0], 1, 1, 0);
    assert [3, 3, 3, 0][1 := 9][..4] == [3, 9, 3, 0];
    assert [1, 2, 3, 0][..3] == [1, 2, 3];
    InsertedUnique([1, 9, 2, 3], [1, 2, 3], 1, 9);
  }
}
