/**
 * The three standard algorithms the vector uses on its buffers:
 * std::fill (and FillWithDefaultValue, which is std::fill with Type{}),
 * std::copy / std::move over a range, and std::copy_backward / std::move_backward.
 * Each is a loop over an array, specified slot by slot against the old array.
 * std::copy_backward is also given as a function on a buffer value that performs
 * its assignments one at a time, with no precondition on where the destination lies.
 */
module Algorithms {
  import opened Wrappers

  /** Every slot of a[from..to) becomes `value`; every other slot keeps its old value. */
  method FillRange<T>(a: array<T>, from: nat, to: nat, value: T)
    requires from <= to <= a.Length
    modifies a
    ensures forall j :: 0 <= j < a.Length ==> a[j] == if from <= j < to then value else old(a[j])
  {
    var i := from;
    while i != to
      invariant from <= i <= to
      invariant forall j :: 0 <= j < a.Length ==> a[j] == if from <= j < i then value else old(a[j])
    {
      a[i] := value;
      i := i + 1;
    }
  }

  /**
   * Forward copy of src[first..last) to dst starting at dFirst. Within one array the
   * destination start must not lie in [first, last), the condition std::copy and
   * std::move place on their output iterator.
   */
  method CopyRange<T>(src: array<T>, first: nat, last: nat, dst: array<T>, dFirst: nat)
    requires first <= last <= src.Length
    requires dFirst + (last - first) <= dst.Length
    requires src == dst ==> !(first <= dFirst < last)
    modifies dst
    ensures forall j :: 0 <= j < dst.Length ==>
      dst[j] == if dFirst <= j < dFirst + (last - first) then old(src[j - dFirst + first]) else old(dst[j])
  {
    var k := 0;
    while k != last - first
      invariant 0 <= k <= last - first
      invariant forall j :: 0 <= j < dst.Length ==>
        dst[j] == if dFirst <= j < dFirst + k then old(src[j - dFirst + first]) else old(dst[j])
      invariant src != dst ==> forall j :: 0 <= j < src.Length ==> src[j] == old(src[j])
    {
      dst[dFirst + k] := src[first + k];
      k := k + 1;
    }
  }

  /**
   * Backward copy of src[first..last) into the range of dst that ends at dLast, last
   * element first. Within one array dLast must not lie in (first, last], the
   * condition std::copy_backward places on its output iterator. When the destination
   * end lies at or past the source end, the array loop computes what the assignments
   * of CopyBackwardSteps compute on the old buffer.
   */
  method CopyRangeBackward<T>(src: array<T>, first: nat, last: nat, dst: array<T>, dLast: nat)
    requires first <= last <= src.Length
    requires last - first <= dLast <= dst.Length
    requires src == dst ==> !(first < dLast <= last)
    modifies dst
    ensures forall j :: 0 <= j < dst.Length ==>
      dst[j] == if dLast - (last - first) <= j < dLast then old(src[j - dLast + last]) else old(dst[j])
    ensures src == dst && last <= dLast ==> CopyBackwardSteps(old(dst[..]), first, last, dLast) == Some(dst[..])
  {
    var k := 0;
    while k != last - first
      invariant 0 <= k <= last - first
      invariant forall j :: 0 <= j < dst.Length ==>
        dst[j] == if dLast - k <= j < dLast then old(src[j - dLast + last]) else old(dst[j])
      invariant src != dst ==> forall j :: 0 <= j < src.Length ==> src[j] == old(src[j])
    {
      dst[dLast - 1 - k] := src[last - 1 - k];
      k := k + 1;
    }
    if src == dst && last <= dLast {
      CopyBackwardShifts(old(dst[..]), first, last, dLast);
      var r := CopyBackwardSteps(old(dst[..]), first, last, dLast).value;
      assert r == dst[..] by {
        forall j | 0 <= j < dst.Length ensures r[j] == dst[j] {
          if dLast - (last - first) <= j < dLast {
            assert r[j] == old(dst[..])[j - dLast + last];
          } else {
            assert r[j] == old(dst[..])[j];
          }
        }
      }
    }
  }

  /**
   * std::copy_backward(first, last, dLast) on buffer a, performing `*--dLast = *--last`
   * one assignment at a time. None when an assignment would land before the start of
   * the buffer. Where the standard's precondition (dLast not in (first, last]) is broken
   * the call is undefined behaviour; this function gives only the element-by-element
   * effect, which a memmove-based copy need not share.
   */
  function CopyBackwardSteps<T>(a: seq<T>, first: nat, last: nat, dLast: nat): (r: Option<seq<T>>)
    requires first <= last <= |a| && dLast <= |a|
    ensures r.None? <==> dLast < last - first
    ensures r.Some? ==> |r.value| == |a|
    decreases last - first
  {
    if last == first then Some(a)
    else if dLast == 0 then None
    else CopyBackwardSteps(a[dLast - 1 := a[last - 1]], first, last - 1, dLast - 1)
  }

  /**
   * When the destination end lies at or past the source end the steps never read a
   * slot they already wrote: the result is the source range moved to end at dLast.
   */
  lemma {:induction false} CopyBackwardShifts<T>(a: seq<T>, first: nat, last: nat, dLast: nat)
    requires first <= last <= dLast <= |a|
    ensures CopyBackwardSteps(a, first, last, dLast).Some?
    ensures var r := CopyBackwardSteps(a, first, last, dLast).value;
      forall j :: dLast - (last - first) <= j < dLast ==> r[j] == a[j - dLast + last]
    ensures var r := CopyBackwardSteps(a, first, last, dLast).value;
      forall j :: 0 <= j < |a| && !(dLast - (last - first) <= j < dLast) ==> r[j] == a[j]
    decreases last - first
  {
    if last != first {
      var a' := a[dLast - 1 := a[last - 1]];
      CopyBackwardShifts(a', first, last - 1, dLast - 1);
      var r := CopyBackwardSteps(a', first, last - 1, dLast - 1).value;
      assert CopyBackwardSteps(a, first, last, dLast).value == r;
      assert r[dLast - 1] == a'[dLast - 1];
    }
  }
}
