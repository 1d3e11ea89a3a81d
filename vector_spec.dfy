/**
 * The abstract meaning of the vector's operations on its live contents, and the
 * growth rule its PushBack and Insert share.
 */
module VectorSpec {

  /** n copies of v: what the sized constructors and default-filling growth produce. */
  function Filled<T>(n: nat, v: T): (r: seq<T>)
    ensures |r| == n && forall i :: 0 <= i < n ==> r[i] == v
  {
    seq(n, _ => v)
  }

  /** s with v placed at position p and everything from p on moved one slot to the tail. */
  function Inserted<T>(s: seq<T>, p: nat, v: T): (r: seq<T>)
    requires p <= |s|
    ensures |r| == |s| + 1 && r[p] == v
    ensures forall i :: 0 <= i < p ==> r[i] == s[i]
    ensures forall i :: p < i < |r| ==> r[i] == s[i - 1]
  {
    s[..p] + [v] + s[p..]
  }

  /** s with the element at position p removed and everything after it moved one slot to the front. */
  function Erased<T>(s: seq<T>, p: nat): (r: seq<T>)
    requires p < |s|
    ensures |r| == |s| - 1
    ensures forall i :: 0 <= i < p ==> r[i] == s[i]
    ensures forall i :: p <= i < |r| ==> r[i] == s[i + 1]
  {
    s[..p] + s[p + 1..]
  }

  /** Inserted is the only sequence with its pointwise description. */
  lemma InsertedUnique<T>(r: seq<T>, s: seq<T>, p: nat, v: T)
    requires p <= |s| && |r| == |s| + 1 && r[p] == v
    requires forall i :: 0 <= i < p ==> r[i] == s[i]
    requires forall i :: p < i < |r| ==> r[i] == s[i - 1]
    ensures r == Inserted(s, p, v)
  {
  }

  /** Erased is the only sequence with its pointwise description. */
  lemma ErasedUnique<T>(r: seq<T>, s: seq<T>, p: nat)
    requires p < |s| && |r| == |s| - 1
    requires forall i :: 0 <= i < p ==> r[i] == s[i]
    requires forall i :: p <= i < |r| ==> r[i] == s[i + 1]
    ensures r == Erased(s, p)
  {
  }

  /** Erasing at the position just inserted at gives back the original sequence. */
  lemma EraseAfterInsert<T>(s: seq<T>, p: nat, v: T)
    requires p <= |s|
    ensures Erased(Inserted(s, p, v), p) == s
  {
  }

  /** Inserting back at p the element that was erased there gives back the original sequence. */
  lemma InsertAfterErase<T>(s: seq<T>, p: nat)
    requires p < |s|
    ensures Inserted(Erased(s, p), p, s[p]) == s
  {
  }

  /**
   * The three-way growth rule of PushBack and Insert: capacity 0 becomes 1, a full
   * vector doubles, otherwise there is room and the capacity is kept. Afterwards
   * there is always room for one more element, and the capacity never shrinks.
   */
  function GrownCapacity(capacity: nat, size: nat): (r: nat)
    requires size <= capacity
    ensures size < r && capacity <= r <= 2 * capacity + 1
    ensures capacity != size ==> r == capacity
  {
    if capacity == 0 then 1
    else if capacity == size then 2 * capacity
    else capacity
  }

  /** The capacity of a vector after n PushBack calls starting from the empty vector. */
  function CapacityAfterPushes(n: nat): nat
  {
    if n == 0 then 0 else GrownCapacity(CapacityAfterPushes(n - 1), n - 1)
  }

  /** How many of those n PushBack calls took the reallocating branch (the vector was full). */
  function Reallocations(n: nat): nat
  {
    if n == 0 then 0
    else Reallocations(n - 1) + (if CapacityAfterPushes(n - 1) == n - 1 then 1 else 0)
  }

  function Pow2(k: nat): (r: nat)
    ensures r >= 1
  {
    if k == 0 then 1 else 2 * Pow2(k - 1)
  }

  /**
   * The doubling schedule 0, 1, 2, 4, 8, ...: after n >= 1 pushes the capacity is the
   * power of two 2^(m-1), m being the number of reallocations, and it lies in [n, 2n),
   * so it is the least power of two that holds n elements and m = ceil(log2 n) + 1.
   */
  lemma {:induction false} DoublingSchedule(n: nat)
    requires n >= 1
    ensures Reallocations(n) >= 1
    ensures CapacityAfterPushes(n) == Pow2(Reallocations(n) - 1)
    ensures n <= CapacityAfterPushes(n) < 2 * n
  {
    if n > 1 {
      DoublingSchedule(n - 1);
    }
  }
}
