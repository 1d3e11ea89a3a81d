/**
 * SimpleVector<Type>: a growable, contiguous, index-addressable sequence over one
 * owned buffer. The buffer is an array whose length is the capacity; the live
 * elements are its first `size` slots.
 */
module Vector {
  import opened Wrappers
  import opened Algorithms
  import opened VectorSpec

  /** The value object that selects the reserve-hint constructor. */
  datatype ReserveProxyObj = ReserveProxyObj(capacityToReserve: nat) {
    /** The requested capacity, which is all the object holds. */
    function GetCapacity(): (r: nat)
      ensures ReserveProxyObj(r) == this
    {
      capacityToReserve
    }
  }

  /** The free function Reserve(n): wraps the requested capacity in a hint. */
  function Reserve(capacityToReserve: nat): (r: ReserveProxyObj)
    ensures r.GetCapacity() == capacityToReserve
  {
    ReserveProxyObj(capacityToReserve)
  }

  function Max(a: nat, b: nat): nat { if a < b then b else a }

  /**
   * The buffer of a freshly constructed SimpleVector(n): n slots, each holding the
   * element type's default value `zero`.
   */
  method AllocateDefault<T(0)>(n: nat, zero: T) returns (a: array<T>)
    ensures fresh(a) && a.Length == n && a[..] == Filled(n, zero)
  {
    a := new T[n];
    FillRange(a, 0, n, zero);
  }

  /**
   * The reallocating branch of Insert: a new default-filled buffer of the given
   * capacity receives old[0..pos), then value, then old[pos..size) shifted by one.
   */
  method InsertIntoNewBuffer<T(0)>(source: array<T>, size: nat, pos: nat, value: T, newCapacity: nat, zero: T)
    returns (a: array<T>)
    requires pos <= size <= source.Length && size < newCapacity
    ensures fresh(a) && a.Length == newCapacity
    ensures a[..size + 1] == Inserted(source[..size], pos, value)
  {
    a := AllocateDefault(newCapacity, zero);
    CopyRange(source, 0, pos, a, 0);
    a[pos] := value;
    CopyRangeBackward(source, pos, size, a, size + 1);
    InsertedUnique(a[..size + 1], source[..size], pos, value);
  }

  /**
   * The in-place branch of Insert: a[pos..size) moves one slot toward the tail with a
   * backward copy ending at size + 1, then value is written at pos.
   */
  method InsertInBuffer<T>(a: array<T>, size: nat, pos: nat, value: T)
    requires pos <= size < a.Length
    modifies a
    ensures a[..size + 1] == Inserted(old(a[..size]), pos, value)
  {
    ghost var s := a[..size];
    CopyRangeBackward(a, pos, size, a, size + 1);
    a[pos] := value;
    InsertedUnique(a[..size + 1], s, pos, value);
  }

  class SimpleVector<T(0)> {
    var buf: array<T>
    var size: nat
    var capacity: nat
    /** The value Type{} that default-filled slots receive. */
    const zero: T

    ghost predicate Valid()
      reads this
    {
      buf.Length == capacity && size <= capacity
    }

    /** The live elements buffer[0..size). */
    ghost function Contents(): seq<T>
      reads this, buf
      requires Valid()
    {
      buf[..size]
    }

    /** SimpleVector(): size and capacity 0. */
    constructor Empty(zero: T)
      ensures Valid() && fresh(buf) && this.zero == zero
      ensures Contents() == [] && capacity == 0
    {
      buf := new T[0];
      size, capacity := 0, 0;
      this.zero := zero;
    }

    /** SimpleVector(n): n default values, size == capacity == n. */
    constructor Sized(n: nat, zero: T)
      ensures Valid() && fresh(buf) && this.zero == zero
      ensures Contents() == Filled(n, zero) && capacity == n
    {
      var a := new T[n];
      FillRange(a, 0, n, zero);
      buf, size, capacity := a, n, n;
      this.zero := zero;
    }

    /** SimpleVector(n, value): n copies of value, size == capacity == n. */
    constructor Repeated(n: nat, value: T, zero: T)
      ensures Valid() && fresh(buf) && this.zero == zero
      ensures Contents() == Filled(n, value) && capacity == n
    {
      var a := new T[n];
      FillRange(a, 0, n, value);
      buf, size, capacity := a, n, n;
      this.zero := zero;
    }

    /** SimpleVector(initializer_list): exactly the listed items, capacity == their number. */
    constructor FromList(init: seq<T>, zero: T)
      ensures Valid() && fresh(buf) && this.zero == zero
      ensures Contents() == init && capacity == |init|
    {
      var a := AllocateDefault(|init|, zero);
      var i := 0;
      while i != |init|
        invariant 0 <= i <= |init|
        invariant a[..i] == init[..i]
      {
        a[i] := init[i];
        i := i + 1;
      }
      buf, size, capacity := a, |init|, |init|;
      this.zero := zero;
    }

    /**
     * SimpleVector(ReserveProxyObj): starts empty and calls the member Reserve, so
     * the vector has size 0 and exactly the hinted capacity.
     */
    constructor WithReserve(hint: ReserveProxyObj, zero: T)
      ensures Valid() && fresh(buf) && this.zero == zero
      ensures Contents() == [] && capacity == hint.GetCapacity()
    {
      buf := new T[0];
      size, capacity := 0, 0;
      this.zero := zero;
      new;
      Reserve(hint.GetCapacity());
    }

    /** Copy constructor: equal contents in a new buffer whose capacity is other's size. */
    constructor Copy(other: SimpleVector<T>)
      requires other.Valid()
      ensures Valid() && fresh(buf) && zero == other.zero
      ensures Contents() == other.Contents() && capacity == other.size
    {
      var a := new T[other.size];
      CopyRange(other.buf, 0, other.size, a, 0);
      buf, size, capacity := a, other.size, other.size;
      zero := other.zero;
    }

    /** Move constructor: takes over other's buffer, size and capacity; other becomes empty. */
    constructor Move(other: SimpleVector<T>)
      requires other.Valid()
      modifies other
      ensures Valid() && other.Valid() && zero == other.zero
      ensures buf == old(other.buf) && size == old(other.size) && capacity == old(other.capacity)
      ensures Contents() == old(other.Contents())
      ensures other.size == 0 && other.capacity == 0 && fresh(other.buf)
    {
      buf, size, capacity := other.buf, other.size, other.capacity;
      zero := other.zero;
      new;
      other.buf := new T[0];
      other.size, other.capacity := 0, 0;
    }

    /**
     * Copy assignment: a no-op on itself; from an empty vector the target becomes
     * size 0 and capacity 0; otherwise the target holds a copy of rhs's contents in a
     * new buffer of capacity rhs.size. rhs is never changed.
     */
    method CopyAssign(rhs: SimpleVector<T>)
      requires Valid() && rhs.Valid()
      modifies this
      ensures Valid() && rhs.Valid() && rhs.Contents() == old(rhs.Contents())
      ensures rhs == this ==> Contents() == old(Contents()) && capacity == old(capacity) && buf == old(buf)
      ensures rhs != this ==> Contents() == old(rhs.Contents()) && capacity == old(rhs.size) && fresh(buf)
    {
      if this != rhs {
        if rhs.size == 0 {
          buf := new T[0];
          size, capacity := 0, 0;
        } else {
          var a := new T[rhs.size];
          CopyRange(rhs.buf, 0, rhs.size, a, 0);
          buf, size, capacity := a, rhs.size, rhs.size;
        }
      }
    }

    /**
     * Move assignment: a no-op on itself; otherwise the target takes over rhs's buffer,
     * size and capacity, and rhs is left with size 0 and capacity 0.
     */
    method MoveAssign(rhs: SimpleVector<T>)
      requires Valid() && rhs.Valid()
      modifies this, rhs
      ensures Valid() && rhs.Valid()
      ensures rhs == this ==> Contents() == old(Contents()) && capacity == old(capacity) && buf == old(buf)
      ensures rhs != this ==> buf == old(rhs.buf) && size == old(rhs.size) && capacity == old(rhs.capacity)
      ensures rhs != this ==> Contents() == old(rhs.Contents())
      ensures rhs != this ==> rhs.size == 0 && rhs.capacity == 0 && fresh(rhs.buf)
    {
      if this != rhs {
        buf, size, capacity := rhs.buf, rhs.size, rhs.capacity;
        rhs.buf := new T[0];
        rhs.size, rhs.capacity := 0, 0;
      }
    }

    /** The number of live elements. */
    method GetSize() returns (n: nat)
      requires Valid()
      ensures n == |Contents()|
    {
      n := size;
    }

    /** The number of allocated slots, live or not. */
    method GetCapacity() returns (c: nat)
      requires Valid()
      ensures c == buf.Length && |Contents()| <= c
    {
      c := capacity;
    }

    method IsEmpty() returns (b: bool)
      requires Valid()
      ensures b <==> Contents() == []
    {
      b := size == 0;
    }

    /** operator[] const: unchecked read; the caller guarantees index < size. */
    method Get(index: nat) returns (x: T)
      requires Valid() && index < |Contents()|
      ensures x == Contents()[index]
    {
      x := buf[index];
    }

    /** operator[] used for writing: unchecked; the caller guarantees index < size. */
    method Set(index: nat, x: T)
      requires Valid() && index < |Contents()|
      modifies buf
      ensures Valid() && Contents() == old(Contents())[index := x]
    {
      buf[index] := x;
    }

    /** At: the element at index when index < size, an out-of-range error otherwise. */
    method At(index: nat) returns (r: Result<T>)
      requires Valid()
      ensures index < |Contents()| ==> r == Ok(Contents()[index])
      ensures index >= |Contents()| ==> r == Failure(OutOfRange)
    {
      if index < size {
        r := Ok(buf[index]);
      } else {
        r := Failure(OutOfRange);
      }
    }

    /** Clear: size becomes 0, the capacity and the buffer are kept. */
    method Clear()
      requires Valid()
      modifies this
      ensures Valid() && Contents() == [] && capacity == old(capacity) && buf == old(buf)
    {
      size := 0;
    }

    /**
     * Resize(n): shrinking keeps the first n elements; growing appends default values,
     * in place while n fits the capacity, and otherwise in a new buffer whose capacity
     * is max(2 * capacity, n).
     */
    method Resize(n: nat)
      requires Valid()
      modifies this, buf
      ensures Valid() && |Contents()| == n
      ensures n <= old(size) ==> Contents() == old(Contents())[..n]
      ensures old(size) < n ==> Contents() == old(Contents()) + Filled(n - old(size), zero)
      ensures n <= old(capacity) ==> capacity == old(capacity) && buf == old(buf)
      ensures n > old(capacity) ==> capacity == Max(2 * old(capacity), n) && fresh(buf)
    {
      if n > size {
        if n > capacity {
          var maxSize := Max(2 * capacity, n);
          var bigger := new T[maxSize];
          CopyRange(buf, 0, size, bigger, 0);
          FillRange(bigger, size, maxSize, zero);
          buf, size, capacity := bigger, n, maxSize;
        } else {
          FillRange(buf, size, n, zero);
          size := n;
        }
      } else {
        size := n;
      }
      assert old(size) < n ==> buf[..size] == old(buf[..size]) + Filled(n - old(size), zero);
    }

    /**
     * PushBack: item becomes the new last element. The capacity follows the growth
     * rule; only a vector without room gets a new buffer.
     */
    method PushBack(item: T)
      requires Valid()
      modifies this, buf
      ensures Valid() && Contents() == old(Contents()) + [item]
      ensures capacity == GrownCapacity(old(capacity), old(size))
      ensures if old(size) < old(capacity) then buf == old(buf) else fresh(buf)
    {
      if capacity == 0 {
        var a := AllocateDefault(1, zero);
        a[0] := item;
        buf, size, capacity := a, 1, 1;
      } else if capacity == size {
        var a := AllocateDefault(2 * capacity, zero);
        CopyRange(buf, 0, size, a, 0);
        a[size] := item;
        buf, size, capacity := a, size + 1, 2 * capacity;
      } else {
        buf[size] := item;
        size := size + 1;
      }
      assert buf[..size] == old(buf[..size]) + [item];
    }

    /**
     * Insert(pos, value): value is placed at pos and the elements from pos on move one
     * slot toward the tail; the result is pos, which now holds value. The capacity
     * follows the same growth rule as PushBack. The in-place shift ends at size + 1
     * (the move overload); the copy overload's shift is recorded as a defect.
     */
    method Insert(pos: nat, value: T) returns (r: nat)
      requires Valid() && pos <= |Contents()|
      modifies this, buf
      ensures Valid() && Contents() == Inserted(old(Contents()), pos, value)
      ensures r == pos && r < |Contents()| && Contents()[r] == value
      ensures capacity == GrownCapacity(old(capacity), old(size))
      ensures if old(size) < old(capacity) then buf == old(buf) else fresh(buf)
    {
      if capacity == 0 {
        var a := AllocateDefault(1, zero);
        a[0] := value;
        buf, size, capacity := a, 1, 1;
        assert buf[..size] == [value];
      } else if capacity == size {
        var a := InsertIntoNewBuffer(buf, size, pos, value, 2 * capacity, zero);
        buf, size, capacity := a, size + 1, 2 * capacity;
      } else {
        InsertInBuffer(buf, size, pos, value);
        size := size + 1;
      }
      r := pos;
    }

    /** PopBack: drops the last element; on an empty vector it does nothing. */
    method PopBack()
      requires Valid()
      modifies this
      ensures Valid() && capacity == old(capacity) && buf == old(buf)
      ensures old(size) == 0 ==> Contents() == old(Contents())
      ensures old(size) > 0 ==> Contents() == old(Contents())[..old(size) - 1]
    {
      if size != 0 {
        size := size - 1;
      }
    }

    /**
     * Erase(pos): the element at pos is removed and the ones after it move one slot
     * toward the front; the result is pos, which now holds the old next element (or is
     * the end). Never reallocates.
     */
    method Erase(pos: nat) returns (r: nat)
      requires Valid() && pos < |Contents()|
      modifies this, buf
      ensures Valid() && Contents() == Erased(old(Contents()), pos)
      ensures r == pos && (r < |Contents()| ==> Contents()[r] == old(Contents())[pos + 1])
      ensures capacity == old(capacity) && buf == old(buf)
    {
      ghost var s := Contents();
      CopyRange(buf, pos + 1, size, buf, pos);
      size := size - 1;
      ErasedUnique(buf[..size], s, pos);
      r := pos;
    }

    /** swap: exchanges buffer, size and capacity with other. No element is touched. */
    method Swap(other: SimpleVector<T>)
      requires Valid() && other.Valid()
      modifies this, other
      ensures Valid() && other.Valid()
      ensures buf == old(other.buf) && size == old(other.size) && capacity == old(other.capacity)
      ensures other.buf == old(buf) && other.size == old(size) && other.capacity == old(capacity)
      ensures Contents() == old(other.Contents()) && other.Contents() == old(Contents())
    {
      buf, other.buf := other.buf, buf;
      size, other.size := other.size, size;
      capacity, other.capacity := other.capacity, capacity;
    }

    /**
     * Reserve(k): with k <= capacity nothing changes; otherwise the contents move to a
     * new buffer of capacity exactly k.
     */
    method Reserve(newCapacity: nat)
      requires Valid()
      modifies this
      ensures Valid() && Contents() == old(Contents())
      ensures capacity == Max(old(capacity), newCapacity)
      ensures newCapacity <= old(capacity) ==> buf == old(buf)
      ensures newCapacity > old(capacity) ==> fresh(buf)
    {
      if newCapacity > capacity {
        var a := AllocateDefault(newCapacity, zero);
        CopyRange(buf, 0, size, a, 0);
        buf, capacity := a, newCapacity;
      }
    }
  }
}
