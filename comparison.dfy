/**
 * The free comparison operators ==, !=, <, <=, >, >= of SimpleVector, as functions of
 * the two vectors' live contents. The element order `lt` stands for Type's operator<.
 */
module Comparison {

  ghost predicate Irreflexive<T(!new)>(lt: (T, T) -> bool)
  {
    forall x :: !lt(x, x)
  }

  ghost predicate Transitive<T(!new)>(lt: (T, T) -> bool)
  {
    forall x, y, z :: lt(x, y) && lt(y, z) ==> lt(x, z)
  }

  /** Any two distinct values are ordered one way or the other. */
  ghost predicate Connected<T(!new)>(lt: (T, T) -> bool)
  {
    forall x, y :: x != y ==> lt(x, y) || lt(y, x)
  }

  ghost predicate StrictTotalOrder<T(!new)>(lt: (T, T) -> bool)
  {
    Irreflexive(lt) && Transitive(lt) && Connected(lt)
  }

  /** operator==: std::equal over both ranges, so vectors of different sizes are unequal. */
  function Equal<T(==)>(a: seq<T>, b: seq<T>): (r: bool)
    ensures r <==> a == b
  {
    |a| == |b| && (|a| == 0 || (a[0] == b[0] && Equal(a[1..], b[1..])))
  }

  /** operator!=: the negation of operator==. */
  function NotEqual<T(==)>(a: seq<T>, b: seq<T>): (r: bool)
    ensures r <==> a != b
  {
    !Equal(a, b)
  }

  /**
   * operator<: std::lexicographical_compare. Walks both ranges together; a position
   * where one element is less decides, and if no position decides, a is less exactly
   * when it runs out first.
   */
  function Less<T>(lt: (T, T) -> bool, a: seq<T>, b: seq<T>): (r: bool)
    ensures |b| == 0 ==> !r
    ensures |a| < |b| && a == b[..|a|] ==> r
    decreases |b|
  {
    if |b| == 0 then false
    else if |a| == 0 then true
    else if lt(a[0], b[0]) then true
    else if lt(b[0], a[0]) then false
    else
      assert |a| < |b| && a == b[..|a|] ==> a[1..] == b[1..][..|a[1..]|];
      Less(lt, a[1..], b[1..])
  }

  /** operator>: b < a. An empty vector is greater than nothing; a proper extension is greater. */
  function Greater<T>(lt: (T, T) -> bool, a: seq<T>, b: seq<T>): (r: bool)
    ensures |a| == 0 ==> !r
    ensures |b| < |a| && b == a[..|b|] ==> r
  {
    Less(lt, b, a)
  }

  /** operator<=: !(a > b). An empty vector is <= every vector; a proper extension is not. */
  function LessEq<T>(lt: (T, T) -> bool, a: seq<T>, b: seq<T>): (r: bool)
    ensures |a| == 0 ==> r
    ensures |b| < |a| && b == a[..|b|] ==> !r
  {
    !Greater(lt, a, b)
  }

  /** operator>=: !(a < b). Every vector is >= the empty one; a proper prefix is not. */
  function GreaterEq<T>(lt: (T, T) -> bool, a: seq<T>, b: seq<T>): (r: bool)
    ensures |b| == 0 ==> r
    ensures |a| < |b| && a == b[..|a|] ==> !r
  {
    !Less(lt, a, b)
  }

  /**
   * Lexicographic order stated directly: a is a proper prefix of b, or at the first
   * position where they differ a's element is the smaller.
   */
  ghost predicate LexLess<T>(lt: (T, T) -> bool, a: seq<T>, b: seq<T>)
  {
    (|a| < |b| && a == b[..|a|]) ||
    exists k :: 0 <= k < |a| && k < |b| && a[..k] == b[..k] && lt(a[k], b[k])
  }

  /** Whatever Less accepts is lexicographically less. */
  lemma {:induction false} LessIsLexLess<T(!new)>(lt: (T, T) -> bool, a: seq<T>, b: seq<T>)
    requires Irreflexive(lt) && Connected(lt)
    requires Less(lt, a, b)
    ensures LexLess(lt, a, b)
    decreases |b|
  {
    if |a| == 0 {
      assert a == b[..0];
    } else if lt(a[0], b[0]) {
      assert a[..0] == b[..0];
    } else {
      assert a[0] == b[0];
      LessIsLexLess(lt, a[1..], b[1..]);
      if |a[1..]| < |b[1..]| && a[1..] == b[1..][..|a[1..]|] {
        assert a == b[..|a|];
      } else {
        var k :| 0 <= k < |a[1..]| && k < |b[1..]| && a[1..][..k] == b[1..][..k] && lt(a[1..][k], b[1..][k]);
        assert a[..k + 1] == b[..k + 1];
      }
    }
  }

  /** Whatever is lexicographically less, Less accepts. */
  lemma {:induction false} LexLessIsLess<T(!new)>(lt: (T, T) -> bool, a: seq<T>, b: seq<T>)
    requires Irreflexive(lt)
    requires LexLess(lt, a, b)
    ensures Less(lt, a, b)
    decreases |b|
  {
    if |a| != 0 {
      if |a| < |b| && a == b[..|a|] {
        assert a[0] == b[0];
        assert a[1..] == b[1..][..|a[1..]|];
        LexLessIsLess(lt, a[1..], b[1..]);
      } else {
        var k :| 0 <= k < |a| && k < |b| && a[..k] == b[..k] && lt(a[k], b[k]);
        if k != 0 {
          assert a[0] == a[..k][0] == b[..k][0] == b[0];
          assert a[1..][..k - 1] == b[1..][..k - 1];
          assert lt(a[1..][k - 1], b[1..][k - 1]);
          LexLessIsLess(lt, a[1..], b[1..]);
        }
      }
    }
  }

  /** Less is exactly the lexicographic order on the contents. */
  lemma LessIsLexicographic<T(!new)>(lt: (T, T) -> bool, a: seq<T>, b: seq<T>)
    requires StrictTotalOrder(lt)
    ensures Less(lt, a, b) <==> LexLess(lt, a, b)
  {
    if Less(lt, a, b) {
      LessIsLexLess(lt, a, b);
    }
    if LexLess(lt, a, b) {
      LexLessIsLess(lt, a, b);
    }
  }

  /** No vector is less than itself. */
  lemma {:induction false} LessIrreflexive<T(!new)>(lt: (T, T) -> bool, a: seq<T>)
    requires StrictTotalOrder(lt)
    ensures !Less(lt, a, a)
    decreases |a|
  {
    if |a| != 0 {
      LessIrreflexive(lt, a[1..]);
    }
  }

  /** Less is transitive. */
  lemma {:induction false} LessTransitive<T(!new)>(lt: (T, T) -> bool, a: seq<T>, b: seq<T>, c: seq<T>)
    requires StrictTotalOrder(lt)
    requires Less(lt, a, b) && Less(lt, b, c)
    ensures Less(lt, a, c)
    decreases |b|
  {
    if |a| != 0 && !lt(a[0], b[0]) && !lt(b[0], c[0]) {
      assert a[0] == b[0] == c[0];
      LessTransitive(lt, a[1..], b[1..], c[1..]);
    }
  }

  /** Any two contents compare in exactly one of three ways: a < b, a == b or b < a. */
  lemma {:induction false} LessTrichotomous<T(!new)>(lt: (T, T) -> bool, a: seq<T>, b: seq<T>)
    requires StrictTotalOrder(lt)
    ensures Less(lt, a, b) || a == b || Less(lt, b, a)
    ensures !(Less(lt, a, b) && Less(lt, b, a))
    ensures a == b ==> !Less(lt, a, b)
    decreases |a|
  {
    if |a| != 0 && |b| != 0 && !lt(a[0], b[0]) && !lt(b[0], a[0]) {
      LessTrichotomous(lt, a[1..], b[1..]);
      if a[1..] == b[1..] {
        assert a == [a[0]] + a[1..] && b == [b[0]] + b[1..];
      }
    }
    if a == b {
      LessIrreflexive(lt, a);
    }
  }

  /** The derived operators mean what their names say once lt is a strict total order. */
  lemma DerivedOperators<T(!new)>(lt: (T, T) -> bool, a: seq<T>, b: seq<T>)
    requires StrictTotalOrder(lt)
    ensures Greater(lt, a, b) <==> LexLess(lt, b, a)
    ensures LessEq(lt, a, b) <==> Less(lt, a, b) || a == b
    ensures GreaterEq(lt, a, b) <==> Less(lt, b, a) || a == b
    ensures LessEq(lt, a, b) <==> !Greater(lt, a, b)
  {
    LessIsLexicographic(lt, b, a);
    LessTrichotomous(lt, a, b);
  }
}
