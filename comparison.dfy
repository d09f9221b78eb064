/** The free comparison operators of the list. operator== compares the counts and then the
    elements with std::equal, operator< is std::lexicographical_compare, and the other four are
    derived from those two. The element order `<` of the element type is the parameter `lt`. */
module ListComparison {
  import opened LinkedList

  /** A strict total order: irreflexive, transitive, and any two distinct values are ordered. */
  ghost predicate StrictTotalOrder<T(!new)>(lt: (T, T) -> bool) {
    (forall x :: !lt(x, x)) &&
    (forall x, y, z :: lt(x, y) && lt(y, z) ==> lt(x, z)) &&
    (forall x, y :: x == y || lt(x, y) || lt(y, x))
  }

  /** std::lexicographical_compare on whole ranges a and b: a ends first, or the first pair of
      values that are not equivalent under lt decides. */
  ghost function LexLess<T>(a: seq<T>, b: seq<T>, lt: (T, T) -> bool): bool
  {
    if |b| == 0 then false
    else if |a| == 0 then true
    else if lt(a[0], b[0]) then true
    else if lt(b[0], a[0]) then false
    else LexLess(a[1..], b[1..], lt)
  }

  /** a and b agree below k, and at k the value of a is the smaller one. */
  ghost predicate FirstDifferenceLess<T>(a: seq<T>, b: seq<T>, k: int, lt: (T, T) -> bool) {
    0 <= k < |a| && k < |b| && a[..k] == b[..k] && lt(a[k], b[k])
  }

  lemma DropFirst<T>(s: seq<T>, j: nat)
    requires j < |s|
    ensures s[j..][1..] == s[j + 1..]
  {
  }

  /** Under a strict total order, a < b exactly when a is a proper prefix of b or the first
      differing value of a is the smaller one. */
  lemma {:induction false} LexLessMeaning<T(!new)>(a: seq<T>, b: seq<T>, lt: (T, T) -> bool)
    requires StrictTotalOrder(lt)
    ensures LexLess(a, b, lt) <==>
      (|a| < |b| && a == b[..|a|]) || exists k :: FirstDifferenceLess(a, b, k, lt)
    decreases |a|
  {
    if |b| == 0 {
    } else if |a| == 0 {
      assert a == b[..0];
    } else if lt(a[0], b[0]) {
      assert a[..0] == b[..0];
      assert FirstDifferenceLess(a, b, 0, lt);
    } else if lt(b[0], a[0]) {
    } else {
      assert a[0] == b[0];
      LexLessMeaning(a[1..], b[1..], lt);
      if exists k :: FirstDifferenceLess(a[1..], b[1..], k, lt) {
        var k :| FirstDifferenceLess(a[1..], b[1..], k, lt);
        assert a[..k + 1] == [a[0]] + a[1..][..k];
        assert b[..k + 1] == [b[0]] + b[1..][..k];
        assert FirstDifferenceLess(a, b, k + 1, lt);
      }
      if exists k :: FirstDifferenceLess(a, b, k, lt) {
        var k :| FirstDifferenceLess(a, b, k, lt);
        assert k > 0;
        assert a[1..][..k - 1] == a[..k][1..];
        assert b[1..][..k - 1] == b[..k][1..];
        assert FirstDifferenceLess(a[1..], b[1..], k - 1, lt);
      }
      if |a| < |b| && a == b[..|a|] {
        assert a[1..] == b[1..][..|a| - 1];
      }
      if |a| - 1 < |b| - 1 && a[1..] == b[1..][..|a| - 1] {
        assert a == [a[0]] + a[1..];
      }
    }
  }

  /** No list is less than itself. */
  lemma {:induction false} LexLessIrreflexive<T>(a: seq<T>, lt: (T, T) -> bool)
    requires forall x :: !lt(x, x)
    ensures !LexLess(a, a, lt)
    decreases |a|
  {
    if |a| > 0 {
      LexLessIrreflexive(a[1..], lt);
    }
  }

  /** a < b and b < c give a < c. */
  lemma {:induction false} LexLessTransitive<T(!new)>(a: seq<T>, b: seq<T>, c: seq<T>, lt: (T, T) -> bool)
    requires StrictTotalOrder(lt)
    requires LexLess(a, b, lt) && LexLess(b, c, lt)
    ensures LexLess(a, c, lt)
    decreases |a|
  {
    if |a| > 0 && !lt(a[0], b[0]) && !lt(b[0], c[0]) {
      assert a[0] == b[0] == c[0];
      LexLessTransitive(a[1..], b[1..], c[1..], lt);
    }
  }

  /** Any two lists are equal or one of them is the lesser. */
  lemma {:induction false} LexLessTrichotomous<T(!new)>(a: seq<T>, b: seq<T>, lt: (T, T) -> bool)
    requires StrictTotalOrder(lt)
    ensures a == b || LexLess(a, b, lt) || LexLess(b, a, lt)
    decreases |a|
  {
    if |a| > 0 && |b| > 0 && !lt(a[0], b[0]) && !lt(b[0], a[0]) {
      LexLessTrichotomous(a[1..], b[1..], lt);
      if a[1..] == b[1..] {
        assert a == [a[0]] + a[1..] && b == [b[0]] + b[1..];
      }
    }
  }

  /** a < b and b < a exclude each other. */
  lemma {:induction false} LexLessAsymmetric<T(!new)>(a: seq<T>, b: seq<T>, lt: (T, T) -> bool)
    requires StrictTotalOrder(lt)
    requires LexLess(a, b, lt)
    ensures !LexLess(b, a, lt)
  {
    if LexLess(b, a, lt) {
      LexLessTransitive(a, b, a, lt);
      LexLessIrreflexive(a, lt);
    }
  }

  /** Two lists are equal exactly when neither is less than the other. */
  lemma {:induction false} EqualIffNeitherLess<T(!new)>(a: seq<T>, b: seq<T>, lt: (T, T) -> bool)
    requires StrictTotalOrder(lt)
    ensures a == b <==> !LexLess(a, b, lt) && !LexLess(b, a, lt)
  {
    LexLessTrichotomous(a, b, lt);
    LexLessIrreflexive(a, lt);
  }

  /** `rhs < lhs || lhs == rhs`, the body of operator>=, is the negation of lhs < rhs. */
  lemma {:induction false} GreaterEqIsNotLess<T(!new)>(a: seq<T>, b: seq<T>, lt: (T, T) -> bool)
    requires StrictTotalOrder(lt)
    ensures LexLess(b, a, lt) || a == b <==> !LexLess(a, b, lt)
  {
    LexLessTrichotomous(a, b, lt);
    LexLessIrreflexive(a, lt);
    if LexLess(b, a, lt) {
      LexLessAsymmetric(b, a, lt);
    }
  }

  /** std::equal over the two whole lists: walks both in step until one of them ends or two
      values differ, and is true when both ended together. */
  method RangesEqual<T(0,==)>(lhs: SingleLinkedList<T>, rhs: SingleLinkedList<T>) returns (b: bool)
    requires lhs.Valid() && rhs.Valid()
    ensures b <==> lhs.Contents == rhs.Contents
  {
    var first1 := lhs.Begin();
    var first2 := rhs.Begin();
    ghost var j: nat := 0;
    while !first1.Equals(lhs.End(), lhs, j + 1, |lhs.nodes| + 1) &&
          !first2.Equals(rhs.End(), rhs, j + 1, |rhs.nodes| + 1)
      invariant j <= |lhs.nodes| && j <= |rhs.nodes|
      invariant first1.node == lhs.NodeAt(j + 1) && first2.node == rhs.NodeAt(j + 1)
      invariant lhs.Contents[..j] == rhs.Contents[..j]
      decreases |lhs.nodes| - j
    {
      if first1.Deref(lhs, j + 1) != first2.Deref(rhs, j + 1) {
        return false;
      }
      first1 := first1.Next(lhs, j + 1);
      first2 := first2.Next(rhs, j + 1);
      j := j + 1;
      assert lhs.Contents[..j] == lhs.Contents[..j - 1] + [lhs.Contents[j - 1]];
      assert rhs.Contents[..j] == rhs.Contents[..j - 1] + [rhs.Contents[j - 1]];
    }
    b := first1.Equals(lhs.End(), lhs, j + 1, |lhs.nodes| + 1) &&
         first2.Equals(rhs.End(), rhs, j + 1, |rhs.nodes| + 1);
    if b {
      assert lhs.Contents == lhs.Contents[..j] && rhs.Contents == rhs.Contents[..j];
    }
  }

  /** operator==: lists of different counts are unequal; otherwise their elements decide. */
  method Equal<T(0,==)>(lhs: SingleLinkedList<T>, rhs: SingleLinkedList<T>) returns (b: bool)
    requires lhs.Valid() && rhs.Valid()
    ensures b <==> lhs.Contents == rhs.Contents
  {
    if lhs.GetSize() != rhs.GetSize() {
      return false;
    }
    b := RangesEqual(lhs, rhs);
  }

  /** operator!=: the negation of operator==. */
  method NotEqual<T(0,==)>(lhs: SingleLinkedList<T>, rhs: SingleLinkedList<T>) returns (b: bool)
    requires lhs.Valid() && rhs.Valid()
    ensures b <==> lhs.Contents != rhs.Contents
  {
    var eq := Equal(lhs, rhs);
    b := !eq;
  }

  /** operator<, std::lexicographical_compare over the two whole lists: steps while rhs has
      values left; lhs ending first or a smaller value of lhs gives true, a smaller value of rhs
      gives false, and rhs ending first gives false. */
  method Less<T(0)>(lhs: SingleLinkedList<T>, rhs: SingleLinkedList<T>, lt: (T, T) -> bool) returns (b: bool)
    requires lhs.Valid() && rhs.Valid()
    ensures b == LexLess(lhs.Contents, rhs.Contents, lt)
  {
    var first1 := lhs.Begin();
    var first2 := rhs.Begin();
    ghost var j: nat := 0;
    while !first2.Equals(rhs.End(), rhs, j + 1, |rhs.nodes| + 1)
      invariant j <= |lhs.nodes| && j <= |rhs.nodes|
      invariant first1.node == lhs.NodeAt(j + 1) && first2.node == rhs.NodeAt(j + 1)
      invariant LexLess(lhs.Contents, rhs.Contents, lt) == LexLess(lhs.Contents[j..], rhs.Contents[j..], lt)
      decreases |rhs.nodes| - j
    {
      if first1.Equals(lhs.End(), lhs, j + 1, |lhs.nodes| + 1) ||
         lt(first1.Deref(lhs, j + 1), first2.Deref(rhs, j + 1)) {
        return true;
      }
      if lt(first2.Deref(rhs, j + 1), first1.Deref(lhs, j + 1)) {
        return false;
      }
      DropFirst(lhs.Contents, j);
      DropFirst(rhs.Contents, j);
      first1 := first1.Next(lhs, j + 1);
      first2 := first2.Next(rhs, j + 1);
      j := j + 1;
    }
    return false;
  }

  /** operator>: rhs < lhs. */
  method Greater<T(0)>(lhs: SingleLinkedList<T>, rhs: SingleLinkedList<T>, lt: (T, T) -> bool) returns (b: bool)
    requires lhs.Valid() && rhs.Valid()
    ensures b == LexLess(rhs.Contents, lhs.Contents, lt)
  {
    b := Less(rhs, lhs, lt);
  }

  /** operator>=: rhs < lhs, or else lhs == rhs. */
  method GreaterEq<T(0,==)>(lhs: SingleLinkedList<T>, rhs: SingleLinkedList<T>, lt: (T, T) -> bool) returns (b: bool)
    requires lhs.Valid() && rhs.Valid()
    ensures b <==> LexLess(rhs.Contents, lhs.Contents, lt) || lhs.Contents == rhs.Contents
  {
    b := Less(rhs, lhs, lt);
    if !b {
      b := Equal(lhs, rhs);
    }
  }

  /** operator<=: rhs >= lhs. */
  method LessEq<T(0,==)>(lhs: SingleLinkedList<T>, rhs: SingleLinkedList<T>, lt: (T, T) -> bool) returns (b: bool)
    requires lhs.Valid() && rhs.Valid()
    ensures b <==> LexLess(lhs.Contents, rhs.Contents, lt) || rhs.Contents == lhs.Contents
  {
    b := GreaterEq(rhs, lhs, lt);
  }
}
