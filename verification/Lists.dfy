// Lists without duplicates, and deletion from a list.

module Lists {

  ghost predicate NoDuplicates<T>(xs: seq<T>) {
    forall i, j | 0 <= i < |xs| && 0 <= j < |xs| && xs[i] == xs[j] :: i == j
  }

  /** The list without any `x`, the others in their order. */
  function Without<T(==, !new)>(xs: seq<T>, x: T): (r: seq<T>)
    ensures forall y :: y in r <==> y in xs && y != x
  {
    if xs == [] then []
    else if xs[0] == x then Without(xs[1..], x)
    else [xs[0]] + Without(xs[1..], x)
  }

  lemma ConcatDistinct<T>(a: seq<T>, b: seq<T>)
    requires NoDuplicates(a) && NoDuplicates(b) && forall x | x in a :: x !in b
    ensures NoDuplicates(a + b)
  {
    forall i, j | 0 <= i < |a + b| && 0 <= j < |a + b| && (a + b)[i] == (a + b)[j] ensures i == j {
      assert i < |a| ==> (a + b)[i] in a;
      assert j < |a| ==> (a + b)[j] in a;
      assert i >= |a| ==> (a + b)[i] == b[i - |a|] && (a + b)[i] in b;
      assert j >= |a| ==> (a + b)[j] == b[j - |a|] && (a + b)[j] in b;
    }
  }

  lemma SplitDistinct<T>(a: seq<T>, b: seq<T>)
    requires NoDuplicates(a + b)
    ensures NoDuplicates(a) && NoDuplicates(b) && forall x | x in a :: x !in b
  {
    var ab := a + b;
    forall i, j | 0 <= i < |a| && 0 <= j < |a| && a[i] == a[j] ensures i == j {
      assert ab[i] == ab[j];
    }
    forall i, j | 0 <= i < |b| && 0 <= j < |b| && b[i] == b[j] ensures i == j {
      assert ab[|a| + i] == ab[|a| + j];
    }
    forall i, j | 0 <= i < |a| && 0 <= j < |b| ensures a[i] != b[j] {
      assert ab[i] == a[i] && ab[|a| + j] == b[j];
    }
  }

  lemma DistinctAppend<T>(xs: seq<T>, x: T)
    requires NoDuplicates(xs) && x !in xs
    ensures NoDuplicates(xs + [x])
    ensures forall i | 0 <= i < |xs + [x]| :: (xs + [x])[i] == if i < |xs| then xs[i] else x
  {
  }

  lemma {:induction false} WithoutConcat<T(!new)>(x: seq<T>, y: seq<T>, c: T)
    ensures Without(x + y, c) == Without(x, c) + Without(y, c)
  {
    if x == [] {
      assert x + y == y;
    } else {
      WithoutConcat(x[1..], y, c);
      assert (x + y)[1..] == x[1..] + y && (x + y)[0] == x[0];
      assert [x[0]] + (Without(x[1..], c) + Without(y, c)) == ([x[0]] + Without(x[1..], c)) + Without(y, c);
    }
  }

  lemma {:induction false} WithoutAbsent<T(!new)>(xs: seq<T>, c: T)
    requires c !in xs
    ensures Without(xs, c) == xs
  {
    if xs == [] {
    } else {
      WithoutAbsent(xs[1..], c);
    }
  }

  lemma {:induction false} WithoutDistinct<T(!new)>(xs: seq<T>, x: T)
    requires NoDuplicates(xs)
    ensures NoDuplicates(Without(xs, x))
  {
    if xs == [] {
    } else {
      assert xs == [xs[0]] + xs[1..];
      SplitDistinct([xs[0]], xs[1..]);
      WithoutDistinct(xs[1..], x);
      if xs[0] != x {
        assert xs[0] in [xs[0]];
        ConcatDistinct([xs[0]], Without(xs[1..], x));
      }
    }
  }

  /** Counted in a multiset, every element of a list without duplicates occurs once. */
  lemma {:induction false} NoDuplicatesCounts<T(!new)>(xs: seq<T>)
    ensures NoDuplicates(xs) <==> forall x :: multiset(xs)[x] <= 1
  {
    if xs == [] {
    } else {
      assert xs == [xs[0]] + xs[1..];
      NoDuplicatesCounts(xs[1..]);
      if NoDuplicates(xs) {
        SplitDistinct([xs[0]], xs[1..]);
        assert xs[0] in [xs[0]];
      }
      if forall x :: multiset(xs)[x] <= 1 {
        assert multiset(xs)[xs[0]] == 1 + multiset(xs[1..])[xs[0]];
        forall x ensures multiset(xs[1..])[x] <= 1 {
          assert multiset(xs[1..])[x] <= multiset(xs)[x];
        }
        ConcatDistinct([xs[0]], xs[1..]);
      }
    }
  }

  /** A list without duplicates is no longer than any list that has all its elements. */
  lemma {:induction false} DistinctLength<T>(xs: seq<T>, ys: seq<T>)
    requires NoDuplicates(xs) && forall x | x in xs :: x in ys
    ensures |xs| <= |ys|
    decreases |xs|
  {
    if xs == [] {
    } else {
      assert xs == [xs[0]] + xs[1..];
      SplitDistinct([xs[0]], xs[1..]);
      assert xs[0] in [xs[0]] && xs[0] in xs;
      var k :| 0 <= k < |ys| && ys[k] == xs[0];
      var rest := ys[..k] + ys[k + 1..];
      forall x | x in xs[1..] ensures x in rest {
        assert x in xs && x != xs[0];
        var j :| 0 <= j < |ys| && ys[j] == x;
        assert x == if j < k then rest[j] else rest[j - 1];
      }
      DistinctLength(xs[1..], rest);
    }
  }
}
