/** The orders the engine sorts by (`std::string::operator<`, pair order in
    the exporter, `std::set` iteration) and the sorted sequence of a finite
    set under such an order. */
module Ordering {

  /** Byte-wise lexicographic order: `std::string::operator<`. */
  predicate LexLess(a: string, b: string) {
    if |a| == 0 then |b| > 0
    else if |b| == 0 then false
    else if a[0] != b[0] then a[0] < b[0]
    else LexLess(a[1..], b[1..])
  }

  lemma {:induction false} LexLessIrreflexive(a: string)
    ensures !LexLess(a, a)
  {
    if |a| > 0 {
      LexLessIrreflexive(a[1..]);
    }
  }

  lemma {:induction false} LexLessTransitive(a: string, b: string, c: string)
    requires LexLess(a, b) && LexLess(b, c)
    ensures LexLess(a, c)
  {
    if |a| > 0 && |b| > 0 && |c| > 0 && a[0] == b[0] && b[0] == c[0] {
      LexLessTransitive(a[1..], b[1..], c[1..]);
    }
  }

  lemma {:induction false} LexLessTotal(a: string, b: string)
    requires a != b
    ensures LexLess(a, b) || LexLess(b, a)
  {
    if |a| > 0 && |b| > 0 && a[0] == b[0] {
      assert a == [a[0]] + a[1..] && b == [b[0]] + b[1..];
      LexLessTotal(a[1..], b[1..]);
    }
  }

  ghost predicate StrictTotalOrder<T(!new)>(lt: (T, T) -> bool) {
    && (forall x :: !lt(x, x))
    && (forall x, y, z :: lt(x, y) && lt(y, z) ==> lt(x, z))
    && (forall x, y :: x != y ==> lt(x, y) || lt(y, x))
  }

  lemma LexLessIsStrictTotalOrder()
    ensures StrictTotalOrder(LexLess)
  {
    forall x: string ensures !LexLess(x, x) {
      LexLessIrreflexive(x);
    }
    forall x: string, y: string, z: string | LexLess(x, y) && LexLess(y, z)
      ensures LexLess(x, z)
    {
      LexLessTransitive(x, y, z);
    }
    forall x: string, y: string | x != y
      ensures LexLess(x, y) || LexLess(y, x)
    {
      LexLessTotal(x, y);
    }
  }

  predicate IsLeast<T>(m: T, s: set<T>, lt: (T, T) -> bool) {
    m in s && forall x :: x in s && x != m ==> lt(m, x)
  }

  predicate StrictlySorted<T>(r: seq<T>, lt: (T, T) -> bool) {
    forall i, j :: 0 <= i < j < |r| ==> lt(r[i], r[j])
  }

  lemma {:induction false} LeastExists<T(!new)>(s: set<T>, lt: (T, T) -> bool)
    requires s != {}
    requires StrictTotalOrder(lt)
    ensures exists m :: IsLeast(m, s, lt)
    decreases |s|
  {
    var y :| y in s;
    var rest := s - {y};
    if rest == {} {
      assert s == {y};
      assert IsLeast(y, s, lt);
    } else {
      LeastExists(rest, lt);
      var m :| IsLeast(m, rest, lt);
      if lt(m, y) {
        assert IsLeast(m, s, lt);
      } else {
        assert IsLeast(y, s, lt);
      }
    }
  }

  /** The least element of a non-empty set: what `std::set::begin()` gives. */
  function Least<T(!new)>(s: set<T>, lt: (T, T) -> bool): (m: T)
    requires s != {}
    requires StrictTotalOrder(lt)
    ensures m in s
    ensures forall x :: x in s && x != m ==> lt(m, x)
  {
    LeastExists(s, lt);
    var m :| IsLeast(m, s, lt);
    m
  }

  /** The elements of `s` in increasing order, each once: the result of
      `std::sort` followed by `std::unique`, or of iterating a `std::set`. */
  function SortedFromSet<T(!new)>(s: set<T>, lt: (T, T) -> bool): (r: seq<T>)
    requires StrictTotalOrder(lt)
    ensures |r| == |s|
    ensures forall x :: x in r <==> x in s
    ensures StrictlySorted(r, lt)
    decreases |s|
  {
    if s == {} then []
    else
      var m := Least(s, lt);
      var rest := SortedFromSet(s - {m}, lt);
      assert forall i :: 0 <= i < |rest| ==> lt(m, rest[i]) by {
        forall i | 0 <= i < |rest| ensures lt(m, rest[i]) {
          assert rest[i] in s - {m};
        }
      }
      [m] + rest
  }
}
