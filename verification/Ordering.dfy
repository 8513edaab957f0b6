/** Byte order on keys, and the ascending listing of a finite set under a strict total order. */
module Ordering {

  /** Lexicographic order by code point. It coincides with comparing the UTF-8 bytes of two strings. */
  predicate Less(a: string, b: string) {
    if b == [] then false
    else if a == [] then true
    else a[0] < b[0] || (a[0] == b[0] && Less(a[1..], b[1..]))
  }

  lemma {:induction false} LessIrreflexive(a: string)
    ensures !Less(a, a)
  {
    if a != [] {
      LessIrreflexive(a[1..]);
    }
  }

  lemma {:induction false} LessTransitive(a: string, b: string, c: string)
    requires Less(a, b) && Less(b, c)
    ensures Less(a, c)
  {
    if a != [] && a[0] == b[0] && b[0] == c[0] {
      LessTransitive(a[1..], b[1..], c[1..]);
    }
  }

  lemma {:induction false} LessConnected(a: string, b: string)
    ensures a == b || Less(a, b) || Less(b, a)
  {
    if a != [] && b != [] && a[0] == b[0] {
      LessConnected(a[1..], b[1..]);
      assert a == [a[0]] + a[1..] && b == [b[0]] + b[1..];
    }
  }

  /** This is the first place where the two differ: there `a` has ended, or has the smaller character. */
  predicate PrecedesAt(a: string, b: string, i: nat) {
    i <= |a| && i < |b| && a[..i] == b[..i] && (i == |a| || a[i] < b[i])
  }

  /** The order said without recursion. */
  lemma {:induction false} LessMeans(a: string, b: string)
    ensures Less(a, b) <==> exists i :: PrecedesAt(a, b, i)
  {
    if b != [] && a != [] && a[0] == b[0] {
      LessMeans(a[1..], b[1..]);
      if Less(a, b) {
        var i: nat :| PrecedesAt(a[1..], b[1..], i);
        PrecedesOneLater(a, b, i);
      }
      if i: nat :| PrecedesAt(a, b, i) {
        PrecedesOneEarlier(a, b, i);
      }
    } else if Less(a, b) {
      assert PrecedesAt(a, b, 0);
    } else {
      forall i: nat ensures !PrecedesAt(a, b, i) {
        if 0 < i <= |a| && i < |b| {
          assert a[..i][0] == a[0] && b[..i][0] == b[0];
        }
      }
    }
  }

  lemma PrecedesOneLater(a: string, b: string, i: nat)
    requires a != [] && b != [] && a[0] == b[0] && PrecedesAt(a[1..], b[1..], i)
    ensures PrecedesAt(a, b, i + 1)
  {
    assert a[..i + 1] == [a[0]] + a[1..][..i] && b[..i + 1] == [b[0]] + b[1..][..i];
  }

  lemma PrecedesOneEarlier(a: string, b: string, i: nat)
    requires a != [] && b != [] && a[0] == b[0] && PrecedesAt(a, b, i)
    ensures i > 0 && PrecedesAt(a[1..], b[1..], i - 1)
  {
    assert a[1..][..i - 1] == a[..i][1..] && b[1..][..i - 1] == b[..i][1..];
  }

  ghost predicate StrictTotal<T(!new)>(less: (T, T) -> bool) {
    && (forall a :: !less(a, a))
    && (forall a, b, c :: less(a, b) && less(b, c) ==> less(a, c))
    && (forall a, b :: a == b || less(a, b) || less(b, a))
  }

  lemma {:induction false} LessIsStrictTotal()
    ensures StrictTotal(Less)
  {
    forall a: string ensures !Less(a, a) {
      LessIrreflexive(a);
    }
    forall a: string, b: string, c: string | Less(a, b) && Less(b, c) ensures Less(a, c) {
      LessTransitive(a, b, c);
    }
    forall a: string, b: string ensures a == b || Less(a, b) || Less(b, a) {
      LessConnected(a, b);
    }
  }

  predicate Ascends<T>(s: seq<T>, less: (T, T) -> bool) {
    forall i, j :: 0 <= i < j < |s| ==> less(s[i], s[j])
  }

  ghost predicate IsLeast<T(!new)>(x: T, s: set<T>, less: (T, T) -> bool) {
    x in s && forall y :: y in s && y != x ==> less(x, y)
  }

  lemma {:induction false} LeastOfTwo<T(!new)>(x: T, z: T, s: set<T>, less: (T, T) -> bool)
    requires StrictTotal(less) && x in s && IsLeast(z, s - {x}, less)
    ensures less(x, z) ==> IsLeast(x, s, less)
    ensures less(z, x) ==> IsLeast(z, s, less)
  {
    forall y | y in s && y != x && y != z ensures less(z, y) {
      assert y in s - {x};
    }
  }

  lemma {:induction false} LeastExists<T(!new)>(s: set<T>, less: (T, T) -> bool)
    requires s != {} && StrictTotal(less)
    ensures exists x :: IsLeast(x, s, less)
  {
    var x :| x in s;
    if s == {x} {
      assert IsLeast(x, s, less);
    } else {
      LeastExists(s - {x}, less);
      var z :| IsLeast(z, s - {x}, less);
      LeastOfTwo(x, z, s, less);
      assert z in s - {x};
      assert less(x, z) || less(z, x);
    }
  }

  /** The members of `s` in ascending order: what sorting an array of distinct elements leaves. */
  function Ascending<T(==, !new)>(s: set<T>, less: (T, T) -> bool): seq<T>
    requires StrictTotal(less)
  {
    if s == {} then []
    else
      LeastExists(s, less);
      assert exists x :: x in s && forall y | y in s :: y != x ==> less(x, y) by {
        var z :| IsLeast(z, s, less);
        assert z in s;
      }
      var x :| x in s && forall y | y in s :: y != x ==> less(x, y);
      [x] + Ascending(s - {x}, less)
  }

  /** An ascending listing holds each member of the set once. */
  lemma {:induction false} AscendingMembers<T(!new)>(s: set<T>, less: (T, T) -> bool)
    requires StrictTotal(less)
    ensures |Ascending(s, less)| == |s|
    ensures forall x :: x in Ascending(s, less) <==> x in s
  {
    if s != {} {
      var listing := Ascending(s, less);
      assert listing[0] in s && listing[1..] == Ascending(s - {listing[0]}, less);
      AscendingMembers(s - {listing[0]}, less);
      assert listing == [listing[0]] + listing[1..];
    }
  }

  lemma {:induction false} AscendingSorted<T(!new)>(s: set<T>, less: (T, T) -> bool)
    requires StrictTotal(less)
    ensures Ascends(Ascending(s, less), less)
  {
    if s != {} {
      var listing := Ascending(s, less);
      var rest := s - {listing[0]};
      assert listing[1..] == Ascending(rest, less);
      AscendingSorted(rest, less);
      AscendingMembers(rest, less);
      forall i, j | 0 <= i < j < |listing| ensures less(listing[i], listing[j]) {
        assert listing[j] == listing[1..][j - 1] && listing[1..][j - 1] in Ascending(rest, less);
        if i > 0 {
          assert listing[i] == listing[1..][i - 1];
        }
      }
    }
  }
}
