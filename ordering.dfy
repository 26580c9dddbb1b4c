/**
 * The two pieces of Python's built-in ordering that the partitioning script
 * relies on: `<=` on `str` (code point by code point, a proper prefix first)
 * and `sorted(...)` over a collection of distinct elements.
 */
module Ordering {

  /** Python's `a <= b` on strings: lexicographic by code point, so a prefix sorts first. */
  predicate StrLe(a: string, b: string)
    ensures a <= b ==> StrLe(a, b)
  {
    if a == [] then true
    else if b == [] then false
    else if a[0] != b[0] then a[0] < b[0]
    else StrLe(a[1..], b[1..])
  }

  /**
   * `StrLe` is the lexicographic order: `a` is a prefix of `b`, or at the
   * first position where they differ `a` has the smaller code point.
   */
  lemma {:induction false} StrLeLexicographic(a: string, b: string)
    ensures StrLe(a, b) <==> a <= b || exists i :: 0 <= i < |a| && i < |b| && a[..i] == b[..i] && a[i] < b[i]
  {
    if a != [] && b != [] && a[0] == b[0] {
      StrLeLexicographic(a[1..], b[1..]);
      if i :| 0 <= i < |a| && i < |b| && a[..i] == b[..i] && a[i] < b[i] {
        assert i > 0;
        assert a[1..][..i - 1] == a[..i][1..] && b[1..][..i - 1] == b[..i][1..];
        assert a[1..][i - 1] < b[1..][i - 1];
      }
      if i :| 0 <= i < |a| - 1 && i < |b| - 1 && a[1..][..i] == b[1..][..i] && a[1..][i] < b[1..][i] {
        assert a[..i + 1] == [a[0]] + a[1..][..i] && b[..i + 1] == [b[0]] + b[1..][..i];
        assert a[i + 1] < b[i + 1];
      }
      assert a <= b <==> a[1..] <= b[1..];
    } else if a != [] && b != [] {
      assert a[..0] == b[..0];
    }
  }

  lemma {:induction false} StrLeTotal(a: string, b: string)
    ensures StrLe(a, b) || StrLe(b, a)
  {
    if a != [] && b != [] && a[0] == b[0] {
      StrLeTotal(a[1..], b[1..]);
    }
  }

  lemma {:induction false} StrLeTrans(a: string, b: string, c: string)
    requires StrLe(a, b) && StrLe(b, c)
    ensures StrLe(a, c)
  {
    if a != [] && b != [] && c != [] && a[0] == b[0] && b[0] == c[0] {
      StrLeTrans(a[1..], b[1..], c[1..]);
    }
  }

  lemma {:induction false} StrLeAntisym(a: string, b: string)
    requires StrLe(a, b) && StrLe(b, a)
    ensures a == b
  {
    if a != [] && b != [] {
      StrLeAntisym(a[1..], b[1..]);
      assert a == [a[0]] + a[1..] && b == [b[0]] + b[1..];
    }
  }

  /** `le` is total and transitive, as Python assumes of the `<=` it sorts by. */
  ghost predicate IsTotalPreorder<T(!new)>(le: (T, T) -> bool)
  {
    && (forall a, b :: le(a, b) || le(b, a))
    && (forall a, b, c {:trigger le(a, b), le(b, c), le(a, c)} :: le(a, b) && le(b, c) ==> le(a, c))
  }

  lemma StrLeIsTotalPreorder()
    ensures IsTotalPreorder(StrLe)
  {
    forall a, b ensures StrLe(a, b) || StrLe(b, a) {
      StrLeTotal(a, b);
    }
    forall a, b, c | StrLe(a, b) && StrLe(b, c) ensures StrLe(a, c) {
      StrLeTrans(a, b, c);
    }
  }

  /** Every non-empty finite set has a least element under a total preorder. */
  lemma {:induction false} MinExists<T(!new)>(s: set<T>, le: (T, T) -> bool)
    requires s != {} && IsTotalPreorder(le)
    ensures exists m :: m in s && forall x :: x in s ==> le(m, x)
    decreases s
  {
    var y :| y in s;
    assert le(y, y);
    var rest := s - {y};
    if rest == {} {
      forall x | x in s ensures le(y, x) {
        assert x !in rest;
      }
    } else {
      MinExists(rest, le);
      var m :| m in rest && forall x :: x in rest ==> le(m, x);
      if le(m, y) {
        forall x | x in s ensures le(m, x) {
          if x != y {
            assert x in rest;
          }
        }
        assert m in s;
      } else {
        assert le(y, m);
        forall x | x in s ensures le(y, x) {
          if x != y {
            assert x in rest && le(m, x);
          }
        }
      }
    }
  }

  /**
   * Python's `sorted(s)` for a collection of distinct elements: the same
   * elements, each once, in ascending order.
   */
  method SortedElements<T(==,!new)>(s: set<T>, le: (T, T) -> bool) returns (r: seq<T>)
    requires IsTotalPreorder(le)
    ensures forall x :: x in r <==> x in s
    ensures forall i, j :: 0 <= i < j < |r| ==> le(r[i], r[j]) && r[i] != r[j]
  {
    r := [];
    var rest := s;
    while rest != {}
      invariant forall x :: x in s <==> x in r || x in rest
      invariant forall x :: x in r ==> x !in rest
      invariant forall i, j :: 0 <= i < j < |r| ==> le(r[i], r[j]) && r[i] != r[j]
      invariant forall i, x :: 0 <= i < |r| && x in rest ==> le(r[i], x)
      decreases rest
    {
      MinExists(rest, le);
      var m :| m in rest && forall x :: x in rest ==> le(m, x);
      r := r + [m];
      rest := rest - {m};
    }
  }
}
