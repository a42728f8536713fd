/**
 * Sequence operations the page performs with JavaScript arrays and objects:
 * removing every occurrence of a value (`filter`), collecting distinct values in
 * first-insertion order (`new Set(list)`), and the facts the rest of the model needs
 * about them.
 */
module Lists {

  predicate NoDups(s: seq<string>) {
    forall i, j :: 0 <= i < j < |s| ==> s[i] != s[j]
  }

  /** `a` is `b` with some elements deleted, the rest kept in order. */
  predicate IsSubsequence<T(==)>(a: seq<T>, b: seq<T>)
    decreases |b|
  {
    if a == [] then true
    else if b == [] then false
    else if a[0] == b[0] then IsSubsequence(a[1..], b[1..])
    else IsSubsequence(a, b[1..])
  }

  /** Number of occurrences of `x` in `s`. */
  function Count(s: seq<string>, x: string): nat {
    if s == [] then 0 else (if s[0] == x then 1 else 0) + Count(s[1..], x)
  }

  /** `s.filter(y => y !== x)`: every occurrence of `x` removed. */
  function Without(s: seq<string>, x: string): (r: seq<string>)
    ensures forall y :: y in r <==> y in s && y != x
    ensures |r| <= |s|
  {
    if s == [] then []
    else if s[0] == x then Without(s[1..], x)
    else [s[0]] + Without(s[1..], x)
  }

  lemma {:induction false} WithoutIsSubsequence(s: seq<string>, x: string)
    ensures IsSubsequence(Without(s, x), s)
  {
    if s != [] {
      WithoutIsSubsequence(s[1..], x);
      var w := Without(s[1..], x);
      if s[0] != x {
        assert ([s[0]] + w)[1..] == w;
      } else if w != [] {
        assert w[0] in w;
      }
    }
  }

  /** Removing a value that is not there changes nothing. */
  lemma {:induction false} WithoutAbsent(s: seq<string>, x: string)
    requires x !in s
    ensures Without(s, x) == s
  {
    if s != [] {
      assert x !in s[1..];
      WithoutAbsent(s[1..], x);
      assert s == [s[0]] + s[1..];
    }
  }

  lemma {:induction false} WithoutAppend(a: seq<string>, b: seq<string>, x: string)
    ensures Without(a + b, x) == Without(a, x) + Without(b, x)
  {
    if a == [] {
      assert a + b == b;
    } else {
      assert (a + b)[1..] == a[1..] + b;
      WithoutAppend(a[1..], b, x);
    }
  }

  lemma {:induction false} WithoutNoDups(s: seq<string>, x: string)
    requires NoDups(s)
    ensures NoDups(Without(s, x))
  {
    if s != [] {
      assert NoDups(s[1..]) by {
        forall i, j | 0 <= i < j < |s[1..]| ensures s[1..][i] != s[1..][j] {
          assert s[1..][i] == s[i + 1] && s[1..][j] == s[j + 1];
        }
      }
      WithoutNoDups(s[1..], x);
      if s[0] != x {
        var r := [s[0]] + Without(s[1..], x);
        assert s[0] !in s[1..] by {
          forall k | 0 <= k < |s[1..]| ensures s[1..][k] != s[0] {
            assert s[1..][k] == s[k + 1];
          }
        }
        forall i, j | 0 <= i < j < |r| ensures r[i] != r[j] {
          if i == 0 {
            assert r[j] in Without(s[1..], x);
          } else {
            assert r[i] == Without(s[1..], x)[i - 1] && r[j] == Without(s[1..], x)[j - 1];
          }
        }
      }
    }
  }

  /** Position of the first occurrence of `x` in `s`. */
  function IndexOf(s: seq<string>, x: string): (k: nat)
    requires x in s
    ensures k < |s| && s[k] == x && x !in s[..k]
  {
    if s[0] == x then 0
    else
      var k := 1 + IndexOf(s[1..], x);
      assert s[..k] == [s[0]] + s[1..][..k - 1];
      k
  }

  lemma {:induction false} IndexOfPrefix(s: seq<string>, n: nat, x: string)
    requires n <= |s| && x in s[..n]
    ensures IndexOf(s, x) == IndexOf(s[..n], x)
  {
    var k := IndexOf(s[..n], x);
    // s[..n] agrees with s below n, so k is also the first position of x in s
    assert s[..n][k] == s[k];
    assert s[..n][..k] == s[..k];
  }

  /**
   * The distinct values of `s`, each at the place of its first occurrence: what
   * iterating `new Set(s)` yields.
   */
  function Dedupe(s: seq<string>): (r: seq<string>)
    ensures NoDups(r)
    ensures forall x :: x in r <==> x in s
    decreases |s|
  {
    if s == [] then []
    else
      var d := Dedupe(s[..|s| - 1]);
      var last := s[|s| - 1];
      assert s == s[..|s| - 1] + [last];
      if last in d then d else d + [last]
  }

  /** The distinct values come out ordered by their first occurrence in the input. */
  lemma {:induction false} DedupeFirstOccurrenceOrder(s: seq<string>)
    ensures forall i, j :: 0 <= i < j < |Dedupe(s)| ==>
              IndexOf(s, Dedupe(s)[i]) < IndexOf(s, Dedupe(s)[j])
  {
    if s != [] {
      var p := s[..|s| - 1];
      var last := s[|s| - 1];
      assert s == p + [last];
      assert s[..|p|] == p;
      DedupeFirstOccurrenceOrder(p);
      var d := Dedupe(p);
      forall x | x in d ensures IndexOf(s, x) == IndexOf(p, x) {
        IndexOfPrefix(s, |p|, x);
      }
      if last !in d {
        assert IndexOf(s, last) == |p| by {
          assert last !in p;
          assert s[|p|] == last;
        }
        var r := d + [last];
        forall i, j | 0 <= i < j < |r| ensures IndexOf(s, r[i]) < IndexOf(s, r[j]) {
          assert r[i] == d[i] && r[i] in d;
          if j < |d| {
            assert r[j] == d[j] && r[j] in d;
          }
        }
      }
    }
  }

  /** A list that already has no duplicates is its own set of distinct values. */
  lemma {:induction false} DedupeDistinct(s: seq<string>)
    requires NoDups(s)
    ensures Dedupe(s) == s
  {
    if s != [] {
      var p := s[..|s| - 1];
      var last := s[|s| - 1];
      assert NoDups(p) by {
        forall i, j | 0 <= i < j < |p| ensures p[i] != p[j] {
          assert p[i] == s[i] && p[j] == s[j];
        }
      }
      DedupeDistinct(p);
      assert last !in p by {
        forall k | 0 <= k < |p| ensures p[k] != last {
          assert p[k] == s[k];
        }
      }
      assert s == p + [last];
    }
  }

  /** Collecting the distinct values twice is collecting them once. */
  lemma DedupeIdempotent(s: seq<string>)
    ensures Dedupe(Dedupe(s)) == Dedupe(s)
  {
    DedupeDistinct(Dedupe(s));
  }

  /** Removing every occurrence of `x` removes exactly `Count(s, x)` elements. */
  lemma {:induction false} WithoutCount(s: seq<string>, x: string)
    ensures |Without(s, x)| == |s| - Count(s, x)
  {
    if s != [] {
      WithoutCount(s[1..], x);
    }
  }

  lemma {:induction false} CountAppend(a: seq<string>, b: seq<string>, x: string)
    ensures Count(a + b, x) == Count(a, x) + Count(b, x)
  {
    if a == [] {
      assert a + b == b;
    } else {
      assert (a + b)[1..] == a[1..] + b;
      CountAppend(a[1..], b, x);
    }
  }
}
