/**
 * The default order of JavaScript's `Array.prototype.sort` on strings
 * (lexicographic by character code), and `Object.keys(m).sort()` on a set of keys.
 */
module Order {
  import opened Lists

  /** `a` sorts before or at `b`. */
  predicate Le(a: string, b: string)
    decreases |a|
  {
    |a| == 0 || (|b| > 0 && (a[0] < b[0] || (a[0] == b[0] && Le(a[1..], b[1..]))))
  }

  lemma {:induction false} LeReflexive(a: string)
    ensures Le(a, a)
    decreases |a|
  {
    if |a| > 0 {
      LeReflexive(a[1..]);
    }
  }

  lemma {:induction false} LeTotal(a: string, b: string)
    ensures Le(a, b) || Le(b, a)
    decreases |a|
  {
    if |a| > 0 && |b| > 0 && a[0] == b[0] {
      LeTotal(a[1..], b[1..]);
    }
  }

  lemma {:induction false} LeAntisymmetric(a: string, b: string)
    requires Le(a, b) && Le(b, a)
    ensures a == b
    decreases |a|
  {
    if |a| > 0 {
      LeAntisymmetric(a[1..], b[1..]);
      assert a == [a[0]] + a[1..] && b == [b[0]] + b[1..];
    }
  }

  lemma {:induction false} LeTransitive(a: string, b: string, c: string)
    requires Le(a, b) && Le(b, c)
    ensures Le(a, c)
    decreases |a|
  {
    if |a| > 0 && a[0] == b[0] && b[0] == c[0] {
      LeTransitive(a[1..], b[1..], c[1..]);
    }
  }

  predicate Sorted(s: seq<string>) {
    forall i, j :: 0 <= i < j < |s| ==> Le(s[i], s[j])
  }

  predicate IsLeast(m: string, s: set<string>) {
    m in s && forall y :: y in s ==> Le(m, y)
  }

  lemma {:induction false} LeastExists(s: set<string>)
    requires s != {}
    ensures exists m :: IsLeast(m, s)
    decreases s
  {
    var x :| x in s;
    if s == {x} {
      LeReflexive(x);
      assert IsLeast(x, s);
    } else {
      LeastExists(s - {x});
      var m :| IsLeast(m, s - {x});
      LeTotal(x, m);
      if Le(x, m) {
        LeReflexive(x);
        forall y | y in s ensures Le(x, y) {
          if y != x {
            LeTransitive(x, m, y);
          }
        }
        assert IsLeast(x, s);
      } else {
        assert IsLeast(m, s);
      }
    }
  }

  lemma LeastUnique(s: set<string>, m: string, m': string)
    requires IsLeast(m, s) && IsLeast(m', s)
    ensures m == m'
  {
    LeAntisymmetric(m, m');
  }

  /**
   * `Object.keys(m).sort()` for an object whose keys are `s`: every key once,
   * in ascending order.
   */
  function SortedKeys(s: set<string>): (r: seq<string>)
    ensures Sorted(r) && NoDups(r)
    ensures forall x :: x in r <==> x in s
    ensures |r| == |s|
    decreases s
  {
    if s == {} then []
    else
      LeastExists(s);
      var m :| IsLeast(m, s);
      assert forall m' | IsLeast(m', s) :: m' == m by {
        forall m' | IsLeast(m', s) ensures m' == m {
          LeastUnique(s, m, m');
        }
      }
      var rest := SortedKeys(s - {m});
      assert |s - {m}| == |s| - 1;
      [m] + rest
  }

  /** The first element of an ascending list is the least of its elements. */
  lemma SortedHeadIsLeast(t: seq<string>)
    requires Sorted(t) && t != []
    ensures IsLeast(t[0], set x | x in t)
  {
    LeReflexive(t[0]);
  }

  /** Dropping the head keeps an ascending duplicate-free list so, and removes exactly the head. */
  lemma SortedTail(t: seq<string>)
    requires Sorted(t) && NoDups(t) && t != []
    ensures Sorted(t[1..]) && NoDups(t[1..])
    ensures forall x :: x in t[1..] <==> x in t && x != t[0]
  {
    forall x | x in t && x != t[0] ensures x in t[1..] {
      var k :| 0 <= k < |t| && t[k] == x;
      assert t[1..][k - 1] == x;
    }
  }

  /** Two ascending duplicate-free lists with the same elements are equal. */
  lemma {:induction false} SortedSameElements(a: seq<string>, b: seq<string>)
    requires Sorted(a) && NoDups(a) && Sorted(b) && NoDups(b)
    requires forall x :: x in a <==> x in b
    ensures a == b
    decreases |a|
  {
    assert |b| > 0 ==> b[0] in b;
    if a != [] {
      assert (set x | x in a) == (set x | x in b);
      SortedHeadIsLeast(a);
      SortedHeadIsLeast(b);
      LeastUnique((set x | x in a), a[0], b[0]);
      SortedTail(a);
      SortedTail(b);
      SortedSameElements(a[1..], b[1..]);
      assert a == [a[0]] + a[1..] && b == [b[0]] + b[1..];
    }
  }

  /**
   * Sorting is determined by the keys alone: any duplicate-free ascending list
   * of exactly these keys is the sorted list.
   */
  lemma SortedKeysUnique(s: set<string>, t: seq<string>)
    requires Sorted(t) && NoDups(t)
    requires forall x :: x in t <==> x in s
    ensures t == SortedKeys(s)
  {
    SortedSameElements(t, SortedKeys(s));
  }
}
