/** Small helper types and set lemmas shared by the other modules. */
module Prelude {

  datatype Option<+T> = None | Some(value: T)

  /** The naturals below n. */
  function Below(n: nat): (s: set<nat>)
    ensures forall k :: k in s <==> 0 <= k < n
  {
    if n == 0 then {} else Below(n - 1) + {n - 1}
  }

  lemma {:induction false} BelowSize(n: nat)
    ensures |Below(n)| == n
  {
    if n == 0 {
    } else {
      BelowSize(n - 1);
    }
  }

  lemma {:induction false} SubsetSize<T>(a: set<T>, b: set<T>)
    requires a <= b
    ensures |a| <= |b|
    ensures |a| == |b| ==> a == b
  {
    if a == {} {
    } else {
      var x :| x in a;
      SubsetSize(a - {x}, b - {x});
      assert a == (a - {x}) + {x} && b == (b - {x}) + {x};
    }
  }

  /** Some element of a is mapped to k by f. */
  ghost predicate Hits<T>(a: set<T>, f: map<T, nat>, k: nat) {
    exists x :: x in a && x in f && f[x] == k
  }

  /** If f maps the elements of a onto all naturals below n, then a has at least n elements. */
  lemma {:induction false} Onto<T>(a: set<T>, f: map<T, nat>, n: nat)
    requires forall k: nat :: k < n ==> Hits(a, f, k)
    ensures |a| >= n
  {
    if n == 0 {
    } else {
      assert Hits(a, f, n - 1);
      var x :| x in a && x in f && f[x] == n - 1;
      forall k: nat | k < n - 1 ensures Hits(a - {x}, f, k) {
        assert Hits(a, f, k);
        var y :| y in a && y in f && f[y] == k;
        assert y in a - {x};
      }
      Onto(a - {x}, f, n - 1);
    }
  }

  predicate NoDup<T(==)>(s: seq<T>) {
    forall i, j :: 0 <= i < j < |s| ==> s[i] != s[j]
  }

  function Elements<T>(s: seq<T>): set<T> {
    set x | x in s
  }

  lemma {:induction false} NoDupSize<T>(s: seq<T>)
    requires NoDup(s)
    ensures |Elements(s)| == |s|
  {
    if s == [] {
    } else {
      var k := |s| - 1;
      NoDupSize(s[..k]);
      assert s[k] !in Elements(s[..k]);
      assert Elements(s) == Elements(s[..k]) + {s[k]};
    }
  }

  /** If f maps the elements of a injectively below n, then a has at most n elements. */
  lemma {:induction false} Into<T>(a: set<T>, f: map<T, nat>, n: nat)
    requires a <= f.Keys
    requires forall x :: x in a ==> f[x] < n
    requires forall x, y :: x in a && y in a && f[x] == f[y] ==> x == y
    ensures |a| <= n
  {
    if a == {} {
    } else {
      if x :| x in a && f[x] == n - 1 {
        Into(a - {x}, f, n - 1);
      } else {
        Into(a, f, n - 1);
      }
    }
  }

  lemma AtLeastOne(a: nat, n: nat)
    requires a > 0
    ensures a * n >= n
  {
    assert a * n == (a - 1) * n + n;
  }

  /** The remainder is the only number below n that differs from x by a multiple of n. */
  lemma ModUnique(x: nat, n: nat, q: nat, r: nat)
    requires x == q * n + r && r < n
    ensures x % n == r
  {
    var q', r' := x / n, x % n;
    assert x == q' * n + r';
    if q > q' {
      assert q * n == q' * n + (q - q') * n;
      AtLeastOne(q - q', n);
    } else if q < q' {
      assert q' * n == q * n + (q' - q) * n;
      AtLeastOne(q' - q, n);
    }
  }
}
