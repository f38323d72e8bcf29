/** Finite sums and counting over index ranges, shared by the other modules. */
module Sums {

  /** f(0) + ... + f(n - 1) */
  ghost function Sum(f: int -> int, n: nat): int {
    if n == 0 then 0 else Sum(f, n - 1) + f(n - 1)
  }

  lemma SumEq(f: int -> int, g: int -> int, n: nat)
    requires forall i | 0 <= i < n :: f(i) == g(i)
    ensures Sum(f, n) == Sum(g, n)
  {
  }

  lemma SumAdd(f: int -> int, g: int -> int, h: int -> int, n: nat)
    requires forall i | 0 <= i < n :: h(i) == f(i) + g(i)
    ensures Sum(h, n) == Sum(f, n) + Sum(g, n)
  {
  }

  lemma SumNonNegative(f: int -> int, n: nat)
    requires forall i | 0 <= i < n :: 0 <= f(i)
    ensures 0 <= Sum(f, n)
  {
  }

  lemma {:induction false} SumAtMost(f: int -> int, c: int, n: nat)
    requires forall i | 0 <= i < n :: f(i) <= c
    ensures Sum(f, n) <= c * n
  {
    if n > 0 {
      SumAtMost(f, c, n - 1);
      assert c * n == c * (n - 1) + c;
    }
  }

  /** Two sums that differ only in term c differ by that term's difference. */
  lemma {:induction false} SumPoint(f: int -> int, g: int -> int, c: int, n: nat)
    requires 0 <= c < n
    requires forall i | 0 <= i < n && i != c :: f(i) == g(i)
    ensures Sum(f, n) - Sum(g, n) == f(c) - g(c)
  {
    if c == n - 1 {
      SumEq(f, g, n - 1);
    } else {
      SumPoint(f, g, c, n - 1);
    }
  }

  /** The first term can be split off as well as the last. */
  lemma {:induction false} SumFront(f: int -> int, g: int -> int, n: nat)
    requires 0 < n
    requires forall i | 0 <= i < n - 1 :: g(i) == f(i + 1)
    ensures Sum(f, n) == f(0) + Sum(g, n - 1)
  {
    if n > 1 {
      SumFront(f, g, n - 1);
    }
  }

  /** A sum does not depend on the direction in which it is taken. */
  lemma {:induction false} SumReverse(f: int -> int, g: int -> int, n: nat)
    requires forall i | 0 <= i < n :: g(i) == f(n - 1 - i)
    ensures Sum(f, n) == Sum(g, n)
  {
    if n > 0 {
      var h := i => f(i + 1);
      SumFront(f, h, n);
      SumReverse(h, g, n - 1);
    }
  }

  /** Exchanging the order of a double sum. */
  lemma {:induction false} SumSwap(f: (int, int) -> int, rows: int -> int, columns: int -> int, m: nat, n: nat)
    requires forall i | 0 <= i < m :: rows(i) == Sum(j => f(i, j), n)
    requires forall j | 0 <= j < n :: columns(j) == Sum(i => f(i, j), m)
    ensures Sum(rows, m) == Sum(columns, n)
  {
    if m == 0 {
      SumEq(columns, j => 0, n);
      SumZero(j => 0, n);
    } else {
      var shorter := j => Sum(i => f(i, j), m - 1);
      var last := j => f(m - 1, j);
      forall j | 0 <= j < n ensures columns(j) == shorter(j) + last(j) {
        SumEq(i => f(i, j), i => f(i, j), m - 1);
      }
      SumAdd(shorter, last, columns, n);
      SumSwap(f, rows, shorter, m - 1, n);
      SumEq(last, j => f(m - 1, j), n);
    }
  }

  lemma SumZero(f: int -> int, n: nat)
    requires forall i | 0 <= i < n :: f(i) == 0
    ensures Sum(f, n) == 0
  {
  }

  /** A sum with a single non-zero term is that term. */
  lemma SumSingle(f: int -> int, c: int, n: nat)
    requires 0 <= c < n
    requires forall i | 0 <= i < n && i != c :: f(i) == 0
    ensures Sum(f, n) == f(c)
  {
    var zero := (i: int) => 0;
    SumPoint(f, zero, c, n);
    SumZero(zero, n);
  }

  /** The number of indices below n at which p holds. */
  ghost function Count(p: int -> bool, n: nat): nat {
    if n == 0 then 0 else Count(p, n - 1) + if p(n - 1) then 1 else 0
  }

  lemma CountEq(p: int -> bool, q: int -> bool, n: nat)
    requires forall i | 0 <= i < n :: p(i) == q(i)
    ensures Count(p, n) == Count(q, n)
  {
  }

  lemma {:induction false} CountPoint(p: int -> bool, q: int -> bool, c: int, n: nat)
    requires 0 <= c < n && p(c) && !q(c)
    requires forall i | 0 <= i < n && i != c :: p(i) == q(i)
    ensures Count(p, n) == Count(q, n) + 1
  {
    if c == n - 1 {
      CountEq(p, q, n - 1);
    } else {
      CountPoint(p, q, c, n - 1);
    }
  }

  /** A count is 0 exactly when p holds nowhere, and n exactly when it holds everywhere. */
  lemma {:induction false} CountExtremes(p: int -> bool, n: nat)
    ensures Count(p, n) <= n
    ensures Count(p, n) == 0 <==> forall i | 0 <= i < n :: !p(i)
    ensures Count(p, n) == n <==> forall i | 0 <= i < n :: p(i)
  {
    if n > 0 {
      CountExtremes(p, n - 1);
    }
  }

  /** The set {0, ..., n - 1} */
  ghost function Below(n: nat): set<int> {
    if n == 0 then {} else Below(n - 1) + {n - 1}
  }

  lemma BelowFacts(n: nat)
    ensures |Below(n)| == n
    ensures forall x :: x in Below(n) <==> 0 <= x < n
  {
  }

  /** An injective sequence of values below its own length takes every such value. */
  lemma {:induction false} InjectionIsOnto(s: seq<int>, v: int)
    requires forall i | 0 <= i < |s| :: 0 <= s[i] < |s|
    requires forall i, j | 0 <= i < j < |s| :: s[i] != s[j]
    requires 0 <= v < |s|
    ensures v in s
  {
    if v !in s {
      var image := set i | 0 <= i < |s| :: s[i];
      InjectiveImageSize(s, image);
      BelowFacts(|s|);
      SubsetSize(image, Below(|s|) - {v});
    }
  }

  lemma {:induction false} InjectiveImageSize<T>(s: seq<T>, image: set<T>)
    requires forall i, j | 0 <= i < j < |s| :: s[i] != s[j]
    requires image == set i | 0 <= i < |s| :: s[i]
    ensures |image| == |s|
  {
    if s != [] {
      var rest := s[..|s| - 1];
      var smaller := set i | 0 <= i < |rest| :: rest[i];
      InjectiveImageSize(rest, smaller);
      var x := s[|s| - 1];
      forall y | y in image ensures y in smaller + {x} {
        var i :| 0 <= i < |s| && s[i] == y;
        assert i < |rest| ==> rest[i] == y;
      }
      forall y | y in smaller ensures y in image && y != x {
        var i :| 0 <= i < |rest| && rest[i] == y;
        assert s[i] == y;
      }
      assert image == smaller + {x};
    }
  }

  lemma {:induction false} SubsetSize<T>(a: set<T>, b: set<T>)
    requires a <= b
    ensures |a| <= |b|
    ensures |a| == |b| ==> a == b
  {
    if a != {} {
      var x :| x in a;
      SubsetSize(a - {x}, b - {x});
    }
  }
}
