/** Index vectors, their row-major rank, and the odometer step that every counting loop of ESDM performs
    (copy counters, split coordinates, fragment coordinates, grid cell indices). */
module MixedRadix {

  /** k is a vector of valid indices for a box with n[i] slices in dimension i. */
  predicate InBox(k: seq<int>, n: seq<int>) {
    |k| == |n| && forall i :: 0 <= i < |k| ==> 0 <= k[i] < n[i]
  }

  predicate AllPositive(n: seq<int>) {
    forall i :: 0 <= i < |n| ==> 0 < n[i]
  }

  function Prod(n: seq<int>): int {
    if n == [] then 1 else n[0] * Prod(n[1..])
  }

  function Zeros(m: nat): (z: seq<int>)
    ensures |z| == m && forall i :: 0 <= i < m ==> z[i] == 0
  {
    seq(m, _ => 0)
  }

  /** The row-major position of k in the box n. */
  function Rank(k: seq<int>, n: seq<int>): int
    requires |k| == |n|
  {
    if k == [] then 0 else k[0] * Prod(n[1..]) + Rank(k[1..], n[1..])
  }

  /** The inverse of Rank, by repeated division. */
  function Unrank(r: int, n: seq<int>): (k: seq<int>)
    requires AllPositive(n)
    ensures |k| == |n|
    decreases n
  {
    if n == [] then [] else
      ProdPositive(n[1..]);
      [r / Prod(n[1..])] + Unrank(r % Prod(n[1..]), n[1..])
  }

  lemma {:induction false} ProdPositive(n: seq<int>)
    requires AllPositive(n)
    ensures Prod(n) >= 1
  {
    if n != [] {
      ProdPositive(n[1..]);
      MulAtLeast(n[0], Prod(n[1..]));
    }
  }

  lemma MulAtLeast(a: int, b: int)
    requires a >= 1 && b >= 1
    ensures a * b >= 1 && a * b >= a && a * b >= b
  {
    assert a * b == (a - 1) * b + b;
    assert a * b == (b - 1) * a + a;
    MulNonNegative(a - 1, b);
    MulNonNegative(b - 1, a);
  }

  lemma MulNonNegative(a: int, b: int)
    requires a >= 0 && b >= 0
    ensures a * b >= 0
  {}

  lemma MulMonotone(a: int, b: int, c: int)
    requires a <= b && c >= 0
    ensures a * c <= b * c
  {
    MulNonNegative(b - a, c);
    assert (b - a) * c == b * c - a * c;
  }

  lemma MulStrict(a: int, b: int, c: int)
    requires a < b && c > 0
    ensures a * c < b * c
  {
    MulMonotone(a + 1, b, c);
    assert (a + 1) * c == a * c + c;
  }

  lemma EqualFactor(a: int, b: int, f: int)
    requires f > 0 && a * f == b * f
    ensures a == b
  {
    if a < b { MulStrict(a, b, f); }
    if b < a { MulStrict(b, a, f); }
  }

  lemma ProductOrder(a: int, p: int, b: int, q: int)
    requires 1 <= a <= b && 1 <= p <= q
    ensures a * p <= b * q && (a * p == b * q ==> a == b && p == q)
  {
    MulMonotone(p, q, a);
    MulMonotone(a, b, q);
    assert p * a == a * p && q * a == a * q;
    if p < q { MulStrict(p, q, a); }
    if a < b { MulStrict(a, b, q); }
  }

  lemma {:induction false} RankBounds(k: seq<int>, n: seq<int>)
    requires InBox(k, n)
    ensures 0 <= Rank(k, n) < Prod(n)
  {
    if k != [] {
      var p := Prod(n[1..]);
      RankBounds(k[1..], n[1..]);
      MulMonotone(0, k[0], p);
      MulMonotone(k[0] + 1, n[0], p);
      assert (k[0] + 1) * p == k[0] * p + p;
    }
  }

  lemma DivModOf(q: int, p: int, s: int)
    requires 0 <= s < p
    ensures (q * p + s) / p == q && (q * p + s) % p == s
  {
    var x := q * p + s;
    assert x == (x / p) * p + x % p;
    DivUnique(p, q, s, x / p, x % p);
  }

  lemma DivUnique(p: int, q1: int, s1: int, q2: int, s2: int)
    requires 0 <= s1 < p && 0 <= s2 < p && q1 * p + s1 == q2 * p + s2
    ensures q1 == q2 && s1 == s2
  {
    assert (q1 - q2) * p == s2 - s1 && (q2 - q1) * p == s1 - s2;
    if q1 < q2 {
      MulMonotone(1, q2 - q1, p);
    } else if q2 < q1 {
      MulMonotone(1, q1 - q2, p);
    }
  }

  lemma DivRange(r: int, p: int, n: int)
    requires p >= 1 && 0 <= r < n * p
    ensures 0 <= r / p < n && 0 <= r % p < p && r == (r / p) * p + r % p
  {
    var q := r / p;
    if q < 0 { MulMonotone(q, -1, p); }
    if q >= n { MulMonotone(n, q, p); }
  }

  /** Rank numbers the box 0, 1, ..., Prod(n) - 1 without gaps or repetitions: Unrank is its two-sided inverse. */
  lemma {:induction false} UnrankRank(k: seq<int>, n: seq<int>)
    requires InBox(k, n)
    ensures AllPositive(n) && Unrank(Rank(k, n), n) == k
  {
    if k != [] {
      assert 0 <= k[0] < n[0];
      UnrankRank(k[1..], n[1..]);
      RankBounds(k[1..], n[1..]);
      DivModOf(k[0], Prod(n[1..]), Rank(k[1..], n[1..]));
    }
  }

  lemma {:induction false} RankUnrank(r: int, n: seq<int>)
    requires AllPositive(n) && 0 <= r < Prod(n)
    ensures InBox(Unrank(r, n), n) && Rank(Unrank(r, n), n) == r
  {
    if n != [] {
      var p := Prod(n[1..]);
      ProdPositive(n[1..]);
      DivRange(r, p, n[0]);
      var q, s := r / p, r % p;
      RankUnrank(s, n[1..]);
      var u := Unrank(r, n);
      assert u[0] == q && u[1..] == Unrank(s, n[1..]);
    }
  }

  lemma RankInjective(k: seq<int>, l: seq<int>, n: seq<int>)
    requires InBox(k, n) && InBox(l, n) && Rank(k, n) == Rank(l, n)
    ensures k == l
  {
    UnrankRank(k, n);
    UnrankRank(l, n);
  }

  lemma {:induction false} RankZeros(n: seq<int>)
    ensures Rank(Zeros(|n|), n) == 0
  {
    if n != [] {
      assert Zeros(|n|)[1..] == Zeros(|n[1..]|);
      RankZeros(n[1..]);
    }
  }

  /** All digits at their maximum: this is the last vector of the box. */
  lemma {:induction false} RankLast(k: seq<int>, n: seq<int>)
    requires |k| == |n|
    requires forall i :: 0 <= i < |k| ==> k[i] == n[i] - 1
    ensures Rank(k, n) == Prod(n) - 1
  {
    if k != [] {
      RankLast(k[1..], n[1..]);
      var p := Prod(n[1..]);
      assert (n[0] - 1) * p == n[0] * p - p;
    }
  }

  /** The odometer's result when digit j is the last one that can still be incremented. */
  function Carried(k: seq<int>, j: nat): (r: seq<int>)
    requires j < |k|
    ensures |r| == |k|
    ensures forall i :: 0 <= i < |k| ==> r[i] == if i < j then k[i] else if i == j then k[i] + 1 else 0
  {
    k[..j] + [k[j] + 1] + Zeros(|k| - j - 1)
  }

  /** One odometer step is exactly the successor in row-major order. */
  lemma {:induction false} RankCarried(k: seq<int>, n: seq<int>, j: nat)
    requires |k| == |n| && j < |k|
    requires forall i :: j < i < |k| ==> k[i] == n[i] - 1
    ensures Rank(Carried(k, j), n) == Rank(k, n) + 1
  {
    var r := Carried(k, j);
    var p := Prod(n[1..]);
    if j == 0 {
      RankLast(k[1..], n[1..]);
      RankZeros(n[1..]);
      assert r[1..] == Zeros(|n[1..]|);
      assert (k[0] + 1) * p == k[0] * p + p;
    } else {
      RankCarried(k[1..], n[1..], j - 1);
      assert r[1..] == Carried(k[1..], j - 1);
    }
  }

  lemma {:induction false} ProdConcat(a: seq<int>, b: seq<int>)
    ensures Prod(a + b) == Prod(a) * Prod(b)
  {
    if a == [] {
      assert a + b == b;
    } else {
      assert (a + b)[1..] == a[1..] + b;
      ProdConcat(a[1..], b);
      assert a[0] * (Prod(a[1..]) * Prod(b)) == (a[0] * Prod(a[1..])) * Prod(b);
    }
  }

  lemma {:induction false} RankConcat(k: seq<int>, l: seq<int>, n: seq<int>, m: seq<int>)
    requires |k| == |n| && |l| == |m|
    ensures Rank(k + l, n + m) == Rank(k, n) * Prod(m) + Rank(l, m)
  {
    if k == [] {
      assert k + l == l && n + m == m;
    } else {
      assert (k + l)[1..] == k[1..] + l && (n + m)[1..] == n[1..] + m;
      RankConcat(k[1..], l, n[1..], m);
      ProdConcat(n[1..], m);
      assert (k[0] * Prod(n[1..]) + Rank(k[1..], n[1..])) * Prod(m)
          == k[0] * (Prod(n[1..]) * Prod(m)) + Rank(k[1..], n[1..]) * Prod(m);
    }
  }
}
