/** The comparator-parameterised array helpers of the cycle detector and the
    aligner (`repeat`, `rotate`, `get`, `containsSubArray`, `equalTo`),
    over `seq<T>`. A comparator is any total `(T, T) -> bool`; nothing here
    assumes it is an equivalence. */
module Sequences {

  lemma MulAtLeast(d: int, m: int)
    requires d >= 1 && m > 0
    ensures d * m >= m
  {
  }

  /** Quotient and remainder are unique. */
  lemma DivModUnique(x: int, q: int, r: int, m: int)
    requires m > 0 && 0 <= r < m && x == q * m + r
    ensures x % m == r && x / m == q
  {
    var q0 := x / m;
    if q0 > q {
      MulAtLeast(q0 - q, m);
    } else if q0 < q {
      MulAtLeast(q - q0, m);
    }
  }

  /** Adding the divisor does not change a remainder. */
  lemma ModShift(x: nat, m: nat)
    requires m > 0
    ensures (x + m) % m == x % m
  {
    DivModUnique(x + m, x / m + 1, x % m, m);
  }

  /** Reducing one summand first does not change the remainder of a sum. */
  lemma ModAddLeft(x: nat, y: nat, m: nat)
    requires m > 0
    ensures (x % m + y) % m == (x + y) % m
  {
    var q1 := (x % m + y) / m;
    var r := (x % m + y) % m;
    assert x + y == (x / m + q1) * m + r;
    DivModUnique(x + y, x / m + q1, r, m);
  }

  /** `Array.repeat(n)`: `n` copies of `s` end to end. `RepeatAt` states
      what each element is. */
  function Repeat<T>(s: seq<T>, n: nat): (r: seq<T>)
    ensures |r| == |s| * n
  {
    if n == 0 then [] else s + Repeat(s, n - 1)
  }

  /** Element `i` of `Repeat(s, n)` is element `i mod |s|` of `s`. */
  lemma {:induction false} RepeatAt<T>(s: seq<T>, n: nat, i: nat)
    requires i < |s| * n
    ensures |s| > 0 && Repeat(s, n)[i] == s[i % |s|]
    decreases n
  {
    var r := Repeat(s, n);
    if i < |s| {
      DivModUnique(i, 0, i, |s|);
      assert r[i] == s[i];
    } else {
      RepeatAt(s, n - 1, i - |s|);
      ModShift(i - |s|, |s|);
      assert r[i] == Repeat(s, n - 1)[i - |s|];
    }
  }

  /** `Array.rotate(n)`: the source builds `Array(size) { this[(it + n) % size] }`
      and returns the array itself when `n` is 0; here the same sequence as
      a suffix followed by a prefix. `RotateAt` states what each element is. */
  function Rotate<T>(s: seq<T>, n: nat): (r: seq<T>)
    ensures |r| == |s|
  {
    if n == 0 || |s| == 0 then s
    else s[n % |s|..] + s[..n % |s|]
  }

  /** Element `i` of `Rotate(s, n)` is element `i + n` of `s`, counted
      cyclically. */
  lemma RotateAt<T>(s: seq<T>, n: nat, i: nat)
    requires i < |s|
    ensures Rotate(s, n)[i] == s[(i + n) % |s|]
  {
    var m := |s|;
    if n == 0 {
      DivModUnique(i, 0, i, m);
    } else {
      ModAddLeft(n, i, m);
      assert (i + n % m) % m == (i + n) % m;
      SuffixPrefixAt(s, n % m, i);
    }
  }

  /** Element `i` of the suffix from `k` followed by the prefix up to `k`. */
  lemma SuffixPrefixAt<T>(s: seq<T>, k: nat, i: nat)
    requires k < |s| && i < |s|
    ensures (s[k..] + s[..k])[i] == s[(i + k) % |s|]
  {
    var m := |s|;
    if i + k < m {
      DivModUnique(i + k, 0, i + k, m);
      assert (s[k..] + s[..k])[i] == s[k..][i];
    } else {
      DivModUnique(i + k, 1, i + k - m, m);
      assert (s[k..] + s[..k])[i] == s[..k][i - (m - k)];
    }
  }

  /** Rotation only reorders: the result has the same elements, with the
      same multiplicities. */
  lemma RotatePermutes<T>(s: seq<T>, n: nat)
    ensures multiset(Rotate(s, n)) == multiset(s)
  {
    if n != 0 && |s| != 0 {
      var k := n % |s|;
      assert s == s[..k] + s[k..];
    }
  }

  /** `Array.get(index, rotation)`: the element at `index` of `s` rotated by
      `rotation`. The source divides by the size, so `s` must be non-empty. */
  function Get<T>(s: seq<T>, index: nat, rotation: nat): T
    requires |s| > 0
  {
    s[(index + rotation) % |s|]
  }

  /** `get` reads the rotated array without building it. */
  lemma GetIsRotate<T>(s: seq<T>, index: nat, rotation: nat)
    requires index < |s|
    ensures Get(s, index, rotation) == Rotate(s, rotation)[index]
  {
    RotateAt(s, rotation, index);
  }

  /** Rotating twice is rotating by the sum. */
  lemma RotateRotate<T>(s: seq<T>, a: nat, b: nat)
    ensures Rotate(Rotate(s, a), b) == Rotate(s, a + b)
  {
    var twice := Rotate(Rotate(s, a), b);
    var once := Rotate(s, a + b);
    forall i | 0 <= i < |s|
      ensures twice[i] == once[i]
    {
      RotateRotateAt(s, a, b, i);
      RotateAt(s, a + b, i);
    }
    SameElements(twice, once);
  }

  lemma SameElements<T>(x: seq<T>, y: seq<T>)
    requires |x| == |y|
    requires forall i :: 0 <= i < |x| ==> x[i] == y[i]
    ensures x == y
  {
  }

  lemma RotateRotateAt<T>(s: seq<T>, a: nat, b: nat, i: nat)
    requires i < |s|
    ensures Rotate(Rotate(s, a), b)[i] == s[(i + (a + b)) % |s|]
  {
    var j := (i + b) % |s|;
    RotateAt(Rotate(s, a), b, i);
    RotateAt(s, a, j);
    ModAddLeft(i + b, a, |s|);
  }

  /** Rotating by a multiple of the length changes nothing. */
  lemma RotateByLength<T>(s: seq<T>, n: nat)
    requires |s| > 0 && n % |s| == 0
    ensures Rotate(s, n) == s
  {
    assert s[0..] + s[..0] == s;
  }

  /** Rotation is cyclic: rotating by `n` is rotating by `n mod |s|`. */
  lemma RotateMod<T>(s: seq<T>, n: nat)
    requires |s| > 0
    ensures Rotate(s, n) == Rotate(s, n % |s|)
  {
    var k := n % |s|;
    if k == 0 {
      RotateByLength(s, n);
    } else {
      DivModUnique(k, 0, k, |s|);
      assert Rotate(s, k) == s[k..] + s[..k];
    }
  }

  /** `p` occurs in `a` at position `j`, element by element under `cmp`
      (array element first, as the source calls the comparator). */
  ghost predicate MatchesAt<T>(a: seq<T>, p: seq<T>, cmp: (T, T) -> bool, j: int) {
    0 <= j && j + |p| <= |a| && forall t {:trigger p[t]} :: 0 <= t < |p| ==> cmp(a[j + t], p[t])
  }

  /** `Array.equalTo(other, comparator)` */
  function EqualTo<T>(a: seq<T>, b: seq<T>, cmp: (T, T) -> bool): (r: bool)
    ensures r <==> |a| == |b| && forall i :: 0 <= i < |a| ==> cmp(a[i], b[i])
  {
    |a| == |b| && EqualFrom(a, b, cmp, 0)
  }

  /** The loop of `equalTo` from index `i`: stops at the first mismatch. */
  function EqualFrom<T>(a: seq<T>, b: seq<T>, cmp: (T, T) -> bool, i: nat): (r: bool)
    requires |a| == |b| && i <= |a|
    ensures r <==> forall j :: i <= j < |a| ==> cmp(a[j], b[j])
    decreases |a| - i
  {
    if i == |a| then true
    else if !cmp(a[i], b[i]) then false
    else EqualFrom(a, b, cmp, i + 1)
  }

  /** `Array.containsSubArray(subArray, comparator)`: a single greedy scan
      that advances through `sub` on each match and restarts at the start of
      `sub` on a mismatch, without re-testing the mismatched element. It is
      sound (true means `sub` occurs contiguously) but can miss occurrences;
      see `ContainsSubArrayMissesOverlap`. */
  function ContainsSubArray<T>(a: seq<T>, sub: seq<T>, cmp: (T, T) -> bool): (r: bool)
    ensures |sub| == 0 ==> r
    ensures r ==> exists j :: MatchesAt(a, sub, cmp, j)
  {
    if |sub| == 0 then
      assert MatchesAt(a, sub, cmp, 0);
      true
    else Scan(a, sub, cmp, 0, 0)
  }

  /** The scan from array position `index` with `k` elements of `sub`
      already matched by the `k` elements just before `index`. */
  function Scan<T>(a: seq<T>, sub: seq<T>, cmp: (T, T) -> bool, index: nat, k: nat): (r: bool)
    requires k < |sub| && k <= index <= |a|
    requires forall t {:trigger sub[t]} :: 0 <= t < k ==> cmp(a[index - k + t], sub[t])
    ensures r ==> exists j :: MatchesAt(a, sub, cmp, j)
    decreases |a| - index
  {
    if index == |a| then false
    else if cmp(a[index], sub[k]) then
      if k + 1 == |sub| then
        assert MatchesAt(a, sub, cmp, index - k);
        true
      else Scan(a, sub, cmp, index + 1, k + 1)
    else Scan(a, sub, cmp, index + 1, 0)
  }

  /** The reset without re-test misses `[1, 2]` inside `[1, 1, 2]`. */
  lemma ContainsSubArrayMissesOverlap()
    ensures MatchesAt([1, 1, 2], [1, 2], (x: int, y: int) => x == y, 1)
    ensures !ContainsSubArray([1, 1, 2], [1, 2], (x: int, y: int) => x == y)
  {
  }
}
