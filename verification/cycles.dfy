/** Cycle detection: `smallestRepeatingSequence` and
    `largestRepeatingSequence`, parameterised by a comparator that is called
    with the array element first. */
module Cycles {
  import opened Results
  import opened Sequences

  /** `arr` is `L`-periodic under `cmp`: `L` divides its length and every
      element matches the element at the same offset in the first block. */
  ghost predicate Periodic<T>(arr: seq<T>, L: nat, cmp: (T, T) -> bool) {
    L > 0 && |arr| % L == 0 && forall i :: 0 <= i < |arr| ==> MatchesBlock(arr, L, cmp, i)
  }

  /** Element `i` matches the element at its offset in the first block. */
  predicate MatchesBlock<T>(arr: seq<T>, L: nat, cmp: (T, T) -> bool, i: nat)
    requires 0 < L && i < |arr|
  {
    cmp(arr[i], arr[i % L])
  }

  /** The test of `smallestRepeatingSequence` (comparing `arr` with its
      first block repeated) is `L`-periodicity. */
  lemma RepeatedPrefixIsPeriodic<T>(arr: seq<T>, L: nat, cmp: (T, T) -> bool)
    requires 0 < L <= |arr| && |arr| % L == 0
    ensures EqualTo(arr, Repeat(arr[..L], |arr| / L), cmp) <==> Periodic(arr, L, cmp)
  {
    var rep := Repeat(arr[..L], |arr| / L);
    DivModUnique(|arr|, |arr| / L, 0, L);
    assert |rep| == |arr|;
    forall i | 0 <= i < |arr|
      ensures rep[i] == arr[i % L]
      ensures cmp(arr[i], rep[i]) == MatchesBlock(arr, L, cmp, i)
    {
      RepeatAt(arr[..L], |arr| / L, i);
    }
  }

  /** `smallestRepeatingSequence(arr, comparator)`: the first block of the
      shortest length `L` in `1..floor(|arr| / 2)` that divides `|arr|` and
      whose repetition equals `arr`; empty if there is none. */
  function SmallestRepeatingSequence<T>(arr: seq<T>, cmp: (T, T) -> bool): (r: seq<T>)
    ensures |r| <= |arr| / 2
    ensures |r| > 0 ==> r == arr[..|r|] && Periodic(arr, |r|, cmp)
    ensures |r| > 0 ==> EqualTo(arr, Repeat(r, |arr| / |r|), cmp)
    ensures forall L :: 0 < L < |r| ==> !Periodic(arr, L, cmp)
    ensures |r| == 0 ==> forall L :: 0 < L <= |arr| / 2 ==> !Periodic(arr, L, cmp)
  {
    SmallestFrom(arr, cmp, 1)
  }

  /** The loop of `smallestRepeatingSequence` from length `L` on, every
      shorter length having failed. */
  function SmallestFrom<T>(arr: seq<T>, cmp: (T, T) -> bool, L: nat): (r: seq<T>)
    requires 0 < L <= |arr| / 2 + 1
    requires forall k :: 0 < k < L ==> !Periodic(arr, k, cmp)
    ensures |r| <= |arr| / 2
    ensures |r| > 0 ==> L <= |r| && r == arr[..|r|] && Periodic(arr, |r|, cmp)
    ensures |r| > 0 ==> EqualTo(arr, Repeat(r, |arr| / |r|), cmp)
    ensures forall k :: 0 < k < |r| ==> !Periodic(arr, k, cmp)
    ensures |r| == 0 ==> forall k :: 0 < k <= |arr| / 2 ==> !Periodic(arr, k, cmp)
    decreases |arr| / 2 + 1 - L
  {
    if L > |arr| / 2 then []
    else if |arr| % L == 0 && EqualTo(arr, Repeat(arr[..L], |arr| / L), cmp) then
      RepeatedPrefixIsPeriodic(arr, L, cmp);
      arr[..L]
    else
      RejectedLengthNotPeriodic(arr, L, cmp);
      SmallestFrom(arr, cmp, L + 1)
  }

  lemma RejectedLengthNotPeriodic<T>(arr: seq<T>, L: nat, cmp: (T, T) -> bool)
    requires 0 < L <= |arr|
    requires !(|arr| % L == 0 && EqualTo(arr, Repeat(arr[..L], |arr| / L), cmp))
    ensures !Periodic(arr, L, cmp)
  {
    if |arr| % L == 0 {
      RepeatedPrefixIsPeriodic(arr, L, cmp);
    }
  }

  /** A candidate pattern `arr[start..end)` of `largestRepeatingSequence`. */
  datatype Slice = Slice(start: nat, end: nat) {
    function Length(): int { end - start }
  }

  /** The slices the nested loops visit over an array of length `n`:
      `start` over `0 until floor(n/2)`, `end` over `start until n`. The
      last element is never inside one. */
  predicate Candidate(n: nat, x: Slice) {
    x.start < n / 2 && x.start <= x.end < n
  }

  /** The order in which the nested loops visit slices. */
  predicate Before(x: Slice, y: Slice) {
    x.start < y.start || (x.start == y.start && x.end < y.end)
  }

  function Pattern<T>(arr: seq<T>, x: Slice): seq<T>
    requires x.start <= x.end <= |arr|
  {
    arr[x.start..x.end]
  }

  /** The test a slice must pass: the pattern twice over is found by
      `containsSubArray`. */
  predicate Passes<T>(arr: seq<T>, x: Slice, cmp: (T, T) -> bool)
    requires x.start <= x.end <= |arr|
  {
    ContainsSubArray(arr, Repeat(Pattern(arr, x), 2), cmp)
  }

  /** The test of the loop body as a total function on slices. */
  function PassTest<T>(arr: seq<T>, cmp: (T, T) -> bool): Slice -> bool {
    (x: Slice) => x.start <= x.end <= |arr| && Passes(arr, x, cmp)
  }

  /** The `possibilities` list over an array of length `n`: the slices from
      `(start, end)` on that pass `keep`, in visiting order. */
  function Possibilities(n: nat, keep: Slice -> bool, start: nat, end: nat): (ps: seq<Slice>)
    requires start <= n / 2 && start <= end <= n
    decreases n / 2 - start, n - end
  {
    if start == n / 2 then []
    else if end == n then Possibilities(n, keep, start + 1, start + 1)
    else
      var x := Slice(start, end);
      (if keep(x) then [x] else []) + Possibilities(n, keep, start, end + 1)
  }

  /** `ps` holds exactly the candidates that pass `keep`, visited from
      `from` on. */
  ghost predicate ListsKept(n: nat, keep: Slice -> bool, from: Slice, ps: seq<Slice>) {
    forall x {:trigger x in ps} :: x in ps <==> Candidate(n, x) && keep(x) && !Before(x, from)
  }

  predicate InVisitingOrder(ps: seq<Slice>) {
    forall j, k :: 0 <= j < k < |ps| ==> Before(ps[j], ps[k])
  }

  /** `possibilities` holds exactly the passing candidates from
      `(start, end)` on. */
  lemma {:induction false} PossibilitiesMembers(n: nat, keep: Slice -> bool, start: nat, end: nat)
    requires start <= n / 2 && start <= end <= n
    ensures ListsKept(n, keep, Slice(start, end), Possibilities(n, keep, start, end))
    decreases n / 2 - start, n - end
  {
    if start == n / 2 {
    } else if end == n {
      PossibilitiesMembers(n, keep, start + 1, start + 1);
      NextRowMembers(n, keep, start);
    } else {
      PossibilitiesMembers(n, keep, start, end + 1);
      NextEndMembers(n, keep, start, end);
    }
  }

  /** The end of a row: the candidates from `(start, n)` on are those
      from `(start + 1, start + 1)` on. */
  lemma NextRowMembers(n: nat, keep: Slice -> bool, start: nat)
    requires start < n / 2
    requires ListsKept(n, keep, Slice(start + 1, start + 1), Possibilities(n, keep, start + 1, start + 1))
    ensures ListsKept(n, keep, Slice(start, n), Possibilities(n, keep, start, n))
  {
    forall y | Candidate(n, y)
      ensures !Before(y, Slice(start, n)) <==> !Before(y, Slice(start + 1, start + 1))
    {
    }
  }

  /** One step along a row: slice `(start, end)` is listed first when it
      passes. */
  lemma NextEndMembers(n: nat, keep: Slice -> bool, start: nat, end: nat)
    requires start < n / 2 && start <= end < n
    requires ListsKept(n, keep, Slice(start, end + 1), Possibilities(n, keep, start, end + 1))
    ensures ListsKept(n, keep, Slice(start, end), Possibilities(n, keep, start, end))
  {
    var x := Slice(start, end);
    var head := if keep(x) then [x] else [];
    var rest := Possibilities(n, keep, start, end + 1);
    var ps := Possibilities(n, keep, start, end);
    assert ps == head + rest;
    forall y
      ensures y in ps <==> Candidate(n, y) && keep(y) && !Before(y, x)
    {
      assert y in ps <==> y in head || y in rest;
      if y == x {
        assert Before(y, Slice(start, end + 1));
      } else {
        assert !Before(y, x) <==> !Before(y, Slice(start, end + 1));
      }
    }
  }

  /** `possibilities` lists its slices strictly in visiting order. */
  lemma {:induction false} PossibilitiesOrdered(n: nat, keep: Slice -> bool, start: nat, end: nat)
    requires start <= n / 2 && start <= end <= n
    ensures InVisitingOrder(Possibilities(n, keep, start, end))
    decreases n / 2 - start, n - end
  {
    if start == n / 2 {
    } else if end == n {
      PossibilitiesOrdered(n, keep, start + 1, start + 1);
    } else {
      PossibilitiesOrdered(n, keep, start, end + 1);
      PossibilitiesMembers(n, keep, start, end + 1);
      NextEndOrdered(n, keep, start, end);
    }
  }

  /** One step along a row keeps the list in visiting order: every slice
      listed after `(start, end)` is visited after it. */
  lemma NextEndOrdered(n: nat, keep: Slice -> bool, start: nat, end: nat)
    requires start < n / 2 && start <= end < n
    requires ListsKept(n, keep, Slice(start, end + 1), Possibilities(n, keep, start, end + 1))
    requires InVisitingOrder(Possibilities(n, keep, start, end + 1))
    ensures InVisitingOrder(Possibilities(n, keep, start, end))
  {
    var x := Slice(start, end);
    var head := if keep(x) then [x] else [];
    var rest := Possibilities(n, keep, start, end + 1);
    assert Possibilities(n, keep, start, end) == head + rest;
    forall j | 0 <= j < |rest|
      ensures Before(x, rest[j])
    {
      assert rest[j] in rest;
    }
    ConsOrdered(head, rest, x);
  }

  lemma ConsOrdered(head: seq<Slice>, rest: seq<Slice>, x: Slice)
    requires head == [] || head == [x]
    requires forall j :: 0 <= j < |rest| ==> Before(x, rest[j])
    requires InVisitingOrder(rest)
    ensures InVisitingOrder(head + rest)
  {
  }

  /** `maxByOrNull { it.size }` on a non-empty list: the index of the
      first longest slice. */
  function FirstLongestIndex(ps: seq<Slice>): (r: nat)
    requires |ps| > 0
    ensures r < |ps|
    ensures forall j :: 0 <= j < |ps| ==> ps[j].Length() <= ps[r].Length()
    ensures forall j :: 0 <= j < r ==> ps[j].Length() < ps[r].Length()
  {
    MaxBySize(ps, 1, 0)
  }

  /** The loop of `maxByOrNull` from position `i` on, `best` being the
      index of the first longest slice among `ps[..i]`. */
  function MaxBySize(ps: seq<Slice>, i: nat, best: nat): (r: nat)
    requires best < i <= |ps|
    requires forall j :: 0 <= j < i ==> ps[j].Length() <= ps[best].Length()
    requires forall j :: 0 <= j < best ==> ps[j].Length() < ps[best].Length()
    ensures r < |ps|
    ensures forall j :: 0 <= j < |ps| ==> ps[j].Length() <= ps[r].Length()
    ensures forall j :: 0 <= j < r ==> ps[j].Length() < ps[r].Length()
    decreases |ps| - i
  {
    if i == |ps| then best
    else if ps[best].Length() < ps[i].Length() then MaxBySize(ps, i + 1, i)
    else MaxBySize(ps, i + 1, best)
  }

  /** `c` is the first longest passing candidate: it passes, none is
      longer, and every one visited before it is shorter. */
  ghost predicate FirstLongestPassing<T>(arr: seq<T>, cmp: (T, T) -> bool, c: Slice) {
    && Candidate(|arr|, c) && Passes(arr, c, cmp)
    && (forall x {:trigger Passes(arr, x, cmp)} :: Candidate(|arr|, x) && Passes(arr, x, cmp) ==>
          x.Length() <= c.Length())
    && (forall x {:trigger Passes(arr, x, cmp)} :: Candidate(|arr|, x) && Passes(arr, x, cmp) && Before(x, c) ==>
          x.Length() < c.Length())
  }

  /** The slice `largestRepeatingSequence` settles on: the first longest
      passing candidate. There is one as soon as `|arr| >= 2`, since the
      empty slice at 0 always passes. */
  function ChosenSlice<T>(arr: seq<T>, cmp: (T, T) -> bool): (r: Option<Slice>)
    ensures r.None? <==> |arr| < 2
    ensures r.Some? ==> FirstLongestPassing(arr, cmp, r.value)
  {
    var ps := Possibilities(|arr|, PassTest(arr, cmp), 0, 0);
    ChosenFacts(arr, cmp, ps);
    if |ps| == 0 then None else Some(ps[FirstLongestIndex(ps)])
  }

  /** What the selection over `possibilities` yields. */
  lemma ChosenFacts<T>(arr: seq<T>, cmp: (T, T) -> bool, ps: seq<Slice>)
    requires ps == Possibilities(|arr|, PassTest(arr, cmp), 0, 0)
    ensures |ps| == 0 <==> |arr| < 2
    ensures |ps| > 0 ==> FirstLongestPassing(arr, cmp, ps[FirstLongestIndex(ps)])
  {
    PossibilitiesMembers(|arr|, PassTest(arr, cmp), 0, 0);
    PossibilitiesOrdered(|arr|, PassTest(arr, cmp), 0, 0);
    EmptySlicePasses(arr, cmp);
    assert Slice(0, 0) in ps <==> |arr| >= 2;
    if |ps| > 0 {
      ChosenIsFirstLongest(arr, cmp, ps, FirstLongestIndex(ps));
    }
  }

  /** The empty slice at 0 is a candidate once `|arr| >= 2`, and it passes. */
  lemma EmptySlicePasses<T>(arr: seq<T>, cmp: (T, T) -> bool)
    ensures |arr| >= 2 ==> Candidate(|arr|, Slice(0, 0))
    ensures Passes(arr, Slice(0, 0), cmp)
  {
    assert Repeat(Pattern(arr, Slice(0, 0)), 2) == [];
  }

  /** In a list sorted by visiting order, the first longest entry is no
      shorter than any entry and longer than every entry before it. */
  lemma FirstLongestInOrder(ps: seq<Slice>, i: nat, x: Slice)
    requires i < |ps| && x in ps
    requires InVisitingOrder(ps)
    requires forall j :: 0 <= j < |ps| ==> ps[j].Length() <= ps[i].Length()
    requires forall j :: 0 <= j < i ==> ps[j].Length() < ps[i].Length()
    ensures x.Length() <= ps[i].Length()
    ensures Before(x, ps[i]) ==> x.Length() < ps[i].Length()
  {
    var j :| 0 <= j < |ps| && ps[j] == x;
    if j > i {
      assert Before(ps[i], ps[j]);
    }
  }

  /** The entry `maxByOrNull` picks from the list of passing candidates is
      the first longest passing candidate. */
  lemma ChosenIsFirstLongest<T>(arr: seq<T>, cmp: (T, T) -> bool, ps: seq<Slice>, i: nat)
    requires i < |ps|
    requires ListsKept(|arr|, PassTest(arr, cmp), Slice(0, 0), ps)
    requires InVisitingOrder(ps)
    requires forall j :: 0 <= j < |ps| ==> ps[j].Length() <= ps[i].Length()
    requires forall j :: 0 <= j < i ==> ps[j].Length() < ps[i].Length()
    ensures FirstLongestPassing(arr, cmp, ps[i])
  {
    assert ps[i] in ps;
    forall x | Candidate(|arr|, x) && Passes(arr, x, cmp)
      ensures x.Length() <= ps[i].Length()
      ensures Before(x, ps[i]) ==> x.Length() < ps[i].Length()
    {
      assert PassTest(arr, cmp)(x);
      assert !Before(x, Slice(0, 0)) && x in ps;
      FirstLongestInOrder(ps, i, x);
    }
  }

  /** `r` is what `largestRepeatingSequence` makes of pattern `p`: the
      shortest repeating unit of `p`, or `p` itself when it has none. */
  ghost predicate ReducedTo<T>(p: seq<T>, r: seq<T>, cmp: (T, T) -> bool) {
    && (|r| == 0 <==> |p| == 0)
    && |r| <= |p| && r == p[..|r|]
    && (r == p ==> forall L :: 0 < L <= |p| / 2 ==> !Periodic(p, L, cmp))
    && (r != p ==> |r| <= |p| / 2 && Periodic(p, |r|, cmp) && EqualTo(p, Repeat(r, |p| / |r|), cmp)
                   && forall L :: 0 < L < |r| ==> !Periodic(p, L, cmp))
  }

  /** The last line of `largestRepeatingSequence`. */
  function ReduceToUnit<T>(p: seq<T>, cmp: (T, T) -> bool): (r: seq<T>)
    ensures ReducedTo(p, r, cmp)
  {
    var unit := SmallestRepeatingSequence(p, cmp);
    if |unit| > 0 then unit else p
  }

  /** `largestRepeatingSequence(arr, comparator)`: the chosen slice's
      pattern reduced to its shortest repeating unit. */
  function LargestRepeatingSequence<T>(arr: seq<T>, cmp: (T, T) -> bool): (r: seq<T>)
    ensures |arr| < 2 ==> r == []
    ensures ChosenSlice(arr, cmp).Some? ==> ReducedTo(Pattern(arr, ChosenSlice(arr, cmp).value), r, cmp)
  {
    match ChosenSlice(arr, cmp)
    case None => []
    case Some(x) => ReduceToUnit(Pattern(arr, x), cmp)
  }
}
