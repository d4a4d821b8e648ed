/** `alignPollingLoop`: picks the rotation of a detected cycle that puts it
    in a canonical phase. The source scores rotations with doubles
    (2 per rank step, 1 for a trailing ON,OFF pair, 0.001 per data byte and
    0.00001 times the signed first byte); here every score is that value
    times 100000, an integer. */
module Aligner {
  import opened HexCodec
  import opened Events
  import opened Sequences

  const RankStepPoints := 200000
  const TrailingPairPoints := 100000
  const DataBytePoints := 100

  /** `fieldTypeToIndex.getOrDefault(type, -1)`: A, B and F are ranked in
      polling order, every other type is unranked. */
  function TechRank(t: FrameType): int {
    match t
    case A => 2
    case B => 3
    case F => 4
    case _ => -1
  }

  /** The inner loop of the scorer: how often the rank of an event strictly
      exceeds the highest rank seen so far, starting from `seen`. */
  function RankSteps(es: seq<PollingLoopEvent>, seen: int): nat
    decreases |es|
  {
    if |es| == 0 then 0
    else
      var current := TechRank(es[0].frameType);
      if seen < current then 1 + RankSteps(es[1..], current)
      else RankSteps(es[1..], seen)
  }

  /** How many of the ranks 2, 3 and 4 lie above `seen`. */
  function RanksAbove(seen: int): nat {
    (if seen < 2 then 1 else 0) + (if seen < 3 then 1 else 0) + (if seen < 4 then 1 else 0)
  }

  /** Each rank step moves to a strictly higher rank, so a traversal earns at
      most one step per rank left above its start: at most three in all. */
  lemma {:induction false} RankStepsBound(es: seq<PollingLoopEvent>, seen: int)
    requires seen >= -1
    ensures RankSteps(es, seen) <= RanksAbove(seen) <= 3
    decreases |es|
  {
    if |es| > 0 {
      var current := TechRank(es[0].frameType);
      if seen < current {
        RankStepsBound(es[1..], current);
        assert RanksAbove(current) < RanksAbove(seen);
      } else {
        RankStepsBound(es[1..], seen);
      }
    }
  }

  /** A traversal earns no rank step exactly when no event outranks `seen`. */
  lemma {:induction false} NoRankStepIff(es: seq<PollingLoopEvent>, seen: int)
    ensures RankSteps(es, seen) == 0 <==> forall i :: 0 <= i < |es| ==> TechRank(es[i].frameType) <= seen
    decreases |es|
  {
    if |es| > 0 {
      NoRankStepIff(es[1..], seen);
      assert forall i :: 1 <= i < |es| ==> es[i] == es[1..][i - 1];
    }
  }

  /** The points of a rotated loop `r`. */
  function RotationScore(r: seq<PollingLoopEvent>): int
    requires |r| >= 2
  {
    var first := r[0].data;
    RankStepPoints * RankSteps(r, -1)
      + (if r[|r| - 2].frameType == On && r[|r| - 1].frameType == Off then TrailingPairPoints else 0)
      + DataBytePoints * |first|
      + (if |first| > 0 then Signed(first[0]) else 0)
  }

  /** The score of rotation `k` of `es`. */
  function Score(es: seq<PollingLoopEvent>, k: nat): int
    requires |es| >= 2
  {
    RotationScore(Rotate(es, k))
  }

  /** The scorer reads the first event and the trailing pair through `get`,
      which is the rotated loop read directly; the rank-step term walks the
      rotated loop itself. */
  lemma RotationScoreReadsGet(es: seq<PollingLoopEvent>, k: nat)
    requires |es| >= 2
    ensures Score(es, k) ==
      RankStepPoints * RankSteps(Rotate(es, k), -1)
      + (if Get(es, |es| - 2, k).frameType == On && Get(es, |es| - 1, k).frameType == Off
         then TrailingPairPoints else 0)
      + DataBytePoints * |Get(es, 0, k).data|
      + (if |Get(es, 0, k).data| > 0 then Signed(Get(es, 0, k).data[0]) else 0)
  {
    GetIsRotate(es, 0, k);
    GetIsRotate(es, |es| - 2, k);
    GetIsRotate(es, |es| - 1, k);
  }

  /** A rotated loop that opens with the field switching on and closes with
      it switching off. */
  predicate OnToOff(r: seq<PollingLoopEvent>)
    requires |r| >= 1
  {
    r[0].frameType == On && r[|r| - 1].frameType == Off
  }

  /** Rotation `k` is a candidate: `get(0, k)` is ON and `get(size - 1, k)`
      is OFF, that is `es[k]` is ON and the event before it, cyclically, is
      OFF. */
  predicate IsCandidate(es: seq<PollingLoopEvent>, k: nat)
    requires |es| >= 1
  {
    Get(es, 0, k).frameType == On && Get(es, |es| - 1, k).frameType == Off
  }

  /** A candidate is a rotation that opens with ON and closes with OFF. */
  lemma CandidateIsOnToOff(es: seq<PollingLoopEvent>, k: nat)
    requires |es| >= 1
    ensures IsCandidate(es, k) <==> OnToOff(Rotate(es, k))
  {
    GetIsRotate(es, 0, k);
    GetIsRotate(es, |es| - 1, k);
  }

  ghost predicate NoCandidate(es: seq<PollingLoopEvent>)
    requires |es| >= 1
  {
    forall k: nat :: k < |es| ==> !IsCandidate(es, k)
  }

  /** The rotations the scorer visits: the candidates, or every rotation when
      there is none. */
  ghost predicate Considered(es: seq<PollingLoopEvent>, k: nat)
    requires |es| >= 1
  {
    k < |es| && (IsCandidate(es, k) || NoCandidate(es))
  }

  /** The candidates among `i until size`, in increasing order. */
  function CandidatesFrom(es: seq<PollingLoopEvent>, i: nat): (rs: seq<nat>)
    requires 1 <= |es| && i <= |es|
    ensures forall k: nat :: k in rs <==> i <= k < |es| && IsCandidate(es, k)
    ensures forall j :: 0 <= j < |rs| ==> i <= rs[j]
    ensures forall j, l :: 0 <= j < l < |rs| ==> rs[j] < rs[l]
    decreases |es| - i
  {
    if i == |es| then []
    else
      var rest := CandidatesFrom(es, i + 1);
      var head := if IsCandidate(es, i) then [i] else [];
      PrependSmaller(head, rest, i);
      head + rest
  }

  lemma PrependSmaller(head: seq<nat>, rest: seq<nat>, i: nat)
    requires head == [] || head == [i]
    requires forall j :: 0 <= j < |rest| ==> i + 1 <= rest[j]
    requires forall j, l :: 0 <= j < l < |rest| ==> rest[j] < rest[l]
    ensures forall k: nat :: k in head + rest <==> k in head || k in rest
    ensures forall j :: 0 <= j < |head + rest| ==> i <= (head + rest)[j]
    ensures forall j, l :: 0 <= j < l < |head + rest| ==> (head + rest)[j] < (head + rest)[l]
  {
    var all := head + rest;
    if head == [i] {
      forall j, l | 0 <= j < l < |all|
        ensures all[j] < all[l]
      {
        assert all[l] == rest[l - 1];
        if j > 0 {
          assert all[j] == rest[j - 1];
        }
      }
    } else {
      assert all == rest;
    }
  }

  /** `i until n` as a list. */
  function Range(i: nat, n: nat): (rs: seq<nat>)
    requires i <= n
    ensures |rs| == n - i
    ensures forall j :: 0 <= j < |rs| ==> rs[j] == i + j
    decreases n - i
  {
    if i == n then [] else [i] + Range(i + 1, n)
  }

  lemma InRange(all: seq<nat>, n: nat)
    requires |all| == n && forall j :: 0 <= j < n ==> all[j] == j
    ensures forall k: nat :: k in all <==> k < n
  {
    forall k: nat | k < n
      ensures k in all
    {
      assert all[k] == k;
    }
  }

  /** `rotations`: the considered rotations, in increasing order. */
  function Rotations(es: seq<PollingLoopEvent>): (rs: seq<nat>)
    requires |es| >= 1
    ensures forall k: nat :: k in rs <==> Considered(es, k)
    ensures forall j, l :: 0 <= j < l < |rs| ==> rs[j] < rs[l]
  {
    var candidates := CandidatesFrom(es, 0);
    if |candidates| == 0 then
      var all := Range(0, |es|);
      assert NoCandidate(es);
      assert forall k: nat :: k < |es| ==> all[k] == k;
      InRange(all, |es|);
      all
    else
      assert candidates[0] in candidates;
      assert !NoCandidate(es);
      candidates
  }

  /** The `biggest` pair: a score and the rotation that earned it. */
  datatype Pick = Pick(score: int, rotation: nat)

  /** The selection loop over `rs` from `best` on: a rotation replaces the
      current pick only with a strictly greater score. */
  function PickBest(es: seq<PollingLoopEvent>, rs: seq<nat>, best: Pick): (r: Pick)
    requires |es| >= 2
    requires forall j, l :: 0 <= j < l < |rs| ==> rs[j] < rs[l]
    ensures best.score <= r.score
    ensures forall j :: 0 <= j < |rs| ==> Score(es, rs[j]) <= r.score
    ensures r == best ==> forall j :: 0 <= j < |rs| ==> Score(es, rs[j]) <= best.score
    ensures r != best ==>
      r.rotation in rs && r.score == Score(es, r.rotation) && best.score < r.score &&
      forall j :: 0 <= j < |rs| && rs[j] < r.rotation ==> Score(es, rs[j]) < r.score
    decreases |rs|
  {
    if |rs| == 0 then best
    else
      var s := Score(es, rs[0]);
      var next := if best.score < s then Pick(s, rs[0]) else best;
      var r := PickBest(es, rs[1..], next);
      PickBestStep(es, rs, best, next, r);
      r
  }

  /** One step of the selection loop: what holds of the rest of `rs` from
      `next` on holds of all of `rs` from `best` on. */
  lemma PickBestStep(es: seq<PollingLoopEvent>, rs: seq<nat>, best: Pick, next: Pick, r: Pick)
    requires |es| >= 2 && |rs| > 0
    requires forall j, l :: 0 <= j < l < |rs| ==> rs[j] < rs[l]
    requires next == if best.score < Score(es, rs[0]) then Pick(Score(es, rs[0]), rs[0]) else best
    requires next.score <= r.score
    requires forall j :: 0 <= j < |rs[1..]| ==> Score(es, rs[1..][j]) <= r.score
    requires r == next ==> forall j :: 0 <= j < |rs[1..]| ==> Score(es, rs[1..][j]) <= next.score
    requires r != next ==>
      r.rotation in rs[1..] && r.score == Score(es, r.rotation) && next.score < r.score &&
      forall j :: 0 <= j < |rs[1..]| && rs[1..][j] < r.rotation ==> Score(es, rs[1..][j]) < r.score
    ensures best.score <= r.score
    ensures forall j :: 0 <= j < |rs| ==> Score(es, rs[j]) <= r.score
    ensures r == best ==> forall j :: 0 <= j < |rs| ==> Score(es, rs[j]) <= best.score
    ensures r != best ==>
      r.rotation in rs && r.score == Score(es, r.rotation) && best.score < r.score &&
      forall j :: 0 <= j < |rs| && rs[j] < r.rotation ==> Score(es, rs[j]) < r.score
  {
    assert forall j :: 1 <= j < |rs| ==> rs[j] == rs[1..][j - 1];
    if r != best && r != next {
      assert r.rotation in rs[1..] && rs[0] < r.rotation;
    }
  }

  /** No considered rotation scores above zero, the score of the initial
      pick. */
  ghost predicate NothingPositive(es: seq<PollingLoopEvent>)
    requires |es| >= 2
  {
    forall c: nat :: Considered(es, c) ==> Score(es, c) <= 0
  }

  /** `k` is the first considered rotation with the greatest score, and that
      score is positive. */
  ghost predicate BestRotation(es: seq<PollingLoopEvent>, k: nat)
    requires |es| >= 2
  {
    && Considered(es, k) && 0 < Score(es, k)
    && (forall c: nat :: Considered(es, c) ==> Score(es, c) <= Score(es, k))
    && (forall c: nat :: Considered(es, c) && c < k ==> Score(es, c) < Score(es, k))
  }

  /** The rotation `alignPollingLoop` applies: the first considered rotation
      with the strictly greatest score when that score is positive, and
      rotation 0 otherwise. */
  function ChosenRotation(es: seq<PollingLoopEvent>): (k: nat)
    requires |es| >= 2
    ensures k < |es|
    ensures (k == 0 && NothingPositive(es)) || BestRotation(es, k)
  {
    var rs := Rotations(es);
    var r := PickBest(es, rs, Pick(0, 0));
    PickedOverConsidered(es, rs, r);
    r.rotation
  }

  lemma PickedOverConsidered(es: seq<PollingLoopEvent>, rs: seq<nat>, r: Pick)
    requires |es| >= 2
    requires forall k: nat :: k in rs <==> Considered(es, k)
    requires forall j :: 0 <= j < |rs| ==> Score(es, rs[j]) <= r.score
    requires r != Pick(0, 0) ==>
      r.rotation in rs && r.score == Score(es, r.rotation) && 0 < r.score &&
      forall j :: 0 <= j < |rs| && rs[j] < r.rotation ==> Score(es, rs[j]) < r.score
    ensures forall c: nat :: Considered(es, c) ==> Score(es, c) <= r.score
    ensures r != Pick(0, 0) ==> forall c: nat :: Considered(es, c) && c < r.rotation ==> Score(es, c) < r.score
  {
    forall c: nat | Considered(es, c)
      ensures Score(es, c) <= r.score
      ensures r != Pick(0, 0) && c < r.rotation ==> Score(es, c) < r.score
    {
      assert c in rs;
      var j :| 0 <= j < |rs| && rs[j] == c;
    }
  }

  /** `alignPollingLoop(events)`: a loop of at most one event is returned
      as is; otherwise the loop rotated by the chosen rotation, a
      permutation of it. */
  function AlignPollingLoop(es: seq<PollingLoopEvent>): (r: seq<PollingLoopEvent>)
    ensures |es| <= 1 ==> r == es
    ensures |r| == |es| && multiset(r) == multiset(es)
    ensures |es| >= 2 ==> exists k: nat :: k < |es| && r == Rotate(es, k)
  {
    if |es| <= 1 then es
    else
      var k := ChosenRotation(es);
      RotatePermutes(es, k);
      Rotate(es, k)
  }

  /** When some candidate scores above zero the aligned loop opens with ON
      and closes with OFF. */
  lemma AlignedStartsOnEndsOff(es: seq<PollingLoopEvent>, c: nat)
    requires |es| >= 2 && c < |es| && IsCandidate(es, c) && Score(es, c) > 0
    ensures OnToOff(AlignPollingLoop(es))
  {
    assert Considered(es, c);
    var k := ChosenRotation(es);
    assert Considered(es, k);
    assert !NoCandidate(es);
    CandidateIsOnToOff(es, k);
  }

  /** Rotation `c` of the aligned loop is rotation `(k + c) mod n` of the
      original. */
  lemma RotateAligned<T>(s: seq<T>, k: nat, c: nat)
    requires |s| > 0
    ensures Rotate(Rotate(s, k), c) == Rotate(s, (k + c) % |s|)
  {
    calc {
      Rotate(Rotate(s, k), c);
      == { RotateRotate(s, k, c); }
      Rotate(s, k + c);
      == { RotateMod(s, k + c); }
      Rotate(s, (k + c) % |s|);
    }
  }

  /** Scores and candidates of the aligned loop are those of the original,
      shifted by the chosen rotation. */
  lemma ShiftedRotation(es: seq<PollingLoopEvent>, k: nat, c: nat)
    requires |es| >= 2
    ensures Score(Rotate(es, k), c) == Score(es, (k + c) % |es|)
    ensures IsCandidate(Rotate(es, k), c) <==> IsCandidate(es, (k + c) % |es|)
  {
    RotateAligned(es, k, c);
    CandidateIsOnToOff(Rotate(es, k), c);
    CandidateIsOnToOff(es, (k + c) % |es|);
  }

  /** Every rotation of the original is some rotation of the aligned loop. */
  lemma UnshiftRotation(n: nat, k: nat, d: nat) returns (e: nat)
    requires k < n && d < n
    ensures e < n && (k + e) % n == d
  {
    e := (d + n - k) % n;
    ModAddLeft(d + n - k, k, n);
    ModShift(d, n);
    DivModUnique(d, 0, d, n);
  }

  lemma ConsideredShift(es: seq<PollingLoopEvent>, k: nat, c: nat)
    requires |es| >= 2 && k < |es| && c < |es|
    ensures Considered(Rotate(es, k), c) <==> Considered(es, (k + c) % |es|)
  {
    var n := |es|;
    var aligned := Rotate(es, k);
    ShiftedRotation(es, k, c);
    if !NoCandidate(es) {
      var d: nat :| d < n && !(!IsCandidate(es, d));
      var e := UnshiftRotation(n, k, d);
      ShiftedRotation(es, k, e);
      assert IsCandidate(aligned, e);
    }
    if !NoCandidate(aligned) {
      var e: nat :| e < n && !(!IsCandidate(aligned, e));
      ShiftedRotation(es, k, e);
      assert IsCandidate(es, (k + e) % n);
    }
  }

  /** Aligning an aligned loop changes nothing. */
  lemma AlignIdempotent(es: seq<PollingLoopEvent>)
    ensures AlignPollingLoop(AlignPollingLoop(es)) == AlignPollingLoop(es)
  {
    if |es| >= 2 {
      var n := |es|;
      var k := ChosenRotation(es);
      var aligned := Rotate(es, k);
      if k == 0 && NothingPositive(es) {
        assert aligned == es;
      } else {
        AlignedKeepsRotationZero(es, k);
      }
    }
  }

  /** After aligning at the best rotation `k`, rotation 0 of the result is
      the best rotation. */
  lemma AlignedKeepsRotationZero(es: seq<PollingLoopEvent>, k: nat)
    requires |es| >= 2 && k < |es|
    requires BestRotation(es, k)
    ensures ChosenRotation(Rotate(es, k)) == 0
  {
    var aligned := Rotate(es, k);
    AlignedZeroConsidered(es, k);
    forall c: nat | Considered(aligned, c)
      ensures Score(aligned, c) <= Score(aligned, 0)
    {
      AlignedScoreBound(es, k, c);
    }
    ChosenWhenZeroBest(aligned);
  }

  lemma AlignedZeroConsidered(es: seq<PollingLoopEvent>, k: nat)
    requires |es| >= 2 && k < |es|
    requires Considered(es, k)
    ensures Considered(Rotate(es, k), 0) && Score(Rotate(es, k), 0) == Score(es, k)
  {
    assert (k + 0) % |es| == k by { DivModUnique(k + 0, 0, k, |es|); }
    AlignedZeroScore(es, k);
    ConsideredShift(es, k, 0);
  }

  lemma AlignedZeroScore(es: seq<PollingLoopEvent>, k: nat)
    requires |es| >= 2 && k < |es|
    ensures Score(Rotate(es, k), 0) == Score(es, k)
  {
    assert (k + 0) % |es| == k by { DivModUnique(k + 0, 0, k, |es|); }
    ShiftedRotation(es, k, 0);
  }

  lemma AlignedScoreBound(es: seq<PollingLoopEvent>, k: nat, c: nat)
    requires |es| >= 2 && k < |es|
    requires BestRotation(es, k)
    requires Considered(Rotate(es, k), c)
    ensures Score(Rotate(es, k), c) <= Score(es, k)
  {
    ShiftedRotation(es, k, c);
    ConsideredShift(es, k, c);
  }

  /** A loop whose rotation 0 is the best rotation is left as it is. */
  lemma ChosenWhenZeroBest(es: seq<PollingLoopEvent>)
    requires |es| >= 2
    requires Considered(es, 0) && 0 < Score(es, 0)
    requires forall c: nat :: Considered(es, c) ==> Score(es, c) <= Score(es, 0)
    ensures ChosenRotation(es) == 0
  {
    assert BestRotation(es, 0);
    var k2 := ChosenRotation(es);
    if k2 != 0 {
      BestRotationUnique(es, k2, 0);
    }
  }

  /** At most one rotation is the first with the greatest score. */
  lemma BestRotationUnique(es: seq<PollingLoopEvent>, a: nat, b: nat)
    requires |es| >= 2 && BestRotation(es, a) && BestRotation(es, b)
    ensures a == b
  {
  }

  /** Rotation 0 can win without being a candidate: in OFF, ON, X (X an
      unranked frame with no data) the only candidate scores 0, which does not
      beat the initial pick, so the loop stays as it is and does not open
      with ON. */
  lemma ZeroScoreKeepsNonCandidate(ts: int, gain: int, d: int)
    ensures var es := [PollingLoopEvent(ts, Off, [], gain, d),
                       PollingLoopEvent(ts, On, [], gain, d),
                       PollingLoopEvent(ts, Unknown, [], gain, d)];
      AlignPollingLoop(es) == es && !OnToOff(AlignPollingLoop(es)) && IsCandidate(es, 1)
  {
    var es := [PollingLoopEvent(ts, Off, [], gain, d),
               PollingLoopEvent(ts, On, [], gain, d),
               PollingLoopEvent(ts, Unknown, [], gain, d)];
    var r1 := Rotate(es, 1);
    assert r1 == [es[1], es[2], es[0]];
    NoRankStepIff(r1, -1);
    assert Score(es, 1) == 0;
    assert IsCandidate(es, 1);
    assert !IsCandidate(es, 0);
    assert !IsCandidate(es, 2);
    forall c: nat | Considered(es, c)
      ensures c == 1
    {
    }
    var k := ChosenRotation(es);
    assert k == 0;
    assert Rotate(es, 0) == es;
  }
}
