/** `mapPollingEventsToLoopActivity`: splits an aligned polling loop into
    `Loop` records, one per OFF event, plus a final open one. */
module Segmenter {
  import opened Events

  /** The loop variables of the source: the loops emitted so far, the
      pending start delta (-1 when none), the events collected since the last
      OFF, and the position within the current segment. */
  datatype Walker = Walker(
    result: seq<Loop>,
    startDelta: int,
    elements: seq<PollingLoopEvent>,
    currentIndex: nat)

  const Initial := Walker([], -1, [], 0)

  /** One iteration of the loop body. An OFF closes the current loop with
      its own delta; an ON in the first position of a segment only records
      the start delta; every other event, an ON further in included, is
      collected. */
  function Absorb(w: Walker, e: PollingLoopEvent): Walker {
    if e.frameType == Off then
      Walker(w.result + [Loop(w.startDelta, e.delta, w.elements)], -1, [], 0)
    else if w.currentIndex == 0 && e.frameType == On then
      Walker(w.result, e.delta, w.elements, w.currentIndex + 1)
    else
      Walker(w.result, w.startDelta, w.elements + [e], w.currentIndex + 1)
  }

  /** The loop variables after the events of `es`, in order. */
  function Walked(es: seq<PollingLoopEvent>): Walker
    decreases |es|
  {
    if |es| == 0 then Initial
    else Absorb(Walked(es[..|es| - 1]), es[|es| - 1])
  }

  /** The code after the loop: the pending loop is emitted, open
      (`endDelta` -1), when it has events or a start delta. */
  function Finish(w: Walker): seq<Loop> {
    if |w.elements| > 0 || w.startDelta != -1 then w.result + [Loop(w.startDelta, -1, w.elements)]
    else w.result
  }

  /** `mapPollingEventsToLoopActivity(events)` */
  function MapPollingEventsToLoopActivity(es: seq<PollingLoopEvent>): (r: seq<Loop>)
    ensures |r| == |ClosedSegments(es)| + (if OpenTail(TrailingSegment(es)) then 1 else 0)
    ensures |ClosedSegments(es)| == |OffDeltas(es)|
    ensures forall j :: 0 <= j < |ClosedSegments(es)| ==>
      r[j] == LoopOf(ClosedSegments(es)[j], OffDeltas(es)[j])
    ensures OpenTail(TrailingSegment(es)) ==> r[|r| - 1] == LoopOf(TrailingSegment(es), -1)
    ensures forall j :: 0 <= j < |r| ==> NoOff(r[j].events)
    ensures Flatten(r) == Kept(es)
  {
    var w := Walked(es);
    WalkedSegments(es);
    WalkedKeeps(es);
    TrailingSegmentNoOff(es);
    ClosedSegmentsNoOff(es);
    FinishProperties(w, es);
    Finish(w)
  }

  // ----- Reference definitions, each over the prefix of `es` -----

  predicate NoOff(es: seq<PollingLoopEvent>) {
    forall i :: 0 <= i < |es| ==> es[i].frameType != Off
  }

  /** The events after the last OFF (all of `es` when there is none). */
  function TrailingSegment(es: seq<PollingLoopEvent>): seq<PollingLoopEvent>
    decreases |es|
  {
    if |es| == 0 then []
    else if es[|es| - 1].frameType == Off then []
    else TrailingSegment(es[..|es| - 1]) + [es[|es| - 1]]
  }

  /** The segments closed by an OFF, in order: the events between two
      consecutive OFFs (or before the first). */
  function ClosedSegments(es: seq<PollingLoopEvent>): seq<seq<PollingLoopEvent>>
    decreases |es|
  {
    if |es| == 0 then []
    else if es[|es| - 1].frameType == Off then ClosedSegments(es[..|es| - 1]) + [TrailingSegment(es[..|es| - 1])]
    else ClosedSegments(es[..|es| - 1])
  }

  /** The deltas of the OFF events, in order. */
  function OffDeltas(es: seq<PollingLoopEvent>): seq<int>
    decreases |es|
  {
    if |es| == 0 then []
    else OffDeltas(es[..|es| - 1]) + (if es[|es| - 1].frameType == Off then [es[|es| - 1].delta] else [])
  }

  /** The Loop a segment becomes: a leading ON gives the start delta and is
      dropped; otherwise the start delta is unknown. */
  function LoopOf(seg: seq<PollingLoopEvent>, endDelta: int): Loop {
    if |seg| > 0 && seg[0].frameType == On then Loop(seg[0].delta, endDelta, seg[1..])
    else Loop(-1, endDelta, seg)
  }

  /** The trailing segment yields an open Loop unless it is empty or a lone
      ON whose delta is the -1 sentinel. */
  predicate OpenTail(seg: seq<PollingLoopEvent>) {
    |seg| > 0 && !(|seg| == 1 && seg[0].frameType == On && seg[0].delta == -1)
  }

  /** Event `j` is dropped: it is an OFF, or an ON that opens a segment. */
  predicate Dropped(es: seq<PollingLoopEvent>, j: nat)
    requires j < |es|
  {
    es[j].frameType == Off || (es[j].frameType == On && (j == 0 || es[j - 1].frameType == Off))
  }

  /** The input with its OFFs and segment-opening ONs removed. */
  function Kept(es: seq<PollingLoopEvent>): seq<PollingLoopEvent>
    decreases |es|
  {
    if |es| == 0 then []
    else Kept(es[..|es| - 1]) + (if Dropped(es, |es| - 1) then [] else [es[|es| - 1]])
  }

  /** All events of the loops, in order. */
  function Flatten(ls: seq<Loop>): seq<PollingLoopEvent>
    decreases |ls|
  {
    if |ls| == 0 then [] else Flatten(ls[..|ls| - 1]) + ls[|ls| - 1].events
  }

  // ----- The walk against the reference -----

  lemma {:induction false} TrailingSegmentNoOff(es: seq<PollingLoopEvent>)
    ensures NoOff(TrailingSegment(es))
    decreases |es|
  {
    if |es| > 0 && es[|es| - 1].frameType != Off {
      TrailingSegmentNoOff(es[..|es| - 1]);
    }
  }

  lemma {:induction false} ClosedSegmentsNoOff(es: seq<PollingLoopEvent>)
    ensures forall j :: 0 <= j < |ClosedSegments(es)| ==> NoOff(ClosedSegments(es)[j])
    decreases |es|
  {
    if |es| > 0 {
      ClosedSegmentsNoOff(es[..|es| - 1]);
      TrailingSegmentNoOff(es[..|es| - 1]);
    }
  }

  /** The loop variables track the reference: the current segment is the
      trailing segment and the emitted loops are the closed segments. */
  lemma {:induction false} WalkedSegments(es: seq<PollingLoopEvent>)
    ensures var w := Walked(es); var seg := TrailingSegment(es);
      && w.currentIndex == |seg|
      && Loop(w.startDelta, -1, w.elements) == LoopOf(seg, -1)
      && |w.result| == |ClosedSegments(es)| == |OffDeltas(es)|
      && forall j :: 0 <= j < |w.result| ==> w.result[j] == LoopOf(ClosedSegments(es)[j], OffDeltas(es)[j])
    decreases |es|
  {
    if |es| > 0 {
      var p := es[..|es| - 1];
      var e := es[|es| - 1];
      WalkedSegments(p);
      var seg := TrailingSegment(p);
      if e.frameType != Off {
        var seg2 := seg + [e];
        assert TrailingSegment(es) == seg2;
        if |seg| > 0 {
          assert seg2[0] == seg[0];
          assert seg2[1..] == seg[1..] + [e];
        }
      }
    }
  }

  /** The emitted loops and the pending events hold exactly the kept
      events. */
  lemma {:induction false} WalkedKeeps(es: seq<PollingLoopEvent>)
    ensures Flatten(Walked(es).result) + Walked(es).elements == Kept(es)
    decreases |es|
  {
    if |es| > 0 {
      var p := es[..|es| - 1];
      var e := es[|es| - 1];
      var w := Walked(p);
      WalkedKeeps(p);
      WalkedSegments(p);
      assert |es| >= 2 ==> es[|es| - 2] == p[|p| - 1];
      if e.frameType == Off {
        var ls := w.result + [Loop(w.startDelta, e.delta, w.elements)];
        assert ls[..|ls| - 1] == w.result;
      }
    }
  }

  /** The last step: `Finish` emits the open loop exactly for an open tail. */
  lemma FinishProperties(w: Walker, es: seq<PollingLoopEvent>)
    requires w == Walked(es)
    requires Loop(w.startDelta, -1, w.elements) == LoopOf(TrailingSegment(es), -1)
    requires |w.result| == |ClosedSegments(es)| == |OffDeltas(es)|
    requires Flatten(w.result) + w.elements == Kept(es)
    requires NoOff(TrailingSegment(es))
    requires forall j :: 0 <= j < |ClosedSegments(es)| ==> NoOff(ClosedSegments(es)[j])
    requires forall j :: 0 <= j < |w.result| ==> w.result[j] == LoopOf(ClosedSegments(es)[j], OffDeltas(es)[j])
    ensures |Finish(w)| == |w.result| + (if OpenTail(TrailingSegment(es)) then 1 else 0)
    ensures Finish(w)[..|w.result|] == w.result
    ensures OpenTail(TrailingSegment(es)) ==> Finish(w)[|w.result|] == LoopOf(TrailingSegment(es), -1)
    ensures forall j :: 0 <= j < |Finish(w)| ==> NoOff(Finish(w)[j].events)
    ensures Flatten(Finish(w)) == Kept(es)
  {
    var seg := TrailingSegment(es);
    var r := Finish(w);
    assert (|w.elements| > 0 || w.startDelta != -1) <==> OpenTail(seg);
    forall j | 0 <= j < |w.result|
      ensures NoOff(w.result[j].events)
    {
      var cs := ClosedSegments(es)[j];
      assert NoOff(cs);
      assert w.result[j].events == cs || w.result[j].events == cs[1..];
    }
    if OpenTail(seg) {
      assert r[..|r| - 1] == w.result;
      assert w.elements == seg || w.elements == seg[1..];
    } else {
      assert w.elements == [];
    }
  }

  /** ON(d0) A B OFF(d1) ON(d2) F OFF(d3) gives two closed loops, (d0, d1, [A, B]) and (d2, d3, [F]). */
  lemma TwoClosedLoops(on0: PollingLoopEvent, a: PollingLoopEvent, b: PollingLoopEvent, off1: PollingLoopEvent,
                       on2: PollingLoopEvent, f: PollingLoopEvent, off3: PollingLoopEvent)
    requires on0.frameType == On && on2.frameType == On
    requires off1.frameType == Off && off3.frameType == Off
    requires a.frameType == A && b.frameType == B && f.frameType == F
    ensures MapPollingEventsToLoopActivity([on0, a, b, off1, on2, f, off3]) ==
      [Loop(on0.delta, off1.delta, [a, b]), Loop(on2.delta, off3.delta, [f])]
  {
    var es := [on0, a, b, off1, on2, f, off3];
    assert es[..6] == [on0, a, b, off1, on2, f];
    assert es[..6][..5] == [on0, a, b, off1, on2];
    assert es[..6][..5][..4] == [on0, a, b, off1];
    assert es[..6][..5][..4][..3] == [on0, a, b];
    assert es[..6][..5][..4][..3][..2] == [on0, a];
    assert es[..6][..5][..4][..3][..2][..1] == [on0];
    assert Walked([on0]) == Walker([], on0.delta, [], 1);
    assert Walked([on0, a]) == Walker([], on0.delta, [a], 2);
    assert Walked([on0, a, b]) == Walker([], on0.delta, [a, b], 3);
    var l1 := Loop(on0.delta, off1.delta, [a, b]);
    assert Walked([on0, a, b, off1]) == Walker([l1], -1, [], 0);
    assert Walked([on0, a, b, off1, on2]) == Walker([l1], on2.delta, [], 1);
    assert Walked([on0, a, b, off1, on2, f]) == Walker([l1], on2.delta, [f], 2);
    assert Walked(es) == Walker([l1, Loop(on2.delta, off3.delta, [f])], -1, [], 0);
  }
}
