/** The tap gesture of lib/tap.js over a finite trace of touch events.

    Time is the index into the trace. A stream subscribed while event `i` is
    being dispatched sees the events after `i`. `tapmoves` subscribed at `i`
    sees the single-finger moves up to the first touchend or touchcancel after
    `i`; each touchstart subscribes its own copy of it, so each start has its
    own window. `bound` stands for getBoundingClientRect, read once per start
    from the start's target. */
module Taps {
  import opened TouchEvents
  import opened Delivery

  /** Is `point` strictly inside `bound` on both axes? */
  predicate IsTapIntention(point: Point, bound: Rect)
    ensures IsTapIntention(point, bound) ==> bound.left < bound.right && bound.top < bound.bottom
    ensures point.pageX == bound.left || point.pageX == bound.right
            || point.pageY == bound.top || point.pageY == bound.bottom
            ==> !IsTapIntention(point, bound)
  {
    point.pageX > bound.left &&
    point.pageX < bound.right &&
    point.pageY > bound.top &&
    point.pageY < bound.bottom
  }

  /** Does the event carry a touch list with exactly one contact? */
  predicate IsSingleFinger(touchmove: Event)
    ensures IsSingleFinger(touchmove) ==>
              HasFirstTouch(touchmove) && touchmove.touches.value == [FirstTouch(touchmove)]
  {
    touchmove.touches.Some? && |touchmove.touches.value| == 1
  }

  function GetTarget(event: Event): (r: Element)
    ensures r == event.target
  {
    event.target
  }

  /** A move that passes the `filter(isSingleFinger)` of `tapmoves`. */
  predicate IsTapMove(e: Event)
    ensures IsTapMove(e) ==> e.kind == Move && HasFirstTouch(e) && e.touches.value == [FirstTouch(e)]
  {
    e.kind == Move && IsSingleFinger(e)
  }

  predicate Increasing(w: seq<nat>) {
    forall k, l :: 0 <= k < l < |w| ==> w[k] < w[l]
  }

  /** The instant at which a stream subscribed at `i` and cut by
      `takeUntil(touchends).takeUntil(touchcancels)` completes: the first
      touchend or touchcancel after `i`, or `|t|` if the trace has none. */
  function CloseAt(t: seq<Event>, i: nat): (c: nat)
    requires i < |t|
    ensures i < c <= |t|
    ensures c < |t| ==> IsTerminal(t[c])
    ensures forall j :: i < j < c ==> !IsTerminal(t[j])
    decreases |t| - i
  {
    if i + 1 == |t| then |t|
    else if IsTerminal(t[i + 1]) then i + 1
    else CloseAt(t, i + 1)
  }

  /** Indices in [lo, hi) of single-finger moves, in trace order. */
  function TapMovesIn(t: seq<Event>, lo: nat, hi: nat): (w: seq<nat>)
    requires lo <= hi <= |t|
    ensures Increasing(w)
    ensures forall j :: j in w <==> lo <= j < hi && IsTapMove(t[j])
    decreases hi - lo
  {
    if lo == hi then []
    else
      var w := TapMovesIn(t, lo, hi - 1);
      assert forall k :: 0 <= k < |w| ==> w[k] < hi - 1 by {
        forall k | 0 <= k < |w| ensures w[k] < hi - 1 { assert w[k] in w; }
      }
      w + (if IsTapMove(t[hi - 1]) then [hi - 1] else [])
  }

  /** `tapmoves` as subscribed while event `i` is dispatched. */
  function TapMoves(t: seq<Event>, i: nat): (w: seq<nat>)
    requires i < |t|
    ensures Increasing(w)
    ensures forall j :: j in w <==> i < j < CloseAt(t, i) && IsTapMove(t[j])
  {
    TapMovesIn(t, i + 1, CloseAt(t, i))
  }

  /** The event's first touch lies inside `b`: `isTapIntention(e.touches[0], b)`. */
  predicate FirstTouchInside(e: Event, b: Rect) {
    HasFirstTouch(e) && IsTapIntention(FirstTouch(e), b)
  }

  /** The entries of `w` whose event's first touch is outside `b`, in the order of `w`. */
  function OutsideOf(t: seq<Event>, b: Rect, w: seq<nat>): (c: seq<nat>)
    requires forall k :: 0 <= k < |w| ==> w[k] < |t|
    ensures forall j :: j in c <==> j in w && j < |t| && !FirstTouchInside(t[j], b)
    ensures Increasing(w) ==> Increasing(c)
  {
    if w == [] then []
    else
      var rest := OutsideOf(t, b, w[1..]);
      assert forall j :: j in w <==> j == w[0] || j in w[1..];
      assert Increasing(w) ==> forall k :: 0 <= k < |rest| ==> w[0] < rest[k] by {
        if Increasing(w) {
          forall k | 0 <= k < |rest| ensures w[0] < rest[k] {
            assert rest[k] in rest;
            var m :| 0 <= m < |w[1..]| && w[1..][m] == rest[k];
            assert w[0] < w[m + 1];
          }
        }
      }
      (if !FirstTouchInside(t[w[0]], b) then [w[0]] else []) + rest
  }

  /** The inner stream of `tapcancels` for the touchstart at `i`. */
  function CancelMoves(t: seq<Event>, bound: Element -> Rect, i: nat): (c: seq<nat>)
    requires i < |t| && t[i].kind == Start
    ensures Increasing(c)
    ensures forall j :: j in c <==>
              i < j < CloseAt(t, i) && IsTapMove(t[j]) && !FirstTouchInside(t[j], bound(t[i].target))
  {
    var w := TapMoves(t, i);
    assert forall k :: 0 <= k < |w| ==> w[k] < |t| by {
      forall k | 0 <= k < |w| ensures w[k] < |t| { assert w[k] in w; }
    }
    OutsideOf(t, bound(t[i].target), w)
  }

  /** `tapmoves.lastOrDefault(null, touchstart)` for the touchstart at `i`. */
  function PedCandidate(t: seq<Event>, i: nat): (e: Event)
    requires i < |t|
    ensures e == t[i] || IsTapMove(e)
  {
    var w := TapMoves(t, i);
    if w == [] then t[i] else assert w[|w| - 1] in w; t[w[|w| - 1]]
  }

  /** `takeUntil(tapcancels)` of the start at `i`: subscribed during the
      dispatch of that start, it sees only later starts, and fires when one
      of them, opened inside this window, cancels. */
  predicate LaterStartCancels(t: seq<Event>, bound: Element -> Rect, i: nat)
    requires i < |t|
  {
    exists k :: i < k < CloseAt(t, i) && t[k].kind == Start && CancelMoves(t, bound, k) != []
  }

  /** The inner stream of `taps` for the touchstart at `i`, delivered when
      its window closes (the stated assumption about the close instant). */
  function PedEvent(t: seq<Event>, bound: Element -> Rect, i: nat): (r: Option<Event>)
    requires i < |t| && t[i].kind == Start
    ensures r.Some? ==> CloseAt(t, i) < |t| && (r.value == t[i] || IsTapMove(r.value))
    ensures r.Some? ==> r.value == PedCandidate(t, i) && FirstTouchInside(r.value, bound(t[i].target))
  {
    var e := PedCandidate(t, i);
    if CloseAt(t, i) < |t| && FirstTouchInside(e, bound(t[i].target)) && !LaterStartCancels(t, bound, i)
    then Some(e)
    else None
  }

  /** One value on an output stream, with the inner stream and instant that produced it. */
  datatype Emission = Emission(slot: Slot, value: Element)

  predicate CancelFires(t: seq<Event>, bound: Element -> Rect, sl: Slot) {
    sl.start < |t| && t[sl.start].kind == Start && sl.at in CancelMoves(t, bound, sl.start)
  }

  predicate PedFires(t: seq<Event>, bound: Element -> Rect, sl: Slot) {
    sl.start < |t| && t[sl.start].kind == Start
    && sl.at == CloseAt(t, sl.start) && PedEvent(t, bound, sl.start).Some?
  }

  /** Which slots the inner streams of `tapcancels` fire at. */
  function CancelTest(t: seq<Event>, bound: Element -> Rect): Slot -> bool {
    sl => CancelFires(t, bound, sl)
  }

  /** Which slots the inner streams of `taps` fire at. */
  function PedTest(t: seq<Event>, bound: Element -> Rect): Slot -> bool {
    sl => PedFires(t, bound, sl)
  }

  lemma CancelFiresBounds(t: seq<Event>, bound: Element -> Rect, sl: Slot)
    requires CancelFires(t, bound, sl)
    ensures sl.start < sl.at < |t|
  {
  }

  lemma PedFiresBounds(t: seq<Event>, bound: Element -> Rect, sl: Slot)
    requires PedFires(t, bound, sl)
    ensures sl.start < sl.at < |t|
  {
  }

  /** Each delivered slot tagged with the target of the move dispatched at its instant. */
  function MoveTargets(t: seq<Event>, slots: seq<Slot>): (s: seq<Emission>)
    requires forall k :: 0 <= k < |slots| ==> slots[k].at < |t|
    ensures |s| == |slots|
    ensures forall k :: 0 <= k < |s| ==> s[k] == Emission(slots[k], t[slots[k].at].target)
  {
    seq(|slots|, k requires 0 <= k < |slots| => Emission(slots[k], GetTarget(t[slots[k].at])))
  }

  /** `cancel: tapcancels.map(getTarget)`: the inner streams of all starts, merged. */
  function Cancels(t: seq<Event>, bound: Element -> Rect): seq<Emission> {
    MoveTargets(t, Schedule(|t|, CancelTest(t, bound)))
  }

  /** Each slot tagged with the target of its start's candidate event. */
  function CandidateTargets(t: seq<Event>, slots: seq<Slot>): (s: seq<Emission>)
    requires forall k :: 0 <= k < |slots| ==> slots[k].start < |t|
    ensures |s| == |slots|
    ensures forall k :: 0 <= k < |s| ==> s[k] == Emission(slots[k], PedCandidate(t, slots[k].start).target)
  {
    seq(|slots|, k requires 0 <= k < |slots| => Emission(slots[k], GetTarget(PedCandidate(t, slots[k].start))))
  }

  /** `ped: taps.map(getTarget)`: the inner streams of all starts, merged. */
  function Peds(t: seq<Event>, bound: Element -> Rect): seq<Emission> {
    CandidateTargets(t, Schedule(|t|, PedTest(t, bound)))
  }

  /** Every cancel comes from a start's inner stream, at the instant of one
      of its outside moves, and carries that move's target. */
  lemma CancelsSound(t: seq<Event>, bound: Element -> Rect)
    ensures var s := Cancels(t, bound);
            forall k :: 0 <= k < |s| ==>
              s[k].slot.at < |t| && CancelFires(t, bound, s[k].slot) && s[k].value == t[s[k].slot.at].target
  {
    var slots := Schedule(|t|, CancelTest(t, bound));
    assert forall k :: 0 <= k < |slots| ==> Cancels(t, bound)[k].slot == slots[k];
  }

  /** Every outside move of every start's window is delivered as a cancel. */
  lemma CancelsComplete(t: seq<Event>, bound: Element -> Rect, sl: Slot)
    requires CancelFires(t, bound, sl)
    ensures exists k :: 0 <= k < |Cancels(t, bound)| && Cancels(t, bound)[k].slot == sl
  {
    var slots := Schedule(|t|, CancelTest(t, bound));
    CancelFiresBounds(t, bound, sl);
    assert sl in slots;
    var k :| 0 <= k < |slots| && slots[k] == sl;
    assert Cancels(t, bound)[k].slot == sl;
  }

  /** Cancels are delivered in time order, and at one instant in the order
      the starts subscribed; so no (start, move) pair is delivered twice. */
  lemma CancelsInDeliveryOrder(t: seq<Event>, bound: Element -> Rect)
    ensures var s := Cancels(t, bound);
            forall k, l :: 0 <= k < l < |s| ==> Precedes(s[k].slot, s[l].slot)
  {
    var slots := Schedule(|t|, CancelTest(t, bound));
    assert forall k :: 0 <= k < |slots| ==> Cancels(t, bound)[k].slot == slots[k];
  }

  lemma CancelOrderIsIndexOrder(t: seq<Event>, bound: Element -> Rect, k: nat, l: nat)
    requires k < |Cancels(t, bound)| && l < |Cancels(t, bound)|
    requires Precedes(Cancels(t, bound)[k].slot, Cancels(t, bound)[l].slot)
    ensures k < l
  {
    var slots := Schedule(|t|, CancelTest(t, bound));
    assert Cancels(t, bound)[k].slot == slots[k] && Cancels(t, bound)[l].slot == slots[l];
    DeliveryOrderIsIndexOrder(slots, k, l);
  }

  /** Every ped is delivered when its start's window closes, and carries the
      target of that start's candidate event. */
  lemma PedsSound(t: seq<Event>, bound: Element -> Rect)
    ensures var s := Peds(t, bound);
            forall k :: 0 <= k < |s| ==>
              PedFires(t, bound, s[k].slot) && s[k].slot.start < |t|
              && PedEvent(t, bound, s[k].slot.start) == Some(PedCandidate(t, s[k].slot.start))
              && s[k].value == PedCandidate(t, s[k].slot.start).target
  {
    var slots := Schedule(|t|, PedTest(t, bound));
    assert forall k :: 0 <= k < |slots| ==> Peds(t, bound)[k].slot == slots[k];
  }

  /** Every start whose inner stream yields a ped is delivered. */
  lemma PedsComplete(t: seq<Event>, bound: Element -> Rect, sl: Slot)
    requires PedFires(t, bound, sl)
    ensures exists k :: 0 <= k < |Peds(t, bound)| && Peds(t, bound)[k].slot == sl
  {
    var slots := Schedule(|t|, PedTest(t, bound));
    PedFiresBounds(t, bound, sl);
    assert sl in slots;
    var k :| 0 <= k < |slots| && slots[k] == sl;
    assert Peds(t, bound)[k].slot == sl;
  }

  lemma PedsInDeliveryOrder(t: seq<Event>, bound: Element -> Rect)
    ensures var s := Peds(t, bound);
            forall k, l :: 0 <= k < l < |s| ==> Precedes(s[k].slot, s[l].slot)
  {
    var slots := Schedule(|t|, PedTest(t, bound));
    assert forall k :: 0 <= k < |slots| ==> Peds(t, bound)[k].slot == slots[k];
  }

  function Targets(s: seq<Event>): (r: seq<Element>)
    ensures |r| == |s| && forall k :: 0 <= k < |s| ==> r[k] == s[k].target
  {
    seq(|s|, k requires 0 <= k < |s| => GetTarget(s[k]))
  }

  /** `ping: touchstarts.map(getTarget)`. */
  function Pings(t: seq<Event>): seq<Element> {
    Targets(KindStream(t, Start))
  }
}
