/** What the composition of lib/tap.js guarantees, including the cases where
    it does not do what the requirements in its header comment ask for. */
module TapsProperties {
  import opened TouchEvents
  import opened Delivery
  import opened Taps
  import TapLib

  /** lib/tap.js and lib/tap-lib.js define the same three helpers. */
  lemma HelpersAgree()
    ensures forall p, b :: Taps.IsTapIntention(p, b) == TapLib.IsTapIntention(p, b)
    ensures forall e :: Taps.IsSingleFinger(e) == TapLib.IsSingleFinger(e)
    ensures forall e :: Taps.GetTarget(e) == TapLib.GetTarget(e)
  {
  }

  // ---------------------------------------------------------------- windows

  /** A start opened inside another start's window shares its close and sees
      a part of its moves. */
  lemma WindowsNest(t: seq<Event>, i: nat, k: nat)
    requires i < |t| && i < k < CloseAt(t, i)
    ensures CloseAt(t, k) == CloseAt(t, i)
    ensures forall j :: j in TapMoves(t, k) ==> j in TapMoves(t, i)
  {
  }

  /** `lastOrDefault`: the candidate is the start itself when its window has
      no single-finger move, otherwise the latest such move of the window. */
  lemma CandidateIsLastMove(t: seq<Event>, i: nat)
    requires i < |t|
    ensures TapMoves(t, i) == [] ==> PedCandidate(t, i) == t[i]
    ensures TapMoves(t, i) != [] ==>
              exists j :: j in TapMoves(t, i) && PedCandidate(t, i) == t[j]
                          && forall j' :: i < j' < CloseAt(t, i) && IsTapMove(t[j']) ==> j' <= j
  {
    var w := TapMoves(t, i);
    if w != [] {
      var j := w[|w| - 1];
      assert j in w;
      forall j' | i < j' < CloseAt(t, i) && IsTapMove(t[j']) ensures j' <= j {
        assert j' in w;
        var m :| 0 <= m < |w| && w[m] == j';
        assert m == |w| - 1 || w[m] < w[|w| - 1];
      }
    }
  }

  // ---------------------------------------------------------------- cancel

  /** Each single-finger move of a start's window whose first touch is
      outside that start's boundary is delivered as a cancel of that start. */
  lemma OutsideMoveCancels(t: seq<Event>, bound: Element -> Rect, i: nat, j: nat)
    requires i < |t| && t[i].kind == Start && i < j < CloseAt(t, i)
    requires IsTapMove(t[j]) && !FirstTouchInside(t[j], bound(t[i].target))
    ensures exists k :: 0 <= k < |Cancels(t, bound)| && Cancels(t, bound)[k].slot == Slot(j, i)
  {
    assert j in CancelMoves(t, bound, i);
    CancelsComplete(t, bound, Slot(j, i));
  }

  /** Cancels are not capped at one per attempt: two outside moves in one
      window give two cancels for that start, delivered in move order. */
  lemma EveryOutsideMoveCancels(t: seq<Event>, bound: Element -> Rect, i: nat, j1: nat, j2: nat)
    requires i < |t| && t[i].kind == Start
    requires i < j1 < j2 < CloseAt(t, i)
    requires IsTapMove(t[j1]) && !FirstTouchInside(t[j1], bound(t[i].target))
    requires IsTapMove(t[j2]) && !FirstTouchInside(t[j2], bound(t[i].target))
    ensures exists k1, k2 :: 0 <= k1 < k2 < |Cancels(t, bound)|
                             && Cancels(t, bound)[k1].slot == Slot(j1, i)
                             && Cancels(t, bound)[k2].slot == Slot(j2, i)
  {
    OutsideMoveCancels(t, bound, i, j1);
    OutsideMoveCancels(t, bound, i, j2);
    var s := Cancels(t, bound);
    var k1 :| 0 <= k1 < |s| && s[k1].slot == Slot(j1, i);
    var k2 :| 0 <= k2 < |s| && s[k2].slot == Slot(j2, i);
    CancelOrderIsIndexOrder(t, bound, k1, k2);
  }

  /** The two streams have the same shape: same kinds, same starts, the same
      single-finger moves with the same first touch. Targets of moves and
      the contacts of other moves may differ. */
  predicate SameRole(e: Event, e': Event) {
    && e.kind == e'.kind
    && IsTapMove(e) == IsTapMove(e')
    && (IsTapMove(e) ==> FirstTouch(e) == FirstTouch(e'))
    && (e.kind == Start ==> e == e')
  }

  predicate SameShape(t: seq<Event>, t': seq<Event>) {
    |t| == |t'| && forall k :: 0 <= k < |t| ==> SameRole(t[k], t'[k])
  }

  lemma {:induction false} CloseAtSameShape(t: seq<Event>, t': seq<Event>, i: nat)
    requires SameShape(t, t') && i < |t|
    ensures CloseAt(t, i) == CloseAt(t', i)
    decreases |t| - i
  {
    if i + 1 < |t| {
      assert SameRole(t[i + 1], t'[i + 1]);
      CloseAtSameShape(t, t', i + 1);
    }
  }

  lemma {:induction false} TapMovesInSameShape(t: seq<Event>, t': seq<Event>, lo: nat, hi: nat)
    requires SameShape(t, t') && lo <= hi <= |t|
    ensures TapMovesIn(t, lo, hi) == TapMovesIn(t', lo, hi)
    decreases hi - lo
  {
    if lo < hi {
      var last := if IsTapMove(t[hi - 1]) then [hi - 1] else [];
      assert SameRole(t[hi - 1], t'[hi - 1]);
      assert last == if IsTapMove(t'[hi - 1]) then [hi - 1] else [];
      TapMovesInSameShape(t, t', lo, hi - 1);
      assert TapMovesIn(t, lo, hi) == TapMovesIn(t, lo, hi - 1) + last;
      assert TapMovesIn(t', lo, hi) == TapMovesIn(t', lo, hi - 1) + last;
    }
  }

  lemma {:induction false} OutsideOfSameShape(t: seq<Event>, t': seq<Event>, b: Rect, w: seq<nat>)
    requires SameShape(t, t')
    requires forall k :: 0 <= k < |w| ==> w[k] < |t| && IsTapMove(t[w[k]])
    ensures OutsideOf(t, b, w) == OutsideOf(t', b, w)
  {
    if w != [] {
      assert SameRole(t[w[0]], t'[w[0]]);
      OutsideOfSameShape(t, t', b, w[1..]);
    }
  }

  lemma TapMovesSameShape(t: seq<Event>, t': seq<Event>, i: nat)
    requires SameShape(t, t') && i < |t|
    ensures CloseAt(t, i) == CloseAt(t', i)
    ensures TapMoves(t, i) == TapMoves(t', i)
  {
    CloseAtSameShape(t, t', i);
    TapMovesInSameShape(t, t', i + 1, CloseAt(t, i));
  }

  /** Everything a start's inner streams compute is fixed by the shape. */
  lemma InnerStreamsSameShape(t: seq<Event>, t': seq<Event>, bound: Element -> Rect, i: nat)
    requires SameShape(t, t') && i < |t| && t[i].kind == Start
    ensures CloseAt(t, i) == CloseAt(t', i)
    ensures TapMoves(t, i) == TapMoves(t', i)
    ensures CancelMoves(t, bound, i) == CancelMoves(t', bound, i)
  {
    assert SameRole(t[i], t'[i]);
    TapMovesSameShape(t, t', i);
    var w := TapMoves(t, i);
    assert forall k :: 0 <= k < |w| ==> w[k] < |t| && IsTapMove(t[w[k]]) by {
      forall k | 0 <= k < |w| ensures w[k] < |t| && IsTapMove(t[w[k]]) { assert w[k] in w; }
    }
    OutsideOfSameShape(t, t', bound(t[i].target), w);
  }

  lemma CandidateSameShape(t: seq<Event>, t': seq<Event>, i: nat, b: Rect)
    requires SameShape(t, t') && i < |t| && t[i].kind == Start
    ensures FirstTouchInside(PedCandidate(t, i), b) == FirstTouchInside(PedCandidate(t', i), b)
  {
    CloseAtSameShape(t, t', i);
    TapMovesInSameShape(t, t', i + 1, CloseAt(t, i));
    var w := TapMoves(t, i);
    if w == [] {
      assert SameRole(t[i], t'[i]);
    } else {
      var j := w[|w| - 1];
      assert j in w;
      assert SameRole(t[j], t'[j]);
      assert PedCandidate(t, i) == t[j] && PedCandidate(t', i) == t'[j];
    }
  }

  lemma PedEventSameShape(t: seq<Event>, t': seq<Event>, bound: Element -> Rect, i: nat)
    requires SameShape(t, t') && i < |t| && t[i].kind == Start
    ensures PedEvent(t, bound, i).Some? == PedEvent(t', bound, i).Some?
  {
    InnerStreamsSameShape(t, t', bound, i);
    assert SameRole(t[i], t'[i]);
    CandidateSameShape(t, t', i, bound(t[i].target));
    forall k | i < k < CloseAt(t, i) && t[k].kind == Start
      ensures t'[k].kind == Start && CancelMoves(t, bound, k) == CancelMoves(t', bound, k)
    {
      assert SameRole(t[k], t'[k]);
      InnerStreamsSameShape(t, t', bound, k);
    }
    assert LaterStartCancels(t, bound, i) == LaterStartCancels(t', bound, i) by {
      if LaterStartCancels(t', bound, i) {
        var k :| i < k < CloseAt(t', i) && t'[k].kind == Start && CancelMoves(t', bound, k) != [];
        assert SameRole(t[k], t'[k]);
      }
    }
  }

  /** Traces of the same shape fire the same slots on both output streams. */
  lemma {:induction false} SlotsSameShape(t: seq<Event>, t': seq<Event>, bound: Element -> Rect)
    requires SameShape(t, t')
    ensures Schedule(|t|, CancelTest(t, bound)) == Schedule(|t'|, CancelTest(t', bound))
    ensures Schedule(|t|, PedTest(t, bound)) == Schedule(|t'|, PedTest(t', bound))
  {
    forall sl: Slot
      ensures CancelTest(t, bound)(sl) == CancelTest(t', bound)(sl)
      ensures PedTest(t, bound)(sl) == PedTest(t', bound)(sl)
    {
      if sl.start < |t| {
        assert SameRole(t[sl.start], t'[sl.start]);
        if t[sl.start].kind == Start {
          InnerStreamsSameShape(t, t', bound, sl.start);
          PedEventSameShape(t, t', bound, sl.start);
        }
      }
    }
    ScheduleCongruent(|t|, CancelTest(t, bound), CancelTest(t', bound));
    ScheduleCongruent(|t|, PedTest(t, bound), PedTest(t', bound));
  }

  /** The move's target is never compared with the start's target: moving a
      move to another element changes no cancel and no ped slot. */
  lemma TargetNotCompared(t: seq<Event>, bound: Element -> Rect, j: nat, other: Element)
    requires j < |t| && t[j].kind == Move
    ensures var t' := t[j := t[j].(target := other)];
            && (forall i :: 0 <= i < |t| && t[i].kind == Start ==>
                  CancelMoves(t', bound, i) == CancelMoves(t, bound, i))
            && Schedule(|t'|, CancelTest(t', bound)) == Schedule(|t|, CancelTest(t, bound))
            && Schedule(|t'|, PedTest(t', bound)) == Schedule(|t|, PedTest(t, bound))
  {
    var t' := t[j := t[j].(target := other)];
    assert SameShape(t, t') by {
      forall k | 0 <= k < |t| ensures SameRole(t[k], t'[k]) {
        if k == j {
          assert IsSingleFinger(t[k]) == IsSingleFinger(t'[k]);
        }
      }
    }
    forall i | 0 <= i < |t| && t[i].kind == Start ensures CancelMoves(t', bound, i) == CancelMoves(t, bound, i) {
      InnerStreamsSameShape(t, t', bound, i);
    }
    SlotsSameShape(t, t', bound);
  }

  /** Traces that differ only in moves that are not single-finger. */
  predicate DifferInOtherFingers(t: seq<Event>, t': seq<Event>) {
    |t| == |t'| &&
    forall k :: 0 <= k < |t| && t[k] != t'[k] ==>
      t[k].kind == Move && t'[k].kind == Move && !IsSingleFinger(t[k]) && !IsSingleFinger(t'[k])
  }

  lemma OtherFingersSameShape(t: seq<Event>, t': seq<Event>)
    requires DifferInOtherFingers(t, t')
    ensures SameShape(t, t')
  {
    forall k | 0 <= k < |t| ensures SameRole(t[k], t'[k]) {
      if t[k] != t'[k] {
        assert !IsTapMove(t[k]) && !IsTapMove(t'[k]);
      }
    }
  }

  lemma OtherFingersCancels(t: seq<Event>, t': seq<Event>, bound: Element -> Rect)
    requires DifferInOtherFingers(t, t')
    ensures Cancels(t', bound) == Cancels(t, bound)
  {
    OtherFingersSameShape(t, t');
    SlotsSameShape(t, t', bound);
    var cs := Schedule(|t|, CancelTest(t, bound));
    forall k | 0 <= k < |cs| ensures t[cs[k].at] == t'[cs[k].at] {
      assert CancelTest(t, bound)(cs[k]);
      assert IsTapMove(t[cs[k].at]);
    }
  }

  lemma OtherFingersPeds(t: seq<Event>, t': seq<Event>, bound: Element -> Rect)
    requires DifferInOtherFingers(t, t')
    ensures Peds(t', bound) == Peds(t, bound)
  {
    OtherFingersSameShape(t, t');
    SlotsSameShape(t, t', bound);
    var ps := Schedule(|t|, PedTest(t, bound));
    forall k | 0 <= k < |ps| ensures PedCandidate(t, ps[k].start) == PedCandidate(t', ps[k].start) {
      var i := ps[k].start;
      assert PedTest(t, bound)(ps[k]);
      InnerStreamsSameShape(t, t', bound, i);
      var w := TapMoves(t, i);
      if w != [] {
        assert w[|w| - 1] in w;
        assert IsTapMove(t[w[|w| - 1]]);
      }
    }
  }

  /** Only one finger is followed: a move that is not single-finger can be
      replaced by any other such move (other contacts, other target) and
      neither `cancel` nor `ped` changes. */
  lemma OtherFingersIgnored(t: seq<Event>, t': seq<Event>, bound: Element -> Rect)
    requires DifferInOtherFingers(t, t')
    ensures Cancels(t', bound) == Cancels(t, bound)
    ensures Peds(t', bound) == Peds(t, bound)
  {
    OtherFingersCancels(t, t', bound);
    OtherFingersPeds(t, t', bound);
  }

  // ---------------------------------------------------------------- ped

  /** A later start that cancels inside this window silences this start's ped. */
  lemma LaterCancelSilencesPed(t: seq<Event>, bound: Element -> Rect, i: nat, k: nat, j: nat)
    requires i < |t| && t[i].kind == Start
    requires i < k < j < CloseAt(t, i) && t[k].kind == Start
    requires IsTapMove(t[j]) && !FirstTouchInside(t[j], bound(t[k].target))
    ensures PedEvent(t, bound, i) == None
    ensures forall n :: 0 <= n < |Peds(t, bound)| ==> Peds(t, bound)[n].slot.start != i
  {
    WindowsNest(t, i, k);
    assert j in CancelMoves(t, bound, k);
    PedsSound(t, bound);
  }

  /** A start followed at once by touchend or touchcancel: its own touch is
      the candidate, no cancel is produced, and if that touch is inside its
      boundary exactly one ped carrying the start's target is delivered. */
  lemma PureTap(t: seq<Event>, bound: Element -> Rect, i: nat)
    requires i + 1 < |t| && t[i].kind == Start && IsTerminal(t[i + 1])
    ensures CancelMoves(t, bound, i) == []
    ensures forall n :: 0 <= n < |Cancels(t, bound)| ==> Cancels(t, bound)[n].slot.start != i
    ensures FirstTouchInside(t[i], bound(t[i].target)) ==> PedEvent(t, bound, i) == Some(t[i])
    ensures FirstTouchInside(t[i], bound(t[i].target)) ==>
              exists n :: 0 <= n < |Peds(t, bound)| && Peds(t, bound)[n] == Emission(Slot(i + 1, i), t[i].target)
    ensures !FirstTouchInside(t[i], bound(t[i].target)) ==> PedEvent(t, bound, i) == None
    ensures !FirstTouchInside(t[i], bound(t[i].target)) ==>
              forall n :: 0 <= n < |Peds(t, bound)| ==> Peds(t, bound)[n].slot.start != i
  {
    assert CloseAt(t, i) == i + 1;
    assert TapMoves(t, i) == [];
    assert !LaterStartCancels(t, bound, i);
    CancelsSound(t, bound);
    PedsSound(t, bound);
    if FirstTouchInside(t[i], bound(t[i].target)) {
      PedsComplete(t, bound, Slot(i + 1, i));
    }
  }

  /** Some start opened later inside the window of `i` sees, before the
      window closes, a single-finger move outside its own boundary. */
  predicate LaterOutsideMove(t: seq<Event>, bound: Element -> Rect, i: nat)
    requires i < |t|
  {
    exists k, j :: i < k < j < CloseAt(t, i) && t[k].kind == Start
                   && IsTapMove(t[j]) && !FirstTouchInside(t[j], bound(t[k].target))
  }

  /** `takeUntil(tapcancels)` fires inside the window of `i` exactly when a
      later start of that window sees an outside move. */
  lemma LaterStartCancelsIff(t: seq<Event>, bound: Element -> Rect, i: nat)
    requires i < |t|
    ensures LaterStartCancels(t, bound, i) <==> LaterOutsideMove(t, bound, i)
  {
    if LaterStartCancels(t, bound, i) {
      var k :| i < k < CloseAt(t, i) && t[k].kind == Start && CancelMoves(t, bound, k) != [];
      var c := CancelMoves(t, bound, k);
      assert c[0] in c;
      WindowsNest(t, i, k);
    }
    if LaterOutsideMove(t, bound, i) {
      var k, j :| i < k < j < CloseAt(t, i) && t[k].kind == Start
                  && IsTapMove(t[j]) && !FirstTouchInside(t[j], bound(t[k].target));
      WindowsNest(t, i, k);
      assert j in CancelMoves(t, bound, k);
    }
  }

  /** A start's inner stream of `taps` yields a ped exactly when its window
      closes, its candidate is inside its boundary, and no later start of
      the window sees an outside move; the ped is then the candidate. */
  lemma PedEventIff(t: seq<Event>, bound: Element -> Rect, i: nat)
    requires i < |t| && t[i].kind == Start
    ensures PedEvent(t, bound, i).Some? <==>
              CloseAt(t, i) < |t| && FirstTouchInside(PedCandidate(t, i), bound(t[i].target))
              && !LaterOutsideMove(t, bound, i)
    ensures PedEvent(t, bound, i).Some? ==> PedEvent(t, bound, i).value == PedCandidate(t, i)
  {
    LaterStartCancelsIff(t, bound, i);
  }

  /** A start whose window closes with an inside candidate, and in which no
      later start sees an outside move, gets its ped at the close, carrying
      the candidate's target; its own outside moves do not stop it. */
  lemma InsideCandidatePeds(t: seq<Event>, bound: Element -> Rect, i: nat)
    requires i < |t| && t[i].kind == Start && CloseAt(t, i) < |t|
    requires !LaterOutsideMove(t, bound, i)
    requires FirstTouchInside(PedCandidate(t, i), bound(t[i].target))
    ensures exists n :: 0 <= n < |Peds(t, bound)|
                        && Peds(t, bound)[n] == Emission(Slot(CloseAt(t, i), i), PedCandidate(t, i).target)
  {
    PedEventIff(t, bound, i);
    PedsComplete(t, bound, Slot(CloseAt(t, i), i));
    PedsSound(t, bound);
  }

  /** Leaving the boundary and coming back: the start gets a cancel for the
      outside move AND a ped for the final inside move. */
  lemma ExitAndReturn(t: seq<Event>, bound: Element -> Rect, i: nat, j: nat)
    requires i < |t| && t[i].kind == Start && CloseAt(t, i) < |t|
    requires !LaterOutsideMove(t, bound, i)
    requires j in CancelMoves(t, bound, i)
    requires FirstTouchInside(PedCandidate(t, i), bound(t[i].target))
    ensures exists n :: 0 <= n < |Cancels(t, bound)| && Cancels(t, bound)[n].slot == Slot(j, i)
    ensures exists n :: 0 <= n < |Peds(t, bound)| && Peds(t, bound)[n].slot == Slot(CloseAt(t, i), i)
  {
    CancelsComplete(t, bound, Slot(j, i));
    InsideCandidatePeds(t, bound, i);
  }

  /** At most one ped per start, delivered at the close of its window. */
  lemma PedOncePerStart(t: seq<Event>, bound: Element -> Rect)
    ensures var s := Peds(t, bound);
            forall n :: 0 <= n < |s| ==> s[n].slot.start < |t| && s[n].slot.at == CloseAt(t, s[n].slot.start)
    ensures var s := Peds(t, bound);
            forall n, m :: 0 <= n < m < |s| ==> s[n].slot.start != s[m].slot.start
  {
    PedsSound(t, bound);
    PedsInDeliveryOrder(t, bound);
  }

  // ---------------------------------------------------------------- ping

  lemma {:induction false} TargetsAppend(s: seq<Event>, u: seq<Event>)
    ensures Targets(s + u) == Targets(s) + Targets(u)
  {
  }

  /** `ping` is append-only and driven by touchstarts alone: one target per
      touchstart, in order, whatever else happens. */
  lemma PingsAppend(t: seq<Event>, u: seq<Event>)
    ensures Pings(t + u) == Pings(t) + Pings(u)
  {
    KindStreamAppend(t, u, Start);
    TargetsAppend(KindStream(t, Start), KindStream(u, Start));
  }

  lemma PingOfOneEvent(e: Event)
    ensures Pings([e]) == if e.kind == Start then [e.target] else []
  {
    assert [e][1..] == [];
  }

  // ---------------------------------------------------------------- a concrete run

  const Button := Element(1)

  function ButtonBound(e: Element): Rect {
    Rect(0.0, 100.0, 100.0, 0.0)
  }

  function Touch(kind: Kind, x: real, y: real): Event {
    Event(kind, Button, Some([Point(x, y)]))
  }

  /** Start at (50, 50), move out to (150, 50), come back to (50, 50), lift. */
  function OutAndBack(): seq<Event> {
    [Touch(Start, 50.0, 50.0), Touch(Move, 150.0, 50.0), Touch(Move, 50.0, 50.0), Event(End, Button, None)]
  }

  lemma OutAndBackClose()
    ensures CloseAt(OutAndBack(), 0) == 3
  {
    var t := OutAndBack();
    assert IsTerminal(t[3]) && !IsTerminal(t[2]) && !IsTerminal(t[1]);
    assert CloseAt(t, 2) == 3;
    assert CloseAt(t, 1) == 3;
  }

  lemma OutAndBackCandidate()
    ensures PedCandidate(OutAndBack(), 0) == OutAndBack()[2]
  {
    var t := OutAndBack();
    OutAndBackClose();
    assert 2 in TapMoves(t, 0);
    CandidateIsLastMove(t, 0);
  }

  lemma OutAndBackOutside()
    ensures 1 in CancelMoves(OutAndBack(), ButtonBound, 0)
  {
    OutAndBackClose();
  }

  /** On that run the button gets a cancel for the outside move ... */
  lemma OutAndBackCancels()
    ensures exists n :: 0 <= n < |Cancels(OutAndBack(), ButtonBound)|
                        && Cancels(OutAndBack(), ButtonBound)[n] == Emission(Slot(1, 0), Button)
  {
    var t := OutAndBack();
    OutAndBackClose();
    OutsideMoveCancels(t, ButtonBound, 0, 1);
    CancelsSound(t, ButtonBound);
  }

  /** ... and a ped at the touchend. */
  lemma OutAndBackPeds()
    ensures exists n :: 0 <= n < |Peds(OutAndBack(), ButtonBound)|
                        && Peds(OutAndBack(), ButtonBound)[n] == Emission(Slot(3, 0), Button)
  {
    var t := OutAndBack();
    OutAndBackClose();
    OutAndBackCandidate();
    assert t[1].kind != Start && t[2].kind != Start;
    assert FirstTouchInside(t[2], ButtonBound(t[0].target));
    InsideCandidatePeds(t, ButtonBound, 0);
  }

  /** A second finger landing while the first is down: start(50, 50), a
      touchstart with two contacts, a move with two contacts, touchend. */
  function SecondFinger(): seq<Event> {
    var two := Some([Point(50.0, 50.0), Point(150.0, 50.0)]);
    [Touch(Start, 50.0, 50.0), Event(Start, Button, two), Event(Move, Button, two), Event(End, Button, None)]
  }

  /** The second start sees no outside move, so the first start keeps its ped. */
  lemma SecondFingerKeepsPed()
    ensures PedEvent(SecondFinger(), ButtonBound, 0) == Some(SecondFinger()[0])
  {
    var t := SecondFinger();
    assert IsTerminal(t[3]) && !IsTerminal(t[2]) && !IsTerminal(t[1]);
    assert CloseAt(t, 2) == 3 && CloseAt(t, 1) == 3 && CloseAt(t, 0) == 3;
    assert !IsTapMove(t[1]) && !IsTapMove(t[2]);
    assert forall j :: j !in TapMoves(t, 0);
    assert FirstTouchInside(t[0], ButtonBound(t[0].target));
    PedEventIff(t, ButtonBound, 0);
  }
}
