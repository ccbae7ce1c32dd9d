/** Delivery order of a `flatMap` whose inner streams are all driven by the
    same DOM listeners: an inner stream is identified by the index of the
    event that subscribed it (`start`), an emission by the index of the event
    whose dispatch produced it (`at`). Listeners run in registration order,
    so at one instant the inner stream subscribed first emits first. */
module Delivery {

  datatype Slot = Slot(at: nat, start: nat)

  /** `a` is delivered before `b`: earlier instant, or same instant and earlier subscription. */
  predicate Precedes(a: Slot, b: Slot) {
    a.at < b.at || (a.at == b.at && a.start < b.start)
  }

  predicate InDeliveryOrder(s: seq<Slot>) {
    forall k, l :: 0 <= k < l < |s| ==> Precedes(s[k], s[l])
  }

  /** In a sequence in delivery order, delivery order is index order. */
  lemma DeliveryOrderIsIndexOrder(s: seq<Slot>, k: nat, l: nat)
    requires InDeliveryOrder(s) && k < |s| && l < |s|
    requires Precedes(s[k], s[l])
    ensures k < l
  {
  }

  /** The slots at instant `at` whose inner stream (subscribed at `from` .. `at`) fires. */
  function SlotsAt(at: nat, from: nat, fires: Slot -> bool): (s: seq<Slot>)
    requires from <= at + 1
    ensures forall k :: 0 <= k < |s| ==> s[k].at == at && from <= s[k].start <= at && fires(s[k])
    ensures forall k, l :: 0 <= k < l < |s| ==> s[k].start < s[l].start
    ensures forall st :: from <= st <= at && fires(Slot(at, st)) ==> Slot(at, st) in s
    decreases at + 1 - from
  {
    if from == at + 1 then []
    else (if fires(Slot(at, from)) then [Slot(at, from)] else []) + SlotsAt(at, from + 1, fires)
  }

  /** Every firing slot of the first `n` instants, each once, in delivery order. */
  function Schedule(n: nat, fires: Slot -> bool): (s: seq<Slot>)
    ensures forall k :: 0 <= k < |s| ==> s[k].start <= s[k].at < n && fires(s[k])
    ensures InDeliveryOrder(s)
    ensures forall sl: Slot :: sl.start <= sl.at < n && fires(sl) ==> sl in s
  {
    if n == 0 then []
    else
      var before, now := Schedule(n - 1, fires), SlotsAt(n - 1, 0, fires);
      AppendInstant(n - 1, fires, before, now);
      before + now
  }

  /** Appending the slots of instant `at` to a schedule of the earlier instants. */
  lemma AppendInstant(at: nat, fires: Slot -> bool, before: seq<Slot>, now: seq<Slot>)
    requires forall k :: 0 <= k < |before| ==> before[k].start <= before[k].at < at && fires(before[k])
    requires InDeliveryOrder(before)
    requires forall sl: Slot :: sl.start <= sl.at < at && fires(sl) ==> sl in before
    requires forall k :: 0 <= k < |now| ==> now[k].at == at && now[k].start <= at && fires(now[k])
    requires forall k, l :: 0 <= k < l < |now| ==> now[k].start < now[l].start
    requires forall st: nat :: st <= at && fires(Slot(at, st)) ==> Slot(at, st) in now
    ensures var s := before + now;
            && (forall k :: 0 <= k < |s| ==> s[k].start <= s[k].at <= at && fires(s[k]))
            && InDeliveryOrder(s)
            && (forall sl: Slot :: sl.start <= sl.at <= at && fires(sl) ==> sl in s)
  {
    var s := before + now;
    forall k, l | 0 <= k < l < |s| ensures Precedes(s[k], s[l]) {
      if l < |before| {
      } else if k >= |before| {
        assert s[k] == now[k - |before|] && s[l] == now[l - |before|];
      }
    }
    forall sl: Slot | sl.start <= sl.at <= at && fires(sl) ensures sl in s {
      if sl.at == at {
        assert sl == Slot(at, sl.start);
      }
    }
  }

  /** Inner streams that fire alike are delivered alike. */
  lemma {:induction false} SlotsAtCongruent(at: nat, from: nat, f: Slot -> bool, g: Slot -> bool)
    requires from <= at + 1
    requires forall sl :: f(sl) == g(sl)
    ensures SlotsAt(at, from, f) == SlotsAt(at, from, g)
    decreases at + 1 - from
  {
    if from < at + 1 {
      SlotsAtCongruent(at, from + 1, f, g);
    }
  }

  lemma {:induction false} ScheduleCongruent(n: nat, f: Slot -> bool, g: Slot -> bool)
    requires forall sl :: f(sl) == g(sl)
    ensures Schedule(n, f) == Schedule(n, g)
  {
    if n > 0 {
      calc {
        Schedule(n, f);
        Schedule(n - 1, f) + SlotsAt(n - 1, 0, f);
        { ScheduleCongruent(n - 1, f, g); SlotsAtCongruent(n - 1, 0, f, g); }
        Schedule(n - 1, g) + SlotsAt(n - 1, 0, g);
        Schedule(n, g);
      }
    }
  }
}
