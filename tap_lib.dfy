/** The predicate library of lib/tap-lib.js: the boundary test, the
    single-finger test, the target accessor and the object that exports them
    together with the four raw touch streams. */
module TapLib {
  import opened TouchEvents

  /** Is `point` strictly inside `bound` on both axes? */
  predicate IsTapIntention(point: Point, bound: Rect)
    ensures IsTapIntention(point, bound) ==> bound.left < bound.right && bound.top < bound.bottom
    ensures point.pageX == bound.left || point.pageX == bound.right
            || point.pageY == bound.top || point.pageY == bound.bottom
            ==> !IsTapIntention(point, bound)
  {
    point.pageX > bound.left &&
    point.pageX < bound.right &&
    point.pageY > bound.top &&
    point.pageY < bound.bottom
  }

  /** Does the event carry a touch list with exactly one contact? */
  predicate IsSingleFinger(touchmove: Event)
    ensures IsSingleFinger(touchmove) ==>
              HasFirstTouch(touchmove) && touchmove.touches.value == [FirstTouch(touchmove)]
  {
    touchmove.touches.Some? && |touchmove.touches.value| == 1
  }

  function GetTarget(event: Event): (r: Element)
    ensures r == event.target
  {
    event.target
  }

  /** The `touch` member of the exported object. */
  datatype TouchStreams = TouchStreams(starts: seq<Event>, moves: seq<Event>,
                                       ends: seq<Event>, cancels: seq<Event>)

  /** The exported object. */
  datatype Library = Library(touch: TouchStreams,
                             isSingleFinger: Event -> bool,
                             isTapIntention: (Point, Rect) -> bool,
                             getTarget: Event -> Element)

  /** What the module returns, with the raw streams observed over trace `t`. */
  function Exports(t: seq<Event>): (lib: Library)
    ensures forall e :: lib.isSingleFinger(e) == IsSingleFinger(e)
    ensures forall p, b :: lib.isTapIntention(p, b) == IsTapIntention(p, b)
    ensures forall e :: lib.getTarget(e) == e.target
    ensures lib.touch == TouchStreams(KindStream(t, Start), KindStream(t, Move),
                                      KindStream(t, End), KindStream(t, Cancel))
    ensures forall j :: 0 <= j < |lib.touch.starts| ==> lib.touch.starts[j].kind == Start
    ensures forall j :: 0 <= j < |lib.touch.moves| ==> lib.touch.moves[j].kind == Move
    ensures forall j :: 0 <= j < |lib.touch.ends| ==> lib.touch.ends[j].kind == End
    ensures forall j :: 0 <= j < |lib.touch.cancels| ==> lib.touch.cancels[j].kind == Cancel
  {
    Library(TouchStreams(KindStream(t, Start), KindStream(t, Move),
                         KindStream(t, End), KindStream(t, Cancel)),
            e => IsSingleFinger(e),
            (p, b) => IsTapIntention(p, b),
            e => GetTarget(e))
  }

  /** The exported touch streams together carry every event of the trace once. */
  lemma ExportedStreamsPartition(t: seq<Event>)
    ensures var s := Exports(t).touch;
            |s.starts| + |s.moves| + |s.ends| + |s.cancels| == |t|
  {
    KindStreamsPartition(t);
  }

  /** Failing either axis alone rejects the point. */
  lemma EitherAxisRejects(point: Point, bound: Rect)
    ensures !(bound.left < point.pageX < bound.right) ==> !IsTapIntention(point, bound)
    ensures !(bound.top < point.pageY < bound.bottom) ==> !IsTapIntention(point, bound)
    ensures (bound.left < point.pageX < bound.right) && (bound.top < point.pageY < bound.bottom)
            ==> IsTapIntention(point, bound)
  {
  }

  /** An empty or inverted boundary contains no point. */
  lemma DegenerateBoundRejectsAll(bound: Rect)
    requires bound.left >= bound.right || bound.top >= bound.bottom
    ensures forall p :: !IsTapIntention(p, bound)
  {
  }

  /** A missing touch list, no contact, or two or more contacts are all rejected. */
  lemma NotOneContactRejected(e: Event)
    requires e.touches.None? || |e.touches.value| != 1
    ensures !IsSingleFinger(e)
  {
  }

  /** Any event with exactly one contact is accepted, whatever its kind and target. */
  lemma OneContactAccepted(e: Event, p: Point)
    ensures IsSingleFinger(e.(touches := Some([p])))
  {
  }
}
