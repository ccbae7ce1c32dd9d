/** The touch notifications both modules consume, and the four raw streams the
    document body delivers for a finite trace of them. */
module TouchEvents {

  datatype Option<+T> = None | Some(value: T)

  /** The four DOM event names listened to: touchstart, touchmove, touchend, touchcancel. */
  datatype Kind = Start | Move | End | Cancel

  /** One contact point, in page coordinates (pageX, pageY). */
  datatype Point = Point(pageX: real, pageY: real)

  /** A boundary as getBoundingClientRect reports it. */
  datatype Rect = Rect(top: real, right: real, bottom: real, left: real)

  /** An opaque element handle. */
  datatype Element = Element(id: nat)

  /** A touch event: its kind, its target and its `touches` list, which may be absent. */
  datatype Event = Event(kind: Kind, target: Element, touches: Option<seq<Point>>)

  predicate HasFirstTouch(e: Event) {
    e.touches.Some? && |e.touches.value| > 0
  }

  /** `e.touches[0]` */
  function FirstTouch(e: Event): Point
    requires HasFirstTouch(e)
  {
    e.touches.value[0]
  }

  /** A touchend or a touchcancel: the events that end every open `takeUntil`. */
  predicate IsTerminal(e: Event) {
    e.kind == End || e.kind == Cancel
  }

  /** The events of one kind, in trace order: what a listener for that event
      name on the document body receives. */
  function KindStream(t: seq<Event>, k: Kind): (s: seq<Event>)
    ensures |s| <= |t|
    ensures forall j :: 0 <= j < |s| ==> s[j].kind == k && s[j] in t
    ensures forall j :: 0 <= j < |t| && t[j].kind == k ==> t[j] in s
  {
    if t == [] then []
    else (if t[0].kind == k then [t[0]] else []) + KindStream(t[1..], k)
  }

  /** Listening is compositional: a later stretch of the trace only appends. */
  lemma {:induction false} KindStreamAppend(t: seq<Event>, u: seq<Event>, k: Kind)
    ensures KindStream(t + u, k) == KindStream(t, k) + KindStream(u, k)
  {
    if t == [] {
      assert t + u == u;
    } else {
      assert (t + u)[0] == t[0];
      assert (t + u)[1..] == t[1..] + u;
      KindStreamAppend(t[1..], u, k);
    }
  }

  /** Every event reaches exactly one of the four streams. */
  lemma {:induction false} KindStreamsPartition(t: seq<Event>)
    ensures |KindStream(t, Start)| + |KindStream(t, Move)| + |KindStream(t, End)|
            + |KindStream(t, Cancel)| == |t|
  {
    if t != [] {
      KindStreamsPartition(t[1..]);
    }
  }
}
