/** The infinite-scroll trigger: on every scroll event the directive measures
    how far the bottom of the content is below the bottom of the viewport,
    and emits a load-more request when that distance first drops to the
    threshold or below. A one-bit flag keeps it from emitting again until
    the viewport has left the near-bottom zone. Geometry is in whole pixels. */
module InfiniteScroll {

  /** The threshold used when the host does not bind one. */
  const DefaultThreshold: int := 150

  /** Pixels between the bottom of the viewport and the bottom of the content. */
  function DistanceFromBottom(scrollTop: int, scrollHeight: int, clientHeight: int): (d: int)
    ensures d <= 0 <==> scrollTop + clientHeight >= scrollHeight
    ensures d <= DefaultThreshold <==> scrollTop + clientHeight + DefaultThreshold >= scrollHeight
  {
    scrollHeight - (scrollTop + clientHeight)
  }

  /** The three measurements a scroll event carries. */
  datatype ScrollEvent = ScrollEvent(scrollTop: int, scrollHeight: int, clientHeight: int)

  /** The event finds the viewport in the near-bottom zone. */
  predicate Near(e: ScrollEvent, threshold: int) {
    DistanceFromBottom(e.scrollTop, e.scrollHeight, e.clientHeight) <= threshold
  }

  /** Which events of a sequence emit, given the flag before the first one:
      an event emits exactly when it is near the bottom and the event before
      it was not (for the first event: the flag was clear). */
  function Emissions(triggered: bool, events: seq<ScrollEvent>, threshold: int): (r: seq<bool>)
    ensures |r| == |events|
  {
    seq(|events|, j requires 0 <= j < |events| =>
      Near(events[j], threshold) && (if j == 0 then !triggered else !Near(events[j - 1], threshold)))
  }

  /** Between any two emissions there is an event away from the bottom. */
  ghost predicate Separated(events: seq<ScrollEvent>, emits: seq<bool>, threshold: int)
    requires |emits| == |events|
  {
    forall i, j :: 0 <= i < j < |emits| && emits[i] && emits[j] ==>
      exists k :: i < k < j && !Near(events[k], threshold)
  }

  /** Every emission happens on an event near the bottom, and no two
      emissions happen without the viewport leaving the zone in between. */
  lemma EmissionsSeparated(triggered: bool, events: seq<ScrollEvent>, threshold: int)
    ensures Separated(events, Emissions(triggered, events, threshold), threshold)
    ensures forall j :: 0 <= j < |events| && Emissions(triggered, events, threshold)[j] ==>
      Near(events[j], threshold)
  {
    var emits := Emissions(triggered, events, threshold);
    forall i, j | 0 <= i < j < |emits| && emits[i] && emits[j]
      ensures exists k :: i < k < j && !Near(events[k], threshold)
    {
      assert Near(events[i], threshold) && !Near(events[j - 1], threshold);
    }
  }

  /** While the viewport stays in the zone, only the first event of the stay
      emits. */
  lemma OneEmissionPerStay(triggered: bool, events: seq<ScrollEvent>, threshold: int, lo: int, hi: int)
    requires 0 <= lo <= hi < |events|
    requires forall k :: lo <= k <= hi ==> Near(events[k], threshold)
    ensures forall j :: lo < j <= hi ==> !Emissions(triggered, events, threshold)[j]
  {
    forall j | lo < j <= hi ensures !Emissions(triggered, events, threshold)[j] {
      assert Near(events[j - 1], threshold);
    }
  }

  class InfiniteScrollDirective {
    const threshold: int
    var alreadyTriggered: bool

    /** A directive with the default threshold and the flag clear. */
    constructor ()
      ensures threshold == DefaultThreshold && !alreadyTriggered
    {
      threshold := DefaultThreshold;
      alreadyTriggered := false;
    }

    /** A directive with a bound threshold and the flag clear. */
    constructor WithThreshold(threshold: int)
      ensures this.threshold == threshold && !alreadyTriggered
    {
      this.threshold := threshold;
      alreadyTriggered := false;
    }

    /** One scroll event. Near the bottom it emits if the flag was clear and
        sets the flag; away from the bottom it clears the flag. Either way the
        flag ends up recording whether this event was near the bottom. */
    method OnScroll(scrollTop: int, scrollHeight: int, clientHeight: int) returns (emitted: bool)
      modifies this
      ensures emitted <==> DistanceFromBottom(scrollTop, scrollHeight, clientHeight) <= threshold
                           && !old(alreadyTriggered)
      ensures alreadyTriggered <==> DistanceFromBottom(scrollTop, scrollHeight, clientHeight) <= threshold
    {
      var distanceFromBottom := DistanceFromBottom(scrollTop, scrollHeight, clientHeight);
      emitted := false;
      if distanceFromBottom <= threshold {
        if !alreadyTriggered {
          alreadyTriggered := true;
          emitted := true;
        }
      } else {
        alreadyTriggered := false;
      }
    }

    /** Feeds a sequence of scroll events to the directive, one after the
        other, and records which of them emitted. */
    method Run(events: seq<ScrollEvent>) returns (emits: seq<bool>)
      modifies this
      ensures emits == Emissions(old(alreadyTriggered), events, threshold)
      ensures |events| > 0 ==> (alreadyTriggered <==> Near(events[|events| - 1], threshold))
      ensures |events| == 0 ==> alreadyTriggered == old(alreadyTriggered)
    {
      ghost var initial := alreadyTriggered;
      emits := [];
      var n := 0;
      while n < |events|
        invariant 0 <= n <= |events|
        invariant emits == Emissions(initial, events[..n], threshold)
        invariant n > 0 ==> (alreadyTriggered <==> Near(events[n - 1], threshold))
        invariant n == 0 ==> alreadyTriggered == initial
      {
        var e := OnScroll(events[n].scrollTop, events[n].scrollHeight, events[n].clientHeight);
        EmissionsSnoc(initial, events, threshold, n);
        emits := emits + [e];
        n := n + 1;
      }
      assert events[..n] == events;
    }
  }

  /** Adding one event adds its own emission at the end. */
  lemma EmissionsSnoc(triggered: bool, events: seq<ScrollEvent>, threshold: int, n: int)
    requires 0 <= n < |events|
    ensures Emissions(triggered, events[..n + 1], threshold)
         == Emissions(triggered, events[..n], threshold) + [Emissions(triggered, events, threshold)[n]]
  {
  }
}
