/**
 * The carousel of `SiteManager` (script.js) as values: the slide index
 * arithmetic, the "active" mark carried by one slide and its indicator, the
 * log of `slideChange` notifications, and the swipe decision.
 */
module Slides {

  /** The `slideChange` notification, carrying the new slide index. */
  datatype Event = SlideChange(currentSlide: nat)

  /**
   * The carousel state: `current` is `currentSlide`, `slides[k]` and
   * `indicators[k]` say whether the k-th slide / indicator has class
   * `active`, and `events` lists the notifications emitted so far.
   */
  datatype Carousel = Carousel(current: nat, slides: seq<bool>, indicators: seq<bool>, events: seq<Event>)

  /** A horizontal drag must move further than this to count as a swipe. */
  const SwipeThreshold: int := 50

  /** What a finished touch gesture asks the carousel to do. */
  datatype Swipe = SwipeNext | SwipePrev | NoSwipe

  /**
   * One indicator per slide, and the index is a valid slide whenever there
   * is a slide at all (it stays 0 on a page without a carousel).
   */
  predicate WellFormed(c: Carousel)
  {
    && |c.slides| == |c.indicators|
    && (if |c.slides| == 0 then c.current == 0 else c.current < |c.slides|)
  }

  /** Exactly the flag at `i` is set. */
  predicate ExactlyActiveAt(flags: seq<bool>, i: int)
  {
    && 0 <= i < |flags|
    && forall k :: 0 <= k < |flags| ==> (flags[k] <==> k == i)
  }

  /** The slide and the indicator at `current`, and no others, are active. */
  predicate Coherent(c: Carousel)
  {
    ExactlyActiveAt(c.slides, c.current) && ExactlyActiveAt(c.indicators, c.current)
  }

  /** Index of the slide after `i` (`nextSlide`): wraps from the last slide to the first. */
  function NextIndex(i: nat, n: nat): (r: nat)
    requires n > 0
    ensures r < n
    ensures i < n - 1 ==> r == i + 1
    ensures i == n - 1 ==> r == 0
  {
    (i + 1) % n
  }

  /**
   * Index of the slide before `i` (`prevSlide`). With slides it is the
   * inverse of `NextIndex`; without any it is -1, which `GoTo` ignores.
   */
  function PrevIndex(i: nat, n: nat): (r: int)
    requires i < n || i == 0
    ensures n == 0 ==> r == -1
    ensures n > 0 ==> 0 <= r < n && NextIndex(r, n) == i
  {
    if i == 0 then n - 1 else i - 1
  }

  lemma PrevUndoesNext(i: nat, n: nat)
    requires i < n
    ensures PrevIndex(NextIndex(i, n), n) == i
  {
  }

  /** Clear the mark at `from`, then set it at `to`. */
  function Moved(flags: seq<bool>, from: nat, to: nat): (r: seq<bool>)
    requires from < |flags| && to < |flags|
    ensures |r| == |flags|
    ensures ExactlyActiveAt(flags, from) ==> ExactlyActiveAt(r, to)
  {
    flags[from := false][to := true]
  }

  /**
   * `goToSlide`: an index outside the slides is ignored; otherwise the
   * mark moves from the current slide and indicator to the target, the
   * index follows, and one notification is emitted.
   */
  function GoTo(c: Carousel, index: int): (r: Carousel)
    requires WellFormed(c)
    ensures WellFormed(r) && |r.slides| == |c.slides|
    ensures Coherent(c) ==> Coherent(r)
  {
    if index < 0 || index >= |c.slides| then c
    else Carousel(index, Moved(c.slides, c.current, index), Moved(c.indicators, c.current, index),
                  c.events + [SlideChange(index)])
  }

  /** `nextSlide`. */
  function Next(c: Carousel): (r: Carousel)
    requires WellFormed(c) && |c.slides| > 0
    ensures WellFormed(r) && |r.slides| == |c.slides|
    ensures r.current == (c.current + 1) % |c.slides|
    ensures r.events == c.events + [SlideChange(r.current)]
  {
    GoTo(c, NextIndex(c.current, |c.slides|))
  }

  /** `prevSlide`. */
  function Prev(c: Carousel): (r: Carousel)
    requires WellFormed(c)
    ensures WellFormed(r) && |r.slides| == |c.slides|
    ensures |c.slides| == 0 ==> r == c
    ensures |c.slides| > 0 ==> r.current == (c.current - 1) % |c.slides|
    ensures |c.slides| > 0 ==> r.events == c.events + [SlideChange(r.current)]
  {
    GoTo(c, PrevIndex(c.current, |c.slides|))
  }

  lemma GoToOutOfRangeIsNoOp(c: Carousel, index: int)
    requires WellFormed(c)
    requires index < 0 || index >= |c.slides|
    ensures GoTo(c, index) == c
  {
  }

  /**
   * In range, `goToSlide` touches the flags of the old and the new index
   * only, and emits exactly one notification carrying the new index.
   */
  lemma GoToMovesTheMark(c: Carousel, index: int)
    requires WellFormed(c)
    requires 0 <= index < |c.slides|
    ensures GoTo(c, index).current == index
    ensures GoTo(c, index).slides[index] && GoTo(c, index).indicators[index]
    ensures index != c.current ==> !GoTo(c, index).slides[c.current] && !GoTo(c, index).indicators[c.current]
    ensures forall k :: 0 <= k < |c.slides| && k != index && k != c.current ==>
              GoTo(c, index).slides[k] == c.slides[k] && GoTo(c, index).indicators[k] == c.indicators[k]
    ensures GoTo(c, index).events == c.events + [SlideChange(index)]
  {
  }

  /** Apply `nextSlide` `k` times. */
  function NextTimes(c: Carousel, k: nat): (r: Carousel)
    requires WellFormed(c) && |c.slides| > 0
    ensures WellFormed(r) && |r.slides| == |c.slides|
    decreases k
  {
    if k == 0 then c else NextTimes(Next(c), k - 1)
  }

  /** Apply `prevSlide` `k` times. */
  function PrevTimes(c: Carousel, k: nat): (r: Carousel)
    requires WellFormed(c)
    ensures WellFormed(r) && |r.slides| == |c.slides|
    decreases k
  {
    if k == 0 then c else PrevTimes(Prev(c), k - 1)
  }

  /** Two different multiples of a positive `n` are at least `n` apart. */
  lemma {:induction false} MulGap(q: int, p: int, n: int)
    requires q > p && n > 0
    ensures q * n - p * n >= n
    decreases q - p
  {
    if q > p + 1 {
      MulGap(q - 1, p, n);
      assert q * n == (q - 1) * n + n;
    }
  }

  /** Euclidean remainders are unique. */
  lemma ModUnique(x: int, q: int, r: int, n: int)
    requires n > 0 && 0 <= r < n && x == q * n + r
    ensures x % n == r
  {
    var q0 := x / n;
    assert x == q0 * n + x % n;
    if q > q0 {
      MulGap(q, q0, n);
    } else if q < q0 {
      MulGap(q0, q, n);
    }
  }

  /** Reducing the left summand first does not change the remainder of a sum. */
  lemma ModAbsorb(a: int, b: int, n: int)
    requires n > 0
    ensures (a % n + b) % n == (a + b) % n
  {
    var s := a % n + b;
    var q := s / n;
    assert s == q * n + s % n;
    var qa := a / n;
    assert a == qa * n + a % n;
    assert a + b == (q + qa) * n + s % n;
    ModUnique(a + b, q + qa, s % n, n);
  }

  /** A whole turn forward or back leaves an index where it was. */
  lemma CycleIndex(i: int, n: int)
    requires 0 <= i < n
    ensures (i + n) % n == i
    ensures (i - n) % n == i
  {
    ModUnique(i + n, 1, i, n);
    ModUnique(i - n, -1, i, n);
  }

  /**
   * `k` steps forward land on `(current + k) mod n`, emit `k`
   * notifications, and keep exactly one slide and indicator active.
   */
  lemma {:induction false} NextTimesAdvances(c: Carousel, k: nat)
    requires WellFormed(c) && |c.slides| > 0
    ensures NextTimes(c, k).current == (c.current + k) % |c.slides|
    ensures |NextTimes(c, k).events| == |c.events| + k
    ensures Coherent(c) ==> Coherent(NextTimes(c, k))
    decreases k
  {
    if k > 0 {
      NextTimesAdvances(Next(c), k - 1);
      ModAbsorb(c.current + 1, k - 1, |c.slides|);
    }
  }

  /**
   * The notifications of `k` steps forward: the old log is kept and the
   * i-th new entry carries the index reached by the i-th step.
   */
  lemma {:induction false} NextTimesLog(c: Carousel, k: nat)
    requires WellFormed(c) && |c.slides| > 0
    ensures |NextTimes(c, k).events| == |c.events| + k
    ensures NextTimes(c, k).events[..|c.events|] == c.events
    ensures forall i :: |c.events| <= i < |c.events| + k ==>
              NextTimes(c, k).events[i] == SlideChange((c.current + (i - |c.events|) + 1) % |c.slides|)
    decreases k
  {
    if k > 0 {
      var n, c' := |c.slides|, Next(c);
      NextTimesLog(c', k - 1);
      assert NextTimes(c, k) == NextTimes(c', k - 1);
      forall i | |c.events| < i < |c.events| + k
        ensures NextTimes(c, k).events[i] == SlideChange((c.current + (i - |c.events|) + 1) % n)
      {
        ModAbsorb(c.current + 1, i - |c.events|, n);
      }
    }
  }



  /** The wrap-around law: `n` calls of `nextSlide` come back to the start. */
  lemma {:induction false} NextFullCycle(c: Carousel)
    requires WellFormed(c) && |c.slides| > 0
    ensures NextTimes(c, |c.slides|).current == c.current
  {
    NextTimesAdvances(c, |c.slides|);
    CycleIndex(c.current, |c.slides|);
  }

  /** `k` steps back land on `(current - k) mod n` and keep one slide active. */
  lemma {:induction false} PrevTimesRetreats(c: Carousel, k: nat)
    requires WellFormed(c) && |c.slides| > 0
    ensures PrevTimes(c, k).current == (c.current - k) % |c.slides|
    ensures |PrevTimes(c, k).events| == |c.events| + k
    ensures Coherent(c) ==> Coherent(PrevTimes(c, k))
    decreases k
  {
    if k > 0 {
      PrevTimesRetreats(Prev(c), k - 1);
      ModAbsorb(c.current - 1, -(k - 1), |c.slides|);
    }
  }

  /**
   * The notifications of `k` steps back: the old log is kept and the i-th
   * new entry carries the index reached by the i-th step.
   */
  lemma {:induction false} PrevTimesLog(c: Carousel, k: nat)
    requires WellFormed(c) && |c.slides| > 0
    ensures |PrevTimes(c, k).events| == |c.events| + k
    ensures PrevTimes(c, k).events[..|c.events|] == c.events
    ensures forall i :: |c.events| <= i < |c.events| + k ==>
              PrevTimes(c, k).events[i] == SlideChange((c.current - (i - |c.events|) - 1) % |c.slides|)
    decreases k
  {
    if k > 0 {
      var n, c' := |c.slides|, Prev(c);
      PrevTimesLog(c', k - 1);
      assert PrevTimes(c, k) == PrevTimes(c', k - 1);
      forall i | |c.events| < i < |c.events| + k
        ensures PrevTimes(c, k).events[i] == SlideChange((c.current - (i - |c.events|) - 1) % n)
      {
        ModAbsorb(c.current - 1, -(i - |c.events|), n);
      }
    }
  }



  /** The wrap-around law for `prevSlide`. */
  lemma {:induction false} PrevFullCycle(c: Carousel)
    requires WellFormed(c) && |c.slides| > 0
    ensures PrevTimes(c, |c.slides|).current == c.current
  {
    PrevTimesRetreats(c, |c.slides|);
    CycleIndex(c.current, |c.slides|);
  }

  /** Three slides, starting on the first: three `nextSlide` calls visit 1, 2 and 0. */
  lemma ThreeSlidesScenario()
    ensures var c := Carousel(0, [true, false, false], [true, false, false], []);
            NextTimes(c, 3) == Carousel(0, [true, false, false], [true, false, false],
                                        [SlideChange(1), SlideChange(2), SlideChange(0)])
  {
    var c := Carousel(0, [true, false, false], [true, false, false], []);
    var c1 := Next(c);
    assert c1 == Carousel(1, [false, true, false], [false, true, false], [SlideChange(1)]);
    var c2 := Next(c1);
    assert c2 == Carousel(2, [false, false, true], [false, false, true], [SlideChange(1), SlideChange(2)]);
    var c3 := Next(c2);
    assert c3 == Carousel(0, [true, false, false], [true, false, false],
                          [SlideChange(1), SlideChange(2), SlideChange(0)]);
    assert NextTimes(c, 3) == NextTimes(c1, 2) == NextTimes(c2, 1) == NextTimes(c3, 0);
  }

  /** `handleSwipe`: compare `startX - endX` with the threshold. */
  function SwipeDecision(startX: int, endX: int): (r: Swipe)
    ensures r == SwipeNext <==> startX - endX > SwipeThreshold
    ensures r == SwipePrev <==> endX - startX > SwipeThreshold
    ensures r == NoSwipe <==> -SwipeThreshold <= startX - endX <= SwipeThreshold
  {
    var diff := startX - endX;
    var magnitude := if diff < 0 then -diff else diff;
    if magnitude > SwipeThreshold then
      if diff > 0 then SwipeNext else SwipePrev
    else NoSwipe
  }

  /** The carousel after a finished swipe from `startX` to `endX`. */
  function ApplySwipe(c: Carousel, startX: int, endX: int): (r: Carousel)
    requires WellFormed(c)
    requires SwipeDecision(startX, endX) == SwipeNext ==> |c.slides| > 0
    ensures WellFormed(r) && |r.slides| == |c.slides|
  {
    match SwipeDecision(startX, endX)
    case SwipeNext => Next(c)
    case SwipePrev => Prev(c)
    case NoSwipe => c
  }

  /**
   * A drag of at most 50 changes nothing; a longer one moves the carousel
   * by exactly one slide, forward for a leftward drag and back otherwise.
   */
  lemma SwipeSteps(c: Carousel, startX: int, endX: int)
    requires WellFormed(c)
    ensures -SwipeThreshold <= startX - endX <= SwipeThreshold ==> ApplySwipe(c, startX, endX) == c
    ensures |c.slides| == 0 && endX - startX > SwipeThreshold ==> ApplySwipe(c, startX, endX) == c
    ensures |c.slides| > 0 && startX - endX > SwipeThreshold ==>
              ApplySwipe(c, startX, endX).current == (c.current + 1) % |c.slides|
    ensures |c.slides| > 0 && endX - startX > SwipeThreshold ==>
              ApplySwipe(c, startX, endX).current == (c.current - 1) % |c.slides|
    ensures |c.slides| > 0 && !(-SwipeThreshold <= startX - endX <= SwipeThreshold) ==>
              ApplySwipe(c, startX, endX).events == c.events + [SlideChange(ApplySwipe(c, startX, endX).current)]
  {
  }
}
