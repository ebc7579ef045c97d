/** The testimonial carousel: cyclic paging through a fixed list of cards,
    with a responsive page size, one indicator dot per page, swipe gestures
    and an auto-advance interval that manual navigation restarts. */
module Carousel {
  import opened JsText

  /** Pixels between two cards; added to each card's rendered width. */
  const Gap: nat := 24
  /** A touch has to move strictly more than this many pixels to count as a swipe. */
  const SwipeThreshold: nat := 50
  /** Period of the auto-advance interval, in milliseconds. */
  const AutoAdvanceMs: nat := 5000

  /** A JavaScript number as the carousel computes it: an integer, or NaN, which
      is what `x % 0` yields when there are no cards and so no pages. */
  datatype JsNum = Num(v: int) | NaN {
    /** `this + k`; NaN stays NaN. */
    function Plus(k: int): JsNum {
      if Num? then Num(v + k) else NaN
    }
  }

  /** An indicator dot: `active` is the class given to the first dot when the dots
      are built, `highlighted` the inline style that navigation sets on the dot of
      the current page. */
  datatype Dot = Dot(active: bool, highlighted: bool)

  /** Cards shown at once for a viewport `width` pixels wide. */
  function VisibleCards(width: int): (vis: nat)
    ensures 1 <= vis <= 3
    ensures vis == 1 <==> width <= 600
    ensures vis == 3 <==> 900 < width
  {
    if width <= 600 then 1 else if width <= 900 then 2 else 3
  }

  /** A wider viewport never shows fewer cards per page. */
  lemma VisibleCardsMonotone(w1: int, w2: int)
    requires w1 <= w2
    ensures VisibleCards(w1) <= VisibleCards(w2)
  {
  }

  /** `Math.ceil(cards / vis)`: the least number of pages of `vis` cards that hold
      all the cards. */
  function PageCount(cards: nat, vis: nat): (pages: nat)
    requires vis > 0
    ensures cards <= pages * vis < cards + vis
    ensures pages == 0 <==> cards == 0
  {
    (cards + vis - 1) / vis
  }

  /** Multiplying both sides of `x <= y` by a non-negative `k` keeps the order. */
  lemma MulMonotone(x: int, y: int, k: int)
    requires k >= 0 && x <= y
    ensures x * k <= y * k
  {
    assert y * k - x * k == (y - x) * k;
  }

  /** A quotient and remainder in range determine the residue: if
      `a == q * m + r` with `0 <= r < m`, then `a % m == r`. */
  lemma ModUnique(a: int, q: int, r: int, m: int)
    requires m > 0 && 0 <= r < m && a == q * m + r
    ensures a % m == r && a / m == q
  {
    var q', r' := a / m, a % m;
    assert a == q' * m + r';
    if q' < q {
      assert (q' + 1) * m == q' * m + m;
      MulMonotone(q' + 1, q, m);
    } else if q < q' {
      assert (q + 1) * m == q * m + m;
      MulMonotone(q + 1, q', m);
    }
  }

  /** Fewer cards per page never means fewer pages. */
  lemma PageCountAntitone(cards: nat, v1: nat, v2: nat)
    requires 0 < v1 <= v2
    ensures PageCount(cards, v1) >= PageCount(cards, v2)
  {
    var p1, p2 := PageCount(cards, v1), PageCount(cards, v2);
    if p1 < p2 {
      assert (p2 - 1) * v2 == p2 * v2 - v2;
      assert v1 * (p2 - 1) == (p2 - 1) * v1 && v2 * (p2 - 1) == (p2 - 1) * v2;
      MulMonotone(p1, p2 - 1, v1);
      MulMonotone(v1, v2, p2 - 1);
    }
  }

  /** Narrowing the viewport never decreases the number of pages. */
  lemma NarrowerViewportNotFewerPages(cards: nat, narrow: int, wide: int)
    requires narrow <= wide
    ensures PageCount(cards, VisibleCards(narrow)) >= PageCount(cards, VisibleCards(wide))
  {
    PageCountAntitone(cards, VisibleCards(narrow), VisibleCards(wide));
  }

  /** JavaScript's `a % b` for `b > 0`: the remainder of division truncated
      toward zero, which takes the sign of `a`. `a` is `q * b + r` for the
      quotient `q` rounded toward zero. */
  function TruncRem(a: int, b: int): (r: int)
    requires b > 0
    ensures -b < r < b
    ensures a >= 0 ==> r >= 0
    ensures a <= 0 ==> r <= 0
    ensures (a - r) % b == 0
  {
    if a >= 0 then
      ModUnique(a - a % b, a / b, 0, b);
      a % b
    else
      var k := (-a) % b;
      assert -a == ((-a) / b) * b + k;
      ModUnique(a + k, -((-a) / b), 0, b);
      -k
  }

  /** `((index % total) + total) % total` with JavaScript's `%`: the page that an
      arbitrary, possibly negative, index lands on. It is the mathematical
      (never negative) residue of `index` modulo `total`. */
  function WrapPage(index: int, total: nat): (page: nat)
    requires total > 0
    ensures page < total
    ensures page == index % total
  {
    var r := TruncRem(index, total);
    var k := (index - r) / total;
    assert index - r == k * total;
    if r >= 0 then
      ModUnique(r + total, 1, r, total);
      ModUnique(index, k, r, total);
      TruncRem(r + total, total)
    else
      ModUnique(r + total, 0, r + total, total);
      assert index == (k - 1) * total + (r + total);
      ModUnique(index, k - 1, r + total, total);
      TruncRem(r + total, total)
  }

  /** Navigating to `index` and to `index + total` lands on the same page. */
  lemma WrapPagePeriodic(index: int, total: nat)
    requires total > 0
    ensures WrapPage(index + total, total) == WrapPage(index, total)
  {
    var q := index / total;
    assert index == q * total + index % total;
    assert index + total == (q + 1) * total + index % total;
    ModUnique(index + total, q + 1, index % total, total);
  }

  /** An index already in range is its own page. */
  lemma WrapPageInRange(index: int, total: nat)
    requires total > 0 && 0 <= index < total
    ensures WrapPage(index, total) == index
  {
    ModUnique(index, 0, index, total);
  }

  /** Going back one page and then forward one page (or the reverse) returns to
      the page one started on. */
  lemma PrevNextInverse(page: nat, total: nat)
    requires page < total
    ensures WrapPage(WrapPage(page - 1, total) + 1, total) == page
    ensures WrapPage(WrapPage(page + 1, total) - 1, total) == page
  {
    WrapPageInRange(page, total);
    if page == 0 {
      ModUnique(-1, -1, total - 1, total);
    } else {
      WrapPageInRange(page - 1, total);
    }
    if page == total - 1 {
      ModUnique(total, 1, 0, total);
      ModUnique(-1, -1, total - 1, total);
    } else {
      WrapPageInRange(page + 1, total);
    }
  }

  /** The track's leftward shift in pixels for `page`, when a page holds `vis`
      cards and a card plus its gap is `step` pixels wide. */
  function TrackOffset(page: int, vis: nat, step: nat): int {
    page * vis * step
  }

  /** The shift is never negative for a valid page, it is zero exactly on the
      first page, and distinct pages get distinct shifts. */
  lemma TrackOffsetProperties(p1: nat, p2: nat, vis: nat, step: nat)
    requires vis > 0 && step > 0
    ensures TrackOffset(p1, vis, step) >= 0
    ensures TrackOffset(p1, vis, step) == 0 <==> p1 == 0
    ensures p1 != p2 ==> TrackOffset(p1, vis, step) != TrackOffset(p2, vis, step)
  {
    var w := vis * step;
    assert w > 0;
    assert TrackOffset(p1, vis, step) == p1 * w && TrackOffset(p2, vis, step) == p2 * w;
    if p1 < p2 {
      assert p1 * w < p2 * w;
    } else if p2 < p1 {
      assert p2 * w < p1 * w;
    }
  }

  /** A touch that moved `diff` pixels is a swipe when it moved strictly more than
      the threshold, in either direction. */
  predicate IsSwipe(diff: int) {
    diff > SwipeThreshold || -diff > SwipeThreshold
  }

  /** The threshold is strict: 51 pixels swipe, 50 do not. */
  lemma SwipeBoundary()
    ensures IsSwipe(51) && IsSwipe(-51)
    ensures !IsSwipe(50) && !IsSwipe(-50) && !IsSwipe(49)
  {
  }

  /** Seven cards on a 1024 pixel viewport make three pages of three, and index 5
      lands on the last of them. */
  lemma SevenCardsExample()
    ensures PageCount(7, VisibleCards(1024)) == 3
    ensures WrapPage(5, 3) == 2
  {
  }

  class Carousel {
    /** Number of testimonial cards; fixed when the carousel starts. */
    const cardCount: nat
    /** Whether the page has a container for indicator dots. */
    const hasDots: bool
    /** The viewport width the carousel last laid itself out for. */
    var width: int
    /** The rendered width of the first card, without the gap. */
    var cardWidth: nat
    var current: JsNum
    /** The track's leftward shift in pixels. */
    var offset: JsNum
    var dots: seq<Dot>
    /** Horizontal position where the last touch started. */
    var touchStart: int
    /** The id of the interval last started, if any. */
    var autoTimer: Option<nat>
    /** The intervals that are scheduled and not cleared. */
    var liveTimers: set<nat>
    /** The id the next `setInterval` hands out. */
    var nextTimerId: nat

    function Visible(): nat
      reads this
    {
      VisibleCards(width)
    }

    function Pages(): nat
      reads this
    {
      PageCount(cardCount, VisibleCards(width))
    }

    /** Width of one card plus its gap; zero when there is no first card. */
    function Step(): nat
      reads this
    {
      if cardCount > 0 then cardWidth + Gap else 0
    }

    /** The shift the track has for page `p`. */
    function OffsetOf(p: JsNum): JsNum
      reads this
    {
      if p.NaN? then NaN else Num(TrackOffset(p.v, Visible(), Step()))
    }

    /** The interval in `autoTimer` is the only one alive. */
    ghost predicate TimerValid()
      reads this
    {
      liveTimers == (if autoTimer.Some? then {autoTimer.value} else {}) &&
      (autoTimer.Some? ==> autoTimer.value < nextTimerId)
    }

    /** One dot per page, or none when there is no dot container. */
    ghost predicate DotsValid()
      reads this
    {
      |dots| == (if hasDots then Pages() else 0)
    }

    /** With cards the current page is in range; without cards it is the initial
        0 or NaN. */
    ghost predicate PageValid()
      reads this
    {
      if cardCount > 0 then current.Num? && 0 <= current.v < Pages()
      else current == Num(0) || current == NaN
    }

    ghost predicate Valid()
      reads this
    {
      TimerValid() && DotsValid() && PageValid() &&
      offset == OffsetOf(current) &&
      (forall i :: 0 <= i < |dots| && dots[i].highlighted ==> current == Num(i))
    }

    /** The carousel as it is right after the page loads: dots built, page 0,
        auto-advance running. */
    constructor (cardCount: nat, hasDots: bool, width: int, cardWidth: nat)
      ensures Valid()
      ensures this.cardCount == cardCount && this.hasDots == hasDots
      ensures this.width == width && this.cardWidth == cardWidth
      ensures current == Num(0) && offset == Num(0) && touchStart == 0
      ensures |dots| == (if hasDots then Pages() else 0)
      ensures forall i :: 0 <= i < |dots| ==> dots[i] == Dot(i == 0, false)
      ensures autoTimer.Some? && |liveTimers| == 1
    {
      this.cardCount := cardCount;
      this.hasDots := hasDots;
      this.width := width;
      this.cardWidth := cardWidth;
      current := Num(0);
      offset := Num(0);
      dots := [];
      touchStart := 0;
      autoTimer := None;
      liveTimers := {};
      nextTimerId := 1;
      new;
      BuildDots();
      StartAuto();
    }

    /** Replaces the dots by one fresh dot per page; only the first carries the
        `active` class and none is highlighted. Without a dot container nothing
        happens. */
    method BuildDots()
      modifies this`dots
      ensures hasDots ==> |dots| == Pages()
      ensures hasDots ==> forall i :: 0 <= i < |dots| ==> dots[i] == Dot(i == 0, false)
      ensures !hasDots ==> dots == old(dots)
    {
      if !hasDots {
        return;
      }
      dots := [];
      var total := PageCount(cardCount, VisibleCards(width));
      var i := 0;
      while i < total
        invariant 0 <= i <= total
        invariant |dots| == i
        invariant forall j :: 0 <= j < i ==> dots[j] == Dot(j == 0, false)
      {
        dots := dots + [Dot(i == 0, false)];
        i := i + 1;
      }
    }

    /** Shows the page `index` lands on, shifts the track there and highlights
        exactly that page's dot. */
    method GoTo(index: JsNum)
      requires TimerValid() && DotsValid()
      requires index.NaN? ==> cardCount == 0
      modifies this`current, this`offset, this`dots
      ensures Valid()
      ensures current == (if cardCount == 0 then NaN else Num(WrapPage(index.v, Pages())))
      ensures |dots| == |old(dots)|
      ensures forall i :: 0 <= i < |dots| ==> dots[i] == Dot(old(dots[i]).active, current == Num(i))
    {
      var vis := VisibleCards(width);
      var total := PageCount(cardCount, vis);
      if total == 0 || index.NaN? {
        current := NaN;
      } else {
        current := Num(WrapPage(index.v, total));
      }
      var step := if cardCount > 0 then cardWidth + Gap else 0;
      offset := if current.NaN? then NaN else Num(TrackOffset(current.v, vis, step));
      var marked := dots;
      var i := 0;
      while i < |marked|
        invariant 0 <= i <= |marked| && |marked| == |dots|
        invariant forall j :: 0 <= j < i ==> marked[j] == Dot(dots[j].active, current == Num(j))
        invariant forall j :: i <= j < |marked| ==> marked[j] == dots[j]
      {
        marked := marked[i := Dot(marked[i].active, current == Num(i))];
        i := i + 1;
      }
      dots := marked;
    }

    /** Cancels the running interval, if any, and starts a fresh one. */
    method StartAuto()
      requires TimerValid()
      modifies this`autoTimer, this`liveTimers, this`nextTimerId
      ensures TimerValid()
      ensures autoTimer == Some(old(nextTimerId)) && liveTimers == {old(nextTimerId)}
      ensures old(autoTimer).Some? ==> old(autoTimer).value !in liveTimers
      ensures nextTimerId == old(nextTimerId) + 1
    {
      if autoTimer.Some? {
        liveTimers := liveTimers - {autoTimer.value};
      }
      var id := nextTimerId;
      nextTimerId := nextTimerId + 1;
      liveTimers := liveTimers + {id};
      autoTimer := Some(id);
    }

    /** One firing of the auto-advance interval: move one page forward. */
    method Tick()
      requires Valid() && autoTimer.Some?
      modifies this`current, this`offset, this`dots
      ensures Valid()
      ensures current == (if cardCount == 0 then NaN else Num(WrapPage(old(current).v + 1, Pages())))
      ensures |dots| == |old(dots)|
      ensures forall i :: 0 <= i < |dots| ==> dots[i] == Dot(old(dots[i]).active, current == Num(i))
    {
      GoTo(current.Plus(1));
    }

    /** The "previous" button: one page back, then restart the interval. */
    method Prev()
      requires Valid()
      modifies this`current, this`offset, this`dots, this`autoTimer, this`liveTimers, this`nextTimerId
      ensures Valid()
      ensures current == (if cardCount == 0 then NaN else Num(WrapPage(old(current).v - 1, Pages())))
      ensures autoTimer == Some(old(nextTimerId)) && liveTimers == {old(nextTimerId)}
      ensures |dots| == |old(dots)|
      ensures forall i :: 0 <= i < |dots| ==> dots[i] == Dot(old(dots[i]).active, current == Num(i))
    {
      GoTo(current.Plus(-1));
      StartAuto();
    }

    /** The "next" button: one page forward, then restart the interval. */
    method Next()
      requires Valid()
      modifies this`current, this`offset, this`dots, this`autoTimer, this`liveTimers, this`nextTimerId
      ensures Valid()
      ensures current == (if cardCount == 0 then NaN else Num(WrapPage(old(current).v + 1, Pages())))
      ensures autoTimer == Some(old(nextTimerId)) && liveTimers == {old(nextTimerId)}
      ensures |dots| == |old(dots)|
      ensures forall i :: 0 <= i < |dots| ==> dots[i] == Dot(old(dots[i]).active, current == Num(i))
    {
      GoTo(current.Plus(1));
      StartAuto();
    }

    /** A click on dot `idx` shows that page; the interval is not restarted. */
    method ClickDot(idx: nat)
      requires Valid() && idx < |dots|
      modifies this`current, this`offset, this`dots
      ensures Valid()
      ensures current == Num(idx)
      ensures |dots| == |old(dots)|
      ensures forall i :: 0 <= i < |dots| ==> dots[i] == Dot(old(dots[i]).active, i == idx)
    {
      WrapPageInRange(idx, Pages());
      GoTo(Num(idx));
    }

    /** A finger touches the track at horizontal position `x`. */
    method TouchStart(x: int)
      modifies this`touchStart
      ensures touchStart == x
    {
      touchStart := x;
    }

    /** The finger leaves the track at `x`. A move of more than the threshold
        toward the left goes forward, toward the right goes back, and both restart
        the interval; a shorter move changes nothing. */
    method TouchEnd(x: int)
      requires Valid()
      modifies this`current, this`offset, this`dots, this`autoTimer, this`liveTimers, this`nextTimerId
      ensures Valid()
      ensures var diff := old(touchStart) - x;
        if IsSwipe(diff) then
          current == (if cardCount == 0 then NaN
                      else Num(WrapPage(old(current).v + (if diff > 0 then 1 else -1), Pages()))) &&
          autoTimer == Some(old(nextTimerId)) && liveTimers == {old(nextTimerId)} &&
          |dots| == |old(dots)| &&
          (forall i :: 0 <= i < |dots| ==> dots[i] == Dot(old(dots[i]).active, current == Num(i)))
        else
          current == old(current) && offset == old(offset) && dots == old(dots) &&
          autoTimer == old(autoTimer) && liveTimers == old(liveTimers) && nextTimerId == old(nextTimerId)
    {
      var diff := touchStart - x;
      if IsSwipe(diff) {
        GoTo(if diff > 0 then current.Plus(1) else current.Plus(-1));
        StartAuto();
      }
    }

    /** The viewport changed size: lay out for the new width, rebuild the dots and
        go back to the first page. The interval keeps running. */
    method Resize(newWidth: int, newCardWidth: nat)
      requires Valid()
      modifies this`width, this`cardWidth, this`current, this`offset, this`dots
      ensures Valid()
      ensures width == newWidth && cardWidth == newCardWidth
      ensures current == (if cardCount == 0 then NaN else Num(0))
      ensures offset == (if cardCount == 0 then NaN else Num(0))
      ensures |dots| == (if hasDots then Pages() else 0)
      ensures forall i :: 0 <= i < |dots| ==> dots[i] == Dot(i == 0, i == 0)
    {
      width := newWidth;
      cardWidth := newCardWidth;
      BuildDots();
      GoTo(Num(0));
    }
  }

  /** At most one auto-advance interval is ever alive. */
  lemma AtMostOneTimer(c: Carousel)
    requires c.TimerValid()
    ensures |c.liveTimers| <= 1
  {
  }

  /** With cards present, the "previous" button followed by the "next" button
      returns to the page one started on, and exactly one interval is alive. */
  method PrevThenNext(c: Carousel)
    requires c.Valid() && c.cardCount > 0
    modifies c
    ensures c.Valid()
    ensures c.current == old(c.current) && |c.liveTimers| == 1
  {
    ghost var start := c.current.v;
    c.Prev();
    c.Next();
    PrevNextInverse(start, c.Pages());
  }

  /** With cards present, the "next" button followed by the "previous" button
      returns to the page one started on. */
  method NextThenPrev(c: Carousel)
    requires c.Valid() && c.cardCount > 0
    modifies c
    ensures c.Valid()
    ensures c.current == old(c.current) && |c.liveTimers| == 1
  {
    ghost var start := c.current.v;
    c.Next();
    c.Prev();
    PrevNextInverse(start, c.Pages());
  }
}
