/**
 * The per-slide layout of the hero carousel (`calculateSlideStyles` in
 * `Home`): a pure function of the slide's index, the active index and the
 * number of slides `n`. Widths and left offsets are percentages of the
 * viewport, kept as integers.
 */
module SlideLayout {
  import opened JsArith

  /** Width share of the active slide. */
  const ActiveWidth: int := 70
  /** Width share of every other slide: the rest split into three slits. */
  const InactiveWidth: int := (100 - ActiveWidth) / 3

  datatype SlideStyle = SlideStyle(width: int, left: int, order: int, zIndex: int)

  /**
   * Rotational offset of slide `index` from the active slide `current`:
   * how many steps forward from `current` the slide sits.
   */
  function Position(index: int, current: int, n: int): (p: int)
    requires 0 <= index < n && 0 <= current < n
    ensures 0 <= p < n
    ensures p == 0 <==> index == current
    ensures current + p == index || current + p == index + n
  {
    var d := index - current + n;
    if index >= current then
      ModShift(d, n);
      Rem(d, n)
    else
      ModSmall(d, n);
      Rem(d, n)
  }

  /**
   * Signed stacking order of a slide at position `p`: slides in the front
   * half keep `p`, slides in the back half count backwards from the active one.
   */
  function Order(p: int, n: int): (o: int)
    requires 0 <= p < n
    ensures -n < 2 * o <= n
    ensures o % n == p
    ensures o == 0 <==> p == 0
  {
    ModSmall(p, n);
    if 2 * p > n then
      ModSmall(p - n + n, n);
      assert (p - n) % n == (p - n + n) % n;
      p - n
    else
      p
  }

  /** The style `calculateSlideStyles(index)` returns while slide `current` is active. */
  function SlideStyles(index: int, current: int, n: int): (s: SlideStyle)
    requires 0 <= index < n && 0 <= current < n
    ensures s.zIndex == n <==> index == current
    ensures index != current ==> s.zIndex == n - Abs(s.order)
    ensures 1 <= s.zIndex <= n
    ensures s.width > 0
    ensures -n < 2 * s.order <= n
  {
    var p := Position(index, current, n);
    var isActive := p == 0;
    var order := Order(p, n);
    SlideStyle(
      width := if isActive then ActiveWidth else InactiveWidth,
      left := if isActive then 0 else ActiveWidth + (p - 1) * InactiveWidth,
      order := order,
      zIndex := if isActive then n else n - Abs(order))
  }

  /** The slide that sits at position `p` while `current` is active. */
  function SlideAt(p: int, current: int, n: int): (index: int)
    requires 0 <= p < n && 0 <= current < n
    ensures 0 <= index < n
    ensures Position(index, current, n) == p
  {
    var index := (current + p) % n;
    PositionFrom(index, current, n, p);
    index
  }

  /** A position is pinned down by the slide it locates. */
  lemma PositionFrom(index: int, current: int, n: int, p: int)
    requires 0 <= index < n && 0 <= current < n && 0 <= p < n
    requires (current + p) % n == index
    ensures Position(index, current, n) == p
  {
    if current + p < n {
      ModSmall(current + p, n);
    } else {
      ModShift(current + p, n);
    }
  }

  /** Two different slides never share a position. */
  lemma PositionInjective(i: int, j: int, current: int, n: int)
    requires 0 <= i < n && 0 <= j < n && 0 <= current < n
    requires Position(i, current, n) == Position(j, current, n)
    ensures i == j
  {
  }

  /** Exactly one slide is active: the one at `current`. */
  lemma ExactlyOneActive(current: int, n: int)
    requires 0 <= current < n
    ensures (set i | 0 <= i < n && Position(i, current, n) == 0) == {current}
  {
  }

  /**
   * `Order` is the unique representative of `p` modulo `n` in the half-open
   * range (-n/2, n/2].
   */
  lemma OrderUnique(p: int, n: int, o: int)
    requires 0 <= p < n
    requires -n < 2 * o <= n && o % n == p
    ensures o == Order(p, n)
  {
    if o >= 0 {
      assert o % n == o by { assert o < n; }
    } else {
      assert o % n == o + n by { assert 0 <= o + n < n; }
    }
  }

  /**
   * A slide's stacking order is its position when that lies in the front half
   * (2 * p <= n), and its position minus n otherwise; either way it is
   * congruent to the position modulo n.
   */
  lemma StackingOrder(i: int, current: int, n: int)
    requires 0 <= i < n && 0 <= current < n
    ensures var p := Position(i, current, n);
      var o := SlideStyles(i, current, n).order;
      o % n == p && (if 2 * p <= n then o == p else o == p - n)
  {
  }

  /** The active slide is stacked strictly above every other slide. */
  lemma ActiveOnTop(i: int, current: int, n: int)
    requires 0 <= i < n && 0 <= current < n && i != current
    ensures 1 <= SlideStyles(i, current, n).zIndex < SlideStyles(current, current, n).zIndex == n
  {
  }

  /**
   * Among inactive slides, the one whose stacking order is nearer the active
   * slide is stacked higher.
   */
  lemma NearerStacksHigher(i: int, j: int, current: int, n: int)
    requires 0 <= i < n && 0 <= j < n && 0 <= current < n
    requires i != current && j != current
    ensures var si, sj := SlideStyles(i, current, n), SlideStyles(j, current, n);
      Abs(si.order) < Abs(sj.order) <==> si.zIndex > sj.zIndex
  {
  }

  /**
   * The active slide is 70 wide at the left edge; a slide at position p > 0
   * is 10 wide and starts at 70 + (p - 1) * 10.
   */
  lemma Geometry(i: int, current: int, n: int)
    requires 0 <= i < n && 0 <= current < n
    ensures var s := SlideStyles(i, current, n);
      var p := Position(i, current, n);
      if p == 0 then s.width == 70 && s.left == 0
      else s.width == 10 && s.left == 70 + (p - 1) * 10
  {
  }

  /** Consecutive positions abut: each slide starts where the one before it ends. */
  lemma Abut(p: int, current: int, n: int)
    requires 0 <= p && p + 1 < n && 0 <= current < n
    ensures var s := SlideStyles(SlideAt(p, current, n), current, n);
      SlideStyles(SlideAt(p + 1, current, n), current, n).left == s.left + s.width
  {
    Geometry(SlideAt(p, current, n), current, n);
    Geometry(SlideAt(p + 1, current, n), current, n);
  }

  /** Left offsets grow strictly with position, so no two slides share one. */
  lemma LeftsDistinct(i: int, j: int, current: int, n: int)
    requires 0 <= i < n && 0 <= j < n && 0 <= current < n && i != j
    ensures SlideStyles(i, current, n).left != SlideStyles(j, current, n).left
  {
    Geometry(i, current, n);
    Geometry(j, current, n);
  }

  /** Sum of the widths of slides 0 .. k-1. */
  function WidthSum(current: int, n: int, k: int): int
    requires 0 <= current < n && 0 <= k <= n
  {
    if k == 0 then 0 else WidthSum(current, n, k - 1) + SlideStyles(k - 1, current, n).width
  }

  lemma {:induction false} WidthSumPrefix(current: int, n: int, k: int)
    requires 0 <= current < n && 0 <= k <= n
    ensures WidthSum(current, n, k) == if current < k then 70 + 10 * (k - 1) else 10 * k
  {
    if k > 0 {
      WidthSumPrefix(current, n, k - 1);
    }
  }

  /**
   * The slides together span 70 + 10 * (n - 1) percent of the viewport,
   * which is exactly the full width when, and only when, there are four slides.
   */
  lemma {:induction false} WidthsFillViewport(current: int, n: int)
    requires 0 <= current < n
    ensures WidthSum(current, n, n) == 70 + 10 * (n - 1)
    ensures WidthSum(current, n, n) == 100 <==> n == 4
  {
    WidthSumPrefix(current, n, n);
  }
}
