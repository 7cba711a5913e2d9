/**
 A model of the integer arithmetic inside the scrolling-number text effect:
 the countdown list of values the strip shows, the size of the visible
 window, the start and end positions of the strip for each scroll direction,
 the value snapped from a strip position, and the clamp applied before the
 value is reported. Numbers are integers; the spring animation between the
 start and the end position is not modelled.
 */
module ScrollingNumber {

  /** The four scroll directions: left-to-right, right-to-left, top-to-bottom, bottom-to-top. */
  datatype Direction = Ltr | Rtl | Ttb | Btt

  /** The CSS flex direction the strip is laid out with. */
  datatype FlexDirection = Row | RowReverse | Column | ColumnReverse

  /** The strip's position before and after it scrolls. */
  datatype Positions = Positions(initial: int, final: int)

  function Abs(x: int): nat {
    if x < 0 then -x else x
  }

  /** The first value of the strip: the target number plus `sideItemsCount` steps of headroom. */
  function RangeEnd(max: int, step: int, sideItemsCount: int): int {
    max + sideItemsCount * step
  }

  /** Reference definition of the strip: `v`, `v - step`, ... while non-negative. */
  function Countdown(v: int, step: int): seq<int>
    requires step > 0
    decreases v
  {
    if v < 0 then [] else [v] + Countdown(v - step, step)
  }

  /** `r` is the countdown from `end` by `step`, described element by element:
      it starts at `end`, consecutive values differ by `step`, every value is
      non-negative, and it stops at the last non-negative one. */
  ghost predicate IsCountdownFrom(r: seq<int>, end: int, step: int) {
    && (|r| == 0 <==> end < 0)
    && (|r| > 0 ==> r[0] == end && r[|r| - 1] < step)
    && (forall i :: 0 <= i < |r| - 1 ==> r[i + 1] == r[i] - step)
    && (forall i :: 0 <= i < |r| ==> r[i] >= 0)
  }

  /** The loop that builds the strip's values. The component never checks
      the step: a negative end gives the empty strip for any step, while a
      non-negative end with a step `<= 0` never returns (it pushes until
      memory runs out), so that case is excluded. */
  method GenerateRange(max: int, step: int, sideItemsCount: int) returns (r: seq<int>)
    requires step > 0 || RangeEnd(max, step, sideItemsCount) < 0
    ensures step > 0 ==> r == Countdown(RangeEnd(max, step, sideItemsCount), step)
    ensures IsCountdownFrom(r, RangeEnd(max, step, sideItemsCount), step)
  {
    var end := max + sideItemsCount * step;
    r := [];
    var value := end;
    while value >= 0
      invariant step > 0 || (r == [] && value < 0)
      invariant step > 0 ==> r + Countdown(value, step) == Countdown(end, step)
      decreases value
    {
      ghost var before := r;
      r := r + [value];
      assert r + Countdown(value - step, step) == before + Countdown(value, step);
      value := value - step;
    }
    if step > 0 {
      CountdownShape(end, step);
    }
  }

  /** The reference definition meets the element-by-element description. */
  lemma {:induction false} CountdownShape(end: int, step: int)
    requires step > 0
    ensures IsCountdownFrom(Countdown(end, step), end, step)
    decreases end
  {
    if end >= 0 {
      CountdownShape(end - step, step);
      var tail := Countdown(end - step, step);
      var r := Countdown(end, step);
      assert r == [end] + tail;
      forall i | 0 < i < |r| - 1
        ensures r[i + 1] == r[i] - step
      {
        assert r[i] == tail[i - 1] && r[i + 1] == tail[i];
      }
    }
  }

  /** The i-th value of the strip is `end - i * step`. */
  lemma {:induction false} CountdownNth(r: seq<int>, end: int, step: int, i: nat)
    requires IsCountdownFrom(r, end, step) && i < |r|
    ensures r[i] == end - i * step
  {
    if i > 0 {
      CountdownNth(r, end, step, i - 1);
      assert r[i] == r[i - 1] - step;
    }
  }

  /** Multiplying by a non-negative factor keeps the order. */
  lemma MulMono(a: int, b: int, m: int)
    requires a <= b && m >= 0
    ensures a * m <= b * m
  {
    assert b * m - a * m == (b - a) * m;
  }

  /** A non-zero multiple of `m` is at least `m` away from zero. */
  lemma MulAwayFromZero(t: int, m: int)
    requires m > 0
    ensures t >= 1 ==> t * m >= m
    ensures t <= -1 ==> t * m <= -m
  {
    if t >= 1 {
      MulMono(1, t, m);
    }
    if t <= -1 {
      MulMono(t, -1, m);
    }
  }

  /** Quotient of Euclidean division, characterised by its remainder. */
  lemma DivUnique(x: int, m: int, q: int)
    requires m > 0 && q * m <= x < q * m + m
    ensures x / m == q
  {
    var d := x / m;
    assert (d - q) * m == x - x % m - q * m;
    MulAwayFromZero(d - q, m);
  }

  /** The strip from a non-negative end has `end / step + 1` values. */
  lemma {:induction false} CountdownLength(end: int, step: int)
    requires step > 0
    ensures |Countdown(end, step)| == if end < 0 then 0 else end / step + 1
    decreases end
  {
    if end >= 0 {
      CountdownLength(end - step, step);
      if end - step < 0 {
        DivUnique(end, step, 0);
      } else {
        var q := (end - step) / step;
        assert q * step <= end - step < q * step + step by {
          assert end - step == q * step + (end - step) % step;
        }
        assert (q + 1) * step == q * step + step;
        DivUnique(end, step, q + 1);
      }
    }
  }

  /** Adding `t` whole multiples of `m` keeps `x` in the block `x / m + t`. */
  lemma ShiftByMultiple(x: int, m: int, t: int)
    requires m > 0
    ensures (x / m + t) * m <= x + t * m < (x / m + t) * m + m
  {
    assert x == (x / m) * m + x % m;
    assert (x / m + t) * m == (x / m) * m + t * m;
  }

  /** The strip for a target `number >= 0` has `number / step` values below the
      target's item, the target's item, and `sideItemsCount` values above it. */
  lemma RangeLength(number: int, step: int, sideItemsCount: int)
    requires number >= 0 && step > 0 && sideItemsCount >= 0
    ensures |Countdown(RangeEnd(number, step, sideItemsCount), step)| == number / step + sideItemsCount + 1
  {
    var end := RangeEnd(number, step, sideItemsCount);
    var k := number / step;
    MulMono(0, sideItemsCount, step);
    CountdownLength(end, step);
    ShiftByMultiple(number, step, sideItemsCount);
    DivUnique(end, step, k + sideItemsCount);
  }

  /** The visible window: one centre item with `sideItemsCount` items on each side. */
  function DisplayedItemsCount(sideItemsCount: int): (n: int)
    ensures n % 2 == 1 && n / 2 == sideItemsCount
  {
    1 + sideItemsCount * 2
  }

  /** The directions whose strip travels towards positive coordinates. */
  predicate Forward(d: Direction) {
    d == Btt || d == Rtl
  }

  /** Whether the strip scrolls along the vertical axis: exactly the
      directions that are laid out as a column. */
  predicate IsVertical(d: Direction)
    ensures IsVertical(d) <==> Flex(d) == Column || Flex(d) == ColumnReverse
  {
    d == Btt || d == Ttb
  }

  /** The flex direction the strip is laid out with, per scroll direction.
      The layout is reversed exactly
      for the directions that travel towards negative coordinates. */
  function Flex(d: Direction): (f: FlexDirection)
    ensures (f == RowReverse || f == ColumnReverse) <==> !Forward(d)
  {
    match d
    case Btt => Column
    case Ttb => ColumnReverse
    case Rtl => Row
    case Ltr => RowReverse
  }

  /** From start to end the strip moves `rangeLength - 1 - sideItemsCount` items. */
  lemma TravelPlusOffset(itemsSize: int, sideItemsCount: int, rangeLength: int)
    ensures itemsSize * (rangeLength - DisplayedItemsCount(sideItemsCount)) + itemsSize * sideItemsCount
            == itemsSize * (rangeLength - 1 - sideItemsCount)
  {
  }

  /** Every direction has its own layout. */
  lemma FlexInjective(d: Direction, e: Direction)
    ensures Flex(d) == Flex(e) ==> d == e
  {
  }

  /** Start and end position of the strip. The start is `itemsSize * sideItemsCount`
      away from the origin; the end is the travel across the items that do not fit
      in the window. Bottom-to-top and right-to-left start on the negative side. */
  function StartAndEnd(d: Direction, itemsSize: int, sideItemsCount: int, rangeLength: int): (p: Positions)
    ensures p.initial == if Forward(d) then -(itemsSize * sideItemsCount) else itemsSize * sideItemsCount
    ensures p.final - p.initial
            == if Forward(d) then itemsSize * (rangeLength - 1 - sideItemsCount)
               else -(itemsSize * (rangeLength - 1 - sideItemsCount))
    ensures Abs(p.initial) == Abs(itemsSize * sideItemsCount)
    ensures Abs(p.final) == Abs(itemsSize * (rangeLength - DisplayedItemsCount(sideItemsCount)))
    ensures p.initial + p.final == 0 <==> itemsSize * sideItemsCount == itemsSize * (rangeLength - DisplayedItemsCount(sideItemsCount))
  {
    var initialOffset := itemsSize * sideItemsCount;
    var travel := itemsSize * (rangeLength - DisplayedItemsCount(sideItemsCount));
    TravelPlusOffset(itemsSize, sideItemsCount, rangeLength);
    match d
    case Btt => Positions(-initialOffset, travel)
    case Ttb => Positions(initialOffset, -travel)
    case Rtl => Positions(-initialOffset, travel)
    case Ltr => Positions(initialOffset, -travel)
  }

  /** The position table depends on the axis only through the sense of travel:
      each direction mirrors its opposite, and the two axes share their table. */
  lemma PositionsMirror(itemsSize: int, sideItemsCount: int, rangeLength: int)
    ensures var btt := StartAndEnd(Btt, itemsSize, sideItemsCount, rangeLength);
            var ttb := StartAndEnd(Ttb, itemsSize, sideItemsCount, rangeLength);
            ttb == Positions(-btt.initial, -btt.final)
    ensures StartAndEnd(Rtl, itemsSize, sideItemsCount, rangeLength) == StartAndEnd(Btt, itemsSize, sideItemsCount, rangeLength)
    ensures StartAndEnd(Ltr, itemsSize, sideItemsCount, rangeLength) == StartAndEnd(Ttb, itemsSize, sideItemsCount, rangeLength)
  {
  }

  /** With a positive item size and side count, the strip starts on the
      positive side exactly when its layout is reversed. */
  lemma StartAgreesWithLayout(d: Direction, itemsSize: int, sideItemsCount: int, rangeLength: int)
    requires itemsSize > 0 && sideItemsCount > 0
    ensures StartAndEnd(d, itemsSize, sideItemsCount, rangeLength).initial > 0 <==> Flex(d) in {RowReverse, ColumnReverse}
  {
  }

  /** `Math.round`: the nearest integer, halves rounded up. */
  function RoundHalfUp(x: real): (r: int)
    ensures r as real - 0.5 <= x < r as real + 0.5
  {
    (x + 0.5).Floor
  }

  /** The value snapped from a strip position: the index computed from the
      distance to the origin (the absolute value of the position, so both
      sides of the origin snap alike), rounded, times the step. For a positive step it is a multiple
      of the step, never below the `sideItemsCount` steps the window adds,
      and its quotient by the step is the index rounded to the nearest
      integer, halves up. */
  function SnappedValue(position: int, itemsSize: int, sideItemsCount: int, step: int): (v: int)
    requires itemsSize > 0
    ensures step > 0 ==> v % step == 0 && v >= sideItemsCount * step
    ensures step > 0 ==>
              var index := Abs(position) as real / itemsSize as real + sideItemsCount as real;
              (v / step) as real - 0.5 <= index < (v / step) as real + 0.5
  {
    var index := Abs(position) as real / itemsSize as real + sideItemsCount as real;
    var k := RoundHalfUp(index);
    RoundedIndexAtLeastSide(position, itemsSize, sideItemsCount);
    if step > 0 then MulMono(sideItemsCount, k, step); MultipleMod(k, step); k * step else k * step
  }

  /** The rounded index never falls below the side count. */
  lemma RoundedIndexAtLeastSide(position: int, itemsSize: int, sideItemsCount: int)
    requires itemsSize > 0
    ensures RoundHalfUp(Abs(position) as real / itemsSize as real + sideItemsCount as real) >= sideItemsCount
  {
    var q := Abs(position) as real / itemsSize as real;
    assert q >= 0.0;
  }

  /** A multiple of a positive `m` leaves no remainder, and dividing it by `m` gives back `k`. */
  lemma MultipleMod(k: int, m: int)
    requires m > 0
    ensures (k * m) / m == k && (k * m) % m == 0
  {
    DivUnique(k * m, m, k);
  }

  /** The clamp applied before a snapped value is reported. */
  function Bounded(val: int, number: int): (r: int)
    ensures number >= 0 ==> 0 <= r <= number
    ensures 0 <= val <= number ==> r == val
  {
    if val < 0 then 0 else if val > number then number else val
  }

  /** For a non-negative target the clamp is the projection onto `[0, number]`:
      no point of the interval is nearer to the snapped value. */
  lemma BoundedIsNearest(val: int, number: int, x: int)
    requires number >= 0 && 0 <= x <= number
    ensures Abs(Bounded(val, number) - val) <= Abs(x - val)
    ensures Bounded(Bounded(val, number), number) == Bounded(val, number)
  {
  }

  /** The value reported when the strip rests at `position`: the snapped
      value when it lies in `[0, number]`, otherwise the nearer bound. */
  function ReportedValue(position: int, number: int, step: int, itemsSize: int, sideItemsCount: int): (v: int)
    requires itemsSize > 0
    ensures number >= 0 ==> 0 <= v <= number
    ensures v == SnappedValue(position, itemsSize, sideItemsCount, step) || v == 0 || v == number
    ensures 0 <= SnappedValue(position, itemsSize, sideItemsCount, step) <= number ==> v == SnappedValue(position, itemsSize, sideItemsCount, step)
  {
    Bounded(SnappedValue(position, itemsSize, sideItemsCount, step), number)
  }

  /** At a position a whole number of items from the origin, on either side,
      the index is exact and the snapped value is that index times the step. */
  lemma SnapAtItem(n: nat, itemsSize: int, sideItemsCount: int, step: int)
    requires itemsSize > 0
    ensures SnappedValue(itemsSize * n, itemsSize, sideItemsCount, step) == (n + sideItemsCount) * step
    ensures SnappedValue(-(itemsSize * n), itemsSize, sideItemsCount, step) == (n + sideItemsCount) * step
  {
    var index := (itemsSize * n) as real / itemsSize as real + sideItemsCount as real;
    assert (itemsSize * n) as real == itemsSize as real * n as real;
    assert index == (n + sideItemsCount) as real;
  }

  /** The initial position is `sideItemsCount` items from the origin, so the
      value snapped there is `2 * sideItemsCount` steps, not the first value
      of the window: both the side offset and the distance count. */
  lemma SnapAtStart(d: Direction, itemsSize: int, sideItemsCount: int, rangeLength: int, step: int)
    requires itemsSize > 0 && sideItemsCount >= 0
    ensures SnappedValue(StartAndEnd(d, itemsSize, sideItemsCount, rangeLength).initial, itemsSize, sideItemsCount, step)
            == 2 * sideItemsCount * step
  {
    SnapAtItem(sideItemsCount, itemsSize, sideItemsCount, step);
  }

  /** The final position lies on an item boundary: `|number / step - sideItemsCount|` items from the origin. */
  lemma FinalOnItem(d: Direction, number: int, step: int, itemsSize: int, sideItemsCount: int)
    requires number >= 0 && step > 0 && itemsSize > 0 && sideItemsCount >= 0
    ensures var range := Countdown(RangeEnd(number, step, sideItemsCount), step);
            var p := StartAndEnd(d, itemsSize, sideItemsCount, |range|);
            var n := Abs(number / step - sideItemsCount);
            p.final == itemsSize * n || p.final == -(itemsSize * n)
  {
    var k := number / step;
    RangeLength(number, step, sideItemsCount);
    var len := |Countdown(RangeEnd(number, step, sideItemsCount), step)|;
    assert len - DisplayedItemsCount(sideItemsCount) == k - sideItemsCount;
    var p := StartAndEnd(d, itemsSize, sideItemsCount, len);
    assert Abs(p.final) == Abs(itemsSize * (k - sideItemsCount));
    if k < sideItemsCount {
      assert itemsSize * (k - sideItemsCount) == -(itemsSize * (sideItemsCount - k));
      MulMono(0, sideItemsCount - k, itemsSize);
    } else {
      MulMono(0, k - sideItemsCount, itemsSize);
    }
  }

  /** The clamp applied to the value snapped at the final position. */
  lemma ClampAtFinal(number: int, step: int, sideItemsCount: int)
    requires number >= 0 && step > 0 && sideItemsCount >= 0
    ensures var k := number / step;
            var snapped := (Abs(k - sideItemsCount) + sideItemsCount) * step;
            && Bounded(snapped, number) == (if k >= sideItemsCount then k * step else number)
            && (number % step == 0 ==> Bounded(snapped, number) == number)
  {
    var k := number / step;
    var n := Abs(k - sideItemsCount);
    assert number == k * step + number % step;
    if k >= sideItemsCount {
      assert n + sideItemsCount == k;
      MulMono(0, k, step);
    } else {
      MulMono(k + 1, n + sideItemsCount, step);
      assert (k + 1) * step == k * step + step;
    }
  }

  /** Where the strip comes to rest, in every direction: the reported value is
      the largest multiple of `step` not above `number` when
      `number / step >= sideItemsCount`, and `number` itself (through the
      clamp) otherwise. So a `number` that is a multiple of
      `step` is always reported exactly. */
  lemma FinalReport(d: Direction, number: int, step: int, itemsSize: int, sideItemsCount: int)
    requires number >= 0 && step > 0 && itemsSize > 0 && sideItemsCount >= 0
    ensures var range := Countdown(RangeEnd(number, step, sideItemsCount), step);
            var p := StartAndEnd(d, itemsSize, sideItemsCount, |range|);
            var k := number / step;
            && ReportedValue(p.final, number, step, itemsSize, sideItemsCount)
               == (if k >= sideItemsCount then k * step else number)
            && (number % step == 0 ==> ReportedValue(p.final, number, step, itemsSize, sideItemsCount) == number)
  {
    FinalOnItem(d, number, step, itemsSize, sideItemsCount);
    var n: nat := Abs(number / step - sideItemsCount);
    SnapAtItem(n, itemsSize, sideItemsCount, step);
    ClampAtFinal(number, step, sideItemsCount);
  }
}
