/** Room for a batch of cards below what is in its way, and the size of a card. */
module CanvasPlacement {
  import opened Basics

  datatype Rect = Rect(x: real, y: real, w: real, h: real)

  datatype Bounds = Bounds(left: real, top: real, right: real, bottom: real)

  /** The edges of a batch: each one reached by some member and passed by none. */
  predicate Frames(b: Bounds, batch: seq<Rect>) {
    && (forall i :: 0 <= i < |batch| ==>
          && b.left <= batch[i].x && batch[i].x + batch[i].w <= b.right
          && b.top <= batch[i].y && batch[i].y + batch[i].h <= b.bottom)
    && (exists i :: 0 <= i < |batch| && b.left == batch[i].x)
    && (exists i :: 0 <= i < |batch| && b.top == batch[i].y)
    && (exists i :: 0 <= i < |batch| && b.right == batch[i].x + batch[i].w)
    && (exists i :: 0 <= i < |batch| && b.bottom == batch[i].y + batch[i].h)
  }

  /** Closer than `gap` sideways, at whatever height. */
  predicate InLine(b: Bounds, r: Rect, gap: real) {
    b.left < r.x + r.w + gap && b.right + gap > r.x
  }

  /** Closer than `gap` both ways once the batch has moved down by `y`. */
  predicate Blocks(b: Bounds, y: real, r: Rect, gap: real) {
    InLine(b, r, gap) && b.top + y < r.y + r.h + gap && b.bottom + y + gap > r.y
  }

  /** How far down the batch must go to get past `r`. */
  function Past(b: Bounds, r: Rect, gap: real): real {
    r.y + r.h + gap - b.top
  }

  predicate Clear(b: Bounds, y: real, occupied: seq<Rect>, gap: real) {
    forall i :: 0 <= i < |occupied| ==> !Blocks(b, y, occupied[i], gap)
  }

  /** The first clear place going down from where the batch is. */
  ghost predicate LeastClear(b: Bounds, y: real, occupied: seq<Rect>, gap: real) {
    && 0.0 <= y
    && Clear(b, y, occupied, gap)
    && forall lower: real :: 0.0 <= lower < y ==> !Clear(b, lower, occupied, gap)
  }

  /** What can still block at `y` or further down. */
  ghost function Ahead(b: Bounds, y: real, occupied: seq<Rect>, gap: real): set<nat> {
    set i | 0 <= i < |occupied| && InLine(b, occupied[i], gap) && y < Past(b, occupied[i], gap)
  }

  method BoundsOf(proposed: seq<Rect>) returns (b: Bounds)
    requires proposed != []
    ensures Frames(b, proposed)
  {
    var first := proposed[0];
    b := Bounds(first.x, first.y, first.x + first.w, first.y + first.h);
    for k := 1 to |proposed|
      invariant Frames(b, proposed[..k])
    {
      var rect := proposed[k];
      ghost var before := b;
      b := Bounds(Min(b.left, rect.x), Min(b.top, rect.y), Max(b.right, rect.x + rect.w), Max(b.bottom, rect.y + rect.h));
      FramesGrow(before, b, proposed, k);
    }
    assert proposed[..|proposed|] == proposed;
  }

  lemma FramesGrow(before: Bounds, b: Bounds, proposed: seq<Rect>, k: nat)
    requires k < |proposed| && Frames(before, proposed[..k])
    requires var r := proposed[k];
      b == Bounds(Min(before.left, r.x), Min(before.top, r.y), Max(before.right, r.x + r.w), Max(before.bottom, r.y + r.h))
    ensures Frames(b, proposed[..k + 1])
  {
    var front, more := proposed[..k], proposed[..k + 1];
    assert forall i :: 0 <= i < k ==> more[i] == front[i];
    assert more[k] == proposed[k];
  }

  lemma FrameReaches(a: Bounds, b: Bounds, batch: seq<Rect>)
    requires Frames(a, batch) && Frames(b, batch)
    ensures b.left <= a.left && b.top <= a.top && a.right <= b.right && a.bottom <= b.bottom
  {
    var i :| 0 <= i < |batch| && a.left == batch[i].x;
    var j :| 0 <= j < |batch| && a.top == batch[j].y;
    var k :| 0 <= k < |batch| && a.right == batch[k].x + batch[k].w;
    var l :| 0 <= l < |batch| && a.bottom == batch[l].y + batch[l].h;
  }

  /** A batch has one frame. */
  lemma FrameIsOne(a: Bounds, b: Bounds, batch: seq<Rect>)
    requires Frames(a, batch) && Frames(b, batch)
    ensures a == b
  {
    hide Frames;
    FrameReaches(a, b, batch);
    FrameReaches(b, a, batch);
  }

  /** The gap is kept on one side: left, right, above or below. */
  predicate KeepsOff(b: Bounds, y: real, r: Rect, gap: real) {
    || r.x + r.w + gap <= b.left || b.right + gap <= r.x
    || r.y + r.h + gap <= b.top + y || b.bottom + y + gap <= r.y
  }

  /** The batch, grown by the gap, and the rectangle have points in common on both axes. */
  predicate Meets(b: Bounds, y: real, r: Rect, gap: real) {
    && b.left - gap < r.x + r.w && r.x < b.right + gap
    && b.top + y - gap < r.y + r.h && r.y < b.bottom + y + gap
  }

  /** A rectangle is in the way exactly if the gap is kept on no side. */
  lemma BlocksExactlyWhen(b: Bounds, y: real, r: Rect, gap: real)
    ensures Blocks(b, y, r, gap) <==> !KeepsOff(b, y, r, gap)
    ensures Blocks(b, y, r, gap) <==> Meets(b, y, r, gap)
  {
  }

  /** Some rectangle is closer than the gap on both axes. */
  predicate MeetsOne(b: Bounds, y: real, occupied: seq<Rect>, gap: real) {
    exists i :: 0 <= i < |occupied| && Meets(b, y, occupied[i], gap)
  }

  /** A place is clear exactly if nothing is too close. */
  lemma ClearExactlyWhen(b: Bounds, y: real, occupied: seq<Rect>, gap: real)
    ensures Clear(b, y, occupied, gap) <==> !MeetsOne(b, y, occupied, gap)
    ensures Clear(b, y, occupied, gap) <==> forall i :: 0 <= i < |occupied| ==> KeepsOff(b, y, occupied[i], gap)
  {
    forall i | 0 <= i < |occupied|
      ensures Blocks(b, y, occupied[i], gap) <==> Meets(b, y, occupied[i], gap)
      ensures Blocks(b, y, occupied[i], gap) <==> !KeepsOff(b, y, occupied[i], gap)
    {
      BlocksExactlyWhen(b, y, occupied[i], gap);
    }
  }

  /** There is only one least clear place. */
  lemma LeastIsOne(b: Bounds, y: real, z: real, occupied: seq<Rect>, gap: real)
    requires LeastClear(b, y, occupied, gap) && LeastClear(b, z, occupied, gap)
    ensures y == z
  {
    assert y < z ==> !Clear(b, y, occupied, gap);
  }

  /** What keeps the gap to the left or to the right of the batch makes no difference to where it goes. */
  lemma AsideIsNoMatter(b: Bounds, y: real, occupied: seq<Rect>, r: Rect, gap: real)
    requires r.x + r.w + gap <= b.left || b.right + gap <= r.x
    ensures LeastClear(b, y, occupied + [r], gap) <==> LeastClear(b, y, occupied, gap)
  {
    forall at: real ensures Clear(b, at, occupied + [r], gap) <==> Clear(b, at, occupied, gap) {
      BlocksExactlyWhen(b, at, r, gap);
      var more := occupied + [r];
      assert more[|occupied|] == r;
      assert forall i :: 0 <= i < |occupied| ==> more[i] == occupied[i];
    }
  }

  /** Everything passed by jumping over a blocker is blocked by it all the way. */
  lemma BlockedOnTheWay(b: Bounds, y: real, r: Rect, gap: real, lower: real)
    requires Blocks(b, y, r, gap) && y <= lower < Past(b, r, gap)
    ensures Blocks(b, lower, r, gap)
  {
  }

  /** The returned shift is straight down, to the least clear place; each jump leaves a blocker behind for good. */
  method FindFreeCanvasPlacement(proposed: seq<Rect>, occupied: seq<Rect>, gap: real)
    returns (x: real, y: real, ghost b: Bounds)
    ensures x == 0.0
    ensures proposed == [] ==> y == 0.0
    ensures proposed != [] ==> Frames(b, proposed) && LeastClear(b, y, occupied, gap)
    ensures proposed != [] ==> forall i :: 0 <= i < |occupied| ==> KeepsOff(b, y, occupied[i], gap)
    ensures forall lower: real :: 0.0 <= lower < y ==> MeetsOne(b, lower, occupied, gap)
    ensures y == 0.0 || exists i :: 0 <= i < |occupied| && y == occupied[i].y + occupied[i].h + gap - b.top
  {
    b := Bounds(0.0, 0.0, 0.0, 0.0);
    if |proposed| == 0 {
      return 0.0, 0.0, b;
    }
    var bounds := BoundsOf(proposed);
    b := bounds;
    x, y := 0.0, 0.0;
    while true
      invariant b == bounds && x == 0.0 <= y
      invariant forall lower: real :: 0.0 <= lower < y ==> !Clear(b, lower, occupied, gap)
      invariant y == 0.0 || exists i :: 0 <= i < |occupied| && InLine(b, occupied[i], gap) && y == Past(b, occupied[i], gap)
      decreases Ahead(b, y, occupied, gap)
    {
      var nextY := y;
      ghost var last := 0;
      for k := 0 to |occupied|
        invariant y <= nextY
        invariant forall i :: 0 <= i < k && Blocks(b, y, occupied[i], gap) ==> y < nextY
        invariant y < nextY ==> last < k && Blocks(b, y, occupied[last], gap) && nextY == Past(b, occupied[last], gap)
      {
        if Blocks(bounds, y, occupied[k], gap) {
          if nextY < Past(bounds, occupied[k], gap) {
            last := k;
          }
          nextY := Max(nextY, Past(bounds, occupied[k], gap));
        }
      }
      if nextY == y {
        ClearExactlyWhen(b, y, occupied, gap);
        forall lower: real | 0.0 <= lower < y ensures MeetsOne(b, lower, occupied, gap) {
          ClearExactlyWhen(b, lower, occupied, gap);
        }
        return;
      }
      forall lower: real | y <= lower < nextY ensures !Clear(b, lower, occupied, gap) {
        BlockedOnTheWay(b, y, occupied[last], gap, lower);
      }
      assert last in Ahead(b, y, occupied, gap) && last !in Ahead(b, nextY, occupied, gap);
      y := nextY;
    }
  }

  /** At a clear place every member of the batch, moved down, keeps the gap from everything there already. */
  lemma ClearSeparates(b: Bounds, proposed: seq<Rect>, y: real, occupied: seq<Rect>, gap: real, p: nat, o: nat)
    requires Frames(b, proposed) && Clear(b, y, occupied, gap) && p < |proposed| && o < |occupied|
    ensures var m, r := proposed[p], occupied[o];
      || r.x + r.w + gap <= m.x || m.x + m.w + gap <= r.x
      || r.y + r.h + gap <= m.y + y || m.y + y + m.h + gap <= r.y
  {
    assert !Blocks(b, y, occupied[o], gap);
  }

  /** Placing again, from where the batch came to rest, does not move it. */
  lemma PlacingAgainStays(b: Bounds, y: real, again: real, occupied: seq<Rect>, gap: real)
    requires LeastClear(b, y, occupied, gap)
    requires LeastClear(Bounds(b.left, b.top + y, b.right, b.bottom + y), again, occupied, gap)
    ensures again == 0.0
  {
    var moved := Bounds(b.left, b.top + y, b.right, b.bottom + y);
    forall i | 0 <= i < |occupied| ensures !Blocks(moved, 0.0, occupied[i], gap) {
      assert !Blocks(b, y, occupied[i], gap);
    }
    assert Clear(moved, 0.0, occupied, gap);
  }

  // ---------------------------------------------------------------- card sizes

  const TEXT_CARD_WIDTH := 300.0
  const TEXT_CARD_HEIGHT := 210.0
  const MEDIA_CARD_WIDTH := 360.0
  const MEDIA_CARD_HEIGHT := 240.0
  const MIN_MEDIA_CARD_SIZE := 32.0

  datatype Kind = Media(natural: Option<(real, real)>) | Text | Other

  function Round(x: real): real {
    (x + 0.5).Floor as real
  }

  function Scaled(side: real, scale: real): real {
    side * scale
  }

  /** The scale at which a side is as long as `target`. */
  function Fitting(side: real, target: real): real
    requires side > 0.0
  {
    target / side
  }

  function ScaleOf(w: real, h: real): real
    requires w > 0.0 && h > 0.0
  {
    var fit := Min(1.0, Min(Fitting(w, MEDIA_CARD_WIDTH), Fitting(h, MEDIA_CARD_HEIGHT)));
    var least := Fitting(Min(w, h), MIN_MEDIA_CARD_SIZE);
    if Scaled(w, least) <= MEDIA_CARD_WIDTH && Scaled(h, least) <= MEDIA_CARD_HEIGHT then Max(fit, least) else fit
  }

  function NodeCardSize(kind: Kind, width: real, height: real): (real, real) {
    match kind
    case Media(Some(natural)) =>
      var (w, h) := natural;
      if w > 0.0 && h > 0.0 then
        (Max(1.0, Round(Scaled(w, ScaleOf(w, h)))), Max(1.0, Round(Scaled(h, ScaleOf(w, h)))))
      else (MEDIA_CARD_WIDTH, MEDIA_CARD_HEIGHT)
    case Media(None) => (MEDIA_CARD_WIDTH, MEDIA_CARD_HEIGHT)
    case Other => (width, height)
    case Text => (Max(width, TEXT_CARD_WIDTH), Max(height, TEXT_CARD_HEIGHT))
  }

  lemma Under(side: real, scale: real, target: real)
    requires side > 0.0
    ensures Scaled(side, scale) <= target <==> scale <= Fitting(side, target)
    ensures Scaled(side, scale) == target <==> scale == Fitting(side, target)
    ensures 0.0 < target ==> 0.0 < Fitting(side, target)
  {
    var exact := Fitting(side, target);
    assert side * exact == target;
    if scale <= exact {
      assert side * scale <= side * exact;
    } else {
      assert side * scale > side * exact;
    }
  }

  lemma Proportion(side: real, short: real, target: real, limit: real)
    requires 0.0 < short
    ensures Scaled(side, Fitting(short, target)) <= limit <==> target * side <= limit * short
  {
    var scale := Fitting(short, target);
    assert scale * short == target;
    assert target * side == (scale * side) * short;
    if scale * side <= limit {
      assert (scale * side) * short <= limit * short;
    } else {
      assert (scale * side) * short > limit * short;
    }
  }

  /**
   * A picture fits the largest card; it is shrunk only as far as that needs, and enlarged only if it
   * is small; and both sides come out readable exactly when it is at most 11.25 times as wide as its
   * shorter side, and at most 7.5 times as high.
   */
  lemma ScaleFits(w: real, h: real)
    requires w > 0.0 && h > 0.0
    ensures var s, short := ScaleOf(w, h), Min(w, h);
      && 0.0 < s && Scaled(w, s) <= MEDIA_CARD_WIDTH && Scaled(h, s) <= MEDIA_CARD_HEIGHT
      && (s < 1.0 ==> Scaled(w, s) == MEDIA_CARD_WIDTH || Scaled(h, s) == MEDIA_CARD_HEIGHT)
      && (1.0 < s ==> short < MIN_MEDIA_CARD_SIZE && Scaled(short, s) == MIN_MEDIA_CARD_SIZE)
      && (MIN_MEDIA_CARD_SIZE <= Scaled(short, s) <==> w <= 11.25 * short && h <= 7.5 * short)
  {
    hide Scaled, Fitting;
    var s := ScaleOf(w, h);
    var short := Min(w, h);
    var least := Fitting(short, MIN_MEDIA_CARD_SIZE);
    Under(w, s, MEDIA_CARD_WIDTH);
    Under(h, s, MEDIA_CARD_HEIGHT);
    Under(short, s, MIN_MEDIA_CARD_SIZE);
    Under(w, least, MEDIA_CARD_WIDTH);
    Under(h, least, MEDIA_CARD_HEIGHT);
    Under(short, 1.0, MIN_MEDIA_CARD_SIZE);
    Proportion(w, short, MIN_MEDIA_CARD_SIZE, MEDIA_CARD_WIDTH);
    Proportion(h, short, MIN_MEDIA_CARD_SIZE, MEDIA_CARD_HEIGHT);
    Unscaled(short);
  }

  lemma Unscaled(side: real)
    ensures Scaled(side, 1.0) == side
  {
  }

  /** The whole number at most half a unit away, but never less than one. */
  predicate Nearest(exact: real, shown: real) {
    shown.Floor as real == shown && if exact < 0.5 then shown == 1.0 else -0.5 <= exact - shown < 0.5
  }

  lemma NearestIsOne(exact: real, a: real, b: real)
    requires Nearest(exact, a) && Nearest(exact, b)
    ensures a == b
  {
    var m, n := a.Floor, b.Floor;
    assert a == m as real && b == n as real;
    assert exact >= 0.5 ==> a - b < 1.0 && b - a < 1.0;
    assert m < n ==> (n - m) as real == b - a;
    assert n < m ==> (m - n) as real == a - b;
  }

  /** Text cards are the least card that is neither smaller than before nor than its least size; others stay. */
  lemma OtherCardsFit(width: real, height: real)
    ensures NodeCardSize(Other, width, height) == (width, height)
    ensures var (w, h) := NodeCardSize(Text, width, height);
      && width <= w && TEXT_CARD_WIDTH <= w && (w == width || w == TEXT_CARD_WIDTH)
      && height <= h && TEXT_CARD_HEIGHT <= h && (h == height || h == TEXT_CARD_HEIGHT)
  {
  }

  /** Cards of pictures are between one unit and the largest card. */
  lemma CardFits(kind: Kind, width: real, height: real)
    requires kind.Media?
    ensures var (w, h) := NodeCardSize(kind, width, height);
      && 1.0 <= w <= MEDIA_CARD_WIDTH && 1.0 <= h <= MEDIA_CARD_HEIGHT
      && (kind.natural.None? ==> w == MEDIA_CARD_WIDTH && h == MEDIA_CARD_HEIGHT)
      && (kind.natural.Some? && !(kind.natural.value.0 > 0.0 && kind.natural.value.1 > 0.0) ==>
            w == MEDIA_CARD_WIDTH && h == MEDIA_CARD_HEIGHT)
      && (kind.natural.Some? && kind.natural.value.0 > 0.0 && kind.natural.value.1 > 0.0 ==>
            var s := ScaleOf(kind.natural.value.0, kind.natural.value.1);
            && Nearest(Scaled(kind.natural.value.0, s), w) && Nearest(Scaled(kind.natural.value.1, s), h))
  {
    hide ScaleOf, Scaled;
    match kind
    case Media(Some(natural)) =>
      if natural.0 > 0.0 && natural.1 > 0.0 {
        ScaleFits(natural.0, natural.1);
      }
    case Media(None) =>
  }
}
