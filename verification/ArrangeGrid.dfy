/** The shape of an arrangement, read off its placements: rows and columns, labels, and where each group starts. */
module ArrangeGrid {
  import opened Basics
  import opened CodeUnits
  import opened ArrangePlan
  import opened ArrangeGeometry

  // ---------------------------------------------------------------- the placements of one group

  /** Where the run of placements of one group begins that placement `a` is in. */
  function StartOf(groups: seq<Group>, layout: seq<Placement>, a: nat): (r: nat)
    requires a < |layout|
    ensures r <= a
  {
    if a > 0 && SameGroup(groups, layout[a - 1], layout[a]) then StartOf(groups, layout, a - 1) else a
  }

  /** Where that run ends. */
  function EndOf(groups: seq<Group>, layout: seq<Placement>, a: nat): (r: nat)
    requires a < |layout|
    ensures a < r <= |layout|
    decreases |layout| - a
  {
    if a + 1 < |layout| && SameGroup(groups, layout[a], layout[a + 1]) then EndOf(groups, layout, a + 1) else a + 1
  }

  function GroupSize(groups: seq<Group>, layout: seq<Placement>, a: nat): nat
    requires a < |layout|
  {
    EndOf(groups, layout, a) - StartOf(groups, layout, a)
  }

  /** How many columns the group of placement `a` has; only listed ids are ever placed. */
  function ColumnsOf(groups: seq<Group>, layout: seq<Placement>, a: nat): (r: nat)
    requires a < |layout|
    ensures r >= 1
  {
    if FirstListing(groups, layout[a].elementId) == |groups| then 1
    else ColumnCount(groups[FirstListing(groups, layout[a].elementId)].columns, GroupSize(groups, layout, a))
  }

  lemma {:induction false} StartIs(groups: seq<Group>, layout: seq<Placement>, start: nat, a: nat)
    requires start <= a < |layout|
    requires forall n :: start <= n <= a ==> SameGroup(groups, layout[n], layout[a])
    requires start > 0 ==> !SameGroup(groups, layout[start - 1], layout[start])
    ensures StartOf(groups, layout, a) == start
    decreases a
  {
    if start < a {
      StartIs(groups, layout, start, a - 1);
    }
  }

  lemma {:induction false} EndIs(groups: seq<Group>, layout: seq<Placement>, a: nat, end: nat)
    requires a < end <= |layout|
    requires forall n :: a <= n < end ==> SameGroup(groups, layout[a], layout[n])
    requires end < |layout| ==> !SameGroup(groups, layout[end - 1], layout[end])
    ensures EndOf(groups, layout, a) == end
    decreases end - a
  {
    if a + 1 < end {
      EndIs(groups, layout, a + 1, end);
    }
  }

  /** Block `k` of the plan is the group of its placements. */
  ghost predicate IsBlock(groups: seq<Group>, boxes: seq<Box>, a: nat, f: Frame, k: nat, i: nat) {
    var blocks, layout := BlocksOf(groups, boxes), LayoutOf(groups, boxes);
    && AllWellShaped(blocks) && Flat(blocks) != [] && f == FrameOf(Flat(blocks), boxes)
    && f.cellGap == CellGap(Flat(blocks)) && f.groupGap == GroupGap(Flat(blocks))
    && k < |blocks| && i < |blocks[k].members| && a == |Flat(blocks[..k])| + i < |layout|
    && layout[a] == PlaceMember(blocks[k], BlockLeft(blocks, k, f), i, f)
    && BlockOk(groups, boxes, blocks[k], Origins(groups, boxes)[k])
  }

  lemma BlockOf(groups: seq<Group>, boxes: seq<Box>, a: nat) returns (f: Frame, k: nat, i: nat)
    requires a < |LayoutOf(groups, boxes)|
    ensures IsBlock(groups, boxes, a, f, k, i)
  {
    hide BlocksOf, Origins, Flat, FrameOf, PlaceMember, BlockLeft, BlockOk, LayoutOf, CellGap, GroupGap;
    f, k, i := PlacementFrom(groups, boxes, a);
  }

  lemma InBlock(groups: seq<Group>, boxes: seq<Box>, a: nat, f: Frame, k: nat, i: nat, j: nat)
    requires IsBlock(groups, boxes, a, f, k, i) && j < |BlocksOf(groups, boxes)[k].members|
    ensures IsBlock(groups, boxes, a - i + j, f, k, j)
  {
    hide BlocksOf, Origins, Flat, FrameOf, PlaceMember, BlockLeft, BlockOk, CellGap, GroupGap, AllWellShaped, PlaceAll;
    var blocks := BlocksOf(groups, boxes);
    PlacedAt(blocks, |blocks|, f, k, j);
  }

  lemma BlockOrigin(groups: seq<Group>, boxes: seq<Box>, a: nat, f: Frame, k: nat, i: nat)
    requires IsBlock(groups, boxes, a, f, k, i)
    ensures k < |Origins(groups, boxes)| && Origins(groups, boxes)[k] < |groups|
    ensures FirstListing(groups, LayoutOf(groups, boxes)[a].elementId) == Origins(groups, boxes)[k]
  {
    hide BlocksOf, Origins, Flat, FrameOf, BlockLeft, CellGap, GroupGap, LayoutOf, FirstListing;
  }

  lemma SameBlock(groups: seq<Group>, boxes: seq<Box>, a: nat, f: Frame, k: nat, i: nat, b: nat, g: Frame, l: nat,
      j: nat)
    requires IsBlock(groups, boxes, a, f, k, i) && IsBlock(groups, boxes, b, g, l, j)
    ensures f == g
    ensures SameGroup(groups, LayoutOf(groups, boxes)[a], LayoutOf(groups, boxes)[b]) <==> k == l
  {
    hide BlocksOf, Origins, Flat, FrameOf, PlaceMember, BlockLeft, BlockOk, CellGap, GroupGap, LayoutOf, FirstListing;
    BlockOrigin(groups, boxes, a, f, k, i);
    BlockOrigin(groups, boxes, b, g, l, j);
    PlanIs(groups, boxes);
  }

  lemma BlockBasics(groups: seq<Group>, boxes: seq<Box>, a: nat, f: Frame, k: nat, i: nat)
    requires IsBlock(groups, boxes, a, f, k, i)
    ensures k < |BlocksOf(groups, boxes)| && i < |BlocksOf(groups, boxes)[k].members|
    ensures a < |LayoutOf(groups, boxes)| && i <= a && a - i == |Flat(BlocksOf(groups, boxes)[..k])|
    ensures k < |Origins(groups, boxes)| && Origins(groups, boxes)[k] < |groups|
    ensures BlockOk(groups, boxes, BlocksOf(groups, boxes)[k], Origins(groups, boxes)[k])
  {
    hide BlocksOf, Origins, Flat, FrameOf, BlockLeft, BlockOk, CellGap, GroupGap, LayoutOf;
  }

  /** What lies outside the run of a block is of another group. */
  lemma OutsideBlock(groups: seq<Group>, boxes: seq<Box>, a: nat, f: Frame, k: nat, i: nat, n: nat)
    requires IsBlock(groups, boxes, a, f, k, i) && n < |LayoutOf(groups, boxes)|
    requires i <= a && k < |BlocksOf(groups, boxes)|
    requires n < a - i || a - i + |BlocksOf(groups, boxes)[k].members| <= n
    ensures !SameGroup(groups, LayoutOf(groups, boxes)[n], LayoutOf(groups, boxes)[a])
  {
    hide BlocksOf, Origins, Flat, LayoutOf, FirstListing, IsBlock, SameGroup;
    var g, l, j := BlockOf(groups, boxes, n);
    BlockBasics(groups, boxes, a, f, k, i);
    BlockBasics(groups, boxes, n, g, l, j);
    SameBlock(groups, boxes, n, g, l, j, a, f, k, i);
  }

  lemma InsideBlockSame(groups: seq<Group>, boxes: seq<Box>, a: nat, f: Frame, k: nat, i: nat, n: nat)
    requires IsBlock(groups, boxes, a, f, k, i) && i <= a && k < |BlocksOf(groups, boxes)|
    requires a - i <= n < a - i + |BlocksOf(groups, boxes)[k].members|
    ensures n < |LayoutOf(groups, boxes)|
    ensures SameGroup(groups, LayoutOf(groups, boxes)[n], LayoutOf(groups, boxes)[a])
  {
    hide BlocksOf, Origins, Flat, LayoutOf, FirstListing, IsBlock, SameGroup;
    var j := n - (a - i);
    InBlock(groups, boxes, a, f, k, i, j);
    BlockBasics(groups, boxes, n, f, k, j);
    BlockBasics(groups, boxes, a, f, k, i);
    SameBlock(groups, boxes, n, f, k, j, a, f, k, i);
  }

  /** The placements of one group are a run, as long as its block, with its columns. */
  lemma GroupIsBlock(groups: seq<Group>, boxes: seq<Box>, a: nat, f: Frame, k: nat, i: nat)
    requires IsBlock(groups, boxes, a, f, k, i)
    ensures a < |LayoutOf(groups, boxes)| && k < |BlocksOf(groups, boxes)|
    ensures var layout, b := LayoutOf(groups, boxes), BlocksOf(groups, boxes)[k];
      && i == a - StartOf(groups, layout, a) && GroupSize(groups, layout, a) == |b.members|
      && FirstListing(groups, layout[a].elementId) < |groups| && ColumnsOf(groups, layout, a) == b.columns
  {
    hide BlocksOf, Origins, Flat, LayoutOf, FirstListing, IsBlock, ColumnCount, WellShaped, LabelsOk;
    BlockBasics(groups, boxes, a, f, k, i);
    BlockOrigin(groups, boxes, a, f, k, i);
    var layout, b := LayoutOf(groups, boxes), BlocksOf(groups, boxes)[k];
    var start, end := a - i, a - i + |b.members|;
    forall n: nat | start <= n < end ensures n < |layout| && SameGroup(groups, layout[n], layout[a]) {
      InsideBlockSame(groups, boxes, a, f, k, i, n);
    }
    if start > 0 {
      OutsideBlock(groups, boxes, a, f, k, i, start - 1);
    }
    if end < |layout| {
      OutsideBlock(groups, boxes, a, f, k, i, end);
    }
    StartIs(groups, layout, start, a);
    EndIs(groups, layout, a, end);
  }

  // ---------------------------------------------------------------- rows and columns

  function Place(groups: seq<Group>, layout: seq<Placement>, a: nat): nat
    requires a < |layout|
  {
    a - StartOf(groups, layout, a)
  }

  /** Columns of one block that differ have different left edges, rows different top edges. */
  lemma CellsAlike(b: Block, left: real, f: Frame, i: nat, j: nat)
    requires WellShaped(b) && f.cellGap >= 0.0 && i < |b.members| && j < |b.members|
    ensures MemberX(b, left, i, f) == MemberX(b, left, j, f) <==> i % b.columns == j % b.columns
    ensures MemberX(b, left, i, f) < MemberX(b, left, j, f) <==> i % b.columns < j % b.columns
    ensures MemberY(b, i, f) == MemberY(b, j, f) <==> i / b.columns == j / b.columns
    ensures MemberY(b, i, f) < MemberY(b, j, f) <==> i / b.columns < j / b.columns
  {
    hide ColumnOffset, RowOffset, ColumnWidth, RowHeight;
    Stepping(b, f, i, j);
    Stepping(b, f, j, i);
  }

  lemma Stepping(b: Block, f: Frame, i: nat, j: nat)
    requires WellShaped(b) && f.cellGap >= 0.0 && i < |b.members| && j < |b.members|
    ensures i % b.columns < j % b.columns ==>
              ColumnOffset(b, i % b.columns, f.cellGap) < ColumnOffset(b, j % b.columns, f.cellGap)
    ensures i / b.columns < j / b.columns ==>
              RowOffset(b, i / b.columns, f.cellGap) < RowOffset(b, j / b.columns, f.cellGap)
  {
    hide ColumnOffset, RowOffset, ColumnWidth, RowHeight;
    var c, d, r, s := i % b.columns, j % b.columns, i / b.columns, j / b.columns;
    assert b.members[i] in b.members;
    if c < d {
      ColumnsStepRight(b, c, d, f.cellGap);
      assert ColumnWidth(b, c, |b.members|) >= 0.0;
      assert b.members[i].box.w <= ColumnWidth(b, c, |b.members|);
    }
    if r < s {
      RowsStepDown(b, r, s, f.cellGap);
      assert RowHeight(b, r, |b.members|) >= 0.0;
    }
  }

  /**
   * In a group of so many columns the placements fill row after row: two of them share a row, or a column,
   * exactly when their places in the group do, and later rows and columns are further down and right.
   */
  lemma GridExactlyWhen(groups: seq<Group>, boxes: seq<Box>, a: nat, b: nat)
    requires a < |LayoutOf(groups, boxes)| && b < |LayoutOf(groups, boxes)|
    requires SameGroup(groups, LayoutOf(groups, boxes)[a], LayoutOf(groups, boxes)[b])
    ensures FirstListing(groups, LayoutOf(groups, boxes)[a].elementId) < |groups|
    ensures var layout := LayoutOf(groups, boxes);
      var n, i, j := ColumnsOf(groups, layout, a), Place(groups, layout, a), Place(groups, layout, b);
      && (layout[a].y == layout[b].y <==> i / n == j / n) && (layout[a].y < layout[b].y <==> i / n < j / n)
      && (layout[a].x == layout[b].x <==> i % n == j % n) && (layout[a].x < layout[b].x <==> i % n < j % n)
  {
    hide BlocksOf, Origins, Flat, LayoutOf, FirstListing, SameGroup, ColumnsOf, MemberX, MemberY, BlockLeft, FrameOf,
      CellGap, GroupGap, IsBlock, Place, WellShaped, WidthAt, HeightAt;
    var f, k, i := BlockOf(groups, boxes, a);
    var g, l, j := BlockOf(groups, boxes, b);
    SameBlock(groups, boxes, a, f, k, i, b, g, l, j);
    GroupIsBlock(groups, boxes, a, f, k, i);
    CellFacts(groups, boxes, a, f, k, i);
    CellFacts(groups, boxes, b, f, k, j);
    CellsAlike(BlocksOf(groups, boxes)[k], BlockLeft(BlocksOf(groups, boxes), k, f), f, i, j);
  }

  // ---------------------------------------------------------------- how far one step is

  /** The width of the image of placement `c`. */
  function WidthAt(boxes: seq<Box>, layout: seq<Placement>, c: nat): real {
    if c < |layout| && BoxOf(boxes, layout[c].elementId).Some? then BoxOf(boxes, layout[c].elementId).value.w else 0.0
  }

  function HeightAt(boxes: seq<Box>, layout: seq<Placement>, c: nat): real {
    if c < |layout| && BoxOf(boxes, layout[c].elementId).Some? then BoxOf(boxes, layout[c].elementId).value.h else 0.0
  }

  function ColumnNo(groups: seq<Group>, layout: seq<Placement>, a: nat): int
    requires a < |layout|
  {
    Place(groups, layout, a) % ColumnsOf(groups, layout, a)
  }

  function RowNo(groups: seq<Group>, layout: seq<Placement>, a: nat): int
    requires a < |layout|
  {
    Place(groups, layout, a) / ColumnsOf(groups, layout, a)
  }

  predicate SharesColumn(groups: seq<Group>, layout: seq<Placement>, a: nat, c: nat) {
    a < |layout| && c < |layout| && SameGroup(groups, layout[a], layout[c])
      && ColumnNo(groups, layout, a) == ColumnNo(groups, layout, c)
  }

  predicate SharesRow(groups: seq<Group>, layout: seq<Placement>, a: nat, c: nat) {
    a < |layout| && c < |layout| && SameGroup(groups, layout[a], layout[c])
      && RowNo(groups, layout, a) == RowNo(groups, layout, c)
  }

  /** No image in the column of placement `a` is wider than that of `widest`, which is in it. */
  ghost predicate Widest(groups: seq<Group>, boxes: seq<Box>, layout: seq<Placement>, a: nat, widest: nat) {
    && SharesColumn(groups, layout, a, widest)
    && forall c: nat :: SharesColumn(groups, layout, a, c) ==>
         WidthAt(boxes, layout, c) <= WidthAt(boxes, layout, widest)
  }

  ghost predicate Tallest(groups: seq<Group>, boxes: seq<Box>, layout: seq<Placement>, a: nat, tallest: nat) {
    && SharesRow(groups, layout, a, tallest)
    && forall c: nat :: SharesRow(groups, layout, a, c) ==>
         HeightAt(boxes, layout, c) <= HeightAt(boxes, layout, tallest)
  }

  /** A placement as a member of its block. */
  lemma MemberFacts(groups: seq<Group>, boxes: seq<Box>, a: nat, f: Frame, k: nat, i: nat)
    requires IsBlock(groups, boxes, a, f, k, i)
    ensures var layout, blocks := LayoutOf(groups, boxes), BlocksOf(groups, boxes);
      && a < |layout| && k < |blocks| && WellShaped(blocks[k]) && i < |blocks[k].members|
      && blocks[k].columns <= |blocks[k].members| && AllWellShaped(blocks)
      && f.cellGap == CellGap(Flat(blocks)) && f.groupGap == GroupGap(Flat(blocks))
      && layout[a] == PlaceMember(blocks[k], BlockLeft(blocks, k, f), i, f)
      && BoxOf(boxes, layout[a].elementId) == Some(blocks[k].members[i].box)
  {
    hide BlocksOf, Origins, Flat, LayoutOf, FirstListing, BoxOf, CellGap, GroupGap, FrameOf, BlockLeft, WellShaped,
      LabelsOk, MemberX, MemberY;
  }

  /** What a placement is, said of its block. */
  lemma CellFacts(groups: seq<Group>, boxes: seq<Box>, a: nat, f: Frame, k: nat, i: nat)
    requires IsBlock(groups, boxes, a, f, k, i)
    ensures var layout, blocks := LayoutOf(groups, boxes), BlocksOf(groups, boxes);
      && a < |layout| && k < |blocks| && WellShaped(blocks[k]) && i < |blocks[k].members|
      && blocks[k].columns <= |blocks[k].members| && AllWellShaped(blocks)
      && f.cellGap == CellGap(Flat(blocks)) && f.groupGap == GroupGap(Flat(blocks))
      && Place(groups, layout, a) == i && ColumnsOf(groups, layout, a) == blocks[k].columns
      && WidthAt(boxes, layout, a) == blocks[k].members[i].box.w
      && HeightAt(boxes, layout, a) == blocks[k].members[i].box.h
      && layout[a] == PlaceMember(blocks[k], BlockLeft(blocks, k, f), i, f)
  {
    hide BlocksOf, Origins, Flat, LayoutOf, FirstListing, SameGroup, BoxOf, StartOf, EndOf, CellGap, GroupGap,
      FrameOf, BlockLeft, ColumnsOf, PlaceMember, WellShaped, IsBlock;
    MemberFacts(groups, boxes, a, f, k, i);
    GroupIsBlock(groups, boxes, a, f, k, i);
  }

  /** Two placements of one group, in its one block. */
  lemma CellsOfOne(groups: seq<Group>, boxes: seq<Box>, a: nat, f: Frame, k: nat, i: nat, b: nat) returns (j: nat)
    requires IsBlock(groups, boxes, a, f, k, i)
    requires a < |LayoutOf(groups, boxes)| && b < |LayoutOf(groups, boxes)|
    requires SameGroup(groups, LayoutOf(groups, boxes)[a], LayoutOf(groups, boxes)[b])
    ensures IsBlock(groups, boxes, b, f, k, j)
  {
    hide BlocksOf, Origins, Flat, LayoutOf, FirstListing, IsBlock, SameGroup;
    var g, l;
    g, l, j := BlockOf(groups, boxes, b);
    SameBlock(groups, boxes, a, f, k, i, b, g, l, j);
  }

  /** Member `j` of a block, seen as a placement of its group. */
  lemma MemberPlaced(groups: seq<Group>, boxes: seq<Box>, a: nat, f: Frame, k: nat, i: nat, j: nat) returns (c: nat)
    requires IsBlock(groups, boxes, a, f, k, i) && a < |LayoutOf(groups, boxes)|
    requires k < |BlocksOf(groups, boxes)| && j < |BlocksOf(groups, boxes)[k].members|
    ensures IsBlock(groups, boxes, c, f, k, j) && c < |LayoutOf(groups, boxes)|
    ensures SameGroup(groups, LayoutOf(groups, boxes)[a], LayoutOf(groups, boxes)[c])
  {
    hide BlocksOf, Origins, Flat, LayoutOf, FirstListing, IsBlock, SameGroup;
    BlockBasics(groups, boxes, a, f, k, i);
    InBlock(groups, boxes, a, f, k, i, j);
    c := a - i + j;
    BlockBasics(groups, boxes, c, f, k, j);
    SameBlock(groups, boxes, a, f, k, i, c, f, k, j);
  }

  /** The widest member of a column that has one. */
  lemma WidestIn(b: Block, i: nat) returns (j: nat)
    requires WellShaped(b) && i < |b.members|
    ensures j < |b.members| && j % b.columns == i % b.columns
    ensures b.members[j].box.w == ColumnWidth(b, i % b.columns, |b.members|)
  {
    var c := i % b.columns;
    WidthIsReached(b, c, |b.members|);
    assert b.members[i] in b.members && b.members[i].box.w <= ColumnWidth(b, c, |b.members|);
    j :| 0 <= j < |b.members| && j % b.columns == c && b.members[j].box.w == ColumnWidth(b, c, |b.members|);
  }

  lemma TallestIn(b: Block, i: nat) returns (j: nat)
    requires WellShaped(b) && i < |b.members|
    ensures j < |b.members| && j / b.columns == i / b.columns
    ensures b.members[j].box.h == RowHeight(b, i / b.columns, |b.members|)
  {
    var r := i / b.columns;
    HeightIsReached(b, r, |b.members|);
    assert b.members[i] in b.members && b.members[i].box.h <= RowHeight(b, r, |b.members|);
    j :| 0 <= j < |b.members| && j / b.columns == r && b.members[j].box.h == RowHeight(b, r, |b.members|);
  }

  lemma SizeBounds(b: Block, n: nat)
    requires b.columns >= 1 && n < |b.members|
    ensures b.members[n].box.w <= ColumnWidth(b, n % b.columns, |b.members|)
    ensures b.members[n].box.h <= RowHeight(b, n / b.columns, |b.members|)
  {
  }

  /** The widest image of a column, as a placement. */
  lemma ColumnHasWidest(groups: seq<Group>, boxes: seq<Box>, a: nat, f: Frame, k: nat, i: nat) returns (widest: nat)
    requires IsBlock(groups, boxes, a, f, k, i)
    ensures Widest(groups, boxes, LayoutOf(groups, boxes), a, widest)
    ensures k < |BlocksOf(groups, boxes)| && WellShaped(BlocksOf(groups, boxes)[k])
    ensures var b := BlocksOf(groups, boxes)[k];
      WidthAt(boxes, LayoutOf(groups, boxes), widest) == ColumnWidth(b, i % b.columns, |b.members|)
  {
    hide BlocksOf, Origins, Flat, LayoutOf, IsBlock, SameGroup, CellGap, GroupGap, BlockLeft, ColumnWidth, ColumnsOf,
      Place, WidthAt, HeightAt, PlaceMember, WellShaped;
    CellFacts(groups, boxes, a, f, k, i);
    var layout, b := LayoutOf(groups, boxes), BlocksOf(groups, boxes)[k];
    var w := WidestIn(b, i);
    widest := MemberPlaced(groups, boxes, a, f, k, i, w);
    CellFacts(groups, boxes, widest, f, k, w);
    forall c: nat | SharesColumn(groups, layout, a, c)
      ensures WidthAt(boxes, layout, c) <= WidthAt(boxes, layout, widest)
    {
      var o := CellsOfOne(groups, boxes, a, f, k, i, c);
      CellFacts(groups, boxes, c, f, k, o);
      SizeBounds(b, o);
    }
  }

  lemma RowHasTallest(groups: seq<Group>, boxes: seq<Box>, a: nat, f: Frame, k: nat, i: nat) returns (tallest: nat)
    requires IsBlock(groups, boxes, a, f, k, i)
    ensures Tallest(groups, boxes, LayoutOf(groups, boxes), a, tallest)
    ensures k < |BlocksOf(groups, boxes)| && WellShaped(BlocksOf(groups, boxes)[k])
    ensures var b := BlocksOf(groups, boxes)[k];
      HeightAt(boxes, LayoutOf(groups, boxes), tallest) == RowHeight(b, RowAt(b, i), |b.members|)
  {
    hide BlocksOf, Origins, Flat, LayoutOf, IsBlock, SameGroup, CellGap, GroupGap, BlockLeft, RowHeight, ColumnsOf,
      Place, WidthAt, HeightAt, PlaceMember, WellShaped;
    CellFacts(groups, boxes, a, f, k, i);
    var layout, b := LayoutOf(groups, boxes), BlocksOf(groups, boxes)[k];
    var h := TallestIn(b, i);
    tallest := MemberPlaced(groups, boxes, a, f, k, i, h);
    CellFacts(groups, boxes, tallest, f, k, h);
    forall c: nat | SharesRow(groups, layout, a, c)
      ensures HeightAt(boxes, layout, c) <= HeightAt(boxes, layout, tallest)
    {
      var o := CellsOfOne(groups, boxes, a, f, k, i, c);
      CellFacts(groups, boxes, c, f, k, o);
      SizeBounds(b, o);
    }
  }

  /** The next column is as far right as the widest image of this one, and the gap. */
  lemma NextColumn(groups: seq<Group>, boxes: seq<Box>, a: nat, b: nat) returns (widest: nat)
    requires a < |LayoutOf(groups, boxes)| && b < |LayoutOf(groups, boxes)|
    requires SameGroup(groups, LayoutOf(groups, boxes)[a], LayoutOf(groups, boxes)[b])
    requires ColumnNo(groups, LayoutOf(groups, boxes), b) == ColumnNo(groups, LayoutOf(groups, boxes), a) + 1
    ensures Widest(groups, boxes, LayoutOf(groups, boxes), a, widest)
    ensures var layout := LayoutOf(groups, boxes);
      layout[b].x == layout[a].x + WidthAt(boxes, layout, widest) + CellGap(Flat(BlocksOf(groups, boxes)))
  {
    hide BlocksOf, Origins, Flat, LayoutOf, IsBlock, SameGroup, CellGap, GroupGap, BlockLeft, ColumnWidth, ColumnsOf,
      Place, WidthAt, HeightAt, WellShaped, Widest, MemberY;
    var f, k, i := BlockOf(groups, boxes, a);
    var j := CellsOfOne(groups, boxes, a, f, k, i, b);
    CellFacts(groups, boxes, a, f, k, i);
    CellFacts(groups, boxes, b, f, k, j);
    widest := ColumnHasWidest(groups, boxes, a, f, k, i);
  }

  /** The next row is as far down as the tallest image of this one, the gap, and the strip for captions. */
  lemma NextRow(groups: seq<Group>, boxes: seq<Box>, a: nat, b: nat) returns (tallest: nat)
    requires a < |LayoutOf(groups, boxes)| && b < |LayoutOf(groups, boxes)|
    requires SameGroup(groups, LayoutOf(groups, boxes)[a], LayoutOf(groups, boxes)[b])
    requires RowNo(groups, LayoutOf(groups, boxes), b) == RowNo(groups, LayoutOf(groups, boxes), a) + 1
    ensures Tallest(groups, boxes, LayoutOf(groups, boxes), a, tallest)
    ensures var layout := LayoutOf(groups, boxes);
      layout[b].y
      == layout[a].y + HeightAt(boxes, layout, tallest) + CellGap(Flat(BlocksOf(groups, boxes))) + CAPTION_HEIGHT
  {
    hide BlocksOf, Origins, Flat, LayoutOf, IsBlock, SameGroup, CellGap, GroupGap, BlockLeft, RowHeight, ColumnsOf,
      Place, WidthAt, HeightAt, WellShaped, Tallest, MemberX;
    var f, k, i := BlockOf(groups, boxes, a);
    var j := CellsOfOne(groups, boxes, a, f, k, i, b);
    CellFacts(groups, boxes, a, f, k, i);
    CellFacts(groups, boxes, b, f, k, j);
    tallest := RowHasTallest(groups, boxes, a, f, k, i);
  }

  // ---------------------------------------------------------------- where groups start

  /** Where the image of placement `c` was. */
  function WasAt(boxes: seq<Box>, layout: seq<Placement>, c: nat): (real, real) {
    if c < |layout| && BoxOf(boxes, layout[c].elementId).Some? then
      (BoxOf(boxes, layout[c].elementId).value.x, BoxOf(boxes, layout[c].elementId).value.y)
    else (0.0, 0.0)
  }

  lemma FlatImage(groups: seq<Group>, boxes: seq<Box>, n: nat)
    requires n < |LayoutOf(groups, boxes)|
    ensures var flat := Flat(BlocksOf(groups, boxes));
      && |flat| == |LayoutOf(groups, boxes)|
      && WasAt(boxes, LayoutOf(groups, boxes), n) == (flat[n].box.x, flat[n].box.y)
  {
    hide LayoutOf, BlocksOf, Flat, BoxOf, FrameOf;
    LayoutLength(groups, boxes);
    PlacedBelowTop(groups, boxes, n);
  }

  /** The least coordinates of the moved images, where they were. */
  lemma CornerOfMoved(groups: seq<Group>, boxes: seq<Box>) returns (leftmost: nat, topmost: nat)
    requires LayoutOf(groups, boxes) != []
    ensures var layout, flat := LayoutOf(groups, boxes), Flat(BlocksOf(groups, boxes));
      && leftmost < |layout| && topmost < |layout| && flat != []
      && WasAt(boxes, layout, leftmost).0 == Union(BoxesOf(flat)).x
      && WasAt(boxes, layout, topmost).1 == FrameOf(flat, boxes).top
      && forall c: nat :: c < |layout| ==>
           && WasAt(boxes, layout, leftmost).0 <= WasAt(boxes, layout, c).0
           && WasAt(boxes, layout, topmost).1 <= WasAt(boxes, layout, c).1
  {
    hide LayoutOf, BlocksOf, Flat, BoxOf, WasAt, FrameOf;
    var layout, flat := LayoutOf(groups, boxes), Flat(BlocksOf(groups, boxes));
    FlatImage(groups, boxes, 0);
    leftmost, topmost := FlatCorner(flat, boxes);
    FlatImage(groups, boxes, leftmost);
    FlatImage(groups, boxes, topmost);
    forall c: nat | c < |layout|
      ensures WasAt(boxes, layout, leftmost).0 <= WasAt(boxes, layout, c).0
      ensures WasAt(boxes, layout, topmost).1 <= WasAt(boxes, layout, c).1
    {
      FlatImage(groups, boxes, c);
    }
  }

  lemma FlatCorner(flat: seq<Member>, boxes: seq<Box>) returns (leftmost: nat, topmost: nat)
    requires flat != []
    ensures leftmost < |flat| && flat[leftmost].box.x == Union(BoxesOf(flat)).x
    ensures topmost < |flat| && flat[topmost].box.y == FrameOf(flat, boxes).top
    ensures forall c :: 0 <= c < |flat| ==>
              flat[leftmost].box.x <= flat[c].box.x && flat[topmost].box.y <= flat[c].box.y
  {
    hide Union, CellGap, GroupGap, Others;
    var all := BoxesOf(flat);
    UnionBounds(all);
    var right;
    leftmost, topmost, right := UnionIsReached(all);
    assert forall c :: 0 <= c < |flat| ==> all[c] == flat[c].box;
  }

  /** The first image of a group stands where the topmost moved one was, under the strips for its labels. */
  lemma GroupTop(groups: seq<Group>, boxes: seq<Box>, a: nat) returns (topmost: nat)
    requires a < |LayoutOf(groups, boxes)| && Place(groups, LayoutOf(groups, boxes), a) == 0
    ensures var layout := LayoutOf(groups, boxes);
      && topmost < |layout|
      && (forall c: nat :: c < |layout| ==> WasAt(boxes, layout, topmost).1 <= WasAt(boxes, layout, c).1)
      && var strip := if layout[a].section != [] then SECTION_HEIGHT else 0.0;
         layout[a].y == WasAt(boxes, layout, topmost).1 + CAPTION_HEIGHT + strip
  {
    hide BlocksOf, Origins, Flat, LayoutOf, IsBlock, CellGap, GroupGap, BlockLeft, ColumnsOf, Place, WidthAt, HeightAt,
      WellShaped, MemberX, MemberY, FrameOf, WasAt;
    var leftmost;
    leftmost, topmost := CornerOfMoved(groups, boxes);
    var f, k, i := BlockOf(groups, boxes, a);
    CellFacts(groups, boxes, a, f, k, i);
    FirstLabel(groups, boxes, a, f, k, i);
    BlockFrame(groups, boxes, a, f, k, i);
    FirstMember(BlocksOf(groups, boxes)[k], BlockLeft(BlocksOf(groups, boxes), k, f), f);
  }

  lemma BlockFrame(groups: seq<Group>, boxes: seq<Box>, a: nat, f: Frame, k: nat, i: nat)
    requires IsBlock(groups, boxes, a, f, k, i)
    ensures Flat(BlocksOf(groups, boxes)) != [] && f == FrameOf(Flat(BlocksOf(groups, boxes)), boxes)
  {
    hide BlocksOf, Origins, Flat, LayoutOf, BlockOk, FrameOf, BlockLeft;
  }

  lemma FirstLabel(groups: seq<Group>, boxes: seq<Box>, a: nat, f: Frame, k: nat, i: nat)
    requires IsBlock(groups, boxes, a, f, k, i)
    ensures a < |LayoutOf(groups, boxes)| && k < |BlocksOf(groups, boxes)|
    ensures i == 0 ==> (LayoutOf(groups, boxes)[a].section != [] <==> BlocksOf(groups, boxes)[k].section)
  {
    hide BlocksOf, Origins, Flat, LayoutOf, FrameOf, BlockLeft, Clean, MemberX, MemberY, InItemOrder;
    BlockBasics(groups, boxes, a, f, k, i);
    var title := Clean(groups[Origins(groups, boxes)[k]].title);
    CleanIsSome(groups[Origins(groups, boxes)[k]].title);
  }

  lemma CleanIsSome(title: Option<Text>)
    ensures Clean(title).Some? ==> Clean(title).value != []
  {
    assert Clean(title).Some? ==> 0 < |Clean(title).value|;
  }

  /** The furthest right of the boxes that stay. */
  predicate Rightmost(boxes: seq<Box>, layout: seq<Placement>, other: Box) {
    && other in boxes && Stays(layout, other)
    && forall p :: p in boxes && Stays(layout, p) ==> p.x + p.w <= other.x + other.w
  }

  lemma StaysExactlyWhen(groups: seq<Group>, boxes: seq<Box>, other: Box)
    ensures Stays(LayoutOf(groups, boxes), other) <==> other.id !in Ids(Flat(BlocksOf(groups, boxes)))
  {
    hide LayoutOf, BlocksOf, Flat, Ids, AllIds, Usable, Lists, BlockOk, Origins;
    PlacedExactlyWhen(groups, boxes, other.id);
    PlanIs(groups, boxes);
    FlatIds(BlocksOf(groups, boxes));
    var layout := LayoutOf(groups, boxes);
    assert FirstListing(groups, other.id) < |groups| <==> exists g :: 0 <= g < |groups| && Lists(groups[g], other.id);
  }

  /**
   * The first group starts the group gap right of everything that stays, or, if nothing does, where the leftmost
   * moved image was.
   */
  lemma FirstLeft(groups: seq<Group>, boxes: seq<Box>) returns (other: Option<Box>, leftmost: nat)
    requires LayoutOf(groups, boxes) != []
    ensures var layout := LayoutOf(groups, boxes);
      match other
      case Some(o) => Rightmost(boxes, layout, o) && layout[0].x == o.x + o.w + GroupGap(Flat(BlocksOf(groups, boxes)))
      case None =>
        && (forall o :: o in boxes ==> !Stays(layout, o))
        && leftmost < |layout| && layout[0].x == WasAt(boxes, layout, leftmost).0
        && forall c: nat :: c < |layout| ==> WasAt(boxes, layout, leftmost).0 <= WasAt(boxes, layout, c).0
  {
    hide BlocksOf, Origins, Flat, LayoutOf, IsBlock, CellGap, GroupGap, ColumnsOf, WidthAt, HeightAt, WellShaped,
      MemberX, MemberY, WasAt, Union, Stays, StartOf;
    var layout, flat := LayoutOf(groups, boxes), Flat(BlocksOf(groups, boxes));
    var topmost;
    leftmost, topmost := CornerOfMoved(groups, boxes);
    var f, k, i := BlockOf(groups, boxes, 0);
    CellFacts(groups, boxes, 0, f, k, i);
    BlockFrame(groups, boxes, 0, f, k, i);
    BlockBasics(groups, boxes, 0, f, k, i);
    FirstBlock(BlocksOf(groups, boxes), k);
    FirstMember(BlocksOf(groups, boxes)[k], BlockLeft(BlocksOf(groups, boxes), k, f), f);
    var others := Others(boxes, Ids(flat));
    forall o ensures o in others <==> o in boxes && Stays(layout, o) {
      StaysExactlyWhen(groups, boxes, o);
    }
    if others == [] {
      other := None;
    } else {
      UnionBounds(others);
      var x, y, r := UnionIsReached(others);
      other := Some(others[r]);
      forall p | p in boxes && Stays(layout, p) ensures p.x + p.w <= others[r].x + others[r].w {
        assert p in others;
      }
    }
  }

  /** A block before which nothing is planned is the first. */
  lemma FirstBlock(blocks: seq<Block>, k: nat)
    requires AllWellShaped(blocks) && k < |blocks|
    ensures Flat(blocks[..k]) == [] ==> k == 0
  {
    if k > 0 {
      FlatGrows(blocks, 0, k);
      assert WellShaped(blocks[0]);
    }
  }

  lemma TwoBlocksOn(blocks: seq<Block>, k: nat, l: nat)
    requires AllWellShaped(blocks) && k + 1 < l < |blocks|
    ensures |Flat(blocks[..k])| + |blocks[k].members| < |Flat(blocks[..l])|
  {
    FlatGrows(blocks, k, k + 1);
    FlatGrows(blocks, k + 1, l);
    assert WellShaped(blocks[k + 1]);
  }

  /** The right edge of placement `c`. */
  function RightAt(boxes: seq<Box>, layout: seq<Placement>, c: nat): real
    requires c < |layout|
  {
    layout[c].x + WidthAt(boxes, layout, c)
  }

  lemma LastColumn(b: Block, left: real, f: Frame) returns (j: nat)
    requires WellShaped(b) && b.columns <= |b.members|
    ensures j < |b.members| && MemberX(b, left, j, f) + b.members[j].box.w == left + BlockWidth(b, f.cellGap)
  {
    assert (b.columns - 1) % b.columns == b.columns - 1;
    j := WidestIn(b, b.columns - 1);
  }

  /** The next group starts the group gap right of the furthest right edge of this one. */
  lemma NextGroup(groups: seq<Group>, boxes: seq<Box>, a: nat) returns (rightmost: nat)
    requires a + 1 < |LayoutOf(groups, boxes)|
    requires !SameGroup(groups, LayoutOf(groups, boxes)[a], LayoutOf(groups, boxes)[a + 1])
    ensures var layout := LayoutOf(groups, boxes);
      && rightmost < |layout| && SameGroup(groups, layout[a], layout[rightmost])
      && layout[a + 1].x == RightAt(boxes, layout, rightmost) + GroupGap(Flat(BlocksOf(groups, boxes)))
      && forall c: nat :: c < |layout| && SameGroup(groups, layout[a], layout[c]) ==>
           RightAt(boxes, layout, c) <= RightAt(boxes, layout, rightmost)
  {
    hide BlocksOf, Origins, Flat, LayoutOf, IsBlock, SameGroup, CellGap, GroupGap, ColumnsOf, Place, WidthAt, HeightAt,
      WellShaped, MemberX, MemberY, BlockLeft, BlockWidth, RightAt;
    var layout, blocks := LayoutOf(groups, boxes), BlocksOf(groups, boxes);
    var f, k, i := BlockOf(groups, boxes, a);
    var g, l, j := BlockOf(groups, boxes, a + 1);
    CellFacts(groups, boxes, a, f, k, i);
    CellFacts(groups, boxes, a + 1, g, l, j);
    SameBlock(groups, boxes, a, f, k, i, a + 1, g, l, j);
    BlockBasics(groups, boxes, a, f, k, i);
    BlockBasics(groups, boxes, a + 1, g, l, j);
    NextBlock(blocks, k, i, l, j);
    rightmost := RightEdge(groups, boxes, a, f, k, i);
    BlockLeftStep(blocks, k, f);
    FirstMember(blocks[l], BlockLeft(blocks, l, g), g);
  }

  /** The right edge of a block is that of its rightmost image. */
  lemma RightEdge(groups: seq<Group>, boxes: seq<Box>, a: nat, f: Frame, k: nat, i: nat) returns (rightmost: nat)
    requires IsBlock(groups, boxes, a, f, k, i)
    requires a < |LayoutOf(groups, boxes)| && k < |BlocksOf(groups, boxes)|
    ensures var layout, blocks := LayoutOf(groups, boxes), BlocksOf(groups, boxes);
      && rightmost < |layout| && SameGroup(groups, layout[a], layout[rightmost])
      && RightAt(boxes, layout, rightmost) == BlockLeft(blocks, k, f) + BlockWidth(blocks[k], f.cellGap)
      && forall c: nat :: c < |layout| && SameGroup(groups, layout[a], layout[c]) ==>
           RightAt(boxes, layout, c) <= RightAt(boxes, layout, rightmost)
  {
    hide BlocksOf, Origins, Flat, LayoutOf, IsBlock, SameGroup, CellGap, GroupGap, ColumnsOf, Place, WidthAt, HeightAt,
      WellShaped, MemberX, MemberY, BlockLeft, BlockWidth;
    var layout, blocks := LayoutOf(groups, boxes), BlocksOf(groups, boxes);
    CellFacts(groups, boxes, a, f, k, i);
    var last := LastColumn(blocks[k], BlockLeft(blocks, k, f), f);
    rightmost := MemberPlaced(groups, boxes, a, f, k, i, last);
    CellFacts(groups, boxes, rightmost, f, k, last);
    forall c: nat | c < |layout| && SameGroup(groups, layout[a], layout[c])
      ensures RightAt(boxes, layout, c) <= RightAt(boxes, layout, rightmost)
    {
      var o := CellsOfOne(groups, boxes, a, f, k, i, c);
      CellFacts(groups, boxes, c, f, k, o);
      InsideBlock(blocks[k], BlockLeft(blocks, k, f), f, o);
    }
  }

  lemma BlockLeftStep(blocks: seq<Block>, k: nat, f: Frame)
    requires AllWellShaped(blocks) && k < |blocks|
    ensures BlockLeft(blocks, k + 1, f) == BlockLeft(blocks, k, f) + BlockWidth(blocks[k], f.cellGap) + f.groupGap
  {
  }

  /** Behind the last member of a block comes the first of the next. */
  lemma NextBlock(blocks: seq<Block>, k: nat, i: nat, l: nat, j: nat)
    requires AllWellShaped(blocks) && k < |blocks| && l < |blocks| && k != l
    requires i < |blocks[k].members| && j < |blocks[l].members|
    requires |Flat(blocks[..k])| + i + 1 == |Flat(blocks[..l])| + j
    ensures l == k + 1 && j == 0
  {
    EarlierIsFirst(blocks, k, i, l, j);
    FlatGrows(blocks, k, l);
    if k + 1 < l {
      TwoBlocksOn(blocks, k, l);
    }
  }

  // ---------------------------------------------------------------- order and labels

  /** Groups come in the order they were given, and their images in the order of the items that first list them. */
  lemma OrderIs(groups: seq<Group>, boxes: seq<Box>, a: nat, b: nat)
    requires a < b < |LayoutOf(groups, boxes)|
    ensures var (p, q) := (LayoutOf(groups, boxes)[a].elementId, LayoutOf(groups, boxes)[b].elementId);
      var g, h := FirstListing(groups, p), FirstListing(groups, q);
      && g <= h < |groups|
      && (g == h ==> FirstItem(groups[g].items, p) < FirstItem(groups[g].items, q))
  {
    hide BlocksOf, Origins, Flat, LayoutOf, IsBlock, CellGap, GroupGap, FrameOf, BlockLeft, FirstListing, FirstItem,
      WellShaped, MemberX, MemberY, Clean;
    var f, k, i := BlockOf(groups, boxes, a);
    var g, l, j := BlockOf(groups, boxes, b);
    BlockBasics(groups, boxes, a, f, k, i);
    BlockBasics(groups, boxes, b, g, l, j);
    BlockOrigin(groups, boxes, a, f, k, i);
    BlockOrigin(groups, boxes, b, g, l, j);
    MemberFacts(groups, boxes, a, f, k, i);
    MemberFacts(groups, boxes, b, g, l, j);
    PlanIs(groups, boxes);
    if k != l {
      EarlierIsFirst(BlocksOf(groups, boxes), k, i, l, j);
    }
  }

  /** Each image gets the caption of the item that first lists it; the first of a group, and no other, its title. */
  lemma LabelsAre(groups: seq<Group>, boxes: seq<Box>, a: nat)
    requires a < |LayoutOf(groups, boxes)|
    ensures var layout := LayoutOf(groups, boxes);
      var g := FirstListing(groups, layout[a].elementId);
      && g < |groups| && FirstItem(groups[g].items, layout[a].elementId) < |groups[g].items|
      && layout[a].caption == Clean(groups[g].items[FirstItem(groups[g].items, layout[a].elementId)].caption)
      && layout[a].section
         == if Place(groups, layout, a) == 0 && Clean(groups[g].title).Some? then Clean(groups[g].title).value else []
  {
    hide BlocksOf, Origins, Flat, LayoutOf, IsBlock, CellGap, GroupGap, FrameOf, BlockLeft, FirstListing, FirstItem,
      WellShaped, MemberX, MemberY, Clean, StartOf, ColumnsOf;
    var f, k, i := BlockOf(groups, boxes, a);
    BlockBasics(groups, boxes, a, f, k, i);
    BlockOrigin(groups, boxes, a, f, k, i);
    MemberFacts(groups, boxes, a, f, k, i);
    GroupIsBlock(groups, boxes, a, f, k, i);
  }
}
