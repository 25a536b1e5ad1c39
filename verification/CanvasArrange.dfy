/** The loops that arrange a canvas. */
module CanvasArrange {
  import opened Basics
  import opened ArrangePlan
  import opened ArrangeGeometry

  /** Where a block lies in the flat list of planned members. */
  datatype Span = Span(start: nat, count: nat, columns: nat, section: bool)

  type Spot = (real, real)

  ghost function SpansOf(blocks: seq<Block>): (r: seq<Span>)
    ensures |r| == |blocks|
  {
    if blocks == [] then []
    else
      var front := blocks[..|blocks| - 1];
      var last := blocks[|blocks| - 1];
      SpansOf(front) + [Span(|Flat(front)|, |last.members|, last.columns, last.section)]
  }

  lemma {:induction false} SpanAt(blocks: seq<Block>, k: nat)
    requires k < |blocks|
    ensures SpansOf(blocks)[k] == Span(|Flat(blocks[..k])|, |blocks[k].members|, blocks[k].columns, blocks[k].section)
    ensures |Flat(blocks[..k])| + |blocks[k].members| <= |Flat(blocks)|
    ensures Flat(blocks)[|Flat(blocks[..k])|..|Flat(blocks[..k])| + |blocks[k].members|] == blocks[k].members
    decreases |blocks|
  {
    var front := blocks[..|blocks| - 1];
    if k < |blocks| - 1 {
      SpanAt(front, k);
      assert front[..k] == blocks[..k];
      SliceOfFront(Flat(front), blocks[|blocks| - 1].members, |Flat(blocks[..k])|, |Flat(blocks[..k])| + |blocks[k].members|);
    } else {
      assert front == blocks[..k];
    }
  }

  lemma SliceOfFront<T>(a: seq<T>, b: seq<T>, from: nat, end: nat)
    requires from <= end <= |a|
    ensures (a + b)[from..end] == a[from..end]
  {
  }

  method PlanGroup(group: Group, boxes: seq<Box>, taken: set<string>) returns (members: seq<Member>, seen: set<string>)
    ensures members == MembersOf(group.items, boxes, taken) && seen == taken + Ids(members)
  {
    hide BoxOf, Clean;
    members, seen := [], taken;
    for i := 0 to |group.items|
      invariant members == MembersOf(group.items[..i], boxes, taken) && seen == taken + Ids(members)
    {
      assert group.items[..i + 1][..i] == group.items[..i];
      var item := group.items[i];
      if item.elementId !in seen {
        var box := BoxOf(boxes, item.elementId);
        if box.Some? && box.value.w > 0.0 && box.value.h > 0.0 {
          var member := Member(item.elementId, Clean(item.caption), [], box.value);
          assert Ids(members + [member]) == Ids(members) + {item.elementId} by {
            assert (members + [member])[|members|] == member;
            assert forall m :: m in members ==> m in members + [member];
          }
          members := members + [member];
          seen := seen + {item.elementId};
        }
      }
    }
    assert group.items[..|group.items|] == group.items;
  }

  /** One more group brings at most one more block. */
  lemma PlanStep(groups: seq<Group>, boxes: seq<Box>, g: nat)
    requires g < |groups|
    ensures var before, after, group := BlocksOf(groups[..g], boxes), BlocksOf(groups[..g + 1], boxes), groups[g];
      var members := MembersOf(group.items, boxes, AllIds(before));
      if members == [] then after == before
      else
        var title, columns := Clean(group.title), ColumnCount(group.columns, |members|);
        var b := Block(Labelled(members, title), columns, title.Some?);
        && Flat(after) == Flat(before) + b.members && AllIds(after) == AllIds(before) + Ids(members)
        && SpansOf(after) == SpansOf(before) + [Span(|Flat(before)|, |members|, columns, title.Some?)]
  {
    hide MembersOf, Clean, ColumnCount, AllIds, Ids, Labelled;
    assert groups[..g + 1][..g] == groups[..g];
    var before, group := BlocksOf(groups[..g], boxes), groups[g];
    var members := MembersOf(group.items, boxes, AllIds(before));
    if members != [] {
      var title := Clean(group.title);
      var b := Block(Labelled(members, title), ColumnCount(group.columns, |members|), title.Some?);
      LabelledIds(members, title);
      AllIdsOfOneMore(before, b);
      assert (before + [b])[..|before|] == before;
    }
  }

  lemma NothingYet(boxes: seq<Box>)
    ensures BlocksOf([], boxes) == [] && Flat([]) == [] && SpansOf([]) == [] && AllIds([]) == {}
  {
    NothingPlanned();
  }

  method Plan(groups: seq<Group>, boxes: seq<Box>) returns (planned: seq<Member>, spans: seq<Span>, seen: set<string>)
    ensures var blocks := BlocksOf(groups, boxes);
            planned == Flat(blocks) && spans == SpansOf(blocks) && seen == AllIds(blocks)
  {
    hide MembersOf, Clean, ColumnCount, AllIds, BlocksOf, Flat, SpansOf;
    NothingYet(boxes);
    assert groups[..0] == [];
    planned, spans, seen := [], [], {};
    for g := 0 to |groups|
      invariant planned == Flat(BlocksOf(groups[..g], boxes)) && spans == SpansOf(BlocksOf(groups[..g], boxes))
      invariant seen == AllIds(BlocksOf(groups[..g], boxes))
    {
      PlanStep(groups, boxes, g);
      var group := groups[g];
      var title := Clean(group.title);
      var members;
      members, seen := PlanGroup(group, boxes, seen);
      if members != [] {
        if title.Some? {
          members := [members[0].(section := title.value)] + members[1..];
        }
        spans := spans + [Span(|planned|, |members|, ColumnCount(group.columns, |members|), title.Some?)];
        planned := planned + members;
      }
    }
    assert groups[..|groups|] == groups;
  }

  lemma TimesGrows(a: nat, b: nat, c: nat)
    ensures a <= b ==> c * a <= c * b
  {
  }

  lemma Cell(row: nat, columns: nat, column: nat)
    requires column < columns
    ensures (row * columns + column) / columns == row && (row * columns + column) % columns == column
  {
    var i := row * columns + column;
    var q, r := i / columns, i % columns;
    assert i == columns * q + r;
    OneCell(columns, q, r, row, column);
  }

  lemma OneCell(columns: nat, q: nat, r: nat, row: nat, column: nat)
    requires r < columns && column < columns && columns * q + r == columns * row + column
    ensures q == row && r == column
  {
    TimesGrows(q + 1, row, columns);
    TimesGrows(row + 1, q, columns);
    assert columns * (q + 1) == columns * q + columns;
    assert columns * (row + 1) == columns * row + columns;
  }

  lemma NothingMeasured(b: Block)
    requires b.columns >= 1
    ensures forall c: nat :: ColumnWidth(b, c, 0) == 0.0
    ensures forall r: nat :: RowHeight(b, r, 0) == 0.0
  {
  }

  lemma MeasureStep(b: Block, n: nat, c: nat, r: nat)
    requires b.columns >= 1 && n < |b.members|
    ensures ColumnWidth(b, c, n + 1)
         == if ColumnAt(b, n) == c then Max(ColumnWidth(b, c, n), b.members[n].box.w) else ColumnWidth(b, c, n)
    ensures RowHeight(b, r, n + 1)
         == if RowAt(b, n) == r then Max(RowHeight(b, r, n), b.members[n].box.h) else RowHeight(b, r, n)
  {
  }

  /** The widest member of each column and the tallest of each row. */
  method Measure(b: Block, rows: nat) returns (colW: array<real>, rowH: array<real>)
    requires b.columns >= 1 && forall i: nat :: i < |b.members| ==> RowAt(b, i) < rows
    ensures fresh(colW) && fresh(rowH) && colW.Length == b.columns && rowH.Length == rows
    ensures forall c :: 0 <= c < b.columns ==> colW[c] == ColumnWidth(b, c, |b.members|)
    ensures forall r :: 0 <= r < rows ==> rowH[r] == RowHeight(b, r, |b.members|)
  {
    NothingMeasured(b);
    hide ColumnWidth, RowHeight, ColumnAt, RowAt;
    colW := new real[b.columns](_ => 0.0);
    rowH := new real[rows](_ => 0.0);
    for i := 0 to |b.members|
      invariant forall c :: 0 <= c < b.columns ==> colW[c] == ColumnWidth(b, c, i)
      invariant forall r :: 0 <= r < rows ==> rowH[r] == RowHeight(b, r, i)
    {
      var column, row := ColumnAt(b, i), RowAt(b, i);
      forall c: nat, r: nat {
        MeasureStep(b, i, c, r);
      }
      colW[column] := Max(colW[column], b.members[i].box.w);
      rowH[row] := Max(rowH[row], b.members[i].box.h);
    }
  }

  ghost predicate Placed(placed: map<string, Spot>, b: Block, left: real, f: Frame, n: nat)
    requires b.columns >= 1 && n <= |b.members|
  {
    forall i :: 0 <= i < n ==>
      var id := b.members[i].elementId;
      id in placed && placed[id] == (MemberX(b, left, i, f), MemberY(b, i, f))
  }

  /** What a step keeps of the spots given to other blocks. */
  ghost predicate Keeps(before: map<string, Spot>, placed: map<string, Spot>, mine: set<string>) {
    forall id :: id in before && id !in mine ==> id in placed && placed[id] == before[id]
  }

  lemma NonePlaced(placed: map<string, Spot>, b: Block, left: real, f: Frame)
    requires b.columns >= 1
    ensures Placed(placed, b, left, f, 0)
  {
  }

  lemma PlacedOneMore(placed: map<string, Spot>, b: Block, left: real, f: Frame, n: nat)
    requires b.columns >= 1 && n < |b.members| && Distinct(b.members) && Placed(placed, b, left, f, n)
    ensures b.members[n].elementId in Ids(b.members)
    ensures Placed(placed[b.members[n].elementId := (MemberX(b, left, n, f), MemberY(b, n, f))], b, left, f, n + 1)
  {
  }

  /** One row, left to right, until the columns or the members run out. */
  method PlaceRow(b: Block, left: real, f: Frame, row: nat, rowTop: real, colW: array<real>, before: map<string, Spot>)
    returns (placed: map<string, Spot>)
    requires WellShaped(b) && Distinct(b.members) && colW.Length == b.columns
    requires forall c :: 0 <= c < b.columns ==> colW[c] == ColumnWidth(b, c, |b.members|)
    requires rowTop == f.top + (if b.section then SECTION_HEIGHT else 0.0) + RowOffset(b, row, f.cellGap)
    requires Placed(before, b, left, f, UpToRow(b, row))
    ensures Placed(placed, b, left, f, UpToRow(b, row + 1))
    ensures Keeps(before, placed, Ids(b.members))
  {
    hide ColumnWidth, RowHeight, RowOffset, Placed;
    placed := before;
    var x := left;
    var column := 0;
    var first := row * b.columns;
    assert (row + 1) * b.columns == first + b.columns;
    while column < b.columns
      invariant 0 <= column <= b.columns
      invariant x == left + ColumnOffset(b, column, f.cellGap)
      invariant Placed(placed, b, left, f, LeastOf(first + column, |b.members|))
      invariant Keeps(before, placed, Ids(b.members))
    {
      var index := first + column;
      if index >= |b.members| {
        return;
      }
      Cell(row, b.columns, column);
      PlacedOneMore(placed, b, left, f, index);
      placed := placed[b.members[index].elementId := (x, rowTop + CAPTION_HEIGHT)];
      x := x + colW[column] + f.cellGap;
      column := column + 1;
    }
  }

  /** Row by row, from the block's top. */
  method PlaceMembers(b: Block, left: real, f: Frame, before: map<string, Spot>) returns (placed: map<string, Spot>)
    requires WellShaped(b) && Distinct(b.members)
    ensures Placed(placed, b, left, f, |b.members|)
    ensures Keeps(before, placed, Ids(b.members))
  {
    hide ColumnWidth, RowHeight, Placed, UpToRow;
    placed := before;
    var rowCount := RowCount(b);
    AllRows(b);
    NonePlaced(placed, b, left, f);
    var colW, rowH := Measure(b, rowCount);
    var rowTop := f.top + if b.section then SECTION_HEIGHT else 0.0;
    for row := 0 to rowCount
      invariant rowTop == f.top + (if b.section then SECTION_HEIGHT else 0.0) + RowOffset(b, row, f.cellGap)
      invariant Placed(placed, b, left, f, UpToRow(b, row))
      invariant Keeps(before, placed, Ids(b.members))
      invariant forall c :: 0 <= c < b.columns ==> colW[c] == ColumnWidth(b, c, |b.members|)
      invariant forall r :: 0 <= r < rowCount ==> rowH[r] == RowHeight(b, r, |b.members|)
    {
      placed := PlaceRow(b, left, f, row, rowTop, colW, placed);
      rowTop := rowTop + CAPTION_HEIGHT + rowH[row] + f.cellGap;
    }
  }

  function RowCount(b: Block): nat
    requires b.columns >= 1
  {
    (|b.members| + b.columns - 1) / b.columns
  }

  /** How many members lie in the rows before `row`. */
  function UpToRow(b: Block, row: nat): (n: nat)
    ensures n <= |b.members|
  {
    LeastOf(row * b.columns, |b.members|)
  }

  lemma {:induction false} WidthIs(b: Block, n: nat, gap: real)
    requires 1 <= n <= b.columns
    ensures SumOf(ColumnWidths(b), n) + gap * ((n - 1) as real) == ColumnOffset(b, n, gap) - gap
  {
    if n > 1 {
      WidthIs(b, n - 1, gap);
    }
  }

  function ColumnWidths(b: Block): seq<real>
    requires b.columns >= 1
  {
    seq(b.columns, c requires 0 <= c < b.columns => ColumnWidth(b, c, |b.members|))
  }

  function SumOf(s: seq<real>, n: nat): real
    requires n <= |s|
  {
    if n == 0 then 0.0 else SumOf(s, n - 1) + s[n - 1]
  }

  function LeastOf(a: nat, b: nat): (r: nat)
    ensures r <= a && r <= b && (r == a || r == b)
  {
    if a <= b then a else b
  }

  lemma AllRows(b: Block)
    requires b.columns >= 1
    ensures UpToRow(b, 0) == 0 && UpToRow(b, RowCount(b)) == |b.members|
    ensures forall i :: 0 <= i < |b.members| ==> i / b.columns < RowCount(b)
  {
    var rows := RowCount(b);
    var t := |b.members| + b.columns - 1;
    assert t == b.columns * rows + t % b.columns;
    forall i | 0 <= i < |b.members| ensures i / b.columns < rows {
      assert i == b.columns * (i / b.columns) + i % b.columns;
      TimesGrows(rows, i / b.columns, b.columns);
    }
  }

  ghost predicate AllPlaced(placed: map<string, Spot>, blocks: seq<Block>, k: nat, f: Frame)
    requires AllWellShaped(blocks) && k <= |blocks|
  {
    forall j :: 0 <= j < k ==> Placed(placed, blocks[j], BlockLeft(blocks, j, f), f, |blocks[j].members|)
  }

  /** Earlier blocks have other members. */
  lemma DisjointBlocks(groups: seq<Group>, boxes: seq<Box>, j: nat, k: nat, i: nat)
    requires j < k < |BlocksOf(groups, boxes)| && i < |BlocksOf(groups, boxes)[j].members|
    ensures BlocksOf(groups, boxes)[j].members[i].elementId !in Ids(BlocksOf(groups, boxes)[k].members)
  {
    PlanIs(groups, boxes);
    BlockAt(groups, boxes, j);
    BlockAt(groups, boxes, k);
  }

  lemma OneMoreBlock(groups: seq<Group>, boxes: seq<Box>, blocks: seq<Block>, before: map<string, Spot>,
      placed: map<string, Spot>, k: nat, f: Frame)
    requires blocks == BlocksOf(groups, boxes) && AllWellShaped(blocks) && k < |blocks|
    requires AllPlaced(before, blocks, k, f) && Keeps(before, placed, Ids(blocks[k].members))
    requires Placed(placed, blocks[k], BlockLeft(blocks, k, f), f, |blocks[k].members|)
    ensures AllPlaced(placed, blocks, k + 1, f)
  {
    forall j | 0 <= j < k ensures Placed(placed, blocks[j], BlockLeft(blocks, j, f), f, |blocks[j].members|) {
      forall i | 0 <= i < |blocks[j].members|
        ensures blocks[j].members[i].elementId in placed
        ensures placed[blocks[j].members[i].elementId] == before[blocks[j].members[i].elementId]
      {
        DisjointBlocks(groups, boxes, j, k, i);
      }
    }
  }

  lemma StartsLeft(blocks: seq<Block>, f: Frame)
    requires AllWellShaped(blocks)
    ensures BlockLeft(blocks, 0, f) == f.left && AllPlaced(map[], blocks, 0, f)
  {
  }

  lemma GoodBlock(groups: seq<Group>, boxes: seq<Box>, k: nat, f: Frame)
    requires k < |BlocksOf(groups, boxes)| && AllWellShaped(BlocksOf(groups, boxes))
    ensures var blocks := BlocksOf(groups, boxes);
            && WellShaped(blocks[k]) && Distinct(blocks[k].members)
            && BlockLeft(blocks, k + 1, f) == BlockLeft(blocks, k, f) + BlockWidth(blocks[k], f.cellGap) + f.groupGap
  {
    BlockAt(groups, boxes, k);
  }

  /** Lines the groups up, left to right. */
  method PlaceGroups(groups: seq<Group>, boxes: seq<Box>, planned: seq<Member>, spans: seq<Span>, f: Frame)
    returns (placed: map<string, Spot>)
    requires planned == Flat(BlocksOf(groups, boxes)) && spans == SpansOf(BlocksOf(groups, boxes))
    requires AllWellShaped(BlocksOf(groups, boxes))
    ensures AllPlaced(placed, BlocksOf(groups, boxes), |spans|, f)
  {
    ghost var blocks := BlocksOf(groups, boxes);
    hide BlocksOf, Placed, Keeps, Flat, SpansOf, Distinct, BlockWidth, BlockLeft;
    StartsLeft(blocks, f);
    placed := map[];
    var cursorX := f.left;
    for k := 0 to |spans|
      invariant |spans| == |blocks| && AllPlaced(placed, blocks, k, f)
      invariant cursorX == BlockLeft(blocks, k, f)
    {
      var span := spans[k];
      SpanAt(blocks, k);
      var b := Block(planned[span.start..span.start + span.count], span.columns, span.section);
      assert b == blocks[k];
      GoodBlock(groups, boxes, k, f);
      ghost var before := placed;
      placed := PlaceMembers(b, cursorX, f, placed);
      OneMoreBlock(groups, boxes, blocks, before, placed, k, f);
      var width := WidthOf(b, f.cellGap);
      cursorX := cursorX + width + f.groupGap;
    }
  }

  method WidthOf(b: Block, gap: real) returns (width: real)
    requires b.columns >= 1
    ensures width == BlockWidth(b, gap)
  {
    width := 0.0;
    for c := 0 to b.columns
      invariant width == SumOf(ColumnWidths(b), c)
    {
      width := width + ColumnWidth(b, c, |b.members|);
    }
    WidthIs(b, b.columns, gap);
    width := width + gap * ((b.columns - 1) as real);
  }

  lemma SpotIs(groups: seq<Group>, boxes: seq<Box>, placed: map<string, Spot>, f: Frame, n: nat)
    requires AllWellShaped(BlocksOf(groups, boxes)) && BlocksOf(groups, boxes) != []
    requires f == FrameOf(Flat(BlocksOf(groups, boxes)), boxes)
    requires AllPlaced(placed, BlocksOf(groups, boxes), |BlocksOf(groups, boxes)|, f)
    requires n < |LayoutOf(groups, boxes)|
    ensures n < |Flat(BlocksOf(groups, boxes))|
    ensures var m := Flat(BlocksOf(groups, boxes))[n];
            && m.elementId in placed
            && LayoutOf(groups, boxes)[n]
               == Placement(m.elementId, placed[m.elementId].0, placed[m.elementId].1, m.caption, m.section)
  {
    hide LayoutOf, BlocksOf, Origins, Flat, FrameOf, BlockOk, BlockLeft, ColumnOffset, RowOffset;
    var blocks := BlocksOf(groups, boxes);
    var g, k, i := PlacementFrom(groups, boxes, n);
    FlatAt(blocks, |blocks|, k, i);
    assert blocks[..|blocks|] == blocks;
    assert Placed(placed, blocks[k], BlockLeft(blocks, k, f), f, |blocks[k].members|);
  }

  /** Each planned member once, in order, at its spot. */
  method Report(planned: seq<Member>, placed: map<string, Spot>) returns (r: seq<Placement>)
    requires forall n :: 0 <= n < |planned| ==> planned[n].elementId in placed
    ensures |r| == |planned|
    ensures forall n :: 0 <= n < |r| ==>
              var m := planned[n];
              r[n] == Placement(m.elementId, placed[m.elementId].0, placed[m.elementId].1, m.caption, m.section)
  {
    r := [];
    for n := 0 to |planned|
      invariant |r| == n
      invariant forall j :: 0 <= j < n ==>
                  var m := planned[j];
                  r[j] == Placement(m.elementId, placed[m.elementId].0, placed[m.elementId].1, m.caption, m.section)
    {
      var m := planned[n];
      var spot := placed[m.elementId];
      r := r + [Placement(m.elementId, spot.0, spot.1, m.caption, m.section)];
    }
  }

  lemma ReportIsLayout(groups: seq<Group>, boxes: seq<Box>, placed: map<string, Spot>)
    requires AllWellShaped(BlocksOf(groups, boxes)) && BlocksOf(groups, boxes) != []
    requires AllPlaced(placed, BlocksOf(groups, boxes), |BlocksOf(groups, boxes)|, FrameOf(Flat(BlocksOf(groups, boxes)), boxes))
    ensures var flat := Flat(BlocksOf(groups, boxes));
            && |LayoutOf(groups, boxes)| == |flat|
            && forall n :: 0 <= n < |flat| ==>
                 && flat[n].elementId in placed
                 && LayoutOf(groups, boxes)[n]
                    == Placement(flat[n].elementId, placed[flat[n].elementId].0, placed[flat[n].elementId].1,
                                 flat[n].caption, flat[n].section)
  {
    LayoutLength(groups, boxes);
    forall n | 0 <= n < |Flat(BlocksOf(groups, boxes))|
      ensures var m := Flat(BlocksOf(groups, boxes))[n];
              && m.elementId in placed
              && LayoutOf(groups, boxes)[n]
               == Placement(m.elementId, placed[m.elementId].0, placed[m.elementId].1, m.caption, m.section)
    {
      SpotIs(groups, boxes, placed, FrameOf(Flat(BlocksOf(groups, boxes)), boxes), n);
    }
  }

  lemma BlocksAreFine(groups: seq<Group>, boxes: seq<Box>)
    ensures AllWellShaped(BlocksOf(groups, boxes))
    ensures Flat(BlocksOf(groups, boxes)) == [] <==> BlocksOf(groups, boxes) == []
    ensures BlocksOf(groups, boxes) == [] ==> LayoutOf(groups, boxes) == []
    ensures AllIds(BlocksOf(groups, boxes)) == Ids(Flat(BlocksOf(groups, boxes)))
    ensures |SpansOf(BlocksOf(groups, boxes))| == |BlocksOf(groups, boxes)|
  {
    PlanIs(groups, boxes);
    FlatIds(BlocksOf(groups, boxes));
    if BlocksOf(groups, boxes) != [] {
      FlatOfSome(BlocksOf(groups, boxes));
    }
  }

  /** The corner grows box by box. */
  method UnionOf(boxes: seq<Box>) returns (c: Corner)
    requires boxes != []
    ensures c == Union(boxes)
  {
    c := Corner(boxes[0].x, boxes[0].y, boxes[0].x + boxes[0].w);
    assert boxes[..1][0] == boxes[0];
    for i := 1 to |boxes|
      invariant c == Union(boxes[..i])
    {
      assert boxes[..i + 1][..i] == boxes[..i];
      c := Corner(Min(c.x, boxes[i].x), Min(c.y, boxes[i].y), Max(c.right, boxes[i].x + boxes[i].w));
    }
    assert boxes[..|boxes|] == boxes;
  }

  /** Plans the members, finds the frame, places every block, and reports. */
  method LayoutCanvasArrange(groups: seq<Group>, boxes: seq<Box>) returns (r: seq<Placement>)
    ensures r == LayoutOf(groups, boxes)
  {
    hide BlocksOf, Flat, SpansOf, LayoutOf, AllPlaced, Union, Others, Median;
    var planned, spans, seen := Plan(groups, boxes);
    BlocksAreFine(groups, boxes);
    if planned == [] {
      return [];
    }
    var moving := UnionOf(BoxesOf(planned));
    var others := Others(boxes, seen);
    var groupGap := GroupGap(planned);
    var cursorX := moving.x;
    if others != [] {
      var rest := UnionOf(others);
      cursorX := rest.right + groupGap;
    }
    var f := Frame(cursorX, moving.y, CellGap(planned), groupGap);
    var placed := PlaceGroups(groups, boxes, planned, spans, f);
    ReportIsLayout(groups, boxes, placed);
    r := Report(planned, placed);
  }
}
