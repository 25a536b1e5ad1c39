/** Which images an arrangement moves, group by group, and where each goes. */
module ArrangePlan {
  import opened Basics
  import opened CodeUnits

  datatype Box = Box(id: string, x: real, y: real, w: real, h: real)

  datatype Item = Item(elementId: string, caption: Option<Text>)

  datatype Group = Group(title: Option<Text>, columns: Option<real>, items: seq<Item>)

  datatype Placement = Placement(elementId: string, x: real, y: real, caption: Option<Text>, section: Text)

  datatype Member = Member(elementId: string, caption: Option<Text>, section: Text, box: Box)

  datatype Block = Block(members: seq<Member>, columns: nat, section: bool)

  const CAPTION_HEIGHT: real := 15.0 * 1.3 + 6.0
  const SECTION_HEIGHT: real := 18.0 * 1.3 + 6.0
  const LABEL_MAX: nat := 24

  function TrimEnd(t: Text): (r: Text)
    ensures r <= t && (r == [] || !IsSpace(r[|r| - 1]))
  {
    if t == [] || !IsSpace(t[|t| - 1]) then t else TrimEnd(t[..|t| - 1])
  }

  /** A label worth showing: trimmed, cut to its limit, and none rather than empty. */
  function Clean(value: Option<Text>): (r: Option<Text>)
    ensures r.Some? ==> 0 < |r.value| <= LABEL_MAX
  {
    if value.None? then None
    else
      var trimmed := TrimEnd(TrimStart(value.value));
      if trimmed == [] then None
      else if |trimmed| > LABEL_MAX then Some(trimmed[..LABEL_MAX])
      else Some(trimmed)
  }

  lemma {:induction false} TrimEndIs(t: Text)
    ensures AllSpace(t[|TrimEnd(t)|..])
  {
    hide IsSpace;
    if t != [] && IsSpace(t[|t| - 1]) {
      var front := t[..|t| - 1];
      TrimEndIs(front);
      var n := |TrimEnd(front)|;
      assert t[n..] == front[n..] + [t[|t| - 1]];
    }
  }

  /** `mid` with white space around it, and none at its ends. */
  ghost predicate Within(t: Text, mid: Text) {
    && mid != [] && !IsSpace(mid[0]) && !IsSpace(mid[|mid| - 1])
    && exists lead, trail :: AllSpace(lead) && AllSpace(trail) && t == lead + mid + trail
  }

  function Cut(t: Text): Text {
    if |t| > LABEL_MAX then t[..LABEL_MAX] else t
  }

  /** Nothing is left exactly of white space; else what stands between it, cut to the limit. */
  lemma CleanIs(value: Option<Text>)
    ensures match Clean(value)
            case None => value.None? || AllSpace(value.value)
            case Some(r) =>
              value.Some? && exists mid :: Within(value.value, mid) && r == Cut(mid)
  {
    hide IsSpace, TrimStart, TrimEnd, Within, AllSpace;
    if value.Some? {
      TrimmedIs(value.value);
    }
  }

  /** Taking the white space away at both ends. */
  lemma TrimmedIs(t: Text)
    ensures var mid := TrimEnd(TrimStart(t)); if mid == [] then AllSpace(t) else Within(t, mid)
  {
    hide IsSpace, TrimStart, TrimEnd, Within, AllSpace;
    var rest := TrimStart(t);
    var mid := TrimEnd(rest);
    TrimStartIs(t);
    TrimEndIs(rest);
    var lead, trail := t[..|t| - |rest|], rest[|mid|..];
    assert rest == mid + trail;
    assert t == lead + mid + trail;
    Surrounded(lead, mid, trail);
    SpaceEnds(t);
  }

  lemma SpaceEnds(t: Text)
    ensures var mid := TrimEnd(TrimStart(t));
      mid == [] || (!IsSpace(mid[0]) && !IsSpace(mid[|mid| - 1]))
  {
    hide IsSpace;
  }

  lemma Surrounded(lead: Text, mid: Text, trail: Text)
    requires AllSpace(lead) && AllSpace(trail)
    ensures mid == [] ==> AllSpace(lead + mid + trail)
    ensures mid != [] && !IsSpace(mid[0]) && !IsSpace(mid[|mid| - 1]) ==> Within(lead + mid + trail, mid)
  {
    hide IsSpace;
  }

  /** The last box given for an id. */
  function BoxOf(boxes: seq<Box>, id: string): (r: Option<Box>)
    ensures r.Some? ==> r.value in boxes && r.value.id == id
    ensures r.None? ==> forall b :: b in boxes ==> b.id != id
  {
    if boxes == [] then None
    else if boxes[|boxes| - 1].id == id then Some(boxes[|boxes| - 1])
    else
      assert boxes == boxes[..|boxes| - 1] + [boxes[|boxes| - 1]];
      BoxOf(boxes[..|boxes| - 1], id)
  }

  predicate Usable(boxes: seq<Box>, id: string) {
    var b := BoxOf(boxes, id);
    b.Some? && b.value.w > 0.0 && b.value.h > 0.0
  }

  function Ids(members: seq<Member>): set<string> {
    set m | m in members :: m.elementId
  }

  /** The members of one group: its usable items that nothing before them has taken. */
  function MembersOf(items: seq<Item>, boxes: seq<Box>, seen: set<string>): seq<Member> {
    if items == [] then []
    else
      var before := MembersOf(items[..|items| - 1], boxes, seen);
      var item := items[|items| - 1];
      if item.elementId in seen + Ids(before) || !Usable(boxes, item.elementId) then before
      else before + [Member(item.elementId, Clean(item.caption), [], BoxOf(boxes, item.elementId).value)]
  }

  /** The group's label goes on its first member. */
  function Labelled(members: seq<Member>, title: Option<Text>): (r: seq<Member>)
    requires members != []
    ensures |r| == |members| && forall i :: 0 <= i < |r| ==> r[i].elementId == members[i].elementId && r[i].box == members[i].box
  {
    if title.None? then members else [members[0].(section := title.value)] + members[1..]
  }

  function CeilSqrt(n: nat, from: nat): (r: nat)
    requires from == 0 || (from - 1) * (from - 1) < n
    ensures r >= from && n <= r * r && (r == 0 || (r - 1) * (r - 1) < n)
    decreases n - from
  {
    if n <= from * from then from
    else
      assert from < n || n == 0 || from == 0;
      CeilSqrt(n, from + 1)
  }

  /** The side of the least square that takes so many. */
  predicate IsSide(count: nat, r: nat) {
    count <= r * r && (r - 1) * (r - 1) < count
  }

  function Side(count: nat): (r: nat)
    requires count > 0
    ensures 1 <= r <= count && IsSide(count, r)
  {
    SideIsAtMost(count, CeilSqrt(count, 0));
    CeilSqrt(count, 0)
  }

  lemma SideIsAtMost(count: nat, r: nat)
    requires (r - 1) * (r - 1) < count
    ensures r <= count
  {
    if r > 1 {
      assert (r - 1) * (r - 1) >= r - 1;
    }
  }

  /** As many columns as were asked for, or the least square that takes all; never none, never more than members. */
  function ColumnCount(requested: Option<real>, count: nat): (r: nat)
    ensures 1 <= r && (count > 0 ==> r <= count)
    ensures requested.Some? && requested.value >= 1.0 && count > 0 ==>
              r as real <= requested.value && (r == count || requested.value < r as real + 1.0)
    ensures (requested.None? || requested.value < 1.0) && count > 0 ==> IsSide(count, r)
  {
    var auto := if count == 0 then 1 else Side(count);
    var chosen := if requested.Some? && requested.value >= 1.0 then requested.value.Floor else auto;
    var limited := if chosen <= count then chosen else count;
    if limited >= 1 then limited else 1
  }

  function AllIds(blocks: seq<Block>): set<string> {
    set b, m | b in blocks && m in b.members :: m.elementId
  }

  /** The groups that have something to move, in order. */
  function BlocksOf(groups: seq<Group>, boxes: seq<Box>): seq<Block> {
    if groups == [] then []
    else
      var before := BlocksOf(groups[..|groups| - 1], boxes);
      var group := groups[|groups| - 1];
      var members := MembersOf(group.items, boxes, AllIds(before));
      if members == [] then before
      else
        var title := Clean(group.title);
        before + [Block(Labelled(members, title), ColumnCount(group.columns, |members|), title.Some?)]
  }

  function Flat(blocks: seq<Block>): seq<Member> {
    if blocks == [] then [] else Flat(blocks[..|blocks| - 1]) + blocks[|blocks| - 1].members
  }

  // ---------------------------------------------------------------- the grid

  predicate WellShaped(b: Block) {
    b.columns >= 1 && b.members != [] && forall m :: m in b.members ==> m.box.w > 0.0 && m.box.h > 0.0
  }

  function ColumnAt(b: Block, i: nat): (c: nat)
    requires b.columns >= 1
    ensures c < b.columns
  {
    i % b.columns
  }

  function RowAt(b: Block, i: nat): nat
    requires b.columns >= 1
  {
    i / b.columns
  }

  /** The widest of the first `n` members in column `c`. */
  function ColumnWidth(b: Block, c: nat, n: nat): (w: real)
    requires b.columns >= 1 && n <= |b.members|
    ensures w >= 0.0
    ensures forall i :: 0 <= i < n && i % b.columns == c ==> b.members[i].box.w <= w
  {
    if n == 0 then 0.0
    else
      var w := ColumnWidth(b, c, n - 1);
      if (n - 1) % b.columns == c then Max(w, b.members[n - 1].box.w) else w
  }

  function RowHeight(b: Block, r: nat, n: nat): (h: real)
    requires b.columns >= 1 && n <= |b.members|
    ensures h >= 0.0
    ensures forall i :: 0 <= i < n && i / b.columns == r ==> b.members[i].box.h <= h
  {
    if n == 0 then 0.0
    else
      var h := RowHeight(b, r, n - 1);
      if (n - 1) / b.columns == r then Max(h, b.members[n - 1].box.h) else h
  }

  lemma {:induction false} WidthIsReached(b: Block, c: nat, n: nat)
    requires b.columns >= 1 && n <= |b.members|
    ensures ColumnWidth(b, c, n) == 0.0
         || exists i :: 0 <= i < n && i % b.columns == c && b.members[i].box.w == ColumnWidth(b, c, n)
  {
    if n > 0 {
      WidthIsReached(b, c, n - 1);
    }
  }

  lemma {:induction false} HeightIsReached(b: Block, r: nat, n: nat)
    requires b.columns >= 1 && n <= |b.members|
    ensures RowHeight(b, r, n) == 0.0
         || exists i :: 0 <= i < n && i / b.columns == r && b.members[i].box.h == RowHeight(b, r, n)
  {
    if n > 0 {
      HeightIsReached(b, r, n - 1);
    }
  }

  /** How far right of the block's left edge column `c` starts. */
  function ColumnOffset(b: Block, c: nat, gap: real): real
    requires b.columns >= 1
  {
    if c == 0 then 0.0 else ColumnOffset(b, c - 1, gap) + ColumnWidth(b, c - 1, |b.members|) + gap
  }

  /** How far below the block's first row row `r` starts; each row has room for captions above it. */
  function RowOffset(b: Block, r: nat, gap: real): real
    requires b.columns >= 1
  {
    if r == 0 then 0.0 else RowOffset(b, r - 1, gap) + CAPTION_HEIGHT + RowHeight(b, r - 1, |b.members|) + gap
  }

  function BlockWidth(b: Block, gap: real): real
    requires b.columns >= 1
  {
    ColumnOffset(b, b.columns, gap) - gap
  }

  datatype Frame = Frame(left: real, top: real, cellGap: real, groupGap: real)

  /** The left edge of block `k`. */
  function BlockLeft(blocks: seq<Block>, k: nat, f: Frame): real
    requires k <= |blocks| && forall j :: 0 <= j < |blocks| ==> WellShaped(blocks[j])
  {
    if k == 0 then f.left else BlockLeft(blocks, k - 1, f) + BlockWidth(blocks[k - 1], f.cellGap) + f.groupGap
  }

  function MemberX(b: Block, left: real, i: nat, f: Frame): real
    requires b.columns >= 1
  {
    left + ColumnOffset(b, i % b.columns, f.cellGap)
  }

  function MemberY(b: Block, i: nat, f: Frame): real
    requires b.columns >= 1
  {
    f.top + (if b.section then SECTION_HEIGHT else 0.0) + RowOffset(b, i / b.columns, f.cellGap) + CAPTION_HEIGHT
  }

  function PlaceMember(b: Block, left: real, i: nat, f: Frame): Placement
    requires b.columns >= 1 && i < |b.members|
  {
    var m := b.members[i];
    Placement(m.elementId, MemberX(b, left, i, f), MemberY(b, i, f), m.caption, m.section)
  }

  function PlaceBlock(b: Block, left: real, f: Frame): seq<Placement>
    requires b.columns >= 1
  {
    seq(|b.members|, i requires 0 <= i < |b.members| => PlaceMember(b, left, i, f))
  }

  function PlaceAll(blocks: seq<Block>, k: nat, f: Frame): (r: seq<Placement>)
    requires k <= |blocks| && forall j :: 0 <= j < |blocks| ==> WellShaped(blocks[j])
    ensures |r| == |Flat(blocks[..k])|
  {
    if k == 0 then []
    else
      assert blocks[..k][..k - 1] == blocks[..k - 1];
      PlaceAll(blocks, k - 1, f) + PlaceBlock(blocks[k - 1], BlockLeft(blocks, k - 1, f), f)
  }

  // ---------------------------------------------------------------- the frame

  predicate Ascending(s: seq<real>) {
    forall i, j :: 0 <= i < j < |s| ==> s[i] <= s[j]
  }

  function Insert(x: real, s: seq<real>): (r: seq<real>)
    ensures |r| == |s| + 1 && multiset(r) == multiset(s) + multiset{x}
  {
    if s == [] || x <= s[0] then [x] + s
    else
      assert s == [s[0]] + s[1..];
      [s[0]] + Insert(x, s[1..])
  }

  lemma {:induction false} InsertKeepsOrder(x: real, s: seq<real>)
    requires Ascending(s)
    ensures Ascending(Insert(x, s))
    ensures Insert(x, s)[0] == (if s == [] || x <= s[0] then x else s[0])
  {
    if s != [] && x > s[0] {
      InsertKeepsOrder(x, s[1..]);
      var rest := Insert(x, s[1..]);
      assert s[0] <= rest[0];
      assert forall j :: 0 < j < |rest| ==> rest[0] <= rest[j];
    }
  }

  function Sorted(s: seq<real>): (r: seq<real>)
    ensures |r| == |s| && multiset(r) == multiset(s)
  {
    if s == [] then []
    else
      assert s == [s[0]] + s[1..];
      Insert(s[0], Sorted(s[1..]))
  }

  lemma {:induction false} SortedIsAscending(s: seq<real>)
    ensures Ascending(Sorted(s))
  {
    if s != [] {
      SortedIsAscending(s[1..]);
      InsertKeepsOrder(s[0], Sorted(s[1..]));
    }
  }

  /** The lower median. */
  function Median(values: seq<real>): real {
    if values == [] then 360.0 else Sorted(values)[(|values| - 1) / 2]
  }

  function Count(s: seq<real>, chosen: real -> bool): nat {
    if s == [] then 0 else (if chosen(s[0]) then 1 else 0) + Count(s[1..], chosen)
  }

  lemma {:induction false} CountInserted(x: real, s: seq<real>, chosen: real -> bool)
    ensures Count(Insert(x, s), chosen) == Count(s, chosen) + if chosen(x) then 1 else 0
  {
    if s == [] || x <= s[0] {
      assert ([x] + s)[1..] == s;
    } else {
      CountInserted(x, s[1..], chosen);
      assert ([s[0]] + Insert(x, s[1..]))[1..] == Insert(x, s[1..]);
    }
  }

  lemma {:induction false} CountSorted(s: seq<real>, chosen: real -> bool)
    ensures Count(Sorted(s), chosen) == Count(s, chosen)
  {
    if s != [] {
      CountSorted(s[1..], chosen);
      CountInserted(s[0], Sorted(s[1..]), chosen);
    }
  }

  /** In an ascending list at most `k` values are less than the one at `k`, and more than `k` are no greater. */
  lemma {:induction false} CountAround(s: seq<real>, k: nat, m: real)
    requires Ascending(s) && k < |s| && m == s[k]
    ensures Count(s, v => v < m) <= k < Count(s, v => v <= m)
  {
    if k > 0 {
      CountAround(s[1..], k - 1, m);
    } else {
      NoneBelow(s, m);
    }
  }

  lemma {:induction false} NoneBelow(s: seq<real>, m: real)
    requires forall i :: 0 <= i < |s| ==> m <= s[i]
    ensures Count(s, v => v < m) == 0
  {
    if s != [] {
      NoneBelow(s[1..], m);
    }
  }

  /** One of the values, with at most half of the others below it and at least half not above it. */
  lemma MedianIs(values: seq<real>)
    requires values != []
    ensures Median(values) in values
    ensures 2 * Count(values, v => v < Median(values)) <= |values| - 1
    ensures |values| - 1 < 2 * Count(values, v => v <= Median(values))
  {
    var s, k := Sorted(values), (|values| - 1) / 2;
    var m := Median(values);
    SortedIsAscending(values);
    CountAround(s, k, m);
    CountSorted(values, v => v < m);
    CountSorted(values, v => v <= m);
    assert m in multiset(s);
  }

  function Clamp(value: real, min: real, max: real): real {
    Basics.Min(max, Basics.Max(min, value))
  }

  function ShortSides(members: seq<Member>): (r: seq<real>)
    ensures |r| == |members|
    ensures forall i :: 0 <= i < |r| ==>
              r[i] <= members[i].box.w && r[i] <= members[i].box.h && r[i] in {members[i].box.w, members[i].box.h}
  {
    seq(|members|, i requires 0 <= i < |members| => Min(members[i].box.w, members[i].box.h))
  }

  function CellGap(members: seq<Member>): (g: real)
    ensures 96.0 <= g <= 200.0
    ensures 96.0 < g ==> g <= Median(ShortSides(members)) * 0.22
    ensures g < 200.0 ==> Median(ShortSides(members)) * 0.22 <= g
  {
    Clamp(Median(ShortSides(members)) * 0.22, 96.0, 200.0)
  }

  function GroupGap(members: seq<Member>): (g: real)
    ensures 160.0 <= g <= 280.0
    ensures 160.0 < g ==> g <= Median(ShortSides(members)) * 0.5
    ensures g < 280.0 ==> Median(ShortSides(members)) * 0.5 <= g
  {
    Clamp(Median(ShortSides(members)) * 0.5, 160.0, 280.0)
  }

  /** The bounding corner of some boxes: least x, least y, greatest right edge. */
  datatype Corner = Corner(x: real, y: real, right: real)

  function Union(boxes: seq<Box>): Corner
    requires boxes != []
  {
    var last := boxes[|boxes| - 1];
    if |boxes| == 1 then Corner(last.x, last.y, last.x + last.w)
    else
      var c := Union(boxes[..|boxes| - 1]);
      Corner(Min(c.x, last.x), Min(c.y, last.y), Max(c.right, last.x + last.w))
  }

  lemma {:induction false} UnionBounds(boxes: seq<Box>)
    requires boxes != []
    ensures forall i :: 0 <= i < |boxes| ==>
              Union(boxes).x <= boxes[i].x && Union(boxes).y <= boxes[i].y && boxes[i].x + boxes[i].w <= Union(boxes).right
  {
    if |boxes| > 1 {
      UnionBounds(boxes[..|boxes| - 1]);
    }
  }

  /** Each edge of the corner is that of one of the boxes. */
  lemma {:induction false} UnionIsReached(boxes: seq<Box>) returns (i: nat, j: nat, k: nat)
    requires boxes != []
    ensures i < |boxes| && boxes[i].x == Union(boxes).x
    ensures j < |boxes| && boxes[j].y == Union(boxes).y
    ensures k < |boxes| && boxes[k].x + boxes[k].w == Union(boxes).right
  {
    var last := |boxes| - 1;
    i, j, k := last, last, last;
    if last > 0 {
      var front := boxes[..last];
      i, j, k := UnionIsReached(front);
      if boxes[last].x < front[i].x {
        i := last;
      }
      if boxes[last].y < front[j].y {
        j := last;
      }
      if boxes[last].x + boxes[last].w > front[k].x + front[k].w {
        k := last;
      }
    }
  }

  function Others(boxes: seq<Box>, moved: set<string>): (r: seq<Box>)
    ensures forall b :: b in r <==> b in boxes && b.id !in moved
  {
    if boxes == [] then []
    else
      var before := Others(boxes[..|boxes| - 1], moved);
      assert boxes == boxes[..|boxes| - 1] + [boxes[|boxes| - 1]];
      if boxes[|boxes| - 1].id in moved then before else before + [boxes[|boxes| - 1]]
  }

  function BoxesOf(members: seq<Member>): seq<Box> {
    seq(|members|, i requires 0 <= i < |members| => members[i].box)
  }

  function FrameOf(members: seq<Member>, boxes: seq<Box>): Frame
    requires members != []
  {
    var moving := Union(BoxesOf(members));
    var others := Others(boxes, Ids(members));
    var groupGap := GroupGap(members);
    Frame(if others != [] then Union(others).right + groupGap else moving.x, moving.y, CellGap(members), groupGap)
  }
}
