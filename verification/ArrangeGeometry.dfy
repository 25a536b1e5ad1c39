/** What an arrangement promises: who is placed, how far apart, and clear of what stays. */
module ArrangeGeometry {
  import opened Basics
  import opened CodeUnits
  import opened ArrangePlan

  // ---------------------------------------------------------------- who is placed

  predicate Lists(g: Group, id: string) {
    exists i :: 0 <= i < |g.items| && g.items[i].elementId == id
  }

  /** The first group that lists an id, or the number of groups. */
  function FirstListing(groups: seq<Group>, id: string): (g: nat)
    ensures g <= |groups| && (g < |groups| ==> Lists(groups[g], id))
    ensures forall j :: 0 <= j < g ==> !Lists(groups[j], id)
  {
    if groups == [] then 0
    else
      var before := FirstListing(groups[..|groups| - 1], id);
      if before < |groups| - 1 then before
      else if Lists(groups[|groups| - 1], id) then |groups| - 1
      else |groups|
  }

  predicate Distinct(members: seq<Member>) {
    forall i, j :: 0 <= i < j < |members| ==> members[i].elementId != members[j].elementId
  }

  lemma ListsOneMore(items: seq<Item>, id: string)
    requires items != []
    ensures Lists(Group(None, None, items), id)
      <==> Lists(Group(None, None, items[..|items| - 1]), id) || id == items[|items| - 1].elementId
  {
    var front, g := items[..|items| - 1], Group(None, None, items);
    if Lists(Group(None, None, front), id) {
      var i :| 0 <= i < |front| && front[i].elementId == id;
      assert g.items[i].elementId == id;
    }
    assert g.items[|items| - 1] == items[|items| - 1];
  }

  /** The first item that names an id, or the number of items. */
  function FirstItem(items: seq<Item>, id: string): (i: nat)
    ensures i <= |items| && (i < |items| ==> items[i].elementId == id)
    ensures forall j :: 0 <= j < i ==> items[j].elementId != id
  {
    if items == [] then 0
    else
      var before := FirstItem(items[..|items| - 1], id);
      if before < |items| - 1 then before
      else if items[|items| - 1].elementId == id then |items| - 1
      else |items|
  }

  /** Members come in the order of the items that first name them, each with that item's caption. */
  predicate InItemOrder(items: seq<Item>, m: seq<Member>) {
    && (forall i :: 0 <= i < |m| ==>
          && FirstItem(items, m[i].elementId) < |items|
          && m[i].caption == Clean(items[FirstItem(items, m[i].elementId)].caption))
    && (forall i, j :: 0 <= i < j < |m| ==> FirstItem(items, m[i].elementId) < FirstItem(items, m[j].elementId))
  }

  lemma FirstItemLists(items: seq<Item>, id: string)
    ensures FirstItem(items, id) < |items| <==> Lists(Group(None, None, items), id)
  {
    var g := Group(None, None, items);
    if FirstItem(items, id) < |items| {
      assert g.items[FirstItem(items, id)].elementId == id;
    }
  }

  /** One more item brings at most one more member. */
  lemma MembersGrow(items: seq<Item>, boxes: seq<Box>, seen: set<string>)
    requires items != []
    ensures var before, m := MembersOf(items[..|items| - 1], boxes, seen), MembersOf(items, boxes, seen);
      var item := items[|items| - 1];
      if item.elementId in seen + Ids(before) || !Usable(boxes, item.elementId) then m == before
      else
        && |m| == |before| + 1 && m == before + [m[|before|]] && m[|before|].elementId == item.elementId
        && m[|before|].caption == Clean(item.caption) && m[|before|].section == []
        && BoxOf(boxes, item.elementId) == Some(m[|before|].box)
  {
    hide BoxOf, Clean, Ids;
  }

  lemma {:induction false} MembersInOrder(items: seq<Item>, boxes: seq<Box>, seen: set<string>)
    ensures InItemOrder(items, MembersOf(items, boxes, seen))
  {
    if items != [] {
      hide BoxOf, Clean, Usable, Lists, MembersOf, InItemOrder, Ids, Distinct, FirstItem;
      var front, item := items[..|items| - 1], items[|items| - 1];
      MembersInOrder(front, boxes, seen);
      var before, m := MembersOf(front, boxes, seen), MembersOf(items, boxes, seen);
      MembersGrow(items, boxes, seen);
      OrderStays(items, before);
      if m != before {
        MembersAre(front, boxes, seen);
        FirstItemLists(front, item.elementId);
        OrderGrows(items, before, m[|before|]);
      }
    }
  }

  lemma OrderStays(items: seq<Item>, before: seq<Member>)
    requires items != [] && InItemOrder(items[..|items| - 1], before)
    ensures InItemOrder(items, before)
  {
    hide Clean;
    forall i | 0 <= i < |before|
      ensures FirstItem(items, before[i].elementId) == FirstItem(items[..|items| - 1], before[i].elementId)
    {
    }
  }

  lemma OrderGrows(items: seq<Item>, before: seq<Member>, m: Member)
    requires items != [] && InItemOrder(items[..|items| - 1], before) && InItemOrder(items, before)
    requires FirstItem(items[..|items| - 1], m.elementId) == |items| - 1
    requires m.elementId == items[|items| - 1].elementId && m.caption == Clean(items[|items| - 1].caption)
    ensures InItemOrder(items, before + [m])
  {
    hide Clean;
    assert FirstItem(items, m.elementId) == |items| - 1;
    forall i | 0 <= i < |before| ensures FirstItem(items, before[i].elementId) < |items| - 1 {
    }
  }

  lemma {:induction false} MembersAre(items: seq<Item>, boxes: seq<Box>, seen: set<string>)
    ensures var m := MembersOf(items, boxes, seen);
            && Distinct(m)
            && (forall i :: 0 <= i < |m| ==> BoxOf(boxes, m[i].elementId) == Some(m[i].box) && m[i].section == [])
            && (forall id :: id in Ids(m) <==> id !in seen && Usable(boxes, id) && Lists(Group(None, None, items), id))
  {
    if items != [] {
      var front, item := items[..|items| - 1], items[|items| - 1];
      MembersAre(front, boxes, seen);
      forall id
        ensures Lists(Group(None, None, items), id) <==> Lists(Group(None, None, front), id) || id == item.elementId
      {
        ListsOneMore(items, id);
      }
      hide Lists, BoxOf, MembersOf, Usable, Ids, Distinct, Clean;
      var before, m := MembersOf(front, boxes, seen), MembersOf(items, boxes, seen);
      MembersGrow(items, boxes, seen);
      if m != before {
        OneMoreId(before, m[|before|]);
      }
    }
  }

  lemma OneMoreId(before: seq<Member>, m: Member)
    ensures Ids(before + [m]) == Ids(before) + {m.elementId}
    ensures Distinct(before) && m.elementId !in Ids(before) ==> Distinct(before + [m])
  {
    var all := before + [m];
    assert all[|before|] == m && forall x :: x in all <==> x in before || x == m;
    assert forall i :: 0 <= i < |before| ==> before[i] in before && before[i].elementId in Ids(before);
  }

  /** Which group each block came from. */
  ghost function Origins(groups: seq<Group>, boxes: seq<Box>): (r: seq<nat>)
    ensures |r| == |BlocksOf(groups, boxes)|
    ensures forall k :: 0 <= k < |r| ==> r[k] < |groups|
  {
    if groups == [] then []
    else
      var before := groups[..|groups| - 1];
      if MembersOf(groups[|groups| - 1].items, boxes, AllIds(BlocksOf(before, boxes))) == [] then Origins(before, boxes)
      else Origins(before, boxes) + [|groups| - 1]
  }

  /** The group's title, if it has one worth showing, is on the first member only, and the items say the rest. */
  predicate LabelsOk(group: Group, members: seq<Member>) {
    && InItemOrder(group.items, members)
    && forall i :: 0 <= i < |members| ==>
         members[i].section == if i == 0 && Clean(group.title).Some? then Clean(group.title).value else []
  }

  ghost predicate BlockOk(groups: seq<Group>, boxes: seq<Box>, b: Block, origin: nat) {
    && WellShaped(b) && b.columns <= |b.members| && Distinct(b.members)
    && origin < |groups| && b.columns == ColumnCount(groups[origin].columns, |b.members|)
    && b.section == Clean(groups[origin].title).Some? && LabelsOk(groups[origin], b.members)
    && (forall i :: 0 <= i < |b.members| ==>
          && BoxOf(boxes, b.members[i].elementId) == Some(b.members[i].box)
          && FirstListing(groups, b.members[i].elementId) == origin
          && (b.members[i].section != [] ==> i == 0 && b.section))
  }

  lemma AllIdsOfOneMore(blocks: seq<Block>, b: Block)
    ensures AllIds(blocks + [b]) == AllIds(blocks) + Ids(b.members)
  {
    var all := blocks + [b];
    assert all[|blocks|] == b;
    forall id ensures id in AllIds(all) <==> id in AllIds(blocks) + Ids(b.members) {
      if id in AllIds(all) {
        var c, m :| c in all && m in c.members && m.elementId == id;
        assert c in blocks || c == b;
      }
      if id in AllIds(blocks) {
        var c, m :| c in blocks && m in c.members && m.elementId == id;
        assert c in all;
      }
      if id in Ids(b.members) {
        var m :| m in b.members && m.elementId == id;
        assert b in all && m in b.members;
      }
    }
  }

  lemma LabelledIds(members: seq<Member>, title: Option<Text>)
    requires members != []
    ensures Ids(Labelled(members, title)) == Ids(members)
  {
    var r := Labelled(members, title);
    forall id ensures id in Ids(r) <==> id in Ids(members) {
      if id in Ids(r) {
        var i :| 0 <= i < |r| && r[i].elementId == id;
        assert members[i] in members;
      }
      if id in Ids(members) {
        var i :| 0 <= i < |members| && members[i].elementId == id;
        assert r[i] in r;
      }
    }
  }

  ghost predicate PlanOk(groups: seq<Group>, boxes: seq<Box>, blocks: seq<Block>, origins: seq<nat>) {
    && |origins| == |blocks|
    && (forall k :: 0 <= k < |blocks| ==> origins[k] < |groups| && BlockOk(groups, boxes, blocks[k], origins[k]))
    && (forall k, l :: 0 <= k < l < |blocks| ==> origins[k] < origins[l])
    && (forall id :: id in AllIds(blocks) <==> Usable(boxes, id) && FirstListing(groups, id) < |groups|)
  }

  /** The block of the last group, given what the groups before it took. */
  lemma LastBlockIs(groups: seq<Group>, boxes: seq<Box>, taken: set<string>)
    requires groups != []
    requires forall id :: id in taken <==> Usable(boxes, id) && FirstListing(groups[..|groups| - 1], id) < |groups| - 1
    ensures var last := groups[|groups| - 1];
            var members := MembersOf(last.items, boxes, taken);
            && (forall id :: id in taken + Ids(members) <==> Usable(boxes, id) && FirstListing(groups, id) < |groups|)
            && (members != [] ==>
                  BlockOk(groups, boxes,
                          Block(Labelled(members, Clean(last.title)), ColumnCount(last.columns, |members|), Clean(last.title).Some?),
                          |groups| - 1))
  {
    hide MembersOf, BoxOf, CeilSqrt, Clean, Usable, FirstListing, Lists, Distinct;
    var last := groups[|groups| - 1];
    var members := MembersOf(last.items, boxes, taken);
    MembersAre(last.items, boxes, taken);
    MembersInOrder(last.items, boxes, taken);
    forall id
      ensures id in taken + Ids(members) <==> Usable(boxes, id) && FirstListing(groups, id) < |groups|
      ensures id in Ids(members) ==> FirstListing(groups, id) == |groups| - 1 && Usable(boxes, id)
    {
      ListingGrows(groups, id);
    }
    if members != [] {
      forall i | 0 <= i < |members| ensures members[i].elementId in Ids(members) {
        assert members[i] in members;
      }
      BlockIsOk(groups, boxes, members, |groups| - 1);
    }
  }

  lemma LabelledOk(group: Group, members: seq<Member>)
    requires members != [] && InItemOrder(group.items, members)
    requires forall i :: 0 <= i < |members| ==> members[i].section == []
    ensures LabelsOk(group, Labelled(members, Clean(group.title)))
  {
    hide Clean, FirstItem;
    var r := Labelled(members, Clean(group.title));
    assert forall i :: 0 < i < |r| ==> r[i] == members[i];
  }

  lemma BlockIsOk(groups: seq<Group>, boxes: seq<Box>, members: seq<Member>, origin: nat)
    requires members != [] && Distinct(members) && origin < |groups| && InItemOrder(groups[origin].items, members)
    requires forall i :: 0 <= i < |members| ==>
      && BoxOf(boxes, members[i].elementId) == Some(members[i].box) && Usable(boxes, members[i].elementId)
      && FirstListing(groups, members[i].elementId) == origin && members[i].section == []
    ensures var title, columns := Clean(groups[origin].title), ColumnCount(groups[origin].columns, |members|);
      BlockOk(groups, boxes, Block(Labelled(members, title), columns, title.Some?), origin)
  {
    hide BoxOf, FirstListing, Clean, ColumnCount, LabelsOk, Labelled, InItemOrder;
    var title := Clean(groups[origin].title);
    LabelledOk(groups[origin], members);
    LabelledSame(members, title);
    var r := Labelled(members, title);
    forall m | m in r ensures m.box.w > 0.0 && m.box.h > 0.0 {
      var i :| 0 <= i < |r| && r[i] == m;
      assert members[i].box == m.box;
    }
  }

  /** Only the first member has a label. */
  lemma LabelledSame(members: seq<Member>, title: Option<Text>)
    requires members != [] && forall i :: 0 <= i < |members| ==> members[i].section == []
    ensures var r := Labelled(members, title);
      forall i :: 0 <= i < |r| && r[i].section != [] ==> i == 0 && title.Some?
  {
    assert forall i :: 0 < i < |members| ==> Labelled(members, title)[i] == members[i];
  }

  lemma ListingGrows(groups: seq<Group>, id: string)
    requires groups != []
    ensures var front, last := groups[..|groups| - 1], groups[|groups| - 1];
      && Lists(last, id) == Lists(Group(None, None, last.items), id)
      && FirstListing(groups, id) ==
        if FirstListing(front, id) < |front| then FirstListing(front, id) else if Lists(last, id) then |front| else |groups|
  {
  }

  /** The plan of the groups before, with the last group's block if it has one, is the plan of all. */
  lemma PlanGrows(groups: seq<Group>, boxes: seq<Box>, before: seq<Block>, origins: seq<nat>)
    requires groups != [] && PlanOk(groups[..|groups| - 1], boxes, before, origins)
    ensures var last := groups[|groups| - 1];
      var members := MembersOf(last.items, boxes, AllIds(before));
      if members == [] then PlanOk(groups, boxes, before, origins)
      else
        var title := Clean(last.title);
        var b := Block(Labelled(members, title), ColumnCount(last.columns, |members|), title.Some?);
        PlanOk(groups, boxes, before + [b], origins + [|groups| - 1])
  {
    hide MembersOf, BoxOf, Clean, Usable, BlockOk, FirstListing, Lists, Labelled, ColumnCount, CeilSqrt, Ids, AllIds;
    LastBlockIs(groups, boxes, AllIds(before));
    forall k | 0 <= k < |before| ensures BlockOk(groups, boxes, before[k], origins[k]) {
      BlockStaysOk(groups, boxes, before[k], origins[k]);
    }
    var last := groups[|groups| - 1];
    var members := MembersOf(last.items, boxes, AllIds(before));
    if members != [] {
      var title := Clean(last.title);
      var b := Block(Labelled(members, title), ColumnCount(last.columns, |members|), title.Some?);
      AllIdsOfOneMore(before, b);
      LabelledIds(members, title);
    } else {
      assert Ids(members) == {} by { NothingPlanned(); }
    }
  }

  /** Every usable id some group lists is in exactly one block, the one of the first group listing it. */
  lemma {:induction false} PlanIs(groups: seq<Group>, boxes: seq<Box>)
    ensures PlanOk(groups, boxes, BlocksOf(groups, boxes), Origins(groups, boxes))
  {
    hide PlanOk, MembersOf, Clean, Labelled, ColumnCount, AllIds;
    if groups == [] {
      assert PlanOk([], boxes, [], []) by { NoGroups(boxes); }
    } else {
      var front := groups[..|groups| - 1];
      PlanIs(front, boxes);
      PlanGrows(groups, boxes, BlocksOf(front, boxes), Origins(front, boxes));
    }
  }

  lemma NoGroups(boxes: seq<Box>)
    ensures PlanOk([], boxes, [], [])
  {
    NothingPlanned();
  }

  lemma NothingPlanned()
    ensures AllIds([]) == {} && Ids([]) == {}
  {
  }

  lemma BlockStaysOk(groups: seq<Group>, boxes: seq<Box>, b: Block, origin: nat)
    requires groups != [] && origin < |groups| - 1 && BlockOk(groups[..|groups| - 1], boxes, b, origin)
    ensures BlockOk(groups, boxes, b, origin)
  {
    hide BoxOf, FirstListing;
    forall i | 0 <= i < |b.members| ensures FirstListing(groups, b.members[i].elementId) == origin {
      ListingGrows(groups, b.members[i].elementId);
    }
  }

  // ---------------------------------------------------------------- how far apart

  lemma {:induction false} ColumnsStepRight(b: Block, c: nat, d: nat, gap: real)
    requires b.columns >= 1 && gap >= 0.0 && c < d
    ensures 0.0 <= ColumnOffset(b, c, gap)
    ensures ColumnOffset(b, c, gap) + ColumnWidth(b, c, |b.members|) + gap <= ColumnOffset(b, d, gap)
    decreases d
  {
    if c > 0 {
      ColumnsStepRight(b, 0, c, gap);
    }
    if c + 1 < d {
      ColumnsStepRight(b, c, d - 1, gap);
    }
  }

  lemma {:induction false} RowsStepDown(b: Block, r: nat, s: nat, gap: real)
    requires b.columns >= 1 && gap >= 0.0 && r < s
    ensures 0.0 <= RowOffset(b, r, gap)
    ensures RowOffset(b, r, gap) + CAPTION_HEIGHT + RowHeight(b, r, |b.members|) + gap <= RowOffset(b, s, gap)
    decreases s
  {
    if r > 0 {
      RowsStepDown(b, 0, r, gap);
    }
    if r + 1 < s {
      RowsStepDown(b, r, s - 1, gap);
    }
  }

  /** An image and the strip for its caption above it. */
  datatype Rect = Rect(left: real, top: real, right: real, bottom: real)

  function Card(x: real, y: real, box: Box): Rect {
    Rect(x, y - CAPTION_HEIGHT, x + box.w, y + box.h)
  }

  predicate Apart(a: Rect, b: Rect, gap: real) {
    || a.right + gap <= b.left || b.right + gap <= a.left
    || a.bottom + gap <= b.top || b.bottom + gap <= a.top
  }

  lemma CellsDiffer(i: nat, j: nat, columns: nat)
    requires columns >= 1 && i % columns == j % columns && i / columns == j / columns
    ensures i == j
  {
    assert i == columns * (i / columns) + i % columns;
    assert j == columns * (j / columns) + j % columns;
  }

  /** Inside a block: another column, or another row. */
  lemma ApartInBlock(b: Block, left: real, f: Frame, i: nat, j: nat)
    requires WellShaped(b) && f.cellGap >= 0.0 && i < |b.members| && j < |b.members| && i != j
    ensures Apart(Card(MemberX(b, left, i, f), MemberY(b, i, f), b.members[i].box),
                  Card(MemberX(b, left, j, f), MemberY(b, j, f), b.members[j].box), f.cellGap)
  {
    var c, d := i % b.columns, j % b.columns;
    var r, s := i / b.columns, j / b.columns;
    if c < d {
      ColumnsStepRight(b, c, d, f.cellGap);
    } else if d < c {
      ColumnsStepRight(b, d, c, f.cellGap);
    } else if r < s {
      RowsStepDown(b, r, s, f.cellGap);
    } else if s < r {
      RowsStepDown(b, s, r, f.cellGap);
    } else {
      CellsDiffer(i, j, b.columns);
    }
  }

  lemma InsideBlock(b: Block, left: real, f: Frame, i: nat)
    requires WellShaped(b) && f.cellGap >= 0.0 && i < |b.members|
    ensures left <= MemberX(b, left, i, f)
    ensures MemberX(b, left, i, f) + b.members[i].box.w <= left + BlockWidth(b, f.cellGap)
    ensures f.top + (if b.section then SECTION_HEIGHT else 0.0) + CAPTION_HEIGHT <= MemberY(b, i, f)
  {
    hide ColumnOffset, RowOffset, ColumnWidth, RowHeight;
    var c, r := i % b.columns, i / b.columns;
    ColumnsStepRight(b, c, b.columns, f.cellGap);
    RowsStepDown(b, r, r + 1, f.cellGap);
    assert b.members[i].box.w <= ColumnWidth(b, c, |b.members|);
  }

  /** The first member is at the left edge, under the section strip and its caption. */
  lemma FirstMember(b: Block, left: real, f: Frame)
    requires b.columns >= 1
    ensures MemberX(b, left, 0, f) == left
    ensures MemberY(b, 0, f) == f.top + (if b.section then SECTION_HEIGHT else 0.0) + CAPTION_HEIGHT
  {
    assert 0 % b.columns == 0 && 0 / b.columns == 0;
  }

  ghost predicate AllWellShaped(blocks: seq<Block>) {
    forall j :: 0 <= j < |blocks| ==> WellShaped(blocks[j])
  }

  lemma {:induction false} BlocksStepRight(blocks: seq<Block>, k: nat, l: nat, f: Frame)
    requires AllWellShaped(blocks) && k < l <= |blocks| && f.cellGap >= 0.0 && f.groupGap >= 0.0
    ensures BlockLeft(blocks, k, f) + BlockWidth(blocks[k], f.cellGap) + f.groupGap <= BlockLeft(blocks, l, f)
    decreases l
  {
    if k + 1 < l {
      BlocksStepRight(blocks, k, l - 1, f);
      InsideBlock(blocks[l - 1], 0.0, f, 0);
    }
  }

  lemma LeftmostBlock(blocks: seq<Block>, k: nat, f: Frame)
    requires AllWellShaped(blocks) && k < |blocks| && f.cellGap >= 0.0 && f.groupGap >= 0.0
    ensures f.left <= BlockLeft(blocks, k, f)
  {
    if k > 0 {
      BlocksStepRight(blocks, 0, k, f);
      InsideBlock(blocks[0], 0.0, f, 0);
    }
  }

  // ---------------------------------------------------------------- the whole arrangement

  /** The placements an arrangement makes. */
  function LayoutOf(groups: seq<Group>, boxes: seq<Box>): seq<Placement> {
    PlanIs(groups, boxes);
    var blocks := BlocksOf(groups, boxes);
    if blocks == [] then []
    else
      FlatOfSome(blocks);
      PlaceAll(blocks, |blocks|, FrameOf(Flat(blocks), boxes))
  }

  lemma FlatOfSome(blocks: seq<Block>)
    requires blocks != [] && AllWellShaped(blocks)
    ensures Flat(blocks) != []
  {
    assert WellShaped(blocks[|blocks| - 1]);
  }

  /** The `n`-th placement is of member `i` of block `j`. */
  lemma {:induction false} PlacedFrom(blocks: seq<Block>, k: nat, f: Frame, n: nat) returns (j: nat, i: nat)
    requires AllWellShaped(blocks) && k <= |blocks| && n < |PlaceAll(blocks, k, f)|
    ensures j < k && i < |blocks[j].members| && n == |Flat(blocks[..j])| + i
    ensures PlaceAll(blocks, k, f)[n] == PlaceMember(blocks[j], BlockLeft(blocks, j, f), i, f)
    decreases k
  {
    var before := PlaceAll(blocks, k - 1, f);
    if n < |before| {
      j, i := PlacedFrom(blocks, k - 1, f, n);
    } else {
      j, i := k - 1, n - |before|;
    }
  }

  lemma {:induction false} PlacedAt(blocks: seq<Block>, k: nat, f: Frame, j: nat, i: nat)
    requires AllWellShaped(blocks) && j < k <= |blocks| && i < |blocks[j].members|
    ensures |Flat(blocks[..j])| + i < |PlaceAll(blocks, k, f)|
    ensures PlaceAll(blocks, k, f)[|Flat(blocks[..j])| + i] == PlaceMember(blocks[j], BlockLeft(blocks, j, f), i, f)
    decreases k
  {
    hide PlaceMember, BlockLeft, WellShaped, Flat;
    if j < k - 1 {
      PlacedAt(blocks, k - 1, f, j, i);
    }
  }

  lemma {:induction false} FlatIds(blocks: seq<Block>)
    ensures Ids(Flat(blocks)) == AllIds(blocks)
  {
    if blocks != [] {
      var front := blocks[..|blocks| - 1];
      var last := blocks[|blocks| - 1];
      FlatIds(front);
      assert blocks == front + [last];
      AllIdsOfOneMore(front, last);
      forall id ensures id in Ids(Flat(blocks)) <==> id in Ids(Flat(front)) + Ids(last.members) {
        if id in Ids(Flat(blocks)) {
          var m :| m in Flat(blocks) && m.elementId == id;
          assert m in Flat(front) || m in last.members;
        }
        if id in Ids(Flat(front)) + Ids(last.members) {
          var m :| (m in Flat(front) || m in last.members) && m.elementId == id;
          assert m in Flat(blocks);
        }
      }
    }
  }

  lemma BlockAt(groups: seq<Group>, boxes: seq<Box>, k: nat)
    requires k < |BlocksOf(groups, boxes)|
    ensures AllWellShaped(BlocksOf(groups, boxes))
    ensures BlockOk(groups, boxes, BlocksOf(groups, boxes)[k], Origins(groups, boxes)[k])
  {
    PlanIs(groups, boxes);
    assert forall j :: 0 <= j < |BlocksOf(groups, boxes)| ==>
        BlockOk(groups, boxes, BlocksOf(groups, boxes)[j], Origins(groups, boxes)[j]);
  }

  lemma FrameGaps(members: seq<Member>, boxes: seq<Box>)
    requires members != []
    ensures var f := FrameOf(members, boxes); f.cellGap == CellGap(members) && f.groupGap == GroupGap(members)
  {
  }

  /** The `n`-th placement is of member `i` of the `k`-th block of the plan. */
  lemma PlacementFrom(groups: seq<Group>, boxes: seq<Box>, n: nat) returns (f: Frame, k: nat, i: nat)
    requires n < |LayoutOf(groups, boxes)|
    ensures var blocks := BlocksOf(groups, boxes);
            && AllWellShaped(blocks) && Flat(blocks) != [] && f == FrameOf(Flat(blocks), boxes)
            && f.cellGap == CellGap(Flat(blocks)) && f.groupGap == GroupGap(Flat(blocks))
            && k < |blocks| && i < |blocks[k].members| && n == |Flat(blocks[..k])| + i
            && LayoutOf(groups, boxes)[n] == PlaceMember(blocks[k], BlockLeft(blocks, k, f), i, f)
            && BlockOk(groups, boxes, blocks[k], Origins(groups, boxes)[k])
  {
    hide BlocksOf, Origins, Flat, FrameOf, PlaceAll, PlaceMember, BlockLeft, BlockOk;
    var blocks := BlocksOf(groups, boxes);
    PlanIs(groups, boxes);
    assert blocks != [];
    BlockAt(groups, boxes, 0);
    FlatOfSome(blocks);
    FrameGaps(Flat(blocks), boxes);
    f := FrameOf(Flat(blocks), boxes);
    k, i := PlacedFrom(blocks, |blocks|, f, n);
    BlockAt(groups, boxes, k);
  }

  /** An id is placed exactly when some group lists it and the canvas has a box of some size for it. */
  lemma PlacedExactlyWhen(groups: seq<Group>, boxes: seq<Box>, id: string)
    ensures (exists a :: 0 <= a < |LayoutOf(groups, boxes)| && LayoutOf(groups, boxes)[a].elementId == id)
        <==> Usable(boxes, id) && exists g :: 0 <= g < |groups| && Lists(groups[g], id)
  {
    PlanIs(groups, boxes);
    hide BlocksOf, Origins, BoxOf, Flat, FrameOf, BlockOk, Usable, BlockLeft, MemberX, MemberY, PlaceAll;
    var blocks := BlocksOf(groups, boxes);
    var layout := LayoutOf(groups, boxes);
    if blocks != [] {
      BlockAt(groups, boxes, 0);
      FlatOfSome(blocks);
      var f := FrameOf(Flat(blocks), boxes);
      if a :| 0 <= a < |layout| && layout[a].elementId == id {
        var j, i := PlacedFrom(blocks, |blocks|, f, a);
        assert blocks[j] in blocks && blocks[j].members[i] in blocks[j].members;
        assert id in AllIds(blocks);
      }
      if id in AllIds(blocks) {
        var b, m :| b in blocks && m in b.members && m.elementId == id;
        var j :| 0 <= j < |blocks| && blocks[j] == b;
        var i :| 0 <= i < |b.members| && b.members[i] == m;
        PlacedAt(blocks, |blocks|, f, j, i);
      }
    }
    assert FirstListing(groups, id) < |groups| <==> exists g :: 0 <= g < |groups| && Lists(groups[g], id);
  }

  /**
   * Two placements are of different images.  In one group their images, each with its caption
   * strip, keep the cell gap; of different groups the earlier one stays the group gap further left.
   */
  lemma PlacedApart(groups: seq<Group>, boxes: seq<Box>, a: nat, b: nat)
    requires a < b < |LayoutOf(groups, boxes)|
    ensures var (p, q) := (LayoutOf(groups, boxes)[a], LayoutOf(groups, boxes)[b]);
            && p.elementId != q.elementId
            && BoxOf(boxes, p.elementId).Some? && BoxOf(boxes, q.elementId).Some?
            && var (x, y) := (Card(p.x, p.y, BoxOf(boxes, p.elementId).value), Card(q.x, q.y, BoxOf(boxes, q.elementId).value));
            && var moved := Flat(BlocksOf(groups, boxes));
            && (if FirstListing(groups, p.elementId) == FirstListing(groups, q.elementId)
                then Apart(x, y, CellGap(moved))
                else x.right + GroupGap(moved) <= y.left)
  {
    hide LayoutOf, BlocksOf, Origins, Flat, FrameOf, CellGap, GroupGap, BoxOf, FirstListing, ColumnOffset, RowOffset,
        BlockLeft, BlockWidth;
    var blocks := BlocksOf(groups, boxes);
    var f, k, i := PlacementFrom(groups, boxes, a);
    var g, l, j := PlacementFrom(groups, boxes, b);
    PlanIs(groups, boxes);
    if k == l {
      ApartInBlock(blocks[k], BlockLeft(blocks, k, f), f, i, j);
    } else {
      EarlierIsFirst(blocks, k, i, l, j);
      BlocksStepRight(blocks, k, l, f);
      InsideBlock(blocks[k], BlockLeft(blocks, k, f), f, i);
      InsideBlock(blocks[l], BlockLeft(blocks, l, f), f, j);
    }
  }

  lemma {:induction false} FlatGrows(blocks: seq<Block>, l: nat, k: nat)
    requires l < k <= |blocks|
    ensures |Flat(blocks[..l])| + |blocks[l].members| <= |Flat(blocks[..k])|
    decreases k
  {
    assert blocks[..k][..k - 1] == blocks[..k - 1];
    if l < k - 1 {
      FlatGrows(blocks, l, k - 1);
    }
  }

  lemma EarlierIsFirst(blocks: seq<Block>, k: nat, i: nat, l: nat, j: nat)
    requires k < |blocks| && l < |blocks| && k != l && i < |blocks[k].members| && j < |blocks[l].members|
    requires |Flat(blocks[..k])| + i < |Flat(blocks[..l])| + j
    ensures k < l
  {
    if l < k {
      FlatGrows(blocks, l, k);
    }
  }

  /** No placement is of this box. */
  predicate Stays(layout: seq<Placement>, other: Box) {
    forall b :: 0 <= b < |layout| ==> layout[b].elementId != other.id
  }

  /** Everything lands the group gap right of every box that stays. */
  lemma PlacedClear(groups: seq<Group>, boxes: seq<Box>, a: nat, other: Box)
    requires a < |LayoutOf(groups, boxes)|
    requires other in boxes && Stays(LayoutOf(groups, boxes), other)
    ensures other.x + other.w + GroupGap(Flat(BlocksOf(groups, boxes))) <= LayoutOf(groups, boxes)[a].x
  {
    hide LayoutOf, BlocksOf, Origins, Flat, GroupGap, CellGap, BoxOf, ColumnOffset, RowOffset, BlockLeft, BlockWidth,
        Union, FirstListing, Ids;
    var blocks := BlocksOf(groups, boxes);
    var f, k, i := PlacementFrom(groups, boxes, a);
    InsideBlock(blocks[k], BlockLeft(blocks, k, f), f, i);
    LeftmostBlock(blocks, k, f);
    NotPlacedStays(groups, boxes, other.id);
    var others := Others(boxes, Ids(Flat(blocks)));
    assert other in others;
    UnionBounds(others);
  }

  lemma NotPlacedStays(groups: seq<Group>, boxes: seq<Box>, id: string)
    requires forall b :: 0 <= b < |LayoutOf(groups, boxes)| ==> LayoutOf(groups, boxes)[b].elementId != id
    ensures id !in Ids(Flat(BlocksOf(groups, boxes)))
  {
    hide LayoutOf, BlocksOf, Origins, Flat, Ids, BlockOk, AllIds;
    PlacedExactlyWhen(groups, boxes, id);
    PlanIs(groups, boxes);
    FlatIds(BlocksOf(groups, boxes));
  }

  predicate SameGroup(groups: seq<Group>, p: Placement, q: Placement) {
    FirstListing(groups, p.elementId) == FirstListing(groups, q.elementId)
  }

  /** The first card of a group with a title is at the group's top left, right under the section strip. */
  lemma SectionIsFirst(groups: seq<Group>, boxes: seq<Box>, a: nat, b: nat)
    requires a < |LayoutOf(groups, boxes)| && b < |LayoutOf(groups, boxes)|
    requires LayoutOf(groups, boxes)[a].section != []
    requires SameGroup(groups, LayoutOf(groups, boxes)[a], LayoutOf(groups, boxes)[b])
    ensures LayoutOf(groups, boxes)[a].x <= LayoutOf(groups, boxes)[b].x
    ensures LayoutOf(groups, boxes)[a].y <= LayoutOf(groups, boxes)[b].y
    ensures FrameOf(Flat(BlocksOf(groups, boxes)), boxes).top + SECTION_HEIGHT
            == LayoutOf(groups, boxes)[a].y - CAPTION_HEIGHT
    ensures LayoutOf(groups, boxes)[b].section != [] ==> a == b
  {
    hide LayoutOf, BlocksOf, Origins, Flat, FrameOf, CellGap, GroupGap, BoxOf, FirstListing, MemberX, MemberY,
        BlockLeft, BlockWidth;
    var blocks := BlocksOf(groups, boxes);
    PlanIs(groups, boxes);
    var f, k, i := PlacementFrom(groups, boxes, a);
    var g, l, j := PlacementFrom(groups, boxes, b);
    FirstMember(blocks[k], BlockLeft(blocks, k, f), f);
    InsideBlock(blocks[l], BlockLeft(blocks, l, f), f, j);
    assert i == 0 && k == l;
  }

  /** Where a section title is drawn: over the caption, as wide as the image. */
  function Strip(x: real, y: real, box: Box): Rect {
    Rect(x, y - CAPTION_HEIGHT - SECTION_HEIGHT, x + box.w, y - CAPTION_HEIGHT)
  }

  function CardAt(layout: seq<Placement>, boxes: seq<Box>, a: nat): Rect
    requires a < |layout| && BoxOf(boxes, layout[a].elementId).Some?
  {
    Card(layout[a].x, layout[a].y, BoxOf(boxes, layout[a].elementId).value)
  }

  function StripAt(layout: seq<Placement>, boxes: seq<Box>, a: nat): Rect
    requires a < |layout| && BoxOf(boxes, layout[a].elementId).Some?
  {
    Strip(layout[a].x, layout[a].y, BoxOf(boxes, layout[a].elementId).value)
  }

  lemma PlacedHasBox(groups: seq<Group>, boxes: seq<Box>, a: nat)
    requires a < |LayoutOf(groups, boxes)|
    ensures BoxOf(boxes, LayoutOf(groups, boxes)[a].elementId).Some?
  {
    hide LayoutOf, BlocksOf, Origins, Flat, FrameOf, BoxOf, BlockLeft;
    var f, k, i := PlacementFrom(groups, boxes, a);
  }

  /** The strip of placement `a` keeps off the card of placement `b`, and off its strip if that is another's. */
  predicate ClearOfStrip(groups: seq<Group>, boxes: seq<Box>, layout: seq<Placement>, a: nat, b: nat, gap: real)
    requires a < |layout| && BoxOf(boxes, layout[a].elementId).Some?
    requires b < |layout| && BoxOf(boxes, layout[b].elementId).Some?
  {
    var strip, card := StripAt(layout, boxes, a), CardAt(layout, boxes, b);
    if SameGroup(groups, layout[a], layout[b]) then
      strip.bottom <= card.top && (layout[b].section != [] ==> a == b)
    else
      Apart(strip, card, gap) && Apart(strip, StripAt(layout, boxes, b), gap)
  }

  lemma StripClearOfCard(groups: seq<Group>, boxes: seq<Box>, a: nat, b: nat)
    requires a < |LayoutOf(groups, boxes)| && b < |LayoutOf(groups, boxes)|
    requires LayoutOf(groups, boxes)[a].section != []
    ensures var layout := LayoutOf(groups, boxes);
      && BoxOf(boxes, layout[a].elementId).Some? && BoxOf(boxes, layout[b].elementId).Some?
      && ClearOfStrip(groups, boxes, layout, a, b, GroupGap(Flat(BlocksOf(groups, boxes))))
  {
    hide LayoutOf, BlocksOf, Flat, FrameOf, CellGap, GroupGap, BoxOf, FirstListing;
    PlacedHasBox(groups, boxes, a);
    PlacedHasBox(groups, boxes, b);
    if SameGroup(groups, LayoutOf(groups, boxes)[a], LayoutOf(groups, boxes)[b]) {
      SectionIsFirst(groups, boxes, a, b);
    } else if a < b {
      PlacedApart(groups, boxes, a, b);
    } else {
      PlacedApart(groups, boxes, b, a);
    }
  }

  /**
   * A section title is drawn over nothing: in its own group every card, caption and all, is below its strip; cards
   * and strips of other groups keep the group gap; and every box that stays is the group gap further left.
   */
  lemma SectionIsClear(groups: seq<Group>, boxes: seq<Box>, a: nat)
    requires a < |LayoutOf(groups, boxes)| && LayoutOf(groups, boxes)[a].section != []
    ensures var layout, gap := LayoutOf(groups, boxes), GroupGap(Flat(BlocksOf(groups, boxes)));
      && (forall b: nat :: b < |layout| ==> BoxOf(boxes, layout[b].elementId).Some?)
      && (forall b: nat :: b < |layout| ==> ClearOfStrip(groups, boxes, layout, a, b, gap))
      && (forall other :: other in boxes && Stays(layout, other) ==>
            other.x + other.w + gap <= StripAt(layout, boxes, a).left)
  {
    hide LayoutOf, BlocksOf, Flat, CellGap, GroupGap, BoxOf, ClearOfStrip;
    var layout := LayoutOf(groups, boxes);
    forall b: nat | b < |layout| ensures BoxOf(boxes, layout[b].elementId).Some? {
      PlacedHasBox(groups, boxes, b);
    }
    forall b: nat | b < |layout|
      ensures ClearOfStrip(groups, boxes, layout, a, b, GroupGap(Flat(BlocksOf(groups, boxes))))
    {
      StripClearOfCard(groups, boxes, a, b);
    }
    forall other | other in boxes && Stays(layout, other)
      ensures other.x + other.w + GroupGap(Flat(BlocksOf(groups, boxes))) <= StripAt(layout, boxes, a).left
    {
      PlacedClear(groups, boxes, a, other);
    }
  }

  // ---------------------------------------------------------------- arranging twice

  function PlacementOf(layout: seq<Placement>, id: string): (r: Option<Placement>)
    ensures r.Some? ==> r.value in layout && r.value.elementId == id
    ensures r.None? ==> forall p :: p in layout ==> p.elementId != id
  {
    if layout == [] then None
    else if layout[0].elementId == id then Some(layout[0])
    else
      assert layout == [layout[0]] + layout[1..];
      PlacementOf(layout[1..], id)
  }

  /** The canvas after the placements are written back. */
  function Moved(boxes: seq<Box>, layout: seq<Placement>): (r: seq<Box>)
    ensures |r| == |boxes|
    ensures forall i :: 0 <= i < |r| ==>
              var at := PlacementOf(layout, boxes[i].id);
              r[i] == if at.Some? then boxes[i].(x := at.value.x, y := at.value.y) else boxes[i]
  {
    seq(|boxes|, i requires 0 <= i < |boxes| =>
      var at := PlacementOf(layout, boxes[i].id);
      if at.Some? then boxes[i].(x := at.value.x, y := at.value.y) else boxes[i])
  }

  lemma PlacedBelowTop(groups: seq<Group>, boxes: seq<Box>, n: nat)
    requires n < |LayoutOf(groups, boxes)|
    ensures var flat := Flat(BlocksOf(groups, boxes));
            && n < |flat| && BoxOf(boxes, LayoutOf(groups, boxes)[n].elementId) == Some(flat[n].box)
            && FrameOf(flat, boxes).top + CAPTION_HEIGHT <= LayoutOf(groups, boxes)[n].y
  {
    hide LayoutOf, BlocksOf, Origins, Flat, FrameOf, CellGap, GroupGap, BoxOf, FirstListing, ColumnOffset, RowOffset,
        BlockLeft, BlockWidth, Apart, Usable, LabelsOk, ColumnCount;
    var blocks := BlocksOf(groups, boxes);
    var f, k, i := PlacementFrom(groups, boxes, n);
    InsideBlock(blocks[k], BlockLeft(blocks, k, f), f, i);
    FlatAt(blocks, |blocks|, k, i);
    assert blocks[..|blocks|] == blocks;
  }

  lemma LayoutLength(groups: seq<Group>, boxes: seq<Box>)
    ensures |LayoutOf(groups, boxes)| == |Flat(BlocksOf(groups, boxes))|
  {
    var blocks := BlocksOf(groups, boxes);
    PlanIs(groups, boxes);
    assert blocks[..|blocks|] == blocks;
  }

  lemma TopOfFrame(flat: seq<Member>, boxes: seq<Box>) returns (a: nat)
    requires flat != []
    ensures a < |flat| && flat[a].box.y == FrameOf(flat, boxes).top
  {
    var left, top, right := UnionIsReached(BoxesOf(flat));
    a := top;
  }

  /** Some moved image had its top edge at the top of the frame. */
  lemma TopIsSomebodys(groups: seq<Group>, boxes: seq<Box>) returns (a: nat)
    requires LayoutOf(groups, boxes) != []
    ensures a < |LayoutOf(groups, boxes)|
    ensures BoxOf(boxes, LayoutOf(groups, boxes)[a].elementId).Some?
    ensures BoxOf(boxes, LayoutOf(groups, boxes)[a].elementId).value.y + CAPTION_HEIGHT <= LayoutOf(groups, boxes)[a].y
  {
    hide LayoutOf, BlocksOf, BoxOf, Flat;
    LayoutLength(groups, boxes);
    a := TopOfFrame(Flat(BlocksOf(groups, boxes)), boxes);
    PlacedBelowTop(groups, boxes, a);
  }

  lemma {:induction false} FlatAt(blocks: seq<Block>, k: nat, j: nat, i: nat)
    requires j < k <= |blocks| && i < |blocks[j].members|
    ensures |Flat(blocks[..j])| + i < |Flat(blocks[..k])|
    ensures Flat(blocks[..k])[|Flat(blocks[..j])| + i] == blocks[j].members[i]
    ensures k == |blocks| ==> blocks[..k] == blocks
    decreases k
  {
    assert blocks[..k][..k - 1] == blocks[..k - 1];
    if j < k - 1 {
      FlatAt(blocks, k - 1, j, i);
    }
  }

  /** No listed id has a box of some size. */
  predicate NothingToMove(groups: seq<Group>, boxes: seq<Box>) {
    forall g :: 0 <= g < |groups| ==>
      forall i :: 0 <= i < |groups[g].items| ==> !Usable(boxes, groups[g].items[i].elementId)
  }

  lemma EmptyExactlyWhen(groups: seq<Group>, boxes: seq<Box>)
    ensures LayoutOf(groups, boxes) == [] <==> NothingToMove(groups, boxes)
  {
    hide LayoutOf, Usable;
    var layout := LayoutOf(groups, boxes);
    if layout != [] {
      PlacedExactlyWhen(groups, boxes, layout[0].elementId);
    }
    forall g, i | layout == [] && 0 <= g < |groups| && 0 <= i < |groups[g].items|
      ensures !Usable(boxes, groups[g].items[i].elementId)
    {
      PlacedExactlyWhen(groups, boxes, groups[g].items[i].elementId);
      assert Lists(groups[g], groups[g].items[i].elementId);
    }
  }

  /** Arranging an arranged canvas again gives the same placements if and only if there was nothing to move. */
  lemma StableExactlyWhenNothingMoves(groups: seq<Group>, boxes: seq<Box>)
    ensures var layout := LayoutOf(groups, boxes);
            LayoutOf(groups, Moved(boxes, layout)) == layout <==> NothingToMove(groups, boxes)
  {
    hide LayoutOf, Moved;
    var layout := LayoutOf(groups, boxes);
    var moved := Moved(boxes, layout);
    EmptyExactlyWhen(groups, boxes);
    if layout == [] {
      assert moved == boxes by { NothingIsMoved(boxes); }
    } else if LayoutOf(groups, moved) == layout {
      var a := TopIsSomebodys(groups, moved);
      OwnPlacement(groups, boxes, a);
      assert false;
    }
  }

  lemma NothingIsMoved(boxes: seq<Box>)
    ensures Moved(boxes, []) == boxes
  {
  }

  /** One image of a hundred by a hundred, arranged alone, moves again when it is arranged again. */
  lemma OneImageDrifts()
    ensures var groups := [Group(None, None, [Item("a", None)])];
            var boxes := [Box("a", 0.0, 0.0, 100.0, 100.0)];
            LayoutOf(groups, Moved(boxes, LayoutOf(groups, boxes))) != LayoutOf(groups, boxes)
  {
    hide LayoutOf, Moved;
    var groups := [Group(None, None, [Item("a", None)])];
    var boxes := [Box("a", 0.0, 0.0, 100.0, 100.0)];
    StableExactlyWhenNothingMoves(groups, boxes);
    assert BoxOf(boxes, "a") == Some(boxes[0]);
    assert Usable(boxes, groups[0].items[0].elementId);
  }

  /** The box of a placed image, once moved, is where its placement says. */
  lemma OwnPlacement(groups: seq<Group>, boxes: seq<Box>, a: nat)
    requires a < |LayoutOf(groups, boxes)|
    ensures var layout := LayoutOf(groups, boxes);
            var box := BoxOf(Moved(boxes, layout), layout[a].elementId);
            box.Some? ==> box.value.y == layout[a].y
  {
    hide LayoutOf;
    var layout := LayoutOf(groups, boxes);
    var at := PlacementOf(layout, layout[a].elementId);
    var b :| 0 <= b < |layout| && layout[b] == at.value;
    if a < b {
      PlacedApart(groups, boxes, a, b);
    } else if b < a {
      PlacedApart(groups, boxes, b, a);
    }
  }
}
