/** Frames around cards: making one, moving it with what is in it, and settling who belongs where. */
module CanvasGroups {
  import opened Basics
  import opened CanvasPlacement

  datatype Frame = Frame(name: string, box: Rect)

  /** The shared document: cards, frames, and the frame each card belongs to. */
  datatype Board = Board(nodes: map<string, Rect>, groups: map<string, Frame>, memberOf: map<string, string>)

  datatype Move = Move(id: string, x: real, y: real)

  const NAME_LIMIT := 500
  const MARGIN := 32.0
  const CAPTION := 64.0
  const HEADER := 32.0

  predicate Contains(g: Rect, n: Rect) {
    n.x >= g.x && n.y >= g.y + HEADER && n.x + n.w <= g.x + g.w && n.y + n.h <= g.y + g.h
  }

  predicate Covers(r: Rect, x: real, y: real) {
    r.x <= x <= r.x + r.w && r.y <= y <= r.y + r.h
  }

  /** A card is in a frame exactly if every point of it is in the frame and under its header. */
  lemma ContainsExactlyWhen(g: Rect, n: Rect)
    requires n.w >= 0.0 && n.h >= 0.0
    ensures Contains(g, n) <==> forall x: real, y: real :: Covers(n, x, y) ==> Covers(g, x, y) && g.y + HEADER <= y
  {
    assert Covers(n, n.x, n.y) && Covers(n, n.x + n.w, n.y + n.h);
  }

  function GroupOf(b: Board, n: string): Option<string> {
    if n in b.memberOf then Some(b.memberOf[n]) else None
  }

  /** The cards drawn in a frame; entries for cards that are gone do not count. */
  function Members(b: Board, g: string): set<string> {
    set n | n in b.memberOf && n in b.nodes && b.memberOf[n] == g
  }

  // ---------------------------------------------------------------- moving

  /** How far the frame `g` would go by all its moves together; every move is measured from the start. */
  function Shift(b: Board, moves: seq<Move>, g: string): (real, real)
    requires g in b.groups
  {
    if moves == [] then (0.0, 0.0)
    else
      var before := Shift(b, moves[..|moves| - 1], g);
      var last := moves[|moves| - 1];
      if last.id != g then before
      else (before.0 + (last.x - b.groups[g].box.x), before.1 + (last.y - b.groups[g].box.y))
  }

  /** Where the last move for `g` puts it. */
  function Target(b: Board, moves: seq<Move>, g: string): Rect
    requires g in b.groups
  {
    if moves == [] then b.groups[g].box
    else
      var last := moves[|moves| - 1];
      if last.id == g then b.groups[g].box.(x := last.x, y := last.y) else Target(b, moves[..|moves| - 1], g)
  }

  function Shifted(n: Rect, delta: (real, real)): Rect {
    n.(x := n.x + delta.0, y := n.y + delta.1)
  }

  function MovedNode(b: Board, moves: seq<Move>, n: string): Rect
    requires n in b.nodes
  {
    if n in b.memberOf && b.memberOf[n] in b.groups then Shifted(b.nodes[n], Shift(b, moves, b.memberOf[n]))
    else b.nodes[n]
  }

  function Moved(b: Board, moves: seq<Move>): Board {
    Board(
      map n | n in b.nodes :: MovedNode(b, moves, n),
      map g | g in b.groups :: Frame(b.groups[g].name, Target(b, moves, g)),
      b.memberOf)
  }

  function ShiftedAll(nodes: map<string, Rect>, which: set<string>, delta: (real, real)): map<string, Rect> {
    map n | n in nodes :: if n in which then Shifted(nodes[n], delta) else nodes[n]
  }

  /** One more move: its frame goes to the target, and its members go by that frame's delta. */
  lemma MovedStep(b: Board, moves: seq<Move>, move: Move)
    ensures var before, after := Moved(b, moves), Moved(b, moves + [move]);
      if move.id !in b.groups then after == before
      else
        var box := b.groups[move.id].box;
        && after.nodes == ShiftedAll(before.nodes, Members(b, move.id), (move.x - box.x, move.y - box.y))
        && after.groups == before.groups[move.id := Frame(b.groups[move.id].name, box.(x := move.x, y := move.y))]
  {
    var all := moves + [move];
    assert all[..|all| - 1] == moves;
    var before, after := Moved(b, moves), Moved(b, all);
    forall n | n in b.nodes
      ensures move.id !in b.groups || n !in Members(b, move.id) ==> after.nodes[n] == before.nodes[n]
    {
    }
  }

  /** The moves for `g` before its last one. */
  function Earlier(moves: seq<Move>, g: string): seq<Move> {
    if moves == [] then []
    else if moves[|moves| - 1].id == g then moves[..|moves| - 1]
    else Earlier(moves[..|moves| - 1], g)
  }

  lemma {:induction false} LastCounts(b: Board, moves: seq<Move>, g: string)
    requires g in b.groups
    ensures var box, target := b.groups[g].box, Target(b, moves, g);
      var whole, earlier := Shift(b, moves, g), Shift(b, Earlier(moves, g), g);
      && whole == (earlier.0 + (target.x - box.x), earlier.1 + (target.y - box.y))
      && target.w == box.w && target.h == box.h
  {
    if moves != [] && moves[|moves| - 1].id != g {
      LastCounts(b, moves[..|moves| - 1], g);
    }
  }

  /** A member keeps its place in its frame exactly when the frame's moves before the last one cancel out. */
  lemma FollowsExactlyWhen(b: Board, moves: seq<Move>, n: string)
    requires n in b.nodes && n in b.memberOf && b.memberOf[n] in b.groups
    ensures var after, g := Moved(b, moves), b.memberOf[n];
      var box, newBox := b.groups[g].box, after.groups[g].box;
      after.nodes[n] == Shifted(b.nodes[n], (newBox.x - box.x, newBox.y - box.y))
      <==> Shift(b, Earlier(moves, g), g) == (0.0, 0.0)
  {
    LastCounts(b, moves, b.memberOf[n]);
  }

  /** A frame moved right by one and then by two: its card goes by three. */
  lemma TwoMovesAddUp()
    ensures var box := Rect(0.0, 0.0, 100.0, 100.0);
      var b := Board(map["n" := box], map["g" := Frame("", box)], map["n" := "g"]);
      var after := Moved(b, [Move("g", 1.0, 0.0), Move("g", 2.0, 0.0)]);
      after.groups["g"].box.x == 2.0 && after.nodes["n"].x == 3.0
  {
    var box := Rect(0.0, 0.0, 100.0, 100.0);
    var b := Board(map["n" := box], map["g" := Frame("", box)], map["n" := "g"]);
    var moves := [Move("g", 1.0, 0.0), Move("g", 2.0, 0.0)];
    assert moves[..1] == [moves[0]] && moves[..1][..0] == [];
    assert Shift(b, moves[..1], "g") == (1.0, 0.0);
    assert Shift(b, moves, "g") == (3.0, 0.0);
  }

  predicate DistinctIds(moves: seq<Move>) {
    forall i, j :: 0 <= i < j < |moves| ==> moves[i].id != moves[j].id
  }

  lemma {:induction false} ElsewhereIsStill(b: Board, moves: seq<Move>, g: string)
    requires g in b.groups && forall i :: 0 <= i < |moves| ==> moves[i].id != g
    ensures Shift(b, moves, g) == (0.0, 0.0)
  {
    if moves != [] {
      ElsewhereIsStill(b, moves[..|moves| - 1], g);
    }
  }

  lemma {:induction false} DistinctMeansOnce(b: Board, moves: seq<Move>, g: string)
    requires g in b.groups && DistinctIds(moves)
    ensures Shift(b, Earlier(moves, g), g) == (0.0, 0.0)
  {
    if moves != [] {
      if moves[|moves| - 1].id == g {
        ElsewhereIsStill(b, moves[..|moves| - 1], g);
      } else {
        DistinctMeansOnce(b, moves[..|moves| - 1], g);
      }
    }
  }

  /** Moving frames, each at most once, keeps every member inside that was inside; other cards stay where they are. */
  lemma MovesKeepInside(b: Board, moves: seq<Move>, n: string)
    requires DistinctIds(moves) && n in b.nodes
    ensures var after := Moved(b, moves);
      if n in b.memberOf && b.memberOf[n] in b.groups then
        Contains(after.groups[b.memberOf[n]].box, after.nodes[n]) <==> Contains(b.groups[b.memberOf[n]].box, b.nodes[n])
      else after.nodes[n] == b.nodes[n]
  {
    if n in b.memberOf && b.memberOf[n] in b.groups {
      LastCounts(b, moves, b.memberOf[n]);
      DistinctMeansOnce(b, moves, b.memberOf[n]);
      FollowsExactlyWhen(b, moves, n);
    }
  }

  // ---------------------------------------------------------------- settling

  /** All frames, the smaller area first; frames of one area come in any order. */
  predicate Orders(order: seq<string>, groups: map<string, Frame>) {
    && (forall i :: 0 <= i < |order| ==> order[i] in groups)
    && (forall g :: g in groups ==> g in order)
    && forall i, j :: 0 <= i < j < |order| && order[i] in groups && order[j] in groups ==>
        Area(groups[order[i]].box) <= Area(groups[order[j]].box)
  }

  function Area(r: Rect): real {
    r.w * r.h
  }

  /** Puts one more frame where its area belongs. */
  function InsertByArea(groups: map<string, Frame>, g: string, order: seq<string>): seq<string>
    requires g in groups && forall i :: 0 <= i < |order| ==> order[i] in groups
  {
    if order == [] || Area(groups[g].box) <= Area(groups[order[0]].box) then [g] + order
    else [order[0]] + InsertByArea(groups, g, order[1..])
  }

  /** The list names frames only, the smaller area first. */
  predicate ByArea(groups: map<string, Frame>, order: seq<string>) {
    && (forall i :: 0 <= i < |order| ==> order[i] in groups)
    && forall i, j :: 0 <= i < j < |order| ==> Area(groups[order[i]].box) <= Area(groups[order[j]].box)
  }

  lemma {:induction false} InsertKeepsOrder(groups: map<string, Frame>, g: string, order: seq<string>)
    requires g in groups && ByArea(groups, order)
    ensures var r := InsertByArea(groups, g, order);
      && ByArea(groups, r) && r != []
      && (forall h :: h in r <==> h == g || h in order)
      && r[0] in {g} + if order == [] then {} else {order[0]}
  {
    hide Area;
    if order != [] && !(Area(groups[g].box) <= Area(groups[order[0]].box)) {
      InsertKeepsOrder(groups, g, order[1..]);
      var rest := InsertByArea(groups, g, order[1..]);
      assert forall j :: 0 <= j < |rest| ==> rest[j] == g || rest[j] in order[1..];
    }
  }

  /** Whatever the frames, they can be put in such an order. */
  lemma OrderExists(groups: map<string, Frame>) returns (order: seq<string>)
    ensures Orders(order, groups)
  {
    order := OrderOf(groups, groups.Keys);
  }

  lemma {:induction false} OrderOf(groups: map<string, Frame>, some: set<string>) returns (order: seq<string>)
    requires some <= groups.Keys
    ensures ByArea(groups, order) && forall g :: g in order <==> g in some
  {
    hide Area;
    order := [];
    if some != {} {
      var g :| g in some;
      var rest := OrderOf(groups, some - {g});
      InsertKeepsOrder(groups, g, rest);
      order := InsertByArea(groups, g, rest);
    }
  }

  function FirstAround(groups: map<string, Frame>, order: seq<string>, n: Rect): (r: Option<string>)
    ensures r.Some? ==> r.value in order && r.value in groups && Contains(groups[r.value].box, n)
    ensures r.None? ==> forall i :: 0 <= i < |order| && order[i] in groups ==> !Contains(groups[order[i]].box, n)
  {
    if order == [] then None
    else if order[0] in groups && Contains(groups[order[0]].box, n) then Some(order[0])
    else FirstAround(groups, order[1..], n)
  }

  /** Where a card belongs: still where it was while it fits there, and otherwise in the first frame around it. */
  function Next(b: Board, order: seq<string>, n: string): Option<string>
    requires n in b.nodes
  {
    var current := GroupOf(b, n);
    if current.Some? && current.value in b.groups && Contains(b.groups[current.value].box, b.nodes[n]) then current
    else FirstAround(b.groups, order, b.nodes[n])
  }

  function SettledOne(b: Board, order: seq<string>, n: string): Board {
    if n !in b.nodes then b
    else
      match Next(b, order, n)
      case Some(g) => b.(memberOf := b.memberOf[n := g])
      case None => b.(memberOf := b.memberOf - {n})
  }

  function Settled(b: Board, order: seq<string>, ids: seq<string>): (r: Board)
    ensures r.nodes == b.nodes && r.groups == b.groups
  {
    if ids == [] then b else SettledOne(Settled(b, order, ids[..|ids| - 1]), order, ids[|ids| - 1])
  }

  /** Each card ends where it belongs from where it was, whatever the order and the repeats in the list. */
  lemma {:induction false} SettledAt(b: Board, order: seq<string>, ids: seq<string>, n: string)
    ensures GroupOf(Settled(b, order, ids), n) == if n in ids && n in b.nodes then Next(b, order, n) else GroupOf(b, n)
  {
    if ids != [] {
      var front, last := ids[..|ids| - 1], ids[|ids| - 1];
      SettledAt(b, order, front, n);
      var before := Settled(b, order, front);
      assert n in ids <==> n in front || n == last;
      if n in b.nodes && GroupOf(before, n) == Next(b, order, n) {
        NextSettles(b, before, order, order, n);
      }
    }
  }

  /** A card that is where it belongs stays there, also when frames of one area come in another order. */
  lemma NextSettles(b: Board, before: Board, order: seq<string>, later: seq<string>, n: string)
    requires n in b.nodes && before.nodes == b.nodes && before.groups == b.groups
    requires GroupOf(before, n) == Next(b, order, n)
    requires order == later || (Orders(order, b.groups) && Orders(later, b.groups))
    ensures Next(before, later, n) == Next(b, order, n)
  {
    if Next(b, order, n).None? {
      forall i | 0 <= i < |later| && later[i] in b.groups ensures !Contains(b.groups[later[i]].box, b.nodes[n]) {
        assert later[i] in order;
      }
    }
  }

  lemma SameBoard(a: Board, b: Board)
    requires a.nodes == b.nodes && a.groups == b.groups && forall n :: GroupOf(a, n) == GroupOf(b, n)
    ensures a == b
  {
    forall n ensures n in a.memberOf <==> n in b.memberOf {
      assert GroupOf(a, n) == GroupOf(b, n);
    }
    forall n | n in a.memberOf ensures a.memberOf[n] == b.memberOf[n] {
      assert GroupOf(a, n) == GroupOf(b, n);
    }
    assert a.memberOf == b.memberOf;
  }

  lemma SettlingTwiceIsOnce(b: Board, order: seq<string>, later: seq<string>, ids: seq<string>)
    requires Orders(order, b.groups) && Orders(later, b.groups)
    ensures Settled(Settled(b, order, ids), later, ids) == Settled(b, order, ids)
  {
    var once := Settled(b, order, ids);
    var twice := Settled(once, later, ids);
    forall n ensures GroupOf(twice, n) == GroupOf(once, n) {
      SettledAt(b, order, ids, n);
      SettledAt(once, later, ids, n);
      if n in ids && n in b.nodes {
        NextSettles(b, once, order, later, n);
      }
    }
    SameBoard(twice, once);
  }

  /** A settled card is in a frame around it if there is one, and in a smallest such frame if it had to change. */
  lemma SettledIsSmallest(b: Board, order: seq<string>, ids: seq<string>, n: string, g: string)
    requires Orders(order, b.groups) && n in ids && n in b.nodes
    requires g in b.groups && Contains(b.groups[g].box, b.nodes[n])
    ensures var now := GroupOf(Settled(b, order, ids), n);
      && now.Some? && now.value in b.groups && Contains(b.groups[now.value].box, b.nodes[n])
      && var home, other := b.groups[now.value].box, b.groups[g].box;
         now == GroupOf(b, n) || home.w * home.h <= other.w * other.h
  {
    hide Contains;
    SettledAt(b, order, ids, n);
    FirstIsSmallest(b.groups, order, b.nodes[n], g);
  }

  lemma {:induction false} FirstIsSmallest(groups: map<string, Frame>, order: seq<string>, n: Rect, g: string)
    requires forall i :: 0 <= i < |order| ==> order[i] in groups
    requires forall i, j :: 0 <= i < j < |order| && order[i] in groups && order[j] in groups ==>
        Area(groups[order[i]].box) <= Area(groups[order[j]].box)
    requires g in order && Contains(groups[g].box, n)
    ensures var r := FirstAround(groups, order, n); r.Some? && Area(groups[r.value].box) <= Area(groups[g].box)
  {
    hide Area;
    if Contains(groups[order[0]].box, n) {
      var i :| 0 <= i < |order| && order[i] == g;
      assert i == 0 || Area(groups[order[0]].box) <= Area(groups[order[i]].box);
    } else {
      assert g in order[1..];
      FirstIsSmallest(groups, order[1..], n, g);
    }
  }

  /** Moving frames, each at most once, and settling any cards afterwards takes no card out of a frame that held it. */
  lemma MembersStayTogether(b: Board, moves: seq<Move>, order: seq<string>, ids: seq<string>, n: string)
    requires DistinctIds(moves)
    requires n in b.nodes && n in b.memberOf && b.memberOf[n] in b.groups
    requires Contains(b.groups[b.memberOf[n]].box, b.nodes[n])
    ensures GroupOf(Settled(Moved(b, moves), order, ids), n) == GroupOf(b, n)
  {
    MovesKeepInside(b, moves, n);
    SettledAt(Moved(b, moves), order, ids, n);
  }

  // ---------------------------------------------------------------- making and disbanding

  function Cards(b: Board, ids: seq<string>): seq<Rect> {
    if ids == [] then []
    else
      var front, last := ids[..|ids| - 1], ids[|ids| - 1];
      if last in b.nodes && last !in front then Cards(b, front) + [b.nodes[last]] else Cards(b, front)
  }

  lemma {:induction false} CardsAre(b: Board, ids: seq<string>, n: string)
    ensures n in ids && n in b.nodes ==> b.nodes[n] in Cards(b, ids)
    ensures Cards(b, ids) != [] <==> exists i :: 0 <= i < |ids| && ids[i] in b.nodes
    ensures forall r :: r in Cards(b, ids) ==> r in b.nodes.Values
  {
    if ids != [] {
      var front, last := ids[..|ids| - 1], ids[|ids| - 1];
      CardsAre(b, front, n);
      CardsAre(b, front, last);
      assert forall i :: 0 <= i < |front| ==> front[i] == ids[i];
      assert last in b.nodes ==> b.nodes[last] in b.nodes.Values;
    }
  }

  function Joined(b: Board, ids: seq<string>, g: string): map<string, string> {
    map n | n in b.memberOf.Keys + (set i | i in ids && i in b.nodes) ::
      if n in ids && n in b.nodes then g else b.memberOf[n]
  }

  lemma JoinedStep(b: Board, front: seq<string>, last: string, g: string)
    ensures Joined(b, [], g) == b.memberOf
    ensures Joined(b, front + [last], g) == if last in b.nodes then Joined(b, front, g)[last := g] else Joined(b, front, g)
  {
    forall n ensures n in front + [last] <==> n in front || n == last {
    }
  }

  function Ungrouped(b: Board, ids: seq<string>): Board {
    Board(b.nodes, b.groups - (set g | g in ids), map n | n in b.memberOf && b.memberOf[n] !in ids :: b.memberOf[n])
  }

  /** The memberships while those of the cards in `left` have not been looked at. */
  function StillIn(b: Board, ids: seq<string>, left: set<string>): map<string, string> {
    map n | n in b.memberOf && (n in left || b.memberOf[n] !in ids) :: b.memberOf[n]
  }

  lemma StillInStep(b: Board, ids: seq<string>, left: set<string>, n: string)
    requires n in left && left <= b.memberOf.Keys
    ensures n in StillIn(b, ids, left) && StillIn(b, ids, left)[n] == b.memberOf[n]
    ensures StillIn(b, ids, left - {n}) == if b.memberOf[n] in ids then StillIn(b, ids, left) - {n} else StillIn(b, ids, left)
  {
  }

  lemma StillInEnds(b: Board, ids: seq<string>)
    ensures StillIn(b, ids, b.memberOf.Keys) == b.memberOf
    ensures StillIn(b, ids, {}) == Ungrouped(b, ids).memberOf
  {
  }

  /** Only frames and their memberships go; and no card is left in a frame that went. */
  lemma UngroupedFrees(b: Board, ids: seq<string>, g: string)
    ensures var after := Ungrouped(b, ids);
      && after.nodes == b.nodes
      && (g in ids ==> g !in after.groups && Members(after, g) == {})
      && (g !in ids ==> (g in after.groups <==> g in b.groups) && Members(after, g) == Members(b, g))
  {
  }

  class Document {
    var board: Board

    constructor (board: Board)
      ensures this.board == board
    {
      this.board := board;
    }

    method ShiftMembers(members: set<string>, dx: real, dy: real)
      modifies this
      ensures board == old(board).(nodes := ShiftedAll(old(board).nodes, members, (dx, dy)))
    {
      var rest := members;
      while rest != {}
        invariant rest <= members
        invariant board == old(board).(nodes := ShiftedAll(old(board).nodes, members - rest, (dx, dy)))
        decreases |rest|
      {
        var id :| id in rest;
        if id in board.nodes {
          var node := board.nodes[id];
          board := board.(nodes := board.nodes[id := node.(x := node.x + dx, y := node.y + dy)]);
        }
        rest := rest - {id};
      }
      assert members - rest == members;
    }

    /** Every move is measured from where its frame was before the call. */
    method MoveCanvasGroups(moves: seq<Move>)
      modifies this
      ensures board == Moved(old(board), moves)
    {
      hide MovedNode, Shift, Target, Shifted;
      ghost var b := board;
      var groups := board.groups;
      var start := board;
      assert Moved(b, []) == b by {
        MovedNothing(b);
      }
      for k := 0 to |moves|
        invariant board == Moved(b, moves[..k])
      {
        var move := moves[k];
        MovedStep(b, moves[..k], move);
        assert moves[..k + 1] == moves[..k] + [move];
        if move.id in groups {
          var box := groups[move.id].box;
          var dx, dy := move.x - box.x, move.y - box.y;
          board := board.(groups := board.groups[move.id := Frame(groups[move.id].name, box.(x := move.x, y := move.y))]);
          ShiftMembers(Members(start, move.id), dx, dy);
        }
      }
      assert moves[..|moves|] == moves;
    }

    method ReconcileCanvasGroupMembership(order: seq<string>, ids: seq<string>)
      requires Orders(order, board.groups)
      modifies this
      ensures board == Settled(old(board), order, ids)
    {
      ghost var b := board;
      for k := 0 to |ids|
        invariant board == Settled(b, order, ids[..k])
      {
        assert ids[..k + 1][..k] == ids[..k];
        var id := ids[k];
        if id in board.nodes {
          var current := GroupOf(board, id);
          var next := FirstAround(board.groups, order, board.nodes[id]);
          if current.Some? && current.value in board.groups && Contains(board.groups[current.value].box, board.nodes[id]) {
            next := current;
          }
          if next.Some? {
            board := board.(memberOf := board.memberOf[id := next.value]);
          } else {
            board := board.(memberOf := board.memberOf - {id});
          }
        }
      }
      assert ids[..|ids|] == ids;
    }

    method UngroupCanvasNodes(ids: seq<string>)
      modifies this
      ensures board == Ungrouped(old(board), ids)
    {
      hide StillIn;
      var gone := set g | g in ids;
      ghost var b := board;
      StillInEnds(b, ids);
      board := board.(groups := board.groups - gone);
      var left := board.memberOf.Keys;
      while left != {}
        invariant left <= b.memberOf.Keys
        invariant board == Board(b.nodes, b.groups - gone, StillIn(b, ids, left))
        decreases |left|
      {
        var n :| n in left;
        StillInStep(b, ids, left, n);
        if board.memberOf[n] in gone {
          board := board.(memberOf := board.memberOf - {n});
        }
        left := left - {n};
      }
    }

    /**
     * Refused without cards and bounds, for an id in use, and for a box turned inside out.  Otherwise the
     * frame has the bounds asked for, or hugs its cards with a margin, and holds all listed cards.
     */
    method CreateCanvasGroup(id: string, ids: seq<string>, name: string, bounds: Option<Rect>) returns (ok: bool)
      modifies this
      ensures !ok ==> board == old(board)
      ensures (Cards(old(board), ids) == [] && bounds.None?) || id in old(board).groups || id in old(board).nodes ==> !ok
      ensures bounds.Some? && (bounds.value.w < 0.0 || bounds.value.h < 0.0) ==> !ok
      ensures !ok ==>
                || id in old(board).groups || id in old(board).nodes
                || (if bounds.Some? then bounds.value.w < 0.0 || bounds.value.h < 0.0
                    else forall r :: r in Cards(old(board), ids) ==> r.w < 0.0 || r.h < 0.0)
      ensures ok ==>
                && id in board.groups && board.groups[id].box.w >= 0.0 && board.groups[id].box.h >= 0.0
                && board == Board(old(board).nodes, old(board).groups[id := board.groups[id]], Joined(old(board), ids, id))
                && board.groups[id].name == if |name| > NAME_LIMIT then name[..NAME_LIMIT] else name
      ensures ok && bounds.Some? ==> board.groups[id].box == bounds.value
      ensures ok && bounds.None? ==>
                && var box := board.groups[id].box;
                && Frames(Bounds(box.x + MARGIN, box.y + CAPTION, box.x + box.w - MARGIN, box.y + box.h - MARGIN),
                          Cards(old(board), ids))
                && forall n :: n in ids && n in board.nodes ==> Contains(box, board.nodes[n])
    {
      hide Joined;
      ghost var b := board;
      JoinedStep(b, [], id, id);
      var nodes: seq<Rect> := [];
      for k := 0 to |ids|
        invariant nodes == Cards(b, ids[..k])
      {
        assert ids[..k + 1][..k] == ids[..k];
        if ids[k] in board.nodes && ids[k] !in ids[..k] {
          nodes := nodes + [board.nodes[ids[k]]];
        }
      }
      assert ids[..|ids|] == ids;
      if (nodes == [] && bounds.None?) || id in board.groups || id in board.nodes {
        return false;
      }
      var box;
      if bounds.Some? {
        box := bounds.value;
      } else {
        var edges := BoundsOf(nodes);
        var x, y := edges.left - MARGIN, edges.top - CAPTION;
        box := Rect(x, y, edges.right - x + MARGIN, edges.bottom - y + MARGIN);
        assert Bounds(box.x + MARGIN, box.y + CAPTION, box.x + box.w - MARGIN, box.y + box.h - MARGIN) == edges;
        forall n | n in ids && n in b.nodes ensures Contains(box, b.nodes[n]) {
          CardsAre(b, ids, n);
          var i :| 0 <= i < |nodes| && nodes[i] == b.nodes[n];
        }
      }
      if box.w < 0.0 || box.h < 0.0 {
        return false;
      }
      var frame := Frame(if |name| > NAME_LIMIT then name[..NAME_LIMIT] else name, box);
      board := board.(groups := board.groups[id := frame]);
      for k := 0 to |ids|
        invariant board == Board(b.nodes, b.groups[id := frame], Joined(b, ids[..k], id))
      {
        JoinedStep(b, ids[..k], ids[k], id);
        assert ids[..k + 1] == ids[..k] + [ids[k]];
        if ids[k] in board.nodes {
          board := board.(memberOf := board.memberOf[ids[k] := id]);
        }
      }
      ok := true;
    }
  }

  lemma MovedNothing(b: Board)
    ensures Moved(b, []) == b
  {
  }
}
