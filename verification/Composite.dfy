/** Composite: circles and rectangles are leaf graphics; a `GraphicGroup`
    holds a list of graphics (leaves or other groups) and forwards `Move` and
    `Draw` to each of them in order. The console lines the operations write
    are returned as a trace. */
module Composite {

  /** An `IGraphic`: a leaf, or a group with its children in insertion order. */
  datatype Graphic = Circle | Rectangle | Group(children: seq<Graphic>)

  /** One line written to the console. */
  datatype Line =
    | MovingCircle(x: int, y: int)
    | MovingRectangle(x: int, y: int)
    | DrawingCircle
    | DrawingRectangle
    | DrawingGroup

  /** A new, empty `GraphicGroup`. */
  function NewGroup(): (g: Graphic)
    ensures g.Group? && |g.children| == 0 && |Leaves(g)| == 0
  {
    Group([])
  }

  /** `GraphicGroup.Add`: appends to the group's list. */
  function Add(group: Graphic, graphic: Graphic): (r: Graphic)
    requires group.Group?
    ensures r.Group? && |r.children| == |group.children| + 1
    ensures r.children[..|group.children|] == group.children
    ensures r.children[|group.children|] == graphic
  {
    var children := group.children + [graphic];
    assert children[..|group.children|] == group.children;
    Group(children)
  }

  /** `Move(x, y)`: a leaf reports the move; a group moves each child in
      order and writes nothing itself. So moving any graphic moves each of
      its leaves exactly once, depth first and left to right, all to the same
      `(x, y)`. */
  function Move(g: Graphic, x: int, y: int): (r: seq<Line>)
    ensures r == MovedTo(Leaves(g), x, y)
    decreases g
  {
    match g
    case Circle => [MovingCircle(x, y)]
    case Rectangle => [MovingRectangle(x, y)]
    case Group(children) => MoveEach(children, x, y)
  }

  /** A group's loop over its children in `Move`. */
  function MoveEach(gs: seq<Graphic>, x: int, y: int): (r: seq<Line>)
    ensures r == MovedTo(LeavesEach(gs), x, y)
    decreases gs
  {
    if |gs| == 0 then []
    else
      MovedToAppend(Leaves(gs[0]), LeavesEach(gs[1..]), x, y);
      Move(gs[0], x, y) + MoveEach(gs[1..], x, y)
  }

  /** `Draw()`: a leaf reports itself; a group writes its header line, then
      draws each child in order. So drawing any graphic writes one header
      per group and, apart from the headers, draws each leaf exactly once,
      depth first and left to right. */
  function Draw(g: Graphic): (r: seq<Line>)
    ensures WithoutHeaders(r) == Drawn(Leaves(g))
    ensures Headers(r) == Groups(g)
    decreases g
  {
    match g
    case Circle => [DrawingCircle]
    case Rectangle => [DrawingRectangle]
    case Group(children) =>
      HeadersAppend([DrawingGroup], DrawEach(children));
      [DrawingGroup] + DrawEach(children)
  }

  /** A group's loop over its children in `Draw`. */
  function DrawEach(gs: seq<Graphic>): (r: seq<Line>)
    ensures WithoutHeaders(r) == Drawn(LeavesEach(gs))
    ensures Headers(r) == GroupsEach(gs)
    decreases gs
  {
    if |gs| == 0 then []
    else
      HeadersAppend(Draw(gs[0]), DrawEach(gs[1..]));
      DrawnAppend(Leaves(gs[0]), LeavesEach(gs[1..]));
      Draw(gs[0]) + DrawEach(gs[1..])
  }

  // ---------------------------------------------------------------------
  // Reference definitions: the leaves of a graphic and its groups

  /** The leaves of `g`, depth first, left to right. */
  function Leaves(g: Graphic): (ls: seq<Graphic>)
    ensures forall i | 0 <= i < |ls| :: !ls[i].Group?
    decreases g
  {
    match g
    case Group(children) => LeavesEach(children)
    case _ => [g]
  }

  function LeavesEach(gs: seq<Graphic>): (ls: seq<Graphic>)
    ensures forall i | 0 <= i < |ls| :: !ls[i].Group?
    decreases gs
  {
    if |gs| == 0 then [] else Leaves(gs[0]) + LeavesEach(gs[1..])
  }

  /** The number of groups in `g`, counting `g` itself. */
  function Groups(g: Graphic): nat
    decreases g
  {
    match g
    case Group(children) => 1 + GroupsEach(children)
    case _ => 0
  }

  function GroupsEach(gs: seq<Graphic>): nat
    decreases gs
  {
    if |gs| == 0 then 0 else Groups(gs[0]) + GroupsEach(gs[1..])
  }

  /** The line a leaf writes when moved. */
  function MoveLine(leaf: Graphic, x: int, y: int): Line {
    if leaf.Circle? then MovingCircle(x, y) else MovingRectangle(x, y)
  }

  /** The line a leaf writes when drawn. */
  function DrawLine(leaf: Graphic): Line {
    if leaf.Circle? then DrawingCircle else DrawingRectangle
  }

  /** The move lines of a list of leaves, in order. */
  function MovedTo(ls: seq<Graphic>, x: int, y: int): seq<Line> {
    seq(|ls|, i requires 0 <= i < |ls| => MoveLine(ls[i], x, y))
  }

  /** The draw lines of a list of leaves, in order. */
  function Drawn(ls: seq<Graphic>): seq<Line> {
    seq(|ls|, i requires 0 <= i < |ls| => DrawLine(ls[i]))
  }

  /** The lines other than group headers. */
  function WithoutHeaders(lines: seq<Line>): seq<Line>
    decreases |lines|
  {
    if |lines| == 0 then []
    else if lines[0] == DrawingGroup then WithoutHeaders(lines[1..])
    else [lines[0]] + WithoutHeaders(lines[1..])
  }

  /** The number of group headers. */
  function Headers(lines: seq<Line>): nat
    decreases |lines|
  {
    if |lines| == 0 then 0
    else (if lines[0] == DrawingGroup then 1 else 0) + Headers(lines[1..])
  }

  lemma MovedToAppend(a: seq<Graphic>, b: seq<Graphic>, x: int, y: int)
    ensures MovedTo(a + b, x, y) == MovedTo(a, x, y) + MovedTo(b, x, y)
  {
  }

  lemma DrawnAppend(a: seq<Graphic>, b: seq<Graphic>)
    ensures Drawn(a + b) == Drawn(a) + Drawn(b)
  {
  }

  /** Stripping headers and counting them both distribute over `+`. */
  lemma {:induction false} HeadersAppend(a: seq<Line>, b: seq<Line>)
    ensures WithoutHeaders(a + b) == WithoutHeaders(a) + WithoutHeaders(b)
    ensures Headers(a + b) == Headers(a) + Headers(b)
    decreases |a|
  {
    if |a| > 0 {
      HeadersAppend(a[1..], b);
      assert (a + b)[1..] == a[1..] + b;
    } else {
      assert a + b == b;
    }
  }

  // ---------------------------------------------------------------------
  // Properties

  /** A group writes its header before anything its children write, so a
      group always writes at least one draw line, even when empty. */
  lemma GroupDrawStartsWithHeader(g: Graphic)
    requires g.Group?
    ensures |Draw(g)| >= 1 && Draw(g)[0] == DrawingGroup
  {
  }

  /** An empty group draws only its header and moves nothing. */
  lemma EmptyGroupWork(x: int, y: int)
    ensures Draw(NewGroup()) == [DrawingGroup]
    ensures Move(NewGroup(), x, y) == []
  {
  }

  /** The children's moves concatenate across `+` of child lists. */
  lemma MoveEachAppend(a: seq<Graphic>, b: seq<Graphic>, x: int, y: int)
    ensures MoveEach(a + b, x, y) == MoveEach(a, x, y) + MoveEach(b, x, y)
  {
    LeavesEachAppend(a, b);
    MovedToAppend(LeavesEach(a), LeavesEach(b), x, y);
  }

  /** The children's draw lines concatenate across `+` of child lists. */
  lemma {:induction false} DrawEachAppend(a: seq<Graphic>, b: seq<Graphic>)
    ensures DrawEach(a + b) == DrawEach(a) + DrawEach(b)
    decreases |a|
  {
    if |a| == 0 {
      assert a + b == b;
    } else {
      var ab := a + b;
      assert ab[0] == a[0] && ab[1..] == a[1..] + b;
      DrawEachAppend(a[1..], b);
      calc {
        DrawEach(ab);
        Draw(a[0]) + DrawEach(a[1..] + b);
        Draw(a[0]) + (DrawEach(a[1..]) + DrawEach(b));
        (Draw(a[0]) + DrawEach(a[1..])) + DrawEach(b);
      }
    }
  }

  /** The children's leaves concatenate across `+` of child lists. */
  lemma {:induction false} LeavesEachAppend(a: seq<Graphic>, b: seq<Graphic>)
    ensures LeavesEach(a + b) == LeavesEach(a) + LeavesEach(b)
    decreases |a|
  {
    if |a| == 0 {
      assert a + b == b;
    } else {
      LeavesEachAppend(a[1..], b);
      assert (a + b)[0] == a[0];
      assert (a + b)[1..] == a[1..] + b;
    }
  }

  /** Adding a graphic to a group appends that graphic's work after the
      group's existing work: its moves come after the existing moves, its
      draw lines after the existing lines, its leaves after the existing
      leaves. */
  lemma AddAppendsWork(group: Graphic, graphic: Graphic, x: int, y: int)
    requires group.Group?
    ensures Move(Add(group, graphic), x, y) == Move(group, x, y) + Move(graphic, x, y)
    ensures Draw(Add(group, graphic)) == Draw(group) + Draw(graphic)
    ensures Leaves(Add(group, graphic)) == Leaves(group) + Leaves(graphic)
  {
    AddAppendsMoves(group, graphic, x, y);
    AddAppendsDraws(group, graphic);
    AddAppendsLeaves(group, graphic);
  }

  lemma AddAppendsMoves(group: Graphic, graphic: Graphic, x: int, y: int)
    requires group.Group?
    ensures Move(Add(group, graphic), x, y) == Move(group, x, y) + Move(graphic, x, y)
  {
    assert Add(group, graphic) == Group(group.children + [graphic]);
    assert [graphic][1..] == [];
    MoveEachAppend(group.children, [graphic], x, y);
    assert MoveEach([graphic], x, y) == Move(graphic, x, y);
  }

  lemma AddAppendsDraws(group: Graphic, graphic: Graphic)
    requires group.Group?
    ensures Draw(Add(group, graphic)) == Draw(group) + Draw(graphic)
  {
    assert Add(group, graphic) == Group(group.children + [graphic]);
    assert [graphic][1..] == [];
    DrawEachAppend(group.children, [graphic]);
    assert DrawEach([graphic]) == Draw(graphic);
  }

  lemma AddAppendsLeaves(group: Graphic, graphic: Graphic)
    requires group.Group?
    ensures Leaves(Add(group, graphic)) == Leaves(group) + Leaves(graphic)
  {
    assert Add(group, graphic) == Group(group.children + [graphic]);
    assert [graphic][1..] == [];
    LeavesEachAppend(group.children, [graphic]);
    assert LeavesEach([graphic]) == Leaves(graphic);
  }

  /** The driver: a group holding a circle then a rectangle draws the header,
      the circle and the rectangle, and moves both to (1, 2). */
  lemma DriverScenario()
    ensures var group := Add(Add(NewGroup(), Circle), Rectangle);
      && Draw(group) == [DrawingGroup, DrawingCircle, DrawingRectangle]
      && Move(group, 1, 2) == [MovingCircle(1, 2), MovingRectangle(1, 2)]
  {
    var group := Add(Add(NewGroup(), Circle), Rectangle);
    assert group.children == [Circle, Rectangle];
    assert group.children[1..] == [Rectangle];
  }
}
