/** Dragging a person card on the canvas: the drag session kept by each card
    (`DraggableNode`), which tells a click from a drag by a 3-pixel threshold, and the
    canvas handler that moves a dragged node (`handleNodeDrag`). */
module Interaction {
  import opened FamilyTypes
  import opened Viewport

  /** A cursor position in canvas coordinates (`event.x`, `event.y`). */
  datatype Point = Point(x: real, y: real)

  /** Movement of more than this many pixels on either axis makes a drag. */
  const DragThreshold: real := 3.0

  function Abs(r: real): real
  {
    if r < 0.0 then -r else r
  }

  /** The cursor has left the 3-pixel box around the point where the drag began. */
  predicate BeyondThreshold(start: Point, p: Point)
  {
    Abs(p.x - start.x) > DragThreshold || Abs(p.y - start.y) > DragThreshold
  }

  /** `handleNodeDrag`: every node with that id is placed at `(x, y)`; everything
      else about the nodes, and their order, stays as it was. */
  function MoveNode(nodes: seq<GraphNode>, id: string, x: real, y: real): (r: seq<GraphNode>)
    ensures |r| == |nodes|
    ensures forall i :: 0 <= i < |nodes| ==>
      && r[i].id == nodes[i].id && r[i].data == nodes[i].data && r[i].depth == nodes[i].depth
      && (nodes[i].id == id ==> r[i].x == x && r[i].y == y)
      && (nodes[i].id != id ==> r[i] == nodes[i])
  {
    seq(|nodes|, i requires 0 <= i < |nodes| =>
      if nodes[i].id == id then nodes[i].(x := x, y := y) else nodes[i])
  }

  /** Moving a node twice leaves it where the second move put it. */
  lemma MoveNodeTwice(nodes: seq<GraphNode>, id: string, x1: real, y1: real, x2: real, y2: real)
    ensures MoveNode(MoveNode(nodes, id, x1, y1), id, x2, y2) == MoveNode(nodes, id, x2, y2)
  {
    var a := MoveNode(MoveNode(nodes, id, x1, y1), id, x2, y2);
    var b := MoveNode(nodes, id, x2, y2);
    forall i | 0 <= i < |nodes| ensures a[i] == b[i] {
    }
  }

  /** Moves of two different nodes do not interfere. */
  lemma MoveNodeCommutes(nodes: seq<GraphNode>, id1: string, x1: real, y1: real,
                         id2: string, x2: real, y2: real)
    requires id1 != id2
    ensures MoveNode(MoveNode(nodes, id1, x1, y1), id2, x2, y2)
         == MoveNode(MoveNode(nodes, id2, x2, y2), id1, x1, y1)
  {
    var a := MoveNode(MoveNode(nodes, id1, x1, y1), id2, x2, y2);
    var b := MoveNode(MoveNode(nodes, id2, x2, y2), id1, x1, y1);
    forall i | 0 <= i < |nodes| ensures a[i] == b[i] {
    }
  }

  /** Moving an id that no node carries changes nothing. */
  lemma MoveNodeAbsent(nodes: seq<GraphNode>, id: string, x: real, y: real)
    requires forall i :: 0 <= i < |nodes| ==> nodes[i].id != id
    ensures MoveNode(nodes, id, x, y) == nodes
  {
    var r := MoveNode(nodes, id, x, y);
    forall i | 0 <= i < |nodes| ensures r[i] == nodes[i] {
    }
  }

  /** The last cursor position of a gesture that is beyond the threshold, if any:
      the position the dragged node ends up at. */
  function LastBeyond(start: Point, pts: seq<Point>): Option<Point>
  {
    if pts == [] then None
    else if BeyondThreshold(start, pts[|pts| - 1]) then Some(pts[|pts| - 1])
    else LastBeyond(start, pts[..|pts| - 1])
  }

  /** A gesture moves the node exactly when some position crosses the threshold. */
  lemma {:induction false} LastBeyondNone(start: Point, pts: seq<Point>)
    ensures LastBeyond(start, pts).None? <==>
      forall i :: 0 <= i < |pts| ==> !BeyondThreshold(start, pts[i])
    ensures LastBeyond(start, pts).Some? ==>
      LastBeyond(start, pts).value in pts && BeyondThreshold(start, LastBeyond(start, pts).value)
  {
    if pts != [] {
      var init := pts[..|pts| - 1];
      LastBeyondNone(start, init);
      if !BeyondThreshold(start, pts[|pts| - 1]) {
        assert forall i :: 0 <= i < |init| ==> init[i] == pts[i];
      }
    }
  }

  /** The nodes after a gesture: moved to the last position beyond the threshold,
      or untouched when the cursor never left the threshold box. */
  function AfterGesture(nodes: seq<GraphNode>, id: string, start: Point, pts: seq<Point>): seq<GraphNode>
  {
    match LastBeyond(start, pts)
    case None => nodes
    case Some(p) => MoveNode(nodes, id, p.x, p.y)
  }

  /** The state a card's drag behaviour keeps between events. */
  class DragSession {
    var startX: real
    var startY: real
    var hasMoved: bool

    constructor()
      ensures startX == 0.0 && startY == 0.0 && !hasMoved
    {
      startX := 0.0;
      startY := 0.0;
      hasMoved := false;
    }

    /** `start`: remember where the press happened; nothing has moved yet. */
    method Start(p: Point)
      modifies this
      ensures startX == p.x && startY == p.y && !hasMoved
    {
      startX := p.x;
      startY := p.y;
      hasMoved := false;
    }

    /** `drag`: a position beyond the threshold marks the gesture as a drag and is
        reported to the canvas; a position within it is ignored. The mark stays once
        set, even if the cursor comes back. */
    method Drag(p: Point) returns (fired: bool)
      modifies this
      ensures fired <==> BeyondThreshold(Point(startX, startY), p)
      ensures hasMoved == (old(hasMoved) || fired)
      ensures startX == old(startX) && startY == old(startY)
    {
      fired := false;
      if Abs(p.x - startX) > DragThreshold || Abs(p.y - startY) > DragThreshold {
        hasMoved := true;
        fired := true;
      }
    }

    /** `end`: the gesture was a click, and selects the person, exactly when it never
        became a drag. */
    method End() returns (select: bool)
      ensures select == !hasMoved
    {
      select := !hasMoved;
    }
  }

  /** A whole gesture on the card of node `id`: press at `start`, the drag
      positions `pts`, release. Each reported position goes through
      `handleNodeDrag`. The node ends at the last position beyond the threshold, and
      the gesture selects the person exactly when no position crossed it. */
  method RunGesture(nodes: seq<GraphNode>, id: string, start: Point, pts: seq<Point>)
    returns (result: seq<GraphNode>, selected: bool)
    ensures result == AfterGesture(nodes, id, start, pts)
    ensures selected <==> forall i :: 0 <= i < |pts| ==> !BeyondThreshold(start, pts[i])
  {
    var session := new DragSession();
    session.Start(start);
    result := nodes;
    for k := 0 to |pts|
      invariant session.startX == start.x && session.startY == start.y
      invariant session.hasMoved <==> LastBeyond(start, pts[..k]).Some?
      invariant result == AfterGesture(nodes, id, start, pts[..k])
    {
      assert pts[..k + 1][..k] == pts[..k];
      var fired := session.Drag(pts[k]);
      if fired {
        match LastBeyond(start, pts[..k]) {
          case None =>
          case Some(q) => MoveNodeTwice(nodes, id, q.x, q.y, pts[k].x, pts[k].y);
        }
        result := MoveNode(result, id, pts[k].x, pts[k].y);
      }
    }
    assert pts[..|pts|] == pts;
    selected := session.End();
    LastBeyondNone(start, pts);
  }
}
