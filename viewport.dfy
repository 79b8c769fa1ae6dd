/** The laid-out nodes on the canvas and the initial zoom transform that fits them
    into the container (the auto-fit step of `calculateLayout`). Coordinates are
    real numbers; the browser's floating point is not modelled. */
module Viewport {
  import opened FamilyTypes

  /** One positioned node (`GraphNode`); `depth` is the generation index. */
  datatype GraphNode = GraphNode(id: string, x: real, y: real, data: Member, depth: int)

  /** A zoom transform: a point `p` is shown at `(x + k * p.x, y + k * p.y)`. */
  datatype ZoomTransform = ZoomTransform(k: real, x: real, y: real)

  const ZoomIdentity: ZoomTransform := ZoomTransform(1.0, 0.0, 0.0)

  /** `t.translate(dx, dy)`: the offset is taken in the transform's own scale. */
  function Translate(t: ZoomTransform, dx: real, dy: real): ZoomTransform
  {
    ZoomTransform(t.k, t.x + t.k * dx, t.y + t.k * dy)
  }

  /** `t.scale(s)` */
  function Scale(t: ZoomTransform, s: real): ZoomTransform
  {
    ZoomTransform(t.k * s, t.x, t.y)
  }

  function ShowX(t: ZoomTransform, px: real): real
  {
    t.x + t.k * px
  }

  function ShowY(t: ZoomTransform, py: real): real
  {
    t.y + t.k * py
  }

  function Min(a: real, b: real): real
  {
    if a <= b then a else b
  }

  function Max(a: real, b: real): real
  {
    if a >= b then a else b
  }

  function Xs(nodes: seq<GraphNode>): (r: seq<real>)
    ensures |r| == |nodes| && forall i :: 0 <= i < |nodes| ==> r[i] == nodes[i].x
  {
    seq(|nodes|, i requires 0 <= i < |nodes| => nodes[i].x)
  }

  function Ys(nodes: seq<GraphNode>): (r: seq<real>)
    ensures |r| == |nodes| && forall i :: 0 <= i < |nodes| ==> r[i] == nodes[i].y
  {
    seq(|nodes|, i requires 0 <= i < |nodes| => nodes[i].y)
  }

  /** `d3.min`: the least of the values. */
  function MinOf(vs: seq<real>): (m: real)
    requires |vs| > 0
    ensures m in vs && forall i :: 0 <= i < |vs| ==> m <= vs[i]
  {
    if |vs| == 1 then vs[0]
    else
      var rest := MinOf(vs[..|vs| - 1]);
      assert rest in vs;
      Min(rest, vs[|vs| - 1])
  }

  /** `d3.max`: the greatest of the values. */
  function MaxOf(vs: seq<real>): (m: real)
    requires |vs| > 0
    ensures m in vs && forall i :: 0 <= i < |vs| ==> vs[i] <= m
  {
    if |vs| == 1 then vs[0]
    else
      var rest := MaxOf(vs[..|vs| - 1]);
      assert rest in vs;
      Max(rest, vs[|vs| - 1])
  }

  /** Padding added around the nodes' bounding box. */
  const PadWidth: real := 400.0
  const PadHeight: real := 600.0
  const MinFit: real := 0.1
  const MaxFit: real := 0.8

  /** `Math.min(0.8, Math.max(0.1, Math.min(width / graphWidth, height / graphHeight)))` */
  function FitScale(width: real, height: real, graphWidth: real, graphHeight: real): (s: real)
    requires graphWidth > 0.0 && graphHeight > 0.0
    ensures MinFit <= s <= MaxFit
    ensures MinFit <= Min(width / graphWidth, height / graphHeight) <= MaxFit ==>
      s == Min(width / graphWidth, height / graphHeight)
    ensures s <= Max(MinFit, Min(width / graphWidth, height / graphHeight))
  {
    Min(MaxFit, Max(MinFit, Min(width / graphWidth, height / graphHeight)))
  }

  /** The bounding box of the nodes. */
  datatype Box = Box(minX: real, maxX: real, minY: real, maxY: real)

  function BoundingBox(nodes: seq<GraphNode>): (b: Box)
    requires |nodes| > 0
    ensures b.minX <= b.maxX && b.minY <= b.maxY
    ensures forall i :: 0 <= i < |nodes| ==>
      b.minX <= nodes[i].x <= b.maxX && b.minY <= nodes[i].y <= b.maxY
  {
    var b := Box(MinOf(Xs(nodes)), MaxOf(Xs(nodes)), MinOf(Ys(nodes)), MaxOf(Ys(nodes)));
    assert Xs(nodes)[0] == nodes[0].x && Ys(nodes)[0] == nodes[0].y;
    b
  }

  /** The transform that centres the box in a `width` by `height` container at the
      clamped scale: `zoomIdentity.translate(width / 2, height / 2).scale(scale)
      .translate(-centerX, -centerY)`. */
  function FitTransform(b: Box, width: real, height: real): (t: ZoomTransform)
    requires b.minX <= b.maxX && b.minY <= b.maxY
    ensures MinFit <= t.k <= MaxFit
  {
    var s := FitScale(width, height, b.maxX - b.minX + PadWidth, b.maxY - b.minY + PadHeight);
    var cx := (b.minX + b.maxX) / 2.0;
    var cy := (b.minY + b.maxY) / 2.0;
    Translate(Scale(Translate(ZoomIdentity, width / 2.0, height / 2.0), s), -cx, -cy)
  }

  /** The auto-fit transform of a forced reset: nothing for no nodes; otherwise the
      box of the nodes fitted into the container. */
  function AutoFit(nodes: seq<GraphNode>, width: real, height: real): (t: Option<ZoomTransform>)
    ensures t.Some? <==> |nodes| > 0
    ensures t.Some? ==> MinFit <= t.value.k <= MaxFit
  {
    if |nodes| == 0 then None else Some(FitTransform(BoundingBox(nodes), width, height))
  }

  /** The middle of the box is shown at the middle of the container. */
  lemma FitTransformCentres(b: Box, width: real, height: real)
    requires b.minX <= b.maxX && b.minY <= b.maxY
    ensures ShowX(FitTransform(b, width, height), (b.minX + b.maxX) / 2.0) == width / 2.0
    ensures ShowY(FitTransform(b, width, height), (b.minY + b.maxY) / 2.0) == height / 2.0
  {
  }

  /** Unless the lower clamp of 0.1 took over, every point of the box is shown inside
      the container. */
  lemma FitTransformShowsBox(b: Box, width: real, height: real, x: real, y: real)
    requires b.minX <= x <= b.maxX && b.minY <= y <= b.maxY && width >= 0.0 && height >= 0.0
    requires Min(width / (b.maxX - b.minX + PadWidth), height / (b.maxY - b.minY + PadHeight)) >= MinFit
    ensures 0.0 <= ShowX(FitTransform(b, width, height), x) <= width
    ensures 0.0 <= ShowY(FitTransform(b, width, height), y) <= height
  {
    FitTransformForm(b, width, height);
    FitScaleWithin(width, height, b.maxX - b.minX + PadWidth, b.maxY - b.minY + PadHeight);
    FitShowsX(b, width, height, x);
    FitShowsY(b, width, height, y);
  }

  /** The horizontal half of `FitTransformShowsBox`. */
  lemma FitShowsX(b: Box, width: real, height: real, x: real)
    requires b.minX <= x <= b.maxX && b.minY <= b.maxY && width >= 0.0
    requires var s := FitScale(width, height, b.maxX - b.minX + PadWidth, b.maxY - b.minY + PadHeight);
      && 0.0 < s <= width / (b.maxX - b.minX + PadWidth)
      && FitTransform(b, width, height) ==
        ZoomTransform(s, width / 2.0 - s * ((b.minX + b.maxX) / 2.0), height / 2.0 - s * ((b.minY + b.maxY) / 2.0))
    ensures 0.0 <= ShowX(FitTransform(b, width, height), x) <= width
  {
    var s := FitScale(width, height, b.maxX - b.minX + PadWidth, b.maxY - b.minY + PadHeight);
    FitsWithin(s, width, b.maxX - b.minX + PadWidth, b.minX, b.maxX, x);
  }

  /** The vertical half of `FitTransformShowsBox`. */
  lemma FitShowsY(b: Box, width: real, height: real, y: real)
    requires b.minY <= y <= b.maxY && b.minX <= b.maxX && height >= 0.0
    requires var s := FitScale(width, height, b.maxX - b.minX + PadWidth, b.maxY - b.minY + PadHeight);
      && 0.0 < s <= height / (b.maxY - b.minY + PadHeight)
      && FitTransform(b, width, height) ==
        ZoomTransform(s, width / 2.0 - s * ((b.minX + b.maxX) / 2.0), height / 2.0 - s * ((b.minY + b.maxY) / 2.0))
    ensures 0.0 <= ShowY(FitTransform(b, width, height), y) <= height
  {
    var s := FitScale(width, height, b.maxX - b.minX + PadWidth, b.maxY - b.minY + PadHeight);
    FitsWithin(s, height, b.maxY - b.minY + PadHeight, b.minY, b.maxY, y);
  }

  /** The fit transform written out: scale `s`, offset so the middle lands in the middle. */
  lemma FitTransformForm(b: Box, width: real, height: real)
    requires b.minX <= b.maxX && b.minY <= b.maxY
    ensures var s := FitScale(width, height, b.maxX - b.minX + PadWidth, b.maxY - b.minY + PadHeight);
      FitTransform(b, width, height) ==
        ZoomTransform(s, width / 2.0 - s * ((b.minX + b.maxX) / 2.0), height / 2.0 - s * ((b.minY + b.maxY) / 2.0))
  {
  }

  /** When the lower clamp did not take over, the scale fits both extents. */
  lemma FitScaleWithin(width: real, height: real, gw: real, gh: real)
    requires gw > 0.0 && gh > 0.0 && Min(width / gw, height / gh) >= MinFit
    ensures 0.0 < FitScale(width, height, gw, gh) <= width / gw
    ensures FitScale(width, height, gw, gh) <= height / gh
  {
  }

  /** The auto-fit view shows the middle of the nodes' box at the middle of the
      container and, unless the lower clamp took over, every node inside it. */
  lemma AutoFitShowsAll(nodes: seq<GraphNode>, width: real, height: real)
    requires |nodes| > 0 && width >= 0.0 && height >= 0.0
    ensures var b := BoundingBox(nodes);
      var t := AutoFit(nodes, width, height).value;
      && ShowX(t, (b.minX + b.maxX) / 2.0) == width / 2.0
      && ShowY(t, (b.minY + b.maxY) / 2.0) == height / 2.0
      && (Min(width / (b.maxX - b.minX + PadWidth), height / (b.maxY - b.minY + PadHeight)) >= MinFit ==>
          forall i :: 0 <= i < |nodes| ==>
            0.0 <= ShowX(t, nodes[i].x) <= width && 0.0 <= ShowY(t, nodes[i].y) <= height)
  {
    var b := BoundingBox(nodes);
    FitTransformCentres(b, width, height);
    if Min(width / (b.maxX - b.minX + PadWidth), height / (b.maxY - b.minY + PadHeight)) >= MinFit {
      forall i | 0 <= i < |nodes|
        ensures 0.0 <= ShowX(FitTransform(b, width, height), nodes[i].x) <= width
        ensures 0.0 <= ShowY(FitTransform(b, width, height), nodes[i].y) <= height
      {
        FitTransformShowsBox(b, width, height, nodes[i].x, nodes[i].y);
      }
    }
  }

  /** One axis: a point of `[lo, hi]` scaled by `s <= size / extent` around the
      middle stays within `[0, size]`. */
  lemma FitsWithin(s: real, size: real, extent: real, lo: real, hi: real, v: real)
    requires 0.0 < s && size >= 0.0 && lo <= v <= hi && extent > hi - lo && s <= size / extent
    ensures 0.0 <= size / 2.0 - s * ((lo + hi) / 2.0) + s * v <= size
  {
    var d := v - (lo + hi) / 2.0;
    assert -(hi - lo) / 2.0 <= d <= (hi - lo) / 2.0;
    assert s * extent <= size by {
      assert s * extent <= (size / extent) * extent;
    }
    assert s * (hi - lo) <= size by {
      assert s * (hi - lo) <= s * extent;
    }
    assert -(size / 2.0) <= s * d <= size / 2.0 by {
      assert s * d <= s * ((hi - lo) / 2.0);
      assert s * (-(hi - lo) / 2.0) <= s * d;
    }
    assert size / 2.0 - s * ((lo + hi) / 2.0) + s * v == size / 2.0 + s * d;
  }
}
