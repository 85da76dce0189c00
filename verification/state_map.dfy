/** The state map: a state's outline is fitted into the drawing area by
    one shared scale and offset, so that its bounding box is centred and its
    larger side spans 80% of the area; the loaded features are cut down to the
    three states the site covers; and the buttons morph the drawn state into
    another one, which becomes the current state only when the morph ends.
    The shape interpolation and the text fades are not modelled. */
module StateMap {
  import opened Seqs

  datatype Point = Point(x: real, y: real)

  /** `{x0, y0, x1, y1}` */
  datatype Box = Box(x0: real, y0: real, x1: real, y1: real)

  function X(p: Point): real { p.x }
  function Y(p: Point): real { p.y }

  /** `Math.min(...ps.map(f))` of a non-empty list. */
  function Least(ps: seq<Point>, f: Point -> real): (m: real)
    requires |ps| > 0
    ensures forall i :: 0 <= i < |ps| ==> m <= f(ps[i])
    ensures exists i :: 0 <= i < |ps| && f(ps[i]) == m
  {
    if |ps| == 1 then f(ps[0])
    else
      var m := Least(ps[1..], f);
      assert forall i :: 1 <= i < |ps| ==> ps[i] == ps[1..][i - 1];
      if f(ps[0]) <= m then f(ps[0]) else m
  }

  /** `Math.max(...ps.map(f))` of a non-empty list. */
  function Greatest(ps: seq<Point>, f: Point -> real): (m: real)
    requires |ps| > 0
    ensures forall i :: 0 <= i < |ps| ==> f(ps[i]) <= m
    ensures exists i :: 0 <= i < |ps| && f(ps[i]) == m
  {
    if |ps| == 1 then f(ps[0])
    else
      var m := Greatest(ps[1..], f);
      assert forall i :: 1 <= i < |ps| ==> ps[i] == ps[1..][i - 1];
      if f(ps[0]) >= m then f(ps[0]) else m
  }

  predicate Inside(p: Point, b: Box) {
    b.x0 <= p.x <= b.x1 && b.y0 <= p.y <= b.y1
  }

  /** Every bound is reached by some point. */
  predicate Tight(ps: seq<Point>, b: Box) {
    && (exists i :: 0 <= i < |ps| && ps[i].x == b.x0)
    && (exists i :: 0 <= i < |ps| && ps[i].y == b.y0)
    && (exists i :: 0 <= i < |ps| && ps[i].x == b.x1)
    && (exists i :: 0 <= i < |ps| && ps[i].y == b.y1)
  }

  /** `getBoundingBox`: the least box holding every point. An empty list has
      no box (the browser's bounds are then infinite, lower above upper). */
  function BoundingBox(ps: seq<Point>): (r: Option<Box>)
    ensures r.Some? <==> |ps| > 0
    ensures r.Some? ==> (forall i :: 0 <= i < |ps| ==> Inside(ps[i], r.value)) && Tight(ps, r.value)
  {
    if |ps| == 0 then None
    else Some(Box(Least(ps, X), Least(ps, Y), Greatest(ps, X), Greatest(ps, Y)))
  }

  /** A box that holds every point and whose bounds are all reached is the
      bounding box. */
  lemma BoxUnique(ps: seq<Point>, b: Box)
    requires forall i :: 0 <= i < |ps| ==> Inside(ps[i], b)
    requires Tight(ps, b)
    ensures BoundingBox(ps) == Some(b)
  {
    var c := BoundingBox(ps).value;
    var i0 :| 0 <= i0 < |ps| && ps[i0].x == b.x0;
    var j0 :| 0 <= j0 < |ps| && ps[j0].y == b.y0;
    var i1 :| 0 <= i1 < |ps| && ps[i1].x == b.x1;
    var j1 :| 0 <= j1 < |ps| && ps[j1].y == b.y1;
    assert Inside(ps[i0], c) && Inside(ps[j0], c) && Inside(ps[i1], c) && Inside(ps[j1], c);
    var k0 :| 0 <= k0 < |ps| && ps[k0].x == c.x0;
    var l0 :| 0 <= l0 < |ps| && ps[l0].y == c.y0;
    var k1 :| 0 <= k1 < |ps| && ps[k1].x == c.x1;
    var l1 :| 0 <= l1 < |ps| && ps[l1].y == c.y1;
    assert Inside(ps[k0], b) && Inside(ps[l0], b) && Inside(ps[k1], b) && Inside(ps[l1], b);
    assert c.x0 == b.x0 && c.y0 == b.y0 && c.x1 == b.x1 && c.y1 == b.y1;
    assert c == b;
  }

  // ---------------------------------------------------------------------
  // Scale and centre

  /** `svgSize / extent`, or `None` for the infinity of a zero extent. */
  function Ratio(svgSize: real, extent: real): Option<real> {
    if extent == 0.0 then None else Some(svgSize / extent)
  }

  /** `Math.min(svgWidth / width, svgHeight / height) * 0.8`; `None` when both
      extents are zero, where both ratios and so the scale are infinite. */
  function Scale(b: Box, svgWidth: real, svgHeight: real): (s: Option<real>)
    requires b.x0 <= b.x1 && b.y0 <= b.y1 && svgWidth > 0.0 && svgHeight > 0.0
    ensures s.None? <==> b.x0 == b.x1 && b.y0 == b.y1
    ensures s.Some? ==> s.value > 0.0
    ensures s.Some? ==> (b.x1 - b.x0) * s.value <= 0.8 * svgWidth && (b.y1 - b.y0) * s.value <= 0.8 * svgHeight
    ensures s.Some? ==> (b.x1 - b.x0) * s.value == 0.8 * svgWidth || (b.y1 - b.y0) * s.value == 0.8 * svgHeight
  {
    var w, h := b.x1 - b.x0, b.y1 - b.y0;
    match (Ratio(svgWidth, w), Ratio(svgHeight, h))
    case (None, None) => None
    case (Some(rx), None) =>
      Fill(w, svgWidth);
      Some(rx * 0.8)
    case (None, Some(ry)) =>
      Fill(h, svgHeight);
      Some(ry * 0.8)
    case (Some(rx), Some(ry)) =>
      Fill(w, svgWidth);
      Fill(h, svgHeight);
      if rx <= ry then
        Shrink(h, ry, rx, svgHeight);
        Some(rx * 0.8)
      else
        Shrink(w, rx, ry, svgWidth);
        Some(ry * 0.8)
  }

  /** An extent times its own ratio fills 80% of the side. */
  lemma Fill(extent: real, size: real)
    requires extent > 0.0 && size > 0.0
    ensures size / extent > 0.0 && extent * ((size / extent) * 0.8) == 0.8 * size
  {
  }

  /** An extent times a smaller ratio than its own fills at most 80%. */
  lemma Shrink(extent: real, own: real, smaller: real, size: real)
    requires extent > 0.0 && own == size / extent && 0.0 < smaller <= own
    ensures extent * (smaller * 0.8) <= 0.8 * size
  {
    assert extent * own == size;
    assert extent * (own - smaller) >= 0.0;
  }

  /** Where one point lands: moved by the box's corner, scaled, and shifted
      so that the scaled box is centred. */
  function Place(p: Point, b: Box, s: real, svgWidth: real, svgHeight: real): Point {
    Point((p.x - b.x0) * s + (svgWidth - (b.x1 - b.x0) * s) / 2.0,
          (p.y - b.y0) * s + (svgHeight - (b.y1 - b.y0) * s) / 2.0)
  }

  /** `qs` is `ps` moved by one map that scales every difference between
      two points by `s`. */
  predicate Similar(ps: seq<Point>, qs: seq<Point>, s: real) {
    && |qs| == |ps|
    && forall i, j :: 0 <= i < |ps| && 0 <= j < |ps| ==>
         qs[i].x - qs[j].x == s * (ps[i].x - ps[j].x) && qs[i].y - qs[j].y == s * (ps[i].y - ps[j].y)
  }

  /** `scaleAndCenterCoordinates`: `None` when the points have no box (the
      browser then maps no points to an empty list) or the scale is infinite
      (the browser then computes `0 * Infinity`, coordinates that are not
      numbers). Otherwise one point per point, all moved by the same map:
      differences between points are scaled by one factor. */
  function ScaleAndCenter(ps: seq<Point>, svgWidth: real, svgHeight: real): (r: Option<seq<Point>>)
    requires svgWidth > 0.0 && svgHeight > 0.0
    ensures r.Some? <==> |ps| > 0 && var b := BoundingBox(ps).value; b.x0 != b.x1 || b.y0 != b.y1
    ensures r.Some? ==> |r.value| == |ps|
  {
    match BoundingBox(ps)
    case None => None
    case Some(b) =>
      assert Inside(ps[0], b);
      match Scale(b, svgWidth, svgHeight)
      case None => None
      case Some(s) =>
        Some(Fitted(ps, b, s, svgWidth, svgHeight))
  }

  /** Scaling yields coordinates exactly when the outline has two distinct
      points: an empty outline has no box, and a single point has zero width
      and height, which makes the scale infinite. */
  lemma ScaledWhenSpread(ps: seq<Point>, svgWidth: real, svgHeight: real)
    requires svgWidth > 0.0 && svgHeight > 0.0
    ensures ScaleAndCenter(ps, svgWidth, svgHeight).Some? <==>
      |ps| > 0 && exists i :: 0 <= i < |ps| && ps[i] != ps[0]
  {
    if |ps| > 0 {
      var b := BoundingBox(ps).value;
      if exists i :: 0 <= i < |ps| && ps[i] != ps[0] {
        var i :| 0 <= i < |ps| && ps[i] != ps[0];
        assert Inside(ps[i], b) && Inside(ps[0], b);
      } else {
        var k :| 0 <= k < |ps| && ps[k].x == b.x1;
        var l :| 0 <= l < |ps| && ps[l].y == b.y1;
        assert ps[k] == ps[0] && ps[l] == ps[0];
      }
    }
  }

  /** Every point is moved by the same map: differences between points are
      scaled by the one factor `Scale` gives for the points' bounding box. */
  lemma OneMap(ps: seq<Point>, svgWidth: real, svgHeight: real)
    requires svgWidth > 0.0 && svgHeight > 0.0
    requires |ps| > 0 && exists i :: 0 <= i < |ps| && ps[i] != ps[0]
    ensures Similar(ps, ScaleAndCenter(ps, svgWidth, svgHeight).value, Scale(BoundingBox(ps).value, svgWidth, svgHeight).value)
  {
    ScaledWhenSpread(ps, svgWidth, svgHeight);
    assert ScaleAndCenter(ps, svgWidth, svgHeight).Some?;
    var b := BoundingBox(ps).value;
    assert Inside(ps[0], b);
    var s := Scale(b, svgWidth, svgHeight).value;
    PlaceSimilar(ps, Fitted(ps, b, s, svgWidth, svgHeight), b, s, svgWidth, svgHeight);
  }

  function Fitted(ps: seq<Point>, b: Box, s: real, svgWidth: real, svgHeight: real): (r: seq<Point>)
    ensures |r| == |ps| && forall i :: 0 <= i < |ps| ==> r[i] == Place(ps[i], b, s, svgWidth, svgHeight)
  {
    seq(|ps|, i requires 0 <= i < |ps| => Place(ps[i], b, s, svgWidth, svgHeight))
  }

  /** The box the fitted points are placed in. */
  function FittedBox(b: Box, s: real, svgWidth: real, svgHeight: real): Box {
    var ox, oy := (svgWidth - (b.x1 - b.x0) * s) / 2.0, (svgHeight - (b.y1 - b.y0) * s) / 2.0;
    Box(ox, oy, ox + (b.x1 - b.x0) * s, oy + (b.y1 - b.y0) * s)
  }

  /** A point of the box lands in the fitted box, a corner on its corner. */
  lemma PlaceInside(p: Point, b: Box, s: real, svgWidth: real, svgHeight: real)
    requires Inside(p, b) && s >= 0.0
    ensures var q, c := Place(p, b, s, svgWidth, svgHeight), FittedBox(b, s, svgWidth, svgHeight);
      && Inside(q, c)
      && (p.x == b.x0 ==> q.x == c.x0) && (p.x == b.x1 ==> q.x == c.x1)
      && (p.y == b.y0 ==> q.y == c.y0) && (p.y == b.y1 ==> q.y == c.y1)
  {
    MulMono(0.0, p.x - b.x0, s);
    MulMono(p.x - b.x0, b.x1 - b.x0, s);
    MulMono(0.0, p.y - b.y0, s);
    MulMono(p.y - b.y0, b.y1 - b.y0, s);
  }

  lemma PlaceSimilar(ps: seq<Point>, r: seq<Point>, b: Box, s: real, svgWidth: real, svgHeight: real)
    requires |r| == |ps| && forall i :: 0 <= i < |ps| ==> r[i] == Place(ps[i], b, s, svgWidth, svgHeight)
    ensures Similar(ps, r, s)
  {
    forall i, j | 0 <= i < |ps| && 0 <= j < |ps|
      ensures r[i].x - r[j].x == s * (ps[i].x - ps[j].x) && r[i].y - r[j].y == s * (ps[i].y - ps[j].y)
    {
      Shift(ps[i].x, ps[j].x, b.x0, s, (svgWidth - (b.x1 - b.x0) * s) / 2.0);
      Shift(ps[i].y, ps[j].y, b.y0, s, (svgHeight - (b.y1 - b.y0) * s) / 2.0);
    }
  }

  lemma Shift(u: real, v: real, o: real, s: real, off: real)
    ensures ((u - o) * s + off) - ((v - o) * s + off) == s * (u - v)
  {
    assert (u - o) * s - (v - o) * s == (u - v) * s;
  }

  lemma MulMono(a: real, b: real, s: real)
    requires a <= b && s >= 0.0
    ensures a * s <= b * s
  {
    assert (b - a) * s >= 0.0;
  }

  /** The fitted outline is centred in the drawing area, keeps a margin of a
      tenth of the area on every side, and fills 80% of the area along at
      least one axis. */
  lemma Centred(ps: seq<Point>, svgWidth: real, svgHeight: real)
    requires svgWidth > 0.0 && svgHeight > 0.0
    requires |ps| > 0 && exists i :: 0 <= i < |ps| && ps[i] != ps[0]
    ensures var q := BoundingBox(ScaleAndCenter(ps, svgWidth, svgHeight).value);
      && q.Some?
      && q.value.x0 + q.value.x1 == svgWidth && q.value.y0 + q.value.y1 == svgHeight
      && 0.1 * svgWidth <= q.value.x0 && q.value.x1 <= 0.9 * svgWidth
      && 0.1 * svgHeight <= q.value.y0 && q.value.y1 <= 0.9 * svgHeight
      && (q.value.x1 - q.value.x0 == 0.8 * svgWidth || q.value.y1 - q.value.y0 == 0.8 * svgHeight)
  {
    ScaledWhenSpread(ps, svgWidth, svgHeight);
    assert ScaleAndCenter(ps, svgWidth, svgHeight).Some?;
    var b := BoundingBox(ps).value;
    assert Inside(ps[0], b);
    assert b.x0 != b.x1 || b.y0 != b.y1;
    var so := Scale(b, svgWidth, svgHeight);
    assert so.Some?;
    var s := so.value;
    FitBox(b, svgWidth, svgHeight);
    var r := Fitted(ps, b, s, svgWidth, svgHeight);
    assert ScaleAndCenter(ps, svgWidth, svgHeight).value == r;
    var c := FittedBox(b, s, svgWidth, svgHeight);
    forall i | 0 <= i < |ps|
      ensures Inside(r[i], c)
    {
      assert Inside(ps[i], b);
      PlaceInside(ps[i], b, s, svgWidth, svgHeight);
    }
    var i0 :| 0 <= i0 < |ps| && ps[i0].x == b.x0;
    var j0 :| 0 <= j0 < |ps| && ps[j0].y == b.y0;
    var i1 :| 0 <= i1 < |ps| && ps[i1].x == b.x1;
    var j1 :| 0 <= j1 < |ps| && ps[j1].y == b.y1;
    assert Inside(ps[i0], b) && Inside(ps[j0], b) && Inside(ps[i1], b) && Inside(ps[j1], b);
    PlaceInside(ps[i0], b, s, svgWidth, svgHeight);
    PlaceInside(ps[j0], b, s, svgWidth, svgHeight);
    PlaceInside(ps[i1], b, s, svgWidth, svgHeight);
    PlaceInside(ps[j1], b, s, svgWidth, svgHeight);
    BoxUnique(r, c);
  }

  /** The box the fitted points are placed in is centred, keeps a tenth of
      the area free on every side and spans 80% of it along one axis. */
  lemma FitBox(b: Box, svgWidth: real, svgHeight: real)
    requires b.x0 <= b.x1 && b.y0 <= b.y1 && svgWidth > 0.0 && svgHeight > 0.0
    requires Scale(b, svgWidth, svgHeight).Some?
    ensures var c := FittedBox(b, Scale(b, svgWidth, svgHeight).value, svgWidth, svgHeight);
      && c.x0 + c.x1 == svgWidth && c.y0 + c.y1 == svgHeight
      && 0.1 * svgWidth <= c.x0 && c.x1 <= 0.9 * svgWidth
      && 0.1 * svgHeight <= c.y0 && c.y1 <= 0.9 * svgHeight
      && (c.x1 - c.x0 == 0.8 * svgWidth || c.y1 - c.y0 == 0.8 * svgHeight)
  {
    var s := Scale(b, svgWidth, svgHeight).value;
    var sx, sy := (b.x1 - b.x0) * s, (b.y1 - b.y0) * s;
    MulMono(0.0, b.x1 - b.x0, s);
    MulMono(0.0, b.y1 - b.y0, s);
    Margins(sx, svgWidth);
    Margins(sy, svgHeight);
  }

  /** A span of at most 80% of a side, centred, leaves a tenth on each end. */
  lemma Margins(span: real, size: real)
    requires 0.0 <= span <= 0.8 * size
    ensures var o := (size - span) / 2.0;
      o + (o + span) == size && 0.1 * size <= o && o + span <= 0.9 * size && (o + span) - o == span
  {
  }

  // ---------------------------------------------------------------------
  // States

  /** The states the site covers. */
  const AllowedStates: seq<string> := ["CA", "MD", "VA"]

  /** The state colours, shared with the flow diagram, `default` included. */
  const StateColors: map<string, string> := map[
    "CA" := "#FFD670",
    "MD" := "#f4d35e",
    "VA" := "#e6b89c",
    "default" := "#F5F5F5"
  ]

  /** A map feature: its id and the outer ring of its outline. */
  datatype Feature = Feature(id: string, outline: seq<Point>)

  datatype StateShape = StateShape(id: string, coordinates: seq<Point>, color: string)

  /** `stateColors[id] || stateColors.default` */
  function ColorOf(id: string): string {
    if id in StateColors then StateColors[id] else StateColors["default"]
  }

  function Shape(f: Feature): StateShape {
    StateShape(f.id, f.outline, ColorOf(f.id))
  }

  /** `statesData`: the allowed features in their order, each with its
      colour. */
  function StatesData(features: seq<Feature>): (r: seq<StateShape>)
    ensures |r| <= |features|
    ensures forall s :: s in r <==> exists f :: f in features && f.id in AllowedStates && s == Shape(f)
  {
    if |features| == 0 then []
    else
      var rest := StatesData(features[1..]);
      assert forall f :: f in features <==> f == features[0] || f in features[1..];
      if features[0].id in AllowedStates then [Shape(features[0])] + rest else rest
  }

  /** The kept states stay in the features' order: the states of two runs
      of features are those of the first followed by those of the second. */
  lemma {:induction false} StatesDataAppend(a: seq<Feature>, b: seq<Feature>)
    ensures StatesData(a + b) == StatesData(a) + StatesData(b)
  {
    if |a| > 0 {
      assert (a + b)[0] == a[0];
      assert (a + b)[1..] == a[1..] + b;
      StatesDataAppend(a[1..], b);
    } else {
      assert a + b == b;
    }
  }

  /** One more feature adds its shape at the end exactly when its id is
      allowed. */
  lemma StatesDataSnoc(features: seq<Feature>, f: Feature)
    ensures StatesData(features + [f]) == StatesData(features) + (if f.id in AllowedStates then [Shape(f)] else [])
  {
    StatesDataAppend(features, [f]);
    assert StatesData([f]) == (if f.id in AllowedStates then [Shape(f)] else []) + StatesData([f][1..]);
  }

  /** The default colour is never used: every allowed state has its own. */
  lemma AllowedColored(features: seq<Feature>)
    ensures forall s :: s in StatesData(features) ==> s.id in AllowedStates && s.color == StateColors[s.id] && s.color != StateColors["default"]
  {
  }

  /** `statesData.find(state => state.id === id)` */
  function Find(states: seq<StateShape>, id: string): (r: Option<StateShape>)
    ensures r.None? <==> forall i :: 0 <= i < |states| ==> states[i].id != id
    ensures r.Some? ==> exists i :: 0 <= i < |states| && states[i] == r.value && r.value.id == id &&
                          forall j :: 0 <= j < i ==> states[j].id != id
  {
    if |states| == 0 then None
    else if states[0].id == id then Some(states[0])
    else
      var r := Find(states[1..], id);
      assert forall i :: 1 <= i < |states| ==> states[i] == states[1..][i - 1];
      match r
      case None => None
      case Some(s) =>
        var k :| 0 <= k < |states[1..]| && states[1..][k] == s && s.id == id &&
                 forall j :: 0 <= j < k ==> states[1..][j].id != id;
        assert states[k + 1] == s;
        Some(s)
  }

  // ---------------------------------------------------------------------
  // Morphing

  /** The map's state: the loaded states (absent until the map data has
      loaded), the state drawn, the state a running morph is heading for, and
      the state whose description is shown. */
  datatype MapView = MapView(
    data: Option<seq<StateShape>>,
    current: Option<StateShape>,
    heading: Option<StateShape>,
    described: Option<string>)

  /** The map data arrives: the states are cut down and California is drawn. */
  function Loaded(features: seq<Feature>, v: MapView): (r: MapView)
    ensures Inv(r)
    ensures r.current == Find(StatesData(features), "CA") && r.heading.None?
  {
    var d := StatesData(features);
    match Find(d, "CA")
    case None => MapView(Some(d), None, None, v.described)
    case Some(s) => MapView(Some(d), Some(s), None, v.described)
  }

  /** `morphToState`: without a current state nothing happens. Otherwise a
      morph towards the target starts and replaces a running one, whose end
      then never comes. */
  function MorphToState(v: MapView, target: StateShape): (r: MapView)
    ensures v.current.None? ==> r == v
    ensures v.current.Some? ==> r == v.(heading := Some(target))
  {
    if v.current.None? then v else v.(heading := Some(target))
  }

  /** `morphToStateById`: nothing changes before the data has loaded or for
      an id that is not a loaded state. A known id starts a morph towards
      that state and shows its description, even when there is no current
      state to morph from. The current state itself never changes here. */
  function MorphToStateById(v: MapView, id: string): (r: MapView)
    ensures v.data.None? ==> r == v
    ensures v.data.Some? && Find(v.data.value, id).None? ==> r == v
    ensures r.current == v.current && r.data == v.data
    ensures v.data.Some? && Find(v.data.value, id).Some? ==>
      && r.described == Some(id)
      && (v.current.Some? ==> r.heading == Find(v.data.value, id))
      && (v.current.None? ==> r.heading == v.heading)
  {
    match v.data
    case None => v
    case Some(states) =>
      match Find(states, id)
      case None => v
      case Some(target) => MorphToState(v, target).(described := Some(id))
  }

  /** The running morph ends: its target becomes the current state. */
  function MorphEnd(v: MapView): (r: MapView)
    ensures v.heading.Some? ==> r.current == v.heading && r.heading.None?
    ensures v.heading.None? ==> r == v
    ensures r.data == v.data && r.described == v.described
  {
    match v.heading
    case None => v
    case Some(t) => v.(current := Some(t), heading := None)
  }

  /** Whatever is drawn or heading to be drawn is one of the loaded states. */
  predicate Inv(v: MapView) {
    && (v.current.Some? ==> v.data.Some? && v.current.value in v.data.value)
    && (v.heading.Some? ==> v.data.Some? && v.heading.value in v.data.value)
  }

  lemma FindIn(states: seq<StateShape>, id: string)
    requires Find(states, id).Some?
    ensures Find(states, id).value in states
  {
    var i :| 0 <= i < |states| && states[i] == Find(states, id).value && Find(states, id).value.id == id &&
             forall j :: 0 <= j < i ==> states[j].id != id;
  }

  /** Both steps keep the invariant. */
  lemma StepsKeepInv(v: MapView, id: string)
    requires Inv(v)
    ensures Inv(MorphToStateById(v, id)) && Inv(MorphEnd(v))
  {
    if v.data.Some? && Find(v.data.value, id).Some? {
      FindIn(v.data.value, id);
    }
  }

  /** Clicking a loaded state's button and letting the morph finish draws
      that state, provided some state was drawn before. */
  lemma MorphThenEnd(v: MapView, id: string)
    requires v.data.Some? && v.current.Some?
    requires exists i :: 0 <= i < |v.data.value| && v.data.value[i].id == id
    ensures var r := MorphEnd(MorphToStateById(v, id));
      && r.current.Some? && r.current.value.id == id && r.current.value in v.data.value
      && r.described == Some(id)
  {
    FindIn(v.data.value, id);
  }
}
