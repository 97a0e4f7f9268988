/**
 The desktop client's map layer: which routes get a polyline and through
 which points, the line colour of each route type, and the icon shown for a
 route or vehicle type.

 Coordinates stay on the abstract plane; the affine conversion to map
 latitude/longitude is not modelled.
 */
module RouteMap {
  import Kinematics
  import opened Storage
  import opened Wrappers

  /** A route as the map receives it; `stopIds` is None when the field is
      missing or null. */
  datatype RouteView = RouteView(stopIds: Option<seq<int>>, kind: string)

  datatype StopView = StopView(id: int, pos: Point)

  datatype Polyline = Polyline(color: string, points: seq<Point>)

  const DefaultColor: string := "#3388ff"
  const TramColor: string := "#28a745"
  const TrolleybusColor: string := "#fd7e14"

  /** Line colour of a route type: tram green, trolleybus orange, anything
      else blue. */
  function ColorFor(kind: string): (c: string)
    ensures c == TramColor <==> kind == "tram"
    ensures c == TrolleybusColor <==> kind == "trolleybus"
    ensures c == DefaultColor <==> kind != "tram" && kind != "trolleybus"
  {
    if kind == "tram" then TramColor
    else if kind == "trolleybus" then TrolleybusColor
    else DefaultColor
  }

  /** Colour of each engine transport class. */
  function ClassColor(c: Kinematics.TransportClass): string
  {
    match c
    case Bus => DefaultColor
    case Tram => TramColor
    case Trolleybus => TrolleybusColor
  }

  /** The map colours a route exactly as the engine classifies its type:
      every type string the engine runs as a bus is drawn in the bus colour. */
  lemma ColorAgreesWithEngine(kind: string)
    ensures ColorFor(kind) == ClassColor(Kinematics.ClassOf(kind))
  {
  }

  /** Icon of a route or vehicle type: bus, tram, and the trolleybus icon for
      anything else. */
  function TypeIcon(kind: string): (s: string)
    ensures s == Kinematics.Icon(Kinematics.Bus) <==> kind == "bus"
    ensures s == Kinematics.Icon(Kinematics.Tram) <==> kind == "tram"
    ensures s == Kinematics.Icon(Kinematics.Trolleybus) <==> kind != "bus" && kind != "tram"
  {
    if kind == "bus" then Kinematics.Icon(Kinematics.Bus)
    else if kind == "tram" then Kinematics.Icon(Kinematics.Tram)
    else Kinematics.Icon(Kinematics.Trolleybus)
  }

  /** For the three known types the client's icon is the engine model's
      icon; for any other type string the engine runs the vehicle as a bus
      while the client shows the trolleybus icon. */
  lemma IconAgreesOnKnownTypes(kind: string)
    ensures Kinematics.IsKnownKind(kind) ==> TypeIcon(kind) == Kinematics.Icon(Kinematics.ClassOf(kind))
    ensures !Kinematics.IsKnownKind(kind) ==> TypeIcon(kind) != Kinematics.Icon(Kinematics.ClassOf(kind))
  {
  }

  /** The first stop with the given id, as `find` returns it. */
  function FindStop(stops: seq<StopView>, id: int): (r: Option<StopView>)
    ensures r.Some? <==> exists i :: 0 <= i < |stops| && stops[i].id == id
    ensures r.Some? ==> r.value.id == id && r.value in stops
    ensures r.Some? ==> exists i :: 0 <= i < |stops| && stops[i] == r.value
                          && forall j :: 0 <= j < i ==> stops[j].id != id
  {
    if |stops| == 0 then None
    else if stops[0].id == id then Some(stops[0])
    else
      var r := FindStop(stops[1..], id);
      assert forall i :: 0 <= i < |stops| - 1 ==> stops[1..][i] == stops[i + 1];
      r
  }

  predicate Known(stops: seq<StopView>, id: int)
  {
    exists i :: 0 <= i < |stops| && stops[i].id == id
  }

  /** The coordinates of the route's stops that are found, in route order;
      stops that are not found are skipped. */
  function Resolve(ids: seq<int>, stops: seq<StopView>): (pts: seq<Point>)
    ensures |pts| <= |ids|
    ensures (forall i :: 0 <= i < |ids| ==> Known(stops, ids[i])) ==> |pts| == |ids|
    ensures (forall i :: 0 <= i < |ids| ==> !Known(stops, ids[i])) ==> pts == []
    ensures forall k :: 0 <= k < |pts| ==> exists j :: 0 <= j < |stops| && stops[j].pos == pts[k]
  {
    if |ids| == 0 then []
    else
      var rest := Resolve(ids[1..], stops);
      match FindStop(stops, ids[0])
      case None => rest
      case Some(st) =>
        assert st in stops;
        [st.pos] + rest
  }

  /** Some stop with id `id` sits at `p`. */
  predicate StopAt(stops: seq<StopView>, id: int, p: Point)
  {
    exists j :: 0 <= j < |stops| && stops[j].id == id && stops[j].pos == p
  }

  /** A known id is found, at the position of a stop with that id. */
  lemma FoundStopAt(stops: seq<StopView>, id: int)
    requires Known(stops, id)
    ensures FindStop(stops, id).Some? && StopAt(stops, id, FindStop(stops, id).value.pos)
  {
  }

  /** When every id is known, the points correspond to the ids one to one:
      point i is the position of a stop whose id is ids[i]. */
  lemma {:induction false} ResolveAllKnown(ids: seq<int>, stops: seq<StopView>)
    requires forall i :: 0 <= i < |ids| ==> Known(stops, ids[i])
    ensures var pts := Resolve(ids, stops);
      && |pts| == |ids|
      && forall i :: 0 <= i < |ids| ==> StopAt(stops, ids[i], pts[i])
    decreases |ids|
  {
    if |ids| > 0 {
      ResolveAllKnown(ids[1..], stops);
      FoundStopAt(stops, ids[0]);
      var st := FindStop(stops, ids[0]).value;
      assert Resolve(ids, stops) == [st.pos] + Resolve(ids[1..], stops);
      ConsStopAt(stops, ids, st.pos, Resolve(ids[1..], stops));
    }
  }

  /** Pointwise correspondence extends to a list with one more leading id. */
  lemma ConsStopAt(stops: seq<StopView>, ids: seq<int>, p: Point, rest: seq<Point>)
    requires |ids| > 0 && |rest| == |ids| - 1
    requires StopAt(stops, ids[0], p)
    requires forall i :: 0 <= i < |rest| ==> StopAt(stops, ids[1..][i], rest[i])
    ensures forall i :: 0 <= i < |ids| ==> StopAt(stops, ids[i], ([p] + rest)[i])
  {
    forall i | 0 < i < |ids|
      ensures StopAt(stops, ids[i], ([p] + rest)[i])
    {
      assert ids[1..][i - 1] == ids[i] && ([p] + rest)[i] == rest[i - 1];
    }
  }

  /** Resolving a concatenation of id lists resolves each part in turn, so
      the points keep the order of their ids. */
  lemma {:induction false} ResolveAppend(a: seq<int>, b: seq<int>, stops: seq<StopView>)
    ensures Resolve(a + b, stops) == Resolve(a, stops) + Resolve(b, stops)
    decreases |a|
  {
    if |a| == 0 {
      assert a + b == b;
    } else {
      assert (a + b)[0] == a[0];
      assert (a + b)[1..] == a[1..] + b;
      ResolveAppend(a[1..], b, stops);
    }
  }

  /** A single id resolves to the position of the first stop with that id,
      or to nothing when no stop has it. */
  lemma ResolveOne(id: int, stops: seq<StopView>)
    ensures FindStop(stops, id).None? ==> Resolve([id], stops) == []
    ensures FindStop(stops, id).Some? ==> Resolve([id], stops) == [FindStop(stops, id).value.pos]
  {
    assert [id][1..] == [];
  }

  /** Whether a route gets a line: it has a stop list of at least two ids and
      at least two of them are found. */
  predicate Drawn(rt: RouteView, stops: seq<StopView>)
  {
    rt.stopIds.Some? && |rt.stopIds.value| >= 2 && |Resolve(rt.stopIds.value, stops)| >= 2
  }

  /** drawRoutes: one polyline per drawn route, in route order, in the route
      type's colour through the resolved points. */
  function DrawRoutes(routes: seq<RouteView>, stops: seq<StopView>): (lines: seq<Polyline>)
    ensures |lines| <= |routes|
    ensures forall k :: 0 <= k < |lines| ==> |lines[k].points| >= 2
    ensures forall k :: 0 <= k < |lines| ==>
              lines[k].color in {DefaultColor, TramColor, TrolleybusColor}
    ensures (forall i :: 0 <= i < |routes| ==> !Drawn(routes[i], stops)) ==> lines == []
  {
    if |routes| == 0 then []
    else
      var rt := routes[0];
      var rest := DrawRoutes(routes[1..], stops);
      if rt.stopIds.None? || |rt.stopIds.value| < 2 then rest
      else
        var pts := Resolve(rt.stopIds.value, stops);
        if |pts| > 1 then [Polyline(ColorFor(rt.kind), pts)] + rest else rest
  }

  /** Drawing a concatenation of route lists draws each part in turn, so the
      lines keep the order of their routes. */
  lemma {:induction false} DrawRoutesAppend(a: seq<RouteView>, b: seq<RouteView>, stops: seq<StopView>)
    ensures DrawRoutes(a + b, stops) == DrawRoutes(a, stops) + DrawRoutes(b, stops)
    decreases |a|
  {
    if |a| == 0 {
      assert a + b == b;
    } else {
      assert (a + b)[0] == a[0];
      assert (a + b)[1..] == a[1..] + b;
      DrawRoutesAppend(a[1..], b, stops);
    }
  }

  /** A single route is drawn exactly when it passes the filter, and then as
      one line in its type's colour through its resolved stops. */
  lemma DrawOne(rt: RouteView, stops: seq<StopView>)
    ensures Drawn(rt, stops) ==>
              DrawRoutes([rt], stops) == [Polyline(ColorFor(rt.kind), Resolve(rt.stopIds.value, stops))]
    ensures !Drawn(rt, stops) ==> DrawRoutes([rt], stops) == []
  {
    assert [rt][1..] == [];
  }

  /** A route whose stops are all found and that has at least two of them is
      drawn through every one of its stops. */
  lemma FullyResolvedRouteDrawn(rt: RouteView, stops: seq<StopView>)
    requires rt.stopIds.Some? && |rt.stopIds.value| >= 2
    requires forall i :: 0 <= i < |rt.stopIds.value| ==> Known(stops, rt.stopIds.value[i])
    ensures Drawn(rt, stops)
    ensures var pts := Resolve(rt.stopIds.value, stops);
      && DrawRoutes([rt], stops) == [Polyline(ColorFor(rt.kind), pts)]
      && |pts| == |rt.stopIds.value|
      && forall i :: 0 <= i < |pts| ==> StopAt(stops, rt.stopIds.value[i], pts[i])
  {
    ResolveAllKnown(rt.stopIds.value, stops);
    assert Drawn(rt, stops);
    DrawOne(rt, stops);
  }
}
