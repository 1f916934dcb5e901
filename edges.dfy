/**
 Edge detection of the Three Shapes game engine (`do_edge_calls`): for every
 active object, four independent threshold tests against the sides of the
 window, each of which raises one `edge(side, coordinate)` call.
 */
module Edges {
  import opened Lifecycle

  datatype Side = Left | Top | Right | Bottom

  /** A delivered call `obj.edge(side, coord)`. */
  datatype EdgeCall = EdgeCall(obj: ObjId, side: Side, coord: real)

  /** Whether an object at (x, y) with radius rad touches or crosses the given
      side of a window of width wid and height hei. */
  predicate Touches(side: Side, x: real, y: real, rad: real, wid: real, hei: real)
  {
    match side
    case Left => x < rad
    case Top => y < rad
    case Right => x + rad >= wid
    case Bottom => y + rad >= hei
  }

  /** The fixed coordinate of a side: 0 for left and top, the width for
      right, the height for bottom. */
  function Coord(side: Side, wid: real, hei: real): real
  {
    match side
    case Left => 0.0
    case Top => 0.0
    case Right => wid
    case Bottom => hei
  }

  /** The order in which the four tests run. */
  function Rank(side: Side): nat
  {
    match side
    case Left => 0
    case Top => 1
    case Right => 2
    case Bottom => 3
  }

  /** The edge calls for one object, in the order the four tests run. */
  function EdgeCallsFor(o: ObjId, x: real, y: real, rad: real, wid: real, hei: real): seq<EdgeCall>
  {
    (if x < rad then [EdgeCall(o, Left, 0.0)] else [])
    + (if y < rad then [EdgeCall(o, Top, 0.0)] else [])
    + (if x + rad >= wid then [EdgeCall(o, Right, wid)] else [])
    + (if y + rad >= hei then [EdgeCall(o, Bottom, hei)] else [])
  }

  /** An object receives the call for a side, with that side's coordinate, if
      and only if it touches that side; the calls come in the order left, top,
      right, bottom, so each side at most once and a corner gives two calls. */
  lemma {:induction false} EdgeCallsForSpec(o: ObjId, x: real, y: real, rad: real, wid: real, hei: real)
    ensures var cs := EdgeCallsFor(o, x, y, rad, wid, hei);
            && (forall c :: c in cs <==> c.obj == o && Touches(c.side, x, y, rad, wid, hei) && c.coord == Coord(c.side, wid, hei))
            && (forall p, q :: 0 <= p < q < |cs| ==> Rank(cs[p].side) < Rank(cs[q].side))
  {
    var cs := EdgeCallsFor(o, x, y, rad, wid, hei);
    forall c ensures c in cs <==> c.obj == o && Touches(c.side, x, y, rad, wid, hei) && c.coord == Coord(c.side, wid, hei) {
      match c.side
      case Left =>
      case Top =>
      case Right =>
      case Bottom =>
    }
  }

  /** The edge calls for a sequence of objects, visited in that order, with
      the position and radius each reports. */
  function EdgeTrace(os: seq<ObjId>, xy: ObjId -> (real, real), radius: ObjId -> real, wid: real, hei: real): seq<EdgeCall>
  {
    if os == [] then []
    else
      var o := os[|os| - 1];
      EdgeTrace(os[..|os| - 1], xy, radius, wid, hei) + EdgeCallsFor(o, xy(o).0, xy(o).1, radius(o), wid, hei)
  }

  /** Visiting one more object appends exactly that object's edge calls. */
  lemma {:induction false} EdgeTraceStep(os: seq<ObjId>, o: ObjId, xy: ObjId -> (real, real), radius: ObjId -> real, wid: real, hei: real)
    ensures EdgeTrace(os + [o], xy, radius, wid, hei)
            == EdgeTrace(os, xy, radius, wid, hei) + EdgeCallsFor(o, xy(o).0, xy(o).1, radius(o), wid, hei)
  {
    assert (os + [o])[..|os|] == os;
  }

  /** Over a whole pass, an object o receives `edge(side, coord)` exactly when
      o was visited, touches that side, and coord is that side's coordinate. */
  lemma {:induction false} EdgeTraceSpec(os: seq<ObjId>, xy: ObjId -> (real, real), radius: ObjId -> real, wid: real, hei: real, c: EdgeCall)
    ensures c in EdgeTrace(os, xy, radius, wid, hei) <==>
              c.obj in os && Touches(c.side, xy(c.obj).0, xy(c.obj).1, radius(c.obj), wid, hei)
              && c.coord == Coord(c.side, wid, hei)
  {
    if os != [] {
      var o := os[|os| - 1];
      var init := os[..|os| - 1];
      EdgeTraceSpec(init, xy, radius, wid, hei, c);
      EdgeCallsForSpec(o, xy(o).0, xy(o).1, radius(o), wid, hei);
      assert os == init + [o];
      assert c.obj in os <==> c.obj in init || c.obj == o;
    }
  }

  /** The edge calls of cs made on object o, in order. */
  function CallsTo(cs: seq<EdgeCall>, o: ObjId): seq<EdgeCall>
  {
    if cs == [] then []
    else CallsTo(cs[..|cs| - 1], o) + (if cs[|cs| - 1].obj == o then [cs[|cs| - 1]] else [])
  }

  lemma {:induction false} CallsToConcat(a: seq<EdgeCall>, b: seq<EdgeCall>, o: ObjId)
    ensures CallsTo(a + b, o) == CallsTo(a, o) + CallsTo(b, o)
    decreases |b|
  {
    if b == [] {
      assert a + b == a;
    } else {
      var init := b[..|b| - 1];
      assert (a + b)[..|a + b| - 1] == a + init;
      CallsToConcat(a, init, o);
    }
  }

  /** The calls made for one object are all made on it. */
  lemma {:induction false} CallsToOwn(o: ObjId, p: ObjId, x: real, y: real, rad: real, wid: real, hei: real)
    ensures var cs := EdgeCallsFor(p, x, y, rad, wid, hei);
            CallsTo(cs, o) == if o == p then cs else []
  {
    var cs := EdgeCallsFor(p, x, y, rad, wid, hei);
    CallsToUniform(cs, o, p);
  }

  lemma {:induction false} CallsToUniform(cs: seq<EdgeCall>, o: ObjId, p: ObjId)
    requires forall q :: 0 <= q < |cs| ==> cs[q].obj == p
    ensures CallsTo(cs, o) == if o == p then cs else []
  {
    if cs != [] {
      var init := cs[..|cs| - 1];
      var last := cs[|cs| - 1];
      forall q | 0 <= q < |init| ensures init[q].obj == p {
        assert init[q] == cs[q];
      }
      CallsToUniform(init, o, p);
      assert CallsTo(cs, o) == CallsTo(init, o) + (if last.obj == o then [last] else []);
      if o == p {
        assert cs == init + [last];
      }
    }
  }

  /** Objects not visited receive no edge call. */
  lemma {:induction false} EdgeTraceUnvisited(os: seq<ObjId>, xy: ObjId -> (real, real), radius: ObjId -> real, wid: real, hei: real, o: ObjId)
    requires o !in os
    ensures CallsTo(EdgeTrace(os, xy, radius, wid, hei), o) == []
  {
    if os != [] {
      var last := os[|os| - 1];
      var init := os[..|os| - 1];
      assert os == init + [last];
      EdgeTraceUnvisited(init, xy, radius, wid, hei, o);
      CallsToConcat(EdgeTrace(init, xy, radius, wid, hei), EdgeCallsFor(last, xy(last).0, xy(last).1, radius(last), wid, hei), o);
      CallsToOwn(o, last, xy(last).0, xy(last).1, radius(last), wid, hei);
    }
  }

  /** In a pass that visits each object once, the edge calls an object
      receives are exactly those of its own four tests, in test order: one
      per side it touches, left, top, right, bottom. */
  lemma {:induction false} EdgeTraceForObject(os: seq<ObjId>, xy: ObjId -> (real, real), radius: ObjId -> real, wid: real, hei: real, o: ObjId)
    requires Distinct(os) && o in os
    ensures CallsTo(EdgeTrace(os, xy, radius, wid, hei), o) == EdgeCallsFor(o, xy(o).0, xy(o).1, radius(o), wid, hei)
  {
    var last := os[|os| - 1];
    var init := os[..|os| - 1];
    assert os == init + [last];
    var mine := EdgeCallsFor(last, xy(last).0, xy(last).1, radius(last), wid, hei);
    CallsToConcat(EdgeTrace(init, xy, radius, wid, hei), mine, o);
    CallsToOwn(o, last, xy(last).0, xy(last).1, radius(last), wid, hei);
    if o == last {
      assert o !in init by {
        forall p | 0 <= p < |init| ensures init[p] != o {
          assert init[p] == os[p] && last == os[|os| - 1];
        }
      }
      EdgeTraceUnvisited(init, xy, radius, wid, hei, o);
      assert [] + mine == mine;
    } else {
      assert o in init;
      assert Distinct(init) by {
        forall p, q | 0 <= p < q < |init| ensures init[p] != init[q] {
          assert init[p] == os[p] && init[q] == os[q];
        }
      }
      EdgeTraceForObject(init, xy, radius, wid, hei, o);
    }
  }
}
