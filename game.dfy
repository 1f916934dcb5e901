/**
 The `Game` object of the Three Shapes game engine: the registry of active
 objects with its deferred additions and removals, the configuration flag for
 distances, the game-over flag, and the per-tick dispatch loops.

 Each entity is an `ObjId`. What the engine asks of an entity is passed in as a
 parameter: its position `xy`, its radius `radius`, and the answer its
 `nearby` callback gives. The calls the engine makes on entities are returned
 as sequences, in the order they are made.
 */
module ThreeShapesGame {
  import opened Lifecycle
  import opened Proximity
  import opened Edges

  /** The one configuration parameter the engine knows. */
  const AccountForRadiiParam: string := "account_for_radii_in_dist"

  class Game {
    const wid: real
    const hei: real
    var accountForRadiiInDist: bool
    var active: set<ObjId>
    var pendingRemoves: set<ObjId>
    var pendingAdds: set<ObjId>
    var gameOver: bool

    /** The registry the three object sets form. */
    ghost function State(): Registry
      reads this
    {
      Registry(active, pendingAdds, pendingRemoves)
    }

    ghost predicate Valid()
      reads this
    {
      Lifecycle.Valid(State())
    }

    /** The metric the nearby pass uses under the current configuration. */
    ghost function CurrentMetric(sqrt: real -> real, radius: ObjId -> real): Metric
      reads this
    {
      Metric(accountForRadiiInDist, sqrt, radius)
    }

    /** A new game: no objects, radii not subtracted, not over. */
    constructor (wid: real, hei: real)
      ensures this.wid == wid && this.hei == hei
      ensures State() == Empty() && Valid()
      ensures !accountForRadiiInDist && !gameOver
    {
      this.wid := wid;
      this.hei := hei;
      accountForRadiiInDist := false;
      active := {};
      pendingRemoves := {};
      pendingAdds := {};
      gameOver := false;
      EmptyValid();
    }

    /** Sets a configuration parameter. The only parameter is the radii flag;
        any other name is refused (ok is false) and nothing changes. */
    method ConfigSet(param: string, val: bool) returns (ok: bool)
      modifies this`accountForRadiiInDist
      ensures ok <==> param == AccountForRadiiParam
      ensures accountForRadiiInDist == if ok then val else old(accountForRadiiInDist)
    {
      if param == AccountForRadiiParam {
        accountForRadiiInDist := val;
        ok := true;
      } else {
        ok := false;
      }
    }

    method SetGameOver()
      modifies this`gameOver
      ensures gameOver
    {
      gameOver := true;
    }

    method IsOver() returns (over: bool)
      ensures over == gameOver
    {
      over := gameOver;
    }

    /** Stages an object for addition at the next reconciliation. */
    method AddObj(newObj: ObjId)
      requires Valid() && CanAdd(State(), newObj)
      modifies this`pendingAdds
      ensures State() == Add(old(State()), newObj) && Valid()
    {
      pendingAdds := pendingAdds + {newObj};
      AddSpec(old(State()), newObj);
    }

    /** Stages an active object for removal at the next reconciliation. */
    method RemoveObj(badObj: ObjId)
      requires Valid() && CanRemove(State(), badObj)
      modifies this`pendingRemoves
      ensures State() == Remove(old(State()), badObj) && Valid()
    {
      pendingRemoves := pendingRemoves + {badObj};
      RemoveSpec(old(State()), badObj);
    }

    /** Applies the staged removals, then the staged additions, and clears
        both staging sets. */
    method ExecuteAddsAndRemoves()
      modifies this`active, this`pendingAdds, this`pendingRemoves
      ensures State() == Reconcile(old(State())) && Valid()
    {
      active := active - pendingRemoves;
      pendingRemoves := {};
      active := active + pendingAdds;
      pendingAdds := {};
    }

    /** Takes a snapshot of every active object's position, in the set's
        iteration order. */
    method SnapshotPositions(xy: ObjId -> (real, real)) returns (positions: seq<Entry>)
      ensures Snapshot(positions, active, xy) && |positions| == |active|
    {
      positions := [];
      var rest := active;
      while rest != {}
        invariant rest <= active
        invariant Distinct(Objs(positions))
        invariant forall o :: o in active - rest <==> o in Objs(positions)
        invariant forall p :: 0 <= p < |positions| ==> (positions[p].x, positions[p].y) == xy(positions[p].obj)
        decreases |rest|
      {
        var o :| o in rest;
        var (x, y) := xy(o);
        assert Objs(positions + [Entry(o, x, y)]) == Objs(positions) + [o];
        EnumerateStep(Objs(positions), active, rest, o);
        positions := positions + [Entry(o, x, y)];
        rest := rest - {o};
      }
      SnapshotCard(positions, active, xy);
    }

    /** The two directed records of every unordered pair of snapshot indices,
        sorted by left index, then distance, then right index. */
    method SortedDistances(positions: seq<Entry>, sqrt: real -> real, radius: ObjId -> real)
      returns (distances: seq<Record>)
      ensures distances == SortedRecords(positions, CurrentMetric(sqrt, radius))
    {
      ghost var m := CurrentMetric(sqrt, radius);
      distances := [];
      var i := 0;
      while i < |positions|
        invariant i <= |positions|
        invariant distances == Rows(positions, m, i)
      {
        var j := i + 1;
        while j < |positions|
          invariant i + 1 <= j <= |positions|
          invariant distances == Rows(positions, m, i) + Row(positions, m, i, j)
        {
          var e1, e2 := positions[i], positions[j];
          var dist := sqrt(SquaredDistance(e1, e2));
          if accountForRadiiInDist {
            dist := dist - radius(e1.obj);
            dist := dist - radius(e2.obj);
          }
          assert dist == Dist(e1, e2, m);
          ghost var pair := [Record(i, dist, j), Record(j, dist, i)];
          assert Row(positions, m, i, j + 1) == Row(positions, m, i, j) + pair;
          assert distances + pair == Rows(positions, m, i) + (Row(positions, m, i, j) + pair);
          distances := distances + [Record(i, dist, j), Record(j, dist, i)];
          j := j + 1;
        }
        assert Rows(positions, m, i + 1) == Rows(positions, m, i) + Row(positions, m, i, |positions|);
        i := i + 1;
      }
      distances := SortRecords(distances);
    }

    /** The nearby pass. Every active object is snapshotted; then, for each
        snapshot index as left-hand object, the engine calls `nearby` with each
        other object and the distance to it, closest first, until a call
        answers false. The calls made are exactly the trace of the
        specification. */
    method DoNearbyCalls(xy: ObjId -> (real, real), sqrt: real -> real, radius: ObjId -> real,
                         nearby: (ObjId, ObjId, real) -> bool)
      returns (positions: seq<Entry>, calls: seq<Call>)
      ensures Snapshot(positions, active, xy) && |positions| == |active|
      ensures calls == Trace(positions, CurrentMetric(sqrt, radius), nearby)
    {
      positions := SnapshotPositions(xy);
      var distances := SortedDistances(positions, sqrt, radius);
      var n := |positions|;
      assert Layout(distances, n) && Grouped(distances, n) by {
        SortedRecordsLayout(positions, CurrentMetric(sqrt, radius));
      }
      calls := [];
      var i := 0;
      while i < n
        invariant i <= n
        invariant calls == Dispatch(positions, distances, nearby, i)
      {
        calls := WalkBlock(positions, distances, nearby, i, calls);
        DispatchStep(positions, distances, nearby, i + 1);
        i := i + 1;
      }
    }

    /** The inner loop of the nearby pass for left-hand index i: the slice of
        n - 1 records starting at (n - 1) * i, delivered in order until one
        call answers false. */
    method WalkBlock(positions: seq<Entry>, distances: seq<Record>, nearby: (ObjId, ObjId, real) -> bool,
                     i: nat, calls0: seq<Call>)
      returns (calls: seq<Call>)
      requires Layout(distances, |positions|) && Grouped(distances, |positions|) && i < |positions|
      ensures calls == calls0 + Delivered(CallsOf(positions, Block(distances, |positions|, i)), nearby)
    {
      var n := |positions|;
      BlockSlice(distances, n, i);
      var slice := distances[(n - 1) * i .. (n - 1) * (i + 1)];
      calls := WalkSlice(positions, slice, nearby, i, calls0);
    }

    /** Walks the records of one slice, all with left index i, making each
        one's `nearby` call in order and stopping after the first call that
        answers false. */
    method WalkSlice(positions: seq<Entry>, slice: seq<Record>, nearby: (ObjId, ObjId, real) -> bool,
                     i: nat, calls0: seq<Call>)
      returns (calls: seq<Call>)
      requires i < |positions|
      requires forall r :: r in slice ==> r.left == i && r.left < |positions| && r.right < |positions|
      ensures calls == calls0 + Delivered(CallsOf(positions, slice), nearby)
    {
      ghost var cs := CallsOf(positions, slice);
      calls := calls0;
      var k := 0;
      while k < |slice|
        invariant k <= |slice|
        invariant forall q :: 0 <= q < k ==> Answers(nearby, cs[q])
        invariant calls == calls0 + cs[..k]
      {
        var entry := slice[k];
        WalkEntry(positions, slice, i, k);
        var left := positions[entry.left].obj;
        var right := positions[entry.right].obj;
        calls := calls + [Call(left, right, entry.dist)];
        if !nearby(left, right, entry.dist) {
          DeliveredStop(cs, nearby, k);
          return;
        }
        k := k + 1;
      }
      DeliveredAll(cs, nearby);
      assert cs[..k] == cs;
    }

    /** The move pass: `move` is called once on every active object. */
    method DoMoveCalls() returns (moved: seq<ObjId>)
      ensures Enumerates(moved, active) && |moved| == |active|
    {
      moved := [];
      var rest := active;
      while rest != {}
        invariant rest <= active
        invariant Distinct(moved)
        invariant forall o :: o in active - rest <==> o in moved
        decreases |rest|
      {
        var o :| o in rest;
        EnumerateStep(moved, active, rest, o);
        moved := moved + [o];
        rest := rest - {o};
      }
      EnumeratesCard(moved, active);
    }

    /** The edge pass: every active object is visited once, and receives an
        `edge` call for each side of the window it touches. */
    method DoEdgeCalls(xy: ObjId -> (real, real), radius: ObjId -> real)
      returns (visited: seq<ObjId>, calls: seq<EdgeCall>)
      ensures Enumerates(visited, active) && |visited| == |active|
      ensures calls == EdgeTrace(visited, xy, radius, wid, hei)
    {
      visited := [];
      calls := [];
      var rest := active;
      while rest != {}
        invariant rest <= active
        invariant Distinct(visited)
        invariant forall o :: o in active - rest <==> o in visited
        invariant calls == EdgeTrace(visited, xy, radius, wid, hei)
        decreases |rest|
      {
        var o :| o in rest;
        var (x, y) := xy(o);
        var rad := radius(o);
        var touched := EdgeTests(o, x, y, rad);
        calls := calls + touched;
        EdgeTraceStep(visited, o, xy, radius, wid, hei);
        EnumerateStep(visited, active, rest, o);
        visited := visited + [o];
        rest := rest - {o};
      }
      EnumeratesCard(visited, active);
    }

    /** The four threshold tests of the edge pass for one object at (x, y)
        with radius rad, in the order they run. */
    method EdgeTests(o: ObjId, x: real, y: real, rad: real) returns (touched: seq<EdgeCall>)
      ensures touched == EdgeCallsFor(o, x, y, rad, wid, hei)
    {
      touched := [];
      if x < rad {
        touched := touched + [EdgeCall(o, Left, 0.0)];
      }
      if y < rad {
        touched := touched + [EdgeCall(o, Top, 0.0)];
      }
      if x + rad >= wid {
        touched := touched + [EdgeCall(o, Right, wid)];
      }
      if y + rad >= hei {
        touched := touched + [EdgeCall(o, Bottom, hei)];
      }
    }

    /** The start of a frame: staged changes are applied; then, if the window
        has been closed, the game becomes over and nothing is drawn, and
        otherwise every active object is drawn once. */
    method Draw(isKilled: bool) returns (drawn: seq<ObjId>)
      modifies this`active, this`pendingAdds, this`pendingRemoves, this`gameOver
      ensures State() == Reconcile(old(State())) && Valid()
      ensures gameOver == (old(gameOver) || isKilled)
      ensures isKilled ==> drawn == []
      ensures !isKilled ==> Enumerates(drawn, active) && |drawn| == |active|
    {
      ExecuteAddsAndRemoves();
      drawn := [];
      if isKilled {
        gameOver := true;
        return;
      }
      label reconciled:
      var rest := active;
      while rest != {}
        invariant rest <= active
        invariant unchanged@reconciled(this)
        invariant Distinct(drawn)
        invariant forall o :: o in active - rest <==> o in drawn
        decreases |rest|
      {
        var o :| o in rest;
        EnumerateStep(drawn, active, rest, o);
        drawn := drawn + [o];
        rest := rest - {o};
      }
      EnumeratesCard(drawn, active);
    }
  }
}
