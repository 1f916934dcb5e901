/**
 The deferred lifecycle registry of the Three Shapes game engine, as values.

 The engine keeps three sets of objects: the active set, which every phase of a
 tick iterates over, and two staging sets of pending additions and removals.
 Requests only touch the staging sets; the active set changes only when the
 staging sets are reconciled, at the top of `draw`.
 */
module Lifecycle {

  /** Object identity. The source compares entities by reference; here each
      entity is known by a number and nothing else about it is needed. */
  type ObjId = nat

  /** No element occurs twice. */
  predicate Distinct<T(==)>(s: seq<T>)
  {
    forall p, q :: 0 <= p < q < |s| ==> s[p] != s[q]
  }

  /** s lists the members of objs, each exactly once: one pass of a `for`
      loop over a set, in the set's unspecified iteration order. */
  ghost predicate Enumerates(s: seq<ObjId>, objs: set<ObjId>)
  {
    Distinct(s) && forall o :: o in objs <==> o in s
  }

  /** One step of a pass over objs: taking any o out of the objects not yet
      visited and appending it to the visited ones keeps the pass exact. */
  lemma {:induction false} EnumerateStep(s: seq<ObjId>, objs: set<ObjId>, rest: set<ObjId>, o: ObjId)
    requires rest <= objs && o in rest && Distinct(s)
    requires forall x :: x in objs - rest <==> x in s
    ensures Distinct(s + [o])
    ensures forall x :: x in objs - (rest - {o}) <==> x in s + [o]
  {
  }

  /** A pass over objs visits exactly |objs| objects. */
  lemma {:induction false} EnumeratesCard(s: seq<ObjId>, objs: set<ObjId>)
    requires Enumerates(s, objs)
    ensures |s| == |objs|
  {
    if s != [] {
      var last := s[|s| - 1];
      var init := s[..|s| - 1];
      assert s == init + [last];
      forall x ensures x in objs - {last} <==> x in init {
        if x in init {
          var p :| 0 <= p < |init| && init[p] == x;
          assert s[p] == x && p < |s| - 1;
        }
      }
      EnumeratesCard(init, objs - {last});
    }
  }

  datatype Registry = Registry(active: set<ObjId>, pendingAdds: set<ObjId>, pendingRemoves: set<ObjId>)

  /** The invariant every reachable registry keeps: a pending removal is of an
      active object, and a pending addition is of an object not yet active. */
  predicate Valid(r: Registry)
  {
    r.pendingRemoves <= r.active && r.pendingAdds !! r.active
  }

  /** The registry of a freshly constructed game. */
  function Empty(): Registry
  {
    Registry({}, {}, {})
  }

  /** What `add_obj` asserts of its argument. */
  predicate CanAdd(r: Registry, x: ObjId)
  {
    x !in r.active && x !in r.pendingAdds
  }

  /** What `remove_obj` asserts of its argument. */
  predicate CanRemove(r: Registry, x: ObjId)
  {
    x in r.active
  }

  /** `add_obj`: stage x for activation. */
  function Add(r: Registry, x: ObjId): Registry
    requires CanAdd(r, x)
  {
    r.(pendingAdds := r.pendingAdds + {x})
  }

  /** `remove_obj`: stage x for deactivation. */
  function Remove(r: Registry, x: ObjId): Registry
    requires CanRemove(r, x)
  {
    r.(pendingRemoves := r.pendingRemoves + {x})
  }

  /** `_execute_adds_and_removes`: removals first, then additions, then both
      staging sets are emptied. */
  function Reconcile(r: Registry): Registry
  {
    Registry((r.active - r.pendingRemoves) + r.pendingAdds, {}, {})
  }

  lemma {:induction false} EmptyValid()
    ensures Valid(Empty())
    ensures Empty().active == {} && Empty().pendingAdds == {} && Empty().pendingRemoves == {}
  {
  }

  /** Adding changes only the pending additions, by exactly x, and keeps the invariant. */
  lemma {:induction false} AddSpec(r: Registry, x: ObjId)
    requires Valid(r) && CanAdd(r, x)
    ensures Valid(Add(r, x))
    ensures Add(r, x).pendingAdds == r.pendingAdds + {x} && x !in r.pendingAdds
    ensures Add(r, x).active == r.active && Add(r, x).pendingRemoves == r.pendingRemoves
  {
  }

  /** Removing changes only the pending removals and keeps the invariant. */
  lemma {:induction false} RemoveSpec(r: Registry, x: ObjId)
    requires Valid(r) && CanRemove(r, x)
    ensures Valid(Remove(r, x))
    ensures Remove(r, x).pendingRemoves == r.pendingRemoves + {x}
    ensures Remove(r, x).active == r.active && Remove(r, x).pendingAdds == r.pendingAdds
  {
  }

  /** Requesting the removal of an object twice in one tick is the same as once. */
  lemma {:induction false} RemoveIdempotent(r: Registry, x: ObjId)
    requires CanRemove(r, x)
    ensures CanRemove(Remove(r, x), x)
    ensures Remove(Remove(r, x), x) == Remove(r, x)
    ensures x in r.pendingRemoves ==> Remove(r, x) == r
  {
  }

  /** In a valid registry no object is both pending addition and pending removal. */
  lemma {:induction false} PendingDisjoint(r: Registry)
    requires Valid(r)
    ensures r.pendingAdds !! r.pendingRemoves
  {
  }

  /** An object just staged for addition is not active, so removing it in the
      same tick is refused. */
  lemma {:induction false} AddThenRemoveRejected(r: Registry, x: ObjId)
    requires CanAdd(r, x)
    ensures !CanRemove(Add(r, x), x)
  {
  }

  /** Requests made in one tick commute: the order of an addition and a removal
      does not matter to the registry. */
  lemma {:induction false} RequestsCommute(r: Registry, x: ObjId, y: ObjId)
    requires CanAdd(r, x) && CanRemove(r, y)
    ensures CanRemove(Add(r, x), y) && CanAdd(Remove(r, y), x)
    ensures Remove(Add(r, x), y) == Add(Remove(r, y), x)
  {
  }

  /** Membership after reconciliation: an object is active afterwards exactly
      when it was pending addition, or active and not pending removal. Both
      staging sets are empty, and the result satisfies the invariant. */
  lemma {:induction false} ReconcileSpec(r: Registry, x: ObjId)
    ensures x in Reconcile(r).active <==> x in r.pendingAdds || (x in r.active && x !in r.pendingRemoves)
    ensures Reconcile(r).pendingAdds == {} && Reconcile(r).pendingRemoves == {}
    ensures Valid(Reconcile(r))
  {
  }

  /** Reconciling twice is the same as reconciling once. */
  lemma {:induction false} ReconcileIdempotent(r: Registry)
    ensures Reconcile(Reconcile(r)) == Reconcile(r)
  {
  }

  /** From a valid registry, the active set loses exactly the pending removals
      and gains exactly the pending additions, none of which were active. */
  lemma {:induction false} ReconcileSize(r: Registry)
    requires Valid(r)
    ensures |Reconcile(r).active| == |r.active| - |r.pendingRemoves| + |r.pendingAdds|
  {
    var kept := r.active - r.pendingRemoves;
    assert r.active == kept + r.pendingRemoves;
    assert kept !! r.pendingRemoves;
    assert |r.active| == |kept| + |r.pendingRemoves|;
    assert kept !! r.pendingAdds;
  }
}
