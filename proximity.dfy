/**
 The proximity dispatch protocol of the Three Shapes game engine
 (`do_nearby_calls`), as specification functions and the lemmas that state
 what the protocol guarantees.

 The active objects are snapshotted into an indexed list of entries. For each
 pair of indices i < j one distance is computed and two directed records
 (i, dist, j) and (j, dist, i) are emitted. The records are sorted
 lexicographically, which puts all records of left index i into the block
 [(n-1)*i, (n-1)*(i+1)) ordered by distance and then by right index. Each
 block is walked in order, and a `nearby` answer of false ends that block.
 */
module Proximity {
  import opened Lifecycle

  /** One entry of the snapshot: an object and the position it reported. */
  datatype Entry = Entry(obj: ObjId, x: real, y: real)

  /** How a distance is computed: whether both radii are subtracted (the
      `account_for_radii_in_dist` setting), the square root the source takes
      from `math.sqrt`, and the radius each object reports. */
  datatype Metric = Metric(accountForRadii: bool, sqrt: real -> real, radius: ObjId -> real)

  /** A directed distance record: indices into the snapshot and the distance. */
  datatype Record = Record(left: nat, dist: real, right: nat)

  /** A delivered `nearby` call: `left.nearby(right, dist, game)`. */
  datatype Call = Call(left: ObjId, right: ObjId, dist: real)

  /** The objects of a snapshot, in snapshot order. */
  function Objs(ps: seq<Entry>): seq<ObjId>
  {
    seq(|ps|, p requires 0 <= p < |ps| => ps[p].obj)
  }

  /** ps enumerates the set objs, each object once, with the position `xy`
      reports for it. */
  ghost predicate Snapshot(ps: seq<Entry>, objs: set<ObjId>, xy: ObjId -> (real, real))
  {
    && Distinct(Objs(ps))
    && (forall o :: o in objs <==> o in Objs(ps))
    && (forall p :: 0 <= p < |ps| ==> (ps[p].x, ps[p].y) == xy(ps[p].obj))
  }

  /** A snapshot of objs has one entry per object. */
  lemma {:induction false} SnapshotCard(ps: seq<Entry>, objs: set<ObjId>, xy: ObjId -> (real, real))
    requires Snapshot(ps, objs, xy)
    ensures |ps| == |objs|
  {
    EnumeratesCard(Objs(ps), objs);
  }

  // ---------------------------------------------------------------------------
  // Distances
  // ---------------------------------------------------------------------------

  /** The square of the Euclidean distance between two entries. */
  function SquaredDistance(a: Entry, b: Entry): real
  {
    (a.x - b.x) * (a.x - b.x) + (a.y - b.y) * (a.y - b.y)
  }

  /** The distance the source computes for the pair (a, b): the Euclidean
      distance, minus both radii when the setting asks for it (not clamped). */
  function Dist(a: Entry, b: Entry, m: Metric): real
  {
    var d := m.sqrt(SquaredDistance(a, b));
    if m.accountForRadii then d - m.radius(a.obj) - m.radius(b.obj) else d
  }

  /** The distance does not depend on the order of the pair. */
  lemma {:induction false} DistSymmetric(a: Entry, b: Entry, m: Metric)
    ensures Dist(a, b, m) == Dist(b, a, m)
  {
    assert (a.x - b.x) * (a.x - b.x) == (b.x - a.x) * (b.x - a.x);
    assert (a.y - b.y) * (a.y - b.y) == (b.y - a.y) * (b.y - a.y);
    assert SquaredDistance(a, b) == SquaredDistance(b, a);
  }

  /** With the radii setting on, both radii are subtracted from the plain
      distance, and the result is not clamped. */
  lemma {:induction false} DistWithRadii(a: Entry, b: Entry, m: Metric)
    requires m.accountForRadii
    ensures Dist(a, b, m) == Dist(a, b, m.(accountForRadii := false)) - m.radius(a.obj) - m.radius(b.obj)
  {
  }

  /** Two overlapping objects get a negative distance: when they sit at the
      same point and have positive radii, and the square root of zero is
      zero, the radii setting gives a distance below zero. */
  lemma {:induction false} DistOverlapNegative(a: Entry, b: Entry, m: Metric)
    requires m.accountForRadii && m.sqrt(0.0) == 0.0
    requires a.x == b.x && a.y == b.y
    requires m.radius(a.obj) > 0.0 && m.radius(b.obj) > 0.0
    ensures Dist(a, b, m) < 0.0
  {
    assert SquaredDistance(a, b) == 0.0;
  }

  // ---------------------------------------------------------------------------
  // Building the records, in the order the nested loops append them
  // ---------------------------------------------------------------------------

  /** The records the inner loop appends for outer index i and inner indices
      i+1 .. j-1. */
  function Row(ps: seq<Entry>, m: Metric, i: nat, j: nat): seq<Record>
    requires i < j <= |ps|
    decreases j
  {
    if j == i + 1 then []
    else
      var d := Dist(ps[i], ps[j - 1], m);
      Row(ps, m, i, j - 1) + [Record(i, d, j - 1), Record(j - 1, d, i)]
  }

  /** The records appended for outer indices 0 .. i-1. */
  function Rows(ps: seq<Entry>, m: Metric, i: nat): seq<Record>
    requires i <= |ps|
  {
    if i == 0 then [] else Rows(ps, m, i - 1) + Row(ps, m, i - 1, |ps|)
  }

  /** All records, before sorting. */
  function PairRecords(ps: seq<Entry>, m: Metric): seq<Record>
  {
    Rows(ps, m, |ps|)
  }

  lemma {:induction false} RowMember(ps: seq<Entry>, m: Metric, i: nat, j: nat, r: Record)
    requires i < j <= |ps|
    ensures r in Row(ps, m, i, j) <==>
              ((r.left == i && i < r.right < j) || (r.right == i && i < r.left < j))
              && r.dist == Dist(ps[r.left], ps[r.right], m)
    decreases j
  {
    if j > i + 1 {
      RowMember(ps, m, i, j - 1, r);
      DistSymmetric(ps[i], ps[j - 1], m);
    }
  }

  /** The records for outer indices 0 .. i-1 are the pairs of distinct
      snapshot indices, one of them below i, carrying that pair's distance. */
  lemma {:induction false} RowsMember(ps: seq<Entry>, m: Metric, i: nat, r: Record)
    requires i <= |ps|
    ensures r in Rows(ps, m, i) <==>
              r.left < |ps| && r.right < |ps| && r.left != r.right && (r.left < i || r.right < i)
              && r.dist == Dist(ps[r.left], ps[r.right], m)
  {
    if r in Rows(ps, m, i) {
      RowsOnlyPairs(ps, m, i, r);
    }
    if r.left < |ps| && r.right < |ps| && r.left != r.right && (r.left < i || r.right < i)
       && r.dist == Dist(ps[r.left], ps[r.right], m) {
      RowsAllPairs(ps, m, i, r);
    }
  }

  lemma {:induction false} RowsOnlyPairs(ps: seq<Entry>, m: Metric, i: nat, r: Record)
    requires i <= |ps| && r in Rows(ps, m, i)
    ensures r.left < |ps| && r.right < |ps| && r.left != r.right && (r.left < i || r.right < i)
            && r.dist == Dist(ps[r.left], ps[r.right], m)
  {
    var before, row := Rows(ps, m, i - 1), Row(ps, m, i - 1, |ps|);
    assert Rows(ps, m, i) == before + row;
    if r in before {
      RowsOnlyPairs(ps, m, i - 1, r);
    } else {
      assert r in row;
      RowMember(ps, m, i - 1, |ps|, r);
    }
  }

  lemma {:induction false} RowsAllPairs(ps: seq<Entry>, m: Metric, i: nat, r: Record)
    requires i <= |ps|
    requires r.left < |ps| && r.right < |ps| && r.left != r.right && (r.left < i || r.right < i)
    requires r.dist == Dist(ps[r.left], ps[r.right], m)
    ensures r in Rows(ps, m, i)
  {
    var before, row := Rows(ps, m, i - 1), Row(ps, m, i - 1, |ps|);
    assert Rows(ps, m, i) == before + row;
    if r.left < i - 1 || r.right < i - 1 {
      RowsAllPairs(ps, m, i - 1, r);
    } else {
      RowMember(ps, m, i - 1, |ps|, r);
    }
  }

  /** Every record is a pair of distinct snapshot indices carrying that pair's
      distance, and every ordered pair of distinct indices has its record: for
      i < j both (i, d, j) and (j, d, i), with the same d. */
  lemma {:induction false} PairRecordsMember(ps: seq<Entry>, m: Metric, r: Record)
    ensures r in PairRecords(ps, m) <==>
              r.left < |ps| && r.right < |ps| && r.left != r.right
              && r.dist == Dist(ps[r.left], ps[r.right], m)
  {
    RowsMember(ps, m, |ps|, r);
  }

  /** Both directions of each pair are present with one and the same distance. */
  lemma {:induction false} PairRecordsBothDirections(ps: seq<Entry>, m: Metric, i: nat, j: nat)
    requires i < j < |ps|
    ensures var d := Dist(ps[i], ps[j], m);
            Record(i, d, j) in PairRecords(ps, m) && Record(j, d, i) in PairRecords(ps, m)
  {
    var d := Dist(ps[i], ps[j], m);
    PairRecordsMember(ps, m, Record(i, d, j));
    PairRecordsMember(ps, m, Record(j, d, i));
    DistSymmetric(ps[i], ps[j], m);
  }

  lemma {:induction false} DistinctConcat<T>(a: seq<T>, b: seq<T>)
    requires Distinct(a) && Distinct(b)
    requires forall x :: x in a ==> x !in b
    ensures Distinct(a + b)
  {
    forall p, q | 0 <= p < q < |a + b|
      ensures (a + b)[p] != (a + b)[q]
    {
      if q >= |a| && p < |a| {
        assert (a + b)[p] in a;
        assert (a + b)[q] == b[q - |a|];
      }
    }
  }

  /** DistinctConcat, stated for a sequence c known to be a + b, so that a
      caller need not rewrite c itself. */
  lemma {:induction false} DistinctJoin<T>(a: seq<T>, b: seq<T>, c: seq<T>)
    requires Distinct(a) && Distinct(b) && c == a + b
    requires forall x :: x in a ==> x !in b
    ensures Distinct(c)
  {
    DistinctConcat(a, b);
  }

  lemma {:induction false} RowDistinct(ps: seq<Entry>, m: Metric, i: nat, j: nat)
    requires i < j <= |ps|
    ensures Distinct(Row(ps, m, i, j))
    decreases j
  {
    if j > i + 1 {
      RowDistinct(ps, m, i, j - 1);
      var d := Dist(ps[i], ps[j - 1], m);
      var row := Row(ps, m, i, j - 1);
      forall r | r in row
        ensures r !in [Record(i, d, j - 1), Record(j - 1, d, i)]
      {
        RowMember(ps, m, i, j - 1, r);
      }
      DistinctConcat(row, [Record(i, d, j - 1), Record(j - 1, d, i)]);
    }
  }

  /** The records of outer indices below i are not among those of i. */
  lemma {:induction false} RowsRowDisjoint(ps: seq<Entry>, m: Metric, i: nat)
    requires i < |ps|
    ensures forall r :: r in Rows(ps, m, i) ==> r !in Row(ps, m, i, |ps|)
  {
    forall r | r in Rows(ps, m, i)
      ensures r !in Row(ps, m, i, |ps|)
    {
      RowsOnlyPairs(ps, m, i, r);
      RowMember(ps, m, i, |ps|, r);
    }
  }

  lemma {:induction false} RowsDistinct(ps: seq<Entry>, m: Metric, i: nat)
    requires i <= |ps|
    ensures Distinct(Rows(ps, m, i))
  {
    if i > 0 {
      var before := Rows(ps, m, i - 1);
      var row := Row(ps, m, i - 1, |ps|);
      RowsDistinct(ps, m, i - 1);
      RowDistinct(ps, m, i - 1, |ps|);
      RowsRowDisjoint(ps, m, i - 1);
      DistinctJoin(before, row, Rows(ps, m, i));
    }
  }

  // ---------------------------------------------------------------------------
  // Counting records by left index
  // ---------------------------------------------------------------------------

  /** The number of records whose left index is k. */
  function CountLeft(s: seq<Record>, k: nat): (c: nat)
    ensures c <= |s|
  {
    if s == [] then 0 else (if s[0].left == k then 1 else 0) + CountLeft(s[1..], k)
  }

  /** The number of records whose left index is below k. */
  function CountBelow(s: seq<Record>, k: nat): (c: nat)
    ensures c <= |s|
  {
    if s == [] then 0 else (if s[0].left < k then 1 else 0) + CountBelow(s[1..], k)
  }

  lemma {:induction false} CountConcat(a: seq<Record>, b: seq<Record>, k: nat)
    ensures CountLeft(a + b, k) == CountLeft(a, k) + CountLeft(b, k)
    ensures CountBelow(a + b, k) == CountBelow(a, k) + CountBelow(b, k)
  {
    if a == [] {
      assert a + b == b;
    } else {
      assert (a + b)[1..] == a[1..] + b;
      CountConcat(a[1..], b, k);
    }
  }

  lemma {:induction false} CountJoin(a: seq<Record>, b: seq<Record>, c: seq<Record>, k: nat)
    requires c == a + b
    ensures CountLeft(c, k) == CountLeft(a, k) + CountLeft(b, k)
  {
    CountConcat(a, b, k);
  }

  lemma {:induction false} RowCount(ps: seq<Entry>, m: Metric, i: nat, j: nat, k: nat)
    requires i < j <= |ps|
    ensures CountLeft(Row(ps, m, i, j), k) == (if k == i then j - i - 1 else 0) + (if i < k < j then 1 else 0)
    decreases j
  {
    if j > i + 1 {
      var d := Dist(ps[i], ps[j - 1], m);
      var pair := [Record(i, d, j - 1), Record(j - 1, d, i)];
      RowCount(ps, m, i, j - 1, k);
      CountConcat(Row(ps, m, i, j - 1), pair, k);
      assert pair[1..] == [Record(j - 1, d, i)];
      assert pair[1..][1..] == [];
    }
  }

  /** Outer indices below i have all n-1 of their records; every other index
      has one record per outer index below i, as a right-hand partner. */
  lemma {:induction false} RowsCount(ps: seq<Entry>, m: Metric, i: nat, k: nat)
    requires i <= |ps|
    ensures CountLeft(Rows(ps, m, i), k) == if k < i then |ps| - 1 else if k < |ps| then i else 0
  {
    if i > 0 {
      var before := Rows(ps, m, i - 1);
      var row := Row(ps, m, i - 1, |ps|);
      RowsCount(ps, m, i - 1, k);
      RowCount(ps, m, i - 1, |ps|, k);
      CountJoin(before, row, Rows(ps, m, i), k);
      RowsCountArith(|ps|, i, k, CountLeft(before, k), CountLeft(row, k));
    }
  }

  /** The arithmetic of one step of RowsCount. */
  lemma {:induction false} RowsCountArith(n: nat, i: nat, k: nat, a: int, b: int)
    requires 0 < i <= n
    requires a == if k < i - 1 then n - 1 else if k < n then i - 1 else 0
    requires b == (if k == i - 1 then n - i else 0) + (if i - 1 < k < n then 1 else 0)
    ensures a + b == if k < i then n - 1 else if k < n then i else 0
  {
  }

  /** Every snapshot index is the left index of exactly n-1 records. */
  lemma {:induction false} PairRecordsCount(ps: seq<Entry>, m: Metric, k: nat)
    ensures CountLeft(PairRecords(ps, m), k) == if k < |ps| then |ps| - 1 else 0
  {
    RowsCount(ps, m, |ps|, k);
  }

  lemma {:induction false} CountBelowStep(s: seq<Record>, k: nat)
    ensures CountBelow(s, k + 1) == CountBelow(s, k) + CountLeft(s, k)
  {
    if s != [] {
      CountBelowStep(s[1..], k);
    }
  }

  lemma {:induction false} CountBelowSum(s: seq<Record>, n: nat, k: nat)
    requires k <= n
    requires forall k' :: 0 <= k' < n ==> CountLeft(s, k') == n - 1
    ensures CountBelow(s, k) == Offset(n - 1, k)
  {
    if k == 0 {
      CountBelowZero(s);
    } else {
      CountBelowSum(s, n, k - 1);
      CountBelowStep(s, k - 1);
    }
  }

  lemma {:induction false} CountBelowZero(s: seq<Record>)
    ensures CountBelow(s, 0) == 0
  {
    if s != [] {
      CountBelowZero(s[1..]);
    }
  }

  lemma {:induction false} CountBelowAll(s: seq<Record>, k: nat)
    requires forall q :: 0 <= q < |s| ==> s[q].left < k
    ensures CountBelow(s, k) == |s|
  {
    if s != [] {
      CountBelowAll(s[1..], k);
    }
  }

  lemma {:induction false} CountBelowNone(s: seq<Record>, k: nat)
    requires forall q :: 0 <= q < |s| ==> s[q].left >= k
    ensures CountBelow(s, k) == 0
  {
    if s != [] {
      CountBelowNone(s[1..], k);
    }
  }

  // ---------------------------------------------------------------------------
  // Sorting
  // ---------------------------------------------------------------------------

  /** Python's ordering of the tuples (left, dist, right): lexicographic. */
  predicate Leq(a: Record, b: Record)
  {
    a.left < b.left
    || (a.left == b.left && (a.dist < b.dist || (a.dist == b.dist && a.right <= b.right)))
  }

  predicate Sorted(s: seq<Record>)
  {
    forall p, q :: 0 <= p < q < |s| ==> Leq(s[p], s[q])
  }

  function Insert(x: Record, s: seq<Record>): (r: seq<Record>)
    ensures multiset(r) == multiset(s) + multiset{x}
  {
    if s == [] || Leq(x, s[0]) then [x] + s
    else
      assert s == [s[0]] + s[1..];
      [s[0]] + Insert(x, s[1..])
  }

  /** The sort of `distances.sort()`, as an insertion sort on values. */
  function SortRecords(s: seq<Record>): (r: seq<Record>)
    ensures multiset(r) == multiset(s)
  {
    if s == [] then []
    else
      assert s == [s[0]] + s[1..];
      Insert(s[0], SortRecords(s[1..]))
  }

  lemma {:induction false} InsertSorted(x: Record, s: seq<Record>)
    requires Sorted(s)
    ensures Sorted(Insert(x, s))
  {
    if s != [] && !Leq(x, s[0]) {
      var t := Insert(x, s[1..]);
      InsertSorted(x, s[1..]);
      forall y | y in t
        ensures Leq(s[0], y)
      {
        assert y in multiset(t);
        if y != x {
          assert y in multiset(s[1..]);
          var q :| 0 <= q < |s[1..]| && s[1..][q] == y;
          assert s[q + 1] == y;
        }
      }
      var r := [s[0]] + t;
      forall p, q | 0 <= p < q < |r|
        ensures Leq(r[p], r[q])
      {
        if p == 0 {
          assert r[q] == t[q - 1];
          assert t[q - 1] in t;
        } else {
          assert r[p] == t[p - 1] && r[q] == t[q - 1];
        }
      }
    }
  }

  /** The sort's result is ordered and holds the same records. */
  lemma {:induction false} SortRecordsSorted(s: seq<Record>)
    ensures Sorted(SortRecords(s))
    ensures multiset(SortRecords(s)) == multiset(s) && |SortRecords(s)| == |s|
  {
    if s != [] {
      SortRecordsSorted(s[1..]);
      InsertSorted(s[0], SortRecords(s[1..]));
    }
    assert |multiset(SortRecords(s))| == |multiset(s)|;
  }

  lemma {:induction false} InsertCount(x: Record, s: seq<Record>, k: nat)
    ensures CountLeft(Insert(x, s), k) == CountLeft(s, k) + (if x.left == k then 1 else 0)
  {
    if s != [] && !Leq(x, s[0]) {
      InsertCount(x, s[1..], k);
      assert ([s[0]] + Insert(x, s[1..]))[1..] == Insert(x, s[1..]);
    } else {
      assert ([x] + s)[1..] == s;
    }
  }

  lemma {:induction false} SortRecordsCount(s: seq<Record>, k: nat)
    ensures CountLeft(SortRecords(s), k) == CountLeft(s, k)
  {
    if s != [] {
      SortRecordsCount(s[1..], k);
      InsertCount(s[0], SortRecords(s[1..]), k);
    }
  }

  lemma {:induction false} InsertDistinct(x: Record, s: seq<Record>)
    requires Distinct(s) && x !in s
    ensures Distinct(Insert(x, s))
  {
    if s == [] || Leq(x, s[0]) {
      DistinctConcat([x], s);
    } else {
      assert s == [s[0]] + s[1..];
      InsertDistinct(x, s[1..]);
      var t := Insert(x, s[1..]);
      assert s[0] !in multiset(t);
      DistinctConcat([s[0]], t);
    }
  }

  lemma {:induction false} SortRecordsDistinct(s: seq<Record>)
    requires Distinct(s)
    ensures Distinct(SortRecords(s))
  {
    if s != [] {
      assert Distinct(s[1..]);
      SortRecordsDistinct(s[1..]);
      assert s[0] !in multiset(s[1..]);
      InsertDistinct(s[0], SortRecords(s[1..]));
    }
  }

  lemma {:induction false} SortedFirstLeast(s: seq<Record>, j: nat)
    requires Sorted(s) && j < |s|
    ensures Leq(s[0], s[j])
  {
  }

  lemma {:induction false} SortedTail(s: seq<Record>)
    requires Sorted(s) && s != []
    ensures Sorted(s[1..])
  {
    forall p, q | 0 <= p < q < |s| - 1
      ensures Leq(s[1..][p], s[1..][q])
    {
      assert s[1..][p] == s[p + 1] && s[1..][q] == s[q + 1];
    }
  }

  lemma {:induction false} MultisetTail(s: seq<Record>)
    requires s != []
    ensures multiset(s[1..]) == multiset(s) - multiset{s[0]}
  {
    assert s == [s[0]] + s[1..];
  }

  /** Two orderings of the same records start with the same, least, record. */
  lemma {:induction false} SameHead(a: seq<Record>, b: seq<Record>)
    requires Sorted(a) && Sorted(b) && multiset(a) == multiset(b) && a != [] && b != []
    ensures a[0] == b[0]
  {
    assert a[0] in multiset(b) && b[0] in multiset(a);
    var i :| 0 <= i < |b| && b[i] == a[0];
    var j :| 0 <= j < |a| && a[j] == b[0];
    SortedFirstLeast(b, i);
    SortedFirstLeast(a, j);
  }

  /** Two orderings of the same records are equal: the lexicographic order is
      total and antisymmetric, so every sorting algorithm returns the same
      list that SortRecords does. */
  lemma {:induction false} SortedUnique(a: seq<Record>, b: seq<Record>)
    requires Sorted(a) && Sorted(b) && multiset(a) == multiset(b)
    ensures a == b
  {
    assert |a| == |multiset(a)| == |multiset(b)| == |b|;
    if a != [] {
      SortedSplit(a, b);
      SortedUnique(a[1..], b[1..]);
      SameCons(a, b);
    }
  }

  /** Two orderings of the same records agree on their heads, and their
      tails are again two orderings of the same records. */
  lemma {:induction false} SortedSplit(a: seq<Record>, b: seq<Record>)
    requires Sorted(a) && Sorted(b) && multiset(a) == multiset(b) && a != [] && b != []
    ensures a[0] == b[0]
    ensures Sorted(a[1..]) && Sorted(b[1..]) && multiset(a[1..]) == multiset(b[1..])
  {
    SameHead(a, b);
    MultisetTail(a);
    MultisetTail(b);
    SortedTail(a);
    SortedTail(b);
  }

  lemma {:induction false} SameCons(a: seq<Record>, b: seq<Record>)
    requires a != [] && b != [] && a[0] == b[0] && a[1..] == b[1..]
    ensures a == b
  {
    assert a == [a[0]] + a[1..] && b == [b[0]] + b[1..];
  }

  // ---------------------------------------------------------------------------
  // Layout of the sorted records
  // ---------------------------------------------------------------------------

  /** Where block i starts when every block has width w: w*i, written as
      repeated addition so that the proofs about blocks stay linear. */
  function Offset(w: int, i: nat): (r: int)
    ensures w >= 0 ==> r >= 0
  {
    if i == 0 then 0 else Offset(w, i - 1) + w
  }

  lemma {:induction false} OffsetIsProduct(w: int, i: nat)
    ensures Offset(w, i) == w * i
  {
    if i > 0 {
      OffsetIsProduct(w, i - 1);
      assert w * i == w * (i - 1) + w;
    }
  }

  /** n blocks of width n - 1 hold n*(n-1) positions. */
  lemma {:induction false} AllBlocks(n: nat)
    ensures Offset(n - 1, n) == n * (n - 1)
  {
    OffsetIsProduct(n - 1, n);
  }

  /** A later block starts no earlier than the end of an earlier one. */
  lemma {:induction false} OffsetMono(w: nat, a: nat, b: nat)
    requires a <= b
    ensures a < b ==> Offset(w, a) + w <= Offset(w, b)
    ensures Offset(w, a) <= Offset(w, b)
    decreases b
  {
    if a < b {
      OffsetMono(w, a, b - 1);
    }
  }

  /** A position inside block i belongs to block i only. */
  lemma {:induction false} SameBlock(w: nat, i: nat, k: nat, l: nat)
    requires k < w
    requires Offset(w, l) <= Offset(w, i) + k < Offset(w, l + 1)
    ensures l == i
  {
    if l < i {
      OffsetMono(w, l, i);
    } else if l > i {
      OffsetMono(w, i, l);
    }
  }

  /** A sorted list in which each of the left indices 0 .. n-1 occurs exactly
      n-1 times has length n*(n-1), and the records of left index l fill
      exactly the positions [(n-1)*l, (n-1)*(l+1)). */
  lemma {:induction false} GroupedByLeft(s: seq<Record>, n: nat)
    requires Sorted(s)
    requires forall r :: r in s ==> r.left < n
    requires forall k :: 0 <= k < n ==> CountLeft(s, k) == n - 1
    ensures |s| == Offset(n - 1, n)
    ensures forall p :: 0 <= p < |s| ==> Offset(n - 1, s[p].left) <= p < Offset(n - 1, s[p].left + 1)
  {
    CountBelowSum(s, n, n);
    forall q | 0 <= q < |s| ensures s[q].left < n {
      assert s[q] in s;
    }
    CountBelowAll(s, n);
    forall p | 0 <= p < |s|
      ensures Offset(n - 1, s[p].left) <= p < Offset(n - 1, s[p].left + 1)
    {
      assert s[p] in s;
      CountBelowAround(s, p);
      CountBelowSum(s, n, s[p].left);
      CountBelowSum(s, n, s[p].left + 1);
    }
  }

  /** In a sorted list, the records with a smaller left index than s[p] all
      come before p, and the records up to p have a left index at most s[p]'s. */
  lemma {:induction false} CountBelowAround(s: seq<Record>, p: nat)
    requires Sorted(s) && p < |s|
    ensures CountBelow(s, s[p].left) <= p < CountBelow(s, s[p].left + 1)
  {
    CountBelowBefore(s, p);
    forall q | 0 <= q <= p ensures s[q].left <= s[p].left {
      SortedLeft(s, q, p);
    }
    CountBelowThrough(s, p);
  }

  /** In a sorted list, left indices never decrease. */
  lemma {:induction false} SortedLeft(s: seq<Record>, q: nat, p: nat)
    requires Sorted(s) && q <= p < |s|
    ensures s[q].left <= s[p].left
  {
    if q < p {
      assert Leq(s[q], s[p]);
    }
  }

  lemma {:induction false} CountBelowBefore(s: seq<Record>, p: nat)
    requires Sorted(s) && p < |s|
    ensures CountBelow(s, s[p].left) <= p
  {
    var l := s[p].left;
    var before, after := s[..p], s[p..];
    forall q | 0 <= q < |after| ensures after[q].left >= l {
      SortedLeft(s, p, p + q);
    }
    assert s == before + after;
    CountConcat(before, after, l);
    CountBelowNone(after, l);
  }

  lemma {:induction false} CountBelowThrough(s: seq<Record>, p: nat)
    requires p < |s|
    requires forall q :: 0 <= q <= p ==> s[q].left <= s[p].left
    ensures p < CountBelow(s, s[p].left + 1)
  {
    var l := s[p].left;
    var through, rest := s[..p + 1], s[p + 1..];
    forall q | 0 <= q < |through| ensures through[q].left < l + 1 {
      assert through[q] == s[q];
    }
    assert s == through + rest;
    CountConcat(through, rest, l + 1);
    CountBelowAll(through, l + 1);
  }

  /** The sorted list has n*(n-1) records, all indices below n. */
  predicate Layout(s: seq<Record>, n: nat)
  {
    |s| == Offset(n - 1, n) && forall r :: r in s ==> r.left < n && r.right < n
  }

  /** The slice the walk visits for left index i: `distances[(n-1)*i : (n-1)*(i+1)]`. */
  function Block(s: seq<Record>, n: nat, i: nat): (b: seq<Record>)
    requires Layout(s, n) && i < n
    ensures |b| == n - 1
    ensures forall r :: r in b ==> r.left < n && r.right < n
  {
    OffsetMono(n - 1, i + 1, n);
    var b := s[Offset(n - 1, i) .. Offset(n - 1, i + 1)];
    assert forall r :: r in b ==> r in s;
    b
  }

  /** Every record of block i has left index i. */
  predicate Grouped(s: seq<Record>, n: nat)
    requires Layout(s, n)
  {
    forall i, k :: 0 <= i < n && 0 <= k < |Block(s, n, i)| ==> Block(s, n, i)[k].left == i
  }

  /** The block for left index i is the slice `s[(n-1)*i : (n-1)*(i+1)]`
      the walk takes, and in a grouped layout every record in it has left
      index i. */
  lemma {:induction false} BlockSlice(s: seq<Record>, n: nat, i: nat)
    requires Layout(s, n) && Grouped(s, n) && i < n
    ensures 0 <= (n - 1) * i <= (n - 1) * (i + 1) <= |s|
    ensures s[(n - 1) * i .. (n - 1) * (i + 1)] == Block(s, n, i)
    ensures forall r :: r in Block(s, n, i) ==> r.left == i
  {
    OffsetIsProduct(n - 1, i);
    OffsetIsProduct(n - 1, i + 1);
    OffsetMono(n - 1, i, i + 1);
    OffsetMono(n - 1, i + 1, n);
    var b := Block(s, n, i);
    forall r | r in b
      ensures r.left == i
    {
      var k :| 0 <= k < |b| && b[k] == r;
    }
  }

  /** Entry k of a slice whose records all have left index i: it has left
      index i, and its call extends the calls of the entries before it. */
  lemma {:induction false} WalkEntry(ps: seq<Entry>, slice: seq<Record>, i: nat, k: nat)
    requires i < |ps| && k < |slice|
    requires forall r :: r in slice ==> r.left == i && r.left < |ps| && r.right < |ps|
    ensures slice[k].left == i && slice[k].right < |ps|
    ensures var cs := CallsOf(ps, slice);
            cs[..k + 1] == cs[..k] + [Call(ps[slice[k].left].obj, ps[slice[k].right].obj, slice[k].dist)]
  {
    assert slice[k] in slice;
    var cs := CallsOf(ps, slice);
    assert cs[..k + 1] == cs[..k] + [cs[k]];
  }

  /** The sorted records of a snapshot. */
  function SortedRecords(ps: seq<Entry>, m: Metric): seq<Record>
  {
    SortRecords(PairRecords(ps, m))
  }

  /** The sorted records are n*(n-1) in number, ordered, pairwise distinct,
      the same records as before sorting, and grouped into blocks by left
      index. */
  lemma {:induction false} SortedRecordsLayout(ps: seq<Entry>, m: Metric)
    ensures var s := SortedRecords(ps, m);
            && Layout(s, |ps|) && Grouped(s, |ps|) && Sorted(s) && Distinct(s)
            && multiset(s) == multiset(PairRecords(ps, m))
  {
    SortedRecordsCounts(ps, m);
    GroupedFromCounts(SortedRecords(ps, m), |ps|);
  }

  lemma {:induction false} SortedRecordsCounts(ps: seq<Entry>, m: Metric)
    ensures var s := SortedRecords(ps, m);
            && Sorted(s) && Distinct(s) && multiset(s) == multiset(PairRecords(ps, m))
            && (forall r :: r in s ==> r.left < |ps| && r.right < |ps|)
            && (forall k :: 0 <= k < |ps| ==> CountLeft(s, k) == |ps| - 1)
  {
    var n := |ps|;
    var raw := PairRecords(ps, m);
    var s := SortedRecords(ps, m);
    SortRecordsSorted(raw);
    RowsDistinct(ps, m, n);
    SortRecordsDistinct(raw);
    forall r | r in s ensures r.left < n && r.right < n {
      assert r in multiset(raw);
      PairRecordsMember(ps, m, r);
    }
    forall k | 0 <= k < n ensures CountLeft(s, k) == n - 1 {
      SortRecordsCount(raw, k);
      PairRecordsCount(ps, m, k);
    }
  }

  /** The grouping, stated block by block. */
  lemma {:induction false} GroupedFromCounts(s: seq<Record>, n: nat)
    requires Sorted(s)
    requires forall r :: r in s ==> r.left < n && r.right < n
    requires forall k :: 0 <= k < n ==> CountLeft(s, k) == n - 1
    ensures Layout(s, n) && Grouped(s, n)
  {
    GroupedByLeft(s, n);
    GroupedFromPlaced(s, n);
  }

  /** The k-th record of block i is the record at Offset(n - 1, i) + k. */
  lemma {:induction false} BlockAt(s: seq<Record>, n: nat, i: nat, k: nat)
    requires Layout(s, n) && i < n && k < n - 1
    ensures Offset(n - 1, i) + k < |s| && Block(s, n, i)[k] == s[Offset(n - 1, i) + k]
  {
    OffsetMono(n - 1, i + 1, n);
  }

  lemma {:induction false} GroupedFromPlaced(s: seq<Record>, n: nat)
    requires Layout(s, n)
    requires forall p :: 0 <= p < |s| ==> Offset(n - 1, s[p].left) <= p < Offset(n - 1, s[p].left + 1)
    ensures Grouped(s, n)
  {
    forall i, k | 0 <= i < n && 0 <= k < |Block(s, n, i)|
      ensures Block(s, n, i)[k].left == i
    {
      BlockAt(s, n, i, k);
      PlacedIndex(s, n, i, k);
    }
  }

  /** The pair records number exactly n*(n-1). */
  lemma {:induction false} PairRecordsLength(ps: seq<Entry>, m: Metric)
    ensures |PairRecords(ps, m)| == |ps| * (|ps| - 1)
  {
    SortedRecordsLayout(ps, m);
    SortRecordsSorted(PairRecords(ps, m));
    AllBlocks(|ps|);
  }

  /** What the walk asserts before it starts: n*(n-1) sorted records. */
  lemma {:induction false} SortedRecordsLength(ps: seq<Entry>, m: Metric)
    ensures |SortedRecords(ps, m)| == |ps| * (|ps| - 1)
  {
    PairRecordsLength(ps, m);
    SortRecordsSorted(PairRecords(ps, m));
  }

  /** The candidates offered to the object at snapshot index i, in order. */
  function Candidates(ps: seq<Entry>, m: Metric, i: nat): seq<Record>
    requires i < |ps|
  {
    SortedRecordsLayout(ps, m);
    Block(SortedRecords(ps, m), |ps|, i)
  }

  /** Block i holds n-1 records, exactly the records whose left index is i,
      one for every other snapshot index j with the pair's distance; within
      the block distances never decrease and equal distances come in strictly
      ascending right index. */
  lemma {:induction false} CandidatesSpec(ps: seq<Entry>, m: Metric, i: nat)
    requires i < |ps|
    ensures var c := Candidates(ps, m, i);
            && |c| == |ps| - 1
            && (forall r :: r in c <==> r in PairRecords(ps, m) && r.left == i)
            && (forall j :: 0 <= j < |ps| && j != i ==> Record(i, Dist(ps[i], ps[j], m), j) in c)
            && (forall p, q :: 0 <= p < q < |c| ==>
                  c[p].dist < c[q].dist || (c[p].dist == c[q].dist && c[p].right < c[q].right))
  {
    var c := Candidates(ps, m, i);
    forall r ensures r in c <==> r in PairRecords(ps, m) && r.left == i {
      CandidatesMember(ps, m, i, r);
    }
    forall j | 0 <= j < |ps| && j != i ensures Record(i, Dist(ps[i], ps[j], m), j) in c {
      var r := Record(i, Dist(ps[i], ps[j], m), j);
      PairRecordsMember(ps, m, r);
      CandidatesMember(ps, m, i, r);
    }
    CandidatesOrdered(ps, m, i);
  }

  lemma {:induction false} CandidatesMember(ps: seq<Entry>, m: Metric, i: nat, r: Record)
    requires i < |ps|
    ensures r in Candidates(ps, m, i) <==> r in PairRecords(ps, m) && r.left == i
  {
    var s := SortedRecords(ps, m);
    SortedRecordsCounts(ps, m);
    GroupedByLeft(s, |ps|);
    BlockMember(s, |ps|, i, r);
    assert r in s <==> r in multiset(PairRecords(ps, m));
  }

  /** The k-th record of block i, when every record sits in the block of its
      left index, has left index i. */
  lemma {:induction false} PlacedIndex(s: seq<Record>, n: nat, i: nat, k: nat)
    requires forall p :: 0 <= p < |s| ==> Offset(n - 1, s[p].left) <= p < Offset(n - 1, s[p].left + 1)
    requires i < n && k < n - 1 && Offset(n - 1, i) + k < |s|
    ensures s[Offset(n - 1, i) + k].left == i
  {
    var p := Offset(n - 1, i) + k;
    SameBlock(n - 1, i, k, s[p].left);
  }

  /** With every record placed in the block of its left index, block i holds
      exactly the records whose left index is i. */
  lemma {:induction false} BlockMember(s: seq<Record>, n: nat, i: nat, r: Record)
    requires Layout(s, n) && i < n
    requires forall p :: 0 <= p < |s| ==> Offset(n - 1, s[p].left) <= p < Offset(n - 1, s[p].left + 1)
    ensures r in Block(s, n, i) <==> r in s && r.left == i
  {
    if r in Block(s, n, i) {
      var k := BlockIndexOf(s, n, i, r);
      PlacedIndex(s, n, i, k);
    }
    if r in s && r.left == i {
      BlockHoldsLeft(s, n, i, r);
    }
  }

  /** A record of block i is the k-th record after the block's start. */
  lemma {:induction false} BlockIndexOf(s: seq<Record>, n: nat, i: nat, r: Record) returns (k: nat)
    requires Layout(s, n) && i < n && r in Block(s, n, i)
    ensures k < n - 1 && Offset(n - 1, i) + k < |s| && s[Offset(n - 1, i) + k] == r
  {
    var c := Block(s, n, i);
    OffsetMono(n - 1, i + 1, n);
    k :| 0 <= k < |c| && c[k] == r;
  }

  lemma {:induction false} BlockHoldsLeft(s: seq<Record>, n: nat, i: nat, r: Record)
    requires Layout(s, n) && i < n
    requires forall p :: 0 <= p < |s| ==> Offset(n - 1, s[p].left) <= p < Offset(n - 1, s[p].left + 1)
    requires r in s && r.left == i
    ensures r in Block(s, n, i)
  {
    var c := Block(s, n, i);
    var lo := Offset(n - 1, i);
    OffsetMono(n - 1, i + 1, n);
    var p :| 0 <= p < |s| && s[p] == r;
    assert c[p - lo] == r;
  }

  lemma {:induction false} CandidatesOrdered(ps: seq<Entry>, m: Metric, i: nat)
    requires i < |ps|
    ensures var c := Candidates(ps, m, i);
            forall p, q :: 0 <= p < q < |c| ==>
              c[p].dist < c[q].dist || (c[p].dist == c[q].dist && c[p].right < c[q].right)
  {
    var n := |ps|;
    var s := SortedRecords(ps, m);
    assert Layout(s, n) && Grouped(s, n) && Sorted(s) && Distinct(s) by {
      SortedRecordsLayout(ps, m);
    }
    var c := Candidates(ps, m, i);
    forall p, q | 0 <= p < q < |c|
      ensures c[p].dist < c[q].dist || (c[p].dist == c[q].dist && c[p].right < c[q].right)
    {
      BlockAt(s, n, i, p);
      BlockAt(s, n, i, q);
      assert c[p].left == i && c[q].left == i;
      StrictlyOrdered(s, Offset(n - 1, i) + p, Offset(n - 1, i) + q);
    }
  }

  /** In a sorted list without repetitions, an earlier record is strictly
      smaller. */
  lemma {:induction false} StrictlyOrdered(s: seq<Record>, p: nat, q: nat)
    requires Sorted(s) && Distinct(s) && p < q < |s|
    ensures Leq(s[p], s[q]) && s[p] != s[q]
  {
  }


  // ---------------------------------------------------------------------------
  // Delivering the calls
  // ---------------------------------------------------------------------------

  /** The `nearby` call a record stands for. */
  function ToCall(ps: seq<Entry>, r: Record): Call
    requires r.left < |ps| && r.right < |ps|
  {
    Call(ps[r.left].obj, ps[r.right].obj, r.dist)
  }

  function CallsOf(ps: seq<Entry>, block: seq<Record>): seq<Call>
    requires forall r :: r in block ==> r.left < |ps| && r.right < |ps|
  {
    seq(|block|, k requires 0 <= k < |block| => ToCall(ps, block[k]))
  }

  /** The answer the `nearby` oracle gives for a call. */
  predicate Answers(nearby: (ObjId, ObjId, real) -> bool, c: Call)
  {
    nearby(c.left, c.right, c.dist)
  }

  /** The calls of one block that are delivered: in order, up to and including
      the first call answered false. */
  function Delivered(cs: seq<Call>, nearby: (ObjId, ObjId, real) -> bool): seq<Call>
  {
    if cs == [] then []
    else if Answers(nearby, cs[0]) then [cs[0]] + Delivered(cs[1..], nearby)
    else [cs[0]]
  }

  /** The delivered calls are a prefix of the block; the first call is always
      delivered; every delivered call but the last was answered true; and the
      walk ends early only on a call answered false. */
  lemma {:induction false} DeliveredSpec(cs: seq<Call>, nearby: (ObjId, ObjId, real) -> bool)
    ensures var d := Delivered(cs, nearby);
            && |d| <= |cs| && d == cs[..|d|]
            && (cs != [] ==> d != [])
            && (forall q :: 0 <= q < |d| - 1 ==> Answers(nearby, d[q]))
            && (|d| < |cs| ==> !Answers(nearby, d[|d| - 1]))
  {
    if cs != [] && Answers(nearby, cs[0]) {
      DeliveredSpec(cs[1..], nearby);
      var d := Delivered(cs, nearby);
      var t := Delivered(cs[1..], nearby);
      assert d == [cs[0]] + t;
      forall q | 0 <= q < |d| - 1 ensures Answers(nearby, d[q]) {
        if q > 0 { assert d[q] == t[q - 1]; }
      }
    }
  }

  /** After k calls answered true, the rest of the block is walked on. */
  lemma {:induction false} DeliveredAfter(cs: seq<Call>, nearby: (ObjId, ObjId, real) -> bool, k: nat)
    requires k <= |cs|
    requires forall q :: 0 <= q < k ==> Answers(nearby, cs[q])
    ensures Delivered(cs, nearby) == cs[..k] + Delivered(cs[k..], nearby)
  {
    if k > 0 {
      DeliveredAfter(cs[1..], nearby, k - 1);
      assert cs[1..][k - 1..] == cs[k..];
      assert cs[..k] == [cs[0]] + cs[1..][..k - 1];
    }
  }

  /** When every call is answered true, the whole block is delivered. */
  lemma {:induction false} DeliveredAll(cs: seq<Call>, nearby: (ObjId, ObjId, real) -> bool)
    requires forall q :: 0 <= q < |cs| ==> Answers(nearby, cs[q])
    ensures Delivered(cs, nearby) == cs
  {
    if cs != [] {
      assert Answers(nearby, cs[0]);
      DeliveredAll(cs[1..], nearby);
    }
  }

  /** When the first k calls are answered true and the next one false, the
      block is delivered up to and including that call. */
  lemma {:induction false} DeliveredStop(cs: seq<Call>, nearby: (ObjId, ObjId, real) -> bool, k: nat)
    requires k < |cs|
    requires forall q :: 0 <= q < k ==> Answers(nearby, cs[q])
    requires !Answers(nearby, cs[k])
    ensures Delivered(cs, nearby) == cs[..k + 1]
  {
    DeliveredAfter(cs, nearby, k);
    var rest := cs[k..];
    assert rest != [] && rest[0] == cs[k];
    assert Delivered(rest, nearby) == [cs[k]];
    assert cs[..k + 1] == cs[..k] + [cs[k]];
  }

  /** The delivered calls of each block, as a function of the block index. */
  function BlockCalls(ps: seq<Entry>, s: seq<Record>, nearby: (ObjId, ObjId, real) -> bool): nat -> seq<Call>
    requires Layout(s, |ps|)
  {
    (b: nat) => if b < |ps| then Delivered(CallsOf(ps, Block(s, |ps|, b)), nearby) else []
  }

  /** The concatenation of blocks(0) .. blocks(j-1). */
  function Flatten(blocks: nat -> seq<Call>, j: nat): seq<Call>
  {
    if j == 0 then [] else Flatten(blocks, j - 1) + blocks(j - 1)
  }

  lemma {:induction false} BlockCallsAt(ps: seq<Entry>, s: seq<Record>, nearby: (ObjId, ObjId, real) -> bool, b: nat)
    requires Layout(s, |ps|) && b < |ps|
    ensures BlockCalls(ps, s, nearby)(b) == Delivered(CallsOf(ps, Block(s, |ps|, b)), nearby)
  {
  }

  /** The calls of blocks 0 .. i-1, block after block. */
  function Dispatch(ps: seq<Entry>, s: seq<Record>, nearby: (ObjId, ObjId, real) -> bool, i: nat): seq<Call>
    requires Layout(s, |ps|) && i <= |ps|
  {
    Flatten(BlockCalls(ps, s, nearby), i)
  }

  /** Every `nearby` call of one tick, in order. */
  function Trace(ps: seq<Entry>, m: Metric, nearby: (ObjId, ObjId, real) -> bool): seq<Call>
  {
    SortedRecordsLayout(ps, m);
    Dispatch(ps, SortedRecords(ps, m), nearby, |ps|)
  }

  /** The calls made by one object. */
  function CallsFrom(cs: seq<Call>, o: ObjId): seq<Call>
  {
    if cs == [] then [] else (if cs[0].left == o then [cs[0]] else []) + CallsFrom(cs[1..], o)
  }

  lemma {:induction false} CallsFromConcat(a: seq<Call>, b: seq<Call>, o: ObjId)
    ensures CallsFrom(a + b, o) == CallsFrom(a, o) + CallsFrom(b, o)
  {
    if a == [] {
      assert a + b == b;
    } else {
      var head := if a[0].left == o then [a[0]] else [];
      assert (a + b)[1..] == a[1..] + b;
      CallsFromConcat(a[1..], b, o);
      assert CallsFrom(a + b, o) == head + (CallsFrom(a[1..], o) + CallsFrom(b, o));
      assert CallsFrom(a, o) == head + CallsFrom(a[1..], o);
    }
  }

  lemma {:induction false} CallsFromUniform(cs: seq<Call>, o: ObjId, left: ObjId)
    requires forall c :: c in cs ==> c.left == left
    ensures CallsFrom(cs, o) == if o == left then cs else []
  {
    if cs != [] {
      assert cs[0] in cs;
      assert forall c :: c in cs[1..] ==> c in cs;
      CallsFromUniform(cs[1..], o, left);
      assert cs == [cs[0]] + cs[1..];
    }
  }

  lemma {:induction false} DispatchStep(ps: seq<Entry>, s: seq<Record>, nearby: (ObjId, ObjId, real) -> bool, j: nat)
    requires Layout(s, |ps|) && 0 < j <= |ps|
    ensures Dispatch(ps, s, nearby, j)
            == Dispatch(ps, s, nearby, j - 1) + Delivered(CallsOf(ps, Block(s, |ps|, j - 1)), nearby)
  {
    BlockCallsAt(ps, s, nearby, j - 1);
    FlattenLast(BlockCalls(ps, s, nearby), j, Delivered(CallsOf(ps, Block(s, |ps|, j - 1)), nearby));
  }

  lemma {:induction false} FlattenLast(blocks: nat -> seq<Call>, j: nat, last: seq<Call>)
    requires 0 < j && blocks(j - 1) == last
    ensures Flatten(blocks, j) == Flatten(blocks, j - 1) + last
  {
  }

  /** The calls of cs made by o: all of them when mine holds, none otherwise. */
  predicate OnlyFrom(cs: seq<Call>, o: ObjId, mine: bool)
  {
    CallsFrom(cs, o) == if mine then cs else []
  }

  /** When block i is the only block whose calls are made by o, the calls o
      makes over blocks 0 .. j-1 are those of block i (if i < j). */
  lemma {:induction false} FlattenFrom(blocks: nat -> seq<Call>, j: nat, i: nat, o: ObjId)
    requires forall b :: 0 <= b < j ==> OnlyFrom(blocks(b), o, b == i)
    ensures CallsFrom(Flatten(blocks, j), o) == if i < j then blocks(i) else []
  {
    if j > 0 {
      var b := j - 1;
      FlattenFrom(blocks, b, i, o);
      AppendFrom(Flatten(blocks, b), blocks(b), o, if i < b then blocks(i) else [], b == i);
      if b == i {
        assert [] + blocks(b) == blocks(b);
      }
    }
  }

  /** Appending calls all made by o, or none made by o, to a sequence. */
  lemma {:induction false} AppendFrom(before: seq<Call>, d: seq<Call>, o: ObjId, mineBefore: seq<Call>, last: bool)
    requires CallsFrom(before, o) == mineBefore
    requires OnlyFrom(d, o, last)
    ensures CallsFrom(before + d, o) == if last then mineBefore + d else mineBefore
  {
    CallsFromConcat(before, d, o);
    if !last {
      assert mineBefore + [] == mineBefore;
    }
  }

  /** The calls of block b made by o: all of them if o is the object at index
      b, none otherwise. */
  lemma {:induction false} CallsFromBlock(ps: seq<Entry>, s: seq<Record>, nearby: (ObjId, ObjId, real) -> bool, b: nat, o: ObjId)
    requires Layout(s, |ps|) && Grouped(s, |ps|) && b < |ps|
    ensures var d := Delivered(CallsOf(ps, Block(s, |ps|, b)), nearby);
            CallsFrom(d, o) == if o == ps[b].obj then d else []
  {
    DeliveredFromOneObject(ps, s, nearby, b);
    CallsFromUniform(Delivered(CallsOf(ps, Block(s, |ps|, b)), nearby), o, ps[b].obj);
  }

  /** Every call delivered from block b is made by the object at index b. */
  lemma {:induction false} DeliveredFromOneObject(ps: seq<Entry>, s: seq<Record>, nearby: (ObjId, ObjId, real) -> bool, b: nat)
    requires Layout(s, |ps|) && Grouped(s, |ps|) && b < |ps|
    ensures forall c :: c in Delivered(CallsOf(ps, Block(s, |ps|, b)), nearby) ==> c.left == ps[b].obj
  {
    var block := Block(s, |ps|, b);
    var cs := CallsOf(ps, block);
    var d := Delivered(cs, nearby);
    DeliveredSpec(cs, nearby);
    forall c | c in d ensures c.left == ps[b].obj {
      var q :| 0 <= q < |d| && d[q] == c;
      assert c == cs[q] == ToCall(ps, block[q]);
      assert block[q].left == b;
    }
  }

  /** The calls made by the object at snapshot index i are exactly the
      delivered prefix of its own candidate list, whatever the other objects
      answered: an early stop ends only that object's block. */
  lemma {:induction false} TraceForObject(ps: seq<Entry>, m: Metric, nearby: (ObjId, ObjId, real) -> bool, i: nat)
    requires Distinct(Objs(ps)) && i < |ps|
    ensures CallsFrom(Trace(ps, m, nearby), ps[i].obj) == Delivered(CallsOf(ps, Candidates(ps, m, i)), nearby)
  {
    var s := SortedRecords(ps, m);
    var o := ps[i].obj;
    assert Layout(s, |ps|) && Grouped(s, |ps|) by {
      SortedRecordsLayout(ps, m);
    }
    OnlyOwnBlock(ps, s, nearby, i);
    FlattenFrom(BlockCalls(ps, s, nearby), |ps|, i, o);
    BlockCallsAt(ps, s, nearby, i);
  }

  /** For distinct objects, the object at index i makes all the calls of
      block i and none of any other block. */
  lemma {:induction false} OnlyOwnBlock(ps: seq<Entry>, s: seq<Record>, nearby: (ObjId, ObjId, real) -> bool, i: nat)
    requires Layout(s, |ps|) && Grouped(s, |ps|) && Distinct(Objs(ps)) && i < |ps|
    ensures forall b :: 0 <= b < |ps| ==> OnlyFrom(BlockCalls(ps, s, nearby)(b), ps[i].obj, b == i)
  {
    var o := ps[i].obj;
    forall b | 0 <= b < |ps|
      ensures OnlyFrom(BlockCalls(ps, s, nearby)(b), o, b == i)
    {
      BlockCallsAt(ps, s, nearby, b);
      CallsFromBlock(ps, s, nearby, b, o);
      if b != i {
        assert Objs(ps)[i] == o && Objs(ps)[b] == ps[b].obj;
      }
    }
  }

  /** When every call is answered true, all n*(n-1) calls are delivered. */
  lemma {:induction false} TraceAllAnswered(ps: seq<Entry>, m: Metric, nearby: (ObjId, ObjId, real) -> bool)
    requires forall a, b, d :: nearby(a, b, d)
    ensures |Trace(ps, m, nearby)| == |ps| * (|ps| - 1)
  {
    TraceAllBlocks(ps, m, nearby);
    AllBlocks(|ps|);
  }

  lemma {:induction false} TraceAllBlocks(ps: seq<Entry>, m: Metric, nearby: (ObjId, ObjId, real) -> bool)
    requires forall a, b, d :: nearby(a, b, d)
    ensures |Trace(ps, m, nearby)| == Offset(|ps| - 1, |ps|)
  {
    var s := SortedRecords(ps, m);
    assert Layout(s, |ps|) by {
      SortedRecordsLayout(ps, m);
    }
    AllBlocksFull(ps, s, nearby);
    FlattenLength(BlockCalls(ps, s, nearby), |ps|, |ps| - 1);
  }

  lemma {:induction false} AllBlocksFull(ps: seq<Entry>, s: seq<Record>, nearby: (ObjId, ObjId, real) -> bool)
    requires forall a, b, d :: nearby(a, b, d)
    requires Layout(s, |ps|)
    ensures forall b :: 0 <= b < |ps| ==> |BlockCalls(ps, s, nearby)(b)| == |ps| - 1
  {
    forall b | 0 <= b < |ps|
      ensures |BlockCalls(ps, s, nearby)(b)| == |ps| - 1
    {
      BlockAllAnswered(ps, s, nearby, b);
    }
  }

  /** When every call is answered true, a block delivers all n-1 of its calls. */
  lemma {:induction false} BlockAllAnswered(ps: seq<Entry>, s: seq<Record>, nearby: (ObjId, ObjId, real) -> bool, b: nat)
    requires forall a, b, d :: nearby(a, b, d)
    requires Layout(s, |ps|) && b < |ps|
    ensures |BlockCalls(ps, s, nearby)(b)| == |ps| - 1
  {
    BlockCallsAt(ps, s, nearby, b);
    var cs := CallsOf(ps, Block(s, |ps|, b));
    assert forall q :: 0 <= q < |cs| ==> Answers(nearby, cs[q]);
    DeliveredAll(cs, nearby);
  }

  /** Blocks of w calls each flatten to Offset(w, j) calls. */
  lemma {:induction false} FlattenLength(blocks: nat -> seq<Call>, j: nat, w: int)
    requires forall b :: 0 <= b < j ==> |blocks(b)| == w
    ensures |Flatten(blocks, j)| == Offset(w, j)
  {
    if j > 0 {
      FlattenLength(blocks, j - 1, w);
    }
  }
}
