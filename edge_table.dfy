/*
 * Rows of the edge tables of the SQL graph store, the read queries over the
 * primary table, and the map updates that the store's mutations perform.
 *
 * A table is a map from the primary key `_id` to the row stored under it.
 * Queries that return a list of rows return a set of rows here: SQL gives
 * them no order, and every row carries its own `_id`, so no two rows of a
 * well-keyed table are the same value.
 */
module EdgeTable {

  /** Signed 64-bit integers, the type of the `BigInteger` columns. */
  type Int64 = x: int | -0x8000_0000_0000_0000 <= x < 0x8000_0000_0000_0000

  type Id = Int64
  type Vertex = Int64

  datatype Option<T> = None | Some(value: T)

  /** One row of `table_edges` (or of the staging table `new_edges`, which has the same columns). */
  datatype Edge = Edge(id: Id, vFrom: Vertex, vTo: Vertex, weight: real, attributes: string)

  /** A table, keyed by its primary key `_id`. */
  type Table = map<Id, Edge>

  /** Every row is stored under its own `_id`. */
  predicate WellKeyed(t: Table) {
    forall id :: id in t ==> t[id].id == id
  }

  // ---------------------------------------------------------------------
  // Read queries
  // ---------------------------------------------------------------------

  /** Rows directed from `a` to `b`. */
  function Between(t: Table, a: Vertex, b: Vertex): set<Edge> {
    set e | e in t.Values && e.vFrom == a && e.vTo == b
  }

  /** `find_edge`: some row directed from `a` to `b`, or none; which one
      `.first()` yields among several is up to the engine. */
  ghost function FindEdge(t: Table, a: Vertex, b: Vertex): (r: Option<Edge>)
    ensures r.None? <==> forall e :: e in t.Values ==> !(e.vFrom == a && e.vTo == b)
    ensures r.Some? ==> r.value in t.Values && r.value.vFrom == a && r.value.vTo == b
  {
    var matches := Between(t, a, b);
    assert forall e :: e in t.Values && e.vFrom == a && e.vTo == b ==> e in matches;
    if matches == {} then None
    else
      var e :| e in matches;
      Some(e)
  }

  /** `find_edge_or_inv`: the rows joining `a` and `b` in either direction. */
  function FindEdgeOrInv(t: Table, a: Vertex, b: Vertex): (r: set<Edge>)
    ensures forall e :: e in r <==> e in t.Values && {e.vFrom, e.vTo} == {a, b}
  {
    set e | e in t.Values && ((e.vFrom == a && e.vTo == b) || (e.vFrom == b && e.vTo == a))
  }

  /** `edges_from`: rows leaving `v`. */
  function EdgesFrom(t: Table, v: Vertex): (r: set<Edge>)
    ensures forall e :: e in r ==> e in t.Values && e.vFrom == v
    ensures forall id :: id in t && t[id].vFrom == v ==> t[id] in r
  {
    set e | e in t.Values && e.vFrom == v
  }

  /** `edges_to`: rows entering `v`. */
  function EdgesTo(t: Table, v: Vertex): (r: set<Edge>)
    ensures forall e :: e in r ==> e in t.Values && e.vTo == v
    ensures forall id :: id in t && t[id].vTo == v ==> t[id] in r
  {
    set e | e in t.Values && e.vTo == v
  }

  /** `edges_related`: rows with `v` as either endpoint. */
  function EdgesRelated(t: Table, v: Vertex): (r: set<Edge>)
    ensures forall e :: e in r ==> e in t.Values && (e.vFrom == v || e.vTo == v)
    ensures forall id :: id in t && (t[id].vFrom == v || t[id].vTo == v) ==> t[id] in r
  {
    set e | e in t.Values && (e.vFrom == v || e.vTo == v)
  }

  /** `all_vertexes`: the distinct sources united with the distinct targets. */
  function AllVertexes(t: Table): (r: set<Vertex>)
    ensures forall v :: v in r <==> exists e :: e in t.Values && (e.vFrom == v || e.vTo == v)
  {
    (set e | e in t.Values :: e.vFrom) + (set e | e in t.Values :: e.vTo)
  }

  /** `count_edges`: the number of rows, which is the number of distinct
      rows when every row sits under its own key. */
  function CountEdges(t: Table): nat {
    |t|
  }

  /** `count_nodes`: the size of `all_vertexes`; zero exactly when the table is empty. */
  function CountNodes(t: Table): nat {
    |AllVertexes(t)|
  }

  /** The `(count, sum)` row of an aggregate query: SQL's SUM over no rows is NULL. */
  datatype Aggregate = Aggregate(count: nat, sum: Option<real>)

  /** The sum of the weights of a set of rows. */
  ghost function WeightSum(es: set<Edge>): real
    decreases |es|
  {
    if es == {} then 0.0
    else
      var e :| e in es;
      e.weight + WeightSum(es - {e})
  }

  ghost function Aggregated(es: set<Edge>): Aggregate {
    Aggregate(|es|, if es == {} then None else Some(WeightSum(es)))
  }

  /** The sum component, with NULL read as zero. */
  function SumOrZero(a: Aggregate): real {
    match a.sum
    case None => 0.0
    case Some(s) => s
  }

  /** `count_following`: aggregate over the rows leaving `v`. */
  ghost function CountFollowing(t: Table, v: Vertex): (r: Aggregate)
    ensures r.count == 0 <==> forall id :: id in t ==> t[id].vFrom != v
    ensures r.sum.None? <==> r.count == 0
    ensures SumOrZero(r) == WeightSum(EdgesFrom(t, v))
  {
    Aggregated(EdgesFrom(t, v))
  }

  /** `count_followers`: aggregate over the rows entering `v`. */
  ghost function CountFollowers(t: Table, v: Vertex): (r: Aggregate)
    ensures r.count == 0 <==> forall id :: id in t ==> t[id].vTo != v
    ensures r.sum.None? <==> r.count == 0
    ensures SumOrZero(r) == WeightSum(EdgesTo(t, v))
  {
    Aggregated(EdgesTo(t, v))
  }

  /** `count_related`: aggregate over the rows touching `v`. */
  ghost function CountRelated(t: Table, v: Vertex): (r: Aggregate)
    ensures r.count == 0 <==> forall id :: id in t ==> t[id].vFrom != v && t[id].vTo != v
    ensures r.sum.None? <==> r.count == 0
    ensures SumOrZero(r) == WeightSum(EdgesRelated(t, v))
  {
    Aggregated(EdgesRelated(t, v))
  }

  /** The rows touching some vertex of `vs`: the query of `nodes_related_to_group`. */
  function EdgesTouchingGroup(t: Table, vs: seq<Vertex>): (r: set<Edge>)
    ensures forall e :: e in r ==> e in t.Values && (e.vFrom in vs || e.vTo in vs)
    ensures forall id :: id in t && (t[id].vFrom in vs || t[id].vTo in vs) ==> t[id] in r
  {
    set e | e in t.Values && (e.vFrom in vs || e.vTo in vs)
  }

  /** The one-hop frontier of a group: vertices outside `vs` joined by a row
      to a vertex inside `vs`, in either direction. */
  ghost function Frontier(t: Table, vs: seq<Vertex>): (r: set<Vertex>)
    ensures forall u :: u in r <==>
      u !in vs && exists e :: e in t.Values && ((e.vFrom == u && e.vTo in vs) || (e.vTo == u && e.vFrom in vs))
    ensures forall u :: u in r ==> u !in vs
  {
    (set e | e in t.Values && e.vTo in vs && e.vFrom !in vs :: e.vFrom)
    + (set e | e in t.Values && e.vFrom in vs && e.vTo !in vs :: e.vTo)
  }

  // ---------------------------------------------------------------------
  // Map updates behind the mutations
  // ---------------------------------------------------------------------

  /** The primary keys carried by a sequence of rows. */
  function Ids(es: seq<Edge>): set<Id> {
    set i | 0 <= i < |es| :: es[i].id
  }

  /** `es[i]` is the last row of `es` with its `_id`. */
  predicate IsLast(es: seq<Edge>, i: int)
    requires 0 <= i < |es|
  {
    forall j :: i < j < |es| ==> es[j].id != es[i].id
  }

  /** The properties `UpsertAll` promises, of a table `r` merged from `t` and `es`. */
  predicate MergedFrom(t: Table, es: seq<Edge>, r: Table) {
    && r.Keys == t.Keys + Ids(es)
    && (forall i :: 0 <= i < |es| && IsLast(es, i) ==> r[es[i].id] == es[i])
    && (forall id :: id in t && id !in Ids(es) ==> r[id] == t[id])
    && (WellKeyed(t) ==> WellKeyed(r))
  }

  /** The ids of a sequence are those of its prefix plus that of its last row. */
  lemma IdsSnoc(es: seq<Edge>)
    requires es != []
    ensures Ids(es) == Ids(es[..|es| - 1]) + {es[|es| - 1].id}
  {
  }

  /** A row of `es` that is last with its id, other than the final row, is
      last in the prefix too and has another id than the final row. */
  lemma LastBeforeFinal(es: seq<Edge>, i: nat)
    requires i < |es| - 1 && IsLast(es, i)
    ensures IsLast(es[..|es| - 1], i) && es[..|es| - 1][i] == es[i]
    ensures es[i].id != es[|es| - 1].id
  {
  }

  /** Merging one more row keeps `MergedFrom`. */
  lemma MergedFromStep(t: Table, es: seq<Edge>, r: Table)
    requires es != []
    requires MergedFrom(t, es[..|es| - 1], r)
    ensures MergedFrom(t, es, Upsert(r, es[|es| - 1]))
  {
    var n := |es| - 1;
    IdsSnoc(es);
    var r' := Upsert(r, es[n]);
    forall i | 0 <= i < |es| && IsLast(es, i) ensures r'[es[i].id] == es[i] {
      if i < n {
        LastBeforeFinal(es, i);
      }
    }
  }

  /** `session.merge` of one row: replaces the row under its `_id`, or adds it. */
  function Upsert(t: Table, e: Edge): (r: Table)
    ensures r.Keys == t.Keys + {e.id}
    ensures r[e.id] == e
    ensures forall id :: id in t && id != e.id ==> r[id] == t[id]
    ensures WellKeyed(t) ==> WellKeyed(r)
  {
    t[e.id := e]
  }

  /** Merging each row of `es` in turn. */
  function UpsertAll(t: Table, es: seq<Edge>): (r: Table)
    ensures r.Keys == t.Keys + Ids(es)
    decreases |es|
  {
    if es == [] then t
    else
      IdsSnoc(es);
      Upsert(UpsertAll(t, es[..|es| - 1]), es[|es| - 1])
  }

  /** What `UpsertAll` promises: the ids of the batch are added, each holds
      the batch's last row with that id, and every other row stays. */
  lemma {:induction false} UpsertAllMerges(t: Table, es: seq<Edge>)
    ensures MergedFrom(t, es, UpsertAll(t, es))
    decreases |es|
  {
    if es != [] {
      UpsertAllMerges(t, es[..|es| - 1]);
      MergedFromStep(t, es, UpsertAll(t, es[..|es| - 1]));
    }
  }

  /** Row deletion by endpoints: every row from `a` to `b` goes. */
  function DeleteBetween(t: Table, a: Vertex, b: Vertex): (r: Table)
    ensures forall id :: id in r <==> id in t && !(t[id].vFrom == a && t[id].vTo == b)
    ensures forall id :: id in r ==> r[id] == t[id]
  {
    map id | id in t && !(t[id].vFrom == a && t[id].vTo == b) :: t[id]
  }

  /** Row deletion by vertex: every row with `v` as either endpoint goes. */
  function DeleteTouching(t: Table, v: Vertex): (r: Table)
    ensures forall id :: id in r <==> id in t && t[id].vFrom != v && t[id].vTo != v
    ensures forall id :: id in r ==> r[id] == t[id]
  {
    map id | id in t && t[id].vFrom != v && t[id].vTo != v :: t[id]
  }

  /** `REPLACE INTO primary SELECT * FROM source`: every source row replaces
      or adds the row under its id; other primary rows stay. */
  function Merge(primary: Table, source: Table): (r: Table)
    ensures r.Keys == primary.Keys + source.Keys
    ensures forall id :: id in source ==> r[id] == source[id]
    ensures forall id :: id in primary && id !in source ==> r[id] == primary[id]
    ensures WellKeyed(primary) && WellKeyed(source) ==> WellKeyed(r)
  {
    primary + source
  }

  // ---------------------------------------------------------------------
  // Lemmas
  // ---------------------------------------------------------------------

  /** The primary keys of the rows of `t` that hold a row of `s`. */
  function KeysOf(t: Table, s: set<Edge>): set<Id> {
    set id | id in t && t[id] in s
  }

  /** In a well-keyed table, a row value sits under exactly its own id. */
  lemma RowUnderOwnId(t: Table, e: Edge)
    requires WellKeyed(t) && e in t.Values
    ensures e.id in t && t[e.id] == e
  {
  }

  /** Counting distinct rows counts table rows: a set of rows drawn from a
      well-keyed table has as many elements as the keys holding them. */
  lemma {:induction false} SelectionCountsRows(t: Table, s: set<Edge>)
    requires WellKeyed(t) && s <= t.Values
    ensures |KeysOf(t, s)| == |s|
    decreases |s|
  {
    if s != {} {
      var e :| e in s;
      RowUnderOwnId(t, e);
      SelectionCountsRows(t, s - {e});
      assert KeysOf(t, s) == KeysOf(t, s - {e}) + {e.id};
    }
  }

  /** `count_edges` counts rows, and in a well-keyed table that is the
      number of distinct rows. */
  lemma CountEdgesCountsRows(t: Table)
    requires WellKeyed(t)
    ensures CountEdges(t) == |t.Values|
  {
    SelectionCountsRows(t, t.Values);
    assert KeysOf(t, t.Values) == t.Keys;
  }

  /** `count_nodes` is zero exactly when the table holds no row. */
  lemma CountNodesZeroIffEmpty(t: Table)
    ensures CountNodes(t) == 0 <==> t == map[]
  {
    if t != map[] {
      var id :| id in t;
      assert t[id].vFrom in AllVertexes(t);
    }
  }

  /** `find_edge_or_inv` is `find_edge`'s filter taken in both directions:
      it is symmetric, holds what `find_edge` finds, and is empty exactly
      when `find_edge` finds nothing either way. */
  lemma FindEdgeOrInvBothDirections(t: Table, a: Vertex, b: Vertex)
    ensures FindEdgeOrInv(t, a, b) == Between(t, a, b) + Between(t, b, a)
    ensures FindEdgeOrInv(t, a, b) == FindEdgeOrInv(t, b, a)
    ensures FindEdge(t, a, b).Some? ==> FindEdge(t, a, b).value in FindEdgeOrInv(t, a, b)
    ensures FindEdgeOrInv(t, a, b) == {} <==> FindEdge(t, a, b).None? && FindEdge(t, b, a).None?
  {
  }

  /** A table holding one edge from `a` to `b` (with `a != b`): `find_edge(a, b)`
      finds it, `find_edge(b, a)` does not, `find_edge_or_inv(a, b)` returns it. */
  lemma DirectedDistinct(e: Edge)
    requires e.vFrom != e.vTo
    ensures FindEdge(map[e.id := e], e.vFrom, e.vTo) == Some(e)
    ensures FindEdge(map[e.id := e], e.vTo, e.vFrom) == None
    ensures FindEdgeOrInv(map[e.id := e], e.vFrom, e.vTo) == {e}
  {
    var t := map[e.id := e];
    assert t.Values == {e} by {
      assert t[e.id] == e;
    }
  }

  /** `edges_related(v)` is the union of `edges_from(v)` and `edges_to(v)`;
      a self-loop, in both, is counted once. */
  lemma RelatedIsFromOrTo(t: Table, v: Vertex)
    ensures EdgesRelated(t, v) == EdgesFrom(t, v) + EdgesTo(t, v)
    ensures EdgesFrom(t, v) * EdgesTo(t, v) == Between(t, v, v)
    ensures |EdgesRelated(t, v)| == |EdgesFrom(t, v)| + |EdgesTo(t, v)| - |Between(t, v, v)|
  {
  }

  /** A vertex exists exactly when some row touches it. */
  lemma VertexIffRelated(t: Table, v: Vertex)
    ensures v in AllVertexes(t) <==> EdgesRelated(t, v) != {}
  {
    if v in AllVertexes(t) {
      var e :| e in t.Values && (e.vFrom == v || e.vTo == v);
      assert e in EdgesRelated(t, v);
    }
  }

  /** Removing one row from a sum takes off its weight. */
  lemma {:induction false} WeightSumRemove(es: set<Edge>, x: Edge)
    requires x in es
    ensures WeightSum(es) == x.weight + WeightSum(es - {x})
    decreases |es|
  {
    var y :| y in es && WeightSum(es) == y.weight + WeightSum(es - {y});
    if y != x {
      WeightSumRemove(es - {y}, x);
      WeightSumRemove(es - {x}, y);
      assert es - {y} - {x} == es - {x} - {y};
    }
  }

  /** The weight sum of disjoint sets adds up. */
  lemma {:induction false} WeightSumUnion(a: set<Edge>, b: set<Edge>)
    requires a !! b
    ensures WeightSum(a + b) == WeightSum(a) + WeightSum(b)
    decreases |a|
  {
    if a == {} {
      assert a + b == b;
    } else {
      var x :| x in a;
      WeightSumRemove(a + b, x);
      WeightSumRemove(a, x);
      assert (a + b) - {x} == (a - {x}) + b;
      WeightSumUnion(a - {x}, b);
    }
  }

  /** The count components of `count_following`, `count_followers` and
      `count_related` are numbers of table rows, not only of distinct values;
      the sum is NULL exactly when no row matches. */
  lemma CountsAreRowCounts(t: Table, v: Vertex)
    requires WellKeyed(t)
    ensures CountFollowing(t, v).count == |set id | id in t && t[id].vFrom == v|
    ensures CountFollowers(t, v).count == |set id | id in t && t[id].vTo == v|
    ensures CountRelated(t, v).count == |set id | id in t && (t[id].vFrom == v || t[id].vTo == v)|
    ensures CountFollowing(t, v).sum == None <==> CountFollowing(t, v).count == 0
    ensures CountFollowers(t, v).sum == None <==> CountFollowers(t, v).count == 0
    ensures CountRelated(t, v).sum == None <==> CountRelated(t, v).count == 0
  {
    SelectionCountsRows(t, EdgesFrom(t, v));
    assert KeysOf(t, EdgesFrom(t, v)) == set id | id in t && t[id].vFrom == v;
    SelectionCountsRows(t, EdgesTo(t, v));
    assert KeysOf(t, EdgesTo(t, v)) == set id | id in t && t[id].vTo == v;
    SelectionCountsRows(t, EdgesRelated(t, v));
    assert KeysOf(t, EdgesRelated(t, v)) == set id | id in t && (t[id].vFrom == v || t[id].vTo == v);
  }

  /** `count_related(v)` is `count_following(v)` plus `count_followers(v)`,
      less the self-loops at `v` that both of them see, in count and in weight. */
  lemma CountRelatedSplit(t: Table, v: Vertex)
    ensures CountRelated(t, v).count
         == CountFollowing(t, v).count + CountFollowers(t, v).count - |Between(t, v, v)|
    ensures SumOrZero(CountRelated(t, v))
         == SumOrZero(CountFollowing(t, v)) + SumOrZero(CountFollowers(t, v)) - WeightSum(Between(t, v, v))
  {
    RelatedIsFromOrTo(t, v);
    var f, g, l := EdgesFrom(t, v), EdgesTo(t, v), Between(t, v, v);
    assert f + g == (f - l) + g;
    WeightSumUnion(f - l, g);
    assert f == (f - l) + l;
    WeightSumUnion(f - l, l);
  }

  /** Merging the same row again, or a newer row with the same id, leaves
      one row under that id: the latest. */
  lemma UpsertSameIdOverrides(t: Table, e1: Edge, e2: Edge)
    requires e1.id == e2.id
    ensures Upsert(Upsert(t, e1), e2) == Upsert(t, e2)
    ensures |Upsert(Upsert(t, e1), e2)| == |Upsert(t, e1)|
  {
  }

  /** Merging `a` then `b` is merging `a + b`: loading a sequence chunk by
      chunk has the effect of loading it at once. */
  lemma {:induction false} UpsertAllAppend(t: Table, a: seq<Edge>, b: seq<Edge>)
    ensures UpsertAll(t, a + b) == UpsertAll(UpsertAll(t, a), b)
    decreases |b|
  {
    if b == [] {
      assert a + b == a;
    } else {
      var n := |b| - 1;
      assert (a + b)[..|a + b| - 1] == a + b[..n];
      UpsertAllAppend(t, a, b[..n]);
    }
  }

  /** Updating an overlay's top map is updating the overlay. */
  lemma OverlayUpdate(t: Table, b: Table, e: Edge)
    ensures (t + b)[e.id := e] == t + b[e.id := e]
  {
  }

  /** Merging the prefix `dump[..i]` and then the chunk `dump[i..j]` is
      merging the prefix `dump[..j]`. */
  lemma ChunkStep(t: Table, dump: seq<Edge>, i: nat, j: nat)
    requires i <= j <= |dump|
    ensures UpsertAll(UpsertAll(t, dump[..i]), dump[i..j]) == UpsertAll(t, dump[..j])
  {
    SliceJoin(dump, i, j);
    UpsertAllAppend(t, dump[..i], dump[i..j]);
  }

  /** A prefix followed by the next slice is the longer prefix. */
  lemma SliceJoin<T>(s: seq<T>, i: nat, j: nat)
    requires i <= j <= |s|
    ensures s[..i] + s[i..j] == s[..j]
  {
  }

  /** Merging a batch is overlaying the table with the batch merged into an empty table. */
  lemma {:induction false} UpsertAllOverlays(t: Table, es: seq<Edge>)
    ensures UpsertAll(t, es) == t + UpsertAll(map[], es)
    decreases |es|
  {
    if es == [] {
      assert t + map[] == t;
    } else {
      var n := |es| - 1;
      UpsertAllOverlays(t, es[..n]);
      OverlayUpdate(t, UpsertAll(map[], es[..n]), es[n]);
    }
  }

  /** `insert_edges` is idempotent: merging the same batch twice leaves the
      table as after merging it once. */
  lemma UpsertAllIdempotent(t: Table, es: seq<Edge>)
    ensures UpsertAll(UpsertAll(t, es), es) == UpsertAll(t, es)
  {
    var b := UpsertAll(map[], es);
    UpsertAllOverlays(t, es);
    UpsertAllOverlays(t + b, es);
    assert (t + b) + b == t + b;
  }

  /** Merging a batch grows the table by the batch's ids that were not yet stored. */
  lemma UpsertAllSize(t: Table, es: seq<Edge>)
    ensures |UpsertAll(t, es)| == |t| + |Ids(es) - t.Keys|
  {
    var r := UpsertAll(t, es);
    UpsertAllMerges(t, es);
    assert r.Keys == t.Keys + (Ids(es) - t.Keys);
    assert t.Keys !! (Ids(es) - t.Keys);
    assert |r.Keys| == |t.Keys| + |Ids(es) - t.Keys|;
  }

  /** After deleting the rows from `a` to `b`, `find_edge(a, b)` finds none,
      and the other rows are all still there. */
  lemma DeleteBetweenClearsPair(t: Table, a: Vertex, b: Vertex)
    ensures Between(DeleteBetween(t, a, b), a, b) == {}
    ensures FindEdge(DeleteBetween(t, a, b), a, b) == None
    ensures forall e :: e in t.Values && !(e.vFrom == a && e.vTo == b) ==> e in DeleteBetween(t, a, b).Values
  {
  }

  /** After deleting the rows touching `v`, no row touches `v` and `v` is no
      longer a vertex; every row not touching `v` is still there. */
  lemma DeleteTouchingClearsVertex(t: Table, v: Vertex)
    ensures EdgesRelated(DeleteTouching(t, v), v) == {}
    ensures v !in AllVertexes(DeleteTouching(t, v))
    ensures forall e :: e in t.Values && e !in EdgesRelated(t, v) ==> e in DeleteTouching(t, v).Values
  {
  }

  /** `remove_node` reports the rows it deletes: as many as `edges_related` returns. */
  lemma DeleteTouchingCount(t: Table, v: Vertex)
    requires WellKeyed(t)
    ensures |DeleteTouching(t, v)| == |t| - |EdgesRelated(t, v)|
  {
    var gone := KeysOf(t, EdgesRelated(t, v));
    SelectionCountsRows(t, EdgesRelated(t, v));
    var r := DeleteTouching(t, v);
    assert r.Keys == t.Keys - gone;
    assert gone <= t.Keys;
    assert t.Keys == r.Keys + gone;
    assert |t.Keys| == |r.Keys| + |gone|;
  }

  /** The REPLACE merge grows the primary table by the source ids it did not hold. */
  lemma MergeGrowth(primary: Table, source: Table)
    ensures |Merge(primary, source)| == |primary| + |source.Keys - primary.Keys|
  {
  }

  /** A bulk load (merge the dump, then REPLACE the staging rows in) grows the
      primary table by the ids of the dump or the staging table it did not
      hold; with an empty staging table, by the new ids of the dump. */
  lemma DumpNetIncrease(t: Table, staging: Table, dump: seq<Edge>)
    ensures |Merge(UpsertAll(t, dump), staging)| == |t| + |(Ids(dump) + staging.Keys) - t.Keys|
    ensures staging == map[] ==> |Merge(UpsertAll(t, dump), staging)| == |t| + |Ids(dump) - t.Keys|
  {
    var loaded := UpsertAll(t, dump);
    UpsertAllMerges(t, dump);
    MergeGrowth(loaded, staging);
    UpsertAllSize(t, dump);
    NewKeysSplit(t.Keys, Ids(dump), staging.Keys);
  }

  /** The keys new to `stored` among `added + later` are those new among
      `added`, plus those of `later` new to both. */
  lemma NewKeysSplit(stored: set<Id>, added: set<Id>, later: set<Id>)
    ensures |(added + later) - stored| == |added - stored| + |later - (stored + added)|
  {
    var a, b := added - stored, later - (stored + added);
    assert (added + later) - stored == a + b;
    assert a !! b;
  }

  /** A dump holding an id the primary table lacks grows it: a loader that
      commits the dump and then reports 0 under-reports. */
  lemma DumpAsWrittenUnderreports(t: Table, dump: seq<Edge>)
    requires exists i :: 0 <= i < |dump| && dump[i].id !in t
    ensures |UpsertAll(t, dump)| > |t|
  {
    var i :| 0 <= i < |dump| && dump[i].id !in t;
    UpsertAllSize(t, dump);
    assert dump[i].id in Ids(dump) - t.Keys;
  }

  /** The rows (1,2), (2,3), (3,4): the frontier of the group {2, 3} is {1, 4}. */
  lemma FrontierOfPath()
    ensures Frontier(map[10 := Edge(10, 1, 2, 1.0, ""), 11 := Edge(11, 2, 3, 1.0, ""),
                         12 := Edge(12, 3, 4, 1.0, "")], [2, 3]) == {1, 4}
  {
    var e1, e2, e3 := Edge(10, 1, 2, 1.0, ""), Edge(11, 2, 3, 1.0, ""), Edge(12, 3, 4, 1.0, "");
    var t := map[10 := e1, 11 := e2, 12 := e3];
    assert t.Values == {e1, e2, e3} by {
      assert t[10] == e1 && t[11] == e2 && t[12] == e3;
    }
    var r := Frontier(t, [2, 3]);
    assert 1 in r by { assert e1 in t.Values; }
    assert 4 in r by { assert e3 in t.Values; }
  }

  /** Three rows leave vertex 1, weighing 1.0, 2.5 and 0.5: `count_following(1)`
      is (3, 4.0). */
  lemma FollowingOfThree()
    ensures CountFollowing(map[1 := Edge(1, 1, 2, 1.0, ""), 2 := Edge(2, 1, 3, 2.5, ""),
                               3 := Edge(3, 1, 4, 0.5, "")], 1) == Aggregate(3, Some(4.0))
  {
    var e1, e2, e3 := Edge(1, 1, 2, 1.0, ""), Edge(2, 1, 3, 2.5, ""), Edge(3, 1, 4, 0.5, "");
    var t := map[1 := e1, 2 := e2, 3 := e3];
    assert t.Values == {e1, e2, e3} by {
      assert t[1] == e1 && t[2] == e2 && t[3] == e3;
    }
    var s := EdgesFrom(t, 1);
    assert s == {e1, e2, e3};
    WeightSumRemove(s, e1);
    assert s - {e1} == {e2, e3};
    WeightSumRemove({e2, e3}, e2);
    assert {e2, e3} - {e2} == {e3};
    WeightSumRemove({e3}, e3);
    assert {e3} - {e3} == {};
  }
}
