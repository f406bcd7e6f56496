/*
 * The SQL graph store `PlainSQL`: a session over two tables, the primary
 * `table_edges` and the unindexed staging table `new_edges`, both keyed by
 * `_id`. Each mutation is a method that changes the two maps exactly as the
 * functions of module EdgeTable say; the read queries are those functions
 * applied to `edges`.
 */
module GraphStore {
  import opened EdgeTable

  /** Rows per chunk when a dump is loaded. */
  const MaxBatchSize: nat := 5000

  /** The argument of `remove_edge`: a record that may carry `_id`. */
  datatype RemoveRequest = RemoveRequest(id: Option<Id>, vFrom: Vertex, vTo: Vertex)

  /** One row of the loop of `nodes_related_to_group` adds `u` to the result:
      its source when that lies outside the group, else its target when that does. */
  predicate Contributes(e: Edge, vs: seq<Vertex>, u: Vertex) {
    if e.vFrom !in vs then u == e.vFrom else e.vTo !in vs && u == e.vTo
  }

  class PlainSql {
    /** The primary table `table_edges`. */
    var edges: Table
    /** The staging table `new_edges`. */
    var staging: Table

    ghost predicate Valid()
      reads this
    {
      WellKeyed(edges) && WellKeyed(staging)
    }

    /** Opens a fresh database: both tables are created empty. */
    constructor ()
      ensures Valid()
      ensures edges == map[] && staging == map[]
    {
      edges := map[];
      staging := map[];
    }

    /** `nodes_related_to_group`: one query for the rows touching the group,
        then a local pass that keeps the endpoint lying outside the group. */
    method NodesRelatedToGroup(vs: seq<Vertex>) returns (result: set<Vertex>)
      ensures result == Frontier(edges, vs)
      ensures forall u :: u in result ==> u !in vs
    {
      var rows := EdgesTouchingGroup(edges, vs);
      result := {};
      var todo := rows;
      while todo != {}
        invariant todo <= rows
        invariant forall u :: u in result <==> exists e :: e in rows - todo && Contributes(e, vs, u)
        decreases todo
      {
        var e :| e in todo;
        ghost var done, seen := rows - todo, result;
        if e.vFrom !in vs {
          result := result + {e.vFrom};
        } else if e.vTo !in vs {
          result := result + {e.vTo};
        }
        todo := todo - {e};
        assert rows - todo == done + {e};
        forall u ensures u in result <==> exists e' :: e' in done + {e} && Contributes(e', vs, u) {
          assert u in result <==> u in seen || Contributes(e, vs, u);
        }
      }
      assert rows - todo == rows;
      forall u ensures u in result <==> u in Frontier(edges, vs) {
        if u in Frontier(edges, vs) {
          var e :| e in edges.Values && ((e.vFrom == u && e.vTo in vs) || (e.vTo == u && e.vFrom in vs));
          assert e in rows && Contributes(e, vs, u);
        }
      }
    }

    /** `insert_edge`: merges one row by `_id` and commits. */
    method InsertEdge(e: Edge)
      requires Valid()
      modifies this
      ensures Valid()
      ensures edges == Upsert(old(edges), e)
      ensures staging == old(staging)
    {
      edges := Upsert(edges, e);
    }

    /** `insert_edges`: merges each row in turn, then commits. `committed` is
        the database's verdict on the commit; on failure nothing is stored
        and 0 is reported. */
    method InsertEdges(es: seq<Edge>, committed: bool) returns (n: nat)
      requires Valid()
      modifies this
      ensures Valid()
      ensures committed ==> edges == UpsertAll(old(edges), es) && n == |es|
      ensures !committed ==> edges == old(edges) && n == 0
      ensures staging == old(staging)
    {
      var pending := edges;
      for i := 0 to |es|
        invariant pending == UpsertAll(edges, es[..i])
      {
        assert es[..i + 1][..i] == es[..i];
        pending := Upsert(pending, es[i]);
      }
      assert es[..|es|] == es;
      UpsertAllMerges(edges, es);
      if committed {
        edges := pending;
        n := |es|;
      } else {
        n := 0;
      }
    }

    /** `remove_edge`: deletes the row under the request's `_id` when it
        carries one, else every row from its `v_from` to its `v_to`. */
    method RemoveEdge(req: RemoveRequest)
      requires Valid()
      modifies this
      ensures Valid()
      ensures req.id.Some? ==> edges == old(edges) - {req.id.value}
      ensures req.id.None? ==> edges == DeleteBetween(old(edges), req.vFrom, req.vTo)
      ensures staging == old(staging)
    {
      match req.id
      case Some(id) =>
        edges := edges - {id};
      case None =>
        edges := DeleteBetween(edges, req.vFrom, req.vTo);
    }

    /** `remove_node`: deletes every row touching `v` and reports how many;
        a failed commit is rolled back and reports 0. */
    method RemoveNode(v: Vertex, committed: bool) returns (count: nat)
      requires Valid()
      modifies this
      ensures Valid()
      ensures committed ==> edges == DeleteTouching(old(edges), v)
      ensures committed ==> count == |EdgesRelated(old(edges), v)| == |old(edges)| - |edges|
      ensures committed ==> EdgesRelated(edges, v) == {}
      ensures !committed ==> edges == old(edges) && count == 0
      ensures staging == old(staging)
    {
      if committed {
        DeleteTouchingCount(edges, v);
        DeleteTouchingClearsVertex(edges, v);
        count := |EdgesRelated(edges, v)|;
        edges := DeleteTouching(edges, v);
      } else {
        count := 0;
      }
    }

    /** `remove_all`: empties both tables and reports the rows removed; a
        failed commit is rolled back and reports nothing. */
    method RemoveAll(committed: bool) returns (count: Option<nat>)
      requires Valid()
      modifies this
      ensures Valid()
      ensures committed ==> edges == map[] && staging == map[]
      ensures committed ==> count == Some(|old(edges)| + |old(staging)|)
      ensures committed ==> CountEdges(edges) == 0 && AllVertexes(edges) == {}
      ensures !committed ==> edges == old(edges) && staging == old(staging) && count == None
    {
      if committed {
        count := Some(|edges| + |staging|);
        edges, staging := map[], map[];
      } else {
        count := None;
      }
    }

    /** `insert_table`, running its `REPLACE INTO table_edges SELECT * FROM new_edges`. */
    method InsertTable()
      requires Valid()
      modifies this
      ensures Valid()
      ensures edges == Merge(old(edges), old(staging))
      ensures |edges| == |old(edges)| + |old(staging).Keys - old(edges).Keys|
      ensures staging == old(staging)
    {
      MergeGrowth(edges, staging);
      edges := Merge(edges, staging);
    }

    /** `flush_temporary_table`: empties the staging table. */
    method FlushTemporaryTable()
      requires Valid()
      modifies this
      ensures Valid()
      ensures staging == map[]
      ensures edges == old(edges)
    {
      staging := map[];
    }

    /** The chunk loop of `insert_dump`: each chunk of at most `MaxBatchSize`
        rows goes through `insert_edges`, which writes the primary table. */
    method LoadChunks(dump: seq<Edge>)
      requires Valid()
      modifies this
      ensures Valid()
      ensures edges == UpsertAll(old(edges), dump)
      ensures staging == old(staging)
    {
      ghost var start := edges;
      var i := 0;
      while i < |dump|
        invariant i <= |dump|
        invariant Valid()
        invariant edges == UpsertAll(start, dump[..i])
        invariant staging == old(staging)
      {
        var j := if |dump| - i <= MaxBatchSize then |dump| else i + MaxBatchSize;
        var chunk := dump[i..j];
        var loaded := InsertEdges(chunk, true);
        ChunkStep(start, dump, i, j);
        i := j;
      }
      assert dump[..i] == dump;
    }

    /** `insert_dump` with the merge step running its REPLACE statement:
        load the chunks, merge the staging table in, flush it, and report the
        growth of `count_edges`. */
    method InsertDump(dump: seq<Edge>) returns (added: int)
      requires Valid()
      modifies this
      ensures Valid()
      ensures edges == Merge(UpsertAll(old(edges), dump), old(staging))
      ensures staging == map[]
      ensures added == CountEdges(edges) - CountEdges(old(edges))
      ensures added == |(Ids(dump) + old(staging).Keys) - old(edges).Keys|
    {
      var before := CountEdges(edges);
      DumpNetIncrease(edges, staging, dump);
      LoadChunks(dump);
      InsertTable();
      FlushTemporaryTable();
      added := CountEdges(edges) - before;
    }

    /** `insert_dump` as written: the chunks are committed by `insert_edges`,
        then the merge step raises (it executes an undefined name), the
        handler rolls back an empty transaction and reports 0; the staging
        table is neither merged nor flushed. */
    method InsertDumpAsWritten(dump: seq<Edge>) returns (added: int)
      requires Valid()
      modifies this
      ensures Valid()
      ensures edges == UpsertAll(old(edges), dump)
      ensures staging == old(staging)
      ensures added == 0
    {
      LoadChunks(dump);
      added := 0;
    }
  }
}
