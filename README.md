# PlainSQL edge store, modelled in Dafny

This project models `PlainSQL` from `pygraphdb/table_sql.py`: a directed, weighted graph kept as rows of
a relational table. An edge row has a primary key `_id`, a source `v_from`, a target `v_to`, a `weight` and
an opaque attribute payload. Vertices have no table of their own: a vertex exists while some row names it.
Two tables have this shape: the primary table `table_edges` and the unindexed staging table `new_edges`.

The SQL layer is abstracted away. Each table is a map from `_id` to the row stored under it.

- `edge_table.dfy`, module `EdgeTable`, holds the data model (`Edge`, `Table`), the read queries as
  functions over the primary table, the map updates performed by the mutations, and the lemmas about them.
  Queries that return a list of rows return a set of rows here: SQL gives such a list no order, and each row
  carries its own `_id`. `SelectionCountsRows` proves that in a table whose rows sit under their own key
  (`WellKeyed`), the number of such rows equals the number of table rows.
- `plain_sql.dfy`, module `GraphStore`, holds the class `PlainSql`. Its fields `edges` and `staging` are the
  two tables. Its methods perform the mutations in place, and each method's `ensures` gives the new content
  of both tables in terms of the old one. `NodesRelatedToGroup` runs the source's loop over the query
  result. `InsertDump` runs the source's chunk loop.

Failure of a database commit comes from outside the program. It is a `committed` parameter of the three
operations that catch it (`insert_edges`, `remove_node`, `remove_all`). The failure outcome is the one the
code returns: 0 from the first two, nothing (`None`) from `remove_all`.

Three places where the source's own statements and its code part ways; the model follows the code:

- The `insert_dump` docstring (`pygraphdb/table_sql.py:228-234`) says the chunks fill an unindexed table that
  is then merged into the main one. The code at `pygraphdb/table_sql.py:240-241` sends each chunk through
  `insert_edges`, which converts it to primary-table rows, so the chunks go straight into `table_edges`.
- `insert_edges` catches a failed commit and returns 0 without rolling the session back
  (`pygraphdb/table_sql.py:199-203`).
- `remove_all` is annotated `-> int` (`pygraphdb/table_sql.py:217`) but returns `None` on failure
  (`pygraphdb/table_sql.py:224-225`).

## Model

| member | source | states |
|---|---|---|
| `EdgeTable.FindEdge` | pygraphdb/table_sql.py:97-101 | none exactly when no primary row goes from `a` to `b`; otherwise a row of the table going from `a` to `b` (which one, among several, is left open) |
| `EdgeTable.FindEdgeOrInv` | pygraphdb/table_sql.py:103-113 | exactly the stored rows whose endpoint pair is `{a, b}`, in either direction |
| `EdgeTable.FindEdgeOrInvBothDirections` | pygraphdb/table_sql.py:103-113 | `find_edge_or_inv(a, b)` is the rows `a`→`b` together with the rows `b`→`a`; it is symmetric in `a` and `b`; it holds what `find_edge(a, b)` finds; it is empty exactly when `find_edge` finds nothing in either direction |
| `EdgeTable.DirectedDistinct` | pygraphdb/table_sql.py:97-113 | with one edge `a`→`b` (`a != b`) stored, `find_edge(a, b)` returns it, `find_edge(b, a)` returns none, `find_edge_or_inv(a, b)` returns exactly that edge |
| `EdgeTable.EdgesFrom` | pygraphdb/table_sql.py:115-116 | only stored rows with `v_from == v`, and every row stored with `v_from == v` |
| `EdgeTable.EdgesTo` | pygraphdb/table_sql.py:118-119 | only stored rows with `v_to == v`, and every row stored with `v_to == v` |
| `EdgeTable.EdgesRelated` | pygraphdb/table_sql.py:121-125 | only stored rows with `v` as an endpoint, and every row stored with `v` as an endpoint |
| `EdgeTable.RelatedIsFromOrTo` | pygraphdb/table_sql.py:115-125 | `edges_related(v)` is the union of `edges_from(v)` and `edges_to(v)`; the two overlap exactly in the self-loops at `v`, so a self-loop is counted once |
| `EdgeTable.AllVertexes` | pygraphdb/table_sql.py:127-130 | `v` is a vertex exactly when some row has `v` as source or as target |
| `EdgeTable.VertexIffRelated` | pygraphdb/table_sql.py:121-130 | `v` is in `all_vertexes()` exactly when `edges_related(v)` is non-empty |
| `EdgeTable.CountNodesZeroIffEmpty` | pygraphdb/table_sql.py:149-150 | `count_nodes()`, the size of `all_vertexes()`, is zero exactly when the table is empty |
| `EdgeTable.CountEdgesCountsRows` | pygraphdb/table_sql.py:152-153 | `count_edges()`, the number of rows, equals the number of distinct rows when every row sits under its own `_id` |
| `EdgeTable.CountRelated` | pygraphdb/table_sql.py:155-162 | the count is 0 exactly when no row has `v` as an endpoint; the sum is NULL exactly then, and otherwise the sum of the weights of `edges_related(v)` |
| `EdgeTable.CountFollowers` | pygraphdb/table_sql.py:164-168 | the count is 0 exactly when no row has `v_to == v`; the sum is NULL exactly then, and otherwise the sum of the weights of `edges_to(v)` |
| `EdgeTable.CountFollowing` | pygraphdb/table_sql.py:170-174 | the count is 0 exactly when no row has `v_from == v`; the sum is NULL exactly then, and otherwise the sum of the weights of `edges_from(v)` |
| `EdgeTable.CountsAreRowCounts` | pygraphdb/table_sql.py:155-174 | the count of `count_following`, `count_followers` and `count_related` is the number of table rows with `v` as source, as target, or as either; the sum is NULL exactly when that count is 0 |
| `EdgeTable.CountRelatedSplit` | pygraphdb/table_sql.py:155-174 | `count_related(v)` equals `count_following(v)` plus `count_followers(v)` minus the self-loops at `v`, both in count and in weight sum |
| `EdgeTable.FollowingOfThree` | pygraphdb/table_sql.py:170-174 | rows leaving vertex 1 with weights 1.0, 2.5 and 0.5 give `count_following(1) == (3, 4.0)` |
| `EdgeTable.Frontier` | pygraphdb/table_sql.py:134-145 | the frontier of a group is every vertex outside the group that a row joins, in either direction, to a vertex inside it; it is disjoint from the group |
| `EdgeTable.EdgesTouchingGroup` | pygraphdb/table_sql.py:135-138 | only stored rows with an endpoint in the group, and every row stored with an endpoint in the group |
| `GraphStore.PlainSql.NodesRelatedToGroup` | pygraphdb/table_sql.py:134-145 | the loop over the rows touching the group returns exactly the frontier, which never meets the group |
| `EdgeTable.FrontierOfPath` | pygraphdb/table_sql.py:134-145 | for the rows (1,2), (2,3), (3,4), the frontier of the group {2, 3} is {1, 4} |
| `EdgeTable.Upsert` | pygraphdb/table_sql.py:178-181 | merging a row by `_id`: afterwards its id holds it, every other id keeps its row, and rows stay under their own ids |
| `EdgeTable.UpsertSameIdOverrides` | pygraphdb/table_sql.py:178-181 | inserting a row and then a row with the same `_id` (the same row or a newer one) leaves the table as one insert of the later row would, with no extra row |
| `GraphStore.PlainSql.InsertEdge` | pygraphdb/table_sql.py:178-181 | the primary table becomes the old one with the row merged in; the staging table is unchanged |
| `EdgeTable.UpsertAll` | pygraphdb/table_sql.py:196-198 | merging each row of the batch in turn leaves the table's ids plus the batch's ids |
| `EdgeTable.UpsertAllMerges` | pygraphdb/table_sql.py:195-198 | merging a batch adds the batch's ids; each id of the batch holds the batch's last row with that id; every other row is unchanged; rows stay under their own ids |
| `EdgeTable.UpsertAllIdempotent` | pygraphdb/table_sql.py:195-198 | merging the same batch twice leaves the table as merging it once |
| `EdgeTable.UpsertAllSize` | pygraphdb/table_sql.py:195-198 | merging a batch grows the table by the number of batch ids it did not hold |
| `GraphStore.PlainSql.InsertEdges` | pygraphdb/table_sql.py:195-203 | after a successful commit the primary table is the old one with the batch merged in, and `len(es)` is returned; after a failed commit both tables are unchanged and 0 is returned |
| `EdgeTable.DeleteBetween` | pygraphdb/table_sql.py:189-192 | the rows from `a` to `b` are removed; every other row stays under its id |
| `EdgeTable.DeleteBetweenClearsPair` | pygraphdb/table_sql.py:189-192 | after deletion by endpoints, `find_edge(a, b)` finds none and every row not from `a` to `b` is still stored |
| `GraphStore.PlainSql.RemoveEdge` | pygraphdb/table_sql.py:183-193 | a request carrying `_id` removes the row under that id; one without removes every row from its `v_from` to its `v_to`; the staging table is unchanged |
| `EdgeTable.DeleteTouching` | pygraphdb/table_sql.py:207-210 | the rows with `v` as either endpoint are removed; every other row stays under its id |
| `EdgeTable.DeleteTouchingClearsVertex` | pygraphdb/table_sql.py:205-212 | afterwards `edges_related(v)` is empty and `v` is no longer a vertex; every row not touching `v` is still stored |
| `EdgeTable.DeleteTouchingCount` | pygraphdb/table_sql.py:205-212 | the number of rows removed is the size of `edges_related(v)` before the removal |
| `GraphStore.PlainSql.RemoveNode` | pygraphdb/table_sql.py:205-215 | after a successful commit the rows touching `v` are gone, their number is returned, and `edges_related(v)` is empty; after a failed one the tables are unchanged and 0 is returned |
| `GraphStore.PlainSql.RemoveAll` | pygraphdb/table_sql.py:217-225 | after a successful commit both tables are empty, `count_edges()` is 0, `all_vertexes()` is empty, and the sum of the two old sizes is returned; after a failed one nothing changes and nothing is returned |
| `EdgeTable.Merge` | pygraphdb/table_sql.py:254-257 | `REPLACE INTO` from the source: every source row replaces or adds the row under its id; other primary rows are unchanged |
| `EdgeTable.MergeGrowth` | pygraphdb/table_sql.py:254-257 | the merge grows the primary table by the number of source ids it did not hold |
| `GraphStore.PlainSql.InsertTable` | pygraphdb/table_sql.py:252-268 | the primary table becomes the REPLACE merge of the staging table into it; the staging table is unchanged |
| `GraphStore.PlainSql.FlushTemporaryTable` | pygraphdb/table_sql.py:282-284 | the staging table is empty; the primary table is unchanged |
| `EdgeTable.UpsertAllAppend` | pygraphdb/table_sql.py:238-241 | merging one batch and then another is merging their concatenation |
| `EdgeTable.ChunkStep` | pygraphdb/table_sql.py:238-241 | merging the prefix of a dump up to one chunk boundary and then the next chunk is merging the prefix up to the next boundary |
| `GraphStore.PlainSql.LoadChunks` | pygraphdb/table_sql.py:236-242 | feeding the dump through `insert_edges` in chunks of at most 5000 rows merges the whole dump into the primary table and leaves the staging table alone |
| `GraphStore.PlainSql.InsertDump` | pygraphdb/table_sql.py:235-246 | the primary table becomes the dump merged in, then the staging rows REPLACE-merged in; the staging table ends empty; the result is the growth of `count_edges()`, which is the number of ids of the dump or of the staging table that were not stored before |
| `EdgeTable.DumpNetIncrease` | pygraphdb/table_sql.py:235-246 | a bulk load grows the primary table by the ids of the dump or of the staging table it did not hold; with an empty staging table, by the new ids of the dump |
| `GraphStore.PlainSql.InsertDumpAsWritten` | pygraphdb/table_sql.py:244-250 | as written: the dump is merged into the primary table, the staging table is left as it was, and 0 is returned |
| `EdgeTable.DumpAsWrittenUnderreports` | pygraphdb/table_sql.py:244-250 | a dump holding an id the primary table lacks grows it, so a returned 0 under-reports the load |
| `GraphStore.PlainSql.constructor` | pygraphdb/table_sql.py:85-93 | a new in-memory database has both tables empty |

## Left out

- Engine, session and database creation (`pygraphdb/table_sql.py:85-93`) and the declarative ORM classes: the tables are maps. The constructor models a fresh database only. Reopening an existing one is not modelled.
- `NodeSQL` (`pygraphdb/table_sql.py:19-25`): no operation uses it.
- `_to_sql` (`pygraphdb/table_sql.py:286-289`): inputs are taken as table rows with their ids already set, so the conversion is the identity. Building a row from a record goes through `Edge.__init__`, which is not part of this model; that is where ids are assigned. The choice of target table (`e_type`) shows up as which map a method writes.
- The attribute payload is carried along verbatim and never inspected. Weights are `real`: floating-point rounding is not modelled, and neither are NULL weights, which `COUNT(weight)` would skip.
- `insert_edge` and `remove_edge` have no exception handler, so their failures propagate to the caller. The model lets them always commit.
- `InsertEdges`: after a failed commit the session is not rolled back and keeps the merged rows pending. Only the stored tables are modelled, and they are unchanged.
- `InsertDump`: models the run in which every chunk commit succeeds. Reading and parsing the dump file (`yield_edges_from`, `chunks`) is not part of this model: the dump is a given sequence of rows, cut into consecutive chunks of at most 5000 rows. The `print` in the handler is left out.
- `insert_table` takes a source table name, but the only caller passes `new_edges`, so the model merges from the staging table. Its `@abstractmethod` marker is not modelled.
- `insert_bulk_deduplicated` (`pygraphdb/table_sql.py:270-280`): it passes the undefined name `es_filtered`, so it has no behaviour to model.
- `all_vertexes` returns one-column result rows rather than bare integers. The model returns the vertex values; the set has the same size.
- Which row `find_edge` picks among several matches is up to the engine; the model leaves it unspecified.
- The 64-bit range of ids and vertices is a type bound (`Int64`); id assignment and overflow are not modelled.
- `pygraphdb/table_sqlite.py`: SQLite pragma tuning applied when `count_edges()` is 0, plus two subclasses. It is configuration only.
- Concurrency and transactions across store instances are left to the database engine.

## Findings

| source | as written | input that shows it | evidently intended | confidence | as-written member | corrected member |
|---|---|---|---|---|---|---|
| pygraphdb/table_sql.py:267 | `insert_table` builds its REPLACE statement in `migration` but executes the undefined name `step`, so it always raises `NameError`. `insert_dump` catches that after `insert_edges` has committed every chunk, rolls back an empty transaction, leaves the staging table unmerged and unflushed, and returns 0. | one row with `_id` 1 loaded into an empty store: the primary table grows by one row, yet `insert_dump` returns 0 (`DumpAsWrittenUnderreports`) | execute `migration`: merge the staging table, flush it, and return the growth of `count_edges()` (`DumpNetIncrease`) | high; not executed | `GraphStore.PlainSql.InsertDumpAsWritten` | `GraphStore.PlainSql.InsertDump` |
