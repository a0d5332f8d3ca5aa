/**
 * Specification of the local replica held by the IndexedDB database of
 * sync_db.js: a map from object-store name to an id-keyed table, and the
 * log of change notifications dispatched to the document.
 */
module Replica {
  import opened Wrappers
  import opened JsValues

  /** One object store: key to stored record. */
  type Table = map<Value, Record>

  /** Every object store of the database, by name. */
  type Stores = map<string, Table>

  datatype DbError =
    | NotOpen                    // `this.db` is null (or its upgrade was aborted)
    | NotFound(table: string)    // the transaction names an object store that does not exist
    | DataError(table: string)   // the record's `id` (or the id to delete) is not a valid key
    | ConstraintError(table: string) // `createObjectStore` on a name that already exists

  /** Which of the two upserting entry points stored the record. */
  datatype Change = Insert | Update

  /** A `CustomEvent` dispatched on the document after a successful write. */
  datatype Event =
    | Inserted(table: string, detail: Record)
    | Updated(table: string, detail: Record)
    | Deleted(table: string)   // its detail is the delete request's result, which is undefined
  {
    function Name(): string
    {
      match this
      case Inserted(t, _) => t + ":inserted"
      case Updated(t, _) => t + ":updated"
      case Deleted(t) => t + ":deleted"
    }
  }

  /** The database handle (None while `this.db` is null) and every notification so far. */
  datatype DbState = DbState(db: Option<Stores>, log: seq<Event>)

  /** One server operation of a commit or of the snapshot: `{op, data, schema, table}`. */
  datatype Op = Op(op: string, data: Record, schema: Value, table: string)

  /** Every record of the store is stored under its own `id`, and that id is a valid key. */
  ghost predicate KeyedById(tbl: Table)
  {
    forall k :: k in tbl ==> ValidKey(k) && Id(tbl[k]) == k
  }

  /** Every object store is keyed by `id`. */
  ghost predicate WellKeyed(s: Stores)
  {
    forall t :: t in s ==> KeyedById(s[t])
  }

  /** The stored record of `table` with key `k`, if any. */
  function Lookup(tbl: Table, k: Value): Option<Record>
  {
    if k in tbl then Some(tbl[k]) else None
  }

  /** `objectStore.put(record)` in a readwrite transaction on `table`, then its notification. */
  function Put(r: DbState, table: string, rec: Record, change: Change): (res: Result<DbState, DbError>)
    ensures res.Ok? <==> r.db.Some? && table in r.db.value && ValidKey(Id(rec))
  {
    match r.db
    case None => Err(NotOpen)
    case Some(s) =>
      if table !in s then Err(NotFound(table))
      else if !ValidKey(Id(rec)) then Err(DataError(table))
      else
        var event := if change == Insert then Inserted(table, rec) else Updated(table, rec);
        Ok(DbState(Some(s[table := s[table][Id(rec) := rec]]), r.log + [event]))
  }

  /** `objectStore.delete(id)` in a readwrite transaction on `table`, then its notification. */
  function Delete(r: DbState, table: string, id: Value): (res: Result<DbState, DbError>)
    ensures res.Ok? <==> r.db.Some? && table in r.db.value && ValidKey(id)
  {
    match r.db
    case None => Err(NotOpen)
    case Some(s) =>
      if table !in s then Err(NotFound(table))
      else if !ValidKey(id) then Err(DataError(table))
      else Ok(DbState(Some(s[table := s[table] - {id}]), r.log + [Deleted(table)]))
  }

  /** A rejected write leaves the replica as it was: nobody awaits the promise. */
  function Settle(res: Result<DbState, DbError>, before: DbState): DbState
  {
    if res.Ok? then res.value else before
  }

  /** One op of `handleCommit`: insert, update or delete; any other `op` does nothing. */
  function Apply(r: DbState, o: Op): (r': DbState)
    ensures !Known(o) ==> r' == r
    ensures r.log <= r'.log && |r'.log| <= |r.log| + 1
    ensures r'.db.Some? == r.db.Some?
    ensures r.db.Some? ==> r'.db.value.Keys == r.db.value.Keys
    ensures r.db.Some? && WellKeyed(r.db.value) ==> WellKeyed(r'.db.value)
  {
    if o.op == "insert" then Settle(Put(r, o.table, o.data, Insert), r)
    else if o.op == "update" then Settle(Put(r, o.table, o.data, Update), r)
    else if o.op == "delete" then Settle(Delete(r, o.table, Id(o.data)), r)
    else r
  }

  /** The ops applied one after the other, in list order. */
  function ApplyAll(r: DbState, ops: seq<Op>): (r': DbState)
    ensures r.log <= r'.log
    ensures r'.db.Some? == r.db.Some?
    ensures r.db.Some? ==> r'.db.value.Keys == r.db.value.Keys
    ensures r.db.Some? && WellKeyed(r.db.value) ==> WellKeyed(r'.db.value)
    decreases |ops|
  {
    if ops == [] then r else Apply(ApplyAll(r, ops[..|ops| - 1]), ops[|ops| - 1])
  }

  /** The `op` values `handleCommit` acts on. */
  predicate Known(o: Op)
  {
    o.op == "insert" || o.op == "update" || o.op == "delete"
  }

  /** The ops with an `op` that `handleCommit` acts on, in their original order. */
  function KnownOps(ops: seq<Op>): seq<Op>
    decreases |ops|
  {
    if ops == [] then []
    else KnownOps(ops[..|ops| - 1]) + (if Known(ops[|ops| - 1]) then [ops[|ops| - 1]] else [])
  }

  /** The same ops with every `schema` field replaced. */
  function WithSchema(ops: seq<Op>, schema: Value): (r: seq<Op>)
    ensures |r| == |ops|
    ensures forall i :: 0 <= i < |ops| ==> r[i] == ops[i].(schema := schema)
  {
    seq(|ops|, i requires 0 <= i < |ops| => ops[i].(schema := schema))
  }

  /** Whether op `o` writes or deletes the row with key `k` of `table`. */
  predicate Touches(o: Op, table: string, k: Value)
  {
    Known(o) && o.table == table && Id(o.data) == k
  }

  /** What op `o` leaves in the row it touches: the record, or nothing for a delete. */
  function Effect(o: Op): Option<Record>
  {
    if o.op == "delete" then None else Some(o.data)
  }

  /** The effect of the last op in `ops` that touches row `k` of `table`, if one does. */
  function LastTouch(ops: seq<Op>, table: string, k: Value): Option<Option<Record>>
    decreases |ops|
  {
    if ops == [] then None
    else if Touches(ops[|ops| - 1], table, k) then Some(Effect(ops[|ops| - 1]))
    else LastTouch(ops[..|ops| - 1], table, k)
  }

  /** The number of ops in `ops` that succeed while the stores named `tables` exist. */
  function Succeeding(ops: seq<Op>, tables: set<string>): nat
    decreases |ops|
  {
    if ops == [] then 0
    else
      var o := ops[|ops| - 1];
      Succeeding(ops[..|ops| - 1], tables) + (if Known(o) && o.table in tables && ValidKey(Id(o.data)) then 1 else 0)
  }

  /** The number of rows in a sync reply. */
  function RowCount(data: seq<(string, seq<Record>)>): nat
    decreases |data|
  {
    if data == [] then 0 else RowCount(data[..|data| - 1]) + |data[|data| - 1].1|
  }

  /** The snapshot rows of a sync reply, as the inserts the reply handler performs, in order. */
  function SyncOps(data: seq<(string, seq<Record>)>): (r: seq<Op>)
    ensures |r| == RowCount(data)
    ensures forall o :: o in r ==> o.op == "insert"
    decreases |data|
  {
    if data == [] then []
    else SyncOps(data[..|data| - 1]) + InsertOps(data[|data| - 1].0, data[|data| - 1].1)
  }

  /** `rows.forEach(row => this.insert(table, row))` as ops. */
  function InsertOps(table: string, rows: seq<Record>): (r: seq<Op>)
    ensures |r| == |rows|
    ensures forall i :: 0 <= i < |rows| ==> r[i] == Op("insert", rows[i], Undefined, table)
  {
    seq(|rows|, i requires 0 <= i < |rows| => Op("insert", rows[i], Undefined, table))
  }

  /** `onupgradeneeded`: `createObjectStore(name, {keyPath: "id"})` for each name, in order. */
  function CreateStores(s: Stores, names: seq<string>): (r: Result<Stores, DbError>)
    ensures r.Ok? ==> forall t :: t in s ==> t in r.value && r.value[t] == s[t]
    ensures r.Ok? ==> forall i :: 0 <= i < |names| ==> names[i] in r.value && r.value[names[i]] == map[]
    ensures r.Err? ==> r.error.ConstraintError? && r.error.table in names
    decreases |names|
  {
    if names == [] then Ok(s)
    else
      var last := names[|names| - 1];
      match CreateStores(s, names[..|names| - 1])
      case Err(e) => Err(e)
      case Ok(c) => if last in c then Err(ConstraintError(last)) else Ok(c[last := map[]])
  }

  predicate Distinct(names: seq<string>)
  {
    forall i, j :: 0 <= i < j < |names| ==> names[i] != names[j]
  }

  /** The ids of `rows`. */
  function IdSet(rows: seq<Record>): (r: set<Value>)
    ensures forall i :: 0 <= i < |rows| ==> Id(rows[i]) in r
    ensures forall k :: k in r ==> exists i :: 0 <= i < |rows| && Id(rows[i]) == k
    decreases |rows|
  {
    if rows == [] then {}
    else
      var init := rows[..|rows| - 1];
      assert forall i :: 0 <= i < |init| ==> init[i] == rows[i];
      IdSet(init) + {Id(rows[|rows| - 1])}
  }

  /** `getAll()`: every stored record exactly once, in ascending key order. */
  ghost predicate Listing(tbl: Table, rows: seq<Record>)
  {
    && (forall i :: 0 <= i < |rows| ==> Id(rows[i]) in tbl && tbl[Id(rows[i])] == rows[i])
    && IdSet(rows) == tbl.Keys
    && (forall i, j :: 0 <= i < j < |rows| ==> KeyBelow(Id(rows[i]), Id(rows[j])))
  }

  // ---------------------------------------------------------------------
  // Upsert and delete on one row

  /** Putting stores the record under its id, notifies once, and changes no other row or store. */
  lemma PutUpserts(r: DbState, table: string, rec: Record, change: Change)
    requires Put(r, table, rec, change).Ok?
    ensures var s, s' := r.db.value, Put(r, table, rec, change).value.db.value;
      && s'.Keys == s.Keys
      && s'[table].Keys == s[table].Keys + {Id(rec)}
      && s'[table][Id(rec)] == rec
      && (forall k :: k in s[table] && k != Id(rec) ==> s'[table][k] == s[table][k])
      && (forall t :: t in s && t != table ==> s'[t] == s[t])
    ensures Put(r, table, rec, change).value.log
      == r.log + [if change == Insert then Inserted(table, rec) else Updated(table, rec)]
    ensures var e := Put(r, table, rec, change).value.log[|r.log|];
      e.Name() == table + (if change == Insert then ":inserted" else ":updated")
  {
  }

  /** Putting a record whose id is already stored replaces that row: the store does not grow. */
  lemma PutExistingReplaces(r: DbState, table: string, rec: Record, change: Change)
    requires Put(r, table, rec, change).Ok?
    requires Id(rec) in r.db.value[table]
    ensures |Put(r, table, rec, change).value.db.value[table]| == |r.db.value[table]|
  {
    assert Put(r, table, rec, change).value.db.value[table].Keys == r.db.value[table].Keys;
  }

  /** Putting the same record twice leaves the stores as putting it once: one row, not two. */
  lemma PutIdempotent(r: DbState, table: string, rec: Record, c1: Change, c2: Change)
    requires Put(r, table, rec, c1).Ok?
    ensures Put(Put(r, table, rec, c1).value, table, rec, c2).Ok?
    ensures Put(Put(r, table, rec, c1).value, table, rec, c2).value.db
         == Put(r, table, rec, c1).value.db
  {
    var s1 := Put(r, table, rec, c1).value.db.value;
    assert s1[table][Id(rec) := rec] == s1[table];
    assert s1[table := s1[table]] == s1;
  }

  /** Deleting leaves no row with that id, notifies once, and changes no other row or store. */
  lemma DeleteRemoves(r: DbState, table: string, id: Value)
    requires Delete(r, table, id).Ok?
    ensures var s, s' := r.db.value, Delete(r, table, id).value.db.value;
      && s'.Keys == s.Keys
      && id !in s'[table]
      && s'[table].Keys == s[table].Keys - {id}
      && (forall k :: k in s'[table] ==> s'[table][k] == s[table][k])
      && (forall t :: t in s && t != table ==> s'[t] == s[t])
    ensures Delete(r, table, id).value.log == r.log + [Deleted(table)]
    ensures Delete(r, table, id).value.log[|r.log|].Name() == table + ":deleted"
  {
  }

  /** A second delete of the same id finds nothing more to remove. */
  lemma DeleteIdempotent(r: DbState, table: string, id: Value)
    requires Delete(r, table, id).Ok?
    ensures Delete(Delete(r, table, id).value, table, id).Ok?
    ensures Delete(Delete(r, table, id).value, table, id).value.db == Delete(r, table, id).value.db
  {
    var s1 := Delete(r, table, id).value.db.value;
    assert s1[table] - {id} == s1[table];
    assert s1[table := s1[table]] == s1;
  }

  // ---------------------------------------------------------------------
  // Ordered application of ops

  /** Applying `a` then `b` is applying `a + b`. */
  lemma {:induction false} ApplyAllAppend(r: DbState, a: seq<Op>, b: seq<Op>)
    ensures ApplyAll(r, a + b) == ApplyAll(ApplyAll(r, a), b)
    decreases |b|
  {
    if b == [] {
      assert a + b == a;
    } else {
      assert (a + b)[..|a + b| - 1] == a + b[..|b| - 1];
      ApplyAllAppend(r, a, b[..|b| - 1]);
    }
  }

  /** One op changes row `k` of an existing store only if it touches that row. */
  lemma ApplyRow(m: DbState, o: Op, table: string, k: Value)
    requires m.db.Some? && table in m.db.value && ValidKey(k)
    ensures table in Apply(m, o).db.value
    ensures Lookup(Apply(m, o).db.value[table], k)
         == if Touches(o, table, k) then Effect(o) else Lookup(m.db.value[table], k)
  {
    if o.op == "insert" {
      if Put(m, o.table, o.data, Insert).Ok? { PutUpserts(m, o.table, o.data, Insert); }
    } else if o.op == "update" {
      if Put(m, o.table, o.data, Update).Ok? { PutUpserts(m, o.table, o.data, Update); }
    } else if o.op == "delete" {
      if Delete(m, o.table, Id(o.data)).Ok? { DeleteRemoves(m, o.table, Id(o.data)); }
    }
  }

  /**
   * Ops take effect strictly in list order: after applying `ops`, the row with
   * key `k` of an existing store holds what the LAST op touching it left there,
   * and is unchanged when no op touches it.
   */
  lemma {:induction false} LastWriteWins(r: DbState, ops: seq<Op>, table: string, k: Value)
    requires r.db.Some? && table in r.db.value && ValidKey(k)
    ensures ApplyAll(r, ops).db.Some? && table in ApplyAll(r, ops).db.value
    ensures Lookup(ApplyAll(r, ops).db.value[table], k)
         == match LastTouch(ops, table, k)
            case None => Lookup(r.db.value[table], k)
            case Some(e) => e
    decreases |ops|
  {
    if ops != [] {
      var init := ops[..|ops| - 1];
      LastWriteWins(r, init, table, k);
      ApplyRow(ApplyAll(r, init), ops[|ops| - 1], table, k);
    }
  }

  /** Ops whose `op` is not insert, update or delete are skipped as if absent. */
  lemma {:induction false} UnknownOpsIgnored(r: DbState, ops: seq<Op>)
    ensures ApplyAll(r, ops) == ApplyAll(r, KnownOps(ops))
    decreases |ops|
  {
    if ops != [] {
      var init, o := ops[..|ops| - 1], ops[|ops| - 1];
      UnknownOpsIgnored(r, init);
      if Known(o) {
        var k := KnownOps(init) + [o];
        assert k[..|k| - 1] == KnownOps(init);
      } else {
        assert KnownOps(ops) == KnownOps(init);
      }
    }
  }

  /** The `schema` field of an op plays no part in what it does. */
  lemma {:induction false} SchemaIgnored(r: DbState, ops: seq<Op>, schema: Value)
    ensures ApplyAll(r, WithSchema(ops, schema)) == ApplyAll(r, ops)
    decreases |ops|
  {
    if ops != [] {
      var w := WithSchema(ops, schema);
      assert w[..|w| - 1] == WithSchema(ops[..|ops| - 1], schema);
      SchemaIgnored(r, ops[..|ops| - 1], schema);
    }
  }

  /**
   * Each op that succeeds dispatches exactly one notification and no other
   * op dispatches any: the log grows by the number of succeeding ops.
   */
  lemma {:induction false} OneNotificationPerWrite(r: DbState, ops: seq<Op>)
    requires r.db.Some?
    ensures r.log <= ApplyAll(r, ops).log
    ensures |ApplyAll(r, ops).log| == |r.log| + Succeeding(ops, r.db.value.Keys)
    decreases |ops|
  {
    if ops != [] {
      OneNotificationPerWrite(r, ops[..|ops| - 1]);
    }
  }

  /** A sync reply is stored as the inserts of all its rows, table by table and row by row. */
  lemma {:induction false} SyncOpsAreInserts(data: seq<(string, seq<Record>)>)
    ensures forall o :: o in SyncOps(data) ==> exists i :: 0 <= i < |data| && o.table == data[i].0 && o.data in data[i].1
    decreases |data|
  {
    if data != [] {
      SyncOpsAreInserts(data[..|data| - 1]);
      var last := data[|data| - 1];
      forall o | o in SyncOps(data)
        ensures exists i :: 0 <= i < |data| && o.table == data[i].0 && o.data in data[i].1
      {
        if o in SyncOps(data[..|data| - 1]) {
          var i :| 0 <= i < |data| - 1 && o.table == data[..|data| - 1][i].0 && o.data in data[..|data| - 1][i].1;
          assert data[i] == data[..|data| - 1][i];
        } else {
          assert o in InsertOps(last.0, last.1);
          var j :| 0 <= j < |last.1| && InsertOps(last.0, last.1)[j] == o;
          assert o.data in data[|data| - 1].1;
        }
      }
    }
  }

  /** `rows` lists, in ascending key order, the rows of `tbl` whose keys are not in `remaining`. */
  ghost predicate ListedBelow(tbl: Table, rows: seq<Record>, remaining: set<Value>)
  {
    && remaining <= tbl.Keys
    && (forall i :: 0 <= i < |rows| ==> Id(rows[i]) in tbl && tbl[Id(rows[i])] == rows[i])
    && IdSet(rows) == tbl.Keys - remaining
    && (forall i, j :: 0 <= i < j < |rows| ==> KeyBelow(Id(rows[i]), Id(rows[j])))
    && (forall i, k :: 0 <= i < |rows| && k in remaining ==> KeyBelow(Id(rows[i]), k))
  }

  /** Moving the least remaining key to the end of the listing keeps it a sorted partial listing. */
  lemma ListedBelowStep(tbl: Table, rows: seq<Record>, remaining: set<Value>, k: Value)
    requires KeyedById(tbl)
    requires ListedBelow(tbl, rows, remaining)
    requires k in remaining && forall k' :: k' in remaining && k' != k ==> KeyBelow(k, k')
    ensures ListedBelow(tbl, rows + [tbl[k]], remaining - {k})
  {
    var next := rows + [tbl[k]];
    assert next[..|next| - 1] == rows;
  }

  /** The first row of a listing has the least key of the store. */
  lemma ListingHeadLeast(tbl: Table, rows: seq<Record>)
    requires Listing(tbl, rows) && rows != []
    ensures forall k :: k in tbl && k != Id(rows[0]) ==> KeyBelow(Id(rows[0]), k)
  {
    forall k | k in tbl && k != Id(rows[0])
      ensures KeyBelow(Id(rows[0]), k)
    {
      var i :| 0 <= i < |rows| && Id(rows[i]) == k;
    }
  }

  /** Past the first row, a listing never repeats the first row's id. */
  lemma ListingHeadOnce(tbl: Table, rows: seq<Record>)
    requires Listing(tbl, rows) && rows != []
    ensures forall i :: 1 <= i < |rows| ==> Id(rows[i]) != Id(rows[0])
  {
    forall i | 1 <= i < |rows|
      ensures Id(rows[i]) != Id(rows[0])
    {
      KeyBelowStrictOrder(Id(rows[0]), Id(rows[0]), Id(rows[0]));
    }
  }

  /** The ids after the first row are the store's keys without the first row's. */
  lemma ListingTailIds(tbl: Table, rows: seq<Record>)
    requires Listing(tbl, rows) && rows != []
    requires forall i :: 1 <= i < |rows| ==> Id(rows[i]) != Id(rows[0])
    ensures IdSet(rows[1..]) == tbl.Keys - {Id(rows[0])}
  {
    var tail := rows[1..];
    forall k | k in IdSet(tail)
      ensures k in tbl.Keys - {Id(rows[0])}
    {
      var i :| 0 <= i < |tail| && Id(tail[i]) == k;
      assert tail[i] == rows[i + 1];
    }
    forall k | k in tbl.Keys - {Id(rows[0])}
      ensures k in IdSet(tail)
    {
      var i :| 0 <= i < |rows| && Id(rows[i]) == k;
      assert tail[i - 1] == rows[i];
    }
  }

  /** Dropping the first row of a listing lists the rest of the store. */
  lemma ListingTail(tbl: Table, rows: seq<Record>)
    requires Listing(tbl, rows) && rows != []
    ensures Listing(tbl - {Id(rows[0])}, rows[1..])
  {
    ListingHeadOnce(tbl, rows);
    ListingTailIds(tbl, rows);
    var tail, rest := rows[1..], tbl - {Id(rows[0])};
    assert forall i :: 0 <= i < |tail| ==> tail[i] == rows[i + 1];
  }

  /** A listing is empty exactly when the store is. */
  lemma ListingEmpty(tbl: Table, rows: seq<Record>)
    requires Listing(tbl, rows)
    ensures rows == [] <==> |tbl| == 0
  {
    if rows != [] {
      assert Id(rows[0]) in IdSet(rows);
    }
  }

  /** Two listings of one store start with the same row: the one with the least key. */
  lemma ListingHeadsAgree(tbl: Table, a: seq<Record>, b: seq<Record>)
    requires Listing(tbl, a) && Listing(tbl, b) && a != [] && b != []
    ensures a[0] == b[0]
  {
    var ka, kb := Id(a[0]), Id(b[0]);
    ListingHeadLeast(tbl, a);
    ListingHeadLeast(tbl, b);
    if ka != kb {
      assert KeyBelow(ka, kb) && KeyBelow(kb, ka);
      KeyBelowStrictOrder(ka, kb, ka);
    }
  }

  /** Two listings of one store agree on their first row and list the same rest. */
  lemma ListingStep(tbl: Table, a: seq<Record>, b: seq<Record>)
    requires Listing(tbl, a) && Listing(tbl, b) && a != [] && b != []
    ensures a[0] == b[0]
    ensures Listing(tbl - {Id(a[0])}, a[1..]) && Listing(tbl - {Id(a[0])}, b[1..])
  {
    ListingHeadsAgree(tbl, a, b);
    ListingTail(tbl, a);
    ListingTail(tbl, b);
  }

  /** Sequences with equal heads and equal tails are equal. */
  lemma HeadTailEqual(a: seq<Record>, b: seq<Record>)
    requires a != [] && b != [] && a[0] == b[0] && a[1..] == b[1..]
    ensures a == b
  {
    assert a == [a[0]] + a[1..] && b == [b[0]] + b[1..];
  }

  /** The listing of a store is unique: `getAll` has exactly one correct answer. */
  lemma {:induction false} ListingUnique(tbl: Table, a: seq<Record>, b: seq<Record>)
    requires Listing(tbl, a) && Listing(tbl, b)
    ensures a == b
    decreases |a|
  {
    ListingEmpty(tbl, a);
    ListingEmpty(tbl, b);
    if a != [] {
      ListingStep(tbl, a, b);
      ListingUnique(tbl - {Id(a[0])}, a[1..], b[1..]);
      HeadTailEqual(a, b);
    }
  }

  /** The last op on a row decides it; see LastWriteWins. */
  lemma {:induction false} LastTouchAt(ops: seq<Op>, p: nat, table: string, k: Value)
    requires p < |ops| && Touches(ops[p], table, k)
    requires forall q :: p < q < |ops| ==> !Touches(ops[q], table, k)
    ensures LastTouch(ops, table, k) == Some(Effect(ops[p]))
    decreases |ops|
  {
    if p < |ops| - 1 {
      var init := ops[..|ops| - 1];
      assert init[p] == ops[p];
      LastTouchAt(init, p, table, k);
    }
  }

  /**
   * A record that an insert or update stored, and that no later op overwrote
   * or deleted, is what the store holds under its id once all ops have run.
   */
  lemma StoredUntilOverwritten(r: DbState, ops: seq<Op>, p: nat)
    requires r.db.Some? && p < |ops|
    requires (ops[p].op == "insert" || ops[p].op == "update") && ops[p].table in r.db.value
    requires ValidKey(Id(ops[p].data))
    requires forall q :: p < q < |ops| ==> !Touches(ops[q], ops[p].table, Id(ops[p].data))
    ensures ApplyAll(r, ops).db.Some? && ops[p].table in ApplyAll(r, ops).db.value
    ensures Lookup(ApplyAll(r, ops).db.value[ops[p].table], Id(ops[p].data)) == Some(ops[p].data)
  {
    LastTouchAt(ops, p, ops[p].table, Id(ops[p].data));
    LastWriteWins(r, ops, ops[p].table, Id(ops[p].data));
  }

  /** Row `j` of pair `i` is the insert at position (rows of the earlier pairs) + `j`. */
  lemma {:induction false} SyncOpsAt(data: seq<(string, seq<Record>)>, i: nat, j: nat)
    requires i < |data| && j < |data[i].1|
    ensures RowCount(data[..i]) + j < |SyncOps(data)|
    ensures SyncOps(data)[RowCount(data[..i]) + j] == Op("insert", data[i].1[j], Undefined, data[i].0)
    decreases |data|
  {
    var init := data[..|data| - 1];
    if i == |data| - 1 {
      assert data[..i] == init;
    } else {
      SyncOpsAt(init, i, j);
      assert init[..i] == data[..i] && init[i] == data[i];
    }
  }

  /** Every position of the derived ops is some row `j` of some pair `i`. */
  lemma {:induction false} SyncOpsFrom(data: seq<(string, seq<Record>)>, q: nat) returns (i: nat, j: nat)
    requires q < |SyncOps(data)|
    ensures i < |data| && j < |data[i].1| && q == RowCount(data[..i]) + j
    decreases |data|
  {
    var init := data[..|data| - 1];
    if q < |SyncOps(init)| {
      i, j := SyncOpsFrom(init, q);
      assert init[..i] == data[..i] && init[i] == data[i];
    } else {
      i, j := |data| - 1, q - RowCount(init);
      assert data[..i] == init;
    }
  }

  /** The rows of earlier pairs come first. */
  lemma {:induction false} RowCountMonotone(data: seq<(string, seq<Record>)>, a: nat, b: nat)
    requires a < b <= |data|
    ensures RowCount(data[..a]) + |data[a].1| <= RowCount(data[..b])
    decreases b - a
  {
    assert data[..a + 1][..a] == data[..a];
    if a + 1 < b {
      RowCountMonotone(data, a + 1, b);
    }
  }

  /**
   * After a sync reply, a row is stored under its id when its table exists,
   * its id is a valid key, and no later row of the reply for that table has
   * the same id.
   */
  lemma SyncRowStored(r: DbState, data: seq<(string, seq<Record>)>, i: nat, j: nat)
    requires r.db.Some? && i < |data| && j < |data[i].1|
    requires data[i].0 in r.db.value && ValidKey(Id(data[i].1[j]))
    requires forall i', j' :: i <= i' < |data| && 0 <= j' < |data[i'].1| && (i' > i || j' > j) && data[i'].0 == data[i].0
               ==> Id(data[i'].1[j']) != Id(data[i].1[j])
    ensures ApplyAll(r, SyncOps(data)).db.Some? && data[i].0 in ApplyAll(r, SyncOps(data)).db.value
    ensures Lookup(ApplyAll(r, SyncOps(data)).db.value[data[i].0], Id(data[i].1[j])) == Some(data[i].1[j])
  {
    var ops, p := SyncOps(data), RowCount(data[..i]) + j;
    SyncOpsAt(data, i, j);
    forall q | p < q < |ops|
      ensures !Touches(ops[q], data[i].0, Id(data[i].1[j]))
    {
      var i', j' := SyncOpsFrom(data, q);
      SyncOpsAt(data, i', j');
      if i' < i {
        RowCountMonotone(data, i', i);
      }
    }
    StoredUntilOverwritten(r, ops, p);
  }

  // ---------------------------------------------------------------------
  // Store creation

  lemma {:induction false} CreateStoresPrefixError(s: Stores, names: seq<string>, i: nat)
    requires i <= |names|
    requires CreateStores(s, names[..i]).Err?
    ensures CreateStores(s, names) == CreateStores(s, names[..i])
    decreases |names| - i
  {
    if i < |names| {
      assert names[..i + 1][..i] == names[..i];
      CreateStoresPrefixError(s, names, i + 1);
    } else {
      assert names[..i] == names;
    }
  }

  /** The names of `names`. */
  function NameSet(names: seq<string>): set<string>
  {
    set i | 0 <= i < |names| :: names[i]
  }

  lemma NameSetSnoc(names: seq<string>)
    requires names != []
    ensures NameSet(names) == NameSet(names[..|names| - 1]) + {names[|names| - 1]}
  {
    var init := names[..|names| - 1];
    forall t | t in NameSet(init) ensures t in NameSet(names) {
      var i :| 0 <= i < |init| && init[i] == t;
      assert names[i] == t;
    }
  }

  /** A successful upgrade holds the old stores' names plus the listed ones. */
  lemma {:induction false} CreateStoresKeys(s: Stores, names: seq<string>)
    requires CreateStores(s, names).Ok?
    ensures CreateStores(s, names).value.Keys == s.Keys + NameSet(names)
    decreases |names|
  {
    if names != [] {
      CreateStoresKeys(s, names[..|names| - 1]);
      NameSetSnoc(names);
    }
  }

  /** The upgrade succeeds exactly when the names are distinct and none exists yet. */
  lemma {:induction false} CreateStoresSucceeds(s: Stores, names: seq<string>)
    ensures CreateStores(s, names).Ok?
        <==> Distinct(names) && forall i :: 0 <= i < |names| ==> names[i] !in s
    decreases |names|
  {
    if names != [] {
      var init, last := names[..|names| - 1], names[|names| - 1];
      CreateStoresSucceeds(s, init);
      assert forall i :: 0 <= i < |init| ==> init[i] == names[i];
      if CreateStores(s, init).Ok? {
        CreateStoresKeys(s, init);
        if last !in s && last in NameSet(init) {
          var i :| 0 <= i < |init| && init[i] == last;
          assert names[i] == names[|names| - 1];
        }
      } else if !Distinct(init) {
        var i, j :| 0 <= i < j < |init| && init[i] == init[j];
        assert names[i] == names[j];
      }
    }
  }

  /**
   * Upgrading succeeds exactly when every listed name is new and listed once;
   * it then holds the existing stores, unchanged, and one empty store per name.
   */
  lemma CreateStoresSpec(s: Stores, names: seq<string>)
    ensures CreateStores(s, names).Ok?
        <==> Distinct(names) && forall i :: 0 <= i < |names| ==> names[i] !in s
    ensures CreateStores(s, names).Ok? ==>
      && CreateStores(s, names).value.Keys == s.Keys + NameSet(names)
      && (forall t :: t in s ==> CreateStores(s, names).value[t] == s[t])
      && (forall i :: 0 <= i < |names| ==> CreateStores(s, names).value[names[i]] == map[])
  {
    CreateStoresSucceeds(s, names);
    if CreateStores(s, names).Ok? {
      CreateStoresKeys(s, names);
    }
  }
}
