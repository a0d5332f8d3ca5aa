/**
 * The client-side replica of sync_db.js: an object that owns an IndexedDB
 * database (modelled as the stores of module Replica), the Phoenix socket and
 * channel, and the `lsn`/`snapmin` cursor of the last sync reply.
 */
module SyncDb {
  import opened Wrappers
  import opened JsValues
  import opened Replica

  /** The channel the replica joins. */
  const ChannelTopic: string := "sync:todos"

  /** Inbound socket messages are acted on only when their topic starts with this. */
  const CommitTopicPrefix: string := "sync:todos:"

  /** The payload of a `commit` push: `{lsn, ops}`. */
  datatype Commit = Commit(lsn: Value, ops: seq<Op>)

  /** A message as the socket's `onMessage` callback receives it. */
  datatype Message = Message(topic: string, event: string, payload: Commit)

  /** The reply to the `sync` push: `{data, lsn, snapmin}`, `data` a list of `[table, rows]`. */
  datatype SyncReply = SyncReply(data: seq<(string, seq<Record>)>, lsn: Value, snapmin: Value)

  /** What `channel.join()` reports. */
  datatype JoinReply = JoinOk(resp: Value) | JoinError(reason: Value) | JoinTimeout

  /** What the replica does about it: push `sync` with this payload, or reject `sync()`. */
  datatype JoinAction = PushSync(snapmin: Value) | Reject(reason: Value)

  /** Whether the message handler passes a message on to `handleCommit`. */
  predicate Accepts(m: Message): (b: bool)
    ensures b <==> && |m.topic| >= |CommitTopicPrefix|
                   && m.topic[..|CommitTopicPrefix|] == CommitTopicPrefix
                   && m.event == "commit"
  {
    CommitTopicPrefix <= m.topic && m.event == "commit"
  }

  /** The value a write's promise settles with: `e.target.result` on success. */
  function Resolved(res: Result<DbState, DbError>, result: Value): Result<Value, DbError>
  {
    match res
    case Ok(_) => Ok(result)
    case Err(e) => Err(e)
  }

  class SyncDb {
    const vsn: Value
    const tables: seq<string>
    const csrfToken: Value

    /** `this.db`: None while it is null, else the object stores of the open database. */
    var db: Option<Stores>
    /** Whether `this.socket` and `this.channel` have been created. */
    var socket: bool
    var channel: bool
    /** The cursor of the last sync reply. */
    var lsn: Value
    var snapmin: Value
    /** Every change notification dispatched on the document so far. */
    ghost var events: seq<Event>

    /** The replica's database and notifications, as module Replica specifies them. */
    ghost function Local(): DbState
      reads this
    {
      DbState(db, events)
    }

    ghost predicate Valid()
      reads this
    {
      db.Some? ==> WellKeyed(db.value)
    }

    constructor(vsn: Value, tables: seq<string>, csrfToken: Value)
      ensures this.vsn == vsn && this.tables == tables && this.csrfToken == csrfToken
      ensures db == None && !socket && !channel
      ensures lsn == Num(0) && snapmin == Num(0)
      ensures events == [] && Valid()
    {
      this.vsn := vsn;
      this.tables := tables;
      this.csrfToken := csrfToken;
      db := None;
      socket := false;
      channel := false;
      lsn := Num(0);
      snapmin := Num(0);
      events := [];
    }

    /** `onupgradeneeded`: one id-keyed store per listed table, created in list order. */
    method Upgrade(onDisk: Stores) returns (r: Result<(), DbError>)
      requires WellKeyed(onDisk)
      modifies this`db
      ensures Valid()
      ensures CreateStores(onDisk, tables).Ok? ==> r == Ok(()) && db == Some(CreateStores(onDisk, tables).value)
      ensures CreateStores(onDisk, tables).Err? ==> r == Err(CreateStores(onDisk, tables).error) && db == None
    {
      var created := onDisk;
      var i := 0;
      while i < |tables|
        invariant 0 <= i <= |tables|
        invariant CreateStores(onDisk, tables[..i]) == Ok(created)
        invariant WellKeyed(created)
      {
        assert tables[..i + 1][..i] == tables[..i];
        if tables[i] in created {
          CreateStoresPrefixError(onDisk, tables, i + 1);
          db := None;
          return Err(ConstraintError(tables[i]));
        }
        created := created[tables[i] := map[]];
        i := i + 1;
      }
      assert tables[..i] == tables;
      db := Some(created);
      r := Ok(());
    }

    /** The state `socketConnect` sets up before joining: a socket and a channel. */
    method Connect()
      modifies this`socket, this`channel
      ensures socket && channel
    {
      socket := true;
      channel := true;
    }

    /**
     * The join callbacks: on `ok` push `sync` with `snapmin: 0` whatever the
     * stored cursor, on `error` or `timeout` reject. The function reads no
     * field, so it neither looks at nor changes the tables or the cursor.
     */
    function JoinReplyAction(reply: JoinReply): (a: JoinAction)
      ensures a.PushSync? <==> reply.JoinOk?
      ensures a.PushSync? ==> a.snapmin == Num(0)
      ensures reply.JoinError? ==> a == Reject(reply.reason)
      ensures reply.JoinTimeout? ==> a == Reject(Str("timeout"))
    {
      match reply
      case JoinOk(_) => PushSync(Num(0))
      case JoinError(reason) => Reject(reason)
      case JoinTimeout => Reject(Str("timeout"))
    }

    /** `objectStore.getAll()`: the stored records of `table`, in key order. */
    method All(table: string) returns (r: Result<seq<Record>, DbError>)
      requires Valid()
      ensures db.None? ==> r == Err(NotOpen)
      ensures db.Some? && table !in db.value ==> r == Err(NotFound(table))
      ensures db.Some? && table in db.value ==> r.Ok? && Listing(db.value[table], r.value)
    {
      if db.None? {
        return Err(NotOpen);
      }
      if table !in db.value {
        return Err(NotFound(table));
      }
      var tbl := db.value[table];
      assert KeyedById(tbl);
      var remaining := tbl.Keys;
      var rows: seq<Record> := [];
      while remaining != {}
        invariant ListedBelow(tbl, rows, remaining)
        decreases remaining
      {
        LeastKeyExists(remaining);
        var k :| k in remaining && forall k' :: k' in remaining && k' != k ==> KeyBelow(k, k');
        ListedBelowStep(tbl, rows, remaining, k);
        rows := rows + [tbl[k]];
        remaining := remaining - {k};
      }
      r := Ok(rows);
    }

    /** `put` in a readwrite transaction, then the notification; shared by Insert and Update. */
    method PutRecord(table: string, record: Record, change: Change) returns (r: Result<Value, DbError>)
      requires Valid()
      modifies this`db, this`events
      ensures Valid()
      ensures r == Resolved(Put(old(Local()), table, record, change), Id(record))
      ensures Local() == Settle(Put(old(Local()), table, record, change), old(Local()))
    {
      if db.None? {
        return Err(NotOpen);
      }
      var stores := db.value;
      if table !in stores {
        return Err(NotFound(table));
      }
      var key := Id(record);
      if !ValidKey(key) {
        return Err(DataError(table));
      }
      db := Some(stores[table := stores[table][key := record]]);
      events := events + [if change == Change.Insert then Inserted(table, record) else Updated(table, record)];
      r := Ok(key);
    }

    /** `insert(table, record)`: upsert, then a `<table>:inserted` notification. */
    method Insert(table: string, record: Record) returns (r: Result<Value, DbError>)
      requires Valid()
      modifies this`db, this`events
      ensures Valid()
      ensures r == Resolved(Put(old(Local()), table, record, Change.Insert), Id(record))
      ensures Local() == Settle(Put(old(Local()), table, record, Change.Insert), old(Local()))
    {
      r := PutRecord(table, record, Change.Insert);
    }

    /** `update(table, record)`: the same upsert, then a `<table>:updated` notification. */
    method Update(table: string, record: Record) returns (r: Result<Value, DbError>)
      requires Valid()
      modifies this`db, this`events
      ensures Valid()
      ensures r == Resolved(Put(old(Local()), table, record, Change.Update), Id(record))
      ensures Local() == Settle(Put(old(Local()), table, record, Change.Update), old(Local()))
    {
      r := PutRecord(table, record, Change.Update);
    }

    /** `delete(table, id)`: remove the row if any, then a `<table>:deleted` notification. */
    method Delete(table: string, id: Value) returns (r: Result<Value, DbError>)
      requires Valid()
      modifies this`db, this`events
      ensures Valid()
      ensures r == Resolved(Replica.Delete(old(Local()), table, id), Undefined)
      ensures Local() == Settle(Replica.Delete(old(Local()), table, id), old(Local()))
    {
      if db.None? {
        return Err(NotOpen);
      }
      var stores := db.value;
      if table !in stores {
        return Err(NotFound(table));
      }
      if !ValidKey(id) {
        return Err(DataError(table));
      }
      db := Some(stores[table := stores[table] - {id}]);
      events := events + [Deleted(table)];
      r := Ok(Undefined);
    }

    /** `handleCommit`: dispatch each op in list order; a rejected write does not stop the rest. */
    method HandleCommit(commit: Commit)
      requires Valid()
      modifies this`db, this`events
      ensures Valid()
      ensures Local() == ApplyAll(old(Local()), commit.ops)
    {
      var ops := commit.ops;
      var i := 0;
      while i < |ops|
        invariant 0 <= i <= |ops|
        invariant Valid()
        invariant Local() == ApplyAll(old(Local()), ops[..i])
      {
        var o := ops[i];
        if o.op == "insert" {
          var _ := Insert(o.table, o.data);
        } else if o.op == "update" {
          var _ := Update(o.table, o.data);
        } else if o.op == "delete" {
          var _ := Delete(o.table, Id(o.data));
        }
        assert ops[..i + 1][..i] == ops[..i];
        i := i + 1;
      }
      assert ops[..i] == ops;
    }

    /** The socket's message handler: commits on a `sync:todos:` topic, nothing else. */
    method OnMessage(m: Message)
      requires Valid()
      modifies this`db, this`events
      ensures Valid()
      ensures Local() == if Accepts(m) then ApplyAll(old(Local()), m.payload.ops) else old(Local())
    {
      if !(CommitTopicPrefix <= m.topic) {
        return;
      }
      if m.event == "commit" {
        HandleCommit(m.payload);
      }
    }

    /** `rows.forEach(row => this.insert(table, row))`: insert the rows in order. */
    method InsertRows(table: string, rows: seq<Record>)
      requires Valid()
      modifies this`db, this`events
      ensures Valid()
      ensures Local() == ApplyAll(old(Local()), InsertOps(table, rows))
    {
      var j := 0;
      while j < |rows|
        invariant 0 <= j <= |rows|
        invariant Valid()
        invariant Local() == ApplyAll(old(Local()), InsertOps(table, rows[..j]))
      {
        var _ := Insert(table, rows[j]);
        ghost var done := InsertOps(table, rows[..j + 1]);
        assert done[..j] == InsertOps(table, rows[..j]);
        j := j + 1;
      }
      assert rows[..j] == rows;
    }

    /** The `sync` reply: insert every row of every `[table, rows]` pair, then store the cursor. */
    method ApplySyncResponse(reply: SyncReply)
      requires Valid()
      modifies this`db, this`events, this`lsn, this`snapmin
      ensures Valid()
      ensures Local() == ApplyAll(old(Local()), SyncOps(reply.data))
      ensures lsn == reply.lsn && snapmin == reply.snapmin
    {
      var data := reply.data;
      var i := 0;
      while i < |data|
        invariant 0 <= i <= |data|
        invariant Valid()
        invariant Local() == ApplyAll(old(Local()), SyncOps(data[..i]))
      {
        var (table, rows) := data[i];
        InsertRows(table, rows);
        assert data[..i + 1][..i] == data[..i];
        ApplyAllAppend(old(Local()), SyncOps(data[..i]), InsertOps(table, rows));
        i := i + 1;
      }
      assert data[..i] == data;
      lsn := reply.lsn;
      snapmin := reply.snapmin;
    }
  }

  /** The channel's own topic lacks the trailing colon, so commits sent on it are ignored. */
  lemma ChannelTopicIgnored(c: Commit)
    ensures !Accepts(Message(ChannelTopic, "commit", c))
  {
    assert |ChannelTopic| < |CommitTopicPrefix|;
  }
}
