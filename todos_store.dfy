/**
 * The in-memory todo list of todos_store.js: a list of todo records with
 * append, replace-by-id and delete-by-id, and the decoding that normalises
 * the `done` field of every todo that enters the list.
 */
module TodosStore {
  import opened Wrappers
  import opened JsValues

  /** The timestamp fields `decodeTypes` inspects, in the order it visits them. */
  const DateFields: seq<string> := ["inserted_at", "updated_at", "_deleted_at"]

  /** `dateStr.endsWith` is not a function: the field holds a truthy value that is not a string. */
  datatype TypeError = EndsWithNotAFunction(field: string)

  /** A timestamp field `decodeTypes` can pass: falsy, or a string. */
  predicate DateOk(v: Value): (b: bool)
    ensures b <==> v.Str? || v == Undefined || v == Null || v == Bool(false) || v == Num(0)
  {
    !Truthy(v) || v.Str?
  }

  /** The first of `fields` on which `endsWith` would throw, visiting them in order. */
  function FirstBadDate(todo: Record, fields: seq<string>): (r: Option<string>)
    ensures r.None? <==> forall i :: 0 <= i < |fields| ==> DateOk(Get(todo, fields[i]))
    ensures r.Some? ==> exists i :: 0 <= i < |fields| && fields[i] == r.value && !DateOk(Get(todo, fields[i]))
                                   && forall j :: 0 <= j < i ==> DateOk(Get(todo, fields[j]))
  {
    if fields == [] then None
    else if !DateOk(Get(todo, fields[0])) then Some(fields[0])
    else FirstBadDate(todo, fields[1..])
  }

  /** `done === "t" || done === "f" ? done === "t" : done`. */
  function DecodeDone(done: Value): (r: Value)
    ensures done == Str("t") ==> r == Bool(true)
    ensures done == Str("f") ==> r == Bool(false)
    ensures done != Str("t") && done != Str("f") ==> r == done
  {
    if done == Str("t") || done == Str("f") then Bool(done == Str("t")) else done
  }

  /**
   * `decodeTypes(todo)`: the timestamp loop only computes a local string and
   * writes nothing back, but throws on a truthy non-string timestamp; then
   * `done` is normalised (and becomes an own field even when it was absent).
   */
  function DecodeTypes(todo: Record): (r: Result<Record, TypeError>)
    ensures r.Err? <==> exists i :: 0 <= i < |DateFields| && !DateOk(Get(todo, DateFields[i]))
    ensures r.Err? ==> exists i :: 0 <= i < |DateFields| && r.error == EndsWithNotAFunction(DateFields[i])
                                 && !DateOk(Get(todo, DateFields[i]))
                                 && forall j :: 0 <= j < i ==> DateOk(Get(todo, DateFields[j]))
    ensures r.Ok? ==> r.value.Keys == todo.Keys + {"done"}
    ensures r.Ok? ==> r.value["done"] == DecodeDone(Get(todo, "done"))
    ensures r.Ok? ==> forall f :: f in todo && f != "done" ==> r.value[f] == todo[f]
  {
    match FirstBadDate(todo, DateFields)
    case Some(f) => Err(EndsWithNotAFunction(f))
    case None => Ok(todo["done" := DecodeDone(Get(todo, "done"))])
  }

  /** No "Z" suffix is ever stored: the timestamps and the id come out as they went in. */
  lemma DecodeKeepsTimestamps(todo: Record)
    requires DecodeTypes(todo).Ok?
    ensures forall i :: 0 <= i < |DateFields| ==> Get(DecodeTypes(todo).value, DateFields[i]) == Get(todo, DateFields[i])
    ensures Id(DecodeTypes(todo).value) == Id(todo)
  {
  }

  /** Decoding a decoded todo changes nothing more. */
  lemma DecodeIdempotent(todo: Record)
    requires DecodeTypes(todo).Ok?
    ensures DecodeTypes(DecodeTypes(todo).value) == DecodeTypes(todo)
  {
    var d := DecodeTypes(todo).value;
    assert forall i :: 0 <= i < |DateFields| ==> Get(d, DateFields[i]) == Get(todo, DateFields[i]);
    assert d["done" := DecodeDone(Get(d, "done"))] == d;
  }

  /** `items.filter(item => item.id !== id)`. */
  function Without(items: seq<Record>, id: Value): (r: seq<Record>)
    ensures forall i :: 0 <= i < |r| ==> Id(r[i]) != id
    ensures |r| <= |items|
    decreases |items|
  {
    if items == [] then []
    else (if Id(items[0]) != id then [items[0]] else []) + Without(items[1..], id)
  }

  /** Filtering distributes over concatenation, so the kept items stay in their order. */
  lemma {:induction false} WithoutAppend(a: seq<Record>, b: seq<Record>, id: Value)
    ensures Without(a + b, id) == Without(a, id) + Without(b, id)
    decreases |a|
  {
    if a == [] {
      assert a + b == b;
    } else {
      assert (a + b)[1..] == a[1..] + b;
      WithoutAppend(a[1..], b, id);
    }
  }

  /** A list with no item of that id is kept whole. */
  lemma {:induction false} WithoutAbsent(items: seq<Record>, id: Value)
    requires forall i :: 0 <= i < |items| ==> Id(items[i]) != id
    ensures Without(items, id) == items
    decreases |items|
  {
    if items != [] {
      WithoutAbsent(items[1..], id);
    }
  }

  /** Deleting the same id again changes nothing. */
  lemma WithoutIdempotent(items: seq<Record>, id: Value)
    ensures Without(Without(items, id), id) == Without(items, id)
  {
    WithoutAbsent(Without(items, id), id);
  }

  /** Every item with another id survives the filter. */
  lemma {:induction false} WithoutKeeps(items: seq<Record>, id: Value, x: Record)
    requires x in items && Id(x) != id
    ensures x in Without(items, id)
    decreases |items|
  {
    if items[0] != x {
      WithoutKeeps(items[1..], id, x);
    }
  }

  /** The index of the last item with that id, if any. */
  function LastMatch(items: seq<Record>, id: Value): (r: Option<nat>)
    ensures r.Some? ==> r.value < |items| && Id(items[r.value]) == id
    ensures r.Some? ==> forall k :: r.value < k < |items| ==> Id(items[k]) != id
    ensures r.None? ==> forall k :: 0 <= k < |items| ==> Id(items[k]) != id
    decreases |items|
  {
    if items == [] then None
    else if Id(items[|items| - 1]) == id then Some(|items| - 1)
    else LastMatch(items[..|items| - 1], id)
  }

  /** Some matching item's replacement fails to decode, so `map` throws. */
  ghost predicate UpdateThrows(items: seq<Record>, id: Value, callback: Record -> Record)
  {
    exists i :: 0 <= i < |items| && Id(items[i]) == id && DecodeTypes(callback(items[i])).Err?
  }

  /** `e` is what the first matching item whose replacement fails to decode throws. */
  ghost predicate ThrowsFirst(items: seq<Record>, id: Value, callback: Record -> Record, e: TypeError)
  {
    exists i :: 0 <= i < |items| && Id(items[i]) == id && DecodeTypes(callback(items[i])) == Err(e)
              && !UpdateThrows(items[..i], id, callback)
  }

  /** `next` is `items` with every item of that id replaced by its decoded callback result. */
  ghost predicate Replaced(items: seq<Record>, id: Value, callback: Record -> Record, next: seq<Record>)
  {
    && |next| == |items|
    && forall i :: 0 <= i < |items| ==>
         if Id(items[i]) == id then DecodeTypes(callback(items[i])) == Ok(next[i]) else next[i] == items[i]
  }

  /** `foundTodo` after the `map`: the replacement of the last matching item, or undefined. */
  function Found(items: seq<Record>, id: Value, next: seq<Record>): (r: Option<Record>)
    requires |next| == |items|
    ensures r.None? <==> forall k :: 0 <= k < |items| ==> Id(items[k]) != id
    ensures r.Some? ==> exists j :: 0 <= j < |items| && Id(items[j]) == id && r.value == next[j]
                                    && forall k :: j < k < |items| ==> Id(items[k]) != id
  {
    match LastMatch(items, id)
    case None => None
    case Some(j) => Some(next[j])
  }

  /** Mapping one more item keeps `next` the replaced prefix. */
  lemma ReplacedStep(items: seq<Record>, id: Value, callback: Record -> Record, prev: seq<Record>, i: nat, x: Record)
    requires i < |items| && Replaced(items[..i], id, callback, prev)
    requires if Id(items[i]) == id then DecodeTypes(callback(items[i])) == Ok(x) else x == items[i]
    ensures Replaced(items[..i + 1], id, callback, prev + [x])
  {
    var more := items[..i + 1];
    assert forall k :: 0 <= k < i ==> more[k] == items[..i][k];
  }

  /** `foundTodo` after one more item: that item's replacement if it matches, else as before. */
  lemma FoundStep(items: seq<Record>, id: Value, next: seq<Record>)
    requires |next| == |items| && items != []
    ensures Found(items, id, next)
         == if Id(items[|items| - 1]) == id then Some(next[|next| - 1])
            else Found(items[..|items| - 1], id, next[..|next| - 1])
  {
  }

  /**
   * The `map` of `update(id, callback)`: replace each item with that id by
   * `decodeTypes(callback(item))`, remembering the last replacement.
   */
  method MapMatching(items: seq<Record>, id: Value, callback: Record -> Record)
    returns (r: Result<(seq<Record>, Option<Record>), TypeError>)
    ensures r.Err? <==> UpdateThrows(items, id, callback)
    ensures r.Err? ==> ThrowsFirst(items, id, callback, r.error)
    ensures r.Ok? ==> Replaced(items, id, callback, r.value.0)
    ensures r.Ok? ==> r.value.1 == Found(items, id, r.value.0)
  {
    var next: seq<Record> := [];
    var found: Option<Record> := None;
    var i := 0;
    while i < |items|
      invariant 0 <= i <= |items|
      invariant Replaced(items[..i], id, callback, next)
      invariant found == Found(items[..i], id, next)
      invariant !UpdateThrows(items[..i], id, callback)
    {
      assert items[..i + 1][..i] == items[..i];
      ghost var prev := next;
      if Id(items[i]) == id {
        var decoded := DecodeTypes(callback(items[i]));
        if decoded.Err? {
          assert items[..i + 1][i] == items[i];
          assert UpdateThrows(items, id, callback);
          assert ThrowsFirst(items, id, callback, decoded.error);
          return Err(decoded.error);
        }
        found := Some(decoded.value);
        next := next + [decoded.value];
      } else {
        next := next + [items[i]];
      }
      ReplacedStep(items, id, callback, prev, i, next[i]);
      assert next[..i] == prev;
      FoundStep(items[..i + 1], id, next);
      i := i + 1;
    }
    assert items[..i] == items;
    r := Ok((next, found));
  }

  /** With no item of that id, the list comes back as it was and nothing is found. */
  lemma UpdateAbsent(items: seq<Record>, id: Value, callback: Record -> Record, next: seq<Record>)
    requires forall i :: 0 <= i < |items| ==> Id(items[i]) != id
    requires Replaced(items, id, callback, next)
    ensures next == items
    ensures Found(items, id, next) == None
  {
  }

  /** The inner `todos` object: its `items` and the three list operations. */
  class TodoList {
    var items: seq<Record>

    constructor()
      ensures items == []
    {
      items := [];
    }

    /** `add(todo)`: append the decoded todo. */
    method Add(todo: Record) returns (r: Result<(), TypeError>)
      modifies this
      ensures DecodeTypes(todo).Ok? ==> r == Ok(()) && items == old(items) + [DecodeTypes(todo).value]
      ensures DecodeTypes(todo).Err? ==> r == Err(DecodeTypes(todo).error) && items == old(items)
    {
      var decoded := DecodeTypes(todo);
      if decoded.Err? {
        return Err(decoded.error);
      }
      items := items + [decoded.value];
      r := Ok(());
    }

    /** `update(id, callback)`: replace the items with that id; return the last replacement. */
    method Update(id: Value, callback: Record -> Record) returns (r: Result<Option<Record>, TypeError>)
      modifies this
      ensures r.Err? <==> UpdateThrows(old(items), id, callback)
      ensures r.Err? ==> ThrowsFirst(old(items), id, callback, r.error) && items == old(items)
      ensures r.Ok? ==> Replaced(old(items), id, callback, items)
      ensures r.Ok? ==> r.value == Found(old(items), id, items)
    {
      var mapped := MapMatching(items, id, callback);
      if mapped.Err? {
        return Err(mapped.error);
      }
      items := mapped.value.0;
      r := Ok(mapped.value.1);
    }

    /** `delete(id)`: keep the items whose id differs. */
    method Delete(id: Value)
      modifies this
      ensures items == Without(old(items), id)
    {
      items := Without(items, id);
    }
  }
}
