/**
 * The in-memory todo repository: a table from id to todo with the five
 * operations create, find, all, update and delete.
 *
 * Each operation is first specified as a function on the table's value
 * (`Store`); the class `TodoRepositoryForMemory` holds the table in a field
 * and its methods are proved to do what those functions say.
 */
module Repositories {
  import opened Entities

  /** The two error kinds a repository reports. */
  datatype RepositoryError = NotFound(id: int32) | Unexpected(message: string)

  datatype Result<T> = Ok(value: T) | Err(error: RepositoryError)

  /** The table held by the in-memory repository. */
  type Store = map<int32, Todo>

  /** Every entry is filed under its own id. */
  predicate WellKeyed(s: Store) {
    forall id :: id in s ==> s[id].id == id
  }

  /** The table left by an operation, and what the operation returned. */
  datatype Outcome<T> = Outcome(store: Store, result: Result<T>)

  /** The id a create hands out: the number of entries plus one. */
  function NextId(s: Store): int32
    requires |s| < MaxInt32
  {
    (|s| + 1) as int32
  }

  /**
   * create: a new, not completed item with the payload's text is filed
   * under `NextId(s)`, replacing whatever was filed there.
   */
  function CreateIn(s: Store, payload: CreateTodo): (o: Outcome<Todo>)
    requires |s| < MaxInt32
    ensures o.result.Ok?
    ensures o.result.value.id as int == |s| + 1
    ensures o.result.value.text == payload.text && !o.result.value.completed
    ensures o.store.Keys == s.Keys + {o.result.value.id}
    ensures o.store[o.result.value.id] == o.result.value
    ensures forall id :: id in s && id != o.result.value.id ==> o.store[id] == s[id]
    ensures |o.store| == if o.result.value.id in s then |s| else |s| + 1
    ensures WellKeyed(s) ==> WellKeyed(o.store)
  {
    var todo := NewTodo(NextId(s), payload.text);
    Outcome(s[todo.id := todo], Ok(todo))
  }

  /** find: the entry filed under `id`, or `NotFound(id)`. */
  function FindIn(s: Store, id: int32): (r: Result<Todo>)
    ensures r.Ok? <==> id in s
    ensures r.Ok? ==> r.value == s[id]
    ensures r.Err? ==> r.error == NotFound(id)
  {
    if id in s then Ok(s[id]) else Err(NotFound(id))
  }

  /** `todos` lists the entries of `s`, each exactly once, in some order. */
  predicate ListsStore(s: Store, todos: seq<Todo>) {
    && |todos| == |s|
    && (forall i :: 0 <= i < |todos| ==> todos[i].id in s && s[todos[i].id] == todos[i])
    && (forall id :: id in s ==> s[id] in todos)
    && (forall i, j :: 0 <= i < j < |todos| ==> todos[i] != todos[j])
  }

  /**
   * update: on a missing id, `NotFound(id)` and the table unchanged;
   * otherwise each field the payload leaves out is taken from the stored
   * entry, and the merged record replaces it.
   */
  function UpdateIn(s: Store, id: int32, payload: UpdateTodo): (o: Outcome<Todo>)
    ensures id !in s ==> o == Outcome(s, Err(NotFound(id)))
    ensures id in s ==> o.result.Ok?
    ensures id in s ==> o.result.value.id == id
    ensures id in s && payload.text.Some? ==> o.result.value.text == payload.text.value
    ensures id in s && payload.text.None? ==> o.result.value.text == s[id].text
    ensures id in s && payload.completed.Some? ==> o.result.value.completed == payload.completed.value
    ensures id in s && payload.completed.None? ==> o.result.value.completed == s[id].completed
    ensures id in s ==> o.store.Keys == s.Keys && o.store[id] == o.result.value
    ensures forall k :: k in s && k != id ==> o.store[k] == s[k]
    ensures |o.store| == |s|
    ensures WellKeyed(s) ==> WellKeyed(o.store)
  {
    if id !in s then
      Outcome(s, Err(NotFound(id)))
    else
      var current := s[id];
      var todo := Todo(id, payload.text.UnwrapOr(current.text), payload.completed.UnwrapOr(current.completed));
      Outcome(s[id := todo], Ok(todo))
  }

  /**
   * delete: on a missing id, `NotFound(id)` and the table unchanged;
   * otherwise exactly that entry is removed.
   */
  function DeleteIn(s: Store, id: int32): (o: Outcome<()>)
    ensures id !in s ==> o == Outcome(s, Err(NotFound(id)))
    ensures id in s ==> o.result.Ok? && o.store.Keys == s.Keys - {id}
    ensures id in s ==> |o.store| == |s| - 1
    ensures forall k :: k in s && k != id ==> o.store[k] == s[k]
    ensures WellKeyed(s) ==> WellKeyed(o.store)
  {
    if id !in s then Outcome(s, Err(NotFound(id))) else Outcome(s - {id}, Ok(()))
  }

  /** The in-memory repository: one table, changed in place by each operation. */
  class TodoRepositoryForMemory {
    var store: Store

    ghost predicate Valid()
      reads this
    {
      WellKeyed(store)
    }

    /** A repository starts empty. */
    constructor ()
      ensures Valid() && store == map[]
    {
      store := map[];
    }

    /** The id is computed from the table's size, so it must fit an `int32`. */
    method Create(payload: CreateTodo) returns (r: Result<Todo>)
      requires Valid()
      requires |store| < MaxInt32
      modifies this
      ensures Valid()
      ensures Outcome(store, r) == CreateIn(old(store), payload)
    {
      var todo := NewTodo(NextId(store), payload.text);
      store := store[todo.id := todo];
      r := Ok(todo);
    }

    /** Reads the table only; it is left as it was. */
    method Find(id: int32) returns (r: Result<Todo>)
      ensures r == FindIn(store, id)
    {
      if id in store {
        r := Ok(store[id]);
      } else {
        r := Err(NotFound(id));
      }
    }

    /** Collects the stored entries, visiting the keys in an unspecified order. */
    method All() returns (todos: seq<Todo>)
      requires Valid()
      ensures ListsStore(store, todos)
    {
      todos := [];
      var pending := store.Keys;
      while pending != {}
        invariant pending <= store.Keys
        invariant |todos| + |pending| == |store|
        invariant forall i :: 0 <= i < |todos| ==> todos[i].id in store && todos[i].id !in pending && store[todos[i].id] == todos[i]
        invariant forall id :: id in store && id !in pending ==> store[id] in todos
        invariant forall i, j :: 0 <= i < j < |todos| ==> todos[i] != todos[j]
        decreases pending
      {
        var id :| id in pending;
        todos := todos + [store[id]];
        pending := pending - {id};
      }
    }

    method Update(id: int32, payload: UpdateTodo) returns (r: Result<Todo>)
      requires Valid()
      modifies this
      ensures Valid()
      ensures Outcome(store, r) == UpdateIn(old(store), id, payload)
    {
      if id !in store {
        r := Err(NotFound(id));
        return;
      }
      var current := store[id];
      var text := payload.text.UnwrapOr(current.text);
      var completed := payload.completed.UnwrapOr(current.completed);
      var todo := Todo(id, text, completed);
      store := store[id := todo];
      r := Ok(todo);
    }

    method Delete(id: int32) returns (r: Result<()>)
      requires Valid()
      modifies this
      ensures Valid()
      ensures Outcome(store, r) == DeleteIn(old(store), id)
    {
      if id !in store {
        r := Err(NotFound(id));
        return;
      }
      store := store - {id};
      r := Ok(());
    }
  }

  // ---------------------------------------------------------------------
  // Properties of single operations

  /** find right after create returns the record create returned. */
  lemma FindAfterCreate(s: Store, payload: CreateTodo)
    requires |s| < MaxInt32
    ensures var o := CreateIn(s, payload); FindIn(o.store, o.result.value.id) == o.result
  {
  }

  /** find right after a successful update returns the merged record. */
  lemma FindAfterUpdate(s: Store, id: int32, payload: UpdateTodo)
    ensures var o := UpdateIn(s, id, payload); o.result.Ok? ==> FindIn(o.store, id) == o.result
  {
  }

  /** find right after a successful delete reports the id as missing. */
  lemma FindAfterDelete(s: Store, id: int32)
    ensures FindIn(DeleteIn(s, id).store, id) == Err(NotFound(id))
  {
  }

  /** An update that carries neither field leaves the table as it was. */
  lemma EmptyUpdateKeepsStore(s: Store, id: int32)
    requires WellKeyed(s)
    ensures UpdateIn(s, id, UpdateTodo(None, None)).store == s
    ensures id in s ==> UpdateIn(s, id, UpdateTodo(None, None)).result == Ok(s[id])
  {
  }

  /** Applying the same update twice has the same effect as applying it once. */
  lemma UpdateIdempotent(s: Store, id: int32, payload: UpdateTodo)
    ensures var once := UpdateIn(s, id, payload); UpdateIn(once.store, id, payload) == once
  {
  }

  /** A repository operation on this table never reports `Unexpected`. */
  lemma OnlyNotFound(s: Store, id: int32, payload: UpdateTodo)
    ensures FindIn(s, id).Err? ==> FindIn(s, id).error == NotFound(id)
    ensures UpdateIn(s, id, payload).result.Err? ==> UpdateIn(s, id, payload).result.error == NotFound(id)
    ensures DeleteIn(s, id).result.Err? ==> DeleteIn(s, id).result.error == NotFound(id)
  {
  }

  /** In a sequence without repeats, each record occurs once or not at all. */
  lemma {:induction false} DistinctMultiplicity(todos: seq<Todo>, t: Todo)
    requires forall i, j :: 0 <= i < j < |todos| ==> todos[i] != todos[j]
    ensures multiset(todos)[t] == if t in todos then 1 else 0
  {
    if todos != [] {
      var rest := todos[1..];
      assert todos == [todos[0]] + rest;
      assert forall i, j :: 0 <= i < j < |rest| ==> rest[i] != rest[j] by {
        forall i, j | 0 <= i < j < |rest| ensures rest[i] != rest[j] {
          assert rest[i] == todos[i + 1] && rest[j] == todos[j + 1];
        }
      }
      DistinctMultiplicity(rest, t);
      assert todos[0] !in rest by {
        forall j | 0 <= j < |rest| ensures rest[j] != todos[0] {
          assert rest[j] == todos[j + 1];
        }
      }
    }
  }

  /** Two listings of the same table differ only in order. */
  lemma ListingsArePermutations(s: Store, xs: seq<Todo>, ys: seq<Todo>)
    requires ListsStore(s, xs) && ListsStore(s, ys)
    ensures multiset(xs) == multiset(ys)
  {
    forall t: Todo ensures multiset(xs)[t] == multiset(ys)[t] {
      DistinctMultiplicity(xs, t);
      DistinctMultiplicity(ys, t);
      if t in xs {
        var i :| 0 <= i < |xs| && xs[i] == t;
        assert t.id in s && s[t.id] == t;
      }
      if t in ys {
        var j :| 0 <= j < |ys| && ys[j] == t;
        assert t.id in s && s[t.id] == t;
      }
    }
  }

  // ---------------------------------------------------------------------
  // Sequences of operations and the reuse of ids

  /** An operation that can change the table. */
  datatype Op = CreateOp(payload: CreateTodo) | UpdateOp(id: int32, change: UpdateTodo) | DeleteOp(id: int32)

  /** The table after one operation; only a create needs room for a new id. */
  function Apply(s: Store, op: Op): (r: Store)
    requires op.CreateOp? ==> |s| < MaxInt32
    ensures |r| <= |s| + (if op.CreateOp? then 1 else 0)
  {
    match op
    case CreateOp(payload) => CreateIn(s, payload).store
    case UpdateOp(id, change) => UpdateIn(s, id, change).store
    case DeleteOp(id) => DeleteIn(s, id).store
  }

  /** The table after a sequence of operations; it grows by at most one entry per create. */
  function Run(s: Store, ops: seq<Op>): (r: Store)
    requires |s| + Creates(ops) < MaxInt32
    ensures |r| <= |s| + Creates(ops)
    decreases |ops|
  {
    if ops == [] then s else Run(Apply(s, ops[0]), ops[1..])
  }

  /** The number of creates in `ops`. */
  function Creates(ops: seq<Op>): nat {
    if ops == [] then 0 else (if ops[0].CreateOp? then 1 else 0) + Creates(ops[1..])
  }

  /** The ids in use are exactly 1 to the number of entries. */
  predicate Dense(s: Store) {
    && WellKeyed(s)
    && forall id: int32 :: id in s <==> 1 <= id as int <= |s|
  }

  /** One create or update keeps the ids 1..n; a create adds one entry. */
  lemma ApplyKeepsDense(s: Store, op: Op)
    requires Dense(s) && |s| < MaxInt32
    requires !op.DeleteOp?
    ensures Dense(Apply(s, op))
    ensures |Apply(s, op)| == |s| + (if op.CreateOp? then 1 else 0)
  {
  }

  /**
   * As long as nothing is deleted, a table whose ids are 1..n stays so, and
   * every create adds an entry: no create overwrites a live one.
   */
  lemma {:induction false} WithoutDeletesNoCreateOverwrites(s: Store, ops: seq<Op>)
    requires Dense(s)
    requires |s| + Creates(ops) < MaxInt32
    requires forall i :: 0 <= i < |ops| ==> !ops[i].DeleteOp?
    ensures Dense(Run(s, ops))
    ensures |Run(s, ops)| == |s| + Creates(ops)
    decreases |ops|
  {
    if ops != [] {
      assert !ops[0].DeleteOp?;
      ApplyKeepsDense(s, ops[0]);
      var rest := ops[1..];
      assert forall i :: 0 <= i < |rest| ==> !rest[i].DeleteOp? by {
        forall i | 0 <= i < |rest| ensures !rest[i].DeleteOp? {
          assert rest[i] == ops[i + 1];
        }
      }
      WithoutDeletesNoCreateOverwrites(Apply(s, ops[0]), rest);
    }
  }

  /**
   * The reuse of ids: in a table whose ids are 1..n, deleting any id below n
   * makes the next create hand out n again, which is still live; the create
   * replaces that entry, so the table ends with n - 1 entries, not n.
   */
  lemma DeleteThenCreateOverwrites(s: Store, k: int32, payload: CreateTodo)
    requires Dense(s) && |s| < MaxInt32
    requires 1 <= k as int < |s|
    ensures var afterDelete := DeleteIn(s, k).store;
            var o := CreateIn(afterDelete, payload);
            && o.result.value.id as int == |s|
            && o.result.value.id in afterDelete
            && o.store.Keys == s.Keys - {k}
            && |o.store| == |s| - 1
  {
  }

  /**
   * The shortest sequence showing the reuse: create, create, delete id 1,
   * create. The third create gets id 2 and replaces the second item, so
   * only one entry is left.
   */
  lemma ReusedIdScenario(a: CreateTodo, b: CreateTodo, c: CreateTodo)
    ensures var ops := [CreateOp(a), CreateOp(b), DeleteOp(1), CreateOp(c)];
            Creates(ops) == 3 && Run(map[], ops) == map[2 := Todo(2, c.text, false)]
  {
    var s1 := CreateIn(map[], a).store;
    assert s1 == map[1 := Todo(1, a.text, false)];
    var s2 := CreateIn(s1, b).store;
    assert s2 == map[1 := Todo(1, a.text, false), 2 := Todo(2, b.text, false)];
    var s3 := DeleteIn(s2, 1).store;
    assert s3 == map[2 := Todo(2, b.text, false)];
    var s4 := CreateIn(s3, c).store;
    assert s4 == map[2 := Todo(2, c.text, false)];
    var ops := [CreateOp(a), CreateOp(b), DeleteOp(1), CreateOp(c)];
    assert ops[1..] == [CreateOp(b), DeleteOp(1), CreateOp(c)];
    assert ops[1..][1..] == [DeleteOp(1), CreateOp(c)];
    assert ops[1..][1..][1..] == [CreateOp(c)];
    assert Creates([CreateOp(c)]) == 1;
    assert Creates([DeleteOp(1), CreateOp(c)]) == 1;
    assert Creates(ops[1..]) == 2;
    assert Creates(ops) == 3;
    assert Run(map[], ops) == Run(s1, ops[1..]);
    assert Run(s1, ops[1..]) == Run(s2, [DeleteOp(1), CreateOp(c)]);
    assert Run(s2, [DeleteOp(1), CreateOp(c)]) == Run(s3, [CreateOp(c)]);
    assert Run(s3, [CreateOp(c)]) == Run(s4, []);
  }

  /**
   * Create "buy milk" on an empty table, mark it completed, delete it:
   * the item gets id 1, the update keeps its text, and afterwards id 1 is
   * reported missing.
   */
  lemma CreateUpdateDeleteScenario()
    ensures var created := CreateIn(map[], CreateTodo("buy milk"));
            var updated := UpdateIn(created.store, 1, UpdateTodo(None, Some(true)));
            var deleted := DeleteIn(updated.store, 1);
            && created.result == Ok(Todo(1, "buy milk", false))
            && updated.result == Ok(Todo(1, "buy milk", true))
            && deleted.result == Ok(())
            && FindIn(deleted.store, 1) == Err(NotFound(1))
  {
  }
}
