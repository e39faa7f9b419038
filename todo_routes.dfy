/** The todo handlers over a document collection. The collection is an
    explicit `TodoCollection` object holding the documents in their natural
    (insertion) order, which is the order `find()` returns them in. New
    ObjectIds and the clock readings of `datetime.utcnow()` are parameters. */
module TodoRoutes {
  import opened Common
  import opened TodoModels
  import opened TodoSchemas

  predicate UniqueIds(docs: seq<Doc>)
  {
    forall i, j :: 0 <= i < j < |docs| ==> docs[i].id != docs[j].id
  }

  /** The position of the document `find_one({"_id": id})` returns. This
      is the first-match search of `Basics.IndexOf` again, over documents
      keyed by ObjectId rather than books keyed by UUID; the two services
      share no record type, so each module keeps its own. */
  function IndexOfId(docs: seq<Doc>, id: ObjectId): (r: Option<nat>)
    ensures r.None? <==> forall i :: 0 <= i < |docs| ==> docs[i].id != id
    ensures r.Some? ==> r.value < |docs| && docs[r.value].id == id
    ensures r.Some? ==> forall j :: 0 <= j < r.value ==> docs[j].id != id
  {
    if docs == [] then None
    else if docs[0].id == id then Some(0)
    else
      match IndexOfId(docs[1..], id)
      case None => None
      case Some(i) => Some(i + 1)
  }

  /** `validate_object_id` followed by the lookup of the document: a
      malformed id is rejected before the collection is consulted. */
  function Locate(docs: seq<Doc>, id: string): (r: Result<nat>)
    ensures !IsObjectIdText(id) <==> r == Err(MalformedId)
    ensures IsObjectIdText(id) ==> (IndexOfId(docs, ParseObjectId(id).value).None? <==> r == Err(NotFound))
    ensures r.Ok? ==> IsObjectIdText(id) && IndexOfId(docs, ParseObjectId(id).value) == Some(r.value)
    ensures r.Err? ==> r.error == MalformedId || r.error == NotFound
  {
    match ParseObjectId(id)
    case None => Err(MalformedId)
    case Some(oid) =>
      match IndexOfId(docs, oid)
      case None => Err(NotFound)
      case Some(i) => Ok(i)
  }

  // ----------------------------------------------------------- queries

  /** The filter `get_todos` builds: no constraint when `complete` is
      `None`, otherwise equality on the stored `complete` field (a document
      without the field matches neither `true` nor `false`). */
  predicate Matches(d: Doc, complete: Option<bool>)
  {
    complete.Some? ==> d.complete == complete
  }

  /** `find(query)`: the matching documents, in collection order. */
  function Select(docs: seq<Doc>, complete: Option<bool>): (r: seq<Doc>)
    ensures forall d :: d in r <==> d in docs && Matches(d, complete)
    ensures |r| <= |docs|
    ensures complete.None? ==> r == docs
  {
    if docs == [] then []
    else (if Matches(docs[0], complete) then [docs[0]] else []) + Select(docs[1..], complete)
  }

  /** `find(query)` keeps collection order: selecting from two runs of
      documents is selecting from each run in turn. */
  lemma {:induction false} SelectAppend(a: seq<Doc>, b: seq<Doc>, complete: Option<bool>)
    ensures Select(a + b, complete) == Select(a, complete) + Select(b, complete)
    decreases |a|
  {
    if a == [] {
      assert a + b == b;
    } else {
      var h := if Matches(a[0], complete) then [a[0]] else [];
      assert (a + b)[0] == a[0] && (a + b)[1..] == a[1..] + b;
      SelectAppend(a[1..], b, complete);
      var x, y := Select(a[1..], complete), Select(b, complete);
      assert Select(a + b, complete) == h + (x + y);
      assert Select(a, complete) == h + x;
      ConcatAssoc(h, x, y);
    }
  }

  /** A single document is selected exactly when it matches. */
  lemma SelectSingle(d: Doc, complete: Option<bool>)
    ensures Select([d], complete) == if Matches(d, complete) then [d] else []
  {
    assert [d][1..] == [];
  }

  /** What `delete_many({"complete": True})` leaves: every document whose
      `complete` is not `true`, in collection order. It removes exactly as
      many documents as `count_documents({"complete": True})` counts. */
  function WithoutCompleted(docs: seq<Doc>): (r: seq<Doc>)
    ensures forall d :: d in r <==> d in docs && !Matches(d, Some(true))
    ensures |Select(docs, Some(true))| + |r| == |docs|
  {
    if docs == [] then []
    else (if Matches(docs[0], Some(true)) then [] else [docs[0]]) + WithoutCompleted(docs[1..])
  }

  /** `delete_many` keeps collection order: what is left of two runs of
      documents is what is left of each run in turn. */
  lemma {:induction false} WithoutCompletedAppend(a: seq<Doc>, b: seq<Doc>)
    ensures WithoutCompleted(a + b) == WithoutCompleted(a) + WithoutCompleted(b)
    decreases |a|
  {
    if a == [] {
      assert a + b == b;
    } else {
      var h := if Matches(a[0], Some(true)) then [] else [a[0]];
      assert (a + b)[0] == a[0] && (a + b)[1..] == a[1..] + b;
      WithoutCompletedAppend(a[1..], b);
      var x, y := WithoutCompleted(a[1..]), WithoutCompleted(b);
      assert WithoutCompleted(a + b) == h + (x + y);
      assert WithoutCompleted(a) == h + x;
      ConcatAssoc(h, x, y);
    }
  }

  /** A single document is kept exactly when it is not completed. */
  lemma WithoutCompletedSingle(d: Doc)
    ensures WithoutCompleted([d]) == if Matches(d, Some(true)) then [] else [d]
  {
    assert [d][1..] == [];
  }

  /** Deleting the completed documents keeps the identifiers distinct. */
  lemma {:induction false} WithoutCompletedUnique(docs: seq<Doc>)
    requires UniqueIds(docs)
    ensures UniqueIds(WithoutCompleted(docs))
  {
    if docs != [] {
      TailUnique(docs);
      WithoutCompletedUnique(docs[1..]);
      if !Matches(docs[0], Some(true)) {
        ConsUnique(docs[0], WithoutCompleted(docs[1..]));
      }
    }
  }

  lemma TailUnique(docs: seq<Doc>)
    requires UniqueIds(docs) && docs != []
    ensures UniqueIds(docs[1..])
    ensures forall d :: d in docs[1..] ==> d.id != docs[0].id
  {
    forall d | d in docs[1..] ensures d.id != docs[0].id {
      var k :| 0 <= k < |docs[1..]| && docs[1..][k] == d;
      assert docs[k + 1] == d;
    }
  }

  lemma ConsUnique(d: Doc, rest: seq<Doc>)
    requires UniqueIds(rest) && forall e :: e in rest ==> e.id != d.id
    ensures UniqueIds([d] + rest)
  {
    var r := [d] + rest;
    forall i, j | 0 <= i < j < |r| ensures r[i].id != r[j].id {
      assert r[j] == rest[j - 1];
      if i > 0 {
        assert r[i] == rest[i - 1];
      }
    }
  }

  /** Every entry of a page of `get_todos` is the serialization of a stored
      document that matches the filter. */
  lemma PageMembers(docs: seq<Doc>, complete: Option<bool>, skip: nat, limit: nat)
    ensures forall x :: x in ListSerial(Window(Select(docs, complete), skip, limit)) ==>
              exists d :: d in docs && Matches(d, complete) && x == IndividualSerial(d)
  {
    var w := Window(Select(docs, complete), skip, limit);
    forall x | x in ListSerial(w)
      ensures exists d :: d in docs && Matches(d, complete) && x == IndividualSerial(d)
    {
      var i :| 0 <= i < |ListSerial(w)| && ListSerial(w)[i] == x;
      assert w[i] in Select(docs, complete);
    }
  }

  /** The completion rate is a percentage. */
  lemma RateBounds(completed: nat, total: nat)
    requires completed <= total && 0 < total
    ensures 0.0 <= completed as real / total as real * 100.0 <= 100.0
  {
    var q := completed as real / total as real;
    assert q * total as real == completed as real;
    assert q <= 1.0;
  }

  /** The document `create_todo` inserts: the body with its defaults and
      the two clock readings. */
  function NewDoc(t: TodoCreate, id: ObjectId, createdAt: Timestamp, updatedAt: Timestamp): (d: Doc)
    ensures ValidTodoCreate(t) ==> WellFormedDoc(d)
    ensures IndividualSerial(d) ==
              TodoResponse(id, t.name, t.description, CompleteOf(t), Some(createdAt), Some(updatedAt))
  {
    Doc(id, Some(t.name), Some(t.description), Some(CompleteOf(t)), Some(createdAt), Some(updatedAt))
  }

  /** Whether an update body has a field left after dropping the `None`s. */
  predicate HasFieldsToSet(u: TodoUpdate)
  {
    u.name.Set? || u.description.Set? || u.complete.Set?
  }

  /** `update_one({"$set": update_data})`: the fields given a value, plus
      `updated_at`. A field omitted or sent as `null` keeps its value. */
  function ApplyTodoUpdate(d: Doc, u: TodoUpdate, now: Timestamp): (r: Doc)
    ensures r.id == d.id && r.createdAt == d.createdAt && r.updatedAt == Some(now)
    ensures u.name.Set? ==> r.name == Some(u.name.value)
    ensures !u.name.Set? ==> r.name == d.name
    ensures u.description.Set? ==> r.description == Some(u.description.value)
    ensures !u.description.Set? ==> r.description == d.description
    ensures u.complete.Set? ==> r.complete == Some(u.complete.value)
    ensures !u.complete.Set? ==> r.complete == d.complete
    ensures WellFormedDoc(d) && ValidTodoUpdate(u) ==> WellFormedDoc(r)
  {
    d.(name := if u.name.Set? then Some(u.name.value) else d.name,
       description := if u.description.Set? then Some(u.description.value) else d.description,
       complete := if u.complete.Set? then Some(u.complete.value) else d.complete,
       updatedAt := Some(now))
  }

  /** Applying the same body again changes only `updated_at`; a body whose
      every field is unset or null changes only `updated_at` too. */
  lemma ApplyTodoUpdateLaws(d: Doc, u: TodoUpdate, t1: Timestamp, t2: Timestamp)
    ensures ApplyTodoUpdate(ApplyTodoUpdate(d, u, t1), u, t2) == ApplyTodoUpdate(d, u, t2)
    ensures !HasFieldsToSet(u) ==> ApplyTodoUpdate(d, u, t1) == d.(updatedAt := Some(t1))
  {
  }

  /** The toggle: `complete` becomes the negation of its old value, a
      missing value reading as false; `updated_at` is refreshed. */
  function Toggled(d: Doc, now: Timestamp): (r: Doc)
    ensures r.complete.Some? && (r.complete.value <==> !Matches(d, Some(true)))
    ensures r == d.(complete := r.complete, updatedAt := Some(now))
  {
    d.(complete := Some(!d.complete.GetOr(false)), updatedAt := Some(now))
  }

  /** Toggling twice restores the completion the client sees; only the
      timestamp differs (a missing field comes back as an explicit false). */
  lemma ToggleTwice(d: Doc, t1: Timestamp, t2: Timestamp)
    ensures IndividualSerial(Toggled(Toggled(d, t1), t2)).complete == IndividualSerial(d).complete
    ensures d.complete.Some? ==> Toggled(Toggled(d, t1), t2) == d.(updatedAt := Some(t2))
  {
  }

  /** The values `get_todos` uses for a query parameter the client leaves
      out. */
  const DefaultSkip: int := 0
  const DefaultLimit: int := 100

  /** The integer counts of `get_todo_stats` and the completion rate before
      rounding. */
  datatype Stats = Stats(total: nat, completed: nat, pending: int, completionRate: real)

  // ----------------------------------------------------------- collection

  class TodoCollection {
    var docs: seq<Doc>

    /** No two documents share an `_id`. */
    ghost predicate Valid()
      reads this
    {
      UniqueIds(docs)
    }

    /** Every document has the shape the handlers write. */
    ghost predicate WellFormed()
      reads this
    {
      forall i :: 0 <= i < |docs| ==> WellFormedDoc(docs[i])
    }

    constructor ()
      ensures Valid() && WellFormed() && docs == []
    {
      docs := [];
    }

    /** `get_todos`: the documents matching the filter, after dropping
        `skip` of them, at most `limit` of them. */
    function GetTodos(skip: int, limit: int, complete: Option<bool>): (r: Result<seq<TodoResponse>>)
      reads this
      ensures r.Err? <==> !(0 <= skip && 1 <= limit <= 1000)
      ensures r.Err? ==> r.error == ValidationError
      ensures r.Ok? ==> r.value == ListSerial(Window(Select(docs, complete), skip, limit))
      ensures r.Ok? ==> |r.value| <= limit
      ensures r.Ok? ==> forall x :: x in r.value ==>
                          exists d :: d in docs && Matches(d, complete) && x == IndividualSerial(d)
      ensures r.Ok? && skip == 0 && complete.None? && |docs| <= limit ==> r.value == ListSerial(docs)
    {
      if 0 <= skip && 1 <= limit <= 1000 then
        PageMembers(docs, complete, skip, limit);
        assert |docs| <= limit ==> Window(docs, 0, limit) == docs by {
          if |docs| <= limit { WindowWhole(docs, limit); }
        }
        Ok(ListSerial(Window(Select(docs, complete), skip, limit)))
      else
        Err(ValidationError)
    }

    /** `GET /todos/` with no `skip` or `limit`: the first hundred matching
        documents, serialized. */
    lemma DefaultQuery(complete: Option<bool>)
      ensures GetTodos(DefaultSkip, DefaultLimit, complete) ==
                Ok(ListSerial(Select(docs, complete)[..Min(DefaultLimit, |Select(docs, complete)|)]))
    {
    }

    /** `get_todo`. The id of the response parses back to the document's. */
    function GetTodo(id: string): (r: Result<TodoResponse>)
      reads this
      ensures Locate(docs, id).Err? ==> r == Err(Locate(docs, id).error)
      ensures Locate(docs, id).Ok? ==> r == Ok(IndividualSerial(docs[Locate(docs, id).value]))
      ensures r.Ok? ==> ParseObjectId(r.value.id) == ParseObjectId(id)
    {
      match Locate(docs, id)
      case Err(e) => Err(e)
      case Ok(i) =>
        ParseIdText(docs[i].id);
        Ok(IndividualSerial(docs[i]))
    }

    /** `create_todo`: inserts one document under a fresh ObjectId. */
    method CreateTodo(t: TodoCreate, newId: ObjectId, createdAt: Timestamp, updatedAt: Timestamp)
      returns (r: Result<TodoResponse>)
      requires Valid()
      requires IndexOfId(docs, newId).None?
      modifies this
      ensures Valid() && (old(WellFormed()) ==> WellFormed())
      ensures !ValidTodoCreate(t) ==> r == Err(ValidationError) && docs == old(docs)
      ensures ValidTodoCreate(t) ==>
                docs == old(docs) + [NewDoc(t, newId, createdAt, updatedAt)] &&
                r == Ok(IndividualSerial(NewDoc(t, newId, createdAt, updatedAt)))
    {
      if !ValidTodoCreate(t) {
        return Err(ValidationError);
      }
      var doc := NewDoc(t, newId, createdAt, updatedAt);
      docs := docs + [doc];
      return Ok(IndividualSerial(doc));
    }

    /** `update_todo`: body validation, then the id, then existence, then
        the empty-body check, then the `$set`. */
    method UpdateTodo(id: string, u: TodoUpdate, now: Timestamp) returns (r: Result<TodoResponse>)
      requires Valid()
      modifies this
      ensures Valid() && (old(WellFormed()) ==> WellFormed())
      ensures !ValidTodoUpdate(u) ==> r == Err(ValidationError) && docs == old(docs)
      ensures ValidTodoUpdate(u) && Locate(old(docs), id).Err? ==>
                r == Err(Locate(old(docs), id).error) && docs == old(docs)
      ensures ValidTodoUpdate(u) && Locate(old(docs), id).Ok? && !HasFieldsToSet(u) ==>
                r == Err(NoFieldsToUpdate) && docs == old(docs)
      ensures ValidTodoUpdate(u) && Locate(old(docs), id).Ok? && HasFieldsToSet(u) ==>
                var i := Locate(old(docs), id).value;
                docs == old(docs)[i := ApplyTodoUpdate(old(docs)[i], u, now)] &&
                r == Ok(IndividualSerial(docs[i]))
    {
      if !ValidTodoUpdate(u) {
        return Err(ValidationError);
      }
      var found := Locate(docs, id);
      if found.Err? {
        return Err(found.error);
      }
      if !HasFieldsToSet(u) {
        return Err(NoFieldsToUpdate);
      }
      var i := found.value;
      docs := docs[i := ApplyTodoUpdate(docs[i], u, now)];
      return Ok(IndividualSerial(docs[i]));
    }

    /** `toggle_todo`. */
    method ToggleTodo(id: string, now: Timestamp) returns (r: Result<TodoResponse>)
      requires Valid()
      modifies this
      ensures Valid() && (old(WellFormed()) ==> WellFormed())
      ensures Locate(old(docs), id).Err? ==> r == Err(Locate(old(docs), id).error) && docs == old(docs)
      ensures Locate(old(docs), id).Ok? ==>
                var i := Locate(old(docs), id).value;
                docs == old(docs)[i := Toggled(old(docs)[i], now)] &&
                r == Ok(IndividualSerial(docs[i])) &&
                r.value.complete == !IndividualSerial(old(docs)[i]).complete
    {
      var found := Locate(docs, id);
      if found.Err? {
        return Err(found.error);
      }
      var i := found.value;
      docs := docs[i := Toggled(docs[i], now)];
      return Ok(IndividualSerial(docs[i]));
    }

    /** `delete_todo`: afterwards no document has that id, so a second
        delete is not-found. */
    method DeleteTodo(id: string) returns (r: Result<()>)
      requires Valid()
      modifies this
      ensures Valid() && (old(WellFormed()) ==> WellFormed())
      ensures Locate(old(docs), id).Err? ==> r == Err(Locate(old(docs), id).error) && docs == old(docs)
      ensures Locate(old(docs), id).Ok? ==>
                var i := Locate(old(docs), id).value;
                r == Ok(()) && docs == old(docs)[..i] + old(docs)[i + 1..]
      ensures r.Ok? ==> Locate(docs, id) == Err(NotFound)
    {
      var found := Locate(docs, id);
      if found.Err? {
        return Err(found.error);
      }
      var i := found.value;
      var rest := docs[..i] + docs[i + 1..];
      forall j | 0 <= j < |rest|
        ensures rest[j] == docs[if j < i then j else j + 1]
      {
      }
      docs := rest;
      return Ok(());
    }

    /** `delete_completed_todos`: zero matches is still a success. */
    method DeleteCompletedTodos() returns (deletedCount: nat)
      requires Valid()
      modifies this
      ensures Valid() && (old(WellFormed()) ==> WellFormed())
      ensures docs == WithoutCompleted(old(docs))
      ensures deletedCount == |Select(old(docs), Some(true))| == |old(docs)| - |docs|
    {
      var kept := WithoutCompleted(docs);
      WithoutCompletedUnique(docs);
      assert forall i :: 0 <= i < |kept| ==> kept[i] in docs;
      deletedCount := |docs| - |kept|;
      docs := kept;
    }

    /** `get_todo_stats`. */
    function GetTodoStats(): (s: Stats)
      reads this
      ensures s.total == |docs| && s.completed == |Select(docs, Some(true))|
      ensures s.completed + s.pending == s.total && 0 <= s.pending
      ensures s.total == 0 ==> s.completionRate == 0.0
      ensures 0.0 <= s.completionRate <= 100.0
    {
      var total := |docs|;
      var completed := |Select(docs, Some(true))|;
      assert completed <= total by { assert |WithoutCompleted(docs)| >= 0; }
      assert total > 0 ==> 0.0 <= completed as real / total as real * 100.0 <= 100.0 by {
        if total > 0 { RateBounds(completed, total); }
      }
      Stats(total, completed, total - completed,
            if total > 0 then completed as real / total as real * 100.0 else 0.0)
    }
  }

  /** Two todos, one of them toggled to complete: deleting the completed
      todos removes that one, and the statistics count the other. */
  method TwoTodosExample(first: ObjectId, second: ObjectId) returns (deleted: nat, stats: Stats)
    requires first != second
    ensures deleted == 1
    ensures stats.total == 1 && stats.completed == 0 && stats.pending == 1
  {
    var todos := new TodoCollection();
    var d1, d2 := CreateTwo(todos, first, second);
    ToggleSecond(todos, d1, d2);
    ExampleFacts(d1, d2, second);
    deleted := todos.DeleteCompletedTodos();
    stats := todos.GetTodoStats();
  }

  /** The first step of the example: two todos created. */
  method CreateTwo(todos: TodoCollection, first: ObjectId, second: ObjectId) returns (d1: Doc, d2: Doc)
    requires todos.Valid() && todos.docs == [] && first != second
    modifies todos
    ensures todos.Valid() && todos.docs == [d1, d2]
    ensures d1.id == first && d2.id == second && d1.complete == Some(false) && d2.complete == Some(false)
  {
    var shop := TodoCreate("Shop", "Buy milk", None);
    var call := TodoCreate("Call", "Call home", None);
    d1, d2 := NewDoc(shop, first, 1, 1), NewDoc(call, second, 2, 2);
    var _ := todos.CreateTodo(shop, first, 1, 1);
    var _ := todos.CreateTodo(call, second, 2, 2);
  }

  /** The second step of the example: the second todo toggled. */
  method ToggleSecond(todos: TodoCollection, d1: Doc, d2: Doc)
    requires todos.Valid() && todos.docs == [d1, d2] && d1.id != d2.id
    requires d1.complete == Some(false) && d2.complete == Some(false)
    modifies todos
    ensures todos.Valid() && todos.docs == [d1, Toggled(d2, 3)]
  {
    ExampleFacts(d1, d2, d2.id);
    var _ := todos.ToggleTodo(d2.id, 3);
    assert todos.docs == [d1, d2][1 := Toggled(d2, 3)];
  }

  /** The lookups and filters the example goes through. */
  lemma ExampleFacts(d1: Doc, d2: Doc, second: ObjectId)
    requires d1.id != second && d2.id == second
    requires d1.complete == Some(false) && d2.complete == Some(false)
    ensures IndexOfId([d1], second).None?
    ensures Locate([d1, d2], second) == Ok(1)
    ensures WithoutCompleted([d1, Toggled(d2, 3)]) == [d1]
    ensures |Select([d1, Toggled(d2, 3)], Some(true))| == 1
    ensures Select([d1], Some(true)) == []
  {
    ParseIdText(second);
    assert IndexOfId([d1, d2], second) == Some(1) by {
      assert [d1, d2][1..] == [d2];
    }
    var d3 := Toggled(d2, 3);
    assert [d1, d3][1..] == [d3];
  }
}
