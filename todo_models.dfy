/** The Pydantic models of the todo API: the create body, the update body
    and the response shape, with their field bounds and defaults. */
module TodoModels {
  import opened Common

  /** A clock reading, as `datetime.utcnow()` returns it. */
  type Timestamp = int

  predicate ValidName(s: string) { 1 <= |s| <= 100 }
  predicate ValidDescription(s: string) { 1 <= |s| <= 500 }

  /** The body of `POST /todos/`; `complete` is `None` when the client left
      it out. */
  datatype TodoCreate = TodoCreate(name: string, description: string, complete: Option<bool>)

  predicate ValidTodoCreate(t: TodoCreate)
  {
    ValidName(t.name) && ValidDescription(t.description)
  }

  /** The completion flag `model_dump()` reports for a create body. */
  function CompleteOf(t: TodoCreate): (b: bool)
    ensures b <==> t.complete == Some(true)
  {
    t.complete.GetOr(false)
  }

  /** The body of `PUT /todos/{id}`: every field optional. */
  datatype TodoUpdate = TodoUpdate(name: Patch<string>, description: Patch<string>, complete: Patch<bool>)

  /** A name or description, when given, has the create bounds; `null` and
      omission are both accepted. */
  predicate ValidTodoUpdate(u: TodoUpdate)
  {
    (u.name.Set? ==> ValidName(u.name.value)) && (u.description.Set? ==> ValidDescription(u.description.value))
  }

  /** The update body that sets every field to the values of `t`. */
  function SetAll(t: TodoCreate): TodoUpdate
  {
    TodoUpdate(Set(t.name), Set(t.description), Set(CompleteOf(t)))
  }

  /** The update shape has the bounds of the create shape, and a body that
      sets nothing is still well-formed. */
  lemma UpdateBoundsMatchCreate(t: TodoCreate)
    ensures ValidTodoUpdate(SetAll(t)) <==> ValidTodoCreate(t)
    ensures ValidTodoUpdate(TodoUpdate(Unset, Unset, Unset))
    ensures ValidTodoUpdate(TodoUpdate(SetNull, SetNull, SetNull))
  {
  }

  /** The response shape `TodoResponse`: a string id, the `TodoBase` fields
      and two optional timestamps. */
  datatype TodoResponse = TodoResponse(id: string, name: string, description: string, complete: bool,
                                       createdAt: Option<Timestamp>, updatedAt: Option<Timestamp>)

  /** `TodoResponse` inherits the name and description bounds of `TodoBase`. */
  predicate ValidTodoResponse(r: TodoResponse)
  {
    ValidName(r.name) && ValidDescription(r.description)
  }
}
