/** The `books` table: its columns, the `valid_rating` check constraint and
    what the database does when a row is written. */
module SqlModels {
  import opened Common

  /** A stored row. `title`, `author` and `rating` are `NOT NULL`;
      `description` is nullable. */
  datatype Row = Row(id: int, title: string, author: string, description: Option<string>, rating: int)

  /** The `valid_rating` check constraint. */
  predicate RowInvariant(r: Row)
  {
    0 <= r.rating <= 100
  }

  /** A row as the session holds it before the write: any column may have
      been set to `None`. */
  datatype PendingRow =
    PendingRow(id: int, title: Option<string>, author: Option<string>, description: Option<string>,
               rating: Option<int>)

  function Pending(r: Row): PendingRow
  {
    PendingRow(r.id, Some(r.title), Some(r.author), r.description, Some(r.rating))
  }

  /** Writing a pending row: the `NOT NULL` columns and the check
      constraint are enforced, and a violation is an `IntegrityError`. */
  function Flush(p: PendingRow): (r: Result<Row>)
    ensures r.Ok? <==> p.title.Some? && p.author.Some? && p.rating.Some? && 0 <= p.rating.value <= 100
    ensures r.Err? ==> r.error == IntegrityError
    ensures r.Ok? ==> RowInvariant(r.value) && Pending(r.value) == p
  {
    if p.title.Some? && p.author.Some? && p.rating.Some? && 0 <= p.rating.value <= 100 then
      Ok(Row(p.id, p.title.value, p.author.value, p.description, p.rating.value))
    else
      Err(IntegrityError)
  }

  /** A stored row writes back unchanged. */
  lemma FlushPending(r: Row)
    ensures Flush(Pending(r)) == Ok(r) <==> RowInvariant(r)
  {
  }

  /** The `INSERT` of a new row; a rating of `None` takes the column
      default 0. */
  function Insert(id: int, title: string, author: string, description: Option<string>, rating: Option<int>)
    : (r: Result<Row>)
    ensures rating.None? ==> r == Ok(Row(id, title, author, description, 0))
    ensures rating.Some? && 0 <= rating.value <= 100 ==> r == Ok(Row(id, title, author, description, rating.value))
    ensures rating.Some? && !(0 <= rating.value <= 100) ==> r == Err(IntegrityError)
  {
    Flush(PendingRow(id, Some(title), Some(author), description, Some(rating.GetOr(0))))
  }
}
