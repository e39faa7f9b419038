/** Vocabulary shared by the three stores: optional values, the fields of a
    partial-update payload, handler outcomes and offset/limit windows. */
module Common {

  /** A value that may be absent: a missing document field, a `None`
      argument, an unset query parameter. */
  datatype Option<T> = None | Some(value: T) {

    /** The value, or `default` when absent (Python's `d.get(k, default)`). */
    function GetOr(default: T): T
    {
      match this
      case Some(v) => v
      case None => default
    }
  }

  /** One field of a partial-update body as the client sent it: left out of
      the JSON object, present with `null`, or present with a value. */
  datatype Patch<T> = Unset | SetNull | Set(value: T) {

    /** The field as `model_dump()` reports it once it is present. */
    function Dumped(): Option<T>
      requires !Unset?
    {
      if Set? then Some(value) else None
    }
  }

  /** The ways a handler fails, each with the HTTP status it maps to. */
  datatype Error =
    | ValidationError   // body or query parameters rejected by the schema (422)
    | MalformedId       // identifier of the wrong shape (400)
    | NoFieldsToUpdate  // update body with nothing to apply (400)
    | NotFound          // no record with that identifier (404)
    | IntegrityError    // the database refused the write (500)

  datatype Result<T> = Ok(value: T) | Err(error: Error)

  function Min(a: int, b: int): int
  {
    if a <= b then a else b
  }

  /** What `skip(n).limit(m)` / `OFFSET n LIMIT m` leaves of `s`: at most
      `limit` consecutive elements, starting at position `skip`. */
  function Window<T>(s: seq<T>, skip: nat, limit: nat): (r: seq<T>)
    ensures |r| == Min(limit, |s| - Min(skip, |s|))
    ensures forall i :: 0 <= i < |r| ==> skip + i < |s| && r[i] == s[skip + i]
  {
    var lo := Min(skip, |s|);
    s[lo..Min(lo + limit, |s|)]
  }

  /** Concatenation regroups. Kept as a lemma of its own so that the step
      is proved without the contracts of the functions around it. */
  lemma ConcatAssoc<T>(h: seq<T>, x: seq<T>, y: seq<T>)
    ensures h + (x + y) == (h + x) + y
  {
  }

  /** A window that starts at the front and is at least as long as the
      sequence is the whole sequence. */
  lemma WindowWhole<T>(s: seq<T>, limit: nat)
    requires |s| <= limit
    ensures Window(s, 0, limit) == s
  {
  }
}
