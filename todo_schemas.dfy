/** Stored todo documents and the serializer that turns them into the
    response shape (`individual_serial`, `list_serial`). */
module TodoSchemas {
  import opened Common
  import opened TodoModels

  // -------------------------------------------------------------- ObjectId

  predicate IsHexDigit(c: char) { '0' <= c <= '9' || 'a' <= c <= 'f' || 'A' <= c <= 'F' }
  predicate IsLowerHexDigit(c: char) { '0' <= c <= '9' || 'a' <= c <= 'f' }

  /** The id text the model accepts: 24 hexadecimal digits, either case.
      The bson library is not part of this model; this is the form
      `str(oid)` produces, not a claim about every string bson accepts. */
  predicate IsObjectIdText(s: string)
  {
    |s| == 24 && forall i :: 0 <= i < |s| ==> IsHexDigit(s[i])
  }

  predicate IsCanonicalObjectId(s: string)
  {
    |s| == 24 && forall i :: 0 <= i < |s| ==> IsLowerHexDigit(s[i])
  }

  /** A document identifier, by its canonical text `str(oid)`: 24 lower-case
      hexadecimal digits. */
  type ObjectId = s: string | IsCanonicalObjectId(s) witness "000000000000000000000000"

  function LowerHex(c: char): (d: char)
    requires IsHexDigit(c)
    ensures IsLowerHexDigit(d)
  {
    if 'A' <= c <= 'F' then (c as int + 32) as char else c
  }

  /** `ObjectId(s)` on the 24-hexadecimal-digit form: the identifier the
      text denotes, or `None`, standing for `InvalidId`, for any other text.
      Upper- and lower-case digits denote the same id. */
  function ParseObjectId(s: string): (r: Option<ObjectId>)
    ensures r.Some? <==> IsObjectIdText(s)
    ensures r.Some? ==> forall i :: 0 <= i < 24 ==> r.value[i] == LowerHex(s[i])
  {
    if IsObjectIdText(s) then
      var oid: ObjectId := seq(24, i requires 0 <= i < 24 => LowerHex(s[i]));
      Some(oid)
    else None
  }

  /** The text `str(oid)` of an identifier parses back to that identifier. */
  lemma ParseIdText(oid: ObjectId)
    ensures ParseObjectId(oid) == Some(oid)
  {
    assert ParseObjectId(oid).value == oid;
  }

  // ------------------------------------------------------------ documents

  /** A stored todo document. Every field but `_id` may be missing. */
  datatype Doc = Doc(id: ObjectId, name: Option<string>, description: Option<string>, complete: Option<bool>,
                     createdAt: Option<Timestamp>, updatedAt: Option<Timestamp>)

  /** A document as the handlers write it: every field present, name and
      description within the bounds of `TodoBase`. */
  predicate WellFormedDoc(d: Doc)
  {
    && d.name.Some? && ValidName(d.name.value)
    && d.description.Some? && ValidDescription(d.description.value)
    && d.complete.Some? && d.createdAt.Some? && d.updatedAt.Some?
  }

  // ------------------------------------------------------------ serializer

  /** `individual_serial`: total over every document. */
  function IndividualSerial(d: Doc): (r: TodoResponse)
    ensures r.id == d.id
    ensures d.name.Some? ==> r.name == d.name.value
    ensures d.name.None? ==> r.name == ""
    ensures d.description.Some? ==> r.description == d.description.value
    ensures d.description.None? ==> r.description == ""
    ensures r.complete <==> d.complete == Some(true)
    ensures r.createdAt == d.createdAt && r.updatedAt == d.updatedAt
  {
    TodoResponse(d.id, d.name.GetOr(""), d.description.GetOr(""), d.complete.GetOr(false),
                 d.createdAt, d.updatedAt)
  }

  /** Reads a response back into the document it describes. */
  function Restore(r: TodoResponse): Option<Doc>
  {
    match ParseObjectId(r.id)
    case None => None
    case Some(oid) => Some(Doc(oid, Some(r.name), Some(r.description), Some(r.complete), r.createdAt, r.updatedAt))
  }

  /** Serialization loses nothing of a document whose fields are present,
      and a well-formed document yields a response `TodoResponse` accepts. */
  lemma SerialRoundTrip(d: Doc)
    requires d.name.Some? && d.description.Some? && d.complete.Some?
    ensures Restore(IndividualSerial(d)) == Some(d)
    ensures WellFormedDoc(d) ==> ValidTodoResponse(IndividualSerial(d))
  {
    ParseIdText(d.id);
  }

  /** The defaults are not valid `TodoResponse` values: a document missing
      its name or description serializes to a response the response model
      rejects. */
  lemma DefaultsFailResponseModel(d: Doc)
    requires d.name.None? || d.description.None?
    ensures !ValidTodoResponse(IndividualSerial(d))
  {
  }

  /** `list_serial`: `individual_serial` applied to each document, in order. */
  function ListSerial(ds: seq<Doc>): (r: seq<TodoResponse>)
    ensures |r| == |ds|
    ensures forall i :: 0 <= i < |ds| ==> r[i] == IndividualSerial(ds[i])
  {
    if ds == [] then [] else [IndividualSerial(ds[0])] + ListSerial(ds[1..])
  }

  /** Serializing a page is taking the same page of the serialized list. */
  lemma ListSerialWindow(ds: seq<Doc>, skip: nat, limit: nat)
    ensures ListSerial(Window(ds, skip, limit)) == Window(ListSerial(ds), skip, limit)
  {
  }
}
