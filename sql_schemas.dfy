/** The Pydantic schemas of the book API: the create and update bodies and
    the response shapes. */
module SqlSchemas {
  import opened Common

  predicate ValidTitle(s: string) { 1 <= |s| <= 200 }
  predicate ValidAuthor(s: string) { 1 <= |s| <= 100 }
  predicate ValidRating(n: int) { 0 <= n <= 100 }

  /** A description is optional; when present it may be empty and has at
      most 500 characters. */
  predicate ValidDescriptionText(s: string) { |s| <= 500 }
  predicate ValidDescription(d: Option<string>) { d.Some? ==> ValidDescriptionText(d.value) }

  /** The rating a book gets when the create body leaves it out. */
  const DefaultRating: int := 0

  /** The body of `POST /books`: `description` is `None` when left out or
      sent as `null`, `rating` is `None` when left out. */
  datatype BookCreate = BookCreate(title: string, author: string, description: Option<string>, rating: Option<int>)

  predicate ValidBookCreate(c: BookCreate)
  {
    && ValidTitle(c.title) && ValidAuthor(c.author) && ValidDescription(c.description)
    && (c.rating.Some? ==> ValidRating(c.rating.value))
  }

  /** The rating of a create body once its default is filled in. */
  function RatingOf(c: BookCreate): (n: int)
    ensures c.rating.None? ==> n == DefaultRating
    ensures c.rating.Some? ==> n == c.rating.value
    ensures ValidBookCreate(c) ==> ValidRating(n)
  {
    c.rating.GetOr(DefaultRating)
  }

  /** The body of `PUT /books/{id}`: every field optional. */
  datatype BookUpdate = BookUpdate(title: Patch<string>, author: Patch<string>, description: Patch<string>,
                                   rating: Patch<int>)

  /** A field given a value has the bounds of `BookBase`; a field left out
      or sent as `null` is accepted. */
  predicate ValidBookUpdate(u: BookUpdate)
  {
    && (u.title.Set? ==> ValidTitle(u.title.value))
    && (u.author.Set? ==> ValidAuthor(u.author.value))
    && (u.description.Set? ==> ValidDescriptionText(u.description.value))
    && (u.rating.Set? ==> ValidRating(u.rating.value))
  }

  /** The update body that sets every field to the (defaulted) values of `c`. */
  function SetAll(c: BookCreate): BookUpdate
  {
    BookUpdate(Set(c.title), Set(c.author),
               if c.description.Some? then Set(c.description.value) else SetNull,
               Set(RatingOf(c)))
  }

  /** The update shape has the bounds of the create shape; an empty body and
      an empty description are accepted. */
  lemma UpdateBoundsMatchCreate(c: BookCreate)
    ensures ValidBookUpdate(SetAll(c)) <==> ValidBookCreate(c)
    ensures ValidBookUpdate(BookUpdate(Unset, Unset, Unset, Unset))
    ensures ValidBookUpdate(BookUpdate(Unset, Unset, Set(""), Unset))
    ensures ValidTitle(c.title) && ValidAuthor(c.author) ==>
              ValidBookCreate(c.(description := Some(""), rating := None))
  {
  }

  /** `BookResponse`: an integer id plus the `BookBase` fields. */
  datatype BookResponse = BookResponse(id: int, title: string, author: string, description: Option<string>,
                                       rating: int)

  predicate ValidBookResponse(b: BookResponse)
  {
    ValidTitle(b.title) && ValidAuthor(b.author) && ValidDescription(b.description) && ValidRating(b.rating)
  }

  /** `DeleteResponse`. */
  datatype DeleteResponse = DeleteResponse(message: string, deletedId: int, deletedTitle: string)

  const DeletedMessage: string := "Book deleted successfully"
}
