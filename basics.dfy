/** The in-memory book API: the Pydantic models `BookCreate`, `BookUpdate`
    and `Book`, the process-wide `BOOKS` list, and the handlers that read and
    change it. The list is an explicit `BookStore` object; the UUID that
    `uuid4()` draws is a parameter of `CreateBook`. */
module Basics {
  import opened Common

  /** A UUID, as the 128-bit number it denotes. */
  type Uuid = x: nat | x < 0x1_0000_0000_0000_0000_0000_0000_0000_0000

  // ---------------------------------------------------------------- models

  predicate ValidTitle(s: string) { 1 <= |s| <= 200 }
  predicate ValidAuthor(s: string) { 1 <= |s| <= 100 }
  predicate ValidDescription(s: string) { 1 <= |s| <= 500 }
  predicate ValidRating(n: int) { 0 <= n <= 100 }

  /** The body of `POST /books`: every field required. */
  datatype BookCreate = BookCreate(title: string, author: string, description: string, rating: int)

  predicate ValidBookCreate(c: BookCreate)
  {
    ValidTitle(c.title) && ValidAuthor(c.author) && ValidDescription(c.description) && ValidRating(c.rating)
  }

  /** The body of `PUT /books/{id}`: every field optional. */
  datatype BookUpdate = BookUpdate(title: Patch<string>, author: Patch<string>, description: Patch<string>, rating: Patch<int>)

  /** Optional fields accept `null`; a value, when given, has the create bounds. */
  predicate ValidBookUpdate(u: BookUpdate)
  {
    && (u.title.Set? ==> ValidTitle(u.title.value))
    && (u.author.Set? ==> ValidAuthor(u.author.value))
    && (u.description.Set? ==> ValidDescription(u.description.value))
    && (u.rating.Set? ==> ValidRating(u.rating.value))
  }

  /** A stored book. */
  datatype Book = Book(id: Uuid, title: string, author: string, description: string, rating: int)

  predicate ValidBook(b: Book)
  {
    ValidTitle(b.title) && ValidAuthor(b.author) && ValidDescription(b.description) && ValidRating(b.rating)
  }

  /** The update body that sets every field to the values of `c`. */
  function SetAll(c: BookCreate): BookUpdate
  {
    BookUpdate(Set(c.title), Set(c.author), Set(c.description), Set(c.rating))
  }

  /** The update shape has the bounds of the create shape, field for field,
      and accepts a body that sets nothing or sets fields to null. */
  lemma UpdateBoundsMatchCreate(c: BookCreate)
    ensures ValidBookUpdate(SetAll(c)) <==> ValidBookCreate(c)
    ensures ValidBookUpdate(BookUpdate(Unset, Unset, Unset, Unset))
    ensures ValidBookUpdate(BookUpdate(SetNull, SetNull, SetNull, SetNull))
  {
  }

  /** The book `create_book` builds from a body and a fresh UUID. */
  function NewBook(id: Uuid, c: BookCreate): (b: Book)
    ensures b.id == id
    ensures b.title == c.title && b.author == c.author && b.description == c.description && b.rating == c.rating
    ensures ValidBookCreate(c) <==> ValidBook(b)
    ensures SetAll(c) == BookUpdate(Set(b.title), Set(b.author), Set(b.description), Set(b.rating))
  {
    Book(id, c.title, c.author, c.description, c.rating)
  }

  // ------------------------------------------- update: as written, corrected

  /** A book as `model_copy` can leave it: copying skips validation, so any
      field may hold `None`. */
  datatype RawBook = RawBook(id: Uuid, title: Option<string>, author: Option<string>,
                             description: Option<string>, rating: Option<int>)

  function Raw(b: Book): RawBook
  {
    RawBook(b.id, Some(b.title), Some(b.author), Some(b.description), Some(b.rating))
  }

  /** Whether a raw record is a `Book` the response model accepts. */
  predicate ValidRawBook(r: RawBook)
  {
    && r.title.Some? && r.author.Some? && r.description.Some? && r.rating.Some?
    && ValidBook(Book(r.id, r.title.value, r.author.value, r.description.value, r.rating.value))
  }

  /** One field of `model_copy(update=model_dump(exclude_unset=True))`. */
  function Copied<T>(p: Patch<T>, current: T): Option<T>
  {
    if p.Unset? then Some(current) else p.Dumped()
  }

  /** The update exactly as basics.py writes it: every field the client
      sent, `null` included, overwrites the stored one. */
  function ModelCopy(b: Book, u: BookUpdate): (r: RawBook)
    ensures r.id == b.id
    ensures u.title.Set? ==> r.title == Some(u.title.value)
    ensures u.title.SetNull? ==> r.title == None
    ensures u.title.Unset? ==> r.title == Some(b.title)
    ensures u.author.Set? ==> r.author == Some(u.author.value)
    ensures u.author.SetNull? ==> r.author == None
    ensures u.author.Unset? ==> r.author == Some(b.author)
    ensures u.description.Set? ==> r.description == Some(u.description.value)
    ensures u.description.SetNull? ==> r.description == None
    ensures u.description.Unset? ==> r.description == Some(b.description)
    ensures u.rating.Set? ==> r.rating == Some(u.rating.value)
    ensures u.rating.SetNull? ==> r.rating == None
    ensures u.rating.Unset? ==> r.rating == Some(b.rating)
  {
    RawBook(b.id, Copied(u.title, b.title), Copied(u.author, b.author),
            Copied(u.description, b.description), Copied(u.rating, b.rating))
  }

  /** As written, a body `{"title": null}` passes validation and stores a
      book whose title is `None`, which is no longer a valid `Book`. */
  lemma ModelCopyStoresNull(b: Book)
    requires ValidBook(b)
    ensures ValidBookUpdate(BookUpdate(SetNull, Unset, Unset, Unset))
    ensures ModelCopy(b, BookUpdate(SetNull, Unset, Unset, Unset)).title == None
    ensures !ValidRawBook(ModelCopy(b, BookUpdate(SetNull, Unset, Unset, Unset)))
  {
  }

  /** More generally, every body that sends `null` for any field passes
      validation and, as written, leaves a record that is not a valid
      `Book`; a body without `null` never does this to a valid book with
      valid values. */
  lemma ModelCopyNullBreaksBook(b: Book, u: BookUpdate)
    requires ValidBook(b) && ValidBookUpdate(u)
    ensures (u.title.SetNull? || u.author.SetNull? || u.description.SetNull? || u.rating.SetNull?)
            <==> !ValidRawBook(ModelCopy(b, u))
  {
  }

  /** The update as evidently intended: a field the client set to a value
      replaces the stored one; an omitted field, or one sent as `null`,
      keeps its stored value. */
  function ApplyUpdate(b: Book, u: BookUpdate): (r: Book)
    ensures r.id == b.id
    ensures u.title.Set? ==> r.title == u.title.value
    ensures !u.title.Set? ==> r.title == b.title
    ensures u.author.Set? ==> r.author == u.author.value
    ensures !u.author.Set? ==> r.author == b.author
    ensures u.description.Set? ==> r.description == u.description.value
    ensures !u.description.Set? ==> r.description == b.description
    ensures u.rating.Set? ==> r.rating == u.rating.value
    ensures !u.rating.Set? ==> r.rating == b.rating
    ensures ValidBook(b) && ValidBookUpdate(u) ==> ValidBook(r)
  {
    Book(b.id,
         if u.title.Set? then u.title.value else b.title,
         if u.author.Set? then u.author.value else b.author,
         if u.description.Set? then u.description.value else b.description,
         if u.rating.Set? then u.rating.value else b.rating)
  }

  /** The corrected update agrees with the written one on every body that
      sends no `null`, and never leaves an invalid book behind. */
  lemma ApplyUpdateAgreesWithModelCopy(b: Book, u: BookUpdate)
    ensures !u.title.SetNull? && !u.author.SetNull? && !u.description.SetNull? && !u.rating.SetNull?
            ==> ModelCopy(b, u) == Raw(ApplyUpdate(b, u))
    ensures ValidBook(b) && ValidBookUpdate(u) ==> ValidRawBook(Raw(ApplyUpdate(b, u)))
  {
  }

  /** An empty body changes nothing, and applying a body twice is applying
      it once. */
  lemma ApplyUpdateLaws(b: Book, u: BookUpdate)
    ensures ApplyUpdate(b, BookUpdate(Unset, Unset, Unset, Unset)) == b
    ensures ApplyUpdate(ApplyUpdate(b, u), u) == ApplyUpdate(b, u)
  {
  }

  // ------------------------------------------------------------ the list

  /** The `deleted_book` part of the `delete_book` response. */
  datatype DeletedBook = DeletedBook(id: Uuid, title: string)

  predicate UniqueIds(books: seq<Book>)
  {
    forall i, j :: 0 <= i < j < |books| ==> books[i].id != books[j].id
  }

  /** The position of the first book with the given id. */
  function IndexOf(books: seq<Book>, id: Uuid): (r: Option<nat>)
    ensures r.None? <==> forall i :: 0 <= i < |books| ==> books[i].id != id
    ensures r.Some? ==> r.value < |books| && books[r.value].id == id
    ensures r.Some? ==> forall j :: 0 <= j < r.value ==> books[j].id != id
  {
    if books == [] then None
    else if books[0].id == id then Some(0)
    else
      match IndexOf(books[1..], id)
      case None => None
      case Some(i) => Some(i + 1)
  }

  /** Once a book with `id` is removed from a list of distinct ids, no book
      with `id` is left. */
  lemma RemoveAtIndex(books: seq<Book>, i: nat)
    requires UniqueIds(books) && i < |books|
    ensures UniqueIds(books[..i] + books[i + 1..])
    ensures IndexOf(books[..i] + books[i + 1..], books[i].id).None?
  {
    var rest := books[..i] + books[i + 1..];
    forall j | 0 <= j < |rest|
      ensures rest[j] == books[if j < i then j else j + 1]
    {
    }
  }

  /** The process-wide `BOOKS` list. */
  class BookStore {
    var books: seq<Book>

    /** Every stored book is valid and no two share an id. */
    ghost predicate Valid()
      reads this
    {
      (forall i :: 0 <= i < |books| ==> ValidBook(books[i])) && UniqueIds(books)
    }

    constructor ()
      ensures Valid() && books == []
    {
      books := [];
    }

    /** `find_book_by_id`: the first position holding a book with `id`,
        paired with that book; `None` exactly when no book has `id`. */
    method FindBookById(id: Uuid) returns (r: Option<(nat, Book)>)
      ensures r.None? <==> forall i :: 0 <= i < |books| ==> books[i].id != id
      ensures r.Some? ==> r.value.0 < |books| && r.value.1 == books[r.value.0] && r.value.1.id == id
      ensures r.Some? ==> forall j :: 0 <= j < r.value.0 ==> books[j].id != id
      ensures r.Some? ==> IndexOf(books, id) == Some(r.value.0)
    {
      var index := 0;
      while index < |books|
        invariant 0 <= index <= |books|
        invariant forall j :: 0 <= j < index ==> books[j].id != id
      {
        if books[index].id == id {
          return Some((index, books[index]));
        }
        index := index + 1;
      }
      return None;
    }

    /** `get_all_books`: the whole list, in insertion order. */
    method GetAllBooks() returns (r: seq<Book>)
      ensures r == books
    {
      r := books;
    }

    /** `get_book`. */
    method GetBook(id: Uuid) returns (r: Result<Book>)
      ensures IndexOf(books, id).None? <==> r == Err(NotFound)
      ensures IndexOf(books, id).Some? ==> r == Ok(books[IndexOf(books, id).value])
      ensures r.Ok? ==> r.value == books[IndexOf(books, id).value] && r.value.id == id
    {
      var found := FindBookById(id);
      if found.None? {
        return Err(NotFound);
      }
      return Ok(found.value.1);
    }

    /** `create_book`: appends one new book at the end. */
    method CreateBook(data: BookCreate, newId: Uuid) returns (r: Result<Book>)
      requires Valid()
      requires forall i :: 0 <= i < |books| ==> books[i].id != newId
      modifies this
      ensures Valid()
      ensures !ValidBookCreate(data) ==> r == Err(ValidationError) && books == old(books)
      ensures ValidBookCreate(data) ==>
                r == Ok(NewBook(newId, data)) && books == old(books) + [NewBook(newId, data)]
    {
      if !ValidBookCreate(data) {
        return Err(ValidationError);
      }
      var book := NewBook(newId, data);
      books := books + [book];
      return Ok(book);
    }

    /** `update_book`, with an explicit `null` treated as an omitted field
        (see `ModelCopy` for the update as written). */
    method UpdateBook(id: Uuid, data: BookUpdate) returns (r: Result<Book>)
      requires Valid()
      modifies this
      ensures Valid()
      ensures !ValidBookUpdate(data) ==> r == Err(ValidationError) && books == old(books)
      ensures ValidBookUpdate(data) && IndexOf(old(books), id).None? ==>
                r == Err(NotFound) && books == old(books)
      ensures ValidBookUpdate(data) && IndexOf(old(books), id).Some? ==>
                var i := IndexOf(old(books), id).value;
                r == Ok(ApplyUpdate(old(books)[i], data)) && books == old(books)[i := r.value]
    {
      if !ValidBookUpdate(data) {
        return Err(ValidationError);
      }
      var found := FindBookById(id);
      if found.None? {
        return Err(NotFound);
      }
      var (index, existing) := found.value;
      var updated := ApplyUpdate(existing, data);
      books := books[index := updated];
      return Ok(updated);
    }

    /** `delete_book`: removes the found book; the others keep their order. */
    method DeleteBook(id: Uuid) returns (r: Result<DeletedBook>)
      requires Valid()
      modifies this
      ensures Valid()
      ensures IndexOf(old(books), id).None? ==> r == Err(NotFound) && books == old(books)
      ensures IndexOf(old(books), id).Some? ==>
                var i := IndexOf(old(books), id).value;
                r == Ok(DeletedBook(id, old(books)[i].title)) && books == old(books)[..i] + old(books)[i + 1..]
      ensures r.Ok? ==> |books| == |old(books)| - 1 && IndexOf(books, id).None?
    {
      var found := FindBookById(id);
      if found.None? {
        return Err(NotFound);
      }
      var (index, deleted) := found.value;
      RemoveAtIndex(books, index);
      books := books[..index] + books[index + 1..];
      return Ok(DeletedBook(deleted.id, deleted.title));
    }

    /** `delete_all_books`: reports how many books there were. */
    method DeleteAllBooks() returns (count: nat)
      requires Valid()
      modifies this
      ensures Valid()
      ensures count == |old(books)| && books == []
    {
      count := |books|;
      books := [];
    }
  }
}
