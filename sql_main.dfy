/** The book handlers over the `books` table. The table is a `BookTable`
    object: the rows by primary key, and the keys in ascending order, which
    is the order SQLite returns the rows of an unordered query in. */
module SqlMain {
  import opened Common
  import opened SqlModels
  import opened SqlSchemas
  import opened SqlLike

  predicate Increasing(ids: seq<int>)
  {
    forall i, j :: 0 <= i < j < |ids| ==> ids[i] < ids[j]
  }

  /** The row as the response model reads it. */
  function AsResponse(r: Row): BookResponse
  {
    BookResponse(r.id, r.title, r.author, r.description, r.rating)
  }

  /** A row every handler may have written: the check constraint, plus the
      schema bounds its fields were validated against. */
  predicate StoredRow(r: Row)
  {
    RowInvariant(r) && ValidBookResponse(AsResponse(r))
  }

  // ------------------------------------------------------------- listing

  /** `OFFSET skip LIMIT limit` in SQLite: a negative offset reads as 0 and
      a negative limit means no limit. */
  function SqlWindow<T>(s: seq<T>, skip: int, limit: int): (r: seq<T>)
    ensures |r| == Min(if limit < 0 then |s| else limit, |s| - Min(if skip < 0 then 0 else skip, |s|))
    ensures |r| <= |s|
    ensures 0 <= limit ==> |r| <= limit
    ensures limit == 0 ==> r == []
    ensures skip <= 0 && (limit < 0 || |s| <= limit) ==> r == s
    ensures forall i :: 0 <= i < |r| ==>
              (if skip < 0 then 0 else skip) + i < |s| && r[i] == s[(if skip < 0 then 0 else skip) + i]
  {
    var w := Window(s, if skip < 0 then 0 else skip, if limit < 0 then |s| else limit);
    assert skip <= 0 && (limit < 0 || |s| <= limit) ==> w == s by {
      if skip <= 0 && (limit < 0 || |s| <= limit) { WindowWhole(s, if limit < 0 then |s| else limit); }
    }
    w
  }

  /** The values `get_all_books` uses for a query parameter the client
      leaves out. */
  const DefaultSkip: int := 0
  const DefaultLimit: int := 100

  /** Whether a query parameter string is truthy: given and non-empty. */
  predicate Truthy(s: Option<string>)
  {
    s.Some? && s.value != ""
  }

  /** The conjunction `search_books` builds: a title or author filter only
      for a truthy term, a rating filter whenever `minRating` is given. */
  predicate MatchesSearch(r: Row, title: Option<string>, author: Option<string>, minRating: Option<int>)
  {
    && (Truthy(title) ==> Like(r.title, "%" + title.value + "%"))
    && (Truthy(author) ==> Like(r.author, "%" + author.value + "%"))
    && (minRating.Some? ==> r.rating >= minRating.value)
  }

  /** The rows that pass the filter, in their original order. */
  function Search(rs: seq<Row>, title: Option<string>, author: Option<string>, minRating: Option<int>)
    : (r: seq<Row>)
    ensures forall x :: x in r <==> x in rs && MatchesSearch(x, title, author, minRating)
    ensures |r| <= |rs|
  {
    if rs == [] then []
    else (if MatchesSearch(rs[0], title, author, minRating) then [rs[0]] else [])
         + Search(rs[1..], title, author, minRating)
  }

  /** The search keeps rowid order: searching two runs of rows is searching
      each run in turn. */
  lemma {:induction false} SearchAppend(a: seq<Row>, b: seq<Row>, title: Option<string>, author: Option<string>,
                                        minRating: Option<int>)
    ensures Search(a + b, title, author, minRating) == Search(a, title, author, minRating) + Search(b, title, author, minRating)
    decreases |a|
  {
    if a == [] {
      assert a + b == b;
    } else {
      var h := if MatchesSearch(a[0], title, author, minRating) then [a[0]] else [];
      assert (a + b)[0] == a[0] && (a + b)[1..] == a[1..] + b;
      SearchAppend(a[1..], b, title, author, minRating);
      var x, y := Search(a[1..], title, author, minRating), Search(b, title, author, minRating);
      assert Search(a + b, title, author, minRating) == h + (x + y);
      assert Search(a, title, author, minRating) == h + x;
      ConcatAssoc(h, x, y);
    }
  }

  /** A single row is returned exactly when it meets the criteria. */
  lemma SearchSingle(x: Row, title: Option<string>, author: Option<string>, minRating: Option<int>)
    ensures Search([x], title, author, minRating) == if MatchesSearch(x, title, author, minRating) then [x] else []
  {
    assert [x][1..] == [];
  }

  /** A search every row passes returns every row. */
  lemma {:induction false} SearchAllMatch(rs: seq<Row>, title: Option<string>, author: Option<string>,
                                          minRating: Option<int>)
    requires forall i :: 0 <= i < |rs| ==> MatchesSearch(rs[i], title, author, minRating)
    ensures Search(rs, title, author, minRating) == rs
  {
    if rs != [] {
      var tail := rs[1..];
      assert forall i :: 0 <= i < |tail| ==> MatchesSearch(tail[i], title, author, minRating) by {
        forall i | 0 <= i < |tail| ensures MatchesSearch(tail[i], title, author, minRating) {
          assert tail[i] == rs[i + 1];
        }
      }
      SearchAllMatch(tail, title, author, minRating);
      assert MatchesSearch(rs[0], title, author, minRating);
      calc {
        Search(rs, title, author, minRating);
        [rs[0]] + Search(tail, title, author, minRating);
        [rs[0]] + tail;
        rs;
      }
    }
  }

  /** With no criteria, or only empty strings and a minimum rating of 0,
      the search returns every stored row. */
  lemma SearchWithoutCriteria(rs: seq<Row>, title: Option<string>, author: Option<string>,
                              minRating: Option<int>)
    requires !Truthy(title) && !Truthy(author)
    requires minRating.None? || minRating.value <= 0
    requires forall i :: 0 <= i < |rs| ==> RowInvariant(rs[i])
    ensures Search(rs, title, author, minRating) == rs
  {
    SearchAllMatch(rs, title, author, minRating);
  }

  /** A term without wildcards filters on case-insensitive containment. */
  lemma SearchByContainment(r: Row, title: string, author: string, minRating: Option<int>)
    requires NoWildcards(title) && NoWildcards(author)
    ensures MatchesSearch(r, Some(title), Some(author), minRating) <==>
              && (title != "" ==> ContainsIgnoringCase(r.title, title))
              && (author != "" ==> ContainsIgnoringCase(r.author, author))
              && (minRating.Some? ==> r.rating >= minRating.value)
  {
    LikeContains(r.title, title);
    LikeContains(r.author, author);
  }

  /** A `%` or `_` in the term is a wildcard: the search for `_` finds
      every title that is not empty, whether or not it contains `_`. */
  lemma UnderscoreIsWildcard(r: Row)
    requires r.title != ""
    ensures MatchesSearch(r, Some("_"), None, None)
  {
    var p := "%" + "_" + "%";
    assert p[1..][1..] == "%";
    LikeAnything(r.title[1..]);
    assert Like(r.title, p[1..]);
  }

  /** The keys left after deleting `x`, in the same order. */
  function Without(ids: seq<int>, x: int): (r: seq<int>)
    ensures forall y :: y in r <==> y in ids && y != x
  {
    if ids == [] then []
    else (if ids[0] == x then [] else [ids[0]]) + Without(ids[1..], x)
  }

  lemma {:induction false} WithoutIncreasing(ids: seq<int>, x: int)
    requires Increasing(ids)
    ensures Increasing(Without(ids, x))
  {
    if ids != [] {
      var rest := Without(ids[1..], x);
      WithoutIncreasing(ids[1..], x);
      forall y | y in rest ensures ids[0] < y {
        var k :| 0 <= k < |ids[1..]| && ids[1..][k] == y;
        assert ids[k + 1] == y;
      }
      var r := (if ids[0] == x then [] else [ids[0]]) + rest;
      assert Without(ids, x) == r;
      forall i, j | 0 <= i < j < |r| ensures r[i] < r[j] {
        if ids[0] != x && i == 0 {
          assert r[j] in rest;
        }
      }
    }
  }

  /** Distinct keys: there are as many as the sequence is long. */
  lemma {:induction false} IncreasingCard(ids: seq<int>)
    requires Increasing(ids)
    ensures |set x | x in ids| == |ids|
  {
    if ids != [] {
      IncreasingCard(ids[1..]);
      assert (set x | x in ids) == {ids[0]} + (set x | x in ids[1..]);
      assert ids[0] !in ids[1..];
    }
  }

  /** Listing the rows of a map by its keys lists every row. */
  lemma ListedRows(ks: seq<int>, m: map<int, Row>, r: seq<Row>)
    requires forall k :: k in m <==> k in ks
    requires |r| == |ks| && forall i :: 0 <= i < |ks| ==> ks[i] in m && r[i] == m[ks[i]]
    ensures forall k :: k in m ==> m[k] in r
  {
    forall k | k in m ensures m[k] in r {
      var i :| 0 <= i < |ks| && ks[i] == k;
      assert r[i] == m[k];
    }
  }

  // ------------------------------------------------------------- update

  /** One `setattr(book, field, value)`. */
  datatype Assignment =
    | TitleTo(title: Option<string>)
    | AuthorTo(author: Option<string>)
    | DescriptionTo(description: Option<string>)
    | RatingTo(rating: Option<int>)

  /** `model_dump(exclude_unset=True).items()`: the fields the client sent,
      `null` included, in declaration order. */
  function UpdateData(u: BookUpdate): (r: seq<Assignment>)
    ensures |r| <= 4
    ensures r == [] <==> u == BookUpdate(Unset, Unset, Unset, Unset)
  {
    (if u.title.Unset? then [] else [TitleTo(u.title.Dumped())])
    + (if u.author.Unset? then [] else [AuthorTo(u.author.Dumped())])
    + (if u.description.Unset? then [] else [DescriptionTo(u.description.Dumped())])
    + (if u.rating.Unset? then [] else [RatingTo(u.rating.Dumped())])
  }

  function Assign(p: PendingRow, a: Assignment): PendingRow
  {
    match a
    case TitleTo(v) => p.(title := v)
    case AuthorTo(v) => p.(author := v)
    case DescriptionTo(v) => p.(description := v)
    case RatingTo(v) => p.(rating := v)
  }

  /** The assignments made one after the other. */
  function AssignAll(p: PendingRow, data: seq<Assignment>): (q: PendingRow)
    ensures q.id == p.id
    decreases |data|
  {
    if data == [] then p else AssignAll(Assign(p, data[0]), data[1..])
  }

  /** The `setattr` loop of `update_book`. */
  method ApplyUpdateData(p: PendingRow, data: seq<Assignment>) returns (q: PendingRow)
    ensures q == AssignAll(p, data)
  {
    q := p;
    var i := 0;
    while i < |data|
      invariant 0 <= i <= |data|
      invariant AssignAll(q, data[i..]) == AssignAll(p, data)
    {
      assert data[i..][1..] == data[i + 1..];
      q := Assign(q, data[i]);
      i := i + 1;
    }
    assert data[i..] == [];
  }

  /** The row a valid update body describes: each field the client gave a
      value replaces the stored one, a `null` description clears it, and
      every field left out keeps its value. */
  function Patched(r: Row, u: BookUpdate): (s: Row)
    ensures s.id == r.id
    ensures u.title.Set? ==> s.title == u.title.value
    ensures !u.title.Set? ==> s.title == r.title
    ensures u.author.Set? ==> s.author == u.author.value
    ensures !u.author.Set? ==> s.author == r.author
    ensures u.description.Set? ==> s.description == Some(u.description.value)
    ensures u.description.SetNull? ==> s.description.None?
    ensures u.description.Unset? ==> s.description == r.description
    ensures u.rating.Set? ==> s.rating == u.rating.value
    ensures !u.rating.Set? ==> s.rating == r.rating
    ensures StoredRow(r) && ValidBookUpdate(u) ==> StoredRow(s)
  {
    Row(r.id,
        if u.title.Set? then u.title.value else r.title,
        if u.author.Set? then u.author.value else r.author,
        if u.description.Unset? then r.description else u.description.Dumped(),
        if u.rating.Set? then u.rating.value else r.rating)
  }

  /** What the commit of `update_book` does: a `null` title, author or
      rating violates `NOT NULL` and the write fails; otherwise the row
      becomes `Patched(r, u)`, and an empty body leaves it as it was. */
  lemma UpdateOutcome(r: Row, u: BookUpdate)
    requires RowInvariant(r) && ValidBookUpdate(u)
    ensures u.title.SetNull? || u.author.SetNull? || u.rating.SetNull? ==>
              Flush(AssignAll(Pending(r), UpdateData(u))) == Err(IntegrityError)
    ensures !(u.title.SetNull? || u.author.SetNull? || u.rating.SetNull?) ==>
              Flush(AssignAll(Pending(r), UpdateData(u))) == Ok(Patched(r, u))
    ensures u == BookUpdate(Unset, Unset, Unset, Unset) ==> Patched(r, u) == r
  {
    var p := Pending(r);
    var t := if u.title.Unset? then p else p.(title := u.title.Dumped());
    var a := if u.author.Unset? then t else t.(author := u.author.Dumped());
    var d := if u.description.Unset? then a else a.(description := u.description.Dumped());
    var q := if u.rating.Unset? then d else d.(rating := u.rating.Dumped());
    AssignSteps(p, u);
    assert AssignAll(p, UpdateData(u)) == q;
  }

  /** `AssignAll` over the four optional assignments of a body. */
  lemma AssignSteps(p: PendingRow, u: BookUpdate)
    ensures AssignAll(p, UpdateData(u)) ==
              var t := if u.title.Unset? then p else p.(title := u.title.Dumped());
              var a := if u.author.Unset? then t else t.(author := u.author.Dumped());
              var d := if u.description.Unset? then a else a.(description := u.description.Dumped());
              if u.rating.Unset? then d else d.(rating := u.rating.Dumped())
  {
    var ts := if u.title.Unset? then [] else [TitleTo(u.title.Dumped())];
    var au := if u.author.Unset? then [] else [AuthorTo(u.author.Dumped())];
    var ds := if u.description.Unset? then [] else [DescriptionTo(u.description.Dumped())];
    var rs := if u.rating.Unset? then [] else [RatingTo(u.rating.Dumped())];
    assert UpdateData(u) == ts + au + ds + rs;
    AssignAppend(p, ts + au + ds, rs);
    AssignAppend(p, ts + au, ds);
    AssignAppend(p, ts, au);
    var t := AssignAll(p, ts);
    AssignSingle(p, ts);
    var a := AssignAll(t, au);
    AssignSingle(t, au);
    var d := AssignAll(a, ds);
    AssignSingle(a, ds);
    AssignSingle(d, rs);
  }

  lemma AssignSingle(p: PendingRow, xs: seq<Assignment>)
    requires |xs| <= 1
    ensures AssignAll(p, xs) == if xs == [] then p else Assign(p, xs[0])
  {
    if xs != [] {
      assert xs[1..] == [];
    }
  }

  lemma {:induction false} AssignAppend(p: PendingRow, xs: seq<Assignment>, ys: seq<Assignment>)
    ensures AssignAll(p, xs + ys) == AssignAll(AssignAll(p, xs), ys)
    decreases |xs|
  {
    if xs == [] {
      assert xs + ys == ys;
    } else {
      assert (xs + ys)[0] == xs[0] && (xs + ys)[1..] == xs[1..] + ys;
      AssignAppend(Assign(p, xs[0]), xs[1..], ys);
    }
  }

  // ------------------------------------------------------------- table

  class BookTable {
    var rows: map<int, Row>
    var ids: seq<int>

    /** The keys in ascending order name exactly the stored rows, each row
        carries its key, and every row satisfies the constraints. */
    ghost predicate Valid()
      reads this
    {
      && Increasing(ids)
      && (forall k :: k in rows <==> k in ids)
      && (forall k :: k in rows ==> rows[k].id == k && StoredRow(rows[k]))
    }

    constructor ()
      ensures Valid() && rows == map[] && ids == []
    {
      rows := map[];
      ids := [];
    }

    /** The rows in rowid order. */
    function Listing(): (r: seq<Row>)
      reads this
      requires Valid()
      ensures |r| == |ids|
      ensures forall i :: 0 <= i < |r| ==> ids[i] in rows && r[i] == rows[ids[i]]
      ensures forall k :: k in rows ==> rows[k] in r
    {
      var ks := ids;
      var m := rows;
      assert forall i :: 0 <= i < |ks| ==> ks[i] in m by {
        forall i | 0 <= i < |ks| ensures ks[i] in m {
          assert ks[i] in ids;
        }
      }
      var r := seq(|ks|, i requires 0 <= i < |ks| && ks[i] in m => m[ks[i]]);
      ListedRows(ks, m, r);
      r
    }

    /** The key SQLite gives the next inserted row: one more than the
        largest key, or 1 in an empty table. */
    function NextId(): (id: int)
      reads this
      requires Valid()
      ensures id !in rows
      ensures forall k :: k in rows ==> k < id
    {
      if ids == [] then 1
      else
        assert forall i :: 0 <= i < |ids| ==> ids[i] <= ids[|ids| - 1];
        ids[|ids| - 1] + 1
    }

    /** `get_all_books`. */
    function GetAllBooks(skip: int, limit: int): (r: seq<Row>)
      reads this
      requires Valid()
      ensures r == SqlWindow(Listing(), skip, limit)
      ensures forall x :: x in r ==> x in Listing()
      ensures skip <= 0 && limit < 0 ==> r == Listing()
    {
      SqlWindow(Listing(), skip, limit)
    }

    /** `GET /books/` with no `skip` or `limit`: the first hundred rows in
        rowid order. */
    lemma DefaultListing()
      requires Valid()
      ensures GetAllBooks(DefaultSkip, DefaultLimit) == Listing()[..Min(DefaultLimit, |Listing()|)]
    {
    }

    /** `get_book`. */
    function GetBook(id: int): (r: Result<Row>)
      reads this
      requires Valid()
      ensures r.Ok? <==> id in rows
      ensures r.Ok? ==> r.value == rows[id] && r.value.id == id
      ensures r.Err? ==> r.error == NotFound
    {
      if id in rows then Ok(rows[id]) else Err(NotFound)
    }

    /** `search_books`: exactly the stored rows meeting every given
        criterion, in rowid order. */
    function SearchBooks(title: Option<string>, author: Option<string>, minRating: Option<int>): (r: seq<Row>)
      reads this
      requires Valid()
      ensures r == Search(Listing(), title, author, minRating)
      ensures forall k :: k in rows ==> (rows[k] in r <==> MatchesSearch(rows[k], title, author, minRating))
      ensures forall x :: x in r ==> x in Listing() && MatchesSearch(x, title, author, minRating)
      ensures !Truthy(title) && !Truthy(author) && minRating.None? ==> r == Listing()
    {
      var all := Listing();
      assert !Truthy(title) && !Truthy(author) && minRating.None? ==> Search(all, title, author, minRating) == all by {
        if !Truthy(title) && !Truthy(author) && minRating.None? {
          SearchWithoutCriteria(all, title, author, minRating);
        }
      }
      Search(all, title, author, minRating)
    }

    /** `create_book`: one new row under the next key. */
    method CreateBook(data: BookCreate) returns (r: Result<Row>)
      requires Valid()
      modifies this
      ensures Valid()
      ensures !ValidBookCreate(data) ==> r == Err(ValidationError) && rows == old(rows) && ids == old(ids)
      ensures ValidBookCreate(data) ==>
                var id := old(NextId());
                && id !in old(rows)
                && r == Ok(Row(id, data.title, data.author, data.description, RatingOf(data)))
                && rows == old(rows)[id := r.value]
                && ids == old(ids) + [id]
    {
      if !ValidBookCreate(data) {
        return Err(ValidationError);
      }
      var id := NextId();
      var inserted := Insert(id, data.title, data.author, data.description, Some(RatingOf(data)));
      assert inserted.Ok?;
      var row := inserted.value;
      rows := rows[id := row];
      ids := ids + [id];
      return Ok(row);
    }

    /** `update_book`: the body is validated, the row looked up, the
        fields the client sent assigned one by one, and the row written. */
    method UpdateBook(id: int, u: BookUpdate) returns (r: Result<Row>)
      requires Valid()
      modifies this
      ensures Valid() && ids == old(ids)
      ensures !ValidBookUpdate(u) ==> r == Err(ValidationError)
      ensures ValidBookUpdate(u) && id !in old(rows) ==> r == Err(NotFound)
      ensures ValidBookUpdate(u) && id in old(rows) ==> r == Flush(AssignAll(Pending(old(rows)[id]), UpdateData(u)))
      ensures r.Ok? ==> rows == old(rows)[id := r.value] && r.value == Patched(old(rows)[id], u)
      ensures r.Err? ==> rows == old(rows)
    {
      if !ValidBookUpdate(u) {
        return Err(ValidationError);
      }
      if id !in rows {
        return Err(NotFound);
      }
      var book := rows[id];
      var pending := ApplyUpdateData(Pending(book), UpdateData(u));
      r := Flush(pending);
      UpdateOutcome(book, u);
      if r.Ok? {
        rows := rows[id := r.value];
      }
    }

    /** `delete_book`: removes the row and reports its key and title. */
    method DeleteBook(id: int) returns (r: Result<DeleteResponse>)
      requires Valid()
      modifies this
      ensures Valid()
      ensures id !in old(rows) ==> r == Err(NotFound) && rows == old(rows) && ids == old(ids)
      ensures id in old(rows) ==>
                && r == Ok(DeleteResponse(DeletedMessage, id, old(rows)[id].title))
                && rows == old(rows) - {id}
                && ids == Without(old(ids), id)
    {
      if id !in rows {
        return Err(NotFound);
      }
      var title := rows[id].title;
      WithoutIncreasing(ids, id);
      rows := rows - {id};
      ids := Without(ids, id);
      return Ok(DeleteResponse(DeletedMessage, id, title));
    }

    /** `delete_all_books`: reports how many rows there were. */
    method DeleteAllBooks() returns (count: nat)
      requires Valid()
      modifies this
      ensures Valid()
      ensures count == |old(rows)| == |old(ids)|
      ensures rows == map[] && ids == []
    {
      IncreasingCard(ids);
      assert rows.Keys == set x | x in ids by {
        forall x ensures x in rows.Keys <==> x in ids {
        }
      }
      count := |ids|;
      rows := map[];
      ids := [];
    }
  }

  // ------------------------------------------------------------- example

  /** A book's life: created, read back, re-rated, deleted, then gone. */
  method DuneExample() returns (created: Result<Row>, read: Result<Row>, updated: Result<Row>,
                                deleted: Result<DeleteResponse>, readAgain: Result<Row>)
    ensures created == Ok(Row(1, "Dune", "Herbert", None, 90)) && read == created
    ensures updated == Ok(Row(1, "Dune", "Herbert", None, 95))
    ensures deleted == Ok(DeleteResponse(DeletedMessage, 1, "Dune"))
    ensures readAgain == Err(NotFound)
  {
    var table := new BookTable();
    var dune := BookCreate("Dune", "Herbert", None, Some(90));
    var rerate := BookUpdate(Unset, Unset, Unset, Set(95));
    ExampleFacts(dune, rerate);
    created := table.CreateBook(dune);
    assert table.rows == map[1 := Row(1, "Dune", "Herbert", None, 90)];
    read := table.GetBook(1);
    updated := table.UpdateBook(1, rerate);
    assert table.rows == map[1 := Row(1, "Dune", "Herbert", None, 95)];
    deleted := table.DeleteBook(1);
    assert 1 !in table.rows;
    readAgain := table.GetBook(1);
  }

  /** The validation and the write the example goes through. */
  lemma ExampleFacts(dune: BookCreate, rerate: BookUpdate)
    requires dune == BookCreate("Dune", "Herbert", None, Some(90))
    requires rerate == BookUpdate(Unset, Unset, Unset, Set(95))
    ensures ValidBookCreate(dune) && RatingOf(dune) == 90 && ValidBookUpdate(rerate)
    ensures Patched(Row(1, "Dune", "Herbert", None, 90), rerate) == Row(1, "Dune", "Herbert", None, 95)
    ensures Flush(AssignAll(Pending(Row(1, "Dune", "Herbert", None, 90)), UpdateData(rerate)))
            == Ok(Row(1, "Dune", "Herbert", None, 95))
    ensures Without([1], 1) == []
  {
    UpdateOutcome(Row(1, "Dune", "Herbert", None, 90), rerate);
    assert [1][1..] == [];
  }
}
