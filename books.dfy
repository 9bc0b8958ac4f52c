/**
 * The book catalogue controller: reads, ownership-checked writes and the
 * public genre search over the ordered collection of book records.
 *
 * Every handler loads the whole collection; every writing handler (add,
 * update, delete) also writes it back. Each handler is modelled as one
 * atomic step over `seq<Book>`.
 */
module BookController {
  import opened Wrappers
  import opened Seqs
  import opened Ascii

  /** A stored book; `userId` is the id of the user who created it. */
  datatype Book = Book(
    id: string,
    title: string,
    author: string,
    genre: string,
    publishedYear: int,
    userId: string)

  /**
   * The request body of an update. Every key of a book may be present,
   * `id` and `userId` included: the merge copies whatever the body carries.
   */
  datatype Patch = Patch(
    id: Option<string>,
    title: Option<string>,
    author: Option<string>,
    genre: Option<string>,
    publishedYear: Option<int>,
    userId: Option<string>)

  /** 404 "Book not found", 403 "Not authorized ...", 400 "Genre query parameter is required". */
  datatype BookError = NotFound | Forbidden | MissingGenre

  /** What a handler answers, together with the collection as it is afterwards. */
  datatype Response<T> = Response(result: Result<T, BookError>, books: seq<Book>)

  /** Record ids are pairwise distinct. */
  ghost predicate UniqueIds(books: seq<Book>) {
    forall i, j :: 0 <= i < j < |books| ==> books[i].id != books[j].id
  }

  /** `i` is the position of the first record with this id. */
  ghost predicate FirstWithId(books: seq<Book>, id: string, i: int) {
    && 0 <= i < |books|
    && books[i].id == id
    && forall j :: 0 <= j < i ==> books[j].id != id
  }

  lemma FirstWithIdUnique(books: seq<Book>, id: string, i: int, j: int)
    requires FirstWithId(books, id, i) && FirstWithId(books, id, j)
    ensures i == j
  {
  }

  function HasId(id: string): Book -> bool {
    (b: Book) => b.id == id
  }

  function IdIsNot(id: string): Book -> bool {
    (b: Book) => b.id != id
  }

  function GenreIs(key: string): Book -> bool {
    (b: Book) => Lower(b.genre) == key
  }

  /** `books.findIndex((b) => b.id === id)`. */
  function IndexOfId(books: seq<Book>, id: string): (r: Option<nat>)
    ensures r.None? <==> forall k :: 0 <= k < |books| ==> books[k].id != id
    ensures r.Some? ==> FirstWithId(books, id, r.value)
  {
    FirstIndex(books, HasId(id))
  }

  /** getAllBooks: the stored collection, in store order, with no ownership filter. */
  function GetAllBooks(books: seq<Book>): (r: seq<Book>)
    ensures |r| == |books| && forall k :: 0 <= k < |r| ==> r[k] == books[k]
  {
    books
  }

  /** getBookById: the first record with the id, or NotFound. */
  function GetBookById(books: seq<Book>, id: string): (r: Result<Book, BookError>)
    ensures r.Ok? || r == Err(NotFound)
    ensures r.Err? <==> forall k :: 0 <= k < |books| ==> books[k].id != id
    ensures r.Ok? ==> exists i :: FirstWithId(books, id, i) && r.value == books[i]
  {
    match IndexOfId(books, id)
    case None => Err(NotFound)
    case Some(i) => Ok(books[i])
  }

  /** The shallow merge `{ ...book, ...patch }`: present keys overwrite, absent keys keep. */
  function Merge(b: Book, patch: Patch): (r: Book)
    ensures patch.id.Some? ==> r.id == patch.id.value
    ensures patch.id.None? ==> r.id == b.id
    ensures patch.title.Some? ==> r.title == patch.title.value
    ensures patch.title.None? ==> r.title == b.title
    ensures patch.author.Some? ==> r.author == patch.author.value
    ensures patch.author.None? ==> r.author == b.author
    ensures patch.genre.Some? ==> r.genre == patch.genre.value
    ensures patch.genre.None? ==> r.genre == b.genre
    ensures patch.publishedYear.Some? ==> r.publishedYear == patch.publishedYear.value
    ensures patch.publishedYear.None? ==> r.publishedYear == b.publishedYear
    ensures patch.userId.Some? ==> r.userId == patch.userId.value
    ensures patch.userId.None? ==> r.userId == b.userId
  {
    Book(
      patch.id.GetOr(b.id),
      patch.title.GetOr(b.title),
      patch.author.GetOr(b.author),
      patch.genre.GetOr(b.genre),
      patch.publishedYear.GetOr(b.publishedYear),
      patch.userId.GetOr(b.userId))
  }

  /**
   * updateBook: NotFound when no record has the id, Forbidden when the first
   * one belongs to someone else; otherwise exactly that record is replaced by
   * its merge with the patch, and the merged record is returned.
   */
  function UpdateResponse(books: seq<Book>, id: string, caller: string, patch: Patch): (r: Response<Book>)
    ensures r.result == Err(NotFound) <==> forall k :: 0 <= k < |books| ==> books[k].id != id
    ensures r.result == Err(Forbidden) <==> exists i :: FirstWithId(books, id, i) && books[i].userId != caller
    ensures r.result.Ok? <==> exists i :: FirstWithId(books, id, i) && books[i].userId == caller
    ensures r.result.Err? ==> r.books == books
    ensures r.result.Ok? ==>
      exists i ::
        && FirstWithId(books, id, i)
        && r.books == books[i := Merge(books[i], patch)]
        && r.result.value == r.books[i]
  {
    match IndexOfId(books, id)
    case None => Response(Err(NotFound), books)
    case Some(i) =>
      if books[i].userId != caller then Response(Err(Forbidden), books)
      else
        var merged := Merge(books[i], patch);
        Response(Ok(merged), books[i := merged])
  }

  /** `books.filter((b) => b.id !== id)`: every record with the id is dropped. */
  function Without(books: seq<Book>, id: string): (r: seq<Book>)
    ensures |r| <= |books|
    ensures forall k :: 0 <= k < |r| ==> r[k].id != id && r[k] in books
    ensures forall k :: 0 <= k < |books| && books[k].id != id ==> books[k] in r
  {
    Filter(books, IdIsNot(id))
  }

  /**
   * deleteBook: NotFound when no record has the id, Forbidden when the first
   * one belongs to someone else; otherwise every record with that id is removed.
   */
  function DeleteResponse(books: seq<Book>, id: string, caller: string): (r: Response<()>)
    ensures r.result == Err(NotFound) <==> forall k :: 0 <= k < |books| ==> books[k].id != id
    ensures r.result == Err(Forbidden) <==> exists i :: FirstWithId(books, id, i) && books[i].userId != caller
    ensures r.result.Ok? <==> exists i :: FirstWithId(books, id, i) && books[i].userId == caller
    ensures r.result.Err? ==> r.books == books
    ensures r.result.Ok? ==> r.books == Without(books, id)
  {
    match IndexOfId(books, id)
    case None => Response(Err(NotFound), books)
    case Some(i) =>
      if books[i].userId != caller then Response(Err(Forbidden), books)
      else Response(Ok(()), Without(books, id))
  }

  /**
   * searchBooksByGenre: a missing or empty genre is MissingGenre; otherwise
   * the records whose lowered genre equals the lowered query, in store order.
   */
  function SearchBooksByGenre(books: seq<Book>, genre: Option<string>): (r: Result<seq<Book>, BookError>)
    ensures r.Err? <==> genre == None || genre == Some("")
    ensures r.Err? ==> r.error == MissingGenre
    ensures r.Ok? ==> |r.value| <= |books|
    ensures r.Ok? ==> forall k :: 0 <= k < |r.value| ==>
      r.value[k] in books && Lower(r.value[k].genre) == Lower(genre.value)
    ensures r.Ok? ==> forall k :: 0 <= k < |books| && Lower(books[k].genre) == Lower(genre.value) ==>
      books[k] in r.value
  {
    if genre.None? || genre.value == "" then Err(MissingGenre)
    else Ok(Filter(books, GenreIs(Lower(genre.value))))
  }

  /** The search result of a concatenation is the concatenation of the results: store order is kept. */
  lemma SearchKeepsStoreOrder(front: seq<Book>, back: seq<Book>, genre: string)
    requires genre != ""
    ensures SearchBooksByGenre(front + back, Some(genre)).value
         == SearchBooksByGenre(front, Some(genre)).value + SearchBooksByGenre(back, Some(genre)).value
  {
    FilterAppend(front, back, GenreIs(Lower(genre)));
  }

  /** The query's case does not matter: searching for a genre and for its lowered form agree. */
  lemma SearchIgnoresQueryCase(books: seq<Book>, genre: string)
    ensures SearchBooksByGenre(books, Some(genre)) == SearchBooksByGenre(books, Some(Lower(genre)))
  {
    LowerIdempotent(genre);
  }

  /** A book stored with genre "SciFi" is found by the query "scifi". */
  lemma SearchMatchesAcrossCase(books: seq<Book>, k: int)
    requires 0 <= k < |books| && books[k].genre == "SciFi"
    ensures books[k] in SearchBooksByGenre(books, Some("scifi")).value
  {
  }

  /** A book added with a fresh id is what getBookById returns for that id. */
  lemma AddThenGet(books: seq<Book>, added: Book)
    requires forall k :: 0 <= k < |books| ==> books[k].id != added.id
    ensures GetBookById(books + [added], added.id) == Ok(added)
  {
    var after := books + [added];
    assert FirstWithId(after, added.id, |books|);
    FirstIdAfterAppend(books, added);
  }

  lemma FirstIdAfterAppend(books: seq<Book>, added: Book)
    requires forall k :: 0 <= k < |books| ==> books[k].id != added.id
    ensures IndexOfId(books + [added], added.id) == Some(|books|)
  {
    var after := books + [added];
    assert FirstWithId(after, added.id, |books|);
    var r := IndexOfId(after, added.id);
    assert r.Some?;
    FirstWithIdUnique(after, added.id, r.value, |books|);
  }

  /** Appending a record with a fresh id keeps ids unique. */
  lemma AddKeepsUniqueIds(books: seq<Book>, added: Book)
    requires UniqueIds(books)
    requires forall k :: 0 <= k < |books| ==> books[k].id != added.id
    ensures UniqueIds(books + [added])
  {
  }

  /** After a successful update that leaves the id alone, getBookById returns the merged record. */
  lemma UpdateThenGet(books: seq<Book>, id: string, caller: string, patch: Patch)
    requires UpdateResponse(books, id, caller, patch).result.Ok?
    requires patch.id == None || patch.id == Some(id)
    ensures GetBookById(UpdateResponse(books, id, caller, patch).books, id)
         == UpdateResponse(books, id, caller, patch).result
  {
  }

  /**
   * The merge can rewrite the owner: after the owner hands a book to another
   * user through the patch, the former owner's delete is Forbidden.
   */
  lemma PatchCanTransferOwnership(books: seq<Book>, id: string, caller: string, other: string, patch: Patch)
    requires UpdateResponse(books, id, caller, patch).result.Ok?
    requires patch.id == None && patch.userId == Some(other) && other != caller
    ensures DeleteResponse(UpdateResponse(books, id, caller, patch).books, id, caller).result == Err(Forbidden)
    ensures UpdateResponse(UpdateResponse(books, id, caller, patch).books, id, caller, patch).result == Err(Forbidden)
  {
  }

  /**
   * The merge can also rewrite the id: once the owner of an earlier record
   * renames it to another user's book id, the owner's delete of that id is
   * checked against the renamed record only and removes the other user's
   * book as well.
   */
  lemma CrossOwnerDelete(x: Book, y: Book, patch: Patch)
    requires x.id != y.id && x.userId != y.userId
    requires patch == Patch(Some(y.id), None, None, None, None, None)
    ensures UpdateResponse([x, y], x.id, x.userId, patch).result.Ok?
    ensures DeleteResponse(UpdateResponse([x, y], x.id, x.userId, patch).books, y.id, x.userId)
         == Response(Ok(()), [])
  {
    var after := UpdateResponse([x, y], x.id, x.userId, patch).books;
    assert FirstWithId([x, y], x.id, 0);
    assert after == [Merge(x, patch), y];
    assert FirstWithId(after, y.id, 0);
    assert Without(after, y.id) == [] by {
      assert Filter(after, IdIsNot(y.id)) == Filter(after[1..], IdIsNot(y.id));
      assert after[1..][1..] == [];
    }
  }

  /** An update whose patch leaves the id alone keeps ids unique. */
  lemma UpdateKeepsUniqueIds(books: seq<Book>, id: string, caller: string, patch: Patch)
    requires UniqueIds(books)
    requires patch.id == None || patch.id == Some(id)
    ensures UniqueIds(UpdateResponse(books, id, caller, patch).books)
  {
  }

  /** Removing one record keeps ids unique. */
  lemma RemoveAtKeepsUniqueIds(books: seq<Book>, i: int)
    requires UniqueIds(books)
    requires 0 <= i < |books|
    ensures UniqueIds(books[..i] + books[i + 1..])
  {
    var rest := books[..i] + books[i + 1..];
    forall a, b | 0 <= a < b < |rest|
      ensures rest[a].id != rest[b].id
    {
      var a' := if a < i then a else a + 1;
      var b' := if b < i then b else b + 1;
      assert rest[a] == books[a'] && rest[b] == books[b'];
    }
  }

  /** A delete keeps ids unique. */
  lemma DeleteKeepsUniqueIds(books: seq<Book>, id: string, caller: string)
    requires UniqueIds(books)
    ensures UniqueIds(DeleteResponse(books, id, caller).books)
  {
    if DeleteResponse(books, id, caller).result.Ok? {
      var i := IndexOfId(books, id).value;
      WithoutUniqueId(books, i);
      RemoveAtKeepsUniqueIds(books, i);
    }
  }

  /** With unique ids, filtering out the id of record `i` removes that record and only it. */
  lemma WithoutUniqueId(books: seq<Book>, i: int)
    requires UniqueIds(books)
    requires 0 <= i < |books|
    ensures Without(books, books[i].id) == books[..i] + books[i + 1..]
  {
    var p := IdIsNot(books[i].id);
    forall k | 0 <= k < |books| && k != i
      ensures p(books[k])
    {
      assert books[k].id != books[i].id;
    }
    FilterDropsOne(books, i, p);
  }

  /** With unique ids a successful delete removes exactly the one record, keeping the others in order. */
  lemma DeleteRemovesExactlyOne(books: seq<Book>, id: string, caller: string)
    requires UniqueIds(books)
    requires DeleteResponse(books, id, caller).result.Ok?
    ensures exists i ::
      && FirstWithId(books, id, i)
      && DeleteResponse(books, id, caller).books == books[..i] + books[i + 1..]
    ensures |DeleteResponse(books, id, caller).books| == |books| - 1
  {
    var i := IndexOfId(books, id).value;
    WithoutUniqueId(books, i);
    assert FirstWithId(books, id, i);
  }

  /** After a successful delete no record with the id is left. */
  lemma DeleteThenGet(books: seq<Book>, id: string, caller: string)
    requires DeleteResponse(books, id, caller).result.Ok?
    ensures GetBookById(DeleteResponse(books, id, caller).books, id) == Err(NotFound)
  {
  }

  /** Owner-scoped collection of books, as loaded from and written back to the store. */
  class BookStore {
    var books: seq<Book>

    constructor (initial: seq<Book>)
      ensures books == initial
    {
      books := initial;
    }

    /**
     * addBook: appends one record carrying the body's fields and the caller's
     * id as owner. `freshId` is the generated uuid, distinct from every stored id.
     */
    method AddBook(title: string, author: string, genre: string, publishedYear: int, caller: string, freshId: string)
      returns (created: Book)
      requires forall k :: 0 <= k < |books| ==> books[k].id != freshId
      modifies this
      ensures created == Book(freshId, title, author, genre, publishedYear, caller)
      ensures books == old(books) + [created]
      ensures GetBookById(books, freshId) == Ok(created)
      ensures UniqueIds(old(books)) ==> UniqueIds(books)
    {
      created := Book(freshId, title, author, genre, publishedYear, caller);
      AddThenGet(books, created);
      books := books + [created];
    }

    /** updateBook: assigns the merged record in place at the first matching index. */
    method UpdateBook(id: string, caller: string, patch: Patch) returns (result: Result<Book, BookError>)
      modifies this
      ensures Response(result, books) == UpdateResponse(old(books), id, caller, patch)
      ensures UniqueIds(old(books)) && (patch.id == None || patch.id == Some(id)) ==> UniqueIds(books)
    {
      if UniqueIds(books) && (patch.id == None || patch.id == Some(id)) {
        UpdateKeepsUniqueIds(books, id, caller, patch);
      }
      var index := IndexOfId(books, id);
      if index.None? {
        return Err(NotFound);
      }
      var i := index.value;
      if books[i].userId != caller {
        return Err(Forbidden);
      }
      books := books[i := Merge(books[i], patch)];
      result := Ok(books[i]);
    }

    /** deleteBook: replaces the collection by its filtered copy. */
    method DeleteBook(id: string, caller: string) returns (result: Result<(), BookError>)
      modifies this
      ensures Response(result, books) == DeleteResponse(old(books), id, caller)
      ensures UniqueIds(old(books)) ==> UniqueIds(books)
    {
      if UniqueIds(books) {
        DeleteKeepsUniqueIds(books, id, caller);
      }
      var index := IndexOfId(books, id);
      if index.None? {
        return Err(NotFound);
      }
      if books[index.value].userId != caller {
        return Err(Forbidden);
      }
      books := Without(books, id);
      result := Ok(());
    }
  }
}
