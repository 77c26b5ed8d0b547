/** The book service (service/BookService.kt): input policy in front of the
    record store. Author lookups reject blank names and search on the
    trimmed name; saving converts the Buddhist Era date, enforces the year
    window and trims title and author; a status update rewrites one stored
    record. `LocalDate.now().year` and the audit clock are parameters. */
module Service {
  import opened Wrappers
  import opened Strings
  import opened Calendar
  import opened Entity
  import opened Dto
  import opened Repository

  /** Why a service call was refused. Each surfaces as an
      IllegalArgumentException carrying `Message()`. */
  datatype ServiceError =
    | InvalidDate(cause: DateError)
    | BlankAuthor
    | YearTooOld
    | YearInFuture
    | NotFound(id: int)
    | StoreFailed(failure: WriteError)
  {
    function Message(): string {
      match this
      case InvalidDate(cause) => cause.Message()
      case BlankAuthor => "Author name cannot be empty"
      case YearTooOld => "Published year must be greater than 1000"
      case YearInFuture => "Published year cannot be in the future"
      case NotFound(id) => "Book not found with id: " + IntToString(id)
      case StoreFailed(failure) => failure.Message()
    }
  }

  /** The oldest year `saveBook` refuses. */
  const OldestRefusedYear: int := 1000

  /** The year checks of `saveBook`, in the source's order: too old first,
      then in the future. */
  function CheckYear(year: int, currentYear: int): (r: Option<ServiceError>)
    ensures r == None <==> OldestRefusedYear < year <= currentYear
    ensures r == Some(YearTooOld) <==> year <= OldestRefusedYear
    ensures r == Some(YearInFuture) <==> OldestRefusedYear < year && currentYear < year
  {
    if year <= OldestRefusedYear then Some(YearTooOld)
    else if year > currentYear then Some(YearInFuture)
    else None
  }

  /** The record `saveBook` hands to the store, or the reason it refuses the
      request: conversion errors first, then the year window. */
  function BookToSave(request: BookRequest, currentYear: int): (r: Result<Book, ServiceError>)
    ensures r.Ok? ==> && r.value.id == 0
                      && r.value.title == Trim(request.title)
                      && r.value.author == Trim(request.author)
                      && ToGregorianDate(request.publishedDate) == Ok(r.value.publishedDate)
                      && r.value.status == request.status
                      && r.value.createdAt == None && r.value.updatedAt == None
    ensures r.Ok? ==> ValidDate(r.value.publishedDate) && OldestRefusedYear < r.value.publishedDate.year <= currentYear
    ensures ToGregorianDate(request.publishedDate).Err? ==> r == Err(InvalidDate(ToGregorianDate(request.publishedDate).error))
    ensures ToGregorianDate(request.publishedDate).Ok? ==>
      var year := ToGregorianDate(request.publishedDate).value.year;
      && (r == Err(YearTooOld) <==> year <= OldestRefusedYear)
      && (r == Err(YearInFuture) <==> OldestRefusedYear < year && currentYear < year)
  {
    match ToGregorianDate(request.publishedDate)
    case Err(e) => Err(InvalidDate(e))
    case Ok(date) =>
      match CheckYear(date.year, currentYear)
      case Some(e) => Err(e)
      case None => Ok(Book(title := Trim(request.title), author := Trim(request.author),
                           publishedDate := date, status := request.status))
  }

  /** A request is accepted exactly when its date converts and the year lies
      in the window; every refusal is exactly one of the three reasons, in
      the order the checks run. */
  lemma BookToSaveAcceptsExactly(request: BookRequest, currentYear: int)
    ensures BookToSave(request, currentYear).Ok? <==>
      ToGregorianDate(request.publishedDate).Ok?
      && OldestRefusedYear < ToGregorianDate(request.publishedDate).value.year <= currentYear
    ensures BookToSave(request, currentYear).Err? ==>
      || (ToGregorianDate(request.publishedDate).Err?
          && BookToSave(request, currentYear).error == InvalidDate(ToGregorianDate(request.publishedDate).error))
      || BookToSave(request, currentYear).error == YearTooOld
      || BookToSave(request, currentYear).error == YearInFuture
  {
  }

  /** A date converts and passes the window exactly when it renders a
      Buddhist date whose Gregorian year lies in the window. */
  lemma SavedDatesAreTheWindow(title: string, author: string, date: Date, status: BookStatus, currentYear: int)
    requires Representable(date)
    ensures BookToSave(BookRequest(title, author, FormatBuddhistDate(date), status), currentYear).Ok? <==>
      OldestRefusedYear < date.year <= currentYear
  {
    ToGregorianDateAcceptsEveryRendering(date);
  }

  /** The record to save does not depend on surrounding whitespace in title and author. */
  lemma BookToSaveIgnoresPadding(request: BookRequest, currentYear: int)
    ensures BookToSave(request.(title := Trim(request.title), author := Trim(request.author)), currentYear) ==
      BookToSave(request, currentYear)
  {
    TrimIdempotent(request.title);
    TrimIdempotent(request.author);
  }

  /** The service: stateless itself, it reads and writes the store it is given. */
  class BookService {
    const store: BookStore

    constructor(store: BookStore)
      ensures this.store == store
    {
      this.store := store;
    }

    /** `getBooksByAuthor`: a blank name is refused, any other is looked up trimmed. */
    function GetBooksByAuthor(author: string): (r: Result<seq<Book>, ServiceError>)
      reads store
      requires store.Valid()
      ensures r.Err? <==> IsBlank(author)
      ensures r.Err? ==> r.error == BlankAuthor
      ensures r.Ok? ==> r.value == FindByAuthor(store.Rows(), Trim(author))
      ensures r.Ok? ==> forall b :: b in r.value <==> b in store.Rows() && b.author == Trim(author)
    {
      if IsBlank(author) then Err(BlankAuthor) else Ok(FindByAuthor(store.Rows(), Trim(author)))
    }

    /** `getBooksByStatus`: the store's status query, passed through. */
    function GetBooksByStatus(status: BookStatus): (r: seq<Book>)
      reads store
      requires store.Valid()
      ensures forall b :: b in r <==> b.id in store.books && store.books[b.id] == b && b.status == status
      ensures SortedDesc(r, CreatedAtDesc)
      ensures r == FindByStatus(store.Rows(), status)
    {
      FindByStatus(store.Rows(), status)
    }

    /** `saveBook`: every check happens before the store is touched; an
        accepted request is persisted as one new record. */
    method SaveBook(request: BookRequest, currentYear: int, now: Timestamp) returns (r: Result<Book, ServiceError>)
      requires store.Valid()
      modifies store
      ensures store.Valid()
      ensures r.Err? <==> BookToSave(request, currentYear).Err? || !FitsColumns(BookToSave(request, currentYear).value)
      ensures r.Err? ==> store.books == old(store.books) && store.nextId == old(store.nextId)
      ensures BookToSave(request, currentYear).Err? ==> r == Err(BookToSave(request, currentYear).error)
      ensures BookToSave(request, currentYear).Ok? && !FitsColumns(BookToSave(request, currentYear).value) ==>
        r == Err(StoreFailed(DataTooLong))
      ensures r.Ok? ==> && r.value == PrePersist(BookToSave(request, currentYear).value.(id := old(store.nextId)), now)
                        && r.value.id !in old(store.books)
                        && store.books == old(store.books)[r.value.id := r.value]
                        && store.nextId == old(store.nextId) + 1
      ensures old(store.StampedBy(now)) ==> store.StampedBy(now)
      ensures old(store.StampedBy(now) && store.StampsInOrder()) ==> store.StampsInOrder()
    {
      var book := BookToSave(request, currentYear);
      if book.Err? {
        return Err(book.error);
      }
      var saved := store.Save(book.value, now);
      if saved.Err? {
        return Err(StoreFailed(saved.error));
      }
      return Ok(saved.value);
    }

    /** `updateBookStatus`: a missing id is refused and nothing changes;
        otherwise the stored record is saved again with the new status. */
    method UpdateBookStatus(id: int, status: BookStatus, now: Timestamp) returns (r: Result<Book, ServiceError>)
      requires store.Valid()
      modifies store
      ensures store.Valid()
      ensures store.nextId == old(store.nextId)
      ensures r.Err? <==> id !in old(store.books)
      ensures r.Err? ==> r == Err(NotFound(id)) && store.books == old(store.books)
      ensures r.Ok? ==> && r.value == StatusUpdated(old(store.books)[id], status, now)
                        && store.books == old(store.books)[id := r.value]
      ensures r.Ok? && old(store.StampedBy(now)) ==>
        old(store.books)[id].updatedAt.value <= r.value.updatedAt.value
      ensures old(store.StampedBy(now)) ==> store.StampedBy(now)
      ensures old(store.StampedBy(now) && store.StampsInOrder()) ==> store.StampsInOrder()
    {
      match store.FindById(id)
      case None =>
        return Err(NotFound(id));
      case Some(book) =>
        StatusUpdatedSpec(book, status, now);
        var updated := CopyWithStatus(book, status);
        var saved := store.Save(updated, now);
        assert saved.Ok?;
        return Ok(saved.value);
    }
  }

  /** What a status update stores for a record. */
  function StatusUpdated(stored: Book, status: BookStatus, now: Timestamp): Book {
    Merged(stored, CopyWithStatus(stored, status), now)
  }

  /** A status update keeps the id, title, author, date and `createdAt`, sets
      the new status, and touches `updatedAt` only when the status changes. */
  lemma StatusUpdatedSpec(stored: Book, status: BookStatus, now: Timestamp)
    ensures StatusUpdated(stored, status, now).status == status
    ensures var r := StatusUpdated(stored, status, now);
      r.id == stored.id && r.title == stored.title && r.author == stored.author
      && r.publishedDate == stored.publishedDate && r.createdAt == stored.createdAt
    ensures stored.status == status ==> StatusUpdated(stored, status, now) == stored
    ensures stored.status != status ==> StatusUpdated(stored, status, now).updatedAt == Some(now)
  {
    var incoming := CopyWithStatus(stored, status);
    assert incoming.(createdAt := stored.createdAt) == incoming;
  }

  /** Updating a record to the status it already has, or twice to the same
      status, leaves it as the first update left it. */
  lemma StatusUpdateIsIdempotent(stored: Book, status: BookStatus, now: Timestamp, later: Timestamp)
    ensures StatusUpdated(StatusUpdated(stored, status, now), status, later) == StatusUpdated(stored, status, now)
  {
    StatusUpdatedSpec(stored, status, now);
    StatusUpdatedSpec(StatusUpdated(stored, status, now), status, later);
  }
}

module ServiceExamples {
  import opened Wrappers
  import opened Strings
  import opened Calendar
  import opened Entity
  import opened Dto
  import opened DtoExamples
  import opened Service

  // Outcomes the service's tests pin down.

  /** A padded author name is looked up without its padding. */
  lemma ExamplePaddedAuthor()
    ensures !IsBlank("  F. Scott Fitzgerald  ")
    ensures Trim("  F. Scott Fitzgerald  ") == "F. Scott Fitzgerald"
  {
    assert "  F. Scott Fitzgerald  " == "  " + "F. Scott Fitzgerald" + "  ";
    TrimOfPadded("  ", "F. Scott Fitzgerald", "  ");
  }

  lemma ExampleBlankAuthors()
    ensures IsBlank("") && IsBlank("   ")
  {
  }

  /** Buddhist year 1000 is Gregorian 457, which is too old. */
  lemma ExampleYearTooOld(title: string, author: string, currentYear: int)
    ensures BookToSave(BookRequest(title, author, "1000-01-01"), currentYear) == Err(YearTooOld)
  {
    ExampleYear457();
  }

  /** New Year's Day of the year after the current one, written in the
      Buddhist Era, is refused as lying in the future. */
  lemma ExampleYearInFuture(title: string, author: string, currentYear: int)
    requires OldestRefusedYear <= currentYear < 9999 - BuddhistEraOffset
    ensures BookToSave(BookRequest(title, author, FormatBuddhistDate(Date(currentYear + 1, 1, 1))), currentYear)
      == Err(YearInFuture)
    ensures YearInFuture.Message() == "Published year cannot be in the future"
  {
    ToGregorianDateAcceptsEveryRendering(Date(currentYear + 1, 1, 1));
  }

  lemma ExampleNotFoundMessage()
    ensures NotFound(999).Message() == "Book not found with id: 999"
  {
  }
}
