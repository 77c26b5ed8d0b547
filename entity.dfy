/** The persisted book record and its status (entity/Book.kt): a Kotlin data
    class with value equality and `copy`, whose JPA lifecycle hooks stamp the
    audit timestamps. */
module Entity {
  import opened Wrappers
  import opened Calendar

  /** A `LocalDateTime` reading of the clock, as a count of ticks. */
  type Timestamp = int

  datatype BookStatus = Available | Borrowed | Reserved | Maintenance

  /** The constants of the enum, in declaration order. */
  const AllStatuses: seq<BookStatus> := [Available, Borrowed, Reserved, Maintenance]

  /** The status enum has exactly four distinct values. */
  lemma StatusesAreExactlyFour(s: BookStatus)
    ensures s in AllStatuses
    ensures |AllStatuses| == 4
    ensures forall i, j :: 0 <= i < j < |AllStatuses| ==> AllStatuses[i] != AllStatuses[j]
  {
  }

  /** The data class, with its defaults: id 0 (not yet persisted), status
      AVAILABLE, no audit timestamps. */
  datatype Book = Book(
    id: int := 0,
    title: string,
    author: string,
    publishedDate: Date,
    status: BookStatus := Available,
    createdAt: Option<Timestamp> := None,
    updatedAt: Option<Timestamp> := None)

  /** The declared length of the `title` and `author` columns. */
  const ColumnLength: nat := 255

  /** The record's strings fit their columns, so the database accepts the row. */
  predicate FitsColumns(b: Book) {
    |b.title| <= ColumnLength && |b.author| <= ColumnLength
  }

  /** What a record holds apart from its audit timestamps. */
  function Content(b: Book): Book {
    b.(createdAt := None, updatedAt := None)
  }

  /** A freshly constructed record carries the defaults. */
  lemma NewBookDefaults(title: string, author: string, date: Date)
    ensures Book(title := title, author := author, publishedDate := date).id == 0
    ensures Book(title := title, author := author, publishedDate := date).status == Available
    ensures Book(title := title, author := author, publishedDate := date).createdAt == None
    ensures Book(title := title, author := author, publishedDate := date).updatedAt == None
  {
  }

  /** `book.copy(status = s)`. */
  function CopyWithStatus(b: Book, s: BookStatus): (r: Book)
    ensures r.status == s
    ensures r.id == b.id && r.title == b.title && r.author == b.author && r.publishedDate == b.publishedDate
    ensures r.createdAt == b.createdAt && r.updatedAt == b.updatedAt
    ensures r == b <==> b.status == s
  {
    b.(status := s)
  }

  /** `@PrePersist`: both audit timestamps become the same instant, nothing else changes. */
  function PrePersist(b: Book, now: Timestamp): (r: Book)
    ensures r.createdAt == Some(now) && r.updatedAt == Some(now)
    ensures Content(r) == Content(b)
  {
    b.(createdAt := Some(now), updatedAt := Some(now))
  }

  /** `@PreUpdate`: only `updatedAt` moves; `createdAt` is not updatable. */
  function PreUpdate(b: Book, now: Timestamp): (r: Book)
    ensures r.updatedAt == Some(now)
    ensures r.createdAt == b.createdAt
    ensures Content(r) == Content(b)
  {
    b.(updatedAt := Some(now))
  }

  predicate NonDecreasing(times: seq<Timestamp>) {
    forall i, j :: 0 <= i <= j < |times| ==> times[i] <= times[j]
  }

  /** A record's life: persisted at `times[0]`, then updated at each later reading. */
  function AuditTrail(b: Book, times: seq<Timestamp>): Book
    requires |times| >= 1
  {
    if |times| == 1 then PrePersist(b, times[0])
    else PreUpdate(AuditTrail(b, times[..|times| - 1]), times[|times| - 1])
  }

  /** After a persist and any number of updates, `createdAt` is the persist
      instant, `updatedAt` the last one, and the content is untouched; with a
      clock that never runs backwards, `updatedAt` is never before `createdAt`. */
  lemma {:induction false} AuditTrailTimestamps(b: Book, times: seq<Timestamp>)
    requires |times| >= 1
    ensures AuditTrail(b, times).createdAt == Some(times[0])
    ensures AuditTrail(b, times).updatedAt == Some(times[|times| - 1])
    ensures Content(AuditTrail(b, times)) == Content(b)
    ensures NonDecreasing(times) ==> AuditTrail(b, times).createdAt.value <= AuditTrail(b, times).updatedAt.value
  {
    if |times| > 1 {
      var prefix := times[..|times| - 1];
      AuditTrailTimestamps(b, prefix);
      assert prefix[0] == times[0];
    }
    if NonDecreasing(times) {
      assert times[0] <= times[|times| - 1];
    }
  }
}
