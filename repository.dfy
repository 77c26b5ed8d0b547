/** The record store behind `BookRepository` (repository/BookRepository.kt):
    the four declarative queries, each a filter over the stored records
    followed by a descending sort, and the store itself, a map from id to
    record whose `save` follows the JPA persist/merge contract. */
module Repository {
  import opened Wrappers
  import opened Strings
  import opened Calendar
  import opened Entity

  // ---------------------------------------------------------------------
  // WHERE
  // ---------------------------------------------------------------------

  /** The WHERE clauses of the four queries. */
  datatype Condition =
    | AuthorIs(author: string)
    | AuthorContainsIgnoreCase(fragment: string)
    | StatusIs(status: BookStatus)
    | AuthorAndStatusAre(author: string, status: BookStatus)

  /** Whether a record satisfies a WHERE clause. The containment query is
      `LOWER(b.author) LIKE LOWER(CONCAT('%', :author, '%'))`. */
  predicate Holds(c: Condition, b: Book) {
    match c
    case AuthorIs(a) => b.author == a
    case AuthorContainsIgnoreCase(s) => Like(Lowercase(b.author), Lowercase("%" + s + "%"))
    case StatusIs(st) => b.status == st
    case AuthorAndStatusAre(a, st) => b.author == a && b.status == st
  }

  /** The records of `rows` that satisfy `c`, in their original order. */
  function Where(rows: seq<Book>, c: Condition): (r: seq<Book>)
    ensures forall b :: multiset(r)[b] == if Holds(c, b) then multiset(rows)[b] else 0
  {
    if rows == [] then []
    else
      var rest := Where(rows[1..], c);
      assert rows == [rows[0]] + rows[1..];
      if Holds(c, rows[0]) then [rows[0]] + rest else rest
  }

  // ---------------------------------------------------------------------
  // ORDER BY ... DESC
  // ---------------------------------------------------------------------

  /** The ORDER BY columns of the queries. */
  datatype Order = PublishedDateDesc | CreatedAtDesc

  /** The sort key of a record under an ORDER BY column. `created_at` is a
      NOT NULL column, so a stored record always has one; the fallback 0 is
      never used on stored records. */
  function SortKey(o: Order, b: Book): int {
    match o
    case PublishedDateDesc => DateKey(b.publishedDate)
    case CreatedAtDesc => match b.createdAt case Some(t) => t case None => 0
  }

  predicate SortedDesc(s: seq<Book>, o: Order) {
    forall i, j :: 0 <= i < j < |s| ==> SortKey(o, s[i]) >= SortKey(o, s[j])
  }

  /** Inserts `x` into a descending sequence, in front of the records whose key equals its own. */
  function Insert(x: Book, s: seq<Book>, o: Order): (r: seq<Book>)
    requires SortedDesc(s, o)
    ensures multiset(r) == multiset(s) + multiset{x}
    ensures SortedDesc(r, o)
  {
    if s == [] then [x]
    else if SortKey(o, s[0]) > SortKey(o, x) then
      var rest := Insert(x, s[1..], o);
      assert s == [s[0]] + s[1..];
      forall b | b in rest
        ensures SortKey(o, s[0]) >= SortKey(o, b)
      {
        assert b in multiset(rest);
        if b != x {
          assert b in s[1..];
        }
      }
      SortedCons(s[0], rest, o);
      [s[0]] + rest
    else
      SortedCons(x, s, o);
      [x] + s
  }

  /** A record whose key is at least every key of a descending sequence can lead it. */
  lemma SortedCons(x: Book, s: seq<Book>, o: Order)
    requires SortedDesc(s, o)
    requires forall b :: b in s ==> SortKey(o, x) >= SortKey(o, b)
    ensures SortedDesc([x] + s, o)
  {
    var r := [x] + s;
    forall i, j | 0 <= i < j < |r|
      ensures SortKey(o, r[i]) >= SortKey(o, r[j])
    {
      assert r[j] == s[j - 1];
      if i > 0 {
        assert r[i] == s[i - 1];
      } else {
        assert s[j - 1] in s;
      }
    }
  }

  /** A stable descending sort: records with equal keys keep their relative order. */
  function OrderBy(s: seq<Book>, o: Order): (r: seq<Book>)
    ensures multiset(r) == multiset(s)
    ensures SortedDesc(r, o)
  {
    if s == [] then []
    else
      assert s == [s[0]] + s[1..];
      Insert(s[0], OrderBy(s[1..], o), o)
  }

  /** `SELECT b FROM Book b WHERE c ORDER BY o DESC` over `rows`. */
  function Select(rows: seq<Book>, c: Condition, o: Order): seq<Book> {
    OrderBy(Where(rows, c), o)
  }

  /** A query returns each matching record as often as it is stored and no
      other record, sorted on its ORDER BY column; it is empty exactly when
      no stored record matches. */
  lemma SelectSpec(rows: seq<Book>, c: Condition, o: Order)
    ensures forall b :: multiset(Select(rows, c, o))[b] == if Holds(c, b) then multiset(rows)[b] else 0
    ensures forall b :: b in Select(rows, c, o) <==> b in rows && Holds(c, b)
    ensures SortedDesc(Select(rows, c, o), o)
    ensures Select(rows, c, o) == [] <==> forall b :: b in rows ==> !Holds(c, b)
  {
    var r := Select(rows, c, o);
    assert forall b :: b in r <==> multiset(r)[b] > 0;
    assert forall b :: b in rows <==> multiset(rows)[b] > 0;
    if r != [] {
      assert r[0] in r;
    }
  }

  /** Sorting on the published-date key puts later dates first. */
  lemma PublishedDateOrderIsChronological(s: seq<Book>)
    requires SortedDesc(s, PublishedDateDesc)
    requires forall b :: b in s ==> ValidDate(b.publishedDate)
    ensures forall i, j :: 0 <= i < j < |s| ==> !Before(s[i].publishedDate, s[j].publishedDate)
  {
    forall i, j | 0 <= i < j < |s|
      ensures !Before(s[i].publishedDate, s[j].publishedDate)
    {
      assert s[i] in s && s[j] in s;
      DateKeyIsChronological(s[i].publishedDate, s[j].publishedDate);
    }
  }

  // ---------------------------------------------------------------------
  // The four queries
  // ---------------------------------------------------------------------

  /** `findByAuthor`: exact author, latest publication first. */
  function FindByAuthor(rows: seq<Book>, author: string): (r: seq<Book>)
    ensures forall b :: multiset(r)[b] == if b.author == author then multiset(rows)[b] else 0
    ensures forall b :: b in r <==> b in rows && b.author == author
    ensures SortedDesc(r, PublishedDateDesc)
    ensures r == [] <==> forall b :: b in rows ==> b.author != author
  {
    SelectSpec(rows, AuthorIs(author), PublishedDateDesc);
    Select(rows, AuthorIs(author), PublishedDateDesc)
  }

  /** `findByAuthorContainingIgnoreCase`: the lower-cased author matches
      `%fragment%` lower-cased, latest publication first. */
  function FindByAuthorContainingIgnoreCase(rows: seq<Book>, fragment: string): (r: seq<Book>)
    ensures forall b :: multiset(r)[b] == if Holds(AuthorContainsIgnoreCase(fragment), b) then multiset(rows)[b] else 0
    ensures forall b :: b in r <==> b in rows && Like(Lowercase(b.author), Lowercase("%" + fragment + "%"))
    ensures SortedDesc(r, PublishedDateDesc)
    ensures r == [] <==> forall b :: b in rows ==> !Holds(AuthorContainsIgnoreCase(fragment), b)
  {
    SelectSpec(rows, AuthorContainsIgnoreCase(fragment), PublishedDateDesc);
    Select(rows, AuthorContainsIgnoreCase(fragment), PublishedDateDesc)
  }

  /** `findByStatus`: exactly the records with that status, newest record first. */
  function FindByStatus(rows: seq<Book>, status: BookStatus): (r: seq<Book>)
    ensures forall b :: multiset(r)[b] == if b.status == status then multiset(rows)[b] else 0
    ensures forall b :: b in r <==> b in rows && b.status == status
    ensures SortedDesc(r, CreatedAtDesc)
    ensures r == [] <==> forall b :: b in rows ==> b.status != status
  {
    SelectSpec(rows, StatusIs(status), CreatedAtDesc);
    Select(rows, StatusIs(status), CreatedAtDesc)
  }

  /** `findByAuthorAndStatus`: both conditions, latest publication first. */
  function FindByAuthorAndStatus(rows: seq<Book>, author: string, status: BookStatus): (r: seq<Book>)
    ensures forall b :: multiset(r)[b] == if b.author == author && b.status == status then multiset(rows)[b] else 0
    ensures forall b :: b in r <==> b in rows && b.author == author && b.status == status
    ensures SortedDesc(r, PublishedDateDesc)
    ensures r == [] <==> forall b :: b in rows ==> !(b.author == author && b.status == status)
  {
    SelectSpec(rows, AuthorAndStatusAre(author, status), PublishedDateDesc);
    Select(rows, AuthorAndStatusAre(author, status), PublishedDateDesc)
  }

  /** Lower-casing neither creates nor removes a `LIKE` wildcard or escape. */
  lemma LowercaseKeepsWildcards(s: string)
    ensures NoWildcards(Lowercase(s)) <==> NoWildcards(s)
    ensures NoEscapes(Lowercase(s)) <==> NoEscapes(s)
  {
  }

  /** When the fragment holds no `%`, `_` or `\`, the containment query is a
      case-insensitive substring search (case folded as `LOWER` folds it). */
  lemma ContainingIgnoreCaseIsSubstringSearch(rows: seq<Book>, fragment: string)
    requires NoWildcards(fragment)
    ensures forall b :: b in FindByAuthorContainingIgnoreCase(rows, fragment) <==>
      b in rows && Contains(Lowercase(b.author), Lowercase(fragment))
  {
    var q := Lowercase(fragment);
    assert Lowercase("%" + fragment + "%") == "%" + q + "%";
    LowercaseKeepsWildcards(fragment);
    forall b | b in rows
      ensures Holds(AuthorContainsIgnoreCase(fragment), b) <==> Contains(Lowercase(b.author), q)
    {
      LikeContains(Lowercase(b.author), q);
    }
  }

  /** Every record the exact-author query returns is also returned by the
      containment query for the same text, wildcards included, unless the
      text holds the escape `\`, which changes what the pattern means. */
  lemma ExactAuthorIsAlsoContained(rows: seq<Book>, author: string)
    requires NoEscapes(author)
    ensures forall b :: b in FindByAuthor(rows, author) ==> b in FindByAuthorContainingIgnoreCase(rows, author)
  {
    var q := Lowercase(author);
    assert Lowercase("%" + author + "%") == "%" + q + "%";
    LowercaseKeepsWildcards(author);
    LikeSurroundedSelf(q);
  }

  /** A backslash in the fragment escapes the next character: the fragment
      `a\%` finds the author "a%" but not the author written `a\%`. */
  lemma BackslashEscapesInFragment()
    ensures Holds(AuthorContainsIgnoreCase("a\\%"), Book(title := "", author := "a%", publishedDate := Date(2000, 1, 1)))
    ensures !Holds(AuthorContainsIgnoreCase("a\\%"), Book(title := "", author := "a\\%", publishedDate := Date(2000, 1, 1)))
  {
    var p := "%a\\%%";
    assert Lowercase("%" + "a\\%" + "%") == p;
    assert Lowercase("a%") == "a%";
    assert Lowercase("a\\%") == "a\\%";
    assert Like("%", "\\%%") by {
      assert "\\%%"[2..] == "%";
      LikePercent([]);
    }
    assert Like("a%", p) by {
      assert p[1..] == "a\\%%" && "a\\%%"[1..] == "\\%%" && "a%"[1..] == "%";
    }
    assert !Like("a\\%", p) by {
      assert p[1..] == "a\\%%" && "a\\%%"[1..] == "\\%%";
      assert "a\\%"[1..] == "\\%" && "\\%"[1..] == "%" && "%"[1..] == [];
      assert !Like("a\\%", p[1..]);
      assert !Like([], p);
      assert !Like("%", p);
      assert !Like("\\%", p);
    }
  }

  /** The author-and-status query is the exact-author query narrowed to one status. */
  lemma AuthorAndStatusNarrowsAuthor(rows: seq<Book>, author: string, status: BookStatus)
    ensures forall b :: b in FindByAuthorAndStatus(rows, author, status) <==>
      b in FindByAuthor(rows, author) && b.status == status
  {
  }

  // ---------------------------------------------------------------------
  // The store
  // ---------------------------------------------------------------------

  /** The records of `m` whose ids lie in `[lo, hi)`, in increasing id order. */
  function RowsBetween(m: map<int, Book>, lo: int, hi: int): seq<Book>
    decreases hi - lo
  {
    if lo >= hi then []
    else (if lo in m then [m[lo]] else []) + RowsBetween(m, lo + 1, hi)
  }

  /** When every record sits under its own id, the listing holds exactly the
      records whose ids are in range, in strictly increasing id order. */
  lemma {:induction false} RowsBetweenSpec(m: map<int, Book>, lo: int, hi: int)
    requires forall k :: k in m ==> m[k].id == k
    ensures forall b :: b in RowsBetween(m, lo, hi) <==> lo <= b.id < hi && b.id in m && m[b.id] == b
    ensures forall i, j :: 0 <= i < j < |RowsBetween(m, lo, hi)| ==>
      RowsBetween(m, lo, hi)[i].id < RowsBetween(m, lo, hi)[j].id
    decreases hi - lo
  {
    if lo < hi {
      RowsBetweenSpec(m, lo + 1, hi);
      var rest := RowsBetween(m, lo + 1, hi);
      if lo in m {
        var r := [m[lo]] + rest;
        assert RowsBetween(m, lo, hi) == r;
        forall i, j | 0 <= i < j < |r|
          ensures r[i].id < r[j].id
        {
          if i == 0 {
            assert r[j] == rest[j - 1] && r[j] in rest;
          } else {
            assert r[i] == rest[i - 1] && r[j] == rest[j - 1];
          }
        }
      }
    }
  }

  /** Why the database refuses a write: a value longer than its column
      (MySQL's strict mode rejects it instead of truncating). */
  datatype WriteError = DataTooLong
  {
    /** The start of the database's message; the column and row follow. */
    function Message(): string {
      "Data too long for column"
    }
  }

  /** The table: each record under its id, and the next id the IDENTITY column hands out. */
  class BookStore {
    var books: map<int, Book>
    var nextId: int

    /** Ids are positive, below the counter, and name their records; stored
        records carry both audit timestamps (NOT NULL columns). */
    predicate Valid()
      reads this
    {
      && nextId >= 1
      && forall k :: k in books ==>
           && 1 <= k < nextId
           && books[k].id == k
           && books[k].createdAt.Some?
           && books[k].updatedAt.Some?
           && FitsColumns(books[k])
    }

    constructor()
      ensures Valid()
      ensures books == map[] && nextId == 1
    {
      books := map[];
      nextId := 1;
    }

    /** The stored records in id order: what the queries run over. */
    function Rows(): (r: seq<Book>)
      reads this
      requires Valid()
      ensures forall b :: b in r <==> b.id in books && books[b.id] == b
      ensures forall i, j :: 0 <= i < j < |r| ==> r[i].id < r[j].id
    {
      RowsBetweenSpec(books, 1, nextId);
      RowsBetween(books, 1, nextId)
    }

    /** Every stored record was created no later than it was last updated. */
    predicate StampsInOrder()
      reads this
      requires Valid()
    {
      forall k :: k in books ==> books[k].createdAt.value <= books[k].updatedAt.value
    }

    /** No stored record carries a timestamp later than `now`. */
    predicate StampedBy(now: Timestamp)
      reads this
      requires Valid()
    {
      forall k :: k in books ==> books[k].updatedAt.value <= now
    }

    /** `findById`. */
    function FindById(id: int): (r: Option<Book>)
      reads this
      requires Valid()
      ensures r.Some? <==> id in books
      ensures r.Some? ==> r.value.id == id && r.value in Rows()
    {
      if id in books then Some(books[id]) else None
    }

    /** `save`: a record with id 0 is persisted under a fresh id with its
        audit timestamps set; a stored record is merged. The database refuses
        a row whose title or author is longer than its column, and then
        nothing is written. When the clock has not run behind any stored
        timestamp, the audit stamps stay in order. */
    method Save(b: Book, now: Timestamp) returns (r: Result<Book, WriteError>)
      requires Valid()
      requires b.id == 0 || b.id in books
      modifies this
      ensures Valid()
      ensures r.Err? <==> !FitsColumns(b)
      ensures r.Err? ==> r.error == DataTooLong && books == old(books) && nextId == old(nextId)
      ensures r.Ok? && b.id == 0 ==> && old(nextId) !in old(books)
                                     && r.value == PrePersist(b.(id := old(nextId)), now)
                                     && books == old(books)[r.value.id := r.value]
                                     && nextId == old(nextId) + 1
      ensures r.Ok? && b.id != 0 ==> && r.value == Merged(old(books)[b.id], b, now)
                                     && books == old(books)[b.id := r.value]
                                     && nextId == old(nextId)
      ensures old(StampedBy(now)) ==> StampedBy(now)
      ensures old(StampedBy(now) && StampsInOrder()) ==> StampsInOrder()
    {
      if !FitsColumns(b) {
        return Err(DataTooLong);
      }
      var saved;
      if b.id == 0 {
        saved := PrePersist(b.(id := nextId), now);
        books := books[nextId := saved];
        nextId := nextId + 1;
      } else {
        saved := Merged(books[b.id], b, now);
        books := books[b.id := saved];
      }
      return Ok(saved);
    }
  }

  /** What `save` stores for a record that is already in the table: the
      incoming state with the stored `created_at` (the column is not
      updatable); `@PreUpdate` runs only when that state differs from the
      stored row, otherwise the stored row stays as it is. */
  function Merged(stored: Book, incoming: Book, now: Timestamp): (r: Book)
    ensures r.id == incoming.id && Content(r) == Content(incoming)
    ensures r.createdAt == stored.createdAt
    ensures incoming.(createdAt := stored.createdAt) == stored ==> r == stored
    ensures incoming.(createdAt := stored.createdAt) != stored ==> r.updatedAt == Some(now)
    ensures stored.updatedAt.Some? ==> r.updatedAt.Some?
  {
    var candidate := incoming.(createdAt := stored.createdAt);
    if candidate == stored then stored else PreUpdate(candidate, now)
  }
}
