# Book management core, modelled in Dafny

This project models the core of a Kotlin/Spring book-management service, in which publication dates arrive in the Thai Buddhist Era.

- **`Dto` (`dto.dfy`).** Holds the book request and `toGregorianDate`. The conversion splits a `yyyy-MM-dd` Buddhist-Era string on `-` and checks for 4, 2 and 2 ASCII digits. It then range-checks the month, then the day, and subtracts 543. Finally it builds a proleptic Gregorian date, refusing days that do not exist. Each refusal is a `DateError` that carries the source's message.
- **`Calendar` (`calendar.dfy`).** The part of `LocalDate` that is used: leap years, month lengths, `LocalDate.of` and chronological order.
- **`Entity` (`entity.dfy`).** The `Book` record, the four-valued `BookStatus`, `copy(status = …)`, and the `@PrePersist`/`@PreUpdate` audit hooks.
- **`Repository` (`repository.dfy`).**
  - The four repository queries, each a WHERE filter followed by a descending sort over the stored records.
  - The class `BookStore`: the `books` table as a map from id to record, plus the id counter. Its `Save` follows the JPA contract: persist a record with id 0 under a fresh id, merge a stored one.
- **`Service` (`service.dfy`).** The class `BookService` over a `BookStore`, with these operations:
  - author lookups reject blank names and search on the trimmed name;
  - `saveBook` converts the date, enforces `1000 < year <= currentYear`, trims title and author, and persists one record, unless the database refuses a title or author longer than its 255-character column;
  - `updateBookStatus` rewrites one stored record or fails with "Book not found with id: …".
- **`Config` (`config.dfy`).** The `SupportedDatabase` enum with its case-insensitive lookup, the name set and the joined name list. It also has the `^\d+\.\d+\.\d+$` version check and the configuration defaults.
- **`Strings` (`strings.dfy`).** The Kotlin/JVM string operations the core calls:
  - `split`, `joinToString`, `\d` runs and `toInt()`;
  - `trim` and `isBlank`, with Kotlin's whitespace set;
  - `equals(ignoreCase = true)`, `LOWER` and SQL `LIKE`.

The clock and `LocalDate.now().year` become parameters: `now: Timestamp` and `currentYear: int`. The exceptions the source throws become `Err` results.

## Model

Source paths are relative to the repository root.

| member | source | states |
|---|---|---|
| Dto.RequestStatusDefault | src/main/kotlin/com/asmt/bookmanagementsystem/dto/BookRequest.kt:29 | a request built without a status asks for AVAILABLE |
| Dto.ToGregorianDate | src/main/kotlin/com/asmt/bookmanagementsystem/dto/BookRequest.kt:31-68 | every accepted string yields a date that exists in the proleptic Gregorian calendar, with year in -543..9456 |
| Dto.ConvertFields | src/main/kotlin/com/asmt/bookmanagementsystem/dto/BookRequest.kt:46-66 | the numeric stage: month checked before day, then Gregorian year = Buddhist year - 543 and `LocalDate.of`; its outcomes are stated by ToGregorianDateErrors and FebruaryTwentyNinth |
| Dto.DateError.Message | src/main/kotlin/com/asmt/bookmanagementsystem/dto/BookRequest.kt:36-66 | the four exception messages of the conversion, word for word |
| Dto.ToGregorianDateAcceptsEveryRendering | src/main/kotlin/com/asmt/bookmanagementsystem/dto/BookRequest.kt:34-62 | every existing date whose Buddhist year has four digits, written `yyyy-MM-dd` in the Buddhist Era, converts back to exactly that date |
| Dto.ToGregorianDateAcceptsOnlyRenderings | src/main/kotlin/com/asmt/bookmanagementsystem/dto/BookRequest.kt:34-62 | conversely, an accepted string is the Buddhist rendering of its result: Gregorian year = Buddhist year - 543, month and day carried over |
| Dto.ToGregorianDateErrors | src/main/kotlin/com/asmt/bookmanagementsystem/dto/BookRequest.kt:34-66 | the refusal for each defect, in check order: not three parts or not 4/2/2 digits gives the format error, then month outside 1..12, then day outside 1..31, then a day past the month's end gives the calendar error |
| Dto.ToGregorianDateRefusesMissingDays | src/main/kotlin/com/asmt/bookmanagementsystem/dto/BookRequest.kt:59-66 | a well-formed string naming a day past the end of its Gregorian month is refused with the calendar error |
| Dto.LeapDayAcceptedIffLeapYear | src/main/kotlin/com/asmt/bookmanagementsystem/dto/BookRequest.kt:59-66 | February 29 of a Buddhist year is accepted exactly when the Gregorian year is a leap year |
| DtoExamples.FebruaryTwentyNinth | src/main/kotlin/com/asmt/bookmanagementsystem/dto/BookRequest.kt:51-66 | Feb 29 of Buddhist year y converts to Gregorian (y-543)-02-29 when that year is leap, and draws the calendar error otherwise |
| DtoExamples.ExampleTwentyFiveNewYear | src/test/kotlin/com/asmt/bookmanagementsystem/dto/BookRequestTest.kt:23 | "2568-01-01" converts to 2025-01-01 |
| DtoExamples.ExampleTwentyFourNewYearsEve | src/test/kotlin/com/asmt/bookmanagementsystem/dto/BookRequestTest.kt:24 | "2567-12-31" converts to 2024-12-31 |
| DtoExamples.ExampleLeapDay2024 | src/test/kotlin/com/asmt/bookmanagementsystem/dto/BookRequestTest.kt:47 | "2567-02-29" converts to 2024-02-29 |
| DtoExamples.ExampleLeapDay2000 | src/test/kotlin/com/asmt/bookmanagementsystem/dto/BookRequestTest.kt:48 | "2543-02-29" converts to 2000-02-29 (a century leap year) |
| DtoExamples.ExampleNoLeapDay2001 | src/test/kotlin/com/asmt/bookmanagementsystem/dto/BookRequestTest.kt:70 | "2544-02-29" is refused: 2001 is not a leap year |
| DtoExamples.ExampleNoLeapDay2025 | src/test/kotlin/com/asmt/bookmanagementsystem/dto/BookRequestTest.kt:123 | "2568-02-29" is refused with the calendar error |
| DtoExamples.ExampleNoLeapDay2100 | src/test/kotlin/com/asmt/bookmanagementsystem/dto/BookRequestTest.kt:126 | "2643-02-29" is refused: 2100 is not a leap year |
| DtoExamples.ExampleSlashes | src/test/kotlin/com/asmt/bookmanagementsystem/dto/BookRequestTest.kt:216 | "2567/01/01" is refused with the format error |
| DtoExamples.ExampleMissingZeros | src/test/kotlin/com/asmt/bookmanagementsystem/dto/BookRequestTest.kt:218 | "2567-1-1" is refused with the format error |
| DtoExamples.ExampleMonthThirteen | src/test/kotlin/com/asmt/bookmanagementsystem/dto/BookRequestTest.kt:219 | "2567-13-01" is refused with the month error |
| DtoExamples.ExampleDayThirtyTwo | src/test/kotlin/com/asmt/bookmanagementsystem/dto/BookRequestTest.kt:220 | "2567-01-32" is refused with the day error |
| DtoExamples.ExampleMonthZero | src/test/kotlin/com/asmt/bookmanagementsystem/dto/BookRequestTest.kt:221 | "2567-00-01" is refused with the month error |
| DtoExamples.ExampleDayZero | src/test/kotlin/com/asmt/bookmanagementsystem/dto/BookRequestTest.kt:222 | "2567-01-00" is refused with the day error |
| DtoExamples.ExampleWords | src/test/kotlin/com/asmt/bookmanagementsystem/dto/BookRequestTest.kt:223 | "invalid-date" is refused with the format error |
| DtoExamples.ExampleEmpty | src/test/kotlin/com/asmt/bookmanagementsystem/dto/BookRequestTest.kt:224 | "" is refused with the format error |
| DtoExamples.ExampleYear457 | src/test/kotlin/com/asmt/bookmanagementsystem/service/BookServiceTest.kt:136 | "1000-01-01" converts to 457-01-01 |
| Calendar.DaysInMonth | src/main/kotlin/com/asmt/bookmanagementsystem/dto/BookRequest.kt:62 | month lengths of `LocalDate.of`: February has 29 days exactly in leap years and 28 otherwise; April, June, September and November have 30; the rest have 31 |
| Calendar.IsLeap | src/main/kotlin/com/asmt/bookmanagementsystem/dto/BookRequest.kt:62 | the proleptic Gregorian leap rule of `LocalDate`: divisible by 4, and not by 100 unless by 400; its effect is stated by LeapDayAcceptedIffLeapYear |
| Calendar.LocalDateOf | src/main/kotlin/com/asmt/bookmanagementsystem/dto/BookRequest.kt:62 | `LocalDate.of` yields a date exactly when the year is in Java's range, the month in 1..12 and the day within the month, and then carries the three fields unchanged |
| Calendar.DateKeyIsChronological | src/main/kotlin/com/asmt/bookmanagementsystem/repository/BookRepository.kt:15 | the numeric key that `ORDER BY publishedDate` sorts on orders dates chronologically, and equal keys mean equal dates |
| Entity.StatusesAreExactlyFour | src/main/kotlin/com/asmt/bookmanagementsystem/entity/Book.kt:53-58 | the status enum has exactly the four distinct values AVAILABLE, BORROWED, RESERVED, MAINTENANCE |
| Entity.NewBookDefaults | src/main/kotlin/com/asmt/bookmanagementsystem/entity/Book.kt:17-38 | a new record has id 0, status AVAILABLE and no audit timestamps |
| Entity.CopyWithStatus | src/main/kotlin/com/asmt/bookmanagementsystem/entity/Book.kt:17-38 | `copy(status = s)` has status s and every other field of the original; it equals the original exactly when the status was already s |
| Entity.PrePersist | src/main/kotlin/com/asmt/bookmanagementsystem/entity/Book.kt:40-45 | both timestamps become the same instant and nothing else changes |
| Entity.PreUpdate | src/main/kotlin/com/asmt/bookmanagementsystem/entity/Book.kt:47-50 | only `updatedAt` moves; `createdAt` and the content are kept |
| Entity.FitsColumns | src/main/kotlin/com/asmt/bookmanagementsystem/entity/Book.kt:21-25 | title and author each fit the declared `length = 255` of their columns |
| Entity.AuditTrailTimestamps | src/main/kotlin/com/asmt/bookmanagementsystem/entity/Book.kt:40-50 | after a persist and any number of updates, `createdAt` is the persist instant and `updatedAt` the last one, and the content is untouched; when the readings never decrease, the record's `createdAt <= updatedAt` |
| Strings.Split | src/main/kotlin/com/asmt/bookmanagementsystem/dto/BookRequest.kt:34 | `split` always yields at least one part |
| Strings.SplitJoin | src/main/kotlin/com/asmt/bookmanagementsystem/dto/BookRequest.kt:34 | joining the parts of a split with the delimiter rebuilds the string: no character is lost |
| Strings.SplitPartsFree | src/main/kotlin/com/asmt/bookmanagementsystem/dto/BookRequest.kt:34 | no part of a split contains the delimiter |
| Strings.SplitThree | src/main/kotlin/com/asmt/bookmanagementsystem/dto/BookRequest.kt:34-37 | three delimiter-free strings joined by the delimiter split into exactly those three |
| Strings.Join | src/main/kotlin/com/asmt/bookmanagementsystem/config/ApplicationConfig.kt:21 | `joinToString(sep)`: the parts with sep between neighbours; the inverse of Split, by SplitJoin, and spelled out by JoinFive |
| Strings.DecimalValue | src/main/kotlin/com/asmt/bookmanagementsystem/dto/BookRequest.kt:46-48 | the value `toInt()` reads from n digits is below 10^n |
| Strings.PadDecimalRoundTrip | src/main/kotlin/com/asmt/bookmanagementsystem/dto/BookRequest.kt:40-48 | a number below 10^w written with w zero-padded digits matches `\d{w}` and reads back as itself |
| Strings.DecimalValuePadRoundTrip | src/main/kotlin/com/asmt/bookmanagementsystem/dto/BookRequest.kt:40-48 | a digit string is determined by its length and value: re-padding its value gives it back |
| Strings.NatToStringRoundTrip | src/main/kotlin/com/asmt/bookmanagementsystem/service/BookService.kt:64 | the decimal rendering of an id reads back as that id |
| Strings.TrimShape | src/main/kotlin/com/asmt/bookmanagementsystem/service/BookService.kt:23 | `trim()` removes a blank prefix and a blank suffix and nothing else, and leaves no whitespace at either end |
| Strings.TrimCut | src/main/kotlin/com/asmt/bookmanagementsystem/service/BookService.kt:23 | the indices where `trim()` cuts: it keeps `s[i..j]`, with `s[..i]` and `s[j..]` blank and the kept ends not whitespace |
| Strings.TrimOfPadded | src/main/kotlin/com/asmt/bookmanagementsystem/service/BookService.kt:23 | conversely, a string whose ends are not whitespace, padded with blanks on either side, trims back to itself |
| Strings.BlankIffTrimEmpty | src/main/kotlin/com/asmt/bookmanagementsystem/service/BookService.kt:20-23 | `isBlank()` holds exactly when `trim()` leaves the empty string |
| Strings.TrimIdempotent | src/main/kotlin/com/asmt/bookmanagementsystem/service/BookService.kt:50-51 | trimming twice is trimming once |
| Strings.IsWhitespace | src/main/kotlin/com/asmt/bookmanagementsystem/service/BookService.kt:20-23 | Kotlin's `isWhitespace`: the Unicode space, line and paragraph separators (no-break spaces included) and the control characters TAB, LF, VT, FF, CR and U+001C-U+001F |
| Strings.IsBlank | src/main/kotlin/com/asmt/bookmanagementsystem/service/BookService.kt:20 | `isBlank()`: every character is whitespace, the empty string included; tied to `trim()` by BlankIffTrimEmpty |
| Strings.Trim | src/main/kotlin/com/asmt/bookmanagementsystem/service/BookService.kt:23 | `trim()`: drops leading and then trailing whitespace; what it keeps is stated by TrimCut, TrimShape and TrimOfPadded |
| Strings.Lowercase | src/main/kotlin/com/asmt/bookmanagementsystem/repository/BookRepository.kt:21 | `LOWER` keeps the length and lower-cases each character in place |
| Strings.CaseChangesAreIgnored | src/main/kotlin/com/asmt/bookmanagementsystem/config/ApplicationConfig.kt:23 | upper- or lower-casing a string leaves it equal to the original under `equals(ignoreCase = true)` |
| Strings.ContainsAt | src/main/kotlin/com/asmt/bookmanagementsystem/repository/BookRepository.kt:21 | substring containment holds exactly when the fragment is a prefix of some suffix |
| Strings.Like | src/main/kotlin/com/asmt/bookmanagementsystem/repository/BookRepository.kt:21 | SQL `LIKE` with MySQL's default escape `\`: `%` matches any run, `_` one character, `\` makes the next character literal; what it means for wildcard-free patterns is stated by LikePrefix and LikeContains |
| Strings.PatternPrefix | src/main/kotlin/com/asmt/bookmanagementsystem/repository/BookRepository.kt:21 | a pattern without `\` that begins t, followed by `%`, matches t: each `_` or `%` in it can match the character it stands over |
| Strings.LikeSurroundedSelf | src/main/kotlin/com/asmt/bookmanagementsystem/repository/BookRepository.kt:21 | a string without `\` is LIKE `%` + itself + `%` |
| Strings.LikePrefix | src/main/kotlin/com/asmt/bookmanagementsystem/repository/BookRepository.kt:21 | with no `%`, `_` or `\` in q, `t LIKE q%` holds exactly when q begins t |
| Strings.LikeContains | src/main/kotlin/com/asmt/bookmanagementsystem/repository/BookRepository.kt:21 | with no `%`, `_` or `\` in q, `t LIKE %q%` holds exactly when t contains q |
| Repository.Where | src/main/kotlin/com/asmt/bookmanagementsystem/repository/BookRepository.kt:15-35 | the WHERE filter keeps every matching record as often as it occurs and drops every other |
| Repository.Holds | src/main/kotlin/com/asmt/bookmanagementsystem/repository/BookRepository.kt:15-35 | the four WHERE clauses: exact author, `LOWER(author) LIKE LOWER('%' + text + '%')`, status, and author and status; what each selects is stated by the Find rows |
| Repository.Insert | src/main/kotlin/com/asmt/bookmanagementsystem/repository/BookRepository.kt:15-35 | inserting into a descending sequence keeps it descending and adds exactly that record |
| Repository.SortedCons | src/main/kotlin/com/asmt/bookmanagementsystem/repository/BookRepository.kt:15-35 | a record whose key is at least every key of a descending sequence can lead it |
| Repository.OrderBy | src/main/kotlin/com/asmt/bookmanagementsystem/repository/BookRepository.kt:15-35 | `ORDER BY … DESC` returns a permutation of its input, sorted descending on the key |
| Repository.Select | src/main/kotlin/com/asmt/bookmanagementsystem/repository/BookRepository.kt:15-35 | a query is WHERE then ORDER BY ... DESC; its result is stated by SelectSpec |
| Repository.SelectSpec | src/main/kotlin/com/asmt/bookmanagementsystem/repository/BookRepository.kt:15-35 | a query returns each matching stored record as often as it is stored and nothing else, sorted on its column, and is empty exactly when no record matches |
| Repository.PublishedDateOrderIsChronological | src/main/kotlin/com/asmt/bookmanagementsystem/repository/BookRepository.kt:15 | a result sorted on the published-date key lists no date before a later one |
| Repository.FindByAuthor | src/main/kotlin/com/asmt/bookmanagementsystem/repository/BookRepository.kt:15-16 | exactly the records with that author (exact, case-sensitive), as a permutation of them, latest publication first; empty exactly when no author matches |
| Repository.FindByAuthorContainingIgnoreCase | src/main/kotlin/com/asmt/bookmanagementsystem/repository/BookRepository.kt:21-22 | exactly the records whose lower-cased author is LIKE the lower-cased `%fragment%`, latest publication first; empty exactly when none matches |
| Repository.FindByStatus | src/main/kotlin/com/asmt/bookmanagementsystem/repository/BookRepository.kt:28-29 | exactly the records with that status, newest `createdAt` first; empty exactly when none has it |
| Repository.FindByAuthorAndStatus | src/main/kotlin/com/asmt/bookmanagementsystem/repository/BookRepository.kt:34-35 | exactly the records matching both author and status, latest publication first; empty exactly when none does |
| Repository.LowercaseKeepsWildcards | src/main/kotlin/com/asmt/bookmanagementsystem/repository/BookRepository.kt:21 | `LOWER` neither creates nor removes a `%`, `_` or the escape `\` |
| Repository.ContainingIgnoreCaseIsSubstringSearch | src/main/kotlin/com/asmt/bookmanagementsystem/repository/BookRepository.kt:21-22 | for a fragment without `%`, `_` or `\`, the containment query returns exactly the records whose lower-cased author contains the lower-cased fragment |
| Repository.ExactAuthorIsAlsoContained | src/main/kotlin/com/asmt/bookmanagementsystem/repository/BookRepository.kt:15-22 | every exact-author result is also a containment-query result for that author, wildcards in it included, whenever the author holds no `\` |
| Repository.BackslashEscapesInFragment | src/main/kotlin/com/asmt/bookmanagementsystem/repository/BookRepository.kt:21 | a `\` in the fragment escapes the next character: the fragment `a\%` finds the author "a%" and not the author `a\%` |
| Repository.AuthorAndStatusNarrowsAuthor | src/main/kotlin/com/asmt/bookmanagementsystem/repository/BookRepository.kt:34-35 | the author-and-status query returns exactly the exact-author results with that status |
| Repository.RowsBetweenSpec | src/main/kotlin/com/asmt/bookmanagementsystem/repository/BookRepository.kt:9 | listing ids in a range gives exactly the records stored under those ids, in strictly increasing id order |
| Repository.BookStore.Rows | src/main/kotlin/com/asmt/bookmanagementsystem/repository/BookRepository.kt:9 | the table listing holds exactly the stored records, each once, in id order |
| Repository.BookStore.FindById | src/main/kotlin/com/asmt/bookmanagementsystem/service/BookService.kt:64 | `findById` finds a record exactly when the id is stored, and the record found has that id and is in the table |
| Repository.BookStore.constructor | src/main/kotlin/com/asmt/bookmanagementsystem/repository/BookRepository.kt:9 | a new store is empty and valid |
| Repository.BookStore.Save | src/main/kotlin/com/asmt/bookmanagementsystem/entity/Book.kt:18-50 | `save` refuses a record whose title or author is longer than 255 characters and then writes nothing; otherwise `save` of an id-0 record stores its `@PrePersist` image under the next id, an id not used before, and advances the counter, and `save` of a stored record replaces it with the merge; no other record changes, and the table stays valid; if `now` is not before any stored timestamp, afterwards none is after `now`, and stamps in order (created no later than updated) stay in order |
| Repository.WriteError.Message | src/main/kotlin/com/asmt/bookmanagementsystem/entity/Book.kt:21-25 | the refusal of an over-long value, by the opening words of MySQL's error |
| Repository.Merged | src/main/kotlin/com/asmt/bookmanagementsystem/entity/Book.kt:34-50 | a merge keeps the incoming content and the stored `createdAt` (not updatable); it leaves an unchanged row as stored and stamps `updatedAt` when the row changed |
| Service.CheckYear | src/main/kotlin/com/asmt/bookmanagementsystem/service/BookService.kt:43-48 | a year passes exactly when 1000 < year <= currentYear; a year <= 1000 is refused as too old, and a later-than-current one as in the future |
| Service.BookToSave | src/main/kotlin/com/asmt/bookmanagementsystem/service/BookService.kt:38-55 | a date-conversion failure is passed on unchanged; for a converted date, "too old" comes exactly when year <= 1000 and "in the future" exactly when 1000 < year and year > currentYear; an accepted request gives a new record (id 0, no timestamps) with the trimmed title and author, the converted date, a year in the window, and the request's status |
| Service.BookToSaveAcceptsExactly | src/main/kotlin/com/asmt/bookmanagementsystem/service/BookService.kt:38-48 | a request is accepted exactly when its date converts and the year is in the window, and every refusal is the conversion error, "too old" or "in the future" |
| Service.SavedDatesAreTheWindow | src/main/kotlin/com/asmt/bookmanagementsystem/service/BookService.kt:38-48 | the Buddhist rendering of an existing date is accepted exactly when its Gregorian year lies in the window |
| Service.BookToSaveIgnoresPadding | src/main/kotlin/com/asmt/bookmanagementsystem/service/BookService.kt:50-55 | padding title or author with whitespace does not change the record saved |
| Service.BookService.GetBooksByAuthor | src/main/kotlin/com/asmt/bookmanagementsystem/service/BookService.kt:19-24 | a blank author is refused with the blank-author error and any other is answered by the exact-author query on its trimmed form |
| Service.BookService.GetBooksByStatus | src/main/kotlin/com/asmt/bookmanagementsystem/service/BookService.kt:30-32 | the result is the store's status query over the stored records, with no filtering of its own: each stored record with that status once, newest first |
| Service.BookService.SaveBook | src/main/kotlin/com/asmt/bookmanagementsystem/service/BookService.kt:38-58 | a request refused by the checks, or whose trimmed title or author is longer than its column, leaves the store unchanged and returns that refusal (the checks first); an accepted one persists exactly one new record under a fresh id and returns it; with a clock not behind the stored stamps, every record keeps `createdAt <= updatedAt` |
| Service.BookService.UpdateBookStatus | src/main/kotlin/com/asmt/bookmanagementsystem/service/BookService.kt:63-69 | a missing id fails with not-found and changes nothing; otherwise only that record is replaced, by the status update of the stored record, and the save cannot be refused since the stored strings already fit; with a clock not behind the stored stamps, every record keeps `createdAt <= updatedAt` and the record's `updatedAt` does not move back |
| Service.StatusUpdatedSpec | src/main/kotlin/com/asmt/bookmanagementsystem/service/BookService.kt:67-68 | a status update keeps id, title, author, date and `createdAt` and sets the new status; it leaves the record as stored when the status was already that one, and otherwise stamps `updatedAt` |
| Service.StatusUpdateIsIdempotent | src/main/kotlin/com/asmt/bookmanagementsystem/service/BookService.kt:63-69 | repeating a status update changes nothing further |
| Service.StatusUpdated | src/main/kotlin/com/asmt/bookmanagementsystem/service/BookService.kt:67-68 | `save(book.copy(status = s))` for a stored record: the merge of the record with its status copy; stated by StatusUpdatedSpec |
| Service.ServiceError.Message | src/main/kotlin/com/asmt/bookmanagementsystem/service/BookService.kt:21-65 | the service's exception messages word for word, the not-found one ending in the decimal id; a refused write carries the database's message |
| ServiceExamples.ExamplePaddedAuthor | src/test/kotlin/com/asmt/bookmanagementsystem/service/BookServiceTest.kt:68-69 | "  F. Scott Fitzgerald  " is not blank and is searched as "F. Scott Fitzgerald" |
| ServiceExamples.ExampleBlankAuthors | src/test/kotlin/com/asmt/bookmanagementsystem/service/BookServiceTest.kt:48 | "" and "   " are blank, so the lookup refuses them |
| ServiceExamples.ExampleYearTooOld | src/test/kotlin/com/asmt/bookmanagementsystem/service/BookServiceTest.kt:136 | a request dated "1000-01-01" (Gregorian 457) is refused as too old |
| ServiceExamples.ExampleYearInFuture | src/test/kotlin/com/asmt/bookmanagementsystem/service/BookServiceTest.kt:148-162 | a request dated Buddhist New Year's Day of next year is refused with "Published year cannot be in the future" |
| ServiceExamples.ExampleNotFoundMessage | src/test/kotlin/com/asmt/bookmanagementsystem/service/BookServiceTest.kt:188-195 | the not-found error for id 999 reads "Book not found with id: 999" |
| Config.ValuesListsEachOnce | src/main/kotlin/com/asmt/bookmanagementsystem/config/ApplicationConfig.kt:12-17 | `values()` lists every constant, each once |
| Config.FindByName | src/main/kotlin/com/asmt/bookmanagementsystem/config/ApplicationConfig.kt:22-24 | `find` returns the first entry whose display name equals the input ignoring case, or nothing when no entry does |
| Config.FromDisplayName | src/main/kotlin/com/asmt/bookmanagementsystem/config/ApplicationConfig.kt:22-24 | finds nothing exactly when no display name equals the input ignoring case, and what it finds has a display name equal to the input ignoring case |
| Config.IsSupported | src/main/kotlin/com/asmt/bookmanagementsystem/config/ApplicationConfig.kt:25-27 | `isSupported` holds exactly when the input equals some display name ignoring case |
| Config.DisplayNamesAreApart | src/main/kotlin/com/asmt/bookmanagementsystem/config/ApplicationConfig.kt:12-24 | no string equals two different display names ignoring case |
| Config.FromDisplayNameSpec | src/main/kotlin/com/asmt/bookmanagementsystem/config/ApplicationConfig.kt:22-24 | `fromDisplayName` returns d exactly when the input equals d's display name ignoring case |
| Config.FromDisplayNameRoundTrip | src/main/kotlin/com/asmt/bookmanagementsystem/config/ApplicationConfig.kt:22-24 | each display name, as declared, upper-cased or lower-cased, finds its own constant |
| Config.ExampleUnsupported | src/test/kotlin/com/asmt/bookmanagementsystem/config/ApplicationConfigTest.kt:129 | "InvalidDB", "MongoDB", "Redis" and "" are not supported |
| Config.ExampleSupported | src/main/kotlin/com/asmt/bookmanagementsystem/config/ApplicationConfig.kt:23 | "mysql" finds MYSQL and "POSTGRESQL" finds POSTGRESQL |
| Config.SupportedNames | src/main/kotlin/com/asmt/bookmanagementsystem/config/ApplicationConfig.kt:20 | the name set holds every display name and nothing else |
| Config.SupportedNamesAreTheFive | src/test/kotlin/com/asmt/bookmanagementsystem/config/ApplicationConfigTest.kt:119-122 | the name set is {MySQL, PostgreSQL, Oracle, H2, SQLite}, of size 5 |
| Config.DisplayNames | src/main/kotlin/com/asmt/bookmanagementsystem/config/ApplicationConfig.kt:21 | the names follow declaration order, one per constant |
| Config.SupportedNamesAsString | src/main/kotlin/com/asmt/bookmanagementsystem/config/ApplicationConfig.kt:21 | the joined list is "MySQL, PostgreSQL, Oracle, H2, SQLite" |
| Config.JoinFive | src/main/kotlin/com/asmt/bookmanagementsystem/config/ApplicationConfig.kt:21 | joining five names puts the separator between neighbours only |
| Config.ValidateVersionFormat | src/main/kotlin/com/asmt/bookmanagementsystem/config/ApplicationConfig.kt:53-55 | the whole string must match `^\d+\.\d+\.\d+$`, decided by cutting at the dots into three non-empty ASCII digit runs; its meaning is stated by ValidateVersionFormatSpec |
| Config.ValidateVersionFormatSpec | src/main/kotlin/com/asmt/bookmanagementsystem/config/ApplicationConfig.kt:53-55 | the version check holds exactly when the string is three non-empty ASCII digit runs joined by single dots |
| Config.VersionParts | src/main/kotlin/com/asmt/bookmanagementsystem/config/ApplicationConfig.kt:53-55 | three digit runs joined by dots cut back into those runs |
| Config.VersionAccepted | src/main/kotlin/com/asmt/bookmanagementsystem/config/ApplicationConfig.kt:53-55 | three non-empty digit runs joined by dots pass the check |
| Config.ExampleVersionOneZeroZero | src/test/kotlin/com/asmt/bookmanagementsystem/config/ApplicationConfigTest.kt:166 | "1.0.0" passes |
| Config.ExampleVersionTwoOneThree | src/test/kotlin/com/asmt/bookmanagementsystem/config/ApplicationConfigTest.kt:166 | "2.1.3" passes |
| Config.ExampleVersionTenFiveTwo | src/test/kotlin/com/asmt/bookmanagementsystem/config/ApplicationConfigTest.kt:166 | "10.5.2" passes |
| Config.ExampleTwoParts | src/test/kotlin/com/asmt/bookmanagementsystem/config/ApplicationConfigTest.kt:167 | "1.0" fails |
| Config.ExampleFourParts | src/test/kotlin/com/asmt/bookmanagementsystem/config/ApplicationConfigTest.kt:167 | "2.1.3.4" fails |
| Config.ExampleLeadingLetter | src/test/kotlin/com/asmt/bookmanagementsystem/config/ApplicationConfigTest.kt:167 | "v1.0.0" fails |
| Config.ExampleSuffix | src/test/kotlin/com/asmt/bookmanagementsystem/config/ApplicationConfigTest.kt:167 | "1.0.0-SNAPSHOT" fails |
| Config.DefaultsAreValid | src/main/kotlin/com/asmt/bookmanagementsystem/config/ApplicationConfig.kt:34-45 | the defaults "Book Management System", "1.0.0" and "MySQL" are non-blank, well-formed and supported (MySQL) respectively |

## Left out

- **In-place hooks.** `Book` is modelled as a value. `@PrePersist`/`@PreUpdate` assign `var` fields in place (Book.kt:40-50); here they are record-to-record functions that `BookStore.Save` applies. Entity object identity, and the aliasing between the object passed to `save` and the one it returns, are not modelled.
- **JPA internals.** Transactions, flush timing, dialects and the IDENTITY id generator are left out. The generator is modelled as a counter that starts at 1.
- Service.BookService.SaveBook: the only store failure modelled is MySQL strict mode refusing a title or author longer than 255 characters. Other database errors that `save` passes on (lost connections, deadlocks, constraint violations from other writers) are not modelled, so the model promises that a write of fitting values always succeeds.
- Repository.BookStore.Save: a refused write leaves the id counter as it was. InnoDB may consume an AUTO_INCREMENT value on a failed insert, which shows only as a gap in later ids. The refusal's message is modelled by its opening words "Data too long for column"; the column name, the row number and Spring's wrapping exception are not.
- Repository.BookStore.Save: requires the id to be 0 or already stored. What Spring Data does with an unknown non-zero id depends on its version.
- Repository.Merged: models Hibernate's dirty check. The hook runs only when the row changes, which is reasonable for a merge and not stated in the source.
- **Tie order.** The source leaves the order of equal sort keys to the database. The model breaks ties by input order (id order), which the source does not promise.
- **Column comparison.** Author `=` is modelled as exact and case-sensitive. A MySQL column with a case-insensitive or PAD SPACE collation would match more.
- Repository.Holds: `LIKE` is modelled with MySQL's default escape character `\` (the configured default database), because the query concatenates the user text into the pattern unescaped. The model does not follow the NO_BACKSLASH_ESCAPES mode, nor Oracle and SQLite, which have no default escape. `%` and `_` in the text act as wildcards and `\` escapes the next character, so the substring reading is proved only for fragments without all three.
- **Case mapping.** `UpperChar`/`LowerChar` (and so `LOWER` and `equals(ignoreCase = true)`) are exact for ASCII and for the few non-ASCII letters that fold to ASCII. Other Unicode case pairs are treated as unrelated. This is exact for every comparison against the ASCII display names, but not for `LOWER` on non-ASCII authors.
- **String encoding.** Strings are sequences of Unicode scalar values; the JVM counts UTF-16 units. Display names are ASCII, so the lookup is unaffected.
- **Clock.** `LocalDate.now()` and `LocalDateTime.now()` become the parameters `currentYear` and `now`. `Timestamp` is an integer tick count, not a `LocalDateTime`.
- Repository.BookStore.Save: the store does not enforce a monotone clock. `createdAt <= updatedAt` is promised only for saves whose `now` is not before any stored timestamp. A clock that runs backwards can store a record updated before it was created, and the source does not guard against that either.
- **Delegating helpers.** `ApplicationConfig.isSupportedDatabase`, `getSupportedDatabasesAsString`, `getSupportedDatabase` and `getSupportedDatabases` (ApplicationConfig.kt:51-59) are one-line delegations. They are the same functions as `IsSupported`, `SupportedNamesAsString`, `FromDisplayName` and `SupportedNames`, so they are not given names of their own.
- **Constants and enum data.** `TIMESTAMP_FORMAT` and `HEALTH_MESSAGE` are display constants used by formatting and health code outside this model. `DriverClass` and `UrlPattern` are carried as data, with nothing proved about them.
- **Bean Validation.** The `@NotBlank`, `@Size` and `@Pattern` constraints (BookRequest.kt:14-26, ApplicationConfig.kt:36-45) are evaluated by the framework and not modelled. In particular, the case-sensitive `@Pattern` on `database` is not the case-insensitive `isSupported`.
- **`toGregorianDate` error paths.** The `NumberFormatException` branch (BookRequest.kt:63-64) cannot be reached once the digit shape is checked, so it has no counterpart. All four error kinds surface as one exception class, carrying the messages in `DateError.Message`.
- **Outside the core.** Controllers, security configuration, the health indicator, timestamp formatting and the older `Book_Management_System` package are not part of this model.
