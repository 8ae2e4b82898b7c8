# Library-management domain rules in Dafny

This project models five small pieces of logic from a Spring Boot
library-management service and proves properties about them:

- **`LendingNumber`** is the natural key of a lending. It holds a year, a
  sequential number and the text `year + "/" + sequential`. It has four
  constructors: `(year, sequential)`, `(sequential)` with the current year,
  a parse of a `String`, and the empty ORM constructor.
- **`ReaderNumber`** is the natural key of a reader. Its text uses the same
  `year/number` format.
- **`Book`** is a mutable entity. Private setters fill its fields, and
  `applyPatch` replaces only the fields of an update request that are not
  `null`.
- **`BookViewMapper.map`** copies the authors' names into a new array.
- **The book controller** has conditional-request rules. It parses the
  `If-Match` header into a version number. It answers 400 when the header
  is missing. For DELETE, it turns the deleted-row count into 204 or 409.
  The file declares `class BarController`.

Module layout:

| file | module | models |
|---|---|---|
| `java_lang.dfy` | `JavaLang` | Java `int`/`long` ranges. `null` is `Option.None`; a thrown exception is `Result.Thrown`. A `String` is a sequence of UTF-16 code units. Also integer-to-text as in string concatenation and `Long.toString`, `Integer.parseInt(CharSequence, int, int, int)` and `Long.parseLong` |
| `lending_number.dfy` | `LendingNumbers` | `LendingNumber`: one function per constructor, plus `toString` |
| `reader_number.dfy` | `ReaderNumbers` | `ReaderNumber` |
| `book.dfy` | `Books` | the `Book` class (setters, constructors, `applyPatch`) and the pure `Patch`/`Construct` functions its methods are proved against |
| `book_view_mapper.dfy` | `BookViewMapper` | `map(List<Author>)` over an array |
| `book_controller.dfy` | `BookController` | `getVersionFromIfMatchHeader` and the status decisions of `upsert`, `partialUpdate`, `delete` |

Modelling choices:

- A Java constructor that can throw becomes a static factory method
  returning `Result<Book>`.
- A Java `String` is a `JString`, a sequence of UTF-16 code units
  (`CodeUnit`). `length`, `substring` and the bounds of `parseInt` all
  count code units, and a character above U+FFFF takes two of them.
  `Utf16` gives the code units of a piece of text.
- `Title`, `Description` and `Isbn` validate their input in constructors
  that are not part of this model. A `ValueRules` value supplies them as
  arbitrary total functions from the (possibly `null`) argument to a value
  or an exception. Every property proved about `Book` therefore holds
  whatever those rules are.
- The service calls of the controller are external. Each one is a function
  parameter. `update` and `partialUpdate` take the version to the new
  version or to the exception they throw. `deleteById` takes the version
  to a count or to an exception. A handler's reply that
  does not depend on that parameter is a reply given without calling the
  service.
- `LocalDate.now().getYear()` becomes the parameter `currentYear`.

The repository's own unit tests expect several rejections that the code
does not make: `LendingNumberMutationTests.java:11-33,55-59`,
`BookMutationTests.java:22-40` and `BookTest.java:38-53` (under
`Project1/src/test/java/pt/psoft/g1/psoftg1/unitTests/`). The model follows
the code:

- `LendingNumber(String)` does not reject malformed text. It returns with
  no field set.
- `LendingNumber(year, sequential)` does not reject a future year or a
  negative sequential number.
- A `null` text makes `LendingNumber(String)` throw
  `NullPointerException`, not `IllegalArgumentException`.
- `Book` has no version. Its `applyPatch` takes no expected version and
  never reports a stale state.
- `applyPatch` does not roll back: a title set before a rejected
  description stays.
- The constructors of `Book` do not check genre or authors for `null` or
  emptiness.

These gaps are recorded as follows. `LendingNumbers.Make` has no
precondition, and its contract `r.year == year && r.sequential == sequential`
holds for every year, a future one included. The lemmas
`NegativeSequentialIsStored`, `FromTextExamples`, `TrailingSegmentSetsNothing`,
`NullTextIsNotIllegalArgument`, `PatchIdempotent`,
`RejectedDescriptionKeepsNewTitle` and `ConstructorIgnoresGenreAndAuthors`
record the others.

Section 13.1.1 of RFC 9110 defines `If-Match`. It allows weak tags, `*` and
comma-separated lists, and it asks for 412 when the condition fails.
`RejectedForms`, `ListsRejected` and `StaleDeleteIs409` state what the code
does instead.

## Model

| member | source | states |
|---|---|---|
| `LendingNumbers.Make` | src/main/java/pt/psoft/g1/psoftg1/lendingmanagement/model/LendingNumber.java:52-56 | stores both ints unchecked; the text is set and is `decimal(year) + "/" + decimal(sequential)` |
| `LendingNumbers.WithCurrentYear` | src/main/java/pt/psoft/g1/psoftg1/lendingmanagement/model/LendingNumber.java:84-88 | `LendingNumber(sequential)` equals `LendingNumber(currentYear, sequential)` |
| `LendingNumbers.OrmEmpty` | src/main/java/pt/psoft/g1/psoftg1/lendingmanagement/model/LendingNumber.java:91 | the empty constructor leaves the text `null` and both numbers 0 |
| `LendingNumbers.FromText` | src/main/java/pt/psoft/g1/psoftg1/lendingmanagement/model/LendingNumber.java:64-75 | throws only for a `null` argument, and then `NullPointerException`; otherwise the result is either unset or consistent (text renders the two numbers); when set, the text has at least 6 code units and the year and sequential are the signed numbers in units `[0,3)` and `[5,len)` |
| `LendingNumbers.ToString` | src/main/java/pt/psoft/g1/psoftg1/lendingmanagement/model/LendingNumber.java:93-95 | `toString` is `null` exactly when no text was stored (then both numbers are 0), otherwise `year + "/" + sequential` |
| `LendingNumbers.FromTextSetsFieldsIff` | src/main/java/pt/psoft/g1/psoftg1/lendingmanagement/model/LendingNumber.java:64-71 | the string constructor never throws on non-null text; it sets the fields iff the text has at least 6 code units, units `[0,3)` are a signed number and units `[5,len)` are a signed number within `int`; the year and sequential are then exactly those two numbers |
| `LendingNumbers.ParsedYearHasAtMostThreeDigits` | src/main/java/pt/psoft/g1/psoftg1/lendingmanagement/model/LendingNumber.java:67 | a parsed year always lies in -99..999 |
| `LendingNumbers.FromTextIgnoresSeparator` | src/main/java/pt/psoft/g1/psoftg1/lendingmanagement/model/LendingNumber.java:67-68 | code units 3 and 4 are never inspected: texts agreeing on units `[0,3)` and `[5,len)` give the same result |
| `LendingNumbers.FourDigitYearLosesLastDigit` | src/main/java/pt/psoft/g1/psoftg1/lendingmanagement/model/LendingNumber.java:67-68 | for a four-digit year y and s >= 0, parsing the text of `(y, s)` yields `(y / 10, s)`, which differs from `(y, s)`: no round trip |
| `LendingNumbers.FourDigitYearAnySeparator` | src/main/java/pt/psoft/g1/psoftg1/lendingmanagement/model/LendingNumber.java:67-68 | a four-digit year, any one code unit, then a sequential s >= 0 parses to `(y / 10, s)`: the separator is not checked |
| `LendingNumbers.FromTextExamples` | src/main/java/pt/psoft/g1/psoftg1/lendingmanagement/model/LendingNumber.java:64-75 | the text `2024 + "/" + 23` gives year 202, sequential 23 and text "202/23"; "2024-23" gives the same |
| `LendingNumbers.TrailingSegmentSetsNothing` | src/main/java/pt/psoft/g1/psoftg1/lendingmanagement/model/LendingNumber.java:68-70 | the text of a four-digit year and s >= 0 followed by '/' and anything, as "2024/23/extra", throws nothing and sets nothing |
| `LendingNumbers.SupplementaryCharacterFillsTheGap` | src/main/java/pt/psoft/g1/psoftg1/lendingmanagement/model/LendingNumber.java:64-71 | a three-digit year, a character above U+FFFF (two code units) and s >= 0, as "202😀1", parse to `(y, s)` |
| `LendingNumbers.SupplementaryCharacterAfterFourDigitYear` | src/main/java/pt/psoft/g1/psoftg1/lendingmanagement/model/LendingNumber.java:64-71 | a four-digit year, a character above U+FFFF and s >= 0, as "2024😀23", set nothing: unit 5 is a low surrogate |
| `LendingNumbers.TextLengthWithinSize` | src/main/java/pt/psoft/g1/psoftg1/lendingmanagement/model/LendingNumber.java:28 | for a four-digit year and 0 <= sequential <= int max the text has 6..15 characters, inside `@Size(min = 6, max = 32)` |
| `LendingNumbers.NegativeSequentialIsStored` | src/main/java/pt/psoft/g1/psoftg1/lendingmanagement/model/LendingNumber.java:52-56 | `(2024, -1)` is stored with the text "2024/-1", not rejected |
| `LendingNumbers.NullTextIsNotIllegalArgument` | src/main/java/pt/psoft/g1/psoftg1/lendingmanagement/model/LendingNumber.java:67 | a `null` text escapes as `NullPointerException`, not `IllegalArgumentException` |
| `LendingNumbers.FromTextCorrected` | src/main/java/pt/psoft/g1/psoftg1/lendingmanagement/model/LendingNumber.java:67 | the string constructor with the year read from `[0,4)`: throws only on `null`, results are consistent |
| `LendingNumbers.CorrectedRoundTrip` | src/main/java/pt/psoft/g1/psoftg1/lendingmanagement/model/LendingNumber.java:67-68 | with the corrected slice, the text of a four-digit year and s >= 0 parses back to the same lending number |
| `ReaderNumbers.Make` | src/main/java/pt/psoft/g1/psoftg1/readermanagement/model/ReaderNumber.java:14-16 | any two ints, negative included, give a set text |
| `ReaderNumbers.OrmEmpty` | src/main/java/pt/psoft/g1/psoftg1/readermanagement/model/ReaderNumber.java:18 | the protected constructor leaves the text `null` |
| `ReaderNumbers.ExactlyOneSlash` | src/main/java/pt/psoft/g1/psoftg1/readermanagement/model/ReaderNumber.java:15 | the text contains exactly one '/' |
| `ReaderNumbers.ComponentsOfMake` | src/main/java/pt/psoft/g1/psoftg1/readermanagement/model/ReaderNumber.java:15 | splitting the text at its '/' and parsing both sides recovers `(year, number)` |
| `ReaderNumbers.MakeInjective` | src/main/java/pt/psoft/g1/psoftg1/readermanagement/model/ReaderNumber.java:15 | distinct `(year, number)` pairs give distinct reader numbers |
| `ReaderNumbers.SameFormatAsLendingNumber` | src/main/java/pt/psoft/g1/psoftg1/readermanagement/model/ReaderNumber.java:15 | the text of `ReaderNumber(y, n)` equals `LendingNumber(y, n).toString()` |
| `ReaderNumbers.FirstSlash` | src/main/java/pt/psoft/g1/psoftg1/readermanagement/model/ReaderNumber.java:15 | locates the separator: no '/' before the returned index, and a '/' at it unless it is the length |
| `Books.Patch` | src/main/java/pt/psoft/g1/psoftg1/bookmanagement/model/Book.java:76-97 | isbn never changes; a `null` request field leaves its field unchanged; fails iff `Title` or `Description` rejects a non-null value (title first, and a rejected title changes nothing; a rejected description leaves only the new title, if any, applied); on success every non-null field is applied |
| `Books.Construct` | src/main/java/pt/psoft/g1/psoftg1/bookmanagement/model/Book.java:57-70 | succeeds iff `Title`, `Isbn` (and, for the 5-argument form, `Description`) accept; the exception is the one from the first of `Title`, `Isbn`, `Description` to reject; genre and authors stored as given; the 4-argument form leaves description unset |
| `Books.Book.Empty` | src/main/java/pt/psoft/g1/psoftg1/bookmanagement/model/Book.java:72-74 | the ORM constructor leaves every field `null` except the initial empty author list |
| `Books.Book.SetTitle` | src/main/java/pt/psoft/g1/psoftg1/bookmanagement/model/Book.java:45 | the title becomes `new Title(t)`, or stays and the exception is returned |
| `Books.Book.SetIsbn` | src/main/java/pt/psoft/g1/psoftg1/bookmanagement/model/Book.java:47-49 | the isbn becomes `new Isbn(i)`, or stays and the exception is returned |
| `Books.Book.SetDescription` | src/main/java/pt/psoft/g1/psoftg1/bookmanagement/model/Book.java:51 | the description becomes `new Description(d)`, or stays and the exception is returned |
| `Books.Book.SetGenre` | src/main/java/pt/psoft/g1/psoftg1/bookmanagement/model/Book.java:53 | stores the genre as given, `null` included |
| `Books.Book.SetAuthors` | src/main/java/pt/psoft/g1/psoftg1/bookmanagement/model/Book.java:55 | stores the author list as given, `null` or empty included |
| `Books.Book.New` | src/main/java/pt/psoft/g1/psoftg1/bookmanagement/model/Book.java:57-62 | a fresh book whose fields are `Construct` without description, or the exception `Construct` names |
| `Books.Book.NewWithDescription` | src/main/java/pt/psoft/g1/psoftg1/bookmanagement/model/Book.java:64-70 | a fresh book whose fields are `Construct` with the description, or the exception `Construct` names |
| `Books.Book.ApplyPatch` | src/main/java/pt/psoft/g1/psoftg1/bookmanagement/model/Book.java:76-97 | the new fields and the thrown exception are exactly those `Patch` gives for the old fields |
| `Books.PatchIdempotent` | src/main/java/pt/psoft/g1/psoftg1/bookmanagement/model/Book.java:76-97 | applying a request twice gives the same fields and exception as once; a repeat is never refused as stale |
| `Books.EmptyPatchChangesNothing` | src/main/java/pt/psoft/g1/psoftg1/bookmanagement/model/Book.java:76-97 | a request with all four fields `null` leaves the book unchanged and throws nothing |
| `Books.RejectedDescriptionKeepsNewTitle` | src/main/java/pt/psoft/g1/psoftg1/bookmanagement/model/Book.java:82-88 | no rollback: a valid title followed by a rejected description leaves the new title and nothing else changed; with a `null` title the rejected description changes nothing |
| `Books.ConstructorIgnoresGenreAndAuthors` | src/main/java/pt/psoft/g1/psoftg1/bookmanagement/model/Book.java:57-70 | whether a constructor succeeds does not depend on genre or authors: `null` genre, `null` or empty authors are accepted |
| `BookViewMapper.Map` | src/main/java/pt/psoft/g1/psoftg1/bookmanagement/api/BookViewMapper.java:21-28 | a new array as long as the list, entry i the name of author i (so empty gives empty); the list is only read |
| `BookController.VersionFromIfMatch` | src/main/java/pt/psoft/g1/psoftg1/bookmanagement/api/BookController/BookController.java:80-85 | a header starting with '"' is `Long.parseLong` of its units `[1, len-1)`, any other header `Long.parseLong` of the whole (so `+5` gives 5, `007` gives 7); a parsed version is a `long`; failures are `NumberFormatException`, or `IndexOutOfBoundsException` exactly for the header `"` |
| `BookController.IfMatchRoundTrip` | src/main/java/pt/psoft/g1/psoftg1/bookmanagement/api/BookController/BookController.java:80-85 | for every long v, `Long.toString(v)` bare or in double quotes parses back to v |
| `BookController.ClosingQuoteUnchecked` | src/main/java/pt/psoft/g1/psoftg1/bookmanagement/api/BookController/BookController.java:81-82 | a header starting with '"' is parsed without its first and last code units, whatever the last one is (`"12x` gives 12) |
| `BookController.SupplementaryLastCharacterRejected` | src/main/java/pt/psoft/g1/psoftg1/bookmanagement/api/BookController/BookController.java:81-82 | when a quoted header ends in a character above U+FFFF, as `"12😀`, its high surrogate stays in the parsed part and `NumberFormatException` results |
| `BookController.ListsRejected` | src/main/java/pt/psoft/g1/psoftg1/bookmanagement/api/BookController/BookController.java:80-85 | a comma anywhere in a bare header, or between the end units of a quoted one (a list of tags), always gives `NumberFormatException` |
| `BookController.RejectedForms` | src/main/java/pt/psoft/g1/psoftg1/bookmanagement/api/BookController/BookController.java:80-85 | weak tags `W/"…"` and `*` fail with `NumberFormatException`, `"` with an index error, `""` with `NumberFormatException` |
| `BookController.Upsert` | src/main/java/pt/psoft/g1/psoftg1/bookmanagement/api/BookController/BookController.java:103-114 | missing or empty If-Match gives 400; a header that fails to parse escapes with its exception; a parsed version goes to `update`, whose new version is the ETag of a 200 and whose exception escapes; a 200 only follows a successful update |
| `BookController.UpsertETagIsAcceptedBack` | src/main/java/pt/psoft/g1/psoftg1/bookmanagement/api/BookController/BookController.java:113 | the ETag a successful PUT emits, sent back as If-Match, yields the version it carries |
| `BookController.PartialUpdate` | src/main/java/pt/psoft/g1/psoftg1/bookmanagement/api/BookController/BookController.java:118-129 | missing or empty If-Match raises a 400 status; a header that fails to parse escapes with its exception; a parsed version goes to `partialUpdate`, whose new version is the ETag of a 200 and whose exception escapes |
| `BookController.PartialUpdateAgreesWithUpsert` | src/main/java/pt/psoft/g1/psoftg1/bookmanagement/api/BookController/BookController.java:103-129 | with the header present PATCH replies exactly as PUT; without it they differ (400 response vs raised 400 status) |
| `BookController.DeleteStatus` | src/main/java/pt/psoft/g1/psoftg1/bookmanagement/api/BookController/BookController.java:143 | the status is 204 or 409, and 204 exactly when the count is 1 |
| `BookController.Delete` | src/main/java/pt/psoft/g1/psoftg1/bookmanagement/api/BookController/BookController.java:133-144 | missing or empty If-Match raises a 400 status; a header that fails to parse escapes with its exception; a parsed version goes to `deleteById`, whose count gives the status (204 or 409, no ETag) and whose exception escapes |
| `BookController.MissingHeaderNeverCallsService` | src/main/java/pt/psoft/g1/psoftg1/bookmanagement/api/BookController/BookController.java:103-144 | without the header, PUT, PATCH and DELETE reply 400 whatever the service would do, so it is never called |
| `BookController.StaleDeleteIs409` | src/main/java/pt/psoft/g1/psoftg1/bookmanagement/api/BookController/BookController.java:143 | a DELETE whose version, sent bare or quoted, matches no row is answered 409 (section 13.1.1 of RFC 9110 calls for 412) |
| `JavaLang.ParseLongOfDecimalText` | src/main/java/pt/psoft/g1/psoftg1/bookmanagement/api/BookController/BookController.java:84 | `Long.parseLong(Long.toString(v)) == v` for every long |
| `JavaLang.DigitsValueOfNatText` | src/main/java/pt/psoft/g1/psoftg1/lendingmanagement/model/LendingNumber.java:55 | the decimal digits of n, read back, give n |

## Left out

- Non-ASCII digits are not modelled. Java's `Character.digit` also accepts
  other Unicode decimal digits, such as fullwidth ones, in `parseInt` and
  `parseLong`. The model's parsers accept only '0'..'9'.
- The rules inside `Title`, `Isbn` and `Description` are not modelled,
  because their sources are not part of this model. This includes trimming,
  the 128/4096 length limits and the ISBN check digits. `Name`, `Genre` and
  `Author` are reduced to the text that `Book` and `BookViewMapper` read.
- The author list is not shared by reference. `setAuthors` stores the
  caller's list, but the model stores a value (`seq`), so later changes
  through the caller's list are not captured.
- `BookViewMapper.Map` assumes non-null input. A `null` author list, a
  `null` list element or a `null` name would throw `NullPointerException`,
  and the model does not cover that.
- The MapStruct-generated `toBookView` mappings are not modelled. They are
  generated code whose source is not shown.
- `Books.Patch` assumes a non-null request: `applyPatch(null)` throws
  `NullPointerException` at `request.getTitle()`, and the model does not
  cover that.
- The HTTP plumbing is not modelled: Spring annotations, `ResponseEntity`,
  URI building, `findAll`, `findById` and `create`. The service is
  represented only by the function parameters described above.
- The controller's view mapper is not modelled: a reply carries only its
  status and ETag, not the body `toBarView` builds (BookController.java:113,
  128), nor any exception that call could throw.
- Spring's quoting of the ETag value is framework code. The round-trip
  lemma covers both the bare and the quoted form.
- `LocalDate.now()` is not modelled; the current year is a parameter.
- Object identity is not modelled. `LendingNumber` and `ReaderNumber` do not
  override `equals`, but the model compares them as values.
- The optimistic-concurrency behaviour of `Author`, `Lending` and `Reader`
  (`applyPatch`, `removePhoto`, `setReturned`, `StaleObjectStateException`)
  is not modelled, because their sources are not part of this model.
  `ReaderRepository` is an interface with no logic.
- Bean Validation and JPA annotations are not modelled. The framework
  enforces them, not the constructors. The `@Size` bound is used only as
  the target of `TextLengthWithinSize`.

## Findings

| source | as written | input that shows it | evidently intended | confidence | as-written member | corrected member |
|---|---|---|---|---|---|---|
| src/main/java/pt/psoft/g1/psoftg1/lendingmanagement/model/LendingNumber.java:67 | the year is parsed from characters `[0, 3)` | "2024/23" gives year 202 and text "202/23" | parse the year from `[0, 4)`, so that the text `year/sequential` of a four-digit year reads back unchanged, as the class comment's example "2024/23" suggests | high; not executed | `LendingNumbers.FourDigitYearLosesLastDigit` | `LendingNumbers.FromTextCorrected`, round trip proved in `LendingNumbers.CorrectedRoundTrip` |
