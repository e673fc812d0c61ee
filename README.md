# isolicity-bookstore: the book import, tags, CSV records and lending rules in Dafny

This project models the logic of the isolicity-bookstore Laravel application in Dafny:

- **CSV import.** `BookImportService` reads a CSV file of books for one user. It checks the file and the header, then handles each row in file order:
  1. validates the row;
  2. finds or creates the author by exact name;
  3. finds or creates the user's book under the key (owner, author, title, isbn13, page_count);
  4. syncs the book's tags, then the author's.

  It counts rows created, skipped and failed. Each failed row is recorded with its data and its reason.
- **Tags.** The `Taggable` trait attaches, detaches, tests and syncs a model's tags. `syncTags` passes numeric entries to the relation's `sync` unconverted, and finds or creates every other entry by name.
- **CSV records.** The `Collection::fromCsv` macro zips every line after the first with the header line.
- **Lending.** `BookController::checkout` and `BookController::return` implement the lending rules. A book is lent for two weeks while it has no active checkout. Only the borrower can return a checkout, and only once.

How the model is built:

- **The database.** `Store.Database` is a class with one `seq` field per table (authors, books, tags, taggable pivot rows, checkouts). Authors, books and checkouts are referred to by position. A tag's id is visible to callers of `syncTags`, so the tag at position p has id p + 1, as an auto-increment key starting at 1 gives. `Store.Tables` is the value of all five tables.
- **Operations.** Each operation that changes the database is a module-level method that takes the `db: Database` it modifies. Its `ensures` ties the new tables to a specification function of the old tables (`ImportRow`, `SyncSpec`, `CheckOut`, `Return`, ...). The properties the application promises are proved as lemmas about those functions.
- **Store invariant.** `Store.Valid` holds:
  - one author per name;
  - one book per owner and key;
  - one tag per name;
  - no repeated pivot row;
  - at most one active checkout per book.
- **Sync keys.** `syncTags` hands its entries to `sync` as array keys. PHP stores a string key that is the canonical spelling of a 64-bit integer ("7") as that integer, and keeps any other numeric spelling ("007", "+7") as a string. `sync` then compares attached ids with the keys as strings when it detaches (`array_diff`), and loosely when it attaches (`in_array`). The model keeps both comparisons, so a padded entry behaves as the code makes it behave.
- **Outside input.** File-system tests are boolean parameters. The clock is an integer parameter counting seconds. A CSV file is given as its lines, already split into fields.

Modules:

| file | module | models |
|---|---|---|
| wrappers.dfy | Wrappers | `Option` and `Result` |
| store.dfy | Store | the tables, Eloquent's `firstOrCreate`, the store invariant |
| php_text.dfy | PhpText | `trim`, `explode`, string truthiness, `is_numeric` on integers, `FILTER_VALIDATE_INT` |
| csv.dfy | Csv | `array_combine` and the `fromCsv` macro |
| taggable.dfy | Taggable | the `Taggable` trait |
| book_import.dfy | BookImport | `BookImportService` |
| checkouts.dfy | Checkouts | `BookController::checkout` and `BookController::return` |

## Model

| member | source | states |
|---|---|---|
| Store.FirstOrCreate | app/Services/BookImportService.php:131-134 | returns the first row equal to the key, or appends the key as a new row. The id points at a row equal to the key and no earlier row matches. The table grows by at most that row. Created exactly when the key was absent. Duplicate-free tables stay duplicate-free. |
| Store.FirstOrCreateAgain | app/Services/BookImportService.php:131-134 | a second `firstOrCreate` with the same key finds the row the first call returned, and creates nothing |
| Store.IndexOf | app/Services/BookImportService.php:133 | the lookup finds the first row equal to the key, and finds nothing exactly when no row equals it |
| PhpText.Trim | app/Services/BookImportService.php:142 | a trimmed string is empty or has no strippable character at either end |
| PhpText.TrimCut | app/Services/BookImportService.php:142 | the trimmed string is a slice of the input, and every character cut from either end is one of the characters `trim` strips |
| PhpText.TrimWithout | app/Services/BookImportService.php:142 | trimming never introduces a character the input lacks |
| PhpText.TrimWithEmpty | app/Services/BookImportService.php:142 | trimming yields "" exactly when every character is strippable |
| PhpText.Explode | app/Services/BookImportService.php:142 | yields at least one piece. No piece contains the separator. Gluing the pieces back with the separator gives the input. |
| PhpText.FilterInt | app/Services/BookImportService.php:96 | every accepted value fits a signed 64-bit integer |
| PhpText.FilterIntNeedsDigit | app/Services/BookImportService.php:96 | the `integer` rule accepts only strings holding a digit |
| PhpText.FilterIntAcceptsIntText | app/Services/BookImportService.php:96 | the `integer` rule accepts the decimal spelling of every 64-bit integer, as that integer |
| PhpText.FilterIntSpelling | app/Services/BookImportService.php:96 | conversely, an accepted value is, once trimmed, the decimal spelling of its value, that spelling behind a `+`, or "-0" |
| PhpText.Falsy | app/Services/BookImportService.php:138 | a string is false exactly when it is "" or "0" |
| PhpText.NumericId | app/Models/Traits/Taggable.php:43 | an entry without a digit is never numeric |
| PhpText.NumericIdSpelling | app/Models/Traits/Taggable.php:43 | an entry is numeric exactly when, trimmed of white space, it is digits or a sign followed by digits, leading zeros allowed. Its value is that of the digits, negated after a `-`. |
| PhpText.IntTextIsIntegerKey | app/Models/Traits/Taggable.php:50 | the canonical spelling of a 64-bit integer is numeric, stands for that integer, and becomes an integer array key |
| PhpText.PaddedId | app/Models/Traits/Taggable.php:43-44 | an id with a leading zero is numeric and stands for that id, but stays a string array key |
| Csv.Combine | app/Providers/AppServiceProvider.php:29 | fails exactly when the line's width differs from the header's |
| Csv.CombineKeys | app/Providers/AppServiceProvider.php:29 | a combined record's keys are exactly the header's names |
| Csv.CombineField | app/Providers/AppServiceProvider.php:29 | under each header name is the field of the last column with that name |
| Csv.CombineDistinct | app/Providers/AppServiceProvider.php:29 | with distinct header names, each column's field is found under its name |
| Csv.Records | app/Providers/AppServiceProvider.php:28-30 | succeeds exactly when every line has the header's width, with one record per line. On failure, it names the first line of another width. |
| Csv.RecordsCombine | app/Providers/AppServiceProvider.php:28-30 | record i is line i combined with the header |
| Csv.RecordKeys | app/Providers/AppServiceProvider.php:29 | every record's keys are the header's names |
| Csv.CsvRecords | app/Providers/AppServiceProvider.php:23-35 | a file with no lines or only a header gives no records. Otherwise there is one record per line after the header. |
| Csv.RecordOfLine | app/Providers/AppServiceProvider.php:25-30 | record i comes from line i + 1, combined with line 0. The header is never a record. |
| Csv.FromCsv | app/Providers/AppServiceProvider.php:23-35 | the loop returns `CsvRecords` of the lines |
| Taggable.HasTag | app/Models/Traits/Taggable.php:35-38 | true exactly when the tag is in the model's tag set |
| Taggable.Detach | app/Models/Traits/Taggable.php:32 | removes exactly the model's pivot rows for the given tags |
| Taggable.Values | app/Models/Traits/Taggable.php:50 | the ids of a key list are exactly the values of its keys, one per key |
| Taggable.AttachKeys | app/Models/Traits/Taggable.php:50 | `sync` attaches exactly the listed keys whose value is not attached yet, each distinct key once |
| Taggable.SyncLinks | app/Models/Traits/Taggable.php:50 | after `sync`, an id attached before stays attached exactly when an integer key equals it. An id not attached before is attached exactly when some key stands for it. Other models' rows are unchanged. With integer keys only, no pivot row is repeated. |
| Taggable.SyncLinksIdempotent | app/Models/Traits/Taggable.php:50 | syncing to the same integer keys twice is the same as syncing once |
| Taggable.Classify | app/Models/Traits/Taggable.php:42-48 | a name entry keeps its text. An integer key is the canonical spelling of its id. A string key keeps the entry's text. An entry without a digit is a name. An entry is numeric exactly when `is_numeric` accepts it, and its key stands for the number it spells. |
| Taggable.CanonicalIdIsIntKey | app/Models/Traits/Taggable.php:43-44 | the canonical spelling of a 64-bit id reaches `sync` as that integer key |
| Taggable.PaddedIdIsStrKey | app/Models/Traits/Taggable.php:43-44 | an id written with a leading zero reaches `sync` as a string key standing for that id |
| Taggable.ResolveTags | app/Models/Traits/Taggable.php:42-48 | the tag table only grows, and each entry gets one id |
| Taggable.ResolvedId | app/Models/Traits/Taggable.php:42-48 | a numeric entry gives its own key. A name gives the integer key of the first tag with that name, that is its position plus one. |
| Taggable.ResolvedPlain | app/Models/Traits/Taggable.php:42-48 | a list without padded numeric entries yields integer keys only |
| Taggable.ResolvedNewNames | app/Models/Traits/Taggable.php:47 | the tag table gains only names listed as entries that no tag had, and stays free of repeated names |
| Taggable.ResolveTagsStable | app/Models/Traits/Taggable.php:42-48 | resolving again, against a table that already holds the names, creates nothing and gives the same keys |
| Taggable.SyncSpec | app/Models/Traits/Taggable.php:40-51 | `syncTags` changes only the tag table and the model's pivot rows. New tags are unseen listed names. |
| Taggable.SyncValid | app/Models/Traits/Taggable.php:40-51 | `syncTags` keeps one tag per name, and keeps the whole store invariant when the list has no padded numeric entry |
| Taggable.SyncAttachesEntry | app/Models/Traits/Taggable.php:40-51 | every entry stands for a key against the new tag table. A name or a canonical id ends up attached. |
| Taggable.SyncPaddedEntry | app/Models/Traits/Taggable.php:50 | a padded numeric entry's id ends up attached exactly when it was not attached before, or another entry stands for it as an integer key |
| Taggable.SyncAttachesOnlyEntries | app/Models/Traits/Taggable.php:40-51 | every attached tag is the value of some entry's key, so unlisted tags are removed |
| Taggable.SyncIdempotent | app/Models/Traits/Taggable.php:40-51 | calling `syncTags` twice with the same list leaves the tag table as calling it once, and the whole store too when the list has no padded numeric entry |
| Taggable.StrKeySyncFlips | app/Models/Traits/Taggable.php:50 | syncing to one padded entry ("007") flips whether its id is attached, so a second identical call undoes the first |
| Taggable.TwoKeysRepeatRow | app/Models/Traits/Taggable.php:50 | two distinct keys of one unattached value make `sync` insert that pivot row twice |
| Taggable.SameIdTwiceRepeatsRow | app/Models/Traits/Taggable.php:40-51 | two spellings of one unattached id ("7" and "007") attach it twice |
| Taggable.AddTag | app/Models/Traits/Taggable.php:16-21 | the tag set gains exactly the tag. A present tag adds no row. No other model's rows change. No pivot row is repeated. |
| Taggable.RemoveTag | app/Models/Traits/Taggable.php:23-28 | the tag set loses exactly the tag. An absent tag changes nothing. No other model's rows change. |
| Taggable.ClearTags | app/Models/Traits/Taggable.php:30-33 | the model's tag set becomes empty and no other model's rows change |
| Taggable.ResolveToken | app/Models/Traits/Taggable.php:42-48 | the closure keeps an id and finds or creates a name |
| Taggable.SyncTags | app/Models/Traits/Taggable.php:40-51 | the new store is `SyncSpec` of the old store and the classified entries |
| BookImport.BlankIsTrimmedEmpty | app/Services/BookImportService.php:93-95 | the `required` rule rejects a value exactly when it is empty after `trim` |
| BookImport.FieldErrorsMatch | app/Services/BookImportService.php:92-99 | each field's rules pass exactly when the field is acceptable |
| BookImport.ValidateBookData | app/Services/BookImportService.php:90-106 | passes exactly when no field breaks a rule. Otherwise it reports the first failing field, with the rule that field breaks. |
| BookImport.ValidationAccepts | app/Services/BookImportService.php:90-106 | a row passes exactly when it has a non-blank title and author of at most 255 characters and a non-blank 13-character isbn13, and its page_count is absent, blank, or an integer of at least 1 |
| BookImport.CheckFile | app/Services/BookImportService.php:64-73 | a missing file gives "not found". A present but unreadable file gives "not readable". Both tests passing gives no error. |
| BookImport.FirstMissing | app/Services/BookImportService.php:83-87 | finds the first required column the record lacks, or none when it has them all |
| BookImport.StructureError | app/Services/BookImportService.php:75-88 | no records, or an empty first record, means the file is empty. Otherwise it passes exactly when the first record has all four required columns. If not, it names a column the first record lacks, and every required column listed before it is present. |
| BookImport.ValidateCsvStructure | app/Services/BookImportService.php:75-88 | the loop over the required columns returns `StructureError` |
| BookImport.TagNames | app/Services/BookImportService.php:142 | gives one entry per `;`-separated piece, entry k being piece k trimmed |
| BookImport.TagNamesEntry | app/Services/BookImportService.php:142 | no entry contains `;`, and no entry starts or ends with a strippable character |
| BookImport.TagNamesCut | app/Services/BookImportService.php:142 | entry k is piece k with only strippable characters cut from its ends |
| BookImport.SyncField | app/Services/BookImportService.php:136-144 | a falsy field ("" or "0") leaves the store alone. Otherwise only tags and the model's pivot rows change. |
| BookImport.SyncFieldValid | app/Services/BookImportService.php:136-144 | syncing a tag field keeps one tag per name, and keeps the whole store invariant when the field has no padded numeric entry |
| BookImport.SyncFieldKeepsOthers | app/Services/BookImportService.php:125-126 | syncing the author's tags leaves the book's attached tags attached |
| BookImport.ImportRow | app/Services/BookImportService.php:108-129 | a validation error or a falsy author changes nothing. Otherwise authors and books each grow by at most one row, tags only grow, and checkouts stay. |
| BookImport.ImportRowValid | app/Services/BookImportService.php:108-129 | importing a row keeps one row per key in every table, and the whole store invariant when its tag fields have no padded numeric entry |
| BookImport.ImportRowOutcome | app/Services/BookImportService.php:110-123 | an imported row passed validation and the author guard. Its book is the row's book under the row's author. A created book is appended and is new. A skipped book leaves the books unchanged. |
| BookImport.ImportRowUndefinedKey | app/Services/BookImportService.php:122-126 | a row fails on an undefined key only after validation and the author guard, and only for a page_count, book_tags or author_tags column it lacks |
| BookImport.ImportRowTagsBook | app/Services/BookImportService.php:125 | every entry of a truthy book_tags field stands for a key in the final tag table. A name or a canonical id is attached to the imported book, for skipped books too. |
| BookImport.ImportRowTagsAuthor | app/Services/BookImportService.php:126 | every entry of a truthy author_tags field stands for a key in the final tag table. A name or a canonical id is attached to the book's author. |
| BookImport.ImportedRowSkippedLater | app/Services/BookImportService.php:118-123 | an imported row is skipped as the same book by any later import on a store that kept its rows. That import adds no author and no book. |
| BookImport.ReimportSkips | app/Services/BookImportService.php:118-123 | importing the same row again skips it as the same book |
| BookImport.ChangedTitleIsAnotherBook | app/Services/BookImportService.php:118-123 | a later row with another title yields another book, and the first book's fields stay unchanged |
| BookImport.BlankAuthorFails | tests/Feature/BookImportTest.php:176-191 | a row with a valid title but no author fails on the author's `required` rule and changes nothing |
| BookImport.ZeroAuthorFails | app/Services/BookImportService.php:112-114 | an author named "0" passes validation, but the author guard rejects it and nothing changes |
| BookImport.Run | app/Services/BookImportService.php:33-58 | gives one outcome per row. The author, book and tag tables only grow. Checkouts stay. Pivot rows may be removed, since `sync` detaches. |
| BookImport.RunValid | app/Services/BookImportService.php:33-58 | a whole run keeps one row per key in every table, and the whole store invariant when no row has a padded numeric tag entry |
| BookImport.Summarize | app/Services/BookImportService.php:24-59 | total is the number of rows. created, skipped and failed are the numbers of rows with each outcome, and they add up to total. There is one error entry per failed row. |
| BookImport.Positions | app/Services/BookImportService.php:34-56 | the positions of the rows with one outcome: exactly those rows, in increasing order, as many as that outcome's count |
| BookImport.ErrorsInRowOrder | app/Services/BookImportService.php:48-56 | error entry j holds the data and the reason of the j-th failed row, in file order |
| BookImport.CountRow | app/Services/BookImportService.php:34-56 | the counters after one row are the tally of that row's outcome |
| BookImport.Import | app/Services/BookImportService.php:14-62 | a failed import leaves the store unchanged. A missing file is reported before an unreadable one, and both before the CSV is read. A line of the wrong width is reported before the structure is checked. A file with at most a header is empty. A structure failure is reported as `StructureError` gives it. Success happens exactly when every check passed, and then the store is what `Run` leaves and the result is the `Summarize` tally of its outcomes. |
| BookImport.ImportValid | app/Services/BookImportService.php:14-62 | an import keeps one author per name, one book per owner and key, and one tag per name, across rows, runs and owners. It keeps the whole store invariant when no record has a padded numeric tag entry. |
| BookImport.GetOrCreateAuthor | app/Services/BookImportService.php:131-134 | the author table is `FirstOrCreate` by exact name and nothing else changes |
| BookImport.SyncTagField | app/Services/BookImportService.php:136-144 | the new store is `SyncField` of the old one |
| BookImport.ImportBook | app/Services/BookImportService.php:108-129 | the new store and the outcome are `ImportRow` of the old store |
| BookImport.ImportRows | app/Services/BookImportService.php:32-59 | the loop leaves the store as `Run` does and returns the `Summarize` tally |
| BookImport.ImportFromCsv | app/Services/BookImportService.php:14-62 | the new store and the result are `Import` of the old store |
| Checkouts.ActiveCheckoutOf | app/Http/Controllers/BookController.php:55 | finds an unreturned checkout of the book, and finds none exactly when every checkout of the book is returned |
| Checkouts.CheckOut | app/Http/Controllers/BookController.php:47-71 | refused exactly when the book has an active checkout, and then nothing changes. Otherwise it appends one checkout (requester, now, due now + 14 days, not returned), which is the book's only active checkout. Keeps one active checkout per book. |
| Checkouts.RefusedLeavesOneActive | app/Http/Controllers/BookController.php:55-59 | after a refused checkout the book still has exactly one active checkout |
| Checkouts.OwnerMayCheckOut | app/Http/Controllers/BookController.php:49-53 | the owner can check out their own available book |
| Checkouts.Return | app/Http/Controllers/BookController.php:73-94 | refused as NotBorrower exactly when the requester is not the borrower, and as AlreadyReturned exactly when the borrower returns a checkout that is already returned. A refusal changes nothing. Success sets only this checkout's return time to now. Keeps one active checkout per book. |
| Checkouts.ReturnFreesBook | app/Http/Controllers/BookController.php:87-89 | after a return the book has no active checkout and anyone can check it out again |
| Checkouts.CheckOutBook | app/Http/Controllers/BookController.php:47-71 | the checkouts and the answer are `CheckOut` of the old checkouts, and no other table changes |
| Checkouts.ReturnCheckout | app/Http/Controllers/BookController.php:73-94 | the checkouts and the answer are `Return` of the old checkouts, and no other table changes |

## Left out

- Reading the file is not modelled. `file_exists` and `is_readable` are parameters. `fopen`/`fgetcsv` tokenising is not part of this model: a file is given as its lines, already split into fields.
  - A blank CSV line, which `fgetcsv` returns as one null field, is treated like any other line of that width.
- Logging (app/Services/BookImportService.php:146-149) and the texts of the error messages are left out. Errors are datatypes that name the field and the rule, the missing column, or the failing step.
- `DB::transaction` is a plain sequential block. Concurrent imports, unique-constraint races and foreign-key checks are left out.
- The Laravel validator is modelled only through the rules the importer uses, with only the first failure reported.
  - The `string` rule always passes on CSV fields, so it is not modelled.
  - `book_tags` and `author_tags` are `nullable|string` and cannot fail.
- The database's coercion of column types is not modelled. Books store `page_count` as the raw string, so "100" and " 100" are different keys.
- PhpText.NumericId: `is_numeric` is modelled for integer literals with optional surrounding white space and sign only. The source treats "1.5" or "1e3" as numeric and passes it to `sync` unconverted, but the model looks such entries up as names.
- Taggable.Classify: a numeric entry beyond 64 bits stays a string key, and the model keeps its exact value as the id it stands for. A real tag id column cannot hold such a value.
- Taggable.SyncLinks: the database casts a string key to its numeric value when it stores the pivot row. The model stores that value directly. Whether the pivot table has a unique index is not part of this model, so repeated pivot rows are modelled as inserted.
- SyncValid (Taggable.SyncValid): keeps the no-repeated-pivot-row part of the invariant only for lists without padded numeric entries such as "007". With "7;007" the code attaches tag 7 twice (Taggable.SameIdTwiceRepeatsRow).
- SyncAttachesEntry (Taggable.SyncAttachesEntry): promises attachment only for names and canonical ids. A padded entry is attached or detached as Taggable.SyncPaddedEntry states.
- SyncIdempotent (Taggable.SyncIdempotent): promises a repeated call leaves the pivot rows alone only for lists without padded numeric entries. A lone "007" flips on every call (Taggable.StrKeySyncFlips).
- SyncFieldValid (BookImport.SyncFieldValid): conditional on a plain field for the reason given under Taggable.SyncValid.
- ImportRowValid (BookImport.ImportRowValid): conditional on plain tag fields for the reason given under Taggable.SyncValid.
- RunValid (BookImport.RunValid): conditional on plain tag fields for the reason given under Taggable.SyncValid.
- ImportValid (BookImport.ImportValid): conditional on plain tag fields for the reason given under Taggable.SyncValid.
- ImportRowTagsBook (BookImport.ImportRowTagsBook): promises attachment only for names and canonical ids, as Taggable.SyncAttachesEntry does.
- ImportRowTagsAuthor (BookImport.ImportRowTagsAuthor): promises attachment only for names and canonical ids, as Taggable.SyncAttachesEntry does.
- `$book->activeCheckout` is not defined in app/Models/Book.php. It is taken to be a checkout of the book whose `returned_at` is null, as tests/Feature/CheckoutTest.php:185-209 reads it.
- Checkouts.CheckOut: `now()` is read once, so `due_at - checked_out_at` is exactly 14 days. The source calls `now()` twice, and the two readings can differ by a fraction of a second.
- Calendar arithmetic is not modelled: `addWeeks(2)` is 14 × 86400 seconds.
- Route-model binding is a precondition: the book or checkout exists. Authentication is left out.
- The overdue display logic is left out. So are `BookController::import` and `show`, the console command, the routes and the React pages, which are glue or rendering.
- Eloquent's relation cache is left out: the pivot rows are the only record of a model's tags. Timestamps and soft deletes are left out.
- `importFromCsv` returns the errors array, but the model returns a value of `ImportResult`. Exceptions are `Result` failures.

## Where the code and its tests differ

This model follows the code in both cases.

- **Re-importing a changed row.** tests/Feature/BookImportTest.php:89-114 re-imports a row with a changed title and page count and expects it to be skipped.
  - In the code, title and page_count are part of the key passed to `firstOrCreate` (app/Services/BookImportService.php:118-123), so that row creates a second book.
  - `BookImport.ChangedTitleIsAnotherBook` states this.
- **Missing tag columns.** The code reads `book_tags` and `author_tags` even when the file has no such column (app/Services/BookImportService.php:125-126).
  - An undefined array key is reported as an error and caught by the row loop, so the row fails. The author and book written before the failure stay written.
  - `BookImport.ImportRowUndefinedKey` states this.
