/**
 * BookImportService: reads the records of a CSV file and, row by row,
 * validates the row, finds or creates its author, finds or creates the
 * owner's book under its natural key, and syncs the book's and the author's
 * tags, keeping a tally of created, skipped and failed rows.
 */
module BookImport {
  import opened Wrappers
  import opened Store
  import PhpText
  import Csv
  import Taggable

  /** The fields `validateBookData` can reject, in the order of its rule list. */
  datatype Field = Title | Author | Isbn13 | PageCount

  /** The rules that can fail on a field read from CSV (every field is a string, so `string` cannot). */
  datatype Rule = Required | Max(limit: nat) | Size(length: nat) | Integer | Min(least: int)

  /** Why one row was not imported; the run goes on with the next row. */
  datatype RowError =
    | Invalid(field: Field, rule: Rule)
    | AuthorNameRequired
    | UndefinedKey(key: string)

  /** Why the whole import was abandoned before any row was read. */
  datatype ImportError =
    | FileNotFound
    | FileNotReadable
    | MalformedCsv(cause: Csv.CsvError)
    | CsvEmpty
    | MissingColumn(column: string)

  /** What `importBook` did with one row. */
  datatype RowOutcome = Created(book: BookId) | Skipped(book: BookId) | Failed(error: RowError)

  /** An entry of `errors`: the row as read and the reason it failed. */
  datatype RowFailure = RowFailure(data: Csv.Record, error: RowError)

  /** The array `importFromCsv` returns. */
  datatype ImportResult = ImportResult(total: nat, created: nat, skipped: nat, failed: nat, errors: seq<RowFailure>)

  const MaxTextLength: nat := 255
  const IsbnLength: nat := 13

  /** The columns the first record must carry, in the order they are checked. */
  const RequiredColumns: seq<string> := ["title", "author", "isbn13", "page_count"]

  function Column(f: Field): string
  {
    match f
    case Title => "title"
    case Author => "author"
    case Isbn13 => "isbn13"
    case PageCount => "page_count"
  }

  /** The position of a field in the rule list. */
  function Rank(f: Field): nat
  {
    match f
    case Title => 0
    case Author => 1
    case Isbn13 => 2
    case PageCount => 3
  }

  /** A string the validator treats as empty: made only of what trim() strips. */
  predicate Blank(v: string)
  {
    forall k :: 0 <= k < |v| ==> v[k] in PhpText.TrimChars
  }

  /** Blank is the validator's own test, `trim($value) === ''`. */
  lemma BlankIsTrimmedEmpty(v: string)
    ensures Blank(v) <==> PhpText.Trim(v) == ""
  {
    PhpText.TrimWithEmpty(v, PhpText.TrimChars);
  }

  /** `required|string|max:limit`: the first rule a text field breaks. */
  function TextError(row: Csv.Record, key: string, limit: nat): Option<Rule>
  {
    if key !in row || Blank(row[key]) then Some(Required)
    else if |row[key]| > limit then Some(Max(limit))
    else None
  }

  /** `required|string|size:13`: the first rule the isbn13 field breaks. */
  function IsbnError(row: Csv.Record): Option<Rule>
  {
    if "isbn13" !in row || Blank(row["isbn13"]) then Some(Required)
    else if |row["isbn13"]| != IsbnLength then Some(Size(IsbnLength))
    else None
  }

  /**
   * `nullable|integer|min:1`: an absent or blank page count is not checked;
   * otherwise it must be an integer, and at least 1.
   */
  function PageCountError(row: Csv.Record): Option<Rule>
  {
    if "page_count" !in row || Blank(row["page_count"]) then None
    else
      match PhpText.FilterInt(row["page_count"])
      case None => Some(Integer)
      case Some(n) => if n < 1 then Some(Min(1)) else None
  }

  /** The first rule of the field's rule list that the row breaks, if any. */
  function FieldError(row: Csv.Record, f: Field): Option<Rule>
  {
    match f
    case Title => TextError(row, "title", MaxTextLength)
    case Author => TextError(row, "author", MaxTextLength)
    case Isbn13 => IsbnError(row)
    case PageCount => PageCountError(row)
  }

  /** A text field the rules accept: present, not blank, at most `limit` characters. */
  predicate TextOk(row: Csv.Record, key: string, limit: nat)
  {
    key in row && !Blank(row[key]) && |row[key]| <= limit
  }

  /** The isbn13 field the rules accept: present, not blank, exactly 13 characters. */
  predicate IsbnOk(row: Csv.Record)
  {
    "isbn13" in row && !Blank(row["isbn13"]) && |row["isbn13"]| == IsbnLength
  }

  /** The page count the rules accept: absent, blank, or an integer of at least 1. */
  predicate PageCountOk(row: Csv.Record)
  {
    || "page_count" !in row
    || Blank(row["page_count"])
    || (PhpText.FilterInt(row["page_count"]).Some? && PhpText.FilterInt(row["page_count"]).value >= 1)
  }

  /**
   * The row the rule list accepts: a title and an author of at most 255
   * characters, a 13-character isbn13, and an acceptable page count.
   */
  predicate Acceptable(row: Csv.Record)
  {
    TextOk(row, "title", MaxTextLength) && TextOk(row, "author", MaxTextLength) && IsbnOk(row) && PageCountOk(row)
  }

  /** Each field's rules fail exactly when the field is not acceptable. */
  lemma FieldErrorsMatch(row: Csv.Record)
    ensures FieldError(row, Title).None? <==> TextOk(row, "title", MaxTextLength)
    ensures FieldError(row, Author).None? <==> TextOk(row, "author", MaxTextLength)
    ensures FieldError(row, Isbn13).None? <==> IsbnOk(row)
    ensures FieldError(row, PageCount).None? <==> PageCountOk(row)
  {
  }

  /**
   * `validateBookData`: None when the row passes; otherwise the first
   * failure in rule-list order, which is the only one reported.
   */
  function ValidateBookData(row: Csv.Record): (r: Option<RowError>)
    ensures r.None? <==> forall f :: FieldError(row, f).None?
    ensures r.Some? ==> r.value.Invalid? && FieldError(row, r.value.field) == Some(r.value.rule)
    ensures r.Some? ==> forall f :: Rank(f) < Rank(r.value.field) ==> FieldError(row, f).None?
  {
    if FieldError(row, Title).Some? then Some(Invalid(Title, FieldError(row, Title).value))
    else if FieldError(row, Author).Some? then Some(Invalid(Author, FieldError(row, Author).value))
    else if FieldError(row, Isbn13).Some? then Some(Invalid(Isbn13, FieldError(row, Isbn13).value))
    else if FieldError(row, PageCount).Some? then Some(Invalid(PageCount, FieldError(row, PageCount).value))
    else None
  }

  /** A row passes validation exactly when every field is acceptable. */
  lemma ValidationAccepts(row: Csv.Record)
    ensures ValidateBookData(row).None? <==> Acceptable(row)
  {
    FieldErrorsMatch(row);
  }

  /** `validateCsvFile`, with the two file-system tests given as flags. */
  function CheckFile(fileExists: bool, readable: bool): (r: Option<ImportError>)
    ensures r.None? <==> fileExists && readable
    ensures !fileExists ==> r == Some(FileNotFound)
    ensures fileExists && !readable ==> r == Some(FileNotReadable)
  {
    if !fileExists then Some(FileNotFound)
    else if !readable then Some(FileNotReadable)
    else None
  }

  /** The first of `columns` that `record` lacks. */
  function FirstMissing(record: Csv.Record, columns: seq<string>): (r: Option<string>)
    ensures r.None? <==> forall i :: 0 <= i < |columns| ==> columns[i] in record
    ensures r.Some? ==> exists i :: (0 <= i < |columns| && columns[i] == r.value && r.value !in record
      && forall j :: 0 <= j < i ==> columns[j] in record)
    decreases |columns|
  {
    if |columns| == 0 then None
    else if columns[0] !in record then Some(columns[0])
    else
      var r := FirstMissing(record, columns[1..]);
      assert r.Some? ==> exists i :: (0 <= i < |columns| && columns[i] == r.value && r.value !in record
        && forall j :: 0 <= j < i ==> columns[j] in record) by {
        if r.Some? {
          var i :| 0 <= i < |columns[1..]| && columns[1..][i] == r.value && r.value !in record
            && forall j :: 0 <= j < i ==> columns[1..][j] in record;
          assert forall j :: 0 <= j < i + 1 ==> columns[j] in record by {
            forall j | 0 <= j < i + 1 ensures columns[j] in record {
              if j > 0 {
                assert columns[j] == columns[1..][j - 1];
              }
            }
          }
        }
      }
      assert r.None? ==> forall i :: 0 <= i < |columns| ==> columns[i] in record by {
        if r.None? {
          forall i | 0 <= i < |columns| ensures columns[i] in record {
            if i > 0 {
              assert columns[i] == columns[1..][i - 1];
            }
          }
        }
      }
      r
  }

  /**
   * `validateCsvStructure`: no records, or a first record PHP finds falsy
   * (an empty array), is an empty file; otherwise the first required column
   * the first record lacks is reported.
   */
  function StructureError(records: seq<Csv.Record>): (r: Option<ImportError>)
    ensures r == Some(CsvEmpty) <==> |records| == 0 || records[0] == map[]
    ensures r.None? <==> |records| > 0 && records[0] != map[] && forall c :: c in RequiredColumns ==> c in records[0]
    ensures r.Some? && !r.value.CsvEmpty? ==>
      && |records| > 0 && r.value.MissingColumn? && r.value.column !in records[0]
      && exists i :: 0 <= i < |RequiredColumns| && RequiredColumns[i] == r.value.column
           && forall j :: 0 <= j < i ==> RequiredColumns[j] in records[0]
  {
    if |records| == 0 || records[0] == map[] then Some(CsvEmpty)
    else
      match FirstMissing(records[0], RequiredColumns)
      case None => None
      case Some(c) => Some(MissingColumn(c))
  }

  /** The entries of a tag field: the pieces of the field between its ';' separators, each trimmed. */
  function TagNames(v: string): (r: seq<string>)
    ensures |r| == |PhpText.Explode(';', v)|
    ensures forall k :: 0 <= k < |r| ==> r[k] == PhpText.Trim(PhpText.Explode(';', v)[k])
  {
    var parts := PhpText.Explode(';', v);
    seq(|parts|, k requires 0 <= k < |parts| => PhpText.Trim(parts[k]))
  }

  /**
   * Entry `k` of a tag field holds no separator, and starts and ends with a
   * character trim() keeps.
   */
  lemma TagNamesEntry(v: string, k: nat)
    requires k < |TagNames(v)|
    ensures var r := TagNames(v)[k];
      && ';' !in r
      && (r == [] || (r[0] !in PhpText.TrimChars && r[|r| - 1] !in PhpText.TrimChars))
  {
    var piece := PhpText.Explode(';', v)[k];
    assert ';' !in piece;
    PhpText.TrimWithout(piece, ';');
  }

  /**
   * Entry `k` of a tag field is piece `k` of the field with only strippable
   * characters cut from its ends.
   */
  lemma TagNamesCut(v: string, k: nat)
    requires k < |TagNames(v)|
    ensures var piece := PhpText.Explode(';', v)[k];
      PhpText.CutAt(piece, TagNames(v)[k], |piece| - |PhpText.TrimLeft(piece, PhpText.TrimChars)|, PhpText.TrimChars)
  {
    PhpText.TrimCut(PhpText.Explode(';', v)[k]);
  }

  /** `syncTags($model, $tags)` of the service: a falsy field leaves the tags as they are. */
  function SyncField(t: Tables, e: Entity, v: string): (r: Tables)
    ensures PhpText.Falsy(v) ==> r == t
    ensures r.authors == t.authors && r.books == t.books && r.checkouts == t.checkouts
    ensures t.tags <= r.tags
    ensures forall l: Link :: l.entity != e ==> (l in r.links <==> l in t.links)
  {
    if PhpText.Falsy(v) then t
    else Taggable.SyncSpec(t, e, Taggable.Classified(TagNames(v)))
  }

  /** A tag field that is falsy or has no numeric entry with a padded spelling such as "007". */
  predicate PlainField(v: string)
  {
    PhpText.Falsy(v) || Taggable.PlainIds(Taggable.Classified(TagNames(v)))
  }

  /** The tag fields a row carries are plain. */
  predicate PlainTags(row: Csv.Record)
  {
    && ("book_tags" in row ==> PlainField(row["book_tags"]))
    && ("author_tags" in row ==> PlainField(row["author_tags"]))
  }

  /**
   * Syncing a tag field keeps one tag per name, and repeats no pivot row
   * when the field is plain.
   */
  lemma SyncFieldValid(t: Tables, e: Entity, v: string)
    requires UniqueRows(t)
    ensures UniqueRows(SyncField(t, e, v))
    ensures Valid(t) && PlainField(v) ==> Valid(SyncField(t, e, v))
  {
    if !PhpText.Falsy(v) {
      Taggable.SyncValid(t, e, Taggable.Classified(TagNames(v)));
    }
  }

  /** The row of `books` a row asks for, once its author has an id. */
  function BookOf(owner: UserId, author: AuthorId, row: Csv.Record): Book
    requires "title" in row && "isbn13" in row && "page_count" in row
  {
    Book(owner, author, row["title"], row["isbn13"], row["page_count"])
  }

  /**
   * `importBook` on the store: validation, the author guard, the author's
   * and the book's find-or-create, then the book's and the author's tags.
   * A key the row lacks fails the row where it is read, after the writes
   * before it.
   */
  function ImportRow(t: Tables, owner: UserId, row: Csv.Record): (r: (Tables, RowOutcome))
    ensures ValidateBookData(row).Some? ==> r == (t, Failed(ValidateBookData(row).value))
    ensures ValidateBookData(row).None? && PhpText.Falsy(row["author"]) ==> r == (t, Failed(AuthorNameRequired))
    ensures t.authors <= r.0.authors && |r.0.authors| <= |t.authors| + 1
    ensures t.books <= r.0.books && |r.0.books| <= |t.books| + 1
    ensures t.tags <= r.0.tags && r.0.checkouts == t.checkouts
  {
    match ValidateBookData(row)
    case Some(err) => (t, Failed(err))
    case None =>
      var name := row["author"];
      if PhpText.Falsy(name) then (t, Failed(AuthorNameRequired))
      else
        var a := FirstOrCreate(t.authors, name);
        var t1 := t.(authors := a.0);
        if "page_count" !in row then (t1, Failed(UndefinedKey("page_count")))
        else
          var b := FirstOrCreate(t1.books, BookOf(owner, a.1, row));
          var t2 := t1.(books := b.0);
          if "book_tags" !in row then (t2, Failed(UndefinedKey("book_tags")))
          else
            var t3 := SyncField(t2, BookEntity(b.1), row["book_tags"]);
            if "author_tags" !in row then (t3, Failed(UndefinedKey("author_tags")))
            else
              var t4 := SyncField(t3, AuthorEntity(a.1), row["author_tags"]);
              (t4, if b.2 then Created(b.1) else Skipped(b.1))
  }

  /**
   * Importing a row keeps one author per name, one book per key and one
   * tag per name, and repeats no pivot row when its tag fields are plain.
   */
  lemma ImportRowValid(t: Tables, owner: UserId, row: Csv.Record)
    requires UniqueRows(t)
    ensures UniqueRows(ImportRow(t, owner, row).0)
    ensures Valid(t) && PlainTags(row) ==> Valid(ImportRow(t, owner, row).0)
  {
    if ValidateBookData(row).None? && !PhpText.Falsy(row["author"]) {
      var a := FirstOrCreate(t.authors, row["author"]);
      var t1 := t.(authors := a.0);
      if "page_count" in row {
        var b := FirstOrCreate(t1.books, BookOf(owner, a.1, row));
        var t2 := t1.(books := b.0);
        if "book_tags" in row {
          SyncFieldValid(t2, BookEntity(b.1), row["book_tags"]);
          var t3 := SyncField(t2, BookEntity(b.1), row["book_tags"]);
          if "author_tags" in row {
            SyncFieldValid(t3, AuthorEntity(a.1), row["author_tags"]);
          }
        }
      }
    }
  }

  /**
   * A row that is not failed passed validation and the author guard and
   * carried a page count; its book is the row's book under an author of the
   * row's author name; it was created (appended, under a key no book had)
   * or found (the books unchanged).
   */
  lemma ImportRowOutcome(t: Tables, owner: UserId, row: Csv.Record)
    ensures var r := ImportRow(t, owner, row);
      && (!r.1.Failed? ==> Acceptable(row) && !PhpText.Falsy(row["author"]) && "page_count" in row)
      && (!r.1.Failed? ==> r.1.book < |r.0.books| && r.0.books[r.1.book].author < |r.0.authors|)
      && (!r.1.Failed? ==> r.0.books[r.1.book] == BookOf(owner, r.0.books[r.1.book].author, row))
      && (!r.1.Failed? ==> r.0.authors[r.0.books[r.1.book].author] == row["author"])
      && (r.1.Created? ==> r.1.book == |t.books| && r.0.books[r.1.book] !in t.books)
      && (r.1.Skipped? ==> r.0.books == t.books)
  {
    ValidationAccepts(row);
  }

  /** A row fails on an undefined key only for a column it lacks, read after the checks before it. */
  lemma ImportRowUndefinedKey(t: Tables, owner: UserId, row: Csv.Record)
    requires ImportRow(t, owner, row).1.Failed? && ImportRow(t, owner, row).1.error.UndefinedKey?
    ensures ImportRow(t, owner, row).1.error.key in ["page_count", "book_tags", "author_tags"]
    ensures ImportRow(t, owner, row).1.error.key !in row
    ensures ValidateBookData(row).None? && !PhpText.Falsy(row["author"])
  {
  }

  /** A row that is not failed ends with the book's tag sync followed by the author's. */
  lemma ImportRowTagStages(t: Tables, owner: UserId, row: Csv.Record) returns (t2: Tables, author: AuthorId)
    requires !ImportRow(t, owner, row).1.Failed?
    ensures "book_tags" in row && "author_tags" in row
    ensures var r := ImportRow(t, owner, row);
      r.0 == SyncField(SyncField(t2, BookEntity(r.1.book), row["book_tags"]), AuthorEntity(author), row["author_tags"])
  {
    var a := FirstOrCreate(t.authors, row["author"]);
    var b := FirstOrCreate(t.(authors := a.0).books, BookOf(owner, a.1, row));
    t2 := t.(authors := a.0, books := b.0);
    author := a.1;
  }

  /** A tag attached to one entity stays attached, and resolved, when another entity's tags are synced. */
  lemma SyncFieldKeepsOthers(t: Tables, e: Entity, v: string, other: Entity, tok: Taggable.Token, key: Taggable.SyncKey)
    requires other != e
    requires Taggable.KeyValue(key) in Taggable.TagsOf(t.links, other) && Taggable.Resolves(t.tags, tok, key)
    ensures var r := SyncField(t, e, v);
      Taggable.KeyValue(key) in Taggable.TagsOf(r.links, other) && Taggable.Resolves(r.tags, tok, key)
  {
    var r := SyncField(t, e, v);
    Taggable.TagsOfMember(t.links, other, Taggable.KeyValue(key));
    Taggable.TagsOfMember(r.links, other, Taggable.KeyValue(key));
    Taggable.ResolvesGrows(t.tags, r.tags, tok, key);
  }

  /**
   * Every entry of a truthy `book_tags` field of an imported row, created or
   * skipped, stands for a key against the final tag table, and the id of an
   * entry that is a name or a canonical id ends up attached to the row's
   * book. The author's tags are synced afterwards and leave the book's alone.
   */
  lemma ImportRowTagsBook(t: Tables, owner: UserId, row: Csv.Record, k: nat)
    requires !ImportRow(t, owner, row).1.Failed?
    requires "book_tags" in row && !PhpText.Falsy(row["book_tags"])
    requires k < |TagNames(row["book_tags"])|
    ensures var r := ImportRow(t, owner, row);
      var tok := Taggable.Classify(TagNames(row["book_tags"])[k]);
      exists key :: Taggable.Resolves(r.0.tags, tok, key)
        && (Taggable.PlainToken(tok) ==> Taggable.KeyValue(key) in Taggable.TagsOf(r.0.links, BookEntity(r.1.book)))
  {
    var t2, author := ImportRowTagStages(t, owner, row);
    var e := BookEntity(ImportRow(t, owner, row).1.book);
    var toks := Taggable.Classified(TagNames(row["book_tags"]));
    Taggable.SyncAttachesEntry(t2, e, toks, k);
    var t3 := SyncField(t2, e, row["book_tags"]);
    var key :| Taggable.Resolves(t3.tags, toks[k], key)
      && (Taggable.PlainToken(toks[k]) ==> Taggable.KeyValue(key) in Taggable.TagsOf(t3.links, e));
    if Taggable.PlainToken(toks[k]) {
      SyncFieldKeepsOthers(t3, AuthorEntity(author), row["author_tags"], e, toks[k], key);
    } else {
      Taggable.ResolvesGrows(t3.tags, ImportRow(t, owner, row).0.tags, toks[k], key);
    }
  }

  /**
   * Every entry of a truthy `author_tags` field of an imported row stands
   * for a key against the final tag table, and the id of an entry that is a
   * name or a canonical id ends up attached to the book's author.
   */
  lemma ImportRowTagsAuthor(t: Tables, owner: UserId, row: Csv.Record, k: nat)
    requires !ImportRow(t, owner, row).1.Failed?
    requires "author_tags" in row && !PhpText.Falsy(row["author_tags"])
    requires k < |TagNames(row["author_tags"])|
    ensures var r := ImportRow(t, owner, row);
      && r.1.book < |r.0.books|
      && var tok := Taggable.Classify(TagNames(row["author_tags"])[k]);
      exists key :: Taggable.Resolves(r.0.tags, tok, key)
        && (Taggable.PlainToken(tok) ==> Taggable.KeyValue(key) in Taggable.TagsOf(r.0.links, AuthorEntity(r.0.books[r.1.book].author)))
  {
    ImportRowOutcome(t, owner, row);
    var a := FirstOrCreate(t.authors, row["author"]);
    var t1 := t.(authors := a.0);
    var b := FirstOrCreate(t1.books, BookOf(owner, a.1, row));
    var t2 := t1.(books := b.0);
    var t3 := SyncField(t2, BookEntity(b.1), row["book_tags"]);
    var toks := Taggable.Classified(TagNames(row["author_tags"]));
    Taggable.SyncAttachesEntry(t3, AuthorEntity(a.1), toks, k);
  }

  /** The rows processed in file order, each against the store the previous ones left. */
  function Run(t: Tables, owner: UserId, rows: seq<Csv.Record>): (r: (Tables, seq<RowOutcome>))
    ensures |r.1| == |rows|
    ensures t.authors <= r.0.authors && t.books <= r.0.books && t.tags <= r.0.tags
    ensures r.0.checkouts == t.checkouts
    decreases |rows|
  {
    if |rows| == 0 then (t, [])
    else
      var p := Run(t, owner, rows[..|rows| - 1]);
      var q := ImportRow(p.0, owner, rows[|rows| - 1]);
      (q.0, p.1 + [q.1])
  }

  /**
   * A whole run keeps one row per key in every table, and the whole
   * invariant when every row's tag fields are plain.
   */
  lemma {:induction false} RunValid(t: Tables, owner: UserId, rows: seq<Csv.Record>)
    requires UniqueRows(t)
    ensures UniqueRows(Run(t, owner, rows).0)
    ensures Valid(t) && (forall i :: 0 <= i < |rows| ==> PlainTags(rows[i])) ==> Valid(Run(t, owner, rows).0)
    decreases |rows|
  {
    if |rows| > 0 {
      var n := |rows| - 1;
      var init := rows[..n];
      RunValid(t, owner, init);
      var p := Run(t, owner, init);
      ImportRowValid(p.0, owner, rows[n]);
      assert Run(t, owner, rows).0 == ImportRow(p.0, owner, rows[n]).0;
      if Valid(t) && forall i :: 0 <= i < |rows| ==> PlainTags(rows[i]) {
        forall i | 0 <= i < n ensures PlainTags(init[i]) {
          assert init[i] == rows[i];
        }
        assert Valid(p.0);
        assert PlainTags(rows[n]);
      }
    }
  }

  /** The tally after one more row. */
  function Tally(res: ImportResult, row: Csv.Record, o: RowOutcome): ImportResult
  {
    match o
    case Created(_) => res.(total := res.total + 1, created := res.created + 1)
    case Skipped(_) => res.(total := res.total + 1, skipped := res.skipped + 1)
    case Failed(err) => res.(total := res.total + 1, failed := res.failed + 1, errors := res.errors + [RowFailure(row, err)])
  }

  /**
   * The tally of a run: one count per row, each counter the number of rows
   * with that outcome, one error entry per failed row.
   */
  function Summarize(rows: seq<Csv.Record>, outs: seq<RowOutcome>): (r: ImportResult)
    requires |rows| == |outs|
    ensures r.total == |rows|
    ensures r.created == Count(outs, WasCreated)
    ensures r.skipped == Count(outs, WasSkipped)
    ensures r.failed == Count(outs, WasFailed)
    ensures r.total == r.created + r.skipped + r.failed
    ensures |r.errors| == r.failed
    decreases |rows|
  {
    if |rows| == 0 then ImportResult(0, 0, 0, 0, [])
    else
      var n := |rows| - 1;
      var p := Summarize(rows[..n], outs[..n]);
      assert Count(outs, WasCreated) == p.created + (if outs[n].Created? then 1 else 0);
      assert Count(outs, WasSkipped) == p.skipped + (if outs[n].Skipped? then 1 else 0);
      assert Count(outs, WasFailed) == p.failed + (if outs[n].Failed? then 1 else 0);
      Tally(p, rows[n], outs[n])
  }

  /** Summarizing one more row is tallying it. */
  lemma SummarizeAppend(rows: seq<Csv.Record>, outs: seq<RowOutcome>, row: Csv.Record, o: RowOutcome)
    requires |rows| == |outs|
    ensures Summarize(rows + [row], outs + [o]) == Tally(Summarize(rows, outs), row, o)
  {
    assert (rows + [row])[..|rows|] == rows;
    assert (outs + [o])[..|outs|] == outs;
  }

  /** The three things `importBook` can do with a row, as the counters name them. */
  datatype Kind = WasCreated | WasSkipped | WasFailed

  function KindOf(o: RowOutcome): Kind
  {
    match o
    case Created(_) => WasCreated
    case Skipped(_) => WasSkipped
    case Failed(_) => WasFailed
  }

  /** The number of outcomes of kind `k`. */
  function Count(outs: seq<RowOutcome>, k: Kind): nat
    decreases |outs|
  {
    if |outs| == 0 then 0
    else Count(outs[..|outs| - 1], k) + (if KindOf(outs[|outs| - 1]) == k then 1 else 0)
  }

  /** The positions of the rows whose outcome is of kind `k`, in increasing order. */
  function Positions(outs: seq<RowOutcome>, k: Kind): (r: seq<nat>)
    ensures forall j :: 0 <= j < |r| ==> r[j] < |outs| && KindOf(outs[r[j]]) == k
    ensures forall i :: 0 <= i < |outs| && KindOf(outs[i]) == k ==> i in r
    ensures forall j, j' :: 0 <= j < j' < |r| ==> r[j] < r[j']
    ensures |r| == Count(outs, k)
    decreases |outs|
  {
    if |outs| == 0 then []
    else
      var n := |outs| - 1;
      var p := Positions(outs[..n], k);
      assert forall i :: 0 <= i < n ==> outs[..n][i] == outs[i];
      assert Count(outs, k) == |p| + (if KindOf(outs[n]) == k then 1 else 0);
      if KindOf(outs[n]) == k then p + [n] else p
  }

  /** The positions of the failed rows, in increasing order. */
  function FailedIndices(outs: seq<RowOutcome>): seq<nat>
  {
    Positions(outs, WasFailed)
  }

  /** `errs[j]` is the data and the reason of the failed row at position `idx[j]`. */
  predicate ErrorsAt(rows: seq<Csv.Record>, outs: seq<RowOutcome>, errs: seq<RowFailure>, idx: seq<nat>)
  {
    && |errs| == |idx|
    && forall j :: 0 <= j < |idx| ==>
      idx[j] < |rows| && idx[j] < |outs| && outs[idx[j]].Failed? && errs[j] == RowFailure(rows[idx[j]], outs[idx[j]].error)
  }

  /** The inductive step of ErrorsInRowOrder, stated on the sequences alone. */
  lemma ErrorsStep(rs: seq<Csv.Record>, os: seq<RowOutcome>, row: Csv.Record, o: RowOutcome, prev: seq<RowFailure>, p: seq<nat>)
    requires |rs| == |os| && ErrorsAt(rs, os, prev, p)
    ensures ErrorsAt(rs + [row], os + [o],
      prev + (if o.Failed? then [RowFailure(row, o.error)] else []),
      p + (if o.Failed? then [|os|] else []))
  {
  }

  /** `errors` lists the failed rows in file order, each with its data and its reason. */
  lemma {:induction false} ErrorsInRowOrder(rows: seq<Csv.Record>, outs: seq<RowOutcome>)
    requires |rows| == |outs|
    ensures ErrorsAt(rows, outs, Summarize(rows, outs).errors, FailedIndices(outs))
    decreases |rows|
  {
    if |rows| > 0 {
      var n := |rows| - 1;
      var rs, os, row, o := rows[..n], outs[..n], rows[n], outs[n];
      assert rows == rs + [row] && outs == os + [o];
      ErrorsInRowOrder(rs, os);
      assert Summarize(rows, outs).errors == Summarize(rs, os).errors + (if o.Failed? then [RowFailure(row, o.error)] else []) by {
        SummarizeAppend(rs, os, row, o);
      }
      assert FailedIndices(os + [o]) == FailedIndices(os) + (if o.Failed? then [n] else []) by {
        assert (os + [o])[..n] == os;
      }
      ErrorsStep(rs, os, row, o, Summarize(rs, os).errors, FailedIndices(os));
    }
  }

  /**
   * `importFromCsv` on the store: the file checks, the records, the
   * structure check, then every row. An error before the rows changes
   * nothing.
   */
  function Import(t: Tables, fileExists: bool, readable: bool, lines: seq<Csv.Line>, owner: UserId): (r: (Tables, Result<ImportResult, ImportError>))
    ensures r.1.Failure? ==> r.0 == t
    ensures !fileExists ==> r.1 == Failure(FileNotFound)
    ensures fileExists && !readable ==> r.1 == Failure(FileNotReadable)
    ensures fileExists && readable && Csv.CsvRecords(lines).Failure? ==> r.1 == Failure(MalformedCsv(Csv.CsvRecords(lines).error))
    ensures |lines| <= 1 && fileExists && readable ==> r.1 == Failure(CsvEmpty)
    ensures fileExists && readable && Csv.CsvRecords(lines).Success? && StructureError(Csv.CsvRecords(lines).value).Some?
      ==> r.1 == Failure(StructureError(Csv.CsvRecords(lines).value).value)
    ensures r.1.Success? <==> fileExists && readable && Csv.CsvRecords(lines).Success? && StructureError(Csv.CsvRecords(lines).value).None?
    ensures r.1.Success? ==> var recs := Csv.CsvRecords(lines).value;
      r.0 == Run(t, owner, recs).0 && r.1.value == Summarize(recs, Run(t, owner, recs).1)
    ensures r.1.Success? ==> r.1.value.total == |lines| - 1
    ensures r.1.Success? ==> r.1.value.total == r.1.value.created + r.1.value.skipped + r.1.value.failed
    ensures r.1.Success? ==> |r.1.value.errors| == r.1.value.failed
    ensures t.authors <= r.0.authors && t.books <= r.0.books && t.tags <= r.0.tags && r.0.checkouts == t.checkouts
  {
    match CheckFile(fileExists, readable)
    case Some(err) => (t, Failure(err))
    case None =>
      match Csv.CsvRecords(lines)
      case Failure(cause) => (t, Failure(MalformedCsv(cause)))
      case Success(records) =>
        match StructureError(records)
        case Some(err) => (t, Failure(err))
        case None =>
          var run := Run(t, owner, records);
          (run.0, Success(Summarize(records, run.1)))
  }

  /**
   * An import keeps at most one author per name, one book per owner and
   * key, one tag per name, across rows, runs and owners; and it repeats no
   * pivot row when every record's tag fields are plain.
   */
  lemma ImportValid(t: Tables, fileExists: bool, readable: bool, lines: seq<Csv.Line>, owner: UserId)
    requires UniqueRows(t)
    ensures UniqueRows(Import(t, fileExists, readable, lines, owner).0)
    ensures var recs := Csv.CsvRecords(lines);
      (Valid(t) && (recs.Success? ==> forall i :: 0 <= i < |recs.value| ==> PlainTags(recs.value[i])))
      ==> Valid(Import(t, fileExists, readable, lines, owner).0)
  {
    var recs := Csv.CsvRecords(lines);
    if fileExists && readable && recs.Success? && StructureError(recs.value).None? {
      RunValid(t, owner, recs.value);
    }
  }

  /** Row `i` of a run is imported against the store rows `0..i` left. */
  lemma RunRow(t: Tables, owner: UserId, rows: seq<Csv.Record>, i: nat)
    requires i < |rows|
    ensures var before := Run(t, owner, rows[..i]).0;
      Run(t, owner, rows[..i + 1]) == (ImportRow(before, owner, rows[i]).0, Run(t, owner, rows[..i]).1 + [ImportRow(before, owner, rows[i]).1])
  {
    assert rows[..i + 1][..i] == rows[..i];
  }

  /** The first index of `x` in a table stays its first index in any extension. */
  lemma FirstIndexExtended<T>(a: seq<T>, b: seq<T>, x: T, i: nat)
    requires a <= b && i < |a| && a[i] == x && forall j :: 0 <= j < i ==> a[j] != x
    ensures FirstOrCreate(b, x) == (b, i, false)
  {
    assert b[i] == x;
  }

  /**
   * A row that was imported (created or skipped) is skipped, as the same
   * book, by any later import of it on a store that kept the rows it found
   * or made: this is how a re-import of a file counts its rows.
   */
  lemma ImportedRowSkippedLater(t: Tables, owner: UserId, row: Csv.Record, later: Tables)
    requires !ImportRow(t, owner, row).1.Failed?
    requires ImportRow(t, owner, row).0.authors <= later.authors
    requires ImportRow(t, owner, row).0.books <= later.books
    ensures ImportRow(later, owner, row).1 == Skipped(ImportRow(t, owner, row).1.book)
    ensures ImportRow(later, owner, row).0.authors == later.authors
    ensures ImportRow(later, owner, row).0.books == later.books
  {
    var r := ImportRow(t, owner, row);
    var name := row["author"];
    var a := FirstOrCreate(t.authors, name);
    var b := FirstOrCreate(t.books, BookOf(owner, a.1, row));
    assert r.0.authors == a.0 && r.0.books == b.0 && r.1.book == b.1;
    FirstIndexExtended(a.0, later.authors, name, a.1);
    FirstIndexExtended(b.0, later.books, BookOf(owner, a.1, row), b.1);
  }

  /** Importing a row twice in a row: created (or skipped) the first time, skipped the second, same book. */
  lemma ReimportSkips(t: Tables, owner: UserId, row: Csv.Record)
    requires !ImportRow(t, owner, row).1.Failed?
    ensures var once := ImportRow(t, owner, row);
      ImportRow(once.0, owner, row).1 == Skipped(once.1.book)
  {
    var once := ImportRow(t, owner, row);
    ImportedRowSkippedLater(t, owner, row, once.0);
  }

  /**
   * The book key holds the title and the page count, so a later row that
   * changes the title imports another book and leaves the first as it was.
   */
  lemma ChangedTitleIsAnotherBook(t: Tables, owner: UserId, row: Csv.Record, row2: Csv.Record)
    requires !ImportRow(t, owner, row).1.Failed?
    requires !ImportRow(ImportRow(t, owner, row).0, owner, row2).1.Failed?
    requires "title" in row && "title" in row2 && row2["title"] != row["title"]
    ensures var first := ImportRow(t, owner, row);
      var second := ImportRow(first.0, owner, row2);
      && first.1.book < |second.0.books|
      && second.1.book != first.1.book
      && second.0.books[first.1.book] == first.0.books[first.1.book]
  {
    var first := ImportRow(t, owner, row);
    ImportRowOutcome(t, owner, row);
    ImportRowOutcome(first.0, owner, row2);
  }

  /** A row without an author fails validation on that field and changes nothing. */
  lemma BlankAuthorFails(t: Tables, owner: UserId, row: Csv.Record)
    requires "title" in row && !Blank(row["title"]) && |row["title"]| <= MaxTextLength
    requires "author" !in row || Blank(row["author"])
    ensures ImportRow(t, owner, row) == (t, Failed(Invalid(Author, Required)))
  {
  }

  /** An author named "0" passes validation but is refused by the author guard. */
  lemma ZeroAuthorFails(t: Tables, owner: UserId, row: Csv.Record)
    requires Acceptable(row) && row["author"] == "0"
    ensures ImportRow(t, owner, row) == (t, Failed(AuthorNameRequired))
  {
  }

  /** `getOrCreateAuthor`: the author of that exact name, created if there is none. */
  method GetOrCreateAuthor(db: Database, name: string) returns (id: AuthorId)
    modifies db
    ensures (db.authors, id, |db.authors| > |old(db.authors)|) == FirstOrCreate(old(db.authors), name)
    ensures db.View() == old(db.View()).(authors := db.authors)
  {
    var found := FirstOrCreate(db.authors, name);
    db.authors := found.0;
    id := found.1;
  }

  /** The service's `syncTags`: returns at once on a falsy field, otherwise syncs the trimmed entries. */
  method SyncTagField(db: Database, e: Entity, v: string)
    modifies db
    ensures db.View() == SyncField(old(db.View()), e, v)
  {
    if PhpText.Falsy(v) {
      return;
    }
    Taggable.SyncTags(db, e, TagNames(v));
  }

  /** `importBook`: the row's outcome, with the store changed as ImportRow says. */
  method ImportBook(db: Database, owner: UserId, row: Csv.Record) returns (o: RowOutcome)
    modifies db
    ensures (db.View(), o) == ImportRow(old(db.View()), owner, row)
  {
    var invalid := ValidateBookData(row);
    if invalid.Some? {
      return Failed(invalid.value);
    }
    var name := row["author"];
    if PhpText.Falsy(name) {
      return Failed(AuthorNameRequired);
    }
    var author := GetOrCreateAuthor(db, name);
    if "page_count" !in row {
      return Failed(UndefinedKey("page_count"));
    }
    var found := FirstOrCreate(db.books, BookOf(owner, author, row));
    db.books := found.0;
    if "book_tags" !in row {
      return Failed(UndefinedKey("book_tags"));
    }
    SyncTagField(db, BookEntity(found.1), row["book_tags"]);
    if "author_tags" !in row {
      return Failed(UndefinedKey("author_tags"));
    }
    SyncTagField(db, AuthorEntity(author), row["author_tags"]);
    o := if found.2 then Created(found.1) else Skipped(found.1);
  }

  /** `validateCsvStructure`: the emptiness check, then the required columns in order. */
  method ValidateCsvStructure(records: seq<Csv.Record>) returns (r: Option<ImportError>)
    ensures r == StructureError(records)
  {
    if |records| == 0 || records[0] == map[] {
      return Some(CsvEmpty);
    }
    var first := records[0];
    for i := 0 to |RequiredColumns|
      invariant forall j :: 0 <= j < i ==> RequiredColumns[j] in first
    {
      if RequiredColumns[i] !in first {
        return Some(MissingColumn(RequiredColumns[i]));
      }
    }
    return None;
  }

  /** The counters of `importFromCsv` for one row: `total`, then `created`, `skipped` or `failed` with its error entry. */
  method CountRow(results: ImportResult, bookData: Csv.Record, outcome: RowOutcome) returns (r: ImportResult)
    ensures r == Tally(results, bookData, outcome)
  {
    r := results.(total := results.total + 1);
    match outcome {
      case Created(_) =>
        r := r.(created := r.created + 1);
      case Skipped(_) =>
        r := r.(skipped := r.skipped + 1);
      case Failed(err) =>
        r := r.(failed := r.failed + 1, errors := r.errors + [RowFailure(bookData, err)]);
    }
  }

  /** The loop of `importFromCsv`: every row in file order, keeping the tally. */
  method ImportRows(db: Database, owner: UserId, records: seq<Csv.Record>) returns (results: ImportResult)
    modifies db
    ensures db.View() == Run(old(db.View()), owner, records).0
    ensures results == Summarize(records, Run(old(db.View()), owner, records).1)
  {
    results := ImportResult(0, 0, 0, 0, []);
    ghost var start := db.View();
    ghost var outs: seq<RowOutcome> := [];
    for i := 0 to |records|
      invariant db.View() == Run(start, owner, records[..i]).0
      invariant outs == Run(start, owner, records[..i]).1
      invariant results == Summarize(records[..i], outs)
    {
      RunRow(start, owner, records, i);
      var bookData := records[i];
      var outcome := ImportBook(db, owner, bookData);
      SummarizeAppend(records[..i], outs, bookData, outcome);
      results := CountRow(results, bookData, outcome);
      outs := outs + [outcome];
      assert records[..i + 1] == records[..i] + [bookData];
    }
    assert records[..|records|] == records;
  }

  /**
   * `importFromCsv`: the file checks, the records, the structure check, and
   * then the rows.
   */
  method ImportFromCsv(db: Database, fileExists: bool, readable: bool, lines: seq<Csv.Line>, owner: UserId)
    returns (r: Result<ImportResult, ImportError>)
    modifies db
    ensures (db.View(), r) == Import(old(db.View()), fileExists, readable, lines, owner)
  {
    var fileError := CheckFile(fileExists, readable);
    if fileError.Some? {
      return Failure(fileError.value);
    }
    var books := Csv.FromCsv(lines);
    if books.Failure? {
      return Failure(MalformedCsv(books.error));
    }
    var structureError := ValidateCsvStructure(books.value);
    if structureError.Some? {
      return Failure(structureError.value);
    }
    var results := ImportRows(db, owner, books.value);
    return Success(results);
  }
}
