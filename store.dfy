/**
 * The relational store behind the Eloquent models Author, Book, Tag and
 * Checkout and the polymorphic `taggables` pivot table. Every table is a
 * sequence of rows, as auto-increment ids are handed out in insertion
 * order. Authors, books and checkouts are referred to by position. Tag ids
 * are visible to callers, who may name a tag by its id, so they are the
 * database's own: the tag at position `p` has id `p + 1`.
 */
module Store {
  import opened Wrappers

  type UserId = int
  type AuthorId = nat
  type BookId = nat
  type TagId = int
  type CheckoutId = nat

  /** A row of `books`; every column but the id belongs to the natural key. */
  datatype Book = Book(owner: UserId, author: AuthorId, title: string, isbn13: string, pageCount: string)

  /** A taggable model: a book or an author. */
  datatype Entity = BookEntity(book: BookId) | AuthorEntity(author: AuthorId)

  /** A row of the `taggables` pivot table. */
  datatype Link = Link(entity: Entity, tag: TagId)

  /** A row of `checkouts`; times are seconds on the server clock. */
  datatype Checkout = Checkout(user: UserId, book: BookId, checkedOutAt: int, dueAt: int, returnedAt: Option<int>)

  /** The contents of every table: authors and tags are stored by name. */
  datatype Tables = Tables(
    authors: seq<string>,
    books: seq<Book>,
    tags: seq<string>,
    links: seq<Link>,
    checkouts: seq<Checkout>)

  predicate NoDuplicates<T(==)>(xs: seq<T>)
  {
    forall i, j :: 0 <= i < j < |xs| ==> xs[i] != xs[j]
  }

  /** A checkout is active while it has not been returned. */
  predicate Active(c: Checkout)
  {
    c.returnedAt.None?
  }

  /** No book has two active checkouts. */
  predicate SingleActive(cs: seq<Checkout>)
  {
    forall i, j :: 0 <= i < j < |cs| && cs[i].book == cs[j].book ==> !Active(cs[i]) || !Active(cs[j])
  }

  /** One author per name, one book per natural key, one tag per name, one active checkout per book. */
  predicate UniqueRows(t: Tables)
  {
    && NoDuplicates(t.authors)
    && NoDuplicates(t.books)
    && NoDuplicates(t.tags)
    && SingleActive(t.checkouts)
  }

  /** The store's invariant: unique rows, and no repeated pivot row. */
  predicate Valid(t: Tables)
  {
    UniqueRows(t) && NoDuplicates(t.links)
  }

  /** Two duplicate-free sequences with no common element concatenate to a duplicate-free one. */
  lemma NoDuplicatesConcat<T>(a: seq<T>, b: seq<T>)
    requires NoDuplicates(a) && NoDuplicates(b)
    requires forall x :: x in a ==> x !in b
    ensures NoDuplicates(a + b)
  {
    forall i, j | 0 <= i < j < |a + b| ensures (a + b)[i] != (a + b)[j] {
      if j < |a| {
        assert (a + b)[i] == a[i] && (a + b)[j] == a[j];
      } else if i < |a| {
        assert (a + b)[j] == b[j - |a|] && (a + b)[i] == a[i];
        assert a[i] in a;
      } else {
        assert (a + b)[j] == b[j - |a|] && (a + b)[i] == b[i - |a|];
      }
    }
  }

  /** The position of the first row equal to `x`, as `where(...)->first()` finds it. */
  function IndexOf<T(==)>(xs: seq<T>, x: T): (r: Option<nat>)
    ensures r.Some? ==> r.value < |xs| && xs[r.value] == x
    ensures r.Some? ==> forall j :: 0 <= j < r.value ==> xs[j] != x
    ensures r.None? <==> x !in xs
    decreases |xs|
  {
    if |xs| == 0 then None
    else if xs[0] == x then Some(0)
    else match IndexOf(xs[1..], x)
      case None => None
      case Some(i) => Some(i + 1)
  }

  /**
   * Eloquent's firstOrCreate on a table whose rows are compared whole:
   * the first matching row, or a new row appended at the end. Returns the
   * new table, the row's id and whether it was created.
   */
  function FirstOrCreate<T(==)>(table: seq<T>, x: T): (r: (seq<T>, nat, bool))
    ensures r.1 < |r.0| && r.0[r.1] == x
    ensures forall j :: 0 <= j < r.1 ==> r.0[j] != x
    ensures table <= r.0 && |r.0| <= |table| + 1
    ensures r.2 <==> x !in table
    ensures !r.2 ==> r.0 == table
    ensures NoDuplicates(table) ==> NoDuplicates(r.0)
  {
    match IndexOf(table, x)
    case Some(i) => (table, i, false)
    case None => (table + [x], |table|, true)
  }

  /** A row found in a table is found at the same place once the table has grown. */
  lemma IndexOfExtended<T>(a: seq<T>, b: seq<T>, x: T)
    requires a <= b && x in a
    ensures IndexOf(b, x) == IndexOf(a, x)
  {
    var i := IndexOf(a, x).value;
    assert b[i] == x;
    var j := IndexOf(b, x).value;
    assert j <= i;
    assert j < |a| && a[j] == b[j];
  }

  /** A second firstOrCreate of the same row finds the row the first one returned. */
  lemma FirstOrCreateAgain<T>(table: seq<T>, x: T)
    ensures var r := FirstOrCreate(table, x);
            FirstOrCreate(r.0, x) == (r.0, r.1, false)
  {
    var r := FirstOrCreate(table, x);
    assert x in r.0;
    var i := IndexOf(r.0, x).value;
    assert i <= r.1 && r.0[i] == x;
  }

  /** The database: one field per table, each reassigned by the operations. */
  class Database {
    var authors: seq<string>
    var books: seq<Book>
    var tags: seq<string>
    var links: seq<Link>
    var checkouts: seq<Checkout>

    constructor ()
      ensures View() == Tables([], [], [], [], [])
    {
      authors, books, tags, links, checkouts := [], [], [], [], [];
    }

    function View(): Tables
      reads this
    {
      Tables(authors, books, tags, links, checkouts)
    }
  }
}
