/**
 * The lending rules of BookController: a book can be checked out while it
 * has no active checkout, for two weeks; a checkout can be returned once,
 * and only by its borrower. Time is a server clock in whole seconds.
 */
module Checkouts {
  import opened Wrappers
  import opened Store

  /** `now()->addWeeks(2)`, in seconds. */
  const TwoWeeks: int := 14 * 24 * 60 * 60

  datatype CheckoutError = AlreadyCheckedOut
  datatype ReturnError = NotBorrower | AlreadyReturned

  /** `$book->activeCheckout`: the book's checkout that has not been returned. */
  function ActiveCheckoutOf(cs: seq<Checkout>, book: BookId): (r: Option<CheckoutId>)
    ensures r.Some? ==> r.value < |cs| && cs[r.value].book == book && Active(cs[r.value])
    ensures r.None? <==> forall i :: 0 <= i < |cs| && cs[i].book == book ==> !Active(cs[i])
    decreases |cs|
  {
    if |cs| == 0 then None
    else
      var n := |cs| - 1;
      if cs[n].book == book && Active(cs[n]) then Some(n)
      else
        var p := ActiveCheckoutOf(cs[..n], book);
        assert forall i :: 0 <= i < n ==> cs[..n][i] == cs[i];
        p
  }

  /** The indices of the book's active checkouts. */
  function ActiveIds(cs: seq<Checkout>, book: BookId): set<CheckoutId>
  {
    set i: CheckoutId | i < |cs| && cs[i].book == book && Active(cs[i])
  }

  /**
   * `checkout`: refused while the book has an active checkout; otherwise a
   * new checkout for the requester, due two weeks from now, is appended.
   */
  function CheckOut(cs: seq<Checkout>, user: UserId, book: BookId, now: int): (r: (seq<Checkout>, Result<CheckoutId, CheckoutError>))
    ensures r.1.Failure? <==> exists i :: 0 <= i < |cs| && cs[i].book == book && Active(cs[i])
    ensures r.1.Failure? ==> r.0 == cs && r.1.error == AlreadyCheckedOut
    ensures r.1.Success? ==> r.1.value == |cs| && |r.0| == |cs| + 1 && r.0[..|cs|] == cs
    ensures r.1.Success? ==> r.0[|cs|] == Checkout(user, book, now, now + TwoWeeks, None)
    ensures r.1.Success? ==> r.0[|cs|].dueAt - r.0[|cs|].checkedOutAt == TwoWeeks
    ensures r.1.Success? ==> ActiveIds(r.0, book) == {|cs|}
    ensures SingleActive(cs) ==> SingleActive(r.0)
  {
    if ActiveCheckoutOf(cs, book).Some? then (cs, Failure(AlreadyCheckedOut))
    else
      var c := Checkout(user, book, now, now + TwoWeeks, None);
      var r := cs + [c];
      assert ActiveIds(r, book) == {|cs|} by {
        forall i: CheckoutId ensures i in ActiveIds(r, book) <==> i == |cs| {
          if i < |cs| {
            assert r[i] == cs[i];
          }
        }
      }
      (r, Success(|cs|))
  }

  /**
   * A refused checkout leaves exactly one active checkout of the book, as
   * there was one before and the store allows no more than one.
   */
  lemma RefusedLeavesOneActive(cs: seq<Checkout>, user: UserId, book: BookId, now: int)
    requires SingleActive(cs)
    requires CheckOut(cs, user, book, now).1.Failure?
    ensures |ActiveIds(CheckOut(cs, user, book, now).0, book)| == 1
  {
    var j := ActiveCheckoutOf(cs, book).value;
    assert ActiveIds(cs, book) == {j} by {
      forall i: CheckoutId | i in ActiveIds(cs, book) ensures i == j {
      }
    }
  }

  /** The owner of a book is not barred from borrowing it: only an active checkout refuses. */
  lemma OwnerMayCheckOut(t: Tables, book: BookId, now: int)
    requires book < |t.books|
    requires forall i :: 0 <= i < |t.checkouts| && t.checkouts[i].book == book ==> !Active(t.checkouts[i])
    ensures CheckOut(t.checkouts, t.books[book].owner, book, now).1 == Success(|t.checkouts|)
  {
  }

  /**
   * `return`: refused unless the requester is the borrower, then refused if
   * it was returned already; otherwise its return time becomes now.
   */
  function Return(cs: seq<Checkout>, user: UserId, id: CheckoutId, now: int): (r: (seq<Checkout>, Result<(), ReturnError>))
    requires id < |cs|
    ensures r.1 == Failure(NotBorrower) <==> cs[id].user != user
    ensures r.1 == Failure(AlreadyReturned) <==> cs[id].user == user && !Active(cs[id])
    ensures r.1.Failure? ==> r.0 == cs
    ensures r.1.Success? ==> |r.0| == |cs| && r.0[id] == cs[id].(returnedAt := Some(now))
    ensures r.1.Success? ==> forall i :: 0 <= i < |cs| && i != id ==> r.0[i] == cs[i]
    ensures SingleActive(cs) ==> SingleActive(r.0)
  {
    if cs[id].user != user then (cs, Failure(NotBorrower))
    else if cs[id].returnedAt.Some? then (cs, Failure(AlreadyReturned))
    else (cs[id := cs[id].(returnedAt := Some(now))], Success(()))
  }

  /**
   * After a successful return the book has no active checkout, so anyone
   * may check it out again.
   */
  lemma ReturnFreesBook(cs: seq<Checkout>, user: UserId, id: CheckoutId, now: int, next: UserId, later: int)
    requires id < |cs| && SingleActive(cs)
    requires Return(cs, user, id, now).1.Success?
    ensures var after := Return(cs, user, id, now).0;
      && ActiveIds(after, cs[id].book) == {}
      && CheckOut(after, next, cs[id].book, later).1 == Success(|cs|)
  {
    var after := Return(cs, user, id, now).0;
    var book := cs[id].book;
    forall i | 0 <= i < |after| && after[i].book == book ensures !Active(after[i]) {
      if i != id {
        assert after[i] == cs[i];
        if i < id {
          assert cs[i].book == cs[id].book;
        } else {
          assert cs[id].book == cs[i].book;
        }
      }
    }
    assert ActiveIds(after, book) == {};
  }

  /** `checkout` on the database: the book exists, as route binding guarantees. */
  method CheckOutBook(db: Database, user: UserId, book: BookId, now: int) returns (r: Result<CheckoutId, CheckoutError>)
    requires book < |db.books|
    modifies db
    ensures (db.checkouts, r) == CheckOut(old(db.checkouts), user, book, now)
    ensures db.View() == old(db.View()).(checkouts := db.checkouts)
  {
    if ActiveCheckoutOf(db.checkouts, book).Some? {
      return Failure(AlreadyCheckedOut);
    }
    r := Success(|db.checkouts|);
    db.checkouts := db.checkouts + [Checkout(user, book, now, now + TwoWeeks, None)];
  }

  /** `return` on the database: the checkout exists, as route binding guarantees. */
  method ReturnCheckout(db: Database, user: UserId, id: CheckoutId, now: int) returns (r: Result<(), ReturnError>)
    requires id < |db.checkouts|
    modifies db
    ensures (db.checkouts, r) == Return(old(db.checkouts), user, id, now)
    ensures db.View() == old(db.View()).(checkouts := db.checkouts)
  {
    if db.checkouts[id].user != user {
      return Failure(NotBorrower);
    }
    if db.checkouts[id].returnedAt.Some? {
      return Failure(AlreadyReturned);
    }
    db.checkouts := db.checkouts[id := db.checkouts[id].(returnedAt := Some(now))];
    r := Success(());
  }
}
