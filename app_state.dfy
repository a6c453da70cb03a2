/**
 * The library front end's top-level state: the list of books on screen, the
 * loading flag and the error message, and the three handlers that load,
 * add and delete books through the back end.
 */
module LibraryApp {
  import opened Wrappers
  import opened Json
  import opened Decimal
  import opened JsText
  import opened Seqs

  /**
   * How a request to the back end ended: an HTTP answer (`response.ok`,
   * `response.status`, `response.statusText` and the list the body parses
   * to), or an exception thrown by `fetch` or by reading the body.
   */
  datatype Reply = Answered(ok: bool, status: int, statusText: string, data: seq<Object>) | Threw(message: string)

  const ErrorPrefix := "Chyba "
  const LoadFailedText := "Nepodařilo se načíst knihy"
  const AddFailedText := "Nepodařilo se přidat knihu"
  const DeleteFailedText := "Nepodařilo se smazat knihu"

  /** The message of the `Error` each handler throws for an unsuccessful status: `Chyba <status>: <detail>`. */
  function StatusError(status: int, detail: string): (m: string)
    ensures |m| == |ErrorPrefix| + |ShowInt(status)| + 2 + |detail|
  {
    ErrorPrefix + ShowInt(status) + ": " + detail
  }

  /**
   * The loading error names the status text, or a fixed sentence when the
   * status text is empty: after the prefix and the status there is always a
   * non-empty explanation.
   */
  function LoadError(status: int, statusText: string): (m: string)
    ensures |m| > |ErrorPrefix| + |ShowInt(status)| + 2
    ensures m[..|ErrorPrefix|] == ErrorPrefix
  {
    StatusError(status, if statusText == "" then LoadFailedText else statusText)
  }

  /**
   * `book.id === id`: the book has an id member equal to the given value. A
   * book without an id member matches no id.
   */
  predicate HasId(book: Object, id: Value)
    ensures "id" !in book ==> !HasId(book, id)
  {
    "id" in book && book["id"] == id
  }

  /** A book matches one id at most, so a delete by one id never removes a book listed under another. */
  lemma HasIdUnique(book: Object, id: Value, other: Value)
    requires HasId(book, id) && HasId(book, other)
    ensures id == other
  {
  }

  /** `books.filter(book => book.id !== id)`: never longer, and no survivor carries the id. */
  function WithoutBook(books: seq<Object>, id: Value): (r: seq<Object>)
    ensures |r| <= |books|
    ensures forall i :: 0 <= i < |r| ==> !HasId(r[i], id)
  {
    FilterAllKept(books, (b: Object) => !HasId(b, id));
    Filter(books, (b: Object) => !HasId(b, id))
  }

  /**
   * The delete handler treats an ok answer and a 204 answer alike as success;
   * an exception is never a success.
   */
  predicate DeleteSucceeded(reply: Reply)
    ensures reply.Answered? && reply.status == 204 ==> DeleteSucceeded(reply)
    ensures reply.Threw? ==> !DeleteSucceeded(reply)
  {
    reply.Answered? && (reply.ok || reply.status == 204)
  }

  /**
   * The message the user sees when a handler's request failed: an exception
   * shows its own message; an unsuccessful answer shows "Chyba ", the status
   * (which `parseInt` reads back) and ": " followed by the detail.
   */
  function FailureMessage(reply: Reply, detail: string): (m: string)
    ensures reply.Threw? ==> m == reply.message
    ensures reply.Answered? ==>
      && |m| == |ErrorPrefix| + |ShowInt(reply.status)| + 2 + |detail|
      && m[..|ErrorPrefix|] == ErrorPrefix
      && ParseInt(m[|ErrorPrefix|..]) == Finite(reply.status)
      && m[|m| - |detail| - 2..] == ": " + detail
  {
    if reply.Threw? then reply.message
    else
      StatusErrorCarriesStatus(reply.status, detail);
      StatusError(reply.status, detail)
  }

  /**
   * A status error message reads back as its parts: it starts with "Chyba ",
   * `parseInt` of the rest is the status, and it ends with ": " and the detail.
   */
  lemma StatusErrorCarriesStatus(status: int, detail: string)
    ensures var m := StatusError(status, detail);
      && m[..|ErrorPrefix|] == ErrorPrefix
      && ParseInt(m[|ErrorPrefix|..]) == Finite(status)
      && m[|m| - |detail| - 2..] == ": " + detail
  {
    StatusErrorParts(status, detail);
    var m := StatusError(status, detail);
    var rest := ": " + detail;
    assert rest[0] == ':';
    ParseIntOfShowInt(status, rest);
  }

  /** Where the prefix, the status and the detail sit in a status error message. */
  lemma StatusErrorParts(status: int, detail: string)
    ensures var m := StatusError(status, detail);
      && m[..|ErrorPrefix|] == ErrorPrefix
      && m[|ErrorPrefix|..] == ShowInt(status) + (": " + detail)
      && m[|m| - |detail| - 2..] == ": " + detail
  {
    var m := StatusError(status, detail);
    var rest := ": " + detail;
    assert m == ErrorPrefix + (ShowInt(status) + rest);
    assert m[|m| - |rest|..] == rest;
  }

  /** Two status error messages are equal only for the same status and the same detail. */
  lemma StatusErrorInjective(s1: int, d1: string, s2: int, d2: string)
    ensures StatusError(s1, d1) == StatusError(s2, d2) ==> s1 == s2 && d1 == d2
  {
    if StatusError(s1, d1) == StatusError(s2, d2) {
      var m := StatusError(s1, d1);
      StatusErrorCarriesStatus(s1, d1);
      StatusErrorCarriesStatus(s2, d2);
      assert ParseInt(m[|ErrorPrefix|..]) == Finite(s1) == Finite(s2);
      assert d1 == m[|m| - |d1|..];
      assert d2 == m[|m| - |d2|..];
    }
  }

  /** A book survives a delete exactly when it was listed and does not carry the deleted id. */
  lemma WithoutBookMembership(books: seq<Object>, id: Value, b: Object)
    ensures b in WithoutBook(books, id) <==> b in books && !HasId(b, id)
  {
    FilterMembership(books, (b: Object) => !HasId(b, id), b);
  }

  /** Deleting an id no book carries leaves the list as it was. */
  lemma WithoutAbsentId(books: seq<Object>, id: Value)
    requires forall i :: 0 <= i < |books| ==> !HasId(books[i], id)
    ensures WithoutBook(books, id) == books
  {
    FilterKeepsAll(books, (b: Object) => !HasId(b, id));
  }

  /** Deleting the same id twice has the effect of deleting it once. */
  lemma WithoutBookIdempotent(books: seq<Object>, id: Value)
    ensures WithoutBook(WithoutBook(books, id), id) == WithoutBook(books, id)
  {
    FilterIdempotent(books, (b: Object) => !HasId(b, id));
  }

  /** When exactly one listed book carries the id, that one goes and the others keep their order. */
  lemma WithoutUniqueId(books: seq<Object>, id: Value, k: nat)
    requires k < |books| && HasId(books[k], id)
    requires forall i :: 0 <= i < |books| && i != k ==> !HasId(books[i], id)
    ensures WithoutBook(books, id) == books[..k] + books[k + 1..]
  {
    FilterDropsOne(books, (b: Object) => !HasId(b, id), k);
  }

  /** The `App` component's state. */
  class App {
    var books: seq<Object>
    var loading: bool
    var error: Option<string>

    /** `useState([])`, `useState(true)`, `useState(null)`: no books, loading, no error. */
    constructor ()
      ensures books == [] && loading && error == None
    {
      books, loading, error := [], true, None;
    }

    /** The synchronous start of `fetchBooks`: loading, and any earlier error cleared. */
    method BeginFetch()
      modifies this
      ensures books == old(books) && loading && error == None
    {
      loading := true;
      error := None;
    }

    /**
     * The rest of `fetchBooks`, once the request has ended: the answer's list
     * replaces the books on an ok answer; otherwise the books stay and the
     * error is set. Loading ends in every case (`finally`).
     */
    method FinishFetch(reply: Reply)
      modifies this
      ensures !loading
      ensures reply.Answered? && reply.ok ==> books == reply.data && error == old(error)
      ensures reply.Answered? && !reply.ok ==>
        books == old(books) && error == Some(LoadError(reply.status, reply.statusText))
      ensures reply.Threw? ==> books == old(books) && error == Some(reply.message)
    {
      if reply.Threw? {
        error := Some(reply.message);
      } else if !reply.ok {
        error := Some(LoadError(reply.status, reply.statusText));
      } else {
        books := reply.data;
      }
      loading := false;
    }

    /** A whole `fetchBooks` with nothing else happening between its start and its end. */
    method FetchBooks(reply: Reply)
      modifies this
      ensures !loading
      ensures reply.Answered? && reply.ok ==> books == reply.data && error == None
      ensures reply.Answered? && !reply.ok ==>
        books == old(books) && error == Some(LoadError(reply.status, reply.statusText))
      ensures reply.Threw? ==> books == old(books) && error == Some(reply.message)
    {
      BeginFetch();
      FinishFetch(reply);
    }

    /**
     * `handleAddBook` once its POST has ended: on an ok answer it starts a
     * new `fetchBooks` (`refetch`, whose answer `FinishFetch` takes later);
     * otherwise it sets the error. It never changes the books itself.
     */
    method HandleAddBook(reply: Reply) returns (refetch: bool)
      modifies this
      ensures refetch <==> reply.Answered? && reply.ok
      ensures books == old(books)
      ensures refetch ==> loading && error == None
      ensures !refetch ==> loading == old(loading) && error == Some(FailureMessage(reply, AddFailedText))
    {
      if reply.Answered? && reply.ok {
        BeginFetch();
        return true;
      }
      error := Some(FailureMessage(reply, AddFailedText));
      refetch := false;
    }

    /**
     * `handleDeleteBook(id)`: without the user's confirmation nothing is sent
     * and nothing changes; otherwise (`requested`) a success removes every
     * book carrying the id from the books as they are when the answer
     * arrives, and a failure sets the error. Loading is never touched.
     */
    method HandleDeleteBook(id: Value, confirmed: bool, reply: Reply) returns (requested: bool)
      modifies this
      ensures requested == confirmed
      ensures loading == old(loading)
      ensures !confirmed ==> books == old(books) && error == old(error)
      ensures confirmed && DeleteSucceeded(reply) ==> books == WithoutBook(old(books), id) && error == old(error)
      ensures confirmed && !DeleteSucceeded(reply) ==>
        books == old(books) && error == Some(FailureMessage(reply, DeleteFailedText))
    {
      if !confirmed {
        return false;
      }
      requested := true;
      if DeleteSucceeded(reply) {
        books := WithoutBook(books, id);
      } else {
        error := Some(FailureMessage(reply, DeleteFailedText));
      }
    }
  }
}
