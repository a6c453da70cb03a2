/**
 * How the front end and the book API fit together: what the form sends is
 * what `add_book` accepts, and the front end's local delete leaves on screen
 * exactly the rows the server keeps.
 */
module ClientServer {
  import opened Wrappers
  import opened Json
  import opened JsText
  import opened BookModel
  import opened BookRoutes
  import opened AddBookForm
  import opened LibraryApp

  /** The dictionaries a client-side list holds, regardless of order. */
  ghost function Shown(books: seq<Object>): set<Object>
  {
    set b | b in books
  }

  /**
   * Every payload the form submits passes `add_book`'s validation, and the
   * row the server builds from it carries the trimmed title and author as
   * strings, the ISBN and the year or null, and satisfies the NOT NULL
   * constraints.
   */
  lemma SubmittedPayloadIsAccepted(title: string, author: string, isbn: string, year: string, id: int)
    requires NewBookData(title, author, isbn, year).Some?
    ensures var p := NewBookData(title, author, isbn, year).value;
      && HasRequiredKeys(Some(ToJson(p)))
      && NewRow(ToJson(p), id).title == Str(Trim(title))
      && NewRow(ToJson(p), id).author == Str(Trim(author))
      && NewRow(ToJson(p), id).isbn == (if Trim(isbn) == [] then Null else Str(Trim(isbn)))
      && NewRow(ToJson(p), id).publicationYear == (if YearValue(year).Some? then Num(YearValue(year).value) else Null)
      && RequiredPresent(NewRow(ToJson(p), id))
  {
    var p := NewBookData(title, author, isbn, year).value;
    assert "title" in ToJson(p);
  }

  /** A dictionary the server serves carries the id of its row. */
  lemma ServedId(rows: map<int, Book>, k: int)
    requires KeyedById(rows) && k in rows
    ensures HasId(ToDict(rows[k]), Num(k))
  {
  }

  /**
   * If the screen shows exactly the server's rows, then after a successful
   * DELETE of `id` the locally filtered list shows exactly the rows the
   * server has left: the front end needs no reload.
   */
  lemma ClientDeleteMirrorsServer(rows: map<int, Book>, books: seq<Object>, id: int)
    requires KeyedById(rows)
    requires Shown(books) == Listed(rows)
    ensures Shown(WithoutBook(books, Num(id))) == Listed(rows - {id})
  {
    forall d | d in Shown(WithoutBook(books, Num(id)))
      ensures d in Listed(rows - {id})
    {
      WithoutBookMembership(books, Num(id), d);
      assert d in Listed(rows);
      var k :| k in rows && d == ToDict(rows[k]);
      assert k != id;
      assert k in rows - {id};
    }
    forall d | d in Listed(rows - {id})
      ensures d in Shown(WithoutBook(books, Num(id)))
    {
      var k :| k in rows - {id} && d == ToDict(rows[k]);
      assert d in Listed(rows);
      assert !HasId(d, Num(id));
      WithoutBookMembership(books, Num(id), d);
    }
  }

  /** A fresh listing shows exactly the server's rows. */
  lemma ListingIsShown(rows: map<int, Book>, list: seq<Object>)
    requires forall i :: 0 <= i < |list| ==> list[i] in Listed(rows)
    requires forall k :: k in rows ==> ToDict(rows[k]) in list
    ensures Shown(list) == Listed(rows)
  {
    forall d | d in Listed(rows)
      ensures d in Shown(list)
    {
      var k :| k in rows && d == ToDict(rows[k]);
    }
  }
}
