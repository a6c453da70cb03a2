/**
 * The "add a book" form of the library front end: four text fields, and a
 * submit handler that validates them, builds the request payload and clears
 * the form.
 */
module AddBookForm {
  import opened Wrappers
  import opened Json
  import opened Decimal
  import opened JsText

  /** The object handed to `onAddBook`. */
  datatype NewBook = NewBook(title: string, author: string, isbn: Option<string>, publicationYear: Option<int>)

  const ValidationAlert := "Prosím vyplňte alespoň název a autora knihy."

  /**
   * `isbn.trim() || null`: the trimmed text, or null when nothing is left,
   * which is exactly when the field is white space only.
   */
  function IsbnValue(raw: string): (r: Option<string>)
    ensures r.None? <==> forall k :: 0 <= k < |raw| ==> IsWhiteSpace(raw[k])
    ensures r.Some? ==> r.value != [] && |r.value| <= |raw|
  {
    TrimEmptyIffBlank(raw);
    var t := Trim(raw);
    if t == [] then None else Some(t)
  }

  /**
   * `year.trim() ? parseInt(year.trim(), 10) || null : null`: null for a blank
   * field, and also for a NaN or zero `parseInt` result.
   */
  function YearValue(raw: string): (y: Option<int>)
    ensures (forall k :: 0 <= k < |raw| ==> IsWhiteSpace(raw[k])) ==> y.None?
    ensures y.Some? ==> y.value != 0 && ParseInt(Trim(raw)) == Finite(y.value)
    ensures Truthy(ParseInt(Trim(raw))) ==> y == Some(ParseInt(Trim(raw)).value)
  {
    var t := Trim(raw);
    if t == [] then None
    else
      var n := ParseInt(t);
      if Truthy(n) then Some(n.value) else None
  }

  /**
   * The submit handler's validation and payload: None when title or author is
   * blank after trimming. An accepted payload has a non-empty title and author
   * no longer than typed, a non-empty ISBN or none, and a non-zero year or none.
   */
  function NewBookData(title: string, author: string, isbn: string, year: string): (r: Option<NewBook>)
    ensures r.None? <==> Trim(title) == [] || Trim(author) == []
    ensures r.Some? ==>
      && r.value.title != [] && |r.value.title| <= |title|
      && r.value.author != [] && |r.value.author| <= |author|
      && (r.value.isbn.Some? ==> r.value.isbn.value != [])
      && (r.value.publicationYear.Some? ==> r.value.publicationYear.value != 0)
  {
    if Trim(title) == [] || Trim(author) == [] then None
    else Some(NewBook(Trim(title), Trim(author), IsbnValue(isbn), YearValue(year)))
  }

  /** The payload as `JSON.stringify` sends it: exactly four members, null for the absent ones. */
  function ToJson(p: NewBook): (o: Object)
    ensures o.Keys == {"title", "author", "isbn", "publication_year"}
    ensures o["title"] == Str(p.title) && o["author"] == Str(p.author)
    ensures o["isbn"] == Null <==> p.isbn.None?
    ensures o["publication_year"] == Null <==> p.publicationYear.None?
  {
    map[
      "title" := Str(p.title),
      "author" := Str(p.author),
      "isbn" := if p.isbn.Some? then Str(p.isbn.value) else Null,
      "publication_year" := if p.publicationYear.Some? then Num(p.publicationYear.value) else Null
    ]
  }

  /** What a submit does besides changing the fields. */
  datatype SubmitEffect = Alerted(message: string) | AddRequested(payload: NewBook)

  /** The form component's state: the four controlled input values. */
  class Form {
    var title: string
    var author: string
    var isbn: string
    var publicationYear: string

    /** All four fields start empty (`useState('')`). */
    constructor ()
      ensures title == "" && author == "" && isbn == "" && publicationYear == ""
    {
      title, author, isbn, publicationYear := "", "", "", "";
    }

    /**
     * `handleSubmit`: an invalid form raises the alert and keeps its fields;
     * a valid one calls `onAddBook` once with the payload and then clears
     * all four fields, whatever becomes of the request.
     */
    method HandleSubmit() returns (effect: SubmitEffect)
      modifies this
      ensures var p := NewBookData(old(title), old(author), old(isbn), old(publicationYear));
        && (p.None? ==> effect == Alerted(ValidationAlert) && unchanged(this))
        && (p.Some? ==> effect == AddRequested(p.value)
                        && title == "" && author == "" && isbn == "" && publicationYear == "")
    {
      var payload := NewBookData(title, author, isbn, publicationYear);
      if payload.None? {
        return Alerted(ValidationAlert);
      }
      effect := AddRequested(payload.value);
      Clear();
    }

    /** The four setters `setTitle('')` ... `setPublicationYear('')`. */
    method Clear()
      modifies this
      ensures title == "" && author == "" && isbn == "" && publicationYear == ""
    {
      title, author, isbn, publicationYear := "", "", "", "";
    }
  }

  /** The form is rejected exactly when the title or the author is empty or white space only. */
  lemma RejectsBlankTitleOrAuthor(title: string, author: string, isbn: string, year: string)
    ensures NewBookData(title, author, isbn, year).None? <==>
      (forall k :: 0 <= k < |title| ==> IsWhiteSpace(title[k])) ||
      (forall k :: 0 <= k < |author| ==> IsWhiteSpace(author[k]))
  {
    TrimEmptyIffBlank(title);
    TrimEmptyIffBlank(author);
  }

  /**
   * An accepted payload carries the trimmed title and author, both non-empty
   * and free of surrounding white space, and an ISBN that is either null or
   * non-empty trimmed text.
   */
  lemma AcceptedPayloadIsTrimmed(title: string, author: string, isbn: string, year: string)
    requires NewBookData(title, author, isbn, year).Some?
    ensures var p := NewBookData(title, author, isbn, year).value;
      && p.title == Trim(title) && p.title != [] && Trim(p.title) == p.title
      && p.author == Trim(author) && p.author != [] && Trim(p.author) == p.author
      && (p.isbn.Some? ==> p.isbn.value == Trim(isbn) && p.isbn.value != [] && Trim(p.isbn.value) == p.isbn.value)
      && (p.isbn.None? <==> Trim(isbn) == [])
  {
    TrimIdempotent(title);
    TrimIdempotent(author);
    TrimIdempotent(isbn);
  }

  /**
   * A year typed as a decimal integer, with any surrounding white space, is
   * sent as that integer, except that zero becomes null (`0 || null`).
   */
  lemma YearOfDecimal(n: int, before: string, after: string)
    requires forall k :: 0 <= k < |before| ==> IsWhiteSpace(before[k])
    requires forall k :: 0 <= k < |after| ==> IsWhiteSpace(after[k])
    ensures YearValue(before + ShowInt(n) + after) == if n == 0 then None else Some(n)
  {
    var digits := ShowInt(n);
    ShowIntUnpadded(n);
    TrimOfPadded(before, digits, after);
    ParseIntOfShowInt(n, []);
    assert digits + [] == digits;
  }

  /**
   * Year text whose first character after the leading white space is neither
   * a digit nor a sign is sent as null; a blank field is sent as null too.
   */
  lemma {:induction false} YearOfNonNumeric(raw: string)
    requires Trim(raw) != [] ==> !IsDigit(Trim(raw)[0]) && Trim(raw)[0] != '+' && Trim(raw)[0] != '-'
    ensures YearValue(raw) == None
  {
    TrimEdges(raw);
    if Trim(raw) != [] {
      TrimStartOfUnpadded(Trim(raw));
    }
  }

  /** 1965 is written "1965". */
  lemma ShowInt1965()
    ensures ShowInt(1965) == "1965"
  {
    assert ShowNat(1) == "1";
    assert ShowNat(19) == "19";
    assert ShowNat(196) == "196";
  }

  /** The year text "1965" is sent as the integer 1965. */
  lemma YearOf1965()
    ensures YearValue("1965") == Some(1965)
  {
    ShowInt1965();
    YearOfDecimal(1965, [], []);
    assert [] + ShowInt(1965) + [] == ShowInt(1965);
  }

  /** The year text "abc" is sent as null. */
  lemma YearOfAbc()
    ensures YearValue("abc") == None
  {
    YearOfNonNumeric("abc");
  }

  /** The year text "0" is sent as null, since `0 || null` is null. */
  lemma YearOfZero()
    ensures YearValue("0") == None
  {
    assert ShowInt(0) == "0";
    YearOfDecimal(0, [], []);
    assert [] + "0" + [] == "0";
  }

  /** Title and author typed without surrounding white space are sent as typed. */
  lemma {:induction false} AcceptsUnpadded(title: string, author: string, isbn: string, year: string)
    requires title != [] && !IsWhiteSpace(title[0]) && !IsWhiteSpace(title[|title| - 1])
    requires author != [] && !IsWhiteSpace(author[0]) && !IsWhiteSpace(author[|author| - 1])
    ensures NewBookData(title, author, isbn, year) == Some(NewBook(title, author, IsbnValue(isbn), YearValue(year)))
  {
    TrimOfUnpadded(title);
    TrimOfUnpadded(author);
  }

  /** Submitting "Dune" / "Frank Herbert" with year "1965" and no ISBN sends a null ISBN and the integer 1965. */
  lemma DuneExample()
    ensures NewBookData("Dune", "Frank Herbert", "", "1965") == Some(NewBook("Dune", "Frank Herbert", None, Some(1965)))
  {
    AcceptsUnpadded("Dune", "Frank Herbert", "", "1965");
    YearOf1965();
    assert IsbnValue("") == None;
  }
}
