/**
 * The database-backed book API: GET/POST /api/books and
 * GET/PUT/DELETE /api/books/<id>, over one `books` table and a session
 * that either commits all of a handler's changes or rolls them back.
 */
module BookRoutes {
  import opened Wrappers
  import opened Json
  import opened BookModel

  datatype Body = Dicts(list: seq<Object>) | OneDict(dict: Object) | ErrorBody(error: string) | NoContent

  /**
   * A handler's answer. `NotFound` is what `get_or_404` raises for an
   * unknown id, before anything else happens; the model leaves open which
   * status the surrounding `except Exception` turns it into.
   */
  datatype Outcome = Reply(status: int, body: Body) | NotFound

  const MissingFieldsError := "Missing required fields: title and author"
  const AddFailedError := "Failed to add book"
  const InvalidJsonError := "Invalid JSON data or incorrect Content-Type header"
  const UpdateFailedError := "Failed to update book"
  const DeleteFailedError := "Failed to delete book"

  /**
   * `add_book`'s validation: a truthy body with "title" and "author" keys (any
   * values, even empty or null). A body with a key is truthy, so the test comes
   * down to the two keys.
   */
  predicate HasRequiredKeys(data: Option<Object>)
    ensures HasRequiredKeys(data) <==> data.Some? && "title" in data.value && "author" in data.value
  {
    IsNonEmptyObject(data) && "title" in data.value && "author" in data.value
  }

  /** The row `add_book` builds; an absent ISBN or year is null (`data.get(...)`). */
  function NewRow(data: Object, id: int): (b: Book)
    requires "title" in data && "author" in data
    ensures b.id == id
    ensures forall key :: key in ColumnKeys ==> ToDict(b)[key] == Get(data, key, Null)
  {
    Book(id, data["title"], data["author"], Get(data, "isbn", Null), Get(data, "publication_year", Null))
  }

  /** `update_book`'s field-by-field merge: a present key replaces the column, an absent one keeps it. */
  function Merge(b: Book, data: Object): (m: Book)
    ensures m.id == b.id
    ensures forall key :: key in ColumnKeys ==> ToDict(m)[key] == Get(data, key, ToDict(b)[key])
  {
    Book(b.id,
         Get(data, "title", b.title),
         Get(data, "author", b.author),
         Get(data, "isbn", b.isbn),
         Get(data, "publication_year", b.publicationYear))
  }

  /** An empty update body changes nothing. */
  lemma MergeEmpty(b: Book)
    ensures Merge(b, map[]) == b
  {
  }

  /** Sending the same update twice has the effect of sending it once. */
  lemma MergeIdempotent(b: Book, data: Object)
    ensures Merge(Merge(b, data), data) == Merge(b, data)
  {
  }

  /** Merging another book's dictionary copies all its columns but keeps the target's id. */
  lemma MergeDict(b: Book, c: Book)
    ensures Merge(b, ToDict(c)) == c.(id := b.id)
  {
  }

  /** The rows a `get_books` answer may list. */
  ghost function Listed(rows: map<int, Book>): set<Object>
  {
    set k | k in rows :: ToDict(rows[k])
  }

  /**
   * A list of dictionaries, one per key, each key once and every key
   * present, lists every row exactly once.
   */
  lemma ListingComplete(rows: map<int, Book>, list: seq<Object>, keys: seq<int>)
    requires KeyedById(rows)
    requires |list| == |keys| == |rows|
    requires forall i :: 0 <= i < |keys| ==> keys[i] in rows && list[i] == ToDict(rows[keys[i]])
    requires forall k :: k in rows ==> k in keys
    requires forall i, j :: 0 <= i < j < |keys| ==> keys[i] != keys[j]
    ensures forall i :: 0 <= i < |list| ==> list[i] in Listed(rows)
    ensures forall k :: k in rows ==> ToDict(rows[k]) in list
    ensures forall i, j :: 0 <= i < j < |list| ==> list[i] != list[j]
  {
    ListingSound(rows, list, keys);
    ListingDistinct(rows, list, keys);
    ListingCovers(rows, list, keys);
  }

  /** A list of stored rows' dictionaries holds nothing but listed rows. */
  lemma ListingSound(rows: map<int, Book>, list: seq<Object>, keys: seq<int>)
    requires |list| == |keys|
    requires forall i :: 0 <= i < |keys| ==> keys[i] in rows && list[i] == ToDict(rows[keys[i]])
    ensures forall i :: 0 <= i < |list| ==> list[i] in Listed(rows)
  {
    forall i | 0 <= i < |list|
      ensures list[i] in Listed(rows)
    {
      var k := keys[i];
      assert k in rows && list[i] == ToDict(rows[k]);
      assert ToDict(rows[k]) in Listed(rows);
    }
  }

  /** Dictionaries of distinct keys are distinct. */
  lemma ListingDistinct(rows: map<int, Book>, list: seq<Object>, keys: seq<int>)
    requires KeyedById(rows)
    requires |list| == |keys|
    requires forall i :: 0 <= i < |keys| ==> keys[i] in rows && list[i] == ToDict(rows[keys[i]])
    requires forall i, j :: 0 <= i < j < |keys| ==> keys[i] != keys[j]
    ensures forall i, j :: 0 <= i < j < |list| ==> list[i] != list[j]
  {
    forall i, j | 0 <= i < j < |list|
      ensures list[i] != list[j]
    {
      ToDictInjective(rows[keys[i]], rows[keys[j]]);
    }
  }

  /** A list with a dictionary for every key holds every row's dictionary. */
  lemma ListingCovers(rows: map<int, Book>, list: seq<Object>, keys: seq<int>)
    requires |list| == |keys|
    requires forall i :: 0 <= i < |keys| ==> keys[i] in rows && list[i] == ToDict(rows[keys[i]])
    requires forall k :: k in rows ==> k in keys
    ensures forall k :: k in rows ==> ToDict(rows[k]) in list
  {
    forall k | k in rows
      ensures ToDict(rows[k]) in list
    {
      var i :| 0 <= i < |keys| && keys[i] == k;
      assert list[i] == ToDict(rows[k]);
    }
  }

  /** A set of keys is empty or has a member. */
  lemma EmptyOrMember(s: set<int>)
    ensures s == {} || exists k :: k in s
  {
    if forall k :: k !in s {
      assert s == {};
    }
  }

  /**
   * The comprehension `[book.to_dict() for book in Book.query.all()]`: one
   * dictionary per stored row, visiting the keys in an order the database
   * chooses. `keys` records that order.
   */
  method DictsInSomeOrder(rows: map<int, Book>) returns (list: seq<Object>, ghost keys: seq<int>)
    ensures |list| == |keys| == |rows|
    ensures forall i :: 0 <= i < |keys| ==> keys[i] in rows && list[i] == ToDict(rows[keys[i]])
    ensures forall k :: k in rows ==> k in keys
    ensures forall i, j :: 0 <= i < j < |keys| ==> keys[i] != keys[j]
  {
    list := [];
    keys := [];
    var remaining := rows.Keys;
    while remaining != {}
      invariant remaining <= rows.Keys
      invariant |list| == |keys| && |list| + |remaining| == |rows.Keys|
      invariant forall i :: 0 <= i < |keys| ==> keys[i] in rows && list[i] == ToDict(rows[keys[i]])
      invariant forall k :: k in rows ==> (k in keys <==> k !in remaining)
      invariant forall i, j :: 0 <= i < j < |keys| ==> keys[i] != keys[j]
      decreases remaining
    {
      EmptyOrMember(remaining);
      var k :| k in remaining;
      list := list + [ToDict(rows[k])];
      keys := keys + [k];
      remaining := remaining - {k};
    }
    assert |rows| == |rows.Keys|;
  }

  /** The table and its session. */
  class BookTable {
    /** Whether the database enforces declared string widths (SQLite, the default, does not). */
    const enforceWidths: bool
    var rows: map<int, Book>

    ghost predicate Valid()
      reads this
    {
      Constraints(rows, enforceWidths)
    }

    /** A freshly created, empty table (`db.create_all()`). */
    constructor (enforceWidths: bool)
      ensures Valid() && rows == map[] && this.enforceWidths == enforceWidths
    {
      this.enforceWidths := enforceWidths;
      rows := map[];
    }

    /**
     * Whether committing the table `after` succeeds: the database accepts
     * it (`accepted` stands for everything outside this model, such as a
     * lost connection or a value the driver cannot bind) and it violates
     * no constraint of the schema.
     */
    predicate CommitSucceeds(after: map<int, Book>, accepted: bool)
      reads this
    {
      accepted && Constraints(after, enforceWidths)
    }

    /** GET /api/books: the dictionary of every stored row, each once, in the database's order, with 200. */
    method GetBooks() returns (r: Outcome)
      requires KeyedById(rows)
      ensures r.Reply? && r.status == 200 && r.body.Dicts?
      ensures |r.body.list| == |rows|
      ensures forall i :: 0 <= i < |r.body.list| ==> r.body.list[i] in Listed(rows)
      ensures forall k :: k in rows ==> ToDict(rows[k]) in r.body.list
      ensures forall i, j :: 0 <= i < j < |r.body.list| ==> r.body.list[i] != r.body.list[j]
    {
      var list, keys := DictsInSomeOrder(rows);
      ListingComplete(rows, list, keys);
      r := Reply(200, Dicts(list));
    }

    /** GET /api/books/<id>: the row's dictionary with 200, or not found. */
    method GetBook(id: int) returns (r: Outcome)
      ensures id !in rows ==> r == NotFound
      ensures id in rows ==> r == Reply(200, OneDict(ToDict(rows[id])))
    {
      if id !in rows {
        return NotFound;
      }
      r := Reply(200, OneDict(ToDict(rows[id])));
    }

    /**
     * POST /api/books: 400 without a truthy body holding "title" and
     * "author"; otherwise one new row under the id the database assigns,
     * committed with 201, or rolled back with 500 when the commit fails
     * (a taken id, a null title or author, a duplicate ISBN, ...).
     */
    method AddBook(data: Option<Object>, assignedId: int, accepted: bool) returns (r: Outcome)
      requires Valid()
      modifies this
      ensures Valid()
      ensures !HasRequiredKeys(data) ==> r == Reply(400, ErrorBody(MissingFieldsError)) && rows == old(rows)
      ensures HasRequiredKeys(data) ==>
        var b := NewRow(data.value, assignedId);
        if assignedId !in old(rows) && old(CommitSucceeds(rows[assignedId := b], accepted)) then
          rows == old(rows)[assignedId := b] && r == Reply(201, OneDict(ToDict(b)))
        else
          rows == old(rows) && r == Reply(500, ErrorBody(AddFailedError))
    {
      if !HasRequiredKeys(data) {
        return Reply(400, ErrorBody(MissingFieldsError));
      }
      var b := NewRow(data.value, assignedId);
      if assignedId !in rows && CommitSucceeds(rows[assignedId := b], accepted) {
        rows := rows[assignedId := b];
        r := Reply(201, OneDict(ToDict(b)));
      } else {
        r := Reply(500, ErrorBody(AddFailedError));
      }
    }

    /**
     * PUT /api/books/<id>: not found for an unknown id; 400 when the body is
     * missing or not JSON (an empty object is accepted); otherwise the row is
     * merged field by field and committed with 200, or rolled back with 500.
     */
    method UpdateBook(id: int, data: Option<Object>, accepted: bool) returns (r: Outcome)
      requires Valid()
      modifies this
      ensures Valid()
      ensures id !in old(rows) ==> r == NotFound && rows == old(rows)
      ensures id in old(rows) && data.None? ==> r == Reply(400, ErrorBody(InvalidJsonError)) && rows == old(rows)
      ensures id in old(rows) && data.Some? ==>
        var b := Merge(old(rows)[id], data.value);
        if old(CommitSucceeds(rows[id := b], accepted)) then
          rows == old(rows)[id := b] && r == Reply(200, OneDict(ToDict(b)))
        else
          rows == old(rows) && r == Reply(500, ErrorBody(UpdateFailedError))
    {
      if id !in rows {
        return NotFound;
      }
      if data.None? {
        return Reply(400, ErrorBody(InvalidJsonError));
      }
      var b := Merge(rows[id], data.value);
      if CommitSucceeds(rows[id := b], accepted) {
        rows := rows[id := b];
        r := Reply(200, OneDict(ToDict(b)));
      } else {
        r := Reply(500, ErrorBody(UpdateFailedError));
      }
    }

    /** DELETE /api/books/<id>: not found for an unknown id; otherwise exactly that row goes, with an empty 204, or nothing changes and 500. */
    method DeleteBook(id: int, accepted: bool) returns (r: Outcome)
      requires Valid()
      modifies this
      ensures Valid()
      ensures id !in old(rows) ==> r == NotFound && rows == old(rows)
      ensures id in old(rows) && accepted ==> r == Reply(204, NoContent) && rows == old(rows) - {id}
      ensures id in old(rows) && !accepted ==> r == Reply(500, ErrorBody(DeleteFailedError)) && rows == old(rows)
    {
      if id !in rows {
        return NotFound;
      }
      ConstraintsAfterRemove(rows, enforceWidths, id);
      if CommitSucceeds(rows - {id}, accepted) {
        rows := rows - {id};
        r := Reply(204, NoContent);
      } else {
        r := Reply(500, ErrorBody(DeleteFailedError));
      }
    }
  }
}
