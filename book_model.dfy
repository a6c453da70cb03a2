/**
 * The `books` table: one record per book, the column constraints the schema
 * declares, and the five-member dictionary a record is served as.
 */
module BookModel {
  import opened Wrappers
  import opened Json

  /**
   * A stored row. The handlers copy request values into the columns without
   * looking at their JSON type, so every column but the key holds a JSON value.
   */
  datatype Book = Book(id: int, title: Value, author: Value, isbn: Value, publicationYear: Value)

  /** Declared column widths: String(150), String(100), String(13). */
  const TitleMaxLength := 150
  const AuthorMaxLength := 100
  const IsbnMaxLength := 13

  /** The NOT NULL columns: title and author are required. */
  predicate RequiredPresent(b: Book)
  {
    b.title != Null && b.author != Null
  }

  predicate TextAtMost(v: Value, n: nat)
  {
    v.Str? ==> |v.s| <= n
  }

  /** The declared widths, on a database that enforces them. */
  predicate WithinWidths(b: Book)
  {
    TextAtMost(b.title, TitleMaxLength) && TextAtMost(b.author, AuthorMaxLength) && TextAtMost(b.isbn, IsbnMaxLength)
  }

  /** The primary key: each row is stored under its own id. */
  predicate KeyedById(rows: map<int, Book>)
  {
    forall k :: k in rows ==> rows[k].id == k
  }

  /** The UNIQUE ISBN column: two different rows never share a non-null ISBN. */
  predicate IsbnsUnique(rows: map<int, Book>)
  {
    forall i, j :: i in rows && j in rows && i != j && rows[i].isbn != Null ==> rows[i].isbn != rows[j].isbn
  }

  /**
   * Every constraint of the schema; widths count only when the database
   * enforces them. Under the primary key no two stored rows are the same record.
   */
  predicate Constraints(rows: map<int, Book>, enforceWidths: bool)
    ensures Constraints(rows, enforceWidths) ==> forall i, j :: i in rows && j in rows && i != j ==> rows[i] != rows[j]
  {
    && KeyedById(rows)
    && IsbnsUnique(rows)
    && (forall k :: k in rows ==> RequiredPresent(rows[k]))
    && (enforceWidths ==> forall k :: k in rows ==> WithinWidths(rows[k]))
  }

  const DictKeys: set<string> := {"id", "title", "author", "isbn", "publication_year"}

  /** The keys of the four columns a request body may set. */
  const ColumnKeys: set<string> := {"title", "author", "isbn", "publication_year"}

  /** `to_dict()`: exactly the five columns under their JSON names. */
  function ToDict(b: Book): (d: Object)
    ensures d.Keys == DictKeys
  {
    map["id" := Num(b.id), "title" := b.title, "author" := b.author,
        "isbn" := b.isbn, "publication_year" := b.publicationYear]
  }

  /** Reading a served dictionary back into a row. */
  function FromDict(d: Object): Option<Book>
  {
    if DictKeys <= d.Keys && d["id"].Num? then
      Some(Book(d["id"].n, d["title"], d["author"], d["isbn"], d["publication_year"]))
    else None
  }

  /** A served dictionary carries every column of its row unchanged. */
  lemma FromToDict(b: Book)
    ensures FromDict(ToDict(b)) == Some(b)
  {
  }

  /** Different rows are served as different dictionaries. */
  lemma ToDictInjective(a: Book, b: Book)
    ensures ToDict(a) == ToDict(b) ==> a == b
  {
    if ToDict(a) == ToDict(b) {
      FromToDict(a);
      FromToDict(b);
    }
  }

  /** Removing a row keeps every constraint. */
  lemma ConstraintsAfterRemove(rows: map<int, Book>, enforceWidths: bool, id: int)
    requires Constraints(rows, enforceWidths)
    ensures Constraints(rows - {id}, enforceWidths)
  {
  }
}
