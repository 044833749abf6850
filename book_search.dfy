/** The catalogue search: books whose ISBN, title or an author's name holds
    the search term (case-insensitively), each with its authors and whether it
    is out on loan, ordered by ISBN. */
module BookSearch {
  import opened Tables
  import opened Text
  import opened Sorting

  datatype Availability = In | Out

  /** One result row; `borrowerId` is the text "NULL" while the book is in. */
  datatype BookRow = BookRow(isbn: string, title: string, authors: string, status: Availability, borrowerId: string)

  /** The name of a linked author of `isbn`, when the AUTHORS row exists. */
  function AuthorNameOf(authors: seq<Author>, isbn: string): BookAuthor -> Option<string>
  {
    (ba: BookAuthor) =>
      if ba.isbn != isbn then None
      else match FindAuthor(authors, ba.authorId)
        case Some(a) => Some(a.name)
        case None => None
  }

  /** The names of a book's authors, in the order of its BOOK_AUTHORS links. */
  function AuthorNames(authors: seq<Author>, bookAuthors: seq<BookAuthor>, isbn: string): seq<string>
  {
    FilterMap(bookAuthors, AuthorNameOf(authors, isbn))
  }

  /** COALESCE(GROUP_CONCAT(name, ', '), 'Unknown'): "Unknown" for a book with
      no named author, otherwise a text in which every author's name appears. */
  function AuthorsText(names: seq<string>): (r: string)
    ensures names == [] ==> r == "Unknown"
    ensures forall k :: 0 <= k < |names| ==> Contains(r, names[k])
    ensures names != [] ==> names[0] <= r
  {
    if names == [] then "Unknown"
    else
      assert forall k :: 0 <= k < |names| ==> Contains(Join(names, ", "), names[k]) by {
        forall k | 0 <= k < |names| ensures Contains(Join(names, ", "), names[k]) {
          JoinContainsEach(names, ", ", k);
        }
      }
      JoinContainsEach(names, ", ", 0);
      Join(names, ", ")
  }

  /** The WHERE of the search: the lowered ISBN, title or some author's lowered
      name holds `needle`. */
  predicate BookMatches(b: Book, names: seq<string>, needle: string)
  {
    Contains(Lower(b.isbn), needle) || Contains(Lower(b.title), needle)
    || exists k :: 0 <= k < |names| && Contains(Lower(names[k]), needle)
  }

  /** The card of the first active loan of `isbn` (fetchone on the loans table). */
  function ActiveBorrowerOf(loans: seq<Loan>, isbn: string): (r: Option<string>)
    ensures r.None? <==> forall i :: 0 <= i < |loans| ==> !(loans[i].isbn == isbn && loans[i].Active())
    ensures r.Some? ==> exists i :: 0 <= i < |loans| && loans[i].isbn == isbn && loans[i].Active() && loans[i].card == r.value
  {
    if loans == [] then None
    else if loans[0].isbn == isbn && loans[0].Active() then Some(loans[0].card)
    else
      var r := ActiveBorrowerOf(loans[1..], isbn);
      assert r.Some? ==> exists i :: 0 <= i < |loans| && loans[i].isbn == isbn && loans[i].Active() && loans[i].card == r.value by {
        if r.Some? {
          var i :| 0 <= i < |loans[1..]| && loans[1..][i].isbn == isbn && loans[1..][i].Active() && loans[1..][i].card == r.value;
          assert loans[i + 1] == loans[1..][i];
        }
      }
      assert r.None? ==> forall i :: 0 <= i < |loans| ==> !(loans[i].isbn == isbn && loans[i].Active()) by {
        if r.None? {
          forall i | 0 <= i < |loans| ensures !(loans[i].isbn == isbn && loans[i].Active()) {
            if i > 0 {
              assert loans[i] == loans[1..][i - 1];
            }
          }
        }
      }
      r
  }

  /** Under the single-copy rule the first active loan is the only one, so the
      borrower reported is the one holding the book. */
  lemma ActiveBorrowerIsHolder(loans: seq<Loan>, i: int)
    requires OneActiveLoanPerIsbn(loans)
    requires 0 <= i < |loans| && loans[i].Active()
    ensures ActiveBorrowerOf(loans, loans[i].isbn) == Some(loans[i].card)
  {
    var r := ActiveBorrowerOf(loans, loans[i].isbn);
    var j :| 0 <= j < |loans| && loans[j].isbn == loans[i].isbn && loans[j].Active() && loans[j].card == r.value;
    assert j == i;
  }

  /** The result row of a matching book. */
  function BookRowOf(b: Book, authors: seq<Author>, bookAuthors: seq<BookAuthor>, loans: seq<Loan>): (row: BookRow)
    ensures row.isbn == b.isbn && row.title == b.title
    ensures row.authors == AuthorsText(AuthorNames(authors, bookAuthors, b.isbn))
    ensures row.status == Out <==> exists i :: 0 <= i < |loans| && loans[i].isbn == b.isbn && loans[i].Active()
    ensures row.status == Out ==> exists i :: 0 <= i < |loans| && loans[i].isbn == b.isbn && loans[i].Active() && loans[i].card == row.borrowerId
    ensures row.status == In ==> row.borrowerId == "NULL"
  {
    var names := AuthorNames(authors, bookAuthors, b.isbn);
    match ActiveBorrowerOf(loans, b.isbn)
    case Some(card) => BookRow(b.isbn, b.title, AuthorsText(names), Out, card)
    case None => BookRow(b.isbn, b.title, AuthorsText(names), In, "NULL")
  }

  function SearchHit(authors: seq<Author>, bookAuthors: seq<BookAuthor>, loans: seq<Loan>, needle: string): Book -> Option<BookRow>
  {
    (b: Book) =>
      if BookMatches(b, AuthorNames(authors, bookAuthors, b.isbn), needle)
      then Some(BookRowOf(b, authors, bookAuthors, loans))
      else None
  }

  /** ORDER BY Isbn. */
  predicate ByIsbn(a: BookRow, b: BookRow)
  {
    StrLe(a.isbn, b.isbn)
  }

  lemma ByIsbnTotal()
    ensures Total(ByIsbn)
  {
    forall a: BookRow, b: BookRow ensures ByIsbn(a, b) || ByIsbn(b, a) {
      StrLeTotal(a.isbn, b.isbn);
    }
  }

  /** The needle a non-blank term is matched with: trimmed, then lowered. */
  function Needle(term: string): string
  {
    Lower(Strip(term))
  }

  /** search(term): a blank term finds nothing; otherwise the matching books in
      ISBN order. */
  function Search(books: seq<Book>, authors: seq<Author>, bookAuthors: seq<BookAuthor>, loans: seq<Loan>, term: string): (rows: seq<BookRow>)
    ensures AllSpace(term) ==> rows == []
    ensures Sorted(rows, ByIsbn)
    ensures !AllSpace(term) ==> multiset(rows) == multiset(FilterMap(books, SearchHit(authors, bookAuthors, loans, Needle(term))))
  {
    if Strip(term) == [] then []
    else
      ByIsbnTotal();
      InsertionSort(FilterMap(books, SearchHit(authors, bookAuthors, loans, Needle(term))), ByIsbn)
  }

  /** A row is in the result exactly when it describes a book of the catalogue
      whose ISBN, title or author names hold the trimmed, lowered term. */
  lemma SearchMembers(books: seq<Book>, authors: seq<Author>, bookAuthors: seq<BookAuthor>, loans: seq<Loan>, term: string, row: BookRow)
    ensures row in Search(books, authors, bookAuthors, loans, term) <==>
      !AllSpace(term) &&
      exists i :: 0 <= i < |books|
        && BookMatches(books[i], AuthorNames(authors, bookAuthors, books[i].isbn), Needle(term))
        && row == BookRowOf(books[i], authors, bookAuthors, loans)
  {
    if !AllSpace(term) {
      var needle := Needle(term);
      var f := SearchHit(authors, bookAuthors, loans, needle);
      var rows := Search(books, authors, bookAuthors, loans, term);
      assert row in rows <==> row in multiset(rows);
      FilterMapMembers(books, f, row);
      if row in rows {
        var i :| 0 <= i < |books| && f(books[i]) == Some(row);
        assert BookMatches(books[i], AuthorNames(authors, bookAuthors, books[i].isbn), needle);
      }
      if i :| 0 <= i < |books| && BookMatches(books[i], AuthorNames(authors, bookAuthors, books[i].isbn), needle)
                               && row == BookRowOf(books[i], authors, bookAuthors, loans) {
        assert f(books[i]) == Some(row);
      }
    }
  }

  /** Each matching book appears once: the result has no repeated ISBN. */
  lemma SearchIsbnsUnique(books: seq<Book>, authors: seq<Author>, bookAuthors: seq<BookAuthor>, loans: seq<Loan>, term: string)
    requires IsbnsDistinct(books)
    ensures KeysUnique(Search(books, authors, bookAuthors, loans, term), (row: BookRow) => row.isbn)
  {
    if !AllSpace(term) {
      var f := SearchHit(authors, bookAuthors, loans, Needle(term));
      assert KeysUnique(books, (b: Book) => b.isbn);
      FilterMapKeysUnique(books, f, (b: Book) => b.isbn, (row: BookRow) => row.isbn);
      InsertionSortKeysUnique(FilterMap(books, f), ByIsbn, (row: BookRow) => row.isbn);
    }
  }
}
