/** The rows of the library's store (BOOK, AUTHORS, BOOK_AUTHORS, BORROWER,
    BOOK_LOANS, FINES) as values, with the lookups the queries join on.
    Dates are day numbers; money is whole cents. */
module Tables {
  import opened Sorting

  datatype Option<T> = None | Some(value: T)

  type Date = int
  type Cents = nat

  datatype Book = Book(isbn: string, title: string)
  datatype Author = Author(id: int, name: string)
  datatype BookAuthor = BookAuthor(isbn: string, authorId: int)
  datatype Borrower = Borrower(card: string, name: string, address: string, phone: string, ssn: string)

  /** A BOOK_LOANS row; `dateIn` is NULL while the book is out. */
  datatype Loan = Loan(id: int, isbn: string, card: string, dateOut: Date, due: Date, dateIn: Option<Date>)
  {
    predicate Active() { dateIn.None? }
  }

  /** A FINES row, keyed by its loan's id in the store. */
  datatype Fine = Fine(amount: Cents, paid: bool)

  function Get<K, V>(m: map<K, V>, k: K): Option<V>
  {
    if k in m then Some(m[k]) else None
  }

  /** The first row of `s` whose key is `k`, as a lookup by primary key
      returns it; None when no row has that key. */
  function Find<T, K(==)>(s: seq<T>, key: T -> K, k: K): (r: Option<T>)
    ensures r.Some? ==> r.value in s && key(r.value) == k
    ensures r.None? <==> forall i :: 0 <= i < |s| ==> key(s[i]) != k
  {
    if s == [] then None
    else if key(s[0]) == k then Some(s[0])
    else Find(s[1..], key, k)
  }

  /** The book with the given ISBN. */
  function FindBook(books: seq<Book>, isbn: string): Option<Book>
  {
    Find(books, (b: Book) => b.isbn, isbn)
  }

  /** The borrower with the given card id. */
  function FindBorrower(borrowers: seq<Borrower>, card: string): Option<Borrower>
  {
    Find(borrowers, (br: Borrower) => br.card, card)
  }

  /** The author with the given id. */
  function FindAuthor(authors: seq<Author>, id: int): Option<Author>
  {
    Find(authors, (a: Author) => a.id, id)
  }

  /** Primary keys of the store. */
  ghost predicate IsbnsDistinct(books: seq<Book>)
  {
    forall i, j :: 0 <= i < j < |books| ==> books[i].isbn != books[j].isbn
  }

  ghost predicate CardsDistinct(borrowers: seq<Borrower>)
  {
    forall i, j :: 0 <= i < j < |borrowers| ==> borrowers[i].card != borrowers[j].card
  }

  ghost predicate LoanIdsDistinct(loans: seq<Loan>)
  {
    forall i, j :: 0 <= i < j < |loans| ==> loans[i].id != loans[j].id
  }

  /** Some loan in the table has this id. */
  ghost predicate HasLoanId(loans: seq<Loan>, id: int)
  {
    exists i :: 0 <= i < |loans| && loans[i].id == id
  }

  /** The single-copy rule: no two active loans of the same ISBN. */
  ghost predicate OneActiveLoanPerIsbn(loans: seq<Loan>)
  {
    forall i, j :: 0 <= i < j < |loans| && loans[i].isbn == loans[j].isbn ==> !(loans[i].Active() && loans[j].Active())
  }

  /** The shape of a SELECT ... WHERE over one table: the rows `f` keeps, as
      `f` projects them, in table order. */
  function FilterMap<A, B>(s: seq<A>, f: A -> Option<B>): (r: seq<B>)
    ensures |r| <= |s|
  {
    if s == [] then []
    else (match f(s[0]) case Some(y) => [y] case None => []) + FilterMap(s[1..], f)
  }

  lemma {:induction false} FilterMapMembers<A, B>(s: seq<A>, f: A -> Option<B>, y: B)
    ensures y in FilterMap(s, f) <==> exists i :: 0 <= i < |s| && f(s[i]) == Some(y)
  {
    if s != [] {
      FilterMapMembers(s[1..], f, y);
      if exists i :: 0 <= i < |s| && f(s[i]) == Some(y) {
        var i :| 0 <= i < |s| && f(s[i]) == Some(y);
        if i > 0 {
          assert s[1..][i - 1] == s[i];
        }
      }
      if exists i :: 0 <= i < |s| - 1 && f(s[1..][i]) == Some(y) {
        var i :| 0 <= i < |s| - 1 && f(s[1..][i]) == Some(y);
        assert s[i + 1] == s[1..][i];
      }
    }
  }

  lemma {:induction false} FilterMapAppend<A, B>(s: seq<A>, t: seq<A>, f: A -> Option<B>)
    ensures FilterMap(s + t, f) == FilterMap(s, f) + FilterMap(t, f)
  {
    if s != [] {
      assert (s + t)[1..] == s[1..] + t;
      FilterMapAppend(s[1..], t, f);
    } else {
      assert s + t == t;
    }
  }

  /** A projection that keeps each row's key keeps keys unique: a query over a
      table with a primary key returns each row at most once. */
  lemma {:induction false} FilterMapKeysUnique<A, B, K>(s: seq<A>, f: A -> Option<B>, keyA: A -> K, keyB: B -> K)
    requires KeysUnique(s, keyA)
    requires forall a :: f(a).Some? ==> keyB(f(a).value) == keyA(a)
    ensures KeysUnique(FilterMap(s, f), keyB)
  {
    if s != [] {
      var rest := FilterMap(s[1..], f);
      assert KeysUnique(s[1..], keyA) by {
        forall i, j | 0 <= i < j < |s[1..]| ensures keyA(s[1..][i]) != keyA(s[1..][j]) {
          assert s[1..][i] == s[i + 1] && s[1..][j] == s[j + 1];
        }
      }
      FilterMapKeysUnique(s[1..], f, keyA, keyB);
      if f(s[0]).Some? {
        forall z | z in rest ensures keyB(z) != keyB(f(s[0]).value) {
          FilterMapMembers(s[1..], f, z);
          var i :| 0 <= i < |s[1..]| && f(s[1..][i]) == Some(z);
          assert s[1..][i] == s[i + 1];
        }
        KeysUniqueCons(f(s[0]).value, rest, keyB);
        assert FilterMap(s, f) == [f(s[0]).value] + rest;
      }
    }
  }
}
