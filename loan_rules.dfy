/** The loan rules of loans.py as functions over the loan table: the counts
    that gate a checkout, the batch check-in and the active-loan search. */
module LoanRules {
  import opened Tables
  import opened Text
  import opened Sorting

  /** A loan is due two weeks after it is taken out. */
  const LoanPeriodDays: int := 14
  /** A borrower may hold this many active loans unless a librarian overrides. */
  const MaxActiveLoans: nat := 3
  /** A check-in batch names one to this many loans. */
  const MaxCheckinBatch: nat := 3

  /** The positions in the loan table of `card`'s loans whose book has not come back. */
  ghost function ActiveLoansOf(loans: seq<Loan>, card: string): set<int>
  {
    set i | 0 <= i < |loans| && loans[i].card == card && loans[i].Active()
  }

  lemma ActiveLoansOfSnoc(loans: seq<Loan>, card: string)
    requires loans != []
    ensures var k := |loans| - 1;
            ActiveLoansOf(loans, card)
            == ActiveLoansOf(loans[..k], card) + (if loans[k].card == card && loans[k].Active() then {k} else {})
            && k !in ActiveLoansOf(loans[..k], card)
  {
    var k := |loans| - 1;
    forall i ensures i in ActiveLoansOf(loans, card) <==>
                     i in ActiveLoansOf(loans[..k], card) || (i == k && loans[k].card == card && loans[k].Active()) {
      if 0 <= i < k {
        assert loans[..k][i] == loans[i];
      }
    }
  }

  /** The number of loans of `card` whose book has not come back. */
  function ActiveLoanCount(loans: seq<Loan>, card: string): (n: nat)
    ensures n == |ActiveLoansOf(loans, card)|
  {
    if loans == [] then 0
    else
      var k := |loans| - 1;
      ActiveLoansOfSnoc(loans, card);
      ActiveLoanCount(loans[..k], card) + (if loans[k].card == card && loans[k].Active() then 1 else 0)
  }

  /** A new loan adds to its borrower's active count only when it is active, and nobody else's. */
  lemma ActiveLoanCountAppend(loans: seq<Loan>, l: Loan, card: string)
    ensures ActiveLoanCount(loans + [l], card)
            == ActiveLoanCount(loans, card) + (if l.card == card && l.Active() then 1 else 0)
  {
    assert (loans + [l])[..|loans|] == loans;
  }

  /** The number of loans of `isbn` whose book has not come back. */
  function ActiveCopies(loans: seq<Loan>, isbn: string): (n: nat)
    ensures n > 0 <==> exists i :: 0 <= i < |loans| && loans[i].isbn == isbn && loans[i].Active()
  {
    if loans == [] then 0
    else
      var prefix, last := loans[..|loans| - 1], loans[|loans| - 1];
      var n := ActiveCopies(prefix, isbn) + (if last.isbn == isbn && last.Active() then 1 else 0);
      assert (exists i :: 0 <= i < |prefix| && prefix[i].isbn == isbn && prefix[i].Active())
             ==> exists i :: 0 <= i < |loans| && loans[i].isbn == isbn && loans[i].Active() by {
        if i :| 0 <= i < |prefix| && prefix[i].isbn == isbn && prefix[i].Active() {
          assert loans[i] == prefix[i];
        }
      }
      assert (exists i :: 0 <= i < |loans| && loans[i].isbn == isbn && loans[i].Active()) ==> n > 0 by {
        if i :| 0 <= i < |loans| && loans[i].isbn == isbn && loans[i].Active() {
          if i < |prefix| {
            assert prefix[i] == loans[i];
          }
        }
      }
      n
  }

  /** Under the single-copy rule a book is out at most once. */
  lemma {:induction false} ActiveCopiesAtMostOne(loans: seq<Loan>, isbn: string)
    requires OneActiveLoanPerIsbn(loans)
    ensures ActiveCopies(loans, isbn) <= 1
  {
    if loans != [] {
      var n := |loans| - 1;
      var prefix := loans[..n];
      assert OneActiveLoanPerIsbn(prefix) by {
        forall i, j | 0 <= i < j < |prefix| && prefix[i].isbn == prefix[j].isbn
          ensures !(prefix[i].Active() && prefix[j].Active())
        {
          assert prefix[i] == loans[i] && prefix[j] == loans[j];
        }
      }
      ActiveCopiesAtMostOne(prefix, isbn);
      if loans[n].isbn == isbn && loans[n].Active() && ActiveCopies(prefix, isbn) > 0 {
        assert false;
      }
    }
  }

  // ---------------------------------------------------------------------------
  // checkin

  /** The position of the active loan with this id, or |loans| when there is none. */
  function ActiveLoanIndex(loans: seq<Loan>, id: int): (k: nat)
    ensures k <= |loans|
    ensures k < |loans| ==> loans[k].id == id && loans[k].Active()
    ensures k == |loans| ==> forall j :: 0 <= j < |loans| ==> !(loans[j].id == id && loans[j].Active())
  {
    if loans == [] then 0
    else if loans[0].id == id && loans[0].Active() then 0
    else 1 + ActiveLoanIndex(loans[1..], id)
  }

  /** The loan table, the running count and the error list of a check-in batch. */
  datatype CheckinState = CheckinState(loans: seq<Loan>, checkedIn: nat, errors: seq<int>)

  /** One iteration of the check-in loop. */
  function CheckinOne(s: CheckinState, id: int, today: Date): (r: CheckinState)
    ensures |r.loans| == |s.loans|
    ensures r.errors == s.errors + [id] || (r.errors == s.errors && r.checkedIn == s.checkedIn + 1)
    ensures r.errors == s.errors + [id] ==> r.loans == s.loans && r.checkedIn == s.checkedIn
  {
    var k := ActiveLoanIndex(s.loans, id);
    if k == |s.loans| then s.(errors := s.errors + [id])
    else CheckinState(s.loans[k := s.loans[k].(dateIn := Some(today))], s.checkedIn + 1, s.errors)
  }

  /** The state after the check-in loop has visited every id in order. */
  function CheckinAll(loans: seq<Loan>, ids: seq<int>, today: Date): (r: CheckinState)
    ensures |r.loans| == |loans|
    ensures r.checkedIn <= |ids| && |r.errors| <= |ids|
  {
    if ids == [] then CheckinState(loans, 0, [])
    else CheckinOne(CheckinAll(loans, ids[..|ids| - 1], today), ids[|ids| - 1], today)
  }

  /** Some loan with this id is still out. */
  ghost predicate IsActiveId(loans: seq<Loan>, id: int)
  {
    exists j :: 0 <= j < |loans| && loans[j].id == id && loans[j].Active()
  }

  /** The ids of a batch that are reported as errors: those naming no active
      loan, and repeats of an id already named earlier in the batch. */
  ghost function FailedIds(loans: seq<Loan>, ids: seq<int>): (failed: seq<int>)
    ensures |failed| <= |ids|
    ensures forall x :: x in failed ==> x in ids
    ensures forall x :: x in ids && !IsActiveId(loans, x) ==> x in failed
  {
    if ids == [] then []
    else
      var n := |ids| - 1;
      var prefix := FailedIds(loans, ids[..n]);
      assert ids == ids[..n] + [ids[n]];
      prefix + (if IsActiveId(loans, ids[n]) && ids[n] !in ids[..n] then [] else [ids[n]])
  }

  /** Loan `l` as a batch leaves it: returned today if it was out and named, untouched otherwise. */
  function AfterCheckin(l: Loan, ids: seq<int>, today: Date): Loan
  {
    if l.Active() && l.id in ids then l.(dateIn := Some(today)) else l
  }

  /** The batch returns exactly the active loans it names, sets their return date
      to today, and never touches a loan that was already returned. */
  lemma {:induction false} CheckinAllLoans(loans: seq<Loan>, ids: seq<int>, today: Date)
    requires LoanIdsDistinct(loans)
    ensures |CheckinAll(loans, ids, today).loans| == |loans|
    ensures forall j :: 0 <= j < |loans| ==> CheckinAll(loans, ids, today).loans[j] == AfterCheckin(loans[j], ids, today)
  {
    if ids != [] {
      var n := |ids| - 1;
      var id := ids[n];
      CheckinAllLoans(loans, ids[..n], today);
      var s := CheckinAll(loans, ids[..n], today);
      var k := ActiveLoanIndex(s.loans, id);
      assert ids == ids[..n] + [id];
      forall j | 0 <= j < |loans|
        ensures CheckinAll(loans, ids, today).loans[j] == AfterCheckin(loans[j], ids, today)
      {
        assert s.loans[j] == AfterCheckin(loans[j], ids[..n], today);
        if k < |loans| && j != k {
          assert loans[j].id != loans[k].id;
        }
      }
    }
  }

  /** The errors of a batch are exactly its failed ids, in batch order. */
  lemma {:induction false} CheckinAllErrors(loans: seq<Loan>, ids: seq<int>, today: Date)
    requires LoanIdsDistinct(loans)
    ensures CheckinAll(loans, ids, today).errors == FailedIds(loans, ids)
  {
    if ids != [] {
      var n := |ids| - 1;
      var id := ids[n];
      CheckinAllErrors(loans, ids[..n], today);
      CheckinAllLoans(loans, ids[..n], today);
      var s := CheckinAll(loans, ids[..n], today);
      var k := ActiveLoanIndex(s.loans, id);
      if k < |loans| {
        assert loans[k].Active() && loans[k].id !in ids[..n];
      } else if IsActiveId(loans, id) && id !in ids[..n] {
        assert false;
      }
    }
  }

  /** Every id of a batch is either checked in or reported, never both. */
  lemma {:induction false} CheckinAllAccounts(loans: seq<Loan>, ids: seq<int>, today: Date)
    ensures CheckinAll(loans, ids, today).checkedIn + |CheckinAll(loans, ids, today).errors| == |ids|
  {
    if ids != [] {
      CheckinAllAccounts(loans, ids[..|ids| - 1], today);
    }
  }

  /** The number of loans that were out in `before` and are back in `after`. */
  function NewlyReturned(before: seq<Loan>, after: seq<Loan>): nat
    requires |before| == |after|
  {
    if before == [] then 0
    else
      var n := |before| - 1;
      NewlyReturned(before[..n], after[..n]) + (if before[n].Active() && !after[n].Active() then 1 else 0)
  }

  lemma {:induction false} NewlyReturnedUpdate(before: seq<Loan>, after: seq<Loan>, k: int, l: Loan)
    requires |before| == |after| && 0 <= k < |after|
    requires before[k].Active() && after[k].Active() && !l.Active()
    ensures NewlyReturned(before, after[k := l]) == NewlyReturned(before, after) + 1
  {
    var n := |before| - 1;
    if k == n {
      assert after[k := l][..n] == after[..n];
    } else {
      assert after[k := l][..n] == after[..n][k := l];
      NewlyReturnedUpdate(before[..n], after[..n], k, l);
    }
  }

  /** The count a batch reports is the number of loans it actually returned. */
  lemma {:induction false} CheckinAllCount(loans: seq<Loan>, ids: seq<int>, today: Date)
    requires LoanIdsDistinct(loans)
    ensures |CheckinAll(loans, ids, today).loans| == |loans|
    ensures CheckinAll(loans, ids, today).checkedIn == NewlyReturned(loans, CheckinAll(loans, ids, today).loans)
  {
    CheckinAllLoans(loans, ids, today);
    if ids == [] {
      NewlyReturnedNone(loans);
    } else {
      var n := |ids| - 1;
      CheckinAllCount(loans, ids[..n], today);
      CheckinAllLoans(loans, ids[..n], today);
      var s := CheckinAll(loans, ids[..n], today);
      var k := ActiveLoanIndex(s.loans, ids[n]);
      if k < |loans| {
        assert s.loans[k] == AfterCheckin(loans[k], ids[..n], today);
        NewlyReturnedUpdate(loans, s.loans, k, s.loans[k].(dateIn := Some(today)));
      }
    }
  }

  lemma {:induction false} NewlyReturnedNone(loans: seq<Loan>)
    ensures NewlyReturned(loans, loans) == 0
  {
    if loans != [] {
      NewlyReturnedNone(loans[..|loans| - 1]);
    }
  }

  /** An id repeated in a batch returns its loan once and reports the repeat. */
  lemma CheckinRepeatedId(loans: seq<Loan>, i: int, today: Date)
    requires LoanIdsDistinct(loans)
    requires 0 <= i < |loans| && loans[i].Active()
    ensures CheckinAll(loans, [loans[i].id, loans[i].id], today).checkedIn == 1
    ensures CheckinAll(loans, [loans[i].id, loans[i].id], today).errors == [loans[i].id]
  {
    var ids := [loans[i].id, loans[i].id];
    CheckinAllErrors(loans, ids, today);
    CheckinAllAccounts(loans, ids, today);
    assert ids[..1] == [loans[i].id] && [loans[i].id][..0] == [];
    assert IsActiveId(loans, loans[i].id);
    assert FailedIds(loans, [loans[i].id]) == [];
    assert FailedIds(loans, ids) == [ids[1]];
  }

  /** A valid and a missing id: one loan returned, the missing id reported. */
  lemma CheckinPartialBatch(loans: seq<Loan>, i: int, missing: int, today: Date)
    requires LoanIdsDistinct(loans)
    requires 0 <= i < |loans| && loans[i].Active()
    requires forall j :: 0 <= j < |loans| ==> loans[j].id != missing
    ensures CheckinAll(loans, [loans[i].id, missing], today).checkedIn == 1
    ensures CheckinAll(loans, [loans[i].id, missing], today).errors == [missing]
  {
    var ids := [loans[i].id, missing];
    CheckinAllErrors(loans, ids, today);
    CheckinAllAccounts(loans, ids, today);
    assert ids[..1] == [loans[i].id] && [loans[i].id][..0] == [];
    assert IsActiveId(loans, loans[i].id);
    assert FailedIds(loans, [loans[i].id]) == [];
    assert FailedIds(loans, ids) == [ids[1]];
  }

  // ---------------------------------------------------------------------------
  // find_loans_by_search

  /** A row of BOOK_LOANS JOIN BOOK JOIN BORROWER. */
  datatype LoanRow = LoanRow(loanId: int, isbn: string, title: string, card: string, name: string,
                             dateOut: Date, due: Date, dateIn: Option<Date>)

  /** LOWER(Isbn), LOWER(Card_id) or LOWER(Bname) contains the lower-cased term. */
  predicate LoanMatches(l: Loan, br: Borrower, needle: string)
  {
    Contains(Lower(l.isbn), needle) || Contains(Lower(l.card), needle) || Contains(Lower(br.name), needle)
  }

  function LoanRowOf(books: seq<Book>, borrowers: seq<Borrower>, needle: string): Loan -> Option<LoanRow>
  {
    (l: Loan) =>
      if l.Active() then
        match (FindBook(books, l.isbn), FindBorrower(borrowers, l.card))
        case (Some(b), Some(br)) =>
          if LoanMatches(l, br, needle)
          then Some(LoanRow(l.id, l.isbn, b.title, l.card, br.name, l.dateOut, l.due, l.dateIn))
          else None
        case _ => None
      else None
  }

  /** ORDER BY Due_date */
  predicate ByDueDate(a: LoanRow, b: LoanRow)
  {
    a.due <= b.due
  }

  /** find_loans_by_search: the matching active loans, by due date. */
  function FindLoansBySearch(loans: seq<Loan>, books: seq<Book>, borrowers: seq<Borrower>, term: string)
    : (rows: seq<LoanRow>)
    ensures Sorted(rows, ByDueDate)
    ensures multiset(rows) == multiset(FilterMap(loans, LoanRowOf(books, borrowers, Lower(term))))
  {
    InsertionSort(FilterMap(loans, LoanRowOf(books, borrowers, Lower(term))), ByDueDate)
  }

  /** The row the query makes of one loan, spelled out. */
  ghost predicate IsLoanRow(l: Loan, books: seq<Book>, borrowers: seq<Borrower>, needle: string, row: LoanRow)
  {
    && l.Active()
    && FindBook(books, l.isbn).Some? && FindBorrower(borrowers, l.card).Some?
    && LoanMatches(l, FindBorrower(borrowers, l.card).value, needle)
    && row == LoanRow(l.id, l.isbn, FindBook(books, l.isbn).value.title,
                      l.card, FindBorrower(borrowers, l.card).value.name, l.dateOut, l.due, l.dateIn)
  }

  lemma LoanRowOfIs(l: Loan, books: seq<Book>, borrowers: seq<Borrower>, needle: string, row: LoanRow)
    ensures LoanRowOf(books, borrowers, needle)(l) == Some(row) <==> IsLoanRow(l, books, borrowers, needle, row)
  {
  }

  /** A row is returned iff it describes an active loan whose ISBN, card id or
      borrower name contains the term, case-insensitively. */
  lemma FindLoansBySearchMembers(loans: seq<Loan>, books: seq<Book>, borrowers: seq<Borrower>, term: string,
                                 row: LoanRow)
    ensures row in FindLoansBySearch(loans, books, borrowers, term) <==>
            exists i :: 0 <= i < |loans| && IsLoanRow(loans[i], books, borrowers, Lower(term), row)
  {
    var rows := FindLoansBySearch(loans, books, borrowers, term);
    var f := LoanRowOf(books, borrowers, Lower(term));
    assert row in rows <==> row in multiset(rows);
    FilterMapMembers(loans, f, row);
    if row in rows {
      var i :| 0 <= i < |loans| && f(loans[i]) == Some(row);
      LoanRowOfIs(loans[i], books, borrowers, Lower(term), row);
    }
    if i :| 0 <= i < |loans| && IsLoanRow(loans[i], books, borrowers, Lower(term), row) {
      LoanRowOfIs(loans[i], books, borrowers, Lower(term), row);
    }
  }
}
