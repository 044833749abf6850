/** The library's store as one object: the catalogue and the borrowers are
    loaded once and never change; the loan table, the fine table and the
    loan-id counter change under checkout, check-in, the fine refresh and
    payment. Each operation is proved against the functions of FineEngine
    and LoanRules, and keeps the store's integrity rules. */
module Library {
  import opened Tables
  import opened Text
  import opened FineEngine
  import opened LoanRules
  import opened Sorting
  import opened BookSearch

  datatype CheckoutResult =
    | CheckedOut(title: string, due: Date)
    | BorrowerNotFound
    | BookNotFound
    | FinesOwed
    | LoanLimitReached
    | AlreadyCheckedOut

  /** A batch is refused before any lookup when it is empty or too long;
      otherwise it is processed, and it succeeds when `failed` is empty. */
  datatype CheckinResult =
    | NoLoanIds
    | TooManyLoanIds
    | Processed(checkedIn: nat, failed: seq<int>)

  datatype PayResult =
    | PayBorrowerNotFound
    | NothingToPay
    | UnreturnedBooks(loanIds: seq<int>)
    | FinesPaid(total: Cents)

  /** A loan row: its id was handed out by the counter, it is due two weeks
      after it went out, and its book and borrower exist. */
  ghost predicate LoanRowOk(l: Loan, books: seq<Book>, borrowers: seq<Borrower>, nextLoanId: int)
  {
    && 0 < l.id < nextLoanId
    && l.due == l.dateOut + LoanPeriodDays
    && FindBook(books, l.isbn).Some?
    && FindBorrower(borrowers, l.card).Some?
  }

  ghost predicate LoanTableOk(loans: seq<Loan>, books: seq<Book>, borrowers: seq<Borrower>, nextLoanId: int)
  {
    && LoanIdsDistinct(loans)
    && OneActiveLoanPerIsbn(loans)
    && forall i :: 0 <= i < |loans| ==> LoanRowOk(loans[i], books, borrowers, nextLoanId)
  }

  /** Every fine belongs to a loan and is a positive whole number of days' rate. */
  ghost predicate FineTableOk(fines: map<int, Fine>, loans: seq<Loan>)
  {
    forall k :: k in fines ==> HasLoanId(loans, k) && fines[k].amount > 0 && fines[k].amount % FineRateCents == 0
  }

  /** The gates a checkout passes unless the librarian overrides them. */
  ghost predicate MayBorrow(loans: seq<Loan>, fines: map<int, Fine>, card: string, override: bool)
  {
    override || (!HasUnpaidFines(loans, fines, card) && ActiveLoanCount(loans, card) < MaxActiveLoans)
  }

  /** The gates of checkout in the order they are tried; the first that
      refuses names the error, and None means the loan may be made. Override
      lifts the fines and loan-count gates only: a book that is out stays
      unavailable. */
  function Refusal(loans: seq<Loan>, fines: map<int, Fine>, books: seq<Book>, borrowers: seq<Borrower>,
                   isbn: string, card: string, override: bool): (r: Option<CheckoutResult>)
    ensures r == Some(BorrowerNotFound) <==> FindBorrower(borrowers, card).None?
    ensures r == Some(BookNotFound) <==> FindBorrower(borrowers, card).Some? && FindBook(books, isbn).None?
    ensures r == Some(FinesOwed) <==>
              FindBorrower(borrowers, card).Some? && FindBook(books, isbn).Some?
              && !override && HasUnpaidFines(loans, fines, card)
    ensures r == Some(LoanLimitReached) <==>
              FindBorrower(borrowers, card).Some? && FindBook(books, isbn).Some?
              && !override && !HasUnpaidFines(loans, fines, card) && ActiveLoanCount(loans, card) >= MaxActiveLoans
    ensures r == Some(AlreadyCheckedOut) <==>
              FindBorrower(borrowers, card).Some? && FindBook(books, isbn).Some?
              && MayBorrow(loans, fines, card, override) && ActiveCopies(loans, isbn) > 0
    ensures r.None? <==>
              FindBorrower(borrowers, card).Some? && FindBook(books, isbn).Some?
              && MayBorrow(loans, fines, card, override) && ActiveCopies(loans, isbn) == 0
    ensures r.Some? ==> !r.value.CheckedOut?
  {
    if FindBorrower(borrowers, card).None? then Some(BorrowerNotFound)
    else if FindBook(books, isbn).None? then Some(BookNotFound)
    else if !override && HasUnpaidFines(loans, fines, card) then Some(FinesOwed)
    else if !override && ActiveLoanCount(loans, card) >= MaxActiveLoans then Some(LoanLimitReached)
    else if ActiveCopies(loans, isbn) > 0 then Some(AlreadyCheckedOut)
    else None
  }

  /** Overriding changes a refusal only when it was for fines or the loan
      count, and then into the availability verdict. */
  lemma OverrideLiftsOnlyBorrowerGates(loans: seq<Loan>, fines: map<int, Fine>, books: seq<Book>,
                                       borrowers: seq<Borrower>, isbn: string, card: string)
    ensures var plain := Refusal(loans, fines, books, borrowers, isbn, card, false);
            Refusal(loans, fines, books, borrowers, isbn, card, true)
            == if plain == Some(FinesOwed) || plain == Some(LoanLimitReached)
               then (if ActiveCopies(loans, isbn) > 0 then Some(AlreadyCheckedOut) else None)
               else plain
  {
  }

  /** A batch check-in only closes loans: it keeps the integrity rules. */
  lemma CheckinKeepsTables(before: seq<Loan>, after: seq<Loan>, ids: seq<int>, today: Date,
                           books: seq<Book>, borrowers: seq<Borrower>, nextLoanId: int, fines: map<int, Fine>)
    requires LoanTableOk(before, books, borrowers, nextLoanId) && FineTableOk(fines, before)
    requires |after| == |before|
    requires forall j :: 0 <= j < |before| ==> after[j] == AfterCheckin(before[j], ids, today)
    ensures LoanTableOk(after, books, borrowers, nextLoanId) && FineTableOk(fines, after)
  {
    assert forall j :: 0 <= j < |before| ==> after[j].id == before[j].id && after[j].isbn == before[j].isbn;
    assert forall j :: 0 <= j < |before| ==> after[j].Active() ==> before[j].Active();
    forall k | k in fines ensures HasLoanId(after, k) {
      var j :| 0 <= j < |before| && before[j].id == k;
      assert after[j].id == k;
    }
  }

  class Library {
    const books: seq<Book>
    const authors: seq<Author>
    const bookAuthors: seq<BookAuthor>
    const borrowers: seq<Borrower>
    var loans: seq<Loan>
    var fines: map<int, Fine>
    /** The id the next new loan gets (the table's AUTOINCREMENT counter). */
    var nextLoanId: int

    ghost predicate Valid()
      reads this
    {
      && IsbnsDistinct(books)
      && CardsDistinct(borrowers)
      && 0 < nextLoanId
      && LoanTableOk(loans, books, borrowers, nextLoanId)
      && FineTableOk(fines, loans)
    }

    /** The store as the bulk load leaves it: the catalogue and the borrowers,
        and no loans or fines yet. */
    constructor (books: seq<Book>, authors: seq<Author>, bookAuthors: seq<BookAuthor>, borrowers: seq<Borrower>)
      requires IsbnsDistinct(books) && CardsDistinct(borrowers)
      ensures Valid()
      ensures this.books == books && this.authors == authors
      ensures this.bookAuthors == bookAuthors && this.borrowers == borrowers
      ensures loans == [] && fines == map[] && nextLoanId == 1
    {
      this.books := books;
      this.authors := authors;
      this.bookAuthors := bookAuthors;
      this.borrowers := borrowers;
      loans := [];
      fines := map[];
      nextLoanId := 1;
    }

    /** checkout: the gates of Refusal are tried in order and the first that
        refuses is reported with nothing changed; when all pass a new loan,
        going out today and due in two weeks, is added under the next id. */
    method Checkout(isbn: string, card: string, override: bool, today: Date) returns (r: CheckoutResult)
      requires Valid()
      modifies this`loans, this`nextLoanId
      ensures Valid()
      ensures r.CheckedOut? <==> Refusal(old(loans), fines, books, borrowers, isbn, card, override).None?
      ensures !r.CheckedOut? ==>
                && Refusal(old(loans), fines, books, borrowers, isbn, card, override) == Some(r)
                && loans == old(loans) && nextLoanId == old(nextLoanId)
      ensures r.CheckedOut? ==>
                && r.title == FindBook(books, isbn).value.title
                && r.due == today + LoanPeriodDays
                && loans == old(loans) + [Loan(old(nextLoanId), isbn, card, today, today + LoanPeriodDays, None)]
                && nextLoanId == old(nextLoanId) + 1
                && ActiveCopies(loans, isbn) == 1
                && (!override ==> ActiveLoanCount(loans, card) <= MaxActiveLoans)
    {
      var refusal := Refusal(loans, fines, books, borrowers, isbn, card, override);
      if refusal.Some? {
        return refusal.value;
      }
      ghost var before := loans;
      var loan := InsertLoan(isbn, card, today);
      ActiveLoanCountAppend(before, loan, card);
      ActiveCopiesAppend(before, loan, isbn);
      r := CheckedOut(FindBook(books, isbn).value.title, loan.due);
    }

    /** The INSERT of a checkout: a loan going out today, due in two weeks,
        under the next id of the counter. */
    method InsertLoan(isbn: string, card: string, today: Date) returns (loan: Loan)
      requires Valid()
      requires FindBook(books, isbn).Some? && FindBorrower(borrowers, card).Some?
      requires ActiveCopies(loans, isbn) == 0
      modifies this`loans, this`nextLoanId
      ensures Valid()
      ensures loan == Loan(old(nextLoanId), isbn, card, today, today + LoanPeriodDays, None)
      ensures loans == old(loans) + [loan] && nextLoanId == old(nextLoanId) + 1
    {
      loan := Loan(nextLoanId, isbn, card, today, today + LoanPeriodDays, None);
      CheckoutKeepsTables(loans, loan, books, borrowers, nextLoanId, fines);
      loans := loans + [loan];
      nextLoanId := nextLoanId + 1;
    }

    /** check-in: an empty batch or one of more than three ids is refused
        outright; otherwise each id in turn closes its active loan with
        today's date, and the ids that name no active loan are reported. */
    method Checkin(ids: seq<int>, today: Date) returns (r: CheckinResult)
      requires Valid()
      modifies this`loans
      ensures Valid()
      ensures r == NoLoanIds <==> ids == []
      ensures r == TooManyLoanIds <==> |ids| > MaxCheckinBatch
      ensures !r.Processed? ==> loans == old(loans)
      ensures r.Processed? ==>
                && |loans| == |old(loans)|
                && (forall j :: 0 <= j < |loans| ==> loans[j] == AfterCheckin(old(loans)[j], ids, today))
                && r.failed == FailedIds(old(loans), ids)
                && r.checkedIn == NewlyReturned(old(loans), loans)
                && r.checkedIn + |r.failed| == |ids|
    {
      if ids == [] {
        return NoLoanIds;
      }
      if |ids| > MaxCheckinBatch {
        return TooManyLoanIds;
      }
      ghost var before := loans;
      var checkedIn, errors := CloseLoans(ids, today);
      CheckinAllLoans(before, ids, today);
      CheckinAllErrors(before, ids, today);
      CheckinAllCount(before, ids, today);
      CheckinAllAccounts(before, ids, today);
      CheckinKeepsTables(before, loans, ids, today, books, borrowers, nextLoanId, fines);
      r := Processed(checkedIn, errors);
    }

    /** The loop of a check-in: each id in turn closes the active loan it
        names with today's date, or is recorded as an error. */
    method CloseLoans(ids: seq<int>, today: Date) returns (checkedIn: nat, errors: seq<int>)
      modifies this`loans
      ensures CheckinState(loans, checkedIn, errors) == CheckinAll(old(loans), ids, today)
    {
      checkedIn := 0;
      errors := [];
      var i := 0;
      while i < |ids|
        invariant 0 <= i <= |ids|
        invariant CheckinAll(old(loans), ids[..i], today) == CheckinState(loans, checkedIn, errors)
      {
        var id := ids[i];
        var k := ActiveLoanIndex(loans, id);
        if k == |loans| {
          errors := errors + [id];
        } else {
          loans := loans[k := loans[k].(dateIn := Some(today))];
          checkedIn := checkedIn + 1;
        }
        assert ids[..i + 1][..i] == ids[..i];
        i := i + 1;
      }
      assert ids[..i] == ids;
    }

    /** update_fines: every overdue loan with a positive fine gets a fresh
        unpaid fine row, or its unpaid row's amount brought up to date; paid
        rows are never touched. */
    method UpdateFines(today: Date)
      requires Valid()
      modifies this`fines
      ensures Valid()
      ensures fines == RefreshFines(loans, old(fines), today)
      ensures forall i :: 0 <= i < |loans| && loans[i].due < today
                          && CalculateFineAmount(loans[i].due, loans[i].dateIn, today) > 0
                          && (loans[i].id !in old(fines) || !old(fines)[loans[i].id].paid)
                ==> Get(fines, loans[i].id) == Some(Fine(CalculateFineAmount(loans[i].due, loans[i].dateIn, today), false))
    {
      var table := RefreshTable(loans, fines, today);
      RefreshKeepsFineTable(loans, fines, today);
      forall i | 0 <= i < |loans| && loans[i].due < today
                 && CalculateFineAmount(loans[i].due, loans[i].dateIn, today) > 0
                 && (loans[i].id !in fines || !fines[loans[i].id].paid)
        ensures Get(table, loans[i].id) == Some(Fine(CalculateFineAmount(loans[i].due, loans[i].dateIn, today), false))
      {
        RefreshFinesSetsOverdue(loans, fines, today, i);
      }
      fines := table;
    }

    /** pay_fines: the borrower must exist and owe something; if any unpaid
        fine is on a book still out nothing is paid and those loans are named;
        otherwise every unpaid fine of the borrower is marked paid at once and
        their sum is returned. */
    method PayFines(card: string) returns (r: PayResult)
      requires Valid()
      modifies this`fines
      ensures Valid()
      ensures r == PayBorrowerNotFound <==> FindBorrower(borrowers, card).None?
      ensures r == NothingToPay <==> FindBorrower(borrowers, card).Some? && !HasUnpaidFines(loans, old(fines), card)
      ensures r.UnreturnedBooks? <==>
                FindBorrower(borrowers, card).Some? && UnreturnedLoanIds(UnpaidFinesOf(loans, old(fines), card)) != []
      ensures r.UnreturnedBooks? ==> r.loanIds == UnreturnedLoanIds(UnpaidFinesOf(loans, old(fines), card))
      ensures r.FinesPaid? ==>
                && r.total == TotalAmount(UnpaidFinesOf(loans, old(fines), card))
                && r.total > 0
                && fines == Settle(old(fines), LoanIdsOf(UnpaidFinesOf(loans, old(fines), card)))
                && !HasUnpaidFines(loans, fines, card)
                && forall j :: 0 <= j < |loans| && loans[j].card != card ==> Get(fines, loans[j].id) == Get(old(fines), loans[j].id)
      ensures !r.FinesPaid? ==> fines == old(fines)
    {
      if FindBorrower(borrowers, card).None? {
        return PayBorrowerNotFound;
      }
      var unpaid := UnpaidFinesOf(loans, fines, card);
      if unpaid == [] {
        return NothingToPay;
      }
      var unreturned := UnreturnedLoanIds(unpaid);
      if unreturned != [] {
        return UnreturnedBooks(unreturned);
      }
      var total, toPay := SumUnpaid(unpaid);
      SettlementOutcome(loans, fines, card);
      fines := Settle(fines, toPay);
      r := FinesPaid(total);
    }

    /** search: the catalogue rows matching the term, in ISBN order; since
        ISBNs are the catalogue's key, no book is listed twice. */
    method SearchCatalogue(term: string) returns (rows: seq<BookRow>)
      requires Valid()
      ensures rows == Search(books, authors, bookAuthors, loans, term)
      ensures KeysUnique(rows, (row: BookRow) => row.isbn)
    {
      rows := Search(books, authors, bookAuthors, loans, term);
      SearchIsbnsUnique(books, authors, bookAuthors, loans, term);
    }

    /** get_fines_by_borrower: the listing's rows gathered per card, in order
        of first appearance, each with the sum of its unpaid amounts. */
    method GetFinesByBorrower(includePaid: bool) returns (groups: seq<BorrowerFines>)
      ensures groups == GroupByBorrower(FineRows(loans, fines, borrowers, books, includePaid))
      ensures Summarises(groups, FineRows(loans, fines, borrowers, books, includePaid))
    {
      groups := GroupRows(FineRows(loans, fines, borrowers, books, includePaid));
    }
  }

  /** What paying all of a borrower's unpaid fines achieves: a positive sum,
      nothing left unpaid for that borrower, other borrowers untouched, and
      the fine table still well formed. */
  lemma SettlementOutcome(loans: seq<Loan>, fines: map<int, Fine>, card: string)
    requires LoanIdsDistinct(loans) && FineTableOk(fines, loans)
    requires UnpaidFinesOf(loans, fines, card) != []
    ensures var settled := Settle(fines, LoanIdsOf(UnpaidFinesOf(loans, fines, card)));
            && TotalAmount(UnpaidFinesOf(loans, fines, card)) > 0
            && !HasUnpaidFines(loans, settled, card)
            && (forall j :: 0 <= j < |loans| && loans[j].card != card ==> Get(settled, loans[j].id) == Get(fines, loans[j].id))
            && FineTableOk(settled, loans)
  {
    var toPay := LoanIdsOf(UnpaidFinesOf(loans, fines, card));
    UnpaidAmountsPositive(loans, fines, card);
    SettleClearsBorrower(loans, fines, card);
    forall j | 0 <= j < |loans| && loans[j].card != card
      ensures Get(Settle(fines, toPay), loans[j].id) == Get(fines, loans[j].id)
    {
      SettleLeavesOtherBorrowers(loans, fines, card, j);
    }
    SettleKeepsFineTable(fines, loans, toPay);
  }

  /** A new active loan of `isbn` adds one to its active copies. */
  lemma ActiveCopiesAppend(loans: seq<Loan>, l: Loan, isbn: string)
    requires l.Active() && l.isbn == isbn
    ensures ActiveCopies(loans + [l], isbn) == ActiveCopies(loans, isbn) + 1
  {
    assert (loans + [l])[..|loans|] == loans;
  }

  /** A new loan with a fresh id, of a book that is in, keeps the integrity rules. */
  lemma CheckoutKeepsTables(loans: seq<Loan>, l: Loan, books: seq<Book>, borrowers: seq<Borrower>,
                            nextLoanId: int, fines: map<int, Fine>)
    requires LoanTableOk(loans, books, borrowers, nextLoanId) && FineTableOk(fines, loans)
    requires l.id == nextLoanId && l.Active()
    requires LoanRowOk(l, books, borrowers, nextLoanId + 1)
    requires ActiveCopies(loans, l.isbn) == 0
    ensures LoanTableOk(loans + [l], books, borrowers, nextLoanId + 1) && FineTableOk(fines, loans + [l])
  {
    var after := loans + [l];
    forall i, j | 0 <= i < j < |after| ensures after[i].id != after[j].id {
      assert LoanRowOk(after[i], books, borrowers, nextLoanId);
    }
    forall i, j | 0 <= i < j < |after| && after[i].isbn == after[j].isbn
      ensures !(after[i].Active() && after[j].Active())
    {
      if j == |loans| {
        assert after[i] == loans[i];
      }
    }
    forall i | 0 <= i < |after| ensures LoanRowOk(after[i], books, borrowers, nextLoanId + 1) {
      if i < |loans| {
        assert after[i] == loans[i] && LoanRowOk(loans[i], books, borrowers, nextLoanId);
      }
    }
    forall k | k in fines ensures HasLoanId(after, k) {
      var i :| 0 <= i < |loans| && loans[i].id == k;
      assert after[i].id == k;
    }
  }

  /** Under the integrity rules every unpaid fine is positive, so a borrower
      who owes something owes a positive total. */
  lemma UnpaidAmountsPositive(loans: seq<Loan>, fines: map<int, Fine>, card: string)
    requires FineTableOk(fines, loans)
    requires UnpaidFinesOf(loans, fines, card) != []
    ensures TotalAmount(UnpaidFinesOf(loans, fines, card)) > 0
  {
    var unpaid := UnpaidFinesOf(loans, fines, card);
    var last := unpaid[|unpaid| - 1];
    UnpaidFinesOfMembers(loans, fines, card, last);
  }

  /** The totalling loop of pay_fines: the sum of the unpaid amounts and the
      ids to mark paid, both in the order the fines were listed. */
  method SumUnpaid(unpaid: seq<UnpaidFine>) returns (total: Cents, ids: seq<int>)
    ensures total == TotalAmount(unpaid)
    ensures ids == LoanIdsOf(unpaid)
  {
    total := 0;
    ids := [];
    var j := 0;
    while j < |unpaid|
      invariant 0 <= j <= |unpaid|
      invariant total == TotalAmount(unpaid[..j])
      invariant ids == LoanIdsOf(unpaid[..j])
    {
      total := total + unpaid[j].amount;
      ids := ids + [unpaid[j].loanId];
      assert unpaid[..j + 1][..j] == unpaid[..j];
      j := j + 1;
    }
    assert unpaid[..j] == unpaid;
  }

  /** The refresh pass only writes fines of loans, each a positive whole
      number of days' rate, so it keeps the fine table's integrity rule. */
  lemma RefreshKeepsFineTable(loans: seq<Loan>, fines: map<int, Fine>, today: Date)
    requires LoanIdsDistinct(loans) && FineTableOk(fines, loans)
    ensures FineTableOk(RefreshFines(loans, fines, today), loans)
  {
    var after := RefreshFines(loans, fines, today);
    forall k | k in after
      ensures HasLoanId(loans, k) && after[k].amount > 0 && after[k].amount % FineRateCents == 0
    {
      if Get(after, k) != Get(fines, k) {
        RefreshChangesOnlyOverdue(loans, fines, today, k);
        var i :| 0 <= i < |loans| && loans[i].id == k && loans[i].due < today;
        RefreshFinesAt(loans, fines, today, i);
      }
    }
  }

  /** Marking fines paid keeps every fine and its amount. */
  lemma SettleKeepsFineTable(fines: map<int, Fine>, loans: seq<Loan>, ids: seq<int>)
    requires FineTableOk(fines, loans)
    ensures FineTableOk(Settle(fines, ids), loans)
  {
  }

  /** The loop of update_fines over the loan table: each overdue loan with a
      positive fine gets a new unpaid row, or its unpaid row's amount brought
      up to date; paid rows are skipped. */
  method RefreshTable(loans: seq<Loan>, fines: map<int, Fine>, today: Date) returns (table: map<int, Fine>)
    ensures table == RefreshFines(loans, fines, today)
  {
    table := fines;
    var i := 0;
    while i < |loans|
      invariant 0 <= i <= |loans|
      invariant table == RefreshFines(loans[..i], fines, today)
    {
      var l := loans[i];
      ghost var before := table;
      if l.due < today {
        var amount := CalculateFineAmount(l.due, l.dateIn, today);
        if amount > 0 {
          if l.id in table {
            if !table[l.id].paid && table[l.id].amount != amount {
              table := table[l.id := Fine(amount, false)];
            }
          } else {
            table := table[l.id := Fine(amount, false)];
          }
        }
      }
      assert table == RefreshLoan(before, l, today);
      assert loans[..i + 1][..i] == loans[..i];
      i := i + 1;
    }
    assert loans[..i] == loans;
  }

  /** The grouping loop of get_fines_by_borrower: a summary per card, in
      order of first appearance, listing its rows and totalling the unpaid
      amounts among them. */
  method GroupRows(rows: seq<FineRow>) returns (groups: seq<BorrowerFines>)
    ensures groups == GroupByBorrower(rows)
    ensures Summarises(groups, rows)
  {
    groups := [];
    var i := 0;
    while i < |rows|
      invariant 0 <= i <= |rows|
      invariant groups == GroupByBorrower(rows[..i])
    {
      var row := rows[i];
      ghost var before := groups;
      var k := GroupIndex(groups, row.card);
      if k == |groups| {
        groups := groups + [BorrowerFines(row.card, row.name, [], 0)];
      }
      groups := groups[k := groups[k].(fines := groups[k].fines + [row], total := groups[k].total + UnpaidPart(row))];
      assert groups == AddFineRow(before, row);
      assert rows[..i + 1][..i] == rows[..i];
      i := i + 1;
    }
    assert rows[..i] == rows;
    GroupByBorrowerSummarises(rows);
  }
}
