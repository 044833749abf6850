/** The fine rules of fines.py as functions over the loan and fine tables:
    the overdue arithmetic, the refresh pass, the unpaid-fines gate, the
    settlement of a borrower's fines and the per-borrower listing. */
module FineEngine {
  import opened Tables
  import opened Text
  import opened Sorting

  /** $0.25 per overdue day. */
  const FineRateCents: nat := 25

  /** The day the fine stops growing: the return date once the book is back,
      today while it is still out. */
  function EndDate(dateIn: Option<Date>, today: Date): (end: Date)
    ensures dateIn.None? ==> end == today
    ensures dateIn.Some? ==> end == dateIn.value
  {
    if dateIn.Some? then dateIn.value else today
  }

  /** calculate_fine_amount: whole overdue days times the daily rate. */
  function CalculateFineAmount(due: Date, dateIn: Option<Date>, today: Date): (amount: Cents)
    ensures EndDate(dateIn, today) <= due ==> amount == 0
    ensures EndDate(dateIn, today) > due ==>
              amount > 0 && amount % FineRateCents == 0 && amount / FineRateCents == EndDate(dateIn, today) - due
  {
    var end := EndDate(dateIn, today);
    if end <= due then 0 else (end - due) * FineRateCents
  }

  /** While a book is out past its due date, each further day adds one day's rate. */
  lemma FineGrowsDaily(due: Date, today: Date)
    requires due <= today
    ensures CalculateFineAmount(due, None, today + 1) == CalculateFineAmount(due, None, today) + FineRateCents
  {
  }

  // ---------------------------------------------------------------------------
  // update_fines

  /** The FINES row of loan `l` after the refresh pass has visited it, given
      the row `before` (None when there is none). */
  function RefreshedFine(l: Loan, before: Option<Fine>, today: Date): (after: Option<Fine>)
    ensures after != before ==>
              && l.due < today
              && (before.None? || !before.value.paid)
              && after == Some(Fine(CalculateFineAmount(l.due, l.dateIn, today), false))
              && after.value.amount > 0
    ensures l.due < today && CalculateFineAmount(l.due, l.dateIn, today) > 0 && (before.None? || !before.value.paid) ==>
              after == Some(Fine(CalculateFineAmount(l.due, l.dateIn, today), false))
    ensures before.Some? ==> after.Some?
  {
    if l.due < today then
      var amount := CalculateFineAmount(l.due, l.dateIn, today);
      if amount > 0 then
        match before
        case Some(f) =>
          if f.paid then before
          else if f.amount != amount then Some(Fine(amount, false))
          else before
        case None => Some(Fine(amount, false))
      else before
    else before
  }

  /** One iteration of the refresh loop: insert or update the fine of `l`. */
  function RefreshLoan(fines: map<int, Fine>, l: Loan, today: Date): (r: map<int, Fine>)
    ensures Get(r, l.id) == RefreshedFine(l, Get(fines, l.id), today)
    ensures forall k :: k != l.id ==> Get(r, k) == Get(fines, k)
  {
    match RefreshedFine(l, Get(fines, l.id), today)
    case Some(f) => fines[l.id := f]
    case None => fines
  }

  /** The FINES table after update_fines has visited every loan in order. */
  function RefreshFines(loans: seq<Loan>, fines: map<int, Fine>, today: Date): map<int, Fine>
    decreases |loans|
  {
    if loans == [] then fines
    else RefreshLoan(RefreshFines(loans[..|loans| - 1], fines, today), loans[|loans| - 1], today)
  }

  /** The refresh never deletes a fine, and every fine it creates belongs to a loan. */
  lemma {:induction false} RefreshFinesKeys(loans: seq<Loan>, fines: map<int, Fine>, today: Date)
    ensures fines.Keys <= RefreshFines(loans, fines, today).Keys
    ensures forall k :: k in RefreshFines(loans, fines, today) && k !in fines ==> HasLoanId(loans, k)
  {
    if loans != [] {
      var n := |loans| - 1;
      var before := RefreshFines(loans[..n], fines, today);
      var after := RefreshFines(loans, fines, today);
      RefreshFinesKeys(loans[..n], fines, today);
      forall k | k in after && k !in fines ensures HasLoanId(loans, k) {
        if k == loans[n].id {
          assert HasLoanId(loans, loans[n].id);
        } else {
          assert Get(after, k) == Get(before, k);
          var i :| 0 <= i < n && loans[..n][i].id == k;
          assert loans[i] == loans[..n][i];
        }
      }
      forall k | k in fines ensures k in after {
        assert Get(before, k).Some?;
      }
    }
  }

  /** A loan that no other loan shares an id with sees exactly its own update. */
  lemma {:induction false} RefreshFinesAt(loans: seq<Loan>, fines: map<int, Fine>, today: Date, i: int)
    requires LoanIdsDistinct(loans)
    requires 0 <= i < |loans|
    ensures Get(RefreshFines(loans, fines, today), loans[i].id)
            == RefreshedFine(loans[i], Get(fines, loans[i].id), today)
  {
    var n := |loans| - 1;
    var prefix := loans[..n];
    if i == n {
      RefreshFinesElsewhere(prefix, fines, today, loans[i].id);
    } else {
      assert prefix[i] == loans[i];
      RefreshFinesAt(prefix, fines, today, i);
    }
  }

  /** Fines of ids that belong to no loan are left alone. */
  lemma {:induction false} RefreshFinesElsewhere(loans: seq<Loan>, fines: map<int, Fine>, today: Date, k: int)
    requires forall i :: 0 <= i < |loans| ==> loans[i].id != k
    ensures Get(RefreshFines(loans, fines, today), k) == Get(fines, k)
  {
    if loans != [] {
      var n := |loans| - 1;
      RefreshFinesElsewhere(loans[..n], fines, today, k);
    }
  }

  lemma MapsEqualByGet(a: map<int, Fine>, b: map<int, Fine>)
    requires forall k :: Get(a, k) == Get(b, k)
    ensures a == b
  {
    forall k ensures k in a <==> k in b {
      assert Get(a, k) == Get(b, k);
    }
    forall k | k in a ensures a[k] == b[k] {
      assert Get(a, k) == Get(b, k);
    }
  }

  /** Running the refresh twice with the same "today" changes nothing the second time. */
  lemma RefreshFinesIdempotent(loans: seq<Loan>, fines: map<int, Fine>, today: Date)
    requires LoanIdsDistinct(loans)
    ensures RefreshFines(loans, RefreshFines(loans, fines, today), today) == RefreshFines(loans, fines, today)
  {
    var once := RefreshFines(loans, fines, today);
    var twice := RefreshFines(loans, once, today);
    forall k ensures Get(twice, k) == Get(once, k) {
      if i :| 0 <= i < |loans| && loans[i].id == k {
        RefreshFinesAt(loans, fines, today, i);
        RefreshFinesAt(loans, once, today, i);
      } else {
        RefreshFinesElsewhere(loans, fines, today, k);
        RefreshFinesElsewhere(loans, once, today, k);
      }
    }
    MapsEqualByGet(twice, once);
  }

  /** An overdue loan whose fine is missing or unpaid ends the pass with an
      unpaid fine of its recomputed amount: a new row, or the old one updated. */
  lemma {:induction false} RefreshFinesSetsOverdue(loans: seq<Loan>, fines: map<int, Fine>, today: Date, i: int)
    requires LoanIdsDistinct(loans)
    requires 0 <= i < |loans| && loans[i].due < today
    requires CalculateFineAmount(loans[i].due, loans[i].dateIn, today) > 0
    requires loans[i].id !in fines || !fines[loans[i].id].paid
    ensures Get(RefreshFines(loans, fines, today), loans[i].id)
            == Some(Fine(CalculateFineAmount(loans[i].due, loans[i].dateIn, today), false))
  {
    RefreshFinesAt(loans, fines, today, i);
  }

  /** A paid fine is never modified by the refresh. */
  lemma RefreshKeepsPaidFines(loans: seq<Loan>, fines: map<int, Fine>, today: Date, k: int)
    requires LoanIdsDistinct(loans)
    requires k in fines && fines[k].paid
    ensures var after := RefreshFines(loans, fines, today); k in after && after[k] == fines[k]
  {
    if i :| 0 <= i < |loans| && loans[i].id == k {
      RefreshFinesAt(loans, fines, today, i);
    } else {
      RefreshFinesElsewhere(loans, fines, today, k);
    }
  }

  /** The only rows the refresh creates or changes are unpaid fines, set to the
      positive recomputed amount, of loans due strictly before today. */
  lemma RefreshChangesOnlyOverdue(loans: seq<Loan>, fines: map<int, Fine>, today: Date, k: int)
    requires LoanIdsDistinct(loans)
    requires Get(RefreshFines(loans, fines, today), k) != Get(fines, k)
    ensures exists i :: 0 <= i < |loans| && loans[i].id == k && loans[i].due < today
              && (k !in fines || !fines[k].paid)
              && var amount := CalculateFineAmount(loans[i].due, loans[i].dateIn, today);
                 amount > 0 && Get(RefreshFines(loans, fines, today), k) == Some(Fine(amount, false))
  {
    if i :| 0 <= i < |loans| && loans[i].id == k {
      RefreshFinesAt(loans, fines, today, i);
    } else {
      RefreshFinesElsewhere(loans, fines, today, k);
    }
  }

  // ---------------------------------------------------------------------------
  // has_unpaid_fines, pay_fines

  /** Loan `l` belongs to `card` and has an unpaid fine. */
  predicate OwesOn(l: Loan, fines: map<int, Fine>, card: string)
  {
    l.card == card && l.id in fines && !fines[l.id].paid
  }

  /** A row of FINES JOIN BOOK_LOANS as pay_fines selects it. */
  datatype UnpaidFine = UnpaidFine(loanId: int, amount: Cents, dateIn: Option<Date>)

  function UnpaidFineOf(fines: map<int, Fine>, card: string): Loan -> Option<UnpaidFine>
  {
    (l: Loan) => if OwesOn(l, fines, card) then Some(UnpaidFine(l.id, fines[l.id].amount, l.dateIn)) else None
  }

  /** The unpaid fines of a borrower, one per loan, in loan order. */
  function UnpaidFinesOf(loans: seq<Loan>, fines: map<int, Fine>, card: string): seq<UnpaidFine>
  {
    FilterMap(loans, UnpaidFineOf(fines, card))
  }

  /** With distinct loan ids, a borrower's unpaid fines list each loan once. */
  lemma UnpaidFinesOfOnePerLoan(loans: seq<Loan>, fines: map<int, Fine>, card: string)
    requires LoanIdsDistinct(loans)
    ensures KeysUnique(UnpaidFinesOf(loans, fines, card), (u: UnpaidFine) => u.loanId)
  {
    assert KeysUnique(loans, (l: Loan) => l.id);
    FilterMapKeysUnique(loans, UnpaidFineOf(fines, card), (l: Loan) => l.id, (u: UnpaidFine) => u.loanId);
  }

  lemma UnpaidFinesOfMembers(loans: seq<Loan>, fines: map<int, Fine>, card: string, u: UnpaidFine)
    ensures u in UnpaidFinesOf(loans, fines, card) <==>
            exists i :: 0 <= i < |loans| && OwesOn(loans[i], fines, card)
                        && u == UnpaidFine(loans[i].id, fines[loans[i].id].amount, loans[i].dateIn)
  {
    FilterMapMembers(loans, UnpaidFineOf(fines, card), u);
  }

  /** has_unpaid_fines: the COUNT(*) of the borrower's unpaid fines is positive. */
  function HasUnpaidFines(loans: seq<Loan>, fines: map<int, Fine>, card: string): (r: bool)
    ensures r <==> exists i :: 0 <= i < |loans| && OwesOn(loans[i], fines, card)
  {
    var unpaid := UnpaidFinesOf(loans, fines, card);
    assert |unpaid| > 0 ==> exists i :: 0 <= i < |loans| && OwesOn(loans[i], fines, card) by {
      if |unpaid| > 0 {
        UnpaidFinesOfMembers(loans, fines, card, unpaid[0]);
      }
    }
    assert (exists i :: 0 <= i < |loans| && OwesOn(loans[i], fines, card)) ==> |unpaid| > 0 by {
      if i :| 0 <= i < |loans| && OwesOn(loans[i], fines, card) {
        var l := loans[i];
        UnpaidFinesOfMembers(loans, fines, card, UnpaidFine(l.id, fines[l.id].amount, l.dateIn));
      }
    }
    |unpaid| > 0
  }

  /** The loan ids of the unpaid fines whose book is still out, in order. */
  function UnreturnedLoanIds(unpaid: seq<UnpaidFine>): (ids: seq<int>)
    ensures forall id :: id in ids <==> exists j :: 0 <= j < |unpaid| && unpaid[j].dateIn.None? && unpaid[j].loanId == id
  {
    if unpaid == [] then []
    else
      (if unpaid[0].dateIn.None? then [unpaid[0].loanId] else []) + UnreturnedLoanIds(unpaid[1..])
  }

  /** The sum of the amounts, added from the first to the last. */
  function TotalAmount(unpaid: seq<UnpaidFine>): (total: Cents)
    ensures forall j :: 0 <= j < |unpaid| ==> unpaid[j].amount <= total
    ensures total == 0 <==> forall j :: 0 <= j < |unpaid| ==> unpaid[j].amount == 0
  {
    if unpaid == [] then 0
    else
      var n := |unpaid| - 1;
      var prefix := TotalAmount(unpaid[..n]);
      assert forall j :: 0 <= j < n ==> unpaid[j] == unpaid[..n][j];
      prefix + unpaid[n].amount
  }

  function LoanIdsOf(unpaid: seq<UnpaidFine>): (ids: seq<int>)
    ensures |ids| == |unpaid|
    ensures forall j :: 0 <= j < |unpaid| ==> ids[j] == unpaid[j].loanId
  {
    if unpaid == [] then []
    else LoanIdsOf(unpaid[..|unpaid| - 1]) + [unpaid[|unpaid| - 1].loanId]
  }

  /** Payment: every fine whose loan id is listed is marked paid; amounts and
      all other fines stay as they were. */
  function Settle(fines: map<int, Fine>, ids: seq<int>): (r: map<int, Fine>)
    ensures r.Keys == fines.Keys
    ensures forall k :: k in r ==> r[k].amount == fines[k].amount && r[k].paid == (fines[k].paid || k in ids)
  {
    map k | k in fines :: if k in ids && !fines[k].paid then fines[k].(paid := true) else fines[k]
  }

  /** After settling, the borrower owes nothing: no unpaid fine is left on any of their loans. */
  lemma SettleClearsBorrower(loans: seq<Loan>, fines: map<int, Fine>, card: string)
    ensures !HasUnpaidFines(loans, Settle(fines, LoanIdsOf(UnpaidFinesOf(loans, fines, card))), card)
  {
    var unpaid := UnpaidFinesOf(loans, fines, card);
    var ids := LoanIdsOf(unpaid);
    var settled := Settle(fines, ids);
    forall i | 0 <= i < |loans| && loans[i].card == card && loans[i].id in settled
      ensures settled[loans[i].id].paid
    {
      var l := loans[i];
      if !fines[l.id].paid {
        var u := UnpaidFine(l.id, fines[l.id].amount, l.dateIn);
        UnpaidFinesOfMembers(loans, fines, card, u);
        var j :| 0 <= j < |unpaid| && unpaid[j] == u;
        assert ids[j] == l.id;
      }
    }
  }

  /** Settling one borrower leaves the fines of every other borrower's loans as they were. */
  lemma SettleLeavesOtherBorrowers(loans: seq<Loan>, fines: map<int, Fine>, card: string, j: int)
    requires LoanIdsDistinct(loans)
    requires 0 <= j < |loans| && loans[j].card != card
    ensures Get(Settle(fines, LoanIdsOf(UnpaidFinesOf(loans, fines, card))), loans[j].id) == Get(fines, loans[j].id)
  {
    var unpaid := UnpaidFinesOf(loans, fines, card);
    var ids := LoanIdsOf(unpaid);
    if loans[j].id in ids {
      var m :| 0 <= m < |ids| && ids[m] == loans[j].id;
      UnpaidFinesOfMembers(loans, fines, card, unpaid[m]);
      assert false;
    }
  }

  // ---------------------------------------------------------------------------
  // get_fines_by_borrower

  /** A row of FINES JOIN BOOK_LOANS JOIN BORROWER JOIN BOOK. */
  datatype FineRow = FineRow(card: string, name: string, loanId: int, amount: Cents, paid: bool,
                             isbn: string, title: string, due: Date, dateIn: Option<Date>)

  function FineRowOf(fines: map<int, Fine>, borrowers: seq<Borrower>, books: seq<Book>, includePaid: bool)
    : Loan -> Option<FineRow>
  {
    (l: Loan) =>
      if l.id in fines && (includePaid || !fines[l.id].paid) then
        match (FindBorrower(borrowers, l.card), FindBook(books, l.isbn))
        case (Some(br), Some(b)) =>
          Some(FineRow(l.card, br.name, l.id, fines[l.id].amount, fines[l.id].paid, l.isbn, b.title, l.due, l.dateIn))
        case _ => None
      else None
  }

  /** ORDER BY Card_id, Paid, Due_date (unpaid first). */
  predicate ByCardPaidDue(a: FineRow, b: FineRow)
  {
    if a.card != b.card then StrLe(a.card, b.card)
    else if a.paid != b.paid then !a.paid
    else a.due <= b.due
  }

  lemma ByCardPaidDueTotal()
    ensures Total(ByCardPaidDue)
  {
    forall a: FineRow, b: FineRow ensures ByCardPaidDue(a, b) || ByCardPaidDue(b, a) {
      StrLeTotal(a.card, b.card);
    }
  }

  /** The rows of the listing query, paid fines included only when asked for. */
  function FineRows(loans: seq<Loan>, fines: map<int, Fine>, borrowers: seq<Borrower>, books: seq<Book>,
                    includePaid: bool): (rows: seq<FineRow>)
    ensures Sorted(rows, ByCardPaidDue)
    ensures forall row :: row in rows <==>
              exists i :: 0 <= i < |loans| && FineRowOf(fines, borrowers, books, includePaid)(loans[i]) == Some(row)
    ensures forall row :: row in rows ==> includePaid || !row.paid
    ensures multiset(rows) == multiset(FilterMap(loans, FineRowOf(fines, borrowers, books, includePaid)))
  {
    var joined := FilterMap(loans, FineRowOf(fines, borrowers, books, includePaid));
    ByCardPaidDueTotal();
    forall row ensures row in joined <==>
        exists i :: 0 <= i < |loans| && FineRowOf(fines, borrowers, books, includePaid)(loans[i]) == Some(row) {
      FilterMapMembers(loans, FineRowOf(fines, borrowers, books, includePaid), row);
    }
    var rows := InsertionSort(joined, ByCardPaidDue);
    assert forall row :: row in rows <==> row in joined by {
      assert forall row :: row in rows <==> row in multiset(rows);
    }
    rows
  }

  /** With distinct loan ids, the listing holds each fine once, so no
      borrower's total counts a fine twice. */
  lemma FineRowsOnePerLoan(loans: seq<Loan>, fines: map<int, Fine>, borrowers: seq<Borrower>, books: seq<Book>,
                           includePaid: bool)
    requires LoanIdsDistinct(loans)
    ensures KeysUnique(FineRows(loans, fines, borrowers, books, includePaid), (row: FineRow) => row.loanId)
  {
    var f := FineRowOf(fines, borrowers, books, includePaid);
    assert KeysUnique(loans, (l: Loan) => l.id);
    FilterMapKeysUnique(loans, f, (l: Loan) => l.id, (row: FineRow) => row.loanId);
    InsertionSortKeysUnique(FilterMap(loans, f), ByCardPaidDue, (row: FineRow) => row.loanId);
  }

  /** The summary get_fines_by_borrower keeps per card. */
  datatype BorrowerFines = BorrowerFines(card: string, name: string, fines: seq<FineRow>, total: Cents)

  /** What a row adds to its borrower's total: its amount if unpaid, else nothing. */
  function UnpaidPart(row: FineRow): Cents
  {
    if row.paid then 0 else row.amount
  }

  /** The sum of the unpaid amounts among `rows`, added from the first to the last. */
  function UnpaidTotal(rows: seq<FineRow>): Cents
  {
    if rows == [] then 0 else UnpaidTotal(rows[..|rows| - 1]) + UnpaidPart(rows[|rows| - 1])
  }

  function RowOfCard(card: string): FineRow -> Option<FineRow>
  {
    (row: FineRow) => if row.card == card then Some(row) else None
  }

  /** The rows of one borrower, in listing order. */
  function RowsFor(rows: seq<FineRow>, card: string): seq<FineRow>
  {
    FilterMap(rows, RowOfCard(card))
  }

  /** The position of `card` in the summaries, or |groups| when it is not there. */
  function GroupIndex(groups: seq<BorrowerFines>, card: string): (k: nat)
    ensures k <= |groups|
    ensures k < |groups| ==> groups[k].card == card
    ensures k == |groups| ==> forall j :: 0 <= j < |groups| ==> groups[j].card != card
  {
    if groups == [] then 0
    else if groups[0].card == card then 0
    else 1 + GroupIndex(groups[1..], card)
  }

  /** One iteration of the grouping loop. */
  function AddFineRow(groups: seq<BorrowerFines>, row: FineRow): (after: seq<BorrowerFines>)
    ensures |groups| <= |after| <= |groups| + 1
    ensures GroupIndex(groups, row.card) < |after| && after[GroupIndex(groups, row.card)].card == row.card
  {
    var k := GroupIndex(groups, row.card);
    var gs := if k == |groups| then groups + [BorrowerFines(row.card, row.name, [], 0)] else groups;
    gs[k := gs[k].(fines := gs[k].fines + [row], total := gs[k].total + UnpaidPart(row))]
  }

  /** The summaries after the grouping loop has visited every row in order. */
  function GroupByBorrower(rows: seq<FineRow>): (groups: seq<BorrowerFines>)
    ensures |groups| <= |rows|
    ensures groups == [] <==> rows == []
  {
    if rows == [] then []
    else AddFineRow(GroupByBorrower(rows[..|rows| - 1]), rows[|rows| - 1])
  }

  /** One summary describes `rows`: it lists that card's rows in order, is
      named after the first of them, and totals their unpaid amounts. */
  ghost predicate Describes(g: BorrowerFines, rows: seq<FineRow>)
  {
    && g.fines == RowsFor(rows, g.card)
    && g.fines != []
    && g.name == g.fines[0].name
    && g.total == UnpaidTotal(g.fines)
  }

  ghost predicate CardsOnce(groups: seq<BorrowerFines>)
  {
    forall a, b :: 0 <= a < b < |groups| ==> groups[a].card != groups[b].card
  }

  ghost predicate CoversRows(groups: seq<BorrowerFines>, rows: seq<FineRow>)
  {
    forall j :: 0 <= j < |rows| ==> exists k :: 0 <= k < |groups| && groups[k].card == rows[j].card
  }

  /** The summaries describe `rows`: one per card that occurs in them. */
  ghost predicate Summarises(groups: seq<BorrowerFines>, rows: seq<FineRow>)
  {
    && CardsOnce(groups)
    && (forall k :: 0 <= k < |groups| ==> Describes(groups[k], rows))
    && CoversRows(groups, rows)
  }

  lemma RowsForSnoc(rows: seq<FineRow>, row: FineRow, card: string)
    ensures RowsFor(rows + [row], card) == RowsFor(rows, card) + (if row.card == card then [row] else [])
  {
    FilterMapAppend(rows, [row], RowOfCard(card));
    assert [row][1..] == [];
  }

  lemma RowsForNone(rows: seq<FineRow>, card: string)
    requires forall j :: 0 <= j < |rows| ==> rows[j].card != card
    ensures RowsFor(rows, card) == []
  {
    if RowsFor(rows, card) != [] {
      FilterMapMembers(rows, RowOfCard(card), RowsFor(rows, card)[0]);
    }
  }

  /** What one iteration of the grouping loop does to the summaries: the row's
      card gets the row appended (a new summary when the card is new), and
      every other summary stays as it was. */
  lemma AddFineRowShape(groups: seq<BorrowerFines>, row: FineRow)
    ensures var k := GroupIndex(groups, row.card);
            var after := AddFineRow(groups, row);
            && |after| == (if k == |groups| then |groups| + 1 else |groups|)
            && (forall m :: 0 <= m < |groups| && m != k ==> after[m] == groups[m])
            && after[k].card == row.card
            && (k == |groups| ==> after[k] == BorrowerFines(row.card, row.name, [row], UnpaidPart(row)))
            && (k < |groups| ==> after[k] == groups[k].(fines := groups[k].fines + [row],
                                                           total := groups[k].total + UnpaidPart(row)))
  {
  }

  /** A card seen for the first time starts a summary of its one row. */
  lemma DescribesNew(rows: seq<FineRow>, row: FineRow)
    requires forall j :: 0 <= j < |rows| ==> rows[j].card != row.card
    ensures Describes(BorrowerFines(row.card, row.name, [row], UnpaidPart(row)), rows + [row])
  {
    RowsForNone(rows, row.card);
    RowsForSnoc(rows, row, row.card);
    assert [row][..0] == [];
  }

  /** A row of a known card is appended to that card's summary. */
  lemma DescribesExtend(g: BorrowerFines, rows: seq<FineRow>, row: FineRow)
    requires Describes(g, rows) && g.card == row.card
    ensures Describes(g.(fines := g.fines + [row], total := g.total + UnpaidPart(row)), rows + [row])
  {
    RowsForSnoc(rows, row, g.card);
    assert (g.fines + [row])[..|g.fines|] == g.fines;
  }

  /** A row of another card leaves a summary as it was. */
  lemma DescribesOther(g: BorrowerFines, rows: seq<FineRow>, row: FineRow)
    requires Describes(g, rows) && g.card != row.card
    ensures Describes(g, rows + [row])
  {
    RowsForSnoc(rows, row, g.card);
  }

  lemma AddFineRowCardsOnce(groups: seq<BorrowerFines>, row: FineRow)
    requires CardsOnce(groups)
    ensures CardsOnce(AddFineRow(groups, row))
  {
    var k := GroupIndex(groups, row.card);
    var after := AddFineRow(groups, row);
    AddFineRowShape(groups, row);
    forall a, b | 0 <= a < b < |after| ensures after[a].card != after[b].card {
      if b == k && k == |groups| {
        assert after[a] == groups[a];
      }
    }
  }

  lemma AddFineRowCovers(groups: seq<BorrowerFines>, rows: seq<FineRow>, row: FineRow)
    requires CoversRows(groups, rows)
    ensures CoversRows(AddFineRow(groups, row), rows + [row])
  {
    var k := GroupIndex(groups, row.card);
    var after := AddFineRow(groups, row);
    var rows' := rows + [row];
    AddFineRowShape(groups, row);
    forall j | 0 <= j < |rows'| ensures exists m :: 0 <= m < |after| && after[m].card == rows'[j].card {
      if j < |rows| {
        var m :| 0 <= m < |groups| && groups[m].card == rows[j].card;
        assert after[m].card == rows'[j].card;
      } else {
        assert after[k].card == rows'[j].card;
      }
    }
  }

  lemma AddFineRowDescribesAt(groups: seq<BorrowerFines>, rows: seq<FineRow>, row: FineRow, m: int)
    requires CardsOnce(groups)
    requires 0 <= m < |AddFineRow(groups, row)|
    requires m < |groups| ==> Describes(groups[m], rows)
    requires m == |groups| ==> forall j :: 0 <= j < |rows| ==> rows[j].card != row.card
    ensures Describes(AddFineRow(groups, row)[m], rows + [row])
  {
    var k := GroupIndex(groups, row.card);
    AddFineRowShape(groups, row);
    if m != k {
      DescribesOther(groups[m], rows, row);
    } else if k == |groups| {
      DescribesNew(rows, row);
    } else {
      DescribesExtend(groups[k], rows, row);
    }
  }

  lemma AddFineRowDescribes(groups: seq<BorrowerFines>, rows: seq<FineRow>, row: FineRow)
    requires Summarises(groups, rows)
    ensures forall m :: 0 <= m < |AddFineRow(groups, row)| ==> Describes(AddFineRow(groups, row)[m], rows + [row])
  {
    var after := AddFineRow(groups, row);
    AddFineRowShape(groups, row);
    forall m | 0 <= m < |after| ensures Describes(after[m], rows + [row]) {
      if m == |groups| {
        forall j | 0 <= j < |rows| ensures rows[j].card != row.card {
          var g :| 0 <= g < |groups| && groups[g].card == rows[j].card;
        }
      }
      AddFineRowDescribesAt(groups, rows, row, m);
    }
  }

  /** One iteration of the grouping loop keeps the summaries describing the rows seen so far. */
  lemma AddFineRowSummarises(groups: seq<BorrowerFines>, rows: seq<FineRow>, row: FineRow)
    requires Summarises(groups, rows)
    ensures Summarises(AddFineRow(groups, row), rows + [row])
  {
    AddFineRowCardsOnce(groups, row);
    AddFineRowCovers(groups, rows, row);
    AddFineRowDescribes(groups, rows, row);
  }

  /** Each borrower's total counts only the unpaid fines, even when paid ones are listed. */
  lemma {:induction false} GroupByBorrowerSummarises(rows: seq<FineRow>)
    ensures Summarises(GroupByBorrower(rows), rows)
  {
    if rows != [] {
      var n := |rows| - 1;
      assert rows == rows[..n] + [rows[n]];
      GroupByBorrowerSummarises(rows[..n]);
      AddFineRowSummarises(GroupByBorrower(rows[..n]), rows[..n], rows[n]);
    }
  }

  // ---------------------------------------------------------------------------
  // get_unpaid_fines

  /** A row of FINES JOIN BOOK_LOANS JOIN BOOK for one borrower. */
  datatype FineDetail = FineDetail(loanId: int, amount: Cents, isbn: string, title: string, due: Date, dateIn: Option<Date>)

  function FineDetailOf(fines: map<int, Fine>, books: seq<Book>, card: string): Loan -> Option<FineDetail>
  {
    (l: Loan) =>
      if OwesOn(l, fines, card) then
        match FindBook(books, l.isbn)
        case Some(b) => Some(FineDetail(l.id, fines[l.id].amount, l.isbn, b.title, l.due, l.dateIn))
        case None => None
      else None
  }

  predicate ByDue(a: FineDetail, b: FineDetail)
  {
    a.due <= b.due
  }

  /** get_unpaid_fines: the borrower's unpaid fines with their books, by due date. */
  function UnpaidFineDetails(loans: seq<Loan>, fines: map<int, Fine>, books: seq<Book>, card: string)
    : (details: seq<FineDetail>)
    ensures Sorted(details, ByDue)
    ensures forall d :: d in details <==>
              exists i :: 0 <= i < |loans| && OwesOn(loans[i], fines, card)
                          && FindBook(books, loans[i].isbn).Some?
                          && d == FineDetail(loans[i].id, fines[loans[i].id].amount, loans[i].isbn,
                                             FindBook(books, loans[i].isbn).value.title, loans[i].due, loans[i].dateIn)
    ensures multiset(details) == multiset(FilterMap(loans, FineDetailOf(fines, books, card)))
  {
    var joined := FilterMap(loans, FineDetailOf(fines, books, card));
    forall d ensures d in joined <==> exists i :: 0 <= i < |loans| && FineDetailOf(fines, books, card)(loans[i]) == Some(d) {
      FilterMapMembers(loans, FineDetailOf(fines, books, card), d);
    }
    var details := InsertionSort(joined, ByDue);
    assert forall d :: d in details <==> d in joined by {
      assert forall d :: d in details <==> d in multiset(details);
    }
    details
  }

  /** With distinct loan ids, get_unpaid_fines lists each fine once. */
  lemma UnpaidFineDetailsOnePerLoan(loans: seq<Loan>, fines: map<int, Fine>, books: seq<Book>, card: string)
    requires LoanIdsDistinct(loans)
    ensures KeysUnique(UnpaidFineDetails(loans, fines, books, card), (d: FineDetail) => d.loanId)
  {
    var f := FineDetailOf(fines, books, card);
    assert KeysUnique(loans, (l: Loan) => l.id);
    FilterMapKeysUnique(loans, f, (l: Loan) => l.id, (d: FineDetail) => d.loanId);
    InsertionSortKeysUnique(FilterMap(loans, f), ByDue, (d: FineDetail) => d.loanId);
  }
}
