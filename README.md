# Library loans and fines

A model of the circulation core of a small library database. Librarians
use it to do four things:

- search the catalogue;
- check books out to borrowers and back in;
- find a borrower's active loans;
- recompute, list and collect late fines.

The Python original keeps its state in six SQLite tables (BOOK, AUTHORS,
BOOK_AUTHORS, BORROWER, BOOK_LOANS, FINES) and answers with rows and messages.
Here:

- **Tables.** Each table is a Dafny value: a `seq` of rows, or for FINES a
  `map` from loan id to the fine.
- **Queries.** Every SQL query is a function over those values:
  - a join-and-filter is `Tables.FilterMap`;
  - an `ORDER BY` is the stable `Sorting.InsertionSort` under the query's key order.
- **Updates.** The operations that change the database are methods of one
  object, `Library.Library`:
  - `checkout` and `checkin` change the loan table;
  - `update_fines` and `pay_fines` change the fine table.

  Its catalogue and borrower tables are constants. Its loan table, fine table
  and loan-id counter (the AUTOINCREMENT of BOOK_LOANS) are fields. Every
  method keeps the store's integrity rules, `Valid()`:
  - distinct ISBNs and card ids;
  - distinct loan ids below the counter;
  - every loan due fourteen days after it went out, for a book and a borrower that exist;
  - at most one active loan per book;
  - every fine attached to a loan, positive, and a whole number of days at $0.25.
- **Loops.** Each loop of the original (the fine refresh, the check-in batch,
  the payment total, the grouping of fines by borrower) is an imperative Dafny
  loop, proved equal to a prefix fold in `FineEngine` or `LoanRules`. The
  properties of the system are proved as lemmas about those folds.

Modules:

- `Text`: ASCII lower-casing, substring search, Python `strip`, `join`, string order.
- `Sorting`: a stable insertion sort; sortedness, permutation and key uniqueness.
- `Tables`: rows, lookups, `FilterMap`.
- `FineEngine`: `fines.py`.
- `LoanRules`: the rules of `loans.py` and the loan search.
- `BookSearch`: `search.py`.
- `Library`: the stateful store.

Dates are whole day numbers, money is whole cents, and the current date is a
parameter `today`.

## Model

| member | source | states |
|---|---|---|
| FineEngine.CalculateFineAmount | fines.py:35-69 | no fine when the book came back (or today is) on or before the due date; otherwise a positive fine of exactly $0.25 per day between the due date and the return date (today while the book is out) |
| FineEngine.EndDate | fines.py:52-59 | the fine runs to the return date when the book is back, and to today while it is out |
| FineEngine.FineGrowsDaily | fines.py:52-67 | while an overdue book stays out, each further day adds exactly one day's rate |
| FineEngine.RefreshedFine | fines.py:99-130 | both directions of one loan's refresh: when the loan is overdue, its recomputed amount is positive and its fine is missing or unpaid, the fine becomes an unpaid fine of that amount (created or updated); in every other case the fine is left as it was; an existing fine is never deleted |
| FineEngine.RefreshLoan | fines.py:99-130 | visiting one loan sets that loan's fine to its one-loan refresh and leaves every other loan id's fine unchanged |
| FineEngine.RefreshFinesKeys | fines.py:99-130 | the whole pass deletes no fine, and each fine it creates belongs to one of the visited loans |
| FineEngine.RefreshFinesAt | fines.py:99-130 | after the whole pass, each loan's fine is the one-loan refresh of its fine before the pass |
| FineEngine.RefreshFinesElsewhere | fines.py:99-130 | fines of loan ids the pass does not visit are unchanged |
| FineEngine.RefreshFinesSetsOverdue | fines.py:107-130 | after the whole pass, every overdue loan with a positive amount whose fine was missing or unpaid has an unpaid fine of exactly the recomputed amount |
| FineEngine.RefreshFinesIdempotent | fines.py:72-133 | running update_fines twice on the same day gives the same fine table as running it once |
| FineEngine.RefreshKeepsPaidFines | fines.py:112-115 | a paid fine is never touched by the refresh |
| FineEngine.RefreshChangesOnlyOverdue | fines.py:88-96 | any fine the refresh changes belongs to a loan whose due date is before today |
| FineEngine.UnpaidFinesOfMembers | fines.py:273-285 | a row is among the borrower's unpaid-fine rows exactly when it is the row (loan id, amount, return date) of a loan of that card with an unpaid fine |
| FineEngine.UnpaidFinesOfOnePerLoan | fines.py:273-285 | with distinct loan ids, no loan appears twice among the unpaid-fine rows |
| FineEngine.HasUnpaidFines | fines.py:7-32 | true exactly when some loan of the card has an unpaid fine |
| FineEngine.UnreturnedLoanIds | fines.py:290-295 | an id is reported exactly when it belongs to an unpaid fine whose book has not been returned |
| FineEngine.LoanIdsOf | fines.py:297-302 | the collected ids are the fines' loan ids, one per fine, in order |
| FineEngine.TotalAmount | fines.py:297-302 | the total is at least each amount, and zero exactly when every amount is zero |
| FineEngine.Settle | fines.py:304-310 | marking fines paid keeps every fine and its amount, and makes a fine paid exactly when it was paid already or its id is in the list |
| FineEngine.SettleClearsBorrower | fines.py:245-319 | after paying, the borrower has no unpaid fine left |
| FineEngine.SettleLeavesOtherBorrowers | fines.py:304-310 | paying for one borrower leaves every other borrower's fines as they were |
| FineEngine.ByCardPaidDueTotal | fines.py:171 | the listing's order (card, then unpaid before paid, then due date) relates any two rows |
| FineEngine.FineRows | fines.py:146-175 | the listing is a permutation of the joined rows of fines that exist (each loan's row as often as the join yields it), with paid ones only when asked for, sorted by card, paid flag and due date |
| FineEngine.FineRowsOnePerLoan | fines.py:155-175 | with distinct loan ids, no loan appears twice in the listing |
| FineEngine.GroupIndex | fines.py:181-182 | finds the group of a card when there is one, and otherwise reports that no group has that card |
| FineEngine.RowsForSnoc | fines.py:177-203 | adding a row to the listing adds it to its own card's rows only |
| FineEngine.AddFineRowCardsOnce | fines.py:181-188 | grouping one more row never creates a second group for a card |
| FineEngine.AddFineRowCovers | fines.py:181-188 | after grouping one more row, its card has a group |
| FineEngine.AddFineRow | fines.py:179-203 | one row adds at most one group, and afterwards the group at the row's card position is that card's |
| FineEngine.AddFineRowSummarises | fines.py:179-203 | one loop iteration keeps the grouping a faithful summary of the rows seen so far |
| FineEngine.GroupByBorrower | fines.py:177-203 | there are no more groups than rows, and no group exactly when there is no row |
| FineEngine.GroupByBorrowerSummarises | fines.py:177-206 | the result has one entry per card in the listing; each entry holds exactly that card's rows in listing order, the name of its first row, and the sum of its unpaid amounts |
| FineEngine.UnpaidFineDetails | fines.py:322-366 | get_unpaid_fines returns a permutation of the borrower's unpaid fines whose book exists, with book title and dates, ordered by due date |
| FineEngine.UnpaidFineDetailsOnePerLoan | fines.py:322-366 | with distinct loan ids, no loan appears twice among the details |
| LoanRules.ActiveLoanCount | loans.py:43-48 | the count is the number of distinct loans of the card that have no return date |
| LoanRules.ActiveLoanCountAppend | loans.py:64-76 | a new loan adds one to its own card's active count and nothing to another card's |
| LoanRules.ActiveCopies | loans.py:54-59 | a book has active copies exactly when some loan of its ISBN has no return date |
| LoanRules.ActiveCopiesAtMostOne | loans.py:53-62 | with one active loan per book, a book is out at most once |
| LoanRules.ActiveLoanIndex | loans.py:194-198 | finds an active loan with the given id when there is one, and otherwise reports that none exists |
| LoanRules.CheckinOne | loans.py:193-211 | one id either is reported as an error, leaving the loans and count as they were, or checks in a loan and adds one to the count; the loan table keeps its size |
| LoanRules.CheckinAll | loans.py:192-211 | the batch keeps the size of the loan table, and counts and reports at most one entry per id |
| LoanRules.FailedIds | loans.py:199-201 | the failed ids come from the batch, include every id that names no active loan, and are no more than the batch |
| LoanRules.CheckinAllLoans | loans.py:192-211 | the batch returns exactly the active loans whose ids it names, dated today, and leaves every other loan unchanged |
| LoanRules.CheckinAllErrors | loans.py:199-201 | an id is reported as an error exactly when no active loan had that id before the batch or it already appeared earlier in the batch |
| LoanRules.CheckinAllAccounts | loans.py:192-211 | every id of the batch is either counted as checked in or reported as an error |
| LoanRules.NewlyReturnedUpdate | loans.py:204-209 | closing one active loan raises the number of newly returned loans by one |
| LoanRules.CheckinAllCount | loans.py:211 | the checked-in count equals the number of loans the batch turned from active to returned |
| LoanRules.NewlyReturnedNone | loans.py:211 | with no change, nothing is counted as returned |
| LoanRules.CheckinRepeatedId | loans.py:192-211 | an id given twice is checked in once, and its second occurrence is an error |
| LoanRules.CheckinPartialBatch | loans.py:213-216 | in a batch with one good and one unknown id, the good loan is checked in and only the unknown id is an error |
| LoanRules.FindLoansBySearch | loans.py:83-136 | the result is a permutation of the joined active loans whose lowered ISBN, card id or borrower name holds the lowered term, sorted by due date |
| LoanRules.LoanRowOfIs | loans.py:99-115 | a loan yields a result row exactly when it is active, its book and borrower exist and one of its three fields matches |
| LoanRules.FindLoansBySearchMembers | loans.py:99-136 | a row is in the result exactly when it is the row of such a matching active loan |
| BookSearch.AuthorsText | search.py:33 | "Unknown" when the book has no linked author; otherwise a text that contains every author's name and starts with the first |
| BookSearch.ActiveBorrowerOf | search.py:64-75 | reports no borrower exactly when the book has no active loan; otherwise the card of an active loan of that book |
| BookSearch.ActiveBorrowerIsHolder | search.py:64-75 | under the one-copy rule the reported borrower is the one holding the book |
| BookSearch.BookRowOf | search.py:29-83 | a result row copies ISBN and title, and its authors are the linked authors' names joined (or "Unknown"); it is OUT exactly when the book has an active loan, then naming that loan's card, and IN with borrower "NULL" otherwise |
| BookSearch.ByIsbnTotal | search.py:48 | ISBN order relates any two rows |
| BookSearch.Search | search.py:5-86 | a blank term finds nothing; otherwise the result is the matching books' rows, permuted into ISBN order |
| BookSearch.SearchMembers | search.py:17-51 | a row is in the result exactly when the term is not blank and the row describes a book whose lowered ISBN, title or author name holds the trimmed, lowered term |
| BookSearch.SearchIsbnsUnique | search.py:36-48 | with distinct ISBNs in the catalogue, no book appears twice in the result |
| Text.Lower | search.py:25 | lowering keeps the length and lowers each ASCII letter in place |
| Text.Contains | search.py:41-46 | the LIKE '%term%' test: true exactly when the term occurs somewhere in the text |
| Text.StripLeft | search.py:17 | removes exactly the leading whitespace |
| Text.StripRight | search.py:17 | removes exactly the trailing whitespace |
| Text.Strip | search.py:17 | empty exactly when the text is all whitespace; otherwise it begins and ends with non-whitespace and is the text with only whitespace removed before and after it |
| Text.Join | search.py:33 | a GROUP_CONCAT starts with its first part, followed by the separator when there are more |
| Text.JoinContainsEach | search.py:33 | a GROUP_CONCAT contains each of its parts and starts with the first |
| Text.StrLe | search.py:48 | the text order compares strings lexicographically: first differing character, and a prefix before its extensions |
| Text.StrLeTotal | search.py:48 | text order relates any two strings |
| Tables.Find | loans.py:23-35 | the lookup by key (book by ISBN, borrower by card, author by id at search.py:36-44) finds a row with that key when one exists, and reports none exactly when no row has it |
| Tables.FilterMap | search.py:34-47 | a filtered join keeps no more rows than its source |
| Tables.FilterMapMembers | search.py:36-47 | a joined, filtered query yields a row exactly when some source row produces it |
| Tables.FilterMapAppend | fines.py:177-203 | filtering a concatenation is the concatenation of the filtered parts |
| Tables.FilterMapKeysUnique | search.py:36-48 | a filtered join that keeps each source row's key never lists a key twice when the source does not |
| Sorting.Insert | fines.py:171 | inserting into a sorted sequence keeps it sorted and adds exactly the one element |
| Sorting.InsertionSort | search.py:48 | ORDER BY returns a sorted permutation of the query's rows |
| Sorting.InsertionSortKeysUnique | search.py:48 | sorting never makes two rows share a key |
| Library.Refusal | loans.py:23-62 | the gates of checkout in order: unknown borrower, unknown book, unpaid fines (unless overridden), three active loans (unless overridden), book already out; each refusal holds exactly when its gate is the first to fail, and no refusal exactly when all pass |
| Library.OverrideLiftsOnlyBorrowerGates | loans.py:37-62 | the override changes only a fines or loan-limit refusal, and then to the availability verdict; a book that is out stays refused |
| Library.CheckinKeepsTables | loans.py:192-211 | closing loans keeps the store's integrity rules |
| Library.Library.constructor | init_db.py:51-72 | a new store has the given catalogue and borrowers, no loans, no fines, and a counter at 1 |
| Library.Library.Checkout | loans.py:6-80 | succeeds exactly when no gate refuses; a refusal names the first failing gate and changes nothing; a success appends one active loan with the next id, dated today and due in 14 days, returns the title and due date, leaves the book out exactly once, and keeps a borrower at three active loans at most unless overridden |
| Library.Library.InsertLoan | loans.py:64-76 | appends the new loan with the next id and due date today plus 14, advancing the counter and keeping the integrity rules |
| Library.Library.Checkin | loans.py:167-223 | an empty or over-long batch is refused before any change; otherwise each named active loan is returned today, the errors are exactly the ids that named no active loan or repeated an earlier id of the batch, and every id is either counted or an error |
| Library.Library.CloseLoans | loans.py:192-211 | the loop's loan table, count and error list are those of the check-in fold |
| Library.Library.UpdateFines | fines.py:72-133 | the fine table becomes the refresh of the old table over all loans, keeping the integrity rules; every overdue loan with a positive amount whose fine was missing or unpaid ends with an unpaid fine of exactly that amount |
| Library.Library.PayFines | fines.py:245-319 | unknown borrower, nothing to pay, and unreturned books are refused and change nothing, each exactly under its condition; otherwise the total of the unpaid fines (positive) is paid, all of the borrower's fines become paid and no other borrower's fine changes |
| Library.Library.GetFinesByBorrower | fines.py:136-206 | returns the grouping of the listing rows, which summarises them per borrower |
| Library.Library.SearchCatalogue | search.py:5-86 | search over the store's catalogue, authors, links and loans, listing no ISBN twice |
| Library.ActiveCopiesAppend | loans.py:64-76 | a new active loan of a book adds exactly one active copy |
| Library.CheckoutKeepsTables | loans.py:53-76 | adding a loan for an available book with the next id keeps the integrity rules |
| Library.UnpaidAmountsPositive | fines.py:297-302 | when a borrower has unpaid fines, their total is positive |
| Library.SumUnpaid | fines.py:297-302 | the loop's total is the sum of the unpaid amounts and its ids are their loan ids in order |
| Library.SettlementOutcome | fines.py:297-310 | paying a borrower with unpaid fines collects a positive total, leaves nothing unpaid for them, leaves other borrowers' fines unchanged, and keeps the fine table well formed |
| Library.RefreshKeepsFineTable | fines.py:99-130 | the refresh keeps every fine attached to a loan, positive and a whole number of days |
| Library.SettleKeepsFineTable | fines.py:304-310 | paying keeps the fine-table integrity rules |
| Library.RefreshTable | fines.py:99-130 | the loop's fine table is the refresh fold over the loans |
| Library.GroupRows | fines.py:177-203 | the loop's groups are the grouping fold of the rows and summarise them per borrower |

## Left out

- The GUI (gui.py), the database creation script (init_db.py), config.py and
  the user-loading script are not part of this model. The constructor stands
  for an empty database loaded with a catalogue and borrowers.
- The display_* functions only print results, so they are not modelled.
- The SQLite connection, commits, and the `sqlite3.Error` branches that turn a
  database failure into an error message are not modelled. The model's
  operations cannot fail that way.
- `datetime.now()` and `date.today()` become the parameter `today`. Date
  strings and their `strptime` parsing become whole day numbers.
- `Decimal` amounts become whole cents. Every fine is a whole number of days
  at $0.25, so nothing is rounded.
- The messages the functions return are reduced to result constructors.
  Their text, such as the list of failing loan ids joined with "; ", is not
  modelled.
- LIKE patterns are modelled as substring tests. A `%` or `_` typed inside a
  search term acts as a wildcard in SQLite, but the model matches it
  literally.
- Case folding is ASCII only, like SQLite's LOWER. Python's `lower()` of the
  term also folds non-ASCII letters, which the model does not.
- BookSearch.AuthorsText: promises only that each author's name appears and
  that the text starts with the first name. SQLite does not fix the order of
  GROUP_CONCAT; the model joins the names in link order.
- Rows of queries without ORDER BY (the overdue loans in update_fines, the
  unpaid fines in pay_fines, the availability lookup) are taken in loan
  insertion order.
- The docstring of `checkout` (loans.py:13) says that override also bypasses
  availability. The code (loans.py:53-62) refuses a book that is out even
  with override, and the model follows the code.
