# Transaction list view state (fms-frontend)

A Dafny model of the view logic in the transaction list component of the
personal-finance front end. The component holds a list of transaction records
and four items of view state: the page number, the page size, the search text
and the category filter. On every render it derives the rows to show. First it
keeps the records whose description contains the search text, ignoring case,
and whose category equals the filter (`"all"` lets every category through).
Then it cuts out the current page. Three handlers change the state: change the
page, change the page size (which also goes back to page 0), and delete the
records with a given id. The inline change handlers of the search field and
the category selector are modelled too, and so is the load's one state
change, which replaces the list with the fetched records.

Files:

- `js_string.dfy` (module `JsString`): `toLowerCase`, restricted to ASCII, and
  `String.prototype.includes`, with the proof that `includes` is exactly the
  contiguous-substring test.
- `js_array.dfy` (module `JsArray`): `Array.prototype.filter` with a total
  predicate, and `Array.prototype.slice` with its clamping rules. The
  reference meaning of filtering is `IsSelection`: the result is the input
  read at exactly the positions whose element passes, in increasing order.
- `transaction_list.dfy` (module `TransactionList`): the record, the search
  and category predicates, the filtered list, the page window, the pages
  partition, deletion by id, and the class `TransactionView`. Its fields are
  the component's state variables and its methods are the handlers.
- `mock_transactions.dfy` (module `MockTransactions`): the seven placeholder
  records the component loads, with amounts in cents, and the scenarios they
  give: the "income" filter, the "bill" search, one page of ten, and deleting
  record 1.

## Model

| member | source | states |
|---|---|---|
| `TransactionList.TransactionView.constructor` | fms-frontend/src/components/Transactions/TransactionList.jsx:25-30 | initial state: no records, page 0, 10 rows per page, empty search, category "all" |
| `TransactionList.TransactionView.Load` | fms-frontend/src/components/Transactions/TransactionList.jsx:51 | the state's list becomes the loaded records; page, page size, search and filter are unchanged |
| `TransactionList.TransactionView.FilteredTransactions` | fms-frontend/src/components/Transactions/TransactionList.jsx:79-83 | a record is in the derived list iff it is in the state's list and passes both the search and the category test; the list is the state's list read at exactly the matching positions, in increasing order |
| `TransactionList.TransactionView.VisibleRows` | fms-frontend/src/components/Transactions/TransactionList.jsx:157-158 | for a valid state: the rendered rows number at most `rowsPerPage`; row k is filtered row `page*rowsPerPage + k`; each is a matching record of the list; a page that starts inside the filtered list has min(rowsPerPage, rows left) rows; the page is empty iff it starts at or past the end |
| `TransactionList.TransactionView.ChangePage` | fms-frontend/src/components/Transactions/TransactionList.jsx:64-66 | sets `page` to the new value; records, page size, search and filter are unchanged |
| `TransactionList.TransactionView.ChangeRowsPerPage` | fms-frontend/src/components/Transactions/TransactionList.jsx:68-71 | sets `rowsPerPage` to the new positive value and `page` to 0; records, search and filter are unchanged |
| `TransactionList.TransactionView.DeleteTransaction` | fms-frontend/src/components/Transactions/TransactionList.jsx:73-75 | the list becomes the old list without the records carrying `id`; no remaining record has that id; unique ids stay unique, and with unique ids a present id shortens the list by one; the other state is unchanged |
| `TransactionList.TransactionView.SetSearchTerm` | fms-frontend/src/components/Transactions/TransactionList.jsx:108 | only the search text changes; the page is not reset |
| `TransactionList.TransactionView.SetFilterCategory` | fms-frontend/src/components/Transactions/TransactionList.jsx:122 | only the category filter changes; the page is not reset |
| `TransactionList.MatchesSearch` | fms-frontend/src/components/Transactions/TransactionList.jsx:80 | no contract of its own: `SearchIsCaseInsensitive` states what it decides |
| `TransactionList.MatchesCategory` | fms-frontend/src/components/Transactions/TransactionList.jsx:81 | no contract of its own: `AllCategoriesIsSearchOnly` gives the "all" case, and otherwise a record passes iff its category equals the filter |
| `TransactionList.Matches` | fms-frontend/src/components/Transactions/TransactionList.jsx:79-83 | no contract of its own: the conjunction of the two tests; `FilteredIsSearchThenCategory` splits it |
| `TransactionList.Filtered` | fms-frontend/src/components/Transactions/TransactionList.jsx:79-83 | no contract of its own: `FilteredExactly` gives its meaning |
| `TransactionList.FilteredExactly` | fms-frontend/src/components/Transactions/TransactionList.jsx:79-83 | the filtered list holds exactly the matching records, and it is the original list read at exactly the matching positions in increasing order (order kept, nothing dropped or repeated) |
| `TransactionList.SearchIsCaseInsensitive` | fms-frontend/src/components/Transactions/TransactionList.jsx:80 | a description matches iff lower(search) occurs contiguously in lower(description); lower-casing either side first does not change the answer |
| `TransactionList.FilteredIsSearchThenCategory` | fms-frontend/src/components/Transactions/TransactionList.jsx:79-83 | filtering by the conjunction equals filtering by the search, then by the category |
| `TransactionList.AllCategoriesIsSearchOnly` | fms-frontend/src/components/Transactions/TransactionList.jsx:81 | with the filter at "all" the result equals filtering by the search alone |
| `TransactionList.InitialFilterKeepsAll` | fms-frontend/src/components/Transactions/TransactionList.jsx:80-81 | with an empty search and "all" the filtered list is the whole list |
| `TransactionList.Page` | fms-frontend/src/components/Transactions/TransactionList.jsx:158 | a page has at most `rowsPerPage` rows, row k being filtered row `page*rowsPerPage + k`; it is empty when the start is at or past the end and otherwise has min(rowsPerPage, rows left) rows |
| `TransactionList.PageRowsAreFiltered` | fms-frontend/src/components/Transactions/TransactionList.jsx:157-158 | every row of any page of the filtered list is a matching record of the list |
| `TransactionList.PageIsWindow` | fms-frontend/src/components/Transactions/TransactionList.jsx:158 | a page that starts inside the list is the contiguous block from its start to min(start + rowsPerPage, length) |
| `TransactionList.Pages` | fms-frontend/src/components/Transactions/TransactionList.jsx:158 | no contract of its own: pages 0 .. count-1 placed side by side; `PagesArePrefix` and `PagesPartition` give its meaning |
| `TransactionList.PagesArePrefix` | fms-frontend/src/components/Transactions/TransactionList.jsx:158 | pages 0 .. c-1 placed side by side are the first min(c*rowsPerPage, length) rows |
| `TransactionList.AppendPage` | fms-frontend/src/components/Transactions/TransactionList.jsx:158 | the rows before page p, followed by page p, are the rows before page p+1 |
| `TransactionList.PageCount` | fms-frontend/src/components/Transactions/TransactionList.jsx:201 | no contract of its own: ceil(n / rowsPerPage); `PageCountBounds` and `PagesPartition` state that it is the number of non-empty pages |
| `TransactionList.PageCountBounds` | fms-frontend/src/components/Transactions/TransactionList.jsx:201-204 | ceil(n / rowsPerPage) pages hold all n rows, and each of them starts before row n |
| `TransactionList.PagesPartition` | fms-frontend/src/components/Transactions/TransactionList.jsx:157-158 | for rowsPerPage > 0, pages 0 .. ceil(n/rowsPerPage)-1 concatenated reproduce the filtered list exactly; each of them is non-empty and the next page is empty |
| `TransactionList.RowIsOnItsPage` | fms-frontend/src/components/Transactions/TransactionList.jsx:158 | filtered row i is row i mod rowsPerPage of page i div rowsPerPage |
| `TransactionList.DeleteRemovesOnlyId` | fms-frontend/src/components/Transactions/TransactionList.jsx:75 | after deleting `id`, a record remains iff it was there and has another id, and the survivors keep their original order |
| `TransactionList.DeleteAbsentIsNoOp` | fms-frontend/src/components/Transactions/TransactionList.jsx:75 | deleting an id no record carries leaves the list unchanged |
| `TransactionList.DeleteIdempotent` | fms-frontend/src/components/Transactions/TransactionList.jsx:75 | deleting the same id twice equals deleting it once |
| `TransactionList.DeletePresentRemovesOne` | fms-frontend/src/components/Transactions/TransactionList.jsx:75 | with unique ids, deleting a present id shortens the list by exactly one |
| `TransactionList.DeleteKeepsUniqueIds` | fms-frontend/src/components/Transactions/TransactionList.jsx:75 | deleting from a list with unique ids leaves a list with unique ids |
| `TransactionList.DeleteOutcome` | fms-frontend/src/components/Transactions/TransactionList.jsx:73-75 | after a delete no record has the id; unique ids are kept; with unique ids a present id removes exactly one record |
| `TransactionList.Without` | fms-frontend/src/components/Transactions/TransactionList.jsx:75 | no contract of its own: `DeleteRemovesOnlyId`, `DeleteAbsentIsNoOp`, `DeleteIdempotent` and the lemmas above give its meaning |
| `JsString.Lower` | fms-frontend/src/components/Transactions/TransactionList.jsx:80 | `toLowerCase` keeps the length; each character goes through `LowerChar` |
| `JsString.LowerChar` | fms-frontend/src/components/Transactions/TransactionList.jsx:80 | 'A'..'Z' move up by 32 to 'a'..'z', every other character is kept, and no upper-case ASCII letter remains |
| `JsString.Includes` | fms-frontend/src/components/Transactions/TransactionList.jsx:80 | every string includes `""`; a string longer than `s` is never included; `IncludesIsSubstring` gives the full meaning |
| `JsString.IncludesIsSubstring` | fms-frontend/src/components/Transactions/TransactionList.jsx:80 | `includes(s, t)` holds iff t occurs in s as a contiguous block at some index |
| `JsArray.Filter` | fms-frontend/src/components/Transactions/TransactionList.jsx:79 | `filter` never lengthens its input |
| `JsArray.FilterIsSelection` | fms-frontend/src/components/Transactions/TransactionList.jsx:79-83 | `filter` returns the input read at exactly the passing positions, in increasing order |
| `JsArray.FilterMembership` | fms-frontend/src/components/Transactions/TransactionList.jsx:79-83 | x is in the filtered sequence iff x is in the input and passes the predicate |
| `JsArray.FilterAppend` | fms-frontend/src/components/Transactions/TransactionList.jsx:79-83 | filtering a concatenation is concatenating the filtered parts |
| `JsArray.FilterKeepsAll` | fms-frontend/src/components/Transactions/TransactionList.jsx:75 | a predicate that every element passes gives the input back |
| `JsArray.FilterIdempotent` | fms-frontend/src/components/Transactions/TransactionList.jsx:75 | filtering twice by one predicate equals filtering once |
| `JsArray.FilterCongruent` | fms-frontend/src/components/Transactions/TransactionList.jsx:79-83 | predicates that agree on the input filter it the same way |
| `JsArray.FilterConjunction` | fms-frontend/src/components/Transactions/TransactionList.jsx:82 | filtering by `p && q` equals filtering by p, then by q |
| `JsArray.Slice` | fms-frontend/src/components/Transactions/TransactionList.jsx:158 | for a non-negative start the slice has at most end-start elements, element k being `s[start+k]`; it is empty from the end on and otherwise has min(end, length) - start elements; an end at or before a non-negative start gives `[]`; an end at or below -length gives `[]`; a start at or below -length counts from 0; a negative start above -length with an end at or past the length gives the last -start elements |
| `MockTransactions.IncomeShowsSalary` | fms-frontend/src/components/Transactions/TransactionList.jsx:43-49 | on the seven placeholder records, the "income" filter shows exactly the salary (id 2) |
| `MockTransactions.BillSearchFindsBills` | fms-frontend/src/components/Transactions/TransactionList.jsx:43-49 | on the placeholder records, searching "bill" shows exactly ids 3 and 7, in that order |
| `MockTransactions.TenRowsFitOnePage` | fms-frontend/src/components/Transactions/TransactionList.jsx:157-158 | with 10 rows per page, page 0 shows all seven placeholder records and page 1 shows none |
| `MockTransactions.DeleteFirstLeavesSix` | fms-frontend/src/components/Transactions/TransactionList.jsx:73-75 | deleting id 1 from the placeholder records leaves six, none with id 1 |

## Left out

- The data load (`useEffect` with a `setTimeout` placeholder, lines 36-62) and the `loading` flag: asynchronous I/O. Its one state change, `setTransactions` at line 51, is `TransactionView.Load`; the placeholder records are a test vector in `MockTransactions`.
- The snackbar notifications after a failed load and after a delete (lines 56 and 76): fire-and-forget calls into a UI library.
- Rendering: the table, the MUI styling, the "income" colour, the capitalised category labels, and the amount shown as `Math.abs(amount).toFixed(2)` with a colour by sign. This is display and floating-point formatting. Amounts are whole cents and nothing in the model reads them.
- The fixed list of category options (line 34). The model accepts any string as the category filter, a superset of what the selector offers.
- `parseInt(event.target.value, 10)` in the page-size handler (line 69). `ChangeRowsPerPage` takes the parsed value and requires it to be positive, so a `NaN` or non-positive page size is not modelled.
- `TransactionList.TransactionView.ChangePage`: takes a natural number; the page number that the pagination widget passes is not checked against the page count, and neither does the source check it.
- The edit button (line 183): it has no handler.
- `toLowerCase` is ASCII-only (`JsString.Lower`): non-ASCII letters are not case-folded as JavaScript would fold them.
- `PageCount` (ceil(n / rowsPerPage)) stands for the page count that the pagination widget derives from `count={filteredTransactions.length}` (lines 199-206). The widget itself is not modelled.
- Each state setter is modelled as an immediate assignment. React batches the two setters of `handleChangeRowsPerPage` into one re-render; the resulting state is the same.
