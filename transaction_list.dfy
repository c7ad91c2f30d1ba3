/**
 * The view state of the transaction list: the records it holds, the search
 * and category filters, and the page window shown on screen.
 *
 * Amounts are whole cents, so the record is free of floating point; nothing
 * here depends on the amount.
 */
module TransactionList {
  import opened JsString
  import opened JsArray

  datatype Transaction = Transaction(
    id: int,
    date: string,        // ISO date, YYYY-MM-DD
    description: string,
    amount: int,         // cents; negative for an expense
    category: string)

  /** The category filter value that lets every record through. */
  const AllCategories: string := "all"

  const InitialRowsPerPage: nat := 10

  /** Case-insensitive (ASCII only) substring search in a description. */
  predicate MatchesSearch(description: string, searchTerm: string)
  {
    Includes(Lower(description), Lower(searchTerm))
  }

  predicate MatchesCategory(category: string, filterCategory: string)
  {
    filterCategory == AllCategories || category == filterCategory
  }

  /** The predicate the list is filtered by: both tests must pass. */
  predicate Matches(t: Transaction, searchTerm: string, filterCategory: string)
  {
    MatchesSearch(t.description, searchTerm) && MatchesCategory(t.category, filterCategory)
  }

  function MatchesFilter(searchTerm: string, filterCategory: string): Transaction -> bool
  {
    (t: Transaction) => Matches(t, searchTerm, filterCategory)
  }

  function SearchFilter(searchTerm: string): Transaction -> bool
  {
    (t: Transaction) => MatchesSearch(t.description, searchTerm)
  }

  function CategoryFilter(filterCategory: string): Transaction -> bool
  {
    (t: Transaction) => MatchesCategory(t.category, filterCategory)
  }

  /** The derived list `filteredTransactions`. */
  function Filtered(ts: seq<Transaction>, searchTerm: string, filterCategory: string): seq<Transaction>
  {
    Filter(ts, MatchesFilter(searchTerm, filterCategory))
  }

  /**
   * The filtered list holds exactly the matching records and keeps them in
   * their original relative order.
   */
  lemma FilteredExactly(ts: seq<Transaction>, searchTerm: string, filterCategory: string)
    ensures forall t :: t in Filtered(ts, searchTerm, filterCategory) <==> t in ts && Matches(t, searchTerm, filterCategory)
    ensures IsSelection(Filtered(ts, searchTerm, filterCategory), ts, MatchesFilter(searchTerm, filterCategory))
  {
    forall t {
      FilterMembership(ts, MatchesFilter(searchTerm, filterCategory), t);
    }
    FilterIsSelection(ts, MatchesFilter(searchTerm, filterCategory));
  }

  /** The search matches iff lower(term) occurs contiguously in lower(description). */
  lemma SearchIsCaseInsensitive(description: string, searchTerm: string)
    ensures MatchesSearch(description, searchTerm) <==> ContainsSubstring(Lower(description), Lower(searchTerm))
    ensures MatchesSearch(description, Lower(searchTerm)) == MatchesSearch(description, searchTerm)
    ensures MatchesSearch(Lower(description), searchTerm) == MatchesSearch(description, searchTerm)
  {
    IncludesIsSubstring(Lower(description), Lower(searchTerm));
    LowerIdempotent(searchTerm);
    LowerIdempotent(description);
  }

  /** The two tests compose: filtering by both is searching, then narrowing by category. */
  lemma FilteredIsSearchThenCategory(ts: seq<Transaction>, searchTerm: string, filterCategory: string)
    ensures Filtered(ts, searchTerm, filterCategory)
         == Filter(Filter(ts, SearchFilter(searchTerm)), CategoryFilter(filterCategory))
  {
    FilterConjunction(ts, SearchFilter(searchTerm), CategoryFilter(filterCategory),
                      MatchesFilter(searchTerm, filterCategory));
  }

  /** With the category filter at "all" only the search term decides. */
  lemma AllCategoriesIsSearchOnly(ts: seq<Transaction>, searchTerm: string)
    ensures Filtered(ts, searchTerm, AllCategories) == Filter(ts, SearchFilter(searchTerm))
  {
    FilterCongruent(ts, MatchesFilter(searchTerm, AllCategories), SearchFilter(searchTerm));
  }

  /** An empty search with "all" shows the whole list. */
  lemma InitialFilterKeepsAll(ts: seq<Transaction>)
    ensures Filtered(ts, "", AllCategories) == ts
  {
    forall t | t in ts
      ensures MatchesFilter("", AllCategories)(t)
    {
    }
    FilterKeepsAll(ts, MatchesFilter("", AllCategories));
  }

  /** The rows of page number `page`: `slice(page * rpp, page * rpp + rpp)`. */
  function Page(fs: seq<Transaction>, page: nat, rowsPerPage: nat): (r: seq<Transaction>)
    ensures |r| <= rowsPerPage
    ensures forall k :: 0 <= k < |r| ==> page * rowsPerPage + k < |fs| && r[k] == fs[page * rowsPerPage + k]
    ensures |fs| <= page * rowsPerPage ==> r == []
    ensures page * rowsPerPage < |fs| ==> |r| == Min(rowsPerPage, |fs| - page * rowsPerPage)
  {
    Slice(fs, page * rowsPerPage, page * rowsPerPage + rowsPerPage)
  }

  /** Every row on a page of the filtered list is a matching record of the list. */
  lemma PageRowsAreFiltered(ts: seq<Transaction>, searchTerm: string, filterCategory: string,
                            page: nat, rowsPerPage: nat)
    ensures forall t :: t in Page(Filtered(ts, searchTerm, filterCategory), page, rowsPerPage) ==>
              t in ts && Matches(t, searchTerm, filterCategory)
  {
    FilteredExactly(ts, searchTerm, filterCategory);
    PageRowsAreRows(Filtered(ts, searchTerm, filterCategory), page, rowsPerPage);
  }

  lemma PageRowsAreRows(fs: seq<Transaction>, page: nat, rowsPerPage: nat)
    ensures forall t :: t in Page(fs, page, rowsPerPage) ==> t in fs
  {
    forall t | t in Page(fs, page, rowsPerPage) ensures t in fs {
      var k :| 0 <= k < |Page(fs, page, rowsPerPage)| && Page(fs, page, rowsPerPage)[k] == t;
    }
  }

  /** Before the end of the list a page is the contiguous block it starts. */
  lemma PageIsWindow(fs: seq<Transaction>, page: nat, rowsPerPage: nat)
    requires page * rowsPerPage <= |fs|
    ensures Page(fs, page, rowsPerPage)
         == fs[page * rowsPerPage..Min(page * rowsPerPage + rowsPerPage, |fs|)]
  {
    var r := Page(fs, page, rowsPerPage);
    var w := fs[page * rowsPerPage..Min(page * rowsPerPage + rowsPerPage, |fs|)];
    assert |r| == |w|;
    assert forall k :: 0 <= k < |r| ==> r[k] == w[k];
  }

  /** Pages 0 .. count-1 put side by side. */
  function Pages(fs: seq<Transaction>, rowsPerPage: nat, count: nat): seq<Transaction>
  {
    if count == 0 then [] else Pages(fs, rowsPerPage, count - 1) + Page(fs, count - 1, rowsPerPage)
  }

  /** The first `count` pages are the first `count * rowsPerPage` rows. */
  lemma {:induction false} PagesArePrefix(fs: seq<Transaction>, rowsPerPage: nat, count: nat)
    ensures Pages(fs, rowsPerPage, count) == fs[..Min(count * rowsPerPage, |fs|)]
  {
    if count > 0 {
      PagesArePrefix(fs, rowsPerPage, count - 1);
      AppendPage(fs, rowsPerPage, count - 1);
    }
  }

  /** The rows before page `page`, followed by that page, are the rows before the next one. */
  lemma AppendPage(fs: seq<Transaction>, rowsPerPage: nat, page: nat)
    ensures fs[..Min(page * rowsPerPage, |fs|)] + Page(fs, page, rowsPerPage)
         == fs[..Min((page + 1) * rowsPerPage, |fs|)]
  {
    var a, b := page * rowsPerPage, (page + 1) * rowsPerPage;
    assert b == a + rowsPerPage;
    if a < |fs| {
      PageIsWindow(fs, page, rowsPerPage);
      assert fs[..a] + fs[a..Min(b, |fs|)] == fs[..Min(b, |fs|)];
    }
  }

  /** The number of pages needed for `n` rows: ceil(n / rowsPerPage). */
  function PageCount(n: nat, rowsPerPage: nat): nat
    requires rowsPerPage > 0
  {
    (n + rowsPerPage - 1) / rowsPerPage
  }

  /**
   * The pages partition the filtered list: together they are the list,
   * every page before the count is non-empty and the page at the count is
   * empty.
   */
  lemma PagesPartition(fs: seq<Transaction>, rowsPerPage: nat)
    requires rowsPerPage > 0
    ensures Pages(fs, rowsPerPage, PageCount(|fs|, rowsPerPage)) == fs
    ensures forall p: nat :: p < PageCount(|fs|, rowsPerPage) ==> Page(fs, p, rowsPerPage) != []
    ensures Page(fs, PageCount(|fs|, rowsPerPage), rowsPerPage) == []
  {
    PageCountBounds(|fs|, rowsPerPage);
    PagesArePrefix(fs, rowsPerPage, PageCount(|fs|, rowsPerPage));
    assert fs[..|fs|] == fs;
  }

  /** `count` pages hold `n` rows, and each of them starts before row `n`. */
  lemma PageCountBounds(n: nat, rowsPerPage: nat)
    requires rowsPerPage > 0
    ensures n <= PageCount(n, rowsPerPage) * rowsPerPage
    ensures forall p: nat :: p < PageCount(n, rowsPerPage) ==> p * rowsPerPage < n
  {
    var c := PageCount(n, rowsPerPage);
    var m := (n + rowsPerPage - 1) % rowsPerPage;
    assert c * rowsPerPage + m == n + rowsPerPage - 1;
    assert 0 <= m < rowsPerPage;
    forall p: nat | p < c
      ensures p * rowsPerPage < n
    {
      MulMonotone(p, c - 1, rowsPerPage);
      assert (c - 1) * rowsPerPage == c * rowsPerPage - rowsPerPage;
    }
  }

  lemma MulMonotone(a: nat, b: nat, k: nat)
    requires a <= b
    ensures a * k <= b * k
  {
  }

  /** Row `i` of the filtered list is row `i % rpp` of page `i / rpp`. */
  lemma RowIsOnItsPage(fs: seq<Transaction>, rowsPerPage: nat, i: nat)
    requires rowsPerPage > 0 && i < |fs|
    ensures i % rowsPerPage < |Page(fs, i / rowsPerPage, rowsPerPage)|
    ensures Page(fs, i / rowsPerPage, rowsPerPage)[i % rowsPerPage] == fs[i]
  {
    var p, k := i / rowsPerPage, i % rowsPerPage;
    assert p * rowsPerPage + k == i;
    assert p * rowsPerPage <= i;
  }

  /** `transactions.filter(t => t.id !== id)`. */
  function Without(ts: seq<Transaction>, id: int): seq<Transaction>
  {
    Filter(ts, IdIsNot(id))
  }

  function IdIsNot(id: int): Transaction -> bool
  {
    (t: Transaction) => t.id != id
  }

  /**
   * After deleting `id` no record has that id, and every other record is
   * still there, in its place in the original order.
   */
  lemma DeleteRemovesOnlyId(ts: seq<Transaction>, id: int)
    ensures forall t :: t in Without(ts, id) <==> t in ts && t.id != id
    ensures IsSelection(Without(ts, id), ts, IdIsNot(id))
  {
    forall t {
      FilterMembership(ts, IdIsNot(id), t);
    }
    FilterIsSelection(ts, IdIsNot(id));
  }

  /** Deleting an id no record carries changes nothing. */
  lemma DeleteAbsentIsNoOp(ts: seq<Transaction>, id: int)
    requires forall t :: t in ts ==> t.id != id
    ensures Without(ts, id) == ts
  {
    FilterKeepsAll(ts, IdIsNot(id));
  }

  /** Deleting twice is deleting once. */
  lemma DeleteIdempotent(ts: seq<Transaction>, id: int)
    ensures Without(Without(ts, id), id) == Without(ts, id)
  {
    FilterIdempotent(ts, IdIsNot(id));
  }

  ghost predicate UniqueIds(ts: seq<Transaction>)
  {
    forall i, j :: 0 <= i < j < |ts| ==> ts[i].id != ts[j].id
  }

  /** Deleting keeps the ids unique. */
  lemma {:induction false} DeleteKeepsUniqueIds(ts: seq<Transaction>, id: int)
    requires UniqueIds(ts)
    ensures UniqueIds(Without(ts, id))
  {
    if ts != [] {
      var rest := ts[1..];
      assert UniqueIds(rest) by {
        forall i, j | 0 <= i < j < |rest| ensures rest[i].id != rest[j].id {
          assert rest[i] == ts[i + 1] && rest[j] == ts[j + 1];
        }
      }
      DeleteKeepsUniqueIds(rest, id);
      var head, tail := Keep(ts[0], IdIsNot(id)), Without(rest, id);
      assert Without(ts, id) == head + tail;
      forall t | t in tail ensures t.id != ts[0].id {
        FilterMembership(rest, IdIsNot(id), t);
        var j :| 0 <= j < |rest| && rest[j] == t;
        assert ts[j + 1] == t;
      }
      var w := head + tail;
      forall i, j | 0 <= i < j < |w| ensures w[i].id != w[j].id {
        if i < |head| {
          assert w[i] == ts[0] && w[j] == tail[j - |head|] && w[j] in tail;
        } else {
          assert w[i] == tail[i - |head|] && w[j] == tail[j - |head|];
        }
      }
    }
  }

  /** With unique ids, deleting a present id removes exactly one record. */
  lemma {:induction false} DeletePresentRemovesOne(ts: seq<Transaction>, id: int)
    requires UniqueIds(ts)
    requires exists i :: 0 <= i < |ts| && ts[i].id == id
    ensures |Without(ts, id)| == |ts| - 1
  {
    var rest := ts[1..];
    assert UniqueIds(rest) by {
      forall i, j | 0 <= i < j < |rest| ensures rest[i].id != rest[j].id {
        assert rest[i] == ts[i + 1] && rest[j] == ts[j + 1];
      }
    }
    if ts[0].id == id {
      forall t | t in rest ensures t.id != id {
        var j :| 0 <= j < |rest| && rest[j] == t;
        assert ts[j + 1] == t;
      }
      DeleteAbsentIsNoOp(rest, id);
    } else {
      var i :| 0 <= i < |ts| && ts[i].id == id;
      assert rest[i - 1] == ts[i];
      DeletePresentRemovesOne(rest, id);
    }
  }

  /** What deleting promises, gathered for the delete handler. */
  lemma DeleteOutcome(ts: seq<Transaction>, id: int)
    ensures forall t :: t in Without(ts, id) ==> t.id != id
    ensures UniqueIds(ts) ==> UniqueIds(Without(ts, id))
    ensures UniqueIds(ts) && (exists i :: 0 <= i < |ts| && ts[i].id == id) ==> |Without(ts, id)| == |ts| - 1
  {
    forall t | t in Without(ts, id) ensures t.id != id {
      FilterMembership(ts, IdIsNot(id), t);
    }
    if UniqueIds(ts) {
      DeleteKeepsUniqueIds(ts, id);
      if exists i :: 0 <= i < |ts| && ts[i].id == id {
        DeletePresentRemovesOne(ts, id);
      }
    }
  }

  /**
   * The component's state: the five `useState` variables (the `loading`
   * flag of the data load is not modelled). The list shown on screen is
   * derived from them on every read.
   */
  class TransactionView {
    var transactions: seq<Transaction>
    var page: nat
    var rowsPerPage: nat
    var searchTerm: string
    var filterCategory: string

    ghost predicate Valid()
      reads this
    {
      rowsPerPage > 0
    }

    /** The initial state: no records, page 0, 10 rows, empty search, "all". */
    constructor ()
      ensures Valid()
      ensures transactions == [] && page == 0 && rowsPerPage == InitialRowsPerPage
      ensures searchTerm == "" && filterCategory == AllCategories
    {
      transactions := [];
      page := 0;
      rowsPerPage := InitialRowsPerPage;
      searchTerm := "";
      filterCategory := AllCategories;
    }

    /**
     * The load's `setTransactions(records)`, taken as one synchronous step:
     * only the list changes.
     */
    method Load(records: seq<Transaction>)
      requires Valid()
      modifies this
      ensures Valid()
      ensures transactions == records
      ensures page == old(page) && rowsPerPage == old(rowsPerPage)
      ensures searchTerm == old(searchTerm) && filterCategory == old(filterCategory)
    {
      transactions := records;
    }

    /** `filteredTransactions`: exactly the matching records, in order. */
    function FilteredTransactions(): (r: seq<Transaction>)
      reads this
      ensures forall t :: t in r <==> t in transactions && Matches(t, searchTerm, filterCategory)
      ensures IsSelection(r, transactions, MatchesFilter(searchTerm, filterCategory))
    {
      FilteredExactly(transactions, searchTerm, filterCategory);
      Filtered(transactions, searchTerm, filterCategory)
    }

    /**
     * The rows rendered: at most `rowsPerPage` consecutive rows of the
     * filtered list (`Filtered(...)`, which `FilteredTransactions` returns)
     * from `page * rowsPerPage` on, as many as are left up to a full page,
     * and none past its end.
     */
    function VisibleRows(): (r: seq<Transaction>)
      requires Valid()
      reads this
      ensures |r| <= rowsPerPage
      ensures forall k :: 0 <= k < |r| ==>
                page * rowsPerPage + k < |Filtered(transactions, searchTerm, filterCategory)|
                && r[k] == Filtered(transactions, searchTerm, filterCategory)[page * rowsPerPage + k]
      ensures forall t :: t in r ==> t in transactions && Matches(t, searchTerm, filterCategory)
      ensures page * rowsPerPage < |Filtered(transactions, searchTerm, filterCategory)| ==>
                |r| == Min(rowsPerPage, |Filtered(transactions, searchTerm, filterCategory)| - page * rowsPerPage)
      ensures r == [] <==> |Filtered(transactions, searchTerm, filterCategory)| <= page * rowsPerPage
    {
      PageRowsAreFiltered(transactions, searchTerm, filterCategory, page, rowsPerPage);
      Page(Filtered(transactions, searchTerm, filterCategory), page, rowsPerPage)
    }

    /** `handleChangePage`: only the page changes. */
    method ChangePage(newPage: nat)
      requires Valid()
      modifies this
      ensures Valid()
      ensures page == newPage
      ensures transactions == old(transactions) && rowsPerPage == old(rowsPerPage)
      ensures searchTerm == old(searchTerm) && filterCategory == old(filterCategory)
    {
      page := newPage;
    }

    /** `handleChangeRowsPerPage`: new page size, back to page 0. */
    method ChangeRowsPerPage(newRowsPerPage: nat)
      requires Valid()
      requires newRowsPerPage > 0
      modifies this
      ensures Valid()
      ensures rowsPerPage == newRowsPerPage && page == 0
      ensures transactions == old(transactions)
      ensures searchTerm == old(searchTerm) && filterCategory == old(filterCategory)
    {
      rowsPerPage := newRowsPerPage;
      page := 0;
    }

    /** `handleDeleteTransaction`: drops every record with `id`. */
    method DeleteTransaction(id: int)
      requires Valid()
      modifies this
      ensures Valid()
      ensures transactions == Without(old(transactions), id)
      ensures forall t :: t in transactions ==> t.id != id
      ensures UniqueIds(old(transactions)) ==> UniqueIds(transactions)
      ensures UniqueIds(old(transactions)) && (exists i :: 0 <= i < |old(transactions)| && old(transactions)[i].id == id)
              ==> |transactions| == |old(transactions)| - 1
      ensures page == old(page) && rowsPerPage == old(rowsPerPage)
      ensures searchTerm == old(searchTerm) && filterCategory == old(filterCategory)
    {
      DeleteOutcome(transactions, id);
      transactions := Without(transactions, id);
    }

    /** The search field's change handler: the page is not reset. */
    method SetSearchTerm(newSearchTerm: string)
      requires Valid()
      modifies this
      ensures Valid()
      ensures searchTerm == newSearchTerm
      ensures transactions == old(transactions) && page == old(page) && rowsPerPage == old(rowsPerPage)
      ensures filterCategory == old(filterCategory)
    {
      searchTerm := newSearchTerm;
    }

    /** The category selector's change handler: the page is not reset. */
    method SetFilterCategory(newFilterCategory: string)
      requires Valid()
      modifies this
      ensures Valid()
      ensures filterCategory == newFilterCategory
      ensures transactions == old(transactions) && page == old(page) && rowsPerPage == old(rowsPerPage)
      ensures searchTerm == old(searchTerm)
    {
      filterCategory := newFilterCategory;
    }
  }
}
