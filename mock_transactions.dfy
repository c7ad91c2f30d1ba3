/**
 * The seven records the list starts with once its placeholder load has
 * finished, with amounts in cents, and what the view shows for them.
 *
 * The "bill" lemmas take the search term as a parameter fixed by a
 * `requires searchTerm == "bill"` rather than writing the literal: on a
 * literal the verifier evaluates `Lower` and `Includes` eagerly on every
 * description, which makes these proofs far more expensive.
 */
module MockTransactions {
  import opened JsString
  import opened JsArray
  import opened TransactionList

  const Grocery := Transaction(1, "2025-05-15", "Grocery Shopping", -12050, "groceries")
  const Salary := Transaction(2, "2025-05-14", "Salary", 300000, "income")
  const Electric := Transaction(3, "2025-05-12", "Electric Bill", -8575, "utilities")
  const Movie := Transaction(4, "2025-05-10", "Movie Tickets", -2499, "entertainment")
  const Gas := Transaction(5, "2025-05-08", "Gas", -4500, "transportation")
  const Doctor := Transaction(6, "2025-05-05", "Doctor Visit", -6000, "healthcare")
  const Internet := Transaction(7, "2025-05-01", "Internet Bill", -7999, "utilities")

  const Mock: seq<Transaction> := [Grocery, Salary, Electric, Movie, Gas, Doctor, Internet]

  /** A search term whose first letter the description lacks cannot match. */
  lemma {:induction false} MissingLetterNoMatch(description: string, searchTerm: string)
    requires |searchTerm| > 0
    requires forall i :: 0 <= i < |description| ==> LowerChar(description[i]) != LowerChar(searchTerm[0])
    ensures !MatchesSearch(description, searchTerm)
  {
    var s, t := Lower(description), Lower(searchTerm);
    IncludesIsSubstring(s, t);
    assert forall i :: OccursAt(s, t, i) ==> s[i] == t[0];
  }

  /** Filtering a list of seven, one element at a time. */
  lemma FilterSeven<T>(a: T, b: T, c: T, d: T, e: T, f: T, g: T, p: T -> bool)
    ensures Filter([a, b, c, d, e, f, g], p)
         == Keep(a, p) + Keep(b, p) + Keep(c, p) + Keep(d, p) + Keep(e, p) + Keep(f, p) + Keep(g, p)
  {
    assert [a, b, c, d, e, f, g] == [a] + [b] + [c] + [d] + [e] + [f] + [g];
    FilterOne(a, p);
    FilterOne(b, p);
    FilterOne(c, p);
    FilterOne(d, p);
    FilterOne(e, p);
    FilterOne(f, p);
    FilterOne(g, p);
    FilterAppend([a] + [b] + [c] + [d] + [e] + [f], [g], p);
    FilterAppend([a] + [b] + [c] + [d] + [e], [f], p);
    FilterAppend([a] + [b] + [c] + [d], [e], p);
    FilterAppend([a] + [b] + [c], [d], p);
    FilterAppend([a] + [b], [c], p);
    FilterAppend([a], [b], p);
  }

  /** A list of seven whose third and last elements alone pass `p`. */
  lemma ThirdAndLastOfSeven<T>(a: T, b: T, c: T, d: T, e: T, f: T, g: T, p: T -> bool)
    requires !p(a) && !p(b) && p(c) && !p(d) && !p(e) && !p(f) && p(g)
    ensures Filter([a, b, c, d, e, f, g], p) == [c, g]
  {
    FilterSeven(a, b, c, d, e, f, g, p);
  }

  lemma FilterOne<T>(x: T, p: T -> bool)
    ensures Filter([x], p) == Keep(x, p)
  {
    assert [x][1..] == [];
  }

  /** A matching record is kept ... */
  lemma KeepMatching(t: Transaction, searchTerm: string, filterCategory: string)
    requires Matches(t, searchTerm, filterCategory)
    ensures Keep(t, MatchesFilter(searchTerm, filterCategory)) == [t]
  {
  }

  /** ... and a record failing either test is dropped. */
  lemma KeepNotMatching(t: Transaction, searchTerm: string, filterCategory: string)
    requires !MatchesSearch(t.description, searchTerm) || !MatchesCategory(t.category, filterCategory)
    ensures Keep(t, MatchesFilter(searchTerm, filterCategory)) == []
  {
  }

  /** The "income" category shows only the salary. */
  lemma IncomeShowsSalary()
    ensures Filtered(Mock, "", "income") == [Salary]
  {
    KeepNotMatching(Grocery, "", "income");
    KeepMatching(Salary, "", "income");
    KeepNotMatching(Electric, "", "income");
    KeepNotMatching(Movie, "", "income");
    KeepNotMatching(Gas, "", "income");
    KeepNotMatching(Doctor, "", "income");
    KeepNotMatching(Internet, "", "income");
    FilterSeven(Grocery, Salary, Electric, Movie, Gas, Doctor, Internet, MatchesFilter("", "income"));
  }

  /** A description without the letter b does not match "bill". */
  lemma NoBill(t: Transaction, searchTerm: string)
    requires searchTerm == "bill"
    requires forall i :: 0 <= i < |t.description| ==> t.description[i] != 'b' && t.description[i] != 'B'
    ensures !MatchesSearch(t.description, searchTerm)
  {
    MissingLetterNoMatch(t.description, searchTerm);
  }

  /** A 13-character description ending in "Bill" matches "bill". */
  lemma BillAtNine(t: Transaction, searchTerm: string)
    requires searchTerm == "bill"
    requires |t.description| == 13 && t.description[9..] == "Bill"
    ensures MatchesFilter(searchTerm, AllCategories)(t)
  {
    var s := Lower(t.description);
    assert Lower("bill") == "bill";
    assert s[9..13] == "bill";
    assert OccursAt(s, Lower("bill"), 9);
    IncludesIsSubstring(s, Lower("bill"));
  }

  /** The electric and internet bills match the search "bill" ... */
  lemma BillsMatchBill(searchTerm: string)
    requires searchTerm == "bill"
    ensures MatchesFilter(searchTerm, AllCategories)(Electric) && MatchesFilter(searchTerm, AllCategories)(Internet)
  {
    BillAtNine(Electric, searchTerm);
    BillAtNine(Internet, searchTerm);
  }

  /** ... and the other five records do not. */
  lemma OthersDoNotMatchBill(searchTerm: string)
    requires searchTerm == "bill"
    ensures !MatchesSearch(Grocery.description, searchTerm) && !MatchesSearch(Salary.description, searchTerm)
    ensures !MatchesSearch(Movie.description, searchTerm) && !MatchesSearch(Gas.description, searchTerm)
    ensures !MatchesSearch(Doctor.description, searchTerm)
  {
    NoBill(Grocery, searchTerm);
    NoBill(Salary, searchTerm);
    NoBill(Movie, searchTerm);
    NoBill(Gas, searchTerm);
    NoBill(Doctor, searchTerm);
  }

  /** Searching "bill" finds the two bills, in list order. */
  lemma BillSearchFindsBills(searchTerm: string)
    requires searchTerm == "bill"
    ensures Filtered(Mock, searchTerm, AllCategories) == [Electric, Internet]
  {
    BillsMatchBill(searchTerm);
    OthersDoNotMatchBill(searchTerm);
    ThirdAndLastOfSeven(Grocery, Salary, Electric, Movie, Gas, Doctor, Internet, MatchesFilter(searchTerm, AllCategories));
  }

  /** Ten rows per page: page 0 is the whole list and page 1 is empty. */
  lemma TenRowsFitOnePage()
    ensures Page(Filtered(Mock, "", AllCategories), 0, 10) == Mock
    ensures Page(Filtered(Mock, "", AllCategories), 1, 10) == []
  {
    InitialFilterKeepsAll(Mock);
    PageIsWindow(Mock, 0, 10);
  }

  /** Deleting record 1 leaves six records, none of them record 1. */
  lemma DeleteFirstLeavesSix()
    ensures |Without(Mock, 1)| == 6
    ensures forall t :: t in Without(Mock, 1) ==> t.id != 1
  {
    assert Mock[0] == Grocery;
    assert UniqueIds(Mock);
    DeletePresentRemovesOne(Mock, 1);
    DeleteRemovesOnlyId(Mock, 1);
  }
}
