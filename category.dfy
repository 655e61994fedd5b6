/**
 * The row filter of the category route: the rows whose category cell is
 * filled in and equal to the requested category, ignoring letter case.
 */
module Category {
  import opened Text
  import opened Search

  /** A row belongs to a category when its category cell is not empty and
      equals the requested name once both are lowercased. */
  predicate InCategory(row: Row, category: string) {
    row.category != [] && Lower(row.category) == Lower(category)
  }

  /** `data.filter(...)` on the category predicate: the rows kept are rows of
      the input, in their order, and exactly those in the category. */
  function FilterByCategory(rows: seq<Row>, category: string): (kept: seq<Row>)
    ensures |kept| <= |rows|
    ensures forall r :: r in kept <==> r in rows && InCategory(r, category)
  {
    if rows == [] then []
    else (if InCategory(rows[0], category) then [rows[0]] else []) + FilterByCategory(rows[1..], category)
  }

  // ------------------------------------------------------------------ lemmas

  /** Filtering a concatenation filters each part: the kept rows stay in
      their input order. */
  lemma {:induction false} FilterAppend(a: seq<Row>, b: seq<Row>, category: string)
    ensures FilterByCategory(a + b, category) == FilterByCategory(a, category) + FilterByCategory(b, category)
    decreases |a|
  {
    if a == [] {
      assert a + b == b;
    } else {
      FilterAppend(a[1..], b, category);
      assert (a + b)[1..] == a[1..] + b;
    }
  }

  /** Each row in the category is kept as often as it occurs, and no other
      row is kept at all. */
  lemma {:induction false} FilterCounts(rows: seq<Row>, category: string, r: Row)
    ensures multiset(FilterByCategory(rows, category))[r]
         == if InCategory(r, category) then multiset(rows)[r] else 0
    decreases |rows|
  {
    if rows != [] {
      FilterCounts(rows[1..], category, r);
      assert rows == [rows[0]] + rows[1..];
    }
  }

  /** A row is kept or dropped as a whole: everything kept is in the
      category, and a table wholly in the category is kept unchanged. */
  lemma {:induction false} FilterKeepsAll(rows: seq<Row>, category: string)
    requires forall i :: 0 <= i < |rows| ==> InCategory(rows[i], category)
    ensures FilterByCategory(rows, category) == rows
    decreases |rows|
  {
    if rows != [] {
      FilterKeepsAll(rows[1..], category);
      assert [rows[0]] + rows[1..] == rows;
    }
  }

  /** Filtering twice by the same category is filtering once. */
  lemma FilterIdempotent(rows: seq<Row>, category: string)
    ensures FilterByCategory(FilterByCategory(rows, category), category) == FilterByCategory(rows, category)
  {
    var kept := FilterByCategory(rows, category);
    assert forall i :: 0 <= i < |kept| ==> kept[i] in kept;
    FilterKeepsAll(kept, category);
  }

  /** The case of the requested name plays no part. */
  lemma CategoryIgnoresCase(rows: seq<Row>, category: string)
    ensures FilterByCategory(rows, Lower(category)) == FilterByCategory(rows, category)
  {
    LowerIdempotent(category);
    assert forall r :: InCategory(r, Lower(category)) == InCategory(r, category);
    FilterSameCategories(rows, Lower(category), category);
  }

  lemma {:induction false} FilterSameCategories(rows: seq<Row>, c1: string, c2: string)
    requires forall r :: InCategory(r, c1) == InCategory(r, c2)
    ensures FilterByCategory(rows, c1) == FilterByCategory(rows, c2)
    decreases |rows|
  {
    if rows != [] {
      FilterSameCategories(rows[1..], c1, c2);
    }
  }

  /** A row with an empty category cell is never kept, whatever is asked. */
  lemma UncategorisedNeverKept(rows: seq<Row>, category: string, r: Row)
    requires r.category == []
    ensures r !in FilterByCategory(rows, category)
  {}
}
