/**
 * The table of placement offers that every analysis reads, the boolean-mask
 * filter by offer year, and the grouping by branch or company.
 */
module Offers {
  import opened Wrappers

  /**
   * One row of the loaded table, restricted to the columns the analyses read:
   * `student_id`, `branch`, `company_name`, `package_lpa` and the derived
   * `offer_year`. Every row has all five (no missing values).
   */
  datatype Offer = Offer(studentId: int, branch: string, company: string, package: real, offerYear: int)

  /** A column the analyses group by: `branch` or `company_name`. */
  datatype Column = Branch | Company

  function KeyOf(o: Offer, col: Column): string
  {
    match col
    case Branch => o.branch
    case Company => o.company
  }

  /**
   * `d[mask]`: the rows for which `keep` holds, in their original order.
   */
  function Where(rows: seq<Offer>, keep: Offer -> bool): (r: seq<Offer>)
    ensures |r| <= |rows|
    ensures forall o :: o in r <==> o in rows && keep(o)
    ensures forall o :: multiset(r)[o] == if keep(o) then multiset(rows)[o] else 0
  {
    if rows == [] then []
    else
      var rest := Where(rows[1..], keep);
      assert rows == [rows[0]] + rows[1..];
      if keep(rows[0]) then [rows[0]] + rest else rest
  }

  /** Where distributes over concatenation: it keeps the rows of each part in order. */
  lemma {:induction false} WhereConcat(a: seq<Offer>, b: seq<Offer>, keep: Offer -> bool)
    ensures Where(a + b, keep) == Where(a, keep) + Where(b, keep)
  {
    if a == [] {
      assert a + b == b;
    } else {
      assert (a + b)[1..] == a[1..] + b;
      WhereConcat(a[1..], b, keep);
    }
  }

  /** Applying the same mask a second time removes nothing more. */
  lemma {:induction false} WhereIdempotent(rows: seq<Offer>, keep: Offer -> bool)
    ensures Where(Where(rows, keep), keep) == Where(rows, keep)
  {
    if rows != [] {
      WhereIdempotent(rows[1..], keep);
    }
  }

  /** Whether a row survives the year filter. */
  predicate InYear(o: Offer, year: Option<int>)
  {
    year.None? || o.offerYear == year.value
  }

  /** The mask `d["offer_year"] == year`. */
  function YearMask(y: int): Offer -> bool
  {
    (o: Offer) => InYear(o, Some(y))
  }

  /**
   * The filter every analysis applies first: with a year, the rows whose
   * `offer_year` equals it; with no year (`None`), the table as it is.
   */
  function FilterYear(rows: seq<Offer>, year: Option<int>): (r: seq<Offer>)
    ensures forall o :: o in r <==> o in rows && InYear(o, year)
    ensures forall o :: multiset(r)[o] == if InYear(o, year) then multiset(rows)[o] else 0
    ensures year.None? ==> r == rows
  {
    match year
    case None => rows
    case Some(y) => Where(rows, YearMask(y))
  }

  /** The year filter keeps the surviving rows of each part, in their order. */
  lemma FilterYearConcat(a: seq<Offer>, b: seq<Offer>, year: Option<int>)
    ensures FilterYear(a + b, year) == FilterYear(a, year) + FilterYear(b, year)
  {
    if year.Some? {
      WhereConcat(a, b, YearMask(year.value));
    }
  }

  /** Filtering twice by the same year equals filtering once. */
  lemma FilterYearIdempotent(rows: seq<Offer>, year: Option<int>)
    ensures FilterYear(FilterYear(rows, year), year) == FilterYear(rows, year)
  {
    if year.Some? {
      WhereIdempotent(rows, YearMask(year.value));
    }
  }

  /** The distinct values of a column: the groups of `groupby(col)`. */
  function KeySet(rows: seq<Offer>, col: Column): set<string>
  {
    set o | o in rows :: KeyOf(o, col)
  }

  /** The distinct student identifiers among some rows (`student_id.nunique()` counts these). */
  function StudentIds(rows: seq<Offer>): set<int>
  {
    set o | o in rows :: o.studentId
  }

  /** The distinct students of one group: rows whose `col` value is `k`. */
  function GroupStudents(rows: seq<Offer>, col: Column, k: string): set<int>
  {
    set o | o in rows && KeyOf(o, col) == k :: o.studentId
  }

  /** The rows of one group of `groupby(col)`, in their original order, each as often as in `rows`. */
  function Group(rows: seq<Offer>, col: Column, k: string): (g: seq<Offer>)
    ensures |g| <= |rows|
    ensures forall o :: o in g <==> o in rows && KeyOf(o, col) == k
    ensures forall o :: multiset(g)[o] == if KeyOf(o, col) == k then multiset(rows)[o] else 0
    ensures |g| > 0 <==> k in KeySet(rows, col)
    ensures StudentIds(g) == GroupStudents(rows, col, k)
  {
    if rows == [] then []
    else
      var rest := Group(rows[1..], col, k);
      var g := if KeyOf(rows[0], col) == k then [rows[0]] + rest else rest;
      GroupStepMembers(rows, col, k, rest, g);
      GroupStepMultiset(rows, col, k, rest, g);
      GroupStepStudents(rows, col, k, rest, g);
      g
  }

  /** In Group, the rows of the group of all rows follow from those of the rest. */
  lemma GroupStepMembers(rows: seq<Offer>, col: Column, k: string, rest: seq<Offer>, g: seq<Offer>)
    requires rows != []
    requires forall o :: o in rest <==> o in rows[1..] && KeyOf(o, col) == k
    requires g == if KeyOf(rows[0], col) == k then [rows[0]] + rest else rest
    ensures forall o :: o in g <==> o in rows && KeyOf(o, col) == k
    ensures |g| > 0 <==> k in KeySet(rows, col)
  {
    assert forall o :: o in rows <==> o == rows[0] || o in rows[1..];
    if |g| > 0 {
      assert g[0] in g;
    }
    if k in KeySet(rows, col) {
      var o :| o in rows && KeyOf(o, col) == k;
      assert o in g;
    }
  }

  /** In Group, how often a row occurs in the group follows from how often it occurs in the rest. */
  lemma GroupStepMultiset(rows: seq<Offer>, col: Column, k: string, rest: seq<Offer>, g: seq<Offer>)
    requires rows != []
    requires forall o :: multiset(rest)[o] == if KeyOf(o, col) == k then multiset(rows[1..])[o] else 0
    requires g == if KeyOf(rows[0], col) == k then [rows[0]] + rest else rest
    ensures forall o :: multiset(g)[o] == if KeyOf(o, col) == k then multiset(rows)[o] else 0
  {
    assert rows == [rows[0]] + rows[1..];
    assert multiset(rows) == multiset{rows[0]} + multiset(rows[1..]);
    if KeyOf(rows[0], col) == k {
      assert multiset(g) == multiset{rows[0]} + multiset(rest);
    }
  }

  /** In Group, the students of the group follow from those of the rest. */
  lemma GroupStepStudents(rows: seq<Offer>, col: Column, k: string, rest: seq<Offer>, g: seq<Offer>)
    requires rows != []
    requires forall o :: o in rest <==> o in rows[1..] && KeyOf(o, col) == k
    requires StudentIds(rest) == GroupStudents(rows[1..], col, k)
    requires g == if KeyOf(rows[0], col) == k then [rows[0]] + rest else rest
    ensures StudentIds(g) == GroupStudents(rows, col, k)
  {
    assert forall o :: o in rows <==> o == rows[0] || o in rows[1..];
    assert forall o :: o in g <==> o in rows && KeyOf(o, col) == k;
  }

  /** Grouping distributes over concatenation: a group keeps the rows of each part in order. */
  lemma {:induction false} GroupConcat(a: seq<Offer>, b: seq<Offer>, col: Column, k: string)
    ensures Group(a + b, col, k) == Group(a, col, k) + Group(b, col, k)
  {
    if a == [] {
      assert a + b == b;
    } else {
      assert (a + b)[1..] == a[1..] + b;
      GroupConcat(a[1..], b, col, k);
    }
  }

  /**
   * The group keys in some order, each once (pandas sorts them; the model
   * leaves the order open because every analysis re-sorts by value).
   */
  function GroupKeys(rows: seq<Offer>, col: Column): (ks: seq<string>)
    ensures forall k :: k in ks <==> k in KeySet(rows, col)
    ensures forall i, j :: 0 <= i < j < |ks| ==> ks[i] != ks[j]
  {
    if rows == [] then []
    else
      var rest := GroupKeys(rows[1..], col);
      var k := KeyOf(rows[0], col);
      assert forall o :: o in rows <==> o == rows[0] || o in rows[1..];
      assert KeySet(rows, col) == {k} + KeySet(rows[1..], col);
      if k in rest then rest else [k] + rest
  }

  /** A group's distinct-student count is at least 1 and at most its number of rows. */
  lemma {:induction false} StudentIdsBounds(rows: seq<Offer>)
    ensures |StudentIds(rows)| <= |rows|
    ensures rows != [] ==> |StudentIds(rows)| >= 1
  {
    if rows != [] {
      StudentIdsBounds(rows[1..]);
      assert forall o :: o in rows <==> o == rows[0] || o in rows[1..];
      assert StudentIds(rows) == {rows[0].studentId} + StudentIds(rows[1..]);
    }
  }
}
