/**
 * The summaries behind four of the five charts: students placed per branch,
 * average package per branch, the top companies by students placed, and the
 * branch-by-company cross-tabulation. Each first applies the year filter.
 */
module Aggregates {
  import opened Wrappers
  import opened Offers
  import opened Ranking

  /** Counts are compared by their value when sorting. */
  function CountRank(n: nat): real { n as real }

  /** Averages are compared by their value when sorting. */
  function AmountRank(x: real): real { x }

  /** Each key of `ks`, in order, with the number of distinct students in its group. */
  function CountTable(d: seq<Offer>, col: Column, ks: seq<string>): (r: seq<(string, nat)>)
    ensures |r| == |ks|
    ensures forall i :: 0 <= i < |r| ==> r[i].0 == ks[i] && r[i].1 == |GroupStudents(d, col, ks[i])|
  {
    if ks == [] then []
    else [(ks[0], |StudentIds(Group(d, col, ks[0]))|)] + CountTable(d, col, ks[1..])
  }

  /**
   * `groupby(col).student_id.nunique()` before sorting: one entry per group,
   * holding the number of distinct students in that group.
   */
  function DistinctStudentCounts(d: seq<Offer>, col: Column): (r: seq<(string, nat)>)
    ensures DistinctKeys(r)
    ensures Keys(r) == KeySet(d, col)
    ensures forall e :: e in r ==> e.1 == |GroupStudents(d, col, e.0)|
  {
    var ks := GroupKeys(d, col);
    var r := CountTable(d, col, ks);
    TableOfKeys(ks, r);
    forall e | e in r ensures e.1 == |GroupStudents(d, col, e.0)| {
      var i :| 0 <= i < |r| && r[i] == e;
    }
    r
  }

  /**
   * `groupby(col).student_id.nunique().sort_values(ascending=False)`: every
   * group exactly once with its distinct-student count, counts non-increasing.
   */
  function RankedDistinctCounts(d: seq<Offer>, col: Column): (r: seq<(string, nat)>)
    ensures SortedDesc(r, CountRank)
    ensures DistinctKeys(r)
    ensures Keys(r) == KeySet(d, col)
    ensures |r| == |KeySet(d, col)|
    ensures forall i :: 0 <= i < |r| ==> r[i].1 == |GroupStudents(d, col, r[i].0)|
  {
    var counts := DistinctStudentCounts(d, col);
    var r := SortDesc(counts, CountRank);
    RankedCountsStep(d, col, counts, r);
    r
  }

  /** Sorting the per-group counts keeps every group once with its own count. */
  lemma RankedCountsStep(d: seq<Offer>, col: Column, counts: seq<(string, nat)>, r: seq<(string, nat)>)
    requires DistinctKeys(counts) && Keys(counts) == KeySet(d, col)
    requires forall e :: e in counts ==> e.1 == |GroupStudents(d, col, e.0)|
    requires multiset(r) == multiset(counts) && Keys(r) == Keys(counts)
    requires DistinctKeys(counts) ==> DistinctKeys(r)
    ensures DistinctKeys(r) && Keys(r) == KeySet(d, col) && |r| == |KeySet(d, col)|
    ensures forall i :: 0 <= i < |r| ==> r[i].1 == |GroupStudents(d, col, r[i].0)|
  {
    SameMembers(r, counts);
    DistinctKeysCount(r);
  }

  /**
   * Students placed per branch: each branch present in the filtered rows
   * once, with its number of distinct students, counts non-increasing.
   */
  function PlacementsPerBranch(rows: seq<Offer>, year: Option<int>): (r: seq<(string, nat)>)
    ensures SortedDesc(r, CountRank)
    ensures DistinctKeys(r)
    ensures Keys(r) == KeySet(FilterYear(rows, year), Branch)
    ensures forall i :: 0 <= i < |r| ==> r[i].1 == |GroupStudents(FilterYear(rows, year), Branch, r[i].0)|
  {
    RankedDistinctCounts(FilterYear(rows, year), Branch)
  }

  /** Each branch's count is at least 1 and at most that branch's number of filtered rows. */
  lemma PlacementsPerBranchBounds(rows: seq<Offer>, year: Option<int>, i: nat)
    requires i < |PlacementsPerBranch(rows, year)|
    ensures var r := PlacementsPerBranch(rows, year);
            1 <= r[i].1 <= |Group(FilterYear(rows, year), Branch, r[i].0)|
  {
    var r := PlacementsPerBranch(rows, year);
    var d := FilterYear(rows, year);
    assert r[i].0 in Keys(r);
    StudentIdsBounds(Group(d, Branch, r[i].0));
  }

  /** The sum of the counts of a summary table. */
  function TotalCount(s: seq<(string, nat)>): nat
  {
    if s == [] then 0 else s[0].1 + TotalCount(s[1..])
  }

  /** The distinct students of the rows whose `col` value is one of `ks`. */
  ghost function StudentsUnder(d: seq<Offer>, col: Column, ks: set<string>): set<int>
  {
    set o | o in d && KeyOf(o, col) in ks :: o.studentId
  }

  /** No student appears under two different values of `col`. */
  ghost predicate OneGroupPerStudent(d: seq<Offer>, col: Column)
  {
    forall o, p :: o in d && p in d && o.studentId == p.studentId ==> KeyOf(o, col) == KeyOf(p, col)
  }

  /**
   * Summing per-group distinct counts over distinct labels counts every
   * student of those groups at least once, and exactly once when no
   * student appears in two groups.
   */
  lemma {:induction false} TotalCountCovers(d: seq<Offer>, col: Column, s: seq<(string, nat)>)
    requires DistinctKeys(s)
    requires forall i :: 0 <= i < |s| ==> s[i].1 == |GroupStudents(d, col, s[i].0)|
    ensures TotalCount(s) >= |StudentsUnder(d, col, Keys(s))|
    ensures OneGroupPerStudent(d, col) ==> TotalCount(s) == |StudentsUnder(d, col, Keys(s))|
  {
    if s == [] {
      assert StudentsUnder(d, col, Keys(s)) == {};
    } else {
      var t := s[1..];
      assert s == [s[0]] + t;
      DistinctKeysCons(s[0], t);
      KeysCons(s[0], t);
      TotalCountCovers(d, col, t);
      var a := GroupStudents(d, col, s[0].0);
      var b := StudentsUnder(d, col, Keys(t));
      assert StudentsUnder(d, col, Keys(s)) == a + b;
      if OneGroupPerStudent(d, col) {
        forall x | x in a ensures x !in b {
          var o :| o in d && KeyOf(o, col) == s[0].0 && o.studentId == x;
          assert forall p :: p in d && p.studentId == x ==> KeyOf(p, col) !in Keys(t);
        }
        assert a * b == {};
      }
    }
  }

  /**
   * The per-branch counts add up to at least the number of distinct students
   * in the filtered rows, and to exactly that number when every student is
   * in one branch only.
   */
  lemma PlacementsPerBranchCoverStudents(rows: seq<Offer>, year: Option<int>)
    ensures TotalCount(PlacementsPerBranch(rows, year)) >= |StudentIds(FilterYear(rows, year))|
    ensures OneGroupPerStudent(FilterYear(rows, year), Branch) ==>
              TotalCount(PlacementsPerBranch(rows, year)) == |StudentIds(FilterYear(rows, year))|
  {
    var d := FilterYear(rows, year);
    var r := PlacementsPerBranch(rows, year);
    TotalCountCovers(d, Branch, r);
    assert StudentsUnder(d, Branch, Keys(r)) == StudentIds(d);
  }

  /** The first entries of a sorted table of per-group counts carry their own counts. */
  lemma HeadOfCounts(d: seq<Offer>, col: Column, all: seq<(string, nat)>, topN: int)
    requires SortedDesc(all, CountRank) && DistinctKeys(all) && Keys(all) == KeySet(d, col)
    requires forall i :: 0 <= i < |all| ==> all[i].1 == |GroupStudents(d, col, all[i].0)|
    ensures var r := Head(all, topN);
            && SortedDesc(r, CountRank)
            && DistinctKeys(r)
            && Keys(r) <= KeySet(d, col)
            && (forall i :: 0 <= i < |r| ==> r[i].1 == |GroupStudents(d, col, r[i].0)|)
  {
    var r := Head(all, topN);
    HeadOfSorted(all, topN, CountRank);
    forall i | 0 <= i < |r| ensures r[i].1 == |GroupStudents(d, col, r[i].0)| {
      assert r[i] == all[i];
    }
  }

  /** The kept companies of the ranked company counts of `d` carry their own counts. */
  lemma TopOfRankedValues(d: seq<Offer>, topN: int)
    ensures var r := Head(RankedDistinctCounts(d, Company), topN);
            && SortedDesc(r, CountRank)
            && DistinctKeys(r)
            && Keys(r) <= KeySet(d, Company)
            && (forall i :: 0 <= i < |r| ==> r[i].1 == |GroupStudents(d, Company, r[i].0)|)
  {
    HeadOfCounts(d, Company, RankedDistinctCounts(d, Company), topN);
  }

  /** No company cut from the ranked company counts of `d` has more students than a kept one. */
  lemma TopOfRankedExcluded(d: seq<Offer>, topN: int)
    ensures var r := Head(RankedDistinctCounts(d, Company), topN);
            forall i, c :: 0 <= i < |r| && c in KeySet(d, Company) && c !in Keys(r) ==>
              |GroupStudents(d, Company, c)| <= r[i].1
  {
    HeadOfCountsExcluded(d, Company, RankedDistinctCounts(d, Company), topN);
  }

  /** No group cut from a sorted table of per-group counts has a larger count than one kept. */
  lemma HeadOfCountsExcluded(d: seq<Offer>, col: Column, all: seq<(string, nat)>, topN: int)
    requires SortedDesc(all, CountRank) && DistinctKeys(all) && Keys(all) == KeySet(d, col)
    requires forall i :: 0 <= i < |all| ==> all[i].1 == |GroupStudents(d, col, all[i].0)|
    ensures var r := Head(all, topN);
            forall i, c :: 0 <= i < |r| && c in KeySet(d, col) && c !in Keys(r) ==>
              |GroupStudents(d, col, c)| <= r[i].1
  {
    var r := Head(all, topN);
    HeadOfSorted(all, topN, CountRank);
    forall i, c | 0 <= i < |r| && c in KeySet(d, col) && c !in Keys(r)
      ensures |GroupStudents(d, col, c)| <= r[i].1
    {
      var j :| 0 <= j < |all| && all[j].0 == c;
      assert CountRank(all[j].1) <= CountRank(r[i].1);
    }
  }

  /**
   * The top companies: the `topN` companies with the most distinct students,
   * counts non-increasing, each with its own count, and no company left out
   * with a higher count than one kept. A negative `topN` keeps all but the
   * last `-topN`, as `head` does.
   */
  function TopCompaniesByOffers(rows: seq<Offer>, topN: int, year: Option<int>): (r: seq<(string, nat)>)
    ensures var n := |KeySet(FilterYear(rows, year), Company)|;
            |r| == if topN >= 0 then Min(topN, n) else Max(0, n + topN)
    ensures SortedDesc(r, CountRank)
    ensures DistinctKeys(r)
    ensures Keys(r) <= KeySet(FilterYear(rows, year), Company)
    ensures forall i :: 0 <= i < |r| ==> r[i].1 == |GroupStudents(FilterYear(rows, year), Company, r[i].0)|
    ensures forall i, c :: 0 <= i < |r| && c in KeySet(FilterYear(rows, year), Company) && c !in Keys(r) ==>
              |GroupStudents(FilterYear(rows, year), Company, c)| <= r[i].1
  {
    TopOfRankedValues(FilterYear(rows, year), topN);
    TopOfRankedExcluded(FilterYear(rows, year), topN);
    Head(RankedDistinctCounts(FilterYear(rows, year), Company), topN)
  }

  /** The sum of a sequence of amounts. */
  function Sum(xs: seq<real>): real
  {
    if xs == [] then 0.0 else xs[0] + Sum(xs[1..])
  }

  /** The smallest of some amounts. */
  function Minimum(xs: seq<real>): (m: real)
    requires xs != []
    ensures m in xs
    ensures forall x :: x in xs ==> m <= x
  {
    if |xs| == 1 then xs[0]
    else
      var rest := Minimum(xs[1..]);
      assert forall x :: x in xs <==> x == xs[0] || x in xs[1..];
      if xs[0] <= rest then xs[0] else rest
  }

  /** The largest of some amounts. */
  function Maximum(xs: seq<real>): (m: real)
    requires xs != []
    ensures m in xs
    ensures forall x :: x in xs ==> x <= m
  {
    if |xs| == 1 then xs[0]
    else
      var rest := Maximum(xs[1..]);
      assert forall x :: x in xs <==> x == xs[0] || x in xs[1..];
      if xs[0] >= rest then xs[0] else rest
  }

  /** `mean()`: the sum divided by the number of amounts, in exact arithmetic. */
  function Mean(xs: seq<real>): (m: real)
    requires xs != []
    ensures m * (|xs| as real) == Sum(xs)
  {
    Sum(xs) / (|xs| as real)
  }

  /** `n` amounts, none below `lo`, sum to at least `n` times `lo`. */
  lemma {:induction false} SumAtLeast(xs: seq<real>, lo: real)
    requires forall x :: x in xs ==> lo <= x
    ensures (|xs| as real) * lo <= Sum(xs)
  {
    if xs != [] {
      assert xs[0] in xs;
      assert forall x :: x in xs[1..] ==> x in xs;
      SumAtLeast(xs[1..], lo);
      assert (|xs| as real) * lo == (|xs[1..]| as real) * lo + lo;
    }
  }

  /** `n` amounts, none above `hi`, sum to at most `n` times `hi`. */
  lemma {:induction false} SumAtMost(xs: seq<real>, hi: real)
    requires forall x :: x in xs ==> x <= hi
    ensures Sum(xs) <= (|xs| as real) * hi
  {
    if xs != [] {
      assert xs[0] in xs;
      assert forall x :: x in xs[1..] ==> x in xs;
      SumAtMost(xs[1..], hi);
      assert (|xs| as real) * hi == (|xs[1..]| as real) * hi + hi;
    }
  }

  /** A mean lies between the smallest and the largest amount. */
  lemma MeanBounds(xs: seq<real>)
    requires xs != []
    ensures Minimum(xs) <= Mean(xs) <= Maximum(xs)
  {
    SumAtLeast(xs, Minimum(xs));
    SumAtMost(xs, Maximum(xs));
    QuotientBounds(Sum(xs), |xs| as real, Minimum(xs), Maximum(xs));
  }

  lemma QuotientBounds(total: real, n: real, lo: real, hi: real)
    requires n > 0.0 && n * lo <= total <= n * hi
    ensures lo <= total / n <= hi
  {
  }

  /** The `package_lpa` column of some rows. */
  function Packages(rows: seq<Offer>): (xs: seq<real>)
    ensures |xs| == |rows|
    ensures forall i :: 0 <= i < |rows| ==> xs[i] == rows[i].package
  {
    seq(|rows|, i requires 0 <= i < |rows| => rows[i].package)
  }

  /** Each key of `ks`, all of which label some row, in order, with the mean package of its group. */
  function MeanTable(d: seq<Offer>, col: Column, ks: seq<string>): (r: seq<(string, real)>)
    requires forall k :: k in ks ==> k in KeySet(d, col)
    ensures |r| == |ks|
    ensures forall i :: 0 <= i < |r| ==>
              r[i].0 == ks[i] && Group(d, col, ks[i]) != [] && r[i].1 == Mean(Packages(Group(d, col, ks[i])))
  {
    if ks == [] then []
    else
      assert ks[0] in ks;
      var g := Group(d, col, ks[0]);
      var rest := MeanTable(d, col, ks[1..]);
      var r := [(ks[0], Mean(Packages(g)))] + rest;
      MeanTableStep(d, col, ks, rest, r);
      r
  }

  /** In MeanTable, the entry of the first key in front of the entries of the rest. */
  lemma MeanTableStep(d: seq<Offer>, col: Column, ks: seq<string>, rest: seq<(string, real)>, r: seq<(string, real)>)
    requires ks != [] && Group(d, col, ks[0]) != []
    requires |rest| == |ks| - 1
    requires forall i :: 0 <= i < |rest| ==>
               rest[i].0 == ks[1..][i] && Group(d, col, ks[1..][i]) != [] && rest[i].1 == Mean(Packages(Group(d, col, ks[1..][i])))
    requires r == [(ks[0], Mean(Packages(Group(d, col, ks[0]))))] + rest
    ensures |r| == |ks|
    ensures forall i :: 0 <= i < |r| ==>
              r[i].0 == ks[i] && Group(d, col, ks[i]) != [] && r[i].1 == Mean(Packages(Group(d, col, ks[i])))
  {
    forall i | 0 <= i < |r|
      ensures r[i].0 == ks[i] && Group(d, col, ks[i]) != [] && r[i].1 == Mean(Packages(Group(d, col, ks[i])))
    {
      if i > 0 {
        assert r[i] == rest[i - 1] && ks[i] == ks[1..][i - 1];
      }
    }
  }

  /** `groupby(col).package_lpa.mean()` before sorting: one entry per group, its mean package. */
  function GroupMeans(d: seq<Offer>, col: Column): (r: seq<(string, real)>)
    ensures DistinctKeys(r)
    ensures Keys(r) == KeySet(d, col)
    ensures forall e :: e in r ==> Group(d, col, e.0) != [] && e.1 == Mean(Packages(Group(d, col, e.0)))
  {
    var ks := GroupKeys(d, col);
    var r := MeanTable(d, col, ks);
    TableOfKeys(ks, r);
    forall e | e in r ensures Group(d, col, e.0) != [] && e.1 == Mean(Packages(Group(d, col, e.0))) {
      var i :| 0 <= i < |r| && r[i] == e;
    }
    r
  }

  /**
   * `groupby(col).package_lpa.mean().sort_values(ascending=False)`: every
   * group exactly once with the mean of its packages, means non-increasing.
   */
  function RankedMeans(d: seq<Offer>, col: Column): (r: seq<(string, real)>)
    ensures SortedDesc(r, AmountRank)
    ensures DistinctKeys(r)
    ensures Keys(r) == KeySet(d, col)
    ensures forall i :: 0 <= i < |r| ==>
              Group(d, col, r[i].0) != [] && r[i].1 == Mean(Packages(Group(d, col, r[i].0)))
  {
    var means := GroupMeans(d, col);
    var r := SortDesc(means, AmountRank);
    RankedMeansStep(d, col, means, r);
    r
  }

  /** Sorting the per-group means keeps every group once with its own mean. */
  lemma RankedMeansStep(d: seq<Offer>, col: Column, means: seq<(string, real)>, r: seq<(string, real)>)
    requires DistinctKeys(means) && Keys(means) == KeySet(d, col)
    requires forall e :: e in means ==> Group(d, col, e.0) != [] && e.1 == Mean(Packages(Group(d, col, e.0)))
    requires multiset(r) == multiset(means) && Keys(r) == Keys(means)
    requires DistinctKeys(means) ==> DistinctKeys(r)
    ensures DistinctKeys(r) && Keys(r) == KeySet(d, col)
    ensures forall i :: 0 <= i < |r| ==>
              Group(d, col, r[i].0) != [] && r[i].1 == Mean(Packages(Group(d, col, r[i].0)))
  {
    SameMembers(r, means);
    forall i | 0 <= i < |r|
      ensures Group(d, col, r[i].0) != [] && r[i].1 == Mean(Packages(Group(d, col, r[i].0)))
    {
      assert r[i] in means;
    }
  }

  /**
   * Average package per branch: each branch present in the filtered rows
   * once, with the mean of its packages, means non-increasing.
   */
  function AvgPackagePerBranch(rows: seq<Offer>, year: Option<int>): (r: seq<(string, real)>)
    ensures SortedDesc(r, AmountRank)
    ensures DistinctKeys(r)
    ensures Keys(r) == KeySet(FilterYear(rows, year), Branch)
    ensures forall i :: 0 <= i < |r| ==>
              var g := Group(FilterYear(rows, year), Branch, r[i].0);
              g != [] && r[i].1 == Mean(Packages(g))
  {
    RankedMeans(FilterYear(rows, year), Branch)
  }

  /** Each branch's average lies between the smallest and the largest package of that branch. */
  lemma AvgPackageWithinRange(rows: seq<Offer>, year: Option<int>, i: nat)
    requires i < |AvgPackagePerBranch(rows, year)|
    ensures var r := AvgPackagePerBranch(rows, year);
            var g := Packages(Group(FilterYear(rows, year), Branch, r[i].0));
            g != [] && Minimum(g) <= r[i].1 <= Maximum(g)
  {
    var r := AvgPackagePerBranch(rows, year);
    MeanBounds(Packages(Group(FilterYear(rows, year), Branch, r[i].0)));
  }

  /** The branch-by-company table: row labels, column labels and one cell per pair. */
  datatype CrossTab = CrossTab(branches: set<string>, companies: set<string>, cells: map<(string, string), nat>)

  /** The distinct students placed from branch `b` at company `c`. */
  function PairStudents(d: seq<Offer>, b: string, c: string): set<int>
  {
    set o | o in d && o.branch == b && o.company == c :: o.studentId
  }

  /** The students of a pair are those of the rows of the pair's company within the pair's branch. */
  lemma PairStudentsOfGroups(d: seq<Offer>, b: string, c: string)
    ensures StudentIds(Group(Group(d, Branch, b), Company, c)) == PairStudents(d, b, c)
  {
  }

  /** A pair has no students exactly when no row has that branch and that company. */
  lemma PairStudentsEmpty(d: seq<Offer>, b: string, c: string)
    ensures |PairStudents(d, b, c)| == 0 <==> forall o :: o in d ==> o.branch != b || o.company != c
  {
    if exists o :: o in d && o.branch == b && o.company == c {
      var o :| o in d && o.branch == b && o.company == c;
      assert o.studentId in PairStudents(d, b, c);
    }
  }

  /** One cell per (branch, company) pair of `bs` and `cs`: the distinct students of the pair's rows. */
  function PairCells(d: seq<Offer>, bs: set<string>, cs: set<string>): map<(string, string), nat>
  {
    map b, c | b in bs && c in cs :: (b, c) := |StudentIds(Group(Group(d, Branch, b), Company, c))|
  }

  lemma PairCellsDomain(d: seq<Offer>, bs: set<string>, cs: set<string>)
    ensures forall b, c :: (b, c) in PairCells(d, bs, cs) <==> b in bs && c in cs
  {
  }

  lemma PairCellsValues(d: seq<Offer>, bs: set<string>, cs: set<string>)
    ensures forall b, c :: (b, c) in PairCells(d, bs, cs) ==> PairCells(d, bs, cs)[(b, c)] == |PairStudents(d, b, c)|
  {
    forall b, c | (b, c) in PairCells(d, bs, cs) ensures PairCells(d, bs, cs)[(b, c)] == |PairStudents(d, b, c)| {
      PairStudentsOfGroups(d, b, c);
    }
  }

  /** `pivot_table(..., aggfunc="nunique", fill_value=0)` on a table `d`. */
  function CrossTabulate(d: seq<Offer>): (t: CrossTab)
    ensures t.branches == KeySet(d, Branch)
    ensures t.companies == KeySet(d, Company)
    ensures forall b, c :: (b, c) in t.cells <==> b in t.branches && c in t.companies
    ensures forall b, c :: (b, c) in t.cells ==> t.cells[(b, c)] == |PairStudents(d, b, c)|
  {
    var bs := KeySet(d, Branch);
    var cs := KeySet(d, Company);
    PairCellsDomain(d, bs, cs);
    PairCellsValues(d, bs, cs);
    CrossTab(bs, cs, PairCells(d, bs, cs))
  }

  /**
   * `pivot_table(values="student_id", index="branch", columns="company_name",
   * aggfunc="nunique", fill_value=0)` on the filtered rows: rows are the
   * branches present, columns the companies present, each cell the distinct
   * students of that pair, and 0 exactly where the pair never occurs.
   */
  function HeatmapBranchCompany(rows: seq<Offer>, year: Option<int>): (t: CrossTab)
    ensures t.branches == KeySet(FilterYear(rows, year), Branch)
    ensures t.companies == KeySet(FilterYear(rows, year), Company)
    ensures forall b, c :: (b, c) in t.cells <==> b in t.branches && c in t.companies
    ensures forall b, c :: (b, c) in t.cells ==> t.cells[(b, c)] == |PairStudents(FilterYear(rows, year), b, c)|
    ensures forall b, c :: (b, c) in t.cells ==>
              (t.cells[(b, c)] == 0 <==> forall o :: o in FilterYear(rows, year) ==> o.branch != b || o.company != c)
  {
    var d := FilterYear(rows, year);
    var t := CrossTabulate(d);
    forall b, c | (b, c) in t.cells
      ensures t.cells[(b, c)] == 0 <==> forall o :: o in d ==> o.branch != b || o.company != c
    {
      PairStudentsEmpty(d, b, c);
    }
    t
  }

  /**
   * A cell never exceeds the headcount of its branch nor that of its company:
   * the cross-tab refines both distinct counts.
   */
  lemma CellWithinHeadcounts(rows: seq<Offer>, year: Option<int>, b: string, c: string)
    requires (b, c) in HeatmapBranchCompany(rows, year).cells
    ensures var d := FilterYear(rows, year);
            var n := HeatmapBranchCompany(rows, year).cells[(b, c)];
            n <= |GroupStudents(d, Branch, b)| && n <= |GroupStudents(d, Company, c)|
  {
    var d := FilterYear(rows, year);
    SubsetCardinality(PairStudents(d, b, c), GroupStudents(d, Branch, b));
    SubsetCardinality(PairStudents(d, b, c), GroupStudents(d, Company, c));
  }

  /** The cells of branch `b` of a cross-tab, one per company of `cs`, in that order. */
  function BranchRow(t: CrossTab, b: string, cs: seq<string>): (r: seq<(string, nat)>)
    requires forall c :: c in cs ==> (b, c) in t.cells
    ensures |r| == |cs|
    ensures forall i :: 0 <= i < |r| ==> r[i].0 == cs[i] && r[i].1 == t.cells[(b, cs[i])]
  {
    if cs == [] then []
    else
      assert cs[0] in cs;
      [(cs[0], t.cells[(b, cs[0])])] + BranchRow(t, b, cs[1..])
  }

  /** The students of a pair are the students of the pair's company among the rows of the pair's branch. */
  lemma PairStudentsOfBranch(d: seq<Offer>, b: string, c: string)
    ensures GroupStudents(Group(d, Branch, b), Company, c) == PairStudents(d, b, c)
  {
    var g := Group(d, Branch, b);
    assert forall o :: o in g <==> o in d && o.branch == b;
  }

  /** A row of pair counts over distinct companies is a table of the branch's per-company counts. */
  lemma PairCountsAsGroupCounts(d: seq<Offer>, b: string, cs: seq<string>, row: seq<(string, nat)>)
    requires forall i, j :: 0 <= i < j < |cs| ==> cs[i] != cs[j]
    requires |row| == |cs|
    requires forall i :: 0 <= i < |row| ==> row[i].0 == cs[i] && row[i].1 == |PairStudents(d, b, cs[i])|
    ensures DistinctKeys(row)
    ensures forall i :: 0 <= i < |row| ==> row[i].1 == |GroupStudents(Group(d, Branch, b), Company, row[i].0)|
  {
    forall i | 0 <= i < |row| ensures row[i].1 == |GroupStudents(Group(d, Branch, b), Company, row[i].0)| {
      PairStudentsOfBranch(d, b, cs[i]);
    }
  }

  /** A table listing every company of `d` covers all students of any rows drawn from `d`. */
  lemma AllCompaniesCover(d: seq<Offer>, g: seq<Offer>, cs: seq<string>, row: seq<(string, nat)>)
    requires forall c :: c in cs <==> c in KeySet(d, Company)
    requires |row| == |cs| && forall i :: 0 <= i < |row| ==> row[i].0 == cs[i]
    requires forall o :: o in g ==> o in d
    ensures StudentsUnder(g, Company, Keys(row)) == StudentIds(g)
  {
    forall o | o in g ensures KeyOf(o, Company) in Keys(row) {
      assert o.company in KeySet(d, Company);
      var i :| 0 <= i < |cs| && cs[i] == o.company;
      assert row[i] in row;
    }
  }

  /**
   * The row of branch `b` of a cross-tab of `d`, summed over every company
   * once, is at least the branch's number of distinct students, and equals it
   * when no student of the branch is placed at two companies.
   */
  lemma RowCoversStudents(d: seq<Offer>, t: CrossTab, b: string)
    requires b in t.branches && t.companies == KeySet(d, Company)
    requires forall b, c :: (b, c) in t.cells <==> b in t.branches && c in t.companies
    requires forall b, c :: (b, c) in t.cells ==> t.cells[(b, c)] == |PairStudents(d, b, c)|
    ensures var row := BranchRow(t, b, GroupKeys(d, Company));
            && TotalCount(row) >= |GroupStudents(d, Branch, b)|
            && (OneGroupPerStudent(Group(d, Branch, b), Company) ==> TotalCount(row) == |GroupStudents(d, Branch, b)|)
  {
    var cs := GroupKeys(d, Company);
    var row := BranchRow(t, b, cs);
    var g := Group(d, Branch, b);
    PairCountsAsGroupCounts(d, b, cs, row);
    TotalCountCovers(g, Company, row);
    AllCompaniesCover(d, g, cs, row);
  }

  /**
   * A branch's row of the heatmap, summed over every company once, is at
   * least the branch's number of distinct students in the filtered rows, and
   * equals it when no student of the branch is placed at two companies.
   */
  lemma BranchRowCoversStudents(rows: seq<Offer>, year: Option<int>, b: string)
    requires b in HeatmapBranchCompany(rows, year).branches
    ensures var d := FilterYear(rows, year);
            var row := BranchRow(HeatmapBranchCompany(rows, year), b, GroupKeys(d, Company));
            && TotalCount(row) >= |GroupStudents(d, Branch, b)|
            && (OneGroupPerStudent(Group(d, Branch, b), Company) ==> TotalCount(row) == |GroupStudents(d, Branch, b)|)
  {
    RowCoversStudents(FilterYear(rows, year), HeatmapBranchCompany(rows, year), b);
  }

  lemma SubsetCardinality(a: set<int>, b: set<int>)
    requires a <= b
    ensures |a| <= |b|
  {
    assert b == a + (b - a);
  }
}
