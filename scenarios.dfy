/**
 * Small worked cases of the analyses, stated over concrete tables.
 */
module Scenarios {
  import opened Wrappers
  import opened Offers
  import opened Ranking
  import opened Aggregates

  /** Three offers: two from CS (packages 10 and 12) and one from EE (package 8). */
  function ThreeOffers(): seq<Offer>
  {
    [Offer(1, "CS", "Acme", 10.0, 2024), Offer(2, "CS", "Bolt", 12.0, 2025), Offer(3, "EE", "Acme", 8.0, 2025)]
  }

  /** Filtering offers dated 2024, 2025 and 2025 by 2025 keeps exactly the two 2025 offers, in order. */
  lemma FilterYearScenario()
    ensures FilterYear(ThreeOffers(), Some(2025)) == ThreeOffers()[1..]
    ensures |FilterYear(ThreeOffers(), Some(2025))| == 2
  {
    var rows := ThreeOffers();
    var keep := YearMask(2025);
    assert Where(rows[3..], keep) == [];
    assert Where(rows[2..], keep) == [rows[2]];
    assert Where(rows[1..], keep) == [rows[1], rows[2]];
  }

  /** The branches of the three offers are CS and EE. */
  lemma ThreeOffersBranches()
    ensures KeySet(ThreeOffers(), Branch) == {"CS", "EE"}
  {
    var rows := ThreeOffers();
    assert forall o :: o in rows <==> o == rows[0] || o == rows[1] || o == rows[2];
    assert rows[0] in rows && rows[2] in rows;
  }

  /** The CS offers average 10 and 12. */
  lemma ThreeOffersCSMean()
    ensures Group(ThreeOffers(), Branch, "CS") != []
    ensures Mean(Packages(Group(ThreeOffers(), Branch, "CS"))) == 11.0
  {
    var rows := ThreeOffers();
    assert Group(rows[3..], Branch, "CS") == [];
    assert Group(rows[2..], Branch, "CS") == [];
    assert Group(rows[1..], Branch, "CS") == [rows[1]];
    MeanOfTwo(rows[..2]);
  }

  /** The one EE offer has package 8. */
  lemma ThreeOffersEEMean()
    ensures Group(ThreeOffers(), Branch, "EE") != []
    ensures Mean(Packages(Group(ThreeOffers(), Branch, "EE"))) == 8.0
  {
    var rows := ThreeOffers();
    assert Group(rows[3..], Branch, "EE") == [];
    assert Group(rows[2..], Branch, "EE") == [rows[2]];
    assert Group(rows[1..], Branch, "EE") == [rows[2]];
    MeanOfOne(rows[2..]);
  }

  lemma MeanOfTwo(rows: seq<Offer>)
    requires |rows| == 2
    ensures Mean(Packages(rows)) == (rows[0].package + rows[1].package) / 2.0
  {
    var xs := Packages(rows);
    assert xs[1..][1..] == [];
    assert Sum(xs[1..]) == xs[1];
    assert Sum(xs) == xs[0] + xs[1];
  }

  lemma MeanOfOne(rows: seq<Offer>)
    requires |rows| == 1
    ensures Mean(Packages(rows)) == rows[0].package
  {
    var xs := Packages(rows);
    assert xs[1..] == [];
    assert Sum(xs) == xs[0];
  }

  /** The labels of a two-entry table. */
  lemma KeysOfPair<V(!new)>(r: seq<(string, V)>)
    requires |r| == 2
    ensures Keys(r) == {r[0].0, r[1].0}
  {
    assert forall y :: y in r <==> y == r[0] || y == r[1];
  }

  /**
   * A sorted table with distinct labels, whose labels are those of `a` and
   * `b` and whose values are theirs, lists the higher-ranked of the two first.
   */
  lemma RankedPair<V(!new)>(r: seq<(string, V)>, rank: V -> real, a: (string, V), b: (string, V))
    requires DistinctKeys(r) && SortedDesc(r, rank)
    requires Keys(r) == {a.0, b.0} && a.0 != b.0
    requires forall i :: 0 <= i < |r| && r[i].0 == a.0 ==> r[i].1 == a.1
    requires forall i :: 0 <= i < |r| && r[i].0 == b.0 ==> r[i].1 == b.1
    requires rank(a.1) > rank(b.1)
    ensures r == [a, b]
  {
    DistinctKeysCount(r);
    assert |r| == 2;
    KeysOfPair(r);
    assert r[0].0 != r[1].0;
    assert rank(r[0].1) >= rank(r[1].1);
  }

  /** A table with branches CS (mean 11) and EE (mean 8) ranks CS first. */
  lemma RankedMeansCSEE(d: seq<Offer>)
    requires KeySet(d, Branch) == {"CS", "EE"}
    requires Group(d, Branch, "CS") != [] && Mean(Packages(Group(d, Branch, "CS"))) == 11.0
    requires Group(d, Branch, "EE") != [] && Mean(Packages(Group(d, Branch, "EE"))) == 8.0
    ensures RankedMeans(d, Branch) == [("CS", 11.0), ("EE", 8.0)]
  {
    var r := RankedMeans(d, Branch);
    assert Keys(r) == {"CS", "EE"};
    assert forall i :: 0 <= i < |r| && r[i].0 == "CS" ==> r[i].1 == 11.0;
    assert forall i :: 0 <= i < |r| && r[i].0 == "EE" ==> r[i].1 == 8.0;
    RankedPair(r, AmountRank, ("CS", 11.0), ("EE", 8.0));
  }

  /** Averages 11 for CS and 8 for EE, CS first. */
  lemma AvgPackageScenario()
    ensures AvgPackagePerBranch(ThreeOffers(), None) == [("CS", 11.0), ("EE", 8.0)]
  {
    ThreeOffersBranches();
    ThreeOffersCSMean();
    ThreeOffersEEMean();
    RankedMeansCSEE(ThreeOffers());
  }

  /**
   * Two entries over four distinct labels counted 5, 3, 3 and 1, the first at
   * least the second, such that no label left out outranks an entry kept: the
   * first is the label counted 5 and the second one of those counted 3.
   */
  lemma TopTwoOfFour(first: (string, nat), second: (string, nat), a: string, b: string, c: string, e: string)
    requires first.0 != second.0 && first.1 >= second.1
    requires first.0 in {a, b, c, e} && second.0 in {a, b, c, e}
    requires first.0 == a ==> first.1 == 5
    requires first.0 == b || first.0 == c ==> first.1 == 3
    requires first.0 == e ==> first.1 == 1
    requires second.0 == a ==> second.1 == 5
    requires second.0 == b || second.0 == c ==> second.1 == 3
    requires second.0 == e ==> second.1 == 1
    requires a != first.0 && a != second.0 ==> 5 <= first.1
    requires b != first.0 && b != second.0 ==> 3 <= second.1
    requires c != first.0 && c != second.0 ==> 3 <= second.1
    ensures first == (a, 5) && (second == (b, 3) || second == (c, 3))
  {
  }

  /** Four distinct labels make a set of four. */
  lemma FourLabels(a: string, b: string, c: string, e: string)
    requires a != b && a != c && a != e && b != c && b != e && c != e
    ensures |{a, b, c, e}| == 4
  {
    assert {a, b, c, e} == {a, b, c} + {e};
    assert {a, b, c} == {a, b} + {c};
  }

  /**
   * The first two entries of a sorted table with distinct labels drawn from
   * four labels counted 5, 3, 3 and 1 in `count`, when no label left out
   * outranks an entry kept.
   */
  lemma TopTwoOfCounts(r: seq<(string, nat)>, count: map<string, nat>, a: string, b: string, c: string, e: string)
    requires |r| == 2 && DistinctKeys(r) && SortedDesc(r, CountRank)
    requires count.Keys == {a, b, c, e}
    requires a in count && count[a] == 5 && b in count && count[b] == 3
    requires c in count && count[c] == 3 && e in count && count[e] == 1
    requires forall i :: 0 <= i < |r| ==> r[i].0 in count && r[i].1 == count[r[i].0]
    requires forall i, x :: 0 <= i < |r| && x in count && x !in Keys(r) ==> count[x] <= r[i].1
    ensures r[0] == (a, 5) && (r[1] == (b, 3) || r[1] == (c, 3))
  {
    KeysOfPair(r);
    assert r[0].0 != r[1].0 && r[0].1 >= r[1].1;
    assert r[0].0 in count && r[1].0 in count;
    TopTwoOfFour(r[0], r[1], a, b, c, e);
  }

  /** Each company of `d` with its number of distinct students. */
  function CompanyCounts(d: seq<Offer>): map<string, nat>
  {
    map x | x in KeySet(d, Company) :: |GroupStudents(d, Company, x)|
  }

  /** A table of company counts of `d`, restated over CompanyCounts. */
  lemma CountsAsMap(d: seq<Offer>, r: seq<(string, nat)>)
    requires Keys(r) <= KeySet(d, Company)
    requires forall i :: 0 <= i < |r| ==> r[i].1 == |GroupStudents(d, Company, r[i].0)|
    requires forall i, c :: 0 <= i < |r| && c in KeySet(d, Company) && c !in Keys(r) ==>
               |GroupStudents(d, Company, c)| <= r[i].1
    ensures var count := CompanyCounts(d);
            && count.Keys == KeySet(d, Company)
            && (forall i :: 0 <= i < |r| ==> r[i].0 in count && r[i].1 == count[r[i].0])
            && (forall i, x :: 0 <= i < |r| && x in count && x !in Keys(r) ==> count[x] <= r[i].1)
  {
    var count := CompanyCounts(d);
    forall i | 0 <= i < |r| ensures r[i].0 in count && r[i].1 == count[r[i].0] {
      assert r[i] in r;
      assert r[i].0 in Keys(r);
    }
  }

  /** Two ranked company counts of a table whose company counts are 5, 3, 3 and 1. */
  lemma TopTwoOfRanked(d: seq<Offer>, r: seq<(string, nat)>, a: string, b: string, c: string, e: string)
    requires KeySet(d, Company) == {a, b, c, e}
    requires |GroupStudents(d, Company, a)| == 5 && |GroupStudents(d, Company, b)| == 3
    requires |GroupStudents(d, Company, c)| == 3 && |GroupStudents(d, Company, e)| == 1
    requires |r| == 2 && DistinctKeys(r) && SortedDesc(r, CountRank) && Keys(r) <= KeySet(d, Company)
    requires forall i :: 0 <= i < |r| ==> r[i].1 == |GroupStudents(d, Company, r[i].0)|
    requires forall i, x :: 0 <= i < |r| && x in KeySet(d, Company) && x !in Keys(r) ==>
               |GroupStudents(d, Company, x)| <= r[i].1
    ensures r[0] == (a, 5) && (r[1] == (b, 3) || r[1] == (c, 3))
  {
    var count := CompanyCounts(d);
    CountsAsMap(d, r);
    assert a in count && count[a] == 5 && b in count && count[b] == 3;
    assert c in count && count[c] == 3 && e in count && count[e] == 1;
    TopTwoOfCounts(r, count, a, b, c, e);
  }

  /** The first two entries of a sorted table of the company counts 5, 3, 3 and 1. */
  lemma TopTwoOfSorted(d: seq<Offer>, all: seq<(string, nat)>, a: string, b: string, c: string, e: string)
    requires a != b && a != c && a != e && b != c && b != e && c != e
    requires KeySet(d, Company) == {a, b, c, e}
    requires |GroupStudents(d, Company, a)| == 5 && |GroupStudents(d, Company, b)| == 3
    requires |GroupStudents(d, Company, c)| == 3 && |GroupStudents(d, Company, e)| == 1
    requires SortedDesc(all, CountRank) && DistinctKeys(all) && Keys(all) == KeySet(d, Company)
    requires |all| == |KeySet(d, Company)|
    requires forall i :: 0 <= i < |all| ==> all[i].1 == |GroupStudents(d, Company, all[i].0)|
    ensures var r := Head(all, 2);
            |r| == 2 && r[0] == (a, 5) && (r[1] == (b, 3) || r[1] == (c, 3))
  {
    var r := Head(all, 2);
    FourLabels(a, b, c, e);
    HeadOfCounts(d, Company, all, 2);
    HeadOfCountsExcluded(d, Company, all, 2);
    assert |r| == 2;
    TopTwoOfRanked(d, r, a, b, c, e);
  }

  /** The top two of a table whose company counts are 5, 3, 3 and 1. */
  lemma TopTwoOfTable(d: seq<Offer>, a: string, b: string, c: string, e: string)
    requires a != b && a != c && a != e && b != c && b != e && c != e
    requires KeySet(d, Company) == {a, b, c, e}
    requires |GroupStudents(d, Company, a)| == 5 && |GroupStudents(d, Company, b)| == 3
    requires |GroupStudents(d, Company, c)| == 3 && |GroupStudents(d, Company, e)| == 1
    ensures var r := Head(RankedDistinctCounts(d, Company), 2);
            |r| == 2 && r[0] == (a, 5) && (r[1] == (b, 3) || r[1] == (c, 3))
  {
    TopTwoOfSorted(d, RankedDistinctCounts(d, Company), a, b, c, e);
  }

  /** The top companies are the first entries of the ranked company counts of the filtered rows. */
  lemma TopCompaniesUnfold(rows: seq<Offer>, topN: int, year: Option<int>)
    ensures TopCompaniesByOffers(rows, topN, year) == Head(RankedDistinctCounts(FilterYear(rows, year), Company), topN)
  {
  }

  /**
   * With company counts A:5, B:3, C:3 and D:1, the top two are A and one of
   * the two companies tied at 3.
   */
  lemma TopTwoScenario(rows: seq<Offer>, year: Option<int>)
    requires KeySet(FilterYear(rows, year), Company) == {"A", "B", "C", "D"}
    requires |GroupStudents(FilterYear(rows, year), Company, "A")| == 5
    requires |GroupStudents(FilterYear(rows, year), Company, "B")| == 3
    requires |GroupStudents(FilterYear(rows, year), Company, "C")| == 3
    requires |GroupStudents(FilterYear(rows, year), Company, "D")| == 1
    ensures var r := TopCompaniesByOffers(rows, 2, year);
            |r| == 2 && r[0] == ("A", 5) && (r[1] == ("B", 3) || r[1] == ("C", 3))
  {
    TopCompaniesUnfold(rows, 2, year);
    TopTwoOfTable(FilterYear(rows, year), "A", "B", "C", "D");
  }
}
