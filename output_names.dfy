/**
 * The file name each chart is saved under:
 * `f"{kind}_{year if year else 'all'}.png"`.
 */
module OutputNames {
  import opened Wrappers

  /** The chart kinds, in the order the dashboard draws them. */
  const PlacementsKind: string := "placements_per_branch"
  const AvgPackageKind: string := "avg_package_per_branch"
  const TopCompaniesKind: string := "top_companies"
  const SalaryKind: string := "salary_distribution"
  const HeatmapKind: string := "heatmap_branch_company"

  predicate IsDigit(c: char) { '0' <= c <= '9' }

  function DigitChar(d: nat): (c: char)
    requires d < 10
    ensures IsDigit(c)
  {
    ('0' as int + d) as char
  }

  function DigitValue(c: char): (d: nat)
    requires IsDigit(c)
    ensures d < 10
  {
    c as int - '0' as int
  }

  /** Decimal digits of a natural number without leading zeros, as `str` writes it. */
  function NatToDecimal(n: nat): (s: string)
    ensures 1 <= |s|
    ensures forall i :: 0 <= i < |s| ==> IsDigit(s[i])
    ensures s[0] == '0' ==> s == "0"
  {
    if n < 10 then [DigitChar(n)] else NatToDecimal(n / 10) + [DigitChar(n % 10)]
  }

  /** `int(s)` on a string of decimal digits. */
  function DecimalToNat(s: string): nat
    requires forall i :: 0 <= i < |s| ==> IsDigit(s[i])
  {
    if s == [] then 0 else DecimalToNat(s[..|s| - 1]) * 10 + DigitValue(s[|s| - 1])
  }

  /** Reading back the digits written for `n` gives `n`. */
  lemma {:induction false} NatDecimalRoundTrip(n: nat)
    ensures DecimalToNat(NatToDecimal(n)) == n
  {
    var s := NatToDecimal(n);
    if n >= 10 {
      NatDecimalRoundTrip(n / 10);
      assert s[..|s| - 1] == NatToDecimal(n / 10);
    }
  }

  /**
   * `str(n)` for an integer: a minus sign exactly for a negative number, then
   * its digits, with no leading zero except for 0 itself.
   */
  function IntToDecimal(n: int): (s: string)
    ensures 1 <= |s|
    ensures s[0] == '-' || IsDigit(s[0])
    ensures s[0] == '-' <==> n < 0
    ensures n < 0 ==> 2 <= |s| && forall i :: 1 <= i < |s| ==> IsDigit(s[i])
    ensures n < 0 ==> s[1] != '0'
    ensures n >= 0 ==> forall i :: 0 <= i < |s| ==> IsDigit(s[i])
    ensures s[0] == '0' ==> s == "0"
  {
    if n < 0 then "-" + NatToDecimal(-n) else NatToDecimal(n)
  }

  /**
   * A string `int(...)` accepts in the form `str` writes: an optional minus
   * sign, then at least one digit.
   */
  predicate IsDecimal(s: string)
  {
    if |s| > 0 && s[0] == '-' then 2 <= |s| && forall i :: 1 <= i < |s| ==> IsDigit(s[i])
    else 1 <= |s| && forall i :: 0 <= i < |s| ==> IsDigit(s[i])
  }

  /** `int(s)`: negative exactly after a minus sign (or zero, for "-0"). */
  function DecimalToInt(s: string): (n: int)
    requires IsDecimal(s)
    ensures |s| > 0 && s[0] == '-' ==> n <= 0
    ensures !(|s| > 0 && s[0] == '-') ==> n >= 0
  {
    if |s| > 0 && s[0] == '-' then
      assert forall i :: 0 <= i < |s[1..]| ==> s[1..][i] == s[i + 1];
      var magnitude: int := DecimalToNat(s[1..]);
      -magnitude
    else DecimalToNat(s)
  }

  /** `int(str(n)) == n`: the decimal text of a year names that year and no other. */
  lemma IntDecimalRoundTrip(n: int)
    ensures IsDecimal(IntToDecimal(n)) && DecimalToInt(IntToDecimal(n)) == n
  {
    var s := IntToDecimal(n);
    if n < 0 {
      NatDecimalRoundTrip(-n);
      assert s[1..] == NatToDecimal(-n);
    } else {
      NatDecimalRoundTrip(n);
    }
  }

  /** Python truthiness of the `year` argument: present and non-zero. */
  predicate Truthy(year: Option<int>)
  {
    year.Some? && year.value != 0
  }

  /**
   * `year if year else 'all'`: "all" exactly for a falsy year, otherwise the
   * decimal text that `int` reads back as the year.
   */
  function YearLabel(year: Option<int>): (text: string)
    ensures text == "all" <==> !Truthy(year)
    ensures Truthy(year) ==> IsDecimal(text) && DecimalToInt(text) == year.value
  {
    if Truthy(year) then
      IntDecimalRoundTrip(year.value);
      IntToDecimal(year.value)
    else "all"
  }

  /**
   * The file a chart of kind `kind` is saved under: the kind, an underscore,
   * the year label and the `.png` extension.
   */
  function OutputName(kind: string, year: Option<int>): (name: string)
    ensures |name| == |kind| + |YearLabel(year)| + 5
    ensures name[..|kind|] == kind && name[|kind|] == '_'
    ensures name[|kind| + 1 .. |name| - 4] == YearLabel(year)
    ensures name[|name| - 4..] == ".png"
    ensures !Truthy(year) ==> name == kind + "_all.png"
  {
    kind + "_" + YearLabel(year) + ".png"
  }

  /**
   * Two runs write the same file for a chart kind exactly when both have a
   * falsy year (none, or 0) or both have the same non-zero year.
   */
  lemma OutputNameSameFile(kind: string, a: Option<int>, b: Option<int>)
    ensures OutputName(kind, a) == OutputName(kind, b) <==>
              (Truthy(a) <==> Truthy(b)) && (Truthy(a) ==> a.value == b.value)
  {
    var na, nb := OutputName(kind, a), OutputName(kind, b);
    var la, lb := YearLabel(a), YearLabel(b);
    if na == nb {
      assert |la| == |lb|;
      assert la == na[|kind| + 1 .. |na| - 4];
      assert lb == nb[|kind| + 1 .. |nb| - 4];
      assert Truthy(a) ==> la[0] == '-' || IsDigit(la[0]);
      assert Truthy(b) ==> lb[0] == '-' || IsDigit(lb[0]);
      if Truthy(a) && Truthy(b) {
        IntDecimalRoundTrip(a.value);
        IntDecimalRoundTrip(b.value);
      }
    }
  }

  /** A year of 0 is falsy: its charts are named like the unfiltered ones. */
  lemma ZeroYearNamedAll(kind: string)
    ensures OutputName(kind, Some(0)) == kind + "_all.png"
    ensures OutputName(kind, Some(0)) == OutputName(kind, None)
  {
  }

  /** The five charts of one run go to five different files. */
  lemma ChartNamesDistinct(year: Option<int>)
    ensures var names := [OutputName(PlacementsKind, year), OutputName(AvgPackageKind, year),
                          OutputName(TopCompaniesKind, year), OutputName(SalaryKind, year),
                          OutputName(HeatmapKind, year)];
            forall i, j :: 0 <= i < j < |names| ==> names[i] != names[j]
  {
    FirstLetterOfName(PlacementsKind, year);
    FirstLetterOfName(AvgPackageKind, year);
    FirstLetterOfName(TopCompaniesKind, year);
    FirstLetterOfName(SalaryKind, year);
    FirstLetterOfName(HeatmapKind, year);
    DistinctFirstLetters(OutputName(PlacementsKind, year), OutputName(AvgPackageKind, year),
                         OutputName(TopCompaniesKind, year), OutputName(SalaryKind, year),
                         OutputName(HeatmapKind, year));
  }

  /** Five names starting with five different letters are five different names. */
  lemma DistinctFirstLetters(a: string, b: string, c: string, d: string, e: string)
    requires a != [] && b != [] && c != [] && d != [] && e != []
    requires a[0] == 'p' && b[0] == 'a' && c[0] == 't' && d[0] == 's' && e[0] == 'h'
    ensures var names := [a, b, c, d, e];
            forall i, j :: 0 <= i < j < |names| ==> names[i] != names[j]
  {
  }

  /** A file name starts with the first letter of its kind. */
  lemma FirstLetterOfName(kind: string, year: Option<int>)
    requires kind != []
    ensures OutputName(kind, year)[0] == kind[0]
  {
    var name := OutputName(kind, year);
    assert name[..|kind|][0] == name[0];
  }
}
