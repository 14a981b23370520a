/**
 * The dashboard's entry point: pick a loader by mode, report the number of
 * rows loaded, then compute the five charts' data from that one table with
 * the same year and name each chart's file.
 */
module Dashboard {
  import opened Wrappers
  import opened Offers
  import opened Aggregates
  import opened OutputNames

  /** The failures that abort a run before any chart is drawn. */
  datatype Error =
    | FileNotFound(path: string)        // CSV mode: the input file does not exist
    | ParseFailure(cause: string)       // CSV mode: the file exists but does not parse to offers
    | MissingDependency                 // MySQL mode: the client library cannot be imported
    | ConnectionFailure(cause: string)  // MySQL mode: connecting or querying failed
    | UnsupportedMode                   // a mode other than "csv" or "mysql"

  /** The CSV file read in CSV mode. */
  const CsvPath: string := "data/sample_placements.csv"

  /** The number of companies `main` asks the top-companies chart for. */
  const MainTopN: int := 6

  /**
   * What the loaders would find, in place of the file system and the
   * database: whether the CSV file exists and what reading it gives (its rows,
   * or why `read_csv` or the `offer_date` year extraction fails), whether the
   * MySQL client is installed, and what the joined query returns.
   */
  datatype Sources = Sources(
    csvExists: bool,
    csvRows: Result<seq<Offer>, string>,
    connectorInstalled: bool,
    database: Result<seq<Offer>, string>)

  /**
   * The CSV loader: succeeds exactly when the file exists and parses; a
   * missing file is reported before any reading is tried.
   */
  function LoadFromCsv(src: Sources): (r: Result<seq<Offer>, Error>)
    ensures r.Ok? <==> src.csvExists && src.csvRows.Ok?
    ensures r.Ok? ==> r.value == src.csvRows.value
    ensures !src.csvExists ==> r == Err(FileNotFound(CsvPath))
    ensures src.csvExists && src.csvRows.Err? ==> r == Err(ParseFailure(src.csvRows.error))
  {
    if !src.csvExists then Err(FileNotFound(CsvPath))
    else match src.csvRows
      case Err(cause) => Err(ParseFailure(cause))
      case Ok(rows) => Ok(rows)
  }

  /**
   * The MySQL loader: succeeds exactly when the client library is installed
   * and the query returns rows; a missing library is reported before any
   * connection is tried.
   */
  function LoadFromMysql(src: Sources): (r: Result<seq<Offer>, Error>)
    ensures r.Ok? <==> src.connectorInstalled && src.database.Ok?
    ensures r.Ok? ==> r.value == src.database.value
    ensures !src.connectorInstalled ==> r == Err(MissingDependency)
    ensures src.connectorInstalled && src.database.Err? ==> r == Err(ConnectionFailure(src.database.error))
  {
    if !src.connectorInstalled then Err(MissingDependency)
    else match src.database
      case Err(cause) => Err(ConnectionFailure(cause))
      case Ok(rows) => Ok(rows)
  }

  /** Everything one run produces: the row count it reports and each chart's data and file. */
  datatype Report = Report(
    rowCount: nat,
    perBranch: seq<(string, nat)>,
    avgPackage: seq<(string, real)>,
    topCompanies: seq<(string, nat)>,
    salaries: seq<real>,
    heatmap: CrossTab,
    files: seq<string>)

  /**
   * The five charts of a run over the loaded table `df`: the reported count is
   * the number of rows loaded; every analysis gets the same table and year,
   * the top-companies one with 6 companies; the histogram gets the packages of
   * the filtered rows; and the five charts go to five different files, named
   * by kind and year in drawing order.
   */
  function Charts(df: seq<Offer>, year: Option<int>): (rep: Report)
    ensures rep.rowCount == |df|
    ensures rep.perBranch == PlacementsPerBranch(df, year)
    ensures rep.avgPackage == AvgPackagePerBranch(df, year)
    ensures rep.topCompanies == TopCompaniesByOffers(df, MainTopN, year)
    ensures rep.salaries == Packages(FilterYear(df, year))
    ensures rep.heatmap == HeatmapBranchCompany(df, year)
    ensures rep.files ==
              [OutputName(PlacementsKind, year), OutputName(AvgPackageKind, year),
               OutputName(TopCompaniesKind, year), OutputName(SalaryKind, year),
               OutputName(HeatmapKind, year)]
    ensures |rep.files| == 5 && forall i, j :: 0 <= i < j < 5 ==> rep.files[i] != rep.files[j]
    ensures |rep.topCompanies| <= MainTopN
    ensures |rep.salaries| == |FilterYear(df, year)|
  {
    ChartNamesDistinct(year);
    Report(
      |df|,
      PlacementsPerBranch(df, year),
      AvgPackagePerBranch(df, year),
      TopCompaniesByOffers(df, MainTopN, year),
      Packages(FilterYear(df, year)),
      HeatmapBranchCompany(df, year),
      [OutputName(PlacementsKind, year), OutputName(AvgPackageKind, year),
       OutputName(TopCompaniesKind, year), OutputName(SalaryKind, year),
       OutputName(HeatmapKind, year)])
  }

  /**
   * `main(mode, year)`: an unsupported mode is rejected whatever the sources
   * hold; a loader failure aborts the run with that loader's error; otherwise
   * every chart is computed from the loaded table with the same year, the
   * top-companies chart with 6 companies, and the reported count is the
   * number of rows loaded before filtering.
   */
  function Main(mode: string, year: Option<int>, src: Sources): (r: Result<Report, Error>)
    ensures mode != "csv" && mode != "mysql" ==> r == Err(UnsupportedMode)
    ensures mode == "csv" ==>
              if !src.csvExists then r == Err(FileNotFound(CsvPath))
              else if src.csvRows.Err? then r == Err(ParseFailure(src.csvRows.error))
              else r == Ok(Charts(src.csvRows.value, year))
    ensures mode == "mysql" ==>
              if !src.connectorInstalled then r == Err(MissingDependency)
              else if src.database.Err? then r == Err(ConnectionFailure(src.database.error))
              else r == Ok(Charts(src.database.value, year))
  {
    var loaded :=
      if mode == "csv" then LoadFromCsv(src)
      else if mode == "mysql" then LoadFromMysql(src)
      else Err(UnsupportedMode);
    match loaded
    case Err(e) => Err(e)
    case Ok(df) => Ok(Charts(df, year))
  }

  /** An unsupported mode is rejected before anything is loaded: the sources make no difference. */
  lemma UnsupportedModeLoadsNothing(mode: string, year: Option<int>, a: Sources, b: Sources)
    requires mode != "csv" && mode != "mysql"
    ensures Main(mode, year, a) == Main(mode, year, b) == Err(UnsupportedMode)
  {
  }

  /**
   * A year of 0 still filters the rows (keeping only offers dated year 0)
   * while the files are named as for an unfiltered run, so such a run
   * overwrites the "all" charts with charts of a filtered table.
   */
  lemma ZeroYearOverwritesAllCharts(rows: seq<Offer>)
    requires exists o :: o in rows && o.offerYear != 0
    ensures Charts(rows, Some(0)).files == Charts(rows, None).files
    ensures Charts(rows, Some(0)).salaries != Charts(rows, None).salaries
  {
    var o :| o in rows && o.offerYear != 0;
    var d := FilterYear(rows, Some(0));
    assert |d| < |rows| by {
      assert multiset(d)[o] == 0;
      assert multiset(rows)[o] > 0;
      SubMultisetSmaller(d, rows);
    }
    ZeroYearNamedAll(PlacementsKind);
    ZeroYearNamedAll(AvgPackageKind);
    ZeroYearNamedAll(TopCompaniesKind);
    ZeroYearNamedAll(SalaryKind);
    ZeroYearNamedAll(HeatmapKind);
  }

  /** A sequence whose every element occurs at most as often as in another, and one strictly less, is shorter. */
  lemma SubMultisetSmaller(a: seq<Offer>, b: seq<Offer>)
    requires multiset(a) <= multiset(b) && multiset(a) != multiset(b)
    ensures |a| < |b|
  {
    assert |multiset(b)| == |multiset(a)| + |multiset(b) - multiset(a)|;
  }
}
