/**
 * The last stage of the report script: the acceptance rate of every
 * country, the minimum-sample rule, the rounding and percent formatting,
 * and the listing sorted by country; then the whole pipeline from the
 * loaded records to the printed table.
 */
module Report {
  import opened Wrappers
  import opened Text
  import opened Orders
  import opened Failures
  import opened Countries

  /** Countries with fewer transactions are listed only when every one succeeded. */
  const MinSampleSize: nat := 50

  function Distance(a: int, b: int): nat {
    if a <= b then b - a else a - b
  }

  /**
   * `round(0)` on the quotient `num / den`: the nearest whole number, a tie
   * going to the even neighbour (NumPy's rounding).
   */
  function RoundHalfEven(num: nat, den: nat): (q: nat)
    requires den > 0
    ensures 2 * Distance(q * den, num) <= den
    ensures 2 * Distance(q * den, num) == den ==> q % 2 == 0
  {
    NeighbourDistances(num, den);
    var low := num / den;
    var rest := num % den;
    if 2 * rest < den then low
    else if 2 * rest > den || low % 2 == 1 then low + 1
    else low
  }

  /** The whole numbers either side of `num / den` lie `num % den` below and `den - num % den` above, scaled by `den`. */
  lemma NeighbourDistances(num: nat, den: nat)
    requires den > 0
    ensures Distance((num / den) * den, num) == num % den
    ensures Distance((num / den + 1) * den, num) == den - num % den
  {
    var low := num / den;
    assert low * den == num - num % den;
    assert (low + 1) * den == low * den + den;
  }

  lemma MulStep(x: nat, y: nat, d: nat)
    requires x >= y + 1
    ensures x * d >= y * d + d
  {
    assert x * d == (x - y - 1) * d + y * d + d;
  }

  /** Nearest-with-ties-to-even pins the result down: no other whole number qualifies. */
  lemma RoundHalfEvenUnique(num: nat, den: nat, q: nat)
    requires den > 0
    requires 2 * Distance(q * den, num) <= den
    requires 2 * Distance(q * den, num) == den ==> q % 2 == 0
    ensures q == RoundHalfEven(num, den)
  {
    var r := RoundHalfEven(num, den);
    if q > r {
      MulStep(q, r, den);
      if q > r + 1 {
        MulStep(q, r + 1, den);
      }
    } else if q < r {
      MulStep(r, q, den);
      if r > q + 1 {
        MulStep(r, q + 1, den);
      }
    }
  }

  /** `successful_count / total_transactions * 100`, rounded to a whole percent. */
  function AcceptanceRate(successful: nat, total: nat): nat
    requires total > 0
  {
    RoundHalfEven(100 * successful, total)
  }

  /** The rate lies between 0 and 100, and a country whose every transaction succeeded shows 100. */
  lemma AcceptanceRateBounds(successful: nat, total: nat)
    requires 0 < total && successful <= total
    ensures AcceptanceRate(successful, total) <= 100
    ensures successful == total ==> AcceptanceRate(successful, total) == 100
  {
    var q := AcceptanceRate(successful, total);
    if q > 100 {
      MulStep(q, 100, total);
    }
    if successful == total {
      RoundHalfEvenUnique(100 * successful, total, 100);
    }
  }

  /**
   * The row filter: at least the minimum sample, or an unrounded rate of
   * exactly 100, which for positive totals means every transaction
   * succeeded. A zero total has no rate and is not kept.
   */
  predicate MeetsSampleRule(c: Counts) {
    c.total >= MinSampleSize || (c.total > 0 && c.successful == c.total)
  }

  /** One printed line: the whole-number counts and the rate as text ending in `%`. */
  datatype ReportRow = ReportRow(country: string, successful: nat, failed: nat, total: nat, acceptanceRate: string)

  function FormatRow(country: string, c: Counts): ReportRow
    requires c.total > 0
  {
    ReportRow(country, c.successful, c.failed, c.total, PercentText(AcceptanceRate(c.successful, c.total)))
  }

  function KeptCountries(summary: map<string, Counts>): set<string> {
    set name | name in summary && MeetsSampleRule(summary[name])
  }

  /** One row per name, in the order of the names. */
  function FormatRows(names: seq<string>, summary: map<string, Counts>): (rows: seq<ReportRow>)
    requires forall i :: 0 <= i < |names| ==> names[i] in summary && summary[names[i]].total > 0
    ensures |rows| == |names|
    ensures forall i :: 0 <= i < |rows| ==> rows[i] == FormatRow(names[i], summary[names[i]])
    decreases |names|
  {
    if names == [] then []
    else FormatRows(names[..|names| - 1], summary) + [FormatRow(names[|names| - 1], summary[names[|names| - 1]])]
  }

  /** The countries that pass the sample rule, one row each, in increasing order of name. */
  function FormatReport(summary: map<string, Counts>): (rows: seq<ReportRow>)
    ensures |rows| == |KeptCountries(summary)|
    ensures forall i, j :: 0 <= i < j < |rows| ==> LexLess(rows[i].country, rows[j].country)
    ensures forall i :: 0 <= i < |rows| ==>
                        && rows[i].country in summary
                        && MeetsSampleRule(summary[rows[i].country])
                        && rows[i].successful == summary[rows[i].country].successful
                        && rows[i].failed == summary[rows[i].country].failed
                        && rows[i].total == summary[rows[i].country].total
  {
    FormatRows(SortedNames(KeptCountries(summary)), summary)
  }

  /** A country is listed exactly when it has a summary row that passes the sample rule. */
  lemma ReportListsAt(summary: map<string, Counts>, name: string)
    ensures (exists i :: 0 <= i < |FormatReport(summary)| && FormatReport(summary)[i].country == name) <==>
            name in summary && MeetsSampleRule(summary[name])
  {
    var rows := FormatReport(summary);
    var names := SortedNames(KeptCountries(summary));
    assert rows == FormatRows(names, summary);
    if name in summary && MeetsSampleRule(summary[name]) {
      assert name in KeptCountries(summary);
      var i :| 0 <= i < |names| && names[i] == name;
      assert rows[i].country == name;
    }
  }

  /**
   * Every printed rate is in the form of `str(n) + "%"` (digits, no leading
   * zero) and reads back as the rounded percentage of its row.
   */
  lemma ReportRates(summary: map<string, Counts>)
    ensures forall i :: 0 <= i < |FormatReport(summary)| ==>
              && IsPercentText(FormatReport(summary)[i].acceptanceRate)
              && ParsePercent(FormatReport(summary)[i].acceptanceRate) ==
                 Some(AcceptanceRate(FormatReport(summary)[i].successful, FormatReport(summary)[i].total))
  {
    var rows := FormatReport(summary);
    forall i | 0 <= i < |rows|
      ensures IsPercentText(rows[i].acceptanceRate)
      ensures ParsePercent(rows[i].acceptanceRate) == Some(AcceptanceRate(rows[i].successful, rows[i].total))
    {
      PercentTextForm(AcceptanceRate(rows[i].successful, rows[i].total));
      ParsePercentText(AcceptanceRate(rows[i].successful, rows[i].total));
    }
  }

  /** The printed rate of a consistent row is exactly the rendering of its rounded percentage. */
  lemma RowRateText(row: ReportRow)
    requires RowConsistent(row)
    ensures row.acceptanceRate == PercentText(AcceptanceRate(row.successful, row.total))
  {
    PercentTextUnique(row.acceptanceRate, AcceptanceRate(row.successful, row.total));
  }

  /**
   * The whole script: provider selection, deduplication, the per-pair
   * counts, the country merge and sums, and the formatted listing.
   */
  function AcceptanceReport(selector: Option<string>, records: seq<Record>, countryName: string -> Option<string>)
    : seq<ReportRow>
    requires ProviderSelectable(selector, records)
  {
    FormatReport(CountrySummary(DropDuplicateOrders(SelectProvider(selector, records)), countryName))
  }

  /**
   * Every listed row of a summary whose totals are successes plus failures
   * keeps that sum, is positive, passes the sample rule and shows a rate
   * between 0 and 100 that reads back from its text.
   */
  lemma ReportRowFacts(summary: map<string, Counts>)
    requires forall name :: name in summary ==> Consistent(summary[name])
    ensures forall i :: 0 <= i < |FormatReport(summary)| ==> RowConsistent(FormatReport(summary)[i])
  {
    var rows := FormatReport(summary);
    ReportRates(summary);
    forall i | 0 <= i < |rows|
      ensures RowConsistent(rows[i])
    {
      var name := rows[i].country;
      assert MeetsSampleRule(summary[name]);
      AcceptanceRateBounds(rows[i].successful, rows[i].total);
    }
  }

  /** The promises of one printed row about its own columns. */
  predicate RowConsistent(row: ReportRow) {
    && row.total == row.successful + row.failed
    && row.total >= 1
    && (row.total >= MinSampleSize || row.successful == row.total)
    && AcceptanceRate(row.successful, row.total) <= 100
    && IsPercentText(row.acceptanceRate)
    && ParsePercent(row.acceptanceRate) == Some(AcceptanceRate(row.successful, row.total))
  }

  /**
   * The listing built from a set of records: countries in strictly
   * increasing order, each named by the code of some record whose pair has
   * counts, and each row consistent in itself.
   */
  lemma CountryReportMeaning(data: seq<Record>, countryName: string -> Option<string>)
    ensures var rows := FormatReport(CountrySummary(data, countryName));
            && (forall i :: 0 <= i < |rows| ==> RowConsistent(rows[i]))
            && (forall i :: 0 <= i < |rows| ==>
                  exists r :: r in data && PairOf(r) in PairCounts(data) &&
                              ResolveCountry(countryName, r.country) == Some(rows[i].country))
  {
    var summary := CountrySummary(data, countryName);
    var rows := FormatReport(summary);
    CountrySummaryMeaning(data, countryName);
    ReportRowFacts(summary);
    forall i | 0 <= i < |rows|
      ensures exists r :: r in data && PairOf(r) in PairCounts(data) &&
                          ResolveCountry(countryName, r.country) == Some(rows[i].country)
    {
      assert rows[i].country in summary;
    }
  }

  /**
   * What the printed table promises for the whole script: countries in
   * strictly increasing order, each named by the code of some selected,
   * deduplicated record whose pair has counts, and each row consistent in
   * itself.
   */
  lemma AcceptanceReportMeaning(selector: Option<string>, records: seq<Record>, countryName: string -> Option<string>)
    requires ProviderSelectable(selector, records)
    ensures var rows := AcceptanceReport(selector, records, countryName);
            var data := DropDuplicateOrders(SelectProvider(selector, records));
            && (forall i, j :: 0 <= i < j < |rows| ==> LexLess(rows[i].country, rows[j].country))
            && (forall i :: 0 <= i < |rows| ==> RowConsistent(rows[i]))
            && (forall i :: 0 <= i < |rows| ==>
                  exists r :: r in data && PairOf(r) in PairCounts(data) &&
                              ResolveCountry(countryName, r.country) == Some(rows[i].country))
  {
    CountryReportMeaning(DropDuplicateOrders(SelectProvider(selector, records)), countryName);
  }
}
