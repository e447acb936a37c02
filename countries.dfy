/**
 * Country attachment and the per-country sums of the report script: the
 * distinct (user, partner, code) rows, the code-to-name lookup, the left
 * merge onto the per-pair counts and the group-by on the country name.
 */
module Countries {
  import opened Wrappers
  import opened Tables
  import opened Orders
  import opened Failures

  /** One row of `data[['user_id', 'partner_id', 'country']]`. */
  datatype CountryRow = CountryRow(pair: Pair, code: Option<string>)

  function CountryRowOf(r: Record): CountryRow {
    CountryRow(PairOf(r), r.country)
  }

  function RowKey(row: CountryRow): CountryRow {
    row
  }

  /** `data[['user_id', 'partner_id', 'country']].drop_duplicates()`. */
  function CountryRows(data: seq<Record>): seq<CountryRow> {
    DropDuplicates(seq(|data|, i requires 0 <= i < |data| => CountryRowOf(data[i])), RowKey)
  }

  /**
   * `country_name` applied to the code column: the lookup itself is a
   * parameter; a missing code has no name.
   */
  function ResolveCountry(countryName: string -> Option<string>, code: Option<string>): Option<string> {
    match code
    case None => None
    case Some(c) => countryName(c)
  }

  /** A per-pair counts row with the name of one of its pair's codes attached. */
  datatype JoinedRow = JoinedRow(pair: Pair, counts: Counts, country: Option<string>)

  /**
   * The merge of the per-pair counts with the resolved country rows on
   * (user, partner): one row per matching country row, carrying the pair's
   * counts.
   */
  function JoinCountries(combined: map<Pair, Counts>, rows: seq<CountryRow>, countryName: string -> Option<string>)
    : (joined: seq<JoinedRow>)
    ensures forall i :: 0 <= i < |joined| ==> joined[i].pair in combined && joined[i].counts == combined[joined[i].pair]
    decreases |rows|
  {
    if rows == [] then []
    else
      var init := JoinCountries(combined, rows[..|rows| - 1], countryName);
      var row := rows[|rows| - 1];
      if row.pair in combined then init + [JoinedRow(row.pair, combined[row.pair], ResolveCountry(countryName, row.code))]
      else init
  }

  function Joined(data: seq<Record>, countryName: string -> Option<string>): seq<JoinedRow> {
    JoinCountries(PairCounts(data), CountryRows(data), countryName)
  }

  /** The country rows: one per distinct (pair, code) of the data, and no other. */
  lemma CountryRowsMeaning(data: seq<Record>)
    ensures forall i, j :: 0 <= i < j < |CountryRows(data)| ==> CountryRows(data)[i] != CountryRows(data)[j]
    ensures forall row :: row in CountryRows(data) <==> exists r :: r in data && CountryRowOf(r) == row
  {
    var projected := seq(|data|, i requires 0 <= i < |data| => CountryRowOf(data[i]));
    var rows := CountryRows(data);
    assert KeysOf(rows, RowKey) == KeysOf(projected, RowKey);
    forall row
      ensures row in rows <==> exists r :: r in data && CountryRowOf(r) == row
    {
      if row in rows {
        var i :| 0 <= i < |rows| && rows[i] == row;
        assert RowKey(rows[i]) in KeysOf(rows, RowKey);
        var j :| 0 <= j < |projected| && RowKey(projected[j]) == row;
        assert data[j] in data;
      }
      if r :| r in data && CountryRowOf(r) == row {
        var j :| 0 <= j < |data| && data[j] == r;
        assert RowKey(projected[j]) in KeysOf(projected, RowKey);
        var i :| 0 <= i < |rows| && RowKey(rows[i]) == row;
      }
    }
  }

  lemma CountryRowsDistinct(data: seq<Record>)
    ensures forall i, j :: 0 <= i < j < |CountryRows(data)| ==> CountryRows(data)[i] != CountryRows(data)[j]
  {
    CountryRowsMeaning(data);
  }

  /** Every pair that has counts has at least one country row, so the left merge loses no pair. */
  lemma EveryPairHasCountryRow(data: seq<Record>)
    ensures forall p :: p in PairCounts(data) ==> exists row :: row in CountryRows(data) && row.pair == p
  {
    CountryRowsMeaning(data);
    forall p | p in PairCounts(data)
      ensures exists row :: row in CountryRows(data) && row.pair == p
    {
      PairCountsMeaning(data, p);
      var r: Record;
      if q :| q in data && IsSuccess(q) && PairOf(q) == p {
        r := q;
      } else {
        var k :| k in SurvivingFailures(data) && PairOfKey(k) == p;
        FailureGroupAt(data, k);
        r :| r in data && InFailureGroup(k)(r);
      }
      assert CountryRowOf(r) in CountryRows(data);
    }
  }

  function RowResolvesTo(countryName: string -> Option<string>, p: Pair, name: string): CountryRow -> bool {
    (row: CountryRow) => row.pair == p && ResolveCountry(countryName, row.code) == Some(name)
  }

  function JoinedAt(p: Pair, name: string): JoinedRow -> bool {
    (j: JoinedRow) => j.pair == p && j.country == Some(name)
  }

  lemma {:induction false} JoinedCount(
    combined: map<Pair, Counts>, rows: seq<CountryRow>, countryName: string -> Option<string>, p: Pair, name: string)
    requires p in combined
    ensures |Filter(JoinCountries(combined, rows, countryName), JoinedAt(p, name))| ==
            |Filter(rows, RowResolvesTo(countryName, p, name))|
    decreases |rows|
  {
    if rows != [] {
      JoinedCount(combined, rows[..|rows| - 1], countryName, p, name);
    }
  }

  /** The codes recorded for a pair, a missing code included. */
  function CodesOf(data: seq<Record>, p: Pair): set<Option<string>> {
    set r | r in data && PairOf(r) == p :: r.country
  }

  function CodeOf(row: CountryRow): Option<string> {
    row.code
  }

  /** The codes of a pair that resolve to a given name. */
  function CodesNamed(data: seq<Record>, countryName: string -> Option<string>, p: Pair, name: string): set<Option<string>> {
    set c | c in CodesOf(data, p) && ResolveCountry(countryName, c) == Some(name)
  }

  /** The country rows of a pair whose code resolves to a given name. */
  function RowsNamed(data: seq<Record>, countryName: string -> Option<string>, p: Pair, name: string): set<CountryRow> {
    Selected(CountryRows(data), RowResolvesTo(countryName, p, name))
  }

  /** Distinct rows of one pair differ in their code, and their codes are the pair's codes with that name. */
  lemma RowsNamedCodes(data: seq<Record>, countryName: string -> Option<string>, p: Pair, name: string)
    ensures forall x, y ::
              x in RowsNamed(data, countryName, p, name) && y in RowsNamed(data, countryName, p, name) && CodeOf(x) == CodeOf(y)
              ==> x == y
    ensures CodesNamed(data, countryName, p, name) == Image(RowsNamed(data, countryName, p, name), CodeOf)
  {
    var matching := RowsNamed(data, countryName, p, name);
    var codes := CodesNamed(data, countryName, p, name);
    CountryRowsMeaning(data);
    forall c | c in codes
      ensures c in Image(matching, CodeOf)
    {
      var r :| r in data && PairOf(r) == p && r.country == c;
      assert CountryRowOf(r) in matching;
    }
    forall row | row in matching
      ensures CodeOf(row) in codes
    {
      var r :| r in data && CountryRowOf(r) == row;
    }
  }

  /** The joined rows of a pair and name are as many as the country rows of that pair resolving to the name. */
  lemma JoinedRowsNamed(
    data: seq<Record>, combined: map<Pair, Counts>, countryName: string -> Option<string>, p: Pair, name: string)
    requires p in combined
    ensures |Filter(JoinCountries(combined, CountryRows(data), countryName), JoinedAt(p, name))| ==
            |RowsNamed(data, countryName, p, name)|
  {
    var rows := CountryRows(data);
    var keep := RowResolvesTo(countryName, p, name);
    JoinedCount(combined, rows, countryName, p, name);
    assert |Filter(JoinCountries(combined, rows, countryName), JoinedAt(p, name))| == |Filter(rows, keep)|;
    CountryRowsDistinct(data);
    FilterDistinctSize(rows, keep);
  }

  /**
   * The merge fans out: a pair with counts is joined to a country name once
   * for every distinct code of that pair that resolves to the name.
   */
  lemma CountryFanOut(
    data: seq<Record>, combined: map<Pair, Counts>, countryName: string -> Option<string>, p: Pair, name: string)
    requires p in combined
    ensures |Filter(JoinCountries(combined, CountryRows(data), countryName), JoinedAt(p, name))| ==
            |CodesNamed(data, countryName, p, name)|
  {
    JoinedRowsNamed(data, combined, countryName, p, name);
    RowsNamedCodes(data, countryName, p, name);
    InjectiveImageSize(RowsNamed(data, countryName, p, name), CodeOf);
  }

  /** A joined row comes from a country row whose pair has counts, carrying those counts and the code's name. */
  lemma {:induction false} JoinMembership(
    combined: map<Pair, Counts>, rows: seq<CountryRow>, countryName: string -> Option<string>, j: JoinedRow)
    ensures j in JoinCountries(combined, rows, countryName) <==>
            exists row :: row in rows && row.pair in combined &&
                          j == JoinedRow(row.pair, combined[row.pair], ResolveCountry(countryName, row.code))
    decreases |rows|
  {
    if rows != [] {
      var init := rows[..|rows| - 1];
      JoinMembership(combined, init, countryName, j);
      assert rows == init + [rows[|rows| - 1]];
    }
  }

  // ---------------------------------------------------------------------------
  // Per-country sums.

  function AddCounts(a: Counts, b: Counts): Counts {
    Counts(a.successful + b.successful, a.failed + b.failed, a.total + b.total)
  }

  /** The column sums of a set of joined rows. */
  function SumCounts(rows: seq<JoinedRow>): Counts
    decreases |rows|
  {
    if rows == [] then Counts(0, 0, 0) else AddCounts(SumCounts(rows[..|rows| - 1]), rows[|rows| - 1].counts)
  }

  function InCountry(name: string): JoinedRow -> bool {
    (j: JoinedRow) => j.country == Some(name)
  }

  /** Appending a row extends the rows of its own country and no other. */
  lemma CountrySnoc(init: seq<JoinedRow>, last: JoinedRow, name: string)
    ensures Filter(init + [last], InCountry(name)) ==
            if last.country == Some(name) then Filter(init, InCountry(name)) + [last] else Filter(init, InCountry(name))
    ensures (exists j :: j in init + [last] && j.country == Some(name)) <==>
            (exists j :: j in init && j.country == Some(name)) || last.country == Some(name)
    ensures (exists j :: j in init && j.country == Some(name)) <==> Filter(init, InCountry(name)) != []
  {
    assert (init + [last])[..|init|] == init;
    FilterEmpty(init, InCountry(name));
    if last.country != Some(name) {
      forall j | j in init + [last] && j.country == Some(name)
        ensures j in init
      {
      }
    }
  }

  /**
   * `groupby('country').agg(sum)`: rows without a country name are
   * dropped; the other rows are added into the entry of their name.
   */
  function SumByCountry(joined: seq<JoinedRow>): map<string, Counts>
    decreases |joined|
  {
    if joined == [] then map[]
    else
      var summary := SumByCountry(joined[..|joined| - 1]);
      var last := joined[|joined| - 1];
      match last.country
      case None => summary
      case Some(name) =>
        summary[name := AddCounts(if name in summary then summary[name] else Counts(0, 0, 0), last.counts)]
  }

  /** Every name present has an entry, and the entry is the column sums of that name's rows. */
  lemma {:induction false} SumByCountryAt(joined: seq<JoinedRow>, name: string)
    ensures name in SumByCountry(joined) <==> exists j :: j in joined && j.country == Some(name)
    ensures name in SumByCountry(joined) ==> SumByCountry(joined)[name] == SumCounts(Filter(joined, InCountry(name)))
    decreases |joined|
  {
    if joined != [] {
      var init := joined[..|joined| - 1];
      var last := joined[|joined| - 1];
      SumByCountryAt(init, name);
      assert joined == init + [last];
      CountrySnoc(init, last, name);
    }
  }

  lemma SumByCountryMeaning(joined: seq<JoinedRow>)
    ensures forall name :: name in SumByCountry(joined) <==> exists j :: j in joined && j.country == Some(name)
    ensures forall name :: name in SumByCountry(joined) ==>
                           SumByCountry(joined)[name] == SumCounts(Filter(joined, InCountry(name)))
  {
    forall name
      ensures name in SumByCountry(joined) <==> exists j :: j in joined && j.country == Some(name)
      ensures name in SumByCountry(joined) ==>
              SumByCountry(joined)[name] == SumCounts(Filter(joined, InCountry(name)))
    {
      SumByCountryAt(joined, name);
    }
  }

  predicate Consistent(c: Counts) {
    c.total == c.successful + c.failed
  }

  /** Summing rows whose totals are consistent and positive gives a consistent total of at least their number. */
  lemma {:induction false} SumCountsConsistent(rows: seq<JoinedRow>)
    requires forall i :: 0 <= i < |rows| ==> Consistent(rows[i].counts) && rows[i].counts.total >= 1
    ensures Consistent(SumCounts(rows))
    ensures SumCounts(rows).total >= |rows|
    decreases |rows|
  {
    if rows != [] {
      SumCountsConsistent(rows[..|rows| - 1]);
    }
  }

  function CountrySummary(data: seq<Record>, countryName: string -> Option<string>): map<string, Counts> {
    SumByCountry(Joined(data, countryName))
  }

  /** A name has joined rows exactly when some record of a pair with counts has a code resolving to it. */
  lemma JoinedNameIff(data: seq<Record>, combined: map<Pair, Counts>, countryName: string -> Option<string>, name: string)
    ensures (exists j :: j in JoinCountries(combined, CountryRows(data), countryName) && j.country == Some(name)) <==>
            exists r :: r in data && PairOf(r) in combined && ResolveCountry(countryName, r.country) == Some(name)
  {
    var rows := CountryRows(data);
    var joined := JoinCountries(combined, rows, countryName);
    CountryRowsMeaning(data);
    if j :| j in joined && j.country == Some(name) {
      JoinMembership(combined, rows, countryName, j);
      var row :| row in rows && row.pair in combined &&
                 j == JoinedRow(row.pair, combined[row.pair], ResolveCountry(countryName, row.code));
      var r :| r in data && CountryRowOf(r) == row;
    }
    if r :| r in data && PairOf(r) in combined && ResolveCountry(countryName, r.country) == Some(name) {
      var row := CountryRowOf(r);
      var j := JoinedRow(row.pair, combined[row.pair], ResolveCountry(countryName, row.code));
      JoinMembership(combined, rows, countryName, j);
      assert j in joined;
    }
  }

  /** When every pair's counts are consistent and positive, so is every country's sum. */
  lemma CountryTotals(combined: map<Pair, Counts>, rows: seq<CountryRow>, countryName: string -> Option<string>, name: string)
    requires forall p :: p in combined ==> Consistent(combined[p]) && combined[p].total >= 1
    requires name in SumByCountry(JoinCountries(combined, rows, countryName))
    ensures Consistent(SumByCountry(JoinCountries(combined, rows, countryName))[name])
    ensures SumByCountry(JoinCountries(combined, rows, countryName))[name].total >= 1
  {
    var joined := JoinCountries(combined, rows, countryName);
    var selected := Filter(joined, InCountry(name));
    SumByCountryAt(joined, name);
    FilterEmpty(joined, InCountry(name));
    forall i | 0 <= i < |selected|
      ensures Consistent(selected[i].counts) && selected[i].counts.total >= 1
    {
      FilterMembership(joined, InCountry(name));
      assert selected[i] in joined;
    }
    SumCountsConsistent(selected);
  }

  lemma CountrySummaryNameAt(data: seq<Record>, countryName: string -> Option<string>, name: string)
    ensures name in CountrySummary(data, countryName) <==>
            exists r :: r in data && PairOf(r) in PairCounts(data) && ResolveCountry(countryName, r.country) == Some(name)
  {
    SumByCountryAt(Joined(data, countryName), name);
    JoinedNameIff(data, PairCounts(data), countryName, name);
  }

  lemma CountrySummaryTotalAt(data: seq<Record>, countryName: string -> Option<string>, name: string)
    requires name in CountrySummary(data, countryName)
    ensures Consistent(CountrySummary(data, countryName)[name])
    ensures CountrySummary(data, countryName)[name].total >= 1
  {
    PairCountsConsistent(data);
    CountryTotals(PairCounts(data), CountryRows(data), countryName, name);
  }

  /** No pair with counts is lost by the merge: each meets at least one country row. */
  lemma NoPairLost(data: seq<Record>, countryName: string -> Option<string>)
    ensures forall p :: p in PairCounts(data) ==> exists j :: j in Joined(data, countryName) && j.pair == p
  {
    var combined := PairCounts(data);
    EveryPairHasCountryRow(data);
    forall p | p in combined
      ensures exists j :: j in Joined(data, countryName) && j.pair == p
    {
      var row :| row in CountryRows(data) && row.pair == p;
      var j := JoinedRow(p, combined[p], ResolveCountry(countryName, row.code));
      JoinMembership(combined, CountryRows(data), countryName, j);
    }
  }

  /**
   * A country has a summary row exactly when some record's code resolves to
   * it and that record's pair has counts; each row's total is its successes
   * plus its failures, at least one. No pair with counts is lost by the
   * merge: each meets at least one country row.
   */
  lemma CountrySummaryMeaning(data: seq<Record>, countryName: string -> Option<string>)
    ensures forall name :: name in CountrySummary(data, countryName) <==>
                           exists r :: r in data && PairOf(r) in PairCounts(data) &&
                                       ResolveCountry(countryName, r.country) == Some(name)
    ensures forall name :: name in CountrySummary(data, countryName) ==>
                           Consistent(CountrySummary(data, countryName)[name]) &&
                           CountrySummary(data, countryName)[name].total >= 1
    ensures forall p :: p in PairCounts(data) ==> exists j :: j in Joined(data, countryName) && j.pair == p
  {
    forall name
      ensures name in CountrySummary(data, countryName) <==>
              exists r :: r in data && PairOf(r) in PairCounts(data) && ResolveCountry(countryName, r.country) == Some(name)
    {
      CountrySummaryNameAt(data, countryName, name);
    }
    forall name | name in CountrySummary(data, countryName)
      ensures Consistent(CountrySummary(data, countryName)[name]) && CountrySummary(data, countryName)[name].total >= 1
    {
      CountrySummaryTotalAt(data, countryName, name);
    }
    NoPairLost(data, countryName);
  }
}
