/**
 * Failure grouping, same-day suppression and the per-(user, partner)
 * success and failure counts of the report script.
 */
module Failures {
  import opened Wrappers
  import opened Tables
  import opened Orders

  /** A failure group: one (user, partner, day, error). */
  datatype FailureKey = FailureKey(user: string, partner: string, date: Date, error: string)

  /** A (user, partner, day) on which a success was recorded; the day may be missing. */
  datatype DayKey = DayKey(user: string, partner: string, date: Option<Date>)

  datatype Pair = Pair(user: string, partner: string)

  // ---------------------------------------------------------------------------
  // Failure groups.

  /**
   * The group key of a record; None when its date or its error is missing,
   * as `groupby` drops rows with a missing key.
   */
  function FailureKeyOf(r: Record): Option<FailureKey> {
    match (DateOf(r), r.error)
    case (Some(date), Some(error)) => Some(FailureKey(r.user, r.partner, date, error))
    case _ => None
  }

  /** `data[data['valid_failed']].groupby([user, partner, date, error]).size()`. */
  function FailureGroups(data: seq<Record>): map<FailureKey, nat> {
    GroupBySize(Filter(data, ValidFailed), FailureKeyOf)
  }

  /** A record counts towards group `k`. */
  function InFailureGroup(k: FailureKey): Record -> bool {
    r => ValidFailed(r) && DateOf(r) == Some(k.date) && r.user == k.user && r.partner == k.partner &&
         r.error == Some(k.error)
  }

  predicate FormsFailureGroup(r: Record) {
    ValidFailed(r) && DateOf(r).Some?
  }

  /** Group `k` exists exactly when some record counts towards it, and its size is their number. */
  lemma FailureGroupAt(data: seq<Record>, k: FailureKey)
    ensures k in FailureGroups(data) <==> exists r :: r in data && InFailureGroup(k)(r)
    ensures k in FailureGroups(data) ==> FailureGroups(data)[k] == |Filter(data, InFailureGroup(k))| >= 1
  {
    var valid := Filter(data, ValidFailed);
    var groups := GroupBySize(valid, FailureKeyOf);
    FilterMembership(data, ValidFailed);
    if k in groups {
      var r :| r in valid && FailureKeyOf(r) == Some(k);
      assert InFailureGroup(k)(r);
      FilterFilter(data, ValidFailed, HasKey(FailureKeyOf, k));
      FilterExtensional(data, Both(ValidFailed, HasKey(FailureKeyOf, k)), InFailureGroup(k));
    }
    if r :| r in data && InFailureGroup(k)(r) {
      assert r in valid && FailureKeyOf(r) == Some(k);
    }
  }

  /**
   * There is one group per distinct (user, partner, date, error) among the
   * valid failures with a date; each group's size is the number of those
   * records with its key, at least one; the sizes add up to the number of
   * valid failures with a date.
   */
  lemma FailureGroupsMeaning(data: seq<Record>)
    ensures forall k :: k in FailureGroups(data) <==> exists r :: r in data && InFailureGroup(k)(r)
    ensures forall k :: k in FailureGroups(data) ==>
                        FailureGroups(data)[k] == |Filter(data, InFailureGroup(k))| >= 1
    ensures SumValues(FailureGroups(data)) == |Filter(data, FormsFailureGroup)|
  {
    forall k
      ensures k in FailureGroups(data) <==> exists r :: r in data && InFailureGroup(k)(r)
      ensures k in FailureGroups(data) ==> FailureGroups(data)[k] == |Filter(data, InFailureGroup(k))| >= 1
    {
      FailureGroupAt(data, k);
    }
    FailureGroupsTotal(data);
  }

  lemma FailureGroupsTotal(data: seq<Record>)
    ensures SumValues(FailureGroups(data)) == |Filter(data, FormsFailureGroup)|
  {
    SumGroupBySize(Filter(data, ValidFailed), FailureKeyOf);
    FilterFilter(data, ValidFailed, HasSomeKey(FailureKeyOf));
    FilterExtensional(data, Both(ValidFailed, HasSomeKey(FailureKeyOf)), FormsFailureGroup);
  }

  // ---------------------------------------------------------------------------
  // Same-day suppression.

  function SuccessDays(data: seq<Record>): set<DayKey> {
    set r | r in data && IsSuccess(r) :: DayKey(r.user, r.partner, DateOf(r))
  }

  function DayOf(k: FailureKey): DayKey {
    DayKey(k.user, k.partner, Some(k.date))
  }

  /**
   * The left merge of the groups with the success days, keeping the rows
   * found only on the left and with a positive `error_count`.
   */
  function DropSameDayFailures(groups: map<FailureKey, nat>, successDays: set<DayKey>): map<FailureKey, nat> {
    map k | k in groups && DayOf(k) !in successDays && groups[k] > 0 :: groups[k]
  }

  function SurvivingFailures(data: seq<Record>): map<FailureKey, nat> {
    DropSameDayFailures(FailureGroups(data), SuccessDays(data))
  }

  ghost predicate SucceededOn(data: seq<Record>, user: string, partner: string, date: Date) {
    exists r :: r in data && IsSuccess(r) && r.user == user && r.partner == partner && DateOf(r) == Some(date)
  }

  /**
   * A failure group survives exactly when no success of the same user and
   * partner falls on its day; it keeps its size; and the `error_count > 0`
   * test removes nothing.
   */
  lemma SurvivingFailuresIff(data: seq<Record>)
    ensures forall k :: k in SurvivingFailures(data) <==>
                        k in FailureGroups(data) && !SucceededOn(data, k.user, k.partner, k.date)
    ensures forall k :: k in SurvivingFailures(data) ==> SurvivingFailures(data)[k] == FailureGroups(data)[k]
    ensures SurvivingFailures(data) ==
            map k | k in FailureGroups(data) && DayOf(k) !in SuccessDays(data) :: FailureGroups(data)[k]
  {
    var groups := FailureGroups(data);
    forall k | k in groups
      ensures DayOf(k) in SuccessDays(data) <==> SucceededOn(data, k.user, k.partner, k.date)
    {
      if SucceededOn(data, k.user, k.partner, k.date) {
        var r :| r in data && IsSuccess(r) && r.user == k.user && r.partner == k.partner && DateOf(r) == Some(k.date);
        assert DayKey(r.user, r.partner, DateOf(r)) == DayOf(k);
      }
    }
  }

  /**
   * A success whose error is not "bad scoring" forms a failure group of its
   * own, and its own success always suppresses that group.
   */
  lemma SuccessOwnGroupSuppressed(data: seq<Record>, r: Record)
    requires r in data && IsSuccess(r) && ValidFailed(r) && DateOf(r).Some?
    ensures FailureKeyOf(r).Some?
    ensures FailureKeyOf(r).value in FailureGroups(data)
    ensures FailureKeyOf(r).value !in SurvivingFailures(data)
  {
    FailureGroupsMeaning(data);
    SurvivingFailuresIff(data);
    var k := FailureKeyOf(r).value;
    assert InFailureGroup(k)(r);
    assert SucceededOn(data, k.user, k.partner, k.date);
  }

  // ---------------------------------------------------------------------------
  // Per-(user, partner) counts.

  function PairOf(r: Record): Pair {
    Pair(r.user, r.partner)
  }

  function SomePair(r: Record): Option<Pair> {
    Some(PairOf(r))
  }

  function PairOfKey(k: FailureKey): Pair {
    Pair(k.user, k.partner)
  }

  function IsSuccessOf(p: Pair): Record -> bool {
    r => IsSuccess(r) && PairOf(r) == p
  }

  /** `data[data['status'] == 'success'].groupby([user, partner]).size()`. */
  function SuccessCounts(data: seq<Record>): map<Pair, nat> {
    GroupBySize(Filter(data, IsSuccess), SomePair)
  }

  function GroupsOfPair(surviving: map<FailureKey, nat>, p: Pair): set<FailureKey> {
    set k | k in surviving && PairOfKey(k) == p
  }

  function GroupKey(k: FailureKey): FailureKey {
    k
  }

  /** The rows of `grouped_errors`: one per failure group, in order of first appearance. */
  function GroupedErrorRows(data: seq<Record>): seq<FailureKey> {
    DropDuplicates(PresentKeys(Filter(data, ValidFailed), FailureKeyOf), GroupKey)
  }

  /** The anti-join test of one group row: no success of its pair on its day. */
  function NoSuccessThatDay(successDays: set<DayKey>): FailureKey -> bool {
    k => DayOf(k) !in successDays
  }

  /** The rows of `failed_filtered`: the group rows left after the anti-join. */
  function FailedFilteredRows(data: seq<Record>): seq<FailureKey> {
    Filter(GroupedErrorRows(data), NoSuccessThatDay(SuccessDays(data)))
  }

  function SomePairOfKey(k: FailureKey): Option<Pair> {
    Some(PairOfKey(k))
  }

  /** `failed_filtered.groupby([user, partner]).size()`: rows of failed_filtered per pair. */
  function FailedCounts(data: seq<Record>): map<Pair, nat> {
    GroupBySize(FailedFilteredRows(data), SomePairOfKey)
  }

  /** The group rows are the failure groups, each once. */
  lemma GroupedErrorRowsMeaning(data: seq<Record>)
    ensures forall i, j :: 0 <= i < j < |GroupedErrorRows(data)| ==> GroupedErrorRows(data)[i] != GroupedErrorRows(data)[j]
    ensures forall k :: k in GroupedErrorRows(data) <==> k in FailureGroups(data)
  {
    var keys := PresentKeys(Filter(data, ValidFailed), FailureKeyOf);
    var rows := GroupedErrorRows(data);
    GroupBySizeFacts(Filter(data, ValidFailed), FailureKeyOf);
    assert KeysOf(rows, GroupKey) == KeysOf(keys, GroupKey);
    forall k
      ensures k in rows <==> k in keys
    {
      if k in rows {
        var i :| 0 <= i < |rows| && rows[i] == k;
        assert GroupKey(rows[i]) in KeysOf(rows, GroupKey);
      }
      if k in keys {
        var i :| 0 <= i < |keys| && keys[i] == k;
        assert GroupKey(keys[i]) in KeysOf(keys, GroupKey);
      }
    }
  }

  /** The rows of failed_filtered are the surviving groups, each once. */
  lemma FailedFilteredRowsMeaning(data: seq<Record>)
    ensures forall i, j :: 0 <= i < j < |FailedFilteredRows(data)| ==>
                           FailedFilteredRows(data)[i] != FailedFilteredRows(data)[j]
    ensures forall k :: k in FailedFilteredRows(data) <==> k in SurvivingFailures(data)
  {
    var rows := GroupedErrorRows(data);
    var groups := FailureGroups(data);
    GroupedErrorRowsMeaning(data);
    FilterDistinct(rows, NoSuccessThatDay(SuccessDays(data)));
    FilterMembership(rows, NoSuccessThatDay(SuccessDays(data)));
    assert forall k :: k in groups ==> groups[k] > 0;
  }

  /**
   * A pair has a failure count exactly when it has a surviving group, and
   * the count is its number of surviving groups, zero when it has none.
   */
  lemma FailedCountAt(data: seq<Record>, p: Pair)
    ensures p in FailedCounts(data) <==> exists k :: k in SurvivingFailures(data) && PairOfKey(k) == p
    ensures CountOrZero(FailedCounts(data), p) == |GroupsOfPair(SurvivingFailures(data), p)|
  {
    var rows := FailedFilteredRows(data);
    var surviving := SurvivingFailures(data);
    FailedFilteredRowsMeaning(data);
    FilterDistinctSize(rows, HasKey(SomePairOfKey, p));
    forall k
      ensures k in Selected(rows, HasKey(SomePairOfKey, p)) <==> k in GroupsOfPair(surviving, p)
    {
      assert HasKey(SomePairOfKey, p)(k) == (SomePairOfKey(k) == Some(p));
    }
    assert Selected(rows, HasKey(SomePairOfKey, p)) == GroupsOfPair(surviving, p);
    if k :| k in surviving && PairOfKey(k) == p {
      assert k in rows && SomePairOfKey(k) == Some(p);
    }
    if p in FailedCounts(data) {
      var k :| k in rows && SomePairOfKey(k) == Some(p);
      assert k in surviving && PairOfKey(k) == p;
    }
  }

  /**
   * The failure counts of all pairs add up to the number of surviving
   * groups: each group counts once, whatever its `error_count`.
   */
  lemma FailedCountsTotal(data: seq<Record>)
    ensures SumValues(FailedCounts(data)) == |SurvivingFailures(data)|
  {
    var rows := FailedFilteredRows(data);
    FailedFilteredRowsMeaning(data);
    SumGroupBySize(rows, SomePairOfKey);
    FilterDistinctSize(rows, HasSomeKey(SomePairOfKey));
    assert Selected(rows, HasSomeKey(SomePairOfKey)) == SurvivingFailures(data).Keys;
  }

  datatype Counts = Counts(successful: nat, failed: nat, total: nat)

  function CountOrZero(m: map<Pair, nat>, p: Pair): nat {
    if p in m then m[p] else 0
  }

  /** The outer merge on (user, partner), `fillna(0)` and `total_transactions`. */
  function MergeCounts(successes: map<Pair, nat>, failures: map<Pair, nat>): map<Pair, Counts> {
    map p | p in successes.Keys + failures.Keys ::
      Counts(CountOrZero(successes, p), CountOrZero(failures, p), CountOrZero(successes, p) + CountOrZero(failures, p))
  }

  function PairCounts(data: seq<Record>): map<Pair, Counts> {
    MergeCounts(SuccessCounts(data), FailedCounts(data))
  }

  /** Grouping the success records by pair and taking one group is selecting that pair's success records. */
  lemma SuccessGroupRows(data: seq<Record>, p: Pair)
    ensures Filter(Filter(data, IsSuccess), HasKey(SomePair, p)) == Filter(data, IsSuccessOf(p))
  {
    FilterFilter(data, IsSuccess, HasKey(SomePair, p));
    forall r
      ensures Both(IsSuccess, HasKey(SomePair, p))(r) == IsSuccessOf(p)(r)
    {
      assert HasKey(SomePair, p)(r) == (SomePair(r) == Some(p));
      assert Both(IsSuccess, HasKey(SomePair, p))(r) == (IsSuccess(r) && HasKey(SomePair, p)(r));
    }
    FilterExtensional(data, Both(IsSuccess, HasKey(SomePair, p)), IsSuccessOf(p));
  }

  lemma SuccessCountPresent(data: seq<Record>, p: Pair)
    ensures p in SuccessCounts(data) <==> exists r :: r in data && IsSuccess(r) && PairOf(r) == p
  {
    var successes := Filter(data, IsSuccess);
    FilterMembership(data, IsSuccess);
    if r :| r in data && IsSuccess(r) && PairOf(r) == p {
      assert r in successes && SomePair(r) == Some(p);
    }
    if p in SuccessCounts(data) {
      var r :| r in successes && SomePair(r) == Some(p);
      assert r in data && IsSuccess(r) && PairOf(r) == p;
    }
  }

  /** A pair has a success count exactly when it has a success record, and it is their number. */
  lemma SuccessCountAt(data: seq<Record>, p: Pair)
    ensures p in SuccessCounts(data) <==> exists r :: r in data && IsSuccess(r) && PairOf(r) == p
    ensures CountOrZero(SuccessCounts(data), p) == |Filter(data, IsSuccessOf(p))|
  {
    SuccessCountPresent(data, p);
    SuccessGroupRows(data, p);
    FilterEmpty(data, IsSuccessOf(p));
  }

  /**
   * A pair has a row exactly when it has a success or a surviving failure
   * group; `successful` counts its success records, `failed` its surviving
   * groups (not their sizes), a missing side is zero, and the total is their
   * sum, at least one.
   */
  lemma PairCountsMeaning(data: seq<Record>, p: Pair)
    ensures p in PairCounts(data) <==>
              (exists r :: r in data && IsSuccess(r) && PairOf(r) == p) ||
              (exists k :: k in SurvivingFailures(data) && PairOfKey(k) == p)
    ensures p in PairCounts(data) ==>
              && PairCounts(data)[p].successful == |Filter(data, IsSuccessOf(p))|
              && PairCounts(data)[p].failed == |GroupsOfPair(SurvivingFailures(data), p)|
              && PairCounts(data)[p].total == PairCounts(data)[p].successful + PairCounts(data)[p].failed
              && PairCounts(data)[p].total >= 1
  {
    SuccessCountAt(data, p);
    FailedCountAt(data, p);
  }

  /** Every pair row of the merged counts has `total = successful + failed >= 1`. */
  lemma PairCountsConsistent(data: seq<Record>)
    ensures forall p :: p in PairCounts(data) ==>
                        PairCounts(data)[p].total == PairCounts(data)[p].successful + PairCounts(data)[p].failed >= 1
  {
    forall p | p in PairCounts(data)
      ensures PairCounts(data)[p].total == PairCounts(data)[p].successful + PairCounts(data)[p].failed >= 1
    {
      PairCountsMeaning(data, p);
    }
  }
}
