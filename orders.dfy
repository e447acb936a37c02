/**
 * Order records as the report script sees them after loading, and the
 * record-level steps of the script: the provider selection, the
 * `valid_failed` flag, the deduplication key and the calendar date.
 */
module Orders {
  import opened Wrappers
  import opened Text
  import opened Tables

  datatype Date = Date(year: int, month: nat, day: nat)
  datatype Time = Time(hour: nat, minute: nat, second: nat, nanosecond: nat)

  /**
   * One attempted transaction. `createdAt` is None where the timestamp did
   * not parse (pandas' NaT); `error`, `country` and `provider` are None
   * where the file has no value.
   */
  datatype Record = Record(
    user: string,
    partner: string,
    createdAt: Option<(Date, Time)>,
    status: string,
    error: Option<string>,
    country: Option<string>,
    provider: Option<string>)

  const SuccessStatus: string := "success"
  const BadScoring: string := "bad scoring"
  const Worldpay: string := "worldpay"
  const Safecharge: string := "safecharge"

  predicate IsSuccess(r: Record) {
    r.status == SuccessStatus
  }

  // ---------------------------------------------------------------------------
  // Provider selection.

  /**
   * The `safecharge` branch applies `str.contains` to the provider column,
   * and a missing provider there makes the boolean mask invalid (pandas
   * raises), so that branch needs every provider present.
   */
  predicate ProviderSelectable(selector: Option<string>, records: seq<Record>) {
    selector == Some(Safecharge) ==> forall i :: 0 <= i < |records| ==> records[i].provider.Some?
  }

  predicate IsWorldpay(r: Record) {
    r.provider == Some(Worldpay)
  }

  predicate MentionsSafecharge(r: Record) {
    r.provider.Some? && ContainsIgnoringCase(r.provider.value, Safecharge)
  }

  /**
   * `worldpay` keeps the records whose provider equals it exactly;
   * `safecharge` keeps those whose provider contains it in any case; no
   * selector, or any other selector, keeps everything.
   */
  function SelectProvider(selector: Option<string>, records: seq<Record>): (selected: seq<Record>)
    requires ProviderSelectable(selector, records)
    ensures selector == Some(Worldpay) ==>
              forall r :: multiset(selected)[r] == if r.provider == Some(Worldpay) then multiset(records)[r] else 0
    ensures selector == Some(Safecharge) ==>
              forall r :: multiset(selected)[r] ==
                          if r.provider.Some? && ContainsIgnoringCase(r.provider.value, Safecharge)
                          then multiset(records)[r] else 0
    ensures selector != Some(Worldpay) && selector != Some(Safecharge) ==> selected == records
  {
    if selector == Some(Worldpay) then
      FilterCounts(records, IsWorldpay);
      Filter(records, IsWorldpay)
    else if selector == Some(Safecharge) then
      FilterCounts(records, MentionsSafecharge);
      Filter(records, MentionsSafecharge)
    else
      records
  }

  /** Whether the selector keeps a record, as the script's mask for it reads. */
  predicate Keeps(selector: Option<string>, r: Record) {
    if selector == Some(Worldpay) then IsWorldpay(r)
    else if selector == Some(Safecharge) then MentionsSafecharge(r)
    else true
  }

  /**
   * The selection is the subsequence of the records its mask keeps, in
   * input order: record `i` is picked exactly when the selector keeps it.
   */
  lemma SelectProviderOrder(selector: Option<string>, records: seq<Record>) returns (idx: seq<nat>)
    requires ProviderSelectable(selector, records)
    ensures PicksAt(SelectProvider(selector, records), records, idx)
    ensures forall i :: 0 <= i < |records| ==> (i in idx <==> Keeps(selector, records[i]))
  {
    if selector == Some(Worldpay) {
      idx := FilterPicks(records, IsWorldpay);
    } else if selector == Some(Safecharge) {
      idx := FilterPicks(records, MentionsSafecharge);
    } else {
      idx := seq(|records|, i => i);
      forall i | 0 <= i < |records|
        ensures i in idx
      {
        assert idx[i] == i;
      }
    }
  }

  // ---------------------------------------------------------------------------
  // The `valid_failed` flag.

  /**
   * `~error.str.contains("bad scoring", case=False, na=True)`: a missing
   * error reads as containing the phrase, so it is not a valid failure. The
   * status plays no part.
   */
  predicate ValidFailed(r: Record) {
    match r.error
    case None => false
    case Some(e) => !ContainsIgnoringCase(e, BadScoring)
  }

  /**
   * A record is not a valid failure exactly when its error is missing or
   * some stretch of it reads "bad scoring" in any case; its status does not
   * matter.
   */
  lemma ValidFailedIff(r: Record)
    ensures !ValidFailed(r) <==>
              r.error.None? || exists i :: MatchesIgnoringCaseAt(r.error.value, BadScoring, i)
    ensures forall status :: ValidFailed(r.(status := status)) == ValidFailed(r)
  {
    if r.error.Some? {
      ContainsIgnoringCaseAt(r.error.value, BadScoring);
    }
  }

  // ---------------------------------------------------------------------------
  // Deduplication key and calendar date.

  /** Duplicates are judged on user, partner, the exact timestamp and the error. */
  function OrderKey(r: Record): (string, string, Option<(Date, Time)>, Option<string>) {
    (r.user, r.partner, r.createdAt, r.error)
  }

  /** `created_at.dt.date`: the day of the timestamp; None stays None. */
  function DateOf(r: Record): Option<Date> {
    match r.createdAt
    case None => None
    case Some(stamp) => Some(stamp.0)
  }

  /** The first record of every (user, partner, timestamp, error), in input order. */
  function DropDuplicateOrders(records: seq<Record>): seq<Record> {
    DropDuplicates(records, OrderKey)
  }
}
