/**
 The new watermark (`latestTweetId`) of a batch: the id of the canonical tweet
 with the latest date, scanning the batch in order and replacing the current
 pick only on a strictly later date.
 */
module Watermark {
  import opened Wrappers
  import opened Tweets

  /** The instant of the canonical tweet of the `k`-th status. */
  function DateOf(statuses: seq<Status>, k: nat): int
    requires k < |statuses|
  {
    Canonical(statuses[k]).createdAt.instant
  }

  /** `k` is the first status whose canonical date is maximal among the
      statuses before `upto`. */
  ghost predicate IsLatest(statuses: seq<Status>, k: nat, upto: nat)
    requires upto <= |statuses|
  {
    && k < upto
    && (forall j :: 0 <= j < upto ==> DateOf(statuses, j) <= DateOf(statuses, k))
    && (forall j :: 0 <= j < k ==> DateOf(statuses, j) < DateOf(statuses, k))
  }

  /** The `forEach` of the save step from status `i` on, as far as the
      watermark goes; `best` is the status holding the current pick. */
  function Scan(statuses: seq<Status>, i: nat, best: Option<nat>): (r: Option<nat>)
    requires i <= |statuses|
    requires best.None? <==> i == 0
    requires best.Some? ==> IsLatest(statuses, best.value, i)
    ensures r.None? <==> |statuses| == 0
    ensures r.Some? ==> IsLatest(statuses, r.value, |statuses|)
    decreases |statuses| - i
  {
    if i == |statuses| then best
    else if best.None? || DateOf(statuses, i) > DateOf(statuses, best.value) then Scan(statuses, i + 1, Some(i))
    else Scan(statuses, i + 1, best)
  }

  /** The status that sets the watermark: none for an empty batch, otherwise
      the earliest status whose canonical tweet has the latest date. Whether
      the tweet has media plays no part. */
  function LatestIndex(statuses: seq<Status>): (r: Option<nat>)
    ensures r.None? <==> |statuses| == 0
    ensures r.Some? ==> r.value < |statuses|
    ensures r.Some? ==> forall j :: 0 <= j < |statuses| ==> DateOf(statuses, j) <= DateOf(statuses, r.value)
    ensures r.Some? ==> forall j :: 0 <= j < r.value ==> DateOf(statuses, j) < DateOf(statuses, r.value)
  {
    Scan(statuses, 0, None)
  }

  /** The value `saveStatuses` returns as `latestTweetId`. */
  function LatestTweetId(statuses: seq<Status>): (r: Option<string>)
    ensures r.None? <==> |statuses| == 0
    ensures r.Some? ==> exists k :: 0 <= k < |statuses| && r.value == Canonical(statuses[k]).id
                                   && IsLatest(statuses, k, |statuses|)
  {
    match LatestIndex(statuses)
    case None => None
    case Some(k) => Some(Canonical(statuses[k]).id)
  }

  /** Two batches whose canonical tweets agree on date, position by
      position, pick the same position. */
  lemma {:induction false} ScanDependsOnDatesOnly(a: seq<Status>, b: seq<Status>, i: nat, best: Option<nat>)
    requires |a| == |b| && i <= |a|
    requires forall k :: 0 <= k < |a| ==> DateOf(a, k) == DateOf(b, k)
    requires best.None? <==> i == 0
    requires best.Some? ==> IsLatest(a, best.value, i) && IsLatest(b, best.value, i)
    ensures Scan(a, i, best) == Scan(b, i, best)
    decreases |a| - i
  {
    if i < |a| {
      if best.None? || DateOf(a, i) > DateOf(a, best.value) {
        ScanDependsOnDatesOnly(a, b, i + 1, Some(i));
      } else {
        ScanDependsOnDatesOnly(a, b, i + 1, best);
      }
    }
  }

  /** Two batches whose canonical tweets agree on id and date, position by
      position, get the same watermark: media, authors and the wrapping
      statuses do not enter into it. */
  lemma WatermarkIgnoresMedia(a: seq<Status>, b: seq<Status>)
    requires |a| == |b|
    requires forall k :: 0 <= k < |a| ==> Canonical(a[k]).createdAt.instant == Canonical(b[k]).createdAt.instant
    requires forall k :: 0 <= k < |a| ==> Canonical(a[k]).id == Canonical(b[k]).id
    ensures LatestTweetId(a) == LatestTweetId(b)
  {
    ScanDependsOnDatesOnly(a, b, 0, None);
  }
}
