/**
 A concrete endpoint for the pagination loop: a timeline of statuses, newest
 first, already cut at the watermark (`since_id`), that answers a request
 with up to `count` statuses starting at the one whose id is `max_id`
 (inclusive, as the timeline endpoints behave), or from the newest when no
 `max_id` is sent. Against such an endpoint the loop finishes exactly when it
 may make `2 + (|t| - 2) / (count - 1)` requests (one for an empty timeline, two for one status),
 and then returns every status of the timeline; the status at each page
 boundary comes back twice.
 */
module Timeline {
  import opened Wrappers
  import opened Tweets
  import opened Pagination

  function Min(a: int, b: int): int {
    if a <= b then a else b
  }

  /** Position of the status with id `id`, or -1. */
  function IndexOf(t: seq<Status>, id: string): (k: int)
    ensures -1 <= k < |t|
    ensures k >= 0 ==> t[k].id == id
    ensures k < 0 ==> forall j :: 0 <= j < |t| ==> t[j].id != id
  {
    if t == [] then -1
    else if t[0].id == id then 0
    else var k := IndexOf(t[1..], id); if k < 0 then -1 else k + 1
  }

  /** The statuses at positions `i` and `j` have different ids. */
  predicate DistinctAt(t: seq<Status>, i: nat, j: nat)
    requires i < |t| && j < |t|
  {
    t[i].id != t[j].id
  }

  /** Ids are unique and never empty. */
  ghost predicate WellFormed(t: seq<Status>) {
    && (forall i, j :: 0 <= i < j < |t| ==> DistinctAt(t, i, j))
    && (forall i :: 0 <= i < |t| ==> t[i].id != "")
  }

  function Page(t: seq<Status>, count: nat, req: Request): seq<Status> {
    if req.maxId.None? then t[..Min(count, |t|)]
    else
      var k := IndexOf(t, req.maxId.value);
      if k < 0 then [] else t[k..Min(k + count, |t|)]
  }

  function TimelineApi(t: seq<Status>, count: nat): Api {
    (req: Request) => Page(t, count, req)
  }

  /** The position of the first status with a given id. */
  lemma {:induction false} IndexOfFirst(t: seq<Status>, id: string, k: nat)
    requires k < |t| && t[k].id == id
    requires forall j :: 0 <= j < k ==> t[j].id != id
    ensures IndexOf(t, id) == k
    decreases k
  {
    if k > 0 {
      assert t[0].id != id;
      assert forall j :: 0 <= j < k - 1 ==> t[1..][j] == t[j + 1];
      IndexOfFirst(t[1..], id, k - 1);
    }
  }

  lemma IndexOfWellFormed(t: seq<Status>, k: nat)
    requires WellFormed(t) && k < |t|
    ensures IndexOf(t, t[k].id) == k
  {
    forall j | 0 <= j < k
      ensures t[j].id != t[k].id
    {
      assert DistinctAt(t, j, k);
    }
    IndexOfFirst(t, t[k].id, k);
  }

  /** The cursor pointing at the `k`-th status. */
  function CursorOf(t: seq<Status>, k: nat): Option<string>
    requires k < |t|
  {
    Some(t[k].id)
  }

  /** `api` answers a cursor at the `k`-th status with the statuses from it
      (inclusive), `count` at most. */
  ghost predicate ServesAt(api: Api, t: seq<Status>, count: nat, latest: Option<string>, k: nat)
    requires k < |t|
  {
    api(RequestFor(latest, CursorOf(t, k))) == t[k..Min(k + count, |t|)]
  }

  /** `api` answers like the timeline `t`: from the newest status without a
      cursor, from the cursor's status (inclusive) with one, `count` at most. */
  ghost predicate Serves(api: Api, t: seq<Status>, count: nat, latest: Option<string>) {
    && api(RequestFor(latest, None)) == t[..Min(count, |t|)]
    && forall k :: 0 <= k < |t| ==> ServesAt(api, t, count, latest, k)
  }

  lemma TimelineApiServes(t: seq<Status>, count: nat, latest: Option<string>)
    requires WellFormed(t)
    ensures Serves(TimelineApi(t, count), t, count, latest)
  {
    forall k | 0 <= k < |t|
      ensures ServesAt(TimelineApi(t, count), t, count, latest, k)
    {
      IndexOfWellFormed(t, k);
    }
  }

  lemma SliceMembers(t: seq<Status>, i: nat, j: nat)
    requires i <= j <= |t|
    ensures forall s :: s in t[i..j] ==> s in t
  {
    forall s | s in t[i..j]
      ensures s in t
    {
      var p :| 0 <= p < j - i && t[i..j][p] == s;
      assert t[i + p] == s;
    }
  }

  /** The last status ends the run: its page ends on the cursor. */
  lemma LastStepServed(api: Api, t: seq<Status>, count: nat, latest: Option<string>, fuel: nat)
    requires count >= 2 && Serves(api, t, count, latest)
    requires |t| > 0 && fuel > 0
    ensures Paginate(api, latest, CursorOf(t, |t| - 1), fuel) == Fetch([], [], true)
  {
    var k := |t| - 1;
    var page := api(RequestFor(latest, CursorOf(t, k)));
    assert ServesAt(api, t, count, latest, k);
    assert page == t[k..|t|];
    assert page[|page| - 1] == t[k];
  }

  /** One step of the loop from the cursor at position `k` before the last:
      it collects the page from `k` and moves the cursor to the end of that
      page. */
  lemma StepServed(api: Api, t: seq<Status>, count: nat, latest: Option<string>, k: nat, fuel: nat)
    requires WellFormed(t) && count >= 2 && Serves(api, t, count, latest)
    requires k < |t| - 1 && fuel > 0
    ensures var next := Paginate(api, latest, CursorOf(t, Min(k + count, |t|) - 1), fuel - 1);
            && Paginate(api, latest, CursorOf(t, k), fuel).statuses == t[k..Min(k + count, |t|)] + next.statuses
            && Paginate(api, latest, CursorOf(t, k), fuel).finished == next.finished
  {
    var m := Min(k + count, |t|);
    var page := api(RequestFor(latest, CursorOf(t, k)));
    assert ServesAt(api, t, count, latest, k);
    assert page == t[k..m];
    assert page[|page| - 1] == t[m - 1];
    assert DistinctAt(t, k, m - 1);
  }

  /** The first step of the loop: an empty timeline ends the run, any other
      collects the first page and moves the cursor to its end. */
  lemma FirstStepServed(api: Api, t: seq<Status>, count: nat, latest: Option<string>, fuel: nat)
    requires WellFormed(t) && count >= 2 && Serves(api, t, count, latest)
    requires fuel > 0
    ensures t == [] ==> Paginate(api, latest, None, fuel) == Fetch([], [], true)
    ensures t != [] ==>
              var next := Paginate(api, latest, CursorOf(t, Min(count, |t|) - 1), fuel - 1);
              && Paginate(api, latest, None, fuel).statuses == t[..Min(count, |t|)] + next.statuses
              && Paginate(api, latest, None, fuel).finished == next.finished
  {
    var m := Min(count, |t|);
    var page := api(RequestFor(latest, None));
    assert page == t[..m];
    if t != [] {
      assert page[|page| - 1] == t[m - 1];
    }
  }

  /** What the loop collects from the cursor at position `k` on: the page
      starting there, then the pages from the position it ends at, until the
      cursor reaches the oldest status. */
  function Windows(t: seq<Status>, count: nat, k: nat): seq<Status>
    requires count >= 2 && k < |t|
    decreases |t| - k
  {
    if k == |t| - 1 then []
    else
      var m := Min(k + count, |t|);
      t[k..m] + Windows(t, count, m - 1)
  }

  /** What the loop collects from the start: the first page, then the
      windows from its last status on. */
  function Collected(t: seq<Status>, count: nat): seq<Status>
    requires count >= 2
  {
    if t == [] then []
    else
      var m := Min(count, |t|);
      t[..m] + Windows(t, count, m - 1)
  }

  /** The requests a run makes from the cursor at position `k` of a timeline
      of `n` statuses: one per page, the last being the page that holds only
      the oldest status and ends on its cursor. */
  function RequestsFrom(n: nat, count: nat, k: nat): (r: nat)
    requires count >= 2 && k < n
    ensures 1 <= r <= n - k
    decreases n - k
  {
    if k == n - 1 then 1 else 1 + RequestsFrom(n, count, Min(k + count, n) - 1)
  }

  /** The requests a whole run makes against a timeline of `n` statuses. */
  function Requests(n: nat, count: nat): (r: nat)
    requires count >= 2
    ensures 1 <= r <= n + 1
  {
    if n == 0 then 1 else 1 + RequestsFrom(n, count, Min(count, n) - 1)
  }

  lemma DivPlusOne(x: nat, d: nat)
    requires d >= 1
    ensures (x + d) / d == x / d + 1
  {
    var q, r := x / d, x % d;
    assert x == d * q + r;
    assert x + d == d * (q + 1) + r;
    DivUnique(x + d, d, q + 1, r);
  }

  lemma MulAwayFromZero(d: nat, e: int)
    requires d >= 1
    ensures e >= 1 ==> d * e >= d
    ensures e <= -1 ==> d * e + d <= 0
  {
  }

  /** Euclidean division has one quotient and remainder. */
  lemma DivUnique(x: nat, d: nat, q: int, r: int)
    requires d >= 1 && 0 <= r < d && x == d * q + r
    ensures x / d == q
  {
    var q', r' := x / d, x % d;
    assert x == d * q' + r';
    assert d * (q - q') == r' - r;
    MulAwayFromZero(d, q - q');
  }

  /** Each request after the first advances the cursor by `count - 1`
      statuses, so from position `k` the run makes one request plus one per
      `count - 1` statuses left, rounded up. */
  lemma {:induction false} RequestsFromClosedForm(n: nat, count: nat, k: nat)
    requires count >= 2 && k < n
    ensures RequestsFrom(n, count, k) == 1 + (n - 1 - k + count - 2) / (count - 1)
    decreases n - k
  {
    var d := count - 1;
    if k == n - 1 {
      DivUnique(d - 1, d, 0, d - 1);
    } else {
      var x := n - 1 - k;
      var next := Min(k + count, n) - 1;
      DivPlusOne(x - 1, d);
      assert (x + d - 1) / d == (x - 1) / d + 1;
      RequestsFromClosedForm(n, count, next);
      if k + count >= n {
        DivUnique(x - 1, d, 0, x - 1);
        assert RequestsFrom(n, count, next) == 1;
      } else {
        assert n - 1 - next + d - 1 == x - 1;
      }
    }
  }

  /** The requests of a whole run in closed form: two for a timeline of at
      most one page, and one more per further `count - 1` statuses. This is
      more than `ceil(n / count) + 1` in general, because consecutive pages
      share their boundary status. */
  lemma RequestsClosedForm(n: nat, count: nat)
    requires count >= 2
    ensures Requests(n, count) == if n <= 1 then n + 1 else 2 + (n - 2) / (count - 1)
  {
    if n >= 1 {
      var k := Min(count, n) - 1;
      RequestsFromClosedForm(n, count, k);
      if n >= 2 && n <= count {
        DivUnique(count - 2, count - 1, 0, count - 2);
        DivUnique(n - 2, count - 1, 0, n - 2);
      } else if n == 1 {
        DivUnique(count - 2, count - 1, 0, count - 2);
      }
    }
  }

  /** From the cursor at position `k`, a run with fuel for the requests it
      needs finishes by itself. */
  lemma {:induction false} RunsToEnd(api: Api, t: seq<Status>, count: nat, latest: Option<string>, k: nat, fuel: nat)
    requires WellFormed(t) && count >= 2 && Serves(api, t, count, latest)
    requires k < |t| && fuel >= RequestsFrom(|t|, count, k)
    ensures Paginate(api, latest, CursorOf(t, k), fuel).finished
    decreases |t| - k
  {
    if k == |t| - 1 {
      LastStepServed(api, t, count, latest, fuel);
    } else {
      StepServed(api, t, count, latest, k, fuel);
      RunsToEnd(api, t, count, latest, Min(k + count, |t|) - 1, fuel - 1);
    }
  }

  /** From the cursor at position `k`, a run with less fuel than the
      requests it needs runs out before it stops. */
  lemma {:induction false} RunsShort(api: Api, t: seq<Status>, count: nat, latest: Option<string>, k: nat, fuel: nat)
    requires WellFormed(t) && count >= 2 && Serves(api, t, count, latest)
    requires k < |t| && fuel < RequestsFrom(|t|, count, k)
    ensures !Paginate(api, latest, CursorOf(t, k), fuel).finished
    decreases |t| - k
  {
    if fuel > 0 {
      StepServed(api, t, count, latest, k, fuel);
      RunsShort(api, t, count, latest, Min(k + count, |t|) - 1, fuel - 1);
    }
  }

  /** From the cursor at position `k`, a run with fuel for the requests it
      needs collects the windows from `k`. */
  lemma {:induction false} RunsWindows(api: Api, t: seq<Status>, count: nat, latest: Option<string>, k: nat, fuel: nat)
    requires WellFormed(t) && count >= 2 && Serves(api, t, count, latest)
    requires k < |t| && fuel >= RequestsFrom(|t|, count, k)
    ensures Paginate(api, latest, CursorOf(t, k), fuel).statuses == Windows(t, count, k)
    decreases |t| - k
  {
    if k == |t| - 1 {
      LastStepServed(api, t, count, latest, fuel);
    } else {
      StepServed(api, t, count, latest, k, fuel);
      var m := Min(k + count, |t|);
      var rest := Paginate(api, latest, CursorOf(t, m - 1), fuel - 1);
      assert Paginate(api, latest, CursorOf(t, k), fuel).statuses == t[k..m] + rest.statuses;
      assert fuel - 1 >= RequestsFrom(|t|, count, m - 1);
      RunsWindows(api, t, count, latest, m - 1, fuel - 1);
      assert rest.statuses == Windows(t, count, m - 1);
      assert Windows(t, count, k) == t[k..m] + Windows(t, count, m - 1);
    }
  }

  lemma {:induction false} WindowsSound(t: seq<Status>, count: nat, k: nat)
    requires count >= 2 && k < |t|
    ensures forall s :: s in Windows(t, count, k) ==> s in t
    decreases |t| - k
  {
    if k < |t| - 1 {
      var m := Min(k + count, |t|);
      assert Windows(t, count, k) == t[k..m] + Windows(t, count, m - 1);
      WindowsSound(t, count, m - 1);
      SliceMembers(t, k, m);
    }
  }

  lemma {:induction false} WindowsCover(t: seq<Status>, count: nat, k: nat)
    requires count >= 2 && k < |t|
    ensures forall j :: k < j < |t| ==> t[j] in Windows(t, count, k)
    decreases |t| - k
  {
    if k < |t| - 1 {
      var m := Min(k + count, |t|);
      assert Windows(t, count, k) == t[k..m] + Windows(t, count, m - 1);
      WindowsCover(t, count, m - 1);
      forall j | k < j < |t|
        ensures t[j] in Windows(t, count, k)
      {
        if j < m {
          assert t[j] == t[k..m][j - k];
        } else {
          assert t[j] in Windows(t, count, m - 1);
        }
      }
    }
  }

  /** The statuses the loop collects from the start are exactly the
      timeline's. */
  lemma CollectedIsTimeline(t: seq<Status>, count: nat)
    requires count >= 2
    ensures forall s :: s in Collected(t, count) <==> s in t
  {
    if t != [] {
      var m := Min(count, |t|);
      WindowsSound(t, count, m - 1);
      WindowsCover(t, count, m - 1);
      SliceMembers(t, 0, m);
      forall s | s in t
        ensures s in Collected(t, count)
      {
        var j :| 0 <= j < |t| && t[j] == s;
        if j < m { assert s == t[..m][j]; } else { assert t[j] in Windows(t, count, m - 1); }
      }
    }
  }

  /** With a page size of at least two, a run against an endpoint serving
      the timeline finishes by itself exactly when it may make the requests
      it needs. */
  lemma ServedFinishes(api: Api, t: seq<Status>, count: nat, latest: Option<string>, fuel: nat)
    requires WellFormed(t) && count >= 2 && Serves(api, t, count, latest)
    ensures Paginate(api, latest, None, fuel).finished <==> fuel >= Requests(|t|, count)
  {
    if fuel > 0 {
      FirstStepServed(api, t, count, latest, fuel);
      if |t| > 0 {
        if fuel >= Requests(|t|, count) {
          RunsToEnd(api, t, count, latest, Min(count, |t|) - 1, fuel - 1);
        } else {
          RunsShort(api, t, count, latest, Min(count, |t|) - 1, fuel - 1);
        }
      }
    }
  }

  /** Such a run collects the first page and the windows after it. */
  lemma ServedCollects(api: Api, t: seq<Status>, count: nat, latest: Option<string>, fuel: nat)
    requires WellFormed(t) && count >= 2 && Serves(api, t, count, latest)
    requires fuel >= Requests(|t|, count)
    ensures Paginate(api, latest, None, fuel).statuses == Collected(t, count)
  {
    FirstStepServed(api, t, count, latest, fuel);
    if |t| > 0 {
      var m := Min(count, |t|);
      var rest := Paginate(api, latest, CursorOf(t, m - 1), fuel - 1);
      assert Paginate(api, latest, None, fuel).statuses == t[..m] + rest.statuses;
      assert fuel - 1 >= RequestsFrom(|t|, count, m - 1);
      RunsWindows(api, t, count, latest, m - 1, fuel - 1);
      assert rest.statuses == Windows(t, count, m - 1);
      assert Collected(t, count) == t[..m] + Windows(t, count, m - 1);
    }
  }

  /** Against the timeline endpoint with a page size of at least two, a run
      that may make the requests it needs finishes by itself and collects
      exactly the timeline's statuses. */
  lemma TimelineComplete(t: seq<Status>, count: nat, latest: Option<string>, fuel: nat)
    requires WellFormed(t) && count >= 2
    requires fuel >= Requests(|t|, count)
    ensures Paginate(TimelineApi(t, count), latest, None, fuel).finished
    ensures forall s :: s in Paginate(TimelineApi(t, count), latest, None, fuel).statuses <==> s in t
  {
    TimelineApiServes(t, count, latest);
    ServedFinishes(TimelineApi(t, count), t, count, latest, fuel);
    ServedCollects(TimelineApi(t, count), t, count, latest, fuel);
    CollectedIsTimeline(t, count);
  }

  /** Pages overlap: when the timeline is longer than one page, the status
      ending the first page is collected twice. */
  lemma BoundaryCollectedTwice(t: seq<Status>, count: nat, latest: Option<string>, fuel: nat)
    requires WellFormed(t) && count >= 2
    requires |t| > count && fuel >= Requests(|t|, count)
    ensures multiset(Paginate(TimelineApi(t, count), latest, None, fuel).statuses)[t[count - 1]] >= 2
  {
    TimelineApiServes(t, count, latest);
    ServedCollects(TimelineApi(t, count), t, count, latest, fuel);
    BoundaryInCollected(t, count);
  }

  lemma BoundaryInCollected(t: seq<Status>, count: nat)
    requires count >= 2 && |t| > count
    ensures multiset(Collected(t, count))[t[count - 1]] >= 2
  {
    var m := Min(count - 1 + count, |t|);
    var first := t[..count];
    var second := t[count - 1..m];
    assert Windows(t, count, count - 1) == second + Windows(t, count, m - 1);
    assert Collected(t, count) == first + (second + Windows(t, count, m - 1));
    assert first[count - 1] == t[count - 1] && second[0] == t[count - 1];
    assert multiset(first)[t[count - 1]] >= 1;
    assert multiset(second)[t[count - 1]] >= 1;
  }

  /** Six hundred statuses in pages of two hundred take five requests, not
      `ceil(600 / 200) + 1 == 4`: a run with four stops short. */
  lemma SixHundredInPagesOfTwoHundred(t: seq<Status>, latest: Option<string>)
    requires WellFormed(t) && |t| == 600
    ensures !Paginate(TimelineApi(t, 200), latest, None, 4).finished
    ensures Paginate(TimelineApi(t, 200), latest, None, 5).finished
  {
    RequestsClosedForm(600, 200);
    assert Requests(600, 200) == 5;
    TimelineApiServes(t, 200, latest);
    ServedFinishes(TimelineApi(t, 200), t, 200, latest, 4);
    ServedFinishes(TimelineApi(t, 200), t, 200, latest, 5);
  }
}
