/**
 Cursor pagination over a timeline endpoint (`getMaxStatuses`). The API is a
 function from a request to a page; each accepted page is appended and the
 `max_id` cursor moves to the page's last id. The loop stops on an empty page
 or on a page whose last id equals the cursor. Since nothing bounds the loop
 for an arbitrary API, every run carries `fuel`, the number of requests it may
 make.
 */
module Pagination {
  import opened Wrappers
  import opened Tweets

  /** The parameters of one request beyond the fixed ones (`count`,
      `include_rts`, `tweet_mode`, the user or list). */
  datatype Request = Request(sinceId: Option<string>, maxId: Option<string>)

  /** The endpoint as seen by the loop. */
  type Api = Request -> seq<Status>

  /** A parameter is sent only when its value is truthy: present and not the
      empty string. */
  function Param(v: Option<string>): (p: Option<string>)
    ensures p.Some? <==> v.Some? && v.value != ""
    ensures p.Some? ==> p == v
  {
    if v.Some? && v.value != "" then v else None
  }

  /** The request for the watermark `latest` and the cursor `cursor`. */
  function RequestFor(latest: Option<string>, cursor: Option<string>): (r: Request)
    ensures r.sinceId.Some? <==> latest.Some? && latest.value != ""
    ensures r.maxId.Some? <==> cursor.Some? && cursor.value != ""
    ensures r.sinceId.Some? ==> r.sinceId == latest
    ensures r.maxId.Some? ==> r.maxId == cursor
  {
    Request(Param(latest), Param(cursor))
  }

  function LastId(page: seq<Status>): string
    requires |page| > 0
  {
    page[|page| - 1].id
  }

  /** The loop keeps a page when it is non-empty and does not end on the cursor. */
  predicate Accepted(page: seq<Status>, cursor: Option<string>) {
    |page| > 0 && cursor != Some(LastId(page))
  }

  /** The pages a run collects, the statuses they add up to, and whether it
      stopped by itself (`finished`) rather than by running out of fuel. */
  datatype Fetch = Fetch(pages: seq<seq<Status>>, statuses: seq<Status>, finished: bool)

  function Flatten(pages: seq<seq<Status>>): seq<Status> {
    if pages == [] then [] else pages[0] + Flatten(pages[1..])
  }

  /** The loop from cursor `cursor` on, with `fuel` requests left. */
  function Paginate(api: Api, latest: Option<string>, cursor: Option<string>, fuel: nat): Fetch
    decreases fuel
  {
    if fuel == 0 then Fetch([], [], false)
    else
      var page := api(RequestFor(latest, cursor));
      if Accepted(page, cursor) then
        var rest := Paginate(api, latest, Some(LastId(page)), fuel - 1);
        Fetch([page] + rest.pages, page + rest.statuses, rest.finished)
      else
        Fetch([], [], true)
  }

  /** The cursor in force when the `i`-th page is requested, starting from `start`. */
  function CursorAt(start: Option<string>, pages: seq<seq<Status>>, i: nat): Option<string>
    requires i <= |pages|
    requires i == 0 || |pages[i - 1]| > 0
  {
    if i == 0 then start else Some(LastId(pages[i - 1]))
  }

  /** `pages` are the answers the API gives to the requests of a run from
      `start`, each of them accepted. */
  ghost predicate Answers(api: Api, latest: Option<string>, start: Option<string>, pages: seq<seq<Status>>) {
    && (forall k :: 0 <= k < |pages| ==> |pages[k]| > 0)
    && (forall i :: 0 <= i < |pages| ==>
          pages[i] == api(RequestFor(latest, CursorAt(start, pages, i)))
          && Accepted(pages[i], CursorAt(start, pages, i)))
  }

  /** The answer to the request after `pages` is refused. */
  ghost predicate StopsAfter(api: Api, latest: Option<string>, start: Option<string>, pages: seq<seq<Status>>)
    requires pages == [] || |pages[|pages| - 1]| > 0
  {
    !Accepted(api(RequestFor(latest, CursorAt(start, pages, |pages|))), CursorAt(start, pages, |pages|))
  }

  /** Prepending one accepted page shifts the cursors by one. */
  lemma CursorAtCons(start: Option<string>, page: seq<Status>, pages: seq<seq<Status>>, i: nat)
    requires |page| > 0 && 0 < i <= |pages| + 1
    requires i == 1 || |pages[i - 2]| > 0
    ensures |([page] + pages)[i - 1]| > 0
    ensures CursorAt(start, [page] + pages, i) == CursorAt(Some(LastId(page)), pages, i - 1)
  {
    assert forall k :: 0 < k < |pages| + 1 ==> ([page] + pages)[k] == pages[k - 1];
  }

  /** What a run collects is the requests' answers, in order, each accepted,
      up to the first refused one. */
  lemma {:induction false} PaginateAnswers(api: Api, latest: Option<string>, start: Option<string>, fuel: nat)
    ensures Answers(api, latest, start, Paginate(api, latest, start, fuel).pages)
    decreases fuel
  {
    if fuel > 0 {
      var page := api(RequestFor(latest, start));
      if Accepted(page, start) {
        var next := Some(LastId(page));
        var rest := Paginate(api, latest, next, fuel - 1).pages;
        PaginateAnswers(api, latest, next, fuel - 1);
        var pages := [page] + rest;
        assert Paginate(api, latest, start, fuel).pages == pages;
        forall i | 0 <= i < |pages|
          ensures |pages[i]| > 0
          ensures pages[i] == api(RequestFor(latest, CursorAt(start, pages, i)))
          ensures Accepted(pages[i], CursorAt(start, pages, i))
        {
          if i > 0 {
            CursorAtCons(start, page, rest, i);
            assert pages[i] == rest[i - 1];
          }
        }
      }
    }
  }

  /** A run that finishes does so because the API's next answer is refused;
      one that does not has used up its fuel. */
  lemma {:induction false} PaginateStops(api: Api, latest: Option<string>, start: Option<string>, fuel: nat)
    ensures |Paginate(api, latest, start, fuel).pages| <= fuel
    ensures !Paginate(api, latest, start, fuel).finished ==> |Paginate(api, latest, start, fuel).pages| == fuel
    ensures Paginate(api, latest, start, fuel).pages == [] || |Paginate(api, latest, start, fuel).pages[|Paginate(api, latest, start, fuel).pages| - 1]| > 0
    ensures Paginate(api, latest, start, fuel).finished ==> StopsAfter(api, latest, start, Paginate(api, latest, start, fuel).pages)
    decreases fuel
  {
    if fuel > 0 {
      var page := api(RequestFor(latest, start));
      if Accepted(page, start) {
        var next := Some(LastId(page));
        var rest := Paginate(api, latest, next, fuel - 1).pages;
        PaginateStops(api, latest, next, fuel - 1);
        var pages := [page] + rest;
        assert Paginate(api, latest, start, fuel).pages == pages;
        if Paginate(api, latest, start, fuel).finished {
          CursorAtCons(start, page, rest, |pages|);
        }
      }
    }
  }

  /** A run from no cursor sends `max_id` on its first request never, and on
      a later one exactly when the previous page's last id is non-empty. */
  lemma MaxIdOnlyAfterFirstPage(latest: Option<string>, pages: seq<seq<Status>>, i: nat)
    requires i <= |pages| && (i == 0 || |pages[i - 1]| > 0)
    ensures RequestFor(latest, CursorAt(None, pages, i)).maxId.Some? <==> i > 0 && LastId(pages[i - 1]) != ""
  {
  }

  /** Fuel only bounds the run: once a run finishes by itself, more fuel
      yields the same pages. */
  lemma {:induction false} FuelBeyondFinishIsIrrelevant(api: Api, latest: Option<string>, cursor: Option<string>, fuel: nat, more: nat)
    requires Paginate(api, latest, cursor, fuel).finished
    requires fuel <= more
    ensures Paginate(api, latest, cursor, more) == Paginate(api, latest, cursor, fuel)
    decreases fuel
  {
    var page := api(RequestFor(latest, cursor));
    if Accepted(page, cursor) {
      FuelBeyondFinishIsIrrelevant(api, latest, Some(LastId(page)), fuel - 1, more - 1);
    }
  }

  lemma FlattenCons(page: seq<Status>, pages: seq<seq<Status>>)
    ensures Flatten([page] + pages) == page + Flatten(pages)
  {
    assert ([page] + pages)[1..] == pages;
  }

  /** The statuses of a run are its pages laid end to end. */
  lemma {:induction false} PaginateConcatenates(api: Api, latest: Option<string>, cursor: Option<string>, fuel: nat)
    ensures Paginate(api, latest, cursor, fuel).statuses == Flatten(Paginate(api, latest, cursor, fuel).pages)
    decreases fuel
  {
    if fuel > 0 {
      var page := api(RequestFor(latest, cursor));
      if Accepted(page, cursor) {
        var rest := Paginate(api, latest, Some(LastId(page)), fuel - 1);
        PaginateConcatenates(api, latest, Some(LastId(page)), fuel - 1);
        FlattenCons(page, rest.pages);
      }
    }
  }

  /** `getMaxStatuses`: requests pages while fuel lasts, appending each
      accepted one and moving `max_id` to its last id. The result is the
      concatenation of the pages of the run, and `finished` tells whether the
      loop stopped by itself. */
  method GetMaxStatuses(api: Api, latest: Option<string>, fuel: nat) returns (statuses: seq<Status>, finished: bool)
    ensures statuses == Paginate(api, latest, None, fuel).statuses
    ensures statuses == Flatten(Paginate(api, latest, None, fuel).pages)
    ensures finished == Paginate(api, latest, None, fuel).finished
  {
    PaginateConcatenates(api, latest, None, fuel);
    statuses := [];
    var maxId: Option<string> := None;
    var left := fuel;
    while left > 0
      invariant statuses + Paginate(api, latest, maxId, left).statuses == Paginate(api, latest, None, fuel).statuses
      invariant Paginate(api, latest, maxId, left).finished == Paginate(api, latest, None, fuel).finished
      decreases left
    {
      var results := api(RequestFor(latest, maxId));
      if |results| > 0 && maxId != Some(results[|results| - 1].id) {
        ghost var rest := Paginate(api, latest, Some(LastId(results)), left - 1);
        assert Paginate(api, latest, maxId, left) == Fetch([results] + rest.pages, results + rest.statuses, rest.finished);
        statuses := statuses + results;
        maxId := Some(results[|results| - 1].id);
        left := left - 1;
      } else {
        assert Paginate(api, latest, maxId, left) == Fetch([], [], true);
        return statuses, true;
      }
    }
    finished := false;
  }
}
