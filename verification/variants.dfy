/**
 Choice of the URL to download for a video or animated GIF: a left fold over
 the variants that starts from the first one and replaces the current pick
 only by an `video/mp4` variant of strictly higher bitrate.
 */
module Variants {
  import opened Tweets

  const Mp4: string := "video/mp4"

  /** The variants the fold can end on: the first one, and every mp4 variant. */
  predicate Candidate(vs: seq<Variant>, k: nat)
    requires k < |vs|
  {
    k == 0 || vs[k].contentType == Mp4
  }

  /** `best` is a candidate whose bitrate no candidate before `upto` exceeds
      and that every earlier candidate undercuts. */
  ghost predicate LeadsUpTo(vs: seq<Variant>, best: nat, upto: nat)
    requires best < |vs| && upto <= |vs|
  {
    && Candidate(vs, best)
    && (forall j :: 0 <= j < upto && Candidate(vs, j) ==> vs[j].bitrate <= vs[best].bitrate)
    && (forall j :: 0 <= j < best && Candidate(vs, j) ==> vs[j].bitrate < vs[best].bitrate)
  }

  /** The reduce step applied to the variants from `i` on, with `best` the
      variant chosen so far. */
  function Pick(vs: seq<Variant>, best: nat, i: nat): (r: nat)
    requires best < |vs| && best <= i <= |vs|
    requires LeadsUpTo(vs, best, i)
    ensures best <= r < |vs|
    ensures LeadsUpTo(vs, r, |vs|)
    decreases |vs| - i
  {
    if i == |vs| then best
    else if vs[i].contentType != Mp4 || vs[i].bitrate <= vs[best].bitrate then Pick(vs, best, i + 1)
    else Pick(vs, i, i + 1)
  }

  /** Index of the chosen variant: the earliest candidate of maximal bitrate. */
  function BestVariant(vs: seq<Variant>): (k: nat)
    requires |vs| > 0
    ensures k < |vs|
    ensures Candidate(vs, k)
    ensures forall j :: 0 <= j < |vs| && Candidate(vs, j) ==> vs[j].bitrate <= vs[k].bitrate
    ensures forall j :: 0 <= j < k && Candidate(vs, j) ==> vs[j].bitrate < vs[k].bitrate
  {
    Pick(vs, 0, 0)
  }

  /** The chosen URL is an mp4 variant's whenever some mp4 variant outbids
      the first. */
  lemma BestVariantUrl(vs: seq<Variant>)
    requires |vs| > 0
    ensures (exists j :: 0 <= j < |vs| && vs[j].contentType == Mp4 && vs[j].bitrate > vs[0].bitrate)
            ==> vs[BestVariant(vs)].contentType == Mp4
  {
    var k := BestVariant(vs);
    if exists j :: 0 <= j < |vs| && vs[j].contentType == Mp4 && vs[j].bitrate > vs[0].bitrate {
      var j :| 0 <= j < |vs| && vs[j].contentType == Mp4 && vs[j].bitrate > vs[0].bitrate;
      assert Candidate(vs, j) && Candidate(vs, 0);
    }
  }
}
