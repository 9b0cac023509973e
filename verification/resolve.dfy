/**
 Per-attachment decisions of `saveStatuses`: the options with their defaults,
 the media-type filter, the file name, the extension and download URL, and
 the target directory. None of it depends on the filesystem.
 */
module Resolve {
  import opened Wrappers
  import opened Tweets
  import opened Paths
  import opened Decimal
  import Variants

  /** `options.mediaTypes`; an absent entry means enabled. */
  datatype MediaTypes = MediaTypes(photo: Option<bool>, video: Option<bool>, animatedGif: Option<bool>)

  /** The per-source options `saveStatuses` reads. `output` and `retweets`
      are `options.paths.output` and `options.paths.retweets`. */
  datatype Options = Options(
    output: Option<string>,
    retweets: Option<string>,
    mediaTypes: MediaTypes,
    dryRun: bool,
    logRetweets: bool)

  /** The options with both directories resolved. */
  datatype Config = Config(baseDir: string, retweetDir: string, options: Options)

  /** The base directory is the configured output path, else `./out/{folderName}/`;
      the retweet directory is the configured one, else `retweets` inside the
      base directory. */
  function Configure(folderName: string, options: Options): (c: Config)
    ensures c.options == options
    ensures options.output.Some? ==> c.baseDir == options.output.value
    ensures options.output.None? ==> c.baseDir == "./out/" + folderName + "/"
    ensures options.retweets.Some? ==> c.retweetDir == options.retweets.value
    ensures options.retweets.None? ==> c.retweetDir == Join(c.baseDir, "retweets")
    ensures options.retweets.None? ==> c.baseDir < c.retweetDir && |c.retweetDir| >= 8 && c.retweetDir[|c.retweetDir| - 8..] == "retweets"
  {
    var baseDir := options.output.GetOr("./out/" + folderName + "/");
    assert |"retweets"| == 8;
    var retweetDir := options.retweets.GetOr(Join(baseDir, "retweets"));
    Config(baseDir, retweetDir, options)
  }

  /** `allowedMediaTypes[media.type]`: each known type defaults to enabled;
      any other type is never downloaded. */
  predicate Allowed(types: MediaTypes, kind: MediaType) {
    match kind
    case Photo => types.photo.GetOr(true)
    case Video => types.video.GetOr(true)
    case AnimatedGif => types.animatedGif.GetOr(true)
    case Unknown(_) => false
  }

  /** Without a `mediaTypes` option every known type is downloaded. */
  lemma AllTypesByDefault(kind: MediaType)
    ensures Allowed(MediaTypes(None, None, None), kind) <==> !kind.Unknown?
  {
  }

  /** `{screen_name}_{isoDate}_{id}_{index + 1}` of the canonical tweet: it
      starts with the author's screen name and ends with the 1-based media
      index in decimal, right after an underscore. */
  function FileBase(tweet: Status, index: nat): (b: string)
    ensures |tweet.author| <= |b| && b[..|tweet.author|] == tweet.author
    ensures var n := NatToString(index + 1);
            |n| < |b| && b[|b| - |n|..] == n && b[|b| - |n| - 1] == '_'
  {
    tweet.author + "_" + tweet.createdAt.isoDate + "_" + tweet.id + "_" + NatToString(index + 1)
  }

  /** In `p + d + s`, with `d` all digits and `s` empty or starting with a
      non-digit, the digit run after `p` ends exactly after `d`. */
  lemma DigitRunAt(p: string, d: string, s: string)
    requires forall i :: 0 <= i < |d| ==> IsDigit(d[i])
    requires s == [] || !IsDigit(s[0])
    ensures forall i :: |p| <= i < |p| + |d| ==> IsDigit((p + d + s)[i])
    ensures |p + d + s| == |p| + |d| || !IsDigit((p + d + s)[|p| + |d|])
  {
    forall i | |p| <= i < |p| + |d|
      ensures IsDigit((p + d + s)[i])
    {
      assert (p + d + s)[i] == d[i - |p|];
    }
    if s != [] {
      assert (p + d + s)[|p| + |d|] == s[0];
    }
  }

  /** Two such strings with the same `p` are equal only with equal digit runs. */
  lemma DigitRunEnds(p: string, d1: string, s1: string, d2: string, s2: string)
    requires forall i :: 0 <= i < |d1| ==> IsDigit(d1[i])
    requires forall i :: 0 <= i < |d2| ==> IsDigit(d2[i])
    requires s1 == [] || !IsDigit(s1[0])
    requires s2 == [] || !IsDigit(s2[0])
    requires p + d1 + s1 == p + d2 + s2
    ensures d1 == d2
  {
    var x := p + d1 + s1;
    DigitRunAt(p, d1, s1);
    DigitRunAt(p, d2, s2);
    assert |d1| == |d2|;
    assert d1 == x[|p|..|p| + |d1|];
    assert d2 == (p + d2 + s2)[|p|..|p| + |d2|];
  }

  /** Two attachments of one tweet never share a file name: whatever follows
      the file base (an extension, `_blank`) starts with a non-digit, so the
      differing indexes stay apart. */
  lemma FileBaseInjective(tweet: Status, i: nat, j: nat, s1: string, s2: string)
    requires i != j
    requires s1 == [] || !IsDigit(s1[0])
    requires s2 == [] || !IsDigit(s2[0])
    ensures FileBase(tweet, i) + s1 != FileBase(tweet, j) + s2
  {
    var prefix := tweet.author + "_" + tweet.createdAt.isoDate + "_" + tweet.id + "_";
    NatToStringInjective(i + 1, j + 1);
    assert FileBase(tweet, i) + s1 == prefix + NatToString(i + 1) + s1;
    assert FileBase(tweet, j) + s2 == prefix + NatToString(j + 1) + s2;
    if prefix + NatToString(i + 1) + s1 == prefix + NatToString(j + 1) + s2 {
      DigitRunEnds(prefix, NatToString(i + 1), s1, NatToString(j + 1), s2);
    }
  }

  /** Where a downloadable attachment comes from and what it is called. */
  datatype Source = Source(ext: string, url: string)

  /** Extension and URL by type: a photo keeps its URL's extension and is
      fetched at `:orig` size; a video or GIF is an `.mp4` fetched from the
      chosen variant. A video or GIF without variants has no source (the
      `reduce` yields `undefined` and reading its `url` throws). */
  function SourceOf(m: Media): (r: Option<Source>)
    requires !m.kind.Unknown?
    ensures r.None? <==> !m.kind.Photo? && |m.variants| == 0
    ensures m.kind.Photo? ==> r == Some(Source(Extname(m.mediaUrl), m.mediaUrl + ":orig"))
    ensures r.Some? && !m.kind.Photo? ==>
              r.value.ext == ".mp4" && r.value.url == m.variants[Variants.BestVariant(m.variants)].url
  {
    if m.kind.Photo? then Some(Source(Extname(m.mediaUrl), m.mediaUrl + ":orig"))
    else if |m.variants| == 0 then None
    else Some(Source(".mp4", m.variants[Variants.BestVariant(m.variants)].url))
  }

  /** The `index`-th media entry of the canonical tweet of `status`. */
  datatype Attachment = Attachment(status: Status, index: nat)

  predicate Valid(a: Attachment) {
    a.index < |Canonical(a.status).media|
  }

  function MediaOf(a: Attachment): Media
    requires Valid(a)
  {
    Canonical(a.status).media[a.index]
  }

  /** What is written: the downloaded media, or an empty placeholder in a dry run. */
  datatype Content = Download(url: string) | Placeholder

  /** The outcome for one attachment before the filesystem is consulted. */
  datatype Resolution =
    | Disabled
    | NoVariants
    | Target(dir: string, name: string, content: Content, logAuthor: Option<string>)

  /** The attachment is skipped when its type is disabled and breaks the
      batch when it is a video or GIF without variants. Otherwise it goes to
      the retweet directory exactly when the status wraps another, under the
      tweet's file base and its type's extension (with `_blank` in a dry
      run), and a retweet names the outer status's author for the log. */
  function ResolveMedia(c: Config, a: Attachment): (r: Resolution)
    requires Valid(a)
    ensures r.Disabled? <==> !Allowed(c.options.mediaTypes, MediaOf(a).kind)
    ensures r.NoVariants? <==> Allowed(c.options.mediaTypes, MediaOf(a).kind) && SourceOf(MediaOf(a)).None?
    ensures r.Target? ==> r.dir == (if IsRetweet(a.status) then c.retweetDir else c.baseDir)
    ensures r.Target? ==> r.name == FileBase(Canonical(a.status), a.index) + SourceOf(MediaOf(a)).value.ext
                                    + (if c.options.dryRun then "_blank" else "")
    ensures r.Target? ==> (r.content.Placeholder? <==> c.options.dryRun)
    ensures r.Target? && r.content.Download? ==> r.content.url == SourceOf(MediaOf(a)).value.url
    ensures r.Target? ==> r.logAuthor == (if IsRetweet(a.status) then Some(a.status.author) else None)
  {
    var tweet := Canonical(a.status);
    var m := MediaOf(a);
    if !Allowed(c.options.mediaTypes, m.kind) then Disabled
    else match SourceOf(m)
      case None => NoVariants
      case Some(src) =>
        var dir := if IsRetweet(a.status) then c.retweetDir else c.baseDir;
        var ext := if c.options.dryRun then src.ext + "_blank" else src.ext;
        Target(dir, FileBase(tweet, a.index) + ext,
               if c.options.dryRun then Placeholder else Download(src.url),
               if IsRetweet(a.status) then Some(a.status.author) else None)
  }

  /** The part of a file name after the file base: the extension, then
      `_blank` in a dry run. It is empty or starts with `.` or `_`. */
  function NameSuffix(c: Config, a: Attachment): (e: string)
    requires Valid(a) && ResolveMedia(c, a).Target?
    ensures e == [] || e[0] == '.' || e[0] == '_'
    ensures ResolveMedia(c, a).name == FileBase(Canonical(a.status), a.index) + e
  {
    SourceOf(MediaOf(a)).value.ext + (if c.options.dryRun then "_blank" else "")
  }

  /** Two attachments of the same tweet that are both written get different
      file names, in a dry run as well. */
  lemma FileNamesDistinct(c: Config, a: Attachment, b: Attachment)
    requires Valid(a) && Valid(b)
    requires Canonical(a.status) == Canonical(b.status) && a.index != b.index
    requires ResolveMedia(c, a).Target? && ResolveMedia(c, b).Target?
    ensures ResolveMedia(c, a).name != ResolveMedia(c, b).name
  {
    var ea, eb := NameSuffix(c, a), NameSuffix(c, b);
    FileBaseInjective(Canonical(a.status), a.index, b.index, ea, eb);
  }
}
