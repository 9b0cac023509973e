/**
 `saveStatuses` as a planning function. The batch's attachments are visited
 in order; each one whose type is enabled is written to its target unless a
 file of the same name already exists in the base directory or in the
 target directory. The existence checks of the files are taken to see the
 filesystem as it was before the batch: the model assumes that no file the
 batch opens becomes visible before the `forEach` ends. The directories
 `mkdirSync` creates are synchronous and are tracked.
 The result is the watermark, the writes in the order they are issued, and
 the text appended to the retweet log.
 */
module Save {
  import opened Wrappers
  import opened Tweets
  import opened Paths
  import opened Resolve
  import opened Watermark

  /** Every attachment of the batch, status by status, in media order. */
  function Attachments(statuses: seq<Status>): (r: seq<Attachment>)
    ensures forall a :: a in r ==> Valid(a)
    ensures forall a :: a in r <==> a.status in statuses && Valid(a)
  {
    if statuses == [] then []
    else
      var s := statuses[0];
      var here := seq(|Canonical(s).media|, j requires 0 <= j => Attachment(s, j));
      assert forall a :: a in here <==> a.status == s && Valid(a) by {
        forall a: Attachment | a.status == s && Valid(a)
          ensures a in here
        {
          assert here[a.index] == a;
        }
      }
      here + Attachments(statuses[1..])
  }

  /** A file the batch creates. */
  datatype Write = Write(path: string, content: Content)

  /** One line of the retweet log: the outer status's author and the file name. */
  datatype LogLine = LogLine(author: string, file: string)

  /** One line of the log: `{author} : {file}` and a newline. */
  function LineText(l: LogLine): (text: string)
    ensures |text| > 0 && text[|text| - 1] == '\n'
  {
    l.author + " : " + l.file + "\n"
  }

  /** The log lines as appended, one after the other. */
  function Render(lines: seq<LogLine>): (text: string)
    ensures text == [] <==> lines == []
    ensures |text| >= |lines|
  {
    if lines == [] then ""
    else LineText(lines[0]) + Render(lines[1..])
  }

  /** Rendering distributes over concatenation, so building the text one
      `+=` at a time, as the walk does, gives the rendering of all the lines
      in order. */
  lemma {:induction false} RenderAppend(a: seq<LogLine>, b: seq<LogLine>)
    ensures Render(a + b) == Render(a) + Render(b)
    decreases |a|
  {
    if a != [] {
      assert (a + b)[0] == a[0] && (a + b)[1..] == a[1..] + b;
      RenderAppend(a[1..], b);
    } else {
      assert a + b == b;
    }
  }

  /** The state of the `forEach` after a run of attachments: the writes
      issued, the log lines gathered, the directories made sure of with
      `mkdirSync`, and whether an attachment threw. */
  datatype Progress = Progress(writes: seq<Write>, lines: seq<LogLine>, madeDirs: set<string>, crashed: bool)

  /** The attachment resolves to a target that collides with nothing in `fs`. */
  predicate Fresh(c: Config, fs: set<string>, a: Attachment)
    requires Valid(a)
  {
    var r := ResolveMedia(c, a);
    r.Target? && Join(c.baseDir, r.name) !in fs && Join(r.dir, r.name) !in fs
  }

  /** `w` is the write a fresh attachment issues. */
  predicate Issues(c: Config, fs: set<string>, a: Attachment, w: Write)
    requires Valid(a)
  {
    var r := ResolveMedia(c, a);
    Fresh(c, fs, a) && w == Write(Join(r.dir, r.name), r.content)
  }

  /** `l` is the log line a fresh attachment of a retweet contributes. */
  predicate Logs(c: Config, fs: set<string>, a: Attachment, l: LogLine)
    requires Valid(a)
  {
    var r := ResolveMedia(c, a);
    Fresh(c, fs, a) && IsRetweet(a.status) && l == LogLine(a.status.author, r.name)
  }

  /** The attachments the `forEach` reaches: all of them, unless one throws. */
  ghost predicate Reaches(c: Config, items: seq<Attachment>, a: Attachment)
    requires forall b :: b in items ==> Valid(b)
  {
    exists k :: 0 <= k < |items| && items[k] == a && forall j :: 0 <= j < k ==> !ResolveMedia(c, items[j]).NoVariants?
  }

  /** The `forEach` over the attachments `items` against the pre-batch
      filesystem `fs`. It never writes over an existing path, and it throws
      exactly when some attachment is an enabled video or GIF without
      variants. */
  function Walk(c: Config, fs: set<string>, items: seq<Attachment>): (p: Progress)
    requires forall a :: a in items ==> Valid(a)
    ensures forall w :: w in p.writes ==> w.path !in fs
    ensures p.crashed <==> exists a :: a in items && ResolveMedia(c, a).NoVariants?
    decreases |items|
  {
    if items == [] then Progress([], [], {}, false)
    else
      var a := items[0];
      var rest := Walk(c, fs, items[1..]);
      match ResolveMedia(c, a)
      case Disabled => rest
      case NoVariants => Progress([], [], {}, true)
      case Target(dir, name, content, logAuthor) =>
        if Join(c.baseDir, name) in fs || Join(dir, name) in fs then
          Progress(rest.writes, rest.lines, {dir} + rest.madeDirs, rest.crashed)
        else
          Progress([Write(Join(dir, name), content)] + rest.writes,
                   (if logAuthor.Some? then [LogLine(logAuthor.value, name)] else []) + rest.lines,
                   {dir} + rest.madeDirs, rest.crashed)
  }

  /** Every write is that of a fresh attachment the walk reaches. */
  lemma {:induction false} WalkWritesSound(c: Config, fs: set<string>, items: seq<Attachment>)
    requires forall a :: a in items ==> Valid(a)
    ensures forall w :: w in Walk(c, fs, items).writes ==> exists a :: Reaches(c, items, a) && Issues(c, fs, a, w)
    decreases |items|
  {
    if items != [] {
      var a0 := items[0];
      var rest := Walk(c, fs, items[1..]);
      WalkWritesSound(c, fs, items[1..]);
      ReachesCons(c, items);
      forall w | w in Walk(c, fs, items).writes
        ensures exists a :: Reaches(c, items, a) && Issues(c, fs, a, w)
      {
        if w in rest.writes {
          var a :| Reaches(c, items[1..], a) && Issues(c, fs, a, w);
          assert Reaches(c, items, a);
        } else {
          assert Issues(c, fs, a0, w) && Reaches(c, items, a0);
        }
      }
    }
  }

  /** Every fresh attachment the walk reaches issues its write. */
  lemma {:induction false} WalkWritesComplete(c: Config, fs: set<string>, items: seq<Attachment>)
    requires forall a :: a in items ==> Valid(a)
    ensures forall a, w :: Reaches(c, items, a) && Issues(c, fs, a, w) ==> w in Walk(c, fs, items).writes
    decreases |items|
  {
    if items != [] {
      var a0 := items[0];
      var rest := Walk(c, fs, items[1..]);
      WalkWritesComplete(c, fs, items[1..]);
      ReachesCons(c, items);
      forall a, w | Reaches(c, items, a) && Issues(c, fs, a, w)
        ensures w in Walk(c, fs, items).writes
      {
        if a != a0 {
          assert Reaches(c, items[1..], a);
          assert w in rest.writes;
        }
      }
    }
  }

  /** Every log line comes from a fresh retweet attachment the walk reaches. */
  lemma {:induction false} WalkLinesSound(c: Config, fs: set<string>, items: seq<Attachment>)
    requires forall a :: a in items ==> Valid(a)
    ensures forall l :: l in Walk(c, fs, items).lines ==> exists a :: Reaches(c, items, a) && Logs(c, fs, a, l)
    decreases |items|
  {
    if items != [] {
      var a0 := items[0];
      var rest := Walk(c, fs, items[1..]);
      WalkLinesSound(c, fs, items[1..]);
      ReachesCons(c, items);
      forall l | l in Walk(c, fs, items).lines
        ensures exists a :: Reaches(c, items, a) && Logs(c, fs, a, l)
      {
        if l in rest.lines {
          var a :| Reaches(c, items[1..], a) && Logs(c, fs, a, l);
          assert Reaches(c, items, a);
        } else {
          assert Logs(c, fs, a0, l) && Reaches(c, items, a0);
        }
      }
    }
  }

  /** Every fresh retweet attachment the walk reaches contributes its log line. */
  lemma {:induction false} WalkLinesComplete(c: Config, fs: set<string>, items: seq<Attachment>)
    requires forall a :: a in items ==> Valid(a)
    ensures forall a, l :: Reaches(c, items, a) && Logs(c, fs, a, l) ==> l in Walk(c, fs, items).lines
    decreases |items|
  {
    if items != [] {
      var a0 := items[0];
      var rest := Walk(c, fs, items[1..]);
      WalkLinesComplete(c, fs, items[1..]);
      ReachesCons(c, items);
      forall a, l | Reaches(c, items, a) && Logs(c, fs, a, l)
        ensures l in Walk(c, fs, items).lines
      {
        if a != a0 {
          assert Reaches(c, items[1..], a);
          assert l in rest.lines;
        }
      }
    }
  }

  /** The writes of the fresh attachments of `items`, one each, in order. */
  function FreshWrites(c: Config, fs: set<string>, items: seq<Attachment>): seq<Write>
    requires forall a :: a in items ==> Valid(a)
    decreases |items|
  {
    if items == [] then []
    else
      var a := items[0];
      var r := ResolveMedia(c, a);
      (if Fresh(c, fs, a) then [Write(Join(r.dir, r.name), r.content)] else []) + FreshWrites(c, fs, items[1..])
  }

  /** The log lines of the fresh attachments of retweets in `items`, one
      each, in order. */
  function RetweetLines(c: Config, fs: set<string>, items: seq<Attachment>): seq<LogLine>
    requires forall a :: a in items ==> Valid(a)
    decreases |items|
  {
    if items == [] then []
    else
      var a := items[0];
      (if Fresh(c, fs, a) && IsRetweet(a.status) then [LogLine(a.status.author, ResolveMedia(c, a).name)] else [])
        + RetweetLines(c, fs, items[1..])
  }

  /** A walk that does not throw issues exactly one write per fresh
      attachment, in the order it visits them. */
  lemma {:induction false} WalkWritesInOrder(c: Config, fs: set<string>, items: seq<Attachment>)
    requires forall a :: a in items ==> Valid(a)
    ensures !Walk(c, fs, items).crashed ==> Walk(c, fs, items).writes == FreshWrites(c, fs, items)
    decreases |items|
  {
    if items != [] && !Walk(c, fs, items).crashed {
      var r := ResolveMedia(c, items[0]);
      var rest := Walk(c, fs, items[1..]);
      assert !r.NoVariants?;
      assert !rest.crashed;
      WalkWritesInOrder(c, fs, items[1..]);
      assert Walk(c, fs, items).writes
          == (if Fresh(c, fs, items[0]) then [Write(Join(r.dir, r.name), r.content)] else []) + rest.writes;
    }
  }

  /** A walk that does not throw gathers exactly one log line per fresh
      attachment of a retweet, in the order it visits them. */
  lemma {:induction false} WalkLinesInOrder(c: Config, fs: set<string>, items: seq<Attachment>)
    requires forall a :: a in items ==> Valid(a)
    ensures !Walk(c, fs, items).crashed ==> Walk(c, fs, items).lines == RetweetLines(c, fs, items)
    decreases |items|
  {
    if items != [] && !Walk(c, fs, items).crashed {
      var a := items[0];
      var r := ResolveMedia(c, a);
      var rest := Walk(c, fs, items[1..]);
      assert !r.NoVariants?;
      assert !rest.crashed;
      WalkLinesInOrder(c, fs, items[1..]);
      assert Walk(c, fs, items).lines
          == (if Fresh(c, fs, a) && IsRetweet(a.status) then [LogLine(a.status.author, r.name)] else []) + rest.lines;
    }
  }

  /** Without a throw, `mkdirSync` has run only for target directories of
      attachments of the batch. */
  lemma {:induction false} WalkDirsSound(c: Config, fs: set<string>, items: seq<Attachment>)
    requires forall a :: a in items ==> Valid(a)
    ensures !Walk(c, fs, items).crashed ==>
              forall d :: d in Walk(c, fs, items).madeDirs ==>
                exists a :: a in items && ResolveMedia(c, a).Target? && ResolveMedia(c, a).dir == d
    decreases |items|
  {
    if items != [] && !Walk(c, fs, items).crashed {
      var a0 := items[0];
      var rest := Walk(c, fs, items[1..]);
      WalkDirsSound(c, fs, items[1..]);
      var r := ResolveMedia(c, a0);
      assert Walk(c, fs, items).madeDirs == if r.Target? then {r.dir} + rest.madeDirs else rest.madeDirs;
      forall d | d in Walk(c, fs, items).madeDirs
        ensures exists a :: a in items && ResolveMedia(c, a).Target? && ResolveMedia(c, a).dir == d
      {
        if d in rest.madeDirs {
          var a :| a in items[1..] && ResolveMedia(c, a).Target? && ResolveMedia(c, a).dir == d;
          assert a in items;
        } else {
          assert a0 in items;
        }
      }
    }
  }

  /** Without a throw, `mkdirSync` has run for the target directory of every
      attachment whose type is enabled. */
  lemma {:induction false} WalkDirsComplete(c: Config, fs: set<string>, items: seq<Attachment>)
    requires forall a :: a in items ==> Valid(a)
    ensures !Walk(c, fs, items).crashed ==>
              forall a :: a in items && ResolveMedia(c, a).Target? ==> ResolveMedia(c, a).dir in Walk(c, fs, items).madeDirs
    decreases |items|
  {
    if items != [] && !Walk(c, fs, items).crashed {
      var a0 := items[0];
      var rest := Walk(c, fs, items[1..]);
      WalkDirsComplete(c, fs, items[1..]);
      var r := ResolveMedia(c, a0);
      assert Walk(c, fs, items).madeDirs == if r.Target? then {r.dir} + rest.madeDirs else rest.madeDirs;
      forall a | a in items && ResolveMedia(c, a).Target?
        ensures ResolveMedia(c, a).dir in Walk(c, fs, items).madeDirs
      {
        if a != a0 {
          assert a in items[1..];
        }
      }
    }
  }

  /** The attachments reached from `items` are its head, when it does not
      throw, followed by those reached from its tail. */
  lemma ReachesCons(c: Config, items: seq<Attachment>)
    requires items != [] && forall a :: a in items ==> Valid(a)
    ensures forall a :: Reaches(c, items, a) <==>
              (a == items[0] || (!ResolveMedia(c, items[0]).NoVariants? && Reaches(c, items[1..], a)))
    ensures ResolveMedia(c, items[0]).NoVariants? ==> forall a :: Reaches(c, items, a) <==> a == items[0]
  {
    forall a
      ensures Reaches(c, items, a) <==> (a == items[0] || (!ResolveMedia(c, items[0]).NoVariants? && Reaches(c, items[1..], a)))
    {
      if Reaches(c, items, a) && a != items[0] {
        var k :| 0 <= k < |items| && items[k] == a && forall j :: 0 <= j < k ==> !ResolveMedia(c, items[j]).NoVariants?;
        assert items[1..][k - 1] == a;
        assert forall j :: 0 <= j < k - 1 ==> items[1..][j] == items[j + 1];
      }
      if !ResolveMedia(c, items[0]).NoVariants? && Reaches(c, items[1..], a) {
        var k :| 0 <= k < |items[1..]| && items[1..][k] == a && forall j :: 0 <= j < k ==> !ResolveMedia(c, items[1..][j]).NoVariants?;
        assert items[k + 1] == a;
        assert forall j :: 1 <= j < k + 1 ==> items[j] == items[1..][j - 1];
      }
      if a == items[0] {
        assert items[0] == a;
      }
    }
  }

  /** A walk that does not throw reaches every attachment. */
  lemma ReachesAll(c: Config, fs: set<string>, items: seq<Attachment>)
    requires forall a :: a in items ==> Valid(a)
    requires !Walk(c, fs, items).crashed
    ensures forall a :: a in items ==> Reaches(c, items, a)
  {
    forall a | a in items
      ensures Reaches(c, items, a)
    {
      var k :| 0 <= k < |items| && items[k] == a;
    }
  }

  /** Where `saveStatuses` appends to the retweet log, and the lines it
      appends; the text is `Render(lines)`. */
  datatype LogAppend = LogAppend(path: string, lines: seq<LogLine>)

  /** What one call of `saveStatuses` does: it either completes, returning
      the watermark, or throws partway, after issuing the writes before the
      failing attachment. */
  datatype Outcome =
    | Saved(latestTweetId: Option<string>, writes: seq<Write>, log: Option<LogAppend>)
    | Crashed(writes: seq<Write>)

  const LogFile: string := "_retweets.txt"

  /** `saveStatuses(statuses, folderName, options)` against the existing
      paths `fs`. It throws exactly when some attachment is an enabled video
      or GIF without variants; otherwise it returns the watermark. It never
      writes over an existing path, and it appends to the retweet log exactly
      when retweets are logged and the retweet directory exists afterwards. */
  function SaveStatuses(statuses: seq<Status>, folderName: string, options: Options, fs: set<string>): (r: Outcome)
    ensures var c := Configure(folderName, options);
            r.Crashed? <==> exists a :: a in Attachments(statuses) && ResolveMedia(c, a).NoVariants?
    ensures r.Saved? ==> r.latestTweetId == LatestTweetId(statuses)
    ensures forall w :: w in r.writes ==> w.path !in fs
    ensures var c := Configure(folderName, options);
            r.Saved? ==>
              (r.log.Some? <==>
                 options.logRetweets
                 && (c.retweetDir in fs || exists a :: a in Attachments(statuses) && ResolveMedia(c, a).Target? && ResolveMedia(c, a).dir == c.retweetDir))
    ensures r.Saved? && r.log.Some? ==> r.log.value.path == Join(Configure(folderName, options).retweetDir, LogFile)
  {
    var c := Configure(folderName, options);
    var items := Attachments(statuses);
    var p := Walk(c, fs, items);
    WalkDirsSound(c, fs, items);
    WalkDirsComplete(c, fs, items);
    if p.crashed then Crashed(p.writes)
    else
      var log := if options.logRetweets && (c.retweetDir in fs || c.retweetDir in p.madeDirs)
                 then Some(LogAppend(Join(c.retweetDir, LogFile), p.lines))
                 else None;
      Saved(LatestTweetId(statuses), p.writes, log)
  }

  /** The writes of `saveStatuses` are those of fresh attachments it reaches
      before any throw; when it completes, every fresh attachment of the
      batch is written, once, in visiting order. */
  lemma SaveWrites(statuses: seq<Status>, folderName: string, options: Options, fs: set<string>)
    ensures var c := Configure(folderName, options);
            var r := SaveStatuses(statuses, folderName, options, fs);
            forall w :: w in r.writes ==> exists a :: Reaches(c, Attachments(statuses), a) && Issues(c, fs, a, w)
    ensures var c := Configure(folderName, options);
            var r := SaveStatuses(statuses, folderName, options, fs);
            r.Saved? ==> forall a, w :: a in Attachments(statuses) && Issues(c, fs, a, w) ==> w in r.writes
    ensures var c := Configure(folderName, options);
            var r := SaveStatuses(statuses, folderName, options, fs);
            r.Saved? ==> r.writes == FreshWrites(c, fs, Attachments(statuses))
  {
    var c := Configure(folderName, options);
    var items := Attachments(statuses);
    WalkWritesSound(c, fs, items);
    WalkWritesComplete(c, fs, items);
    WalkWritesInOrder(c, fs, items);
    if !Walk(c, fs, items).crashed {
      ReachesAll(c, fs, items);
    }
  }

  /** When `saveStatuses` completes and appends to the log, the lines are
      exactly those of the fresh attachments of retweets in the batch: one
      per attachment, in visiting order, so a status that occurs twice in
      the batch is logged twice. */
  lemma SaveLogLines(statuses: seq<Status>, folderName: string, options: Options, fs: set<string>)
    ensures var c := Configure(folderName, options);
            var r := SaveStatuses(statuses, folderName, options, fs);
            r.Saved? && r.log.Some? ==>
              forall l :: l in r.log.value.lines <==> exists a :: a in Attachments(statuses) && Logs(c, fs, a, l)
    ensures var c := Configure(folderName, options);
            var r := SaveStatuses(statuses, folderName, options, fs);
            r.Saved? && r.log.Some? ==> r.log.value.lines == RetweetLines(c, fs, Attachments(statuses))
  {
    var c := Configure(folderName, options);
    var items := Attachments(statuses);
    WalkLinesSound(c, fs, items);
    WalkLinesComplete(c, fs, items);
    WalkLinesInOrder(c, fs, items);
    if !Walk(c, fs, items).crashed {
      ReachesAll(c, fs, items);
    }
  }

  /** With every path the walk wrote now present, walking again writes and
      logs nothing. */
  lemma {:induction false} WalkAgainWritesNothing(c: Config, fs: set<string>, fs2: set<string>, items: seq<Attachment>)
    requires forall a :: a in items ==> Valid(a)
    requires fs <= fs2
    requires forall w :: w in Walk(c, fs, items).writes ==> w.path in fs2
    ensures Walk(c, fs2, items).writes == []
    ensures Walk(c, fs2, items).lines == []
    decreases |items|
  {
    if items != [] {
      var r := ResolveMedia(c, items[0]);
      if !r.NoVariants? {
        var rest := Walk(c, fs, items[1..]);
        assert forall w :: w in rest.writes ==> w in Walk(c, fs, items).writes;
        WalkAgainWritesNothing(c, fs, fs2, items[1..]);
        if r.Target? && Join(c.baseDir, r.name) !in fs && Join(r.dir, r.name) !in fs {
          assert Walk(c, fs, items).writes[0].path == Join(r.dir, r.name);
        }
      }
    }
  }

  /** Idempotence: once the files of a run exist, running again on the same
      batch writes nothing, logs no line, and ends the same way with the
      same watermark. */
  lemma RerunWritesNothing(statuses: seq<Status>, folderName: string, options: Options, fs: set<string>, fs2: set<string>)
    requires fs <= fs2
    requires forall w :: w in SaveStatuses(statuses, folderName, options, fs).writes ==> w.path in fs2
    ensures var first := SaveStatuses(statuses, folderName, options, fs);
            var again := SaveStatuses(statuses, folderName, options, fs2);
            && again.writes == []
            && again.Saved? == first.Saved?
            && (again.Saved? ==> again.latestTweetId == first.latestTweetId)
            && (again.Saved? && again.log.Some? ==> again.log.value.lines == [])
  {
    var c := Configure(folderName, options);
    WalkAgainWritesNothing(c, fs, fs2, Attachments(statuses));
  }

  /** A disabled media type is never downloaded: every write comes from an
      attachment of another type. */
  lemma DisabledTypeNeverWritten(statuses: seq<Status>, folderName: string, options: Options, fs: set<string>, kind: MediaType)
    requires !Allowed(options.mediaTypes, kind)
    ensures var c := Configure(folderName, options);
            forall w :: w in SaveStatuses(statuses, folderName, options, fs).writes ==>
              exists a :: a in Attachments(statuses) && MediaOf(a).kind != kind && Issues(c, fs, a, w)
  {
    var c := Configure(folderName, options);
    var items := Attachments(statuses);
    var r := SaveStatuses(statuses, folderName, options, fs);
    SaveWrites(statuses, folderName, options, fs);
    forall w | w in r.writes
      ensures exists a :: a in items && MediaOf(a).kind != kind && Issues(c, fs, a, w)
    {
      var a :| Reaches(c, items, a) && Issues(c, fs, a, w);
      var k :| 0 <= k < |items| && items[k] == a;
      assert a in items;
      assert ResolveMedia(c, a).Target?;
      assert Allowed(options.mediaTypes, MediaOf(a).kind);
    }
  }

  /** Every write lands in the base directory for an original and in the
      retweet directory for a retweet, under the file name of an attachment
      of the batch; neither that name in the base directory nor the target
      path existed before. */
  lemma WritesLandInTargets(statuses: seq<Status>, folderName: string, options: Options, fs: set<string>)
    ensures var c := Configure(folderName, options);
            forall w :: w in SaveStatuses(statuses, folderName, options, fs).writes ==>
              exists a :: a in Attachments(statuses) && ResolveMedia(c, a).Target?
                && w.path == Join(if IsRetweet(a.status) then c.retweetDir else c.baseDir, ResolveMedia(c, a).name)
                && Join(c.baseDir, ResolveMedia(c, a).name) !in fs && w.path !in fs
  {
    var c := Configure(folderName, options);
    var items := Attachments(statuses);
    SaveWrites(statuses, folderName, options, fs);
    forall w | w in SaveStatuses(statuses, folderName, options, fs).writes
      ensures exists a :: a in items && ResolveMedia(c, a).Target?
                && w.path == Join(if IsRetweet(a.status) then c.retweetDir else c.baseDir, ResolveMedia(c, a).name)
                && Join(c.baseDir, ResolveMedia(c, a).name) !in fs && w.path !in fs
    {
      var a :| Reaches(c, items, a) && Issues(c, fs, a, w);
      var k :| 0 <= k < |items| && items[k] == a;
      assert a in items;
    }
  }

  /** A batch whose every attachment is a photo completes. */
  lemma PhotosOnlyComplete(statuses: seq<Status>, folderName: string, options: Options, fs: set<string>)
    requires forall a :: a in Attachments(statuses) ==> MediaOf(a).kind == Photo
    ensures SaveStatuses(statuses, folderName, options, fs).Saved?
  {
    var c := Configure(folderName, options);
    forall a | a in Attachments(statuses)
      ensures !ResolveMedia(c, a).NoVariants?
    {
      assert SourceOf(MediaOf(a)).Some?;
    }
  }

  /** When a batch completes, the file of each of its fresh attachments is
      among its writes. */
  lemma FreshIsWritten(statuses: seq<Status>, folderName: string, options: Options, fs: set<string>, a: Attachment)
    requires a in Attachments(statuses)
    ensures var c := Configure(folderName, options);
            var r := ResolveMedia(c, a);
            SaveStatuses(statuses, folderName, options, fs).Saved? && Fresh(c, fs, a) ==>
              exists w :: w in SaveStatuses(statuses, folderName, options, fs).writes && w.path == Join(r.dir, r.name)
  {
    var c := Configure(folderName, options);
    var r := ResolveMedia(c, a);
    SaveWrites(statuses, folderName, options, fs);
    if Fresh(c, fs, a) {
      assert Issues(c, fs, a, Write(Join(r.dir, r.name), r.content));
    }
  }

  /** The write planned for attachment `a`, stated from its raw media: an
      enabled type; the path `{dir}/{file base}{ext}`, with `_blank` in a dry
      run, where `dir` is the retweet directory for a retweet and the base
      directory otherwise, and `ext` is the URL's extension for a photo and
      `.mp4` otherwise; an empty placeholder exactly in a dry run; otherwise
      the photo at `:orig` size, or the chosen variant of a video or GIF,
      which has at least one. */
  ghost predicate PlannedWrite(c: Config, a: Attachment, w: Write)
    requires Valid(a)
  {
    var m := MediaOf(a);
    var ext := if m.kind.Photo? then Extname(m.mediaUrl) else ".mp4";
    var dir := if IsRetweet(a.status) then c.retweetDir else c.baseDir;
    && Allowed(c.options.mediaTypes, m.kind)
    && w.path == Join(dir, FileBase(Canonical(a.status), a.index) + ext + (if c.options.dryRun then "_blank" else ""))
    && (w.content.Placeholder? <==> c.options.dryRun)
    && (m.kind.Photo? && !c.options.dryRun ==> w.content == Download(m.mediaUrl + ":orig"))
    && (!m.kind.Photo? ==>
          && |m.variants| > 0
          && (!c.options.dryRun ==> w.content == Download(m.variants[Variants.BestVariant(m.variants)].url)))
  }

  /** The write of an attachment with a target is the planned one. */
  lemma TargetIsPlanned(c: Config, a: Attachment)
    requires Valid(a)
    ensures var r := ResolveMedia(c, a);
            r.Target? ==> PlannedWrite(c, a, Write(Join(r.dir, r.name), r.content))
  {
    var m := MediaOf(a);
    if ResolveMedia(c, a).Target? {
      assert Allowed(c.options.mediaTypes, m.kind);
      assert SourceOf(m).Some?;
    }
  }

  /** Every write of `saveStatuses` is the planned write of an attachment of
      the batch: its directory, file name, extension, dry-run suffix and
      content follow from the attachment's media and the options. */
  lemma WritesFollowMedia(statuses: seq<Status>, folderName: string, options: Options, fs: set<string>)
    ensures var c := Configure(folderName, options);
            forall w :: w in SaveStatuses(statuses, folderName, options, fs).writes ==>
              exists a :: a in Attachments(statuses) && PlannedWrite(c, a, w)
  {
    var c := Configure(folderName, options);
    var items := Attachments(statuses);
    SaveWrites(statuses, folderName, options, fs);
    forall w | w in SaveStatuses(statuses, folderName, options, fs).writes
      ensures exists a :: a in items && PlannedWrite(c, a, w)
    {
      var a :| Reaches(c, items, a) && Issues(c, fs, a, w);
      var k :| 0 <= k < |items| && items[k] == a;
      assert a in items;
      TargetIsPlanned(c, a);
    }
  }

  /** A retweet (or quote) of an original resolves the original's `i`-th
      media entry to the same file name and content, in the retweet
      directory instead of the base directory. */
  lemma RetweetSharesName(c: Config, orig: Status, rt: Status, i: nat)
    requires IsRetweet(rt) && Canonical(rt) == orig && !IsRetweet(orig)
    requires i < |orig.media|
    ensures Valid(Attachment(orig, i)) && Valid(Attachment(rt, i))
    ensures var r := ResolveMedia(c, Attachment(orig, i));
            r.Target? ==>
              && r.dir == c.baseDir
              && ResolveMedia(c, Attachment(rt, i)) == Target(c.retweetDir, r.name, r.content, Some(rt.author))
  {
    assert MediaOf(Attachment(rt, i)) == MediaOf(Attachment(orig, i));
  }

  /** The first-written-wins rule does not reach inside one batch: when an
      original and a retweet of it arrive together, an attachment of theirs
      whose file exists in neither directory is written twice, once in each,
      if the batch completes. */
  lemma OriginalAndRetweetInOneBatch(statuses: seq<Status>, folderName: string, options: Options, fs: set<string>,
                                     orig: Status, rt: Status, i: nat)
    requires orig in statuses && rt in statuses
    requires IsRetweet(rt) && Canonical(rt) == orig && !IsRetweet(orig)
    requires i < |orig.media|
    ensures var c := Configure(folderName, options);
            var r := ResolveMedia(c, Attachment(orig, i));
            var out := SaveStatuses(statuses, folderName, options, fs);
            out.Saved? && r.Target? && Join(c.baseDir, r.name) !in fs && Join(c.retweetDir, r.name) !in fs ==>
              && (exists w :: w in out.writes && w.path == Join(c.baseDir, r.name))
              && (exists w :: w in out.writes && w.path == Join(c.retweetDir, r.name))
  {
    var c := Configure(folderName, options);
    RetweetSharesName(c, orig, rt, i);
    var a1 := Attachment(orig, i);
    var a2 := Attachment(rt, i);
    assert a1 in Attachments(statuses) && a2 in Attachments(statuses);
    FreshIsWritten(statuses, folderName, options, fs, a1);
    FreshIsWritten(statuses, folderName, options, fs, a2);
  }

  /** With only photos, an original and a retweet of it arriving alone
      always complete, and a photo whose file exists in neither directory is
      written to both. */
  lemma OriginalAndRetweetPhotos(orig: Status, rt: Status, folderName: string, options: Options, fs: set<string>, i: nat)
    requires IsRetweet(rt) && Canonical(rt) == orig && !IsRetweet(orig)
    requires i < |orig.media| && forall m :: m in orig.media ==> m.kind == Photo
    requires options.mediaTypes.photo != Some(false)
    ensures var c := Configure(folderName, options);
            var name := FileBase(orig, i) + Extname(orig.media[i].mediaUrl) + (if options.dryRun then "_blank" else "");
            var out := SaveStatuses([orig, rt], folderName, options, fs);
            && out.Saved?
            && (Join(c.baseDir, name) !in fs && Join(c.retweetDir, name) !in fs ==>
                  && (exists w :: w in out.writes && w.path == Join(c.baseDir, name))
                  && (exists w :: w in out.writes && w.path == Join(c.retweetDir, name)))
  {
    var statuses := [orig, rt];
    forall a | a in Attachments(statuses)
      ensures MediaOf(a).kind == Photo
    {
      assert Canonical(a.status) == orig;
      assert MediaOf(a) in orig.media;
    }
    PhotosOnlyComplete(statuses, folderName, options, fs);
    var c := Configure(folderName, options);
    var name := FileBase(orig, i) + Extname(orig.media[i].mediaUrl) + (if options.dryRun then "_blank" else "");
    var a1 := Attachment(orig, i);
    assert MediaOf(a1) == orig.media[i] && Canonical(orig) == orig;
    assert SourceOf(MediaOf(a1)) == Some(Source(Extname(orig.media[i].mediaUrl), orig.media[i].mediaUrl + ":orig"));
    assert ResolveMedia(c, a1).Target? && ResolveMedia(c, a1).name == name;
    OriginalAndRetweetInOneBatch(statuses, folderName, options, fs, orig, rt, i);
  }
}
