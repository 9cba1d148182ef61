/** The mirror ("clone") pipeline: for every listed package of the source project, fetch its
    info and simple index, download every file URL of the index, and write, upload and remove
    the file only when its name was not seen earlier in the run. The downloads, file writes,
    uploads and removals are recorded as events of a trace. */
module Mirror {
  import opened Wrappers
  import opened Seqs
  import opened Registry
  import opened Lister

  /** The observable effects of the pipeline. `accepted` is false when the upload raised (for
      instance because the destination already holds the file) and the exception was caught. */
  datatype Event =
    | Download(url: string)
    | Write(file: string)
    | Upload(file: string, accepted: bool)
    | Remove(file: string)

  /** A run: the list of file names seen so far (`temporary_cache`), the events so far, and the
      uncaught error that ended the run early, if any. */
  datatype Run = Run(cache: seq<string>, trace: seq<Event>, fatal: Option<Fatal>)

  /** The simple-index URL list of each listed package, in listing order. */
  function UrlLists(p: Project, ids: seq<PackageId>): seq<seq<string>>
  {
    seq(|ids|, k requires 0 <= k < |ids| => p.simpleIndex(p.info(ids[k]).name))
  }

  /** Every file URL the run meets, package after package. */
  function FileUrls(p: Project, ids: seq<PackageId>): seq<string>
  {
    Flatten(UrlLists(p, ids))
  }

  /** The error raised for a download that names no file. */
  function FatalOf(p: Project, url: string): Fatal
    requires !p.download(url).Attachment?
  {
    if p.download(url).NoDisposition? then MissingContentDisposition(url) else NoFileNameInDisposition(url)
  }

  /** Writing a new file locally, handing it to the upload (which answers `accepted`), and
      removing it. */
  function Triple(f: string, accepted: bool): seq<Event>
  {
    [Write(f), Upload(f, accepted), Remove(f)]
  }

  /** One iteration of the inner loop: download, read the file name, and on a new name write,
      upload (the outcome is the destination's answer) and remove the file. */
  function Step(run: Run, p: Project, accepts: string -> bool, url: string): Run
  {
    var trace := run.trace + [Download(url)];
    match p.download(url)
    case Attachment(f) =>
      if f in run.cache then Run(run.cache, trace, None)
      else Run(run.cache + [f], trace + Triple(f, accepts(f)), None)
    case _ => Run(run.cache, trace, Some(FatalOf(p, url)))
  }

  /** The inner and outer loops over the URLs still to process; an uncaught error stops them. */
  function Transfer(run: Run, p: Project, accepts: string -> bool, urls: seq<string>): Run
    decreases |urls|
  {
    if urls == [] || run.fatal.Some? then run
    else Transfer(Step(run, p, accepts, urls[0]), p, accepts, urls[1..])
  }

  /** A whole clone run: a listing failure ends it before any download. */
  function CloneRun(p: Project, accepts: string -> bool): Run
  {
    match ListedIds(p)
    case Failure(e) => Run([], [], Some(e))
    case Success(ids) => Transfer(Run([], [], None), p, accepts, FileUrls(p, ids))
  }

  /** The clone loop. `accepts(f)` is the destination's answer to the upload of file `f`. */
  method Clone(p: Project, accepts: string -> bool) returns (run: Run)
    ensures run == CloneRun(p, accepts)
  {
    var listed := ListPackageIds(p);
    if listed.Failure? {
      return Run([], [], Some(listed.error));
    }
    var ids := listed.value;
    ghost var lists := UrlLists(p, ids);
    ghost var goal := Transfer(Run([], [], None), p, accepts, Flatten(lists));
    var cache: seq<string> := [];
    var trace: seq<Event> := [];
    assert lists[0..] == lists;
    for i := 0 to |ids|
      invariant Transfer(Run(cache, trace, None), p, accepts, Flatten(lists[i..])) == goal
    {
      var info := p.info(ids[i]);
      var webpage := p.simpleIndex(info.name);
      assert Flatten(lists[i..]) == webpage + Flatten(lists[i + 1..]) by {
        assert lists[i..][0] == webpage;
        assert lists[i..][1..] == lists[i + 1..];
      }
      assert webpage[0..] == webpage;
      for j := 0 to |webpage|
        invariant Transfer(Run(cache, trace, None), p, accepts, webpage[j..] + Flatten(lists[i + 1..])) == goal
      {
        var url := webpage[j];
        ghost var rest := webpage[j..] + Flatten(lists[i + 1..]);
        assert rest[0] == url && rest[1..] == webpage[j + 1..] + Flatten(lists[i + 1..]);
        TransferUnfold(Run(cache, trace, None), p, accepts, rest);
        var fatal;
        cache, trace, fatal := Fetch(cache, trace, p, accepts, url);
        if fatal.Some? {
          TransferStopped(Run(cache, trace, fatal), p, accepts, rest[1..]);
          return Run(cache, trace, fatal);
        }
      }
      assert webpage[|webpage|..] + Flatten(lists[i + 1..]) == Flatten(lists[i + 1..]);
    }
    assert lists[|ids|..] == [];
    run := Run(cache, trace, None);
  }

  /** One iteration of the download loop: fetch `url`, and mirror its file unless its name is cached. */
  method Fetch(cache0: seq<string>, trace0: seq<Event>, p: Project, accepts: string -> bool, url: string)
    returns (cache: seq<string>, trace: seq<Event>, fatal: Option<Fatal>)
    ensures Run(cache, trace, fatal) == Step(Run(cache0, trace0, None), p, accepts, url)
  {
    cache, trace, fatal := cache0, trace0 + [Download(url)], None;
    var disposition := p.download(url);
    match disposition {
      case NoDisposition =>
        fatal := Some(MissingContentDisposition(url));
      case NoFileName =>
        fatal := Some(NoFileNameInDisposition(url));
      case Attachment(fileName) =>
        if fileName !in cache {
          cache := cache + [fileName];
          trace := trace + [Write(fileName)];
          var accepted := accepts(fileName);
          trace := trace + [Upload(fileName, accepted)];
          trace := trace + [Remove(fileName)];
        }
    }
  }

  /** A run that has not failed takes one step and continues with the remaining URLs. */
  lemma TransferUnfold(run: Run, p: Project, accepts: string -> bool, urls: seq<string>)
    requires run.fatal.None? && urls != []
    ensures Transfer(run, p, accepts, urls) == Transfer(Step(run, p, accepts, urls[0]), p, accepts, urls[1..])
  {
  }

  /** A run that has failed takes no further step. */
  lemma TransferStopped(run: Run, p: Project, accepts: string -> bool, urls: seq<string>)
    ensures run.fatal.Some? ==> Transfer(run, p, accepts, urls) == run
  {
  }

  // ---------------------------------------------------------------------------------------
  // Views of a trace

  datatype Kind = Downloaded | Written | Uploaded | Removed

  /** The URL or file name of an event of the given kind. */
  function Subject(e: Event, kind: Kind): seq<string>
  {
    match e
    case Download(u) => if kind == Downloaded then [u] else []
    case Write(f) => if kind == Written then [f] else []
    case Upload(f, _) => if kind == Uploaded then [f] else []
    case Remove(f) => if kind == Removed then [f] else []
  }

  /** The URLs downloaded, or the files written, uploaded or removed, in trace order. */
  function Of(trace: seq<Event>, kind: Kind): seq<string>
  {
    if trace == [] then [] else Subject(trace[0], kind) + Of(trace[1..], kind)
  }

  lemma {:induction false} OfAppend(a: seq<Event>, b: seq<Event>, kind: Kind)
    ensures Of(a + b, kind) == Of(a, kind) + Of(b, kind)
  {
    if a == [] {
      assert a + b == b;
    } else {
      assert (a + b)[0] == a[0];
      assert (a + b)[1..] == a[1..] + b;
      OfAppend(a[1..], b, kind);
    }
  }

  /** The trace is a series of downloads and of write-upload-remove triples on one file: a file
      written locally is uploaded and removed before anything else happens. */
  predicate Tidy(trace: seq<Event>)
    decreases |trace|
  {
    if trace == [] then true
    else if trace[0].Download? then Tidy(trace[1..])
    else
      && |trace| >= 3
      && trace[0].Write?
      && trace[1].Upload? && trace[1].file == trace[0].file
      && trace[2] == Remove(trace[0].file)
      && Tidy(trace[3..])
  }

  lemma {:induction false} TidyAppend(a: seq<Event>, b: seq<Event>)
    requires Tidy(a) && Tidy(b)
    ensures Tidy(a + b)
    decreases |a|
  {
    if a == [] {
      assert a + b == b;
    } else if a[0].Download? {
      assert (a + b)[1..] == a[1..] + b;
      TidyAppend(a[1..], b);
    } else {
      assert (a + b)[3..] == a[3..] + b;
      TidyAppend(a[3..], b);
    }
  }

  /** In a tidy trace the files written, uploaded and removed are the same list. */
  lemma {:induction false} TidyFiles(trace: seq<Event>)
    requires Tidy(trace)
    ensures Of(trace, Written) == Of(trace, Uploaded) == Of(trace, Removed)
    decreases |trace|
  {
    if trace != [] {
      if trace[0].Download? {
        TidyFiles(trace[1..]);
      } else {
        TidyFiles(trace[3..]);
        var f := trace[0].file;
        assert trace == Triple(f, trace[1].accepted) + trace[3..];
        OfAppend(Triple(f, trace[1].accepted), trace[3..], Written);
        OfAppend(Triple(f, trace[1].accepted), trace[3..], Uploaded);
        OfAppend(Triple(f, trace[1].accepted), trace[3..], Removed);
        OfTriple(f, trace[1].accepted);
      }
    }
  }

  lemma OfTriple(f: string, accepted: bool)
    ensures Of(Triple(f, accepted), Downloaded) == []
    ensures Of(Triple(f, accepted), Written) == [f]
    ensures Of(Triple(f, accepted), Uploaded) == [f]
    ensures Of(Triple(f, accepted), Removed) == [f]
  {
    var t := Triple(f, accepted);
    assert t[1..] == [Upload(f, accepted), Remove(f)];
    assert t[1..][1..] == [Remove(f)];
    assert t[1..][1..][1..] == [];
    forall kind: Kind
      ensures Of(t, kind) == Subject(t[0], kind) + Subject(t[1], kind) + Subject(t[2], kind)
    {
      assert Of(t[1..][1..], kind) == Subject(t[2], kind) + Of([], kind);
      assert Of(t[1..], kind) == Subject(t[1], kind) + Of(t[1..][1..], kind);
      assert Of(t, kind) == Subject(t[0], kind) + Of(t[1..], kind);
    }
  }

  /** In a tidy trace every written file is uploaded next and removed right after. */
  lemma {:induction false} TidyWriteIsRemoved(trace: seq<Event>, k: nat)
    requires Tidy(trace) && k < |trace| && trace[k].Write?
    ensures k + 2 < |trace|
    ensures trace[k + 1].Upload? && trace[k + 1].file == trace[k].file
    ensures trace[k + 2] == Remove(trace[k].file)
    decreases |trace|
  {
    if trace[0].Download? {
      TidyWriteIsRemoved(trace[1..], k - 1);
    } else if k > 0 {
      if k < 3 {
        assert false;
      }
      TidyWriteIsRemoved(trace[3..], k - 3);
    }
  }

  /** Every upload in the trace records the destination's answer for its file. */
  ghost predicate Answered(trace: seq<Event>, accepts: string -> bool)
  {
    forall i :: 0 <= i < |trace| && trace[i].Upload? ==> trace[i].accepted == accepts(trace[i].file)
  }

  // ---------------------------------------------------------------------------------------
  // What a run does with the URLs it meets

  /** The position of the first URL whose download names no file, or |urls| when all do. */
  function FirstUnnamed(p: Project, urls: seq<string>): (k: nat)
    ensures k <= |urls|
    ensures forall i :: 0 <= i < k ==> p.download(urls[i]).Attachment?
    ensures k < |urls| ==> !p.download(urls[k]).Attachment?
  {
    if urls == [] || !p.download(urls[0]).Attachment? then 0 else 1 + FirstUnnamed(p, urls[1..])
  }

  /** The URLs a run reaches: all of them, or those up to and including the first naming no
      file. */
  function Reached(p: Project, urls: seq<string>): seq<string>
  {
    if urls == [] then []
    else if !p.download(urls[0]).Attachment? then [urls[0]]
    else [urls[0]] + Reached(p, urls[1..])
  }

  /** The file names announced by the URLs before the first one naming no file. */
  function ReachedNames(p: Project, urls: seq<string>): seq<string>
  {
    if urls == [] || !p.download(urls[0]).Attachment? then []
    else [p.download(urls[0]).fileName] + ReachedNames(p, urls[1..])
  }

  /** The reached URLs are the prefix through the first URL naming no file; the reached names
      are the names of the URLs before it, position by position. */
  lemma {:induction false} ReachedIsPrefix(p: Project, urls: seq<string>)
    ensures var k := FirstUnnamed(p, urls);
            && Reached(p, urls) == urls[..if k < |urls| then k + 1 else k]
            && |ReachedNames(p, urls)| == k
            && forall i :: 0 <= i < k ==> ReachedNames(p, urls)[i] == p.download(urls[i]).fileName
    decreases |urls|
  {
    if urls == [] {
      assert urls[..0] == [];
    } else if !p.download(urls[0]).Attachment? {
      assert urls[..1] == [urls[0]];
    } else {
      ReachedIsPrefix(p, urls[1..]);
      var k := FirstUnnamed(p, urls);
      var n := if k < |urls| then k + 1 else k;
      assert urls[..n] == [urls[0]] + urls[1..][..n - 1];
      var names := ReachedNames(p, urls);
      forall i | 0 <= i < k
        ensures names[i] == p.download(urls[i]).fileName
      {
        if i > 0 {
          assert names[i] == ReachedNames(p, urls[1..])[i - 1];
          assert urls[i] == urls[1..][i - 1];
        }
      }
    }
  }

  /** Appending a download adds its URL to the downloads and no upload. */
  lemma AppendDownload(trace: seq<Event>, u: string)
    ensures Of(trace + [Download(u)], Downloaded) == Of(trace, Downloaded) + [u]
    ensures Of(trace + [Download(u)], Uploaded) == Of(trace, Uploaded)
  {
    var d := [Download(u)];
    assert d[1..] == [];
    assert Of(d, Downloaded) == [u] + Of([], Downloaded);
    assert Of(d, Uploaded) == [] + Of([], Uploaded);
    OfAppend(trace, d, Downloaded);
    OfAppend(trace, d, Uploaded);
  }

  /** Appending a write-upload-remove triple adds its file to the uploads and no download. */
  lemma AppendTriple(trace: seq<Event>, f: string, accepted: bool)
    ensures Of(trace + Triple(f, accepted), Downloaded) == Of(trace, Downloaded)
    ensures Of(trace + Triple(f, accepted), Uploaded) == Of(trace, Uploaded) + [f]
  {
    OfTriple(f, accepted);
    OfAppend(trace, Triple(f, accepted), Downloaded);
    OfAppend(trace, Triple(f, accepted), Uploaded);
  }

  /** One iteration downloads its URL and nothing else. */
  lemma StepDownloads(run: Run, p: Project, accepts: string -> bool, u: string)
    ensures Of(Step(run, p, accepts, u).trace, Downloaded) == Of(run.trace, Downloaded) + [u]
  {
    AppendDownload(run.trace, u);
    if p.download(u).Attachment? && p.download(u).fileName !in run.cache {
      var f := p.download(u).fileName;
      AppendTriple(run.trace + [Download(u)], f, accepts(f));
    }
  }

  /** One iteration uploads exactly the name it adds to the cache. */
  lemma StepUploads(run: Run, p: Project, accepts: string -> bool, u: string)
    requires Of(run.trace, Uploaded) == run.cache
    ensures Of(Step(run, p, accepts, u).trace, Uploaded) == Step(run, p, accepts, u).cache
  {
    AppendDownload(run.trace, u);
    if p.download(u).Attachment? && p.download(u).fileName !in run.cache {
      var f := p.download(u).fileName;
      AppendTriple(run.trace + [Download(u)], f, accepts(f));
    }
  }

  /** What one iteration appends to the trace. */
  lemma StepTrace(run: Run, p: Project, accepts: string -> bool, u: string)
    ensures Step(run, p, accepts, u).trace
            == if p.download(u).Attachment? && p.download(u).fileName !in run.cache
               then run.trace + [Download(u)] + Triple(p.download(u).fileName, accepts(p.download(u).fileName))
               else run.trace + [Download(u)]
  {
  }

  /** One iteration keeps the trace tidy. */
  lemma StepTidy(run: Run, p: Project, accepts: string -> bool, u: string)
    requires Tidy(run.trace)
    ensures Tidy(Step(run, p, accepts, u).trace)
  {
    var d := [Download(u)];
    assert Tidy(d) by { assert d[1..] == []; }
    TidyAppend(run.trace, d);
    StepTrace(run, p, accepts, u);
    if p.download(u).Attachment? && p.download(u).fileName !in run.cache {
      var f := p.download(u).fileName;
      var t := Triple(f, accepts(f));
      assert Tidy(t) by { assert t[3..] == []; }
      TidyAppend(run.trace + d, t);
    }
  }

  /** One iteration records the destination's answer for every upload it makes. */
  lemma StepAnswered(run: Run, p: Project, accepts: string -> bool, u: string)
    requires Answered(run.trace, accepts)
    ensures Answered(Step(run, p, accepts, u).trace, accepts)
  {
    StepTrace(run, p, accepts, u);
  }

  /** `Transfer` stops with the error of the first URL naming no file, and completes when
      every URL names one. */
  lemma {:induction false} TransferFatal(run: Run, p: Project, accepts: string -> bool, urls: seq<string>)
    requires run.fatal.None?
    ensures var k := FirstUnnamed(p, urls);
            Transfer(run, p, accepts, urls).fatal == if k < |urls| then Some(FatalOf(p, urls[k])) else None
    decreases |urls|
  {
    if urls != [] && p.download(urls[0]).Attachment? {
      TransferFatal(Step(run, p, accepts, urls[0]), p, accepts, urls[1..]);
    }
  }

  /** `Transfer` downloads exactly the URLs it reaches, in order. */
  lemma {:induction false} TransferDownloads(run: Run, p: Project, accepts: string -> bool, urls: seq<string>)
    requires run.fatal.None?
    ensures Of(Transfer(run, p, accepts, urls).trace, Downloaded) == Of(run.trace, Downloaded) + Reached(p, urls)
    decreases |urls|
  {
    if urls != [] {
      var u := urls[0];
      var step := Step(run, p, accepts, u);
      var before := Of(run.trace, Downloaded);
      StepDownloads(run, p, accepts, u);
      TransferUnfold(run, p, accepts, urls);
      if p.download(u).Attachment? {
        TransferDownloads(step, p, accepts, urls[1..]);
        assert Reached(p, urls) == [u] + Reached(p, urls[1..]);
        assert before + [u] + Reached(p, urls[1..]) == before + Reached(p, urls);
      } else {
        TransferStopped(step, p, accepts, urls[1..]);
      }
    }
  }

  /** The cache after meeting `names` in order: each name is appended unless already there. */
  function Grow(cache: seq<string>, names: seq<string>): seq<string>
    decreases |names|
  {
    if names == [] then cache
    else Grow(if names[0] in cache then cache else cache + [names[0]], names[1..])
  }

  /** Growing the first-occurrence list of `seen` by `names` gives that of `seen + names`. */
  lemma {:induction false} GrowDedup(seen: seq<string>, names: seq<string>)
    ensures Grow(Dedup(seen), names) == Dedup(seen + names)
    decreases |names|
  {
    if names == [] {
      assert seen + names == seen;
    } else {
      var x := names[0];
      calc {
        Grow(Dedup(seen), names);
        Grow(if x in Dedup(seen) then Dedup(seen) else Dedup(seen) + [x], names[1..]);
        { DedupMembers(seen, x); DedupSnoc(seen, x); }
        Grow(Dedup(seen + [x]), names[1..]);
        { GrowDedup(seen + [x], names[1..]); }
        Dedup(seen + [x] + names[1..]);
        { assert seen + [x] + names[1..] == seen + names; }
        Dedup(seen + names);
      }
    }
  }

  /** `Transfer` grows the cache by the names it reaches. */
  lemma {:induction false} TransferCache(run: Run, p: Project, accepts: string -> bool, urls: seq<string>)
    requires run.fatal.None?
    ensures Transfer(run, p, accepts, urls).cache == Grow(run.cache, ReachedNames(p, urls))
    decreases |urls|
  {
    if urls != [] {
      var u := urls[0];
      if p.download(u).Attachment? {
        TransferCache(Step(run, p, accepts, u), p, accepts, urls[1..]);
        assert ReachedNames(p, urls)[1..] == ReachedNames(p, urls[1..]);
      }
    }
  }

  /** Throughout `Transfer` the uploads are exactly the cache. */
  lemma {:induction false} TransferUploads(run: Run, p: Project, accepts: string -> bool, urls: seq<string>)
    requires Of(run.trace, Uploaded) == run.cache
    ensures Of(Transfer(run, p, accepts, urls).trace, Uploaded) == Transfer(run, p, accepts, urls).cache
    decreases |urls|
  {
    if urls != [] && run.fatal.None? {
      StepUploads(run, p, accepts, urls[0]);
      TransferUploads(Step(run, p, accepts, urls[0]), p, accepts, urls[1..]);
    }
  }

  /** Throughout `Transfer` the trace stays tidy and every upload answered. */
  lemma {:induction false} TransferTidy(run: Run, p: Project, accepts: string -> bool, urls: seq<string>)
    requires Tidy(run.trace) && Answered(run.trace, accepts)
    ensures Tidy(Transfer(run, p, accepts, urls).trace) && Answered(Transfer(run, p, accepts, urls).trace, accepts)
    decreases |urls|
  {
    if urls != [] && run.fatal.None? {
      StepTidy(run, p, accepts, urls[0]);
      StepAnswered(run, p, accepts, urls[0]);
      TransferTidy(Step(run, p, accepts, urls[0]), p, accepts, urls[1..]);
    }
  }

  /** Downloads happen in URL order and stop only at a URL naming no file; a run completes
      exactly when every URL names a file, and then every URL was downloaded. */
  lemma CloneDownloadsEveryUrl(p: Project, accepts: string -> bool)
    requires ListedIds(p).Success?
    ensures var urls := FileUrls(p, ListedIds(p).value);
            var k := FirstUnnamed(p, urls);
            var r := CloneRun(p, accepts);
            && (r.fatal.None? <==> k == |urls|)
            && (r.fatal.None? ==> Of(r.trace, Downloaded) == urls)
            && (r.fatal.Some? ==> Of(r.trace, Downloaded) == urls[..k + 1] && r.fatal == Some(FatalOf(p, urls[k])))
  {
    var urls := FileUrls(p, ListedIds(p).value);
    TransferFatal(Run([], [], None), p, accepts, urls);
    TransferDownloads(Run([], [], None), p, accepts, urls);
    ReachedIsPrefix(p, urls);
    assert urls[..|urls|] == urls;
  }

  /** A file name is uploaded at most once per run; the uploads are the distinct names of the
      URLs processed before any stop, in the order of their first occurrence, across all
      packages. */
  lemma CloneUploadsFirstOccurrences(p: Project, accepts: string -> bool)
    requires ListedIds(p).Success?
    ensures var urls := FileUrls(p, ListedIds(p).value);
            var names := ReachedNames(p, urls);
            var r := CloneRun(p, accepts);
            && |names| == FirstUnnamed(p, urls)
            && (forall i :: 0 <= i < |names| ==> names[i] == p.download(urls[i]).fileName)
            && Of(r.trace, Uploaded) == r.cache == Dedup(names)
            && NoDuplicates(Of(r.trace, Uploaded))
  {
    var urls := FileUrls(p, ListedIds(p).value);
    TransferCache(Run([], [], None), p, accepts, urls);
    TransferUploads(Run([], [], None), p, accepts, urls);
    ReachedIsPrefix(p, urls);
    GrowDedup([], ReachedNames(p, urls));
    assert [] + ReachedNames(p, urls) == ReachedNames(p, urls);
    DedupNoDuplicates(ReachedNames(p, urls));
  }

  /** No local file outlives its iteration: whether the run completes or not, each written file
      is uploaded and then removed before the next download, each file is written at most once,
      and each upload carries the destination's answer. */
  lemma CloneLeavesNoLocalFile(p: Project, accepts: string -> bool)
    ensures var r := CloneRun(p, accepts);
            && Tidy(r.trace)
            && Of(r.trace, Written) == Of(r.trace, Uploaded) == Of(r.trace, Removed)
            && NoDuplicates(Of(r.trace, Written))
            && Answered(r.trace, accepts)
  {
    var r := CloneRun(p, accepts);
    if ListedIds(p).Success? {
      var urls := FileUrls(p, ListedIds(p).value);
      TransferCache(Run([], [], None), p, accepts, urls);
      TransferUploads(Run([], [], None), p, accepts, urls);
      TransferTidy(Run([], [], None), p, accepts, urls);
      GrowDedup([], ReachedNames(p, urls));
      assert [] + ReachedNames(p, urls) == ReachedNames(p, urls);
      DedupNoDuplicates(ReachedNames(p, urls));
    }
    TidyFiles(r.trace);
  }

  // ---------------------------------------------------------------------------------------
  // Each write belongs to the iteration of its own download

  /** The file names announced by the downloads of a trace, in order (repeats included). */
  function Named(p: Project, trace: seq<Event>): seq<string>
    decreases |trace|
  {
    if trace == [] then []
    else
      var e := trace[|trace| - 1];
      Named(p, trace[..|trace| - 1])
      + if e.Download? && p.download(e.url).Attachment? then [p.download(e.url).fileName] else []
  }

  lemma {:induction false} NamedAppend(p: Project, a: seq<Event>, b: seq<Event>)
    ensures Named(p, a + b) == Named(p, a) + Named(p, b)
    decreases |b|
  {
    if b == [] {
      assert a + b == a;
    } else {
      var c := b[..|b| - 1];
      assert (a + b)[..|a + b| - 1] == a + c;
      NamedAppend(p, a, c);
    }
  }

  /** Writing, uploading and removing a file announces no name. */
  lemma NamedTriple(p: Project, f: string, accepted: bool)
    ensures Named(p, Triple(f, accepted)) == []
  {
    var t := Triple(f, accepted);
    assert t[..2][..1][..0] == [];
    assert Named(p, t[..2][..1]) == [];
    assert Named(p, t[..2]) == [];
  }

  /** Every write comes right after the download that announces its file, and no earlier download
      announced that name. */
  ghost predicate WritesFollowNewNames(p: Project, trace: seq<Event>)
  {
    forall k :: 0 <= k < |trace| && trace[k].Write? ==>
      && 1 <= k
      && trace[k - 1].Download?
      && p.download(trace[k - 1].url) == Attachment(trace[k].file)
      && trace[k].file !in Named(p, trace[..k - 1])
  }

  /** Every download announcing a name that no earlier download announced is followed at once by
      the write, the upload (with the destination's answer) and the removal of that file. */
  ghost predicate NewNamesAreMirrored(p: Project, accepts: string -> bool, trace: seq<Event>)
  {
    forall k :: 0 <= k < |trace| && trace[k].Download? && p.download(trace[k].url).Attachment?
                && p.download(trace[k].url).fileName !in Named(p, trace[..k]) ==>
      && k + 4 <= |trace|
      && trace[k + 1..k + 4] == Triple(p.download(trace[k].url).fileName, accepts(p.download(trace[k].url).fileName))
  }

  /** The cache holds exactly the names the downloads so far announced. */
  ghost predicate CacheIsNamed(p: Project, run: Run)
  {
    forall x :: x in run.cache <==> x in Named(p, run.trace)
  }

  lemma StepNamed(run: Run, p: Project, accepts: string -> bool, u: string)
    requires CacheIsNamed(p, run)
    ensures CacheIsNamed(p, Step(run, p, accepts, u))
    ensures Named(p, run.trace + [Download(u)]) == Named(p, run.trace) + Named(p, [Download(u)])
  {
    var d := [Download(u)];
    NamedAppend(p, run.trace, d);
    assert d[..0] == [];
    StepTrace(run, p, accepts, u);
    if p.download(u).Attachment? && p.download(u).fileName !in run.cache {
      var f := p.download(u).fileName;
      NamedAppend(p, run.trace + d, Triple(f, accepts(f)));
      NamedTriple(p, f, accepts(f));
    }
  }

  lemma StepWrites(run: Run, p: Project, accepts: string -> bool, u: string)
    requires CacheIsNamed(p, run) && WritesFollowNewNames(p, run.trace)
    ensures WritesFollowNewNames(p, Step(run, p, accepts, u).trace)
  {
    var t := run.trace;
    var t' := Step(run, p, accepts, u).trace;
    StepNamed(run, p, accepts, u);
    StepTrace(run, p, accepts, u);
    assert t'[..|t|] == t;
    forall k | 0 <= k < |t'| && t'[k].Write?
      ensures 1 <= k && t'[k - 1].Download? && p.download(t'[k - 1].url) == Attachment(t'[k].file)
              && t'[k].file !in Named(p, t'[..k - 1])
    {
      if k < |t| {
        assert t'[k] == t[k] && t'[k - 1] == t[k - 1];
        assert t'[..k - 1] == t[..k - 1];
      } else {
        assert k == |t| + 1;
        assert t'[..k - 1] == t;
      }
    }
  }

  /** A mirrored new name at position `k` stays mirrored when the trace grows. */
  lemma MirroredInPrefix(p: Project, accepts: string -> bool, t: seq<Event>, t': seq<Event>, k: int)
    requires NewNamesAreMirrored(p, accepts, t)
    requires |t| <= |t'| && t'[..|t|] == t && 0 <= k < |t|
    requires t'[k].Download? && p.download(t'[k].url).Attachment? && p.download(t'[k].url).fileName !in Named(p, t'[..k])
    ensures k + 4 <= |t'|
    ensures t'[k + 1..k + 4] == Triple(p.download(t'[k].url).fileName, accepts(p.download(t'[k].url).fileName))
  {
    assert t'[k] == t[k];
    assert t'[..k] == t[..k];
    assert t'[k + 1..k + 4] == t[k + 1..k + 4];
  }

  lemma StepMirrors(run: Run, p: Project, accepts: string -> bool, u: string)
    requires CacheIsNamed(p, run) && NewNamesAreMirrored(p, accepts, run.trace)
    ensures NewNamesAreMirrored(p, accepts, Step(run, p, accepts, u).trace)
  {
    var t := run.trace;
    var t' := Step(run, p, accepts, u).trace;
    StepTrace(run, p, accepts, u);
    forall k | 0 <= k < |t'| && t'[k].Download? && p.download(t'[k].url).Attachment?
               && p.download(t'[k].url).fileName !in Named(p, t'[..k])
      ensures k + 4 <= |t'|
      ensures t'[k + 1..k + 4] == Triple(p.download(t'[k].url).fileName, accepts(p.download(t'[k].url).fileName))
    {
      if k < |t| {
        MirroredInPrefix(p, accepts, t, t', k);
      } else {
        assert k == |t|;
        assert t'[..k] == t;
      }
    }
  }

  lemma {:induction false} TransferExplained(run: Run, p: Project, accepts: string -> bool, urls: seq<string>)
    requires CacheIsNamed(p, run) && WritesFollowNewNames(p, run.trace) && NewNamesAreMirrored(p, accepts, run.trace)
    ensures var r := Transfer(run, p, accepts, urls);
            WritesFollowNewNames(p, r.trace) && NewNamesAreMirrored(p, accepts, r.trace)
    decreases |urls|
  {
    if urls != [] && run.fatal.None? {
      StepNamed(run, p, accepts, urls[0]);
      StepWrites(run, p, accepts, urls[0]);
      StepMirrors(run, p, accepts, urls[0]);
      TransferExplained(Step(run, p, accepts, urls[0]), p, accepts, urls[1..]);
    }
  }

  /** A file is written (and so uploaded and removed) only in the iteration of a download that
      announces it, right after that download, and only when no earlier download announced the
      same name; conversely every download announcing a new name is followed at once by the
      write, the upload with the destination's answer, and the removal of its file. */
  lemma CloneMirrorsEachNewNameAtItsDownload(p: Project, accepts: string -> bool)
    ensures var r := CloneRun(p, accepts);
            WritesFollowNewNames(p, r.trace) && NewNamesAreMirrored(p, accepts, r.trace)
  {
    if ListedIds(p).Success? {
      TransferExplained(Run([], [], None), p, accepts, FileUrls(p, ListedIds(p).value));
    }
  }

  /** The trace with every upload outcome forgotten. */
  function Erased(trace: seq<Event>): seq<Event>
  {
    seq(|trace|, i requires 0 <= i < |trace| => if trace[i].Upload? then Upload(trace[i].file, true) else trace[i])
  }

  lemma {:induction false} TransferIgnoresOutcomes(r1: Run, r2: Run, p: Project, a1: string -> bool, a2: string -> bool, urls: seq<string>)
    requires r1.cache == r2.cache && r1.fatal == r2.fatal && Erased(r1.trace) == Erased(r2.trace)
    ensures var t1 := Transfer(r1, p, a1, urls);
            var t2 := Transfer(r2, p, a2, urls);
            t1.cache == t2.cache && t1.fatal == t2.fatal && Erased(t1.trace) == Erased(t2.trace)
    decreases |urls|
  {
    if urls != [] && r1.fatal.None? {
      var s1 := Step(r1, p, a1, urls[0]);
      var s2 := Step(r2, p, a2, urls[0]);
      assert |r1.trace| == |r2.trace|;
      assert Erased(s1.trace) == Erased(s2.trace) by {
        var n := |r1.trace|;
        assert |s1.trace| == |s2.trace|;
        forall i | 0 <= i < |s1.trace|
          ensures Erased(s1.trace)[i] == Erased(s2.trace)[i]
        {
          if i < n {
            assert s1.trace[i] == r1.trace[i] && s2.trace[i] == r2.trace[i];
            assert Erased(r1.trace)[i] == Erased(r2.trace)[i];
          }
        }
      }
      TransferIgnoresOutcomes(s1, s2, p, a1, a2, urls[1..]);
    }
  }

  /** A failed upload does not stop the run: whatever the destination answers, the same URLs
      are downloaded, the same files written, uploaded and removed, the cache ends the same and
      the run ends the same way; only the recorded upload outcomes differ. */
  lemma CloneUploadFailureDoesNotStopRun(p: Project, a1: string -> bool, a2: string -> bool)
    ensures var r1 := CloneRun(p, a1);
            var r2 := CloneRun(p, a2);
            && r1.cache == r2.cache && r1.fatal == r2.fatal
            && Erased(r1.trace) == Erased(r2.trace)
            && forall kind :: Of(r1.trace, kind) == Of(r2.trace, kind)
  {
    if ListedIds(p).Success? {
      TransferIgnoresOutcomes(Run([], [], None), Run([], [], None), p, a1, a2, FileUrls(p, ListedIds(p).value));
    }
    forall kind: Kind
      ensures Of(CloneRun(p, a1).trace, kind) == Of(CloneRun(p, a2).trace, kind)
    {
      ErasedKeepsFiles(CloneRun(p, a1).trace, kind);
      ErasedKeepsFiles(CloneRun(p, a2).trace, kind);
    }
  }

  /** Erasing outcomes keeps the downloads and the files touched. */
  lemma {:induction false} ErasedKeepsFiles(trace: seq<Event>, kind: Kind)
    ensures |Erased(trace)| == |trace|
    ensures Of(Erased(trace), kind) == Of(trace, kind)
    decreases |trace|
  {
    if trace != [] {
      ErasedKeepsFiles(trace[1..], kind);
      assert Erased(trace)[1..] == Erased(trace[1..]);
    }
  }
}
