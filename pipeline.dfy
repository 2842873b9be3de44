/**
 * `download_jpegs_from_pdf` and `process_pdf`: the first pass over the
 * pages submits one download per hyperlink and collects, per page number,
 * the file it was saved to; the second pass renames the file of every page
 * number that was collected. Page text and hyperlinks are given (they come
 * from PDF libraries); the network is a function from URL to content; the
 * order in which the concurrent downloads complete is a parameter.
 */
module Pipeline {
  import opened Types
  import opened Text
  import opened Cleaners
  import opened FieldParser
  import opened FileSystem
  import opened Reorganizer

  /** One PDF page as the first pass sees it: its text and its hyperlink URIs. */
  datatype Page = Page(text: string, links: seq<string>)

  /** Why a run stops: `clean_description` raised, or an OS call did. */
  datatype Failure =
    | ParseFailure(crash: Crash)
    | OsFailure(error: OsError)

  /** A submitted `download_jpeg(url, directory, count, section_title)` call. */
  datatype Download = Download(url: string, count: nat, title: string)

  // -------------------------------------------------------- download_jpeg

  /** `os.path.join(path, f"{section_title}_{count}.jpeg")` */
  function DownloadPath(directory: Path, title: string, count: nat): (p: FilePath)
    ensures Parent(p) == directory
  {
    directory + [title + "_" + NatToString(count) + ".jpeg"]
  }

  /**
   * Titles are cleaned descriptions and hold no `_`, so different pages (or
   * different titles) never download to the same file.
   */
  lemma DownloadPathInjective(directory: Path, title1: string, count1: nat, title2: string, count2: nat)
    requires '_' !in title1 && '_' !in title2
    requires DownloadPath(directory, title1, count1) == DownloadPath(directory, title2, count2)
    ensures title1 == title2 && count1 == count2
  {
    var name := title1 + "_" + NatToString(count1) + ".jpeg";
    assert name == DownloadPath(directory, title1, count1)[|directory|];
    assert name == title2 + "_" + NatToString(count2) + ".jpeg";
    var x1, x2 := NatToString(count1) + ".jpeg", NatToString(count2) + ".jpeg";
    assert name == title1 + "_" + x1 == title2 + "_" + x2;
    SameTitle(title1, title2, x1, x2);
    var s1, s2 := NatToString(count1), NatToString(count2);
    assert |s1| == |s2|;
    assert s1 == name[|title1| + 1..|title1| + 1 + |s1|] == s2;
    NatToStringInjective(count1, count2);
  }

  /** The first `_` separates the title from the rest. */
  lemma SameTitle(a: string, b: string, x: string, y: string)
    requires '_' !in a && '_' !in b && a + "_" + x == b + "_" + y
    ensures a == b
  {
    var s := a + "_" + x;
    var m := if |a| < |b| then |a| else |b|;
    assert s == b + "_" + y;
    assert s[m] == '_';
    assert a == s[..m] == b;
  }

  /**
   * `download_jpeg`: fetch the URL and write the content to the page's
   * file; returns the file and the page number, or the error the write
   * raised.
   */
  function DownloadResult(t: Tree, directory: Path, fetch: string -> Bytes, job: Download): (Tree, Result<FilePath, OsError>) {
    var path := DownloadPath(directory, job.title, job.count);
    var (t', err) := WriteResult(t, path, fetch(job.url));
    if err.Some? then (t', Err(err.value)) else (t', Ok(path))
  }

  // ------------------------------------------- download_jpegs_from_pdf

  /** The downloads one page submits: one per hyperlink, in link order. */
  function PageDownloads(page: Page, count: nat, title: string): seq<Download> {
    seq(|page.links|, k requires 0 <= k < |page.links| => Download(page.links[k], count, title))
  }

  /** The number of hyperlinks on the first `n` pages. */
  function LinkCount(pages: seq<Page>, n: nat): nat
    requires n <= |pages|
  {
    if n == 0 then 0 else LinkCount(pages, n - 1) + |pages[n - 1].links|
  }

  /**
   * The downloads submitted while the first `n` pages are parsed in order
   * by `parse` (`parse_text_to_fields`), and the crash that stopped the
   * parsing, if any: page `i` (from 0) is submitted with number `i + 1` and
   * its cleaned description as title.
   */
  function Submitted(pages: seq<Page>, parse: string -> Result<PageFields, Crash>, n: nat): (seq<Download>, Option<Crash>)
    requires n <= |pages|
  {
    if n == 0 then ([], None)
    else
      var (jobs, crash) := Submitted(pages, parse, n - 1);
      if crash.Some? then (jobs, crash)
      else match parse(pages[n - 1].text)
        case Err(e) => (jobs, Some(e))
        case Ok(f) => (jobs + PageDownloads(pages[n - 1], n, f.description), None)
  }

  /**
   * `as_completed` yields every submitted future exactly once: the order
   * is a permutation of the indices of all the downloads the pages call
   * for (those after a crash are never submitted and are skipped).
   */
  predicate CompletionOrder(pages: seq<Page>, completion: seq<nat>) {
    var total := LinkCount(pages, |pages|);
    (forall k :: 0 <= k < |completion| ==> completion[k] < total) &&
    (forall k, l :: 0 <= k < l < |completion| ==> completion[k] != completion[l]) &&
    (forall j :: 0 <= j < total ==> j in completion)
  }

  /**
   * The downloads run in completion order: each writes its file, and the
   * collecting loop records `jpeg_files[count] = file` until the first
   * failed download raises out of it; downloads completing after that still
   * write (the executor waits for them), but nothing more is recorded.
   */
  function Collect(t: Tree, directory: Path, fetch: string -> Bytes, jobs: seq<Download>, order: seq<nat>)
    : (Tree, map<nat, FilePath>, Option<OsError>)
  {
    if order == [] then (t, map[], None)
    else
      var (t1, files, err) := Collect(t, directory, fetch, jobs, order[..|order| - 1]);
      var i := order[|order| - 1];
      if i >= |jobs| then (t1, files, err)
      else
        var (t2, r) := DownloadResult(t1, directory, fetch, jobs[i]);
        if err.Some? then (t2, files, err)
        else if r.Err? then (t2, files, Some(r.error))
        else (t2, files[jobs[i].count := r.value], None)
  }

  /**
   * `download_jpegs_from_pdf(pdf_file, directory)`: the page-number-to-file
   * map, or the crash of a page's parse, or the error of the first failed
   * download in completion order; with the tree the downloads leave.
   */
  function DownloadAllResult(t: Tree, pages: seq<Page>, parse: string -> Result<PageFields, Crash>, directory: Path,
                             fetch: string -> Bytes, completion: seq<nat>)
    : (Tree, Result<map<nat, FilePath>, Failure>)
  {
    var (jobs, crash) := Submitted(pages, parse, |pages|);
    var (t', files, err) := Collect(t, directory, fetch, jobs, completion);
    if crash.Some? then (t', Err(ParseFailure(crash.value)))
    else if err.Some? then (t', Err(OsFailure(err.value)))
    else (t', Ok(files))
  }

  /** The title a page's downloads get: its cleaned description. */
  function Title(parse: string -> Result<PageFields, Crash>, page: Page): string
    requires parse(page.text).Ok?
  {
    parse(page.text).value.description
  }

  /** Page number `p` (from 1) is among the first `n` pages and has a hyperlink. */
  predicate HasLinks(pages: seq<Page>, n: nat, p: nat)
    requires n <= |pages|
  {
    1 <= p <= n && |pages[p - 1].links| > 0
  }

  /** `job` downloads a link of one of the first `n` pages, titled after that page. */
  predicate JobOfPage(pages: seq<Page>, parse: string -> Result<PageFields, Crash>, n: nat, job: Download)
    requires n <= |pages|
  {
    HasLinks(pages, n, job.count) &&
    parse(pages[job.count - 1].text).Ok? && job.title == Title(parse, pages[job.count - 1])
  }

  /** Parsing stops exactly at the first page whose description cannot be cleaned. */
  lemma {:induction false} SubmittedCrash(pages: seq<Page>, parse: string -> Result<PageFields, Crash>, n: nat)
    requires n <= |pages|
    ensures var crash := Submitted(pages, parse, n).1;
      (crash.None? <==> forall i :: 0 <= i < n ==> parse(pages[i].text).Ok?) &&
      (crash.Some? ==> exists i :: 0 <= i < n && parse(pages[i].text) == Err(crash.value) &&
                         forall i' :: 0 <= i' < i ==> parse(pages[i'].text).Ok?)
  {
    if n > 0 {
      SubmittedCrash(pages, parse, n - 1);
    }
  }

  /** Every submitted download is a link of a parsed page, under its number and title. */
  lemma {:induction false} SubmittedJobs(pages: seq<Page>, parse: string -> Result<PageFields, Crash>, n: nat)
    requires n <= |pages|
    ensures var jobs := Submitted(pages, parse, n).0;
      |jobs| <= LinkCount(pages, n) &&
      (Submitted(pages, parse, n).1.None? ==> |jobs| == LinkCount(pages, n)) &&
      forall j :: 0 <= j < |jobs| ==> JobOfPage(pages, parse, n, jobs[j])
  {
    if n > 0 {
      SubmittedJobs(pages, parse, n - 1);
      var (jobs, crash) := Submitted(pages, parse, n - 1);
      if crash.None? && parse(pages[n - 1].text).Ok? {
        var more := PageDownloads(pages[n - 1], n, Title(parse, pages[n - 1]));
        var all := jobs + more;
        assert forall j :: 0 <= j < |jobs| ==> all[j] == jobs[j];
        assert forall j :: |jobs| <= j < |all| ==> all[j] == more[j - |jobs|];
      }
    }
  }

  /** Without a crash, every page with a hyperlink has a download submitted. */
  lemma {:induction false} SubmittedCovers(pages: seq<Page>, parse: string -> Result<PageFields, Crash>, n: nat, p: nat)
    requires n <= |pages| && Submitted(pages, parse, n).1.None? && HasLinks(pages, n, p)
    ensures exists j :: 0 <= j < |Submitted(pages, parse, n).0| && Submitted(pages, parse, n).0[j].count == p
  {
    var jobs := Submitted(pages, parse, n - 1).0;
    if p < n {
      SubmittedCovers(pages, parse, n - 1, p);
      var j :| 0 <= j < |jobs| && jobs[j].count == p;
      assert Submitted(pages, parse, n).0[j] == jobs[j];
    } else {
      assert Submitted(pages, parse, n).0[|jobs|].count == p;
    }
  }

  /**
   * Collecting in any order removes no file and changes no directory, and
   * records no error exactly when every download's file is writable.
   */
  lemma {:induction false} CollectTree(t: Tree, directory: Path, fetch: string -> Bytes, jobs: seq<Download>, order: seq<nat>)
    requires WellFormed(t)
    ensures var (t', files, err) := Collect(t, directory, fetch, jobs, order);
      WellFormed(t') && t'.dirs == t.dirs && t.files.Keys <= t'.files.Keys &&
      (err.None? <==> OrderWritable(t, directory, jobs, order))
  {
    if order != [] {
      var front := order[..|order| - 1];
      CollectTree(t, directory, fetch, jobs, front);
      var (t1, files, err) := Collect(t, directory, fetch, jobs, front);
      var i := order[|order| - 1];
      OrderWritableSnoc(t, directory, jobs, order);
      if i < |jobs| {
        WriteKeepsTree(t1, DownloadPath(directory, jobs[i].title, jobs[i].count), fetch(jobs[i].url));
      }
    }
  }

  /** Every download in the order can write its file in `t`. */
  ghost predicate OrderWritable(t: Tree, directory: Path, jobs: seq<Download>, order: seq<nat>) {
    forall k :: 0 <= k < |order| && order[k] < |jobs| ==>
      Writable(t, DownloadPath(directory, jobs[order[k]].title, jobs[order[k]].count))
  }

  lemma OrderWritableSnoc(t: Tree, directory: Path, jobs: seq<Download>, order: seq<nat>)
    requires order != []
    ensures var front, i := order[..|order| - 1], order[|order| - 1];
      OrderWritable(t, directory, jobs, order) <==>
        OrderWritable(t, directory, jobs, front) &&
        (i < |jobs| ==> Writable(t, DownloadPath(directory, jobs[i].title, jobs[i].count)))
  {
    var front := order[..|order| - 1];
    assert forall k :: 0 <= k < |front| ==> order[k] == front[k];
  }

  /** `c` is the page number of a download at position `k` of the order. */
  predicate CollectedAt(jobs: seq<Download>, order: seq<nat>, k: int, c: nat) {
    0 <= k < |order| && order[k] < |jobs| && jobs[order[k]].count == c
  }

  /** Some download in the order is for page number `c`. */
  ghost predicate Recorded(jobs: seq<Download>, order: seq<nat>, c: nat) {
    exists k :: CollectedAt(jobs, order, k, c)
  }

  /** Some download in the order is for page number `c` and writes to `path`. */
  ghost predicate RecordedAs(jobs: seq<Download>, order: seq<nat>, directory: Path, c: nat, path: Path) {
    exists k :: CollectedAt(jobs, order, k, c) && path == DownloadPath(directory, jobs[order[k]].title, c)
  }

  /** What one more completed download adds to the downloads recorded so far. */
  lemma RecordedSnoc(jobs: seq<Download>, order: seq<nat>, directory: Path, c: nat)
    requires order != []
    ensures var front, i := order[..|order| - 1], order[|order| - 1];
      (Recorded(jobs, order, c) <==> Recorded(jobs, front, c) || (i < |jobs| && jobs[i].count == c)) &&
      (forall path :: RecordedAs(jobs, front, directory, c, path) ==> RecordedAs(jobs, order, directory, c, path)) &&
      (i < |jobs| && jobs[i].count == c ==> RecordedAs(jobs, order, directory, c, DownloadPath(directory, jobs[i].title, c)))
  {
    var front, i := order[..|order| - 1], order[|order| - 1];
    assert forall k :: 0 <= k < |front| ==> order[k] == front[k];
    if Recorded(jobs, order, c) {
      var k :| CollectedAt(jobs, order, k, c);
      if k < |front| {
        assert CollectedAt(jobs, front, k, c);
      }
    }
    if Recorded(jobs, front, c) {
      var k :| CollectedAt(jobs, front, k, c);
      assert CollectedAt(jobs, order, k, c);
    }
    forall path | RecordedAs(jobs, front, directory, c, path)
      ensures RecordedAs(jobs, order, directory, c, path)
    {
      var k :| CollectedAt(jobs, front, k, c) && path == DownloadPath(directory, jobs[front[k]].title, c);
      assert CollectedAt(jobs, order, k, c);
    }
    if i < |jobs| && jobs[i].count == c {
      assert CollectedAt(jobs, order, |front|, c);
    }
  }

  /**
   * Without an error, the map holds exactly the page numbers of the
   * downloads, each mapped to the file one of them wrote, which is still
   * there.
   */
  lemma {:induction false} CollectMap(t: Tree, directory: Path, fetch: string -> Bytes, jobs: seq<Download>, order: seq<nat>)
    requires WellFormed(t)
    ensures var (t', files, err) := Collect(t, directory, fetch, jobs, order);
      err.None? ==>
        (forall c :: c in files <==> Recorded(jobs, order, c)) &&
        (forall c :: c in files ==> files[c] in t'.files && RecordedAs(jobs, order, directory, c, files[c]))
  {
    if order != [] {
      var front := order[..|order| - 1];
      CollectMap(t, directory, fetch, jobs, front);
      CollectTree(t, directory, fetch, jobs, front);
      var (t1, files, err) := Collect(t, directory, fetch, jobs, front);
      var i := order[|order| - 1];
      forall c {
        RecordedSnoc(jobs, order, directory, c);
      }
      if i < |jobs| {
        WriteKeepsTree(t1, DownloadPath(directory, jobs[i].title, jobs[i].count), fetch(jobs[i].url));
      }
    }
  }

  /**
   * What the first pass achieves: it fails on a parse crash exactly when
   * some page's description cannot be cleaned; otherwise, whatever the
   * completion order, a successful run maps exactly the numbers of the pages
   * with a hyperlink, each to `{title}_{number}.jpeg` in `directory`, a
   * file that exists afterwards.
   */
  lemma DownloadedPages(t: Tree, pages: seq<Page>, parse: string -> Result<PageFields, Crash>, directory: Path,
                        fetch: string -> Bytes, completion: seq<nat>)
    requires WellFormed(t) && CompletionOrder(pages, completion)
    ensures var (t', r) := DownloadAllResult(t, pages, parse, directory, fetch, completion);
      WellFormed(t') && t'.dirs == t.dirs &&
      ((r.Err? && r.error.ParseFailure?) <==> exists i :: 0 <= i < |pages| && parse(pages[i].text).Err?) &&
      (r.Ok? ==> FilesOfLinkedPages(pages, parse, directory, r.value) && forall p :: p in r.value ==> r.value[p] in t'.files)
  {
    var n := |pages|;
    var (jobs, crash) := Submitted(pages, parse, n);
    SubmittedCrash(pages, parse, n);
    CollectTree(t, directory, fetch, jobs, completion);
    CollectMap(t, directory, fetch, jobs, completion);
    var (t', files, err) := Collect(t, directory, fetch, jobs, completion);
    if crash.None? && err.None? {
      forall p | HasLinks(pages, n, p)
        ensures p in files
      {
        LinkedPageRecorded(pages, parse, completion, p);
      }
      forall p | p in files
        ensures HasLinks(pages, n, p) && parse(pages[p - 1].text).Ok?
        ensures files[p] == DownloadPath(directory, Title(parse, pages[p - 1]), p)
      {
        RecordedPage(pages, parse, directory, completion, p, files[p]);
      }
    }
  }

  /** Without a crash, every page with a hyperlink has a download in the completion order. */
  lemma LinkedPageRecorded(pages: seq<Page>, parse: string -> Result<PageFields, Crash>, completion: seq<nat>, p: nat)
    requires CompletionOrder(pages, completion) && Submitted(pages, parse, |pages|).1.None?
    requires HasLinks(pages, |pages|, p)
    ensures Recorded(Submitted(pages, parse, |pages|).0, completion, p)
  {
    var n := |pages|;
    var jobs := Submitted(pages, parse, n).0;
    SubmittedJobs(pages, parse, n);
    SubmittedCovers(pages, parse, n, p);
    var j :| 0 <= j < |jobs| && jobs[j].count == p;
    assert j in completion;
    var k :| 0 <= k < |completion| && completion[k] == j;
    assert CollectedAt(jobs, completion, k, p);
  }

  /** A download recorded for page `p` is titled after that page, which has a hyperlink. */
  lemma RecordedPage(pages: seq<Page>, parse: string -> Result<PageFields, Crash>, directory: Path,
                     completion: seq<nat>, p: nat, path: Path)
    requires RecordedAs(Submitted(pages, parse, |pages|).0, completion, directory, p, path)
    ensures HasLinks(pages, |pages|, p) && parse(pages[p - 1].text).Ok?
    ensures path == DownloadPath(directory, Title(parse, pages[p - 1]), p)
  {
    var n := |pages|;
    var jobs := Submitted(pages, parse, n).0;
    SubmittedJobs(pages, parse, n);
    var k :| CollectedAt(jobs, completion, k, p) && path == DownloadPath(directory, jobs[completion[k]].title, p);
    assert JobOfPage(pages, parse, n, jobs[completion[k]]);
  }

  /**
   * `files` maps exactly the numbers of the pages with a hyperlink, each to
   * `{title}_{number}.jpeg` in `directory`, titled after that page.
   */
  ghost predicate FilesOfLinkedPages(pages: seq<Page>, parse: string -> Result<PageFields, Crash>, directory: Path,
                                     files: map<nat, FilePath>) {
    (forall p :: p in files <==> HasLinks(pages, |pages|, p)) &&
    (forall p :: p in files ==>
      HasLinks(pages, |pages|, p) && parse(pages[p - 1].text).Ok? &&
      files[p] == DownloadPath(directory, Title(parse, pages[p - 1]), p))
  }

  /** Every page with a hyperlink can have its download file written in `t`. */
  ghost predicate AllWritable(t: Tree, pages: seq<Page>, parse: string -> Result<PageFields, Crash>, directory: Path) {
    forall p :: HasLinks(pages, |pages|, p) ==>
      parse(pages[p - 1].text).Ok? && Writable(t, DownloadPath(directory, Title(parse, pages[p - 1]), p))
  }

  /**
   * The first pass succeeds exactly when every page parses and every page
   * with a hyperlink can have its file written, whatever the completion
   * order.
   */
  lemma DownloadSucceeds(t: Tree, pages: seq<Page>, parse: string -> Result<PageFields, Crash>, directory: Path,
                         fetch: string -> Bytes, completion: seq<nat>)
    requires WellFormed(t) && CompletionOrder(pages, completion)
    ensures DownloadAllResult(t, pages, parse, directory, fetch, completion).1.Ok? <==>
      (forall i :: 0 <= i < |pages| ==> parse(pages[i].text).Ok?) && AllWritable(t, pages, parse, directory)
  {
    var n := |pages|;
    var (jobs, crash) := Submitted(pages, parse, n);
    SubmittedCrash(pages, parse, n);
    CollectTree(t, directory, fetch, jobs, completion);
    if crash.None? {
      if AllWritable(t, pages, parse, directory) {
        WritableJobs(t, pages, parse, directory, completion);
      }
      if Collect(t, directory, fetch, jobs, completion).2.None? {
        WritablePages(t, pages, parse, directory, completion);
      }
    }
  }

  /** When every page parses, the pages' files are writable if every download's is. */
  lemma WritableJobs(t: Tree, pages: seq<Page>, parse: string -> Result<PageFields, Crash>, directory: Path, completion: seq<nat>)
    requires Submitted(pages, parse, |pages|).1.None? && AllWritable(t, pages, parse, directory)
    ensures OrderWritable(t, directory, Submitted(pages, parse, |pages|).0, completion)
  {
    var jobs := Submitted(pages, parse, |pages|).0;
    SubmittedJobs(pages, parse, |pages|);
    forall k | 0 <= k < |completion| && completion[k] < |jobs|
      ensures Writable(t, DownloadPath(directory, jobs[completion[k]].title, jobs[completion[k]].count))
    {
      assert JobOfPage(pages, parse, |pages|, jobs[completion[k]]);
    }
  }

  /** When every page parses, every download's file is writable if the pages' are. */
  lemma WritablePages(t: Tree, pages: seq<Page>, parse: string -> Result<PageFields, Crash>, directory: Path, completion: seq<nat>)
    requires CompletionOrder(pages, completion) && Submitted(pages, parse, |pages|).1.None?
    requires OrderWritable(t, directory, Submitted(pages, parse, |pages|).0, completion)
    ensures AllWritable(t, pages, parse, directory)
  {
    var n := |pages|;
    var jobs := Submitted(pages, parse, n).0;
    SubmittedJobs(pages, parse, n);
    forall p | HasLinks(pages, n, p)
      ensures parse(pages[p - 1].text).Ok? && Writable(t, DownloadPath(directory, Title(parse, pages[p - 1]), p))
    {
      SubmittedCovers(pages, parse, n, p);
      var j :| 0 <= j < |jobs| && jobs[j].count == p;
      assert j in completion;
      var k :| 0 <= k < |completion| && completion[k] == j;
      assert JobOfPage(pages, parse, n, jobs[j]);
    }
  }

  /**
   * `as_completed` order does not matter to the outcome: two runs from the
   * same tree succeed or fail together, and successful ones return the
   * same page-to-file map.
   */
  lemma DownloadOrderIrrelevant(t: Tree, pages: seq<Page>, parse: string -> Result<PageFields, Crash>, directory: Path,
                                fetch: string -> Bytes, completion1: seq<nat>, completion2: seq<nat>)
    requires WellFormed(t) && CompletionOrder(pages, completion1) && CompletionOrder(pages, completion2)
    ensures var r1 := DownloadAllResult(t, pages, parse, directory, fetch, completion1).1;
      var r2 := DownloadAllResult(t, pages, parse, directory, fetch, completion2).1;
      (r1.Ok? <==> r2.Ok?) && (r1.Ok? ==> r1.value == r2.value)
  {
    DownloadSucceeds(t, pages, parse, directory, fetch, completion1);
    DownloadSucceeds(t, pages, parse, directory, fetch, completion2);
    DownloadedPages(t, pages, parse, directory, fetch, completion1);
    DownloadedPages(t, pages, parse, directory, fetch, completion2);
  }

  /** Once parsing has crashed, later pages change nothing. */
  lemma {:induction false} SubmittedAfterCrash(pages: seq<Page>, parse: string -> Result<PageFields, Crash>, m: nat, n: nat)
    requires m <= n <= |pages| && Submitted(pages, parse, m).1.Some?
    ensures Submitted(pages, parse, n) == Submitted(pages, parse, m)
    decreases n
  {
    if m < n {
      SubmittedAfterCrash(pages, parse, m, n - 1);
    }
  }

  /** `download_jpeg(url, path, count, section_title)` */
  method DownloadJpeg(disk: Disk, directory: Path, fetch: string -> Bytes, job: Download) returns (r: Result<FilePath, OsError>)
    requires disk.Valid()
    modifies disk
    ensures disk.Valid()
    ensures (disk.Snapshot(), r) == DownloadResult(old(disk.Snapshot()), directory, fetch, job)
  {
    var filename := DownloadPath(directory, job.title, job.count);
    var err := disk.Write(filename, fetch(job.url));
    if err.Some? {
      return Err(err.value);
    }
    return Ok(filename);
  }

  /** The submitting loop of `download_jpegs_from_pdf`, stopped by a crash of `parse`. */
  method SubmitDownloads(pages: seq<Page>, parse: string -> Result<PageFields, Crash>) returns (jobs: seq<Download>, crash: Option<Crash>)
    ensures (jobs, crash) == Submitted(pages, parse, |pages|)
  {
    jobs := [];
    crash := None;
    var i := 0;
    while i < |pages| && crash.None?
      invariant 0 <= i <= |pages|
      invariant crash.None? ==> Submitted(pages, parse, i) == (jobs, None)
      invariant crash.Some? ==> Submitted(pages, parse, |pages|) == (jobs, crash)
      decreases |pages| - i, crash.None?
    {
      var fields := parse(pages[i].text);
      if fields.Err? {
        crash := Some(fields.error);
        SubmittedAfterCrash(pages, parse, i + 1, |pages|);
      } else {
        var title := fields.value.description;
        var links := pages[i].links;
        ghost var before := jobs;
        for k := 0 to |links|
          invariant jobs == before + PageDownloads(pages[i], i + 1, title)[..k]
        {
          jobs := jobs + [Download(links[k], i + 1, title)];
        }
        assert PageDownloads(pages[i], i + 1, title)[..|links|] == PageDownloads(pages[i], i + 1, title);
        i := i + 1;
      }
    }
  }

  /** The `as_completed` loop of `download_jpegs_from_pdf`. */
  method CollectDownloads(disk: Disk, directory: Path, fetch: string -> Bytes, jobs: seq<Download>, completion: seq<nat>)
    returns (files: map<nat, FilePath>, err: Option<OsError>)
    requires disk.Valid()
    modifies disk
    ensures disk.Valid()
    ensures (disk.Snapshot(), files, err) == Collect(old(disk.Snapshot()), directory, fetch, jobs, completion)
  {
    files := map[];
    err := None;
    for k := 0 to |completion|
      invariant disk.Valid()
      invariant (disk.Snapshot(), files, err) == Collect(old(disk.Snapshot()), directory, fetch, jobs, completion[..k])
    {
      assert completion[..k + 1][..k] == completion[..k];
      var j := completion[k];
      if j < |jobs| {
        var download := DownloadJpeg(disk, directory, fetch, jobs[j]);
        if err.None? {
          if download.Err? {
            err := Some(download.error);
          } else {
            files := files[jobs[j].count := download.value];
          }
        }
      }
    }
    assert completion[..|completion|] == completion;
  }

  /**
   * `download_jpegs_from_pdf(pdf_file, directory)`: parse the pages in
   * order, submitting one download per hyperlink, then wait for the
   * downloads in completion order and record each page's file. The
   * executor waits for every submitted download, even after a crash.
   */
  method DownloadJpegsFromPdf(disk: Disk, pages: seq<Page>, directory: Path, fetch: string -> Bytes, completion: seq<nat>)
    returns (r: Result<map<nat, FilePath>, Failure>)
    requires disk.Valid()
    modifies disk
    ensures disk.Valid()
    ensures (disk.Snapshot(), r) == DownloadAllResult(old(disk.Snapshot()), pages, ParseTextToFields, directory, fetch, completion)
  {
    var jobs, crash := SubmitDownloads(pages, ParseTextToFields);
    var files, err := CollectDownloads(disk, directory, fetch, jobs, completion);
    if crash.Some? {
      return Err(ParseFailure(crash.value));
    } else if err.Some? {
      return Err(OsFailure(err.value));
    }
    return Ok(files);
  }

  // ------------------------------------------------------------ process_pdf

  /** One `rename_jpeg` call of the second pass: the page, the file, what happened. */
  datatype RenameCall = RenameCall(page: nat, oldFile: FilePath, report: RenameReport)

  /**
   * The page loop of `process_pdf` over pages `1..n`, whose texts `parse`
   * reads again: a page whose number has a downloaded file is renamed
   * after its fields, any other page is skipped, and a parse crash stops the
   * loop.
   */
  function RenameLoop(t: Tree, replace: bool, texts: seq<string>, parse: string -> Result<PageFields, Crash>,
                      files: map<nat, FilePath>, n: nat): (Tree, seq<RenameCall>, Option<Crash>)
    requires n <= |texts|
  {
    if n == 0 then (t, [], None)
    else
      var (t1, calls, crash) := RenameLoop(t, replace, texts, parse, files, n - 1);
      if crash.Some? then (t1, calls, crash)
      else match parse(texts[n - 1])
        case Err(e) => (t1, calls, Some(e))
        case Ok(f) =>
          if n in files then
            var (t2, report) := RenameJpegResult(t1, replace, files[n], n, f.description, f.takenDate, f.jobNumber);
            (t2, calls + [RenameCall(n, files[n], report)], None)
          else (t1, calls, None)
  }

  /** The page numbers in `1..n` that are keys of `files`, in ascending order. */
  function KeyPages(files: map<nat, FilePath>, n: nat): seq<nat> {
    if n == 0 then [] else KeyPages(files, n - 1) + (if n in files then [n] else [])
  }

  /** `KeyPages` is strictly ascending and holds exactly the keys in `1..n`. */
  lemma {:induction false} KeyPagesFacts(files: map<nat, FilePath>, n: nat)
    ensures var ks := KeyPages(files, n);
      (forall k, l :: 0 <= k < l < |ks| ==> ks[k] < ks[l]) &&
      (forall p :: p in ks <==> 1 <= p <= n && p in files)
  {
    KeyPagesMembers(files, n);
    if n > 0 {
      KeyPagesFacts(files, n - 1);
      var front := KeyPages(files, n - 1);
      KeyPagesMembers(files, n - 1);
      if n in files {
        var ks := front + [n];
        forall k, l | 0 <= k < l < |ks| ensures ks[k] < ks[l] {
          assert ks[k] == front[k] && front[k] in front;
          if l < |front| {
            assert ks[l] == front[l];
          }
        }
      }
    }
  }

  lemma {:induction false} KeyPagesMembers(files: map<nat, FilePath>, n: nat)
    ensures forall p :: p in KeyPages(files, n) <==> 1 <= p <= n && p in files
  {
    if n > 0 {
      KeyPagesMembers(files, n - 1);
    }
  }

  /** The key pages up to `m` come first among those up to `n`. */
  lemma {:induction false} KeyPagesPrefix(files: map<nat, FilePath>, m: nat, n: nat)
    requires m <= n
    ensures KeyPages(files, m) <= KeyPages(files, n)
    decreases n
  {
    if m < n {
      KeyPagesPrefix(files, m, n - 1);
    }
  }

  /** The pages of a list of calls, in call order. */
  function CallPages(calls: seq<RenameCall>): seq<nat> {
    seq(|calls|, k requires 0 <= k < |calls| => calls[k].page)
  }

  /**
   * The page loop calls `rename_jpeg` once for each key page, in ascending
   * order, with that page's file; it completes exactly when every page
   * parses, and a crash leaves the calls for the key pages before it.
   */
  lemma {:induction false} RenameLoopCalls(t: Tree, replace: bool, texts: seq<string>, parse: string -> Result<PageFields, Crash>,
                                           files: map<nat, FilePath>, n: nat)
    requires n <= |texts|
    ensures var (t', calls, crash) := RenameLoop(t, replace, texts, parse, files, n);
      CallPages(calls) <= KeyPages(files, n) &&
      (crash.None? <==> forall i :: 0 <= i < n ==> parse(texts[i]).Ok?) &&
      (crash.None? ==> CallPages(calls) == KeyPages(files, n)) &&
      (forall k :: 0 <= k < |calls| ==> calls[k].page in files && calls[k].oldFile == files[calls[k].page])
  {
    if n > 0 {
      RenameLoopCalls(t, replace, texts, parse, files, n - 1);
      KeyPagesPrefix(files, n - 1, n);
      var (t1, calls, crash) := RenameLoop(t, replace, texts, parse, files, n - 1);
      CallPagesAppend(calls);
    }
  }

  lemma CallPagesAppend(calls: seq<RenameCall>)
    ensures forall c :: CallPages(calls + [c]) == CallPages(calls) + [c.page]
  {
    forall c ensures CallPages(calls + [c]) == CallPages(calls) + [c.page] {
      assert |CallPages(calls + [c])| == |calls| + 1;
    }
  }

  /** The page loop keeps the tree well formed. */
  lemma {:induction false} RenameLoopKeepsTree(t: Tree, replace: bool, texts: seq<string>, parse: string -> Result<PageFields, Crash>,
                                               files: map<nat, FilePath>, n: nat)
    requires n <= |texts| && WellFormed(t)
    ensures WellFormed(RenameLoop(t, replace, texts, parse, files, n).0)
  {
    if n > 0 {
      RenameLoopKeepsTree(t, replace, texts, parse, files, n - 1);
      var (t1, calls, crash) := RenameLoop(t, replace, texts, parse, files, n - 1);
      if crash.None? && parse(texts[n - 1]).Ok? && n in files {
        var f := parse(texts[n - 1]).value;
        RenameJpegKeepsTree(t1, replace, files[n], NewNameBase(f.description, n, f.takenDate, f.jobNumber), f.description);
      }
    }
  }

  /** Once the page loop has crashed, later pages change nothing. */
  lemma {:induction false} RenameLoopAfterCrash(t: Tree, replace: bool, texts: seq<string>, parse: string -> Result<PageFields, Crash>,
                                                files: map<nat, FilePath>, m: nat, n: nat)
    requires m <= n <= |texts| && RenameLoop(t, replace, texts, parse, files, m).2.Some?
    ensures RenameLoop(t, replace, texts, parse, files, n) == RenameLoop(t, replace, texts, parse, files, m)
    decreases n
  {
    if m < n {
      RenameLoopAfterCrash(t, replace, texts, parse, files, m, n - 1);
    }
  }

  /**
   * `process_pdf(pdf_file, directory)`: make the output directory, run the
   * first pass over `pages` (the text and links one PDF library extracts),
   * then rename page by page over `texts` (the text the other one
   * extracts); what it returns is the calls made and what stopped it, if
   * anything.
   */
  function ProcessResult(t: Tree, replace: bool, pages: seq<Page>, texts: seq<string>,
                         parse: string -> Result<PageFields, Crash>, directory: Path,
                         fetch: string -> Bytes, completion: seq<nat>): (Tree, seq<RenameCall>, Option<Failure>)
  {
    var (t1, err) := MakeDirsResult(t, directory);
    if err.Some? then (t1, [], Some(OsFailure(err.value)))
    else
      var (t2, r) := DownloadAllResult(t1, pages, parse, directory, fetch, completion);
      if r.Err? then (t2, [], Some(r.error))
      else
        var (t3, calls, crash) := RenameLoop(t2, replace, texts, parse, r.value, |texts|);
        (t3, calls, if crash.Some? then Some(ParseFailure(crash.value)) else None)
  }

  /** The page loop of `process_pdf`, reading each page's text again with `parse`. */
  method RenamePages(disk: Disk, texts: seq<string>, parse: string -> Result<PageFields, Crash>, files: map<nat, FilePath>)
    returns (calls: seq<RenameCall>, crash: Option<Crash>)
    requires disk.Valid()
    modifies disk
    ensures disk.Valid()
    ensures (disk.Snapshot(), calls, crash) == RenameLoop(old(disk.Snapshot()), disk.replaceOnRename, texts, parse, files, |texts|)
  {
    calls := [];
    crash := None;
    for pageNumber := 1 to |texts| + 1
      invariant disk.Valid()
      invariant (disk.Snapshot(), calls, None) == RenameLoop(old(disk.Snapshot()), disk.replaceOnRename, texts, parse, files, pageNumber - 1)
    {
      var fields := parse(texts[pageNumber - 1]);
      if fields.Err? {
        crash := Some(fields.error);
        RenameLoopAfterCrash(old(disk.Snapshot()), disk.replaceOnRename, texts, parse, files, pageNumber, |texts|);
        return;
      }
      var f := fields.value;
      if pageNumber in files {
        var report := RenameJpeg(disk, files[pageNumber], pageNumber, f.description, f.uploadedBy, f.takenDate, f.jobNumber);
        calls := calls + [RenameCall(pageNumber, files[pageNumber], report)];
      }
    }
  }

  /** `process_pdf(pdf_file, directory)` */
  method ProcessPdf(disk: Disk, pages: seq<Page>, texts: seq<string>, directory: Path, fetch: string -> Bytes, completion: seq<nat>)
    returns (calls: seq<RenameCall>, failure: Option<Failure>)
    requires disk.Valid()
    modifies disk
    ensures disk.Valid()
    ensures (disk.Snapshot(), calls, failure) ==
      ProcessResult(old(disk.Snapshot()), disk.replaceOnRename, pages, texts, ParseTextToFields, directory, fetch, completion)
  {
    var err := disk.MakeDirs(directory);
    if err.Some? {
      return [], Some(OsFailure(err.value));
    }
    var jpegFiles := DownloadJpegsFromPdf(disk, pages, directory, fetch, completion);
    if jpegFiles.Err? {
      return [], Some(jpegFiles.error);
    }
    var crash;
    calls, crash := RenamePages(disk, texts, ParseTextToFields, jpegFiles.value);
    failure := if crash.Some? then Some(ParseFailure(crash.value)) else None;
  }

  /**
   * `calls` renames, in ascending page order, exactly the pages up to
   * `|texts|` that have a hyperlink, each on the file its downloads wrote.
   */
  ghost predicate CallsForLinkedPages(pages: seq<Page>, texts: seq<string>, parse: string -> Result<PageFields, Crash>,
                                      directory: Path, calls: seq<RenameCall>) {
    (forall k, l :: 0 <= k < l < |calls| ==> calls[k].page < calls[l].page) &&
    (forall p: nat :: p in CallPages(calls) <==> p <= |texts| && HasLinks(pages, |pages|, p)) &&
    (forall k :: 0 <= k < |calls| ==>
      HasLinks(pages, |pages|, calls[k].page) && parse(pages[calls[k].page - 1].text).Ok? &&
      calls[k].oldFile == DownloadPath(directory, Title(parse, pages[calls[k].page - 1]), calls[k].page))
  }

  /** The page loop over a first pass's map calls `rename_jpeg` for the linked pages, in order. */
  lemma LoopCallsLinkedPages(t: Tree, replace: bool, pages: seq<Page>, texts: seq<string>,
                             parse: string -> Result<PageFields, Crash>, directory: Path, files: map<nat, FilePath>)
    requires FilesOfLinkedPages(pages, parse, directory, files)
    ensures var (t', calls, crash) := RenameLoop(t, replace, texts, parse, files, |texts|);
      crash.None? ==> CallsForLinkedPages(pages, texts, parse, directory, calls)
  {
    RenameLoopCalls(t, replace, texts, parse, files, |texts|);
    var (t', calls, crash) := RenameLoop(t, replace, texts, parse, files, |texts|);
    if crash.None? {
      CallsOnKeyPages(pages, texts, parse, directory, files, calls);
    }
  }

  /** Calls made on the key pages, in order, each with its page's file, are the calls for the linked pages. */
  lemma CallsOnKeyPages(pages: seq<Page>, texts: seq<string>, parse: string -> Result<PageFields, Crash>,
                        directory: Path, files: map<nat, FilePath>, calls: seq<RenameCall>)
    requires FilesOfLinkedPages(pages, parse, directory, files)
    requires CallPages(calls) == KeyPages(files, |texts|)
    requires forall k :: 0 <= k < |calls| ==> calls[k].page in files && calls[k].oldFile == files[calls[k].page]
    ensures CallsForLinkedPages(pages, texts, parse, directory, calls)
  {
    KeyPagesFacts(files, |texts|);
    var ks := CallPages(calls);
    assert forall k :: 0 <= k < |calls| ==> ks[k] == calls[k].page;
    forall k, l | 0 <= k < l < |calls| ensures calls[k].page < calls[l].page {
      assert ks[k] < ks[l];
    }
  }

  /**
   * What `process_pdf` achieves when nothing stops it: one `rename_jpeg`
   * call per page that has a hyperlink (and is within the second pass's page
   * count), in ascending page order, each on the file that page's
   * downloads wrote; every other page is skipped.
   */
  lemma ProcessRenamesLinkedPages(t: Tree, replace: bool, pages: seq<Page>, texts: seq<string>,
                                  parse: string -> Result<PageFields, Crash>, directory: Path,
                                  fetch: string -> Bytes, completion: seq<nat>)
    requires WellFormed(t) && CompletionOrder(pages, completion)
    ensures var (t', calls, failure) := ProcessResult(t, replace, pages, texts, parse, directory, fetch, completion);
      WellFormed(t') && (failure.None? ==> CallsForLinkedPages(pages, texts, parse, directory, calls))
  {
    MakeDirsKeepsTree(t, directory);
    var (t1, err) := MakeDirsResult(t, directory);
    if err.None? {
      DownloadedPages(t1, pages, parse, directory, fetch, completion);
      var (t2, r) := DownloadAllResult(t1, pages, parse, directory, fetch, completion);
      if r.Ok? {
        RenameLoopKeepsTree(t2, replace, texts, parse, r.value, |texts|);
        LoopCallsLinkedPages(t2, replace, pages, texts, parse, directory, r.value);
      }
    }
  }
}
