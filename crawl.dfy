/** `crawl_sequential` of examples/scrape_web_to_md.py (lines 12-66): one
    crawler session, the URLs visited one after the other, and for every
    successful page two artifact files written into the output directory.

    The crawler is reduced to its lifecycle and to the calls it receives; what
    each call returns (or raises) is an input. The output directory is a map
    from path to file contents, and how each write ends is an input too. */
module Crawl {
  import opened Naming

  /** OUTPUT_DIR (line 10). */
  const OutputDir: string := "../pydantic_ai_docs"

  /** The session id shared by every call (line 30). */
  const SessionId: string := "session1"

  /** `f"{OUTPUT_DIR}/{filename}_markdown.txt"` (line 48): the file name,
      after the output directory and its separator, then the suffix. A file
      name without `/` names a file directly inside the output directory. */
  function MarkdownPath(filename: string): (p: string)
    ensures |p| == |OutputDir| + 1 + |filename| + |"_markdown.txt"|
    ensures p[..|OutputDir| + 1] == OutputDir + "/"
    ensures p[|OutputDir| + 1..|OutputDir| + 1 + |filename|] == filename
    ensures p[|OutputDir| + 1 + |filename|..] == "_markdown.txt"
    ensures '/' !in filename ==> '/' !in p[|OutputDir| + 1..]
  {
    OutputDir + "/" + filename + "_markdown.txt"
  }

  /** `f"{OUTPUT_DIR}/{filename}_html.txt"` (line 56), laid out as a markdown
      path is. */
  function HtmlPath(filename: string): (p: string)
    ensures |p| == |OutputDir| + 1 + |filename| + |"_html.txt"|
    ensures p[..|OutputDir| + 1] == OutputDir + "/"
    ensures p[|OutputDir| + 1..|OutputDir| + 1 + |filename|] == filename
    ensures p[|OutputDir| + 1 + |filename|..] == "_html.txt"
    ensures '/' !in filename ==> '/' !in p[|OutputDir| + 1..]
  {
    OutputDir + "/" + filename + "_html.txt"
  }

  /** A markdown path is never an html path, whatever the two file names:
      their last characters differ (`kdown.txt` against `_html.txt`). */
  lemma ArtifactPathsDistinct(f: string, g: string)
    ensures MarkdownPath(f) != HtmlPath(g)
  {
    var m, h := MarkdownPath(f), HtmlPath(g);
    if |m| == |h| {
      assert m[|m| - 9] == 'k' && h[|h| - 9] == '_';
    }
  }

  /** Each kind of artifact path determines the file name it was built from. */
  lemma {:induction false} ArtifactPathsInjective(f: string, g: string)
    ensures MarkdownPath(f) == MarkdownPath(g) ==> f == g
    ensures HtmlPath(f) == HtmlPath(g) ==> f == g
  {
    var pre := OutputDir + "/";
    if MarkdownPath(f) == MarkdownPath(g) {
      assert |f| == |g|;
      assert f == MarkdownPath(f)[|pre|..|pre| + |f|];
      assert g == MarkdownPath(g)[|pre|..|pre| + |g|];
    }
    if HtmlPath(f) == HtmlPath(g) {
      assert |f| == |g|;
      assert f == HtmlPath(f)[|pre|..|pre| + |f|];
      assert g == HtmlPath(g)[|pre|..|pre| + |g|];
    }
  }

  /** What the crawler returns for one page (`result` at lines 32-36). */
  datatype CrawlResult = CrawlResult(success: bool, errorMessage: string, markdown: string, html: string)

  /** How one artifact write, `with open(path, "w") as f: f.write(contents)`
      inside its own `try`/`except`, ends: everything is written; `open`
      raises and the file is left as it was; or `open` has created or
      truncated the file and something raises after `count` characters were
      written. The argument of `f.write` is evaluated after the file is
      opened, so `result.markdown_v2` being `None` (line 49) is
      `Interrupted(0)`: the markdown file is left empty. */
  datatype WriteOutcome = Done | OpenFails | Interrupted(count: nat)

  /** What the file holds after a write of `contents` that got past `open`:
      a prefix of `contents`, all of it when the write is done. */
  function AfterWrite(contents: string, w: WriteOutcome): (r: string)
    requires !w.OpenFails?
    ensures r <= contents
    ensures w.Done? ==> r == contents
    ensures w.Interrupted? ==> |r| == if w.count < |contents| then w.count else |contents|
  {
    if w.Done? || |contents| <= w.count then contents else contents[..w.count]
  }

  /** The directory after one write of `contents` to `path` that ends as `w`
      says: untouched when `open` fails, otherwise `path` holds what was
      written, whatever it held before. */
  function WriteFile(files: map<string, string>, path: string, contents: string, w: WriteOutcome): (r: map<string, string>)
    ensures w.OpenFails? ==> r == files
    ensures !w.OpenFails? ==> path in r && r[path] == AfterWrite(contents, w) && r.Keys == files.Keys + {path}
    ensures forall q :: q != path ==> SameAt(r, files, q)
  {
    if w.OpenFails? then files else files[path := AfterWrite(contents, w)]
  }

  /** What happens on one iteration: the crawl call raises, or it returns a
      result and each of the two artifact writes ends in its own way. */
  datatype Visit =
    | Raises(message: string)
    | Returns(result: CrawlResult, markdownWrite: WriteOutcome, htmlWrite: WriteOutcome)

  /** How `crawl_sequential` ends: normally, or with the exception of a crawl
      call propagating out of the loop after the `finally`. */
  datatype Outcome = Completed | Propagated(message: string)

  /** True when visiting `url` as `visit` leaves `path` holding new contents. */
  predicate SetsPath(url: string, visit: Visit, path: string) {
    visit.Returns? && visit.result.success &&
    ((!visit.markdownWrite.OpenFails? && path == MarkdownPath(Filename(url))) ||
     (!visit.htmlWrite.OpenFails? && path == HtmlPath(Filename(url))))
  }

  /** The contents `path` holds after such a write. */
  function Written(url: string, visit: Visit, path: string): string
    requires SetsPath(url, visit, path)
  {
    if !visit.markdownWrite.OpenFails? && path == MarkdownPath(Filename(url))
    then AfterWrite(visit.result.markdown, visit.markdownWrite)
    else AfterWrite(visit.result.html, visit.htmlWrite)
  }

  /** `path` is absent from both maps, or present in both with equal contents. */
  predicate SameAt(a: map<string, string>, b: map<string, string>, path: string) {
    (path in a <==> path in b) && (path in a ==> a[path] == b[path])
  }

  /** The effect of one iteration of the loop (lines 37-63) on the output
      directory: exactly the paths it writes change, to what is written;
      every other path is left as it was. */
  function SaveOne(files: map<string, string>, url: string, visit: Visit): (r: map<string, string>)
    ensures forall p :: SetsPath(url, visit, p) ==> p in r && r[p] == Written(url, visit, p)
    ensures forall p :: !SetsPath(url, visit, p) ==> SameAt(r, files, p)
    ensures files.Keys <= r.Keys
  {
    if visit.Raises? || !visit.result.success then files
    else
      var filename := Filename(url);
      ArtifactPathsDistinct(filename, filename);
      var afterMarkdown := WriteFile(files, MarkdownPath(filename), visit.result.markdown, visit.markdownWrite);
      WriteFile(afterMarkdown, HtmlPath(filename), visit.result.html, visit.htmlWrite)
  }

  /** The output directory after running the loop body over `urls`, in
      order. A visit that raises counts here as one that writes nothing and
      the fold goes on; the script stops at it instead, so `CrawlSequential`
      applies `SaveAll` only to the iterations before the first raise. The
      fold never deletes a file. */
  function SaveAll(files: map<string, string>, urls: seq<string>, visits: seq<Visit>): (r: map<string, string>)
    requires |visits| == |urls|
    ensures files.Keys <= r.Keys
    decreases |urls|
  {
    if urls == [] then files
    else
      var n := |urls| - 1;
      SaveOne(SaveAll(files, urls[..n], visits[..n]), urls[n], visits[n])
  }

  /** One more iteration of the loop. */
  lemma SaveAllStep(files: map<string, string>, urls: seq<string>, visits: seq<Visit>, i: nat)
    requires |visits| == |urls| && i < |urls|
    ensures SaveAll(files, urls[..i + 1], visits[..i + 1]) ==
            SaveOne(SaveAll(files, urls[..i], visits[..i]), urls[i], visits[i])
  {
    assert urls[..i + 1][..i] == urls[..i] && visits[..i + 1][..i] == visits[..i];
  }

  /** The number of iterations before the first crawl call that raises. */
  function FirstRaise(visits: seq<Visit>): (k: nat)
    ensures k <= |visits|
    ensures forall j :: 0 <= j < k ==> visits[j].Returns?
    ensures k < |visits| ==> visits[k].Raises?
  {
    if visits == [] || visits[0].Raises? then 0 else 1 + FirstRaise(visits[1..])
  }

  /** A failed crawl writes nothing. */
  lemma FailedResultWritesNothing(files: map<string, string>, url: string, visit: Visit)
    requires visit.Returns? && !visit.result.success
    ensures SaveOne(files, url, visit) == files
  {
  }

  /** A successful crawl whose two writes are done sets exactly the markdown
      path to the markdown and the html path to the html. */
  lemma SuccessSetsBothArtifacts(files: map<string, string>, url: string, result: CrawlResult)
    requires result.success
    ensures var r := SaveOne(files, url, Returns(result, Done, Done));
      var md, html := MarkdownPath(Filename(url)), HtmlPath(Filename(url));
      r == files[md := result.markdown][html := result.html] &&
      r.Keys == files.Keys + {md, html} &&
      forall p :: p != md && p != html ==> SameAt(r, files, p)
  {
  }

  /** A failed markdown write does not keep the html artifact from being
      written. The markdown path keeps its old state only when `open` itself
      fails; otherwise it holds a prefix of the markdown, and nothing at all
      when the failure comes before any character is written. */
  lemma HtmlWrittenDespiteMarkdownFailure(files: map<string, string>, url: string, result: CrawlResult, w: WriteOutcome)
    requires result.success && !w.Done?
    ensures var r := SaveOne(files, url, Returns(result, w, Done));
      var md, html := MarkdownPath(Filename(url)), HtmlPath(Filename(url));
      html in r && r[html] == result.html &&
      (w.OpenFails? ==> SameAt(r, files, md)) &&
      (w.Interrupted? ==> md in r && r[md] <= result.markdown && (w.count == 0 ==> r[md] == []))
  {
    ArtifactPathsDistinct(Filename(url), Filename(url));
  }

  /** An iteration that writes no path leaves the directory as it was. */
  lemma SilentVisitKeepsFiles(files: map<string, string>, url: string, visit: Visit)
    requires forall p :: !SetsPath(url, visit, p)
    ensures SaveOne(files, url, visit) == files
  {
    assert !SetsPath(url, visit, MarkdownPath(Filename(url)));
    assert !SetsPath(url, visit, HtmlPath(Filename(url)));
  }

  /** Dropping an iteration that writes nothing does not change the outcome:
      the other pages are saved as if it were not there. */
  lemma {:induction false} SkipSilentVisit(files: map<string, string>, urls: seq<string>, visits: seq<Visit>, i: nat)
    requires |visits| == |urls| && i < |urls|
    requires forall p :: !SetsPath(urls[i], visits[i], p)
    ensures SaveAll(files, urls, visits) ==
            SaveAll(files, urls[..i] + urls[i + 1..], visits[..i] + visits[i + 1..])
    decreases |urls|
  {
    var n := |urls| - 1;
    var before := SaveAll(files, urls[..n], visits[..n]);
    if i == n {
      assert urls[..i] + urls[i + 1..] == urls[..n];
      assert visits[..i] + visits[i + 1..] == visits[..n];
      SilentVisitKeepsFiles(before, urls[n], visits[n]);
    } else {
      var us, vs := urls[..i] + urls[i + 1..], visits[..i] + visits[i + 1..];
      SkipSilentVisit(files, urls[..n], visits[..n], i);
      RemoveBeforeLast(urls, i);
      RemoveBeforeLast(visits, i);
      assert SaveAll(files, us, vs) == SaveOne(SaveAll(files, us[..n - 1], vs[..n - 1]), urls[n], visits[n]);
    }
  }

  /** Removing an element other than the last one keeps the last one last. */
  lemma RemoveBeforeLast<T>(s: seq<T>, i: nat)
    requires i < |s| - 1
    ensures var r, n := s[..i] + s[i + 1..], |s| - 1;
      |r| == n && r[..n - 1] == s[..n][..i] + s[..n][i + 1..] && r[n - 1] == s[n]
  {
  }

  /** The last write to a path decides its contents. */
  lemma {:induction false} LastWriteWins(files: map<string, string>, urls: seq<string>, visits: seq<Visit>, i: nat, p: string)
    requires |visits| == |urls| && i < |urls|
    requires SetsPath(urls[i], visits[i], p)
    requires forall j :: i < j < |urls| ==> !SetsPath(urls[j], visits[j], p)
    ensures p in SaveAll(files, urls, visits)
    ensures SaveAll(files, urls, visits)[p] == Written(urls[i], visits[i], p)
    decreases |urls|
  {
    var n := |urls| - 1;
    if i < n {
      LastWriteWins(files, urls[..n], visits[..n], i, p);
    }
  }

  /** A path no iteration writes is as it was before the loop. */
  lemma {:induction false} UnwrittenUnchanged(files: map<string, string>, urls: seq<string>, visits: seq<Visit>, p: string)
    requires |visits| == |urls|
    requires forall j :: 0 <= j < |urls| ==> !SetsPath(urls[j], visits[j], p)
    ensures SameAt(SaveAll(files, urls, visits), files, p)
    decreases |urls|
  {
    if urls != [] {
      var n := |urls| - 1;
      UnwrittenUnchanged(files, urls[..n], visits[..n], p);
    }
  }

  /** When two URLs share a file name, both artifacts hold what the later one
      produced. */
  lemma LaterUrlOverwrites(files: map<string, string>, u1: string, u2: string, r1: CrawlResult, r2: CrawlResult)
    requires Filename(u1) == Filename(u2)
    requires r2.success
    ensures var r := SaveAll(files, [u1, u2], [Returns(r1, Done, Done), Returns(r2, Done, Done)]);
      r[MarkdownPath(Filename(u1))] == r2.markdown && r[HtmlPath(Filename(u1))] == r2.html
  {
    var urls, visits := [u1, u2], [Returns(r1, Done, Done), Returns(r2, Done, Done)];
    LastWriteWins(files, urls, visits, 1, MarkdownPath(Filename(u1)));
    LastWriteWins(files, urls, visits, 1, HtmlPath(Filename(u1)));
    ArtifactPathsDistinct(Filename(u1), Filename(u1));
  }

  /** What one iteration writes does not depend on what the directory held. */
  lemma SaveOneOverlay(files: map<string, string>, written: map<string, string>, url: string, visit: Visit)
    ensures SaveOne(files + written, url, visit) == files + SaveOne(written, url, visit)
  {
    if visit.Returns? && visit.result.success {
      var filename := Filename(url);
      var md, html := MarkdownPath(filename), HtmlPath(filename);
      WriteFileOverlay(files, written, md, visit.result.markdown, visit.markdownWrite);
      WriteFileOverlay(files, WriteFile(written, md, visit.result.markdown, visit.markdownWrite),
                       html, visit.result.html, visit.htmlWrite);
    }
  }

  /** The same for a single write. */
  lemma WriteFileOverlay(files: map<string, string>, written: map<string, string>, path: string, contents: string, w: WriteOutcome)
    ensures WriteFile(files + written, path, contents, w) == files + WriteFile(written, path, contents, w)
  {
    if !w.OpenFails? {
      var v := AfterWrite(contents, w);
      assert (files + written)[path := v] == files + written[path := v];
    }
  }

  /** The directory after the loop is the directory before it, overlaid with
      what the loop writes into an empty one. */
  lemma {:induction false} SaveAllOverlay(files: map<string, string>, urls: seq<string>, visits: seq<Visit>)
    requires |visits| == |urls|
    ensures SaveAll(files, urls, visits) == files + SaveAll(map[], urls, visits)
    decreases |urls|
  {
    if urls == [] {
      assert files + map[] == files;
    } else {
      var n := |urls| - 1;
      SaveAllOverlay(files, urls[..n], visits[..n]);
      SaveOneOverlay(files, SaveAll(map[], urls[..n], visits[..n]), urls[n], visits[n]);
    }
  }

  /** Running again over the same URLs with the same results leaves every file
      as the first run left it: writes overwrite, they do not append. */
  lemma RerunIsIdempotent(files: map<string, string>, urls: seq<string>, visits: seq<Visit>)
    requires |visits| == |urls|
    ensures SaveAll(SaveAll(files, urls, visits), urls, visits) == SaveAll(files, urls, visits)
  {
    var written := SaveAll(map[], urls, visits);
    SaveAllOverlay(files, urls, visits);
    SaveAllOverlay(files + written, urls, visits);
    assert (files + written) + written == files + written;
  }

  /** Two pages with different file names, crawled with success and both
      writes done, into an empty directory: exactly their four artifacts,
      each holding its page's markdown or html. */
  lemma TwoSuccessfulPages(a: string, b: string, ra: CrawlResult, rb: CrawlResult)
    requires Filename(a) != Filename(b) && ra.success && rb.success
    ensures SaveAll(map[], [a, b], [Returns(ra, Done, Done), Returns(rb, Done, Done)])
         == map[MarkdownPath(Filename(a)) := ra.markdown, HtmlPath(Filename(a)) := ra.html,
                MarkdownPath(Filename(b)) := rb.markdown, HtmlPath(Filename(b)) := rb.html]
  {
    var fa, fb := Filename(a), Filename(b);
    var va, vb := Returns(ra, Done, Done), Returns(rb, Done, Done);
    assert [a, b][..1] == [a] && [va, vb][..1] == [va];
    assert [a][..0] == [] && [va][..0] == [];
    var first := SaveOne(map[], a, va);
    assert first == map[][MarkdownPath(fa) := ra.markdown][HtmlPath(fa) := ra.html];
    assert SaveAll(map[], [], []) == map[];
    assert SaveAll(map[], [a], [va]) == first;
    assert SaveAll(map[], [a, b], [va, vb]) == first[MarkdownPath(fb) := rb.markdown][HtmlPath(fb) := rb.html];
    ArtifactPathsInjective(fa, fb);
    ArtifactPathsDistinct(fa, fb);
    ArtifactPathsDistinct(fb, fa);
  }

  /** Two pages of one site, `https://host/a` and `https://host/b`, crawled
      with success: four files, named after the whole URL with its scheme,
      holding the markdown and the html of each page. */
  lemma TwoPageScenario(host: string, htmlA: string, htmlB: string)
    requires '/' !in host && ':' !in host
    ensures SaveAll(map[], ["https://" + host + "/" + "a", "https://" + host + "/" + "b"],
                    [Returns(CrawlResult(true, "", "# A", htmlA), Done, Done),
                     Returns(CrawlResult(true, "", "# B", htmlB), Done, Done)])
         == map[MarkdownPath("https___" + host + "_" + "a") := "# A",
                HtmlPath("https___" + host + "_" + "a") := htmlA,
                MarkdownPath("https___" + host + "_" + "b") := "# B",
                HtmlPath("https___" + host + "_" + "b") := htmlB]
  {
    var fa, fb := "https___" + host + "_" + "a", "https___" + host + "_" + "b";
    FilenameOfHttpsUrl(host, "a");
    FilenameOfHttpsUrl(host, "b");
    assert fa[|fa| - 1] != fb[|fb| - 1];
    TwoSuccessfulPages("https://" + host + "/" + "a", "https://" + host + "/" + "b",
                       CrawlResult(true, "", "# A", htmlA), CrawlResult(true, "", "# B", htmlB));
  }

  /** A call the crawler received. */
  datatype Call = Call(url: string, sessionId: string)

  /** The calls of a run over `urls`: one per URL, in order, each under the
      shared session id. */
  function SessionCalls(urls: seq<string>): (r: seq<Call>)
    ensures |r| == |urls|
    ensures forall j :: 0 <= j < |urls| ==> r[j] == Call(urls[j], SessionId)
  {
    seq(|urls|, j requires 0 <= j < |urls| => Call(urls[j], SessionId))
  }

  /** One more URL, one more call. */
  lemma SessionCallsStep(urls: seq<string>, i: nat)
    requires i < |urls|
    ensures SessionCalls(urls[..i + 1]) == SessionCalls(urls[..i]) + [Call(urls[i], SessionId)]
  {
    assert urls[..i + 1][..i] == urls[..i];
  }

  /** The lifecycle of the crawler: created (line 27), started (line 28),
      closed (line 66). */
  datatype Phase = Created | Started | Closed

  /** The crawler of lines 27-36 and 66, reduced to its lifecycle and the
      calls it has received, in order. */
  class Crawler {
    var phase: Phase
    var closeCount: nat
    var calls: seq<Call>

    constructor ()
      ensures phase == Created && closeCount == 0 && calls == []
    {
      phase := Created;
      closeCount := 0;
      calls := [];
    }

    /** `await crawler.start()` (line 28). */
    method Start()
      requires phase == Created
      modifies this
      ensures phase == Started && closeCount == old(closeCount) && calls == old(calls)
    {
      phase := Started;
    }

    /** `await crawler.arun(url=url, config=..., session_id=sessionId)`
        (lines 32-36): the call is recorded and `visit` is what it yields. */
    method Arun(url: string, sessionId: string, visit: Visit) returns (r: Visit)
      requires phase == Started
      modifies this
      ensures r == visit
      ensures calls == old(calls) + [Call(url, sessionId)]
      ensures phase == old(phase) && closeCount == old(closeCount)
    {
      calls := calls + [Call(url, sessionId)];
      r := visit;
    }

    /** `await crawler.close()` (line 66). */
    method Close()
      requires phase == Started
      modifies this
      ensures phase == Closed && closeCount == old(closeCount) + 1 && calls == old(calls)
    {
      phase := Closed;
      closeCount := closeCount + 1;
    }
  }

  /** The output directory: the files under it, by path. */
  class Directory {
    var files: map<string, string>

    constructor (files: map<string, string>)
      ensures this.files == files
    {
      this.files := files;
    }

    /** `with open(path, "w") as f: f.write(contents)` inside its own
        `try`/`except` (lines 47-52 and 55-60), ending as `w` says. Once
        `open` has succeeded the file holds what was written, whatever it
        held before: all of `contents`, or the prefix written before the
        failure. When `open` raises, the directory is left as it was. Any
        exception is caught. */
    method Write(path: string, contents: string, w: WriteOutcome)
      modifies this
      ensures files == WriteFile(old(files), path, contents, w)
    {
      if !w.OpenFails? {
        files := files[path := AfterWrite(contents, w)];
      }
    }
  }

  /** `crawl_sequential(urls)` (lines 12-66), with `visits[i]` what the crawl
      call and the writes of the i-th iteration do. The crawler is started
      once, receives the URLs in input order under one session id, and is
      closed exactly once, whether the loop ends normally or a crawl call
      raises. */
  method CrawlSequential(urls: seq<string>, visits: seq<Visit>, dir: Directory)
    returns (outcome: Outcome, crawler: Crawler)
    requires |visits| == |urls|
    modifies dir
    ensures fresh(crawler)
    ensures crawler.phase == Closed && crawler.closeCount == 1
    ensures var k := FirstRaise(visits);
      crawler.calls == SessionCalls(urls[..if k < |urls| then k + 1 else k]) &&
      dir.files == SaveAll(old(dir.files), urls[..k], visits[..k]) &&
      outcome == if k < |urls| then Propagated(visits[k].message) else Completed
  {
    crawler := new Crawler();
    crawler.Start();
    outcome := Completed;
    var i := 0;
    while i < |urls|
      invariant 0 <= i <= |urls| && i <= FirstRaise(visits)
      invariant crawler.phase == Started && crawler.closeCount == 0
      invariant crawler.calls == SessionCalls(urls[..i])
      invariant dir.files == SaveAll(old(dir.files), urls[..i], visits[..i])
      invariant outcome == Completed
    {
      var url := urls[i];
      var visit := crawler.Arun(url, SessionId, visits[i]);
      SessionCallsStep(urls, i);
      if visit.Raises? {
        outcome := Propagated(visit.message);
        break;
      }
      ghost var before := dir.files;
      var result := visit.result;
      if result.success {
        // The script computes the domain (line 41) and never uses it.
        var domain := Domain(url);
        var filename := Filename(url);
        dir.Write(MarkdownPath(filename), result.markdown, visit.markdownWrite);
        dir.Write(HtmlPath(filename), result.html, visit.htmlWrite);
        assert dir.files == SaveOne(before, url, visit);
      } else {
        FailedResultWritesNothing(before, url, visit);
      }
      SaveAllStep(old(dir.files), urls, visits, i);
      i := i + 1;
    }
    assert FirstRaise(visits) == i;
    crawler.Close();
  }
}
