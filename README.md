# scrape_web_to_md: file naming and the sequential crawl loop

A model of the core of `examples/scrape_web_to_md.py`, a script that crawls
every page listed in a sitemap with one browser session and saves each page's
markdown and raw HTML to two files in an output directory.

Two parts are modelled.

- `naming.dfy`, module `Naming`: the file name derived from a page URL,
  `url.replace('/', '_').replace(':', '_')`, and the domain extracted from it,
  `url.replace('https://', '').replace('http://', '').split('/')[0]`. Python's
  `str.replace` and `str.split(sep)[0]` are modelled first (`Replace`,
  `BeforeFirst`). The file name is built from the whole URL, scheme included:
  `https://example.com/a` becomes `https___example.com_a`, not
  `example.com_a`. The code at line 44 replaces characters and strips nothing,
  and the model follows the code.
- `crawl.dfy`, module `Crawl`: `crawl_sequential`. The crawler is a class that
  keeps its lifecycle (created, started, closed), how often it was closed, and
  the calls it received, in order. What each crawl call returns or raises is
  an input, and so is how each artifact write ends: done, failed at `open`
  (the file is untouched), or failed after `open` had truncated the file
  (it keeps the prefix written so far, possibly nothing). The output directory
  is a class holding a map from path to file contents. `CrawlSequential` runs
  the loop over these objects with a `while` loop, a `break` for an exception
  that escapes a crawl call, and the `finally` close after the loop. Its
  contract ties the final directory to `SaveAll`, a left-to-right fold of
  `SaveOne`, the effect of one iteration. The lemmas about `SaveOne` and
  `SaveAll` state the properties the script relies on: failures write
  nothing, the two writes are independent, later writes overwrite, and a
  re-run changes nothing.

## Model

| member | source | states |
|---|---|---|
| `Naming.Replace` | examples/scrape_web_to_md.py:41-44 | Python's `str.replace`: replacing by a string of the same length keeps the length, by a shorter one never lengthens; `ReplaceCharPointwise` characterises it for single characters |
| `Naming.BeforeFirst` | examples/scrape_web_to_md.py:41 | `split(sep)[0]` is a prefix of the text without `sep`, and is either the whole text or stops right before a `sep` |
| `Naming.ReplaceCharPointwise` | examples/scrape_web_to_md.py:44 | replacing one character by one character keeps the length and changes exactly the positions holding that character |
| `Naming.Filename` | examples/scrape_web_to_md.py:44 | the file name has the URL's length; position by position, `/` and `:` become `_` and every other character is kept; it holds no `/` and no `:` |
| `Naming.FilenamePlain` | examples/scrape_web_to_md.py:44 | a name holding neither `/` nor `:` is its own file name |
| `Naming.FilenameIdempotent` | examples/scrape_web_to_md.py:44 | deriving a file name from a file name gives it back unchanged |
| `Naming.FilenameConcat` | examples/scrape_web_to_md.py:44 | the file name of a concatenation is the concatenation of the file names |
| `Naming.FilenameOfHttpsUrl` | examples/scrape_web_to_md.py:44 | for `https://host/path` with separator-free host and path, the name is `https___host_path`: the scheme is kept |
| `Naming.FilenameExample` | examples/scrape_web_to_md.py:44 | `https://example.com/a` becomes `https___example.com_a` |
| `Naming.FilenameCollision` | examples/scrape_web_to_md.py:44 | two different URLs (`.../a:b` and `.../a/b`) get the same file name |
| `Naming.Stripped` | examples/scrape_web_to_md.py:41 | removing `https://` and then `http://` never lengthens the URL; `DomainOfHttpsUrl` and `DomainOfHttpUrl` say what it leaves of a URL with a scheme |
| `Naming.Domain` | examples/scrape_web_to_md.py:41 | the domain holds no `/`, is a prefix of the URL with the scheme strings removed, and ends there or right before its first `/` |
| `Naming.DomainOfHttpsUrl` | examples/scrape_web_to_md.py:41 | the domain of `https://host` followed by nothing or a `/...` path is the host, for any host without `/` that does not end in `:`, a `host:port` included |
| `Naming.DomainOfHttpUrl` | examples/scrape_web_to_md.py:41 | the same for `http://host...`: the first removal finds no `https://` and the second strips the scheme |
| `Naming.DomainWithPort` | examples/scrape_web_to_md.py:41 | the domain of `https://example.com:8080/a` is `example.com:8080`: the port is kept |
| `Naming.DomainAfterChainedRemoval` | examples/scrape_web_to_md.py:41 | removing `https://` can form a new `https://` that is then kept, so the domain of `hhttps://ttps://x...` is `https:` |
| `Crawl.MarkdownPath` | examples/scrape_web_to_md.py:48 | the markdown path is the output directory, a `/`, the file name at a known position, then the text `_markdown.txt`; a file name without `/` names a file directly inside the output directory |
| `Crawl.HtmlPath` | examples/scrape_web_to_md.py:56 | the same layout, ending in the text `_html.txt` |
| `Crawl.ArtifactPathsDistinct` | examples/scrape_web_to_md.py:48-56 | a markdown path never equals an html path, whatever the two file names |
| `Crawl.ArtifactPathsInjective` | examples/scrape_web_to_md.py:48-56 | equal markdown paths, or equal html paths, come from equal file names |
| `Crawl.AfterWrite` | examples/scrape_web_to_md.py:47-60 | a write that got past `open` leaves a prefix of the contents in the file: all of them when it is done, as many characters as were written when it is interrupted |
| `Crawl.WriteFile` | examples/scrape_web_to_md.py:47-60 | one write whose `open` fails leaves the directory as it was; otherwise its path holds what was written, it is the only key added, and every other path keeps its contents |
| `Crawl.SaveOne` | examples/scrape_web_to_md.py:37-63 | one iteration sets exactly the paths whose `open` succeeded to what was written, leaves every other path as it was, and removes no file |
| `Crawl.SaveAll` | examples/scrape_web_to_md.py:31-63 | the loop's effect on the directory, iteration after iteration; it never removes a file; `LastWriteWins` and `UnwrittenUnchanged` characterise each path |
| `Crawl.FirstRaise` | examples/scrape_web_to_md.py:29-36 | the number of iterations before the first crawl call that raises: every earlier call returns, and the call at that index raises |
| `Crawl.FailedResultWritesNothing` | examples/scrape_web_to_md.py:62-63 | a failed crawl result leaves the directory unchanged |
| `Crawl.SilentVisitKeepsFiles` | examples/scrape_web_to_md.py:37-63 | an iteration that writes no path leaves the directory unchanged |
| `Crawl.SuccessSetsBothArtifacts` | examples/scrape_web_to_md.py:47-60 | a successful result whose two writes are done sets the markdown path to the markdown and the html path to the html, adds no other key, and changes no other path |
| `Crawl.HtmlWrittenDespiteMarkdownFailure` | examples/scrape_web_to_md.py:47-60 | when the markdown write fails, the html file is still written; the markdown path keeps its old state if `open` failed, and otherwise holds a prefix of the markdown, empty when nothing was written (as when `markdown_v2` is `None`) |
| `Crawl.SkipSilentVisit` | examples/scrape_web_to_md.py:31-63 | removing an iteration that writes nothing from the input gives the same final directory: one failure does not disturb the other pages |
| `Crawl.LastWriteWins` | examples/scrape_web_to_md.py:44-60 | a path holds what the last iteration that wrote it wrote |
| `Crawl.UnwrittenUnchanged` | examples/scrape_web_to_md.py:31-63 | a path that no iteration writes is as it was before the loop |
| `Crawl.LaterUrlOverwrites` | examples/scrape_web_to_md.py:44-60 | when two URLs share a file name, both artifacts hold the later page's contents |
| `Crawl.SaveOneOverlay` | examples/scrape_web_to_md.py:47-60 | what one iteration writes does not depend on what the directory held |
| `Crawl.SaveAllOverlay` | examples/scrape_web_to_md.py:31-63 | the final directory is the initial one overlaid with what the loop writes into an empty directory |
| `Crawl.RerunIsIdempotent` | examples/scrape_web_to_md.py:48-57 | running the loop again over the same URLs and results leaves every file as the first run left it (writes overwrite, they do not append) |
| `Crawl.TwoSuccessfulPages` | examples/scrape_web_to_md.py:31-60 | two successful pages with different file names, both writes done, produce exactly their four artifact files in an empty directory, holding their markdown and html |
| `Crawl.TwoPageScenario` | examples/scrape_web_to_md.py:31-60 | two successful pages `https://host/a` and `https://host/b` produce exactly four files, named with the scheme kept, holding their markdown and html |
| `Crawl.Crawler.constructor` | examples/scrape_web_to_md.py:27 | a new crawler is not started, has not been closed and has received no call |
| `Crawl.Crawler.Start` | examples/scrape_web_to_md.py:28 | starting moves the crawler from created to started and changes nothing else |
| `Crawl.Crawler.Arun` | examples/scrape_web_to_md.py:32-36 | a crawl call on a started crawler is appended to its calls and yields the given visit |
| `Crawl.Crawler.Close` | examples/scrape_web_to_md.py:66 | closing a started crawler makes it closed and adds one to its close count |
| `Crawl.Directory.Write` | examples/scrape_web_to_md.py:47-60 | once `open` in mode `"w"` succeeds the file holds what was written, whatever it held before: all the contents, or the prefix written before an exception; when `open` raises, nothing changes; the exception is caught either way |
| `Crawl.CrawlSequential` | examples/scrape_web_to_md.py:12-66 | the crawler receives the URLs in input order, all under session id `session1`, up to and including the first call that raises; the directory ends as `SaveAll` over the iterations before that call; the run completes or propagates that call's exception; the crawler ends closed, closed exactly once on both paths |

## Left out

- Fetching and parsing the sitemap (`get_pydantic_ai_docs_urls`, lines 68-92): network I/O and XML parsing by library code. The URL list is an input.
- `main` (lines 94-103): the `asyncio` entry point and its empty-list check.
- Browser and run configuration (lines 14-21): options handed to the crawling library, with no effect on the modelled logic.
- Creating the output directory (line 24): the directory is taken as existing. Its paths are the map's keys, formatted as the script formats them, with no path normalisation.
- All `print` logging, including the failure line with the URL and error message: the log text is not modelled. `CrawlResult.errorMessage` is carried but only logged by the script.
- The crawling library's own behaviour (rendering, markdown conversion, sessions): each call's result, or exception, is an input. Exceptions raised by `start` or `close` themselves are not modelled.
- How much an interrupted write got onto the disk is an input (`Crawl.WriteOutcome.Interrupted`). Buffering and UTF-8 encoding are not modelled: a file holds characters, not bytes.
- `Naming.Replace`: models Python's `str.replace` only for a non-empty pattern. The script only calls it with non-empty patterns.
- Concurrency: the script is `async` but awaits each call in turn; the model is sequential.
