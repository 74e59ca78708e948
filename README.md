# OptiSigns help-centre sync: change detection and delta upload

This project is a Dafny model of the incremental pipeline that keeps an
OpenAI vector store in step with the OptiSigns Zendesk help centre. The
pipeline has four parts:

- **Listing.** `OptiSignsScraper.fetch_articles_list` pages through the
  article catalog until a page stops the walk (module `ScraperListing`,
  `listing.dfy`).
- **Normalisation.** `OptiSignsScraper.clean_html_to_markdown` has three
  stages after the HTML-to-Markdown conversion (module `ScraperMarkdown`,
  `markdown.dfy`):
  - it collapses each run of blank lines to its first line;
  - it strips the text;
  - it prefixes the header `Article URL: {url}\n\n`.

  `scrape_article` turns a fetched article into Markdown and its hash. It
  rejects missing bodies and header-only "stubs" (module `ScraperEngine`,
  `engine.dfy`).
- **Change detection.** `OptiSignsScraper.scrape_all` classifies the first
  `limit` catalog entries as added, updated, unchanged or failed. It compares
  their content hash with the persisted metadata, keyed by article id. While
  doing so it:
  - rewrites the metadata;
  - writes the article files;
  - collects the delta list of `"{id}.md"` names (module `ScraperEngine`).
- **Delta upload.** `VectorStoreManager.upload_delta_files` and
  `upload_all_articles` register each file and then attach it to the vector
  store, counting the outcomes (module `VectorStore`, `vectorstore.dfy`).

Module `Text` (`text.dfy`) spells out the Python string built-ins the code
relies on: `strip`, `split('\n')`, `'\n'.join`, `endswith` and the slice
`[:n]`. Module `Wrappers` (`wrappers.dfy`) holds `Option`.

The loops of the source are written as Dafny methods with loops. Each method
is proved equal to a recursive specification function, and the properties
are lemmas about those functions:

- `CleanHtmlToMarkdown` is proved against `Normalized`.
- `FetchArticlesList` is proved against `Listing`.
- `ScrapeArticles`, `ScrapeCatalog` and `ScrapeAll` are proved against the
  fold `Run` of `Step`.
- `UploadFiles` is proved against `Calls`, `UploadedCount` and
  `FailedCount`.

The outside world comes in as parameters:

- **Page listing.** The server's answers to the page requests are a
  `seq<PageResponse>`.
- **Item fetches.** The item endpoint's answers, each paired with the clock
  reading `datetime.now()`, are a `seq<Fetch>`.
- **Uploads.** The answers to the upload and attach requests are a
  `seq<Reply>`.
- **Files and metadata.** The metadata file and the article directory are
  maps passed in and returned. The metadata is `map<string, Record>`. The
  article cache is `map<string, string>`, from file name to content.
- **Opaque libraries.** The HTML-to-Markdown conversion and MD5 are the
  function fields of `Env`.

The uploader's attempts are returned as a trace of `Call`s. An `Upload` entry
records a call of `upload_file`, which may fail before any request goes out
(for example when the file cannot be opened); `Attach` and `Inspect` entries
are requests sent.

## Model

| member | source | states |
|---|---|---|
| Text.StripFacts | scraper.py:121 | `strip` removes a whitespace prefix and a whitespace suffix (Python's `isspace` set) and nothing else. The rest starts and ends with a non-space. The result is empty exactly when the line is all whitespace. |
| Text.JoinSplit | scraper.py:120-131 | `'\n'.join(s.split('\n'))` gives back `s`. |
| Text.SplitJoin | scraper.py:120-131 | Splitting the join of newline-free lines gives back those lines. |
| Text.JoinAllSpace | scraper.py:131 | The join of some lines is all whitespace exactly when every line is. |
| Text.SlicePrefix | scraper.py:188 | `s[:n]` is a prefix of `s`. Its length is `min(n, len(s))` for `n >= 0`, and `len(s) + n` (floored at 0) for negative `n`. |
| ScraperMarkdown.BlankIsStripEmpty | scraper.py:121 | The model's notion of a blank line is exactly `not line.strip()`. |
| ScraperMarkdown.CleanHtmlToMarkdown | scraper.py:101-136 | The `prev_empty` loop, the join, the strip and the header compute `Normalized`. A missing or empty body gives `""`. |
| ScraperMarkdown.CollapseNoDoubleBlank | scraper.py:117-129 | The collapsed lines never contain two consecutive blank lines. |
| ScraperMarkdown.CollapseLast | scraper.py:123-129 | A non-empty input gives a non-empty output. Its last line is blank exactly when the input's last line is. |
| ScraperMarkdown.CollapseKeepsText | scraper.py:120-129 | The lines with text are kept unchanged and in their original order. |
| ScraperMarkdown.CollapseOnlyDrops | scraper.py:117-129 | The output is a sub-multiset of the input: lines are dropped, never made up. |
| ScraperMarkdown.CollapseFixesCollapsed | scraper.py:117-129 | Input without a doubled blank line passes through unchanged. |
| ScraperMarkdown.CollapseIdempotent | scraper.py:117-129 | Collapsing the collapsed lines changes nothing. |
| ScraperMarkdown.NonBlankEmpty | scraper.py:121-129 | No line has text exactly when every line is blank. |
| ScraperMarkdown.CollapseIgnoresExtraBlank | scraper.py:123-126 | A second blank line inserted right after a blank line is removed: the collapse of the longer input equals the collapse of the shorter one. |
| ScraperMarkdown.NormalizedShape | scraper.py:101-136 | A missing or empty body gives `""`. Any other body gives a non-empty text that starts with `Article URL: {url}\n\n`. That text equals the bare header exactly when the converted body is all whitespace. |
| ScraperMarkdown.NormalizedIgnoresExtraBlank | scraper.py:114-136 | Two converter outputs that differ by one doubled blank line give the same article text, hence the same hash. |
| ScraperListing.FetchArticlesList | scraper.py:43-83 | The `while True` loop returns `Listing(pages)`. It stops at the first exception, non-200 status, empty page or missing `next_page`. |
| ScraperListing.FirstStop | scraper.py:50-80 | The index of the first page that ends the walk. Every earlier page continues it. |
| ScraperListing.ListingIsAcceptedPages | scraper.py:57-75 | The catalog is the articles of all pages before the first stop, in order. It also gets the stopping page's articles when that page was a successful page without a `next_page`. |
| ScraperListing.FailureKeepsAccumulated | scraper.py:57-80 | An exception or non-200 status at page `j` keeps exactly the articles gathered before `j`. Nothing is discarded. |
| ScraperEngine.ScrapeArticle | scraper.py:138-164 | Returns `Scraped(...)`. A returned record's hash is the digest of its full Markdown, header included. |
| ScraperEngine.ScrapedSucceeds | scraper.py:143-159 | An item succeeds exactly when the fetch gave an article whose body is present, non-empty, and converts to something other than whitespace. On success the hash is `md5(markdown)`, the URL is the article's `html_url`, the Markdown starts with the header, and `scraped_at` is the clock reading. |
| ScraperEngine.StepTransition | scraper.py:205-237 | A new id gets a full record (`hash`, `url`, `title`, `filename = id + ".md"`, `last_updated`), its file is written and its name is appended to the delta. A changed hash rewrites only `hash` and `last_updated`, writes the file and appends the name. Unchanged and failed items change no metadata, file or delta entry. No other id is touched. |
| ScraperEngine.RecordItem | scraper.py:205-237 | One loop pass after `scrape_article` returns: the new counters, metadata, files and delta list are `Step` of the old ones. |
| ScraperEngine.RunCountsEveryItem | scraper.py:193-239 | Every processed item raises exactly one of the four counters. |
| ScraperEngine.RunDeltaLength | scraper.py:205-237 | The delta list grows by one entry per item counted as added or updated. |
| ScraperEngine.RunDeltaIsChangedFiles | scraper.py:210-237 | The delta list is exactly the `"{id}.md"` names of the added and updated items, in processing order. |
| ScraperEngine.RunFailures | scraper.py:203-208 | The failure count is the number of items `scrape_article` rejected, whatever the metadata holds. |
| ScraperEngine.RunKeys | scraper.py:213-236 | The ids on record afterwards are the old ones plus the successfully scraped ones. An existing record's `url`, `title` and `filename` never change. |
| ScraperEngine.RunKeepsFileNames | scraper.py:210-236 | If every record's `filename` is `id + ".md"` before the run, that still holds after it. |
| ScraperEngine.RunLeavesOthers | scraper.py:213-236 | An id that no processed item carries keeps its record. |
| ScraperEngine.RunQuiet | scraper.py:213-225 | A run is quiet when every scraped item is on record with the same hash. Then nothing is added or updated, and metadata, files and delta are unchanged. |
| ScraperEngine.RunRecordsHashes | scraper.py:213-236 | When all successful scrapes of each id agree on the hash (as they do when no id repeats), every scraped item ends up on record with its own hash. |
| ScraperEngine.RunCountsOutcomes | scraper.py:205-228 | `added`, `updated`, `skipped` and `failed` each grow by the number of items classified Added, Updated, Unchanged and Failed respectively. |
| ScraperEngine.SecondRunIsQuiet | scraper.py:205-237 | Take a first run in which all successful scrapes of each id agree on the hash; an id listed twice is allowed. A re-run over the same ids in the same order then adds and updates nothing, writes nothing and yields an empty delta. This holds whenever every item the re-run scrapes was scraped the first time with the same hash; the clock readings may differ. |
| ScraperEngine.ScrapeArticles | scraper.py:192-241 | The `for` loop over the entries to scrape equals `Run` over the scraped items. The four counters add up to the number of entries. The delta length is `added + updated`. |
| ScraperEngine.ScrapeCatalog | scraper.py:183-241 | An empty catalog returns zero counters, an empty delta and untouched metadata and files. Otherwise only `all_articles[:limit]` are processed, with the guarantees of `ScrapeArticles`. |
| ScraperEngine.ScrapeAll | scraper.py:173-254 | The same guarantees for the catalog as listed by `FetchArticlesList`. |
| VectorStore.UploadFiles | vector_store_manager.py:148-175 | The register-then-attach loop, which `upload_all_articles` repeats at lines 92-119: `continue` after a refused upload, attach otherwise. `uploaded` is the number of files whose two steps both succeeded and `failed` the number of the rest, with `uploaded + failed` the number of files. The requests sent are `Calls(names, replies)`. |
| VectorStore.UploadDeltaFiles | vector_store_manager.py:140-181 | An empty list returns `{0, 0, 0}` and sends no request. Otherwise the result is the loop's counts with `total` the number of names, and `uploaded + failed == total`. |
| VectorStore.UploadAllArticles | vector_store_manager.py:74-138 | A missing directory, or one without `.md` names, returns `None` and sends nothing. Otherwise only the `.md` names are uploaded, with the loop's counts and `total` their number. The statistics query is sent exactly when something was uploaded. |
| VectorStore.UploadedPlusFailed | vector_store_manager.py:158-173 | Every file is counted exactly once, as uploaded or as failed. |
| VectorStore.FailedIsRejectedOrOrphaned | vector_store_manager.py:158-173 | The failures are the refused uploads plus the registered files whose attach failed; the latter stay registered with nothing deleted. The registered files are the uploaded ones plus those orphans. |
| VectorStore.CountsAppend | vector_store_manager.py:151-175 | Outcomes are per file: the counts over two batches add up. |
| VectorStore.CallsAppend | vector_store_manager.py:151-175 | The requests for two batches are the requests of each batch, concatenated. Each file's requests depend only on its own replies. |
| VectorStore.FileCallsShape | vector_store_manager.py:156-166 | A file's requests are its upload, then one attach when and only when it was registered. |
| VectorStore.UploadsInOrder | vector_store_manager.py:151-156 | Every file is uploaded exactly once, in input order. |
| VectorStore.AttachOnlyAfterUpload | vector_store_manager.py:156-166 | An attach request always comes right after an upload request. |
| VectorStore.AttachPerRegistration | vector_store_manager.py:158-166 | There is exactly one attach request per registered file. |
| VectorStore.MarkdownFilesExact | vector_store_manager.py:81-83 | The filter keeps exactly the names ending in `.md`, and never more names than the listing has. |

## Left out

- HTTP requests, timeouts and exceptions are not modelled as such. Each request is an input answer:
  - A `PageResponse` (with `Raised` for an exception) for each catalog page.
  - A `Fetch` whose article is `None` for any failed or empty item response.
  - A `Reply` for each file upload and attach.
- The inputs are finite sequences:
  - `ScraperListing.FetchArticlesList` requires that some page in the sequence stops the walk. The real loop could page forever against a server that always announces a next page.
  - `ScrapeAll` and the upload methods require one answer per entry or file.
- `per_page` and the page numbers in the URL are not modelled. Page `k + 1` is answered by `pages[k]`.
- BeautifulSoup's removal of `script`, `style`, `meta` and `link` tags and `html2text.handle` are one opaque function, `Env.toMarkdown`, because they are foreign libraries.
- MD5 (`get_article_hash`) is the opaque function `Env.md5`.
- File I/O is not modelled:
  - `load_metadata` and `save_metadata` are replaced by the metadata map passed in and returned.
  - `save_article` is an update of the file-name-to-content cache map.
  - `os.makedirs`, `os.listdir` and `os.path.exists` are not modelled; `upload_all_articles` receives the listing, or `None` for a missing directory.
- `os.path.join` and `os.path.basename` are not modelled. A file is named by its file name, so a name containing a path separator is not treated specially.
- The article file contents read by `upload_file` are not part of the trace: an upload request carries only the file name.
- `datetime.now()` is an input carried by each `Fetch`, and `time.sleep` is left out, since delays have no effect on the results.
- JSON details are not modelled:
  - A catalog entry is reduced to its id as `str(article_info['id'])`; its title only feeds the progress print.
  - The exceptions `scrape_all` does not catch are not modelled: a catalog entry without an `id` (`KeyError` at scraper.py:198) or with a null `title` (`TypeError` from the slice at scraper.py:197) aborts the loop before `save_metadata`, after earlier article files may already have been written. The model assumes every entry has an id and a string title.
  - A null `html_url` or `title` is taken to be already rendered as a string.
  - A metadata record missing its `hash` key (a `KeyError` in the source) cannot arise, because `Record` always has one.
- The `Article` of a fetch is the already-defaulted view of the `article` object; an empty `{}` object is treated like a missing one, as `not article` does.
- `get_vector_store_info` is only the `Inspect` call in the trace. Its statistics, including the "2.5 chunks per file" estimate, are observability with floating point.
- `VectorStoreManager.__init__` (credentials and environment variables), `upload_file` and `add_file_to_vector_store` are left out beyond the reply they return.
- All printing is left out, and so is `main.py` (the command-line driver, the `--reset` deletion and the summary print).
- The metadata is a local dictionary that `scrape_all` loads, updates in place and saves. It is modelled as a map value threaded through the loop, so in-place aliasing is not represented.

