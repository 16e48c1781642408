# NovelAgent pipeline, modelled in Dafny

NovelAgent collects Chinese web novels and translates them into Spanish. It
runs as five sequential, database-backed steps:

- **Enumerator.** `scrape_all_novels_sequential.py` probes
  `https://twkan.com/book/{id}.html` for consecutive ids. It stores every
  novel it finds and stops after a run of misses. It commits and writes a
  JSON checkpoint every batch, at the end of the run and after an error. Its
  interrupt handler would do the same on Ctrl-C, but under `asyncio.run` the
  interrupt bypasses that handler (see Findings).
- **Catalog walker.** `scrape_novel_catalog.py` walks the catalog pages and
  collects the novel links, the first occurrence of each URL winning. It then
  inserts the URLs the store does not hold yet, all in one commit.
- **Chapter discoverer.** `app/services/discovery.py` renders each novel's
  page and selects its chapter links. For each novel it inserts up to ten new
  chapters and commits or rolls back.
- **Content extractor.** `app/services/scraper.py` picks the longest block
  with fewer than five links. It fills in the content of up to five chapters
  that have none, provided the stripped text exceeds 800 characters.
- **Translator.** `app/services/translator.py` sends up to three chapters
  with content but no translation row to Gemini. It stores each answer as a
  'es' / 'completado' row and sets the chapter's `enviado_traduccion` flag.
  Row and flag are committed or rolled back together.

`worker.py` runs discovery, extraction and translation in one `try` block per
cycle.

The project has one module per source file:

| module | models |
|---|---|
| `Enumerator` | `enumerator.dfy` |
| `Catalog` | `catalog.dfy` |
| `Discovery` | `discovery.dfy` |
| `Scraper` | `scraper.dfy` |
| `Translator` | `translator.dfy` |
| `Worker` | `worker.dfy` |

Two modules sit underneath them:

- `Store` (`store.dfy`) holds the row shapes of `app/db/models.py` and a
  `Session` class with `committed` and `working` states. A query reads the
  committed state, because the session is created with `autoflush=False`.
- `Common` (`common.dfy`) models the Python string operations the scripts
  use: `strip`, `lower`, `in`, `replace`, `rsplit`, `rstrip` and `str(int)`.

Each step has the same two parts:

- **A specification function.** It gives the committed database, or the
  loop state, after the step. Examples are `Enumerator.Loop`,
  `Catalog.CatalogRun`, `Discovery.Discover`, `Scraper.ScrapePass` and
  `Translator.TranslatePass`. The lemmas about these functions state what
  the step promises.
- **An imperative method or class.** It has the source's loops, and its
  `ensures` ties it to the specification function.

Rows are addressed by position: the row at index `i` has id `i + 1`.

Everything outside the program is a parameter:

- the rendered pages;
- `urljoin` and `urlparse(...).netloc`;
- the Gemini call;
- whether a row construction or a commit raises.

## Model

| member | source | states |
|---|---|---|
| Store.FindSource | app/services/discovery.py:27-32 | The source chosen is the first whose `url_base` contains the domain; None exactly when no source's `url_base` contains it. |
| Store.Session.constructor | app/db/database.py:21 | A new session starts with its working state equal to the committed database. |
| Store.Session.AddNovel | scrape_all_novels_sequential.py:144 | `db.add` of a novel appends it to the working state only; the committed state is unchanged. |
| Store.Session.AddChapter | app/services/discovery.py:113 | `db.add` of a chapter appends it to the working state only. |
| Store.Session.AddTranslation | app/services/translator.py:67 | `db.add` of a translation appends it to the working state only. |
| Store.Session.SetContent | app/services/scraper.py:81 | Assigning `contenido_original` changes that chapter in the working state only. |
| Store.Session.MarkSent | app/services/translator.py:69 | Setting `enviado_traduccion` changes that chapter in the working state only. |
| Store.Session.Commit | app/services/discovery.py:116 | A commit raises exactly when it fails; it publishes the working state, or leaves the committed state as it was when it raised. |
| Store.Session.Rollback | app/services/discovery.py:119-121 | A rollback discards the working state back to the committed one. |
| Common.Strip | scrape_all_novels_sequential.py:71 | `str.strip`: never longer, with no whitespace left at either end. |
| Common.StripSlice | scrape_all_novels_sequential.py:71 | The stripped text is a slice of the input with only whitespace cut off each side. |
| Common.StripFixed | app/services/scraper.py:47 | Stripping text that has no whitespace at either end leaves it unchanged. |
| Common.Lower | scrape_all_novels_sequential.py:74 | `str.lower` maps each character on its own and keeps the length. |
| Common.LastIndex | scrape_novel_catalog.py:51 | The position `rsplit('_', 1)` splits at is the last occurrence of the character, None when there is none. |
| Common.BeforeLastSplit | scrape_novel_catalog.py:51 | `rsplit(c, 1)[0]` of `s + c + t`, for `t` without `c`, is `s`. |
| Common.TrimEnd | scrape_novel_catalog.py:55 | `rstrip('/')` is a prefix that does not end in '/'. |
| Common.IntToString | scrape_all_novels_sequential.py:52 | `str(int)` is a non-empty run of digits, led by '-' exactly for negative numbers. |
| Common.IntToStringInjective | scrape_all_novels_sequential.py:52 | Distinct ids print as distinct strings. |
| Common.Utf16Length | app/services/scraper.py:37 | JavaScript's `text.length` is between the number of code points and twice that. |
| Enumerator.SaveCheckpoint | scrape_all_novels_sequential.py:32-43 | Reading back the file `save_checkpoint` writes gives the saved `last_id`. |
| Enumerator.StartId | scrape_all_novels_sequential.py:96-98 | The start id is never 0. It is `start_id` when given and non-zero, and otherwise the checkpoint's `last_id` when that is present and non-zero. A start id or `last_id` of 0, a missing `last_id`, and a missing or unreadable checkpoint all give 1; an explicit `start_id` of 0 gives 1 without reading the checkpoint. |
| Enumerator.ResumeReprobesSavedId | scrape_all_novels_sequential.py:96-98 | Resuming from a checkpoint starts at the saved `last_id`, not after it. |
| Enumerator.NovelUrlInjective | scrape_all_novels_sequential.py:52 | Distinct ids have distinct detail-page URLs. |
| Enumerator.TitleOf | scrape_all_novels_sequential.py:45-82 | A probe is found exactly when the page loaded, a title element exists (the book link, else the first `h1`), and the stripped title is acceptable. The title returned is that stripped text. |
| Enumerator.FoundTitleIsClean | scrape_all_novels_sequential.py:69-76 | A found title is non-empty and already stripped, and names neither "404" nor "not found" in any letter case. |
| Enumerator.Misses | scrape_all_novels_sequential.py:148-150 | The reference count for `total_skipped`: at most the number of ids probed, and zero exactly when every one of them gave a title. |
| Enumerator.ProbeKeepsInv | scrape_all_novels_sequential.py:126-160 | One iteration keeps the loop invariant: every probe is counted once, skipped and duplicates equal their reference counts, the misses count the trailing not-found ids, the committed and pending rows are the reference inserts, and the checkpoint names the last committed batch. An iteration that raised leaves the run settled at the current id. |
| Enumerator.AdvanceKeepsInv | scrape_all_novels_sequential.py:153-160 | The id and batch step, with its commit and checkpoint every `batch_size` probes, restores the invariant. |
| Enumerator.FlushSettles | scrape_all_novels_sequential.py:170-172 | The final commit and checkpoint leave nothing pending and a checkpoint of `(current_id - 1, total_found, total_skipped)`. |
| Enumerator.StartInv | scrape_all_novels_sequential.py:96-112 | The set-up before the loop satisfies the invariant. |
| Enumerator.LoopStep | scrape_all_novels_sequential.py:126-168 | One loop turn either keeps the invariant and moves to the next id, or ends the run settled. |
| Enumerator.LoopSettles | scrape_all_novels_sequential.py:126-192 | However the loop ends (misses exhausted, the interrupt taken through its `except KeyboardInterrupt` handler, an exception), the run is settled. |
| Enumerator.EndedGuarantees | scrape_all_novels_sequential.py:126-192 | A settled run meets every guarantee below. |
| Enumerator.HarvestGuarantees | scrape_all_novels_sequential.py:96-192 | Whatever the pages, every run satisfies the following, with the interrupt taken through its handler: <br>- found + duplicates + skipped is the number of ids probed before any crash (the id a crash happens at is counted nowhere); <br>- skipped is the number of those ids that gave no title, and duplicates the number that gave a title under a URL already known at that point; <br>- nothing is left uncommitted, and the checkpoint holds the last id before the one the run stopped at, total_found and total_skipped; <br>- the committed rows are exactly the reference inserts of those ids, each 'en_progreso', unverified, under the URL of a found id, none under a stored URL, no URL twice; <br>- on a normal exit the last `max_consecutive_failures` ids were all misses; <br>- a crash happens only at a found id whose row raised. |
| Enumerator.CancelledLoopSkipsFlush | scrape_all_novels_sequential.py:184-195 | Taken as a cancellation that only the `finally` sees, the interrupt ends the run the same way as through its handler, minus that handler's commit and checkpoint: the rows lost are exactly the ones still staged. |
| Enumerator.CancelLosesPartialBatch | scrape_all_novels_sequential.py:184-195 | A concrete run: one novel found, then Ctrl-C before the batch is full. As run, nothing is committed and no checkpoint is written; through the handler, the novel is committed and id 5 is checkpointed. |
| Enumerator.InsertedAreFresh | scrape_all_novels_sequential.py:133-146 | The reference inserts never repeat a URL or reuse one already stored. |
| Enumerator.InsertedAreFound | scrape_all_novels_sequential.py:138-143 | Each reference insert is the found title's row, under its id's URL. |
| Enumerator.AsWrittenHarvestInsertsNothing | scrape_all_novels_sequential.py:138-143 | As written, constructing a novel row always raises, so a run stores no novel. |
| Enumerator.AsWrittenLoopInsertsNothing | scrape_all_novels_sequential.py:138-147 | As written, the loop never stages a row and never counts a found novel. |
| Enumerator.CorrectedHarvestStoresFound | scrape_all_novels_sequential.py:138-147 | When rows construct, a run never crashes and stores exactly the reference inserts of the ids it probed. |
| Enumerator.SequentialScraper.constructor | scrape_all_novels_sequential.py:93-112 | The loop's start state. |
| Enumerator.SequentialScraper.CommitAndSave | scrape_all_novels_sequential.py:157-159 | `db.commit()` plus `save_checkpoint(current_id - 1, ...)`: the pending rows join the saved ones and the checkpoint is written. |
| Enumerator.SequentialScraper.NextId | scrape_all_novels_sequential.py:153-160 | Moving to the next id leaves the state `Advance` gives: the id and batch count go up by one, and a full batch is committed and its count reset. |
| Enumerator.SequentialScraper.ProbeCurrent | scrape_all_novels_sequential.py:127-160 | The loop body updates the fields exactly as one `Probe` step, and reports a crash exactly when `Probe` aborts. |
| Enumerator.SequentialScraper.Turn | scrape_all_novels_sequential.py:127-168 | One turn, `check_novel_exists` and then the loop body, moves the loop one step along `Loop`, or ends it with the crash `Loop` gives. |
| Enumerator.SequentialScraper.Run | scrape_all_novels_sequential.py:126-192 | The while loop and its three exits leave the state and exit that `Loop` gives. |
| Catalog.PageUrlInjective | scrape_novel_catalog.py:43-57 | Distinct page numbers above 1 give distinct page URLs. |
| Catalog.StemMarked | scrape_novel_catalog.py:49-57 | Every stem, followed by '_', contains `_0_0_`, so built page URLs are in the full form. |
| Catalog.PageUrlRebase | scrape_novel_catalog.py:49-57 | Building page n from a built page URL gives the same URL as building it from the catalog URL. |
| Catalog.LinkTitle | scrape_novel_catalog.py:90-91 | Empty inner text gives "Título pendiente"; any other text gives its stripped form, so the placeholder appears only for empty text or text that is that placeholder. |
| Catalog.CandidatesAreBookUrls | scrape_novel_catalog.py:78-86 | Every link kept joins to a URL containing "/book/" and ending in ".html". |
| Catalog.FirstIndex | scrape_novel_catalog.py:88 | The first position of a collected URL holds it, and no earlier position does. |
| Catalog.DedupFirstOccurrences | scrape_novel_catalog.py:88-96 | The collected entries have the same URLs as the candidates; each is its URL's first occurrence, in discovery order. |
| Catalog.DedupDistinct | scrape_novel_catalog.py:88 | No URL is collected twice. |
| Catalog.ScanPage | scrape_novel_catalog.py:76-99 | The per-link loop of one page extends the collected entries exactly as de-duplicating the page's candidates after the earlier ones. |
| Catalog.CollectEntries | scrape_novel_catalog.py:40-99 | The page loop succeeds exactly when no element query raised. It then yields the de-duplicated candidates of pages 1 to `max_pages`, with pages that failed to load skipped. |
| Catalog.WalkStaysAborted | scrape_novel_catalog.py:72 | Once an element query raised, no later page brings the walk back. |
| Catalog.WalkAreBookUrls | scrape_novel_catalog.py:63-99 | Every entry the walk collects is a detail-page URL. |
| Catalog.SaveRowsFacts | scrape_novel_catalog.py:113-136 | The save pass fails exactly when some new entry's row raises. Otherwise new plus duplicate counts equal the entries, and each row is the 'en_progreso' row of an entry the store lacked. |
| Catalog.SaveRowsFresh | scrape_novel_catalog.py:121-134 | Saved rows carry URLs the store did not hold, no URL twice. |
| Catalog.SaveRowsShape | scrape_novel_catalog.py:127-132 | Saved rows are 'en_progreso', unverified detail-page rows. |
| Catalog.NewRowsFacts | scrape_novel_catalog.py:88-136 | The rows saved for the collected entries are 'en_progreso', unverified, under new detail-page URLs, no URL twice. |
| Catalog.SaveRowsStops | scrape_novel_catalog.py:127-150 | A row build that raised aborts the whole save pass. |
| Catalog.SaveEntries | scrape_novel_catalog.py:113-150 | The save loop commits the rows of the save pass in one commit, or rolls back all of them. `nuevas` and `duplicadas` are the row count and the count of stored URLs. |
| Catalog.CatalogRunFacts | scrape_novel_catalog.py:37-150 | A run only appends novels, each 'en_progreso', unverified, under a new detail-page URL, no URL twice; everything else is kept. A failed commit changes nothing. |
| Catalog.ScrapeCatalog | scrape_novel_catalog.py:36-152 | The whole script leaves the committed database that `CatalogRun` gives. |
| Catalog.AsWrittenSaveRows | scrape_novel_catalog.py:127-132 | As written, every row construction raises, so the save pass fails as soon as one entry is new. |
| Catalog.AsWrittenCatalogSavesNothing | scrape_novel_catalog.py:127-150 | As written, a catalog run leaves the database unchanged. |
| Catalog.CorrectedCatalogSavesNew | scrape_novel_catalog.py:113-138 | When rows construct and the commit succeeds, a completed walk adds one novel per collected URL the store lacked. |
| Discovery.FallbackFilters | app/services/discovery.py:77-83 | The fallback fails exactly when some anchor's text raises. Otherwise it keeps exactly the chapter-like anchors, in DOM order. |
| Discovery.FilterLinksSound | app/services/discovery.py:82 | Every link the fallback keeps has a non-empty href naming "/capitulo" or a text naming "capítulo", in any letter case. |
| Discovery.CollectLinks | app/services/discovery.py:70-83 | The selection loops give the selector's elements when there are any, otherwise the fallback. |
| Discovery.FallbackStaysFailed | app/services/discovery.py:80-81 | An anchor whose text raised aborts the whole fallback pass. |
| Discovery.InsertPassFacts | app/services/discovery.py:88-114 | At most ten rows per novel. Each row is the novel's, numbered by its link's position + 1 (skipped links still count), under an absolute URL no committed chapter has, titled by the cleaned text, with no content. Numbers increase. |
| Discovery.StagedPicks | app/services/discovery.py:88-114 | Every staged link is an eligible link with its text and resolved URL; at most ten, in increasing position. |
| Discovery.InsertPassStopsAtCap | app/services/discovery.py:90-91 | Once ten are staged, no later link is looked at. |
| Discovery.InsertPassGrows | app/services/discovery.py:88-114 | Looking at more links never stages fewer. |
| Discovery.InsertPassStaysFailed | app/services/discovery.py:94 | A link text read that raised aborts the whole insert loop. |
| Discovery.InsertPassComplete | app/services/discovery.py:96-114 | Below the cap, every eligible link is staged. |
| Discovery.RescanInsertsNothing | app/services/discovery.py:100-102 | Below the cap, a second scan of the same links over the committed result stages nothing. |
| Discovery.KnownStagesNothing | app/services/discovery.py:100-102 | When every link is empty or known, nothing is staged. |
| Discovery.SameScanDuplicates | app/services/discovery.py:100 | With autoflush off, two links to one new URL in one scan both get staged. |
| Discovery.PicksFresh | app/services/discovery.py:100-102 | No staged URL is already a committed chapter's. |
| Discovery.NovelStepFacts | app/services/discovery.py:26-121 | Patrolling one novel only appends chapters: at most ten, of that novel, without content, under URLs not yet committed. A novel whose domain has no source writes nothing. |
| Discovery.PatrolTwiceIsPatrolOnce | app/services/discovery.py:88-121 | Below the cap, patrolling a novel twice is patrolling it once. |
| Discovery.DiscoverGrows | app/services/discovery.py:12-121 | A discovery run keeps novels, translations, sources and the existing chapters in place. Each appended chapter belongs to one of the patrolled novels, has no content and no flag, and has a URL that was not stored before. No novel gets more than ten. |
| Discovery.StageLinks | app/services/discovery.py:88-114 | The insert loop stages exactly the rows of the insert pass in the working state, or reports the raise. |
| Discovery.PatrolNovel | app/services/discovery.py:27-121 | One novel's iteration leaves the committed database that `NovelStep` gives. |
| Discovery.DiscoverNewChapters | app/services/discovery.py:10-123 | The whole pass leaves the committed database that `Discover` gives. |
| Scraper.ScanFacts | app/services/scraper.py:27-43 | After each block, the scan's state satisfies all of the following: <br>- its length is that of its text; <br>- it is at least every few-link block's length seen; <br>- it is "" exactly when every few-link block seen was empty; <br>- otherwise it is the text of the earliest longest one. |
| Scraper.BestTextIsEarliestLongest | app/services/scraper.py:27-43 | The script returns "" exactly when every block with fewer than five links is empty. Otherwise it returns the text of the earliest of the longest such blocks. |
| Scraper.BestBlock | app/services/scraper.py:27-43 | The `forEach` loop returns the scan's best text. |
| Scraper.AcceptFacts | app/services/scraper.py:45-51 | Text is refused exactly when its stripped form is 800 characters or fewer. Accepted text is that stripped form, free of surrounding whitespace, and is accepted again unchanged. |
| Scraper.ScrapedContentFacts | app/services/scraper.py:9-57 | Extracted content comes from an evaluated page. It is longer than 800 characters and is the stripped text of the earliest longest block with few links. |
| Scraper.ScrapeChapterContent | app/services/scraper.py:9-57 | The extraction over a rendered page returns what `ScrapeContent` gives, None when navigation or evaluation raised. |
| Scraper.PendingFacts | app/services/scraper.py:61-67 | At most five chapters are selected, all without content, in table order. An omitted chapter without content means five earlier ones were taken. None are selected exactly when every chapter has content. |
| Scraper.ScrapeStep | app/services/scraper.py:69-85 | One iteration keeps novels, translations, sources and the number of chapters. |
| Scraper.ScrapeFrom | app/services/scraper.py:69-85 | The iterations keep novels, translations, sources and the number of chapters. |
| Scraper.ScrapeFromWritesOnce | app/services/scraper.py:78-83 | Over distinct selected chapters without content, each is written at most once, with what its URL gave. |
| Scraper.ScrapeFromWrites | app/services/scraper.py:69-85 | From any selected chapter on, a pass that raises nothing stores in each chapter whose URL gave text exactly that text, and no later iteration overwrites it. |
| Scraper.ScrapePassFacts | app/services/scraper.py:59-85 | The pass keeps novels, translations and sources. Only a selected chapter without content can change, and then it receives its URL's extracted text. A chapter whose extraction gives None is left as it was. When the pass raises nothing, every selected chapter whose URL gave text holds that text afterwards. |
| Scraper.NothingPendingNoChange | app/services/scraper.py:65-67 | With no chapter pending, the pass changes nothing and raises nothing. |
| Scraper.NoSourceAborts | app/services/scraper.py:72-74 | With a chapter pending and no "skynovels.net" source, the pass raises and writes nothing. |
| Scraper.FilledNotReselected | app/services/scraper.py:61-63 | A chapter the pass filled is never selected again. |
| Scraper.StoredContentIsAccepted | app/services/scraper.py:45-51 | Stored content is longer than 800 characters and already stripped. |
| Scraper.ProcessPendingScrapes | app/services/scraper.py:59-85 | The pass leaves the committed database, and the raise, that `ScrapePass` gives. |
| Scraper.ScrapeOne | app/services/scraper.py:71-85 | One iteration leaves the committed database, and the raise, that `ScrapeStep` gives. |
| Translator.PromptEmbeds | app/services/translator.py:18-23 | The prompt is the fixed instructions, "Novela: " and the title, then the text verbatim at its end. |
| Translator.PromptInjective | app/services/translator.py:18-23 | Distinct texts give distinct prompts. |
| Translator.PendingFacts | app/services/translator.py:42-51 | At most three chapters are selected, each with content and no translation row for its id in any language, in table order. An omitted eligible one means three earlier ones were taken. None are selected exactly when no chapter is eligible. |
| Translator.TranslateFrom | app/services/translator.py:53-75 | The iterations keep novels, sources and the number of chapters. |
| Translator.TranslatePassFacts | app/services/translator.py:37-75 | The pass keeps novels, sources and all existing rows. A selected chapter whose answer is non-empty and whose row build and commit succeed is flagged and has row {id, 'es', answer, 'completado'}. Every other chapter is untouched. Each added row belongs to such a chapter. |
| Translator.NothingPendingNoChange | app/services/translator.py:49-51 | With nothing eligible, the pass changes nothing. |
| Translator.FailedStaysEligible | app/services/translator.py:58-75 | A selected chapter with a falsy answer, or a row build or commit that raised, is left as it was and stays eligible. |
| Translator.TranslatedNotReselected | app/services/translator.py:42-47 | A chapter the pass translated is never selected again. |
| Translator.OneTranslationPerChapter | app/services/translator.py:42-71 | A pass never gives a chapter a second translation row. |
| Translator.AsWrittenPassStoresNothing | app/services/translator.py:60-66 | As written, the row build always raises, so a pass changes nothing. |
| Translator.CorrectedStoresTranslation | app/services/translator.py:53-71 | When rows construct, a selected chapter with a non-empty answer and a commit that succeeds gets its row and its flag. |
| Translator.TranslateOne | app/services/translator.py:56-75 | One iteration leaves the committed database that `TranslateStep` gives, with nothing left uncommitted. |
| Translator.ProcessPendingTranslations | app/services/translator.py:37-75 | The pass leaves the committed database that `TranslatePass` gives. |
| Worker.ScrapeKeepsChapters | app/services/scraper.py:59-85 | The extraction phase keeps every chapter row, changing at most its content; each row equals the old one with only `content` replaced. |
| Worker.TranslateKeepsChapters | app/services/translator.py:37-75 | The translation phase keeps every chapter row, changing at most its flag; each row equals the old one with only `sentToTranslation` replaced. |
| Worker.CycleFacts | worker.py:23-37 | A cycle keeps the novels and the sources. Every existing chapter keeps its novel, number, title and URL; only its content and flag may change. The new chapters belong to stored novels, at most ten to a novel, none under a URL stored before. Every translation row is kept, and nothing is translated when the extraction phase raised. |
| Worker.AsWrittenCycleTranslatesNothing | worker.py:23-37 | As written, a cycle never stores a translation. |
| Worker.RunCycle | worker.py:23-37 | The three phases in one try block leave the committed database that `Cycle` gives. |

## Left out

- **Browser I/O.** The Playwright plumbing is out of scope, and the pages
  are inputs:
  - covered by this: browser launch, init scripts, resource blocking, the
    "Contenido" click, volume expansion, sleeps and timeouts;
  - enumerator: a `Response` per id;
  - catalog: a `Listing` per page URL;
  - discovery: a `Visit` per novel URL;
  - extractor: a `Page` per chapter URL, holding the `(innerText, linkCount)`
    blocks.
- **Library functions.** `urljoin` is the parameter `join` and
  `urlparse(...).netloc` is the parameter `netloc`. Their RFC 3986 behaviour
  is not modelled.
- **The Gemini call.** It is the parameter `gemini`, from prompt to answer,
  None when the call raised.
- **The checkpoint file.** It is a value (`CheckpointFile`). JSON encoding
  and file errors in `save_checkpoint` are out of scope, and a failed write
  is treated as a successful one.
- **SQLAlchemy.** `Session` models commit and rollback as snapshots.
  Identity maps, SQL, `LIKE` wildcard characters in `contains` and MySQL
  case-insensitive collation are not modelled. `contains` is an exact
  substring test.
- **Raising row builds and commits.** They are the parameters `createFails`
  and `commitFails`. The enumerator's own commits are taken to succeed.
- Enumerator.Loop: the operator's interrupt happens only
  between iterations, after `fuel` probes, and takes the `except
  KeyboardInterrupt` path. An interrupt in the middle of an iteration is not
  modelled. How the script actually reacts to Ctrl-C under `asyncio.run` is
  `Enumerator.CancelledLoop`, listed under Findings.
- Enumerator.LoadCheckpoint: `last_id` is an optional integer. A JSON null,
  or a `last_id` that is not an integer, is not represented.
- Store.Source: `configuracion_scraper` is an optional map. A value that is
  not a JSON object, on which `.get` would raise, cannot occur.
- Discovery.InsertPass, Discovery.FallbackFilters: a raising
  `get_attribute("href")` (app/services/discovery.py:80 and 93) counts as an
  absent href, so the link is skipped. In the source it raises and ends that
  novel's pass. In the catalog (scrape_novel_catalog.py:78) a raise and an
  absent href both skip the link, so `Catalog.Candidate` is exact there.
- Scraper.Pending, Translator.Pending, Discovery.Discover, Store.FindSource:
  the queries have no ORDER BY, and `.first()` takes the first matching row.
  They are assumed to return rows in id order.
- **Enumerator counters.** The totals are per run: they are written to the
  checkpoint but not read back. The model follows the code here.
- Common.Lower: maps ASCII and Latin-1 capitals only. That is exact
  for the patterns compared ("404", "not found", "/capitulo", "capítulo"),
  but it is not full Unicode case folding.
- Common.Utf16Length: counts characters above U+FFFF as two units,
  as JavaScript's `length` does. The 800-character floor uses Python's
  `len`, which counts code points.
- Scraper.ScrapeContent: takes no `selector_texto` argument, because the source never uses the selector it is passed.
- **Side effects without state.** Log output, the failure screenshot,
  `browser.close()` and `db.close()` are not modelled.
- **worker.py.** The infinite polling loop, its sleep and the fresh session
  per cycle are not modelled; one cycle is `Worker.Cycle`.
- **Discovery: duplicates within one scan.** The existence check sees only
  committed chapters, because of `autoflush=False`. Two links to one new URL
  in a single scan are therefore both inserted, as
  `Discovery.SameScanDuplicates` shows. No de-duplication within a scan is
  claimed.
- **Missing columns as failures.** `Novela` (`app/db/models.py:5-17`) has no
  `estado_original` column, and `TraduccionCapitulo`
  (`app/db/models.py:30-39`) has no `traductor_ia` column. Passing those
  keywords raises, so these constructions are fallible creations; see
  Findings.

## Findings

| source | as written | input that shows it | evidently intended | confidence | as-written member | corrected member |
|---|---|---|---|---|---|---|
| app/services/translator.py:60-66 | `TraduccionCapitulo(..., traductor_ia='Gemini-2.0-Flash')` passes a keyword with no matching column (app/db/models.py:30-39). SQLAlchemy's declarative constructor raises TypeError, so the except path rolls back every chapter. | any selected chapter with a non-empty Gemini answer | store the row {id, 'es', answer, 'completado'} and set `enviado_traduccion` | high, not executed | Translator.AsWrittenPassStoresNothing | Translator.CorrectedStoresTranslation |
| scrape_novel_catalog.py:127-132 | `Novela(..., estado_original='en_progreso', ...)` passes a keyword with no matching column (app/db/models.py:5-17). The constructor raises TypeError, and the outer handler rolls back the whole save pass. | a catalog page linking one detail page the store does not hold | insert one 'en_progreso', unverified row per new URL | high, not executed | Catalog.AsWrittenCatalogSavesNothing | Catalog.CorrectedCatalogSavesNew |
| scrape_all_novels_sequential.py:138-143 | The same `estado_original` keyword raises at the first found id with a new URL. The outer handler then commits, and the run ends having stored no novel. | a run whose first probed id renders a title under a URL the store does not hold | insert the row and carry on probing | high, not executed | Enumerator.AsWrittenHarvestInsertsNothing | Enumerator.CorrectedHarvestStoresFound |
| scrape_all_novels_sequential.py:184-195 | Under `asyncio.run`, Ctrl-C reaches the coroutine as a cancellation at the pending await: the page load or the pause. That is a BaseException, so neither `except KeyboardInterrupt` nor `except Exception` catches it. Only the `finally` runs and closes the session: the staged rows are dropped, and the checkpoint stays at the last full batch. | one novel found, then Ctrl-C before `batch_size` ids | commit and save the checkpoint, as the interrupt handler does | medium (depends on asyncio's signal handling), not executed | Enumerator.CancelLosesPartialBatch | Enumerator.HarvestGuarantees |
