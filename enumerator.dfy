/**
 * The sequential ID-space enumerator of scrape_all_novels_sequential.py:
 * probe https://twkan.com/book/{id}.html for id = start, start + 1, ...,
 * insert every title it finds under a URL not seen before, and stop after
 * `maxFailures` consecutive misses; commit and write the checkpoint every
 * `batchSize` probes and on every exit its exception handlers see.
 *
 * The specification is the pure function Loop over a Scan value (one Probe per
 * loop iteration); the class SequentialScraper is the imperative loop, proved
 * equal to it; the lemmas state what a run guarantees.
 */
module Enumerator {
  import opened Common
  import opened Store

  // ---------------------------------------------------------------------------
  // Checkpoint file
  // ---------------------------------------------------------------------------

  /** The checkpoint file: absent, unreadable JSON, or a JSON object with (perhaps) these keys. */
  datatype CheckpointFile =
    | Missing
    | Unreadable
    | Json(lastId: Option<int>, totalFound: Option<int>, totalSkipped: Option<int>)

  /** save_checkpoint, as the file it leaves behind. */
  function SaveCheckpoint(lastId: int, found: nat, skipped: nat): (f: CheckpointFile)
    ensures LoadCheckpoint(f) == lastId
  {
    Json(Some(lastId), Some(found), Some(skipped))
  }

  /** load_checkpoint: `last_id` of a readable file, otherwise 0. */
  function LoadCheckpoint(f: CheckpointFile): int {
    if f.Json? && f.lastId.Some? then f.lastId.value else 0
  }

  /** The first id probed: an explicit start id, otherwise the saved `last_id`; 0 becomes 1. */
  function StartId(startId: Option<int>, f: CheckpointFile): (r: int)
    ensures r != 0
    ensures startId.Some? && startId.value != 0 ==> r == startId.value
    ensures startId.None? && f.Json? && f.lastId.Some? && f.lastId.value != 0 ==> r == f.lastId.value
    ensures startId.None? && (f.Missing? || f.Unreadable?) ==> r == 1
    ensures (if startId.Some? then startId.value else LoadCheckpoint(f)) == 0 ==> r == 1
    ensures startId == Some(0) ==> r == 1
  {
    var id := if startId.Some? then startId.value else LoadCheckpoint(f);
    if id == 0 then 1 else id
  }

  /** A resumed run probes the saved id again: it starts at `last_id`, not after it. */
  lemma ResumeReprobesSavedId(lastId: int, found: nat, skipped: nat)
    requires lastId != 0
    ensures StartId(None, SaveCheckpoint(lastId, found, skipped)) == lastId
  {
  }

  // ---------------------------------------------------------------------------
  // One probe: check_novel_exists
  // ---------------------------------------------------------------------------

  const BookPrefix := "https://twkan.com/book/"

  /** The detail page of a novel id. */
  function NovelUrl(id: int): string {
    BookPrefix + IntToString(id) + ".html"
  }

  lemma NovelUrlInjective(a: int, b: int)
    requires NovelUrl(a) == NovelUrl(b)
    ensures a == b
  {
    var sa, sb := IntToString(a), IntToString(b);
    assert |sa| == |sb|;
    assert NovelUrl(a)[|BookPrefix|..|BookPrefix| + |sa|] == sa;
    assert NovelUrl(b)[|BookPrefix|..|BookPrefix| + |sb|] == sb;
    IntToStringInjective(a, b);
  }

  /**
   * What rendering the detail page gives: an exception (navigation, timeout,
   * a missing response), a 404 status, or a loaded page with the inner text of
   * the `div.booknav2 h1 a` element and of the first `h1`, where present.
   */
  datatype Response =
    | Raised
    | NotFound
    | Loaded(bookTitle: Option<string>, heading: Option<string>)

  /** The title element read: the book-title link when present (even when empty), else the first h1. */
  function TitleElement(r: Response): Option<string>
    requires r.Loaded?
  {
    if r.bookTitle.Some? then r.bookTitle else r.heading
  }

  /** A stripped title that is not an error page. */
  predicate AcceptableTitle(t: string) {
    t != "" && !Contains(Lower(t), "404") && !Contains(Lower(t), "not found")
  }

  /**
   * check_novel_exists: the stripped text of the title element when the page
   * loaded, has one, and it is not an error page; None otherwise.
   */
  function TitleOf(r: Response): (t: Option<string>)
    ensures t.Some? <==> r.Loaded? && TitleElement(r).Some? && AcceptableTitle(Strip(TitleElement(r).value))
    ensures t.Some? ==> t.value == Strip(TitleElement(r).value)
  {
    if r.Loaded? && TitleElement(r).Some? then
      var title := Strip(TitleElement(r).value);
      if AcceptableTitle(title) then Some(title) else None
    else None
  }

  /** A found title is non-empty, already stripped, and names neither "404" nor "not found" in any letter case. */
  lemma FoundTitleIsClean(r: Response)
    requires TitleOf(r).Some?
    ensures var t := TitleOf(r).value;
      t != "" && Strip(t) == t && !Contains(Lower(t), "404") && !Contains(Lower(t), "not found")
  {
    StripFixed(Strip(TitleElement(r).value));
  }

  // ---------------------------------------------------------------------------
  // The loop, as a function
  // ---------------------------------------------------------------------------

  datatype Settings = Settings(batchSize: int, maxFailures: int)

  /**
   * The loop's local state: current_id, existing_urls, the counters, the rows
   * this run has committed, the rows added since the last commit, and the
   * checkpoint file.
   */
  datatype Scan = Scan(
    nextId: int,
    known: set<string>,
    found: nat,
    duplicates: nat,
    skipped: nat,
    misses: nat,
    batch: nat,
    saved: seq<Novel>,
    pending: seq<Novel>,
    checkpoint: CheckpointFile)

  /** How the run ended: misses reached the limit, the operator interrupted it, or creating a row raised. */
  datatype Exit = Exhausted | Interrupted | Crashed

  datatype StepResult = Advanced(next: Scan) | Aborted(last: Scan)

  /** The row inserted for a found novel. */
  function NewNovel(title: string, url: string): Novel {
    Novel(title, Some(url), "en_progreso", false)
  }

  /** db.commit() followed by save_checkpoint(current_id - 1, total_found, total_skipped). */
  function Flush(s: Scan): Scan {
    s.(saved := s.saved + s.pending, pending := [], checkpoint := SaveCheckpoint(s.nextId - 1, s.found, s.skipped))
  }

  /** The state a run starts in, over the rows already stored. */
  function Start(startId: Option<int>, f: CheckpointFile, db: seq<Novel>): Scan {
    Scan(StartId(startId, f), ExistingUrls(db), 0, 0, 0, 0, 0, [], [], f)
  }

  /** current_id += 1; batch_count += 1; and the batch commit when the count reaches batch_size. */
  function Advance(s: Scan, batchSize: int): Scan {
    var t := s.(nextId := s.nextId + 1, batch := s.batch + 1);
    if t.batch >= batchSize then Flush(t).(batch := 0) else t
  }

  /**
   * One iteration of the while loop for the id `s.nextId`, given what
   * check_novel_exists made of its page and whether constructing the row raises.
   */
  function Probe(s: Scan, title: Option<string>, createFails: bool, batchSize: int): StepResult {
    match title
    case None =>
      Advanced(Advance(s.(misses := s.misses + 1, skipped := s.skipped + 1), batchSize))
    case Some(title) =>
      var url := NovelUrl(s.nextId);
      if url in s.known then
        Advanced(Advance(s.(misses := 0, duplicates := s.duplicates + 1), batchSize))
      else if createFails then
        Aborted(Flush(s.(misses := 0)))
      else
        Advanced(Advance(s.(misses := 0, pending := s.pending + [NewNovel(title, url)],
                            known := s.known + {url}, found := s.found + 1), batchSize))
  }

  /**
   * The while loop and its exits; `fuel` is the number of probes after which
   * the operator interrupts the run (KeyboardInterrupt).
   */
  function Loop(s: Scan, found: int -> Option<string>, createFails: int -> bool, cfg: Settings, fuel: nat): (Scan, Exit)
    decreases fuel
  {
    if s.misses >= cfg.maxFailures then (Flush(s), Exhausted)
    else if fuel == 0 then (Flush(s), Interrupted)
    else
      match Probe(s, found(s.nextId), createFails(s.nextId), cfg.batchSize)
      case Aborted(last) => (last, Crashed)
      case Advanced(next) => Loop(next, found, createFails, cfg, fuel - 1)
  }

  /** The outcome of check_novel_exists for every id, given how each page renders. */
  function Classify(render: int -> Response): int -> Option<string> {
    id => TitleOf(render(id))
  }

  /** scrape_all_novels_sequential as a function of its inputs: the final state and how it ended. */
  function Harvest(startId: Option<int>, f: CheckpointFile, db: seq<Novel>, found: int -> Option<string>,
                   createFails: int -> bool, cfg: Settings, fuel: nat): (Scan, Exit)
  {
    Loop(Start(startId, f, db), found, createFails, cfg, fuel)
  }

  // ---------------------------------------------------------------------------
  // The rows a run inserts
  // ---------------------------------------------------------------------------

  /** The source URLs of some rows. */
  function UrlsOf(rows: seq<Novel>): set<string>
    decreases |rows|
  {
    if rows == [] then {}
    else
      var last := rows[|rows| - 1];
      UrlsOf(rows[..|rows| - 1]) + if last.sourceUrl.Some? then {last.sourceUrl.value} else {}
  }

  /** The rows a run has inserted so far, and the URLs it then knows. */
  datatype Ledger = Ledger(rows: seq<Novel>, seen: set<string>)

  /** What probing id `id` adds: a row when a title was found under a URL not yet known. */
  function Record(e: Ledger, id: int, title: Option<string>): Ledger {
    match title
    case None => e
    case Some(t) =>
      var url := NovelUrl(id);
      if url in e.seen then e else Ledger(e.rows + [NewNovel(t, url)], e.seen + {url})
  }

  /**
   * The reference for the rows a run inserts: probing the `n` ids from
   * `first` on, when no insert raises, starting from the stored URLs `known0`.
   */
  function Expected(found: int -> Option<string>, known0: set<string>, first: int, n: nat): Ledger
    decreases n
  {
    if n == 0 then Ledger([], known0)
    else Record(Expected(found, known0, first, n - 1), first + n - 1, found(first + n - 1))
  }

  /** The reference for total_skipped: how many of the `n` ids from `first` on gave no title. */
  function Misses(found: int -> Option<string>, first: int, n: nat): (m: nat)
    ensures m <= n
    ensures m == 0 <==> forall id :: first <= id < first + n ==> found(id).Some?
    decreases n
  {
    if n == 0 then 0
    else Misses(found, first, n - 1) + if found(first + n - 1).None? then 1 else 0
  }

  /**
   * The reference for total_duplicates: how many of the `n` ids from `first`
   * on gave a title under a URL already known when they were probed.
   */
  function Duplicates(found: int -> Option<string>, known0: set<string>, first: int, n: nat): (d: nat)
    ensures d <= n
    decreases n
  {
    if n == 0 then 0
    else
      var id := first + n - 1;
      Duplicates(found, known0, first, n - 1) +
        if found(id).Some? && NovelUrl(id) in Expected(found, known0, first, n - 1).seen then 1 else 0
  }

  /** The rows of the first `n` probes. */
  function Inserted(found: int -> Option<string>, known0: set<string>, first: int, n: nat): seq<Novel> {
    Expected(found, known0, first, n).rows
  }

  /** Row `row` is the insert for some found id in [lo, hi). */
  ghost predicate FoundIn(row: Novel, found: int -> Option<string>, lo: int, hi: int) {
    exists id :: lo <= id < hi && found(id) == Some(row.title) && row == NewNovel(row.title, NovelUrl(id))
  }

  /** The inserts of a run: one per URL, none for a URL the store held before the run. */
  ghost predicate FreshInserts(added: seq<Novel>, known0: set<string>) {
    && (forall k :: 0 <= k < |added| ==> added[k].sourceUrl.Some? && added[k].sourceUrl.value !in known0)
    && (forall k, l :: 0 <= k < l < |added| ==> added[k].sourceUrl != added[l].sourceUrl)
  }

  lemma UrlsOfAppend(rows: seq<Novel>, row: Novel)
    requires row.sourceUrl.Some?
    ensures UrlsOf(rows + [row]) == UrlsOf(rows) + {row.sourceUrl.value}
  {
    assert (rows + [row])[..|rows|] == rows;
  }

  lemma {:induction false} UrlsOfHas(rows: seq<Novel>, k: int)
    requires 0 <= k < |rows| && rows[k].sourceUrl.Some?
    ensures rows[k].sourceUrl.value in UrlsOf(rows)
    decreases |rows|
  {
    if k < |rows| - 1 {
      UrlsOfHas(rows[..|rows| - 1], k);
    }
  }

  /** The URLs the reference knows are the stored ones and those of its rows. */
  lemma {:induction false} ExpectedSeen(found: int -> Option<string>, known0: set<string>, first: int, n: nat)
    ensures Expected(found, known0, first, n).seen == known0 + UrlsOf(Inserted(found, known0, first, n))
    decreases n
  {
    if n > 0 {
      ExpectedSeen(found, known0, first, n - 1);
      var prev := Inserted(found, known0, first, n - 1);
      var id := first + n - 1;
      if found(id).Some? && NovelUrl(id) !in Expected(found, known0, first, n - 1).seen {
        UrlsOfAppend(prev, NewNovel(found(id).value, NovelUrl(id)));
      }
    } else {
      assert UrlsOf([]) == {};
    }
  }

  /** Each inserted row is the row of a found title under its id's URL, in probe order. */
  lemma {:induction false} InsertedAreFound(found: int -> Option<string>, known0: set<string>, first: int, n: nat)
    ensures forall k :: 0 <= k < |Inserted(found, known0, first, n)| ==>
      FoundIn(Inserted(found, known0, first, n)[k], found, first, first + n)
    ensures |Inserted(found, known0, first, n)| <= n
    decreases n
  {
    if n > 0 {
      InsertedAreFound(found, known0, first, n - 1);
      var prev := Inserted(found, known0, first, n - 1);
      var id := first + n - 1;
      var cur := Inserted(found, known0, first, n);
      forall k | 0 <= k < |prev| ensures FoundIn(prev[k], found, first, first + n) {
        var j :| first <= j < first + n - 1 && found(j) == Some(prev[k].title)
          && prev[k] == NewNovel(prev[k].title, NovelUrl(j));
      }
      if cur != prev {
        var row := NewNovel(found(id).value, NovelUrl(id));
        assert cur == prev + [row];
        assert FoundIn(row, found, first, first + n);
      }
    }
  }

  /** No URL is inserted twice, and none that the store already held. */
  lemma {:induction false} InsertedAreFresh(found: int -> Option<string>, known0: set<string>, first: int, n: nat)
    ensures FreshInserts(Inserted(found, known0, first, n), known0)
    decreases n
  {
    if n > 0 {
      InsertedAreFresh(found, known0, first, n - 1);
      ExpectedSeen(found, known0, first, n - 1);
      var prev := Inserted(found, known0, first, n - 1);
      var id := first + n - 1;
      var cur := Inserted(found, known0, first, n);
      if cur != prev {
        var row := NewNovel(found(id).value, NovelUrl(id));
        assert cur == prev + [row];
        assert NovelUrl(id) !in known0 + UrlsOf(prev);
        forall k | 0 <= k < |prev| ensures prev[k].sourceUrl != row.sourceUrl {
          UrlsOfHas(prev, k);
        }
      }
    }
  }

  // ---------------------------------------------------------------------------
  // What the loop keeps invariant
  // ---------------------------------------------------------------------------

  /** The number of probes between two batch commits: batch_size, and 1 when batch_size < 1. */
  function Period(batchSize: int): nat {
    if batchSize < 1 then 1 else batchSize
  }

  function MissLimit(maxFailures: int): nat {
    if maxFailures < 0 then 0 else maxFailures
  }

  /** The misses counter counts the trailing run of not-found ids. */
  ghost predicate TrailingMisses(s: Scan, first: int, found: int -> Option<string>) {
    && s.nextId - s.misses >= first
    && AllMissed(found, s.nextId - s.misses, s.nextId)
  }

  /** No title was found for any id in [lo, hi). */
  ghost predicate AllMissed(found: int -> Option<string>, lo: int, hi: int)
    decreases hi - lo
  {
    hi <= lo || (found(hi - 1).None? && AllMissed(found, lo, hi - 1))
  }

  lemma {:induction false} AllMissedAt(found: int -> Option<string>, lo: int, hi: int, id: int)
    requires AllMissed(found, lo, hi) && lo <= id < hi
    ensures found(id).None?
    decreases hi - lo
  {
    if id < hi - 1 {
      AllMissedAt(found, lo, hi - 1, id);
    }
  }

  /**
   * The loop invariant, for a run that started at `first` over stored URLs
   * `known0` and checkpoint file `f0`: every probe counted once; the rows of
   * the ids up to the last checkpoint committed, the later ones pending; the
   * checkpoint names the id before the current batch.
   */
  ghost predicate Inv(s: Scan, first: int, known0: set<string>, f0: CheckpointFile, found: int -> Option<string>, cfg: Settings) {
    var n := s.nextId - first;
    && n >= 0
    && s.found + s.duplicates + s.skipped == n
    && s.skipped == Misses(found, first, n)
    && s.duplicates == Duplicates(found, known0, first, n)
    && s.misses <= MissLimit(cfg.maxFailures)
    && TrailingMisses(s, first, found)
    && s.batch < Period(cfg.batchSize)
    && s.batch <= n
    && (s.batch == n ==> s.checkpoint == f0)
    && (s.batch < n ==> LoadCheckpoint(s.checkpoint) == s.nextId - 1 - s.batch)
    && s.saved == Inserted(found, known0, first, n - s.batch)
    && Expected(found, known0, first, n) == Ledger(s.saved + s.pending, s.known)
    && s.found == |s.saved| + |s.pending|
  }

  /** The invariant without its batch bound: the state just before the batch check. */
  ghost predicate Counted(t: Scan, first: int, known0: set<string>, f0: CheckpointFile, found: int -> Option<string>, cfg: Settings) {
    var n := t.nextId - first;
    && n >= 1
    && t.found + t.duplicates + t.skipped == n
    && t.skipped == Misses(found, first, n)
    && t.duplicates == Duplicates(found, known0, first, n)
    && t.misses <= MissLimit(cfg.maxFailures)
    && TrailingMisses(t, first, found)
    && 1 <= t.batch <= Period(cfg.batchSize)
    && t.batch <= n
    && (t.batch == n ==> t.checkpoint == f0)
    && (t.batch < n ==> LoadCheckpoint(t.checkpoint) == t.nextId - 1 - t.batch)
    && t.saved == Inserted(found, known0, first, n - t.batch)
    && Expected(found, known0, first, n) == Ledger(t.saved + t.pending, t.known)
    && t.found == |t.saved| + |t.pending|
  }

  /** What holds once a run has ended, whichever way. */
  ghost predicate Settled(s: Scan, first: int, known0: set<string>, found: int -> Option<string>) {
    && s.nextId >= first
    && s.found + s.duplicates + s.skipped == s.nextId - first
    && s.skipped == Misses(found, first, s.nextId - first)
    && s.duplicates == Duplicates(found, known0, first, s.nextId - first)
    && s.pending == []
    && s.checkpoint == SaveCheckpoint(s.nextId - 1, s.found, s.skipped)
    && s.saved == Inserted(found, known0, first, s.nextId - first)
    && s.found == |s.saved|
  }

  lemma StartInv(startId: Option<int>, f: CheckpointFile, db: seq<Novel>, found: int -> Option<string>, cfg: Settings)
    ensures Inv(Start(startId, f, db), StartId(startId, f), ExistingUrls(db), f, found, cfg)
  {
    assert UrlsOf([]) == {};
  }

  lemma FlushSettles(s: Scan, first: int, known0: set<string>, f0: CheckpointFile, found: int -> Option<string>, cfg: Settings)
    requires Inv(s, first, known0, f0, found, cfg)
    ensures Settled(Flush(s), first, known0, found)
  {
  }

  /** The batch check restores the invariant. */
  lemma AdvanceKeepsInv(u: Scan, first: int, known0: set<string>, f0: CheckpointFile, found: int -> Option<string>, cfg: Settings)
    requires Counted(u.(nextId := u.nextId + 1, batch := u.batch + 1), first, known0, f0, found, cfg)
    ensures Inv(Advance(u, cfg.batchSize), first, known0, f0, found, cfg)
  {
  }

  lemma ProbeMissKeepsInv(s: Scan, first: int, known0: set<string>, f0: CheckpointFile, found: int -> Option<string>, cfg: Settings)
    requires Inv(s, first, known0, f0, found, cfg)
    requires s.misses < cfg.maxFailures
    requires found(s.nextId).None?
    ensures Inv(Advance(s.(misses := s.misses + 1, skipped := s.skipped + 1), cfg.batchSize), first, known0, f0, found, cfg)
  {
    var u := s.(misses := s.misses + 1, skipped := s.skipped + 1);
    assert Counted(u.(nextId := u.nextId + 1, batch := u.batch + 1), first, known0, f0, found, cfg);
    AdvanceKeepsInv(u, first, known0, f0, found, cfg);
  }

  lemma ProbeDuplicateKeepsInv(s: Scan, first: int, known0: set<string>, f0: CheckpointFile, found: int -> Option<string>, cfg: Settings)
    requires Inv(s, first, known0, f0, found, cfg)
    requires found(s.nextId).Some? && NovelUrl(s.nextId) in s.known
    ensures Inv(Advance(s.(misses := 0, duplicates := s.duplicates + 1), cfg.batchSize), first, known0, f0, found, cfg)
  {
    var u := s.(misses := 0, duplicates := s.duplicates + 1);
    assert Counted(u.(nextId := u.nextId + 1, batch := u.batch + 1), first, known0, f0, found, cfg);
    AdvanceKeepsInv(u, first, known0, f0, found, cfg);
  }

  lemma ProbeNewKeepsInv(s: Scan, first: int, known0: set<string>, f0: CheckpointFile, found: int -> Option<string>, cfg: Settings)
    requires Inv(s, first, known0, f0, found, cfg)
    requires found(s.nextId).Some? && NovelUrl(s.nextId) !in s.known
    ensures var row := NewNovel(found(s.nextId).value, NovelUrl(s.nextId));
      Inv(Advance(s.(misses := 0, pending := s.pending + [row], known := s.known + {NovelUrl(s.nextId)}, found := s.found + 1),
                  cfg.batchSize), first, known0, f0, found, cfg)
  {
    var url := NovelUrl(s.nextId);
    var row := NewNovel(found(s.nextId).value, url);
    var u := s.(misses := 0, pending := s.pending + [row], known := s.known + {url}, found := s.found + 1);
    assert u.saved + u.pending == (s.saved + s.pending) + [row];
    assert Counted(u.(nextId := u.nextId + 1, batch := u.batch + 1), first, known0, f0, found, cfg);
    AdvanceKeepsInv(u, first, known0, f0, found, cfg);
  }

  /** The four outcomes of a probe, spelled out. */
  lemma ProbeOutcome(s: Scan, title: Option<string>, createFails: bool, batchSize: int)
    ensures title.None? ==>
      Probe(s, title, createFails, batchSize) == Advanced(Advance(s.(misses := s.misses + 1, skipped := s.skipped + 1), batchSize))
    ensures title.Some? && NovelUrl(s.nextId) in s.known ==>
      Probe(s, title, createFails, batchSize) == Advanced(Advance(s.(misses := 0, duplicates := s.duplicates + 1), batchSize))
    ensures title.Some? && NovelUrl(s.nextId) !in s.known && createFails ==>
      Probe(s, title, createFails, batchSize) == Aborted(Flush(s.(misses := 0)))
    ensures title.Some? && NovelUrl(s.nextId) !in s.known && !createFails ==>
      var url := NovelUrl(s.nextId);
      Probe(s, title, createFails, batchSize) ==
        Advanced(Advance(s.(misses := 0, pending := s.pending + [NewNovel(title.value, url)], known := s.known + {url},
                            found := s.found + 1), batchSize))
  {
  }

  /** One probe keeps the invariant, or ends the run settled on a found id whose row could not be created. */
  lemma ProbeKeepsInv(s: Scan, first: int, known0: set<string>, f0: CheckpointFile, found: int -> Option<string>,
                      createFails: bool, cfg: Settings)
    requires Inv(s, first, known0, f0, found, cfg)
    requires s.misses < cfg.maxFailures
    ensures var r := Probe(s, found(s.nextId), createFails, cfg.batchSize);
      && (r.Advanced? ==> Inv(r.next, first, known0, f0, found, cfg) && r.next.nextId == s.nextId + 1)
      && (r.Aborted? ==> Settled(r.last, first, known0, found) && r.last.nextId == s.nextId
                         && found(s.nextId).Some? && createFails)
  {
    ProbeOutcome(s, found(s.nextId), createFails, cfg.batchSize);
    if found(s.nextId).None? {
      ProbeMissKeepsInv(s, first, known0, f0, found, cfg);
    } else if NovelUrl(s.nextId) in s.known {
      ProbeDuplicateKeepsInv(s, first, known0, f0, found, cfg);
    } else if createFails {
      FlushSettles(s.(misses := 0), first, known0, f0, found, cfg);
    } else {
      ProbeNewKeepsInv(s, first, known0, f0, found, cfg);
    }
  }

  /** How a run from `s` that ended in state `e` with `exit` stands. */
  ghost predicate Ended(e: Scan, exit: Exit, first: int, known0: set<string>,
                        found: int -> Option<string>, createFails: int -> bool, cfg: Settings) {
    && Settled(e, first, known0, found)
    && (exit == Exhausted ==> e.misses == MissLimit(cfg.maxFailures) && TrailingMisses(e, first, found))
    && (exit == Crashed ==> found(e.nextId).Some? && createFails(e.nextId))
  }

  /** A run that stops before probing ends settled. */
  lemma LoopStops(s: Scan, first: int, known0: set<string>, f0: CheckpointFile,
                  found: int -> Option<string>, createFails: int -> bool, cfg: Settings, fuel: nat)
    requires Inv(s, first, known0, f0, found, cfg)
    requires s.misses >= cfg.maxFailures || fuel == 0
    ensures var res := Loop(s, found, createFails, cfg, fuel);
      Ended(res.0, res.1, first, known0, found, createFails, cfg) && res.0.nextId <= s.nextId + fuel
  {
    FlushSettles(s, first, known0, f0, found, cfg);
  }

  /** A probe that advances leaves the rest of the run to the loop. */
  lemma LoopUnfolds(s: Scan, found: int -> Option<string>, createFails: int -> bool, cfg: Settings, fuel: nat)
    requires s.misses < cfg.maxFailures && fuel > 0
    requires Probe(s, found(s.nextId), createFails(s.nextId), cfg.batchSize).Advanced?
    ensures Loop(s, found, createFails, cfg, fuel) ==
            Loop(Probe(s, found(s.nextId), createFails(s.nextId), cfg.batchSize).next, found, createFails, cfg, fuel - 1)
  {
  }

  /** The two ways the loop stops without probing: the miss limit, and the interrupt. */
  lemma LoopEnds(s: Scan, found: int -> Option<string>, createFails: int -> bool, cfg: Settings, fuel: nat)
    ensures s.misses >= cfg.maxFailures ==> Loop(s, found, createFails, cfg, fuel) == (Flush(s), Exhausted)
    ensures s.misses < cfg.maxFailures && fuel == 0 ==> Loop(s, found, createFails, cfg, fuel) == (Flush(s), Interrupted)
  {
  }

  /** One iteration of the loop, from the outcome of its probe. */
  lemma RunStep(before: Scan, after: Scan, crashed: bool, found: int -> Option<string>, createFails: int -> bool,
                cfg: Settings, rest: nat, outcome: (Scan, Exit))
    requires before.misses < cfg.maxFailures
    requires Probe(before, found(before.nextId), createFails(before.nextId), cfg.batchSize) ==
             if crashed then Aborted(after) else Advanced(after)
    requires Loop(before, found, createFails, cfg, rest + 1) == outcome
    ensures crashed ==> outcome == (after, Crashed)
    ensures !crashed ==> Loop(after, found, createFails, cfg, rest) == outcome
  {
  }

  /**
   * One more probe of a run: either it advances, keeping the invariant and
   * leaving the rest to the loop, or it crashes and the run ends there.
   */
  lemma LoopStep(s: Scan, first: int, known0: set<string>, f0: CheckpointFile,
                 found: int -> Option<string>, createFails: int -> bool, cfg: Settings, fuel: nat)
    returns (next: Option<Scan>)
    requires Inv(s, first, known0, f0, found, cfg)
    requires s.misses < cfg.maxFailures && fuel > 0
    ensures next.Some? ==>
      && Inv(next.value, first, known0, f0, found, cfg) && next.value.nextId == s.nextId + 1
      && Loop(s, found, createFails, cfg, fuel) == Loop(next.value, found, createFails, cfg, fuel - 1)
    ensures next.None? ==>
      var res := Loop(s, found, createFails, cfg, fuel);
      Ended(res.0, res.1, first, known0, found, createFails, cfg) && res.0.nextId <= s.nextId + fuel
  {
    ProbeKeepsInv(s, first, known0, f0, found, createFails(s.nextId), cfg);
    var r := Probe(s, found(s.nextId), createFails(s.nextId), cfg.batchSize);
    if r.Advanced? {
      LoopUnfolds(s, found, createFails, cfg, fuel);
      next := Some(r.next);
    } else {
      assert Loop(s, found, createFails, cfg, fuel) == (r.last, Crashed);
      next := None;
    }
  }

  /**
   * Every run ends settled; one that ends on the misses limit ends on a run
   * of exactly that many not-found ids; one that crashes does so on a found
   * id whose row could not be created.
   */
  lemma {:induction false} LoopSettles(s: Scan, first: int, known0: set<string>, f0: CheckpointFile,
                                       found: int -> Option<string>, createFails: int -> bool, cfg: Settings, fuel: nat,
                                       res: (Scan, Exit))
    requires Inv(s, first, known0, f0, found, cfg)
    requires res == Loop(s, found, createFails, cfg, fuel)
    ensures Ended(res.0, res.1, first, known0, found, createFails, cfg) && res.0.nextId <= s.nextId + fuel
    decreases fuel
  {
    if s.misses >= cfg.maxFailures || fuel == 0 {
      LoopStops(s, first, known0, f0, found, createFails, cfg, fuel);
    } else {
      var next := LoopStep(s, first, known0, f0, found, createFails, cfg, fuel);
      if next.Some? {
        LoopSettles(next.value, first, known0, f0, found, createFails, cfg, fuel - 1, res);
      }
    }
  }

  /**
   * What a run that started at `first` over the stored URLs `known0` and
   * ended in `e` with `exit` guarantees: each id probed is counted once as
   * found, duplicate or skipped: skipped exactly when it gave no title,
   * duplicate exactly when its URL was already known; nothing is
   * left uncommitted; the checkpoint holds the last id probed and the found
   * and skipped totals; the rows added are exactly the reference
   * inserts of the ids probed, one per URL new to the store, each
   * 'en_progreso', unverified and holding the title found for its id; a
   * normal end follows `maxFailures` consecutive misses, a crash happens on a
   * found id whose row could not be created.
   */
  ghost predicate Guarantees(e: Scan, exit: Exit, first: int, known0: set<string>,
                             found: int -> Option<string>, createFails: int -> bool, cfg: Settings) {
    && first <= e.nextId
    && e.found + e.duplicates + e.skipped == e.nextId - first
    && e.skipped == Misses(found, first, e.nextId - first)
    && e.duplicates == Duplicates(found, known0, first, e.nextId - first)
    && e.pending == [] && e.checkpoint == SaveCheckpoint(e.nextId - 1, e.found, e.skipped)
    && LoadCheckpoint(e.checkpoint) == e.nextId - 1
    && e.saved == Inserted(found, known0, first, e.nextId - first)
    && |e.saved| == e.found
    && (forall k :: 0 <= k < |e.saved| ==> e.saved[k].status == "en_progreso" && !e.saved[k].verified)
    && (forall k :: 0 <= k < |e.saved| ==> FoundIn(e.saved[k], found, first, e.nextId))
    && FreshInserts(e.saved, known0)
    && (exit == Exhausted ==> forall id :: e.nextId - MissLimit(cfg.maxFailures) <= id < e.nextId ==> found(id).None?)
    && (exit == Crashed ==> found(e.nextId).Some? && createFails(e.nextId))
  }

  lemma EndedGuarantees(e: Scan, exit: Exit, first: int, known0: set<string>,
                        found: int -> Option<string>, createFails: int -> bool, cfg: Settings)
    requires Ended(e, exit, first, known0, found, createFails, cfg)
    ensures Guarantees(e, exit, first, known0, found, createFails, cfg)
  {
    if exit == Exhausted {
      forall id | e.nextId - MissLimit(cfg.maxFailures) <= id < e.nextId ensures found(id).None? {
        AllMissedAt(found, e.nextId - e.misses, e.nextId, id);
      }
    }
    InsertedAreFound(found, known0, first, e.nextId - first);
    InsertedAreFresh(found, known0, first, e.nextId - first);
    forall k | 0 <= k < |e.saved| ensures e.saved[k].status == "en_progreso" && !e.saved[k].verified {
      assert FoundIn(e.saved[k], found, first, e.nextId);
    }
  }

  /** scrape_all_novels_sequential, whichever way it ends, keeps the guarantees above, within `fuel` probes. */
  lemma HarvestGuarantees(startId: Option<int>, f: CheckpointFile, db: seq<Novel>, found: int -> Option<string>,
                          createFails: int -> bool, cfg: Settings, fuel: nat)
    ensures var res := Harvest(startId, f, db, found, createFails, cfg, fuel);
      && Guarantees(res.0, res.1, StartId(startId, f), ExistingUrls(db), found, createFails, cfg)
      && res.0.nextId <= StartId(startId, f) + fuel
  {
    var first := StartId(startId, f);
    var known0 := ExistingUrls(db);
    StartInv(startId, f, db, found, cfg);
    var res := Loop(Start(startId, f, db), found, createFails, cfg, fuel);
    LoopSettles(Start(startId, f, db), first, known0, f, found, createFails, cfg, fuel, res);
    EndedGuarantees(res.0, res.1, first, known0, found, createFails, cfg);
  }

  /**
   * With every row construction raising, as the Novela model makes it (it
   * has no estado_original column), no probe ever stages a row: the run ends
   * without having inserted anything.
   */
  lemma {:induction false} AsWrittenLoopInsertsNothing(s: Scan, found: int -> Option<string>, cfg: Settings, fuel: nat)
    requires s.saved == [] && s.pending == []
    ensures var res := Loop(s, found, _ => true, cfg, fuel);
      res.0.saved == [] && res.0.found == s.found
    decreases fuel
  {
    if s.misses < cfg.maxFailures && fuel > 0 {
      ProbeOutcome(s, found(s.nextId), true, cfg.batchSize);
      var r := Probe(s, found(s.nextId), true, cfg.batchSize);
      if r.Advanced? {
        LoopUnfolds(s, found, _ => true, cfg, fuel);
        AsWrittenLoopInsertsNothing(r.next, found, cfg, fuel - 1);
      }
    }
  }

  /** What the script does as the repository stands: a run stores no novel, whatever pages it probes. */
  lemma AsWrittenHarvestInsertsNothing(startId: Option<int>, f: CheckpointFile, db: seq<Novel>, found: int -> Option<string>,
                                       cfg: Settings, fuel: nat)
    ensures var res := Harvest(startId, f, db, found, _ => true, cfg, fuel);
      res.0.saved == [] && res.0.found == 0
  {
    AsWrittenLoopInsertsNothing(Start(startId, f, db), found, cfg, fuel);
  }

  /**
   * With rows that construct, a run never crashes, and it stores exactly the
   * reference inserts of the ids it probed.
   */
  lemma CorrectedHarvestStoresFound(startId: Option<int>, f: CheckpointFile, db: seq<Novel>, found: int -> Option<string>,
                                    cfg: Settings, fuel: nat)
    ensures var res := Harvest(startId, f, db, found, _ => false, cfg, fuel);
      var first := StartId(startId, f);
      && res.1 != Crashed
      && first <= res.0.nextId
      && res.0.saved == Inserted(found, ExistingUrls(db), first, res.0.nextId - first)
      && |res.0.saved| == res.0.found
  {
    HarvestGuarantees(startId, f, db, found, _ => false, cfg, fuel);
  }

  // ---------------------------------------------------------------------------
  // The operator's interrupt, as the script is run
  // ---------------------------------------------------------------------------

  /**
   * The loop as it behaves under `asyncio.run`: Ctrl-C reaches the coroutine
   * as a cancellation at a pending await (the page load or the pause), which
   * neither `except KeyboardInterrupt` nor `except Exception` catches. Only
   * the `finally` runs, closing the session, so the interrupted state keeps
   * the rows and the checkpoint of the last full batch, and its staged rows
   * are dropped. `Loop` is the intended behaviour: the interrupt handler
   * commits and writes the checkpoint.
   */
  function CancelledLoop(s: Scan, found: int -> Option<string>, createFails: int -> bool, cfg: Settings, fuel: nat): (Scan, Exit)
    decreases fuel
  {
    if s.misses >= cfg.maxFailures then (Flush(s), Exhausted)
    else if fuel == 0 then (s, Interrupted)
    else
      match Probe(s, found(s.nextId), createFails(s.nextId), cfg.batchSize)
      case Aborted(last) => (last, Crashed)
      case Advanced(next) => CancelledLoop(next, found, createFails, cfg, fuel - 1)
  }

  /**
   * The cancelled run and the intended one end the same way and differ only
   * on an interrupt, where the intended run is the cancelled one followed by
   * the commit and checkpoint it skips: the rows it loses are exactly the
   * ones still staged.
   */
  lemma {:induction false} CancelledLoopSkipsFlush(s: Scan, found: int -> Option<string>, createFails: int -> bool,
                                                   cfg: Settings, fuel: nat)
    ensures var c := CancelledLoop(s, found, createFails, cfg, fuel);
      var l := Loop(s, found, createFails, cfg, fuel);
      && c.1 == l.1
      && l.0 == (if c.1 == Interrupted then Flush(c.0) else c.0)
      && l.0.saved == c.0.saved + (if c.1 == Interrupted then c.0.pending else [])
    decreases fuel
  {
    if s.misses < cfg.maxFailures && fuel > 0 {
      var r := Probe(s, found(s.nextId), createFails(s.nextId), cfg.batchSize);
      if r.Advanced? {
        CancelledLoopSkipsFlush(r.next, found, createFails, cfg, fuel - 1);
        assert CancelledLoop(s, found, createFails, cfg, fuel) == CancelledLoop(r.next, found, createFails, cfg, fuel - 1);
        LoopUnfolds(s, found, createFails, cfg, fuel);
      }
    } else if s.misses < cfg.maxFailures {
      assert Loop(s, found, createFails, cfg, fuel) == (Flush(s), Interrupted);
    } else {
      assert Flush(s).pending == [];
    }
  }

  /**
   * An interrupt after one found novel, before its batch is full, leaves it
   * uncommitted and the checkpoint unwritten, where the interrupt handler
   * would have committed it and checkpointed its id.
   */
  lemma CancelLosesPartialBatch()
    ensures var s := Scan(5, {}, 0, 0, 0, 0, 0, [], [], Missing);
      var found: int -> Option<string> := id => if id == 5 then Some("t") else None;
      var cfg := Settings(100, 50);
      var c := CancelledLoop(s, found, _ => false, cfg, 1);
      var l := Loop(s, found, _ => false, cfg, 1);
      && c == (c.0, Interrupted) && c.0.saved == [] && c.0.checkpoint == Missing
      && l.0.saved == [NewNovel("t", NovelUrl(5))] && LoadCheckpoint(l.0.checkpoint) == 5
  {
    var s := Scan(5, {}, 0, 0, 0, 0, 0, [], [], Missing);
    var found: int -> Option<string> := id => if id == 5 then Some("t") else None;
    var cfg := Settings(100, 50);
    var next := Scan(6, {NovelUrl(5)}, 1, 0, 0, 0, 1, [], [NewNovel("t", NovelUrl(5))], Missing);
    assert Probe(s, found(5), false, 100) == Advanced(next);
    assert CancelledLoop(s, found, _ => false, cfg, 1) == (next, Interrupted);
    assert Loop(s, found, _ => false, cfg, 1) == (Flush(next), Interrupted);
  }

  // ---------------------------------------------------------------------------
  // The loop, as the script runs it
  // ---------------------------------------------------------------------------

  class SequentialScraper {
    var currentId: int
    var existingUrls: set<string>
    var totalFound: nat
    var totalDuplicates: nat
    var totalSkipped: nat
    var consecutiveFailures: nat
    var batchCount: nat
    var saved: seq<Novel>
    var pending: seq<Novel>
    var checkpoint: CheckpointFile

    ghost function State(): Scan
      reads this
    {
      Scan(currentId, existingUrls, totalFound, totalDuplicates, totalSkipped,
           consecutiveFailures, batchCount, saved, pending, checkpoint)
    }

    /** The set-up before the loop: the start id, the URLs already stored, zeroed counters. */
    constructor (startId: Option<int>, f: CheckpointFile, rows: seq<Novel>)
      ensures State() == Start(startId, f, rows)
    {
      var id := if startId.Some? then startId.value else LoadCheckpoint(f);
      if id == 0 {
        id := 1;
      }
      currentId := id;
      existingUrls := ExistingUrls(rows);
      totalFound, totalDuplicates, totalSkipped := 0, 0, 0;
      consecutiveFailures, batchCount := 0, 0;
      saved, pending := [], [];
      checkpoint := f;
    }

    /** db.commit() and save_checkpoint(current_id - 1, total_found, total_skipped). */
    method CommitAndSave()
      modifies this
      ensures State() == Flush(old(State()))
    {
      saved := saved + pending;
      pending := [];
      checkpoint := SaveCheckpoint(currentId - 1, totalFound, totalSkipped);
    }

    /**
     * One pass of the loop body for current_id, given what check_novel_exists
     * made of its page; `crashed` when constructing the row raised, after the
     * commit and checkpoint of the exception handler.
     */
    method ProbeCurrent(title: Option<string>, createFails: bool, batchSize: int) returns (crashed: bool)
      modifies this
      ensures Probe(old(State()), title, createFails, batchSize) ==
              if crashed then Aborted(State()) else Advanced(State())
    {
      ProbeOutcome(State(), title, createFails, batchSize);
      if title.Some? {
        consecutiveFailures := 0;
        var url := NovelUrl(currentId);
        if url in existingUrls {
          totalDuplicates := totalDuplicates + 1;
        } else {
          if createFails {
            CommitAndSave();
            return true;
          }
          pending := pending + [NewNovel(title.value, url)];
          existingUrls := existingUrls + {url};
          totalFound := totalFound + 1;
        }
      } else {
        consecutiveFailures := consecutiveFailures + 1;
        totalSkipped := totalSkipped + 1;
      }
      NextId(batchSize);
      crashed := false;
    }

    /** The tail of the loop body: move to the next id and commit when the batch is full. */
    method NextId(batchSize: int)
      modifies this
      ensures State() == Advance(old(State()), batchSize)
    {
      currentId := currentId + 1;
      batchCount := batchCount + 1;
      if batchCount >= batchSize {
        CommitAndSave();
        batchCount := 0;
      }
    }

    /**
     * One turn of the while loop: check_novel_exists on the current id, then
     * the loop body; `rest` is what is left of the interrupt fuel after it.
     */
    method Turn(render: int -> Response, createFails: int -> bool, cfg: Settings, rest: nat, ghost outcome: (Scan, Exit))
      returns (crashed: bool)
      requires consecutiveFailures < cfg.maxFailures
      requires Loop(State(), Classify(render), createFails, cfg, rest + 1) == outcome
      modifies this
      ensures crashed ==> outcome == (State(), Crashed)
      ensures !crashed ==> Loop(State(), Classify(render), createFails, cfg, rest) == outcome
    {
      ghost var before := State();
      var title := TitleOf(render(currentId));
      assert title == Classify(render)(before.nextId);
      crashed := ProbeCurrent(title, createFails(currentId), cfg.batchSize);
      RunStep(before, State(), crashed, Classify(render), createFails, cfg, rest, outcome);
    }

    /**
     * The while loop with its three exits, probing each id's page through
     * `render`; the operator interrupts after `fuel` probes, through the
     * `except KeyboardInterrupt` handler (CancelledLoop is the interrupt as
     * it reaches the script under `asyncio.run`).
     */
    method Run(render: int -> Response, createFails: int -> bool, cfg: Settings, fuel: nat) returns (exit: Exit)
      modifies this
      ensures (State(), exit) == Loop(old(State()), Classify(render), createFails, cfg, fuel)
    {
      var left := fuel;
      ghost var outcome := Loop(State(), Classify(render), createFails, cfg, fuel);
      while consecutiveFailures < cfg.maxFailures
        invariant Loop(State(), Classify(render), createFails, cfg, left) == outcome
        decreases left
      {
        if left == 0 {
          LoopEnds(State(), Classify(render), createFails, cfg, left);
          CommitAndSave();
          return Interrupted;
        }
        left := left - 1;
        var crashed := Turn(render, createFails, cfg, left, outcome);
        if crashed {
          return Crashed;
        }
      }
      LoopEnds(State(), Classify(render), createFails, cfg, left);
      CommitAndSave();
      exit := Exhausted;
    }
  }
}
