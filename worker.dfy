/**
 * One polling cycle of worker.py: discovery, then content extraction, then
 * translation, inside one try block, so an exception that escapes a phase
 * skips the phases after it. Only the scraping phase lets an exception
 * escape (a failed configuration lookup or commit); discovery and
 * translation catch theirs per novel and per chapter.
 */
module Worker {
  import opened Common
  import opened Store
  import Discovery
  import Scraper
  import Translator

  /** The committed database after one cycle. */
  function Cycle(db: Db, visit: string -> Discovery.Visit, netloc: string -> string, discoverFails: int -> bool,
                 fetch: string -> Scraper.Page, scrapeFails: nat -> bool,
                 gemini: string -> Option<string>, createFails: nat -> bool, translateFails: nat -> bool): Db
  {
    var discovered := Discovery.Discover(db, visit, netloc, discoverFails, |db.novels|);
    var scraped := Scraper.ScrapePass(discovered, Scraper.Extract(fetch), scrapeFails);
    if scraped.1 then scraped.0 else Translator.TranslatePass(scraped.0, gemini, createFails, translateFails)
  }

  /** Two versions of a chapter row that agree on everything but the content and the flag. */
  predicate SameChapter(a: Chapter, b: Chapter) {
    a == b.(content := a.content, sentToTranslation := a.sentToTranslation)
  }

  /** Row by row, `after` changes only the content and the flag of `before`. */
  ghost predicate SameChapters(before: seq<Chapter>, after: seq<Chapter>) {
    |before| == |after| && forall j :: 0 <= j < |before| ==> SameChapter(after[j], before[j])
  }

  lemma {:induction false} SameChaptersTrans(a: seq<Chapter>, b: seq<Chapter>, c: seq<Chapter>)
    requires SameChapters(a, b) && SameChapters(b, c)
    ensures SameChapters(a, c)
  {
    forall j | 0 <= j < |a| ensures SameChapter(c[j], a[j]) {
      assert SameChapter(b[j], a[j]) && SameChapter(c[j], b[j]);
    }
  }

  /** The extraction phase changes only chapter contents. */
  lemma ScrapeKeepsChapters(db: Db, fetch: string -> Scraper.Page, scrapeFails: nat -> bool)
    ensures SameChapters(db.chapters, Scraper.ScrapePass(db, Scraper.Extract(fetch), scrapeFails).0.chapters)
    ensures var r := Scraper.ScrapePass(db, Scraper.Extract(fetch), scrapeFails).0;
      forall j :: 0 <= j < |db.chapters| ==> r.chapters[j] == db.chapters[j].(content := r.chapters[j].content)
  {
    var r := Scraper.ScrapePass(db, Scraper.Extract(fetch), scrapeFails).0;
    Scraper.ScrapePassFacts(db, Scraper.Extract(fetch), scrapeFails);
    forall j | 0 <= j < |db.chapters| ensures r.chapters[j] == db.chapters[j].(content := r.chapters[j].content) {
      assert Scraper.WrittenOnceAt(db.chapters[j], r.chapters[j], j in Scraper.Pending(db.chapters), Scraper.Extract(fetch));
    }
  }

  /** The translation phase changes only the flags of chapters. */
  lemma TranslateKeepsChapters(db: Db, gemini: string -> Option<string>, createFails: nat -> bool, translateFails: nat -> bool)
    ensures SameChapters(db.chapters, Translator.TranslatePass(db, gemini, createFails, translateFails).chapters)
    ensures var r := Translator.TranslatePass(db, gemini, createFails, translateFails);
      forall j :: 0 <= j < |db.chapters| ==> r.chapters[j] == db.chapters[j].(sentToTranslation := r.chapters[j].sentToTranslation)
  {
    var r := Translator.TranslatePass(db, gemini, createFails, translateFails);
    Translator.TranslatePassFacts(db, gemini, createFails, translateFails);
    forall j | 0 <= j < |db.chapters| ensures r.chapters[j] == db.chapters[j].(sentToTranslation := r.chapters[j].sentToTranslation) {
      assert Translator.Outcome(db, r, Translator.Pending(db), j, gemini, createFails, translateFails);
    }
  }

  /**
   * A cycle keeps the novels and the sources; it keeps every chapter row
   * there was in place, changing at most its content and its flag; the
   * chapters it adds belong to the stored novels, at most ten to a novel,
   * none under a URL stored before; it keeps every translation row there was,
   * and translates nothing when the scraping phase raised.
   */
  lemma CycleFacts(db: Db, visit: string -> Discovery.Visit, netloc: string -> string, discoverFails: int -> bool,
                   fetch: string -> Scraper.Page, scrapeFails: nat -> bool,
                   gemini: string -> Option<string>, createFails: nat -> bool, translateFails: nat -> bool)
    ensures var r := Cycle(db, visit, netloc, discoverFails, fetch, scrapeFails, gemini, createFails, translateFails);
      && r.novels == db.novels && r.sources == db.sources
      && |db.chapters| <= |r.chapters| <= |db.chapters| + Discovery.ChapterCap * |db.novels|
      && (forall j :: 0 <= j < |db.chapters| ==> SameChapter(r.chapters[j], db.chapters[j]))
      && (forall j :: |db.chapters| <= j < |r.chapters| ==>
            && 1 <= r.chapters[j].novelId <= |db.novels|
            && r.chapters[j].sourceUrl.Some? && r.chapters[j].sourceUrl.value !in ChapterUrls(db.chapters))
      && (forall novelId :: Discovery.RowsOf(r.chapters[|db.chapters|..], novelId) <= Discovery.ChapterCap)
      && |db.translations| <= |r.translations| && r.translations[..|db.translations|] == db.translations
      && ((Scraper.ScrapePass(Discovery.Discover(db, visit, netloc, discoverFails, |db.novels|), Scraper.Extract(fetch), scrapeFails).1)
            ==> r.translations == db.translations)
  {
    var discovered := Discovery.Discover(db, visit, netloc, discoverFails, |db.novels|);
    Discovery.DiscoverGrows(db, visit, netloc, discoverFails, |db.novels|);
    var scraped := Scraper.ScrapePass(discovered, Scraper.Extract(fetch), scrapeFails);
    Scraper.ScrapePassFacts(discovered, Scraper.Extract(fetch), scrapeFails);
    ScrapeKeepsChapters(discovered, fetch, scrapeFails);
    var r := Cycle(db, visit, netloc, discoverFails, fetch, scrapeFails, gemini, createFails, translateFails);
    if !scraped.1 {
      Translator.TranslatePassFacts(scraped.0, gemini, createFails, translateFails);
      TranslateKeepsChapters(scraped.0, gemini, createFails, translateFails);
      SameChaptersTrans(discovered.chapters, scraped.0.chapters, r.chapters);
    } else {
      assert db.translations[..|db.translations|] == db.translations;
    }
    CycleRows(db.chapters, discovered.chapters, r.chapters, |db.novels|);
  }

  /** Chapters appended by discovery, then changed only in content and flag. */
  lemma CycleRows(base: seq<Chapter>, discovered: seq<Chapter>, chapters: seq<Chapter>, k: nat)
    requires Discovery.Appended(base, discovered, k) && SameChapters(discovered, chapters)
    ensures forall j :: 0 <= j < |base| ==> SameChapter(chapters[j], base[j])
    ensures forall j :: |base| <= j < |chapters| ==>
      && 1 <= chapters[j].novelId <= k
      && chapters[j].sourceUrl.Some? && chapters[j].sourceUrl.value !in ChapterUrls(base)
    ensures forall novelId :: Discovery.RowsOf(chapters[|base|..], novelId) <= Discovery.ChapterCap
  {
    forall j | 0 <= j < |base| ensures SameChapter(chapters[j], base[j]) {
      assert discovered[j] == discovered[..|base|][j];
    }
    var n := |base|;
    assert Discovery.NewRows(base, discovered, k);
    assert forall j :: 0 <= j < |chapters[n..]| ==> chapters[n..][j] == chapters[n + j];
    assert forall j :: 0 <= j < |discovered[n..]| ==> discovered[n..][j] == discovered[n + j];
    forall novelId ensures Discovery.RowsOf(chapters[n..], novelId) <= Discovery.ChapterCap {
      Discovery.RowsOfSameIds(chapters[n..], discovered[n..], novelId);
    }
  }

  /**
   * As the repository stands, building a translation row always raises, so
   * no cycle ever stores a translation.
   */
  lemma AsWrittenCycleTranslatesNothing(db: Db, visit: string -> Discovery.Visit, netloc: string -> string,
                                        discoverFails: int -> bool, fetch: string -> Scraper.Page, scrapeFails: nat -> bool,
                                        gemini: string -> Option<string>, translateFails: nat -> bool)
    ensures Cycle(db, visit, netloc, discoverFails, fetch, scrapeFails, gemini, _ => true, translateFails).translations == db.translations
  {
    var discovered := Discovery.Discover(db, visit, netloc, discoverFails, |db.novels|);
    Discovery.DiscoverGrows(db, visit, netloc, discoverFails, |db.novels|);
    var scraped := Scraper.ScrapePass(discovered, Scraper.Extract(fetch), scrapeFails);
    Scraper.ScrapePassFacts(discovered, Scraper.Extract(fetch), scrapeFails);
    Translator.AsWrittenPassStoresNothing(scraped.0, gemini, translateFails);
  }

  /** The try block of lines 23-37 over a fresh session. */
  method RunCycle(db: Session, visit: string -> Discovery.Visit, netloc: string -> string, discoverFails: int -> bool,
                  fetch: string -> Scraper.Page, scrapeFails: nat -> bool,
                  gemini: string -> Option<string>, createFails: nat -> bool, translateFails: nat -> bool)
    requires db.working == db.committed
    modifies db
    ensures db.committed == Cycle(old(db.committed), visit, netloc, discoverFails, fetch, scrapeFails, gemini, createFails, translateFails)
  {
    Discovery.DiscoverNewChapters(db, visit, netloc, discoverFails);
    var raised := Scraper.ProcessPendingScrapes(db, fetch, scrapeFails);
    if !raised {
      Translator.ProcessPendingTranslations(db, gemini, createFails, translateFails);
    }
  }
}
