/**
 * The catalog walker of scrape_novel_catalog.py: build the URL of each
 * catalog page, collect from every page the links to novel detail pages
 * (first occurrence of each URL wins), then insert the URLs the store does
 * not hold yet in one commit.
 *
 * The page URLs, the link filter and the save pass are pure functions; the
 * link pass is a read-only method with the script's loops, proved equal to a
 * first-occurrence de-duplication of the candidate links; the whole run is a
 * method over a Session, proved equal to the function CatalogRun.
 */
module Catalog {
  import opened Common
  import opened Store

  // ---------------------------------------------------------------------------
  // Page URLs
  // ---------------------------------------------------------------------------

  const NovelsPrefix := "https://twkan.com/novels/"
  const PendingTitle := "Título pendiente"

  /** The URL of catalog page `n` (pages are numbered from 1). */
  function PageUrl(catalogUrl: string, n: nat): string {
    if n == 1 then catalogUrl
    else if Contains(catalogUrl, "_0_0_") then BeforeLast(catalogUrl, '_') + "_" + NatToString(n) + ".html"
    else NovelsPrefix + AfterLast(ReplaceAll(TrimEnd(catalogUrl, '/'), ".html", ""), '/') + "_0_0_" + NatToString(n) + ".html"
  }

  /** What every page URL after the first starts with: the catalog URL up to its last '_' or the category's "_0_0" form. */
  function Stem(catalogUrl: string): string {
    if Contains(catalogUrl, "_0_0_") then BeforeLast(catalogUrl, '_')
    else NovelsPrefix + AfterLast(ReplaceAll(TrimEnd(catalogUrl, '/'), ".html", ""), '/') + "_0_0"
  }

  /** Page n > 1 is the stem, an underscore, the page number and ".html". */
  lemma PageUrlStem(catalogUrl: string, n: nat)
    requires n != 1
    ensures PageUrl(catalogUrl, n) == Stem(catalogUrl) + ['_'] + (NatToString(n) + ".html")
  {
  }

  /** No underscore after the stem: the page number and ".html". */
  lemma SuffixHasNoUnderscore(n: nat)
    ensures forall k :: 0 <= k < |NatToString(n) + ".html"| ==> (NatToString(n) + ".html")[k] != '_'
  {
    var d := NatToString(n);
    forall k | 0 <= k < |d + ".html"| ensures (d + ".html")[k] != '_' {
      if k < |d| {
        assert IsDigit(d[k]);
      }
    }
  }

  /** Different page numbers (other than the first page) give different URLs. */
  lemma PageUrlInjective(catalogUrl: string, n: nat, m: nat)
    requires n != 1 && m != 1
    requires PageUrl(catalogUrl, n) == PageUrl(catalogUrl, m)
    ensures n == m
  {
    PageUrlStem(catalogUrl, n);
    PageUrlStem(catalogUrl, m);
    var p := Stem(catalogUrl) + ['_'];
    var a, b := NatToString(n) + ".html", NatToString(m) + ".html";
    assert p + a == p + b;
    assert a == (p + a)[|p|..] && b == (p + b)[|p|..];
    assert NatToString(n) == a[..|a| - 5] && NatToString(m) == b[..|b| - 5];
    NatToStringInjective(n, m);
  }

  /** The stem followed by '_' holds "_0_0_", so every page URL past the first is in the "_0_0_" form. */
  lemma StemMarked(catalogUrl: string)
    ensures Contains(Stem(catalogUrl) + "_", "_0_0_")
  {
    var c := catalogUrl;
    var stem := Stem(c);
    if Contains(c, "_0_0_") {
      var i := ContainsOffset(c, "_0_0_");
      var k := LastIndex(c, '_');
      assert c[i + 4] == '_';
      assert k.Some? && i + 4 <= k.value;
      assert stem == c[..k.value];
      assert (stem + "_")[i..i + 5] == c[i..i + 5];
      ContainsAt(stem + "_", "_0_0_", i);
    } else {
      var front := NovelsPrefix + AfterLast(ReplaceAll(TrimEnd(c, '/'), ".html", ""), '/');
      assert stem + "_" == front + "_0_0_";
      ContainsItself("_0_0_");
      ContainsInRight(front, "_0_0_", "_0_0_");
    }
  }

  /**
   * Building page n from the URL of any page m > 1, instead of from the
   * catalog URL, gives the same page: the walk can resume from a page URL.
   */
  lemma PageUrlRebase(catalogUrl: string, m: nat, n: nat)
    requires m != 1 && n != 1
    ensures PageUrl(PageUrl(catalogUrl, m), n) == PageUrl(catalogUrl, n)
  {
    var stem := Stem(catalogUrl);
    var tail := NatToString(m) + ".html";
    PageUrlStem(catalogUrl, m);
    PageUrlStem(catalogUrl, n);
    var u := PageUrl(catalogUrl, m);
    assert u == (stem + "_") + tail;
    StemMarked(catalogUrl);
    ContainsInLeft(stem + "_", tail, "_0_0_");
    SuffixHasNoUnderscore(m);
    BeforeLastSplit(stem, '_', tail);
    assert Stem(u) == stem;
    PageUrlStem(u, n);
  }

  // ---------------------------------------------------------------------------
  // Links of a page
  // ---------------------------------------------------------------------------

  /** An `a[href*='/book/']` element: its href attribute, and its inner text, None when reading it raises. */
  datatype Anchor = Anchor(href: Option<string>, text: Option<string>)

  /** A catalog page: navigation raised, the element query raised, or the matching anchors in DOM order. */
  datatype Listing = Unreachable | Unqueryable | Listed(anchors: seq<Anchor>)

  /** An entry of novelas_encontradas. */
  datatype Entry = Entry(url: string, title: string)

  /** The URLs kept: a novel detail page. */
  predicate IsBookUrl(url: string) {
    Contains(url, "/book/") && EndsWith(url, ".html")
  }

  /** The title recorded for a link with inner text `text`: stripped, or the placeholder when the text is empty. */
  function LinkTitle(text: string): (t: string)
    ensures text == "" ==> t == PendingTitle
    ensures text != "" ==> t == Strip(text)
    ensures t == PendingTitle ==> text == "" || Strip(text) == PendingTitle
  {
    if text == "" then PendingTitle else Strip(text)
  }

  function AsSeq<T>(o: Option<T>): seq<T> {
    if o.Some? then [o.value] else []
  }

  /**
   * The entry a link yields when it is new: a non-empty href, joined with the
   * page URL (`join` is urljoin), naming a detail page, with readable text.
   */
  function Candidate(pageUrl: string, a: Anchor, join: (string, string) -> string): Option<Entry> {
    if a.href.Some? && a.href.value != "" && IsBookUrl(join(pageUrl, a.href.value)) && a.text.Some? then
      Some(Entry(join(pageUrl, a.href.value), LinkTitle(a.text.value)))
    else None
  }

  /** The candidates of a page's anchors, in DOM order. */
  function CandidatesOf(pageUrl: string, anchors: seq<Anchor>, join: (string, string) -> string): seq<Entry>
    decreases |anchors|
  {
    if anchors == [] then []
    else CandidatesOf(pageUrl, anchors[..|anchors| - 1], join) + AsSeq(Candidate(pageUrl, anchors[|anchors| - 1], join))
  }

  /** Every candidate names a detail page, reached through a non-empty href of the page. */
  lemma {:induction false} CandidatesAreBookUrls(pageUrl: string, anchors: seq<Anchor>, join: (string, string) -> string)
    ensures forall k :: 0 <= k < |CandidatesOf(pageUrl, anchors, join)| ==>
      IsBookUrl(CandidatesOf(pageUrl, anchors, join)[k].url)
    decreases |anchors|
  {
    if anchors != [] {
      CandidatesAreBookUrls(pageUrl, anchors[..|anchors| - 1], join);
    }
  }

  /** Pages 1 .. max_pages. */
  function PageCount(maxPages: int): nat {
    if maxPages < 0 then 0 else maxPages
  }

  /** The address of every listing page of a catalog: page n is `PageUrl(catalogUrl, n)`. */
  function Pages(catalogUrl: string): nat -> string {
    (n: nat) => PageUrl(catalogUrl, n)
  }

  /**
   * The candidates of pages 1 .. p in order, skipping a page whose load
   * raised; None when the element query of some page raised, which ends the
   * run in the outer exception handler.
   */
  function Walk(pages: nat -> string, fetch: string -> Listing, join: (string, string) -> string, p: nat): Option<seq<Entry>>
    decreases p
  {
    if p == 0 then Some([])
    else
      match Walk(pages, fetch, join, p - 1)
      case None => None
      case Some(prev) =>
        match fetch(pages(p))
        case Unreachable => Some(prev)
        case Unqueryable => None
        case Listed(anchors) => Some(prev + CandidatesOf(pages(p), anchors, join))
  }

  // ---------------------------------------------------------------------------
  // First-occurrence de-duplication
  // ---------------------------------------------------------------------------

  function Urls(es: seq<Entry>): seq<string> {
    seq(|es|, i requires 0 <= i < |es| => es[i].url)
  }

  /** Keep each entry whose URL no earlier kept entry has. */
  function Dedup(xs: seq<Entry>): seq<Entry>
    decreases |xs|
  {
    if xs == [] then []
    else
      var d := Dedup(xs[..|xs| - 1]);
      if xs[|xs| - 1].url in Urls(d) then d else d + [xs[|xs| - 1]]
  }

  /** The position of the first entry with URL `u`. */
  function FirstIndex(xs: seq<Entry>, u: string): (r: nat)
    requires u in Urls(xs)
    ensures r < |xs| && xs[r].url == u
    ensures forall i :: 0 <= i < r ==> xs[i].url != u
    decreases |xs|
  {
    var init := xs[..|xs| - 1];
    if u in Urls(init) then
      var r := FirstIndex(init, u);
      assert xs[r] == init[r];
      r
    else
      assert forall i :: 0 <= i < |init| ==> init[i].url == Urls(init)[i];
      |xs| - 1
  }

  lemma UrlsAppend(es: seq<Entry>, e: Entry)
    ensures Urls(es + [e]) == Urls(es) + [e.url]
  {
  }

  /**
   * The de-duplicated entries are exactly the first occurrences of the URLs
   * seen, each once, in the order in which those URLs first appear.
   */
  lemma {:induction false} DedupFirstOccurrences(xs: seq<Entry>)
    ensures forall u :: u in Urls(Dedup(xs)) <==> u in Urls(xs)
    ensures forall k :: 0 <= k < |Dedup(xs)| ==>
      Dedup(xs)[k].url in Urls(xs) && Dedup(xs)[k] == xs[FirstIndex(xs, Dedup(xs)[k].url)]
    ensures forall k, l :: 0 <= k < l < |Dedup(xs)| ==>
      FirstIndex(xs, Dedup(xs)[k].url) < FirstIndex(xs, Dedup(xs)[l].url)
    decreases |xs|
  {
    if xs != [] {
      var init := xs[..|xs| - 1];
      var x := xs[|xs| - 1];
      DedupFirstOccurrences(init);
      var d := Dedup(init);
      assert xs == init + [x];
      UrlsAppend(init, x);
      forall u | u in Urls(init) ensures FirstIndex(xs, u) == FirstIndex(init, u) {
      }
      if x.url !in Urls(d) {
        UrlsAppend(d, x);
        assert Dedup(xs) == d + [x];
        assert FirstIndex(xs, x.url) == |xs| - 1;
        forall k | 0 <= k < |d| ensures FirstIndex(xs, d[k].url) < |xs| - 1 {
          assert d[k].url == Urls(d)[k];
        }
      } else {
        assert Dedup(xs) == d;
      }
      forall k | 0 <= k < |d| ensures d[k].url in Urls(init) {
        assert d[k].url == Urls(d)[k];
      }
    }
  }

  /** No URL is collected twice. */
  lemma DedupDistinct(xs: seq<Entry>)
    ensures forall k, l :: 0 <= k < l < |Dedup(xs)| ==> Dedup(xs)[k].url != Dedup(xs)[l].url
  {
    DedupFirstOccurrences(xs);
  }

  // ---------------------------------------------------------------------------
  // The link pass, as the script runs it
  // ---------------------------------------------------------------------------

  /** Adding one more candidate to the de-duplication keeps it only when its URL is new. */
  lemma DedupStep(xs: seq<Entry>, o: Option<Entry>)
    ensures Dedup(xs + AsSeq(o)) == if o.Some? && o.value.url !in Urls(Dedup(xs)) then Dedup(xs) + [o.value] else Dedup(xs)
  {
    if o.Some? {
      assert (xs + [o.value])[..|xs|] == xs;
    } else {
      assert xs + AsSeq(o) == xs;
    }
  }

  /**
   * The link loop over one page's anchors, extending the entries collected so
   * far (the first occurrences of `seen`) with this page's new candidates.
   */
  method ScanPage(url: string, anchors: seq<Anchor>, join: (string, string) -> string, found: seq<Entry>, ghost seen: seq<Entry>)
    returns (entries: seq<Entry>)
    requires found == Dedup(seen)
    ensures entries == Dedup(seen + CandidatesOf(url, anchors, join))
  {
    entries := found;
    var i := 0;
    assert seen + CandidatesOf(url, anchors[..0], join) == seen;
    while i < |anchors|
      invariant 0 <= i <= |anchors|
      invariant entries == Dedup(seen + CandidatesOf(url, anchors[..i], join))
    {
      var a := anchors[i];
      ScanStep(url, anchors, join, seen, i);
      if a.href.Some? && a.href.value != "" {
        var full := join(url, a.href.value);
        if IsBookUrl(full) {
          if full !in Urls(entries) {
            if a.text.Some? {
              entries := entries + [Entry(full, LinkTitle(a.text.value))];
            }
          }
        }
      }
      i := i + 1;
    }
    assert anchors[..|anchors|] == anchors;
  }

  /** One more anchor extends the collected entries by its candidate when that candidate's URL is new. */
  lemma ScanStep(url: string, anchors: seq<Anchor>, join: (string, string) -> string, seen: seq<Entry>, i: nat)
    requires i < |anchors|
    ensures var before := Dedup(seen + CandidatesOf(url, anchors[..i], join));
      var c := Candidate(url, anchors[i], join);
      Dedup(seen + CandidatesOf(url, anchors[..i + 1], join)) ==
        if c.Some? && c.value.url !in Urls(before) then before + [c.value] else before
  {
    var before := seen + CandidatesOf(url, anchors[..i], join);
    assert anchors[..i + 1][..i] == anchors[..i];
    assert seen + CandidatesOf(url, anchors[..i + 1], join) == before + AsSeq(Candidate(url, anchors[i], join));
    DedupStep(before, Candidate(url, anchors[i], join));
  }

  /** The walk over one more page, from the entries of the pages before it. */
  lemma WalkStep(pages: nat -> string, fetch: string -> Listing, join: (string, string) -> string, p: nat, seen: seq<Entry>)
    requires p > 0 && Walk(pages, fetch, join, p - 1) == Some(seen)
    ensures fetch(pages(p)).Unreachable? ==> Walk(pages, fetch, join, p) == Some(seen)
    ensures fetch(pages(p)).Unqueryable? ==> Walk(pages, fetch, join, p).None?
    ensures fetch(pages(p)).Listed? ==>
      Walk(pages, fetch, join, p) == Some(seen + CandidatesOf(pages(p), fetch(pages(p)).anchors, join))
  {
  }

  /**
   * The page loop of scrape_novel_catalog: `ok` is false when an element
   * query raised; otherwise `entries` are the collected entries, which are
   * the first occurrences of the candidate links of pages 1 .. max_pages.
   */
  method CollectEntries(pages: nat -> string, maxPages: int, fetch: string -> Listing, join: (string, string) -> string)
    returns (entries: seq<Entry>, ok: bool)
    ensures var w := Walk(pages, fetch, join, PageCount(maxPages));
      ok == w.Some? && (ok ==> entries == Dedup(w.value))
  {
    entries := [];
    ghost var seen: seq<Entry> := [];
    var pageNum := 1;
    while pageNum <= maxPages
      invariant 1 <= pageNum <= PageCount(maxPages) + 1
      invariant Walk(pages, fetch, join, pageNum - 1) == Some(seen)
      invariant entries == Dedup(seen)
    {
      var url := pages(pageNum);
      var listing := fetch(url);
      WalkStep(pages, fetch, join, pageNum, seen);
      if listing.Unqueryable? {
        WalkStaysAborted(pages, fetch, join, pageNum, PageCount(maxPages));
        return [], false;
      }
      if listing.Listed? {
        entries := ScanPage(url, listing.anchors, join, entries, seen);
        seen := seen + CandidatesOf(url, listing.anchors, join);
      }
      pageNum := pageNum + 1;
    }
    ok := true;
  }

  // ---------------------------------------------------------------------------
  // The save pass
  // ---------------------------------------------------------------------------

  /** The row inserted for a new entry. */
  function CatalogNovel(e: Entry): Novel {
    Novel(e.title, Some(e.url), "en_progreso", false)
  }

  /**
   * The rows the save pass adds for entries whose URL the store did not
   * hold; None when constructing one of them raises (`createFails`).
   */
  function SaveRows(entries: seq<Entry>, known: set<string>, createFails: string -> bool): Option<seq<Novel>>
    decreases |entries|
  {
    if entries == [] then Some([])
    else
      match SaveRows(entries[..|entries| - 1], known, createFails)
      case None => None
      case Some(rows) =>
        var e := entries[|entries| - 1];
        if e.url in known then Some(rows)
        else if createFails(e.url) then None
        else Some(rows + [CatalogNovel(e)])
  }

  /** The number of entries already stored (duplicadas). */
  function KnownCount(entries: seq<Entry>, known: set<string>): nat
    decreases |entries|
  {
    if entries == [] then 0
    else KnownCount(entries[..|entries| - 1], known) + (if entries[|entries| - 1].url in known then 1 else 0)
  }

  /**
   * The save pass fails exactly when some new entry's row cannot be
   * constructed; otherwise new and duplicate counts add up to the entries,
   * and each row is the 'en_progreso', unverified row of an entry the store
   * did not hold, in entry order.
   */
  lemma {:induction false} SaveRowsFacts(entries: seq<Entry>, known: set<string>, createFails: string -> bool)
    ensures SaveRows(entries, known, createFails).None? <==>
      exists k :: 0 <= k < |entries| && entries[k].url !in known && createFails(entries[k].url)
    ensures SaveRows(entries, known, createFails).Some? ==>
      var rows := SaveRows(entries, known, createFails).value;
      && |rows| + KnownCount(entries, known) == |entries|
      && forall j :: 0 <= j < |rows| ==> exists k :: 0 <= k < |entries| && entries[k].url !in known && rows[j] == CatalogNovel(entries[k])
    decreases |entries|
  {
    if entries != [] {
      var init := entries[..|entries| - 1];
      var e := entries[|entries| - 1];
      SaveRowsFacts(init, known, createFails);
      forall k | 0 <= k < |init| ensures init[k] == entries[k] { }
      if SaveRows(init, known, createFails).Some? && e.url !in known && createFails(e.url) {
        assert entries[|entries| - 1] == e;
      }
      if SaveRows(entries, known, createFails).Some? {
        var rows := SaveRows(entries, known, createFails).value;
        var prev := SaveRows(init, known, createFails).value;
        forall j | 0 <= j < |rows|
          ensures exists k :: 0 <= k < |entries| && entries[k].url !in known && rows[j] == CatalogNovel(entries[k])
        {
          if j < |prev| {
            var k :| 0 <= k < |init| && init[k].url !in known && prev[j] == CatalogNovel(init[k]);
            assert rows[j] == prev[j] && entries[k] == init[k];
          } else {
            assert rows[j] == CatalogNovel(entries[|entries| - 1]);
          }
        }
      }
    }
  }

  /** The rows of distinct entries have distinct URLs, none of them stored before. */
  lemma {:induction false} SaveRowsFresh(entries: seq<Entry>, known: set<string>, createFails: string -> bool)
    requires forall k, l :: 0 <= k < l < |entries| ==> entries[k].url != entries[l].url
    requires SaveRows(entries, known, createFails).Some?
    ensures var rows := SaveRows(entries, known, createFails).value;
      && (forall j :: 0 <= j < |rows| ==> rows[j].sourceUrl.Some? && rows[j].sourceUrl.value !in known)
      && (forall i, j :: 0 <= i < j < |rows| ==> rows[i].sourceUrl != rows[j].sourceUrl)
    decreases |entries|
  {
    if entries != [] {
      var init := entries[..|entries| - 1];
      var e := entries[|entries| - 1];
      SaveRowsFresh(init, known, createFails);
      SaveRowsFacts(init, known, createFails);
      var prev := SaveRows(init, known, createFails).value;
      var rows := SaveRows(entries, known, createFails).value;
      if rows != prev {
        assert rows == prev + [CatalogNovel(e)];
        forall i | 0 <= i < |prev| ensures prev[i].sourceUrl != Some(e.url) {
          assert exists k :: 0 <= k < |init| && init[k].url !in known && prev[i] == CatalogNovel(init[k]);
          var k :| 0 <= k < |init| && init[k].url !in known && prev[i] == CatalogNovel(init[k]);
          assert init[k] == entries[k];
        }
      }
    }
  }

  // ---------------------------------------------------------------------------
  // The whole run
  // ---------------------------------------------------------------------------

  /**
   * The database after scrape_novel_catalog: the new rows appended to the
   * novels in one commit, or nothing at all when an element query, a row
   * construction or the commit raised (the handler rolls back).
   */
  function CatalogRun(db: Db, catalogUrl: string, maxPages: int, fetch: string -> Listing,
                      join: (string, string) -> string, createFails: string -> bool, commitFails: bool): Db
  {
    match Walk(Pages(catalogUrl), fetch, join, PageCount(maxPages))
    case None => db
    case Some(candidates) =>
      match SaveRows(Dedup(candidates), ExistingUrls(db.novels), createFails)
      case None => db
      case Some(rows) => if commitFails then db else db.(novels := db.novels + rows)
  }

  /**
   * The rows saved for the de-duplicated candidates: each 'en_progreso',
   * unverified, under a detail-page URL the store did not hold, no URL twice.
   */
  lemma NewRowsFacts(xs: seq<Entry>, known: set<string>, createFails: string -> bool)
    requires forall k :: 0 <= k < |xs| ==> IsBookUrl(xs[k].url)
    requires SaveRows(Dedup(xs), known, createFails).Some?
    ensures var rows := SaveRows(Dedup(xs), known, createFails).value;
      && (forall j :: 0 <= j < |rows| ==>
            && rows[j].status == "en_progreso" && !rows[j].verified
            && rows[j].sourceUrl.Some? && rows[j].sourceUrl.value !in known
            && IsBookUrl(rows[j].sourceUrl.value))
      && (forall i, j :: 0 <= i < j < |rows| ==> rows[i].sourceUrl != rows[j].sourceUrl)
  {
    var entries := Dedup(xs);
    DedupDistinct(xs);
    DedupFirstOccurrences(xs);
    forall k | 0 <= k < |entries| ensures IsBookUrl(entries[k].url) {
      assert entries[k] == xs[FirstIndex(xs, entries[k].url)];
    }
    SaveRowsShape(entries, known, createFails);
    SaveRowsFresh(entries, known, createFails);
  }

  /** Every row saved is the 'en_progreso', unverified row of one of the detail-page entries. */
  lemma SaveRowsShape(entries: seq<Entry>, known: set<string>, createFails: string -> bool)
    requires forall k :: 0 <= k < |entries| ==> IsBookUrl(entries[k].url)
    requires SaveRows(entries, known, createFails).Some?
    ensures var rows := SaveRows(entries, known, createFails).value;
      forall j :: 0 <= j < |rows| ==>
        && rows[j].status == "en_progreso" && !rows[j].verified
        && rows[j].sourceUrl.Some? && IsBookUrl(rows[j].sourceUrl.value)
  {
    SaveRowsFacts(entries, known, createFails);
    var rows := SaveRows(entries, known, createFails).value;
    forall j | 0 <= j < |rows| ensures rows[j].sourceUrl.Some? && IsBookUrl(rows[j].sourceUrl.value) {
      var k :| 0 <= k < |entries| && entries[k].url !in known && rows[j] == CatalogNovel(entries[k]);
    }
  }

  /**
   * A run either writes nothing, or appends to the novels one 'en_progreso',
   * unverified row per collected detail-page URL the store did not hold, with
   * no URL twice; nothing else changes.
   */
  lemma CatalogRunFacts(db: Db, catalogUrl: string, maxPages: int, fetch: string -> Listing,
                        join: (string, string) -> string, createFails: string -> bool, commitFails: bool)
    ensures var r := CatalogRun(db, catalogUrl, maxPages, fetch, join, createFails, commitFails);
      && r.chapters == db.chapters && r.translations == db.translations && r.sources == db.sources
      && |r.novels| >= |db.novels| && r.novels[..|db.novels|] == db.novels
      && (forall j :: |db.novels| <= j < |r.novels| ==>
            && r.novels[j].status == "en_progreso" && !r.novels[j].verified
            && r.novels[j].sourceUrl.Some? && r.novels[j].sourceUrl.value !in ExistingUrls(db.novels)
            && IsBookUrl(r.novels[j].sourceUrl.value))
      && (forall i, j :: |db.novels| <= i < j < |r.novels| ==> r.novels[i].sourceUrl != r.novels[j].sourceUrl)
    ensures commitFails ==> CatalogRun(db, catalogUrl, maxPages, fetch, join, createFails, commitFails) == db
  {
    var w := Walk(Pages(catalogUrl), fetch, join, PageCount(maxPages));
    if w.Some? {
      var known := ExistingUrls(db.novels);
      var saved := SaveRows(Dedup(w.value), known, createFails);
      if saved.Some? && !commitFails {
        assert CatalogRun(db, catalogUrl, maxPages, fetch, join, createFails, commitFails) == db.(novels := db.novels + saved.value);
        WalkAreBookUrls(Pages(catalogUrl), fetch, join, PageCount(maxPages));
        NewRowsFacts(w.value, known, createFails);
        AppendNewRows(db, saved.value);
      }
    }
  }

  /** Appending such rows to the novels keeps the stored ones in place and adds only such rows. */
  lemma AppendNewRows(db: Db, rows: seq<Novel>)
    requires forall j :: 0 <= j < |rows| ==>
      && rows[j].status == "en_progreso" && !rows[j].verified
      && rows[j].sourceUrl.Some? && rows[j].sourceUrl.value !in ExistingUrls(db.novels)
      && IsBookUrl(rows[j].sourceUrl.value)
    requires forall i, j :: 0 <= i < j < |rows| ==> rows[i].sourceUrl != rows[j].sourceUrl
    ensures var r := db.(novels := db.novels + rows);
      && r.novels[..|db.novels|] == db.novels
      && (forall j :: |db.novels| <= j < |r.novels| ==>
            && r.novels[j].status == "en_progreso" && !r.novels[j].verified
            && r.novels[j].sourceUrl.Some? && r.novels[j].sourceUrl.value !in ExistingUrls(db.novels)
            && IsBookUrl(r.novels[j].sourceUrl.value))
      && (forall i, j :: |db.novels| <= i < j < |r.novels| ==> r.novels[i].sourceUrl != r.novels[j].sourceUrl)
  {
    var r := db.(novels := db.novels + rows);
    assert r.novels[..|db.novels|] == db.novels;
    assert forall j :: |db.novels| <= j < |r.novels| ==> r.novels[j] == rows[j - |db.novels|];
  }

  /** With every row construction raising, the save pass fails as soon as one entry is new, and saves nothing otherwise. */
  lemma {:induction false} AsWrittenSaveRows(entries: seq<Entry>, known: set<string>)
    ensures SaveRows(entries, known, _ => true) ==
      if exists k :: 0 <= k < |entries| && entries[k].url !in known then None else Some([])
    decreases |entries|
  {
    if entries != [] {
      var init := entries[..|entries| - 1];
      AsWrittenSaveRows(init, known);
      forall k | 0 <= k < |init| ensures init[k] == entries[k] { }
      if exists k :: 0 <= k < |entries| && entries[k].url !in known {
        var k :| 0 <= k < |entries| && entries[k].url !in known;
        if k < |init| {
          assert init[k].url !in known;
        }
      }
    }
  }

  /**
   * What the script does as the repository stands: constructing a Novela
   * row always raises (the model has no estado_original column), so a run
   * leaves the database as it was.
   */
  lemma AsWrittenCatalogSavesNothing(db: Db, catalogUrl: string, maxPages: int, fetch: string -> Listing,
                                     join: (string, string) -> string, commitFails: bool)
    ensures CatalogRun(db, catalogUrl, maxPages, fetch, join, _ => true, commitFails) == db
  {
    var w := Walk(Pages(catalogUrl), fetch, join, PageCount(maxPages));
    if w.Some? {
      AsWrittenSaveRows(Dedup(w.value), ExistingUrls(db.novels));
      assert db.(novels := db.novels + []) == db;
    }
  }

  /**
   * With rows that construct and a commit that succeeds, a walk that
   * completes saves one row for every collected URL the store did not hold.
   */
  lemma CorrectedCatalogSavesNew(db: Db, catalogUrl: string, maxPages: int, fetch: string -> Listing,
                                 join: (string, string) -> string)
    requires Walk(Pages(catalogUrl), fetch, join, PageCount(maxPages)).Some?
    ensures var entries := Dedup(Walk(Pages(catalogUrl), fetch, join, PageCount(maxPages)).value);
      var r := CatalogRun(db, catalogUrl, maxPages, fetch, join, _ => false, false);
      |r.novels| == |db.novels| + |entries| - KnownCount(entries, ExistingUrls(db.novels))
  {
    var entries := Dedup(Walk(Pages(catalogUrl), fetch, join, PageCount(maxPages)).value);
    SaveRowsFacts(entries, ExistingUrls(db.novels), _ => false);
  }

  /** A walk that hit an element query that raised stays aborted. */
  lemma {:induction false} WalkStaysAborted(pages: nat -> string, fetch: string -> Listing, join: (string, string) -> string, p: nat, q: nat)
    requires p <= q && Walk(pages, fetch, join, p).None?
    ensures Walk(pages, fetch, join, q).None?
    decreases q - p
  {
    if p < q {
      WalkStaysAborted(pages, fetch, join, p + 1, q);
    }
  }

  /** Every candidate of a walk names a detail page. */
  lemma {:induction false} WalkAreBookUrls(pages: nat -> string, fetch: string -> Listing, join: (string, string) -> string, p: nat)
    ensures Walk(pages, fetch, join, p).Some? ==>
      forall k :: 0 <= k < |Walk(pages, fetch, join, p).value| ==> IsBookUrl(Walk(pages, fetch, join, p).value[k].url)
    decreases p
  {
    if p > 0 {
      WalkAreBookUrls(pages, fetch, join, p - 1);
      var prev := Walk(pages, fetch, join, p - 1);
      if prev.Some? {
        var url := pages(p);
        var l := fetch(url);
        if l.Listed? {
          var cs := CandidatesOf(url, l.anchors, join);
          CandidatesAreBookUrls(url, l.anchors, join);
          BookUrlsAppend(prev.value, cs);
          assert Walk(pages, fetch, join, p) == Some(prev.value + cs);
        } else if l.Unreachable? {
          assert Walk(pages, fetch, join, p) == prev;
        }
      }
    }
  }

  /** Concatenating two runs of detail-page entries gives one. */
  lemma BookUrlsAppend(a: seq<Entry>, b: seq<Entry>)
    requires forall k :: 0 <= k < |a| ==> IsBookUrl(a[k].url)
    requires forall k :: 0 <= k < |b| ==> IsBookUrl(b[k].url)
    ensures forall k :: 0 <= k < |a + b| ==> IsBookUrl((a + b)[k].url)
  {
    forall k | 0 <= k < |a + b| ensures IsBookUrl((a + b)[k].url) {
      if k >= |a| {
        assert (a + b)[k] == b[k - |a|];
      }
    }
  }

  /**
   * The save pass and the commit: every collected entry is counted as a
   * duplicate or added, then one commit; a construction or commit that raises
   * rolls the session back. The session is fresh (nothing staged).
   */
  method SaveEntries(db: Session, entries: seq<Entry>, known: set<string>, createFails: string -> bool, commitFails: bool)
    returns (nuevas: nat, duplicadas: nat, saved: bool)
    requires db.working == db.committed
    modifies db
    ensures saved == (SaveRows(entries, known, createFails).Some? && !commitFails)
    ensures db.committed == (if saved then old(db.committed).(novels := old(db.committed).novels + SaveRows(entries, known, createFails).value)
                             else old(db.committed))
    ensures db.working == db.committed
    ensures SaveRows(entries, known, createFails).Some? ==>
      nuevas == |SaveRows(entries, known, createFails).value| && duplicadas == KnownCount(entries, known)
  {
    nuevas, duplicadas := 0, 0;
    ghost var rows: seq<Novel> := [];
    var i := 0;
    while i < |entries|
      invariant 0 <= i <= |entries|
      invariant SaveRows(entries[..i], known, createFails) == Some(rows)
      invariant nuevas == |rows| && duplicadas == KnownCount(entries[..i], known)
      invariant db.committed == old(db.committed)
      invariant db.working == old(db.committed).(novels := old(db.committed).novels + rows)
    {
      var e := entries[i];
      assert entries[..i + 1][..i] == entries[..i];
      if e.url in known {
        duplicadas := duplicadas + 1;
      } else {
        if createFails(e.url) {
          db.Rollback();
          SaveRowsStops(entries, known, createFails, i + 1);
          assert entries[..|entries|] == entries;
          return nuevas, duplicadas, false;
        }
        db.AddNovel(CatalogNovel(e));
        rows := rows + [CatalogNovel(e)];
        nuevas := nuevas + 1;
      }
      i := i + 1;
    }
    assert entries[..|entries|] == entries;
    var raised := db.Commit(commitFails);
    if raised {
      db.Rollback();
    }
    saved := !raised;
  }

  /** Once a prefix of the entries fails, all of them do. */
  lemma {:induction false} SaveRowsStops(entries: seq<Entry>, known: set<string>, createFails: string -> bool, n: nat)
    requires n <= |entries| && SaveRows(entries[..n], known, createFails).None?
    ensures SaveRows(entries, known, createFails).None?
    decreases |entries| - n
  {
    if n < |entries| {
      assert entries[..n + 1][..n] == entries[..n];
      SaveRowsStops(entries, known, createFails, n + 1);
    } else {
      assert entries[..n] == entries;
    }
  }

  /** scrape_novel_catalog over a fresh session: the committed state is CatalogRun of the one before. */
  method ScrapeCatalog(db: Session, catalogUrl: string, maxPages: int, fetch: string -> Listing,
                       join: (string, string) -> string, createFails: string -> bool, commitFails: bool)
    requires db.working == db.committed
    modifies db
    ensures db.committed == CatalogRun(old(db.committed), catalogUrl, maxPages, fetch, join, createFails, commitFails)
  {
    var known := ExistingUrls(db.committed.novels);
    var entries, ok := CollectEntries(Pages(catalogUrl), maxPages, fetch, join);
    if !ok {
      db.Rollback();
      return;
    }
    var nuevas, duplicadas, saved := SaveEntries(db, entries, known, createFails, commitFails);
  }
}
