/**
 * The content extractor of app/services/scraper.py: the in-page scan for the
 * longest block with few links, the acceptance floor on its stripped text,
 * and the pass that fills in the content of up to five pending chapters.
 *
 * The rendered page after navigation is an input (a Page); whether the
 * commit after a chapter raises is `commitFails`, keyed by the chapter's
 * index.
 */
module Scraper {
  import opened Common
  import opened Store

  /** A block qualifies only with fewer links than this. */
  const LinkLimit := 5
  /** Accepted text has more characters than this once stripped. */
  const MinChars := 800
  /** At most this many chapters are selected per pass. */
  const PendingLimit := 5
  /** The domain whose source configuration the pass reads. */
  const SkyNovels := "skynovels.net"

  // ---------------------------------------------------------------------------
  // The block scan
  // ---------------------------------------------------------------------------

  /** An element matched by `div, article, section`: its innerText (or "") and its number of descendant anchors. */
  datatype Block = Block(text: string, linkCount: nat)

  predicate FewLinks(b: Block) {
    b.linkCount < LinkLimit
  }

  /**
   * `(maxLen, content)` once the forEach has visited the first `n` blocks; the
   * length compared is JavaScript's, in UTF-16 code units.
   */
  function Scan(blocks: seq<Block>, n: nat): (nat, string)
    requires n <= |blocks|
    decreases n
  {
    if n == 0 then (0, "")
    else
      var prev := Scan(blocks, n - 1);
      var b := blocks[n - 1];
      if Utf16Length(b.text) > prev.0 && FewLinks(b) then (Utf16Length(b.text), b.text) else prev
  }

  /** The string the in-page script returns. */
  function BestText(blocks: seq<Block>): string {
    Scan(blocks, |blocks|).1
  }

  /** Block `k` is, among the first `n` blocks with few links, the earliest of the longest. */
  ghost predicate EarliestLongest(blocks: seq<Block>, n: nat, k: nat) {
    && k < n <= |blocks|
    && FewLinks(blocks[k])
    && (forall j :: 0 <= j < n && FewLinks(blocks[j]) ==> Utf16Length(blocks[j].text) <= Utf16Length(blocks[k].text))
    && (forall j :: 0 <= j < k && FewLinks(blocks[j]) ==> Utf16Length(blocks[j].text) < Utf16Length(blocks[k].text))
  }

  /** What holds of the scan's state `r` after the first `n` blocks. */
  ghost predicate ScanOk(blocks: seq<Block>, n: nat, r: (nat, string))
    requires n <= |blocks|
  {
    && r.0 == Utf16Length(r.1)
    && (forall j :: 0 <= j < n && FewLinks(blocks[j]) ==> Utf16Length(blocks[j].text) <= r.0)
    && (r.1 == "" <==> forall j :: 0 <= j < n && FewLinks(blocks[j]) ==> blocks[j].text == "")
    && (r.1 != "" ==> exists k: nat :: EarliestLongest(blocks, n, k) && r.1 == blocks[k].text)
  }

  lemma {:induction false} ScanFacts(blocks: seq<Block>, n: nat)
    requires n <= |blocks|
    ensures ScanOk(blocks, n, Scan(blocks, n))
    decreases n
  {
    if n > 0 {
      ScanFacts(blocks, n - 1);
      var prev := Scan(blocks, n - 1);
      var b := blocks[n - 1];
      if Utf16Length(b.text) > prev.0 && FewLinks(b) {
        ScanTakes(blocks, n, prev);
      } else {
        ScanKeeps(blocks, n, prev);
      }
    }
  }

  /** A block with few links that is strictly longer than the best so far becomes the best. */
  lemma ScanTakes(blocks: seq<Block>, n: nat, prev: (nat, string))
    requires 0 < n <= |blocks| && ScanOk(blocks, n - 1, prev)
    requires Utf16Length(blocks[n - 1].text) > prev.0 && FewLinks(blocks[n - 1])
    ensures ScanOk(blocks, n, (Utf16Length(blocks[n - 1].text), blocks[n - 1].text))
  {
    assert EarliestLongest(blocks, n, n - 1);
  }

  /** Any other block leaves the best as it was. */
  lemma ScanKeeps(blocks: seq<Block>, n: nat, prev: (nat, string))
    requires 0 < n <= |blocks| && ScanOk(blocks, n - 1, prev)
    requires !(Utf16Length(blocks[n - 1].text) > prev.0 && FewLinks(blocks[n - 1]))
    ensures ScanOk(blocks, n, prev)
  {
    if prev.1 != "" {
      var k: nat :| EarliestLongest(blocks, n - 1, k) && prev.1 == blocks[k].text;
      assert EarliestLongest(blocks, n, k);
    }
    if FewLinks(blocks[n - 1]) && prev.1 == "" {
      assert Utf16Length(blocks[n - 1].text) == 0;
    }
  }

  /**
   * The script returns the text of the earliest longest block with fewer
   * than five links, and "" exactly when every such block is empty.
   */
  lemma BestTextIsEarliestLongest(blocks: seq<Block>)
    ensures BestText(blocks) == "" <==> forall j :: 0 <= j < |blocks| && FewLinks(blocks[j]) ==> blocks[j].text == ""
    ensures BestText(blocks) != "" ==> exists k: nat :: EarliestLongest(blocks, |blocks|, k) && BestText(blocks) == blocks[k].text
  {
    ScanFacts(blocks, |blocks|);
  }

  /** Lines 27-43: the forEach over the blocks, keeping the first strictly longer one. */
  method BestBlock(blocks: seq<Block>) returns (content: string)
    ensures content == BestText(blocks)
  {
    var maxLen := 0;
    content := "";
    var i := 0;
    while i < |blocks|
      invariant 0 <= i <= |blocks|
      invariant (maxLen, content) == Scan(blocks, i)
    {
      var b := blocks[i];
      var len := Utf16Length(b.text);
      if len > maxLen && b.linkCount < LinkLimit {
        maxLen := len;
        content := b.text;
      }
      i := i + 1;
    }
  }

  // ---------------------------------------------------------------------------
  // Acceptance
  // ---------------------------------------------------------------------------

  /** Lines 45-51: the stripped text when it is non-empty and longer than 800 characters. */
  function Accept(text: string): Option<string> {
    if text != "" && |Strip(text)| > MinChars then Some(Strip(text)) else None
  }

  /**
   * Accepted text is more than 800 characters with no surrounding whitespace,
   * and is accepted again unchanged; text is refused exactly when its
   * stripped form is 800 characters or fewer.
   */
  lemma AcceptFacts(text: string)
    ensures Accept(text).None? <==> |Strip(text)| <= MinChars
    ensures Accept(text).Some? ==>
      var t := Accept(text).value;
      && t == Strip(text) && |t| > MinChars && !IsSpace(t[0]) && !IsSpace(t[|t| - 1])
      && Accept(t) == Accept(text)
  {
    if text == "" {
      assert Strip(text) == [];
    }
    if Accept(text).Some? {
      StripFixed(Strip(text));
    }
  }

  /** The page once navigation is over: Failed when goto or evaluate raised. */
  datatype Page = Failed | Evaluated(blocks: seq<Block>)

  /**
   * scrape_chapter_content: None when the page failed, otherwise the accepted
   * best text. The selector argument is not used by the source and is not a
   * parameter here.
   */
  function ScrapeContent(page: Page): Option<string> {
    match page
    case Failed => None
    case Evaluated(blocks) => Accept(BestText(blocks))
  }

  /**
   * Extracted content is the stripped text of the earliest longest block with
   * few links, and is longer than 800 characters.
   */
  lemma ScrapedContentFacts(page: Page)
    ensures ScrapeContent(page).Some? ==>
      && page.Evaluated?
      && |ScrapeContent(page).value| > MinChars
      && exists k: nat :: EarliestLongest(page.blocks, |page.blocks|, k) && ScrapeContent(page).value == Strip(page.blocks[k].text)
  {
    if ScrapeContent(page).Some? {
      AcceptFacts(BestText(page.blocks));
      BestTextIsEarliestLongest(page.blocks);
    }
  }

  /** scrape_chapter_content, over the rendered page. */
  method ScrapeChapterContent(page: Page) returns (content: Option<string>)
    ensures content == ScrapeContent(page)
  {
    if page.Failed? {
      return None;
    }
    var best := BestBlock(page.blocks);
    if best != "" && |Strip(best)| > MinChars {
      return Some(Strip(best));
    }
    return None;
  }

  /** What the pass stores for a chapter URL, given the page each URL renders. */
  function Extract(fetch: string -> Page): string -> Option<string> {
    url => ScrapeContent(fetch(url))
  }

  // ---------------------------------------------------------------------------
  // The pending pass
  // ---------------------------------------------------------------------------

  /** The first `limit` chapters from index `i` on with no content, in table order. */
  function PendingFrom(chapters: seq<Chapter>, i: nat, limit: nat): seq<nat>
    requires i <= |chapters|
    decreases |chapters| - i
  {
    if i == |chapters| || limit == 0 then []
    else if chapters[i].content.None? then [i] + PendingFrom(chapters, i + 1, limit - 1)
    else PendingFrom(chapters, i + 1, limit)
  }

  /** Lines 61-63: the chapters with NULL content, at most five. */
  function Pending(chapters: seq<Chapter>): seq<nat> {
    PendingFrom(chapters, 0, PendingLimit)
  }

  lemma {:induction false} PendingFromFacts(chapters: seq<Chapter>, i: nat, limit: nat)
    requires i <= |chapters|
    ensures var p := PendingFrom(chapters, i, limit);
      && |p| <= limit
      && (forall j :: 0 <= j < |p| ==> i <= p[j] < |chapters| && chapters[p[j]].content.None?)
      && (forall j, k :: 0 <= j < k < |p| ==> p[j] < p[k])
      && (forall c :: i <= c < |chapters| && chapters[c].content.None? && c !in p ==>
            |p| == limit && forall j :: 0 <= j < |p| ==> p[j] < c)
    decreases |chapters| - i
  {
    if i < |chapters| && limit > 0 {
      if chapters[i].content.None? {
        PendingFromFacts(chapters, i + 1, limit - 1);
      } else {
        PendingFromFacts(chapters, i + 1, limit);
      }
    }
  }

  /** Every selected index is a chapter's. */
  lemma PendingInRange(chapters: seq<Chapter>)
    ensures forall j :: 0 <= j < |Pending(chapters)| ==> Pending(chapters)[j] < |chapters|
  {
    PendingFromFacts(chapters, 0, PendingLimit);
  }

  /**
   * At most five chapters are selected, in table order, all with NULL content;
   * a chapter with NULL content is left out only when five earlier ones were
   * selected; nothing is selected exactly when no chapter lacks content.
   */
  lemma PendingFacts(chapters: seq<Chapter>)
    ensures var p := Pending(chapters);
      && |p| <= PendingLimit
      && (forall j :: 0 <= j < |p| ==> p[j] < |chapters| && chapters[p[j]].content.None?)
      && (forall j, k :: 0 <= j < k < |p| ==> p[j] < p[k])
      && (forall c :: 0 <= c < |chapters| && chapters[c].content.None? && c !in p ==>
            |p| == PendingLimit && forall j :: 0 <= j < |p| ==> p[j] < c)
      && (p == [] <==> forall c :: 0 <= c < |chapters| ==> chapters[c].content.Some?)
  {
    PendingFromFacts(chapters, 0, PendingLimit);
    var p := Pending(chapters);
    if p != [] {
      assert chapters[p[0]].content.None?;
    }
  }

  /**
   * Lines 71-76 raise for the chapter: no source contains "skynovels.net"
   * (`fuente` is None), its configuration is NULL, or the chapter's novel is
   * missing (`novela` is None).
   */
  predicate LookupRaises(db: Db, c: Chapter) {
    var s := FindSource(db.sources, SkyNovels);
    s.None? || db.sources[s.value].config.None? || !(1 <= c.novelId <= |db.novels|)
  }

  /**
   * One iteration for chapter `i`, with `contents` the text stored for a URL:
   * the new committed database, and whether an exception left the pass.
   * A chapter without URL makes page.goto raise inside the try: no content.
   */
  function ScrapeStep(db: Db, i: nat, contents: string -> Option<string>, commitFails: nat -> bool): (r: (Db, bool))
    requires i < |db.chapters|
    ensures r.0.novels == db.novels && r.0.translations == db.translations && r.0.sources == db.sources
    ensures |r.0.chapters| == |db.chapters|
  {
    var c := db.chapters[i];
    if LookupRaises(db, c) then (db, true)
    else if c.sourceUrl.None? then (db, false)
    else
      match contents(c.sourceUrl.value)
      case None => (db, false)
      case Some(t) =>
        if commitFails(i) then (db, true)
        else (db.(chapters := db.chapters[i := c.(content := Some(t))]), false)
  }

  /** The iterations over the selected chapters from the `k`-th on; an exception ends the pass. */
  function ScrapeFrom(db: Db, pending: seq<nat>, k: nat, contents: string -> Option<string>, commitFails: nat -> bool): (r: (Db, bool))
    requires k <= |pending|
    requires forall j :: 0 <= j < |pending| ==> pending[j] < |db.chapters|
    ensures r.0.novels == db.novels && r.0.translations == db.translations && r.0.sources == db.sources
    ensures |r.0.chapters| == |db.chapters|
    decreases |pending| - k
  {
    if k == |pending| then (db, false)
    else
      var step := ScrapeStep(db, pending[k], contents, commitFails);
      if step.1 then step else ScrapeFrom(step.0, pending, k + 1, contents, commitFails)
  }

  /** process_pending_scrapes: the committed database afterwards, and whether it raised. */
  function ScrapePass(db: Db, contents: string -> Option<string>, commitFails: nat -> bool): (Db, bool)
  {
    PendingInRange(db.chapters);
    ScrapeFrom(db, Pending(db.chapters), 0, contents, commitFails)
  }

  /**
   * Chapter `j` of `after` is chapter `j` of `before`, or it is a selected
   * chapter that had no content and now holds what its URL gave.
   */
  ghost predicate WrittenOnce(before: Db, after: Db, pending: seq<nat>, contents: string -> Option<string>) {
    && |after.chapters| == |before.chapters|
    && forall j :: 0 <= j < |before.chapters| ==> WrittenOnceAt(before.chapters[j], after.chapters[j], j in pending, contents)
  }

  ghost predicate WrittenOnceAt(before: Chapter, after: Chapter, selected: bool, contents: string -> Option<string>) {
    || after == before
    || (&& selected
        && before.content.None?
        && before.sourceUrl.Some?
        && contents(before.sourceUrl.value).Some?
        && after == before.(content := contents(before.sourceUrl.value)))
  }

  /** A write-once change followed by another is one: the second cannot touch what the first filled. */
  lemma WrittenOnceTrans(a: Db, b: Db, c: Db, pending: seq<nat>, contents: string -> Option<string>)
    requires WrittenOnce(a, b, pending, contents) && WrittenOnce(b, c, pending, contents)
    ensures WrittenOnce(a, c, pending, contents)
  {
    forall j | 0 <= j < |a.chapters| ensures WrittenOnceAt(a.chapters[j], c.chapters[j], j in pending, contents) {
      assert WrittenOnceAt(a.chapters[j], b.chapters[j], j in pending, contents);
      assert WrittenOnceAt(b.chapters[j], c.chapters[j], j in pending, contents);
    }
  }

  /** One iteration writes at most its own chapter, once. */
  lemma ScrapeStepWritesOnce(db: Db, pending: seq<nat>, k: nat, contents: string -> Option<string>, commitFails: nat -> bool)
    requires k < |pending| && pending[k] < |db.chapters| && db.chapters[pending[k]].content.None?
    ensures WrittenOnce(db, ScrapeStep(db, pending[k], contents, commitFails).0, pending, contents)
    ensures forall j :: 0 <= j < |db.chapters| && j != pending[k] ==>
      ScrapeStep(db, pending[k], contents, commitFails).0.chapters[j] == db.chapters[j]
  {
    var r := ScrapeStep(db, pending[k], contents, commitFails).0;
    assert pending[k] in pending;
    forall j | 0 <= j < |db.chapters| ensures WrittenOnceAt(db.chapters[j], r.chapters[j], j in pending, contents) {
      if j != pending[k] {
        assert r.chapters[j] == db.chapters[j];
      }
    }
  }

  lemma {:induction false} ScrapeFromWritesOnce(db: Db, pending: seq<nat>, k: nat, contents: string -> Option<string>, commitFails: nat -> bool)
    requires k <= |pending|
    requires forall j :: 0 <= j < |pending| ==> pending[j] < |db.chapters|
    requires forall j, l :: 0 <= j < l < |pending| ==> pending[j] < pending[l]
    requires forall j :: k <= j < |pending| ==> db.chapters[pending[j]].content.None?
    ensures WrittenOnce(db, ScrapeFrom(db, pending, k, contents, commitFails).0, pending, contents)
    decreases |pending| - k
  {
    if k == |pending| {
      assert WrittenOnce(db, db, pending, contents);
    } else {
      var step := ScrapeStep(db, pending[k], contents, commitFails);
      ScrapeStepWritesOnce(db, pending, k, contents, commitFails);
      if !step.1 {
        forall j | k + 1 <= j < |pending| ensures step.0.chapters[pending[j]].content.None? {
          assert pending[k] < pending[j];
        }
        ScrapeFromWritesOnce(step.0, pending, k + 1, contents, commitFails);
        WrittenOnceTrans(db, step.0, ScrapeFrom(step.0, pending, k + 1, contents, commitFails).0, pending, contents);
      }
    }
  }

  /**
   * From the `k`-th selected chapter on, a pass that raises nothing stores in
   * each chapter whose URL gave text exactly that text.
   */
  lemma {:induction false} ScrapeFromWrites(db: Db, pending: seq<nat>, k: nat, contents: string -> Option<string>, commitFails: nat -> bool)
    requires k <= |pending|
    requires forall j :: 0 <= j < |pending| ==> pending[j] < |db.chapters|
    requires forall j, l :: 0 <= j < l < |pending| ==> pending[j] < pending[l]
    requires forall j :: k <= j < |pending| ==> db.chapters[pending[j]].content.None?
    ensures var r := ScrapeFrom(db, pending, k, contents, commitFails);
      !r.1 ==> forall j :: k <= j < |pending| && db.chapters[pending[j]].sourceUrl.Some? &&
                           contents(db.chapters[pending[j]].sourceUrl.value).Some? ==>
                 r.0.chapters[pending[j]].content == contents(db.chapters[pending[j]].sourceUrl.value)
    decreases |pending| - k
  {
    if k < |pending| {
      var step := ScrapeStep(db, pending[k], contents, commitFails);
      if !step.1 {
        ScrapeStepWritesOnce(db, pending, k, contents, commitFails);
        forall j | k + 1 <= j < |pending| ensures step.0.chapters[pending[j]] == db.chapters[pending[j]] {
          assert pending[k] < pending[j];
        }
        ScrapeFromWrites(step.0, pending, k + 1, contents, commitFails);
        ScrapeFromWritesOnce(step.0, pending, k + 1, contents, commitFails);
        var r := ScrapeFrom(step.0, pending, k + 1, contents, commitFails).0;
        assert WrittenOnceAt(step.0.chapters[pending[k]], r.chapters[pending[k]], pending[k] in pending, contents);
      }
    }
  }

  /**
   * A pass changes only the content of selected chapters that had none, to
   * what their URL gave; every other table stays as it was; content already
   * stored is never overwritten; a chapter whose URL gave nothing keeps NULL
   * content and stays eligible; and, when the pass raises nothing, every
   * selected chapter whose URL gave text now holds that text.
   */
  lemma ScrapePassFacts(db: Db, contents: string -> Option<string>, commitFails: nat -> bool)
    ensures var r := ScrapePass(db, contents, commitFails).0;
      && r.novels == db.novels && r.translations == db.translations && r.sources == db.sources
      && WrittenOnce(db, r, Pending(db.chapters), contents)
      && (forall j :: 0 <= j < |db.chapters| && db.chapters[j].content.Some? ==> r.chapters[j] == db.chapters[j])
      && (forall j :: (0 <= j < |db.chapters| && db.chapters[j].sourceUrl.Some? &&
                       contents(db.chapters[j].sourceUrl.value).None?) ==> r.chapters[j] == db.chapters[j])
    ensures var r := ScrapePass(db, contents, commitFails);
      !r.1 ==> forall j :: (j in Pending(db.chapters) && j < |db.chapters| && db.chapters[j].sourceUrl.Some? &&
                            contents(db.chapters[j].sourceUrl.value).Some?) ==>
                 r.0.chapters[j].content == contents(db.chapters[j].sourceUrl.value)
  {
    PendingFacts(db.chapters);
    ScrapeFromWritesOnce(db, Pending(db.chapters), 0, contents, commitFails);
    ScrapeFromWrites(db, Pending(db.chapters), 0, contents, commitFails);
    var r := ScrapePass(db, contents, commitFails).0;
    forall j | 0 <= j < |db.chapters| ensures WrittenOnceAt(db.chapters[j], r.chapters[j], j in Pending(db.chapters), contents) { }
  }

  /** With nothing pending, nothing changes and nothing raises. */
  lemma NothingPendingNoChange(db: Db, contents: string -> Option<string>, commitFails: nat -> bool)
    requires forall c :: 0 <= c < |db.chapters| ==> db.chapters[c].content.Some?
    ensures ScrapePass(db, contents, commitFails) == (db, false)
  {
    PendingFacts(db.chapters);
  }

  /** Without a source for "skynovels.net", a pass with work to do raises at once, writing nothing. */
  lemma NoSourceAborts(db: Db, contents: string -> Option<string>, commitFails: nat -> bool)
    requires FindSource(db.sources, SkyNovels).None?
    requires exists c :: 0 <= c < |db.chapters| && db.chapters[c].content.None?
    ensures ScrapePass(db, contents, commitFails) == (db, true)
  {
    PendingFacts(db.chapters);
  }

  /**
   * A chapter the pass filled is never selected by a later pass: stored
   * content takes it out of the selection for good.
   */
  lemma FilledNotReselected(db: Db, contents: string -> Option<string>, commitFails: nat -> bool, j: nat)
    requires j < |db.chapters|
    requires ScrapePass(db, contents, commitFails).0.chapters[j] != db.chapters[j]
    ensures j !in Pending(ScrapePass(db, contents, commitFails).0.chapters)
  {
    ScrapePassFacts(db, contents, commitFails);
    var r := ScrapePass(db, contents, commitFails).0;
    assert WrittenOnceAt(db.chapters[j], r.chapters[j], j in Pending(db.chapters), contents);
    PendingFacts(r.chapters);
    assert r.chapters[j].content.Some?;
  }

  /** The content a pass over rendered pages stores is stripped and longer than 800 characters. */
  lemma StoredContentIsAccepted(db: Db, fetch: string -> Page, commitFails: nat -> bool, j: nat)
    requires j < |db.chapters|
    requires ScrapePass(db, Extract(fetch), commitFails).0.chapters[j] != db.chapters[j]
    ensures var t := ScrapePass(db, Extract(fetch), commitFails).0.chapters[j].content;
      t.Some? && |t.value| > MinChars && Strip(t.value) == t.value
  {
    ScrapePassFacts(db, Extract(fetch), commitFails);
    var r := ScrapePass(db, Extract(fetch), commitFails).0;
    assert WrittenOnceAt(db.chapters[j], r.chapters[j], j in Pending(db.chapters), Extract(fetch));
    var url := db.chapters[j].sourceUrl.value;
    ScrapedContentFacts(fetch(url));
    AcceptFacts(BestText(fetch(url).blocks));
  }

  /**
   * process_pending_scrapes over a session with nothing staged; `raised`
   * when an exception left the function.
   */
  method ProcessPendingScrapes(db: Session, fetch: string -> Page, commitFails: nat -> bool) returns (raised: bool)
    requires db.working == db.committed
    modifies db
    ensures (db.committed, raised) == ScrapePass(old(db.committed), Extract(fetch), commitFails)
    ensures !raised ==> db.working == db.committed
  {
    PendingInRange(db.committed.chapters);
    var pending := Pending(db.committed.chapters);
    ghost var db0 := db.committed;
    var k := 0;
    while k < |pending|
      invariant 0 <= k <= |pending|
      invariant |db.committed.chapters| == |db0.chapters|
      invariant ScrapeFrom(db.committed, pending, k, Extract(fetch), commitFails) == ScrapeFrom(db0, pending, 0, Extract(fetch), commitFails)
      invariant db.working == db.committed
    {
      raised := ScrapeOne(db, pending[k], fetch, commitFails);
      if raised {
        return true;
      }
      k := k + 1;
    }
    return false;
  }

  /** One iteration of the loop of lines 69-85, for chapter `i`. */
  method ScrapeOne(db: Session, i: nat, fetch: string -> Page, commitFails: nat -> bool) returns (raised: bool)
    requires db.working == db.committed && i < |db.committed.chapters|
    modifies db
    ensures (db.committed, raised) == ScrapeStep(old(db.committed), i, Extract(fetch), commitFails)
    ensures !raised ==> db.working == db.committed
  {
    var cap := db.committed.chapters[i];
    var source := FindSource(db.committed.sources, SkyNovels);
    if source.None? || db.committed.sources[source.value].config.None? || !(1 <= cap.novelId <= |db.committed.novels|) {
      return true;
    }
    if cap.sourceUrl.None? {
      return false;
    }
    var content := ScrapeChapterContent(fetch(cap.sourceUrl.value));
    assert content == Extract(fetch)(cap.sourceUrl.value);
    if content.None? {
      return false;
    }
    db.SetContent(i, content.value);
    raised := db.Commit(commitFails(i));
  }
}
