/**
 * The chapter discoverer of app/services/discovery.py: for every novel with a
 * source URL and a configured source for its domain, render the novel page,
 * select the chapter links, and insert up to ten chapters whose URL the store
 * does not hold, committing once per novel and rolling back only that novel
 * on an exception.
 *
 * The rendered page is an input (a Visit); urlparse(...).netloc is the
 * function `netloc`; whether each novel's commit raises is `commitFails`.
 */
module Discovery {
  import opened Common
  import opened Store

  /** At most this many chapters are inserted per novel and run. */
  const ChapterCap := 10

  /** A link element: its href attribute and its inner text, None when reading the text raises. */
  datatype Link = Link(href: Option<string>, text: Option<string>)

  /**
   * The novel page after navigation, the clicks and the volume expansion:
   * Broken when a step outside the tolerated navigation timeout raised;
   * otherwise the elements of the chapter-link selector and all anchors, in
   * DOM order.
   */
  datatype Visit = Broken | Rendered(located: seq<Link>, anchors: seq<Link>)

  // ---------------------------------------------------------------------------
  // Link selection
  // ---------------------------------------------------------------------------

  /** The fallback filter: a non-empty href naming "/capitulo", or a text naming "capítulo", in any letter case. */
  predicate ChapterLike(href: Option<string>, text: string) {
    href.Some? && href.value != "" && (Contains(Lower(href.value), "/capitulo") || Contains(Lower(text), "capítulo"))
  }

  /** The fallback pass over all anchors; None when reading some anchor's text raises. */
  function Fallback(anchors: seq<Link>): Option<seq<Link>>
    decreases |anchors|
  {
    if anchors == [] then Some([])
    else
      match Fallback(anchors[..|anchors| - 1])
      case None => None
      case Some(kept) =>
        var l := anchors[|anchors| - 1];
        if l.text.None? then None
        else if ChapterLike(l.href, l.text.value) then Some(kept + [l])
        else Some(kept)
  }

  /** enlaces_finales: the selector's elements when there is one, otherwise the fallback. */
  function SelectLinks(located: seq<Link>, anchors: seq<Link>): Option<seq<Link>> {
    if |located| > 0 then Some(located) else Fallback(anchors)
  }

  /** The fallback keeps exactly the chapter-like anchors, in DOM order, when every text is readable. */
  lemma {:induction false} FallbackFilters(anchors: seq<Link>)
    ensures Fallback(anchors).None? <==> exists k :: 0 <= k < |anchors| && anchors[k].text.None?
    ensures Fallback(anchors).Some? ==>
      Fallback(anchors).value == FilterLinks(anchors)
    decreases |anchors|
  {
    if anchors != [] {
      var init := anchors[..|anchors| - 1];
      FallbackFilters(init);
      forall k | 0 <= k < |init| ensures init[k] == anchors[k] { }
      if Fallback(init).None? {
        var k :| 0 <= k < |init| && init[k].text.None?;
        assert anchors[k].text.None?;
      }
    }
  }

  /** The chapter-like anchors (of a sequence whose texts are all readable), as a filter. */
  function FilterLinks(anchors: seq<Link>): seq<Link>
    decreases |anchors|
  {
    if anchors == [] then []
    else
      var l := anchors[|anchors| - 1];
      FilterLinks(anchors[..|anchors| - 1]) + (if l.text.Some? && ChapterLike(l.href, l.text.value) then [l] else [])
  }

  /** Every link kept by the fallback is chapter-like and is one of the anchors. */
  lemma {:induction false} FilterLinksSound(anchors: seq<Link>)
    ensures forall j :: 0 <= j < |FilterLinks(anchors)| ==>
      FilterLinks(anchors)[j] in anchors && FilterLinks(anchors)[j].text.Some? &&
      ChapterLike(FilterLinks(anchors)[j].href, FilterLinks(anchors)[j].text.value)
    decreases |anchors|
  {
    if anchors != [] {
      FilterLinksSound(anchors[..|anchors| - 1]);
      assert forall l :: l in anchors[..|anchors| - 1] ==> l in anchors;
    }
  }

  /**
   * Lines 73-83: the selector's elements, or the loop over all anchors;
   * `ok` is false when reading an anchor's text raised.
   */
  method CollectLinks(located: seq<Link>, anchors: seq<Link>) returns (links: seq<Link>, ok: bool)
    ensures ok == SelectLinks(located, anchors).Some?
    ensures ok ==> links == SelectLinks(located, anchors).value
  {
    if |located| > 0 {
      return located, true;
    }
    links := [];
    var i := 0;
    while i < |anchors|
      invariant 0 <= i <= |anchors|
      invariant Fallback(anchors[..i]) == Some(links)
    {
      var l := anchors[i];
      assert anchors[..i + 1][..i] == anchors[..i];
      if l.text.None? {
        FallbackStaysFailed(anchors, i + 1);
        return [], false;
      }
      if l.href.Some? && l.href.value != "" && (Contains(Lower(l.href.value), "/capitulo") || Contains(Lower(l.text.value), "capítulo")) {
        links := links + [l];
      }
      i := i + 1;
    }
    assert anchors[..|anchors|] == anchors;
    ok := true;
  }

  /** Once a prefix of the anchors has an unreadable text, the whole pass fails. */
  lemma {:induction false} FallbackStaysFailed(anchors: seq<Link>, n: nat)
    requires n <= |anchors| && Fallback(anchors[..n]).None?
    ensures Fallback(anchors).None?
    decreases |anchors| - n
  {
    if n < |anchors| {
      assert anchors[..n + 1][..n] == anchors[..n];
      FallbackStaysFailed(anchors, n + 1);
    } else {
      assert anchors[..n] == anchors;
    }
  }

  // ---------------------------------------------------------------------------
  // The insert loop
  // ---------------------------------------------------------------------------

  /** A relative href (one starting with '/') becomes https://{domain}{href}; any other is kept. */
  function FixUrl(domain: string, href: string): string {
    if StartsWith(href, "/") then "https://" + domain + href else href
  }

  /** The stored title: every "SS - " removed, then stripped. */
  function CleanTitle(text: string): string {
    Strip(ReplaceAll(text, "SS - ", ""))
  }

  /** A link the insert loop takes: its position + 1, its inner text and its resolved URL. */
  datatype Pick = Pick(number: int, text: string, url: string)

  /** The chapter row inserted for a pick: numero_capitulo = index + 1, no content yet. */
  function NewChapter(novelId: int, pk: Pick): Chapter {
    Chapter(novelId, pk.number, CleanTitle(pk.text), Some(pk.url), None, false)
  }

  /** The rows of a sequence of picks, in order. */
  function Rows(novelId: int, picks: seq<Pick>): seq<Chapter> {
    seq(|picks|, j requires 0 <= j < |picks| => NewChapter(novelId, picks[j]))
  }

  /** Link `p` has a non-empty href whose URL is not among `known`: the loop would insert it. */
  predicate Eligible(domain: string, links: seq<Link>, known: set<string>, p: nat)
    requires p < |links|
  {
    links[p].href.Some? && links[p].href.value != "" && FixUrl(domain, links[p].href.value) !in known
  }

  /**
   * The links the insert loop takes among the first `i`: None when reading
   * a link's text raised; once ten are taken the loop stops looking at links.
   * `known` are the committed chapter URLs, which is all the existence query
   * can see with autoflush off.
   */
  function InsertPass(domain: string, links: seq<Link>, known: set<string>, i: nat): Option<seq<Pick>>
    requires i <= |links|
    decreases i
  {
    if i == 0 then Some([])
    else
      match InsertPass(domain, links, known, i - 1)
      case None => None
      case Some(picks) =>
        if |picks| >= ChapterCap then Some(picks)
        else if links[i - 1].text.None? then None
        else if !Eligible(domain, links, known, i - 1) then Some(picks)
        else Some(picks + [Pick(i, links[i - 1].text.value, FixUrl(domain, links[i - 1].href.value))])
  }

  /** Pick `pk` is eligible link `pk.number` - 1 among the first `i`, with its text and URL. */
  ghost predicate PickOfLink(pk: Pick, domain: string, links: seq<Link>, known: set<string>, i: nat) {
    && 1 <= pk.number <= i <= |links|
    && links[pk.number - 1].text == Some(pk.text)
    && Eligible(domain, links, known, pk.number - 1)
    && pk.url == FixUrl(domain, links[pk.number - 1].href.value)
  }

  /** Every pick is its link's. */
  ghost predicate Staged(picks: seq<Pick>, domain: string, links: seq<Link>, known: set<string>, i: nat) {
    forall j :: 0 <= j < |picks| ==> PickOfLink(picks[j], domain, links, known, i)
  }

  /** Numbers strictly increase along the picks. */
  ghost predicate Increasing(picks: seq<Pick>) {
    forall j, k :: 0 <= j < k < |picks| ==> picks[j].number < picks[k].number
  }

  /** Row `row` is the insert of novel `novelId` for eligible link `links[row.number - 1]`. */
  ghost predicate RowOfLink(row: Chapter, novelId: int, domain: string, links: seq<Link>, known: set<string>, i: nat) {
    && 1 <= row.number <= i <= |links|
    && links[row.number - 1].text.Some?
    && Eligible(domain, links, known, row.number - 1)
    && row == Chapter(novelId, row.number, CleanTitle(links[row.number - 1].text.value),
                      Some(FixUrl(domain, links[row.number - 1].href.value)), None, false)
  }

  /**
   * At most ten rows; each of the novel, numbered by its link's position + 1
   * (links skipped as existing still count), under a URL no committed chapter
   * has, with the cleaned text as title and no content; numbers increasing.
   */
  lemma InsertPassFacts(novelId: int, domain: string, links: seq<Link>, known: set<string>, i: nat)
    requires i <= |links|
    ensures InsertPass(domain, links, known, i).Some? ==>
      var rows := Rows(novelId, InsertPass(domain, links, known, i).value);
      && |rows| <= ChapterCap
      && (forall j :: 0 <= j < |rows| ==> RowOfLink(rows[j], novelId, domain, links, known, i))
      && (forall j, k :: 0 <= j < k < |rows| ==> rows[j].number < rows[k].number)
  {
    if InsertPass(domain, links, known, i).Some? {
      var picks := InsertPass(domain, links, known, i).value;
      var rows := Rows(novelId, picks);
      StagedPicks(domain, links, known, i, picks);
      forall j | 0 <= j < |rows| ensures RowOfLink(rows[j], novelId, domain, links, known, i) {
        assert PickOfLink(picks[j], domain, links, known, i);
      }
    }
  }

  /** One step of the insert loop: the picks gain at most the link's own. */
  lemma StepShape(domain: string, links: seq<Link>, known: set<string>, i: nat)
    requires 0 < i <= |links|
    requires InsertPass(domain, links, known, i).Some?
    ensures InsertPass(domain, links, known, i - 1).Some?
    ensures var prev := InsertPass(domain, links, known, i - 1).value;
      var picks := InsertPass(domain, links, known, i).value;
      && (picks == prev || (|prev| < ChapterCap && Eligible(domain, links, known, i - 1) && links[i - 1].text.Some? &&
                          picks == prev + [Pick(i, links[i - 1].text.value, FixUrl(domain, links[i - 1].href.value))]))
      && (|prev| < ChapterCap ==> links[i - 1].text.Some?)
      && (|prev| < ChapterCap && Eligible(domain, links, known, i - 1) ==> picks != prev)
  {
  }

  lemma {:induction false} StagedPicks(domain: string, links: seq<Link>, known: set<string>, i: nat, picks: seq<Pick>)
    requires i <= |links|
    requires InsertPass(domain, links, known, i) == Some(picks)
    ensures |picks| <= ChapterCap && Staged(picks, domain, links, known, i) && Increasing(picks)
    decreases i
  {
    if i > 0 {
      StepShape(domain, links, known, i);
      var prev := InsertPass(domain, links, known, i - 1).value;
      StagedPicks(domain, links, known, i - 1, prev);
      StagedWiden(prev, domain, links, known, i);
      if picks != prev {
        StagedAppend(prev, domain, links, known, i);
      }
    }
  }

  /** Picks taken before link `i` are still picks among the first `i` links, all numbered below `i`. */
  lemma StagedWiden(picks: seq<Pick>, domain: string, links: seq<Link>, known: set<string>, i: nat)
    requires 0 < i <= |links|
    requires Staged(picks, domain, links, known, i - 1)
    ensures Staged(picks, domain, links, known, i)
    ensures forall j :: 0 <= j < |picks| ==> picks[j].number < i
  {
    forall j | 0 <= j < |picks| ensures PickOfLink(picks[j], domain, links, known, i) && picks[j].number < i {
      assert PickOfLink(picks[j], domain, links, known, i - 1);
    }
  }

  /** Taking eligible link `i` - 1 keeps the picks staged and increasing. */
  lemma StagedAppend(picks: seq<Pick>, domain: string, links: seq<Link>, known: set<string>, i: nat)
    requires 0 < i <= |links|
    requires Eligible(domain, links, known, i - 1) && links[i - 1].text.Some?
    requires Staged(picks, domain, links, known, i) && Increasing(picks)
    requires forall j :: 0 <= j < |picks| ==> picks[j].number < i
    ensures var pk := Pick(i, links[i - 1].text.value, FixUrl(domain, links[i - 1].href.value));
      Staged(picks + [pk], domain, links, known, i) && Increasing(picks + [pk])
  {
    var pk := Pick(i, links[i - 1].text.value, FixUrl(domain, links[i - 1].href.value));
    assert PickOfLink(pk, domain, links, known, i);
  }

  /** A step taken with ten links picked takes nothing more. */
  lemma StepAtCap(domain: string, links: seq<Link>, known: set<string>, i: nat)
    requires 0 < i <= |links|
    requires InsertPass(domain, links, known, i - 1).Some?
    requires |InsertPass(domain, links, known, i - 1).value| >= ChapterCap
    ensures InsertPass(domain, links, known, i) == InsertPass(domain, links, known, i - 1)
  {
  }

  /** Once ten links are picked, the remaining links change nothing. */
  lemma {:induction false} InsertPassStopsAtCap(domain: string, links: seq<Link>, known: set<string>, i: nat, j: nat)
    requires i <= j <= |links|
    requires InsertPass(domain, links, known, i).Some?
    requires |InsertPass(domain, links, known, i).value| >= ChapterCap
    ensures InsertPass(domain, links, known, j) == InsertPass(domain, links, known, i)
    decreases j - i
  {
    if i < j {
      InsertPassStopsAtCap(domain, links, known, i, j - 1);
      StepAtCap(domain, links, known, j);
    }
  }

  /** The picks only grow as more links are examined. */
  lemma {:induction false} InsertPassGrows(domain: string, links: seq<Link>, known: set<string>, i: nat, j: nat)
    requires i <= j <= |links|
    requires InsertPass(domain, links, known, j).Some?
    ensures InsertPass(domain, links, known, i).Some?
    ensures |InsertPass(domain, links, known, i).value| <= |InsertPass(domain, links, known, j).value|
    decreases j - i
  {
    if i < j {
      InsertPassGrows(domain, links, known, i, j - 1);
    }
  }

  /** Once a text read raised, the pass has failed whatever follows. */
  lemma {:induction false} InsertPassStaysFailed(domain: string, links: seq<Link>, known: set<string>, i: nat)
    requires i <= |links| && InsertPass(domain, links, known, i).None?
    ensures InsertPass(domain, links, known, |links|).None?
    decreases |links| - i
  {
    if i < |links| {
      InsertPassStaysFailed(domain, links, known, i + 1);
    }
  }

  /** The numbers of the picks. */
  function Numbers(picks: seq<Pick>): set<int> {
    set pk | pk in picks :: pk.number
  }

  /**
   * Below the cap nothing is missed: every link with a non-empty href whose
   * URL no committed chapter has is taken, under its position's number.
   */
  lemma {:induction false} InsertPassComplete(domain: string, links: seq<Link>, known: set<string>, i: nat)
    requires i <= |links|
    requires InsertPass(domain, links, known, i).Some?
    requires |InsertPass(domain, links, known, i).value| < ChapterCap
    ensures forall p :: 0 <= p < i && Eligible(domain, links, known, p) ==>
      p + 1 in Numbers(InsertPass(domain, links, known, i).value)
    decreases i
  {
    if i > 0 {
      StepShape(domain, links, known, i);
      var prev := InsertPass(domain, links, known, i - 1).value;
      var picks := InsertPass(domain, links, known, i).value;
      assert |prev| <= |picks|;
      InsertPassComplete(domain, links, known, i - 1);
      assert Numbers(prev) <= Numbers(picks);
      if Eligible(domain, links, known, i - 1) {
        assert picks[|prev|] in picks;
      }
    }
  }

  /** The URLs of the picks. */
  function PickUrls(picks: seq<Pick>): set<string> {
    set pk | pk in picks :: pk.url
  }

  /**
   * Re-running a pass that stayed below the cap, once its URLs are known,
   * takes nothing: every URL it could take is then known.
   */
  lemma RescanInsertsNothing(domain: string, links: seq<Link>, known: set<string>)
    requires InsertPass(domain, links, known, |links|).Some?
    requires |InsertPass(domain, links, known, |links|).value| < ChapterCap
    ensures var picks := InsertPass(domain, links, known, |links|).value;
      InsertPass(domain, links, known + PickUrls(picks), |links|) == Some([])
  {
    var picks := InsertPass(domain, links, known, |links|).value;
    InsertPassComplete(domain, links, known, |links|);
    StagedPicks(domain, links, known, |links|, picks);
    var known' := known + PickUrls(picks);
    forall p | 0 <= p < |links|
      ensures links[p].text.Some?
      ensures links[p].href.Some? && links[p].href.value != "" ==> FixUrl(domain, links[p].href.value) in known'
    {
      InsertPassGrows(domain, links, known, p, |links|);
      InsertPassGrows(domain, links, known, p + 1, |links|);
      TextReadBelowCap(domain, links, known, p + 1);
      if Eligible(domain, links, known, p) {
        RescanCovered(domain, links, known, picks, p);
      }
    }
    assert AllKnown(domain, links, known', |links|);
    KnownStagesNothing(domain, links, known', |links|);
  }

  /** Every link below `i` reads, and its URL, if it has one, is known. */
  ghost predicate AllKnown(domain: string, links: seq<Link>, known: set<string>, i: nat)
    requires i <= |links|
  {
    forall p :: 0 <= p < i ==>
      && links[p].text.Some?
      && (links[p].href.Some? && links[p].href.value != "" ==> FixUrl(domain, links[p].href.value) in known)
  }

  /** Links that are all readable and known are all passed over. */
  lemma {:induction false} KnownStagesNothing(domain: string, links: seq<Link>, known: set<string>, i: nat)
    requires i <= |links|
    requires AllKnown(domain, links, known, i)
    ensures InsertPass(domain, links, known, i) == Some([])
    decreases i
  {
    if i > 0 {
      assert AllKnown(domain, links, known, i - 1);
      KnownStagesNothing(domain, links, known, i - 1);
      StepStaysEmpty(domain, links, known, i);
    }
  }

  /** Below the cap, every examined link's text was read without raising. */
  lemma TextReadBelowCap(domain: string, links: seq<Link>, known: set<string>, i: nat)
    requires 0 < i <= |links|
    requires InsertPass(domain, links, known, i - 1).Some?
    requires |InsertPass(domain, links, known, i - 1).value| < ChapterCap
    requires InsertPass(domain, links, known, i).Some?
    ensures links[i - 1].text.Some?
  {
  }

  /** A link whose text reads and whose URL (if any) is known is passed over. */
  lemma StepStaysEmpty(domain: string, links: seq<Link>, known: set<string>, i: nat)
    requires 0 < i <= |links|
    requires InsertPass(domain, links, known, i - 1) == Some([])
    requires links[i - 1].text.Some?
    requires links[i - 1].href.Some? && links[i - 1].href.value != "" ==> FixUrl(domain, links[i - 1].href.value) in known
    ensures InsertPass(domain, links, known, i) == Some([])
  {
  }

  /** An eligible link that was taken has its URL among the picks'. */
  lemma RescanCovered(domain: string, links: seq<Link>, known: set<string>, picks: seq<Pick>, p: nat)
    requires p < |links| && Eligible(domain, links, known, p)
    requires p + 1 in Numbers(picks)
    requires Staged(picks, domain, links, known, |links|)
    ensures FixUrl(domain, links[p].href.value) in PickUrls(picks)
  {
    var pk :| pk in picks && pk.number == p + 1;
    var j :| 0 <= j < |picks| && picks[j] == pk;
    assert PickOfLink(picks[j], domain, links, known, |links|);
  }

  /**
   * The existence check cannot see rows staged in the same pass: two links
   * with the same href to a new URL give two rows with that URL.
   */
  lemma SameScanDuplicates()
    ensures var l := Link(Some("/capitulo-1"), Some("Capítulo 1"));
      var picks := InsertPass("skynovels.net", [l, l], {}, 2);
      picks.Some? && |picks.value| == 2 && picks.value[0].url == picks.value[1].url
  {
    var l := Link(Some("/capitulo-1"), Some("Capítulo 1"));
    assert Eligible("skynovels.net", [l, l], {}, 0);
    assert Eligible("skynovels.net", [l, l], {}, 1);
  }

  /** Rows of picks extended by one pick. */
  lemma RowsAppend(novelId: int, picks: seq<Pick>, pk: Pick)
    ensures Rows(novelId, picks + [pk]) == Rows(novelId, picks) + [NewChapter(novelId, pk)]
  {
  }

  /** Each row carries the novel, its pick's number and URL, and no content. */
  lemma RowsFields(novelId: int, picks: seq<Pick>)
    ensures |Rows(novelId, picks)| == |picks|
    ensures forall j :: 0 <= j < |picks| ==>
      var r := Rows(novelId, picks)[j];
      r.novelId == novelId && r.number == picks[j].number && r.sourceUrl == Some(picks[j].url) &&
      r.content.None? && !r.sentToTranslation
  {
  }

  /** The URLs of the rows are those of the picks. */
  lemma RowsUrls(novelId: int, picks: seq<Pick>)
    ensures ChapterUrls(Rows(novelId, picks)) == PickUrls(picks)
  {
    var rows := Rows(novelId, picks);
    RowsFields(novelId, picks);
    forall u | u in PickUrls(picks) ensures u in ChapterUrls(rows) {
      var j :| 0 <= j < |picks| && picks[j].url == u;
      assert rows[j] in rows;
    }
    forall u | u in ChapterUrls(rows) ensures u in PickUrls(picks) {
      var j :| 0 <= j < |rows| && rows[j].sourceUrl == Some(u);
      assert picks[j] in picks;
    }
  }

  /** No pick's URL is among the known ones. */
  lemma PicksFresh(domain: string, links: seq<Link>, known: set<string>, i: nat)
    requires i <= |links|
    requires InsertPass(domain, links, known, i).Some?
    ensures var picks := InsertPass(domain, links, known, i).value;
      |picks| <= ChapterCap && forall j :: 0 <= j < |picks| ==> picks[j].url !in known
  {
    var picks := InsertPass(domain, links, known, i).value;
    StagedPicks(domain, links, known, i, picks);
    forall j | 0 <= j < |picks| ensures picks[j].url !in known {
      assert PickOfLink(picks[j], domain, links, known, i);
    }
  }

  /** The URLs of concatenated chapter sequences. */
  lemma ChapterUrlsAppend(a: seq<Chapter>, b: seq<Chapter>)
    ensures ChapterUrls(a + b) == ChapterUrls(a) + ChapterUrls(b)
  {
    forall u | u in ChapterUrls(a + b) ensures u in ChapterUrls(a) + ChapterUrls(b) {
      var c :| c in a + b && c.sourceUrl == Some(u);
    }
  }

  // ---------------------------------------------------------------------------
  // One novel, and the whole pass
  // ---------------------------------------------------------------------------

  /**
   * The links the try block for novel `n` takes: None when it has no source
   * URL, when no source matches its domain, or when the page or a link raised.
   */
  function Pass(db: Db, n: Novel, visit: string -> Visit, netloc: string -> string): Option<seq<Pick>> {
    if n.sourceUrl.None? then None
    else
      var domain := netloc(n.sourceUrl.value);
      if FindSource(db.sources, domain).None? then None
      else
        match visit(n.sourceUrl.value)
        case Broken => None
        case Rendered(located, anchors) =>
          match SelectLinks(located, anchors)
          case None => None
          case Some(links) => InsertPass(domain, links, ChapterUrls(db.chapters), |links|)
  }

  /**
   * The committed database after patrolling novel `novelId` (row `n`):
   * unchanged when the pass took nothing or the commit raised; otherwise the
   * chapters of the pass are appended.
   */
  function NovelStep(db: Db, novelId: int, n: Novel, visit: string -> Visit, netloc: string -> string,
                     commitFails: int -> bool): Db
  {
    match Pass(db, n, visit, netloc)
    case None => db
    case Some(picks) => if commitFails(novelId) then db else db.(chapters := db.chapters + Rows(novelId, picks))
  }

  /** discover_new_chapters over the first `k` novels (novel i has id i + 1). */
  function Discover(db: Db, visit: string -> Visit, netloc: string -> string, commitFails: int -> bool, k: nat): Db
    requires k <= |db.novels|
    decreases k
  {
    if k == 0 then db
    else NovelStep(Discover(db, visit, netloc, commitFails, k - 1), k, db.novels[k - 1], visit, netloc, commitFails)
  }

  /**
   * Patrolling one novel only ever appends chapters, at most ten, all of that
   * novel, none under a URL already committed and none with content; a
   * novel without a matching source writes nothing.
   */
  lemma NovelStepFacts(db: Db, novelId: int, n: Novel, visit: string -> Visit, netloc: string -> string, commitFails: int -> bool)
    ensures var r := NovelStep(db, novelId, n, visit, netloc, commitFails);
      && r.novels == db.novels && r.translations == db.translations && r.sources == db.sources
      && |db.chapters| <= |r.chapters| <= |db.chapters| + ChapterCap
      && r.chapters[..|db.chapters|] == db.chapters
      && (forall j :: |db.chapters| <= j < |r.chapters| ==>
            && r.chapters[j].novelId == novelId && r.chapters[j].content.None? && !r.chapters[j].sentToTranslation
            && r.chapters[j].sourceUrl.Some? && r.chapters[j].sourceUrl.value !in ChapterUrls(db.chapters))
    ensures n.sourceUrl.Some? && FindSource(db.sources, netloc(n.sourceUrl.value)).None? ==>
      NovelStep(db, novelId, n, visit, netloc, commitFails) == db
  {
    var r := NovelStep(db, novelId, n, visit, netloc, commitFails);
    if r != db {
      var domain := netloc(n.sourceUrl.value);
      var v := visit(n.sourceUrl.value);
      var links := SelectLinks(v.located, v.anchors).value;
      var known := ChapterUrls(db.chapters);
      var picks := InsertPass(domain, links, known, |links|).value;
      var rows := Rows(novelId, picks);
      PicksFresh(domain, links, known, |links|);
      RowsFields(novelId, picks);
      assert r.chapters == db.chapters + rows;
      forall j | |db.chapters| <= j < |r.chapters|
        ensures r.chapters[j].novelId == novelId && r.chapters[j].content.None? && !r.chapters[j].sentToTranslation
        ensures r.chapters[j].sourceUrl.Some? && r.chapters[j].sourceUrl.value !in known
      {
        assert r.chapters[j] == rows[j - |db.chapters|];
      }
    }
  }


  /**
   * Patrolling a novel again right after a pass that stayed below the cap
   * writes nothing more: its chapters are only ever inserted once.
   */
  lemma PatrolTwiceIsPatrolOnce(db: Db, novelId: int, n: Novel, visit: string -> Visit, netloc: string -> string,
                                commitFails: int -> bool)
    requires Pass(db, n, visit, netloc).Some? ==> |Pass(db, n, visit, netloc).value| < ChapterCap
    ensures var once := NovelStep(db, novelId, n, visit, netloc, commitFails);
      NovelStep(once, novelId, n, visit, netloc, commitFails) == once
  {
    var once := NovelStep(db, novelId, n, visit, netloc, commitFails);
    if once != db {
      var picks := Pass(db, n, visit, netloc).value;
      var domain := netloc(n.sourceUrl.value);
      var v := visit(n.sourceUrl.value);
      var links := SelectLinks(v.located, v.anchors).value;
      var known := ChapterUrls(db.chapters);
      assert once.chapters == db.chapters + Rows(novelId, picks);
      ChapterUrlsAppend(db.chapters, Rows(novelId, picks));
      RowsUrls(novelId, picks);
      RescanInsertsNothing(domain, links, known);
      assert Pass(once, n, visit, netloc) == Some([]);
      assert Rows(novelId, []) == [];
      assert once.chapters + [] == once.chapters;
    }
  }

  /** How many of `rows` belong to novel `novelId`. */
  function RowsOf(rows: seq<Chapter>, novelId: int): (n: nat)
    ensures n <= |rows|
    ensures (forall j :: 0 <= j < |rows| ==> rows[j].novelId != novelId) ==> n == 0
    decreases |rows|
  {
    if rows == [] then 0
    else RowsOf(rows[..|rows| - 1], novelId) + (if rows[|rows| - 1].novelId == novelId then 1 else 0)
  }

  lemma {:induction false} RowsOfAppend(a: seq<Chapter>, b: seq<Chapter>, novelId: int)
    ensures RowsOf(a + b, novelId) == RowsOf(a, novelId) + RowsOf(b, novelId)
    decreases |b|
  {
    if b != [] {
      assert (a + b)[..|a + b| - 1] == a + b[..|b| - 1];
      RowsOfAppend(a, b[..|b| - 1], novelId);
    } else {
      assert a + b == a;
    }
  }

  /** The count depends on the novel ids of the rows only. */
  lemma {:induction false} RowsOfSameIds(a: seq<Chapter>, b: seq<Chapter>, novelId: int)
    requires |a| == |b| && forall j :: 0 <= j < |a| ==> a[j].novelId == b[j].novelId
    ensures RowsOf(a, novelId) == RowsOf(b, novelId)
    decreases |a|
  {
    if a != [] {
      RowsOfSameIds(a[..|a| - 1], b[..|b| - 1], novelId);
    }
  }

  /**
   * What the chapters after `base` look like at the end of a pass over the
   * first `k` novels: `base` kept in place, and each appended row of one of
   * those novels, at most ten to a novel, without content, unflagged and
   * under a URL not in `base`.
   */
  ghost predicate Appended(base: seq<Chapter>, chapters: seq<Chapter>, k: nat) {
    && |base| <= |chapters| && chapters[..|base|] == base
    && NewRows(base, chapters, k)
    && Capped(chapters[|base|..])
  }

  ghost predicate NewRows(base: seq<Chapter>, chapters: seq<Chapter>, k: nat)
    requires |base| <= |chapters|
  {
    forall j :: |base| <= j < |chapters| ==>
      && 1 <= chapters[j].novelId <= k && chapters[j].content.None? && !chapters[j].sentToTranslation
      && chapters[j].sourceUrl.Some? && chapters[j].sourceUrl.value !in ChapterUrls(base)
  }

  ghost predicate Capped(rows: seq<Chapter>) {
    forall novelId :: RowsOf(rows, novelId) <= ChapterCap
  }

  /** The rows of novel k, fresh against everything before them, extend the new rows of the first k - 1 novels. */
  lemma NewRowsStep(base: seq<Chapter>, prev: seq<Chapter>, next: seq<Chapter>, k: nat)
    requires k > 0 && |base| <= |prev| <= |next| && prev[..|base|] == base && next[..|prev|] == prev
    requires NewRows(base, prev, k - 1)
    requires forall j :: |prev| <= j < |next| ==>
      && next[j].novelId == k && next[j].content.None? && !next[j].sentToTranslation
      && next[j].sourceUrl.Some? && next[j].sourceUrl.value !in ChapterUrls(prev)
    ensures NewRows(base, next, k)
  {
    assert prev == base + prev[|base|..];
    ChapterUrlsAppend(base, prev[|base|..]);
    forall j | |base| <= j < |next|
      ensures 1 <= next[j].novelId <= k && next[j].content.None? && !next[j].sentToTranslation
      ensures next[j].sourceUrl.Some? && next[j].sourceUrl.value !in ChapterUrls(base)
    {
      if j < |prev| {
        assert next[j] == prev[j];
      }
    }
  }

  /** At most ten rows of novel k, after rows of the first k - 1 novels only, keep every novel within ten. */
  lemma CappedStep(old_: seq<Chapter>, added: seq<Chapter>, k: int)
    requires Capped(old_) && |added| <= ChapterCap
    requires forall j :: 0 <= j < |old_| ==> old_[j].novelId != k
    requires forall j :: 0 <= j < |added| ==> added[j].novelId == k
    ensures Capped(old_ + added)
  {
    forall novelId ensures RowsOf(old_ + added, novelId) <= ChapterCap {
      RowsOfAppend(old_, added, novelId);
    }
  }

  /** Appending the rows of novel k to a pass over the first k - 1 novels. */
  lemma AppendedStep(base: seq<Chapter>, prev: seq<Chapter>, next: seq<Chapter>, k: nat)
    requires k > 0 && Appended(base, prev, k - 1)
    requires |prev| <= |next| <= |prev| + ChapterCap && next[..|prev|] == prev
    requires forall j :: |prev| <= j < |next| ==>
      && next[j].novelId == k && next[j].content.None? && !next[j].sentToTranslation
      && next[j].sourceUrl.Some? && next[j].sourceUrl.value !in ChapterUrls(prev)
    ensures Appended(base, next, k)
  {
    assert next[..|base|] == next[..|prev|][..|base|];
    NewRowsStep(base, prev, next, k);
    var old_ := prev[|base|..];
    var added := next[|prev|..];
    assert next[|base|..] == old_ + added by {
      assert prev == base + old_;
      assert next == prev + added;
    }
    assert forall j :: 0 <= j < |old_| ==> old_[j].novelId != k by {
      assert forall j :: 0 <= j < |old_| ==> old_[j] == prev[|base| + j];
    }
    assert forall j :: 0 <= j < |added| ==> added[j].novelId == k by {
      assert forall j :: 0 <= j < |added| ==> added[j] == next[|prev| + j];
    }
    CappedStep(old_, added, k);
  }

  /**
   * Over the whole pass, the novels, translations and sources stay as they
   * were, the chapters there were stay in place, and the chapters appended
   * belong to the novels patrolled, at most ten to a novel, each without
   * content, unflagged and under a URL that was not committed before: a novel
   * that fails loses only its own inserts, never an earlier novel's.
   */
  lemma {:induction false} DiscoverGrows(db: Db, visit: string -> Visit, netloc: string -> string, commitFails: int -> bool, k: nat)
    requires k <= |db.novels|
    ensures var r := Discover(db, visit, netloc, commitFails, k);
      && r.novels == db.novels && r.translations == db.translations && r.sources == db.sources
      && |db.chapters| <= |r.chapters| <= |db.chapters| + ChapterCap * k
      && Appended(db.chapters, r.chapters, k)
    decreases k
  {
    if k > 0 {
      DiscoverGrows(db, visit, netloc, commitFails, k - 1);
      var prev := Discover(db, visit, netloc, commitFails, k - 1);
      NovelStepFacts(prev, k, db.novels[k - 1], visit, netloc, commitFails);
      AppendedStep(db.chapters, prev.chapters, Discover(db, visit, netloc, commitFails, k).chapters, k);
    } else {
      assert db.chapters[..|db.chapters|] == db.chapters;
      assert db.chapters[|db.chapters|..] == [];
    }
  }

  // ---------------------------------------------------------------------------
  // The pass, as the service runs it
  // ---------------------------------------------------------------------------

  /** The try block for one novel, over a session with nothing staged. */
  method PatrolNovel(db: Session, novelId: int, n: Novel, visit: string -> Visit, netloc: string -> string,
                     commitFails: int -> bool)
    requires db.working == db.committed
    modifies db
    ensures db.committed == NovelStep(old(db.committed), novelId, n, visit, netloc, commitFails)
    ensures db.working == db.committed
  {
    if n.sourceUrl.None? {
      return;
    }
    var domain := netloc(n.sourceUrl.value);
    var source := FindSource(db.committed.sources, domain);
    if source.None? {
      return;
    }
    var page := visit(n.sourceUrl.value);
    if page.Broken? {
      db.Rollback();
      return;
    }
    var links, ok := CollectLinks(page.located, page.anchors);
    if !ok {
      db.Rollback();
      return;
    }
    var failed := StageLinks(db, novelId, domain, links);
    if failed {
      db.Rollback();
      return;
    }
    var raised := db.Commit(commitFails(novelId));
    if raised {
      db.Rollback();
    }
  }

  /**
   * Lines 88-114, the insert loop: stages the new chapters of `links` in the
   * session; `failed` when reading a link's text raised.
   */
  method StageLinks(db: Session, novelId: int, domain: string, links: seq<Link>) returns (failed: bool)
    requires db.working == db.committed
    modifies db
    ensures db.committed == old(db.committed)
    ensures failed == InsertPass(domain, links, ChapterUrls(old(db.committed).chapters), |links|).None?
    ensures !failed ==> db.working == old(db.committed).(chapters := old(db.committed).chapters +
      Rows(novelId, InsertPass(domain, links, ChapterUrls(old(db.committed).chapters), |links|).value))
  {
    ghost var known := ChapterUrls(db.committed.chapters);
    ghost var picks: seq<Pick> := [];
    var processed := 0;
    var index := 0;
    while index < |links|
      invariant 0 <= index <= |links|
      invariant InsertPass(domain, links, known, index) == Some(picks)
      invariant processed == |picks|
      invariant db.committed == old(db.committed)
      invariant db.working == old(db.committed).(chapters := old(db.committed).chapters + Rows(novelId, picks))
    {
      if processed >= ChapterCap {
        InsertPassStopsAtCap(domain, links, known, index, |links|);
        break;
      }
      var l := links[index];
      if l.text.None? {
        InsertPassStaysFailed(domain, links, known, index + 1);
        return true;
      }
      if l.href.Some? && l.href.value != "" {
        var url := FixUrl(domain, l.href.value);
        if url !in ChapterUrls(db.committed.chapters) {
          var pk := Pick(index + 1, l.text.value, url);
          db.AddChapter(NewChapter(novelId, pk));
          RowsAppend(novelId, picks, pk);
          picks := picks + [pk];
          processed := processed + 1;
        }
      }
      index := index + 1;
    }
    return false;
  }

  /** discover_new_chapters: every novel with a source URL in turn, over a fresh session. */
  method DiscoverNewChapters(db: Session, visit: string -> Visit, netloc: string -> string, commitFails: int -> bool)
    requires db.working == db.committed
    modifies db
    ensures db.committed == Discover(old(db.committed), visit, netloc, commitFails, |old(db.committed).novels|)
    ensures db.working == db.committed
  {
    var novels := db.committed.novels;
    var k := 0;
    while k < |novels|
      invariant 0 <= k <= |novels|
      invariant novels == old(db.committed).novels
      invariant db.committed == Discover(old(db.committed), visit, netloc, commitFails, k)
      invariant db.working == db.committed
    {
      DiscoverGrows(old(db.committed), visit, netloc, commitFails, k);
      if novels[k].sourceUrl.Some? {
        PatrolNovel(db, k + 1, novels[k], visit, netloc, commitFails);
      }
      k := k + 1;
    }
  }
}
