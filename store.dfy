/**
 * The rows of the relational store (the shapes of app/db/models.py) and the
 * session that stages writes until a commit.
 *
 * Surrogate ids are positional: the row at index i of a table has id i + 1,
 * the auto-increment numbering of a table that only ever grows.
 */
module Store {
  import opened Common

  /** A row of `novelas`. `status` is the estado value the scripts pass when they create the row. */
  datatype Novel = Novel(title: string, sourceUrl: Option<string>, status: string, verified: bool)

  /** A row of `capitulos`. */
  datatype Chapter = Chapter(
    novelId: int,
    number: int,
    title: string,
    sourceUrl: Option<string>,
    content: Option<string>,
    sentToTranslation: bool)

  /** A row of `traducciones_capitulo`. */
  datatype Translation = Translation(chapterId: int, language: string, content: string, status: string)

  /** A row of `fuentes_scraping`; `config` is the JSON object in configuracion_scraper, absent when NULL. */
  datatype Source = Source(baseUrl: Option<string>, config: Option<map<string, string>>)

  datatype Db = Db(novels: seq<Novel>, chapters: seq<Chapter>, translations: seq<Translation>, sources: seq<Source>)

  /** `{n.fuente_scraping for n in novelas if n.fuente_scraping}`: the non-empty source URLs. */
  function ExistingUrls(novels: seq<Novel>): set<string> {
    set n | n in novels && n.sourceUrl.Some? && n.sourceUrl.value != "" :: n.sourceUrl.value
  }

  /** The source URLs of a sequence of chapter rows. */
  function ChapterUrls(chapters: seq<Chapter>): set<string> {
    set c | c in chapters && c.sourceUrl.Some? :: c.sourceUrl.value
  }

  /** The first source whose url_base contains the domain (SQL LIKE '%domain%', which `url_base.contains(domain)` builds). */
  function FindSource(sources: seq<Source>, domain: string): (r: Option<nat>)
    ensures r.Some? ==> r.value < |sources| && sources[r.value].baseUrl.Some? && Contains(sources[r.value].baseUrl.value, domain)
    ensures r.Some? ==> forall k :: 0 <= k < r.value ==> !(sources[k].baseUrl.Some? && Contains(sources[k].baseUrl.value, domain))
    ensures r.None? <==> forall k :: 0 <= k < |sources| ==> !(sources[k].baseUrl.Some? && Contains(sources[k].baseUrl.value, domain))
    decreases |sources|
  {
    if sources == [] then None
    else if sources[0].baseUrl.Some? && Contains(sources[0].baseUrl.value, domain) then Some(0)
    else
      match FindSource(sources[1..], domain)
      case None => None
      case Some(k) => Some(k + 1)
  }

  /**
   * A database session opened with autoflush off: `working` is the state the
   * session's own objects show, `committed` is what the database holds and what
   * queries read, since nothing is flushed before a commit.
   */
  class Session {
    var committed: Db
    var working: Db

    constructor (db: Db)
      ensures committed == db && working == db
    {
      committed := db;
      working := db;
    }

    /** db.add of a new novel row. */
    method AddNovel(n: Novel)
      modifies this
      ensures working == old(working).(novels := old(working).novels + [n])
      ensures committed == old(committed)
    {
      working := working.(novels := working.novels + [n]);
    }

    /** db.add of a new chapter row. */
    method AddChapter(c: Chapter)
      modifies this
      ensures working == old(working).(chapters := old(working).chapters + [c])
      ensures committed == old(committed)
    {
      working := working.(chapters := working.chapters + [c]);
    }

    /** db.add of a new translation row. */
    method AddTranslation(t: Translation)
      modifies this
      ensures working == old(working).(translations := old(working).translations + [t])
      ensures committed == old(committed)
    {
      working := working.(translations := working.translations + [t]);
    }

    /** Assignment of contenido_original on a loaded chapter. */
    method SetContent(i: nat, text: string)
      requires i < |working.chapters|
      modifies this
      ensures working == old(working).(chapters := old(working).chapters[i := old(working).chapters[i].(content := Some(text))])
      ensures committed == old(committed)
    {
      working := working.(chapters := working.chapters[i := working.chapters[i].(content := Some(text))]);
    }

    /** Assignment of enviado_traduccion = True on a loaded chapter. */
    method MarkSent(i: nat)
      requires i < |working.chapters|
      modifies this
      ensures working == old(working).(chapters := old(working).chapters[i := old(working).chapters[i].(sentToTranslation := true)])
      ensures committed == old(committed)
    {
      working := working.(chapters := working.chapters[i := working.chapters[i].(sentToTranslation := true)]);
    }

    /** db.commit(); `fails` says whether the database refuses it, in which case it raises and nothing is written. */
    method Commit(fails: bool) returns (raised: bool)
      modifies this
      ensures raised == fails
      ensures committed == (if fails then old(committed) else old(working))
      ensures working == old(working)
    {
      raised := fails;
      if !fails {
        committed := working;
      }
    }

    /** db.rollback(): every staged change is discarded. */
    method Rollback()
      modifies this
      ensures working == old(committed) && committed == old(committed)
    {
      working := committed;
    }
  }
}
