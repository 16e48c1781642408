/**
 * The translation orchestrator of app/services/translator.py: the prompt
 * sent to Gemini, the selection of up to three chapters that have content
 * but no translation row, and the per-chapter write of the row and the
 * enviado_traduccion flag, committed or rolled back together.
 *
 * Gemini is the function `gemini` from prompt to response text (None when
 * the call raised); whether building the row raises is `createFails`, and
 * whether the commit raises is `commitFails`, both keyed by chapter index.
 */
module Translator {
  import opened Common
  import opened Store

  /** At most this many chapters are selected per pass. */
  const TranslateLimit := 3
  /** The novel title the pass passes for every chapter. */
  const ContextTitle := "Novela en Proceso"
  /** The fixed instructions that open every prompt. */
  const Instructions := "Actúa como un traductor experto en novelas ligeras de China. "
    + "Traduce el siguiente texto al español, manteniendo el tono épico y la terminología de cultivo. "

  // ---------------------------------------------------------------------------
  // The prompt
  // ---------------------------------------------------------------------------

  /** Lines 18-23: the instructions, the novel title and the text. */
  function Prompt(text: string, contextTitle: string): string {
    Instructions + "Novela: " + contextTitle + "\n\n" + "Texto a traducir:\n" + text
  }

  /**
   * The prompt embeds the title and the text verbatim: the text is its
   * suffix, and the instructions and the title come first.
   */
  lemma PromptEmbeds(text: string, contextTitle: string)
    ensures var p := Prompt(text, contextTitle);
      var head := Instructions + "Novela: " + contextTitle + "\n\n" + "Texto a traducir:\n";
      && |p| == |head| + |text|
      && p[..|head|] == head
      && p[|head|..] == text
  {
  }

  /** Different texts under the same title give different prompts. */
  lemma PromptInjective(a: string, b: string, contextTitle: string)
    requires Prompt(a, contextTitle) == Prompt(b, contextTitle)
    ensures a == b
  {
    PromptEmbeds(a, contextTitle);
    PromptEmbeds(b, contextTitle);
  }

  /** translate_text_gemini: Gemini's answer to the prompt, None when the call raised. */
  function TranslateText(gemini: string -> Option<string>, text: string, contextTitle: string): Option<string> {
    gemini(Prompt(text, contextTitle))
  }

  // ---------------------------------------------------------------------------
  // Selection
  // ---------------------------------------------------------------------------

  /** The chapter ids that have a translation row, in any language. */
  function TranslatedIds(translations: seq<Translation>): set<int> {
    set t | t in translations :: t.chapterId
  }

  /** Chapter `i` (id i + 1) has content and no translation row. */
  predicate Untranslated(chapters: seq<Chapter>, translated: set<int>, i: nat)
    requires i < |chapters|
  {
    chapters[i].content.Some? && (i + 1) !in translated
  }

  /** The first `limit` untranslated chapters from index `i` on, in table order. */
  function PendingFrom(chapters: seq<Chapter>, translated: set<int>, i: nat, limit: nat): seq<nat>
    requires i <= |chapters|
    decreases |chapters| - i
  {
    if i == |chapters| || limit == 0 then []
    else if Untranslated(chapters, translated, i) then [i] + PendingFrom(chapters, translated, i + 1, limit - 1)
    else PendingFrom(chapters, translated, i + 1, limit)
  }

  /** Lines 42-47: the anti-join on id_capitulo, at most three chapters. */
  function Pending(db: Db): seq<nat> {
    PendingFrom(db.chapters, TranslatedIds(db.translations), 0, TranslateLimit)
  }

  lemma {:induction false} PendingFromFacts(chapters: seq<Chapter>, translated: set<int>, i: nat, limit: nat)
    requires i <= |chapters|
    ensures var p := PendingFrom(chapters, translated, i, limit);
      && |p| <= limit
      && (forall j :: 0 <= j < |p| ==> i <= p[j] < |chapters| && Untranslated(chapters, translated, p[j]))
      && (forall j, k :: 0 <= j < k < |p| ==> p[j] < p[k])
      && (forall c :: i <= c < |chapters| && Untranslated(chapters, translated, c) && c !in p ==>
            |p| == limit && forall j :: 0 <= j < |p| ==> p[j] < c)
    decreases |chapters| - i
  {
    if i < |chapters| && limit > 0 {
      if Untranslated(chapters, translated, i) {
        PendingFromFacts(chapters, translated, i + 1, limit - 1);
      } else {
        PendingFromFacts(chapters, translated, i + 1, limit);
      }
    }
  }

  /**
   * At most three chapters are selected, in table order, each with content
   * and no translation row; an untranslated chapter is left out only when
   * three earlier ones were selected; nothing is selected exactly when every
   * chapter lacks content or has a row.
   */
  lemma PendingFacts(db: Db)
    ensures var p := Pending(db);
      var ids := TranslatedIds(db.translations);
      && |p| <= TranslateLimit
      && (forall j :: 0 <= j < |p| ==> p[j] < |db.chapters| && Untranslated(db.chapters, ids, p[j]))
      && (forall j, k :: 0 <= j < k < |p| ==> p[j] < p[k])
      && (forall c :: 0 <= c < |db.chapters| && Untranslated(db.chapters, ids, c) && c !in p ==>
            |p| == TranslateLimit && forall j :: 0 <= j < |p| ==> p[j] < c)
      && (p == [] <==> forall c :: 0 <= c < |db.chapters| ==> !Untranslated(db.chapters, ids, c))
  {
    var ids := TranslatedIds(db.translations);
    PendingFromFacts(db.chapters, ids, 0, TranslateLimit);
    var p := Pending(db);
    if p != [] {
      assert Untranslated(db.chapters, ids, p[0]);
    }
  }

  // ---------------------------------------------------------------------------
  // Persistence
  // ---------------------------------------------------------------------------

  /** The row the pass stores for chapter `i`. */
  function NewTranslation(i: nat, text: string): Translation {
    Translation(i + 1, "es", text, "completado")
  }

  /** Line 56: Gemini's answer for a chapter's content, under the fixed title. */
  function Answer(content: string, gemini: string -> Option<string>): Option<string> {
    TranslateText(gemini, content, ContextTitle)
  }

  /**
   * Chapter `i` with this content ends with a committed row: Gemini answered
   * with a non-empty text, building the row did not raise and the commit did
   * not raise.
   */
  predicate Succeeds(content: string, i: nat, gemini: string -> Option<string>, createFails: nat -> bool, commitFails: nat -> bool) {
    var t := Answer(content, gemini);
    t.Some? && t.value != "" && !createFails(i) && !commitFails(i)
  }

  /**
   * One iteration for chapter `i`: on success the row is added and the flag
   * set in a single commit; otherwise (a falsy answer, a raising row build or
   * commit, which the except rolls back) nothing changes.
   */
  function TranslateStep(db: Db, i: nat, gemini: string -> Option<string>, createFails: nat -> bool,
                         commitFails: nat -> bool): Db
    requires i < |db.chapters| && db.chapters[i].content.Some?
  {
    var content := db.chapters[i].content.value;
    if Succeeds(content, i, gemini, createFails, commitFails) then
      db.(translations := db.translations + [NewTranslation(i, Answer(content, gemini).value)],
          chapters := db.chapters[i := db.chapters[i].(sentToTranslation := true)])
    else db
  }

  /** Every selected chapter from the `k`-th on is a chapter with content. */
  ghost predicate Selectable(db: Db, pending: seq<nat>, k: nat) {
    && k <= |pending|
    && forall j :: k <= j < |pending| ==> pending[j] < |db.chapters| && db.chapters[pending[j]].content.Some?
  }

  /** The iterations over the selected chapters from the `k`-th on. */
  function TranslateFrom(db: Db, pending: seq<nat>, k: nat, gemini: string -> Option<string>, createFails: nat -> bool,
                         commitFails: nat -> bool): (r: Db)
    requires Selectable(db, pending, k)
    ensures r.novels == db.novels && r.sources == db.sources && |r.chapters| == |db.chapters|
    decreases |pending| - k
  {
    if k == |pending| then db
    else
      var step := TranslateStep(db, pending[k], gemini, createFails, commitFails);
      assert Selectable(step, pending, k + 1) by {
        forall j | k + 1 <= j < |pending| ensures step.chapters[pending[j]].content == db.chapters[pending[j]].content { }
      }
      TranslateFrom(step, pending, k + 1, gemini, createFails, commitFails)
  }

  /** process_pending_translations: the committed database afterwards. */
  function TranslatePass(db: Db, gemini: string -> Option<string>, createFails: nat -> bool, commitFails: nat -> bool): Db {
    PendingFacts(db);
    TranslateFrom(db, Pending(db), 0, gemini, createFails, commitFails)
  }

  // ---------------------------------------------------------------------------
  // What a pass does
  // ---------------------------------------------------------------------------

  /** No chapter has two translation rows. */
  ghost predicate OnePerChapter(translations: seq<Translation>) {
    forall a, b :: 0 <= a < b < |translations| ==> translations[a].chapterId != translations[b].chapterId
  }

  /** The selected chapters from the `k`-th on are distinct and still without a row. */
  ghost predicate StillPending(db: Db, pending: seq<nat>, k: nat) {
    && Selectable(db, pending, k)
    && (forall j, l :: k <= j < l < |pending| ==> pending[j] != pending[l])
    && (forall j :: k <= j < |pending| ==> pending[j] + 1 !in TranslatedIds(db.translations))
  }

  lemma TranslatedIdsAppend(ts: seq<Translation>, t: Translation)
    ensures TranslatedIds(ts + [t]) == TranslatedIds(ts) + {t.chapterId}
  {
    assert t in ts + [t];
    forall id | id in TranslatedIds(ts + [t]) ensures id in TranslatedIds(ts) + {t.chapterId} {
      var u :| u in ts + [t] && u.chapterId == id;
    }
  }

  /** A step keeps the later selected chapters pending and keeps one row per chapter. */
  lemma StepKeepsPending(db: Db, pending: seq<nat>, k: nat, gemini: string -> Option<string>, createFails: nat -> bool,
                         commitFails: nat -> bool)
    requires k < |pending| && StillPending(db, pending, k)
    ensures var step := TranslateStep(db, pending[k], gemini, createFails, commitFails);
      StillPending(step, pending, k + 1) && (OnePerChapter(db.translations) ==> OnePerChapter(step.translations))
  {
    var i := pending[k];
    var step := TranslateStep(db, i, gemini, createFails, commitFails);
    if step != db {
      var t := NewTranslation(i, Answer(db.chapters[i].content.value, gemini).value);
      TranslatedIdsAppend(db.translations, t);
      forall a | 0 <= a < |db.translations| ensures db.translations[a].chapterId != t.chapterId {
        assert db.translations[a] in db.translations;
      }
      forall j | k + 1 <= j < |pending| ensures step.chapters[pending[j]].content == db.chapters[pending[j]].content { }
    }
  }

  lemma {:induction false} TranslateFromOnePerChapter(db: Db, pending: seq<nat>, k: nat, gemini: string -> Option<string>,
                                                      createFails: nat -> bool, commitFails: nat -> bool)
    requires StillPending(db, pending, k) && OnePerChapter(db.translations)
    ensures OnePerChapter(TranslateFrom(db, pending, k, gemini, createFails, commitFails).translations)
    decreases |pending| - k
  {
    if k < |pending| {
      StepKeepsPending(db, pending, k, gemini, createFails, commitFails);
      TranslateFromOnePerChapter(TranslateStep(db, pending[k], gemini, createFails, commitFails), pending, k + 1,
                                 gemini, createFails, commitFails);
    }
  }

  /**
   * A pass never gives a chapter a second translation row: with at most one
   * row per chapter before, there is at most one after.
   */
  lemma OneTranslationPerChapter(db: Db, gemini: string -> Option<string>, createFails: nat -> bool, commitFails: nat -> bool)
    requires OnePerChapter(db.translations)
    ensures OnePerChapter(TranslatePass(db, gemini, createFails, commitFails).translations)
  {
    PendingFacts(db);
    TranslateFromOnePerChapter(db, Pending(db), 0, gemini, createFails, commitFails);
  }

  /** Chapter `i` is among `pending`, has content, and its translation succeeds. */
  ghost predicate Translated(db: Db, pending: seq<nat>, i: nat, gemini: string -> Option<string>,
                             createFails: nat -> bool, commitFails: nat -> bool)
  {
    i in pending && i < |db.chapters| && db.chapters[i].content.Some? &&
    Succeeds(db.chapters[i].content.value, i, gemini, createFails, commitFails)
  }

  /** The row stored for such a chapter. */
  ghost function RowOf(db: Db, pending: seq<nat>, i: nat, gemini: string -> Option<string>,
                       createFails: nat -> bool, commitFails: nat -> bool): Translation
    requires Translated(db, pending, i, gemini, createFails, commitFails)
  {
    NewTranslation(i, Answer(db.chapters[i].content.value, gemini).value)
  }

  /**
   * Chapter `i` after a pass over `pending`: flagged with its row when it was
   * selected and succeeded, untouched otherwise.
   */
  ghost predicate Outcome(before: Db, after: Db, pending: seq<nat>, i: nat, gemini: string -> Option<string>,
                          createFails: nat -> bool, commitFails: nat -> bool)
    requires i < |before.chapters| && i < |after.chapters|
  {
    if Translated(before, pending, i, gemini, createFails, commitFails) then
      && after.chapters[i] == before.chapters[i].(sentToTranslation := true)
      && RowOf(before, pending, i, gemini, createFails, commitFails) in after.translations
    else
      after.chapters[i] == before.chapters[i]
  }

  /** Row `t` is the row of a chapter among `pending` that succeeded. */
  ghost predicate RowFrom(before: Db, pending: seq<nat>, t: Translation, gemini: string -> Option<string>,
                          createFails: nat -> bool, commitFails: nat -> bool)
  {
    exists i :: Translated(before, pending, i, gemini, createFails, commitFails) &&
      t == RowOf(before, pending, i, gemini, createFails, commitFails)
  }

  /** The rows a pass adds after the kept ones: each is the row of a selected chapter that succeeded. */
  ghost predicate AddedRows(before: Db, after: Db, pending: seq<nat>, gemini: string -> Option<string>,
                            createFails: nat -> bool, commitFails: nat -> bool)
  {
    && |before.translations| <= |after.translations|
    && after.translations[..|before.translations|] == before.translations
    && forall m :: |before.translations| <= m < |after.translations| ==>
         RowFrom(before, pending, after.translations[m], gemini, createFails, commitFails)
  }

  lemma {:induction false} TranslateFromOutcome(db: Db, pending: seq<nat>, k: nat, gemini: string -> Option<string>,
                                                createFails: nat -> bool, commitFails: nat -> bool)
    requires StillPending(db, pending, k)
    ensures var r := TranslateFrom(db, pending, k, gemini, createFails, commitFails);
      && (forall i :: 0 <= i < |db.chapters| ==> Outcome(db, r, pending[k..], i, gemini, createFails, commitFails))
      && AddedRows(db, r, pending[k..], gemini, createFails, commitFails)
    decreases |pending| - k
  {
    var r := TranslateFrom(db, pending, k, gemini, createFails, commitFails);
    if k == |pending| {
      assert r.translations[..|db.translations|] == db.translations;
    } else {
      StepKeepsPending(db, pending, k, gemini, createFails, commitFails);
      var step := TranslateStep(db, pending[k], gemini, createFails, commitFails);
      TranslateFromOutcome(step, pending, k + 1, gemini, createFails, commitFails);
      var rest := pending[k + 1..];
      assert pending[k..] == [pending[k]] + rest;
      StepThenRestChapters(db, step, r, pending[k], rest, pending[k..], gemini, createFails, commitFails);
      StepThenRestRows(db, step, r, pending[k], rest, pending[k..], gemini, createFails, commitFails);
    }
  }

  /** The step changes no chapter's content. */
  lemma StepKeepsContent(db: Db, i: nat, gemini: string -> Option<string>, createFails: nat -> bool, commitFails: nat -> bool)
    requires i < |db.chapters| && db.chapters[i].content.Some?
    ensures var step := TranslateStep(db, i, gemini, createFails, commitFails);
      && |step.chapters| == |db.chapters|
      && forall j :: 0 <= j < |db.chapters| ==> step.chapters[j].content == db.chapters[j].content
  {
  }

  /** A chapter translated after the step, over the rest, counts as translated over all. */
  lemma TranslatedWiden(db: Db, step: Db, rest: seq<nat>, all: seq<nat>, i: nat, gemini: string -> Option<string>,
                        createFails: nat -> bool, commitFails: nat -> bool)
    requires |step.chapters| == |db.chapters|
    requires forall j :: 0 <= j < |db.chapters| ==> step.chapters[j].content == db.chapters[j].content
    requires forall x :: x in rest ==> x in all
    requires Translated(step, rest, i, gemini, createFails, commitFails)
    ensures Translated(db, all, i, gemini, createFails, commitFails)
    ensures RowOf(step, rest, i, gemini, createFails, commitFails) == RowOf(db, all, i, gemini, createFails, commitFails)
  {
  }

  /** Composing the first step with the outcome of the rest, chapter by chapter. */
  lemma StepThenRestChapters(db: Db, step: Db, r: Db, p: nat, rest: seq<nat>, all: seq<nat>, gemini: string -> Option<string>,
                             createFails: nat -> bool, commitFails: nat -> bool)
    requires p < |db.chapters| && db.chapters[p].content.Some? && all == [p] + rest && p !in rest
    requires step == TranslateStep(db, p, gemini, createFails, commitFails)
    requires |r.chapters| == |db.chapters|
    requires forall i :: 0 <= i < |db.chapters| ==> Outcome(step, r, rest, i, gemini, createFails, commitFails)
    requires AddedRows(step, r, rest, gemini, createFails, commitFails)
    ensures forall i :: 0 <= i < |db.chapters| ==> Outcome(db, r, all, i, gemini, createFails, commitFails)
  {
    StepKeepsContent(db, p, gemini, createFails, commitFails);
    forall i | 0 <= i < |db.chapters| ensures Outcome(db, r, all, i, gemini, createFails, commitFails) {
      assert Outcome(step, r, rest, i, gemini, createFails, commitFails);
      if i == p {
        if step != db {
          assert !Translated(step, rest, i, gemini, createFails, commitFails);
          assert step.translations[|db.translations|] in r.translations[..|step.translations|];
        }
      } else {
        assert step.chapters[i] == db.chapters[i];
        if Translated(step, rest, i, gemini, createFails, commitFails) {
          TranslatedWiden(db, step, rest, all, i, gemini, createFails, commitFails);
        } else {
          assert !Translated(db, all, i, gemini, createFails, commitFails);
        }
      }
    }
  }

  /** Composing the first step with the outcome of the rest, row by row. */
  lemma StepThenRestRows(db: Db, step: Db, r: Db, p: nat, rest: seq<nat>, all: seq<nat>, gemini: string -> Option<string>,
                         createFails: nat -> bool, commitFails: nat -> bool)
    requires p < |db.chapters| && db.chapters[p].content.Some? && all == [p] + rest
    requires step == TranslateStep(db, p, gemini, createFails, commitFails)
    requires AddedRows(step, r, rest, gemini, createFails, commitFails)
    ensures AddedRows(db, r, all, gemini, createFails, commitFails)
  {
    StepKeepsContent(db, p, gemini, createFails, commitFails);
    assert r.translations[..|db.translations|] == r.translations[..|step.translations|][..|db.translations|];
    forall m | |db.translations| <= m < |r.translations|
      ensures RowFrom(db, all, r.translations[m], gemini, createFails, commitFails)
    {
      if m < |step.translations| {
        assert r.translations[m] == step.translations[m];
        assert Translated(db, all, p, gemini, createFails, commitFails);
      } else {
        assert RowFrom(step, rest, r.translations[m], gemini, createFails, commitFails);
        var i :| Translated(step, rest, i, gemini, createFails, commitFails) &&
          r.translations[m] == RowOf(step, rest, i, gemini, createFails, commitFails);
        TranslatedWiden(db, step, rest, all, i, gemini, createFails, commitFails);
      }
    }
  }

  /**
   * A pass flags exactly the selected chapters whose translation succeeded,
   * each with its one new row (idioma 'es', estado 'completado', Gemini's text
   * for the prompt of its content and "Novela en Proceso"); every other chapter
   * is untouched, including one whose answer was falsy, which therefore stays
   * eligible; earlier rows are kept; novels and sources are unchanged.
   */
  lemma TranslatePassFacts(db: Db, gemini: string -> Option<string>, createFails: nat -> bool, commitFails: nat -> bool)
    ensures var r := TranslatePass(db, gemini, createFails, commitFails);
      && r.novels == db.novels && r.sources == db.sources && |r.chapters| == |db.chapters|
      && (forall i :: 0 <= i < |db.chapters| ==> Outcome(db, r, Pending(db), i, gemini, createFails, commitFails))
      && AddedRows(db, r, Pending(db), gemini, createFails, commitFails)
  {
    PendingFacts(db);
    TranslateFromOutcome(db, Pending(db), 0, gemini, createFails, commitFails);
    assert Pending(db)[0..] == Pending(db);
  }

  /** With nothing selectable, nothing changes. */
  lemma NothingPendingNoChange(db: Db, gemini: string -> Option<string>, createFails: nat -> bool, commitFails: nat -> bool)
    requires forall c :: 0 <= c < |db.chapters| ==> !Untranslated(db.chapters, TranslatedIds(db.translations), c)
    ensures TranslatePass(db, gemini, createFails, commitFails) == db
  {
    PendingFacts(db);
  }

  /** A chapter given a row by a pass is never selected again. */
  lemma TranslatedNotReselected(db: Db, gemini: string -> Option<string>, createFails: nat -> bool, commitFails: nat -> bool, i: nat)
    requires i < |db.chapters|
    requires TranslatePass(db, gemini, createFails, commitFails).chapters[i] != db.chapters[i]
    ensures i !in Pending(TranslatePass(db, gemini, createFails, commitFails))
  {
    TranslatePassFacts(db, gemini, createFails, commitFails);
    var r := TranslatePass(db, gemini, createFails, commitFails);
    assert Outcome(db, r, Pending(db), i, gemini, createFails, commitFails);
    assert Translated(db, Pending(db), i, gemini, createFails, commitFails);
    var t := RowOf(db, Pending(db), i, gemini, createFails, commitFails);
    assert t.chapterId == i + 1;
    PendingFacts(r);
  }

  /**
   * A selected chapter whose translation does not succeed (a falsy answer, a
   * row build or a commit that raised) is left as it was and stays eligible.
   */
  lemma FailedStaysEligible(db: Db, gemini: string -> Option<string>, createFails: nat -> bool, commitFails: nat -> bool, i: nat)
    requires i in Pending(db) && i < |db.chapters| && db.chapters[i].content.Some?
    requires !Succeeds(db.chapters[i].content.value, i, gemini, createFails, commitFails)
    ensures var r := TranslatePass(db, gemini, createFails, commitFails);
      i < |r.chapters| && r.chapters[i] == db.chapters[i] && Untranslated(r.chapters, TranslatedIds(r.translations), i)
  {
    PendingFacts(db);
    TranslatePassFacts(db, gemini, createFails, commitFails);
    var r := TranslatePass(db, gemini, createFails, commitFails);
    assert Outcome(db, r, Pending(db), i, gemini, createFails, commitFails);
    var k :| 0 <= k < |Pending(db)| && Pending(db)[k] == i;
    assert Untranslated(db.chapters, TranslatedIds(db.translations), i);
    forall t | t in r.translations ensures t.chapterId != i + 1 {
      var m :| 0 <= m < |r.translations| && r.translations[m] == t;
      if m < |db.translations| {
        assert t == db.translations[m];
      } else {
        assert RowFrom(db, Pending(db), t, gemini, createFails, commitFails);
      }
    }
  }

  /** When building the row always raises, as the extra traductor_ia keyword makes it, a pass stores nothing. */
  lemma {:induction false} AsWrittenStoresNothing(db: Db, pending: seq<nat>, k: nat, gemini: string -> Option<string>,
                                                  commitFails: nat -> bool)
    requires Selectable(db, pending, k)
    ensures TranslateFrom(db, pending, k, gemini, _ => true, commitFails) == db
    decreases |pending| - k
  {
    if k < |pending| {
      assert TranslateStep(db, pending[k], gemini, _ => true, commitFails) == db;
      AsWrittenStoresNothing(db, pending, k + 1, gemini, commitFails);
    }
  }

  /** What the source does: no translation is ever stored, whatever Gemini answers. */
  lemma AsWrittenPassStoresNothing(db: Db, gemini: string -> Option<string>, commitFails: nat -> bool)
    ensures TranslatePass(db, gemini, _ => true, commitFails) == db
  {
    PendingFacts(db);
    AsWrittenStoresNothing(db, Pending(db), 0, gemini, commitFails);
  }

  /**
   * With a row that builds, a selected chapter whose answer is non-empty and
   * whose commit goes through gets its row and its flag.
   */
  lemma CorrectedStoresTranslation(db: Db, gemini: string -> Option<string>, commitFails: nat -> bool, i: nat)
    requires i in Pending(db) && i < |db.chapters| && db.chapters[i].content.Some?
    requires Answer(db.chapters[i].content.value, gemini).Some?
    requires Answer(db.chapters[i].content.value, gemini).value != ""
    requires !commitFails(i)
    ensures var r := TranslatePass(db, gemini, _ => false, commitFails);
      && r.chapters[i].sentToTranslation
      && NewTranslation(i, Answer(db.chapters[i].content.value, gemini).value) in r.translations
  {
    PendingFacts(db);
    TranslatePassFacts(db, gemini, _ => false, commitFails);
    var r := TranslatePass(db, gemini, _ => false, commitFails);
    assert Outcome(db, r, Pending(db), i, gemini, _ => false, commitFails);
  }

  // ---------------------------------------------------------------------------
  // The pass, as the service runs it
  // ---------------------------------------------------------------------------

  /** One iteration of the loop of lines 53-75, for chapter `i`. */
  method TranslateOne(db: Session, i: nat, gemini: string -> Option<string>, createFails: nat -> bool, commitFails: nat -> bool)
    requires db.working == db.committed
    requires i < |db.committed.chapters| && db.committed.chapters[i].content.Some?
    modifies db
    ensures db.committed == TranslateStep(old(db.committed), i, gemini, createFails, commitFails)
    ensures db.working == db.committed
  {
    var cap := db.committed.chapters[i];
    var translated := Answer(cap.content.value, gemini);
    if translated.None? || translated.value == "" {
      return;
    }
    if createFails(i) {
      db.Rollback();
      return;
    }
    db.AddTranslation(NewTranslation(i, translated.value));
    db.MarkSent(i);
    var raised := db.Commit(commitFails(i));
    if raised {
      db.Rollback();
    }
  }

  /** process_pending_translations over a session with nothing staged. */
  method ProcessPendingTranslations(db: Session, gemini: string -> Option<string>, createFails: nat -> bool,
                                    commitFails: nat -> bool)
    requires db.working == db.committed
    modifies db
    ensures db.committed == TranslatePass(old(db.committed), gemini, createFails, commitFails)
    ensures db.working == db.committed
  {
    PendingFacts(db.committed);
    var pending := Pending(db.committed);
    ghost var db0 := db.committed;
    var k := 0;
    while k < |pending|
      invariant 0 <= k <= |pending|
      invariant Selectable(db.committed, pending, k)
      invariant TranslateFrom(db.committed, pending, k, gemini, createFails, commitFails) ==
                TranslateFrom(db0, pending, 0, gemini, createFails, commitFails)
      invariant db.working == db.committed
    {
      ghost var before := db.committed;
      TranslateOne(db, pending[k], gemini, createFails, commitFails);
      assert Selectable(db.committed, pending, k + 1) by {
        forall j | k + 1 <= j < |pending| ensures db.committed.chapters[pending[j]].content == before.chapters[pending[j]].content { }
      }
      k := k + 1;
    }
  }
}
