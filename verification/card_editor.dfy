/**
 * The card editor: the form state of one card, the rule that fills empty
 * English fields from machine translation, and saving (update of an existing
 * card, or insert of a new one at the end of its page).
 */
module CardEditor {
  import opened Wrappers
  import opened Database
  import opened Text
  import opened CardStore

  /** The editor's `englishEnabled` when the caller passes none. */
  const DefaultEnglishEnabled := false

  /** What `POST /api/translate` gives back for one text. */
  datatype Reply =
    | FetchFailed                          // the request or the JSON parse threw
    | NotOk                                // the response status was not 2xx
    | Ok(translatedText: Option<string>)   // a JSON body, `translatedText` possibly missing

  /** The translation endpoint as the editor sees it: one reply per text. */
  type Endpoint = string -> Reply

  /**
   * `translateText(text)`: blank input gives `''` without a request; a failed
   * request, a non-2xx status or an empty or missing `translatedText` gives the
   * input back; otherwise the translation. The test `!text.trim()` is written
   * as `Blank(text)`, which `Text.TrimEmptyIffBlank` shows to be the same.
   */
  function TranslateText(text: string, endpoint: Endpoint): (r: string)
    ensures Blank(text) ==> r == ""
    ensures !Blank(text) ==> r != ""
    ensures !Blank(text) && !endpoint(text).Ok? ==> r == text
    ensures r == "" || r == text || endpoint(text) == Ok(Some(r))
    ensures !Blank(text) && endpoint(text).Ok? && Present(endpoint(text).translatedText) ==>
      r == endpoint(text).translatedText.value
  {
    if Blank(text) then ""
    else match endpoint(text)
      case Ok(t) => if Present(t) then t.value else text
      case _ => text
  }

  /** A blank text is answered without the endpoint: any two endpoints give the same result. */
  lemma BlankNotTranslated(text: string, e1: Endpoint, e2: Endpoint)
    requires Blank(text)
    ensures TranslateText(text, e1) == TranslateText(text, e2) == ""
  {
  }

  /** The translation depends on the endpoint only through its reply for the text itself. */
  lemma SameReplySameTranslation(text: string, e1: Endpoint, e2: Endpoint)
    requires e1(text) == e2(text)
    ensures TranslateText(text, e1) == TranslateText(text, e2)
  {
  }

  /** `en || !base ? en : translateText(base)`: the value proposed for one English field. */
  function Proposed(en: string, base: string, endpoint: Endpoint): string {
    if en != "" || base == "" then en else TranslateText(base, endpoint)
  }

  /** `if (proposed && !en) setEn(proposed)`: the English field after the fill rule. */
  function Filled(en: string, base: string, endpoint: Endpoint): (r: string)
    ensures en != "" ==> r == en
    ensures base == "" ==> r == en
    ensures r != en ==> en == "" && r != "" && r == TranslateText(base, endpoint)
    ensures en == "" && !Blank(base) ==> r != ""
  {
    var p := Proposed(en, base, endpoint);
    if p != "" && en == "" then p else en
  }

  /** The text the fill rule sends to the endpoint for one field, if any. */
  function Sent(en: string, base: string): (r: Option<string>)
    ensures r.Some? ==> en == "" && r.value == base && base != "" && !Blank(base)
  {
    if en == "" && base != "" && !Blank(base) then Some(base) else None
  }

  /**
   * The fill rule consults the endpoint only about the text it sends: two
   * endpoints that agree on that text (or any two, when nothing is sent) give
   * the same field.
   */
  lemma FilledUsesOnlySent(en: string, base: string, e1: Endpoint, e2: Endpoint)
    requires Sent(en, base).None? || e1(base) == e2(base)
    ensures Filled(en, base, e1) == Filled(en, base, e2)
  {
    if en == "" && base != "" {
      if Blank(base) {
        BlankNotTranslated(base, e1, e2);
      } else {
        assert Sent(en, base) == Some(base);
        SameReplySameTranslation(base, e1, e2);
      }
    }
  }

  /** `englishEnabled ? (value || null) : null`: the stored form of one English field. */
  function EnglishValue(englishEnabled: bool, value: string): (r: Option<string>)
    ensures !englishEnabled ==> r == None
    ensures englishEnabled ==> (r == None <==> value == "")
    ensures r.Some? ==> r.value == value
  {
    if englishEnabled && value != "" then Some(value) else None
  }

  /** The display order of a new card: one past the page's largest, or 0 when none was read. */
  function NextOrder(top: Option<int>): (r: int)
    ensures top.None? ==> r == 0
    ensures top.Some? ==> top.value < r
  {
    if top.Some? then top.value + 1 else 0
  }

  /** A new card's order never equals the order of a card already on the page. */
  lemma NextOrderFresh(rows: seq<Card>, yearId: YearId)
    ensures var r := NextOrder(TopOrder(rows, yearId));
      forall j :: 0 <= j < |rows| && rows[j].year_id == yearId ==> rows[j].display_order < r
    ensures TopOrder(rows, yearId).None? ==> NextOrder(TopOrder(rows, yearId)) == 0
  {
  }

  /** On a page whose orders are exactly 0..N-1 a new card gets order N: it is appended. */
  lemma NextOrderAppends(rows: seq<Card>, yearId: YearId, n: nat)
    requires forall j :: 0 <= j < |rows| && rows[j].year_id == yearId ==> 0 <= rows[j].display_order < n
    requires forall k :: 0 <= k < n ==> HasOrder(rows, yearId, k)
    ensures NextOrder(TopOrder(rows, yearId)) == n
  {
    if n > 0 {
      assert HasOrder(rows, yearId, n - 1);
    }
  }

  /** Some card of the page has order `k`. */
  predicate HasOrder(rows: seq<Card>, yearId: YearId, k: int) {
    exists j :: 0 <= j < |rows| && rows[j].year_id == yearId && rows[j].display_order == k
  }

  /** The outcome of pressing save. */
  datatype SaveOutcome =
    | TitleRequired   // the title alert; nothing written
    | Saved           // written; `onSave()` closes the editor
    | Failed          // the database refused the write; the failure alert

  class Editor {
    const yearId: YearId
    const card: Option<Card>
    const englishEnabled: bool
    var title: string
    var byText: string
    var month: Month
    var description: string
    var imageUrl: string
    var thumbnailUrl: string
    var titleEn: string
    var descriptionEn: string
    var byTextEn: string

    /** The form opened on `card`, or empty for a new card. */
    constructor (yearId: YearId, card: Option<Card>, englishEnabled: bool)
      ensures this.yearId == yearId && this.card == card && this.englishEnabled == englishEnabled
      ensures card.Some? ==>
        title == card.value.title && byText == card.value.by_text && month == card.value.month &&
        description == card.value.description && imageUrl == card.value.image_url &&
        thumbnailUrl == card.value.thumbnail_url && titleEn == OrEmpty(card.value.title_en) &&
        descriptionEn == OrEmpty(card.value.description_en) && byTextEn == OrEmpty(card.value.by_text_en)
      ensures card.None? ==>
        title == byText == description == imageUrl == thumbnailUrl == titleEn == descriptionEn == byTextEn == "" &&
        month == January
    {
      this.yearId := yearId;
      this.card := card;
      this.englishEnabled := englishEnabled;
      if card.Some? {
        var c := card.value;
        title, byText, month, description := c.title, c.by_text, c.month, c.description;
        imageUrl, thumbnailUrl := c.image_url, c.thumbnail_url;
        titleEn, descriptionEn, byTextEn := OrEmpty(c.title_en), OrEmpty(c.description_en), OrEmpty(c.by_text_en);
      } else {
        title, byText, month, description := "", "", January, "";
        imageUrl, thumbnailUrl := "", "";
        titleEn, descriptionEn, byTextEn := "", "", "";
      }
    }

    /** The effect's condition: an existing card, English on, and an empty English title or description. */
    predicate AutoTranslateStarts()
      reads this
    {
      englishEnabled && card.Some? && (titleEn == "" || descriptionEn == "")
    }

    /** The condition under which the "translate from Japanese" button is shown. */
    predicate TranslateButtonShown()
      reads this
    {
      englishEnabled && (titleEn == "" || descriptionEn == "") && (title != "" || description != "")
    }

    /**
     * The three proposals are computed together, then each empty English field
     * takes its proposal when that is non-empty. Each field depends only on its
     * own English and base text, so the fields are updated together.
     */
    method FillEnglish(endpoint: Endpoint)
      modifies this`titleEn, this`descriptionEn, this`byTextEn
      ensures titleEn == Filled(old(titleEn), old(title), endpoint)
      ensures descriptionEn == Filled(old(descriptionEn), old(description), endpoint)
      ensures byTextEn == Filled(old(byTextEn), old(byText), endpoint)
    {
      titleEn, descriptionEn, byTextEn :=
        Filled(titleEn, title, endpoint), Filled(descriptionEn, description, endpoint), Filled(byTextEn, byText, endpoint);
    }

    /** The automatic translation when the editor opens on a card. */
    method AutoTranslate(endpoint: Endpoint) returns (started: bool)
      modifies this`titleEn, this`descriptionEn, this`byTextEn
      ensures started == old(AutoTranslateStarts())
      ensures started ==>
        titleEn == Filled(old(titleEn), title, endpoint) &&
        descriptionEn == Filled(old(descriptionEn), description, endpoint) &&
        byTextEn == Filled(old(byTextEn), byText, endpoint)
      ensures !started ==> titleEn == old(titleEn) && descriptionEn == old(descriptionEn) && byTextEn == old(byTextEn)
    {
      started := AutoTranslateStarts();
      if started {
        FillEnglish(endpoint);
      }
    }

    /** The button applies the same rule. */
    method TranslateButton(endpoint: Endpoint)
      requires TranslateButtonShown()
      modifies this`titleEn, this`descriptionEn, this`byTextEn
      ensures titleEn == Filled(old(titleEn), title, endpoint)
      ensures descriptionEn == Filled(old(descriptionEn), description, endpoint)
      ensures byTextEn == Filled(old(byTextEn), byText, endpoint)
    {
      FillEnglish(endpoint);
    }

    /** The columns a save writes. */
    function Content(): (p: CardContent)
      reads this
      ensures p.title_en == EnglishValue(englishEnabled, titleEn)
      ensures p.description_en == EnglishValue(englishEnabled, descriptionEn)
      ensures p.by_text_en == EnglishValue(englishEnabled, byTextEn)
    {
      CardContent(title, byText, month, description, imageUrl, thumbnailUrl,
        EnglishValue(englishEnabled, titleEn), EnglishValue(englishEnabled, descriptionEn),
        EnglishValue(englishEnabled, byTextEn))
    }

    /**
     * `handleSave`. A blank title is refused before any write. An existing card
     * is updated by id. A new card is inserted after reading the page's largest
     * order; when that read fails its `data` is null too, so the order is 0.
     * The database supplies the new row's id and timestamp; `refused` is its
     * answer to the write.
     */
    method HandleSave(table: CardTable, newId: CardId, createdAt: string, topReadFails: bool, refused: bool)
      returns (outcome: SaveOutcome)
      modifies table
      ensures Blank(title) ==> outcome == TitleRequired && table.rows == old(table.rows)
      ensures !Blank(title) && refused ==> outcome == Failed && table.rows == old(table.rows)
      ensures !Blank(title) && !refused && card.Some? ==>
        outcome == Saved && table.rows == WriteContent(old(table.rows), card.value.id, Content())
      ensures !Blank(title) && !refused && card.None? ==>
        outcome == Saved &&
        table.rows == old(table.rows) + [NewRow(newId, createdAt,
          NextOrder(if topReadFails then None else TopOrder(old(table.rows), yearId)))]
    {
      TrimEmptyIffBlank(title);
      if Trim(title) == [] {
        return TitleRequired;
      }
      var error;
      if card.Some? {
        error := table.UpdateContent(card.value.id, Content(), refused);
      } else {
        var top := if topReadFails then None else TopOrder(table.rows, yearId);
        error := table.Insert(NewRow(newId, createdAt, NextOrder(top)), refused);
      }
      outcome := if error then Failed else Saved;
    }

    /** The row a save inserts for a new card. */
    function NewRow(id: CardId, createdAt: string, order: int): (c: Card)
      reads this
      ensures c.year_id == yearId && c.display_order == order && WithContent(c, Content()) == c
    {
      Card(id, yearId, title, byText, month, description, imageUrl, thumbnailUrl, order,
        EnglishValue(englishEnabled, titleEn), EnglishValue(englishEnabled, descriptionEn),
        EnglishValue(englishEnabled, byTextEn), createdAt, createdAt)
    }
  }

  /**
   * The card list opens the editor without the flag, so whatever English was
   * typed: saving an existing card clears the stored English columns of its
   * row, and a new card is inserted without any.
   */
  lemma DefaultEditorStoresNoEnglish(e: Editor, rows: seq<Card>, id: CardId, createdAt: string, order: int)
    requires e.englishEnabled == DefaultEnglishEnabled
    ensures forall j :: 0 <= j < |rows| && rows[j].id == id ==>
      var w := WriteContent(rows, id, e.Content())[j];
      w.title_en == None && w.description_en == None && w.by_text_en == None
    ensures var c := e.NewRow(id, createdAt, order);
      c.title_en == None && c.description_en == None && c.by_text_en == None
  {
  }
}
