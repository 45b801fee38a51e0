/**
 * The rows the application stores: a greeting page (`Year`), its photo cards
 * (`Card`), and the contact roster embedded in a page (`ContactInfo`).
 * Timestamps and identifiers are opaque strings; optional columns and optional
 * JSON members are `Option`s.
 */
module Database {
  import opened Wrappers

  type CardId = string
  type YearId = string
  type UserId = string

  /** The twelve month labels a card may carry (not required to be unique or in order). */
  datatype Month =
    | January | February | March | April | May | June
    | July | August | September | October | November | December

  datatype Card = Card(
    id: CardId,
    year_id: YearId,
    title: string,
    by_text: string,
    month: Month,
    description: string,
    image_url: string,
    thumbnail_url: string,
    display_order: int,
    title_en: Option<string>,
    description_en: Option<string>,
    by_text_en: Option<string>,
    created_at: string,
    updated_at: string)

  /** The home entry of a roster: postal address and landline. */
  datatype Home = Home(address: Option<string>, phone: Option<string>)

  /** One person of a roster. */
  datatype Contact = Contact(name: Option<string>, email: string, phone: string)

  datatype HomeEn = HomeEn(address: Option<string>)

  datatype ContactNameEn = ContactNameEn(name: Option<string>)

  /**
   * A roster in either of its two stored shapes: the legacy two-person shape
   * (`takahiko`, `itsuki`) and the list shape (`contacts`, `contact_count`),
   * plus the English address and names.
   */
  datatype ContactInfo = ContactInfo(
    home: Home,
    takahiko: Option<Contact>,
    itsuki: Option<Contact>,
    contacts: Option<seq<Contact>>,
    contact_count: Option<nat>,
    home_en: Option<HomeEn>,
    contacts_en: Option<seq<ContactNameEn>>)

  datatype Year = Year(
    id: YearId,
    year: int,
    title_text: string,
    greeting_text: string,
    header_background_url: Option<string>,
    footer_text: string,
    footer_visible: bool,
    contact_info: Option<ContactInfo>,
    user_id: Option<UserId>,
    username: Option<string>,
    english_enabled: bool,
    title_text_en: Option<string>,
    greeting_text_en: Option<string>,
    footer_text_en: Option<string>,
    created_at: string,
    updated_at: string)

  datatype YearWithCards = YearWithCards(year: Year, cards: seq<Card>)
}
