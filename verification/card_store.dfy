/**
 * The `cards` table as the admin screens use it: rows in storage order,
 * updated by id, appended by insert, and read back per page ordered by
 * `display_order`. A write the database refuses returns an error and changes
 * nothing; which writes are refused is an input.
 */
module CardStore {
  import opened Wrappers
  import opened Database
  import Sorting

  /** The columns the card editor writes. */
  datatype CardContent = CardContent(
    title: string,
    by_text: string,
    month: Month,
    description: string,
    image_url: string,
    thumbnail_url: string,
    title_en: Option<string>,
    description_en: Option<string>,
    by_text_en: Option<string>)

  /** `.update({ display_order: order }).eq('id', id)` */
  function WriteOrder(rows: seq<Card>, id: CardId, order: int): (r: seq<Card>)
    ensures |r| == |rows|
    ensures forall j :: 0 <= j < |rows| ==>
      r[j] == rows[j].(display_order := r[j].display_order)
      && r[j].display_order == if rows[j].id == id then order else rows[j].display_order
  {
    seq(|rows|, j requires 0 <= j < |rows| =>
      if rows[j].id == id then rows[j].(display_order := order) else rows[j])
  }

  /** `c` with the editor's columns replaced by `p`. */
  function WithContent(c: Card, p: CardContent): Card {
    c.(title := p.title, by_text := p.by_text, month := p.month, description := p.description,
       image_url := p.image_url, thumbnail_url := p.thumbnail_url,
       title_en := p.title_en, description_en := p.description_en, by_text_en := p.by_text_en)
  }

  /** `.update(content).eq('id', id)` */
  function WriteContent(rows: seq<Card>, id: CardId, p: CardContent): (r: seq<Card>)
    ensures |r| == |rows|
    ensures forall j :: 0 <= j < |rows| && rows[j].id != id ==> r[j] == rows[j]
    ensures forall j :: 0 <= j < |rows| && rows[j].id == id ==>
      r[j].id == id && r[j].year_id == rows[j].year_id && r[j].display_order == rows[j].display_order
      && r[j].created_at == rows[j].created_at && r[j].updated_at == rows[j].updated_at
      && r[j].title == p.title && r[j].by_text == p.by_text && r[j].month == p.month
      && r[j].description == p.description && r[j].image_url == p.image_url && r[j].thumbnail_url == p.thumbnail_url
      && r[j].title_en == p.title_en && r[j].description_en == p.description_en && r[j].by_text_en == p.by_text_en
  {
    seq(|rows|, j requires 0 <= j < |rows| =>
      if rows[j].id == id then WithContent(rows[j], p) else rows[j])
  }

  /** The rows of one page, in storage order. */
  function RowsOfYear(rows: seq<Card>, yearId: YearId): (r: seq<Card>)
    ensures forall c :: c in r <==> c in rows && c.year_id == yearId
    ensures |r| <= |rows|
    decreases |rows|
  {
    if rows == [] then []
    else (if rows[0].year_id == yearId then [rows[0]] else []) + RowsOfYear(rows[1..], yearId)
  }

  function OrderKey(c: Card): int {
    c.display_order
  }

  /** `.from('cards').select('*').eq('year_id', yearId).order('display_order', { ascending: true })` */
  function CardsOfYear(rows: seq<Card>, yearId: YearId): (r: seq<Card>)
    ensures Sorting.SortedBy(r, OrderKey)
    ensures multiset(r) == multiset(RowsOfYear(rows, yearId))
  {
    Sorting.SortByPermutes(RowsOfYear(rows, yearId), OrderKey);
    Sorting.SortBy(RowsOfYear(rows, yearId), OrderKey)
  }

  /**
   * `.select('display_order').eq('year_id', yearId).order('display_order', { ascending: false })
   * .limit(1).single()`: the largest order on the page, or nothing when the page has no card.
   */
  function TopOrder(rows: seq<Card>, yearId: YearId): (r: Option<int>)
    ensures r.None? <==> forall j :: 0 <= j < |rows| ==> rows[j].year_id != yearId
    ensures r.Some? ==> exists j :: 0 <= j < |rows| && rows[j].year_id == yearId && rows[j].display_order == r.value
    ensures r.Some? ==> forall j :: 0 <= j < |rows| && rows[j].year_id == yearId ==> rows[j].display_order <= r.value
    decreases |rows|
  {
    if rows == [] then None
    else
      var rest := TopOrder(rows[1..], yearId);
      assert forall j :: 1 <= j < |rows| ==> rows[j] == rows[1..][j - 1];
      if rows[0].year_id != yearId then rest
      else if rest.None? || rows[0].display_order > rest.value then Some(rows[0].display_order)
      else rest
  }

  class CardTable {
    var rows: seq<Card>

    constructor (rows: seq<Card>)
      ensures this.rows == rows
    {
      this.rows := rows;
    }

    /** One `display_order` write; `refused` is the database's answer. */
    method UpdateOrder(id: CardId, order: int, refused: bool) returns (error: bool)
      modifies this
      ensures error == refused
      ensures rows == if refused then old(rows) else WriteOrder(old(rows), id, order)
    {
      error := refused;
      if !refused {
        rows := WriteOrder(rows, id, order);
      }
    }

    /** The editor's update of an existing card; no row with that id means no change and no error. */
    method UpdateContent(id: CardId, content: CardContent, refused: bool) returns (error: bool)
      modifies this
      ensures error == refused
      ensures rows == if refused then old(rows) else WriteContent(old(rows), id, content)
    {
      error := refused;
      if !refused {
        rows := WriteContent(rows, id, content);
      }
    }

    /** An insert; the database supplies the id and timestamps inside `row`. */
    method Insert(row: Card, refused: bool) returns (error: bool)
      modifies this
      ensures error == refused
      ensures rows == if refused then old(rows) else old(rows) + [row]
    {
      error := refused;
      if !refused {
        rows := rows + [row];
      }
    }
  }
}
