/**
 * The admin dashboard's page logic: who counts as an administrator, which
 * greeting pages (years) a user may list and open, which page is selected by
 * default, and which new-year input is accepted. The auth service and the
 * database tables are inputs; the React state is the `AdminPage` class.
 */
module AdminPage {
  import opened Wrappers
  import opened Database
  import opened Text
  import Decimal
  import Sorting
  import CardStore

  const AdminEmails: seq<string> := ["takanag@gmail.com"]

  const MinYear: int := 2000
  const MaxYear: int := 2100

  /** The signed-in user as the auth service reports it. */
  datatype User = User(id: UserId, email: Option<string>)

  /** `adminEmails.includes(user.email || '')`: a user without an email is never an administrator. */
  function IsAdmin(email: Option<string>): (r: bool)
    ensures r <==> email == Some("takanag@gmail.com")
  {
    OrEmpty(email) in AdminEmails
  }

  /** What the new-year prompt leads to. */
  datatype YearInput = Cancelled | Rejected | Accepted(year: int)

  /**
   * The prompt's answer (`None` when dismissed): nothing happens for a missing
   * or empty answer, an answer that does not parse or lies outside 2000–2100
   * is rejected with an alert, and anything else creates that year.
   */
  function NewYearDecision(answer: Option<string>): (r: YearInput)
    ensures r.Cancelled? <==> !Present(answer)
    ensures r.Accepted? ==> MinYear <= r.year <= MaxYear && Decimal.ParseInt(answer.value) == Some(r.year)
    ensures r.Rejected? ==>
      Present(answer) && (Decimal.ParseInt(answer.value).None? || !(MinYear <= Decimal.ParseInt(answer.value).value <= MaxYear))
  {
    if !Present(answer) then Cancelled
    else match Decimal.ParseInt(answer.value)
      case None => Rejected
      case Some(n) => if n < MinYear || n > MaxYear then Rejected else Accepted(n)
  }

  /** Every year in range, typed as its decimal spelling, is accepted as itself. */
  lemma TypedYearAccepted(n: nat)
    requires MinYear <= n <= MaxYear
    ensures NewYearDecision(Some(Decimal.NatToString(n))) == Accepted(n)
  {
    Decimal.ParseNatToString(n);
  }

  /** `.eq('user_id', id)`: the pages owned by `user`, in storage order. */
  function OwnedBy(table: seq<Year>, user: UserId): (r: seq<Year>)
    ensures forall y :: y in r <==> y in table && y.user_id == Some(user)
    decreases |table|
  {
    if table == [] then []
    else (if table[0].user_id == Some(user) then [table[0]] else []) + OwnedBy(table[1..], user)
  }

  /** `.order('year', { ascending: false })` as an ascending sort on the negated year. */
  function Descending(y: Year): int {
    -y.year
  }

  /**
   * The `years` query: every page for an administrator, the user's own pages
   * for anyone else, latest year first.
   */
  function VisibleYears(table: seq<Year>, user: UserId, isAdmin: bool): (r: seq<Year>)
    ensures Sorting.SortedBy(r, Descending)
    ensures |r| == if isAdmin then |table| else |OwnedBy(table, user)|
  {
    Sorting.SortBy(if isAdmin then table else OwnedBy(table, user), Descending)
  }

  /** The listed pages are exactly the permitted ones, each as often as stored. */
  lemma VisibleYearsPermitted(table: seq<Year>, user: UserId, isAdmin: bool)
    ensures multiset(VisibleYears(table, user, isAdmin)) == multiset(if isAdmin then table else OwnedBy(table, user))
    ensures forall y :: y in VisibleYears(table, user, isAdmin) <==> y in table && (isAdmin || y.user_id == Some(user))
  {
    var r := VisibleYears(table, user, isAdmin);
    var src := if isAdmin then table else OwnedBy(table, user);
    Sorting.SortByPermutes(src, Descending);
    forall y
      ensures y in r <==> y in src
    {
      assert y in r <==> y in multiset(r);
      assert y in src <==> y in multiset(src);
    }
  }

  /** The list is latest first, so the first listed page, the default selection, carries the latest year. */
  lemma VisibleYearsLatestFirst(table: seq<Year>, user: UserId, isAdmin: bool)
    ensures var r := VisibleYears(table, user, isAdmin);
      forall i, j :: 0 <= i < j < |r| ==> r[i].year >= r[j].year
    ensures var r := VisibleYears(table, user, isAdmin);
      forall i :: 0 <= i < |r| ==> r[i].year <= r[0].year
  {
    var r := VisibleYears(table, user, isAdmin);
    assert Sorting.SortedBy(r, Descending);
    forall i, j | 0 <= i < j < |r|
      ensures r[i].year >= r[j].year
    {
      assert Descending(r[i]) <= Descending(r[j]);
    }
  }

  /** A page the user owns is always listed, for administrators and others alike. */
  lemma OwnPageListed(table: seq<Year>, user: UserId, isAdmin: bool, y: Year)
    requires y in table && y.user_id == Some(user)
    ensures y in VisibleYears(table, user, isAdmin)
  {
    VisibleYearsPermitted(table, user, isAdmin);
  }

  /** A non-administrator is denied a page another user owns (or nobody owns). */
  predicate Denied(isAdmin: bool, user: User, y: Year) {
    !isAdmin && y.user_id != Some(user.id)
  }

  /** Every page the list offers opens without a denial. */
  lemma ListedPagesOpen(table: seq<Year>, user: User, isAdmin: bool, y: Year)
    requires y in VisibleYears(table, user.id, isAdmin)
    ensures !Denied(isAdmin, user, y)
  {
    VisibleYearsPermitted(table, user.id, isAdmin);
  }

  /** Row `i` is the only row with that id. */
  predicate UniqueIdAt(table: seq<Year>, id: YearId, i: int) {
    0 <= i < |table| && table[i].id == id
    && forall j :: 0 <= j < |table| && table[j].id == id ==> j == i
  }

  /**
   * `.from('years').select('*').eq('id', id).single()`: the row when exactly
   * one row has that id; no row or several rows give an error.
   */
  function YearById(table: seq<Year>, id: YearId): (r: Option<Year>)
    ensures r.Some? <==> exists i :: UniqueIdAt(table, id, i)
    ensures r.Some? ==> r.value in table && r.value.id == id
  {
    FilterIdSingle(table, id);
    var matching := FilterId(table, id);
    if |matching| == 1 then Some(matching[0]) else None
  }

  /** The row found is the unique row with that id. */
  lemma YearByIdIsUniqueRow(table: seq<Year>, id: YearId, i: int)
    requires UniqueIdAt(table, id, i)
    ensures YearById(table, id) == Some(table[i])
  {
    var y := YearById(table, id).value;
    var j :| 0 <= j < |table| && table[j] == y;
  }

  function FilterId(table: seq<Year>, id: YearId): (r: seq<Year>)
    ensures forall y :: y in r <==> y in table && y.id == id
    decreases |table|
  {
    if table == [] then []
    else (if table[0].id == id then [table[0]] else []) + FilterId(table[1..], id)
  }

  /** `.eq('id', id)` keeps exactly one row when, and only when, one row has that id. */
  lemma {:induction false} FilterIdSingle(table: seq<Year>, id: YearId)
    ensures |FilterId(table, id)| == 1 <==> exists i :: UniqueIdAt(table, id, i)
    decreases |table|
  {
    if table != [] {
      FilterIdSingle(table[1..], id);
      if table[0].id == id {
        FilterIdHeadMatches(table, id);
      } else {
        FilterIdHeadDiffers(table, id);
      }
    }
  }

  /** With a matching first row, that row is unique iff no later row matches. */
  lemma FilterIdHeadMatches(table: seq<Year>, id: YearId)
    requires table != [] && table[0].id == id
    ensures |FilterId(table, id)| == 1 <==> exists i :: UniqueIdAt(table, id, i)
  {
    var rest := table[1..];
    assert FilterId(table, id) == [table[0]] + FilterId(rest, id);
    if FilterId(rest, id) == [] {
      forall j | 0 < j < |table| ensures table[j].id != id {
        assert table[j] == rest[j - 1];
        assert rest[j - 1] in rest;
      }
      assert UniqueIdAt(table, id, 0);
    } else {
      var y := FilterId(rest, id)[0];
      assert y in FilterId(rest, id);
      var k :| 0 <= k < |rest| && rest[k] == y;
      assert table[k + 1] == y;
      forall i | 0 <= i < |table| ensures !UniqueIdAt(table, id, i) {
        if i != 0 {
          assert table[0].id == id;
        } else {
          assert table[k + 1].id == id;
        }
      }
    }
  }

  /** With a first row that does not match, uniqueness is decided by the rest. */
  lemma FilterIdHeadDiffers(table: seq<Year>, id: YearId)
    requires table != [] && table[0].id != id
    requires |FilterId(table[1..], id)| == 1 <==> exists i :: UniqueIdAt(table[1..], id, i)
    ensures |FilterId(table, id)| == 1 <==> exists i :: UniqueIdAt(table, id, i)
  {
    assert FilterId(table, id) == FilterId(table[1..], id);
    if exists i :: UniqueIdAt(table, id, i) {
      var i :| UniqueIdAt(table, id, i);
      UniqueInTail(table, id, i);
    }
    if exists k :: UniqueIdAt(table[1..], id, k) {
      var k :| UniqueIdAt(table[1..], id, k);
      UniqueFromTail(table, id, k);
    }
  }

  /** A unique row behind a non-matching first row is unique in the rest. */
  lemma UniqueInTail(table: seq<Year>, id: YearId, i: int)
    requires table != [] && table[0].id != id && UniqueIdAt(table, id, i)
    ensures UniqueIdAt(table[1..], id, i - 1)
  {
    var rest := table[1..];
    forall j | 0 <= j < |rest| && rest[j].id == id ensures j == i - 1 {
      assert table[j + 1] == rest[j];
    }
  }

  /** A unique row of the rest stays unique behind a non-matching first row. */
  lemma UniqueFromTail(table: seq<Year>, id: YearId, k: int)
    requires table != [] && table[0].id != id && UniqueIdAt(table[1..], id, k)
    ensures UniqueIdAt(table, id, k + 1)
  {
    var rest := table[1..];
    forall j | 0 <= j < |table| && table[j].id == id ensures j == k + 1 {
      assert rest[j - 1] == table[j];
    }
  }

  /** What `getUser` did. */
  datatype UserReply = UserThrew | UserError | UserAnswered(user: Option<User>)

  class AdminPage {
    var years: seq<Year>
    var selectedYearId: Option<YearId>
    var selectedYear: Option<YearWithCards>
    var loading: bool
    var currentUser: Option<User>
    var isAdmin: bool

    /** The page as first rendered: nothing loaded, busy. */
    constructor ()
      ensures years == [] && selectedYearId == None && selectedYear == None
      ensures loading && currentUser == None && !isAdmin
    {
      years := [];
      selectedYearId := None;
      selectedYear := None;
      loading := true;
      currentUser := None;
      isAdmin := false;
    }

    /** `loadCurrentUser`: a reported user becomes current; errors and no user change nothing. */
    method LoadCurrentUser(reply: UserReply)
      modifies this
      ensures reply.UserAnswered? && reply.user.Some? ==>
        currentUser == reply.user && isAdmin == IsAdmin(reply.user.value.email)
      ensures !(reply.UserAnswered? && reply.user.Some?) ==>
        currentUser == old(currentUser) && isAdmin == old(isAdmin)
      ensures years == old(years) && selectedYearId == old(selectedYearId)
      ensures selectedYear == old(selectedYear) && loading == old(loading)
    {
      if reply.UserAnswered? && reply.user.Some? {
        currentUser := reply.user;
        isAdmin := IsAdmin(reply.user.value.email);
      }
    }

    /**
     * `loadYears` against the `years` table; `queryFails` says whether the
     * query returned an error. Without a current user only the list is
     * cleared; the selection is kept.
     */
    method LoadYears(table: seq<Year>, queryFails: bool)
      modifies this
      ensures !loading
      ensures currentUser == old(currentUser) && isAdmin == old(isAdmin)
      ensures currentUser.None? ==>
        years == [] && selectedYearId == old(selectedYearId) && selectedYear == old(selectedYear)
      ensures currentUser.Some? && queryFails ==>
        years == old(years) && selectedYearId == old(selectedYearId) && selectedYear == old(selectedYear)
      ensures currentUser.Some? && !queryFails ==>
        var data := VisibleYears(table, currentUser.value.id, isAdmin);
        years == data
        && (data == [] ==> selectedYearId == None && selectedYear == None)
        && (data != [] ==>
              selectedYear == old(selectedYear)
              && selectedYearId == if Present(old(selectedYearId)) then old(selectedYearId) else Some(data[0].id))
    {
      loading := false;
      if currentUser.None? {
        years := [];
        return;
      }
      if queryFails {
        return;
      }
      var data := VisibleYears(table, currentUser.value.id, isAdmin);
      years := data;
      if data == [] {
        selectedYearId := None;
        selectedYear := None;
      } else if !Present(selectedYearId) {
        selectedYearId := Some(data[0].id);
      }
    }

    /**
     * `loadYearData(yearId)` against the two tables. A failed read, or a
     * non-administrator without a current user (the owner check then throws),
     * changes nothing; a page another user owns is refused and the list is
     * reloaded; otherwise the page with its cards in display order is selected.
     */
    method LoadYearData(yearId: YearId, yearTable: seq<Year>, cardRows: seq<Card>, cardsFail: bool, reloadFails: bool)
      modifies this
      ensures currentUser == old(currentUser) && isAdmin == old(isAdmin)
      ensures selectedYear != old(selectedYear) && selectedYear.Some? ==>
        var y := YearById(yearTable, yearId);
        y.Some? && !cardsFail && selectedYear == Some(YearWithCards(y.value, CardStore.CardsOfYear(cardRows, yearId)))
        && (isAdmin || (currentUser.Some? && y.value.user_id == Some(currentUser.value.id)))
      ensures var y := YearById(yearTable, yearId);
        y.Some? && !cardsFail && (isAdmin || (currentUser.Some? && !Denied(isAdmin, currentUser.value, y.value))) ==>
        selectedYear == Some(YearWithCards(y.value, CardStore.CardsOfYear(cardRows, yearId)))
      ensures var y := YearById(yearTable, yearId);
        y.Some? && currentUser.Some? && Denied(isAdmin, currentUser.value, y.value) ==>
        var data := VisibleYears(yearTable, currentUser.value.id, isAdmin);
        !loading
        && (reloadFails ==>
              years == old(years) && selectedYearId == old(selectedYearId) && selectedYear == old(selectedYear))
        && (!reloadFails ==> years == data)
        && (!reloadFails && data == [] ==> selectedYearId == None && selectedYear == None)
        && (!reloadFails && data != [] ==>
              selectedYear == old(selectedYear)
              && selectedYearId == if Present(old(selectedYearId)) then old(selectedYearId) else Some(data[0].id))
      ensures var y := YearById(yearTable, yearId);
        !(y.Some? && currentUser.Some? && Denied(isAdmin, currentUser.value, y.value)) ==>
        years == old(years) && selectedYearId == old(selectedYearId) && loading == old(loading)
      ensures var y := YearById(yearTable, yearId);
        !(y.Some? && currentUser.Some? && Denied(isAdmin, currentUser.value, y.value))
        && (y.None? || cardsFail || (!isAdmin && currentUser.None?)) ==>
        selectedYear == old(selectedYear)
    {
      var y := YearById(yearTable, yearId);
      if y.None? {
        return;
      }
      if !isAdmin {
        if currentUser.None? {
          return;
        }
        if y.value.user_id != Some(currentUser.value.id) {
          LoadYears(yearTable, reloadFails);
          return;
        }
      }
      if cardsFail {
        return;
      }
      selectedYear := Some(YearWithCards(y.value, CardStore.CardsOfYear(cardRows, yearId)));
    }

    /**
     * `createNewYear`: without a current user nothing happens; otherwise the
     * new row, owned by the current user, is inserted (unless refused), the
     * list is reloaded and the new page selected. `row` is the row as the
     * database completes it (id, defaults, timestamps); `reloadFails` says
     * whether the reload's query returned an error, which `loadYears`
     * catches and logs, so the new page is selected either way.
     */
    method CreateNewYear(year: int, row: Year, table: seq<Year>, refused: bool, reloadFails: bool)
      returns (stored: seq<Year>)
      modifies this
      ensures currentUser == old(currentUser) && isAdmin == old(isAdmin)
      ensures currentUser.None? || refused ==>
        stored == table && years == old(years) && selectedYearId == old(selectedYearId)
        && selectedYear == old(selectedYear) && loading == old(loading)
      ensures currentUser.Some? && !refused ==>
        var inserted := row.(year := year, user_id := Some(currentUser.value.id));
        stored == table + [inserted]
        && (!reloadFails ==> years == VisibleYears(stored, currentUser.value.id, isAdmin) && inserted in years)
        && (reloadFails ==> years == old(years))
        && selectedYearId == Some(row.id)
        && selectedYear == old(selectedYear)
        && !loading
    {
      stored := table;
      if currentUser.None? || refused {
        return;
      }
      var inserted := row.(year := year, user_id := Some(currentUser.value.id));
      stored := table + [inserted];
      LoadYears(stored, reloadFails);
      OwnPageListed(stored, currentUser.value.id, isAdmin, inserted);
      selectedYearId := Some(row.id);
    }
  }
}
