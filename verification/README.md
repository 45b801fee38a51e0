# Greeting pages: a verified model of the decision logic

The greeting application publishes yearly New Year greeting pages. Each page
is a `Year` row holding titles, greeting text and a contact roster, plus a set
of photo `Card` rows. An admin dashboard edits the pages, behind a login and
a request gate. This project models, in Dafny, the parts of that application
that decide something:

- **Card ordering** (`card_list.dfy`, `card_store.dfy`). A card is moved up,
  down, to a typed 1-based position, or by drag and drop. The move is an
  `arrayMove` of the page's cards, followed by one `display_order` write per
  card. The `cards` table is a class whose rows the writes update one at a
  time.
- **Card editing** (`card_editor.dfy`). This covers:
  - the blank-title guard;
  - how the three English columns are stored;
  - the order given to a new card;
  - the fill rule that completes empty English fields by machine
    translation, with the translator as a function parameter.
- **Contact roster** (`contact_info.dfy`). This covers:
  - the two stored roster shapes, normalised to one list of reachable
    contacts;
  - the English address and names;
  - the column count and its CSS class;
  - when the component renders nothing.
- **Link detection** (`linkify.dfy`). A hand-written scanner replaces the
  regular expression `/(https?:\/\/[^\s]+|www\.[^\s]+)/gi`. The `exec` loop is
  a method proved equal to a recursive specification. Line splitting inserts
  a `<br />` between lines.
- **Request gate** (`middleware.dfy`). The gate decides whether an admin
  request passes or is redirected to the login page. Its inputs are:
  - the path;
  - the environment;
  - the auth-service answers;
  - the cookies.
- **Sign-up and login forms** (`signup.dfy`, `login.dfy`). These cover the
  ordered input checks, the mapping of service errors to Japanese messages,
  and the two-step session confirmation before redirecting.
- **Admin dashboard** (`admin_page.dfy`). This covers:
  - the administrator allowlist;
  - the owner filter and year-descending order of the page list;
  - the default selection;
  - the refusal of another user's page;
  - new-year input validation;
  - page creation.

Supporting modules:
- `Wrappers` holds `Option`.
- `Text` holds the JavaScript string operations used: `trim`, `\s`,
  `includes`, `startsWith`, `split`, `||` on optional strings.
- `Decimal` holds `parseInt(s, 10)` and `String(n)`.
- `Sorting` holds the database's `.order(...)`.
- `Database` holds the stored rows.

Everything the hosted services do is an input: query results, refused writes,
thrown exceptions, auth answers and translation replies. Timers, the network
and the clock are not modelled.

## Model

| member | source | states |
|---|---|---|
| Text.TrimStart | components/admin/CardEditor.tsx:41 | the result is a suffix of the input, starts on a non-whitespace character (or is empty), and only whitespace was removed |
| Text.TrimEnd | components/admin/CardEditor.tsx:41 | the result is a prefix of the input, ends on a non-whitespace character (or is empty), and only whitespace was removed |
| Text.TrimStartOfBlank | components/admin/CardEditor.tsx:41 | trimming the start of an all-whitespace string leaves nothing |
| Text.TrimEmptyIffBlank | components/admin/CardEditor.tsx:122 | `!s.trim()` holds exactly when every character of `s` is JavaScript whitespace |
| Text.ContainsIffOccurs | middleware.ts:48-53 | `includes` holds exactly when the substring occurs at some index |
| Text.OrEmpty | components/admin/CardEditor.tsx:32-34 | `o \|\| ''` is non-empty exactly when `o` is a non-empty string, and is then that string |
| Text.Split | components/LinkifyText.tsx:62 | `split` gives at least one piece, and no piece holds the separator |
| Text.SplitJoin | components/LinkifyText.tsx:62 | joining the pieces with the separator gives the text back; there is one piece more than there are separators |
| Decimal.DigitRun | components/admin/CardList.tsx:73 | the leading digit run is all digits and is followed by a non-digit or the end |
| Decimal.ParseInt | components/admin/CardList.tsx:73 | `parseInt(s, 10)` is NaN exactly when no digit follows the leading whitespace and optional sign |
| Decimal.Unsigned | components/admin/CardList.tsx:73 | at most one leading `+` or `-` is removed |
| Decimal.NatToString | components/admin/CardList.tsx:65 | `String(n)` is a non-empty digit string with no leading zero whose value is `n` |
| Decimal.ParseNatToString | components/admin/CardList.tsx:65-77 | `parseInt(String(n), 10) == n`: the round trip between the order box's text and its number |
| Sorting.InsertBy | app/greeting/admin/page.tsx:114-118 | inserting into a sorted list keeps it sorted, one longer, and keeps every lower bound the element respects |
| Sorting.InsertByPermutes | app/greeting/admin/page.tsx:114-118 | insertion adds exactly that element (as a multiset) |
| Sorting.SortBy | app/greeting/admin/page.tsx:114-118 | `.order(column)` returns as many rows, sorted by the column |
| Sorting.SortByPermutes | app/greeting/admin/page.tsx:114-118 | `.order(column)` returns the same rows, as a multiset |
| CardStore.RowsOfYear | app/greeting/admin/page.tsx:114-117 | `.eq('year_id', id)` keeps exactly the page's rows |
| CardStore.WriteOrder | components/admin/CardList.tsx:229-233 | `.update({ display_order }).eq('id')`: every row keeps its other columns and only rows with the id take the new order |
| CardStore.WriteContent | components/admin/CardEditor.tsx:131-144 | `.update(content).eq('id')`: rows with another id are unchanged; rows with the id keep id, page, order and timestamps and take all nine editor columns (title, by-line, month, description, image, thumbnail and the three English columns) from the content |
| CardStore.CardsOfYear | app/greeting/admin/page.tsx:114-118 | a page's cards are its rows, as a multiset, in ascending `display_order` |
| CardStore.TopOrder | components/admin/CardEditor.tsx:149-155 | the largest `display_order` on the page is the order of one of its cards and bounds all of them; it is absent exactly when the page has no card |
| CardStore.CardTable.constructor | components/admin/CardList.tsx:229-234 | the table holds the given rows |
| CardStore.CardTable.UpdateOrder | components/admin/CardList.tsx:230-233 | one order write: refused leaves the rows unchanged; accepted sets that id's order and nothing else |
| CardStore.CardTable.UpdateContent | components/admin/CardEditor.tsx:131-146 | an update by id: refused leaves the rows unchanged; accepted rewrites the editor's columns of that id |
| CardStore.CardTable.Insert | components/admin/CardEditor.tsx:159-175 | an insert appends the row unless refused |
| CardList.ArrayMove | components/admin/CardList.tsx:220 | `arrayMove`: same length and same cards (a permutation); index `i` holds the card that stood at `MovedFrom(from, to, i)` (the moved card lands at `to`, cards strictly between shift by one, the rest stay) |
| CardList.MovedFromInverse | components/admin/CardList.tsx:220 | the index map of a move is undone by the opposite move's map |
| CardList.ArrayMoveUndo | components/admin/CardList.tsx:220 | moving a card back restores the original list |
| CardList.ArrayMoveDistinct | components/admin/CardList.tsx:220 | a move keeps card ids distinct |
| CardList.MoveUpTarget | components/admin/CardList.tsx:242-246 | move-up requests a move exactly when the card is not first, to the index above |
| CardList.MoveDownTarget | components/admin/CardList.tsx:248-252 | move-down requests a move exactly when the card is not last, to the index below |
| CardList.OrderChangeTarget | components/admin/CardList.tsx:254-258 | a typed target moves the card exactly when it is inside the list and differs from the current index |
| CardList.IndexOf | components/admin/CardList.tsx:213-214 | `findIndex`: -1 exactly when no card has the id, else the first index holding it |
| CardList.Updates | components/admin/CardList.tsx:224-227 | one write per card of the new list, numbering it by its position; distinct ids give distinct writes |
| CardList.Plan | components/admin/CardList.tsx:220-227 | a move plans one write per card: the moved card takes its target position and every position gets the card the move puts there |
| CardList.DragTarget | components/admin/CardList.tsx:208-217 | a drop yields a move exactly when there is a target other than the dragged card; the move goes from the dragged card's index to the target's |
| CardList.DragTargetValid | components/admin/CardList.tsx:211-214 | with distinct ids, a drop on another card is a valid move |
| CardList.OrderSubmitted | components/admin/CardList.tsx:72-79 | the 1-based box requests a move exactly when it parses to `n` with `n-1` inside the list and not the current index; otherwise it shows the current position again |
| CardList.UntouchedOrderInputResets | components/admin/CardList.tsx:65-79 | submitting the box's initial text changes nothing |
| CardList.SubmittedOrderMoves | components/admin/CardList.tsx:254-256 | an accepted box value always passes `handleOrderChange`'s guard |
| CardList.Issued | components/admin/CardList.tsx:229-239 | an exception stops the writes early; never more writes than planned |
| CardList.ApplyWrites | components/admin/CardList.tsx:229-234 | the writes keep the table's size |
| CardList.ApplyWritesEffect | components/admin/CardList.tsx:229-234 | with distinct ids, a written and accepted row takes its write's order and keeps all other columns; every other row is unchanged |
| CardList.ReorderWrites | components/admin/CardList.tsx:220-234 | after the first `k` writes, each of the first `k` cards of the moved list has its new index (unless refused); later cards, refused rows and other pages are untouched |
| CardList.ReorderRenumbers | components/admin/CardList.tsx:220-234 | after a complete reorder the list's orders are exactly 0..N-1 in the new list order, whatever they were before; other rows are untouched |
| CardList.UpdateCardOrder | components/admin/CardList.tsx:219-240 | the table ends as the moved list's writes leave it, in list order (all of them, or those before the thrown one); it refreshes after all writes, else alerts; per-write errors are not inspected |
| CardList.IssueWrites | components/admin/CardList.tsx:229-236 | the write loop applies exactly the writes issued before the exception, if any, in order, and reports whether all were issued |
| CardList.PerformMove | components/admin/CardList.tsx:242-258 | no move means no write and no refresh; a move is `updateCardOrder` |
| CardList.HandleMoveUp | components/admin/CardList.tsx:242-246 | the first card writes nothing; any other card is swapped with the one above, the list refreshed when every write was issued and an alert shown otherwise |
| CardList.HandleMoveDown | components/admin/CardList.tsx:248-252 | the last card writes nothing; any other card is swapped with the one below, the list refreshed when every write was issued and an alert shown otherwise |
| CardList.HandleOrderChange | components/admin/CardList.tsx:254-258 | out-of-range or same-index targets write nothing; others perform that move, refreshing when every write was issued and alerting otherwise |
| CardList.HandleDragEnd | components/admin/CardList.tsx:208-217 | no target or the card itself writes nothing; otherwise the move between the two indices, refreshing when every write was issued and alerting otherwise |
| CardEditor.TranslateText | components/admin/CardEditor.tsx:40-62 | blank input gives `''`; a failed call gives the input back; a successful call with a non-empty translation returns that translation; the result is never empty for non-blank input |
| CardEditor.BlankNotTranslated | components/admin/CardEditor.tsx:41 | for blank input the endpoint is not consulted |
| CardEditor.Filled | components/admin/CardEditor.tsx:96-108 | a non-empty English field is never overwritten; an empty base text leaves the field alone; a changed field was empty and becomes the non-empty translation |
| CardEditor.Sent | components/admin/CardEditor.tsx:96-98 | only a non-blank base text of an empty English field is sent |
| CardEditor.SameReplySameTranslation | components/admin/CardEditor.tsx:40-62 | the translation depends on the endpoint only through its reply for the text itself |
| CardEditor.FilledUsesOnlySent | components/admin/CardEditor.tsx:96-108 | the fill rule depends on the endpoint only through the text it sends |
| CardEditor.EnglishValue | components/admin/CardEditor.tsx:140-142 | English off stores null; English on stores null for `''` and the text otherwise |
| CardEditor.NextOrder | components/admin/CardEditor.tsx:149-157 | 0 when no card was read, else above the top order; `CardEditor.NextOrderFresh` and `CardEditor.NextOrderAppends` tie it to the page |
| CardEditor.NextOrderFresh | components/admin/CardEditor.tsx:149-157 | a new card's order exceeds every order on the page, and is 0 for an empty page |
| CardEditor.NextOrderAppends | components/admin/CardEditor.tsx:149-157 | on a page numbered 0..N-1 a new card gets N |
| CardEditor.Editor.constructor | components/admin/CardEditor.tsx:26-87 | the form starts from the card's fields (missing English as `''`), or empty with January for a new card |
| CardEditor.Editor.FillEnglish | components/admin/CardEditor.tsx:95-108 | each English field becomes `Filled` of its old value and base text |
| CardEditor.Editor.AutoTranslate | components/admin/CardEditor.tsx:90-119 | the fill starts exactly for an existing card with English on and an empty title or description translation; otherwise nothing changes |
| CardEditor.Editor.TranslateButton | components/admin/CardEditor.tsx:275-302 | the button applies the same fill rule |
| CardEditor.Editor.Content | components/admin/CardEditor.tsx:133-143 | the saved English columns follow `EnglishValue` |
| CardEditor.Editor.HandleSave | components/admin/CardEditor.tsx:121-184 | a blank title writes nothing; a refused write changes nothing; an existing card is updated by id; a new card is appended with `NextOrder` of the page's top order (0 when that read fails) |
| CardEditor.Editor.NewRow | components/admin/CardEditor.tsx:159-173 | the inserted row belongs to the page, has the given order and the editor's content |
| CardEditor.DefaultEditorStoresNoEnglish | components/admin/CardEditor.tsx:18-172 | with the flag off (its default, which the card list relies on) saving writes no English columns for the edited card and a new card has none |
| ContactInfo.KeepReachable | components/ContactInfo.tsx:13 | the filter keeps exactly the contacts with an email or phone, and no more than it was given |
| ContactInfo.KeepReachableConcat | components/ContactInfo.tsx:13 | filtering distributes over concatenation, so stored order is kept |
| ContactInfo.Prefix | components/ContactInfo.tsx:12 | `slice(0, count)` is a prefix of length `min(count, length)` |
| ContactInfo.ActiveCount | components/ContactInfo.tsx:9 | an absent or zero `contact_count` means the whole list; otherwise the count as stored |
| ContactInfo.LegacyContacts | components/ContactInfo.tsx:17-25 | the legacy shape yields at most two contacts |
| ContactInfo.GetContacts | components/ContactInfo.tsx:6-26 | every returned contact is reachable; legacy gives at most 2; a list gives at most `count` and at most its length |
| ContactInfo.LegacyIsFiltered | components/ContactInfo.tsx:17-25 | the legacy result is `takahiko` then `itsuki`, filtered |
| ContactInfo.NothingKeptIffNoneReachable | components/ContactInfo.tsx:13 | the filter returns nothing exactly when no contact is reachable |
| ContactInfo.ListContactShown | components/ContactInfo.tsx:8-13 | with a list, a contact is shown exactly when it is reachable and among the first `count` stored |
| ContactInfo.RaisingCountAppends | components/ContactInfo.tsx:9-13 | a larger `contact_count` shows the same contacts followed by more |
| ContactInfo.HomeAddress | components/ContactInfo.tsx:42-44 | the English address is used only on the English page when non-empty; otherwise the stored address |
| ContactInfo.ContactNames | components/ContactInfo.tsx:47-52 | one non-empty heading per shown contact: English name at the same shown index, else the stored name, else 'Contact'/'連絡先' |
| ContactInfo.JapaneseNames | components/ContactInfo.tsx:52 | on the Japanese page a heading is the stored name or '連絡先' |
| ContactInfo.EnglishNameByShownPosition | components/ContactInfo.tsx:48-50 | English names are indexed by shown position, so a hidden contact shifts them (a concrete roster) |
| ContactInfo.GridColsClass | components/ContactInfo.tsx:62-67 | 1..4 columns give `md:grid-cols-1`..`4`; 0 or more than 4 give `md:grid-cols-5` |
| ContactInfo.TotalCols | components/ContactInfo.tsx:61 | one column per shown contact plus at most one for the home card; zero exactly when neither is shown |
| ContactInfo.RendersNothingIffNoColumns | components/ContactInfo.tsx:61-72 | nothing is rendered exactly when the column count is 0 |
| ContactInfo.RendersNothingIffNoReachable | components/ContactInfo.tsx:6-72 | nothing is rendered exactly when no address resolves, no home phone is stored and no considered contact is reachable |
| ContactInfo.Render | components/ContactInfo.tsx:39-122 | null exactly when nothing is to show; otherwise one card per shown contact, the home card when set, together `totalCols` columns |
| Linkify.SpellsAtWindow | components/LinkifyText.tsx:8 | whether a scheme is spelled at a position depends only on the characters it covers |
| Linkify.SpellsAtVisible | components/LinkifyText.tsx:8 | a spelled scheme and the character after it are non-whitespace |
| Linkify.SchemeAt | components/LinkifyText.tsx:8 | a match names the alternative that matched, which fits in the text |
| Linkify.MatchInSlice | components/LinkifyText.tsx:8 | a match inside a piece of the text is a match in the text |
| Linkify.RunEnd | components/LinkifyText.tsx:8 | the end of `[^\s]+` lies between the start and the end of the text |
| Linkify.RunEndSpec | components/LinkifyText.tsx:8 | the run holds no whitespace, stops at whitespace or the end, and is non-empty from a visible character |
| Linkify.MatchSpans | components/LinkifyText.tsx:8-21 | a match's url is non-empty and is itself a match |
| Linkify.MatchStartsVisible | components/LinkifyText.tsx:8 | no match starts on whitespace |
| Linkify.NextMatch | components/LinkifyText.tsx:14 | `exec` reports a position at or after `lastIndex` |
| Linkify.NextMatchLeftmost | components/LinkifyText.tsx:14 | `exec` finds the leftmost match, and none exactly when there is none |
| Linkify.Scan | components/LinkifyText.tsx:14-47 | the `exec` loop's pieces from a position: none exactly at the end of the line; `Linkify.ScanLossless` and `Linkify.ScanShape` prove them lossless and well formed |
| Linkify.Linkify | components/LinkifyText.tsx:6-55 | `linkify(text)` is never empty and gives `[text]` when no URL occurs; `Linkify.LinkifyLossless` and `Linkify.LinkifyShape` prove the rest |
| Linkify.Href | components/LinkifyText.tsx:21-27 | `https://` is prefixed exactly when the url starts with lower-case `www.` |
| Linkify.ScanStep | components/LinkifyText.tsx:14-41 | one round: the gap before the match (when non-empty), the link, then the rest from the match's end |
| Linkify.ScanAdvance | components/LinkifyText.tsx:14-41 | one loop round in terms of what is already pushed |
| Linkify.ScanTail | components/LinkifyText.tsx:44-47 | with no match left, the rest of the text is pushed if non-empty |
| Linkify.LinkifyParts | components/LinkifyText.tsx:6-55 | the `exec` loop returns exactly `Linkify(text)` |
| Linkify.FlattenConcat | components/LinkifyText.tsx:14-47 | the shown text of joined pieces is the joined shown texts |
| Linkify.ScanLossless | components/LinkifyText.tsx:14-47 | the pieces from `lastIndex` on show exactly the rest of the text |
| Linkify.LosslessRound | components/LinkifyText.tsx:14-41 | one round (gap, link, rest) loses nothing when the rest loses nothing |
| Linkify.LinkifyLossless | components/LinkifyText.tsx:6-55 | the pieces show exactly the input line, in order |
| Linkify.NoUrlUnchanged | components/LinkifyText.tsx:45-52 | a line with no match, the empty line included, is returned as `[line]` |
| Linkify.GapHasNoMatch | components/LinkifyText.tsx:16-18 | a gap before the leftmost match holds no match |
| Linkify.ScanAfterLink | components/LinkifyText.tsx:8-41 | after a link, the next piece is text starting with whitespace |
| Linkify.ShapedConcat | components/LinkifyText.tsx:14-47 | joined well-formed piece lists stay well formed when a final link is followed by whitespace |
| Linkify.ScanShape | components/LinkifyText.tsx:14-47 | every text piece is non-empty with no match; every link is a whole match running to whitespace or the end, with its href |
| Linkify.LinkifyShape | components/LinkifyText.tsx:6-55 | for a non-empty line the result is the scan, and it is well formed |
| Linkify.Pieces | components/LinkifyText.tsx:68 | each piece is rendered in order |
| Linkify.RenderLines | components/LinkifyText.tsx:62-71 | no lines render nothing and any line renders something; `Linkify.RenderLinesShows` gives the shown text and breaks |
| Linkify.LinkifyText | components/LinkifyText.tsx:58-74 | nothing is rendered exactly for the empty text |
| Linkify.PlainConcat | components/LinkifyText.tsx:66-71 | shown text and break count add up over concatenation |
| Linkify.PlainPieces | components/LinkifyText.tsx:68 | a line's pieces show the line, with no break |
| Linkify.RenderLinesShows | components/LinkifyText.tsx:66-71 | rendered lines show the lines joined by newlines, with k-1 breaks for k lines |
| Linkify.LinkifyTextShowsText | components/LinkifyText.tsx:58-74 | a non-empty text is shown exactly, with one break per newline |
| Middleware.SupabaseCookies | middleware.ts:48-50 | the filter keeps exactly the cookies named with 'supabase' or 'sb-' |
| Middleware.FindAuthToken | middleware.ts:53 | `find` returns a cookie named with 'auth-token', and none exactly when there is none |
| Middleware.AuthTokenCookieStep | middleware.ts:48-53 | filtering then finding, one cookie at a time: a candidate at the head is picked, anything else is skipped |
| Middleware.AuthTokenIsFirstCandidate | middleware.ts:48-53 | the auth-token cookie is the first cookie that is both a Supabase cookie and named with 'auth-token' |
| Middleware.ToLogin | middleware.ts:24-26 | a redirect goes to the login path |
| Middleware.Gated | middleware.ts:8-13 | a path is checked exactly when it has the admin prefix and is not the login page |
| Middleware.Decide | middleware.ts:4-131 | only gated paths are redirected, always to the request URL with the login path |
| Middleware.LoginPagePasses | middleware.ts:8-10 | the login page always passes |
| Middleware.OutsideAdminPasses | middleware.ts:13 | paths outside the admin prefix pass |
| Middleware.SiblingPathIsGated | middleware.ts:13 | the prefix test gates `/greeting/administrator` |
| Middleware.MissingEnvRedirects | middleware.ts:22-27 | a missing or empty environment variable redirects |
| Middleware.ExceptionRedirects | middleware.ts:122-127 | a thrown auth call redirects |
| Middleware.AccessIff | middleware.ts:96-112 | a gated request passes exactly when the token cookie is set, or a user or session came back with no error |
| Middleware.TokenAloneGrants | middleware.ts:96-117 | a non-empty auth-token cookie passes even when both auth calls report errors |
| Middleware.Route | middleware.ts:133-137 | only paths the matcher covers can be redirected, never the login page, always to the login path |
| Middleware.MatcherWithinGate | middleware.ts:133-137 | every covered path but the login page is gated; `/greeting/administrator` is not covered |
| Signup.Utf16Length | app/greeting/signup/page.tsx:37 | `length` counts between one and two units per character |
| Signup.AstralCharactersCountTwice | app/greeting/signup/page.tsx:37 | three emoji pass the six-unit length check |
| Signup.Validate | app/greeting/signup/page.tsx:25-41 | the checks pass exactly when all fields are filled, the passwords agree and the password has at least 6 units |
| Signup.SignupErrorMessage | app/greeting/signup/page.tsx:49-58 | exact 'User already registered' first, then 'Password', then 'Email', else the generic message |
| Signup.HandleSignup | app/greeting/signup/page.tsx:18-77 | `signUp` is called exactly when the checks pass; success exactly when it answers a user without error; a failed check shows its own message, an answered error its mapped message, a throw the thrown message or the fallback; a shown error is non-empty and ends loading |
| Signup.EmptyFieldFirst | app/greeting/signup/page.tsx:25-29 | an empty field is reported before anything else |
| Signup.MismatchBeforeLength | app/greeting/signup/page.tsx:31-35 | a mismatch is reported before the length check |
| Signup.ShortPasswordRejected | app/greeting/signup/page.tsx:37-41 | a short password gets the length message and no `signUp` call |
| Signup.NoUserNoErrorStaysBusy | app/greeting/signup/page.tsx:49-71 | an answer with neither error nor user leaves the form busy with no message |
| Login.LoginErrorMessage | app/greeting/admin/login/page.tsx:24-34 | the mapped message is one of the four fixed texts |
| Login.ExactCredentialsMessageContainsInvalid | app/greeting/admin/login/page.tsx:28 | the exact credentials message already contains 'Invalid' |
| Login.LoginErrorPriority | app/greeting/admin/login/page.tsx:26-34 | 'Invalid' wins, then 'Email not confirmed', then 'Too many requests', else generic, each as an if-and-only-if |
| Login.Caught | app/greeting/admin/login/page.tsx:66-71 | the catch block shows a non-empty message and ends loading |
| Login.HandleLogin | app/greeting/admin/login/page.tsx:13-72 | a redirect to `/greeting/admin` happens exactly when sign-in and the re-read both have a session; a sign-in error shows its mapped message and a throw (of sign-in or re-read) the caught message; every other failure shows a non-empty error |
| Login.RefreshIgnored | app/greeting/admin/login/page.tsx:48-53 | a failed refresh changes nothing |
| Login.MissingSessionMessages | app/greeting/admin/login/page.tsx:55-61 | each missing session gets its own message |
| AdminPage.IsAdmin | app/greeting/admin/page.tsx:47-48 | an administrator is exactly the allowlisted email; no email is never one |
| AdminPage.NewYearDecision | app/greeting/admin/page.tsx:207-216 | an empty or dismissed prompt does nothing; creation only for a parsed year in 2000..2100; otherwise rejected |
| AdminPage.TypedYearAccepted | app/greeting/admin/page.tsx:209-215 | every in-range year typed in decimal is accepted as itself |
| AdminPage.OwnedBy | app/greeting/admin/page.tsx:70-72 | the owner filter keeps exactly the user's pages |
| AdminPage.VisibleYears | app/greeting/admin/page.tsx:64-74 | the years query: latest year first, as many rows as an administrator (all) or the user (own) may see; which rows they are is proved in `AdminPage.VisibleYearsPermitted` |
| AdminPage.VisibleYearsPermitted | app/greeting/admin/page.tsx:64-74 | the listed pages are the permitted rows, as a multiset: admins list every page, others exactly their own |
| AdminPage.VisibleYearsLatestFirst | app/greeting/admin/page.tsx:64-82 | latest year first, so the default selection carries the latest year |
| AdminPage.OwnPageListed | app/greeting/admin/page.tsx:64-72 | a user's own page is always listed |
| AdminPage.ListedPagesOpen | app/greeting/admin/page.tsx:64-106 | no listed page is refused when opened |
| AdminPage.YearById | app/greeting/admin/page.tsx:97-101 | `.single()` gives a row exactly when one row of the table has that id, and then that row |
| AdminPage.FilterId | app/greeting/admin/page.tsx:100 | `.eq('id', id)` keeps exactly the rows with that id |
| AdminPage.YearByIdIsUniqueRow | app/greeting/admin/page.tsx:97-101 | when one row alone has the id, `.single()` returns that row |
| AdminPage.FilterIdSingle | app/greeting/admin/page.tsx:97-101 | the filter keeps exactly one row iff exactly one row has the id |
| AdminPage.FilterIdHeadMatches | app/greeting/admin/page.tsx:97-101 | with a matching first row, one match iff that row is the only one |
| AdminPage.FilterIdHeadDiffers | app/greeting/admin/page.tsx:97-101 | with a non-matching first row, uniqueness is decided by the rest |
| AdminPage.UniqueInTail | app/greeting/admin/page.tsx:97-101 | a unique row behind a non-matching first row is unique in the rest |
| AdminPage.UniqueFromTail | app/greeting/admin/page.tsx:97-101 | a unique row of the rest stays unique behind a non-matching first row |
| AdminPage.AdminPage.constructor | app/greeting/admin/page.tsx:12-17 | the page starts empty and loading |
| AdminPage.AdminPage.LoadCurrentUser | app/greeting/admin/page.tsx:37-53 | a reported user becomes current with its admin flag; errors change nothing |
| AdminPage.AdminPage.LoadYears | app/greeting/admin/page.tsx:55-93 | no user clears only the list; a failed query changes nothing; otherwise the visible pages, keeping a selection or selecting the first; an empty list clears the selection; loading always ends |
| AdminPage.AdminPage.LoadYearData | app/greeting/admin/page.tsx:95-129 | a page becomes selected only when read, opened by an admin or its owner, with its cards in display order; a refused page is not installed and the reload's whole outcome follows (the list, the selected id kept or defaulted to the first page or cleared with the page, or everything kept when the reload fails); otherwise the list, the selected id and loading are untouched, and the selection too when the page is missing or its cards fail |
| AdminPage.AdminPage.CreateNewYear | app/greeting/admin/page.tsx:249-278 | without a user or on refusal nothing changes; otherwise the new owned row is stored and selected by id, and listed when the reload succeeds (a failing reload keeps the old list); the loaded page is kept |

## Left out

- Hosted services: the database, auth, storage and translation are not
  modelled. Their answers are inputs: query rows, refused writes, thrown
  exceptions, auth flags and translation replies. Row-level security is not
  modelled.
- Concurrency: the per-row reorder writes are modelled sequentially. Their
  atomicity and other observers are not captured.
- The database's order among rows with equal sort keys: `Sorting.SortBy`
  keeps storage order for ties. The database may return another order.
- React effects and timers:
  - the chaining of `loadCurrentUser` → `loadYears` → `loadYearData`;
  - the re-run of `loadYears` when the admin flag changes;
  - the 500 ms wait before the session re-read;
  - the three-second redirect after sign-up.

  Each handler is modelled on its own.
- Rendering: markup, colours, `alert`/`confirm` dialogs and console output.
  The `setAll` cookie callback in the gate, which only copies cookies into
  the response, is not modelled either.
- Decimal.ParseInt: returns an unbounded integer, whereas `parseInt` returns a
  floating-point number, so digit runs above 2^53 lose precision in the source
  and not in the model; the order box's range test is decided the same way.
- Strings are sequences of Unicode scalar values, so lone
  surrogates are not representable. UTF-16 length is modelled where it
  decides something, the password check.
- The regular expression is hand-coded for this one pattern. Case-insensitive
  matching folds ASCII letters only, as the non-unicode `i` flag does for
  this pattern.
- The route matcher `/greeting/admin/:path*` is approximated as the admin
  root plus everything below it. Trailing-slash and percent-encoding
  normalisation are not modelled.
- `contact_count` is a natural number. A negative count, which `slice` would
  count from the end, is not modelled.
- Card deletion (`handleDelete`), logout, the `handleYearUpdate` and
  `handleCardUpdate` refresh callbacks, and the year editor, preview panel
  and public pages are form plumbing or rendering, and are not modelled.
- Without a current user, `loadYears` clears the list but keeps the selected
  page id and page. The model follows the code (`AdminPage.AdminPage.LoadYears`).
