/**
 * The contact roster shown under a greeting page: the stored roster in either
 * of its shapes is reduced to the contacts worth showing, the home address and
 * the contact names are localised, and the grid is sized to the cards shown.
 */
module ContactInfo {
  import opened Wrappers
  import opened Database
  import opened Text

  /** `contact.email || contact.phone` */
  predicate Reachable(c: Contact) {
    c.email != "" || c.phone != ""
  }

  /** `.filter(contact => contact.email || contact.phone)` */
  function KeepReachable(s: seq<Contact>): (r: seq<Contact>)
    ensures |r| <= |s|
    ensures forall i :: 0 <= i < |r| ==> Reachable(r[i])
    ensures forall c :: c in r <==> c in s && Reachable(c)
    decreases |s|
  {
    if s == [] then []
    else (if Reachable(s[0]) then [s[0]] else []) + KeepReachable(s[1..])
  }

  /** Filtering works piece by piece, so it keeps the stored order. */
  lemma {:induction false} KeepReachableConcat(a: seq<Contact>, b: seq<Contact>)
    ensures KeepReachable(a + b) == KeepReachable(a) + KeepReachable(b)
    decreases |a|
  {
    if a == [] {
      assert a + b == b;
    } else {
      assert (a + b)[0] == a[0];
      assert (a + b)[1..] == a[1..] + b;
      KeepReachableConcat(a[1..], b);
    }
  }

  /** `contactInfo.contact_count || contactInfo.contacts.length`: an absent or zero count means the whole list. */
  function ActiveCount(info: ContactInfo): (r: nat)
    requires info.contacts.Some?
    ensures info.contact_count.None? || info.contact_count.value == 0 ==> r == |info.contacts.value|
    ensures info.contact_count.Some? && info.contact_count.value != 0 ==> r == info.contact_count.value
    ensures r == 0 ==> info.contacts.value == []
  {
    if info.contact_count.Some? && info.contact_count.value != 0 then info.contact_count.value
    else |info.contacts.value|
  }

  /** `s.slice(0, count)` */
  function Prefix(s: seq<Contact>, count: nat): (r: seq<Contact>)
    ensures |r| <= count && |r| <= |s| && r == s[..|r|]
    ensures count <= |s| ==> |r| == count
  {
    if count <= |s| then s[..count] else s
  }

  /** The legacy shape: `takahiko` then `itsuki`, each pushed only when present and reachable. */
  function LegacyContacts(info: ContactInfo): (r: seq<Contact>)
    ensures |r| <= 2
  {
    var first := if info.takahiko.Some? && Reachable(info.takahiko.value) then [info.takahiko.value] else [];
    first + (if info.itsuki.Some? && Reachable(info.itsuki.value) then [info.itsuki.value] else [])
  }

  /** `getContacts(contactInfo)` */
  function GetContacts(info: ContactInfo): (r: seq<Contact>)
    ensures forall i :: 0 <= i < |r| ==> Reachable(r[i])
    ensures info.contacts.None? ==> |r| <= 2
    ensures info.contacts.Some? ==> |r| <= ActiveCount(info) && |r| <= |info.contacts.value|
  {
    if info.contacts.Some? then KeepReachable(Prefix(info.contacts.value, ActiveCount(info)))
    else LegacyContacts(info)
  }

  /** The two stored people as a list, in order. */
  function LegacyList(info: ContactInfo): seq<Contact> {
    (if info.takahiko.Some? then [info.takahiko.value] else []) +
    (if info.itsuki.Some? then [info.itsuki.value] else [])
  }

  /** Without a list, the result is the same filter applied to the two legacy people in order. */
  lemma LegacyIsFiltered(info: ContactInfo)
    requires info.contacts.None?
    ensures GetContacts(info) == KeepReachable(LegacyList(info))
  {
    var a := if info.takahiko.Some? then [info.takahiko.value] else [];
    var b := if info.itsuki.Some? then [info.itsuki.value] else [];
    KeepReachableConcat(a, b);
    assert KeepReachable(a) == (if info.takahiko.Some? && Reachable(info.takahiko.value) then [info.takahiko.value] else []);
    assert KeepReachable(b) == (if info.itsuki.Some? && Reachable(info.itsuki.value) then [info.itsuki.value] else []);
  }

  /** The filter keeps nothing exactly when no contact in the list is reachable. */
  lemma NothingKeptIffNoneReachable(s: seq<Contact>)
    ensures KeepReachable(s) == [] <==> forall c :: c in s ==> !Reachable(c)
  {
    var r := KeepReachable(s);
    if r != [] {
      assert r[0] in r;
    }
  }

  /** With a list, a contact is shown exactly when it is reachable and within the first `count` stored ones. */
  lemma ListContactShown(info: ContactInfo, c: Contact)
    requires info.contacts.Some?
    ensures c in GetContacts(info) <==> Reachable(c) && c in Prefix(info.contacts.value, ActiveCount(info))
  {
  }

  /**
   * Raising the count only appends: the contacts shown for count `k` are a
   * prefix of those shown for any larger count, so lowering the count and
   * raising it again shows the same contacts as before (the list itself is
   * never cut).
   */
  lemma RaisingCountAppends(info: ContactInfo, k: nat, k': nat)
    requires info.contacts.Some? && 0 < k <= k'
    ensures var shown := GetContacts(info.(contact_count := Some(k)));
      var shown' := GetContacts(info.(contact_count := Some(k')));
      |shown| <= |shown'| && shown == shown'[..|shown|]
  {
    var s := info.contacts.value;
    var p := Prefix(s, k);
    var p' := Prefix(s, k');
    assert p' == p + p'[|p|..];
    KeepReachableConcat(p, p'[|p|..]);
  }

  /**
   * `homeAddress`: the English address when the English page is shown and
   * that address is non-empty, otherwise the stored home address.
   */
  function HomeAddress(info: ContactInfo, isEnglish: bool): (r: Option<string>)
    ensures !isEnglish ==> r == info.home.address
    ensures isEnglish && info.home_en.Some? && Present(info.home_en.value.address) ==> r == info.home_en.value.address
    ensures r != info.home.address ==> isEnglish && info.home_en.Some? && Present(info.home_en.value.address)
  {
    if isEnglish && info.home_en.Some? && Present(info.home_en.value.address) then info.home_en.value.address
    else info.home.address
  }

  /** The heading used for a contact without any name. */
  function Fallback(isEnglish: bool): string {
    if isEnglish then "Contact" else "連絡先"
  }

  /** `contacts_en?.[i]?.name` as a string, empty when missing. */
  function EnglishNameAt(info: ContactInfo, i: nat): string {
    if info.contacts_en.Some? && i < |info.contacts_en.value| then OrEmpty(info.contacts_en.value[i].name) else ""
  }

  /** The English names are consulted only on the English page with a non-empty `contacts_en`. */
  predicate UsesEnglishNames(info: ContactInfo, isEnglish: bool) {
    isEnglish && info.contacts_en.Some? && |info.contacts_en.value| > 0
  }

  /**
   * `contactNames`: one heading per shown contact. The English name is looked
   * up at the contact's position among the SHOWN contacts (not its stored
   * position), then the stored name, then the fallback.
   */
  function ContactNames(info: ContactInfo, isEnglish: bool): (r: seq<string>)
    ensures |r| == |GetContacts(info)|
    ensures forall i :: 0 <= i < |r| ==> r[i] != ""
    ensures forall i :: 0 <= i < |r| ==>
      r[i] == (if UsesEnglishNames(info, isEnglish) && EnglishNameAt(info, i) != "" then EnglishNameAt(info, i)
               else if Present(GetContacts(info)[i].name) then GetContacts(info)[i].name.value
               else Fallback(isEnglish))
  {
    var cs := GetContacts(info);
    if UsesEnglishNames(info, isEnglish) then
      seq(|cs|, i requires 0 <= i < |cs| =>
        var en := EnglishNameAt(info, i);
        if en != "" then en else if OrEmpty(cs[i].name) != "" then OrEmpty(cs[i].name) else Fallback(isEnglish))
    else
      seq(|cs|, i requires 0 <= i < |cs| => if OrEmpty(cs[i].name) != "" then OrEmpty(cs[i].name) else Fallback(isEnglish))
  }

  /** On the Japanese page no English name is ever shown: each heading is the stored name or '連絡先'. */
  lemma JapaneseNames(info: ContactInfo, i: nat)
    requires i < |GetContacts(info)|
    ensures var c := GetContacts(info)[i];
      ContactNames(info, false)[i] == if Present(c.name) then c.name.value else "連絡先"
  {
  }

  /**
   * Because the English name is looked up by shown position, a stored contact
   * hidden for having no email or phone shifts the English names: here the
   * second stored person is shown under the first person's English name.
   */
  lemma EnglishNameByShownPosition()
    ensures var hidden := Contact(Some("A"), "", "");
      var shown := Contact(Some("B"), "b@example.com", "");
      var info := ContactInfo(Home(None, None), None, None, Some([hidden, shown]), None, None,
        Some([ContactNameEn(Some("A-en")), ContactNameEn(Some("B-en"))]));
      GetContacts(info) == [shown] && ContactNames(info, true) == ["A-en"]
  {
    var hidden := Contact(Some("A"), "", "");
    var shown := Contact(Some("B"), "b@example.com", "");
    assert KeepReachable([hidden, shown]) == KeepReachable([shown]);
  }

  /** The home card is shown when an address resolves or a home phone is stored. */
  predicate ShowsHome(info: ContactInfo, isEnglish: bool) {
    Present(HomeAddress(info, isEnglish)) || Present(info.home.phone)
  }

  /** `totalCols`: one column per shown contact, plus one for the home card. */
  function TotalCols(info: ContactInfo, isEnglish: bool): (r: nat)
    ensures r == 0 <==> GetContacts(info) == [] && !ShowsHome(info, isEnglish)
    ensures |GetContacts(info)| <= r <= |GetContacts(info)| + 1
  {
    |GetContacts(info)| + (if ShowsHome(info, isEnglish) then 1 else 0)
  }

  /** `gridColsClass`: 1 to 4 columns as counted; 0 or more than 4 give five. */
  function GridColsClass(totalCols: nat): (r: string)
    ensures 1 <= totalCols <= 4 ==> r == "md:grid-cols-" + [(('0' as int) + totalCols) as char]
    ensures !(1 <= totalCols <= 4) ==> r == "md:grid-cols-5"
  {
    if totalCols == 1 then "md:grid-cols-1"
    else if totalCols == 2 then "md:grid-cols-2"
    else if totalCols == 3 then "md:grid-cols-3"
    else if totalCols == 4 then "md:grid-cols-4"
    else "md:grid-cols-5"
  }

  /** The component returns `null`: no shown contact, no resolved address and no home phone. */
  predicate RendersNothing(info: ContactInfo, isEnglish: bool) {
    |GetContacts(info)| == 0 && !Present(HomeAddress(info, isEnglish)) && !Present(info.home.phone)
  }

  /** Rendering nothing is the same as having no column to show. */
  lemma RendersNothingIffNoColumns(info: ContactInfo, isEnglish: bool)
    ensures RendersNothing(info, isEnglish) <==> TotalCols(info, isEnglish) == 0
  {
  }

  /**
   * In terms of the stored roster: nothing is rendered exactly when neither the
   * resolved address nor the home phone is set and no considered contact has
   * an email or a phone.
   */
  lemma RendersNothingIffNoReachable(info: ContactInfo, isEnglish: bool)
    ensures RendersNothing(info, isEnglish) <==>
      !Present(HomeAddress(info, isEnglish)) && !Present(info.home.phone) &&
      (if info.contacts.Some? then forall c :: c in Prefix(info.contacts.value, ActiveCount(info)) ==> !Reachable(c)
       else forall c :: c in LegacyList(info) ==> !Reachable(c))
  {
    if info.contacts.Some? {
      NothingKeptIffNoneReachable(Prefix(info.contacts.value, ActiveCount(info)));
    } else {
      LegacyIsFiltered(info);
      NothingKeptIffNoneReachable(LegacyList(info));
    }
  }

  /** One person's card as rendered. */
  datatype ContactCard = ContactCard(heading: string, email: string, phone: string)

  /** What the component renders: the grid class, the home card if any, then one card per shown contact. */
  datatype Roster = Roster(gridColsClass: string, homeAddress: Option<string>, homePhone: Option<string>,
                           showsHome: bool, cards: seq<ContactCard>)

  /** The component `ContactInfo({ contactInfo, isEnglish })`. */
  function Render(info: ContactInfo, isEnglish: bool): (r: Option<Roster>)
    ensures r.None? <==> RendersNothing(info, isEnglish)
    ensures r.Some? ==> |r.value.cards| == |GetContacts(info)| && TotalCols(info, isEnglish) >= 1
    ensures r.Some? ==> |r.value.cards| + (if r.value.showsHome then 1 else 0) == TotalCols(info, isEnglish)
    ensures r.Some? ==> forall i :: 0 <= i < |r.value.cards| ==>
      r.value.cards[i].heading != "" && (r.value.cards[i].email != "" || r.value.cards[i].phone != "")
  {
    if RendersNothing(info, isEnglish) then None
    else
      var cs := GetContacts(info);
      var names := ContactNames(info, isEnglish);
      Some(Roster(GridColsClass(TotalCols(info, isEnglish)), HomeAddress(info, isEnglish), info.home.phone,
        ShowsHome(info, isEnglish),
        seq(|cs|, i requires 0 <= i < |cs| =>
          ContactCard(if names[i] != "" then names[i] else Fallback(isEnglish), cs[i].email, cs[i].phone))))
  }
}
