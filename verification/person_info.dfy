/** The contact record of `src/person.py` and its best-effort field lookups.

    The browser page is abstract: a map from locators to the first element they
    find, and, per class name, the list of contact-info sections carrying that
    class. A lookup that Selenium would fail is a locator missing from the map. */
module PersonInfo {
  import opened Wrappers
  import Text

  /** A found element: its text and its attributes. */
  datatype Element = Element(text: string, attributes: map<string, string>)

  /** How an element is located: by id, by class name, or as the first
      descendant with a tag name inside another located element. */
  datatype Locator = ById(id: string) | ByClass(name: string) | Inside(outer: Locator, tag: string)

  /** One contact-info section: the text of its `h3` if it has one, and the
      text of the first descendant carrying each tag name. */
  datatype Section = Section(heading: Option<string>, children: map<string, string>)

  datatype Page = Page(elements: map<Locator, Element>, sectionsByClass: map<string, seq<Section>>)

  const ContactTypeClass: string := "pv-contact-info__contact-type"
  const NameLocator: Locator := ById("pv-contact-info")
  const ProfileLocator: Locator := Inside(Inside(ByClass("pv-top-card--list"), "li"), "a")
  const WebsiteLocator: Locator := ByClass("pv-contact-info__contact-link")
  const TitleLocator: Locator := ByClass("text-body-medium.break-words")
  const LocationLocator: Locator := ByClass("text-body-small.inline.t-black--light.break-words")
  const PhotoLocator: Locator := ByClass("pv-top-card-profile-picture__container")

  /** The ten string fields of a `Person`. */
  datatype Person = Person(
    profile: string, name: string, title: string, phone: string, email: string,
    address: string, birthday: string, location: string, website: string, photo: string)

  /** `Person()`: every field starts as the empty string. */
  const EmptyPerson: Person := Person("", "", "", "", "", "", "", "", "", "")

  /** The ten fields, in the order `to_dict` writes them. */
  datatype FieldName =
    | ProfileField | NameField | TitleField | PhoneField | EmailField
    | AddressField | BirthdayField | LocationField | WebsiteField | PhotoField

  const FieldOrder: seq<FieldName> :=
    [ProfileField, NameField, TitleField, PhoneField, EmailField,
     AddressField, BirthdayField, LocationField, WebsiteField, PhotoField]

  /** The dict key of a field. */
  function Key(f: FieldName): string {
    match f
    case ProfileField => "profile"
    case NameField => "name"
    case TitleField => "title"
    case PhoneField => "phone"
    case EmailField => "email"
    case AddressField => "address"
    case BirthdayField => "birthday"
    case LocationField => "location"
    case WebsiteField => "website"
    case PhotoField => "photo"
  }

  /** The value of a field. */
  function Field(p: Person, f: FieldName): string {
    match f
    case ProfileField => p.profile
    case NameField => p.name
    case TitleField => p.title
    case PhoneField => p.phone
    case EmailField => p.email
    case AddressField => p.address
    case BirthdayField => p.birthday
    case LocationField => p.location
    case WebsiteField => p.website
    case PhotoField => p.photo
  }

  /** No two fields share a key. */
  lemma KeyInjective()
    ensures forall f, g :: Key(f) == Key(g) ==> f == g
  {
  }

  // ---------------------------------------------------------------------------
  // to_dict
  // ---------------------------------------------------------------------------

  /** `to_dict`: the ten keys and no other, each mapped to its field. */
  function ToDict(p: Person): (m: map<string, string>)
    ensures forall f :: Key(f) in m && m[Key(f)] == Field(p, f)
    ensures forall k :: k in m ==> exists f :: Key(f) == k
  {
    KeyInjective();
    map f | f in FieldOrder :: Key(f) := Field(p, f)
  }

  /** Reads a record back from a dict that has all ten keys. */
  function FromDict(m: map<string, string>): Option<Person> {
    if forall f :: Key(f) in m then
      Some(Person(m[Key(ProfileField)], m[Key(NameField)], m[Key(TitleField)], m[Key(PhoneField)],
                  m[Key(EmailField)], m[Key(AddressField)], m[Key(BirthdayField)],
                  m[Key(LocationField)], m[Key(WebsiteField)], m[Key(PhotoField)]))
    else None
  }

  /** `to_dict` loses nothing: the record can be read back from it. */
  lemma ToDictRoundTrip(p: Person)
    ensures FromDict(ToDict(p)) == Some(p)
  {
  }

  /** Two records with the same dict are the same record. */
  lemma ToDictInjective(p: Person, q: Person)
    requires ToDict(p) == ToDict(q)
    ensures p == q
  {
    ToDictRoundTrip(p);
    ToDictRoundTrip(q);
  }

  /** A fresh record's dict has the ten keys, all mapped to the empty string. */
  lemma EmptyPersonIsBlank()
    ensures forall f :: Key(f) in ToDict(EmptyPerson)
    ensures forall k :: k in ToDict(EmptyPerson) ==> ToDict(EmptyPerson)[k] == ""
  {
  }

  // ---------------------------------------------------------------------------
  // set_profile
  // ---------------------------------------------------------------------------

  function SetProfile(p: Person, profile: string): (r: Person)
    ensures Field(r, ProfileField) == profile
    ensures forall f :: f != ProfileField ==> Field(r, f) == Field(p, f)
  {
    p.(profile := profile)
  }

  /** `set_profile` changes the `profile` entry of the record and no other. */
  lemma SetProfileOnlyProfile(p: Person, profile: string)
    ensures ToDict(SetProfile(p, profile))["profile"] == profile
    ensures forall k :: k in ToDict(p) && k != "profile" ==> ToDict(SetProfile(p, profile))[k] == ToDict(p)[k]
  {
    var q := SetProfile(p, profile);
    assert ToDict(q)[Key(ProfileField)] == Field(q, ProfileField);
    forall k | k in ToDict(p) && k != "profile"
      ensures ToDict(q)[k] == ToDict(p)[k]
    {
      var f :| Key(f) == k;
      assert f != ProfileField && Field(q, f) == Field(p, f);
    }
  }

  // ---------------------------------------------------------------------------
  // Best-effort lookups
  // ---------------------------------------------------------------------------

  /** `_safe_find_element`: the requested attribute, or the element's text with
      surrounding whitespace stripped; `""` when the element is not found. A found
      element lacking the attribute also gives `""`. */
  function SafeFind(page: Page, at: Locator, attribute: Option<string>): (r: string)
    ensures at !in page.elements ==> r == ""
    ensures at in page.elements && attribute.Some? && attribute.value in page.elements[at].attributes ==>
              r == page.elements[at].attributes[attribute.value]
    ensures at in page.elements && attribute.Some? && attribute.value !in page.elements[at].attributes ==> r == ""
    ensures at in page.elements && attribute.None? ==>
              && (r == [] || (!Text.IsSpace(r[0]) && !Text.IsSpace(r[|r| - 1])))
              && exists i :: Text.PaddedAt(page.elements[at].text, r, i)
  {
    if at !in page.elements then ""
    else
      var e := page.elements[at];
      match attribute
      case Some(a) => if a in e.attributes then e.attributes[a] else ""
      case None => Text.Strip(e.text)
  }

  /** The section heading, once stripped, is the wanted one. */
  predicate HeadingIs(s: Section, target: string) {
    s.heading.Some? && Text.Strip(s.heading.value) == target
  }

  /** Sections that the scan passes over: they have a heading, and it is not the wanted one. */
  predicate PassedOver(sections: seq<Section>, target: string) {
    forall j :: 0 <= j < |sections| ==> sections[j].heading.Some? && !HeadingIs(sections[j], target)
  }

  /** The stripped text under `tag` in a section, `""` when it has none. */
  function ValueUnder(s: Section, tag: string): string {
    if tag in s.children then Text.Strip(s.children[tag]) else ""
  }

  /** The loop of `_get_section_value`: the first section whose stripped heading
      is `target` gives the stripped text under `tag`. A section without a heading
      raises inside the `try`, which ends the whole scan with `""`. */
  function SectionValue(sections: seq<Section>, target: string, tag: string): (r: string)
    ensures r == "" || exists k :: FirstMatch(sections, target, k) && r == ValueUnder(sections[k], tag)
  {
    if sections == [] then ""
    else match sections[0].heading
      case None => ""
      case Some(h) =>
        if Text.Strip(h) == target then
          assert FirstMatch(sections, target, 0);
          ValueUnder(sections[0], tag)
        else
          var r := SectionValue(sections[1..], target, tag);
          if r == "" then r
          else
            var k :| FirstMatch(sections[1..], target, k) && r == ValueUnder(sections[1..][k], tag);
            FirstMatchCons(sections, target, k);
            r
  }

  /** Section `k` is the first with the wanted heading, and every section
      before it has some other heading. */
  predicate FirstMatch(sections: seq<Section>, target: string, k: int) {
    0 <= k < |sections| && HeadingIs(sections[k], target) && PassedOver(sections[..k], target)
  }

  /** A first match in the tail, behind a head that is passed over, is a first
      match one place further on. */
  lemma FirstMatchCons(sections: seq<Section>, target: string, k: int)
    requires sections != [] && sections[0].heading.Some? && !HeadingIs(sections[0], target)
    requires FirstMatch(sections[1..], target, k)
    ensures FirstMatch(sections, target, k + 1) && sections[k + 1] == sections[1..][k]
  {
    var before := sections[..k + 1];
    forall j | 0 <= j < |before|
      ensures before[j].heading.Some? && !HeadingIs(before[j], target)
    {
      if j > 0 {
        assert before[j] == sections[1..][..k][j - 1];
      }
    }
  }

  /** The first matching section decides, provided the scan reaches it. */
  lemma {:induction false} SectionValueFirstMatch(sections: seq<Section>, target: string, tag: string, k: nat)
    requires k < |sections| && HeadingIs(sections[k], target) && PassedOver(sections[..k], target)
    ensures SectionValue(sections, target, tag) == ValueUnder(sections[k], tag)
  {
    if k > 0 {
      PassedOverTail(sections, target, tag, k);
      SectionValueFirstMatch(sections[1..], target, tag, k - 1);
    }
  }

  /** A section without a heading before any match aborts the scan with `""`,
      even when a later section would have matched. */
  lemma {:induction false} SectionValueAborts(sections: seq<Section>, target: string, tag: string, k: nat)
    requires k < |sections| && sections[k].heading.None? && PassedOver(sections[..k], target)
    ensures SectionValue(sections, target, tag) == ""
  {
    if k > 0 {
      PassedOverTail(sections, target, tag, k);
      SectionValueAborts(sections[1..], target, tag, k - 1);
    }
  }

  /** Passing over the first `k` sections: the head is skipped, and the scan of
      the tail passes over the next `k - 1`. */
  lemma PassedOverTail(sections: seq<Section>, target: string, tag: string, k: nat)
    requires 0 < k <= |sections| && PassedOver(sections[..k], target)
    ensures SectionValue(sections, target, tag) == SectionValue(sections[1..], target, tag)
    ensures PassedOver(sections[1..][..k - 1], target)
  {
    var passed := sections[..k];
    assert passed[0] == sections[0];
    SkipHead(sections, target, tag);
    var tail := sections[1..][..k - 1];
    forall j | 0 <= j < |tail|
      ensures tail[j].heading.Some? && !HeadingIs(tail[j], target)
    {
      assert tail[j] == passed[j + 1];
    }
  }

  /** A head section with a heading that is not the wanted one is skipped. */
  lemma SkipHead(sections: seq<Section>, target: string, tag: string)
    requires sections != [] && sections[0].heading.Some? && !HeadingIs(sections[0], target)
    ensures SectionValue(sections, target, tag) == SectionValue(sections[1..], target, tag)
  {
  }

  /** When every section is passed over, the result is `""`. */
  lemma {:induction false} SectionValueNoMatch(sections: seq<Section>, target: string, tag: string)
    requires PassedOver(sections, target)
    ensures SectionValue(sections, target, tag) == ""
  {
    if sections != [] {
      SectionValueNoMatch(sections[1..], target, tag);
    }
  }

  /** `_get_section_value`: scans the sections carrying `className`
      (`find_elements` gives none when the class is absent). */
  function GetSectionValue(page: Page, className: string, target: string, tag: string): (r: string)
    ensures className !in page.sectionsByClass ==> r == ""
    ensures r == "" || exists k :: FirstMatch(page.sectionsByClass[className], target, k) &&
                                   r == ValueUnder(page.sectionsByClass[className][k], tag)
  {
    var sections := if className in page.sectionsByClass then page.sectionsByClass[className] else [];
    SectionValue(sections, target, tag)
  }

  /** `gather_profile`: the `href` of the first link in the top card's first
      list item, `""` when any step fails. */
  function GatherProfile(page: Page): (r: string)
    ensures ProfileLocator in page.elements && "href" in page.elements[ProfileLocator].attributes ==>
              r == page.elements[ProfileLocator].attributes["href"]
    ensures ProfileLocator !in page.elements || "href" !in page.elements[ProfileLocator].attributes ==> r == ""
  {
    SafeFind(page, ProfileLocator, Some("href"))
  }

  /** `gather_all_info`: overwrites name, website, phone, email, birthday,
      title, address, location and photo from the page, and `profile` only
      when asked to. */
  function GatherAllInfo(p: Person, page: Page, includeProfile: bool): (r: Person)
    ensures !includeProfile ==> r.profile == p.profile
    ensures includeProfile ==> r.profile == GatherProfile(page)
  {
    Person(
      profile := if includeProfile then GatherProfile(page) else p.profile,
      name := SafeFind(page, NameLocator, None),
      title := SafeFind(page, TitleLocator, None),
      phone := GetSectionValue(page, ContactTypeClass, "Phone", "span"),
      email := GetSectionValue(page, ContactTypeClass, "Email", "a"),
      address := GetSectionValue(page, ContactTypeClass, "Address", "span"),
      birthday := GetSectionValue(page, ContactTypeClass, "Birthday", "span"),
      location := SafeFind(page, LocationLocator, None),
      website := SafeFind(page, WebsiteLocator, None),
      photo := SafeFind(page, PhotoLocator, Some("src")))
  }

  /** Every field except `profile` is overwritten: what the record held before
      does not show in the result, and gathering again from the same page
      changes nothing. */
  lemma GatherAllInfoOverwrites(p: Person, q: Person, page: Page, includeProfile: bool)
    ensures GatherAllInfo(p, page, includeProfile) == GatherAllInfo(q, page, includeProfile).(profile := GatherAllInfo(p, page, includeProfile).profile)
    ensures GatherAllInfo(GatherAllInfo(p, page, includeProfile), page, includeProfile) == GatherAllInfo(p, page, includeProfile)
  {
  }

  /** Best effort: taking the phone section away from a page blanks the phone
      and leaves every other field as gathering from the full page gives it. */
  lemma MissingPhoneOnlyBlanksPhone(page: Page, sections: seq<Section>, phone: Section, p: Person)
    requires page.sectionsByClass == map[ContactTypeClass := sections]
    requires PassedOver(sections, "Phone")
    requires HeadingIs(phone, "Phone")
    ensures var full := page.(sectionsByClass := map[ContactTypeClass := [phone] + sections]);
            && GatherAllInfo(p, full, false).phone == ValueUnder(phone, "span")
            && GatherAllInfo(p, page, false) == GatherAllInfo(p, full, false).(phone := "")
  {
    var full := page.(sectionsByClass := map[ContactTypeClass := [phone] + sections]);
    PhoneSectionOnly(page, sections, phone, full);
    GatherFromSections(p, page, full);
  }

  /** The sections of the two pages agree except on the phone. */
  lemma PhoneSectionOnly(page: Page, sections: seq<Section>, phone: Section, full: Page)
    requires page.sectionsByClass == map[ContactTypeClass := sections]
    requires full.sectionsByClass == map[ContactTypeClass := [phone] + sections]
    requires PassedOver(sections, "Phone")
    requires HeadingIs(phone, "Phone")
    ensures GetSectionValue(page, ContactTypeClass, "Phone", "span") == ""
    ensures GetSectionValue(full, ContactTypeClass, "Phone", "span") == ValueUnder(phone, "span")
    ensures GetSectionValue(full, ContactTypeClass, "Email", "a") == GetSectionValue(page, ContactTypeClass, "Email", "a")
    ensures GetSectionValue(full, ContactTypeClass, "Address", "span") == GetSectionValue(page, ContactTypeClass, "Address", "span")
    ensures GetSectionValue(full, ContactTypeClass, "Birthday", "span") == GetSectionValue(page, ContactTypeClass, "Birthday", "span")
  {
    SectionValueNoMatch(sections, "Phone", "span");
    var all := [phone] + sections;
    assert all[1..] == sections;
    SkipOther(all, "Email", "a");
    SkipOther(all, "Address", "span");
    SkipOther(all, "Birthday", "span");
  }

  /** Two pages with the same elements whose sections agree on all but the
      phone give records that differ at most in the phone. */
  lemma GatherFromSections(p: Person, a: Page, b: Page)
    requires a.elements == b.elements
    requires GetSectionValue(a, ContactTypeClass, "Email", "a") == GetSectionValue(b, ContactTypeClass, "Email", "a")
    requires GetSectionValue(a, ContactTypeClass, "Address", "span") == GetSectionValue(b, ContactTypeClass, "Address", "span")
    requires GetSectionValue(a, ContactTypeClass, "Birthday", "span") == GetSectionValue(b, ContactTypeClass, "Birthday", "span")
    ensures GatherAllInfo(p, a, false) == GatherAllInfo(p, b, false).(phone := GetSectionValue(a, ContactTypeClass, "Phone", "span"))
  {
    SameElements(a, b);
  }

  /** A head section headed "Phone" is skipped by a scan for another heading. */
  lemma SkipOther(sections: seq<Section>, target: string, tag: string)
    requires sections != [] && HeadingIs(sections[0], "Phone") && target != "Phone"
    ensures SectionValue(sections, target, tag) == SectionValue(sections[1..], target, tag)
  {
  }

  /** Lookups of single elements see only the elements of the page. */
  lemma SameElements(a: Page, b: Page)
    requires a.elements == b.elements
    ensures forall at, attribute :: SafeFind(a, at, attribute) == SafeFind(b, at, attribute)
  {
  }
}
