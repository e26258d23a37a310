/** The scraping loop of `src/linkedIn_conector.py`.

    The browser is a parameter: `browse(url)` is the page that loading `url`
    shows, or `None` when loading it raises (a timeout while waiting for the
    page). Collecting the links from the connections page is not modelled; the
    collected links are an input of `Start`. */
module Connector {
  import opened Wrappers
  import opened PyValues
  import FileManager
  import PersonInfo
  import Seqs

  /** A page loader: the page shown at a URL, or `None` when loading fails. */
  type Browser = string -> Option<PersonInfo.Page>

  const ContactInfoSuffix: string := "overlay/contact-info/"

  // ---------------------------------------------------------------------------
  // _connection_link_contact_info
  // ---------------------------------------------------------------------------

  /** `_connection_link_contact_info`: the link followed directly by the
      overlay path, with nothing inserted between them. */
  function ContactInfoUrl(link: string): (url: string)
    ensures link <= url
    ensures url[|link|..] == ContactInfoSuffix
  {
    link + ContactInfoSuffix
  }

  /** The link a contact-info URL was built from, when it ends with the overlay path. */
  function LinkOf(url: string): (r: Option<string>)
    ensures r.Some? <==> |ContactInfoSuffix| <= |url| && url[|url| - |ContactInfoSuffix|..] == ContactInfoSuffix
    ensures r.Some? ==> r.value <= url && |r.value| == |url| - |ContactInfoSuffix|
  {
    var n := |url| - |ContactInfoSuffix|;
    if 0 <= n && url[n..] == ContactInfoSuffix then Some(url[..n]) else None
  }

  /** The link can be read back from its contact-info URL ... */
  lemma ContactInfoUrlRoundTrip(link: string)
    ensures LinkOf(ContactInfoUrl(link)) == Some(link)
  {
    var url := ContactInfoUrl(link);
    assert url[|url| - |ContactInfoSuffix|..] == ContactInfoSuffix;
    assert url[..|link|] == link;
  }

  /** ... and every URL ending with the overlay path is the contact-info URL of
      the link read back from it. */
  lemma LinkOfRoundTrip(url: string)
    requires LinkOf(url).Some?
    ensures ContactInfoUrl(LinkOf(url).value) == url
  {
    var n := |url| - |ContactInfoSuffix|;
    assert url == url[..n] + url[n..];
  }

  /** Different links never share a contact-info page. */
  lemma ContactInfoUrlInjective(a: string, b: string)
    requires ContactInfoUrl(a) == ContactInfoUrl(b)
    ensures a == b
  {
    ContactInfoUrlRoundTrip(a);
    ContactInfoUrlRoundTrip(b);
  }

  // ---------------------------------------------------------------------------
  // gather_contact_info
  // ---------------------------------------------------------------------------

  /** `gather_contact_info`: loads the contact-info page of `link`, reads every
      field but `profile` from it, and then sets `profile` to `link` itself. */
  function GatherContactInfo(browse: Browser, link: string): (r: Result<PersonInfo.Person, Error>)
    ensures browse(ContactInfoUrl(link)).None? ==> r == Failure(NavigationError(ContactInfoUrl(link)))
    ensures browse(ContactInfoUrl(link)).Some? ==> r.Success? && r.value.profile == link
  {
    var url := ContactInfoUrl(link);
    match browse(url)
    case None => Failure(NavigationError(url))
    case Some(page) =>
      var p := PersonInfo.GatherAllInfo(PersonInfo.EmptyPerson, page, false);
      Success(PersonInfo.SetProfile(p, link))
  }

  /** The profile link shown on the page plays no part: whatever element the
      page holds there, or none, the record is the same. */
  lemma GatherContactInfoIgnoresPageProfile(page: PersonInfo.Page, e: PersonInfo.Element, link: string)
    ensures var other := page.(elements := page.elements[PersonInfo.ProfileLocator := e]);
            GatherContactInfo(_ => Some(page), link) == GatherContactInfo(_ => Some(other), link)
    ensures var other := page.(elements := page.elements - {PersonInfo.ProfileLocator});
            GatherContactInfo(_ => Some(page), link) == GatherContactInfo(_ => Some(other), link)
  {
    var replaced := page.(elements := page.elements[PersonInfo.ProfileLocator := e]);
    var removed := page.(elements := page.elements - {PersonInfo.ProfileLocator});
    assert PersonInfo.GatherAllInfo(PersonInfo.EmptyPerson, page, false)
        == PersonInfo.GatherAllInfo(PersonInfo.EmptyPerson, replaced, false);
    assert PersonInfo.GatherAllInfo(PersonInfo.EmptyPerson, page, false)
        == PersonInfo.GatherAllInfo(PersonInfo.EmptyPerson, removed, false);
  }

  /** `person.to_dict()` as a stored JSON dict of strings. */
  function PersonJson(p: PersonInfo.Person): (v: Json)
    ensures v.JObj? && forall k :: k in v.fields <==> k in PersonInfo.ToDict(p)
    ensures forall k :: k in v.fields ==> v.fields[k] == JStr(PersonInfo.ToDict(p)[k])
    ensures FileManager.HasProfile(v) && FileManager.Profile(v) == JStr(p.profile)
  {
    var m := PersonInfo.ToDict(p);
    assert PersonInfo.Key(PersonInfo.ProfileField) == FileManager.ProfileKey;
    JObj(map k | k in m :: JStr(m[k]))
  }

  // ---------------------------------------------------------------------------
  // gather_all_contact_info and start
  // ---------------------------------------------------------------------------

  /** One turn of `gather_all_contact_info`: gather the record of `link`, store
      it with `add_person`, then move the link with `remove_connection`. */
  function Visit(d: FileManager.Doc, link: string, browse: Browser): (r: Result<FileManager.Doc, Error>)
    ensures browse(ContactInfoUrl(link)).None? ==> r == Failure(NavigationError(ContactInfoUrl(link)))
    ensures r.Success? ==> r.value.connections == FileManager.RemoveConnection(d, link).connections
    ensures r.Success? ==> r.value.scrapedTexts == FileManager.RemoveConnection(d, link).scrapedTexts
    ensures r.Success? ==> d.persons <= r.value.persons && |r.value.persons| <= |d.persons| + 1
    ensures r.Success? ==> multiset(r.value.connections + r.value.scrapedTexts) == multiset(d.connections + d.scrapedTexts)
  {
    match GatherContactInfo(browse, link)
    case Failure(e) => Failure(e)
    case Success(p) =>
      match FileManager.AddPerson(d, PersonJson(p))
      case Failure(e) => Failure(e)
      case Success(d1) =>
        FileManager.RemoveConnectionKeepsLinks(d1, link);
        Success(FileManager.RemoveConnection(d1, link))
  }

  /** A turn on a reachable link over a well-keyed `persons` list succeeds and
      moves the link as `remove_connection` does; `persons` stays well keyed. */
  lemma VisitQueue(d: FileManager.Doc, link: string, browse: Browser)
    requires browse(ContactInfoUrl(link)).Some? && FileManager.WellKeyed(d.persons)
    ensures Visit(d, link, browse).Success?
    ensures var d1 := Visit(d, link, browse).value;
            && d1.connections == FileManager.RemoveConnection(d, link).connections
            && d1.scrapedTexts == FileManager.RemoveConnection(d, link).scrapedTexts
            && FileManager.WellKeyed(d1.persons)
  {
  }

  /** The same turn on the head of `connections` takes it off the front and
      appends it to `scraped_texts`. */
  lemma VisitHead(d: FileManager.Doc, browse: Browser)
    requires d.connections != []
    requires browse(ContactInfoUrl(d.connections[0])).Some? && FileManager.WellKeyed(d.persons)
    ensures Visit(d, d.connections[0], browse).Success?
    ensures var d1 := Visit(d, d.connections[0], browse).value;
            && d1.connections == d.connections[1..]
            && d1.scrapedTexts == d.scrapedTexts + [d.connections[0]]
            && FileManager.WellKeyed(d1.persons)
  {
    VisitQueue(d, d.connections[0], browse);
    assert Seqs.FirstIndex(d.connections, d.connections[0]) == 0;
  }

  /** The same turn makes the link's profile known without touching the records
      stored before; a record is appended only when no stored record has that
      profile yet. */
  lemma VisitPersons(d: FileManager.Doc, link: string, browse: Browser)
    requires browse(ContactInfoUrl(link)).Some? && FileManager.WellKeyed(d.persons)
    ensures Visit(d, link, browse).Success?
    ensures var d1 := Visit(d, link, browse).value;
            && FileManager.WellKeyed(d1.persons)
            && d.persons <= d1.persons
            && (forall p :: FileManager.Known(d1.persons, p) <==> FileManager.Known(d.persons, p) || p == JStr(link))
            && |d1.persons| == |d.persons| + (if FileManager.Known(d.persons, JStr(link)) then 0 else 1)
  {
    var person := GatherContactInfo(browse, link).value;
    var v := PersonJson(person);
    var added := FileManager.AddPerson(d, v).value;
    forall p
      ensures FileManager.Known(added.persons, p) <==> FileManager.Known(d.persons, p) || p == JStr(link)
    {
      if !FileManager.Known(d.persons, JStr(link)) {
        FileManager.KnownAppend(d.persons, v, p);
      } else if p == JStr(link) {
        assert FileManager.Known(added.persons, p);
      }
    }
  }

  /** `gather_all_contact_info`: one turn per link, in order. The first
      exception ends the loop; the turns already done stay written. */
  function Drain(d: FileManager.Doc, links: seq<string>, browse: Browser): (r: (FileManager.Doc, Outcome<Error>))
    ensures links == [] ==> r == (d, Pass)
    ensures r.1.Fail? ==> exists k :: 0 <= k < |links| && Visit(r.0, links[k], browse) == Failure(r.1.error)
    ensures d.scrapedTexts <= r.0.scrapedTexts && d.persons <= r.0.persons
    ensures multiset(r.0.connections + r.0.scrapedTexts) == multiset(d.connections + d.scrapedTexts)
    decreases |links|
  {
    if links == [] then (d, Pass)
    else
      match Visit(d, links[0], browse)
      case Failure(e) => (d, Fail(e))
      case Success(d1) =>
        var r := Drain(d1, links[1..], browse);
        FailedOnTail(links, r, browse);
        r
  }

  /** A turn that failed on a link of the tail failed on a link of the list. */
  lemma FailedOnTail(links: seq<string>, r: (FileManager.Doc, Outcome<Error>), browse: Browser)
    requires links != []
    requires r.1.Fail? ==> exists k :: 0 <= k < |links[1..]| && Visit(r.0, links[1..][k], browse) == Failure(r.1.error)
    ensures r.1.Fail? ==> exists k :: 0 <= k < |links| && Visit(r.0, links[k], browse) == Failure(r.1.error)
  {
    if r.1.Fail? {
      var k :| 0 <= k < |links[1..]| && Visit(r.0, links[1..][k], browse) == Failure(r.1.error);
      assert links[k + 1] == links[1..][k];
    }
  }

  /** `start`: the freshly collected links are queued first, then every pending
      link is drained, leftovers of earlier runs included. */
  function Start(d: FileManager.Doc, collected: seq<string>, browse: Browser): (r: (FileManager.Doc, Outcome<Error>))
    ensures d.scrapedTexts <= r.0.scrapedTexts && d.persons <= r.0.persons
    ensures multiset(r.0.connections + r.0.scrapedTexts) ==
            multiset(d.connections + d.scrapedTexts) + multiset(FileManager.NewLinks(d, collected))
    ensures r.1.Fail? ==> exists l :: l in d.connections + FileManager.NewLinks(d, collected) &&
                                      Visit(r.0, l, browse) == Failure(r.1.error)
  {
    var queued := FileManager.AddConnections(d, collected);
    assert queued.connections == d.connections + FileManager.NewLinks(d, collected);
    Drain(queued, queued.connections, browse)
  }

  /** Every link of `links` has a page that loads. */
  predicate Reachable(browse: Browser, links: seq<string>) {
    forall i :: 0 <= i < |links| ==> browse(ContactInfoUrl(links[i])).Some?
  }

  /** Running the loop over `a + b` is running it over `a` and then, if that
      did not fail, over `b`. */
  lemma {:induction false} DrainAppend(d: FileManager.Doc, a: seq<string>, b: seq<string>, browse: Browser)
    ensures var first := Drain(d, a, browse);
            Drain(d, a + b, browse) == if first.1.Pass? then Drain(first.0, b, browse) else first
    decreases |a|
  {
    if a == [] {
      assert a + b == b;
    } else {
      assert (a + b)[0] == a[0] && (a + b)[1..] == a[1..] + b;
      var v := Visit(d, a[0], browse);
      if v.Success? {
        DrainAppend(v.value, a[1..], b, browse);
      }
    }
  }

  /** An unreachable link stops the loop there: the document is left as the
      earlier links made it, and the navigation error is reported. */
  lemma DrainHaltsAt(d: FileManager.Doc, links: seq<string>, k: nat, browse: Browser)
    requires k < |links| && Drain(d, links[..k], browse).1.Pass?
    requires browse(ContactInfoUrl(links[k])).None?
    ensures Drain(d, links, browse) == (Drain(d, links[..k], browse).0, Fail(NavigationError(ContactInfoUrl(links[k]))))
  {
    Seqs.SplitAt(links, k);
    DrainAppend(d, links[..k], links[k..], browse);
    var mid := Drain(d, links[..k], browse).0;
    assert links[k..][0] == links[k];
    assert Visit(mid, links[k], browse) == Failure(NavigationError(ContactInfoUrl(links[k])));
  }

  /** Draining a snapshot equal to `connections` empties `connections`, even
      when it holds repeats, and appends the snapshot to `scraped_texts` in
      order. */
  lemma {:induction false} DrainSnapshotQueue(d: FileManager.Doc, browse: Browser)
    requires Reachable(browse, d.connections) && FileManager.WellKeyed(d.persons)
    ensures Drain(d, d.connections, browse).1 == Pass
    ensures Drain(d, d.connections, browse).0.connections == []
    ensures Drain(d, d.connections, browse).0.scrapedTexts == d.scrapedTexts + d.connections
    decreases |d.connections|
  {
    if d.connections == [] {
      assert d.scrapedTexts + [] == d.scrapedTexts;
    } else {
      var link := d.connections[0];
      Seqs.ConsAppend(d.scrapedTexts, d.connections);
      VisitHead(d, browse);
      var d1 := Visit(d, link, browse).value;
      assert Reachable(browse, d1.connections) by {
        forall i | 0 <= i < |d1.connections|
          ensures browse(ContactInfoUrl(d1.connections[i])).Some?
        {
          assert d1.connections[i] == d.connections[i + 1];
        }
      }
      DrainSnapshotQueue(d1, browse);
    }
  }

  /** The links of `links` whose profile no record of `persons` has yet. */
  ghost function Unrecorded(persons: seq<Json>, links: seq<string>): set<string> {
    set l | l in links && !FileManager.Known(persons, JStr(l))
  }

  /** Over reachable links and a well-keyed `persons` list, the loop finishes.
      Records stored before stay in place; afterwards every link has a record,
      and no record is added for anything else. `persons` grows by exactly one
      record per distinct link that had none. */
  lemma {:induction false} DrainPersons(d: FileManager.Doc, links: seq<string>, browse: Browser)
    requires Reachable(browse, links) && FileManager.WellKeyed(d.persons)
    ensures Drain(d, links, browse).1 == Pass
    ensures var r := Drain(d, links, browse).0;
            && FileManager.WellKeyed(r.persons)
            && d.persons <= r.persons
            && (forall l :: l in links ==> FileManager.Known(r.persons, JStr(l)))
            && (forall p :: FileManager.Known(r.persons, p) ==> FileManager.Known(d.persons, p) || (p.JStr? && p.s in links))
            && |r.persons| == |d.persons| + |Unrecorded(d.persons, links)|
    decreases |links|
  {
    if links != [] {
      var link := links[0];
      var rest := links[1..];
      assert links == [link] + rest;
      VisitPersons(d, link, browse);
      var d1 := Visit(d, link, browse).value;
      assert Reachable(browse, rest) by {
        forall i | 0 <= i < |rest|
          ensures browse(ContactInfoUrl(rest[i])).Some?
        {
          assert rest[i] == links[i + 1];
        }
      }
      DrainPersons(d1, rest, browse);
      assert Drain(d, links, browse) == Drain(d1, rest, browse);
      UnrecordedStep(d.persons, d1.persons, link, rest);
    }
  }

  /** One turn of the loop takes its link off the set of links still without a record. */
  lemma UnrecordedStep(before: seq<Json>, after: seq<Json>, link: string, rest: seq<string>)
    requires forall p :: FileManager.Known(after, p) <==> FileManager.Known(before, p) || p == JStr(link)
    ensures Unrecorded(after, rest) == Unrecorded(before, [link] + rest) - {link}
    ensures |Unrecorded(after, rest)| ==
            |Unrecorded(before, [link] + rest)| - (if FileManager.Known(before, JStr(link)) then 0 else 1)
  {
    var all := Unrecorded(before, [link] + rest);
    var later := Unrecorded(after, rest);
    assert later == all - {link};
    if !FileManager.Known(before, JStr(link)) {
      assert link in all;
    }
  }

  /** After the loop, each link processed has exactly one record with its profile. */
  lemma DrainOneRecordPerLink(d: FileManager.Doc, links: seq<string>, browse: Browser)
    requires Reachable(browse, links) && FileManager.WellKeyed(d.persons)
    ensures forall l :: l in links ==> FileManager.ProfileCount(Drain(d, links, browse).0.persons, JStr(l)) == 1
  {
    DrainPersons(d, links, browse);
    var r := Drain(d, links, browse).0;
    forall l | l in links
      ensures FileManager.ProfileCount(r.persons, JStr(l)) == 1
    {
      FileManager.ProfileCountWellKeyed(r.persons, JStr(l));
    }
  }

  /** The end state of `start` when every page loads: nothing is left pending,
      `scraped_texts` gains the old pending links followed by the new ones in
      order, records stored before are kept, and every link visited has exactly
      one record. */
  lemma StartEndState(d: FileManager.Doc, collected: seq<string>, browse: Browser)
    requires Reachable(browse, d.connections) && Reachable(browse, collected)
    requires FileManager.WellKeyed(d.persons)
    ensures Start(d, collected, browse).1 == Pass
    ensures var r := Start(d, collected, browse).0;
            && r.connections == []
            && r.scrapedTexts == d.scrapedTexts + d.connections + FileManager.NewLinks(d, collected)
            && d.persons <= r.persons
            && forall l :: l in d.connections + FileManager.NewLinks(d, collected) ==>
                 FileManager.ProfileCount(r.persons, JStr(l)) == 1
  {
    var queued := FileManager.AddConnections(d, collected);
    var added := FileManager.NewLinks(d, collected);
    assert queued.connections == d.connections + added;
    assert Reachable(browse, queued.connections) by {
      forall i | 0 <= i < |queued.connections|
        ensures browse(ContactInfoUrl(queued.connections[i])).Some?
      {
        if i >= |d.connections| {
          assert queued.connections[i] in added;
        }
      }
    }
    DrainSnapshotQueue(queued, browse);
    DrainPersons(queued, queued.connections, browse);
    DrainOneRecordPerLink(queued, queued.connections, browse);
    Seqs.AppendAssoc(d.scrapedTexts, d.connections, added);
  }
}
