/** The file-backed link queue of `src/fileManager.py`.

    The backing JSON file holds one dict with three lists: `connections`
    (links still to visit), `scraped_texts` (links already taken off
    `connections`) and `persons` (the stored contact records). Every public
    operation loads the file, fills in missing keys, works on the document and
    writes it back; here an operation is a pure function from the document
    before the call to the document after it. */
module FileManager {
  import opened Wrappers
  import opened PyValues
  import Seqs

  const ConnectionsKey: string := "connections"
  const ScrapedTextsKey: string := "scraped_texts"
  const PersonsKey: string := "persons"

  /** The keys the defaulting wrapper guarantees, in the order it checks them. */
  const DocKeys: seq<string> := [ConnectionsKey, ScrapedTextsKey, PersonsKey]

  const NotADictMessage: string := "JSON data must be a dictionary."
  const InvalidJsonMessage: string := "Invalid JSON format in the file."
  const PersonNotADictMessage: string := "Person data must be a dictionary."
  const ProfileKey: string := "profile"

  // ---------------------------------------------------------------------------
  // The backing file and the defaulting wrapper
  // ---------------------------------------------------------------------------

  /** What `open` + `json.load` find on disk. */
  datatype StoredFile = Missing | Unparsable | Parsed(content: Json)

  /** The dict written for a missing file: three empty lists. */
  const FreshJson: Json :=
    JObj(map[ConnectionsKey := JArr([]), ScrapedTextsKey := JArr([]), PersonsKey := JArr([])])

  /** `_load_json`: a missing file reads as three empty lists, a file that is
      not valid JSON raises `ValueError`. */
  function LoadJson(f: StoredFile): (r: Result<Json, Error>)
    ensures r.Failure? <==> f.Unparsable?
    ensures r.Failure? ==> r.error == ValueError(InvalidJsonMessage)
    ensures f.Parsed? ==> r == Success(f.content)
    ensures f.Missing? ==> Decode(r.value) == Some(EmptyDoc)
  {
    assert FreshJson == Encode(EmptyDoc);
    DecodeEncode(EmptyDoc);
    match f
    case Missing => Success(FreshJson)
    case Unparsable => Failure(ValueError(InvalidJsonMessage))
    case Parsed(content) => Success(content)
  }

  /** Adds `key` with an empty list unless it is already there. */
  function DefaultKey(fields: map<string, Json>, key: string): map<string, Json> {
    if key in fields then fields else fields[key := JArr([])]
  }

  /** The `validate_json` wrapper: the loaded value must be a dict; each of the
      three keys it lacks is set to `[]`, and nothing else is touched. */
  function WithDefaultKeys(v: Json): (r: Result<Json, Error>)
    ensures r.Success? <==> v.JObj?
    ensures r.Failure? ==> r.error == ValueError(NotADictMessage)
    ensures r.Success? ==> r.value.JObj? && forall k :: k in DocKeys ==> k in r.value.fields
    ensures r.Success? ==> forall k :: k in v.fields ==> k in r.value.fields && r.value.fields[k] == v.fields[k]
    ensures r.Success? ==> forall k :: k in r.value.fields && k !in v.fields ==> k in DocKeys && r.value.fields[k] == JArr([])
  {
    match v
    case JObj(fields) =>
      Success(JObj(DefaultKey(DefaultKey(DefaultKey(fields, ConnectionsKey), ScrapedTextsKey), PersonsKey)))
    case _ => Failure(ValueError(NotADictMessage))
  }

  /** Filling in the keys twice is filling them in once. */
  lemma WithDefaultKeysIdempotent(v: Json)
    requires v.JObj?
    ensures WithDefaultKeys(WithDefaultKeys(v).value) == WithDefaultKeys(v)
  {
    var w := WithDefaultKeys(v).value;
    assert w.fields == WithDefaultKeys(w).value.fields;
  }

  // ---------------------------------------------------------------------------
  // The queue document
  // ---------------------------------------------------------------------------

  /** The three lists of the backing file. Links are the profile URLs that every
      operation stores as plain strings; persons are whatever dicts were added. */
  datatype Doc = Doc(connections: seq<string>, scrapedTexts: seq<string>, persons: seq<Json>)

  const EmptyDoc: Doc := Doc([], [], [])

  /** The JSON dict written back to the file for a document. */
  function Encode(d: Doc): Json {
    JObj(map[ConnectionsKey := JArr(Texts(d.connections)),
             ScrapedTextsKey := JArr(Texts(d.scrapedTexts)),
             PersonsKey := JArr(d.persons)])
  }

  /** Reads the three lists back from a dict that has them with the shapes the
      queue stores (lists of strings, and a list). */
  function Decode(v: Json): Option<Doc> {
    if v.JObj? && ConnectionsKey in v.fields && ScrapedTextsKey in v.fields && PersonsKey in v.fields
       && v.fields[ConnectionsKey].JArr? && v.fields[ScrapedTextsKey].JArr? && v.fields[PersonsKey].JArr?
    then
      match (Strings(v.fields[ConnectionsKey].items), Strings(v.fields[ScrapedTextsKey].items))
      case (Some(c), Some(s)) => Some(Doc(c, s, v.fields[PersonsKey].items))
      case _ => None
    else None
  }

  /** Writing a document and reading it back gives the same document. */
  lemma DecodeEncode(d: Doc)
    ensures Decode(Encode(d)) == Some(d)
  {
    StringsOfTexts(d.connections);
    StringsOfTexts(d.scrapedTexts);
  }

  /** The wrapper's save is a no-op on a file the queue itself wrote. */
  lemma DefaultKeysOfEncoded(d: Doc)
    ensures WithDefaultKeys(Encode(d)) == Success(Encode(d))
  {
    var fields := Encode(d).fields;
    assert DefaultKey(DefaultKey(DefaultKey(fields, ConnectionsKey), ScrapedTextsKey), PersonsKey) == fields;
  }

  /** A missing file and a file holding `{}` both open as the empty queue, and
      an unparsable file raises `ValueError`. */
  lemma OpenOutcomes()
    ensures LoadJson(Missing).Success? && WithDefaultKeys(LoadJson(Missing).value).Success?
    ensures Decode(WithDefaultKeys(LoadJson(Missing).value).value) == Some(EmptyDoc)
    ensures WithDefaultKeys(JObj(map[])).Success?
    ensures Decode(WithDefaultKeys(JObj(map[])).value) == Some(EmptyDoc)
    ensures LoadJson(Unparsable) == Failure(ValueError(InvalidJsonMessage))
  {
    assert FreshJson == Encode(EmptyDoc);
    DefaultKeysOfEncoded(EmptyDoc);
    DecodeEncode(EmptyDoc);
    assert WithDefaultKeys(JObj(map[])).value == Encode(EmptyDoc);
  }

  // ---------------------------------------------------------------------------
  // add_connections
  // ---------------------------------------------------------------------------

  /** The links of `links`, in order and with repeats, that are neither pending
      nor already scraped. `persons` is not consulted. */
  function NewLinks(d: Doc, links: seq<string>): (r: seq<string>)
    ensures Seqs.IsSubsequence(r, links)
    ensures forall l :: multiset(r)[l] == if l in d.connections || l in d.scrapedTexts then 0 else multiset(links)[l]
  {
    Seqs.Filter(links, (l: string) => l !in d.connections && l !in d.scrapedTexts)
  }

  /** `add_connections`: appends the links that are new to both lists. */
  function AddConnections(d: Doc, links: seq<string>): (r: Doc)
    ensures d.connections <= r.connections
    ensures Seqs.IsSubsequence(r.connections[|d.connections|..], links)
    ensures forall l :: multiset(r.connections[|d.connections|..])[l] ==
                        if l in d.connections || l in d.scrapedTexts then 0 else multiset(links)[l]
    ensures r.scrapedTexts == d.scrapedTexts && r.persons == d.persons
  {
    var added := NewLinks(d, links);
    assert (d.connections + added)[|d.connections|..] == added;
    d.(connections := d.connections + added)
  }

  /** A second call with the same links changes nothing. */
  lemma AddConnectionsIdempotent(d: Doc, links: seq<string>)
    ensures AddConnections(AddConnections(d, links), links) == AddConnections(d, links)
  {
    var d1 := AddConnections(d, links);
    assert forall l :: l in links ==> l in d1.connections || l in d1.scrapedTexts by {
      forall l | l in links
        ensures l in d1.connections || l in d1.scrapedTexts
      {
        if l !in d.connections && l !in d.scrapedTexts {
          assert l in d1.connections[|d.connections|..];
        }
      }
    }
    Seqs.FilterNone(links, (l: string) => l !in d1.connections && l !in d1.scrapedTexts);
    assert d1.connections + [] == d1.connections;
  }

  /** Repeats inside one batch are all kept, and a link that already has a
      stored person is still queued. */
  lemma AddConnectionsKeepsBatchRepeats()
    ensures AddConnections(EmptyDoc, ["a", "a", "b"]).connections == ["a", "a", "b"]
    ensures AddConnections(Doc([], [], [JObj(map[ProfileKey := JStr("a")])]), ["a"]).connections == ["a"]
  {
    var d := Doc([], [], [JObj(map[ProfileKey := JStr("a")])]);
    var keep := (l: string) => l !in d.connections && l !in d.scrapedTexts;
    assert ["a"][1..] == [];
    assert Seqs.Filter(["a"], keep) == ["a"];
    var keep0 := (l: string) => l !in EmptyDoc.connections && l !in EmptyDoc.scrapedTexts;
    assert ["a", "a", "b"][1..] == ["a", "b"];
    assert ["a", "b"][1..] == ["b"];
    assert ["b"][1..] == [];
    assert Seqs.Filter(["a", "a", "b"], keep0) == ["a", "a", "b"];
  }

  // ---------------------------------------------------------------------------
  // get_next_connection
  // ---------------------------------------------------------------------------

  /** `get_next_connection`: takes the head of `connections` and appends it to
      `scraped_texts`; `None` and no change when nothing is pending. */
  function GetNextConnection(d: Doc): (r: (Option<string>, Doc))
    ensures d.connections == [] ==> r == (None, d)
    ensures d.connections != [] ==>
              && r.0 == Some(d.connections[0])
              && r.1.connections == d.connections[1..]
              && r.1.scrapedTexts == d.scrapedTexts + [d.connections[0]]
              && r.1.persons == d.persons
  {
    if d.connections == [] then (None, d)
    else
      var next := d.connections[0];
      (Some(next), Doc(d.connections[1..], d.scrapedTexts + [next], d.persons))
  }

  /** `get_next_connection` moves a link between the two lists: the multiset of
      links in `connections` and `scraped_texts` together is unchanged. */
  lemma GetNextConnectionKeepsLinks(d: Doc)
    ensures var d1 := GetNextConnection(d).1;
            multiset(d1.connections + d1.scrapedTexts) == multiset(d.connections + d.scrapedTexts)
  {
    if d.connections != [] {
      assert d.connections == [d.connections[0]] + d.connections[1..];
    }
  }

  /** The links returned by `n` successive calls of `get_next_connection`
      (`None` results skipped), and the document after them. */
  function TakeConnections(d: Doc, n: nat): (r: (seq<string>, Doc))
    ensures r.0 + r.1.connections == d.connections
    ensures r.1.scrapedTexts == d.scrapedTexts + r.0
    ensures r.1.persons == d.persons
    ensures |r.0| <= n
    decreases n
  {
    if n == 0 then ([], d)
    else
      var step := GetNextConnection(d);
      var rest := TakeConnections(step.1, n - 1);
      if step.0.Some? then
        var head := step.0.value;
        Seqs.AppendAssoc([head], rest.0, rest.1.connections);
        assert d.connections == [head] + d.connections[1..];
        Seqs.AppendAssoc(d.scrapedTexts, [head], rest.0);
        ([head] + rest.0, rest.1)
      else (rest.0, rest.1)
  }

  /** First in, first out: `n` calls hand out the first `n` pending links in
      order and move exactly them to the end of `scraped_texts`. */
  lemma {:induction false} TakeConnectionsFifo(d: Doc, n: nat)
    requires n <= |d.connections|
    ensures TakeConnections(d, n).0 == d.connections[..n]
    ensures TakeConnections(d, n).1 == Doc(d.connections[n..], d.scrapedTexts + d.connections[..n], d.persons)
    decreases n
  {
    if n == 0 {
      assert d.scrapedTexts + [] == d.scrapedTexts;
    } else {
      var head := d.connections[0];
      var d1 := Doc(d.connections[1..], d.scrapedTexts + [head], d.persons);
      TakeConnectionsFifo(d1, n - 1);
      var rest := TakeConnections(d1, n - 1);
      assert rest.0 == d.connections[1..n] by {
        assert d1.connections[..n - 1] == d.connections[1..n];
      }
      assert rest.1.connections == d.connections[n..] by {
        assert d1.connections[n - 1..] == d.connections[n..];
      }
      assert rest.1.scrapedTexts == d.scrapedTexts + d.connections[..n] by {
        assert d1.connections[..n - 1] == d.connections[1..n];
        assert d.connections[..n] == [head] + d.connections[1..n];
        assert d.scrapedTexts + [head] + d.connections[1..n] == d.scrapedTexts + ([head] + d.connections[1..n]);
      }
      assert [head] + rest.0 == d.connections[..n];
    }
  }

  /** Once the queue is drained by `get_next_connection`, the next call
      returns `None`: pending `["a", "b"]` yields "a", then "b", then `None`. */
  lemma TakeConnectionsScenario()
    ensures TakeConnections(Doc(["a", "b"], [], []), 3).0 == ["a", "b"]
    ensures TakeConnections(Doc(["a", "b"], [], []), 3).1 == Doc([], ["a", "b"], [])
  {
    var d := Doc(["a", "b"], [], []);
    TakeConnectionsFifo(d, 2);
    assert d.connections[..2] == ["a", "b"] && d.connections[2..] == [];
  }

  // ---------------------------------------------------------------------------
  // add_person
  // ---------------------------------------------------------------------------

  predicate HasProfile(v: Json) {
    v.JObj? && ProfileKey in v.fields
  }

  function Profile(v: Json): Json
    requires HasProfile(v)
  {
    v.fields[ProfileKey]
  }

  /** Some stored person has profile `p`. */
  predicate Known(persons: seq<Json>, p: Json) {
    exists i :: 0 <= i < |persons| && HasProfile(persons[i]) && Profile(persons[i]) == p
  }

  /** Every stored person has a profile and no two share one. */
  predicate WellKeyed(persons: seq<Json>) {
    && (forall i :: 0 <= i < |persons| ==> HasProfile(persons[i]))
    && (forall i, j :: 0 <= i < j < |persons| ==> Profile(persons[i]) != Profile(persons[j]))
  }

  /** The duplicate check of `add_person`: compares the `profile` entry of each
      stored person with that of the new record, in order. The scan stops at the
      first match and raises at the first lookup that fails. */
  function AnyProfileMatches(persons: seq<Json>, personData: Json): (r: Result<bool, Error>)
    ensures persons == [] ==> r == Success(false)
    ensures persons != [] && !persons[0].JObj? ==> r == Failure(TypeError)
    ensures persons != [] && persons[0].JObj? && !HasProfile(persons[0]) ==> r == Failure(KeyError(ProfileKey))
    ensures persons != [] && HasProfile(persons[0]) && personData.JObj? && !HasProfile(personData) ==>
              r == Failure(KeyError(ProfileKey))
    ensures (forall i :: 0 <= i < |persons| ==> HasProfile(persons[i])) && HasProfile(personData) ==>
              r == Success(Known(persons, Profile(personData)))
  {
    if persons == [] then Success(false)
    else
      match Subscript(persons[0], ProfileKey)
      case Failure(e) => Failure(e)
      case Success(p) =>
        match Subscript(personData, ProfileKey)
        case Failure(e) => Failure(e)
        case Success(q) =>
          if p == q then Success(true)
          else
            var rest := AnyProfileMatches(persons[1..], personData);
            assert HasProfile(personData) && HasProfile(persons[0]) ==>
              (Known(persons, q) <==> Known(persons[1..], q)) by {
              if HasProfile(personData) && HasProfile(persons[0]) && Known(persons, q) {
                var i :| 0 <= i < |persons| && HasProfile(persons[i]) && Profile(persons[i]) == q;
                assert i != 0;
                assert persons[1..][i - 1] == persons[i];
              }
              if Known(persons[1..], q) {
                var i :| 0 <= i < |persons[1..]| && HasProfile(persons[1..][i]) && Profile(persons[1..][i]) == q;
                assert persons[i + 1] == persons[1..][i];
              }
            }
            rest
  }

  /** `add_person`: rejects a non-dict, keeps the first record stored for a
      profile and otherwise appends the new record at the end. */
  function AddPerson(d: Doc, personData: Json): (r: Result<Doc, Error>)
    ensures !personData.JObj? ==> r == Failure(ValueError(PersonNotADictMessage))
    ensures r.Success? ==>
              && r.value.connections == d.connections
              && r.value.scrapedTexts == d.scrapedTexts
              && (r.value.persons == d.persons || r.value.persons == d.persons + [personData])
    ensures d.persons == [] && personData.JObj? ==> r == Success(d.(persons := [personData]))
    ensures WellKeyed(d.persons) && HasProfile(personData) ==>
              && r.Success?
              && (Known(d.persons, Profile(personData)) ==> r.value == d)
              && (!Known(d.persons, Profile(personData)) ==> r.value.persons == d.persons + [personData])
              && WellKeyed(r.value.persons)
  {
    if !personData.JObj? then Failure(ValueError(PersonNotADictMessage))
    else
      match AnyProfileMatches(d.persons, personData)
      case Failure(e) => Failure(e)
      case Success(found) =>
        if found then Success(d)
        else
          var persons := d.persons + [personData];
          assert d.persons == [] ==> persons == [personData];
          assert WellKeyed(d.persons) && HasProfile(personData) ==> WellKeyed(persons) by {
            if WellKeyed(d.persons) && HasProfile(personData) {
              forall i, j | 0 <= i < j < |persons|
                ensures Profile(persons[i]) != Profile(persons[j])
              {
                if j == |d.persons| {
                  assert !Known(d.persons, Profile(personData));
                  assert persons[i] == d.persons[i];
                }
              }
            }
          }
          Success(d.(persons := persons))
  }

  /** Number of stored persons whose profile is `p`. */
  function ProfileCount(persons: seq<Json>, p: Json): nat {
    if persons == [] then 0
    else (if HasProfile(persons[0]) && Profile(persons[0]) == p then 1 else 0) + ProfileCount(persons[1..], p)
  }

  /** In a well-keyed list, a known profile is held by exactly one person. */
  lemma {:induction false} ProfileCountWellKeyed(persons: seq<Json>, p: Json)
    requires WellKeyed(persons)
    ensures ProfileCount(persons, p) == if Known(persons, p) then 1 else 0
  {
    if persons != [] {
      assert WellKeyed(persons[1..]) by {
        forall i, j | 0 <= i < j < |persons[1..]|
          ensures Profile(persons[1..][i]) != Profile(persons[1..][j])
        {
          assert persons[1..][i] == persons[i + 1] && persons[1..][j] == persons[j + 1];
        }
      }
      ProfileCountWellKeyed(persons[1..], p);
      if Profile(persons[0]) == p {
        assert !Known(persons[1..], p) by {
          if Known(persons[1..], p) {
            var i :| 0 <= i < |persons[1..]| && HasProfile(persons[1..][i]) && Profile(persons[1..][i]) == p;
            assert false;
          }
        }
        assert Known(persons, p) by {
          assert HasProfile(persons[0]) && Profile(persons[0]) == p;
        }
      } else {
        if Known(persons, p) {
          var i :| 0 <= i < |persons| && HasProfile(persons[i]) && Profile(persons[i]) == p;
          assert persons[1..][i - 1] == persons[i];
        }
        if Known(persons[1..], p) {
          var i :| 0 <= i < |persons[1..]| && HasProfile(persons[1..][i]) && Profile(persons[1..][i]) == p;
          assert persons[i + 1] == persons[1..][i];
        }
      }
    }
  }

  /** Appending a record with a profile makes exactly that profile known in addition. */
  lemma KnownAppend(persons: seq<Json>, x: Json, p: Json)
    requires HasProfile(x)
    ensures Known(persons + [x], p) <==> Known(persons, p) || Profile(x) == p
  {
    var all := persons + [x];
    if Known(all, p) && Profile(x) != p {
      var i :| 0 <= i < |all| && HasProfile(all[i]) && Profile(all[i]) == p;
      assert i < |persons| && all[i] == persons[i];
    }
    if Known(persons, p) {
      var i :| 0 <= i < |persons| && HasProfile(persons[i]) && Profile(persons[i]) == p;
      assert all[i] == persons[i];
    }
    if Profile(x) == p {
      assert all[|persons|] == x;
    }
  }

  /** First write wins: after adding two records with the same profile to a
      queue that had none, exactly one is stored and it is the first. */
  lemma AddPersonFirstWriteWins(d: Doc, first: Json, second: Json)
    requires WellKeyed(d.persons) && HasProfile(first) && HasProfile(second)
    requires Profile(first) == Profile(second) && !Known(d.persons, Profile(first))
    ensures AddPerson(d, first).Success?
    ensures AddPerson(AddPerson(d, first).value, second) == AddPerson(d, first)
    ensures ProfileCount(AddPerson(d, first).value.persons, Profile(first)) == 1
    ensures AddPerson(d, first).value.persons == d.persons + [first]
  {
    var d1 := AddPerson(d, first).value;
    assert Known(d1.persons, Profile(first)) by {
      assert d1.persons[|d.persons|] == first;
    }
    ProfileCountWellKeyed(d1.persons, Profile(first));
  }

  // ---------------------------------------------------------------------------
  // remove_connection
  // ---------------------------------------------------------------------------

  /** `remove_connection`: a pending link loses its first occurrence in
      `connections` and is appended to `scraped_texts`; any other link leaves
      the document as it is. Nothing is ever removed from `scraped_texts`. */
  function RemoveConnection(d: Doc, link: string): (r: Doc)
    ensures link !in d.connections ==> r == d
    ensures link in d.connections ==>
              && |r.connections| == |d.connections| - 1
              && r.connections[..Seqs.FirstIndex(d.connections, link)] == d.connections[..Seqs.FirstIndex(d.connections, link)]
              && r.connections[Seqs.FirstIndex(d.connections, link)..] == d.connections[Seqs.FirstIndex(d.connections, link) + 1..]
              && r.scrapedTexts == d.scrapedTexts + [link]
    ensures d.scrapedTexts <= r.scrapedTexts
    ensures r.persons == d.persons
  {
    if link in d.connections then
      var rest := Seqs.RemoveFirst(d.connections, link);
      var i := Seqs.FirstIndex(d.connections, link);
      assert rest[..i] == d.connections[..i];
      assert rest[i..] == d.connections[i + 1..];
      Doc(rest, d.scrapedTexts + [link], d.persons)
    else d
  }

  /** `remove_connection` moves a link between the two lists: the multiset of
      links in `connections` and `scraped_texts` together is unchanged. */
  lemma RemoveConnectionKeepsLinks(d: Doc, link: string)
    ensures var d1 := RemoveConnection(d, link);
            multiset(d1.connections + d1.scrapedTexts) == multiset(d.connections + d.scrapedTexts)
  {
    if link in d.connections {
      assert multiset(Seqs.RemoveFirst(d.connections, link)) == multiset(d.connections) - multiset{link};
    }
  }

  /** After `get_next_connection` has handed out a link, removing that link is a
      no-op unless another copy of it is still pending. */
  lemma RemoveAfterClaim(d: Doc)
    requires d.connections != [] && d.connections[0] !in d.connections[1..]
    ensures RemoveConnection(GetNextConnection(d).1, d.connections[0]) == GetNextConnection(d).1
  {
  }

  // ---------------------------------------------------------------------------
  // connection_exists
  // ---------------------------------------------------------------------------

  /** Whether some entry's value at `key` equals `v`, scanning in order and
      raising at the first failed lookup. */
  function AnyFieldEquals(entries: seq<Json>, key: string, v: Json): Result<bool, Error> {
    if entries == [] then Success(false)
    else
      match Subscript(entries[0], key)
      case Failure(e) => Failure(e)
      case Success(x) => if x == v then Success(true) else AnyFieldEquals(entries[1..], key, v)
  }

  /** `connection_exists`: indexes `conn["profile"]` on entries that are stored as
      strings, so it answers only while both lists are empty and raises
      `TypeError` otherwise. */
  function ConnectionExists(d: Doc, profile: string): (r: Result<bool, Error>)
    ensures r == Success(false) <==> d.connections == [] && d.scrapedTexts == []
    ensures r != Success(false) ==> r == Failure(TypeError)
  {
    match AnyFieldEquals(Texts(d.connections), ProfileKey, JStr(profile))
    case Failure(e) => Failure(e)
    case Success(true) => Success(true)
    case Success(false) => AnyFieldEquals(Texts(d.scrapedTexts), ProfileKey, JStr(profile))
  }

  // ---------------------------------------------------------------------------
  // The decorated calls, from the file before to the file after
  // ---------------------------------------------------------------------------

  /** The dict a decorated method works on: the loaded value with the missing
      keys filled in, which the wrapper also writes back; or the wrapper's
      exception, raised before the method body runs. */
  function Open(f: StoredFile): (r: Result<map<string, Json>, Error>)
    ensures r.Success? <==> f.Missing? || (f.Parsed? && f.content.JObj?)
    ensures f.Unparsable? ==> r == Failure(ValueError(InvalidJsonMessage))
    ensures f.Parsed? && !f.content.JObj? ==> r == Failure(ValueError(NotADictMessage))
    ensures r.Success? ==> forall k :: k in DocKeys ==> k in r.value
    ensures r.Success? && f.Parsed? ==>
              forall k :: k in f.content.fields ==> k in r.value && r.value[k] == f.content.fields[k]
  {
    match LoadJson(f)
    case Failure(e) => Failure(e)
    case Success(v) =>
      match WithDefaultKeys(v)
      case Failure(e) => Failure(e)
      case Success(w) => Success(w.fields)
  }

  /** Writes a document's three lists into the dict they were read from; every
      other key of the dict keeps its value. */
  function Store(fields: map<string, Json>, d: Doc): (r: map<string, Json>)
    ensures forall k :: k in r <==> k in fields || k in DocKeys
    ensures forall k :: k in fields && k !in DocKeys ==> r[k] == fields[k]
    ensures Decode(JObj(r)) == Some(d)
  {
    StringsOfTexts(d.connections);
    StringsOfTexts(d.scrapedTexts);
    fields[ConnectionsKey := JArr(Texts(d.connections))]
          [ScrapedTextsKey := JArr(Texts(d.scrapedTexts))]
          [PersonsKey := JArr(d.persons)]
  }

  /** Storing the document just read changes nothing, and storing into an
      empty dict is the three-list encoding. */
  lemma StoreDecoded(fields: map<string, Json>, d: Doc)
    ensures Decode(JObj(fields)) == Some(d) ==> Store(fields, d) == fields
    ensures Store(map[], d) == Encode(d).fields
  {
    if Decode(JObj(fields)) == Some(d) {
      assert Texts(d.connections) == fields[ConnectionsKey].items;
      assert Texts(d.scrapedTexts) == fields[ScrapedTextsKey].items;
      assert forall k :: k in Store(fields, d) ==> Store(fields, d)[k] == fields[k];
    }
  }

  /** A decorated call ends with the file it leaves behind and what it returns
      or raises. */
  datatype Call<T> = Call(file: StoredFile, result: Result<T, Error>)

  /** A method under `validate_json`: the wrapper loads, checks and defaults
      the file, then the method reads the defaulted dict back, works on its
      three lists and saves the whole dict. `op` is the method body on the
      document; it returns its result and the document to save, or raises.
      `None` when the lists do not have the shapes the queue stores. */
  function Decorated<T>(f: StoredFile, op: Doc -> Result<(T, Doc), Error>): (r: Option<Call<T>>)
    ensures Open(f).Failure? ==> r == Some(Call(f, Failure(Open(f).error)))
    ensures Open(f).Success? ==> (r.Some? <==> Decode(JObj(Open(f).value)).Some?)
    ensures r.Some? && Open(f).Success? ==> KeepsOtherKeys(Open(f).value, r.value.file)
    ensures r.Some? && Open(f).Success? ==>
              var out := op(Decode(JObj(Open(f).value)).value);
              && (out.Failure? ==> r.value == Call(Parsed(JObj(Open(f).value)), Failure(out.error)))
              && (out.Success? ==> r.value.result == Success(out.value.0)
                                   && Decode(r.value.file.content) == Some(out.value.1))
  {
    match Open(f)
    case Failure(e) => Some(Call(f, Failure(e)))
    case Success(fields) =>
      match Decode(JObj(fields))
      case None => None
      case Some(d) =>
        match op(d)
        case Failure(e) => Some(Call(Parsed(JObj(fields)), Failure(e)))
        case Success(out) => Some(Call(Parsed(JObj(Store(fields, out.1))), Success(out.0)))
  }

  /** The saved file is a dict with the same keys as the dict the method read,
      and each key other than the three lists keeps its value. */
  ghost predicate KeepsOtherKeys(fields: map<string, Json>, file: StoredFile) {
    && file.Parsed? && file.content.JObj?
    && (forall k :: k in file.content.fields <==> k in fields || k in DocKeys)
    && (forall k :: k in fields && k !in DocKeys ==> file.content.fields[k] == fields[k])
  }

  /** The document a decorated method reads: the defaulted dict's three
      lists, when the wrapper lets the call through and they have the shapes
      the queue stores. */
  function Loaded(f: StoredFile): (r: Option<Doc>)
    ensures r.Some? ==> Open(f).Success? && Decode(JObj(Open(f).value)) == r
  {
    if Open(f).Success? then Decode(JObj(Open(f).value)) else None
  }

  /** `add_connections` under the wrapper: the queue read from the file gains
      the filtered batch and is saved; the wrapper's exception otherwise. */
  function AddConnectionsCall(f: StoredFile, links: seq<string>): (r: Option<Call<()>>)
    ensures Open(f).Failure? ==> r == Some(Call(f, Failure(Open(f).error)))
    ensures Loaded(f).Some? ==>
              && r.Some? && r.value.result == Success(())
              && r.value.file.Parsed?
              && Decode(r.value.file.content) == Some(AddConnections(Loaded(f).value, links))
  {
    Decorated(f, (d: Doc) => Success(((), AddConnections(d, links))))
  }

  /** `get_next_connection` under the wrapper: the head of the stored queue,
      moved to the end of `scraped_texts` in the saved file, or `None` for an
      empty queue. */
  function GetNextConnectionCall(f: StoredFile): (r: Option<Call<Option<string>>>)
    ensures Open(f).Failure? ==> r == Some(Call(f, Failure(Open(f).error)))
    ensures Loaded(f).Some? ==>
              var d := Loaded(f).value;
              && r.Some? && r.value.file.Parsed?
              && (d.connections == [] ==>
                    r.value.result == Success(None) && Decode(r.value.file.content) == Some(d))
              && (d.connections != [] ==>
                    && r.value.result == Success(Some(d.connections[0]))
                    && Decode(r.value.file.content) ==
                       Some(Doc(d.connections[1..], d.scrapedTexts + [d.connections[0]], d.persons)))
  {
    Decorated(f, (d: Doc) => Success(GetNextConnection(d)))
  }

  /** `add_person` under the wrapper: a record that is not a dict is rejected
      after the wrapper has saved the defaulted dict; otherwise the stored
      queue gets the record unless its profile is known. */
  function AddPersonCall(f: StoredFile, personData: Json): (r: Option<Call<()>>)
    ensures Open(f).Failure? ==> r == Some(Call(f, Failure(Open(f).error)))
    ensures Loaded(f).Some? && !personData.JObj? ==>
              r == Some(Call(Parsed(JObj(Open(f).value)), Failure(ValueError(PersonNotADictMessage))))
    ensures Loaded(f).Some? && AddPerson(Loaded(f).value, personData).Success? ==>
              && r.Some? && r.value.result == Success(()) && r.value.file.Parsed?
              && Decode(r.value.file.content) == Some(AddPerson(Loaded(f).value, personData).value)
  {
    Decorated(f, (d: Doc) => match AddPerson(d, personData)
                             case Failure(e) => Failure(e)
                             case Success(d1) => Success(((), d1)))
  }

  /** `remove_connection` under the wrapper: the saved queue has the link's
      first occurrence moved to `scraped_texts`, and is the queue read when the
      link is not pending. */
  function RemoveConnectionCall(f: StoredFile, link: string): (r: Option<Call<()>>)
    ensures Open(f).Failure? ==> r == Some(Call(f, Failure(Open(f).error)))
    ensures Loaded(f).Some? ==>
              && r.Some? && r.value.result == Success(()) && r.value.file.Parsed?
              && Decode(r.value.file.content) == Some(RemoveConnection(Loaded(f).value, link))
              && (link !in Loaded(f).value.connections ==> Decode(r.value.file.content) == Loaded(f))
  {
    Decorated(f, (d: Doc) => Success(((), RemoveConnection(d, link))))
  }

  /** `connection_exists` under the wrapper: the defaulted dict is saved, and
      the answer is `False` exactly when both stored lists are empty; any
      stored link makes it raise `TypeError`. */
  function ConnectionExistsCall(f: StoredFile, profile: string): (r: Option<Call<bool>>)
    ensures Open(f).Failure? ==> r == Some(Call(f, Failure(Open(f).error)))
    ensures Loaded(f).Some? ==>
              var d := Loaded(f).value;
              && r.Some? && r.value.file == Parsed(JObj(Open(f).value))
              && (r.value.result == Success(false) <==> d.connections == [] && d.scrapedTexts == [])
              && (r.value.result != Success(false) ==> r.value.result == Failure(TypeError))
  {
    var fields := if Open(f).Success? then Open(f).value else map[];
    StoreDecoded(fields, if Loaded(f).Some? then Loaded(f).value else EmptyDoc);
    Decorated(f, (d: Doc) => match ConnectionExists(d, profile)
                             case Failure(e) => Failure(e)
                             case Success(b) => Success((b, d)))
  }

  /** The wrapper's checks come first: on an unparsable file or a file that
      is not a dict, `add_person` raises the wrapper's `ValueError` even for a
      record that is not a dict, and the file is left as it was. */
  lemma AddPersonWrapperFirst(f: StoredFile, personData: Json)
    requires f.Unparsable? || (f.Parsed? && !f.content.JObj?)
    ensures AddPersonCall(f, personData) == Some(Call(f, Failure(Open(f).error)))
    ensures !personData.JObj? ==> AddPersonCall(f, personData).value.result != Failure(ValueError(PersonNotADictMessage))
  {
  }

  /** A record that is not a dict is rejected after the wrapper has already
      saved the defaulted dict: a missing file is created with the three
      empty lists. */
  lemma AddPersonRejectsAfterSave()
    ensures AddPersonCall(Missing, JNum(1)) == Some(Call(Parsed(FreshJson), Failure(ValueError(PersonNotADictMessage))))
  {
    assert FreshJson == Encode(EmptyDoc);
    DefaultKeysOfEncoded(EmptyDoc);
    DecodeEncode(EmptyDoc);
  }

  /** A key of the file other than the three lists survives a call that
      appends a person. */
  lemma AddPersonKeepsOtherKeys(note: Json, personData: Json)
    requires personData.JObj? && ProfileKey in personData.fields
    ensures var f := Parsed(JObj(map["note" := note]));
            var r := AddPersonCall(f, personData);
            && r.Some? && r.value.result == Success(())
            && r.value.file.Parsed? && r.value.file.content.JObj?
            && r.value.file.content.fields["note"] == note
            && Decode(r.value.file.content) == Some(Doc([], [], [personData]))
  {
    var fields := map["note" := note];
    var loaded := Open(Parsed(JObj(fields))).value;
    assert loaded == Store(fields, EmptyDoc);
    assert Decode(JObj(loaded)) == Some(EmptyDoc);
  }
}
