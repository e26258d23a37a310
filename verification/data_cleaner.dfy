/** The cleaning pass of `data_cleaner.py` over the stored contact records.

    Geocoding and the regular-expression synonym replacement are parameters:
    the first calls a web service, the second is a table of regular
    expressions applied to each title part. */
module DataCleaner {
  import opened Wrappers
  import opened PyValues
  import Seqs
  import Text

  // ---------------------------------------------------------------------------
  // clean_location
  // ---------------------------------------------------------------------------

  const LocationSeparator: string := ", "

  /** The three parts `clean_location` returns; `None` is Python's `None`. */
  datatype Location = Location(city: Option<string>, region: Option<string>, country: Option<string>)

  const NoLocation: Location := Location(None, None, None)

  /** `clean_location`: an empty or missing location has no parts; otherwise
      the pieces of `location.split(", ")` fill city, region and country in
      order, and any further piece is dropped. */
  function CleanLocation(location: Option<string>): (r: Location)
    ensures location.None? || location == Some("") ==> r == NoLocation
    ensures location.Some? && location.value != "" ==>
              && r.city.Some?
              && !Text.Contains(r.city.value, LocationSeparator)
              && (r.city.value == location.value || r.city.value + LocationSeparator <= location.value)
              && (r.region.Some? <==> Text.Contains(location.value, LocationSeparator))
              && (r.country.Some? ==> r.region.Some?)
  {
    match location
    case None => NoLocation
    case Some(s) =>
      if s == "" then NoLocation
      else
        var parts := Text.Split(s, LocationSeparator);
        assert |parts| > 1 ==> s == parts[0] + LocationSeparator + Text.Join(parts[1..], LocationSeparator);
        Location(Some(parts[0]),
                 if |parts| > 1 then Some(parts[1]) else None,
                 if |parts| > 2 then Some(parts[2]) else None)
  }

  /** The parts that are present, in order. */
  function Present(l: Location): seq<string> {
    (if l.city.Some? then [l.city.value] else []) +
    (if l.region.Some? then [l.region.value] else []) +
    (if l.country.Some? then [l.country.value] else [])
  }

  /** A location of at most three pieces is rebuilt by joining its parts. */
  lemma CleanLocationRoundTrip(s: string)
    requires s != "" && |Text.Split(s, LocationSeparator)| <= 3
    ensures Text.Join(Present(CleanLocation(Some(s))), LocationSeparator) == s
  {
    var parts := Text.Split(s, LocationSeparator);
    assert Present(CleanLocation(Some(s))) == parts;
  }

  /** City, region and country are the first three pieces; a fourth piece and
      everything after it are dropped. */
  lemma CleanLocationDropsRest(city: string, region: string, country: string, rest: string)
    requires !Text.Contains(city, LocationSeparator)
    requires !Text.Contains(region, LocationSeparator)
    requires !Text.Contains(country, LocationSeparator)
    ensures var sep := LocationSeparator;
            CleanLocation(Some(city + sep + region + sep + country + sep + rest)) ==
            Location(Some(city), Some(region), Some(country))
  {
    var sep := LocationSeparator;
    SeparatorUnbordered();
    var tail2 := country + sep + rest;
    var tail1 := region + sep + tail2;
    var s := city + sep + region + sep + country + sep + rest;
    assert s == city + sep + tail1;
    Text.SplitCons(country, sep, rest);
    Text.SplitCons(region, sep, tail2);
    Text.SplitCons(city, sep, tail1);
    var parts := Text.Split(s, sep);
    assert parts == [city] + ([region] + ([country] + Text.Split(rest, sep)));
    CleanLocationFirstThree(s);
  }

  /** The separator `", "` has no proper prefix that is also a suffix. */
  lemma SeparatorUnbordered()
    ensures Text.Unbordered(LocationSeparator)
  {
    var sep := LocationSeparator;
    forall k | 0 < k < |sep|
      ensures sep[..k] != sep[|sep| - k..]
    {
      assert sep[..k][0] == ',' && sep[|sep| - k..][0] == ' ';
    }
  }

  /** A location of three pieces or more keeps the first three. */
  lemma CleanLocationFirstThree(s: string)
    requires |Text.Split(s, LocationSeparator)| >= 3
    ensures var parts := Text.Split(s, LocationSeparator);
            CleanLocation(Some(s)) == Location(Some(parts[0]), Some(parts[1]), Some(parts[2]))
  {
    if s == "" {
      Text.SplitWithoutSeparator(s, LocationSeparator);
    }
  }

  /** The stored form of a location: a dict with the three keys. */
  function LocationJson(l: Location): (v: Json)
    ensures v.JObj? && v.fields.Keys == {"city", "region", "country"}
  {
    JObj(map["city" := OptText(l.city), "region" := OptText(l.region), "country" := OptText(l.country)])
  }

  // ---------------------------------------------------------------------------
  // remove_emojis_and_symbols
  // ---------------------------------------------------------------------------

  /** The characters of the class `[\*#@&<>\\/|]`. */
  const Symbols: set<char> := {'*', '#', '@', '&', '<', '>', '\\', '/', '|'}

  /** Removed by the substitution: an astral code point (U+10000 to U+10FFFF)
      or one of the symbols. */
  predicate Removed(c: char) {
    c as int >= 0x1_0000 || c in Symbols
  }

  /** The substitution itself: every removed character is dropped, every other
      character is kept, in order. */
  function StripSymbols(s: string): (r: string)
    ensures Seqs.IsSubsequence(r, s)
    ensures forall c :: multiset(r)[c] == if Removed(c) then 0 else multiset(s)[c]
  {
    Seqs.Filter(s, (c: char) => !Removed(c))
  }

  /** `remove_emojis_and_symbols`: an empty or missing text is returned as it
      is; any other text loses its astral code points and symbols. */
  function RemoveEmojisAndSymbols(text: Option<string>): (r: Option<string>)
    ensures text.None? || text == Some("") ==> r == text
    ensures text.Some? ==> r.Some? && forall c :: c in r.value <==> c in text.value && !Removed(c)
    ensures text.Some? && text.value != "" ==> r == Some(StripSymbols(text.value))
  {
    match text
    case None => None
    case Some(s) => if s == "" then text else Some(StripSymbols(s))
  }

  /** Removing twice is removing once. */
  lemma RemoveEmojisAndSymbolsIdempotent(text: Option<string>)
    ensures RemoveEmojisAndSymbols(RemoveEmojisAndSymbols(text)) == RemoveEmojisAndSymbols(text)
  {
    if text.Some? && text.value != "" {
      Seqs.FilterIdempotent(text.value, (c: char) => !Removed(c));
    }
  }

  // ---------------------------------------------------------------------------
  // clean_title
  // ---------------------------------------------------------------------------

  const PartSeparator: string := "|"

  /** `clean_title`: an empty or missing title gives no parts. Otherwise the
      symbols are removed first, so the split on `|` finds none and the result
      is one part: the whole stripped title after synonym replacement. */
  function CleanTitle(title: Option<string>, replaceSynonyms: string -> string): (r: seq<string>)
    ensures title.None? || title == Some("") ==> r == []
    ensures title.Some? && title.value != "" ==>
              r == [replaceSynonyms(Text.Strip(StripSymbols(title.value)))]
  {
    match title
    case None => []
    case Some(s) =>
      if s == "" then []
      else
        var t := RemoveEmojisAndSymbols(title).value;
        assert !Text.Contains(t, PartSeparator) by {
          Text.ContainsChar(t, '|');
        }
        Text.SplitWithoutSeparator(t, PartSeparator);
        var parts := Seqs.Map(Text.Split(t, PartSeparator), Text.Strip);
        Seqs.Map(parts, replaceSynonyms)
  }

  // ---------------------------------------------------------------------------
  // extract_keywords
  // ---------------------------------------------------------------------------

  /** `extract_keywords`: the distinct matches of `\b[A-Za-z0-9]+\b`, which are
      the word runs made only of ASCII letters and digits. */
  function ExtractKeywords(title: Option<string>): (r: seq<string>)
    ensures title.None? || title == Some("") ==> r == []
    ensures Seqs.NoDuplicates(r)
    ensures forall k :: 0 <= k < |r| ==>
              && r[k] != [] && Text.AllAsciiAlnum(r[k])
              && title.Some? && Text.IsSubstring(r[k], title.value)
    ensures forall w :: w in r <==> title.Some? && w in Text.WordRuns(title.value) && Text.AllAsciiAlnum(w)
  {
    match title
    case None => []
    case Some(s) =>
      if s == "" then []
      else
        KeywordsOfRuns(s);
        Seqs.Dedupe(Seqs.Filter(Text.WordRuns(s), Text.AllAsciiAlnum))
  }

  lemma KeywordsOfRuns(s: string)
    ensures var r := Seqs.Dedupe(Seqs.Filter(Text.WordRuns(s), Text.AllAsciiAlnum));
            && Seqs.NoDuplicates(r)
            && (forall k :: 0 <= k < |r| ==> r[k] != [] && Text.AllAsciiAlnum(r[k]) && Text.IsSubstring(r[k], s))
            && (forall w :: w in r <==> w in Text.WordRuns(s) && Text.AllAsciiAlnum(w))
  {
    var runs := Text.WordRuns(s);
    var matches := Seqs.Filter(runs, Text.AllAsciiAlnum);
    var r := Seqs.Dedupe(matches);
    forall k | 0 <= k < |r|
      ensures r[k] != [] && Text.AllAsciiAlnum(r[k]) && Text.IsSubstring(r[k], s)
    {
      assert r[k] in matches;
      var j :| 0 <= j < |runs| && runs[j] == r[k];
    }
  }

  // ---------------------------------------------------------------------------
  // classify_title
  // ---------------------------------------------------------------------------

  /** The category table: category names with their keywords, in the order the
      dict literal lists them. */
  type Table = seq<(string, seq<string>)>

  const OtherCategory: string := "Other"

  /** Some keyword, lower-cased, occurs in the lower-cased title. */
  predicate Matches(keywords: seq<string>, title: string) {
    exists j :: 0 <= j < |keywords| && Text.Contains(Text.Lower(title), Text.Lower(keywords[j]))
  }

  /** The first entry at or after `from` whose keywords match. */
  function FirstMatchFrom(table: Table, title: string, from: nat): (r: Option<nat>)
    requires from <= |table|
    ensures r.Some? ==> from <= r.value < |table| && Matches(table[r.value].1, title)
    ensures r.Some? ==> forall j :: from <= j < r.value ==> !Matches(table[j].1, title)
    ensures r.None? ==> forall j :: from <= j < |table| ==> !Matches(table[j].1, title)
    decreases |table| - from
  {
    if from == |table| then None
    else if Matches(table[from].1, title) then Some(from)
    else FirstMatchFrom(table, title, from + 1)
  }

  /** `classify_title`: the first category, in table order, with a keyword in
      the title, ignoring case; `"Other"` for an empty or missing title or when
      nothing matches. */
  function ClassifyTitle(table: Table, title: Option<string>): (r: string)
    ensures title.None? || title == Some("") ==> r == OtherCategory
    ensures title.Some? && title.value != "" ==>
              forall i :: (0 <= i < |table| && Matches(table[i].1, title.value) &&
                           (forall j :: 0 <= j < i ==> !Matches(table[j].1, title.value))) ==> r == table[i].0
    ensures title.Some? && (forall i :: 0 <= i < |table| ==> !Matches(table[i].1, title.value)) ==> r == OtherCategory
    ensures r == OtherCategory || exists i :: 0 <= i < |table| && table[i].0 == r
  {
    match title
    case None => OtherCategory
    case Some(s) =>
      if s == "" then OtherCategory
      else
        match FirstMatchFrom(table, s, 0)
        case None => OtherCategory
        case Some(i) => table[i].0
  }

  /** The scan only sees the title through `Matches`. */
  lemma {:induction false} FirstMatchAgrees(table: Table, a: string, b: string, from: nat)
    requires from <= |table|
    requires forall i :: 0 <= i < |table| ==> (Matches(table[i].1, a) <==> Matches(table[i].1, b))
    ensures FirstMatchFrom(table, a, from) == FirstMatchFrom(table, b, from)
    decreases |table| - from
  {
    if from < |table| {
      FirstMatchAgrees(table, a, b, from + 1);
    }
  }

  /** Classification ignores case: a title and its lower-cased form fall in
      the same category. */
  lemma ClassifyTitleIgnoresCase(table: Table, title: string)
    ensures ClassifyTitle(table, Some(title)) == ClassifyTitle(table, Some(Text.Lower(title)))
  {
    Text.LowerIdempotent(title);
    FirstMatchAgrees(table, title, Text.Lower(title), 0);
  }

  // ---------------------------------------------------------------------------
  // process_data
  // ---------------------------------------------------------------------------

  const LocationKey: string := "location"
  const TitleKey: string := "title"
  const CleanedLocationKey: string := "cleaned_location"
  const CoordinatesKey: string := "location_coordinates"
  const CleanedTitleKey: string := "cleaned_title"
  const CategoryKey: string := "title_category"
  const KeywordsKey: string := "title_keywords"

  /** The keys `process_data` writes into every record. */
  const AddedKeys: set<string> := {CleanedLocationKey, CoordinatesKey, CleanedTitleKey, CategoryKey, KeywordsKey}

  /** What the cleaning pass is run with: the geocoder (the coordinates dict
      `geocode_location` returns for a location value), the synonym replacement
      for one title part, and the category table. */
  datatype Cleaning = Cleaning(geocode: Json -> Json, replaceSynonyms: string -> string, table: Table)

  /** The text a stored value stands for in a truthiness test followed by
      string operations: a false value reads as no text. */
  function AsText(v: Json): Option<string>
    requires !Truthy(v) || v.JStr?
  {
    if Truthy(v) then Some(v.s) else None
  }

  /** A record the pass can clean: its location and title are strings or false values. */
  predicate Cleanable(person: map<string, Json>) {
    var loc := Get(person, LocationKey);
    var title := Get(person, TitleKey);
    (!Truthy(loc) || loc.JStr?) && (!Truthy(title) || title.JStr?)
  }

  /** One iteration of `process_data`. A location that is neither a string
      nor false has no `split` (`AttributeError`); such a title makes the
      regular-expression substitution raise `TypeError`. */
  function CleanPerson(person: map<string, Json>, env: Cleaning): (r: Result<map<string, Json>, Error>)
    ensures r.Success? <==> Cleanable(person)
    ensures r.Success? ==> forall k :: k in r.value <==> k in person || k in AddedKeys
    ensures r.Success? ==> forall k :: k in person && k !in AddedKeys ==> r.value[k] == person[k]
    ensures r.Failure? && Truthy(Get(person, LocationKey)) && !Get(person, LocationKey).JStr? ==> r.error == AttributeError
    ensures r.Failure? && (!Truthy(Get(person, LocationKey)) || Get(person, LocationKey).JStr?) ==> r.error == TypeError
    ensures r.Success? ==> r.value[CleanedLocationKey] == LocationJson(CleanLocation(AsText(Get(person, LocationKey))))
    ensures r.Success? ==> r.value[CoordinatesKey] == env.geocode(Get(person, LocationKey))
    ensures r.Success? ==> r.value[CleanedTitleKey] == JArr(Texts(CleanTitle(AsText(Get(person, TitleKey)), env.replaceSynonyms)))
    ensures r.Success? ==> r.value[CategoryKey] == JStr(ClassifyTitle(env.table, AsText(Get(person, TitleKey))))
    ensures r.Success? ==> r.value[KeywordsKey] == JArr(Texts(ExtractKeywords(AsText(Get(person, TitleKey)))))
  {
    var loc := Get(person, LocationKey);
    if Truthy(loc) && !loc.JStr? then Failure(AttributeError)
    else
      var title := Get(person, TitleKey);
      if Truthy(title) && !title.JStr? then Failure(TypeError)
      else
        var t := AsText(title);
        Success(WithAdded(person, LocationJson(CleanLocation(AsText(loc))), env.geocode(loc),
                          JArr(Texts(CleanTitle(t, env.replaceSynonyms))),
                          JStr(ClassifyTitle(env.table, t)), JArr(Texts(ExtractKeywords(t)))))
  }

  /** A record with the five added keys set to the given values, in the order
      the pass writes them; its other entries are kept. */
  function WithAdded(person: map<string, Json>, location: Json, coordinates: Json,
                     title: Json, category: Json, keywords: Json): (r: map<string, Json>)
    ensures forall k :: k in r <==> k in person || k in AddedKeys
    ensures forall k :: k in person && k !in AddedKeys ==> r[k] == person[k]
    ensures r[CleanedLocationKey] == location && r[CoordinatesKey] == coordinates
    ensures r[CleanedTitleKey] == title && r[CategoryKey] == category && r[KeywordsKey] == keywords
  {
    person[CleanedLocationKey := location][CoordinatesKey := coordinates]
          [CleanedTitleKey := title][CategoryKey := category][KeywordsKey := keywords]
  }

  /** Record `k` is the first one the pass cannot clean. */
  predicate FailsFirstAt(data: seq<map<string, Json>>, env: Cleaning, k: int) {
    0 <= k < |data| && !Cleanable(data[k]) && forall i :: 0 <= i < k ==> Cleanable(data[i])
  }

  lemma FailsFirstShift(data: seq<map<string, Json>>, env: Cleaning, k: int)
    requires data != [] && Cleanable(data[0]) && FailsFirstAt(data[1..], env, k)
    ensures FailsFirstAt(data, env, k + 1) && data[k + 1] == data[1..][k]
  {
    forall i | 0 <= i < k + 1
      ensures Cleanable(data[i])
    {
      if i > 0 { assert data[i] == data[1..][i - 1]; }
    }
  }

  /** `process_data`: cleans every record in order; the first record that
      cannot be cleaned raises and ends the pass. */
  function ProcessData(data: seq<map<string, Json>>, env: Cleaning): (r: Result<seq<map<string, Json>>, Error>)
    ensures r.Success? <==> forall i :: 0 <= i < |data| ==> Cleanable(data[i])
    ensures r.Success? ==> |r.value| == |data|
    ensures r.Success? ==> forall i :: 0 <= i < |data| ==> CleanPerson(data[i], env) == Success(r.value[i])
    ensures r.Failure? ==> exists k :: FailsFirstAt(data, env, k) && CleanPerson(data[k], env) == Failure(r.error)
  {
    if data == [] then Success([])
    else
      match CleanPerson(data[0], env)
      case Failure(e) => Failure(e)
      case Success(p) =>
        match ProcessData(data[1..], env)
        case Failure(e) =>
          var k :| FailsFirstAt(data[1..], env, k) && CleanPerson(data[1..][k], env) == Failure(e);
          FailsFirstShift(data, env, k);
          Failure(e)
        case Success(rest) =>
          ConsResults(data, (m: map<string, Json>) => CleanPerson(m, env), p, rest);
          Success([p] + rest)
  }

  /** A head result in front of the rest's results are the results of the whole. */
  lemma ConsResults<T, U, E>(data: seq<T>, f: T -> Result<U, E>, x: U, rest: seq<U>)
    requires data != [] && f(data[0]) == Success(x)
    requires |rest| == |data| - 1 && forall i :: 0 <= i < |rest| ==> f(data[1..][i]) == Success(rest[i])
    ensures forall i :: 0 <= i < |data| ==> f(data[i]) == Success(([x] + rest)[i])
  {
    forall i | 0 < i < |data|
      ensures f(data[i]) == Success(([x] + rest)[i])
    {
      Seqs.TailIndex(data, i);
      Seqs.TailIndex([x] + rest, i);
    }
  }

  /** Cleaning a cleaned record again changes nothing: the added keys are
      recomputed from the location and title, which the pass leaves alone. */
  lemma CleanPersonIdempotent(person: map<string, Json>, env: Cleaning)
    requires Cleanable(person)
    ensures CleanPerson(CleanPerson(person, env).value, env) == CleanPerson(person, env)
  {
    var p := CleanPerson(person, env).value;
    var loc := Get(person, LocationKey);
    var t := AsText(Get(person, TitleKey));
    assert Get(p, LocationKey) == loc;
    assert Get(p, TitleKey) == Get(person, TitleKey);
    var v1 := LocationJson(CleanLocation(AsText(loc)));
    var v2 := env.geocode(loc);
    var v3 := JArr(Texts(CleanTitle(t, env.replaceSynonyms)));
    var v4 := JStr(ClassifyTitle(env.table, t));
    var v5 := JArr(Texts(ExtractKeywords(t)));
    assert CleanPerson(p, env).value == WithAdded(p, v1, v2, v3, v4, v5);
    assert WithAdded(p, v1, v2, v3, v4, v5) == p[CleanedLocationKey := v1][CoordinatesKey := v2][CleanedTitleKey := v3][CategoryKey := v4][KeywordsKey := v5];
    UpdateSame(p, CleanedLocationKey, v1);
    UpdateSame(p, CoordinatesKey, v2);
    UpdateSame(p, CleanedTitleKey, v3);
    UpdateSame(p, CategoryKey, v4);
    UpdateSame(p, KeywordsKey, v5);
  }

  /** Writing a key the value it already has changes nothing. */
  lemma UpdateSame(m: map<string, Json>, k: string, v: Json)
    requires k in m && m[k] == v
    ensures m[k := v] == m
  {
  }

  /** Running the pass over its own output gives the same output. */
  lemma {:induction false} ProcessDataIdempotent(data: seq<map<string, Json>>, env: Cleaning)
    requires ProcessData(data, env).Success?
    ensures ProcessData(ProcessData(data, env).value, env) == ProcessData(data, env)
  {
    if data != [] {
      CleanPersonIdempotent(data[0], env);
      ProcessDataIdempotent(data[1..], env);
      var out := ProcessData(data, env).value;
      assert out[1..] == ProcessData(data[1..], env).value;
    }
  }
}
