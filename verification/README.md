# LinkedIn-Scrapper, modelled in Dafny

This project models the core of the LinkedIn connection scraper:

- the JSON-backed work queue of `src/fileManager.py`: pending `connections`, visited `scraped_texts` and stored `persons`;
- the contact record of `src/person.py` and its best-effort page lookups;
- the scraping loop of `src/linkedIn_conector.py`;
- the cleaning pipeline of `data_cleaner.py`;
- the counting analyses of `data_analyzer.py`;
- the credential checks of `src/ConfigManager.py`.

Everything is a pure function over immutable values:

- The JSON file is a `Json` value. The work queue is a `Doc` with three sequences.
- The browser is a function from URLs to optional pages.
- A page is a map from locators to elements, plus the contact-info sections per class name.
- Python exceptions are `Failure` results that carry the exception (`PyValues.Error`).

| file | module | models |
|---|---|---|
| `wrappers.dfy` | `Wrappers` | `Option`, `Result`, `Outcome` |
| `seqs.dfy` | `Seqs` | filtering, first-occurrence removal, de-duplication |
| `text.dfy` | `Text` | `str.strip`, `str.lower`, substring search, `str.split` / `join`, `\w+` runs |
| `py_values.dfy` | `PyValues` | JSON values, truthiness, `d[key]`, `d.get(key)`, the exceptions |
| `file_manager.dfy` | `FileManager` | `src/fileManager.py` |
| `person_info.dfy` | `PersonInfo` | `src/person.py` |
| `connector.dfy` | `Connector` | `src/linkedIn_conector.py` |
| `data_cleaner.dfy` | `DataCleaner` | `data_cleaner.py` |
| `data_analyzer.dfy` | `DataAnalyzer` | `data_analyzer.py` |
| `config_manager.dfy` | `ConfigManager` | `src/ConfigManager.py` |

Where the code and its description disagree, the model follows the code:

- `add_connections` compares new links only with `connections` and `scraped_texts`, never with `persons`. It also queues every repeat of a link within one batch.
- `remove_connection` appends the removed link to `scraped_texts`. `gather_all_contact_info` calls it after `get_connections` has left the link in `connections`, so the loop moves every link exactly once.
- `connection_exists` indexes `conn["profile"]` on entries that are stored as plain strings. It can only answer `False` on an empty queue; otherwise it raises `TypeError`.
- `clean_title` removes `|` together with the other symbols before splitting on `|`. So it always returns a single part, or none for an empty title.

## Model

| member | source | states |
|---|---|---|
| FileManager.LoadJson | src/fileManager.py:34-40 | Only unparsable content fails, with "Invalid JSON format in the file."; parsed content is returned as it is; a missing file reads as the empty queue |
| FileManager.WithDefaultKeys | src/fileManager.py:10-17 | A document that is not a dict fails with "JSON data must be a dictionary."; a dict gets each missing key among connections, scraped_texts and persons as an empty list, and every entry it had is kept unchanged |
| FileManager.WithDefaultKeysIdempotent | src/fileManager.py:14-16 | Applying the key defaulting to an already defaulted document changes nothing |
| FileManager.DefaultKeysOfEncoded | src/fileManager.py:10-17 | A document in the saved three-list form already has every key, so the decorator leaves it as it is |
| FileManager.DecodeEncode | src/fileManager.py:42-48 | The JSON form written for a queue document reads back as the same document |
| FileManager.OpenOutcomes | src/fileManager.py:34-40 | A missing file loads as the empty queue, `{}` defaults to the empty queue, and unparsable content fails with "Invalid JSON format in the file." |
| FileManager.NewLinks | src/fileManager.py:71-76 | The links kept from a batch are a subsequence of it, and each keeps all its repeats unless connections or scraped_texts already holds it, in which case it is dropped |
| FileManager.AddConnections | src/fileManager.py:70-79 | connections only grows at its end; the appended links are a subsequence of the batch, and each link is appended as often as the batch holds it unless connections or scraped_texts already has it, then never; the other lists are unchanged |
| FileManager.AddConnectionsIdempotent | src/fileManager.py:70-79 | Adding the same batch a second time adds nothing |
| FileManager.AddConnectionsKeepsBatchRepeats | src/fileManager.py:71-78 | Repeats inside one batch are all queued, and a link that persons already records is still queued |
| FileManager.GetNextConnection | src/fileManager.py:88-96 | On an empty queue it returns None and changes nothing; otherwise it returns the head link, drops it from connections and appends it to scraped_texts, leaving persons alone |
| FileManager.GetNextConnectionKeepsLinks | src/fileManager.py:92-93 | The multiset of links across connections and scraped_texts is preserved |
| FileManager.TakeConnections | src/fileManager.py:88-96 | Over any number of calls, the links handed out followed by those still pending are the pending links before; scraped_texts gains exactly the links handed out, in order; persons is untouched |
| FileManager.TakeConnectionsFifo | src/fileManager.py:88-96 | n successive calls hand out the first n pending links in queue order and move exactly those to the end of scraped_texts |
| FileManager.TakeConnectionsScenario | src/fileManager.py:88-96 | Three calls on the queue a, b return a, then b, then None, leaving connections empty and scraped_texts a, b |
| FileManager.AnyProfileMatches | src/fileManager.py:108 | Raises TypeError at a stored entry that is not a dict and KeyError at one without "profile" or for a new record without it; on well-formed inputs it answers whether some stored record has the new record's profile |
| FileManager.AddPerson | src/fileManager.py:104-110 | A non-dict record fails with "Person data must be a dictionary."; only persons can change, and only by appending the record; on a list with distinct profiles the record is appended exactly when its profile is not yet stored, and the profiles stay distinct |
| FileManager.ProfileCountWellKeyed | src/fileManager.py:108-109 | In a list with distinct profiles, a profile is stored exactly once when it is known and never otherwise |
| FileManager.KnownAppend | src/fileManager.py:108-109 | After appending a record, the known profiles are the earlier ones plus the record's profile |
| FileManager.AddPersonFirstWriteWins | src/fileManager.py:104-110 | A second record with the same profile is ignored: the first one stays, and the profile is stored exactly once |
| FileManager.RemoveConnection | src/fileManager.py:136-144 | A link that is not pending changes nothing; a pending link loses its first occurrence only, the other links keep their order, and the link is appended to scraped_texts; persons is unchanged |
| FileManager.RemoveConnectionKeepsLinks | src/fileManager.py:140-142 | The multiset of links across connections and scraped_texts is preserved |
| FileManager.RemoveAfterClaim | src/fileManager.py:140-142 | Removing a link that get_next_connection already handed out, and that had no second copy pending, changes nothing |
| FileManager.ConnectionExists | src/fileManager.py:57-62 | It answers False exactly when both lists are empty; in every other case the string entries make it raise TypeError |
| FileManager.Open | src/fileManager.py:10-17 | A decorated method works on a dict exactly when the file is missing or holds a dict; an unparsable file and a non-dict raise their ValueError first; the dict has the three keys and keeps every entry the file had |
| FileManager.Store | src/fileManager.py:78-79 | Saving a document writes its three lists into the dict that was read, keeps every other key and its value, and reads back as the same document |
| FileManager.StoreDecoded | src/fileManager.py:89-94 | Saving the document just read gives the dict back unchanged, and saving into an empty dict is the three-list form |
| FileManager.Decorated | src/fileManager.py:4-19 | A wrapper error leaves the file as it was and is raised before the method runs; otherwise the saved file keeps the keys and values of the dict that was read apart from the three lists, a method that raises leaves the defaulted dict saved, and a method that returns saves its new document |
| FileManager.AddConnectionsCall | src/fileManager.py:4-19 | The wrapper's exception comes first and leaves the file as it was; otherwise the saved queue is the queue read from the file with the filtered batch added (lines 70-79) |
| FileManager.GetNextConnectionCall | src/fileManager.py:4-19 | The wrapper's exception comes first; otherwise an empty stored queue gives None and saves it unchanged, and a non-empty one returns its head and saves it moved to the end of `scraped_texts` (lines 88-96) |
| FileManager.AddPersonCall | src/fileManager.py:4-19 | The wrapper's exception comes first; a record that is not a dict raises ValueError with the defaulted dict already saved (lines 104-105); otherwise the saved queue is the stored one after `add_person` |
| FileManager.RemoveConnectionCall | src/fileManager.py:4-19 | The wrapper's exception comes first; otherwise the saved queue has the link's first occurrence moved to `scraped_texts`, and is the stored queue when the link is not pending (lines 136-144) |
| FileManager.ConnectionExistsCall | src/fileManager.py:4-19 | The wrapper's exception comes first; otherwise the defaulted dict is saved and the answer is False exactly when both stored lists are empty, any stored link raising TypeError (lines 57-62) |
| FileManager.AddPersonWrapperFirst | src/fileManager.py:11-18 | On an unparsable or non-dict file, add_person raises the wrapper's ValueError, never its own, and the file is unchanged |
| FileManager.AddPersonRejectsAfterSave | src/fileManager.py:17-18 | A record that is not a dict is rejected only after the wrapper has saved: a missing file is created holding three empty lists |
| FileManager.AddPersonKeepsOtherKeys | src/fileManager.py:107-110 | Adding a person to a file that also holds another key keeps that key's value, and the stored person is the new record |
| Connector.ContactInfoUrl | src/linkedIn_conector.py:58-59 | The contact-info URL is the link followed by "overlay/contact-info/" |
| Connector.LinkOf | src/linkedIn_conector.py:58-59 | Recovering the link is defined exactly on URLs that end with the suffix, and gives the part before it |
| Connector.ContactInfoUrlRoundTrip | src/linkedIn_conector.py:58-59 | Recovering the link from its contact-info URL gives the link back |
| Connector.LinkOfRoundTrip | src/linkedIn_conector.py:58-59 | Every URL that ends with the suffix is the contact-info URL of the link recovered from it |
| Connector.ContactInfoUrlInjective | src/linkedIn_conector.py:58-59 | Different links lead to different contact-info pages |
| Connector.GatherContactInfo | src/linkedIn_conector.py:28-38 | When the contact-info page cannot be loaded, the error names that URL; otherwise the gathered record's profile is the connection link |
| Connector.GatherContactInfoIgnoresPageProfile | src/linkedIn_conector.py:31-33 | The profile link shown on the page has no influence, whether present, different or missing, because set_profile overrides it |
| Connector.PersonJson | src/linkedIn_conector.py:43 | The stored record has exactly the keys of to_dict, each mapped to the field's string, and its profile is the record's profile |
| Connector.Visit | src/linkedIn_conector.py:28-44 | A page that does not load raises a navigation error for its URL; a successful turn changes the two link lists as remove_connection does, keeps the stored records as a prefix adding at most one, and keeps the multiset of links |
| Connector.VisitQueue | src/linkedIn_conector.py:41-44 | One turn on a reachable link succeeds and changes connections and scraped_texts exactly as remove_connection does; profiles in persons stay distinct |
| Connector.VisitHead | src/linkedIn_conector.py:41-44 | One turn on the head link drops it from connections and appends it to scraped_texts |
| Connector.VisitPersons | src/linkedIn_conector.py:42-43 | One turn keeps every stored record, makes the link's profile known and no other new one, and adds one record exactly when the link was not yet known |
| Connector.Drain | src/linkedIn_conector.py:40-44 | An empty list does nothing; an exception is the failure of a turn on one of the links; scraped_texts and persons only grow at their ends, and the multiset of links across connections and scraped_texts is kept |
| Connector.DrainAppend | src/linkedIn_conector.py:40-44 | Looping over a + b is looping over a and then, if no exception ended it, over b from the resulting document |
| Connector.DrainHaltsAt | src/linkedIn_conector.py:40-44 | The first unreachable link ends the loop with a navigation error naming its URL, and the document keeps the effect of the turns before it |
| Connector.DrainSnapshotQueue | src/linkedIn_conector.py:40-44 | Looping over a snapshot of connections, repeats included, empties connections and appends the snapshot to scraped_texts in order |
| Connector.DrainPersons | src/linkedIn_conector.py:40-44 | Over reachable links the loop succeeds, keeps every stored record and distinct profiles, knows every link afterwards and nothing else new, and adds one record per link not known before |
| Connector.DrainOneRecordPerLink | src/linkedIn_conector.py:40-44 | After the loop every visited link is stored exactly once in persons |
| Connector.Start | src/linkedIn_conector.py:16-21 | A run keeps scraped_texts and persons as prefixes; the multiset of links across both lists grows by exactly the newly queued links; an exception comes from a turn on a pending or newly queued link |
| Connector.StartEndState | src/linkedIn_conector.py:16-21 | A run whose pages all load ends with connections empty, scraped_texts extended by the earlier leftovers and then the newly queued links, and each of those links stored exactly once |
| PersonInfo.ToDict | src/person.py:119-131 | to_dict has the ten field keys and no other, each mapped to its field |
| PersonInfo.ToDictRoundTrip | src/person.py:119-131 | The record can be read back from its dict |
| PersonInfo.ToDictInjective | src/person.py:119-131 | Two records with the same dict are the same record |
| PersonInfo.EmptyPersonIsBlank | src/person.py:15-24 | A new record's dict has all ten keys, each mapped to the empty string |
| PersonInfo.SetProfile | src/person.py:68-69 | The profile field becomes the given link and every other field keeps its value |
| PersonInfo.SetProfileOnlyProfile | src/person.py:68-69 | set_profile changes the profile entry and no other |
| PersonInfo.SafeFind | src/person.py:26-38 | A missing element gives ""; with an attribute the attribute's value, "" when the element lacks it; otherwise the element's text with surrounding whitespace stripped |
| PersonInfo.SectionValue | src/person.py:48-56 | A non-empty answer is the stripped text under the tag in the first section whose stripped heading matches, every section before it having another heading |
| PersonInfo.SectionValueFirstMatch | src/person.py:48-56 | The first section whose stripped heading matches gives the stripped text under the tag, provided every section before it has a heading |
| PersonInfo.SectionValueAborts | src/person.py:48-56 | A section without a heading before any match ends the scan with "", even when a later section would match |
| PersonInfo.SectionValueNoMatch | src/person.py:48-56 | Without a matching heading the value is "" |
| PersonInfo.GetSectionValue | src/person.py:40-56 | No section of the class gives ""; a non-empty answer comes from the first matching section of the class |
| PersonInfo.GatherProfile | src/person.py:61-66 | The href of the top card's link when the page has it, and "" when the element or the attribute is missing |
| PersonInfo.GatherAllInfo | src/person.py:95-112 | The profile is kept unless requested, and then it is the top card's link |
| PersonInfo.GatherAllInfoOverwrites | src/person.py:101-111 | Every field but profile comes from the page alone, so gathering twice from the same page gives the same record |
| PersonInfo.MissingPhoneOnlyBlanksPhone | src/person.py:101-111 | Removing the phone section from a page blanks the phone and leaves every other field as the full page gives it, while the full page gives the phone section's value |
| DataCleaner.CleanLocation | data_cleaner.py:21-30 | A missing or empty location gives three Nones; otherwise the city is present, holds no ", ", and is the whole location or its prefix before the first ", "; a region exists exactly when the location contains ", "; a country only with a region |
| DataCleaner.CleanLocationRoundTrip | data_cleaner.py:24-29 | For a location of at most three parts, joining the present parts with ", " gives the location back |
| DataCleaner.CleanLocationDropsRest | data_cleaner.py:24-29 | Parts after the third are dropped, and the first three are taken as they are |
| DataCleaner.LocationJson | data_cleaner.py:25-30 | The cleaned location always has exactly the keys city, region and country |
| DataCleaner.StripSymbols | data_cleaner.py:49 | The result is a subsequence of the text; each astral-plane character and each of the nine symbols is removed, and every other character keeps its number of occurrences |
| DataCleaner.RemoveEmojisAndSymbols | data_cleaner.py:46-50 | None and "" are returned as they are; any other text is returned with the astral characters and the nine symbols removed, so it holds exactly the text's other characters |
| DataCleaner.RemoveEmojisAndSymbolsIdempotent | data_cleaner.py:46-50 | Cleaning a cleaned text changes nothing |
| DataCleaner.CleanTitle | data_cleaner.py:53-84 | An empty or missing title gives no parts; since the bar symbol is removed before the split on it, any other title gives one part: the symbol-free title, stripped, with synonyms replaced |
| DataCleaner.ExtractKeywords | data_cleaner.py:87-92 | The keywords have no repeats; each is a non-empty ASCII alphanumeric substring of the title; a word is a keyword exactly when it is a whole word run of the title made of ASCII letters and digits |
| DataCleaner.FirstMatchFrom | data_cleaner.py:189-191 | The scan returns the first category at or after the start whose keywords match, or reports that none does |
| DataCleaner.ClassifyTitle | data_cleaner.py:188-192 | An empty title is "Other"; otherwise the first category in table order with a keyword in the title wins, "Other" when none has one; the answer is always "Other" or a category of the table |
| DataCleaner.FirstMatchAgrees | data_cleaner.py:189-191 | Two titles that every category matches alike are classified alike |
| DataCleaner.ClassifyTitleIgnoresCase | data_cleaner.py:190 | A title and its lower-case form are classified alike |
| DataCleaner.CleanPerson | data_cleaner.py:204-216 | Cleaning a record succeeds exactly when its location and title are strings or false; a bad location raises AttributeError, otherwise a bad title raises TypeError; the result has the record's keys plus the five added ones and keeps every other entry; the added keys hold the cleaned location, the geocoder's answer for the raw location, the cleaned title, its category and its keywords |
| DataCleaner.WithAdded | data_cleaner.py:206-216 | Writing the five added keys gives a record with the old keys plus those five, each added key holding its given value and every other entry kept |
| DataCleaner.ProcessData | data_cleaner.py:202-218 | Processing succeeds exactly when every record can be cleaned, and then yields each record cleaned, in order; otherwise it raises what the first record that cannot be cleaned raises |
| DataCleaner.CleanPersonIdempotent | data_cleaner.py:206-216 | Cleaning a cleaned record again gives the same record, because the added keys are recomputed from the untouched location and title |
| DataCleaner.ProcessDataIdempotent | data_cleaner.py:202-218 | Processing processed data again gives the same data |
| DataAnalyzer.Contribution | data_analyzer.py:25-31 | What one record adds to the count of a value: a dict each of its values, a list each of its items, any other true value itself once, a false or missing value nothing |
| DataAnalyzer.Occurrences | data_analyzer.py:21-32 | No records count nothing; the count of a value is at least what any one record contributes, and a positive count has a record contributing to it |
| DataAnalyzer.OccurrencesSingle | data_analyzer.py:24-31 | One record counts exactly its contribution, so with the append lemma every count is the sum of the records' contributions |
| DataAnalyzer.OccurrencesAppend | data_analyzer.py:21-32 | Counts over two batches of records add up |
| DataAnalyzer.OccurrencesAbsentKey | data_analyzer.py:23-32 | A key that no record has, as with empty data, counts nothing |
| DataAnalyzer.OccurrencesOfScalars | data_analyzer.py:25-31 | When no record holds a list or dict at the key, a true scalar is counted once per record holding it |
| DataAnalyzer.Tally | data_analyzer.py:36-41 | The counter lists each counted item once, and an item exactly when it occurs, with the number of its occurrences |
| DataAnalyzer.TallyBound | data_analyzer.py:54-59 | Every count is at least 1 and at most the number of items counted |
| DataAnalyzer.SortByCount | data_analyzer.py:44 | The ranking is a permutation of the counter in non-increasing order of count |
| DataAnalyzer.TitleWords | data_analyzer.py:40 | The words of a title are the maximal runs of word characters of its lower-cased text, one per run, left to right; each is non-empty and lower case |
| DataAnalyzer.AllTitleWordsAppend | data_analyzer.py:39-41 | The words of two lists of titles are the words of each, one after the other |
| DataAnalyzer.TitlesOf | data_analyzer.py:38-39 | A missing cleaned_title gives no titles; a list of strings gives its items and a string its characters; a list holding anything else raises AttributeError, and any other value raises TypeError |
| DataAnalyzer.Words | data_analyzer.py:36-41 | The words are collected exactly when every record's titles can be read; otherwise the first record that cannot be read decides the exception; every word is a non-empty lower-case run of word characters |
| DataAnalyzer.WordsOfRecord | data_analyzer.py:37-41 | The words of one record are the words of its titles |
| DataAnalyzer.WordsAppend | data_analyzer.py:36-41 | The words of two batches are the words of each in order, and the first batch's exception comes first |
| DataAnalyzer.TopCounts | data_analyzer.py:42-44 | At most top_n pairs, none for top_n of 0 or less, in non-increasing order, no stopword, no word twice, each with its number of occurrences; a word left out counts no more than any word listed; a list shorter than top_n leaves no word out |
| DataAnalyzer.MostFrequentTitles | data_analyzer.py:34-44 | The analysis succeeds exactly when the words can be collected and raises their exception otherwise; it is the top_n ranking of those words; each entry is a lower-case word that is not a stopword, with its number of occurrences |
| DataAnalyzer.LocationPart | data_analyzer.py:56 | A missing cleaned_location reads as None; one that is not a dict raises AttributeError; a dict gives its entry for the part, None when it has none |
| DataAnalyzer.Province | data_analyzer.py:48-58 | "Community of Madrid" is counted under "Madrid" and "Catalonia" under "Barcelona"; every other region is counted under itself |
| DataAnalyzer.PartValues | data_analyzer.py:55-59 | The loop passes exactly when every record's part can be read and a true part is hashable; otherwise the first record that cannot be passed decides the exception; it yields the renamed true parts, in record order |
| DataAnalyzer.ProvinceCounts | data_analyzer.py:46-61 | No provinces for empty data; success exactly when every record can be passed, else the first failing record's exception; each province is listed once, exactly when a record's true region is counted under it, with the number of such records, between 1 and the number of records |
| DataAnalyzer.CountryCounts | data_analyzer.py:63-71 | No countries for empty data; success exactly when every record can be passed, else the first failing record's exception; each country is listed once, exactly when it is a record's true country, with the number of such records, between 1 and the number of records |
| DataAnalyzer.CountedFrom | data_analyzer.py:55-59 | A value is counted exactly when it is the renamed true part of some record |
| DataAnalyzer.CountryCountsRecords | data_analyzer.py:65-69 | The countries listed are exactly the true countries of the records |
| DataAnalyzer.UnhashableRegionRaisesFirst | data_analyzer.py:55-59 | An unhashable region in the first record raises TypeError, although the second record's location is not a dict |
| DataAnalyzer.ProvinceMerges | data_analyzer.py:48-59 | "Madrid" counts the records in Madrid or the Community of Madrid, and "Barcelona" those in Barcelona or Catalonia |
| DataAnalyzer.CountedUnder | data_analyzer.py:55-59 | The count under a province is the number of records whose region is one of the names counted under it |
| DataAnalyzer.CompletionCount | data_analyzer.py:73-79 | The count is the number of records with a true value at the key; it is at most the number of records, 0 exactly when none has one, and the total exactly when all do |
| DataAnalyzer.CompletionAppend | data_analyzer.py:78 | Completion counts over two batches of records add up |
| ConfigManager.ValidateEmail | src/ConfigManager.py:12 | A string is accepted exactly when it has the regex's shape, or that shape followed by one final newline |
| ConfigManager.CheckDomainIff | src/ConfigManager.py:12 | Checking the domain at its last dot agrees with the regex, which may place the dot anywhere |
| ConfigManager.CheckCoreIff | src/ConfigManager.py:12 | Splitting at the first "@" agrees with the regex, which may place the "@" anywhere |
| ConfigManager.OneAtSign | src/ConfigManager.py:12 | An accepted address holds exactly one "@" |
| ConfigManager.ShortTopLevelRejected | src/ConfigManager.py:12 | "a@b.c" is rejected |
| ConfigManager.PlainAddressAccepted | src/ConfigManager.py:12 | "a@b.co" is accepted |
| ConfigManager.TrailingNewlineAccepted | src/ConfigManager.py:12 | "a@b.co" followed by a newline is accepted |
| ConfigManager.TwoAtSignsRejected | src/ConfigManager.py:12 | "a@b@c.co" is rejected |
| ConfigManager.HasSecret | src/ConfigManager.py:29-31 | A dict is searched by key; None or a number cannot be searched and raises TypeError |
| ConfigManager.CheckMandatory | src/ConfigManager.py:29-31 | None or a number raises TypeError at the first name; the check passes exactly when every name is found; otherwise the first name not found is reported |
| ConfigManager.CheckMandatoryOfDict | src/ConfigManager.py:27-31 | On a dict, a missing email is reported first, then a missing password, and nothing when both are present |
| ConfigManager.ValidateSecrets | src/ConfigManager.py:25-38 | Missing keys are reported first, email before password; a bad address is reported before the password is looked at; an empty password is reported; success exactly when both keys are present, the email is well formed and the password is true; it then returns the email unchanged and the password |
| ConfigManager.Digits | src/ConfigManager.py:38 | The decimal form of a number is a non-empty run of digits without a leading zero |
| ConfigManager.DigitsRoundTrip | src/ConfigManager.py:38 | Reading the decimal form of a number back gives the number |
| ConfigManager.Str | src/ConfigManager.py:38 | str is defined for strings and integers; a string is returned as it is; an integer gives digits, with a leading "-" exactly when it is negative |
| ConfigManager.StrOfNumberRoundTrip | src/ConfigManager.py:38 | str of an integer password starts with "-" exactly for a negative number, and reads back as the number |
| Text.Strip | src/person.py:36 | The stripped text is a slice of the input with only whitespace cut from either end, and it neither starts nor ends with whitespace |
| Text.StripIdempotent | src/person.py:36 | Stripping twice is stripping once |
| Text.Split | data_cleaner.py:24 | The parts rejoined with the separator give the input; no part contains the separator; there is one part exactly when the input lacks it |
| Text.SplitCons | data_cleaner.py:24 | A first part without the separator is split off as the first part |
| Text.SplitWithoutSeparator | data_cleaner.py:59 | A text without the separator is its own single part |
| Text.Lower | data_analyzer.py:40 | Lower-casing keeps the length and maps each character on its own |
| Text.LowerOfLowered | data_analyzer.py:40 | A piece of a lower-cased text is already lower case |
| Text.LowerIdempotent | data_analyzer.py:40 | Lower-casing twice is lower-casing once |
| Text.WordRuns | data_analyzer.py:40 | Every word found is a non-empty run of word characters occurring in the text |
| Text.WordRunsMaximal | data_analyzer.py:40 | The words found are the texts of all maximal runs of word characters, each once, left to right |
| Text.Contains | data_cleaner.py:190 | The substring test answers exactly whether the needle occurs somewhere in the text |
| PyValues.Subscript | src/fileManager.py:108 | `d[key]` gives the value of a present key, raises KeyError for a missing key of a dict, and TypeError on anything else |
| Seqs.RemoveFirst | src/fileManager.py:141 | Removing a link drops its first occurrence only: one fewer element, the others in order, the multiset less one copy |
| PyValues.StringsOfTexts | data_analyzer.py:38-40 | A list of strings made from texts reads back as those texts |

## Left out

- Selenium itself, meaning waits, scrolling, `goToMyConnections` and `get_connections_links`, is not modelled. The collected links are a parameter of `Connector.Start`, and a page is a value.
- `main.py` and the terminal printing (`printyellow`, `show_terminal`) are not part of this model.
- Reading and writing files are not modelled, because they are I/O. This covers `_load_json`, `_save_json`, `load_data`, `load_cleaned_data` and `yaml.safe_load`. A file is a `StoredFile` value: missing, unparsable, or holding a JSON value.
- The `FileManager` class inside `src/ConfigManager.py` (`find_file`, `validate_data_folder`, `file_paths_to_dict`) is left out, because it only probes the file system.
- `get_connections` and `get_all_persons` are plain reads of a field of `Doc`.
- FileManager.Decorated: gives no outcome when the file's `connections` or `scraped_texts` are not lists of strings, or `persons` is not a list. The model takes the collected links to be strings; a link without `href`, which Selenium returns as `None` and `add_connections` would store as `null`, is not modelled, nor is any other shape of the lists.
- DataCleaner.ProcessData: on an exception it gives only the exception. The keys Python already wrote into the records before the exception are not modelled.
- Geocoding (`geocode_location`) calls a network service. It is a parameter of `DataCleaner.Cleaning`.
- The synonym replacement of `clean_title` uses a regex table. It is a parameter of `DataCleaner.CleanTitle`.
- The category table of `classify_title` is a parameter (`DataCleaner.Table`), not its literal contents.
- `normalize_text`, `unidecode` and the plotting functions are not part of this model.
- DataAnalyzer.ProvinceCounts: models the counts behind the percentages, because `round(count / total * 100, 2)` is floating point.
- DataAnalyzer.CountryCounts: models the counts behind the percentages, because `round(count / total * 100, 2)` is floating point.
- DataAnalyzer.CompletionCount: models the count behind the percentage, for the same reason.
- DataAnalyzer.Tally: is over hashable values only. A list or dict counted by `count_occurrences` would raise `TypeError`, and that case is not modelled there.
- DataAnalyzer.TopCounts: does not prove that ties keep first-occurrence order, though the insertion sort is written to keep it.
- DataAnalyzer.Contribution: a dict or list at the key adds its values or items as the model's counter does. A list or dict inside them would raise `TypeError` in Python, and that is not modelled.
- DataAnalyzer.TitlesOf: a `cleaned_title` that is a dict is iterated by key in Python. Here it raises `TypeError`, because dict key order is not modelled.
- DataCleaner.ExtractKeywords: lists the keywords in first-occurrence order. Python's `list(set(...))` order is unspecified.
- Text.WordRuns: `\w` covers ASCII letters, digits, `_` and the Latin-1 letters and digits. The rest of Unicode is not modelled.
- Text.Lower: lowers the ASCII letters and the Latin-1 capitals U+00C0 to U+00DE except U+00D7. The rest of Unicode is not modelled.
- PersonInfo.SafeFind: an element without the requested attribute gives `""`, where Selenium returns `None`.
- PersonInfo.GatherProfile: a top-card link without `href` gives `""`, where Selenium returns `None`.
- ConfigManager.ValidateSecrets: returns the password value itself. `ConfigManager.Str` gives its `str()` for strings and integers. The `repr` of a list or dict password is not modelled.
- JSON booleans and floats are not part of `PyValues.Json`.
