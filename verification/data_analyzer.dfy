/** The counting part of `data_analyzer.py` over the cleaned contact records.

    A record is a JSON dict. Percentages are left out: every analysis is
    modelled up to the integer counts it divides by the number of records. */
module DataAnalyzer {
  import opened Wrappers
  import opened PyValues
  import Seqs
  import Text

  type Record = map<string, Json>

  // ---------------------------------------------------------------------------
  // count_occurrences
  // ---------------------------------------------------------------------------

  /** What one record's value adds to the count of `v`: a dict adds each of its
      values, a list each of its items, any other true value itself once, and a
      false or missing value nothing. */
  function Contribution(value: Json, v: Json): (n: nat)
    ensures !Truthy(value) && !value.JObj? && !value.JArr? ==> n == 0
    ensures value.JArr? ==> n == multiset(value.items)[v]
    ensures value.JObj? ==> n == |set k | k in value.fields && value.fields[k] == v|
    ensures !value.JObj? && !value.JArr? ==> n == (if Truthy(value) && value == v then 1 else 0)
  {
    match value
    case JObj(fields) => |set k | k in fields && fields[k] == v|
    case JArr(items) => multiset(items)[v]
    case JNull => 0
    case JNum(x) => if x != 0 && value == v then 1 else 0
    case JStr(x) => if x != "" && value == v then 1 else 0
  }

  /** `count_occurrences(data, key)[v]`: the `Counter` it builds, read at `v`.
      Every record's contribution is part of the count, and nothing else is. */
  function Occurrences(data: seq<Record>, key: string, v: Json): (n: nat)
    ensures data == [] ==> n == 0
    ensures forall i :: 0 <= i < |data| ==> Contribution(Get(data[i], key), v) <= n
    ensures n > 0 ==> exists i :: 0 <= i < |data| && Contribution(Get(data[i], key), v) > 0
  {
    if data == [] then 0
    else Contribution(Get(data[0], key), v) + Occurrences(data[1..], key, v)
  }

  /** One record counts exactly its own contribution; with `OccurrencesAppend`
      this fixes every count as the sum of the records' contributions. */
  lemma OccurrencesSingle(r: Record, key: string, v: Json)
    ensures Occurrences([r], key, v) == Contribution(Get(r, key), v)
  {
  }

  /** Counting over two batches of records adds up. */
  lemma {:induction false} OccurrencesAppend(a: seq<Record>, b: seq<Record>, key: string, v: Json)
    ensures Occurrences(a + b, key, v) == Occurrences(a, key, v) + Occurrences(b, key, v)
  {
    if a == [] {
      assert a + b == b;
    } else {
      assert (a + b)[0] == a[0] && (a + b)[1..] == a[1..] + b;
      OccurrencesAppend(a[1..], b, key, v);
    }
  }

  /** A key that no record has counts nothing. */
  lemma {:induction false} OccurrencesAbsentKey(data: seq<Record>, key: string, v: Json)
    requires forall i :: 0 <= i < |data| ==> key !in data[i]
    ensures Occurrences(data, key, v) == 0
  {
    if data != [] {
      OccurrencesAbsentKey(data[1..], key, v);
    }
  }

  /** The values of `key` across the records, `None` where it is missing. */
  function Column(data: seq<Record>, key: string): (c: seq<Json>)
    ensures |c| == |data| && forall i :: 0 <= i < |data| ==> c[i] == Get(data[i], key)
  {
    seq(|data|, i requires 0 <= i < |data| => Get(data[i], key))
  }

  /** When no record holds a list or dict at `key`, a true scalar is counted
      once per record holding it. */
  lemma {:induction false} OccurrencesOfScalars(data: seq<Record>, key: string, v: Json)
    requires Truthy(v) && !v.JObj? && !v.JArr?
    requires forall i :: 0 <= i < |data| ==> !Get(data[i], key).JObj? && !Get(data[i], key).JArr?
    ensures Occurrences(data, key, v) == multiset(Column(data, key))[v]
  {
    if data != [] {
      OccurrencesOfScalars(data[1..], key, v);
      assert Column(data, key) == [Get(data[0], key)] + Column(data[1..], key);
    }
  }

  // ---------------------------------------------------------------------------
  // An ordered Counter
  // ---------------------------------------------------------------------------

  /** The values of a counter, in insertion order. */
  function Keys<T>(t: seq<(T, nat)>): (r: seq<T>)
    ensures |r| == |t| && forall i :: 0 <= i < |t| ==> r[i] == t[i].0
  {
    seq(|t|, i requires 0 <= i < |t| => t[i].0)
  }

  /** One `counts[w] += 1` on a counter kept in insertion order. */
  function Bump<T(==,!new)>(t: seq<(T, nat)>, w: T): (r: seq<(T, nat)>)
    requires Seqs.NoDuplicates(Keys(t))
    ensures |r| == if w in Keys(t) then |t| else |t| + 1
    ensures forall i :: 0 <= i < |t| ==> r[i].0 == t[i].0 && r[i].1 == if t[i].0 == w then t[i].1 + 1 else t[i].1
    ensures w !in Keys(t) ==> r[|t|] == (w, 1)
  {
    if t == [] then [(w, 1)]
    else if t[0].0 == w then
      assert Keys(t)[0] == w;
      assert forall i :: 1 <= i < |t| ==> Keys(t)[0] != Keys(t)[i];
      [(w, t[0].1 + 1)] + t[1..]
    else
      assert Keys(t[1..]) == Keys(t)[1..];
      [t[0]] + Bump(t[1..], w)
  }

  /** The words of a bumped counter: the old ones and the bumped one. */
  lemma BumpKeys<T(!new)>(t: seq<(T, nat)>, w: T)
    requires Seqs.NoDuplicates(Keys(t))
    ensures forall u :: u in Keys(Bump(t, w)) <==> u in Keys(t) || u == w
  {
    var r := Bump(t, w);
    if w !in Keys(t) {
      assert Keys(r) == Keys(t) + [w];
    } else {
      assert Keys(r) == Keys(t);
    }
  }

  /** Bumping a counter whose words are all different keeps them different. */
  lemma BumpDistinct<T(!new)>(t: seq<(T, nat)>, w: T)
    requires Seqs.NoDuplicates(Keys(t))
    ensures Seqs.NoDuplicates(Keys(Bump(t, w)))
  {
    var r := Bump(t, w);
    if w !in Keys(t) {
      assert Keys(r) == Keys(t) + [w];
    } else {
      assert Keys(r) == Keys(t);
    }
  }

  /** `Counter(xs)`: each distinct item once, in order of first occurrence,
      with the number of times it occurs. */
  function Tally<T(==,!new)>(xs: seq<T>): (r: seq<(T, nat)>)
    ensures Seqs.NoDuplicates(Keys(r))
    ensures forall w :: w in Keys(r) <==> w in xs
    ensures forall i :: 0 <= i < |r| ==> r[i].1 == multiset(xs)[r[i].0]
    decreases |xs|
  {
    if xs == [] then []
    else
      Seqs.FrontLast(xs);
      var t := Tally(xs[..|xs| - 1]);
      TallyStep(xs[..|xs| - 1], xs[|xs| - 1], t);
      Bump(t, xs[|xs| - 1])
  }

  /** A counter of `xs` bumped at `w` is a counter of `xs + [w]`. */
  lemma TallyStep<T(!new)>(xs: seq<T>, w: T, t: seq<(T, nat)>)
    requires Seqs.NoDuplicates(Keys(t))
    requires forall u :: u in Keys(t) <==> u in xs
    requires forall i :: 0 <= i < |t| ==> t[i].1 == multiset(xs)[t[i].0]
    ensures var r := Bump(t, w);
            && Seqs.NoDuplicates(Keys(r))
            && (forall u :: u in Keys(r) <==> u in xs + [w])
            && (forall i :: 0 <= i < |r| ==> r[i].1 == multiset(xs + [w])[r[i].0])
  {
    var r := Bump(t, w);
    BumpKeys(t, w);
    BumpDistinct(t, w);
    assert multiset(xs + [w]) == multiset(xs) + multiset{w};
    if w !in Keys(t) {
      assert w !in multiset(xs);
    }
  }

  /** A count never exceeds the number of items counted. */
  lemma TallyBound<T(!new)>(xs: seq<T>)
    ensures forall i :: 0 <= i < |Tally(xs)| ==> 1 <= Tally(xs)[i].1 <= |xs|
  {
    var t := Tally(xs);
    forall i | 0 <= i < |t|
      ensures 1 <= t[i].1 <= |xs|
    {
      assert t[i].0 in Keys(t);
      assert t[i].0 in multiset(xs);
    }
  }

  // ---------------------------------------------------------------------------
  // Counter.most_common
  // ---------------------------------------------------------------------------

  predicate SortedByCount<T>(s: seq<(T, nat)>) {
    forall i, j :: 0 <= i < j < |s| ==> s[i].1 >= s[j].1
  }

  /** Inserts `x` before the first entry whose count is not larger. */
  function InsertByCount<T>(x: (T, nat), s: seq<(T, nat)>): (r: seq<(T, nat)>)
    requires SortedByCount(s)
    ensures SortedByCount(r)
    ensures multiset(r) == multiset(s) + multiset{x}
  {
    if s == [] || s[0].1 <= x.1 then [x] + s
    else
      var rest := InsertByCount(x, s[1..]);
      assert s == [s[0]] + s[1..];
      assert forall j :: 0 <= j < |rest| ==> rest[j].1 <= s[0].1 by {
        forall j | 0 <= j < |rest|
          ensures rest[j].1 <= s[0].1
        {
          assert rest[j] in multiset(rest);
          if rest[j] != x {
            assert rest[j] in multiset(s[1..]);
            var k :| 0 <= k < |s[1..]| && s[1..][k] == rest[j];
            assert s[k + 1] == rest[j];
          }
        }
      }
      [s[0]] + rest
  }

  /** Sorts by count, largest first; an entry is placed before the later
      entries with the same count. */
  function SortByCount<T>(s: seq<(T, nat)>): (r: seq<(T, nat)>)
    ensures SortedByCount(r)
    ensures multiset(r) == multiset(s)
  {
    if s == [] then []
    else
      assert s == [s[0]] + s[1..];
      InsertByCount(s[0], SortByCount(s[1..]))
  }

  // ---------------------------------------------------------------------------
  // analyze_most_frequent_titles
  // ---------------------------------------------------------------------------

  const Stopwords: set<string> :=
    {"and", "of", "in", "on", "at", "to", "for", "with", "a", "an", "the",
     "de", "en", "y", "el", "la", "los", "las"}

  const CleanedTitleKey: string := "cleaned_title"

  /** The words of one title: the maximal runs of word characters of its
      lower-cased text, one per run, left to right. */
  function TitleWords(title: string): (r: seq<string>)
    ensures forall w :: w in r ==> w != [] && Text.AllWordChars(w) && Text.Lower(w) == w
    ensures exists spans :: Text.RunsOf(Text.Lower(title), r, spans)
  {
    var r := Text.WordRuns(Text.Lower(title));
    Text.WordRunsMaximal(Text.Lower(title));
    forall w | w in r
      ensures Text.Lower(w) == w
    {
      Text.LowerOfLowered(title, w);
    }
    r
  }

  /** The words of several titles, in order. */
  function AllTitleWords(titles: seq<string>): (r: seq<string>)
    ensures forall w :: w in r ==> w != [] && Text.AllWordChars(w) && Text.Lower(w) == w
  {
    if titles == [] then [] else TitleWords(titles[0]) + AllTitleWords(titles[1..])
  }

  /** The words of two lists of titles are the words of each, one after the other. */
  lemma {:induction false} AllTitleWordsAppend(a: seq<string>, b: seq<string>)
    ensures AllTitleWords(a + b) == AllTitleWords(a) + AllTitleWords(b)
  {
    if a == [] {
      assert a + b == b;
    } else {
      assert (a + b)[0] == a[0] && (a + b)[1..] == a[1..] + b;
      AllTitleWordsAppend(a[1..], b);
    }
  }

  /** A `cleaned_title` value whose items can be lower-cased: a string, or a
      list of strings. */
  predicate IterableTitles(v: Json) {
    v.JStr? || (v.JArr? && forall i :: 0 <= i < |v.items| ==> v.items[i].JStr?)
  }

  /** The titles a record is iterated for: none when `cleaned_title` is
      missing, the items of a list of strings, and the characters of a string.
      A list holding anything but strings fails on `.lower()`; any other value
      cannot be iterated. */
  function TitlesOf(person: Record): (r: Result<seq<string>, Error>)
    ensures CleanedTitleKey !in person ==> r == Success([])
    ensures r.Failure? <==> CleanedTitleKey in person && !IterableTitles(person[CleanedTitleKey])
    ensures r.Failure? && person[CleanedTitleKey].JArr? ==> r.error == AttributeError
    ensures r.Failure? && !person[CleanedTitleKey].JArr? ==> r.error == TypeError
    ensures r.Success? && CleanedTitleKey in person && person[CleanedTitleKey].JArr? ==>
              Texts(r.value) == person[CleanedTitleKey].items
    ensures r.Success? && CleanedTitleKey in person && person[CleanedTitleKey].JStr? ==>
              var t := person[CleanedTitleKey].s;
              |r.value| == |t| && forall i :: 0 <= i < |t| ==> r.value[i] == [t[i]]
  {
    if CleanedTitleKey !in person then Success([])
    else
      match person[CleanedTitleKey]
      case JArr(items) =>
        (match Strings(items)
         case Some(titles) => Success(titles)
         case None => Failure(AttributeError))
      case JStr(s) => Success(seq(|s|, i requires 0 <= i < |s| => [s[i]]))
      case JNull => Failure(TypeError)
      case JNum(_) => Failure(TypeError)
      case JObj(_) => Failure(TypeError)
  }

  /** Every title word of every record, in order. The first record whose
      titles cannot be read ends the scan with its exception. */
  function Words(data: seq<Record>): (r: Result<seq<string>, Error>)
    ensures r.Success? <==> forall i :: 0 <= i < |data| ==> TitlesOf(data[i]).Success?
    ensures r.Failure? ==> exists k :: && 0 <= k < |data|
                                       && (forall i :: 0 <= i < k ==> TitlesOf(data[i]).Success?)
                                       && TitlesOf(data[k]) == Failure(r.error)
    ensures r.Success? ==> forall w :: w in r.value ==> w != [] && Text.AllWordChars(w) && Text.Lower(w) == w
  {
    if data == [] then Success([])
    else
      assert forall i :: 0 <= i < |data[1..]| ==> data[1..][i] == data[i + 1];
      match TitlesOf(data[0])
      case Failure(e) => Failure(e)
      case Success(titles) =>
        match Words(data[1..])
        case Failure(e) =>
          assert exists k :: && 0 <= k < |data[1..]|
                             && (forall i :: 0 <= i < k ==> TitlesOf(data[1..][i]).Success?)
                             && TitlesOf(data[1..][k]) == Failure(e);
          var k :| && 0 <= k < |data[1..]|
                   && (forall i :: 0 <= i < k ==> TitlesOf(data[1..][i]).Success?)
                   && TitlesOf(data[1..][k]) == Failure(e);
          assert TitlesOf(data[k + 1]) == Failure(e);
          Failure(e)
        case Success(rest) =>
          assert forall i :: 1 <= i < |data| ==> data[i] == data[1..][i - 1];
          Success(AllTitleWords(titles) + rest)
  }

  /** The words of one record are the words of its titles. */
  lemma WordsOfRecord(person: Record)
    requires TitlesOf(person).Success?
    ensures Words([person]) == Success(AllTitleWords(TitlesOf(person).value))
  {
    assert [person][1..] == [];
    assert AllTitleWords(TitlesOf(person).value) + [] == AllTitleWords(TitlesOf(person).value);
  }

  /** The words of two batches of records are the words of each, one after the
      other; the first batch's exception comes first. */
  lemma {:induction false} WordsAppend(a: seq<Record>, b: seq<Record>)
    ensures Words(a).Failure? ==> Words(a + b) == Failure(Words(a).error)
    ensures Words(a).Success? && Words(b).Failure? ==> Words(a + b) == Failure(Words(b).error)
    ensures Words(a).Success? && Words(b).Success? ==> Words(a + b) == Success(Words(a).value + Words(b).value)
  {
    if a == [] {
      assert a + b == b;
      assert Words(b).Success? ==> [] + Words(b).value == Words(b).value;
    } else {
      assert (a + b)[0] == a[0] && (a + b)[1..] == a[1..] + b;
      WordsAppend(a[1..], b);
      if TitlesOf(a[0]).Success? && Words(a[1..]).Success? && Words(b).Success? {
        Seqs.AppendAssoc(AllTitleWords(TitlesOf(a[0]).value), Words(a[1..]).value, Words(b).value);
      }
    }
  }

  /** Tally entries that `analyze_most_frequent_titles` keeps. */
  predicate NotStopword(p: (string, nat)) {
    p.0 !in Stopwords
  }

  /** The tally without stopwords, largest count first: what `most_common` cuts. */
  function Ranked(words: seq<string>): seq<(string, nat)> {
    SortByCount(Seqs.Filter(Tally(words), NotStopword))
  }

  /** Every ranked entry is a word of the titles, not a stopword, with its count. */
  lemma RankedEntries(words: seq<string>)
    ensures forall i :: 0 <= i < |Ranked(words)| ==>
              && Ranked(words)[i].0 !in Stopwords && Ranked(words)[i].0 in words
              && Ranked(words)[i].1 == multiset(words)[Ranked(words)[i].0]
  {
    var tally := Tally(words);
    var kept := Seqs.Filter(tally, NotStopword);
    var ranked := Ranked(words);
    forall i | 0 <= i < |ranked|
      ensures ranked[i].0 !in Stopwords && ranked[i].0 in words && ranked[i].1 == multiset(words)[ranked[i].0]
    {
      assert ranked[i] in multiset(kept);
      assert ranked[i] in tally;
      var k :| 0 <= k < |tally| && tally[k] == ranked[i];
      assert Keys(tally)[k] == ranked[i].0;
    }
  }

  /** Every word of the titles that is not a stopword is ranked, with its count. */
  lemma RankedComplete(words: seq<string>)
    ensures forall w :: w in words && w !in Stopwords ==> (w, multiset(words)[w]) in Ranked(words)
  {
    var tally := Tally(words);
    var kept := Seqs.Filter(tally, NotStopword);
    forall w | w in words && w !in Stopwords
      ensures (w, multiset(words)[w]) in Ranked(words)
    {
      assert w in Keys(tally);
      var k :| 0 <= k < |tally| && Keys(tally)[k] == w;
      assert tally[k] == (w, multiset(words)[w]);
      assert NotStopword(tally[k]);
      assert tally[k] in kept;
      assert tally[k] in multiset(Ranked(words));
    }
  }

  /** Two equal items at different places count twice. */
  lemma CountTwo<T>(s: seq<T>, i: nat, j: nat)
    requires i < j < |s|
    ensures s[i] == s[j] ==> multiset(s)[s[i]] >= 2
  {
    assert s == s[..j] + s[j..];
    assert s[i] in s[..j];
    assert s[j..][0] == s[j];
  }

  /** No word is ranked twice: the tally has each word once, and sorting moves
      entries without copying them. */
  lemma RankedDistinct(words: seq<string>)
    ensures Seqs.NoDuplicates(Keys(Ranked(words)))
  {
    var tally := Tally(words);
    var kept := Seqs.Filter(tally, NotStopword);
    var ranked := Ranked(words);
    RankedEntries(words);
    forall i, j | 0 <= i < j < |ranked|
      ensures Keys(ranked)[i] != Keys(ranked)[j]
    {
      CountTwo(ranked, i, j);
      NoDuplicatesCount(tally, ranked[i]);
      assert multiset(kept)[ranked[i]] <= multiset(tally)[ranked[i]];
    }
  }

  /** In a counter whose words are all different, an entry occurs at most once. */
  lemma {:induction false} NoDuplicatesCount<T(!new)>(t: seq<(T, nat)>, x: (T, nat))
    requires Seqs.NoDuplicates(Keys(t))
    ensures multiset(t)[x] <= 1
  {
    if t != [] {
      assert Seqs.NoDuplicates(Keys(t[1..])) by {
        forall i, j | 0 <= i < j < |t[1..]|
          ensures Keys(t[1..])[i] != Keys(t[1..])[j]
        {
          assert Keys(t)[i + 1] != Keys(t)[j + 1];
        }
      }
      NoDuplicatesCount(t[1..], x);
      assert t == [t[0]] + t[1..];
      assert t[0] == x ==> x !in t[1..] by {
        forall k | 0 <= k < |t[1..]|
          ensures t[1..][k].0 != t[0].0
        {
          assert Keys(t)[0] != Keys(t)[k + 1];
        }
      }
    }
  }

  /** `most_common(topN)` over the tally of `words` without stopwords. */
  function TopCounts(words: seq<string>, topN: int): (r: seq<(string, nat)>)
    ensures topN <= 0 ==> r == []
    ensures |r| <= if topN <= 0 then 0 else topN
    ensures SortedByCount(r)
    ensures forall i :: 0 <= i < |r| ==>
              && r[i].0 !in Stopwords && r[i].0 in words
              && r[i].1 == multiset(words)[r[i].0]
    ensures Seqs.NoDuplicates(Keys(r))
    ensures forall w, i :: w in words && w !in Stopwords && w !in Keys(r) && 0 <= i < |r| ==>
              r[i].1 >= multiset(words)[w]
    ensures forall w :: w in words && w !in Stopwords && |r| < topN ==> w in Keys(r)
  {
    var ranked := Ranked(words);
    var r := if topN <= 0 then [] else ranked[..if topN < |ranked| then topN else |ranked|];
    TopCountsFacts(words, r);
    r
  }

  /** What a prefix of the ranking inherits from it. */
  lemma TopCountsFacts(words: seq<string>, r: seq<(string, nat)>)
    requires r <= Ranked(words)
    ensures SortedByCount(r)
    ensures forall i :: 0 <= i < |r| ==>
              && r[i].0 !in Stopwords && r[i].0 in words
              && r[i].1 == multiset(words)[r[i].0]
    ensures Seqs.NoDuplicates(Keys(r))
    ensures forall w, i :: w in words && w !in Stopwords && w !in Keys(r) && 0 <= i < |r| ==>
              r[i].1 >= multiset(words)[w]
    ensures forall w :: w in words && w !in Stopwords && |r| == |Ranked(words)| ==> w in Keys(r)
  {
    var ranked := Ranked(words);
    RankedEntries(words);
    RankedDistinct(words);
    assert forall i :: 0 <= i < |r| ==> r[i] == ranked[i];
    assert forall i :: 0 <= i < |r| ==> Keys(r)[i] == Keys(ranked)[i];
    RankedComplete(words);
    TopCountsMaximal(words, ranked, r);
  }

  /** A word left out of a prefix of a ranking that holds it counts no more
      than any word in the prefix, and a prefix as long as the ranking leaves
      no word out. */
  lemma TopCountsMaximal(words: seq<string>, ranked: seq<(string, nat)>, r: seq<(string, nat)>)
    requires SortedByCount(ranked) && r <= ranked
    requires forall w :: w in words && w !in Stopwords ==> (w, multiset(words)[w]) in ranked
    ensures forall w, i :: w in words && w !in Stopwords && w !in Keys(r) && 0 <= i < |r| ==>
              r[i].1 >= multiset(words)[w]
    ensures forall w :: w in words && w !in Stopwords && |r| == |ranked| ==> w in Keys(r)
  {
    assert forall k :: 0 <= k < |r| ==> Keys(r)[k] == ranked[k].0 && r[k] == ranked[k];
    forall w, i | w in words && w !in Stopwords && w !in Keys(r) && 0 <= i < |r|
      ensures r[i].1 >= multiset(words)[w]
    {
      var j :| 0 <= j < |ranked| && ranked[j] == (w, multiset(words)[w]);
      assert i < j;
    }
    forall w | w in words && w !in Stopwords && |r| == |ranked|
      ensures w in Keys(r)
    {
      var j :| 0 <= j < |ranked| && ranked[j] == (w, multiset(words)[w]);
      assert Keys(r)[j] == w;
    }
  }

  /** `analyze_most_frequent_titles`: the `topN` most frequent title words
      that are not stopwords, with their counts. A record whose titles cannot
      be read raises, and so does the analysis. */
  function MostFrequentTitles(data: seq<Record>, topN: int): (r: Result<seq<(string, nat)>, Error>)
    ensures r.Success? <==> Words(data).Success?
    ensures r.Failure? ==> r.error == Words(data).error
    ensures r.Success? ==> r.value == TopCounts(Words(data).value, topN)
    ensures r.Success? ==> forall i :: 0 <= i < |r.value| ==>
              var w := r.value[i].0;
              && w != [] && Text.AllWordChars(w) && Text.Lower(w) == w && w !in Stopwords
              && r.value[i].1 == multiset(Words(data).value)[w]
  {
    var words :- Words(data);
    Success(TopCounts(words, topN))
  }

  // ---------------------------------------------------------------------------
  // analyze_province_distribution and analyze_country_percentage
  // ---------------------------------------------------------------------------

  const CleanedLocationKey: string := "cleaned_location"

  /** The `part` entry of a record's `cleaned_location` dict, read with `get`
      at both levels: `None` when either key is missing; a `cleaned_location`
      that is not a dict has no `get`. */
  function LocationPart(person: Record, part: string): (r: Result<Json, Error>)
    ensures CleanedLocationKey !in person ==> r == Success(JNull)
    ensures r.Failure? <==> CleanedLocationKey in person && !person[CleanedLocationKey].JObj?
    ensures r.Failure? ==> r.error == AttributeError
    ensures r.Success? && CleanedLocationKey in person ==> r.value == Get(person[CleanedLocationKey].fields, part)
  {
    if CleanedLocationKey !in person then Success(JNull)
    else
      match person[CleanedLocationKey]
      case JObj(fields) => Success(Get(fields, part))
      case _ => Failure(AttributeError)
  }

  /** The province a region is counted under. */
  function Province(region: Json): (p: Json)
    ensures region == JStr("Community of Madrid") ==> p == JStr("Madrid")
    ensures region == JStr("Catalonia") ==> p == JStr("Barcelona")
    ensures region != JStr("Community of Madrid") && region != JStr("Catalonia") ==> p == region
  {
    match region
    case JStr(s) =>
      if s == "Madrid" || s == "Community of Madrid" then JStr("Madrid")
      else if s == "Barcelona" || s == "Catalonia" then JStr("Barcelona")
      else region
    case _ => region
  }

  /** Lists and dicts cannot be dictionary keys. */
  predicate Hashable(v: Json) {
    !v.JArr? && !v.JObj?
  }

  /** The part read from a record, `None` where reading it raises. */
  function PartAt(person: Record, part: string): Json {
    match LocationPart(person, part)
    case Success(v) => v
    case Failure(_) => JNull
  }

  /** The parts of all records, in order. */
  function Parts(data: seq<Record>, part: string): (c: seq<Json>)
    ensures |c| == |data| && forall i :: 0 <= i < |data| ==> c[i] == PartAt(data[i], part)
  {
    seq(|data|, i requires 0 <= i < |data| => PartAt(data[i], part))
  }

  /** The values the loop counts, one per record with a true part, in record
      order, each renamed as the loop renames it. */
  function Counted(data: seq<Record>, part: string, rename: Json -> Json): seq<Json> {
    Seqs.Map(Seqs.Filter(Parts(data, part), Truthy), rename)
  }

  /** A record the loop passes without raising: its part can be read, and a
      true part can be used as a dict key. */
  predicate Countable(person: Record, part: string) {
    && LocationPart(person, part).Success?
    && (Truthy(LocationPart(person, part).value) ==> Hashable(LocationPart(person, part).value))
  }

  /** The exception a record the loop cannot pass raises. */
  function Fault(person: Record, part: string): Error {
    if LocationPart(person, part).Failure? then AttributeError else TypeError
  }

  /** Record `k` is the first one the loop cannot pass. */
  predicate FirstFault(data: seq<Record>, part: string, k: int) {
    && 0 <= k < |data|
    && !Countable(data[k], part)
    && forall i :: 0 <= i < k ==> Countable(data[i], part)
  }

  /** One record off the front: what it adds to the counted values. */
  lemma CountedStep(data: seq<Record>, part: string, rename: Json -> Json)
    requires data != []
    ensures Counted(data, part, rename) ==
            (if Truthy(PartAt(data[0], part)) then [rename(PartAt(data[0], part))] else []) + Counted(data[1..], part, rename)
  {
    var parts := Parts(data, part);
    assert parts == [parts[0]] + Parts(data[1..], part);
    var kept := Seqs.Filter(Parts(data[1..], part), Truthy);
    if Truthy(parts[0]) {
      assert Seqs.Filter(parts, Truthy) == [parts[0]] + kept;
      Seqs.MapCons(parts[0], kept, rename);
    } else {
      assert Seqs.Filter(parts, Truthy) == kept;
    }
  }

  /** One record off the front: how the first fault of the rest sits in the whole. */
  lemma FaultStep(data: seq<Record>, part: string)
    requires data != []
    ensures (forall i :: 0 <= i < |data| ==> Countable(data[i], part)) <==>
            Countable(data[0], part) && forall i :: 0 <= i < |data[1..]| ==> Countable(data[1..][i], part)
    ensures !Countable(data[0], part) ==> FirstFault(data, part, 0)
    ensures Countable(data[0], part) ==>
              forall k :: FirstFault(data[1..], part, k) ==>
                FirstFault(data, part, k + 1) && Fault(data[1..][k], part) == Fault(data[k + 1], part)
  {
    forall i | 0 <= i < |data[1..]|
      ensures data[1..][i] == data[i + 1]
    {
    }
    if Countable(data[0], part) && forall i :: 0 <= i < |data[1..]| ==> Countable(data[1..][i], part) {
      forall i | 0 < i < |data|
        ensures Countable(data[i], part)
      {
        assert data[i] == data[1..][i - 1];
      }
    }
  }

  /** The values one location part contributes to its count, read record by
      record: false parts are skipped and `rename` is applied to the others.
      The first record that cannot be read or whose part is not hashable
      stops the loop with its exception. */
  function PartValues(data: seq<Record>, part: string, rename: Json -> Json): (r: Result<seq<Json>, Error>)
    ensures r.Success? <==> forall i :: 0 <= i < |data| ==> Countable(data[i], part)
    ensures r.Failure? ==> exists k :: FirstFault(data, part, k) && r.error == Fault(data[k], part)
    ensures r.Success? ==> r.value == Counted(data, part, rename)
  {
    if data == [] then Success([])
    else
      CountedStep(data, part, rename);
      FaultStep(data, part);
      match LocationPart(data[0], part)
      case Failure(e) => Failure(e)
      case Success(v) =>
        if Truthy(v) && !Hashable(v) then Failure(TypeError)
        else
          match PartValues(data[1..], part, rename)
          case Failure(e) => Failure(e)
          case Success(rest) => if Truthy(v) then Success([rename(v)] + rest) else Success(rest)
  }

  const RegionKey: string := "region"
  const CountryKey: string := "country"

  /** The counts behind `analyze_province_distribution`. Records are read in
      order and the first that raises ends the analysis with its exception.
      Otherwise each province is listed once, exactly when some record's true
      region is counted under it, with the number of such records. */
  function ProvinceCounts(data: seq<Record>): (r: Result<seq<(Json, nat)>, Error>)
    ensures data == [] ==> r == Success([])
    ensures r.Success? <==> forall i :: 0 <= i < |data| ==> Countable(data[i], RegionKey)
    ensures r.Failure? ==> exists k :: FirstFault(data, RegionKey, k) && r.error == Fault(data[k], RegionKey)
    ensures r.Success? ==> Seqs.NoDuplicates(Keys(r.value))
    ensures r.Success? ==> forall p :: p in Keys(r.value) <==> p in Counted(data, RegionKey, Province)
    ensures r.Success? ==> forall i :: 0 <= i < |r.value| ==>
              r.value[i].1 == multiset(Counted(data, RegionKey, Province))[r.value[i].0]
    ensures r.Success? ==> forall i :: 0 <= i < |r.value| ==> 1 <= r.value[i].1 <= |data|
  {
    var regions :- PartValues(data, RegionKey, Province);
    TallyBound(regions);
    Success(Tally(regions))
  }

  /** The counts behind `analyze_country_percentage`, read as the province
      counts are, with each true country counted as it is. */
  function CountryCounts(data: seq<Record>): (r: Result<seq<(Json, nat)>, Error>)
    ensures data == [] ==> r == Success([])
    ensures r.Success? <==> forall i :: 0 <= i < |data| ==> Countable(data[i], CountryKey)
    ensures r.Failure? ==> exists k :: FirstFault(data, CountryKey, k) && r.error == Fault(data[k], CountryKey)
    ensures r.Success? ==> Seqs.NoDuplicates(Keys(r.value))
    ensures r.Success? ==> forall c :: c in Keys(r.value) <==> c in Counted(data, CountryKey, Same)
    ensures r.Success? ==> forall i :: 0 <= i < |r.value| ==>
              r.value[i].1 == multiset(Counted(data, CountryKey, Same))[r.value[i].0]
    ensures r.Success? ==> forall i :: 0 <= i < |r.value| ==> 1 <= r.value[i].1 <= |data|
  {
    var countries :- PartValues(data, CountryKey, Same);
    TallyBound(countries);
    Success(Tally(countries))
  }

  /** No renaming. */
  function Same(v: Json): Json {
    v
  }

  /** A counted value is a renamed true part of some record, and every renamed
      true part is counted. */
  lemma CountedFrom(data: seq<Record>, part: string, rename: Json -> Json, x: Json)
    ensures x in Counted(data, part, rename) <==>
            exists i :: 0 <= i < |data| && Truthy(PartAt(data[i], part)) && rename(PartAt(data[i], part)) == x
  {
    if x in Counted(data, part, rename) {
      CountedHasSource(data, part, rename, x);
    }
    if exists i :: 0 <= i < |data| && Truthy(PartAt(data[i], part)) && rename(PartAt(data[i], part)) == x {
      var i :| 0 <= i < |data| && Truthy(PartAt(data[i], part)) && rename(PartAt(data[i], part)) == x;
      SourceIsCounted(data, part, rename, i);
    }
  }

  lemma CountedHasSource(data: seq<Record>, part: string, rename: Json -> Json, x: Json)
    requires x in Counted(data, part, rename)
    ensures exists i :: 0 <= i < |data| && Truthy(PartAt(data[i], part)) && rename(PartAt(data[i], part)) == x
  {
    var parts := Parts(data, part);
    var kept := Seqs.Filter(parts, Truthy);
    var c := Counted(data, part, rename);
    var k :| 0 <= k < |c| && c[k] == x;
    assert kept[k] in kept;
    var i :| 0 <= i < |parts| && parts[i] == kept[k];
    assert Truthy(PartAt(data[i], part)) && rename(PartAt(data[i], part)) == x;
  }

  lemma SourceIsCounted(data: seq<Record>, part: string, rename: Json -> Json, i: int)
    requires 0 <= i < |data| && Truthy(PartAt(data[i], part))
    ensures rename(PartAt(data[i], part)) in Counted(data, part, rename)
  {
    var parts := Parts(data, part);
    var kept := Seqs.Filter(parts, Truthy);
    assert parts[i] in parts;
    var k :| 0 <= k < |kept| && kept[k] == parts[i];
    assert Counted(data, part, rename)[k] == rename(PartAt(data[i], part));
  }

  /** Every country listed is the true country of some record, and every
      record's true country is listed. */
  lemma CountryCountsRecords(data: seq<Record>)
    requires CountryCounts(data).Success?
    ensures forall c :: c in Keys(CountryCounts(data).value) <==>
                        exists i :: 0 <= i < |data| && Truthy(PartAt(data[i], CountryKey)) && PartAt(data[i], CountryKey) == c
  {
    forall c
      ensures c in Counted(data, CountryKey, Same) <==>
              exists i :: 0 <= i < |data| && Truthy(PartAt(data[i], CountryKey)) && Same(PartAt(data[i], CountryKey)) == c
    {
      CountedFrom(data, CountryKey, Same, c);
    }
  }

  /** The first record that raises decides the exception, whatever the later
      records hold: an unhashable region in the first record raises
      `TypeError` although the second record's location is not a dict. */
  lemma UnhashableRegionRaisesFirst()
    ensures var first := map[CleanedLocationKey := JObj(map[RegionKey := JArr([JNum(1)])])];
            var second := map[CleanedLocationKey := JNum(5)];
            ProvinceCounts([first, second]) == Failure(TypeError)
  {
    var first := map[CleanedLocationKey := JObj(map[RegionKey := JArr([JNum(1)])])];
    var second := map[CleanedLocationKey := JNum(5)];
    assert !Countable(first, RegionKey);
    assert FirstFault([first, second], RegionKey, 0);
  }

  /** Number of records whose region is one of `names`. */
  function RegionsAmong(data: seq<Record>, names: set<Json>): nat {
    if data == [] then 0
    else (if PartAt(data[0], RegionKey) in names then 1 else 0) + RegionsAmong(data[1..], names)
  }

  /** "Madrid" counts the records in Madrid or the Community of Madrid, and
      "Barcelona" those in Barcelona or Catalonia. */
  lemma ProvinceMerges(data: seq<Record>)
    ensures var regions := Counted(data, RegionKey, Province);
            && multiset(regions)[JStr("Madrid")] == RegionsAmong(data, {JStr("Madrid"), JStr("Community of Madrid")})
            && multiset(regions)[JStr("Barcelona")] == RegionsAmong(data, {JStr("Barcelona"), JStr("Catalonia")})
  {
    var madrid := {JStr("Madrid"), JStr("Community of Madrid")};
    var barcelona := {JStr("Barcelona"), JStr("Catalonia")};
    forall x
      ensures (x in madrid <==> Truthy(x) && Province(x) == JStr("Madrid"))
      ensures (x in barcelona <==> Truthy(x) && Province(x) == JStr("Barcelona"))
    {
      match x
      case JStr(t) =>
      case JNull =>
      case JNum(_) =>
      case JArr(_) =>
      case JObj(_) =>
    }
    CountedUnder(data, JStr("Madrid"), madrid);
    CountedUnder(data, JStr("Barcelona"), barcelona);
  }

  /** The count under a province is the number of records whose region is one
      of the names counted under it. */
  lemma {:induction false} CountedUnder(data: seq<Record>, target: Json, names: set<Json>)
    requires forall x :: x in names <==> Truthy(x) && Province(x) == target
    ensures multiset(Counted(data, RegionKey, Province))[target] == RegionsAmong(data, names)
  {
    if data != [] {
      CountedUnder(data[1..], target, names);
      CountedStep(data, RegionKey, Province);
      var v := PartAt(data[0], RegionKey);
      var head := if Truthy(v) then [Province(v)] else [];
      assert multiset(Counted(data, RegionKey, Province)) == multiset(head) + multiset(Counted(data[1..], RegionKey, Province));
      assert multiset(head)[target] == if v in names then 1 else 0;
    }
  }

  // ---------------------------------------------------------------------------
  // calculate_completion_percentage
  // ---------------------------------------------------------------------------

  /** The number of records with a true value at `key`: what
      `calculate_completion_percentage` divides by the number of records. */
  function CompletionCount(data: seq<Record>, key: string): (n: nat)
    ensures n == multiset(Filled(data, key))[true]
    ensures n <= |data|
    ensures n == 0 <==> forall i :: 0 <= i < |data| ==> !Truthy(Get(data[i], key))
    ensures n == |data| <==> forall i :: 0 <= i < |data| ==> Truthy(Get(data[i], key))
  {
    if data == [] then 0
    else
      var rest := CompletionCount(data[1..], key);
      CompletionStep(data, key);
      (if Truthy(Get(data[0], key)) then 1 else 0) + rest
  }

  /** Whether each record has a true value at `key`, in order. */
  function Filled(data: seq<Record>, key: string): (f: seq<bool>)
    ensures |f| == |data| && forall i :: 0 <= i < |data| ==> f[i] == Truthy(Get(data[i], key))
  {
    seq(|data|, i requires 0 <= i < |data| => Truthy(Get(data[i], key)))
  }

  /** One record off the front of the completion count. */
  lemma CompletionStep(data: seq<Record>, key: string)
    requires data != []
    ensures Filled(data, key) == [Truthy(Get(data[0], key))] + Filled(data[1..], key)
    ensures forall i :: 1 <= i < |data| ==> data[i] == data[1..][i - 1]
  {
  }

  /** Completion counts over two batches of records add up. */
  lemma {:induction false} CompletionAppend(a: seq<Record>, b: seq<Record>, key: string)
    ensures CompletionCount(a + b, key) == CompletionCount(a, key) + CompletionCount(b, key)
  {
    if a == [] {
      assert a + b == b;
    } else {
      assert (a + b)[0] == a[0] && (a + b)[1..] == a[1..] + b;
      CompletionAppend(a[1..], b, key);
    }
  }
}
