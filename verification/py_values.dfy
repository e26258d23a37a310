/** The JSON-shaped Python values the scraper stores and reads back, and the
    Python exceptions its operations raise. */
module PyValues {
  import opened Wrappers

  /** A value produced by `json.load`: `None`, an integer, a string, a list or
      a dict with string keys. */
  datatype Json =
    | JNull
    | JNum(n: int)
    | JStr(s: string)
    | JArr(items: seq<Json>)
    | JObj(fields: map<string, Json>)

  /** The Python exceptions the modelled code can raise. */
  datatype Error =
    | ValueError(message: string)
    | KeyError(key: string)
    | TypeError
    | AttributeError
    | NavigationError(url: string)

  /** Python's truthiness: `None`, `0`, `""`, `[]` and `{}` are false. */
  predicate Truthy(v: Json) {
    match v
    case JNull => false
    case JNum(n) => n != 0
    case JStr(s) => s != ""
    case JArr(items) => items != []
    case JObj(fields) => fields != map[]
  }

  /** Python's `v[key]` with a string key: a dict lookup that raises `KeyError`
      for a missing key, and `TypeError` on anything that is not a dict. */
  function Subscript(v: Json, key: string): (r: Result<Json, Error>)
    ensures r.Success? <==> v.JObj? && key in v.fields
    ensures r.Success? ==> r.value == v.fields[key]
    ensures v.JObj? && key !in v.fields ==> r == Failure(KeyError(key))
    ensures !v.JObj? ==> r == Failure(TypeError)
  {
    match v
    case JObj(fields) => if key in fields then Success(fields[key]) else Failure(KeyError(key))
    case _ => Failure(TypeError)
  }

  /** Python's `d.get(key)` on a dict: `None` for a missing key. */
  function Get(d: map<string, Json>, key: string): Json {
    if key in d then d[key] else JNull
  }

  /** A Python `str` or `None`, read from a stored value. */
  predicate IsText(v: Json) {
    v.JNull? || v.JStr?
  }

  /** The string inside a value satisfying `IsText`. */
  function TextOf(v: Json): Option<string>
    requires IsText(v)
  {
    if v.JStr? then Some(v.s) else None
  }

  /** A string wrapped as a stored value, `None` as `null`. */
  function OptText(s: Option<string>): (v: Json)
    ensures IsText(v) && TextOf(v) == s
  {
    match s
    case Some(t) => JStr(t)
    case None => JNull
  }

  /** A list of strings as a JSON list. */
  function Texts(xs: seq<string>): (r: seq<Json>)
    ensures |r| == |xs| && forall i :: 0 <= i < |xs| ==> r[i] == JStr(xs[i])
  {
    seq(|xs|, i requires 0 <= i < |xs| => JStr(xs[i]))
  }

  /** The strings of a JSON list whose items are all strings. */
  function Strings(items: seq<Json>): (r: Option<seq<string>>)
    ensures r.Some? <==> forall i :: 0 <= i < |items| ==> items[i].JStr?
    ensures r.Some? ==> Texts(r.value) == items
  {
    if items == [] then Some([])
    else if !items[0].JStr? then None
    else match Strings(items[1..])
      case None => None
      case Some(rest) =>
        assert items == [items[0]] + items[1..];
        Some([items[0].s] + rest)
  }

  /** Reading a JSON list of strings back gives the strings. */
  lemma {:induction false} StringsOfTexts(xs: seq<string>)
    ensures Strings(Texts(xs)) == Some(xs)
  {
    if xs != [] {
      StringsOfTexts(xs[1..]);
      assert Texts(xs)[0] == JStr(xs[0]);
      assert Texts(xs)[1..] == Texts(xs[1..]);
      assert xs == [xs[0]] + xs[1..];
    }
  }
}
