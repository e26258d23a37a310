/** The credential checks of `src/ConfigManager.py`: the e-mail format test
    and the order in which `validate_secrets` rejects a secrets document. */
module ConfigManager {
  import opened Wrappers
  import opened PyValues
  import Text

  // ---------------------------------------------------------------------------
  // validate_email
  // ---------------------------------------------------------------------------

  /** `[a-zA-Z0-9._%+-]` */
  predicate LocalChar(c: char) {
    Text.IsAsciiAlnum(c) || c == '.' || c == '_' || c == '%' || c == '+' || c == '-'
  }

  /** `[a-zA-Z0-9.-]` */
  predicate DomainChar(c: char) {
    Text.IsAsciiAlnum(c) || c == '.' || c == '-'
  }

  /** `[a-zA-Z0-9._%+-]+` */
  predicate LocalPart(l: string) {
    l != [] && forall i :: 0 <= i < |l| ==> LocalChar(l[i])
  }

  /** `[a-zA-Z0-9.-]+\.[a-zA-Z]{2,}` matches `d` with its `\.` at `k`. */
  predicate DomainSplitAt(d: string, k: int) {
    && 1 <= k && k + 3 <= |d| && d[k] == '.'
    && (forall j :: 0 <= j < k ==> DomainChar(d[j]))
    && (forall j :: k < j < |d| ==> Text.IsAsciiLetter(d[j]))
  }

  ghost predicate DomainPart(d: string) {
    exists k :: DomainSplitAt(d, k)
  }

  /** The pattern without its anchors matches the whole of `s`, with `@` at some `i`. */
  ghost predicate CoreShape(s: string) {
    exists i :: 0 <= i < |s| && s[i] == '@' && LocalPart(s[..i]) && DomainPart(s[i + 1..])
  }

  /** What `re.match` with `^…$` accepts: the pattern over the whole string,
      or over all of it but one final newline, which `$` lets through. */
  ghost predicate EmailShape(s: string) {
    || CoreShape(s)
    || (|s| > 0 && s[|s| - 1] == '\n' && CoreShape(s[..|s| - 1]))
  }

  /** Index of the first `c` in `s`. */
  function FirstIndexOf(s: string, c: char): (r: Option<nat>)
    ensures r.None? ==> c !in s
    ensures r.Some? ==> r.value < |s| && s[r.value] == c && c !in s[..r.value]
  {
    if s == [] then None
    else if s[0] == c then Some(0)
    else match FirstIndexOf(s[1..], c)
      case None => None
      case Some(i) =>
        assert s[..i + 1] == [s[0]] + s[1..][..i];
        Some(i + 1)
  }

  /** Index of the last `c` in `s`. */
  function LastIndexOf(s: string, c: char): (r: Option<nat>)
    ensures r.None? ==> c !in s
    ensures r.Some? ==> r.value < |s| && s[r.value] == c && forall j :: r.value < j < |s| ==> s[j] != c
  {
    if s == [] then None
    else if s[|s| - 1] == c then Some(|s| - 1)
    else
      var front := s[..|s| - 1];
      assert s == front + [s[|s| - 1]];
      LastIndexOf(front, c)
  }

  /** Checks a domain by its last dot: letters only after it, at least two of
      them, and at least one character before it. */
  function CheckDomain(d: string): bool {
    && (forall j :: 0 <= j < |d| ==> DomainChar(d[j]))
    && match LastIndexOf(d, '.')
       case None => false
       case Some(k) => 1 <= k && k + 3 <= |d| && forall j :: k < j < |d| ==> Text.IsAsciiLetter(d[j])
  }

  lemma CheckDomainIff(d: string)
    ensures CheckDomain(d) <==> DomainPart(d)
  {
    match LastIndexOf(d, '.')
    case None =>
      assert forall k :: !DomainSplitAt(d, k);
    case Some(last) =>
      if CheckDomain(d) {
        assert DomainSplitAt(d, last);
      }
      if DomainPart(d) {
        var k :| DomainSplitAt(d, k);
        assert k == last by {
          assert k <= last;
          assert !(k < last) by {
            assert forall j :: k < j < |d| ==> d[j] != '.';
          }
        }
        assert forall j :: 0 <= j < |d| ==> DomainChar(d[j]) by {
          forall j | 0 <= j < |d|
            ensures DomainChar(d[j])
          {
            assert j < k || j == k || k < j;
          }
        }
      }
  }

  /** Checks a string without the trailing newline allowance: the local part
      runs up to the first `@`, the domain is the rest. */
  function CheckCore(s: string): bool {
    match FirstIndexOf(s, '@')
    case None => false
    case Some(i) => LocalPart(s[..i]) && CheckDomain(s[i + 1..])
  }

  lemma CheckCoreIff(s: string)
    ensures CheckCore(s) <==> CoreShape(s)
  {
    match FirstIndexOf(s, '@')
    case None =>
    case Some(first) =>
      CheckDomainIff(s[first + 1..]);
      if CoreShape(s) {
        var i :| 0 <= i < |s| && s[i] == '@' && LocalPart(s[..i]) && DomainPart(s[i + 1..]);
        assert i == first by {
          assert first <= i by {
            assert '@' !in s[..first];
          }
          assert forall j :: 0 <= j < i ==> s[j] != '@' by {
            forall j | 0 <= j < i
              ensures s[j] != '@'
            {
              assert LocalChar(s[..i][j]);
            }
          }
        }
      }
  }

  /** Whatever `CoreShape` accepts ends in a letter, so never in a newline. */
  lemma CoreShapeEndsInLetter(s: string)
    ensures CoreShape(s) ==> |s| > 0 && Text.IsAsciiLetter(s[|s| - 1])
  {
    if !CoreShape(s) {
      return;
    }
    var i :| 0 <= i < |s| && s[i] == '@' && LocalPart(s[..i]) && DomainPart(s[i + 1..]);
    var d := s[i + 1..];
    var k :| DomainSplitAt(d, k);
    assert d[|d| - 1] == s[|s| - 1];
  }

  /** `validate_email`. */
  function ValidateEmail(s: string): (ok: bool)
    ensures ok <==> EmailShape(s)
  {
    if |s| > 0 && s[|s| - 1] == '\n' then
      CheckCoreIff(s[..|s| - 1]);
      CoreShapeEndsInLetter(s);
      CheckCore(s[..|s| - 1])
    else
      CheckCoreIff(s);
      CheckCore(s)
  }

  /** What `CoreShape` accepts has exactly one `@`. */
  lemma CoreOneAtSign(s: string)
    requires CoreShape(s)
    ensures multiset(s)['@'] == 1
  {
    var i :| 0 <= i < |s| && s[i] == '@' && LocalPart(s[..i]) && DomainPart(s[i + 1..]);
    var l, d := s[..i], s[i + 1..];
    var k :| DomainSplitAt(d, k);
    assert '@' !in l by {
      forall j | 0 <= j < |l|
        ensures l[j] != '@'
      {
        assert LocalChar(l[j]);
      }
    }
    assert '@' !in d by {
      forall j | 0 <= j < |d|
        ensures d[j] != '@'
      {
        assert j < k || j == k || k < j;
      }
    }
    assert s == l + ['@'] + d;
    assert multiset(s) == multiset(l) + multiset{'@'} + multiset(d);
  }

  /** An accepted address has exactly one `@`. */
  lemma OneAtSign(s: string)
    requires EmailShape(s)
    ensures multiset(s)['@'] == 1
  {
    if CoreShape(s) {
      CoreOneAtSign(s);
    } else {
      var core := s[..|s| - 1];
      CoreOneAtSign(core);
      assert s == core + ['\n'];
      assert multiset(s) == multiset(core) + multiset{'\n'};
    }
  }

  /** A one-letter top-level domain is too short. */
  lemma ShortTopLevelRejected()
    ensures !EmailShape("a@b.c")
  {
    assert !ValidateEmail("a@b.c") by {
      assert LastIndexOf("b.c", '.') == Some(1);
    }
  }

  lemma PlainAddressAccepted()
    ensures EmailShape("a@b.co")
  {
    assert ValidateEmail("a@b.co") by {
      assert FirstIndexOf("a@b.co", '@') == Some(1);
      assert LastIndexOf("b.co", '.') == Some(1);
    }
  }

  /** `$` also matches just before a final newline. */
  lemma TrailingNewlineAccepted()
    ensures EmailShape("a@b.co\n")
  {
    assert ValidateEmail("a@b.co\n") by {
      assert "a@b.co\n"[..6] == "a@b.co";
      PlainAddressAccepted();
      CheckCoreIff("a@b.co");
    }
  }

  /** Two `@` at different places count twice. */
  lemma TwoAtSignsCount(s: string, i: nat, j: nat)
    requires i < j < |s| && s[i] == '@' && s[j] == '@'
    ensures multiset(s)['@'] >= 2
  {
    assert s == s[..j] + s[j..];
    assert s[i] in s[..j];
    assert s[j..][0] == s[j];
    assert multiset(s) == multiset(s[..j]) + multiset(s[j..]);
  }

  /** Two `@` are one too many. */
  lemma TwoAtSignsRejected()
    ensures !EmailShape("a@b@c.co")
  {
    var s := "a@b@c.co";
    TwoAtSignsCount(s, 1, 3);
    if EmailShape(s) {
      OneAtSign(s);
    }
  }

  // ---------------------------------------------------------------------------
  // validate_secrets
  // ---------------------------------------------------------------------------

  /** The reasons `validate_secrets` raises `ConfigError` for. */
  datatype ConfigReason = MissingSecret(secret: string) | InvalidEmailFormat | EmptyPassword

  /** A `ConfigError`, or a Python exception raised before one could be. */
  datatype SecretsError = ConfigError(reason: ConfigReason) | Raised(error: Error)

  /** The e-mail and the password value of an accepted secrets document. */
  datatype Credentials = Credentials(email: string, password: Json)

  const MandatorySecrets: seq<string> := ["email", "password"]

  /** `name in secrets` for whatever the YAML document turned out to be: a key
      of a dict, an item of a list, a substring of a string; anything else
      cannot be searched. */
  function HasSecret(secrets: Json, name: string): (r: Result<bool, SecretsError>)
    ensures secrets.JObj? ==> r == Success(name in secrets.fields)
    ensures r.Failure? <==> secrets.JNull? || secrets.JNum?
  {
    match secrets
    case JObj(fields) => Success(name in fields)
    case JArr(items) => Success(JStr(name) in items)
    case JStr(s) => Success(Text.Contains(s, name))
    case _ => Failure(Raised(TypeError))
  }

  /** The loop over the mandatory secrets: the first one missing is reported. */
  function CheckMandatory(secrets: Json, names: seq<string>): (r: Result<(), SecretsError>)
    ensures (secrets.JNull? || secrets.JNum?) ==> r == if names == [] then Success(()) else Failure(Raised(TypeError))
    ensures r.Success? <==> forall i :: 0 <= i < |names| ==> HasSecret(secrets, names[i]) == Success(true)
    ensures r.Failure? && !secrets.JNull? && !secrets.JNum? ==>
              exists k :: FirstMissing(secrets, names, k) && r == Failure(ConfigError(MissingSecret(names[k])))
  {
    if names == [] then Success(())
    else
      var present :- HasSecret(secrets, names[0]);
      if !present then
        assert FirstMissing(secrets, names, 0);
        Failure(ConfigError(MissingSecret(names[0])))
      else
        var r := CheckMandatory(secrets, names[1..]);
        assert r.Success? ==> forall i :: 0 <= i < |names| ==> HasSecret(secrets, names[i]) == Success(true) by {
          if r.Success? {
            forall i | 0 < i < |names|
              ensures HasSecret(secrets, names[i]) == Success(true)
            {
              assert names[i] == names[1..][i - 1];
            }
          }
        }
        if r.Failure? then
          var k :| FirstMissing(secrets, names[1..], k) && r == Failure(ConfigError(MissingSecret(names[1..][k])));
          FirstMissingCons(secrets, names, k);
          r
        else r
  }

  /** `names[k]` is the first name the document lacks; all before it are there. */
  predicate FirstMissing(secrets: Json, names: seq<string>, k: int) {
    && 0 <= k < |names|
    && HasSecret(secrets, names[k]) == Success(false)
    && forall i :: 0 <= i < k ==> HasSecret(secrets, names[i]) == Success(true)
  }

  lemma FirstMissingCons(secrets: Json, names: seq<string>, k: int)
    requires names != [] && HasSecret(secrets, names[0]) == Success(true)
    requires FirstMissing(secrets, names[1..], k)
    ensures FirstMissing(secrets, names, k + 1) && names[k + 1] == names[1..][k]
  {
    forall i | 0 < i < k + 1
      ensures HasSecret(secrets, names[i]) == Success(true)
    {
      assert names[i] == names[1..][i - 1];
    }
  }

  /** On a dict, the loop reports `email` first, then `password`. */
  lemma CheckMandatoryOfDict(fields: map<string, Json>)
    ensures CheckMandatory(JObj(fields), MandatorySecrets) ==
              if "email" !in fields then Failure(ConfigError(MissingSecret("email")))
              else if "password" !in fields then Failure(ConfigError(MissingSecret("password")))
              else Success(())
  {
    var secrets := JObj(fields);
    var rest := MandatorySecrets[1..];
    assert MandatorySecrets[0] == "email" && rest == ["password"];
    assert rest[0] == "password" && rest[1..] == [];
    assert CheckMandatory(secrets, rest[1..]) == Success(());
    assert CheckMandatory(secrets, rest) ==
             if "password" !in fields then Failure(ConfigError(MissingSecret("password"))) else Success(());
  }

  /** `validate_secrets` on the loaded document: the mandatory keys first, in
      order, then the address format, then the password. */
  function ValidateSecrets(secrets: Json): (r: Result<Credentials, SecretsError>)
    ensures secrets.JObj? && "email" !in secrets.fields ==>
              r == Failure(ConfigError(MissingSecret("email")))
    ensures secrets.JObj? && "email" in secrets.fields && "password" !in secrets.fields ==>
              r == Failure(ConfigError(MissingSecret("password")))
    ensures secrets.JObj? && "email" in secrets.fields && "password" in secrets.fields
            && secrets.fields["email"].JStr? && !EmailShape(secrets.fields["email"].s) ==>
              r == Failure(ConfigError(InvalidEmailFormat))
    ensures secrets.JObj? && "email" in secrets.fields && "password" in secrets.fields
            && secrets.fields["email"].JStr? && EmailShape(secrets.fields["email"].s)
            && !Truthy(secrets.fields["password"]) ==>
              r == Failure(ConfigError(EmptyPassword))
    ensures secrets.JNull? || secrets.JNum? ==> r == Failure(Raised(TypeError))
    ensures r.Success? <==>
              && secrets.JObj? && "email" in secrets.fields && "password" in secrets.fields
              && secrets.fields["email"].JStr? && EmailShape(secrets.fields["email"].s)
              && Truthy(secrets.fields["password"])
    ensures r.Success? ==> r.value == Credentials(secrets.fields["email"].s, secrets.fields["password"])
  {
    match secrets
    case JObj(fields) =>
      CheckMandatoryOfDict(fields);
      var _ :- CheckMandatory(secrets, MandatorySecrets);
      var email := fields["email"];
      var password := fields["password"];
      if !email.JStr? then Failure(Raised(TypeError))
      else if !ValidateEmail(email.s) then Failure(ConfigError(InvalidEmailFormat))
      else if !Truthy(password) then Failure(ConfigError(EmptyPassword))
      else Success(Credentials(email.s, password))
    case JArr(_) =>
      // Both keys found in a list or a string still cannot be subscripted by name.
      var _ :- CheckMandatory(secrets, MandatorySecrets);
      Failure(Raised(TypeError))
    case JStr(_) =>
      var _ :- CheckMandatory(secrets, MandatorySecrets);
      Failure(Raised(TypeError))
    case JNull => Failure(Raised(TypeError))
    case JNum(_) => Failure(Raised(TypeError))
  }

  // ---------------------------------------------------------------------------
  // str() of the password
  // ---------------------------------------------------------------------------

  function DigitChar(d: nat): char
    requires d < 10
  {
    "0123456789"[d]
  }

  /** The decimal digits of `n`, most significant first, without leading zeros. */
  function Digits(n: nat): (s: string)
    ensures s != [] && forall i :: 0 <= i < |s| ==> Text.IsAsciiDigit(s[i])
    ensures |s| > 1 ==> s[0] != '0'
  {
    if n < 10 then [DigitChar(n)] else Digits(n / 10) + [DigitChar(n % 10)]
  }

  /** Reads a run of decimal digits back. */
  function ParseDigits(s: string): nat
    requires forall i :: 0 <= i < |s| ==> Text.IsAsciiDigit(s[i])
  {
    if s == [] then 0
    else
      assert Text.IsAsciiDigit(s[|s| - 1]);
      ParseDigits(s[..|s| - 1]) * 10 + (s[|s| - 1] as int - '0' as int)
  }

  lemma {:induction false} DigitsRoundTrip(n: nat)
    ensures ParseDigits(Digits(n)) == n
  {
    if n >= 10 {
      DigitsRoundTrip(n / 10);
      var s := Digits(n);
      assert s[..|s| - 1] == Digits(n / 10);
    }
  }

  /** `str()` of a scalar JSON value: the string itself, or an integer in
      decimal with a leading `-` when negative. */
  function Str(v: Json): (r: Option<string>)
    ensures r.Some? <==> v.JStr? || v.JNum?
    ensures v.JStr? ==> r == Some(v.s)
    ensures v.JNum? ==> r.value != [] && (v.n < 0 <==> r.value[0] == '-')
    ensures v.JNum? ==> forall i :: (if v.n < 0 then 1 else 0) <= i < |r.value| ==> Text.IsAsciiDigit(r.value[i])
  {
    match v
    case JStr(s) => Some(s)
    case JNum(n) => Some(if n < 0 then "-" + Digits(-n) else Digits(n))
    case _ => None
  }

  /** `str()` of an integer loses nothing: it reads back as the same number. */
  lemma StrOfNumberRoundTrip(n: int)
    ensures Str(JNum(n)).Some?
    ensures var s := Str(JNum(n)).value;
            && s != []
            && (n < 0 <==> s[0] == '-')
            && (n >= 0 ==> ParseDigits(s) == n)
            && (n < 0 ==> ParseDigits(s[1..]) == -n)
  {
    if n < 0 {
      DigitsRoundTrip(-n);
      assert ("-" + Digits(-n))[1..] == Digits(-n);
    } else {
      DigitsRoundTrip(n);
    }
  }
}
