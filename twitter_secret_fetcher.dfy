/**
 * The credential store: secrets are read from lines of the form `NAME=value` and memoised in a
 * process-wide cache. The file's lines (as `readlines` returns them, each with its newline) are a
 * parameter of every lookup, None when the file does not exist.
 */
module SecretFetcher {
  import opened Results
  import opened Text

  const ApiKeyName: string := "API_KEY"
  const ApiSecretKeyName: string := "API_SECRET_KEY"
  const AccessTokenName: string := "ACCESS_TOKEN"
  const AccessTokenSecretName: string := "ACCESS_TOKEN_SECRET"

  /** None of the four names contains '='. */
  lemma NamesHaveNoEquals()
    ensures '=' !in ApiKeyName && '=' !in ApiSecretKeyName
    ensures '=' !in AccessTokenName && '=' !in AccessTokenSecretName
  {
  }

  /** The exceptions a lookup can raise. */
  datatype Failure =
    | FileNotFound   // the secrets file is missing and the name is not cached
    | IndexError     // the first matching line has no '=' to split on

  /** Index of the first line that starts with `name`, if any. */
  function FirstMatch(lines: seq<string>, name: string): (r: Option<nat>)
    ensures r.Some? ==> r.value < |lines| && StartsWith(lines[r.value], name) &&
                        forall j :: 0 <= j < r.value ==> !StartsWith(lines[j], name)
    ensures r.None? ==> forall j :: 0 <= j < |lines| ==> !StartsWith(lines[j], name)
  {
    if lines == [] then None
    else if StartsWith(lines[0], name) then Some(0)
    else match FirstMatch(lines[1..], name)
      case None => None
      case Some(i) => Some(i + 1)
  }

  /** The secret on a matching line: its second '='-field, stripped. */
  function ValueOf(line: string): (r: Result<string, Failure>)
    ensures r.Err? <==> '=' !in line
    ensures r.Ok? ==> r.value == Strip(Split(line, '=')[1]) && Strip(r.value) == r.value
  {
    SplitSecondField(line, '=');
    var fields := Split(line, '=');
    if |fields| >= 2 then StripIdempotent(fields[1]); Ok(Strip(fields[1])) else Err(IndexError)
  }

  /** `get_secret` as a function of the cache and the file: the result and the new cache. */
  function GetSecretSpec(cache: map<string, string>, file: Option<seq<string>>, name: string)
    : (Result<string, Failure>, map<string, string>)
  {
    if name in cache then (Ok(cache[name]), cache)
    else if file.None? then (Err(FileNotFound), cache)
    else match FirstMatch(file.value, name)
      case None => (Ok(""), cache)
      case Some(i) =>
        match ValueOf(file.value[i])
        case Err(e) => (Err(e), cache)
        case Ok(v) => (Ok(v), cache[name := v])
  }

  /** `secret_cache` and the functions that read through it. */
  class SecretStore {
    var cache: map<string, string>

    constructor()
      ensures cache == map[]
    {
      cache := map[];
    }

    /** `get_secret`: a cache hit returns at once; otherwise the first line starting with `name` decides. */
    method GetSecret(file: Option<seq<string>>, name: string) returns (r: Result<string, Failure>)
      modifies this
      ensures (r, cache) == GetSecretSpec(old(cache), file, name)
    {
      if name in cache {
        return Ok(cache[name]);
      }
      if file.None? {
        return Err(FileNotFound);
      }
      var lines := file.value;
      for i := 0 to |lines|
        invariant forall j :: 0 <= j < i ==> !StartsWith(lines[j], name)
        invariant cache == old(cache)
      {
        if StartsWith(lines[i], name) {
          assert FirstMatch(lines, name) == Some(i);
          var fields := Split(lines[i], '=');
          if |fields| < 2 {
            return Err(IndexError);
          }
          var secret := Strip(fields[1]);
          cache := cache[name := secret];
          return Ok(secret);
        }
      }
      return Ok("");
    }

    /** `get_api_key`. */
    method GetApiKey(file: Option<seq<string>>) returns (r: Result<string, Failure>)
      modifies this
      ensures (r, cache) == GetSecretSpec(old(cache), file, ApiKeyName)
    {
      r := GetSecret(file, ApiKeyName);
    }

    /** `get_api_secret_key`. */
    method GetApiSecretKey(file: Option<seq<string>>) returns (r: Result<string, Failure>)
      modifies this
      ensures (r, cache) == GetSecretSpec(old(cache), file, ApiSecretKeyName)
    {
      r := GetSecret(file, ApiSecretKeyName);
    }

    /** `get_access_token`. */
    method GetAccessToken(file: Option<seq<string>>) returns (r: Result<string, Failure>)
      modifies this
      ensures (r, cache) == GetSecretSpec(old(cache), file, AccessTokenName)
    {
      r := GetSecret(file, AccessTokenName);
    }

    /** `get_access_token_secret`. */
    method GetAccessTokenSecret(file: Option<seq<string>>) returns (r: Result<string, Failure>)
      modifies this
      ensures (r, cache) == GetSecretSpec(old(cache), file, AccessTokenSecretName)
    {
      r := GetSecret(file, AccessTokenSecretName);
    }
  }

  /** A cached secret is returned whatever the file holds, even when it is gone. */
  lemma CacheHitIgnoresFile(cache: map<string, string>, file1: Option<seq<string>>, file2: Option<seq<string>>, name: string)
    requires name in cache
    ensures GetSecretSpec(cache, file1, name) == GetSecretSpec(cache, file2, name)
    ensures GetSecretSpec(cache, file1, name).0 == Ok(cache[name])
  {
  }

  /** The cache only grows: existing entries are never overwritten, and at most `name` is added. */
  lemma CacheGrowsOnly(cache: map<string, string>, file: Option<seq<string>>, name: string)
    ensures var after := GetSecretSpec(cache, file, name).1;
            cache.Keys <= after.Keys && after.Keys <= cache.Keys + {name} &&
            forall k :: k in cache ==> after[k] == cache[k]
  {
  }

  /** A secret once found is stored: asking again gives the same answer and changes nothing, whatever
      the file holds by then. */
  lemma GetSecretIdempotent(cache: map<string, string>, file: Option<seq<string>>, later: Option<seq<string>>, name: string)
    requires name in GetSecretSpec(cache, file, name).1
    ensures var (r, after) := GetSecretSpec(cache, file, name);
            r == Ok(after[name]) && GetSecretSpec(after, later, name) == (r, after)
  {
  }

  /** With no matching line the answer is the empty string and nothing is cached, so the file is read
      again next time. */
  lemma MissNotCached(cache: map<string, string>, lines: seq<string>, name: string)
    requires name !in cache
    requires forall j :: 0 <= j < |lines| ==> !StartsWith(lines[j], name)
    ensures GetSecretSpec(cache, Some(lines), name) == (Ok(""), cache)
  {
  }

  /** On a miss the first line starting with `name` decides, and later lines are never looked at. */
  lemma FirstLineDecides(cache: map<string, string>, lines: seq<string>, rest: seq<string>, line: string, name: string)
    requires name !in cache
    requires forall j :: 0 <= j < |lines| ==> !StartsWith(lines[j], name)
    requires StartsWith(line, name)
    ensures GetSecretSpec(cache, Some(lines + [line] + rest), name).0 == ValueOf(line)
  {
    var all := lines + [line] + rest;
    assert all[|lines|] == line;
    assert FirstMatch(all, name) == Some(|lines|);
  }

  /** The line `name=value` as `readlines` returns it. */
  function Line(name: string, value: string): (line: string)
    ensures StartsWith(line, name)
    ensures forall k :: 0 <= k < |name| ==> line[k] == name[k]
  {
    var line := name + "=" + value + "\n";
    assert line[..|name|] == name;
    line
  }

  /** A line `name=value` with a trimmed value yields `value`. */
  lemma ValueOfLine(name: string, value: string)
    requires '=' !in name && '=' !in value
    requires value == [] || (!IsSpace(value[0]) && !IsSpace(value[|value| - 1]))
    ensures ValueOf(Line(name, value)) == Ok(value)
  {
    assert Line(name, value) == name + ['='] + (value + "\n");
    SplitKeyValue(name, value + "\n", '=');
    StripNewline(value);
  }

  /** A line whose `k`-th character differs from the name's does not start with it. */
  lemma DiffersAt(line: string, name: string, k: nat)
    requires k < |name| && k < |line| && line[k] != name[k]
    ensures !StartsWith(line, name)
  {
    if |name| <= |line| {
      assert line[..|name|][k] == line[k];
    }
  }

  /** The secrets file in the documented order, with trimmed values free of '='. */
  function DocumentedFile(apiKey: string, apiSecretKey: string, accessToken: string, accessTokenSecret: string)
    : seq<string>
  {
    [Line(ApiKeyName, apiKey), Line(ApiSecretKeyName, apiSecretKey),
     Line(AccessTokenName, accessToken), Line(AccessTokenSecretName, accessTokenSecret)]
  }

  predicate Trimmed(value: string) {
    '=' !in value && (value == [] || (!IsSpace(value[0]) && !IsSpace(value[|value| - 1])))
  }

  /** On an empty cache, the value on line `i` is returned when that line is the first for `name`. */
  lemma SecretOnLine(lines: seq<string>, i: nat, name: string, value: string)
    requires i < |lines| && lines[i] == Line(name, value)
    requires '=' !in name && Trimmed(value)
    requires forall j :: 0 <= j < i ==> !StartsWith(lines[j], name)
    ensures GetSecretSpec(map[], Some(lines), name).0 == Ok(value)
  {
    var before, after := lines[..i], lines[i + 1..];
    assert lines == before + [lines[i]] + after;
    forall j | 0 <= j < |before|
      ensures !StartsWith(before[j], name)
    {
      assert before[j] == lines[j];
    }
    FirstLineDecides(map[], before, after, lines[i], name);
    ValueOfLine(name, value);
  }

  /** The line for `other` does not match `name` when the two names differ at position `k`. */
  lemma OtherLine(other: string, value: string, name: string, k: nat)
    requires k < |other| && k < |name| && other[k] != name[k]
    ensures !StartsWith(Line(other, value), name)
  {
    DiffersAt(Line(other, value), name, k);
  }

  /** With the documented file and an empty cache, `get_api_key` returns the first value. */
  lemma DocumentedApiKey(a: string, b: string, c: string, d: string)
    requires Trimmed(a)
    ensures GetSecretSpec(map[], Some(DocumentedFile(a, b, c, d)), ApiKeyName).0 == Ok(a)
  {
    NamesHaveNoEquals();
    SecretOnLine(DocumentedFile(a, b, c, d), 0, ApiKeyName, a);
  }

  /** With the documented file and an empty cache, `get_api_secret_key` returns the second value:
      the `API_KEY` line before it does not start with `API_SECRET_KEY`. */
  lemma DocumentedApiSecretKey(a: string, b: string, c: string, d: string)
    requires Trimmed(b)
    ensures GetSecretSpec(map[], Some(DocumentedFile(a, b, c, d)), ApiSecretKeyName).0 == Ok(b)
  {
    NamesHaveNoEquals();
    OtherLine(ApiKeyName, a, ApiSecretKeyName, 4);
    SecretOnLine(DocumentedFile(a, b, c, d), 1, ApiSecretKeyName, b);
  }

  /** With the documented file and an empty cache, `get_access_token` returns the third value. */
  lemma DocumentedAccessToken(a: string, b: string, c: string, d: string)
    requires Trimmed(c)
    ensures GetSecretSpec(map[], Some(DocumentedFile(a, b, c, d)), AccessTokenName).0 == Ok(c)
  {
    NamesHaveNoEquals();
    OtherLine(ApiKeyName, a, AccessTokenName, 1);
    OtherLine(ApiSecretKeyName, b, AccessTokenName, 1);
    SecretOnLine(DocumentedFile(a, b, c, d), 2, AccessTokenName, c);
  }

  /** With the documented file and an empty cache, `get_access_token_secret` returns the fourth value:
      the `ACCESS_TOKEN` line differs from it at the '=' sign. */
  lemma DocumentedAccessTokenSecret(a: string, b: string, c: string, d: string)
    requires Trimmed(d)
    ensures GetSecretSpec(map[], Some(DocumentedFile(a, b, c, d)), AccessTokenSecretName).0 == Ok(d)
  {
    NamesHaveNoEquals();
    OtherLine(ApiKeyName, a, AccessTokenSecretName, 1);
    OtherLine(ApiSecretKeyName, b, AccessTokenSecretName, 1);
    assert Line(AccessTokenName, c)[12] == '=';
    DiffersAt(Line(AccessTokenName, c), AccessTokenSecretName, 12);
    SecretOnLine(DocumentedFile(a, b, c, d), 3, AccessTokenSecretName, d);
  }

  /** The line for a longer name starts with the shorter name it extends. */
  lemma ExtendedNameLine(name: string, suffix: string, value: string)
    ensures StartsWith(Line(name + suffix, value), name)
  {
    var line := Line(name + suffix, value);
    assert forall k :: 0 <= k < |name| ==> line[k] == (name + suffix)[k] == name[k];
    assert line[..|name|] == name;
  }

  /** Matching is by prefix: a line for `ACCESS_TOKEN_SECRET` also matches `ACCESS_TOKEN`, so when it
      comes first the access token lookup returns the token secret. */
  lemma AccessTokenMatchesSecretLine(secret: string, token: string)
    requires Trimmed(secret)
    ensures GetSecretSpec(map[], Some([Line(AccessTokenSecretName, secret), Line(AccessTokenName, token)]),
                          AccessTokenName).0 == Ok(secret)
  {
    NamesHaveNoEquals();
    assert AccessTokenSecretName == AccessTokenName + "_SECRET";
    ExtendedNameLine(AccessTokenName, "_SECRET", secret);
    SecretOnLine([Line(AccessTokenSecretName, secret), Line(AccessTokenName, token)], 0, AccessTokenSecretName, secret);
    FirstLineDecides(map[], [], [Line(AccessTokenName, token)], Line(AccessTokenSecretName, secret), AccessTokenName);
    assert [] + [Line(AccessTokenSecretName, secret)] + [Line(AccessTokenName, token)] ==
           [Line(AccessTokenSecretName, secret), Line(AccessTokenName, token)];
  }
}
