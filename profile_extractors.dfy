/** The social-account profile extractors of geonode/people/profileextractors.py:
    each provider's extractor reads profile fields out of the account data
    the provider returned, one chain of `dict.get` lookups per field. */
module ProfileExtractors {
  import opened PyStrings
  import opened Outcomes

  /** The provider's account data: strings, dictionaries, and anything else. */
  datatype Value = Str(s: string) | Dict(entries: map<string, Value>) | Other

  /** The extractor classes. */
  datatype Extractor = BaseExtractor | FacebookExtractor | LinkedInExtractor

  /** The `extract_*` methods, one per profile field. */
  datatype Field =
    | Area | City | Country | Delivery | Email | Fax | FirstName | LastName
    | Organization | Position | Profile | Voice | Zipcode

  /** The `PROVIDER` class attribute. `BaseExtractor` spells it `PROVDER`, so reading
      `PROVIDER` on it raises `AttributeError`. */
  function ProviderName(extractor: Extractor): (r: Result<string>)
    ensures r.Err? <==> extractor == BaseExtractor
    ensures r.Err? ==> r.error == AttributeError
  {
    match extractor
    case BaseExtractor => Err(AttributeError)
    case FacebookExtractor => Ok("facebook")
    case LinkedInExtractor => Ok("linkedin")
  }

  /** No two extractors claim the same provider. */
  lemma ProviderNamesDistinct(a: Extractor, b: Extractor)
    ensures ProviderName(a).Ok? && ProviderName(a) == ProviderName(b) ==> a == b
  {
  }

  /** `value.get(key, default)`: only a dictionary has `get`. */
  function Get(value: Value, key: string, default: Value): (r: Result<Value>)
    ensures r.Err? <==> !value.Dict?
    ensures r.Err? ==> r.error == AttributeError
    ensures value.Dict? && key in value.entries ==> r == Ok(value.entries[key])
    ensures value.Dict? && key !in value.entries ==> r == Ok(default)
  {
    if !value.Dict? then Err(AttributeError)
    else if key in value.entries then Ok(value.entries[key])
    else Ok(default)
  }

  /** `data.get(k1, {}).get(k2, {})...get(kn, "")`. */
  function ChainedGet(data: Value, path: seq<string>): Result<Value>
    requires |path| > 0
    decreases |path|
  {
    if |path| == 1 then Get(data, path[0], Str(""))
    else
      var next := Get(data, path[0], Dict(map[]));
      if next.Err? then Err(next.error) else ChainedGet(next.value, path[1..])
  }

  /** Where following `path` from `data` through dictionaries ends. */
  datatype Walk = Found(value: Value) | Missing | NotADictionary

  /** The value at the end of `path`, the first level where a key is missing, or the
      first level that is not a dictionary. */
  function WalkPath(data: Value, path: seq<string>): Walk
    decreases |path|
  {
    if path == [] then Found(data)
    else if !data.Dict? then NotADictionary
    else if path[0] !in data.entries then Missing
    else WalkPath(data.entries[path[0]], path[1..])
  }

  /** The chain of lookups yields the value at the path, `""` once a key is missing, and
      fails only when a level it reaches is not a dictionary. */
  lemma {:induction false} ChainedGetWalks(data: Value, path: seq<string>)
    requires |path| > 0
    ensures WalkPath(data, path).Found? ==> ChainedGet(data, path) == Ok(WalkPath(data, path).value)
    ensures WalkPath(data, path).Missing? ==> ChainedGet(data, path) == Ok(Str(""))
    ensures WalkPath(data, path).NotADictionary? ==> ChainedGet(data, path) == Err(AttributeError)
    decreases |path|
  {
    if |path| > 1 && data.Dict? {
      if path[0] in data.entries {
        ChainedGetWalks(data.entries[path[0]], path[1..]);
        assert ChainedGet(data, path) == ChainedGet(data.entries[path[0]], path[1..]);
        assert WalkPath(data, path) == WalkPath(data.entries[path[0]], path[1..]);
      } else {
        ChainedGetWalks(Dict(map[]), path[1..]);
        assert ChainedGet(data, path) == ChainedGet(Dict(map[]), path[1..]);
        assert WalkPath(Dict(map[]), path[1..]) == Missing;
        assert WalkPath(data, path) == Missing;
      }
    } else if data.Dict? && path[0] in data.entries {
      assert path[1..] == [];
      assert WalkPath(data, path) == Found(data.entries[path[0]]);
    }
  }

  /** `"\n".join((headline, summary)).strip()`; joining anything but strings raises `TypeError`. */
  function JoinedProfile(headline: Value, summary: Value): Result<Value> {
    if headline.Str? && summary.Str? then Ok(Str(Strip(headline.s + "\n" + summary.s)))
    else Err(TypeError)
  }

  /** The key a one-level lookup reads, for the fields an extractor implements that way. */
  function FlatKey(extractor: Extractor, field: Field): Option<string> {
    match (extractor, field)
    case (FacebookExtractor, Email) => Some("email")
    case (FacebookExtractor, FirstName) => Some("first_name")
    case (FacebookExtractor, LastName) => Some("last_name")
    case (FacebookExtractor, Profile) => Some("cover")
    case (LinkedInExtractor, Email) => Some("email-address")
    case (LinkedInExtractor, FirstName) => Some("first-name")
    case (LinkedInExtractor, LastName) => Some("last-name")
    case _ => None
  }

  /** `extractor.extract_<field>(data)`. */
  function Extract(extractor: Extractor, field: Field, data: Value): Result<Value> {
    if FlatKey(extractor, field).Some? then ChainedGet(data, [FlatKey(extractor, field).value])
    else if extractor.LinkedInExtractor? && field == Position then
      ChainedGet(data, ["positions", "position", "title"])
    else if extractor.LinkedInExtractor? && field == Organization then
      ChainedGet(data, ["positions", "position", "company", "name"])
    else if extractor.LinkedInExtractor? && field == Profile then
      var headline := Get(data, "headline", Str(""));
      if headline.Err? then Err(headline.error)
      else JoinedProfile(headline.value, Get(data, "summary", Str("")).value)
    else Err(NotImplementedError)
  }

  /** The fields each extractor implements. */
  predicate Implements(extractor: Extractor, field: Field) {
    match extractor
    case BaseExtractor => false
    case FacebookExtractor => field in {Email, FirstName, LastName, Profile}
    case LinkedInExtractor => field in {Email, FirstName, LastName, Position, Organization, Profile}
  }

  /** A field its extractor does not implement raises `NotImplementedError` whatever the
      data; an implemented one never does. */
  lemma NotImplementedFields(extractor: Extractor, field: Field, data: Value)
    ensures Extract(extractor, field, data) == Err(NotImplementedError) <==> !Implements(extractor, field)
  {
    if Implements(extractor, field) && FlatKey(extractor, field).Some? {
      assert ChainedGet(data, [FlatKey(extractor, field).value]) == Get(data, FlatKey(extractor, field).value, Str(""));
    } else if Implements(extractor, field) && field != Profile {
      var path := if field == Position then ["positions", "position", "title"]
        else ["positions", "position", "company", "name"];
      ChainedGetWalks(data, path);
    }
  }

  /** A one-level field is the value under its key in the data dictionary, or `""`. */
  lemma FlatField(extractor: Extractor, field: Field, entries: map<string, Value>)
    requires FlatKey(extractor, field).Some?
    ensures var key := FlatKey(extractor, field).value;
      Extract(extractor, field, Dict(entries)) == Ok(if key in entries then entries[key] else Str(""))
  {
  }

  /** The LinkedIn position is `positions.position.title`, `""` when a level is missing. */
  lemma LinkedInPosition(data: Value)
    ensures WalkPath(data, ["positions", "position", "title"]).Found? ==>
      Extract(LinkedInExtractor, Position, data) == Ok(WalkPath(data, ["positions", "position", "title"]).value)
    ensures WalkPath(data, ["positions", "position", "title"]).Missing? ==>
      Extract(LinkedInExtractor, Position, data) == Ok(Str(""))
    ensures WalkPath(data, ["positions", "position", "title"]).NotADictionary? ==>
      Extract(LinkedInExtractor, Position, data) == Err(AttributeError)
  {
    ChainedGetWalks(data, ["positions", "position", "title"]);
  }

  /** The LinkedIn organization is `positions.position.company.name`, `""` when a level is missing. */
  lemma LinkedInOrganization(data: Value)
    ensures WalkPath(data, ["positions", "position", "company", "name"]).Found? ==>
      Extract(LinkedInExtractor, Organization, data) == Ok(WalkPath(data, ["positions", "position", "company", "name"]).value)
    ensures WalkPath(data, ["positions", "position", "company", "name"]).Missing? ==>
      Extract(LinkedInExtractor, Organization, data) == Ok(Str(""))
    ensures WalkPath(data, ["positions", "position", "company", "name"]).NotADictionary? ==>
      Extract(LinkedInExtractor, Organization, data) == Err(AttributeError)
  {
    ChainedGetWalks(data, ["positions", "position", "company", "name"]);
  }

  /** A LinkedIn profile with both parts, neither padded with whitespace, is the headline
      and the summary on two lines. */
  lemma LinkedInProfileBoth(entries: map<string, Value>, headline: string, summary: string)
    requires "headline" in entries && entries["headline"] == Str(headline)
    requires "summary" in entries && entries["summary"] == Str(summary)
    requires headline != [] && !IsWhitespace(headline[0])
    requires summary != [] && !IsWhitespace(summary[|summary| - 1])
    ensures Extract(LinkedInExtractor, Profile, Dict(entries)) == Ok(Str(headline + "\n" + summary))
  {
    var joined := headline + "\n" + summary;
    assert joined[0] == headline[0] && joined[|joined| - 1] == summary[|summary| - 1];
    StripTrimmed(joined);
  }

  /** Without a headline the LinkedIn profile is the stripped summary. */
  lemma LinkedInProfileWithoutHeadline(entries: map<string, Value>, summary: string)
    requires "headline" !in entries
    requires "summary" in entries && entries["summary"] == Str(summary)
    ensures Extract(LinkedInExtractor, Profile, Dict(entries)) == Ok(Str(Strip(summary)))
  {
    assert "" + "\n" + summary == "\n" + summary;
    StripLeadingWhitespace("\n", summary);
  }

  /** Without a summary the LinkedIn profile is the stripped headline. */
  lemma LinkedInProfileWithoutSummary(entries: map<string, Value>, headline: string)
    requires "headline" in entries && entries["headline"] == Str(headline)
    requires "summary" !in entries
    ensures Extract(LinkedInExtractor, Profile, Dict(entries)) == Ok(Str(Strip(headline)))
  {
    assert headline + "\n" + "" == headline + "\n";
    StripTrailingWhitespace(headline, "\n");
  }

  /** With neither part the LinkedIn profile is empty. */
  lemma LinkedInProfileEmpty(entries: map<string, Value>)
    requires "headline" !in entries && "summary" !in entries
    ensures Extract(LinkedInExtractor, Profile, Dict(entries)) == Ok(Str(""))
  {
    assert "" + "\n" + "" == "\n";
    StripLeadingWhitespace("\n", "");
    assert "\n" + "" == "\n";
  }
}
