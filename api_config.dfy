/** The endpoint URL builder: a base URL taken from the build environment
    and a fixed table of endpoint paths. */
module ApiConfig {
  import opened Wrappers

  const DefaultBaseUrl := "http://localhost:8000"

  /** `VITE_API_BASE_URL || 'http://localhost:8000'`: the configured base
      when it is set and non-empty. */
  function ApiBaseUrl(configured: Option<string>): (base: string)
    ensures configured.Some? && configured.value != "" ==> base == configured.value
    ensures configured.None? || configured.value == "" ==> base == DefaultBaseUrl
  {
    if configured.Some? && configured.value != "" then configured.value else DefaultBaseUrl
  }

  /** The endpoint table, in declaration order. */
  const Endpoints: seq<(string, string)> := [
    ("MESSAGES", "/messages"),
    ("LOGIN", "/user/login"),
    ("END_SESSION", "/sessions/end"),
    ("BIOGRAPHY_LATEST", "/biography/latest")
  ]

  /** The path the table gives a key, if it has one. */
  function Lookup(table: seq<(string, string)>, key: string): (r: Option<string>)
    ensures r.Some? <==> exists i :: 0 <= i < |table| && table[i].0 == key
    ensures r.Some? ==> exists i :: 0 <= i < |table| && table[i] == (key, r.value)
    decreases table
  {
    if table == [] then None
    else if table[0].0 == key then Some(table[0].1)
    else
      var r := Lookup(table[1..], key);
      assert forall i :: 1 <= i < |table| ==> table[i] == table[1..][i - 1];
      r
  }

  /** `getApiUrl`: the base followed by the table's path for a known key,
      or by the argument itself for any other string. */
  function GetApiUrl(base: string, endpoint: string): (url: string)
    ensures |url| >= |base| && url[..|base|] == base
    ensures Lookup(Endpoints, endpoint).Some? ==> url == base + Lookup(Endpoints, endpoint).value
    ensures Lookup(Endpoints, endpoint).None? ==> url == base + endpoint
  {
    var path := Lookup(Endpoints, endpoint);
    var url := if path.Some? then base + path.value else base + endpoint;
    assert url[..|base|] == base;
    url
  }

  /** The four keys of the table resolve to their fixed paths. */
  lemma KnownEndpoints(base: string)
    ensures GetApiUrl(base, "MESSAGES") == base + "/messages"
    ensures GetApiUrl(base, "LOGIN") == base + "/user/login"
    ensures GetApiUrl(base, "END_SESSION") == base + "/sessions/end"
    ensures GetApiUrl(base, "BIOGRAPHY_LATEST") == base + "/biography/latest"
  {
    assert Endpoints[0].0 == "MESSAGES";
    assert Endpoints[1].0 == "LOGIN";
    assert Endpoints[2].0 == "END_SESSION";
    assert Endpoints[3].0 == "BIOGRAPHY_LATEST";
  }

  /** The keys the application asks for that are missing from the table
      (transcription, sign-up and text-to-speech) are appended to the base
      as they are, with no `/` between. */
  lemma UnknownEndpointVerbatim(base: string)
    ensures GetApiUrl(base, "TRANSCRIBE") == base + "TRANSCRIBE"
    ensures GetApiUrl(base, "REGISTER") == base + "REGISTER"
    ensures GetApiUrl(base, "TEXT_TO_SPEECH") == base + "TEXT_TO_SPEECH"
  {
    assert forall i :: 0 <= i < |Endpoints| ==> Endpoints[i].0 != "TRANSCRIBE";
    assert forall i :: 0 <= i < |Endpoints| ==> Endpoints[i].0 != "REGISTER";
    assert forall i :: 0 <= i < |Endpoints| ==> Endpoints[i].0 != "TEXT_TO_SPEECH";
  }
}
