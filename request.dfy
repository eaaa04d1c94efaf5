/** How a subcommand turns its options into the request: the query string
    appended to the URL, the bearer token merged into the headers, and the
    export step that runs once the response is in. */
module Request {
  import opened Wrappers
  import opened OrderedMap
  import opened FormUrlEncoded
  import opened Json
  import opened Text
  import opened Export

  /** The request URL.  `params` is the parsed `--queryParams` object, None
      when the option is absent or empty; any object, even `{}`, appends a
      `?` and its form-urlencoded serialization. */
  function BuildUrlWithParams(url: string, params: Option<seq<(string, string)>>): (r: string)
    ensures params.None? ==> r == url
    ensures params.Some? ==> |r| > |url| && r[..|url|] == url && r[|url|] == '?'
  {
    if params.None? then url
    else url + "?" + FormUrlEncoded.Serialize(params.value)
  }

  /** The query string after the URL's own text parses back to exactly the
      parameters given, in the order given. */
  lemma QueryReadsBack(url: string, ps: seq<(string, string)>)
    ensures var r := BuildUrlWithParams(url, Some(ps));
      FormUrlEncoded.Parse(r[|url| + 1..]) == Some(ps)
  {
    var r := BuildUrlWithParams(url, Some(ps));
    assert r[|url| + 1..] == FormUrlEncoded.Serialize(ps);
    ParseSerialize(ps);
  }

  const AuthorizationKey := "Authorization"

  /** The headers a subcommand hands to the request.  `headers` is the
      parsed `--headers` object (None when absent or empty) and `token` the
      `--token` string.  A non-empty token spreads the headers, or `{}`,
      into a new object whose `Authorization` is `Bearer <token>`; otherwise
      the headers pass through. */
  function HeadersWithToken(headers: Option<Assoc<string>>, token: Option<string>): (r: Option<Assoc<string>>)
    ensures token.None? || token.value == "" ==> r == headers
    ensures token.Some? && token.value != "" ==>
      r.Some? && Keys(r.value) == (var ks := Keys(headers.GetOr([]));
        if AuthorizationKey in ks then ks else ks + [AuthorizationKey])
  {
    if token.None? || token.value == "" then headers
    else Some(Put(headers.GetOr([]), AuthorizationKey, "Bearer " + token.value))
  }

  /** With a token, `Authorization` carries it and every other header keeps
      its value; the header names stay distinct. */
  lemma {:induction false} TokenHeaderLookup(headers: Option<Assoc<string>>, t: string, k: string)
    requires t != ""
    ensures var r := HeadersWithToken(headers, Some(t));
      r.Some? &&
      Lookup(r.value, k) == if k == AuthorizationKey then Some("Bearer " + t) else Lookup(headers.GetOr([]), k)
  {
    PutLookup(headers.GetOr([]), AuthorizationKey, "Bearer " + t, k);
  }

  lemma TokenHeadersDistinct(headers: Option<Assoc<string>>, t: string)
    requires headers.Some? ==> DistinctKeys(headers.value)
    ensures var r := HeadersWithToken(headers, Some(t));
      r.Some? ==> DistinctKeys(r.value)
  {
    if t != "" {
      PutDistinct(headers.GetOr([]), AuthorizationKey, "Bearer " + t);
    }
  }

  /** An `Authorization` header given with `--headers` keeps its place and
      takes the token's value. */
  lemma TokenReplacesAuthorization(pre: Assoc<string>, old_value: string, post: Assoc<string>, t: string)
    requires DistinctKeys(pre + [(AuthorizationKey, old_value)] + post)
    requires t != ""
    ensures HeadersWithToken(Some(pre + [(AuthorizationKey, old_value)] + post), Some(t))
      == Some(pre + [(AuthorizationKey, "Bearer " + t)] + post)
  {
    var m := pre + [(AuthorizationKey, old_value)] + post;
    PutExisting(m, |pre|, AuthorizationKey, "Bearer " + t);
    assert m[|pre| := (AuthorizationKey, "Bearer " + t)] == pre + [(AuthorizationKey, "Bearer " + t)] + post;
  }

  /** `--token T` alone gives the single header `Authorization: Bearer T`. */
  lemma TokenOnlyExample()
    ensures HeadersWithToken(None, Some("T")) == Some([(AuthorizationKey, "Bearer T")])
  {
    assert "Bearer " + "T" == "Bearer T";
    PutNew([], AuthorizationKey, "Bearer T");
    assert [] + [(AuthorizationKey, "Bearer T")] == [(AuthorizationKey, "Bearer T")];
  }

  /** `--token T` with `--headers '{"X":"1"}'` keeps `X` and adds the token
      after it. */
  lemma TokenWithHeadersExample()
    ensures HeadersWithToken(Some([("X", "1")]), Some("T")) == Some([("X", "1"), (AuthorizationKey, "Bearer T")])
  {
    assert Keys([("X", "1")]) == ["X"];
    assert AuthorizationKey != "X";
    assert "Bearer " + "T" == "Bearer T";
    PutNew([("X", "1")], AuthorizationKey, "Bearer T");
    assert [("X", "1")] + [(AuthorizationKey, "Bearer T")] == [("X", "1"), (AuthorizationKey, "Bearer T")];
  }

  /** The name or value of a parameter that is one unreserved ASCII
      character goes out as that character. */
  lemma EncodeUnreservedChar(c: char)
    requires c as int < 0x80 && Unreserved(c as int)
    ensures FormUrlEncoded.Encode([c]) == [c]
  {
    var b: Byte := c as int;
    assert Utf8Encode([c]) == [b];
    assert EncodeBytes([b]) == EncodeByte(b) + EncodeBytes([]);
    assert EncodeByte(b) == [b as char] == [c];
  }

  lemma SerializeTwoSingles(a: char, x: char, b: char, y: char)
    requires a as int < 0x80 && Unreserved(a as int) && x as int < 0x80 && Unreserved(x as int)
    requires b as int < 0x80 && Unreserved(b as int) && y as int < 0x80 && Unreserved(y as int)
    ensures FormUrlEncoded.Serialize([([a], [x]), ([b], [y])]) == [a, '=', x, '&', b, '=', y]
  {
    EncodeUnreservedChar(a);
    EncodeUnreservedChar(x);
    EncodeUnreservedChar(b);
    EncodeUnreservedChar(y);
    var ts := PairTexts([([a], [x]), ([b], [y])]);
    assert ts[0] == [a] + "=" + [x] == [a, '=', x];
    assert ts[1] == [b] + "=" + [y] == [b, '=', y];
    assert ts == [ts[0], ts[1]];
    JoinTwo(ts[0], ts[1], "&");
  }

  /** `buildUrlWithParams("http://h/p", {"a":"1","b":"2"})`. */
  lemma QueryExample()
    ensures BuildUrlWithParams("http://h/p", Some([("a", "1"), ("b", "2")])) == "http://h/p?a=1&b=2"
  {
    SerializeTwoSingles('a', '1', 'b', '2');
  }

  /** The export that follows a response: nothing without `--output` (or
      with an empty one), otherwise the file content for the chosen
      format, `json` when `--format` is absent or empty. */
  function SaveResponse(data: Json, output: Option<string>, format: Option<string>): (r: Option<Result<string, ExportError>>)
    ensures r.Some? <==> output.Some? && output.value != ""
    ensures r.Some? && format.None? ==> r.value == Success(Pretty(data))
    ensures r.Some? && format.Some? && format.value in {"", "json"} ==> r.value == Success(Pretty(data))
    ensures r.Some? && format == Some("csv") ==> r.value == CsvContent(data)
    ensures r.Some? && format.Some? && format.value !in {"", "json", "csv"} ==>
      r.value == Failure(UnsupportedFormat(format.value))
  {
    if output.None? || output.value == "" then None
    else Some(ExportContent(data, ResolveFormat(format)))
  }
}
