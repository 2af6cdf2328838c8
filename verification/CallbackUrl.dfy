/** The origins a callback client allows, and its check of a callback URL. */
module CallbackUrl {
  import opened Prelude

  /** A parsed URL. `rest` stands for whatever else is printed, such as a bare question mark. */
  datatype ParsedUrl = ParsedUrl(scheme: string, host: string, hasUser: bool, path: string, rawQuery: string,
    fragment: string, rest: string)

  /** What the standard library does with URLs and text. */
  datatype Library = Library(
    parse: string -> Option<ParsedUrl>,
    toText: ParsedUrl -> string,
    toLower: string -> string)

  function BareOrigin(scheme: string, host: string): ParsedUrl {
    ParsedUrl(scheme, host, false, "", "", "", "")
  }

  predicate WebScheme(scheme: string) {
    scheme == "http" || scheme == "https"
  }

  /** A web scheme and a host, and no credentials, path, query or fragment. */
  predicate IsExact(url: ParsedUrl) {
    && WebScheme(url.scheme) && url.host != "" && !url.hasUser
    && url.path == "" && url.rawQuery == "" && url.fragment == ""
  }

  function ParseExactOrigin(rawOrigin: string, library: Library): Option<ParsedUrl> {
    var parsed := library.parse(rawOrigin);
    if parsed.None? || !IsExact(parsed.value) then None
    else Some(parsed.value.(host := library.toLower(parsed.value.host)))
  }

  datatype ClientError = InexactOrigin | NoOrigins | TimeoutNotPositive | DepthNotPositive

  datatype UrlError = Invalid | OriginInexact | OriginNotAllowed

  class CallbackClient {
    const library: Library
    const allowedOrigins: set<string>
    const perDepthTimeout: int
    const maxDependencyDepth: int

    constructor (library: Library, allowedOrigins: set<string>, perDepthTimeout: int, maxDependencyDepth: int)
      ensures this.library == library && this.allowedOrigins == allowedOrigins
      ensures this.perDepthTimeout == perDepthTimeout && this.maxDependencyDepth == maxDependencyDepth
    {
      this.library, this.allowedOrigins := library, allowedOrigins;
      this.perDepthTimeout, this.maxDependencyDepth := perDepthTimeout, maxDependencyDepth;
    }

    function ValidateCallbackUrl(rawUrl: string): Result<ParsedUrl, UrlError> {
      var parsed := library.parse(rawUrl);
      if parsed.None? then Err(Invalid)
      else
        var url := parsed.value;
        if url.hasUser || url.fragment != "" || url.rawQuery != "" || url.host == "" then Err(Invalid)
        else
          var origin := ParseExactOrigin(url.scheme + "://" + url.host, library);
          if origin.None? then Err(OriginInexact)
          else if library.toText(origin.value) !in allowedOrigins then Err(OriginNotAllowed)
          else Ok(url)
    }
  }

  /** `text` is the printed form of one of the configured origins. */
  predicate Configured(text: string, origins: seq<string>, library: Library) {
    exists i | 0 <= i < |origins| :: IsOriginText(text, origins[i], library)
  }

  predicate IsOriginText(text: string, rawOrigin: string, library: Library) {
    var origin := ParseExactOrigin(rawOrigin, library);
    origin.Some? && library.toText(origin.value) == text
  }

  predicate AllExact(origins: seq<string>, library: Library) {
    forall i | 0 <= i < |origins| :: ParseExactOrigin(origins[i], library).Some?
  }

  /** An http or https origin and nothing more that the parser tells apart. */
  predicate IsBare(url: ParsedUrl) {
    (url.scheme == "http" || url.scheme == "https") && url.host != ""
    && url == ParsedUrl(url.scheme, url.host, false, "", "", "", url.rest)
  }

  /** A client is made exactly from exact origins, at least one, and positive limits; it allows the printed
      forms of those origins and nothing else. */
  method NewCallbackClient(origins: seq<string>, perDepthTimeout: int, maxDependencyDepth: int, library: Library)
    returns (r: Result<CallbackClient, ClientError>)
    ensures r.Ok? <==> AllExact(origins, library) && origins != [] && perDepthTimeout > 0 && maxDependencyDepth > 0
    ensures r.Ok? ==> forall raw | raw in origins :: library.parse(raw).Some? && IsBare(library.parse(raw).value)
    ensures r == Err(InexactOrigin) ==>
              exists raw :: raw in origins && (library.parse(raw).None? || !IsBare(library.parse(raw).value))
    ensures r == Err(InexactOrigin) <==> !AllExact(origins, library)
    ensures r == Err(NoOrigins) <==> origins == []
    ensures r == Err(TimeoutNotPositive) <==> AllExact(origins, library) && origins != [] && perDepthTimeout <= 0
    ensures r == Err(DepthNotPositive) <==>
              AllExact(origins, library) && origins != [] && perDepthTimeout > 0 && maxDependencyDepth <= 0
    ensures r.Ok? ==> r.value.library == library && r.value.perDepthTimeout == perDepthTimeout
                        && r.value.maxDependencyDepth == maxDependencyDepth
    ensures r.Ok? ==> forall text :: text in r.value.allowedOrigins <==> Configured(text, origins, library)
  {
    var allowed: set<string> := {};
    for i := 0 to |origins|
      invariant AllExact(origins[..i], library)
      invariant forall text :: text in allowed <==> Configured(text, origins[..i], library)
      invariant i > 0 ==> allowed != {}
    {
      var parsed := ParseExactOrigin(origins[i], library);
      if parsed.None? {
        assert origins[i] in origins;
        return Err(InexactOrigin);
      }
      ConfiguredNext(origins, i, library);
      allowed := allowed + {library.toText(parsed.value)};
    }
    assert origins[..|origins|] == origins;
    if allowed == {} {
      return Err(NoOrigins);
    }
    if perDepthTimeout <= 0 {
      return Err(TimeoutNotPositive);
    }
    if maxDependencyDepth <= 0 {
      return Err(DepthNotPositive);
    }
    var client := new CallbackClient(library, allowed, perDepthTimeout, maxDependencyDepth);
    return Ok(client);
  }

  lemma ConfiguredNext(origins: seq<string>, i: nat, library: Library)
    requires i < |origins|
    ensures forall text :: Configured(text, origins[..i + 1], library) <==>
              Configured(text, origins[..i], library) || IsOriginText(text, origins[i], library)
  {
    var more := origins[..i + 1];
    assert more[i] == origins[i];
    assert forall j | 0 <= j < i :: origins[..i][j] == more[j];
    forall text | Configured(text, origins[..i], library)
      ensures Configured(text, more, library)
    {
      var j :| 0 <= j < i && IsOriginText(text, origins[..i][j], library);
      assert IsOriginText(text, more[j], library);
    }
  }

  /** The library reads the origin of this URL back as it is, prints different exact origins differently,
      and does not lower a host to nothing. */
  ghost predicate Faithful(library: Library, url: ParsedUrl) {
    && library.parse(url.scheme + "://" + url.host) == Some(BareOrigin(url.scheme, url.host))
    && (forall host :: library.toLower(host) == "" <==> host == "")
    && forall origin: ParsedUrl, origin': ParsedUrl | IsExact(origin) && IsExact(origin') ::
         library.toText(origin) == library.toText(origin') ==> origin == origin'
  }

  /** A configured origin with the scheme of `url` and, ignoring case, its host. */
  predicate SameOrigin(rawOrigin: string, url: ParsedUrl, library: Library) {
    var origin := library.parse(rawOrigin);
    && origin.Some? && origin.value.scheme == url.scheme
    && library.toLower(origin.value.host) == library.toLower(url.host)
    && origin.value == BareOrigin(origin.value.scheme, origin.value.host)
    && origin.value.host != ""
  }

  /** A callback URL is accepted exactly when it is an http or https URL without credentials, query and
      fragment, and some configured origin has its scheme and, ignoring case, its host. */
  lemma AcceptedIff(client: CallbackClient, origins: seq<string>, rawUrl: string)
    requires forall text :: text in client.allowedOrigins <==> Configured(text, origins, client.library)
    requires client.library.parse(rawUrl).Some? ==> Faithful(client.library, client.library.parse(rawUrl).value)
    ensures var parsed := client.library.parse(rawUrl);
      client.ValidateCallbackUrl(rawUrl).Ok? <==>
        && parsed.Some?
        && var url := parsed.value;
        && WebScheme(url.scheme) && url.host != "" && !url.hasUser && url.rawQuery == "" && url.fragment == ""
        && exists i | 0 <= i < |origins| :: SameOrigin(origins[i], url, client.library)
    ensures client.ValidateCallbackUrl(rawUrl).Ok? ==>
              Some(client.ValidateCallbackUrl(rawUrl).value) == client.library.parse(rawUrl)
  {
    var library := client.library;
    var parsed := library.parse(rawUrl);
    if parsed.Some? && WebScheme(parsed.value.scheme) && parsed.value.host != "" {
      var url := parsed.value;
      var origin := ParseExactOrigin(url.scheme + "://" + url.host, library).value;
      forall i | 0 <= i < |origins|
        ensures IsOriginText(library.toText(origin), origins[i], library) <==> SameOrigin(origins[i], url, library)
      {
        OriginTextIff(origins[i], url, library);
      }
    }
  }

  lemma OriginTextIff(rawOrigin: string, url: ParsedUrl, library: Library)
    requires Faithful(library, url) && WebScheme(url.scheme) && url.host != ""
    ensures IsOriginText(library.toText(BareOrigin(url.scheme, library.toLower(url.host))), rawOrigin, library)
       <==> SameOrigin(rawOrigin, url, library)
  {
  }
}
