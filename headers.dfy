/** The middleware of server.js:12-28 that runs on every request: a
    content-type override chosen by the suffix of the raw request URL, then
    five fixed cross-origin isolation and CORS headers. */
module Headers {
  import opened Strings
  import opened Options

  const WasmType := "application/wasm"
  const BinaryType := "application/octet-stream"
  const ScriptType := "application/javascript"

  const CoepName := "Cross-Origin-Embedder-Policy"
  const CoopName := "Cross-Origin-Opener-Policy"
  const AllowOriginName := "Access-Control-Allow-Origin"
  const AllowMethodsName := "Access-Control-Allow-Methods"
  const AllowHeadersName := "Access-Control-Allow-Headers"

  /** The five headers every response receives, whatever its URL. */
  function FixedHeaders(): (h: map<string, string>)
    ensures h.Keys == {CoepName, CoopName, AllowOriginName, AllowMethodsName, AllowHeadersName}
  {
    map[CoepName := "require-corp",
        CoopName := "same-origin",
        AllowOriginName := "*",
        AllowMethodsName := "GET, POST, OPTIONS",
        AllowHeadersName := "Content-Type"]
  }

  /** The content type the middleware passes to `res.type`, if any: the
      first suffix of `.wasm`, `.data`, `.symbols.json`, `.js` that the raw
      URL ends with. */
  function ContentTypeFor(url: string): (t: Option<string>)
    ensures t.Some? <==>
      EndsWith(url, ".wasm") || EndsWith(url, ".data") || EndsWith(url, ".symbols.json") || EndsWith(url, ".js")
    ensures t.Some? ==> t.value in {WasmType, BinaryType, ScriptType}
  {
    if EndsWith(url, ".wasm") then Some(WasmType)
    else if EndsWith(url, ".data") then Some(BinaryType)
    else if EndsWith(url, ".symbols.json") then Some(BinaryType)
    else if EndsWith(url, ".js") then Some(ScriptType)
    else None
  }

  /** The response object as far as the middleware touches it: its header
      map and the content type set by `res.type`. */
  class Response {
    var headers: map<string, string>
    var contentType: Option<string>

    constructor ()
      ensures headers == map[] && contentType == None
    {
      headers := map[];
      contentType := None;
    }

    /** The middleware body for a request whose `req.url` is `url`; the call
        to `next()` is the return. */
    method Middleware(url: string)
      modifies this
      ensures contentType == if ContentTypeFor(url).Some? then ContentTypeFor(url) else old(contentType)
      ensures headers == old(headers) + FixedHeaders()
    {
      if EndsWith(url, ".wasm") {
        contentType := Some(WasmType);
      } else if EndsWith(url, ".data") {
        contentType := Some(BinaryType);
      } else if EndsWith(url, ".symbols.json") {
        contentType := Some(BinaryType);
      } else if EndsWith(url, ".js") {
        contentType := Some(ScriptType);
      }
      ghost var before := headers;
      headers := headers[CoepName := "require-corp"];
      headers := headers[CoopName := "same-origin"];
      headers := headers[AllowOriginName := "*"];
      headers := headers[AllowMethodsName := "GET, POST, OPTIONS"];
      headers := headers[AllowHeadersName := "Content-Type"];
      FixedHeadersInOrder(before);
    }
  }

  /** Setting the five headers one after the other, as the middleware does,
      is the same as overriding the map with `FixedHeaders()`. */
  lemma FixedHeadersInOrder(h: map<string, string>)
    ensures h[CoepName := "require-corp"][CoopName := "same-origin"][AllowOriginName := "*"]
             [AllowMethodsName := "GET, POST, OPTIONS"][AllowHeadersName := "Content-Type"]
            == h + FixedHeaders()
  {
    var stepwise := h[CoepName := "require-corp"][CoopName := "same-origin"][AllowOriginName := "*"]
                     [AllowMethodsName := "GET, POST, OPTIONS"][AllowHeadersName := "Content-Type"];
    var fixed := FixedHeaders();
    assert stepwise.Keys == (h + fixed).Keys;
    forall k | k in stepwise ensures stepwise[k] == (h + fixed)[k] {
    }
  }

  /** A string ending in a non-empty suffix ends in that suffix's last character. */
  lemma LastCharOfSuffix(s: string, suffix: string)
    requires suffix != []
    ensures EndsWith(s, suffix) ==> s != [] && s[|s| - 1] == suffix[|suffix| - 1]
  {
    if EndsWith(s, suffix) {
      assert s[|s| - |suffix|..][|suffix| - 1] == s[|s| - 1];
    }
  }

  /** The four suffixes end in different characters, so at most one of them
      matches any URL and the order of the tests in the middleware never
      decides the outcome. */
  lemma SuffixesExclusive(url: string)
    ensures EndsWith(url, ".wasm") ==> !EndsWith(url, ".data") && !EndsWith(url, ".symbols.json") && !EndsWith(url, ".js")
    ensures EndsWith(url, ".data") ==> !EndsWith(url, ".symbols.json") && !EndsWith(url, ".js")
    ensures EndsWith(url, ".symbols.json") ==> !EndsWith(url, ".js")
  {
    if EndsWith(url, ".wasm") { assert url[|url| - 1] == 'm'; }
    if EndsWith(url, ".data") { assert url[|url| - 1] == 'a'; }
    if EndsWith(url, ".symbols.json") { assert url[|url| - 1] == 'n'; }
    if EndsWith(url, ".js") { assert url[|url| - 1] == 's'; }
  }

  /** The override, stated per type in both directions. */
  lemma ContentTypeMapping(url: string)
    ensures ContentTypeFor(url) == Some(WasmType) <==> EndsWith(url, ".wasm")
    ensures ContentTypeFor(url) == Some(BinaryType) <==> EndsWith(url, ".data") || EndsWith(url, ".symbols.json")
    ensures ContentTypeFor(url) == Some(ScriptType) <==> EndsWith(url, ".js")
    ensures ContentTypeFor(url) == None <==>
      !EndsWith(url, ".wasm") && !EndsWith(url, ".data") && !EndsWith(url, ".symbols.json") && !EndsWith(url, ".js")
  {
    SuffixesExclusive(url);
  }

  /** Only a URL whose last character ends one of the four suffixes gets an
      override; in particular a query string after the extension defeats it. */
  lemma OverrideNeedsSuffixAtEnd(url: string)
    requires url == [] || url[|url| - 1] !in {'m', 'a', 'n', 's'}
    ensures ContentTypeFor(url) == None
  {
    LastCharOfSuffix(url, ".wasm");
    LastCharOfSuffix(url, ".data");
    LastCharOfSuffix(url, ".symbols.json");
    LastCharOfSuffix(url, ".js");
  }

  /** A request for the WebAssembly binary with a cache-busting query. */
  lemma QueryStringExample()
    ensures ContentTypeFor("/Build/game.wasm?v=2") == None
    ensures ContentTypeFor("/Build/game.wasm") == Some(WasmType)
  {
    OverrideNeedsSuffixAtEnd("/Build/game.wasm?v=2");
    assert EndsWith("/Build/game.wasm", ".wasm");
  }

  /** Whatever the response held before, the five header values are present
      after the middleware, and every other header keeps its value. */
  lemma FixedHeadersOverride(before: map<string, string>)
    ensures var after := before + FixedHeaders();
      && after[CoepName] == "require-corp"
      && after[CoopName] == "same-origin"
      && after[AllowOriginName] == "*"
      && after[AllowMethodsName] == "GET, POST, OPTIONS"
      && after[AllowHeadersName] == "Content-Type"
      && after.Keys == before.Keys + FixedHeaders().Keys
      && forall k :: k in before && k !in FixedHeaders() ==> after[k] == before[k]
  {
  }

  /** On a response with no headers yet, after the middleware its headers
      are exactly the five fixed ones and its content type is the override
      for the URL, if any. (Express itself may have set headers such as
      `X-Powered-By` before the middleware runs; `Middleware` covers that
      case, keeping them.) */
  method Respond(url: string) returns (headers: map<string, string>, contentType: Option<string>)
    ensures headers == FixedHeaders()
    ensures contentType == ContentTypeFor(url)
  {
    var res := new Response();
    res.Middleware(url);
    headers, contentType := res.headers, res.contentType;
  }
}
