/**
 * The application: a middleware that gives every response a fixed set of
 * security headers by default, and the two routes whose bodies are fixed
 * by the application itself, `/healthz` and `/echo`.
 */
module Main {
  import opened Wrappers
  import opened Headers
  import opened Html

  /** The Content-Security-Policy value, assembled from its directives. */
  const Csp: string :=
    "default-src 'self'; " +
    "script-src 'self'; " +
    "object-src 'none'; " +
    "base-uri 'self'; " +
    "frame-ancestors 'none'; " +
    "form-action 'self'"

  /** The twelve defaults, in the order the middleware applies them. */
  const SecurityHeaders: seq<Header> := [
    Header("Cache-Control", "no-store, no-cache, must-revalidate, max-age=0"),
    Header("Pragma", "no-cache"),
    Header("Expires", "0"),
    Header("Content-Security-Policy", Csp),
    Header("X-Content-Type-Options", "nosniff"),
    Header("X-Frame-Options", "DENY"),
    Header("X-XSS-Protection", "1; mode=block"),
    Header("Referrer-Policy", "no-referrer"),
    Header("Permissions-Policy", "geolocation=(), microphone=()"),
    Header("Cross-Origin-Opener-Policy", "same-origin"),
    Header("Cross-Origin-Embedder-Policy", "require-corp"),
    Header("Cross-Origin-Resource-Policy", "same-origin")
  ]

  /** Applying a table from index `k` on is one `setdefault` and the rest of the table. */
  lemma ApplyDefaultsFrom(hs: seq<Header>, t: seq<Header>, k: nat)
    requires k < |t|
    ensures ApplyDefaults(hs, t[k..]) == ApplyDefaults(WithDefault(hs, t[k].name, t[k].value), t[k + 1..])
  {
  }

  /** A twelve-entry table is twelve `setdefault` calls in a row. */
  lemma ApplyTwelve(hs: seq<Header>, t: seq<Header>)
    requires |t| == 12
    ensures ApplyDefaults(hs, t) == WithDefault(WithDefault(WithDefault(WithDefault(WithDefault(WithDefault(WithDefault(WithDefault(WithDefault(WithDefault(WithDefault(WithDefault(hs, t[0].name, t[0].value), t[1].name, t[1].value), t[2].name, t[2].value), t[3].name, t[3].value), t[4].name, t[4].value), t[5].name, t[5].value), t[6].name, t[6].value), t[7].name, t[7].value), t[8].name, t[8].value), t[9].name, t[9].value), t[10].name, t[10].value), t[11].name, t[11].value)
  {
    var h0 := hs;
    var h1 := WithDefault(h0, t[0].name, t[0].value);
    ApplyDefaultsFrom(h0, t, 0);
    var h2 := WithDefault(h1, t[1].name, t[1].value);
    ApplyDefaultsFrom(h1, t, 1);
    var h3 := WithDefault(h2, t[2].name, t[2].value);
    ApplyDefaultsFrom(h2, t, 2);
    var h4 := WithDefault(h3, t[3].name, t[3].value);
    ApplyDefaultsFrom(h3, t, 3);
    var h5 := WithDefault(h4, t[4].name, t[4].value);
    ApplyDefaultsFrom(h4, t, 4);
    var h6 := WithDefault(h5, t[5].name, t[5].value);
    ApplyDefaultsFrom(h5, t, 5);
    var h7 := WithDefault(h6, t[6].name, t[6].value);
    ApplyDefaultsFrom(h6, t, 6);
    var h8 := WithDefault(h7, t[7].name, t[7].value);
    ApplyDefaultsFrom(h7, t, 7);
    var h9 := WithDefault(h8, t[8].name, t[8].value);
    ApplyDefaultsFrom(h8, t, 8);
    var h10 := WithDefault(h9, t[9].name, t[9].value);
    ApplyDefaultsFrom(h9, t, 9);
    var h11 := WithDefault(h10, t[10].name, t[10].value);
    ApplyDefaultsFrom(h10, t, 10);
    var h12 := WithDefault(h11, t[11].name, t[11].value);
    ApplyDefaultsFrom(h11, t, 11);
    assert t[0..] == t;
    assert t[12..] == [];
  }

  /**
   * The middleware: the handler's response gets each header of the table
   * by `setdefault`, and the same response object is handed on.
   */
  method AddSecurityHeaders(response: Response) returns (result: Response)
    requires response.Valid()
    modifies response`rawHeaders
    ensures result == response && response.Valid()
    ensures response.rawHeaders == ApplyDefaults(old(response.rawHeaders), SecurityHeaders)
    ensures response.status == old(response.status) && response.body == old(response.body)
  {
    ghost var before := response.rawHeaders;
    var current: string;
    current := response.SetDefault("Cache-Control", "no-store, no-cache, must-revalidate, max-age=0");
    current := response.SetDefault("Pragma", "no-cache");
    current := response.SetDefault("Expires", "0");
    current := response.SetDefault("Content-Security-Policy", Csp);
    current := response.SetDefault("X-Content-Type-Options", "nosniff");
    current := response.SetDefault("X-Frame-Options", "DENY");
    current := response.SetDefault("X-XSS-Protection", "1; mode=block");
    current := response.SetDefault("Referrer-Policy", "no-referrer");
    current := response.SetDefault("Permissions-Policy", "geolocation=(), microphone=()");
    current := response.SetDefault("Cross-Origin-Opener-Policy", "same-origin");
    current := response.SetDefault("Cross-Origin-Embedder-Policy", "require-corp");
    current := response.SetDefault("Cross-Origin-Resource-Policy", "same-origin");
    ApplyTwelve(before, SecurityHeaders);
    result := response;
  }

  /** The table's names stay apart once lower-cased. */
  lemma SecurityNamesDistinct()
    ensures DistinctNames(Lowered(SecurityHeaders))
  {
    var t := SecurityHeaders;
    assert Lower(t[10].name)[13] != Lower(t[11].name)[13];
    assert Lower(t[5].name)[0] != Lower(t[7].name)[0];
  }

  /**
   * After the middleware each header of the table carries the value the
   * handler gave it, or the table's value when the handler gave none.
   */
  lemma SecurityHeaderValue(hs: seq<Header>, i: nat)
    requires i < |SecurityHeaders|
    ensures var n := Lower(SecurityHeaders[i].name);
      Lookup(ApplyDefaults(hs, SecurityHeaders), n) ==
      if Lookup(hs, n).Some? then Lookup(hs, n) else Some(SecurityHeaders[i].value)
  {
    SecurityNamesDistinct();
    LookupDistinctTable(SecurityHeaders, i);
    ApplyDefaultsLookup(hs, SecurityHeaders, Lower(SecurityHeaders[i].name));
  }

  /** A header outside the table is left as the handler set it, or absent. */
  lemma OtherHeadersUntouched(hs: seq<Header>, n: string)
    requires forall i | 0 <= i < |SecurityHeaders| :: Lower(SecurityHeaders[i].name) != n
    ensures Lookup(ApplyDefaults(hs, SecurityHeaders), n) == Lookup(hs, n)
  {
    ApplyDefaultsLookup(hs, SecurityHeaders, n);
    LookupFound(Lowered(SecurityHeaders), n);
  }

  lemma CspName()
    ensures Lower(SecurityHeaders[3].name) == "content-security-policy"
  {
  }

  /** A response without a policy of its own leaves with the application's policy. */
  lemma CspAdded(hs: seq<Header>)
    requires Lookup(hs, "content-security-policy").None?
    ensures Lookup(ApplyDefaults(hs, SecurityHeaders), "content-security-policy") == Some(Csp)
  {
    CspName();
    SecurityHeaderValue(hs, 3);
  }

  /** What a route hands back: status code, media type and body text. */
  datatype Page = Page(status: int, mediaType: string, body: string)

  /** The liveness route: a plain-text `OK`. */
  function Healthz(): (p: Page)
    ensures p.status == 200 && p.mediaType == "text/plain" && p.body == "OK"
  {
    Page(200, "text/plain", "OK")
  }

  const EchoPrefix := "<h1>ECHO</h1><div>you said: "
  const EchoSuffix := "</div>"

  /** The reflection route: the query text, escaped with `quote=True`, inside a fixed frame. */
  function Echo(x: string := ""): (p: Page)
    ensures p.status == 200 && p.mediaType == "text/html"
    ensures |p.body| >= |EchoPrefix| + |EchoSuffix|
  {
    Page(200, "text/html", EchoPrefix + ReplaceEscape(x, quote := true) + EchoSuffix)
  }

  /** The part of an echo body between the frame's prefix and suffix. */
  function Reflected(body: string): string
    requires |body| >= |EchoPrefix| + |EchoSuffix|
  {
    body[|EchoPrefix|..|body| - |EchoSuffix|]
  }

  /** The echo body is the frame around the one-pass escape of the input. */
  lemma EchoBody(x: string)
    ensures Echo(x).body == EchoPrefix + Escape(x) + EchoSuffix
  {
    ReplaceEscapeIsEscape(x);
  }

  /**
   * The echo body is the frame around the escaped text: the text holds no
   * markup character, and decoding it gives back exactly what was sent.
   */
  lemma EchoReflectsSafely(x: string)
    ensures var b := Echo(x).body;
      b[..|EchoPrefix|] == EchoPrefix && b[|b| - |EchoSuffix|..] == EchoSuffix &&
      (forall i | 0 <= i < |Reflected(b)| :: !IsMarkup(Reflected(b)[i])) &&
      Unescape(Reflected(b)) == x
  {
    var b := Echo(x).body;
    EchoBody(x);
    assert Reflected(b) == Escape(x);
    EscapeHasNoMarkup(x);
    UnescapeEscape(x);
  }

  /** Different inputs give different echo pages. */
  lemma EchoInjective(x: string, y: string)
    requires Echo(x) == Echo(y)
    ensures x == y
  {
    EchoReflectsSafely(x);
    EchoReflectsSafely(y);
  }

  /** Without a query the page says nothing. */
  lemma EchoDefault()
    ensures Echo().body == "<h1>ECHO</h1><div>you said: </div>"
  {
  }

  /** The script payload comes back as text, never as a tag. */
  lemma EchoScript()
    ensures Echo(ScriptPayload).body == EchoPrefix + "&lt;script&gt;alert(1)&lt;/script&gt;" + EchoSuffix
  {
    EchoBody(ScriptPayload);
    EscapeScriptExample();
  }
}
