# secdev-lite-template-ds: security headers and the echo route

The application is a small FastAPI service. This model covers the parts
of `app/main.py` whose behaviour the application defines itself:

- **`add_security_headers`**, an HTTP middleware. It takes the response
  produced by the route handler and calls `response.headers.setdefault`
  twelve times, once for each fixed (name, value) pair, in a fixed order.
  One of the values is a Content-Security-Policy string assembled from six
  directives. The same response object is then passed on.
- **`healthz`**, which answers with the plain-text body `OK`.
- **`echo`**, which escapes its query parameter `x` (default empty) with
  `html.escape(x, quote=True)` and places the result inside the frame
  `<h1>ECHO</h1><div>you said: ` … `</div>`.

The project has four modules:

- `Wrappers` holds the `Option` type.
- `Headers` models the response headers.
  - A response keeps its headers as a raw list of (name, value) pairs.
    Names are stored in lower case.
  - `setdefault` lower-cases its key and looks for the first entry with
    that name. If it finds one, it returns that value. Otherwise it
    appends the pair.
  - `Response` is a class whose `SetDefault` method changes the list in
    place.
  - `ApplyDefaults` is the pure function giving the list after one
    `setdefault` per table entry.
- `Html` models `html.escape`.
  - `ReplaceEscape` is CPython's chain of `str.replace` calls.
  - `Escape` is the escape done in one pass over the characters.
  - `ReplaceEscapeIsEscape` proves the two are the same.
  - `Unescape` decodes the five references, and `UnescapeEscape` proves
    it undoes `Escape`.
- `Main` holds the policy constant, the table of twelve defaults, the
  middleware as a module-level method that takes a `Response` and calls
  its `SetDefault` twelve times, the two routes as functions, and the
  facts about them.

## Model

| member | source | states |
|---|---|---|
| Headers.Lower | app/main.py:22-36 | lower-casing a header key keeps its length |
| Headers.LowerIsLower | app/main.py:22-36 | a lower-cased key has no upper-case letter; a key that is already lower case is left unchanged |
| Headers.Lowered | app/main.py:22-36 | a table with its names lower-cased, as the raw list stores them, satisfies the stored-name invariant: every name is lower case |
| Headers.Lookup | app/main.py:22-36 | no contract of its own: the value of the first entry whose stored name equals the given (lower-case) name, or none; `LookupFound` and `LookupConcat` state its contract |
| Headers.LookupFound | app/main.py:22-36 | a lookup by exact, stored (lower-case) name finds nothing exactly when no entry has the name; what it finds is stored under that name |
| Headers.LookupConcat | app/main.py:22-36 | the first match in a joined list comes from the front part when the name is there, and from the back part otherwise |
| Headers.WithDefault | app/main.py:22-36 | no contract of its own: the header list after `setdefault(key, value)`, unchanged when the lower-cased key is stored and otherwise with the lower-cased pair appended; `WithDefaultLookup` states its contract |
| Headers.DefaultedValue | app/main.py:22-36 | no contract of its own: the value `setdefault(key, value)` returns, the stored value or else `value`; `WithDefaultLookup` states its contract |
| Headers.ApplyDefaults | app/main.py:22-36 | no contract of its own: one `setdefault` per table entry, in table order; `ApplyDefaultsLookup`, `ApplyDefaultsAppends`, `ApplyDefaultsKeepsInvariants`, `ApplyDefaultsPresent`, `ApplyDefaultsWhenPresent` and `ApplyDefaultsIdempotent` state its contract |
| Headers.WithDefaultLookup | app/main.py:22-36 | one `setdefault` keeps the old list as a prefix and adds at most one entry. The name then has its old value if it had one, and the given value otherwise. The returned value is that value. No other name changes. Lower-case names and distinct names are both preserved |
| Headers.ApplyDefaultsSnoc | app/main.py:22-36 | applying a table and then one more `setdefault` is the same as applying the longer table |
| Headers.ApplyDefaultsLookup | app/main.py:22-36 | after the defaults, a name the handler set keeps the handler's value; any other name has the value of its first table entry, or is absent |
| Headers.ApplyDefaultsAppends | app/main.py:22-36 | the defaults only append: the old list is a prefix, at most one entry is added per table row, and each added entry is a name missing before, carrying its first table value |
| Headers.ApplyDefaultsKeepsInvariants | app/main.py:22-36 | the defaults keep stored names lower case and keep them distinct |
| Headers.ApplyDefaultsPresent | app/main.py:22-36 | after the defaults every table name is present |
| Headers.ApplyDefaultsWhenPresent | app/main.py:22-36 | when every table name is already present, the defaults change nothing |
| Headers.ApplyDefaultsIdempotent | app/main.py:22-36 | running the defaults a second time gives the same list as running them once |
| Headers.LookupDistinctTable | app/main.py:22-36 | in a table whose lower-cased names are distinct, looking up an entry's name finds that entry's value |
| Headers.ApplyDefaultsOrderIrrelevant | app/main.py:22-36 | two tables with no name in common give the same lookups whichever is applied first |
| Headers.Response.constructor | app/main.py:13 | the handler's response carries its status and body, and its header list with names lower-cased |
| Headers.Response.SetDefault | app/main.py:22-36 | `headers.setdefault(key, value)` changes only the header list, to the `setdefault` result, keeps names lower case, and returns the value the name now has |
| Main.Csp | app/main.py:14-21 | the policy value, the concatenation of the six directives in source order; `CspAdded` states what the middleware does with it |
| Main.SecurityHeaders | app/main.py:22-36 | the twelve (name, value) defaults in the order of the calls; `SecurityNamesDistinct` and `SecurityHeaderValue` state their contract |
| Main.ApplyTwelve | app/main.py:22-36 | a twelve-row table applied as a whole equals twelve `setdefault` calls in table order |
| Main.AddSecurityHeaders | app/main.py:11-37 | the middleware returns the same response object, with its header list updated by the twelve defaults in source order, and its status and body unchanged |
| Main.SecurityNamesDistinct | app/main.py:22-36 | the twelve header names are distinct once lower-cased |
| Main.SecurityHeaderValue | app/main.py:22-36 | after the middleware each of the twelve headers has the handler's value if the handler set one, and the table's value otherwise |
| Main.OtherHeadersUntouched | app/main.py:13 | a header whose name is not in the table is looked up exactly as before the middleware |
| Main.CspAdded | app/main.py:14-21 | a response without a Content-Security-Policy header leaves with the header `content-security-policy` set to the six-directive policy |
| Main.Healthz | app/main.py:49-51 | the health route answers 200 with the plain-text body `OK` |
| Main.Echo | app/main.py:53-57 | the echo route answers 200 with an HTML body at least as long as the frame |
| Main.EchoBody | app/main.py:56-57 | the echo body is the frame wrapped around the one-pass escape of `x` |
| Main.EchoReflectsSafely | app/main.py:56-57 | the echo body starts with the frame's prefix and ends with its suffix. The text between contains no markup character, and decoding it gives back `x` exactly |
| Main.EchoInjective | app/main.py:54-57 | different inputs give different echo pages |
| Main.EchoDefault | app/main.py:54 | with the default empty `x`, the body is exactly `<h1>ECHO</h1><div>you said: </div>` |
| Main.EchoScript | app/main.py:56-57 | the payload `<script>alert(1)</script>` is reflected as `&lt;script&gt;alert(1)&lt;/script&gt;` inside the frame |
| Html.Escape | app/main.py:56 | no contract of its own: the one-pass reference escape, each character replaced by its `EscapeChar`; `EscapeHasNoMarkup`, `EscapeAmpersandsAreEntities`, `EscapeFixedPoint`, `EscapeConcat` and `UnescapeEscape` state its contract |
| Html.Replace | app/main.py:56 | no contract of its own: `str.replace(ch, rep)` for one character `ch`; `ReplaceConcat` and `ReplaceAbsent` state its contract |
| Html.ReplaceEscape | app/main.py:56 | no contract of its own: CPython's `html.escape`, the `str.replace` chain with `&` first and the quote steps when `quote` is true; `ReplaceEscapeIsEscape` states its contract |
| Html.EscapeChar | app/main.py:56 | an ordinary character maps to itself. A special character maps to one of the five references. No replacement holds a markup character, and only the first character of a replacement can be `&` |
| Html.EscapeConcat | app/main.py:56 | escaping distributes over concatenation |
| Html.EscapeHasNoMarkup | app/main.py:56 | escaped text contains none of `<`, `>`, `"`, `'` |
| Html.EscapeAmpersandsAreEntities | app/main.py:56 | every `&` in escaped text starts one of `&amp;`, `&lt;`, `&gt;`, `&quot;`, `&#x27;` |
| Html.EscapeFixedPoint | app/main.py:56 | escaping never shortens a string, and leaves it unchanged exactly when it has none of the five special characters |
| Html.ReplaceConcat | app/main.py:56 | a one-character `str.replace` distributes over concatenation |
| Html.ReplaceAbsent | app/main.py:56 | `str.replace` of a character the string lacks changes nothing |
| Html.ReplaceEscapeConcat | app/main.py:56 | the replace chain distributes over concatenation |
| Html.ReplaceEscapeChar | app/main.py:56 | on one character the replace chain gives that character's one-pass escape |
| Html.ReplaceEscapeIsEscape | app/main.py:56 | the `str.replace` chain with `&` first and the one-pass escape agree on every string |
| Html.UnescapeEscape | app/main.py:56 | decoding undoes escaping, so no input is lost |
| Html.EscapeInjective | app/main.py:56 | different inputs escape to different outputs |
| Html.EscapeScriptExample | app/main.py:56 | `<script>alert(1)</script>` escapes to `&lt;script&gt;alert(1)&lt;/script&gt;` |

## Left out

- The `index` route and its Jinja2 template (app/main.py:40-47). The template is not part of this model, and its escaping belongs to the template engine.
- The FastAPI application object, routing, query-parameter parsing, and the byte encoding of bodies. These are framework plumbing. A route is modelled as a `Page` of status code, media type and body text.
- The headers a response class adds when it is built (`content-length`, `content-type`). `Response` is built from the header list the handler chose.
- `async`/`await` and `call_next` (app/main.py:12-13). The handler's result is a parameter of `AddSecurityHeaders`. Nothing runs concurrently.
- Responses the framework produces itself (404, 405, 500) and the HTTP transport.
- Headers.Lower: lower-cases only the ASCII letters `A`-`Z`. Python's `str.lower` also maps other Unicode letters. Every name in the table is ASCII, so the difference only matters for keys a handler invents.
- Headers.Response.SetDefault: Starlette's own loop over the raw list is not part of this model. The first-match lookup it performs is stated by the `Lookup` function instead.
- Main.Csp: the policy is the concatenation of its six directives, matching the source's adjacent string literals. It is not also restated as one literal.
- `html.escape(s, quote=False)`: `ReplaceEscape` has a `quote` parameter, but the application only passes `True`, so only that case is proved equal to `Escape`.
