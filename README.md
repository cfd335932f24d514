# Short-URL registry

A model of the in-memory core of a small URL-shortening web service. The
service keeps two module-level variables: `urlCount`, the next short id
(starting at 1), and `urlDatabase`, an object mapping each original URL to its
short id. `POST /api/shorturl` validates the submitted URL, then either returns
the id already stored for it or takes the current counter value as a new id,
advances the counter and stores the URL. `GET /api/shorturl/:short_url` walks
the object's keys with `for...in` and redirects (301) to the first URL whose
id equals the requested one, or answers 404.

The project has two modules:

- `ShortUrlTable` (`short_url_table.dfy`) describes the registry as a value:
  a `Table` of counter, key order and map. It defines `Register`
  (register-or-get), `Scan`/`Resolve` (the lookup loop) and `RegisterAll` (a
  run of successful POSTs), together with the invariant `Valid`: the i-th key
  inserted holds id i + 1, the counter is one past the last id, and the keys
  are exactly the map's domain. The lemmas state what the service promises:
  idempotent registration, ids in [1, count), no shared ids, count − 1
  entries, lookup inverting registration, NotFound for every id not handed
  out, and ids allocated in increasing order from 1.
- `Shortener` (`shortener.dfy`) is the imperative form of the same core. The
  class `Registry` has the fields `urlCount`, `urlDatabase` and
  `insertionOrder`. The last one is the key order of the JavaScript object,
  which the `for...in` lookup depends on. `RegisterOrGet` and the `Post`
  handler update the fields in place. `Resolve` is the lookup loop, and each
  of them is proved against the functions of `ShortUrlTable`.

Inputs the model does not compute are parameters. The verdict of the
URL-format check (`isUrl`) and the verdict of the network existence check
(`verifyUrlExistence`) arrive as two booleans. The GET path parameter arrives
already converted by JavaScript's loose `==`: `Numeric(n)` for a string that
converts to the integer n, and `NonNumeric` for anything that equals no id.

Three facts about the service shape the model. Validation is the `is-url`
format check followed by a live HTTP(S) GET of the URL. Invalid input is
answered with an ordinary JSON body `{error: 'invalid url'}`. Registration
needs no lock, because it runs synchronously inside one callback.

## Model

| member | source | states |
|---|---|---|
| `ShortUrlTable.Init` | index.js:38-39 | the service starts with counter 1 and an empty table, and that state satisfies the registry invariant |
| `ShortUrlTable.ValidTable` | index.js:67-73 | in every table the invariant admits, each stored id lies in [1, urlCount), no two URLs share an id, the key at position id − 1 is the URL holding that id, the truthiness test `urlDatabase[u]` is exactly key membership, and the table holds urlCount − 1 entries |
| `ShortUrlTable.RegisterSpec` | index.js:67-73 | register-or-get keeps the invariant; a known URL returns its stored id and nothing changes; a new URL returns the old counter value, the counter grows by exactly one, the URL is appended to the key order and mapped to the returned id, and no other entry changes |
| `ShortUrlTable.RegisterIdempotent` | index.js:67-73 | registering the same URL twice in a row returns the same id both times, the second call changes nothing, and the counter advances at most once |
| `ShortUrlTable.Scan` | index.js:83-89 | the key-order scan redirects to the first key, in insertion order, whose stored id matches the request, and answers NotFound exactly when no key matches |
| `ShortUrlTable.ResolveValid` | index.js:83-89 | in a valid table, requesting n with 1 <= n < urlCount redirects to the n-th registered URL; every other request (0, negative, >= urlCount, not a number) gives NotFound |
| `ShortUrlTable.ResolveAfterRegister` | index.js:67-89 | after registering u and receiving k, resolving k redirects to u |
| `ShortUrlTable.ResolveInvertsTable` | index.js:83-87 | every URL held by a valid table is reached by resolving its own id |
| `ShortUrlTable.RegisterAllExtends` | index.js:67-73 | a run of registrations keeps the invariant, appends the new URLs to the key order in order of first appearance, never changes an existing entry, and every id it returned is the one the final table holds for that URL |
| `ShortUrlTable.RegisterAllFreshIds` | index.js:71-73 | a URL unknown when a run starts receives an id no smaller than the counter at the start, so ids are never reused |
| `ShortUrlTable.RegisterAllIncreasing` | index.js:71-73 | the id given to a URL on its first appearance is strictly larger than every id returned earlier in the run |
| `ShortUrlTable.FirstAppearanceIds` | index.js:38-73 | starting from the initial state, every id a run of POSTs returns is the 1-based position of its URL in the order of first appearance, so new URLs receive 1, 2, 3, … |
| `Shortener.Registry.constructor` | index.js:38-39 | a fresh registry has counter 1, an empty table and an empty key order, and satisfies the invariant |
| `Shortener.Registry.RegisterOrGet` | index.js:67-75 | keeps the invariant and performs register-or-get in place: a known URL returns its stored id with the registry unchanged; a new URL returns the old counter value, increments the counter, appends the URL to the key order and maps it to that id |
| `Shortener.Registry.Post` | index.js:53-77 | if either validation verdict is false the reply is the invalid-url error and the registry is unchanged; otherwise the reply carries the URL and the id register-or-get returns, and the registry is the registered state |
| `Shortener.Registry.Resolve` | index.js:80-90 | the lookup loop only reads the registry; it redirects only to a stored URL whose id matches the request, answers NotFound exactly when no stored id matches, and the answer is the n-th registered URL for 1 <= n < urlCount and NotFound otherwise |

## Left out

- Express setup, CORS, body parsing, static files, the root and `/api/hello` routes and `app.listen` (index.js:2-35, 93-95): framework wiring and I/O.
- The `is-url` format check (index.js:57): a call into a library whose source is not part of this model; its verdict is the `isUrl` parameter of `Post`.
- `verifyUrlExistence` (index.js:42-50): an outbound HTTP(S) request reporting through a callback; only its verdict is modelled, as the `reachable` parameter of `Post`. A request that never answers (there is no timeout) leaves the POST without a reply, which the model does not represent.
- POSTs that fail with an exception: `protocol.get` (index.js:43-45) throws synchronously when the URL's scheme does not suit the module chosen by the case-sensitive `startsWith('https')` test, for example `ftp://example.com` or `HTTPS://example.com`, both accepted by the format check. The exception escapes the handler, the framework answers 500 and the registry is untouched. `Post` has no outcome for this; an input of this kind is not "rejected as invalid" by this code. This rests on the behaviour of Node's `http`/`https` modules and of `is-url`, whose sources are not part of this model.
- `ShortUrlTable.Table`: the counter is an unbounded `nat`. In the service `urlCount` is a JavaScript double, and `urlCount++` (index.js:71) stops advancing at 2^53, after which every new URL would receive the same id and ids would no longer be unique. The model does not capture this saturation, which needs 2^53 registrations to reach.
- The `url-parse` import (index.js:8) is never used.
- JavaScript's loose `==` between the string path parameter and the numeric id (index.js:84): the model receives the already converted value (`RequestedId`); non-integer numbers such as `"1.5"` fall under `NonNumeric`, since they equal no id.
- Object-key quirks of JavaScript: `for...in` visits integer-like keys before others, and keys such as `constructor` or `__proto__` read inherited properties. Neither can be a URL accepted by the format check, so the model treats keys as plain strings visited in insertion order.
- A request body whose `url` field is missing or not a string: the format check rejects it, so the model takes the URL as a string.
- Concurrency: Node runs the check-allocate-insert sequence synchronously inside one callback, so there is no interleaving; the asynchronous gap is only between validation and registration, which the model treats as one step.
- The JSON and redirect encodings of the replies: `PostResult` and `Lookup` carry their content.
