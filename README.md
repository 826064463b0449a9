# hash-archive: a Dafny model of its hash codec and archive bookkeeping

Hash Archive is a small web service. It fetches a URL, stores the digests of what
it got back, and looks resources up by URL or by hash. This project models two parts of it:

- **The hash-identifier codec (`hash.js`).**
  - `parse` reads four textual forms of a digest: `hash://algo/hex`, `algo-base64`, `ni:///algo;base64url` (section 3 of RFC 6920) and a base58 multihash. Each gives a `(type, algo, data)` triple.
  - `format` writes the triple back in a chosen form.
  - `normalize` is `format` after `parse`.
  - `variants` builds the table of every form.
  - The model also covers the algorithm-name tables, their inversion by `map_invert`, and the base64 ↔ base64url rewrite.
  - Hex is section 8 of RFC 4648 and base64 is section 4. Base58 uses the Bitcoin alphabet. The multihash header is one code byte and one length byte. All four are modelled concretely:
    - `base16.dfy`, `base64.dfy`, `base58.dfy` and `multihash.dfy`;
    - `radix.dfy` for the positional arithmetic behind base58.
- **The archive's bookkeeping (`index.js`), over in-memory tables.**
  - `pool.dfy`: the connection pool `db_open` / `db_close`.
  - `archive.dfy`:
    - the freshness decision and conditional enqueue of `request_bump`;
    - the dequeue watermark of `request_load_one`;
    - `response_store` / `response_store_hashes` with their insert-or-ignore hash table;
    - `responses_load`.
  - `crawl.dfy`:
    - the crawl control of `url_check_and_stat` / `url_stat`, with the robots check, the HTTP reply and the digest as parameters;
    - the error normalisation of `request_error`.
  - `url.dfy`: `url_normalize`, over a parsed-URL record.
  - `lookup.dfy`: the routing of `POST_lookup`, including JavaScript's `parseInt`.
  - `rotate.dfy`: the nested-dictionary transpose `dict_2d_rotate`.

Each model keeps the form of its source:
- The pool and the tables are classes whose methods update their fields.
  - `map_invert`, `variants`, `response_store_hashes`, `responses_load` and `dict_2d_rotate` are methods with loops.
  - Each is proved against a reference function.
- The parsers, `format`, `normalize`, the classifications and the routing are functions.

The shared pieces are in their own modules:
- `wrappers.dfy`: `Option`, and `byte`.
- `text.dfy`: character classes, lower-casing, `trim`, splitting and replacement.
- `dict.dfy`: building a dictionary from key/value entries, where the later entry wins.

## Model

| member | source | states |
|---|---|---|
| Hash.Parse | hash.js:34-67 | no contract of its own: `Hash.ParseOrder`, `Hash.ParsedAlgorithm` and `Hash.ParsedWellFormed` specify it |
| Hash.Format | hash.js:68-81 | no contract of its own: `Hash.FormatDefined`, `Hash.FormatNonEmpty` and `Hash.ParseFormat` specify it |
| Hash.Normalize | hash.js:82-86 | no contract of its own: `Hash.NormalizeNull` and `Hash.NormalizeIdempotent` specify it |
| Hash.MapInvert | hash.js:19-25 | the loop builds exactly `Invert(e)`: each value maps to its key, later entries winning |
| Hash.InvertAt | hash.js:19-25 | for an injective table every value maps back to its own key, and every key of the inversion comes from some entry |
| Hash.InvertIsInverse | hash.js:11-25 | for an injective table, the table and its inversion undo each other in both directions |
| Hash.NameTables | hash.js:11-17 | `algo_to_mh` and `mh_to_algo` are the four-entry tables as written; each maps every name back through the other; every wire name has a multihash code |
| Hash.MatchersExclusive | hash.js:35-38 | no text matches two of the four patterns, so their order only matters through the multihash fallback |
| Hash.ParseOrder | hash.js:34-67 | a hash-uri match gives type hash-uri, else a prefix match gives prefix, else a named-info match gives named-info, else a base58 text is decoded as a multihash; `parse` is null exactly when nothing matches or that decoding fails |
| Hash.ParsedAlgorithm | hash.js:40-63 | the algorithm is the lower-cased match for the three textual forms; for a multihash it is `mh_to_algo` of the wire name when known and the wire name otherwise |
| Hash.ParsedWellFormed | hash.js:34-67 | a parsed triple has one of the four types and a non-empty lower-case algorithm in the pattern's character class |
| Hash.WireNameBack | hash.js:61-78 | a known wire name that parsing maps back to an algorithm is what `algo_to_mh` maps that algorithm to |
| Hash.FormatDefined | hash.js:68-81 | `format` is null exactly for an unknown type (including "hash-uri-b64"), or for a multihash whose algorithm is outside sha1/sha256/sha512/sha3 or whose digest is longer than 127 bytes |
| Hash.FormatNonEmpty | hash.js:68-81 | a non-null `format` is never the empty text |
| Hash.ParseFormatHashUri | hash.js:40-71 | parsing the hash-uri form of an admissible triple gives the triple back |
| Hash.ParseFormatPrefix | hash.js:45-75 | parsing the prefix form of an admissible triple gives the triple back |
| Hash.MatchNamedInfoOf | hash.js:37 | `ni:///` + algorithm + `;` + base64url text matches with exactly those two groups |
| Hash.ParseFormatNamedInfo | hash.js:50-73 | parsing the named-info form of an admissible triple gives the triple back |
| Hash.ParseFormatMultihash | hash.js:55-78 | parsing a non-null multihash form of at least 8 characters of a non-empty digest gives the triple back |
| Hash.ParseFormat | hash.js:34-81 | `parse(format(t, a, d)) == (t, a, d)` for every admissible triple whose form is non-null (and, for a multihash, at least 8 characters long) |
| Hash.MultihashLongEnough | hash.js:76-78 | a multihash of a digest of at least 4 bytes is at least 8 base58 characters, so the pattern's length bound then holds |
| Hash.NormalizeNull | hash.js:82-86 | `normalize` is null exactly when `parse` is null or the parsed multihash algorithm has no `algo_to_mh` entry |
| Hash.NormalizeMultihash | hash.js:82-86 | a multihash that normalizes is its own normal form |
| Hash.NormalizeIdempotent | hash.js:82-86 | for a non-empty digest the normal form parses to the same triple, and normalizing it again changes nothing |
| Hash.NormalizeNonEmpty | hash.js:82-86 | a non-null normal form is never empty |
| Hash.Variants | hash.js:87-100 | the table has exactly the five listed keys; each value is `format` of that key; "hash-uri-b64" is always null; hash-uri, named-info and prefix are never null; multihash is non-null exactly for a tabled algorithm and a digest of at most 127 bytes |
| Text.LowerIsLower | hash.js:42-52 | lower-casing yields lower-case text and is idempotent |
| Text.Trim | index.js:439 | the result is a contiguous slice of the input with no JavaScript white space at either end, and everything removed before and after it is white space |
| Text.TrimStartSkips | index.js:432 | leading white space does not change what `TrimStart` returns |
| Base16.Encode | hash.js:71 | two lower-case hex digits per byte |
| Base16.DecodeEncode | hash.js:43 | hex decoding inverts the hex encoding `format` writes |
| Base64.DecodeEncode | hash.js:48 | base64 decoding inverts the padded base64 encoding `format` writes |
| Base64.UrlEncodeIsUrlChars | hash.js:28 | `base64_url_enc` is the base64url alphabet over the same sextets, without padding |
| Base64.UrlRoundTrip | hash.js:27-32 | `base64_url_dec(base64_url_enc(b)) == b` |
| Base64.UrlAlphabet | hash.js:27-29 | the base64url text is only word characters and `-`, has no `/`, `+` or `=`, and is non-empty for non-empty input |
| Base58.Decode | hash.js:57 | decoding succeeds exactly on texts over the base58 alphabet |
| Base58.DecodeEncode | hash.js:57 | base58 decoding inverts encoding, leading zero bytes included |
| Base58.EncodeDecode | hash.js:78 | encoding inverts decoding on every text over the alphabet |
| Radix.ValueOfDigits | hash.js:78 | the value of the digits of `n` is `n` |
| Radix.DigitsOfValue | hash.js:57 | digits without a leading zero are the digits of their value |
| Radix.Canonical | hash.js:57 | a digit string is its leading zeros followed by the digits of its value |
| Multihash.CodeTableBijective | hash.js:58 | the function-code table maps codes to names and back, both ways |
| Multihash.Decode | hash.js:58 | a decoded buffer is 3 to 129 bytes: a tabled code, a length byte equal to the digest length, then the digest |
| Multihash.Encode | hash.js:78 | encoding succeeds exactly for a tabled name and a digest of at most 127 bytes, and adds two bytes |
| Multihash.DecodeEncode | hash.js:58 | decoding inverts encoding for a non-empty digest |
| Multihash.EncodeDecode | hash.js:78 | every buffer that decodes is the encoding of its parts |
| Connections.Pool.Open | index.js:36-41 | with a free handle, the most recently freed one is handed out; otherwise the caller joins the waiting list; no handle is lost or duplicated |
| Connections.Pool.Close | index.js:42-48 | the handle goes to the most recently queued waiter if any, else back to the free list; waiting and free are never both non-empty |
| Crawl.RequestError | index.js:115-123 | "ENOTFOUND" and "ECONNREFUSED" map to their codes, any other name to the unknown code, a number is kept; the result has no digests and stamps the time |
| Crawl.RobotsGate | index.js:126-154 | a non-200 robots reply or an allowing robots.txt lets the crawl go on; a forbidding one fails with the blocked code |
| Crawl.Digests | index.js:178-194 | the `hashes` object has distinct keys, exactly md5, sha1, sha256, sha384 and sha512, each mapped to the digest of the whole body under that algorithm |
| Crawl.CheckAndStat | index.js:155-224 | no contract of its own: `Crawl.CrawlBounds`, `Crawl.ChainFrom` and `Crawl.CrawlFinal` specify it |
| Crawl.Settle | index.js:103-104 | no contract of its own: `Crawl.SettledCrawl` specifies it |
| Crawl.TooManyRedirects | index.js:214-218 | at redirect count 5 or more the crawl fails with the redirect code before any request |
| Crawl.RobotsStopsCrawl | index.js:219-222 | a robots failure ends the crawl with that error and no resource request |
| Crawl.CrawlBounds | index.js:155-224 | one crawl issues at most `5 - count` resource requests, each after a robots check that passed, and a fetched result comes from a reply that is not a redirect |
| Crawl.ChainFrom | index.js:213-224 | following a redirect chain (each 3xx with a location recursing with the count raised by one) from any position fetches the rest of it, or fails with the redirect code once 5 hops are reached |
| Crawl.RedirectLimit | index.js:170-176 | from count 0, a chain of at most 4 redirects is followed to its end, and one of 5 or more fails with the redirect code |
| Crawl.SettledCrawl | index.js:103-104 | a failed crawl settles to a response with no digests and the error code; a fetched one keeps the final reply's status and digests |
| Crawl.CrawlFinal | index.js:196-205 | a fetched result has the status and body digests of the final reply and the crawl's time |
| Url.Normalize | index.js:226-242 | null exactly for a protocol other than http:/https: or an empty host; otherwise the host is lower-cased, auth, slashes and fragment are dropped, port and query are kept, and an empty path becomes "/" |
| Url.NormalizeIdempotent | index.js:226-242 | normalizing a normalized record changes nothing |
| Url.NormalizeText | index.js:226-242 | a text normalizes exactly when its parsed record does |
| Lookup.ParseInt | index.js:432 | no contract of its own: the `Lookup.ParseInt…` lemmas below specify it |
| Lookup.PostLookup | index.js:429-471 | no contract of its own: `Lookup.LookupReplies` specifies it |
| Lookup.ParseIntSkipsSpace | index.js:432 | `parseInt` ignores leading white space |
| Lookup.ParseIntStops | index.js:432 | `parseInt` stops at the first non-digit |
| Lookup.ParseIntPlus | index.js:432 | a leading `+` does not change the value |
| Lookup.ParseIntMinus | index.js:432 | a leading `-` negates the value |
| Lookup.ParseIntDecimal | index.js:432 | `parseInt` of the decimal text of `n` is `n` |
| Lookup.ParseIntNaN | index.js:432-433 | a missing header ("undefined") and the empty text give NaN |
| Lookup.LengthGate | index.js:432-433 | a numeric content length is refused exactly when it is over 1000 |
| Lookup.LookupReplies | index.js:429-471 | other verbs or paths are declined; NaN or a length over 1000 gives 403; a missing `str` gives 400; a `str` given more than once sends no reply; an empty `str` redirects to `/`; a URL wins over a hash; otherwise `/error.html` |
| Lookup.DecideSources | index.js:451-465 | a redirect to `/sources/h` happens only when the hash normalized to `h` |
| Lookup.SourcesTargetCanonical | index.js:451-465 | the hash in a `/sources/` redirect is the normal form of the input and is itself normalized |
| Archive.LatestRequest | index.js:286-291 | the request with the largest id for the URL, or none when the URL was never requested |
| Archive.LatestAnswer | index.js:285-293 | none exactly when the URL was never requested; otherwise the row of a request for the URL with the largest id, whose time is null exactly when nobody answered it |
| Archive.AnswerTime | index.js:288-289 | the time of a response to the request, null exactly when it has none |
| Archive.Classify | index.js:295-308 | pending exactly when the latest request has no (or a zero) response time; fresh exactly when its response time is set and at least `now - 86400000`; pending implies outdated |
| Archive.FreshnessBoundary | index.js:302 | the 24-hour limit is strict: an answer exactly 24 hours old is still fresh, one older is outdated |
| Archive.BumpThenPending | index.js:309-327 | right after an enqueue the URL is pending, so a later bump adds no row |
| Archive.Db.RequestBump | index.js:282-330 | returns the classification's `outdated`; appends exactly one request iff outdated and not pending; nothing else changes |
| Archive.NextUnanswered | index.js:262-267 | an unanswered request above the watermark with the smallest request time, or none when there is none |
| Archive.Db.RequestLoadOne | index.js:260-281 | returns that request and moves the watermark up to its id, or returns none and leaves the watermark |
| Archive.FindHash | index.js:365-366 | a hash row with that algorithm and digest, none exactly when there is none |
| Archive.InsertOrIgnore | index.js:360-361 | adds a row only when the (algorithm, digest) pair is new |
| Archive.InsertKeepsUnique | index.js:360-366 | insert-or-ignore keeps the pairs unique and the ids numbered, and the lookup then finds the row |
| Archive.StoreHashesSpec | index.js:352-381 | storing keeps the old hash rows, keeps pairs unique, and appends one link per entry to the row with that entry's pair |
| Archive.StoreHashes | index.js:352-381 | no contract of its own: `Archive.StoreHashesSpec` and `Archive.StoreThenLoad` specify it |
| Archive.Db.StoreHashesFor | index.js:352-381 | the loop leaves the tables as `StoreHashes` describes, nothing else changes |
| Archive.Db.ResponseStore | index.js:331-351 | appends one response row with the next id, then stores its digests |
| Archive.NewestFirst | index.js:384-389 | exactly the responses to requests for the URL |
| Archive.NewestFirstDescending | index.js:389 | in descending response id |
| Archive.History | index.js:382-390 | no contract of its own: `Archive.HistorySpec` specifies it |
| Archive.HistorySpec | index.js:382-390 | at most 30 responses for the URL, newest first; any left out is older than all 30 kept |
| Archive.HashByIdIsRow | index.js:399 | with numbered ids, the join on `hash_id` finds that row |
| Archive.HashPairsConcat | index.js:397-400 | the digests of a response over two runs of links are those of each run in turn |
| Archive.HashPairsOfNew | index.js:397-400 | links that point to matching hash rows read back as the stored entries |
| Archive.StoreThenLoad | index.js:352-414 | what `response_store_hashes` stores for a new response is what `responses_load` reads back for it |
| Archive.Db.ResponsesLoad | index.js:382-414 | one entry per history response, in order, each with the dictionary of its digests |
| Archive.StoredDigestsReadBack | index.js:352-414 | with distinct algorithms, each stored digest is found under its algorithm in the loaded dictionary |
| Dict.TableKeys | index.js:405-407 | the dictionary's keys are exactly the entries' keys |
| Dict.TableAt | index.js:405-407 | with distinct keys, each key maps to its entry's value |
| Rotate.Rotate2D | index.js:244-253 | the nested loops build exactly the transpose, whatever order the keys are visited in |
| Rotate.RotatedAt | index.js:244-253 | `out[d2][d1]` exists exactly when `obj[d1][d2]` does, and they are equal |
| Rotate.RotatedRowsNonEmpty | index.js:248 | an inner dictionary of the result is created only when an entry is put in it |
| Rotate.RotatedSet | index.js:248-249 | setting `obj[d1][d2]` and transposing is transposing and setting `out[d2][d1]` |
| Rotate.RotatedUnique | index.js:244-253 | the transpose is the only dictionary with the swapped entries and no empty inner dictionary |
| Rotate.RotateTwice | index.js:244-253 | transposing twice gives the input back exactly when none of its inner dictionaries is empty |

## Left out

- I/O is left out. This covers the HTTP(S) servers, static files, templates, MIME types, `http_error`, configuration loading, `stream_text` and the GET handlers (`GET_history`, `GET_sources`, `GET_index`); it is not bookkeeping.
- Robots parsing is left out; `crawl.dfy` takes the robots reply as a parameter. Fetches and the HTTP reply are parameters too, and so is the digest (`crypto.createHash`), taken as a function from algorithm and body to bytes.
- `url.parse` and `url.format` are library calls. They are parameters of `Url.NormalizeText`; `Url.Normalize` works on the parsed record.
- `qs.parse` of the request body is taken as given. `PostLookup` receives the parsed form, each field with the list of its values, or none when the body could not be read. A field given once is a string in JavaScript; a field given more than once is an array, which has no `trim`, so the handler throws and sends no reply (`NoReply`).
- SQLite is replaced by in-memory tables. This leaves out SQL text, transactions, `busy_timeout` and the row order SQLite gives to ties. The `response_hashes` join in `responses_load` has no `ORDER BY`, so its row order is unspecified; the model reads the links in insertion order, and the resulting dictionary is the same in any order because a response's algorithms are distinct.
  - Row ids are the row numbers.
  - A tie in request time goes to the earliest row.
  - The response time joined to a request is that of its first response.
- Concurrency is left out: the worker counter and the spawning of workers, the periodic `recent_urls_update`, and the race re-check in `request_load_one`. In a sequential model the watermark test never fails.
- `errno.js` is not part of this model. The error codes are distinct negative constants (-1 to -5).
- Crawl.RequestError: does not model the `typeof` test on values that are neither strings nor numbers (an errno is a name, a number or absent).
- Base16.Decode: its contract states only the length bound and the round trip. Its body follows Node's decoder, which stops at the first pair that is not two hex digits; no lemma describes that malformed-input behaviour.
- Base64.Decode: like Node's decoder, its body accepts both alphabets, skips other characters and stops at `=`. Only the round trips describe it; no lemma covers malformed input.
- Multihash.Decode: application-specific codes (0x00-0x0f) and codes outside the six-entry table are rejected. The code and length are single bytes, so a digest over 127 bytes cannot be encoded; the library throws there and the model returns none. The `multihashes` and `bs58` packages are not part of this model, and their behaviour is stated as an assumption in `multihash.dfy` and `base58.dfy`.
- Text.Trim: JavaScript white space is the fixed set in `Text.IsJsSpace`; there is no Unicode database.
- A `string` is a sequence of Unicode scalar values, while a JavaScript string is a sequence of UTF-16 code units. `Text.Lower`, `Text.Trim` and the identifier matchers work per character. Every character they test for lies in the Basic Multilingual Plane, where the two views agree, so the model does not state what happens to a lone surrogate code unit.
- Hash.Format: `multihash.encode` throws for a multihash digest over 127 bytes (hash.js:78); the model returns none there, as it does for the other null cases.
- Hash.Variants: the same throw gives a null `multihash` entry in the model, where the source's `variants` would throw (hash.js:96-98).
- Url.NormalizeText: the `typeof url !== "string"` test (index.js:227) returning null is left out; its only caller passes the trimmed text of the form, which is always a string.
- Where the code's behaviour may be unexpected, the model follows the code:
  - The pool serves waiters most-recent-first, since both lists use `pop`.
  - A crawl follows at most 4 redirects, because the fifth hop is refused before its request.
  - `request_bump` reports only `outdated`.
  - `!row.response_time` treats a zero response time as pending.
- `dict_2d_rotate` is not called anywhere in the source. It is modelled on its own, with string keys, as JavaScript object keys are; the order of `Object.keys` is left open.
