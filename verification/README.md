# ngx-encrypt-cookie, modelled in Dafny

A model of `NgxEncryptCookieService`, the Angular service that reads and
writes browser cookies and can store their values AES-encrypted. The
service is constructed with whether it runs in a browser. It reads
`document.cookie` in two ways:

- `check`, `get` and the private `decrypt` look up one cookie with the
  regular expression `getCookieRegExp` builds;
- `getAll` and the private `getAllCookies` split the header at `;` and `=`
  into a dictionary.

It writes `document.cookie` in `set`, `delete` and `deleteAll`, and derives
keys with PBKDF2 in `generateKey`.

The model is organised by what the service relies on:

- `JsText` (js_text.dfy): `split`, `indexOf`, the `replace(/^ /, '')` trim,
  the `\s` and line-terminator classes, and the ways a call completes
  (a value, `undefined`, or a throw).
- `UriComponent` (uri_component.dfy): `encodeURIComponent` over UTF-8,
  `decodeURIComponent` with its `URIError` cases, and
  `safeDecodeURIComponent`.
- `CookieRegExp` (cookie_regexp.dfy): the escaping in `getCookieRegExp`, and
  the pattern `(?:^N|;\s*N)=(.*?)(?:;|$)` as a matcher that follows the
  backtracking order of an ECMAScript regular expression. The matcher is
  also characterised without that order.
- `CookieHeader` (cookie_header.dfy): the dictionary of a header, the
  one-cookie lookup, and round trips over headers in the form a browser
  presents them (stored pairs joined by `"; "`).
- `SetCookie` (set_cookie.dfy): the cookie string `set` builds, and a
  strict reader that recovers from it everything `set` was asked for.
- `Crypto` (crypto.dfy): the injected AES and PBKDF2 primitives and
  `generateKey`.
- `EncryptCookieService` (service.dfy): the `Document` (its header, and the
  log of strings assigned to `document.cookie`) and the service class.

Methods change the document's assignment log; the lookups are functions of
the header.

Two of the proved lemmas show a behaviour of the service that is easy to
miss. When a header holds the same name twice, `get` returns the first
value (`FindCookieInBrowserHeader`), but `getAll(false)` keeps the last one
(`CookieMapOfBrowserHeader`; the contract of `GetAll` says that
`getAll(false)` returns the dictionary that lemma describes).

The forced secure flag follows the code at lines 265-273 of
`ngx-encrypt-cookie.service.ts`. The warning logged there gives sameSite
`None` as the reason, but the code forces only an explicit `false` together
with `None`; an absent flag is not forced (`SecureWritten`).

A header segment without `=` gives the value
`decodeURIComponent(undefined)`, which is the string "undefined"
(`EntryValue`).

## Model

| member | source | states |
|---|---|---|
| JsText.Split | projects/ngx-encrypt-cookie/src/lib/ngx-encrypt-cookie.service.ts:192-193 | `split` always yields at least one piece, and no piece contains the separator |
| JsText.JoinSplit | projects/ngx-encrypt-cookie/src/lib/ngx-encrypt-cookie.service.ts:192 | joining the pieces of a split with the separator gives back the original text |
| JsText.SplitJoin | projects/ngx-encrypt-cookie/src/lib/ngx-encrypt-cookie.service.ts:192-193 | splitting a join of separator-free pieces gives back the pieces |
| JsText.SplitCons | projects/ngx-encrypt-cookie/src/lib/ngx-encrypt-cookie.service.ts:192 | a separator-free text followed by the separator is the first piece of the split |
| JsText.SplitPrefix | projects/ngx-encrypt-cookie/src/lib/ngx-encrypt-cookie.service.ts:192 | separator-free text put in front only extends the first piece |
| JsText.IndexOf | projects/ngx-encrypt-cookie/src/lib/ngx-encrypt-cookie.service.ts:192-193 | the search for the separator inside `split`: the result is the first position of the character, or the length when there is none |
| JsText.StripLeadingSpace | projects/ngx-encrypt-cookie/src/lib/ngx-encrypt-cookie.service.ts:194-195 | exactly one leading space is removed, and nothing else changes |
| UriComponent.Encode | projects/ngx-encrypt-cookie/src/lib/ngx-encrypt-cookie.service.ts:236 | only unreserved characters and `%` come out of the encoder |
| UriComponent.SafeDecode | projects/ngx-encrypt-cookie/src/lib/ngx-encrypt-cookie.service.ts:330-336 | the decoded text when decoding succeeds, otherwise the input unchanged |
| UriComponent.Utf8RoundTrip | projects/ngx-encrypt-cookie/src/lib/ngx-encrypt-cookie.service.ts:332 | the UTF-8 bytes of every character decode back to that character |
| UriComponent.DecodeEncode | projects/ngx-encrypt-cookie/src/lib/ngx-encrypt-cookie.service.ts:330-336 | `decodeURIComponent` undoes `encodeURIComponent` for every string and never throws on its output |
| UriComponent.SafeDecodeEncode | projects/ngx-encrypt-cookie/src/lib/ngx-encrypt-cookie.service.ts:330-336 | `safeDecodeURIComponent` undoes `encodeURIComponent` |
| UriComponent.EncodeInjective | projects/ngx-encrypt-cookie/src/lib/ngx-encrypt-cookie.service.ts:113 | two names encode alike exactly when they are equal |
| UriComponent.DecodePlain | projects/ngx-encrypt-cookie/src/lib/ngx-encrypt-cookie.service.ts:332 | text without `%` decodes to itself |
| UriComponent.EncodedIsInert | projects/ngx-encrypt-cookie/src/lib/ngx-encrypt-cookie.service.ts:236 | an encoded text holds no `;`, `=`, backslash or whitespace |
| CookieRegExp.EscapeReadsLiterally | projects/ngx-encrypt-cookie/src/lib/ngx-encrypt-cookie.service.ts:324-328 | a name without a backslash escapes to a pattern that matches exactly that name; a backslash spoils the pattern |
| CookieRegExp.LazyCapture | projects/ngx-encrypt-cookie/src/lib/ngx-encrypt-cookie.service.ts:327 | the lazy capture `(.*?)` before `;` or the end captures the shortest run free of `;` and line terminators that is followed by `;` or the end; it fails only when a line terminator intervenes |
| CookieRegExp.LeadingWhiteSpace | projects/ngx-encrypt-cookie/src/lib/ngx-encrypt-cookie.service.ts:327 | `\s*` covers exactly the leading whitespace |
| CookieRegExp.ExecMatchesNameStart | projects/ngx-encrypt-cookie/src/lib/ngx-encrypt-cookie.service.ts:327 | `exec` finds a match exactly when the name and `=` stand at the start or after `;` and whitespace, followed by a value `;` or the end closes; the capture is such a value, and for a name that does not start with whitespace (every encoded name) it is the value at the leftmost such place |
| CookieRegExp.ScanSound | projects/ngx-encrypt-cookie/src/lib/ngx-encrypt-cookie.service.ts:327 | every match of the `;\s*N` alternative stands at a valid name start after the first `;` from which the alternative can match |
| CookieRegExp.ScanComplete | projects/ngx-encrypt-cookie/src/lib/ngx-encrypt-cookie.service.ts:327 | the `;\s*N` alternative finds a match whenever one exists after the current position |
| CookieRegExp.BacktrackSound | projects/ngx-encrypt-cookie/src/lib/ngx-encrypt-cookie.service.ts:327 | `\s*` giving back whitespace finds the name only where it stands |
| CookieRegExp.BacktrackComplete | projects/ngx-encrypt-cookie/src/lib/ngx-encrypt-cookie.service.ts:327 | `\s*` giving back whitespace reaches every position where the name stands |
| CookieHeader.EntriesSnoc | projects/ngx-encrypt-cookie/src/lib/ngx-encrypt-cookie.service.ts:190-196 | storing one more segment overwrites or adds its key only |
| CookieHeader.EntriesKeys | projects/ngx-encrypt-cookie/src/lib/ngx-encrypt-cookie.service.ts:190-196 | the dictionary's keys are exactly the names of the segments |
| CookieHeader.EntriesLastWins | projects/ngx-encrypt-cookie/src/lib/ngx-encrypt-cookie.service.ts:190-196 | a key's value is that of the last segment carrying the name |
| CookieHeader.FindCookie | projects/ngx-encrypt-cookie/src/lib/ngx-encrypt-cookie.service.ts:77-80 | the lookup of a name is the matcher run with the encoded name read literally |
| CookieHeader.SplitJoinHeader | projects/ngx-encrypt-cookie/src/lib/ngx-encrypt-cookie.service.ts:192 | splitting a `"; "`-joined header at `;` gives the items, each after the first with its leading space |
| CookieHeader.PairSegment | projects/ngx-encrypt-cookie/src/lib/ngx-encrypt-cookie.service.ts:193 | a stored pair splits at `=` into the encoded name and the encoded value |
| CookieHeader.EntryOfPair | projects/ngx-encrypt-cookie/src/lib/ngx-encrypt-cookie.service.ts:193-195 | the name and value `getAll` reads from a stored pair are the name and value stored |
| CookieHeader.EntriesOfPairs | projects/ngx-encrypt-cookie/src/lib/ngx-encrypt-cookie.service.ts:190-196 | the dictionary of the segments of stored pairs is the pairs, a later one overwriting an earlier one |
| CookieHeader.CookieMapOfBrowserHeader | projects/ngx-encrypt-cookie/src/lib/ngx-encrypt-cookie.service.ts:184-201 | `getAllCookies`, and so `getAll(false)`, on a browser header returns the stored pairs, the last one winning for a repeated name |
| CookieHeader.FindCookieInBrowserHeader | projects/ngx-encrypt-cookie/src/lib/ngx-encrypt-cookie.service.ts:77-80 | in a browser header, the lookup finds the first pair with the name and captures its encoded value; a name no pair has finds nothing |
| CookieHeader.LookupInBrowserHeader | projects/ngx-encrypt-cookie/src/lib/ngx-encrypt-cookie.service.ts:96 | the unencrypted `decrypt` path returns the first stored value of the name, or '' |
| SetCookie.SameSiteName | projects/ngx-encrypt-cookie/src/lib/ngx-encrypt-cookie.service.ts:225 | the sameSite token is one of `Lax`, `None`, `Strict` |
| SetCookie.SecureWritten | projects/ngx-encrypt-cookie/src/lib/ngx-encrypt-cookie.service.ts:265-273 | `secure;` is written exactly when secure is true, or false together with sameSite None |
| SetCookie.TerminatedConcat | projects/ngx-encrypt-cookie/src/lib/ngx-encrypt-cookie.service.ts:236-275 | terminating two item lists one after the other is terminating their concatenation |
| SetCookie.AppendKeyed | projects/ngx-encrypt-cookie/src/lib/ngx-encrypt-cookie.service.ts:257-263 | appending an optional keyed attribute adds `key`, the value and `;`, or nothing |
| SetCookie.AppendSecure | projects/ngx-encrypt-cookie/src/lib/ngx-encrypt-cookie.service.ts:271-273 | appending the secure flag adds `secure;` exactly when it is written |
| SetCookie.AttributePieces | projects/ngx-encrypt-cookie/src/lib/ngx-encrypt-cookie.service.ts:247-275 | the attributes are expires, path, domain, secure and sameSite, appended in that order |
| SetCookie.CookieStringHead | projects/ngx-encrypt-cookie/src/lib/ngx-encrypt-cookie.service.ts:236-244 | the cookie string starts with the encoded name, `=`, the encoded payload and `;` |
| SetCookie.SplitTerminated | projects/ngx-encrypt-cookie/src/lib/ngx-encrypt-cookie.service.ts:236-275 | splitting `;`-free items, each closed by `;`, gives back the items and a final empty piece |
| SetCookie.AttributesFree | projects/ngx-encrypt-cookie/src/lib/ngx-encrypt-cookie.service.ts:247-275 | no attribute item holds `;` when the path, domain and expiry text hold none |
| SetCookie.AttributesRead | projects/ngx-encrypt-cookie/src/lib/ngx-encrypt-cookie.service.ts:247-275 | the strict reader recovers each attribute `set` chose: expiry, path, domain, the secure flag and sameSite |
| SetCookie.CookieStringParses | projects/ngx-encrypt-cookie/src/lib/ngx-encrypt-cookie.service.ts:216-279 | the cookie string reads back as the encoded name and payload, the expiry when `expires` is truthy, the path and domain when non-empty, `secure` under the forcing rule, and the sameSite token |
| Crypto.KeyWords | projects/ngx-encrypt-cookie/src/lib/ngx-encrypt-cookie.service.ts:36-46 | exactly `128/32`, `256/32` and `512/32` are accepted, as 4, 8 or 16 words |
| Crypto.Hex | projects/ngx-encrypt-cookie/src/lib/ngx-encrypt-cookie.service.ts:38 | a key's text has two lower-case hex digits per byte |
| Crypto.UnhexHex | projects/ngx-encrypt-cookie/src/lib/ngx-encrypt-cookie.service.ts:38 | the hex text of a key determines its bytes |
| Crypto.GenerateKey | projects/ngx-encrypt-cookie/src/lib/ngx-encrypt-cookie.service.ts:27-47 | never throws; a key exactly for an absent, empty or listed key size, `undefined` for any other |
| Crypto.GenerateKeyShape | projects/ngx-encrypt-cookie/src/lib/ngx-encrypt-cookie.service.ts:33-45 | keys have 32, 64 or 128 hex digits for the three sizes (the default size gives 32), and are the hex text of PBKDF2 applied to the passphrase in use, its default when empty |
| EncryptCookieService.Document.AssignCookie | projects/ngx-encrypt-cookie/src/lib/ngx-encrypt-cookie.service.ts:277 | an assignment to `document.cookie` is appended to the log |
| EncryptCookieService.NgxEncryptCookieService.constructor | projects/ngx-encrypt-cookie/src/lib/ngx-encrypt-cookie.service.ts:11-17 | whether the document is accessible is fixed at construction |
| EncryptCookieService.NgxEncryptCookieService.Check | projects/ngx-encrypt-cookie/src/lib/ngx-encrypt-cookie.service.ts:108-119 | false without a document; otherwise true exactly when the encoded name and `=` stand at a name start, followed by a value `;` or the end closes |
| EncryptCookieService.NgxEncryptCookieService.Decrypt | projects/ngx-encrypt-cookie/src/lib/ngx-encrypt-cookie.service.ts:75-101 | '' when the cookie is absent; the decoded value when unencrypted; `undefined` when encrypted without a key; it throws only with encryption and a key |
| EncryptCookieService.NgxEncryptCookieService.Get | projects/ngx-encrypt-cookie/src/lib/ngx-encrypt-cookie.service.ts:129-142 | never `undefined`; '' without a document or a match; the plain value without encryption or key; it throws only with encryption and a key |
| EncryptCookieService.NgxEncryptCookieService.GetAllCookies | projects/ngx-encrypt-cookie/src/lib/ngx-encrypt-cookie.service.ts:184-201 | the loop builds the dictionary of the header, and nothing without a document |
| EncryptCookieService.NgxEncryptCookieService.ReadEach | projects/ngx-encrypt-cookie/src/lib/ngx-encrypt-cookie.service.ts:156-166 | the `forEach` stores, under the header's keys, what the read returns; it throws exactly when the read throws for some key |
| EncryptCookieService.NgxEncryptCookieService.GetAll | projects/ngx-encrypt-cookie/src/lib/ngx-encrypt-cookie.service.ts:150-181 | {} without a document; unencrypted, the header's dictionary; encrypted, the same keys mapped to what `get` returns, and it throws exactly when `get` throws for some key |
| EncryptCookieService.NgxEncryptCookieService.Set | projects/ngx-encrypt-cookie/src/lib/ngx-encrypt-cookie.service.ts:216-279 | nothing without a document; "key fail" and no write when encrypting without a key; otherwise exactly one write, the cookie string of the value or of its ciphertext |
| EncryptCookieService.NgxEncryptCookieService.AppendAttributes | projects/ngx-encrypt-cookie/src/lib/ngx-encrypt-cookie.service.ts:247-275 | the `+=` steps append the terminated attribute items to the pair |
| EncryptCookieService.NgxEncryptCookieService.AppendFlags | projects/ngx-encrypt-cookie/src/lib/ngx-encrypt-cookie.service.ts:265-275 | the forced secure flag and the sameSite attribute are appended, in that order |
| EncryptCookieService.NgxEncryptCookieService.Delete | projects/ngx-encrypt-cookie/src/lib/ngx-encrypt-cookie.service.ts:287-293 | one write, an empty value that expired at the epoch, when there is a document; none otherwise |
| EncryptCookieService.NgxEncryptCookieService.DeleteAll | projects/ngx-encrypt-cookie/src/lib/ngx-encrypt-cookie.service.ts:302-314 | one deletion for each distinct key of the header's dictionary and no other write |
| EncryptCookieService.DeletionsSnoc | projects/ngx-encrypt-cookie/src/lib/ngx-encrypt-cookie.service.ts:309-312 | one more visited name adds exactly its deletion string |
| EncryptCookieService.GetFromBrowserHeader | projects/ngx-encrypt-cookie/src/lib/ngx-encrypt-cookie.service.ts:108-142 | on a browser header, `check` holds exactly when a pair has the name; `get` returns the first such value, or its AES decryption under a key, and '' when no pair has the name |

## Left out

- AES and PBKDF2 are not modelled. They are fields of the injected `CryptoLib` value, and AES decryption that fails to give UTF-8 text is a throw.
- The random salt of `generateKey` and of AES encryption is a parameter.
- Clocks and dates are not modelled. A numeric `expires` is a number of days together with the UTC text of the resulting moment; a `Date` is its UTC text. Date arithmetic and formatting are left out.
- A numeric `expires` that is NaN is not represented. Zero is falsy and writes no expiry, as in the source.
- How the browser merges an assigned cookie string into the header it presents is not modelled. The header `document.cookie` reads is fixed, and every write is recorded in an append-only log.
- DeleteAll: the order of JavaScript `for...in` over the dictionary is not modelled. The method visits the names in an unspecified order and returns that order as a ghost value.
- The `hasOwnProperty` guard in `deleteAll` always holds for the model's dictionary. Special keys such as `__proto__` are not modelled.
- `encodeURIComponent` throws on lone UTF-16 surrogates. Dafny characters are Unicode scalar values, so that case does not arise.
- An absent optional string argument (key, path, domain, passphrase, key size) is represented by "". The source only tests their truthiness, and "" is falsy like `undefined`.
- The private `encrypt` is represented by the AES call alone. Its guard at line 58 holds for every key, so its error branch cannot be reached.
- Console logging (`console.error`, `console.warn`) is left out.
- Angular dependency injection is reduced to a boolean: whether the platform is a browser.
- `getAll(false)` uses the same loop as `getAllCookies`, because the source code of the two is identical; `GetAll` reuses `GetAllCookies` for it.
