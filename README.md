# Password manager: listing transform, encrypted records and the client's credential list

A Dafny model of the two pieces of sequential logic in a small CRUD password
manager.

- **The server** (`test/backend/server.js`):
  - `encrypt` and `decrypt` around an abstract keyed cipher (module `CryptoCodec`).
  - The GET `/` transform, which maps every stored document to an output
    record (module `Listing`). Each record gets the decrypted password or one
    of the sentinels "Decryption failed: password is hashed",
    "Decryption failed: missing fields" and "Decryption failed".
  - The two POST handlers and the DELETE handler over the `passwords` and
    `generated_passwords` collections (module `Store`, class `Collections`).
- **The client** (`passop/src/components/Manager.jsx`): the `Manager`
  component's state `form`, `passwordsArray` and `loading`, and its handlers
  (module `Passop`, class `Manager`).

JavaScript values are the datatype `JsValues.JsValue`, which covers
truthiness, strict equality, and property reads that yield `undefined`.
Documents, request bodies, the form and list entries are maps from field name
to value. So `{ ...item, password: x }` is the map update
`item["password" := Str(x)]`, and "every other field is copied" is a property
of that update. Hex text and ObjectId parsing are in module `Hex`.

The cipher is a pair of abstract function parameters:

- `Cipher`: IV bytes and plaintext to hex ciphertext, or None when Node would throw.
- `Decipher`: hex ciphertext and hex IV to plaintext, or None.

Randomness is supplied as inputs: the 16 IV bytes, the storage ObjectId,
uuids, and the indices `Math.random` would yield. The outcomes of I/O are
boolean inputs: whether the insert or delete succeeded, whether `fetch`
resolved, and whether the user confirmed.

Four things the code does that are easy to miss:

- The listing has four outcomes. Besides the hashed and decryption-failed
  sentinels, there is a separate "missing fields" sentinel for absent or
  falsy fields.
- DELETE removes by the storage `_id`, parsed as an ObjectId, not by the
  caller's `id`.
- The client's `savePassword` keeps a second uuid locally, different from the
  id it sends to the server (`SavePassword` takes both ids).
- `fetch` only rejects on network failure. A save or delete that the server
  answers with status 500 therefore takes the success path on the client.
  The model's `fetchOk` means "the request resolved".

## Model

| member | source | states |
|---|---|---|
| Hex.ToHex | test/backend/server.js:29 | `iv.toString('hex')` gives two lower-case hex digits per byte |
| Hex.FromHex | test/backend/server.js:145 | the hex parse inside `new ObjectId(id)`: a successful parse of a string gives half as many bytes as it has characters |
| Hex.FromHexToHex | test/backend/server.js:29 | the hex text of any bytes parses back to exactly those bytes, so the stored `iv` determines the 16 IV bytes |
| Hex.FromHexAccepts | test/backend/server.js:145 | hex parsing succeeds exactly on even-length strings of hex digits of either case |
| JsValues.Truthy | test/backend/server.js:87 | JavaScript truthiness as `!x` tests it: `undefined` and `null` are falsy, a string exactly when non-empty, objects and ObjectIds always truthy |
| JsValues.Get | test/backend/server.js:82 | `item.password`: a missing field reads as `undefined`, a present one as its value |
| JsValues.Member | test/backend/server.js:87 | `item.password.encryptedData`: a property read on anything but an object is `undefined` |
| JsValues.FirstIndex | passop/src/components/Manager.jsx:79 | the first index whose field strictly equals the value, with no earlier match; None exactly when no element matches (what `find` and `deleteOne` pick) |
| CryptoCodec.PayloadValue | test/backend/server.js:126-129 | the stored password object has exactly the fields `iv` and `encryptedData`, holding the payload's strings |
| CryptoCodec.Encrypt | test/backend/server.js:20-30 | succeeds exactly when the text is a string and the cipher succeeds; `iv` is 32 lower-case hex characters that decode to the 16 random bytes; `encryptedData` is the cipher output |
| CryptoCodec.Decrypt | test/backend/server.js:32-52 | `InvalidInput` exactly when either argument is falsy; plaintext exactly when both are non-empty strings and the decipher succeeds; every other failure is the single `DecryptionFailed` |
| CryptoCodec.Message | test/backend/server.js:34-50 | the two messages `decrypt` throws, "Invalid input to decrypt function" and "Decryption failed", each belonging to exactly one error |
| CryptoCodec.DecryptGuardIgnoresCipher | test/backend/server.js:33-35 | a rejected input gives `InvalidInput` whatever the cipher does, so the guard runs before any cipher work |
| CryptoCodec.DecryptRejectsEmpty | test/backend/server.js:33-35 | an empty `encryptedData` or `iv` string is rejected with "Invalid input to decrypt function" |
| Listing.Classify | test/backend/server.js:81-104 | the four-way decision, each outcome stated as an if-and-only-if: hashed when the password is a string; missing fields when it, `encryptedData` or `iv` is falsy; decrypted (to the decipher's plaintext) when decrypt succeeds; failed otherwise |
| Listing.VerdictText | test/backend/server.js:84-103 | a decrypted verdict gives the plaintext; a failed verdict gives exactly "Decryption failed"; every other verdict gives a sentinel starting with "Decryption failed", and the hashed and missing-fields sentinels identify their verdicts |
| Listing.DecryptItem | test/backend/server.js:78-105 | the output record has the document's keys plus `password`; every other field is copied verbatim; `password` is the classified text |
| Listing.MapEach | test/backend/server.js:78 | `.map` gives one result per element, the i-th being the callback applied to the i-th element |
| Listing.MapEachAppend | test/backend/server.js:78 | mapping a concatenation concatenates the mapped parts |
| Listing.DecryptedResults | test/backend/server.js:74-105 | exactly one output record per stored document, in the same order; record i depends only on document i |
| Listing.GetRoot | test/backend/server.js:70-112 | a failed `find` gives "Error retrieving passwords"; otherwise the reply is exactly `DecryptedResults` of the found documents, one record per document |
| Listing.HashedSkipsDecrypt | test/backend/server.js:82-85 | a string password yields the hashed sentinel, with every other field unchanged, whatever the cipher does (decrypt is not consulted) |
| Listing.MissingFieldsSkipsDecrypt | test/backend/server.js:87-90 | an absent or falsy password, `encryptedData` or `iv` yields the missing-fields sentinel, whatever the cipher does |
| Listing.DecryptFailureGivesSentinel | test/backend/server.js:101-104 | a well-formed payload whose decrypt throws yields exactly "Decryption failed", with every other field unchanged |
| Listing.DecryptedKeepsFields | test/backend/server.js:93-100 | a password object whose `encryptedData` and `iv` are non-empty strings (other keys allowed) that the decipher opens yields the plaintext, with every other field (`site`, `username`, `id`, `_id`, ...) verbatim |
| Listing.ListingIsolated | test/backend/server.js:101-104 | replacing one document by any other, however broken, changes no other record's output |
| Listing.ListingDependsOnOwnRecord | test/backend/server.js:93-104 | two deciphers that agree on one record's inputs give that record the same output, whatever they do elsewhere |
| Listing.ListingAppend | test/backend/server.js:78 | the listing of a concatenation is the concatenation of the listings |
| Store.PasswordDoc | test/backend/server.js:118-131 | POST `/` stores exactly `site`, `username`, `password` (the payload object) and `id`, taken from the body and the encrypt result |
| Store.GeneratedDoc | test/backend/server.js:156-167 | POST `/generated-passwords` stores exactly `password` and `id`, with no `site` or `username` |
| Store.WithStorageId | test/backend/server.js:123 | `insertOne` adds the storage `_id` and keeps every other field |
| Store.Status | test/backend/server.js:132-171 | 201 exactly for a created record, 200 exactly for a deletion reply, 500 exactly for a server error |
| Store.ParseObjectId | test/backend/server.js:145 | `new ObjectId(id)` succeeds exactly on 24 hex digits and then gives 12 bytes |
| Store.ParseObjectIdOfHex | test/backend/server.js:145 | the lower-case hex form of any ObjectId parses back to it |
| Store.Collections.PostPassword | test/backend/server.js:116-137 | on success, appends exactly the shaped document and replies Created; a throwing encrypt or insert stores nothing and replies "Error saving password"; the other collection is untouched |
| Store.Collections.PostGeneratedPassword | test/backend/server.js:154-173 | the same for `generated_passwords`, with "Error saving generated password"; `passwords` is untouched |
| Store.Collections.DeletePassword | test/backend/server.js:140-151 | an invalid ObjectId or a failing store deletes nothing and replies with an error; otherwise removes only the first document whose `_id` matches (count 1), or nothing (count 0) |
| Store.PostedPasswordIsListed | test/backend/server.js:118-131 | after any existing documents, a record stored by POST `/` is listed last, the earlier records unchanged, with the body's site, username and id, its `_id`, and the plaintext the decipher recovers (the cipher round trip is a hypothesis) |
| Passop.CharsetLength | passop/src/components/Manager.jsx:104 | the charset has 72 characters |
| Passop.FilterOut | passop/src/components/Manager.jsx:68 | an entry is kept exactly when it is in the list and its `id` is not strictly equal to the argument |
| Passop.FilterOutAppend | passop/src/components/Manager.jsx:68 | the filter preserves order: filtering a concatenation concatenates the filtered parts |
| Passop.FilterOutNoMatch | passop/src/components/Manager.jsx:68 | when no entry has the id, the list is unchanged |
| Passop.FilterOutLength | passop/src/components/Manager.jsx:81 | the length drops by exactly the number of entries with the id, so all of them are removed |
| Passop.MaskedCell | passop/src/components/Manager.jsx:253 | exactly `password.length` asterisks |
| Passop.BuildPassword | passop/src/components/Manager.jsx:103-109 | 12 characters, the i-th being the charset character at the i-th drawn index, hence all in the charset |
| Passop.GeneratorReachesEvery | passop/src/components/Manager.jsx:104-109 | every 12-character string over the charset is produced by some choice of indices |
| Passop.Manager.constructor | passop/src/components/Manager.jsx:9-11 | the form holds three empty strings, the list is empty, `loading` is false |
| Passop.Manager.GetPasswords | passop/src/components/Manager.jsx:13-24 | a resolved fetch replaces the list; a failed one leaves it; `loading` ends false |
| Passop.Manager.SavePassword | passop/src/components/Manager.jsx:40-56 | sends the form with `sentId`; on resolve, appends exactly the pre-call form with `keptId` and resets the form to three empty strings; on failure, list and form are unchanged; `loading` ends false |
| Passop.Manager.DeletePassword | passop/src/components/Manager.jsx:58-76 | a confirmed, resolved delete filters out the id; otherwise the list is unchanged; the form is never touched; an unconfirmed delete leaves `loading` too |
| Passop.Manager.EditPassword | passop/src/components/Manager.jsx:78-82 | the form becomes the first entry with the id (the empty object when there is none) and every entry with the id leaves the list |
| Passop.Manager.HandleChange | passop/src/components/Manager.jsx:84-86 | only the named field changes, to the input's value; the rest of the state is unchanged |
| Passop.Manager.GeneratePassword | passop/src/components/Manager.jsx:102-130 | builds the 12-character password, sends `{password, id}`, sets only `form.password`, and leaves the list unchanged with `loading` false |

## Left out

- The AES cipher (`createCipheriv`, `createDecipheriv`, padding, the byte transform) is foreign Node code. It is the parameters `Cipher` and `Decipher`. No round trip or tamper detection is claimed. The nonstandard algorithm name `'aes-256cbc'` is inside those parameters, and they may always fail.
- Secret-key loading, the startup exit without a key, and the logging output are environment and I/O. The secret-key print is logging too.
- Listing.Classify: the log call at test/backend/server.js:95 interpolates `${item.site}` inside the same `try` as `decrypt`. A `site` that cannot be converted to a string (an object whose `toString` and `valueOf` are not callable or return objects) makes it throw. The catch then gives 'Decryption failed' even though decrypt succeeded. The model has no `toString` behaviour and gives the plaintext in that case.
- Express routing, CORS, body parsing and the `fetch` calls are I/O. Status codes appear only as `Store.Status`. The client's DELETE, sent to `/` with a JSON body, does not reach the server's `/:id` route; the wire format is not modelled.
- MongoDB is modelled only as two sequences in insertion order, with insert and delete failure as boolean inputs. Connection handling is not modelled. BSON's treatment of `undefined` fields (stored as null) is not modelled: the model stores the body's values as read.
- Store.ParseObjectId: the 12-character raw-string form that older ObjectId versions accept is not modelled.
- CryptoCodec.Decrypt: a non-string truthy argument is treated as a cipher failure, as Node's `Buffer.from` and `update` reject it. Buffer-like and array-like arguments are not distinguished.
- CryptoCodec.Encrypt: any non-string text is a failure. Buffers passed as text are not distinguished.
- JsValues.Truthy: numbers are reals, so NaN (falsy) is not represented. Arrays and other objects are plain objects. Object-valued ids are compared structurally, whereas `===` compares references.
- Key order of objects, and the JSON serialisation of the reply, are not modelled. Maps are unordered.
- Passop.MaskedCell: counts Unicode characters, whereas `String.length` counts UTF-16 code units. Non-string passwords, where `.length` is undefined or throws, are not modelled.
- Passop.Manager.GetPasswords: the fetched value is taken to be an array of records. A 500 reply body (an object) being stored as the list is not modelled.
- Randomness and uuids: `Math.random`, `crypto.randomBytes` and `uuidv4` are inputs. Freshness and non-reuse of IVs and ids is not claimed.
- The UI: `showPassword`, `copyText` (toasts and clipboard), `useEffect`, and the JSX rendering other than the masked cell.
- Concurrency: interleaved requests, and React's stale closures over `form` and `passwordsArray`, are not modelled. Handlers run one at a time, so `loading` being true is visible only during a call.
