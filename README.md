# Inventory webhook receiver

This project models the inventory-webhook path of a small Express server
(`server.js`) that receives inventory-level updates from a shop platform.
For each `POST /webhook/inventory` call it does the following:

- It checks the `X-Shopify-Hmac-Sha256` header against an HMAC-SHA256 of the raw body, keyed with the shared secret and encoded in base64 (`verifyHmac`).
- It answers 401 when the header does not match.
- Otherwise it parses the JSON body, puts `{inventory_item_id, available, updated_at}` at the front of the module-level `inventoryLogs` array, and drops the last (oldest) entry when the array grows past 20.
- It then answers 200.

Modules:

- `Wrappers` (wrappers.dfy): `Option` and `Result`.
- `Hmac` (hmac.dfy): the signature comparison and the exceptions it throws. The keyed digest is a function-typed parameter `DigestFn`.
- `InventoryLog` (inventory_log.dfy): the log entries, one unshift-then-pop step (`Recorded`), and the result of many steps.
- `Webhook` (webhook.dfy): the handler as a function of the log (`Respond`, `Handle`). The class `WebhookServer` owns `inventoryLogs` as a `seq` field. Its method `HandleInventoryWebhook` updates that field in place, and the method is proved against `Handle`.

Where the design description and the code disagree, the model follows the code:

- The design says a missing or wrong-length signature is just "not verified". In the code, `Buffer.from(undefined)` and `crypto.timingSafeEqual` on buffers of different lengths throw. The exception escapes the handler, so the request gets Express's error response, not 401. The model makes these `Threw(VerifyFailed(...))` outcomes (see Findings).
- The design describes a start-up reconciler that fetches the existing subscriptions and creates one only if none matches. `registerWebhook` in `server.js` posts the subscription unconditionally and swallows errors. There is no reconcile logic to model.

## Model

| member | source | states |
|---|---|---|
| Hmac.TimingSafeEqual | server.js:35-38 | `timingSafeEqual` throws (LengthMismatch) exactly when the two byte strings differ in length; otherwise it returns true exactly when they are equal |
| Hmac.AccumulatedDiffZeroIff | server.js:35-38 | comparing every byte, with no early exit (OR of XORs), gives zero exactly when two equal-length byte strings are equal |
| Hmac.VerifyHmac | server.js:29-39 | true exactly when secret and header are present and the header bytes equal the digest of the body. False exactly when they have equal length and different content. A missing secret, a missing header and a length mismatch each throw, checked in that order |
| Hmac.SignedBodyVerifies | server.js:29-38 | a body whose header is its own digest under the secret verifies |
| Hmac.TamperedSignatureRejected | server.js:29-38 | a header other than the digest is never accepted; when its length is right the answer is false |
| Hmac.CrossBodyNeedsCollision | server.js:29-38 | the digest of another body is accepted exactly when the two bodies' digests coincide |
| Hmac.VerifyHmacIntended | server.js:29-39 | corrected comparison: it fails only when the secret is missing, and it is true exactly when the header equals the digest. It agrees with `VerifyHmac` wherever that gives a verdict |
| InventoryLog.Recorded | server.js:53-59 | after unshift-then-pop the new entry is first. Below 20 entries the log grows by one and the old entries follow in order. At 20 or more the length is unchanged, the last (oldest) entry is dropped and the others shift back one place |
| InventoryLog.RecordedKeepsBound | server.js:53-59 | a log of at most 20 entries stays at most 20: one longer below 20, exactly 20 at 20 |
| InventoryLog.NewestFirst | server.js:53 | the order `unshift` produces: position i holds the i-th most recent entry |
| InventoryLog.RecordedAllKeepsNewest | server.js:53-59 | recording a sequence of updates into a log of at most 20 leaves the updates newest first, then the old log, cut to 20 |
| InventoryLog.InsertsFromEmpty | server.js:11 | from the initial empty log, N updates leave min(N, 20) entries, the most recent newest first |
| InventoryLog.TwentyFiveInserts | server.js:53-59 | 25 updates from empty leave exactly the last 20, newest first (the 5 oldest are evicted) |
| Webhook.Respond | server.js:44-61 | only a 200 changes the log, and it records exactly this update. 200 happens exactly on a true verdict with a parsed body, 401 exactly on a false verdict. A verifier exception or a JSON parse failure throws and leaves the log as it was |
| Webhook.RejectedLeavesLogUnchanged | server.js:44-48 | a non-matching header of the right length gets 401, one of the wrong length throws; either way the log is unchanged |
| Webhook.MissingValuesThrow | server.js:43-44 | a missing header or secret throws rather than answering 401, and the log is unchanged |
| Webhook.AdmittedIffVerified | server.js:44-57 | a request answers 200 if and only if the header equals the body's digest and the body parses. The new first entry then holds the payload's `inventory_item_id` and `available` and the supplied time |
| Webhook.HandleKeepsBound | server.js:53-59 | the 20-entry bound is an invariant of every request |
| Webhook.WebhookServer.constructor | server.js:11 | the log starts empty (so within the bound) |
| Webhook.WebhookServer.HandleInventoryWebhook | server.js:42-62 | the outcome and new log are those of `Handle` on the old log; a 401 leaves the log unchanged; the bound is preserved |
| Webhook.SignedExampleIsRecorded | server.js:42-61 | a correctly signed body with item 42 and 7 available is answered 200 and becomes the first entry |
| Webhook.BogusSignatureThrows | server.js:35-38 | as written, the header "bogus" against a 44-byte base64 digest throws LengthMismatch instead of answering 401 |
| Webhook.IntendedRejectsWith401 | server.js:44-48 | with the corrected comparison, any missing or non-matching header is answered 401 and leaves the log unchanged |

## Findings

| source | as written | input that shows it | evidently intended | confidence | as-written member | corrected member |
|---|---|---|---|---|---|---|
| server.js:35-38 | `timingSafeEqual` throws on a header whose byte length differs from the 44-byte base64 digest, and `Buffer.from` throws on a missing header. The exception escapes the handler, so there is no 401 | header `bogus` with a configured secret | answer 401 and leave the log unchanged | high, not executed | Webhook.BogusSignatureThrows | Hmac.VerifyHmacIntended |

The handler as written (`Handle`, `WebhookServer.HandleInventoryWebhook`) keeps the source's behaviour. `HandleIntended` is the same handler with the corrected comparison, and `Webhook.IntendedRejectsWith401` is proved about it.

## Left out

- HMAC-SHA256 and base64 (`crypto.createHmac(...).digest('base64')`): a foreign crypto library, so it is the parameter `DigestFn`. Nothing is proved about the hash. `BogusSignatureThrows` takes the 44-byte length of the digest as a hypothesis.
- The constant-time behaviour of `timingSafeEqual`: timing cannot be expressed. `AccumulatedDiff` only shows that a comparison reading every byte gives the equality result.
- Header text encoding: the header is taken as the bytes `Buffer.from` produces from it (UTF-8).
- `JSON.parse` of the body: the payload comes in already decoded, as an `Option` (`None` when parsing throws). The model does not tie it to `rawBody`. JSON numbers are modelled as integers, and objects and arrays as payload fields are not represented.
- A body that is not a Buffer, because the request's content type is not `application/json`: `createHmac().update` would then throw. The model takes the raw body as bytes.
- `new Date().toISOString()`: wall-clock time is the request's `now` parameter.
- `GET /` (HTML rendering of the log), `registerWebhook` (an unconditional POST to the shop platform with logged and swallowed errors), Express routing, `bodyParser.raw`, environment variables other than the secret, and `app.listen`: framework plumbing, network and process I/O.
- Express's conversion of an escaped exception into an error response: the model stops at `Threw(...)`.
