/** Signature check of an inventory webhook (`verifyHmac` in server.js).

    The server computes HMAC-SHA256 of the raw body, keyed with the shared
    secret, encodes it in base64 and compares the bytes of that text with the
    bytes of the `X-Shopify-Hmac-Sha256` header using Node's
    `crypto.timingSafeEqual`. The keyed digest and its encoding come from a
    crypto library and are a parameter here (`DigestFn`); what is modelled is
    the comparison and the exceptions it raises. */
module Hmac {
  import opened Wrappers

  type Bytes = seq<bv8>

  /** HMAC-SHA256 followed by base64, as the bytes of the base64 text:
      given the body and the key, the expected signature. */
  type DigestFn = (Bytes, Bytes) -> Bytes

  /** The exceptions `verifyHmac` lets escape instead of returning a boolean. */
  datatype VerifyFault =
    | MissingSecret    // createHmac with an undefined key throws
    | MissingHeader    // Buffer.from(undefined) throws
    | LengthMismatch   // timingSafeEqual throws when the buffers differ in length

  /** The OR of the XOR of every pair of bytes: the comparison that looks at
      every byte and never stops early. Zero exactly when no pair differs. */
  function AccumulatedDiff(a: Bytes, b: Bytes): bv8
    requires |a| == |b|
  {
    if a == [] then 0 else (a[0] ^ b[0]) | AccumulatedDiff(a[1..], b[1..])
  }

  lemma {:induction false} AccumulatedDiffZeroIff(a: Bytes, b: Bytes)
    requires |a| == |b|
    ensures AccumulatedDiff(a, b) == 0 <==> a == b
  {
    if a != [] {
      AccumulatedDiffZeroIff(a[1..], b[1..]);
      var x, y := a[0] ^ b[0], AccumulatedDiff(a[1..], b[1..]);
      assert x | y == 0 <==> x == 0 && y == 0;
      assert x == 0 <==> a[0] == b[0];
      assert a == [a[0]] + a[1..] && b == [b[0]] + b[1..];
    }
  }

  /** `crypto.timingSafeEqual(a, b)`: throws when the lengths differ,
      otherwise tells whether the two byte strings are equal. */
  function TimingSafeEqual(a: Bytes, b: Bytes): (r: Result<bool, VerifyFault>)
    ensures r.Err? <==> |a| != |b|
    ensures r.Err? ==> r.error == LengthMismatch
    ensures r.Ok? ==> (r.value <==> a == b)
  {
    if |a| != |b| then Err(LengthMismatch)
    else
      AccumulatedDiffZeroIff(a, b);
      Ok(AccumulatedDiff(a, b) == 0)
  }

  /** `verifyHmac(rawBody, hmacHeader, secret)`. `header` is the UTF-8
      encoding of the header value, `None` when the request has no such
      header; `secret` is `None` when the environment does not define it.
      The secret is used first (digest), then the header is converted, then
      the two are compared. */
  function VerifyHmac(digest: DigestFn, rawBody: Bytes, header: Option<Bytes>, secret: Option<Bytes>)
    : (r: Result<bool, VerifyFault>)
    // true exactly when the header carries the expected signature
    ensures r == Ok(true) <==>
      secret.Some? && header.Some? && header.value == digest(rawBody, secret.value)
    // false exactly when it has the right length and the wrong content
    ensures r == Ok(false) <==>
      secret.Some? && header.Some? && |header.value| == |digest(rawBody, secret.value)|
      && header.value != digest(rawBody, secret.value)
    // every other request raises, and which exception comes first
    ensures secret.None? ==> r == Err(MissingSecret)
    ensures secret.Some? && header.None? ==> r == Err(MissingHeader)
    ensures secret.Some? && header.Some? && |header.value| != |digest(rawBody, secret.value)|
      ==> r == Err(LengthMismatch)
  {
    match secret
    case None => Err(MissingSecret)
    case Some(key) =>
      var generated := digest(rawBody, key);
      match header
      case None => Err(MissingHeader)
      case Some(claimed) => TimingSafeEqual(generated, claimed)
  }

  /** A body signed with the right secret is accepted. */
  lemma SignedBodyVerifies(digest: DigestFn, rawBody: Bytes, secret: Bytes)
    ensures VerifyHmac(digest, rawBody, Some(digest(rawBody, secret)), Some(secret)) == Ok(true)
  {
  }

  /** A tampered signature is never accepted: it is either refused or,
      when its length differs, an exception. */
  lemma TamperedSignatureRejected(digest: DigestFn, rawBody: Bytes, claimed: Bytes, secret: Bytes)
    requires claimed != digest(rawBody, secret)
    ensures VerifyHmac(digest, rawBody, Some(claimed), Some(secret)) != Ok(true)
    ensures |claimed| == |digest(rawBody, secret)| ==>
      VerifyHmac(digest, rawBody, Some(claimed), Some(secret)) == Ok(false)
  {
  }

  /** A signature made for another body is accepted only when the two bodies
      have the same digest (a collision of the hash, which the model cannot
      rule out since the hash is a parameter). */
  lemma CrossBodyNeedsCollision(digest: DigestFn, body1: Bytes, body2: Bytes, secret: Bytes)
    ensures VerifyHmac(digest, body1, Some(digest(body2, secret)), Some(secret)) == Ok(true)
      <==> digest(body1, secret) == digest(body2, secret)
  {
  }

  /** The comparison as the design intends it: a missing header or a header
      of the wrong length is a signature that does not match (`false`),
      not an exception. Only a missing secret still fails. */
  function VerifyHmacIntended(digest: DigestFn, rawBody: Bytes, header: Option<Bytes>, secret: Option<Bytes>)
    : (r: Result<bool, VerifyFault>)
    ensures r.Err? <==> secret.None?
    ensures r == Ok(true) <==>
      secret.Some? && header.Some? && header.value == digest(rawBody, secret.value)
    // wherever the code as written gives a verdict, this gives the same one
    ensures VerifyHmac(digest, rawBody, header, secret).Ok? ==>
      r == VerifyHmac(digest, rawBody, header, secret)
  {
    match secret
    case None => Err(MissingSecret)
    case Some(key) =>
      var generated := digest(rawBody, key);
      match header
      case None => Ok(false)
      case Some(claimed) =>
        if |generated| != |claimed| then Ok(false) else TimingSafeEqual(generated, claimed)
  }
}
