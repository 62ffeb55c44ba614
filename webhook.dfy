/** The `POST /webhook/inventory` handler of server.js: verify the signature,
    answer 401 when it does not match, otherwise decode the body and record
    the update at the front of the bounded log, then answer 200. */
module Webhook {
  import opened Wrappers
  import opened Hmac
  import opened InventoryLog

  /** An exception that escapes the handler (Express turns it into its
      default error response); the log is not touched on that path. */
  datatype Fault =
    | VerifyFailed(cause: VerifyFault)  // thrown inside verifyHmac
    | MalformedJson                     // JSON.parse of a verified body throws

  /** What the handler does with the request: answer it with a status, or throw. */
  datatype Outcome = Responded(status: int) | Threw(fault: Fault)

  const Ok200 := 200
  const Unauthorized401 := 401

  /** One inbound webhook call. `payload` is the result of parsing the raw
      body as JSON (`None` when it is not valid JSON), `now` the server's
      ISO time when it records the update. */
  datatype Request = Request(rawBody: Bytes, header: Option<Bytes>, payload: Option<Payload>, now: string)

  /** A handled request: its outcome and the log afterwards. */
  datatype Step = Step(outcome: Outcome, log: seq<LogEntry>)

  /** What the handler does once `verifyHmac` has given `verdict`. */
  function Respond(verdict: Result<bool, VerifyFault>, log: seq<LogEntry>, req: Request): (s: Step)
    // only a 200 changes the log, and then by recording exactly this update
    ensures s.outcome != Responded(Ok200) ==> s.log == log
    ensures s.outcome == Responded(Ok200) <==> verdict == Ok(true) && req.payload.Some?
    ensures s.outcome == Responded(Ok200) ==>
      s.log == Recorded(log, EntryOf(req.payload.value, req.now))
    // a verdict of false is answered with 401, and the only answers are 200 and 401
    ensures verdict == Ok(false) <==> s.outcome == Responded(Unauthorized401)
    ensures s.outcome.Responded? ==> s.outcome.status in {Ok200, Unauthorized401}
  {
    match verdict
    case Err(f) => Step(Threw(VerifyFailed(f)), log)
    case Ok(verified) =>
      if !verified then Step(Responded(Unauthorized401), log)
      else match req.payload
        case None => Step(Threw(MalformedJson), log)
        case Some(p) => Step(Responded(Ok200), Recorded(log, EntryOf(p, req.now)))
  }

  /** The handler as written, as a function of the log before the request. */
  function Handle(digest: DigestFn, secret: Option<Bytes>, log: seq<LogEntry>, req: Request): Step
  {
    Respond(VerifyHmac(digest, req.rawBody, req.header, secret), log, req)
  }

  /** A signature that does not match is answered with 401 and leaves the log
      exactly as it was; one of the wrong length, or a missing header or
      secret, is an exception and not a 401. */
  lemma RejectedLeavesLogUnchanged(digest: DigestFn, secret: Option<Bytes>, log: seq<LogEntry>, req: Request)
    requires secret.Some? && req.header.Some?
    requires req.header.value != digest(req.rawBody, secret.value)
    ensures Handle(digest, secret, log, req).log == log
    ensures |req.header.value| == |digest(req.rawBody, secret.value)| ==>
      Handle(digest, secret, log, req).outcome == Responded(Unauthorized401)
    ensures |req.header.value| != |digest(req.rawBody, secret.value)| ==>
      Handle(digest, secret, log, req).outcome == Threw(VerifyFailed(LengthMismatch))
  {
  }

  /** A missing header or a missing secret throws; it is not answered with 401. */
  lemma MissingValuesThrow(digest: DigestFn, secret: Option<Bytes>, log: seq<LogEntry>, req: Request)
    requires secret.None? || req.header.None?
    ensures Handle(digest, secret, log, req).outcome.Threw?
    ensures Handle(digest, secret, log, req).log == log
  {
  }

  /** An update enters the log if and only if its signature verified and its
      body parsed; it then becomes the newest entry, with the payload's
      fields and the supplied time. */
  lemma AdmittedIffVerified(digest: DigestFn, secret: Option<Bytes>, log: seq<LogEntry>, req: Request)
    ensures Handle(digest, secret, log, req).outcome == Responded(Ok200) <==>
      secret.Some? && req.header.Some? && req.header.value == digest(req.rawBody, secret.value)
      && req.payload.Some?
    ensures Handle(digest, secret, log, req).outcome == Responded(Ok200) ==>
      var first := Handle(digest, secret, log, req).log[0];
      first.inventoryItemId == req.payload.value.inventoryItemId
      && first.available == req.payload.value.available
      && first.updatedAt == req.now
  {
  }

  /** The 20-entry bound is an invariant of the handler. */
  lemma HandleKeepsBound(digest: DigestFn, secret: Option<Bytes>, log: seq<LogEntry>, req: Request)
    requires |log| <= Capacity
    ensures |Handle(digest, secret, log, req).log| <= Capacity
  {
    var s := Handle(digest, secret, log, req);
    if s.outcome == Responded(Ok200) {
      RecordedKeepsBound(log, EntryOf(req.payload.value, req.now));
    }
  }

  /** The process's state: the module-level `inventoryLogs` array, together
      with the digest function and the secret it was configured with. */
  class WebhookServer {
    const digest: DigestFn
    const secret: Option<Bytes>
    var inventoryLogs: seq<LogEntry>

    ghost predicate Bounded()
      reads this
    {
      |inventoryLogs| <= Capacity
    }

    /** The log starts empty. */
    constructor (digest: DigestFn, secret: Option<Bytes>)
      ensures this.digest == digest && this.secret == secret
      ensures inventoryLogs == [] && Bounded()
    {
      this.digest := digest;
      this.secret := secret;
      inventoryLogs := [];
    }

    /** Handles one `POST /webhook/inventory` call, updating the log in place. */
    method HandleInventoryWebhook(req: Request) returns (outcome: Outcome)
      modifies this
      ensures Step(outcome, inventoryLogs) == Handle(digest, secret, old(inventoryLogs), req)
      ensures outcome == Responded(Unauthorized401) ==> inventoryLogs == old(inventoryLogs)
      ensures old(Bounded()) ==> Bounded()
    {
      var verified := VerifyHmac(digest, req.rawBody, req.header, secret);
      if verified.Err? {
        return Threw(VerifyFailed(verified.error));
      }
      if !verified.value {
        return Responded(Unauthorized401);
      }
      if req.payload.None? {
        return Threw(MalformedJson);
      }
      var p := req.payload.value;
      inventoryLogs := [LogEntry(p.inventoryItemId, p.available, req.now)] + inventoryLogs;
      if |inventoryLogs| > Capacity {
        inventoryLogs := inventoryLogs[..|inventoryLogs| - 1];
      }
      outcome := Responded(Ok200);
    }
  }

  /** The end-to-end example: a body with item 42 and 7 available, correctly
      signed, is answered 200 and becomes the first entry. */
  lemma SignedExampleIsRecorded(digest: DigestFn, key: Bytes, rawBody: Bytes, log: seq<LogEntry>, now: string)
    ensures
      var req := Request(rawBody, Some(digest(rawBody, key)), Some(Payload(Num(42), Num(7))), now);
      var s := Handle(digest, Some(key), log, req);
      s.outcome == Responded(Ok200) && s.log[0] == LogEntry(Num(42), Num(7), now)
  {
  }

  /** The header value "bogus" as bytes. */
  const Bogus: Bytes := [0x62, 0x6f, 0x67, 0x75, 0x73]

  /** As written, a request signed "bogus" is not answered with 401: the
      base64 text of an HMAC-SHA256 digest is 44 bytes long, so
      `timingSafeEqual` throws on the length and the exception escapes. */
  lemma BogusSignatureThrows(digest: DigestFn, key: Bytes, rawBody: Bytes, log: seq<LogEntry>,
                             payload: Option<Payload>, now: string)
    requires |digest(rawBody, key)| == 44
    ensures
      var s := Handle(digest, Some(key), log, Request(rawBody, Some(Bogus), payload, now));
      s.outcome == Threw(VerifyFailed(LengthMismatch)) && s.log == log
  {
  }

  /** The handler with the intended comparison. */
  function HandleIntended(digest: DigestFn, secret: Option<Bytes>, log: seq<LogEntry>, req: Request): Step
  {
    Respond(VerifyHmacIntended(digest, req.rawBody, req.header, secret), log, req)
  }

  /** With the intended comparison, once the secret is configured every
      request whose header is missing or does not match is answered with 401
      and leaves the log unchanged; "bogus" is one of them. */
  lemma IntendedRejectsWith401(digest: DigestFn, key: Bytes, log: seq<LogEntry>, req: Request)
    requires req.header.None? || req.header.value != digest(req.rawBody, key)
    ensures HandleIntended(digest, Some(key), log, req) == Step(Responded(Unauthorized401), log)
  {
  }
}
