/**
 * The webhook endpoint: signature verification over the raw body, then the
 * chain of guards that decides whether to fetch the diff, generate a review
 * and post it. The collaborators' answers are inputs; the result is the reply
 * together with the sequence of collaborator calls made, in order.
 */
module App {
  import opened Wrappers
  import opened Text
  import opened Hex
  import ReviewGenerator

  /** HMAC-SHA256 of a message under a key, as raw digest bytes; opaque to this model. */
  type Mac = (seq<byte>, seq<byte>) -> seq<byte>

  const Algorithm := "sha256"

  /** The fields of the parsed JSON payload that the handler reads; None stands for an absent key. */
  datatype Payload = Payload(
    action: Option<string>,
    repoFullName: Option<string>,   // payload['repository']['full_name']
    prNumber: Option<int>,          // payload['pull_request']['number']
    installationId: Option<int>)    // payload.get('installation', {}).get('id')

  /** An inbound delivery: the two headers consulted, the raw body bytes and the parsed payload. */
  datatype Request = Request(
    signatureHeader: Option<string>,  // X-Hub-Signature-256
    eventHeader: Option<string>,      // X-GitHub-Event
    body: seq<byte>,
    payload: Payload)

  /** A call to a collaborator, with its arguments. */
  datatype Call =
    | FetchDiff(repo: string, pr: int, installation: int)
    | ReviewCall(diff: string)
    | PostComment(repo: string, pr: int, comment: string, installation: int)

  /** The reply: a JSON status with an HTTP code, or an exception escaping the view function. */
  datatype Response = Json(status: string, code: int) | Raised(error: PyError)

  datatype Handled = Handled(response: Response, calls: seq<Call>)

  /** hmac.compare_digest on two str values: ASCII only, else TypeError. */
  function CompareDigest(a: string, b: string): Outcome<bool>
  {
    if !IsAscii(a) || !IsAscii(b) then Raises(TypeError) else Returns(a == b)
  }

  /**
   * verify_signature: a missing header is rejected; the header is unpacked into
   * exactly two pieces around '=' (raising otherwise); an algorithm other than
   * sha256 is rejected; else the hex HMAC of the raw body is compared with the
   * second piece.
   */
  function VerifySignature(header: Option<string>, body: seq<byte>, secret: seq<byte>, mac: Mac): (r: Outcome<bool>)
    // no header: rejected
    ensures header.None? ==> r == Returns(false)
    // not exactly one '=': the unpacking raises
    ensures header.Some? && Count(header.value, '=') != 1 ==> r == Raises(ValueError)
    ensures r.Raises? ==> r.error == ValueError || r.error == TypeError
    // accepted only for exactly the header a holder of the secret computes over this body
    ensures r == Returns(true) ==> header == Some(SignatureFor(body, secret, mac))
  {
    match header
    case None => Returns(false)
    case Some(h) =>
      var parts := Split(h, '=');
      if |parts| != 2 then Raises(ValueError)
      else if parts[0] != Algorithm then Returns(false)
      else
        JoinSplit(h, '=');
        assert h == parts[0] + "=" + parts[1] by {
          assert parts[1..] == [parts[1]];
        }
        CompareDigest(HexEncode(mac(secret, body)), parts[1])
  }

  /** The header a sender holding `secret` attaches to `body`. */
  function SignatureFor(body: seq<byte>, secret: seq<byte>, mac: Mac): string
  {
    Algorithm + "=" + HexEncode(mac(secret, body))
  }

  predicate IsHandledAction(action: Option<string>)
  {
    action == Some("opened") || action == Some("synchronize")
  }

  /** Python truthiness of an optional integer: None and 0 are falsy. */
  predicate IsSetId(id: Option<int>)
  {
    id.Some? && id.value != 0
  }

  /**
   * The webhook view function. `fetched` is what get_pull_request_diff returns
   * and `completion` is what the completion API answers.
   */
  function Webhook(req: Request, secret: seq<byte>, mac: Mac, fetched: Option<string>, completion: Option<string>): (h: Handled)
    // calls happen in the order fetch, review, post, with the request's own arguments
    ensures CallsInOrder(req, fetched, h.calls)
    // every JSON reply is one of the six fixed status/code pairs
    ensures h.response.Json? ==>
              h.response in {Json("invalid signature", 403), Json("ignored event", 200), Json("action ignored", 200),
                             Json("installation ID missing", 400), Json("no changes detected", 200),
                             Json("review posted", 200)}
    // a review is posted exactly when all three calls were made
    ensures h.response == Json("review posted", 200) <==> |h.calls| == 3
    // an escaped exception is raised before any collaborator is called
    ensures h.response.Raised? ==> h.calls == []
  {
    match VerifySignature(req.signatureHeader, req.body, secret, mac)
    case Raises(e) => Handled(Raised(e), [])
    case Returns(valid) =>
      if !valid then Handled(Json("invalid signature", 403), [])
      else if req.eventHeader != Some("pull_request") then Handled(Json("ignored event", 200), [])
      else if !IsHandledAction(req.payload.action) then Handled(Json("action ignored", 200), [])
      else if req.payload.repoFullName.None? then Handled(Raised(KeyError("full_name")), [])
      else if req.payload.prNumber.None? then Handled(Raised(KeyError("number")), [])
      else if !IsSetId(req.payload.installationId) then Handled(Json("installation ID missing", 400), [])
      else
        var repo, pr, inst := req.payload.repoFullName.value, req.payload.prNumber.value, req.payload.installationId.value;
        if !Truthy(fetched) then Handled(Json("no changes detected", 200), [FetchDiff(repo, pr, inst)])
        else
          var review := ReviewGenerator.GenerateReview(completion);
          Handled(Json("review posted", 200),
                  [FetchDiff(repo, pr, inst), ReviewCall(fetched.value), PostComment(repo, pr, review, inst)])
  }

  // ---------------------------------------------------------------------------
  // Signature verification

  /** A missing signature header is rejected. */
  lemma MissingHeaderRejected(body: seq<byte>, secret: seq<byte>, mac: Mac)
    ensures VerifySignature(None, body, secret, mac) == Returns(false)
  {
  }

  /** A header without exactly one '=' makes the unpacking raise instead of returning false. */
  lemma MalformedHeaderRaises(h: string, body: seq<byte>, secret: seq<byte>, mac: Mac)
    requires Count(h, '=') != 1
    ensures VerifySignature(Some(h), body, secret, mac) == Raises(ValueError)
  {
  }

  /**
   * For a well-formed header `alg=hex`: verification succeeds exactly when alg
   * is sha256 and hex is the lower-case hex HMAC of the raw body; it raises only
   * for a non-ASCII hex part under sha256.
   */
  lemma {:induction false} VerifyWellFormed(alg: string, hex: string, body: seq<byte>, secret: seq<byte>, mac: Mac)
    requires '=' !in alg && '=' !in hex
    ensures VerifySignature(Some(alg + "=" + hex), body, secret, mac) ==
            if alg != Algorithm then Returns(false)
            else if !IsAscii(hex) then Raises(TypeError)
            else Returns(hex == HexEncode(mac(secret, body)))
  {
    SplitPrefix(alg, hex, '=');
    SplitFree(hex, '=');
    HexIsAscii(HexEncode(mac(secret, body)));
  }

  lemma HexIsAscii(s: string)
    requires forall i :: 0 <= i < |s| ==> IsHexChar(s[i])
    ensures IsAscii(s) && '=' !in s
  {
  }

  /**
   * Comparing the hex HMAC with the header's hex part: it raises exactly when
   * that part is not ASCII (the computed side always is), and otherwise
   * succeeds exactly when the part decodes to the digest itself.
   */
  lemma CompareWithHexDigest(d: seq<byte>, s: string)
    ensures CompareDigest(HexEncode(d), s).Raises? <==> !IsAscii(s)
    ensures !IsAscii(s) ==> CompareDigest(HexEncode(d), s) == Raises(TypeError)
    ensures IsAscii(s) ==> CompareDigest(HexEncode(d), s) == Returns(HexDecode(s) == Some(d))
  {
    HexIsAscii(HexEncode(d));
    if HexDecode(s) == Some(d) {
      EncodeDecode(s, d);
    } else if s == HexEncode(d) {
      DecodeEncode(d);
    }
  }

  /** A header of any other algorithm is rejected. */
  lemma WrongAlgorithmRejected(alg: string, hex: string, body: seq<byte>, secret: seq<byte>, mac: Mac)
    requires '=' !in alg && '=' !in hex && alg != Algorithm
    ensures VerifySignature(Some(alg + "=" + hex), body, secret, mac) == Returns(false)
  {
    VerifyWellFormed(alg, hex, body, secret, mac);
  }

  /** The header computed from the shared secret over the raw body is accepted. */
  lemma SignedBodyAccepted(body: seq<byte>, secret: seq<byte>, mac: Mac)
    ensures VerifySignature(Some(SignatureFor(body, secret, mac)), body, secret, mac) == Returns(true)
  {
    var hex := HexEncode(mac(secret, body));
    HexIsAscii(hex);
    VerifyWellFormed(Algorithm, hex, body, secret, mac);
  }

  /** A sha256 header carrying the digest of anything but this body's HMAC is rejected. */
  lemma OtherDigestRejected(d: seq<byte>, body: seq<byte>, secret: seq<byte>, mac: Mac)
    requires d != mac(secret, body)
    ensures VerifySignature(Some(Algorithm + "=" + HexEncode(d)), body, secret, mac) == Returns(false)
  {
    var hex := HexEncode(d);
    HexIsAscii(hex);
    VerifyWellFormed(Algorithm, hex, body, secret, mac);
    if hex == HexEncode(mac(secret, body)) {
      EncodeInjective(d, mac(secret, body));
    }
  }

  // ---------------------------------------------------------------------------
  // The decision chain

  /**
   * The calls made are a prefix of: fetch the diff for this request's fields,
   * review exactly the fetched diff, post to the same pull request.
   */
  predicate CallsInOrder(req: Request, fetched: Option<string>, calls: seq<Call>)
  {
    |calls| <= 3
    && (|calls| >= 1 ==>
          && req.payload.repoFullName.Some? && req.payload.prNumber.Some? && req.payload.installationId.Some?
          && calls[0] == FetchDiff(req.payload.repoFullName.value, req.payload.prNumber.value, req.payload.installationId.value))
    && (|calls| >= 2 ==> Truthy(fetched) && calls[1] == ReviewCall(fetched.value))
    && (|calls| >= 3 ==>
          && calls[2].PostComment?
          && calls[2].repo == calls[0].repo && calls[2].pr == calls[0].pr
          && calls[2].installation == calls[0].installation)
  }

  /** Failed verification answers 403 whatever the event, payload and collaborators; nothing is called. */
  lemma InvalidSignatureFirst(req: Request, other: Request, secret: seq<byte>, mac: Mac,
                              fetched: Option<string>, completion: Option<string>, fetched': Option<string>, completion': Option<string>)
    requires VerifySignature(req.signatureHeader, req.body, secret, mac) == Returns(false)
    requires other.signatureHeader == req.signatureHeader && other.body == req.body
    ensures Webhook(req, secret, mac, fetched, completion) == Handled(Json("invalid signature", 403), [])
    ensures Webhook(other, secret, mac, fetched', completion') == Webhook(req, secret, mac, fetched, completion)
  {
  }

  /** Verified deliveries of any other event are acknowledged and ignored. */
  lemma OtherEventIgnored(req: Request, secret: seq<byte>, mac: Mac, fetched: Option<string>, completion: Option<string>)
    requires VerifySignature(req.signatureHeader, req.body, secret, mac) == Returns(true)
    requires req.eventHeader != Some("pull_request")
    ensures Webhook(req, secret, mac, fetched, completion) == Handled(Json("ignored event", 200), [])
  {
  }

  /** Pull-request actions other than opened and synchronize are acknowledged and ignored. */
  lemma OtherActionIgnored(req: Request, secret: seq<byte>, mac: Mac, fetched: Option<string>, completion: Option<string>)
    requires VerifySignature(req.signatureHeader, req.body, secret, mac) == Returns(true)
    requires req.eventHeader == Some("pull_request")
    requires !IsHandledAction(req.payload.action)
    ensures Webhook(req, secret, mac, fetched, completion) == Handled(Json("action ignored", 200), [])
  {
  }

  /** An absent or zero installation id is a 400 with no collaborator call. */
  lemma InstallationIdMissing(req: Request, secret: seq<byte>, mac: Mac, fetched: Option<string>, completion: Option<string>)
    requires VerifySignature(req.signatureHeader, req.body, secret, mac) == Returns(true)
    requires req.eventHeader == Some("pull_request") && IsHandledAction(req.payload.action)
    requires req.payload.repoFullName.Some? && req.payload.prNumber.Some?
    requires req.payload.installationId == None || req.payload.installationId == Some(0)
    ensures Webhook(req, secret, mac, fetched, completion) == Handled(Json("installation ID missing", 400), [])
  {
  }

  /** The repository and pull-request number are read before the installation id: a missing one raises. */
  lemma MissingRepositoryRaises(req: Request, secret: seq<byte>, mac: Mac, fetched: Option<string>, completion: Option<string>)
    requires VerifySignature(req.signatureHeader, req.body, secret, mac) == Returns(true)
    requires req.eventHeader == Some("pull_request") && IsHandledAction(req.payload.action)
    requires req.payload.repoFullName.None? || req.payload.prNumber.None?
    ensures Webhook(req, secret, mac, fetched, completion).response.Raised?
    ensures Webhook(req, secret, mac, fetched, completion).calls == []
  {
  }

  /** A verified, handled delivery with all fields present: the shared preconditions of the last two outcomes. */
  predicate Dispatched(req: Request, secret: seq<byte>, mac: Mac)
  {
    && VerifySignature(req.signatureHeader, req.body, secret, mac) == Returns(true)
    && req.eventHeader == Some("pull_request") && IsHandledAction(req.payload.action)
    && req.payload.repoFullName.Some? && req.payload.prNumber.Some? && IsSetId(req.payload.installationId)
  }

  /** No usable diff: exactly one diff fetch, then 200 "no changes detected"; no review, no post. */
  lemma NoChangesDetected(req: Request, secret: seq<byte>, mac: Mac, fetched: Option<string>, completion: Option<string>)
    requires Dispatched(req, secret, mac)
    requires fetched == None || fetched == Some("")
    ensures Webhook(req, secret, mac, fetched, completion) ==
            Handled(Json("no changes detected", 200),
                    [FetchDiff(req.payload.repoFullName.value, req.payload.prNumber.value, req.payload.installationId.value)])
  {
  }

  /**
   * Success path: one fetch, one review of exactly the fetched diff, one post of
   * exactly that review to the same pull request, then 200 "review posted".
   * A failed completion call posts the fixed fallback text instead.
   */
  lemma ReviewPosted(req: Request, secret: seq<byte>, mac: Mac, diff: string, completion: Option<string>)
    requires Dispatched(req, secret, mac)
    requires diff != ""
    ensures var repo, pr, inst := req.payload.repoFullName.value, req.payload.prNumber.value, req.payload.installationId.value;
            var review := if completion.Some? then completion.value else ReviewGenerator.Fallback;
            Webhook(req, secret, mac, Some(diff), completion) ==
            Handled(Json("review posted", 200), [FetchDiff(repo, pr, inst), ReviewCall(diff), PostComment(repo, pr, review, inst)])
  {
  }

  /** A delivery signed with the shared secret passes the signature guard, whatever else it holds. */
  lemma SignedDeliveryPassesGuard(req: Request, secret: seq<byte>, mac: Mac, fetched: Option<string>, completion: Option<string>)
    requires req.signatureHeader == Some(SignatureFor(req.body, secret, mac))
    ensures Webhook(req, secret, mac, fetched, completion).response != Json("invalid signature", 403)
    ensures Webhook(req, secret, mac, fetched, completion).response.Raised? ==> req.eventHeader == Some("pull_request")
  {
    SignedBodyAccepted(req.body, secret, mac);
  }

  /** A signature header without exactly one '=' makes the handler raise ValueError before any call. */
  lemma MalformedHeaderAborts(req: Request, secret: seq<byte>, mac: Mac, fetched: Option<string>, completion: Option<string>)
    requires req.signatureHeader.Some? && Count(req.signatureHeader.value, '=') != 1
    ensures Webhook(req, secret, mac, fetched, completion) == Handled(Raised(ValueError), [])
  {
    MalformedHeaderRaises(req.signatureHeader.value, req.body, secret, mac);
  }
}
