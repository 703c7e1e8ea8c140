/**
 * `verifySlackSignature` (api/translation.go:127-159): the request-authenticity
 * gate in front of the translation handler. The request is an object whose body
 * reader the verifier drains and replaces; the decision itself is the function
 * `Decide` of the body bytes, the two headers, the secret, the clock reading and
 * the keyed hash.
 */
module Verifier {
  import opened Wrappers
  import opened Bytes
  import opened Int64
  import opened Decimal
  import opened Freshness
  import opened Mac

  const TimestampHeader: string := "X-Slack-Request-Timestamp"
  const SignatureHeader: string := "X-Slack-Signature"

  const Colon: byte := 0x3A
  /** `"v0:"`, the version prefix of the signed message. */
  const MessagePrefix: seq<byte> := Ascii("v0:")

  /** Header values by canonical name; a name may carry several values. */
  type Header = map<string, seq<seq<byte>>>

  /** `Header.Get`: the first value of the header, or the empty string when it is absent. */
  function HeaderGet(h: Header, key: string): (v: seq<byte>)
    ensures key !in h || |h[key]| == 0 ==> v == []
    ensures key in h && |h[key]| > 0 ==> v == h[key][0]
  {
    if key in h && |h[key]| > 0 then h[key][0] else []
  }

  /** A request body as a stream of bytes that reading consumes. */
  class BodyReader {
    var unread: seq<byte>

    /** `ioutil.NopCloser(bytes.NewBuffer(data))`. */
    constructor (data: seq<byte>)
      ensures unread == data
    {
      unread := data;
    }

    /** `ioutil.ReadAll`: everything left in the stream, which is then exhausted. */
    method ReadAll() returns (data: seq<byte>)
      modifies this
      ensures data == old(unread) && unread == []
    {
      data := unread;
      unread := [];
    }
  }

  /** The part of `http.Request` the verifier uses; a `null` body is Go's nil `r.Body`. */
  class Request {
    var Body: BodyReader?
    const Header: Header

    constructor (body: BodyReader?, header: Header)
      ensures Body == body && Header == header
    {
      Body := body;
      Header := header;
    }
  }

  /** The signed message `"v0:" + timestamp + ":" + body`. */
  function SigningMessage(timestamp: seq<byte>, body: seq<byte>): (m: seq<byte>)
    ensures |m| == |timestamp| + |body| + 4
    ensures m[..3] == MessagePrefix && m[3..3 + |timestamp|] == timestamp
    ensures m[3 + |timestamp|] == Colon && m[4 + |timestamp|..] == body
  {
    MessagePrefix + timestamp + [Colon] + body
  }

  /** A timestamp that parses holds no colon, so the message splits back into its parts. */
  lemma ParsedTimestampHasNoColon(timestamp: seq<byte>)
    requires ParseInt(timestamp).Some?
    ensures Colon !in timestamp
  {
  }

  /** Between colon-free timestamps, the message determines the timestamp and the body. */
  lemma SigningMessageInjective(ts1: seq<byte>, b1: seq<byte>, ts2: seq<byte>, b2: seq<byte>)
    requires Colon !in ts1 && Colon !in ts2
    requires SigningMessage(ts1, b1) == SigningMessage(ts2, b2)
    ensures ts1 == ts2 && b1 == b2
  {
  }

  /** `"+5"` and `"5"` are the same instant but different signed messages. */
  lemma PlusSignChangesMessage(digits: seq<byte>, body: seq<byte>)
    requires |digits| > 0 && IsDigit(digits[0])
    ensures ParseInt([Plus] + digits) == ParseInt(digits)
    ensures SigningMessage([Plus] + digits, body) != SigningMessage(digits, body)
  {
    PlusSignIgnored(digits);
    assert SigningMessage([Plus] + digits, body)[3] != SigningMessage(digits, body)[3];
  }

  /** The outcome of one verification, naming the guard that rejected. */
  datatype Verdict = Accepted | NoBody | MalformedTimestamp | Stale | BadSignature

  /**
   * The decision of `verifySlackSignature`, guard by guard, in the source's order.
   * With `AsWritten` it is the source's decision; with `Corrected` the freshness
   * test is the evidently intended one.
   */
  function Decide(test: FreshnessTest, body: Option<seq<byte>>, timestamp: seq<byte>, signature: seq<byte>,
                  secret: seq<byte>, nowNs: int, hmac: HmacFunction): (v: Verdict)
    ensures v == NoBody <==> body.None?
    ensures v == Accepted ==> body.Some? && signature == SignatureFor(secret, SigningMessage(timestamp, body.value), hmac)
    ensures v == Accepted ==> ParseInt(timestamp).Some? && !TimedOutUnder(test, nowNs, ParseInt(timestamp).value)
  {
    if body.None? then NoBody
    else
      var message := SigningMessage(timestamp, body.value);
      match ParseInt(timestamp)
      case None => MalformedTimestamp
      case Some(ts) =>
        if TimedOutUnder(test, nowNs, ts) then Stale
        else if signature == SignatureFor(secret, message, hmac) then Accepted
        else BadSignature
  }

  /** Accepted exactly when there is a body, the timestamp parses and is fresh, and the MAC matches. */
  lemma AcceptedIff(body: Option<seq<byte>>, timestamp: seq<byte>, signature: seq<byte>,
                    secret: seq<byte>, nowNs: int, hmac: HmacFunction)
    ensures Decide(AsWritten, body, timestamp, signature, secret, nowNs, hmac) == Accepted <==>
      && body.Some?
      && ParseInt(timestamp).Some?
      && !TimedOut(nowNs, ParseInt(timestamp).value)
      && signature == SignatureFor(secret, SigningMessage(timestamp, body.value), hmac)
  {
  }

  /**
   * The guards before the MAC check reject whatever the signature, the secret and
   * the keyed hash are: the MAC is never consulted for them.
   */
  lemma EarlyRejectIgnoresMac(body: Option<seq<byte>>, timestamp: seq<byte>, nowNs: int,
                              sig1: seq<byte>, secret1: seq<byte>, hmac1: HmacFunction,
                              sig2: seq<byte>, secret2: seq<byte>, hmac2: HmacFunction)
    requires body.None? || ParseInt(timestamp).None? || TimedOut(nowNs, ParseInt(timestamp).value)
    ensures Decide(AsWritten, body, timestamp, sig1, secret1, nowNs, hmac1) == Decide(AsWritten, body, timestamp, sig2, secret2, nowNs, hmac2)
    ensures Decide(AsWritten, body, timestamp, sig1, secret1, nowNs, hmac1) != Accepted
  {
  }

  /** A missing body is reported first, a malformed timestamp before a stale one. */
  lemma GuardOrder(body: Option<seq<byte>>, timestamp: seq<byte>, signature: seq<byte>,
                   secret: seq<byte>, nowNs: int, hmac: HmacFunction)
    ensures body.None? ==> Decide(AsWritten, body, timestamp, signature, secret, nowNs, hmac) == NoBody
    ensures body.Some? && ParseInt(timestamp).None? ==>
      Decide(AsWritten, body, timestamp, signature, secret, nowNs, hmac) == MalformedTimestamp
  {
  }

  /** A missing timestamp header, or `"not-a-number"`, is a malformed timestamp. */
  lemma UnparsableTimestampRejected(h: Header, body: seq<byte>, signature: seq<byte>,
                                    secret: seq<byte>, nowNs: int, hmac: HmacFunction)
    ensures TimestampHeader !in h ==>
      Decide(AsWritten, Some(body), HeaderGet(h, TimestampHeader), signature, secret, nowNs, hmac) == MalformedTimestamp
    ensures Decide(AsWritten, Some(body), Ascii("not-a-number"), signature, secret, nowNs, hmac) == MalformedTimestamp
  {
    ParseEmpty();
    ParseNotANumber();
  }

  /** A request signed with the secret over its own timestamp and body, and still fresh, is accepted. */
  lemma SignedRequestAccepted(body: seq<byte>, timestamp: seq<byte>, secret: seq<byte>,
                              nowNs: int, hmac: HmacFunction)
    requires ParseInt(timestamp).Some? && !TimedOut(nowNs, ParseInt(timestamp).value)
    ensures Decide(AsWritten, Some(body), timestamp, SignatureFor(secret, SigningMessage(timestamp, body), hmac),
                   secret, nowNs, hmac) == Accepted
  {
  }

  /** Changing any one byte of a correct signature makes the request rejected. */
  lemma MutatedSignatureRejected(body: seq<byte>, timestamp: seq<byte>, secret: seq<byte>,
                                 nowNs: int, hmac: HmacFunction, i: nat, c: byte)
    requires i < 67
    requires c != SignatureFor(secret, SigningMessage(timestamp, body), hmac)[i]
    ensures Decide(AsWritten, Some(body), timestamp, SignatureFor(secret, SigningMessage(timestamp, body), hmac)[i := c],
                   secret, nowNs, hmac) != Accepted
  {
    var good := SignatureFor(secret, SigningMessage(timestamp, body), hmac);
    assert good[i := c][i] != good[i];
  }

  /** A correctly signed request 299 seconds old is accepted; 301 seconds old it is not. */
  lemma AroundTheBoundAccepted(body: seq<byte>, ts: int64, secret: seq<byte>, hmac: HmacFunction)
    ensures var sig := SignatureFor(secret, SigningMessage(FormatInt(ts), body), hmac);
      && Decide(AsWritten, Some(body), FormatInt(ts), sig, secret, (ts + 299) * Second, hmac) == Accepted
      && Decide(AsWritten, Some(body), FormatInt(ts), sig, secret, (ts + 301) * Second, hmac) == Stale
  {
    ParseFormat(ts);
    AroundTheBound(ts);
  }

  /**
   * A signature accepted for two requests carries one digest for both messages, so
   * reusing it for another timestamp or body needs an HMAC collision.
   */
  lemma AcceptedSignatureBindsRequest(b1: seq<byte>, ts1: seq<byte>, now1: int,
                                      b2: seq<byte>, ts2: seq<byte>, now2: int,
                                      signature: seq<byte>, secret: seq<byte>, hmac: HmacFunction)
    requires Decide(AsWritten, Some(b1), ts1, signature, secret, now1, hmac) == Accepted
    requires Decide(AsWritten, Some(b2), ts2, signature, secret, now2, hmac) == Accepted
    ensures hmac(secret, SigningMessage(ts1, b1)) == hmac(secret, SigningMessage(ts2, b2))
    ensures SigningMessage(ts1, b1) == SigningMessage(ts2, b2) ==> ts1 == ts2 && b1 == b2
  {
    SignatureDeterminesDigest(secret, SigningMessage(ts1, b1), secret, SigningMessage(ts2, b2), hmac);
    ParsedTimestampHasNoColon(ts1);
    ParsedTimestampHasNoColon(ts2);
    if SigningMessage(ts1, b1) == SigningMessage(ts2, b2) {
      SigningMessageInjective(ts1, b1, ts2, b2);
    }
  }

  /**
   * As written: a signed request whose timestamp lies far enough in the future that
   * `time.Since` saturates is accepted, though it is more than five minutes off.
   */
  lemma FarFutureAccepted(body: seq<byte>, ts: int64, secret: seq<byte>, nowNs: int, hmac: HmacFunction)
    requires nowNs - ts * Second <= MinInt64
    ensures Distance(nowNs, ts * Second) > MaxAge
    ensures Decide(AsWritten, Some(body), FormatInt(ts), SignatureFor(secret, SigningMessage(FormatInt(ts), body), hmac),
                   secret, nowNs, hmac) == Accepted
    ensures Decide(Corrected, Some(body), FormatInt(ts), SignatureFor(secret, SigningMessage(FormatInt(ts), body), hmac),
                   secret, nowNs, hmac) == Stale
  {
    ParseFormat(ts);
    FarFutureNeverTimesOut(nowNs, ts);
  }

  /** With the corrected test, acceptance implies the signed instant is within five minutes of now. */
  lemma CorrectedAcceptedIsFresh(body: Option<seq<byte>>, timestamp: seq<byte>, signature: seq<byte>,
                                 secret: seq<byte>, nowNs: int, hmac: HmacFunction)
    requires Decide(Corrected, body, timestamp, signature, secret, nowNs, hmac) == Accepted
    ensures ParseInt(timestamp).Some?
    ensures Distance(nowNs, ParseInt(timestamp).value * Second) <= MaxAge
    ensures body.Some? && signature == SignatureFor(secret, SigningMessage(timestamp, body.value), hmac)
  {
  }

  /** The corrected decision differs from the source's only for saturated, far-future timestamps. */
  lemma CorrectedAgreesAwayFromSaturation(body: Option<seq<byte>>, timestamp: seq<byte>, signature: seq<byte>,
                                          secret: seq<byte>, nowNs: int, hmac: HmacFunction)
    requires ParseInt(timestamp).Some? ==> Since(nowNs, ParseInt(timestamp).value) != MinInt64
    ensures Decide(Corrected, body, timestamp, signature, secret, nowNs, hmac) ==
            Decide(AsWritten, body, timestamp, signature, secret, nowNs, hmac)
  {
    if ParseInt(timestamp).Some? {
      CorrectedAgrees(nowNs, ParseInt(timestamp).value);
    }
  }

  /** The body `r.Body` holds, or `None` for a nil body. */
  function BodyBytes(b: BodyReader?): Option<seq<byte>>
    reads b
  {
    if b == null then None else Some(b.unread)
  }

  /**
   * `verifySlackSignature(r, secret)`. The body is read once and replaced by a new
   * reader over the same bytes, so the handler can parse it afterwards.
   */
  method VerifySlackSignature(r: Request, secret: seq<byte>, nowNs: int, hmac: HmacFunction)
    returns (ok: bool)
    modifies r, r.Body
    ensures old(r.Body) == null ==> r.Body == null
    ensures old(r.Body) != null ==> r.Body != null && fresh(r.Body) && r.Body.unread == old(r.Body.unread)
    ensures old(r.Body) != null ==> old(r.Body).unread == []
    ensures ok <==> Decide(AsWritten, old(BodyBytes(r.Body)), HeaderGet(r.Header, TimestampHeader),
                           HeaderGet(r.Header, SignatureHeader), secret, nowNs, hmac) == Accepted
  {
    if r.Body == null {
      return false;
    }

    var bodyBytes := r.Body.ReadAll();
    r.Body := new BodyReader(bodyBytes);

    var timestamp := HeaderGet(r.Header, TimestampHeader);
    var slackSignature := HeaderGet(r.Header, SignatureHeader);
    var message := SigningMessage(timestamp, bodyBytes);

    var parsed := ParseInt(timestamp);
    if parsed.None? {
      return false;
    }
    var ts := parsed.value;

    var tSince := Since(nowNs, ts);
    var diff := Abs64(tSince);
    if diff > MaxAge {
      return false;
    }

    ok := CheckMAC(message, slackSignature, secret, hmac);
  }

  /**
   * The start of `TranslateEnglish2Korean` (api/translation.go:54-62): verify, and on
   * success read the body again as the slash-command parser does.
   */
  method VerifyThenReadBody(r: Request, secret: seq<byte>, nowNs: int, hmac: HmacFunction)
    returns (parsedBody: Option<seq<byte>>)
    modifies r, r.Body
    ensures parsedBody.Some? <==> Decide(AsWritten, old(BodyBytes(r.Body)), HeaderGet(r.Header, TimestampHeader),
                                         HeaderGet(r.Header, SignatureHeader), secret, nowNs, hmac) == Accepted
    ensures parsedBody.Some? ==> parsedBody == old(BodyBytes(r.Body))
  {
    var ok := VerifySlackSignature(r, secret, nowNs, hmac);
    if !ok {
      return None;
    }
    var data := r.Body.ReadAll();
    parsedBody := Some(data);
  }
}
