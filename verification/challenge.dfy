/** The step-up challenge sent back to a caller whose token lacks the required
    authentication context: a claims request (section 5.5 of OpenID Connect
    Core 1.0) asking for an essential `acrs` claim, carried base64-encoded in a
    `WWW-Authenticate: Bearer` header (section 3 of RFC 6750).

    The functions that read a header back are the client's side of the
    protocol; they serve as the partner of the builder. */
module Challenge {
  import opened Wrappers
  import Base64
  import Utf8

  const ClaimsPrefix := "{\"access_token\":{\"acrs\":{\"essential\":true,\"value\":\""
  const ClaimsSuffix := "\"}}}"

  /** The JSON claims request for context `contextId`. The id is inserted
      verbatim, without JSON escaping. */
  function ClaimsRequest(contextId: string): (json: string)
    ensures |json| == |ClaimsPrefix| + |contextId| + |ClaimsSuffix|
    ensures json[..|ClaimsPrefix|] == ClaimsPrefix && json[|json| - |ClaimsSuffix|..] == ClaimsSuffix
    ensures json[|ClaimsPrefix|..|json| - |ClaimsSuffix|] == contextId
  {
    ClaimsPrefix + contextId + ClaimsSuffix
  }

  /** Reads the required `acrs` value back out of a claims request of the
      fixed shape above. */
  function AcrsValueOf(json: string): (r: Option<string>)
  {
    if |json| >= |ClaimsPrefix| + |ClaimsSuffix|
       && json[..|ClaimsPrefix|] == ClaimsPrefix
       && json[|json| - |ClaimsSuffix|..] == ClaimsSuffix
    then Some(json[|ClaimsPrefix|..|json| - |ClaimsSuffix|])
    else None
  }

  /** Reading the request back yields the id, and only a request built for
      that id reads back as it. */
  lemma AcrsValueOfClaimsRequest(contextId: string, json: string)
    ensures AcrsValueOf(ClaimsRequest(contextId)) == Some(contextId)
    ensures AcrsValueOf(json) == Some(contextId) <==> json == ClaimsRequest(contextId)
  {
    var j := ClaimsRequest(contextId);
    assert j[..|ClaimsPrefix|] == ClaimsPrefix;
    assert j[|j| - |ClaimsSuffix|..] == ClaimsSuffix;
    assert j[|ClaimsPrefix|..|j| - |ClaimsSuffix|] == contextId;
    if AcrsValueOf(json) == Some(contextId) {
      assert json == json[..|ClaimsPrefix|] + json[|ClaimsPrefix|..|json| - |ClaimsSuffix|] + json[|json| - |ClaimsSuffix|..];
    }
  }

  /** The `claims` parameter: base64 of the UTF-8 octets of the request. */
  function ClaimsParameter(contextId: string): (p: string)
    ensures forall k :: 0 <= k < |p| ==> p[k] != '"'
  {
    Base64.Encode(Utf8.Encode(ClaimsRequest(contextId)))
  }

  const HeaderName := "WWW-Authenticate"
  /** The authentication scheme of section 3 of RFC 6750. */
  const BearerScheme := "Bearer "
  const HeaderHead := BearerScheme + "realm=\"\", authorization_uri=\"https://login.microsoftonline.com/common/oauth2/authorize\", client_id=\""
  const HeaderMiddle := "\", error=\"insufficient_claims\", claims=\""
  const HeaderTail := "\", cc_type=\"authcontext\""
  const ClaimsKey := "claims=\""

  /** The challenge header value. A missing (`null`) client id is rendered as
      the empty string, as C# string concatenation does. */
  function ChallengeHeader(clientId: Option<string>, contextId: string): (h: string)
    ensures BearerScheme <= h
  {
    SchemePrefix(clientId.GetOr(""), ClaimsParameter(contextId));
    HeaderHead + clientId.GetOr("") + HeaderMiddle + ClaimsParameter(contextId) + HeaderTail
  }

  lemma SchemePrefix(clientId: string, claims: string)
    ensures BearerScheme <= HeaderHead + clientId + HeaderMiddle + claims + HeaderTail
  {
    var h := HeaderHead + clientId + HeaderMiddle + claims + HeaderTail;
    assert h == BearerScheme + h[|BearerScheme|..];
  }

  /** Start of the longest suffix of `s` that holds no double quote. */
  function QuoteFreeSuffixStart(s: string): (k: nat)
    ensures k <= |s|
    ensures forall i :: k <= i < |s| ==> s[i] != '"'
    ensures k > 0 ==> s[k - 1] == '"'
  {
    if |s| == 0 then 0
    else if s[|s| - 1] == '"' then |s|
    else QuoteFreeSuffixStart(s[..|s| - 1])
  }

  /** Extracts the quoted `claims` parameter from a challenge header that ends
      with the `cc_type` parameter. */
  function ClaimsParameterOf(h: string): (r: Option<string>)
  {
    if |h| < |HeaderTail| || h[|h| - |HeaderTail|..] != HeaderTail then None
    else
      var body := h[..|h| - |HeaderTail|];
      var k := QuoteFreeSuffixStart(body);
      if k >= |ClaimsKey| && body[k - |ClaimsKey|..k] == ClaimsKey then Some(body[k..]) else None
  }

  /** The context id a client recovers from a challenge header: extract the
      parameter, undo base64, undo UTF-8, read the JSON. */
  function RequiredContextOf(h: string): Option<string> {
    match ClaimsParameterOf(h)
    case None => None
    case Some(p) =>
      match Base64.Decode(p)
      case None => None
      case Some(octets) =>
        match Utf8.Decode(octets)
        case None => None
        case Some(json) => AcrsValueOf(json)
  }

  lemma QuoteFreeSuffixOf(p: string, t: string)
    requires |p| > 0 && p[|p| - 1] == '"'
    requires forall i :: 0 <= i < |t| ==> t[i] != '"'
    ensures QuoteFreeSuffixStart(p + t) == |p|
  {
    var s := p + t;
    var k := QuoteFreeSuffixStart(s);
    assert s[|p| - 1] == '"';
  }

  /** The parameter is found whatever precedes `claims="`, because the
      base64 alphabet holds no double quote. */
  lemma ClaimsParameterOfSplit(p: string, t: string)
    requires |p| >= |ClaimsKey| && p[|p| - |ClaimsKey|..] == ClaimsKey
    requires forall i :: 0 <= i < |t| ==> t[i] != '"'
    ensures ClaimsParameterOf(p + t + HeaderTail) == Some(t)
  {
    var h := p + t + HeaderTail;
    assert h[|h| - |HeaderTail|..] == HeaderTail;
    var body := h[..|h| - |HeaderTail|];
    assert body == p + t;
    assert p[|p| - 1] == ClaimsKey[|ClaimsKey| - 1];
    QuoteFreeSuffixOf(p, t);
    assert body[|p| - |ClaimsKey|..|p|] == p[|p| - |ClaimsKey|..];
    assert body[|p|..] == t;
  }

  lemma ClaimsParameterOfHeader(clientId: Option<string>, contextId: string)
    ensures ClaimsParameterOf(ChallengeHeader(clientId, contextId)) == Some(ClaimsParameter(contextId))
  {
    var p := HeaderHead + clientId.GetOr("") + HeaderMiddle;
    assert HeaderMiddle[|HeaderMiddle| - |ClaimsKey|..] == ClaimsKey;
    assert p[|p| - |ClaimsKey|..] == HeaderMiddle[|HeaderMiddle| - |ClaimsKey|..];
    ClaimsParameterOfSplit(p, ClaimsParameter(contextId));
  }

  /** The header carries the required context: whatever the client id, a
      client that decodes the challenge recovers exactly `contextId`. */
  lemma RequiredContextOfHeader(clientId: Option<string>, contextId: string)
    ensures RequiredContextOf(ChallengeHeader(clientId, contextId)) == Some(contextId)
  {
    ClaimsParameterOfHeader(clientId, contextId);
    var json := ClaimsRequest(contextId);
    Base64.DecodeEncode(Utf8.Encode(json));
    Utf8.DecodeEncode(json);
    AcrsValueOfClaimsRequest(contextId, json);
  }
}
