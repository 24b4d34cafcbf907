/** The step-up authentication check of the todo-list controller: look up the
    authentication context that the tenant requires for the HTTP method, and
    either let the request through, challenge the caller to step up, or deny. */
module AuthCheck {
  import opened Wrappers
  import opened Models
  import Challenge
  import opened Sequences

  /** A claim of the caller's validated token. */
  datatype Claim = Claim(claimType: string, value: string)

  /** The part of the HTTP response the check may change. */
  datatype Response = Response(status: int, headers: seq<(string, string)>)

  /** How the check ended. `NoUserContext` stands for the
      `ArgumentNullException` thrown when no claims are available;
      `InsufficientClaims` and `Denied` for the two
      `UnauthorizedAccessException`s (with and without a challenge). */
  datatype Verdict = Allowed | NoUserContext | InsufficientClaims | Denied

  datatype CheckResult = CheckResult(verdict: Verdict, response: Response)

  const AcrsClaimType := "acrs"
  const CapabilityClaimType := "xms_cc"
  const ClaimsChallengeCapability := "cp1"
  const Unauthorized := 401

  /** ASCII letters folded to lower case; every other character unchanged. */
  function LowerAscii(c: char): char {
    if 'A' <= c <= 'Z' then (c as int - 'A' as int + 'a' as int) as char else c
  }

  /** Claim types are matched ignoring case (`StringComparison.OrdinalIgnoreCase`). */
  predicate SameClaimType(a: string, b: string) {
    |a| == |b| && forall i :: 0 <= i < |a| ==> LowerAscii(a[i]) == LowerAscii(b[i])
  }

  /** The claims of the given type, in token order (`ClaimsPrincipal.FindAll`). */
  function FindAll(claims: seq<Claim>, claimType: string): (r: seq<Claim>)
    ensures forall c :: c in r <==> c in claims && SameClaimType(c.claimType, claimType)
  {
    if |claims| == 0 then []
    else
      (if SameClaimType(claims[0].claimType, claimType) then [claims[0]] else [])
      + FindAll(claims[1..], claimType)
  }

  /** The context id stored for (configured tenant, HTTP method): the first row
      whose operation is exactly `httpMethod` and whose tenant equals the
      configured one (a missing configured tenant matches rows whose tenant
      is missing too). `None` when no row matches or the row has no id. */
  function SavedAuthContextId(rows: seq<AuthContext>, tenantId: Option<string>, httpMethod: string): (r: Option<string>)
    ensures (forall i :: 0 <= i < |rows| ==> !(rows[i].operation == Some(httpMethod) && rows[i].tenantId == tenantId)) ==> r.None?
  {
    match FirstWhere(rows, (x: AuthContext) => x.operation == Some(httpMethod) && x.tenantId == tenantId)
    case None => None
    case Some(row) => row.authContextId
  }

  /** Under the table's key constraint the lookup does not depend on row
      order: it yields the context id of the one row keyed (tenant, HTTP method). */
  lemma SavedAuthContextIdKeyed(rows: seq<AuthContext>, tenantId: Option<string>, httpMethod: string, k: nat)
    requires KeyUnique(rows)
    requires k < |rows| && Key(rows[k]) == (tenantId, Some(httpMethod))
    ensures SavedAuthContextId(rows, tenantId, httpMethod) == rows[k].authContextId
  {
    var p := (x: AuthContext) => x.operation == Some(httpMethod) && x.tenantId == tenantId;
    assert p(rows[k]);
    var i := FirstIndex(rows, p).value;
    assert Key(rows[i]) == Key(rows[k]);
  }

  /** `IsClientCapableofClaimsChallenge`: `None` when there are no claims (the
      source throws), otherwise whether the first claim of type exactly
      `xms_cc` has value `cp1`. */
  function IsClientCapable(claims: seq<Claim>): (r: Option<bool>)
    ensures r.None? <==> |claims| == 0
  {
    if |claims| == 0 then None
    else
      var cc := FirstWhere(FindAll(claims, CapabilityClaimType), IsCapabilityClaim);
      Some(cc.Some? && cc.value.value == ClaimsChallengeCapability)
  }

  predicate IsCapabilityClaim(x: Claim) {
    x.claimType == CapabilityClaimType
  }

  /** Reference definition: the first claim whose type is exactly `xms_cc`. */
  predicate FirstCapabilityIsCp1(claims: seq<Claim>) {
    exists i :: 0 <= i < |claims| && claims[i].claimType == CapabilityClaimType
      && claims[i].value == ClaimsChallengeCapability
      && forall j :: 0 <= j < i ==> claims[j].claimType != CapabilityClaimType
  }

  lemma SameClaimTypeRefl(a: string)
    ensures SameClaimType(a, a)
  {
  }

  /** Keeping only claims of type `xms_cc` (ignoring case) and then taking the
      first of exact type `xms_cc` finds the first `xms_cc` claim overall. */
  lemma {:induction false} FirstExactInFindAll(claims: seq<Claim>)
    ensures FirstWhere(FindAll(claims, CapabilityClaimType), IsCapabilityClaim)
         == FirstWhere(claims, IsCapabilityClaim)
  {
    if |claims| > 0 {
      var c, rest := claims[0], claims[1..];
      assert claims == [c] + rest;
      FirstExactInFindAll(rest);
      FirstWhereCons(c, rest, IsCapabilityClaim);
      if SameClaimType(c.claimType, CapabilityClaimType) {
        assert FindAll(claims, CapabilityClaimType) == [c] + FindAll(rest, CapabilityClaimType);
        FirstWhereCons(c, FindAll(rest, CapabilityClaimType), IsCapabilityClaim);
      } else {
        SameClaimTypeRefl(CapabilityClaimType);
        assert !IsCapabilityClaim(c);
        assert FindAll(claims, CapabilityClaimType) == FindAll(rest, CapabilityClaimType);
      }
    }
  }

  /** The client can take a claims challenge iff its first `xms_cc` claim is
      `cp1`; later `xms_cc` claims are ignored. */
  lemma IsClientCapableFirst(claims: seq<Claim>)
    requires |claims| > 0
    ensures IsClientCapable(claims) == Some(FirstCapabilityIsCp1(claims))
  {
    FirstExactInFindAll(claims);
    var r := FirstIndex(claims, IsCapabilityClaim);
    assert IsClientCapable(claims) == Some(r.Some? && claims[r.value].value == ClaimsChallengeCapability);
    if r.Some? && claims[r.value].value == ClaimsChallengeCapability {
      var i := r.value;
      assert forall j :: 0 <= j < i ==> !IsCapabilityClaim(claims[j]);
      assert FirstCapabilityIsCp1(claims);
    }
    if FirstCapabilityIsCp1(claims) {
      var i :| 0 <= i < |claims| && claims[i].claimType == CapabilityClaimType
        && claims[i].value == ClaimsChallengeCapability
        && forall j :: 0 <= j < i ==> claims[j].claimType != CapabilityClaimType;
      assert IsCapabilityClaim(claims[i]);
      assert r.Some?;
      assert r.value == i;
    }
  }

  /** The caller holds an `acrs` claim (type matched ignoring case) whose
      value is exactly `contextId`. */
  predicate HasAcrs(claims: seq<Claim>, contextId: string) {
    exists c :: c in claims && SameClaimType(c.claimType, AcrsClaimType) && c.value == contextId
  }

  /** `CheckForRequiredAuthContext(httpMethod)`. `resp` is the response before
      the check; the result carries it as the check leaves it. */
  function CheckForRequiredAuthContext(
    rows: seq<AuthContext>, tenantId: Option<string>, clientId: Option<string>,
    httpMethod: string, claims: seq<Claim>, resp: Response): (r: CheckResult)
    // no requirement stored, or an empty one: allowed, response untouched
    ensures SavedAuthContextId(rows, tenantId, httpMethod) in {None, Some("")} ==> r == CheckResult(Allowed, resp)
    // a requirement and no claims: fails before any claim is compared
    ensures SavedAuthContextId(rows, tenantId, httpMethod) !in {None, Some("")} && |claims| == 0
      ==> r == CheckResult(NoUserContext, resp)
    // a requirement X and some claims: allowed iff some acrs claim is X
    ensures SavedAuthContextId(rows, tenantId, httpMethod) !in {None, Some("")} && |claims| > 0
      ==> (r.verdict == Allowed <==> HasAcrs(claims, SavedAuthContextId(rows, tenantId, httpMethod).value))
    // mismatch, capable client: exactly one challenge header and status 401
    ensures r.verdict == InsufficientClaims ==>
      && SavedAuthContextId(rows, tenantId, httpMethod).Some?
      && FirstCapabilityIsCp1(claims)
      && r.response == Response(Unauthorized, resp.headers
           + [(Challenge.HeaderName, Challenge.ChallengeHeader(clientId, SavedAuthContextId(rows, tenantId, httpMethod).value))])
    // mismatch, incapable client: denied, response untouched
    ensures r.verdict == Denied ==> r.response == resp && |claims| > 0 && !FirstCapabilityIsCp1(claims)
    ensures r.verdict != InsufficientClaims ==> r.response == resp
  {
    var saved := SavedAuthContextId(rows, tenantId, httpMethod);
    if saved.None? || saved.value == "" then CheckResult(Allowed, resp)
    else if |claims| == 0 then CheckResult(NoUserContext, resp)
    else
      var id := saved.value;
      var acrsClaim := FirstWhere(FindAll(claims, AcrsClaimType), (x: Claim) => x.value == id);
      if acrsClaim.Some? && acrsClaim.value.value == id then CheckResult(Allowed, resp)
      else
        IsClientCapableFirst(claims);
        if IsClientCapable(claims) == Some(true) then
          var header := Challenge.ChallengeHeader(clientId, id);
          CheckResult(InsufficientClaims, Response(Unauthorized, resp.headers + [(Challenge.HeaderName, header)]))
        else CheckResult(Denied, resp)
  }

  /** With a requirement and a mismatching token, the outcome is decided by
      the client capability alone: challenge iff the first `xms_cc` is `cp1`. */
  lemma MismatchOutcome(rows: seq<AuthContext>, tenantId: Option<string>, clientId: Option<string>,
                        httpMethod: string, claims: seq<Claim>, resp: Response)
    requires SavedAuthContextId(rows, tenantId, httpMethod) !in {None, Some("")}
    requires |claims| > 0 && !HasAcrs(claims, SavedAuthContextId(rows, tenantId, httpMethod).value)
    ensures CheckForRequiredAuthContext(rows, tenantId, clientId, httpMethod, claims, resp).verdict
      == if FirstCapabilityIsCp1(claims) then InsufficientClaims else Denied
  {
    IsClientCapableFirst(claims);
  }

  /** A caller that decodes the challenge learns exactly the required context. */
  lemma ChallengeNamesRequiredContext(rows: seq<AuthContext>, tenantId: Option<string>, clientId: Option<string>,
                                     httpMethod: string, claims: seq<Claim>, resp: Response)
    requires CheckForRequiredAuthContext(rows, tenantId, clientId, httpMethod, claims, resp).verdict == InsufficientClaims
    ensures var r := CheckForRequiredAuthContext(rows, tenantId, clientId, httpMethod, claims, resp);
      && |r.response.headers| == |resp.headers| + 1
      && r.response.headers[|resp.headers|].0 == Challenge.HeaderName
      && Challenge.RequiredContextOf(r.response.headers[|resp.headers|].1) == SavedAuthContextId(rows, tenantId, httpMethod)
  {
    Challenge.RequiredContextOfHeader(clientId, SavedAuthContextId(rows, tenantId, httpMethod).value);
  }

  /** Scenario: a tenant requires context `contextId` (say C3) for DELETE; a
      `cp1`-capable caller without an `acrs` claim gets 401 and a challenge
      from which it reads back exactly that context. */
  lemma DeleteNeedsContextScenario(tenant: string, clientId: Option<string>, contextId: string, resp: Response)
    requires contextId != ""
    ensures var rows := [AuthContext(Some(tenant), Some(contextId), Some("High privilege"), Some("DELETE"))];
      var r := CheckForRequiredAuthContext(rows, Some(tenant), clientId, "DELETE", [Claim("xms_cc", "cp1")], resp);
      && r.verdict == InsufficientClaims
      && r.response == Response(401, resp.headers + [("WWW-Authenticate", Challenge.ChallengeHeader(clientId, contextId))])
      && Challenge.RequiredContextOf(r.response.headers[|resp.headers|].1) == Some(contextId)
  {
    var rows := [AuthContext(Some(tenant), Some(contextId), Some("High privilege"), Some("DELETE"))];
    var claims := [Claim("xms_cc", "cp1")];
    assert SavedAuthContextId(rows, Some(tenant), "DELETE") == Some(contextId);
    assert !SameClaimType("xms_cc", AcrsClaimType);
    assert !HasAcrs(claims, contextId);
    assert FirstCapabilityIsCp1(claims) by {
      assert claims[0].claimType == CapabilityClaimType;
    }
    MismatchOutcome(rows, Some(tenant), clientId, "DELETE", claims, resp);
    Challenge.RequiredContextOfHeader(clientId, contextId);
  }
}
