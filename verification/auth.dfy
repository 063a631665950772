/**
  The authentication stages of the `/set_pixel` handler: reading the bearer
  token from the Authorization header, handing it to the identity verifier,
  and taking the e-mail claim as the caller's identity. The verifier is an
  opaque function from token to outcome.
 */
module Auth {
  import opened Common
  import opened Text

  const BearerPrefix := "Bearer "

  const InvalidTokenMessage := "Invalid request. Invalid auth token provided."
  const UnmarshalMessage := "error unmarshalling Google user account data"
  const NoEmailMessage := "Google user does not have email"

  /**
    What the verifier reports for a token: a rejection with its reason, or
    acceptance with the response's claims, `None` when the response body does
    not read as a map from strings to strings.
   */
  datatype Verification = Rejected(reason: string) | Verified(claims: Option<map<string, string>>)

  /** The caller's identity, or the message the handler refuses the request with. */
  datatype Identity = Identified(email: string) | Refused(reason: string)

  /**
    The token of a request: only the first Authorization value is looked at;
    it must start with "Bearer ", and what follows, with white space trimmed
    from both ends, is the token.
   */
  function ParseBearer(authorization: seq<string>): (r: Option<string>)
    ensures r.Some? <==> |authorization| >= 1 && HasPrefix(authorization[0], BearerPrefix)
    ensures r.Some? ==> Trimmed(r.value)
    ensures r.Some? ==> r.value == TrimSpace(authorization[0][|BearerPrefix|..])
  {
    if |authorization| < 1 || !HasPrefix(authorization[0], BearerPrefix) then None
    else Some(TrimSpace(authorization[0][|BearerPrefix|..]))
  }

  /** The header a client sends, "Bearer " and its token padded with any white space, yields that token. */
  lemma BearerRoundTrip(pre: string, token: string, post: string, others: seq<string>)
    requires AllSpace(pre) && AllSpace(post) && Trimmed(token)
    ensures ParseBearer([BearerPrefix + pre + token + post] + others) == Some(token)
  {
    var h := BearerPrefix + pre + token + post;
    assert h[|BearerPrefix|..] == pre + token + post;
    TrimSpaceUndoesPadding(pre, token, post);
  }

  /**
    The authentication stages in the Go handler's order: bearer check, verifier, claims
    parse, e-mail lookup; the first to fail decides the refusal message.
   */
  function Authenticate(authorization: seq<string>, verify: string -> Verification): (r: Identity)
    ensures ParseBearer(authorization).None? ==> r == Refused(InvalidTokenMessage)
    ensures ParseBearer(authorization).Some? ==>
      match verify(ParseBearer(authorization).value)
      case Rejected(reason) => r == Refused(reason)
      case Verified(None) => r == Refused(UnmarshalMessage)
      case Verified(Some(claims)) =>
        r == if "email" in claims then Identified(claims["email"]) else Refused(NoEmailMessage)
  {
    match ParseBearer(authorization)
    case None => Refused(InvalidTokenMessage)
    case Some(token) =>
      match verify(token)
      case Rejected(reason) => Refused(reason)
      case Verified(None) => Refused(UnmarshalMessage)
      case Verified(Some(claims)) =>
        if "email" in claims then Identified(claims["email"]) else Refused(NoEmailMessage)
  }

  /** The verifier is consulted only about the token: headers carrying the same token authenticate alike. */
  lemma AuthenticateDependsOnlyOnToken(a1: seq<string>, a2: seq<string>, verify: string -> Verification)
    requires ParseBearer(a1) == ParseBearer(a2)
    ensures Authenticate(a1, verify) == Authenticate(a2, verify)
  {
  }

  /**
    End to end: a well-formed bearer header is authenticated by what the
    verifier says about its token, and by nothing else.
   */
  lemma BearerHeaderAuthenticates(pre: string, token: string, post: string, others: seq<string>,
                                  verify: string -> Verification)
    requires AllSpace(pre) && AllSpace(post) && Trimmed(token)
    ensures var r := Authenticate([BearerPrefix + pre + token + post] + others, verify);
      match verify(token)
      case Rejected(reason) => r == Refused(reason)
      case Verified(None) => r == Refused(UnmarshalMessage)
      case Verified(Some(claims)) =>
        r == if "email" in claims then Identified(claims["email"]) else Refused(NoEmailMessage)
  {
    BearerRoundTrip(pre, token, post, others);
  }
}
