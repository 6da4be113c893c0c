/**
  The bearer-token gate `verifyFirebaseToken`: the token is the second
  space-separated segment of the `Authorization` header, it is checked by the
  identity provider, and the verified email becomes the request's principal.
 */
module Auth {
  import opened Wrappers
  import opened Http

  /** JavaScript's `s.split(" ")`: the segments between single spaces, empty ones included. */
  function Split(s: string): (parts: seq<string>)
    ensures |parts| >= 1
    ensures forall i :: 0 <= i < |parts| ==> ' ' !in parts[i]
  {
    if |s| == 0 then [""]
    else
      var rest := Split(s[1..]);
      if s[0] == ' ' then [""] + rest
      else [[s[0]] + rest[0]] + rest[1..]
  }

  /** `parts.join(" ")`. */
  function Join(parts: seq<string>): string
    requires |parts| >= 1
  {
    if |parts| == 1 then parts[0] else parts[0] + " " + Join(parts[1..])
  }

  /** Splitting loses nothing: joining the segments gives the header back. */
  lemma {:induction false} JoinSplit(s: string)
    ensures Join(Split(s)) == s
  {
    if |s| > 0 {
      var rest := Split(s[1..]);
      JoinSplit(s[1..]);
      if s[0] == ' ' {
        assert s == [' '] + s[1..];
      } else {
        var parts := [[s[0]] + rest[0]] + rest[1..];
        if |rest| == 1 {
          assert s == [s[0]] + s[1..];
        } else {
          assert parts[1..] == rest[1..];
          assert Join(rest) == rest[0] + " " + Join(rest[1..]);
          assert s == [s[0]] + s[1..];
        }
      }
    }
  }

  /** Splitting a join of space-free segments gives back exactly those segments. */
  lemma {:induction false} SplitJoin(parts: seq<string>)
    requires |parts| >= 1
    requires forall i :: 0 <= i < |parts| ==> ' ' !in parts[i]
    ensures Split(Join(parts)) == parts
  {
    if |parts| == 1 {
      SplitWord(parts[0]);
    } else {
      SplitJoin(parts[1..]);
      SplitWordThenSpace(parts[0], Join(parts[1..]));
    }
  }

  /** A space-free string is a single segment. */
  lemma {:induction false} SplitWord(w: string)
    requires ' ' !in w
    ensures Split(w) == [w]
  {
    if |w| > 0 {
      SplitWord(w[1..]);
      assert [w[0]] + w[1..] == w;
    }
  }

  /** A space-free word followed by a space is the first segment; the rest splits on its own. */
  lemma {:induction false} SplitWordThenSpace(w: string, rest: string)
    requires ' ' !in w
    ensures Split(w + " " + rest) == [w] + Split(rest)
  {
    var s := w + " " + rest;
    if |w| == 0 {
      assert s == [' '] + rest;
      assert s[1..] == rest;
    } else {
      SplitWordThenSpace(w[1..], rest);
      assert s[1..] == w[1..] + " " + rest;
      assert [w[0]] + w[1..] == w;
    }
  }

  /** A string has a second segment exactly when it contains a space. */
  lemma {:induction false} SplitHasSecond(s: string)
    ensures |Split(s)| >= 2 <==> ' ' in s
  {
    if |s| > 0 {
      SplitHasSecond(s[1..]);
      assert ' ' in s <==> s[0] == ' ' || ' ' in s[1..];
    }
  }

  /**
    `authHeader.split(" ")[1]`, `None` (JavaScript's `undefined`) when there
    is no second segment, that is, when the header holds no space.
   */
  function BearerToken(header: string): (token: Option<string>)
    ensures token.None? <==> ' ' !in header
    ensures token.Some? ==> ' ' !in token.value
  {
    SplitHasSecond(header);
    var parts := Split(header);
    if |parts| >= 2 then Some(parts[1]) else None
  }

  /** The token is the segment after the first space; the scheme word itself is not checked. */
  lemma BearerTokenOf(scheme: string, token: string)
    requires ' ' !in scheme && ' ' !in token
    ensures BearerToken(scheme + " " + token) == Some(token)
  {
    var parts := [scheme, token];
    assert Join(parts[1..]) == token;
    assert Join(parts) == scheme + " " + token;
    SplitJoin(parts);
  }

  /**
    Firebase's `verifyIdToken`: the email of the identity a token belongs to,
    `None` when verification fails.
   */
  type Verifier = string -> Option<string>

  /**
    The principal the gate admits for a request with this header, `None` when
    it answers 401. An absent or empty header is rejected without consulting
    the verifier; a header without a second segment hands `undefined` to the
    verifier, which rejects it.
   */
  function Authenticate(header: Option<string>, verify: Verifier): (principal: Option<string>)
    ensures header.None? || header == Some("") ==> principal.None?
    ensures principal.Some? ==>
      && header.Some? && BearerToken(header.value).Some?
      && verify(BearerToken(header.value).value) == principal
  {
    if header.None? || header.value == "" then None
    else
      match BearerToken(header.value)
      case None => None
      case Some(token) => verify(token)
  }

  /** A well-formed `Authorization: <scheme> <token>` header is decided by the verifier alone. */
  lemma AuthenticateHeader(scheme: string, token: string, verify: Verifier)
    requires ' ' !in scheme && ' ' !in token
    ensures Authenticate(Some(scheme + " " + token), verify) == verify(token)
  {
    BearerTokenOf(scheme, token);
  }

  /** Without a header the verifier plays no part: every verifier gives the same 401. */
  lemma MissingHeaderIgnoresVerifier(verify: Verifier, other: Verifier)
    ensures Authenticate(None, verify) == Authenticate(None, other) == None
  {
  }

  /** An inbound request: its `Authorization` header and the principal the gate attaches. */
  class Request {
    const authorization: Option<string>
    var tokenEmail: Option<string>

    constructor (authorization: Option<string>)
      ensures this.authorization == authorization && tokenEmail == None
    {
      this.authorization := authorization;
      tokenEmail := None;
    }

    /**
      `verifyFirebaseToken`: `None` means `next()` is called, after
      `req.tokenEmail` is set to the verified email; otherwise the 401 reply is
      returned and the request is left as it was.
     */
    method VerifyFirebaseToken(verify: Verifier) returns (rejection: Option<Response>)
      modifies this
      ensures rejection.None? <==> Authenticate(authorization, verify).Some?
      ensures rejection.None? ==> tokenEmail == Authenticate(authorization, verify)
      ensures rejection.Some? ==> rejection.value == Unauthorized && tokenEmail == old(tokenEmail)
    {
      if authorization.None? || authorization.value == "" {
        return Some(Unauthorized);
      }
      var token := BearerToken(authorization.value);
      if token.None? {
        return Some(Unauthorized);
      }
      var decoded := verify(token.value);
      if decoded.None? {
        return Some(Unauthorized);
      }
      tokenEmail := decoded;
      rejection := None;
    }
  }
}
