/** Shared/AuthUser.cs: the signed-in principal as the hosting platform
    describes it, with a first-match lookup over its claims. */
module Auth {
  datatype AuthClaim = AuthClaim(claimType: string, value: string)

  datatype AuthUser = AuthUser(
    identityProvider: string,
    userId: string,
    userDetails: string,
    userRoles: seq<string>,
    claims: seq<AuthClaim>)

  /** A freshly constructed principal: every string empty, no roles, no
      claims. */
  const DefaultAuthUser: AuthUser := AuthUser("", "", "", [], [])

  /** The value of the first claim of type `t`, or the empty string when
      no claim has that type. */
  function FirstValue(claims: seq<AuthClaim>, t: string): (r: string)
    ensures (exists i :: 0 <= i < |claims| && claims[i].claimType == t) ==>
              exists i :: 0 <= i < |claims| && claims[i].claimType == t && r == claims[i].value
                          && forall j :: 0 <= j < i ==> claims[j].claimType != t
    ensures (forall i :: 0 <= i < |claims| ==> claims[i].claimType != t) ==> r == ""
  {
    if |claims| == 0 then ""
    else if claims[0].claimType == t then claims[0].value
    else
      var rest := FirstValue(claims[1..], t);
      assert forall i :: 1 <= i < |claims| ==> claims[i] == claims[1..][i - 1];
      if exists i :: 0 <= i < |claims| && claims[i].claimType == t then
        var i :| 0 <= i < |claims| && claims[i].claimType == t;
        assert claims[1..][i - 1].claimType == t;
        var k :| 0 <= k < |claims[1..]| && claims[1..][k].claimType == t && rest == claims[1..][k].value
                 && forall j :: 0 <= j < k ==> claims[1..][j].claimType != t;
        assert claims[k + 1].claimType == t && rest == claims[k + 1].value;
        rest
      else
        rest
  }

  /** The `foreach` scan of `GetClaimValue`: it returns at the first claim
      of the requested type, or the empty string after the last claim. */
  method GetClaimValue(user: AuthUser, claimType: string) returns (r: string)
    ensures r == FirstValue(user.claims, claimType)
  {
    var i := 0;
    while i < |user.claims|
      invariant 0 <= i <= |user.claims|
      invariant FirstValue(user.claims[i..], claimType) == FirstValue(user.claims, claimType)
    {
      if user.claims[i].claimType == claimType {
        return user.claims[i].value;
      }
      assert user.claims[i..][1..] == user.claims[i + 1..];
      i := i + 1;
    }
    return "";
  }

  function FirstName(user: AuthUser): string { FirstValue(user.claims, "given_name") }
  function LastName(user: AuthUser): string { FirstValue(user.claims, "family_name") }
  function Email(user: AuthUser): string { FirstValue(user.claims, "emails") }
  function Name(user: AuthUser): string { FirstValue(user.claims, "name") }

  /** Claims after the first match are never read. */
  lemma {:induction false} FirstValueIgnoresLater(claims: seq<AuthClaim>, more: seq<AuthClaim>, t: string)
    requires exists i :: 0 <= i < |claims| && claims[i].claimType == t
    ensures FirstValue(claims + more, t) == FirstValue(claims, t)
  {
    if claims[0].claimType != t {
      var i :| 0 <= i < |claims| && claims[i].claimType == t;
      assert claims[1..][i - 1].claimType == t;
      assert (claims + more)[1..] == claims[1..] + more;
      FirstValueIgnoresLater(claims[1..], more, t);
    }
  }

  /** Claims without a match are skipped over entirely. */
  lemma {:induction false} FirstValueSkipsUnmatched(claims: seq<AuthClaim>, more: seq<AuthClaim>, t: string)
    requires forall i :: 0 <= i < |claims| ==> claims[i].claimType != t
    ensures FirstValue(claims + more, t) == FirstValue(more, t)
  {
    if |claims| == 0 {
      assert claims + more == more;
    } else {
      assert (claims + more)[1..] == claims[1..] + more;
      FirstValueSkipsUnmatched(claims[1..], more, t);
    }
  }

  /** The four name accessors each read their own claim type. */
  lemma AccessorsReadTheirClaims(user: AuthUser, v: string, rest: seq<AuthClaim>)
    ensures FirstName(user.(claims := [AuthClaim("given_name", v)] + rest)) == v
    ensures LastName(user.(claims := [AuthClaim("family_name", v)] + rest)) == v
    ensures Email(user.(claims := [AuthClaim("emails", v)] + rest)) == v
    ensures Name(user.(claims := [AuthClaim("name", v)] + rest)) == v
  {
  }

  /** A default principal has no claims, so every accessor gives "". */
  lemma DefaultUserIsAnonymous()
    ensures FirstName(DefaultAuthUser) == "" && LastName(DefaultAuthUser) == ""
    ensures Email(DefaultAuthUser) == "" && Name(DefaultAuthUser) == ""
  {
  }
}
