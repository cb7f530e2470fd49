/** The request authenticator (security/JwtAuthenticationFilter.java): it reads the
    `Authorization` header, pulls a bearer token out of it, and when the token names a
    stored user and validates for them, installs that user and their authorities in the
    security context. It never fails a request and always passes it down the chain. */
module JwtFilter {
  import opened Wrappers
  import opened Users
  import opened Jwt

  /** The authentication scheme prefix, matched case-sensitively and including the
      separating space (seven characters). */
  const BearerPrefix: string := "Bearer "
  const RolePrefix: string := "ROLE_"

  /** The part of an HTTP request the filter looks at. */
  datatype Request = Request(authorization: Option<string>)

  /** An authentication token (`UsernamePasswordAuthenticationToken`): the user as
      principal and the granted authorities; its credentials are always null. */
  datatype Authentication = Authentication(principal: User, authorities: seq<string>)

  /** The token the header carries: present exactly when the header is present and
      starts with "Bearer ", and then it is the rest of the header. */
  function ExtractBearer(header: Option<string>): (r: Option<string>)
    ensures r.Some? <==> header.Some? && BearerPrefix <= header.value
    ensures r.Some? ==> header.value == BearerPrefix + r.value
  {
    if header.Some? && BearerPrefix <= header.value then
      assert header.value == header.value[..7] + header.value[7..];
      Some(header.value[7..])
    else None
  }

  /** Putting a token behind the prefix and extracting it again gives the token back. */
  lemma ExtractBearerRoundTrip(token: string)
    ensures ExtractBearer(Some(BearerPrefix + token)) == Some(token)
  {
    assert (BearerPrefix + token)[..7] == BearerPrefix;
    assert (BearerPrefix + token)[7..] == token;
  }

  /** The granted authorities of a user with `roles`: one "ROLE_"-prefixed role name
      per role, in the order of the roles. */
  function Authorities(roles: seq<Role>): (r: seq<string>)
    ensures |r| == |roles|
    ensures forall i :: 0 <= i < |r| ==> RolePrefix <= r[i] && r[i][|RolePrefix|..] == roles[i].name
  {
    if roles == [] then []
    else
      var head := RolePrefix + roles[0].name;
      assert head[..|RolePrefix|] == RolePrefix && head[|RolePrefix|..] == roles[0].name;
      [head] + Authorities(roles[1..])
  }

  /** The role name behind an authority, if it carries the role prefix. */
  function RoleOfAuthority(authority: string): (r: Option<string>)
    ensures r.Some? <==> RolePrefix <= authority
    ensures r.Some? ==> authority == RolePrefix + r.value
  {
    if RolePrefix <= authority then
      assert authority == authority[..|RolePrefix|] + authority[|RolePrefix|..];
      Some(authority[|RolePrefix|..])
    else None
  }

  /** No information is lost in the mapping: every authority leads back to its role's
      name, so two users get the same authorities exactly when their roles have the
      same names in the same order. */
  lemma {:induction false} AuthoritiesRecoverRoleNames(roles: seq<Role>, others: seq<Role>)
    ensures forall i :: 0 <= i < |roles| ==> RoleOfAuthority(Authorities(roles)[i]) == Some(roles[i].name)
    ensures Authorities(roles) == Authorities(others) <==>
      |roles| == |others| && forall i :: 0 <= i < |roles| ==> roles[i].name == others[i].name
  {
    var a, b := Authorities(roles), Authorities(others);
    if |roles| == |others| && forall i :: 0 <= i < |roles| ==> roles[i].name == others[i].name {
      forall i | 0 <= i < |a| ensures a[i] == b[i] {
        assert a[i] == RolePrefix + roles[i].name by {
          assert a[i] == a[i][..|RolePrefix|] + a[i][|RolePrefix|..];
        }
        assert b[i] == RolePrefix + others[i].name by {
          assert b[i] == b[i][..|RolePrefix|] + b[i][|RolePrefix|..];
        }
      }
    }
  }

  /** The subject claim of a token, or `None` when extraction threw or gave a null
      subject: the filter treats both the same way. */
  function EmailClaim(jwt: JwtUtil, token: string): (r: Option<string>)
    ensures jwt.extractEmail(token).Threw? ==> r.None?
    ensures jwt.extractEmail(token).Returned? ==> r == jwt.extractEmail(token).value
  {
    match jwt.extractEmail(token)
    case Threw => None
    case Returned(email) => email
  }

  /** What the security context holds after the filter ran over a request carrying
      `header`, when it held `existing` before. The user's enabled flag plays no part. */
  function Resolve(jwt: JwtUtil, users: seq<User>, header: Option<string>, existing: Option<Authentication>)
    : (r: Option<Authentication>)
    // an authentication already present is never replaced
    ensures existing.Some? ==> r == existing
    // no bearer header: unauthenticated
    ensures ExtractBearer(header).None? ==> r == existing
    // a token whose subject cannot be extracted: unauthenticated
    ensures ExtractBearer(header).Some? && EmailClaim(jwt, ExtractBearer(header).value).None? ==> r == existing
    // a subject no stored user has: unauthenticated
    ensures ExtractBearer(header).Some? && EmailClaim(jwt, ExtractBearer(header).value).Some? ==>
      UserWithEmail(users, EmailClaim(jwt, ExtractBearer(header).value).value).None? ==> r == existing
    // a change installs a stored user, whose email is the token's subject and for whom
    // the token validates, with that user's authorities
    ensures r != existing ==>
      && existing.None? && r.Some?
      && ExtractBearer(header).Some?
      && r.value.principal in users
      && EmailClaim(jwt, ExtractBearer(header).value) == Some(r.value.principal.email)
      && jwt.validateToken(ExtractBearer(header).value, r.value.principal) == Returned(true)
      && r.value.authorities == Authorities(r.value.principal.roles)
    // and every such user is installed when nothing was present
    ensures existing.None? && ExtractBearer(header).Some? && EmailClaim(jwt, ExtractBearer(header).value).Some? ==>
      var user := UserWithEmail(users, EmailClaim(jwt, ExtractBearer(header).value).value);
      user.Some? && jwt.validateToken(ExtractBearer(header).value, user.value) == Returned(true) ==>
        r == Some(Authentication(user.value, Authorities(user.value.roles)))
  {
    match ExtractBearer(header)
    case None => existing
    case Some(token) =>
      match EmailClaim(jwt, token)
      case None => existing
      case Some(email) =>
        if existing.Some? then existing
        else
          match UserWithEmail(users, email)
          case None => existing
          case Some(user) =>
            if jwt.validateToken(token, user) == Returned(true) then Some(Authentication(user, Authorities(user.roles)))
            else existing
  }

  /** A disabled account is authenticated like an enabled one: with unique emails, a
      valid bearer token for a stored user installs that user whatever their flag. */
  lemma DisabledUserIsAuthenticated(jwt: JwtUtil, users: seq<User>, token: string, user: User)
    requires UniqueEmails(users) && user in users && !user.enabled
    requires jwt.extractEmail(token) == Returned(Some(user.email))
    requires jwt.validateToken(token, user) == Returned(true)
    ensures Resolve(jwt, users, Some(BearerPrefix + token), None) == Some(Authentication(user, Authorities(user.roles)))
  {
    ExtractBearerRoundTrip(token);
    UniqueEmailFindsTheUser(users, user);
  }

  /** `SecurityContextHolder.getContext()` for the current request. */
  class SecurityContext {
    var authentication: Option<Authentication>

    constructor ()
      ensures authentication == None
    {
      authentication := None;
    }
  }

  /** The rest of the servlet filter chain, recording the requests passed on to it. */
  class FilterChain {
    var passed: seq<Request>

    constructor ()
      ensures passed == []
    {
      passed := [];
    }

    method DoFilter(request: Request)
      modifies this
      ensures passed == old(passed) + [request]
    {
      passed := passed + [request];
    }
  }

  class JwtAuthenticationFilter {
    const jwtUtil: JwtUtil
    const userService: UserService

    constructor (jwtUtil: JwtUtil, userService: UserService)
      ensures this.jwtUtil == jwtUtil && this.userService == userService
    {
      this.jwtUtil := jwtUtil;
      this.userService := userService;
    }

    /** `doFilterInternal`: sets the context to what `Resolve` decides, swallowing every
        exception on the way, and passes the request on exactly once. */
    method DoFilterInternal(request: Request, context: SecurityContext, chain: FilterChain)
      modifies context, chain
      ensures context.authentication ==
        Resolve(jwtUtil, userService.repo.users, request.authorization, old(context.authentication))
      ensures chain.passed == old(chain.passed) + [request]
    {
      var requestTokenHeader := request.authorization;
      var email: Option<string> := None;
      var jwtToken: Option<string> := None;

      // 1. the bearer token, and the subject it names; a header without the prefix is
      //    only logged
      if requestTokenHeader.Some? && BearerPrefix <= requestTokenHeader.value {
        jwtToken := Some(requestTokenHeader.value[7..]);
        match jwtUtil.extractEmail(jwtToken.value) {
          case Returned(subject) => email := subject;
          case Threw =>
        }
      }

      // 2. authenticate only into an empty context
      if email.Some? && context.authentication.None? {
        var found := userService.FindByEmail(email.value);
        if found.Success? {
          var user := found.value;
          if jwtUtil.validateToken(jwtToken.value, user) == Returned(true) {
            var authorities := Authorities(user.roles);
            context.authentication := Some(Authentication(user, authorities));
          }
        }
      }

      // 3. on with the chain
      chain.DoFilter(request);
    }
  }
}
