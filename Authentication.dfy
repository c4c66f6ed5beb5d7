/**
 * Local login resolution: which column a login is looked up in (depending on
 * the enabled local login types), the "exactly one match" user lookup, the
 * password authenticator built on it, and the form identifier of the
 * alternate login style that diverts "I have no password" submissions.
 *
 * The user table is a sequence of users; the configuration value
 * `adhocracy.login_type.local` is the list `localLoginTypes`.
 */
module Authentication {
  import opened Text
  import opened UserModel

  datatype LoginType = EmailLogin | UserNameLogin

  const UserNamePassword := "username+password"
  const EmailPassword := "email+password"

  /** The column `get_user` looks the login up in, or `None` when no local
      password login is enabled. */
  function LoginTypeFor(localLoginTypes: seq<string>, login: string): (t: Option<LoginType>)
    ensures t.None? <==> UserNamePassword !in localLoginTypes && EmailPassword !in localLoginTypes
    ensures t == Some(EmailLogin) <==>
      EmailPassword in localLoginTypes && (UserNamePassword in localLoginTypes ==> '@' in login)
    ensures t == Some(UserNameLogin) <==>
      UserNamePassword in localLoginTypes && (EmailPassword in localLoginTypes ==> '@' !in login)
  {
    var allowName := UserNamePassword in localLoginTypes;
    var allowEmail := EmailPassword in localLoginTypes;
    if allowName then
      if allowEmail then
        if '@' in login then Some(EmailLogin) else Some(UserNameLogin)
      else Some(UserNameLogin)
    else if allowEmail then Some(EmailLogin)
    else None
  }

  /** The query filter `login_attr == login`. A missing login (`None`) turns
      it into `IS NULL`, which only the nullable e-mail column can satisfy. */
  predicate Matches(u: User, t: LoginType, login: Option<string>)
    reads u
  {
    match t
    case EmailLogin => u.email == login
    case UserNameLogin => login == Some(u.userName)
  }

  /** The rows the lookup query returns, in table order. */
  function MatchingUsers(users: seq<User>, t: LoginType, login: Option<string>): (r: seq<User>)
    reads users
    ensures |r| <= |users|
    ensures forall i :: 0 <= i < |r| ==> r[i] in users && Matches(r[i], t, login)
    ensures forall i :: 0 <= i < |users| && Matches(users[i], t, login) ==> users[i] in r
  {
    if users == [] then []
    else
      var init, u := users[..|users| - 1], users[|users| - 1];
      assert users == init + [u];
      MatchingUsers(init, t, login) + (if Matches(u, t, login) then [u] else [])
  }

  /** `get_user`: the user whose login column equals the login, provided the
      query returns exactly one row. */
  function GetUser(users: seq<User>, localLoginTypes: seq<string>, login: string): (r: Option<User>)
    reads users
    ensures r.Some? <==>
      LoginTypeFor(localLoginTypes, login).Some? &&
      |MatchingUsers(users, LoginTypeFor(localLoginTypes, login).value, Some(login))| == 1
    ensures r.Some? ==>
      r.value in users && Matches(r.value, LoginTypeFor(localLoginTypes, login).value, Some(login)) &&
      forall i :: 0 <= i < |users| && Matches(users[i], LoginTypeFor(localLoginTypes, login).value, Some(login)) ==>
        users[i] == r.value
  {
    match LoginTypeFor(localLoginTypes, login)
    case None => None
    case Some(t) =>
      var found := MatchingUsers(users, t, Some(login));
      if |found| == 1 then
        assert found[0] in found;
        Some(found[0])
      else None
  }

  /** `get_user(None)`, reached when the form has no `login` field. With both
      login types enabled the test `'@' in login` raises (`None` here);
      otherwise the lookup runs with an `IS NULL` filter, so with e-mail login
      alone it finds the single user without an e-mail address, and with user
      name login alone it finds nobody. */
  function GetUserOfAbsentLogin(users: seq<User>, localLoginTypes: seq<string>): (r: Option<Option<User>>)
    reads users
    ensures r.None? <==> UserNamePassword in localLoginTypes && EmailPassword in localLoginTypes
    ensures UserNamePassword !in localLoginTypes ==> r.Some?
    ensures EmailPassword !in localLoginTypes ==> r == Some(None)
    ensures r.Some? && r.value.Some? <==>
      EmailPassword in localLoginTypes && UserNamePassword !in localLoginTypes &&
      |MatchingUsers(users, EmailLogin, None)| == 1
    ensures r.Some? && r.value.Some? ==>
      r.value.value in users && r.value.value.email.None? &&
      forall i :: 0 <= i < |users| && users[i].email.None? ==> users[i] == r.value.value
  {
    var allowName := UserNamePassword in localLoginTypes;
    var allowEmail := EmailPassword in localLoginTypes;
    if allowName && allowEmail then None
    else if allowEmail then
      var found := MatchingUsers(users, EmailLogin, None);
      if |found| == 1 then
        assert found[0] in found;
        Some(Some(found[0]))
      else Some(None)
    else Some(None)
  }

  /** `authenticate`: the user name of the single matching user whose stored
      password accepts the submitted one. */
  function Authenticate(identity: map<string, string>, users: seq<User>, localLoginTypes: seq<string>,
                        sha1: string -> Digest): (r: Option<string>)
    reads users
    ensures !("login" in identity && "password" in identity) ==> r.None?
    ensures r.Some? ==>
      var u := GetUser(users, localLoginTypes, identity["login"]);
      u.Some? && u.value.ValidatePassword(identity["password"], sha1) && r.value == u.value.userName
  {
    if !("login" in identity && "password" in identity) then None
    else
      match GetUser(users, localLoginTypes, identity["login"])
      case None => None
      case Some(u) =>
        if u.ValidatePassword(identity["password"], sha1) then Some(u.userName) else None
  }

  /** A user who set password `p` and is the only one found for the login is
      authenticated with `p`, and with any candidate whose salted digest does
      not collide with that of `p` is refused. */
  lemma AuthenticateAfterSetPassword(u: User, users: seq<User>, localLoginTypes: seq<string>, login: string,
                                     p: string, candidate: string, salt: Digest, sha1: string -> Digest)
    requires GetUser(users, localLoginTypes, login) == Some(u)
    requires u.password == StoredPassword(p, salt, sha1)
    ensures Authenticate(map["login" := login, "password" := p], users, localLoginTypes, sha1) == Some(u.userName)
    ensures sha1(candidate + salt) != sha1(p + salt) ==>
      Authenticate(map["login" := login, "password" := candidate], users, localLoginTypes, sha1).None?
  {
    StoreThenValidate(p, salt, sha1);
    ValidateOnlyOnCollision(p, candidate, salt, sha1);
  }

  /** Two users sharing a login column value make that login unusable. */
  lemma AmbiguousLoginFindsNoone(users: seq<User>, localLoginTypes: seq<string>, login: string, a: User, b: User)
    requires LoginTypeFor(localLoginTypes, login).Some?
    requires a in users && b in users && a != b
    requires Matches(a, LoginTypeFor(localLoginTypes, login).value, Some(login))
    requires Matches(b, LoginTypeFor(localLoginTypes, login).value, Some(login))
    ensures GetUser(users, localLoginTypes, login).None?
  {
  }

  /** The WSGI environ keys the alternate-login identifier reads and writes. */
  class Environ {
    var pathInfo: string
    /** `_adhocracy_nopassword_user`: absent, or the user looked up (possibly none). */
    var nopasswordUser: Option<Option<User>>

    constructor (pathInfo: string)
      ensures this.pathInfo == pathInfo && this.nopasswordUser.None?
    {
      this.pathInfo := pathInfo;
      this.nopasswordUser := None;
    }
  }

  /** Whether the alternate identifier took over the request, failed while
      looking the login up, or handed the request on to the ordinary login form
      identifier. */
  datatype IdentifyResult = Diverted | Raised | PassedOn

  const NoPasswordPath := "/user/nopassword"

  /** `form.get('login')` */
  function LoginField(form: map<string, string>): Option<string> {
    if "login" in form then Some(form["login"]) else None
  }

  /** `get_user` on the submitted login field: `None` when it raises. */
  function LookUpLogin(users: seq<User>, localLoginTypes: seq<string>, login: Option<string>): Option<Option<User>>
    reads users
  {
    match login
    case Some(text) => Some(GetUser(users, localLoginTypes, text))
    case None => GetUserOfAbsentLogin(users, localLoginTypes)
  }

  predicate WantsNoPassword(form: map<string, string>) {
    "have_password" in form && form["have_password"] == "false"
  }

  /** `AlternateLoginFriendlyFormPlugin.identify` */
  method Identify(env: Environ, loginHandlerPath: string, form: map<string, string>,
                  users: seq<User>, localLoginTypes: seq<string>) returns (result: IdentifyResult)
    modifies env
    ensures old(env.pathInfo) == loginHandlerPath && WantsNoPassword(form) ==>
      env.pathInfo == NoPasswordPath &&
      var lookup := LookUpLogin(users, localLoginTypes, LoginField(form));
      (lookup.Some? ==> result == Diverted && env.nopasswordUser == Some(lookup.value)) &&
      (lookup.None? ==> result == Raised && env.nopasswordUser == old(env.nopasswordUser))
    ensures !(old(env.pathInfo) == loginHandlerPath && WantsNoPassword(form)) ==>
      result == PassedOn && env.pathInfo == old(env.pathInfo) && env.nopasswordUser == old(env.nopasswordUser)
  {
    if env.pathInfo == loginHandlerPath {
      if "have_password" in form && form["have_password"] == "false" {
        env.pathInfo := NoPasswordPath;
        var login := LoginField(form);
        var lookup := LookUpLogin(users, localLoginTypes, login);
        if lookup.None? {
          return Raised;
        }
        env.nopasswordUser := Some(lookup.value);
        return Diverted;
      }
    }
    return PassedOn;
  }

  /** No matching row, no result. */
  lemma {:induction false} NoMatch(users: seq<User>, t: LoginType, login: Option<string>)
    requires forall i :: 0 <= i < |users| ==> !Matches(users[i], t, login)
    ensures MatchingUsers(users, t, login) == []
  {
    if users != [] {
      NoMatch(users[..|users| - 1], t, login);
    }
  }

  /** A row that alone matches is the query's only result. */
  lemma {:induction false} SingleMatch(users: seq<User>, t: LoginType, login: Option<string>, k: int)
    requires 0 <= k < |users| && Matches(users[k], t, login)
    requires forall i :: 0 <= i < |users| && i != k ==> !Matches(users[i], t, login)
    ensures MatchingUsers(users, t, login) == [users[k]]
  {
    var n := |users|;
    var init := users[..n - 1];
    assert users == init + [users[n - 1]];
    if k < n - 1 {
      SingleMatch(init, t, login, k);
    } else {
      NoMatch(init, t, login);
    }
  }

  /** With e-mail login alone, a "no password" form without a login field
      diverts to the single user who has no e-mail address. */
  lemma AbsentLoginFindsUserWithoutEmail(users: seq<User>, localLoginTypes: seq<string>, k: int)
    requires EmailPassword in localLoginTypes && UserNamePassword !in localLoginTypes
    requires 0 <= k < |users| && users[k].email.None?
    requires forall i :: 0 <= i < |users| && i != k ==> users[i].email.Some?
    ensures LookUpLogin(users, localLoginTypes, None) == Some(Some(users[k]))
  {
    SingleMatch(users, EmailLogin, None, k);
  }
}
