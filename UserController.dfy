/**
 * The decisions embedded in the user controller's request handlers: the
 * registration e-mail blacklist, saving the optional profile attributes,
 * reconciling a user's badges, the "I have no password" branch of the
 * alternate login, the failure message after a login attempt, moving a user
 * to another group in an instance, and e-mail activation.
 *
 * Configuration values, the request's current instance and the form results
 * are parameters; rendering, redirects, flash messages and mail are not
 * modelled, only which outcome a handler picks.
 */
module UserController {
  import opened Text
  import opened UserModel
  import opened Authentication

  // ---------------------------------------------------------------- e-mail blacklist

  /** The blacklist text with commas turned into spaces and dots removed. */
  function NormalizeBlacklist(s: string): string {
    RemoveChar(ReplaceChar(s, ',', ' '), '.')
  }

  lemma NormalizeBlacklistConcat(s: string, t: string)
    ensures NormalizeBlacklist(s + t) == NormalizeBlacklist(s) + NormalizeBlacklist(t)
  {
    ReplaceCharConcat(s, t, ',', ' ');
    RemoveCharConcat(ReplaceChar(s, ',', ' '), ReplaceChar(t, ',', ' '), '.');
  }

  /** The entries of `adhocracy.registration.email.blacklist`: the setting is a
      byte string, so `split()` breaks it at ASCII whitespace only. */
  function BlacklistEntries(blacklist: string): (entries: seq<string>)
    ensures forall e :: e in entries ==> e != [] && Avoids(e, IsAsciiSpace) && '.' !in e && ',' !in e
  {
    var normal := NormalizeBlacklist(blacklist);
    assert ',' !in ReplaceChar(blacklist, ',', ' ');
    assert ',' !in normal && '.' !in normal;
    Split(normal, IsAsciiSpace)
  }

  /** `email_is_blacklisted` */
  function EmailIsBlacklisted(email: Option<string>, blacklist: string): (r: bool)
    ensures email.None? ==> !r
    ensures r ==> email.Some? && Avoids(email.value, IsAsciiSpace) && ',' !in email.value
  {
    match email
    case None => false
    case Some(address) =>
      var key := RemoveChar(address, '.');
      if key in BlacklistEntries(blacklist) then
        assert forall i :: 0 <= i < |address| && address[i] != '.' ==> address[i] in key;
        true
      else false
  }

  /** Dots never matter: an address is blacklisted exactly when the address
      with its dots removed is. */
  lemma BlacklistIgnoresDots(address: string, blacklist: string)
    ensures EmailIsBlacklisted(Some(address), blacklist) == EmailIsBlacklisted(Some(RemoveChar(address, '.')), blacklist)
  {
    RemoveAbsentChar(RemoveChar(address, '.'), '.');
  }

  /** What separates blacklist entries: a comma or ASCII whitespace. */
  predicate IsListSeparator(c: char) {
    c == ',' || IsAsciiSpace(c)
  }

  /** The pieces of the raw setting between separators. */
  function ListPieces(blacklist: string): seq<string> {
    Split(blacklist, IsListSeparator)
  }

  /** Each piece without its dots, dropping pieces that were only dots. */
  function DotFree(pieces: seq<string>): seq<string> {
    if pieces == [] then [] else Flush(RemoveChar(pieces[0], '.')) + DotFree(pieces[1..])
  }

  lemma {:induction false} DotFreeConcat(a: seq<string>, b: seq<string>)
    ensures DotFree(a + b) == DotFree(a) + DotFree(b)
  {
    if a == [] {
      assert a + b == b;
    } else {
      assert (a + b)[0] == a[0] && (a + b)[1..] == a[1..] + b;
      DotFreeConcat(a[1..], b);
    }
  }

  lemma {:induction false} DotFreeMembers(pieces: seq<string>, e: string)
    ensures e in DotFree(pieces) <==> e != [] && exists p :: p in pieces && RemoveChar(p, '.') == e
  {
    if pieces != [] {
      DotFreeMembers(pieces[1..], e);
      if exists p :: p in pieces && RemoveChar(p, '.') == e {
        var p :| p in pieces && RemoveChar(p, '.') == e;
        if p != pieces[0] {
          assert p in pieces[1..];
        }
      }
    }
  }

  /** Normalizing one character: separators become whitespace, dots vanish,
      everything else stays. */
  lemma NormalizeChar(c: char)
    ensures NormalizeBlacklist([c]) ==
      if c == ',' then [' '] else if c == '.' then [] else [c]
  {
    assert ReplaceChar([c], ',', ' ') == [if c == ',' then ' ' else c];
  }

  lemma NoListSeparatorNoSpace(p: string)
    requires Avoids(p, IsListSeparator)
    ensures Avoids(RemoveChar(p, '.'), IsAsciiSpace)
  {
    var key := RemoveChar(p, '.');
    forall i | 0 <= i < |key| ensures !IsAsciiSpace(key[i]) {
      assert key[i] in p;
    }
  }

  /** Normalizing and then splitting at whitespace gives the dot-free pieces of
      the raw text, continued from a partially collected piece `p`. */
  lemma {:induction false} NormalizedSplit(s: string, p: string)
    requires Avoids(p, IsListSeparator)
    ensures Avoids(RemoveChar(p, '.'), IsAsciiSpace)
    ensures SplitFrom(NormalizeBlacklist(s), RemoveChar(p, '.'), IsAsciiSpace) ==
            DotFree(SplitFrom(s, p, IsListSeparator))
    decreases |s|
  {
    NoListSeparatorNoSpace(p);
    var w := RemoveChar(p, '.');
    if s == [] {
      assert DotFree(Flush(p)) == Flush(w);
    } else {
      var c, t := s[0], s[1..];
      assert s == [c] + t;
      NormalizeBlacklistConcat([c], t);
      NormalizeChar(c);
      var nt := NormalizeBlacklist(t);
      if IsListSeparator(c) {
        NormalizedSplit(t, []);
        assert NormalizeBlacklist(s) == [if c == ',' then ' ' else c] + nt;
        assert SplitFrom(NormalizeBlacklist(s), w, IsAsciiSpace) == Flush(w) + SplitFrom(nt, [], IsAsciiSpace);
        DotFreeConcat(Flush(p), SplitFrom(t, [], IsListSeparator));
        assert DotFree(Flush(p)) == Flush(w);
      } else if c == '.' {
        AvoidsAppend(p, c, IsListSeparator);
        NormalizedSplit(t, p + [c]);
        RemoveCharConcat(p, [c], '.');
        assert RemoveChar(p + [c], '.') == w;
        assert NormalizeBlacklist(s) == nt;
      } else {
        AvoidsAppend(p, c, IsListSeparator);
        NormalizedSplit(t, p + [c]);
        RemoveCharConcat(p, [c], '.');
        assert RemoveChar(p + [c], '.') == w + [c];
        assert NormalizeBlacklist(s) == [c] + nt;
      }
    }
  }

  /** The blacklist entries are exactly the pieces of the setting between
      commas and whitespace, with their dots removed, in order; pieces made of
      dots only drop out. */
  lemma BlacklistEntriesArePieces(blacklist: string)
    ensures BlacklistEntries(blacklist) == DotFree(ListPieces(blacklist))
  {
    NormalizedSplit(blacklist, []);
  }

  /** `entry` is written in the setting between separators (or its ends), and
      equals `address` once dots are removed from both. */
  predicate ListedAs(blacklist: string, before: string, entry: string, after: string, address: string) {
    Delimited(blacklist, before, entry, after, IsListSeparator) && Avoids(entry, IsListSeparator) &&
    RemoveChar(entry, '.') != [] && RemoveChar(entry, '.') == RemoveChar(address, '.')
  }

  /** An address is blacklisted exactly when the setting lists it, up to dots,
      as a whole entry: first, last, only or in between. */
  lemma BlacklistedIffListed(address: string, blacklist: string)
    ensures EmailIsBlacklisted(Some(address), blacklist) <==>
      exists before, entry, after :: ListedAs(blacklist, before, entry, after, address)
  {
    var key := RemoveChar(address, '.');
    BlacklistEntriesArePieces(blacklist);
    DotFreeMembers(ListPieces(blacklist), key);
    if EmailIsBlacklisted(Some(address), blacklist) {
      var p :| p in ListPieces(blacklist) && RemoveChar(p, '.') == key;
      WordIsDelimitedRun(blacklist, [], p, IsListSeparator);
      assert [] + blacklist == blacklist;
      var before, after :| Delimited(blacklist, before, p, after, IsListSeparator);
      assert ListedAs(blacklist, before, p, after, address);
    }
    if exists before, entry, after :: ListedAs(blacklist, before, entry, after, address) {
      var before, entry, after :| ListedAs(blacklist, before, entry, after, address);
      DelimitedRunIsWord(blacklist, before, entry, after, IsListSeparator);
    }
  }

  // ---------------------------------------------------------------- optional attributes

  /** `dict.get(key, None)` */
  function Lookup(d: map<string, Option<string>>, key: string): Option<string> {
    if key in d then d[key] else None
  }

  /** `user.optional_attributes or {}` */
  function CurrentAttributes(stored: Option<map<string, Option<string>>>): map<string, Option<string>> {
    if stored.None? || stored.value == map[] then map[] else stored.value
  }

  /** Some configured key has a stored value that differs from the submitted one. */
  predicate Differs(current: map<string, Option<string>>, keys: seq<string>, submitted: map<string, Option<string>>)
    requires forall k :: k in keys ==> k in submitted
  {
    exists k :: k in keys && Lookup(current, k) != submitted[k]
  }

  /** `_update_optional_attributes`: copy every configured key from the form. */
  method UpdateOptionalAttributes(user: User, keys: seq<string>, submitted: map<string, Option<string>>)
    returns (updated: bool)
    requires forall k :: k in keys ==> k in submitted
    modifies user`optionalAttributes
    ensures updated == Differs(CurrentAttributes(old(user.optionalAttributes)), keys, submitted)
    ensures !updated ==> user.optionalAttributes == old(user.optionalAttributes)
    ensures forall k :: k in keys ==> Lookup(CurrentAttributes(user.optionalAttributes), k) == submitted[k]
    ensures forall k :: k !in keys ==>
      (k in CurrentAttributes(user.optionalAttributes) <==> k in CurrentAttributes(old(user.optionalAttributes))) &&
      Lookup(CurrentAttributes(user.optionalAttributes), k) == Lookup(CurrentAttributes(old(user.optionalAttributes)), k)
    ensures !Differs(CurrentAttributes(user.optionalAttributes), keys, submitted)
  {
    var original := CurrentAttributes(user.optionalAttributes);
    var current := original;
    updated := false;
    var i := 0;
    while i < |keys|
      invariant 0 <= i <= |keys|
      invariant updated <==> exists j :: 0 <= j < i && Lookup(original, keys[j]) != submitted[keys[j]]
      invariant forall k :: k in keys[..i] ==> Lookup(current, k) == submitted[k]
      invariant forall k :: k !in keys[..i] ==>
        (k in current <==> k in original) && Lookup(current, k) == Lookup(original, k)
      invariant updated ==> current != map[]
    {
      var key := keys[i];
      assert keys[..i + 1] == keys[..i] + [key];
      if Lookup(current, key) != submitted[key] {
        current := current[key := submitted[key]];
        updated := true;
      }
      i := i + 1;
    }
    assert keys[..i] == keys;
    if updated {
      user.optionalAttributes := Some(current);
    }
  }

  // ---------------------------------------------------------------- badges

  /** `_all_allowed_badges`: global badges for global admins, plus the current
      instance's badges inside an instance. */
  function AllowedBadges(isGlobalAdmin: bool, globalBadges: set<Badge>, current: Option<Instance>, instanceBadges: set<Badge>): (r: set<Badge>)
    ensures forall b :: b in r <==> (isGlobalAdmin && b in globalBadges) || (current.Some? && b in instanceBadges)
  {
    (if isGlobalAdmin then globalBadges else {}) + (if current.Some? then instanceBadges else {})
  }

  /** The badges a user holds after `update_badges` accepted the choice `want`. */
  function ReconciledBadges(has: set<Badge>, want: set<Badge>, allowed: set<Badge>): set<Badge> {
    (has - (allowed - want)) + want
  }

  /** Among the badges the editor may hand out, the user ends with exactly the
      chosen ones; every other badge stays as it was. */
  lemma ReconciledBadgesProperties(has: set<Badge>, want: set<Badge>, allowed: set<Badge>)
    requires want <= allowed
    ensures ReconciledBadges(has, want, allowed) * allowed == want
    ensures ReconciledBadges(has, want, allowed) - allowed == has - allowed
    ensures (want - has) !! (has * (allowed - want))
  {
  }

  datatype BadgeOutcome = InvalidChoice | Changed(added: set<Badge>, removed: set<Badge>)

  /** What an editor can change: someone who is not a global admin adds and
      removes only badges of the current instance (and nothing at all outside
      an instance); outside an instance no instance badge changes either. */
  lemma BadgesWithinEditorReach(has: set<Badge>, want: set<Badge>, isGlobalAdmin: bool,
                                globalBadges: set<Badge>, current: Option<Instance>, instanceBadges: set<Badge>)
    requires want <= AllowedBadges(isGlobalAdmin, globalBadges, current, instanceBadges)
    ensures var after := ReconciledBadges(has, want, AllowedBadges(isGlobalAdmin, globalBadges, current, instanceBadges));
      (!isGlobalAdmin ==> after - instanceBadges == has - instanceBadges) &&
      (current.None? ==> after - globalBadges == has - globalBadges) &&
      (!isGlobalAdmin && current.None? ==> want == {} && after == has)
  {
    var allowed := AllowedBadges(isGlobalAdmin, globalBadges, current, instanceBadges);
    ReconciledBadgesProperties(has, want, allowed);
  }

  /** `update_badges`: the editor's choice `want` is checked against the
      badges `_all_allowed_badges` offers, then the user's badges are made to
      agree with it. */
  method UpdateBadges(user: User, want: set<Badge>, isGlobalAdmin: bool, globalBadges: set<Badge>,
                      current: Option<Instance>, instanceBadges: set<Badge>) returns (outcome: BadgeOutcome)
    modifies user`badges
    ensures var allowed := AllowedBadges(isGlobalAdmin, globalBadges, current, instanceBadges);
      (!(want <= allowed) ==> outcome == InvalidChoice && user.badges == old(user.badges)) &&
      (want <= allowed ==>
        outcome == Changed(want - old(user.badges), old(user.badges) * (allowed - want)) &&
        user.badges == ReconciledBadges(old(user.badges), want, allowed))
  {
    var allowed := AllowedBadges(isGlobalAdmin, globalBadges, current, instanceBadges);
    if !(want <= allowed) {
      return InvalidChoice;
    }
    var notwant := allowed - want;
    var has := user.badges;

    var removed: set<Badge> := {};
    var todo := has * notwant;
    while todo != {}
      invariant todo <= has * notwant
      invariant removed == has * notwant - todo
      invariant user.badges == has - removed
      decreases todo
    {
      var b :| b in todo;
      user.badges := user.badges - {b};
      removed := removed + {b};
      todo := todo - {b};
    }

    var added: set<Badge> := {};
    todo := want - has;
    while todo != {}
      invariant todo <= want - has
      invariant added == (want - has) - todo
      invariant user.badges == (has - removed) + added
      decreases todo
    {
      var b :| b in todo;
      user.badges := user.badges + {b};
      added := added + {b};
      todo := todo - {b};
    }
    return Changed(added, removed);
  }

  // ---------------------------------------------------------------- no-password login

  /** The characters the suggested user name keeps: `[0-9a-zA-Z_-]`. */
  predicate IsNameChar(c: char) {
    ('0' <= c <= '9') || ('a' <= c <= 'z') || ('A' <= c <= 'Z') || c == '_' || c == '-'
  }

  /** `re.sub('[^0-9a-zA-Z_-]', '', s)` */
  function KeepNameChars(s: string): (r: string)
    ensures |r| <= |s|
    ensures forall i :: 0 <= i < |r| ==> IsNameChar(r[i])
    ensures forall i :: 0 <= i < |s| && IsNameChar(s[i]) ==> s[i] in r
    ensures |s| == 1 ==> r == if IsNameChar(s[0]) then s else []
  {
    if s == [] then []
    else if IsNameChar(s[0]) then [s[0]] + KeepNameChars(s[1..])
    else KeepNameChars(s[1..])
  }

  /** Filtering works piece by piece, so the kept characters stay in their
      original order. */
  lemma {:induction false} KeepNameCharsConcat(s: string, t: string)
    ensures KeepNameChars(s + t) == KeepNameChars(s) + KeepNameChars(t)
  {
    if s == [] {
      assert s + t == t;
    } else {
      assert (s + t)[0] == s[0] && (s + t)[1..] == s[1..] + t;
      KeepNameCharsConcat(s[1..], t);
    }
  }

  /** A handle made of name characters only is suggested unchanged. */
  lemma {:induction false} KeepNameCharsOfName(s: string)
    requires forall i :: 0 <= i < |s| ==> IsNameChar(s[i])
    ensures KeepNameChars(s) == s
  {
    if s != [] {
      KeepNameCharsOfName(s[1..]);
    }
  }

  /** Every character ahead of the first `@` is in the handle, at the same
      place; without an `@` the handle is the whole login. */
  lemma HandleIsPrefix(login: string)
    ensures forall i :: 0 <= i < |login| && '@' !in login[..i] && login[i] != '@' ==>
      i < |Before(login, '@')| && Before(login, '@')[i] == login[i]
    ensures '@' !in login ==> Before(login, '@') == login
  {
  }

  /** The user name suggested for a login: the text before its first `@`,
      restricted to name characters. */
  function SuggestedUserName(login: string): (r: string)
    ensures forall i :: 0 <= i < |r| ==> IsNameChar(r[i])
    ensures '@' !in login ==> r == KeepNameChars(login)
    ensures forall i :: 0 <= i < |login| && IsNameChar(login[i]) && '@' !in login[..i] ==> login[i] in r
  {
    HandleIsPrefix(login);
    KeepNameChars(Before(login, '@'))
  }

  /** For an address `local@domain` the suggestion depends on the local part
      only; it consists of name characters, and a local part made of them is
      suggested as it is. */
  lemma {:induction false} SuggestedUserNameOfAddress(local: string, domain: string)
    requires '@' !in local
    ensures Before(local + "@" + domain, '@') == local
    ensures SuggestedUserName(local + "@" + domain) == KeepNameChars(local)
    ensures (forall i :: 0 <= i < |local| ==> IsNameChar(local[i])) ==>
      SuggestedUserName(local + "@" + domain) == local
  {
    BeforeFirst(local, '@', domain);
    assert local + "@" + domain == local + ['@'] + domain;
    if forall i :: 0 <= i < |local| ==> IsNameChar(local[i]) {
      KeepNameCharsOfName(local);
    }
  }

  datatype NoPasswordOutcome =
    | ResetPassword(user: User)
    | InvalidAddress
    | Register(email: string, userName: string)
    | RegistrationRequestSent(email: string)
    | RegistrationDisabled

  /** `nopassword`: which answer the "I have no password" form gets. */
  function NoPassword(found: Option<User>, login: string, allowRegistration: bool, supportEmail: Option<string>): (r: NoPasswordOutcome)
    ensures found.Some? <==> r.ResetPassword?
    ensures found.Some? ==> r.user == found.value
    ensures found.None? && '@' !in login ==> r == InvalidAddress
    ensures found.None? && '@' in login && allowRegistration ==> r == Register(login, SuggestedUserName(login))
    ensures found.None? && '@' in login && !allowRegistration ==>
      (r.RegistrationRequestSent? <==> supportEmail.Some? && supportEmail.value != "") &&
      (r.RegistrationRequestSent? ==> r.email == login) &&
      (!r.RegistrationRequestSent? ==> r == RegistrationDisabled)
  {
    if found.Some? then ResetPassword(found.value)
    else if '@' !in login then InvalidAddress
    else if allowRegistration then Register(login, SuggestedUserName(login))
    else if supportEmail.Some? && supportEmail.value != "" then RegistrationRequestSent(login)
    else RegistrationDisabled
  }

  // ---------------------------------------------------------------- post-login

  const InvalidLogin := "Invalid login"
  const InvalidEmailOrUserName := "Invalid email / user name or password"
  const InvalidUserName := "Invalid user name or password"
  const InvalidEmail := "Invalid email or password"

  /** The error shown when no user was logged in. */
  function LoginErrorMessage(localLoginTypes: seq<string>): (r: string)
    ensures r == InvalidEmailOrUserName <==> UserNamePassword in localLoginTypes && EmailPassword in localLoginTypes
    ensures r == InvalidUserName <==> UserNamePassword in localLoginTypes && EmailPassword !in localLoginTypes
    ensures r == InvalidEmail <==> UserNamePassword !in localLoginTypes && EmailPassword in localLoginTypes
    ensures r == InvalidLogin <==> UserNamePassword !in localLoginTypes && EmailPassword !in localLoginTypes
  {
    if UserNamePassword in localLoginTypes then
      if EmailPassword in localLoginTypes then InvalidEmailOrUserName else InvalidUserName
    else if EmailPassword in localLoginTypes then InvalidEmail
    else InvalidLogin
  }

  /** The message names exactly the columns `get_user` can look a login up in:
      probing with a login that has an `@` and one that has none. */
  lemma LoginErrorMatchesLookup(localLoginTypes: seq<string>, login: string)
    ensures LoginErrorMessage(localLoginTypes) == InvalidLogin <==> LoginTypeFor(localLoginTypes, login).None?
    ensures LoginErrorMessage(localLoginTypes) == InvalidEmailOrUserName <==>
      LoginTypeFor(localLoginTypes, "@") == Some(EmailLogin) && LoginTypeFor(localLoginTypes, "") == Some(UserNameLogin)
    ensures LoginErrorMessage(localLoginTypes) == InvalidUserName <==> LoginTypeFor(localLoginTypes, "@") == Some(UserNameLogin)
    ensures LoginErrorMessage(localLoginTypes) == InvalidEmail <==> LoginTypeFor(localLoginTypes, "") == Some(EmailLogin)
  {
    assert '@' in "@";
    assert '@' !in "";
  }

  datatype PostLoginOutcome = RedirectTo(url: string) | RedirectToDashboard | LoginFormError(message: string)

  /** `post_login`: where a logged-in user goes, or the login form with an
      error. `unquote` is the URL decoding applied to the page the user came
      from. */
  function PostLogin(loggedIn: bool, cameFrom: string, unquote: string -> string, localLoginTypes: seq<string>): (r: PostLoginOutcome)
    ensures loggedIn <==> !r.LoginFormError?
    ensures loggedIn && cameFrom != "" ==> r == RedirectTo(unquote(cameFrom))
    ensures loggedIn && cameFrom == "" ==> r == RedirectToDashboard
    ensures !loggedIn ==> r == LoginFormError(LoginErrorMessage(localLoginTypes))
  {
    if loggedIn then
      if cameFrom != "" then RedirectTo(unquote(cameFrom)) else RedirectToDashboard
    else LoginFormError(LoginErrorMessage(localLoginTypes))
  }

  // ---------------------------------------------------------------- group change

  /** The memberships `groupmod` moves: unexpired ones whose instance is the
      given one. The move is only ever made inside an instance; the general
      form also covers the site-wide memberships. */
  predicate RegroupSelects(m: Membership, instance: Option<Instance>) {
    !m.expired && m.instance == instance
  }

  function Regrouped(ms: seq<Membership>, instance: Option<Instance>, toGroup: Group): (r: seq<Membership>)
    ensures |r| == |ms|
  {
    seq(|ms|, k requires 0 <= k < |ms| => if RegroupSelects(ms[k], instance) then ms[k].(group := toGroup) else ms[k])
  }

  /** After the move the user holds a permission in the context exactly when
      the new group carries it (and there was a membership to move) or a
      membership in context that was not moved grants it. */
  lemma RegroupedPermissions(ms: seq<Membership>, instance: Option<Instance>, toGroup: Group, name: string)
    ensures HasPermissionIn(Regrouped(ms, instance, toGroup), instance, name) <==>
      (name in toGroup.permissions && exists m :: m in ms && RegroupSelects(m, instance)) ||
      (exists m :: m in ms && InContext(m, instance) && !RegroupSelects(m, instance) && name in m.group.permissions)
  {
    var after := Regrouped(ms, instance, toGroup);
    PermissionFromMembership(after, instance, name);
    if HasPermissionIn(after, instance, name) {
      var m :| m in after && InContext(m, instance) && name in m.group.permissions;
      var k :| 0 <= k < |after| && after[k] == m;
      assert ms[k] in ms;
    }
    if name in toGroup.permissions && exists m :: m in ms && RegroupSelects(m, instance) {
      var m :| m in ms && RegroupSelects(m, instance);
      var k :| 0 <= k < |ms| && ms[k] == m;
      assert after[k] in after && InContext(after[k], instance);
    }
    if exists m :: m in ms && InContext(m, instance) && !RegroupSelects(m, instance) && name in m.group.permissions {
      var m :| m in ms && InContext(m, instance) && !RegroupSelects(m, instance) && name in m.group.permissions;
      var k :| 0 <= k < |ms| && ms[k] == m;
      assert after[k] in after && InContext(after[k], instance);
    }
  }

  /** Inside an instance, the memberships that stay in context without being
      moved are exactly the unexpired site-wide ones. */
  lemma RegroupedPermissionsInInstance(ms: seq<Membership>, instance: Instance, toGroup: Group, name: string)
    ensures HasPermissionIn(Regrouped(ms, Some(instance), toGroup), Some(instance), name) <==>
      (name in toGroup.permissions && exists m :: m in ms && !m.expired && m.instance == Some(instance)) ||
      (exists m :: m in ms && !m.expired && m.instance.None? && name in m.group.permissions)
  {
    RegroupedPermissions(ms, Some(instance), toGroup, name);
  }

  /** `groupmod`, which requires a current instance: move the user's
      memberships in that instance to another group, and revoke the user's
      delegations there if that cost the vote. */
  method GroupMod(user: User, table: DelegationTable, current: Instance, toGroup: Group, now: int)
    modifies user`memberships, table`rows
    ensures user.memberships == Regrouped(old(user.memberships), Some(current), toGroup)
    ensures table.rows ==
      if HasPermissionIn(old(user.memberships), Some(current), VoteCast) &&
         !HasPermissionIn(user.memberships, Some(current), VoteCast)
      then RevokedRows(old(table.rows), user.id, Some(current), now)
      else old(table.rows)
  {
    var instance := Some(current);
    var hadVote := user.HasPermission(VoteCast, instance);
    ghost var before := user.memberships;
    var k := 0;
    while k < |user.memberships|
      invariant |user.memberships| == |before|
      invariant 0 <= k <= |user.memberships|
      invariant user.memberships[..k] == Regrouped(before, instance, toGroup)[..k]
      invariant user.memberships[k..] == before[k..]
      invariant table.rows == old(table.rows)
    {
      var m := user.memberships[k];
      assert m == before[k] by { assert user.memberships[k..][0] == before[k..][0]; }
      if !m.expired && m.instance == instance {
        user.memberships := user.memberships[k := m.(group := toGroup)];
      }
      k := k + 1;
    }
    assert user.memberships == Regrouped(before, instance, toGroup) by {
      assert user.memberships == user.memberships[..k];
    }
    var hasVote := user.HasPermission(VoteCast, instance);
    if hadVote && !hasVote {
      user.RevokeDelegations(table, instance, now);
    }
  }

  // ---------------------------------------------------------------- activation

  datatype ActivationOutcome = InvalidCode | AlreadyActivated | Activated(imported: bool)

  /** `activate`: clear the activation code when the submitted one matches. */
  method Activate(user: User, code: Option<string>, importMarker: string) returns (outcome: ActivationOutcome)
    modifies user`activationCode
    ensures old(user.activationCode) != code ==>
      outcome == InvalidCode && user.activationCode == old(user.activationCode)
    ensures old(user.activationCode) == code && code.None? ==>
      outcome == AlreadyActivated && user.activationCode == old(user.activationCode)
    ensures old(user.activationCode) == code && code.Some? ==>
      outcome == Activated(StartsWith(code.value, importMarker)) && user.activationCode.None?
    ensures outcome.Activated? && user.email.Some? ==> user.IsEmailActivated()
  {
    if user.activationCode != code {
      return InvalidCode;
    }
    if user.activationCode.None? {
      return AlreadyActivated;
    }
    user.activationCode := None;
    return Activated(StartsWith(code.value, importMarker));
  }
}
