/**
 * The account object of the platform: display name, e-mail activation, salted
 * password storage, group memberships and the permissions they grant, soft
 * deletion, the user's current delegations, their bulk revocation, and the
 * vote weight of a user in a scope.
 *
 * The database becomes values: memberships are rows held in a sequence on the
 * user, delegations are rows of a shared table. The request's current instance,
 * the clock, the random token source and SHA-1 are parameters.
 */
module UserModel {
  import opened Text

  type UserId = int

  datatype Instance = Instance(id: int, key: string)

  /** A group and the names of the permissions it carries. */
  datatype Group = Group(code: string, permissions: seq<string>)

  /** A membership row; `expired` is what `Membership.is_expired()` answers now,
      and `instance` is `None` for a site-wide membership. */
  datatype Membership = Membership(instance: Option<Instance>, group: Group, expired: bool)

  /** A delegation row: the instance of its scope and its revocation time. */
  datatype Delegation = Delegation(principal: UserId, agent: UserId, scopeInstance: Instance, revokeTime: Option<int>)

  datatype Badge = Badge(id: int, title: string)

  /** A lower-case SHA-1 hex digest. */
  type Digest = s: string | |s| == 40 witness "0000000000000000000000000000000000000000"

  const VoteCast := "vote.cast"

  // ---------------------------------------------------------------- groups

  /** A membership counts in the current context when it has not expired and is
      site-wide or belongs to the current instance. */
  predicate InContext(m: Membership, current: Option<Instance>) {
    !m.expired && (m.instance.None? || m.instance == current)
  }

  /** The groups of the memberships that count in the current context, in order. */
  function ContextGroupsOf(ms: seq<Membership>, current: Option<Instance>): (gs: seq<Group>)
    ensures |gs| <= |ms|
  {
    if ms == [] then []
    else
      var last := ms[|ms| - 1];
      ContextGroupsOf(ms[..|ms| - 1], current) + (if InContext(last, current) then [last.group] else [])
  }

  /** A group is in the context groups exactly when some membership in context carries it. */
  lemma {:induction false} ContextGroupsMembers(ms: seq<Membership>, current: Option<Instance>, g: Group)
    ensures g in ContextGroupsOf(ms, current) <==> exists m :: m in ms && InContext(m, current) && m.group == g
  {
    if ms != [] {
      var init, last := ms[..|ms| - 1], ms[|ms| - 1];
      assert ms == init + [last];
      ContextGroupsMembers(init, current, g);
    }
  }

  predicate GrantsPermission(gs: seq<Group>, name: string) {
    exists g :: g in gs && name in g.permissions
  }

  /** What `_has_permission` answers for a list of memberships in the current context. */
  predicate HasPermissionIn(ms: seq<Membership>, current: Option<Instance>, name: string) {
    GrantsPermission(ContextGroupsOf(ms, current), name)
  }

  /** The permission holds exactly when some membership in context has a group
      that carries it. */
  lemma PermissionFromMembership(ms: seq<Membership>, current: Option<Instance>, name: string)
    ensures HasPermissionIn(ms, current, name) <==>
            exists m :: m in ms && InContext(m, current) && name in m.group.permissions
  {
    if HasPermissionIn(ms, current, name) {
      var g :| g in ContextGroupsOf(ms, current) && name in g.permissions;
      ContextGroupsMembers(ms, current, g);
    }
    if exists m :: m in ms && InContext(m, current) && name in m.group.permissions {
      var m :| m in ms && InContext(m, current) && name in m.group.permissions;
      ContextGroupsMembers(ms, current, m.group);
    }
  }

  /** `instance_membership` looks for an unexpired membership by instance id. */
  predicate MatchesInstance(m: Membership, instanceId: int) {
    !m.expired && m.instance.Some? && m.instance.value.id == instanceId
  }

  // ---------------------------------------------------------------- passwords

  /** The stored form of a password: the salt's hex digest followed by the hex
      digest of the password with that salt appended. */
  function StoredPassword(password: string, salt: Digest, sha1: string -> Digest): string {
    salt + sha1(password + salt)
  }

  /** `validate_password` against a stored value: hash the candidate with the
      stored value's first 40 characters and compare with the rest. */
  predicate PasswordMatches(stored: string, candidate: string, sha1: string -> Digest) {
    Drop(stored, 40) == sha1(candidate + Take(stored, 40))
  }

  /** Storing a password yields an 80-character value that starts with the salt,
      and the same password validates against it, whatever the salt. */
  lemma StoreThenValidate(password: string, salt: Digest, sha1: string -> Digest)
    ensures |StoredPassword(password, salt, sha1)| == 80
    ensures Take(StoredPassword(password, salt, sha1), 40) == salt
    ensures PasswordMatches(StoredPassword(password, salt, sha1), password, sha1)
  {
    var stored := StoredPassword(password, salt, sha1);
    assert stored[..40] == salt;
  }

  /** Another candidate validates exactly when its salted digest collides with
      that of the stored password. */
  lemma ValidateOnlyOnCollision(password: string, candidate: string, salt: Digest, sha1: string -> Digest)
    ensures PasswordMatches(StoredPassword(password, salt, sha1), candidate, sha1) <==>
            sha1(candidate + salt) == sha1(password + salt)
  {
    var stored := StoredPassword(password, salt, sha1);
    assert stored[..40] == salt;
    assert stored[40..] == sha1(password + salt);
  }

  lemma StoredPasswordValidation(stored: string, candidate: string, sha1: string -> Digest)
    ensures forall p, salt: Digest :: stored == StoredPassword(p, salt, sha1) ==>
      (PasswordMatches(stored, candidate, sha1) <==> sha1(candidate + salt) == sha1(p + salt))
  {
    forall p, salt: Digest | stored == StoredPassword(p, salt, sha1)
      ensures PasswordMatches(stored, candidate, sha1) <==> sha1(candidate + salt) == sha1(p + salt)
    {
      ValidateOnlyOnCollision(p, candidate, salt, sha1);
    }
  }

  // ---------------------------------------------------------------- delegations

  /** A delegation is active while it has no revocation time or one in the future. */
  predicate IsActive(d: Delegation, now: int) {
    d.revokeTime.None? || d.revokeTime.value > now
  }

  predicate IsRevoked(d: Delegation, now: int) {
    !IsActive(d, now)
  }

  /** `Delegation.revoke()`: sets the revocation time to now. */
  function Revoke(d: Delegation, now: int): (r: Delegation)
    ensures IsRevoked(r, now)
    ensures r.principal == d.principal && r.agent == d.agent && r.scopeInstance == d.scopeInstance
  {
    d.(revokeTime := Some(now))
  }

  /** The instance filter of `current_agencies`/`current_delegated`: applied only
      when there is a current instance and the caller asks for it. */
  predicate PassesInstanceFilter(d: Delegation, current: Option<Instance>, instanceFilter: bool) {
    !(current.Some? && instanceFilter) || d.scopeInstance == current.value
  }

  /** `current_agencies`: the unrevoked delegations the user receives. */
  function CurrentAgencies(rows: seq<Delegation>, user: UserId, now: int, current: Option<Instance>, instanceFilter: bool): (r: seq<Delegation>)
    ensures forall d :: d in r <==>
      d in rows && d.agent == user && !IsRevoked(d, now) && PassesInstanceFilter(d, current, instanceFilter)
  {
    if rows == [] then []
    else
      var init, d := rows[..|rows| - 1], rows[|rows| - 1];
      assert rows == init + [d];
      CurrentAgencies(init, user, now, current, instanceFilter) +
        (if d.agent == user && !IsRevoked(d, now) && PassesInstanceFilter(d, current, instanceFilter) then [d] else [])
  }

  /** `current_delegated`: the unrevoked delegations the user gives. */
  function CurrentDelegated(rows: seq<Delegation>, user: UserId, now: int, current: Option<Instance>, instanceFilter: bool): (r: seq<Delegation>)
    ensures forall d :: d in r <==>
      d in rows && d.principal == user && !IsRevoked(d, now) && PassesInstanceFilter(d, current, instanceFilter)
  {
    if rows == [] then []
    else
      var init, d := rows[..|rows| - 1], rows[|rows| - 1];
      assert rows == init + [d];
      CurrentDelegated(init, user, now, current, instanceFilter) +
        (if d.principal == user && !IsRevoked(d, now) && PassesInstanceFilter(d, current, instanceFilter) then [d] else [])
  }

  /** The delegations `revoke_delegations(instance)` revokes: active ones in which
      the user is agent or principal, in the given instance if there is one. */
  predicate RevocationSelects(d: Delegation, user: UserId, instance: Option<Instance>, now: int) {
    (d.agent == user || d.principal == user) && IsActive(d, now) &&
    (instance.None? || d.scopeInstance == instance.value)
  }

  function RevokedRows(rows: seq<Delegation>, user: UserId, instance: Option<Instance>, now: int): (r: seq<Delegation>)
    ensures |r| == |rows|
  {
    seq(|rows|, k requires 0 <= k < |rows| =>
      if RevocationSelects(rows[k], user, instance, now) then Revoke(rows[k], now) else rows[k])
  }

  /** After revocation no delegation of the user is current any longer: in the
      given instance, or anywhere when no instance was given. */
  lemma NothingCurrentAfterRevocation(rows: seq<Delegation>, user: UserId, instance: Option<Instance>, now: int, current: Option<Instance>, instanceFilter: bool)
    requires instance.Some? ==> current == instance && instanceFilter
    ensures forall d :: d !in CurrentAgencies(RevokedRows(rows, user, instance, now), user, now, current, instanceFilter)
    ensures forall d :: d !in CurrentDelegated(RevokedRows(rows, user, instance, now), user, now, current, instanceFilter)
  {
    var after := RevokedRows(rows, user, instance, now);
    forall d | d in after
      ensures !(d.agent == user && !IsRevoked(d, now) && PassesInstanceFilter(d, current, instanceFilter))
      ensures !(d.principal == user && !IsRevoked(d, now) && PassesInstanceFilter(d, current, instanceFilter))
    {
      var k :| 0 <= k < |after| && after[k] == d;
    }
  }

  /** Revocation leaves alone every delegation of other users, of other
      instances, and every delegation that was already revoked. */
  lemma RevocationSparesOthers(rows: seq<Delegation>, user: UserId, instance: Option<Instance>, now: int, k: int)
    requires 0 <= k < |rows|
    requires (rows[k].agent != user && rows[k].principal != user)
          || IsRevoked(rows[k], now)
          || (instance.Some? && rows[k].scopeInstance != instance.value)
    ensures RevokedRows(rows, user, instance, now)[k] == rows[k]
  {
  }

  // ---------------------------------------------------------------- the user

  class User {
    const id: UserId
    var userName: string
    var displayName: Option<string>
    var email: Option<string>
    var activationCode: Option<string>
    var password: string
    var deleteTime: Option<int>
    var memberships: seq<Membership>
    var badges: set<Badge>
    var optionalAttributes: Option<map<string, Option<string>>>

    /** `User(user_name, email, password, locale, display_name)`: the e-mail and
        password go through their setters, so a given e-mail draws an activation
        code and the password is stored salted and hashed. */
    constructor (id: UserId, userName: string, email: Option<string>, password: string, displayName: Option<string>,
                 token: string, salt: Digest, sha1: string -> Digest)
      ensures this.id == id && this.userName == userName && this.displayName == displayName
      ensures this.email == email
      ensures this.activationCode == if email.Some? then Some(token) else None
      ensures this.password == StoredPassword(password, salt, sha1)
      ensures this.deleteTime.None? && this.memberships == [] && this.badges == {}
      ensures this.optionalAttributes.None?
    {
      this.id := id;
      this.userName := userName;
      this.displayName := displayName;
      this.email := email;
      this.activationCode := if email.Some? then Some(token) else None;
      this.password := StoredPassword(password, salt, sha1);
      this.deleteTime := None;
      this.memberships := [];
      this.badges := {};
      this.optionalAttributes := None;
    }

    /** `name`: the stripped display name when it has any non-blank text,
        otherwise the user name. */
    function Name(): (r: string)
      reads this
      ensures displayName.None? || AllSpace(displayName.value) ==> r == userName
      ensures displayName.Some? && !AllSpace(displayName.value) ==>
        r == Strip(displayName.value) && r != [] && !IsSpace(r[0]) && !IsSpace(r[|r| - 1])
    {
      match displayName
      case None => userName
      case Some(shown) =>
        StripEmptyIff(shown);
        if |Strip(shown)| > 0 then Strip(shown) else userName
    }

    /** The `email` setter: a different address draws a fresh activation code. */
    method SetEmail(newEmail: Option<string>, token: string)
      modifies this`email, this`activationCode
      ensures email == newEmail
      ensures activationCode == if old(email) != newEmail then Some(token) else old(activationCode)
      ensures old(email) != newEmail ==> !IsEmailActivated()
    {
      if email != newEmail {
        activationCode := Some(token);
      }
      email := newEmail;
    }

    /** `is_email_activated`: an address is present and no activation code is
        pending for it. */
    predicate IsEmailActivated(): (r: bool)
      reads this
      ensures r ==> email.Some?
      ensures activationCode.Some? ==> !r
      ensures email.Some? && activationCode.None? ==> r
    {
      email.Some? && activationCode.None?
    }

    /** The `password` setter: the salt is the hex digest of fresh random bytes. */
    method SetPassword(newPassword: string, salt: Digest, sha1: string -> Digest)
      modifies this`password
      ensures password == StoredPassword(newPassword, salt, sha1)
      ensures ValidatePassword(newPassword, sha1)
    {
      password := salt + sha1(newPassword + salt);
      StoreThenValidate(newPassword, salt, sha1);
    }

    /** `validate_password`: against a password stored with some salt, a
        candidate is accepted exactly when its digest with that salt equals the
        stored password's. */
    predicate ValidatePassword(candidate: string, sha1: string -> Digest): (r: bool)
      reads this
      ensures forall p, salt: Digest :: password == StoredPassword(p, salt, sha1) ==>
        (r <==> sha1(candidate + salt) == sha1(p + salt))
    {
      StoredPasswordValidation(password, candidate, sha1);
      PasswordMatches(password, candidate, sha1)
    }

    /** `groups`: the groups of the memberships in context, in membership order. */
    method ContextGroups(current: Option<Instance>) returns (groups: seq<Group>)
      ensures groups == ContextGroupsOf(memberships, current)
      ensures forall g :: g in groups <==> exists m :: m in memberships && InContext(m, current) && m.group == g
    {
      groups := [];
      var i := 0;
      while i < |memberships|
        invariant 0 <= i <= |memberships|
        invariant groups == ContextGroupsOf(memberships[..i], current)
      {
        assert memberships[..i + 1][..i] == memberships[..i];
        if InContext(memberships[i], current) {
          groups := groups + [memberships[i].group];
        }
        i := i + 1;
      }
      assert memberships[..i] == memberships;
      forall g ensures g in groups <==> exists m :: m in memberships && InContext(m, current) && m.group == g {
        ContextGroupsMembers(memberships, current, g);
      }
    }

    /** `_has_permission`: true as soon as a context group carries the permission. */
    method HasPermission(name: string, current: Option<Instance>) returns (has: bool)
      ensures has == HasPermissionIn(memberships, current, name)
    {
      var groups := ContextGroups(current);
      var i := 0;
      while i < |groups|
        invariant 0 <= i <= |groups|
        invariant forall k :: 0 <= k < i ==> name !in groups[k].permissions
      {
        var perms := groups[i].permissions;
        var j := 0;
        while j < |perms|
          invariant 0 <= j <= |perms|
          invariant forall l :: 0 <= l < j ==> perms[l] != name
        {
          if perms[j] == name {
            return true;
          }
          j := j + 1;
        }
        i := i + 1;
      }
      return false;
    }

    /** `instance_membership`: the first unexpired membership of the instance. */
    method InstanceMembership(instance: Option<Instance>) returns (r: Option<Membership>)
      ensures instance.None? ==> r.None?
      ensures r.Some? ==>
        exists k :: 0 <= k < |memberships| && memberships[k] == r.value &&
          MatchesInstance(r.value, instance.value.id) &&
          forall l :: 0 <= l < k ==> !MatchesInstance(memberships[l], instance.value.id)
      ensures instance.Some? && r.None? ==>
        forall m :: m in memberships ==> !MatchesInstance(m, instance.value.id)
    {
      if instance.None? {
        return None;
      }
      var i := 0;
      while i < |memberships|
        invariant 0 <= i <= |memberships|
        invariant forall l :: 0 <= l < i ==> !MatchesInstance(memberships[l], instance.value.id)
      {
        if !memberships[i].expired && memberships[i].instance.Some? &&
           memberships[i].instance.value.id == instance.value.id {
          return Some(memberships[i]);
        }
        i := i + 1;
      }
      return None;
    }

    /** `is_member`: whether `instance_membership` finds anything. */
    method IsMember(instance: Option<Instance>) returns (member: bool)
      ensures member <==> instance.Some? && exists m :: m in memberships && MatchesInstance(m, instance.value.id)
    {
      var found := InstanceMembership(instance);
      member := found.Some?;
    }

    /** `instances`: the distinct instances of the unexpired memberships. */
    method Instances() returns (r: set<Instance>)
      ensures forall inst :: inst in r <==> exists m :: m in memberships && !m.expired && m.instance == Some(inst)
    {
      var collected: seq<Instance> := [];
      var i := 0;
      while i < |memberships|
        invariant 0 <= i <= |memberships|
        invariant forall inst :: inst in collected <==>
          exists k :: 0 <= k < i && !memberships[k].expired && memberships[k].instance == Some(inst)
      {
        if !memberships[i].expired && memberships[i].instance.Some? {
          collected := collected + [memberships[i].instance.value];
        }
        i := i + 1;
      }
      r := set inst | inst in collected;
    }

    /** `is_deleted(at_time)`: deleted once a deletion time is set that is
        not after `at`. */
    predicate IsDeleted(at: int): (r: bool)
      reads this
      ensures deleteTime.None? ==> !r
      ensures deleteTime.Some? ==> (r <==> deleteTime.value <= at)
    {
      deleteTime.Some? && deleteTime.value <= at
    }

    /** `revoke_delegations(instance)` */
    method RevokeDelegations(table: DelegationTable, instance: Option<Instance>, now: int)
      modifies table`rows
      ensures table.rows == RevokedRows(old(table.rows), id, instance, now)
    {
      ghost var before := table.rows;
      var k := 0;
      while k < |table.rows|
        invariant |table.rows| == |before|
        invariant 0 <= k <= |table.rows|
        invariant forall j :: 0 <= j < k ==> table.rows[j] == RevokedRows(before, id, instance, now)[j]
        invariant forall j :: k <= j < |before| ==> table.rows[j] == before[j]
      {
        var d := table.rows[k];
        if (d.agent == id || d.principal == id) && (d.revokeTime.None? || d.revokeTime.value > now) &&
           (instance.None? || d.scopeInstance == instance.value) {
          table.rows := table.rows[k := Revoke(d, now)];
        }
        k := k + 1;
      }
    }

    /** `number_of_votes_in_scope`: nothing without `vote.cast`, otherwise the
        delegations the user holds in the scope plus one, the user's own vote. */
    method NumberOfVotesInScope(current: Option<Instance>, delegationCount: nat) returns (votes: nat)
      ensures votes == if HasPermissionIn(memberships, current, VoteCast) then delegationCount + 1 else 0
      ensures votes > 0 <==> HasPermissionIn(memberships, current, VoteCast)
    {
      var canVote := HasPermission(VoteCast, current);
      if !canVote {
        return 0;
      }
      return delegationCount + 1;
    }
  }

  /** A soft-deleted user stays deleted at every later time. */
  lemma DeletionPersists(u: User, t: int, later: int)
    requires u.IsDeleted(t) && t <= later
    ensures u.IsDeleted(later) && u.deleteTime.Some?
  {
  }

  /** The delegation rows of the database. */
  class DelegationTable {
    var rows: seq<Delegation>

    constructor (rows: seq<Delegation>)
      ensures this.rows == rows
    {
      this.rows := rows;
    }
  }
}
