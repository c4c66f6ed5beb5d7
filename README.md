# Adhocracy accounts, local login and static-page navigation in Dafny

This project models the account core of the Adhocracy participation platform:

- **User** (`UserModel.dfy`): the user object.
  - It stores its password as a salted SHA-1 digest.
  - Changing the e-mail address draws a new activation code.
  - The display name falls back to the user name.
  - Group memberships grant permissions in the current instance or site-wide.
  - A user can be soft-deleted.
  - The model covers the user's current delegations, revoking them in bulk, and the vote weight "delegations plus one".
- **Local login** (`Authentication.dfy`):
  - The enabled local login types decide whether a login is looked up by e-mail or by user name.
  - A lookup succeeds only when exactly one user matches.
  - The password authenticator is built on that lookup.
  - The alternate-login form identifier diverts "I have no password" submissions.
- **User controller** (`UserController.dfy`): the decisions inside the request handlers.
  - the registration e-mail blacklist;
  - saving optional profile attributes;
  - reconciling badges;
  - the no-password branch;
  - the message after a failed login;
  - moving a user to another group, with revocation of delegations when the user loses the vote;
  - e-mail activation.
- **Static pages** (`StaticPages.dfy`):
  - page bodies with a default;
  - customisable footer columns, optionally per instance;
  - the external navigation, rendered as nested HTML lists. The top-level entry that leads to the current page is marked.

`Text.dfy` states the Python string operations these rely on over `seq<char>`: Unicode whitespace, `strip`, `split`, `replace`, `partition`, `startswith`, clamped slices and `join`.

Database rows become values. Memberships are a sequence on the user. Delegations are the rows of a `DelegationTable` object.

Some inputs become parameters:

- the current instance;
- configuration values;
- form results;
- the clock (`now`);
- random tokens and salts;
- SHA-1, as a function to 40-character hex strings.

Methods that change state (the e-mail and password setters, delegation revocation, group change, badge and attribute updates, activation) are methods on classes with `modifies` frames. Their `ensures` tie the new state to specification functions.

## Model

| member | source | states |
|---|---|---|
| UserModel.User.constructor | adhocracy/model/user.py:34-40 | A new user carries the given names, e-mail and display name. The password is stored salted and hashed. An e-mail draws an activation code. |
| UserModel.User.Name | adhocracy/model/user.py:43-46 | The name is the stripped display name when that has non-blank text, and then it starts and ends with non-whitespace. Otherwise it is the user name. |
| UserModel.User.SetEmail | adhocracy/model/user.py:63-67 | The e-mail becomes the new address. A changed address gets a fresh activation code, so it is no longer activated. An unchanged one keeps its code. |
| UserModel.User.SetPassword | adhocracy/model/user.py:141-156 | The stored password is the salt followed by SHA-1 of password+salt, and the new password then validates. |
| UserModel.StoreThenValidate | adhocracy/model/user.py:141-174 | A stored password is 80 characters long and its first 40 are the salt. Validating the same password against it succeeds for every salt. |
| UserModel.ValidateOnlyOnCollision | adhocracy/model/user.py:162-174 | Another candidate validates exactly when its salted digest equals that of the stored password. |
| UserModel.User.ValidatePassword | adhocracy/model/user.py:162-174 | Against a password stored with some salt, a candidate is accepted exactly when its digest with that salt equals the stored password's. |
| UserModel.User.IsEmailActivated | adhocracy/model/user.py:292-293 | Activated exactly when an address is present and no activation code is pending. |
| UserModel.User.ContextGroups | adhocracy/model/user.py:76-84 | Returns the groups of the unexpired memberships that are site-wide or of the current instance, in order. A group is returned iff such a membership carries it. |
| UserModel.ContextGroupsMembers | adhocracy/model/user.py:76-84 | A group is among the context groups iff some membership in context has it. |
| UserModel.User.HasPermission | adhocracy/model/user.py:89-94 | The nested search with early return answers whether some context group carries the permission. |
| UserModel.PermissionFromMembership | adhocracy/model/user.py:89-94 | The permission holds iff some membership in context has a group carrying it. |
| UserModel.User.InstanceMembership | adhocracy/model/user.py:97-104 | Returns nothing without an instance. Otherwise it returns the first unexpired membership with that instance id, or nothing when none exists. |
| UserModel.User.IsMember | adhocracy/model/user.py:107-108 | True iff there is an instance and an unexpired membership with its id. |
| UserModel.User.Instances | adhocracy/model/user.py:111-117 | An instance is returned iff an unexpired membership belongs to it (duplicates removed). |
| UserModel.User.IsDeleted | adhocracy/model/user.py:273-277 | Never deleted without a deletion time. With one, deleted at a time exactly when the deletion time is not after it. |
| UserModel.DeletionPersists | adhocracy/model/user.py:273-277 | A user deleted at some time is deleted at every later time. |
| UserModel.CurrentAgencies | adhocracy/model/user.py:178-182 | A delegation is returned iff the user is its agent, it is not revoked, and it passes the instance filter (applied only when there is a current instance and filtering is on). |
| UserModel.CurrentDelegated | adhocracy/model/user.py:184-188 | The same for delegations the user gives as principal. |
| UserModel.User.RevokeDelegations | adhocracy/model/user.py:280-289 | The table afterwards is the old table with every active delegation of the user (as agent or principal, and in the instance when one is given) revoked now. |
| UserModel.NothingCurrentAfterRevocation | adhocracy/model/user.py:280-289 | After revocation, the user has no current agency or delegation left. This holds in the given instance, or everywhere when no instance was given. |
| UserModel.RevocationSparesOthers | adhocracy/model/user.py:280-289 | Rows of other users, of other instances and rows already revoked are unchanged. |
| UserModel.User.NumberOfVotesInScope | adhocracy/model/user.py:301-308 | Zero without `vote.cast`; otherwise the delegation count plus one. Positive iff the user may vote. |
| Authentication.LoginTypeFor | src/adhocracy/lib/auth/authentication.py:68-83 | No lookup column iff neither local login type is enabled. E-mail iff it is enabled and, when user names are also enabled, the login contains `@`. Symmetrically for user name. |
| Authentication.MatchingUsers | src/adhocracy/lib/auth/authentication.py:85-87 | The users returned are exactly those whose login column equals the login. A missing login matches exactly the users without an e-mail address (`IS NULL`), and never a user name, which is never NULL. |
| Authentication.GetUser | src/adhocracy/lib/auth/authentication.py:68-94 | A user is found iff a column applies and exactly one user matches. The found user is in the table, matches, and is the only match. |
| Authentication.GetUserOfAbsentLogin | src/adhocracy/lib/auth/authentication.py:68-94 | For a missing login: it raises iff both login types are enabled. With user-name login alone nobody is found. With e-mail login alone a user is found iff exactly one user has no e-mail address, and then it is that user. |
| Authentication.AbsentLoginFindsUserWithoutEmail | src/adhocracy/lib/auth/authentication.py:125-130 | With e-mail login alone, a "no password" submission without a login field selects the one user who has no e-mail address. |
| Authentication.AmbiguousLoginFindsNoone | src/adhocracy/lib/auth/authentication.py:89-94 | Two distinct users with the same login value make the lookup fail. |
| Authentication.Authenticate | src/adhocracy/lib/auth/authentication.py:100-109 | Nothing without both login and password. A result is the user name of the single looked-up user, whose stored password accepts the submitted one. |
| Authentication.AuthenticateAfterSetPassword | src/adhocracy/lib/auth/authentication.py:100-109 | The uniquely found user authenticates with the password last set. Any candidate without a salted-digest collision is refused. |
| Authentication.Identify | src/adhocracy/lib/auth/authentication.py:122-132 | On the login handler path with `have_password=false`, the path becomes `/user/nopassword`. Then either the lookup of the login field (present or missing) is recorded, or the lookup raised and nothing is recorded. Otherwise the request is passed on, and `PATH_INFO` and `_adhocracy_nopassword_user` are unchanged. |
| UserController.BlacklistEntries | src/adhocracy/controllers/user.py:1463-1464 | Blacklist entries are non-empty and contain no ASCII whitespace, dot or comma. |
| UserController.EmailIsBlacklisted | src/adhocracy/controllers/user.py:1460-1469 | A missing address is never blacklisted. A blacklisted address contains no whitespace or comma. |
| UserController.BlacklistIgnoresDots | src/adhocracy/controllers/user.py:1464-1466 | An address is blacklisted iff the address with its dots removed is. |
| UserController.BlacklistEntriesArePieces | src/adhocracy/controllers/user.py:1463-1464 | The entries are exactly the pieces of the raw setting between commas and ASCII whitespace, in order, with their dots removed. Pieces made only of dots drop out. |
| UserController.BlacklistedIffListed | src/adhocracy/controllers/user.py:1460-1469 | An address is blacklisted iff some piece of the setting, delimited by separators or by the setting's ends, equals the address up to dots and is not dots alone. This holds for the first, the last, the only and any inner entry. |
| UserController.UpdateOptionalAttributes | src/adhocracy/controllers/user.py:623-633 | Returns whether some configured key differed. Afterwards every configured key holds the submitted value and other keys are untouched. Nothing is written when nothing differed. |
| UserController.ReconciledBadgesProperties | src/adhocracy/controllers/user.py:1405-1421 | Among the allowed badges the user ends with exactly the chosen ones. Badges outside the allowed set are unchanged. Added and removed badges are disjoint. |
| UserController.UpdateBadges | src/adhocracy/controllers/user.py:1372-1421 | The allowed badges are the global ones for a global admin plus the current instance's. A choice outside them is refused and changes nothing. Otherwise the method reports the added badges (wanted, not held) and the removed ones (held, allowed, not wanted), and leaves the reconciled set. |
| UserController.BadgesWithinEditorReach | src/adhocracy/controllers/user.py:1372-1421 | An editor who is not a global admin adds and removes only badges of the current instance. Outside an instance, no instance badge changes, and such an editor can change nothing at all. |
| UserController.KeepNameChars | src/adhocracy/controllers/user.py:1177 | The result consists of `[0-9a-zA-Z_-]` characters only and keeps every such character of the input. A single character is kept iff it is a name character. |
| UserController.KeepNameCharsConcat | src/adhocracy/controllers/user.py:1177 | Filtering a concatenation filters each part, so the kept characters stay in their original order. |
| UserController.SuggestedUserName | src/adhocracy/controllers/user.py:1174-1177 | The suggestion consists of name characters. It keeps every name character ahead of the first `@`. Without an `@` it is the whole login, filtered. |
| UserController.SuggestedUserNameOfAddress | src/adhocracy/controllers/user.py:1174-1177 | For `local@domain` the handle is the local part, the suggestion depends on it only, and a local part of name characters is suggested unchanged. |
| UserController.NoPassword | src/adhocracy/controllers/user.py:1160-1202 | A found user, and only then, gets a password reset. Otherwise a login without `@` is refused. With registration allowed, the form is pre-filled with the login and the suggested name. Without registration, a request goes to support iff a non-empty support address is configured, else registration is reported disabled. |
| UserController.LoginErrorMessage | src/adhocracy/controllers/user.py:1111-1121 | The message names the user name and e-mail when both local types are enabled. It names only one of them when only that type is enabled, and is generic when neither is. |
| UserController.LoginErrorMatchesLookup | src/adhocracy/controllers/user.py:1113-1123 | The failure message names exactly the columns the lookup can use: generic iff none, both iff both, user name iff only user names, e-mail iff only e-mail. |
| UserController.PostLogin | src/adhocracy/controllers/user.py:1099-1123 | A logged-in user is redirected to the URL-decoded `came_from` when it is non-empty, else to the dashboard. Otherwise the login form shows the message for the enabled types. |
| UserController.RegroupedPermissions | src/adhocracy/controllers/user.py:1314-1318 | After the move a permission holds iff the new group carries it and something was moved, or an unmoved membership in context grants it. |
| UserController.RegroupedPermissionsInInstance | src/adhocracy/controllers/user.py:1314-1318 | Inside an instance the unmoved memberships in context are the unexpired site-wide ones. |
| UserController.GroupMod | src/adhocracy/controllers/user.py:1306-1326 | Inside the current instance, the memberships become the regrouped ones. The delegation table is revoked for the user in that instance exactly when the move cost the user `vote.cast`; otherwise it is unchanged. |
| UserController.Activate | src/adhocracy/controllers/user.py:744-788 | A wrong code is refused and changes nothing. A match on an already cleared code reports "already activated". A matching code is cleared, which activates a present e-mail, and the outcome tells whether the code marks an imported user. |
| StaticPages.FooterPagesPerInstance | src/adhocracy/lib/helpers/staticpage_helper.py:38-41 | The footer key is `footer_<column>`, with `_<instance key>` appended only for an instance with footers of its own. Two such instances never read the same footer page, and neither reads the shared one. |
| StaticPages.SharedFooterWithoutOwnPages | src/adhocracy/lib/helpers/staticpage_helper.py:35-46 | An instance without footers of its own shows the same footer column as no instance. |
| StaticPages.FooterColumnIsPageBody | src/adhocracy/lib/helpers/staticpage_helper.py:28-46 | With customisation on, a footer column is the body `get_body` returns for the footer page when that page exists, whatever the default; otherwise the column is empty. |
| StaticPages.ItemPath | src/adhocracy/lib/helpers/staticpage_helper.py:68-71 | A top-level path is the name. Below, it is the parent path, a slash and the name. |
| StaticPages.RenderItem | src/adhocracy/lib/helpers/staticpage_helper.py:66-92 | An entry contains the current page iff the current key is the path of the item or of one of its descendants. |
| StaticPages.ItemMarkup | src/adhocracy/lib/helpers/staticpage_helper.py:73-91 | An entry opens with its link to `/static/<path>.html`. It carries `class="current"` iff it is top-level and its subtree holds the current page. |
| StaticPages.NavigationEntries | src/adhocracy/lib/helpers/staticpage_helper.py:57-97 | A non-empty navigation is its entries, one per top-level item and in order, joined by newlines. Each entry opens with the item's link and carries `class="current"` iff the current page is in that item's subtree. |
| StaticPages.RenderExternalNavigation | src/adhocracy/lib/helpers/staticpage_helper.py:57-97 | The markup is empty exactly when the CMS returned no navigation or one without children. |
| StaticPages.NavigationOpensWithFirstItem | src/adhocracy/lib/helpers/staticpage_helper.py:94-97 | A non-empty navigation begins with the first top-level entry. |

## Left out

- Database mechanics: sessions, queries, commits and flushes are not modelled. `find`, `find_by_email`, `find_all`, `complete`, `all`, `create`, `to_dict` and `__repr__` on the user are query or serialisation code and are left out.
- The locale property (Babel), `email_hash`, `twitter`, `num_watches`, `bio`, `delegate_to_user_in_scope`, `vote_on_poll`, `position_on_poll` and `any_position_on_proposal` are not modelled. They are presentation or voting code outside this model.
- `Delegation.revoke`, `Delegation.is_revoked`, `Membership.is_expired` and `DelegationNode` are not part of this model. A delegation is revoked once its revocation time is not after now, and `revoke` sets that time to now. Expiry is a flag on each membership. `number_of_delegations` is a parameter.
- SHA-1, `os.urandom`, `random_token`, `utcnow` and the request's current instance are parameters. Strings are hashed as given: the UTF-8 encoding of the password before hashing is not modelled.
- UserModel.StoreThenValidate: the source's round trip holds only for ASCII passwords. Setting a password encodes it to UTF-8 before hashing, but validation hashes the candidate as given. Under Python 2, a non-ASCII unicode candidate raises UnicodeEncodeError in `hashlib.sha1`, and a non-ASCII byte string raises UnicodeDecodeError when it is joined to the stored unicode value. The model has no such failure and states the round trip for every string. The same applies to `UserModel.User.ValidatePassword` and `UserModel.User.SetPassword`.
- Authentication.AuthenticateAfterSetPassword: for the same reason, `authenticate` raises for a non-ASCII password in the source instead of returning the user name; the model states the result for every string.
- UserModel.User.NumberOfVotesInScope: the docstring warns that the result "may be a bit too much as multiple delegations are counted for each user they are delegated to". That concerns `number_of_delegations`, which is a parameter here, so the model states only "that count plus one".
- UserModel.User.Instances: returns a set. The source returns a list with an unspecified order.
- Authentication.GetUser: takes the login as text. A missing login is handled by `GetUserOfAbsentLogin`. The TypeError that a missing login raises with both types enabled becomes the outcome `Raised` of `Identify`; what the middleware does with the exception is not modelled.
- Authentication.Identify: the hand-off to the standard form identifier (`FriendlyFormPlugin.identify`) is reported as `PassedOn` and not modelled further.
- UserController.EmailIsBlacklisted: characters stand for the bytes of the setting, which is a byte string. Its `split()` therefore breaks only at ASCII whitespace, and the model uses exactly that. The model takes the setting as text. What an unset setting yields depends on `adhocracy.config`, which is not part of this model.
- UserController.PostLogin: `h.url.unquote` (URL decoding) is a parameter function, because its definition is not part of this model. Setting `logged_in` in the session is not modelled.
- UserController.RegroupedPermissions: stated for any context, including site-wide, while `groupmod` runs only inside an instance (`@RequireInstance`). `GroupMod` therefore takes an instance.
- UserController.LoginErrorMatchesLookup: one parsed list of local login types stands for both reads of `adhocracy.login_type.local`. The lookup reads it with `adhocracy.config.get_json`, the error message with `adhocracy.config.get_list`. Neither parser is part of this model, so the lemma assumes they yield the same list.
- UserController.UpdateOptionalAttributes: requires every configured key to be in the submitted form, where the source would raise a KeyError.
- UserController.Activate: the membership created in the current instance for an imported user, the login of that user, flash messages, redirects and the session's `activate_came_from` are not modelled. `model.User.IMPORT_MARKER` is a parameter, because its definition is not part of this model.
- UserController.NoPassword: sending the support mail and rendering the registration form are represented only by the chosen outcome.
- Rendering, flash messages, redirects, translations (`_()`) and events are left out in every handler. Permission checks (`require.*`) are assumed to have passed.
- StaticPages.RenderFooterColumn: `adhocracy.instance_footers` is treated as a list of instance keys. A plain string setting would give substring membership in the source.
- StaticPages.RenderExternalNavigation: the REST fetch from the external CMS and its logging are left out. The navigation's children are a parameter. `cache.memoize` and the static page `url`, `breadcrumbs`, `can_edit`, `get_lang_info` and `use_external_navigation` helpers are URL building or configuration lookups and are not modelled.
