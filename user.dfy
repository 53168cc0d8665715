/**
 * The user model: GitHub-backed accounts, the admin check, the name shown
 * for a user and the validations an account must pass.
 */
module UserModel {
  import opened Common
  import opened Schema

  /** The one GitHub login the admin check accepts. */
  const AdminLogin: string := "AnsibleMage"

  /** `admin?`: an exact, case-sensitive comparison of the GitHub login. */
  function IsAdmin(user: UserRow): (b: bool)
    ensures b ==> Present(user.githubLogin)
    ensures b <==> user.githubLogin.Some? && user.githubLogin.value == AdminLogin
  {
    assert !IsSpace(AdminLogin[0]);
    user.githubLogin == Some(AdminLogin)
  }

  /** Because GitHub logins are unique, at most one account is an admin. */
  lemma AtMostOneAdmin(users: map<UserId, UserRow>, u: UserId, v: UserId)
    requires UserIndexesHold(users)
    requires u in users && v in users && IsAdmin(users[u]) && IsAdmin(users[v])
    ensures u == v
  {
  }

  /** The comparison does not fold case. */
  lemma AdminIsCaseSensitive(user: UserRow)
    requires user.githubLogin == Some("ansiblemage")
    ensures !IsAdmin(user)
  {
    assert "ansiblemage"[0] != AdminLogin[0];
  }

  /** `display_name`: the name when it is present, otherwise the GitHub login. */
  function DisplayName(user: UserRow): (r: Option<string>)
    ensures Present(user.name) ==> r == user.name
    ensures Blank(user.name) ==> r == user.githubLogin
  {
    if Present(user.name) then user.name else user.githubLogin
  }

  /** A nil or empty name falls back to the login, and a user that passed
      validation always has a present display name. */
  lemma DisplayNameFallsBack(user: UserRow)
    ensures user.name.None? || user.name == Some("") ==> DisplayName(user) == user.githubLogin
    ensures Present(user.githubLogin) ==> Present(DisplayName(user))
  {
  }

  datatype UserError = GithubIdBlank | GithubIdTaken | GithubLoginBlank | GithubLoginTaken

  /** Some user other than `self` already has this GitHub id. */
  predicate GithubIdUsed(users: map<UserId, UserRow>, self: Option<UserId>, githubId: Option<string>)
  {
    githubId.Some? && exists v :: v in users && Some(v) != self && users[v].githubId == githubId
  }

  /** Some user other than `self` already has this GitHub login. */
  predicate GithubLoginUsed(users: map<UserId, UserRow>, self: Option<UserId>, login: Option<string>)
  {
    login.Some? && exists v :: v in users && Some(v) != self && users[v].githubLogin == login
  }

  /** The validations of a user record: GitHub id and login present and not
      used by another user. `self` is the record's own id once it is saved. */
  function UserErrors(users: map<UserId, UserRow>, self: Option<UserId>, row: UserRow): (errs: set<UserError>)
    ensures errs == {} <==>
      Present(row.githubId) && Present(row.githubLogin) &&
      forall v :: v in users && Some(v) != self ==>
        users[v].githubId != row.githubId && users[v].githubLogin != row.githubLogin
  {
    (if Blank(row.githubId) then {GithubIdBlank} else {}) +
    (if GithubIdUsed(users, self, row.githubId) then {GithubIdTaken} else {}) +
    (if Blank(row.githubLogin) then {GithubLoginBlank} else {}) +
    (if GithubLoginUsed(users, self, row.githubLogin) then {GithubLoginTaken} else {})
  }

  /** A record that passes validation can be stored under its id without
      breaking the unique indexes on `github_id` and `github_login`. */
  lemma ValidUserKeepsIndexes(users: map<UserId, UserRow>, id: UserId, row: UserRow)
    requires UserIndexesHold(users)
    requires UserErrors(users, Some(id), row) == {}
    ensures UserIndexesHold(users[id := row])
  {
    var us := users[id := row];
    forall u, v | u in us && v in us && u != v
      ensures us[u].githubId.Some? ==> us[u].githubId != us[v].githubId
      ensures us[u].githubLogin.Some? ==> us[u].githubLogin != us[v].githubLogin
    {
      if u == id {
        assert !GithubIdUsed(users, Some(id), row.githubId);
        assert !GithubLoginUsed(users, Some(id), row.githubLogin);
      } else if v == id {
        assert !GithubIdUsed(users, Some(id), row.githubId);
        assert !GithubLoginUsed(users, Some(id), row.githubLogin);
      }
    }
  }

  /** What OmniAuth reports about a GitHub login: the uid and the profile. */
  datatype Auth = Auth(uid: string, nickname: Option<string>, name: Option<string>, image: Option<string>)

  /** The attributes `find_or_create_from_github` writes onto the record. */
  function WithProfile(user: UserRow, auth: Auth): (r: UserRow)
    ensures r.githubId == user.githubId
    ensures r.githubLogin == auth.nickname && r.name == auth.name && r.avatarUrl == auth.image
  {
    user.(githubLogin := auth.nickname, name := auth.name, avatarUrl := auth.image)
  }
}
