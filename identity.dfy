/** Identity resolution (`authController.js`): login by email finds or creates
    the user, chooses a display name for the token and the response without
    storing it, and signs the claims with a foreign signing function. */
module Identity {
  import opened Json
  import opened Http
  import opened Strings
  import opened Schema

  /** The payload of a token: `{ id, email, role, name }`. */
  datatype Claims = Claims(id: int, email: string, role: string, name: Val)

  /** `expiresIn: '12h'`, in seconds. */
  const TokenLifetimeSeconds: int := 12 * 60 * 60

  /** The role every user created by login gets. */
  const DefaultRole: string := "user"

  /** The body of a successful login: the token and the user with its display name. */
  datatype LoginResponse = LoginResponse(token: string, user: User)

  /** The lookup by email: the key of the user holding that email, if any. */
  ghost function FindUser(users: map<int, User>, email: string): (k: Option<int>)
    ensures k.Some? ==> k.value in users && users[k.value].email == email
    ensures k.None? ==> forall j :: j in users ==> users[j].email != email
  {
    if exists j :: j in users && users[j].email == email then
      var j :| j in users && users[j].email == email; Some(j)
    else None
  }

  /** With unique emails, the lookup finds exactly the one user holding the email. */
  lemma FindUserUnique(users: map<int, User>, nextId: int, email: string, k: int)
    requires ValidUsers(users, nextId)
    requires k in users && users[k].email == email
    ensures FindUser(users, email) == Some(k)
  {
  }

  /** `email.split('@')[0]`: the text before the first `@`. */
  function LocalPart(email: string): (local: string)
    ensures '@' !in local
    ensures |local| <= |email| && local == email[..|local|]
    ensures |local| == |email| || email[|local|] == '@'
  {
    SplitHead(email, '@');
    Split(email, '@')[0]
  }

  /** The name a new user is stored with: the given name if truthy, else the
      email's local part. */
  function InferredName(name: Val, email: string): (stored: Val)
    ensures Truthy(name) ==> stored == name
    ensures !Truthy(name) ==> stored == Str(LocalPart(email))
  {
    Or(name, Str(LocalPart(email)))
  }

  /** `name || user.name`: the name the token and the response carry. */
  function DisplayName(name: Val, storedName: Val): (shown: Val)
    ensures Truthy(name) ==> shown == name
    ensures !Truthy(name) ==> shown == storedName
  {
    Or(name, storedName)
  }

  function TokenClaims(user: User, name: Val): Claims {
    Claims(user.id, user.email, user.role, DisplayName(name, user.name))
  }

  /** The outcome of the find-or-create step: the user and the table after it. */
  datatype Resolution = Resolution(user: User, users: map<int, User>, nextId: int)

  /** Finds the user by email, or inserts a new one under the next serial id
      with the inferred name and role `user`. */
  ghost function ResolveUser(users: map<int, User>, nextId: int, email: string, name: Val): (res: Resolution)
    ensures res.user.email == email
    ensures res.user in res.users.Values
  {
    match FindUser(users, email)
    case Some(k) => Resolution(users[k], users, nextId)
    case None =>
      var user := User(nextId, InferredName(name, email), email, DefaultRole, Null);
      assert users[nextId := user][nextId] == user;
      Resolution(user, users[nextId := user], nextId + 1)
  }

  /** An unknown email adds exactly one user, with role `user` and the inferred
      name; every existing user is unchanged. */
  lemma NewUserCreated(users: map<int, User>, nextId: int, email: string, name: Val)
    requires ValidUsers(users, nextId)
    requires forall k :: k in users ==> users[k].email != email
    ensures var res := ResolveUser(users, nextId, email, name);
      && res.user == User(nextId, InferredName(name, email), email, DefaultRole, Null)
      && nextId !in users
      && res.users == users[nextId := res.user]
      && res.nextId == nextId + 1
  {
  }

  /** A known email inserts nothing and resolves to the stored user. */
  lemma KnownUserFound(users: map<int, User>, nextId: int, email: string, name: Val, k: int)
    requires ValidUsers(users, nextId)
    requires k in users && users[k].email == email
    ensures ResolveUser(users, nextId, email, name) == Resolution(users[k], users, nextId)
  {
    FindUserUnique(users, nextId, email, k);
  }

  /** Resolution keeps the table's serial ids and email uniqueness. */
  lemma ResolveKeepsValid(users: map<int, User>, nextId: int, email: string, name: Val)
    requires ValidUsers(users, nextId)
    ensures var res := ResolveUser(users, nextId, email, name);
      ValidUsers(res.users, res.nextId) && res.nextId >= nextId
  {
  }

  /** Logging in twice with the same email resolves to the same user, and the
      second login inserts nothing, whatever names the two carry. */
  lemma ResolveIdempotent(users: map<int, User>, nextId: int, email: string, name: Val, name': Val)
    requires ValidUsers(users, nextId)
    ensures var first := ResolveUser(users, nextId, email, name);
      ResolveUser(first.users, first.nextId, email, name') == first
  {
    var first := ResolveUser(users, nextId, email, name);
    ResolveKeepsValid(users, nextId, email, name);
    KnownUserFound(first.users, first.nextId, email, name', first.user.id);
  }

  /** The response and the token carry the same identity and display name. */
  function Respond(user: User, name: Val, sign: (Claims, int) -> string): (response: LoginResponse)
    ensures response.token == sign(TokenClaims(user, name), TokenLifetimeSeconds)
    ensures response.user.id == TokenClaims(user, name).id
    ensures response.user.email == TokenClaims(user, name).email
    ensures response.user.role == TokenClaims(user, name).role
    ensures response.user.name == TokenClaims(user, name).name
    ensures response.user.avatarUrl == user.avatarUrl
  {
    LoginResponse(sign(TokenClaims(user, name), TokenLifetimeSeconds), user.(name := DisplayName(name, user.name)))
  }

  /** The display name never reaches storage: a known user's stored name stays
      as it was even when the login carries another name. */
  lemma DisplayNameNotStored(users: map<int, User>, nextId: int, email: string, name: Val, k: int, sign: (Claims, int) -> string)
    requires ValidUsers(users, nextId)
    requires k in users && users[k].email == email
    requires Truthy(name) && name != users[k].name
    ensures var res := ResolveUser(users, nextId, email, name);
      && res.users[k].name == users[k].name
      && Respond(res.user, name, sign).user.name == name
      && Respond(res.user, name, sign).user.name != res.users[k].name
  {
    KnownUserFound(users, nextId, email, name, k);
  }

  /** `login`: 400 for a falsy email; otherwise the email, sent as text, is
      looked up and the user found or created, and the answer is a token over
      its claims and the user under its display name. A truthy email that is
      not a string, matches no stored user and comes without a truthy name
      fails with 500: `name || email.split('@')[0]` then has to split it, and
      only a string can be split. With a truthy name the split never runs. */
  method Login(db: Store, email: Val, name: Val, sign: (Claims, int) -> string) returns (r: Result<LoginResponse>)
    requires db.Valid()
    modifies db`users, db`nextUserId
    ensures db.Valid()
    ensures !Truthy(email) ==>
      r == Err(BadRequest("Email required")) && db.users == old(db.users) && db.nextUserId == old(db.nextUserId)
    ensures Truthy(email) && !email.Str? && !Truthy(name) && FindUser(old(db.users), Text(email)).None? ==>
      r == Err(ServerError("Login failed")) && db.users == old(db.users) && db.nextUserId == old(db.nextUserId)
    ensures Truthy(email) && (email.Str? || Truthy(name) || FindUser(old(db.users), Text(email)).Some?) ==>
      var res := ResolveUser(old(db.users), old(db.nextUserId), Text(email), name);
      && db.users == res.users && db.nextUserId == res.nextId
      && r == Ok(Respond(res.user, name, sign))
  {
    if !Truthy(email) {
      return Err(BadRequest("Email required"));
    }
    var text := Text(email);
    var user: User;
    if k :| k in db.users && db.users[k].email == text {
      KnownUserFound(db.users, db.nextUserId, text, name, k);
      user := db.users[k];
    } else if !email.Str? && !Truthy(name) {
      return Err(ServerError("Login failed"));
    } else {
      user := User(db.nextUserId, InferredName(name, text), text, DefaultRole, Null);
      db.users := db.users[user.id := user];
      db.nextUserId := db.nextUserId + 1;
    }
    var displayName := DisplayName(name, user.name);
    var token := sign(Claims(user.id, user.email, user.role, displayName), TokenLifetimeSeconds);
    r := Ok(LoginResponse(token, user.(name := displayName)));
  }
}
