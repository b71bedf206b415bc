/**
 * The user service's account table: UserService.registerUser with its two
 * ordered duplicate checks, and AuthService.login, logout and resetPassword.
 * BCrypt's encode and matches and the JWT generator are functions given to
 * the services when they are built.
 */
module Accounts {
  import opened Common

  /** A row of the users table, without its generated id and creation time. */
  datatype User = User(username: string, password: string, email: string)

  /** The first user satisfying p, by position. */
  function IndexWhere(users: seq<User>, p: User -> bool): (r: Option<nat>)
    ensures r.Some? ==> r.value < |users| && p(users[r.value])
    ensures r.Some? ==> forall k :: 0 <= k < r.value ==> !p(users[k])
    ensures r.None? ==> forall k :: 0 <= k < |users| ==> !p(users[k])
    decreases |users|
  {
    if users == [] then None
    else if p(users[0]) then Some(0)
    else
      match IndexWhere(users[1..], p)
      case None => None
      case Some(k) => Some(k + 1)
  }

  /** No two users share a username, and no two share an email. */
  ghost predicate UniqueAccounts(users: seq<User>) {
    && (forall i, j :: 0 <= i < j < |users| ==> users[i].username != users[j].username)
    && (forall i, j :: 0 <= i < j < |users| ==> users[i].email != users[j].email)
  }

  /**
   * UserRepository's single-field finders: the first row whose key field
   * holds the value. It finds a row iff one has that value, and the row found
   * has it.
   */
  function FindBy(users: seq<User>, key: User -> string, value: string): (r: Option<User>)
    ensures r.Some? <==> exists u :: u in users && key(u) == value
    ensures r.Some? ==> r.value in users && key(r.value) == value
  {
    match IndexWhere(users, (u: User) => key(u) == value)
    case None => None
    case Some(k) => Some(users[k])
  }

  /** UserRepository.findByUsername. */
  function FindByUsername(users: seq<User>, username: string): Option<User> {
    FindBy(users, (u: User) => u.username, username)
  }

  /** UserRepository.findByEmail. */
  function FindByEmail(users: seq<User>, email: string): Option<User> {
    FindBy(users, (u: User) => u.email, email)
  }

  /** The position of the user findByUsernameAndEmail returns: it must match both fields. */
  function IndexByUsernameAndEmail(users: seq<User>, username: string, email: string): (r: Option<nat>)
    ensures r.Some? <==> exists u :: u in users && u.username == username && u.email == email
    ensures r.Some? ==> r.value < |users| && users[r.value].username == username && users[r.value].email == email
  {
    var r := IndexWhere(users, (u: User) => u.username == username && u.email == email);
    assert r.None? ==> forall u :: u in users ==> !(u.username == username && u.email == email);
    r
  }

  /** A table in which usernames are unique has at most one row per username. */
  lemma FoundUserIsTheOnly(users: seq<User>, username: string)
    requires UniqueAccounts(users)
    requires FindByUsername(users, username).Some?
    ensures forall u :: u in users && u.username == username ==> u == FindByUsername(users, username).value
  {
    var found := FindByUsername(users, username).value;
    forall u | u in users && u.username == username ensures u == found {
      var i :| 0 <= i < |users| && users[i] == u;
      var j :| 0 <= j < |users| && users[j] == found;
      if i < j {
        assert users[i].username != users[j].username;
      } else if j < i {
        assert users[j].username != users[i].username;
      }
    }
  }

  /** UserRepository: the users table. */
  class UserRepository {
    var users: seq<User>

    ghost predicate Valid()
      reads this
    {
      UniqueAccounts(users)
    }

    constructor ()
      ensures users == [] && Valid()
    {
      users := [];
    }
  }

  const UsernameTaken := "Username already exists"
  const EmailTaken := "Email already exists"

  /** Adding a user whose username and email are both new keeps the table's uniqueness. */
  lemma AppendKeepsUnique(users: seq<User>, user: User)
    requires UniqueAccounts(users)
    requires FindByUsername(users, user.username).None? && FindByEmail(users, user.email).None?
    ensures UniqueAccounts(users + [user])
  {
    var t := users + [user];
    forall i, j | 0 <= i < j < |t| ensures t[i].username != t[j].username && t[i].email != t[j].email {
      if j == |users| {
        assert t[i] in users;
      }
    }
  }

  /** UserService, with BCryptPasswordEncoder.encode as encode. */
  class UserService {
    const userRepository: UserRepository
    const encode: string -> string

    constructor (userRepository: UserRepository, encode: string -> string)
      ensures this.userRepository == userRepository && this.encode == encode
    {
      this.userRepository := userRepository;
      this.encode := encode;
    }

    /**
     * registerUser(user): the username check comes first, then the email
     * check; a thrown IllegalArgumentException is a Failure carrying its
     * message. On success the stored user carries the encoded password.
     */
    method RegisterUser(user: User) returns (r: Result<User, string>)
      requires userRepository.Valid()
      modifies userRepository
      ensures userRepository.Valid()
      ensures FindByUsername(old(userRepository.users), user.username).Some? ==>
        r == Failure(UsernameTaken) && userRepository.users == old(userRepository.users)
      ensures FindByUsername(old(userRepository.users), user.username).None? &&
              FindByEmail(old(userRepository.users), user.email).Some? ==>
        r == Failure(EmailTaken) && userRepository.users == old(userRepository.users)
      ensures FindByUsername(old(userRepository.users), user.username).None? &&
              FindByEmail(old(userRepository.users), user.email).None? ==>
        r == Success(User(user.username, encode(user.password), user.email)) &&
        userRepository.users == old(userRepository.users) + [r.value]
    {
      if FindByUsername(userRepository.users, user.username).Some? {
        return Failure(UsernameTaken);
      }
      if FindByEmail(userRepository.users, user.email).Some? {
        return Failure(EmailTaken);
      }
      var saved := User(user.username, encode(user.password), user.email);
      AppendKeepsUnique(userRepository.users, saved);
      userRepository.users := userRepository.users + [saved];
      r := Success(saved);
    }
  }

  const LoggedOut := "Logged out successfully (client should discard token)"

  /** What login returns on a table: a one-entry map holding the token, or nothing. */
  function LoginResult(users: seq<User>, username: string, rawPassword: string,
                       matches: (string, string) -> bool, generateToken: string -> string)
    : (r: Option<map<string, string>>)
  {
    match FindByUsername(users, username)
    case Some(u) => if matches(rawPassword, u.password) then Some(map["token" := generateToken(username)]) else None
    case None => None
  }

  /**
   * login succeeds exactly when the username has a row whose stored hash
   * matches the password, and the token is generated for that username.
   */
  lemma LoginSucceedsIff(users: seq<User>, username: string, rawPassword: string,
                         matches: (string, string) -> bool, generateToken: string -> string)
    requires UniqueAccounts(users)
    ensures var r := LoginResult(users, username, rawPassword, matches, generateToken);
      && (r.Some? <==> exists u :: u in users && u.username == username && matches(rawPassword, u.password))
      && (r.Some? ==> r.value == map["token" := generateToken(username)] && r.value.Keys == {"token"})
  {
    if FindByUsername(users, username).Some? {
      FoundUserIsTheOnly(users, username);
    }
  }

  /** The table after resetPassword found row k: only that row's password changes. */
  function WithPassword(users: seq<User>, k: nat, hash: string): (t: seq<User>)
    requires k < |users|
    ensures |t| == |users|
    ensures t[k] == User(users[k].username, hash, users[k].email)
    ensures forall i :: 0 <= i < |users| && i != k ==> t[i] == users[i]
  {
    users[k := User(users[k].username, hash, users[k].email)]
  }

  /** Changing one password keeps every username and email, so uniqueness is kept. */
  lemma WithPasswordKeepsUnique(users: seq<User>, k: nat, hash: string)
    requires k < |users| && UniqueAccounts(users)
    ensures UniqueAccounts(WithPassword(users, k, hash))
  {
    var t := WithPassword(users, k, hash);
    assert forall i :: 0 <= i < |users| ==> t[i].username == users[i].username && t[i].email == users[i].email;
  }

  /** AuthService, with the password encoder and the JWT utility it is wired to. */
  class AuthService {
    const userRepository: UserRepository
    const encode: string -> string
    const matches: (string, string) -> bool
    const generateToken: string -> string

    constructor (userRepository: UserRepository, encode: string -> string,
                 matches: (string, string) -> bool, generateToken: string -> string)
      ensures this.userRepository == userRepository && this.encode == encode
      ensures this.matches == matches && this.generateToken == generateToken
    {
      this.userRepository := userRepository;
      this.encode := encode;
      this.matches := matches;
      this.generateToken := generateToken;
    }

    /**
     * login(username, rawPassword): a lookup that changes nothing. It returns
     * the token map exactly when the username has a row whose stored hash
     * matches the password.
     */
    function Login(username: string, rawPassword: string): (r: Option<map<string, string>>)
      requires userRepository.Valid()
      reads userRepository
      ensures r.Some? <==> exists u :: u in userRepository.users && u.username == username && matches(rawPassword, u.password)
      ensures r.Some? ==> r.value == map["token" := generateToken(username)]
    {
      LoginSucceedsIff(userRepository.users, username, rawPassword, matches, generateToken);
      LoginResult(userRepository.users, username, rawPassword, matches, generateToken)
    }

    /** logout(): the token lives on the client, so only a fixed message is returned. */
    function Logout(): (message: string)
      ensures message == LoggedOut
    {
      LoggedOut
    }

    /**
     * resetPassword(username, email, newPassword): true exactly when some row
     * matches both fields; only that row's password changes, to the encoded
     * new password. Otherwise the table is unchanged.
     */
    method ResetPassword(username: string, email: string, newPassword: string) returns (ok: bool)
      requires userRepository.Valid()
      modifies userRepository
      ensures userRepository.Valid()
      ensures ok <==> exists u :: u in old(userRepository.users) && u.username == username && u.email == email
      ensures ok ==>
        var k := IndexByUsernameAndEmail(old(userRepository.users), username, email).value;
        userRepository.users == WithPassword(old(userRepository.users), k, encode(newPassword))
      ensures !ok ==> userRepository.users == old(userRepository.users)
    {
      var found := IndexByUsernameAndEmail(userRepository.users, username, email);
      if found.Some? {
        var k := found.value;
        WithPasswordKeepsUnique(userRepository.users, k, encode(newPassword));
        userRepository.users := WithPassword(userRepository.users, k, encode(newPassword));
        return true;
      }
      return false;
    }
  }

  /**
   * With an encoder whose hashes match their own passwords (BCrypt's
   * contract), a user who has just registered can log in with the password
   * given at registration, and gets a token for that username.
   */
  lemma RegisteredUserCanLogIn(users: seq<User>, user: User, encode: string -> string,
                               matches: (string, string) -> bool, generateToken: string -> string)
    requires UniqueAccounts(users)
    requires FindByUsername(users, user.username).None? && FindByEmail(users, user.email).None?
    requires forall p :: matches(p, encode(p))
    ensures LoginResult(users + [User(user.username, encode(user.password), user.email)],
                        user.username, user.password, matches, generateToken)
            == Some(map["token" := generateToken(user.username)])
  {
    var saved := User(user.username, encode(user.password), user.email);
    AppendKeepsUnique(users, saved);
    LoginSucceedsIff(users + [saved], user.username, user.password, matches, generateToken);
    assert saved in users + [saved];
  }

  /**
   * After a successful reset, logging in with the new password succeeds
   * (with the same encoder contract).
   */
  lemma ResetThenLogin(users: seq<User>, username: string, email: string, newPassword: string,
                       encode: string -> string, matches: (string, string) -> bool, generateToken: string -> string)
    requires UniqueAccounts(users)
    requires IndexByUsernameAndEmail(users, username, email).Some?
    requires forall p :: matches(p, encode(p))
    ensures var k := IndexByUsernameAndEmail(users, username, email).value;
      LoginResult(WithPassword(users, k, encode(newPassword)), username, newPassword, matches, generateToken)
        == Some(map["token" := generateToken(username)])
  {
    var k := IndexByUsernameAndEmail(users, username, email).value;
    var t := WithPassword(users, k, encode(newPassword));
    WithPasswordKeepsUnique(users, k, encode(newPassword));
    LoginSucceedsIff(t, username, newPassword, matches, generateToken);
    assert t[k] in t;
  }
}
