/**
 * `LoginViewModel`: the login and sign-up state machines over the user table.
 * A database exception is the `failure` parameter: the message the DAO call
 * would throw with, or None when it does not throw.
 */
module Login {
  import opened Wrappers
  import opened Entities
  import opened Seqs
  import UserDao

  /** `LoginState` and `SignUpState`, which have the same four cases. */
  datatype AuthState = Initial | Loading | Success(user: User) | Error(message: string)

  const InvalidCredentials := "Invalid username or password"
  const WrongUserType := "Invalid user type for selected login mode"
  const UsernameExists := "Username already exists"
  const CreateFailed := "Failed to create account"
  const LoginFailedPrefix := "Login failed: "
  const SignUpFailedPrefix := "Sign up failed: "

  /** The role the selected mode asks for. */
  function RoleFor(isClient: bool): string
  {
    if isClient then ClientRole else BusinessRole
  }

  /** The account `signUp` creates: key 0, role by the selected mode. */
  function NewUser(username: string, password: string, isClient: bool): User
  {
    User(0, username, password, RoleFor(isClient))
  }

  /**
   * The state `login` ends in: an error when the lookup throws or finds
   * nobody, or when the account's role is not the selected mode's;
   * otherwise Success with the account found.
   */
  function LoginOutcome(users: seq<User>, username: string, password: string, isClient: bool, failure: Option<string>): (s: AuthState)
    ensures s != Initial && s != Loading
    ensures failure.Some? ==> s == Error(LoginFailedPrefix + failure.value)
    ensures s.Success? <==>
      failure.None? && UserDao.AuthenticateUser(users, username, password).Some? &&
      UserDao.AuthenticateUser(users, username, password).value.role == RoleFor(isClient)
    ensures s.Success? ==>
      s.user in users && s.user.username == username && s.user.password == password && s.user.role == RoleFor(isClient)
    ensures failure.None? ==> (s == Error(InvalidCredentials) <==> UserDao.AuthenticateUser(users, username, password).None?)
    ensures (failure.None? && UserDao.AuthenticateUser(users, username, password).Some? &&
             UserDao.AuthenticateUser(users, username, password).value.role != RoleFor(isClient))
            ==> s == Error(WrongUserType)
  {
    if failure.Some? then Error(LoginFailedPrefix + failure.value)
    else
      var user := UserDao.AuthenticateUser(users, username, password);
      if user.None? then Error(InvalidCredentials)
      else if (isClient && user.value.role != ClientRole) || (!isClient && user.value.role != BusinessRole) then Error(WrongUserType)
      else AuthState.Success(user.value)
  }

  class LoginViewModel {
    var loginState: AuthState
    var signUpState: AuthState
    const users: UserDao.UserTable

    ghost predicate Valid()
      reads users
    {
      users.Valid()
    }

    /** Both machines start in Initial. */
    constructor (users: UserDao.UserTable)
      requires users.Valid()
      ensures Valid() && this.users == users
      ensures loginState == Initial && signUpState == Initial
    {
      this.users := users;
      loginState := Initial;
      signUpState := Initial;
    }

    /** `login`: Loading, then the outcome of the lookup; the user table is only read. */
    method Login(username: string, password: string, isClient: bool, failure: Option<string>)
      requires Valid()
      modifies this
      ensures Valid() && signUpState == old(signUpState)
      ensures loginState == LoginOutcome(users.rows, username, password, isClient, failure)
    {
      loginState := Loading;
      if failure.Some? {
        loginState := Error(LoginFailedPrefix + failure.value);
        return;
      }
      var user := UserDao.AuthenticateUser(users.rows, username, password);
      if user.None? {
        loginState := Error(InvalidCredentials);
      } else if (isClient && user.value.role != ClientRole) || (!isClient && user.value.role != BusinessRole) {
        loginState := Error(WrongUserType);
      } else {
        loginState := AuthState.Success(user.value);
      }
    }

    /**
     * `signUp`: Loading; then "Username already exists" when an account has
     * the same username and the same password; otherwise the new account is
     * inserted and the state is Success with the user as built, whose key is
     * still 0.  The insert's key is the next AUTOINCREMENT key, which is
     * positive, so "Failed to create account" is never reached.
     */
    method SignUp(username: string, password: string, isClient: bool, failure: Option<string>)
      requires Valid()
      modifies this, users
      ensures Valid() && loginState == old(loginState)
      ensures signUpState != Initial && signUpState != Loading && signUpState != Error(CreateFailed)
      ensures failure.Some? ==>
        signUpState == Error(SignUpFailedPrefix + failure.value) && users.rows == old(users.rows) && users.nextId == old(users.nextId)
      ensures failure.None? && UserDao.AuthenticateUser(old(users.rows), username, password).Some? ==>
        signUpState == Error(UsernameExists) && users.rows == old(users.rows) && users.nextId == old(users.nextId)
      ensures failure.None? && UserDao.AuthenticateUser(old(users.rows), username, password).None? ==>
        && signUpState == AuthState.Success(NewUser(username, password, isClient))
        && users.rows == old(users.rows) + [NewUser(username, password, isClient).(usrId := old(users.nextId))]
        && users.nextId == old(users.nextId) + 1
    {
      signUpState := Loading;
      if failure.Some? {
        signUpState := Error(SignUpFailedPrefix + failure.value);
        assert signUpState.message[0] != CreateFailed[0];
        return;
      }
      var existingUser := UserDao.AuthenticateUser(users.rows, username, password);
      if existingUser.Some? {
        signUpState := Error(UsernameExists);
        return;
      }
      var newUser := NewUser(username, password, isClient);
      var userId := users.InsertUser(newUser);
      signUpState := if userId > 0 then AuthState.Success(newUser) else Error(CreateFailed);
    }

    /**
     * The corrected `signUp`: refuses a sign-up whose username is taken,
     * whatever the password, so accounts keep unique usernames.
     */
    method SignUpChecked(username: string, password: string, isClient: bool, failure: Option<string>)
      requires Valid()
      modifies this, users
      ensures Valid() && loginState == old(loginState)
      ensures signUpState != Initial && signUpState != Loading && signUpState != Error(CreateFailed)
      ensures failure.Some? ==>
        signUpState == Error(SignUpFailedPrefix + failure.value) && users.rows == old(users.rows) && users.nextId == old(users.nextId)
      ensures failure.None? && UsernameTaken(old(users.rows), username) ==>
        signUpState == Error(UsernameExists) && users.rows == old(users.rows) && users.nextId == old(users.nextId)
      ensures failure.None? && !UsernameTaken(old(users.rows), username) ==>
        && signUpState == AuthState.Success(NewUser(username, password, isClient))
        && users.rows == old(users.rows) + [NewUser(username, password, isClient).(usrId := old(users.nextId))]
        && users.nextId == old(users.nextId) + 1
      ensures UniqueUsernames(old(users.rows)) ==> UniqueUsernames(users.rows)
    {
      signUpState := Loading;
      if failure.Some? {
        signUpState := Error(SignUpFailedPrefix + failure.value);
        assert signUpState.message[0] != CreateFailed[0];
        return;
      }
      if UsernameTaken(users.rows, username) {
        signUpState := Error(UsernameExists);
        return;
      }
      var newUser := NewUser(username, password, isClient);
      ghost var before := users.rows;
      var userId := users.InsertUser(newUser);
      if UniqueUsernames(before) {
        CheckedSignUpKeepsUsernamesUnique(before, newUser.(usrId := userId));
      }
      signUpState := if userId > 0 then AuthState.Success(newUser) else Error(CreateFailed);
    }
  }

  /** After a sign-up, logging in with the same credentials and mode succeeds, with the stored account. */
  lemma SignUpThenLogIn(users: seq<User>, nextId: int, username: string, password: string, isClient: bool)
    requires UserDao.AuthenticateUser(users, username, password).None?
    ensures var stored := NewUser(username, password, isClient).(usrId := nextId);
      LoginOutcome(users + [stored], username, password, isClient, None) == AuthState.Success(stored)
  {
    var stored := NewUser(username, password, isClient).(usrId := nextId);
    FindAppend(users, [stored], UserDao.Credentials(username, password));
    assert Find([stored], UserDao.Credentials(username, password)) == Some(stored);
  }

  // The corrected sign-up check.

  /** Some account already uses the username, whatever its password. */
  predicate UsernameTaken(users: seq<User>, username: string)
  {
    exists i :: 0 <= i < |users| && users[i].username == username
  }

  /** No two accounts share a username. */
  predicate UniqueUsernames(users: seq<User>)
  {
    forall i, j :: 0 <= i < j < |users| ==> users[i].username != users[j].username
  }

  /**
   * As written, the existence check also compares the password, so a second
   * account with a taken username and another password is created.
   */
  lemma TakenUsernameSignsUpAgain()
    ensures var users := [User(1, "ann", "secret", ClientRole)];
      && UniqueUsernames(users)
      && UserDao.AuthenticateUser(users, "ann", "other").None?
      && UsernameTaken(users, "ann")
      && !UniqueUsernames(users + [NewUser("ann", "other", true).(usrId := 2)])
  {
    var users := [User(1, "ann", "secret", ClientRole)];
    assert users[0].password != "other";
    var after := users + [NewUser("ann", "other", true).(usrId := 2)];
    assert after[0].username == after[1].username;
  }

  /**
   * With the check on the username alone, the accounts a sign-up appends
   * keep usernames unique.
   */
  lemma CheckedSignUpKeepsUsernamesUnique(users: seq<User>, u: User)
    requires UniqueUsernames(users)
    requires !UsernameTaken(users, u.username)
    ensures UniqueUsernames(users + [u])
  {
    var after := users + [u];
    forall i, j | 0 <= i < j < |after|
      ensures after[i].username != after[j].username
    {
      if j == |users| {
        assert after[i] == users[i];
      } else {
        assert after[i] == users[i] && after[j] == users[j];
      }
    }
  }

  /** An account found by the as-written check always has a taken username, so the corrected check refuses at least as much. */
  lemma CheckedRefusesMore(users: seq<User>, username: string, password: string)
    ensures UserDao.AuthenticateUser(users, username, password).Some? ==> UsernameTaken(users, username)
  {
    if UserDao.AuthenticateUser(users, username, password).Some? {
      var u := UserDao.AuthenticateUser(users, username, password).value;
      var i :| 0 <= i < |users| && users[i] == u;
      assert users[i].username == username;
    }
  }
}
