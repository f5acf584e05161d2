/** The login page: the sign-up validator, the login lookup, and the session that
    remembers who is logged in. The page's widgets and messages are reduced to the
    decision each branch makes. */
module Login {
  import opened Auth

  datatype Result<T, E> = Ok(value: T) | Err(error: E)

  /** Why a sign-up is refused, in the order the checks run. */
  datatype SignUpError = PasswordsMismatch | UsernameExists | EmptyCredentials

  /** What the page submits: nothing, the login form, or the sign-up form. */
  datatype Form =
    | NotSubmitted
    | LoginForm(username: string, password: string)
    | SignUpForm(newUsername: string, newPassword: string, confirmPassword: string)

  /** What the page ends up showing. */
  datatype Page =
    | Welcome(user: string)
    | Idle
    | LoggedIn
    | InvalidCredentials
    | SignUpRejected(error: SignUpError)
    | SignedUp

  /** Some record carries exactly this username. */
  ghost predicate HasUser(users: seq<User>, name: string)
  {
    exists i :: 0 <= i < |users| && users[i].username == name
  }

  /** `k` is the position of the first record carrying exactly this username. */
  ghost predicate IsFirstMatch(users: seq<User>, name: string, k: int)
  {
    && 0 <= k < |users|
    && users[k].username == name
    && forall i :: 0 <= i < k ==> users[i].username != name
  }

  /** No two records share a username. */
  ghost predicate UniqueUsernames(users: seq<User>)
  {
    forall i, j :: 0 <= i < j < |users| ==> users[i].username != users[j].username
  }

  /** The duplicate check of the sign-up form: does any record have exactly this username? */
  function UsernameTaken(users: seq<User>, name: string): (taken: bool)
    ensures taken <==> exists i :: 0 <= i < |users| && users[i].username == name
  {
    if users == [] then false
    else if users[0].username == name then true
    else
      var rest := UsernameTaken(users[1..], name);
      assert forall i :: 1 <= i < |users| ==> users[i] == users[1..][i - 1];
      rest
  }

  /** The login lookup: the position of the first record whose username is exactly `name`, if any. */
  function FirstMatch(users: seq<User>, name: string): (k: Option<nat>)
    ensures k.None? ==> forall i :: 0 <= i < |users| ==> users[i].username != name
    ensures k.Some? ==> IsFirstMatch(users, name, k.value)
  {
    if users == [] then None
    else if users[0].username == name then Some(0)
    else
      match FirstMatch(users[1..], name)
      case None =>
        assert forall i :: 1 <= i < |users| ==> users[i] == users[1..][i - 1];
        None
      case Some(j) =>
        assert forall i :: 1 <= i < |users| ==> users[i] == users[1..][i - 1];
        Some(j + 1)
  }

  /** The login decision: the first record with that username exists and the password verifies against it. */
  function LoginAccepted(h: Hasher, users: seq<User>, name: string, password: string): (ok: bool)
    ensures ok <==> exists k :: IsFirstMatch(users, name, k) && users[k].password == HashPassword(h, password)
  {
    match FirstMatch(users, name)
    case None => false
    case Some(k) =>
      assert forall k' :: IsFirstMatch(users, name, k') ==> k' == k;
      VerifyPassword(h, password, users[k].password)
  }

  /** The record a successful sign-up appends: the digest, never the password, and empty profile fields. */
  function NewRecord(h: Hasher, name: string, password: string): (u: User)
    ensures u.username == name && u.password == HashPassword(h, password)
    ensures u.firstName == "" && u.lastName == "" && u.dob == None
  {
    User(name, HashPassword(h, password), "", "", None)
  }

  /** The sign-up decision on the loaded list: the first failing check in the order
      mismatch, duplicate, empty; otherwise the list with one record appended. */
  function SignUpDecision(h: Hasher, users: seq<User>, name: string, password: string, confirm: string)
    : (r: Result<seq<User>, SignUpError>)
    ensures password != confirm ==> r == Err(PasswordsMismatch)
    ensures password == confirm && HasUser(users, name) ==> r == Err(UsernameExists)
    ensures password == confirm && !HasUser(users, name) && (name == "" || password == "")
            ==> r == Err(EmptyCredentials)
    ensures r.Ok? <==> password == confirm && !HasUser(users, name) && name != "" && password != ""
    ensures r.Ok? ==> |r.value| == |users| + 1 && r.value[..|users|] == users
    ensures r.Ok? ==> r.value[|users|] == NewRecord(h, name, password)
  {
    if password != confirm then Err(PasswordsMismatch)
    else if UsernameTaken(users, name) then Err(UsernameExists)
    else if name == "" || password == "" then Err(EmptyCredentials)
    else Ok(users + [NewRecord(h, name, password)])
  }

  /** A successful sign-up keeps usernames pairwise distinct. */
  lemma SignUpPreservesUniqueness(h: Hasher, users: seq<User>, name: string, password: string, confirm: string)
    requires UniqueUsernames(users)
    requires SignUpDecision(h, users, name, password, confirm).Ok?
    ensures UniqueUsernames(SignUpDecision(h, users, name, password, confirm).value)
  {
    var after := SignUpDecision(h, users, name, password, confirm).value;
    forall i, j | 0 <= i < j < |after|
      ensures after[i].username != after[j].username
    {
      assert after[i] == users[i];
      if j < |users| {
        assert after[j] == users[j];
      }
    }
  }

  /** Right after signing up, the same username and password log in. */
  lemma SignUpThenLogin(h: Hasher, users: seq<User>, name: string, password: string)
    requires SignUpDecision(h, users, name, password, password).Ok?
    ensures LoginAccepted(h, SignUpDecision(h, users, name, password, password).value, name, password)
  {
    var after := SignUpDecision(h, users, name, password, password).value;
    forall i | 0 <= i < |users|
      ensures after[i].username != name
    {
      assert after[i] == users[i];
    }
    assert IsFirstMatch(after, name, |users|);
  }

  /** A sign-up does not change whether any other username logs in with any password. */
  lemma SignUpKeepsOtherLogins(h: Hasher, users: seq<User>, name: string, password: string,
                               other: string, otherPassword: string)
    requires SignUpDecision(h, users, name, password, password).Ok?
    requires other != name
    ensures LoginAccepted(h, SignUpDecision(h, users, name, password, password).value, other, otherPassword)
            == LoginAccepted(h, users, other, otherPassword)
  {
    var after := SignUpDecision(h, users, name, password, password).value;
    assert forall i :: 0 <= i < |users| ==> after[i] == users[i];
    if LoginAccepted(h, after, other, otherPassword) {
      var k :| IsFirstMatch(after, other, k) && after[k].password == HashPassword(h, otherPassword);
      assert IsFirstMatch(users, other, k);
    }
    if LoginAccepted(h, users, other, otherPassword) {
      var k :| IsFirstMatch(users, other, k) && users[k].password == HashPassword(h, otherPassword);
      assert IsFirstMatch(after, other, k);
    }
  }

  /** The digest is not assumed injective: a password with the same digest as the one
      signed up with logs in as well. */
  lemma CollidingPasswordLogsIn(h: Hasher, users: seq<User>, name: string, password: string, other: string)
    requires SignUpDecision(h, users, name, password, password).Ok?
    requires HashPassword(h, other) == HashPassword(h, password)
    ensures LoginAccepted(h, SignUpDecision(h, users, name, password, password).value, name, other)
  {
    SignUpThenLogin(h, users, name, password);
  }

  /** One browser session on the login page, over a shared users file. */
  class App {
    const hash: Hasher
    const store: UsersFile
    /** Whether the session has its `logged_in` entry at all. */
    var sessionStarted: bool
    var loggedIn: bool
    var username: string

    constructor (hash: Hasher, store: UsersFile)
      ensures this.hash == hash && this.store == store
      ensures !sessionStarted && !loggedIn && username == ""
    {
      this.hash := hash;
      this.store := store;
      sessionStarted := false;
      loggedIn := false;
      username := "";
    }

    /** Gives a fresh session its defaults (logged out, no user); a started session is left alone. */
    method StartSession()
      modifies this
      ensures sessionStarted
      ensures old(sessionStarted) ==> loggedIn == old(loggedIn) && username == old(username)
      ensures !old(sessionStarted) ==> !loggedIn && username == ""
    {
      if !sessionStarted {
        sessionStarted := true;
        loggedIn := false;
        username := "";
      }
    }

    /** The login form: on success the session is logged in as the submitted username;
        on failure the session is unchanged. The file is only read. */
    method Login(name: string, password: string) returns (ok: bool)
      requires sessionStarted
      modifies this
      ensures ok == LoginAccepted(hash, Load(store.file), name, password)
      ensures ok ==> loggedIn && username == name
      ensures !ok ==> loggedIn == old(loggedIn) && username == old(username)
      ensures sessionStarted == old(sessionStarted)
    {
      var users := store.GetUsers();
      var k := FirstMatch(users, name);
      ok := k.Some? && VerifyPassword(hash, password, users[k.value].password);
      if ok {
        loggedIn := true;
        username := name;
      }
    }

    /** The sign-up form: a rejected sign-up writes nothing; an accepted one appends one
        record to the loaded list and overwrites the file with it. */
    method SignUp(name: string, password: string, confirm: string) returns (error: Option<SignUpError>)
      modifies store
      ensures var d := SignUpDecision(hash, Load(old(store.file)), name, password, confirm);
        && (d.Ok? ==> error == None && store.file == Valid(d.value))
        && (d.Err? ==> error == Some(d.error) && store.file == old(store.file))
    {
      var users := store.GetUsers();
      if password != confirm {
        error := Some(PasswordsMismatch);
      } else if UsernameTaken(users, name) {
        error := Some(UsernameExists);
      } else if name == "" || password == "" {
        error := Some(EmptyCredentials);
      } else {
        var hashed := HashPassword(hash, password);
        users := users + [User(name, hashed, "", "", None)];
        store.SaveUsers(users);
        error := None;
      }
    }

    /** One run of the page: session defaults, then, unless already logged in, the submitted form. */
    method Submit(form: Form) returns (page: Page)
      modifies this, store
      ensures sessionStarted
      ensures old(sessionStarted) && old(loggedIn) ==>
        && page == Welcome(old(username))
        && loggedIn && username == old(username) && store.file == old(store.file)
      ensures !(old(sessionStarted) && old(loggedIn)) ==> match form
        case NotSubmitted =>
          page == Idle && !loggedIn && store.file == old(store.file)
        case LoginForm(n, p) =>
          var ok := LoginAccepted(hash, Load(old(store.file)), n, p);
          && page == (if ok then LoggedIn else InvalidCredentials)
          && loggedIn == ok
          && (ok ==> username == n)
          && store.file == old(store.file)
        case SignUpForm(n, p, c) =>
          var d := SignUpDecision(hash, Load(old(store.file)), n, p, c);
          && !loggedIn
          && (d.Ok? ==> page == SignedUp && store.file == Valid(d.value))
          && (d.Err? ==> page == SignUpRejected(d.error) && store.file == old(store.file))
      ensures !(old(sessionStarted) && old(loggedIn)) && !loggedIn ==>
        username == (if old(sessionStarted) then old(username) else "")
    {
      StartSession();
      if loggedIn {
        page := Welcome(username);
        return;
      }
      match form
      case NotSubmitted =>
        page := Idle;
      case LoginForm(n, p) =>
        var ok := Login(n, p);
        page := if ok then LoggedIn else InvalidCredentials;
      case SignUpForm(n, p, c) =>
        var error := SignUp(n, p, c);
        page := if error.None? then SignedUp else SignUpRejected(error.value);
    }

    /** The logout button: the session is logged out and forgets the username. */
    method Logout()
      modifies this
      ensures sessionStarted && !loggedIn && username == ""
    {
      sessionStarted := true;
      loggedIn := false;
      username := "";
    }
  }

  /** A fresh install: no users file. "bob" signs up, the file then holds exactly his
      record, he logs in, and the next run of the page welcomes him without reading a form.
      After logging out, a login as an unknown user fails and leaves the session logged out. */
  method SignUpLoginScenario(h: Hasher)
  {
    var store := new UsersFile(Missing);
    var app := new App(h, store);
    var page := app.Submit(SignUpForm("bob", "Secret123!", "Secret123!"));
    assert page == SignedUp;
    assert store.file == Valid([User("bob", h("Secret123!"), "", "", None)]);
    var again := app.Submit(SignUpForm("bob", "other", "other"));
    assert again == SignUpRejected(UsernameExists);
    page := app.Submit(LoginForm("bob", "Secret123!"));
    assert page == LoggedIn && app.username == "bob";
    page := app.Submit(LoginForm("eve", "x"));
    assert page == Welcome("bob");
    app.Logout();
    page := app.Submit(LoginForm("eve", "x"));
    assert page == InvalidCredentials && !app.loggedIn && app.username == "";
  }
}
