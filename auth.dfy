/**
  The authentication service of package auth: Login, RegisterNewUser and
  IsAdmin, each a straight chain of collaborator calls whose outcomes decide
  the value returned and the error classification.
 */
module AuthService {
  import opened Wrappers
  import opened GoErrors
  import opened Models
  import Storage

  /** A Go (value, error) pair returned by a collaborator; err == None is a nil error. */
  datatype Pair<T> = Pair(value: T, err: Option<Error>)

  /** A collaborator invocation, with the arguments it was given. */
  datatype Call =
    | UserCall(ctx: Context, email: string)
    | CompareCall(hash: Bytes, password: string)
    | AppCall(ctx: Context, appID: int)
    | NewTokenCall(user: User, app: App, ttl: Duration)
    | GenerateCall(password: string, cost: int)
    | SaveUserCall(ctx: Context, email: string, passHash: Bytes)
    | IsAdminCall(ctx: Context, userID: Int64)

  /** What an operation returns to its caller, and the collaborator calls it made, in order. */
  datatype Reply<T> = Reply(value: T, err: Option<Error>, calls: seq<Call>)

  datatype UserSaver = UserSaver(saveUser: (Context, string, Bytes) -> Pair<Int64>)

  datatype UserProvider = UserProvider(
    user: (Context, string) -> Pair<User>,
    isAdmin: (Context, Int64) -> Pair<bool>)

  datatype AppProvider = AppProvider(app: (Context, int) -> Pair<App>)

  /** The library calls the service makes: bcrypt's GenerateFromPassword and
      CompareHashAndPassword (nil error on a match) and jwt.NewToken. */
  datatype Crypto = Crypto(
    generateFromPassword: (string, int) -> Pair<Bytes>,
    compareHashAndPassword: (Bytes, string) -> Option<Error>,
    newToken: (User, App, Duration) -> Pair<string>)

  /** The Auth struct; its fields are set once by New and never changed. */
  datatype Auth = Auth(
    usrSaver: UserSaver,
    usrProvider: UserProvider,
    appProvider: AppProvider,
    tokenTTL: Duration)

  const ErrInvalidCredentials := Sentinel("auth.ErrInvalidCredentials", "invalid credentials")
  const ErrInvalidAppID := Sentinel("auth.ErrInvalidAppID", "invalid appId")
  const ErrUserEcists := Sentinel("auth.ErrUserEcists", "user exists")

  /** bcrypt.DefaultCost */
  const DefaultCost := 10

  const LoginFn := "auth.Login"
  const RegisterFn := "auth.RegisterNewUser"
  const IsAdminFn := "auth.IsAdmin"

  /** New builds a service over exactly the given collaborators and token lifetime. */
  function New(userSaver: UserSaver, userProvider: UserProvider, appProvider: AppProvider,
               tokenTTL: Duration): (a: Auth)
    ensures a.usrSaver == userSaver && a.usrProvider == userProvider
    ensures a.appProvider == appProvider && a.tokenTTL == tokenTTL
  {
    Auth(userSaver, userProvider, appProvider, tokenTTL)
  }

  /** The pair's error carries the sentinel on its unwrap chain. */
  predicate FailsWith<T>(p: Pair<T>, sentinel: Sentinel)
  {
    p.err.Some? && Is(p.err.value, sentinel)
  }

  /** The error Login returns for an unknown email and for a wrong password alike. */
  predicate IsLoginCredentialsError(err: Option<Error>)
  {
    err.Some? && Wraps(err.value, LoginFn + " : ", Root(ErrInvalidCredentials))
  }

  /**
    Login: look the user up by email, check the password against the stored
    hash, look the app up, then mint a token. A lookup error other than
    storage.ErrUserNotFound does not return: the password is then checked
    against the user value the provider returned beside the error.
   */
  function Login(a: Auth, lib: Crypto, ctx: Context, email: string, password: string,
                 appID: int): (r: Reply<string>)
    // every error path returns the empty token; the user lookup always comes first
    ensures r.err.Some? ==> r.value == ""
    ensures |r.calls| >= 1 && r.calls[0] == UserCall(ctx, email)
    // unknown email: invalid credentials, nothing else called
    ensures var found := a.usrProvider.user(ctx, email);
      FailsWith(found, Storage.ErrUserNotFound) ==>
        && IsLoginCredentialsError(r.err)
        && r.calls == [UserCall(ctx, email)]
    // otherwise the password is checked against the hash the provider returned, error or not
    ensures var found := a.usrProvider.user(ctx, email);
      !FailsWith(found, Storage.ErrUserNotFound) ==>
        |r.calls| >= 2 && r.calls[1] == CompareCall(found.value.passHash, password)
    // wrong password: the same error as an unknown email, the app is not looked up
    ensures var found := a.usrProvider.user(ctx, email);
      && !FailsWith(found, Storage.ErrUserNotFound)
      && lib.compareHashAndPassword(found.value.passHash, password).Some? ==>
        && IsLoginCredentialsError(r.err)
        && r.calls == [UserCall(ctx, email), CompareCall(found.value.passHash, password)]
    // app lookup failure: the provider's error wrapped unchanged, no token minted
    ensures var found := a.usrProvider.user(ctx, email);
      var app := a.appProvider.app(ctx, appID);
      && !FailsWith(found, Storage.ErrUserNotFound)
      && lib.compareHashAndPassword(found.value.passHash, password).None?
      && app.err.Some? ==>
        && r.err.Some? && Wraps(r.err.value, LoginFn + " : ", app.err.value)
        && (forall t :: Is(r.err.value, t) <==> Is(app.err.value, t))
        && r.calls == [UserCall(ctx, email), CompareCall(found.value.passHash, password),
                       AppCall(ctx, appID)]
    // token failure and success: the token is jwt.NewToken(user, app, tokenTTL)
    ensures var found := a.usrProvider.user(ctx, email);
      var app := a.appProvider.app(ctx, appID);
      var token := lib.newToken(found.value, app.value, a.tokenTTL);
      && !FailsWith(found, Storage.ErrUserNotFound)
      && lib.compareHashAndPassword(found.value.passHash, password).None?
      && app.err.None? ==>
        && r.calls == [UserCall(ctx, email), CompareCall(found.value.passHash, password),
                       AppCall(ctx, appID), NewTokenCall(found.value, app.value, a.tokenTTL)]
        && (token.err.Some? ==> r.err.Some? && Wraps(r.err.value, LoginFn + " : ", token.err.value))
        && (token.err.None? ==> r.value == token.value && r.err == None)
  {
    var found := a.usrProvider.user(ctx, email);
    if found.err.Some? && Is(found.err.value, Storage.ErrUserNotFound) then
      Reply("", Some(Errorf(LoginFn, " : ", W, Root(ErrInvalidCredentials))),
            [UserCall(ctx, email)])
    else
      var user := found.value;
      if lib.compareHashAndPassword(user.passHash, password).Some? then
        Reply("", Some(Errorf(LoginFn, " : ", W, Root(ErrInvalidCredentials))),
              [UserCall(ctx, email), CompareCall(user.passHash, password)])
      else
        var app := a.appProvider.app(ctx, appID);
        if app.err.Some? then
          Reply("", Some(Errorf(LoginFn, " : ", W, app.err.value)),
                [UserCall(ctx, email), CompareCall(user.passHash, password), AppCall(ctx, appID)])
        else
          var token := lib.newToken(user, app.value, a.tokenTTL);
          var issued := [UserCall(ctx, email), CompareCall(user.passHash, password),
                         AppCall(ctx, appID), NewTokenCall(user, app.value, a.tokenTTL)];
          if token.err.Some? then
            Reply("", Some(Errorf(LoginFn, " : ", W, token.err.value)), issued)
          else
            Reply(token.value, None, issued)
  }

  /**
    RegisterNewUser: hash the password with bcrypt's default cost and save the
    user; the store's "already exists" becomes ErrUserEcists.
   */
  function RegisterNewUser(a: Auth, lib: Crypto, ctx: Context, email: string,
                           pass: string): (r: Reply<Int64>)
    ensures r.err.Some? ==> r.value == 0
    ensures |r.calls| >= 1 && r.calls[0] == GenerateCall(pass, DefaultCost)
    // hashing failure: wrapped, and the user is never saved
    ensures var hashed := lib.generateFromPassword(pass, DefaultCost);
      hashed.err.Some? ==>
        && r.err.Some? && Wraps(r.err.value, RegisterFn + ": ", hashed.err.value)
        && r.calls == [GenerateCall(pass, DefaultCost)]
    // otherwise the generated hash is what is saved
    ensures var hashed := lib.generateFromPassword(pass, DefaultCost);
      hashed.err.None? ==>
        r.calls == [GenerateCall(pass, DefaultCost), SaveUserCall(ctx, email, hashed.value)]
    // duplicate user: ErrUserEcists, and the storage sentinel no longer matches
    ensures var hashed := lib.generateFromPassword(pass, DefaultCost);
      var saved := a.usrSaver.saveUser(ctx, email, hashed.value);
      hashed.err.None? && FailsWith(saved, Storage.ErrUserExist) ==>
        && r.err.Some? && Wraps(r.err.value, RegisterFn + ": ", Root(ErrUserEcists))
        && (forall t :: Is(r.err.value, t) <==> t == ErrUserEcists)
    // any other save failure: wrapped unchanged
    ensures var hashed := lib.generateFromPassword(pass, DefaultCost);
      var saved := a.usrSaver.saveUser(ctx, email, hashed.value);
      hashed.err.None? && saved.err.Some? && !Is(saved.err.value, Storage.ErrUserExist) ==>
        r.err.Some? && Wraps(r.err.value, RegisterFn + ": ", saved.err.value)
    // success: the id the store assigned, unchanged
    ensures var hashed := lib.generateFromPassword(pass, DefaultCost);
      var saved := a.usrSaver.saveUser(ctx, email, hashed.value);
      hashed.err.None? && saved.err.None? ==> r.value == saved.value && r.err == None
  {
    var hashed := lib.generateFromPassword(pass, DefaultCost);
    var generated := [GenerateCall(pass, DefaultCost)];
    if hashed.err.Some? then
      Reply(0, Some(Errorf(RegisterFn, ": ", W, hashed.err.value)), generated)
    else
      var saved := a.usrSaver.saveUser(ctx, email, hashed.value);
      var stored := generated + [SaveUserCall(ctx, email, hashed.value)];
      if saved.err.Some? then
        if Is(saved.err.value, Storage.ErrUserExist) then
          Reply(0, Some(Errorf(RegisterFn, ": ", W, Root(ErrUserEcists))), stored)
        else
          Reply(0, Some(Errorf(RegisterFn, ": ", W, saved.err.value)), stored)
      else
        Reply(saved.value, None, stored)
  }

  /**
    IsAdmin: ask the user provider for the admin flag. The store's
    "app not found" is reported as ErrInvalidAppID formatted with %v, so the
    returned error matches no sentinel at all.
   */
  function IsAdmin(a: Auth, ctx: Context, userID: Int64): (r: Reply<bool>)
    ensures r.calls == [IsAdminCall(ctx, userID)]
    ensures r.err.Some? ==> !r.value
    ensures var answer := a.usrProvider.isAdmin(ctx, userID);
      answer.err.None? ==> r.value == answer.value && r.err == None
    ensures var answer := a.usrProvider.isAdmin(ctx, userID);
      FailsWith(answer, Storage.ErrAppNotFound) ==>
        && r.err.Some? && Unwrap(r.err.value) == None
        && Message(r.err.value) == IsAdminFn + " : " + ErrInvalidAppID.text
        && (forall t :: !Is(r.err.value, t))
    ensures var answer := a.usrProvider.isAdmin(ctx, userID);
      answer.err.Some? && !Is(answer.err.value, Storage.ErrAppNotFound) ==>
        r.err.Some? && Wraps(r.err.value, IsAdminFn + " : ", answer.err.value)
  {
    var answer := a.usrProvider.isAdmin(ctx, userID);
    var asked := [IsAdminCall(ctx, userID)];
    if answer.err.Some? then
      if Is(answer.err.value, Storage.ErrAppNotFound) then
        Reply(false, Some(Errorf(IsAdminFn, " : ", V, Root(ErrInvalidAppID))), asked)
      else
        Reply(false, Some(Errorf(IsAdminFn, " : ", W, answer.err.value)), asked)
    else
      Reply(answer.value, None, asked)
  }
}
