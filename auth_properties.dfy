/**
  Properties of the authentication service that relate several calls: what
  an answer does not depend on, and which answers are indistinguishable.
 */
module AuthProperties {
  import opened Wrappers
  import opened GoErrors
  import opened Models
  import Storage
  import opened AuthService

  /** An unknown email and a wrong password for a known one give the caller
      the same token and structurally equal errors (the same text, the same
      unwrap chain and so the same errors.Is answers; Go's two fmt.Errorf
      results are distinct pointers): Login does not reveal which emails are
      registered. */
  lemma LoginUnknownEmailLikeWrongPassword(a: Auth, b: Auth, lib: Crypto, ctx: Context,
                                           email: string, other: string, password: string,
                                           appID: int)
    requires FailsWith(a.usrProvider.user(ctx, email), Storage.ErrUserNotFound)
    requires !FailsWith(b.usrProvider.user(ctx, other), Storage.ErrUserNotFound)
    requires lib.compareHashAndPassword(b.usrProvider.user(ctx, other).value.passHash, password).Some?
    ensures Login(a, lib, ctx, email, password, appID).value
         == Login(b, lib, ctx, other, password, appID).value == ""
    ensures Login(a, lib, ctx, email, password, appID).err
         == Login(b, lib, ctx, other, password, appID).err
  {
  }

  /** A failed lookup whose error is not storage.ErrUserNotFound is ignored:
      Login answers exactly as if the provider had returned the same user with
      a nil error. */
  lemma LoginIgnoresOtherLookupErrors(saver: UserSaver, failing: (Context, string) -> Pair<User>,
                                      healthy: (Context, string) -> Pair<User>,
                                      isAdmin: (Context, Int64) -> Pair<bool>, apps: AppProvider,
                                      ttl: Duration, lib: Crypto, ctx: Context, email: string,
                                      password: string, appID: int, user: User, e: Error)
    requires failing(ctx, email) == Pair(user, Some(e)) && !Is(e, Storage.ErrUserNotFound)
    requires healthy(ctx, email) == Pair(user, None)
    ensures Login(New(saver, UserProvider(failing, isAdmin), apps, ttl), lib, ctx, email, password, appID)
         == Login(New(saver, UserProvider(healthy, isAdmin), apps, ttl), lib, ctx, email, password, appID)
  {
  }

  /** With the zero user a provider returns beside an error, and a hash check
      that rejects the empty hash (as bcrypt does), the ignored lookup error
      again yields invalid credentials, never the lookup error itself. */
  lemma LoginLookupErrorGivesInvalidCredentials(a: Auth, lib: Crypto, ctx: Context, email: string,
                                                password: string, appID: int, e: Error)
    requires a.usrProvider.user(ctx, email) == Pair(ZeroUser, Some(e))
    requires !Is(e, Storage.ErrUserNotFound)
    requires lib.compareHashAndPassword([], password).Some?
    ensures var r := Login(a, lib, ctx, email, password, appID);
      && r.value == ""
      && IsLoginCredentialsError(r.err)
      && (forall t :: Is(r.err.value, t) <==> t == ErrInvalidCredentials)
  {
  }

  /** For an unknown email the answer does not depend on the hash check, the
      app provider or the token issuer: none of them is called. */
  lemma LoginUnknownEmailStopsEarly(saver: UserSaver, users: UserProvider, apps: AppProvider,
                                    otherApps: AppProvider, ttl: Duration, lib: Crypto,
                                    otherLib: Crypto, ctx: Context, email: string,
                                    password: string, appID: int)
    requires FailsWith(users.user(ctx, email), Storage.ErrUserNotFound)
    ensures Login(New(saver, users, apps, ttl), lib, ctx, email, password, appID)
         == Login(New(saver, users, otherApps, ttl), otherLib, ctx, email, password, appID)
  {
  }

  /** For a wrong password the answer does not depend on the app provider or
      the token issuer. */
  lemma LoginWrongPasswordStopsEarly(saver: UserSaver, users: UserProvider, apps: AppProvider,
                                     otherApps: AppProvider, ttl: Duration, lib: Crypto,
                                     otherToken: (User, App, Duration) -> Pair<string>,
                                     ctx: Context, email: string, password: string, appID: int)
    requires !FailsWith(users.user(ctx, email), Storage.ErrUserNotFound)
    requires lib.compareHashAndPassword(users.user(ctx, email).value.passHash, password).Some?
    ensures Login(New(saver, users, apps, ttl), lib, ctx, email, password, appID)
         == Login(New(saver, users, otherApps, ttl), lib.(newToken := otherToken), ctx, email,
                  password, appID)
  {
  }

  /** Login classifies an answer as invalid credentials exactly when the email
      is unknown, the password does not match, or a later collaborator's own
      error already carried that sentinel. */
  lemma LoginInvalidCredentialsExactly(a: Auth, lib: Crypto, ctx: Context, email: string,
                                       password: string, appID: int)
    ensures var r := Login(a, lib, ctx, email, password, appID);
      var found := a.usrProvider.user(ctx, email);
      var app := a.appProvider.app(ctx, appID);
      var token := lib.newToken(found.value, app.value, a.tokenTTL);
      (r.err.Some? && Is(r.err.value, ErrInvalidCredentials)) <==>
        || FailsWith(found, Storage.ErrUserNotFound)
        || lib.compareHashAndPassword(found.value.passHash, password).Some?
        || FailsWith(app, ErrInvalidCredentials)
        || (app.err.None? && FailsWith(token, ErrInvalidCredentials))
  {
  }

  /** Login itself never produces ErrInvalidAppID, not even for an unknown
      app: that classification can only come from a collaborator's error. */
  lemma LoginNeverInventsInvalidAppID(a: Auth, lib: Crypto, ctx: Context, email: string,
                                      password: string, appID: int)
    ensures var r := Login(a, lib, ctx, email, password, appID);
      var app := a.appProvider.app(ctx, appID);
      var token := lib.newToken(a.usrProvider.user(ctx, email).value, app.value, a.tokenTTL);
      r.err.Some? && Is(r.err.value, ErrInvalidAppID) ==>
        FailsWith(app, ErrInvalidAppID) || FailsWith(token, ErrInvalidAppID)
  {
  }

  /** A hashing failure makes the answer independent of the store: SaveUser is not called. */
  lemma RegisterHashFailureSkipsStore(a: Auth, otherSaver: UserSaver, lib: Crypto,
                                      ctx: Context, email: string, pass: string)
    requires lib.generateFromPassword(pass, DefaultCost).err.Some?
    ensures RegisterNewUser(a, lib, ctx, email, pass)
         == RegisterNewUser(a.(usrSaver := otherSaver), lib, ctx, email, pass)
  {
  }

  /** The "user exists" answer is the same whatever else the store's error
      said, as long as it carried storage.ErrUserExist. */
  lemma RegisterDuplicateIsOneAnswer(a: Auth, b: Auth, lib: Crypto, ctx: Context,
                                     email: string, pass: string)
    requires lib.generateFromPassword(pass, DefaultCost).err.None?
    requires FailsWith(a.usrSaver.saveUser(ctx, email, lib.generateFromPassword(pass, DefaultCost).value),
                      Storage.ErrUserExist)
    requires FailsWith(b.usrSaver.saveUser(ctx, email, lib.generateFromPassword(pass, DefaultCost).value),
                      Storage.ErrUserExist)
    ensures RegisterNewUser(a, lib, ctx, email, pass) == RegisterNewUser(b, lib, ctx, email, pass)
  {
  }

  /** IsAdmin's answer to storage.ErrAppNotFound reads exactly like a %w
      wrapping of ErrInvalidAppID, yet errors.Is does not recognise it, while
      the %w wrapping would be recognised. */
  lemma IsAdminInvalidAppIDOnlyInText(a: Auth, ctx: Context, userID: Int64)
    requires FailsWith(a.usrProvider.isAdmin(ctx, userID), Storage.ErrAppNotFound)
    ensures var r := IsAdmin(a, ctx, userID);
      var wrapped := Errorf(IsAdminFn, " : ", W, Root(ErrInvalidAppID));
      && r.err.Some?
      && Message(r.err.value) == Message(wrapped)
      && Is(wrapped, ErrInvalidAppID)
      && !Is(r.err.value, ErrInvalidAppID)
  {
  }

  /** The text a caller sees for an unknown email or a wrong password. */
  lemma LoginCredentialsErrorText(err: Option<Error>)
    requires IsLoginCredentialsError(err)
    ensures Message(err.value) == "auth.Login : invalid credentials"
  {
    assert Message(err.value) == LoginFn + " : " + ErrInvalidCredentials.text;
    SpelledLoginText();
  }

  /** The text a caller sees for a duplicate registration. */
  lemma RegisterDuplicateText(a: Auth, lib: Crypto, ctx: Context, email: string, pass: string)
    requires lib.generateFromPassword(pass, DefaultCost).err.None?
    requires FailsWith(a.usrSaver.saveUser(ctx, email, lib.generateFromPassword(pass, DefaultCost).value),
                      Storage.ErrUserExist)
    ensures var r := RegisterNewUser(a, lib, ctx, email, pass);
      r.err.Some? && Message(r.err.value) == "auth.RegisterNewUser: user exists"
  {
    var r := RegisterNewUser(a, lib, ctx, email, pass);
    assert Message(r.err.value) == RegisterFn + ": " + ErrUserEcists.text;
    SpelledRegisterText();
  }

  /** The text a caller sees when the store reports storage.ErrAppNotFound to IsAdmin. */
  lemma IsAdminAppNotFoundText(a: Auth, ctx: Context, userID: Int64)
    requires FailsWith(a.usrProvider.isAdmin(ctx, userID), Storage.ErrAppNotFound)
    ensures var r := IsAdmin(a, ctx, userID);
      r.err.Some? && Message(r.err.value) == "auth.IsAdmin : invalid appId"
  {
    assert Message(IsAdmin(a, ctx, userID).err.value) == IsAdminFn + " : " + ErrInvalidAppID.text;
    SpelledIsAdminText();
  }

  // The operation tags, separators and sentinel texts spelled out.

  lemma SpelledLoginText()
    ensures LoginFn + " : " + ErrInvalidCredentials.text == "auth.Login : invalid credentials"
  {
  }

  lemma SpelledRegisterText()
    ensures RegisterFn + ": " + ErrUserEcists.text == "auth.RegisterNewUser: user exists"
  {
  }

  lemma SpelledIsAdminText()
    ensures IsAdminFn + " : " + ErrInvalidAppID.text == "auth.IsAdmin : invalid appId"
  {
  }
}
