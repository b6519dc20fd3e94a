# Authentication service of an SSO server, modelled in Dafny

The service in package `auth` offers three operations to the gRPC layer:
`Login` (look a user up by email, check the password against the stored
bcrypt hash, look the target app up, mint a JWT), `RegisterNewUser` (hash the
password, save the user) and `IsAdmin` (ask the store for a user's admin
flag). Their substance is the error-classification policy: which outcome of
which collaborator produces which answer, and which error value comes back.

The model is functional, as the Go code is: each operation is a function from
the service value and the caller's inputs to a `Reply` holding the Go result
pair `(value, err)` and the ordered list of collaborator calls made, so that
"X is not called" can be stated.

- `wrappers.dfy` — `Option`, used for a nil-able error.
- `go_errors.dfy` (module `GoErrors`) — Go errors as the service builds them:
  a sentinel made by `errors.New` (identity kept as the qualified variable
  name), `fmt.Errorf` with `%w` (`Wrapped`: the fn tag, the separator and the
  inner error) and with `%v` (`Formatted`: only the operand's text survives),
  `Error()` as `Message`, `errors.Unwrap`, and `errors.Is` with its meaning
  proved against the unwrap chain.
- `storage.dfy` (module `Storage`) — the three storage sentinels
  `ErrUserExist`, `ErrUserNotFound`, `ErrAppNotFound`.
- `models.dfy` (module `Models`) — `User`, `App`, `int64`, `time.Duration`,
  `context.Context` (an opaque handle).
- `auth.dfy` (module `AuthService`) — the collaborator interfaces
  `UserSaver`, `UserProvider`, `AppProvider` as records of functions, the
  bcrypt and jwt calls as a `Crypto` record, the `Auth` struct, the service
  sentinels `ErrInvalidCredentials`, `ErrInvalidAppID`, `ErrUserEcists`, and
  `New`, `Login`, `RegisterNewUser`, `IsAdmin`.
- `auth_properties.dfy` (module `AuthProperties`) — lemmas relating several
  calls: indistinguishable answers, answers that do not depend on a later
  collaborator, the exact texts callers see.

Every collaborator returns a Go pair: the value it returned and an optional
error. The value returned beside an error is kept, because `Login` goes on
using it (see below).

### Behaviour of the code worth knowing

- `Login` returns early after a failed user lookup only when the error is
  `storage.ErrUserNotFound` (internal/services/auth/auth.go:85-91). Any other
  lookup error is dropped, and the password is checked against the user value
  returned beside it (`AuthProperties.LoginIgnoresOtherLookupErrors`).
- `IsAdmin` renders `ErrInvalidAppID` with `%v`
  (internal/services/auth/auth.go:169). The text reads
  `auth.IsAdmin : invalid appId`, but `errors.Is(err, ErrInvalidAppID)` is
  false (`AuthProperties.IsAdminInvalidAppIDOnlyInText`).
- `Login` never returns the `ErrInvalidAppID` declared at
  internal/services/auth/auth.go:44. For a failed app lookup it wraps the app
  provider's error unchanged (internal/services/auth/auth.go:103;
  `AuthProperties.LoginNeverInventsInvalidAppID`).
- The separators differ: `Login` and `IsAdmin` write `"%s : %w"`,
  `RegisterNewUser` writes `"%s: %w"`. The model keeps both.

## Model

| member | source | states |
|---|---|---|
| GoErrors.Message | internal/services/auth/auth.go:89 | `err.Error()`, the text built by every `fmt.Errorf` of the service (also at auth.go:97, 103, 111, 134, 142, 146, 169, 171): a `%w` wrap ends with the text of the error it wraps |
| GoErrors.Unwrap | internal/services/auth/auth.go:86 | `errors.Unwrap`, the step `errors.Is` takes at auth.go:86, 139 and 166: a `%w` error yields exactly the error it wraps, which is strictly smaller, so the chain is finite; a sentinel and a `%v` rendering yield nil |
| GoErrors.Chain | internal/services/auth/auth.go:139 | the errors `errors.Is` visits at auth.go:86, 139 and 166, starting with the error itself |
| GoErrors.MessageEndsWithChain | internal/services/auth/auth.go:103 | the text of every error on the unwrap chain is a trailing part of the outer error's text, so a wrap such as auth.go:103 never hides what it wraps |
| GoErrors.Is | internal/services/auth/auth.go:86 | `errors.Is(err, target)`, as called at auth.go:86, 139 and 166, holds exactly when the sentinel occurs on err's unwrap chain |
| GoErrors.ChainFollowsUnwrap | internal/services/auth/auth.go:166 | each step of the chain `errors.Is` walks at auth.go:86, 139 and 166 is one `Unwrap`, and the chain ends at an error with nothing to unwrap |
| GoErrors.Errorf | internal/services/auth/auth.go:169-171 | `fmt.Errorf` with a `%w` or `%v` operand: the text is fn, separator, operand text; only `%w` keeps the operand for `Unwrap` and `errors.Is` |
| GoErrors.WrapsKeepsClassification | internal/services/auth/auth.go:103 | an error wrapped with `%w` matches exactly the sentinels its operand matches: the general form, for any error satisfying `Wraps` (such as the app provider's error wrapped at auth.go:103), of `Errorf`'s third ensures |
| AuthService.New | internal/services/auth/auth.go:49-63 | the service holds exactly the given saver, providers and token lifetime |
| AuthService.Login | internal/services/auth/auth.go:69-115 | every error path returns `""`; unknown email gives a wrap of `ErrInvalidCredentials` with only the lookup called; otherwise the password is checked against the hash the provider returned; a mismatch gives the same error and skips the app lookup; an app failure is the provider's error wrapped under `auth.Login`, same classification, no token call; the token is `jwt.NewToken(user, app, tokenTTL)` with a nil error, and its failure is wrapped |
| AuthService.RegisterNewUser | internal/services/auth/auth.go:117-152 | hashes with bcrypt's default cost 10; a hashing failure is wrapped and `SaveUser` is not called; the generated hash is what is saved; `storage.ErrUserExist` becomes a wrap of `ErrUserEcists` that matches nothing else; any other save error is wrapped; on success the store's id is returned unchanged; every error returns 0 |
| AuthService.IsAdmin | internal/services/auth/auth.go:154-177 | only the provider is called; success returns its flag unchanged; every error returns false; `storage.ErrAppNotFound` becomes a `%v` rendering of `ErrInvalidAppID` that unwraps to nothing and matches no sentinel; any other error is wrapped under `auth.IsAdmin` |
| AuthProperties.LoginUnknownEmailLikeWrongPassword | internal/services/auth/auth.go:84-98 | an unknown email and a wrong password return the same token and structurally equal errors: the same text, the same unwrap chain, the same `errors.Is` answers (Go's two `fmt.Errorf` results are distinct pointers) |
| AuthProperties.LoginIgnoresOtherLookupErrors | internal/services/auth/auth.go:84-91 | a lookup error other than `storage.ErrUserNotFound` changes nothing: Login answers as if the same user had come back with a nil error |
| AuthProperties.LoginLookupErrorGivesInvalidCredentials | internal/services/auth/auth.go:85-98 | with the zero user beside the error and a hash check that rejects an empty hash, the answer is `""` and a wrap of `ErrInvalidCredentials` only |
| AuthProperties.LoginUnknownEmailStopsEarly | internal/services/auth/auth.go:84-90 | for an unknown email the answer does not depend on the hash check, the app provider or the token issuer |
| AuthProperties.LoginWrongPasswordStopsEarly | internal/services/auth/auth.go:94-98 | for a wrong password the answer does not depend on the app provider or the token issuer |
| AuthProperties.LoginInvalidCredentialsExactly | internal/services/auth/auth.go:84-112 | Login's error matches `ErrInvalidCredentials` exactly when the email is unknown, the password mismatches, or the app or token error already carried it |
| AuthProperties.LoginNeverInventsInvalidAppID | internal/services/auth/auth.go:101-104 | Login's error matches `ErrInvalidAppID` only if the app provider's or token issuer's error already did |
| AuthProperties.RegisterHashFailureSkipsStore | internal/services/auth/auth.go:131-135 | after a hashing failure the answer does not depend on the user saver |
| AuthProperties.RegisterDuplicateIsOneAnswer | internal/services/auth/auth.go:137-143 | every save error carrying `storage.ErrUserExist` gives the same answer |
| AuthProperties.LoginCredentialsErrorText | internal/services/auth/auth.go:89 | the invalid-credentials error reads `auth.Login : invalid credentials` |
| AuthProperties.RegisterDuplicateText | internal/services/auth/auth.go:142 | the duplicate-user error reads `auth.RegisterNewUser: user exists` |
| AuthProperties.IsAdminAppNotFoundText | internal/services/auth/auth.go:169 | the app-not-found answer of IsAdmin reads `auth.IsAdmin : invalid appId` |
| AuthProperties.IsAdminInvalidAppIDOnlyInText | internal/services/auth/auth.go:166-171 | that answer reads exactly like a `%w` wrap of `ErrInvalidAppID`, which `errors.Is` would recognise, yet `errors.Is` does not recognise it |

## Left out

- Logging: the `slog` logger field and every log call are left out; given a non-nil logger they do not affect any result (a nil logger passed to `New` makes every operation panic at `a.log.With`, before any collaborator is called, which is not modelled).
- bcrypt: salting, the cost factor's effect and constant-time comparison are not modelled; `GenerateFromPassword` and `CompareHashAndPassword` are arbitrary functions in `Crypto`, and the `[]byte(password)` conversion is folded into them.
- jwt.NewToken: the claim layout and the compact signed encoding are not modelled; the package is not part of this model, and the call is an arbitrary function of user, app and lifetime.
- context.Context and time.Duration: cancellation, deadlines and the clock are not modelled; the context is an opaque handle passed to the store calls, the lifetime a number passed to the token issuer.
- The models package (`models.User`, `models.App`) is not part of this model; its fields are taken as id, email and password hash for a user and id, name and secret for an app.
- Go's `int` for the app id is unbounded here; the service does no arithmetic on it.
- errors.Is: error types with their own `Is` or `Unwrap` methods, several `%w` operands and `errors.Join` are not modelled; collaborator errors are built from sentinels, `%w` wraps and `%v` renderings.
- The store, the app registry and their SQL are not modelled, so the register-then-login round trip and "registering twice gives user exists" are not stated for a concrete store; the model states what the service does for each answer a store may give.
- cmd/migrator/main.go (flag parsing and a migration library call) and internal/app/app.go (bootstrap wiring) contain no service logic and are not modelled.
- Concurrency: the operations keep no shared state; concurrent calls are not modelled.
