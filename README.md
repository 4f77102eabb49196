# Session store of the client application

This project models the client-side authentication context of a social
posting web application (`client/src/context/auth.js`). The store keeps
"who is logged in" in step with a raw token persisted in browser storage
under the key `"jwtToken"`. It has three parts:

- the **startup check**. It runs when the module loads. A truthy stored token is decoded and its
  expiry compared with the current time. An expired token is removed from
  storage. A valid one becomes the initial user.
- the **reducer** `authReducer`. `LOGIN` replaces the user by the payload,
  `LOGOUT` clears it, and any other action type leaves the state as it is.
  The first two copy every other field of the state object.
- the **mutators** `login(userData)` and `logout()`. Each writes or removes
  the token in storage, then dispatches the matching action.

Files:

- `wrappers.dfy` holds `Option`, used where the source has `null`.
- `auth.dfy` (module `Auth`) holds the data model and the reducer. It also holds the pure
  session functions `SessionAtStartup`, `SessionAfterLogin` and
  `SessionAfterLogout`, and the class `AuthProvider`. That class has a
  `storage` map field (the browser's `localStorage`) and a `state` field (the
  value `useReducer` holds). Its constructor and its methods `Login` and `Logout` are proved
  against those functions.
- `auth_properties.dfy` (module `AuthProperties`) holds the lemmas that relate
  several calls.

Modelling choices:

- The user object is either the decoded token (after startup) or the login
  response (after `login`): `User = Decoded(Claims) | LoggedIn(UserData)`.
- `jwtDecode` is a parameter `string -> Claims`, and `Date.now()` is an `int`
  parameter in milliseconds.
- An action keeps its `type` string, so every string other than
  `"LOGIN"` and `"LOGOUT"` takes the default branch.
- `State<R>` has a `rest` component. It stands for the other fields the object
  spread copies. The provider's own state has none (`State<()>`), because
  `initialState` is `{ user: null }`.
- The test `if (localStorage.getItem("jwtToken"))` is JavaScript
  truthiness. A stored empty string counts as no token, and it is not
  removed (`Truthy`).
- The expiry test is strict: `exp * 1000 < now`. A token whose `exp * 1000`
  equals `now` is kept as valid.
- `Claims.exp` is the numeric coercion that `exp * 1000` applies to the
  payload's `exp`. An `exp` whose coercion is NaN (absent, a non-numeric
  string, an object) is `None`: the comparison is then false and the token is
  kept as valid at every startup. An `exp` that coerces to a number (`null`,
  `""` and `false` to 0, `true` to 1, a numeric string to its value) is `Some`
  of that value when it is integral, and is compared like any other.
- `jwtDecode` is called outside any try/catch, so a malformed token throws at
  module load. The model has no decode-error path.

## Model

| member | source | states |
|---|---|---|
| `Auth.AuthReducer` | client/src/context/auth.js:29-44 | LOGIN gives exactly the payload as user; LOGOUT gives no user whatever the previous one; both keep every other field; any other type returns the input state unchanged |
| `AuthProperties.ReduceAllFollowsLastAction` | client/src/context/auth.js:29-48 | after any sequence of dispatches the user is the one set by the last LOGIN/LOGOUT (the initial user if there is none), checked against a backwards-reading reference `LastUser`, and the other fields are untouched |
| `Auth.SessionAtStartup` | client/src/context/auth.js:7-20 | no truthy token: user null and storage untouched; a user exists iff the token is truthy and not expired, and it is then the decoded token; `exp * 1000 == now` is kept, and so is an `exp` whose numeric coercion is NaN (absent, a non-numeric string, an object: `None`), while one that coerces to a number (`null`/`""`/`false` to 0, `true` to 1, a numeric string to its value) is `Some` of it when integral and compared; storage loses `"jwtToken"` exactly when a truthy token was expired, and no other key changes; a retained user never has `exp * 1000 < now`; storage and state end in step |
| `Auth.AuthProvider.constructor` | client/src/context/auth.js:7-20 | the imperative startup block leaves storage and initial state equal to `SessionAtStartup` of the original storage, and in step |
| `Auth.SessionAfterLogin` | client/src/context/auth.js:50-56 | storage maps `"jwtToken"` to `userData.token`, no other key changes, the user is exactly `userData`, other state fields are kept, storage and state are in step |
| `Auth.AuthProvider.Login` | client/src/context/auth.js:50-56 | `setItem` then `dispatch(LOGIN)` leaves storage and state equal to `SessionAfterLogin` of the old ones |
| `Auth.SessionAfterLogout` | client/src/context/auth.js:58-61 | `"jwtToken"` is absent from storage, no other key changes, the user is null, other state fields are kept, storage and state are in step |
| `Auth.AuthProvider.Logout` | client/src/context/auth.js:58-61 | `removeItem` then `dispatch(LOGOUT)` leaves storage and state equal to `SessionAfterLogout` of the old ones |
| `AuthProperties.LogoutIdempotent` | client/src/context/auth.js:58-61 | calling logout twice gives the same storage and state as calling it once |
| `AuthProperties.LogoutAfterLogin` | client/src/context/auth.js:50-61 | a logout after a login gives exactly what a logout alone gives |
| `AuthProperties.LoginAfterLogin` | client/src/context/auth.js:50-56 | a second login completely replaces the first one's token and user |
| `AuthProperties.RunKeepsOtherKeys` | client/src/context/auth.js:50-61 | no sequence of login/logout calls changes a storage key other than `"jwtToken"` |
| `AuthProperties.RunStaysSynced` | client/src/context/auth.js:50-61 | storage and state stay in step through any sequence of login/logout calls |
| `AuthProperties.RunDecodedOnlyWithoutCalls` | client/src/context/auth.js:50-61 | after at least one login/logout call the user is never a decoded token: only the startup check puts one there |
| `AuthProperties.LifetimeSynced` | client/src/context/auth.js:7-61 | from startup on, through any sequence of login/logout calls, no user means no truthy token, a decoded user means a truthy token, and a logged-in user means its own token is stored; a decoded user remains only if no call was made, and it is then the decoding of the token still in storage |

## Left out

- `jwtDecode` is a foreign library. The model takes its result as a function parameter
  and treats the token as an opaque string. It does not model decoding, and a decode failure
  (uncaught in the source) has no counterpart.
- `Date.now()` and the real `localStorage` are replaced by an `int` parameter and a
  map field. Storage read and write failures are not modelled, because the source does
  not handle them.
- React plumbing is not modelled. This covers `createContext`, `useReducer`'s subscription and
  re-rendering, and the `AuthContext.Provider` value that exposes `state.user`,
  `login` and `logout` (lines 22-26, 48, 64-69). `dispatch` is modelled as
  assigning the reducer's result.
- The startup block runs once when the module loads. The model runs it when an
  `AuthProvider` is constructed, which is the only place its result is used. So a
  provider mounted a second time in the source starts from the module-load
  `initialState`, while a second model constructor re-reads the storage and the
  clock it is given.
- `null` and `undefined` are not told apart. A LOGIN action without a payload
  sets the user to `None`.
- `exp` after numeric coercion may be fractional. The model takes it as an integer
  number of seconds (`Some`) or NaN (`None`); fractional values are not modelled.
- `client/src/pages/SinglePost.js` is a view component that renders a fetched post and
  sends comment mutations over the network. It holds no session logic and is not
  part of this model.
