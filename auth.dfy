/**
 * The client-side session store of the application: a persisted token in
 * browser storage, a startup expiry check, a reducer over LOGIN / LOGOUT
 * actions, and the two mutators `login` and `logout` that keep browser
 * storage and the in-memory state in step.
 */
module Auth {
  import opened Wrappers

  /** The browser storage key under which the raw token is persisted. */
  const TokenKey: string := "jwtToken"
  /** The action types the reducer recognises. */
  const LoginType: string := "LOGIN"
  const LogoutType: string := "LOGOUT"

  /** Browser storage: an origin-scoped map from keys to strings. */
  type Storage = map<string, string>

  /**
   * The decoded payload of a token. `exp` is the numeric coercion of the
   * payload's `exp`, a Unix time in seconds, when that coercion is an integer,
   * and None when it is NaN (absent, a non-numeric string, an object).
   */
  datatype Claims = Claims(username: string, exp: Option<int>)

  /** The response of a successful login, carrying the raw token. */
  datatype UserData = UserData(username: string, token: string)

  /**
   * The user object held in the state: at startup it is the decoded token,
   * after `login` it is the login response itself.
   */
  datatype User = Decoded(claims: Claims) | LoggedIn(data: UserData)

  /**
   * The reducer's state object: `user` (None for null) and `rest`, which
   * stands for every other field the object spread copies.
   */
  datatype State<R> = State(user: Option<User>, rest: R)

  /** A dispatched action: its `type` string and its (possibly absent) payload. */
  datatype Action = Action(kind: string, payload: Option<User>)

  /** `localStorage.getItem(key)`: the stored string, or None for null. */
  function GetItem(storage: Storage, key: string): Option<string>
  {
    if key in storage then Some(storage[key]) else None
  }

  /** JavaScript truthiness of a `getItem` result: null and "" are falsy. */
  predicate Truthy(item: Option<string>)
  {
    item.Some? && item.value != ""
  }

  /**
   * The expiry test of the startup check. It is strict, so `exp * 1000 == now`
   * is valid; without a numeric `exp` the product is NaN and the test is false.
   */
  predicate Expired(claims: Claims, now: int)
  {
    claims.exp.Some? && claims.exp.value * 1000 < now
  }

  /**
   * `authReducer`: LOGIN replaces the user by the payload, LOGOUT clears it,
   * and each keeps every other field; any other type returns the state as is.
   */
  function AuthReducer<R>(state: State<R>, action: Action): (r: State<R>)
    ensures r.rest == state.rest
    ensures action.kind == LoginType ==> r.user == action.payload
    ensures action.kind == LogoutType ==> r.user == None
    ensures action.kind != LoginType && action.kind != LogoutType ==> r == state
  {
    if action.kind == LoginType then state.(user := action.payload)
    else if action.kind == LogoutType then state.(user := None)
    else state
  }

  /** The state after dispatching `actions` in order, as `useReducer` does. */
  function ReduceAll<R>(state: State<R>, actions: seq<Action>): State<R>
    decreases |actions|
  {
    if actions == [] then state
    else ReduceAll(AuthReducer(state, actions[0]), actions[1..])
  }

  /**
   * The user after `actions`, read backwards: the payload of the last LOGIN,
   * None if the last LOGIN / LOGOUT is a LOGOUT, `initial` if there is none.
   */
  function LastUser(initial: Option<User>, actions: seq<Action>): Option<User>
    decreases |actions|
  {
    if actions == [] then initial
    else
      var last := actions[|actions| - 1];
      if last.kind == LoginType then last.payload
      else if last.kind == LogoutType then None
      else LastUser(initial, actions[..|actions| - 1])
  }

  /** Browser storage together with the provider's state. */
  datatype Session = Session(storage: Storage, state: State<()>)

  /**
   * Storage and state are in step: no user means no truthy token, a decoded
   * user means a truthy token, and a logged-in user means its own token.
   */
  predicate Synced(s: Session)
  {
    match s.state.user
    case None => !Truthy(GetItem(s.storage, TokenKey))
    case Some(Decoded(_)) => Truthy(GetItem(s.storage, TokenKey))
    case Some(LoggedIn(data)) => GetItem(s.storage, TokenKey) == Some(data.token)
  }

  /** The state object the provider starts from: `{ user: null }`. */
  const InitialState: State<()> := State(None, ())

  /**
   * The module-level startup check: a truthy stored token is decoded; an
   * expired one is removed from storage, a valid one becomes the user.
   */
  function SessionAtStartup(storage: Storage, now: int, jwtDecode: string -> Claims): (r: Session)
    ensures r.state.rest == ()
    ensures !Truthy(GetItem(storage, TokenKey)) ==> r == Session(storage, InitialState)
    ensures r.state.user.Some? <==>
              Truthy(GetItem(storage, TokenKey)) && !Expired(jwtDecode(storage[TokenKey]), now)
    ensures r.state.user.Some? ==> r.state.user.value == Decoded(jwtDecode(storage[TokenKey]))
    ensures forall c :: r.state.user == Some(Decoded(c)) ==> c.exp.None? || c.exp.value * 1000 >= now
    ensures (Truthy(GetItem(storage, TokenKey)) && jwtDecode(storage[TokenKey]).exp.Some?
             && jwtDecode(storage[TokenKey]).exp.value * 1000 == now) ==> r.state.user.Some?
    ensures (Truthy(GetItem(storage, TokenKey)) && jwtDecode(storage[TokenKey]).exp.None?)
              ==> r.state.user.Some?
    ensures r.storage == if r.state.user.None? && Truthy(GetItem(storage, TokenKey))
                         then storage - {TokenKey} else storage
    ensures forall k :: k != TokenKey ==> GetItem(r.storage, k) == GetItem(storage, k)
    ensures Synced(r)
  {
    if Truthy(GetItem(storage, TokenKey)) then
      var decodedToken := jwtDecode(storage[TokenKey]);
      if Expired(decodedToken, now) then Session(storage - {TokenKey}, InitialState)
      else Session(storage, InitialState.(user := Some(Decoded(decodedToken))))
    else Session(storage, InitialState)
  }

  /** `login(userData)`: persist the token, then dispatch LOGIN with `userData`. */
  function SessionAfterLogin(s: Session, userData: UserData): (r: Session)
    ensures r.state.user == Some(LoggedIn(userData))
    ensures r.state.rest == s.state.rest
    ensures GetItem(r.storage, TokenKey) == Some(userData.token)
    ensures forall k :: k != TokenKey ==> GetItem(r.storage, k) == GetItem(s.storage, k)
    ensures r.storage.Keys == s.storage.Keys + {TokenKey}
    ensures Synced(r)
  {
    var storage := s.storage[TokenKey := userData.token];
    Session(storage, AuthReducer(s.state, Action(LoginType, Some(LoggedIn(userData)))))
  }

  /** `logout()`: remove the token, then dispatch LOGOUT. */
  function SessionAfterLogout(s: Session): (r: Session)
    ensures r.state.user == None
    ensures r.state.rest == s.state.rest
    ensures GetItem(r.storage, TokenKey) == None
    ensures forall k :: k != TokenKey ==> GetItem(r.storage, k) == GetItem(s.storage, k)
    ensures r.storage.Keys == s.storage.Keys - {TokenKey}
    ensures Synced(r)
  {
    var storage := s.storage - {TokenKey};
    Session(storage, AuthReducer(s.state, Action(LogoutType, None)))
  }

  /**
   * `AuthProvider` with the browser storage it shares: `storage` is the
   * origin's `localStorage`, `state` the value `useReducer` holds.
   */
  class AuthProvider {
    var storage: Storage
    var state: State<()>

    /** Storage and state as one value. */
    function Snapshot(): Session
      reads this
    {
      Session(storage, state)
    }

    /**
     * Module load followed by mounting the provider: the startup check runs
     * on `initialState` and storage, and `useReducer` starts from the result.
     */
    constructor (localStorage: Storage, now: int, jwtDecode: string -> Claims)
      ensures Snapshot() == SessionAtStartup(localStorage, now, jwtDecode)
      ensures Synced(Snapshot())
    {
      var items := localStorage;
      var initialState := InitialState;
      if Truthy(GetItem(items, TokenKey)) {
        var decodedToken := jwtDecode(items[TokenKey]);
        if Expired(decodedToken, now) {
          items := items - {TokenKey};
        } else {
          initialState := initialState.(user := Some(Decoded(decodedToken)));
        }
      }
      storage := items;
      state := initialState;
    }

    /** The `login` callback exposed through the context. */
    method Login(userData: UserData)
      modifies this
      ensures Snapshot() == SessionAfterLogin(old(Snapshot()), userData)
      ensures state.user == Some(LoggedIn(userData))
      ensures storage == old(storage)[TokenKey := userData.token]
      ensures Synced(Snapshot())
    {
      storage := storage[TokenKey := userData.token];
      state := AuthReducer(state, Action(LoginType, Some(LoggedIn(userData))));
    }

    /** The `logout` callback exposed through the context. */
    method Logout()
      modifies this
      ensures Snapshot() == SessionAfterLogout(old(Snapshot()))
      ensures state.user == None
      ensures storage == old(storage) - {TokenKey}
      ensures Synced(Snapshot())
    {
      storage := storage - {TokenKey};
      state := AuthReducer(state, Action(LogoutType, None));
    }
  }
}
