/**
 * Properties that relate several calls of the session store: sequences of
 * dispatches, repeated logout, login followed by logout, and arbitrary runs
 * of the two mutators.
 */
module AuthProperties {
  import opened Wrappers
  import opened Auth

  /** Dispatching one more action continues the fold from where it stood. */
  lemma {:induction false} ReduceAllSnoc<R>(state: State<R>, actions: seq<Action>, a: Action)
    ensures ReduceAll(state, actions + [a]) == AuthReducer(ReduceAll(state, actions), a)
    decreases |actions|
  {
    if actions == [] {
      assert actions + [a] == [a];
    } else {
      assert (actions + [a])[1..] == actions[1..] + [a];
      ReduceAllSnoc(AuthReducer(state, actions[0]), actions[1..], a);
    }
  }

  /**
   * After any sequence of dispatches the user is set by the last LOGIN or
   * LOGOUT (or is the initial one if there is none), and no other field of
   * the state has changed.
   */
  lemma {:induction false} ReduceAllFollowsLastAction<R>(state: State<R>, actions: seq<Action>)
    ensures ReduceAll(state, actions) == State(LastUser(state.user, actions), state.rest)
    decreases |actions|
  {
    if actions != [] {
      var init, last := actions[..|actions| - 1], actions[|actions| - 1];
      assert actions == init + [last];
      ReduceAllSnoc(state, init, last);
      ReduceAllFollowsLastAction(state, init);
    }
  }

  /** Logging out twice leaves storage and state as logging out once. */
  lemma LogoutIdempotent(s: Session)
    ensures SessionAfterLogout(SessionAfterLogout(s)) == SessionAfterLogout(s)
  {
  }

  /** A logout undoes a login completely: nothing of the login survives. */
  lemma LogoutAfterLogin(s: Session, userData: UserData)
    ensures SessionAfterLogout(SessionAfterLogin(s, userData)) == SessionAfterLogout(s)
  {
  }

  /** A second login replaces the first one's token and user. */
  lemma LoginAfterLogin(s: Session, first: UserData, second: UserData)
    ensures SessionAfterLogin(SessionAfterLogin(s, first), second) == SessionAfterLogin(s, second)
  {
  }

  /** A call of one of the two mutators the provider exposes. */
  datatype Call = LoginCall(userData: UserData) | LogoutCall

  function Apply(s: Session, call: Call): Session
  {
    match call
    case LoginCall(userData) => SessionAfterLogin(s, userData)
    case LogoutCall => SessionAfterLogout(s)
  }

  /** The session after the calls in order. */
  function Run(s: Session, calls: seq<Call>): Session
    decreases |calls|
  {
    if calls == [] then s else Run(Apply(s, calls[0]), calls[1..])
  }

  /** No run of login / logout touches a storage key other than the token's. */
  lemma {:induction false} RunKeepsOtherKeys(s: Session, calls: seq<Call>, key: string)
    requires key != TokenKey
    ensures GetItem(Run(s, calls).storage, key) == GetItem(s.storage, key)
    decreases |calls|
  {
    if calls != [] {
      RunKeepsOtherKeys(Apply(s, calls[0]), calls[1..], key);
    }
  }

  /** Storage and state stay in step through any run of login / logout. */
  lemma {:induction false} RunStaysSynced(s: Session, calls: seq<Call>)
    requires Synced(s)
    ensures Synced(Run(s, calls))
    decreases |calls|
  {
    if calls != [] {
      RunStaysSynced(Apply(s, calls[0]), calls[1..]);
    }
  }

  /** Only the startup check yields a decoded user: after any call it is gone. */
  lemma {:induction false} RunDecodedOnlyWithoutCalls(s: Session, calls: seq<Call>)
    requires Run(s, calls).state.user.Some? && Run(s, calls).state.user.value.Decoded?
    ensures calls == [] && Run(s, calls) == s
    decreases |calls|
  {
    if calls != [] {
      RunDecodedOnlyWithoutCalls(Apply(s, calls[0]), calls[1..]);
      assert false;
    }
  }

  /**
   * Startup followed by any run of login / logout keeps storage and state in
   * step, and a decoded user is still there only if no call was made, in which
   * case it is the decoding of the token still stored.
   */
  lemma LifetimeSynced(storage: Storage, now: int, jwtDecode: string -> Claims, calls: seq<Call>)
    ensures Synced(Run(SessionAtStartup(storage, now, jwtDecode), calls))
    ensures forall c :: Run(SessionAtStartup(storage, now, jwtDecode), calls).state.user == Some(Decoded(c))
              ==> calls == [] && TokenKey in storage && c == jwtDecode(storage[TokenKey])
                  && Run(SessionAtStartup(storage, now, jwtDecode), calls).storage == storage
  {
    var start := SessionAtStartup(storage, now, jwtDecode);
    RunStaysSynced(start, calls);
    if Run(start, calls).state.user.Some? && Run(start, calls).state.user.value.Decoded? {
      RunDecodedOnlyWithoutCalls(start, calls);
    }
  }
}
