/**
  The sign-in screen's state machine. The persisted offline-mode flag and the signed-in user are
  read from outside; sign-in attempts report a user id or a failure with an optional message.
 */
module AuthViewModel {
  import opened Optional

  const AnonymousSignInFailed := "Unknown error"
  const GoogleSignInFailed := "Google Sign-in failed"

  datatype AuthState = Loading | Authenticated(userId: string) | Error(message: string) | Anonymous | UnAuthenticated

  /** The published `userState` and the persisted offline-mode preference. */
  datatype AuthModel = AuthModel(userState: AuthState, offline: bool)

  /** What a Firebase sign-in call returns. */
  datatype SignInOutcome = SignedIn(uid: string) | SignInFailed(message: Option<string>)

  /** The state a signed-in user or its absence maps to. */
  function UserStateOf(currentUser: Option<string>): (a: AuthState)
    ensures a.Authenticated? <==> currentUser.Some?
    ensures a.Authenticated? ==> a.userId == currentUser.value
    ensures currentUser.None? ==> a == UnAuthenticated
  {
    match currentUser
    case Some(uid) => Authenticated(uid)
    case None => UnAuthenticated
  }

  /** `init`: the user alone decides the first state; the offline flag is not consulted. */
  function Init(currentUser: Option<string>, offline: bool): (m: AuthModel)
    ensures m.userState == UserStateOf(currentUser) && m.offline == offline
  {
    AuthModel(UserStateOf(currentUser), offline)
  }

  /** The first step of either sign-in: `Loading` is published. */
  function BeginSignIn(m: AuthModel): (r: AuthModel)
    ensures r.userState == Loading && r.offline == m.offline
  {
    m.(userState := Loading)
  }

  /** The last step of either sign-in, with that flow's fallback message. */
  function SettleSignIn(m: AuthModel, outcome: SignInOutcome, fallback: string): (r: AuthModel)
    ensures r.offline == m.offline
    ensures r.userState.Authenticated? <==> outcome.SignedIn?
    ensures outcome.SignedIn? ==> r.userState == Authenticated(outcome.uid)
    ensures outcome.SignInFailed? ==> r.userState == Error(outcome.message.GetOr(fallback))
  {
    match outcome
    case SignedIn(uid) => m.(userState := Authenticated(uid))
    case SignInFailed(message) => m.(userState := Error(message.GetOr(fallback)))
  }

  /** `signInAnonymously`: Loading, then Authenticated or Error ("Unknown error" by default). */
  function SignInAnonymously(m: AuthModel, outcome: SignInOutcome): (r: AuthModel)
    ensures r.offline == m.offline && r.userState != Loading
    ensures outcome.SignedIn? ==> r.userState == Authenticated(outcome.uid)
    ensures outcome == SignInFailed(None) ==> r.userState == Error(AnonymousSignInFailed)
    ensures outcome.SignInFailed? && outcome.message.Some? ==> r.userState == Error(outcome.message.value)
  {
    SettleSignIn(BeginSignIn(m), outcome, AnonymousSignInFailed)
  }

  /**
    `signInWithGoogle(idToken)`: the token only goes to the identity provider, whose answer is
    `outcome`; Loading, then Authenticated or Error ("Google Sign-in failed" by default).
   */
  function SignInWithGoogle(m: AuthModel, idToken: string, outcome: SignInOutcome): (r: AuthModel)
    ensures r.offline == m.offline && r.userState != Loading
    ensures outcome.SignedIn? ==> r.userState == Authenticated(outcome.uid)
    ensures outcome == SignInFailed(None) ==> r.userState == Error(GoogleSignInFailed)
    ensures outcome.SignInFailed? && outcome.message.Some? ==> r.userState == Error(outcome.message.value)
  {
    SettleSignIn(BeginSignIn(m), outcome, GoogleSignInFailed)
  }

  /** `useOfflineMode`: the flag is set and the state becomes Anonymous. */
  function UseOfflineMode(m: AuthModel): (r: AuthModel)
    ensures r.offline && r.userState == Anonymous
  {
    AuthModel(Anonymous, true)
  }

  /** `clearOfflineMode`: the flag is cleared; the published state is not touched. */
  function ClearOfflineMode(m: AuthModel): (r: AuthModel)
    ensures !r.offline && r.userState == m.userState
  {
    m.(offline := false)
  }

  /** `checkInitialState`: offline mode wins over a signed-in user, who wins over nobody. */
  function CheckInitialState(m: AuthModel, currentUser: Option<string>): (r: AuthModel)
    ensures r.offline == m.offline
    ensures m.offline ==> r.userState == Anonymous
    ensures !m.offline ==> r.userState == UserStateOf(currentUser)
  {
    m.(userState := if m.offline then Anonymous else UserStateOf(currentUser))
  }

  /** Both sign-in flows differ only in their fallback message. */
  lemma SignInFlowsAgree(m: AuthModel, idToken: string, outcome: SignInOutcome)
    requires outcome.SignedIn? || outcome.message.Some?
    ensures SignInWithGoogle(m, idToken, outcome) == SignInAnonymously(m, outcome)
  {
  }

  /** The state the initial check derives does not depend on what was published before. */
  lemma CheckInitialStateIgnoresHistory(m1: AuthModel, m2: AuthModel, currentUser: Option<string>)
    requires m1.offline == m2.offline
    ensures CheckInitialState(m1, currentUser) == CheckInitialState(m2, currentUser)
  {
  }

  /** Without offline mode, the initial check agrees with `init`; with it, they differ for a signed-in user. */
  lemma CheckInitialStateVersusInit(currentUser: Option<string>, offline: bool)
    ensures !offline ==> CheckInitialState(Init(currentUser, offline), currentUser) == Init(currentUser, offline)
    ensures offline && currentUser.Some? ==>
      CheckInitialState(Init(currentUser, offline), currentUser).userState != Init(currentUser, offline).userState
  {
  }

  /** Entering and then leaving offline mode clears the flag and keeps Anonymous until the next check. */
  lemma OfflineRoundTrip(m: AuthModel, currentUser: Option<string>)
    ensures ClearOfflineMode(UseOfflineMode(m)) == AuthModel(Anonymous, false)
    ensures CheckInitialState(ClearOfflineMode(UseOfflineMode(m)), currentUser).userState == UserStateOf(currentUser)
  {
  }
}
