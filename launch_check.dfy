/** The launch screen's session check (`checkAuthState` of `IndexScreen`):
    probe the identity provider up to three times and send the user either to
    the home screen or to sign-in. The provider calls are an oracle: each call
    made is answered by the matching field of an `Oracle`, and everything the
    check does that can be observed is recorded as an `Effect`. */
module LaunchCheck {

  /** What one `fetchAuthSession()` call gives: a session, with or without an
      id token, or a thrown error. */
  datatype SessionFetch = Session(hasIdToken: bool) | FetchThrows

  /** What `getCurrentUser()` does: return normally or throw. */
  datatype UserLookup = UserReturned | UserThrows

  /** The answers to the calls the check may make, in the order it makes them. */
  datatype Oracle = Oracle(firstFetch: SessionFetch, secondFetch: SessionFetch, currentUser: UserLookup)

  /** The two destinations passed to `router.replace`. */
  datatype Route = Home | SignIn

  /** What the check does that can be observed from outside. */
  datatype Effect =
    | FetchAuthSession
    | Delay(ms: nat)
    | GetCurrentUser
    | Replace(route: Route)

  /** The pause before the single retry of the session fetch. */
  const RetryDelayMs: nat := 200

  /** The routes navigated to, in order. */
  function Navigations(t: seq<Effect>): (routes: seq<Route>)
    ensures forall r :: r in routes <==> Replace(r) in t
  {
    if t == [] then []
    else if t[0].Replace? then [t[0].route] + Navigations(t[1..])
    else Navigations(t[1..])
  }

  lemma {:induction false} NavigationsConcat(a: seq<Effect>, b: seq<Effect>)
    ensures Navigations(a + b) == Navigations(a) + Navigations(b)
  {
    if a == [] {
      assert a + b == b;
    } else {
      assert (a + b)[0] == a[0];
      assert (a + b)[1..] == a[1..] + b;
      NavigationsConcat(a[1..], b);
    }
  }

  /** The whole observable run of `checkAuthState` for the given answers: the
      calls made, the delay, and the `router.replace` calls. */
  function LaunchTrace(o: Oracle): (t: seq<Effect>)
    ensures |t| >= 2 && t[0] == FetchAuthSession && t[|t| - 1].Replace?
  {
    match o.firstFetch
    case FetchThrows => [FetchAuthSession, Replace(SignIn)]
    case Session(true) => [FetchAuthSession, Replace(Home)]
    case Session(false) =>
      var retry := [FetchAuthSession, Delay(RetryDelayMs), FetchAuthSession];
      match o.secondFetch
      case FetchThrows => retry + [Replace(SignIn)]
      case Session(true) => retry + [Replace(Home)]
      case Session(false) =>
        match o.currentUser
        case UserReturned => retry + [GetCurrentUser, Replace(Home)]
        case UserThrows => retry + [GetCurrentUser, Replace(SignIn)]
  }

  /** Where the check sends the user: the route of its last effect. */
  function Destination(o: Oracle): Route {
    LaunchTrace(o)[|LaunchTrace(o)| - 1].route
  }

  // ---------------------------------------------------------------------
  // An independent reading of the decision: three probes in a row
  // ---------------------------------------------------------------------

  /** What one probe tells the check: a proof of a session, nothing yet, or a failure. */
  datatype Verdict = Succeeded | Missed | Failed

  function FetchVerdict(f: SessionFetch): Verdict {
    match f
    case Session(hasIdToken) => if hasIdToken then Succeeded else Missed
    case FetchThrows => Failed
  }

  /** The probes in the order the check tries them: two session fetches, then `getCurrentUser`. */
  function Verdicts(o: Oracle): seq<Verdict> {
    [FetchVerdict(o.firstFetch), FetchVerdict(o.secondFetch),
     if o.currentUser.UserReturned? then Succeeded else Failed]
  }

  /** Probe `k` is the first one that does not come back empty-handed. */
  predicate DecidedAt(vs: seq<Verdict>, k: int) {
    0 <= k < |vs| && vs[k] != Missed && forall j :: 0 <= j < k ==> vs[j] == Missed
  }

  /** The call that carries out probe `k`. */
  function ProbeCall(k: nat): Effect {
    if k < 2 then FetchAuthSession else GetCurrentUser
  }

  /** The calls made when probe `k` decides: probes 0..k, with the delay before the retry. */
  function CallsThrough(k: nat): seq<Effect>
    requires k < 3
  {
    if k == 0 then [ProbeCall(0)]
    else CallsThrough(k - 1) + (if k == 1 then [Delay(RetryDelayMs)] else []) + [ProbeCall(k)]
  }

  /** Exactly one probe decides: the last probe, `getCurrentUser`, can only succeed or fail. */
  lemma SomeProbeDecides(o: Oracle) returns (k: nat)
    ensures DecidedAt(Verdicts(o), k)
    ensures forall j :: DecidedAt(Verdicts(o), j) ==> j == k
  {
    var vs := Verdicts(o);
    if vs[0] != Missed {
      k := 0;
    } else if vs[1] != Missed {
      k := 1;
    } else {
      k := 2;
    }
  }

  /** The check makes the calls of probes 0..k for the deciding probe k, then
      navigates once: home if that probe succeeded, sign-in if it failed. */
  lemma TraceFollowsDecidingProbe(o: Oracle, k: nat)
    requires DecidedAt(Verdicts(o), k)
    ensures LaunchTrace(o) ==
              CallsThrough(k) + [Replace(if Verdicts(o)[k] == Succeeded then Home else SignIn)]
  {
    assert CallsThrough(1) == [FetchAuthSession, Delay(RetryDelayMs), FetchAuthSession];
  }

  /** Home exactly when some probe succeeded before any probe failed. */
  lemma HomeIffProbeSucceededFirst(o: Oracle)
    ensures Destination(o) == Home <==>
              exists k :: DecidedAt(Verdicts(o), k) && Verdicts(o)[k] == Succeeded
  {
    var k := SomeProbeDecides(o);
    TraceFollowsDecidingProbe(o, k);
  }

  /** A failed call, whichever it is, sends the user to sign-in. */
  lemma FailureRoutesToSignIn(o: Oracle, k: nat)
    requires DecidedAt(Verdicts(o), k) && Verdicts(o)[k] == Failed
    ensures Destination(o) == SignIn
  {
    TraceFollowsDecidingProbe(o, k);
  }

  // ---------------------------------------------------------------------
  // Properties of the run
  // ---------------------------------------------------------------------

  /** A first fetch with an id token goes home at once, with no further call. */
  lemma FirstTokenGoesHome(o: Oracle)
    requires o.firstFetch == Session(true)
    ensures LaunchTrace(o) == [FetchAuthSession, Replace(Home)]
  {
  }

  /** At most two session fetches; the second, preceded by the 200 ms delay,
      happens exactly when the first returned a session without an id token. */
  lemma RetryOnlyAfterFirstMiss(o: Oracle)
    ensures multiset(LaunchTrace(o))[FetchAuthSession] <= 2
    ensures multiset(LaunchTrace(o))[FetchAuthSession] == 2 <==> o.firstFetch == Session(false)
    ensures Delay(RetryDelayMs) in LaunchTrace(o) <==> o.firstFetch == Session(false)
    ensures o.firstFetch == Session(false) ==>
              LaunchTrace(o)[..3] == [FetchAuthSession, Delay(RetryDelayMs), FetchAuthSession]
  {
  }

  /** `getCurrentUser` is called at most once, only after two fetches without
      an id token, and its normal return sends the user home. */
  lemma UserLookupOnlyAfterTwoMisses(o: Oracle)
    ensures multiset(LaunchTrace(o))[GetCurrentUser] <= 1
    ensures GetCurrentUser in LaunchTrace(o) <==>
              o.firstFetch == Session(false) && o.secondFetch == Session(false)
    ensures GetCurrentUser in LaunchTrace(o) && o.currentUser == UserReturned ==> Destination(o) == Home
  {
  }

  /** Every run navigates exactly once, as its last step, to `Destination(o)`. */
  lemma ExactlyOneNavigation(o: Oracle)
    ensures Navigations(LaunchTrace(o)) == [Destination(o)]
  {
    var k := SomeProbeDecides(o);
    TraceFollowsDecidingProbe(o, k);
    var t := LaunchTrace(o);
    CallsNavigateNowhere(k);
    NavigationsConcat(CallsThrough(k), [t[|t| - 1]]);
  }

  /** The probe calls and the delay never navigate. */
  lemma {:induction false} CallsNavigateNowhere(k: nat)
    requires k < 3
    ensures Navigations(CallsThrough(k)) == []
  {
    if k > 0 {
      CallsNavigateNowhere(k - 1);
      var pause: seq<Effect> := if k == 1 then [Delay(RetryDelayMs)] else [];
      NavigationsConcat(CallsThrough(k - 1), pause);
      NavigationsConcat(CallsThrough(k - 1) + pause, [ProbeCall(k)]);
    }
  }

  // ---------------------------------------------------------------------
  // The screen and its check
  // ---------------------------------------------------------------------

  /** The launch screen: the `isLoading` state and everything the check has done so far. */
  class IndexScreen {
    var isLoading: bool
    var effects: seq<Effect>

    /** First render: `useState(true)`, nothing done yet. */
    constructor ()
      ensures isLoading && effects == []
    {
      isLoading := true;
      effects := [];
    }

    /** `checkAuthState`, with its try/catch/finally written out: `thrown`
        says the try block raised, `returned` that it left by `return`. */
    method CheckAuthState(o: Oracle)
      modifies this
      ensures !isLoading
      ensures effects == old(effects) + LaunchTrace(o)
    {
      var didNavigate := false;
      var thrown := false;
      var returned := false;
      // try
      effects := effects + [FetchAuthSession];
      match o.firstFetch {
        case FetchThrows =>
          thrown := true;
        case Session(hasIdToken) =>
          if hasIdToken {
            didNavigate := true;
            effects := effects + [Replace(Home)];
            returned := true;
          }
      }
      if !thrown && !returned {
        effects := effects + [Delay(RetryDelayMs)];
        effects := effects + [FetchAuthSession];
        match o.secondFetch {
          case FetchThrows =>
            thrown := true;
          case Session(hasIdToken) =>
            if hasIdToken {
              didNavigate := true;
              effects := effects + [Replace(Home)];
              returned := true;
            }
        }
      }
      if !thrown && !returned {
        effects := effects + [GetCurrentUser];
        if o.currentUser == UserThrows {
          thrown := true;
        } else {
          didNavigate := true;
          effects := effects + [Replace(Home)];
        }
      }
      // catch
      if thrown {
        didNavigate := true;
        effects := effects + [Replace(SignIn)];
      }
      // finally: the safety net, which no path leaves anything to do for
      assert didNavigate;
      effects := effects + (if didNavigate then [] else [Replace(SignIn)]);
      isLoading := false;
    }
  }
}
