/** The main loop of perdition.c as a machine of events, and what holds in every
    run of it whatever client and server do. */
module SessionRuns {
  import opened ClientAuth
  import opened Dialogue
  import opened ImapTag
  import opened Text

  /** The TLS bits of opt.ssl_mode and the switches the loop looks at. A force bit
      is only ever set together with the bit it forces. */
  datatype Modes = Modes(tlsListen: bool, listenForce: bool, tlsOutgoing: bool, outgoingForce: bool,
                         sslListen: bool, sslOutgoing: bool, loginDisabled: bool, authenticateIn: bool)
  {
    predicate Consistent() {
      (listenForce ==> tlsListen) && (outgoingForce ==> tlsOutgoing)
    }

    /** The condition that refuses credentials. */
    predicate Refuses(listenBit: bool) {
      loginDisabled || (tlsListen && listenForce && !listenBit)
    }
  }

  /** The two bits of tls_state, whether each connection is TLS, auth, client_tag, and our_tag. */
  datatype State = State(listenBit: bool, clientTls: bool, outgoingBit: bool, server: Option<bool>, auth: Option<Auth>,
                         clientTag: string, tag: string)
  {
    /** The same but for our_tag. */
    predicate Like(s: State) {
      this.(tag := s.tag) == s
    }
  }

  /** The calls of the loop body. `pending` is what the token buffer held unparsed when
      the call began, `said` what the call wrote to the server and `told` what it wrote to
      the client; of a clean-up, what was written just before it. */
  datatype Event =
    | Greeted(told: string)
    | Asked(pending: string, answer: Answer, told: string)
    | ClientUpgraded
    | LookedUp(found: bool, user: Option<string>)
    | LocallyChecked(status: int, told: string)
    | Connected
    | ServerHandshaken
    | SetUp(pending: string, status: int, said: string, told: string)
    | ServerUpgraded(status: int)
    | Authenticated(pending: string, plain: bool, sent: Auth, status: int, said: string, told: string)
    | Accepted(told: string)
    | CleanedUp(said: string, told: string)

  datatype Moment = Moment(event: Event, state: State)

  /** Where the loop begins another turn. */
  predicate TurnStarts(e: Event) {
    e.Greeted? || e.ClientUpgraded? || e.CleanedUp?
  }

  /** Calls made with credentials in hand. */
  predicate InAttempt(e: Event) {
    || e.LookedUp? || e.LocallyChecked? || e.Connected? || e.ServerHandshaken?
    || e.SetUp? || e.ServerUpgraded? || e.Authenticated?
  }

  predicate Starts(m: Modes, a: Moment) {
    a.event.Greeted? && a.state == State(false, m.sslListen, false, None, None, "", IMAP_TAG_START)
  }

  /** PERDITION_CLEAN_UP_MAIN. */
  function CleanState(s: State): State {
    State(false, s.clientTls, false, None, None, "", s.tag)
  }

  /** How an attempt fails: the reason given to the client, if one is, and whether the
      server is told to quit. */
  datatype Failure = Failure(reason: Option<string>, quits: bool)

  /** The failures after which the loop goes on: after a call that admits going on as well,
      that of the connection not yet made. */
  function FailureOf(m: Modes, a: Moment): Option<Failure> {
    match a.event
    case Asked(_, answer, _) =>
      if answer.LoggedIn? && m.Refuses(a.state.listenBit) then Some(Failure(Some("Login Disabled"), false)) else None
    case LookedUp(found, _) =>
      if !found then Some(Failure(Some("Could not determine server"), false))
      else if m.authenticateIn then None
      else Some(Failure(Some("Could not connect to server"), false))
    case LocallyChecked(status, _) =>
      if status < 0 then None
      else Some(Failure(if status == 0 then None else Some("Could not connect to server"), false))
    case SetUp(_, status, _, _) =>
      if status == 0 then Some(Failure(Some("Connection Negotiation Failure"), true))
      else if status > 0 && m.tlsOutgoing && m.outgoingForce && !Bit(status, S_STARTTLS) then
        Some(Failure(Some("TLS not present"), true))
      else None
    case Authenticated(_, _, _, status, _, _) =>
      if status == 0 then Some(Failure(Some("Re-Authentication Failure"), true))
      else if status == 2 then Some(Failure(Some("Login Disabled"), false))
      else if status == 3 then Some(Failure(Some("SASL mechanism unavailable"), false))
      else None
    case _ => None
  }

  /** A call after which the process may end without having logged in. */
  predicate MayExit(m: Modes, e: Event) {
    match e
    case Asked(_, answer, _) => answer.Failed? || answer.Quitted? || answer.Upgrade?
    case LocallyChecked(status, _) => status < 0
    case Connected => m.sslOutgoing
    case SetUp(_, status, _, _) => status < 0 || (status > 0 && m.tlsOutgoing && Bit(status, S_STARTTLS))
    case Authenticated(_, _, _, status, _, _) => status < 0
    case _ => false
  }

  /** From one call to the next. Those that write to the server may also advance our_tag. */
  ghost predicate Moves(m: Modes, a: Moment, b: Moment) {
    var e, s := a.event, a.state;
    match b.event
    case Greeted(_) => false
    case Asked(pending, answer, _) =>
      && TurnStarts(e) && (e.CleanedUp? || pending == "")
      && (answer.Upgrade? ==> m.tlsListen && !s.clientTls)
      && b.state == if answer.LoggedIn? then s.(auth := Some(answer.auth), clientTag := answer.tag) else s
    case ClientUpgraded =>
      e.Asked? && e.answer.Upgrade? && b.state == s.(listenBit := true, clientTls := true)
    case LookedUp(_, user) =>
      && e.Asked? && e.answer.LoggedIn? && !m.Refuses(s.listenBit) && s.auth.Some?
      && b.state == s.(auth := Some(if user.Some? then s.auth.value.WithId(user.value) else s.auth.value))
    case LocallyChecked(_, _) => e.LookedUp? && e.found && m.authenticateIn && b.state == s
    case Connected =>
      MayConnect(m, e) && b.state == s.(server := Some(false))
    case ServerHandshaken => e.Connected? && m.sslOutgoing && b.state == s.(server := Some(true))
    case SetUp(pending, _, _, _) =>
      (if m.sslOutgoing then e.ServerHandshaken? else e.Connected?) && pending == "" && b.state.Like(s)
    case ServerUpgraded(status) =>
      && e.SetUp? && status == e.status > 0 && m.tlsOutgoing && Bit(status, S_STARTTLS)
      && b.state == s.(outgoingBit := true, server := Some(true))
    case Authenticated(pending, plain, sent, _, _, _) =>
      && MayLogIn(m, e) && plain == Bit(e.status, S_SASL_PLAIN)
      && pending == "" && s.auth.Some? && (exists id :: sent == s.auth.value.WithId(id)) && b.state.Like(s)
    case Accepted(_) => e.Authenticated? && e.status > 0 && e.status != 2 && e.status != 3 && b.state == s
    case CleanedUp(_, _) => FailureOf(m, a).Some? && b.state.Like(CleanState(s))
  }

  /** A server may be asked: it was found and, where that is wanted, the user was accepted
      locally. */
  predicate MayConnect(m: Modes, e: Event) {
    if m.authenticateIn then e.LocallyChecked? && e.status > 0 else e.LookedUp? && e.found
  }

  lemma MovesToAsked(m: Modes, a: Moment, pending: string, answer: Answer, told: string)
    requires TurnStarts(a.event) && (a.event.CleanedUp? || pending == "")
    requires answer.Upgrade? ==> m.tlsListen && !a.state.clientTls
    ensures var s := if answer.LoggedIn? then a.state.(auth := Some(answer.auth), clientTag := answer.tag) else a.state;
            Moves(m, a, Moment(Asked(pending, answer, told), s))
  {
  }

  /** out_authenticate may be called: over TLS just begun, or after a setup that neither
      announced TLS that is wanted nor lacks TLS that is forced. */
  predicate MayLogIn(m: Modes, e: Event) {
    e.ServerUpgraded? || (e.SetUp? && e.status > 0 && !(m.tlsOutgoing && Bit(e.status, S_STARTTLS))
                          && !(m.tlsOutgoing && m.outgoingForce && !Bit(e.status, S_STARTTLS)))
  }

  lemma MovesToAuthenticated(m: Modes, a: Moment, id: string, status: int, said: string, told: string, tag: string)
    requires MayLogIn(m, a.event) && a.state.auth.Some?
    ensures var sent := a.state.auth.value.WithId(id);
            var e := Authenticated("", Bit(a.event.status, S_SASL_PLAIN), sent, status, said, told);
            Moves(m, a, Moment(e, a.state.(tag := tag)))
  {
    hide Bit;
  }

  ghost predicate IsRun(m: Modes, t: seq<Moment>) {
    && t != [] && Starts(m, t[0])
    && forall i | 0 < i < |t| :: Moves(m, t[i - 1], t[i])
  }

  lemma RunGoesOn(m: Modes, t: seq<Moment>, b: Moment)
    requires IsRun(m, t) && Moves(m, t[|t| - 1], b)
    ensures IsRun(m, t + [b])
  {
    var u := t + [b];
    forall i | 0 < i < |u| ensures Moves(m, u[i - 1], u[i]) {
      assert i < |t| ==> u[i] == t[i];
      assert u[i - 1] == t[i - 1];
    }
  }

  // ----- invariants of every run -----

  /** The listen bit of tls_state says the client's connection is TLS, the outgoing
      bit that the server's is; and there is no server outside an attempt. */
  predicate Truthful(m: Modes, a: Moment) {
    var e, s := a.event, a.state;
    && (s.listenBit ==> s.clientTls)
    && (s.outgoingBit ==> s.server == Some(true))
    && (TurnStarts(e) || e.Asked? || e.LookedUp? || e.LocallyChecked? ==> s.server.None?)
    && (e.Connected? || e.ServerHandshaken? || e.SetUp? ==> !s.outgoingBit)
    && (e.ServerHandshaken? || e.ServerUpgraded? ==> s.server == Some(true))
    && (e.Connected? || (e.SetUp? && !m.sslOutgoing) ==> s.server == Some(false))
    && (m.sslListen ==> s.clientTls)
    && (m.sslOutgoing && (e.SetUp? || e.Authenticated?) ==> s.server == Some(true))
  }

  lemma MayLogInOverTls(m: Modes, a: Moment)
    requires Truthful(m, a) && m.Consistent() && MayLogIn(m, a.event) && m.outgoingForce
    ensures a.state.server == Some(true)
  {
    hide Bit;
  }

  lemma {:induction false} BitsAreTruthful(m: Modes, t: seq<Moment>, i: nat)
    requires IsRun(m, t) && i < |t|
    ensures Truthful(m, t[i])
  {
    hide Bit;
    if i > 0 {
      BitsAreTruthful(m, t, i - 1);
      assert Moves(m, t[i - 1], t[i]);
    }
  }

  // ----- TLS to the server -----

  /** With tls_outgoing_force, in every run no credentials are sent before the
      server's connection has been upgraded to TLS, in the same attempt and after
      out_setup announced it: whatever the server said, and however many attempts
      came before and reset tls_state. */
  lemma NoLoginBeforeServerTls(m: Modes, t: seq<Moment>, i: nat)
    requires IsRun(m, t) && i < |t| && t[i].event.Authenticated?
    requires m.tlsOutgoing && m.outgoingForce
    ensures t[i].state.server == Some(true) && t[i].state.outgoingBit
    ensures i >= 2 && t[i - 1].event.ServerUpgraded? && t[i - 2].event.SetUp?
    ensures Bit(t[i - 2].event.status, S_STARTTLS)
  {
    hide Bit;
    assert Moves(m, t[i - 1], t[i]);
    assert i >= 2 ==> Moves(m, t[i - 2], t[i - 1]);
  }

  /** Credentials go out in the clear exactly when there was no TLS from the start and
      none was begun after setup, which force forbids and an announcement prevents. */
  lemma LoginInClear(m: Modes, t: seq<Moment>, i: nat)
    requires IsRun(m, t) && i < |t| && t[i].event.Authenticated?
    ensures i >= 2 && (t[i - 1].event.ServerUpgraded? || t[i - 1].event.SetUp?)
    ensures t[i].state.server == Some(false) <==> !m.sslOutgoing && t[i - 1].event.SetUp?
    ensures t[i - 1].event.SetUp? && m.tlsOutgoing ==> !m.outgoingForce && !Bit(t[i - 1].event.status, S_STARTTLS)
  {
    hide Bit;
    BitsAreTruthful(m, t, i);
    BitsAreTruthful(m, t, i - 1);
    assert Moves(m, t[i - 1], t[i]);
    assert i >= 2 ==> Moves(m, t[i - 2], t[i - 1]);
  }

  // ----- TLS from the client -----

  /** The call of in_get_auth that an attempt goes back to. */
  ghost predicate Origin(m: Modes, t: seq<Moment>, j: nat, i: nat, auth: Auth) {
    && j < i < |t| && t[j].event.Asked? && t[j].event.answer.LoggedIn? && t[j].event.answer.auth == auth
    && (forall k | j < k <= i :: InAttempt(t[k].event))
    && t[j].state.clientTls == t[i].state.clientTls && t[j].state.listenBit == t[i].state.listenBit
    && !m.Refuses(t[i].state.listenBit)
    && t[i].state.auth.Some? && t[i].state.auth.value.passwd == auth.passwd
  }

  /** Every attempt, at every step of it, uses the password that the last call of
      in_get_auth returned, and the connection is still the one it was read from. */
  lemma {:induction false} AttemptsHaveOrigin(m: Modes, t: seq<Moment>, i: nat) returns (j: nat, auth: Auth)
    requires IsRun(m, t) && i < |t| && InAttempt(t[i].event)
    ensures Origin(m, t, j, i, auth)
  {
    hide Bit;
    assert Moves(m, t[i - 1], t[i]);
    if t[i].event.LookedUp? {
      j, auth := i - 1, t[i - 1].event.answer.auth;
      AskedState(m, t, i - 1);
    } else {
      j, auth := AttemptsHaveOrigin(m, t, i - 1);
    }
  }

  lemma AskedState(m: Modes, t: seq<Moment>, i: nat)
    requires IsRun(m, t) && i < |t| && t[i].event.Asked? && t[i].event.answer.LoggedIn?
    ensures t[i].state.auth == Some(t[i].event.answer.auth)
  {
    assert Moves(m, t[i - 1], t[i]);
  }

  /** With tls_listen_force, every credential that reaches the lookup or the server
      was returned by a call of in_get_auth made on the client's TLS connection. */
  lemma CredentialsCameOverTls(m: Modes, t: seq<Moment>, i: nat) returns (j: nat, auth: Auth)
    requires IsRun(m, t) && i < |t| && InAttempt(t[i].event)
    requires m.tlsListen && m.listenForce
    ensures Origin(m, t, j, i, auth) && t[j].state.clientTls && t[j].state.listenBit
    ensures t[i].event.Authenticated? ==> t[i].event.sent.passwd == auth.passwd
  {
    j, auth := AttemptsHaveOrigin(m, t, i);
    BitsAreTruthful(m, t, i);
    assert Moves(m, t[i - 1], t[i]);
  }

  // ----- the listen bit and the connection -----

  /** The clean-up clears the listen bit and keeps the connection: the client's TLS is
      not in the bit exactly where it was there from the start or has outlived a
      clean-up. */
  lemma {:induction false} BitLostByCleanUp(m: Modes, t: seq<Moment>, i: nat)
    requires IsRun(m, t) && i < |t|
    ensures t[i].state.clientTls && !t[i].state.listenBit <==> m.sslListen || OutlivesCleanUp(t, i)
  {
    hide Bit, OutlivesCleanUp;
    BitsAreTruthful(m, t, i);
    if i == 0 {
      FirstOutlivesNothing(m, t);
    } else {
      BitLostByCleanUp(m, t, i - 1);
      BitsAreTruthful(m, t, i - 1);
      assert Moves(m, t[i - 1], t[i]);
      assert i > 1 ==> Moves(m, t[i - 2], t[i - 1]);
      OutlivesStep(t, i);
    }
  }

  /** By moment `i`, a clean-up has been made on a TLS connection. */
  ghost predicate OutlivesCleanUp(t: seq<Moment>, i: nat)
    requires i < |t|
  {
    exists c: nat :: c <= i && t[c].event.CleanedUp? && t[c].state.clientTls
  }

  lemma FirstOutlivesNothing(m: Modes, t: seq<Moment>)
    requires IsRun(m, t)
    ensures !OutlivesCleanUp(t, 0)
  {
  }

  lemma OutlivesStep(t: seq<Moment>, i: nat)
    requires 0 < i < |t|
    ensures OutlivesCleanUp(t, i) <==> OutlivesCleanUp(t, i - 1) || (t[i].event.CleanedUp? && t[i].state.clientTls)
  {
    if OutlivesCleanUp(t, i) {
      var c: nat :| c <= i && t[c].event.CleanedUp? && t[c].state.clientTls;
      assert c == i || c <= i - 1;
    }
  }

  // ----- who is let in -----

  /** No credentials are looked up where login is disabled, or TLS is forced and the listen
      bit clear; a server is asked only for a user who was found and, where that is wanted,
      accepted locally. */
  lemma OnlyAdmitted(m: Modes, t: seq<Moment>, i: nat)
    requires IsRun(m, t) && i < |t| && InAttempt(t[i].event)
    ensures !m.loginDisabled && (m.tlsListen && m.listenForce ==> t[i].state.listenBit)
    ensures t[i].event.Connected? ==> i > 1 && if m.authenticateIn
                                               then t[i - 1].event.LocallyChecked? && t[i - 1].event.status > 0
                                               else t[i - 1].event.LookedUp? && t[i - 1].event.found
  {
    hide Bit;
    assert i > 0 && Moves(m, t[i - 1], t[i]);
    assert i > 1 ==> Moves(m, t[i - 2], t[i - 1]);
    var j, auth := AttemptsHaveOrigin(m, t, i);
  }

  // ----- one attempt under force -----

  lemma {:induction false} StaysTls(m: Modes, t: seq<Moment>, i: nat, k: nat)
    requires IsRun(m, t) && i <= k < |t| && t[i].state.clientTls
    ensures t[k].state.clientTls
    decreases k
  {
    hide Bit;
    if i < k {
      StaysTls(m, t, i, k - 1);
      assert Moves(m, t[k - 1], t[k]);
    }
  }

  lemma {:induction false} BitStaysClear(m: Modes, t: seq<Moment>, i: nat, k: nat)
    requires IsRun(m, t) && i <= k < |t| && t[i].state.clientTls && !t[i].state.listenBit && !t[i].event.Asked?
    ensures !t[k].state.listenBit
    ensures t[k].event.Asked? ==> !t[k].event.answer.Upgrade?
    decreases k
  {
    hide Bit;
    if i < k {
      BitStaysClear(m, t, i, k - 1);
      StaysTls(m, t, i, k - 1);
      assert Moves(m, t[k - 1], t[k]);
    }
  }

  /** From a lookup on, until the clean-up, no second one begins. */
  lemma {:induction false} CleanUpBetween(m: Modes, t: seq<Moment>, i: nat, k: nat) returns (c: nat)
    requires IsRun(m, t) && i < k < |t| && InAttempt(t[i].event) && t[k].event.LookedUp?
    ensures i < c < k && t[c].event.CleanedUp?
    decreases k - i
  {
    hide Bit;
    assert Moves(m, t[i], t[i + 1]) by { assert Moves(m, t[i + 1 - 1], t[i + 1]); }
    if t[i + 1].event.CleanedUp? {
      c := i + 1;
      assert i + 1 != k;
    } else {
      assert i + 1 != k;
      NothingAfterAccepted(m, t, i + 1);
      c := CleanUpBetween(m, t, i + 1, k);
    }
  }

  /** A run in which the client has been let in is over. */
  lemma NothingAfterAccepted(m: Modes, t: seq<Moment>, i: nat)
    requires IsRun(m, t) && i + 1 < |t|
    ensures !t[i].event.Accepted?
  {
    hide Bit;
    assert Moves(m, t[i + 1 - 1], t[i + 1]);
  }

  /** With tls_listen_force a connection gets one attempt: the clean-up clears the
      listen bit, STARTTLS is refused on a connection that is TLS already, and so no
      second set of credentials is ever looked up. */
  lemma OneAttemptUnderForce(m: Modes, t: seq<Moment>, i: nat, k: nat)
    requires IsRun(m, t) && i < k < |t| && t[i].event.LookedUp?
    requires m.tlsListen && m.listenForce
    ensures !t[k].event.LookedUp?
  {
    if t[k].event.LookedUp? {
      var c := CleanUpBetween(m, t, i, k);
      BitsAreTruthful(m, t, i);
      assert Moves(m, t[i - 1], t[i]);
      StaysTls(m, t, i, c);
      assert Moves(m, t[c - 1], t[c]) && Moves(m, t[k - 1], t[k]);
      BitStaysClear(m, t, c, k);
    }
  }

  // ----- what a server is told -----

  /** All that was written to the last connection to a server; TLS is a new one. */
  function Heard(t: seq<Moment>): string {
    if t == [] then "" else HeardAfter(Heard(t[..|t| - 1]), t[|t| - 1].event)
  }

  function HeardAfter(before: string, e: Event): string {
    match e
    case Connected => ""
    case ServerHandshaken => ""
    case ServerUpgraded(_) => ""
    case SetUp(_, _, said, _) => before + said
    case Authenticated(_, _, _, _, said, _) => before + said
    case CleanedUp(said, _) => before + said
    case _ => before
  }

  lemma HeardGoesOn(t: seq<Moment>, b: Moment)
    ensures Heard(t + [b]) == HeardAfter(Heard(t), b.event)
  {
    assert (t + [b])[..|t|] == t;
  }

  /** All that was written to the client on its connection; TLS is a new one. */
  function Shown(t: seq<Moment>): string {
    if t == [] then "" else ShownAfter(Shown(t[..|t| - 1]), t[|t| - 1].event)
  }

  function ShownAfter(before: string, e: Event): string {
    match e
    case Greeted(told) => told
    case ClientUpgraded => ""
    case Asked(_, _, told) => before + told
    case LocallyChecked(_, told) => before + told
    case SetUp(_, _, _, told) => before + told
    case Authenticated(_, _, _, _, _, told) => before + told
    case Accepted(told) => before + told
    case CleanedUp(_, told) => before + told
    case _ => before
  }

  lemma ShownGoesOn(t: seq<Moment>, b: Moment)
    ensures Shown(t + [b]) == ShownAfter(Shown(t), b.event)
  {
    assert (t + [b])[..|t|] == t;
  }

  lemma CleanUpIsHeard(before: string, shown: string, said: string, told: string)
    ensures HeardAfter(before, CleanedUp(said, told)) == before + said
    ensures ShownAfter(shown, CleanedUp(said, told)) == shown + told
  {
  }

  // ----- provenance -----

  /** Nothing parsed before a call is parsed by it: the first call of in_get_auth and
      the one right after the client's upgrade, every out_setup, and every
      out_authenticate begin with the token buffer empty. */
  lemma FreshBuffers(m: Modes, t: seq<Moment>, i: nat)
    requires IsRun(m, t) && 0 < i < |t|
    ensures t[i].event.SetUp? || t[i].event.Authenticated? ==> t[i].event.pending == ""
    ensures t[i].event.Asked? && !t[i - 1].event.CleanedUp? ==> t[i].event.pending == ""
    ensures t[i].event.Asked? && t[i - 1].event.ClientUpgraded? ==> t[i].state.clientTls && t[i].event.pending == ""
  {
    hide Bit;
    assert Moves(m, t[i - 1], t[i]);
    if i > 1 {
      assert Moves(m, t[i - 2], t[i - 1]);
    }
  }
}
