/** What the runs of the main loop mean on the wire: what a server without TLS is told,
    and what a client is offered and refused. */
module SessionMeaning {
  import opened CapabilityList
  import opened ClientAuth
  import opened Delimiters
  import opened Dialogue
  import opened ImapTag
  import opened Lines
  import opened Offers
  import opened Protocols
  import opened Refusals
  import opened SessionRuns
  import opened Text
  import opened Tokenizer
  import Imap4In
  import Imap4Out
  import ManagesieveIn
  import ManagesieveOut
  import Pop3In
  import Pop3Out

  // ----- a server without TLS -----

  /** The last connection to a server was in the clear, be it still open or just closed. */
  predicate ServerInClear(t: seq<Moment>)
    requires t != []
  {
    var last := t[|t| - 1];
    || last.state.server == Some(false)
    || (last.event.CleanedUp? && |t| > 1 && t[|t| - 2].state.server == Some(false))
  }

  /** The `m`th tag of the process. */
  function NthTag(m: nat): string { Incs(IMAP_TAG_START, m) }

  /** One round of setup with the `m`th tag, and then nothing, or the quit command with one
      of the next two tags or the same: nothing that depends on the client. */
  ghost predicate SetupAndQuit(c: Config, heard: string, m: nat, k: nat, setup: string, quit: string) {
    && heard == setup + quit && SetupLine(c, NthTag(m), setup)
    && k <= 2 && (quit == "" || quit == QuitLine(c, NthTag(m + k)))
  }

  ghost predicate NothingPrivate(c: Config, heard: string) {
    exists m: nat, k: nat, setup, quit :: SetupAndQuit(c, heard, m, k, setup, quit)
  }

  lemma SetupTags(c: Config, s: string, tag: string)
    ensures c.SetupRun(s, tag).tag in [tag, Inc(tag), Inc(Inc(tag))]
  {
    hide Imap4Out.Response, LineResponse, Pop3Out.CapaLines, ManagesieveOut.CapabilityRun, Inc, Bit, Imap4Out.Say;
    hide Imap4Out.Mentions, Imap4Out.Strcmp, Remainder;
  }

  lemma AuthTags(c: Config, s: string, active: bool, plain: bool, auth: Auth, tag: string)
    ensures c.AuthRun(s, active, plain, auth, tag).tag in [tag, Inc(tag), Inc(Inc(tag))]
  {
    hide Imap4Out.Response, LineResponse, ManagesieveOut.CapabilityRun, Inc, Bit, Imap4Out.Say, Imap4Out.LoginLines;
    hide Imap4Out.Mentions;
  }

  /** From one call to the next, our_tag is advanced by at most two. */
  lemma NextTag(c: Config, a: Moment, b: Moment)
    requires Moves(c.modes, a, b) && Told(c, a, b)
    ensures b.state.tag in [a.state.tag, Inc(a.state.tag), Inc(Inc(a.state.tag))]
  {
    hide Config.SetupRun, Config.AuthRun, Config.ClientRun, Config.Line, Inc, QuitLine, Bit, AskedAs, FailureOf;
    var st, next := a.state, b.state.tag;
    match b.event
    case SetUp(_, status, said, told) =>
      var s :| SetUpAs(c, st, s, status, said, told, next);
      SetupTags(c, s, a.state.tag);
    case Authenticated(_, plain, sent, status, said, told) =>
      var s :| AuthenticatedAs(c, st, plain, sent, s, status, said, told, next);
      AuthTags(c, s, st.outgoingBit, plain, sent, a.state.tag);
    case _ =>
  }

  /** In every run the tag that is next is one of the sequence that begins with the first,
      at most two behind the one before. */
  lemma {:induction false} TagsInOrder(c: Config, t: seq<Moment>, i: nat) returns (m: nat, k: nat)
    requires IsSession(c, t) && i < |t|
    ensures t[i].state.tag == NthTag(m) && k <= 2 && k <= m
    ensures i > 0 ==> t[i - 1].state.tag == NthTag(m - k)
  {
    hide Moves, Told, Inc;
    if i == 0 {
      m, k := 0, 0;
    } else {
      var m', _ := TagsInOrder(c, t, i - 1);
      assert Moves(c.modes, t[i - 1], t[i]) && Told(c, t[i - 1], t[i]);
      NextTag(c, t[i - 1], t[i]);
      var tag := t[i - 1].state.tag;
      k := if t[i].state.tag == tag then 0 else if t[i].state.tag == Inc(tag) then 1 else 2;
      assert NthTag(m' + 1) == Inc(tag) && NthTag(m' + 2) == Inc(Inc(tag));
      m := m' + k;
      assert t[i - 1].state.tag == NthTag(m - k);
    }
  }

  /** With tls_outgoing_force, whatever client, server and network do, all that a server
      without TLS ever hears on a connection is at most one round of setup and one quit. */
  lemma ClearServerHearsNothing(c: Config, t: seq<Moment>)
    requires IsSession(c, t) && ServerInClear(t) && c.modes.tlsOutgoing && c.modes.outgoingForce
    ensures NothingPrivate(c, Heard(t))
  {
    hide Bit, Told, NothingPrivate, Config.SetupRun, Config.AuthRun, SetupLine, QuitLine, Heard, Inc;
    var n := |t| - 1;
    if t[n].event.CleanedUp? && n > 0 && t[n - 1].state.server == Some(false) {
      ClearQuit(c, t);
    } else {
      var m, k := ClearSetup(c, t);
      assert Heard(t) + "" == Heard(t);
      assert SetupAndQuit(c, Heard(t), m, k, Heard(t), "");
      PartOfPrivate(c, Heard(t), m, k, Heard(t), "");
    }
  }

  lemma PartOfPrivate(c: Config, heard: string, m: nat, k: nat, setup: string, quit: string)
    requires SetupAndQuit(c, heard, m, k, setup, quit)
    ensures NothingPrivate(c, heard)
  {
  }

  /** While the connection is open: setup was called with the `m`th tag, if it was called,
      and the next is the `m + k`th. */
  lemma ClearSetup(c: Config, t: seq<Moment>) returns (m: nat, k: nat)
    requires IsSession(c, t) && c.modes.tlsOutgoing && c.modes.outgoingForce
    requires t[|t| - 1].state.server == Some(false)
    ensures k <= 2 && SetupLine(c, NthTag(m), Heard(t)) && t[|t| - 1].state.tag == NthTag(m + k)
  {
    hide Bit, Told, Config.SetupRun, Config.AuthRun, SetupLine, QuitLine, Heard, Inc;
    var n := |t| - 1;
    OpenInClear(c, t);
    HeardLast(t);
    m, k := TagsInOrder(c, t, n);
    if t[n].event.Connected? {
      k := 0;
      NoSetup(c, NthTag(m));
    } else {
      assert Told(c, t[n - 1], t[n]);
      m := m - k;
      SetupIsTold(c, t[n - 1], t[n]);
      HeardLast(t[..n]);
      assert "" + t[n].event.said == t[n].event.said;
    }
  }

  lemma NoSetup(c: Config, tag: string)
    ensures SetupLine(c, tag, "")
  {
  }

  lemma OpenInClear(c: Config, t: seq<Moment>)
    requires IsSession(c, t) && c.modes.tlsOutgoing && c.modes.outgoingForce
    requires t[|t| - 1].state.server == Some(false)
    ensures t[|t| - 1].event.Connected? ||
            (|t| > 1 && t[|t| - 1].event.SetUp? && t[|t| - 2].event.Connected?)
  {
    hide Bit, Told, Config.SetupRun, Config.AuthRun;
    var n := |t| - 1;
    BitsAreTruthful(c.modes, t, n);
    assert n > 0 ==> Moves(c.modes, t[n - 1], t[n]);
    if t[n].event.Authenticated? {
      NoLoginBeforeServerTls(c.modes, t, n);
    } else if t[n].event.Accepted? {
      NoLoginBeforeServerTls(c.modes, t, n - 1);
    }
    if t[n].event.SetUp? {
      BitsAreTruthful(c.modes, t, n - 1);
    }
  }

  lemma HeardLast(t: seq<Moment>)
    requires t != []
    ensures Heard(t) == HeardAfter(Heard(t[..|t| - 1]), t[|t| - 1].event)
  {
  }

  lemma SetupIsTold(c: Config, a: Moment, b: Moment)
    requires Told(c, a, b) && b.event.SetUp?
    ensures SetupLine(c, a.state.tag, b.event.said)
  {
    hide SetupLine, Config.SetupRun;
    var s :| SetUpAs(c, a.state, s, b.event.status, b.event.said, b.event.told, b.state.tag);
    SetupSaysOnly(c, s, a.state.tag);
  }

  /** And when it is closed. */
  lemma ClearQuit(c: Config, t: seq<Moment>)
    requires IsSession(c, t) && c.modes.tlsOutgoing && c.modes.outgoingForce
    requires |t| > 1 && t[|t| - 1].event.CleanedUp? && t[|t| - 2].state.server == Some(false)
    ensures NothingPrivate(c, Heard(t))
  {
    hide Bit, NothingPrivate, Config.SetupRun, Config.AuthRun, SetupLine, QuitLine, Heard, Moves, Inc, Told;
    var n := |t| - 1;
    assert IsSession(c, t[..n]) by { PrefixIsSession(c, t); }
    var m, k := ClearSetup(c, t[..n]);
    HeardLast(t);
    assert Told(c, t[n - 1], t[n]);
    QuitIsTold(c, t[n - 1], t[n]);
    PartOfPrivate(c, Heard(t), m, k, Heard(t[..n]), t[n].event.said);
  }

  lemma QuitIsTold(c: Config, a: Moment, b: Moment)
    requires Told(c, a, b) && b.event.CleanedUp?
    ensures b.event.said == "" || b.event.said == QuitLine(c, a.state.tag)
  {
    hide Config.Line, QuitLine, FailureOf;
  }

  lemma PrefixIsSession(c: Config, t: seq<Moment>)
    requires IsSession(c, t) && |t| > 1
    ensures IsSession(c, t[..|t| - 1])
  {
    hide Moves, Told;
  }

  // ----- STARTTLS offered and refused -----

  /** STARTTLS, or STLS, is an element of the capability a client is shown, `active` being
      the listen bit of tls_state. */
  predicate Lists(c: Config, active: bool) {
    var m := c.modes;
    match c.protocol
    case Pop3 => STLS in Pop3Lines(c.capability, m.tlsListen && !active)
    case Imap4 =>
      STARTTLS in ImapOffer(Fields(c.capability, ' '), m.tlsListen, m.listenForce, active, m.loginDisabled)
    case Managesieve => QUOTED_STARTTLS in ManagesieveLines(c.capability, m.tlsListen && !active)
  }

  /** The configured list can show it, as all can but some that are delimited by two spaces. */
  predicate Shows(c: Config) {
    match c.protocol
    case Pop3 => Pop3Shows(c.capability)
    case Imap4 => true
    case Managesieve => ManagesieveShows(c.capability)
  }

  /** It is listed exactly while TLS is offered and the listen bit is clear. */
  lemma ListsMeaning(c: Config, active: bool)
    requires c.Valid()
    ensures Lists(c, active) <==> c.modes.tlsListen && !active && Shows(c)
  {
    hide Pop3Lines, ManagesieveLines, ImapOffer, Fields, Pop3Shows, ManagesieveShows, Reachable;
    var m := c.modes;
    var on := m.tlsListen && !active;
    match c.protocol
    case Pop3 =>
      StillConfigured(c.capability, Pop3Delimiter(c.capability), STLS, m.tlsListen);
      DelimiterIs(c.capability);
      Pop3CapabilityMeaning(c.capability, on);
    case Imap4 => ImapOfferMeaning(Fields(c.capability, ' '), m.tlsListen, m.listenForce, active, m.loginDisabled);
    case Managesieve =>
      StillConfigured(c.capability, MANAGESIEVE_DELIMITER, QUOTED_STARTTLS, m.tlsListen);
      ManagesieveCapabilityMeaning(c.capability, on);
  }

  /** The line by which a client takes up the offer. */
  function UpgradeLine(c: Config): string {
    match c.protocol
    case Pop3 => "STLS" + CRLF
    case Imap4 => "a STARTTLS" + CRLF
    case Managesieve => "STARTTLS" + CRLF
  }

  predicate Obeyed(c: Config, tail: string, ssl: bool, active: bool) {
    c.ClientRun(UpgradeLine(c) + tail, ssl, active).answer == Upgrade
  }

  /** It is obeyed exactly where TLS is offered and the connection is not TLS. */
  lemma ObeyedMeaning(c: Config, tail: string, ssl: bool, active: bool)
    ensures Obeyed(c, tail, ssl, active) <==> c.modes.tlsListen && !ssl
  {
    hide Config.ClientRun, UpgradeLine;
    ClientRunMeaning(c, UpgradeLine(c) + tail, ssl, active);
    if c.modes.tlsListen && !ssl {
      match c.protocol
      case Pop3 => Pop3Obeys(c, tail, active);
      case Imap4 => ImapObeys(c, tail, active);
      case Managesieve => ManagesieveObeys(c, tail, active);
    }
  }

  lemma Pop3Obeys(c: Config, tail: string, active: bool)
    requires c.protocol.Pop3? && c.modes.tlsListen
    ensures Obeyed(c, tail, false, active)
  {
    hide ScanLine, Pop3Reply, Pop3In.GetAuthRun, Pop3In.Act;
    assert Wordlike("STLS");
    Pop3Word("STLS", "STLS" + CRLF, tail);
    var capability := Pop3Reply(c.capability, !active);
    Pop3In.GetAuthStep("STLS" + CRLF + tail, None, true, false, capability);
    Pop3ActObeys(capability);
  }

  lemma Pop3ActObeys(capability: string)
    ensures Pop3In.Act([Token("STLS", Eol)], None, true, false, capability).turn == Pop3In.StartTls
  {
    hide Pop3In.Ok, Pop3In.Err, Pop3In.Invalid, SameIgnoringCase;
    Same("STLS");
    Pop3In.CommandsDiffer(Token("STLS", Eol));
  }

  lemma ImapObeys(c: Config, tail: string, active: bool)
    requires c.protocol.Imap4? && c.modes.tlsListen
    ensures Obeyed(c, tail, false, active)
  {
    hide ScanLine, Imap4In.Advertised, Imap4In.GetAuthRun, Imap4In.Say, Imap4In.LoginCommand, Imap4In.Act;
    var line := "a STARTTLS" + CRLF;
    SplitWords("a", "STARTTLS");
    assert "a STARTTLS" == "a" + " " + "STARTTLS";
    Imap4Words("a STARTTLS", line, ["a", "STARTTLS"], tail, 0);
    var m := c.modes;
    var capability := Imap4In.Advertised(c.capability, true, m.listenForce, active, m.loginDisabled);
    Imap4In.GetAuthStep(line + tail, true, false, capability);
    ImapActObeys(tail, capability);
  }

  lemma ImapActObeys(s: string, capability: string)
    ensures Imap4In.Act(Marked(["a", "STARTTLS"]), s, true, false, capability).answer == Some(Upgrade)
  {
    hide Imap4In.Say, Imap4In.LoginCommand;
    assert Marked(["a", "STARTTLS"]) == [Token("a", Plain), Token("STARTTLS", Eol)];
    var q := Marked(["a", "STARTTLS"]);
    assert q[2..] == [];
    assert ValidTag("a");
    assert !Is(q[1], "LOGIN") && !Is(q[1], "NOOP") && Is(q[1], "STARTTLS");
  }

  lemma ManagesieveObeys(c: Config, tail: string, active: bool)
    requires c.protocol.Managesieve? && c.modes.tlsListen
    ensures Obeyed(c, tail, false, active)
  {
    hide ScanLine, ManagesieveReply, ManagesieveIn.LoopRun, ManagesieveIn.CapabilityMessage, ManagesieveIn.Act;
    var line := "STARTTLS" + CRLF;
    assert Wordlike("STARTTLS");
    OneWord("STARTTLS");
    Imap4Words("STARTTLS", line, ["STARTTLS"], tail, 0);
    var capability := ManagesieveReply(c.capability, !active);
    ManagesieveIn.LoopStep(line + tail, true, false, capability, c.inLib);
    ManagesieveActObeys(tail, capability, c.inLib);
  }

  lemma ManagesieveActObeys(s: string, capability: string, lib: ManagesieveIn.Library)
    ensures var q := Marked(["STARTTLS"]);
            |q| == 1 && ManagesieveIn.Act(q[0], q[1..], s, true, false, capability, lib).answer == Some(Upgrade)
  {
    hide ManagesieveIn.Authenticate, ManagesieveIn.Noop, ManagesieveIn.Ok, ManagesieveIn.No;
    assert Marked(["STARTTLS"]) == [Token("STARTTLS", Eol)];
    var t := Token("STARTTLS", Eol);
    assert !Is(t, "AUTHENTICATE") && !Is(t, "CAPABILITY") && !Is(t, "LOGOUT") && !Is(t, "NOOP") && Is(t, "STARTTLS");
  }

  /** At any moment of any run, STARTTLS is on offer and would be refused exactly where TLS
      is offered, in a list that can show it, on a connection that was TLS from the start
      or whose TLS has outlived a clean-up; and in such a list it is on offer wherever it
      would be obeyed. */
  lemma OfferedAndRefused(c: Config, t: seq<Moment>, i: nat, tail: string)
    requires c.Valid() && IsRun(c.modes, t) && i < |t|
    ensures var s := t[i].state;
            && (Lists(c, s.listenBit) && !Obeyed(c, tail, s.clientTls, s.listenBit) <==>
                  c.modes.tlsListen && Shows(c) && (c.modes.sslListen || OutlivesCleanUp(t, i)))
            && (Obeyed(c, tail, s.clientTls, s.listenBit) ==> (Lists(c, s.listenBit) <==> Shows(c)))
  {
    hide Lists, Obeyed, OutlivesCleanUp, Bit, Shows, Config.Valid;
    var s := t[i].state;
    ListsMeaning(c, s.listenBit);
    ObeyedMeaning(c, tail, s.clientTls, s.listenBit);
    BitLostByCleanUp(c.modes, t, i);
    BitsAreTruthful(c.modes, t, i);
  }

  /** A client that begins TLS, logs in with the bytes `login` and is told that no server
      could be determined. */
  function RefusedRun(c: Config, login: string): seq<Moment> {
    var up, run := c.ClientRun(UpgradeLine(c), false, false), c.ClientRun(login, true, true);
    var clear := State(false, false, false, None, None, "", IMAP_TAG_START);
    var tls := State(true, true, false, None, None, "", IMAP_TAG_START);
    var known := if run.answer.LoggedIn? then tls.(auth := Some(run.answer.auth), clientTag := run.answer.tag) else tls;
    [Moment(Greeted(""), clear), Moment(Asked("", up.answer, up.said), clear), Moment(ClientUpgraded, tls),
     Moment(Asked("", run.answer, run.said), known), Moment(LookedUp(false, None), known),
     Moment(CleanedUp("", c.Line(known.clientTag, false, "failed: " + "Could not determine server")), CleanState(tls))]
  }

  /** It happens: wherever TLS is offered on connections in the clear, to every client that
      begins TLS and logs in. */
  lemma OfferedAndRefusedRun(c: Config, login: string, tail: string)
    requires c.Valid() && Shows(c) && c.modes.tlsListen && !c.modes.sslListen && !c.modes.loginDisabled
    requires c.ClientRun(login, true, true).answer.LoggedIn?
    ensures var t := RefusedRun(c, login);
            IsSession(c, t) && Lists(c, t[5].state.listenBit)
            && !Obeyed(c, tail, t[5].state.clientTls, t[5].state.listenBit)
  {
    hide Lists, Obeyed, Bit, Shows, Config.Valid, Config.SetupRun, Config.AuthRun, Config.ClientRun, QuitLine;
    hide Config.Line, UpgradeLine;
    var t := RefusedRun(c, login);
    RefusedMoves(c, login);
    RefusedTold(c, login);
    assert t[5].event.CleanedUp? && t[5].state.clientTls;
    OfferedAndRefused(c, t, 5, tail);
  }

  lemma Upgrades(c: Config)
    requires c.modes.tlsListen
    ensures c.ClientRun(UpgradeLine(c), false, false).answer == Upgrade
  {
    hide Config.ClientRun, UpgradeLine;
    ObeyedMeaning(c, "", false, false);
    assert UpgradeLine(c) + "" == UpgradeLine(c);
  }

  lemma RefusedMoves(c: Config, login: string)
    requires c.modes.tlsListen && !c.modes.sslListen && !c.modes.loginDisabled
    requires c.ClientRun(login, true, true).answer.LoggedIn?
    ensures IsRun(c.modes, RefusedRun(c, login))
  {
    hide Bit, Config.ClientRun, Config.Line, UpgradeLine;
    Upgrades(c);
    var t := RefusedRun(c, login);
    ClientRunMeaning(c, login, true, true);
    forall i | 0 < i < |t| ensures Moves(c.modes, t[i - 1], t[i]) {
    }
  }

  lemma RefusedTold(c: Config, login: string)
    requires c.ClientRun(login, true, true).answer.LoggedIn?
    ensures var t := RefusedRun(c, login); forall i | 0 < i < |t| :: Told(c, t[i - 1], t[i])
  {
    hide Bit, Config.ClientRun, Config.Line, UpgradeLine, Config.SetupRun, Config.AuthRun, QuitLine;
    var t := RefusedRun(c, login);
    assert "" + UpgradeLine(c) == UpgradeLine(c) && "" + login == login;
    assert AskedAs(c, t[0].state, "" + UpgradeLine(c), t[1].event.answer, t[1].event.told);
    assert AskedAs(c, t[2].state, "" + login, t[3].event.answer, t[3].event.told);
    assert Told(c, t[0], t[1]);
    assert Told(c, t[2], t[3]);
    assert FailureOf(c.modes, t[4]) == Some(Failure(Some("Could not determine server"), false));
    assert Told(c, t[4], t[5]);
    forall i | 0 < i < |t| ensures Told(c, t[i - 1], t[i]) {
    }
  }
}
