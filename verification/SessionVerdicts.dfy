/** Who is let in and who is refused, in every session, and what they are told. */
module SessionVerdicts {
  import opened ClientAuth
  import opened Dialogue
  import opened OwnReplies
  import opened Protocols
  import opened SessionRuns
  import opened Text
  import opened Tokenizer
  import Imap4Out
  import ManagesieveOut
  import Pop3Out

  // ----- the server's answer to the login -----

  /** The server accepts the login, said of its bytes `s` from the login on. */
  ghost predicate Accepts(c: Config, s: string, active: bool, plain: bool, sent: Auth, tag: string) {
    match c.protocol
    case Pop3 =>
      var named := LineResponse(s, "+OK");
      named.status == 1 && LineResponse(named.rest, "+OK").status == 1
    case Imap4 =>
      var x := Imap4Out.CapabilityRun(s, 0, tag, "LOGINDISABLED");
      var name := Imap4Out.Response(x.rest, 0, Some(Imap4Out.GO_ON), Imap4Out.OK, true);
      var passwd := Imap4Out.Response(name.rest, 0, Some(Imap4Out.GO_ON), Imap4Out.OK, true);
      x.status == 0 && Imap4Out.Response(passwd.rest, 0, Some(Token(x.tag, Plain)), Imap4Out.OK, true).status == 1
    case Managesieve =>
      var (status, rest) := if active then ManagesieveOut.CapabilityRun(s, c.outLib) else (S_OK, s);
      && (if active then Bit(status, S_SASL_PLAIN) else plain) && c.outLib.encode(sent).Some?
      && LineResponse(rest, "OK").status == 1
  }

  /** out_authenticate succeeds exactly when the server accepts. */
  lemma AcceptanceMeaning(c: Config, s: string, active: bool, plain: bool, sent: Auth, tag: string)
    ensures var d := c.AuthRun(s, active, plain, sent, tag);
            && (d.status == 1 <==> Accepts(c, s, active, plain, sent, tag))
            && d.status <= 3
  {
    hide LineResponse, Imap4Out.CapabilityRun, Imap4Out.Response, ManagesieveOut.CapabilityRun, Bit;
    match c.protocol
    case Pop3 =>
      LineResponseStatus(s, "+OK");
      LineResponseStatus(LineResponse(s, "+OK").rest, "+OK");
      Pop3Out.AuthMeaning(s, sent.user, sent.passwd, tag);
    case Imap4 =>
      Imap4Out.CapabilityMeaning(s, 0, tag, "LOGINDISABLED");
      Imap4Out.AuthMeaning(s, 0, sent.user, sent.passwd, tag);
      var x := Imap4Out.CapabilityRun(s, 0, tag, "LOGINDISABLED");
      var name := Imap4Out.Response(x.rest, 0, Some(Imap4Out.GO_ON), Imap4Out.OK, true);
      var passwd := Imap4Out.Response(name.rest, 0, Some(Imap4Out.GO_ON), Imap4Out.OK, true);
      Imap4Out.ResponseStatus(passwd.rest, 0, Some(Token(x.tag, Plain)), Imap4Out.OK, true);
    case Managesieve =>
      ManagesieveOut.AuthMeaning(s, active, plain, sent, c.outLib, tag);
      LineResponseStatus(if active then ManagesieveOut.CapabilityRun(s, c.outLib).1 else s, "OK");
  }

  /** In every session: a client is let in exactly behind a login the server has accepted,
      and told so; a login it has not accepted is followed by a clean-up, or by the end of
      the process and nothing more. */
  lemma LetInMeaning(c: Config, t: seq<Moment>, i: nat) returns (s: string)
    requires IsSession(c, t) && i < |t| && t[i].event.Authenticated?
    ensures i > 0 && t[i].event.status == c.AuthRun(s, t[i - 1].state.outgoingBit, t[i].event.plain,
                                                    t[i].event.sent, t[i - 1].state.tag).status
    ensures var accepted := Accepts(c, s, t[i - 1].state.outgoingBit, t[i].event.plain, t[i].event.sent,
                                    t[i - 1].state.tag);
            && (i + 1 < |t| && accepted ==> t[i + 1].event == Accepted(c.Line(t[i].state.clientTag, true, c.okLine)))
            && (i + 1 < |t| && !accepted ==> t[i + 1].event.CleanedUp?)
            && (MayExit(c.modes, t[i].event) ==> !accepted)
  {
    hide Config.AuthRun, Config.SetupRun, Config.ClientRun, Config.Line, Accepts, Bit;
    assert i > 0 && Moves(c.modes, t[i - 1], t[i]) && Told(c, t[i - 1], t[i]);
    var a, e := t[i - 1], t[i].event;
    s :| AuthenticatedAs(c, a.state, e.plain, e.sent, s, e.status, e.said, e.told, t[i].state.tag);
    AcceptanceMeaning(c, s, a.state.outgoingBit, e.plain, e.sent, a.state.tag);
    if i + 1 < |t| {
      assert Moves(c.modes, t[i + 1 - 1], t[i + 1]) && Told(c, t[i + 1 - 1], t[i + 1]);
    }
  }

  /** And never otherwise. */
  lemma OnlyTheAcceptedGetIn(c: Config, t: seq<Moment>, i: nat)
    requires IsSession(c, t) && i < |t| && t[i].event.Accepted?
    ensures i > 0 && t[i - 1].event.Authenticated? && i == |t| - 1
  {
    hide Bit, Told;
    assert i > 0 && Moves(c.modes, t[i - 1], t[i]);
    if i + 1 < |t| {
      NothingAfterAccepted(c.modes, t, i);
    }
  }

  // ----- what setup finds -----

  /** The server has, and does not refuse in a way that is noticed, what setup asks for. */
  ghost predicate Announces(c: Config, s: string, tag: string) {
    match c.protocol
    case Pop3 =>
      var first := LineResponse(s, "+OK");
      var capa := LineResponse(first.rest, "+OK");
      && first.status == 1 && Remainder(first.q) != c.greeting && capa.status == 1
      && exists k: nat :: Pop3Out.ListsStls(capa.rest, k)
    case Imap4 =>
      var first := Imap4Out.Response(s, 0, None, Imap4Out.OK, true);
      var diff := Imap4Out.Strcmp(Remainder(first.q), c.greeting);
      var x := Imap4Out.CapabilityRun(first.rest, MAX_LINE_LENGTH, tag, "STARTTLS");
      && first.status == 1 && diff != 0
      && if x.status < 0 then Bit(diff, S_STARTTLS)
         else x.status > 0 && Imap4Out.Response(x.rest, x.n, Some(Token(x.tag, Plain)), Imap4Out.OK, true).status >= 0
    case Managesieve =>
      var (status, rest) := ManagesieveOut.CapabilityRun(s, c.outLib);
      status > 0 && Bit(status, S_STARTTLS) && LineResponse(rest, "OK").status == 1
  }

  /** With TLS wanted, exactly when setup announces it. */
  lemma AnnouncementMeaning(c: Config, s: string, tag: string)
    requires c.modes.tlsOutgoing
    ensures var d := c.SetupRun(s, tag); d.status > 0 && Bit(d.status, S_STARTTLS) <==> Announces(c, s, tag)
  {
    hide LineResponse, Imap4Out.CapabilityRun, Imap4Out.Response, ManagesieveOut.CapabilityRun, Bit, Remainder;
    hide Imap4Out.Strcmp, Pop3Out.ListsStls, Pop3Out.CapaLines;
    BitMeansMore();
    match c.protocol
    case Pop3 => Pop3Out.SetupMeaning(s, c.greeting, true, c.modes.outgoingForce, tag);
    case Imap4 => Imap4Out.SetupMeaning(s, c.greeting, true, c.modes.outgoingForce, tag);
    case Managesieve =>
      ManagesieveOut.SetupMeaning(s, true, c.modes.outgoingForce, c.outLib, tag);
      LineResponseStatus(ManagesieveOut.CapabilityRun(s, c.outLib).1, "OK");
  }

  lemma BitMeansMore()
    ensures forall status :: Bit(status, S_STARTTLS) ==> status > 0
  {
  }

  // ----- what a client is told of a failure -----

  /** In every session: what a failed attempt is called to the client, and whether the server
      is told to quit. */
  lemma FailuresReported(c: Config, t: seq<Moment>, i: nat)
    requires IsSession(c, t) && i + 1 < |t| && t[i + 1].event.CleanedUp?
    ensures var e, said, told := t[i].event, t[i + 1].event.said, t[i + 1].event.told;
            var line := (reason: string) => c.Line(t[i].state.clientTag, false, "failed: " + reason);
            var quit := QuitLine(c, t[i].state.tag);
            match e
            case Asked(_, answer, _) =>
              && answer.LoggedIn? && said == "" && told == line("Login Disabled")
              && (c.modes.loginDisabled || (c.modes.tlsListen && c.modes.listenForce && !t[i].state.listenBit))
            case LookedUp(found, _) =>
              said == "" && told == line(if found then "Could not connect to server"
                                         else "Could not determine server")
            case LocallyChecked(status, before) =>
              && said == "" && status >= 0
              && before == (if status == 0 then c.Line(t[i - 1].state.clientTag, false, c.LocalRefusal()) else "")
              && told == (if status == 0 then "" else line("Could not connect to server"))
            case SetUp(_, status, _, _) =>
              && said == quit
              && told == line(if status == 0 then "Connection Negotiation Failure" else "TLS not present")
              && (status != 0 ==> c.modes.tlsOutgoing && c.modes.outgoingForce && !Bit(status, S_STARTTLS))
            case Authenticated(_, _, _, status, _, _) =>
              && (status == 0 ==> said == quit && told == line("Re-Authentication Failure"))
              && (status == 2 ==> said == "" && told == line("Login Disabled"))
              && (status == 3 ==> said == "" && told == line("SASL mechanism unavailable"))
              && (status == 0 || status == 2 || status == 3)
            case _ => false
  {
    hide Config.AuthRun, Config.SetupRun, Config.ClientRun, Config.Line, Bit, QuitLine;
    assert Moves(c.modes, t[i + 1 - 1], t[i + 1]) && Told(c, t[i + 1 - 1], t[i + 1]);
    if i > 0 {
      assert Told(c, t[i - 1], t[i]);
    }
  }

  // ----- POP3, to the letter -----

  /** A POP3 server that refuses the password, and one that takes it. */
  lemma RefusedPassword(c: Config, active: bool, plain: bool, sent: Auth, tag: string)
    requires c.protocol.Pop3?
    ensures c.AuthRun("+OK" + " " + "go on" + "\r\n" + BAD, active, plain, sent, tag).status == 0
    ensures c.AuthRun("+OK" + " " + "go on" + "\r\n" + WELCOME, active, plain, sent, tag).status == 1
  {
    hide LineResponse;
    Words();
    FirstWordDecides("+OK", "go on", BAD, "+OK");
    FirstWordDecides("+OK", "go on", WELCOME, "+OK");
    BadLine();
    WelcomeLine();
  }

  const BAD := "-ERR bad password\r\n"
  const WELCOME := "+OK welcome\r\n"

  lemma BadLine()
    ensures LineResponse(BAD, "+OK").status == 0
  {
    hide LineResponse;
    Words();
    FirstWordDecides("-ERR", "bad password", "", "+OK");
    assert "-ERR" + " " + "bad password" + "\r\n" + "" == BAD;
  }

  lemma WelcomeLine()
    ensures LineResponse(WELCOME, "+OK").status == 1
  {
    hide LineResponse;
    Words();
    FirstWordDecides("+OK", "welcome", "", "+OK");
    assert "+OK" + " " + "welcome" + "\r\n" + "" == WELCOME;
  }
}
