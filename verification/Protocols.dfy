/** The function pointers of protocol_t.h, for each of the three protocols. */
module Protocols {
  import opened ClientAuth
  import opened Delimiters
  import opened Dialogue
  import opened ImapTag
  import opened Offers
  import opened SessionRuns
  import opened Text
  import opened Tokenizer
  import Imap4In
  import Imap4Out
  import ManagesieveIn
  import ManagesieveOut
  import Pop3In
  import Pop3Out

  datatype Protocol = Pop3 | Imap4 | Managesieve

  /** The options the loop and the protocols look at; `greeting` is the banner by
      which perdition knows itself, `mangle` is username_mangle for the remote login. */
  datatype Config = Config(protocol: Protocol, modes: Modes, capability: string, greeting: string, okLine: string,
                           inLib: ManagesieveIn.Library, outLib: ManagesieveOut.Library, mangle: string -> string)
  {
    predicate Valid() {
      && modes.Consistent()
      && match protocol
         case Pop3 => Pop3Configured(capability, modes.tlsListen)
         case Imap4 => Imap4In.Configured(capability)
         case Managesieve => ManagesieveConfigured(capability, modes.tlsListen)
    }

    /** The line of protocol->write_str for one of protocol->type. */
    function Line(tag: string, good: bool, text: string): string {
      match protocol
      case Pop3 => if good then Pop3In.Ok(text) else Pop3In.Err(text)
      case Imap4 => Imap4In.Say(tag, if good then "OK" else "NO", text)
      case Managesieve => if good then ManagesieveIn.Ok(text) else ManagesieveIn.No(text)
    }

    /** What protocol->in_authenticate tells a user it refuses; ManageSieve's never gets there. */
    function LocalRefusal(): string {
      match protocol
      case Pop3 => "Authentication failure, mate"
      case Imap4 => "Authentication failure"
      case Managesieve => ""
    }

    /** protocol->in_get_auth on the input `s`. */
    function ClientRun(s: string, ssl: bool, active: bool): ClientAuth.Run {
      match protocol
      case Pop3 =>
        Pop3In.GetAuthRun(s, None, modes.tlsListen, ssl, Pop3Reply(capability, modes.tlsListen && !active))
      case Imap4 =>
        Imap4In.GetAuthRun(s, modes.tlsListen, ssl,
                           Imap4In.Advertised(capability, modes.tlsListen, modes.listenForce, active,
                                              modes.loginDisabled))
      case Managesieve =>
        ManagesieveIn.GetAuthRun(s, modes.tlsListen, ssl, active,
                                 ManagesieveReply(capability, modes.tlsListen && !active), inLib)
    }

    /** protocol->out_setup on the server's input `s`. It is given no credentials. */
    function SetupRun(s: string, tag: string): Dialogue {
      match protocol
      case Pop3 => Pop3Out.SetupRun(s, greeting, modes.tlsOutgoing, modes.outgoingForce, tag)
      case Imap4 => Imap4Out.SetupRun(s, greeting, modes.tlsOutgoing, modes.outgoingForce, tag)
      case Managesieve => ManagesieveOut.SetupRun(s, modes.tlsOutgoing, modes.outgoingForce, outLib, tag)
    }

    /** protocol->out_authenticate on the server's input `s`. */
    function AuthRun(s: string, active: bool, plain: bool, auth: Auth, tag: string): Dialogue {
      match protocol
      case Pop3 => Pop3Out.AuthRun(s, auth.user, auth.passwd, tag)
      case Imap4 => Imap4Out.AuthRun(s, 0, auth.user, auth.passwd, tag)
      case Managesieve => ManagesieveOut.AuthRun(s, active, plain, auth, outLib, tag)
    }
  }

  /** What quit writes to the server, and what is left to read behind the reply. */
  function QuitLine(c: Config, tag: string): string {
    match c.protocol
    case Pop3 => "QUIT" + CRLF
    case Imap4 => tag + " LOGOUT" + CRLF
    case Managesieve => "LOGOUT" + CRLF
  }

  function QuitRest(c: Config, s: string, tag: string): string {
    match c.protocol
    case Pop3 => LineResponse(s, "+OK").rest
    case Imap4 => Imap4Out.Response(s, 0, Some(Token(tag, Plain)), Imap4Out.OK, false).rest
    case Managesieve => LineResponse(s, "OK").rest
  }

  /** The tag after quit. */
  function QuitTag(c: Config, tag: string): string {
    if c.protocol.Imap4? then Inc(tag) else tag
  }

  /** What every in_get_auth keeps: TLS is begun only where it is on offer and not in
      use, and an answer takes input. */
  lemma ClientRunMeaning(c: Config, s: string, ssl: bool, active: bool)
    ensures var run := c.ClientRun(s, ssl, active);
            && (run.answer.Upgrade? ==> c.modes.tlsListen && !ssl)
            && (!run.answer.Failed? ==> |run.rest| < |s|)
  {
    hide Pop3In.GetAuthRun, Imap4In.GetAuthRun, ManagesieveIn.LoopRun;
    match c.protocol
    case Pop3 =>
      Pop3In.UpgradeOnlyInClear(s, None, c.modes.tlsListen, ssl,
                                Pop3Reply(c.capability, c.modes.tlsListen && !active));
    case Imap4 =>
      Imap4In.UpgradeOnlyInClear(s, c.modes.tlsListen, ssl,
                                 Imap4In.Advertised(c.capability, c.modes.tlsListen, c.modes.listenForce, active,
                                                    c.modes.loginDisabled));
    case Managesieve =>
      ManagesieveIn.UpgradeOnlyInClear(s, c.modes.tlsListen, ssl,
                                       ManagesieveReply(c.capability, c.modes.tlsListen && !active), c.inLib);
  }

  /** All that out_setup can send, whatever the server says: requests for its
      capability and for TLS, the same for every user, and nothing at all where TLS
      is not wanted. */
  predicate SetupLine(c: Config, tag: string, said: string) {
    || said == ""
    || (c.modes.tlsOutgoing &&
        match c.protocol
        case Pop3 => said == "CAPA" + CRLF || said == "CAPA" + CRLF + "STLS" + CRLF
        case Imap4 =>
          var capability := Imap4In.Say(tag, "CAPABILITY", "");
          || said == capability
          || said == capability + Imap4In.Say(tag, "STARTTLS", "")
          || said == capability + Imap4In.Say(Inc(tag), "STARTTLS", "")
        case Managesieve => said == "STARTTLS" + CRLF)
  }

  lemma SetupSaysOnly(c: Config, s: string, tag: string)
    ensures SetupLine(c, tag, c.SetupRun(s, tag).said)
  {
    hide Imap4Out.SetupRun, Imap4Out.Response, Pop3Out.CapaLines, LineResponse, ManagesieveOut.CapabilityRun, Bit, Inc,
         Imap4In.Say;
    match c.protocol
    case Pop3 =>
    case Imap4 =>
      Imap4Out.SetupSays(s, c.greeting, c.modes.tlsOutgoing, c.modes.outgoingForce, tag);
    case Managesieve =>
  }

  // ----- runs of the loop for a protocol -----

  /** What an event records of the bytes written to server and client is what the protocol's
      functions write, given the tags, the state of both connections and the bytes that
      were read; and the answer, the status and the next tag are theirs too. */
  ghost predicate Told(c: Config, a: Moment, b: Moment) {
    var st, next := a.state, b.state.tag;
    match b.event
    case Asked(pending, answer, told) => exists s :: AskedAs(c, st, pending + s, answer, told)
    case LocallyChecked(status, told) => CheckedAs(c, st, status, told)
    case SetUp(_, status, said, told) => exists s :: SetUpAs(c, st, s, status, said, told, next)
    case Authenticated(_, plain, sent, status, said, told) =>
      && st.auth.Some? && sent == st.auth.value.WithId(c.mangle(st.auth.value.Id()))
      && exists s :: AuthenticatedAs(c, st, plain, sent, s, status, said, told, next)
    case Accepted(told) => told == c.Line(st.clientTag, true, c.okLine)
    case CleanedUp(said, told) =>
      FailureOf(c.modes, a).Some? && FailedAs(c, st, FailureOf(c.modes, a).value, said, told, next)
    case _ => true
  }

  predicate AskedAs(c: Config, st: State, s: string, answer: Answer, told: string) {
    var run := c.ClientRun(s, st.clientTls, st.listenBit);
    answer == run.answer && told == run.said
  }

  /** Of a local check the client is told the refusal alone; ManageSieve has none. */
  predicate CheckedAs(c: Config, st: State, status: int, told: string) {
    && told == (if status == 0 then c.Line(st.clientTag, false, c.LocalRefusal()) else "")
    && (c.protocol.Managesieve? ==> status < 0)
  }

  predicate SetUpAs(c: Config, st: State, s: string, status: int, said: string, told: string, next: string) {
    var d := c.SetupRun(s, st.tag);
    status == d.status && said == d.said && told == d.relayed && next == d.tag
  }

  predicate AuthenticatedAs(c: Config, st: State, plain: bool, sent: Auth, s: string,
                            status: int, said: string, told: string, next: string) {
    var d := c.AuthRun(s, st.outgoingBit, plain, sent, st.tag);
    status == d.status && said == d.said && told == d.relayed && next == d.tag
  }

  /** The server told to quit, and the client told why. */
  predicate FailedAs(c: Config, st: State, f: Failure, said: string, told: string, next: string) {
    && said == (if f.quits then QuitLine(c, st.tag) else "")
    && next == (if f.quits then QuitTag(c, st.tag) else st.tag)
    && told == (match f.reason case None => "" case Some(reason) => c.Line(st.clientTag, false, "failed: " + reason))
  }

  /** What the client is told of the server's answer to the login. */
  function Verdict(c: Config, clientTag: string, status: int): string {
    if status < 0 then ""
    else if status == 0 then c.Line(clientTag, false, "failed: " + "Re-Authentication Failure")
    else if status == 2 then c.Line(clientTag, false, "failed: " + "Login Disabled")
    else if status == 3 then c.Line(clientTag, false, "failed: " + "SASL mechanism unavailable")
    else c.Line(clientTag, true, c.okLine)
  }

  ghost predicate IsSession(c: Config, t: seq<Moment>) {
    IsRun(c.modes, t) && forall i | 0 < i < |t| :: Told(c, t[i - 1], t[i])
  }

  lemma SessionGoesOn(c: Config, t: seq<Moment>, b: Moment)
    requires IsSession(c, t) && Moves(c.modes, t[|t| - 1], b) && Told(c, t[|t| - 1], b)
    ensures IsSession(c, t + [b])
  {
    hide Told, Moves;
    RunGoesOn(c.modes, t, b);
    var u := t + [b];
    forall i | 0 < i < |u| ensures Told(c, u[i - 1], u[i]) {
      assert i < |t| ==> u[i] == t[i];
      assert u[i - 1] == t[i - 1];
    }
  }

  lemma ConsistentModes(c: Config)
    requires c.Valid()
    ensures c.modes.Consistent()
  {
  }

  lemma SessionIsTruthful(c: Config, t: seq<Moment>)
    requires IsSession(c, t)
    ensures Truthful(c.modes, t[|t| - 1])
  {
    BitsAreTruthful(c.modes, t, |t| - 1);
  }

  /** A list that can be added to can be deleted from. */
  lemma StillConfigured(s: string, d: string, n: string, on: bool)
    requires d != "" && Editable(s, d, n, on)
    ensures Editable(s, d, n, false)
  {
    hide Reachable;
    if on {
      NeverFirst(s, d, n);
    }
  }

  method InGetAuth(c: Config, tb: TokenBuffer, io: Io, active: bool) returns (answer: Answer)
    requires c.Valid() && tb.Valid()
    modifies tb, tb.data, io`chunks, io`sent
    ensures tb.Valid()
    ensures var run := c.ClientRun(old(tb.Stream(io)), io.ssl, active);
            answer == run.answer && tb.Stream(io) == run.rest && io.sent == old(io.sent) + run.said
  {
    hide Pop3In.GetAuthRun, Imap4In.GetAuthRun, ManagesieveIn.GetAuthRun;
    hide Imap4In.Configured, Reachable;
    var m := c.modes;
    match c.protocol {
      case Pop3 =>
        StillConfigured(c.capability, Pop3Delimiter(c.capability), STLS, m.tlsListen);
        answer := Pop3In.GetAuth(tb, io, c.capability, m.tlsListen, active);
      case Imap4 =>
        answer := Imap4In.GetAuth(tb, io, c.capability, m.tlsListen, m.listenForce, active, m.loginDisabled);
      case Managesieve =>
        StillConfigured(c.capability, MANAGESIEVE_DELIMITER, QUOTED_STARTTLS, m.tlsListen);
        answer := ManagesieveIn.GetAuth(tb, io, c.capability, m.tlsListen, active, c.inLib);
    }
  }

  method OutSetup(c: Config, tb: TokenBuffer, server: Io, client: Io, tag: string) returns (status: int, tag': string)
    requires tb.Valid() && client != server
    modifies tb, tb.data, server`chunks, server`sent, client`sent
    ensures tb.Valid()
    ensures var d := c.SetupRun(old(tb.Stream(server)), tag);
            && status == d.status && tag' == d.tag && tb.Stream(server) == d.rest
            && server.sent == old(server.sent) + d.said && client.sent == old(client.sent) + d.relayed
  {
    hide Imap4Out.Negotiate, Imap4Out.Response, ManagesieveOut.CapabilityRun, LineResponse, Pop3Out.CapaLines;
    tag' := tag;
    var m := c.modes;
    match c.protocol {
      case Pop3 => status := Pop3Out.Setup(tb, server, c.greeting, m.tlsOutgoing, m.outgoingForce, tag);
      case Imap4 => status, tag' := Imap4Out.Setup(tb, server, client, c.greeting, m.tlsOutgoing, m.outgoingForce, tag);
      case Managesieve => status := ManagesieveOut.Setup(tb, server, m.tlsOutgoing, m.outgoingForce, c.outLib, tag);
    }
  }

  method OutAuthenticate(c: Config, tb: TokenBuffer, server: Io, client: Io, active: bool, plain: bool, auth: Auth,
                         tag: string)
    returns (status: int, tag': string)
    requires tb.Valid() && client != server
    modifies tb, tb.data, server`chunks, server`sent, client`sent
    ensures tb.Valid()
    ensures var d := c.AuthRun(old(tb.Stream(server)), active, plain, auth, tag);
            && status == d.status && tag' == d.tag && tb.Stream(server) == d.rest
            && server.sent == old(server.sent) + d.said && client.sent == old(client.sent) + d.relayed
  {
    hide Imap4Out.LoginRun, Imap4Out.CapabilityRun, ManagesieveOut.CapabilityRun;
    tag' := tag;
    match c.protocol {
      case Pop3 => status := Pop3Out.Authenticate(tb, server, auth.user, auth.passwd, tag);
      case Imap4 =>
        var none := new char[0];
        status, tag' := Imap4Out.Authenticate(tb, server, client, none, 0, auth.user, auth.passwd, tag);
      case Managesieve => status := ManagesieveOut.Authenticate(tb, server, active, plain, auth, c.outLib, tag);
    }
  }

  /** quit: the reply is read and not looked at. */
  method Quit(c: Config, tb: TokenBuffer, server: Io, client: Io, tag: string) returns (tag': string)
    requires tb.Valid() && client != server
    modifies tb, tb.data, server`chunks, server`sent, client`sent
    ensures tb.Valid() && client.sent == old(client.sent)
    ensures server.sent == old(server.sent) + QuitLine(c, tag)
    ensures tb.Stream(server) == QuitRest(c, old(tb.Stream(server)), tag)
    ensures tag' == QuitTag(c, tag)
  {
    hide Imap4Out.Response, LineResponse;
    tag' := tag;
    match c.protocol {
      case Pop3 =>
        SendLine(tb, server, "QUIT");
        var _, _ := ReadLineResponse(tb, server, "+OK");
      case Imap4 =>
        SendLine(tb, server, tag + " LOGOUT");
        var none := new char[0];
        var _, _, _, _ := Imap4Out.ReadResponse(tb, server, client, false, none, 0, Some(Token(tag, Plain)),
                                                Imap4Out.OK);
        Imap4Out.NothingRelayed(old(tb.Stream(server)), Some(Token(tag, Plain)), Imap4Out.OK);
        tag' := Inc(tag);
      case Managesieve =>
        SendLine(tb, server, "LOGOUT");
        var _, _ := ReadLineResponse(tb, server, "OK");
    }
  }
}
