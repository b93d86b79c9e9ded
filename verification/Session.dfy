/** perdition.c: the loop that logs a client in, from the greeting to the server's
    acceptance. */
module Session {
  import opened ClientAuth
  import opened Dialogue
  import opened Protocols
  import opened SessionRuns
  import opened Text
  import opened Tokenizer
  import ImapTag

  /** Everything outside the process: it may refuse whatever it is asked for, and
      what a new connection delivers is arbitrary. It opens connections and performs
      handshakes finitely often. */
  class Network {
    var budget: nat

    constructor (budget: nat)
      ensures this.budget == budget
    {
      this.budget := budget;
    }

    method NewIo(ssl: bool) returns (io: Io?)
      modifies this
      ensures budget <= old(budget)
      ensures io != null ==> fresh(io) && io.ssl == ssl && io.sent == "" && budget < old(budget)
    {
      var refused: bool := *;
      if refused || budget == 0 {
        return null;
      }
      budget := budget - 1;
      var chunks: seq<Chunk> := *;
      io := new Io(ssl, chunks);
    }

    /** vanessa_socket_client_src_open and io_create_fd. */
    method Connect() returns (io: Io?)
      modifies this
      ensures budget <= old(budget)
      ensures io != null ==> fresh(io) && !io.ssl && io.sent == "" && budget < old(budget)
    {
      io := NewIo(false);
    }

    /** perdition_ssl_server_connection and perdition_ssl_client_connection: the bytes
        of the new connection are those decrypted from then on. */
    method Handshake() returns (io: Io?)
      modifies this
      ensures budget <= old(budget)
      ensures io != null ==> fresh(io) && io.ssl && io.sent == "" && budget < old(budget)
    {
      io := NewIo(true);
    }

    /** getserver and the defaults: whether a server was found, and the user name the
        database put in place of the client's. */
    method Lookup(id: string) returns (found: bool, user: Option<string>) {
      found := *;
      user := *;
    }

    /** in_authenticate. */
    method LocalAuth(auth: Auth) returns (status: int)
      ensures -1 <= status <= 1
    {
      var s: int := *;
      status := if -1 <= s <= 1 then s else -1;
    }
  }

  /** How a turn of the loop ends. */
  datatype Outcome = Retry | Success | Exit

  class Session {
    const config: Config
    const tb: TokenBuffer
    const net: Network
    var client: Io
    var server: Io?
    var listenBit: bool
    var outgoingBit: bool
    var auth: Option<Auth>
    var clientTag: string
    var ourTag: string
    ghost var trace: seq<Moment>

    ghost function View(): State
      reads this
    {
      State(listenBit, client.ssl, outgoingBit, if server == null then None else Some(server.ssl), auth,
            clientTag, ourTag)
    }

    ghost function Last(): Event
      requires trace != []
      reads this
    {
      trace[|trace| - 1].event
    }

    ghost function Now(): Moment
      requires trace != []
      reads this
    {
      trace[|trace| - 1]
    }

    ghost predicate Sound()
      reads this, tb, tb.data
    {
      && config.Valid() && tb.Valid() && client != server
      && trace != [] && IsSession(config, trace) && trace[|trace| - 1].state.Like(View())
    }

    /** Sound, and the trace tells all that was written to server and client, and the next
        tag. */
    ghost predicate Valid()
      reads this, tb, tb.data, server, client
    {
      && Sound() && trace[|trace| - 1].state.tag == ourTag && client.sent == Shown(trace)
      && (server != null ==> server.sent == Heard(trace))
    }

    constructor (config: Config, net: Network, client: Io)
      requires config.Valid() && client.ssl == config.modes.sslListen
      ensures Valid() && this.config == config && this.net == net && this.client == client
      ensures Last().Greeted? && tb.Pending() == "" && fresh(tb) && fresh(tb.data)
    {
      this.config, this.net, this.client := config, net, client;
      server, listenBit, outgoingBit, auth := null, false, false, None;
      clientTag, ourTag := "", ImapTag.IMAP_TAG_START;
      var state := State(false, config.modes.sslListen, false, None, None, "", ImapTag.IMAP_TAG_START);
      trace := [Moment(Greeted(client.sent), state)];
      tb := new TokenBuffer();
      new;
      assert Starts(config.modes, trace[0]);
    }

    ghost method Record(e: Event)
      requires trace != [] && IsSession(config, trace)
      requires Moves(config.modes, trace[|trace| - 1], Moment(e, View()))
      requires Told(config, trace[|trace| - 1], Moment(e, View()))
      modifies this`trace
      ensures trace == old(trace) + [Moment(e, View())] && IsSession(config, trace)
      ensures Heard(trace) == HeardAfter(Heard(old(trace)), e) && Shown(trace) == ShownAfter(Shown(old(trace)), e)
    {
      SessionGoesOn(config, trace, Moment(e, View()));
      HeardGoesOn(trace, Moment(e, View()));
      ShownGoesOn(trace, Moment(e, View()));
      trace := trace + [Moment(e, View())];
    }

    /** LOGIN_FAILED_PROTOCOL. */
    method Fail(reason: string)
      modifies client`sent
      ensures client.sent == old(client.sent) + config.Line(clientTag, false, "failed: " + reason)
    {
      client.Write(config.Line(clientTag, false, "failed: " + reason));
    }

    /** PERDITION_CLEAN_UP_MAIN, `said` and `told` being what has just been written to server
        and client. */
    method CleanUp(ghost said: string, ghost told: string)
      requires Sound() && FailureOf(config.modes, Now()).Some?
      requires FailedAs(config, Now().state, FailureOf(config.modes, Now()).value, said, told, ourTag)
      requires server != null ==> server.sent == Heard(trace) + said
      requires client.sent == Shown(trace) + told
      modifies this
      ensures Valid() && trace == old(trace) + [Moment(CleanedUp(said, told), View())]
      ensures client == old(client) && server == null && ourTag == old(ourTag)
      ensures !listenBit && !outgoingBit && auth == None
    {
      hide IsSession, Config.Valid, FailedAs, FailureOf, Bit, Heard, HeardAfter, Shown, ShownAfter;
      CleanUpIsHeard(Heard(trace), Shown(trace), said, told);
      auth, server, clientTag := None, null, "";
      listenBit, outgoingBit := false, false;
      Record(CleanedUp(said, told));
    }

    /** The call of in_get_auth, and the flush behind it. */
    method Ask() returns (answer: Answer)
      requires Valid() && TurnStarts(Last()) && (Last().CleanedUp? || tb.Pending() == "")
      modifies this`auth, this`clientTag, this`trace, tb, tb.data, client`chunks, client`sent
      ensures Valid() && tb.Pending() == "" && client == old(client) && listenBit == old(listenBit)
      ensures var run := config.ClientRun(old(tb.Stream(client)), client.ssl, listenBit);
              && answer == run.answer && client.sent == old(client.sent) + run.said
              && trace == old(trace) + [Moment(Asked(old(tb.Pending()), answer, run.said), View())]
      ensures answer.LoggedIn? ==> auth == Some(answer.auth)
      ensures !answer.Failed? ==> |tb.Stream(client)| < |old(tb.Stream(client))|
    {
      hide IsSession, Config.ClientRun, Config.Valid, Bit, Heard, Moves, Told, HeardAfter, Shown, ShownAfter;
      ghost var pending, s := tb.Pending(), tb.Stream(client);
      ghost var unread, run := client.Unread(), config.ClientRun(s, client.ssl, listenBit);
      ClientRunMeaning(config, s, client.ssl, listenBit);
      answer := InGetAuth(config, tb, client, listenBit);
      tb.Flush();
      if answer.LoggedIn? {
        auth, clientTag := Some(answer.auth), answer.tag;
      }
      RecordAnswer(pending, unread, answer, run.said);
    }

    ghost method RecordAnswer(pending: string, unread: string, answer: Answer, told: string)
      requires trace != [] && IsSession(config, trace) && TurnStarts(Last()) && (Last().CleanedUp? || pending == "")
      requires answer.Upgrade? ==> config.modes.tlsListen && !client.ssl
      requires var s := Now().state;
               View() == if answer.LoggedIn? then s.(auth := Some(answer.auth), clientTag := answer.tag) else s
      requires AskedAs(config, Now().state, pending + unread, answer, told)
      modifies this`trace
      ensures trace == old(trace) + [Moment(Asked(pending, answer, told), View())] && IsSession(config, trace)
      ensures Heard(trace) == Heard(old(trace)) && Shown(trace) == Shown(old(trace)) + told
    {
      hide IsSession, Config.Valid, Bit, Heard, Shown, Moves, AskedAs;
      MovesToAsked(config.modes, trace[|trace| - 1], pending, answer, told);
      Record(Asked(pending, answer, told));
    }

    /** STARTTLS from the client. */
    method UpgradeClient() returns (ok: bool)
      requires Valid() && Last().Asked? && Last().answer.Upgrade? && tb.Pending() == ""
      modifies this`client, this`listenBit, this`trace, net
      ensures Valid()
      ensures ok ==> fresh(client) && client.ssl && listenBit && net.budget < old(net.budget)
      ensures ok ==> trace == old(trace) + [Moment(ClientUpgraded, View())]
      ensures !ok ==> trace == old(trace)
    {
      hide IsSession, Config.Valid, Heard, Shown, Bit;
      var io := net.Handshake();
      if io == null {
        return false;
      }
      client, listenBit := io, true;
      Record(ClientUpgraded);
      ok := true;
    }

    /** The failure is reported and everything but the client's connection reset. */
    method GiveUp(reason: string, ghost said: string)
      requires Sound() && client.sent == Shown(trace) && (server != null ==> server.sent == Heard(trace) + said)
      requires var f := FailureOf(config.modes, Now());
               && f.Some? && f.value.reason == Some(reason)
               && said == (if f.value.quits then QuitLine(config, Now().state.tag) else "")
               && ourTag == (if f.value.quits then QuitTag(config, Now().state.tag) else Now().state.tag)
      modifies this, client`sent
      ensures Valid() && client == old(client) && ourTag == old(ourTag)
      ensures var told := config.Line(old(clientTag), false, "failed: " + reason);
              client.sent == old(client.sent) + told && trace == old(trace) + [Moment(CleanedUp(said, told), View())]
    {
      hide IsSession, Config.Valid, Config.Line, FailureOf, Heard, Shown, Bit, QuitLine, QuitTag;
      ghost var told := config.Line(clientTag, false, "failed: " + reason);
      Fail(reason);
      CleanUp(said, told);
    }

    /** The lookup, and the user name it may put in place of the client's. */
    method FindServer() returns (found: bool)
      requires Valid() && Last().Asked? && Last().answer.LoggedIn? && auth.Some? && !config.modes.Refuses(listenBit)
      modifies this`auth, this`trace
      ensures Valid() && auth.Some? && auth.value.passwd == old(auth).value.passwd
      ensures |trace| == |old(trace)| + 1 && old(trace) <= trace && Last().LookedUp? && Last().found == found
      ensures config.modes.listenForce ==> client.ssl
    {
      hide IsSession, Bit;
      SessionIsTruthful(config, trace);
      var user;
      found, user := net.Lookup(auth.value.Id());
      if user.Some? {
        auth := Some(auth.value.WithId(user.value));
      }
      Record(LookedUp(found, user));
    }

    /** in_authenticate, which tells the client of a refusal. */
    method CheckLocally() returns (status: int)
      requires Valid() && Last().LookedUp? && Last().found && config.modes.authenticateIn && auth.Some?
      modifies this`trace, client`sent
      ensures Valid() && -1 <= status <= 1 && (config.protocol.Managesieve? ==> status < 0)
      ensures var told := if status == 0 then config.Line(clientTag, false, config.LocalRefusal()) else "";
              && client.sent == old(client.sent) + told
              && trace == old(trace) + [Moment(LocallyChecked(status, told), View())]
    {
      hide IsSession, Config.Valid, Config.Line, Config.LocalRefusal, FailureOf, Heard, Shown, Bit;
      ghost var told := "";
      if config.protocol.Managesieve? {
        status := -1;
      } else {
        status := net.LocalAuth(auth.value);
        if status == 0 {
          var refusal := config.Line(clientTag, false, config.LocalRefusal());
          client.Write(refusal);
          told := refusal;
        }
      }
      Record(LocallyChecked(status, told));
    }

    /** The server's connection, TLS from the start where ssl_outgoing is set. */
    method OpenServer() returns (o: Outcome)
      requires Valid() && MayConnect(config.modes, Last())
      modifies this`server, this`trace, net
      ensures net.budget <= old(net.budget) && old(trace) <= trace && Valid()
      ensures o.Retry? ==> trace == old(trace) && server == old(server)
      ensures o.Success? ==> server != null && fresh(server) && net.budget < old(net.budget) && server.sent == ""
      ensures o.Success? ==> if config.modes.sslOutgoing then Last().ServerHandshaken? else Last().Connected?
      ensures o.Exit? ==> MayExit(config.modes, Last())
    {
      hide IsSession, Config.Valid, Heard, Shown, Bit;
      var io := net.Connect();
      if io == null {
        return Retry;
      }
      server := io;
      Record(Connected);
      o := Success;
      if config.modes.sslOutgoing {
        var ok := SecureServer();
        o := if ok then Success else Exit;
      }
    }

    method SecureServer() returns (ok: bool)
      requires Valid() && server != null && Last().Connected? && config.modes.sslOutgoing
      modifies this`server, this`trace, net
      ensures net.budget <= old(net.budget) && Valid()
      ensures ok ==> fresh(server) && server.sent == "" && trace == old(trace) + [Moment(ServerHandshaken, View())]
      ensures !ok ==> trace == old(trace)
    {
      hide IsSession, Config.Valid, Heard, Shown, Bit;
      var io := net.Handshake();
      if io == null {
        return false;
      }
      server := io;
      Record(ServerHandshaken);
      ok := true;
    }

    /** out_setup: what it makes of the server is a function of the server's bytes
        alone, and what it sends has nothing to do with the credentials. */
    method SetUpServer() returns (status: int)
      requires Valid() && server != null && tb.Pending() == ""
      requires if config.modes.sslOutgoing then Last().ServerHandshaken? else Last().Connected?
      modifies this`ourTag, this`trace, tb, tb.data, server`chunks, server`sent, client`sent
      ensures Valid() && |trace| == |old(trace)| + 1 && old(trace) <= trace && Last().SetUp? && Last().status == status
      ensures var d := config.SetupRun(old(server.Unread()), old(ourTag));
              && status == d.status && ourTag == d.tag
              && server.sent == old(server.sent) + d.said && client.sent == old(client.sent) + d.relayed
              && Last() == SetUp("", status, d.said, d.relayed) && SetupLine(config, old(ourTag), d.said)
    {
      hide IsSession, Config.Valid, Config.SetupRun, Bit, SetupLine, Heard, Shown, HeardAfter, ShownAfter, Moves, Told;
      ghost var input, tag := server.Unread(), ourTag;
      SetupSaysOnly(config, server.Unread(), ourTag);
      assert tb.Stream(server) == server.Unread();
      status, ourTag := OutSetup(config, tb, server, client, ourTag);
      RecordSetup(input, tag);
    }

    ghost method RecordSetup(input: string, tag: string)
      requires trace != [] && IsSession(config, trace)
      requires if config.modes.sslOutgoing then Last().ServerHandshaken? else Last().Connected?
      requires View().(tag := tag) == Now().state && ourTag == config.SetupRun(input, tag).tag
      modifies this`trace
      ensures var d := config.SetupRun(input, tag);
              && trace == old(trace) + [Moment(SetUp("", d.status, d.said, d.relayed), View())]
              && IsSession(config, trace)
              && Heard(trace) == Heard(old(trace)) + d.said && Shown(trace) == Shown(old(trace)) + d.relayed
    {
      hide IsSession, Config.Valid, Config.SetupRun, Bit, Heard, Shown;
      ghost var d := config.SetupRun(input, tag);
      assert SetUpAs(config, Now().state, input, d.status, d.said, d.relayed, ourTag);
      Record(SetUp("", d.status, d.said, d.relayed));
    }

    method UpgradeServer() returns (ok: bool)
      requires Valid() && server != null && Last().SetUp?
      requires Last().status > 0 && config.modes.tlsOutgoing && Bit(Last().status, S_STARTTLS)
      modifies this`server, this`outgoingBit, this`trace, net
      ensures net.budget <= old(net.budget) && Valid()
      ensures ok ==> fresh(server) && server.ssl && outgoingBit
      ensures ok ==> trace == old(trace) + [Moment(ServerUpgraded(old(Last()).status), View())]
      ensures !ok ==> trace == old(trace)
    {
      hide IsSession, Config.Valid, Heard, Shown, Bit;
      var io := net.Handshake();
      if io == null {
        return false;
      }
      server, outgoingBit := io, true;
      Record(ServerUpgraded(Last().status));
      ok := true;
    }

    /** Under force, the credentials only ever go to a TLS connection. */
    lemma OverTls()
      requires Valid() && server != null && MayLogIn(config.modes, Last())
      ensures config.modes.outgoingForce ==> server.ssl
    {
      hide IsSession, Config.Valid, Bit, Heard, MayLogIn;
      ConsistentModes(config);
      SessionIsTruthful(config, trace);
      if config.modes.outgoingForce {
        MayLogInOverTls(config.modes, trace[|trace| - 1]);
      }
    }

    /** out_authenticate, the buffer flushed first: what it makes of the server is a
        function of what the server sends from here on. */
    method AuthenticateServer(plain: bool) returns (status: int)
      requires Valid() && server != null && auth.Some?
      requires MayLogIn(config.modes, Last()) && plain == Bit(Last().status, S_SASL_PLAIN)
      modifies this`ourTag, this`trace, tb, tb.data, server`chunks, server`sent, client`sent
      ensures var sent := auth.value.WithId(config.mangle(auth.value.Id()));
              var d := config.AuthRun(old(server.Unread()), outgoingBit, plain, sent, old(ourTag));
              && Valid()
              && trace == old(trace) + [Moment(Authenticated("", plain, sent, status, d.said, d.relayed), View())]
              && status == d.status && ourTag == d.tag
              && server.sent == old(server.sent) + d.said && client.sent == old(client.sent) + d.relayed
      ensures config.modes.outgoingForce ==> server.ssl
    {
      hide IsSession, Config.Valid, Config.AuthRun, Bit, Heard, Shown, Moves, MayLogIn, Told, HeardAfter, ShownAfter;
      OverTls();
      var sent := auth.value.WithId(config.mangle(auth.value.Id()));
      tb.Flush();
      assert tb.Stream(server) == server.Unread();
      ghost var input, tag := server.Unread(), ourTag;
      status, ourTag := OutAuthenticate(config, tb, server, client, outgoingBit, plain, sent, ourTag);
      RecordLogin(input, plain, sent, tag);
    }

    ghost method RecordLogin(input: string, plain: bool, sent: Auth, tag: string)
      requires trace != [] && IsSession(config, trace) && MayLogIn(config.modes, Last())
      requires View().(tag := tag) == Now().state && auth.Some? && plain == Bit(Last().status, S_SASL_PLAIN)
      requires sent == auth.value.WithId(config.mangle(auth.value.Id()))
      requires ourTag == config.AuthRun(input, outgoingBit, plain, sent, tag).tag
      modifies this`trace
      ensures var d := config.AuthRun(input, outgoingBit, plain, sent, tag);
              && trace == old(trace) + [Moment(Authenticated("", plain, sent, d.status, d.said, d.relayed), View())]
              && IsSession(config, trace)
              && Heard(trace) == Heard(old(trace)) + d.said && Shown(trace) == Shown(old(trace)) + d.relayed
    {
      hide IsSession, Config.Valid, Config.AuthRun, Bit, Heard, Shown, Moves, MayLogIn;
      ghost var d := config.AuthRun(input, outgoingBit, plain, sent, tag);
      MovesToAuthenticated(config.modes, Now(), config.mangle(auth.value.Id()), d.status, d.said, d.relayed, ourTag);
      assert AuthenticatedAs(config, Now().state, plain, sent, input, d.status, d.said, d.relayed, ourTag);
      Record(Authenticated("", plain, sent, d.status, d.said, d.relayed));
    }

    /** quit, the report to the client, and the reset. */
    method QuitAndGiveUp(reason: string)
      requires Valid() && server != null && FailureOf(config.modes, Now()) == Some(Failure(Some(reason), true))
      modifies this, tb, tb.data, server`chunks, server`sent, client`sent
      ensures Valid() && client == old(client)
      ensures var said := QuitLine(config, old(ourTag));
              var told := config.Line(old(clientTag), false, "failed: " + reason);
              && trace == old(trace) + [Moment(CleanedUp(said, told), View())]
              && client.sent == old(client.sent) + told
              && old(server).sent == old(server.sent) + said && old(server).sent == Heard(trace)
    {
      hide IsSession, Config.Valid, Config.Line, Bit, Told, FailureOf, QuitLine, QuitRest, QuitTag, Shown;
      ghost var said, told := QuitLine(config, ourTag), config.Line(clientTag, false, "failed: " + reason);
      ourTag := Quit(config, tb, server, client, ourTag);
      GiveUp(reason, said);
      assert trace[..|trace| - 1] == old(trace);
    }

    /** The loop body from the server's greeting to its acceptance. */
    method LogIn() returns (o: Outcome)
      requires Valid() && server != null && auth.Some? && tb.Pending() == ""
      requires if config.modes.sslOutgoing then Last().ServerHandshaken? else Last().Connected?
      modifies this, tb, tb.data, net, server`chunks, server`sent, client`sent
      ensures old(trace) <= trace && Valid() && net.budget <= old(net.budget) && client == old(client)
      ensures Ended(o)
    {
      hide IsSession, Config.Valid, Config.SetupRun, Config.AuthRun, Config.Line, Bit, Moves, Heard, Shown;
      var m := config.modes;
      var status := SetUpServer();
      if status == 0 {
        QuitAndGiveUp("Connection Negotiation Failure");
        return Retry;
      }
      if status < 0 {
        return Exit;
      }
      var plain := Bit(status, S_SASL_PLAIN);
      if m.tlsOutgoing && Bit(status, S_STARTTLS) {
        var ok := UpgradeServer();
        if !ok {
          return Exit;
        }
      } else if m.tlsOutgoing && m.outgoingForce && !Bit(status, S_STARTTLS) {
        QuitAndGiveUp("TLS not present");
        return Retry;
      }
      o := Conclude(plain);
    }

    /** How a turn has ended: by letting the client in, by a clean-up, or by the end of the
        process. */
    ghost predicate Ended(o: Outcome)
      requires trace != []
      reads this
    {
      match o
      case Success => Last().Accepted?
      case Retry => Last().CleanedUp?
      case Exit => MayExit(config.modes, Last())
    }

    /** out_authenticate, and what its status leads to: the client is let in on the server's
        consent and on nothing else, and told so, or told why not. */
    method Conclude(plain: bool) returns (o: Outcome)
      requires Valid() && server != null && auth.Some?
      requires MayLogIn(config.modes, Last()) && plain == Bit(Last().status, S_SASL_PLAIN)
      modifies this, tb, tb.data, server`chunks, server`sent, client`sent
      ensures old(trace) <= trace && Valid() && client == old(client) && Ended(o)
      ensures var sent := old(auth).value.WithId(config.mangle(old(auth).value.Id()));
              var d := config.AuthRun(old(server.Unread()), old(outgoingBit), plain, sent, old(ourTag));
              && (o.Success? <==> d.status > 0 && d.status != 2 && d.status != 3)
              && (o.Retry? <==> d.status == 0 || d.status == 2 || d.status == 3)
              && client.sent == old(client.sent) + d.relayed + Verdict(config, old(clientTag), d.status)
    {
      hide IsSession, Config.Valid, Config.AuthRun, Config.Line, Bit, Moves, Heard, Shown, Told, HeardAfter, ShownAfter;
      var status := AuthenticateServer(plain);
      if status == 0 {
        QuitAndGiveUp("Re-Authentication Failure");
        o := Retry;
      } else if status == 2 {
        GiveUp("Login Disabled", "");
        o := Retry;
      } else if status == 3 {
        GiveUp("SASL mechanism unavailable", "");
        o := Retry;
      } else if status < 0 {
        o := Exit;
      } else {
        LetIn();
        o := Success;
      }
    }

    method LetIn()
      requires Valid() && Last().Authenticated? && Last().status > 0 && Last().status != 2 && Last().status != 3
      modifies this`trace, client`sent
      ensures Valid()
      ensures var told := config.Line(clientTag, true, config.okLine);
              client.sent == old(client.sent) + told && trace == old(trace) + [Moment(Accepted(told), View())]
    {
      hide IsSession, Config.Valid, Config.Line, Bit, Heard, Shown;
      client.Write(config.Line(clientTag, true, config.okLine));
      Record(Accepted(config.Line(clientTag, true, config.okLine)));
    }

    /** The loop body from the client's credentials on. */
    method Attempt() returns (o: Outcome)
      requires Valid() && Last().Asked? && Last().answer.LoggedIn? && auth.Some? && tb.Pending() == ""
      requires !config.modes.Refuses(listenBit)
      modifies this, tb, tb.data, net, client`sent
      ensures old(trace) <= trace && Valid() && net.budget <= old(net.budget) && client == old(client)
      ensures o.Retry? && net.budget == old(net.budget) ==> tb.Stream(client) == old(tb.Stream(client))
      ensures Ended(o)
    {
      hide IsSession, Config.Valid, Config.Line, Bit, Moves, Heard, HeardAfter, Shown, ShownAfter;
      var found := FindServer();
      if !found {
        GiveUp("Could not determine server", "");
        return Retry;
      }
      if config.modes.authenticateIn {
        var status := CheckLocally();
        if status == 0 {
          CleanUp("", "");
          return Retry;
        } else if status < 0 {
          return Exit;
        }
      }
      o := ReachServer();
    }

    /** The loop body once the server is known. */
    method ReachServer() returns (o: Outcome)
      requires Valid() && MayConnect(config.modes, Last()) && auth.Some? && tb.Pending() == ""
      modifies this, tb, tb.data, net, client`sent
      ensures old(trace) <= trace && Valid() && net.budget <= old(net.budget) && client == old(client)
      ensures o.Retry? && net.budget == old(net.budget) ==> tb.Stream(client) == old(tb.Stream(client))
      ensures Ended(o)
    {
      hide IsSession, Config.Valid, Config.Line, Bit, Moves, Heard, HeardAfter, Shown, ShownAfter;
      o := OpenServer();
      if o.Retry? {
        GiveUp("Could not connect to server", "");
      } else if o.Success? {
        o := LogIn();
      }
    }

    /** One turn of the for loop. */
    method Turn() returns (o: Outcome)
      requires Valid() && TurnStarts(Last()) && (Last().CleanedUp? || tb.Pending() == "")
      modifies this, tb, tb.data, net, client
      ensures old(trace) <= trace && Valid()
      ensures o.Retry? ==> TurnStarts(Last()) && (Last().CleanedUp? || tb.Pending() == "")
      ensures o.Retry? ==> client == old(client) || fresh(client)
      ensures o.Retry? ==> net.budget < old(net.budget) ||
                           (net.budget == old(net.budget) && |tb.Stream(client)| < |old(tb.Stream(client))|)
      ensures o.Success? <==> Last().Accepted?
      ensures o.Exit? ==> MayExit(config.modes, Last())
    {
      hide IsSession, Config.Valid, Config.ClientRun, Config.Line, Bit, Moves, Heard, Shown;
      var answer := Ask();
      if answer.Failed? || answer.Quitted? {
        o := Exit;
      } else if answer.Upgrade? {
        var upgraded := UpgradeClient();
        o := if upgraded then Retry else Exit;
      } else if config.modes.Refuses(listenBit) {
        GiveUp("Login Disabled", "");
        o := Retry;
      } else {
        o := Attempt();
      }
    }

    /** The for loop: every run of it is a run of the machine, whatever client, server and
        network do; it logs the client in exactly if the run ends with the client let in. */
    method Serve() returns (ok: bool)
      requires Valid() && Last().Greeted? && tb.Pending() == ""
      modifies this, tb, tb.data, net, client
      ensures Valid() && old(trace) <= trace
      ensures ok <==> Last().Accepted?
      ensures !ok ==> MayExit(config.modes, Last())
    {
      hide IsSession, Config.Valid;
      while true
        invariant Valid() && TurnStarts(Last()) && (Last().CleanedUp? || tb.Pending() == "")
        invariant (client == old(client) || fresh(client)) && old(trace) <= trace
        decreases net.budget, |tb.Stream(client)|
      {
        var o := Turn();
        if !o.Retry? {
          return o.Success?;
        }
      }
    }
  }
}
